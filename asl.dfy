/**
 * The active semaphore list (queues/asl.c, h/asl.h).
 *
 * A semaphore descriptor holds the address of a semaphore and the tail handle
 * of the queue of processes blocked on it. Descriptors live in `semdTable` and
 * are named by index; ENULL is the null pointer. A descriptor is either on the
 * active semaphore list (ASL), a doubly linked list kept in ascending order of
 * semaphore address, or on the free list, which is threaded through `next`.
 * Semaphore addresses are modelled as integers, with ENULL for the null
 * address. The process queues are those of the ProcQueue module.
 */
module ActiveSemaphores {
  import opened ProcQueue

  /** A semaphore descriptor (`semd_t`): ASL neighbours, semaphore address, queue tail handle. */
  datatype Semd = Semd(next: int, prev: int, semAdd: int, link: Link)

  /** A descriptor after resetSemaphore. */
  const NoSemd: Semd := Semd(ENULL, ENULL, ENULL, NoLink)

  ghost predicate InTable(A: seq<int>) {
    forall i :: 0 <= i < |A| ==> 0 <= A[i] < MAXPROC
  }

  /**
   * A, head first, is the ASL headed by h: each descriptor links to its
   * neighbours in both directions, and the addresses strictly ascend.
   */
  ghost predicate ActiveList(S: seq<Semd>, h: int, A: seq<int>) {
    |S| == MAXPROC && InTable(A) && Distinct(A) &&
    h == (if A == [] then ENULL else A[0]) &&
    (forall i :: 0 <= i < |A| ==> S[A[i]].next == (if i + 1 < |A| then A[i + 1] else ENULL)) &&
    (forall i :: 0 <= i < |A| ==> S[A[i]].prev == (if i == 0 then ENULL else A[i - 1])) &&
    (forall i, j :: 0 <= i < j < |A| ==> S[A[i]].semAdd < S[A[j]].semAdd)
  }

  /** F, head first, is the free list of descriptors headed by h, threaded through `next`. */
  ghost predicate SemdFreeList(S: seq<Semd>, h: int, F: seq<int>) {
    |S| == MAXPROC && InTable(F) && Distinct(F) &&
    h == (if F == [] then ENULL else F[0]) &&
    forall i :: 0 <= i < |F| ==> S[F[i]].next == (if i + 1 < |F| then F[i + 1] else ENULL)
  }

  /** Every descriptor is on exactly one of the two lists. */
  ghost predicate Partition(A: seq<int>, F: seq<int>) {
    forall d :: 0 <= d < MAXPROC ==> (d in A <==> d !in F)
  }

  /** No member of the queue q is on the free list of processes pf. */
  ghost predicate NotFree(q: seq<Pos>, pf: seq<int>) {
    forall i :: 0 <= i < |q| ==> q[i].proc !in pf
  }

  /** The queues of different descriptors share no position. */
  ghost predicate Disjoint(Q: seq<seq<Pos>>) {
    forall d, e, i, j :: 0 <= d < |Q| && 0 <= e < |Q| && d != e && 0 <= i < |Q[d]| && 0 <= j < |Q[e]| ==>
      Q[d][i] != Q[e][j]
  }

  /** The positions of all the queues Q, descriptor by descriptor. */
  ghost function Flat(Q: seq<seq<Pos>>): seq<Pos> {
    if Q == [] then [] else Flat(Q[..|Q| - 1]) + Q[|Q| - 1]
  }

  /** Every position of the queue of descriptor e is among the positions of all the queues. */
  lemma {:induction false} FlatHas(Q: seq<seq<Pos>>, e: int)
    requires 0 <= e < |Q|
    ensures forall x :: x in Q[e] ==> x in Flat(Q)
  {
    if e < |Q| - 1 {
      FlatHas(Q[..|Q| - 1], e);
      assert Q[..|Q| - 1][e] == Q[e];
    }
  }

  /** A table change framed by the queue of descriptor e is framed by all the queues. */
  lemma FrameFlat(T0: seq<Proc>, T1: seq<Proc>, Q: seq<seq<Pos>>, e: int, who: int)
    requires 0 <= e < |Q| && Frame(T0, T1, Q[e], who)
    ensures Frame(T0, T1, Flat(Q), who)
  {
    FlatHas(Q, e);
    FrameWiden(T0, T1, Q[e], Flat(Q), who);
  }

  /**
   * Q[d] is the queue of descriptor d: exactly the active descriptors have a
   * non-empty queue, it is the ring their tail handle addresses in the process
   * table T, its members are allocated processes, and queues share no position.
   */
  ghost predicate QueuesInv(S: seq<Semd>, A: seq<int>, Q: seq<seq<Pos>>, T: seq<Proc>, pf: seq<int>) {
    |S| == MAXPROC && |Q| == MAXPROC && Shape(T) &&
    (forall d :: 0 <= d < MAXPROC ==> (d in A <==> Q[d] != [])) &&
    (forall d :: 0 <= d < MAXPROC && d in A ==> IsRing(T, S[d].link, Q[d]) && NotFree(Q[d], pf)) &&
    Disjoint(Q)
  }

  /** The invariant of the semaphore layer. */
  ghost predicate AslInv(S: seq<Semd>, h: int, fh: int, A: seq<int>, F: seq<int>, Q: seq<seq<Pos>>, T: seq<Proc>, pf: seq<int>) {
    ActiveList(S, h, A) && SemdFreeList(S, fh, F) && Partition(A, F) && QueuesInv(S, A, Q, T, pf)
  }

  /** The descriptor of A for address a, or ENULL (the search getSemaphoreFromActiveList makes). */
  function Lookup(S: seq<Semd>, A: seq<int>, a: int): (d: int)
    requires |S| == MAXPROC && InTable(A)
    ensures d == ENULL <==> forall i :: 0 <= i < |A| ==> S[A[i]].semAdd != a
    ensures d != ENULL ==> d in A && S[d].semAdd == a
  {
    if A == [] then ENULL
    else if S[A[0]].semAdd == a then A[0]
    else
      assert forall i :: 0 <= i < |A| - 1 ==> A[1..][i] == A[i + 1];
      Lookup(S, A[1..], a)
  }

  /** The processes blocked on the semaphore at address a, first to be woken first. */
  ghost function BlockedOn(S: seq<Semd>, A: seq<int>, Q: seq<seq<Pos>>, a: int): seq<int>
    requires |S| == MAXPROC && InTable(A) && |Q| == MAXPROC
  {
    var d := Lookup(S, A, a);
    if d == ENULL then [] else Contents(Q[d])
  }

  /**
   * Between two states of the ASL, the processes blocked on address a have
   * become q and those blocked on every other address are as they were.
   */
  ghost predicate Reblocked(S': seq<Semd>, A': seq<int>, Q': seq<seq<Pos>>,
                            S: seq<Semd>, A: seq<int>, Q: seq<seq<Pos>>, a: int, q: seq<int>)
  {
    |S'| == MAXPROC && InTable(A') && |Q'| == MAXPROC && |S| == MAXPROC && InTable(A) && |Q| == MAXPROC &&
    forall y :: BlockedOn(S', A', Q', y) == if y == a then q else BlockedOn(S, A, Q, y)
  }

  /** The first process of a list of processes, or ENULL. */
  function First(s: seq<int>): int {
    if s == [] then ENULL else s[0]
  }

  /** s without its first occurrence of x. */
  function Drop(s: seq<int>, x: int): (r: seq<int>)
  {
    var k := IndexOf(s, x);
    if k == ENULL then s else s[..k] + s[k + 1..]
  }

  // ---------------------------------------------------------------------
  // Semaphore vectors

  /** addSemaphoreToProcessVector on a vector: a goes into the first empty entry, if there is one. */
  function WithAddress(v: seq<int>, a: int): seq<int> {
    var i := IndexOf(v, ENULL);
    if a == ENULL || i == ENULL then v else v[i := a]
  }

  /** removeSemaphoreFromProcessVector on a vector: the first entry holding a is emptied. */
  function WithoutAddress(v: seq<int>, a: int): seq<int> {
    var i := IndexOf(v, a);
    if a == ENULL || i == ENULL then v else v[i := ENULL]
  }

  /** The vector after each address of H in turn is removed from it. */
  function ClearEach(v: seq<int>, H: seq<int>): seq<int>
    decreases |H|
  {
    if H == [] then v else WithoutAddress(ClearEach(v, H[..|H| - 1]), H[|H| - 1])
  }

  // ---------------------------------------------------------------------
  // Lemmas about lists of processes and semaphore vectors

  /** Dropping a member removes exactly one copy of it; a list without repeats then no longer holds it. */
  lemma DropRemoves(s: seq<int>, x: int)
    requires x in s
    ensures multiset(Drop(s, x)) == multiset(s) - multiset{x}
    ensures Distinct(s) ==> x !in Drop(s, x)
  {
    var k := IndexOf(s, x);
    assert s == s[..k] + [x] + s[k + 1..];
  }

  /** In a list without repeats, dropping the member at position k leaves the others in order. */
  lemma DropAt(s: seq<int>, k: int)
    requires Distinct(s) && 0 <= k < |s|
    ensures Drop(s, s[k]) == s[..k] + s[k + 1..]
  {
  }

  /** Adding an address to a vector with an empty entry puts it in place of one empty entry. */
  lemma WithAddressAdds(v: seq<int>, a: int)
    requires a != ENULL && ENULL in v
    ensures |WithAddress(v, a)| == |v| && a in WithAddress(v, a)
    ensures multiset(WithAddress(v, a)) == multiset(v) - multiset{ENULL} + multiset{a}
  {
    var i := IndexOf(v, ENULL);
    assert v == v[..i] + [ENULL] + v[i + 1..];
    assert WithAddress(v, a) == v[..i] + [a] + v[i + 1..];
  }

  /** Removing an address the vector holds puts an empty entry in place of one copy. */
  lemma WithoutAddressRemoves(v: seq<int>, a: int)
    requires a != ENULL && a in v
    ensures |WithoutAddress(v, a)| == |v|
    ensures multiset(WithoutAddress(v, a)) == multiset(v) - multiset{a} + multiset{ENULL}
  {
    var i := IndexOf(v, a);
    assert v == v[..i] + [a] + v[i + 1..];
    assert WithoutAddress(v, a) == v[..i] + [ENULL] + v[i + 1..];
  }

  /** Adding and then removing an address the vector did not hold gives the vector back. */
  lemma AddressRoundTrip(v: seq<int>, a: int)
    requires a !in v
    ensures WithoutAddress(WithAddress(v, a), a) == v
  {
    var i := IndexOf(v, ENULL);
    if a != ENULL && i != ENULL {
      var w := v[i := a];
      assert w[i] == a;
      assert IndexOf(w, a) == i;
    }
  }

  /**
   * On a vector whose addresses occur once each, removing the addresses of H
   * one after the other empties exactly the entries that held one of them.
   */
  lemma {:induction false} ClearEachEmpties(v: seq<int>, H: seq<int>)
    requires forall i, j :: 0 <= i < j < |v| && v[i] != ENULL ==> v[i] != v[j]
    ensures |ClearEach(v, H)| == |v|
    ensures forall i :: 0 <= i < |v| ==> ClearEach(v, H)[i] == if v[i] in H then ENULL else v[i]
    decreases |H|
  {
    if H != [] {
      var H' := H[..|H| - 1];
      var h := H[|H| - 1];
      assert H == H' + [h];
      ClearEachEmpties(v, H');
      var w := ClearEach(v, H');
      var k := IndexOf(w, h);
      forall i | 0 <= i < |v| ensures ClearEach(v, H)[i] == if v[i] in H then ENULL else v[i] {
        assert (v[i] in H) == (v[i] in H' || v[i] == h);
        if h != ENULL && k != ENULL && i != k {
          assert w[k] == h && v[k] == h;
        }
      }
    }
  }

  // ---------------------------------------------------------------------
  /**
   * Under the invariant no descriptor is lost or counted twice: the ASL and
   * the free list together hold all MAXPROC of them.
   */
  lemma Conserved(S: seq<Semd>, h: int, fh: int, A: seq<int>, F: seq<int>, Q: seq<seq<Pos>>, T: seq<Proc>, pf: seq<int>)
    requires AslInv(S, h, fh, A, F, Q, T, pf)
    ensures |A| + |F| == MAXPROC
  {
    PoolSize(A, F);
  }

  // Lemmas about descriptor lists

  /** The members of a list with s inserted at position k. */
  lemma MembersInsert(A: seq<int>, k: int, s: int, A': seq<int>)
    requires 0 <= k <= |A| && A' == A[..k] + [s] + A[k..]
    ensures forall e :: e in A' <==> e in A || e == s
  {
    assert A == A[..k] + A[k..];
  }

  /** The members of a list without repeats are as many as its length. */
  lemma {:induction false} Members(s: seq<int>)
    requires Distinct(s)
    ensures |set x | x in s| == |s|
  {
    if s != [] {
      var t := s[..|s| - 1];
      Members(t);
      assert (set x | x in s) == (set x | x in t) + {s[|s| - 1]};
      assert s[|s| - 1] !in t;
    }
  }

  /** The indices below n. */
  ghost function Indices(n: nat): (r: set<int>)
    ensures forall x :: x in r <==> 0 <= x < n
    ensures |r| == n
  {
    if n == 0 then {} else Indices(n - 1) + {n - 1}
  }

  /** Two lists that hold every descriptor exactly once between them hold MAXPROC entries. */
  lemma PoolSize(A: seq<int>, F: seq<int>)
    requires Partition(A, F) && InTable(A) && Distinct(A) && InTable(F) && Distinct(F)
    ensures |A| + |F| == MAXPROC
  {
    Members(A);
    Members(F);
    var a, f := set x | x in A, set x | x in F;
    Cover(A, F, a, f);
    assert |a + f| + |a * f| == |a| + |f|;
  }

  /** Between them, the two lists of a partition cover the table, and share nothing. */
  lemma Cover(A: seq<int>, F: seq<int>, a: set<int>, f: set<int>)
    requires Partition(A, F) && InTable(A) && InTable(F)
    requires a == (set x | x in A) && f == (set x | x in F)
    ensures a + f == Indices(MAXPROC) && a * f == {}
  {
    forall x | x in a + f ensures 0 <= x < MAXPROC {
      if x in A {
        var i :| 0 <= i < |A| && A[i] == x;
      } else {
        var i :| 0 <= i < |F| && F[i] == x;
      }
    }
  }

  /** The members of a list without repeats with the element at k taken out. */
  lemma MembersRemove(A: seq<int>, k: int, A': seq<int>)
    requires Distinct(A) && 0 <= k < |A| && A' == A[..k] + A[k + 1..]
    ensures forall e :: e in A' <==> e in A && e != A[k]
  {
    assert A == A[..k] + [A[k]] + A[k + 1..];
    forall e | e in A' ensures e != A[k] {
      var j :| 0 <= j < |A'| && A'[j] == e;
      if j < k {
        assert A[j] == e;
      } else {
        assert A[j + 1] == e;
      }
    }
  }

  /** An address names at most one active descriptor. */
  lemma LookupIs(S: seq<Semd>, h: int, A: seq<int>, d: int)
    requires ActiveList(S, h, A) && d in A
    ensures Lookup(S, A, S[d].semAdd) == d
  {
    var e := Lookup(S, A, S[d].semAdd);
    var i, j :| 0 <= i < |A| && 0 <= j < |A| && A[i] == d && A[j] == e;
  }

  /** The lists stay well formed when only queue handles of descriptors change. */
  lemma ListsKeep(S: seq<Semd>, S': seq<Semd>, h: int, fh: int, A: seq<int>, F: seq<int>)
    requires ActiveList(S, h, A) && SemdFreeList(S, fh, F) && |S'| == MAXPROC
    requires forall e :: 0 <= e < MAXPROC ==> S'[e] == S[e].(link := S'[e].link)
    ensures ActiveList(S', h, A) && SemdFreeList(S', fh, F)
  {
    assert forall i :: 0 <= i < |A| ==> S'[A[i]].next == S[A[i]].next && S'[A[i]].prev == S[A[i]].prev && S'[A[i]].semAdd == S[A[i]].semAdd;
    assert forall i :: 0 <= i < |F| ==> S'[F[i]].next == S[F[i]].next;
  }

  /** The free list stays well formed when none of its entries changes its `next`. */
  lemma FreeKeep(S: seq<Semd>, S': seq<Semd>, fh: int, F: seq<int>)
    requires SemdFreeList(S, fh, F) && |S'| == MAXPROC
    requires forall i :: 0 <= i < |F| ==> S'[F[i]].next == S[F[i]].next
    ensures SemdFreeList(S', fh, F)
  {
  }

  /** The ASL stays well formed when none of its entries changes its links or address. */
  lemma ActiveKeep(S: seq<Semd>, S': seq<Semd>, h: int, A: seq<int>)
    requires ActiveList(S, h, A) && |S'| == MAXPROC
    requires forall i :: 0 <= i < |A| ==>
      S'[A[i]].next == S[A[i]].next && S'[A[i]].prev == S[A[i]].prev && S'[A[i]].semAdd == S[A[i]].semAdd
    ensures ActiveList(S', h, A)
  {
  }

  /** The list A with s inserted at position k, by index. */
  lemma InsertIndex(A: seq<int>, k: int, s: int, A': seq<int>)
    requires 0 <= k <= |A| && A' == A[..k] + [s] + A[k..]
    ensures |A'| == |A| + 1
    ensures (forall i :: 0 <= i < k ==> A'[i] == A[i]) && A'[k] == s &&
      (forall i :: k < i < |A'| ==> A'[i] == A[i - 1])
  {
  }

  /** The list A with the element at position k taken out, by index. */
  lemma RemoveIndex(A: seq<int>, k: int, A': seq<int>)
    requires 0 <= k < |A| && A' == A[..k] + A[k + 1..]
    ensures |A'| == |A| - 1
    ensures (forall i :: 0 <= i < k ==> A'[i] == A[i]) &&
      (forall i :: k <= i < |A'| ==> A'[i] == A[i + 1])
  {
  }

  /**
   * Linking s in at position k of the ASL, between A[k-1] and A[k], where its
   * address belongs, gives the ASL with s inserted.
   */
  lemma ActiveInsert(S: seq<Semd>, S': seq<Semd>, h: int, A: seq<int>, k: int, s: int, A': seq<int>)
    requires ActiveList(S, h, A) && 0 <= k <= |A| && 0 <= s < MAXPROC && s !in A && |S'| == MAXPROC
    requires |A'| == |A| + 1
    requires (forall i :: 0 <= i < k ==> A'[i] == A[i]) && A'[k] == s &&
      (forall i :: k < i < |A'| ==> A'[i] == A[i - 1])
    requires k > 0 ==> S[A[k - 1]].semAdd < S[s].semAdd
    requires k < |A| ==> S[s].semAdd < S[A[k]].semAdd
    requires forall e :: 0 <= e < MAXPROC ==> S'[e].semAdd == S[e].semAdd
    requires forall i :: 0 <= i < |A| && i != k - 1 ==> S'[A[i]].next == S[A[i]].next
    requires forall i :: 0 <= i < |A| && i != k ==> S'[A[i]].prev == S[A[i]].prev
    requires k > 0 ==> S'[A[k - 1]].next == s
    requires k < |A| ==> S'[A[k]].prev == s
    requires S'[s].next == (if k < |A| then A[k] else ENULL)
    requires S'[s].prev == (if k > 0 then A[k - 1] else ENULL)
    ensures ActiveList(S', if k == 0 then s else h, A')
  {
    InsertSorted(S, S', h, A, k, s, A');
    forall i | 0 <= i < |A'| ensures S'[A'[i]].next == (if i + 1 < |A'| then A'[i + 1] else ENULL) {
      if i < k - 1 {
        assert S[A[i]].next == A[i + 1];
      } else if i > k {
        assert S[A[i - 1]].next == if i < |A| then A[i] else ENULL;
      }
    }
    forall i | 0 <= i < |A'| ensures S'[A'[i]].prev == (if i == 0 then ENULL else A'[i - 1]) {
      if i < k {
        assert S[A[i]].prev == if i == 0 then ENULL else A[i - 1];
      } else if i > k + 1 {
        assert S[A[i - 1]].prev == A[i - 2];
      }
    }
  }

  /** The addresses still ascend, and no descriptor repeats, with s inserted where its address belongs. */
  lemma InsertSorted(S: seq<Semd>, S': seq<Semd>, h: int, A: seq<int>, k: int, s: int, A': seq<int>)
    requires ActiveList(S, h, A) && 0 <= k <= |A| && 0 <= s < MAXPROC && s !in A && |S'| == MAXPROC
    requires |A'| == |A| + 1
    requires (forall i :: 0 <= i < k ==> A'[i] == A[i]) && A'[k] == s &&
      (forall i :: k < i < |A'| ==> A'[i] == A[i - 1])
    requires k > 0 ==> S[A[k - 1]].semAdd < S[s].semAdd
    requires k < |A| ==> S[s].semAdd < S[A[k]].semAdd
    requires forall e :: 0 <= e < MAXPROC ==> S'[e].semAdd == S[e].semAdd
    ensures InTable(A') && Distinct(A')
    ensures forall i, j :: 0 <= i < j < |A'| ==> S'[A'[i]].semAdd < S'[A'[j]].semAdd
  {
    forall i | 0 <= i < |A'| ensures 0 <= A'[i] < MAXPROC {
      if i < k {
        assert A'[i] == A[i];
      } else if i > k {
        assert A'[i] == A[i - 1];
      }
    }
    forall i, j | 0 <= i < j < |A'| ensures S'[A'[i]].semAdd < S'[A'[j]].semAdd {
      if j < k {
        assert S[A[i]].semAdd < S[A[j]].semAdd;
      } else if i > k {
        assert S[A[i - 1]].semAdd < S[A[j - 1]].semAdd;
      } else if i == k {
        if k < j - 1 {
          assert S[A[k]].semAdd < S[A[j - 1]].semAdd;
        }
      } else if j == k {
        if i < k - 1 {
          assert S[A[i]].semAdd < S[A[k - 1]].semAdd;
        }
      } else {
        assert S[A[i]].semAdd < S[A[j - 1]].semAdd;
      }
    }
  }

  /** Lookup finds the first descriptor of A holding a. */
  lemma {:induction false} LookupFirst(S: seq<Semd>, A: seq<int>, j: int, a: int)
    requires |S| == MAXPROC && InTable(A) && 0 <= j < |A|
    requires forall i :: 0 <= i < j ==> S[A[i]].semAdd != a
    requires S[A[j]].semAdd == a
    ensures Lookup(S, A, a) == A[j]
    decreases j
  {
    if j > 0 {
      assert S[A[0]].semAdd != a;
      assert forall i :: 0 <= i < |A| - 1 ==> A[1..][i] == A[i + 1];
      LookupFirst(S, A[1..], j - 1, a);
    }
  }

  /** The links of the i-th descriptor of the ASL. */
  lemma ActiveAt(S: seq<Semd>, h: int, A: seq<int>, i: int)
    requires ActiveList(S, h, A) && 0 <= i < |A|
    ensures 0 <= A[i] < MAXPROC
    ensures S[A[i]].next == (if i + 1 < |A| then A[i + 1] else ENULL)
    ensures S[A[i]].prev == (if i == 0 then ENULL else A[i - 1])
  {
  }

  /**
   * Linking the neighbours of A[k] to each other gives the ASL without A[k];
   * the head moves on when A[k] was the head.
   */
  lemma ActiveRemove(S: seq<Semd>, S': seq<Semd>, h: int, A: seq<int>, k: int, A': seq<int>)
    requires ActiveList(S, h, A) && 0 <= k < |A| && |S'| == MAXPROC
    requires |A'| == |A| - 1 && (forall i :: 0 <= i < k ==> A'[i] == A[i]) &&
      (forall i :: k <= i < |A'| ==> A'[i] == A[i + 1])
    requires forall i :: 0 <= i < |A| && i != k ==> S'[A[i]].semAdd == S[A[i]].semAdd
    requires forall i :: 0 <= i < |A| && i != k - 1 && i != k ==> S'[A[i]].next == S[A[i]].next
    requires forall i :: 0 <= i < |A| && i != k && i != k + 1 ==> S'[A[i]].prev == S[A[i]].prev
    requires k > 0 ==> S'[A[k - 1]].next == S[A[k]].next
    requires k + 1 < |A| ==> S'[A[k + 1]].prev == S[A[k]].prev
    ensures ActiveList(S', if k > 0 then h else if |A| == 1 then ENULL else A[1], A')
  {
    forall i | 0 <= i < |A'| ensures 0 <= A'[i] < MAXPROC && A'[i] != A[k] {
      if i < k {
        assert A'[i] == A[i];
      } else {
        assert A'[i] == A[i + 1];
      }
    }
    forall i, j | 0 <= i < j < |A'| ensures S'[A'[i]].semAdd < S'[A'[j]].semAdd {
      if j < k {
        assert S[A[i]].semAdd < S[A[j]].semAdd;
      } else if i >= k {
        assert S[A[i + 1]].semAdd < S[A[j + 1]].semAdd;
      } else {
        assert S[A[i]].semAdd < S[A[j + 1]].semAdd;
      }
    }
    forall i | 0 <= i < |A'| ensures S'[A'[i]].next == (if i + 1 < |A'| then A'[i + 1] else ENULL) {
      if i < k - 1 {
        ActiveAt(S, h, A, i);
      } else if i == k - 1 {
        ActiveAt(S, h, A, k);
      } else {
        ActiveAt(S, h, A, i + 1);
      }
    }
    forall i | 0 <= i < |A'| ensures S'[A'[i]].prev == (if i == 0 then ENULL else A'[i - 1]) {
      if i < k {
        ActiveAt(S, h, A, i);
      } else if i == k {
        ActiveAt(S, h, A, k);
        ActiveAt(S, h, A, k + 1);
      } else {
        ActiveAt(S, h, A, i + 1);
      }
    }
  }

  /** Where the k-th descriptor of the ASL stands: first exactly when it is the head or has no predecessor, last exactly when it has no successor. */
  lemma ActivePlace(S: seq<Semd>, h: int, A: seq<int>, k: int)
    requires ActiveList(S, h, A) && 0 <= k < |A|
    ensures k == 0 <==> A[k] == h
    ensures k == 0 <==> S[A[k]].prev == ENULL
    ensures k + 1 == |A| <==> S[A[k]].next == ENULL
  {
    ActiveAt(S, h, A, k);
    if k > 0 {
      ActiveAt(S, h, A, k - 1);
      assert A[0] != A[k];
    }
  }

  /**
   * S' differs from S only in the ASL links of the descriptors of U, and
   * in whatever it holds for x.
   */
  ghost predicate Relinked(S: seq<Semd>, S': seq<Semd>, U: seq<int>, x: int) {
    |S| == MAXPROC && |S'| == MAXPROC &&
    forall d :: 0 <= d < MAXPROC && d != x ==>
      S'[d].semAdd == S[d].semAdd && S'[d].link == S[d].link && (d !in U ==> S'[d] == S[d])
  }

  /**
   * Splicing s into the ASL A at position k, the links insertSemaphoreIntoActiveList
   * writes, with the addresses still ascending, gives the longer ASL.
   */
  lemma SpliceInList(S: seq<Semd>, S': seq<Semd>, h: int, h': int, A: seq<int>, A': seq<int>, k: int, s: int)
    requires ActiveList(S, h, A) && 0 <= k <= |A| && 0 <= s < MAXPROC && s !in A && |S'| == MAXPROC
    requires k > 0 ==> S[A[k - 1]].semAdd < S[s].semAdd
    requires k < |A| ==> S[s].semAdd < S[A[k]].semAdd
    requires forall d :: 0 <= d < MAXPROC && d != s && (k == 0 || d != A[k - 1]) && (k == |A| || d != A[k]) ==>
      S'[d] == S[d]
    requires S'[s] == S[s].(prev := if k > 0 then A[k - 1] else ENULL, next := if k < |A| then A[k] else ENULL)
    requires k > 0 ==> S'[A[k - 1]] == S[A[k - 1]].(next := s)
    requires k < |A| ==> S'[A[k]] == S[A[k]].(prev := s)
    requires h' == (if k == 0 then s else h) && A' == A[..k] + [s] + A[k..]
    ensures ActiveList(S', h', A') && Relinked(S, S', A', ENULL)
  {
    InsertIndex(A, k, s, A');
    forall i | 0 <= i < |A| && i != k - 1 ensures S'[A[i]].next == S[A[i]].next {
      assert A[i] != s;
      if k > 0 {
        assert A[i] != A[k - 1];
      }
    }
    forall i | 0 <= i < |A| && i != k ensures S'[A[i]].prev == S[A[i]].prev {
      assert A[i] != s;
      if k < |A| {
        assert A[i] != A[k];
      }
    }
    ActiveInsert(S, S', h, A, k, s, A');
    MembersInsert(A, k, s, A');
  }

  /**
   * Splicing the k-th descriptor out of the ASL A, its neighbours linked to
   * each other and it reset as removeSemaphoreFromActiveList does, gives the
   * shorter ASL.
   */
  lemma SpliceOutList(S: seq<Semd>, S': seq<Semd>, h: int, h': int, A: seq<int>, A': seq<int>, k: int)
    requires ActiveList(S, h, A) && 0 <= k < |A| && |S'| == MAXPROC
    requires S'[A[k]] == NoSemd
    requires forall d :: 0 <= d < MAXPROC && d != A[k] && (k == 0 || d != A[k - 1]) && (k + 1 == |A| || d != A[k + 1]) ==>
      S'[d] == S[d]
    requires k > 0 ==> S'[A[k - 1]] == S[A[k - 1]].(next := S[A[k]].next)
    requires k + 1 < |A| ==> S'[A[k + 1]] == S[A[k + 1]].(prev := S[A[k]].prev)
    requires h' == (if k > 0 then h else if |A| == 1 then ENULL else A[1]) && A' == A[..k] + A[k + 1..]
    ensures ActiveList(S', h', A') && Relinked(S, S', A, A[k])
  {
    RemoveIndex(A, k, A');
    forall i | 0 <= i < |A| && i != k ensures S'[A[i]].semAdd == S[A[i]].semAdd {
      assert A[i] != A[k];
    }
    forall i | 0 <= i < |A| && i != k - 1 && i != k ensures S'[A[i]].next == S[A[i]].next {
      assert A[i] != A[k];
      if k > 0 {
        assert A[i] != A[k - 1];
      }
    }
    forall i | 0 <= i < |A| && i != k && i != k + 1 ensures S'[A[i]].prev == S[A[i]].prev {
      assert A[i] != A[k];
      if k + 1 < |A| {
        assert A[i] != A[k + 1];
      }
    }
    ActiveRemove(S, S', h, A, k, A');
  }

  /** The link of the j-th descriptor of the free list. */
  lemma FreeAt(S: seq<Semd>, h: int, F: seq<int>, j: int)
    requires SemdFreeList(S, h, F) && 0 <= j < |F|
    ensures 0 <= F[j] < MAXPROC && S[F[j]].next == (if j + 1 < |F| then F[j + 1] else ENULL)
  {
  }

  /**
   * The descriptor table after s goes into the ASL A at position k: the
   * writes insertSemaphoreIntoActiveList makes, in its order.
   */
  function SplicedIn(S: seq<Semd>, A: seq<int>, k: int, s: int): seq<Semd>
    requires |S| == MAXPROC && InTable(A) && 0 <= k <= |A| && 0 <= s < MAXPROC
  {
    if A == [] then
      S[s := S[s].(next := ENULL, prev := ENULL)]
    else if k == 0 then
      var S1 := S[s := S[s].(next := A[0], prev := ENULL)];
      S1[A[0] := S1[A[0]].(prev := s)]
    else
      var S1 := S[A[k - 1] := S[A[k - 1]].(next := s)];
      var S2 := S1[s := S1[s].(prev := A[k - 1], next := if k < |A| then A[k] else ENULL)];
      if k < |A| then S2[A[k] := S2[A[k]].(prev := s)] else S2
  }

  /** The writes of insertSemaphoreIntoActiveList, at a place that keeps the addresses ascending, give the longer ASL. */
  lemma SplicedInList(S: seq<Semd>, S': seq<Semd>, h: int, h': int, A: seq<int>, A': seq<int>, k: int, s: int)
    requires ActiveList(S, h, A) && 0 <= k <= |A| && 0 <= s < MAXPROC && s !in A
    requires k > 0 ==> S[A[k - 1]].semAdd < S[s].semAdd
    requires k < |A| ==> S[s].semAdd < S[A[k]].semAdd
    requires S' == SplicedIn(S, A, k, s)
    requires h' == (if k == 0 then s else h) && A' == A[..k] + [s] + A[k..]
    ensures ActiveList(S', h', A') && Relinked(S, S', A', ENULL)
  {
    if 0 < k < |A| {
      ActiveAt(S, h, A, k - 1);
    }
    SpliceInList(S, S', h, h', A, A', k, s);
  }

  /**
   * The descriptor table after the k-th descriptor leaves the ASL A: the
   * writes removeSemaphoreFromActiveList makes, in its order, ending with
   * the reset of the descriptor.
   */
  function SplicedOut(S: seq<Semd>, A: seq<int>, k: int): seq<Semd>
    requires |S| == MAXPROC && InTable(A) && 0 <= k < |A|
  {
    var s := A[k];
    if |A| == 1 then
      S[s := NoSemd]
    else if k == 0 then
      S[A[1] := S[A[1]].(prev := ENULL)][s := NoSemd]
    else
      var S1 := S[A[k - 1] := S[A[k - 1]].(next := S[s].next)];
      var S2 := if k + 1 < |A| then S1[A[k + 1] := S1[A[k + 1]].(prev := S[s].prev)] else S1;
      S2[s := NoSemd]
  }

  /** The writes of removeSemaphoreFromActiveList give the shorter ASL. */
  lemma SplicedOutList(S: seq<Semd>, S': seq<Semd>, h: int, h': int, A: seq<int>, A': seq<int>, k: int, s: int)
    requires ActiveList(S, h, A) && 0 <= k < |A| && A[k] == s
    requires S' == SplicedOut(S, A, k)
    requires h' == (if k > 0 then h else if |A| == 1 then ENULL else A[1]) && A' == A[..k] + A[k + 1..]
    ensures ActiveList(S', h', A') && Relinked(S, S', A, s) && S'[s] == NoSemd
  {
    ActiveAt(S, h, A, k);
    if k > 0 {
      ActiveAt(S, h, A, k - 1);
    }
    if k + 1 < |A| {
      ActiveAt(S, h, A, k + 1);
    }
    if 0 < k && k + 1 < |A| {
      assert A[k - 1] != A[k + 1];
    }
    SpliceOutList(S, S', h, h', A, A', k);
  }

  /**
   * The table initSemd leaves, every descriptor threaded in index order onto
   * the free list, satisfies the invariant with an empty ASL that blocks nothing.
   */
  lemma InitialInv(S: seq<Semd>, T: seq<Proc>, pf: seq<int>, F: seq<int>, Q: seq<seq<Pos>>)
    requires |S| == MAXPROC && Shape(T)
    requires forall i :: 0 <= i < MAXPROC ==> S[i].next == (if i + 1 < MAXPROC then i + 1 else ENULL)
    requires F == seq(MAXPROC, i => i) && Q == seq(MAXPROC, i => [])
    ensures AslInv(S, ENULL, 0, [], F, Q, T, pf)
    ensures forall a :: BlockedOn(S, [], Q, a) == []
  {
    forall d | 0 <= d < MAXPROC ensures d in F {
      assert F[d] == d;
    }
  }

  /** Taking the head off the free list and resetting it leaves the rest of the list. */
  lemma FreePop(S: seq<Semd>, h: int, F: seq<int>)
    requires SemdFreeList(S, h, F) && F != []
    ensures SemdFreeList(S[F[0] := NoSemd], S[F[0]].next, F[1..])
  {
    var S', F' := S[F[0] := NoSemd], F[1..];
    forall i | 0 <= i < |F'| ensures S'[F'[i]].next == (if i + 1 < |F'| then F'[i + 1] else ENULL) {
      assert F'[i] == F[i + 1] && F[i + 1] != F[0];
      assert S'[F[i + 1]] == S[F[i + 1]];
      FreeAt(S, h, F, i + 1);
      if i + 1 < |F'| {
        assert F'[i + 1] == F[i + 2];
      }
    }
    FreeAt(S, h, F, 0);
    assert forall i :: 0 <= i < |F'| ==> S'[F'[i]].next == (if i + 1 < |F'| then F'[i + 1] else ENULL);
    assert SemdFreeList(S', S[F[0]].next, F');
  }

  /** Pushing the reset descriptor s, not on the free list, makes it the new head. */
  lemma FreePush(S: seq<Semd>, h: int, F: seq<int>, s: int)
    requires SemdFreeList(S, h, F) && 0 <= s < MAXPROC && s !in F
    ensures F == [] ==> SemdFreeList(S[s := NoSemd], s, [s])
    ensures F != [] ==> SemdFreeList(S[s := NoSemd.(next := h)][h := S[h].(prev := s)], s, [s] + F)
  {
    if F != [] {
      var S' := S[s := NoSemd.(next := h)][h := S[h].(prev := s)];
      var F' := [s] + F;
      assert s != h;
      forall i | 0 <= i < |F'|
        ensures S'[F'[i]].next == (if i + 1 < |F'| then F'[i + 1] else ENULL)
      {
        if i == 0 {
          assert F'[1] == F[0] == h;
          assert S'[s] == NoSemd.(next := h);
        } else {
          var x := F[i - 1];
          assert F'[i] == x && x != s;
          FreeAt(S, h, F, i - 1);
          assert S'[x].next == S[x].next;
          if i < |F| { assert F'[i + 1] == F[i]; }
        }
      }
      forall i, j | 0 <= i < j < |F'| ensures F'[i] != F'[j] {
        assert F'[j] == F[j - 1];
        if i > 0 { assert F'[i] == F[i - 1]; }
      }
      assert InTable(F') && |S'| == MAXPROC && F'[0] == s;
      assert SemdFreeList(S', s, F');
    }
  }

  // ---------------------------------------------------------------------
  // How the blocked lists change

  /** A new queue for an active descriptor d changes only what its semaphore blocks. */
  lemma BlockedRequeue(S: seq<Semd>, S': seq<Semd>, h: int, A: seq<int>, Q: seq<seq<Pos>>, d: int, q': seq<Pos>)
    requires ActiveList(S, h, A) && |S'| == MAXPROC && |Q| == MAXPROC && d in A
    requires forall e :: 0 <= e < MAXPROC ==> S'[e].semAdd == S[e].semAdd
    ensures forall x :: BlockedOn(S', A, Q[d := q'], x) == if x == S[d].semAdd then Contents(q') else BlockedOn(S, A, Q, x)
  {
    forall x ensures BlockedOn(S', A, Q[d := q'], x) == if x == S[d].semAdd then Contents(q') else BlockedOn(S, A, Q, x) {
      LookupSame(S, S', A, x);
      if x == S[d].semAdd {
        LookupIs(S, h, A, d);
      }
    }
  }

  /** Lookup depends only on the addresses of the descriptors searched. */
  lemma {:induction false} LookupSame(S: seq<Semd>, S': seq<Semd>, A: seq<int>, x: int)
    requires |S| == MAXPROC && |S'| == MAXPROC && InTable(A)
    requires forall i :: 0 <= i < |A| ==> S'[A[i]].semAdd == S[A[i]].semAdd
    ensures Lookup(S', A, x) == Lookup(S, A, x)
  {
    if A != [] && S[A[0]].semAdd != x {
      assert forall i :: 0 <= i < |A| - 1 ==> A[1..][i] == A[i + 1];
      LookupSame(S, S', A[1..], x);
    }
  }

  /**
   * A descriptor d added to the ASL with address a and queue q' makes a block
   * the members of q', and changes nothing else.
   */
  lemma BlockedAdd(S: seq<Semd>, S': seq<Semd>, h: int, h': int, A: seq<int>, A': seq<int>, Q: seq<seq<Pos>>,
                   d: int, q': seq<Pos>, a: int, y: int)
    requires ActiveList(S, h, A) && ActiveList(S', h', A') && |Q| == MAXPROC
    requires 0 <= d < MAXPROC && d !in A && forall e :: e in A' <==> e in A || e == d
    requires S'[d].semAdd == a && forall e :: 0 <= e < MAXPROC && e != d ==> S'[e].semAdd == S[e].semAdd
    ensures BlockedOn(S', A', Q[d := q'], y) == if y == a then Contents(q') else BlockedOn(S, A, Q, y)
  {
    var e := Lookup(S', A', y);
    if e == d {
    } else if e != ENULL {
      LookupIs(S', h', A', d);
      LookupIs(S, h, A, e);
    } else {
      assert d in A';
      forall f | f in A ensures S[f].semAdd != y {
        assert f in A';
      }
    }
  }

  /** A descriptor d taken off the ASL makes its address block nothing, and changes nothing else. */
  lemma BlockedDrop(S: seq<Semd>, S': seq<Semd>, h: int, h': int, A: seq<int>, A': seq<int>, Q: seq<seq<Pos>>, d: int)
    requires ActiveList(S, h, A) && ActiveList(S', h', A') && |Q| == MAXPROC
    requires d in A && forall e :: e in A' <==> e in A && e != d
    requires forall e :: e in A' ==> S'[e].semAdd == S[e].semAdd
    ensures Reblocked(S', A', Q[d := []], S, A, Q, S[d].semAdd, [])
  {
    forall x ensures BlockedOn(S', A', Q[d := []], x) == if x == S[d].semAdd then [] else BlockedOn(S, A, Q, x) {
      var e := Lookup(S', A', x);
      if e != ENULL {
        LookupIs(S, h, A, e);
        if x == S[d].semAdd {
          LookupIs(S, h, A, d);
        }
      }
    }
  }

  // ---------------------------------------------------------------------
  // How the queues change

  /**
   * The positions of the other queues are in use, so none of them is a new
   * position of d's queue, and none is a position the table changed at.
   */
  lemma OthersAvoid(S: seq<Semd>, A: seq<int>, Q: seq<seq<Pos>>, T: seq<Proc>, pf: seq<int>,
                    d: int, q': seq<Pos>, X: seq<Pos>, e: int, j: int)
    requires QueuesInv(S, A, Q, T, pf) && 0 <= d < MAXPROC && 0 <= e < MAXPROC && e != d && 0 <= j < |Q[e]|
    requires forall y :: y in X ==> y in Q[d] || y in q'
    requires forall i :: 0 <= i < |q'| ==> q'[i] in Q[d] || (ValidPos(q'[i]) && At(T, q'[i]).next == ENULL)
    ensures Q[e][j] !in Q[d] && Q[e][j] !in q' && Q[e][j] !in X
  {
    assert e in A;
    RingOccupied(T, S[e].link, Q[e], j);
  }

  /** Queues stay disjoint when one of them is replaced by positions no other queue holds. */
  lemma DisjointUpdate(Q: seq<seq<Pos>>, d: int, q': seq<Pos>)
    requires Disjoint(Q) && 0 <= d < |Q|
    requires forall e, j :: 0 <= e < |Q| && e != d && 0 <= j < |Q[e]| ==> Q[e][j] !in q'
    ensures Disjoint(Q[d := q'])
  {
    var Q' := Q[d := q'];
    forall e, f, i, j | 0 <= e < |Q'| && 0 <= f < |Q'| && e != f && 0 <= i < |Q'[e]| && 0 <= j < |Q'[f]|
      ensures Q'[e][i] != Q'[f][j]
    {
      if e == d {
        assert Q'[e][i] in q';
      } else if f == d {
        assert Q'[f][j] in q';
      }
    }
  }

  /**
   * The queue invariant after the queue of descriptor d becomes q' (and d
   * joins or leaves the ASL accordingly): the table changed only at positions
   * of d's old or new queue, and the new positions were slots not in use.
   */
  lemma QueuesUpdate(S: seq<Semd>, S': seq<Semd>, A: seq<int>, A': seq<int>, Q: seq<seq<Pos>>,
                     T: seq<Proc>, T': seq<Proc>, pf: seq<int>, d: int, q': seq<Pos>, X: seq<Pos>, who: int)
    requires QueuesInv(S, A, Q, T, pf) && 0 <= d < MAXPROC && |S'| == MAXPROC
    requires forall e :: 0 <= e < MAXPROC && e != d ==> (e in A' <==> e in A) && S'[e].link == S[e].link
    requires d in A' <==> q' != []
    requires q' != [] ==> IsRing(T', S'[d].link, q') && NotFree(q', pf)
    requires Frame(T, T', X, who)
    requires forall y :: y in X ==> y in Q[d] || y in q'
    requires forall i :: 0 <= i < |q'| ==> q'[i] in Q[d] || (ValidPos(q'[i]) && At(T, q'[i]).next == ENULL)
    ensures QueuesInv(S', A', Q[d := q'], T', pf)
  {
    forall e, j | 0 <= e < MAXPROC && e != d && 0 <= j < |Q[e]| ensures Q[e][j] !in q' && Q[e][j] !in X {
      OthersAvoid(S, A, Q, T, pf, d, q', X, e, j);
    }
    DisjointUpdate(Q, d, q');
    forall e | 0 <= e < MAXPROC && e in A' && e != d ensures IsRing(T', S'[e].link, Q[e]) {
      RingFrame(T, T', S[e].link, Q[e], X, who);
    }
  }

  /**
   * A new semaphore vector for a process p that is not free keeps the table
   * invariant and every ring, and changes nothing else.
   */
  lemma VectorEffect(T0: seq<Proc>, T1: seq<Proc>, head: int, pf: seq<int>, tp: Link, q: seq<Pos>, p: int)
    requires TableInv(T0, head, pf) && IsRing(T0, tp, q) && 0 <= p < MAXPROC && p !in pf
    requires |T1| == MAXPROC && T1 == T0[p := T0[p].(semvec := T1[p].semvec)] && |T1[p].semvec| == SEMMAX
    ensures TableInv(T1, head, pf) && IsRing(T1, tp, q) && Frame(T0, T1, [], p)
  {
    TableInvUpdate(T0, head, pf, p, T1[p]);
    SemvecUpdate(T0, p, T1[p].semvec);
    RingFrame(T0, T1, tp, q, [], p);
  }

  // ---------------------------------------------------------------------
  // The invariant after each change of insertBlocked and removeBlocked

  /** An address has a descriptor on the ASL exactly when some process is blocked on it. */
  lemma LookupBlocked(S: seq<Semd>, h: int, fh: int, A: seq<int>, F: seq<int>, Q: seq<seq<Pos>>, T: seq<Proc>, pf: seq<int>, a: int)
    requires AslInv(S, h, fh, A, F, Q, T, pf)
    ensures Lookup(S, A, a) == ENULL <==> BlockedOn(S, A, Q, a) == []
  {
    var d := Lookup(S, A, a);
    if d != ENULL {
      assert |Contents(Q[d])| == |Q[d]|;
    }
  }

  /**
   * Appending position x to the queue of the active descriptor d, whose new
   * tail handle names x, keeps the invariant and adds the process of x to
   * what the address of d blocks.
   */
  lemma RequeueInv(S: seq<Semd>, S': seq<Semd>, h: int, fh: int, A: seq<int>, F: seq<int>, Q: seq<seq<Pos>>,
                   Q': seq<seq<Pos>>, T: seq<Proc>, T': seq<Proc>, pf: seq<int>, d: int, x: Pos, q': seq<Pos>)
    requires AslInv(S, h, fh, A, F, Q, T, pf) == true && 0 <= d < MAXPROC && d in A
    requires S' == S[d := S[d].(link := LinkTo(x))] && Q' == Q[d := q']
    requires q' == Q[d] + [x] && IsRing(T', LinkTo(x), q') == true && NotFree(q', pf) == true
    requires ValidPos(x) && At(T, x).next == ENULL && Frame(T, T', q', x.proc) == true
    ensures AslInv(S', h, fh, A, F, Q', T', pf)
    ensures forall y :: BlockedOn(S', A, Q', y) == if y == S[d].semAdd then BlockedOn(S, A, Q, y) + [x.proc] else BlockedOn(S, A, Q, y)
  {
    ListsKeep(S, S', h, fh, A, F);
    forall i | 0 <= i < |q'| ensures q'[i] in Q[d] || (ValidPos(q'[i]) && At(T, q'[i]).next == ENULL) {
      if i < |Q[d]| {
        assert q'[i] == Q[d][i];
      }
    }
    QueuesUpdate(S, S', A, A, Q, T, T', pf, d, q', q', x.proc);
    BlockedRequeue(S, S', h, A, Q, d, q');
    LookupIs(S, h, A, d);
    ContentsAppend(Q[d], x);
  }

  /**
   * A descriptor off the ASL that is given an address no active descriptor
   * holds leaves the ASL well formed, and is ready to join it.
   */
  lemma FreshDescriptor(S: seq<Semd>, S': seq<Semd>, h: int, A: seq<int>, a: int, d: int)
    requires ActiveList(S, h, A) && Lookup(S, A, a) == ENULL
    requires 0 <= d < MAXPROC && d !in A && |S'| == MAXPROC && S' == S[d := S'[d]] && S'[d].semAdd == a
    ensures ActiveList(S', h, A) && forall i :: 0 <= i < |A| ==> S'[A[i]].semAdd != S'[d].semAdd
  {
    ActiveKeep(S, S', h, A);
  }

  /** The members of the free list after its head is taken off. */
  lemma MembersPop(F: seq<int>)
    requires Distinct(F) && F != []
    ensures forall e :: e in F[1..] <==> e in F && e != F[0]
  {
    assert F == [F[0]] + F[1..];
    forall e | e in F[1..] ensures e != F[0] {
      var j :| 0 <= j < |F| - 1 && F[1..][j] == e;
      assert F[j + 1] == e;
    }
  }

  /** The free list without its head nd, which joined the ASL, is still the free list, and the lists still partition. */
  lemma NewFreeInv(S0: seq<Semd>, S3: seq<Semd>, S4: seq<Semd>, fh: int, A: seq<int>, A': seq<int>, F: seq<int>,
                   nd: int, v: Semd, k: int)
    requires SemdFreeList(S0, fh, F) && Partition(A, F) && F != [] && nd == F[0]
    requires S3 == S0[nd := v] && 0 <= k <= |A| && A' == A[..k] + [nd] + A[k..]
    requires Relinked(S3, S4, A', ENULL)
    ensures SemdFreeList(S4, S0[nd].next, F[1..]) && Partition(A', F[1..])
  {
    FreeAt(S0, fh, F, 0);
    MembersInsert(A, k, nd, A');
    MembersPop(F);
    FreePop(S0, fh, F);
    forall i | 0 <= i < |F[1..]| ensures S4[F[1..][i]].next == S0[nd := NoSemd][F[1..][i]].next {
      assert F[1..][i] in F[1..];
    }
    FreeKeep(S0[nd := NoSemd], S4, S0[nd].next, F[1..]);
  }

  /** The new descriptor nd, with address a, blocks just the process of its queue [x]; other addresses block as before. */
  lemma NewBlocked(S0: seq<Semd>, S3: seq<Semd>, S4: seq<Semd>, h: int, h': int, A: seq<int>, A': seq<int>,
                   Q: seq<seq<Pos>>, nd: int, a: int, x: Pos)
    requires ActiveList(S0, h, A) && |Q| == MAXPROC && 0 <= nd < MAXPROC && nd !in A
    requires S3 == S0[nd := NoSemd.(link := LinkTo(x), semAdd := a)]
    requires forall e :: e in A' <==> e in A || e == nd
    requires ActiveList(S4, h', A') && Relinked(S3, S4, A', ENULL)
    ensures forall y :: BlockedOn(S4, A', Q[nd := [x]], y) == if y == a then Contents([x]) else BlockedOn(S0, A, Q, y)
  {
    assert S4[nd].semAdd == S3[nd].semAdd;
    forall y ensures BlockedOn(S4, A', Q[nd := [x]], y) == if y == a then Contents([x]) else BlockedOn(S0, A, Q, y) {
      BlockedAdd(S0, S4, h, h', A, A', Q, nd, [x], a, y);
    }
  }

  /** The queue [x] of the new descriptor nd joins the others, which it shares no position with. */
  lemma NewQueues(S0: seq<Semd>, S3: seq<Semd>, S4: seq<Semd>, A: seq<int>, A': seq<int>,
                  Q: seq<seq<Pos>>, T: seq<Proc>, T': seq<Proc>, pf: seq<int>, nd: int, a: int, x: Pos, k: int)
    requires QueuesInv(S0, A, Q, T, pf) && 0 <= nd < MAXPROC && nd !in A
    requires S3 == S0[nd := NoSemd.(link := LinkTo(x), semAdd := a)]
    requires 0 <= k <= |A| && A' == A[..k] + [nd] + A[k..]
    requires |S4| == MAXPROC && Relinked(S3, S4, A', ENULL)
    requires IsRing(T', LinkTo(x), [x]) && NotFree([x], pf)
    requires ValidPos(x) && At(T, x).next == ENULL && Frame(T, T', [x], x.proc)
    ensures QueuesInv(S4, A', Q[nd := [x]], T', pf)
  {
    assert Q[nd] == [];
    MembersInsert(A, k, nd, A');
    QueuesUpdate(S0, S4, A, A', Q, T, T', pf, nd, [x], [x], x.proc);
  }

  /**
   * The descriptor nd taken off the free list, given the address a, a queue
   * of the one position x and a place in the ASL, keeps the invariant and
   * makes a block just the process of x.
   */
  lemma NewQueueInv(S0: seq<Semd>, S3: seq<Semd>, S4: seq<Semd>, h: int, h': int, fh: int, fh': int, A: seq<int>, A': seq<int>,
                    F: seq<int>, F': seq<int>, Q: seq<seq<Pos>>, Q': seq<seq<Pos>>, T: seq<Proc>, T': seq<Proc>, pf: seq<int>,
                    nd: int, a: int, x: Pos, k: int)
    requires AslInv(S0, h, fh, A, F, Q, T, pf) == true && F != [] && nd == F[0]
    requires fh' == S0[nd].next && F' == F[1..] && Q' == Q[nd := [x]]
    requires S3 == S0[nd := NoSemd.(link := LinkTo(x), semAdd := a)]
    requires 0 <= k <= |A| && A' == A[..k] + [nd] + A[k..]
    requires ActiveList(S4, h', A') == true && Relinked(S3, S4, A', ENULL) == true
    requires IsRing(T', LinkTo(x), [x]) == true && NotFree([x], pf) == true
    requires ValidPos(x) && At(T, x).next == ENULL && Frame(T, T', [x], x.proc) == true
    ensures AslInv(S4, h', fh', A', F', Q', T', pf)
    ensures forall y :: BlockedOn(S4, A', Q', y) == if y == a then [x.proc] else BlockedOn(S0, A, Q, y)
  {
    assert Contents([x]) == [x.proc];
    FreeAt(S0, fh, F, 0);
    assert nd !in A;
    NewFreeInv(S0, S3, S4, fh, A, A', F, nd, NoSemd.(link := LinkTo(x), semAdd := a), k);
    NewQueues(S0, S3, S4, A, A', Q, T, T', pf, nd, a, x, k);
    MembersInsert(A, k, nd, A');
    NewBlocked(S0, S3, S4, h, h', A, A', Q, nd, a, x);
  }

  /**
   * Taking the head off the queue of the active descriptor d, which keeps
   * the rest q' under its new tail handle, keeps the invariant; the address
   * of d then blocks the processes of q'.
   */
  lemma DequeueInv(S: seq<Semd>, S': seq<Semd>, h: int, fh: int, A: seq<int>, F: seq<int>, Q: seq<seq<Pos>>,
                   Q': seq<seq<Pos>>, T: seq<Proc>, T': seq<Proc>, pf: seq<int>, d: int, k: int,
                   tp': Link, q': seq<Pos>)
    requires AslInv(S, h, fh, A, F, Q, T, pf) == true && 0 <= d < MAXPROC && d in A
    requires Removed(T, T', S[d].link, Q[d], k, tp', q') == true && q' != []
    requires S' == S[d := S[d].(link := tp')] && Q' == Q[d := q']
    ensures AslInv(S', h, fh, A, F, Q', T', pf)
    ensures Reblocked(S', A, Q', S, A, Q, S[d].semAdd, Contents(q'))
    ensures BlockedOn(S, A, Q, S[d].semAdd) == Contents(Q[d])
  {
    ListsKeep(S, S', h, fh, A, F);
    DequeueQueues(S, S', A, Q, T, T', pf, d, k, tp', q');
    BlockedRequeue(S, S', h, A, Q, d, q');
    LookupIs(S, h, A, d);
  }

  /** The queue invariant after the k-th process of the queue of the active descriptor d is taken off. */
  lemma DequeueQueues(S: seq<Semd>, S': seq<Semd>, A: seq<int>, Q: seq<seq<Pos>>, T: seq<Proc>, T': seq<Proc>,
                      pf: seq<int>, d: int, k: int, tp': Link, q': seq<Pos>)
    requires QueuesInv(S, A, Q, T, pf) && 0 <= d < MAXPROC && d in A
    requires Removed(T, T', S[d].link, Q[d], k, tp', q') == true && q' != []
    requires S' == S[d := S[d].(link := tp')]
    ensures QueuesInv(S', A, Q[d := q'], T', pf)
  {
    var q := Q[d];
    assert NotFree(q, pf);
    assert q' == q[..k] + q[k + 1..];
    forall i | 0 <= i < |q'| ensures q'[i] in q {
      if i < k {
        assert q'[i] == q[i];
      } else {
        assert q'[i] == q[i + 1];
      }
    }
    QueuesUpdate(S, S', A, A, Q, T, T', pf, d, q', q, q[k].proc);
  }

  /** Taking the active descriptor d off the ASL leaves the free list as it was, and d is not on it. */
  lemma RetireFree(S: seq<Semd>, S': seq<Semd>, fh: int, A: seq<int>, F: seq<int>, d: int)
    requires SemdFreeList(S, fh, F) && Partition(A, F) && 0 <= d < MAXPROC && d in A && Relinked(S, S', A, d)
    ensures SemdFreeList(S', fh, F) && d !in F
  {
    forall i | 0 <= i < |F| ensures S'[F[i]].next == S[F[i]].next {
      assert F[i] in F;
    }
    FreeKeep(S, S', fh, F);
  }

  /**
   * The active descriptor d whose queue became empty, taken off the ASL at
   * position k and pushed onto the free list, keeps the invariant and makes
   * its address block nothing.
   */
  lemma RetireInv(S: seq<Semd>, S1: seq<Semd>, S2: seq<Semd>, S3: seq<Semd>, h: int, h2: int, fh: int,
                  A: seq<int>, A2: seq<int>, F: seq<int>, Q: seq<seq<Pos>>, T: seq<Proc>, T': seq<Proc>, pf: seq<int>,
                  d: int, k: int)
    requires AslInv(S, h, fh, A, F, Q, T, pf) == true && 0 <= k < |A| && A[k] == d && A2 == A[..k] + A[k + 1..]
    requires Removed(T, T', S[d].link, Q[d], 0, NoLink, []) == true
    requires S1 == S[d := S[d].(link := NoLink)]
    requires ActiveList(S2, h2, A2) == true && Relinked(S1, S2, A, d) == true
    requires SemdFreeList(S3, d, [d] + F) == true
    requires F == [] ==> S3 == S2[d := NoSemd]
    requires F != [] ==> S3 == S2[d := NoSemd.(next := fh)][fh := S2[fh].(prev := d)]
    ensures AslInv(S3, h2, d, A2, [d] + F, Q[d := []], T', pf)
  {
    MembersRemove(A, k, A2);
    RetireKeeps(S, S1, S2, S3, fh, A, A2, F, d);
    ActiveKeep(S2, S3, h2, A2);
    assert Partition(A2, [d] + F);
    QueuesUpdate(S, S3, A, A2, Q, T, T', pf, d, [], Q[d], Q[d][0].proc);
  }

  /** Retiring d, as RetireInv describes it, unblocks the processes of its address and no others. */
  lemma RetireBlocked(S: seq<Semd>, S1: seq<Semd>, S2: seq<Semd>, S3: seq<Semd>, h: int, h2: int, fh: int,
                      A: seq<int>, A2: seq<int>, F: seq<int>, Q: seq<seq<Pos>>, d: int, k: int)
    requires ActiveList(S, h, A) == true && SemdFreeList(S, fh, F) == true && Partition(A, F) == true
    requires |Q| == MAXPROC && 0 <= k < |A| && A[k] == d && A2 == A[..k] + A[k + 1..]
    requires S1 == S[d := S[d].(link := NoLink)]
    requires ActiveList(S2, h2, A2) == true && Relinked(S1, S2, A, d) == true
    requires F == [] ==> S3 == S2[d := NoSemd]
    requires F != [] ==> S3 == S2[d := NoSemd.(next := fh)][fh := S2[fh].(prev := d)]
    ensures Reblocked(S3, A2, Q[d := []], S, A, Q, S[d].semAdd, [])
    ensures A2 == Drop(A, d)
    ensures forall e :: 0 <= e < MAXPROC && e != d ==> S3[e].semAdd == S[e].semAdd
  {
    DropAt(A, k);
    MembersRemove(A, k, A2);
    RetireKeeps(S, S1, S2, S3, fh, A, A2, F, d);
    ActiveKeep(S2, S3, h2, A2);
    BlockedDrop(S, S3, h, h2, A, A2, Q, d);
  }

  /**
   * What retiring d leaves as it was: the queue handles and addresses of
   * the other descriptors, and the whole of each descriptor left on the ASL.
   */
  lemma RetireKeeps(S: seq<Semd>, S1: seq<Semd>, S2: seq<Semd>, S3: seq<Semd>, fh: int,
                    A: seq<int>, A2: seq<int>, F: seq<int>, d: int)
    requires SemdFreeList(S, fh, F) && Partition(A, F) && 0 <= d < MAXPROC
    requires S1 == S[d := S[d].(link := NoLink)] && Relinked(S1, S2, A, d)
    requires InTable(A2) && forall e :: e in A2 <==> e in A && e != d
    requires F == [] ==> S3 == S2[d := NoSemd]
    requires F != [] ==> S3 == S2[d := NoSemd.(next := fh)][fh := S2[fh].(prev := d)]
    ensures forall e :: 0 <= e < MAXPROC && e != d ==> S3[e].link == S[e].link && S3[e].semAdd == S[e].semAdd
    ensures forall i :: 0 <= i < |A2| ==> S3[A2[i]] == S2[A2[i]]
  {
    if F != [] {
      FreeAt(S, fh, F, 0);
      assert fh in F && fh !in A;
    }
    forall i | 0 <= i < |A2| ensures S3[A2[i]] == S2[A2[i]] {
      assert A2[i] in A2;
    }
  }

  /** A new semaphore vector for a process that is not free keeps both invariants. */
  lemma VectorInv(S: seq<Semd>, h: int, fh: int, A: seq<int>, F: seq<int>, Q: seq<seq<Pos>>, T: seq<Proc>,
                  T': seq<Proc>, head: int, pf: seq<int>, p: int)
    requires AslInv(S, h, fh, A, F, Q, T, pf) == true && TableInv(T, head, pf) == true
    requires 0 <= p < MAXPROC && p !in pf
    requires |T'| == MAXPROC && T' == T[p := T[p].(semvec := T'[p].semvec)] && |T'[p].semvec| == SEMMAX
    ensures AslInv(S, h, fh, A, F, Q, T', pf) && TableInv(T', head, pf)
  {
    VectorEffect(T, T', head, pf, NoLink, [], p);
    forall e | 0 <= e < MAXPROC && e in A ensures IsRing(T', S[e].link, Q[e]) {
      RingFrame(T, T', S[e].link, Q[e], [], p);
    }
  }

  /**
   * S, A, F, Q is the semaphore layer S0, A0, F0, Q0 after the first process
   * blocked on address a, whose descriptor is d, is taken off: a blocks the
   * rest of its queue, every other address blocks what it did, and d has
   * gone back to the head of the free list exactly when it blocked one process.
   */
  ghost predicate Dequeued(S0: seq<Semd>, A0: seq<int>, F0: seq<int>, Q0: seq<seq<Pos>>,
                           S: seq<Semd>, A: seq<int>, F: seq<int>, Q: seq<seq<Pos>>, d: int, a: int)
  {
    |S0| == MAXPROC && InTable(A0) && |Q0| == MAXPROC &&
    BlockedOn(S0, A0, Q0, a) != [] &&
    Reblocked(S, A, Q, S0, A0, Q0, a, BlockedOn(S0, A0, Q0, a)[1..]) &&
    F == (if |BlockedOn(S0, A0, Q0, a)| == 1 then [d] + F0 else F0)
  }

  /**
   * S, A, F, Q is the semaphore layer S0, A0, F0, Q0 after the k-th process
   * blocked on address a, whose descriptor is d, is taken off: a blocks the
   * rest of its queue, every other address blocks what it did, every other
   * descriptor keeps its address, d's queue has lost position k and the
   * other queues are as they were, and d has left the ASL for the head of the
   * free list exactly when it blocked one process.
   */
  ghost predicate Unqueued(S0: seq<Semd>, A0: seq<int>, F0: seq<int>, Q0: seq<seq<Pos>>,
                           S: seq<Semd>, A: seq<int>, F: seq<int>, Q: seq<seq<Pos>>, d: int, a: int, k: int)
  {
    |S0| == MAXPROC && InTable(A0) && |Q0| == MAXPROC && |S| == MAXPROC &&
    0 <= d < MAXPROC && 0 <= k < |Q0[d]| &&
    BlockedOn(S0, A0, Q0, a) == Contents(Q0[d]) &&
    Reblocked(S, A, Q, S0, A0, Q0, a, Contents(Q0[d])[..k] + Contents(Q0[d])[k + 1..]) &&
    (forall e :: 0 <= e < MAXPROC && e != d ==> S[e].semAdd == S0[e].semAdd) &&
    Q == Q0[d := Q0[d][..k] + Q0[d][k + 1..]] &&
    A == (if |Q0[d]| == 1 then Drop(A0, d) else A0) &&
    F == (if |Q0[d]| == 1 then [d] + F0 else F0)
  }

  /** What Unqueued says of the queues and the free list, for the process p that left. */
  lemma UnqueuedShape(S0: seq<Semd>, A0: seq<int>, F0: seq<int>, Q0: seq<seq<Pos>>,
                      S: seq<Semd>, A: seq<int>, F: seq<int>, Q: seq<seq<Pos>>, d: int, a: int, p: int)
    requires 0 <= d < |Q0| && p in Contents(Q0[d])
    requires Unqueued(S0, A0, F0, Q0, S, A, F, Q, d, a, IndexOf(Contents(Q0[d]), p)) == true
    ensures |Q| == MAXPROC && Q == Q0[d := Q[d]]
    ensures F == (if Contents(Q0[d]) == [p] then [d] else []) + F0
  {
    Alone(Q0[d], p);
  }

  /** Taking the only process off a queue: the descriptor retires. */
  lemma UnqueuedLast(S0: seq<Semd>, A0: seq<int>, F0: seq<int>, Q0: seq<seq<Pos>>,
                     S: seq<Semd>, A: seq<int>, F: seq<int>, Q: seq<seq<Pos>>, d: int, a: int)
    requires |S0| == MAXPROC && InTable(A0) && |Q0| == MAXPROC && |S| == MAXPROC && 0 <= d < MAXPROC
    requires BlockedOn(S0, A0, Q0, a) == Contents(Q0[d]) && |Q0[d]| == 1
    requires Reblocked(S, A, Q, S0, A0, Q0, a, [])
    requires forall e :: 0 <= e < MAXPROC && e != d ==> S[e].semAdd == S0[e].semAdd
    requires A == Drop(A0, d) && F == [d] + F0 && Q == Q0[d := []]
    ensures Unqueued(S0, A0, F0, Q0, S, A, F, Q, d, a, 0)
  {
    assert Contents(Q0[d])[..0] + Contents(Q0[d])[1..] == [];
    assert Q0[d][..0] + Q0[d][1..] == [];
  }

  /** Taking one process off a queue of two or more: the descriptor stays. */
  lemma UnqueuedMore(S0: seq<Semd>, A0: seq<int>, F0: seq<int>, Q0: seq<seq<Pos>>,
                     S: seq<Semd>, A: seq<int>, F: seq<int>, Q: seq<seq<Pos>>, d: int, a: int, k: int, q': seq<Pos>)
    requires |S0| == MAXPROC && InTable(A0) && |Q0| == MAXPROC && |S| == MAXPROC && 0 <= d < MAXPROC
    requires BlockedOn(S0, A0, Q0, a) == Contents(Q0[d]) && 0 <= k < |Q0[d]|
    requires q' == Q0[d][..k] + Q0[d][k + 1..] && q' != []
    requires Reblocked(S, A, Q, S0, A0, Q0, a, Contents(q'))
    requires forall e :: 0 <= e < MAXPROC && e != d ==> S[e].semAdd == S0[e].semAdd
    requires A == A0 && F == F0 && Q == Q0[d := q']
    ensures Unqueued(S0, A0, F0, Q0, S, A, F, Q, d, a, k)
  {
    ContentsRemove(Q0[d], k);
  }

  /** Taking the head off is what removeBlocked does. */
  lemma UnqueuedHead(S0: seq<Semd>, A0: seq<int>, F0: seq<int>, Q0: seq<seq<Pos>>,
                     S: seq<Semd>, A: seq<int>, F: seq<int>, Q: seq<seq<Pos>>, d: int, a: int)
    requires Unqueued(S0, A0, F0, Q0, S, A, F, Q, d, a, 0)
    ensures Dequeued(S0, A0, F0, Q0, S, A, F, Q, d, a)
  {
    assert Contents(Q0[d])[..0] + Contents(Q0[d])[1..] == Contents(Q0[d])[1..];
  }

  /**
   * What outBlocked's step at descriptor d of address a knows once p is out
   * of d's queue and before it writes: the invariants of the state it
   * started from, the table T1 after the removal, and the removal itself.
   */
  ghost predicate OutReady(S0: seq<Semd>, h: int, fh: int, A0: seq<int>, F0: seq<int>, Q0: seq<seq<Pos>>,
                           T0: seq<Proc>, T1: seq<Proc>, head: int, pf: seq<int>, d: int, a: int, p: int,
                           tp': Link, q': seq<Pos>)
  {
    AslInv(S0, h, fh, A0, F0, Q0, T0, pf) && TableInv(T1, head, pf) &&
    0 <= d < MAXPROC && d in A0 && S0[d].semAdd == a && 0 <= p < MAXPROC && p !in pf &&
    Removed(T0, T1, S0[d].link, Q0[d], IndexOf(Contents(Q0[d]), p), tp', q') &&
    (tp'.next == ENULL <==> q' == [])
  }

  /** OutReady, from the facts outBlocked's step has once p is out of d's queue. */
  lemma OutReadyFrom(S0: seq<Semd>, h: int, fh: int, A0: seq<int>, F0: seq<int>, Q0: seq<seq<Pos>>,
                     T0: seq<Proc>, T1: seq<Proc>, head: int, pf: seq<int>, d: int, a: int, p: int,
                     tp': Link, q': seq<Pos>)
    requires AslInv(S0, h, fh, A0, F0, Q0, T0, pf) == true && TableInv(T1, head, pf) == true
    requires 0 <= d < MAXPROC && d in A0 && S0[d].semAdd == a && 0 <= p < MAXPROC && p !in pf
    requires p in Contents(Q0[d]) && IsRing(T1, tp', q') == true
    requires Removed(T0, T1, S0[d].link, Q0[d], IndexOf(Contents(Q0[d]), p), tp', q') == true
    ensures OutReady(S0, h, fh, A0, F0, Q0, T0, T1, head, pf, d, a, p, tp', q') == true
  {
    RingEnd(T1, tp', q');
  }

  /**
   * The descriptor d keeps the non-empty queue q' left once the process at
   * position k is off: the invariants hold, and the blocked processes are
   * as Unqueued describes.
   */
  lemma KeptSettled(S0: seq<Semd>, S1: seq<Semd>, h: int, fh: int, A: seq<int>, F: seq<int>, Q0: seq<seq<Pos>>,
                    Q: seq<seq<Pos>>, T0: seq<Proc>, T1: seq<Proc>, pf: seq<int>, d: int, a: int, k: int,
                    tp': Link, q': seq<Pos>)
    requires AslInv(S0, h, fh, A, F, Q0, T0, pf) == true && 0 <= d < MAXPROC && d in A && S0[d].semAdd == a
    requires Removed(T0, T1, S0[d].link, Q0[d], k, tp', q') == true && q' != []
    requires S1 == S0[d := S0[d].(link := tp')] && Q == Q0[d := q']
    ensures AslInv(S1, h, fh, A, F, Q, T1, pf) == true
    ensures Unqueued(S0, A, F, Q0, S1, A, F, Q, d, a, k) == true
  {
    DequeueInv(S0, S1, h, fh, A, F, Q0, Q, T0, T1, pf, d, k, tp', q');
    UnqueuedMore(S0, A, F, Q0, S1, A, F, Q, d, a, k, q');
  }

  /** What removeBlocked relies on about the active descriptor d of address a before it takes the head of its queue. */
  lemma TakeReady(S: seq<Semd>, h: int, fh: int, A: seq<int>, F: seq<int>, Q: seq<seq<Pos>>, T: seq<Proc>,
                  pf: seq<int>, d: int, a: int)
    requires AslInv(S, h, fh, A, F, Q, T, pf) == true && 0 <= d < MAXPROC && d in A && S[d].semAdd == a
    ensures BlockedOn(S, A, Q, a) == Contents(Q[d]) && Q[d] != []
    ensures IsRing(T, S[d].link, Q[d]) && NotFree(Q[d], pf) && ValidPos(Q[d][0])
  {
    LookupIs(S, h, A, d);
  }

  // ---------------------------------------------------------------------
  // outBlocked's walk over the ASL

  /** Table T is T0 with address a gone from the semaphore vector of p; every other vector is as it was. */
  ghost predicate VectorDropped(T0: seq<Proc>, T: seq<Proc>, p: int, a: int) {
    |T0| == MAXPROC && |T| == MAXPROC && 0 <= p < MAXPROC &&
    T[p].semvec == WithoutAddress(T0[p].semvec, a) &&
    forall i :: 0 <= i < MAXPROC && i != p ==> T[i].semvec == T0[i].semvec
  }

  /**
   * The vector step of outBlocked: T1, which left the vectors of T0 alone,
   * becomes T2 by dropping a from p's vector, and the table invariant holds of T2.
   */
  lemma VectorTable(T0: seq<Proc>, T1: seq<Proc>, T2: seq<Proc>, head: int, pf: seq<int>, p: int, a: int)
    requires TableInv(T1, head, pf) == true && SameVectors(T0, T1) == true && 0 <= p < MAXPROC && p !in pf
    requires T2 == T1[p := T1[p].(semvec := WithoutAddress(T1[p].semvec, a))]
    ensures TableInv(T2, head, pf) == true && VectorDropped(T0, T2, p, a) == true
  {
    VectorEffect(T1, T2, head, pf, NoLink, [], p);
    VectorSet(T0, T1, T2, p, WithoutAddress(T0[p].semvec, a));
  }

  /** The invariant of the semaphore layer survives outBlocked's vector step. */
  lemma VectorQueues(S: seq<Semd>, h: int, fh: int, A: seq<int>, F: seq<int>, Q: seq<seq<Pos>>,
                     T1: seq<Proc>, T2: seq<Proc>, head: int, pf: seq<int>, p: int, a: int)
    requires AslInv(S, h, fh, A, F, Q, T1, pf) == true && TableInv(T1, head, pf) == true
    requires 0 <= p < MAXPROC && p !in pf
    requires T2 == T1[p := T1[p].(semvec := WithoutAddress(T1[p].semvec, a))]
    ensures AslInv(S, h, fh, A, F, Q, T2, pf) == true
  {
    VectorInv(S, h, fh, A, F, Q, T1, T2, head, pf, p);
  }

  /** The walk, standing at position j of the ASL A0, has passed address y. */
  ghost predicate Passed(S0: seq<Semd>, A0: seq<int>, j: int, y: int)
    requires |S0| == MAXPROC && InTable(A0) && 0 <= j <= |A0|
  {
    j == |A0| || y < S0[A0[j]].semAdd
  }

  /** The addresses of the first j descriptors of A whose queue holds p, in ASL order. */
  ghost function Hits(S: seq<Semd>, A: seq<int>, Q: seq<seq<Pos>>, p: int, j: int): seq<int>
    requires |S| == MAXPROC && InTable(A) && |Q| == MAXPROC && 0 <= j <= |A|
  {
    if j == 0 then []
    else Hits(S, A, Q, p, j - 1) + (if p in Contents(Q[A[j - 1]]) then [S[A[j - 1]].semAdd] else [])
  }

  /**
   * The walk over the ASL A0 of the layer S0, A0, Q0, T0, standing at position
   * j, has reached S, A, Q, T: the descriptors from j on are still the tail of
   * the ASL with their addresses, p has left the queue of every address passed,
   * and the addresses of those queues have left p's semaphore vector, in order.
   */
  ghost predicate Walked(S0: seq<Semd>, h0: int, A0: seq<int>, Q0: seq<seq<Pos>>, T0: seq<Proc>,
                         S: seq<Semd>, A: seq<int>, Q: seq<seq<Pos>>, T: seq<Proc>, p: int, j: int)
  {
    ActiveList(S0, h0, A0) && |Q0| == MAXPROC && |T0| == MAXPROC &&
    |S| == MAXPROC && InTable(A) && |Q| == MAXPROC && |T| == MAXPROC && 0 <= p < MAXPROC && 0 <= j <= |A0| &&
    TailKept(S0, A0, S, A, j) && BlockedWalked(S0, A0, Q0, S, A, Q, p, j) && VectorsWalked(S0, A0, Q0, T0, T, p, j)
  }

  /** The descriptors of A0 from position j on are still the tail of the ASL A, with their addresses. */
  ghost predicate TailKept(S0: seq<Semd>, A0: seq<int>, S: seq<Semd>, A: seq<int>, j: int)
    requires |S0| == MAXPROC && InTable(A0) && |S| == MAXPROC && 0 <= j <= |A0|
  {
    |A0| - j <= |A| && A[|A| - (|A0| - j)..] == A0[j..] &&
    forall i :: j <= i < |A0| ==> S[A0[i]].semAdd == S0[A0[i]].semAdd
  }

  /** p has left the queue of every address the walk has passed; the other queues are as they were. */
  ghost predicate BlockedWalked(S0: seq<Semd>, A0: seq<int>, Q0: seq<seq<Pos>>,
                                S: seq<Semd>, A: seq<int>, Q: seq<seq<Pos>>, p: int, j: int)
    requires |S0| == MAXPROC && InTable(A0) && |Q0| == MAXPROC && 0 <= j <= |A0|
    requires |S| == MAXPROC && InTable(A) && |Q| == MAXPROC
  {
    forall y :: BlockedOn(S, A, Q, y) ==
      if Passed(S0, A0, j, y) then Drop(BlockedOn(S0, A0, Q0, y), p) else BlockedOn(S0, A0, Q0, y)
  }

  /** The addresses whose queues held p have left p's vector in ASL order; other vectors are as they were. */
  ghost predicate VectorsWalked(S0: seq<Semd>, A0: seq<int>, Q0: seq<seq<Pos>>, T0: seq<Proc>, T: seq<Proc>,
                                p: int, j: int)
    requires |S0| == MAXPROC && InTable(A0) && |Q0| == MAXPROC && 0 <= j <= |A0|
    requires |T0| == MAXPROC && |T| == MAXPROC && 0 <= p < MAXPROC
  {
    T[p].semvec == ClearEach(T0[p].semvec, Hits(S0, A0, Q0, p, j)) &&
    forall i :: 0 <= i < MAXPROC && i != p ==> T[i].semvec == T0[i].semvec
  }

  /**
   * The descriptors among the first j of A whose queue in Q holds p alone,
   * the last first: the descriptors outBlocked's walk pushes on the free list.
   */
  ghost function Retired(A: seq<int>, Q: seq<seq<Pos>>, p: int, j: int): seq<int>
    requires InTable(A) && |Q| == MAXPROC && 0 <= j <= |A|
  {
    if j == 0 then []
    else (if Contents(Q[A[j - 1]]) == [p] then [A[j - 1]] else []) + Retired(A, Q, p, j - 1)
  }

  /** A descriptor is retired by the first j steps exactly when it is one of the first j of A and held p alone. */
  lemma {:induction false} RetiredHas(A: seq<int>, Q: seq<seq<Pos>>, p: int, j: int, d: int)
    requires InTable(A) && |Q| == MAXPROC && 0 <= j <= |A| && 0 <= d < MAXPROC
    ensures d in Retired(A, Q, p, j) <==> d in A[..j] && Contents(Q[d]) == [p]
  {
    if j > 0 {
      RetiredHas(A, Q, p, j - 1, d);
      assert A[..j] == A[..j - 1] + [A[j - 1]];
    }
  }

  /** The free list after step j of the walk, from the one before it. */
  lemma RetiredNext(A: seq<int>, Q: seq<seq<Pos>>, p: int, j: int, F0: seq<int>, F: seq<int>, F': seq<int>)
    requires InTable(A) && |Q| == MAXPROC && 0 <= j < |A|
    requires F == Retired(A, Q, p, j) + F0
    requires F' == (if Contents(Q[A[j]]) == [p] then [A[j]] else []) + F
    ensures F' == Retired(A, Q, p, j + 1) + F0
  {
    var R := if Contents(Q[A[j]]) == [p] then [A[j]] else [];
    assert R + (Retired(A, Q, p, j) + F0) == (R + Retired(A, Q, p, j)) + F0;
  }

  /** A queue holds p alone exactly when it has one member and p is on it. */
  lemma Alone(q: seq<Pos>, p: int)
    ensures Contents(q) == [p] <==> |q| == 1 && p in Contents(q)
  {
    if |q| == 1 && p in Contents(q) {
      assert Contents(q)[0] == p;
    }
  }

  /** The queues of the descriptors of A0 from position j on are as they were in Q0. */
  ghost predicate Ahead(A0: seq<int>, Q0: seq<seq<Pos>>, Q: seq<seq<Pos>>, j: int) {
    InTable(A0) && |Q0| == MAXPROC && |Q| == MAXPROC && 0 <= j <= |A0| &&
    forall i :: j <= i < |A0| ==> Q[A0[i]] == Q0[A0[i]]
  }

  /** A step of the walk that changes the queue at position j only keeps the queues ahead of it. */
  lemma AheadNext(A0: seq<int>, Q0: seq<seq<Pos>>, Q: seq<seq<Pos>>, Q': seq<seq<Pos>>, j: int, q: seq<Pos>)
    requires Ahead(A0, Q0, Q, j) && Distinct(A0) && j < |A0| && Q' == Q[A0[j] := q]
    ensures Ahead(A0, Q0, Q', j + 1)
  {
    forall i | j + 1 <= i < |A0| ensures Q'[A0[i]] == Q0[A0[i]] {
      assert A0[i] != A0[j];
    }
  }

  /** The walk's table changes, step by step, stay framed by the queues it started from. */
  lemma FrameStep(T0: seq<Proc>, T1: seq<Proc>, T2: seq<Proc>, Q0: seq<seq<Pos>>, e: int, who: int)
    requires Frame(T0, T1, Flat(Q0), who) && 0 <= e < |Q0| && Frame(T1, T2, Q0[e], who)
    ensures Frame(T0, T2, Flat(Q0), who)
  {
    FrameTrans(T0, T1, T2, Flat(Q0), Q0[e], who);
    FlatHas(Q0, e);
    FrameWiden(T0, T2, Flat(Q0) + Q0[e], Flat(Q0), who);
  }

  /**
   * After the first j steps of the walk over A0 from the queues Q0 and the
   * table T0: the free list F is F0 with the retired descriptors pushed on
   * it, and the table T differs from T0 only around p and in the links of
   * the queues.
   */
  ghost predicate Swept(A0: seq<int>, Q0: seq<seq<Pos>>, T0: seq<Proc>, F0: seq<int>,
                        F: seq<int>, T: seq<Proc>, p: int, j: int)
  {
    InTable(A0) && |Q0| == MAXPROC && 0 <= j <= |A0| &&
    F == Retired(A0, Q0, p, j) + F0 && Frame(T0, T, Flat(Q0), p)
  }

  /** One more step of the walk keeps Swept. */
  lemma SweptNext(A0: seq<int>, Q0: seq<seq<Pos>>, T0: seq<Proc>, F0: seq<int>,
                  F1: seq<int>, T1: seq<Proc>, F: seq<int>, T: seq<Proc>, p: int, j: int)
    requires Swept(A0, Q0, T0, F0, F1, T1, p, j) && j < |A0|
    requires F == (if Contents(Q0[A0[j]]) == [p] then [A0[j]] else []) + F1
    requires Frame(T1, T, Q0[A0[j]], p)
    ensures Swept(A0, Q0, T0, F0, F, T, p, j + 1)
  {
    RetiredNext(A0, Q0, p, j, F0, F1, F);
    FrameStep(T0, T1, T, Q0, A0[j], p);
  }

  /** An address is among the hits of the first j descriptors exactly when one of them has it and holds p. */
  lemma {:induction false} HitsAt(S: seq<Semd>, A: seq<int>, Q: seq<seq<Pos>>, p: int, j: int, y: int)
    requires |S| == MAXPROC && InTable(A) && |Q| == MAXPROC && 0 <= j <= |A|
    ensures y in Hits(S, A, Q, p, j) <==> exists i :: 0 <= i < j && S[A[i]].semAdd == y && p in Contents(Q[A[i]])
  {
    if j > 0 {
      HitsAt(S, A, Q, p, j - 1, y);
      if exists i :: 0 <= i < j && S[A[i]].semAdd == y && p in Contents(Q[A[i]]) {
        var i :| 0 <= i < j && S[A[i]].semAdd == y && p in Contents(Q[A[i]]);
        if i < j - 1 {
          assert y in Hits(S, A, Q, p, j - 1);
        }
      }
    }
  }

  /** The hits of a whole ASL are exactly the addresses on which p is blocked. */
  lemma HitsHold(S: seq<Semd>, h: int, A: seq<int>, Q: seq<seq<Pos>>, p: int, y: int)
    requires ActiveList(S, h, A) && |Q| == MAXPROC
    ensures y in Hits(S, A, Q, p, |A|) <==> p in BlockedOn(S, A, Q, y)
  {
    HitsAt(S, A, Q, p, |A|, y);
    var d := Lookup(S, A, y);
    if d != ENULL {
      if p in Contents(Q[d]) {
        var i :| 0 <= i < |A| && A[i] == d;
      } else {
        forall i | 0 <= i < |A| && S[A[i]].semAdd == y ensures p !in Contents(Q[A[i]]) {
          LookupIs(S, h, A, A[i]);
        }
      }
    }
  }

  /** Before the first step nothing has been walked. */
  lemma WalkStart(S0: seq<Semd>, h0: int, A0: seq<int>, Q0: seq<seq<Pos>>, T0: seq<Proc>, p: int)
    requires ActiveList(S0, h0, A0) && |Q0| == MAXPROC && |T0| == MAXPROC && 0 <= p < MAXPROC
    ensures Walked(S0, h0, A0, Q0, T0, S0, A0, Q0, T0, p, 0)
  {
    forall y | Passed(S0, A0, 0, y) ensures BlockedOn(S0, A0, Q0, y) == [] {
      forall i | 0 <= i < |A0| ensures S0[A0[i]].semAdd != y {
        if i > 0 {
          assert S0[A0[0]].semAdd < S0[A0[i]].semAdd;
        }
      }
    }
    assert A0[|A0| - |A0|..] == A0[0..];
  }

  /**
   * Where the walk stands at position j: the descriptor A0[j] is on the ASL
   * with its address, its queue blocks what it did at the start, and its
   * successor is the next descriptor of A0.
   */
  lemma WalkHere(S0: seq<Semd>, h0: int, A0: seq<int>, Q0: seq<seq<Pos>>, T0: seq<Proc>,
                 S: seq<Semd>, h: int, A: seq<int>, Q: seq<seq<Pos>>, T: seq<Proc>, p: int, j: int)
    requires Walked(S0, h0, A0, Q0, T0, S, A, Q, T, p, j) == true && ActiveList(S, h, A) == true && j < |A0|
    ensures A0[j] in A && S[A0[j]].semAdd == S0[A0[j]].semAdd
    ensures Contents(Q[A0[j]]) == Contents(Q0[A0[j]]) == BlockedOn(S, A, Q, S0[A0[j]].semAdd)
    ensures Contents(Q0[A0[j]]) == BlockedOn(S0, A0, Q0, S0[A0[j]].semAdd)
    ensures S[A0[j]].next == if j + 1 < |A0| then A0[j + 1] else ENULL
  {
    WalkAt(S0, A0, S, h, A, j);
    var d := A0[j];
    var a := S0[d].semAdd;
    LookupIs(S, h, A, d);
    LookupIs(S0, h0, A0, d);
    assert !Passed(S0, A0, j, a);
    assert BlockedWalked(S0, A0, Q0, S, A, Q, p, j);
    assert BlockedOn(S, A, Q, a) == BlockedOn(S0, A0, Q0, a);
  }

  /** The descriptor at position j of the walk is still on the active list, with its successor. */
  lemma WalkAt(S0: seq<Semd>, A0: seq<int>, S: seq<Semd>, h: int, A: seq<int>, j: int)
    requires |S0| == MAXPROC && InTable(A0) && |S| == MAXPROC && 0 <= j < |A0|
    requires TailKept(S0, A0, S, A, j) && ActiveList(S, h, A)
    ensures A0[j] in A && S[A0[j]].semAdd == S0[A0[j]].semAdd
    ensures S[A0[j]].next == if j + 1 < |A0| then A0[j + 1] else ENULL
  {
    var m := |A| - (|A0| - j);
    SuffixAt(A, A0, j, j);
    if j + 1 < |A0| {
      SuffixAt(A, A0, j, j + 1);
    }
    ActiveAt(S, h, A, m);
  }

  /** Where A ends with the suffix of B from j, the k-th element of B sits |B| - k places from A's end. */
  lemma SuffixAt(A: seq<int>, B: seq<int>, j: int, k: int)
    requires 0 <= j <= k < |B| && |B| - j <= |A| && A[|A| - (|B| - j)..] == B[j..]
    ensures A[|A| - (|B| - k)] == B[k]
  {
    assert A[|A| - (|B| - k)] == A[|A| - (|B| - j)..][k - j] == B[j..][k - j];
  }

  /** The walk's step at position j leaves every address other than that of A0[j] as the invariant wants it. */
  lemma WalkBlocked(S0: seq<Semd>, h0: int, A0: seq<int>, Q0: seq<seq<Pos>>, T0: seq<Proc>,
                    S: seq<Semd>, A: seq<int>, Q: seq<seq<Pos>>, T: seq<Proc>,
                    S': seq<Semd>, A': seq<int>, Q': seq<seq<Pos>>, p: int, j: int, y: int)
    requires Walked(S0, h0, A0, Q0, T0, S, A, Q, T, p, j) == true && j < |A0|
    requires |S'| == MAXPROC && InTable(A') && |Q'| == MAXPROC
    requires y != S0[A0[j]].semAdd && BlockedOn(S', A', Q', y) == BlockedOn(S, A, Q, y)
    ensures BlockedOn(S', A', Q', y) ==
      if Passed(S0, A0, j + 1, y) then Drop(BlockedOn(S0, A0, Q0, y), p) else BlockedOn(S0, A0, Q0, y)
  {
    var a := S0[A0[j]].semAdd;
    if Passed(S0, A0, j + 1, y) && !Passed(S0, A0, j, y) {
      forall i | 0 <= i < |A0| ensures S0[A0[i]].semAdd != y {
        if i < j {
          assert S0[A0[i]].semAdd < a;
        } else if i > j + 1 {
          assert S0[A0[j + 1]].semAdd < S0[A0[i]].semAdd;
        }
      }
    } else if Passed(S0, A0, j, y) && j + 1 < |A0| {
      assert a < S0[A0[j + 1]].semAdd;
    }
  }

  /** The walk's step at position j takes p off the queue of the address of A0[j], if it is there. */
  lemma WalkOwn(S0: seq<Semd>, h0: int, A0: seq<int>, Q0: seq<seq<Pos>>, T0: seq<Proc>,
                S: seq<Semd>, A: seq<int>, Q: seq<seq<Pos>>, T: seq<Proc>,
                S': seq<Semd>, A': seq<int>, Q': seq<seq<Pos>>, p: int, j: int, hit: bool)
    requires Walked(S0, h0, A0, Q0, T0, S, A, Q, T, p, j) == true && j < |A0|
    requires |S'| == MAXPROC && InTable(A') && |Q'| == MAXPROC
    requires Contents(Q[A0[j]]) == BlockedOn(S0, A0, Q0, S0[A0[j]].semAdd) && hit == (p in Contents(Q[A0[j]]))
    requires var c := Contents(Q[A0[j]]); var k := IndexOf(c, p);
      BlockedOn(S', A', Q', S0[A0[j]].semAdd) == if hit then c[..k] + c[k + 1..] else c
    ensures BlockedOn(S', A', Q', S0[A0[j]].semAdd) == Drop(BlockedOn(S0, A0, Q0, S0[A0[j]].semAdd), p)
    ensures Passed(S0, A0, j + 1, S0[A0[j]].semAdd)
  {
    var c := Contents(Q[A0[j]]);
    assert Drop(c, p) == if hit then c[..IndexOf(c, p)] + c[IndexOf(c, p) + 1..] else c;
    if j + 1 < |A0| {
      assert S0[A0[j]].semAdd < S0[A0[j + 1]].semAdd;
    }
  }

  /** The walk's step at position j keeps the tail of A0 from j + 1 on the ASL, with its addresses. */
  lemma WalkTail(S0: seq<Semd>, h0: int, A0: seq<int>, Q0: seq<seq<Pos>>, T0: seq<Proc>,
                 S: seq<Semd>, A: seq<int>, Q: seq<seq<Pos>>, T: seq<Proc>,
                 S': seq<Semd>, A': seq<int>, p: int, j: int)
    requires Walked(S0, h0, A0, Q0, T0, S, A, Q, T, p, j) == true && j < |A0| && Distinct(A)
    requires |S'| == MAXPROC && (A' == A || A' == Drop(A, A0[j]))
    requires forall e :: 0 <= e < MAXPROC && e != A0[j] ==> S'[e].semAdd == S[e].semAdd
    ensures TailKept(S0, A0, S', A', j + 1)
  {
    var m := |A| - (|A0| - j);
    assert A[m] == A[m..][0] == A0[j..][0];
    assert A0[j + 1..] == A0[j..][1..] == A[m + 1..];
    if A' != A {
      DropAt(A, m);
      assert A'[m..] == A[m + 1..];
    }
    forall i | j + 1 <= i < |A0| ensures S'[A0[i]].semAdd == S0[A0[i]].semAdd {
      assert A0[i] != A0[j];
    }
  }

  /** The walk's step at position j removes the address of A0[j] from p's vector exactly when it took p off. */
  lemma WalkVector(S0: seq<Semd>, h0: int, A0: seq<int>, Q0: seq<seq<Pos>>, T0: seq<Proc>,
                   S: seq<Semd>, A: seq<int>, Q: seq<seq<Pos>>, T: seq<Proc>, T': seq<Proc>, p: int, j: int, hit: bool)
    requires Walked(S0, h0, A0, Q0, T0, S, A, Q, T, p, j) == true && j < |A0|
    requires hit == (p in Contents(Q0[A0[j]]))
    requires if hit then VectorDropped(T, T', p, S0[A0[j]].semAdd) else T' == T
    ensures |T'| == MAXPROC && VectorsWalked(S0, A0, Q0, T0, T', p, j + 1)
  {
    var H := Hits(S0, A0, Q0, p, j);
    if hit {
      var a := S0[A0[j]].semAdd;
      assert Hits(S0, A0, Q0, p, j + 1) == H + [a];
      assert (H + [a])[..|H + [a]| - 1] == H;
    } else {
      assert Hits(S0, A0, Q0, p, j + 1) == H;
    }
  }

  /**
   * One step of the walk, at position j: the step either found p on the
   * queue of A0[j] and took it off (with the address of A0[j] leaving p's
   * vector), or changed nothing. Either way the walk has advanced to j + 1.
   */
  lemma WalkNext(S0: seq<Semd>, h0: int, A0: seq<int>, Q0: seq<seq<Pos>>, T0: seq<Proc>,
                 S: seq<Semd>, h: int, A: seq<int>, F: seq<int>, Q: seq<seq<Pos>>, T: seq<Proc>,
                 S': seq<Semd>, A': seq<int>, F': seq<int>, Q': seq<seq<Pos>>, T': seq<Proc>, p: int, j: int, hit: bool)
    requires Walked(S0, h0, A0, Q0, T0, S, A, Q, T, p, j) == true && ActiveList(S, h, A) == true && j < |A0|
    requires |S'| == MAXPROC && InTable(A') && |Q'| == MAXPROC && |T'| == MAXPROC
    requires hit == (p in Contents(Q[A0[j]]))
    requires !hit ==> S' == S && A' == A && Q' == Q && T' == T
    requires hit ==> Unqueued(S, A, F, Q, S', A', F', Q', A0[j], S[A0[j]].semAdd, IndexOf(Contents(Q[A0[j]]), p)) == true
    requires hit ==> VectorDropped(T, T', p, S[A0[j]].semAdd) == true
    ensures Walked(S0, h0, A0, Q0, T0, S', A', Q', T', p, j + 1)
    ensures hit == (p in Contents(Q0[A0[j]]))
  {
    WalkHere(S0, h0, A0, Q0, T0, S, h, A, Q, T, p, j);
    WalkAll(S0, h0, A0, Q0, T0, S, A, F, Q, T, S', A', F', Q', p, j, hit);
    WalkTail(S0, h0, A0, Q0, T0, S, A, Q, T, S', A', p, j);
    WalkVector(S0, h0, A0, Q0, T0, S, A, Q, T, T', p, j, hit);
  }

  /** The walk's step at position j keeps the blocked processes of every address as the invariant wants them. */
  lemma WalkAll(S0: seq<Semd>, h0: int, A0: seq<int>, Q0: seq<seq<Pos>>, T0: seq<Proc>,
                S: seq<Semd>, A: seq<int>, F: seq<int>, Q: seq<seq<Pos>>, T: seq<Proc>,
                S': seq<Semd>, A': seq<int>, F': seq<int>, Q': seq<seq<Pos>>, p: int, j: int, hit: bool)
    requires Walked(S0, h0, A0, Q0, T0, S, A, Q, T, p, j) == true && j < |A0|
    requires |S'| == MAXPROC && InTable(A') && |Q'| == MAXPROC
    requires S[A0[j]].semAdd == S0[A0[j]].semAdd
    requires Contents(Q[A0[j]]) == BlockedOn(S, A, Q, S0[A0[j]].semAdd)
    requires Contents(Q[A0[j]]) == BlockedOn(S0, A0, Q0, S0[A0[j]].semAdd)
    requires hit == (p in Contents(Q[A0[j]]))
    requires !hit ==> S' == S && A' == A && Q' == Q
    requires hit ==> Unqueued(S, A, F, Q, S', A', F', Q', A0[j], S[A0[j]].semAdd, IndexOf(Contents(Q[A0[j]]), p)) == true
    ensures BlockedWalked(S0, A0, Q0, S', A', Q', p, j + 1)
  {
    var a := S0[A0[j]].semAdd;
    StepBlocked(S, A, F, Q, S', A', F', Q', A0[j], a, p, hit);
    WalkOwn(S0, h0, A0, Q0, T0, S, A, Q, T, S', A', Q', p, j, hit);
    WalkOthers(S0, h0, A0, Q0, T0, S, A, Q, T, S', A', Q', p, j);
  }

  /**
   * The step at descriptor d of address a changes only what a blocks: its
   * queue loses p when p is there (hit), and nothing else changes.
   */
  lemma StepBlocked(S: seq<Semd>, A: seq<int>, F: seq<int>, Q: seq<seq<Pos>>,
                    S': seq<Semd>, A': seq<int>, F': seq<int>, Q': seq<seq<Pos>>, d: int, a: int, p: int, hit: bool)
    requires |S| == MAXPROC && InTable(A) && |Q| == MAXPROC && 0 <= d < MAXPROC
    requires |S'| == MAXPROC && InTable(A') && |Q'| == MAXPROC
    requires BlockedOn(S, A, Q, a) == Contents(Q[d]) && hit == (p in Contents(Q[d]))
    requires !hit ==> S' == S && A' == A && Q' == Q
    requires hit ==> Unqueued(S, A, F, Q, S', A', F', Q', d, a, IndexOf(Contents(Q[d]), p)) == true
    ensures forall y :: y != a ==> BlockedOn(S', A', Q', y) == BlockedOn(S, A, Q, y)
    ensures var c := Contents(Q[d]); var k := IndexOf(c, p);
      BlockedOn(S', A', Q', a) == if hit then c[..k] + c[k + 1..] else c
  {
    if hit {
      var c := Contents(Q[d]);
      var k := IndexOf(c, p);
      UnqueuedReblocked(S, A, F, Q, S', A', F', Q', d, a, k);
      ReblockedAt(S', A', Q', S, A, Q, a, c[..k] + c[k + 1..]);
    }
  }

  /** Taking the k-th process off the queue of d re-blocks a on what remains. */
  lemma UnqueuedReblocked(S0: seq<Semd>, A0: seq<int>, F0: seq<int>, Q0: seq<seq<Pos>>,
                          S: seq<Semd>, A: seq<int>, F: seq<int>, Q: seq<seq<Pos>>, d: int, a: int, k: int)
    requires Unqueued(S0, A0, F0, Q0, S, A, F, Q, d, a, k) == true
    ensures 0 <= d < MAXPROC && 0 <= k < |Q0[d]|
    ensures Reblocked(S, A, Q, S0, A0, Q0, a, Contents(Q0[d])[..k] + Contents(Q0[d])[k + 1..]) == true
  {
  }

  /** What Reblocked says of address a and of every other address. */
  lemma ReblockedAt(S': seq<Semd>, A': seq<int>, Q': seq<seq<Pos>>,
                    S: seq<Semd>, A: seq<int>, Q: seq<seq<Pos>>, a: int, q: seq<int>)
    requires Reblocked(S', A', Q', S, A, Q, a, q) == true
    ensures |S'| == MAXPROC && InTable(A') && |Q'| == MAXPROC && |S| == MAXPROC && InTable(A) && |Q| == MAXPROC
    ensures BlockedOn(S', A', Q', a) == q
    ensures forall y :: y != a ==> BlockedOn(S', A', Q', y) == BlockedOn(S, A, Q, y)
  {
  }

  /** The step at position j leaves every other address as the walk's invariant wants it. */
  lemma WalkOthers(S0: seq<Semd>, h0: int, A0: seq<int>, Q0: seq<seq<Pos>>, T0: seq<Proc>,
                   S: seq<Semd>, A: seq<int>, Q: seq<seq<Pos>>, T: seq<Proc>,
                   S': seq<Semd>, A': seq<int>, Q': seq<seq<Pos>>, p: int, j: int)
    requires Walked(S0, h0, A0, Q0, T0, S, A, Q, T, p, j) == true && j < |A0|
    requires |S'| == MAXPROC && InTable(A') && |Q'| == MAXPROC
    requires forall y :: y != S0[A0[j]].semAdd ==> BlockedOn(S', A', Q', y) == BlockedOn(S, A, Q, y)
    ensures forall y :: y != S0[A0[j]].semAdd ==> (BlockedOn(S', A', Q', y) ==
      if Passed(S0, A0, j + 1, y) then Drop(BlockedOn(S0, A0, Q0, y), p) else BlockedOn(S0, A0, Q0, y))
  {
    forall y | y != S0[A0[j]].semAdd ensures BlockedOn(S', A', Q', y) ==
      if Passed(S0, A0, j + 1, y) then Drop(BlockedOn(S0, A0, Q0, y), p) else BlockedOn(S0, A0, Q0, y)
    {
      WalkBlocked(S0, h0, A0, Q0, T0, S, A, Q, T, S', A', Q', p, j, y);
    }
  }

  /**
   * Past the whole ASL, the walk has taken p out of every queue, and the
   * addresses it cleared from p's vector are those of the queues that held p.
   */
  lemma WalkDone(S0: seq<Semd>, h0: int, A0: seq<int>, Q0: seq<seq<Pos>>, T0: seq<Proc>,
                 S: seq<Semd>, A: seq<int>, Q: seq<seq<Pos>>, T: seq<Proc>, p: int)
    requires Walked(S0, h0, A0, Q0, T0, S, A, Q, T, p, |A0|) == true
    ensures forall y :: BlockedOn(S, A, Q, y) == Drop(BlockedOn(S0, A0, Q0, y), p)
    ensures Hits(S0, A0, Q0, p, |A0|) != [] <==> exists y :: p in BlockedOn(S0, A0, Q0, y)
    ensures T[p].semvec == ClearEach(T0[p].semvec, Hits(S0, A0, Q0, p, |A0|))
    ensures forall i :: 0 <= i < MAXPROC && i != p ==> T[i].semvec == T0[i].semvec
  {
    forall y ensures BlockedOn(S, A, Q, y) == Drop(BlockedOn(S0, A0, Q0, y), p) {
      assert Passed(S0, A0, |A0|, y);
    }
    var H := Hits(S0, A0, Q0, p, |A0|);
    if H != [] {
      HitsHold(S0, h0, A0, Q0, p, H[0]);
    }
    if y :| p in BlockedOn(S0, A0, Q0, y) {
      HitsHold(S0, h0, A0, Q0, p, y);
    }
  }

  // ---------------------------------------------------------------------
  // The semaphore descriptors

  class ASL {
    /** The process table whose link slots thread the semaphore queues. */
    const procs: ProcTable
    /** semdTable[MAXPROC] */
    const semdTable: array<Semd>
    /** semd_h: the head of the ASL */
    var semd_h: int
    /** semdFree_h: the head of the free list of descriptors */
    var semdFree_h: int
    /** The ASL, head first. */
    ghost var active: seq<int>
    /** The free list of descriptors, head first. */
    ghost var free: seq<int>
    /** The queue of each descriptor, head first; empty for a descriptor not on the ASL. */
    ghost var queues: seq<seq<Pos>>

    ghost predicate Valid()
      reads this, procs, procs.table, semdTable
    {
      procs.Valid() &&
      AslInv(semdTable[..], semd_h, semdFree_h, active, free, queues, procs.table[..], procs.free)
    }

    /** The processes blocked on the semaphore at address a, in the order they are woken. */
    ghost function Blocked(a: int): seq<int>
      reads this, semdTable
      requires semdTable.Length == MAXPROC && InTable(active) && |queues| == MAXPROC
    {
      BlockedOn(semdTable[..], active, queues, a)
    }

    /** The statically allocated descriptors, with both lists empty; initSemd gives them their contents. */
    constructor (pt: ProcTable)
      ensures procs == pt && fresh(semdTable) && semdTable.Length == MAXPROC
      ensures semd_h == ENULL && semdFree_h == ENULL
    {
      procs := pt;
      semdTable := new Semd[MAXPROC](i => NoSemd);
      semd_h := ENULL;
      semdFree_h := ENULL;
      active := [];
      free := [];
      queues := seq(MAXPROC, i => []);
    }

    /** The addresses whose queues hold p, in ASL order: the vector entries outBlocked clears. */
    ghost function Holding(p: int): seq<int>
      reads this, semdTable
      requires semdTable.Length == MAXPROC && InTable(active) && |queues| == MAXPROC
    {
      Hits(semdTable[..], active, queues, p, |active|)
    }

    /** Valid, from its parts. */
    lemma ValidIs()
      requires procs.Valid() == true
      requires AslInv(semdTable[..], semd_h, semdFree_h, active, free, queues, procs.table[..], procs.free) == true
      ensures Valid()
    {
    }

    /** Blocked, unfolded. */
    lemma BlockedIs(y: int)
      requires semdTable.Length == MAXPROC && InTable(active) && |queues| == MAXPROC
      ensures Blocked(y) == BlockedOn(semdTable[..], active, queues, y)
    {
    }

    /**
     * initSemd: the free list holds every descriptor in index order, linked in
     * both directions; the ASL, empty before, blocks nothing.
     */
    method InitSemd()
      requires procs.Valid() && semdTable.Length == MAXPROC && semd_h == ENULL
      modifies this, semdTable
      ensures Valid() && active == [] && free == seq(MAXPROC, i => i)
      ensures forall i :: 0 <= i < MAXPROC ==> semdTable[i].prev == (if i == 0 then ENULL else i - 1)
      ensures forall a :: Blocked(a) == []
    {
      assert semdTable as object != procs.table as object;
      semdFree_h := 0;
      semdTable[0] := semdTable[0].(prev := ENULL);
      var prevSemd := 0;
      for i := 1 to MAXPROC
        invariant prevSemd == i - 1 && semdFree_h == 0 && semd_h == ENULL
        invariant forall j :: 0 <= j < i - 1 ==> semdTable[j].next == j + 1
        invariant forall j :: 0 <= j < i ==> semdTable[j].prev == (if j == 0 then ENULL else j - 1)
      {
        semdTable[i] := semdTable[i].(prev := prevSemd);
        semdTable[prevSemd] := semdTable[prevSemd].(next := i);
        prevSemd := i;
      }
      semdTable[prevSemd] := semdTable[prevSemd].(next := ENULL);
      active := [];
      free := seq(MAXPROC, i => i);
      queues := seq(MAXPROC, i => []);
      InitialInv(semdTable[..], procs.table[..], procs.free, free, queues);
    }

    /** resetSemaphore: descriptor s is on no list, has no address and an empty queue. */
    method ResetSemaphore(s: int)
      requires 0 <= s < semdTable.Length
      modifies semdTable
      ensures semdTable[..] == old(semdTable[..])[s := NoSemd]
    {
      semdTable[s] := NoSemd;
    }

    /** getSemaphoreFromActiveList: the walk along the ASL for the descriptor of address a. */
    method GetSemaphoreFromActiveList(a: int) returns (d: int)
      requires ActiveList(semdTable[..], semd_h, active)
      ensures d == Lookup(semdTable[..], active, a)
    {
      ghost var S := semdTable[..];
      d := semd_h;
      ghost var j := 0;
      while d != ENULL
        invariant 0 <= j <= |active| && d == (if j < |active| then active[j] else ENULL)
        invariant forall i :: 0 <= i < j ==> S[active[i]].semAdd != a
        decreases |active| - j
      {
        ActiveAt(S, semd_h, active, j);
        if semdTable[d].semAdd == a {
          LookupFirst(S, active, j, a);
          return d;
        }
        d := semdTable[d].next;
        j := j + 1;
      }
    }

    /** headASL: whether some process is blocked on some semaphore. */
    function HeadASL(): (b: bool)
      reads this, procs, procs.table, semdTable
      requires Valid()
      ensures b <==> exists a :: Blocked(a) != []
    {
      if semd_h == ENULL then
        false
      else
        LookupIs(semdTable[..], semd_h, active, semd_h);
        assert Blocked(semdTable[semd_h].semAdd) == Contents(queues[semd_h]);
        true
    }

    /** headBlocked: the first process blocked on the semaphore at address a, or ENULL. */
    method HeadBlocked(a: int) returns (r: int)
      requires Valid()
      ensures r == First(Blocked(a))
    {
      var d := GetSemaphoreFromActiveList(a);
      if d == ENULL {
        return ENULL;
      }
      r := procs.HeadQueue(semdTable[d].link, queues[d]);
    }

    /** allocateSemaphoreFromFreeList: the head of the free list is taken off it and reset; ENULL when it is empty. */
    method AllocateSemaphoreFromFreeList() returns (s: int)
      requires SemdFreeList(semdTable[..], semdFree_h, free)
      modifies this`semdFree_h, this`free, semdTable
      ensures SemdFreeList(semdTable[..], semdFree_h, free)
      ensures old(free) == [] ==> s == ENULL && free == [] && semdTable[..] == old(semdTable[..])
      ensures old(free) != [] ==>
        s == old(free[0]) && free == old(free[1..]) && semdFree_h == old(semdTable[s].next) &&
        semdTable[..] == old(semdTable[..])[s := NoSemd]
    {
      s := semdFree_h;
      if s == ENULL {
        return;
      }
      FreePop(semdTable[..], semdFree_h, free);
      semdFree_h := semdTable[s].next;
      ResetSemaphore(s);
      free := free[1..];
    }

    /** returnSemaphoreToFreeList: s, reset, becomes the head of the free list; ENULL is ignored. */
    method ReturnSemaphoreToFreeList(s: int)
      requires SemdFreeList(semdTable[..], semdFree_h, free) == true
      requires s == ENULL || (0 <= s < MAXPROC && s !in free)
      modifies this`semdFree_h, this`free, semdTable
      ensures SemdFreeList(semdTable[..], semdFree_h, free)
      ensures s == ENULL ==> free == old(free) && semdTable[..] == old(semdTable[..])
      ensures s != ENULL ==> free == [s] + old(free) && semdFree_h == s
      ensures s != ENULL && old(free) == [] ==> semdTable[..] == old(semdTable[..])[s := NoSemd]
      ensures s != ENULL && old(free) != [] ==>
        semdTable[..] == old(semdTable[..])[s := NoSemd.(next := old(semdFree_h))]
                                           [old(semdFree_h) := old(semdTable[semdFree_h]).(prev := s)]
    {
      if s != ENULL {
        ghost var S, h, F := semdTable[..], semdFree_h, free;
        FreePush(S, h, F, s);
        ResetSemaphore(s);
        if semdFree_h == ENULL {
          semdFree_h := s;
          free := [s];
        } else {
          semdTable[s] := semdTable[s].(next := semdFree_h);
          semdTable[semdFree_h] := semdTable[semdFree_h].(prev := s);
          semdFree_h := s;
          free := [s] + free;
          assert semdTable[..] == S[s := NoSemd.(next := h)][h := S[h].(prev := s)];
          assert SemdFreeList(semdTable[..], s, [s] + F) == true;
        }
      }
    }

    /**
     * The loop of insertSemaphoreIntoActiveList: the walk stops at the first
     * descriptor whose address is not below that of s, with prevSemd just
     * before it; the walk starts past the head, whose address is below.
     */
    method FindInsertionPoint(s: int) returns (prevSemd: int, currSemd: int, ghost k: int)
      requires ActiveList(semdTable[..], semd_h, active) && 0 <= s < MAXPROC && active != []
      requires semdTable[s].semAdd >= semdTable[semd_h].semAdd
      requires forall i :: 0 <= i < |active| ==> semdTable[active[i]].semAdd != semdTable[s].semAdd
      ensures 1 <= k <= |active| && prevSemd == active[k - 1]
      ensures currSemd == (if k < |active| then active[k] else ENULL)
      ensures semdTable[active[k - 1]].semAdd < semdTable[s].semAdd
      ensures k < |active| ==> semdTable[s].semAdd < semdTable[active[k]].semAdd
    {
      currSemd := semd_h;
      prevSemd := ENULL;
      k := 0;
      while currSemd != ENULL && semdTable[s].semAdd > semdTable[currSemd].semAdd
        invariant 0 <= k <= |active| && currSemd == (if k < |active| then active[k] else ENULL)
        invariant k > 0 ==> prevSemd == active[k - 1] && semdTable[prevSemd].semAdd < semdTable[s].semAdd
        decreases |active| - k
      {
        ActiveAt(semdTable[..], semd_h, active, k);
        prevSemd := currSemd;
        currSemd := semdTable[currSemd].next;
        k := k + 1;
      }
    }

    /**
     * insertSemaphoreIntoActiveList: s, whose address no descriptor of the
     * ASL holds, goes in at the place that keeps the addresses ascending;
     * only neighbour links change.
     */
    method InsertSemaphoreIntoActiveList(s: int) returns (ghost k: int)
      requires ActiveList(semdTable[..], semd_h, active) && 0 <= s < MAXPROC && s !in active
      requires forall i :: 0 <= i < |active| ==> semdTable[active[i]].semAdd != semdTable[s].semAdd
      modifies this`semd_h, this`active, semdTable
      ensures 0 <= k <= |old(active)| && active == old(active[..k]) + [s] + old(active[k..])
      ensures ActiveList(semdTable[..], semd_h, active) && Relinked(old(semdTable[..]), semdTable[..], active, ENULL)
    {
      if semd_h == ENULL {
        semd_h := s;
        semdTable[s] := semdTable[s].(next := ENULL, prev := ENULL);
        k := 0;
      } else {
        var currSemd := semd_h;
        var insertSemd := s;
        if semdTable[insertSemd].semAdd < semdTable[currSemd].semAdd {
          semdTable[insertSemd] := semdTable[insertSemd].(next := currSemd, prev := ENULL);
          semdTable[currSemd] := semdTable[currSemd].(prev := insertSemd);
          semd_h := insertSemd;
          k := 0;
        } else {
          var prevSemd;
          prevSemd, currSemd, k := FindInsertionPoint(s);
          semdTable[prevSemd] := semdTable[prevSemd].(next := insertSemd);
          semdTable[insertSemd] := semdTable[insertSemd].(prev := prevSemd, next := currSemd);
          if currSemd != ENULL {
            semdTable[currSemd] := semdTable[currSemd].(prev := insertSemd);
          }
        }
      }
      assert semdTable[..] == SplicedIn(old(semdTable[..]), old(active), k, s);
      active := old(active[..k]) + [s] + old(active[k..]);
      SplicedInList(old(semdTable[..]), semdTable[..], old(semd_h), semd_h, old(active), active, k, s);
    }

    /**
     * removeSemaphoreFromActiveList: s leaves the ASL and is reset; its
     * neighbours are linked to each other. An empty ASL or ENULL is ignored.
     */
    method RemoveSemaphoreFromActiveList(s: int) returns (ghost k: int)
      requires ActiveList(semdTable[..], semd_h, active)
      requires active != [] && s != ENULL ==> s in active
      modifies this`semd_h, this`active, semdTable
      ensures ActiveList(semdTable[..], semd_h, active)
      ensures old(active) == [] || s == ENULL ==> active == old(active) && semdTable[..] == old(semdTable[..])
      ensures old(active) != [] && s != ENULL ==>
        0 <= k < |old(active)| && old(active)[k] == s &&
        active == old(active[..k]) + old(active[k + 1..]) && semdTable[s] == NoSemd &&
        Relinked(old(semdTable[..]), semdTable[..], old(active), s)
    {
      k := ENULL;
      if semd_h != ENULL && s != ENULL {
        k := IndexOf(active, s);
        ActivePlace(semdTable[..], semd_h, active, k);
        var prevSemd := semdTable[s].prev;
        var nextSemd := semdTable[s].next;
        if semd_h == s && nextSemd == ENULL && prevSemd == ENULL {
          semd_h := ENULL;
          ResetSemaphore(s);
        } else if s == semd_h {
          ActiveAt(semdTable[..], semd_h, active, k);
          semd_h := nextSemd;
          semdTable[nextSemd] := semdTable[nextSemd].(prev := ENULL);
          ResetSemaphore(s);
        } else {
          ActiveAt(semdTable[..], semd_h, active, k);
          semdTable[prevSemd] := semdTable[prevSemd].(next := nextSemd);
          if nextSemd != ENULL {
            semdTable[nextSemd] := semdTable[nextSemd].(prev := prevSemd);
          }
          ResetSemaphore(s);
        }
        assert semdTable[..] == SplicedOut(old(semdTable[..]), old(active), k);
        active := old(active[..k]) + old(active[k + 1..]);
        SplicedOutList(old(semdTable[..]), semdTable[..], old(semd_h), semd_h, old(active), active, k, s);
      }
    }

    /**
     * addSemaphoreToProcessVector: the address a goes into the first empty
     * entry of p's semaphore vector; false when p or a is ENULL or the vector is full.
     */
    method AddSemaphoreToProcessVector(a: int, p: int) returns (ok: bool)
      requires Shape(procs.table[..]) && (p == ENULL || 0 <= p < MAXPROC)
      modifies procs.table
      ensures ok <==> p != ENULL && a != ENULL && ENULL in old(procs.table[p].semvec)
      ensures procs.table[..] == if p == ENULL then old(procs.table[..]) else
        old(procs.table[..])[p := old(procs.table[p]).(semvec := WithAddress(old(procs.table[p].semvec), a))]
    {
      if p == ENULL || a == ENULL {
        return false;
      }
      for i := 0 to SEMMAX
        invariant forall s :: 0 <= s < i ==> procs.table[p].semvec[s] != ENULL
      {
        if procs.table[p].semvec[i] == ENULL {
          procs.table[p] := procs.table[p].(semvec := procs.table[p].semvec[i := a]);
          return true;
        }
      }
      assert ENULL !in procs.table[p].semvec;
      return false;
    }

    /**
     * removeSemaphoreFromProcessVector: the first entry of p's semaphore
     * vector holding a is emptied; false when p or a is ENULL or a is not there.
     */
    method RemoveSemaphoreFromProcessVector(a: int, p: int) returns (ok: bool)
      requires Shape(procs.table[..]) && (p == ENULL || 0 <= p < MAXPROC)
      modifies procs.table
      ensures ok <==> p != ENULL && a != ENULL && a in old(procs.table[p].semvec)
      ensures procs.table[..] == if p == ENULL then old(procs.table[..]) else
        old(procs.table[..])[p := old(procs.table[p]).(semvec := WithoutAddress(old(procs.table[p].semvec), a))]
    {
      if p == ENULL || a == ENULL {
        return false;
      }
      for i := 0 to SEMMAX
        invariant forall s :: 0 <= s < i ==> procs.table[p].semvec[s] != a
      {
        if a == procs.table[p].semvec[i] {
          procs.table[p] := procs.table[p].(semvec := procs.table[p].semvec[i := ENULL]);
          return true;
        }
      }
      assert a !in procs.table[p].semvec;
      return false;
    }

    /**
     * The two steps insertBlocked takes for the descriptor d: the address a
     * goes into p's semaphore vector, and p is appended to d's queue, whose
     * tail handle d keeps. The append panics when p is on SEMMAX queues.
     */
    method Enqueue(d: int, a: int, p: int, ghost q: seq<Pos>) returns (panicked: bool, ghost x: Pos)
      requires procs.Valid() && semdTable.Length == MAXPROC && 0 <= d < MAXPROC
      requires procs.Queue(semdTable[d].link, q)
      requires 0 <= p < MAXPROC && p !in procs.free && p !in Contents(q)
      modifies semdTable, procs.table
      ensures procs.Valid()
      ensures panicked <==> old(procs.table[p].qcount) >= SEMMAX
      ensures procs.table[p].semvec == WithAddress(old(procs.table[p].semvec), a)
      ensures panicked ==>
        semdTable[..] == old(semdTable[..]) &&
        procs.table[..] == old(procs.table[..])[p := old(procs.table[p]).(semvec := procs.table[p].semvec)]
      ensures !panicked ==>
        ValidPos(x) && x.proc == p && old(At(procs.table[..], x)).next == ENULL &&
        semdTable[..] == old(semdTable[..])[d := old(semdTable[d]).(link := LinkTo(x))] &&
        procs.Queue(LinkTo(x), q + [x]) && Frame(old(procs.table[..]), procs.table[..], q + [x], p)
    {
      assert semdTable as object != procs.table as object;
      ghost var T0 := procs.table[..];
      x := Pos(p, FREE_LIST);
      var added := AddSemaphoreToProcessVector(a, p);
      ghost var T1 := procs.table[..];
      VectorEffect(T0, T1, procs.procFree_h, procs.free, semdTable[d].link, q, p);
      var tp';
      ghost var q';
      tp', panicked, q' := procs.InsertProc(semdTable[d].link, p, q);
      if !panicked {
        semdTable[d] := semdTable[d].(link := tp');
        x := Pos(p, tp'.index);
        FrameTrans(T0, T1, procs.table[..], [], q', p);
        assert [] + q' == q';
      }
    }

    /** insertBlocked on a semaphore that has a descriptor d on the ASL: p joins the tail of its queue. */
    method BlockOnActive(d: int, a: int, p: int) returns (panicked: bool)
      requires Valid() && 0 <= p < MAXPROC && p !in procs.free && p !in Blocked(a)
      requires d == Lookup(semdTable[..], active, a) && d != ENULL
      modifies this`queues, semdTable, procs.table
      ensures panicked <==> old(procs.table[p].qcount) >= SEMMAX
      ensures !panicked ==>
        Valid() && procs.table[p].semvec == WithAddress(old(procs.table[p].semvec), a) &&
        forall y :: Blocked(y) == if y == a then old(Blocked(a)) + [p] else old(Blocked(y))
      ensures !panicked ==> forall i :: 0 <= i < MAXPROC && i != p ==> procs.table[i].semvec == old(procs.table[i].semvec)
      ensures !panicked ==> Frame(old(procs.table[..]), procs.table[..], Flat(queues), p) == true
    {
      assert semdTable as object != procs.table as object;
      ghost var S0, Q0, T0 := semdTable[..], queues, procs.table[..];
      forall y ensures Blocked(y) == BlockedOn(S0, active, Q0, y) {
        BlockedIs(y);
      }
      ghost var x;
      panicked, x := Requeue(d, a, p);
      if !panicked {
        FrameFlat(T0, procs.table[..], queues, d, p);
        ValidIs();
        forall y ensures Blocked(y) == BlockedOn(semdTable[..], active, queues, y) {
          BlockedIs(y);
        }
      }
    }

    /**
     * p joins the tail of the queue of the active descriptor d, and the
     * invariant of the semaphore layer is kept.
     */
    method Requeue(d: int, a: int, p: int) returns (panicked: bool, ghost x: Pos)
      requires procs.Valid() == true && semdTable.Length == MAXPROC && 0 <= d < MAXPROC && d in active
      requires AslInv(semdTable[..], semd_h, semdFree_h, active, free, queues, procs.table[..], procs.free) == true
      requires |queues| == MAXPROC && procs.Queue(semdTable[d].link, queues[d]) == true
      requires 0 <= p < MAXPROC && p !in procs.free && p !in Contents(queues[d])
      modifies this`queues, semdTable, procs.table
      ensures panicked <==> old(procs.table[p].qcount) >= SEMMAX
      ensures procs.table[p].semvec == WithAddress(old(procs.table[p].semvec), a)
      ensures !panicked ==> forall i :: 0 <= i < MAXPROC && i != p ==> procs.table[i].semvec == old(procs.table[i].semvec)
      ensures !panicked ==> procs.Valid() == true
      ensures !panicked ==>
        AslInv(semdTable[..], semd_h, semdFree_h, active, free, queues, procs.table[..], procs.free) == true
      ensures !panicked ==>
        forall y :: BlockedOn(semdTable[..], active, queues, y) ==
          if y == old(semdTable[d].semAdd) then BlockedOn(old(semdTable[..]), active, old(queues), y) + [p]
          else BlockedOn(old(semdTable[..]), active, old(queues), y)
      ensures !panicked ==> |queues| == MAXPROC && Frame(old(procs.table[..]), procs.table[..], queues[d], p) == true
    {
      assert semdTable as object != procs.table as object;
      ghost var S0, T0, Q0 := semdTable[..], procs.table[..], queues;
      panicked, x := Enqueue(d, a, p, queues[d]);
      if !panicked {
        ghost var S1, T1 := semdTable[..], procs.table[..];
        RequeueInv(S0, S1, semd_h, semdFree_h, active, free, Q0, Q0[d := Q0[d] + [x]], T0, T1, procs.free,
                   d, x, Q0[d] + [x]);
        queues := queues[d := queues[d] + [x]];
        assert semdTable[..] == S1 && procs.table[..] == T1;
      }
    }

    /**
     * The first half of insertBlocked on a semaphore with no descriptor: the
     * head of the free list is taken off it, p becomes its whole queue, and
     * it takes address a.
     */
    method NewDescriptor(a: int, p: int) returns (nd: int, panicked: bool, ghost x: Pos)
      requires procs.Valid() && SemdFreeList(semdTable[..], semdFree_h, free) && free != []
      requires 0 <= p < MAXPROC && p !in procs.free
      modifies this`semdFree_h, this`free, semdTable, procs.table
      ensures nd == old(free[0]) && free == old(free[1..]) && semdFree_h == old(semdTable[nd].next)
      ensures procs.Valid() && procs.table[p].semvec == WithAddress(old(procs.table[p].semvec), a)
      ensures panicked <==> old(procs.table[p].qcount) >= SEMMAX
      ensures !panicked ==>
        semdTable[..] == old(semdTable[..])[nd := NoSemd.(link := LinkTo(x), semAdd := a)] &&
        ValidPos(x) && x.proc == p && old(At(procs.table[..], x)).next == ENULL &&
        IsRing(procs.table[..], LinkTo(x), [x]) && NotFree([x], procs.free) &&
        Frame(old(procs.table[..]), procs.table[..], [x], p)
    {
      assert semdTable as object != procs.table as object;
      nd, panicked, x := TakeDescriptor(a, p);
      ghost var S2, T2 := semdTable[..], procs.table[..];
      semdTable[nd] := semdTable[nd].(semAdd := a);
      assert procs.table[..] == T2;
      if !panicked {
        assert semdTable[..] == S2[nd := S2[nd].(semAdd := a)];
      }
    }

    /** The allocation and the enqueue of p that begin a new descriptor. */
    method TakeDescriptor(a: int, p: int) returns (nd: int, panicked: bool, ghost x: Pos)
      requires procs.Valid() && SemdFreeList(semdTable[..], semdFree_h, free) && free != []
      requires 0 <= p < MAXPROC && p !in procs.free
      modifies this`semdFree_h, this`free, semdTable, procs.table
      ensures nd == old(free[0]) && free == old(free[1..]) && semdFree_h == old(semdTable[nd].next)
      ensures procs.Valid() && procs.table[p].semvec == WithAddress(old(procs.table[p].semvec), a)
      ensures panicked <==> old(procs.table[p].qcount) >= SEMMAX
      ensures !panicked ==>
        semdTable[..] == old(semdTable[..])[nd := NoSemd.(link := LinkTo(x))] &&
        ValidPos(x) && x.proc == p && old(At(procs.table[..], x)).next == ENULL &&
        IsRing(procs.table[..], LinkTo(x), [x]) && NotFree([x], procs.free) &&
        Frame(old(procs.table[..]), procs.table[..], [x], p)
    {
      ghost var S0 := semdTable[..];
      nd := AllocateSemaphoreFromFreeList();
      ghost var S1 := semdTable[..];
      panicked, x := Enqueue(nd, a, p, []);
      if !panicked {
        assert [] + [x] == [x];
        assert S1[nd] == NoSemd;
        assert S1[nd := NoSemd.(link := LinkTo(x))] == S0[nd := NoSemd.(link := LinkTo(x))];
      }
    }

    /**
     * insertBlocked on a semaphore with no descriptor on the ASL: the head of
     * the free list takes address a and the queue of p alone, and joins the
     * ASL in address order.
     */
    method BlockOnNew(a: int, p: int) returns (panicked: bool)
      requires Valid() && 0 <= p < MAXPROC && p !in procs.free
      requires Lookup(semdTable[..], active, a) == ENULL && semdFree_h != ENULL
      modifies this`semd_h, this`semdFree_h, this`active, this`free, this`queues, semdTable, procs.table
      ensures panicked <==> old(procs.table[p].qcount) >= SEMMAX
      ensures !panicked ==>
        Valid() && procs.table[p].semvec == WithAddress(old(procs.table[p].semvec), a) &&
        forall y :: Blocked(y) == if y == a then old(Blocked(a)) + [p] else old(Blocked(y))
      ensures !panicked ==> forall i :: 0 <= i < MAXPROC && i != p ==> procs.table[i].semvec == old(procs.table[i].semvec)
      ensures !panicked ==> Frame(old(procs.table[..]), procs.table[..], Flat(queues), p) == true
      ensures free == old(free[1..])
    {
      assert semdTable as object != procs.table as object;
      ghost var S0, T0, F0, Q0 := semdTable[..], procs.table[..], free, queues;
      LookupBlocked(S0, semd_h, semdFree_h, active, F0, Q0, T0, procs.free, a);
      FreeAt(S0, semdFree_h, F0, 0);
      var nd;
      ghost var x;
      nd, panicked, x := NewDescriptor(a, p);
      if !panicked {
        ghost var T1 := procs.table[..];
        Activate(nd, a, x, S0, old(semdFree_h), F0, Q0, T0);
        assert procs.table[..] == T1;
        FrameFlat(T0, T1, queues, nd, p);
        ValidIs();
        forall y ensures Blocked(y) == BlockedOn(semdTable[..], active, queues, y) {
          BlockedIs(y);
        }
      }
    }

    /**
     * The descriptor nd, off the ASL and holding address a that no active
     * descriptor holds, joins the ASL in address order.
     */
    method LinkDescriptor(nd: int, a: int, ghost S0: seq<Semd>) returns (ghost k: int)
      requires ActiveList(S0, semd_h, active) == true && Lookup(S0, active, a) == ENULL
      requires 0 <= nd < MAXPROC && nd !in active && semdTable.Length == MAXPROC
      requires semdTable[..] == S0[nd := semdTable[nd]] && semdTable[nd].semAdd == a
      modifies this`semd_h, this`active, semdTable
      ensures 0 <= k <= |old(active)| && active == old(active[..k]) + [nd] + old(active[k..])
      ensures ActiveList(semdTable[..], semd_h, active) == true
      ensures Relinked(old(semdTable[..]), semdTable[..], active, ENULL) == true
    {
      FreshDescriptor(S0, semdTable[..], semd_h, active, a, nd);
      k := InsertSemaphoreIntoActiveList(nd);
    }

    /**
     * The second half of insertBlocked on a semaphore with no descriptor: the
     * descriptor nd, off both lists and holding the queue [x] of address a,
     * joins the ASL in address order.
     */
    method Activate(nd: int, a: int, ghost x: Pos, ghost S0: seq<Semd>, ghost fh: int, ghost F0: seq<int>,
                    ghost Q0: seq<seq<Pos>>, ghost T0: seq<Proc>)
      requires procs.Valid() && AslInv(S0, semd_h, fh, active, F0, Q0, T0, procs.free) && Lookup(S0, active, a) == ENULL
      requires F0 != [] && nd == F0[0] && free == F0[1..] && semdFree_h == S0[nd].next && queues == Q0
      requires semdTable[..] == S0[nd := NoSemd.(link := LinkTo(x), semAdd := a)]
      requires IsRing(procs.table[..], LinkTo(x), [x]) && NotFree([x], procs.free)
      requires ValidPos(x) && At(T0, x).next == ENULL && Frame(T0, procs.table[..], [x], x.proc)
      modifies this`semd_h, this`active, this`queues, semdTable
      ensures AslInv(semdTable[..], semd_h, semdFree_h, active, free, queues, procs.table[..], procs.free) == true
      ensures forall y :: BlockedOn(semdTable[..], active, queues, y) == if y == a then [x.proc] else BlockedOn(S0, old(active), Q0, y)
      ensures queues == Q0[nd := [x]]
    {
      assert semdTable as object != procs.table as object;
      ghost var S3, A0 := semdTable[..], active;
      FreeAt(S0, fh, F0, 0);
      var k := LinkDescriptor(nd, a, S0);
      ghost var S4, T4, pf := semdTable[..], procs.table[..], procs.free;
      NewQueueInv(S0, S3, S4, old(semd_h), semd_h, fh, semdFree_h, A0, active, F0, free, Q0, Q0[nd := [x]],
                  T0, T4, pf, nd, a, x, k);
      queues := queues[nd := [x]];
      assert semdTable[..] == S4 && procs.table[..] == T4 && procs.free == pf;
    }

    /**
     * insertBlocked: p joins the tail of the queue of the semaphore at address
     * a. A semaphore with no descriptor on the ASL gets one from the free list,
     * placed in address order; true, with nothing changed, when that list is
     * empty. The append panics when p is on SEMMAX queues.
     */
    method InsertBlocked(a: int, p: int) returns (r: bool, panicked: bool)
      requires Valid() && 0 <= p < MAXPROC && p !in procs.free && p !in Blocked(a)
      modifies this`semd_h, this`semdFree_h, this`active, this`free, this`queues, semdTable, procs.table
      ensures r <==> old(free) == [] && old(Blocked(a)) == []
      ensures panicked <==> !r && old(procs.table[p].qcount) >= SEMMAX
      ensures r ==> unchanged(this, semdTable, procs.table)
      ensures !r && !panicked ==>
        Valid() && procs.table[p].semvec == WithAddress(old(procs.table[p].semvec), a) &&
        forall y :: Blocked(y) == if y == a then old(Blocked(a)) + [p] else old(Blocked(y))
      ensures !r && !panicked ==> forall i :: 0 <= i < MAXPROC && i != p ==> procs.table[i].semvec == old(procs.table[i].semvec)
      ensures !r && !panicked ==> free == if old(Blocked(a)) == [] then old(free[1..]) else old(free)
      ensures !r && !panicked ==> Frame(old(procs.table[..]), procs.table[..], Flat(queues), p)
    {
      assert semdTable as object != procs.table as object;
      var d := GetSemaphoreFromActiveList(a);
      LookupBlocked(semdTable[..], semd_h, semdFree_h, active, free, queues, procs.table[..], procs.free, a);
      r, panicked := false, false;
      if semdFree_h == ENULL && d == ENULL {
        r := true;
      } else if d != ENULL {
        panicked := BlockOnActive(d, a, p);
      } else {
        panicked := BlockOnNew(a, p);
      }
    }

    /**
     * removeBlocked: the first process blocked on the semaphore at address a
     * leaves its queue, and a leaves its semaphore vector; ENULL, with nothing
     * changed, when nothing is blocked on a. A descriptor whose queue becomes
     * empty leaves the ASL for the head of the free list.
     */
    method RemoveBlocked(a: int) returns (r: int)
      requires Valid()
      modifies this`semd_h, this`semdFree_h, this`active, this`free, this`queues, semdTable, procs.table
      ensures Valid()
      ensures r == First(old(Blocked(a)))
      ensures forall y :: Blocked(y) == if y == a && old(Blocked(a)) != [] then old(Blocked(a))[1..] else old(Blocked(y))
      ensures r == ENULL ==> unchanged(this, semdTable, procs.table)
      ensures r != ENULL ==> procs.table[r].semvec == WithoutAddress(old(procs.table[r].semvec), a)
      ensures forall i :: 0 <= i < MAXPROC && i != r ==> procs.table[i].semvec == old(procs.table[i].semvec)
      ensures free == if |old(Blocked(a))| == 1 then [old(Lookup(semdTable[..], active, a))] + old(free) else old(free)
      ensures r != ENULL ==> Frame(old(procs.table[..]), procs.table[..], Flat(old(queues)), r)
    {
      assert semdTable as object != procs.table as object;
      var d := GetSemaphoreFromActiveList(a);
      LookupBlocked(semdTable[..], semd_h, semdFree_h, active, free, queues, procs.table[..], procs.free, a);
      if d == ENULL {
        r := ENULL;
      } else {
        r := Unblock(d, a);
      }
    }

    /** removeBlocked once the descriptor d of address a is found on the ASL. */
    method Unblock(d: int, a: int) returns (r: int)
      requires Valid() && d != ENULL && d == Lookup(semdTable[..], active, a)
      modifies this`semd_h, this`semdFree_h, this`active, this`free, this`queues, semdTable, procs.table
      ensures Valid()
      ensures r == First(old(Blocked(a)))
      ensures forall y :: Blocked(y) == if y == a then old(Blocked(a))[1..] else old(Blocked(y))
      ensures procs.table[r].semvec == WithoutAddress(old(procs.table[r].semvec), a)
      ensures forall i :: 0 <= i < MAXPROC && i != r ==> procs.table[i].semvec == old(procs.table[i].semvec)
      ensures free == if |old(Blocked(a))| == 1 then [d] + old(free) else old(free)
      ensures Frame(old(procs.table[..]), procs.table[..], Flat(old(queues)), r) == true
    {
      assert semdTable as object != procs.table as object;
      ghost var S0, A0, F0, Q0, T0 := semdTable[..], active, free, queues, procs.table[..];
      assert forall i :: 0 <= i < MAXPROC ==> old(procs.table[i]) == T0[i];
      r := Detach(d, a, S0, A0, F0, Q0, T0);
      FrameFlat(T0, procs.table[..], Q0, d, r);
      ValidIs();
    }

    /**
     * removeBlocked for the active descriptor d of address a, stated on the
     * state S0, A0, F0, Q0, T0 it starts from.
     */
    method Detach(d: int, a: int, ghost S0: seq<Semd>, ghost A0: seq<int>, ghost F0: seq<int>,
                  ghost Q0: seq<seq<Pos>>, ghost T0: seq<Proc>) returns (r: int)
      requires procs.Valid() == true
      requires AslInv(semdTable[..], semd_h, semdFree_h, active, free, queues, procs.table[..], procs.free) == true
      requires S0 == semdTable[..] && A0 == active && F0 == free && Q0 == queues && T0 == procs.table[..]
      requires 0 <= d < MAXPROC && d in active && semdTable[d].semAdd == a
      modifies this`semd_h, this`semdFree_h, this`active, this`free, this`queues, semdTable, procs.table
      ensures procs.Valid() == true
      ensures AslInv(semdTable[..], semd_h, semdFree_h, active, free, queues, procs.table[..], procs.free) == true
      ensures Dequeued(S0, A0, F0, Q0, semdTable[..], active, free, queues, d, a) == true
      ensures r == First(BlockedOn(S0, A0, Q0, a))
      ensures 0 <= r < MAXPROC && procs.table[r].semvec == WithoutAddress(T0[r].semvec, a)
      ensures forall i :: 0 <= i < MAXPROC && i != r ==> procs.table[i].semvec == T0[i].semvec
      ensures Frame(T0, procs.table[..], Q0[d], r) == true
    {
      assert semdTable as object != procs.table as object;
      ghost var T1;
      r, T1 := Take(d, a, S0, A0, F0, Q0, T0);
      ghost var S1 := semdTable[..];
      DropAddress(a, r, T0);
      assert semdTable[..] == S1 && r == First(BlockedOn(S0, A0, Q0, a));
      FrameVector(T0, T1, procs.table[..], Q0[d], r, procs.table[r].semvec);
    }

    /** The last step of removeBlocked: process r no longer names address a in its semaphore vector. */
    method DropAddress(a: int, r: int, ghost T0: seq<Proc>)
      requires procs.Valid() == true
      requires AslInv(semdTable[..], semd_h, semdFree_h, active, free, queues, procs.table[..], procs.free) == true
      requires 0 <= r < MAXPROC && r !in procs.free && SameVectors(T0, procs.table[..]) == true
      modifies procs.table
      ensures procs.Valid() == true
      ensures AslInv(semdTable[..], semd_h, semdFree_h, active, free, queues, procs.table[..], procs.free) == true
      ensures procs.table[r].semvec == WithoutAddress(T0[r].semvec, a)
      ensures forall i :: 0 <= i < MAXPROC && i != r ==> procs.table[i].semvec == T0[i].semvec
      ensures procs.table[..] == old(procs.table[..])[r := old(procs.table[r]).(semvec := procs.table[r].semvec)]
    {
      ghost var S, T := semdTable[..], procs.table[..];
      var _ := RemoveSemaphoreFromProcessVector(a, r);
      VectorInv(S, semd_h, semdFree_h, active, free, queues, T, procs.table[..], procs.procFree_h, procs.free, r);
      assert semdTable[..] == S;
      VectorSet(T0, T, procs.table[..], r, WithoutAddress(T0[r].semvec, a));
    }

    /**
     * removeBlocked up to the semaphore vector, for the active descriptor d of
     * address a: the head of its queue is taken off and, when the queue has
     * become empty, d returns to the free list. S0, A0, F0, Q0 and T0 are the
     * state on entry.
     */
    method Take(d: int, ghost a: int, ghost S0: seq<Semd>, ghost A0: seq<int>, ghost F0: seq<int>,
                ghost Q0: seq<seq<Pos>>, ghost T0: seq<Proc>) returns (r: int, ghost T1: seq<Proc>)
      requires procs.Valid() == true
      requires AslInv(semdTable[..], semd_h, semdFree_h, active, free, queues, procs.table[..], procs.free) == true
      requires S0 == semdTable[..] && A0 == active && F0 == free && Q0 == queues && T0 == procs.table[..]
      requires 0 <= d < MAXPROC && d in active && semdTable[d].semAdd == a
      modifies this`semd_h, this`semdFree_h, this`active, this`free, this`queues, semdTable, procs.table
      ensures procs.Valid() == true
      ensures AslInv(semdTable[..], semd_h, semdFree_h, active, free, queues, procs.table[..], procs.free) == true
      ensures Dequeued(S0, A0, F0, Q0, semdTable[..], active, free, queues, d, a) == true
      ensures r == First(BlockedOn(S0, A0, Q0, a)) && 0 <= r < MAXPROC && r !in procs.free
      ensures procs.table[..] == T1 && SameVectors(T0, T1) == true && Frame(T0, T1, Q0[d], r) == true
    {
      assert semdTable as object != procs.table as object;
      ghost var pf := procs.free;
      TakeReady(S0, semd_h, semdFree_h, A0, F0, Q0, T0, pf, d, a);
      var tp';
      ghost var q';
      r, tp', q' := Unqueue(d);
      T1 := procs.table[..];
      SettleHead(d, a, S0, A0, F0, Q0, T0, T1, pf, tp', q');
    }

    /** Settle for the head of the queue of d, stated as removeBlocked's effect on the blocked processes. */
    method SettleHead(d: int, ghost a: int, ghost S0: seq<Semd>, ghost A0: seq<int>, ghost F0: seq<int>,
                      ghost Q0: seq<seq<Pos>>, ghost T0: seq<Proc>, ghost T1: seq<Proc>, ghost pf: seq<int>,
                      ghost tp': Link, ghost q': seq<Pos>)
      requires AslInv(S0, semd_h, semdFree_h, active, free, Q0, T0, pf) == true
      requires 0 <= d < MAXPROC && d in active && S0[d].semAdd == a
      requires A0 == active && F0 == free && Q0 == queues
      requires Removed(T0, T1, S0[d].link, Q0[d], 0, tp', q') == true
      requires semdTable.Length == MAXPROC && semdTable[..] == S0[d := S0[d].(link := tp')]
      requires semdTable[d].link.next == ENULL <==> q' == []
      modifies this`semd_h, this`semdFree_h, this`active, this`free, this`queues, semdTable
      ensures AslInv(semdTable[..], semd_h, semdFree_h, active, free, queues, T1, pf) == true
      ensures Dequeued(S0, A0, F0, Q0, semdTable[..], active, free, queues, d, a) == true
      ensures SameVectors(T0, T1) == true
      ensures procs.table[..] == old(procs.table[..]) && procs.Valid() == old(procs.Valid())
    {
      assert semdTable as object != procs.table as object;
      RemovedVectors(T0, T1, S0[d].link, Q0[d], 0, tp', q');
      Settle(d, 0, a, S0, A0, F0, Q0, T0, T1, pf, tp', q');
      UnqueuedHead(S0, A0, F0, Q0, semdTable[..], active, free, queues, d, a);
    }

    /**
     * The rest of removeBlocked's work on the descriptor d once the process at
     * position k of its queue is off: d keeps the remaining queue q', or, when
     * q' is empty, leaves the ASL for the head of the free list.
     */
    method Settle(d: int, ghost k: int, ghost a: int, ghost S0: seq<Semd>, ghost A0: seq<int>, ghost F0: seq<int>,
                  ghost Q0: seq<seq<Pos>>, ghost T0: seq<Proc>, ghost T1: seq<Proc>, ghost pf: seq<int>,
                  ghost tp': Link, ghost q': seq<Pos>)
      requires AslInv(S0, semd_h, semdFree_h, active, free, Q0, T0, pf) == true
      requires 0 <= d < MAXPROC && d in active && S0[d].semAdd == a
      requires A0 == active && F0 == free && Q0 == queues
      requires Removed(T0, T1, S0[d].link, Q0[d], k, tp', q') == true
      requires semdTable.Length == MAXPROC && semdTable[..] == S0[d := S0[d].(link := tp')]
      requires semdTable[d].link.next == ENULL <==> q' == []
      modifies this`semd_h, this`semdFree_h, this`active, this`free, this`queues, semdTable
      ensures AslInv(semdTable[..], semd_h, semdFree_h, active, free, queues, T1, pf) == true
      ensures Unqueued(S0, A0, F0, Q0, semdTable[..], active, free, queues, d, a, k) == true
      ensures procs.table[..] == old(procs.table[..]) && procs.Valid() == old(procs.Valid())
    {
      assert semdTable as object != procs.table as object;
      queues := queues[d := q'];
      if semdTable[d].link.next == ENULL {
        RemovedLast(T0, T1, S0[d].link, Q0[d], k, tp', q');
        SettleEmpty(d, a, S0, A0, F0, Q0, T0, T1, pf);
      } else {
        KeptSettled(S0, semdTable[..], semd_h, semdFree_h, active, free, Q0, queues, T0, T1, pf, d, a, k, tp', q');
      }
    }

    /** Settle when the queue of d has become empty: d leaves the ASL for the head of the free list. */
    method SettleEmpty(d: int, ghost a: int, ghost S0: seq<Semd>, ghost A0: seq<int>, ghost F0: seq<int>,
                       ghost Q0: seq<seq<Pos>>, ghost T0: seq<Proc>, ghost T1: seq<Proc>, ghost pf: seq<int>)
      requires AslInv(S0, semd_h, semdFree_h, active, free, Q0, T0, pf) == true
      requires 0 <= d < MAXPROC && d in active && S0[d].semAdd == a
      requires A0 == active && F0 == free && queues == Q0[d := []]
      requires Removed(T0, T1, S0[d].link, Q0[d], 0, NoLink, []) == true
      requires semdTable.Length == MAXPROC && semdTable[..] == S0[d := S0[d].(link := NoLink)]
      modifies this`semd_h, this`semdFree_h, this`active, this`free, semdTable
      ensures AslInv(semdTable[..], semd_h, semdFree_h, active, free, queues, T1, pf) == true
      ensures Unqueued(S0, A0, F0, Q0, semdTable[..], active, free, queues, d, a, 0) == true
      ensures procs.table[..] == old(procs.table[..]) && procs.Valid() == old(procs.Valid())
    {
      assert semdTable as object != procs.table as object;
      LookupIs(S0, semd_h, A0, d);
      Retire(d, S0, Q0, T0, T1, pf);
      UnqueuedLast(S0, A0, F0, Q0, semdTable[..], active, free, queues, d, a);
    }

    /**
     * The first two steps removeBlocked takes for the active descriptor d:
     * the head of its queue is taken off, and d keeps the new tail handle.
     */
    method Unqueue(d: int) returns (r: int, tp': Link, ghost q': seq<Pos>)
      requires procs.Valid() == true && semdTable.Length == MAXPROC && 0 <= d < MAXPROC && |queues| == MAXPROC
      requires procs.Queue(semdTable[d].link, queues[d]) == true && queues[d] != []
      modifies semdTable, procs.table
      ensures procs.Valid() == true
      ensures r == Contents(old(queues[d]))[0]
      ensures Removed(old(procs.table[..]), procs.table[..], old(semdTable[d].link), old(queues[d]), 0, tp', q') == true
      ensures semdTable[..] == old(semdTable[..])[d := old(semdTable[d]).(link := tp')]
      ensures semdTable[d].link.next == ENULL <==> q' == []
    {
      assert semdTable as object != procs.table as object;
      ghost var S0 := semdTable[..];
      r, tp', q' := procs.RemoveProc(semdTable[d].link, queues[d]);
      semdTable[d] := semdTable[d].(link := tp');
      assert semdTable[..] == S0[d := S0[d].(link := tp')];
      if q' != [] {
        assert ValidPos(q'[|q'| - 1]);
      }
    }

    /**
     * The last steps removeBlocked takes when the queue of the active
     * descriptor d has become empty: d leaves the ASL and returns to the
     * head of the free list.
     */
    method Retire(d: int, ghost S: seq<Semd>, ghost Q: seq<seq<Pos>>, ghost T: seq<Proc>, ghost T': seq<Proc>,
                  ghost pf: seq<int>)
      requires AslInv(S, semd_h, semdFree_h, active, free, Q, T, pf) == true && 0 <= d < MAXPROC && d in active
      requires Removed(T, T', S[d].link, Q[d], 0, NoLink, []) == true
      requires semdTable.Length == MAXPROC && semdTable[..] == S[d := S[d].(link := NoLink)]
      modifies this`semd_h, this`semdFree_h, this`active, this`free, semdTable
      ensures AslInv(semdTable[..], semd_h, semdFree_h, active, free, Q[d := []], T', pf) == true
      ensures free == [d] + old(free)
      ensures Reblocked(semdTable[..], active, Q[d := []], S, old(active), Q, S[d].semAdd, []) == true
      ensures active == Drop(old(active), d)
      ensures forall e :: 0 <= e < MAXPROC && e != d ==> semdTable[e].semAdd == S[e].semAdd
    {
      ghost var S1, h, fh, A, F := semdTable[..], semd_h, semdFree_h, active, free;
      var k := Unlist(d, S);
      ghost var S2, h2, A2 := semdTable[..], semd_h, active;
      ReturnSemaphoreToFreeList(d);
      ghost var S3 := semdTable[..];
      RetireInv(S, S1, S2, S3, h, h2, fh, A, A2, F, Q, T, T', pf, d, k);
      RetireBlocked(S, S1, S2, S3, h, h2, fh, A, A2, F, Q, d, k);
    }

    /** The active descriptor d, its queue handle cleared, leaves the ASL; the free list is as it was. */
    method Unlist(d: int, ghost S: seq<Semd>) returns (ghost k: int)
      requires ActiveList(S, semd_h, active) == true && SemdFreeList(S, semdFree_h, free) == true
      requires Partition(active, free) == true && 0 <= d < MAXPROC && d in active
      requires semdTable.Length == MAXPROC && semdTable[..] == S[d := S[d].(link := NoLink)]
      modifies this`semd_h, this`active, semdTable
      ensures 0 <= k < |old(active)| && old(active)[k] == d && active == old(active[..k]) + old(active[k + 1..])
      ensures ActiveList(semdTable[..], semd_h, active) == true
      ensures Relinked(old(semdTable[..]), semdTable[..], old(active), d) == true
      ensures SemdFreeList(semdTable[..], semdFree_h, free) == true && d !in free
    {
      ListsKeep(S, semdTable[..], semd_h, semdFree_h, active, free);
      k := RemoveSemaphoreFromActiveList(d);
      RetireFree(old(semdTable[..]), semdTable[..], semdFree_h, old(active), free, d);
    }

    /**
     * outBlocked: p leaves the queue of every semaphore it is blocked on, each
     * of those addresses leaves p's semaphore vector, and a descriptor whose
     * queue empties leaves the ASL for the free list. The result is p when p
     * was blocked somewhere, ENULL otherwise.
     */
    method OutBlocked(p: int) returns (r: int)
      requires Valid() && 0 <= p < MAXPROC
      modifies this`semd_h, this`semdFree_h, this`active, this`free, this`queues, semdTable, procs.table
      ensures Valid()
      ensures free == old(Retired(active, queues, p, |active|)) + old(free)
      ensures Frame(old(procs.table[..]), procs.table[..], Flat(old(queues)), p)
      ensures r == ENULL ==>
        semd_h == old(semd_h) && semdFree_h == old(semdFree_h) && active == old(active) && free == old(free) &&
        queues == old(queues) && semdTable[..] == old(semdTable[..]) && procs.table[..] == old(procs.table[..])
      ensures forall y :: Blocked(y) == Drop(old(Blocked(y)), p)
      ensures procs.table[p].semvec == ClearEach(old(procs.table[p].semvec), old(Holding(p)))
      ensures forall i :: 0 <= i < MAXPROC && i != p ==> procs.table[i].semvec == old(procs.table[i].semvec)
      ensures r == if exists y :: p in old(Blocked(y)) then p else ENULL
    {
      assert semdTable as object != procs.table as object;
      ghost var S0, h0, A0, Q0, T0 := semdTable[..], semd_h, active, queues, procs.table[..];
      forall i | 0 <= i < MAXPROC
        ensures procs.table[i] == T0[i]
      {
      }
      var removed := Walk(p, S0, h0, A0, Q0, T0);
      WalkDone(S0, h0, A0, Q0, T0, semdTable[..], active, queues, procs.table[..], p);
      ValidIs();
      if removed {
        ghost var y :| p in BlockedOn(S0, A0, Q0, y);
        assert p in old(Blocked(y));
      }
      r := if removed then p else ENULL;
    }

    /**
     * outBlocked's walk over the ASL, head first, stated on the state S0, h0,
     * A0, Q0, T0 it starts from; removed tells whether p was found anywhere.
     */
    method Walk(p: int, ghost S0: seq<Semd>, ghost h0: int, ghost A0: seq<int>, ghost Q0: seq<seq<Pos>>,
                ghost T0: seq<Proc>) returns (removed: bool)
      requires procs.Valid() == true
      requires AslInv(semdTable[..], semd_h, semdFree_h, active, free, queues, procs.table[..], procs.free) == true
      requires S0 == semdTable[..] && h0 == semd_h && A0 == active && Q0 == queues && T0 == procs.table[..]
      requires 0 <= p < MAXPROC
      modifies this`semd_h, this`semdFree_h, this`active, this`free, this`queues, semdTable, procs.table
      ensures procs.Valid() == true
      ensures AslInv(semdTable[..], semd_h, semdFree_h, active, free, queues, procs.table[..], procs.free) == true
      ensures Walked(S0, h0, A0, Q0, T0, semdTable[..], active, queues, procs.table[..], p, |A0|) == true
      ensures removed == (Hits(S0, A0, Q0, p, |A0|) != [])
      ensures free == Retired(A0, Q0, p, |A0|) + old(free)
      ensures Frame(T0, procs.table[..], Flat(Q0), p) == true
      ensures !removed ==>
        semdTable[..] == S0 && semd_h == h0 && semdFree_h == old(semdFree_h) &&
        active == A0 && free == old(free) && queues == Q0 && procs.table[..] == T0
    {
      assert semdTable as object != procs.table as object;
      WalkStart(S0, h0, A0, Q0, T0, p);
      FrameSame(T0, Flat(Q0), p);
      assert Retired(A0, Q0, p, 0) + free == free;
      var cur := semd_h;
      removed := false;
      ghost var j := 0;
      while cur != ENULL
        invariant procs.Valid() == true
        invariant AslInv(semdTable[..], semd_h, semdFree_h, active, free, queues, procs.table[..], procs.free) == true
        invariant 0 <= j <= |A0| && cur == (if j < |A0| then A0[j] else ENULL)
        invariant Walked(S0, h0, A0, Q0, T0, semdTable[..], active, queues, procs.table[..], p, j) == true
        invariant Ahead(A0, Q0, queues, j) == true
        invariant removed == (Hits(S0, A0, Q0, p, j) != [])
        invariant Swept(A0, Q0, T0, old(free), free, procs.table[..], p, j) == true
        invariant !removed ==>
          semdTable[..] == S0 && semd_h == h0 && semdFree_h == old(semdFree_h) &&
          active == A0 && free == old(free) && queues == Q0 && procs.table[..] == T0
        decreases |A0| - j
      {
        ghost var F1, T1 := free, procs.table[..];
        var hit;
        hit, cur := WalkStep(cur, p, j, S0, h0, A0, Q0, T0);
        SweptNext(A0, Q0, T0, old(free), F1, T1, free, procs.table[..], p, j);
        if hit {
          removed := true;
        }
        j := j + 1;
      }
      assert Swept(A0, Q0, T0, old(free), free, procs.table[..], p, |A0|);
    }

    /**
     * The walk's step at its j-th descriptor cur, which it leaves for the
     * next one on the ASL as it was when the walk began.
     */
    method WalkStep(cur: int, p: int, ghost j: int, ghost S0: seq<Semd>, ghost h0: int, ghost A0: seq<int>,
                    ghost Q0: seq<seq<Pos>>, ghost T0: seq<Proc>) returns (hit: bool, next: int)
      requires procs.Valid() == true
      requires AslInv(semdTable[..], semd_h, semdFree_h, active, free, queues, procs.table[..], procs.free) == true
      requires Walked(S0, h0, A0, Q0, T0, semdTable[..], active, queues, procs.table[..], p, j) == true
      requires Ahead(A0, Q0, queues, j) == true
      requires 0 <= j < |A0| && cur == A0[j]
      modifies this`semd_h, this`semdFree_h, this`active, this`free, this`queues, semdTable, procs.table
      ensures procs.Valid() == true
      ensures AslInv(semdTable[..], semd_h, semdFree_h, active, free, queues, procs.table[..], procs.free) == true
      ensures Walked(S0, h0, A0, Q0, T0, semdTable[..], active, queues, procs.table[..], p, j + 1) == true
      ensures Ahead(A0, Q0, queues, j + 1) == true
      ensures hit == (p in Contents(Q0[A0[j]]))
      ensures next == if j + 1 < |A0| then A0[j + 1] else ENULL
      ensures free == (if Contents(Q0[A0[j]]) == [p] then [A0[j]] else []) + old(free)
      ensures Frame(old(procs.table[..]), procs.table[..], Q0[A0[j]], p) == true
      ensures !hit ==>
        semdTable[..] == old(semdTable[..]) && semd_h == old(semd_h) && semdFree_h == old(semdFree_h) &&
        active == old(active) && free == old(free) && queues == old(queues) && procs.table[..] == old(procs.table[..])
    {
      assert semdTable as object != procs.table as object;
      ghost var S, h, A, F, Q, T := semdTable[..], semd_h, active, free, queues, procs.table[..];
      WalkHere(S0, h0, A0, Q0, T0, S, h, A, Q, T, p, j);
      next := semdTable[cur].next;
      hit := OutStep(cur, p, S, A, F, Q, T);
      WalkNext(S0, h0, A0, Q0, T0, S, h, A, F, Q, T, semdTable[..], active, free, queues, procs.table[..], p, j, hit);
      AheadNext(A0, Q0, Q, queues, j, queues[cur]);
    }

    /**
     * One step of outBlocked's walk, at the active descriptor d: p is taken
     * out of d's queue when it is there, the address of d then leaves p's
     * semaphore vector, and d, should its queue be empty, leaves the ASL for
     * the free list. S0, A0, F0, Q0 and T0 are the state on entry.
     */
    method OutStep(d: int, p: int, ghost S0: seq<Semd>, ghost A0: seq<int>, ghost F0: seq<int>,
                   ghost Q0: seq<seq<Pos>>, ghost T0: seq<Proc>) returns (hit: bool)
      requires procs.Valid() == true
      requires AslInv(semdTable[..], semd_h, semdFree_h, active, free, queues, procs.table[..], procs.free) == true
      requires S0 == semdTable[..] && A0 == active && F0 == free && Q0 == queues && T0 == procs.table[..]
      requires 0 <= d < MAXPROC && d in active && 0 <= p < MAXPROC
      modifies this`semd_h, this`semdFree_h, this`active, this`free, this`queues, semdTable, procs.table
      ensures procs.Valid() == true
      ensures AslInv(semdTable[..], semd_h, semdFree_h, active, free, queues, procs.table[..], procs.free) == true
      ensures hit == (p in Contents(Q0[d]))
      ensures !hit ==> semdTable[..] == S0 && active == A0 && queues == Q0 && procs.table[..] == T0
      ensures !hit ==> free == F0 && semd_h == old(semd_h) && semdFree_h == old(semdFree_h)
      ensures |queues| == MAXPROC && queues == Q0[d := queues[d]]
      ensures free == (if Contents(Q0[d]) == [p] then [d] else []) + F0
      ensures Frame(T0, procs.table[..], Q0[d], p) == true
      ensures hit ==> Unqueued(S0, A0, F0, Q0, semdTable[..], active, free, queues, d, S0[d].semAdd,
                               IndexOf(Contents(Q0[d]), p)) == true
      ensures hit ==> VectorDropped(T0, procs.table[..], p, S0[d].semAdd) == true
    {
      ghost var pf := procs.free;
      assert NotFree(Q0[d], pf);
      var a := semdTable[d].semAdd;
      var r, tp', q' := procs.OutProc(semdTable[d].link, p, queues[d]);
      hit := r != ENULL;
      if hit {
        Unthread(d, a, p, S0, A0, F0, Q0, T0, pf, tp', q');
      } else {
        Alone(Q0[d], p);
        assert Q0[d := Q0[d]] == Q0;
        FrameSame(T0, Q0[d], p);
      }
    }

    /**
     * The rest of outBlocked's step at the active descriptor d of address a
     * once p is out of d's queue: d keeps the new tail handle tp', a leaves
     * p's semaphore vector, and d, should q' be empty, leaves the ASL for the
     * free list. S0, A0, F0, Q0 and T0 are the state before p left the queue.
     */
    method Unthread(d: int, a: int, p: int, ghost S0: seq<Semd>, ghost A0: seq<int>, ghost F0: seq<int>,
                    ghost Q0: seq<seq<Pos>>, ghost T0: seq<Proc>, ghost pf: seq<int>, tp': Link, ghost q': seq<Pos>)
      requires AslInv(S0, semd_h, semdFree_h, active, free, Q0, T0, pf) == true
      requires procs.Valid() == true && pf == procs.free
      requires semdTable.Length == MAXPROC && S0 == semdTable[..] && A0 == active && F0 == free && Q0 == queues
      requires 0 <= d < MAXPROC && d in active && S0[d].semAdd == a && 0 <= p < MAXPROC && p in Contents(Q0[d])
      requires p !in pf && procs.Queue(tp', q') == true
      requires Removed(T0, procs.table[..], S0[d].link, Q0[d], IndexOf(Contents(Q0[d]), p), tp', q') == true
      modifies this`semd_h, this`semdFree_h, this`active, this`free, this`queues, semdTable, procs.table
      ensures procs.Valid() == true
      ensures AslInv(semdTable[..], semd_h, semdFree_h, active, free, queues, procs.table[..], procs.free) == true
      ensures Unqueued(S0, A0, F0, Q0, semdTable[..], active, free, queues, d, a, IndexOf(Contents(Q0[d]), p)) == true
      ensures VectorDropped(T0, procs.table[..], p, a) == true
      ensures Frame(T0, procs.table[..], Q0[d], p) == true
      ensures |queues| == MAXPROC && queues == Q0[d := queues[d]]
      ensures free == (if Contents(Q0[d]) == [p] then [d] else []) + F0
    {
      assert semdTable as object != procs.table as object;
      ghost var T1 := procs.table[..];
      ghost var head := procs.procFree_h;
      procs.QueueIn(tp', q');
      RemovedVectors(T0, T1, S0[d].link, Q0[d], IndexOf(Contents(Q0[d]), p), tp', q');
      OutReadyFrom(S0, semd_h, semdFree_h, A0, F0, Q0, T0, T1, head, pf, d, a, p, tp', q');
      Rethread(d, a, p, S0, A0, F0, Q0, T0, T1, pf, semd_h, semdFree_h, head, tp', q');
      assert Q0[d][IndexOf(Contents(Q0[d]), p)].proc == p;
      FrameVector(T0, T1, procs.table[..], Q0[d], p, WithoutAddress(T1[p].semvec, a));
      UnqueuedShape(S0, A0, F0, Q0, semdTable[..], active, free, queues, d, a, p);
    }

    /** Unthread once OutReady holds of the state it starts from: the writes, then Settle. */
    method Rethread(d: int, a: int, p: int, ghost S0: seq<Semd>, ghost A0: seq<int>, ghost F0: seq<int>,
                    ghost Q0: seq<seq<Pos>>, ghost T0: seq<Proc>, ghost T1: seq<Proc>, ghost pf: seq<int>,
                    ghost h: int, ghost fh: int, ghost head: int, tp': Link, ghost q': seq<Pos>)
      requires OutReady(S0, h, fh, A0, F0, Q0, T0, T1, head, pf, d, a, p, tp', q') == true
      requires semd_h == h && semdFree_h == fh && procs.procFree_h == head
      requires procs.Valid() == true && pf == procs.free && T1 == procs.table[..] && SameVectors(T0, T1) == true
      requires semdTable.Length == MAXPROC && S0 == semdTable[..] && A0 == active && F0 == free && Q0 == queues
      modifies this`semd_h, this`semdFree_h, this`active, this`free, this`queues, semdTable, procs.table
      ensures procs.Valid() == true
      ensures AslInv(semdTable[..], semd_h, semdFree_h, active, free, queues, procs.table[..], procs.free) == true
      ensures Unqueued(S0, A0, F0, Q0, semdTable[..], active, free, queues, d, a, IndexOf(Contents(Q0[d]), p)) == true
      ensures VectorDropped(T0, procs.table[..], p, a) == true
      ensures procs.table[..] == T1[p := T1[p].(semvec := WithoutAddress(T1[p].semvec, a))]
    {
      assert semdTable as object != procs.table as object;
      Unhook(d, tp', a, p, T0, pf);
      SettleOut(d, a, p, S0, A0, F0, Q0, T0, T1, procs.table[..], pf, h, fh, head, tp', q');
    }

    /**
     * The writes outBlocked makes once p is out of the queue of d: d keeps
     * the new tail handle tp', and a leaves p's semaphore vector.
     */
    method Unhook(d: int, tp': Link, a: int, p: int, ghost T0: seq<Proc>, ghost pf: seq<int>)
      requires procs.Valid() == true && pf == procs.free && 0 <= p < MAXPROC && p !in pf
      requires semdTable.Length == MAXPROC && 0 <= d < MAXPROC && SameVectors(T0, procs.table[..]) == true
      modifies semdTable, procs.table
      ensures procs.Valid() == true
      ensures semdTable[..] == old(semdTable[..])[d := old(semdTable[d]).(link := tp')]
      ensures procs.table[..] == old(procs.table[..])[p := old(procs.table[p]).(semvec := WithoutAddress(old(procs.table[p].semvec), a))]
      ensures VectorDropped(T0, procs.table[..], p, a) == true
    {
      assert semdTable as object != procs.table as object;
      ghost var T1 := procs.table[..];
      semdTable[d] := semdTable[d].(link := tp');
      var _ := RemoveSemaphoreFromProcessVector(a, p);
      VectorTable(T0, T1, procs.table[..], procs.procFree_h, pf, p, a);
    }

    /**
     * outBlocked's step at the active descriptor d once d holds the new tail
     * handle tp' and a has left p's vector: Settle's work, with the vector
     * change carried along. T1 is the table before the vector change, T2 after.
     */
    method SettleOut(d: int, a: int, p: int, ghost S0: seq<Semd>, ghost A0: seq<int>, ghost F0: seq<int>,
                     ghost Q0: seq<seq<Pos>>, ghost T0: seq<Proc>, ghost T1: seq<Proc>, ghost T2: seq<Proc>,
                     ghost pf: seq<int>, ghost h: int, ghost fh: int, ghost head: int, ghost tp': Link, ghost q': seq<Pos>)
      requires OutReady(S0, h, fh, A0, F0, Q0, T0, T1, head, pf, d, a, p, tp', q') == true
      requires semd_h == h && semdFree_h == fh && procs.procFree_h == head
      requires A0 == active && F0 == free && Q0 == queues
      requires semdTable.Length == MAXPROC && semdTable[..] == S0[d := S0[d].(link := tp')]
      requires T2 == T1[p := T1[p].(semvec := WithoutAddress(T1[p].semvec, a))]
      requires T2 == procs.table[..] && pf == procs.free
      modifies this`semd_h, this`semdFree_h, this`active, this`free, this`queues, semdTable
      ensures AslInv(semdTable[..], semd_h, semdFree_h, active, free, queues, procs.table[..], procs.free) == true
      ensures procs.table[..] == old(procs.table[..]) && procs.Valid() == old(procs.Valid())
      ensures Unqueued(S0, A0, F0, Q0, semdTable[..], active, free, queues, d, a, IndexOf(Contents(Q0[d]), p)) == true
    {
      assert semdTable as object != procs.table as object;
      ghost var i := IndexOf(Contents(Q0[d]), p);
      Settle(d, i, a, S0, A0, F0, Q0, T0, T1, pf, tp', q');
      VectorQueues(semdTable[..], semd_h, semdFree_h, active, free, queues, T1, T2, head, pf, p, a);
    }
  }
}
