/**
 * The process table and its intrusive, multi-membership process queues
 * (queues/procq.c, h/procq.h).
 *
 * Pointers become indices: a process is named by its index in `procTable`,
 * and ENULL (-1) stands for the null pointer. A queue is a circular ring
 * threaded through the processes' link slots and is addressed by a tail
 * handle: a Link whose `next` is the tail process and whose `index` is the
 * slot the tail uses for this queue. Every slot in turn records the next
 * process and the slot that next process uses for the same queue.
 */
module ProcQueue {

  /** Size of the process table. */
  const MAXPROC: nat := 20
  /** Link slots per process: the number of queues it can be on at once. */
  const SEMMAX: nat := 20
  /** The null pointer and the null index. */
  const ENULL: int := -1
  /** The slot that threads the free list of processes. */
  const FREE_LIST: nat := 0

  /** A link slot (`proc_link`): the next process and the slot it uses for the same queue. */
  datatype Link = Link(index: int, next: int)

  const NoLink: Link := Link(ENULL, ENULL)

  /** The six trap-state pointers a process may install (old and new area per trap class). */
  datatype TrapVectors = TrapVectors(
    mmOld: int, mmNew: int, sysOld: int, sysNew: int, progOld: int, progNew: int)

  const NoTraps: TrapVectors := TrapVectors(ENULL, ENULL, ENULL, ENULL, ENULL, ENULL)

  /** A process table entry (`proc_t`). */
  datatype Proc = Proc(
    links: seq<Link>,
    qcount: int,
    semvec: seq<int>,
    totalTime: int,
    lastStart: int,
    parent: int,
    sibling: int,
    children: int,
    traps: TrapVectors)

  /** A position in the link arrays: slot `slot` of process `proc`. */
  datatype Pos = Pos(proc: int, slot: int)

  predicate ValidPos(x: Pos) {
    0 <= x.proc < MAXPROC && 0 <= x.slot < SEMMAX
  }

  /** The link value that points at position x. */
  function LinkTo(x: Pos): Link {
    Link(x.slot, x.proc)
  }

  /** Every entry has SEMMAX link slots and SEMMAX semaphore-vector entries. */
  ghost predicate Shape(T: seq<Proc>) {
    |T| == MAXPROC &&
    forall i :: 0 <= i < |T| ==> |T[i].links| == SEMMAX && |T[i].semvec| == SEMMAX
  }

  ghost function At(T: seq<Proc>, x: Pos): Link
    requires Shape(T) && ValidPos(x)
  {
    T[x.proc].links[x.slot]
  }

  /** The number of link slots in use (whose `next` is not ENULL). */
  ghost function Occupied(ls: seq<Link>): nat
  {
    if ls == [] then 0 else (if ls[0].next != ENULL then 1 else 0) + Occupied(ls[1..])
  }

  /** The processes of a queue, head first. */
  ghost function Contents(q: seq<Pos>): seq<int>
  {
    seq(|q|, i requires 0 <= i < |q| => q[i].proc)
  }

  /**
   * q, head first and tail last, is the queue addressed by the tail handle tp:
   * the handle names the tail's position, every position links to the next one,
   * the tail links back to the head, and no process appears twice.
   */
  ghost predicate IsRing(T: seq<Proc>, tp: Link, q: seq<Pos>)
  {
    Shape(T) &&
    (forall i :: 0 <= i < |q| ==> ValidPos(q[i])) &&
    (forall i, j :: 0 <= i < j < |q| ==> q[i].proc != q[j].proc) &&
    (q == [] ==> tp.next == ENULL) &&
    (q != [] ==>
      tp == LinkTo(q[|q| - 1]) &&
      (forall i :: 0 <= i < |q| - 1 ==> At(T, q[i]) == LinkTo(q[i + 1])) &&
      At(T, q[|q| - 1]) == LinkTo(q[0]))
  }

  /**
   * b differs from a at most in the links at the positions in S, and in the
   * queue count and semaphore vector of process `who`.
   */
  ghost predicate Frame(a: seq<Proc>, b: seq<Proc>, S: seq<Pos>, who: int)
  {
    Shape(a) && Shape(b) &&
    (forall i :: 0 <= i < MAXPROC ==>
      b[i] == a[i].(links := b[i].links, qcount := b[i].qcount, semvec := b[i].semvec) &&
      (i != who ==> b[i].qcount == a[i].qcount && b[i].semvec == a[i].semvec)) &&
    (forall i, s :: 0 <= i < MAXPROC && 0 <= s < SEMMAX && Pos(i, s) !in S ==>
      b[i].links[s] == a[i].links[s])
  }

  /** A process fresh from resetProcess: on no queue, no links, no semaphores, no times, no family. */
  ghost predicate Clean(x: Proc) {
    FreeEntry(x) && x.links[FREE_LIST].next == ENULL
  }

  /** An entry of the free list: clean except for the `next` field of slot FREE_LIST. */
  ghost predicate FreeEntry(x: Proc) {
    |x.links| == SEMMAX && |x.semvec| == SEMMAX && x.qcount == 0 &&
    x.links[FREE_LIST].index == ENULL &&
    (forall s :: 0 <= s < SEMMAX && s != FREE_LIST ==> x.links[s] == NoLink) &&
    (forall s :: 0 <= s < SEMMAX ==> x.semvec[s] == ENULL) &&
    x.totalTime == 0 && x.lastStart == 0 &&
    x.parent == ENULL && x.sibling == ENULL && x.children == ENULL
  }

  ghost predicate Distinct(s: seq<int>) {
    forall i, j :: 0 <= i < j < |s| ==> s[i] != s[j]
  }

  /** `free` is the free list headed by `head` and threaded through slot FREE_LIST. */
  ghost predicate ProcFreeList(T: seq<Proc>, head: int, free: seq<int>)
    requires Shape(T)
  {
    (forall i :: 0 <= i < |free| ==> 0 <= free[i] < MAXPROC) &&
    Distinct(free) &&
    head == (if free == [] then ENULL else free[0]) &&
    (forall i :: 0 <= i < |free| ==>
      T[free[i]].links[FREE_LIST].next == (if i + 1 < |free| then free[i + 1] else ENULL))
  }

  /**
   * The process table invariant: the free list is well formed, its entries are
   * reset, and every other entry's queue count is the number of slots it uses.
   */
  ghost predicate TableInv(T: seq<Proc>, head: int, free: seq<int>)
  {
    Shape(T) && ProcFreeList(T, head, free) &&
    forall i :: 0 <= i < MAXPROC ==>
      if i in free then FreeEntry(T[i]) else T[i].qcount == Occupied(T[i].links)
  }

  /** First index of x in s, or ENULL. */
  function IndexOf(s: seq<int>, x: int): (i: int)
    ensures i == ENULL <==> x !in s
    ensures i != ENULL ==> 0 <= i < |s| && s[i] == x && x !in s[..i]
  {
    if s == [] then ENULL
    else if s[0] == x then 0
    else
      var j := IndexOf(s[1..], x);
      assert s[1..][..if j == ENULL then 0 else j] == s[1..if j == ENULL then 1 else j + 1];
      if j == ENULL then ENULL else j + 1
  }

  // ---------------------------------------------------------------------
  // Lemmas about slot occupancy

  lemma {:induction false} OccupiedUpdate(ls: seq<Link>, s: int, l: Link)
    requires 0 <= s < |ls|
    ensures Occupied(ls[s := l]) ==
      Occupied(ls) - (if ls[s].next != ENULL then 1 else 0) + (if l.next != ENULL then 1 else 0)
  {
    if s == 0 {
      assert ls[s := l][1..] == ls[1..];
    } else {
      assert ls[s := l][1..] == ls[1..][s - 1 := l];
      OccupiedUpdate(ls[1..], s - 1, l);
    }
  }

  /** Fewer occupied slots than slots means some slot is free. */
  lemma {:induction false} OccupiedFull(ls: seq<Link>)
    requires forall s :: 0 <= s < |ls| ==> ls[s].next != ENULL
    ensures Occupied(ls) == |ls|
  {
    if ls != [] {
      OccupiedFull(ls[1..]);
    }
  }

  lemma {:induction false} OccupiedNone(ls: seq<Link>)
    requires forall s :: 0 <= s < |ls| ==> ls[s].next == ENULL
    ensures Occupied(ls) == 0
  {
    if ls != [] {
      OccupiedNone(ls[1..]);
    }
  }

  lemma CleanIsUnoccupied(x: Proc)
    requires Clean(x)
    ensures Occupied(x.links) == 0
  {
    forall s | 0 <= s < |x.links| ensures x.links[s].next == ENULL {
      if s != FREE_LIST {
        assert x.links[s] == NoLink;
      }
    }
    OccupiedNone(x.links);
  }

  /** Fewer occupied slots than slots means some slot is not in use. */
  lemma {:induction false} SomeSlotFree(ls: seq<Link>)
    requires Occupied(ls) < |ls|
    ensures exists s :: 0 <= s < |ls| && ls[s].next == ENULL
  {
    if ls[0].next != ENULL {
      SomeSlotFree(ls[1..]);
      var s :| 0 <= s < |ls| - 1 && ls[1..][s].next == ENULL;
      assert ls[s + 1].next == ENULL;
    }
  }

  // ---------------------------------------------------------------------
  // Single writes to the table

  /** T with the link at x replaced by l and the queue count of x's process changed by d. */
  ghost function Write(T: seq<Proc>, x: Pos, l: Link, d: int): seq<Proc>
    requires 0 <= x.proc < |T| && 0 <= x.slot < |T[x.proc].links|
  {
    T[x.proc := T[x.proc].(links := T[x.proc].links[x.slot := l], qcount := T[x.proc].qcount + d)]
  }

  lemma WriteAt(T: seq<Proc>, x: Pos, l: Link, d: int, who: int)
    requires Shape(T) && ValidPos(x) && (d == 0 || who == x.proc)
    ensures Shape(Write(T, x, l, d))
    ensures forall y :: ValidPos(y) ==> At(Write(T, x, l, d), y) == if y == x then l else At(T, y)
    ensures Frame(T, Write(T, x, l, d), [x], who)
  {
    var W := Write(T, x, l, d);
    forall i, s | 0 <= i < MAXPROC && 0 <= s < SEMMAX && Pos(i, s) !in [x]
      ensures W[i].links[s] == T[i].links[s]
    {
      assert Pos(i, s) != x;
    }
  }

  /** A write that keeps the queue count equal to the number of slots in use keeps the invariant. */
  lemma TableInvWrite(T: seq<Proc>, head: int, free: seq<int>, x: Pos, l: Link, d: int)
    requires TableInv(T, head, free) && ValidPos(x) && x.proc !in free
    requires d == (if l.next != ENULL then 1 else 0) - (if At(T, x).next != ENULL then 1 else 0)
    ensures TableInv(Write(T, x, l, d), head, free)
  {
    OccupiedUpdate(T[x.proc].links, x.slot, l);
    TableInvUpdate(T, head, free, x.proc, Write(T, x, l, d)[x.proc]);
  }

  // ---------------------------------------------------------------------
  // Lemmas about rings

  /** A ring whose positions avoid every changed position is still a ring. */
  lemma RingFrame(a: seq<Proc>, b: seq<Proc>, tp: Link, q: seq<Pos>, S: seq<Pos>, who: int)
    requires IsRing(a, tp, q) && Frame(a, b, S, who)
    requires forall i :: 0 <= i < |q| ==> q[i] !in S
    ensures IsRing(b, tp, q)
  {
    forall i | 0 <= i < |q| ensures At(b, q[i]) == At(a, q[i]) {
      assert q[i] !in S;
      assert Pos(q[i].proc, q[i].slot) == q[i];
    }
  }

  /** Every position of a ring is a slot in use. */
  lemma RingOccupied(T: seq<Proc>, tp: Link, q: seq<Pos>, i: int)
    requires IsRing(T, tp, q) && 0 <= i < |q|
    ensures At(T, q[i]).next != ENULL
  {
    if i < |q| - 1 {
      assert At(T, q[i]) == LinkTo(q[i + 1]);
    }
  }

  /** The head of a non-empty ring is the tail exactly when it is the only element. */
  lemma RingSingleton(T: seq<Proc>, tp: Link, q: seq<Pos>)
    requires IsRing(T, tp, q) && q != []
    ensures (q[0].proc == tp.next) <==> |q| == 1
  {
  }

  /** A ring's tail handle has no successor exactly when the ring is empty. */
  lemma RingEnd(T: seq<Proc>, tp: Link, q: seq<Pos>)
    requires IsRing(T, tp, q) == true
    ensures tp.next == ENULL <==> q == []
  {
    if q != [] {
      assert ValidPos(q[|q| - 1]);
    }
  }

  lemma {:induction false} RingPrefixAgrees(T: seq<Proc>, tp: Link, q1: seq<Pos>, q2: seq<Pos>, n: nat)
    requires IsRing(T, tp, q1) && IsRing(T, tp, q2)
    requires q1 != [] && n < |q1| && n < |q2|
    ensures q1[n] == q2[n]
  {
    if n == 0 {
      assert LinkTo(q1[0]) == At(T, q1[|q1| - 1]) == At(T, q2[|q2| - 1]) == LinkTo(q2[0]);
    } else {
      RingPrefixAgrees(T, tp, q1, q2, n - 1);
      assert LinkTo(q1[n]) == At(T, q1[n - 1]) == At(T, q2[n - 1]) == LinkTo(q2[n]);
    }
  }

  /**
   * The ring is determined by the table and the tail handle: walking the links
   * from the head is the only way to read a queue off the table.
   */
  lemma RingUnique(T: seq<Proc>, tp: Link, q1: seq<Pos>, q2: seq<Pos>)
    requires IsRing(T, tp, q1) && IsRing(T, tp, q2)
    ensures q1 == q2
  {
    if q1 == [] || q2 == [] {
      return;
    }
    var m := if |q1| < |q2| then |q1| - 1 else |q2| - 1;
    forall n | 0 <= n <= m ensures q1[n] == q2[n] {
      RingPrefixAgrees(T, tp, q1, q2, n);
    }
    // Position m holds the tail in the shorter ring, and the tail occurs once in each.
    assert q1[m] == q2[m];
  }

  /** The processes of a queue with one more element. */
  lemma ContentsAppend(q: seq<Pos>, x: Pos)
    ensures Contents(q + [x]) == Contents(q) + [x.proc]
  {
  }

  /** The processes of a queue with the element at k taken out. */
  lemma ContentsRemove(q: seq<Pos>, k: int)
    requires 0 <= k < |q|
    ensures Contents(q[..k] + q[k + 1..]) == Contents(q)[..k] + Contents(q)[k + 1..]
  {
  }

  // ---------------------------------------------------------------------
  // Lemmas about the table invariant

  /** Replacing one entry that is not on the free list by a consistent one keeps the invariant. */
  lemma TableInvUpdate(T: seq<Proc>, head: int, free: seq<int>, x: int, v: Proc)
    requires TableInv(T, head, free)
    requires 0 <= x < MAXPROC && x !in free
    requires |v.links| == SEMMAX && |v.semvec| == SEMMAX && v.qcount == Occupied(v.links)
    ensures TableInv(T[x := v], head, free)
  {
    var T' := T[x := v];
    forall i | 0 <= i < |free| ensures T'[free[i]] == T[free[i]] {
      assert free[i] != x;
    }
  }

  /** A ring of a table stays a ring of the same table with a semaphore vector changed. */
  lemma SemvecUpdate(T: seq<Proc>, x: int, v: seq<int>)
    requires Shape(T) && 0 <= x < MAXPROC && |v| == SEMMAX
    ensures Frame(T, T[x := T[x].(semvec := v)], [], x)
  {
  }

  /** Frames compose. */
  lemma FrameTrans(a: seq<Proc>, b: seq<Proc>, c: seq<Proc>, S1: seq<Pos>, S2: seq<Pos>, who: int)
    requires Frame(a, b, S1, who) && Frame(b, c, S2, who)
    ensures Frame(a, c, S1 + S2, who)
  {
    forall i, s | 0 <= i < MAXPROC && 0 <= s < SEMMAX && Pos(i, s) !in S1 + S2
      ensures c[i].links[s] == a[i].links[s]
    {
      assert Pos(i, s) !in S1 && Pos(i, s) !in S2;
    }
  }

  /** A frame over fewer positions is a frame over more. */
  lemma FrameWiden(a: seq<Proc>, b: seq<Proc>, S1: seq<Pos>, S2: seq<Pos>, who: int)
    requires Frame(a, b, S1, who)
    requires forall x :: x in S1 ==> x in S2
    ensures Frame(a, b, S2, who)
  {
  }

  /** A table that did not change is framed by any positions. */
  lemma FrameSame(a: seq<Proc>, S: seq<Pos>, who: int)
    requires Shape(a)
    ensures Frame(a, a, S, who)
  {
  }

  /** A new semaphore vector for who keeps a frame around who. */
  lemma FrameVector(a: seq<Proc>, b: seq<Proc>, c: seq<Proc>, S: seq<Pos>, who: int, v: seq<int>)
    requires Frame(a, b, S, who) && 0 <= who < MAXPROC && |v| == SEMMAX
    requires c == b[who := b[who].(semvec := v)]
    ensures Frame(a, c, S, who)
  {
  }

  // ---------------------------------------------------------------------
  // The table changes of the queue operations

  /** The two writes insertProc makes on a non-empty queue append x to the ring. */
  lemma InsertRing(T0: seq<Proc>, T1: seq<Proc>, T2: seq<Proc>, tp: Link, q: seq<Pos>, x: Pos)
    requires IsRing(T0, tp, q) && q != [] && ValidPos(x) && x.proc !in Contents(q)
    requires T1 == Write(T0, q[|q| - 1], LinkTo(x), 0)
    requires T2 == Write(T1, x, LinkTo(q[0]), 1)
    ensures IsRing(T2, LinkTo(x), q + [x])
    ensures Frame(T0, T2, q + [x], x.proc)
  {
    var last := |q| - 1;
    var q' := q + [x];
    WriteAt(T0, q[last], LinkTo(x), 0, x.proc);
    WriteAt(T1, x, LinkTo(q[0]), 1, x.proc);
    FrameTrans(T0, T1, T2, [q[last]], [x], x.proc);
    FrameWiden(T0, T2, [q[last]] + [x], q', x.proc);
    forall i | 0 <= i < |q| ensures q[i].proc != x.proc {
      assert Contents(q)[i] == q[i].proc;
    }
    forall i | 0 <= i < |q'| - 1 ensures At(T2, q'[i]) == LinkTo(q'[i + 1]) {
      if i < last {
        assert At(T0, q[i]) == LinkTo(q[i + 1]);
      }
    }
  }

  /** The two writes removeProc (corrected) makes on a queue of two or more drop the head. */
  lemma DequeueRing(T0: seq<Proc>, T1: seq<Proc>, T2: seq<Proc>, tp: Link, q: seq<Pos>)
    requires IsRing(T0, tp, q) && |q| >= 2
    requires T1 == Write(T0, q[|q| - 1], At(T0, q[0]), 0)
    requires T2 == Write(T1, q[0], NoLink, -1)
    ensures IsRing(T2, tp, q[1..])
    ensures Frame(T0, T2, q, q[0].proc)
  {
    var last := |q| - 1;
    var q' := q[1..];
    WriteAt(T0, q[last], At(T0, q[0]), 0, q[0].proc);
    WriteAt(T1, q[0], NoLink, -1, q[0].proc);
    FrameTrans(T0, T1, T2, [q[last]], [q[0]], q[0].proc);
    FrameWiden(T0, T2, [q[last]] + [q[0]], q, q[0].proc);
    assert At(T0, q[0]) == LinkTo(q[1]);
    forall i | 0 <= i < |q'| - 1 ensures At(T2, q'[i]) == LinkTo(q'[i + 1]) {
      assert q'[i] == q[i + 1] && q[i + 1].proc != q[0].proc && q[i + 1].proc != q[last].proc;
      assert At(T0, q[i + 1]) == LinkTo(q[i + 2]);
    }
    assert q'[|q'| - 1] == q[last];
  }

  /** The positions of q with the one at k taken out, by index. */
  lemma SliceOut(q: seq<Pos>, k: int, q': seq<Pos>)
    requires 0 <= k < |q| && q' == q[..k] + q[k + 1..]
    ensures |q'| == |q| - 1
    ensures forall i :: 0 <= i < |q'| ==> q'[i] == q[if i < k then i else i + 1]
  {
  }

  /**
   * Unlinking position k > 0 of a ring: its predecessor takes over its link,
   * and no other position in the ring changes.
   */
  lemma UnlinkAfter(T0: seq<Proc>, T2: seq<Proc>, tp: Link, q: seq<Pos>, k: int, q': seq<Pos>)
    requires IsRing(T0, tp, q) && 0 < k < |q| && Shape(T2)
    requires At(T2, q[k - 1]) == At(T0, q[k])
    requires forall i :: 0 <= i < |q| && i != k - 1 && i != k ==> At(T2, q[i]) == At(T0, q[i])
    requires |q'| == |q| - 1 && forall i :: 0 <= i < |q'| ==> q'[i] == q[if i < k then i else i + 1]
    ensures IsRing(T2, if k == |q| - 1 then LinkTo(q[k - 1]) else tp, q')
  {
    var last := |q| - 1;
    forall i, j | 0 <= i < j < |q'| ensures q'[i].proc != q'[j].proc {
      assert q'[i] == q[if i < k then i else i + 1];
      assert q'[j] == q[if j < k then j else j + 1];
    }
    forall i | 0 <= i < |q'| - 1 ensures At(T2, q'[i]) == LinkTo(q'[i + 1]) {
      assert q'[i + 1] == q[if i + 1 < k then i + 1 else i + 2];
      if i < k - 1 {
        assert At(T0, q[i]) == LinkTo(q[i + 1]);
      } else if i == k - 1 {
        assert At(T0, q[k]) == LinkTo(q[k + 1]);
      } else {
        assert At(T0, q[i + 1]) == LinkTo(q[i + 2]);
      }
    }
    assert q'[0] == q[0];
    if k == last {
      assert At(T2, q'[|q'| - 1]) == At(T0, q[k]) == LinkTo(q[0]);
    } else {
      assert At(T2, q'[|q'| - 1]) == At(T0, q[last]) == LinkTo(q[0]);
    }
  }

  /** The two writes outProc makes when it finds its target at position k > 0 unlink that position. */
  lemma OutRing(T0: seq<Proc>, T1: seq<Proc>, T2: seq<Proc>, tp: Link, q: seq<Pos>, k: int)
    requires IsRing(T0, tp, q) && 0 < k < |q|
    requires T1 == Write(T0, q[k - 1], At(T0, q[k]), 0)
    requires T2 == Write(T1, q[k], NoLink, -1)
    ensures IsRing(T2, if k == |q| - 1 then LinkTo(q[k - 1]) else tp, q[..k] + q[k + 1..])
    ensures Frame(T0, T2, q, q[k].proc)
  {
    WriteAt(T0, q[k - 1], At(T0, q[k]), 0, q[k].proc);
    WriteAt(T1, q[k], NoLink, -1, q[k].proc);
    FrameTrans(T0, T1, T2, [q[k - 1]], [q[k]], q[k].proc);
    FrameWiden(T0, T2, [q[k - 1]] + [q[k]], q, q[k].proc);
    forall i | 0 <= i < |q| && i != k - 1 && i != k ensures At(T2, q[i]) == At(T0, q[i]) {
      assert q[i].proc != q[k - 1].proc && q[i].proc != q[k].proc;
    }
    assert q[k - 1].proc != q[k].proc;
    SliceOut(q, k, q[..k] + q[k + 1..]);
    UnlinkAfter(T0, T2, tp, q, k, q[..k] + q[k + 1..]);
  }

  /**
   * b is a with position x appended at the tail of the ring q: the new handle
   * tp' names x, the process of x counts one queue more, and nothing else
   * changed beyond the links of the new ring.
   */
  ghost predicate Appended(a: seq<Proc>, b: seq<Proc>, q: seq<Pos>, x: Pos, tp': Link, q': seq<Pos>)
  {
    Shape(a) && Shape(b) && ValidPos(x) &&
    q' == q + [x] && tp' == LinkTo(x) && IsRing(b, tp', q') &&
    Contents(q') == Contents(q) + [x.proc] &&
    b[x.proc].qcount == a[x.proc].qcount + 1 &&
    b[x.proc].semvec == a[x.proc].semvec &&
    Frame(a, b, q', x.proc)
  }

  /** What the single write insertProc makes on an empty queue establishes. */
  lemma SelfEffect(T0: seq<Proc>, T1: seq<Proc>, head: int, free: seq<int>, x: Pos)
    requires TableInv(T0, head, free) && ValidPos(x) && x.proc !in free && At(T0, x).next == ENULL
    requires T1 == Write(T0, x, LinkTo(x), 1)
    ensures TableInv(T1, head, free) && Appended(T0, T1, [], x, LinkTo(x), [x])
  {
    TableInvWrite(T0, head, free, x, LinkTo(x), 1);
    WriteAt(T0, x, LinkTo(x), 1, x.proc);
    assert [] + [x] == [x];
  }

  /**
   * What the two writes insertProc makes on a non-empty queue establish: the
   * old tail links to x, and x takes over the old tail's link to the head.
   */
  lemma AppendEffect(T0: seq<Proc>, T2: seq<Proc>, head: int, free: seq<int>, tp: Link, q: seq<Pos>, x: Pos)
    requires TableInv(T0, head, free) && IsRing(T0, tp, q) && q != []
    requires ValidPos(x) && x.proc !in free && x.proc !in Contents(q) && At(T0, x).next == ENULL
    requires T2 == Write(Write(T0, q[|q| - 1], LinkTo(x), 0), x, At(T0, q[|q| - 1]), 1)
    ensures TableInv(T2, head, free) && Appended(T0, T2, q, x, LinkTo(x), q + [x])
  {
    var last := q[|q| - 1];
    var T1 := Write(T0, last, LinkTo(x), 0);
    assert Contents(q)[|q| - 1] == last.proc;
    RingOccupied(T0, tp, q, |q| - 1);
    TableInvWrite(T0, head, free, last, LinkTo(x), 0);
    WriteAt(T0, last, LinkTo(x), 0, x.proc);
    TableInvWrite(T1, head, free, x, At(T0, last), 1);
    WriteAt(T1, x, At(T0, last), 1, x.proc);
    InsertRing(T0, T1, T2, tp, q, x);
    ContentsAppend(q, x);
  }

  /**
   * b is a with position k taken out of the ring q addressed by tp: the new
   * handle tp' addresses q without that position, the removed process no
   * longer uses the slot and counts one queue less, and nothing else changed
   * beyond the links of q.
   */
  ghost predicate Removed(a: seq<Proc>, b: seq<Proc>, tp: Link, q: seq<Pos>, k: int, tp': Link, q': seq<Pos>)
  {
    0 <= k < |q| && Shape(a) && Shape(b) && ValidPos(q[k]) &&
    q' == q[..k] + q[k + 1..] && IsRing(b, tp', q') &&
    Contents(q') == Contents(q)[..k] + Contents(q)[k + 1..] &&
    tp' == (if |q| == 1 then NoLink else if k == |q| - 1 then LinkTo(q[k - 1]) else tp) &&
    b[q[k].proc].links[q[k].slot] == NoLink &&
    b[q[k].proc].qcount == a[q[k].proc].qcount - 1 &&
    b[q[k].proc].semvec == a[q[k].proc].semvec &&
    Frame(a, b, q, q[k].proc)
  }

  /** A removal that empties the queue took its only position and leaves no handle. */
  lemma RemovedLast(a: seq<Proc>, b: seq<Proc>, tp: Link, q: seq<Pos>, k: int, tp': Link, q': seq<Pos>)
    requires Removed(a, b, tp, q, k, tp', q') == true && q' == []
    ensures |q| == 1 && k == 0 && tp' == NoLink
  {
  }

  /** Every process of table b has the semaphore vector it has in table a. */
  ghost predicate SameVectors(a: seq<Proc>, b: seq<Proc>) {
    |a| == MAXPROC && |b| == MAXPROC && forall i :: 0 <= i < MAXPROC ==> b[i].semvec == a[i].semvec
  }

  /** Giving process r the vector v in a table whose vectors are those of a changes the vector of r alone. */
  lemma VectorSet(a: seq<Proc>, b: seq<Proc>, c: seq<Proc>, r: int, v: seq<int>)
    requires SameVectors(a, b) && 0 <= r < MAXPROC && c == b[r := b[r].(semvec := v)]
    ensures c[r].semvec == v
    ensures forall i :: 0 <= i < MAXPROC && i != r ==> c[i].semvec == a[i].semvec
  {
  }

  /** Taking a process off a queue leaves every semaphore vector as it was. */
  lemma RemovedVectors(a: seq<Proc>, b: seq<Proc>, tp: Link, q: seq<Pos>, k: int, tp': Link, q': seq<Pos>)
    requires Removed(a, b, tp, q, k, tp', q') == true
    ensures SameVectors(a, b) == true
  {
  }

  /** What the single write removeProc makes on a queue of one establishes. */
  lemma SingleEffect(T0: seq<Proc>, T1: seq<Proc>, head: int, free: seq<int>, tp: Link, q: seq<Pos>)
    requires TableInv(T0, head, free) && IsRing(T0, tp, q) && |q| == 1 && q[0].proc !in free
    requires T1 == Write(T0, q[0], NoLink, -1)
    ensures TableInv(T1, head, free) && Removed(T0, T1, tp, q, 0, NoLink, [])
  {
    RingOccupied(T0, tp, q, 0);
    TableInvWrite(T0, head, free, q[0], NoLink, -1);
    WriteAt(T0, q[0], NoLink, -1, q[0].proc);
    assert q[..0] + q[1..] == [];
  }

  /**
   * What the two writes that unlink position k of a queue of two or more
   * establish: the cyclic predecessor takes over the link of position k, whose
   * slot is then cleared.
   */
  lemma UnlinkEffect(T0: seq<Proc>, T2: seq<Proc>, head: int, free: seq<int>, tp: Link, q: seq<Pos>, k: int)
    requires TableInv(T0, head, free) && IsRing(T0, tp, q) && |q| >= 2 && 0 <= k < |q|
    requires forall i :: 0 <= i < |q| ==> q[i].proc !in free
    requires T2 == Write(Write(T0, q[if k == 0 then |q| - 1 else k - 1], At(T0, q[k]), 0), q[k], NoLink, -1)
    ensures TableInv(T2, head, free)
    ensures Removed(T0, T2, tp, q, k, if k == |q| - 1 then LinkTo(q[k - 1]) else tp, q[..k] + q[k + 1..])
  {
    var pk := if k == 0 then |q| - 1 else k - 1;
    UnlinkTableInv(T0, Write(T0, q[pk], At(T0, q[k]), 0), T2, head, free, tp, q, k, pk);
    UnlinkRemoved(T0, T2, tp, q, k);
  }

  /** The two writes of an unlink take position k out of the ring. */
  lemma UnlinkRemoved(T0: seq<Proc>, T2: seq<Proc>, tp: Link, q: seq<Pos>, k: int)
    requires IsRing(T0, tp, q) && |q| >= 2 && 0 <= k < |q|
    requires T2 == Write(Write(T0, q[if k == 0 then |q| - 1 else k - 1], At(T0, q[k]), 0), q[k], NoLink, -1)
    ensures Removed(T0, T2, tp, q, k, if k == |q| - 1 then LinkTo(q[k - 1]) else tp, q[..k] + q[k + 1..])
  {
    var pk := if k == 0 then |q| - 1 else k - 1;
    var T1 := Write(T0, q[pk], At(T0, q[k]), 0);
    if k == 0 {
      DequeueRing(T0, T1, T2, tp, q);
      assert q[..0] + q[1..] == q[1..];
    } else {
      OutRing(T0, T1, T2, tp, q, k);
    }
    ContentsRemove(q, k);
  }

  /** The two writes of an unlink keep the table invariant. */
  lemma UnlinkTableInv(T0: seq<Proc>, T1: seq<Proc>, T2: seq<Proc>, head: int, free: seq<int>, tp: Link, q: seq<Pos>,
                       k: int, pk: int)
    requires TableInv(T0, head, free) && IsRing(T0, tp, q) && |q| >= 2 && 0 <= k < |q|
    requires forall i :: 0 <= i < |q| ==> q[i].proc !in free
    requires pk == (if k == 0 then |q| - 1 else k - 1)
    requires T1 == Write(T0, q[pk], At(T0, q[k]), 0) && T2 == Write(T1, q[k], NoLink, -1)
    ensures TableInv(T2, head, free) && Shape(T1)
  {
    RingOccupied(T0, tp, q, pk);
    RingOccupied(T0, tp, q, k);
    assert q[pk] != q[k];
    TableInvWrite(T0, head, free, q[pk], At(T0, q[k]), 0);
    WriteAt(T0, q[pk], At(T0, q[k]), 0, q[k].proc);
    TableInvWrite(T1, head, free, q[k], NoLink, -1);
  }

  /** Taking a position out of a queue of processes that are not free leaves one. */
  lemma RemainNotFree(q: seq<Pos>, k: int, q': seq<Pos>, free: seq<int>)
    requires 0 <= k < |q| && q' == q[..k] + q[k + 1..]
    requires forall i :: 0 <= i < |q| ==> q[i].proc !in free
    ensures forall i :: 0 <= i < |q'| ==> q'[i].proc !in free
  {
    forall i | 0 <= i < |q'| ensures q'[i].proc !in free {
      if i < k {
        assert q'[i] == q[i];
      } else {
        assert q'[i] == q[i + 1];
      }
    }
  }

  // ---------------------------------------------------------------------
  // removeProc as written

  /**
   * The table after queues/procq.c:95-105 remove the head of a queue of two or
   * more: the tail is linked past the head, and then the head's slot that the
   * TAIL uses for this queue is cleared, rather than the head's own slot.
   */
  ghost function AsWrittenDequeue(T: seq<Proc>, tp: Link): seq<Proc>
    requires Shape(T) && 0 <= tp.next < MAXPROC && 0 <= tp.index < SEMMAX
    requires ValidPos(Pos(T[tp.next].links[tp.index].next, T[tp.next].links[tp.index].index))
  {
    var tail, ti := tp.next, tp.index;
    var head, hi := T[tail].links[ti].next, T[tail].links[ti].index;
    var T1 := T[tail := T[tail].(links := T[tail].links[ti := T[head].links[hi]])];
    T1[head := T1[head].(links := T1[head].links[ti := NoLink], qcount := T1[head].qcount - 1)]
  }

  /**
   * What the as-written removal does to a queue of two or more: this queue is
   * still read correctly as its old members minus the head, but the removed head
   * keeps its own slot for the queue in use exactly when its slot differs from
   * the tail's, and then it loses its slot numbered like the tail's instead.
   */
  lemma AsWrittenDequeueEffect(T: seq<Proc>, tp: Link, q: seq<Pos>)
    requires IsRing(T, tp, q) && |q| >= 2
    ensures var T' := AsWrittenDequeue(T, tp);
      IsRing(T', tp, q[1..]) &&
      T'[q[0].proc].links[tp.index] == NoLink &&
      (T'[q[0].proc].links[q[0].slot].next != ENULL <==> q[0].slot != tp.index)
  {
    var T' := AsWrittenDequeue(T, tp);
    var head := q[0];
    var last := |q| - 1;
    assert At(T, q[last]) == LinkTo(head);
    assert At(T, head) == LinkTo(q[1]);
    var q' := q[1..];
    forall i | 0 <= i < |q'| ensures At(T', q'[i]) == if i + 1 < |q'| then LinkTo(q'[i + 1]) else LinkTo(q'[0]) {
      assert q'[i] == q[i + 1];
      assert q[i + 1].proc != head.proc;
      if i + 1 < |q'| {
        assert At(T, q[i + 1]) == LinkTo(q[i + 2]);
      }
    }
  }

  /** A table with ENULL everywhere, used to build a concrete example. */
  ghost function BlankTable(): (T: seq<Proc>)
    ensures Shape(T)
  {
    seq(MAXPROC, i => Proc(seq(SEMMAX, s => NoLink), 0, seq(SEMMAX, s => ENULL), 0, 0, ENULL, ENULL, ENULL, NoTraps))
  }

  /**
   * A concrete state that the as-written removal corrupts. Process 0 is alone on
   * a queue R through its slot 0, so it uses slot 1 on a second queue Q = [0, 1]
   * whose tail, process 1, uses slot 0. Removing the head of Q clears slot 0 of
   * process 0, which destroys R, and leaves slot 1 of process 0 still linked.
   */
  lemma AsWrittenDequeueCounterexample()
    ensures var T := BlankTable();
      var T0 := T[0 := T[0].(links := T[0].links[0 := Link(0, 0)][1 := Link(0, 1)], qcount := 2)];
      var T1 := T0[1 := T0[1].(links := T0[1].links[0 := Link(1, 0)], qcount := 1)];
      var tpR, tpQ := Link(0, 0), Link(0, 1);
      IsRing(T1, tpR, [Pos(0, 0)]) &&
      IsRing(T1, tpQ, [Pos(0, 1), Pos(1, 0)]) &&
      var T2 := AsWrittenDequeue(T1, tpQ);
      IsRing(T2, tpQ, [Pos(1, 0)]) &&
      (forall q :: !IsRing(T2, tpR, q)) &&
      T2[0].links[1].next != ENULL
  {
    var T := BlankTable();
    var T0 := T[0 := T[0].(links := T[0].links[0 := Link(0, 0)][1 := Link(0, 1)], qcount := 2)];
    var T1 := T0[1 := T0[1].(links := T0[1].links[0 := Link(1, 0)], qcount := 1)];
    var tpR, tpQ := Link(0, 0), Link(0, 1);
    assert IsRing(T1, tpQ, [Pos(0, 1), Pos(1, 0)]);
    var T2 := AsWrittenDequeue(T1, tpQ);
    AsWrittenDequeueEffect(T1, tpQ, [Pos(0, 1), Pos(1, 0)]);
    assert [Pos(0, 1), Pos(1, 0)][1..] == [Pos(1, 0)];
    assert At(T2, Pos(0, 0)) == NoLink;
  }

  // ---------------------------------------------------------------------
  // The free list

  /** The free-list slot of the k-th free entry names the next one. */
  lemma FreeNext(T: seq<Proc>, head: int, free: seq<int>, k: int)
    requires TableInv(T, head, free) && 0 <= k < |free|
    ensures T[free[k]].links[FREE_LIST].next == if k + 1 < |free| then free[k + 1] else ENULL
    ensures k + 1 < |free| ==> 0 <= free[k + 1] < MAXPROC
  {
    var n := T[free[k]].links[FREE_LIST].next;
    assert n == (if k + 1 < |free| then free[k + 1] else ENULL);
  }

  /** Appending a clean process p after the last entry t of a non-empty free list. */
  lemma FreeListAppend(T: seq<Proc>, head: int, free: seq<int>, p: int)
    requires TableInv(T, head, free) && free != [] && 0 <= p < MAXPROC && p !in free && Clean(T[p])
    ensures var t := free[|free| - 1];
      TableInv(T[t := T[t].(links := T[t].links[FREE_LIST := T[t].links[FREE_LIST].(next := p)])], head, free + [p])
  {
    var t := free[|free| - 1];
    var T' := T[t := T[t].(links := T[t].links[FREE_LIST := T[t].links[FREE_LIST].(next := p)])];
    var free' := free + [p];
    forall i | 0 <= i < |free'| ensures T'[free'[i]].links[FREE_LIST].next == (if i + 1 < |free'| then free'[i + 1] else ENULL) {
      if i < |free| - 1 {
        assert free[i] != t;
      }
    }
    forall i | 0 <= i < MAXPROC ensures if i in free' then FreeEntry(T'[i]) else T'[i].qcount == Occupied(T'[i].links) {
      if i != t {
        assert T'[i] == T[i];
      }
    }
  }

  /** A clean process p alone on an empty free list. */
  lemma FreeListSingleton(T: seq<Proc>, free: seq<int>, p: int)
    requires TableInv(T, ENULL, free) && 0 <= p < MAXPROC && Clean(T[p])
    ensures free == [] && TableInv(T, p, [p])
  {
  }

  /** The rest of a free list is threaded as before when only its first entry changes. */
  lemma PopThreads(T: seq<Proc>, T': seq<Proc>, head: int, free: seq<int>, free': seq<int>)
    requires Shape(T) && ProcFreeList(T, head, free) && free == [head] + free' && Shape(T')
    requires forall i :: 0 <= i < MAXPROC && i != head ==> T'[i] == T[i]
    ensures ProcFreeList(T', if free' == [] then ENULL else free'[0], free') && head !in free'
  {
    FreeTail(T, head, free, free');
    FreeListFrame(T, T', if free' == [] then ENULL else free'[0], free', head);
  }

  /** The rest of a free list is a free list. */
  lemma FreeTail(T: seq<Proc>, head: int, free: seq<int>, free': seq<int>)
    requires Shape(T) && ProcFreeList(T, head, free) && free == [head] + free'
    ensures ProcFreeList(T, if free' == [] then ENULL else free'[0], free') && head !in free'
  {
    forall i | 0 <= i < |free'|
      ensures free'[i] == free[i + 1] && free'[i] != head
      ensures T[free'[i]].links[FREE_LIST].next == if i + 1 < |free'| then free'[i + 1] else ENULL
    {
      assert free[0] == head;
      assert T[free[i + 1]].links[FREE_LIST].next == if i + 2 < |free| then free[i + 2] else ENULL;
      if i + 1 < |free'| {
        assert free'[i + 1] == free[i + 2];
      }
    }
    forall i, j | 0 <= i < j < |free'| ensures free'[i] != free'[j] {
      assert free[i + 1] != free[j + 1];
    }
  }

  /** A free list does not depend on the entries off it. */
  lemma FreeListFrame(T: seq<Proc>, T': seq<Proc>, head: int, free: seq<int>, x: int)
    requires Shape(T) && Shape(T') && ProcFreeList(T, head, free) && x !in free
    requires forall i :: 0 <= i < MAXPROC && i != x ==> T'[i] == T[i]
    ensures ProcFreeList(T', head, free)
  {
    forall i | 0 <= i < |free|
      ensures T'[free[i]].links[FREE_LIST].next == if i + 1 < |free| then free[i + 1] else ENULL
    {
      assert T'[free[i]] == T[free[i]];
    }
  }

  /** Taking the first entry off the free list: it may then be used, once its free-list slot is cleared. */
  lemma FreeListPop(T: seq<Proc>, head: int, free: seq<int>)
    requires TableInv(T, head, free) && free != []
    ensures var T' := T[head := T[head].(links := T[head].links[FREE_LIST := NoLink])];
      TableInv(T', if |free| == 1 then ENULL else free[1], free[1..]) && Clean(T'[head])
  {
    var T' := T[head := T[head].(links := T[head].links[FREE_LIST := NoLink])];
    var free' := free[1..];
    CleanIsUnoccupied(T'[head]);
    assert free == [head] + free';
    PopThreads(T, T', head, free, free');
    forall i | 0 <= i < MAXPROC
      ensures if i in free' then FreeEntry(T'[i]) else T'[i].qcount == Occupied(T'[i].links)
    {
      if i != head {
        assert T'[i] == T[i];
        assert (i in free') == (i in free);
      }
    }
  }

  // ---------------------------------------------------------------------
  // The process table

  class ProcTable {
    /** procTable[MAXPROC] */
    const table: array<Proc>
    /** procFree_h */
    var procFree_h: int
    /** The free list, head first. */
    ghost var free: seq<int>

    ghost predicate Valid()
      reads this, table
    {
      TableInv(table[..], procFree_h, free)
    }

    /** Valid, from the table T and free list pf it is known to hold of. */
    lemma ValidFrom(T: seq<Proc>, pf: seq<int>)
      requires TableInv(T, procFree_h, pf) == true && T == table[..] && pf == free
      ensures Valid()
    {
    }

    /** What Valid and Queue say of the table's contents. */
    lemma QueueIn(tp: Link, q: seq<Pos>)
      requires Valid() && Queue(tp, q)
      ensures TableInv(table[..], procFree_h, free) == true && IsRing(table[..], tp, q) == true
    {
    }

    /** q is the queue addressed by tp, and none of its members is on the free list. */
    ghost predicate Queue(tp: Link, q: seq<Pos>)
      reads this, table
    {
      IsRing(table[..], tp, q) && forall i :: 0 <= i < |q| ==> q[i].proc !in free
    }

    /** The statically allocated table; initProc gives it its contents. */
    constructor ()
      ensures Shape(table[..]) && procFree_h == ENULL && free == []
    {
      table := new Proc[MAXPROC](i =>
        Proc(seq(SEMMAX, s => NoLink), 0, seq(SEMMAX, s => ENULL), 0, 0, ENULL, ENULL, ENULL, NoTraps));
      procFree_h := ENULL;
      free := [];
    }

    /**
     * resetProcess: p is on no queue, holds no semaphore, has used no time and
     * has no family; its trap vectors are kept.
     */
    method ResetProcess(p: int)
      requires Shape(table[..]) && 0 <= p < MAXPROC
      modifies table
      ensures Shape(table[..]) && Clean(table[p]) && table[p].traps == old(table[p].traps)
      ensures table[..] == old(table[..])[p := table[p]]
    {
      table[p] := table[p].(qcount := 0, totalTime := 0, lastStart := 0);
      for i := 0 to SEMMAX
        invariant |table[p].links| == SEMMAX && |table[p].semvec| == SEMMAX
        invariant table[p].qcount == 0 && table[p].totalTime == 0 && table[p].lastStart == 0
        invariant table[p].traps == old(table[p].traps)
        invariant forall s :: 0 <= s < i ==> table[p].links[s] == NoLink && table[p].semvec[s] == ENULL
        invariant forall j :: 0 <= j < MAXPROC && j != p ==> table[j] == old(table[j])
      {
        table[p] := table[p].(links := table[p].links[i := NoLink], semvec := table[p].semvec[i := ENULL]);
      }
      table[p] := table[p].(parent := ENULL, sibling := ENULL, children := ENULL);
      assert table[..] == old(table[..])[p := table[p]];
    }

    /**
     * initProc: every entry is reset with no trap vectors, and the free list
     * holds the whole table in index order.
     */
    method InitProc()
      requires Shape(table[..])
      modifies this, table
      ensures Valid() && free == seq(MAXPROC, i => i)
      ensures forall i :: 0 <= i < MAXPROC ==> FreeEntry(table[i]) && table[i].traps == NoTraps
    {
      procFree_h := 0;
      for i := 0 to MAXPROC
        invariant Shape(table[..]) && procFree_h == 0
        invariant forall j :: 0 <= j < i ==>
          FreeEntry(table[j]) && table[j].traps == NoTraps &&
          table[j].links[FREE_LIST].next == (if j != 19 then j + 1 else ENULL)
      {
        ResetProcess(i);
        table[i] := table[i].(traps := NoTraps);
        if i != 19 {
          table[i] := table[i].(links := table[i].links[FREE_LIST := table[i].links[FREE_LIST].(next := i + 1)]);
        }
      }
      free := seq(MAXPROC, i => i);
      forall i | 0 <= i < MAXPROC ensures i in free {
        assert free[i] == i;
      }
    }

    /**
     * allocProc: take the first entry off the free list and return it with its
     * free-list slot cleared, or return ENULL when the list is empty.
     */
    method AllocProc() returns (r: int)
      requires Valid()
      modifies this, table
      ensures Valid()
      ensures old(free) == [] ==> r == ENULL && free == [] && table[..] == old(table[..])
      ensures old(free) != [] ==>
        r == old(free[0]) && free == old(free[1..]) && Clean(table[r]) &&
        table[r] == old(table[r]).(links := old(table[r].links)[FREE_LIST := NoLink]) &&
        forall i :: 0 <= i < MAXPROC && i != r ==> table[i] == old(table[i])
    {
      if procFree_h == ENULL {
        return ENULL;
      }
      var allocatedProc := procFree_h;
      ghost var T0 := table[..];
      FreeListPop(T0, procFree_h, free);
      FreeNext(T0, procFree_h, free, 0);
      if table[allocatedProc].links[FREE_LIST].next == ENULL {
        assert |free| == 1;
        assert T0[allocatedProc].links[FREE_LIST := NoLink] == T0[allocatedProc].links;
        assert T0[allocatedProc := T0[allocatedProc].(links := T0[allocatedProc].links[FREE_LIST := NoLink])] == T0;
        procFree_h := ENULL;
        free := free[1..];
        return allocatedProc;
      }
      procFree_h := table[allocatedProc].links[FREE_LIST].next;
      table[allocatedProc] := table[allocatedProc].(links := table[allocatedProc].links[FREE_LIST := NoLink]);
      free := free[1..];
      r := allocatedProc;
    }

    /** The walk freeProc makes along the free list to its last entry. */
    method LastFree() returns (proc: int)
      requires Valid() && free != []
      ensures proc == free[|free| - 1]
    {
      proc := procFree_h;
      ghost var k := 0;
      while table[proc].links[FREE_LIST].next != ENULL
        invariant 0 <= k < |free| && proc == free[k]
        decreases |free| - k
      {
        FreeNext(table[..], procFree_h, free, k);
        proc := table[proc].links[FREE_LIST].next;
        k := k + 1;
      }
      FreeNext(table[..], procFree_h, free, k);
    }

    /**
     * freeProc: reset p and append it at the end of the free list, so that the
     * free list hands out entries first in, first out.
     */
    method FreeProc(p: int)
      requires Valid() && 0 <= p < MAXPROC && p !in free
      modifies this, table
      ensures Valid() && free == old(free) + [p]
      ensures Clean(table[p]) && table[p].traps == old(table[p].traps)
      ensures old(free) == [] ==> table[..] == old(table[..])[p := table[p]]
      ensures old(free) != [] ==>
        var t := old(free[|free| - 1]);
        table[..] == old(table[..])[p := table[p]][t := old(table[t]).(links := old(table[t].links)[FREE_LIST := Link(ENULL, p)])]
    {
      ghost var T0 := table[..];
      ResetProcess(p);
      ghost var T1 := table[..];
      CleanIsUnoccupied(T1[p]);
      TableInvUpdate(T0, procFree_h, free, p, T1[p]);
      if procFree_h == ENULL {
        FreeListSingleton(T1, free, p);
        procFree_h := p;
        free := [p];
        return;
      }
      var proc := LastFree();
      FreeListAppend(T1, procFree_h, free, p);
      assert T1[proc] == T0[proc] && T1[proc].links[FREE_LIST].index == ENULL;
      table[proc] := table[proc].(links := table[proc].links[FREE_LIST := table[proc].links[FREE_LIST].(next := p)]);
      free := free + [p];
    }

    /** findAvailableQueueSlot: the lowest slot of p not in use, or ENULL. */
    method FindAvailableQueueSlot(p: int) returns (r: int)
      requires Shape(table[..]) && 0 <= p < MAXPROC
      ensures r == ENULL <==> forall s :: 0 <= s < SEMMAX ==> table[p].links[s].next != ENULL
      ensures r != ENULL ==>
        0 <= r < SEMMAX && table[p].links[r].next == ENULL &&
        forall s :: 0 <= s < r ==> table[p].links[s].next != ENULL
    {
      for i := 0 to SEMMAX
        invariant forall s :: 0 <= s < i ==> table[p].links[s].next != ENULL
      {
        if table[p].links[i].next == ENULL {
          return i;
        }
      }
      return ENULL;
    }

    /** headQueue: the head of the queue whose tail handle is tp, or ENULL. */
    function HeadQueue(tp: Link, ghost q: seq<Pos>): (r: int)
      reads this, table
      requires Queue(tp, q)
      ensures r == if q == [] then ENULL else Contents(q)[0]
    {
      if tp.next == ENULL then ENULL else table[tp.next].links[tp.index].next
    }

    /**
     * insertProc: append p at the tail of the queue tp, through the lowest slot
     * p has free. A process already on SEMMAX queues makes the kernel panic,
     * and nothing is inserted.
     */
    method InsertProc(tp: Link, p: int, ghost q: seq<Pos>) returns (tp': Link, panicked: bool, ghost q': seq<Pos>)
      requires Valid() && Queue(tp, q)
      requires 0 <= p < MAXPROC && p !in free && p !in Contents(q)
      modifies table
      ensures Valid()
      ensures panicked <==> old(table[p].qcount) >= SEMMAX
      ensures panicked ==> tp' == tp && q' == q && table[..] == old(table[..])
      ensures !panicked ==>
        Queue(tp', q') && Appended(old(table[..]), table[..], q, Pos(p, tp'.index), tp', q') &&
        old(table[p].links[tp'.index].next) == ENULL &&
        forall s :: 0 <= s < tp'.index ==> old(table[p].links[s].next) != ENULL
    {
      if table[p].qcount >= SEMMAX {
        // panic: p is on the maximum number of queues
        return tp, true, q;
      }
      panicked := false;
      ghost var T0 := table[..];
      SomeSlotFree(T0[p].links);
      var s := FindAvailableQueueSlot(p);
      if tp.next == ENULL {
        tp' := Link(s, p);
        table[p] := table[p].(links := table[p].links[s := tp'], qcount := table[p].qcount + 1);
        assert table[..] == Write(T0, Pos(p, s), tp', 1);
        SelfEffect(T0, table[..], procFree_h, free, Pos(p, s));
        q' := [Pos(p, s)];
      } else {
        Splice(Pos(tp.next, tp.index), Pos(p, s));
        AppendEffect(T0, table[..], procFree_h, free, tp, q, Pos(p, s));
        tp' := Link(s, p);
        q' := q + [Pos(p, s)];
      }
    }

    /** The two writes that put position x after position tail: tail links to x, and x takes over tail's old link. */
    method Splice(tail: Pos, x: Pos)
      requires Shape(table[..]) && ValidPos(tail) && ValidPos(x)
      modifies table
      ensures table[..] == Write(Write(old(table[..]), tail, LinkTo(x), 0), x, old(At(table[..], tail)), 1)
    {
      var headLink := table[tail.proc].links[tail.slot];
      table[tail.proc] := table[tail.proc].(links := table[tail.proc].links[tail.slot := LinkTo(x)]);
      table[x.proc] := table[x.proc].(links := table[x.proc].links[x.slot := headLink], qcount := table[x.proc].qcount + 1);
    }

    /**
     * removeProc, corrected: remove and return the head of the queue tp, or
     * ENULL when it is empty. The head's own slot for the queue is cleared
     * (the source clears the slot the tail uses; see RemoveProcAsWritten).
     */
    method RemoveProc(tp: Link, ghost q: seq<Pos>) returns (r: int, tp': Link, ghost q': seq<Pos>)
      requires Valid() && Queue(tp, q)
      modifies table
      ensures Valid()
      ensures q == [] ==> r == ENULL && tp' == tp && q' == q && table[..] == old(table[..])
      ensures q != [] ==>
        r == Contents(q)[0] && Queue(tp', q') && Removed(old(table[..]), table[..], tp, q, 0, tp', q')
    {
      if tp.next == ENULL {
        return ENULL, tp, q;
      }
      ghost var T0 := table[..];
      var headProc := HeadQueue(tp, q);
      var tailProc := tp.next;
      var ti := tp.index;
      RingSingleton(T0, tp, q);
      if headProc == tailProc {
        table[tailProc] := table[tailProc].(links := table[tailProc].links[ti := NoLink], qcount := table[tailProc].qcount - 1);
        assert q[0] == Pos(tailProc, ti);
        assert table[..] == Write(T0, q[0], NoLink, -1);
        SingleEffect(T0, table[..], procFree_h, free, tp, q);
        return tailProc, NoLink, [];
      }
      var hi := table[tailProc].links[ti].index;
      Unlink(Pos(tailProc, ti), Pos(headProc, hi));
      UnlinkEffect(T0, table[..], procFree_h, free, tp, q, 0);
      r, tp', q' := headProc, tp, q[..0] + q[1..];
      RemainNotFree(q, 0, q', free);
    }

    /**
     * removeProc exactly as queues/procq.c:72-107 writes it: on a queue of two
     * or more it clears the head's slot numbered like the tail's slot.
     */
    method RemoveProcAsWritten(tp: Link, ghost q: seq<Pos>) returns (r: int, tp': Link)
      requires Valid() && Queue(tp, q)
      modifies table
      ensures q == [] ==> r == ENULL && tp' == tp && table[..] == old(table[..])
      ensures |q| == 1 ==>
        r == Contents(q)[0] && tp' == NoLink && Valid() && table[..] == Write(old(table[..]), q[0], NoLink, -1)
      ensures |q| >= 2 ==>
        r == Contents(q)[0] && tp' == tp && table[..] == AsWrittenDequeue(old(table[..]), tp)
    {
      if tp.next == ENULL {
        return ENULL, tp;
      }
      ghost var T0 := table[..];
      var headProc := HeadQueue(tp, q);
      var tailProc := tp.next;
      var ti := tp.index;
      RingSingleton(T0, tp, q);
      RingOccupied(T0, tp, q, |q| - 1);
      if headProc == tailProc {
        table[tailProc] := table[tailProc].(links := table[tailProc].links[ti := NoLink], qcount := table[tailProc].qcount - 1);
        assert q[0] == Pos(tailProc, ti);
        assert table[..] == Write(T0, q[0], NoLink, -1);
        TableInvWrite(T0, procFree_h, free, q[0], NoLink, -1);
        return tailProc, NoLink;
      }
      var hi := table[tailProc].links[ti].index;
      assert At(T0, q[|q| - 1]) == LinkTo(q[0]);
      table[tailProc] := table[tailProc].(links := table[tailProc].links[ti := table[headProc].links[hi]]);
      table[headProc] := table[headProc].(links := table[headProc].links[ti := NoLink], qcount := table[headProc].qcount - 1);
      r, tp' := headProc, tp;
    }

    /**
     * The two writes that take position cur out of its queue: the predecessor
     * position prev takes over cur's link, and cur's slot is cleared.
     */
    method Unlink(prev: Pos, cur: Pos)
      requires Shape(table[..]) && ValidPos(prev) && ValidPos(cur)
      modifies table
      ensures table[..] == Write(Write(old(table[..]), prev, old(At(table[..], cur)), 0), cur, NoLink, -1)
    {
      table[prev.proc] := table[prev.proc].(links := table[prev.proc].links[prev.slot := table[cur.proc].links[cur.slot]]);
      table[cur.proc] := table[cur.proc].(links := table[cur.proc].links[cur.slot := NoLink], qcount := table[cur.proc].qcount - 1);
    }

    /**
     * The search outProc makes for p in a queue of two or more whose head is
     * not p: it walks from the head and stops at p or at the tail, keeping the
     * position before the current one.
     */
    method SearchQueue(tp: Link, p: int, ghost q: seq<Pos>)
      returns (prevProc: int, prevIdx: int, currProc: int, currIdx: int, ghost k: int)
      requires Queue(tp, q) && |q| >= 2 && q[0].proc != p
      ensures 0 < k < |q| && Pos(currProc, currIdx) == q[k] && Pos(prevProc, prevIdx) == q[k - 1]
      ensures currProc == p || (currProc == tp.next && k == |q| - 1)
      ensures forall j :: 0 <= j < k ==> q[j].proc != p
    {
      var tailProc := tp.next;
      prevIdx := tp.index;
      currIdx := table[tailProc].links[tp.index].index;
      prevProc := tailProc;
      currProc := table[tailProc].links[tp.index].next;
      k := 0;
      assert At(table[..], q[|q| - 1]) == LinkTo(q[0]);
      while currProc != p && currProc != tailProc
        invariant 0 <= k < |q|
        invariant Pos(currProc, currIdx) == q[k]
        invariant Pos(prevProc, prevIdx) == if k == 0 then q[|q| - 1] else q[k - 1]
        invariant forall j :: 0 <= j < k ==> q[j].proc != p
        decreases |q| - k
      {
        assert k < |q| - 1;
        assert At(table[..], q[k]) == LinkTo(q[k + 1]);
        prevProc := currProc;
        prevIdx := currIdx;
        currIdx := table[currProc].links[currIdx].index;
        currProc := table[prevProc].links[prevIdx].next;
        k := k + 1;
      }
    }

    /**
     * outProc: remove p from the queue tp and return it, or return ENULL and
     * change nothing when p is not on the queue.
     */
    method OutProc(tp: Link, p: int, ghost q: seq<Pos>) returns (r: int, tp': Link, ghost q': seq<Pos>)
      requires Valid() && Queue(tp, q)
      modifies table
      ensures Valid()
      ensures p !in Contents(q) ==> r == ENULL && tp' == tp && q' == q && table[..] == old(table[..])
      ensures p in Contents(q) ==>
        r == p && Queue(tp', q') &&
        Removed(old(table[..]), table[..], tp, q, IndexOf(Contents(q), p), tp', q')
    {
      if tp.next == ENULL {
        return ENULL, tp, q;
      }
      ghost var T0 := table[..];
      var headProc := HeadQueue(tp, q);
      var tailProc := tp.next;
      RingSingleton(T0, tp, q);
      if headProc == tailProc {
        if tp.next == p {
          assert Contents(q)[0] == p && IndexOf(Contents(q), p) == 0;
          r, tp', q' := RemoveProc(tp, q);
          return;
        } else {
          assert Contents(q) == [headProc];
          return ENULL, tp, q;
        }
      }
      if p == headProc {
        assert Contents(q)[0] == p && IndexOf(Contents(q), p) == 0;
        r, tp', q' := RemoveProc(tp, q);
        return;
      }
      var prevProc, prevIdx, currProc, currIdx, k := SearchQueue(tp, p, q);
      if currProc == tailProc && p != tailProc {
        forall j | 0 <= j < |q| ensures Contents(q)[j] != p {
        }
        return ENULL, tp, q;
      } else if currProc == tailProc && p == tailProc {
        tp' := Link(prevIdx, prevProc);
      } else {
        tp' := tp;
      }
      assert q[k].proc == p;
      assert IndexOf(Contents(q), p) == k by {
        assert Contents(q)[k] == p;
        assert p !in Contents(q)[..k];
      }
      Unlink(Pos(prevProc, prevIdx), Pos(p, currIdx));
      UnlinkEffect(T0, table[..], procFree_h, free, tp, q, k);
      r, q' := p, q[..k] + q[k + 1..];
      RemainNotFree(q, k, q', free);
    }
  }
}
