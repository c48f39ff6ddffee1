# Process queues and the active semaphore list

This project models the two queue modules of a small single-CPU operating
system nucleus for the Motorola 68000, and proves properties about them:

- **Process queues** (`queues/procq.c`, `h/procq.h`). This is a statically
  allocated table of `MAXPROC` process entries. Each entry has `SEMMAX` link
  slots, so a process can be on up to `SEMMAX` circular queues at once. A queue
  is addressed by a *tail handle*: the tail process, plus the slot the tail uses
  for this queue. Every slot records the next process, plus the slot that the
  next process uses for the same queue. Unused entries sit on a free list that
  is threaded through slot 0. The operations are `insertProc`, `removeProc`,
  `outProc`, `headQueue`, `allocProc`, `freeProc` and `initProc`, with the
  helpers `findAvailableQueueSlot`, `resetProcess` and `panic`.
- **Active semaphore list** (`queues/asl.c`, `h/asl.h`). This is a table of
  `MAXPROC` semaphore descriptors. A descriptor is either on the ASL or on a
  free list. The ASL is a doubly linked list kept in ascending order of
  semaphore address, and each descriptor on it holds the tail handle of the
  queue of processes blocked on that semaphore. The operations are
  `insertBlocked`, `removeBlocked`, `outBlocked`, `headBlocked`, `headASL` and
  `initSemd`, with their helpers for the free list, the ASL and each process's
  semaphore vector (`semvec`).

Pointers become indices into the two tables, and `ENULL` (-1) is the null
pointer. The C globals become fields of two classes:

- `ProcQueue.ProcTable` holds `procTable` as an `array<Proc>` and `procFree_h`.
- `ActiveSemaphores.ASL` holds `semdTable` as an `array<Semd>`, `semd_h` and
  `semdFree_h`.

The methods update these fields and arrays in place, as the C code does. Each
list and queue is tied to a ghost witness that the operations keep up to date:

- the free list of processes, head first;
- the ASL and the free list of descriptors, head first;
- for each descriptor, the ring of positions (process, slot) of its queue, head
  first.

`IsRing`, `TableInv` and `AslInv` relate each witness to the links in the
tables. The contracts are stated against these views. For example,
`ASL.Blocked(a)` is the sequence of processes blocked on address `a`, in the
order they will be woken.

Two constants are choices:

- `MAXPROC` is 20. `initProc` hard-codes the last index as 19
  (`queues/procq.c:270`).
- `SEMMAX` is taken to be 20, because the header that defines it is not part of
  this model.

The descriptor free list is a stack. `returnSemaphoreToFreeList` pushes a
freed descriptor on its head (`queues/asl.c:213-218`), and
`allocateSemaphoreFromFreeList` pops the head (`queues/asl.c:236-237`).
`removeBlocked` retires the descriptor of an emptied queue
(`queues/asl.c:87-91`) before it removes the address from the woken process's
vector (`queues/asl.c:94`). `RemoveBlocked` keeps that order: `Take`, then
`DropAddress`.

`panic` becomes a `panicked` result that is true exactly when the source would
call it.

## Model

| member | source | states |
|---|---|---|
| ProcQueue.ProcTable.ResetProcess | queues/procq.c:297-318 | the entry is on no queue, has empty links and semaphore vector, zero times and no family; its trap vectors and every other entry are unchanged |
| ProcQueue.ProcTable.InitProc | queues/procq.c:251-274 | the table invariant holds, the free list is every entry in table order, and every entry is reset with no trap vectors |
| ProcQueue.ProcTable.AllocProc | queues/procq.c:185-206 | ENULL with nothing changed when the free list is empty; otherwise returns the free-list head, pops it, clears its free-list link, leaves every other entry alone and keeps the table invariant |
| ProcQueue.ProcTable.LastFree | queues/procq.c:223-226 | the walk along the free list stops at its last entry |
| ProcQueue.ProcTable.FreeProc | queues/procq.c:212-229 | the reset entry is appended at the tail of the free list (FIFO), only the old tail's link changes besides it, and the table invariant is kept |
| ProcQueue.ProcTable.FindAvailableQueueSlot | queues/procq.c:282-291 | returns the lowest slot whose next is ENULL, or ENULL exactly when all SEMMAX slots are in use |
| ProcQueue.ProcTable.HeadQueue | queues/procq.c:236-244 | the head of the queue, or ENULL exactly when it is empty |
| ProcQueue.ProcTable.InsertProc | queues/procq.c:26-64 | panics exactly when the process is on SEMMAX queues (nothing changes then); otherwise the process is appended at the tail through its lowest free slot, the handle names it, its queue count rises by one and no other link changes |
| ProcQueue.ProcTable.Splice | queues/procq.c:47-56 | the old tail's slot points at the new position, and the new position takes over the old tail's link to the head |
| ProcQueue.ProcTable.RemoveProc | queues/procq.c:72-107 | ENULL with nothing changed on an empty queue; otherwise the head is returned and unlinked from its own slot, the rest of the ring is intact, the handle is cleared when the queue empties, and the table invariant is kept |
| ProcQueue.ProcTable.RemoveProcAsWritten | queues/procq.c:72-107 | the dequeue as written: ENULL with nothing changed on an empty queue; on a queue of one it returns the member, clears the tail's slot, lowers its queue count and leaves no handle; on a queue of two or more it rewrites exactly the table that AsWrittenDequeue describes |
| ProcQueue.ProcTable.SearchQueue | queues/procq.c:141-156 | the scan from the head stops at the first position holding p, or at the tail; it returns that position and its predecessor |
| ProcQueue.ProcTable.Unlink | queues/procq.c:169-174 | the predecessor takes over the removed position's link, and that position is cleared |
| ProcQueue.ProcTable.OutProc | queues/procq.c:115-178 | ENULL with nothing changed when p is not on the queue; otherwise p leaves it at its own position, the handle moves back when p was the tail and is cleared when the queue empties, and the rest of the ring is intact |
| ProcQueue.RingUnique | h/procq.h:5-8 | the tail handle and the links determine the queue: two rings with the same handle in the same table are equal |
| ProcQueue.RingSingleton | queues/procq.c:84-92 | the head is the tail process exactly when the queue has one member, which is how removeProc and outProc detect a one-member queue |
| ProcQueue.RingEnd | queues/procq.c:74-77 | a handle's next is ENULL exactly when its queue is empty |
| ProcQueue.SelfEffect | queues/procq.c:34-39 | the self-link written into an empty queue makes the one-member ring and keeps the table invariant |
| ProcQueue.AppendEffect | queues/procq.c:41-61 | the two writes that append to a non-empty queue produce the longer ring and keep the table invariant |
| ProcQueue.SingleEffect | queues/procq.c:85-91 | clearing the only member's slot empties the queue and keeps the table invariant |
| ProcQueue.UnlinkEffect | queues/procq.c:162-175 | unlinking any position of a ring of two or more leaves the ring without it, with the handle moved back exactly when the tail left |
| ProcQueue.FreeListPop | queues/procq.c:193-205 | popping the free-list head and clearing its link leaves a valid free list of the rest and a clean entry |
| ProcQueue.FreeListAppend | queues/procq.c:222-228 | linking a clean entry after the last free entry appends it to the free list |
| ProcQueue.AsWrittenDequeueEffect | queues/procq.c:95-105 | the dequeue as written leaves the shorter ring, but it clears the head's slot with the tail's slot index; the head's own slot stays in use whenever the two indices differ |
| ProcQueue.AsWrittenDequeueCounterexample | queues/procq.c:95-105 | concrete tables where the dequeue as written destroys a second queue that the head belongs to, and leaves the head's own slot in use |
| ActiveSemaphores.Lookup | queues/asl.c:325-337 | ENULL exactly when no descriptor on the ASL has address a; otherwise an ASL descriptor with address a |
| ActiveSemaphores.LookupFirst | queues/asl.c:329-334 | the search returns the first descriptor in ASL order with the address |
| ActiveSemaphores.WithAddressAdds | queues/asl.c:344-363 | adding an address to a vector with an empty entry fills one empty entry with it and changes nothing else |
| ActiveSemaphores.WithoutAddressRemoves | queues/asl.c:370-389 | removing an address the vector holds empties one entry and changes nothing else |
| ActiveSemaphores.AddressRoundTrip | queues/asl.c:344-389 | removing an address just added to a vector that did not hold it gives the vector back |
| ActiveSemaphores.DropRemoves | queues/asl.c:121 | taking p out of a queue removes exactly one occurrence, and p is gone when the queue had no duplicates |
| ActiveSemaphores.ClearEachEmpties | queues/asl.c:123-128 | after outBlocked, an entry of the vector is empty exactly when its address was one of the semaphores the process was taken off, and other entries are kept |
| ActiveSemaphores.InitialInv | queues/asl.c:168-185 | all descriptors threaded in table order on the free list, with an empty ASL, satisfy the ASL invariant, and nothing is blocked |
| ActiveSemaphores.Conserved | queues/asl.c:168-185 | under the invariant, the ASL and the free list together hold all MAXPROC descriptors: none is lost or counted twice |
| ActiveSemaphores.PoolSize | queues/asl.c:168-185 | two repeat-free lists of descriptors, each descriptor on exactly one of them, hold MAXPROC entries between them |
| ActiveSemaphores.HitsHold | queues/asl.c:106-140 | an address is among those the walk finds p on exactly when p is blocked on it |
| ActiveSemaphores.RetiredHas | queues/asl.c:131-135 | a descriptor is among those the walk's first j steps return to the free list exactly when it is one of the first j descriptors of the ASL and its queue held p alone |
| ActiveSemaphores.WalkDone | queues/asl.c:106-143 | once the walk has passed every descriptor, p is removed from what every address blocks, and it found p exactly when p was blocked somewhere |
| ActiveSemaphores.ASL.InitSemd | queues/asl.c:168-185 | the ASL is empty, the free list is every descriptor in table order with the prev links the source writes, the invariant holds and nothing is blocked |
| ActiveSemaphores.ASL.ResetSemaphore | queues/asl.c:395-402 | the descriptor is cleared and nothing else changes |
| ActiveSemaphores.ASL.GetSemaphoreFromActiveList | queues/asl.c:325-337 | the walk along the ASL returns Lookup's answer |
| ActiveSemaphores.ASL.HeadASL | queues/asl.c:192-195 | true exactly when some semaphore has a blocked process |
| ActiveSemaphores.ASL.HeadBlocked | queues/asl.c:151-161 | the first process blocked on the address, or ENULL when none is |
| ActiveSemaphores.ASL.AllocateSemaphoreFromFreeList | queues/asl.c:226-239 | ENULL with nothing changed when the free list is empty; otherwise pops and resets its head |
| ActiveSemaphores.ASL.ReturnSemaphoreToFreeList | queues/asl.c:202-219 | nothing for ENULL; otherwise the reset descriptor is pushed on the head of the free list (LIFO), and the old head's prev points back at it |
| ActiveSemaphores.ASL.FindInsertionPoint | queues/asl.c:256-273 | the scan stops between the last descriptor with a smaller address and the first with a larger one |
| ActiveSemaphores.ASL.InsertSemaphoreIntoActiveList | queues/asl.c:246-282 | the descriptor is inserted into the ASL at the place that keeps the addresses ascending, both link directions stay correct, and only the neighbours' links change |
| ActiveSemaphores.ASL.RemoveSemaphoreFromActiveList | queues/asl.c:288-318 | nothing for ENULL or an empty ASL; otherwise the descriptor leaves the ASL, is reset, and its neighbours are linked to each other |
| ActiveSemaphores.ASL.AddSemaphoreToProcessVector | queues/asl.c:344-363 | succeeds exactly when p and the address are not ENULL and the vector has an empty entry; the first empty entry receives the address |
| ActiveSemaphores.ASL.RemoveSemaphoreFromProcessVector | queues/asl.c:370-389 | succeeds exactly when p and the address are not ENULL and the vector holds the address; its first occurrence is emptied |
| ActiveSemaphores.ASL.Enqueue | queues/asl.c:43-45 | the address enters p's vector; the append panics exactly when p is on SEMMAX queues, and otherwise p joins the tail of the descriptor's queue |
| ActiveSemaphores.ASL.Requeue | queues/asl.c:41-46 | appending to an active descriptor's queue keeps the invariant, and only that address blocks one process more, namely p at the tail; the address enters p's vector and every other process keeps its vector; in the process table, only the links at positions on that descriptor's queue and p's queue count and vector change |
| ActiveSemaphores.ASL.BlockOnActive | queues/asl.c:41-46 | with a descriptor on the ASL, p is appended to what the address blocks, the address enters p's vector, and every other process keeps its vector, unless the append panics; in the process table, only the links at positions on the semaphore queues and p's queue count and vector change |
| ActiveSemaphores.ASL.TakeDescriptor | queues/asl.c:51-56 | the free-list head is popped and made the one-member queue of p |
| ActiveSemaphores.ASL.NewDescriptor | queues/asl.c:51-59 | the free-list head is popped, made the one-member queue of p, and given the address |
| ActiveSemaphores.ASL.LinkDescriptor | queues/asl.c:59-60 | the new descriptor is inserted into the ASL in address order |
| ActiveSemaphores.ASL.Activate | queues/asl.c:58-61 | once the new descriptor is on the ASL, the invariant holds, the address blocks exactly p, and every other address is unaffected |
| ActiveSemaphores.ASL.BlockOnNew | queues/asl.c:49-61 | with no descriptor but a free one, the free list loses its head; unless the append panics, p becomes the only process blocked on the address, the address enters p's vector, every other process keeps its vector, and in the process table, only the links at positions on the semaphore queues and p's queue count and vector change |
| ActiveSemaphores.ASL.InsertBlocked | queues/asl.c:29-64 | true, with nothing changed, exactly when the address has no descriptor and the free list is empty; a panic exactly when the append would exceed SEMMAX; otherwise p is blocked at the tail of the address's queue, the address enters p's vector, every other process keeps its vector, the free list loses its head exactly when the address blocked nothing before, the invariant holds, and in the process table, only the links at positions on the semaphore queues and p's queue count and vector change |
| ActiveSemaphores.ASL.Unqueue | queues/asl.c:83-84 | the head of the descriptor's queue is dequeued, and the descriptor's handle is the new one |
| ActiveSemaphores.ASL.Take | queues/asl.c:83-91 | dequeues the first process blocked on the address, and retires the descriptor when it blocked only that one; no vector changes, and in the process table only the links at positions on that descriptor's queue and the dequeued process's queue count change |
| ActiveSemaphores.ASL.SettleHead | queues/asl.c:86-91 | after the dequeue, the invariant is restored and the address blocks the rest of its queue |
| ActiveSemaphores.ASL.Settle | queues/asl.c:86-91 | after any position of a descriptor's queue is taken out, the invariant is restored and the descriptor retires exactly when its queue is empty |
| ActiveSemaphores.ASL.SettleEmpty | queues/asl.c:87-91 | a descriptor whose queue has become empty leaves the ASL for the head of the free list |
| ActiveSemaphores.ASL.Retire | queues/asl.c:89-90 | the descriptor leaves the ASL and is pushed on the free list; the address blocks nothing, and other descriptors keep their addresses |
| ActiveSemaphores.ASL.Unlist | queues/asl.c:89 | the descriptor leaves the ASL, the list stays ordered and linked, and the free list is untouched |
| ActiveSemaphores.ASL.DropAddress | queues/asl.c:94 | the address leaves the vector of the dequeued process only |
| ActiveSemaphores.ASL.Detach | queues/asl.c:83-94 | on an active address, the first blocked process leaves the queue and the address leaves that process's vector; in the process table only the links at positions on that queue and that process's queue count and vector change |
| ActiveSemaphores.ASL.Unblock | queues/asl.c:83-95 | on an active address, returns the first blocked process and removes it from the queue and the address from its vector; the descriptor is pushed on the free list exactly when the queue had one process; in the process table only the links at positions on the semaphore queues and that process's queue count and vector change |
| ActiveSemaphores.ASL.RemoveBlocked | queues/asl.c:73-96 | returns the first process blocked on the address (ENULL, with nothing changed, when there is none); only that address loses its head; the address leaves that process's vector; the descriptor is pushed on the free list exactly when it held one process; in the process table only the links at positions on the semaphore queues and that process's queue count and vector change |
| ActiveSemaphores.ASL.OutStep | queues/asl.c:112-137 | outProc on one descriptor's queue: it finds p exactly when p is there, and changes nothing otherwise; when found, p leaves the queue and the address leaves p's vector; only that descriptor's queue changes; the descriptor is pushed on the free list exactly when p was its only member; in the process table only the links at positions on that queue and p's queue count and vector change |
| ActiveSemaphores.ASL.Unthread | queues/asl.c:124-137 | after p is unlinked from a queue, the address leaves p's vector and the descriptor is settled: only its queue changes, it is pushed on the free list exactly when p was the queue's only member, and in the process table only the links at positions on that queue and p's queue count and vector change |
| ActiveSemaphores.ASL.Rethread | queues/asl.c:124-137 | the same, from the prepared state |
| ActiveSemaphores.ASL.Unhook | queues/asl.c:121-126 | writes the descriptor's new handle, and removes the address from p's vector only |
| ActiveSemaphores.ASL.SettleOut | queues/asl.c:130-137 | with the new handle written, the invariant is restored and the descriptor retires exactly when its queue is empty |
| ActiveSemaphores.ASL.WalkStep | queues/asl.c:110-139 | one step of the walk handles the next descriptor of the original ASL, reports whether p was on its queue, and moves to the following one; the free list gains that descriptor exactly when p was its only blocked process; in the process table only the links at positions on its queue and p's queue count and vector change; nothing changes when p was not on it |
| ActiveSemaphores.ASL.Walk | queues/asl.c:106-140 | the walk visits every descriptor of the original ASL, keeps the invariant, and reports whether p was found anywhere; each descriptor whose queue held p alone is pushed on the free list in ASL order; in the process table only the links at positions on the semaphore queues and p's queue count and vector change; nothing changes when p is found nowhere |
| ActiveSemaphores.ASL.OutBlocked | queues/asl.c:104-144 | p leaves every semaphore queue it was on, and no other process leaves any queue; the descriptors whose queue held p alone are pushed on the free list in ASL order, and no other descriptor is; each of those addresses leaves p's vector, and other processes' vectors are unchanged; in the process table only the links at positions on the semaphore queues and p's queue count and vector change; returns p exactly when p was blocked somewhere; with ENULL, nothing changes at all |

## Left out

- `panic` writes a message into a buffer and traps to the kernel. Both are
  outside the model: `InsertProc` and `InsertBlocked` return
  `panicked = true` instead.
- ActiveSemaphores.ASL.InsertBlocked: after a panic it promises nothing about
  the state, because the source never returns from the trap.
- Processor state and the trap-state areas are outside the model. Trap
  vectors are kept only as six pointer fields, which `resetProcess` leaves alone
  and `initProc` sets to ENULL.
- The CPU-time fields and the parent, sibling and child links of a process are
  plain fields that `resetProcess` clears. Time accounting and the process tree
  are handled by nucleus code that is not part of this model.
- Addresses of semaphores are integers, and pointer comparison (`<`, `>`)
  becomes integer comparison.
- Queue handles are passed and returned by value, not through a `proc_link*`.
  So `outProc`'s check for a null handle (`queues/procq.c:118`) has no
  counterpart.
- ProcQueue.ProcTable.InsertProc requires that p is allocated and not already
  on the queue. The source checks neither. A second insertion of p into the
  same queue would go through another free slot of p and leave a well-formed
  ring that holds p twice. The model's rings hold each process at most once,
  so that case is not modelled. The nucleus never makes such a call: a process
  is queued only while it is not on that queue.
- ActiveSemaphores.ASL.InsertBlocked, and its stages Enqueue, Requeue and
  BlockOnActive, likewise require that p is allocated and not already blocked
  on the address. A process blocked on a semaphore does not run, so it cannot
  block on that semaphore a second time.
- ProcQueue.ProcTable.OutProc, when p is the head of the queue, dequeues with
  the corrected RemoveProc (see "## Findings"), not with `removeProc` as
  written. For a head whose slot index differs from the tail's, the model
  clears the head's own slot, where the source clears the slot numbered like
  the tail's.
- ActiveSemaphores.ASL.RemoveBlocked, and its stages Unblock, Detach, Take and
  Unqueue, dequeue with the corrected RemoveProc as well, where
  `queues/asl.c:84` calls `removeProc` as written.
- ActiveSemaphores.ASL.OutBlocked, and its stages Walk, WalkStep and OutStep,
  reach the dequeue through OutProc, so they too are built on the corrected
  RemoveProc, where `queues/asl.c:121` calls `outProc` as written.
- ProcQueue.ProcTable.FreeProc requires that p is not already free. Freeing
  twice would make the free list cyclic.
- ActiveSemaphores.ASL.OutBlocked requires `0 <= p < MAXPROC`. Calling
  `outBlocked(ENULL)` changes nothing and returns ENULL in the source; that
  call is not modelled.
- ActiveSemaphores.ASL.OutBlocked does not model the loop's skip of an empty
  queue (`queues/asl.c:116-119`) as a separate branch. Descriptors on the ASL
  never have an empty queue (`AslInv`), and `outProc` returns ENULL on one
  anyway.
- `allocateSemaphoreFromFreeList` leaves the new free-list head's `s_prev`
  pointing at the descriptor it handed out. So the model's descriptor free list
  is threaded through `next` only, and its `prev` fields are not constrained.
  `ReturnSemaphoreToFreeList` still writes them as the source does.
- The callers in the nucleus (system calls, traps, interrupts, the scheduler)
  are not part of this model.

## Findings

| source | as written | input that shows it | evidently intended | confidence | as-written member | corrected member |
|---|---|---|---|---|---|---|
| queues/procq.c:95-104 | `removeProc`, on a queue of two or more, clears the head's link slot at the *tail's* slot index (`headProc->p_link[tail_queue_idx]`), not at the head's own index `head_queue_idx` | process 0 is the only member of queue R through slot 0, and the head of queue Q = [0 (slot 1), 1 (slot 0)] whose tail handle is (1, slot 0); removeProc(Q) clears slot 0 of process 0, destroying R, and leaves slot 1 (which still links into Q) in use | clear the head's own slot `head_queue_idx`, so the head leaves exactly this queue | not executed | ProcQueue.ProcTable.RemoveProcAsWritten, ProcQueue.AsWrittenDequeueCounterexample | ProcQueue.ProcTable.RemoveProc |
