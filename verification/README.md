# Verified core of the echo server

This project models six parts of the repository in Dafny and proves what they promise.

* **Red-black tree** (`RbShape`, `RbLinks`, `RbDelete`, `RbTree`): the macros of `tree.h` on elements with left, right,
  parent and colour fields. `RbShape` has trees and contexts as values, `RbLinks` says when links in memory spell such a
  tree, `RbTree.Head` has the operations with their loops.
* **Byte queue** (`Flatten`, `Evbuffer`, `EvbufferPullup`, `EvbufferSearch`): the chains of `buffer.c` as objects with
  `misalign`, `off`, `next` and an array of bytes; `EvBuffer.Bytes()` is the byte sequence the queue stands for, and
  `Valid()` holds the list invariant: which chain is last, that only a lone chain may be empty, that `total_len` is the
  length and `last_with_datap` the link to the last chain with data.
* **Rate limiter** (`TokenBucket`, `BevRateLimit`, `RateGroup`, `RateLimitGroup`): the bucket arithmetic with its
  wrap-around, one bufferevent with its refill timer, and the group protocol, once as interleaved steps of any number of
  threads with bufferevent locks and a group lock, once as loops over member objects, for reading and writing.
* **Thread hand-off and connections** (`WakeQueue`, `Lifecycle`, `ConnectionLimit`, `PacketStream`, `ClientIo`): the
  locked queue with its wake-up byte and the life of a connection as interleaved atomic steps; the limit on the number
  of connections; send batching and packet reassembly on arrays.
* **Calendar and SHA-1** (`Calendar`, `Sha1`, `Vector32`, `Sha1Native`, `Sha1Example`): the hand-written calendar against counting days one by one, the
  incremental hash against the digest of FIPS PUB 180-1 (section 4, message padding; section 7, computing the digest).
* **Pooled allocator** (`MallocPool`, `MallocManager`): a pointer is a piece of memory and an offset; pools with their
  free lists and counters, size classes and the tables of live pointers.

Allocation failures, try-lock results, arrivals from other threads, reads from sockets and the results of `event_add`
are parameters of the methods or choices of the steps. Sizes are those of a 64-bit platform: `size_t` and `ssize_t` have
64 bits, `unsigned` and the tick counter 32.

## Where the code differs from what is said about it

* `_bufferevent_get_rlim_max` replaces its constant cap by the limit when a configuration is set, although the comment on
  the constant (`depend/event/project/bufferevent_ratelim.c:180-185`) says that a single read never exceeds it.
  `Bufferevent.GetMax` and `RateLimitGroup.GetMax` state exactly when it does not, in terms of the state before the call;
  `ReadsRate` exceeds it with every rate above it.
* `evbuffer_prepend` leaves the bytes that fitted in front when the allocation for the others fails and -1 is returned:
  `Prepend` says which. `evbuffer_remove_buffer` does not look at the result of its inner `evbuffer_add`: how many bytes
  are lost is `EvBuffer.LostBytes` of the state before, and `LosesBytes` loses some.
* The limit of a bucket is `min(maximum, limit + n*rate)` only under the condition in `RefilledIs`.
* `time_to_tm` keeps 32 bits of the time, and leaves 365 or 366 in `tm_yday` on most 1 Januaries; `RoundTrip` has the
  exact conditions.
* `recv` loops for ever on a length of zero and never delivers a length beyond its buffer: `LoopEnds`, `TooLong`.
* A negative number of packages per callback handles none: `NothingHandled`.
* The connection limit can be exceeded, whatever it is: `LimitExceeded`. `FitsOnly` has the exact condition on the accepted
  descriptors; the plain sum of connections and those on their way is enough but not needed (`SumsBelowFit`,
  `SumTooStrict`).
* A second end event of a socket, or a receive after the first, breaks the server's books: `Ended`; the books are right in
  every state if and only if that does not happen: `OrderlyOnly`.
* That a group without tokens is suspended holds in everything that can follow if and only if its minimum share is not
  zero: `ShareDecides`. With a share of zero it gets into deficit without being suspended (`Unsuspended`), and so it does
  after a refund beyond the maximum (`RefundWraps`).

## Model

| member | source | states |
|---|---|---|
| RbTree.Head.Insert | depend/event/event2/tree.h:578-606 | a new key enters: the in-order sequence grows by exactly the element at its place, the tree is a red-black search tree with matching links again; for a key that is there the old element, possibly the given one itself, is returned and nothing changes |
| RbShape.HoleIsNew | depend/event/event2/tree.h:584-604 | where the descent ends without an element the given one is not in the tree yet |
| RbShape.KeyIsUnique | depend/event/event2/tree.h:584-594 | an element of the tree with the key of another is that other |
| RbTree.Head.InsertColor | depend/event/event2/tree.h:390-431 | from one red-red violation at the new element to a red-black tree with the same in-order sequence |
| RbTree.Head.InsertRoundLeft | depend/event/event2/tree.h:397-412 | one round below a left parent: either the violation is gone or it has moved up two levels; order kept |
| RbTree.Head.InsertRoundRight | depend/event/event2/tree.h:413-429 | the mirror case |
| RbTree.Head.RotateLeft | depend/event/event2/tree.h:335-353 | the links after the rotation spell the rotated tree in the same surroundings, the root pointer included |
| RbTree.Head.RotateRight | depend/event/event2/tree.h:355-373 | the same for the mirror rotation |
| RbTree.Head.Attach | depend/event/event2/tree.h:595-604 | a new red leaf hangs in the hole that the descent found |
| RbTree.Head.Descend | depend/event/event2/tree.h:584-594 | the descent ends at the element with the key, or at the only hole where the key keeps the order |
| RbTree.Head.Remove | depend/event/event2/tree.h:510-575 | the element leaves: the old in-order sequence is the new one with exactly this element at its place; red-black search tree with matching links again |
| RbTree.Head.RemoveOuter | depend/event/event2/tree.h:515-573 | an element with at most one child is spliced out, and the colours are repaired when it was black |
| RbTree.Head.RemoveInner | depend/event/event2/tree.h:519-558 | the successor takes the place, the colour and the links of an element with two children |
| RbTree.Head.Splice | depend/event/event2/tree.h:559-570 | the child takes the place of the element; nothing else in the links changes |
| RbTree.Head.TakeOver | depend/event/event2/tree.h:537-550 | the successor is linked in for the element, in the parent and in both children |
| RbTree.Head.Successor | depend/event/event2/tree.h:520-523 | the leftmost element of the right subtree |
| RbTree.Head.RemoveColor | depend/event/event2/tree.h:434-507 | from a subtree that is one black short to a red-black tree with the same in-order sequence |
| RbTree.Head.RemoveRoundLeft | depend/event/event2/tree.h:438-471 | one round on the left side: the missing black is found or the gap moves up |
| RbTree.Head.RemoveRoundRight | depend/event/event2/tree.h:472-504 | the mirror case |
| RbTree.Head.BelowBlackSiblingLeft | depend/event/event2/tree.h:447-471 | with a black sibling: its colour is lowered, or up to two rotations end the repair |
| RbTree.Head.BelowBlackSiblingRight | depend/event/event2/tree.h:479-504 | the mirror case |
| RbTree.Head.Laws | depend/event/event2/tree.h:389-606 | what every tree reached by the operations satisfies, said of the fields: keys sorted, parent and child links mutual, black root, no red element with a red child, the same number of black elements on every path to null, and 2^length at most (n+1)^2 for each such path |
| RbLinks.PathBlacks | depend/event/event2/tree.h:389-606 | a balanced tree of values and the links that spell it: each path through the links meets exactly its black height |
| RbLinks.SpellsRedAlone | depend/event/event2/tree.h:389-606 | the same for the rule on red elements |
| RbShape.RotatedLeftOrder | depend/event/event2/tree.h:335-353 | a left rotation keeps the in-order sequence |
| RbShape.RotatedRightOrder | depend/event/event2/tree.h:355-373 | a right rotation keeps the in-order sequence |
| RbShape.RedTopGap | depend/event/event2/tree.h:399-404 | the red-uncle case moves the violation to the grandparent without changing a black count |
| RbShape.StraightenedGap | depend/event/event2/tree.h:405-412 | the two-rotation case ends the violation and keeps every black count |
| RbShape.PlugRedBlack | depend/event/event2/tree.h:390-431 | a subtree with the right black count and colour makes the whole a red-black tree |
| RbShape.InsertedElements | depend/event/event2/tree.h:578-606 | inserting and removing change the set of elements by exactly the one |
| RbShape.BetweenSorted | depend/event/event2/tree.h:578-606 | key intervals on every subtree make the in-order sequence strictly increasing |
| RbShape.HeightBound | depend/event/event2/tree.h:389-606 | 2^height <= (number of elements + 1)^2, that is height <= 2 lg(n+1), for every red-black tree |
| RbDelete.UnderRedSiblingGap | depend/event/event2/tree.h:442-446 | a red sibling is turned into a black one and the gap stays where it was |
| RbDelete.DarkenedGap | depend/event/event2/tree.h:447-453 | lowering the sibling moves the gap up one level |
| RbDelete.OuterRedGap | depend/event/event2/tree.h:455-463 | an inner red child of the sibling becomes an outer one |
| RbDelete.RepairedRedBlack | depend/event/event2/tree.h:464-470 | the last rotation gives every path its black back |
| RbDelete.SplicedGap | depend/event/event2/tree.h:559-573 | splicing out a black element leaves a gap of one black exactly there |
| RbLinks.RotateLeftFocus | depend/event/event2/tree.h:335-353 | the link assignments of the macro, and no others, turn links that spell a tree into links that spell the rotated tree |
| RbLinks.RotateRightFocus | depend/event/event2/tree.h:355-373 | the mirror case |
| RbLinks.SpliceFocus | depend/event/event2/tree.h:561-570 | the link assignments that splice an element out |
| RbLinks.ReplaceFocus | depend/event/event2/tree.h:539-550 | the link assignments that put the successor in the place of an element |
| RbLinks.SpellsLinks | depend/event/event2/tree.h:305-318 | links that spell a tree are mutual: a child names its parent and the parent its child |
| Evbuffer.EvBuffer.constructor | depend/event/project/buffer.c:339-353 | an empty queue |
| Evbuffer.ChainNew | depend/event/project/buffer.c:154-181 | null exactly when the allocation fails; otherwise an empty chain: the least doubling of the minimum that holds the size asked for behind the header |
| Evbuffer.Chain.Align | depend/event/project/buffer.c:1694-1704 | the stored bytes move to the start and stay the same |
| Evbuffer.EvBuffer.ChainInsert | depend/event/project/buffer.c:282-311 | a chain goes to the end, in place of a lone empty one; bytes are appended and the marks repaired |
| Evbuffer.EvBuffer.Add | depend/event/project/buffer.c:1533-1616 | 0 and the bytes appended exactly if the allocation succeeds or the last chain has room, behind its data or after moving them; otherwise -1 and no byte is changed; without room, the new last chain is sized by doubling the one before |
| Evbuffer.EvBuffer.AddChain | depend/event/project/buffer.c:1585-1609 | the bytes that fit fill the last chain and the others a new one with at least twice its room, up to the bound; nothing is stored if that cannot be had |
| Evbuffer.EvBuffer.Prepend | depend/event/project/buffer.c:1619-1691 | 0 and the bytes put in front; the exact condition for -1, and the exact bytes that stay in front then: those that fitted before the allocation failed |
| Evbuffer.EvBuffer.PrependChain | depend/event/project/buffer.c:1656-1683 | the end of the data before the first chain, its beginning in a new chain |
| Evbuffer.EvBuffer.Drain | depend/event/project/buffer.c:950-1017 | exactly the first min(n, length) bytes go |
| Evbuffer.EvBuffer.DrainFront | depend/event/project/buffer.c:977-1008 | whole chains, then a part of one; last_with_datap still names the link to the last chain with data |
| Evbuffer.EvBuffer.CopyOut | depend/event/project/buffer.c:1034-1078 | the first min(n, length) bytes are copied, the rest of the target and the queue stay as they were |
| Evbuffer.EvBuffer.Remove | depend/event/project/buffer.c:1020-1032 | what is copied and what is left together are the old contents |
| Evbuffer.EvBuffer.AddBuffer | depend/event/project/buffer.c:858-902 | all bytes of the other queue go to the end, and it is empty; nothing happens for the queue itself |
| Evbuffer.EvBuffer.AppendChain | depend/event/project/buffer.c:826-838 | the lists are joined and the mark follows |
| Evbuffer.EvBuffer.CopyChain | depend/event/project/buffer.c:812-824 | the list is taken over |
| Evbuffer.EvBuffer.PrependBuffer | depend/event/project/buffer.c:904-948 | all bytes of the other queue go to the front, and it is empty |
| Evbuffer.EvBuffer.HangBefore | depend/event/project/buffer.c:840-856 | the lists are joined the other way round and the mark follows |
| Evbuffer.EvBuffer.ZeroChain | depend/event/project/buffer.c:737-745 | an empty queue |
| Evbuffer.EvBuffer.RemoveBuffer | depend/event/project/buffer.c:1083-1171 | exactly the first min(n, length) bytes leave the source; the target gets all of them at its end except the last `lost`, and their number is fixed by the state before: none if the allocation succeeds, the two buffers are one, all bytes move, or the rest behind the whole chains has room in the last of those chains (without any: in the last chain of the target); otherwise all of that rest |
| Evbuffer.LosesBytes | depend/event/project/buffer.c:1083-1171 | for any data in one chain and any proper part of it: moved to a new buffer while the allocation fails, the part is reported as moved and is in neither buffer |
| Evbuffer.WholeIs | depend/event/project/buffer.c:1117-1128 | the counting loop stops behind as many whole chains as the bytes asked for make up |
| Evbuffer.EvBuffer.TakeChains | depend/event/project/buffer.c:1130-1147 | a list of whole chains is spliced behind the data of the target |
| Evbuffer.EvBuffer.FreeTrailingEmptyChains | depend/event/project/buffer.c:264-277 | a lone empty chain is given up; the link where a new chain goes is the one after the last data |
| Evbuffer.EvBuffer.AdvanceLastWithData | depend/event/project/buffer.c:645-659 | the mark ends at the link to the last chain with data |
| Evbuffer.EvBuffer.Laws | depend/event/project/buffer.c:282-353 | what every queue reached by the operations satisfies, said of the fields: the chains from first to last by their next links hold the contents, total_len is their length, last_with_datap is the link to the last chain, which has data unless nothing is stored |
| Evbuffer.LiveIsFlat | depend/event/project/buffer.c:282-353 | the stored bytes of the chains in list order are the contents |
| EvbufferPullup.PullUp | depend/event/project/buffer.c:1173-1283 | bytes and length unchanged; null exactly for nothing to do, too many bytes, or a failed allocation where one is needed; otherwise the first n bytes lie contiguous in the first chain, and first, last and last_with_datap are right again |
| EvbufferPullup.Gather | depend/event/project/buffer.c:1243-1257 | the copying loop: whole chains behind each other, and whether the marked chain was among them |
| EvbufferPullup.PullInto | depend/event/project/buffer.c:1241-1278 | both choices of the target chain end in a valid queue with the same bytes |
| EvbufferPullup.MarkAfter | depend/event/project/buffer.c:1269-1276 | which link last_with_datap has to be after the copying |
| EvbufferPullup.RestFlat | depend/event/project/buffer.c:1245-1265 | the new first chain and what is left behind it hold the old bytes |
| EvbufferSearch.PtrMemcmp | depend/event/project/buffer.c:2456-2488 | the sign of the comparison across chains; 0 exactly if the bytes occur at the position |
| EvbufferSearch.SearchRange | depend/event/project/buffer.c:2496-2559 | the least position from the start on at which the pattern occurs and ends before the end, or -1 exactly if there is none; the start itself for an empty or oversized pattern |
| EvbufferSearch.Candidate | depend/event/project/buffer.c:2524-2537 | one round: no match before the candidate, and whether it is one |
| EvbufferSearch.Strchr | depend/event/project/buffer.c:1295-1315 | the first occurrence of a character across chains |
| EvbufferSearch.FindEolChar | depend/event/project/buffer.c:1317-1342 | searching in blocks of 128 bytes finds the first CR or LF |
| EvbufferSearch.EvFindEolChar | depend/event/project/buffer.c:1344-1364 | the first CR or LF across chains |
| EvbufferSearch.Strspn | depend/event/project/buffer.c:1366-1403 | the length of the longest run of the given characters |
| EvbufferSearch.SetPtr | depend/event/project/buffer.c:2410-2450 | the result stands at the position asked for, or nowhere exactly if that is not before the end |
| EvbufferSearch.SearchCrlf | depend/event/project/buffer.c:1450-1467 | the first LF, with an immediately preceding CR counted as part of the line end |
| EvbufferSearch.SearchEol | depend/event/project/buffer.c:1415-1488 | for each of the four styles: the first line end and its length, or -1 exactly if there is none |
| EvbufferSearch.ReadLn | depend/event/project/buffer.c:1490-1527 | null, and nothing changed, exactly without a line end or when the allocation fails; otherwise the bytes before the first line end, ended by a zero byte, and exactly those and the line end are drained |
| EvbufferSearch.EolUnique | depend/event/project/buffer.c:1434-1475 | each style has at most one first line end, so that the specification fixes the result |
| EvbufferSearch.WrittenLine | depend/event/project/buffer.c:1450-1467 | a line without LF, written with CR LF, is found again whatever follows; with a bare LF exactly if it does not end in CR |
| Flatten.FlatConcat | depend/event/project/buffer.c:826-838 | the bytes of joined lists of chains |
| Flatten.FlatDropFirst | depend/event/project/buffer.c:1003-1007 | the bytes after the front of the first chain has gone |
| TokenBucket.RefilledIs | depend/event/project/bufferevent_ratelim.c:89-101 | with 64-bit wrap-around written out: the new limit is min(maximum, limit + n*rate) if and only if the limit was at most the maximum or 2^64 + maximum - limit <= n*rate; otherwise it is the sum, wrapped round |
| TokenBucket.DueIs | depend/event/project/bufferevent_ratelim.c:72-110 | a limit within its maximum gets min(maximum, limit + n*rate), which is no less and positive after enough ticks; nothing changes for zero or more than INT_MAX ticks |
| TokenBucket.RefillTwice | depend/event/project/bufferevent_ratelim.c:72-110 | two refills in a row are one |
| TokenBucket.RefillEnds | depend/event/project/bufferevent_ratelim.c:72-110 | a limit in deficit is positive again after as many ticks as it is short of tokens |
| TokenBucket.TicksAdd | depend/event/project/bufferevent_ratelim.c:79-84 | wrapped tick differences add up |
| TokenBucket.Bucket.Init | depend/event/project/bufferevent_ratelim.c:48-70 | first set-up, or clipping when the configuration changes |
| TokenBucket.Bucket.Update | depend/event/project/bufferevent_ratelim.c:72-110 | for every limit, above its maximum too, and every tick: what is due to it; the tick is noted exactly if 1 to INT_MAX ticks have passed |
| TokenBucket.Conservation | depend/event/project/bufferevent_ratelim.c:72-110 | over every run of clock readings and charges, with any number of 32-bit wraps: charged <= initial limit + rate * ticks passed - final limit |
| TokenBucket.Balance | depend/event/project/bufferevent_ratelim.c:72-110 | the balance up to the last update that counted |
| TokenBucket.CfgNew | depend/event/project/bufferevent_ratelim.c:141-172 | null exactly for rates and bursts without 1 <= rate <= burst <= SSIZE_MAX and for a failing allocation; otherwise a configuration with just these numbers and this tick length |
| BevRateLimit.Bufferevent.GetMax | depend/event/project/bufferevent_ratelim.c:199-229 | without a group: what is due, or 0 below zero, and the bucket brought up to date with its tick noted; the constant cap holds if and only if there is no configuration or what is due - min(maximum, limit + n*rate) after 1 to INT_MAX ticks, else the limit as it was - is within it, unlike its comment |
| BevRateLimit.GetMaxTwice | depend/event/project/bufferevent_ratelim.c:199-229 | asked again in the same tick, the answer is the same and so is the bucket: no tokens come from asking |
| BevRateLimit.DueOnce | depend/event/project/bufferevent_ratelim.c:78-124 | after an update nothing more is due in the same tick |
| BevRateLimit.ReadsRate | depend/event/project/bufferevent_ratelim.c:180-260 | for every rate: a bufferevent with that rate is allowed all of it in one read, so that each rate above the constant exceeds it |
| BevRateLimit.Bufferevent.DecrementReadBuckets | depend/event/project/bufferevent_ratelim.c:279-295 | charges and refunds: suspended for bandwidth exactly when exhausted; other suspensions kept; a refill is coming unless -1 is returned; the limit stays within its maximum exactly if it does so in numbers |
| BevRateLimit.Bufferevent.DecrementWriteBuckets | depend/event/project/bufferevent_ratelim.c:317-333 | the same for writing |
| BevRateLimit.Bufferevent.DecrementReadLimit | depend/event/project/bufferevent_ratelim.c:900-925 | the same invariant for charges and refunds made by the program: suspended when the limit falls to zero or below, released when it rises above |
| BevRateLimit.Bufferevent.DecrementWriteLimit | depend/event/project/bufferevent_ratelim.c:927-954 | the same for writing |
| BevRateLimit.Bufferevent.RefillCallback | depend/event/project/bufferevent_ratelim.c:393-441 | both limits are what is due and the tick is noted; a direction is released exactly when its refilled limit is positive, which it is after enough ticks; no other suspension changes; otherwise the timer is started again |
| BevRateLimit.Bufferevent.SetRateLimit | depend/event/project/bufferevent_ratelim.c:558-635 | each branch: removal, same configuration, first set-up with the limits equal to the rates, change with the limits clipped to the new bursts; afterwards a direction is suspended exactly when exhausted, other suspensions are kept, and a throttled bufferevent has its timer |
| BevRateLimit.Bufferevent.Fire | depend/event/project/bufferevent_ratelim.c:393-396 | between the timer and its callback the refill is still coming |
| BevRateLimit.Bufferevent.UpdateBuckets | depend/event/project/bufferevent_ratelim.c:112-123 | both limits are what is due: unchanged for zero or more than INT_MAX ticks, and never less within the maximum |
| BevRateLimit.Bufferevent.DueWithin | depend/event/project/bufferevent_ratelim.c:112-123 | what is due to limits within their maxima, written out |
| RateGroup.NeverStranded | depend/event/project/bufferevent_ratelim.c:350-556 | in every interleaving, with any try-lock failing: the two group flags are never both set, and whenever the group lock is free a suspended member implies one of them |
| RateGroup.StepKeeps | depend/event/project/bufferevent_ratelim.c:731-806 | every step of suspending, unsuspending, refilling, charging from either side, adding (with its window between the two locks), removing and changing share or configuration keeps the invariant |
| RateGroup.UnsuspendCovers | depend/event/project/bufferevent_ratelim.c:486-503 | a member whose lock is held, also one that is being added, is remembered for the next refill |
| RateGroup.AddingCovers | depend/event/project/bufferevent_ratelim.c:731-776 | adding a member and suspending it after the group lock is released strands nobody |
| RateGroup.RefillReleases | depend/event/project/bufferevent_ratelim.c:527-556 | a refill with a reason to unsuspend that gets every lock leaves nobody suspended and nothing pending |
| RateGroup.FinishSuspend | depend/event/project/bufferevent_ratelim.c:350-373 | a whole suspension flags exactly the members whose locks can be had |
| RateGroup.FinishUnsuspend | depend/event/project/bufferevent_ratelim.c:486-503 | a whole unsuspension clears exactly the members whose locks can be had, and is pending exactly if there was another |
| RateGroup.RotatedMembers | depend/event/project/bufferevent_ratelim.c:466-484 | the two loops from a random member visit just the members |
| RateGroup.ShareIsReached | depend/event/project/bufferevent_ratelim.c:699-718 | the minimum share never exceeds what ticks bring, so that a suspended group gets there |
| RateGroup.ShareDecides | depend/event/project/bufferevent_ratelim.c:954-994 | from every state in which an exhausted group is suspended: it stays so in all that can follow if and only if the minimum share is not zero - among the runs that do not set it to zero and in which no refund lifts the limit above its maximum |
| RateGroup.ShareSuspends | depend/event/project/bufferevent_ratelim.c:525-556 | in every run with a minimum share above zero a limit of zero or less means that the group is suspended |
| RateGroup.ZeroShareReleases | depend/event/project/bufferevent_ratelim.c:542-544 | with a share of zero, from every state: a continuation to a group that is at zero and not suspended |
| RateGroup.Unsuspended | depend/event/project/bufferevent_ratelim.c:957-974 | from a new group of any configuration: a run to a deficit without suspension, by the function that suspends only when the limit was positive before |
| RateGroup.RefundWraps | depend/event/project/bufferevent_ratelim.c:89-93 | the condition on refunds is needed: after a refund beyond the maximum one tick wraps the limit round to a deficit, whatever the share |
| RateLimitGroup.Group.constructor | depend/event/project/bufferevent_ratelim.c:637-666 | limits equal to the rates, the share 64 clipped, nobody suspended, the timer pending if it could be added |
| RateLimitGroup.Group.SuspendReading | depend/event/project/bufferevent_ratelim.c:350-373 | the loop over the members: just those whose locks can be had get the flag |
| RateLimitGroup.Group.SuspendWriting | depend/event/project/bufferevent_ratelim.c:375-391 | the same for writing |
| RateLimitGroup.Group.UnsuspendReading | depend/event/project/bufferevent_ratelim.c:466-503 | the two loops over the members: each one is visited once; pending exactly if a lock could not be had |
| RateLimitGroup.Group.UnsuspendWriting | depend/event/project/bufferevent_ratelim.c:505-522 | the same for writing |
| RateLimitGroup.Group.ChargeRead | depend/event/project/bufferevent_ratelim.c:297-307 | the group is suspended exactly if exhausted and released if it was; with tokens left and no suspension before nothing changes; the lockable members follow and the others stay; an unsuspension stays pending after a release if and only if some member could not be locked; the total grows by the charge |
| RateLimitGroup.Group.ChargeWrite | depend/event/project/bufferevent_ratelim.c:335-345 | the same for writing |
| RateLimitGroup.Group.DecrementRead | depend/event/project/bufferevent_ratelim.c:956-974 | charged by the program: suspended when the limit falls to zero or below, released when it rises above, and as it was otherwise |
| RateLimitGroup.Group.DecrementWrite | depend/event/project/bufferevent_ratelim.c:976-994 | the same for writing |
| RateLimitGroup.Group.RefillCallback | depend/event/project/bufferevent_ratelim.c:525-556 | both directions: the limits are what is due and the tick is noted; suspended afterwards exactly if it was and the limit is still below the minimum share; with a share above zero an exhausted direction stays suspended; each member keeps its other suspensions |
| RateLimitGroup.Group.ReleaseReading | depend/event/project/bufferevent_ratelim.c:525-556 | the reading half of the callback: which members are released, and what stays pending |
| RateLimitGroup.Group.ReleaseWriting | depend/event/project/bufferevent_ratelim.c:525-556 | the writing half |
| RateLimitGroup.Group.SetMinShare | depend/event/project/bufferevent_ratelim.c:699-718 | the configured share, clipped to both rates; -1 and no change above SSIZE_MAX; the invariant is kept |
| RateLimitGroup.Group.SetCfg | depend/event/project/bufferevent_ratelim.c:668-697 | -1 and no change without a configuration; otherwise limits clipped to the new maxima, share adjusted, the timer started again exactly for another tick length |
| RateLimitGroup.GetMax | depend/event/project/bufferevent_ratelim.c:199-260 | the smaller of what is due to the bufferevent and its share of the group, 0 below zero, and its bucket brought up to date; a member of a suspended group suspends itself; the constant cap holds exactly if one of the two is within it |
| RateLimitGroup.GetMaxTwice | depend/event/project/bufferevent_ratelim.c:199-260 | asked again in the same tick by a member, in the same state of its group, the answer is the same |
| RateLimitGroup.TruncDivIs | depend/event/project/bufferevent_ratelim.c:247-252 | the share is the quotient towards zero of limit and number of members |
| RateLimitGroup.DecrementReadBuckets | depend/event/project/bufferevent_ratelim.c:274-310 | bufferevent and group together: each is charged and suspended exactly if exhausted, neither disturbs the flags of the other, and of the other members just those that the group suspends or releases change |
| RateLimitGroup.DecrementWriteBuckets | depend/event/project/bufferevent_ratelim.c:312-348 | the same for writing |
| WakeQueue.NoLostWakeUp | libsocket/ServerSocketIOThread.cpp:40-204 | from the start, in every interleaving of pushes, sends and the consumer: a non-empty queue has a wake-up byte, a producer about to send one, or a consumer before its final look; handled packages followed by queued ones are the pushed ones |
| WakeQueue.StepKeeps | libsocket/ServerSocketIOThread.cpp:40-204 | each step of a producer or the consumer keeps that invariant |
| WakeQueue.RunKeeps | libsocket/ServerSocketIOThread.cpp:40-204 | and so does every run, from any state that has it |
| WakeQueue.BoundedCallback | libsocket/ServerSocketIOThread.cpp:101-110 | one callback handles at most dealCount + 1 packages |
| WakeQueue.AllHandled | libsocket/ServerSocketIOThread.cpp:90-204 | without further pushes every run ends, and one that cannot go on has handled every package once and in order |
| WakeQueue.NothingHandled | libsocket/ServerSocketIOThread.cpp:101-102 | with a negative bound nothing is ever handled |
| WakeQueue.PackageQueue.PairCallback | libsocket/ServerSocketIOThread.cpp:90-204 | the loop as a method: what was handled and what is left are the old queue and what came in, in order; the wake-up bytes are taken out and those left are counted exactly; it does what one run of the step machine does that begins with a wake-up |
| WakeQueue.PackageQueue.Asyn | libsocket/ServerSocketIOThread.cpp:51-57 | push, then wake, which fails exactly when the socket pair is full |
| Lifecycle.Safe | libsocket/ServerSocket.cpp:166-337 | after every run with at most one end event per socket and nothing received after it: count = number of agents, every queued package names something that still exists, an announced socket meets no old agent, and what a socket reports finds its agent |
| Lifecycle.OrderlyOnly | libsocket/ServerSocket.cpp:198-324 | for every run: in each of its states the main thread can handle what is queued, finding every agent it looks for and ending with the right count, if and only if no socket reports anything after its end |
| Lifecycle.StepKeeps | libsocket/ServerSocketIOThread.cpp:90-204 | each step of the main thread, of the IO threads and of their events keeps the invariant |
| Lifecycle.MainAcceptKeeps | libsocket/ServerSocket.cpp:225-248 | announcing a socket |
| Lifecycle.MainCloseKeeps | libsocket/ServerSocket.cpp:288-312 | the agent goes, the close travels back to the IO thread |
| Lifecycle.IoAcceptKeeps | libsocket/ServerSocketIOThread.cpp:114-148 | a descriptor becomes a socket, or is leaked when its bufferevent cannot be made |
| Lifecycle.IoCloseKeeps | libsocket/ServerSocketIOThread.cpp:168-182 | the socket is deleted and its descriptor closed only after the agent has gone |
| Lifecycle.QueuedIsLive | libsocket/ServerSocketIOThread.cpp:90-204 | no package outlives what it names |
| Lifecycle.Quiescent | libsocket/ServerSocket.cpp:166-337 | with all queues empty each live socket has its agent, and other open descriptors are leaked ones |
| Lifecycle.Ended | libsocket/ServerSocket.cpp:249-312 | in every reachable state, whatever is queued: a socket that has raised its end has no agent left once the queue is empty, so that what it then receives finds none, on which the source calls a method; and another end makes the count one less than the agents and sends the socket to be deleted twice |
| Lifecycle.EndedRun | libsocket/ServerSocket.cpp:166-312 | a run to such a state |
| ConnectionLimit.WithinLimit | libsocket/ServerSocket.cpp:166-248 | in every run in which each accepted descriptor fits, counting what is on its way, the number of connections never exceeds the limit |
| ConnectionLimit.FitsOnly | libsocket/ServerSocket.cpp:166-248 | for every run: no state of it can lead to more connections than the limit, with what has been accepted until then, if and only if each accepted descriptor fits |
| ConnectionLimit.PeakIsReached | libsocket/ServerSocket.cpp:178-248 | in every reachable state: the highest number of connections it can still lead to without a further descriptor is the peak over the queued packages |
| ConnectionLimit.SumsBelowFit | libsocket/ServerSocket.cpp:178-184 | it is enough that connections, waiting descriptors and announced sockets together are below the limit at each accepted descriptor |
| ConnectionLimit.SumTooStrict | libsocket/ServerSocket.cpp:178-184 | a run that shows that this is not needed: a queued close package makes room in time |
| ConnectionLimit.LimitExceeded | libsocket/ServerSocket.cpp:178-184 | for every limit: a burst of one descriptor more is accepted before the first is counted, and exceeds it |
| Lifecycle.BatchIsSteps | libsocket/ServerSocket.cpp:211-319 | a batch of packages handled in the loop is that many steps of the main thread |
| Lifecycle.BatchReady | libsocket/ServerSocket.cpp:211-319 | in every reachable state all that is queued can be handled |
| Lifecycle.ServerSocket.AcceptCallback | libsocket/ServerSocket.cpp:166-196 | the next IO thread in turn gets the descriptor, or it is closed again |
| Lifecycle.InTurn | libsocket/ServerSocket.cpp:166-196 | descriptors accepted one after the other, with room: the one with the number i goes to the thread (current + i) modulo the number of threads, each thread getting its own in order of acceptance |
| Lifecycle.OneEach | libsocket/ServerSocket.cpp:166-196 | as many descriptors as threads: each thread gets exactly one, and the next turn is again the first thread |
| Lifecycle.ServerSocket.DeleteAgent | libsocket/ServerSocket.cpp:395-410 | the entry goes |
| Lifecycle.ServerSocket.PairCallback | libsocket/ServerSocket.cpp:198-324 | with packages coming in before each look at the queue: what was handled and what is left are the old queue and what came in, in order; n+1 packages are handled or none is left; it wakes itself exactly if some are left |
| ClientIo.ClientIOSocket.Recv | libsocket/ClientIOSocket.cpp:150-198 | the packets delivered and the bytes kept are the cut of what was kept and what was read; requires only that no header of length zero comes up, which is exactly when the loop ends |
| ClientIo.ClientIOSocket.ExpandSendBuf | libsocket/ClientIOSocket.cpp:115-127 | stored exactly if the sum stays below the buffer size; requires a sum that does not wrap, since after a wrap the copy would leave the buffer |
| ClientIo.ClientIOSocket.ConsumeSendBuf | libsocket/ClientIOSocket.cpp:129-137 | what was buffered is sent and the buffer is empty |
| ClientIo.ClientSocketIOThread.PairCallback | libsocket/ClientSocketIOThread.cpp:93-168 | with packages coming in before each look at the queue: each socket gets the payloads of the handled packages in queue order, without those that do not fit an empty buffer; every connect package makes a socket; every send buffer is empty at the end |
| ClientIo.ClientSocketIOThread.Dispatch | libsocket/ClientSocketIOThread.cpp:117-152 | each kind of package keeps what is buffered accounted for |
| ClientIo.ClientSocketIOThread.MakeSocket | libsocket/ClientSocketIOThread.cpp:117-127 | a socket of its own with empty buffers |
| ClientIo.ClientSocketIOThread.Deal | libsocket/ClientSocketIOThread.cpp:128-147 | also when the overflow branch leaves the list alone: a non-empty buffer belongs to a listed socket |
| ClientIo.ClientSocketIOThread.Flush | libsocket/ClientSocketIOThread.cpp:155-162 | after the last loop nothing is buffered |
| ClientIo.AllSent | libsocket/ClientSocketIOThread.cpp:93-168 | with payloads below the buffer size that is the concatenation of all payloads |
| ClientIo.SentSplit | libsocket/ClientSocketIOThread.cpp:93-168 | batches add up |
| ClientIo.ReceiveAll | libsocket/ClientIOSocket.cpp:150-198 | all reads of a connection on the real buffer: whatever the split, exactly the packets that were sent are delivered, in order |
| PacketStream.AnySplit | libsocket/ClientIOSocket.cpp:150-198 | however a stream of packets is split into reads: after each read the buffer holds the undelivered remainder and has room left, and in the end just these packets have been delivered |
| PacketStream.TwoParts | libsocket/ClientIOSocket.cpp:150-198 | cutting in two parts gives what cutting at once gives |
| PacketStream.CutStream | libsocket/ClientIOSocket.cpp:150-198 | a stream of packets is cut into these packets |
| PacketStream.NothingLost | libsocket/ClientIOSocket.cpp:150-198 | packets and remainder together are the stream |
| PacketStream.RoomLeft | libsocket/ClientIOSocket.cpp:150-198 | a first part of a stream of packets leaves room for a further byte |
| PacketStream.LoopEnds | libsocket/ClientIOSocket.cpp:161-189 | the loop ends if and only if it comes to no header of length zero |
| PacketStream.TooLong | libsocket/ClientIOSocket.cpp:150-198 | behind a header longer than the buffer no sequence of reads that fit in makes anything be delivered; the buffer just fills |
| PacketStream.FullOnly | libsocket/ClientIOSocket.cpp:150-198 | the buffer is full after a call only behind such a header |
| Calendar.TimeToTm | libbase/Utils.cpp:86-181 | the date is the one that counting days from 1 January 1970 reaches; time of day, weekday and tm_yday, with its carried value on 1 January |
| Calendar.FindYear | libbase/Utils.cpp:113-130 | the year in a block of four and the days left, never past the fourth |
| Calendar.FindMonth | libbase/Utils.cpp:137-171 | the month and the day in it, month 12 only for the day after the last |
| Calendar.TmToTime | libbase/Utils.cpp:182-211 | days to the date and seconds in it, with the divisions of C; the fallback exactly for a day beyond the end of its month |
| Calendar.RoundTrip | libbase/Utils.cpp:86-211 | tm_to_time undoes time_to_tm if and only if the time is below 2^32; the weekdays agree; tm_yday agrees if and only if the date was not carried over |
| Calendar.BackIs | libbase/Utils.cpp:86-211 | the arithmetic of the round trip |
| Calendar.CountingIs | libbase/Utils.cpp:191-197 | the day formula counts the days that the calendar, one day after the other, needs |
| Calendar.DateIs | libbase/Utils.cpp:191-197 | a valid date is determined by its day number |
| Calendar.DateNumberOrder | libbase/Utils.cpp:259-265 | for any two times the date numbers are ordered exactly as the day numbers are |
| Calendar.DateNumberGrows | libbase/Utils.cpp:259-265 | the date number never falls while the time is below 2^32 |
| Calendar.DateNumberFalls | libbase/Utils.cpp:259-265 | it falls in every second in which the 32 bits wrap round |
| Calendar.DateNumberDigits | libbase/Utils.cpp:259-265 | the decimal digits of the date number are year, month and day |
| Sha1.HashPieces | libbase/sha1.cpp:174-211 | a message fed in any pieces gives the digest of FIPS PUB 180-1 on the whole if it has less than 2^64 bits, and is corrupted otherwise |
| Sha1.SHA1.Reset | libbase/sha1.cpp:99-113 | ready for a new message |
| Sha1.SHA1.Input | libbase/sha1.cpp:174-211 | the octets join the message; corrupted exactly after a result or at 2^64 bits |
| Sha1.SHA1.CountOctet | libbase/sha1.cpp:191-201 | the two length words count bits with carry; corrupted exactly at 2^64 |
| Sha1.SHA1.PadMessage | libbase/sha1.cpp:520-565 | one block or two: what has been processed then is the padded message |
| Sha1.SHA1.Result | libbase/sha1.cpp:133-154 | the digest of all that went in, as often as asked, false if corrupted |
| Sha1.SHA1.ProcessMessageBlock | libbase/sha1.cpp:410-497 | the four loops compute the compression function of section 7 |
| Sha1.SHA1.Expand | libbase/sha1.cpp:424-436 | the word sequence |
| Sha1.Roots | libbase/sha1.cpp:412-417 | the four constants are the square roots of 2, 3, 5 and 10 with thirty binary places, each for its quarter of the rounds |
| Sha1.OneBlock | libbase/sha1.cpp:540-549 | padding when the length fits behind the message |
| Sha1.TwoBlocks | libbase/sha1.cpp:527-539 | padding when it does not |
| Sha1.LengthWords | libbase/sha1.cpp:554-561 | the eight length octets from the two words |
| Sha1.HashMore | libbase/sha1.cpp:410-497 | processing one more block |
| Sha1.ShiftedDigit | libbase/sha1.cpp:586-589 | the circular shift moves every binary digit to its place |
| Sha1.BitwiseDigit | libbase/sha1.cpp:447-487 | the bitwise operations act on each binary digit |
| Sha1.PaddingInjective | libbase/sha1.cpp:520-565 | different messages stay different when padded |
| Sha1.LengthDecoded | libbase/sha1.cpp:554-561 | the length can be read off a padded message |
| Sha1Example.Abc | libbase/sha1.cpp:410-497 | the example of FIPS PUB 180-1, appendix A: the digest of "abc" is A9993E36 4706816A BA3E2571 7850C26C 9CD0D89D |
| Sha1Example.NextRound | libbase/sha1.cpp:447-487 | one round on native vectors gives the word buffers of the next one |
| Sha1Example.NextWord | libbase/sha1.cpp:433-436 | one word of the sequence on native vectors |
| Sha1Native.AndIs | libbase/sha1.cpp:447-487 | And on the numbers of vectors is the native operation, for all 32-bit vectors |
| Sha1Native.OrIs | libbase/sha1.cpp:447-487 | the same for Or |
| Sha1Native.XorIs | libbase/sha1.cpp:447-487 | the same for Xor |
| Sha1Native.NotIs | libbase/sha1.cpp:447-487 | the same for the complement |
| Sha1Native.LeftIs | libbase/sha1.cpp:586-589 | shifting left drops the same digits, by any number of places |
| Sha1Native.RightIs | libbase/sha1.cpp:586-589 | the same for shifting right |
| Sha1Native.ByOne | libbase/sha1.cpp:586-589 | the circular shift by 1 is the native one |
| Sha1Native.ByFive | libbase/sha1.cpp:586-589 | the circular shift by 5 |
| Sha1Native.ByThirty | libbase/sha1.cpp:586-589 | the circular shift by 30 |
| Sha1Native.FIs | libbase/sha1.cpp:447-487 | the functions of the four quarters on native vectors |
| Sha1Native.ValIs | libbase/sha1.cpp:410-436 | the number of a vector is that of its four bytes |
| MallocManager.FixSize | libbase/MallocManager.cpp:164-193 | at least the size, and less than twice it above 8 |
| MallocManager.PowerOfTwo | libbase/MallocManager.cpp:164-193 | up to 8192 bytes the class is the least power of two from 8 on that holds them; beyond there is one class more, then the size itself |
| MallocManager.Classes | libbase/MallocManager.cpp:164-193 | a class is its own class; classes grow with the size |
| MallocManager.GetCount | libbase/MallocManager.cpp:195-200 | as many blocks as fit into the largest pooled size |
| MallocManager.MallocManager.Malloc | libbase/MallocManager.cpp:52-93 | a pointer that is none of the live ones, to a block of the class size, at least as large as asked for and all zero; a class below the largest pooled size comes from its pool - the first free block, or the first of one new piece of memory when none is free - and no other pool changes; a larger one is a piece of its own |
| MallocManager.MallocManager.Free | libbase/MallocManager.cpp:95-129 | false and nothing changed exactly for a pointer that is not live; otherwise just that one stops being live, a pooled block goes to the end of the free list of its pool, and the other live blocks keep their bytes |
| MallocManager.MallocManager.Avail | libbase/MallocManager.cpp:139-150 | true exactly for live pointers |
| MallocManager.MallocManager.LiveApart | libbase/MallocManager.cpp:52-150 | live blocks lie within their memory and do not overlap |
| MallocManager.MallocManager.Write | libbase/MallocManager.cpp:52-150 | a caller writing into a live block disturbs nothing, the zeroed free blocks included |
| MallocPool.MallocPool.DoExpand | libbase/MallocPool.cpp:53-77 | one new piece of memory is cut into its blocks in order, all free and zero; the counters follow |
| MallocPool.MallocPool.Malloc | libbase/MallocPool.cpp:24-39 | the first free block, all zero, becomes live; when there is none, the first of a new piece of memory |
| MallocPool.MallocPool.Free | libbase/MallocPool.cpp:41-51 | false and no change for null; otherwise the block is cleared and free again, at the end of the list; bytes outside it stay |
| MallocPool.PartitionExpand | libbase/MallocPool.cpp:53-77 | the blocks of a pool stay divided into free ones, each once, and live ones |
| MallocPool.PartitionTake | libbase/MallocPool.cpp:24-39 | the same when a block is taken |
| MallocPool.PartitionFree | libbase/MallocPool.cpp:41-51 | the same when a block comes back |
| MallocPool.PoolApart | libbase/MallocPool.cpp:67-72 | different blocks of a pool do not overlap |

## Left out

- Sockets, event loops and their backends, logging, configuration files, system monitoring and thread creation: I/O or foreign calls.
- In `buffer.c`: locking, callbacks and their counters, freezing, pinned, mapped, sendfile and reference chains, `evbuffer_expand`, reserve, commit and read. A queue with trailing empty chains from those is outside `Valid()`.
- Freed chains, tree elements and big blocks stay allocated in the model; that nothing reaches them is not stated, except for connections.
- `evbuffer_chain_new` and sums of lengths are not checked for overflow of `size_t`.
- `evbuffer_find`, `evbuffer_readline` and `evbuffer_peek`: they only combine or repeat what is modelled.
- RB_FIND, RB_NEXT, RB_MINMAX and the splay tree of `tree.h`; augmentation; comparison functions other than on integer keys.
- Writing in the interleaved steps of `RateGroup`: the same text as for reading with other fields; `RateLimitGroup` has both.
- Adding to and removing from a group are steps of `RateGroup` and not methods of `RateLimitGroup.Group`. `bufferevent_rate_limit_group_set_min_share` takes no lock; it is one atomic step, possible at any time.
- A negative tick length, and `ev_token_bucket_get_tick` and clock reads: the tick is a parameter.
- Lifecycle: `closeByLogic`, a failing `accept`, and the order in which a callback of the program runs within the handling of its package. In `Lifecycle.ServerSocket.PairCallback` the queues of the IO threads only grow while it runs; the steps of `Lifecycle` have all interleavings.
- ClientIo.ClientIOSocket.ExpandSendBuf: sums of 2^32 bytes and more, after which the source writes outside its buffer.
- ClientIo: the connecting itself, its report to the client's main thread, and reconnecting.
- MallocPool.MallocPool.Free: a foreign pointer, which the manager never passes on, would be cleared and listed.
- ServerIOSocket: its framing always reads the header at the start of the buffer; WebSocket framing.
- The send list of the server's IO thread, where a socket may be closed in the same batch.
- Calendar.TmToTime: the result of `mktime` is a parameter. Negative times are excluded from `Calendar.TimeToTm`.
- `getTimeString` and the other formatting functions of `Utils.cpp`; base64; `FreeQueue.h`.
- Sha1: words are numbers below 2^32 and the bitwise operations go through their binary digits (`BitwiseDigit`, `ShiftedDigit`); `Sha1Native` has the native operations for all vectors, and sums of them only through their numbers.
- The record of callers under `_TEST_MEM_`, and the destructors of pool and manager.
