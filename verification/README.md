# Verified models of libuv's core and of bubbletea's input reader

This project models, in Dafny, the parts of two vendored libraries that carry the most
state and the most delicate arithmetic, and proves what they promise.

* **The worker pool** (`ThreadPool`, `ThreadPoolProofs`, `ThreadPoolWork`, `ThreadPoolOrder`,
  `Queues`, `PoolLinks`, `ThreadPoolCode`). A transition system with one action per critical
  section: submission, the worker's section under the global mutex, the call of the work
  function, the section under the loop's mutex, both halves of a cancellation with the gap
  between them, delivery, shutdown, and wake-ups that are signalled or spurious. The theorems
  hold for every interleaving of any number of workers, loops and requests. A request submitted
  again is a new request, whose node may be that of one whose `done` has been called. The class
  `Pool` performs the same actions on the program's own variables and rings: where the source
  tests a link or goes from a node to its request, the code does, and the sequences and flags of
  the transition system are proved to agree with the links.
* **Timers** (`Nodes`, `HeapLinks`, `HeapOrder`, `TimerHeap`, `Ring`, `TimerSpec`, `TimerLaws`,
  `Timers`). A pointer heap and pointer rings that share the union inside each timer, rewritten in
  place. `TimerSpec` says what each operation does to a loop as a value and what a pass of
  `uv__run_timers` does whatever its callbacks do; `TimerLaws` says what that means for a timer's
  fields; `Timers.Loop` performs it on the pointers.
* **Walking handles** (`Walk`), over the same rings.
* **Host names** (`Arithmetic`, `Punycode`, `IdnaLabel`, `IdnaRefusal`, `Utf8`, `Utf8Laws`,
  `IdnaHost`, `IdnaLaws`). The one-pass Punycode encoder with its bounded buffer and overflow
  tests, against the decoder of section 6.2 of RFC 3492 and sample strings.
* **WTF-8 and UTF-16** (`Wtf8`, `Wtf8Laws`, `Wtf8Code`). Both converters and both length functions.
* **Internet addresses** (`Inet4`, `Inet6`, `Inet6Grammar`, `InetCode`). Printer and parser, and
  the exact set of texts that are accepted.
* **The fallback barrier** (`Barrier`), as a state machine with a history of entries and
  returns.
* **Terminal input** (`Tokenizer`, `TokenizerLaws`, `TokenizerCode`). How reads are cut into
  messages, and which bytes give which message.

Integers are unbounded in Dafny. Where the width matters it is written out: the 64-bit timer
deadline, the 32-bit `delta` of the Punycode encoder, the `unsigned` counters of the barrier,
16-bit units and bytes. Calls into code that is not modelled are parameters: which sleepers a
signal wakes, what a callback does, what a read returns.

`Common` and `Sequences` hold what several models share.

Findings that are proved rather than avoided:

* Cutting the last node off the heap already clears the root, so the branch of `heap_remove`
  that clears `heap->min` again never applies (`TimerHeap.Heap.Remove`).
* `inet_ntop6` means to print an embedded IPv4 address after seven zero words, but then word 6
  is inside the compressed run and the test is never reached (`InetCode.SevenZerosNeverEmbed`);
  `Inet6.DotIffEmbedded` says exactly when it prints one.
* `uv__idna_toascii_label` returns the length of an ASCII label as an `int`, so a name with an
  ASCII label of 2^31 or more characters is refused with a code that is none of libuv's
  (`IdnaHost.RefusedLabels`, with an input in `IdnaHost.LongNameRefused`).
* Whether `UV_E2BIG` refuses a label is decided by the places and values of its code points
  (`IdnaRefusal.RefusedExactly`). No label of up to 3855 code points is refused; one of 3856 can
  be (`IdnaRefusal.ShortLabelsAccepted`, `IdnaRefusal.LongerLabelRefused`).
* `uv__utf8_decode1` tests continuation bytes by their exclusive or, so that some ill-formed
  sequences pass, and reads a lead byte with too few bytes behind it as one that announces fewer.
  `Utf8Laws.TwoExactly`, `ThreeExactly` and `FourExactly` say exactly what is accepted,
  `Utf8Laws.WellFormedExactly` when that is UTF-8, with an input in `Utf8Laws.IllFormedAccepted`.
* `uv__wtf8_decode1` accepts overlong forms of three and four bytes; two of them stand for NUL
  (`Wtf8.FormsAreEncodings`, `Wtf8.ZeroForms`). The units that a string is converted to hold a
  NUL before their end if and only if it has one of these two (`Wtf8.NulBeforeEnd`, with an input
  in `Wtf8.NulBeforeEndExample`).
* `uv_wtf8_to_utf16` stops at an assertion on U+10FFFF, a valid code point; among the strings
  that decode, given their exact length, these are the only ones (`Wtf8.TopPoint`,
  `Wtf8Code.ToUtf16`).
* After `UV_ENOBUFS`, `uv_utf16_to_wtf8` reports too large a length exactly when a non-empty
  buffer was too short for the first character (`Wtf8Code.Fill`).
* The comment in `readAnsiInputs` says that a message cut by the end of the buffer is retried
  with the next read. For text this holds if and only if the buffer ends between two
  characters; otherwise the character is reported as unknown bytes (`Tokenizer.FullBuffer`,
  with an input in `Tokenizer.FullBufferExample`).
* A bracketed paste does not survive every split into reads. Once the reader has come to its first
  byte, it does if and only if the opening sequence is at hand, or ESC or ESC [ (which are
  no keys) ends a full buffer and the next read brings the rest of the opening sequence
  (`Tokenizer.PasteSurvivesReads`, with a split that it survives in `Tokenizer.CutOpeningKept`).
  The reader need not come to its first byte: after an escape character, ESC ESC is a key that
  takes it (`Tokenizer.EscapeSpoilsPaste`).

`dafny verify dfyconfig.toml` checks everything.

## Model

| member | source | states |
|---|---|---|
| ThreadPoolProofs.StepKeeps | reference/libuv-1.x/src/threadpool.c:57-161 | every action of the pool, whoever performs it, keeps the invariant that ties queues, workers, requests, counters and logs to one place per request |
| ThreadPoolProofs.RunKeeps | reference/libuv-1.x/src/threadpool.c:57-332 | the invariant holds after every interleaving of any length |
| ThreadPoolProofs.ExactlyOnePlace | reference/libuv-1.x/src/threadpool.c:57-140 | in every reachable state a submitted request is in exactly one of: the shared queue, the slow queue, one worker, a cancellation's gap, a loop's queue, the queue being delivered, delivered; and once there; nothing else is anywhere |
| ThreadPoolProofs.DoneIsFinal | reference/libuv-1.x/src/threadpool.c:282-332 | `done` is called at most once, the work function at most once, and `done` reports UV_ECANCELED exactly when the work function has not run and never will, however the run goes on |
| ThreadPoolProofs.CancelAnswerIsFinal | reference/libuv-1.x/src/threadpool.c:282-306 | after `uv_cancel` answers 0 the work never runs and `done` reports a cancellation; after UV_EBUSY it is never cancelled; no worker ever calls the aborting stub |
| ThreadPoolProofs.CallAborts | reference/libuv-1.x/src/threadpool.c:49-123 | calling NULL or uv__cancelled aborts, calling the function of the request does not; each call is logged |
| ThreadPoolProofs.SlowWorkBounded | reference/libuv-1.x/src/threadpool.c:45-118 | whenever the mutex is free: slow_io_work_running is the number of workers on slow work and at most (nthreads + 1) / 2, idle_threads is the number of waiting workers, the token is queued at most once, its self-link test is exact, and pending slow work implies that it is queued |
| ThreadPoolProofs.NoLostWakeup | reference/libuv-1.x/src/threadpool.c:72-86 | no reachable state has a live worker and something to do while every live worker sleeps without a signal |
| ThreadPoolProofs.NeverStuck | reference/libuv-1.x/src/threadpool.c:72-161 | while a request, slow work or the exit message is queued and a worker is left, some worker can take a step, even at the slow threshold |
| ThreadPoolWork.WorkConserving | reference/libuv-1.x/src/threadpool.c:72-161 | until shutdown, and while any worker sleeps, there are at least as many workers signalled or on their way to the queue as requests in it, and one more if slow work is pending and fewer than the threshold are on it |
| ThreadPoolProofs.ShutdownChain | reference/libuv-1.x/src/threadpool.c:81-86 | once exit_message heads the queue it stays there under every action; a worker's next section makes it leave, changes no queue, and wakes a sleeper if there is one |
| ThreadPoolProofs.ResultsAreAnnounced | reference/libuv-1.x/src/threadpool.c:125-130 | a result queued at a loop always has an async wake-up of that loop pending |
| ThreadPoolProofs.ChooseEffect | reference/libuv-1.x/src/threadpool.c:72-118 | a worker's section sleeps only with nothing to do, leaves exactly for the exit message at the head, takes exactly one request, starts slow work only below the threshold, and keeps the token queued while slow work is pending |
| ThreadPoolOrder.TakesFirst | reference/libuv-1.x/src/threadpool.c:67-118 | a section takes the first request of the shared queue, or of the slow queue; it signals exactly when it leaves or slow work is left, and then the token is queued again |
| ThreadPoolOrder.SectionWakes | reference/libuv-1.x/src/threadpool.c:81-118 | a section wakes sleepers only if its worker leaves, or if slow work is left and a worker is idle, and does nothing else to other workers |
| ThreadPoolOrder.SubmitWakes | reference/libuv-1.x/src/threadpool.c:143-161 | post() wakes sleepers exactly if a worker is idle, and nobody for slow work whose token is queued already |
| ThreadPoolOrder.SubmittedLast | reference/libuv-1.x/src/threadpool.c:143-161 | a request is queued behind all that wait in its queue |
| ThreadPoolOrder.FirstComeFirstServed | reference/libuv-1.x/src/threadpool.c:57-161 | in every run, a request behind another in the shared or the slow queue is not taken while the other still waits there |
| ThreadPoolOrder.DeliveredInOrder | reference/libuv-1.x/src/threadpool.c:309-332 | in every run, of two results at a loop that nobody takes back, the one queued first is delivered first |
| ThreadPoolCode.Pool.Post | reference/libuv-1.x/src/threadpool.c:143-161 | performs the posting step of the transition system, links the node into the right ring, and decides by the token's self-link test |
| ThreadPoolCode.Pool.WorkSubmit | reference/libuv-1.x/src/threadpool.c:266-276 | performs the Submit action, for a node at any address not in use; those of done requests are free again |
| ThreadPoolCode.Pool.PostExit | reference/libuv-1.x/src/threadpool.c:168-177 | performs the Shutdown action |
| ThreadPoolCode.Pool.NextRequest | reference/libuv-1.x/src/threadpool.c:67-118 | the worker's loop, on the links, terminates and computes the closed form Choose of the shared variables, whichever way the token sends it round |
| ThreadPoolCode.Pool.WorkerSection | reference/libuv-1.x/src/threadpool.c:66-139 | from locking the global mutex to releasing it, counters and signals included, the worker performs the Section action |
| ThreadPoolCode.Pool.QueueOutcome | reference/libuv-1.x/src/threadpool.c:125-130 | performs the Finish action: the result is linked into the ring of the request's own loop and announced |
| ThreadPoolCode.Pool.CancelFirstHalf | reference/libuv-1.x/src/threadpool.c:285-297 | answers by the self-link test and the NULL test, removes the node by its own links from whichever ring it is in, and performs the CancelBegin action |
| ThreadPoolCode.Pool.CancelSecondHalf | reference/libuv-1.x/src/threadpool.c:299-305 | links the removed node into the loop's ring and performs the CancelEnd action |
| ThreadPoolCode.Pool.WorkDone | reference/libuv-1.x/src/threadpool.c:309-332 | whatever callbacks and other threads do meanwhile, the call is a run of the pool that begins with Drain, counts its deliveries and leaves none waiting; of the results queued at its start it delivers exactly those that no uv_cancel takes back during the call, and those taken back wait at the loop for the next call |
| ThreadPoolCode.Pool.Perform | reference/libuv-1.x/src/threadpool.c:57-332 | every action of the transition system, performed on variables and rings, keeps the two in agreement and the invariant |
| ThreadPoolCode.Pool.constructor | reference/libuv-1.x/src/threadpool.c:224-226 | the initial state of the transition system, with empty rings and a token that links to itself |
| ThreadPoolCode.Pool.LinkTest | reference/libuv-1.x/src/threadpool.c:148 | uv__queue_empty on the node of the token or of a request is false exactly while it is linked, a node only removed included |
| ThreadPoolCode.Pool.NothingToDo | reference/libuv-1.x/src/threadpool.c:72-75 | the wait predicate, tested on the links of the queue's head and of the token, is the one on the queue's contents |
| ThreadPoolCode.Pool.DoneOne | reference/libuv-1.x/src/threadpool.c:324-331 | takes the first result by the links, performs the Done action, and frees exactly the node of that request for another submission |
| Queues.Rings.SelfLink | reference/libuv-1.x/src/queue.h:32-34 | of all nodes, in any of the rings, removed or initialised, exactly the initialised ones link to themselves |
| Queues.Rings.Append | reference/libuv-1.x/src/queue.h:77-83 | appends to one ring and leaves every other ring and loose node alone |
| Queues.Rings.Remove | reference/libuv-1.x/src/queue.h:85-88 | removes a node from the ring it is in and leaves it stale, not linked to itself |
| Queues.Rings.MoveAll | reference/libuv-1.x/src/queue.h:62-67 | moves one ring to another among many |
| PoolLinks.MoveMirrors | reference/libuv-1.x/src/threadpool.c:319 | moving a loop's ring moves its contents, and every self-link test stays right |
| TimerHeap.Heap.SwapNodes | reference/libuv-1.x/src/heap-inl.h:72-104 | heap_node_swap leaves in every node the links of the two nodes exchanged, for either side, with and without sibling, children and grandparent |
| TimerHeap.Heap.Swap | reference/libuv-1.x/src/heap-inl.h:72-104 | on a heap it exchanges positions j and (j - 1) / 2 of the level order and keeps the tree complete and linked |
| TimerHeap.Heap.PathTo | reference/libuv-1.x/src/heap-inl.h:119-124 | the bits computed from the count lead from the root to exactly that level-order position, and the path is smaller than the count |
| TimerHeap.Heap.Follow | reference/libuv-1.x/src/heap-inl.h:126-136 | following the bits reaches the pointer to that position and the one above it |
| TimerHeap.Heap.SiftUp | reference/libuv-1.x/src/heap-inl.h:143-147 | terminates and restores the order, with the same nodes |
| TimerHeap.Heap.SiftDown | reference/libuv-1.x/src/heap-inl.h:216-229 | terminates and restores the order below the node, with the same nodes |
| TimerHeap.Heap.Insert | reference/libuv-1.x/src/heap-inl.h:106-148 | the tree stays complete, linked both ways and ordered, and holds exactly one more node |
| TimerHeap.Heap.Detach | reference/libuv-1.x/src/heap-inl.h:163-185 | cuts exactly the last node of the level order off |
| TimerHeap.Heap.Supplant | reference/libuv-1.x/src/heap-inl.h:195-214 | puts the replacement in the removed node's place, also when it was that node's own child |
| TimerHeap.Heap.Remove | reference/libuv-1.x/src/heap-inl.h:150-237 | removing any node, the last and the root included, keeps the tree complete, linked and ordered and leaves exactly the other nodes; on an empty heap nothing happens |
| TimerHeap.Heap.Dequeue | reference/libuv-1.x/src/heap-inl.h:239-241 | removes exactly the least node; an empty heap stays empty |
| TimerHeap.Heap.MinIsLeast | reference/libuv-1.x/src/heap-inl.h:67-69 | the minimum is null exactly for the empty heap and otherwise a node of least timeout, and of least start_id among those |
| HeapLinks.SwapLinked | reference/libuv-1.x/src/heap-inl.h:72-104 | the exchanged links are those of the exchanged level order, for all nodes of the tree |
| HeapOrder.RootIsLeast | reference/libuv-1.x/src/heap-inl.h:33-37 | order between parents and children makes the root least of all, by timeout and then by start_id |
| HeapOrder.SiftDownStep | reference/libuv-1.x/src/heap-inl.h:220-229 | exchanging with the smaller child moves the only disorder one level down |
| Ring.InsertTail | reference/libuv-1.x/src/queue.h:77-83 | appends to the ring's sequence |
| Ring.InsertHead | reference/libuv-1.x/src/queue.h:69-75 | prepends to the ring's sequence |
| Ring.Remove | reference/libuv-1.x/src/queue.h:85-88 | deletes the node at its position; a node alone stays a ring |
| Ring.Split | reference/libuv-1.x/src/queue.h:51-60 | cuts the ring before the given node into two rings |
| Ring.Move | reference/libuv-1.x/src/queue.h:62-67 | moves everything behind one head behind the other, the empty ring included |
| Ring.Add | reference/libuv-1.x/src/queue.h:44-49 | concatenates two rings |
| Ring.EmptyRing | reference/libuv-1.x/src/queue.h:32-34 | the self-link test holds exactly for the ring of one node |
| Walk.Loop.Walk | reference/libuv-1.x/src/uv-common.c:554-570 | visits exactly the handles present at the start that are not internal, once each and in order, not those that callbacks register; the queue keeps the original order, each handle followed by what its callback added |
| Walk.PublicIs | reference/libuv-1.x/src/uv-common.c:566-567 | the handles visited are exactly those not internal, once each and in queue order |
| Walk.WovenAround | reference/libuv-1.x/src/uv-common.c:559-568 | around every handle the queue holds what came before, the handle, what its callback registered, and the rest |
| TimerSpec.StopKeeps | reference/libuv-1.x/src/timer.c:97-109 | stopping keeps the invariant: active_handles is the number of timers both active and referenced, closing timers are inactive, the ready queue holds inactive timers once each |
| TimerSpec.StartKeeps | reference/libuv-1.x/src/timer.c:67-94 | so does starting, refused or not |
| TimerSpec.AgainKeeps | reference/libuv-1.x/src/timer.c:112-122 | so does rearming |
| TimerSpec.CloseKeeps | reference/libuv-1.x/src/timer.c:197-199 | so does closing |
| TimerSpec.FinishCloseKeeps | reference/libuv-1.x/src/unix/core.c:303-360 | a closing timer is neither active nor waiting to be called, its last unref changes no count, and without it the invariant still holds |
| TimerSpec.SetRefKeeps | reference/libuv-1.x/src/uv-common.h:305-321 | so do uv__handle_ref and uv__handle_unref |
| TimerSpec.DeadlineSaturates | reference/libuv-1.x/src/timer.c:78-80 | the clamped 64-bit sum is the saturating sum |
| TimerSpec.ExecReady | reference/libuv-1.x/src/timer.c:57-122 | an operation takes a waiting timer out of the ready queue exactly when it stops or restarts it, and never adds or reorders; initialising a timer and moving the clock change nothing there |
| TimerSpec.ExecAllReady | reference/libuv-1.x/src/timer.c:185-193 | after a callback of any number of operations the ready queue is what it was, minus the timers stopped or restarted |
| TimerSpec.CallsAreDue | reference/libuv-1.x/src/timer.c:185-193 | whatever the callbacks do, new timers and a moving clock included: the timers waiting are called once each, in order, except those an earlier callback stopped or restarted, and there are no more calls than timers waiting at the start |
| TimerSpec.PassCallsDue | reference/libuv-1.x/src/timer.c:164-194 | a whole pass: exactly the timers due at its start are candidates; those called were active and due then, and come by timeout, equal timeouts by start_id; each is called at most once or was stopped or restarted before its turn; the pass ends with the invariant and an empty ready queue |
| TimerSpec.CollectedEffect | reference/libuv-1.x/src/timer.c:172-183 | collecting moves the due timers, and only them, to the ready queue in order |
| TimerLaws.StartEffect | reference/libuv-1.x/src/timer.c:67-94 | refused without effect for a closing handle or no callback; otherwise active with its callback and repeat, due at time plus timeout or 2^64 - 1, with the next start_id, above that of every active timer; nothing else changes |
| TimerLaws.AgainEffect | reference/libuv-1.x/src/timer.c:112-122 | without callback or repeat, or closing, nothing changes; otherwise the timer is active and due at time plus repeat or 2^64 - 1 |
| TimerLaws.StopEffect | reference/libuv-1.x/src/timer.c:97-109 | the timer is inactive and not waiting; nothing else changes |
| TimerLaws.InitEffect | reference/libuv-1.x/src/timer.c:57-64 | inactive, referenced, with nothing to repeat or call; other timers keep their state |
| TimerLaws.SetRefEffect | reference/libuv-1.x/src/uv-common.h:305-321 | sets the flag; active_handles changes by one exactly when the flag of an active timer does |
| TimerLaws.CloseEffect | reference/libuv-1.x/src/timer.c:197-199 | the timer is closing, inactive and not waiting, and neither start nor again changes that |
| TimerLaws.StartsInOrder | reference/libuv-1.x/src/timer.c:43-54 | a timer started after an active one, and due no sooner, comes after it in the pass in which it is due, whatever happens to other timers and to the clock in between |
| TimerLaws.PopEffect | reference/libuv-1.x/src/timer.c:185-193 | before its callback a timer leaves the queue and is rearmed: active exactly if it repeats, due one repeat value after now |
| TimerLaws.PassRearms | reference/libuv-1.x/src/timer.c:164-194 | a timer that no callback touches is called exactly if it was due, and then is active exactly if it repeats, due one repeat value later if the clock stands; if it was not due, it is as it was |
| TimerLaws.ClosedNeverCalled | reference/libuv-1.x/src/timer.c:164-199 | a closed timer is called in no pass |
| Timers.Loop.InitTimer | reference/libuv-1.x/src/timer.c:57-64 | adds an inactive timer whose queue links form a ring of their own; a handle whose closing is finished may be initialised again |
| Timers.Loop.StopTimer | reference/libuv-1.x/src/timer.c:97-109 | safe in every valid state: the heap holds exactly the active timers, every inactive one is in a well-formed ring, alone or in the ready queue; performs Stop |
| Timers.Loop.StartTimer | reference/libuv-1.x/src/timer.c:67-94 | performs Start on heap, ring, flags and counters; accepts exactly an open handle with a callback, and then sets the fields, the timeout clamped to 2^64 - 1 |
| Timers.Loop.AgainTimer | reference/libuv-1.x/src/timer.c:112-122 | performs Again; fails exactly without a callback |
| Timers.Loop.CloseTimer | reference/libuv-1.x/src/timer.c:197-199 | performs Close on a handle just marked as closing |
| Timers.Loop.FinishClose | reference/libuv-1.x/src/unix/core.c:303-360 | a closing timer, whatever was done to it since, leaves the loop: no queue, count or other timer changes |
| Timers.Loop.SetReference | reference/libuv-1.x/src/uv-common.h:305-321 | performs SetRef: active_handles changes exactly for an active handle that is not closing |
| Timers.Loop.HandleStart | reference/libuv-1.x/src/uv-common.h:289-295 | sets the flag and counts a referenced handle; an active handle is left alone |
| Timers.Loop.HandleStop | reference/libuv-1.x/src/uv-common.h:297-303 | clears the flag and counts a referenced handle off; an inactive handle is left alone |
| Timers.Loop.CollectDue | reference/libuv-1.x/src/timer.c:172-183 | the first loop lists exactly the active timers with timeout at most the time, by timeout and then by start_id, and moves them from the heap to the ready queue |
| Timers.Loop.CallNext | reference/libuv-1.x/src/timer.c:185-193 | one turn of the second loop: dequeue, rearm, call |
| Timers.Loop.RunTimers | reference/libuv-1.x/src/timer.c:164-194 | on pointers, with callbacks that initialise, start, stop, rearm, reference or close any timer or move the clock, the calls and the final state are those of the pass that PassCallsDue and PassRearms describe; the calls come by timeout and then by start_id |
| Timers.Loop.Perform | reference/libuv-1.x/src/timer.c:57-127 | each operation a callback can make, on the pointers, is the operation of the specification |
| Timers.Loop.UpdateTime | reference/libuv-1.x/src/unix/core.c:495-497 | moves the clock and nothing else |
| Timers.Loop.NextTimeout | reference/libuv-1.x/src/timer.c:143-161 | -1 exactly when no timer is active, otherwise the least timeout minus the time, clamped to 0 and INT_MAX |
| Punycode.ReadIntText | reference/libuv-1.x/src/idna.c:261-287 | the decoder's integer loop reads back the digits the encoder writes for any delta and bias, whatever follows |
| IdnaLaws.Thresholds | reference/libuv-1.x/src/idna.c:261-268 | the threshold is the distance of the position from the bias, kept between 1 and 26 |
| IdnaLaws.Digits | reference/libuv-1.x/src/idna.c:154 | digits are written as abcdefghijklmnopqrstuvwxyz0123456789 |
| IdnaLaws.Buecher | reference/libuv-1.x/src/idna.c:152-315 | the label bücher becomes xn--bcher-kva |
| IdnaLaws.Sensei | reference/libuv-1.x/src/idna.c:152-315 | sample (L) of section 7.1 of RFC 3492, with six deltas: xn--3B-ww4c5e180e575a65lsy2b |
| IdnaLabel.RoundTrip | reference/libuv-1.x/src/idna.c:189-315 | for every label the encoder does not refuse, decoding the text after "xn--" by section 6.2 of RFC 3492 gives the label's code points |
| IdnaLabel.PassesRoundTrip | reference/libuv-1.x/src/idna.c:227-312 | from every pass on, a decoder in step with the encoder ends with the whole label |
| IdnaLabel.PassShrinks | reference/libuv-1.x/src/idna.c:227-312 | each pass lowers the number of code points left to encode |
| IdnaRefusal.RefusedExactly | reference/libuv-1.x/src/idna.c:240-256 | UV_E2BIG is returned exactly when, for some code point outside ASCII, the number of insertion points passed over since the one before it, by value and then by place, does not fit 32 bits |
| IdnaRefusal.ShortLabelsAccepted | reference/libuv-1.x/src/idna.c:240-256 | UV_E2BIG never refuses a label of up to 3855 code points |
| IdnaRefusal.LongerLabelRefused | reference/libuv-1.x/src/idna.c:240-256 | it refuses one of 3856: 3855 letters and U+10FFFF |
| IdnaHost.OverflowTest | reference/libuv-1.x/src/idna.c:243-244 | the division test holds exactly when the sum does not fit 32 bits |
| IdnaHost.AdaptBias | reference/libuv-1.x/src/idna.c:289-305 | the reordered arithmetic of the code is adapt() of section 6.1 of RFC 3492 |
| IdnaHost.PutDelta | reference/libuv-1.x/src/idna.c:261-287 | writes the whole variable-length integer, cut off only by the end of the buffer |
| IdnaHost.ScanPass | reference/libuv-1.x/src/idna.c:249-308 | one pass: `todo` stays the number of code points left, the deltas written are those of the specification, and it fails exactly on overflow |
| IdnaHost.EncodeDeltas | reference/libuv-1.x/src/idna.c:222-312 | the outer loop terminates and writes exactly the deltas of all passes, or fails where the specification does |
| IdnaHost.CheckLabel | reference/libuv-1.x/src/idna.c:174-187 | decodes the whole label or rejects it, and counts both kinds of code points |
| IdnaHost.PutAscii | reference/libuv-1.x/src/idna.c:197-212 | writes exactly the ASCII code points, in order |
| IdnaHost.Label | reference/libuv-1.x/src/idna.c:152-315 | fails exactly for a label that does not decode or is refused, with the code that says why; otherwise the buffer holds its full text, cut off at the end of the buffer |
| IdnaHost.RefusedLabels | reference/libuv-1.x/src/idna.c:214-256 | refused are exactly the labels outside ASCII in which some delta does not fit, with UV_E2BIG, and the ASCII labels longer than INT_MAX, with their length less 2^32 |
| IdnaHost.ShortLabelsConvert | reference/libuv-1.x/src/idna.c:214-256 | no label of up to 3855 code points is refused |
| IdnaHost.HostConverts | reference/libuv-1.x/src/idna.c:318-360 | a name is converted exactly when it decodes to its end and none of its labels, the stretches between separators, is refused |
| IdnaHost.LongNameRefused | reference/libuv-1.x/src/idna.c:214-215 | 2^31 times the letter a returns INT_MIN, however large the buffer |
| IdnaLaws.FirstLabel | reference/libuv-1.x/src/idna.c:331-352 | a label without separators, then any of '.', U+3002, U+FF0E and U+FF61: the label's text or failure, '.', and what becomes of the rest |
| IdnaLaws.NameIsJoined | reference/libuv-1.x/src/idna.c:318-360 | labels with any of the four full stops between them become their texts joined by '.' |
| IdnaLaws.TwoLetters | reference/libuv-1.x/src/idna.c:337-341 | a and b with any of the four between them become a.b |
| IdnaLaws.CodeIs | reference/libuv-1.x/src/idna.c:318-367 | the return value: the first failing label's code, UV_EINVAL for nothing, an undecodable rest or too little room, otherwise the length with its NUL |
| IdnaLaws.WholeName | reference/libuv-1.x/src/idna.c:318-367 | the UTF-8 bytes of bücher, an ideographic full stop and de become xn--bcher-kva.de; the call returns 17, or UV_EINVAL for a smaller buffer |
| IdnaHost.ToAscii | reference/libuv-1.x/src/idna.c:318-367 | the exact return value: the first failing label's code, UV_EINVAL for an undecodable rest, an empty name or a text that does not fit, otherwise the length; it is non-negative exactly when the name decodes, no label is refused and the text with its NUL fits, and then the buffer holds the labels' full texts joined by '.', all four separators normalised; no write is outside the buffer |
| Utf8.Decode1 | reference/libuv-1.x/src/idna.c:71-149 | every result is an error or a Unicode scalar value, and the position moves on inside the input |
| Utf8.Decode1Correct | reference/libuv-1.x/src/idna.c:71-149 | the UTF-8 form of a scalar value (section 3 of RFC 3629) is decoded to that value and consumed exactly |
| Utf8.DecodeEncode | reference/libuv-1.x/src/idna.c:138-149 | decoding undoes encoding for every sequence of scalar values |
| Utf8Laws.OneExactly | reference/libuv-1.x/src/idna.c:71-149 | one byte alone: ASCII is accepted, a continuation byte, a byte above F7 and a lead byte at the end are not |
| Utf8Laws.TwoExactly | reference/libuv-1.x/src/idna.c:100-135 | two bytes are accepted exactly when the second continues and the form is not overlong, with the value of the payload bits |
| Utf8Laws.ThreeExactly | reference/libuv-1.x/src/idna.c:91-135 | three bytes are accepted exactly when the last two agree in their two leading bits and the value is no surrogate and not overlong |
| Utf8Laws.FourExactly | reference/libuv-1.x/src/idna.c:82-135 | four bytes are accepted exactly when the exclusive or of the leading bits of the last three is that of one continuation byte and the value is from U+10000 to U+10FFFF |
| Utf8Laws.WellFormedExactly | reference/libuv-1.x/src/idna.c:71-149 | what is accepted is UTF-8 exactly when the announced number of bytes follows and all of them continue |
| Utf8Laws.IllFormedAccepted | reference/libuv-1.x/src/idna.c:116-117 | the bytes E4 38 2D are taken for U+4E2D |
| Wtf8.Decode8 | reference/libuv-1.x/src/idna.c:28-68 | never reads past a NUL, yields no value above U+10FFFF, and only a NUL ends the string |
| Wtf8.Decode8Correct | reference/libuv-1.x/src/idna.c:28-68 | the generalized UTF-8 form of any code point, surrogates included, is decoded to it and consumed exactly |
| Wtf8.Decode8Forms | reference/libuv-1.x/src/idna.c:28-68 | a character is decoded exactly when one of the forms begins there, to the form's value and consuming it exactly |
| Wtf8.FormsAreEncodings | reference/libuv-1.x/src/idna.c:28-68 | the forms are the encodings of the code points, and overlong forms of three and four bytes besides |
| Wtf8.ZeroForms | reference/libuv-1.x/src/idna.c:28-68 | exactly NUL and two overlong forms stand for NUL |
| Wtf8.NulBeforeEnd | reference/libuv-1.x/src/idna.c:370-409 | the units of a string hold a NUL before their end, and so read up to it are cut short, if and only if one of the forms it consists of is an overlong form of NUL |
| Wtf8.NulBeforeEndExample | reference/libuv-1.x/src/idna.c:370-409 | the bytes E0 80 80 are converted to a NUL and the terminator |
| Wtf8.AcceptsExactly | reference/libuv-1.x/src/idna.c:370-384 | the strings accepted are exactly the concatenations of forms |
| Wtf8.RoundTrip | reference/libuv-1.x/src/idna.c:370-560 | UTF-16 to WTF-8 and back gives every unit sequence up to its first NUL, lone surrogates included; the whole of it exactly when it has no NUL |
| Wtf8.TopPoint | reference/libuv-1.x/src/idna.c:396-397 | the assertion on code points fails exactly for units that hold the pair DBFF DFFF before any NUL |
| Wtf8Laws.PairPoint | reference/libuv-1.x/src/idna.c:412-424 | a surrogate pair gives the upper bits from its first unit and the lower ten from its second |
| Wtf8Laws.LoneUnit | reference/libuv-1.x/src/idna.c:412-424 | a unit that begins no pair stands for itself |
| Wtf8Laws.PointPair | reference/libuv-1.x/src/idna.c:398-402 | a code point beyond U+FFFF becomes a high and a low unit that stand for it |
| Wtf8Laws.Smiley | reference/libuv-1.x/src/idna.c:387-560 | D83D DE00 becomes F0 9F 98 80, and back |
| Wtf8Code.LengthAsUtf16 | reference/libuv-1.x/src/idna.c:370-384 | the exact unit count, terminator included, or -1 exactly for a string that is not a concatenation of the forms uv__wtf8_decode1 accepts |
| Wtf8Code.ToUtf16 | reference/libuv-1.x/src/idna.c:387-409 | writes exactly the units and nothing behind them; stops at an assertion exactly when the string does not decode, U+10FFFF occurs or the length given is not the exact one |
| Wtf8Code.SurrogateValue | reference/libuv-1.x/src/idna.c:412-424 | the first code point of what is left, for counted and for NUL-terminated input, without reading past its end |
| Wtf8Code.LengthAsWtf8 | reference/libuv-1.x/src/idna.c:427-457 | the exact byte count, in both length modes |
| Wtf8Code.Fill | reference/libuv-1.x/src/idna.c:494-560 | succeeds exactly when the bytes fit, and then has written all of them, a NUL and nothing else; otherwise the buffer is full of the first bytes and the length reported is the exact one, plus the buffer length exactly when the first code point did not fit |
| Wtf8Code.ToWtf8 | reference/libuv-1.x/src/idna.c:460-560 | without a target only the length is reported; a buffer of its own is exactly filled, or UV_ENOMEM returned; a given buffer succeeds exactly when the bytes fit, and the length reported is always enough for another call |
| Wtf8Code.ThereAndBack | reference/libuv-1.x/src/idna.c:370-560 | the converters and length functions together return the units up to the first NUL, unless stopped by the pair DBFF DFFF |
| Inet4.ParseText | reference/libuv-1.x/src/inet.c:175-211 | parsing undoes printing for every IPv4 address |
| Inet4.ParseExactly | reference/libuv-1.x/src/inet.c:175-211 | inet_pton4 accepts exactly the texts inet_ntop4 prints, and the two are mutual inverses |
| Inet4.Sample4 | reference/libuv-1.x/src/inet.c:48-59 | 192.168.0.20, printed and parsed |
| InetCode.Ntop4 | reference/libuv-1.x/src/inet.c:48-59 | prints the text, refusing exactly the buffers that it and its NUL do not fit |
| InetCode.Pton4 | reference/libuv-1.x/src/inet.c:175-211 | the loop computes the parser of ParseExactly |
| Inet6.ParseFormat | reference/libuv-1.x/src/inet.c:214-298 | inet_pton6 reads back every printed address, whichever zero run is compressed, embedded IPv4 forms included |
| Inet6Grammar.SpellingParses | reference/libuv-1.x/src/inet.c:214-298 | every spelling, of one to four hexadecimal digits a group, at most one gap and an optional IPv4 address at the end, is parsed to the address it stands for |
| Inet6Grammar.Parse6Exactly | reference/libuv-1.x/src/inet.c:214-298 | a text is parsed to an address if and only if it is a spelling of that address: no group of five digits, no second gap, no colon at the end, not too few or too many groups |
| Inet6Grammar.CaseInsensitive | reference/libuv-1.x/src/inet.c:235-239 | upper and lower case are parsed alike |
| Inet6Grammar.Documentation | reference/libuv-1.x/src/inet.c:214-298 | 2001:DB8::1 |
| Inet6.HexCanonical | reference/libuv-1.x/src/inet.c:133 | words are printed in lower case without leading zeros (sections 4.1 and 4.3 of RFC 5952) |
| Inet6.GapIffRun | reference/libuv-1.x/src/inet.c:111-137 | "::" appears in the text exactly when a run is compressed |
| InetCode.FindRun | reference/libuv-1.x/src/inet.c:83-106 | finds the first longest run of at least two zero words, or none (sections 4.2.2 and 4.2.3 of RFC 5952) |
| InetCode.Print | reference/libuv-1.x/src/inet.c:108-138 | the format loop writes the format, and never more than the local buffer holds |
| InetCode.Ntop6 | reference/libuv-1.x/src/inet.c:62-143 | for every address: the first longest zero run is compressed, "::" appears exactly when there are two zero words in a row, an IPv4 address is embedded exactly when that run is the first six words, or the first five before ffff, the text parses back to the address, and it is refused exactly when it does not fit |
| Inet6.DotIffEmbedded | reference/libuv-1.x/src/inet.c:124-126 | the text has a dot exactly when the run begins at word 0 and has six words, or five followed by ffff |
| InetCode.SevenZerosNeverEmbed | reference/libuv-1.x/src/inet.c:124-126 | seven zero words are never printed as an embedded address |
| InetCode.ShiftRight | reference/libuv-1.x/src/inet.c:288-291 | the in-place shift moves the bytes behind the gap to the end and fills the gap with zeros, overlap included |
| InetCode.FinishParse | reference/libuv-1.x/src/inet.c:272-297 | what follows the loop computes the parser's last step |
| InetCode.Pton6 | reference/libuv-1.x/src/inet.c:214-298 | the loop over the 16-byte buffer accepts exactly the spellings of addresses, each as the address it stands for, and never writes outside the buffer |
| Barrier.Create | reference/libuv-1.x/src/thread-common.c:38-82 | UV_EINVAL exactly for no barrier or a count of 0, then UV_ENOMEM or the mutex's or the condition variable's error; otherwise the initial counters |
| Barrier.Gate.Enter | reference/libuv-1.x/src/thread-common.c:101-119 | from the first test to the next wait or the return: the step of the state machine, with its broadcasts |
| Barrier.Gate.Rest | reference/libuv-1.x/src/thread-common.c:109-119 | from the second test on: the step of the state machine, with its broadcasts |
| Barrier.StepKeeps | reference/libuv-1.x/src/thread-common.c:85-120 | every step of every thread, spurious wake-ups included, keeps counters, threads and history in agreement |
| Barrier.OnePhaseAtATime | reference/libuv-1.x/src/thread-common.c:85-120 | `in` and `out` are never both non-zero and never wrap; together they count the threads inside |
| Barrier.EveryEventOk | reference/libuv-1.x/src/thread-common.c:85-120 | over any number of reuses: nobody enters a generation before all of the earlier ones have left; nobody leaves one before `threshold` threads have entered it, and only the one it entered; the call returns 1 exactly for the last to leave |
| Barrier.OneSerialThread | reference/libuv-1.x/src/thread-common.c:114-119 | every completed generation has exactly one return of 1 |
| Barrier.DistinctThreads | reference/libuv-1.x/src/thread-common.c:85-120 | a thread that comes back enters a later generation, so a generation is `threshold` different threads |
| Barrier.SleepsUntilWoken | reference/libuv-1.x/src/thread-common.c:101-117 | a thread whose condition does not hold takes no step until it is woken, and then tests the same condition again |
| Barrier.NeverStuck | reference/libuv-1.x/src/thread-common.c:101-117 | with `threshold` threads in the call, one of them is awake: no broadcast is missing |
| Barrier.TwoThreadsMeet | reference/libuv-1.x/src/thread-common.c:85-120 | a reachable state with a whole generation of two: the second to come leaves at once with 0, the first leaves with 1 |
| Tokenizer.WidthOk | reference/bubbletea-main/key.go:614-715 | a message takes between one byte and all there are; width 0 means waiting, which happens on every open paste and otherwise only when more data may follow |
| Tokenizer.WaitsOnText | reference/bubbletea-main/key.go:686-693 | apart from an open paste, the reader waits only if all it has is text, after at most one escape character |
| Tokenizer.RunesAreTheBytes | reference/bubbletea-main/key.go:668-703 | the runes of a text message encode to exactly the bytes it took |
| Tokenizer.Longest | reference/bubbletea-main/key_sequences.go:57-68 | the longest known sequence that begins the input, or none when there is none |
| TokenizerLaws.X10Reports | reference/bubbletea-main/key.go:615-621 | ESC [ M and three bytes are an X10 mouse message with those bytes; no other input is |
| TokenizerLaws.SgrReports | reference/bubbletea-main/key.go:622-628 | ESC [ < and, anywhere behind it, three numbers separated by ';' and closed by M or m are an SGR mouse message up to the first of them; no other input is |
| TokenizerLaws.FocusReports | reference/bubbletea-main/key_sequences.go:122-131 | ESC [ I alone gives Focus, ESC [ O alone gives Blur, and nothing else does |
| TokenizerLaws.Keys | reference/bubbletea-main/key_sequences.go:57-68 | an input that is no report and no paste gives the key of its longest known beginning; keys come from nothing else |
| TokenizerLaws.UnknownSequences | reference/bubbletea-main/key_sequences.go:70-73 | ESC [, bytes 30 to 3F, bytes 20 to 2F and a byte 40 to 7E, when no known sequence begins the input, are reported whole; nothing else is |
| TokenizerLaws.Nuls | reference/bubbletea-main/key.go:655-666 | NUL is a key of its own, with Alt after an escape character |
| TokenizerLaws.Texts | reference/bubbletea-main/key.go:668-703 | text up to a control character, a space, DEL or the end is one message with exactly its characters; at the end of a full buffer it waits |
| TokenizerLaws.AltText | reference/bubbletea-main/key.go:668-703 | one character after an escape character is that character with Alt |
| TokenizerLaws.LoneEscape | reference/bubbletea-main/key.go:705-709 | an escape character alone is the Escape key, or waits at the end of a full buffer |
| TokenizerLaws.BadBytes | reference/bubbletea-main/key.go:711-715 | a byte that begins no character, or U+FFFD, is reported by itself |
| TokenizerLaws.RunesExactly | reference/bubbletea-main/key.go:671-673 | decoding a rune gives the character whose encoding begins the input, or the error rune and one byte |
| Tokenizer.CutTiles | reference/bubbletea-main/key.go:583-605 | the messages of one read tile the bytes at hand in order, none is empty, and what is left is what the reader waits on |
| Tokenizer.ReadsTile | reference/bubbletea-main/key.go:558-607 | for every sequence of reads the messages and the bytes carried over are the concatenated input |
| Tokenizer.ShortReadSettles | reference/bubbletea-main/key.go:574-581 | after a read that did not fill the buffer nothing is carried over but an open paste |
| Tokenizer.PasteArrives | reference/bubbletea-main/key_sequences.go:83-119 | a paste is one message with its text, whatever follows; the end marker cannot be mistaken |
| TokenizerLaws.PasteIs | reference/bubbletea-main/key_sequences.go:83-119 | a paste is ESC [ 200 ~, text and ESC [ 201 ~; all of the text is kept unless it holds U+FFFD |
| TokenizerLaws.Pastes | reference/bubbletea-main/key_sequences.go:83-119 | any bytes between the markers, up to the first end marker, are one paste of the runes they hold |
| TokenizerLaws.PastedRunes | reference/bubbletea-main/key_sequences.go:109-116 | characters are kept in order; bytes that begin none are left out one by one, and U+FFFD is too |
| Tokenizer.PasteBegins | reference/bubbletea-main/key.go:614-715 | the beginning of a paste is waited on exactly from its opening sequence on, and before that only at the end of a full buffer on ESC or ESC [, if they are no keys |
| Tokenizer.PasteSurvivesReads | reference/bubbletea-main/key.go:558-607 | a paste anywhere in a stream, whatever comes before and after it and however the rest is cut into reads: if the reader comes to its first byte, the messages go on with the whole paste if and only if its opening sequence is at hand, or an undecided beginning of it ends a full buffer and the next read completes it |
| Tokenizer.CutOpeningKept | reference/bubbletea-main/key.go:686-693 | 255 bytes of text and ESC in one read, the rest of the paste in the next: the text and the whole paste arrive |
| Tokenizer.EscapeSpoilsPaste | reference/bubbletea-main/key_sequences.go:36 | an escape character before a paste: where ESC ESC is a key and no longer key begins there, it takes the first byte of the paste, although all of the paste is at hand |
| Tokenizer.FullBuffer | reference/bubbletea-main/key.go:574-605 | a buffer full of text is kept for the next read if and only if it ends between two characters; otherwise bytes are reported as unknown |
| Tokenizer.FullBufferExample | reference/bubbletea-main/key.go:574-605 | a 256-byte input for the second case |
| TokenizerCode.SeqLengths | reference/bubbletea-main/key_sequences.go:42-53 | exactly the lengths of the known sequences, each once, the largest first |
| TokenizerCode.FindSequence | reference/bubbletea-main/key_sequences.go:57-75 | the loop over lengths finds the longest match, else an unknown CSI sequence |
| TokenizerCode.FindPaste | reference/bubbletea-main/key_sequences.go:83-119 | computes the paste detection of PasteArrives |
| TokenizerCode.FindRunes | reference/bubbletea-main/key.go:668-685 | the loop collects the run of text and its end |
| TokenizerCode.DetectOneMsg | reference/bubbletea-main/key.go:614-715 | computes the detection that the theorems are about, in the source's order of tests |
| TokenizerCode.Reader.Read | reference/bubbletea-main/key.go:563-606 | after each read, what was sent and what is kept are those of all reads so far, and tile their concatenation |

## Left out

- Liveness: that a worker or a thread at the barrier is eventually scheduled; the theorems say that one can always step.
- Thread creation and joining, `uv_once`, fork handling, the metrics at the end of `uv__work_done`, and the internals of `uv_async_send`, which is a flag.
- That the code takes its two mutexes in an order that cannot deadlock; each critical section is one atomic action.
- `uv_cancel` is modelled as called on the loop's own thread, for a request whose `done` has not been called.
- The heap is modelled at its one instance, the timers, with `timer_less_than` as its order; a general comparison function is not.
- 32-bit wrap-around of `nelts` and 64-bit wrap-around of `timer_counter` and `size_t`: they count without bound.
- ThreadPoolCode.Pool.Owner: which request a node belongs to is address arithmetic in the source; here it is looked up among the addresses.
- Timers.Loop.CloseTimer: of `uv_close` only the closing flag and `uv__timer_close` are modelled; the list of closing handles is not.
- Timers.Loop.FinishClose: the call of the handle's close callback.
- Timers.Loop.RunTimers: callbacks are lists of operations, by their number in the pass, on timers initialised by then; they do not run the loop.
- The getters `uv_timer_get_repeat` and `uv_timer_get_due_in` are not modelled.
- Walk.Loop.Walk: callbacks register new handles and do nothing else to the handle queue.
- IdnaHost.ScanPass: works on the decoded code points; the source decodes the same bytes again in each pass.
- IdnaHost.ToAscii: input of 2^32 - 1 bytes or more, where the `unsigned` counters of a label can wrap around; the overflow test then divides by a `y` of zero.
- IdnaHost.Label: the same input.
- The decoder of section 6.2 of RFC 3492 is taken with an unbounded maxint; it is the reference, not code of the repository.
- `uv_inet_ntop` and `uv_inet_pton`, which dispatch on the family and cut off a scope after '%'.
- `uv_barrier_destroy`, and `uv_barrier_wait` on no barrier, which returns UV_EINVAL.
- The table of key sequences and its Alt variants are a parameter: any table whose entries are non-empty and begin with a control character, a space or DEL.
- What mouse messages mean; the reader's regular expressions are modelled as to where they match.
- Cancelling `readAnsiInputs` through its context, and read errors; both only end the run.
- fs-poll.c, the renderer and program loop of bubbletea, and the remaining files of the repository.
