# A verified model of the gateway's event loop, parser and codecs

The gateway's own code is thin; the state that is hard to get right lives in the libraries it is built from. This project models
those parts in Dafny, in the form the C code has: structures that are rewritten in place are classes with the same pointers and
loops, protocols between threads are interleaved atomic steps, and algorithms with loops are methods with the same loops. Every
such method is proved against a specification, and what the code promises is proved about the specification.

- `RbShape`, `RbSplice`, `RbTree`: the red-black tree of libuv. A node's place in the in-order sequence is carried by the proof,
  so that rotations are steps that keep every node where it is; colours and black heights are separate layers on top.
- `SplayShape`, `SplaySteps`, `SplayEdits`, `SplayTree`: the top-down splay tree beside it. The two side trees a splay hangs nodes
  on are spines of a shape, and every macro of the header is a step on three shapes.
- `PoolQueues`, `ThreadPool`, `ThreadPoolWakeups`, `ThreadPoolItems`, `ThreadPoolOrder`, `ThreadPoolFairness`, `PoolThreads`: the
  thread pool as runs of atomic steps (critical sections, waits, signals, spurious wakeups, cancellation in two steps), the order
  in which requests are run, and its critical sections as code.
- `AsyncHandles`: the 0/1/2 protocol between senders and the loop, over an eventfd or a pipe of any capacity.
- `HttpTables`, `HttpReference`, `HttpInvariants`, `HttpStream`, `HttpParser`, `HttpRefinement`, `HttpRequest`, `HttpAnswers`,
  `HttpServe`, `HttpChunks`: the incremental HTTP/1.x parser on its growing and shifting buffer, refined to a machine that takes
  one byte at a time, and the framing of chunked bodies.
- `HttpGrammar`, `HttpTokens`, `HttpHeads`, `HttpFraming`, `HttpExamples`: the request heads of section 3 of RFC 7230, header
  values empty or ending in blanks among them; what the same machine makes of each, and when that is what it says.
- `HttpLanguage`: which bytes are refused where, by their numbers.
- `HttpUpload`: bodies too large for the buffer, handed to the application as they arrive.
- `TimerHeap`, `Timers`, `TimerCallbacks`: the pointer-based binary heap in level order, the timers on it, and callbacks that do what
  they like with them.
- `Utf8`, `Utf8Reading`, `Punycode`, `PunycodeValues`, `IdnaAscii`: domain names to ASCII, from any bytes, against RFC 3629 and the
  decoding procedure and parameters of RFC 3492.
- `Digits`, `Options`: texts of numbers, and optional values, for the modules that need them.
- `InetText`, `InetForms`, `InetParse`, `InetRoundTrip`, `InetGrammar`: IPv4 and IPv6 addresses to text and back, which text is
  written for which address, and which texts are read.
- `LogBuffer`: zlog's buffer, which grows up to a limit and then truncates, with its own writers of numbers.
- `ArrayList`, `ArchiveNames`, `ArchiveList`, `Rolling`, `Sequencing`, `Rotater`: zlog's rotation of log files, from the sorted list
  of what a directory holds to the renames, over any number of rotations, on a directory that is a map from paths to contents.
- `HttpMemory`: the server's account of the memory its buffers take, over all sessions and whatever the application does.
- `HashShape`, `HashMoves`, `HashOrder`, `HashTable`: zlog's chained hash table, for any hash and equality that go together.
- `RuleLevels`, `Categories`, `CategoryTable`: the level bitmap that spares a category its rules, and the exchange of all rules.

Conventions. Pointers are references that may be null; integers are unbounded, and where the C code's width matters (the clamp
of timer due times, the 32-bit test of the Punycode encoder, the 64-bit time) it is written out. Bit operations on bytes are
written as arithmetic, but for the level bitmaps, which are bit vectors. A buffer's dropped tail, the times, and what the
network delivers are parameters. `memcpy` on overlapping ranges in the stream's shift is taken to copy in ascending order.
Concurrent steps are sequentially consistent.

Where the code does not keep what one might expect of it, a lemma gives the input and another the exact condition:

- `ThreadPoolItems.DoneTwice`: deps/libuv/docs/src/request.rst says that uv_cancel fails for a finished request; it succeeds for one
  that was reported cancelled, whose callback then runs again. `ThreadPoolItems.DoneOnceIff` is the condition.
- `ThreadPoolOrder.SlowLeftBehind`: a slow request submitted before exit_message may never be run, when the workers exit while the
  message for it is behind the exit. `ThreadPoolOrder.NoneLeftBehind` is for the fast ones.
- `ThreadPoolFairness.SlowOvertakes`: a slow request can overtake a fast one by the message that a cancelled one left in the queue.
  `ThreadPoolFairness.SlowWaitItsTurn` is for runs without such a cancel.
- `InetForms.LastWordIs`: deps/libuv/src/inet.c:130 is for addresses of fourteen zero octets, but is looked at only at the seventh
  word, which the run of zeros has passed over. `InetForms.TextIs` and `InetForms.PlainIs` say what is written instead.
- `AsyncHandles.ClosedHandleClaimed`: a sender that has read pending as 0 can claim a handle after uv__async_close has returned.
  `AsyncHandles.ClosedHandleIsLeftAlone` is the condition.
- `Rolling.GapLoses`: rolling can lose an archive when the numbering has a gap. `Rolling.RollsExactly` is the condition.
- `HttpExamples.EmptyValueHidesLine`, `HttpExamples.EmptyValueNeverEnds`, `HttpExamples.BlankHidesChunked`: section 3.2 of RFC 7230
  allows a header value to be empty and blanks to follow it. An empty value takes the next line for itself, and the last one the
  end of the head, which then does not end; chunked with a blank after it is not recognised. `HttpHeads.HeadRead` is what every
  such head comes to, `HttpGrammar.SeenIsOwnIff`, `HttpFraming.ReadAsChunkedIff` and `HttpFraming.ReadAsChunkedExactly` are the
  conditions.
- `HttpExamples.BeginningIsTaken`: a header name that is only the beginning of Transfer-Encoding is taken for it, and a beginning
  of chunked for chunked. `HttpFraming.ChunkedIff` is the condition.
- `HttpExamples.ColonCounts`: every byte of a Content-Length is taken for a digit. `HttpFraming.ReadWithAnyLength` is the condition,
  and `HttpFraming.ReadWithBodyExactly` what it comes to for digits with blanks after them.
- `HttpExamples.SplitMatters`: a start-line or header token over the limit is refused or not depending on how the bytes arrive, since
  the test is made only when input runs out. `HttpAnswers.RefusedIff` and `HttpAnswers.SplitNeverMattersIff` are the conditions.
- `HttpInvariants.StartsAreOverrunIff`: src/http.h:855 reads hs_token_start_states, which has no entry for BR, past its end exactly
  when a byte leads to BR. By `HttpInvariants.OverrunMakesNoDifference` the request ends in the same error whatever is read.
- `HttpUpload.Upload.LastFills`, `HttpUpload.LongBodyIsCut`: the end of a large body is not told when its last bytes fill the buffer,
  and a body with a declared length that is no int is cut. `HttpUpload.Upload.ReadChunk` and `HttpUpload.WholeIff` are the conditions.
- `HttpServe.ServeAndClose`: a request whose last bytes come in the same event as the peer's end of file is not answered.
- `CategoryTable.ReloadBreaks`: zlog_reload sets c_up to 0 when the update of the table fails (deps/zlog/src/zlog.c:258-261) and
  so does not roll back, though its comment says that it does. `CategoryTable.RollbackUndoes` is for the rollback itself.
- `Categories.LostEvent`: after zlog_level_switch an event that a rule outputs can be lost. `Categories.Category.LevelSwitch` has the
  condition.
- `Utf8Reading.LettersAreTaken`, `Utf8Reading.CutIsDropped`: bytes that are not UTF-8 are taken for code points or passed over.
  `Utf8Reading.SpellsIff`, `Utf8Reading.PointsIff` and `Utf8Reading.SpelledIff` are the conditions.
- `TimerCallbacks.RunTimers`: uv__run_timers does not end when callbacks go on starting a timer with a timeout of zero; its contract
  also says after how many callbacks it ends otherwise.
- `ArrayList.List.Set`: an index of twice the size or more is outside the array after it has grown for it.

## Model

| member | source | states |
|---|---|---|
| `RbTree.Tree.Insert` | deps/libuv/include/uv/tree.h:598-624 | RB_INSERT keeps the whole red-black invariant (sorted, linked, black root, no red child of a red node, equal black heights) and adds exactly the given element at one place of the in-order sequence; an element with an equal key, which is the given one itself when it is already in the tree, is returned instead and nothing changes |
| `RbTree.Tree.Remove` | deps/libuv/include/uv/tree.h:530-595 | RB_REMOVE keeps the invariant and takes exactly the given element out of the in-order sequence, whichever of its three cases applies |
| `RbTree.Tree.InsertColor` | deps/libuv/include/uv/tree.h:407-449 | RB_INSERT_COLOR, from a tree whose only fault is one red node under a red parent, ends with none and a black root, positions unchanged |
| `RbTree.Tree.RemoveColor` | deps/libuv/include/uv/tree.h:451-528 | RB_REMOVE_COLOR, from a tree whose only fault is one subtree short of one black node, ends balanced with a black root |
| `RbTree.Tree.RotateLeft` | deps/libuv/include/uv/tree.h:342-360 | the pointer assignments of RB_ROTATE_LEFT keep every link consistent and every node at its in-order position |
| `RbTree.Tree.RotateRight` | deps/libuv/include/uv/tree.h:362-380 | the mirror of RB_ROTATE_LEFT |
| `RbTree.Tree.Find` | deps/libuv/include/uv/tree.h:629-644 | RB_FIND returns an element with the key exactly when there is one |
| `RbTree.Tree.NFind` | deps/libuv/include/uv/tree.h:647-665 | RB_NFIND returns the least element not below the key, or none when every element is below |
| `RbTree.Tree.Next` | deps/libuv/include/uv/tree.h:668-687 | RB_NEXT is the in-order successor, reached down the right subtree or up the parent links |
| `RbTree.Tree.Min` | deps/libuv/include/uv/tree.h:711-724 | RB_MIN is the first element of the in-order sequence |
| `RbTree.Tree.Foreach` | deps/libuv/include/uv/tree.h:738-741 | RB_NEXT from RB_MIN visits every element once, in increasing order |
| `RbShape.RotateLeftLinked` | deps/libuv/include/uv/tree.h:342-360 | a left rotation of any linked tree is a linked tree over the same positions |
| `RbShape.RotateRightLinked` | deps/libuv/include/uv/tree.h:362-380 | the same for a right rotation, by mirroring |
| `RbShape.InsertRecolour` | deps/libuv/include/uv/tree.h:415-421 | recolouring under a red uncle keeps black heights and moves the only red-red fault two levels up |
| `RbShape.InsertInnerLeft` | deps/libuv/include/uv/tree.h:422-427 | rotating an inner grandchild outwards keeps the fault where the next step expects it |
| `RbShape.InsertOuterLeft` | deps/libuv/include/uv/tree.h:428-430 | the final rotation and recolouring removes the fault |
| `RbShape.InsertOuterRight` | deps/libuv/include/uv/tree.h:444-446 | the mirror of the above |
| `RbShape.RemoveRedSiblingLeft` | deps/libuv/include/uv/tree.h:459-463 | a red sibling is rotated away, leaving the shortage under a red parent |
| `RbShape.RemoveBlackNephewsLeft` | deps/libuv/include/uv/tree.h:464-470 | with black nephews the shortage moves up one level |
| `RbShape.RemoveNearNephewLeft` | deps/libuv/include/uv/tree.h:471-480 | a red near nephew is rotated into the far place |
| `RbShape.RemoveFarNephewLeft` | deps/libuv/include/uv/tree.h:481-488 | with a red far nephew one rotation pays the shortage off |
| `RbShape.RemoveRedSiblingRight` | deps/libuv/include/uv/tree.h:491-495 | the mirror case |
| `RbShape.RemoveBlackNephewsRight` | deps/libuv/include/uv/tree.h:496-502 | the mirror case |
| `RbShape.RemoveNearNephewRight` | deps/libuv/include/uv/tree.h:503-512 | the mirror case |
| `RbShape.RemoveFarNephewRight` | deps/libuv/include/uv/tree.h:513-520 | the mirror case |
| `RbShape.ShortSideBlackened` | deps/libuv/include/uv/tree.h:524-525 | blackening a red short side pays the shortage off |
| `RbSplice.AttachedLinked` | deps/libuv/include/uv/tree.h:612-619 | hanging a leaf in its slot gives a linked tree with every later position one further on |
| `RbSplice.UnlinkedLinked` | deps/libuv/include/uv/tree.h:569-582 | bypassing a node with at most one child gives a linked tree without it |
| `RbSplice.UnlinkedOwed` | deps/libuv/include/uv/tree.h:590-592 | taking out a black node leaves exactly one subtree short by one, which is what RB_REMOVE_COLOR expects |
| `RbSplice.ReplacedOwed` | deps/libuv/include/uv/tree.h:540-566 | putting the successor in the removed node's place, with its colour, keeps that |
| `RbSplice.HeightBound` | deps/libuv/include/uv/tree.h:405-528 | the height of every such tree is at most twice the logarithm of its size: two to half the height is at most the number of nodes plus one |
| `SplayTree.Tree.Splay` | deps/libuv/include/uv/tree.h:209-242 | the top-down splay keeps the in-order sequence and brings the node with the key, or a neighbour of its place, to the root, touching only nodes of the tree |
| `SplayTree.Tree.Turn` | deps/libuv/include/uv/tree.h:218-240 | one turn of the loop keeps the three parts in order around the key and either stops where the sought place is at the root or leaves a smaller middle part |
| `SplayTree.Tree.Find` | deps/libuv/include/uv/tree.h:128-137 | SPLAY_FIND returns the node with the key exactly when there is one, and the order stays |
| `SplayTree.Tree.Insert` | deps/libuv/include/uv/tree.h:164-186 | SPLAY_INSERT adds exactly the element at one place of the order, or returns the one with its key |
| `SplayTree.Tree.Remove` | deps/libuv/include/uv/tree.h:188-207 | SPLAY_REMOVE takes out exactly the node with the key, the second splay joining the two sides, or finds none |
| `SplayTree.Tree.Next` | deps/libuv/include/uv/tree.h:139-151 | SPLAY_NEXT is the in-order successor, or null for the last |
| `SplaySteps.RotateRightSplit` | deps/libuv/include/uv/tree.h:88-92 | a rotation keeps the three hung parts and the order across them |
| `SplaySteps.LinkLeftSplit` | deps/libuv/include/uv/tree.h:100-104 | linking moves the root to the right part and keeps the order across the parts |
| `SplaySteps.AssembleSplit` | deps/libuv/include/uv/tree.h:112-117 | assembling makes one tree whose order is that across the parts |
| `SplaySteps.NearestAcross` | deps/libuv/include/uv/tree.h:218-240 | where the loop stops the root is the node with the key or a neighbour of its place in the whole order |
| `SplayEdits.RemoveInner` | deps/libuv/include/uv/tree.h:199-202 | hanging the right side on the greatest node of the left side gives the order without the removed node |
| `PoolQueues.TakeEffect` | deps/libuv/src/threadpool.c:71-117 | a pass keeps the queues well formed (at most one slow-work message, present when slow work waits) and never leaves more runnable work without a signal than it found |
| `PoolQueues.PostEffect` | deps/libuv/src/threadpool.c:142-160 | a post keeps the queues well formed, and signals whenever it adds runnable work |
| `ThreadPoolOrder.TakeOrder` | deps/libuv/src/threadpool.c:71-117 | a worker takes the first fast request of its queue or the first slow one; what is ahead of exit_message loses nothing but that, and a worker leaves only when no fast request is ahead of it |
| `ThreadPoolOrder.FirstComeFirstRun` | deps/libuv/src/threadpool.c:71-160 | in every run, of two fast requests, or of two slow ones, the one submitted first is run before the other, unless it is cancelled |
| `ThreadPoolOrder.NoneLeftBehind` | deps/libuv/src/threadpool.c:80-85 | in every run, when a worker has exited, every fast request submitted before exit_message has been run or cancelled |
| `ThreadPoolOrder.SlowLeftBehind` | deps/libuv/src/threadpool.c:94-99 | for slow requests that is not so: the run in which one submitted before exit_message is never taken, since the slow message was put off behind it |
| `ThreadPoolFairness.SlowWaitItsTurn` | deps/libuv/src/threadpool.c:94-117 | in every run in which no slow request is cancelled, a slow request is run only after every fast one submitted before it has been run or cancelled |
| `ThreadPoolFairness.SlowOvertakes` | deps/libuv/src/threadpool.c:101-104 | when one is cancelled that is not so: the message it leaves behind lets a later slow request overtake a fast one: the run |
| `ThreadPoolWakeups.SlowWorkThrottled` | deps/libuv/src/threadpool.c:45-47 | in every run slow_io_work_running is the number of workers on slow work and at most (nthreads + 1) / 2, and pending slow work means exactly one message in the queue |
| `ThreadPoolWakeups.SleepsIff` | deps/libuv/src/threadpool.c:71-104 | in every run, a worker that has the mutex goes to sleep if and only if nothing but slow work is queued, and none of that, or half of the pool, rounded up, is on slow work without it |
| `ThreadPoolWakeups.NoLostWakeup` | deps/libuv/src/threadpool.c:71-78 | in every run in which some worker waits unsignalled, enough others are awake for the queued work; when something other than throttled slow work is queued, one is awake |
| `ThreadPoolWakeups.AllAsleepMeansEmpty` | deps/libuv/src/threadpool.c:71-78 | in every run, when all workers wait unsignalled, both queues are empty |
| `ThreadPoolWakeups.ShutdownIsNotStuck` | deps/libuv/src/threadpool.c:80-85 | after the exit message is posted, until every worker has left one of them is awake or running |
| `ThreadPoolWakeups.TurnEnabled` | deps/libuv/src/threadpool.c:57-139 | an awake worker can always take its turn, and the counters it decrements are positive |
| `ThreadPoolItems.ExactlyOnePlace` | deps/libuv/src/threadpool.c:107-139 | in every run a submitted request is in at most one of the queue, the slow queue, a worker, a cancel under way, the loop's queue and its local copy, in none only after a callback; its callbacks made and due are one more than the cancels that reached it after it had left every queue |
| `ThreadPoolItems.DoneOnceWithItsStatus` | deps/libuv/src/threadpool.c:269-315 | the done callback gets ECANCELED exactly when the work function never ran, and runs at most once for a request that no cancel reaches after it was reported cancelled |
| `ThreadPoolItems.DoneOnceIff` | deps/libuv/src/threadpool.c:269-291 | a request has exactly one callback, made or due, if and only if no cancel has reached it after it had been reported cancelled |
| `ThreadPoolItems.DoneTwice` | deps/libuv/src/threadpool.c:274-290 | uv_cancel succeeds on a request already reported cancelled, and its callback is called a second time: the run |
| `ThreadPoolItems.QuiescentMeansAllDone` | deps/libuv/src/threadpool.c:295-315 | when every worker waits and no loop queue holds anything, every submitted item is done |
| `PoolThreads.Pool.PostEntry` | deps/libuv/src/threadpool.c:142-160 | the assignments of post, in order, have the effect of the step the runs are made of |
| `PoolThreads.Pool.SlowRequest` | deps/libuv/src/threadpool.c:104-116 | taking a slow request, and scheduling the next |
| `PoolThreads.Pool.Pass` | deps/libuv/src/threadpool.c:71-117 | one pass of the worker's loop: it ends with the step's outcome, or goes round again nearer to one |
| `PoolThreads.Pool.WorkerSection` | deps/libuv/src/threadpool.c:65-119 | a worker's whole critical section equals the step of the runs, idle count and signal included |
| `AsyncHandles.OneSenderAtATime` | deps/libuv/src/unix/async.c:63-81 | in every run with any number of senders pending is 1 exactly when one sender is between its two exchanges, there is never a second, and abort is not reached |
| `AsyncHandles.NoSendLost` | deps/libuv/src/unix/async.c:122-165 | in every run, while a send on an open handle has no callback behind it, pending is not 0 and a sender is about to write, the descriptor is readable, or the pass has yet to come to the handle |
| `AsyncHandles.ClosedHandleIsLeftAlone` | deps/libuv/src/unix/async.c:115-119 | when uv__async_close returns the handle is on no queue, and no sender is engaged with it if and only if none had read pending as 0, and gone no further, at its last exchange |
| `AsyncHandles.LeftAloneForEver` | deps/libuv/src/unix/async.c:115-119 | from the return of uv__async_close to the end of the run no sender claims the closed handle, unless one had read pending as 0 at its last exchange |
| `AsyncHandles.ClosedHandleClaimed` | deps/libuv/src/unix/async.c:63-119 | such a sender does claim the closed handle: the run |
| `AsyncHandles.FinishingDoesWork` | deps/libuv/src/unix/async.c:85-165 | every step that finishes something begun lowers a measure: nothing circulates for ever |
| `AsyncHandles.UntilAllQuietWorkGoesOn` | deps/libuv/src/unix/async.c:85-165 | short of the state in which every send has been answered and all threads are idle, such a step is possible; with the measure, every send is answered |
| `AsyncHandles.FinishKeeps` | deps/libuv/src/unix/async.c:75-77 | the second exchange always finds 1 |
| `HttpInvariants.TransitionTablesAreNeverOverrun` | src/http.h:832-835 | in every run of the machine, on any input whose declared lengths are not negative, the framing state never becomes the error state, which has no row in hs_meta_transitions, nor the parser state BR, which has none in hs_transitions, before an error is reported |
| `HttpInvariants.StartsAreOverrunIff` | src/http.h:713-720 | hs_token_start_states, which is read at src/http.h:855 on every change of state, has no entry for BR: it is read past its end if and only if the byte leads to BR |
| `HttpInvariants.OverrunMakesNoDifference` | src/http.h:850-946 | whatever is read there, the same tokens are given and the request ends in the same error |
| `HttpInvariants.StepCoherent` | src/http.h:843-949 | each parser state goes with few framing states, its token, and body counters within the declared length |
| `HttpStream.Stream.ReadSocket` | src/http.h:724-758 | reads append what the socket has, growing the buffer to at most 8 MB, and end the session exactly at the peer's end of file or on a full buffer |
| `HttpStream.Stream.Shift` | src/http.h:817-828 | shifting leaves the bytes up to the anchor and the current token's bytes, in order, and drops the rest |
| `HttpStream.Stream.Jump` | src/http.h:780-787 | a jump moves by its whole offset, forwards or back within the token, or not at all |
| `HttpStream.Stream.JumpAll` | src/http.h:789-796 | the rest of the buffer is taken into the token |
| `HttpParser.Parser.TransitionAction` | src/http.h:843-949 | hs_transition_action in place, for bodies kept whole and for bodies handed over as they arrive: fields, stream and emitted token together |
| `HttpParser.Parser.MatchAgainst` | src/http.h:837-841 | HS_MATCH, with the character it leaves behind for the next match |
| `HttpRefinement.HeadTransition` | src/http.h:970-981 | outside bodies a transition on the buffer is a step of the byte-at-a-time machine: same fields, same token bytes |
| `HttpRefinement.BodyBytes` | src/http.h:923-940 | consuming a body byte by byte is consuming it in one jump |
| `HttpRefinement.BodyTurn` | src/http.h:923-940 | a jump over what the buffer holds of a body is that many steps of the machine |
| `HttpRefinement.LastChunkStep` | src/http.h:923-940 | the empty chunk is emitted without taking a byte, and the byte that follows means what it would have meant |
| `HttpRefinement.ShiftKeeps` | src/http.h:982-982 | moving a partly read chunk loses none of it |
| `HttpRefinement.MoreInput` | src/http.h:733-743 | more input changes nothing that has been read |
| `HttpRequest.Request.Parse` | src/http.h:966-993 | http_parse returns the machine's next token, with its bytes, or none exactly when all that was received has been used up |
| `HttpRequest.Request.Receive` | src/http.h:724-758 | a read, of any length, only adds input; it ends the session at the peer's end of file or on a full buffer |
| `HttpServe.Serve` | src/http.h:1110-1143 | for every split of a request into pieces the tokens returned are those of the byte-at-a-time machine on the concatenation, but for a refusal at the first place where the input runs out inside a start-line or header token over the limit; for requests below half the largest buffer these places are exactly the ends of the pieces, else there may be more; only a request larger than the buffer can be given up |
| `HttpServe.ServeAndClose` | src/http.h:757-758 | when the peer closes in the event that brings the last bytes, only what came before that event is answered, for requests below half the largest buffer: a request completed by those bytes gets no answer |
| `HttpUpload.Upload.HandOver` | src/http.h:923-943 | for every split of a body too large for the buffer, and of what follows it, into reads: the chunks given to the application, each but the end's not empty, are together what has arrived of the body, up to exactly the declared length as an int, neither more nor less; then the empty chunk is given, but for the case below |
| `HttpUpload.Upload.ReadChunk` | src/http.h:1110-1149 | a call of http_request_read_chunk gives what is there of the body, from the place behind the head, and the session dies if and only if the body has ended where the largest buffer does with nothing after it |
| `HttpUpload.Upload.LastFills` | src/http.h:724-758 | when the last bytes of a body fill the largest buffer the read that would let the empty chunk be given has no room, returns 0 and ends the session |
| `HttpUpload.StreamsIff` | src/http.h:896-908 | a request becomes one whose body is handed over as it arrives if and only if its head declares a length that the buffer cannot contain behind it |
| `HttpUpload.StreamsInPlace` | src/http.h:896-908 | there the parser on its buffer returns BODY_STREAM with the fields of the machine, the stream behind the head and no token, which is how an upload begins |
| `HttpUpload.WholeIff` | src/http.h:926-926 | all of the declared length is handed over if and only if it fits an int |
| `HttpUpload.LongBodyIsCut` | src/http.h:926-926 | of 4294967301 declared bytes five are |
| `HttpAnswers.RefusedIff` | src/http.h:984-991 | a request is answered with an error if and only if the input runs out at least once inside a token of the head that is too long by then, or the machine itself finds an error |
| `HttpAnswers.SplitNeverMattersIff` | src/http.h:984-991 | the answer is the same for every split if and only if each token that grows too long would be the last thing before an error anyway |
| `HttpAnswers.CleanAnswer` | src/http.h:966-993 | fragmentation independence: a request no token of whose head is too long is answered with its tokens, wherever the input runs out |
| `HttpChunks.OneChunk` | src/http.h:910-943 | a chunk in any hex case, with leading zeros or an accepted extension, becomes one CHUNK_BODY token with exactly its data |
| `HttpChunks.LastChunkEnds` | src/http.h:910-964 | the zero chunk becomes an empty CHUNK_BODY token and the end of the request |
| `HttpChunks.ChunkedRequest` | src/http.h:910-964 | after any head that asks for chunks, every list of non-empty chunks yields exactly those tokens, in order, then an empty one, then REQ_END, and the request is one the fragmentation result covers |
| `HttpHeads.HeadRead` | src/http.h:628-949 | every head in the grammar, which is written in the numbers of the bytes, with values that are empty or end in blanks, comes to exactly one machine: the line after an empty value is taken for the value, an empty last value swallows the end of the head, and the framing is what the pairs that are seen make of it |
| `HttpHeads.NoHeaders` | src/http.h:635-641 | a request line without a header line is an error |
| `HttpGrammar.SeenIsOwnIff` | src/http.h:640-641 | the lines are reported as they are written if and only if no value is empty |
| `HttpLanguage.Classes` | src/http.h:691-711 | which bytes have which class, by their numbers |
| `HttpLanguage.Words` | src/http.h:883-889 | what names and values are compared with, as text |
| `HttpLanguage.HexDigits` | src/http.h:910-921 | what a hexadecimal digit counts, in either case |
| `HttpLanguage.BrokenIff` | src/http.h:628-655 | outside the error state a byte leads to it if and only if it is not among the bytes, given by their numbers, that may follow in the state |
| `HttpLanguage.StepFailsIff` | src/http.h:843-949 | a byte is refused if and only if it may not follow, or begins the 128th header name; the token for it is the error |
| `HttpLanguage.RefusesExactly` | src/http.h:628-949 | an input is refused if and only if one of its bytes is such a byte where the machine then is |
| `HttpLanguage.BadEnds` | src/http.h:843-949 | nothing after such a byte is looked at: the error is the last token, whatever follows |
| `HttpFraming.ChunkedIff` | src/http.h:837-912 | the framing is that of a chunked body if and only if the first header that settles it says so, a beginning of either word being taken for the word |
| `HttpFraming.ReadAsChunkedIff` | src/http.h:628-949 | a head gives exactly its tokens and waits for chunks if and only if no value is empty and some header says that the body is chunked before any other settles the framing |
| `HttpFraming.ReadAsChunkedExactly` | src/http.h:628-949 | with one Transfer-Encoding header of chunked, in any case and with any blanks after it, and no other header about framing: if and only if no value is empty and there are no such blanks |
| `HttpFraming.HeadIsChunked` | src/http.h:628-993 | such a head, with no token over the limit, is one the results on chunks and on fragmentation cover |
| `HttpFraming.ChunkedMessage` | src/http.h:628-993 | a whole chunked request is exactly the tokens of its head, its chunks in order, an empty chunk and the end, and is one the fragmentation result covers |
| `HttpFraming.NeverEnds` | src/http.h:640-641 | a head whose last value is empty, after the others are paired, never ends: the parser still waits for the value after the empty line |
| `HttpFraming.ReadWithBodyIff` | src/http.h:628-949 | a request with a declared length comes out whole, with exactly the bytes of its body as the body token and the end after it, if and only if the number made of the value is that of the bytes and the buffer can contain it |
| `HttpFraming.ReadWithAnyLength` | src/http.h:891-894 | with one Content-Length header of any value and no other about framing: if and only if the value, every byte taken for a digit, spells the number of bytes and the buffer can contain them |
| `HttpFraming.ReadWithBodyExactly` | src/http.h:891-894 | when the value is the digits of that number and blanks after them: if and only if there are no blanks |
| `HttpFraming.DigitsExactly` | src/http.h:891-894 | digits with blanks after them never spell the number the digits spell |
| `HttpFraming.BodyMessage` | src/http.h:628-993 | such a request, with no token over the limit, is one the fragmentation result covers |
| `HttpTokens.KeyFrames` | src/http.h:837-886 | what the comparison of a header name, byte by byte with the character left behind, comes to at its end |
| `HttpTokens.ValueFrames` | src/http.h:887-895 | the same for a value, with the length it declares |
| `HttpExamples.BeginningIsTaken` | src/http.h:837-841 | a head with a name that begins Transfer-Encoding and a value that begins chunked, such as T: chunked, waits for chunks |
| `HttpExamples.EmptyValueHidesLine` | src/http.h:640-641 | after a header without a value the next line is its value, Transfer-Encoding or not: the request has no body |
| `HttpExamples.EmptyValueNeverEnds` | src/http.h:640-641 | with such a header last the head does not end |
| `HttpExamples.BlankHidesChunked` | src/http.h:887-890 | with a blank after chunked the request has no body |
| `HttpExamples.ColonCounts` | src/http.h:891-894 | Content-Length: 4: is taken for fifty |
| `HttpExamples.SplitMatters` | src/http.h:984-991 | a request with a method over the limit is refused when a read ends after it, and answered when all comes at once |
| `TimerHeap.Heap.Swap` | deps/libuv/src/heap-inl.h:71-104 | heap_node_swap exchanges the numbers of a parent and a child and keeps the tree complete and linked |
| `TimerHeap.Heap.Insert` | deps/libuv/src/heap-inl.h:106-148 | heap_insert keeps the tree complete, linked and ordered, and adds exactly the node |
| `TimerHeap.Heap.Remove` | deps/libuv/src/heap-inl.h:150-237 | heap_remove keeps all of that and takes out exactly the node |
| `TimerHeap.Heap.Dequeue` | deps/libuv/src/heap-inl.h:239-241 | heap_dequeue takes out the minimum |
| `TimerHeap.Heap.MinIsLeast` | deps/libuv/src/heap-inl.h:67-69 | heap->min is not after any node |
| `TimerHeap.Heap.Descend` | deps/libuv/src/heap-inl.h:126-136 | following the bits of a number leads to the node, or free place, with that number |
| `TimerHeap.PathTo` | deps/libuv/src/heap-inl.h:119-124 | the path computed from a number leads back to it |
| `TimerHeap.SwapComplete` | deps/libuv/src/heap-inl.h:71-104 | the pointer values after a swap are those of the complete tree with two nodes exchanged |
| `TimerHeap.AppendComplete` | deps/libuv/src/heap-inl.h:138-141 | a node hung in the first free place of the bottom row keeps the tree complete |
| `TimerHeap.DropComplete` | deps/libuv/src/heap-inl.h:181-185 | unlinking the last node of the bottom row keeps the tree complete |
| `TimerHeap.ReplaceComplete` | deps/libuv/src/heap-inl.h:195-214 | a node that takes over another's pointers takes over its place |
| `TimerHeap.MovedUp` | deps/libuv/src/heap-inl.h:143-147 | swapping a node with a later parent leaves only that node possibly out of order with its new parent |
| `TimerHeap.MovedDown` | deps/libuv/src/heap-inl.h:216-229 | swapping a node with its least child leaves only that node possibly out of order |
| `TimerHeap.RootLeast` | deps/libuv/src/heap-inl.h:36-43 | in an ordered complete tree nothing is before the root |
| `Timers.Loop.Start` | deps/libuv/src/timer.c:67-95 | uv_timer_start schedules at loop time plus timeout, clamped at the largest 64-bit value, with the next start id; EINVAL changes nothing |
| `Timers.ClampedIsLater` | deps/libuv/src/timer.c:79-81 | the due time is the sum, or the largest time when the sum is beyond it |
| `Timers.Loop.Stop` | deps/libuv/src/timer.c:98-108 | uv_timer_stop takes exactly the handle out |
| `Timers.Loop.Again` | deps/libuv/src/timer.c:111-121 | uv_timer_again restarts a repeating timer and leaves any other alone |
| `Timers.Loop.NextTimeout` | deps/libuv/src/timer.c:142-160 | uv__next_timeout is -1 exactly when no timer is active, 0 exactly when one is due, else the time to the first, within an int |
| `Timers.Loop.RunTimers` | deps/libuv/src/timer.c:163-180 | when callbacks touch no timers uv__run_timers terminates, fires exactly the due timers, once each, in order of due time and start id, re-arms exactly the repeating ones and leaves every active timer later than now |
| `TimerCallbacks.RunTimers` | deps/libuv/src/timer.c:163-180 | whatever callbacks start, stop, restart or close: timers fire, each of them due, strictly in order of due time and start id; every due timer that no callback touches fires; the loop ends after no more callbacks than were due at first and than timers are started by them with a timeout of zero, with nothing due left; and it does not end as long as each callback starts one due timer so |
| `TimerCallbacks.Act` | deps/libuv/src/timer.c:67-129 | an operation changes the schedule of its own handle alone, and a key it gives is not before now, is at now only for a timeout of zero, and has a new start id |
| `TimerCallbacks.GoingOn` | deps/libuv/src/timer.c:163-180 | one turn, with whatever its callback does, keeps the order of what has fired, the count of what is due, and the account of untouched timers |
| `TimerCallbacks.DueNext` | deps/libuv/src/timer.c:163-180 | a turn takes one timer from those that are due, and only starts with a timeout of zero add to them |
| `Utf8.Decode1` | deps/libuv/src/idna.c:24-97 | uv__utf8_decode1, on any bytes, is its specification: the code point or -1 that the results below are about, and the place after what it reads |
| `Utf8Reading.TakenIff` | deps/libuv/src/idna.c:68-85 | a sequence is taken for a code point if and only if, the two high bits of the bytes after the first put right, it is the spelling of section 3 of RFC 3629, and the exclusive or of those bits is what the test there asks |
| `Utf8Reading.SpellsIff` | deps/libuv/src/idna.c:68-69 | what is taken for a code point spells it if and only if each byte after the first is one that may follow: the test does not look at each |
| `Utf8Reading.PointsIff` | deps/libuv/src/idna.c:99-100 | foreach_codepoint goes through cs, none of them invalid, if and only if the bytes up to some place are taken for cs and after it there is nothing or a sequence that the end cuts off |
| `Utf8Reading.SpelledPoints` | deps/libuv/src/idna.c:24-100 | where UTF-8 of section 3 of RFC 3629 is, exactly its code points are gone through |
| `Utf8Reading.SpelledIff` | deps/libuv/src/idna.c:24-100 | what is gone through without anything invalid is what the bytes spell if and only if no sequence is cut off and each byte after the first of one may follow |
| `Utf8Reading.LettersAreTaken` | deps/libuv/src/idna.c:68-69 | the bytes E4 41 42 are taken for U+4042 |
| `Utf8Reading.CutIsDropped` | deps/libuv/src/idna.c:99-100 | a first byte at the end of a label is passed over without an error |
| `Punycode.ReadsBack` | deps/libuv/src/idna.c:192-218 | a generalized variable-length integer as the encoder writes it is read back by the loop of section 6.2 of RFC 3492, whatever follows |
| `Punycode.InsertedOne` | deps/libuv/src/idna.c:184-239 | one code point written moves the decoder to the encoder's code point and place and inserts it there |
| `Punycode.PassDecodes` | deps/libuv/src/idna.c:183-239 | a pass for one code point writes what the decoder reads |
| `Punycode.RoundTrip` | deps/libuv/src/idna.c:102-246 | what the encoder makes of any label the decoder of section 6.2 of RFC 3492 turns back into the label |
| `PunycodeValues.ThresholdIs` | deps/libuv/src/idna.c:193-199 | the threshold is 1 up to bias + 1, 26 from bias + 26, and k - bias between |
| `PunycodeValues.AlphabetIs` | deps/libuv/src/idna.c:104-104 | the digits are a to z and 0 to 9 |
| `PunycodeValues.SettleIs` | deps/libuv/src/idna.c:233-236 | in one step: delta is divided by 35 until it is at most 455, each time adding 36, and 36 x / (x + 38) is added for what is left |
| `PunycodeValues.AdaptIs` | deps/libuv/src/idna.c:220-236 | the bias after a code point, the first of a label or a later one, in these terms |
| `PunycodeValues.BuecherIs` | deps/libuv/src/idna.c:102-246 | the code points of the German word for books become xn--bcher-kva |
| `PunycodeValues.NihongoIs` | deps/libuv/src/idna.c:102-246 | the three code points 65E5, 672C and 8A9E become xn--wgv71a119e, over three biases |
| `PunycodeValues.StopsAre` | deps/libuv/src/idna.c:262-277 | four code points, and no others, end a label, which is written in its ASCII form with a full stop after it |
| `IdnaAscii.LabelToAscii` | deps/libuv/src/idna.c:102-246 | for any bytes: EINVAL, with nothing written, if and only if one of the code points gone through is invalid; else the ASCII form of the label is written, unchanged when it is ASCII, else xn-- and the encoding; E2BIG only when the label is so long that delta could pass 32 bits |
| `IdnaAscii.Output.Put` | deps/libuv/src/idna.c:134-137 | what does not fit is dropped: the buffer always holds a prefix of what would have been written |
| `IdnaAscii.OneRound` | deps/libuv/src/idna.c:166-243 | one turn of the outer loop, with its overflow test exact |
| `IdnaAscii.TestIsExact` | deps/libuv/src/idna.c:174-180 | the overflow test fires exactly when the 32-bit sum would wrap |
| `IdnaAscii.ToAscii` | deps/libuv/src/idna.c:250-291 | for any bytes: a whole name, with any of the four full stops between labels, becomes the ASCII forms of its labels joined by full stops, and the count returned is the bytes written; EINVAL only when one of the code points is invalid, and success only when none is |
| `IdnaAscii.SeenIsPoints` | deps/libuv/src/idna.c:258-277 | the loop over a name goes through what foreach_codepoint does, and a full stop that the end cuts off |
| `IdnaAscii.SpelledName` | deps/libuv/src/idna.c:250-291 | a name in UTF-8 of section 3 of RFC 3629 is gone through as it is spelled |
| `InetText.Ntop4` | deps/libuv/src/inet.c:53-64 | the dotted text when it fits with its end, else no space |
| `InetText.BestRun` | deps/libuv/src/inet.c:79-113 | the loop finds the run that section 4.2.3 of RFC 5952 shortens: of at least two zero words, longest, and first of that length |
| `InetText.Ntop6` | deps/libuv/src/inet.c:67-147 | the text written shortens the run that sections 4.2.2 and 4.2.3 of RFC 5952 choose and ends in a dotted address in the forms the code treats as encapsulated; a destination too small for it is an error, one of size zero is left alone |
| `InetForms.TextIs` | deps/libuv/src/inet.c:67-147 | the text written is that of one form: the words in hexadecimal with the first longest run of zeros shortened, and the last four octets dotted for the mapped addresses and those compatible ones that are dotted |
| `InetForms.MappedIs` | deps/libuv/src/inet.c:128-133 | ten zero octets and two of 255 are written as ::ffff: and the dotted text of the rest |
| `InetForms.CompatibleIs` | deps/libuv/src/inet.c:128-133 | twelve zero octets, and then two that are not both zero, are written as :: and the dotted text of the rest |
| `InetForms.LastWordIs` | deps/libuv/src/inet.c:118-131 | fourteen zero octets are written as :: and the last word in hexadecimal: the branch for a run of seven words is never reached |
| `InetForms.PlainIs` | deps/libuv/src/inet.c:116-139 | every other address, and no other, is written in colons and lower-case hexadecimal digits alone |
| `Digits.HexSpells` | deps/libuv/src/inet.c:138-138 | the hexadecimal text is the numeral of the word in lower-case digits with no leading zero |
| `Digits.DecimalSpells` | deps/libuv/src/inet.c:53-64 | the decimal text is the numeral of the number with no leading zero |
| `InetParse.Pton4` | deps/libuv/src/inet.c:179-215 | inet_pton4 is its specification, with four octets whenever it accepts |
| `InetParse.ShiftRight` | deps/libuv/src/inet.c:280-297 | the shift by hand fills the double colon with zeros and keeps the bytes after it in order |
| `InetParse.Pton6` | deps/libuv/src/inet.c:218-302 | inet_pton6 is its specification, which `Exact6` characterises |
| `InetGrammar.Exact6` | deps/libuv/src/inet.c:218-302 | inet_pton6 accepts a text for an address if and only if it is groups of one to four hexadecimal digits with colons between, an IPv4 address as inet_ntop4 writes it perhaps in the place of the last two, and perhaps one double colon for the zeros of at least one group that is missing; and the address is that |
| `InetParse.Pton6Zone` | deps/libuv/src/inet.c:150-176 | for AF_INET6 everything from the first percent sign on is left out, if what is before it fits |
| `InetRoundTrip.Exact4` | deps/libuv/src/inet.c:53-215 | inet_pton4 accepts a text for an address if and only if it is what inet_ntop4 writes for it |
| `InetRoundTrip.FormatIsRead` | deps/libuv/src/inet.c:116-302 | whichever run of zeros is shortened, and in the encapsulated forms too, the text reads back as the address |
| `InetRoundTrip.RoundTrip6` | deps/libuv/src/inet.c:67-302 | what inet_ntop6 writes for any address inet_pton6 reads back |
| `InetRoundTrip.OneText6` | deps/libuv/src/inet.c:67-147 | two addresses are the same if and only if their texts are |
| `InetRoundTrip.ZoneIsIgnored` | deps/libuv/src/inet.c:155-170 | a zone after a written address changes nothing that is read |
| `LogBuffer.KeptMore` | deps/zlog/src/buf.c:141-158 | writing what still fits and overlaying the end with the truncation text keeps what would be kept of everything written so far |
| `LogBuffer.Buf.Holds` | deps/zlog/src/buf.c:141-158 | by position: the contents are all that was written, or, at the limit, its first size_max - 1 characters with the last of them taken by the truncation text, as far as it fits |
| `LogBuffer.AdjustedIs` | deps/zlog/src/buf.c:548-648 | by position: the text cut to one width, with spaces after it, or spaces or zeros before it, up to the other |
| `Digits.PaddedIs` | deps/zlog/src/buf.c:326-328 | by position: the digits, with zeros before them up to the width |
| `LogBuffer.Buf.Resize` | deps/zlog/src/buf.c:160-205 | a resize keeps the contents and makes the room asked for, or says that the limit does not allow it |
| `LogBuffer.Buf.Truncate` | deps/zlog/src/buf.c:141-158 | the last places of the contents take the beginning of the truncation text, as far as they reach back, and the places before them keep what they held |
| `LogBuffer.Buf.Append` | deps/zlog/src/buf.c:505-546 | after any sequence of writes the contents are all of them, or their beginning overlaid at the limit; the result says which |
| `LogBuffer.Buf.Vprintf` | deps/zlog/src/buf.c:207-265 | the same for a formatted text, whose second attempt does not come short |
| `LogBuffer.Buf.AdjustAppend` | deps/zlog/src/buf.c:548-648 | the same for a text cut to one width and padded on one side to another |
| `LogBuffer.Buf.PrintfDec32` | deps/zlog/src/buf.c:268-330 | the same for the decimal digits of a 32-bit number, padded with zeros to the width |
| `LogBuffer.Buf.PrintfDec64` | deps/zlog/src/buf.c:333-421 | the same for a 64-bit number |
| `LogBuffer.Buf.PrintfHex` | deps/zlog/src/buf.c:424-502 | the same for hexadecimal digits |
| `ArrayList.List.Set` | deps/zlog/src/zc_arraylist.c:77-90 | setting grows the array where it must, and puts null between the old end and the new item; the place for the item is inside the grown array if and only if the index is below twice the size |
| `ArrayList.List.InsertInner` | deps/zlog/src/zc_arraylist.c:98-116 | the item takes an empty place, or moves every later item up by one |
| `ArrayList.List.SortAdd` | deps/zlog/src/zc_arraylist.c:118-132 | the item goes before the first one that is greater, and the others keep their order |
| `ArchiveNames.NameIsRead` | deps/zlog/src/rotater.c:160-168 | the index that a name was made of is what sscanf reads back from it, and it passes the width test |
| `ArchiveNames.NameIs` | deps/zlog/src/rotater.c:313-316 | a name has the index between its two parts, in decimal digits with no more zeros ahead than the width asks for |
| `ArchiveNames.NumeralIsRead` | deps/zlog/src/rotater.c:160-160 | sscanf reads white space, a sign and digits from the beginning of any text, and their value |
| `ArchiveNames.ReadIsNumeral` | deps/zlog/src/rotater.c:160-160 | and nothing else |
| `ArchiveList.SortedAdded` | deps/zlog/src/rotater.c:176-179 | sorted insertion keeps a sorted list of archives sorted and adds exactly one |
| `ArchiveList.CollectedSorted` | deps/zlog/src/rotater.c:181-230 | whatever order the directory is read in, the list is in order of index |
| `Rolling.RollsExactly` | deps/zlog/src/rotater.c:285-345 | for any list of files, with any names and any indices, repeated ones too, and any limit: rolling puts the log and every file of the list that is kept at the name after its place and changes nothing else, if and only if no file of the list lies at the name that a file two or more places later is moved to |
| `Rolling.GapLoses` | deps/zlog/src/rotater.c:290-325 | with only archives 2 and 3 present, rolling loses one |
| `Rotater.RollsAnyDirectory` | deps/zlog/src/rotater.c:181-345 | the same from any directory, whatever matches the pattern in it and whatever order it is read in |
| `Rotater.SequenceIsAbove` | deps/zlog/src/rotater.c:250-262 | in any directory the index a sequence rotation takes is above every listed one and not below their number, and no larger than that asks for; no file has its name |
| `Rotater.SequenceOverwritesNothing` | deps/zlog/src/rotater.c:232-282 | a sequence rotation changes no file but the log and those the limit removes |
| `Rotater.RollingHolds` | deps/zlog/src/rotater.c:285-345 | from a directory that holds the history, rolling leads to one that holds it with the log as its newest body |
| `Rotater.SequenceHolds` | deps/zlog/src/rotater.c:232-282 | the same for sequence rotation, archive n holding what the log held at rotation n |
| `Rotater.Rotater.AddArchiveFiles` | deps/zlog/src/rotater.c:181-230 | the list made through zc_arraylist is the sorted list of the archives in the directory |
| `Rotater.Rotater.RollFiles` | deps/zlog/src/rotater.c:285-345 | the loop on the list has the effect, and fails exactly where, its specification says |
| `Rotater.Rotater.SeqFiles` | deps/zlog/src/rotater.c:232-282 | the same for sequence rotation |
| `Rotater.Rotater.Lsmv` | deps/zlog/src/rotater.c:427-466 | after any number of rotations the archives are the newest bodies of the log, and a rotation that succeeds adds the log to them |
| `HttpMemory.Session.ReadSocket` | src/http.h:724-758 | reads and growth change memused by what the session's buffer changes |
| `HttpMemory.Session.EndResponse` | src/http.h:1502-1517 | the response's buffer takes the place of the request's, and what the application does once it is written keeps the account |
| `HttpMemory.Session.WriteResponse` | src/http.h:1072-1100 | writing, the next chunk from the application and keep-alive reuse keep the account, and a session that waits for a request holds no buffer |
| `HttpMemory.Session.ReadAndProcess` | src/http.h:1110-1143 | whatever the parser finds and the application does in its callbacks, nested to any depth, memused changes by what the session's buffer changes |
| `HttpMemory.Session.Begin` | src/http.h:1046-1055 | clearing the stream loses no buffer |
| `HttpMemory.Session.OnEvent` | src/http.h:1153-1172 | the same for every event of a session |
| `HttpMemory.Host.Accept` | src/http.h:1174-1191 | with a new session memused stays the sum of the capacities of all live sessions' buffers |
| `HttpMemory.Host.OnIo` | src/http.h:1153-1172 | after any event of any session, ended or not, memused is that sum |
| `HttpMemory.Host.End` | src/http.h:1057-1064 | a session that ends, at any time, takes its buffer out of the sum |
| `HttpMemory.SumWithout` | src/http.h:1038-1044 | the sum does not depend on the order in which sessions are taken |
| `HashTable.Table.Put` | deps/zlog/src/zc_hashtable.c:179-232 | after a put, with or without a rehash, every lookup gives the new value for keys equal to this one and what it gave before for all others; nelem grows exactly when the key is new, and there stay no more than thirteen entries for ten buckets, and one |
| `HashTable.Table.Get` | deps/zlog/src/zc_hashtable.c:165-177 | the value under the key in the map the entries are, or none |
| `HashTable.Table.GetEntry` | deps/zlog/src/zc_hashtable.c:151-163 | the loop along one chain finds the entry exactly when some entry of the table has an equal key |
| `HashTable.Table.Remove` | deps/zlog/src/zc_hashtable.c:234-278 | after a removal keys equal to this one have nothing and every other lookup is as before; the chain is linked around the entry and nelem counts one less |
| `HashTable.Table.Rehash` | deps/zlog/src/zc_hashtable.c:114-149 | every entry goes to its bucket in a table twice as large, with its key and value; no lookup changes |
| `HashTable.Table.MoveChain` | deps/zlog/src/zc_hashtable.c:128-142 | the loop over one chain moves each of its entries once, while the rest of the chain stays readable |
| `HashTable.Table.Clean` | deps/zlog/src/zc_hashtable.c:91-112 | nothing is left, and every entry has been given back exactly once |
| `HashTable.Table.Next` | deps/zlog/src/zc_hashtable.c:295-312 | the entry after this one in the order of buckets and chains |
| `HashTable.Table.Foreach` | deps/zlog/src/zc_hashtable.c:280-312 | begin and next visit every entry exactly once |
| `HashShape.PrependedLaid` | deps/zlog/src/zc_hashtable.c:218-227 | an entry put first in its chain keeps all buckets doubly linked with every entry in the bucket of its hash |
| `HashShape.CutLaid` | deps/zlog/src/zc_hashtable.c:262-272 | so does unlinking any entry, by its neighbours or by its bucket |
| `HashMoves.PutFresh` | deps/zlog/src/zc_hashtable.c:212-228 | a new entry puts its value under its key in the map and changes nothing else |
| `HashMoves.CutOut` | deps/zlog/src/zc_hashtable.c:256-276 | unlinking an entry takes its key out of the map and changes nothing else |
| `HashMoves.AllMoved` | deps/zlog/src/zc_hashtable.c:128-147 | entries that have all been moved are the same map |
| `HashOrder.AllOnce` | deps/zlog/src/zc_hashtable.c:280-312 | bucket after bucket, each along its chain, comes to every entry of the table once |
| `RuleLevels.LevelBitmap` | deps/zlog/src/rule.c:672-690 | for every compare character and every level, the unknown level -1 included, a bit of the bitmap is set exactly when the rule outputs at that level |
| `RuleLevels.LastBitsIs` | deps/zlog/src/rule.c:686-686 | the shift and truncation to a byte set exactly the bits from the level's own on |
| `RuleLevels.OutputsIff` | deps/zlog/src/rule.c:969-1000 | which levels each compare character outputs at |
| `Categories.MatchesIff` | deps/zlog/src/rule.c:1012-1039 | a rule matches a category when it is a star, the name itself, or ends in an underscore and the name is what is before it or begins with it; nothing else |
| `Categories.Category.ObtainRules` | deps/zlog/src/category.c:57-112 | a category gets the matching rules in order, or, when there are none, the wastebin rule after which there is no other, and a bitmap whose bit for a level is set exactly when one of them outputs at it; a failure leaves it without rules |
| `Categories.FitRulesIs` | deps/zlog/src/category.c:57-112 | when some rule matches the category has those that match and no wastebin rule; when none does and none is a wastebin rule, it has none |
| `Categories.WastebinIs` | deps/zlog/src/category.c:91-105 | when none matches it has the one wastebin rule after which there is no other |
| `Categories.MatchingParts` | deps/zlog/src/category.c:66-89 | those that match are in the order of all rules, each as often as it is there |
| `Categories.Category.Log` | deps/zlog/src/zlog.c:624-660 | with such a bitmap an event is handed to the same rules as if the bitmap were not looked at |
| `Categories.Category.LevelSwitch` | deps/zlog/src/zlog.c:612-622 | after zlog_level_switch that is so if and only if no rule outputs below the level |
| `Categories.SwitchLoses` | deps/zlog/src/zlog.c:612-622 | after a switch an event below the level at which a rule outputs is lost |
| `Categories.LostEvent` | deps/zlog/src/zlog.c:612-622 | there is one: a rule for everything, level 0 after a switch to level 1 |
| `Categories.OutputtingIff` | deps/zlog/src/category.c:221-233 | the rules are handed an event exactly when one of them outputs at its level |
| `Categories.HandedIff` | deps/zlog/src/rule.c:969-1000 | an event of level l is handed to a rule of . if and only if l is not below the rule's level, of = if they are equal, of ! if they are not, and of * always |
| `Categories.OutputtingParts` | deps/zlog/src/category.c:221-233 | in the order of the category's rules, each as often as it is there |
| `Categories.RollbackRestores` | deps/zlog/src/category.c:192-217 | rolling back brings rules and bitmap back whether the update succeeded or failed, if and only if there were rules before |
| `CategoryTable.Table.UpdateRules` | deps/zlog/src/category_table.c:57-71 | the table's update goes up to the first category that fails, which is left without rules, and does not touch those after it |
| `CategoryTable.RollbackUndoes` | deps/zlog/src/category_table.c:57-97 | an update of the table that succeeds or fails anywhere, followed by a rollback of the table, leaves every category with the rules and the bitmap it had |
| `CategoryTable.CommitKeeps` | deps/zlog/src/category_table.c:57-84 | after an update that succeeds and its commit every category has the new rules and a bitmap that agrees with them |
| `CategoryTable.FailureLeaves` | deps/zlog/src/zlog.c:258-282 | without the rollback a failed update leaves a category with no rules |
| `CategoryTable.FailureHappens` | deps/zlog/src/category.c:57-112 | the update can fail at any category of any table |
| `CategoryTable.ReloadBreaks` | deps/zlog/src/zlog.c:258-282 | from a settled table of any names and rules a failing reload leads to one that is settled with neither the old nor the new rules: the tables |
| `CategoryTable.Table.Fetch` | deps/zlog/src/category_table.c:100-128 | a category is made with the current rules exactly when there is none of the name, and all agree with the rules as before |

## Left out

- RB_PREV, RB_MAX and the reverse traversals of tree.h: mirrors of RB_NEXT and RB_MIN; RB_AUGMENT is empty in the source. SPLAY_MINMAX, and SPLAY_MIN, SPLAY_MAX and SPLAY_FOREACH that need it.
- Keys of both trees are integers, standing for any total order given by the comparison function.
- Threads joining at exit, and a loop that is closed while work is pending, are not part of the thread-pool model; allocation succeeds.
- uv__work_cancel's QUEUE_REMOVE of a request that is in no queue any more writes through the links the request was left with; the model takes this to change no queue (deps/libuv/src/threadpool.c:280-282).
- uv_async_send on a handle after uv__async_close has returned, and the memory of a closed handle, are not part of the async model; a send that begins before that, or while closing, is.
- HttpStream.Stream.Jump: asks that a negative offset lead neither before the buffer nor before the token, where the source's indices would be negative.
- HttpParser.Parser.TransitionAction: asks that the declared length of a body that is kept whole not be negative nor less than what was consumed of it, where a chunk size or Content-Length that has wrapped in an int would jump backwards, and the same, as an int, of a body handed over as it arrives, whose place must not be below the anchor.
- HttpUpload.Upload.HandOver: the application asks for the next chunk in every callback until it is given the empty one; the peer does not close; the head is smaller than the largest buffer; the declared length is not negative as an int.
- HttpInvariants.TransitionTablesAreNeverOverrun: for the two transition tables, and for inputs whose declared lengths never turn negative, for the same reason.
- HttpLanguage.RefusesExactly: for inputs whose declared lengths never turn negative, for the same reason; of bytes in the machine, before the question whether a token fits the buffer, for which see `HttpAnswers.RefusedIff`.
- ThreadPoolFairness.SlowWaitItsTurn: for runs in which no slow request is cancelled.
- ThreadPoolOrder.NoneLeftBehind: for fast requests; slow ones can be left behind, as `ThreadPoolOrder.SlowLeftBehind` shows.
- HttpServe.Serve: asks that declared lengths are not negative and at most the buffer's size, since they pass through an int (src/http.h:925), and that nothing follows a chunked body's end, since src/http.h:970-981 goes on parsing it when it is already in the buffer. Bodies handed over as they arrive are not part of it but of `HttpUpload`.
- HttpServe.ServeAndClose: for requests below half the largest buffer, whose reads take all that is there.
- HttpHeads.HeadRead: for heads of no more than 127 header names, the limit, with blanks before values but none before a colon. A reading of Content-Length by bytes that are no digits can come to the right number by accident; `HttpFraming.ReadWithAnyLength` says when, and no more is said of it.
- HttpInvariants.OverrunMakesNoDifference: what lies past the end of hs_token_start_states is any token type; that such a read is undefined in C is not part of the model.
- In src/http.h: the text of responses (only their buffers' sizes count in `HttpMemory`), what keep-alive is decided from, time-outs, sockets, and the memory of tokens, which memused does not count. A read into a buffer that the application has given back in the middle of a request is taken to fail.
- Callbacks of timers that call uv_update_time; start ids do not wrap, and the loop time is below its largest value, where a clamped repeating timer would be due for ever.
- Timers.Loop.RunTimers: for callbacks that touch no timers; `TimerCallbacks.RunTimers` is for those that do.
- The bytes that uv__utf8_decode1 reads, which can lie past the end of a name, are asked for (`Utf8.Readable`).
- The switch on the address family in inet.c and its UV_EAFNOSUPPORT, and null arguments.
- ArrayList.List.Set: stops short of the write outside the array.
- In zlog: failing allocation outside the exchange of rules, negative widths, a format that vsnprintf refuses; archive_path and its parsing (a place is given by its parts), the locks around a rotation and around a reload, the parsing of rules and their output. The table of categories is a list in the order it is gone through.
- Rotater.RollingHolds: the histories, this one and Rotater.SequenceHolds, are for directories in which nothing matches the pattern but archives under their own names and the log, and for places whose suffix does not begin with a digit; a name such as aa.1x.log or aa.01, which sscanf also reads an index from, is covered by `Rotater.RollsAnyDirectory` and `Rotater.SequenceIsAbove`.
- Rotater.RollsAnyDirectory: for suffixes that do not end in a slash and places none of whose archives is the log itself.
- HashTable.Table.Put: the load factor is compared in real arithmetic, where the source uses doubles. zc_hashtable_del is zc_hashtable_clean and then the table itself.
- deps/libuv/src/queue.h, unix/fs.c and unix/core.c: they would only add easy members.
- Device drivers, the REST and command services, serial I/O, platform files.
