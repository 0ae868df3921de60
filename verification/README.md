# Asio stream buffers, handler storage, binders and the two-timer tutorial: a Dafny model

The repository is a set of tutorial programs on a vendored copy of Asio 1.30. This project models the
parts of it that carry their own state, loops and arithmetic, and proves what they keep over every run.

- **`basic_streambuf`** (`StreamBuf.dfy`, `FifoQueue.dfy`): a get/put buffer over one vector. The class has
  the six positions, the vector's storage, size and address, and `size_t` arithmetic as a bounded integer
  type, so that verification shows that no unsigned subtraction wraps. Every run refines a bounded FIFO
  byte queue (`FifoStep`), about which conservation and order are proved separately.
- **`basic_socket_streambuf`** (`SocketTime.dfy`, `SocketEnvironment.dfy`, `ConnectSpec.dfy`,
  `SocketStreamBuf.dfy`): output with partial sends and deadlines, input behind a putback gap, moves, and
  connecting to a list of endpoints. The operating system is a nondeterministic environment that records
  the bytes on the wire and the system calls made; the clock may advance by any amount.
- **`any_completion_handler`** (`AnyHandler.dfy`, `AlignedAllocator.dfy`): type-erased ownership over a heap
  of handler storage with an event log, and the allocator that hides the way back to the base allocation in
  a trailer of bytes behind the user's block.
- **Associators, binders and `async_initiate`** (`Binders.dfy`): the four association lookups over nests of
  binders and reference wrappers, and initiation, which takes a nest apart and rebuilds it.
- **`timer/timer5.cpp`** (`Timer5.dfy`): two self-rearming timers on a strand, once as the class `printer`
  with whole handlers, once as a step system on any number of threads in which the reads and writes of a
  handler are separate events. The bound 10, the period and the two starting times are parameters.

The types of machine integers, characters and error codes are in `AsioTypes.dfy`.

## Where the code does not do what it says

The model follows the code. Where that differs from the documentation, or from what a caller would expect,
the exact condition under which the code does meet the promise is proved, for all inputs, beside a case in
which it does not.

- `prepare` moves the queued bytes before it may throw, and updates the positions afterwards. After a throw,
  the queue reads `AfterFailedShift` of what it was; it is unchanged if and only if there was no shift, the
  old and new places do not overlap, or the contents repeat with the distance of the shift
  (`FailedShiftHarmless`). `PrepareDamages` is a buffer of four characters on which it happens. A throwing
  `overflow` never shifts.
- `commit(n)` narrows to `int`: it does what is documented if and only if the number of characters to move
  fits an `int` (`Commit`). `CommitMovesBack` commits 2^31 prepared characters.
- `consume(n)` promises to consume everything when n exceeds the size, but compares machine addresses: if
  `gptr() + n` goes round the end of the address space, the request is taken as it is and narrowed to `int`
  (`Consume`, `ConsumeExact`). `ConsumePutsBack` asks for the maximum of `size_t` and gets the character that
  was consumed before back into the queue.
- A failed flush leaves everything pending, although a prefix may have been sent: a retry sends it again.
  Output arrives in order and at least once; it arrives exactly once if and only if no output call has failed
  after sending a part (`NothingAcceptedIsLost`, `Run`). A flush that fails after n characters, n > 0, and
  one that then succeeds leave those n on the wire twice (`SyncTwice`).
- `connect_to_endpoints` treats a `poll_connect` that returned 0, because the time was over, as ready.
  SO_ERROR is then still 0 if the attempt is undecided, and success is reported. A success can be relied on
  if and only if the last poll did not run out: otherwise the same calls with the same results are possible
  without a connection (`SuccessTells`, `SuccessIsConnection`). `UndecidedLooksConnected` is one endpoint that
  does not answer in time.
- `basic_socket_streambuf::close` reports success although its flush failed, and what was pending is gone: a
  successful close keeps what was accepted if and only if the flush succeeded, which it does whenever nothing
  is pending, and never does with output pending after the deadline (`Close`); in between it depends on the
  peer, and the system calls show how it went. `LateCloseLoses` puts one character and closes.
- A move forgets pending output, since the new put area begins at the old put pointer (`Move`,
  `MoveAssign`); accepted output is kept if and only if none was pending. `connect` forgets it too
  (`Connect`).
- A call takes the storage of an `any_completion_handler` but not its function table, and moves, swaps and
  assignments carry the table along. An association lookup, which tests only the table, then asks storage that
  is not there. As values, wrappers are empty, hold a handler, or are spent; in every program, a lookup is in
  order if and only if the wrapper's value is not spent (`RunOps`). The spent wrapper need not be the one that
  was called (`CalledThenMoved`).

## Assumptions

- Vectors: resizing never fails; the storage may lie anywhere below the end of a 64-bit address space.
- Sockets: a send takes a prefix of the data, nothing, or leaves an error; a receive yields at most what was
  asked for, the end of the stream, or an error; a poll takes at least one tick of the clock, is ready, not
  ready in time, or leaves an error; a positive `poll_connect` means that the attempt is decided; SO_ERROR
  is set exactly when the attempt has failed. A socket that is closed has no native handle left, and sending and
  receiving fail on it.
- Time: points in time are counts of nanoseconds. Readings of the clock do not decrease and are not bounded
  above; the difference to an expiry saturates as `chrono_time_traits::subtract` does.
- Memory: the base allocator returns free places or fails; `detail::align` means what `std::align` means in
  section 20.6.5 of ISO C++11; the size of a request does not exceed a `size_t`. Bytes are written to blocks
  only inside them.
- Timers: the strand lets at most one handler run at a time, and each `async_wait` completes once, not
  before its expiry.
- `std::streambuf` is modelled by its positions and by `sputc`, `sbumpc` and `xsputn`, which call the
  virtual functions only when an area is exhausted (sections 27.6.3.4.3 to 27.6.3.4.5 of ISO C++11).

## Model

| member | source | states |
|---|---|---|
| FifoQueue.Conservation | include/asio/basic_streambuf.hpp:143-254 | at every moment of a run, what was taken out followed by what is queued is what was queued at first followed by what was put in |
| FifoQueue.ReadIsPrefixOfWritten | include/asio/basic_streambuf.hpp:143-254 | from an empty queue, the bytes read are always a prefix of the bytes written, their numbers differ by the size, and the size is within the maximum |
| FifoQueue.CharsReadAreBytesOut | include/asio/basic_streambuf.hpp:263-274 | in a run without consume, the characters returned to callers are exactly the bytes taken out; end-of-file never stands for a byte |
| FifoQueue.StepConservation | include/asio/basic_streambuf.hpp:233-254 | each call of the abstract queue conserves bytes in order |
| FifoQueue.CommitAfterPrepare | include/asio/basic_streambuf.hpp:214-238 | a commit after a prepare that needed more room makes no more readable than was prepared, unless the shift has won back more |
| StreamBuffer.StreamBuf.constructor | include/asio/basic_streambuf.hpp:131-141 | an empty buffer with min(maximum, 128) writable bytes that satisfies the class invariant |
| StreamBuffer.StreamBuf.Size | include/asio/basic_streambuf.hpp:158-161 | the length of the queue, never above the maximum size |
| StreamBuffer.StreamBuf.Data | include/asio/basic_streambuf.hpp:192-196 | the queue |
| StreamBuffer.StreamBuf.ResizeVector | include/asio/basic_streambuf.hpp:334 | what resizing a vector keeps: in place up to the capacity, else in new storage |
| StreamBuffer.StreamBuf.MoveDown | include/asio/basic_streambuf.hpp:325 | the overlapping move: the new place has the contents, and the old place reads as AfterFailedShift says |
| StreamBuffer.ShiftedPlace | include/asio/basic_streambuf.hpp:325 | the formula for the old place follows from the element-wise meaning of the move |
| StreamBuffer.StreamBuf.ShiftToFront | include/asio/basic_streambuf.hpp:321-326 | the contents are at the front of the storage; the positions still describe the old place |
| StreamBuffer.StreamBuf.EnsureLarge | include/asio/basic_streambuf.hpp:328-341 | room for n more is made if and only if the contents and n fit the maximum size; the put area then ends n bytes behind the contents, or where it ended before if that is further; else nothing changes |
| StreamBuffer.StreamBuf.UpdatePositions | include/asio/basic_streambuf.hpp:343-345 | the invariant holds again, with the given contents and room |
| StreamBuffer.StreamBuf.Reserve | include/asio/basic_streambuf.hpp:308-346 | throws exactly when size and n exceed the maximum; on success the queue is unchanged, and if there was not room enough the put area has n bytes, or as many as the shift wins back if that is more; on a throw no field has changed and the bytes are those of AfterFailedShift |
| StreamBuffer.StreamBuf.Prepare | include/asio/basic_streambuf.hpp:214-219 | the same for prepare, with the exact size of the put area; the returned region lies in it |
| StreamBuffer.FailedShiftHarmless | include/asio/basic_streambuf.hpp:321-340 | when a throwing prepare leaves the queue as it was, exactly |
| StreamBuffer.PrepareDamages | include/asio/basic_streambuf.hpp:308-346 | a buffer of maximum size 4 in which a throwing prepare turns the queue b, c, d into c, d, d |
| StreamBuffer.StreamBuf.Fill | include/asio/basic_streambuf.hpp:217-218 | the caller's writes change the prepared bytes at their place and nothing else |
| StreamBuffer.StreamBuf.Commit | include/asio/basic_streambuf.hpp:233-238 | min(n, writable) bytes move to the queue, and the invariant is kept, if and only if that number fits an int |
| StreamBuffer.CommitExact | include/asio/basic_streambuf.hpp:235-236 | the narrowing is exact if and only if the number fits an int |
| StreamBuffer.CommitWraps | include/asio/basic_streambuf.hpp:235-236 | between 2^31 and 2^32 characters, the put pointer moves back by the difference to 2^32 |
| StreamBuffer.CommitMovesBack | include/asio/basic_streambuf.hpp:233-238 | a buffer without a maximum size, 2^31 prepared characters and a commit that moves the put pointer in front of the get pointer |
| StreamBuffer.StreamBuf.Consume | include/asio/basic_streambuf.hpp:247-254 | min(n, size) bytes leave the queue, and the invariant is kept, if and only if the request is in the range that the pointer sum and the int can represent |
| StreamBuffer.ConsumeExact | include/asio/basic_streambuf.hpp:251-253 | that range, exactly, with the address arithmetic |
| StreamBuffer.ConsumeOutOfRange | include/asio/basic_streambuf.hpp:251-253 | out of that range, the get pointer still moves by a determined number: the request or the size, narrowed to int |
| StreamBuffer.ConsumeWraps | include/asio/basic_streambuf.hpp:251-253 | at every address but 0, a consume of the maximum of size_t moves the get pointer back by one |
| StreamBuffer.ConsumePutsBack | include/asio/basic_streambuf.hpp:240-254 | against the documentation, consuming the maximum of size_t puts the character that was consumed before back into the queue |
| StreamBuffer.StreamBuf.SmallBuffersAreInRange | include/asio/basic_streambuf.hpp:233-254 | with a maximum size within an int, every commit is exact, and every consume unless the pointer sum leaves the address space |
| StreamBuffer.StreamBuf.Underflow | include/asio/basic_streambuf.hpp:263-274 | end-of-file exactly when the queue is empty, else its first byte, which stays queued; the get area is then not empty |
| StreamBuffer.StreamBuf.MakeRoom | include/asio/basic_streambuf.hpp:287-298 | the reserve of overflow fails exactly at the maximum size, with the get pointer at the start and nothing moved; otherwise it asks for 128 bytes, or for as many as the maximum allows |
| StreamBuffer.StreamBuf.Overflow | include/asio/basic_streambuf.hpp:283-306 | for a character, throws exactly at the maximum size and then changes nothing; otherwise appends exactly the character, on whichever path |
| StreamBuffer.StreamBuf.Sputc | include/asio/basic_streambuf.hpp:283-306 | the same for the public call, with and without room in the put area |
| StreamBuffer.StreamBuf.Sbumpc | include/asio/basic_streambuf.hpp:263-274 | takes the first byte of the queue, or end-of-file exactly when there is none |
| StreamBuffer.StreamBuf.Sputn | include/asio/basic_streambuf.hpp:283-306 | stores everything if it fits; otherwise fills the buffer to exactly the maximum size before it throws |
| StreamBuffer.StreamBuf.ReadSizeHelper | include/asio/basic_streambuf.hpp:353-359 | the unused capacity, or 512 if that is more, unless the limit or the maximum size allows less; a prepare of the result never throws, and it is positive exactly when the limit is and the buffer is not full |
| StreamBuffer.StreamBuf.Perform | include/asio/basic_streambuf.hpp:131-346 | every client call in range is a step of the FIFO queue, or throws exactly when the queue would exceed the maximum |
| StreamBuffer.Run | include/asio/basic_streambuf.hpp:131-346 | every run of client calls refines a run of the bounded FIFO queue, in which also the number of writable bytes is determined, up to the first call that throws or is out of range |
| StreamBuffer.RunNew | include/asio/basic_streambuf.hpp:131-346 | in every run of a new buffer, the bytes taken out are at every moment a prefix of the bytes put in, the rest is queued and within the maximum, and the characters returned to callers are that prefix |
| SocketTime.Subtract | include/asio/detail/chrono_time_traits.hpp:72-114 | the six cases amount to a difference that saturates, and no intermediate value leaves 64 bits |
| SocketTime.TimeoutIsTheLongestWait | include/asio/basic_socket_streambuf.hpp:537-547 | a poll is never asked to wait past the expiry nor a whole millisecond less than possible, within the width of an int |
| SocketTime.TimeoutUsesSubtract | include/asio/basic_socket_streambuf.hpp:539-546 | for every reading of a 64-bit clock, the timeout is computed from subtract |
| SocketTime.NoPollPastExpiry | include/asio/basic_socket_streambuf.hpp:419-421 | in a log of calls that keeps to the deadline, no poll waits beyond the expiry |
| SocketTime.InTimeAppend | include/asio/basic_socket_streambuf.hpp:382-423 | the discipline of the loops is kept from turn to turn: each attempt after a passed deadline check and in non-blocking mode unless the switch just failed, a poll exactly after each attempt that would have blocked and for what is left of the time, nothing after a fatal result |
| SocketTime.OffersTurn | include/asio/basic_socket_streambuf.hpp:461-471 | a send is offered exactly what the sends before it have not taken, at the beginning everything |
| SocketStreamBuffer.SocketStreamBuf.constructor | include/asio/basic_socket_streambuf.hpp:169-175 | empty buffered areas, no error, no expiry |
| SocketStreamBuffer.SocketStreamBuf.NothingAcceptedIsLost | include/asio/basic_socket_streambuf.hpp:427-499 | whatever has failed, all accepted characters are, in order, on the wire or pending; exactly once if and only if no failing flush has sent anything |
| SocketStreamBuffer.SocketStreamBuf.TrySend | include/asio/basic_socket_streambuf.hpp:451-472 | no send after the deadline; a send is offered all the data and puts a prefix of it on the wire |
| SocketStreamBuffer.SocketStreamBuf.EnsureNonBlocking | include/asio/basic_socket_streambuf.hpp:458-460 | the switch to non-blocking mode is tried exactly if the mode is not on |
| SocketStreamBuffer.SocketStreamBuf.WaitReady | include/asio/basic_socket_streambuf.hpp:478-481 | a poll for the time that is left; it takes time |
| SocketStreamBuffer.SocketStreamBuf.SendAll | include/asio/basic_socket_streambuf.hpp:449-482 | the loop ends under every behaviour of the peer; the first send is offered everything and each other one what is left; everything is sent, or a proper prefix with a reason shown by the system calls; after the deadline nothing is |
| SocketStreamBuffer.SocketStreamBuf.OverflowBuffered | include/asio/basic_socket_streambuf.hpp:443-497 | success sends all that is pending, in order, and stores the character; failure leaves the put area untouched |
| SocketStreamBuffer.SocketStreamBuf.OverflowUnbuffered | include/asio/basic_socket_streambuf.hpp:437-442 | without a buffer the character itself is on the wire exactly if it is taken |
| SocketStreamBuffer.SocketStreamBuf.Overflow | include/asio/basic_socket_streambuf.hpp:427-499 | both cases, with the invariant of conservation |
| SocketStreamBuffer.FlushFailed | include/asio/basic_socket_streambuf.hpp:474-481 | a failing flush keeps conservation, and leaves the wire exact if and only if it was and nothing was sent |
| SocketStreamBuffer.FlushSucceeded | include/asio/basic_socket_streambuf.hpp:484-486 | a flush that succeeds keeps conservation |
| SocketStreamBuffer.SocketStreamBuf.Sputc | include/asio/basic_socket_streambuf.hpp:427-499 | the character is accepted or nothing is; with room in the put area nothing is sent |
| SocketStreamBuffer.SocketStreamBuf.Sync | include/asio/basic_socket_streambuf.hpp:501-504 | nothing pending and all of it on the wire, or everything still pending and a proper prefix sent, all of what was left having been offered each time; with output pending after the deadline it fails and sends nothing |
| SocketStreamBuffer.SocketStreamBuf.SyncTwice | include/asio/basic_socket_streambuf.hpp:449-486 | a flush that fails after n characters and one that then succeeds leave those n on the wire twice; for n > 0 the output is no longer exact |
| SocketStreamBuffer.SocketStreamBuf.Setbuf | include/asio/basic_socket_streambuf.hpp:506-517 | granted exactly for a null request with nothing pending; then the output is unbuffered, else nothing changes; no system call is made |
| SocketStreamBuffer.SocketStreamBuf.TryReceive | include/asio/basic_socket_streambuf.hpp:384-397 | no receive after the deadline; a receive asks for all that fits behind the putback gap |
| SocketStreamBuffer.SocketStreamBuf.ReceiveSome | include/asio/basic_socket_streambuf.hpp:382-423 | the loop ends with the bytes of one receive, or gives up for a reason shown by the system calls |
| SocketStreamBuffer.SocketStreamBuf.Refill | include/asio/basic_socket_streambuf.hpp:402-403 | the new characters lie between the putback gap and the end of the buffer |
| SocketStreamBuffer.SocketStreamBuf.Underflow | include/asio/basic_socket_streambuf.hpp:373-425 | an exhausted get area is refilled with exactly what was received; otherwise nothing changes but the error |
| SocketStreamBuffer.SocketStreamBuf.Sbumpc | include/asio/basic_socket_streambuf.hpp:373-425 | the next character received, or end-of-file without losing any |
| SocketStreamBuffer.SocketStreamBuf.InitBuffers | include/asio/basic_socket_streambuf.hpp:525-535 | empty areas over the whole buffers; what was pending and what was unread is given up |
| SocketStreamBuffer.SocketStreamBuf.Close | include/asio/basic_socket_streambuf.hpp:258-265 | the flush comes before the socket is closed; success depends only on the latter; what was accepted is kept if and only if the flush succeeded, else exactly what was pending is lost; the flush succeeds with nothing pending and fails with output pending after the deadline |
| SocketStreamBuffer.LateCloseLoses | include/asio/basic_socket_streambuf.hpp:258-265 | after the deadline, a character that was accepted is neither sent nor pending when close has reported success |
| SocketStreamBuffer.SocketStreamBuf.Move | include/asio/basic_socket_streambuf.hpp:178-191 | unread input, error and expiry move exactly; accepted output moves along if and only if none was pending; the source is valid, empty and buffered |
| SocketStreamBuffer.SocketStreamBuf.MoveAssign | include/asio/basic_socket_streambuf.hpp:194-210 | the old connection is flushed if possible and closed; then as the move construction, the vectors being exchanged |
| SocketStreamBuffer.SocketStreamBuf.MoveAssignSelf | include/asio/basic_socket_streambuf.hpp:194-210 | assigning a buffer to itself closes the connection, after an attempt to flush, and leaves the buffer empty |
| SocketStreamBuffer.SocketStreamBuf.LeaveEmpty | include/asio/basic_socket_streambuf.hpp:205-208 | the state of a buffer that has been moved from |
| SocketStreamBuffer.PerformOutput | include/asio/basic_socket_streambuf.hpp:427-517 | each output call accounts for its character and explains its failure |
| SocketStreamBuffer.Run | include/asio/basic_socket_streambuf.hpp:373-517 | every run, under every peer and clock: what was put is on the wire or pending, in order, at least once, and exactly once if and only if no output call failed after sending a part; what was got and what is unread is what was received; every system call keeps to the deadline |
| ConnectSpec.CourseStops | include/asio/basic_socket_streambuf.hpp:565-615 | one more pass goes on exactly if it failed for a reason that lets the loop go on |
| ConnectSpec.WhyTheLoopEnds | include/asio/basic_socket_streambuf.hpp:565-615 | the loop goes on exactly after an endpoint that could not be opened, refused, could not be polled or was found not to be connected; so an error at the end means that all endpoints were tried, that the deadline passed, or that the last query failed |
| ConnectSpec.ErrorIsOfLastCall | include/asio/basic_socket_streambuf.hpp:574-614 | the error at the end is the error of the last system call |
| ConnectSpec.CourseIsInOrder | include/asio/basic_socket_streambuf.hpp:567-614 | the system calls of the loop come in the order of the code: deadline check, close, open, switch, connect, and for an attempt in progress a poll for the time left and then the query; a connect can block only if the switch failed |
| ConnectSpec.EndpointsInOrder | include/asio/basic_socket_streambuf.hpp:565-585 | connections are attempted to the endpoints in their order, each at most once, leaving out only those for which no socket could be opened |
| ConnectSpec.SuccessMeans | include/asio/basic_socket_streambuf.hpp:555-616 | the error is clear at the end if and only if the last endpoint tried is known to be connected, or its poll ran out and the query found no error; all earlier ones were tried and failed |
| ConnectSpec.SuccessTells | include/asio/basic_socket_streambuf.hpp:596-614 | from the results of a successful attempt, a connection is always possible, and none is possible too if and only if the poll ran out |
| ConnectSpec.SuccessIsConnection | include/asio/basic_socket_streambuf.hpp:596-614 | a reported success excludes a missing connection if and only if the poll of the last attempt did not run out |
| ConnectSpec.UndecidedLooksConnected | include/asio/basic_socket_streambuf.hpp:596-614 | one endpoint, no answer in time, at any time: success is reported without a connection |
| ConnectSpec.NoEndpoints | include/asio/basic_socket_streambuf.hpp:564 | an empty list gives not_found |
| SocketStreamBuffer.SocketStreamBuf.Reopen | include/asio/basic_socket_streambuf.hpp:575-579 | the socket is closed before it is opened again, so that at most one native socket is open at any time; a new connection begins exactly if that works |
| SocketStreamBuffer.SocketStreamBuf.AwaitConnect | include/asio/basic_socket_streambuf.hpp:596-614 | the poll and the query of an attempt in progress, with the truth about the connection beside what they report |
| SocketStreamBuffer.SocketStreamBuf.TryConnect | include/asio/basic_socket_streambuf.hpp:579-614 | the attempt at one endpoint, on a socket switched to non-blocking mode, makes the calls of the specification and ends as it says |
| SocketStreamBuffer.SocketStreamBuf.Turn | include/asio/basic_socket_streambuf.hpp:565-614 | one turn of the loop: timed_out if and only if the deadline has passed, else one attempt |
| SocketStreamBuffer.SocketStreamBuf.ConnectToEndpoints | include/asio/basic_socket_streambuf.hpp:555-616 | nothing is done with an error set; otherwise the loop follows a course of the specification, call by call; it goes on exactly after endpoints that failed, and leaves the error of the last system call |
| SocketStreamBuffer.SocketStreamBuf.Connect | include/asio/basic_socket_streambuf.hpp:226-232 | a course over the one endpoint from empty buffers; a reported success is a connection unless the poll ran out; what was pending is never sent and what was unread never delivered |
| AlignedAllocator.OffsetRoundTrip | include/asio/any_completion_handler.hpp:148-171 | an offset stored as eight bytes is read back as the same signed number |
| AlignedAllocator.BytesRoundTrip | include/asio/any_completion_handler.hpp:148-149 | a number that fits k bytes survives being stored in them |
| AlignedAllocator.Align | include/asio/detail/memory.hpp:54-58 | the first aligned address; it is always found when alignment - 1 bytes are to spare |
| AlignedAllocator.HandlerAllocator.Allocate | include/asio/any_completion_handler.hpp:131-156 | one request of size + alignment - 1 + 8 bytes; failure only if that is refused; otherwise a new aligned block in the base block, the distance to whose start is in the eight bytes behind it; no other byte changes |
| AlignedAllocator.HandlerAllocator.Deallocate | include/asio/any_completion_handler.hpp:158-176 | exactly the base address and the byte count that allocate obtained; a null pointer is ignored |
| AlignedAllocator.LiveBlocksAreDisjoint | include/asio/any_completion_handler.hpp:131-156 | live blocks with their trailers have no byte in common |
| AlignedAllocator.GrantKeepsOk | include/asio/any_completion_handler.hpp:148-150 | writing the trailer of a new block leaves all live blocks intact |
| AlignedAllocator.WriteKeepsOk | include/asio/any_completion_handler.hpp:149-171 | a write inside a block disturbs no trailer |
| AlignedAllocator.ReturnKeepsOk | include/asio/any_completion_handler.hpp:173-174 | returning a base block leaves all other blocks intact |
| AlignedAllocator.HandlerAllocator.WriteOffset | include/asio/any_completion_handler.hpp:149 | the eight bytes read back as the offset; no other byte changes |
| AlignedAllocator.HandlerAllocator.Borrow | include/asio/any_completion_handler.hpp:131-176 | allocation, arbitrary writes inside the block and deallocation leave the base allocator as it was and no trace outside the base block |
| HandlerStorage.CompleteLifeCounts | include/asio/any_completion_handler.hpp:90-191 | storage with a complete life was freed once, destroyed as often as constructed, and its handler invoked at most once |
| HandlerStorage.CallKeepsHistory | include/asio/any_completion_handler.hpp:178-191 | a call completes a life in the order moved out, destroyed, freed, invoked |
| HandlerStorage.Arena.Create | include/asio/any_completion_handler.hpp:90-106 | storage with the handler, or, if the construction throws, storage freed and nothing left |
| HandlerStorage.Arena.Destroy | include/asio/any_completion_handler.hpp:108-115 | destroyed and freed, by a downcast to the type it was created with |
| HandlerStorage.Arena.Call | include/asio/any_completion_handler.hpp:178-191 | the storage is destroyed and freed before the handler is invoked, and also if moving the handler throws |
| AnyCompletionHandlers.AnyCompletionHandler.Move | include/asio/any_completion_handler.hpp:671-677 | the state moves and the source is empty |
| AnyCompletionHandlers.AnyCompletionHandler.Swap | include/asio/any_completion_handler.hpp:718-722 | both pointers are exchanged |
| AnyCompletionHandlers.Create | include/asio/any_completion_handler.hpp:654-665 | a wrapper that owns new storage, with the table of its handler's type; nothing remains if creation throws |
| AnyCompletionHandlers.Destruct | include/asio/any_completion_handler.hpp:699-703 | the storage of the wrapper, and no other, is destroyed and freed, and single ownership is kept |
| AnyCompletionHandlers.MoveAssign | include/asio/any_completion_handler.hpp:683-689 | the old handler is destroyed, the new one moves in; self-assignment changes nothing |
| AnyCompletionHandlers.NullAssign | include/asio/any_completion_handler.hpp:692-696 | the handler is destroyed and the wrapper empty |
| AnyCompletionHandlers.Invoke | include/asio/any_completion_handler.hpp:745-756 | bad_function_call exactly for a wrapper without storage; otherwise the storage is gone before the invocation, and the table is kept |
| AnyCompletionHandlers.NothingIsLeaked | include/asio/any_completion_handler.hpp:699-703 | when the last wrapper is gone, every piece of storage was freed exactly once |
| AnyCompletionHandlers.ActsOnContents | include/asio/any_completion_handler.hpp:653-756 | on pointers, tables and storage, each operation has the effect that it would have on plain values: empty, holding a handler, or spent |
| AnyCompletionHandlers.LawsOfValues | include/asio/any_completion_handler.hpp:667-722 | the laws of the values: a move takes everything along and leaves nothing, a swap is its own inverse, moving a wrapper to itself does nothing, a call spends a handler, and no other wrapper is touched |
| AnyCompletionHandlers.DowncastsAreRight | include/asio/any_completion_handler.hpp:434-449 | every function in the table of a wrapper with storage casts to the type of the handler in it |
| AnyCompletionHandlers.Step | include/asio/any_completion_handler.hpp:653-756 | the same for the running program, with single ownership, right tables, the invocation that the operation makes, and lookups in order exactly on wrappers that are not spent |
| AnyCompletionHandlers.RunOps | include/asio/any_completion_handler.hpp:653-820 | any program leaves its wrappers as plain values would be, invokes exactly the handlers that value semantics prescribes, in order and with the arguments, and a lookup on a wrapper finds storage if and only if its value is not spent |
| AnyCompletionHandlers.SpentOnlyByCalls | include/asio/any_completion_handler.hpp:745-756 | without calls no wrapper is ever spent |
| AnyCompletionHandlers.CalledThenMoved | include/asio/any_completion_handler.hpp:671-677 | a wrapper moved from a called one has a table without storage although it was never called, and the called one has none |
| AnyCompletionHandlers.LookupsOf | include/asio/any_completion_handler.hpp:790-820 | in every pool, a lookup is in order exactly on the wrappers that are not spent |
| AnyCompletionHandlers.RunProgram | include/asio/any_completion_handler.hpp:653-756 | any program to its end: all storage has a complete life, so it is freed exactly once and before its handler is invoked, all handlers are destroyed exactly once, and none is invoked twice |
| Binders.OutermostBinderWins | include/asio/bind_allocator.hpp:511-522 | the outermost binder of the kind that is looked up wins, whatever surrounds it, and the marker is hidden |
| Binders.NoBinderFallsThrough | include/asio/associated_immediate_executor.hpp:118-154 | without such a binder, the own association of the base, else the (for the immediate executor transformed) default; the marker is visible exactly in the last case |
| Binders.FallsThroughTo | include/asio/associated_immediate_executor.hpp:50-58 | the default is the candidate itself; only for the immediate executor it is the candidate with blocking.never required |
| Binders.OnlyOwnKindMatters | include/asio/associated_allocator.hpp:43-88 | binders of other kinds and reference wrappers at any depth change neither the result nor the marker |
| Binders.AdjacentLayersCommute | include/asio/bind_cancellation_slot.hpp:502-536 | adjacent layers can be exchanged, for all lookups in all surroundings, if and only if they do not bind different values of one kind |
| Binders.NestOfLayers | include/asio/bind_allocator.hpp:492-509 | every token is the nest of its layers |
| Binders.LayersOfNest | include/asio/bind_allocator.hpp:492-509 | taking a nest apart gives the layers it was made of |
| Binders.InitiationRebuildsTheNest | include/asio/bind_allocator.hpp:439-483 | the wrapped initiations deliver to the original one, with unchanged arguments, a handler that is structurally the declared completion handler of the token |
| Binders.DeliveredNest | include/asio/bind_cancellation_slot.hpp:448-493 | the delivered handler has the layers of the token, in the same order, around its handler or the one made from it |
| Binders.HandlersArriveUnchanged | include/asio/async_result.hpp:313-322 | a handler in any nest arrives as it was passed |
| Binders.InitiationKeepsAssociations | include/asio/bind_cancellation_slot.hpp:448-493 | lookups on the delivered handler and on the token agree, unless they end at a token that is replaced |
| PrinterSpec.PrintBodyKeepsConsistent | timer/timer5.cpp:36-66 | a handler body keeps output, counter and expiries consistent |
| PrinterSpec.DueIsLinear | timer/timer5.cpp:44 | an expiry that is moved on n times is the start plus n periods |
| PrinterProgram.Printer.constructor | timer/timer5.cpp:13-26 | a consistent printer with both timers waiting from the same start |
| PrinterProgram.Printer.Print1 | timer/timer5.cpp:36-49 | below the bound, one line of timer 1, the counter and the expiry of timer 1 moved on, and a new wait; at the bound nothing; timer 2 untouched |
| PrinterProgram.Printer.Print2 | timer/timer5.cpp:53-66 | the same for timer 2 |
| PrinterProgram.Serve | timer/timer5.cpp:80-98 | whichever timer is served next, the program ends after bound + 2 invocations with the values 0 to bound - 1 printed in order, each timer at its start plus a period for each of its own prints |
| TwoTimersOnThreads.StepKeepsInv | timer/timer5.cpp:36-66 | every single read, write and scheduling event keeps the invariant of counting, expiries, queue and mutual exclusion |
| TwoTimersOnThreads.MicroKeepsCounting | timer/timer5.cpp:38-41 | the increment, as a load and a store, is never torn by the other handler |
| TwoTimersOnThreads.EveryRunIsSafe | timer/timer5.cpp:36-95 | in every reachable state of every schedule, the output is 0, 1, 2, ... without gap or repetition within the bound, each line not before its timer's wait, and each expiry is the start plus own prints times the period |
| TwoTimersOnThreads.HandlersAreAtomic | timer/timer5.cpp:15 | each event leaves the abstract printer as it is or completes one whole body |
| TwoTimersOnThreads.EveryRunIsSequential | timer/timer5.cpp:15-95 | every interleaving has the effect of whole handler bodies one after the other |
| TwoTimersOnThreads.StepUsesOneEvent | timer/timer5.cpp:36-66 | every event other than the passing of time uses up exactly one of the remaining events |
| TwoTimersOnThreads.EveryRunIsBounded | timer/timer5.cpp:80-98 | no schedule has more than 9 * bound + 6 such events, and a run has finished exactly when it has used them all |
| TwoTimersOnThreads.FinishedRunsAgree | timer/timer5.cpp:29-66 | every finished run has count = bound and bound + 2 invocations, and the two timers share the prints |
| TwoTimersOnThreads.NeverStuck | timer/timer5.cpp:80-98 | until it has finished, the program can go on, after time has passed if need be |
| TwoTimersOnThreads.WithoutStrandPrintsTwice | timer/timer5.cpp:15 | without the strand, two threads can print a value twice and lose an increment |
| TwoTimersOnThreads.RunsCompose | timer/timer5.cpp:80-98 | a run that begins where another ends continues it |

## Left out

- Real I/O, system calls and the executor, strand and timer queue implementations: only their contracts are modelled, as assumptions.
- `vector::max_size` and `bad_alloc` of `basic_streambuf`: resizing never fails in the model.
- `basic_streambuf_ref`, `capacity`, `max_size` and the accessors of errors and expiries: forwarding.
- `expires_at`, `expires_after` and their deprecated forms: they set one field.
- Putting characters back (`sungetc`, `sputbackc`): `underflow` does not fill the putback gap, so what is put back is unspecified.
- `connect` with resolver queries, `setbuf` after pending output other than its refusal, and the flush of the destructor, which is a `sync` whose result nobody sees.
- SocketStreamBuffer.SocketStreamBuf.MoveAssign: covers two different stream buffers with different sockets and vectors; the same statements on one stream buffer are MoveAssignSelf.
- SocketStreamBuffer.Run: covers one connection; connecting, closing and moving are stated call by call, because they begin a new history.
- StreamBuffer.Run: ends at the first call that throws; what a throwing call leaves is stated by Prepare and Overflow.
- `ASIO_WINDOWS_RUNTIME`: the branches that only report that an operation is not supported.
- AnyCompletionHandlers.Invoke: the handler's own body is one event; it does not call back into the wrapper it was called from.
- The dispatch of associated executors, allocators and cancellation slots through `any_completion_handler`: the table's entries are modelled by the type they cast to.
- Binders.InitiationRebuildsTheNest: the value categories (moves and copies) of tokens, initiations and arguments are not modelled.
- Types in association lookups: `associated_*::type` and the one-argument `get` are not modelled beside the two-argument `get`.
- The other tutorial programs, `awaitable`, and the remaining forwarding headers: no property that spans operations.
