# DrShadowStack, modelled and verified

DrShadowStack runs a program under DynamoRIO, records the return address of every
call on a shadow stack, and kills the process group when a return goes somewhere
else. This project models its logic in Dafny and proves what the shadow stack
accepts, that its two modes agree, and what that means for a program under it.

`dafny verify dfyconfig.toml` checks everything.

## The model, file by file

- `Words.dfy`: bytes, pointer-sized words, the little-endian body of a message.
  `POINTER_SIZE` is a constant left open between 4 and 8, so every result holds for
  both builds.
- `ShadowStack.dfy`: the abstract machine. Events are calls, returns, signals and
  execves; a state is a stack or `Killed`, which absorbs everything.
- `Nesting.dfy`: what the machine accepts, said without a stack by counting events:
  each return closes the one earlier call or signal with a balanced, execve-free
  stretch in between, and that call or signal must permit its target.
- `CallTrees.dfy`: the same traces as flattened call trees, with a parser.
- `PointerStacks.dfy`, `InternalSS.dfy`: internal mode, a class over thread-local
  stacks that are separate heap objects made on first use, and thread isolation.
- `Messages.dfy`, `Sockets.dfy`: building, encoding and decoding messages; a socket
  end with the bytes that will arrive and a number of writes that will succeed.
- `Server.dfy`: the server's handlers and its read and dispatch loop, proved equal to
  a function of the byte stream, of which an independent description is then proved.
- `Environment.dfy`, `ExternalSS.dfy`: the external client: handlers, setup, and the
  descriptor passed from image to image through the environment array.
- `Protocol.dfy`: client and server as one transition system over two byte streams,
  every interleaving and every way of splitting reads; its refinement of internal
  mode, its rendezvous and its progress.
- `Outcomes.dfy`: the other direction: every accepted trace can be run, every end the
  refinement allows is met, and messages arrive in any pieces.
- `Instrumentation.dfy`, `Target.dfy`: the handlers inserted into basic blocks, and a
  program as a machine with return slots that anything may overwrite. A run is any
  sequence of instrumented blocks and of signals, execves and overwrites, which may
  also come before any instruction of a block.
- `Detection.dfy`: which of these runs the shadow stack kills.
- `Protection.dfy`: the theorems put together, for both modes.
- `FatalPath.dfy`: the mutually recursive functions that end the process group.

A killing outcome stands wherever the source calls `Group::terminate` or fails a
`Utilities::assert`. Handlers run atomically in the thread that triggers them.

## What turned out not to hold

- A program that only returns to where it was called from can still be killed: the
  stack is cleared before execve is known to succeed, so after a failed execve the
  returns from the calls made before it find nothing. `Detection.FailedExecveIsFatal`
  is the example. `Detection.KilledIffNothingToReturnThrough` is the exact condition
  for programs that leave their return slots alone, and
  `Detection.KilledIffBadReturn` for all.
- The search for the descriptor's variable compares the name without the equals sign.
  Another variable whose name starts the same and comes first is overwritten:
  `Environment.OtherVariableLost` is the example, `Environment.OthersKeptIff` the
  exact condition. The hand-off itself still works.
- The same search does not stop at the null pointer. An environment without the
  variable makes it read past the end, `Fault` in `ExternalSS.Client.OnExecve`.
  `Environment.ClearedEnvironmentFails` is the example, and
  `Environment.DescriptorHandOff` says the hand-off works iff that never happens.
- Comments in `src/utilities.hpp` (lines 84, 104, 113, 134 and 175) say that logging
  fails silently. The code asserts that the write was complete, which
  kills the group. The model follows the code.

## Model

| member | source | states |
|---|---|---|
| Words.PointerBody | src/external_stack_server.cpp:62-72 | A body read as a pointer and the pointer's body determine each other, and the wildcard is the body of all 0xFF bytes |
| Words.LittleEndian | src/external_stack_server.cpp:62-66 | A body is read with its lowest byte first, for both pointer sizes |
| ShadowStack.ExecveBarrier | src/dr_internal_ss_events.cpp:152-181 | Events after an execve, cleared once or twice, get the verdict they get from a fresh stack |
| Nesting.MatchUnique | src/dr_internal_ss_events.cpp:77-104 | A return closes at most one call or signal |
| Nesting.AcceptsIffWellNested | src/dr_internal_ss_events.cpp:69-128 | A trace survives iff every return closes a call or signal that permits its target |
| Nesting.KilledAtFirstBadReturn | src/dr_internal_ss_events.cpp:77-123 | The kill comes exactly at the first return that does not |
| Nesting.StackIsOpenPushes | src/dr_internal_ss_events.cpp:69-128 | The stack holds what the calls and signals that are still open pushed, in order |
| Nesting.DepthSinceExecve | src/dr_internal_ss_events.cpp:152-158 | The depth is calls plus signals minus returns since the last execve |
| CallTrees.RunFlatten | src/external_stack_server.cpp:48-106 | A flattened call forest leaves any stack as it was if its returns are honest, and is killed if not |
| CallTrees.Parse | src/external_stack_server.cpp:48-106 | What the parser finds flattens back to what it parsed, up to an unmatched return or execve |
| CallTrees.AcceptedIffHonestForest | src/dr_internal_ss_events.cpp:69-128 | The execve-free traces from empty to empty that survive are exactly the flattened honest forests |
| CallTrees.ForestUnique | src/dr_internal_ss_events.cpp:69-128 | A trace flattens from at most one forest, which the parser finds |
| InternalSS.ThreadIsolation | src/dr_internal_ss_events.cpp:32-56 | In any interleaving every thread has the stack of its own events, and the group is killed iff some thread's own events are rejected |
| InternalSS.SingleThread | src/dr_internal_ss_events.cpp:69-128 | With one thread, internal mode is the abstract machine |
| InternalSS.InternalMode.Get | src/dr_internal_ss_events.cpp:41-51 | The thread's stack, made empty on first use and shared with no other thread |
| InternalSS.InternalMode.OnCall | src/dr_internal_ss_events.cpp:69-72 | Pushes on the calling thread's stack and changes no other |
| InternalSS.InternalMode.OnRet | src/dr_internal_ss_events.cpp:77-123 | Pops on a match or wildcard, kills on an empty stack or mismatch |
| InternalSS.InternalMode.OnSignal | src/dr_internal_ss_events.cpp:128 | Pushes a wildcard |
| InternalSS.InternalMode.OnExecve | src/dr_internal_ss_events.cpp:152-158 | The clearing loop empties the thread's stack and no other |
| InternalSS.InternalMode.SyscallEvent | src/dr_internal_ss_events.cpp:139-181 | Only execve does anything, before and after the call alike |
| Messages.SetLength | src/message.cpp:9-12 | Exactly n bytes become the text of the source as far as it fits, then zeros; the rest is unchanged |
| Messages.HeaderOnlyMessage | src/message.hpp:190-198 | The stored message of a header-only type is its header and zeros |
| Messages.BodyMessage.constructor | src/message.hpp:99-102 | The message is the header followed by the body |
| Messages.ContinueIsValid | src/message.hpp:168-170 | The server's reply passes the client's check |
| Messages.IsAValidIff | src/message.hpp:168-170 | The check compares all four bytes of the header and nothing else |
| Messages.HeadersSpelled | src/message.hpp:124-152 | The headers are the texts CONT, CALL, RET-, NEWS and EXEC |
| Messages.DecodeIffEncode | src/external_stack_server.cpp:134-141 | The header and body select an event iff the frame is an encoding of that event |
| Messages.FramesAndLeftover | src/external_stack_server.cpp:149-159 | Cutting a stream into frames loses nothing and leaves its length modulo the frame size |
| Messages.DecodeEncodeAll | src/message.hpp:208-221 | Wire round trip: what the client sends for any events, over any padding, decodes to those events |
| Messages.CarriedIsEncoded | src/message.hpp:208-221 | A stream that decodes to events is what the client sends for them over some padding |
| Server.ServeStopsExactly | src/external_stack_server.cpp:154-179 | The loop has served the longest prefix it could: stack, replies, number of messages and reason for stopping, including a partial last frame |
| Server.ServedExactlyUnique | src/external_stack_server.cpp:154-179 | That description determines the outcome |
| Server.NormalReturnIff | src/external_stack_server.cpp:154-184 | The loop returns normally iff the stream is whole messages carrying an accepted trace whose returns could all be answered |
| Server.PaddingIrrelevant | src/message.hpp:209-213 | Bytes after the header of header-only messages change nothing |
| Server.EncodingsDifferInPadding | src/message.hpp:209-213 | All encodings of the same events are such streams |
| Server.AddWildcard | src/external_stack_server.cpp:48-51 | Pushes a wildcard |
| Server.ClearStack | src/external_stack_server.cpp:54-59 | The loop empties the stack |
| Server.CallHandler | src/external_stack_server.cpp:62-66 | Pushes the address in the body |
| Server.RetHandler | src/external_stack_server.cpp:69-106 | Replies only after checking and popping; kills on empty, mismatch or a failed write and sends nothing then |
| Server.Dispatch | src/external_stack_server.cpp:167-178 | Looks the header up and does what the reaction function says, or kills on an unknown header |
| Server.StartExternalShadowStack | src/external_stack_server.cpp:130-184 | The loop over the reused buffer computes the function of the stream |
| Environment.StoiDecimal | src/dr_external_ss_events.cpp:123-137 | Printing a descriptor and parsing it is the identity |
| Environment.StoiReads | src/dr_external_ss_events.cpp:123-127 | Of white space, a sign, digits and more text, the number is read iff there is a digit and an int holds it |
| Environment.CharacterClasses | src/dr_external_ss_events.cpp:125 | The six white-space characters and ten digits that parsing goes by |
| Environment.Find | src/dr_external_ss_events.cpp:69-73 | The search ends at the first entry with the prefix, iff one comes before the null pointer |
| Environment.HasPrefixIff | src/dr_external_ss_events.cpp:71-73 | The search compares all sixteen characters of the name, and no more |
| Environment.RewriteIsLocal | src/dr_external_ss_events.cpp:71-81 | An entry that is shorter than the name, differs from it anywhere or comes after the first with the prefix is left as it was |
| Environment.GetEnvNone | src/dr_external_ss_events.cpp:76-77 | getenv finds nothing iff no entry before the null pointer sets the variable |
| Environment.RewriteHandsOff | src/dr_external_ss_events.cpp:69-84 | The next image reads exactly the descriptor written |
| Environment.RewriteIdempotent | src/dr_external_ss_events.cpp:89-107 | A second run of the handler, after a failed call, changes nothing |
| Environment.OthersKeptIff | src/dr_external_ss_events.cpp:69-73 | All other entries are kept iff the first entry with the prefix is a setting of the variable |
| Environment.OtherVariableLost | src/dr_external_ss_events.cpp:69-73 | An environment in which another variable is overwritten |
| Environment.DescriptorHandOff | src/dr_external_ss_events.cpp:117-137 | Along any chain of execves the last image uses the descriptor the first one connected, whatever connections the others could have made, iff every search finds an entry |
| Environment.ClearedEnvironmentFails | src/dr_external_ss_events.cpp:69-73 | An empty environment, as a program that clears it passes on, ends the chain |
| ExternalSS.Client.Setup | src/dr_external_ss_events.cpp:117-137 | Uses the descriptor in the environment, or connects and records the new one; killed exactly without the variable, or when the needed one of parsing, connecting and recording fails |
| ExternalSS.Client.SendHeaderOnly | src/message.hpp:209-213 | Sends the header and whatever follows it in memory, or fails |
| ExternalSS.Client.SendWithBody | src/message.hpp:216-221 | Sends the header and body, or fails |
| ExternalSS.Client.RecvMsg | src/message.hpp:224-231 | Succeeds iff a whole frame with the header CONT arrives, and consumes it |
| ExternalSS.Client.OnCall | src/dr_external_ss_events.cpp:20-23 | Sends the encoding of the call |
| ExternalSS.Client.OnRet | src/dr_external_ss_events.cpp:28-32 | Sends the encoding of the return and goes on iff a Continue comes back |
| ExternalSS.Client.OnSignal | src/dr_external_ss_events.cpp:37 | Sends the encoding of a signal |
| ExternalSS.Client.OnExecve | src/dr_external_ss_events.cpp:61-84 | Reports the execve, then rewrites exactly the entry found; faults without one, kills without a value; entries that differ from the name in some character are untouched |
| Protocol.InvReachable | src/external_stack_server.cpp:154-179 | In every reachable configuration the bytes under way are the events not served and the replies not taken |
| Protocol.ExternalRefinesInternal | src/dr_external_ss_events.cpp:20-37 | External mode refines internal mode over all interleavings, with the same kills at the same events |
| Protocol.StopsAsTheLoopDoes | src/external_stack_server.cpp:154-184 | Whatever the interleaving, the server stops where its loop stops on the whole stream the client sent, with what was torn at its end: same stack, replies and reason |
| Protocol.DisconnectedIffNothingTorn | src/external_stack_server.cpp:158-165 | The server sees the stream end only after the client closed it, a normal disconnect iff no message was torn |
| Protocol.RendezvousSafety | src/dr_external_ss_events.cpp:28-32 | Replies taken <= replies sent = returns served <= returns reported <= replies taken + 1, with equality while the client runs |
| Protocol.WaitingIsNotStuck | src/message.hpp:224-231 | A waiting client can always be served further |
| Protocol.WaitEnds | src/external_stack_server.cpp:100-105 | Every wait ends after boundedly many steps, whatever becomes of the writes: the client runs on and was accepted, or is killed, for a mismatch iff it was rejected and otherwise because a reply could not be written |
| Protocol.WorkBound | src/external_stack_server.cpp:154-157 | The bound is linear in the messages queued |
| Outcomes.RunsExactlyTheAccepted | src/dr_external_ss_events.cpp:20-37 | A running client can have reported exactly the accepted traces, with the server anywhere after the last return |
| Outcomes.EndsExactly | src/external_stack_server.cpp:69-179 | The ends of a run, by cause, events reported and events served, are exactly those allowed: each is met in some interleaving |
| Outcomes.LastStep | src/external_stack_server.cpp:154-184 | Every end is one step from a reachable live configuration |
| Outcomes.TornAnywhere | src/external_stack_server.cpp:158-160 | After any accepted trace the server can be left with any part of any message |
| Outcomes.ServerRecvInPieces | src/external_stack_server.cpp:154-157 | A message may arrive at the server in any pieces, with the same result |
| Outcomes.ClientRecvInPieces | src/message.hpp:224-227 | And at the client |
| Instrumentation.InstrList.EventAppInstruction | src/dr_shadow_stack_client.cpp:76-105 | Inserts the instruction's handler right before it and changes nothing else; a call's handler gets the address exactly the call's length past it |
| Instrumentation.InstrList.InstrumentAll | src/dr_shadow_stack_client.cpp:71-105 | Calling it for each instruction gives the instrumented block |
| Instrumentation.EraseInstrument | src/dr_shadow_stack_client.cpp:76-105 | Without the handlers the instrumented block is the original block |
| Instrumentation.InstrumentInPlace | src/dr_shadow_stack_client.cpp:90-101 | Each call and return is right after its handler, there are no other handlers, and each call's is given the address exactly the call's length past it |
| Target.ExecOnMemory | src/dr_shadow_stack_client.cpp:90-101 | What instructions do to the return targets in memory: a call adds the address its length past it, a return finds and takes the top one |
| Target.AsideOnMemory | src/dr_internal_ss_events.cpp:128-181 | What signals, execves and overwrites do to them: an overwrite changes the slot it hits, however deep, and a failed execve nothing |
| Target.RunInstrumented | src/dr_shadow_stack_client.cpp:90-101 | Running an instrumented block, whatever happens between its instructions, does what the block does and reports each call and return with its actual target just before it |
| Target.RunLegsIsTrace | src/dr_shadow_stack_client.cpp:63-105 | So does a run of any number of blocks, with anything between them |
| Target.BetweenReports | src/dr_internal_ss_events.cpp:139-181 | Between blocks a signal is reported once, an execve once, a failed execve twice, and nothing else |
| Detection.KilledIffBadReturn | src/dr_internal_ss_events.cpp:69-128 | An instrumented run is killed iff a return uses an overwritten or missing slot; until then the shadow stack mirrors the return slots |
| Detection.CorruptedReturnIsKilled | README.md:5 | When the address a call saved is overwritten, at any depth, and later a return comes to it and finds it so, the run is killed |
| Detection.StoreAndReturn | src/dr_shadow_stack_client.cpp:76-105 | A block that stores over a return slot and then returns does just that, with nothing in between |
| Detection.KilledIffNothingToReturnThrough | src/dr_internal_ss_events.cpp:77-158 | An instrumented run that overwrites no return slot is killed iff it returns with no slot but those an execve failed over |
| Detection.NoFalsePositives | src/dr_shadow_stack_client.cpp:63-105 | An instrumented run that leaves its return slots alone, whose execves succeed and whose returns have slots is never killed |
| Detection.FailedExecveIsFatal | src/dr_internal_ss_events.cpp:152-176 | Calling, failing an execve and returning is killed, with an intact return slot |
| Protection.InternalModeProtects | src/dr_internal_ss_events.cpp:32-128 | Over any instrumented runs of any threads and any interleaving, internal mode kills iff some thread does a bad return |
| Protection.ExternalModeProtects | src/external_stack_server.cpp:69-106 | In external mode an instrumented program that runs has done no bad return, and it is killed for a mismatch iff it did one |
| FatalPath.Process.Terminate | src/group.cpp:137-160 | Ends in the kill for every outcome of write and gettid, entered at most twice, and twice iff logging its message failed |
| FatalPath.Process.LogError | src/utilities.hpp:114-117 | The text goes to the log file and then to the error file, if they are open, or the group is killed |
| FatalPath.Process.LogMessage | src/utilities.hpp:105-108 | The same, with the standard output for the error file |
| FatalPath.Process.WriteLog | src/utilities.hpp:176-194 | Exactly that line is written to exactly that file, or the group is killed; nothing happens for a closed file |
| FatalPath.Process.GetTid | src/utilities.cpp:106-113 | On failure stops naming threads, logs that it failed if it can, and ends in the kill |
| FatalPath.Process.Err | src/utilities.cpp:80-86 | Ends in the kill, after logging its message if that works; how often terminate is entered is exact in every case |
| FatalPath.Process.Assert | src/utilities.cpp:89-93 | Does nothing if the condition holds, otherwise ends in the kill |

## Left out

- DynamoRIO itself: registration, clean calls, spill slots, thread-local storage failures and where signals are delivered. Only the callback bodies are modelled.
- External mode with several threads or forked children: the server has one stack and one socket, and its fork and thread handlers are compiled out (src/external_stack_server.cpp:108-125).
- Protocol.ExternalRefinesInternal: takes a write by a live client as delivered in one piece or failed; a client that dies in the middle of one is covered.
- Target.RunLegsIsTrace: a handler and the instruction it precedes are not interrupted, so a store by another thread between the two is not seen.
- Detection.KilledIffBadReturn: the machine has no longjmp, exceptions or direct use of a pushed address, and says nothing of returns through a signal frame, which any target may follow. Which instruction runs next is left open, so control flow is arbitrary.
- FatalPath.Process.Terminate: the unwinding done by TerminateOnDestruction is not modelled, because no function on this path returns.
- ExternalSS.Client.OnExecve: reading past the null pointer is an outcome of its own; what the machine would do then is not modelled.
- Environment.DescriptorHandOff: the descriptor is a non-negative int, as an open socket is; stoi's exceptions end in a failed image.
- Sockets.Socket.Write: all or nothing; what a failed write may have delivered before the kill is not modelled.
- Symbol printing, log texts, argument parsing, mode flags, socket creation, temporary names, signal-handler remapping and starting drrun: plumbing that would only add easy members.
- recv_msg_and_body (src/message.hpp:235-243): nothing calls it.
