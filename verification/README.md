# Scroll's stateful core, modelled in Dafny

This project models the parts of the scroll compositor (a sway fork) that are
algorithms and state machines rather than calls into wlroots: the i3 IPC
connection between clients and compositor, the list type and its stable sort, the
session lock, the command and configuration language, the key binding tables, the
fitting of scrolling layouts, the gesture notation and a growing byte array.
`dafny verify dfyconfig.toml` checks all of it.

Code that changes things in place is modelled by classes, arrays and loops, and
each such method is proved equal to a function of its inputs and the old state. The
main results are lemmas about those functions and about all runs of the machines
they make up. Files named laws say what the functions come to without using them: by
the characters of a text, the events of a run, or the items of a list.

| file | what it models |
|---|---|
| `Memory.dfy` | `memmove` inside a buffer |
| `StableOrder.dfy`, `List.dfy` | `common/list.c`: the capacity-managed list, and the rotation-based merge sort |
| `Criteria.dfy` | the choice of the oldest or latest urgent view in `sway/criteria.c` |
| `IpcFrames.dfy`, `IpcReassembly.dfy`, `IpcQueue.dfy` | the IPC message format, and a connection's input and output as state machines |
| `IpcServer.dfy`, `IpcPeer.dfy` | `sway/ipc-server.c` with its client list, and `common/ipc-client.c` |
| `SessionLock.dfy`, `LockLaws.dfy` | `sway/lock.c` as a state machine over events, its handlers, and what each event does |
| `Readings.dfy` | which characters of a text are escaped and which quote is open, told by the text |
| `Tokens.dfy`, `TokenLaws.dfy` | `common/stringop.c`: splitting and joining arguments, and what keeps one together |
| `Quotes.dfy`, `EscapeLaws.dfy`, `ArgSep.dfy` | `common/stringop.c`: quotes, escapes and what they stand for, cutting command lists |
| `Variables.dfy`, `VariableLaws.dfy` | variables and their substitution |
| `ConfigReader.dfy`, `ConfigLaws.dfy` | the lines of a configuration file, nested blocks, and what a command is given |
| `CriteriaText.dfy` | the scanner of criteria in `sway/criteria.c` |
| `ExecuteCommand.dfy`, `CommandLaws.dfy`, `CommandPlans.dfy`, `CriteriaTurns.dfy` | `execute_command` in `sway/commands.c`: running a command list, what a command does and which answers a list gets, what a written list means, and where criteria are looked for |
| `IpcCommand.dfy` | what `sway/ipc-server.c` does to the text of a command |
| `WorkspaceCommand.dfy` | the workspace command that the bar sends, from the bar to its handler |
| `CommandStatus.dfy`, `Wrappers.dfy`, `Sequences.dfy` | shared: results of commands, optional values, facts about sequences |
| `Bindings.dfy`, `BindingLaws.dfy` | `sway/commands/bind.c`: binding tables and their translation to keycodes |
| `FitSize.dfy` | `sway/commands/fit_size.c` over real numbers |
| `Gesture.dfy`, `GestureLaws.dfy` | `common/gesture.c`: reading and writing gestures |
| `WlArray.dfy` | the array functions of `common/util.c` |

The message format is that of the i3 IPC protocol, section "Sending messages to
i3"; the events of the session lock are those of the `ext_session_lock_v1`
interface of the ext-session-lock-v1 Wayland protocol.

## What the proofs found

- A workspace name that the bar sends is quoted for a reader that unquotes and
  unescapes, which is what a line of the configuration is given: there the name gets
  through whatever the variables are exactly if it has no dollar sign
  (`WorkspaceCommand.SurvivesConfigIff`). Over IPC it is not: there newlines become
  semicolons, escapes stay and variables are replaced. The name arrives unchanged
  whatever the variables are exactly if it has no double quote, backslash, newline or
  dollar sign (`WorkspaceCommand.AlwaysArrivesIff`; `DollarIsLost`, `NewlineIsLost`).
  With two double quotes in it the command may even be cut in two
  (`StaysOnePieceIff`, `QuotesEndTooEarly`).
- An escaped quote or separator in a command list leaves the next character escaped,
  too, so that the list `\";` is not cut at its semicolon (`ArgSep.EscapeRunsOn`).
  `ArgSep.EscapesAreAsIntendedIff` says where characters are read otherwise than
  intended, `ArgSep.PiecesAreAsIntendedIff` when that changes the pieces. Without quotes
  it does exactly if two separators have nothing but backslashes between them and an odd
  number of backslashes stands right in front of the first
  (`ArgSep.WithoutQuotesAsIntendedIff`).
- Not every semicolon of a command list is followed by a look for criteria. They are
  looked for in the first piece, and in a piece behind a semicolon exactly if the pieces
  in front of it are an even number of blank ones behind a command or the start of the
  list, or an odd number of blank ones behind an empty piece; criteria that are read with
  nothing behind them count as blank (`CriteriaTurns.LooksIff`). So they are hidden in `a;;[x]`
  (`CriteriaTurns.EmptyCommandHides`) and found in `; ;[x]`
  (`CriteriaTurns.BlankPieceShows`). Where they are not looked for, the scope stays: in
  `[x]a,;b` both commands run on what `[x]` selects
  (`CriteriaTurns.SemicolonKeepsScope`).
- A value of criteria that ends in a backslash cannot be written in quotes
  (`CriteriaText.ReadBackIff`).
- The check for an escaped dollar sign looks at text that substitution has already
  written, so a value that ends in a single backslash escapes what comes behind it:
  with `$a` set to `x\` and `$b` to `y`, `$a$b` gives `x\$b`
  (`Variables.ValueEscapesNextName`). Exactly text that ends in a backslash has such an
  effect (`Variables.ContextIsForgottenIff`).
- Only a single backslash escapes a dollar sign: behind two, three or any other number a
  name is replaced (`VariableLaws.BackslashLaw`).
- Doubling a dollar sign protects it unless a backslash escapes it
  (`Variables.DoublingProtectsIff`).
- Resolving the escapes of a string steps past its end exactly if it ends in a
  backslash that is not escaped itself and nothing stops the scan before
  (`Quotes.RunsOverIff`). At `\0` it returns without squeezing: the text that is left
  ends at the first earlier `\x`, or behind the value of the first earlier escape that is
  known, and has the length returned exactly if there is neither (`Quotes.EarlyEndIff`,
  `Quotes.EarlyEndCutsText`). Unknown escapes do no harm.
- A client that sends a tick and is subscribed to ticks may be disconnected by its own
  event before the reply: there is a client to reply to exactly if its queue with that
  event stays below 2^21 bytes (`IpcServer.HandleSendTick`).
- A configuration block named `<commands>` can never be closed again
  (`ConfigReader.CommandsBlockNeverCloses`).
- A message whose payload is larger than what the socket can hold is never handled
  (`IpcReassembly.DeliverableIffPayloadsFit`).
- Retranslating the bindings of a mode forgets a binding for good if the new keymap
  makes it conflict with another one (`Bindings.TablesForgetKeymapIff`, and
  `Bindings.LostBinding` for such bindings and keymaps).
- A gesture without a finger count is written with a count of 0, which is refused
  when it is read (`Gesture.AcceptedRoundTripIff`).
- Fitting the visible children when none is visible changes no size but moves the
  chain, so that it ends at the edge of the workspace (`FitSize.FitSize`).
- The client does not look at the magic string of a reply
  (`IpcPeer.ReturnedIsFirstMessageIff`, `IpcPeer.WrongMagicIsAccepted`), and its receive
  loop does not end if the connection is closed within a payload
  (`IpcPeer.PayloadIsReadIff`, `IpcPeer.TruncatedReply`).

## Model

| member | source | states |
|---|---|---|
| List.List.constructor | common/list.c:7-16 | a new list is empty with capacity 10 |
| List.List.Resize | common/list.c:18-23 | makes room by doubling exactly when the array is full; the contents stay |
| List.List.Add | common/list.c:33-36 | appends one item |
| List.List.Insert | common/list.c:38-43 | inserts before an index, shifting the rest with one block move |
| List.List.Del | common/list.c:45-48 | removes exactly the item at an index |
| List.List.Cat | common/list.c:50-54 | appends another list, which stays as it is |
| List.List.SeqFind | common/list.c:60-68 | the first index the comparison calls equal to the key, or -1 |
| List.List.Find | common/list.c:70-77 | the first index of the item, or -1 |
| List.List.Swap | common/list.c:79-83 | exchanges two items and nothing else |
| List.List.MoveToEnd | common/list.c:85-97 | the first occurrence moves behind all others, which keep their order |
| List.List.MoveTo | common/list.c:99-118 | removal followed by insertion at the index in the resulting list, whichever way the block moves |
| List.List.Rotate | common/list.c:120-129 | the item at `to` goes in front of `from`, everything between moves up by one |
| List.List.InplaceMerge | common/list.c:131-148 | merges two sorted runs into a sorted one, stably, without touching anything outside; the loop terminates |
| List.List.InplaceSort | common/list.c:150-163 | sorts a range stably by recursion and merging |
| List.List.StableSort | common/list.c:165-169 | the contents become sorted and every class of equal items keeps its order; unused capacity is untouched |
| StableOrder.StableSortIsUnique | common/list.c:165-169 | for any total preorder there is only one sorted sequence with the same classes in the same order, so the sort is determined by its promise |
| StableOrder.RotationIsStable | common/list.c:120-148 | moving an item in front of strictly greater ones disturbs no class of equal items |
| List.TakeRight | common/list.c:139-146 | one rotation of the merge keeps both runs sorted and the merge stable |
| Criteria.CmpUrgent | sway/criteria.c:137-152 | orders urgent views by seconds, then nanoseconds; zero exactly for equal times |
| Criteria.CmpUrgentIsPreorder | sway/criteria.c:137-152 | that is a total preorder, as the sort needs |
| Criteria.FindUrgent | sway/criteria.c:154-160 | collects exactly the urgent views, in tree order |
| Criteria.UrgentInOrder | sway/criteria.c:154-160 | and each once |
| Criteria.MatchesUrgent | sway/criteria.c:408-425 | a view matches exactly if it is urgent and is the one selected: oldest takes the first of the earliest, latest the last of the latest |
| Criteria.EndIsSelected | sway/criteria.c:408-425 | the end of the stably sorted list is the selected view, and no other view is |
| Criteria.ExactlyOneSelected | sway/criteria.c:408-425 | if anything is urgent, exactly one position qualifies, ties decided by tree order |
| IpcFrames.HeaderRoundTrip | common/ipc-client.c:132-136 | magic, length and type are read back from the header, whatever follows |
| IpcFrames.HeaderCanonical | sway/ipc-server.c:240-256 | a header with the right magic is the header of the numbers in it |
| IpcFrames.FrameBytes | sway/ipc-server.c:1012-1016 | which byte of a frame stands where: i3-ipc, the length, the type, least significant bytes first, and the payload |
| IpcFrames.ParseInvertsFrameAll | common/ipc-client.c:132-144 | a stream of encoded messages means exactly these messages |
| IpcFrames.ParseFrames | common/ipc-client.c:132-144 | encoded messages are read back in front of any tail |
| IpcReassembly.HandledIsPrefix | sway/ipc-server.c:203-267 | however the stream is cut up and interleaved with readable events and hangups, the commands handled are a prefix of the messages in it |
| IpcReassembly.HandledIsPrefixOfSent | sway/ipc-server.c:203-267 | and so a prefix of what the peer sent, while only a part of it has arrived |
| IpcReassembly.RunAccounts | sway/ipc-server.c:203-267 | no byte is lost or used twice: handled frames, the header waited on and the bytes in the socket are the stream received |
| IpcReassembly.DroppedOnlyForBadHeader | sway/ipc-server.c:249-253 | without a hangup a client is dropped only at a header with the wrong magic, right behind the messages handled |
| IpcReassembly.HangupDisconnects | sway/ipc-server.c:206-215 | after a hangup the client is gone |
| IpcReassembly.DisconnectedStays | sway/ipc-server.c:206-253 | after a disconnect nothing more is handled |
| IpcReassembly.EverythingIsHandled | sway/ipc-server.c:203-267 | once everything has arrived, one readable event per message and one more handle all of them, and the client is dropped exactly if a bad header follows |
| IpcReassembly.SentMessagesAreHandled | sway/ipc-server.c:203-267 | the same for the messages of a correct sender, empty payloads included |
| IpcReassembly.DeliverableIffPayloadsFit | sway/ipc-server.c:224-238 | with a bounded socket buffer, messages can be delivered at all exactly if no payload exceeds it |
| IpcQueue.GrowIsLeast | sway/ipc-server.c:1018-1021 | the doubling loop ends at a doubled size above the need, and half of it would not do unless nothing was doubled |
| IpcQueue.GrowthWithinLimit | sway/ipc-server.c:1018-1028 | the size test after the loop is the test against 2^21 |
| IpcQueue.RefusedIffTooLong | sway/ipc-server.c:1018-1033 | a reply is refused exactly when the queue with its frame would reach 2^21 bytes |
| IpcQueue.QueueOkAlways | sway/ipc-server.c:555-592 | in every state of every run: bytes written and bytes queued are the accepted frames, the queue is shorter than its power-of-two buffer, and the writable source is registered exactly while the queue is not empty |
| IpcQueue.EveryByteOnce | sway/ipc-server.c:555-592 | in every run, what the socket took, told by its answers, and what is queued are together the frames of the replies that were added, each byte once and in order; the connection lasts until a hangup, a failed write or a reply that is too long; the writable source is there exactly while something is left |
| IpcQueue.PeerReadsAcceptedReplies | sway/ipc-server.c:1008-1050 | what the socket took always reads as a prefix of the replies that were added, and as all of them once it took all their bytes |
| IpcServer.IpcClient.constructor | sway/ipc-server.c:175-200 | a new client waits for a header and has an empty queue of 128 bytes |
| IpcServer.IpcClient.TryReceive | sway/ipc-server.c:217-264 | one readable event is one step of the input machine: header, payload, or nothing yet |
| IpcServer.IpcClient.Receive | sway/ipc-server.c:643-665 | takes exactly the payload from the socket |
| IpcServer.IpcClient.Enqueue | sway/ipc-server.c:1018-1047 | appends header and payload to the buffer, growing it, or refuses; exactly one step of the output machine |
| IpcServer.IpcClient.WriteOut | sway/ipc-server.c:569-591 | drops what the socket took from the front of the buffer and unregisters when it is empty |
| IpcServer.IpcServer.HandleConnection | sway/ipc-server.c:150-201 | adds a fresh client at the end of the list |
| IpcServer.IpcServer.Disconnect | sway/ipc-server.c:594-614 | takes exactly this client out of the list and closes it |
| IpcServer.IpcServer.HandleReadable | sway/ipc-server.c:203-267 | the handler steps this client's input machine, hangups included, and leaves the others alone |
| IpcServer.IpcServer.SendReply | sway/ipc-server.c:1008-1050 | the handler queues one frame or disconnects the client |
| IpcServer.IpcServer.HandleWritable | sway/ipc-server.c:555-592 | the handler steps this client's output machine or disconnects it |
| IpcServer.IpcServer.SendEvent | sway/ipc-server.c:279-295 | every client connected before is notified exactly once if subscribed, although the list shrinks under the loop; the survivors keep their order |
| IpcServer.IpcServer.HandleSendTick | sway/ipc-server.c:702-707 | a tick is sent to its subscribers and then answered: there is a sender to answer if and only if the event has not overflown its queue, and the answer is accepted if and only if it fits behind the event |
| IpcServer.IpcServer.Tell | sway/ipc-server.c:482-495 | the event goes out only if anyone listens, which makes no difference |
| IpcServer.IpcServer.AnswerTickSubscription | sway/ipc-server.c:809-818 | a subscription to ticks is answered with two messages, the second of which has a client if and only if the first was accepted |
| IpcServer.IpcServer.HasListeners | sway/ipc-server.c:269-277 | whether any client is subscribed |
| IpcServer.IpcServer.HandleDisplayDestroy | sway/ipc-server.c:68-83 | shutdown closes every connection and empties the list |
| IpcPeer.Connection.Receive | common/ipc-client.c:86-93 | the header loop assembles exactly the requested bytes from arbitrary chunks, or finds the end |
| IpcPeer.Connection.ReceivePayload | common/ipc-client.c:111-118 | the payload loop, watched for a number of turns, follows a run of turns that take an empty receive for a turn like any other |
| IpcPeer.Connection.RecvResponse | common/ipc-client.c:83-125 | aborts exactly if the header is not there; returns the message in front and leaves what follows, within one turn per byte, if the payload is there; is still reading after any number of turns if it is not |
| IpcPeer.Connection.SingleCommand | common/ipc-client.c:132-152 | sends exactly one frame and waits for the first reply, with the same outcomes |
| IpcPeer.PayloadIsReadIff | common/ipc-client.c:111-118 | some finite number of turns completes the payload if and only if all of it is there |
| IpcPeer.WholePayloadIsRead | common/ipc-client.c:111-118 | if it is there, every run goes on until it is complete, and has at most one turn per byte |
| IpcPeer.TruncatedPayloadIsNeverRead | common/ipc-client.c:111-118 | if it is not, there are runs of every length, and the payload is complete in none |
| IpcPeer.TruncatedReply | common/ipc-client.c:111-118 | so it is for a header that announces one byte and then the end of the connection |
| IpcPeer.ReturnedIsFirstMessageIff | common/ipc-client.c:104-125 | the message returned is the first of the stream if and only if the magic is right and the payload is there; with a wrong magic one is returned where the stream has none |
| IpcPeer.WrongMagicIsAccepted | common/ipc-client.c:104-125 | any frame whose first byte is changed is returned as if it were right |
| IpcPeer.ReplyIsReadBack | common/ipc-client.c:83-125 | a reply framed by the server is read back unchanged |
| SessionLock.StepKeeps | sway/lock.c:31-143 | every event keeps one lock output per output, distinct surfaces, the right focus, and listeners linked exactly while the lock is not abandoned |
| SessionLock.ReachableLockIsRight | sway/lock.c:258-345 | in every reachable state each output of the server has exactly one lock output, the focus is on a mapped surface of the lock whenever there is one and empty otherwise |
| SessionLock.StepFollowsProtocol | sway/lock.c:194-319 | the handlers, which look only at linked listeners, follow the protocol's unlocked, locked, abandoned |
| SessionLock.UnlockedOnlyByItsLock | sway/lock.c:194-319 | over any run, a locked session becomes unlocked only by an unlock from its own, not abandoned lock or by manager shutdown |
| SessionLock.LiveLockStays | sway/lock.c:258-272 | a live lock is never replaced: it stays until its own unlock or abandonment |
| SessionLock.AbandonedLockStays | sway/lock.c:242-272 | an abandoned lock keeps the session locked until a new lock replaces it |
| SessionLock.NewSurfaceKeeps | sway/lock.c:103-130 | a new surface always finds the lock output of its output, and the state stays right |
| SessionLock.DestroySurfaceKeeps | sway/lock.c:70-79 | when a surface goes, the focus moves to another mapped surface of the lock or to none |
| SessionLock.OutputGoneKeeps | sway/lock.c:132-149 | so it does when an output goes |
| LockLaws.FocusLaw | sway/lock.c:31-149 | at every event the focus stays on its surface as long as that is on screen; else it goes to the first lock output with a mapped surface |
| LockLaws.FocusStays | sway/lock.c:62-79 | over any run a surface keeps the focus until it is destroyed, its output is destroyed or the lock goes; no other surface that is mapped takes it |
| LockLaws.StateLaw | sway/lock.c:62-79 | which outputs are there and which surfaces are mapped after each event |
| LockLaws.OutputsLaw | sway/lock.c:132-192 | which outputs a lock has after each event |
| LockLaws.SurfacesLaw | sway/lock.c:70-143 | which surfaces it shows, and on which outputs |
| LockLaws.OrderLaw | sway/lock.c:151-192 | a new lock output comes first, and the others keep their order |
| LockLaws.NewLockLaw | sway/lock.c:258-307 | a new lock gets the session exactly if the manager is there and no live lock holds it, covers the outputs and starts with no surface and no focus |
| LockLaws.EndLaw | sway/lock.c:194-256 | an unlock or manager shutdown ends a lock, and its abandonment leaves its outputs and focus |
| LockLaws.NoManagerNoLock | sway/lock.c:309-319 | without a manager there is never a lock again |
| SessionLock.SessionLock.RefocusOutput | sway/lock.c:41-60 | moves the focus to the first other mapped surface, only if it was on this output |
| SessionLock.SessionLock.HandleSurfaceMap | sway/lock.c:62-68 | a mapped surface gets the focus exactly if there was none |
| SessionLock.SessionLock.HandleSurfaceDestroy | sway/lock.c:70-79 | refocuses, then forgets the surface |
| SessionLock.SessionLock.HandleNewSurface | sway/lock.c:103-130 | puts the surface on the lock output of its output |
| SessionLock.SessionLock.DestroyOutput | sway/lock.c:132-143 | refocuses if there is a surface, then removes the lock output |
| SessionLock.SessionLock.AddOutput | sway/lock.c:151-192 | puts a new lock output in front of the list |
| SessionLock.SessionLock.HandleAbandon | sway/lock.c:242-256 | marks the lock and unlinks its three listeners, which are linked then |
| SessionLock.Server.DestroyLock | sway/lock.c:194-212 | destroys all lock outputs, clears the lock, and unlinks listeners only if they are linked |
| SessionLock.Server.HandleSessionLock | sway/lock.c:258-307 | refuses while a live lock holds the session; replaces an abandoned one; covers every output |
| SessionLock.Server.HandleUnlock | sway/lock.c:214-218 | an unlock destroys the lock |
| SessionLock.Server.HandleManagerDestroy | sway/lock.c:309-319 | shutdown destroys the lock |
| SessionLock.Server.Notify | sway/lock.c:31-356 | the handlers together are one step of the state machine, for every event that may come |
| Tokens.SplitIffLayout | common/stringop.c:92-143 | splitting, told without its loop: the tokens are the only ones that, with whitespace around and between them, make up the line |
| Tokens.SplitLayout | common/stringop.c:92-143 | nothing but whitespace lies outside the tokens, and nothing is lost |
| Tokens.SplitWeave | common/stringop.c:92-143 | whatever whitespace separates them, proper tokens are found again |
| TokenLaws.IsTokenIff | common/stringop.c:106-126 | a text is one argument if and only if it begins outside whitespace and all whitespace in it is escaped, in quotes, or in brackets that are not in quotes or escaped |
| TokenLaws.IsClosedIff | common/stringop.c:106-126 | whitespace may follow an argument if and only if nothing is open at its end |
| TokenLaws.SplitsIff | common/stringop.c:92-143 | splitting, told by the characters of the line alone |
| TokenLaws.OnlyBrackets | common/stringop.c:112-115 | without quotes and backslashes: each whitespace needs an opening bracket before it and no closing one between |
| TokenLaws.OnlyOneQuote | common/stringop.c:108-111 | with quotes of one kind: an odd number of them |
| TokenLaws.OnlyBackslashes | common/stringop.c:116-124 | without quotes and brackets: an odd number of backslashes right in front |
| TokenLaws.CriteriaAreOneArgument | common/stringop.c:112-115 | [a b] is one argument |
| TokenLaws.WhitespaceIs | common/stringop.c:13-22 | whitespace is that of isspace in the C locale |
| Tokens.SplitArgs | common/stringop.c:92-143 | the loop with its flags and growing array returns exactly these tokens, with room for the terminator |
| Tokens.AddToken | common/stringop.c:127-136 | storing a token keeps room for one more entry and the terminator |
| Tokens.SplitGivesTokens | common/stringop.c:92-143 | every token starts outside whitespace, and all but the last have their quotes and brackets closed |
| Tokens.SplitJoin | common/stringop.c:236-253 | splitting joined tokens gives these tokens |
| Tokens.ResplitIsStable | common/stringop.c:236-253 | split, join, split is split, for every string with a token |
| Tokens.JoinArgs | common/stringop.c:236-253 | fills its buffer exactly; without tokens it fails |
| Tokens.SplitContinues | common/stringop.c:92-143 | a line that continues joined closed tokens splits into them and its own |
| Quotes.StripQuotesInPlace | common/stringop.c:26-50 | the shifting loop leaves exactly the string without its unescaped quotes |
| Quotes.StripLaw | common/stringop.c:26-50 | just the quotes that open or close a quotation are removed |
| Readings.OpenQuoteIff | common/stringop.c:26-50 | a quote is open exactly if it opened a quotation and none of its kind, not escaped, has followed |
| EscapeLaws.EscapeTable | common/stringop.c:162-204 | which letters are known, and the codes of their characters |
| EscapeLaws.DecodeLaw | common/stringop.c:152-234 | the decoded string is what its characters add one by one, up to the first \x with digits; that is its byte, and the rest is kept |
| Quotes.MarkEscape | common/stringop.c:157-221 | each escape is overwritten by its value and marks; digits after \x stop the scan, and \0 ends the function |
| Quotes.UnescapeInPlace | common/stringop.c:152-234 | for every string the scan does not run over, the text that is left and the length returned, early end included |
| Quotes.DecodableIsDecoded | common/stringop.c:152-234 | without \0, marking and squeezing leave exactly the decoded string and return its length |
| Quotes.EarlyEndIff | common/stringop.c:159-161 | at \0 the text left ends at the first earlier \x, or behind the value of the first earlier known escape, and has the length returned if and only if there is neither |
| Quotes.RunsOverIff | common/stringop.c:156-158 | the scan steps past the terminator if and only if the string ends in a backslash that is not escaped itself and no \0 or \x with a digit stops it before |
| ExecuteCommand.StripArguments | sway/commands.c:324-334 | the quotes of an argument are removed if it begins with one, except for exec, exec_always and mode |
| ExecuteCommand.ReplaceVariables | sway/commands.c:342-345 | variables are replaced in every argument but the name that is set |
| ExecuteCommand.HandleCommand | sway/commands.c:322-388 | one command: its arguments, whether it is known, and its effect on the focus or on each container that criteria selected |
| ExecuteCommand.RunOnContainers | sway/commands.c:364-386 | the last failure is the result, and an invalid command ends the loop |
| ExecuteCommand.BodyStep | sway/commands.c:313-388 | one turn of the loop behind the criteria |
| ExecuteCommand.ExecuteCommand | sway/commands.c:265-394 | the loop runs the list as told by Run: criteria at the start and behind semicolons, one piece at a time, up to the first invalid command |
| ExecuteCommand.PlainListRunsPieces | sway/commands.c:290-389 | a list without criteria runs exactly the non-blank pieces between its separators, without leading whitespace, up to the first invalid one |
| CommandLaws.CommandLaw | sway/commands.c:334-386 | what a command does, told by the calls of its handler: none if it is not known or criteria selected nothing; one without criteria; else one for each container in order, each in the environment the last one left, up to the first invalid answer; the answer is invalid if one was, else the last that is no success |
| CommandLaws.CallsAreUnique | sway/commands.c:364-386 | there is only one such sequence of calls |
| CommandLaws.ArgumentsLaw | sway/commands.c:324-345 | what each argument is: without the quotes of its quotations if it begins with one, except for exec, exec_always and mode, and with variables replaced, except in the name that is set |
| CommandLaws.AnswersLaw | sway/commands.c:313-389 | a list gets one answer for each of its commands, up to the first that is invalid, whatever the others are |
| CommandPlans.PlanRunsAsMeant | sway/commands.c:290-389 | groups of commands, written with commas inside, semicolons between and whitespace before criteria and commands, run as they are meant: each group on what its own criteria select when its turn comes |
| CommandPlans.WrittenList | sway/commands.c:290-389 | a list as people write it is the text of such groups |
| CriteriaTurns.ListRunsInParts | sway/commands.c:290-389 | every list runs piece by piece, and criteria are looked for in just the pieces with which a turn of the loop starts, first or behind a semicolon; in other pieces the scope stays |
| CriteriaTurns.TurnIff | sway/commands.c:290-317 | with which pieces a turn starts: an even number of blank ones stand behind a command or the start of the list, or an odd number behind an empty one |
| CriteriaTurns.LooksIff | sway/commands.c:294-312 | so in which pieces criteria are looked for |
| CriteriaTurns.HiddenCriteriaAreInvalid | sway/commands.c:294-340 | in any list, a piece in which criteria are not looked for, but which begins with a bracket, is an invalid command and ends the list |
| CriteriaTurns.HasCommandIff | sway/commands.c:315-320 | a piece without criteria has a command if and only if it is not all whitespace |
| CriteriaTurns.PartsAreRawPiecesIff | sway/commands.c:294-314 | the pieces are those between the separators of the list if and only if no criteria that are read hide or show a separator |
| CriteriaTurns.EmptyCommandHides | sway/commands.c:294-314 | in a;;[x] the criteria are taken for a command |
| CriteriaTurns.BlankPieceShows | sway/commands.c:294-314 | in ; ;[x] they are read |
| CriteriaTurns.SemicolonKeepsScope | sway/commands.c:294-314 | in [x]a,;b the command behind the semicolon runs on what the criteria selected |
| CriteriaText.ParseText | sway/criteria.c:748-836 | the loop over tokens, names, values and quotes finds the tokens and the end of the criteria, or a mistake |
| CriteriaText.Unescape | sway/criteria.c:721-739 | the copying loop drops the backslash in front of each quote |
| CriteriaText.PairsPrefix | sway/criteria.c:765-829 | criteria that end at a bracket are read the same whatever follows |
| CriteriaText.BarePairRead | sway/criteria.c:805-815 | a value without quotes reaches up to the next space or bracket |
| CriteriaText.BareCriteria | sway/criteria.c:748-836 | so criteria with one such value are read back |
| CriteriaText.ReadBackIff | sway/criteria.c:780-815 | criteria written with their values in quotes, and backslashes in front of quotes in these, are read back if and only if no value ends in a backslash |
| IpcCommand.NextLine | sway/ipc-server.c:671-678 | skips newlines and cuts off the next line |
| IpcCommand.JoinLines | sway/ipc-server.c:669-679 | the loop replaces the newline at the end of each line, but the last, by a semicolon |
| IpcCommand.JoinedAt | sway/ipc-server.c:669-679 | just the newlines that follow another character are replaced |
| WorkspaceCommand.BuildCommand | swaybar/ipc.c:21-43 | writes every byte of a buffer of exactly the counted size, the terminator last |
| WorkspaceCommand.QuotingIsInverted | swaybar/ipc.c:27-43 | for every name, removing quotes and then unescaping returns the name |
| WorkspaceCommand.ConfigLineRuns | sway/commands.c:403-485 | what the handler is given for the command as a line of the configuration |
| WorkspaceCommand.SurvivesConfigIff | sway/commands.c:463-483 | there it is given just the name, whatever the variables are, if and only if the name has no dollar sign |
| WorkspaceCommand.ReceivedName | sway/ipc-server.c:669-679 | joining the lines of the command is joining those of the name before it is quoted |
| WorkspaceCommand.StaysOnePieceIff | sway/commands.c:314 | the command is not cut if and only if every separator in the name is read inside the quotes, escapes running on |
| WorkspaceCommand.CommandTokens | sway/commands.c:322 | if it is not cut, the command is two tokens |
| WorkspaceCommand.ArrivesIff | sway/commands.c:313-345 | the list is a single command with just this name for its handler if and only if it is not cut, and putting in backslashes, joining lines and replacing variables cancel out |
| WorkspaceCommand.ArrivesPlainIff | sway/commands.c:313-345 | if no variable has a backslash or a semicolon in its name: if and only if the name has no double quote, backslash or newline and replacing variables leaves it as it is |
| WorkspaceCommand.AlwaysArrivesIff | sway/commands.c:313-345 | whatever the variables are: if and only if the name has no double quote, backslash, newline or dollar sign |
| WorkspaceCommand.ArrivalRuns | sway/commands.c:313-389 | and then running the list is running the handler once, with that name |
| WorkspaceCommand.DollarIsLost | sway/config.c:1061-1067 | of the name a$$b only a$b arrives |
| WorkspaceCommand.NewlineIsLost | sway/ipc-server.c:669-679 | of a name of two lines one line with a semicolon arrives |
| WorkspaceCommand.QuotesEndTooEarly | sway/commands.c:314 | a name with two double quotes for which the command is cut behind its first 17 characters |
| WorkspaceCommand.NewlineMayArrive | sway/commands.c:342-345 | a variable whose name has a semicolon can make up for a newline, so the condition on names of variables is needed |
| ArgSep.ArgSep | common/stringop.c:267-312 | one call cuts off one piece in place and returns the separator and the rest |
| ArgSep.Turn | common/stringop.c:276-303 | one turn of the loop does what the scan says, for every character and state |
| ArgSep.SeparatorIsFirst | common/stringop.c:276-303 | a cut is at the first separator that is neither quoted nor escaped |
| ArgSep.CutsAreAtSeparators | common/stringop.c:267-312 | for every string, backslashes included, each call cuts at the next separator, passing over those right at the start |
| ArgSep.RawPiecesAreCut | common/stringop.c:267-312 | the pieces cover the string, with exactly one separator behind each but the last and none inside |
| ArgSep.CuttingIsUnique | common/stringop.c:267-312 | there is only one way to cut |
| ArgSep.CallsReturnNonEmptyPieces | common/stringop.c:267-312 | successive calls return the non-empty pieces in order and perhaps one empty piece at the end, in finitely many calls |
| ArgSep.EscapesAreAsIntendedIff | common/stringop.c:278-302 | special characters and separators mean what is intended throughout a list if and only if none follows an escaped quote or separator directly |
| ArgSep.IntendedLaw | common/stringop.c:278-302 | what is intended, told by the text: the quote that is open, and whether an odd number of backslashes stands in front |
| ArgSep.PiecesAreAsIntendedIff | common/stringop.c:267-312 | the pieces are the intended ones if and only if each separator separates when it is meant to |
| ArgSep.WithoutOverrunCutAsIntended | common/stringop.c:267-312 | so they are if no quote, backslash or separator follows an escaped quote or separator directly |
| ArgSep.WithoutQuotesAsIntendedIff | common/stringop.c:276-302 | for lists without quotes: if and only if no separator with an odd number of backslashes in front of it is followed, directly or behind backslashes, by another |
| ArgSep.WithoutBackslashes | common/stringop.c:267-312 | for every string without backslashes the calls return the non-empty pieces between the delimiters outside quotes |
| ArgSep.EscapeRunsOn | common/stringop.c:278-302 | a list that is not cut where it is meant to be |
| Variables.DoVarReplacement | sway/config.c:1049-1099 | the in-place loop is one pass from left to right, and ends for every table with non-empty names |
| Variables.WrittenStays | sway/config.c:1068-1093 | what has been written is never changed: names in it are not replaced |
| Variables.ContextIsForgottenIff | sway/config.c:1053-1059 | the text behind what has been written is treated as if it stood alone, for all variables, if and only if what has been written does not end in a backslash |
| Variables.ValueEscapesNextName | sway/config.c:1053-1059 | a value that ends in a backslash keeps the variable behind it from being replaced |
| Variables.ValuesAreInert | sway/config.c:1049-1099 | if no value ends in a backslash, what is escaped is decided by the text of the line alone |
| Variables.ValueIsInsertedVerbatim | sway/config.c:1068-1093 | a value goes in as it is, even if it contains its own name |
| Variables.NothingToReplace | sway/config.c:1052 | without a dollar sign nothing changes |
| VariableLaws.EscapedIff | sway/config.c:1053-1058 | a dollar sign counts as escaped behind exactly one backslash |
| VariableLaws.BackslashLaw | sway/config.c:1053-1094 | a name behind n backslashes stays if n is one, and is replaced for any other n |
| VariableLaws.UnknownStays | sway/config.c:1095-1098 | text in which no name begins stays |
| VariableLaws.LongestIsReplaced | sway/config.c:1068-1093 | in a sorted table the longest variable that begins there is replaced |
| Variables.DoublingProtectsIff | sway/config.c:1053-1067 | doubling the dollar signs protects a text against every table if and only if no backslash escapes one of them |
| Variables.Symbols.Set | sway/commands/set.c:26-59 | defines or replaces one variable, keeping names distinct and the table sorted by length; refuses a name without a dollar sign |
| Variables.MatchIsLongest | sway/commands/set.c:11-15 | in such a table the first match is the longest |
| Variables.ExpandIgnoresTieOrder | sway/commands/set.c:11-15 | the order an unstable sort leaves among names of equal length has no effect |
| ConfigReader.ConfigCommand | sway/commands.c:403-485 | recognises block braces, resolves a command in a variable, and runs the command with its arguments, quotes and escapes resolved |
| ConfigLaws.PlainCommandLaw | sway/commands.c:403-485 | a line without variables and braces is one call of its command, which is given each word resolved but its own name and the name that is set; for a name that is not known there is no call |
| ConfigLaws.ArgumentLaw | sway/commands.c:470-483 | how one word is resolved: quotes, then escapes |
| ConfigLaws.StoredCommandRuns | sway/commands.c:431-441 | a line that begins with the name of a variable runs as the line with the words stored in it |
| ConfigLaws.CommandLineLaw | sway/config.c:964-1017 | a command in blocks is run with the words of the open blocks in front; it changes the environment, and nothing else unless it fails or is put off |
| ConfigLaws.SuccessIff | sway/config.c:960-1017 | a file is read with success if and only if none of its lines fails |
| ConfigLaws.TrimmedLaw | common/stringop.c:15-24 | trimming takes away whitespace at both ends, and all of it |
| ConfigLaws.ContinuationLaw | sway/config.c:825-853 | lines that end in a backslash are joined without it, unless the first is a comment |
| ConfigLaws.PlainLineLaw | sway/config.c:825-853 | other lines stand for themselves |
| ConfigLaws.BraceAheadIff | sway/config.c:855-876 | a brace is found if and only if it is alone on its line with nothing but blank lines before it |
| ConfigLaws.LineLaw | sway/config.c:919-955 | which lines are skipped, and when an opening brace from a later line is added |
| ConfigReader.ResolveAll | sway/commands.c:470-483 | the loop over the arguments, which leaves the name of a command and the name that is set |
| ConfigReader.PlainLineIsUnchanged | sway/commands.c:463-466 | without a dollar sign, joining and splitting again leaves the arguments as they were |
| ConfigReader.SetNameSurvives | sway/commands.c:454-466 | the name in `set $name` reaches the command unchanged, even if it or a beginning of it is defined |
| ConfigReader.ReadLineTracksBlocks | sway/config.c:954-1016 | each line changes the stack of texts exactly as it changes the open blocks: the top is the join of all their header tokens, outermost first |
| ConfigReader.FileTracksBlocks | sway/config.c:891-1028 | so it is for every file |
| ConfigReader.DepthIsOpensMinusCloses | sway/config.c:988-1012 | for every file, the depth of the stack is the number of lines that end in an opening brace, with a header or in a block, less the lines that end in a closing brace while a block is open, none counting after a <commands> block opened |
| ConfigReader.UnmatchedCloseFails | sway/config.c:1001-1006 | a closing brace outside all blocks fails and changes nothing else |
| ConfigReader.CommandsBlockNeverCloses | sway/config.c:964-969 | a block named <commands> stays open, and every line in it is an error |
| ConfigReader.GetLineWithCont | sway/config.c:825-853 | a line takes in the lines that its trailing backslashes continue |
| ConfigReader.DetectBrace | sway/config.c:855-876 | counts the lines up to an opening brace on a line of its own |
| ConfigReader.NextLine | sway/config.c:919-955 | trimming, comments, and a brace on a following line |
| ConfigReader.HandleLine | sway/config.c:954-1017 | the switch over the outcome of one line |
| ConfigReader.ReadConfig | sway/config.c:891-1028 | the loop executes exactly the logical lines of the file |
| Bindings.Binding.KeyCompare | sway/commands/bind.c:64-105 | two bindings compare as the same exactly if their conflict keys are equal |
| Bindings.SameKeyIff | sway/commands/bind.c:64-105 | on sorted keys this is: the same input, type, group and modifiers, the same flags apart from the four that make no conflict, and each key as often |
| BindingLaws.TranslationLaw | sway/commands/bind.c:696-747 | a binding is translated if and only if it is for the keyboard, marked for it, and each of its keysyms is given by a single keycode: to these keycodes, sorted; else a marked one is for its keysyms; nothing else of it ever changes |
| BindingLaws.RetranslationLaw | sway/config.c:1120-1168 | which bindings a keymap change leaves: of those that get the same key the last one, keysym bindings before keycode bindings |
| BindingLaws.KeymapLaw | sway/config.c:1142-1168 | a keymap change leaves mouse bindings alone, and binding leaves the keymap alone |
| BindingLaws.UpsertPlace | sway/commands/bind.c:266-278 | where a binding goes in its table: to the place of the one it replaces or to the end |
| Bindings.LibcSort | sway/commands/bind.c:107-111 | there is only one way to sort keys, so the library's choice does not matter |
| Bindings.BindingList.Upsert | sway/commands/bind.c:266-278 | replaces the binding with the same key in place, or appends; returns the one replaced |
| Bindings.UpsertIsMapUpdate | sway/commands/bind.c:266-278 | on a table without conflicts this is map update, and conflicts do not arise |
| Bindings.BindingList.Remove | sway/commands/bind.c:304-321 | removes the binding with the same key, and says whether there was one |
| Bindings.RemoveIsMapRemoval | sway/commands/bind.c:304-321 | this is removal from the map |
| Bindings.OneMapOnly | sway/commands/bind.c:266-321 | a table without conflicts stands for one map only |
| Bindings.GetKeycodeForKeysym | sway/commands/bind.c:664-694 | the last keycode that gives the keysym, and how many do |
| Bindings.CodeForIff | sway/commands/bind.c:664-694 | a keysym translates exactly if a single keycode gives it, and to that |
| Bindings.Binding.Translate | sway/commands/bind.c:696-747 | the rebuilt binding, or the restored one after a failure |
| Bindings.OnlyTheLastKeymapMatters | sway/commands/bind.c:696-747 | after any sequence of keymaps a binding depends only on its original keysyms and the last keymap; a failure restores it completely |
| Bindings.TranslatedIsWellFormed | sway/commands/bind.c:696-747 | keys stay sorted, and a keycode binding made with --to-code always has its keysyms |
| Bindings.TranslateInto | sway/config.c:1122-1137 | one turn of the loop puts the translated binding into the table of its type |
| Bindings.TranslateBindingList | sway/config.c:1120-1140 | the loop adds the translated bindings in order |
| Bindings.Mode.TranslateKeysyms | sway/config.c:1154-1168 | both tables are rebuilt from the translated bindings of both |
| Bindings.RetranslatedAreTables | sway/config.c:1120-1168 | the new tables hold no two conflicting bindings and one type each |
| Bindings.LaterBindingWins | sway/config.c:1120-1140 | for each key the later binding is the one that stays |
| Bindings.NothingIsLostIff | sway/config.c:1154-1168 | no binding is lost if and only if none conflict under the keymap |
| Bindings.TablesForgetKeymapIff | sway/config.c:1154-1168 | under a keymap without conflicts, the tables are as if the keymap before had never been if and only if that one had no conflicts |
| Bindings.ConflictsWithCodeIff | sway/config.c:1120-1140 | a --to-code binding conflicts with a keycode binding under exactly the keymaps that give its keysyms to those keycodes, each as often |
| Bindings.ConflictsWithSymIff | sway/config.c:1120-1140 | two --to-code bindings conflict exactly if both get the same keycodes, or neither translates and their keysyms are the same |
| Bindings.KeymapMayMakeConflict | sway/config.c:1120-1140 | for one keysym: any keymap that translates it makes a conflict exactly with the binding to the keycode it translates to |
| Bindings.KeymapLosesBinding | sway/config.c:1154-1168 | for any two keymaps that give a keysym to different keycodes, going to one and back loses one of two bindings |
| Bindings.LostBinding | sway/config.c:1154-1168 | bindings and keymaps for which this happens |
| Bindings.StepKeeps | sway/commands/bind.c:466-490 | binding, unbinding and keymap changes keep the tables free of conflicts, of one kind each, and translated by the present keymap |
| Bindings.After | sway/commands/bind.c:466-490 | so they are in every state that can be reached |
| Bindings.BindFinds | sway/commands/bind.c:266-278 | after binding, this binding is found under its key, and under every other key what was found before |
| Bindings.UnbindFinds | sway/commands/bind.c:304-321 | after unbinding, nothing is found under its key, and everything else as before |
| Bindings.Mode.Bind | sway/commands/bind.c:466-490 | translates the binding and puts it into the table of its type, as one step of this machine |
| Bindings.Mode.Unbind | sway/commands/bind.c:466-486 | translates the binding and removes its like from the table of its type, and says whether there was one |
| FitSize.GetVisible | sway/commands/fit_size.c:22-113 | the two walks find the least and the greatest visible child, or the length and -1 |
| FitSize.VisibleFromActive | sway/commands/fit_size.c:22-63 | the walk away from the beginning |
| FitSize.VisibleToActive | sway/commands/fit_size.c:65-106 | the walk towards the beginning |
| FitSize.OverlapsIff | sway/commands/fit_size.c:32-34 | the three-case test asks whether a child reaches into the workspace from either side |
| FitSize.VisibleChildren | sway/commands/fit_size.c:22-113 | with nothing negative, the visible children are exactly those from one endpoint to the other |
| FitSize.SetFromPosition | sway/commands/fit_size.c:118-151 | moves exactly the children between the edge child and the active one, in both branches |
| FitSize.FromIsAtEdge | sway/commands/fit_size.c:118-151 | walking from the active child's new position, the chain puts the edge child at origin plus scaled gap |
| FitSize.SplitEqually | sway/commands/fit_size.c:203-209 | every child of the group gets the same size and fraction, nothing else changes |
| FitSize.SplitProportionally | sway/commands/fit_size.c:191-202 | every child of the group is scaled by the same ratio |
| FitSize.ResizeGroup | sway/commands/fit_size.c:185-232 | sizes and gaps add up to the extent of the workspace and fractions to one, in both modes, unless scaling divides by zero |
| FitSize.GroupEndsAtEdge | sway/commands/fit_size.c:118-232 | a fitted group ends, with its gap, exactly at origin plus scaled extent |
| FitSize.FitSize | sway/commands/fit_size.c:153-328 | the named group is chosen, fills the workspace and sits at its edges; its children have equal shares or keep their proportions, and only the children between its beginning and the active one are moved, into the chain, unless scaling divides by zero; no other size changes |
| Gesture.SplitString | common/stringop.c:79-90 | the non-empty tokens between delimiters |
| GestureLaws.SplitWoven | common/stringop.c:79-90 | however many delimiters there are, just the words are found |
| GestureLaws.AcceptedIff | common/gesture.c:14-90 | which strings are gestures, told by their words |
| GestureLaws.AcceptedLaw | common/gesture.c:14-90 | and which gesture each of them is |
| GestureLaws.ErrorLaw | common/gesture.c:14-90 | the error is for the first thing that is wrong |
| GestureLaws.DirectionsLaw | common/gesture.c:58-84 | words are read as the set of their bits, up to the first that is no direction |
| GestureLaws.DirectionsByName | common/gesture.c:58-84 | which word adds which bit |
| GestureLaws.WrittenInOrder | common/gesture.c:133-160 | directions are written in the order of their bits |
| Gesture.SplitJoined | common/stringop.c:79-90 | splitting undoes joining for tokens without the delimiter |
| Gesture.GestureParse | common/gesture.c:14-90 | the gesture that a string says, or the error for the first thing wrong with it and the gesture as far as it was read |
| Gesture.DirectionsToString | common/gesture.c:133-160 | the names of all set bits in order, or any |
| Gesture.GestureToString | common/gesture.c:162-169 | type, count and directions with colons between them |
| Gesture.ReadBack | common/gesture.c:14-90 | what reading makes of any written gesture, errors included |
| Gesture.RoundTripIff | common/gesture.c:162-169 | a gesture is read back exactly if it has a type, 1 to 9 fingers and no unknown direction bit |
| Gesture.AcceptedRoundTripIff | common/gesture.c:14-90 | any accepted string gives a gesture that is read back if and only if it had a finger count |
| Gesture.DirectionsAreASet | common/gesture.c:58-84 | order and repetition of directions do not matter |
| WlArray.Array.Realloc | common/util.c:165-192 | the new allocation is the one the policy says, the live bytes that fit stay, and they are copied only if it changes |
| WlArray.Array.Refill | sway/tree/scene/scene.c:2327-2330 | emptying, adding entries and reallocating leaves exactly the entries, and an allocation of at most four times their size or 16 |
| WlArray.Array.RemoveAt | common/util.c:157-163 | takes exactly these bytes out |
| WlArray.StepIsTight | common/util.c:166-180 | an allocation is 16 times a power of two, enough, and at most four times the size unless it is 16 |
| WlArray.StepIsPaid | common/util.c:166-180 | each change pays for its copying with two bytes per byte of change and the potential abs(2 size - alloc) |
| WlArray.CopyingIsLinear | common/util.c:165-192 | over any sequence of sizes at most twice the total change plus 16 live bytes are copied |
| Memory.MemMove | common/util.c:160-161 | an overlapping block move |

## Left out

- Bindings.Binding.Translate: the keymap is a list of keycodes with the one keysym each gives, in the order the keymap is walked; how xkb computes it is not part of this model.
- Bindings.Mode.Bind: parsing a binding command, switch and gesture bindings and freeing memory are left out; the keymap is given with each call, and modes other than the current one are not in the state.
- ConfigReader.ConfigCommand: what the scan for escapes finds behind the end of an argument is a parameter; deferred commands, the bar block's extra state and included files are left out.
- CriteriaText.ParseText: looking up tokens, the patterns in their values and error messages are left out; an empty name is a mistake, as its lookup fails.
- Criteria.MatchesUrgent: the other criteria, which are pattern matches, are left out.
- FitSize.FitSize: numbers are real instead of double and float; when scaling divides by zero, which gives infinities or NaN, the new sizes are not described; it ends before arrange_workspace and arrange_container.
- FitSize.VisibleChildren: negative gaps or sizes are excluded, for which visible children need not be contiguous.
- Gesture.GestureParse: matching and tracking gestures are left out.
- IpcPeer.Connection.RecvResponse: the payload loop is watched for a number of turns, as it need not end; a receive never fails, which would abort, and the magic string is not looked at.
- IpcCommand.JoinLines: a command with a NUL in it is left out.
- ExecuteCommand.ExecuteCommand: what the tokens of criteria select, or that they are wrong, the names of the handlers and what a handler does are parameters.
- IpcReassembly.EverythingIsHandled: sockets deliver bytes in order, and a failing ioctl or recv call is not modelled; numbers are 32 bits in little-endian order.
- IpcServer.IpcClient.Receive: what a command does and replies is left out, so replies come as calls of SendReply; subscriptions are a set of event numbers.
- IpcServer.IpcServer.AnswerTickSubscription: as HandleSendTick.
- IpcServer.IpcServer.HandleSendTick: the source sends the reply even if its client is gone, which is left out.
- IpcServer.IpcServer.SendEvent: the event and its JSON text are parameters.
- List.List.MoveTo: an item that is not in the list leaves it unchanged, as where assertions are compiled out.
- Quotes.UnescapeInPlace: what happens behind the terminator, when the scan steps past it, is left out.
- SessionLock.Server.Notify: seats, scene nodes, drawing and idle inhibition are left out; a surface is unmapped only when it is destroyed, an output is destroyed after it was removed from the list of outputs, and a surface comes for an output without one, as wlroots sees to.
- Variables.DoVarReplacement: variable names are not empty, which the set command ensures.
- WlArray.Array.Realloc: sizes are unbounded, so doubling does not overflow.
- WlArray.Array.SetSize: array_realloc never changes the size; a change of the size together with it is this model's own, for the bound on copying. The one caller, sway/tree/scene/scene.c:2327-2330, empties the array, adds entries and then calls it, which is Refill.
- Characters are Dafny characters, and strings hold no NUL; isspace is that of the C locale.
- Allocation always succeeds throughout.
- JSON, PCRE patterns, rendering, input devices, Lua and the Wayland clients are not part of this model.
- Simple setters and one-branch commands would only add easy members.
