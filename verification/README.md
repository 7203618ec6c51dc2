# Verified model of the wpa_supplicant control pipeline

The repository lets Elixir code talk to `wpa_supplicant`. A GenServer keeps a
queue of pending requests, writes each command as a length-prefixed frame to the
C program `wpa_ex`, and that program sends it over a datagram socket on which
the supplicant also sends unsolicited events. Replies and events come back as
frames on one pipe, without any request id: a reply is given to the oldest
pending request. This project models that pipeline and its text codecs in Dafny
4.11 and proves when the right caller gets the right answer.

`dafny verify dfyconfig.toml` checks everything. A byte is a `char` and a byte
stream a `string`; text is ASCII.

## Layers

- `Framing`: the two-byte length framing as a pure parser.
- `ControlSocket`: datagrams, the event test, and the cut of the queue at a reply.
- `PortProgram`, `PortTheorems`: `wpa_ex` as a machine over values whose steps
  lie between two system calls, with its invariant and theorems over all runs,
  for arbitrary bytes on standard input and arbitrary datagrams.
- `PortCalls`: whole C calls as functions of that machine; each is a run of it.
  `PortTurns`: what rounds of the main loop do, from what the world delivers alone.
- `WpaCtrl`, `WpaEx`: the C code over its fixed arrays and loops, with every
  method tied to the machine (`ghost var port`).
- `OsString`, `SendRetry`, `TraceAlloc`: `os_strlcpy` and its two uses, the
  send loop with its clock arithmetic, and the tracing allocator.
- `Strings`, `Encoder`, `Decoder` and their theorems (`TextTheorems`,
  `EncoderTheorems`, `DecoderTheorems`, `ReplyTheorems`): the text codecs.
  `CodecTexts` says in literal texts what every form is written as and read as,
  and `KnownTexts` holds the repository's own test examples.
- `EventPattern`: the binary pattern of an event, from the text that is sent.
- `GenServer`, `Pipeline`, `PipelineInvariant`, `PipelineTheorems`: the server
  callbacks, and the combined system of callers, server, pipes, port program
  and supplicant, with theorems over every run. `PipelineStrays`: the runs in
  which an event goes astray. `PipelineProgress`: no deadlock.
- `Sequences`: regrouping of concatenations.

## Assumed of the world

- The supplicant answers each command once and in order. Its replies do not
  begin with `<` and its events do. That an event goes on with one character and
  `>` is not assumed: the theorems say what depends on it.
- The pipes and the socket keep order and lose nothing.
- A payload handed to the port has at most 65535 bytes. One over 2046 is
  modelled: it ends the port program.
- How many sends and waits of a request succeed, and when a system call fails
  elsewhere, is up to the environment.
- `read` delivers at most the bytes asked for; `os_sleep(1, 0)` lets at least one
  second go by, and clock reads succeed.
- In the method contracts over arrays, the socket queue stands for everything
  that arrives before the call returns, so an empty queue is a select timeout.
- Atoms are at most 255 characters long, a limit of the Erlang VM.

## Findings

- An event that fills the 2048-byte buffer loses its last byte when it arrives
  during a request and keeps it otherwise (`PortTheorems.FullBufferEvent`).
- An abstract socket name is cut silently, while a path of the same kind is
  refused (`OsString.CopyPath`).
- A `0x` value that is not hexadecimal loses its `0x` (`DecoderTheorems.UnchangedValues`).
- An event that is not of the form `<c>` is an event to the C side and a
  response to the server. Every reply is made from the answer to its caller's own
  command exactly when no such event has been handled
  (`PipelineTheorems.RepliesAreRouted`). From every quiet state such an event can
  go to the oldest caller or end the server (`PipelineStrays.StrayIsMisrouted`):
  PING can be answered with `<WPS` although it was never sent
  (`PipelineStrays.PingIsAnsweredByStray`).
- FAIL ends the server when it answers ADD_NETWORK or a request for key/value
  lines (`ReplyTheorems.FailEndsServer`); `ReplyTheorems.ServerEnds` names all
  messages that do.
- A quoted string comes back without all of its trailing quotes
  (`DecoderTheorems.ArgRoundTripExact`).
- A quote in a string does no harm on the wire unless a space follows it; a
  reader recovers a request exactly when that holds of its strings, its atoms are
  plain or quoted texts themselves, its command does not begin with CTRL-RSP-, and
  the id of an answer has no dash (`EncoderTheorems.ReadExact`). Among all requests
  whose atoms the reader can read, the text of a single string is ambiguous exactly
  when, behind some quote and space in it, the rest with the closing quote is the
  text of one or two arguments (`EncoderTheorems.StringAmbiguous`). The string
  `a" b` is the shortest kind: it reads like the string `a` and the atom `b"`.
- A first clock reading with zero seconds is taken for no reading, which costs
  one more send (`SendRetry.BoundsAreTight`).
- A prompt field or a key longer than 246 or 255 characters ends the server,
  because it cannot become an atom (`DecoderTheorems.PromptRoundTrip`,
  `DecoderTheorems.KeyValueSpec`).

## Model

| member | source | states |
|---|---|---|
| PipelineTheorems.RepliesAreRouted | lib/wpa_supplicant.ex:163-193 | in every reachable state: all replies were made from the answers to their callers' own commands if and only if every event handled has the form the server recognises |
| PipelineTheorems.CallsAreConserved | lib/wpa_supplicant.ex:163-193 | in every reachable state, whatever the supplicant sends: accepted = answered + pending, in order, and the i-th reply went to the i-th caller as the decoding, for its own command, of the i-th response |
| PipelineTheorems.CallIsAccepted | lib/wpa_supplicant.ex:163-169 | a running server takes every call: it joins the queue, and its text goes into the pipe behind its two-byte length |
| PipelineTheorems.ExitStopsServer | lib/wpa_supplicant.ex:177-179 | a server told of the exit of the port stops for good, and answers and publishes nothing any more |
| PipelineTheorems.ExitIsNoticed | lib/wpa_supplicant.ex:177-179 | a running server can be told as soon as the port has exited |
| PipelineTheorems.ResponsesAreReplies | src/wpa_ex.c:69-75 | the responses relayed are the replies taken since attach, each cut to the buffer, if and only if every event taken is recognised; each other event adds one response |
| PipelineTheorems.RequestsAreInFlight | lib/wpa_supplicant.ex:163-169 | the request queue is, in order, the commands sent but not yet answered for and those still in `erl_buffer` or stdin; commands sent and unrecognised events add up to replies given, responses in the pipe and the request in flight |
| PipelineTheorems.QuiescentAllAnswered | src/wpa_ex.c:160-188 | back in poll with both pipes empty, every accepted call has been answered with its own answer, and no unrecognised event was ever taken |
| PipelineTheorems.NeverWithoutRequest | lib/wpa_supplicant.ex:186-193 | the match on the head of the request list never meets an empty list while every event taken is recognised |
| PipelineProgress.EveryCallCanBeAnswered | lib/wpa_supplicant.ex:163-193 | no deadlock: from every reachable state in which both programs run, payloads fit, and the events and answers so far can be decoded, the run can go on without new calls until every pending call has its own answer |
| PipelineProgress.SomeStepHelps | src/wpa_ex.c:98-188 | while anything is left to do in such a state, some step of the port, the server or the supplicant keeps it so and brings it closer to rest |
| PipelineProgress.DeliverRuns | lib/wpa_supplicant.ex:181-193 | in such a state the server handles the next message and goes on |
| PipelineTheorems.RepliesAreFresh | src/wpa_ctrl/wpa_ctrl.c:450-482 | at most one command is unanswered; outside a request the socket holds events only; inside one, the only reply it can hold answers that request |
| PipelineTheorems.EventsArePublished | lib/wpa_supplicant.ex:181-185 | the published events are the decodings of the recognised events taken since attach, in order and without a gap, all of them once the pipe is empty; every datagram is one of these, an unrecognised event or a reply |
| PipelineTheorems.FramesAreClassified | src/wpa_ctrl/wpa_ctrl.c:462-476 | on every frame written, cut ones included, the Elixir pattern sees an event where the C test saw one exactly when that event is recognised |
| PipelineTheorems.TooLongPayload | src/wpa_ex.c:86-87 | the over-long exit is taken only at a payload over 2046 bytes, after every payload in front of it was sent |
| PipelineTheorems.RunGrows | lib/wpa_supplicant.ex:186-193 | delivered replies and events are never withdrawn or changed: each call is answered at most once |
| PipelineTheorems.StepInv | lib/wpa_supplicant.ex:163-193 | every step of callers, server, port or supplicant keeps the system invariant |
| PipelineTheorems.RespondInv | lib/wpa_supplicant.ex:186-193 | answering the oldest request with the first message keeps the invariant |
| PipelineInvariant.PortConveyed | src/wpa_ex.c:77-133 | a step of the port program keeps the commands in order and loses none: sent, buffered, then in the pipe |
| PipelineInvariant.ResponsesDue | src/wpa_ex.c:69-75 | while the events handled are recognised, the responses handled are the answers after the one to ATTACH, each cut to the buffer |
| PipelineInvariant.ResponsesCount | src/wpa_ex.c:69-75 | after attach there is one response for every finished request and one for every unrecognised event |
| PipelineInvariant.QuietSocket | src/wpa_ex.c:135-144 | while no request is outstanding the socket holds events only, so a drain never takes a reply |
| PipelineInvariant.ResponseHasRequest | lib/wpa_supplicant.ex:186-188 | a response in the pipe has its request in the queue while every event relayed is recognised |
| GenServer.ClassifiersAgree | lib/wpa_supplicant.ex:181-186 | the two classifiers agree on a datagram, however cut above three bytes, exactly when an event has the form `<c>` |
| GenServer.PatternSurvivesCut | lib/wpa_supplicant.ex:181 | both tests, the UTF-8 character included, give the same on a datagram and on any cut of it to six bytes or more |
| EventPattern.EventExact | lib/wpa_supplicant.ex:181 | a message is an event exactly when it is `<`, the UTF-8 bytes of one character, `>` and a text |
| EventPattern.EventRecognised | lib/wpa_supplicant.ex:181-182 | what is decoded of an event is the text behind the `>` |
| EventPattern.EventIsPublished | lib/wpa_supplicant.ex:181-185 | for every character and text the server publishes the decoding of the text and keeps its requests |
| EventPattern.ResponseIsGiven | lib/wpa_supplicant.ex:186-193 | any other message is decoded for the oldest request and given to its caller; without one the server ends |
| PipelineStrays.StrayIsMisrouted | lib/wpa_supplicant.ex:186-193 | from every reachable state that is quiet, any unrecognised event has a run in which it answers the oldest caller, or ends the server, with nothing sent meanwhile |
| PipelineStrays.StrayAnswersCaller | lib/wpa_supplicant.ex:186-193 | for any caller, request and unrecognised event there is a run from the start in which that event is the reply, or ends the server, though only ATTACH was ever sent |
| PipelineStrays.PingIsAnsweredByStray | lib/wpa_supplicant.ex:186-193 | one such run: a PING that was never sent is answered with `<WPS` |
| PortTheorems.ChunkIndependence | src/wpa_ex.c:98-133 | for every stream, every split by `read` and every interleaving: at rest the commands sent are exactly the parser's frames, the buffer is the unparsed suffix, holds no complete frame and has room to read |
| PortTheorems.SameStreamSameCommands | src/wpa_ex.c:98-133 | two runs that read the same stream sent the same commands and hold the same remainder |
| PortTheorems.CommandsAreParsedFrames | src/wpa_ex.c:77-96 | parsing everything read gives the commands sent and then what the unserved bytes hold |
| PortTheorems.OutputIsWhatWasTaken | src/wpa_ex.c:69-75 | the socket queue is FIFO and loses nothing; the frames on stdout are one for one and in order the datagrams taken after attach, each cut to its path's limit; attach drops only events |
| PortTheorems.FullBufferEvent | src/wpa_ctrl/wpa_ctrl.c:468-473 | callback and drain path forward the same bytes exactly when the event does not fill the buffer |
| PortTheorems.NeverReceivesFromEmptyQueue | src/wpa_ex.c:135-144 | process_wpa never calls recv on an empty queue, even when process_erl drained it in the same round |
| PortTheorems.ExitIsTerminal | src/wpa_ex.c:69-75 | after an exit nothing is read, sent, taken or written |
| PortProgram.InvStep | src/wpa_ex.c:146-190 | every step keeps the invariant on input, output, handshake and receive |
| PortProgram.SendInput | src/wpa_ex.c:77-96 | dispatching a complete frame moves exactly that frame from the buffer to the commands sent |
| PortProgram.AttachHandshake | src/wpa_ctrl/wpa_ctrl.c:488-501 | attach drops events and succeeds only on the reply OK |
| PortCalls.AwaitIsSplit | src/wpa_ctrl/wpa_ctrl.c:450-483 | the receive loop refines the cut of the queue at the first datagram not beginning with `<`; it times out when there is none, and stops where a select or receive fails |
| PortCalls.RequestEffect | src/wpa_ex.c:69-75 | one request as a whole, answered, timed out, failed in a wait or unsent: the events out in order, then the reply, what is left of the queue and of the buffer |
| PortCalls.AttachIsSplit | src/wpa_ctrl/wpa_ctrl.c:488-507 | the handshake drops the events in front of the reply, writes nothing, and succeeds exactly when the reply is reached and is OK |
| PortCalls.RoundIsRun | src/wpa_ex.c:160-188 | one poll round of the program is a run of the machine, so every theorem over runs holds of it |
| PortCalls.StartIsRun | src/wpa_ex.c:146-158 | the start of the program, a failed ATTACH included, is a run from the initial state |
| PortCalls.ProgramIsRun | src/wpa_ex.c:146-190 | start, arrivals and any rounds of the loop are together one run from the initial state |
| PortCalls.DrainOutcome | src/wpa_ex.c:135-144 | the drain empties the queue, or ends the program exactly when it needs more receives than succeed |
| PortTurns.TurnEffect | src/wpa_ex.c:160-188 | one round: every byte delivered is read, every arrival has arrived, nothing is left behind a socket flag, end of file and a read error exit, and a round without flags changes nothing |
| PortTurns.TurnExact | src/wpa_ex.c:160-188 | one round, exactly, on plain values: buffer, socket, commands sent and bytes written where it goes on, and when it ends |
| PortTurns.ServeIsFrames | src/wpa_ex.c:98-133 | the machine serves its buffer frame by frame: each command is sent, its events and its reply are written, and the rest is served after it |
| PortTurns.DrainExact | src/wpa_ex.c:135-144 | the drain writes one frame for each datagram, in order |
| PortTurns.ServeRest | src/wpa_ex.c:77-96 | serving stops at a length over 2046 bytes, and waits for more where no complete frame is at hand |
| PortTurns.TurnsEffect | src/wpa_ex.c:160-188 | the rounds are played one by one until an exit |
| PortTurns.ProgramEffect | src/wpa_ex.c:146-190 | start and rounds together: bytes read, commands sent, datagrams taken and bytes written, from what was delivered and what arrived alone |
| ControlSocket.SplitSpec | src/wpa_ctrl/wpa_ctrl.c:450-483 | the split is the queue itself: events, a reply that is none, the rest |
| ControlSocket.SplitIsUnique | src/wpa_ctrl/wpa_ctrl.c:450-483 | there is only one such cut |
| ControlSocket.CutExact | src/wpa_ctrl/wpa_ctrl.c:459 | a receive leaves as much of the datagram as fits, from its start |
| ControlSocket.EventBegins | src/wpa_ctrl/wpa_ctrl.c:462 | the event test is that the datagram begins with `<` |
| WpaEx.Program.Start | src/wpa_ex.c:146-158 | main up to its loop goes on exactly when ATTACH is sent and answered with OK, and is where the machine is |
| WpaEx.Program.TryDispatch | src/wpa_ex.c:77-96 | serves the first complete frame over the array, or reports none, or exits, as the machine does; output, socket and commands sent agree with it even on exit |
| WpaEx.Program.DoWpaRequest | src/wpa_ex.c:69-75 | the request over the arrays has the effect of the machine's request, what was forwarded before a failure included |
| WpaEx.Program.DispatchLoop | src/wpa_ex.c:118-132 | the loop with its memmove terminates and ends where the machine ends, on exit too |
| WpaEx.Program.Compact | src/wpa_ex.c:123-126 | the unserved bytes end up at the front of the buffer, unchanged |
| WpaEx.Program.Fill | src/wpa_ex.c:101-117 | a read lands behind the bytes held, inside the buffer |
| WpaEx.Program.ProcessErl | src/wpa_ex.c:98-133 | over the arrays: exactly the bytes read are taken in, end of file and a read error exit for that reason, and the state is the one the machine reaches with all it has written |
| WpaEx.Program.ProcessWpa | src/wpa_ex.c:135-144 | drains the queue completely and forwards as the machine does, unless a receive fails; none is made on an empty queue |
| WpaEx.Program.PollRound | src/wpa_ex.c:160-188 | one round of main's loop, on exit too; a flagged socket is empty afterwards |
| WpaEx.Program.Round | src/wpa_ex.c:160-188 | one round as the world plays it: as many of the bytes there are as 2048 hold are read, the arrivals have arrived, and the state is exactly what serving frame by frame and draining come to |
| WpaEx.Program.Loop | src/wpa_ex.c:160-188 | the loop plays every round until the program exits: all bytes delivered are read and all arrivals have arrived |
| WpaEx.Program.Execute | src/wpa_ex.c:146-190 | the whole program over any rounds: the commands sent are the frames of all bytes delivered, what it has written are the frames of what it took, what it took and what is left are all that arrived; on exit the same up to the round that exits |
| WpaCtrl.Ctrl.AwaitReply | src/wpa_ctrl/wpa_ctrl.c:450-483 | exactly the events before the reply, or before the wait that fails, go to the callback in order; the reply is cut to the buffer, later datagrams stay, nothing is written outside the reply buffer |
| WpaCtrl.Ctrl.Request | src/wpa_ctrl/wpa_ctrl.c:389-484 | the outcomes of a request, failed sends and failed waits included, and what each has sent, received and called back |
| WpaCtrl.Ctrl.Notify | src/wpa_ctrl/wpa_ctrl.c:467-473 | the NUL is written in bounds, at the cost of the last byte of a full buffer |
| WpaCtrl.Ctrl.AttachHelper | src/wpa_ctrl/wpa_ctrl.c:488-501 | succeeds exactly when the command is sent and the first non-event datagram is reached and is OK with a newline; what was sent and what is left on the socket, failures included |
| WpaCtrl.Ctrl.Recv | src/wpa_ctrl/wpa_ctrl.c:518-527 | takes the head of the queue, cut to the length |
| WpaCtrl.Pipe.Send | src/wpa_ex.c:45-67 | appends one frame whose length is narrowed to 16 bits |
| Framing.FramesRoundTrip | lib/wpa_supplicant.ex:153-161 | parsing the concatenation of frames gives the messages and an empty remainder |
| Framing.ParseAppend | src/wpa_ex.c:77-133 | appending bytes never changes the frames already found |
| Framing.ParseFrameAll | src/wpa_ex.c:77-96 | frames in front of any stream are parsed first and leave the rest |
| Framing.FrameOfFirst | src/wpa_ex.c:83-93 | a complete first frame, framed again, is the front of the stream |
| Framing.HeaderExact | src/wpa_ex.c:45-54 | the narrowed length is exact precisely below 65536 |
| Framing.FrameExact | src/wpa_ex.c:45-54 | a frame is the two bytes of the length, the high one first, and the message |
| Framing.FirstFrameExact | src/wpa_ex.c:77-93 | a message is found exactly when its whole frame is at the front and fits, and a length is too long exactly when it does not fit |
| PortTheorems.RelayedFramable | src/wpa_ex.c:45-54 | every message passed to send_to_erl fits its length field |
| EncoderTheorems.ReadExact | lib/encode.ex:17-60 | for every request: a reader that knows nothing of it recovers command and rendered arguments if and only if it is readable |
| EncoderTheorems.StringReadable | lib/encode.ex:48-57 | a string argument is readable exactly when no quote in it is followed by a space |
| EncoderTheorems.AtomReadable | lib/encode.ex:58-60 | an atom is readable exactly when it has no space and no quote in front, or is a quoted text in which no quote is followed by a space |
| EncoderTheorems.TokensExact | lib/encode.ex:38-46 | texts joined by spaces are read back one by one exactly when each of them is a token |
| EncoderTheorems.EncodeInjective | lib/encode.ex:17-60 | equal wire text implies equal command and equal rendered arguments, for all readable requests |
| EncoderTheorems.MacIsWhole | lib/encode.ex:48-57 | on 17 characters the unanchored MAC search matches only the whole string |
| EncoderTheorems.MacExact | lib/encode.ex:48-57 | a string is written as it is exactly when it has 17 characters, colons at indexes 2, 5, 8, 11 and 14 and 0-9, a-f or A-F elsewhere; any other goes between quotes |
| CodecTexts.RequestText | lib/encode.ex:17-60 | the text of every request, word by word, with the six answers to prompts by name |
| KnownTexts.Answers | test/wpa_encode_test.exs:4-11 | the six examples of answers to prompts |
| KnownTexts.MacCommands | test/wpa_encode_test.exs:25-31 | the examples with MAC addresses |
| KnownTexts.Settings | test/wpa_encode_test.exs:19-20 | the examples with a number and a string |
| KnownTexts.Networks | test/wpa_encode_test.exs:41-46 | the examples with network ids |
| EncoderTheorems.StringArgInjective | lib/encode.ex:48-57 | a string argument is determined by its rendering, for all strings |
| EncoderTheorems.AnswerExact | lib/encode.ex:20-37 | a CTRL-RSP line splits back into field, id and text exactly when the id has no dash, whatever the text holds |
| EncoderTheorems.ReadAnswer | lib/encode.ex:20-37 | a natural id is read back as the number it was |
| EncoderTheorems.StringAmbiguous | lib/encode.ex:38-60 | a request with one string has the wire text of another request, strings being anything and atoms any text the reader can read, exactly when behind some quote and space the string goes on with the texts of one or two arguments; a readable string never does |
| EncoderTheorems.QuoteCollides | lib/encode.ex:38-57 | any two quoted strings have the wire text of the one string that holds both |
| EncoderTheorems.QuotesCollide | lib/encode.ex:38-57 | and so have two strings around any third argument |
| EncoderTheorems.ResponseAtomCollides | lib/encode.ex:17-37 | every answer to a prompt has the wire text of the bare atom that spells it |
| EncoderTheorems.DashCollides | lib/encode.ex:20-37 | a dash in any id may as well belong to the text |
| EncoderTheorems.SpacedAtomCollides | lib/encode.ex:38-60 | any atom with a space has the wire text of two atoms |
| EncoderTheorems.AtomTextExact | lib/encode.ex:58-60 | two atoms print alike exactly when they are equal or both print as nothing |
| DecoderTheorems.RenderRoundTrip | lib/decode.ex:77-84 | a printed block of entries decodes to the last-wins map of the decoded values, for every list of well-formed entries |
| DecoderTheorems.KeyValueSpec | lib/decode.ex:59-84 | for any text, decoding succeeds exactly when each nonempty line has one `=` behind a key of at most 255 characters, and then is the last-wins map |
| DecoderTheorems.LastWinsSpec | lib/decode.ex:80-83 | every key maps to the value of its last pair, and there are no other keys |
| DecoderTheorems.EmptyBlock | lib/decode.ex:68-69 | an empty response is an empty map, and no BSS for a BSS request |
| DecoderTheorems.DecimalValue | lib/decode.ex:90-98 | every integer is decoded from its decimal text |
| DecoderTheorems.HexValue | lib/decode.ex:89-98 | every natural number is decoded from its 0x text, any leading zeros, any mixture of cases |
| DecoderTheorems.UnchangedValues | lib/decode.ex:86-98 | a value is returned unchanged exactly when it is not TRUE, FALSE, empty, numeric or 0x-prefixed; a non-hexadecimal 0x value loses its prefix |
| DecoderTheorems.ArgRoundTrip | lib/decode.ex:59-75 | a response that repeats a string argument decodes to it without trailing quotes, MAC-shaped ones included |
| DecoderTheorems.ArgRoundTripExact | lib/decode.ex:74-75 | the argument comes back whole exactly when it does not end in a quote |
| DecoderTheorems.PromptExact | lib/decode.ex:19-22 | any text behind CTRL-REQ- decodes exactly when it is a printed prompt with an integer id and a field short enough for an atom, and then to its parts |
| DecoderTheorems.PromptRoundTrip | lib/decode.ex:19-22 | a printed prompt decodes to its field, id and text, dashes in the text included |
| DecoderTheorems.BssRoundTrip | lib/decode.ex:23-30 | the two BSS events decode to their id and address |
| DecoderTheorems.SignalRoundTrip | lib/decode.ex:37-42 | a named event is signalled under its name without trailing whitespace |
| ReplyTheorems.RespExact | lib/decode.ex:59-84 | for every request and response: decoding fails only on bad key/value lines and on an ADD_NETWORK response that is no integer |
| CodecTexts.WordExact | lib/decode.ex:64-73 | OK, FAIL and PONG are read as these exactly for the requests without a form of their own, PONG for PING only |
| CodecTexts.FormExact | lib/decode.ex:65-71 | the requests with a form of their own, by name, and the values they have |
| CodecTexts.TextExact | lib/decode.ex:74-75 | every other response is its stripped text, without the quotes around it |
| CodecTexts.OnePair | lib/decode.ex:65-69 | each of the four requests for pairs reads a line of key and number as that pair |
| CodecTexts.LineExact | lib/decode.ex:81-82 | a line is read as its key and the value without trailing blanks, or crashes on a key over 255 characters |
| CodecTexts.ValueExact | lib/decode.ex:86-98 | TRUE, FALSE, the empty value, hexadecimal, decimal and any other value |
| TextTheorems.StripSpec | lib/decode.ex:61 | stripping takes away the spaces, tabs and line ends at both ends and nothing else |
| TextTheorems.RStripSpec | lib/decode.ex:82 | stripping the end does so there |
| TextTheorems.NonEmptySpec | lib/decode.ex:79 | a split with trimming drops the empty pieces and no others |
| TextTheorems.IntegerExact | lib/decode.ex:94 | read as an integer are digits, with or without a sign, and nothing else, with their decimal value |
| TextTheorems.IntTextExact | lib/encode.ex:58-60 | an integer is written as its digits without leading zeros, with a minus if negative |
| TextTheorems.DigitExact | lib/decode.ex:94 | the values of the digits in base 10 and 16 |
| KnownTexts.Words | test/wpa_decode_test.exs:193-194 | the examples of PONG, OK and FAIL |
| KnownTexts.Forms | test/wpa_decode_test.exs:189-192 | the examples of a network id and of no BSS |
| KnownTexts.Prompts | test/wpa_decode_test.exs:199-204 | the six examples of prompts |
| KnownTexts.Addresses | test/wpa_decode_test.exs:218-219 | the examples of BSS events |
| KnownTexts.Stations | test/wpa_decode_test.exs:253-254 | the examples of station events |
| KnownTexts.Signals | test/wpa_decode_test.exs:208-209 | the examples of connection events |
| KnownTexts.Scan | test/wpa_decode_test.exs:217-220 | examples of events signalled by name |
| ReplyTheorems.NotifExact | lib/decode.ex:19-51 | for every event text: decoding fails only on a bad prompt, a bad BSS line and a name too long for an atom |
| ReplyTheorems.ServerEnds | lib/wpa_supplicant.ex:181-193 | a message ends the server exactly when it is an event that does not decode, or a response without a request or not decodable for the oldest one |
| ReplyTheorems.FailEndsServer | lib/decode.ex:64-75 | FAIL crashes the decoding of ADD_NETWORK and of every key/value request, and of no other |
| ReplyTheorems.InterfacesExact | lib/decode.ex:70 | for any response: it decodes to a list of names exactly when their lines make up the stripped text |
| ReplyTheorems.InterfacesRoundTrip | lib/decode.ex:70 | every printed list of interface names decodes to that list |
| ReplyTheorems.NetworkIdRoundTrip | lib/decode.ex:71 | a printed network id decodes to that id |
| ReplyTheorems.ConnectionSignal | lib/decode.ex:31-36 | whatever follows a connection event is dropped |
| ReplyTheorems.StationRoundTrip | lib/decode.ex:43-48 | the two station events decode to their address |
| ReplyTheorems.InfoExact | lib/decode.ex:49-51 | a line is passed on as plain information exactly when it begins with none of the special words |
| SendRetry.SendWithRetry | src/wpa_ctrl/wpa_ctrl.c:421-447 | at most 8 sends, 7 when the first clock reading has seconds; stops exactly at the first send that is not busy, or is busy strictly more than 5 seconds after the kept reading |
| SendRetry.BoundsAreTight | src/wpa_ctrl/wpa_ctrl.c:432-442 | both bounds are reached |
| SendRetry.OsReltimeSub | src/wpa_ctrl/os.h:77-86 | exact microsecond subtraction with a normalised result, for either order |
| SendRetry.OsReltimeExpired | src/wpa_ctrl/os.h:99-108 | strictly more than the timeout has passed |
| SendRetry.BeforeIsEarlier | src/wpa_ctrl/os.h:69-74 | the order of normalised times is the order of instants |
| OsString.OsStrlcpy | src/wpa_ctrl/os_unix.c:418-440 | returns the length of the source, writes what fits and a NUL, nothing else, for every size |
| OsString.CopyIsWhole | src/wpa_ctrl/os_unix.c:418-440 | the copy is the whole string exactly when the returned length is below the size |
| OsString.CopiedExact | src/wpa_ctrl/os_unix.c:418-440 | the copy is the longest front of the string that leaves room for the NUL, and nothing for size zero |
| OsString.OverwriteExact | src/wpa_ctrl/os_unix.c:418-440 | bytes outside the range copied to stay |
| OsString.CopyPath | src/wpa_ctrl/wpa_ctrl.c:168-181 | a path is refused exactly when it does not fit; an abstract name is cut |
| OsString.PrefixCookie | src/wpa_ctrl/wpa_ctrl.c:401-414 | the buffer is exactly cookie, space, command |
| TraceAlloc.Heap.OsMalloc | src/wpa_ctrl/os_unix.c:445-456 | a fresh live block is on the list |
| TraceAlloc.Heap.OsFree | src/wpa_ctrl/os_unix.c:488-507 | unlinks exactly that block, or aborts on one that is not live |
| TraceAlloc.Heap.OsRealloc | src/wpa_ctrl/os_unix.c:459-485 | keeps the common prefix and replaces the block |
| TraceAlloc.Heap.OsProgramDeinit | src/wpa_ctrl/os_unix.c:330-351 | the reported total is what was allocated and not freed, over any run of valid calls |
| TraceAlloc.TotalWithout | src/wpa_ctrl/os_unix.c:502-506 | unlinking a block takes away its length and nothing else |
| TraceAlloc.WithoutIsCut | src/wpa_ctrl/os_unix.c:502-506 | unlinking cuts out one block and keeps the others in their order |

## Left out

- Socket, bind, connect, fcntl, select and poll are queue operations and outcomes
  chosen by the environment; partial writes and interrupted calls are a system fault.
- A payload over 65535 bytes, which the pipe driver of the Erlang VM refuses before `wpa_ex` sees it.
- `scan` and `set_network`: they depend on the event stream library and on the
  supplicant's own network table; `all_bss` would add only an easy accumulator.
- `event_manager`, logging and GenEvent delivery beyond publishing in order.
- Requests of a shape `encode` has no clause for, and arguments that are neither
  strings, atoms nor integers.
- Named-pipe, Android and remote-host branches of the control library.
- SendRetry.OsReltimeSub: seconds are unbounded, because 64-bit seconds do not wrap in practice.
- WpaCtrl.Ctrl.Request: allocation failure of the cookie buffer is not modelled,
  because the build in use has no cookie.
- TraceAlloc.Heap.OsProgramDeinit: the list is a sequence; the `dl_list` macros,
  stack traces and reference checks are not part of this model.
- PortProgram.InvStep: a system call that fails ends the program at any point,
  without the error number.
- Text other than ASCII: `String.length` and stripping work on Unicode there.
