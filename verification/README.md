# Cricket, verified

A Dafny model of the parts of the Cricket MUSH bot that carry whole-run promises, with proofs of those promises.

* **Room scenes** (`SceneBlocks`, `SceneEvents`, `ConsentGate`, `SceneAccount`, `SceneLedger`, `RoomScene`, `RoomRuns`).
  Room lines are merged into pose blocks, trimmed to a byte budget and a block cap, handed to a distiller, and
  consumed by a pose that passes a consent gate. `RoomScene` is the mutable state of one room. Each of its methods is
  one stretch of a handler between two `await`s, and the queue and ledger lists are objects, so a suspended pose or
  distillation keeps the very list it took. What happened is recorded as a sequence of events; three pure accounts of
  that sequence (gate, scene, ledger) say what should be true, and `RoomRuns.Play` proves it for every schedule.
* **Rate limiter** (`TokenBucket`), on real numbers.
* **Wire framing** (`Telnet`, `Lines`, `Connection`, `WsConnection`): the two telnet strippers, the incremental line
  reader, the line encoder, and the WebSocket frame demultiplexer. The stripped commands are those of RFC 854
  ("TELNET COMMAND STRUCTURE") and RFC 855.
* **Supervisor** (`Supervisor`): main loop, socket handler and child processes, interleaved at every lock, poll and wait.
* **Log assembler** (`RplogTurns`, `RplogEncode`, `RplogMarkers`, `RplogAssemble`): grouping labelled lines into turns,
  encoding them, and exactly which maps the validators accept.
* **Pose tags** (`PoseTags`): the renderer and the parser of generations, with a hand-written tag scanner.
* **Lore** (`Kebab`, `Lore`): dossier stems and the budgeted retrieval.
* **Memory store** (`MemoryHistory`, `MemoryStore`): the tables against the history of operations.
* `Text`, `Order`, `Wrappers`: the Python string operations, string order and optional values the rest uses.

## What turned out false, and when it is true

* Trimming line by line can differ from trimming once at the end (`ShrinkingLine`). They agree whenever no line shrinks
  the block it joins, which holds of scenes of stripped, non-empty lines; `InStepExactly` gives the exact condition for
  a whole scene.
* Two poses can go out on one consent (`TwoOnOneConsent` is such a run): two poses pass on the same consent exactly when
  no consent, emission or rp off lies between them (`SharedConsentExactly`). Poses for a mortal target that were not
  already waiting when an earlier one went out never outnumber the consents (`EmissionsCovered`).
* A block can be handed to the distiller twice (`OverlapRun`). What was handed over is what was due, throughout a scene,
  exactly when each pose, as it was emitted, held a list that ended as the room's did (`ExactlyWhen`). A pose always
  does if the room had a queue when it began and until its emission no other was emitted and no scene ended
  (`UndisturbedIsExact`).
* A pose can go out with no consent in hand (`OutWithoutConsent`; `EndedConsentRun` is such a run): rp off takes the
  grant and leaves the waiting pose. The consent a pose passed on still stands exactly when no consent, emission or rp
  off came since, and a grant for its target is in hand exactly when it stands or was given anew (`RestsExactly`).
* The ledger can tell of a block of the scene before: a distillation that was scheduled starts late (`LateRun`), or a
  pose that waited over the rp off hands the block over (`StaleRun`). In every continuation of the next scene the ledger
  keeps to blocks posed in that scene exactly when, at the rp off, no scheduled distillation was still to start and no
  pose awaiting the persona held a block (`IsolationExactly`).
* Chunked reading can go wrong after a cut (`CutsThatFail`). The next read is right, whatever it brings, exactly when the
  reads so far end at a command boundary and the partial line holds no 0xFF (`NextReadIsRight`).
* A new connection finds the partial line that the last one left. Its lines are right, whatever arrives, exactly when
  that is nothing but whole telnet commands (`LeftoverIsHarmless`).
* What `send` writes is read back, however it is cut, exactly when it holds no 0xFF (`ReadBackOnlyPlain`).
* A stop can be answered and leave a live child that nobody signalled (`StopCanMissTheChild`): it reaches every living
  child, whatever happens after its snapshot, exactly when the main loop was not about to spawn then
  (`StopReachesExactly`).
* A restart can be recorded as a crash of the child it signalled (`RestartCanBeLost`): it cannot, whatever happens before
  the next command, exactly when at the command's snapshot a stop or the restart flag is up or the child has exited
  (`RestartRecordedExactly`). From the command itself on, the next exit is no crash exactly when a child is awaited whose
  flags are unread, or what was read of it is no crash, or the main loop is on its way out (`RestartTakesExactly`).
* One consent can cover a nudge that names two characters (`OneAskedOfTwo`): consent for the one that is asked is consent
  for all that are named exactly when none of them has another name, case aside (`ConsentForAll`, and
  `TriggerRp` of the pose that begins).
* The assembler's round-trip check rejects a good log when one turn ends in "%" and the next begins with "r"
  (`GoodLogRejected`); `RoundTripsExactly` says when it passes.
* A generation cut inside its closing tag keeps the cut tag as text (`TruncatedReadBack`).
* A standing rule that was cleared and then learned again stays hidden (`RelearnedRuleStaysHidden`).
* The source's documentation says a cast's order never matters to retrieval. With room for all the pieces it matters
  exactly when two of the names share a stem whose dossier shows (`SpellingShows`); when no two do, it never matters
  (`OrderDoesNotMatter`).

## Model

| member | source | states |
|---|---|---|
| `SceneBlocks.GroupingSeparatesPosers` | cricket/router.py:346-359 | in the grouping of any lines no two neighbouring blocks have the same poser |
| `SceneBlocks.OneBlockExactly` | cricket/router.py:52-59 | two lines make one block exactly when their dbrefs agree or, where one has none, their names do, white space around them and case aside, and are not blank |
| `SceneBlocks.GroupingKeepsInk` | cricket/router.py:349-359 | whatever the lines, merging them into blocks loses, repeats and reorders nothing but white space |
| `SceneBlocks.GroupingKeepsText` | cricket/router.py:349-359 | and of stripped, non-empty lines not even that: the blocks, one under the other, are the lines |
| `SceneBlocks.TailIsLongest` | cricket/router.py:376-388 | what trimming leaves is the longest suffix within budget and cap, or the newest block alone |
| `SceneBlocks.OnlineTrimStep` | cricket/router.py:345-388 | one line added to the trimmed queue gives the trimmed scene, exactly when the newest dropped block, if any, still does not fit |
| `SceneBlocks.InStepExactly` | cricket/router.py:345-388 | over a whole scene of any lines the queue is the trimmed scene after every line, exactly when that held at every line |
| `SceneBlocks.OnlineTrim` | cricket/router.py:345-388 | which holds for every line that leaves the block it joins no shorter |
| `SceneBlocks.OnlineQueueIsSuffix` | cricket/router.py:345-388 | whatever the lines, the queue is a suffix of the untrimmed scene, within the limits, with posers apart |
| `SceneBlocks.OnlineEqualsOffline` | cricket/router.py:345-388 | over a whole scene the queue is the longest suffix of the never-trimmed grouping that fits |
| `SceneBlocks.TidyNeverShrinks` | cricket/router.py:349-354 | scenes of stripped, non-empty lines meet that lemma's condition |
| `SceneBlocks.ShrinkingLine` | cricket/router.py:349-354 | a concrete scene with a white-space line whose queue lacks a block that fits |
| `ConsentGate.GrantSource` | cricket/commands/builtins.py:226-237 | a grant in hand comes from an authorized consent with no pose emitted and no scene ended since |
| `ConsentGate.ConsentNeeded` | cricket/commands/builtins.py:296-319 | a pose with a mortal target reaches the persona only after an authorized consent for that target since the last pose and rp off |
| `ConsentGate.NothingPassesWhilePending` | cricket/commands/builtins.py:303-308 | between an open request and any pose something resolves the request |
| `ConsentGate.DenialStands` | cricket/commands/builtins.py:240-249 | after a denial the target passes only on a later consent |
| `ConsentGate.SharedConsentExactly` | cricket/commands/builtins.py:303-319 | two mortal poses pass on the same consent exactly when no consent, emission or rp off lies between them |
| `ConsentGate.RestsExactly` | cricket/commands/builtins.py:303-394 | while a mortal pose waits and as it goes out, its consent stands exactly when no consent, emission or rp off came since it passed; a grant for its target is in hand exactly when it stands or a later consent for that target does |
| `ConsentGate.OutWithoutConsent` | cricket/commands/builtins.py:120-132 | from any state with a grant a pose for its target passes and, after an rp off, goes out with no grant in hand |
| `ConsentGate.EmissionsCovered` | cricket/commands/builtins.py:393-394 | in every run, mortal poses emitted never outnumber consents, if none of them was already waiting when an earlier one went out |
| `ConsentGate.OverlapFreeIsApart` | cricket/commands/builtins.py:366-394 | runs without overlapping poses are such runs |
| `ConsentGate.ConsentsCoverEmissions` | cricket/commands/builtins.py:393-394 | without any overlap, a grant in hand or a mortal pose on its way is worth one consent more |
| `ConsentGate.OneConsentOneEmission` | cricket/commands/builtins.py:393-394 | between two mortal emissions a new consent for the second's target was given, unless the second pose was already waiting at the first emission |
| `ConsentGate.OverlapReusesConsent` | cricket/commands/builtins.py:366-394 | from any state with a grant, two overlapping poses both go out on it |
| `ConsentGate.TwoOnOneConsent` | cricket/commands/builtins.py:366-394 | a run from the start with one consent and two mortal emissions |
| `SceneAccount.QueueIsOnline` | cricket/router.py:345-388 | in every run of events the live blocks and the queue are the untrimmed and the online grouping of the lines since the last pose |
| `SceneAccount.DueIsExact` | cricket/router.py:355-358 | in every run the blocks due to the distiller are all blocks but the open one, once each, in order, trimmed ones included |
| `SceneAccount.TextKept` | cricket/router.py:345-362 | in every run, across merging, trimming and poses, the blocks read as the accepted lines did, white space aside, and to the letter for stripped lines |
| `SceneAccount.PoseStep` | cricket/commands/builtins.py:374-377 | an emitted pose keeps what was handed over equal to what was due exactly when the list it took ends as the room's does |
| `SceneAccount.ExactlyWhen` | cricket/commands/builtins.py:366-377 | throughout a scene the two are equal exactly when every pose emitted in it met that condition |
| `SceneAccount.UndisturbedIsExact` | cricket/commands/builtins.py:366-390 | it is met when for each pose emitted in the scene, from its start in a room with a queue to its emission, no other is emitted and no scene ends |
| `SceneLedger.LedgerSource` | cricket/router.py:399-413 | each entry of the current ledger comes from a distillation that started and finished after the last rp off |
| `SceneLedger.LateEntryDropped` | cricket/router.py:399-413 | in every run, a distillation that started before an rp off and finishes after it leaves the ledger of its moment unchanged |
| `SceneLedger.OneEntryEach` | cricket/router.py:399-413 | entries written plus distillations running never exceed distillations started |
| `SceneLedger.IsolationExactly` | cricket/commands/builtins.py:320-377 | after an rp off, in every continuation of the next scene the ledger holds only entries about blocks posed in that scene, exactly when no scheduled distillation was still to start and no pose awaiting the persona held a block |
| `SceneLedger.CleanIsIsolated` | cricket/router.py:397-413 | so it is in every run whose last rp off, if any, found neither |
| `RoomScenes.BlockList.Trim` | cricket/router.py:376-388 | the loop with its running total, then the cap, leaves the longest fitting suffix |
| `RoomScenes.CapSkips` | cricket/router.py:386-388 | under the byte budget, cutting to sixty blocks is that suffix |
| `RoomScenes.BlockList.Add` | cricket/router.py:349-362 | merge or append, then trim |
| `RoomScenes.SceneLog.Accounts` | cricket/router.py:322-420 | the views kept beside the events are the accounts of those events, and each event was allowed |
| `RoomScenes.RoomScene.constructor` | cricket/commands/builtins.py:85-91 | a room nobody has switched on: no queue, no ledger, no request |
| `RoomScenes.RpBudget` | cricket/router.py:365-374 | the byte budget is always positive |
| `RoomScenes.RoomScene.HandleRoom` | cricket/router.py:322-362 | a line is accepted exactly in the bot's room, from an actor in it, with rp on and off engine chatter; one with the dbref of the newest block, or its name where a dbref is missing, goes under that block's text; any other hands the block over and follows it |
| `RoomScenes.RoomScene.Enqueue` | cricket/router.py:345-362 | queue and events after one accepted line |
| `RoomScenes.RoomScene.CloseBlock` | cricket/router.py:355-358 | exactly the block that a change of poser completes is handed over |
| `RoomScenes.RoomScene.HandToDistiller` | cricket/router.py:390-397 | the block is scheduled when the persona can distill |
| `RoomScenes.RoomScene.SetDefaultQueue` | cricket/commands/builtins.py:91 | an existing list object is kept |
| `RoomScenes.RoomScene.CaptureSuggestion` | cricket/router.py:431-450 | a nudge that names the bot in a live scene is kept, the last five in all |
| `RoomScenes.RoomScene.MortalIntent` | cricket/commands/builtins.py:28-49 | the first claimed character in alphabetical order that a lethal nudge names, or none if there is none |
| `RoomScenes.BlobLines` | cricket/commands/builtins.py:39-42 | the text that is judged splits at its line ends into the nudges, in order, and the seed |
| `RoomScenes.RoomScene.ConsentForAll` | cricket/commands/builtins.py:309-319 | consent for one of the named characters covers all of them exactly when they have one name, case aside |
| `RoomScenes.RoomScene.TriggerRp` | cricket/commands/builtins.py:296-320 | blocked while a request is open; the nudges and the seed, one to a line, are what is judged: when that text is lethal and any of them names an owner, no pose begins without a grant for an owner it names; the grant covers all that are named exactly when they have one name, case aside |
| `RoomScenes.RoomScene.BeginPose` | cricket/commands/builtins.py:320-366 | the pose takes the room's list object and its gate target across the await |
| `RoomScenes.RoomScene.TakeList` | cricket/commands/builtins.py:320 | the room's list object, or an empty one of its own |
| `RoomScenes.RoomScene.Hold` | cricket/commands/builtins.py:352-366 | the other waiting poses keep what they took |
| `RoomScenes.RoomScene.ResumePose` | cricket/commands/builtins.py:366-394 | a silent pose changes nothing; a spoken one hands over the newest block of the list it took and clears queue, nudges and grant; hand-overs stay what was due exactly when that block is the room's newest |
| `RoomScenes.RoomScene.EmitPose` | cricket/commands/builtins.py:371-394 | the spoken branch |
| `RoomScenes.RoomScene.Consume` | cricket/commands/builtins.py:374-394 | the state after a spoken pose, with a fresh queue object |
| `RoomScenes.RoomScene.ReplaceQueue` | cricket/commands/builtins.py:390 | the room's list is a new object; holders of the old one keep it |
| `RoomScenes.RoomScene.ConsentOk` | cricket/commands/builtins.py:226-237 | an authorized answer in the room moves the request to the grant; anything else changes nothing |
| `RoomScenes.RoomScene.ConsentDeny` | cricket/commands/builtins.py:240-249 | an authorized answer drops the request; anything else changes nothing |
| `RoomScenes.RoomScene.SetRpOn` | cricket/commands/builtins.py:85-101 | rp is on, and a queue that was there is kept |
| `RoomScenes.RoomScene.SetRpOff` | cricket/commands/builtins.py:91-133 | it waits for the summarizer exactly when there are blocks, a store and no ledger entry |
| `RoomScenes.RoomScene.FinishRpOff` | cricket/commands/builtins.py:115-132 | after the summarizer the scene is cleared |
| `RoomScenes.RoomScene.ClearScene` | cricket/commands/builtins.py:120-132 | fresh queue, no ledger object, no owners, nudges, request or grant |
| `RoomScenes.RoomScene.SetDefaultLedger` | cricket/router.py:400 | the ledger object exists and its entries are unchanged |
| `RoomScenes.RoomScene.StartDistill` | cricket/router.py:397-405 | the oldest scheduled block starts and takes the ledger object of that moment |
| `RoomScenes.RoomScene.FinishDistill` | cricket/router.py:405-420 | the entry goes to the ledger it took, which is the room's only if it still is |
| `RoomRuns.Take` | cricket/commands/builtins.py:296-394 | every handler step keeps every invariant of the room |
| `RoomRuns.KeepsPromises` | cricket/router.py:322-420 | the invariants give the promises |
| `RoomRuns.Play` | cricket/router.py:322-420 | over every schedule: legal consent events, online trim equals offline trim, exactly-once distillation with its exact condition, text kept, ledger isolated under its exact condition |
| `RoomRuns.OverlapHandsOverTwice` | cricket/commands/builtins.py:374-377 | two overlapping poses hand the same block over twice |
| `RoomRuns.OverlapRun` | cricket/commands/builtins.py:366-394 | a run from a fresh bot in which they do |
| `RoomRuns.LateRun` | cricket/router.py:397-413 | a run from a fresh bot whose ledger tells of a block of the scene before |
| `RoomRuns.StaleRun` | cricket/commands/builtins.py:320-377 | another: a pose that waits over the rp off goes out after it, with nothing scheduled at the rp off |
| `RoomRuns.PoseLeaks` | cricket/commands/builtins.py:374-377 | from any state in which a pose holds a block, it goes out and the block's entry is the room's |
| `RoomRuns.EndedConsentRun` | cricket/commands/builtins.py:120-132 | a run from a fresh bot in which a pose passes on a consent, rp off takes the grant, and the pose goes out |
| `RoomRuns.OneAskedOfTwo` | cricket/commands/builtins.py:28-49 | a run from a fresh bot in which a pose that names two characters begins with consent for one |
| `RoomRuns.LateStartLeaks` | cricket/router.py:397-400 | from any state with a distillation still to start, rp off without a wait lets it write in the next scene's ledger |
| `TokenBuckets.TokenBucket.constructor` | cricket/mush/actions.py:20-25 | a full bucket with no history |
| `TokenBuckets.TokenBucket.Allow` | cricket/mush/actions.py:27-38 | the answer is yes exactly when the refilled bucket holds a token, and tokens and clock are those of the history |
| `TokenBuckets.GreedyIsOptimal` | cricket/mush/actions.py:27-38 | for any request times no other choice the same refill could serve admits more |
| `TokenBuckets.LevelBounds` | cricket/mush/actions.py:31-36 | tokens stay between 0 and the capacity |
| `TokenBuckets.WindowBound` | cricket/mush/actions.py:27-38 | over any consecutive requests at most capacity + elapsed * capacity / per_seconds are admitted |
| `TokenBuckets.SpacedIsAdmitted` | cricket/mush/actions.py:31-38 | a request that comes per_seconds / capacity or more after the one before it is admitted |
| `TokenBuckets.FullAfterSilence` | cricket/mush/actions.py:31-36 | after per_seconds without a request the bucket is full |
| `TokenBuckets.LifetimeBound` | cricket/mush/actions.py:31-38 | a bucket that never refills admits at most its capacity ever |
| `Lines.SplitLines` | cricket/mush/connection.py:179 | replacing CR-LF and splitting gives what a character-by-character line reader gives |
| `Lines.ReadOn` | cricket/mush/connection.py:171-182 | reading a stream in two parts is reading it whole |
| `Lines.Reread` | cricket/mush/connection.py:171-182 | so does reading the kept partial line again with the next part, CR and LF split across parts included |
| `Lines.SentIsRead` | cricket/mush/connection.py:112-114 | lines written with CR-LF are read back |
| `Telnet.StripTelnet` | cricket/mush/connection.py:24-54 | the index loop computes the token-by-token stripping |
| `Telnet.StripCommand` | cricket/mush/connection.py:41-53 | one command's branch of it |
| `Telnet.FindSubEnd` | cricket/mush/connection.py:46-49 | where a subnegotiation ends, or past the data |
| `Telnet.StripAppend` | cricket/mush/connection.py:24-54 | stripping distributes over a cut at a command boundary |
| `Telnet.CutIsSafe` | cricket/mush/connection.py:24-54 | and only there, whatever follows |
| `Telnet.RestripIsSafe` | cricket/mush/connection.py:171-182 | stripping kept text again is harmless exactly when it holds no 0xFF |
| `Telnet.StripClean` | cricket/mush/connection.py:42-44 | without escapes the stripped text holds no 0xFF |
| `Telnet.StripReadsItems` | cricket/mush/connection.py:24-54 | from data, escapes, option commands, two-byte commands and subnegotiations it keeps exactly the data and the escaped bytes |
| `Telnet.WholeIsItems` | cricket/mush/connection.py:24-54 | every stream that ends at a command boundary is such a sequence |
| `Telnet.WireNumbers` | cricket/mush/connection.py:34-53 | the same by byte numbers: 255 255 is the byte 255; 255 with a number below 250, 255 with 251 to 254 and an option, and 255 250 up to 255 240 are removed; any other byte stays |
| `Telnet.StripIac` | tools/mush_admin.py:34-58 | for every byte string the second stripper gives the first one's output without 0xFF |
| `Telnet.SkipIac` | tools/mush_admin.py:41-55 | one command's branch of it, unterminated subnegotiations included |
| `Connections.Connection.DispatchLines` | cricket/mush/connection.py:174-182 | lines delivered and remainder are those of the stripped buffer |
| `Connections.Connection.ReadOne` | cricket/mush/connection.py:171-172 | one chunk against the buffered partial line |
| `Connections.Connection.ReadLoop` | cricket/mush/connection.py:165-172 | reads up to the first empty chunk or a close that came during a read, whose chunk still counts, from the partial line it starts with |
| `Connections.ChunkingIndependent` | cricket/mush/connection.py:165-182 | with safe cuts, chunked reading equals reading the whole stream |
| `Connections.WholeChunksAreSafe` | cricket/mush/connection.py:165-182 | cuts at command boundaries in a stream without escapes are safe |
| `Connections.NextReadIsRight` | cricket/mush/connection.py:171-182 | the next read is right, whatever it brings, exactly when the reads so far end at a command boundary and leave no 0xFF in the partial line |
| `Connections.SafeCutsExactly` | cricket/mush/connection.py:165-182 | over a whole stream the safe cuts are those after which any read would have been right |
| `Connections.CutsThatFail` | cricket/mush/connection.py:171-182 | a stream for each half of that condition after which a read goes wrong |
| `Connections.LeftoverIsHarmless` | cricket/mush/connection.py:133-172 | a new connection delivers, whatever arrives, the lines it would have without the partial line it finds, exactly when that is complete telnet commands alone |
| `Connections.Connection.Send` | cricket/mush/connection.py:99-116 | while connected, and then only, the text is queued as one line: each line end a blank, white space at the ends gone, "?" for what is above 0xFF, CR-LF after it |
| `Connections.Connection.SendAll` | cricket/mush/connection.py:99-116 | a run of sends queues the wire form of the texts, in order |
| `Connections.JoinIsFlatten` | cricket/mush/connection.py:112 | splitting at line ends and joining with spaces turns each line end into one space |
| `Connections.WirePrinted` | cricket/mush/connection.py:112-114 | the same of the bytes, place by place |
| `Connections.WireIsOneLine` | cricket/mush/connection.py:104-114 | a send never holds a second line |
| `Connections.SendReadBack` | cricket/mush/connection.py:99-182 | what sends queued, cut anywhere, is read back as exactly their lines |
| `Connections.ReadBackOnlyPlain` | cricket/mush/connection.py:99-182 | exactly when no line holds 0xFF |
| `Connections.SentIsShownExactly` | cricket/mush/connection.py:99-182 | what sends queued, cut anywhere, is read back as their texts, flattened and stripped, one line each, exactly when these hold only code points below 0xFF |
| `WsConnections.WsConnection.constructor` | cricket/mush/ws_connection.py:46-62 | an empty text buffer |
| `WsConnections.WsConnection.OnFrame` | cricket/mush/ws_connection.py:104-124 | lines delivered are the complete lines of the joined text bodies; objects are delivered in order |
| `WsConnections.WsConnection.TakeText` | cricket/mush/ws_connection.py:118-123 | one text body against the buffer |
| `WsConnections.OtherChannels` | cricket/mush/ws_connection.py:111-124 | frames of other channels, wherever they come, change no line and no object |
| `WsConnections.OwnChannel` | cricket/mush/ws_connection.py:111-124 | a frame marked t adds its body to the text, one marked j the object in it |
| `Supervisors.Supervisor.constructor` | cricket/supervisor.py:31-39 | the start of every run |
| `Supervisors.Supervisor.Spawn` | cricket/supervisor.py:42-46 | the spawn step under the lock |
| `Supervisors.Supervisor.ReadFlags` | cricket/supervisor.py:128-129 | the flags are read under the lock |
| `Supervisors.Supervisor.Act` | cricket/supervisor.py:130-147 | stop, restart, clean exit or crash, with the backoff, as the machine does it (`Supervisors.ExitRecorded` says which) |
| `Supervisors.Supervisor.Turn` | cricket/supervisor.py:120-149 | each stretch of the main loop is a main step |
| `Supervisors.Supervisor.Command` | cricket/supervisor.py:70-80 | restart and stop set their flag and begin to terminate |
| `Supervisors.Supervisor.Terminate` | cricket/supervisor.py:48-67 | each stretch of the termination (snapshot, poll, terminate, grace) is a handler step on the child it snapshotted |
| `Supervisors.Supervisor.ChildExits` | cricket/supervisor.py:127 | a process exits |
| `Supervisors.Supervisor.Next` | cricket/supervisor.py:42-149 | whatever happens next is a step of the machine and keeps its facts |
| `Supervisors.Drive` | cricket/supervisor.py:42-149 | over every schedule the supervisor object is the machine's state and keeps its facts |
| `Supervisors.Safety` | cricket/supervisor.py:42-149 | in every interleaving: at most one child alive, spawns are restarts + 1 while a child is awaited, a command signals at most one child, delays are min(2^k, 30) |
| `Supervisors.ChildrenStep` | cricket/supervisor.py:42-46 | every step keeps the facts about children, spawns and restarts |
| `Supervisors.SignalsStep` | cricket/supervisor.py:48-67 | every step keeps the facts about signals |
| `Supervisors.BackoffStep` | cricket/supervisor.py:124-147 | every step keeps the facts about delays |
| `Supervisors.CrashDoubles` | cricket/supervisor.py:146-147 | a crash waits the delay of its predecessors and doubles it up to thirty |
| `Supervisors.RestartResets` | cricket/supervisor.py:132-136 | a restart puts the delay back to one |
| `Supervisors.DelaysDouble` | cricket/supervisor.py:124-147 | in every run the delay is one after a start or a restart, then doubles from crash to crash, thirty at most |
| `Supervisors.ExitRecorded` | cricket/supervisor.py:130-147 | an exit is recorded as a restart when one was asked for or the code is 42, as a crash otherwise, and not at all on a stop or a clean exit |
| `Supervisors.WindsDown` | cricket/supervisor.py:130-149 | after a stop, or a clean exit with no restart asked for, whatever happens: nothing is spawned or recorded and the main loop is done in three turns |
| `Supervisors.LastExitExactly` | cricket/supervisor.py:125-149 | no continuation spawns again exactly when a stop was read, or is up, or the child exited cleanly with no restart asked for |
| `Supervisors.SurvivorWasKilled` | cricket/supervisor.py:53-67 | in every run a child that outlives a command that signalled it was signalled twice: terminate, then kill |
| `Supervisors.MainSignalsNobody` | cricket/supervisor.py:148 | the last termination of the main loop finds its child gone |
| `Supervisors.StopAllowsOneMoreSpawn` | cricket/supervisor.py:125-131 | after a stop at most one more child is spawned, and one can be exactly when the loop test had passed |
| `Supervisors.StopTakes` | cricket/supervisor.py:76-80 | a stop command raises the flag and begins to terminate; nothing is spawned after it but the child that is about to be |
| `Supervisors.StopReachesExactly` | cricket/supervisor.py:48-80 | a stop, once served and whatever happened since its snapshot, has signalled every living child, exactly when the main loop was not about to spawn at the snapshot |
| `Supervisors.StopCanMissTheChild` | cricket/supervisor.py:76-80 | a run from the start in which a served stop leaves a live child unsignalled |
| `Supervisors.RestartRecordedExactly` | cricket/supervisor.py:42-55 | the exit of the child a command signals is not recorded as a crash, whatever happens before the next command, exactly when at its snapshot a stop or the restart flag is up or the child has exited |
| `Supervisors.RestartTakesExactly` | cricket/supervisor.py:71-75 | a restart command raises the flag and begins to terminate; no continuation records the next exit as a crash exactly when a child is awaited and its flags are unread, what was read is no crash, or the main loop is on its way out |
| `Supervisors.RestartCanBeLost` | cricket/supervisor.py:71-75 | a run from the start in which a restarted child's exit is recorded as a crash |
| `RplogTurns.LabelLines` | tools/rplog_assemble.py:52-62 | no error exactly when the labels off noise lines are on content lines, one each |
| `RplogTurns.LabelRow` | tools/rplog_assemble.py:54-62 | one label |
| `RplogTurns.NoiseBetween` | tools/rplog_assemble.py:78-79 | the scan finds a noise line exactly when there is one |
| `RplogTurns.BodyNeighbours` | tools/rplog_assemble.py:78-79 | between consecutive content lines it finds one exactly when their numbers are not adjacent |
| `RplogTurns.GroupTurns` | tools/rplog_assemble.py:69-87 | the loop with its cursor computes the turns |
| `RplogTurns.AddLine` | tools/rplog_assemble.py:71-87 | one content line: a gap, a new turn, or one more line of the last turn |
| `RplogTurns.TurnsPartition` | tools/rplog_assemble.py:69-87 | the turns partition the labelled lines, in source order |
| `RplogTurns.TurnOfLine` | tools/rplog_assemble.py:80-86 | a line sits in the turn numbered by the breaks before it, with that type and actor |
| `RplogTurns.ShareTurnExactly` | tools/rplog_assemble.py:77-86 | consecutive lines share a turn exactly when type and actor agree, numbers are adjacent and the second has no begin flag |
| `RplogAssemble.TurnsShareExactly` | tools/rplog_assemble.py:69-87 | so do consecutive labelled content lines of any page and map |
| `RplogEncode.EncodeBlock` | tools/rplog_to_jsonl.py:67-84 | the loops compute the encoding |
| `RplogEncode.AddLine` | tools/rplog_to_jsonl.py:74-83 | one physical line's pieces |
| `RplogEncode.EncodeDistributes` | tools/rplog_to_jsonl.py:67-84 | encoding a block is encoding its parts at any cut and joining what is not empty |
| `RplogEncode.EncodedLine` | tools/rplog_to_jsonl.py:74-84 | a line of stripped segments is %t, if it is indented, and its segments joined by %r |
| `RplogEncode.EncodedMarked` | tools/rplog_to_jsonl.py:67-84 | text without percent signs is encoded with none outside markers |
| `RplogMarkers.RoundTripExact` | tools/rplog_assemble.py:106-117 | texts joined by %r and texts put end to end normalize alike exactly when no text ends with a percent sign that the next completes |
| `RplogMarkers.RoundTripOfKept` | tools/rplog_assemble.py:106-117 | the same when some texts are missing from the rows: their normal form must be empty |
| `RplogMarkers.NormOfPlain` | tools/rplog_assemble.py:106-107 | a text without percent signs is compared by all but its white space |
| `RplogMarkers.MarkersGoInTurn` | tools/rplog_assemble.py:106-107 | markers go one kind after the other, one pass each: a %t that the second pass makes stays |
| `RplogMarkers.CatLosesText` | tools/rplog_assemble.py:108-111 | putting texts end to end never lengthens the normal form |
| `RplogMarkers.PercentBreaksCheck` | tools/rplog_assemble.py:106-117 | two texts that do not round-trip |
| `RplogAssemble.GoodLogRejected` | tools/rplog_assemble.py:104-117 | pages with right maps that `Assemble` rejects |
| `RplogAssemble.Number` | tools/rplog_assemble.py:99-102 | a row's own number wins over its position |
| `RplogAssemble.MetasFirstExactly` | tools/rplog_assemble.py:89-119 | the meta rows of a numbered page bring numbers that are their new positions exactly when the page has them all first |
| `RplogAssemble.ParsePage` | tools/rplog_to_jsonl.py:199-245 | meta rows, then a pose row for each block with text, numbered by position |
| `RplogAssemble.MetasOf` | tools/rplog_assemble.py:89 | the meta rows bring the numbers of their positions |
| `RplogAssemble.AddBodyRows` | tools/rplog_assemble.py:90-98 | one row for each turn with text that is not dropped |
| `RplogAssemble.RowOfTurn` | tools/rplog_assemble.py:90-98 | a turn has one row, with no actor for a blank name; none when it is blank, a separator or without text |
| `RplogAssemble.MakeRows` | tools/rplog_assemble.py:89-102 | the rows are in order and numbered by position, and carry the kept texts |
| `RplogAssemble.RoundTripFails` | tools/rplog_assemble.py:106-117 | the comparison of source and rows |
| `RplogAssemble.Assemble` | tools/rplog_assemble.py:47-120 | the numbering check never fails; there are no errors exactly when each content line has one label and the text round-trips |
| `RplogAssemble.EncodeIsByTurn` | tools/rplog_assemble.py:106-111 | encoding all lines at once gives the turns' texts joined by %r |
| `RplogAssemble.RoundTripsExactly` | tools/rplog_assemble.py:104-117 | for every full labelling the round trip passes exactly when no dropped or meta turn had text and no percent sign is completed between turns |
| `RplogAssemble.PlainPageRoundTrips` | tools/rplog_assemble.py:104-117 | without percent signs it passes exactly when no dropped or meta turn had text |
| `PoseTags.FindForeign` | tools/pose_xml.py:71-77 | the loop over the tags finds the first one of another character |
| `PoseTags.ParseGeneration` | tools/pose_xml.py:60-92 | text and verdict of any generation |
| `PoseTags.OpenRendered` | tools/pose_xml.py:21 | the scanner reads back the name of a rendered tag |
| `PoseTags.OpenAnySpacing` | tools/pose_xml.py:21 | any white space is good after the word pose and before the bracket of an opening tag; with none after pose it is no tag |
| `PoseTags.SkipRow` | tools/pose_xml.py:35-45 | the scan passes over a rendered row or stops at it, by its character |
| `PoseTags.ScanScene` | tools/pose_xml.py:48-50 | in a rendered scene it finds a tag exactly when some row is another character's pose |
| `PoseTags.OwnPoseReadBack` | tools/pose_xml.py:35-92 | a rendered pose before any rendered scene is read back stripped, with verdict puppet exactly when the scene has another character's pose |
| `PoseTags.TruncatedReadBack` | tools/pose_xml.py:79-92 | a pose cut in its text gives the text so far; cut in its closing tag, the text and the cut tag |
| `PoseTags.BareText` | tools/pose_xml.py:79-92 | a generation without a tag is recovered as it is, stripped, or found empty |
| `PoseTags.StrayClosing` | tools/pose_xml.py:83 | one with a stray closing tag loses the tag and keeps the text on both sides |
| `PoseTags.FragmentDropped` | tools/pose_xml.py:83 | a fragment of a pose tag is dropped up to its bracket, whatever is in it |
| `PoseTags.RowTags` | tools/pose_xml.py:35-45 | the tag of a row: pose with the stripped actor, ooc, or narration for anything else and for a pose without actor |
| `Kebabs.MakeKebab` | cricket/lore/loader.py:74-89 | the loops compute the words joined by single hyphens |
| `Kebabs.Collapse` | cricket/lore/loader.py:87-88 | the collapse loop ends, keeps the words and leaves no double hyphen |
| `Kebabs.KebabFixesStems` | cricket/lore/loader.py:74-89 | a name is its own stem exactly when it is lower-case words joined by single hyphens, and kebab is idempotent |
| `Kebabs.KebabIsStem` | cricket/lore/loader.py:74-89 | every result is such a text |
| `Kebabs.KebabOfWords` | cricket/lore/loader.py:74-89 | words with any runs of blanks, hyphens, underscores or dots between them give their letters and digits joined by single hyphens |
| `Lore.Choose` | cricket/lore/loader.py:246-252 | the first spelling of each known stem |
| `Lore.Fit` | cricket/lore/loader.py:263-271 | a piece is added if the join then stays within the budget; otherwise the loop ends with a join that, stripped, is the longer join cut at the budget |
| `Lore.Retrieve` | cricket/lore/loader.py:237-272 | the loop gives the join of all pieces, cut at the budget and stripped |
| `Lore.OneShown` | cricket/lore/loader.py:246-272 | one name with a dossier gives its text under the name, cut at the budget; one without, or with nothing to show, gives nothing |
| `Lore.TwoShown` | cricket/lore/loader.py:253-272 | two dossiers that fit are shown each under its name, an empty line between, by stem, whichever name was given first |
| `Lore.LaterSpelling` | cricket/lore/loader.py:246-252 | a name whose stem is empty, unknown or already there changes nothing |
| `Lore.StopIsCut` | cricket/lore/loader.py:266-270 | once the pieces so far overflow, the pieces to come do not change what the cut leaves |
| `Lore.OrderDoesNotMatter` | cricket/lore/loader.py:240-247 | order and repetition of the cast change nothing while no two names share a stem whose dossier shows |
| `Lore.SpellingShows` | cricket/lore/loader.py:240-272 | for any cast with room for its pieces, the block is the same for every order and repetition of the names exactly when no two of them share a stem whose dossier shows |
| `Order.Sorted` | cricket/lore/loader.py:254 | ascending, and the same elements |
| `Order.LeqExactly` | cricket/lore/loader.py:254 | strings are ordered by their first different code point, a prefix first |
| `MemoryHistory.RowStep` | cricket/memory/store.py:149-158 | what one operation does to a row: overwriting keeps the mask, a new row has none |
| `MemoryHistory.HitsExactly` | cricket/memory/store.py:252-287 | deleting and masking change what is recalled for the given scope, owner and, if any, key alone; clearing the rules hides every directive and nothing else |
| `MemoryHistory.HiddenUntilUnmasked` | cricket/memory/store.py:160-167 | a masked row stays hidden through any operations that neither delete nor unmask it |
| `MemoryHistory.RelearnedRuleStaysHidden` | cricket/memory/store.py:172-197 | a cleared rule saved again is not recalled |
| `MemoryHistory.EventsSnoc` | cricket/memory/store.py:121-147 | the events table is the history's unpurged events with their latest verdicts |
| `MemoryHistory.SeenNext` | cricket/memory/store.py:121-147 | what one operation does to the events a location shows: logged last, gone when purged, hidden or shown again by id, and others as before |
| `MemoryHistory.PurgedStaysGone` | cricket/memory/store.py:284-289 | after a purge a location shows only what was logged there since |
| `MemoryHistory.PurgedSceneForgotten` | cricket/memory/store.py:291-296 | a purged scene is neither recalled nor shown, and every other row and location is as before |
| `MemoryStores.MemoryStore.constructor` | cricket/memory/store.py:72-79 | empty tables |
| `MemoryStores.MemoryStore.Remember` | cricket/memory/store.py:149-158 | the tables agree with the longer history |
| `MemoryStores.MemoryStore.Recall` | cricket/memory/store.py:160-167 | the latest value since the key was created, unless its latest verdict is masked |
| `MemoryStores.MemoryStore.MaskMemory` | cricket/memory/store.py:252-266 | the rows hit take the verdict, and are counted |
| `MemoryStores.MemoryStore.DeleteMemory` | cricket/memory/store.py:276-287 | the rows hit go, and are counted |
| `MemoryStores.MemoryStore.ClearAllDirectives` | cricket/memory/store.py:193-197 | every directive is masked; those that were not are counted |
| `MemoryStores.MemoryStore.LogEvent` | cricket/memory/store.py:121-135 | ids grow and are never used again |
| `MemoryStores.MemoryStore.MaskOneEvent` | cricket/memory/store.py:244-250 | the event of that id changes, and one is counted exactly when there is one |
| `MemoryStores.MemoryStore.PurgeLocation` | cricket/memory/store.py:285-289 | a location's events go, and are counted |
| `MemoryStores.MemoryStore.PurgeScene` | cricket/memory/store.py:291-296 | nothing of the room's scene is recalled or shown after it; other rows and locations are as before |
| `MemoryStores.MemoryStore.RecentEvents` | cricket/memory/store.py:137-147 | the last n unmasked events of the location, oldest first |

## Left out

- RoomScenes.RoomScene: one room's entries of the bot's dictionaries; other rooms have entries of their own, which these handlers do not touch.
- RoomScenes.RoomScene.SetRpOn: does not model the prior scene's summary that is recalled, because it only reaches the prompt.
- RoomScenes.RoomScene.SetRpOff: does not model the cast and the summary that are stored.
- RoomScenes.RoomScene.FinishRpOff: does not model the summary that is stored.
- RoomScenes.RoomScene.ClearScene: does not model the recalled summary that goes too.
- RoomScenes.RoomScene.BeginPose: does not model the prompt's memory lines; the persona is an arbitrary answer or silence.
- RoomScenes.RoomScene.ResumePose: does not model the OOC feedback distilled into a standing rule after a pose; only the store's side of that is here.
- RoomScenes.RoomScene.EmitPose: does not model that feedback either.
- RoomScenes.RoomScene.Consume: does not model that feedback either.
- RoomScenes.RoomScene.CaptureSuggestion: keeps a nudge's text, not its sender or whether the sender is a favourite.
- RoomScenes.RoomScene.FinishDistill: the claimed names go to the room's current owners even when the entry belongs to an earlier scene, as in the source; nothing is promised about them.
- A block that is still open at rp off is never handed to the distiller, as in the source.
- The daemon's own `set_rp` and the `clearqueue` command, which change rp or the queue without ending a scene.
- `_ROOM_SYSTEM`, `_MORTAL_RE`, `is_noise`, the wiki clean-up and `json.loads` are arbitrary functions of a line.
- `str.lower` is the ASCII one, except in stems, where it is any function that leaves its own results alone.
- TokenBuckets.TokenBucket.Allow: floats are real numbers, so rounding is not modelled.
- Actions: the per-location table of buckets and the commands built from text.
- Bytes are strings of code points up to 0xFF. Sockets, TLS, the writer task, keepalive and login are not modelled.
- Connections.Connection: the reconnect loop with its backoff; the buffer is not cleared on reconnect, as in the source, so `ReadLoop` starts from whatever partial line is there (`LeftoverIsHarmless`).
- WsConnections.WsConnection: its `send` is the telnet one with a channel character.
- Telnet.StripTelnet: an escaped IAC inside a subnegotiation that is followed by 0xF0 ends it, which RFC 855 would not; the model follows the code.
- Supervisors.Supervisor: a signal to a process that has exited is no signal; the status command, the socket's requests, and the interrupt from the keyboard are not modelled.
- RplogAssemble.ParsePage: the meta texts and the blocks are given; the header, the template and the split at blank lines are not modelled.
- RplogAssemble.Assemble: the body's start line (`body_line_span`) and the meta texts of a page (`split_header`, `extract_template`) are given; the model holds for any.
- Lore.SpellingShows: says nothing of casts whose pieces overflow the budget, where the cut may hide the names; `Lore.OrderDoesNotMatter` holds of them too.
- Lore.Retrieve: `_facet` is any function of the dossier text; the sort by stem is the ascending order of the stems chosen.
- Lore: the gazetteer of mentioned names and the seeding of actors.
- MemoryStores.MemoryStore: timestamps, the actors table, listings and digests; SQL statements are map and sequence updates.
- PoseTags: name normalization and the clean-up of leaked HTML are arbitrary, the latter the identity on text without both brackets.
- Prompting, output clean-up and embedding search of the language-model persona; the HTTP panel and the control console.
