# Proofs about wpa_ctrl's event loop and text codecs, a message-queue file server and a semaphore buffer

Dafny models of the parts of the repository with the most state and branching, each proved against what
the code is for. `dafny verify dfyconfig.toml` checks everything.

- **The event loop** (`eloop.c`, `list.h`, `os.h`). `LoopState.dfy` describes on values what the loop holds
  and what each entry point does to it. `TimerOrder`, `TimerProgress`, `TimerRearm`,
  `SocketTables`, `SocketDispatch` and `PassHistory` prove what that means for single calls, for passes and over whole runs. `DlList`, `TimerList` and `Eloop` are the code's own form, a
  class with fields and a ring of linked nodes updated in place; every method is proved to do to its state
  what `LoopState` says, so the run lemmas hold of it. `Signals` is the interleaving of the signal
  handler with the pending-signal scan, `PollIndex` the poll variant's lookup map.
- **The text codecs and array helpers** (`common.c`): `PrintfCodec`, `ConfigString`, `Utf8Escape`, `Tokens`,
  `FreqRange`, `IntArray`, `ByteCounter`, over buffers of caller-supplied size. `Bytes` and `Options` have what they share.
- **The message-queue file server** (`FileServer`): any number of clients and children interleaved, and the two
  programs' loops proved to make the protocol's moves.
- **Producers and consumers** (`ProducerConsumer`): any buffer size, any number of processes, any interleaving.

## How the outside world is modelled

- A callback is a script: the list of loop entry points it calls. Every statement is for all scripts, so
  callbacks may register, cancel, deplete, replenish, unregister and terminate at will. They do not run the
  loop themselves.
- A clock reading is the previous one plus an arbitrary number of microseconds, so the clock never goes back.
- A run of the loop is cut off after a given number of passes; each pass gets from outside what select
  reports, the clock readings and the scripts. An interrupted select is one that reports nothing.
- Which signal callbacks run in a pass is arbitrary in the model of the loop, and proved in `Signals`. There a
  schedule delivers any signals between any two accesses to shared memory; the handler itself is not interrupted.
- The file server's reads return any number of bytes they may, or fail, and so may its sends. Queues have limited
  room and a send waits while its queue is full. What is said about progress assumes room for one request in the
  server's queue and for one full message in a client's; what is said about safety assumes nothing.
- Numbers are unbounded except where the code's width shows: bytes, the values atoi stores, and the size of the
  buffer that holds a printed frequency list. Memory allocation succeeds.
- Fields called registered, cancelled, fired, called, ran, edits, log, sent, got, trouble, short, made, created and taken
  are histories the statements speak about; the code does not have them.

## What the proofs found

- `eloop_deplete_timeout` and `eloop_replenish_timeout` compare the request field by field, so microseconds
  of a million or more can be taken for a shorter time than they are: a depletion can put a timer off
  (`TimerRearm.DepleteCanLengthen`). `TimerRearm.RearmMovesEarliest` has the exact condition.
- Both find their timer by exact match but cancel with wildcards. For a timer whose own context is the wildcard
  value that takes other timers away (`TimerRearm.RearmCanTakeOthers`). `TimerRearm.RearmSparesOthers` has the exact
  condition.
- The check for changed tables before dispatching protects all three walks from signal and timer callbacks, but not the
  later walks from the callbacks of the earlier ones: a socket that a reader callback has replaced can be called on
  its predecessor's readiness (`SocketDispatch.StaleWriterCall`). `SocketDispatch.FreshPassCallsOnlyReported` has the exact
  condition.
- `eloop_register_signal` copies the table before it moves the pointer. A signal that comes in between is counted in the
  abandoned table; if it was not counted before, its handler is not called (`Signals.LostWhileRegistering`).
  `Signals.SignalTable.RegisterSignal` has the exact condition.
- The poll variant clears `revents` of entry `i`, not of the entry it adds (lines 475 and 501 of `eloop.c`), so an entry
  in use can keep what its memory held before (`PollIndex.StaleEntrySurvives`). `PollIndex.AllClearedIff` has the exact
  condition.
- `ssid_parse` cuts the P form at its first space, although a space is a character that `printf_encode` leaves as it
  is (`ConfigString.SsidEncodedInvertsIff`).
- The buffer of `freq_range_list_str` is sized in 32 bits. Up to 143165576 ranges every list fits; for every larger number
  there is a list that does not (`FreqRange.RoomRunsOut`), although others of the same number may
  (`FreqRange.RoomSuffices`).
- A text in single quotes needs one byte more of room than the same text without (`Utf8Escape.UnescapeInvertsQuoted`).

## Model

| member | source | states |
|---|---|---|
| TimerOrder.FiringOrder | 01-general-knowledge/wpa_ctrl/src/eloop.c:1180-1192 | over any program (calls, then runs of the loop, again and again) and whatever callbacks do: deadlines of fired timers never decrease, equal deadlines fire in registration order, none fires before its deadline |
| TimerOrder.ExactlyOneFate | 01-general-knowledge/wpa_ctrl/src/eloop.c:813-868 | at any point of any run every registered timer occurs exactly once among the fired, the cancelled and the pending ones, and an unregistered one in none |
| TimerOrder.ExecuteInv | 01-general-knowledge/wpa_ctrl/src/eloop.c:1056-1194 | every reachable state has the fired timers followed by the pending ones strictly ordered by deadline and registration, normalised deadlines, no early firing, conserved timers, and shared counters that agree with the tables |
| TimerOrder.InsertKeepsOrder | 01-general-knowledge/wpa_ctrl/src/eloop.c:800-808 | a new timer takes a place behind every fired timer and every pending one due no later, so that fired and pending timers stay one strictly ordered line |
| TimerOrder.InsertAdds | 01-general-knowledge/wpa_ctrl/src/eloop.c:800-808 | an insertion adds exactly the new timer to the multiset of timers |
| TimerOrder.RegisterInv | 01-general-knowledge/wpa_ctrl/src/eloop.c:762-810 | a registration keeps the invariant of the loop |
| TimerOrder.CancelInv | 01-general-knowledge/wpa_ctrl/src/eloop.c:822-841 | a wildcard cancel keeps the invariant: what leaves the queue is in the cancelled timers, the rest stays ordered |
| TimerOrder.RearmInv | 01-general-knowledge/wpa_ctrl/src/eloop.c:887-948 | deplete and replenish keep the invariant, with any clock advance between their two clock readings |
| TimerOrder.RunPassInv | 01-general-knowledge/wpa_ctrl/src/eloop.c:1083-1225 | one pass of the loop keeps the invariant, with arbitrary callbacks at every place where the pass runs one |
| TimerOrder.SelectSplits | 01-general-knowledge/wpa_ctrl/src/eloop.c:829-838 | the timers that match a callback and those that do not are together exactly the queue |
| TimerProgress.DueTimerFires | 01-general-knowledge/wpa_ctrl/src/eloop.c:1083-1194 | a due timer at position k of the queue has fired or been cancelled after k + 1 passes, or the loop has exited |
| TimerProgress.DueTimerSurelyFires | 01-general-knowledge/wpa_ctrl/src/eloop.c:1083-1194 | without a failed select or a request to terminate that bound is unconditional: after k + 1 passes the timer has fired or been cancelled |
| TimerProgress.QuietPassStops | 01-general-knowledge/wpa_ctrl/src/eloop.c:1083-1099 | a loop that nobody asks to terminate, and whose select does not fail, stops if and only if nothing is registered any more |
| TimerProgress.PassBringsNearer | 01-general-knowledge/wpa_ctrl/src/eloop.c:1083-1194 | one completed pass brings a due timer at least one position nearer to the head, whatever the callbacks register, cancel or re-arm |
| TimerProgress.InsertBehindDue | 01-general-knowledge/wpa_ctrl/src/eloop.c:800-808 | a registration never pushes back a timer that is already due |
| TimerProgress.SelectPullsForward | 01-general-knowledge/wpa_ctrl/src/eloop.c:829-838 | cancelling never pushes back a timer that stays |
| TimerProgress.TimedOutSelectFires | 01-general-knowledge/wpa_ctrl/src/eloop.c:1101-1120 | select may block until the first deadline and no longer; when it times out the pass fires that timer unless a callback cancels it, and exactly that timer if no signal callback runs in the pass |
| TimerRearm.CancelLeavesTheRest | 01-general-knowledge/wpa_ctrl/src/eloop.c:822-841 | the queue after a wildcard cancel is the one ordered sequence of the timers that do not match, and the number returned is how many are gone |
| TimerRearm.RegisterAddsOne | 01-general-knowledge/wpa_ctrl/src/eloop.c:762-810 | the queue after a registration is the one ordered sequence of the old timers and the new one, which is due the requested time from now |
| TimerRearm.OrderedIsUnique | 01-general-knowledge/wpa_ctrl/src/eloop.c:800-808 | an ordered queue is determined by the set of its timers |
| TimerRearm.RearmMovesEarliest | 01-general-knowledge/wpa_ctrl/src/eloop.c:887-948 | with the clock fixed during the call, deplete makes the earliest matching deadline min(old, now + request) and replenish max(old, now + request), overdue timers included, if and only if the request is not misjudged: its microseconds hide whole seconds that make it longer than the time left while its seconds field is smaller |
| TimerRearm.NormalRequestJudged | 01-general-knowledge/wpa_ctrl/src/eloop.c:887-948 | a normalised request is never misjudged, and the return value 1 says exactly that the deadline moved |
| TimerRearm.DepleteCanLengthen | 01-general-knowledge/wpa_ctrl/src/eloop.c:887-913 | an input on which deplete puts a timer off: 3 seconds left, 5000000 microseconds requested |
| TimerRearm.RearmedDeadline | 01-general-knowledge/wpa_ctrl/src/eloop.c:887-948 | after a re-arming the earliest matching deadline is the second clock reading plus the request |
| TimerRearm.RearmKeepsOthers | 01-general-knowledge/wpa_ctrl/src/eloop.c:887-948 | timers that do not match keep their deadlines and their order |
| TimerRearm.RearmCanTakeOthers | 01-general-knowledge/wpa_ctrl/src/eloop.c:887-913 | an input on which depleting a timer removes the only timer of another context: the depleted one's own context is the wildcard value |
| TimerRearm.RearmSparesOthers | 01-general-knowledge/wpa_ctrl/src/eloop.c:822-841 | timers registered with another callback survive a re-arming if and only if none matches as a wildcard, which holds for every callback without a wildcard context |
| TimerRearm.CancelScope | 01-general-knowledge/wpa_ctrl/src/eloop.c:829-838 | which timers a cancel takes: those registered with exactly the callback when no context is the wildcard value, and those that agree in all else when one is or both are |
| TimerRearm.CancelOneTakesFirst | 01-general-knowledge/wpa_ctrl/src/eloop.c:854-866 | cancel-one takes the timer with exactly the callback that is due first, of those due together the one registered first, and leaves all others in their order |
| TimerRearm.CancelOneTakesNothing | 01-general-knowledge/wpa_ctrl/src/eloop.c:844-868 | without such a timer cancel-one changes nothing |
| TimerRearm.RearmOutcome | 01-general-knowledge/wpa_ctrl/src/eloop.c:887-948 | deplete and replenish return -1, and change nothing, if and only if no timer has exactly the callback; on 0 all timers stay; on 1 all timers that match are replaced by one, due the request after the second clock reading |
| PassHistory.PassRuns | 01-general-knowledge/wpa_ctrl/src/eloop.c:1083-1230 | a pass makes exactly the calls of its callbacks, in this order: the early signal callbacks, those after select, the first timer's if and only if it is due, and one callback for each socket called in the three walks if no table was changed; it is the last pass if and only if termination was asked for before or by an early callback, nothing is registered, or select fails; a later request leaves the flag up |
| PassHistory.FireHeadRuns | 01-general-knowledge/wpa_ctrl/src/eloop.c:1180-1194 | the first timer leaves the queue and then its callback runs, if and only if it is due |
| PassHistory.TerminateEnds | 01-general-knowledge/wpa_ctrl/src/eloop.c:1083-1099 | a request to terminate in any callback of a pass ends the loop: the next pass runs nothing and takes the flag down |
| PassHistory.ScriptRuns | 01-general-knowledge/wpa_ctrl/src/eloop.c:1241-1244 | a callback's calls are made in order, and the termination flag is up afterwards if and only if it was or one of them asked for it |
| PassHistory.ReportedExceptionIsCalled | 01-general-knowledge/wpa_ctrl/src/eloop.c:1218-1220 | a socket registered for exceptions that select reported is called, unless a callback before it changes that table |
| SocketDispatch.DispatchCalls | 01-general-knowledge/wpa_ctrl/src/eloop.c:584-602 | one walk calls, in table order, exactly the ready entries the table held when it began, up to and including the first whose callback changes that table |
| SocketDispatch.CallsMade | 01-general-knowledge/wpa_ctrl/src/eloop.c:584-602 | where that walk stops: no callback before the last one called touches the table, and the last one does if entries are left over |
| SocketDispatch.ScriptTouches | 01-general-knowledge/wpa_ctrl/src/eloop.c:264-406 | a callback changes a table if and only if it registers a socket there or unregisters one the table holds |
| SocketDispatch.ReadersWalkIsFresh | 01-general-knowledge/wpa_ctrl/src/eloop.c:1173-1211 | the walks are skipped if and only if a signal or timer callback of the pass changed a table; otherwise every table is as it was when the descriptor sets were built |
| SocketDispatch.LaterWalksFreshIff | 01-general-knowledge/wpa_ctrl/src/eloop.c:1218-1220 | nobody has changed the writers' or the exceptions' table since select was asked about it if and only if its changed flag is down when its walk begins; the table then holds the same entries |
| SocketDispatch.WalkCallsOnlyAskedIff | 01-general-knowledge/wpa_ctrl/src/eloop.c:584-602 | a walk calls only entries of a given list if and only if no ready entry outside that list comes before the first callback that touches the table |
| SocketDispatch.FreshPassCallsOnlyReported | 01-general-knowledge/wpa_ctrl/src/eloop.c:1131-1220 | every socket callback of a pass is for an entry that select was asked about and reported if and only if neither the writers' nor the exceptions' walk reaches, before a callback ends it, a ready entry that select was not asked about; a table whose flag is down has no such entry |
| SocketDispatch.StaleWriterCall | 01-general-knowledge/wpa_ctrl/src/eloop.c:1218-1220 | a pass in which a reader callback replaces a writer of descriptor 7 and the new writer is called on the old one's readiness |
| PassHistory.ReportedIsCalled | 01-general-knowledge/wpa_ctrl/src/eloop.c:584-602 | a ready entry of a table is called if no callback called before it in the walk touches the table |
| SocketTables.RemoveSockMeans | 01-general-knowledge/wpa_ctrl/src/eloop.c:389-403 | unregistering cuts the first entry of the descriptor out of its table and leaves all other entries, in their order, and the other tables |
| SocketTables.RemoveSockMissing | 01-general-knowledge/wpa_ctrl/src/eloop.c:386-394 | unregistering a descriptor that the table does not hold changes nothing |
| SocketTables.AddSockMeans | 01-general-knowledge/wpa_ctrl/src/eloop.c:348-364 | registering puts the entry behind the others of its table, leaves the other tables, and the largest descriptor becomes the larger of the two |
| SocketTables.RemoveUndoesAdd | 01-general-knowledge/wpa_ctrl/src/eloop.c:348-403 | unregistering undoes the registration of a new descriptor in all tables and in their count |
| SocketTables.EffectFrame | 01-general-knowledge/wpa_ctrl/src/eloop.c:740-948 | timer calls leave tables, counters and the termination flag alone, socket calls timers and clock, and none of them fires timers or calls sockets |
| LoopState.FirstExact | 01-general-knowledge/wpa_ctrl/src/eloop.c:854-866 | the timer that cancel-one, deplete and replenish act on is the first one registered with exactly the callback |
| LoopState.OpsKeepFlag | 01-general-knowledge/wpa_ctrl/src/eloop.c:340-366 | a callback changes a table only with its changed flag raised, and never clears a flag |
| RelTimes.Sub | 01-general-knowledge/wpa_ctrl/inc/os.h:77-86 | subtraction of instants for any stamps; on normalised stamps the result is the normalised difference, with floored seconds when it is negative |
| RelTimes.BeforeAgainstNormal | 01-general-knowledge/wpa_ctrl/inc/os.h:69-74 | when the field-wise comparison with a normalised stamp is right for a stamp with any non-negative microseconds, in both directions |
| DlList.ListInit | 01-general-knowledge/wpa_ctrl/inc/list.h:22-26 | makes a ring of the head alone |
| DlList.ListAdd | 01-general-knowledge/wpa_ctrl/inc/list.h:28-34 | on a well-formed ring (next and prev inverse, no node twice) puts the node right behind the given one and keeps the rest of the ring |
| DlList.ListAddTail | 01-general-knowledge/wpa_ctrl/inc/list.h:36-39 | puts the node at the end of the ring |
| DlList.ListDel | 01-general-knowledge/wpa_ctrl/inc/list.h:41-47 | takes exactly that node out of the ring, which stays well formed, and clears its links |
| DlList.ListEmpty | 01-general-knowledge/wpa_ctrl/inc/list.h:49-52 | true exactly on the ring of the head alone |
| DlList.ListLen | 01-general-knowledge/wpa_ctrl/inc/list.h:54-61 | the number of nodes besides the head, and the walk ends |
| DlList.NextPrevInverse | 01-general-knowledge/wpa_ctrl/inc/list.h:22-47 | in a well-formed ring next and prev are inverse to each other and stay in the ring |
| TimerList.TimerList.InsertSorted | 01-general-knowledge/wpa_ctrl/src/eloop.c:800-808 | the ring gets the new node before the first timer due strictly later, and stays well formed |
| TimerList.TimerList.Cancel | 01-general-knowledge/wpa_ctrl/src/eloop.c:829-838 | the walk that saves the next node before it unlinks the current one leaves exactly the timers that do not match and counts the others |
| TimerList.TimerList.Remove | 01-general-knowledge/wpa_ctrl/src/eloop.c:813-819 | unlinks exactly the k-th timer |
| TimerList.TimerList.FindExact | 01-general-knowledge/wpa_ctrl/src/eloop.c:854-857 | finds the first timer with exactly this callback, or comes round to the head |
| Eloop.EventLoop.RegisterTimeout | 01-general-knowledge/wpa_ctrl/src/eloop.c:762-810 | the new state of the whole loop: only the clock, the queue and the registrations change |
| Eloop.EventLoop.ComputeDeadline | 01-general-knowledge/wpa_ctrl/src/eloop.c:773-790 | carrying microseconds one second at a time gives the normalised stamp of now plus the request |
| Eloop.EventLoop.CancelTimeout | 01-general-knowledge/wpa_ctrl/src/eloop.c:822-841 | the new state, and the return value as the number of timers that joined the cancelled ones |
| Eloop.EventLoop.CancelTimeoutOne | 01-general-knowledge/wpa_ctrl/src/eloop.c:844-868 | the new state, and the time the timer had left, zero if it was overdue |
| Eloop.EventLoop.IsTimeoutRegistered | 01-general-knowledge/wpa_ctrl/src/eloop.c:871-884 | true if and only if some pending timer has exactly this callback |
| Eloop.EventLoop.DepleteTimeout | 01-general-knowledge/wpa_ctrl/src/eloop.c:887-916 | the new state and the return value, with two separate clock readings |
| Eloop.EventLoop.ReplenishTimeout | 01-general-knowledge/wpa_ctrl/src/eloop.c:919-948 | the new state and the return value, with two separate clock readings |
| Eloop.SockTable.Remove | 01-general-knowledge/wpa_ctrl/src/eloop.c:389-403 | drops exactly the first entry for the descriptor and raises the flag, or changes nothing |
| Eloop.SockTable.SetFds | 01-general-knowledge/wpa_ctrl/src/eloop.c:567-581 | the descriptor set holds exactly the registered descriptors |
| Eloop.EventLoop.RegisterSock | 01-general-knowledge/wpa_ctrl/src/eloop.c:740-750 | the entry goes to the end of its table, the shared counters follow, nothing else changes |
| Eloop.EventLoop.UnregisterSock | 01-general-knowledge/wpa_ctrl/src/eloop.c:753-759 | the first entry for the descriptor leaves its table, the shared count follows, nothing else changes |
| Eloop.EventLoop.DispatchTable | 01-general-knowledge/wpa_ctrl/src/eloop.c:584-602 | the walk over a table that callbacks may change does what SocketDispatch.DispatchCalls is proved of |
| Eloop.EventLoop.FireFirst | 01-general-knowledge/wpa_ctrl/src/eloop.c:1180-1194 | the first timer runs if it is due, after it left the list, and only that one |
| Eloop.EventLoop.ComputeSelectTimeout | 01-general-knowledge/wpa_ctrl/src/eloop.c:1101-1120 | for ever without timers, else the time to the first deadline, zero if it has passed |
| Eloop.EventLoop.RunLoop | 01-general-knowledge/wpa_ctrl/src/eloop.c:1083-1230 | the loop with its guard, its early exit and all its passes takes the state to the one the whole-run lemmas speak of |
| Signals.SignalTable.ProcessPendingSignals | 01-general-knowledge/wpa_ctrl/src/eloop.c:988-1010 | with deliveries between any two accesses to shared memory, and with handlers that register further signals, no signal gets lost unless one is delivered while such a registration has the table copied: each delivery is followed by a call of its handler or leaves its own counter and the global one raised. What was counted before the scan is called during it, no handler is called more often than its signal came, and a running alarm implies pending_terminate, whatever registrations do |
| Signals.SignalTable.HandleSignal | 01-general-knowledge/wpa_ctrl/src/eloop.c:964-985 | counts the delivery for the first entry of that number and arms the alarm once |
| Signals.SignalTable.DeliverOne | 01-general-knowledge/wpa_ctrl/src/eloop.c:964-985 | a delivery at any point of the scan keeps everything the scan relies on there |
| Signals.SignalTable.RegisterSignal | 01-general-knowledge/wpa_ctrl/src/eloop.c:1013-1032 | with deliveries before and after the count is raised, and a table that moves or grows in place: an entry gets lost if and only if the table moves, the entry is delivered meanwhile and its counter was down before; a table that grows in place loses nothing; everything a scan relies on is kept |
| Signals.LostWhileRegistering | 01-general-knowledge/wpa_ctrl/src/eloop.c:1018-1028 | an input on which a signal gets lost: SIGHUP comes while the registration of SIGINT has the table copied |
| Signals.SignalTable.Deliver | 01-general-knowledge/wpa_ctrl/src/eloop.c:964-985 | deliveries at any point of the scan raise exactly the counters of the entries they count for, and lose nothing |
| Signals.OwedMeans | 01-general-knowledge/wpa_ctrl/src/eloop.c:988-1010 | being owed a call means: delivered, and not called since |
| PollIndex.PollTables.SetFds | 01-general-knowledge/wpa_ctrl/src/eloop.c:435-509 | the map is an exact index of the three tables (an entry for exactly the registered descriptors, carrying that descriptor, POLLOUT exactly for writers, POLLIN exactly for readers and descriptors that are no writers), the entries used are at most the total count and the allocated size, and of all entries exactly those with a reader, a new writer or a new exception of their own number have their revents cleared |
| PollIndex.AllClearedIff | 01-general-knowledge/wpa_ctrl/src/eloop.c:455-509 | all used entries are cleared, whatever they held, if and only if each has a reader, a new writer or a new exception of its own number |
| PollIndex.StaleEntrySurvives | 01-general-knowledge/wpa_ctrl/src/eloop.c:466-481 | one reader and one writer: the writer's entry is used with the revents its memory held before |
| PollIndex.IndexIsInjective | 01-general-knowledge/wpa_ctrl/src/eloop.c:435-509 | different descriptors have different entries |
| PollIndex.PollTables.AddSock | 01-general-knowledge/wpa_ctrl/src/eloop.c:278-364 | registration keeps the arrays large enough for every descriptor and every entry; grown arrays start with what the old ones held and may hold anything behind it |
| PollIndex.PollTables.RemoveSock | 01-general-knowledge/wpa_ctrl/src/eloop.c:378-401 | removal of the first entry for the descriptor keeps the count and the sizes right |
| PrintfCodec.DecodeInverts | 01-general-knowledge/wpa_ctrl/src/common.c:466-594 | decoding encoded bytes, with anything behind them, gives the bytes back first, as far as there is room |
| PrintfCodec.EncodedDecodesToPrefix | 01-general-knowledge/wpa_ctrl/src/common.c:466-594 | what was encoded into a buffer of any size decodes to a prefix of the data |
| PrintfCodec.WholeDataFits | 01-general-knowledge/wpa_ctrl/src/common.c:466-512 | all of the data is encoded if and only if the bytes before the last leave five free, for which 4 * len + 1 is always enough |
| PrintfCodec.DecodeNeverGrows | 01-general-knowledge/wpa_ctrl/src/common.c:515-594 | the decoder never produces more bytes than it consumes, so a buffer of tlen + 1 never truncates |
| PrintfCodec.EncodedForm | 01-general-knowledge/wpa_ctrl/src/common.c:475-508 | a byte is written as itself if and only if it is printable and no quote or backslash; else as the escape of one character if there is one; else as x and two lower-case hex digits |
| PrintfCodec.EncodedIsPrintable | 01-general-knowledge/wpa_ctrl/src/common.c:475-508 | encoded text is printable |
| PrintfCodec.DecodePlain | 01-general-knowledge/wpa_ctrl/src/common.c:585-587 | anything but a backslash stands for itself |
| PrintfCodec.DecodeShort | 01-general-knowledge/wpa_ctrl/src/common.c:527-552 | the escapes of one character and what they stand for |
| PrintfCodec.DecodeHex | 01-general-knowledge/wpa_ctrl/src/common.c:552-565 | two hex digits behind x stand for their byte |
| PrintfCodec.DecodeHexDigit | 01-general-knowledge/wpa_ctrl/src/common.c:552-565 | one hex digit before a character that is none stands for its value |
| PrintfCodec.DecodeNoHex | 01-general-knowledge/wpa_ctrl/src/common.c:552-565 | without a hex digit behind it the x is dropped with its backslash |
| PrintfCodec.DecodeOctal | 01-general-knowledge/wpa_ctrl/src/common.c:566-580 | three octal digits stand for their number, cut to a byte |
| PrintfCodec.DecodeTwoOctal | 01-general-knowledge/wpa_ctrl/src/common.c:566-580 | two octal digits before a character that is none stand for their number |
| PrintfCodec.DecodeOneOctal | 01-general-knowledge/wpa_ctrl/src/common.c:566-580 | one octal digit before a character that is none stands for its number |
| PrintfCodec.OctalInverts | 01-general-knowledge/wpa_ctrl/src/common.c:566-580 | every byte written with three octal digits is read back |
| PrintfCodec.DecodeUnknown | 01-general-knowledge/wpa_ctrl/src/common.c:581-583 | before any other character, and at the end, the backslash alone is dropped |
| PrintfCodec.PrintfEncode | 01-general-knowledge/wpa_ctrl/src/common.c:466-512 | writes the terminated text of the longest prefix with safe room and touches nothing beyond maxlen |
| PrintfCodec.PrintfDecode | 01-general-knowledge/wpa_ctrl/src/common.c:515-594 | writes the decoded text, at most maxlen - 1 bytes of it and a terminator, and touches nothing beyond |
| PrintfCodec.WpaSsidTxt | 01-general-knowledge/wpa_ctrl/src/common.c:611-622 | the printed text is NUL-free and decodes to the longest prefix with safe room, which for up to 32 bytes is the whole SSID; NULL prints as nothing |
| Bytes.HexPairReads | 01-general-knowledge/wpa_ctrl/src/common.c:15-37 | two printed hex digits of either case are read back as their byte |
| Bytes.HexDigits | 01-general-knowledge/wpa_ctrl/src/common.c:15-24 | a character has the value v as a hex digit if and only if it is the v-th of the lower-case or of the upper-case digits |
| Bytes.HexToByteIff | 01-general-knowledge/wpa_ctrl/src/common.c:27-37 | a pair is read if and only if both characters are hex digits, as sixteen times the first and the second |
| ConfigString.HexInverts | 01-general-knowledge/wpa_ctrl/src/common.c:170-185 | hex text of either case reads back as the bytes it was printed from |
| ConfigString.SnprintfHex | 01-general-knowledge/wpa_ctrl/src/common.c:306-325 | prints the text of the longest run of whole bytes that fits before the last position, and terminates it |
| ConfigString.HexStr2Bin | 01-general-knowledge/wpa_ctrl/src/common.c:170-185 | succeeds if and only if all characters it needs are hex digits, with the bytes they stand for |
| ConfigString.HexBinIff | 01-general-knowledge/wpa_ctrl/src/common.c:170-185 | bytes can be read from a text if and only if all its characters are hex digits |
| ConfigString.TextFormInverts | 01-general-knowledge/wpa_ctrl/src/common.c:633-643 | the quoted form of any text, inner quotes included, is read as that text |
| ConfigString.EncodedFormInverts | 01-general-knowledge/wpa_ctrl/src/common.c:644-665 | the P form of any bytes is read as those bytes |
| ConfigString.HexFormInverts | 01-general-knowledge/wpa_ctrl/src/common.c:666-684 | the hex form of any bytes is read as those bytes |
| ConfigString.WpaConfigParseString | 01-general-knowledge/wpa_ctrl/src/common.c:631-685 | what the three acceptance laws below and the three inversion laws speak of, with all refusals |
| ConfigString.ParsedTextIff | 01-general-knowledge/wpa_ctrl/src/common.c:633-643 | a value that starts with a quote stands for a text if and only if it is that text in quotes |
| ConfigString.ParsedEncodedIff | 01-general-knowledge/wpa_ctrl/src/common.c:644-665 | a value that starts with P and a quote is accepted if and only if its last character is another quote, and stands for what the text between decodes to |
| ConfigString.ParsedHexIff | 01-general-knowledge/wpa_ctrl/src/common.c:666-684 | any other value is accepted if and only if it has an even number of characters and all are hex digits, and stands for their bytes |
| ConfigString.SsidHexInverts | 01-general-knowledge/wpa_ctrl/src/common.c:1161-1196 | the hex digits of 1 to 32 bytes, with a space and any arguments behind, are read as those bytes; any other number of bytes is refused |
| ConfigString.SsidTextInverts | 01-general-knowledge/wpa_ctrl/src/common.c:1161-1196 | quoted text is read as itself, whatever follows, if and only if it has 1 to 32 bytes and none is a quote |
| ConfigString.SsidEncodedInvertsIff | 01-general-knowledge/wpa_ctrl/src/common.c:1172-1175 | the P form is read as the bytes it was made from if and only if there are 1 to 32 of them and none is a space, because it is cut at its first space |
| ConfigString.SsidQuotedIff | 01-general-knowledge/wpa_ctrl/src/common.c:1176-1196 | a command line that starts with a quote gives an SSID if and only if it starts with that SSID in quotes, of 1 to 32 bytes and none of them a quote |
| ConfigString.SsidUnquotedIff | 01-general-knowledge/wpa_ctrl/src/common.c:1172-1196 | any other command line gives an SSID if and only if its part before the first space stands for it and it has 1 to 32 bytes |
| ConfigString.WpaSsidParse | 01-general-knowledge/wpa_ctrl/src/common.c:1161-1196 | reports failure exactly when there is no SSID of 1 to 32 bytes, and leaves the length 0 then |
| Utf8Escape.UnescapeInverts | 01-general-knowledge/wpa_ctrl/src/common.c:1059-1142 | unescaping an escaped text gives it back if and only if the output has room for it |
| Utf8Escape.UnescapeInvertsQuoted | 01-general-knowledge/wpa_ctrl/src/common.c:1059-1103 | so does unescaping it in single quotes, whatever follows, but one more byte of room is needed |
| Utf8Escape.EscapeLength | 01-general-knowledge/wpa_ctrl/src/common.c:1106-1142 | the escaped text has one byte more for each backslash and single quote, and no others |
| Utf8Escape.UnescapeAny | 01-general-knowledge/wpa_ctrl/src/common.c:1059-1103 | needless backslashes do no harm, and a bare backslash at the end is refused |
| Utf8Escape.AnyText | 01-general-knowledge/wpa_ctrl/src/common.c:1059-1103 | every text is one of those that the law of needless backslashes speaks of |
| Utf8Escape.Utf8Escape | 01-general-knowledge/wpa_ctrl/src/common.c:1106-1142 | writes the escaped text, reports 0 if and only if it does not fit or is empty, and never writes past out_size |
| Utf8Escape.Utf8Unescape | 01-general-knowledge/wpa_ctrl/src/common.c:1059-1103 | writes the unescaped text, reports overflow and a trailing backslash as 0, and never writes past out_size |
| Tokens.RunsAreMaximal | 01-general-knowledge/wpa_ctrl/src/common.c:1014-1037 | the tokens are exactly the maximal delimiter-free runs |
| Tokens.RunsAreOrdered | 01-general-knowledge/wpa_ctrl/src/common.c:1014-1037 | they come in order, each ending before the next starts |
| Tokens.CstrToken | 01-general-knowledge/wpa_ctrl/src/common.c:1014-1037 | the next token and the position behind it, or NULL with last unchanged |
| Tokens.AllTokens | 01-general-knowledge/wpa_ctrl/src/common.c:1014-1037 | repeated cstr_token yields all tokens and ends |
| Tokens.StrToken | 01-general-knowledge/wpa_ctrl/src/common.c:1048-1056 | the next token of the text as it was, with only the delimiter behind it overwritten |
| Tokens.AllTokensInPlace | 01-general-knowledge/wpa_ctrl/src/common.c:1048-1056 | repeated str_token yields the tokens of the original text although it overwrites the buffer it scans, and in the end each token stands there as a string of its own |
| FreqRange.ParseInverts | 01-general-knowledge/wpa_ctrl/src/common.c:771-864 | parsing the text of any list with bounds up to INT_MAX gives the list back |
| FreqRange.RoomSuffices | 01-general-knowledge/wpa_ctrl/src/common.c:829-864 | 30 bytes for each of n > 0 ranges suffice for every list of n ranges if and only if n is at most 143165576, the largest n whose product does not wrap, and for some list of n ranges if and only if 2n - 1 is less than the wrapped product |
| FreqRange.RoomRunsOut | 01-general-knowledge/wpa_ctrl/src/common.c:829-864 | the lists that run out of room: for every larger n, n ranges 4294967294-4294967295; with one range too many only 14 bytes are set aside |
| FreqRange.FreqRangeListStr | 01-general-knowledge/wpa_ctrl/src/common.c:829-864 | the text of the list, NULL if and only if the list is empty or its text is too long for the bytes set aside |
| FreqRange.FreqRangeListParse | 01-general-knowledge/wpa_ctrl/src/common.c:771-809 | every range of the text, a second bound only before the first comma |
| FreqRange.ParsePieces | 01-general-knowledge/wpa_ctrl/src/common.c:781-803 | any text is read piece by piece between its commas, each piece by itself |
| FreqRange.PieceMeans | 01-general-knowledge/wpa_ctrl/src/common.c:790-797 | a piece without a dash gives one number twice, otherwise what stands behind its first dash is the second number |
| FreqRange.AtoiForms | 01-general-knowledge/wpa_ctrl/src/common.c:790-797 | blanks and signs before a printed number, and texts without a number |
| FreqRange.AtoiReads | 01-general-knowledge/wpa_ctrl/src/common.c:791-797 | a printed number is read back up to the first character that is no digit |
| IntArray.SortUniqueMeans | 01-general-knowledge/wpa_ctrl/src/common.c:909-932 | the result is strictly increasing and has the same set of elements |
| IntArray.IncreasingIsUnique | 01-general-knowledge/wpa_ctrl/src/common.c:909-932 | which determines it |
| IntArray.ConcatOrAddAgree | 01-general-knowledge/wpa_ctrl/src/common.c:876-956 | concatenating and sorting gives the same array as adding all elements one by one and sorting |
| IntArray.AddUniqueMeans | 01-general-knowledge/wpa_ctrl/src/common.c:935-956 | the old elements stay in place, and the new one is among them or behind them |
| IntArray.CmpOrders | 01-general-knowledge/wpa_ctrl/src/common.c:896-906 | freq_cmp orders ints from 0 on with zero behind all others, and its difference does not overflow |
| IntArray.SortSorts | 01-general-knowledge/wpa_ctrl/src/common.c:896-916 | sorting by freq_cmp orders positive ints and keeps their multiset |
| IntArray.SortedIsUnique | 01-general-knowledge/wpa_ctrl/src/common.c:896-916 | a sorted rearrangement of positive ints is unique, so any way of sorting gives it |
| IntArray.IntArraySortUnique | 01-general-knowledge/wpa_ctrl/src/common.c:909-932 | leaves the array in place, zero-terminated, strictly increasing, with the same set of elements; NULL is left alone |
| IntArray.IntArrayConcat | 01-general-knowledge/wpa_ctrl/src/common.c:876-893 | a zero-terminated array of the elements of both, in order |
| IntArray.IntArrayAddUnique | 01-general-knowledge/wpa_ctrl/src/common.c:935-956 | the same array if the element is there, else a zero-terminated one with it at the end; a zero adds nothing |
| IntArray.IntArrayLen | 01-general-knowledge/wpa_ctrl/src/common.c:867-873 | the number of elements before the first zero, 0 for NULL |
| ByteCounter.IncrementAddsOne | 01-general-knowledge/wpa_ctrl/src/common.c:221-230 | the big-endian value v becomes (v + 1) mod 256^n for every length n |
| ByteCounter.RepeatsAfterFullRounds | 01-general-knowledge/wpa_ctrl/src/common.c:221-230 | the counter returns to a value after k increments if and only if 256^n divides k |
| ByteCounter.IncByteArray | 01-general-knowledge/wpa_ctrl/src/common.c:221-230 | the carry loop, stopped at the first byte that does not roll over, computes that increment in place |
| FileServer.Transfer | 10-message-queues/client-server/server.c:104-171 | for any number of clients and any schedule: at every moment a client has received a prefix of its own file; when nothing can move and no read or send of its child failed, it has finished on exactly one end marker with the file's length and one message more than the data messages, or was sent the refusal; whatever failed, a client is then through if and only if it was taken up and its last message was not lost |
| FileServer.ReceivedIsPrefix | 10-message-queues/client-server/server.c:118-127 | whatever fails, what a client has received is a prefix of its file |
| FileServer.FinishedCounts | 10-message-queues/client-server/client.c:145-153 | totBytes and numMsgs of a finished client, with full reads the number of 8192-byte pieces begun plus one |
| FileServer.FinishedHasAll | 10-message-queues/client-server/client.c:137-153 | a client that is through has taken every message sent to it, and its child is gone |
| FileServer.FirstComeFirstServed | 10-message-queues/client-server/server.c:150-171 | requests are taken up in the order in which they were made, each once, and exactly those clients have a child whose request was taken up |
| FileServer.QueuesFit | 10-message-queues/client-server/server.c:118-127 | no queue ever holds more than it has room for |
| FileServer.ExitsAfterLast | 10-message-queues/client-server/server.c:110-128 | whatever fails, a child ends with the end marker or the refusal, so its last message is lost only if that send fails |
| FileServer.FailureEnds | 10-message-queues/client-server/server.c:118-127 | after a failed read or send only the end marker is left to do |
| FileServer.NeverStuck | 10-message-queues/client-server/server.c:150-171 | a client that is not through can always be served on without any failure, also when queues are full and sends wait, unless its last message was lost or the server gave up |
| FileServer.RunsEnd | 10-message-queues/client-server/server.c:104-171 | no schedule makes more steps than there was work to begin with |
| FileServer.RunInv | 10-message-queues/client-server/server.c:104-171 | every reachable state keeps the invariant of all connections: each request queued exactly once while its client waits, and each client's messages those of its own child |
| FileServer.ServeRequest | 10-message-queues/client-server/server.c:104-128 | against any behaviour of the client, with sends that wait while the queue is full: what the code reads and sends are the moves of the protocol's child, and it exits where that child does unless the schedule leaves it waiting |
| FileServer.SentAsAgreed | 10-message-queues/client-server/server.c:110-127 | a send is the protocol's move if and only if it sends the protocol's message, or fails |
| FileServer.ReceiveFile | 10-message-queues/client-server/client.c:132-153 | against any behaviour of the child, from before its first message on: the receive loop waits for messages, takes them up to the first that is not data, and its counts are the protocol's; if nothing failed they are the file's length and the number of messages |
| FileServer.TogetherTheyFinish | 10-message-queues/client-server/server.c:104-128 | the two programs under any schedule without failures: once neither can move the client is through |
| FileServer.TroubleMeansFailure | 10-message-queues/client-server/server.c:118-127 | there is trouble only if a read or a send failed |
| ProducerConsumer.RunInv | 09-semaphore/producer-consumer/main.c:38-67 | empty + full + places held by processes is the buffer size at every reachable point, for any buffer size and any number of processes |
| ProducerConsumer.MutualExclusion | 09-semaphore/producer-consumer/main.c:38-67 | at most one process is between its wait on mutex and its post |
| ProducerConsumer.ItemsFit | 09-semaphore/producer-consumer/main.c:79-82 | items created minus items taken lies in 0..N, and so does the number the parent prints |
| ProducerConsumer.NeverDeadlocked | 09-semaphore/producer-consumer/main.c:38-67 | some process can always step |

## Left out

- Eloop.EventLoop.RegisterTimeout: does not model the exit for seconds that overflow the time type, because time is unbounded here.
- Eloop.EventLoop.RunLoop: does not model a failing clock, failing allocations or the freeing of the descriptor sets.
- Eloop.SockTable.Remove: the table is a sequence field; the growing and shifting of its memory is not modelled.
- Signals.SignalTable.RegisterSignal: a delivery finds the abandoned table as it was and does not look behind its end; that its memory is already given back is not modelled.
- IntArray.Qsort: qsort's algorithm is not modelled, only that it leaves the sorted rearrangement.
- FreqRange.Atoi: numbers beyond int, on which atoi is undefined, are read as if int were unbounded and then cut to 32 bits.
- Utf8Escape.Utf8Escape: NULL pointers, which the escaping, unescaping and tokenizing functions refuse, are not modelled.
- PrintfCodec.WpaSsidTxt: the static buffer is a parameter, so two uses of it at a time are not modelled.
- FileServer.Next: a failing msgrcv is not modelled apart from a failed fork, which ends the server's loop in the same way; neither is the removal of queues.
- ProducerConsumer.Step: a wait is one step that needs a positive semaphore; the kernel's waking order is not modelled, so nothing is said about fairness.
- The epoll and kqueue variants, the dispatch of the poll variant, eloop_destroy, eloop_wait_for_read_sock and the trace hooks: glue around the same tables.
- MAC address parsing, freq_range_list_includes, is_hex, wpa_snprintf_hex_sep and the rest of common.c: single loops or expressions with easy claims.
- wpa_ctrl.c, os_unix.c, wpa_debug.c, the user interface, the kernel modules and the other process, pipe, socket, thread and file examples: system calls and demonstrations.
