# WarriorMan, verified

A Dafny 4.11 model of the data structures and state machines inside the WarriorMan coroutine server, and proofs of what
they promise. `dafny verify dfyconfig.toml` checks everything.

| part of the server | files here |
|---|---|
| hash table `include/khash.h`, `include/hash.h` | `Probing` (number theory of the probe sequence), `Bits` (32-bit operators, `kroundup32`), `Flags` (two-bit flags packed in words), `Table` (what a table state means), `Khash` (the table, on arrays) |
| rings and queues `include/list.h`, `include/queue.h` | `List`, `Rings` (families of disjoint rings), `Queue` |
| timer wheel `src/core/timer.c` | `WheelSlots` (where a timer may sit), `TimerWheel` (the wheel, on rings), `TimerSpec` (a bag of timers scanned at every tick), `WheelHistory` (every run of the wheel is a history of the bag), `Clock` (milliseconds and ticks) |
| PHP timers `php_timer.c` | `RegistrySpec` (the registry as a state machine), `PhpTimer` (registry, wheel and user code together), `TimerHistory` (every run of it is a history of the registry) |
| coroutines `src/coroutine/coroutine.c`, `context.c` | `Coroutine`, `CoroutineHistory` (every run of the scheduler is a run of the switches) |
| channels `src/coroutine/channel.c` | `ChannelSpec` (steps between switches), `Channel` (the channel, on three queues), `ChannelHistory` (every run of it is a run of the steps) |
| resource pool `examples/Workerman/Db/AbstractPool.php` | `Pool` |
| rolling reload `src/worker.c` | `PidTables`, `Reload` |
| WebSocket `examples/Workerman/Protocols/Websocket.php`, `Ws.php` | `Frames` (frames as bytes), `WebSocketSpec` (`input` and `decode` as functions), `WebSocket` (the same on a connection object), `Reassembly`, `RoundTrip`, `WireFormat` (octet by octet, and which frames are refused) |

How the parts are built. Code that changes things in place is a class with the same fields, whose methods are proved
against functions or abstract states; the theorems are about those. The hash table stands for a finite map, a ring for a
sequence, the wheel for a bag of pending nodes with unbounded due ticks, the coroutine switcher for a stack of calls, the
channel for a state machine over what its callers see, a connection for a byte stream cut into frames.

User code is arbitrary. In a timer tick it is an oracle that gives, for every callback, a list of timer commands; in the
coroutine switcher, the channel and the pool each method runs from one switch to the next, so a run is any sequence of
calls. `fork` returns any pid never used before, and children exit at any time and in any order.

What the proofs found, beside what holds:

- `wmTimerWheel_update` accounts for the elapsed time exactly if it fits a C `int` (about 24 days between updates):
  `Clock.UpdateConserves`.
- The server's WebSocket encoder keeps 32 bits of the payload length, so a payload of 2^32 bytes or more is not
  received as one frame; for all shorter ones, and for all the client sends, the round trip holds: `RoundTrip.EncodedIsDecoded`.
- A ping or pong is taken as it should be exactly if websocketDataBuffer is empty, that is unless fragments with some
  payload have gone before it in an unfinished message: `RoundTrip.ControlBetweenMessagesOnly`, over whole streams
  `Reassembly.MessagesAreReassembled`.
- A second SIGUSR1 during a rolling reload signals a second process exactly if the first process of a reloadable worker,
  in table order, is not the one that is already leaving: `Reload.Master.Sigusr1`.
- A channel loses a wake-up exactly when a push (or a pop) notifies a stale entry at the head of the waiting queue, which
  `wmCoroutine_resume` refuses, while somebody sleeps there: `ChannelSpec.StepIsServed`, over whole runs
  `ChannelSpec.ServedThroughout`. Such entries are left by resumes from outside, timeouts for example, whose calls fail
  (`ChannelSpec.StepIsOrderly`); a timeout itself loses nothing. A run that loses a wake-up is `ChannelSpec.TimeoutLosesWakeUp`.
- With a callback for closing, a close frame stays at the front of the receive buffer and nothing behind it is ever
  delivered, although the connection stays open: `RoundTrip.CloseFrameStops`.

## Model

| member | source | states |
|---|---|---|
| Probing.ProbeStep | include/khash.h:205 | one step `i = (i + ++step) & mask` moves from the t-th to the (t+1)-th bucket of the triangular probe |
| Probing.TriCongruent | include/khash.h:205 | if the triangular numbers of s and t agree modulo 2^m, then 2^(m+1) divides t - s or t + s + 1 |
| Probing.ProbeInjective | include/khash.h:200-206 | the first 2^m probed buckets of a table of 2^m buckets are distinct |
| Probing.ProbeCovers | include/khash.h:200-206 | every bucket is among the first n that a probe examines |
| Probing.FirstReturn | include/khash.h:206 | a probe is back at its first bucket at step 2n-1, and at no earlier step |
| Bits.AndMask | include/khash.h:201-202 | masking with 2^m - 1 is the remainder modulo 2^m |
| Bits.KRoundUp32IsLeastPow2 | include/khash.h:143 | `kroundup32` gives the least power of two that is at least x, for 1 <= x <= 2^31 |
| Bits.KRoundUp32OfZero | include/khash.h:143 | `kroundup32(0)` is 0 by wrap-around |
| Flags.SetDelAt | include/khash.h:138 | setting the deleted bit of one bucket changes no other flag of the word |
| Flags.ClearEmptyAt | include/khash.h:136 | clearing the empty bit of one bucket changes no other flag |
| Flags.ClearBothAt | include/khash.h:137 | clearing both bits of one bucket changes no other flag |
| Flags.FreshWord | include/khash.h:222 | a word of bytes 0xaa means sixteen empty buckets |
| Flags.FlagArray.constructor | include/khash.h:220-222 | a fresh flag array for n buckets, all empty, in `__ac_fsize(n)` words |
| Flags.FlagArray.SetIsDelTrue | include/khash.h:138 | one bucket of the unpacked view becomes deleted, the others stay |
| Flags.FlagArray.SetIsEmptyFalse | include/khash.h:136 | one bucket becomes non-empty, the others stay |
| Flags.FlagArray.SetIsBothFalse | include/khash.h:137 | one bucket becomes live, the others stay |
| Table.Covers | include/khash.h:204-207 | any bucket is met within n steps of any key's probe |
| Table.BackAtStart | include/khash.h:206 | `i == last` is seen only after every bucket was examined |
| Table.LocatedSize | include/khash.h:163 | the number of live buckets is the number of keys of the map |
| Table.ScanMiss | include/khash.h:204-208 | a probe stopped by an empty bucket proves the key absent |
| Table.ScanRound | include/khash.h:206 | a probe that came back to its start proves the key absent |
| Table.RoundMeetsTombstone | include/khash.h:292-296 | a put that went all the way round has a tombstone on the key's path to reuse |
| Table.SlotAtStop | include/khash.h:297-300 | where the put's probe stops there is the key's own bucket; for an absent key the bucket is the chosen one (Table.Chosen): the last tombstone that the probe meets before its first empty bucket, or if there is none that empty bucket |
| Table.NotBackYet | include/khash.h:296 | while some bucket is empty, a probe that has met none is not back at its first bucket: the exit `i == last` of put is never taken |
| Table.ChosenIsUnique | include/khash.h:293-300 | the last tombstone before the first empty bucket, or else that bucket, is one and the same bucket however it is found |
| Table.UpperRoundsDown | include/khash.h:270 | the load limit is n * 0.77 + 0.5, rounded down |
| Table.Insert | include/khash.h:303-312 | filling a free bucket on the key's path keeps every key reachable and stored once |
| Table.Delete | include/khash.h:316-321 | a tombstone cuts no probe path and removes one key only |
| Table.Take | include/khash.h:237-243 | taking an unmoved entry in hand keeps the rehash invariant |
| Table.Place | include/khash.h:254-257 | placing the entry in hand in a bucket with no old entry keeps it |
| Table.Kick | include/khash.h:250-253 | exchanging it with an old entry keeps it, and the old flags lose a live bucket |
| Table.RehashEnd | include/khash.h:261-271 | when no old entry is left, the new flags describe a table with the same map and no tombstone |
| Khash.TargetIsPow2 | include/khash.h:216-218 | the size used by a resize is the least power of two >= max(4, request), and its load limit is below it |
| Khash.NextTargets | include/khash.h:278-282 | asking for n-1 buckets gives n again, and n+1 gives 2n |
| Khash.RoomAhead | include/khash.h:277-285 | the resize that put asks for is never refused as too small and leaves room |
| Khash.KHash.Get | include/khash.h:197-210 | returns the key's bucket, or n_buckets exactly if the map has no such key; a probe always ends |
| Khash.KHash.Del | include/khash.h:316-322 | removes the key of a live bucket and nothing else; other buckets are left alone |
| Khash.KHash.FindSlot | include/khash.h:286-302 | with room left, finds the key's bucket, or for an absent key the last tombstone on its path before the first empty bucket, or else that empty bucket |
| Khash.KHash.Fill | include/khash.h:303-313 | stores an absent key: 0 present, 1 into an empty bucket, 2 into a tombstone; size and n_occupied stay exact |
| Khash.KHash.KickOut | include/khash.h:244-259 | the kick-out loop ends, since each kick takes a live bucket from the old flags, and loses no entry |
| Khash.KHash.Rehash | include/khash.h:236-261 | moves all old entries to the new flags within the same arrays |
| Khash.KHash.Resize | include/khash.h:211-273 | for every table state and target: the map is the same, and unless refused no tombstone is left and n_occupied = size |
| Khash.KHash.MakeRoom | include/khash.h:277-285 | same map, and n_occupied below the limit: a table at its limit gets n buckets again if n > 2 * size, else 4 or twice as many, and n_occupied = size |
| Khash.KHash.Put | include/khash.h:274-315 | the map gains the key if absent, no other key changes, ret is 0 if it was present; below the limit an absent key takes the last tombstone of its probe, with ret 2 and n_occupied unchanged, and only without one the first empty bucket, with ret 1 and n_occupied one more; at the limit the table is rehashed first and ret is never 2 |
| Khash.KHash.Add | include/hash.h:39-46 | add if absent: a present key changes nothing and gives -1 |
| Khash.KHash.Remove | include/hash.h:48-54 | the map loses exactly the key, -1 if it was absent |
| Khash.KHash.Lookup | include/hash.h:56-62 | the value of the key, NULL exactly if absent |
| Khash.KHash.SizeOfContents | include/khash.h:163 | size is the number of entries of the map |
| List.RingMirrored | include/list.h:7-10 | x.next.prev = x = x.prev.next on every ring |
| List.AddFront | include/list.h:19-24 | prepends one node to the ring's sequence |
| List.AddBack | include/list.h:27-32 | appends one node |
| List.EmptyRing | include/list.h:35-37 | a head linked to itself is an empty sequence, and only then |
| List.Remote | include/list.h:40-44 | removes one node from its ring wherever it stands, and leaves it self-linked |
| List.Splice | include/list.h:47-58 | moves a whole ring to the front of another and empties the first |
| Rings.LinkBack | include/list.h:27-32 | in a family of disjoint rings, appending to one leaves the others well formed and disjoint |
| Rings.Unlink | include/list.h:40-44 | removing a node from one ring of a family leaves the others alone |
| Rings.MoveAll | include/list.h:47-58 | splicing one ring of a family into another keeps the family |
| Queue.Queue.Push | include/queue.h:31-40 | appends to the sequence; num stays its length |
| Queue.Queue.Pop | include/queue.h:43-55 | takes the first element, NULL exactly if there is none |
| Queue.Queue.Clear | include/queue.h:63-74 | leaves the empty sequence |
| WheelSlots.SlotForIsRight | src/core/timer.c:49-84 | every timer less than 2^32 ticks away gets a slot where it may sit, by 32-bit arithmetic alone; none goes to so_long_node |
| WheelSlots.DigitsOf32 | src/core/timer.c:3-4 | the digits of a tick count survive truncation to 32 bits, so wrap-around of currtick is harmless |
| WheelSlots.InSlotNextTick | src/core/timer.c:148 | a tick leaves every timer in its place, if only just |
| WheelSlots.NotTurning | src/core/timer.c:157-171 | only timers in a slot that turns now can have reached their boundary |
| WheelSlots.TurningIsClose | src/core/timer.c:163-165 | the slot that turns holds only timers due within one of its slots |
| WheelSlots.TurnedStaysEmpty | src/core/timer.c:157-171 | the cascade never re-adds into a slot that this tick has emptied |
| WheelSlots.NextWheelTurns | src/core/timer.c:171 | the loop condition idx == 0 is right: wheel i+1 turns exactly then |
| WheelSlots.SlowerWheelsRest | src/core/timer.c:171 | when the loop ends no further wheel turns |
| WheelSlots.DueNow | src/core/timer.c:179 | the timers due now are exactly those in the current slot of the first wheel |
| TimerWheel.TimerWheel.constructor | src/core/timer.c:9-32 | an empty bag at tick 0, all 513 rings empty |
| TimerWheel.TimerWheel.ChooseSlot | src/core/timer.c:49-84 | the branch taken is the slot SlotFor defines |
| TimerWheel.TimerWheel.AddNode | src/core/timer.c:48-86 | the node joins the bag and the back of its slot |
| TimerWheel.TimerWheel.Cascade | src/core/timer.c:128-141 | redistributes one slot: same bag, every node of it in order again |
| TimerWheel.TimerWheel.Turn | src/core/timer.c:157-172 | the do-while over the outer wheels puts the whole wheel in order and keeps the bag |
| TimerWheel.TimerWheel.Advance | src/core/timer.c:146-179 | the tick count grows by one, the bag stays, and the local ring holds exactly the nodes due now |
| TimerWheel.TimerWheel.TakeFirst | src/core/timer.c:183-189 | the drain takes the first node of the local ring, which is due now, out of the bag, self-links it and counts it off |
| TimerWheel.TimerWheel.EndDrain | src/core/timer.c:183-198 | when the local ring is empty nothing that is due is left |
| TimerWheel.TimerWheel.NothingDueWhenIdle | src/core/timer.c:183-198 | between ticks every pending node is due later |
| TimerWheel.TimerWheel.Add | src/core/timer.c:89-95 | the node becomes pending, due `ticks` ticks from now (one, if ticks = 0), also during a drain |
| TimerWheel.TimerWheel.AddQuick | src/core/timer.c:98-104 | the same for a new node |
| TimerWheel.TimerWheel.Del | src/core/timer.c:107-120 | takes exactly this node out of the bag, from a slot or from a drain in progress; 0 if it is linked nowhere |
| TimerSpec.BagInvariant | src/core/timer.c:89-95 | in every history no pending timer is late or 2^32 ticks away, and adds - fires >= pending |
| TimerSpec.NumGuard | src/worker/loop.c:211-216 | if num is 0 no timer is pending (for fewer than 2^32 outstanding ones), so skipping the update is safe |
| TimerSpec.FateOf | src/core/timer.c:89-198 | a timer is pending until it fires or is deleted, with its due tick fixed when it was added |
| TimerSpec.FiresExactlyOnTime | src/core/timer.c:89-198 | in every history exactly `ticks` ticks (one, if ticks = 0) lie between the event that adds a timer and the event that fires it; it fires at most once, never after deletion, and once more ticks than that have passed it has fired or was deleted |
| WheelHistory.History.Add | src/core/timer.c:89-104 | whatever has happened to the wheel before, adding a node is the bag's event BAdd |
| WheelHistory.History.Del | src/core/timer.c:107-120 | deleting a pending node is BDel of its timer |
| WheelHistory.History.Tick | src/core/timer.c:146-179 | a tick is BTick, and is enabled: no timer of the bag is due and left behind |
| WheelHistory.History.Fire | src/core/timer.c:183-189 | each turn of the drain is BFire of a timer due now |
| WheelHistory.History.EndTick | src/core/timer.c:183-198 | at the end of a tick the bag may tick again: all that was due has fired |
| WheelHistory.History.EveryTimerIsOnTime | src/core/timer.c:89-198 | in every run of adds, deletes and ticks, wrap-around included, exactly `ticks` ticks (one, if ticks = 0) lie between adding a timer and the wheel firing it, which happens once and never after it was deleted |
| WheelHistory.History.NoTimerIsLate | src/core/timer.c:183-198 | at the end of the tick with which that many ticks have passed a timer has fired or was deleted |
| WheelHistory.History.ClockIsTicks | src/core/timer.c:148 | the present tick of the wheel is the number of ticks that have happened |
| WheelHistory.History.SkippingIsSafe | src/worker/loop.c:211-216 | a wheel with num = 0 holds no timer (below 2^32 outstanding ones) |
| Clock.UpdateConserves | src/core/timer.c:201-218 | ticks * interval + remainder accounts for the elapsed time, remainder < interval, if and only if that time is below 2^31 ms |
| Clock.TimeIsConserved | src/core/timer.c:201-218 | the same over any sequence of updates |
| Clock.CutsDoNotMatter | src/core/timer.c:201-218 | however the time is cut into updates, the number of ticks is (elapsed / interval) |
| RegistrySpec.AlwaysOnSchedule | php_timer.c:58-68 | in every history each registered timer has fired at its first periods and is due at the next, or its callback runs |
| RegistrySpec.FiresPeriodically | php_timer.c:58-68 | a timer that is registered, added at tick a with period p, has fired at exactly a+p, a+2p, a+3p, ..., counting the ticks in the history; WholeLife says it of every timer |
| RegistrySpec.FiringsSoFar | php_timer.c:58-68 | and a registered timer has missed none: between ticks it has fired (now - a) / p times |
| RegistrySpec.WholeLife | php_timer.c:45-116 | of every timer ever added, in every history, with a the number of ticks before it was added and p its ticks (1 for 0): its id is its number among the added ones; it has fired at exactly a+p, a+2p, ..., a one-shot timer at most once; it is registered if and only if it was neither deleted, nor ended as a one-shot timer, nor caught by a reload; unless deleted it fired before it was dropped |
| RegistrySpec.StateFromLog | php_timer.c:58-65 | whether the worker is reloading is what the last such event says, and the callback that runs is the one that fired last and is not done |
| RegistrySpec.NeverFiresAgain | php_timer.c:45-56 | once out of the registry a timer fires no more, whatever follows |
| RegistrySpec.OneShotFiresOnce | php_timer.c:58-65 | a one-shot timer that is not deleted has fired exactly once, at a+p, when that tick is over, reload or not |
| RegistrySpec.MissesNothing | php_timer.c:58-68 | a timer that was not dropped has fired (now - a) / p times |
| PhpTimer.TimerService.TimerAdd | php_timer.c:104-116 | a fresh id, registered with one pending node that calls it back, due `ticks` ticks from now (one, if ticks = 0) |
| PhpTimer.TimerService.TimerDel | php_timer.c:45-56 | registry entry and node go together; an unknown id changes nothing |
| PhpTimer.TimerService.Sleep | src/coroutine/coroutine.c:421-428 | a node of another callback becomes pending, due `ticks` ticks from now (one, if ticks = 0), and the registry stays as it is |
| PhpTimer.TimerService.RunCommand | php_timer.c:71-133 | each command of user code does to table, wheel and history what it says |
| PhpTimer.EventsOf | php_timer.c:71-133 | a piece of user code is one event for each of its commands, in this order |
| PhpTimer.TimerService.StartCallback | php_timer.c:58-60 | the node that fires belongs to a registered timer that is due now, which loses it, or to another callback |
| PhpTimer.TimerService.EndCallback | php_timer.c:62-67 | the timer is forgotten or armed again as the state machine says |
| PhpTimer.TimerService.FireOne | src/core/timer.c:183-197 | one turn of the drain adds to the history the firing, then the user code of this callback, command by command, then its end; this is legal |
| PhpTimer.TimerService.CallBack | php_timer.c:58-68 | a callback is the firing, its user code, and its end, in this order |
| PhpTimer.TimerService.Tick | src/core/timer.c:146-198 | one tick is a legal history: the tick, then for k = 0, 1, ... the firing of the k-th callback with the user code that belongs to it; each timer fires exactly when due, and at the end nothing due is left |
| PhpTimer.LoopCountIsQuotient | src/core/timer.c:211-214 | the subtraction loop performs diff / interval ticks |
| PhpTimer.TimerService.Update | src/core/timer.c:201-218 | an update is a legal history made of exactly the ticks that Clock gives, each with its callbacks and their user code |
| TimerHistory.History.Run | php_timer.c:71-133 | user code outside of ticks adds its events to the history, which stays legal |
| TimerHistory.History.Update | src/core/timer.c:201-218 | an update adds to the history exactly the ticks that Clock gives, each followed by its firings with the user code of each callback, and the history stays legal; ticks * interval + remainder goes on to account for all time since the start if and only if less than 2^31 ms have passed |
| TimerHistory.History.EveryTimerLives | php_timer.c:45-116 | in every run of the timer service: ids and fire times as in WholeLife, in ticks that have happened, and the table holds exactly the timers not dropped |
| TimerHistory.History.NoPeriodIsMissed | php_timer.c:58-68 | and a timer in the table has fired once for each of its periods up to the wheel's present tick, which is the number of ticks that have happened |
| Coroutine.BooksCreate | src/coroutine/coroutine.c:53-58 | creating keeps the partition: each live coroutine is on the chain of calls or in the yield table, never both |
| Coroutine.BooksYield | src/coroutine/coroutine.c:291-294 | the running coroutine is never in the yield table, so the failing branch of yield is dead; yielding keeps the partition |
| Coroutine.BooksResume | src/coroutine/coroutine.c:314-318 | resuming keeps the partition |
| Coroutine.BooksEnd | src/coroutine/coroutine.c:341-347 | ending keeps the partition |
| Coroutine.BooksSuspended | src/coroutine/coroutine.c:314-317 | the yield table has the key of a live coroutine exactly if it is suspended |
| Coroutine.Scheduler.SwitchTo | src/coroutine/coroutine.c:70-77 | the current task becomes the origin and its C stack is the one that swap_out will return to |
| Coroutine.Scheduler.Leave | src/coroutine/context.c:30-61 | the saved swap_ctx_ leads back to the caller on top of the chain, which waits in swap_in for this very task |
| Coroutine.Scheduler.AfterSwapIn | src/coroutine/coroutine.c:81-88 | the assert after swap_in holds, and an ended task is closed |
| Coroutine.Scheduler.CloseCoro | src/coroutine/coroutine.c:341-360 | the PHP stack that is freed is the task's own; the origin's registers are restored |
| Coroutine.Scheduler.Create | src/coroutine/coroutine.c:32-90 | the next cid is one more, or 101 after the largest long; the new coroutine has it and runs on top of the chain; -1 with no change exactly if a live coroutine has the same cid modulo 2^32 |
| Coroutine.Scheduler.Resume | src/coroutine/coroutine.c:310-339 | a suspended coroutine runs on top of the chain with the registers it yielded; any other live one gives false and no change |
| Coroutine.Scheduler.Yield | src/coroutine/coroutine.c:287-305 | control, current_task and the registers are again those of the caller of create or resume |
| Coroutine.Scheduler.End | src/coroutine/context.c:30-42 | the same at the end, and the coroutine leaves all tables; total_num stays the size of coroutines |
| Coroutine.CallsStayInProgress | src/coroutine/coroutine.c:70-90 | while the chain is longer, the calls below stay as they are |
| Coroutine.ReturnsAsCalled | src/coroutine/coroutine.c:70-90 | for every nesting of create, resume, yield and end: when a create or resume returns, chain, current task and registers are those at the call |
| Coroutine.ResumedAsYielded | src/coroutine/coroutine.c:287-339 | a coroutine that is resumed continues with the registers it had when it yielded |
| CoroutineHistory.History.Create | src/coroutine/coroutine.c:32-90 | the n-th call of create takes the cid n, for n < 2^63; it is refused exactly if a live coroutine with another cid has the same modulo 2^32, so never among the first 2^32 calls; a creation is a switch Creates of the history, a refused one none |
| CoroutineHistory.History.Resume | src/coroutine/coroutine.c:310-339 | a resume is a switch Resumes, a refused one none |
| CoroutineHistory.History.Yield | src/coroutine/coroutine.c:287-305 | a yield is a switch Yields |
| CoroutineHistory.History.End | src/coroutine/context.c:30-42 | an end is a switch Ends |
| CoroutineHistory.History.CidsNeverRepeat | src/coroutine/coroutine.c:46-50 | no two coroutines of the first 2^63 - 1 calls of create get the same cid, ended ones included |
| CoroutineHistory.NextCid | src/coroutine/coroutine.c:46-50 | in closed form, over any number of overflows: the cids count up from 1 and then go round from 101 to the largest long |
| CoroutineHistory.History.EveryCallReturns | src/coroutine/coroutine.c:70-90 | in every run of the scheduler, when a create or resume returns, cpu, current task, chain and registers are those at that call |
| ChannelSpec.StepIsSafe | src/coroutine/channel.c:23-127 | every step keeps the channel safe |
| ChannelSpec.AlwaysSafe | src/coroutine/channel.c:23-127 | in all runs, with any timeouts and foreign resumes: num <= capacity; values pushed with result true = values popped followed by the buffer; an armed timer record belongs to the sleep it was made for |
| ChannelSpec.WhenCallsSleep | src/coroutine/channel.c:23-57 | a push sleeps exactly on a full buffer and a pop on an empty one, with an armed record of its own coroutine if it has a timeout; otherwise it ends at once |
| ChannelSpec.WakeEnds | src/coroutine/channel.c:41-57 | whoever resumes a sleeper, its call ends with one answer: true or the first value exactly if there is room or a value; its timer will not wake it again |
| ChannelSpec.CallsAreAnswered | src/coroutine/channel.c:23-127 | in every run the k-th answer of each coroutine answers its k-th call, a push with its own value; all calls are answered but for the one in which it sleeps, and that has a ticket exactly if it has a timeout |
| ChannelSpec.TimersEndCalls | src/coroutine/channel.c:174-185 | in every run who sleeps in a call with a timeout has an armed record, and the timer of that record ends the call with one answer, and no other call |
| ChannelSpec.StepIsOrderly | src/coroutine/channel.c:23-127 | one step keeps the channel orderly (queues hold exactly the sleepers, waiting implies empty or full, no call has failed) if and only if it is not a resume from outside; such a resume makes a call fail |
| ChannelSpec.NoWakeUpIsLost | src/coroutine/channel.c:23-127 | in runs where only the channel wakes its sleepers: a waiting consumer implies an empty buffer, a waiting producer a full one, a woken call finds what it waits for, and no push or pop ever fails |
| ChannelSpec.WokenInOrder | src/coroutine/channel.c:63-71 | in such runs the channel wakes its consumers in the order in which they fell asleep, and its producers too |
| ChannelSpec.StepIsServed | src/coroutine/channel.c:63-71 | from any safe state in which no wake-up is lost, a step loses one (somebody sleeps in pop beside a value, or in push beside a free place) if and only if it is a push or pop that finds a stale entry, or none, at the head of the queue while somebody sleeps there; timeouts and other resumes never do |
| ChannelSpec.ServedThroughout | src/coroutine/channel.c:23-127 | over every run: no wake-up is ever lost if and only if every push and pop found a live sleeper at the head whenever somebody slept there |
| ChannelSpec.OrderlyHeadsSleep | src/coroutine/channel.c:23-127 | as long as only the channel resumes its sleepers the heads of its queues are live |
| ChannelSpec.TimeoutLosesWakeUp | src/coroutine/channel.c:174-185 | a run with one timeout after which a push finds a stale head and a consumer sleeps beside a value |
| ChannelHistory.History.Push | src/coroutine/channel.c:23-74 | a call of push on the channel is the step Push of its recorded run |
| ChannelHistory.History.Pop | src/coroutine/channel.c:77-127 | a call of pop is the step Pop |
| ChannelHistory.History.Handover | src/coroutine/channel.c:41-73 | a sleeper resumed by the channel takes the step Handover |
| ChannelHistory.History.Timeout | src/coroutine/channel.c:174-185 | a timer takes the step Timeout |
| ChannelHistory.History.Resume | src/coroutine/channel.c:41-73 | a resume by other code is the step Resume |
| ChannelHistory.History.ChannelIsSafe | src/coroutine/channel.c:23-127 | whatever was called, the channel is safe: bounded, in order, nothing lost or made up |
| ChannelHistory.History.ChannelIsServed | src/coroutine/channel.c:23-127 | no wake-up is lost on it if the heads were live in its run, in particular if nobody else resumed its sleepers |
| ChannelHistory.History.ChannelAnswers | src/coroutine/channel.c:23-127 | on the channel object each call of each coroutine has been answered, but for the one in which it sleeps |
| ChannelHistory.History.TimerEndsCall | src/coroutine/channel.c:174-185 | and a sleeper whose call has a timeout has an armed record, whose timer ends the call |
| ChannelHistory.History.ChannelWakesInOrder | src/coroutine/channel.c:63-71 | and it wakes its sleepers in the order in which they came, if nobody else resumes them |
| Channel.Channel.Push | src/coroutine/channel.c:23-74 | the code on three queues takes the step Push of the state machine; the caller sleeps exactly on a full buffer, and then with an armed record if it has a timeout |
| Channel.Channel.Pop | src/coroutine/channel.c:77-127 | takes the step Pop, and returns the first value; the caller sleeps exactly on an empty buffer, and then with an armed record if it has a timeout |
| Channel.Channel.Store | src/coroutine/channel.c:57-71 | commits one value and hands over to the first waiting consumer |
| Channel.Channel.Fetch | src/coroutine/channel.c:110-126 | takes the first value and hands over to the first waiting producer |
| Channel.Channel.RetryPush | src/coroutine/channel.c:52-73 | after waking: false exactly if the buffer is still full |
| Channel.Channel.RetryPop | src/coroutine/channel.c:105-126 | after waking: NULL exactly if the buffer is still empty |
| Channel.Channel.Timeout | src/coroutine/channel.c:174-185 | a timer wakes its sleeper only if the record is still armed |
| Channel.Channel.constructor | src/coroutine/channel.c:12-20 | an empty channel |
| Pool.Pool.constructor | examples/Workerman/Db/AbstractPool.php:68-77 | an empty pool with these limits on a channel of capacity max + 1 |
| Pool.Pool.BeginCreate | examples/Workerman/Db/AbstractPool.php:46-53 | count is raised before createDb, and only below max |
| Pool.Pool.EndCreate | examples/Workerman/Db/AbstractPool.php:53-61 | a new object always finds room in the channel; a failed one is counted off |
| Pool.Pool.Pop | examples/Workerman/Db/AbstractPool.php:128-140 | count = idle + lent + being created + being closed is kept when an object is lent, with or without a timeout |
| Pool.Pool.Wake | examples/Workerman/Db/AbstractPool.php:134-140 | and when a caller that waited goes on, with or without an object |
| Pool.Pool.Drop | examples/Workerman/Db/AbstractPool.php:141-146 | an object that fails its check leaves the count |
| Pool.Pool.Put | examples/Workerman/Db/AbstractPool.php:162-165 | giving back never waits and never fails, and the object is idle again |
| Pool.Pool.EndClose | examples/Workerman/Db/AbstractPool.php:176-183 | a closed object leaves the count |
| Pool.Pool.MarkUsed | examples/Workerman/Db/AbstractPool.php:149-153 | the peak counts the objects that are not idle |
| Pool.Pool.NeverFull | examples/Workerman/Db/AbstractPool.php:77-81 | idle <= count <= max < capacity of the channel |
| Pool.PushHasRoom | src/coroutine/channel.c:52-57 | on a safe channel below its capacity a push neither sleeps nor is refused |
| PidTables.StrikeOff | src/worker.c:292-299 | striking off a listed pid lowers the number of nonzero entries by one, and changes the first only if it was the first |
| PidTables.PutNew | src/worker.c:335-341 | filling an empty slot with a new pid keeps every pid in one slot |
| PidTables.PutZero | src/worker.c:269-272 | emptying the slot of a reaped pid leaves exactly the others |
| PidTables.FirstKept | src/worker.c:1124-1151 | of all pids in table order, the first one kept is the first one of a reloadable worker |
| PidTables.FirstReloadableIs | src/worker.c:1124-1151 | that is the first process of the first reloadable worker that has any |
| Reload.Master.constructor | src/worker.c:729-747 | every worker has max(1, count) processes, all forked |
| Reload.Master.GetKeyByPid | src/worker.c:416-428 | the first slot with this pid, or -1 exactly if there is none |
| Reload.Master.ForkWorkers | src/worker.c:316-330 | afterwards no slot is 0, old pids keep their slots, new ones are fresh |
| Reload.Master.GetAllWorkerPids | src/worker.c:396-411 | lists exactly the unreaped children, each once, in the order of the tables |
| Reload.Master.Reload | src/worker.c:1095-1161 | keeps the listed pids of reloadable workers, signals the first of them and every process of the other workers and nobody else, or ends the round exactly if there is no pid left |
| Reload.Master.Sigusr1 | src/worker.c:1196-1203 | at any time: the list becomes the unreaped pids of the reloadable workers, the first in table order and every process of the other workers are signalled, and nobody else; a signal during a round keeps to one process at a time if and only if that first one is the one already signalled |
| Reload.Master.ClearSlot | src/worker.c:268-287 | the reaped pid leaves its slot, everything else stays |
| Reload.Master.Advance | src/worker.c:292-299 | a listed pid is struck off and the next one signalled; nonzero entries fall by exactly one |
| Reload.Master.Reap | src/worker.c:262-301 | a monitor pass for any child keeps the whole invariant although fork and reload run once for every worker: all tables full, distinct and unreaped, every other child in its slot; exactly this pid is struck off the list, and nothing is signalled if it was not there; and if at most one live process of a reloadable worker was signalled before, then after |
| Reload.Master.RoundIsOver | src/worker.c:1152-1157 | the master is RUNNING again if and only if all snapshot pids have been reaped |
| Reload.Master.NeverTwoAtOnce | src/worker.c:1141-1159 | of all processes of reloadable workers at most one has been signalled and lives on |
| Reload.Master.OneIsAsked | src/worker.c:1141-1159 | while RELOADING the first nonzero entry has been signalled and lives on, at a reloadable worker |
| Reload.Master.FullyStaffed | src/worker.c:316-330 | every worker's table has exactly count distinct unreaped pids |
| Frames.UnmaskMasked | examples/Workerman/Protocols/Websocket.php:302-320 | the repeated key string unmasks what section 5.3 of RFC 6455 masks, for every 4-byte key and every length |
| Frames.ZeroKey | examples/Workerman/Protocols/Ws.php:235-255 | the client's zero key leaves the payload as it is |
| Frames.Unpack16Packed | examples/Workerman/Protocols/Websocket.php:126-127 | unpack("n") of pack("n") is the low 16 bits |
| Frames.Unpack32Packed | examples/Workerman/Protocols/Websocket.php:134-135 | unpack("N") of pack("N") is the low 32 bits |
| Frames.LengthFromBytes | examples/Workerman/Protocols/Websocket.php:119-137 | the payload length is read back in both extended forms |
| Frames.ParseHead | examples/Workerman/Protocols/Websocket.php:65-138 | of any buffer that starts like a frame of section 5.2, either side finds FIN, opcode and total length as soon as the head is there, else asks for more |
| Frames.PayloadOfWire | examples/Workerman/Protocols/Websocket.php:302-320 | decode returns the payload of every well-formed frame, in each length form and under each mask |
| Frames.EncodeClientIsWire | examples/Workerman/Protocols/Ws.php:228-255 | the client's encoding is the frame with that payload, for all payloads below 2^64 bytes |
| Frames.EncodeServerIsWire | examples/Workerman/Protocols/Websocket.php:231-250 | the server's is, if and only if the payload is shorter than 2^32 bytes |
| WireFormat.NetworkByteOrder | examples/Workerman/Protocols/Websocket.php:126-136 | pack and unpack put the most significant octet first |
| WireFormat.XorBit | examples/Workerman/Protocols/Websocket.php:318-320 | bit i of the exclusive or is set exactly if the two bits differ |
| WireFormat.ParsedExactly | examples/Workerman/Protocols/Websocket.php:65-138 | the verdict on every buffer: mask bit first, then opcode, then length, each read off its octets |
| WireFormat.RefusedFramesClose | examples/Workerman/Protocols/Websocket.php:72-145 | a frame closes the connection, and nothing more is delivered, sent or consumed, exactly if its mask bit is wrong for the reader, its opcode is none of 0, 1, 2, 8, 9, 10, or it exceeds maxPackageSize together with the kept fragments; otherwise only a close frame does |
| WireFormat.EncodedOctets | examples/Workerman/Protocols/Websocket.php:231-250 | the octets of every encoded message: type, mask bit, shortest length form in network byte order, zero mask for the client, payload |
| WireFormat.PingIsAnswered | examples/Workerman/Protocols/Websocket.php:148-171 | a ping between messages is answered by a final pong frame with its payload, right for the other side |
| RoundTrip.EncodedIsDecoded | examples/Workerman/Protocols/Websocket.php:45-146 | input on an encoded frame, whatever follows it, returns its length (server to client: if and only if below 2^32), and decode returns the payload |
| RoundTrip.LongIsCutShort | examples/Workerman/Protocols/Websocket.php:247-249 | a payload of 2^32 bytes or more is announced with the low 32 bits of its length |
| RoundTrip.ControlBetweenMessagesOnly | examples/Workerman/Protocols/Websocket.php:147-199 | one ping or pong is taken right if and only if websocketDataBuffer is empty; otherwise it swallows what was buffered |
| WebSocketSpec.InputKeepsConsistent | examples/Workerman/Protocols/Websocket.php:45-224 | a remembered frame length is that of the frame at the front, and a nonzero result is the length of the frame found there |
| WebSocketSpec.ArriveKeepsConsistent | examples/Workerman/Protocols/Websocket.php:58-64 | more bytes do not change the length found |
| Reassembly.InputInSync | examples/Workerman/Protocols/Websocket.php:45-224 | recursive input consumes exactly the complete fragments and control frames at the front, then asks for exactly the last frame of a message or waits |
| Reassembly.RightIfUninterrupted | examples/Workerman/Protocols/Websocket.php:147-199 | for every list of frames, what the code makes of them (a ping or pong takes the kept fragments with it) is what section 5.4 of RFC 6455 means by them if and only if no ping or pong comes while fragments with payload are kept |
| Reassembly.MessagesAreReassembled | examples/Workerman/Protocols/Websocket.php:204-224 | for every legal list of frames, control frames anywhere, and every cut of its bytes into pieces: the receive buffer is empty at the end, and exactly the right messages, pings, pongs and unfinished fragments have come out if and only if no ping or pong came while fragments with payload were kept |
| Reassembly.FragmentsMakeOneMessage | examples/Workerman/Protocols/Websocket.php:321-330 | data frames of which only the last is final make one message, the concatenation of all payloads, and leave websocketDataBuffer empty |
| WebSocket.Connection.Decode | examples/Workerman/Protocols/Websocket.php:302-330 | returns the kept fragments and the payload, and keeps them exactly while a fragment is being read |
| WebSocket.Connection.Input | examples/Workerman/Protocols/Websocket.php:45-224 | the method on the connection object does what the function Input says |
| WebSocket.Connection.TakeControl | examples/Workerman/Protocols/Websocket.php:147-197 | ping and pong branches: the payload is handed on, a ping without callback is answered by a pong |
| RoundTrip.CloseFrameStops | examples/Workerman/Protocols/Websocket.php:89-105 | at a close frame, in any form and under any mask, the receiver stops: however much arrives nothing more is delivered or consumed; without a callback the connection is closed, by the server with status 1000 |
| WebSocket.Connection.InputFragment | examples/Workerman/Protocols/Ws.php:201-221 | the tail of input for a frame whose length is known |
| WebSocket.Connection.Receive | examples/Workerman/Protocols/Ws.php:46-221 | a receiver that waits for the returned length reaches the state of the function Drain |

## Left out

- PHP and Zend glue, epoll, sockets, files, logging, argument parsing, HTTP classes, sessions and SQL: no invariants of their own.
- Memory: allocation always succeeds and freed memory is not modelled. `wmQueue_pop` reads the value after freeing the node
  (read before here); a channel call that timed out clears a record that its timer has freed (the record is kept here); and after a timeout a channel's queue may
  hold a coroutine that has since ended and been freed, which src/coroutine/channel.c:63-71 then resumes (refused here).
- Khash.KHash.Put: keys have 32 bits and n_buckets <= 2^30 on entry; upper_bound is (77 n + 50) / 100, which equals the floating-point form for powers of two from 4 on.
- `wmTimerWheel_clear`: its second loop empties the first wheel again (src/core/timer.c:247) instead of the outer ones, so it does not clear the wheel.
- TimerWheel.TimerWheel.Del: `num` is not decremented by the source, so only num >= pending is claimed (modulo 2^32).
- The order of timers that are due at the same tick, and wall-clock delays after the wheel was idle: not promised by the code.
- PhpTimer.TimerService.TimerAdd: timer ids are unbounded and not cut to 32 bits in the registry, so the add to the hash table never fails.
- PhpTimer.TimerService.TimerDel: not for the timer whose callback has not yet returned or yielded; the source would free it and then read it (php_timer.c:61-62), which has no defined result.
- PhpTimer.TimerService.FireOne: for the same reason no callback deletes its own timer before it returns or first yields.
- PhpTimer.TimerService.Tick: the same.
- PhpTimer.TimerService.Update: the same.
- The conversion of seconds (a double) to ticks, for timers, sleeps and channel timeouts: ticks are any 32-bit number; a channel call only has a timeout or none, and its timer comes at any time.
- PhpTimer.TimerService.Sleep: which coroutine a sleeping node wakes is not recorded, only that a node woke; when it does is WheelHistory.History.EveryTimerIsOnTime.
- Coroutine.Scheduler.Resume: the argument is a live coroutine and not the current one, which the source asserts or its callers look up; Coroutine.Scheduler.Yield is not called by the main task.
- The boost context switch is an abstract jump: a context names a C stack, and each stack knows where it will continue. Deferred functions of a coroutine are part of its user code.
- The coroutine tables and the timer registry are maps here; that the hash table is a map is proved in Khash.
- Channel.Channel.Push: the channel steps do not follow C stacks; who runs after a hand-over is the woken sleeper, as proved in Coroutine. A coroutine that notifies its own stale queue entry (possible after a timeout) would fail the assert in resume; here such a resume is refused.
- `wmChannel_clear` and `wmChannel_free`.
- Pool.Pool.Put: callers give back only what they were lent, each object once; objects are counted, not identified.
- Reload: SIGINT, the SIGKILL after two seconds, reuse of pids, failing forks and stopped children; signals arrive between monitor passes. The children's side of `reload` is not modelled.
- Reload.Master.Reload: the kills of non-reloadable workers are recorded only as a set of pids.
- WebSocket handshake and anything before it; `wmConnection_read` and `wmConnection_consumeRecvBuffer`: the model's receive buffer is consumed from the front, as php_connection.c:178 documents, and not as src/worker/connection.c does.
- WebSocket.Connection.Input: callbacks observe only; lengths above 2^63, which PHP turns into floats, are exact here (both exceed maxPackageSize); the mask 0xFFFFFFFF00000000 of Ws.php, which PHP reads as a float, is taken as the 64-bit mask it stands for.
- Reassembly.MessagesAreReassembled: no close frame among the frames (see RoundTrip.CloseFrameStops).
