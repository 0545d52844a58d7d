# Android Bluetooth Classic service, modelled in Dafny

The BtClassicScanner app finds Bluetooth Classic devices (barcode scanners) on
Android, pairs with one over an RFCOMM serial-port socket and hands the bytes it
reads to the app. Its logic is in two classes:

- `AndroidBluetoothService` handles several things:
  - a discovery state machine over four flags (discovering, running, stopping,
    canceling) with guarded start and stop, and bounded 20-step confirmation
    polls of the adapter;
  - the started, finished and found broadcast handlers and the discovery timeout;
  - a list of discovery subscriptions with append, remove-by-id and snapshot
    fan-out;
  - a single-permit gate around pairing, listing bonded devices and
    disconnecting;
  - the active-device slot;
  - a background reader that publishes byte chunks.
- `BluetoothDeviceInfo` wraps a native device and carries the paired flag, the
  connected flag and the connected socket. Its `IsConnected` is true only while
  the flag is set and a socket is held.

The model is split into these files:

- `wrappers.dfy` holds `Option` and `Result`.
- `device_info.dfy` holds the device handle, as a class.
- `polling.dfy` holds the meaning of the two confirmation polls.
- `subscribers.dfy` holds the subscriber list and fan-out as values.
- `byte_stream.dfy` holds what each read publishes.
- `bluetooth_service.dfy` holds the service, as a class whose methods update
  its fields in place.
- `scenarios.dfy` holds two runs of the service that show the receiver leak
  described below.

Modelling choices:

- The process-wide static flags of the source are fields of the one service
  object.
- Each `lock` or semaphore section is one atomic step.
- Every answer from the platform is a parameter of the operation that receives
  it. These answers are:
  - the permission status and whether a default adapter exists;
  - the `StartDiscovery()` result and the 20 successive `IsDiscovering` poll
    answers;
  - the created socket and whether `Connect()` returns;
  - the bonded device set;
  - the script of read results.
- The gate's permit is the field `gateFree`, plus a ghost count of
  acquisitions. `Valid()` demands that the permit is free between operations,
  which is the "released on every path" property.
- `Consistent()` is the invariant every operation preserves:
  - stopping implies discovering;
  - registered receivers and an active device imply a resolved adapter;
  - a live reader implies an input stream.
- Thrown exceptions are `Failure` results.
- Broadcast receivers are counted, not named:
  - `receiversRegistered` says whether the set held in the receiver fields is
    registered;
  - `leakedReceiverSets` counts sets that a later start overwrote while they
    were still registered;
  - the platform delivers each broadcast once to each live set
    (`LiveReceiverSets()`).

  The started, finished and found handlers are therefore one delivery each.
  `BroadcastDeviceFound` is the whole found broadcast, one delivery per live
  set.
- The confirmation polls are one method, `AwaitAdapter`. Stop clears its two
  flags right after the poll that sees the adapter idle rather than inside
  the loop, which leaves the same state.

Behaviours of the code that the model keeps as written:

- The stop no-op branch polls `_adapter.IsDiscovering` without resolving the
  adapter first. Stopping before any adapter lookup therefore fails (`NullAdapter`).
- A start or stop that fails after its guard does not roll back the flag it set.
  A stop whose 20 polls never see the adapter idle leaves the stopping flag set,
  so every later start and stop is a no-op (the "stuck stopping" latch).
- A start that the adapter refuses, or never confirms, ends with discovering
  clear but its receiver set registered. The next start registers a new set
  over it, and stop unregisters only that new set. The old set stays live
  for good:
  - every subscriber then hears of each found device once per live set;
  - the old set's started and finished handlers keep firing after a stop.

  `Scenarios.LeakedSetOutlivesStop` and `Scenarios.SubscriberHearsTwice`
  show this.
- The finished receiver is an `async void` lambda. If its nested stop throws,
  the handler ends with both running and canceling still set.
- Disconnect leaves the handle's own flags and socket alone, because the
  handle's `Dispose` does nothing. A later pairing with the same handle
  therefore short-circuits.

## Model

| member | source | states |
|---|---|---|
| DeviceInfo.BluetoothDeviceInfo.constructor | BtClassicScanner/BtClassicScanner.Android/Models/BluetoothDeviceInfo.cs:20-28 | the handle wraps the given device, held in a `const` that is never reassigned, so name and address always come from it; it starts unpaired, with the flag clear and no socket |
| DeviceInfo.BluetoothDeviceInfo.Create | BtClassicScanner/BtClassicScanner.Android/Models/BluetoothDeviceInfo.cs:27 | a null native device is refused, and exactly then; otherwise a fresh, unconnected handle over that device |
| DeviceInfo.BluetoothDeviceInfo.IsConnected | BtClassicScanner/BtClassicScanner.Android/Models/BluetoothDeviceInfo.cs:13-15 | connected implies that a socket is held and that the stored flag is set |
| DeviceInfo.BluetoothDeviceInfo.SetIsPaired | BtClassicScanner/BtClassicScanner.Android/Models/BluetoothDeviceInfo.cs:10 | sets the paired flag and may change nothing else |
| DeviceInfo.BluetoothDeviceInfo.SetIsConnected | BtClassicScanner/BtClassicScanner.Android/Models/BluetoothDeviceInfo.cs:16 | stores the flag without checking the socket; afterwards connected iff value and a socket is held |
| DeviceInfo.BluetoothDeviceInfo.SetConnectedSocket | BtClassicScanner/BtClassicScanner.Android/Models/BluetoothDeviceInfo.cs:19 | stores the socket only; clearing it makes the handle not connected whatever the flag |
| DeviceInfo.BluetoothDeviceInfo.Dispose | BtClassicScanner/BtClassicScanner.Android/Models/BluetoothDeviceInfo.cs:30-33 | changes no state |
| Polling.FirstIndex | BtClassicScanner/BtClassicScanner.Android/Services/AndroidBluetoothService.cs:480-488 | the first poll answer equal to the awaited one; every earlier answer differs |
| Polling.PollsUntil | BtClassicScanner/BtClassicScanner.Android/Services/AndroidBluetoothService.cs:541-554 | a loop that breaks on the awaited answer makes between 1 and 20 polls; its last answer is the awaited one iff one came; it stops early only on it |
| Subscribers.Without | BtClassicScanner/BtClassicScanner.Android/Services/AndroidBluetoothService.cs:71-82 | the entries left after removal by id: exactly those with another id, never more than before |
| Subscribers.Matching | BtClassicScanner/BtClassicScanner.Android/Services/AndroidBluetoothService.cs:75-76 | the snapshot to remove: exactly the entries carrying the id |
| Subscribers.RemoveFirst | BtClassicScanner/BtClassicScanner.Android/Services/AndroidBluetoothService.cs:79 | `List.Remove` takes out one occurrence (multiset difference) and leaves a list without it unchanged |
| Subscribers.WithoutRemoveFirst | BtClassicScanner/BtClassicScanner.Android/Services/AndroidBluetoothService.cs:77-80 | removing one entry with the id does not disturb the other entries or their order |
| Subscribers.MatchingRemoveFirst | BtClassicScanner/BtClassicScanner.Android/Services/AndroidBluetoothService.cs:77-80 | removing one entry with the id removes it from the still-matching entries |
| Subscribers.RemoveOneMatching | BtClassicScanner/BtClassicScanner.Android/Services/AndroidBluetoothService.cs:77-79 | one step of the removal loop: the rest of the snapshot is exactly what still matches |
| Subscribers.NoMatchingIsFixed | BtClassicScanner/BtClassicScanner.Android/Services/AndroidBluetoothService.cs:71-82 | once nothing carries the id, the list is what removal by id would leave |
| Subscribers.NoneMatching | BtClassicScanner/BtClassicScanner.Android/Services/AndroidBluetoothService.cs:75-76 | a list in which no entry has the id yields an empty snapshot |
| Subscribers.WithoutAppend | BtClassicScanner/BtClassicScanner.Android/Services/AndroidBluetoothService.cs:71-82 | removal keeps order: it acts on each part of a concatenation separately |
| Subscribers.WithoutIdempotent | BtClassicScanner/BtClassicScanner.Android/Services/AndroidBluetoothService.cs:71-82 | disposing the same subscription twice removes nothing more |
| Subscribers.SubscribeThenRemove | BtClassicScanner/BtClassicScanner.Android/Services/AndroidBluetoothService.cs:711-721 | subscribing with a fresh token and then disposing it restores the list |
| Subscribers.CompletedAll | BtClassicScanner/BtClassicScanner.Android/Services/AndroidBluetoothService.cs:513-520 | exactly one completion per snapshot entry, in list order |
| Subscribers.NextAll | BtClassicScanner/BtClassicScanner.Android/Services/AndroidBluetoothService.cs:413-420 | exactly one `Next(device)` per snapshot entry, in list order |
| Subscribers.NextRoundsSnoc | BtClassicScanner/BtClassicScanner.Android/Services/AndroidBluetoothService.cs:405-423 | one more delivery of a found broadcast appends its `Next` calls after those of the earlier deliveries |
| Subscribers.NextRoundsLength | BtClassicScanner/BtClassicScanner.Android/Services/AndroidBluetoothService.cs:405-423 | each delivery reaches every snapshot subscriber once, so n deliveries make n times as many `Next` calls as there are subscribers |
| ByteStream.ToBytes | BtClassicScanner/BtClassicScanner.Android/Services/AndroidBluetoothService.cs:284 | same length, each character narrowed to its low eight bits |
| ByteStream.Chunk | BtClassicScanner/BtClassicScanner.Android/Services/AndroidBluetoothService.cs:284 | `Take(count)`: empty for count at most 0, `count` bytes when the buffer is long enough, otherwise the whole buffer, each byte the narrowed character |
| ByteStream.Emit | BtClassicScanner/BtClassicScanner.Android/Services/AndroidBluetoothService.cs:280-285 | an iteration publishes at most one chunk, and does so iff the read succeeded with a positive count |
| ByteStream.Emitted | BtClassicScanner/BtClassicScanner.Android/Services/AndroidBluetoothService.cs:274-301 | a run of iterations publishes at most one chunk per read |
| ByteStream.EmittedSnoc | BtClassicScanner/BtClassicScanner.Android/Services/AndroidBluetoothService.cs:274-301 | each iteration appends what it publishes after everything published before |
| ByteStream.FailureIndex | BtClassicScanner/BtClassicScanner.Android/Services/AndroidBluetoothService.cs:288-297 | the first read that throws; every earlier read succeeded |
| ByteStream.EmittedChunksBounded | BtClassicScanner/BtClassicScanner.Android/Services/AndroidBluetoothService.cs:280-284 | every published chunk is non-empty and at most 1024 bytes |
| BluetoothService.AndroidBluetoothService.constructor | BtClassicScanner/BtClassicScanner.Android/Services/AndroidBluetoothService.cs:32-67 | all flags clear, no adapter, no live receiver set, no timer, no subscribers, empty slot, no reader, gate free |
| BluetoothService.AndroidBluetoothService.IsDiscovering | BtClassicScanner/BtClassicScanner.Android/Services/AndroidBluetoothService.cs:382 | reports discovery only while the adapter affirmed it and the started broadcast has arrived (both flags set); a finished broadcast whose stop succeeds makes it false |
| BluetoothService.AndroidBluetoothService.CheckAdapter | BtClassicScanner/BtClassicScanner.Android/Services/AndroidBluetoothService.cs:84-92 | the adapter is resolved once and kept; the call fails exactly while none exists |
| BluetoothService.AndroidBluetoothService.AwaitAdapter | BtClassicScanner/BtClassicScanner.Android/Services/AndroidBluetoothService.cs:480-488 | a poll loop bounded at 20 that leaves at the awaited answer: it makes `PollsUntil` polls, returns the last answer, and that answer is the awaited one iff some poll gave it |
| BluetoothService.AndroidBluetoothService.Subscribe | BtClassicScanner/BtClassicScanner.Android/Services/AndroidBluetoothService.cs:711-721 | a null observer is rejected with the list unchanged; otherwise exactly one entry is appended and returned |
| BluetoothService.AndroidBluetoothService.RemoveDiscoverySubscriber | BtClassicScanner/BtClassicScanner.Android/Services/AndroidBluetoothService.cs:71-82 | the repeated `List.Remove` leaves exactly `Without(old list, id)` |
| BluetoothService.AndroidBluetoothService.NotifyAllCompleted | BtClassicScanner/BtClassicScanner.Android/Services/AndroidBluetoothService.cs:513-520 | delivers `CompletedAll` of the snapshot after earlier notifications |
| BluetoothService.AndroidBluetoothService.NotifyAllNext | BtClassicScanner/BtClassicScanner.Android/Services/AndroidBluetoothService.cs:413-420 | delivers `NextAll` of the snapshot for the device after earlier notifications |
| BluetoothService.AndroidBluetoothService.StartDeviceDiscovery | BtClassicScanner/BtClassicScanner.Android/Services/AndroidBluetoothService.cs:386-495 | guard: a no-op returning discovering and not stopping. Past the guard a failure keeps the discovering flag set and changes no receiver, timer or poll count. Permission denied leaves the adapter alone; with permission the adapter is resolved iff one existed or a default exists, and fails exactly without one. Otherwise a new receiver set is registered, leaking the previous one if it was still registered, so live sets grow by one; the timeout is armed for a positive value; and the flag equals the last poll answer, true iff the start was accepted and a poll confirmed |
| BluetoothService.AndroidBluetoothService.StopDeviceDiscovery | BtClassicScanner/BtClassicScanner.Android/Services/AndroidBluetoothService.cs:497-568 | via `StopOutcome`. Stopping latches, and subscriptions and leaked sets are untouched. Active branch: the timer is disarmed, and the adapter is resolved iff one existed or a default exists. A missing adapter fails with both flags still set. Otherwise every snapshot subscriber is completed once, in order; only the referenced receiver set is unregistered; and both flags are cleared iff a poll saw the adapter idle, which is the result. No-op branch: no flag, notification, registration or adapter changes; it fails without a resolved adapter and otherwise reports whether a poll saw the adapter idle |
| BluetoothService.AndroidBluetoothService.OnDiscoveryStarted | BtClassicScanner/BtClassicScanner.Android/Services/AndroidBluetoothService.cs:425-430 | one delivery to one live receiver set, leaked ones included: with none live nothing changes; otherwise running is set and canceling cleared |
| BluetoothService.AndroidBluetoothService.OnDiscoveryFinished | BtClassicScanner/BtClassicScanner.Android/Services/AndroidBluetoothService.cs:432-442 | one delivery to one live receiver set: with none live nothing changes. A session not running, or already canceling, keeps its discovery state, timer and canceling flag and ends with running clear. Otherwise canceling is set around a stop whose outcome is exactly `StopOutcome`; both flags end clear, so `IsDiscovering` is false, unless the stop threw, and then both stay set |
| BluetoothService.AndroidBluetoothService.OnDiscoveryTimeout | BtClassicScanner/BtClassicScanner.Android/Services/AndroidBluetoothService.cs:456-466 | fires only when armed, otherwise nothing changes; it disarms the timer, and the discovery state then changes exactly as stop's `StopOutcome` says, result included |
| BluetoothService.AndroidBluetoothService.OnDeviceFound | BtClassicScanner/BtClassicScanner.Android/Services/AndroidBluetoothService.cs:405-423 | one delivery to one live receiver set: with none live nothing is delivered; a null device throws with nothing changed; otherwise a fresh, unconnected handle for that device goes to every snapshot subscriber in order |
| BluetoothService.AndroidBluetoothService.NotifyFound | BtClassicScanner/BtClassicScanner.Android/Services/AndroidBluetoothService.cs:407-421 | the found receiver's body: a fresh handle over the device, unpaired and without a socket, sent as `Next` to every snapshot subscriber in order |
| BluetoothService.AndroidBluetoothService.BroadcastDeviceFound | BtClassicScanner/BtClassicScanner.Android/Services/AndroidBluetoothService.cs:405-423 | the found broadcast reaches every live receiver set, leaked ones included: one fresh handle per live set, each sent to every snapshot subscriber in order (`NextRounds`); a null device throws at the first delivery; with no live set nothing happens |
| BluetoothService.AndroidBluetoothService.NotifyFoundRounds | BtClassicScanner/BtClassicScanner.Android/Services/AndroidBluetoothService.cs:405-423 | n deliveries in a row give n fresh handles over the device and append exactly their `NextRounds` |
| BluetoothService.AndroidBluetoothService.PairWithDevice | BtClassicScanner/BtClassicScanner.Android/Services/AndroidBluetoothService.cs:570-640 | null rejected; already paired and connected gives true without taking the gate; otherwise the gate is taken once and released; true iff adapter, socket and connect all succeed, and then paired, connected, socket, active slot and reader set; failure changes none of them |
| BluetoothService.AndroidBluetoothService.ConnectWithPairedDevice | BtClassicScanner/BtClassicScanner.Android/Services/AndroidBluetoothService.cs:642-644 | the same outcome as pairing |
| BluetoothService.AndroidBluetoothService.ConnectDeviceToSocket | BtClassicScanner/BtClassicScanner.Android/Services/AndroidBluetoothService.cs:219-326 | no socket gives false without a connect attempt; true iff a socket exists and connect returns, and then the handle and the slot are set and, with a callback, a live reader on that socket |
| BluetoothService.AndroidBluetoothService.GetPairedDevices | BtClassicScanner/BtClassicScanner.Android/Services/AndroidBluetoothService.cs:646-673 | under the gate: one fresh paired, unconnected handle per bonded device, in order; none when the set is missing; fails without an adapter |
| BluetoothService.AndroidBluetoothService.DisconnectDevice | BtClassicScanner/BtClassicScanner.Android/Services/AndroidBluetoothService.cs:675-705 | under the gate; the adapter is resolved iff one existed or a default exists, and the call fails exactly without one; the slot always ends empty; a connected device's reader is canceled and its stream dropped |
| BluetoothService.AndroidBluetoothService.ReadOnce | BtClassicScanner/BtClassicScanner.Android/Services/AndroidBluetoothService.cs:276-300 | a throwing read cancels; a positive read publishes its chunk to the current callback |
| BluetoothService.AndroidBluetoothService.ReadLoop | BtClassicScanner/BtClassicScanner.Android/Services/AndroidBluetoothService.cs:272-302 | consumes reads up to and including the first that throws, is canceled iff one threw, and publishes exactly `Emitted` of what it consumed |
| Scenarios.LeakedSetOutlivesStop | BtClassicScanner/BtClassicScanner.Android/Services/AndroidBluetoothService.cs:527-536 | after a refused start, a confirmed start and a successful stop, a found broadcast is still delivered once |
| Scenarios.SubscriberHearsTwice | BtClassicScanner/BtClassicScanner.Android/Services/AndroidBluetoothService.cs:444-447 | with a leaked set and the current set both registered, one subscriber hears of one found device twice |

## Left out

- Platform calls are not modelled: broadcast registration, `CrossPermissions`,
  the `BluetoothAdapter` and `BluetoothDevice` APIs, and RFCOMM socket
  creation, connect and read. They are foreign code, and only their answers
  appear, as parameters.
- Timers, `Task.Delay`, `TaskCompletionSource` races, locks, the semaphore and
  background tasks are not modelled as concurrency:
  - each locked region is one atomic step;
  - each timer firing or broadcast is an explicit method;
  - the reader runs as a separate `ReadLoop` call;
  - interleavings such as a finished broadcast arriving during a stop are not
    explored.
- The 30 s socket-creation timeout and a creation that throws both appear only
  as `socket == None`.
- `GetDeviceServiceUuids` is not modelled. It is reachable only from
  commented-out code.
- The commented-out fallback paths are dead code and are not modelled.
- The service's own `Dispose` is not modelled. It only unregisters receivers
  and drops references.
- The service constructor's context check is not modelled. The context is not
  modelled at all.
- The app shell, the UI and the two interface files hold no logic and are not
  modelled.
- `ObserverSubscription` comes from a library that is not part of this model.
  Subscriptions are values (token, observer), so the reference equality used
  by `List.Remove` becomes value equality.
- Observers' own callbacks are not run. A delivered callback is recorded in
  `notifications`.
- Only one reader at a time is modelled. After a new pairing the source can
  leave an earlier reader task running. On every iteration that task reads
  the instance fields for its token and stream, so it then reads the new
  stream under the new token, and one cancel stops both. The model does not
  count the readers, so it does not show the duplicate reads.
- BluetoothService.AndroidBluetoothService.StartDeviceDiscovery: the timer
  interval `timeoutSeconds * 1000` is an unbounded integer. The 32-bit
  overflow of that product for very large timeouts is not modelled.
- BluetoothService.AndroidBluetoothService.StartDeviceDiscovery: the poll
  answers are a script of exactly 20 values, one per poll slot. Stop and the
  timer and finished handlers take the same script.
- ByteStream.EmittedChunksBounded: the upper bound assumes the platform never
  reports more characters than the 1024-character buffer holds
  (`ReadOutcome.WellFormed`).
- The native `Android.Bluetooth` device is reduced to its name and address.
- ByteStream.ToBytes: characters are Dafny `char`s, which are Unicode scalar
  values. The source's `char[]` buffer holds UTF-16 code units, and the lone
  surrogates it can hold (`D800`-`DFFF`) cannot be expressed. Their narrowing
  to a byte is not modelled. The same holds for ByteStream.Chunk.
- BluetoothService.AndroidBluetoothService.IsDiscovering: the contract states
  the direction callers rely on, that a true answer means both flags are
  set. The converse is the definition itself and is not restated.
- Leaked receiver sets are only counted. Which handler of which set fires
  first, and broadcasts interleaved with a stop, are not modelled.
