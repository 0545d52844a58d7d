/** The Android Bluetooth session manager: the discovery state machine, the
    discovery subscriber list, the single-permit connection gate, the
    active-device slot and the background byte reader. Every locked region is
    one atomic step; every platform answer is a parameter. */
module BluetoothService {
  import opened Wrappers
  import opened DeviceInfo
  import opened Polling
  import opened Subscribers
  import opened ByteStream

  /** The exceptions the modelled operations can throw. */
  datatype Error =
    | ArgumentNull        // ArgumentNullException
    | PermissionDenied    // location permission not granted
    | AdapterUnavailable  // no Bluetooth adapter could be found
    | NullAdapter         // the adapter is polled before any lookup resolved it

  /** The reader's cancellation source: none yet, or one that is or is not canceled. */
  datatype ReadToken = NoToken | Token(canceled: bool)

  /** Identity of the byte callback passed to pairing. */
  type ActionId = nat

  /** The part of the service's state that stopping discovery reads and writes. */
  datatype DiscoveryState = DiscoveryState(
    discovering: bool, stopping: bool, adapterPresent: bool,
    registered: bool, leaked: nat, subscriptions: seq<Subscription>,
    notifications: seq<Notification>, polls: nat)

  /** What `StopDeviceDiscovery` does from state `s` to state `t`, given
      whether a default adapter exists and the adapter's 20 poll answers.
      Only a session that is discovering and not already stopping is acted
      on: its subscribers are completed and the current receiver set is
      unregistered, and both flags are cleared only when a poll sees the
      adapter idle. Otherwise no flag changes, nobody is notified and the
      adapter is only polled. */
  ghost predicate StopOutcome(s: DiscoveryState, t: DiscoveryState, defaultAdapterPresent: bool,
                              polls: seq<bool>, r: Result<bool, Error>)
    requires |polls| == PollLimit
  {
    && (s.stopping ==> t.stopping && t.discovering)
    && t.subscriptions == s.subscriptions && t.leaked == s.leaked
    && if s.discovering && !s.stopping then
         && t.adapterPresent == (s.adapterPresent || defaultAdapterPresent)
         && (!t.adapterPresent ==>
               && r == Failure(AdapterUnavailable) && t.discovering && t.stopping
               && t.notifications == s.notifications && t.registered == s.registered && t.polls == s.polls)
         && (t.adapterPresent ==>
               && t.notifications == s.notifications + CompletedAll(s.subscriptions)
               && !t.registered
               && t.polls == s.polls + PollsUntil(polls, false)
               && r == Success(FirstIndex(polls, false) < PollLimit)
               && (r.value ==> !t.discovering && !t.stopping)
               && (!r.value ==> t.discovering && t.stopping))
       else
         && t.discovering == s.discovering && t.stopping == s.stopping
         && t.notifications == s.notifications && t.registered == s.registered
         && t.adapterPresent == s.adapterPresent
         && (!s.adapterPresent ==> r == Failure(NullAdapter) && t.polls == s.polls)
         && (s.adapterPresent ==>
               r == Success(FirstIndex(polls, false) < PollLimit) && t.polls == s.polls + PollsUntil(polls, false))
  }

  /** Concatenation regroups freely; the delivery loop appends one round at a time. */
  lemma AppendAssoc<T>(a: seq<T>, b: seq<T>, c: seq<T>)
    ensures (a + b) + c == a + (b + c)
  {
  }

  class AndroidBluetoothService {
    // Discovery flags (process-wide statics in the source).
    var isDiscovering: bool
    var isDiscoveryRunning: bool
    var isDiscoveryStopping: bool
    var isDiscoveryCanceling: bool

    /** Whether the adapter reference has been resolved. */
    var adapterPresent: bool
    /** Whether the found, started and finished receiver set that the service
        references is registered. */
    var receiversRegistered: bool
    /** Receiver sets still registered with the platform that the service no
        longer references: a start that registers a new set while the
        previous one is registered overwrites the only reference to it, and
        stop unregisters only the referenced set. */
    var leakedReceiverSets: nat
    /** The armed discovery timeout in milliseconds, if any. */
    var discoveryTimeoutMillis: Option<int>

    var discoverySubscriptions: seq<Subscription>
    /** Every callback delivered to a discovery subscriber, in order. */
    var notifications: seq<Notification>
    /** Number of adapter status polls made by the confirmation loops. */
    ghost var pollsMade: nat

    /** The single permit of the pairing semaphore. */
    var gateFree: bool
    ghost var gateAcquisitions: nat
    /** Number of blocking socket connect calls made. */
    ghost var connectAttempts: nat

    var incomingAction: Option<ActionId>
    var readToken: ReadToken
    /** The socket whose input stream the reader reads. */
    var inputStream: Option<Socket>
    var connectedDevice: BluetoothDeviceInfo?
    /** Every chunk handed to the incoming-bytes callback, in order. */
    var received: seq<seq<byte>>

    /** What holds between steps, whatever the gate. */
    ghost predicate Consistent()
      reads this
    {
      && (isDiscoveryStopping ==> isDiscovering)
      && (receiversRegistered ==> adapterPresent)
      && (leakedReceiverSets > 0 ==> adapterPresent)
      && (connectedDevice != null ==> adapterPresent)
      && (readToken == Token(false) ==> inputStream.Some?)
    }

    /** Between operations the gate's permit is free. */
    ghost predicate Valid()
      reads this
    {
      Consistent() && gateFree
    }

    /** The receiver sets the platform delivers each discovery broadcast to. */
    function LiveReceiverSets(): nat
      reads this`receiversRegistered, this`leakedReceiverSets
    {
      leakedReceiverSets + (if receiversRegistered then 1 else 0)
    }

    ghost function Discovery(): DiscoveryState
      reads this`isDiscovering, this`isDiscoveryStopping, this`adapterPresent,
            this`receiversRegistered, this`leakedReceiverSets, this`discoverySubscriptions,
            this`notifications, this`pollsMade
    {
      DiscoveryState(isDiscovering, isDiscoveryStopping, adapterPresent, receiversRegistered,
                     leakedReceiverSets, discoverySubscriptions, notifications, pollsMade)
    }

    constructor ()
      ensures Valid()
      ensures !isDiscovering && !isDiscoveryRunning && !isDiscoveryStopping && !isDiscoveryCanceling
      ensures !adapterPresent && LiveReceiverSets() == 0 && discoveryTimeoutMillis.None?
      ensures discoverySubscriptions == [] && notifications == []
      ensures connectedDevice == null && readToken == NoToken && inputStream.None?
      ensures incomingAction.None? && received == []
    {
      isDiscovering, isDiscoveryRunning, isDiscoveryStopping, isDiscoveryCanceling := false, false, false, false;
      adapterPresent, receiversRegistered, leakedReceiverSets, discoveryTimeoutMillis := false, false, 0, None;
      discoverySubscriptions, notifications, pollsMade := [], [], 0;
      gateFree, gateAcquisitions, connectAttempts := true, 0, 0;
      incomingAction, readToken, inputStream := None, NoToken, None;
      connectedDevice, received := null, [];
    }

    /** Discovering as seen by callers: the adapter affirmed it and the
        started broadcast has arrived. */
    function IsDiscovering(): (r: bool)
      reads this
      ensures r ==> isDiscovering && isDiscoveryRunning
    {
      isDiscovering && isDiscoveryRunning
    }

    /** Resolves the adapter once; fails while none exists. */
    method CheckAdapter(defaultAdapterPresent: bool) returns (ok: bool)
      modifies this`adapterPresent
      ensures adapterPresent == (old(adapterPresent) || defaultAdapterPresent)
      ensures ok == adapterPresent
    {
      adapterPresent := adapterPresent || defaultAdapterPresent;
      ok := adapterPresent;
    }

    /** A confirmation poll: reads the adapter's `IsDiscovering` answer after
        each 200 ms delay, at most `PollLimit` times, leaving at the first
        answer equal to `target`. Returns the last answer read. */
    method AwaitAdapter(polls: seq<bool>, target: bool) returns (last: bool)
      requires |polls| == PollLimit
      modifies this`pollsMade
      ensures pollsMade == old(pollsMade) + PollsUntil(polls, target)
      ensures last == polls[PollsUntil(polls, target) - 1]
      ensures last == target <==> FirstIndex(polls, target) < PollLimit
    {
      var i := 0;
      last := !target;
      while i < PollLimit
        invariant 0 <= i <= PollLimit && last == !target
        invariant forall j :: 0 <= j < i ==> polls[j] != target
        invariant pollsMade == old(pollsMade) + i
      {
        last := polls[i];
        pollsMade := pollsMade + 1;
        if last == target {
          return;
        }
        i := i + 1;
      }
    }

    // ---------------------------------------------------------------------
    // Discovery subscribers

    method Subscribe(observer: Option<ObserverId>, id: SubscriptionId) returns (r: Result<Subscription, Error>)
      modifies this`discoverySubscriptions
      ensures observer.None? ==> r == Failure(ArgumentNull) && discoverySubscriptions == old(discoverySubscriptions)
      ensures observer.Some? ==> r == Success(Subscription(id, observer.value))
      ensures observer.Some? ==> discoverySubscriptions == old(discoverySubscriptions) + [r.value]
    {
      if observer.None? {
        return Failure(ArgumentNull);
      }
      var subscription := Subscription(id, observer.value);
      discoverySubscriptions := discoverySubscriptions + [subscription];
      r := Success(subscription);
    }

    /** Reached by disposing a subscription: removes, one `List.Remove` at a
        time, every entry that carries the subscription's id. */
    method RemoveDiscoverySubscriber(id: SubscriptionId)
      modifies this`discoverySubscriptions
      ensures discoverySubscriptions == Without(old(discoverySubscriptions), id)
    {
      var toRemove := Matching(discoverySubscriptions, id);
      ghost var kept := Without(discoverySubscriptions, id);
      var i := 0;
      while i < |toRemove|
        invariant 0 <= i <= |toRemove|
        invariant Without(discoverySubscriptions, id) == kept
        invariant Matching(discoverySubscriptions, id) == toRemove[i..]
      {
        var x := toRemove[i];
        RemoveOneMatching(discoverySubscriptions, x, id);
        discoverySubscriptions := RemoveFirst(discoverySubscriptions, x);
        i := i + 1;
      }
      NoMatchingIsFixed(discoverySubscriptions, id);
    }

    /** Fan-out of completion over a snapshot of the subscriber list. */
    method NotifyAllCompleted()
      modifies this`notifications
      ensures notifications == old(notifications) + CompletedAll(discoverySubscriptions)
    {
      var snapshot := discoverySubscriptions;
      var k := 0;
      while k < |snapshot|
        invariant 0 <= k <= |snapshot|
        invariant notifications == old(notifications) + CompletedAll(snapshot[..k])
      {
        CompletedAllSnoc(snapshot, k);
        notifications := notifications + [Completed(snapshot[k])];
        k := k + 1;
      }
      assert snapshot[..k] == snapshot;
    }

    /** Fan-out of a found device over a snapshot of the subscriber list. */
    method NotifyAllNext(device: BluetoothDeviceInfo)
      modifies this`notifications
      ensures notifications == old(notifications) + NextAll(discoverySubscriptions, device)
    {
      var snapshot := discoverySubscriptions;
      var k := 0;
      while k < |snapshot|
        invariant 0 <= k <= |snapshot|
        invariant notifications == old(notifications) + NextAll(snapshot[..k], device)
      {
        NextAllSnoc(snapshot, device, k);
        notifications := notifications + [Next(snapshot[k], device)];
        k := k + 1;
      }
      assert snapshot[..k] == snapshot;
    }

    // ---------------------------------------------------------------------
    // Discovery

    /** Starts discovery unless it is already on or being stopped.
        `polls` are the adapter's `IsDiscovering` answers at the 20 poll slots. */
    method StartDeviceDiscovery(timeoutSeconds: Option<int>, permissionGranted: bool,
                                defaultAdapterPresent: bool, startAccepted: bool,
                                polls: seq<bool>) returns (r: Result<bool, Error>)
      requires Valid() && |polls| == PollLimit
      modifies this`isDiscovering, this`adapterPresent, this`receiversRegistered, this`leakedReceiverSets,
               this`discoveryTimeoutMillis, this`pollsMade
      ensures Valid()
      // Guard: already discovering or stopping changes nothing.
      ensures old(isDiscovering || isDiscoveryStopping) ==>
                unchanged(this) && r == Success(isDiscovering && !isDiscoveryStopping)
      // Past the guard the session is claimed, and a failure does not roll it back.
      ensures old(!isDiscovering && !isDiscoveryStopping) && !(permissionGranted && adapterPresent) ==>
                && isDiscovering
                && receiversRegistered == old(receiversRegistered)
                && leakedReceiverSets == old(leakedReceiverSets)
                && discoveryTimeoutMillis == old(discoveryTimeoutMillis)
                && pollsMade == old(pollsMade)
      ensures old(!isDiscovering && !isDiscoveryStopping) && !permissionGranted ==>
                r == Failure(PermissionDenied) && adapterPresent == old(adapterPresent)
      ensures old(!isDiscovering && !isDiscoveryStopping) && permissionGranted ==>
                adapterPresent == (old(adapterPresent) || defaultAdapterPresent)
      ensures old(!isDiscovering && !isDiscoveryStopping) && permissionGranted && !adapterPresent ==>
                r == Failure(AdapterUnavailable)
      // Normal path: a new receiver set is registered, leaking the previous
      // one if it was still registered.
      ensures old(!isDiscovering && !isDiscoveryStopping) && permissionGranted && adapterPresent ==>
                && receiversRegistered
                && leakedReceiverSets == old(leakedReceiverSets) + (if old(receiversRegistered) then 1 else 0)
                && LiveReceiverSets() == old(LiveReceiverSets()) + 1
                && discoveryTimeoutMillis == (if timeoutSeconds.Some? && timeoutSeconds.value > 0
                                              then Some(timeoutSeconds.value * 1000) else None)
                && (!startAccepted ==> !isDiscovering && pollsMade == old(pollsMade))
                && (startAccepted ==> pollsMade == old(pollsMade) + PollsUntil(polls, true)
                                      && isDiscovering == polls[PollsUntil(polls, true) - 1])
                && (isDiscovering <==> startAccepted && FirstIndex(polls, true) < PollLimit)
                && r == Success(isDiscovering)
    {
      var startDiscovery := !isDiscovering && !isDiscoveryStopping;
      if startDiscovery {
        isDiscovering := true;
      } else {
        return Success(isDiscovering && !isDiscoveryStopping);
      }

      if !permissionGranted {
        return Failure(PermissionDenied);
      }
      var ok := CheckAdapter(defaultAdapterPresent);
      if !ok {
        return Failure(AdapterUnavailable);
      }
      // The receiver fields are overwritten with a new set, which is registered.
      if receiversRegistered {
        leakedReceiverSets := leakedReceiverSets + 1;
      }
      receiversRegistered := true;

      // The previous timer is disposed; a new one is armed for a positive timeout.
      discoveryTimeoutMillis := None;
      if timeoutSeconds.Some? && timeoutSeconds.value > 0 {
        discoveryTimeoutMillis := Some(timeoutSeconds.value * 1000);
      }

      isDiscovering := startAccepted;
      if isDiscovering {
        isDiscovering := AwaitAdapter(polls, true);
      }
      r := Success(isDiscovering && !isDiscoveryStopping);
    }

    /** Stops discovery if it is on and not already being stopped; otherwise
        only polls the adapter (see `StopOutcome`). The active branch also
        disarms the timeout. */
    method StopDeviceDiscovery(defaultAdapterPresent: bool, polls: seq<bool>) returns (r: Result<bool, Error>)
      requires Valid() && |polls| == PollLimit
      modifies this`isDiscovering, this`isDiscoveryStopping, this`discoveryTimeoutMillis,
               this`adapterPresent, this`notifications, this`receiversRegistered, this`pollsMade
      ensures Valid()
      ensures StopOutcome(old(Discovery()), Discovery(), defaultAdapterPresent, polls, r)
      ensures old(isDiscovering && !isDiscoveryStopping) ==> discoveryTimeoutMillis.None?
      ensures !old(isDiscovering && !isDiscoveryStopping) ==> discoveryTimeoutMillis == old(discoveryTimeoutMillis)
    {
      var stopDiscovery := isDiscovering && !isDiscoveryStopping;
      if stopDiscovery {
        isDiscoveryStopping := true;
      }

      var result := false;
      if stopDiscovery {
        discoveryTimeoutMillis := None;
        var ok := CheckAdapter(defaultAdapterPresent);
        if !ok {
          return Failure(AdapterUnavailable);
        }
        NotifyAllCompleted();
        // Only the referenced receiver set is unregistered.
        receiversRegistered := false;

        result := !adapterPresent;
        if !result {
          var last := AwaitAdapter(polls, false);
          result := !last;
          if result {
            isDiscoveryStopping := false;
            isDiscovering := false;
          }
        }
      } else {
        if !adapterPresent {
          return Failure(NullAdapter);
        }
        var last := AwaitAdapter(polls, false);
        result := !last;
      }
      r := Success(result);
    }

    /** One delivery of the started broadcast to one live receiver set (the
        platform delivers it once to each). */
    method OnDiscoveryStarted()
      requires Valid()
      modifies this`isDiscoveryRunning, this`isDiscoveryCanceling
      ensures Valid()
      ensures LiveReceiverSets() == 0 ==> unchanged(this)
      ensures LiveReceiverSets() > 0 ==> isDiscoveryRunning && !isDiscoveryCanceling
    {
      if LiveReceiverSets() > 0 {
        isDiscoveryRunning := true;
        isDiscoveryCanceling := false;
      }
    }

    /** One delivery of the finished broadcast to one live receiver set. It
        stops discovery only for a running, not-yet-canceling session,
        holding the canceling flag set around that stop; if the stop throws,
        the handler ends there with both flags still set. */
    method OnDiscoveryFinished(defaultAdapterPresent: bool, polls: seq<bool>) returns (r: Result<bool, Error>)
      requires Valid() && |polls| == PollLimit
      modifies this`isDiscovering, this`isDiscoveryStopping, this`discoveryTimeoutMillis,
               this`adapterPresent, this`notifications, this`receiversRegistered, this`pollsMade,
               this`isDiscoveryRunning, this`isDiscoveryCanceling
      ensures Valid()
      ensures old(LiveReceiverSets()) == 0 ==> unchanged(this) && r == Success(false)
      ensures old(LiveReceiverSets()) > 0 && !old(isDiscoveryRunning && !isDiscoveryCanceling) ==>
                && r == Success(false) && !isDiscoveryRunning
                && isDiscoveryCanceling == old(isDiscoveryCanceling)
                && Discovery() == old(Discovery()) && discoveryTimeoutMillis == old(discoveryTimeoutMillis)
      ensures old(LiveReceiverSets() > 0 && isDiscoveryRunning && !isDiscoveryCanceling) ==>
                && StopOutcome(old(Discovery()), Discovery(), defaultAdapterPresent, polls, r)
                && (old(isDiscovering && !isDiscoveryStopping) ==> discoveryTimeoutMillis.None?)
                && (!old(isDiscovering && !isDiscoveryStopping) ==> discoveryTimeoutMillis == old(discoveryTimeoutMillis))
                && (r.Success? ==> !isDiscoveryRunning && !isDiscoveryCanceling)
                && (r.Failure? ==> isDiscoveryRunning && isDiscoveryCanceling)
      ensures old(LiveReceiverSets()) > 0 && r.Success? ==> !IsDiscovering()
    {
      if LiveReceiverSets() == 0 {
        return Success(false);
      }
      r := Success(false);
      if isDiscoveryRunning && !isDiscoveryCanceling {
        isDiscoveryCanceling := true;
        r := StopDeviceDiscovery(defaultAdapterPresent, polls);
        if r.Failure? {
          return;
        }
        isDiscoveryCanceling := false;
      }
      isDiscoveryRunning := false;
    }

    /** The discovery timeout timer fires (once: it does not auto-reset) and
        stops discovery. */
    method OnDiscoveryTimeout(defaultAdapterPresent: bool, polls: seq<bool>) returns (r: Result<bool, Error>)
      requires Valid() && |polls| == PollLimit
      modifies this`isDiscovering, this`isDiscoveryStopping, this`discoveryTimeoutMillis,
               this`adapterPresent, this`notifications, this`receiversRegistered, this`pollsMade
      ensures Valid()
      ensures old(discoveryTimeoutMillis).None? ==> unchanged(this) && r == Success(false)
      ensures old(discoveryTimeoutMillis).Some? ==>
                && discoveryTimeoutMillis.None?
                && StopOutcome(old(Discovery()), Discovery(), defaultAdapterPresent, polls, r)
    {
      if discoveryTimeoutMillis.None? {
        return Success(false);
      }
      discoveryTimeoutMillis := None;
      r := StopDeviceDiscovery(defaultAdapterPresent, polls);
    }

    /** The found receiver's body for a non-null device: wraps it in a fresh
        handle and sends that handle to every subscriber in a snapshot of
        the list. */
    method NotifyFound(device: NativeDevice) returns (info: BluetoothDeviceInfo)
      modifies this`notifications
      ensures fresh(info) && info.device == device && !info.isPaired && info.connectedSocket.None?
      ensures notifications == old(notifications) + NextAll(discoverySubscriptions, info)
    {
      info := new BluetoothDeviceInfo(device);
      NotifyAllNext(info);
    }

    /** One delivery of the found broadcast to one live receiver set. The
        handle is returned so that the contract can name it; `Success(None)`
        means that no receiver set is live, so nothing is delivered. */
    method OnDeviceFound(device: Option<NativeDevice>) returns (r: Result<Option<BluetoothDeviceInfo>, Error>)
      requires Valid()
      modifies this`notifications
      ensures Valid()
      ensures LiveReceiverSets() == 0 ==> r == Success(None) && unchanged(this)
      ensures LiveReceiverSets() > 0 && device.None? ==> r == Failure(ArgumentNull) && unchanged(this)
      ensures LiveReceiverSets() > 0 && device.Some? ==>
                && r.Success? && r.value.Some? && fresh(r.value.value)
                && r.value.value.device == device.value && !r.value.value.IsConnected()
                && notifications == old(notifications) + NextAll(discoverySubscriptions, r.value.value)
    {
      if LiveReceiverSets() == 0 {
        return Success(None);
      }
      if device.None? {
        return Failure(ArgumentNull);
      }
      var info := NotifyFound(device.value);
      r := Success(Some(info));
    }

    /** The found broadcast as the platform delivers it: once to each live
        receiver set, one after another, each delivery wrapping the device
        in its own handle. With leaked sets every subscriber hears of the
        device once per live set (see `NextRoundsLength`). */
    method BroadcastDeviceFound(device: Option<NativeDevice>) returns (r: Result<seq<BluetoothDeviceInfo>, Error>)
      requires Valid()
      modifies this`notifications
      ensures Valid()
      ensures LiveReceiverSets() == 0 ==> r == Success([]) && unchanged(this)
      ensures LiveReceiverSets() > 0 && device.None? ==> r == Failure(ArgumentNull) && unchanged(this)
      ensures device.Some? ==>
                && r.Success? && |r.value| == LiveReceiverSets()
                && (forall h :: h in r.value ==>
                      fresh(h) && h.device == device.value && !h.isPaired && h.connectedSocket.None?)
                && notifications == old(notifications) + NextRounds(discoverySubscriptions, r.value)
    {
      var live := LiveReceiverSets();
      if live == 0 {
        return Success([]);
      }
      if device.None? {
        // The first delivery throws.
        return Failure(ArgumentNull);
      }
      var handles := NotifyFoundRounds(device.value, live);
      r := Success(handles);
    }

    /** `rounds` deliveries of the found receiver's body, one after another. */
    method NotifyFoundRounds(device: NativeDevice, rounds: nat) returns (handles: seq<BluetoothDeviceInfo>)
      modifies this`notifications
      ensures |handles| == rounds
      ensures forall h :: h in handles ==>
                fresh(h) && h.device == device && !h.isPaired && h.connectedSocket.None?
      ensures notifications == old(notifications) + NextRounds(discoverySubscriptions, handles)
    {
      handles := [];
      var snapshot := discoverySubscriptions;
      ghost var sent := [];
      while |handles| < rounds
        invariant |handles| <= rounds && discoverySubscriptions == snapshot
        invariant forall h :: h in handles ==>
                    fresh(h) && h.device == device && !h.isPaired && h.connectedSocket.None?
        invariant sent == NextRounds(snapshot, handles)
        invariant notifications == old(notifications) + sent
        decreases rounds - |handles|
      {
        var info := NotifyFound(device);
        NextRoundsSnoc(snapshot, handles, info);
        AppendAssoc(old(notifications), sent, NextAll(snapshot, info));
        sent := sent + NextAll(snapshot, info);
        handles := handles + [info];
      }
    }

    // ---------------------------------------------------------------------
    // Connection gate, active device and reader

    /** The pairing protocol's outcome, shared by pairing and connecting to an
        already-paired device. `socket` is what socket creation produced within
        its 30 s limit (`None` when it returned null, threw or timed out);
        `connectSucceeds` is whether the blocking connect call returned. */
    twostate predicate PairOutcome(device: BluetoothDeviceInfo?, action: Option<ActionId>,
                                   defaultAdapterPresent: bool, socket: Option<Socket>,
                                   connectSucceeds: bool, new r: Result<bool, Error>)
      reads this, device
    {
      && (device == null ==> r == Failure(ArgumentNull) && unchanged(this))
      && (device != null ==> incomingAction == action)
      // Already paired and connected: succeed without taking the gate.
      && (device != null && old(device.isPaired && device.IsConnected()) ==>
            && r == Success(true) && gateAcquisitions == old(gateAcquisitions)
            && connectAttempts == old(connectAttempts) && unchanged(device)
            && connectedDevice == old(connectedDevice) && adapterPresent == old(adapterPresent)
            && readToken == old(readToken) && inputStream == old(inputStream))
      // Otherwise the gate is taken once (and is free again: see Valid).
      && (device != null && !old(device.isPaired && device.IsConnected()) ==>
            && gateAcquisitions == old(gateAcquisitions) + 1
            && adapterPresent == (old(adapterPresent) || defaultAdapterPresent)
            && (!adapterPresent ==>
                  r == Failure(AdapterUnavailable) && connectAttempts == old(connectAttempts))
            && (adapterPresent && socket.None? ==>
                  r == Success(false) && connectAttempts == old(connectAttempts))
            && (adapterPresent && socket.Some? ==> connectAttempts == old(connectAttempts) + 1)
            && (r != Success(true) ==>
                  && unchanged(device) && connectedDevice == old(connectedDevice)
                  && readToken == old(readToken) && inputStream == old(inputStream))
            && (r == Success(true) <==> adapterPresent && socket.Some? && connectSucceeds)
            && (r == Success(true) ==>
                  && device.isPaired && device.isConnectedFlag && device.connectedSocket == socket
                  && device.IsConnected() && connectedDevice == device
                  && (action.Some? ==> readToken == Token(false) && inputStream == socket)
                  && (action.None? ==> readToken == old(readToken) && inputStream == old(inputStream))))
    }

    method PairWithDevice(device: BluetoothDeviceInfo?, action: Option<ActionId>,
                          defaultAdapterPresent: bool, socket: Option<Socket>,
                          connectSucceeds: bool) returns (r: Result<bool, Error>)
      requires Valid()
      modifies this`incomingAction, this`gateFree, this`gateAcquisitions, this`adapterPresent,
               this`connectAttempts, this`connectedDevice, this`readToken, this`inputStream, device
      ensures Valid()
      ensures PairOutcome(device, action, defaultAdapterPresent, socket, connectSucceeds, r)
    {
      if device == null {
        return Failure(ArgumentNull);
      }
      incomingAction := action;
      var result := device.isPaired && device.IsConnected();
      if result {
        return Success(true);
      }

      gateFree := false;
      gateAcquisitions := gateAcquisitions + 1;
      var ok := CheckAdapter(defaultAdapterPresent);
      if !ok {
        gateFree := true;
        return Failure(AdapterUnavailable);
      }
      result := ConnectDeviceToSocket(device, socket, connectSucceeds);
      gateFree := true;
      r := Success(result);
    }

    /** Pairing and connecting to an already-paired device are one operation. */
    method ConnectWithPairedDevice(device: BluetoothDeviceInfo?, action: Option<ActionId>,
                                   defaultAdapterPresent: bool, socket: Option<Socket>,
                                   connectSucceeds: bool) returns (r: Result<bool, Error>)
      requires Valid()
      modifies this`incomingAction, this`gateFree, this`gateAcquisitions, this`adapterPresent,
               this`connectAttempts, this`connectedDevice, this`readToken, this`inputStream, device
      ensures Valid()
      ensures PairOutcome(device, action, defaultAdapterPresent, socket, connectSucceeds, r)
    {
      r := PairWithDevice(device, action, defaultAdapterPresent, socket, connectSucceeds);
    }

    /** The tail of socket connection, run while the gate is held: no socket
        means failure without a connect attempt; a connect that throws means
        failure (the socket is closed); a connect that returns records the
        device as paired, connected and active and, when a byte callback is
        set, starts a reader with a fresh cancellation source. */
    method ConnectDeviceToSocket(device: BluetoothDeviceInfo, socket: Option<Socket>,
                                 connectSucceeds: bool) returns (connected: bool)
      requires Consistent() && !gateFree && adapterPresent
      modifies this`connectAttempts, this`connectedDevice, this`readToken, this`inputStream, device
      ensures Consistent()
      ensures connected <==> socket.Some? && connectSucceeds
      ensures connectAttempts == old(connectAttempts) + (if socket.Some? then 1 else 0)
      ensures !connected ==>
                && unchanged(device) && connectedDevice == old(connectedDevice)
                && readToken == old(readToken) && inputStream == old(inputStream)
      ensures connected ==>
                && device.isPaired && device.isConnectedFlag && device.connectedSocket == socket
                && device.IsConnected() && connectedDevice == device
                && (incomingAction.Some? ==> readToken == Token(false) && inputStream == socket)
                && (incomingAction.None? ==> readToken == old(readToken) && inputStream == old(inputStream))
    {
      if socket.None? {
        return false;
      }
      connectAttempts := connectAttempts + 1;
      if !connectSucceeds {
        return false;
      }
      device.SetIsConnected(true);
      device.SetIsPaired(true);
      device.SetConnectedSocket(socket);
      connectedDevice := device;
      if incomingAction.Some? {
        readToken := Token(false);
        inputStream := socket;
      }
      connected := true;
    }

    /** Lists the bonded devices under the gate, each as a fresh paired
        handle; a missing bonded set gives the empty list. */
    method GetPairedDevices(defaultAdapterPresent: bool, bonded: Option<seq<NativeDevice>>)
      returns (r: Result<seq<BluetoothDeviceInfo>, Error>)
      requires Valid()
      modifies this`gateFree, this`gateAcquisitions, this`adapterPresent
      ensures Valid()
      ensures gateAcquisitions == old(gateAcquisitions) + 1
      ensures adapterPresent == (old(adapterPresent) || defaultAdapterPresent)
      ensures !adapterPresent ==> r == Failure(AdapterUnavailable)
      ensures adapterPresent ==>
                var devices := if bonded.Some? then bonded.value else [];
                && r.Success? && |r.value| == |devices|
                && forall i :: 0 <= i < |devices| ==>
                     && fresh(r.value[i]) && r.value[i].device == devices[i]
                     && r.value[i].isPaired && !r.value[i].IsConnected()
    {
      gateFree := false;
      gateAcquisitions := gateAcquisitions + 1;
      var ok := CheckAdapter(defaultAdapterPresent);
      if !ok {
        gateFree := true;
        return Failure(AdapterUnavailable);
      }
      var devices := if bonded.Some? then bonded.value else [];
      var result: seq<BluetoothDeviceInfo> := [];
      var i := 0;
      while i < |devices|
        invariant 0 <= i <= |devices| && |result| == i
        invariant forall j :: 0 <= j < i ==>
                    && fresh(result[j]) && result[j].device == devices[j]
                    && result[j].isPaired && !result[j].IsConnected()
        modifies {}
      {
        var info := new BluetoothDeviceInfo(devices[i]);
        info.SetIsPaired(true);
        result := result + [info];
        i := i + 1;
      }
      gateFree := true;
      r := Success(result);
    }

    /** Under the gate: when the active device is connected, cancels the
        reader and drops its input stream; in every case empties the slot.
        The handle itself keeps its flags and socket. */
    method DisconnectDevice(defaultAdapterPresent: bool) returns (r: Result<(), Error>)
      requires Valid()
      modifies this`gateFree, this`gateAcquisitions, this`adapterPresent, this`readToken,
               this`inputStream, this`connectedDevice
      ensures Valid()
      ensures gateAcquisitions == old(gateAcquisitions) + 1
      ensures adapterPresent == (old(adapterPresent) || defaultAdapterPresent)
      ensures r.Failure? <==> !adapterPresent
      ensures r.Failure? ==> r.error == AdapterUnavailable && old(connectedDevice) == null
      ensures connectedDevice == null
      ensures old(connectedDevice != null && connectedDevice.IsConnected()) ==>
                && inputStream.None?
                && readToken == (if old(readToken).Token? then Token(true) else NoToken)
      ensures !old(connectedDevice != null && connectedDevice.IsConnected()) ==>
                readToken == old(readToken) && inputStream == old(inputStream)
    {
      gateFree := false;
      gateAcquisitions := gateAcquisitions + 1;
      var ok := CheckAdapter(defaultAdapterPresent);
      if !ok {
        gateFree := true;
        return Failure(AdapterUnavailable);
      }
      if connectedDevice != null && connectedDevice.IsConnected() {
        if readToken.Token? {
          readToken := Token(true);
        }
        inputStream := None;
      }
      if connectedDevice != null {
        connectedDevice.Dispose();
      }
      connectedDevice := null;
      gateFree := true;
      r := Success(());
    }

    /** One iteration of the reader: a read that throws cancels the reader;
        a positive-length read is handed to the byte callback, if one is set. */
    method ReadOnce(outcome: ReadOutcome)
      requires readToken == Token(false)
      modifies this`readToken, this`received
      ensures readToken == Token(outcome.ReadFailed?)
      ensures received == old(received) + (if incomingAction.Some? then Emit(outcome) else [])
    {
      match outcome {
        case ReadFailed =>
          readToken := Token(true);
        case Read(count, buffer) =>
          if count > 0 && incomingAction.Some? {
            received := received + [Chunk(buffer, count)];
          }
      }
    }

    /** The background reader, run over the platform's answers to its next
        reads: it checks for cancellation before each read, publishes only
        positive-length reads (to the callback current at that moment) and
        cancels itself on the first read that throws. Returns how many of the
        answers it consumed. */
    method ReadLoop(outcomes: seq<ReadOutcome>) returns (consumed: nat)
      requires Valid() && readToken.Token?
      modifies this`readToken, this`received
      ensures Valid() && readToken.Token?
      ensures old(readToken.canceled) ==> consumed == 0 && unchanged(this)
      ensures !old(readToken.canceled) ==>
                && consumed == (if FailureIndex(outcomes) < |outcomes| then FailureIndex(outcomes) + 1 else |outcomes|)
                && (readToken.canceled <==> FailureIndex(outcomes) < |outcomes|)
                && received == old(received) + (if incomingAction.Some? then Emitted(outcomes[..consumed]) else [])
    {
      consumed := 0;
      if readToken.canceled {
        return;
      }
      ghost var failure, before := FailureIndex(outcomes), received;
      var canceled := false;
      while !canceled && consumed < |outcomes|
        invariant consumed <= |outcomes| && consumed <= failure + 1
        invariant readToken == Token(canceled) && (canceled <==> consumed > failure)
        invariant received == before + (if incomingAction.Some? then Emitted(outcomes[..consumed]) else [])
        decreases |outcomes| - consumed
        modifies this`readToken, this`received
      {
        EmittedSnoc(outcomes, consumed);
        FailureIndexAt(outcomes, consumed);
        ReadOnce(outcomes[consumed]);
        canceled := readToken.canceled;
        consumed := consumed + 1;
      }
    }
  }
}
