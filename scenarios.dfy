/** Runs of the service that show behaviour of the code as written. */
module Scenarios {
  import opened Wrappers
  import opened DeviceInfo
  import opened Polling
  import opened Subscribers
  import opened BluetoothService

  /** A start the adapter refuses leaves its receiver set registered with
      discovery off; the next start registers a second set over it, and
      stop unregisters only that second one. A later found broadcast still
      reaches the first set. */
  method LeakedSetOutlivesStop(device: NativeDevice) returns (deliveries: nat)
    ensures deliveries == 1
  {
    var service := new AndroidBluetoothService();
    var busy := seq(PollLimit, _ => true);
    var idle := seq(PollLimit, _ => false);
    var r := service.StartDeviceDiscovery(None, true, true, false, busy);
    assert !service.isDiscovering && service.LiveReceiverSets() == 1;
    r := service.StartDeviceDiscovery(None, true, true, true, busy);
    assert service.LiveReceiverSets() == 2;
    r := service.StopDeviceDiscovery(true, idle);
    assert service.LiveReceiverSets() == 1;
    var found := service.BroadcastDeviceFound(Some(device));
    deliveries := |found.value|;
  }

  /** While a leaked set and the current set are both registered, one
      found broadcast reaches each subscriber twice. */
  method SubscriberHearsTwice(device: NativeDevice, observer: ObserverId) returns (heard: nat)
    ensures heard == 2
  {
    var service := new AndroidBluetoothService();
    var busy := seq(PollLimit, _ => true);
    var s := service.Subscribe(Some(observer), 0);
    var r := service.StartDeviceDiscovery(None, true, true, false, busy);
    r := service.StartDeviceDiscovery(None, true, true, true, busy);
    var before := |service.notifications|;
    var found := service.BroadcastDeviceFound(Some(device));
    NextRoundsLength(service.discoverySubscriptions, found.value);
    heard := |service.notifications| - before;
  }
}
