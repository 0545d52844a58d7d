/** The Android device handle: an immutable wrapped native device plus the
    mutable pairing, connection and socket state the service writes. */
module DeviceInfo {
  import opened Wrappers

  /** The native remote device, reduced to the two properties the handle exposes. */
  datatype NativeDevice = NativeDevice(name: string, address: string)

  /** An RFCOMM socket, identified by an opaque handle. */
  datatype Socket = Socket(handle: nat)

  class BluetoothDeviceInfo {
    /** The wrapped native device; set once by the constructor and never reassigned. */
    const device: NativeDevice
    var isPaired: bool
    /** The backing flag of `IsConnected`, stored as set. */
    var isConnectedFlag: bool
    var connectedSocket: Option<Socket>

    constructor (device: NativeDevice)
      ensures this.device == device
      ensures !isPaired && !isConnectedFlag && connectedSocket.None?
    {
      this.device := device;
      isPaired := false;
      isConnectedFlag := false;
      connectedSocket := None;
    }

    /** Construction from a possibly-null native device: a null device is
        refused (the source throws ArgumentNullException). */
    static method Create(device: Option<NativeDevice>) returns (r: Option<BluetoothDeviceInfo>)
      ensures device.None? <==> r.None?
      ensures r.Some? ==> fresh(r.value) && r.value.device == device.value
      ensures r.Some? ==> !r.value.isPaired && !r.value.IsConnected() && r.value.connectedSocket.None?
    {
      if device.None? {
        return None;
      }
      var info := new BluetoothDeviceInfo(device.value);
      return Some(info);
    }

    /** Connected only while the flag is set AND a socket is held. */
    function IsConnected(): (r: bool)
      reads this
      ensures r ==> connectedSocket.Some?
      ensures r ==> isConnectedFlag
    {
      isConnectedFlag && connectedSocket.Some?
    }

    function DeviceName(): string { device.name }

    function HardwareAddress(): string { device.address }

    function Native(): NativeDevice { device }

    method SetIsPaired(value: bool)
      modifies this`isPaired
      ensures isPaired == value
    {
      isPaired := value;
    }

    /** The setter stores the flag without looking at the socket. */
    method SetIsConnected(value: bool)
      modifies this`isConnectedFlag
      ensures isConnectedFlag == value
      ensures IsConnected() <==> value && connectedSocket.Some?
    {
      isConnectedFlag := value;
    }

    method SetConnectedSocket(socket: Option<Socket>)
      modifies this`connectedSocket
      ensures connectedSocket == socket
      ensures socket.None? ==> !IsConnected()
      ensures IsConnected() <==> isConnectedFlag && socket.Some?
    {
      connectedSocket := socket;
    }

    /** Releases nothing: the handle's state is left as it is. */
    method Dispose()
      ensures unchanged(this)
    {
    }
  }
}
