/**
 * The BLE session state machine of `MobaBtr2BleProvider`: the state value,
 * the found devices, the chip numbers read so far and the connected device,
 * updated one event at a time by the actions, the scan callback, the effect
 * that runs when the state changes, and the read loop.
 */
module MobaBtr2BleContext {
  import opened Wire
  import opened Gatt
  import opened Btr2DataHelpers
  import opened Btr2CommunicationHelpers

  /** The eight values of `BleState`. */
  datatype BleState =
    | BleDisabled
    | BleEnabled
    | ScanningDevices
    | DeviceFound
    | ConnectingToDevice
    | ConnectedToDevice
    | TransmittingData
    | DeviceDisconnected

  /** What the `finally` block of one pass of the read loop does. */
  datatype Decision =
    | Halt        // the state is BLE_DISABLED: no further pass
    | Reschedule  // another pass after the read delay
    | Disconnect  // the device went away: disconnect, then DEVICE_DISCONNECTED

  /** The text that marks an error as a lost connection. */
  const NotConnectedText := "is not connected"

  /** The advertised-name fragment that identifies a BTR2 reader. */
  const ReaderNameText := "MOBA"

  /**
   * The decision at the end of a pass: stop when the state is BLE_DISABLED;
   * otherwise keep reading unless the pass failed with an error whose
   * message contains "is not connected".
   */
  function Decide(state: BleState, failure: Option<string>): (d: Decision)
    ensures d == Halt <==> state == BleDisabled
    ensures d == Disconnect <==> state != BleDisabled && failure.Some? && Contains(failure.value, NotConnectedText)
    ensures d == Reschedule <==> state != BleDisabled && (failure.None? || !Contains(failure.value, NotConnectedText))
  {
    if state == BleDisabled then Halt
    else if failure.Some? && Contains(failure.value, NotConnectedText) then Disconnect
    else Reschedule
  }

  /**
   * One pass of the read loop before its `finally`: read a frame from
   * `device` (absent: "device not set") and take the chip number from it.
   */
  function PassOutcome(device: Device?, script: seq<Reply>, now: LocalTime, crc: CrcFunctions): Result<string>
  {
    if device == null then Err(DeviceNotSetError)
    else
      match ReadRun(device.id, script, now, crc).result
      case Err(m) => Err(m)
      case Ok(dataString) => GetChipNumberFromDataString(dataString)
  }

  /** The error a pass failed with, if any. */
  function FailureOf(outcome: Result<string>): (failure: Option<string>)
    ensures failure.None? <==> outcome.Ok?
    ensures outcome.Err? ==> failure == Some(outcome.message)
  {
    if outcome.Ok? then None else Some(outcome.message)
  }

  /**
   * When a pass fails and with which message: an absent device fails with
   * "device not set"; otherwise a rejected read fails with its own message,
   * and a frame that was read fails only when the chip number cannot be
   * taken from it, with that error's message.
   */
  lemma PassFailure(device: Device?, script: seq<Reply>, now: LocalTime, crc: CrcFunctions)
    ensures var failure := FailureOf(PassOutcome(device, script, now, crc));
      && (device == null ==> failure == Some(DeviceNotSetError))
      && (device != null ==>
            var read := ReadRun(device.id, script, now, crc).result;
            && (read.Err? ==> failure == Some(read.message))
            && (read.Ok? ==>
                  var chip := GetChipNumberFromDataString(read.value);
                  failure == (if chip.Ok? then None else Some(chip.message))))
      && (failure.None? <==>
            device != null && ReadRun(device.id, script, now, crc).result.Ok?
            && GetChipNumberFromDataString(ReadRun(device.id, script, now, crc).result.value).Ok?)
  {
  }

  /** The operations the device sees during a pass. */
  function PassOps(device: Device?, script: seq<Reply>, now: LocalTime, crc: CrcFunctions): seq<Op>
  {
    if device == null then [] else ReadRun(device.id, script, now, crc).ops
  }

  /** The script left after a pass. */
  function PassRest(device: Device?, script: seq<Reply>, now: LocalTime, crc: CrcFunctions): seq<Reply>
  {
    if device == null then script else ReadRun(device.id, script, now, crc).rest
  }

  /** No two found devices share an id. */
  predicate DistinctIds(devices: seq<Device>)
  {
    forall i, j :: 0 <= i < j < |devices| ==> devices[i].id != devices[j].id
  }

  /** Whether `devices` holds a device with the given id. */
  predicate Known(devices: seq<Device>, id: string)
  {
    exists k :: 0 <= k < |devices| && devices[k].id == id
  }

  /** `name?.includes("MOBA")`: an absent name never matches. */
  predicate IsReaderName(name: Option<string>)
  {
    name.Some? && Contains(name.value, ReaderNameText)
  }

  class Session {
    /** `bleStateRef.current` and `bleState`, always set together. */
    var state: BleState
    /** `foundDevicesRef.current`. */
    var foundDevices: seq<Device>
    /** `scannedData`: the chip numbers read, oldest first. */
    var scannedData: seq<string>
    /** `connectedDevice`. */
    var connectedDevice: Device?
    /** Whether the BLE manager is scanning. */
    var scanning: bool
    /** The device the running read loop was started with, and whether a pass is pending. */
    var readingDevice: Device?
    var readLoopScheduled: bool

    /** The session invariant: a device is found at most once. */
    predicate Valid()
      reads this
    {
      DistinctIds(foundDevices)
    }

    /** The provider as mounted: BLE_DISABLED, nothing found, nothing read, nothing connected. */
    constructor ()
      ensures Valid()
      ensures state == BleDisabled && foundDevices == [] && scannedData == []
      ensures connectedDevice == null && !scanning && readingDevice == null && !readLoopScheduled
      ensures !IsBleEnabled() && LastScannedData() == None
    {
      state := BleDisabled;
      foundDevices := [];
      scannedData := [];
      connectedDevice := null;
      scanning := false;
      readingDevice := null;
      readLoopScheduled := false;
    }

    /** `lastScannedData`: the latest chip number, absent when none was read. */
    function LastScannedData(): (last: Option<string>)
      reads this
      ensures last.None? <==> scannedData == []
      ensures last.Some? ==> last.value == scannedData[|scannedData| - 1] && last.value in scannedData
    {
      if |scannedData| == 0 then None else Some(scannedData[|scannedData| - 1])
    }

    /** `isBleEnabled`. */
    function IsBleEnabled(): (enabled: bool)
      reads this
      ensures enabled <==> state != BleDisabled
    {
      state != BleDisabled
    }

    /** `startDeviceScanAction`, from any state. */
    method StartDeviceScanAction()
      requires Valid()
      modifies this
      ensures Valid()
      ensures state == BleEnabled && IsBleEnabled()
      ensures foundDevices == old(foundDevices) && scannedData == old(scannedData)
      ensures connectedDevice == old(connectedDevice) && scanning == old(scanning)
      ensures readingDevice == old(readingDevice) && readLoopScheduled == old(readLoopScheduled)
    {
      state := BleEnabled;
    }

    /** `stopDeviceScanAction`, from any state. */
    method StopDeviceScanAction()
      requires Valid()
      modifies this
      ensures Valid()
      ensures state == BleDisabled && !IsBleEnabled()
      ensures foundDevices == old(foundDevices) && scannedData == old(scannedData)
      ensures connectedDevice == old(connectedDevice) && scanning == old(scanning)
      ensures readingDevice == old(readingDevice) && readLoopScheduled == old(readLoopScheduled)
    {
      state := BleDisabled;
    }

    /** `stopDeviceScan`. */
    method StopDeviceScan()
      modifies this
      ensures !scanning
      ensures state == old(state) && foundDevices == old(foundDevices) && scannedData == old(scannedData)
      ensures connectedDevice == old(connectedDevice)
      ensures readingDevice == old(readingDevice) && readLoopScheduled == old(readLoopScheduled)
    {
      scanning := false;
    }

    /**
     * `startDeviceScan`: stop any scan, enter SCANNING_DEVICES with an empty
     * found list, and scan only if Bluetooth could be enabled.
     */
    method StartDeviceScan(bluetoothEnabled: bool)
      modifies this
      ensures Valid()
      ensures state == ScanningDevices && foundDevices == [] && scanning == bluetoothEnabled
      ensures scannedData == old(scannedData) && connectedDevice == old(connectedDevice)
      ensures readingDevice == old(readingDevice) && readLoopScheduled == old(readLoopScheduled)
    {
      StopDeviceScan();
      state := ScanningDevices;
      foundDevices := [];
      scanning := bluetoothEnabled;
    }

    /**
     * `addDevice`, the scan callback: only a reader seen while scanning
     * counts; a known id changes nothing; a new one is appended and the
     * state becomes DEVICE_FOUND.
     */
    method AddDevice(device: Device)
      requires Valid()
      modifies this
      ensures Valid()
      ensures if IsReaderName(device.name) && old(state) == ScanningDevices && !Known(old(foundDevices), device.id)
              then foundDevices == old(foundDevices) + [device] && state == DeviceFound
              else foundDevices == old(foundDevices) && state == old(state)
      ensures scannedData == old(scannedData) && connectedDevice == old(connectedDevice) && scanning == old(scanning)
      ensures readingDevice == old(readingDevice) && readLoopScheduled == old(readLoopScheduled)
    {
      if IsReaderName(device.name) && state == ScanningDevices {
        var k := 0;
        while k < |foundDevices|
          invariant 0 <= k <= |foundDevices|
          invariant forall j :: 0 <= j < k ==> foundDevices[j].id != device.id
        {
          if foundDevices[k].id == device.id {
            return;
          }
          k := k + 1;
        }
        foundDevices := foundDevices + [device];
        state := DeviceFound;
      }
    }

    /**
     * `disconnectFromDevice`: cancel the connection of a present device
     * (a failure is only logged) and forget the connected device.
     */
    method DisconnectFromDevice(device: Device?)
      modifies this, device
      ensures connectedDevice == null
      ensures device != null ==>
        device.trace == old(device.trace) + [CancelConnection] && device.script == Remaining(old(device.script))
      ensures state == old(state) && foundDevices == old(foundDevices) && scannedData == old(scannedData)
      ensures scanning == old(scanning)
      ensures readingDevice == old(readingDevice) && readLoopScheduled == old(readLoopScheduled)
    {
      if device != null {
        var _ := device.Perform(CancelConnection);
      }
      connectedDevice := null;
    }

    /**
     * `connectToDevice`: enter CONNECTING_TO_DEVICE and connect with
     * bonding; on success remember the device and enter
     * CONNECTED_TO_DEVICE; a failure is only logged and the state stays.
     */
    method ConnectToDevice(device: Device)
      requires Valid()
      modifies this, device
      ensures Valid()
      ensures var run := ConnectRun(device.id, device.characteristics, false, old(device.script));
        && device.trace == old(device.trace) + run.ops && device.script == run.rest
        && (run.result.Ok? ==> connectedDevice == device && state == ConnectedToDevice)
        && (run.result.Err? ==> connectedDevice == old(connectedDevice) && state == ConnectingToDevice)
      ensures foundDevices == old(foundDevices) && scannedData == old(scannedData) && scanning == old(scanning)
      ensures readingDevice == old(readingDevice) && readLoopScheduled == old(readLoopScheduled)
    {
      state := ConnectingToDevice;
      var connected := ConnectToBtr2Device(device, false);
      if connected.Ok? {
        connectedDevice := device;
        state := ConnectedToDevice;
      }
    }

    /**
     * Entering BLE_DISABLED: stop scanning, forget the found devices and
     * the readings, and disconnect a connected device.
     */
    method OnBleDisabled()
      modifies this, connectedDevice
      ensures Valid()
      ensures !scanning && foundDevices == [] && scannedData == [] && connectedDevice == null
      ensures LastScannedData() == None
      ensures old(connectedDevice) != null ==>
        && old(connectedDevice).trace == old(connectedDevice.trace) + [CancelConnection]
        && old(connectedDevice).script == Remaining(old(connectedDevice.script))
      ensures state == old(state)
      ensures readingDevice == old(readingDevice) && readLoopScheduled == old(readLoopScheduled)
    {
      StopDeviceScan();
      foundDevices := [];
      scannedData := [];
      if connectedDevice != null {
        DisconnectFromDevice(connectedDevice);
      }
    }

    /**
     * Entering DEVICE_FOUND: with a device found, stop scanning and connect
     * to the first one; with none, go back to BLE_ENABLED.
     */
    method OnDeviceFound()
      requires Valid()
      modifies this, if foundDevices == [] then {} else {foundDevices[0]}
      ensures Valid()
      ensures foundDevices == old(foundDevices) && scannedData == old(scannedData)
      ensures readingDevice == old(readingDevice) && readLoopScheduled == old(readLoopScheduled)
      ensures old(foundDevices) == [] ==>
        state == BleEnabled && connectedDevice == old(connectedDevice) && scanning == old(scanning)
      ensures old(foundDevices) != [] ==>
        var device := old(foundDevices)[0];
        var run := ConnectRun(device.id, device.characteristics, false, old(device.script));
        && !scanning
        && device.trace == old(device.trace) + run.ops && device.script == run.rest
        && (run.result.Ok? ==> connectedDevice == device && state == ConnectedToDevice)
        && (run.result.Err? ==> connectedDevice == old(connectedDevice) && state == ConnectingToDevice)
    {
      if |foundDevices| > 0 {
        StopDeviceScan();
        ConnectToDevice(foundDevices[0]);
      } else {
        state := BleEnabled;
      }
    }

    /**
     * Entering CONNECTED_TO_DEVICE: move to TRANSMITTING_DATA and start the
     * read loop on the connected device.
     */
    method OnConnected()
      requires Valid()
      modifies this
      ensures Valid()
      ensures state == TransmittingData && readingDevice == connectedDevice && readLoopScheduled
      ensures connectedDevice == old(connectedDevice)
      ensures foundDevices == old(foundDevices) && scannedData == old(scannedData) && scanning == old(scanning)
    {
      state := TransmittingData;
      readingDevice := connectedDevice;
      readLoopScheduled := true;
    }

    /**
     * Entering DEVICE_DISCONNECTED: disconnect, forget the found devices and
     * go back to BLE_ENABLED.
     */
    method OnDeviceDisconnected()
      modifies this, connectedDevice
      ensures Valid()
      ensures state == BleEnabled && IsBleEnabled() && foundDevices == [] && connectedDevice == null
      ensures old(connectedDevice) != null ==>
        && old(connectedDevice).trace == old(connectedDevice.trace) + [CancelConnection]
        && old(connectedDevice).script == Remaining(old(connectedDevice.script))
      ensures scannedData == old(scannedData) && scanning == old(scanning)
      ensures readingDevice == old(readingDevice) && readLoopScheduled == old(readLoopScheduled)
    {
      DisconnectFromDevice(connectedDevice);
      foundDevices := [];
      state := BleEnabled;
    }

    /**
     * The effect that runs when the state changes. `bluetoothEnabled` is
     * what enabling Bluetooth reports when a scan starts.
     */
    method OnStateEntered(bluetoothEnabled: bool)
      requires Valid()
      modifies this, connectedDevice, if foundDevices == [] then {} else {foundDevices[0]}
      ensures Valid()
      ensures old(state) in {ScanningDevices, ConnectingToDevice, TransmittingData} ==>
        state == old(state) && foundDevices == old(foundDevices) && scannedData == old(scannedData)
        && connectedDevice == old(connectedDevice) && scanning == old(scanning)
        && readingDevice == old(readingDevice) && readLoopScheduled == old(readLoopScheduled)
      ensures old(state) == BleDisabled ==>
        state == BleDisabled && !scanning && foundDevices == [] && scannedData == [] && connectedDevice == null
        && (old(connectedDevice) != null ==>
              && old(connectedDevice).trace == old(connectedDevice.trace) + [CancelConnection]
              && old(connectedDevice).script == Remaining(old(connectedDevice.script)))
        && readingDevice == old(readingDevice) && readLoopScheduled == old(readLoopScheduled)
      ensures old(state) == BleEnabled ==>
        state == ScanningDevices && foundDevices == [] && scanning == bluetoothEnabled
        && scannedData == old(scannedData) && connectedDevice == old(connectedDevice)
        && readingDevice == old(readingDevice) && readLoopScheduled == old(readLoopScheduled)
      ensures old(state) == DeviceFound ==>
        foundDevices == old(foundDevices) && scannedData == old(scannedData)
        && readingDevice == old(readingDevice) && readLoopScheduled == old(readLoopScheduled)
        && (old(foundDevices) == [] ==>
              state == BleEnabled && connectedDevice == old(connectedDevice) && scanning == old(scanning))
        && (old(foundDevices) != [] ==>
              var device := old(foundDevices)[0];
              var run := ConnectRun(device.id, device.characteristics, false, old(device.script));
              && !scanning
              && device.trace == old(device.trace) + run.ops && device.script == run.rest
              && (run.result.Ok? ==> connectedDevice == device && state == ConnectedToDevice)
              && (run.result.Err? ==> connectedDevice == old(connectedDevice) && state == ConnectingToDevice))
      ensures old(state) == ConnectedToDevice ==>
        state == TransmittingData && readLoopScheduled && readingDevice == connectedDevice
        && connectedDevice == old(connectedDevice) && foundDevices == old(foundDevices)
        && scannedData == old(scannedData) && scanning == old(scanning)
      ensures old(state) == DeviceDisconnected ==>
        state == BleEnabled && foundDevices == [] && connectedDevice == null
        && (old(connectedDevice) != null ==>
              && old(connectedDevice).trace == old(connectedDevice.trace) + [CancelConnection]
              && old(connectedDevice).script == Remaining(old(connectedDevice.script)))
        && scannedData == old(scannedData) && scanning == old(scanning)
        && readingDevice == old(readingDevice) && readLoopScheduled == old(readLoopScheduled)
    {
      match state {
        case BleDisabled => OnBleDisabled();
        case BleEnabled => StartDeviceScan(bluetoothEnabled);
        case ScanningDevices =>
        case DeviceFound =>
          OnDeviceFound();
        case ConnectingToDevice =>
        case ConnectedToDevice => OnConnected();
        case TransmittingData =>
        case DeviceDisconnected => OnDeviceDisconnected();
      }
    }

    /**
     * The `try` block of a pass of `continuousDataRead`: read a frame from
     * `device` and take its chip number.
     */
    method ReadChipNumber(device: Device?, now: LocalTime, crc: CrcFunctions) returns (outcome: Result<string>)
      modifies device
      ensures device == null ==> outcome == Err(DeviceNotSetError)
      ensures device != null ==>
        && outcome == PassOutcome(device, old(device.script), now, crc)
        && device.trace == old(device.trace) + PassOps(device, old(device.script), now, crc)
        && device.script == PassRest(device, old(device.script), now, crc)
    {
      var read := ReadDataFromBtr2(device, now, crc);
      if read.Err? {
        return Err(read.message);
      }
      outcome := GetChipNumberFromDataString(read.value);
    }

    /**
     * The `catch` and `finally` blocks of a pass that ended with `outcome`:
     * append a chip number that was read; then halt in BLE_DISABLED,
     * disconnect after a lost connection (entering DEVICE_DISCONNECTED), or
     * schedule another pass.
     */
    method FinishPass(outcome: Result<string>) returns (decision: Decision)
      requires Valid()
      modifies this, readingDevice
      ensures Valid()
      ensures foundDevices == old(foundDevices) && scanning == old(scanning) && readingDevice == old(readingDevice)
      ensures decision == Decide(old(state), FailureOf(outcome))
      ensures scannedData == old(scannedData) + (if outcome.Ok? then [outcome.value] else [])
      ensures decision == Reschedule <==> readLoopScheduled
      ensures decision == Disconnect ==> state == DeviceDisconnected && connectedDevice == null
      ensures decision != Disconnect ==> state == old(state) && connectedDevice == old(connectedDevice)
      ensures outcome.Ok? ==> LastScannedData() == Some(outcome.value)
      ensures outcome.Err? ==> LastScannedData() == old(LastScannedData())
      ensures readingDevice != null ==>
        && readingDevice.trace == old(readingDevice.trace) + (if decision == Disconnect then [CancelConnection] else [])
        && readingDevice.script == (if decision == Disconnect then Remaining(old(readingDevice.script)) else old(readingDevice.script))
    {
      var isReading := true;
      if outcome.Ok? {
        scannedData := scannedData + [outcome.value];
      } else if Contains(outcome.message, NotConnectedText) {
        isReading := false;
      }
      if state == BleDisabled {
        decision := Halt;
        readLoopScheduled := false;
      } else if isReading {
        decision := Reschedule;
        readLoopScheduled := true;
      } else {
        decision := Disconnect;
        readLoopScheduled := false;
        DisconnectFromDevice(readingDevice);
        state := DeviceDisconnected;
      }
    }

    /** One pass of `continuousDataRead` on the device the loop was started with. */
    method ReadPass(now: LocalTime, crc: CrcFunctions) returns (outcome: Result<string>, decision: Decision)
      requires Valid() && readLoopScheduled
      modifies this, readingDevice
      ensures Valid()
      ensures foundDevices == old(foundDevices) && scanning == old(scanning) && readingDevice == old(readingDevice)
      ensures readingDevice == null ==> outcome == Err(DeviceNotSetError)
      ensures readingDevice != null ==> outcome == PassOutcome(readingDevice, old(readingDevice.script), now, crc)
      ensures decision == Decide(old(state), FailureOf(outcome))
      ensures scannedData == old(scannedData) + (if outcome.Ok? then [outcome.value] else [])
      ensures decision == Reschedule <==> readLoopScheduled
      ensures decision == Disconnect ==> state == DeviceDisconnected && connectedDevice == null
      ensures decision != Disconnect ==> state == old(state) && connectedDevice == old(connectedDevice)
      ensures outcome.Ok? ==> LastScannedData() == Some(outcome.value)
      ensures outcome.Err? ==> LastScannedData() == old(LastScannedData())
      ensures readingDevice != null ==>
        var rest := PassRest(readingDevice, old(readingDevice.script), now, crc);
        && readingDevice.trace == old(readingDevice.trace) + PassOps(readingDevice, old(readingDevice.script), now, crc)
                                  + (if decision == Disconnect then [CancelConnection] else [])
        && readingDevice.script == (if decision == Disconnect then Remaining(rest) else rest)
    {
      outcome := ReadChipNumber(readingDevice, now, crc);
      decision := FinishPass(outcome);
    }
  }

  /**
   * A device whose link is gone fails every operation with "Device <id> is
   * not connected", so the pass that meets it ends the read loop unless
   * Bluetooth was switched off.
   */
  lemma LostLinkEndsReading(state: BleState, id: string)
    requires state != BleDisabled
    ensures Decide(state, Some(NotConnectedError(id))) == Disconnect
  {
    ContainsInfix("Device " + id + " ", NotConnectedText, "");
    assert "Device " + id + " " + NotConnectedText + "" == NotConnectedError(id);
  }

  /**
   * Rejections of the read itself do not end the loop: "device not set",
   * "CRC32 mismatch", "No data left to read", "error acknowledging data
   * read" and a missing field all lead to another pass.
   */
  lemma ProtocolErrorsReschedule(state: BleState, message: string)
    requires state != BleDisabled
    requires message in {DeviceNotSetError, CrcMismatchError, NoDataLeftError, AcknowledgeError, MissingFieldError}
    ensures Decide(state, Some(message)) == Reschedule
  {
    if message == DeviceNotSetError || message == CrcMismatchError {
      assert |message| < |NotConnectedText|;
    } else if message == AcknowledgeError {
      assert 's' !in message;
    } else {
      assert 'c' !in message;
    }
    LacksNotConnected(message);
  }

  /** A message too short for, or missing a letter of, "is not connected" does not contain it. */
  lemma LacksNotConnected(message: string)
    requires |message| < |NotConnectedText| || 'c' !in message || 's' !in message
    ensures !Contains(message, NotConnectedText)
  {
    if Contains(message, NotConnectedText) {
      ContainsLength(message, NotConnectedText);
      ContainsChar(message, NotConnectedText, 'c');
      ContainsChar(message, NotConnectedText, 's');
      assert false;
    }
  }

  /**
   * A pass on a device that answers nothing more fails at its first read
   * with "Device <id> is not connected" and, unless Bluetooth was switched
   * off, ends the read loop.
   */
  lemma SilentDeviceEndsReading(device: Device, state: BleState, now: LocalTime, crc: CrcFunctions)
    requires state != BleDisabled
    ensures PassOutcome(device, [], now, crc) == Err(NotConnectedError(device.id))
    ensures Decide(state, FailureOf(PassOutcome(device, [], now, crc))) == Disconnect
  {
    LostLinkEndsReading(state, device.id);
  }
}
