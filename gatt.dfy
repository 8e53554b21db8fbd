/**
 * The BLE device the BTR2 code talks to, reduced to what the protocol needs:
 * the MOBA BTR2 service's characteristics, the operations the code performs on
 * a device, and a device whose answers are scripted in advance and which keeps
 * a trace of every operation performed on it.
 */
module Gatt {
  import opened Wire

  const ServiceUuid: string := "00001630-1212-efde-1523-785feabcd123"
  /** Handle 32: reads give [length, read pointer]; writes of [length, offset] select what the next object read returns. */
  const ReadControlPoint: string := "00001631-1212-efde-1523-785feabcd123"
  /** Handle 34: the data chunk selected through the read control point. */
  const ReadObject: string := "00001632-1212-efde-1523-785feabcd123"
  /** Handle 36: writes of [length, offset] announce the next acknowledgement chunk. */
  const WriteControlPoint: string := "00001633-1212-efde-1523-785feabcd123"
  /** Handle 38: the acknowledgement chunks. */
  const WriteObject: string := "00001634-1212-efde-1523-785feabcd123"
  /** Reading it makes the device ask for a bond. */
  const BondingCharacteristic: string := "00001644-1212-efde-1523-785feabcd123"

  datatype BleCharacteristic = BleCharacteristic(serviceUuid: string, characteristicUuid: string)

  /**
   * What the code asks of a device. Reads and writes all address the MOBA
   * BTR2 service; `Discover` stands for discovering all services and their
   * characteristics.
   */
  datatype Op =
    | Connect
    | Discover
    | Read(characteristic: string)
    | Write(characteristic: string, value: seq<Byte>)
    | CancelConnection

  /** How the device settles one operation: with a value (empty for a missing one), or with an error. */
  datatype Reply = Answer(value: seq<Byte>) | Failure(message: string)

  /** The error the BLE library reports for an operation on a device the link to which is gone. */
  function NotConnectedError(id: string): string
  {
    "Device " + id + " is not connected"
  }

  /** The reply to the next operation: the next scripted one, or the lost link once the script is used up. */
  function NextReply(id: string, script: seq<Reply>): (reply: Reply)
    ensures script == [] ==> reply == Failure(NotConnectedError(id))
    ensures script != [] ==> reply == script[0]
  {
    if script == [] then Failure(NotConnectedError(id)) else script[0]
  }

  function Remaining(script: seq<Reply>): (rest: seq<Reply>)
    ensures |rest| == if script == [] then 0 else |script| - 1
  {
    if script == [] then [] else script[1..]
  }

  /**
   * A device as a script of replies. Every operation is appended to `trace`
   * and settled with the next reply of `script`; what discovery finds is
   * fixed as `characteristics`.
   */
  class Device {
    const id: string
    const name: Option<string>
    const characteristics: seq<BleCharacteristic>
    var script: seq<Reply>
    var trace: seq<Op>

    constructor (id: string, name: Option<string>, characteristics: seq<BleCharacteristic>, script: seq<Reply>)
      ensures this.id == id && this.name == name && this.characteristics == characteristics
      ensures this.script == script && trace == []
    {
      this.id := id;
      this.name := name;
      this.characteristics := characteristics;
      this.script := script;
      trace := [];
    }

    /** Performs `op`: records it and settles it with the next reply. */
    method Perform(op: Op) returns (reply: Reply)
      modifies this
      ensures reply == NextReply(id, old(script))
      ensures script == Remaining(old(script))
      ensures trace == old(trace) + [op]
    {
      reply := NextReply(id, script);
      script := Remaining(script);
      trace := trace + [op];
    }
  }
}
