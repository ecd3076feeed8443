/** A scripted stand-in for the two-wire (I2C) bus that the NPA 201 driver talks
    through. The real transport is not modelled: every answer it gives is a field
    that a test script sets, and every call the driver makes is appended to a log. */
module I2C {

  type byte = bv8

  /** Outcome of ending a transmission, as the bus reports it. */
  datatype TxStatus = Success | DataTooLong | AddressNack | DataNack | OtherError

  /** The numeric code endTransmission() returns for each outcome (0 to 4). */
  function StatusCode(s: TxStatus): (c: byte)
    ensures c <= 4
    ensures c == 0 <==> s == Success
  {
    match s
    case Success => 0
    case DataTooLong => 1
    case AddressNack => 2
    case DataNack => 3
    case OtherError => 4
  }

  /** The outcome a code 0 to 4 stands for. */
  function FromCode(c: byte): (s: TxStatus)
    requires c <= 4
    ensures StatusCode(s) == c
  {
    if c == 0 then Success
    else if c == 1 then DataTooLong
    else if c == 2 then AddressNack
    else if c == 3 then DataNack
    else OtherError
  }

  /** Different outcomes have different codes, so a code loses nothing. */
  lemma CodeRoundTrip(s: TxStatus)
    ensures StatusCode(s) <= 4 && FromCode(StatusCode(s)) == s
  {
  }

  /** One call the driver makes on the bus. */
  datatype Event =
    | Begin(address: byte)
    | Write(value: byte)
    | End
    | Request(address: byte, quantity: nat)
    | Read
    | Wait(millis: nat)

  /** The transport as a scripted oracle. */
  class ScriptedBus {
    /** what the next endTransmission() reports */
    var endStatus: TxStatus
    /** the bytes the device has put on the bus, in arrival order */
    var rx: seq<byte>
    /** what read() yields once rx is empty: one scripted byte, the same on every such read */
    var idle: byte
    /** every call made so far, oldest first */
    var log: seq<Event>

    constructor (endStatus: TxStatus, rx: seq<byte>, idle: byte)
      ensures this.endStatus == endStatus && this.rx == rx && this.idle == idle
      ensures log == []
    {
      this.endStatus := endStatus;
      this.rx := rx;
      this.idle := idle;
      log := [];
    }

    method BeginTransmission(address: byte)
      modifies this`log
      ensures log == old(log) + [Begin(address)]
    {
      log := log + [Begin(address)];
    }

    method Write(value: byte)
      modifies this`log
      ensures log == old(log) + [Event.Write(value)]
    {
      log := log + [Event.Write(value)];
    }

    method EndTransmission() returns (s: TxStatus)
      modifies this`log
      ensures s == endStatus
      ensures log == old(log) + [End]
    {
      log := log + [End];
      s := endStatus;
    }

    method RequestFrom(address: byte, quantity: nat)
      modifies this`log
      ensures log == old(log) + [Request(address, quantity)]
    {
      log := log + [Request(address, quantity)];
    }

    /** The number of bytes waiting to be read; a query, so it is not logged. */
    method Available() returns (n: nat)
      ensures n == |rx|
    {
      n := |rx|;
    }

    /** Takes the oldest waiting byte, or yields the idle value when none is waiting. */
    method Read() returns (b: byte)
      modifies this`rx, this`log
      ensures b == if old(rx) == [] then idle else old(rx)[0]
      ensures rx == if old(rx) == [] then [] else old(rx)[1..]
      ensures log == old(log) + [Event.Read]
    {
      if rx == [] {
        b := idle;
      } else {
        b := rx[0];
        rx := rx[1..];
      }
      log := log + [Event.Read];
    }

    method Wait(millis: nat)
      modifies this`log
      ensures log == old(log) + [Event.Wait(millis)]
    {
      log := log + [Event.Wait(millis)];
    }
  }
}
