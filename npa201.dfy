/** The driver for the Amphenol NPA 201 pressure sensor: one fixed read command,
    a settle delay, a five-byte response frame kept between calls, and raw
    16-bit values assembled from that frame. */
module NPA201 {
  import opened I2C

  type uint16 = bv16

  /** The sensor's bus address. */
  const Address: byte := 0x27
  /** "Read full measurement data", the only command the sensor supports. */
  const Command: byte := 0xAC
  /** Bytes in a response frame: status, pressure high, pressure low,
      temperature high, temperature low. */
  const FrameLength: nat := 5
  /** Milliseconds the driver waits between the command and the read. */
  const SettleMillis: nat := 20

  // ---------------------------------------------------------------------------
  // Byte layout

  /** Widening a byte to 16 bits keeps its value. */
  lemma WidenExact(b: byte)
    ensures (b as bv16) as int == b as int
  {
  }

  /** Narrowing a 16-bit value below 256 to a byte keeps its value. */
  lemma NarrowExact(v: bv16)
    requires v < 256
    ensures (v as byte) as int == v as int
  {
  }

  /** On bytes widened to 16 bits, shifting by 8 and or-ing is multiplying and adding. */
  lemma ShiftOrIsSum(h: bv16, l: bv16)
    requires h < 256 && l < 256
    ensures (h << 8) | l == h * 256 + l
  {
  }

  /** A sum of two values below 256, as hi * 256 + lo in 16 bits, does not overflow, so it converts to the same integer sum. */
  lemma SumToInt(h: bv16, l: bv16)
    requires h < 256 && l < 256
    ensures (h * 256 + l) as int == h as int * 256 + l as int
  {
  }

  /** Shifting right by 8 is dividing by 256, and leaves a value below 256. */
  lemma ShiftIsDiv(v: bv16)
    ensures v >> 8 == v / 256 && v >> 8 < 256
  {
  }

  /** Bit-vector division by 256 converts to integer division by 256. */
  lemma DivToInt(v: bv16)
    ensures (v / 256) as int == v as int / 256
  {
  }

  /** A 16-bit value is its bits 15:8 times 256 plus its bits 7:0. */
  lemma ShiftMaskIsSum(v: bv16)
    ensures v == (v >> 8) * 256 + (v & 0xFF)
    ensures v >> 8 < 256 && v & 0xFF < 256
  {
  }

  /** `(hi << 8) | lo`: the high byte fills bits 15:8 and the low byte bits 7:0,
      so the value is hi * 256 + lo. */
  function Combine(hi: byte, lo: byte): (r: uint16)
    ensures r as int == hi as int * 256 + lo as int
  {
    var h, l := hi as bv16, lo as bv16;
    WidenExact(hi);
    WidenExact(lo);
    ShiftOrIsSum(h, l);
    SumToInt(h, l);
    (h << 8) | l
  }

  /** Bits 15:8 of a 16-bit value. */
  function HighByte(v: uint16): (h: byte)
    ensures h as int == v as int / 256
  {
    ShiftIsDiv(v);
    DivToInt(v);
    NarrowExact(v >> 8);
    (v >> 8) as byte
  }

  /** Bits 7:0 of a 16-bit value. */
  function LowByte(v: uint16): (l: byte)
    ensures l as int == v as int % 256
  {
    ShiftMaskIsSum(v);
    SumToInt(v >> 8, v & 0xFF);
    ShiftIsDiv(v);
    DivToInt(v);
    NarrowExact(v & 0xFF);
    (v & 0xFF) as byte
  }

  /** Splitting a combined pair gives the pair back. */
  lemma SplitCombine(hi: byte, lo: byte)
    ensures HighByte(Combine(hi, lo)) == hi
    ensures LowByte(Combine(hi, lo)) == lo
  {
  }

  /** Combining the two halves of a value gives the value back. */
  lemma CombineSplit(v: uint16)
    ensures Combine(HighByte(v), LowByte(v)) == v
  {
  }

  /** The extreme byte pairs give the extreme raw values. */
  lemma CombineBounds()
    ensures Combine(0x00, 0x00) == 0x0000
    ensures Combine(0xFF, 0xFF) == 0xFFFF
  {
  }

  // ---------------------------------------------------------------------------
  // What one read of the response does to the frame

  /** The queue after one pass of the inner loop has taken five reads from it. */
  function Rest(q: seq<byte>): seq<byte>
  {
    if |q| <= FrameLength then [] else q[FrameLength..]
  }

  /** The value the k-th read of a pass yields from the queue q. */
  function Slot(q: seq<byte>, idle: byte, k: nat): byte
  {
    if k < |q| then q[k] else idle
  }

  /** The k-th read of a pass, when the queue stood at q when the pass began. */
  lemma ReadStep(q: seq<byte>, idle: byte, k: nat, rx: seq<byte>, b: byte)
    requires rx == if k <= |q| then q[k..] else []
    requires b == if rx == [] then idle else rx[0]
    ensures b == Slot(q, idle, k)
    ensures (if rx == [] then [] else rx[1..]) == if k + 1 <= |q| then q[k + 1..] else []
  {
  }

  /** The five values one pass of the inner loop stores: the waiting bytes in
      order, then the idle value once the queue has run dry. */
  function Fill(q: seq<byte>, idle: byte): (f: seq<byte>)
    ensures |f| == FrameLength
    ensures |q| >= FrameLength ==> f == q[..FrameLength]
  {
    seq(FrameLength, k requires 0 <= k < FrameLength => Slot(q, idle, k))
  }

  /** How many passes the `while (available())` loop makes for m waiting bytes. */
  function Passes(m: nat): nat
  {
    if m == 0 then 0 else 1 + Passes(if m <= FrameLength then 0 else m - FrameLength)
  }

  /** The frame after the read loop has drained the queue q. */
  function Drained(q: seq<byte>, idle: byte, frame: seq<byte>): (r: seq<byte>)
    ensures |r| == if q == [] then |frame| else FrameLength
    decreases |q|
  {
    if q == [] then frame else Drained(Rest(q), idle, Fill(q, idle))
  }

  /** One pass of the read loop, as the recursion of Drained and Passes sees it. */
  lemma DrainStep(q: seq<byte>, idle: byte, frame: seq<byte>)
    requires q != []
    ensures Drained(q, idle, frame) == Drained(Rest(q), idle, Fill(q, idle))
    ensures Passes(|q|) == 1 + Passes(|Rest(q)|)
    ensures Rest(q) == if FrameLength <= |q| then q[FrameLength..] else []
  {
    var m := |q|;
    assert |Rest(q)| == if m <= FrameLength then 0 else m - FrameLength;
    assert Passes(m) == 1 + Passes(if m <= FrameLength then 0 else m - FrameLength);
  }

  /** The loop makes one pass per started group of five bytes. */
  lemma {:induction false} PassesClosedForm(m: nat)
    ensures Passes(m) == (m + 4) / 5
    decreases m
  {
    if m > FrameLength {
      PassesClosedForm(m - FrameLength);
    }
  }

  /** Where the last pass of the read loop starts in a non-empty queue. */
  function LastPassStart(m: nat): nat
    requires m > 0
  {
    FrameLength * (Passes(m) - 1)
  }

  /** The drained frame is exactly what the last pass read: the last started
      group of five bytes, padded with the idle value. */
  lemma {:induction false} DrainedLastPass(q: seq<byte>, idle: byte, frame: seq<byte>)
    requires q != []
    ensures LastPassStart(|q|) < |q|
    ensures Drained(q, idle, frame) == Fill(q[LastPassStart(|q|)..], idle)
    decreases |q|
  {
    if |q| > FrameLength {
      var q' := q[FrameLength..];
      DrainedLastPass(q', idle, Fill(q, idle));
      assert q'[LastPassStart(|q'|)..] == q[LastPassStart(|q|)..];
    } else {
      assert Passes(|q|) == 1 + Passes(0);
    }
  }

  /** No slot of the earlier frame survives a read that found any byte. */
  lemma DrainedNoPartialOverwrite(q: seq<byte>, idle: byte, frame1: seq<byte>, frame2: seq<byte>)
    requires q != []
    ensures Drained(q, idle, frame1) == Drained(q, idle, frame2)
  {
    DrainedLastPass(q, idle, frame1);
    DrainedLastPass(q, idle, frame2);
  }

  /** When the device supplies whole frames, the last of them is kept. */
  lemma DrainedWholeFrames(q: seq<byte>, idle: byte, frame: seq<byte>)
    requires q != [] && |q| % FrameLength == 0
    ensures Drained(q, idle, frame) == q[|q| - FrameLength..]
  {
    DrainedLastPass(q, idle, frame);
    PassesClosedForm(|q|);
    assert LastPassStart(|q|) == |q| - FrameLength;
  }

  /** When the device supplies exactly b0..b4, the frame becomes [b0, b1, b2, b3, b4]. */
  lemma DrainedOneFrame(q: seq<byte>, idle: byte, frame: seq<byte>)
    requires |q| == FrameLength
    ensures Drained(q, idle, frame) == q
  {
    DrainedWholeFrames(q, idle, frame);
  }

  /** The frame after one refresh: drained on success, untouched otherwise. */
  function AfterRefresh(frame: seq<byte>, s: TxStatus, q: seq<byte>, idle: byte): seq<byte>
  {
    if s == Success then Drained(q, idle, frame) else frame
  }

  /** A failed command leaves the frame as it was. */
  lemma FailedRefreshKeepsFrame(frame: seq<byte>, s: TxStatus, q: seq<byte>, idle: byte)
    requires s != Success
    ensures AfterRefresh(frame, s, q, idle) == frame
  {
  }

  /** A successful command that finds nothing to read also leaves the frame as it was. */
  lemma EmptyRefreshKeepsFrame(frame: seq<byte>, q: seq<byte>, idle: byte)
    requires q == []
    ensures AfterRefresh(frame, Success, q, idle) == frame
  {
  }

  /** A successful command answered by one frame stores that frame. */
  lemma FullRefreshStoresFrame(frame: seq<byte>, q: seq<byte>, idle: byte)
    requires |q| == FrameLength
    ensures AfterRefresh(frame, Success, q, idle) == q
  {
    DrainedOneFrame(q, idle, frame);
  }

  // ---------------------------------------------------------------------------
  // The calls one refresh makes on the bus

  function Reads(n: nat): seq<Event>
  {
    seq(n, _ => Read)
  }

  lemma ReadsSnoc(n: nat)
    ensures Reads(n) + [Read] == Reads(n + 1)
  {
    assert forall k :: 0 <= k < n + 1 ==> (Reads(n) + [Read])[k] == Reads(n + 1)[k];
  }

  lemma LogStep(log: seq<Event>, n: nat)
    ensures log + Reads(n) + [Read] == log + Reads(n + 1)
  {
    ReadsSnoc(n);
  }

  /** The calls that send the read command. */
  function CommandLog(): seq<Event>
  {
    [Begin(Address), Write(Command), End]
  }

  /** The calls that read the response when m bytes are waiting. */
  function ReadLog(m: nat): seq<Event>
  {
    [Request(Address, FrameLength)] + Reads(FrameLength * Passes(m))
  }

  /** The calls one refresh makes when the command ends with s and m bytes are waiting. */
  function RefreshLog(s: TxStatus, m: nat): seq<Event>
  {
    CommandLog() + (if s == Success then [Wait(SettleMillis)] + ReadLog(m) else [])
  }

  /** How often e occurs in log. */
  function Count(log: seq<Event>, e: Event): (n: nat)
    ensures n <= |log|
    ensures e !in log ==> n == 0
  {
    if log == [] then 0 else (if log[0] == e then 1 else 0) + Count(log[1..], e)
  }

  lemma {:induction false} CountAppend(a: seq<Event>, b: seq<Event>, e: Event)
    ensures Count(a + b, e) == Count(a, e) + Count(b, e)
    decreases |a|
  {
    if a == [] {
      assert a + b == b;
    } else {
      assert (a + b)[1..] == a[1..] + b;
      CountAppend(a[1..], b, e);
    }
  }

  lemma CountCommandLog(e: Event)
    ensures Count(CommandLog(), e) == (if e == Begin(Address) then 1 else 0)
      + (if e == Write(Command) then 1 else 0) + (if e == End then 1 else 0)
  {
    var cmd := CommandLog();
    assert cmd[1..] == [Write(Command), End] && cmd[1..][1..] == [End] && cmd[1..][1..][1..] == [];
  }

  /** A refresh is one attempt: one transmission begun, one command byte, one
      transmission ended, whatever the outcome. */
  lemma OneAttempt(s: TxStatus, m: nat)
    ensures Count(RefreshLog(s, m), Begin(Address)) == 1
    ensures Count(RefreshLog(s, m), Write(Command)) == 1
    ensures Count(RefreshLog(s, m), End) == 1
  {
    var tail := if s == Success then [Wait(SettleMillis)] + ReadLog(m) else [];
    assert forall k :: 0 <= k < |tail| ==> tail[k].Wait? || tail[k].Request? || tail[k].Read?;
    assert Begin(Address) !in tail && Write(Command) !in tail && End !in tail;
    CountCommandLog(Begin(Address));
    CountCommandLog(Write(Command));
    CountCommandLog(End);
    CountAppend(CommandLog(), tail, Begin(Address));
    CountAppend(CommandLog(), tail, Write(Command));
    CountAppend(CommandLog(), tail, End);
  }

  /** Appending one refresh to any log adds exactly one attempt. */
  lemma OneMoreAttempt(log: seq<Event>, s: TxStatus, m: nat)
    ensures Count(log + RefreshLog(s, m), Begin(Address)) == Count(log, Begin(Address)) + 1
  {
    OneAttempt(s, m);
    CountAppend(log, RefreshLog(s, m), Begin(Address));
  }

  /** A refresh's calls, in the order the driver makes them. */
  lemma RefreshLogParts(log: seq<Event>, s: TxStatus, m: nat)
    ensures s == Success ==> log + CommandLog() + [Wait(SettleMillis)] + ReadLog(m) == log + RefreshLog(s, m)
    ensures s != Success ==> log + CommandLog() == log + RefreshLog(s, m)
  {
  }

  /** A failed command is followed by no wait, no request and no read. */
  lemma FailedRefreshLog(s: TxStatus, m: nat)
    requires s != Success
    ensures RefreshLog(s, m) == [Begin(Address), Write(Command), End]
    ensures forall e :: e in RefreshLog(s, m) ==> !e.Wait? && !e.Request? && !e.Read?
  {
  }

  /** After a successful command the driver waits 20 ms, then requests five
      bytes, then only reads, five per pass of the loop. */
  lemma SuccessfulRefreshLog(m: nat)
    ensures |RefreshLog(Success, m)| == 5 + FrameLength * Passes(m)
    ensures RefreshLog(Success, m)[..3] == CommandLog()
    ensures RefreshLog(Success, m)[3] == Wait(SettleMillis)
    ensures RefreshLog(Success, m)[4] == Request(Address, FrameLength)
    ensures forall k :: 5 <= k < |RefreshLog(Success, m)| ==> RefreshLog(Success, m)[k] == Read
  {
  }

  /** A one-frame response is read with exactly five reads, an empty one with none. */
  lemma ReadCounts()
    ensures ReadLog(FrameLength) == [Request(Address, FrameLength), Read, Read, Read, Read, Read]
    ensures ReadLog(0) == [Request(Address, FrameLength)]
  {
    assert Passes(FrameLength) == 1;
    assert Reads(5) == [Read, Read, Read, Read, Read];
  }

  // ---------------------------------------------------------------------------
  // The driver

  /** The single-precision value a float getter computes; the arithmetic is
      not modelled, only the raw count it starts from. */
  datatype Derived =
    | PressureOf(rawPressure: uint16)
    | TemperatureOf(rawTemperature: uint16)
    | AltitudeOf(pressure: Derived)

  class Sensor {
    /** the transport the driver was given */
    const bus: ScriptedBus
    /** the last frame read, NPADATA */
    const data: array<byte>

    ghost predicate Valid()
      reads this
    {
      data.Length == FrameLength
    }

    /** The effect of exactly one refresh on the frame and the bus. */
    twostate predicate RefreshedOnce()
      reads this, data, bus
    {
      && data[..] == AfterRefresh(old(data[..]), old(bus.endStatus), old(bus.rx), bus.idle)
      && bus.rx == (if old(bus.endStatus) == Success then [] else old(bus.rx))
      && bus.log == old(bus.log) + RefreshLog(old(bus.endStatus), |old(bus.rx)|)
    }

    /** The frame starts as all zeros. */
    constructor (bus: ScriptedBus)
      ensures Valid() && fresh(data) && this.bus == bus
      ensures data[..] == [0, 0, 0, 0, 0]
    {
      this.bus := bus;
      data := new byte[FrameLength](_ => 0);
    }

    /** Sends the read command and passes on the status code of the transmission. */
    method SendNPAReadCommand() returns (code: byte)
      modifies bus`log
      ensures code == StatusCode(bus.endStatus)
      ensures bus.log == old(bus.log) + CommandLog()
    {
      bus.BeginTransmission(Address);
      bus.Write(Command);
      var s := bus.EndTransmission();
      code := StatusCode(s);
    }

    /** Requests a frame and stores five bytes per pass while any are waiting. */
    method ReadNPAData()
      requires Valid()
      modifies data, bus`rx, bus`log
      ensures data[..] == Drained(old(bus.rx), bus.idle, old(data[..]))
      ensures bus.rx == []
      ensures bus.log == old(bus.log) + ReadLog(|old(bus.rx)|)
    {
      ghost var q0, f0, idle := bus.rx, data[..], bus.idle;
      bus.RequestFrom(Address, FrameLength);
      ghost var start := bus.log;
      ghost var passes := 0;
      var waiting := bus.Available();
      while waiting != 0
        invariant waiting == |bus.rx|
        invariant Drained(bus.rx, idle, data[..]) == Drained(q0, idle, f0)
        invariant passes + Passes(|bus.rx|) == Passes(|q0|)
        invariant bus.log == start + Reads(FrameLength * passes)
        decreases |bus.rx|
      {
        ghost var q, before, done := bus.rx, data[..], FrameLength * passes;
        for i := 0 to FrameLength
          invariant bus.rx == if i <= |q| then q[i..] else []
          invariant forall k :: 0 <= k < i ==> data[k] == Slot(q, idle, k)
          invariant bus.log == start + Reads(done + i)
        {
          ghost var rx := bus.rx;
          var b := bus.Read();
          ReadStep(q, idle, i, rx, b);
          data[i] := b;
          LogStep(start, done + i);
        }
        assert data[..] == Fill(q, idle);
        DrainStep(q, idle, before);
        passes := passes + 1;
        waiting := bus.Available();
      }
    }

    /** One refresh: the command, then on success the settle delay and the read.
        On failure the frame keeps what the previous read left there. */
    method GetData() returns (ok: bool)
      requires Valid()
      modifies data, bus`rx, bus`log
      ensures ok <==> old(bus.endStatus) == Success
      ensures RefreshedOnce()
      ensures Count(bus.log, Begin(Address)) == Count(old(bus.log), Begin(Address)) + 1
    {
      ghost var log0, s, m := bus.log, bus.endStatus, |bus.rx|;
      OneMoreAttempt(log0, s, m);
      RefreshLogParts(log0, s, m);
      var code := SendNPAReadCommand();
      if code == 0 {
        bus.Wait(SettleMillis);
        ReadNPAData();
        return true;
      }
      return false;
    }

    /** Refreshes, then returns the status byte of the frame. */
    method GetStatus() returns (status: byte)
      requires Valid()
      modifies data, bus`rx, bus`log
      ensures RefreshedOnce()
      ensures Count(bus.log, Begin(Address)) == Count(old(bus.log), Begin(Address)) + 1
      ensures status == data[0]
    {
      var _ := GetData();
      status := data[0];
    }

    /** Refreshes, then returns the pressure bytes as one big-endian value. */
    method GetRawPressure() returns (raw: uint16)
      requires Valid()
      modifies data, bus`rx, bus`log
      ensures RefreshedOnce()
      ensures Count(bus.log, Begin(Address)) == Count(old(bus.log), Begin(Address)) + 1
      ensures raw as int == data[1] as int * 256 + data[2] as int
      ensures HighByte(raw) == data[1] && LowByte(raw) == data[2]
    {
      var _ := GetData();
      raw := Combine(data[1], data[2]);
      SplitCombine(data[1], data[2]);
    }

    /** Refreshes, then returns the temperature bytes as one big-endian value. */
    method GetRawTemperature() returns (raw: uint16)
      requires Valid()
      modifies data, bus`rx, bus`log
      ensures RefreshedOnce()
      ensures Count(bus.log, Begin(Address)) == Count(old(bus.log), Begin(Address)) + 1
      ensures raw as int == data[3] as int * 256 + data[4] as int
      ensures HighByte(raw) == data[3] && LowByte(raw) == data[4]
    {
      var _ := GetData();
      raw := Combine(data[3], data[4]);
      SplitCombine(data[3], data[4]);
    }

    /** The pressure, computed from one call of GetRawPressure. */
    method GetPressure() returns (p: Derived)
      requires Valid()
      modifies data, bus`rx, bus`log
      ensures RefreshedOnce()
      ensures Count(bus.log, Begin(Address)) == Count(old(bus.log), Begin(Address)) + 1
      ensures p == PressureOf(Combine(data[1], data[2]))
    {
      var raw := GetRawPressure();
      CombineSplit(raw);
      p := PressureOf(raw);
    }

    /** The temperature, computed from one call of GetRawTemperature. */
    method GetTemperature() returns (t: Derived)
      requires Valid()
      modifies data, bus`rx, bus`log
      ensures RefreshedOnce()
      ensures Count(bus.log, Begin(Address)) == Count(old(bus.log), Begin(Address)) + 1
      ensures t == TemperatureOf(Combine(data[3], data[4]))
    {
      var raw := GetRawTemperature();
      CombineSplit(raw);
      t := TemperatureOf(raw);
    }

    /** The altitude, computed from one call of GetPressure. */
    method GetAltitude() returns (a: Derived)
      requires Valid()
      modifies data, bus`rx, bus`log
      ensures RefreshedOnce()
      ensures Count(bus.log, Begin(Address)) == Count(old(bus.log), Begin(Address)) + 1
      ensures a == AltitudeOf(PressureOf(Combine(data[1], data[2])))
    {
      var p := GetPressure();
      a := AltitudeOf(p);
    }
  }
}
