/** Clients of the driver over a scripted bus: what a caller can conclude from
    the driver's contracts alone. */
module Scenarios {
  import opened I2C
  import opened NPA201

  /** A device that answers [0x00, 0x20, 0x00, 0x40, 0x00] to every command
      gives status 0x00, raw pressure 0x2000 and raw temperature 0x4000. */
  method ExampleFrame() returns (status: byte, rawPressure: uint16, rawTemperature: uint16)
    ensures status == 0x00 && rawPressure == 0x2000 && rawTemperature == 0x4000
  {
    var frame: seq<byte> := [0x00, 0x20, 0x00, 0x40, 0x00];
    var bus := new ScriptedBus(Success, frame, 0xFF);
    var npa := new Sensor(bus);
    FullRefreshStoresFrame(npa.data[..], frame, bus.idle);
    status := npa.GetStatus();
    bus.rx := frame;
    FullRefreshStoresFrame(npa.data[..], frame, bus.idle);
    rawPressure := npa.GetRawPressure();
    CombineSplit(rawPressure);
    bus.rx := frame;
    FullRefreshStoresFrame(npa.data[..], frame, bus.idle);
    rawTemperature := npa.GetRawTemperature();
    CombineSplit(rawTemperature);
  }

  /** Before any successful read, a failed command serves the all-zero frame. */
  method NothingReadYet(s: TxStatus, pending: seq<byte>) returns (status: byte, rawPressure: uint16)
    requires s != Success
    ensures status == 0 && rawPressure == 0
  {
    var bus := new ScriptedBus(s, pending, 0xFF);
    var npa := new Sensor(bus);
    status := npa.GetStatus();
    rawPressure := npa.GetRawPressure();
    CombineSplit(rawPressure);
  }

  /** After a frame was read, a failed command serves that frame again and
      makes only the three command calls: no wait, no request, no read. */
  method StaleOnFailure(seed: seq<byte>, s: TxStatus, junk: seq<byte>)
    returns (status: byte, calls: seq<Event>)
    requires |seed| == FrameLength && s != Success
    ensures status == seed[0]
    ensures calls == [Begin(0x27), Write(0xAC), End]
  {
    var bus := new ScriptedBus(Success, seed, 0xFF);
    var npa := new Sensor(bus);
    FullRefreshStoresFrame(npa.data[..], seed, bus.idle);
    var ok := npa.GetData();
    assert ok && npa.data[..] == seed;
    bus.endStatus := s;
    bus.rx := junk;
    var before := bus.log;
    status := npa.GetStatus();
    assert bus.log == before + RefreshLog(s, |junk|);
    calls := bus.log[|before|..];
    FailedRefreshLog(s, |junk|);
  }
}
