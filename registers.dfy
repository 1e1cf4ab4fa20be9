/** The holding-register image of one weather reading
    (`update_holding_registers`), and what the request handler serves from it. */
module Registers {
  import opened Wrappers
  import opened Bytes
  import Crc16
  import Server

  /** One reading: the six fields of its timestamp and the five sensor values
      already scaled to integers (temperature in tenths of a degree, humidity,
      wind speed and rainfall in hundredths, wind direction in tenths of a
      degree). */
  datatype Reading = Reading(
    year: int, month: int, day: int, hour: int, minute: int, second: int,
    temp: int, humidity: int, windSpeed: int, windDir: int, rainfall: int)

  /** The register write `setValues(fx, address, values)` the update issues. */
  datatype SetValues = SetValues(fx: nat, address: nat, values: seq<int>)

  const RegisterCount: nat := 11

  /** The register list, in wire order. */
  function HoldingRegisterValues(p: Reading): (r: seq<int>)
    ensures |r| == RegisterCount
  {
    [p.year, p.month, p.day, p.hour, p.minute, p.second,
     p.temp, p.humidity, p.windSpeed, p.windDir, p.rainfall]
  }

  /** A register list read back as a reading; None unless it has exactly
      eleven entries. */
  function ReadingAt(regs: seq<int>): (r: Option<Reading>)
    ensures r.Some? <==> |regs| == RegisterCount
  {
    if |regs| != RegisterCount then None
    else Some(Reading(regs[0], regs[1], regs[2], regs[3], regs[4], regs[5],
                      regs[6], regs[7], regs[8], regs[9], regs[10]))
  }

  /** Every field lands in its own register, so the reading can be read back. */
  lemma ReadingRoundTrip(p: Reading)
    ensures ReadingAt(HoldingRegisterValues(p)) == Some(p)
  {
  }

  /** Every eleven-register list is the image of exactly one reading. */
  lemma RegistersRoundTrip(regs: seq<int>)
    requires |regs| == RegisterCount
    ensures HoldingRegisterValues(ReadingAt(regs).value) == regs
  {
  }

  /** The register write for a reading: nothing when the parameter file gave
      no reading, else the eleven-entry list at address 0 with `fx` 1. */
  function UpdateHoldingRegisters(params: Option<Reading>): (r: Option<SetValues>)
    ensures r.None? <==> params.None?
    ensures r.Some? ==> r.value.fx == 1 && r.value.address == 0
    ensures r.Some? ==> |r.value.values| == RegisterCount && ReadingAt(r.value.values) == params
  {
    match params
    case None => None
    case Some(p) =>
      ReadingRoundTrip(p);
      Some(SetValues(1, 0, HoldingRegisterValues(p)))
  }

  // ---- Serving a reading ------------------------------------------------

  /** No register of the reading is 32768 or more, so the signed two-byte
      conversion accepts every clamped value. */
  predicate FitsSigned(p: Reading) {
    forall i :: 0 <= i < RegisterCount ==> HoldingRegisterValues(p)[i] < 0x8000
  }

  /** A reading whose registers fit is served as one 27-byte frame with byte
      count 22 that decodes to the clamped registers, and to the registers
      themselves when none is negative. */
  lemma ServedReading(slaveId: Byte, functionCode: Byte, p: Reading)
    requires FitsSigned(p)
    ensures var r := Server.EncodeResponse(slaveId, functionCode, HoldingRegisterValues(p));
      && r.Sent? && |r.frame| == 27 && r.frame[2] == 22
      && Server.DecodeResponse(r.frame) ==
           Some(Server.Reply(slaveId, functionCode, Server.ClampAll(HoldingRegisterValues(p))))
      && ((forall i :: 0 <= i < RegisterCount ==> HoldingRegisterValues(p)[i] >= 0) ==>
            Server.ClampAll(HoldingRegisterValues(p)) == HoldingRegisterValues(p))
  {
    var regs := HoldingRegisterValues(p);
    assert Server.Encodable(regs);
    Server.DecodeSuccessFrame(slaveId, functionCode, regs);
    if forall i :: 0 <= i < RegisterCount ==> regs[i] >= 0 {
      var c := Server.ClampAll(regs);
      assert forall i :: 0 <= i < |c| ==> c[i] == regs[i];
    }
  }

  /** A register of 32768 or more (a rainfall of 327.68 or a humidity of
      327.68 after scaling, say) makes the handler raise: no frame is sent. */
  lemma LargeRegisterDropsReply(slaveId: Byte, functionCode: Byte, p: Reading, i: nat)
    requires i < RegisterCount && HoldingRegisterValues(p)[i] >= 0x8000
    ensures Server.EncodeResponse(slaveId, functionCode, HoldingRegisterValues(p)) ==
      Server.Dropped(Server.ValueOutOfSignedRange)
  {
  }

  /** The reading of the worked exchange below. */
  const ExampleReading := Reading(2024, 1, 15, 10, 30, 0, 205, 621, 134, 1800, 12)

  /** A worked exchange: the bank holds the reading 2024-01-15 10:30:00 with
      temperature 205, humidity 621, wind speed 134, wind direction 1800 and
      rainfall 12; a request for eleven registers from address 0 of slave 1
      gets the 27-byte frame below, whatever its two CRC bytes are. */
  lemma ExampleExchange(crcLo: Byte, crcHi: Byte, getValues: Server.Lookup)
    requires getValues(1, 0, 11) == Some(HoldingRegisterValues(ExampleReading))
    ensures var r := Server.HandleRequest([1, 3, 0, 0, 0, 11, crcLo, crcHi], getValues);
      && r.Sent? && |r.frame| == 27
      && r.frame[..25] == ExampleData
      && r.frame[25..] == Crc16.Trailer(Crc16.Crc(r.frame[..25]))
  {
    var request: seq<Byte> := [1, 3, 0, 0, 0, 11, crcLo, crcHi];
    Server.LookupArguments(request, getValues);
    assert request[2] as int * 256 + request[3] as int == 0;
    assert request[4] as int * 256 + request[5] as int == 11;
    assert Server.HandleRequest(request, getValues)
      == Server.EncodeResponse(1, 3, HoldingRegisterValues(ExampleReading));
    ExampleFrame();
  }

  /** The reply the worked reading is encoded to, byte for byte. */
  lemma ExampleFrame()
    ensures var r := Server.EncodeResponse(1, 3, HoldingRegisterValues(ExampleReading));
      && r.Sent? && |r.frame| == 27
      && r.frame[..25] == ExampleData
      && r.frame[25..] == Crc16.Trailer(Crc16.Crc(r.frame[..25]))
  {
    var regs := HoldingRegisterValues(ExampleReading);
    assert Server.Encodable(regs);
    var frame := Server.EncodeResponse(1, 3, regs).frame;
    Server.RegisterBytesAt(1, 3, regs, 0);
    Server.RegisterBytesAt(1, 3, regs, 1);
    Server.RegisterBytesAt(1, 3, regs, 2);
    Server.RegisterBytesAt(1, 3, regs, 3);
    Server.RegisterBytesAt(1, 3, regs, 4);
    Server.RegisterBytesAt(1, 3, regs, 5);
    Server.RegisterBytesAt(1, 3, regs, 6);
    Server.RegisterBytesAt(1, 3, regs, 7);
    Server.RegisterBytesAt(1, 3, regs, 8);
    Server.RegisterBytesAt(1, 3, regs, 9);
    Server.RegisterBytesAt(1, 3, regs, 10);
    IsExampleData(frame[..25]);
  }

  /** The header and register bytes of the worked exchange. */
  const ExampleData: seq<Byte> := [0x01, 0x03, 0x16,
    0x07, 0xE8, 0x00, 0x01, 0x00, 0x0F, 0x00, 0x0A, 0x00, 0x1E, 0x00, 0x00,
    0x00, 0xCD, 0x02, 0x6D, 0x00, 0x86, 0x07, 0x08, 0x00, 0x0C]

  lemma IsExampleData(s: seq<Byte>)
    requires |s| == 25
      && s[0] == 0x01 && s[1] == 0x03 && s[2] == 0x16 && s[3] == 0x07 && s[4] == 0xE8
      && s[5] == 0x00 && s[6] == 0x01 && s[7] == 0x00 && s[8] == 0x0F && s[9] == 0x00
      && s[10] == 0x0A && s[11] == 0x00 && s[12] == 0x1E && s[13] == 0x00 && s[14] == 0x00
      && s[15] == 0x00 && s[16] == 0xCD && s[17] == 0x02 && s[18] == 0x6D && s[19] == 0x00
      && s[20] == 0x86 && s[21] == 0x07 && s[22] == 0x08 && s[23] == 0x00 && s[24] == 0x0C
    ensures s == ExampleData
  {
  }
}
