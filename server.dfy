/** The request handler of the Modbus RTU weather-station server
    (`process_modbus_request`). A request is taken apart into slave id,
    function code, start address and register count; the register bank is
    asked for values; and the reply is either a Read Holding Registers frame
    with a CRC-16/MODBUS trailer or a three-byte exception frame.

    The handler is modelled as it is written, not as the Modbus Application
    Protocol would have it: the function code is never checked, the request's
    own CRC is never read, the exception frame carries no CRC, and a register
    value of 32768 or more makes the signed two-byte conversion raise, so that
    nothing is sent at all. Each exception the handler would raise and catch
    in the steps modelled here, the register lookup included, is a `Dropped`
    outcome naming its cause. */
module Server {
  import opened Wrappers
  import opened Bytes
  import Crc16

  /** The four fields read from the front of a request. */
  datatype Request = Request(slaveId: Byte, functionCode: Byte, startAddress: nat, count: nat)

  /** Why no frame was written: each is an exception raised inside the
      handler's `try` block and swallowed by its `except`. */
  datatype Fault =
    | RequestTooShort        // reading byte 0 or 1 of a shorter request: IndexError
    | ValueOutOfSignedRange  // a clamped value of 32768 or more: OverflowError
    | ByteCountTooLarge      // a byte count 2n above 255 made into a byte: ValueError
    | ExceptionCodeTooLarge  // a function code of 0x80 or more plus 0x80: ValueError
    | LookupFailed           // the register bank's lookup itself raised

  /** What the handler does with one request: write one frame, or write nothing. */
  datatype Outcome = Sent(frame: seq<Byte>) | Dropped(fault: Fault)

  /** The register bank's lookup `getValues(slave_id, start_address, count)`:
      a list of Python integers, possibly empty, or None where the lookup
      raises instead of returning. */
  type Lookup = (Byte, nat, nat) -> Option<seq<int>>

  // ---- Request decoding -------------------------------------------------

  /** The unsigned big-endian value of the bytes `request[lo:lo + 2]`, with
      Python's clipping: one byte when only one is there, 0 when none is. */
  function Field(request: seq<Byte>, lo: nat): nat {
    FromBytesBig(PySlice(request, lo, lo + 2))
  }

  /** Reading slave id, function code, start address and count from the
      request. Only a request shorter than two bytes fails; a short request
      reads missing address or count bytes as absent, never as an error. */
  function ParseRequest(request: seq<Byte>): (r: Option<Request>)
    ensures r.None? <==> |request| < 2
    ensures r.Some? ==> r.value.slaveId == request[0] && r.value.functionCode == request[1]
    ensures r.Some? ==>
      r.value.startAddress ==
        if |request| >= 4 then request[2] as int * 256 + request[3] as int
        else if |request| == 3 then request[2] as int else 0
    ensures r.Some? ==>
      r.value.count ==
        if |request| >= 6 then request[4] as int * 256 + request[5] as int
        else if |request| == 5 then request[4] as int else 0
    ensures r.Some? ==> r.value.startAddress < 0x10000 && r.value.count < 0x10000
  {
    if |request| < 2 then None
    else
      var start, count := PySlice(request, 2, 4), PySlice(request, 4, 6);
      assert |request| >= 4 ==> start == [request[2], request[3]];
      assert |request| >= 6 ==> count == [request[4], request[5]];
      Some(Request(request[0], request[1], Field(request, 2), Field(request, 4)))
  }

  /** The eight-byte Read Holding Registers request a client sends for `q`,
      CRC included. */
  function EncodeRequest(q: Request): (r: seq<Byte>)
    requires q.startAddress < 0x10000 && q.count < 0x10000
    ensures |r| == 8 && Crc16.CrcMatches(r)
  {
    var body := [q.slaveId, q.functionCode] + ToBytesBig16(q.startAddress) + ToBytesBig16(q.count);
    Crc16.TrailerAccepted(body);
    body + Crc16.Trailer(Crc16.Crc(body))
  }

  /** Parsing gives back every request a client can encode. */
  lemma ParseEncodedRequest(q: Request)
    requires q.startAddress < 0x10000 && q.count < 0x10000
    ensures ParseRequest(EncodeRequest(q)) == Some(q)
  {
  }

  // ---- Register values --------------------------------------------------

  /** A register value forced into [0, 65535]: the larger of 0 and the
      smaller of the value and 65535. */
  function Clamp(v: int): (r: int)
    ensures 0 <= r <= 0xFFFF
    ensures 0 <= v <= 0xFFFF ==> r == v
    ensures v < 0 ==> r == 0
    ensures v > 0xFFFF ==> r == 0xFFFF
  {
    var m := if v <= 65535 then v else 65535;
    if 0 >= m then 0 else m
  }

  /** The big-endian 16-bit word at position `i` of a byte string. */
  function WordAt(s: seq<Byte>, i: nat): nat
    requires 2 * i + 1 < |s|
  {
    s[2 * i] as int * 256 + s[2 * i + 1] as int
  }

  /** Every register value clamped. */
  function ClampAll(values: seq<int>): (r: seq<int>)
    ensures |r| == |values|
    ensures forall i :: 0 <= i < |values| ==> r[i] == Clamp(values[i])
  {
    seq(|values|, i requires 0 <= i < |values| => Clamp(values[i]))
  }

  /** Every register value, once clamped, survives the signed conversion. */
  predicate Encodable(values: seq<int>) {
    forall i :: 0 <= i < |values| ==> Clamp(values[i]) < 0x8000
  }

  /** The bytes the handler's loop over the values collects, or
      None where the signed conversion of some clamped value raises. */
  function EncodeValues(values: seq<int>): (r: Option<seq<Byte>>)
    ensures r.Some? <==> Encodable(values)
    ensures r.Some? ==> |r.value| == 2 * |values|
    ensures r.Some? ==> forall i :: 0 <= i < |values| ==> WordAt(r.value, i) == Clamp(values[i])
  {
    if values == [] then Some([])
    else
      var init, last := values[..|values| - 1], values[|values| - 1];
      assert forall i :: 0 <= i < |init| ==> init[i] == values[i];
      match EncodeValues(init)
      case None => None
      case Some(bytes) =>
        match ToBytesSigned16(Clamp(last))
        case None => None
        case Some(pair) =>
          assert bytes + pair == bytes + [pair[0], pair[1]];
          Some(bytes + pair)
  }

  /** The big-endian 16-bit words of a byte string of even length. */
  function Words(payload: seq<Byte>): (r: seq<nat>)
    requires |payload| % 2 == 0
    ensures |r| == |payload| / 2
    ensures forall i :: 0 <= i < |r| ==> r[i] == WordAt(payload, i)
  {
    if payload == [] then []
    else
      var n := |payload|;
      Words(payload[..n - 2]) + [payload[n - 2] as int * 256 + payload[n - 1] as int]
  }

  /** Reading the collected bytes back as words gives the clamped values. */
  lemma WordsOfEncodedValues(values: seq<int>)
    requires EncodeValues(values).Some?
    ensures Words(EncodeValues(values).value) == ClampAll(values)
  {
  }

  // ---- Response encoding ------------------------------------------------

  /** The success frame's first `3 + 2n` bytes: slave id, echoed function
      code, byte count, then the register bytes. */
  function ResponseData(slaveId: Byte, functionCode: Byte, payload: seq<Byte>): (r: seq<Byte>)
    requires |payload| < 256
    ensures |r| == 3 + |payload| && r[0] == slaveId && r[1] == functionCode && r[2] == |payload|
    ensures r[3..] == payload
  {
    [slaveId, functionCode, |payload|] + payload
  }

  /** The reply to a lookup that returned `values`. */
  function EncodeResponse(slaveId: Byte, functionCode: Byte, values: seq<int>): (r: Outcome)
    ensures r.Dropped? <==>
      if |values| > 0 then !Encodable(values) || 2 * |values| > 255
      else functionCode >= 0x80
    ensures r.Dropped? && |values| > 0 ==>
      r.fault == if Encodable(values) then ByteCountTooLarge else ValueOutOfSignedRange
    ensures r.Dropped? && |values| == 0 ==> r.fault == ExceptionCodeTooLarge
    ensures r.Sent? && |values| == 0 ==> r.frame == [slaveId, functionCode + 0x80, 0x02]
    ensures r.Sent? && |values| > 0 ==>
      var n := |values|;
      && |r.frame| == 3 + 2 * n + 2
      && r.frame[0] == slaveId && r.frame[1] == functionCode && r.frame[2] == 2 * n
      && (forall i :: 0 <= i < n ==> WordAt(r.frame[3..], i) == Clamp(values[i]))
      && r.frame[3 + 2 * n..] == Crc16.Trailer(Crc16.Crc(r.frame[..3 + 2 * n]))
  {
    if |values| > 0 then
      match EncodeValues(values)
      case None => Dropped(ValueOutOfSignedRange)
      case Some(payload) =>
        if |payload| > 255 then Dropped(ByteCountTooLarge)
        else
          var data := ResponseData(slaveId, functionCode, payload);
          var frame := data + Crc16.Trailer(Crc16.Crc(data));
          assert frame[..3 + |payload|] == data && frame[3 + |payload|..] == Crc16.Trailer(Crc16.Crc(data));
          assert forall i :: 0 <= i < |values| ==> WordAt(frame[3..], i) == WordAt(payload, i);
          Sent(frame)
    else if functionCode as int + 0x80 > 255 then Dropped(ExceptionCodeTooLarge)
    else Sent([slaveId, functionCode + 0x80, 0x02])
  }

  /** The whole handler: parse, look up, reply. */
  function HandleRequest(request: seq<Byte>, getValues: Lookup): (r: Outcome)
    ensures |request| < 2 ==> r == Dropped(RequestTooShort)
  {
    match ParseRequest(request)
    case None => Dropped(RequestTooShort)
    case Some(q) =>
      match getValues(q.slaveId, q.startAddress, q.count)
      case None => Dropped(LookupFailed)
      case Some(values) => EncodeResponse(q.slaveId, q.functionCode, values)
  }

  /** `process_modbus_request`, statement by statement: the frame it writes,
      or the fault that stops it. */
  method ProcessModbusRequest(request: seq<Byte>, getValues: Lookup) returns (out: Outcome)
    ensures out == HandleRequest(request, getValues)
  {
    if |request| < 2 {
      return Dropped(RequestTooShort);
    }
    var slaveId := request[0];
    var functionCode := request[1];
    var startAddress := Field(request, 2);
    var numRegisters := Field(request, 4);
    var looked := getValues(slaveId, startAddress, numRegisters);
    HandleParsed(request, getValues);
    if looked.None? {
      return Dropped(LookupFailed);
    }
    var values := looked.value;
    if |values| > 0 {
      var collected := CollectRegisterBytes(values);
      if collected.None? {
        return Dropped(ValueOutOfSignedRange);
      }
      var intValues := collected.value;
      if |intValues| > 255 {
        return Dropped(ByteCountTooLarge);
      }
      var responseData := ResponseData(slaveId, functionCode, intValues);
      var crc := Crc16.CalculateCrc(responseData);
      out := Sent(responseData + crc);
    } else {
      if functionCode as int + 0x80 > 255 {
        return Dropped(ExceptionCodeTooLarge);
      }
      out := Sent([slaveId, functionCode + 0x80, 0x02]);
    }
  }

  /** The handler's loop over the values: clamp each value, convert it to two
      signed big-endian bytes and append them; None where a conversion
      raises, which ends the loop and the handler. */
  method CollectRegisterBytes(values: seq<int>) returns (out: Option<seq<Byte>>)
    ensures out == EncodeValues(values)
  {
    var intValues: seq<Byte> := [];
    for i := 0 to |values|
      invariant EncodeValues(values[..i]) == Some(intValues)
    {
      var intValue := Clamp(values[i]);
      var intBytes := ToBytesSigned16(intValue);
      if intBytes.None? {
        ValueRaisesForAll(values, i);
        return None;
      }
      assert values[..i + 1][..i] == values[..i];
      intValues := intValues + intBytes.value;
    }
    assert values[..|values|] == values;
    return Some(intValues);
  }

  /** Proof step for the method: the handler's reply in terms of the lookup's
      answer for the parsed fields. */
  lemma HandleParsed(request: seq<Byte>, getValues: Lookup)
    requires |request| >= 2
    ensures var looked := getValues(request[0], Field(request, 2), Field(request, 4));
      HandleRequest(request, getValues) ==
        if looked.None? then Dropped(LookupFailed)
        else EncodeResponse(request[0], request[1], looked.value)
  {
  }

  /** One value the signed conversion rejects stops the whole response. */
  lemma ValueRaisesForAll(values: seq<int>, i: nat)
    requires i < |values| && Clamp(values[i]) >= 0x8000
    ensures EncodeValues(values) == None
  {
  }

  // ---- Properties of the handler ----------------------------------------

  /** A success frame carries a correct CRC-16/MODBUS trailer: a receiver that
      checks it accepts the frame, and the CRC over the whole frame is 0. */
  lemma SuccessFrameChecks(slaveId: Byte, functionCode: Byte, values: seq<int>)
    requires |values| > 0 && EncodeResponse(slaveId, functionCode, values).Sent?
    ensures Crc16.CrcMatches(EncodeResponse(slaveId, functionCode, values).frame)
    ensures Crc16.Crc(EncodeResponse(slaveId, functionCode, values).frame) == 0
  {
    var frame := EncodeResponse(slaveId, functionCode, values).frame;
    var k := |frame| - 2;
    assert frame == frame[..k] + frame[k..];
    Crc16.TrailerAccepted(frame[..k]);
    Crc16.TrailerResidue(frame[..k]);
  }

  /** Register `i` of a success frame is its clamped value as two big-endian
      bytes, at offsets `3 + 2i` and `4 + 2i`. */
  lemma RegisterBytesAt(slaveId: Byte, functionCode: Byte, values: seq<int>, i: nat)
    requires i < |values| && EncodeResponse(slaveId, functionCode, values).Sent?
    ensures var frame := EncodeResponse(slaveId, functionCode, values).frame;
      frame[3 + 2 * i] == Clamp(values[i]) / 256 && frame[4 + 2 * i] == Clamp(values[i]) % 256
  {
  }

  /** The function code is echoed unchanged, whatever it is: there is no
      Illegal Function check. A value of 0x80 or more is only rejected on the
      exception path, where adding 0x80 no longer fits in a byte. */
  lemma EchoesFunctionCode(request: seq<Byte>, getValues: Lookup)
    requires HandleRequest(request, getValues).Sent?
    ensures var frame := HandleRequest(request, getValues).frame;
      |frame| >= 3 && frame[0] == request[0] &&
      (frame[1] == request[1] || (frame[1] == request[1] + 0x80 && |frame| == 3))
  {
  }

  /** The request's CRC bytes are never read: requests that agree on their
      first six bytes get the same reply, whatever follows. */
  lemma IgnoresRequestCrc(r1: seq<Byte>, r2: seq<Byte>, getValues: Lookup)
    requires |r1| >= 6 && |r2| >= 6 && r1[..6] == r2[..6]
    ensures HandleRequest(r1, getValues) == HandleRequest(r2, getValues)
  {
    assert forall k :: 0 <= k < 6 ==> r1[k] == r1[..6][k] == r2[..6][k] == r2[k];
    LookupArguments(r1, getValues);
    LookupArguments(r2, getValues);
  }

  /** The lookup is asked with the slave id and with the start address and
      count as the request's bytes 2-3 and 4-5 give them, big-endian, a field
      cut short reading as its one byte or as 0. A lookup that raises drops
      the request; otherwise its values are encoded. */
  lemma LookupArguments(request: seq<Byte>, getValues: Lookup)
    requires |request| >= 2
    ensures
      var start :=
        if |request| >= 4 then request[2] as int * 256 + request[3] as int
        else if |request| == 3 then request[2] as int else 0;
      var count :=
        if |request| >= 6 then request[4] as int * 256 + request[5] as int
        else if |request| == 5 then request[4] as int else 0;
      var looked := getValues(request[0], start, count);
      HandleRequest(request, getValues) ==
        if looked.None? then Dropped(LookupFailed)
        else EncodeResponse(request[0], request[1], looked.value)
  {
  }

  /** A client decoding of a success frame: checks the CRC and the byte count
      and returns slave id, function code and the register words. */
  datatype Reply = Reply(slaveId: Byte, functionCode: Byte, words: seq<nat>)

  function DecodeResponse(frame: seq<Byte>): (r: Option<Reply>)
    ensures r.Some? ==> Crc16.CrcMatches(frame) && |frame| >= 5 && |frame| == 3 + frame[2] as int + 2
  {
    if |frame| < 5 || !Crc16.CrcMatches(frame) || frame[2] % 2 != 0 || |frame| != 3 + frame[2] as int + 2
    then None
    else Some(Reply(frame[0], frame[1], Words(frame[3..|frame| - 2])))
  }

  /** Every success frame decodes to the slave id, the function code and the
      clamped register values it was built from. */
  lemma DecodeSuccessFrame(slaveId: Byte, functionCode: Byte, values: seq<int>)
    requires |values| > 0 && EncodeResponse(slaveId, functionCode, values).Sent?
    ensures DecodeResponse(EncodeResponse(slaveId, functionCode, values).frame) ==
      Some(Reply(slaveId, functionCode, ClampAll(values)))
  {
    var frame := EncodeResponse(slaveId, functionCode, values).frame;
    var payload := EncodeValues(values).value;
    var data := ResponseData(slaveId, functionCode, payload);
    assert frame == data + Crc16.Trailer(Crc16.Crc(data));
    assert frame[3..|frame| - 2] == data[3..] == payload;
    SuccessFrameChecks(slaveId, functionCode, values);
    WordsOfEncodedValues(values);
  }
}
