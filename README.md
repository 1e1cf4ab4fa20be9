# Modbus RTU weather-station server: frame logic

This project models the frame logic of a Modbus RTU slave that serves weather
readings from holding registers over a serial line. The model is in Dafny, and
the verifier proves its properties. Three parts are modelled:

- **CRC-16/MODBUS** (`Crc16`, `crc16.dfy`). This is the trailer of every RTU
  frame, as section 6.2.2 and Appendix B ("CRC Generation") of the *MODBUS over
  Serial Line Specification and Implementation Guide V1.02* define it:
  reflected polynomial 0x8005 (0xA001 in the shift register), initial value
  0xFFFF, no final XOR, sent low byte first. The server delegates the CRC to a
  library. Here it is defined as the bitwise shift/XOR algorithm, once as a
  function and once as a method with the byte loop and the bit loop.
  Bitwise XOR is defined on naturals in `Bytes` (`bytes.dfy`).
- **The request handler** (`Server`, `server.dfy`). It reads slave id, function
  code, start address and count from the request. It asks the register bank
  for values and clamps each one into [0, 65535]. It encodes each one as two
  signed big-endian bytes. It then writes either a Read Holding Registers frame
  with a CRC, or a three-byte exception frame. Each exception the handler
  raises and swallows in these steps becomes a `Dropped` outcome that names
  its cause. This includes a register lookup that raises. A failing serial
  write is not modelled.
- **The register layout** (`Registers`, `registers.dfy`). This is the
  eleven-register image of one reading, written at address 0.

The model follows the code as written. In these places the code departs from
the Modbus Application Protocol (sections 6.3 and 7 of version 1.1b3), or does
something a reader of the protocol might not expect:

- The function code is never checked. Any code gets a register reply, and no
  Illegal Function exception exists.
- The request's CRC is never read, and the slave id is never compared with the
  server's own.
- The exception frame (exception code 2) is sent when the register lookup
  returns nothing. It carries no CRC.
- Values go on the wire as signed 16-bit integers after clamping to
  [0, 65535]. A clamped value of 32768 or more therefore raises, and nothing is
  sent.
- A byte count above 255 also raises, and so does a function code of 0x80 or
  more on the exception path.
- A request too short to hold a field reads that field with Python's clipped
  slice: one byte, or 0 if the field is absent. Parsing fails only for a
  request shorter than two bytes. A short request can still be dropped later,
  by the lookup or by the encoding.

## Model

| member | source | states |
|---|---|---|
| Crc16.CalculateCrc | Modbus_RTU_Server1_Working.py:121-124 | the trailer computed by the byte and bit loops equals the two-byte trailer of the CRC-16/MODBUS function of the data |
| Crc16.Crc | Modbus_RTU_Server1_Working.py:122-123 | the CRC of any data is a 16-bit value |
| Crc16.Trailer | Modbus_RTU_Server1_Working.py:124 | the trailer is exactly two bytes that read back, low byte first, as the CRC value |
| Crc16.TrailerUnique | Modbus_RTU_Server1_Working.py:124 | the two low-byte-first bytes are the only pair that reads back as a given CRC value |
| Crc16.TrailerAccepted | Modbus_RTU_Server1_Working.py:158-161 | data followed by its own trailer passes a receiver's CRC check |
| Crc16.TrailerResidue | Modbus_RTU_Server1_Working.py:158-161 | the CRC over data followed by its own trailer is 0 |
| Crc16.ZeroResidueOnlyForTrailer | Modbus_RTU_Server1_Working.py:121-124 | the only two bytes that bring the CRC register to 0 are the trailer of its current value |
| Crc16.CrcMatchesIffZeroResidue | Modbus_RTU_Server1_Working.py:121-124 | in both directions, a frame's last two bytes are the CRC of the rest exactly when the CRC over the whole frame is 0 |
| Crc16.ShiftBitsLinear | Modbus_RTU_Server1_Working.py:122 | any number of shift-register steps distribute over XOR |
| Crc16.ShiftBitsInjective | Modbus_RTU_Server1_Working.py:122 | different 16-bit registers stay different after any number of steps |
| Crc16.DifferenceSurvives | Modbus_RTU_Server1_Working.py:122-123 | two different registers stay different after any sequence of bytes |
| Crc16.SingleByteErrorDetected | Modbus_RTU_Server1_Working.py:121-124 | changing any one byte of a message always changes its CRC |
| Crc16.FlipBit | Modbus_RTU_Server1_Working.py:121-124 | inverting bit k of byte i changes that byte to its XOR with 2^k, and no other byte |
| Crc16.SingleBitErrorDetected | Modbus_RTU_Server1_Working.py:121-124 | inverting any one bit of a message always changes its CRC |
| Bytes.PySlice | Modbus_RTU_Server1_Working.py:137-139 | a Python slice is clipped to the sequence: its length and elements for every request length |
| Bytes.FromBytesBig | Modbus_RTU_Server1_Working.py:137-139 | an unsigned big-endian conversion gives 0 for no bytes, the byte for one, and high*256+low for two |
| Bytes.ToBytesBig16 | Modbus_RTU_Server1_Working.py:151 | two big-endian bytes that convert back to the value |
| Bytes.ToBytesSigned16 | Modbus_RTU_Server1_Working.py:151 | the signed conversion succeeds exactly for [-32768, 32767] and gives the two's-complement bytes |
| Server.ParseRequest | Modbus_RTU_Server1_Working.py:133-140 | fails exactly for requests under two bytes; takes slave id and function code from bytes 0 and 1, and start and count big-endian from bytes 2-3 and 4-5, clipped for short requests; both are below 65536 |
| Server.EncodeRequest | Modbus_RTU_Server1_Working.py:133-140 | a client's read request is eight bytes and passes the CRC check |
| Server.ParseEncodedRequest | Modbus_RTU_Server1_Working.py:133-140 | parsing recovers every encoded request |
| Server.LookupArguments | Modbus_RTU_Server1_Working.py:133-175 | for every request of two bytes or more, the lookup gets the slave id, then start address request[2]*256+request[3] (request[2] alone at length 3, 0 at length 2) and count request[4]*256+request[5] (request[4] at length 5, 0 below); a lookup that raises means nothing is sent, otherwise its values are encoded |
| Server.IgnoresRequestCrc | Modbus_RTU_Server1_Working.py:133-140 | requests that agree on their first six bytes get the same reply, whatever their CRC bytes |
| Server.Clamp | Modbus_RTU_Server1_Working.py:150 | the result lies in [0, 65535]; in-range values are unchanged, negative values become 0 and values above 65535 become 65535 |
| Server.ClampAll | Modbus_RTU_Server1_Working.py:149-150 | each register value clamped, in order |
| Server.EncodeValues | Modbus_RTU_Server1_Working.py:148-152 | succeeds exactly when every clamped value is below 32768; then gives 2n bytes where word i is clamped value i |
| Server.CollectRegisterBytes | Modbus_RTU_Server1_Working.py:148-152 | the loop over the values returns exactly the collected bytes, or None where a conversion raises |
| Server.ValueRaisesForAll | Modbus_RTU_Server1_Working.py:151 | one value whose signed conversion raises stops the whole reply |
| Server.Words | Modbus_RTU_Server1_Working.py:149-152 | a byte string of even length read as big-endian words, one per pair |
| Server.WordsOfEncodedValues | Modbus_RTU_Server1_Working.py:149-152 | reading the collected bytes back as words gives the clamped values |
| Server.ResponseData | Modbus_RTU_Server1_Working.py:155 | the frame body is slave id, function code and byte count, followed by the register bytes |
| Server.EncodeResponse | Modbus_RTU_Server1_Working.py:146-171 | nothing is sent exactly when a clamped value is at least 32768, 2n is above 255, or (with no values) the function code is 0x80 or more; the fault names which of these applied first; with no values the frame is exactly [id, fc+0x80, 2]; otherwise it is 3+2n+2 bytes, echoes id and fc, has byte count 2n, holds each clamped value big-endian, and ends with the CRC of its first 3+2n bytes |
| Server.HandleRequest | Modbus_RTU_Server1_Working.py:131-175 | a request under two bytes is dropped with nothing sent |
| Server.ProcessModbusRequest | Modbus_RTU_Server1_Working.py:127-175 | the handler, statement by statement, sends the frame or records the fault that the handler function gives |
| Server.SuccessFrameChecks | Modbus_RTU_Server1_Working.py:155-161 | every success frame passes a receiver's CRC check, and the CRC over the whole frame is 0 |
| Server.RegisterBytesAt | Modbus_RTU_Server1_Working.py:149-155 | register i of a success frame is its clamped value, high byte at offset 3+2i and low byte at 4+2i |
| Server.EchoesFunctionCode | Modbus_RTU_Server1_Working.py:135-168 | every frame sent echoes the request's slave id and function code unchanged, or the code plus 0x80 in the three-byte exception frame |
| Server.DecodeResponse | Modbus_RTU_Server1_Working.py:155-161 | a client accepts a frame only when its CRC matches and its length equals 3 + byte count + 2 |
| Server.DecodeSuccessFrame | Modbus_RTU_Server1_Working.py:146-161 | every success frame decodes to its slave id, its function code and the clamped register values |
| Registers.HoldingRegisterValues | Modbus_RTU_Server1_Working.py:78-81 | the register list has eleven entries |
| Registers.ReadingAt | Modbus_RTU_Server1_Working.py:78-81 | a register list reads back as a reading exactly when it has eleven entries |
| Registers.ReadingRoundTrip | Modbus_RTU_Server1_Working.py:78-81 | each field of the reading lands in its own register, in the order year, month, day, hour, minute, second, temperature, humidity, wind speed, wind direction, rainfall, so the reading reads back |
| Registers.RegistersRoundTrip | Modbus_RTU_Server1_Working.py:78-81 | every eleven-register list is the image of exactly one reading |
| Registers.UpdateHoldingRegisters | Modbus_RTU_Server1_Working.py:61-82 | nothing is written exactly when no reading was read; otherwise the eleven-register image of the reading is written at address 0 with fx 1 |
| Registers.ServedReading | Modbus_RTU_Server1_Working.py:146-161 | a reading with no register of 32768 or more is served as one 27-byte frame with byte count 22 that decodes to its clamped registers, and to the registers themselves when none is negative |
| Registers.LargeRegisterDropsReply | Modbus_RTU_Server1_Working.py:151 | a register of 32768 or more means no reply is sent |
| Registers.ExampleFrame | Modbus_RTU_Server1_Working.py:146-161 | the worked reading encodes to the bytes 01 03 16 07 E8 00 01 00 0F 00 0A 00 1E 00 00 00 CD 02 6D 00 86 07 08 00 0C followed by their CRC |
| Registers.ExampleExchange | Modbus_RTU_Server1_Working.py:133-161 | the request 01 03 00 00 00 0B, with any CRC bytes, gets that frame |

## Left out

- Serial port set-up, reading a request and writing a frame (lines 21-28, 92-101, 109-119, 164, 170) are transport I/O. A `Sent` outcome stands for a write, and the request is a parameter. A write that fails is not modelled.
- The update thread, the request thread and the one-minute sleep (lines 103-107, 179-206) are concurrency and timing, so they are left out.
- The register store of the Modbus library (lines 87-90, 82, 143) is a foreign library. The lookup is a function parameter whose result is any list, possibly empty, or a failure where it raises. What the store returns for a given slave id, address and count is not modelled, and neither is the fact that the handler passes the slave id where the library expects a function code. `UpdateHoldingRegisters` returns the write it issues instead of changing a store.
- The CRC library call (line 122) is replaced by the bitwise CRC-16/MODBUS definition above.
- The published CRC-16/MODBUS check value (0x4B37 for the ASCII string "123456789") is not proved. Evaluating the CRC on constants is too costly for the verifier, so the model is tied to the standard by its definition and by the proved residue, trailer and error-detection properties.
- Reading the parameter file, parsing the timestamp and the floats, and scaling floats to integers (lines 31-56, 71-75) are file I/O and floating point. A reading enters the model with integer fields, as an optional value that is absent when the file gave none. The two `try` blocks around these steps are covered by that absence.
- Logging and printing throughout are diagnostics only.
