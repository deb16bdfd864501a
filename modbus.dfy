/** The master's side of the Modbus RTU exchange in app.py: the fixed query frame that
    asks sensor 1 for seven holding registers, and `_parse_frame`, which validates the
    19-byte Read Holding Registers response (function 0x03, section 6.3 of the MODBUS
    Application Protocol Specification V1.1b3) and decodes its seven big-endian registers.

    Frames are byte strings, modelled as sequences of `bv8`. Registers are the raw 16-bit
    words the sensor sends; app.py divides humidity, temperature and pH by ten afterwards,
    which this model does not do (those fields are kept in tenths). */
module Modbus {
  import opened Crc16

  type Byte = bv8

  /** Length of a response to the query: address, function, byte count, 14 data bytes, CRC. */
  const ResponseLength: nat := 19
  const ReadHoldingRegisters: Byte := 0x03
  const RegisterCount: nat := 7
  /** The byte count a response must carry: two bytes per register. */
  const DataByteCount: Byte := 14

  /** QUERY_FRAME: sensor 1, function 0x03, start address 0x0000, 7 registers, CRC low byte first. */
  const QueryFrame: seq<Byte> := [0x01, 0x03, 0x00, 0x00, 0x00, 0x07, 0x04, 0x08]

  /** `(hi << 8) | lo` on two bytes: the 16-bit word they form, high byte first. */
  function Word(hi: Byte, lo: Byte): (w: bv16)
    ensures w as int == hi as int * 0x100 + lo as int
  {
    var w := ((hi as bv16) << 8) | (lo as bv16);
    assert w == (hi as bv16) * 0x100 + (lo as bv16);
    WordValue(hi, lo);
    w
  }

  /** The arithmetic form of a word has the integer value of its bytes. */
  lemma WordValue(hi: Byte, lo: Byte)
    ensures ((hi as bv16) * 0x100 + (lo as bv16)) as int == hi as int * 0x100 + lo as int
  {
  }

  /** The two bytes of a word are the bytes it was formed from. */
  lemma BytesOfWord(hi: Byte, lo: Byte)
    ensures HighByte(Word(hi, lo)) == hi && LowByte(Word(hi, lo)) == lo
  {
  }

  /** A word is rebuilt from its two bytes. */
  lemma WordOfBytes(w: bv16)
    ensures Word(HighByte(w), LowByte(w)) == w
  {
  }

  /** The decoded response: the sensor address and the seven registers, in the order of
      the dictionary `_parse_frame` returns. Humidity, temperature and pH are in tenths. */
  datatype Reading = Reading(
    sensorId: Byte,
    humidityTenths: bv16,
    temperatureTenths: bv16,
    conductivity: bv16,
    phTenths: bv16,
    nitrogen: bv16,
    phosphorus: bv16,
    potassium: bv16)
  {
    /** The registers in wire order (`regs[0]` to `regs[6]`). */
    function Registers(): (regs: seq<bv16>)
      ensures |regs| == RegisterCount
    {
      [humidityTenths, temperatureTenths, conductivity, phTenths, nitrogen, phosphorus, potassium]
    }
  }

  /** The reading whose address is `id` and whose registers are `regs`, in wire order. */
  function ReadingOf(id: Byte, regs: seq<bv16>): (r: Reading)
    requires |regs| == RegisterCount
    ensures r.sensorId == id && r.Registers() == regs
  {
    Reading(id, regs[0], regs[1], regs[2], regs[3], regs[4], regs[5], regs[6])
  }

  /** Why a response is rejected; each is one of the ValueErrors `_parse_frame` raises. */
  datatype ParseError =
    | BadLength(length: nat)
    | CrcMismatch(expected: bv16, computed: bv16)
    | BadFunctionCode(code: Byte)
    | BadByteCount(count: Byte)

  datatype Result<T> = Ok(value: T) | Err(error: ParseError)

  /** Consecutive byte pairs read as big-endian words. */
  function Words(bytes: seq<Byte>): (words: seq<bv16>)
    requires |bytes| % 2 == 0
    ensures |words| == |bytes| / 2
    decreases |bytes|
  {
    if bytes == [] then [] else [Word(bytes[0], bytes[1])] + Words(bytes[2..])
  }

  /** Word i of a byte string is the pair at bytes 2i and 2i + 1, high byte first. */
  lemma {:induction false} WordAt(bytes: seq<Byte>, i: nat)
    requires |bytes| % 2 == 0 && i < |bytes| / 2
    ensures Words(bytes)[i] == Word(bytes[2 * i], bytes[2 * i + 1])
    decreases i
  {
    if i > 0 {
      WordAt(bytes[2..], i - 1);
      assert bytes[2..][2 * (i - 1)] == bytes[2 * i];
    }
  }

  /** Every word of a byte string, as `WordAt` states for one. */
  lemma WordsElements(bytes: seq<Byte>)
    requires |bytes| % 2 == 0
    ensures forall i :: 0 <= i < |bytes| / 2 ==> Words(bytes)[i] == Word(bytes[2 * i], bytes[2 * i + 1])
  {
    forall i | 0 <= i < |bytes| / 2 {
      WordAt(bytes, i);
    }
  }

  /** The seven registers of a response, decoded from its fourteen data bytes 3..16. */
  function FrameRegisters(frame: seq<Byte>): (regs: seq<bv16>)
    requires |frame| == ResponseLength
    ensures |regs| == RegisterCount
    ensures forall i :: 0 <= i < RegisterCount ==> regs[i] == Word(frame[3 + 2 * i], frame[4 + 2 * i])
  {
    WordsElements(frame[3..17]);
    Words(frame[3..17])
  }

  /** What `_parse_frame` returns or raises for `frame`. The checks run in the source's
      order: length, then CRC (the last two bytes, low byte first, against the CRC of the
      first 17), then function code, then byte count. */
  function Parse(frame: seq<Byte>): (r: Result<Reading>)
    ensures |frame| != ResponseLength ==> r == Err(BadLength(|frame|))
    ensures |frame| == ResponseLength ==>
      (r.Err? && r.error.CrcMismatch? <==> Word(frame[18], frame[17]) != Crc(frame[..17]))
    ensures r.Ok? <==>
      |frame| == ResponseLength && Word(frame[18], frame[17]) == Crc(frame[..17]) &&
      frame[1] == ReadHoldingRegisters && frame[2] == DataByteCount
    ensures r.Ok? ==> r.value.sensorId == frame[0]
    ensures r.Ok? ==> forall i :: 0 <= i < RegisterCount ==>
      r.value.Registers()[i] == Word(frame[3 + 2 * i], frame[4 + 2 * i])
  {
    if |frame| != ResponseLength then Err(BadLength(|frame|))
    else
      var expected := Word(frame[18], frame[17]);
      var computed := Crc(frame[..17]);
      if expected != computed then Err(CrcMismatch(expected, computed))
      else if frame[1] != ReadHoldingRegisters then Err(BadFunctionCode(frame[1]))
      else if frame[2] != DataByteCount then Err(BadByteCount(frame[2]))
      else Ok(ReadingOf(frame[0], FrameRegisters(frame)))
  }

  /** On success the address is byte 0 and register i is `frame[3 + 2i] * 256 + frame[4 + 2i]`,
      so every register lies in 0..65535. */
  lemma ParsedRegisterValues(frame: seq<Byte>, i: nat)
    requires Parse(frame).Ok? && i < RegisterCount
    ensures Parse(frame).value.sensorId == frame[0]
    ensures Parse(frame).value.Registers()[i] as int == frame[3 + 2 * i] as int * 0x100 + frame[4 + 2 * i] as int
    ensures 0 <= Parse(frame).value.Registers()[i] as int <= 0xFFFF
  {
  }

  /** `_parse_frame`: the checks, then the loop that appends the registers one by one. */
  method ParseFrame(frame: seq<Byte>) returns (r: Result<Reading>)
    ensures r == Parse(frame)
  {
    if |frame| != ResponseLength {
      return Err(BadLength(|frame|));
    }
    var expected := Word(frame[18], frame[17]);
    var computed := ComputeCrc(frame[..17]);
    if expected != computed {
      return Err(CrcMismatch(expected, computed));
    }
    if frame[1] != ReadHoldingRegisters {
      return Err(BadFunctionCode(frame[1]));
    }
    if frame[2] != DataByteCount {
      return Err(BadByteCount(frame[2]));
    }
    var regs: seq<bv16> := [];
    for i := 0 to RegisterCount
      invariant |regs| == i
      invariant forall k :: 0 <= k < i ==> regs[k] == Word(frame[3 + 2 * k], frame[4 + 2 * k])
    {
      var hi := frame[3 + 2 * i];
      var lo := frame[4 + 2 * i];
      regs := regs + [Word(hi, lo)];
    }
    assert regs == FrameRegisters(frame);
    r := Ok(ReadingOf(frame[0], regs));
  }

  /** The bytes of some words, each high byte first. */
  function WordBytes(words: seq<bv16>): (bytes: seq<Byte>)
    ensures |bytes| == 2 * |words|
    decreases |words|
  {
    if words == [] then []
    else [HighByte(words[0]), LowByte(words[0])] + WordBytes(words[1..])
  }

  /** Splitting words into bytes undoes pairing bytes into words. */
  lemma {:induction false} WordBytesOfWords(bytes: seq<Byte>)
    requires |bytes| % 2 == 0
    ensures WordBytes(Words(bytes)) == bytes
    decreases |bytes|
  {
    if bytes != [] {
      var words := Words(bytes);
      assert words[1..] == Words(bytes[2..]);
      WordBytesOfWords(bytes[2..]);
      BytesOfWord(bytes[0], bytes[1]);
      assert bytes == [bytes[0], bytes[1]] + bytes[2..];
    }
  }

  /** The first word of a byte string is its first two bytes. */
  lemma WordsCons(hi: Byte, lo: Byte, rest: seq<Byte>)
    requires |rest| % 2 == 0
    ensures Words([hi, lo] + rest) == [Word(hi, lo)] + Words(rest)
  {
    assert ([hi, lo] + rest)[2..] == rest;
  }

  /** Pairing bytes into words undoes splitting words into bytes. */
  lemma {:induction false} WordsOfWordBytes(words: seq<bv16>)
    ensures Words(WordBytes(words)) == words
    decreases |words|
  {
    if words != [] {
      var rest := WordBytes(words[1..]);
      assert WordBytes(words) == [HighByte(words[0]), LowByte(words[0])] + rest;
      WordsCons(HighByte(words[0]), LowByte(words[0]), rest);
      WordsOfWordBytes(words[1..]);
      WordOfBytes(words[0]);
      assert words == [words[0]] + words[1..];
    }
  }

  /** The response a sensor sends for a reading (the slave's side, which app.py does not
      contain): the inverse of `Parse`. */
  function EncodeResponse(reading: Reading): (frame: seq<Byte>)
    ensures |frame| == ResponseLength
  {
    var body := [reading.sensorId, ReadHoldingRegisters, DataByteCount] + WordBytes(reading.Registers());
    var crc := Crc(body);
    body + [LowByte(crc), HighByte(crc)]
  }

  /** Every reading survives encoding and decoding: the encoded frame passes all four
      checks and decodes to the same address and registers. */
  lemma RoundTrip(reading: Reading)
    ensures Parse(EncodeResponse(reading)) == Ok(reading)
  {
    var regs := reading.Registers();
    var body := [reading.sensorId, ReadHoldingRegisters, DataByteCount] + WordBytes(regs);
    var crc := Crc(body);
    var frame := EncodeResponse(reading);
    assert frame == body + [LowByte(crc), HighByte(crc)];
    assert frame[..17] == body;
    WordOfBytes(crc);
    assert frame[3..17] == WordBytes(regs);
    WordsOfWordBytes(regs);
  }

  /** Conversely, every accepted frame is the encoding of what it decodes to, so `Parse`
      loses nothing from a frame it accepts. */
  lemma AcceptedFrameIsEncoding(frame: seq<Byte>)
    requires Parse(frame).Ok?
    ensures EncodeResponse(Parse(frame).value) == frame
  {
    var reading := Parse(frame).value;
    WordBytesOfWords(frame[3..17]);
    var body := [reading.sensorId, ReadHoldingRegisters, DataByteCount] + frame[3..17];
    assert frame[..17] == [frame[0], frame[1], frame[2]] + frame[3..17];
    assert body == frame[..17];
    BytesOfWord(frame[18], frame[17]);
    assert frame == frame[..17] + [frame[17], frame[18]];
  }

  /** QUERY_FRAME asks sensor 1 for the seven holding registers from address 0, which is
      what the response checks expect (14 data bytes), and its last two bytes are the CRC
      of the first six, low byte first: 0x0804. */
  lemma QueryFrameChecksum()
    ensures QueryFrame[0] == 0x01 && QueryFrame[1] == ReadHoldingRegisters
    ensures Word(QueryFrame[2], QueryFrame[3]) == 0
    ensures Word(QueryFrame[4], QueryFrame[5]) as int == RegisterCount
    ensures DataByteCount as int == 2 * RegisterCount
    ensures Crc(QueryFrame[..6]) == 0x0804
    ensures Word(QueryFrame[7], QueryFrame[6]) == Crc(QueryFrame[..6])
  {
    assert QueryFrame[..6] == [0x01, 0x03, 0x00, 0x00, 0x00, 0x07];
    assert RegisterAfter(Initial, [0x01, 0x03, 0x00, 0x00, 0x00, 0x07]) == 0x0804 by {
      assert AbsorbByte(0xFFFF, 0x01) == 0x807E;
      assert AbsorbByte(0x807E, 0x03) == 0x2140;
      assert AbsorbByte(0x2140, 0x00) == 0xF020;
      assert AbsorbByte(0xF020, 0x00) == 0xD8F1;
      assert AbsorbByte(0xD8F1, 0x00) == 0x8419;
      assert AbsorbByte(0x8419, 0x07) == 0x0804;
    }
  }
}
