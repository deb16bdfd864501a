/** The CRC-16 of the MODBUS over Serial Line Specification V1.02 (section 2.5.1.2,
    generation procedure in section 6.2.2), computed as `_crc16_modbus` in app.py does:
    start at 0xFFFF, XOR each byte into the low half, then shift right eight times,
    XORing in the reflected polynomial 0xA001 whenever a one bit falls out.

    The source works on unbounded Python integers. The register is modelled as a 32-bit
    vector: every function below proves that it never leaves the low 16 bits, so no
    operation on it ever truncates and it agrees with the Python integer throughout. */
module Crc16 {

  type Register = bv32

  const Initial: Register := 0xFFFF
  const Polynomial: Register := 0xA001

  /** One shift step of the inner loop. */
  function ShiftStep(crc: Register): (r: Register)
    requires crc < 0x10000
    ensures r < 0x10000
  {
    if crc & 1 == 1 then (crc >> 1) ^ Polynomial else crc >> 1
  }

  /** `n` shift steps. */
  function Shifts(crc: Register, n: nat): (r: Register)
    requires crc < 0x10000
    ensures r < 0x10000
    decreases n
  {
    if n == 0 then crc else Shifts(ShiftStep(crc), n - 1)
  }

  /** What one iteration of the outer loop does with the byte `b`. */
  function AbsorbByte(crc: Register, b: bv8): (r: Register)
    requires crc < 0x10000
    ensures r < 0x10000
  {
    Shifts(crc ^ (b as Register), 8)
  }

  /** The register after absorbing every byte of `data`, starting from `crc`. */
  function RegisterAfter(crc: Register, data: seq<bv8>): (r: Register)
    requires crc < 0x10000
    ensures r < 0x10000
    decreases |data|
  {
    if data == [] then crc else RegisterAfter(AbsorbByte(crc, data[0]), data[1..])
  }

  /** The checksum of `data`: the register masked to 16 bits. The mask removes nothing,
      because the register never leaves 16 bits. */
  function Crc(data: seq<bv8>): (r: bv16)
    ensures r as Register == RegisterAfter(Initial, data)
    ensures data == [] ==> r == 0xFFFF
  {
    var reg := RegisterAfter(Initial, data);
    (reg & 0xFFFF) as bv16
  }

  /** The low byte of a 16-bit word, sent first on the wire. */
  function LowByte(w: bv16): bv8
  {
    (w & 0xFF) as bv8
  }

  /** The high byte of a 16-bit word. */
  function HighByte(w: bv16): bv8
  {
    (w >> 8) as bv8
  }

  /** Absorbing `a` and then `b` is absorbing `a + b`. */
  lemma {:induction false} RegisterAfterConcat(crc: Register, a: seq<bv8>, b: seq<bv8>)
    requires crc < 0x10000
    ensures RegisterAfter(crc, a + b) == RegisterAfter(RegisterAfter(crc, a), b)
    decreases |a|
  {
    if a == [] {
      assert a + b == b;
    } else {
      assert (a + b)[1..] == a[1..] + b;
      RegisterAfterConcat(AbsorbByte(crc, a[0]), a[1..], b);
    }
  }

  /** Eight shifts of a register whose low byte is clear only move the high byte down:
      no one bit falls out, so the polynomial is never XORed in. */
  lemma ShiftsClearLowByte(x: Register)
    requires x < 0x10000 && x & 0xFF == 0
    ensures Shifts(x, 8) == x >> 8
  {
  }

  /** Absorbing the low byte of the register clears it, and the eight shifts that follow
      bring the high byte down. */
  lemma AbsorbOwnLowByte(w: bv16)
    ensures AbsorbByte(w as Register, LowByte(w)) == (w as Register) >> 8
  {
    ShiftsClearLowByte((w as Register) ^ (LowByte(w) as Register));
  }

  /** Absorbing a one-byte message is one iteration of the outer loop. */
  lemma RegisterAfterSingle(crc: Register, b: bv8)
    requires crc < 0x10000
    ensures RegisterAfter(crc, [b]) == AbsorbByte(crc, b)
  {
  }

  /** Absorbing a register's own high byte once the low byte has been shifted out
      leaves zero. */
  lemma AbsorbOwnHighByte(w: bv16)
    ensures AbsorbByte((w as Register) >> 8, HighByte(w)) == 0
  {
  }

  /** Absorbing a register's own low byte and then its own high byte clears it. */
  lemma AbsorbOwnBytes(w: bv16)
    ensures RegisterAfter(w as Register, [LowByte(w), HighByte(w)]) == 0
  {
    var lo, hi := LowByte(w), HighByte(w);
    assert [lo, hi][1..] == [hi];
    AbsorbOwnLowByte(w);
    AbsorbOwnHighByte(w);
    RegisterAfterSingle((w as Register) >> 8, hi);
  }

  /** The residue property of the Modbus CRC: appending a message's CRC, low byte first,
      gives a message whose CRC is zero. This is why the CRC is sent low byte first. */
  lemma CrcResidue(data: seq<bv8>)
    ensures Crc(data + [LowByte(Crc(data)), HighByte(Crc(data))]) == 0
  {
    var w := Crc(data);
    RegisterAfterConcat(Initial, data, [LowByte(w), HighByte(w)]);
    AbsorbOwnBytes(w);
  }

  /** `_crc16_modbus`: the nested loops over the bytes and the eight bits of each. */
  method ComputeCrc(data: seq<bv8>) returns (r: bv16)
    ensures r == Crc(data)
  {
    var crc: Register := Initial;
    for i := 0 to |data|
      invariant crc < 0x10000
      invariant RegisterAfter(crc, data[i..]) == RegisterAfter(Initial, data)
    {
      assert data[i..] == [data[i]] + data[i + 1..];
      ghost var before := crc;
      crc := crc ^ (data[i] as Register);
      for k := 0 to 8
        invariant crc < 0x10000
        invariant Shifts(crc, 8 - k) == AbsorbByte(before, data[i])
      {
        if crc & 1 == 1 {
          crc := (crc >> 1) ^ Polynomial;
        } else {
          crc := crc >> 1;
        }
      }
    }
    r := (crc & 0xFFFF) as bv16;
  }
}
