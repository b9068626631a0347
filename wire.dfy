/** Byte-level vocabulary shared by the loader and the custom Modbus client:
    octets and 16-bit register values, C++ integer conversions, byte sums and
    the 4-byte little-endian flash offset that heads every program chunk. */
module Wire {

  datatype Option<+T> = None | Some(value: T)

  datatype Result<+R, +E> = Ok(value: R) | Err(error: E)

  /** One octet of a QByteArray, read as unsigned. */
  type byte = x: int | 0 <= x < 0x100

  /** A quint16 register value, as held in a QModbusDataUnit. */
  type word = x: int | 0 <= x < 0x1_0000

  const TWO_TO_32: nat := 0x1_0000_0000

  /** C++ conversion of an int to quint8: the value modulo 2^8. */
  function ToQuint8(x: int): byte {
    x % 0x100
  }

  /** C++ conversion of an int to quint16: the value modulo 2^16. */
  function ToQuint16(x: int): word {
    x % 0x1_0000
  }

  /** The value of an octet seen through a (signed) `char`. */
  function SignedChar(b: byte): (r: int)
    ensures -0x80 <= r < 0x80
    ensures ToQuint8(r) == b
    ensures r < 0 <==> b >= 0x80
  {
    if b < 0x80 then b else b - 0x100
  }

  /** Plain arithmetic sum of a byte sequence (no wrap-around). */
  function Sum(s: seq<byte>): nat {
    if s == [] then 0 else Sum(s[..|s| - 1]) + s[|s| - 1]
  }

  lemma {:induction false} SumConcat(a: seq<byte>, b: seq<byte>)
    ensures Sum(a + b) == Sum(a) + Sum(b)
    decreases |b|
  {
    if b == [] {
      assert a + b == a;
    } else {
      var b' := b[..|b| - 1];
      assert (a + b)[..|a + b| - 1] == a + b';
      SumConcat(a, b');
    }
  }

  /** The offset header: the low 32 bits of a file position, least
      significant byte first. */
  function Le32(p: nat): (r: seq<byte>)
    ensures |r| == 4
  {
    var x := p % TWO_TO_32;
    [x % 0x100, x / 0x100 % 0x100, x / 0x1_0000 % 0x100, x / 0x100_0000 % 0x100]
  }

  /** How the device reads an offset header back. */
  function DecodeLe32(h: seq<byte>): nat
    requires |h| == 4
  {
    h[0] as int + 0x100 * (h[1] as int) + 0x1_0000 * (h[2] as int) + 0x100_0000 * (h[3] as int)
  }

  lemma DivDiv256(x: nat)
    ensures x / 0x100 / 0x100 == x / 0x1_0000
    ensures x / 0x1_0000 / 0x100 == x / 0x100_0000
  {
    var q1 := x / 0x100;
    var q2 := q1 / 0x100;
    assert x == 0x1_0000 * q2 + 0x100 * (q1 % 0x100) + x % 0x100;
    var q3 := q2 / 0x100;
    assert x == 0x100_0000 * q3 + 0x1_0000 * (q2 % 0x100) + 0x100 * (q1 % 0x100) + x % 0x100;
  }

  /** The device recovers the position modulo 2^32 from the header. */
  lemma Le32RoundTrip(p: nat)
    ensures DecodeLe32(Le32(p)) == p % TWO_TO_32
  {
    var x := p % TWO_TO_32;
    DivDiv256(x);
    var q1, q2, q3 := x / 0x100, x / 0x1_0000, x / 0x100_0000;
    assert q3 < 0x100;
    assert q2 == 0x100 * q3 + q2 % 0x100;
    assert q1 == 0x100 * q2 + q1 % 0x100;
    assert x == 0x100 * q1 + x % 0x100;
  }

  /** 256^i for the four byte lanes of a 32-bit value. */
  function Pow256(i: nat): (r: nat)
    requires i < 4
    ensures r > 0
  {
    match i
    case 0 => 1
    case 1 => 0x100
    case 2 => 0x1_0000
    case _ => 0x100_0000
  }
}
