/**
 * Fixed-width unsigned integers of the C sources, their little-endian byte
 * images (every target of this firmware is little-endian and the packet and
 * metadata structs are copied byte for byte), and NUL-terminated strings.
 */
module UInt {

  type uint8 = x: int | 0 <= x < 0x100
  type uint16 = x: int | 0 <= x < 0x1_0000
  type uint32 = x: int | 0 <= x < 0x1_0000_0000

  type Bytes = seq<uint8>

  const NUL: uint8 := 0

  datatype Option<+T> = None | Some(value: T)

  /** The two bytes of a u16 as they lie in memory, low byte first. */
  function Le16(x: uint16): (r: Bytes)
    ensures |r| == 2
  {
    [x % 0x100, x / 0x100]
  }

  function Le16Value(lo: uint8, hi: uint8): uint16
  {
    lo + 0x100 * hi
  }

  /** The four bytes of a u32 as they lie in memory, low byte first. */
  function Le32(x: uint32): (r: Bytes)
    ensures |r| == 4
  {
    Le16(x % 0x1_0000) + Le16(x / 0x1_0000)
  }

  function Le32Value(b: Bytes): uint32
    requires |b| == 4
  {
    Le16Value(b[0], b[1]) + 0x1_0000 * Le16Value(b[2], b[3])
  }

  lemma Le16RoundTrip(x: uint16)
    ensures Le16Value(Le16(x)[0], Le16(x)[1]) == x
  {
  }

  lemma Le16Injective(x: uint16, y: uint16)
    requires Le16(x) == Le16(y)
    ensures x == y
  {
    Le16RoundTrip(x);
    Le16RoundTrip(y);
  }

  lemma Le32RoundTrip(x: uint32)
    ensures Le32Value(Le32(x)) == x
  {
    Le16RoundTrip(x % 0x1_0000);
    Le16RoundTrip(x / 0x1_0000);
  }

  /** Reading two bytes as a u16 and writing it back gives the same bytes. */
  lemma Le16OfValue(lo: uint8, hi: uint8)
    ensures Le16(Le16Value(lo, hi)) == [lo, hi]
  {
  }

  lemma HalvesOf(lo: uint16, hi: uint16)
    ensures (lo + 0x1_0000 * hi) % 0x1_0000 == lo
    ensures (lo + 0x1_0000 * hi) / 0x1_0000 == hi
  {
    var x: int := lo + 0x1_0000 * hi;
    assert x == hi * 0x1_0000 + lo;
  }

  lemma Le32OfValue(b: Bytes)
    requires |b| == 4
    ensures Le32(Le32Value(b)) == b
  {
    HalvesOf(Le16Value(b[0], b[1]), Le16Value(b[2], b[3]));
    Le16OfValue(b[0], b[1]);
    Le16OfValue(b[2], b[3]);
  }

  /** A byte sequence holding no NUL, i.e. a valid C string body. */
  predicate NoNul(s: Bytes)
  {
    forall i :: 0 <= i < |s| ==> s[i] != NUL
  }

  /**
   * The C string that starts at the beginning of `s`: the bytes before the
   * first NUL, or all of `s` when the buffer holds no NUL.
   */
  function CString(s: Bytes): (r: Bytes)
    ensures |r| <= |s| && r == s[..|r|] && NoNul(r)
    ensures |r| < |s| ==> s[|r|] == NUL
  {
    if s == [] || s[0] == NUL then [] else [s[0]] + CString(s[1..])
  }

  /** `strlen` applied to a buffer that holds `name` followed by a NUL. */
  lemma {:induction false} CStringOfTerminated(name: Bytes, rest: Bytes)
    requires NoNul(name)
    ensures CString(name + [NUL] + rest) == name
  {
    if name != [] {
      assert (name + [NUL] + rest)[1..] == name[1..] + [NUL] + rest;
      CStringOfTerminated(name[1..], rest);
    }
  }
}
