// Bytes on the wire, the 16-bit network-order length field, and C strings.

module Bytes {

  /** One octet, as `unsigned char` holds it. */
  newtype byte = b: int | 0 <= b < 256

  /** Values an `uint16_t` can hold. */
  const U16Limit: nat := 65536

  /** `htons` applied to an `int` length: the value is first narrowed to
      `uint16_t` (modulo 2^16), then laid out most significant byte first. */
  function BE16(v: nat): (r: seq<byte>)
    ensures |r| == 2
  {
    var w := v % U16Limit;
    [(w / 256) as byte, (w % 256) as byte]
  }

  /** `ntohs` of two bytes copied from the wire: the big-endian value. */
  function FromBE16(hi: byte, lo: byte): (v: nat)
    ensures v < U16Limit
  {
    hi as nat * 256 + lo as nat
  }

  /** Decoding an encoded length gives back the length, narrowed to 16 bits. */
  lemma BE16RoundTrip(v: nat)
    ensures FromBE16(BE16(v)[0], BE16(v)[1]) == v % U16Limit
  {
    var w := v % U16Limit;
    assert w == (w / 256) * 256 + w % 256;
  }

  /** Encoding a decoded pair gives back the pair: no two headers share a value. */
  lemma FromBE16RoundTrip(hi: byte, lo: byte)
    ensures BE16(FromBE16(hi, lo)) == [hi, lo]
  {
    var v := FromBE16(hi, lo);
    assert v % U16Limit == v;
    assert v / 256 == hi as int;
    assert v % 256 == lo as int;
  }

  /** A C string cannot hold a NUL byte before its terminator. */
  predicate NoNul(s: seq<byte>)
  {
    forall i :: 0 <= i < |s| ==> s[i] != 0
  }

  /** What `%s` prints from a buffer: every byte before the first NUL,
      or the whole sequence when it holds none. */
  function CString(s: seq<byte>): (r: seq<byte>)
    ensures NoNul(r)
    ensures r <= s
    ensures |r| < |s| ==> s[|r|] == 0
  {
    if s == [] || s[0] == 0 then [] else [s[0]] + CString(s[1..])
  }

  /** A string without NUL bytes prints whole. */
  lemma {:induction false} CStringWhole(s: seq<byte>)
    requires NoNul(s)
    ensures CString(s) == s
  {
    if s != [] {
      CStringWhole(s[1..]);
      assert [s[0]] + s[1..] == s;
    }
  }

  /** Nothing after a NUL terminator is printed: a terminated buffer prints
      what its bytes before the terminator print. */
  lemma {:induction false} CStringTerminated(s: seq<byte>, tail: seq<byte>)
    ensures CString(s + [0] + tail) == CString(s)
  {
    if s != [] {
      assert (s + [0] + tail)[1..] == s[1..] + [0] + tail;
      if s[0] != 0 {
        CStringTerminated(s[1..], tail);
      }
    } else {
      assert (s + [0] + tail)[0] == 0;
    }
  }
}
