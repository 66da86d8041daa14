/**
  Byte-level vocabulary shared by the PowerUDP data channel and the server's
  control channel: the C fixed-width integer types, network byte order
  (htons/ntohs, htonl/ntohl) and NUL-terminated C strings.
*/
module Common {

  datatype Option<+T> = None | Some(value: T)

  /** C's uint8_t; also one octet on the wire. */
  type u8 = x: int | 0 <= x < 0x100
  /** C's uint16_t. */
  type u16 = x: int | 0 <= x < 0x1_0000
  /** C's uint32_t. */
  type u32 = x: int | 0 <= x < 0x1_0000_0000

  /** A buffer of octets, as sent or received on a socket. */
  type Bytes = seq<u8>

  const U32Modulus: int := 0x1_0000_0000

  /** A uint16_t held in network byte order, as a C struct field after htons(). */
  datatype NetU16 = NetU16(hi: u8, lo: u8)

  /** 256^n: how many values n bytes can hold. */
  function Radix(n: nat): (r: nat)
    ensures r >= 1
  {
    if n == 0 then 1 else 0x100 * Radix(n - 1)
  }

  /** The n-byte big-endian (network order) image of v, most significant byte first. */
  function ToBe(v: nat, n: nat): (b: Bytes)
    requires v < Radix(n)
    ensures |b| == n
  {
    if n == 0 then [] else ToBe(v / 0x100, n - 1) + [v % 0x100]
  }

  /** The value of big-endian bytes. */
  function FromBe(b: Bytes): (v: nat)
    ensures v < Radix(|b|)
  {
    if |b| == 0 then 0 else FromBe(b[..|b| - 1]) * 0x100 + b[|b| - 1]
  }

  /** Reading back the bytes written gives the value written. */
  lemma {:induction false} LemmaFromToBe(v: nat, n: nat)
    requires v < Radix(n)
    ensures FromBe(ToBe(v, n)) == v
  {
    if n > 0 {
      LemmaFromToBe(v / 0x100, n - 1);
      var b := ToBe(v, n);
      assert b[..|b| - 1] == ToBe(v / 0x100, n - 1);
    }
  }

  /** Writing the value read gives back the bytes read. */
  lemma {:induction false} LemmaToFromBe(b: Bytes)
    ensures ToBe(FromBe(b), |b|) == b
  {
    if |b| > 0 {
      var init := b[..|b| - 1];
      LemmaToFromBe(init);
      var v := FromBe(b);
      assert v / 0x100 == FromBe(init) && v % 0x100 == b[|b| - 1];
      assert b == init + [b[|b| - 1]];
    }
  }

  /** htons/htonl: the wire bytes of a uint16_t or uint32_t. */
  function U16ToBe(v: u16): (b: Bytes)
    ensures |b| == 2
  {
    ToBe(v, 2)
  }

  function U32ToBe(v: u32): (b: Bytes)
    ensures |b| == 4
  {
    ToBe(v, 4)
  }

  /** ntohs/ntohl applied to the first two or four bytes of b. */
  function BeToU16(b: Bytes): u16
    requires |b| >= 2
  {
    FromBe(b[..2])
  }

  function BeToU32(b: Bytes): u32
    requires |b| >= 4
  {
    FromBe(b[..4])
  }

  /** ntohs of a field held in network order. */
  function Ntohs(n: NetU16): u16
  {
    FromBe([n.hi, n.lo])
  }

  /** htons: a host value stored in network order. */
  function Htons(v: u16): (n: NetU16)
    ensures Ntohs(n) == v
  {
    var b := ToBe(v, 2);
    LemmaFromToBe(v, 2);
    assert [b[0], b[1]] == b;
    NetU16(b[0], b[1])
  }

  /**
    The C string stored at the start of a buffer: every byte before the first
    NUL, or the whole buffer when it holds no NUL.
  */
  function CStr(b: Bytes): (s: Bytes)
    ensures |s| <= |b| && s == b[..|s|]
    ensures 0 !in s
    ensures |s| < |b| ==> b[|s|] == 0
  {
    if |b| == 0 || b[0] == 0 then []
    else [b[0]] + CStr(b[1..])
  }

  /** The C string of a buffer is pinned down by where the first NUL sits. */
  lemma LemmaCStrAt(b: Bytes, n: nat)
    requires n < |b| && b[n] == 0 && 0 !in b[..n]
    ensures CStr(b) == b[..n]
  {
  }
}
