/**
 * Little-endian 16- and 32-bit fields over byte strings, and the
 * 32-bit unsigned wrap-around of C's uint32_t arithmetic.
 */
module Bytes {

  const U16_LIMIT: nat := 0x1_0000
  const U32_LIMIT: nat := 0x1_0000_0000

  /** An unsigned char. */
  type byte = x: nat | x < 0x100

  type u16 = x: nat | x < U16_LIMIT
  type u32 = x: nat | x < U32_LIMIT

  /** The value a uint32_t holds after an arithmetic result x is stored in it. */
  function Wrap32(x: int): (r: u32)
    ensures (r - x) % U32_LIMIT == 0
    ensures 0 <= x < U32_LIMIT ==> r == x
  {
    x % U32_LIMIT
  }

  /** The value an off_t (int32_t) holds after a uint32_t is converted to it. */
  function Signed32(x: u32): (r: int)
    ensures -0x8000_0000 <= r < 0x8000_0000
    ensures r < 0 <==> x >= 0x8000_0000
    ensures (r - x) % U32_LIMIT == 0
  {
    if x < 0x8000_0000 then x else x - U32_LIMIT
  }

  /** Little-endian 16-bit field at byte offset i. */
  function U16At(s: seq<byte>, i: nat): (r: u16)
    requires i + 2 <= |s|
  {
    s[i] as nat + 0x100 * (s[i + 1] as nat)
  }

  /** Little-endian 32-bit field at byte offset i. */
  function U32At(s: seq<byte>, i: nat): (r: u32)
    requires i + 4 <= |s|
  {
    U16At(s, i) + U16_LIMIT * U16At(s, i + 2)
  }

  /** The two bytes of a uint16_t, least significant first. */
  function EncodeU16(x: u16): (r: seq<byte>)
    ensures |r| == 2 && U16At(r, 0) == x
  {
    [x % 0x100, x / 0x100]
  }

  /** The four bytes of a uint32_t, least significant first. */
  function EncodeU32(x: u32): (r: seq<byte>)
    ensures |r| == 4 && U32At(r, 0) == x
  {
    var lo, hi := EncodeU16(x % U16_LIMIT), EncodeU16(x / U16_LIMIT);
    assert U32At(lo + hi, 0) == U16At(lo, 0) + U16_LIMIT * U16At(hi, 0);
    lo + hi
  }

  /** Decoding a field and encoding it again gives back the original bytes. */
  lemma EncodeU16At(s: seq<byte>, i: nat)
    requires i + 2 <= |s|
    ensures EncodeU16(U16At(s, i)) == s[i..i + 2]
  {
    var x := U16At(s, i);
    assert x % 0x100 == s[i] && x / 0x100 == s[i + 1];
  }

  lemma EncodeU32At(s: seq<byte>, i: nat)
    requires i + 4 <= |s|
    ensures EncodeU32(U32At(s, i)) == s[i..i + 4]
  {
    var x := U32At(s, i);
    assert x % U16_LIMIT == U16At(s, i) && x / U16_LIMIT == U16At(s, i + 2);
    EncodeU16At(s, i);
    EncodeU16At(s, i + 2);
  }

  /** A field read from a concatenation comes from the part that holds it. */
  lemma U16AtConcat(a: seq<byte>, b: seq<byte>, i: nat)
    requires i + 2 <= |b|
    ensures U16At(a + b, |a| + i) == U16At(b, i)
  {
    assert (a + b)[|a| + i] == b[i] && (a + b)[|a| + i + 1] == b[i + 1];
  }

  lemma U32AtConcat(a: seq<byte>, b: seq<byte>, i: nat)
    requires i + 4 <= |b|
    ensures U32At(a + b, |a| + i) == U32At(b, i)
  {
    U16AtConcat(a, b, i);
    U16AtConcat(a, b, i + 2);
  }

  lemma U16AtPrefix(a: seq<byte>, b: seq<byte>, i: nat)
    requires i + 2 <= |a|
    ensures U16At(a + b, i) == U16At(a, i)
  {
    assert (a + b)[i] == a[i] && (a + b)[i + 1] == a[i + 1];
  }

  lemma U32AtPrefix(a: seq<byte>, b: seq<byte>, i: nat)
    requires i + 4 <= |a|
    ensures U32At(a + b, i) == U32At(a, i)
  {
    U16AtPrefix(a, b, i);
    U16AtPrefix(a, b, i + 2);
  }

  /** A 32-bit field depends only on its own four bytes. */
  lemma U32AtSame(s: seq<byte>, t: seq<byte>, i: nat)
    requires i + 4 <= |s| && i + 4 <= |t|
    requires s[i] == t[i] && s[i + 1] == t[i + 1] && s[i + 2] == t[i + 2] && s[i + 3] == t[i + 3]
    ensures U32At(s, i) == U32At(t, i)
  {
  }

  /** A run of uint16_t fields laid out one after another. */
  function Halves(hs: seq<u16>): (r: seq<byte>)
    ensures |r| == 2 * |hs|
  {
    if hs == [] then [] else EncodeU16(hs[0]) + Halves(hs[1..])
  }

  /** A run of uint32_t fields laid out one after another. */
  function Words(ws: seq<u32>): (r: seq<byte>)
    ensures |r| == 4 * |ws|
  {
    if ws == [] then [] else EncodeU32(ws[0]) + Words(ws[1..])
  }

  /** Field k of a run of halves is found at byte offset 2k. */
  lemma {:induction false} HalvesAt(hs: seq<u16>, k: nat)
    requires k < |hs|
    ensures U16At(Halves(hs), 2 * k) == hs[k]
  {
    if k == 0 {
      U16AtPrefix(EncodeU16(hs[0]), Halves(hs[1..]), 0);
    } else {
      HalvesAt(hs[1..], k - 1);
      U16AtConcat(EncodeU16(hs[0]), Halves(hs[1..]), 2 * (k - 1));
    }
  }

  /** Field k of a run of words is found at byte offset 4k. */
  lemma {:induction false} WordsAt(ws: seq<u32>, k: nat)
    requires k < |ws|
    ensures U32At(Words(ws), 4 * k) == ws[k]
  {
    if k == 0 {
      U32AtPrefix(EncodeU32(ws[0]), Words(ws[1..]), 0);
    } else {
      WordsAt(ws[1..], k - 1);
      U32AtConcat(EncodeU32(ws[0]), Words(ws[1..]), 4 * (k - 1));
    }
  }

  /** A run of n zero bytes, as memset (p, 0, n) leaves it. */
  function Zeros(n: nat): (r: seq<byte>)
    ensures |r| == n && forall i :: 0 <= i < n ==> r[i] == 0
  {
    seq(n, _ => 0)
  }
}
