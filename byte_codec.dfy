/** Fixed-width unsigned integers packed into bytes, as Python's `struct` module
    does for the standard-size formats `B`, `H`, `I` and `Q` with an explicit
    `>` (big-endian) or `<` (little-endian) prefix, and the byte-string search of
    `bytes.find`. */
module ByteCodec {

  type Byte = b: int | 0 <= b < 256

  datatype ByteOrder = Big | Little

  /** 256^n: the number of distinct values of an n-byte field. */
  function Pow256(n: nat): (r: nat)
    ensures r >= 1
  {
    if n == 0 then 1 else 256 * Pow256(n - 1)
  }

  // ---------------------------------------------------------------------------
  // Positional decoding

  /** Little-endian: the first byte is the least significant. */
  function DecodeLE(s: seq<Byte>): (r: nat)
    ensures r < Pow256(|s|)
  {
    if s == [] then 0
    else
      var rest := DecodeLE(s[1..]);
      assert rest <= Pow256(|s| - 1) - 1;
      s[0] + 256 * rest
  }

  /** Big-endian: the last byte is the least significant. */
  function DecodeBE(s: seq<Byte>): (r: nat)
    ensures r < Pow256(|s|)
  {
    if s == [] then 0
    else
      var front := DecodeBE(s[..|s| - 1]);
      assert front <= Pow256(|s| - 1) - 1;
      256 * front + s[|s| - 1]
  }

  function Decode(s: seq<Byte>, order: ByteOrder): (r: nat)
    ensures r < Pow256(|s|)
  {
    match order
    case Big => DecodeBE(s)
    case Little => DecodeLE(s)
  }

  // ---------------------------------------------------------------------------
  // Positional encoding (struct.pack); only values below 256^n are ever packed

  function EncodeLE(x: nat, n: nat): (s: seq<Byte>)
    ensures |s| == n
  {
    if n == 0 then [] else [x % 256] + EncodeLE(x / 256, n - 1)
  }

  function EncodeBE(x: nat, n: nat): (s: seq<Byte>)
    ensures |s| == n
  {
    if n == 0 then [] else EncodeBE(x / 256, n - 1) + [x % 256]
  }

  function Encode(x: nat, n: nat, order: ByteOrder): (s: seq<Byte>)
    ensures |s| == n
  {
    match order
    case Big => EncodeBE(x, n)
    case Little => EncodeLE(x, n)
  }

  // ---------------------------------------------------------------------------
  // Round trips

  lemma {:induction false} DecodeEncodeLE(x: nat, n: nat)
    requires x < Pow256(n)
    ensures DecodeLE(EncodeLE(x, n)) == x
  {
    if n > 0 {
      assert x / 256 < Pow256(n - 1);
      DecodeEncodeLE(x / 256, n - 1);
      DecodeLEPrepend(x % 256, EncodeLE(x / 256, n - 1));
    }
  }

  /** Prepending a byte shifts a little-endian value up by one byte. */
  lemma DecodeLEPrepend(b: Byte, rest: seq<Byte>)
    ensures DecodeLE([b] + rest) == b + 256 * DecodeLE(rest)
  {
    assert ([b] + rest)[1..] == rest;
  }

  lemma {:induction false} DecodeEncodeBE(x: nat, n: nat)
    requires x < Pow256(n)
    ensures DecodeBE(EncodeBE(x, n)) == x
  {
    if n > 0 {
      assert x / 256 < Pow256(n - 1);
      DecodeEncodeBE(x / 256, n - 1);
      DecodeBEAppend(EncodeBE(x / 256, n - 1), x % 256);
    }
  }

  /** Appending a byte shifts a big-endian value up by one byte. */
  lemma DecodeBEAppend(front: seq<Byte>, b: Byte)
    ensures DecodeBE(front + [b]) == 256 * DecodeBE(front) + b
  {
    assert (front + [b])[..|front|] == front;
  }

  lemma {:induction false} EncodeDecodeLE(s: seq<Byte>)
    ensures EncodeLE(DecodeLE(s), |s|) == s
  {
    if s != [] {
      var x := DecodeLE(s);
      var rest := DecodeLE(s[1..]);
      assert x % 256 == s[0] && x / 256 == rest;
      EncodeDecodeLE(s[1..]);
      assert s == [s[0]] + s[1..];
    }
  }

  lemma {:induction false} EncodeDecodeBE(s: seq<Byte>)
    ensures EncodeBE(DecodeBE(s), |s|) == s
  {
    if s != [] {
      var x := DecodeBE(s);
      var front := DecodeBE(s[..|s| - 1]);
      assert x % 256 == s[|s| - 1] && x / 256 == front;
      EncodeDecodeBE(s[..|s| - 1]);
      assert s == s[..|s| - 1] + [s[|s| - 1]];
    }
  }

  /** Packing a value that fits and unpacking it in the same byte order gives it back. */
  lemma DecodeEncode(x: nat, n: nat, order: ByteOrder)
    requires x < Pow256(n)
    ensures Decode(Encode(x, n, order), order) == x
  {
    match order
    case Big => DecodeEncodeBE(x, n);
    case Little => DecodeEncodeLE(x, n);
  }

  /** Unpacking a byte string and packing the value back reproduces the bytes. */
  lemma EncodeDecode(s: seq<Byte>, order: ByteOrder)
    ensures Encode(Decode(s, order), |s|, order) == s
  {
    match order
    case Big => EncodeDecodeBE(s);
    case Little => EncodeDecodeLE(s);
  }

  /** A one-byte field is the byte itself in either order. */
  lemma DecodeOneByte(s: seq<Byte>, order: ByteOrder)
    requires |s| == 1
    ensures Decode(s, order) == s[0]
  {
    assert s[1..] == [] && s[..0] == [];
  }

  /** Decoding is injective on fields of one width. */
  lemma DecodeInjective(s: seq<Byte>, t: seq<Byte>, order: ByteOrder)
    requires |s| == |t| && Decode(s, order) == Decode(t, order)
    ensures s == t
  {
    EncodeDecode(s, order);
    EncodeDecode(t, order);
  }

  // ---------------------------------------------------------------------------
  // bytes.find

  /** `pat` occurs in `data` starting at index `p`. */
  predicate OccursAt(data: seq<Byte>, pat: seq<Byte>, p: int) {
    0 <= p && p + |pat| <= |data| && data[p..p + |pat|] == pat
  }

  /** The first occurrence of `pat` at an index at or after `from`, or -1. */
  function FindFrom(data: seq<Byte>, pat: seq<Byte>, from: nat): (r: int)
    decreases |data| - from
    ensures r == -1 || (from <= r && OccursAt(data, pat, r))
  {
    if from + |pat| > |data| then -1
    else if data[from..from + |pat|] == pat then from
    else FindFrom(data, pat, from + 1)
  }

  /** FindFrom skips no occurrence: none lies between `from` and its result, and
      -1 means none lies at or after `from`. */
  lemma {:induction false} FindFromIsFirst(data: seq<Byte>, pat: seq<Byte>, from: nat)
    decreases |data| - from
    ensures FindFrom(data, pat, from) == -1 ==> forall p :: from <= p ==> !OccursAt(data, pat, p)
    ensures FindFrom(data, pat, from) != -1 ==>
              forall p :: from <= p < FindFrom(data, pat, from) ==> !OccursAt(data, pat, p)
  {
    if from + |pat| <= |data| && data[from..from + |pat|] != pat {
      FindFromIsFirst(data, pat, from + 1);
    }
  }

  /** `data.find(pat)`: an index where `pat` occurs, or -1. */
  function Find(data: seq<Byte>, pat: seq<Byte>): (r: int)
    ensures r == -1 || OccursAt(data, pat, r)
  {
    FindFrom(data, pat, 0)
  }

  /** `data.find(pat)` is the least index where `pat` occurs, and -1 exactly when it
      occurs nowhere. */
  lemma FindIsFirst(data: seq<Byte>, pat: seq<Byte>)
    ensures Find(data, pat) == -1 <==> forall p :: !OccursAt(data, pat, p)
    ensures Find(data, pat) != -1 ==> forall p :: 0 <= p < Find(data, pat) ==> !OccursAt(data, pat, p)
  {
    FindFromIsFirst(data, pat, 0);
  }
}
