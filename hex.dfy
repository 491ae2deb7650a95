/** Rendering a SHA-256 digest as the lowercase hexadecimal string that keys the
    duplicate map. SHA-256 itself is not modelled: it is passed in as a function. */
module Hex {
  import opened FsTree

  /** A 32-byte SHA-256 digest. */
  type Sha256Digest = s: seq<Byte> | |s| == 32 witness seq(32, _ => 0)

  predicate IsLowerHex(c: char)
  {
    '0' <= c <= '9' || 'a' <= c <= 'f'
  }

  /** The lowercase hex digit of a nibble, as std::hex prints it. */
  function HexDigit(n: nat): (c: char)
    requires n < 16
    ensures IsLowerHex(c)
  {
    if n < 10 then ('0' as int + n) as char else ('a' as int + n - 10) as char
  }

  /** One byte as two hex digits, high nibble first, zero-padded. */
  function HexPair(b: Byte): (s: string)
    ensures |s| == 2 && IsLowerHex(s[0]) && IsLowerHex(s[1])
  {
    [HexDigit(b / 16), HexDigit(b % 16)]
  }

  /** The bytes as consecutive zero-padded lowercase hex pairs. */
  function HexString(bytes: seq<Byte>): seq<char>
  {
    if bytes == [] then [] else HexString(bytes[..|bytes| - 1]) + HexPair(bytes[|bytes| - 1])
  }

  /** The value of one hex digit (0 for any other character). */
  function HexValue(c: char): (v: nat)
    ensures v < 16
    ensures IsLowerHex(c) ==> HexDigit(v) == c
  {
    if '0' <= c <= '9' then c as int - '0' as int
    else if 'a' <= c <= 'f' then c as int - 'a' as int + 10
    else 0
  }

  /** Reads a string of hex pairs back into bytes. */
  function HexDecode(s: seq<char>): seq<Byte>
  {
    if |s| < 2 then []
    else HexDecode(s[..|s| - 2]) + [16 * HexValue(s[|s| - 2]) + HexValue(s[|s| - 1])]
  }

  /** Every byte contributes exactly two lowercase hex characters. */
  lemma {:induction false} HexStringShape(bytes: seq<Byte>)
    ensures |HexString(bytes)| == 2 * |bytes|
    ensures forall i :: 0 <= i < |HexString(bytes)| ==> IsLowerHex(HexString(bytes)[i])
  {
    if bytes != [] {
      HexStringShape(bytes[..|bytes| - 1]);
    }
  }

  /** Decoding a rendering gives the bytes back. */
  lemma {:induction false} HexRoundTrip(bytes: seq<Byte>)
    ensures HexDecode(HexString(bytes)) == bytes
  {
    if bytes != [] {
      var pre, b := bytes[..|bytes| - 1], bytes[|bytes| - 1];
      HexRoundTrip(pre);
      DecodePair(HexString(pre), pre, b);
      SplitLast(bytes);
    }
  }

  /** Decoding one more rendered byte appends that byte. */
  lemma DecodePair(t: seq<char>, pre: seq<Byte>, b: Byte)
    requires HexDecode(t) == pre
    ensures HexDecode(t + HexPair(b)) == pre + [b]
  {
    var p := HexPair(b);
    var s := t + p;
    assert s[..|s| - 2] == t;
    assert s[|s| - 2] == p[0] && s[|s| - 1] == p[1];
    PairRoundTrip(b);
  }

  lemma SplitLast<T>(s: seq<T>)
    requires s != []
    ensures s[..|s| - 1] + [s[|s| - 1]] == s
  {
  }

  lemma PairRoundTrip(b: Byte)
    ensures 16 * HexValue(HexPair(b)[0]) + HexValue(HexPair(b)[1]) == b
  {
    DigitRoundTrip(b / 16);
    DigitRoundTrip(b % 16);
  }

  lemma DigitRoundTrip(n: nat)
    requires n < 16
    ensures HexValue(HexDigit(n)) == n
  {
  }

  /** A rendered digest has 64 lowercase hex characters. */
  lemma DigestHexShape(d: Sha256Digest)
    ensures |HexString(d)| == 64 && HexString(d) != ""
    ensures forall i :: 0 <= i < |HexString(d)| ==> IsLowerHex(HexString(d)[i])
  {
    HexStringShape(d);
  }

  /** Distinct digests render to distinct keys, so keying by the hex string groups
      exactly the files with equal digests. */
  lemma HexInjective(a: seq<Byte>, b: seq<Byte>)
    ensures HexString(a) == HexString(b) <==> a == b
  {
    if HexString(a) == HexString(b) {
      HexRoundTrip(a);
      HexRoundTrip(b);
    }
  }

  /** The tail of CalculateSha: writes each of the 32 bytes as two hex digits. */
  method RenderHex(hash: Sha256Digest) returns (s: string)
    ensures s == HexString(hash)
    ensures |s| == 64 && forall i :: 0 <= i < |s| ==> IsLowerHex(s[i])
  {
    s := "";
    var i := 0;
    while i < 32
      invariant 0 <= i <= 32
      invariant s == HexString(hash[..i])
    {
      assert hash[..i + 1][..i] == hash[..i];
      s := s + HexPair(hash[i]);
      i := i + 1;
    }
    assert hash[..32] == hash;
    DigestHexShape(hash);
  }
}
