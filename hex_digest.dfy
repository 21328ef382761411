/**
 * `computeHash` of the event routes: the SHA-256 digest of the UTF-8 bytes of
 * its input, rendered byte by byte as `b.toString(16).padStart(2, "0")` and
 * joined. The digest itself is a parameter (`sha`); the rendering is concrete.
 */
module HexDigest {
  import opened Platform
  import opened JsText

  type Byte = b: int | 0 <= b < 256

  /** A SHA-256 digest: 32 bytes. */
  type Digest = s: seq<Byte> | |s| == 32 witness seq(32, _ => 0)

  /** `s.padStart(width, fill)` for a one-character fill string. */
  function PadStart(s: string, width: nat, fill: char): (r: string)
  {
    if |s| >= width then s else seq(width - |s|, _ => fill) + s
  }

  /** `b.toString(16).padStart(2, "0")`. */
  function ByteToHex(b: Byte): string {
    PadStart(NumberToString(b, 16), 2, '0')
  }

  /** Each byte renders as exactly two digits, high nibble first. */
  lemma ByteToHexDigits(b: Byte)
    ensures ByteToHex(b) == [DigitChar(b / 16), DigitChar(b % 16)]
  {
    if b >= 16 {
      assert NumberToString(b / 16, 16) == [DigitChar(b / 16)];
    }
  }

  /** `Array.from(bytes).map(ByteToHex).join("")`. */
  function Hex(bytes: seq<Byte>): (r: string)
    ensures |r| == 2 * |bytes|
    ensures IsDigitString(r, 16)
  {
    if bytes == [] then ""
    else
      ByteToHexDigits(bytes[0]);
      ByteToHex(bytes[0]) + Hex(bytes[1..])
  }

  /** Reads a string of lower-case hex digit pairs back into bytes. */
  function HexDecode(s: string): Option<seq<Byte>>
    decreases |s|
  {
    if s == [] then Some([])
    else if |s| < 2 then None
    else
      var hi, lo := DigitValue(s[0]), DigitValue(s[1]);
      if 0 <= hi < 16 && 0 <= lo < 16 then
        match HexDecode(s[2..])
        case None => None
        case Some(rest) => Some([hi * 16 + lo] + rest)
      else None
  }

  /** Decoding undoes the rendering. */
  lemma {:induction false} HexRoundTrip(bytes: seq<Byte>)
    ensures HexDecode(Hex(bytes)) == Some(bytes)
  {
    if bytes != [] {
      var b := bytes[0];
      ByteToHexDigits(b);
      HexRoundTrip(bytes[1..]);
      var s := Hex(bytes);
      assert s[2..] == Hex(bytes[1..]);
      assert DigitValue(s[0]) * 16 + DigitValue(s[1]) == b;
      assert [b] + bytes[1..] == bytes;
    }
  }

  /** Every string the decoder accepts is the rendering of the bytes it decodes to. */
  lemma {:induction false} HexDecodeRenders(s: string, bytes: seq<Byte>)
    requires HexDecode(s) == Some(bytes)
    ensures Hex(bytes) == s
    decreases |s|
  {
    if s != [] {
      var hi, lo := DigitValue(s[0]), DigitValue(s[1]);
      var rest := HexDecode(s[2..]).value;
      HexDecodeRenders(s[2..], rest);
      assert bytes == [hi * 16 + lo] + rest;
      PairRenders(s[0], s[1]);
      assert bytes[1..] == rest;
      assert s == [s[0], s[1]] + s[2..];
    }
  }

  /** A pair of lower-case hex digits is the rendering of the byte it denotes. */
  lemma PairRenders(c0: char, c1: char)
    requires 0 <= DigitValue(c0) < 16 && 0 <= DigitValue(c1) < 16
    ensures ByteToHex(DigitValue(c0) * 16 + DigitValue(c1)) == [c0, c1]
  {
    var hi, lo := DigitValue(c0), DigitValue(c1);
    NibbleSplit(hi, lo);
    ByteToHexDigits(hi * 16 + lo);
    DigitCharOfValue(c0);
    DigitCharOfValue(c1);
  }

  lemma NibbleSplit(hi: int, lo: int)
    requires 0 <= hi < 16 && 0 <= lo < 16
    ensures (hi * 16 + lo) / 16 == hi && (hi * 16 + lo) % 16 == lo
  {
  }

  lemma DigitCharOfValue(c: char)
    requires 0 <= DigitValue(c) < 36
    ensures DigitChar(DigitValue(c)) == c
  {
  }

  /** Distinct byte strings render differently. */
  lemma HexInjective(a: seq<Byte>, b: seq<Byte>)
    requires Hex(a) == Hex(b)
    ensures a == b
  {
    HexRoundTrip(a);
    HexRoundTrip(b);
  }

  /** `computeHash`: the lower-case hex rendering of the SHA-256 digest of `input`. */
  function ComputeHash(sha: string -> Digest, input: string): (h: string)
    ensures |h| == 64 && IsDigitString(h, 16)
  {
    Hex(sha(input))
  }

  /** The hash decodes back to the digest it renders. */
  lemma ComputeHashDecodes(sha: string -> Digest, input: string)
    ensures HexDecode(ComputeHash(sha, input)) == Some(sha(input))
  {
    HexRoundTrip(sha(input));
  }

  /** Two inputs hash alike exactly when their digests agree. */
  lemma ComputeHashInjective(sha: string -> Digest, a: string, b: string)
    ensures ComputeHash(sha, a) == ComputeHash(sha, b) <==> sha(a) == sha(b)
  {
    if ComputeHash(sha, a) == ComputeHash(sha, b) {
      ComputeHashDecodes(sha, a);
      ComputeHashDecodes(sha, b);
    }
  }
}
