/**
 * The browser's `atob`: the forgiving-base64 decode of the WHATWG Infra
 * Standard over the alphabet of section 4 of RFC 4648, returning a "binary
 * string" whose characters all have codes below 256.  `Encode` is the
 * padded encoding that `FileReader.readAsDataURL` produces; it is here as the
 * partner of `Atob`, and `DecodeEncode` proves that one undoes the other.
 */
module Base64 {
  import opened Wrappers

  /** An octet, as a `Uint8Array` element holds it. */
  newtype byte = x: int | 0 <= x < 256

  /** The character for a 6-bit value (RFC 4648, section 4, Table 1). */
  function SextetChar(v: int): (c: char)
    requires 0 <= v < 64
    ensures SextetValue(c) == v
  {
    if v < 26 then ('A' as int + v) as char
    else if v < 52 then ('a' as int + (v - 26)) as char
    else if v < 62 then ('0' as int + (v - 52)) as char
    else if v == 62 then '+'
    else '/'
  }

  /** The 6-bit value of an alphabet character, or -1 for any other character. */
  function SextetValue(c: char): (v: int)
    ensures -1 <= v < 64
  {
    if 'A' <= c <= 'Z' then c as int - 'A' as int
    else if 'a' <= c <= 'z' then c as int - 'a' as int + 26
    else if '0' <= c <= '9' then c as int - '0' as int + 52
    else if c == '+' then 62
    else if c == '/' then 63
    else -1
  }

  predicate InAlphabet(c: char) {
    SextetValue(c) >= 0
  }

  /** TAB, LF, FF, CR and SPACE: what forgiving-base64 removes first. */
  predicate IsAsciiWhitespace(c: char) {
    c == '\t' || c == '\n' || c == '\U{000C}' || c == '\r' || c == ' '
  }

  function StripAsciiWhitespace(s: string): (r: string)
    ensures |r| <= |s|
    ensures forall i :: 0 <= i < |r| ==> !IsAsciiWhitespace(r[i])
  {
    if s == [] then []
    else (if IsAsciiWhitespace(s[0]) then [] else [s[0]]) + StripAsciiWhitespace(s[1..])
  }

  /** When the length is a multiple of four, one or two trailing '=' are dropped. */
  function StripPadding(s: string): string {
    if |s| % 4 == 0 && |s| >= 2 && s[|s| - 2] == '=' && s[|s| - 1] == '=' then s[..|s| - 2]
    else if |s| % 4 == 0 && |s| >= 1 && s[|s| - 1] == '=' then s[..|s| - 1]
    else s
  }

  ghost predicate AllSextets(v: seq<int>) {
    forall i :: 0 <= i < |v| ==> 0 <= v[i] < 64
  }

  ghost predicate AllOctets(b: seq<int>) {
    forall i :: 0 <= i < |b| ==> 0 <= b[i] < 256
  }

  /** The three bytes that four 6-bit values carry. */
  function Triple(v0: int, v1: int, v2: int, v3: int): (b: seq<int>)
    requires 0 <= v0 < 64 && 0 <= v1 < 64 && 0 <= v2 < 64 && 0 <= v3 < 64
    ensures |b| == 3 && AllOctets(b)
  {
    [v0 * 4 + v1 / 16, (v1 % 16) * 16 + v2 / 4, (v2 % 4) * 64 + v3]
  }

  /**
   * Turns the 6-bit values into bytes, three bytes per four values; a final
   * group of three values gives two bytes and of two values one byte, the
   * low bits left over being discarded.
   */
  function DecodeSextets(v: seq<int>): (b: seq<int>)
    requires AllSextets(v)
    requires |v| % 4 != 1
    ensures |b| == |v| * 6 / 8
    ensures AllOctets(b)
  {
    if |v| >= 4 then Triple(v[0], v[1], v[2], v[3]) + DecodeSextets(v[4..])
    else if |v| == 3 then Triple(v[0], v[1], v[2], 0)[..2]
    else if |v| == 2 then Triple(v[0], v[1], 0, 0)[..1]
    else []
  }

  function Sextets(s: string): (v: seq<int>)
    requires forall i :: 0 <= i < |s| ==> InAlphabet(s[i])
  {
    seq(|s|, i requires 0 <= i < |s| => SextetValue(s[i]))
  }

  /** The binary string whose character codes are the given bytes. */
  function BinaryString(b: seq<int>): (r: string)
    requires AllOctets(b)
  {
    seq(|b|, i requires 0 <= i < |b| => b[i] as char)
  }

  /**
   * `atob(data)`: strip ASCII whitespace, strip the padding, fail on a length
   * that leaves remainder 1 modulo 4 or on a character outside the alphabet,
   * and otherwise decode.  `None` stands for the `InvalidCharacterError`
   * that `atob` throws.
   */
  function Atob(data: string): (r: Option<string>)
    ensures r.Some? ==> forall i :: 0 <= i < |r.value| ==> r.value[i] as int < 256
    ensures r.Some? ==>
              var d := StripPadding(StripAsciiWhitespace(data));
              |d| % 4 != 1 && |r.value| == |d| * 6 / 8
    ensures r.None? <==>
              var d := StripPadding(StripAsciiWhitespace(data));
              |d| % 4 == 1 || exists i :: 0 <= i < |d| && !InAlphabet(d[i])
  {
    var d := StripPadding(StripAsciiWhitespace(data));
    if |d| % 4 == 1 || exists i :: 0 <= i < |d| && !InAlphabet(d[i]) then None
    else Some(BinaryString(DecodeSextets(Sextets(d))))
  }

  // ---------------------------------------------------------------------
  // The encoder, partner of Atob

  function Bytes(bs: seq<byte>): (b: seq<int>)
    ensures |b| == |bs| && AllOctets(b)
  {
    seq(|bs|, i requires 0 <= i < |bs| => bs[i] as int)
  }

  /** The 6-bit values for three bytes. */
  function Quad(b0: int, b1: int, b2: int): (v: seq<int>)
    requires 0 <= b0 < 256 && 0 <= b1 < 256 && 0 <= b2 < 256
    ensures |v| == 4 && AllSextets(v)
  {
    [b0 / 4, (b0 % 4) * 16 + b1 / 16, (b1 % 16) * 4 + b2 / 64, b2 % 64]
  }

  /** The 6-bit values for a byte sequence, the last group zero-filled. */
  function EncodeSextets(b: seq<int>): (v: seq<int>)
    requires AllOctets(b)
    ensures AllSextets(v)
    ensures |v| == 4 * (|b| / 3) + (if |b| % 3 == 0 then 0 else |b| % 3 + 1)
  {
    if |b| >= 3 then Quad(b[0], b[1], b[2]) + EncodeSextets(b[3..])
    else if |b| == 2 then Quad(b[0], b[1], 0)[..3]
    else if |b| == 1 then Quad(b[0], 0, 0)[..2]
    else []
  }

  /** The alphabet characters for the bytes, without the '=' padding. */
  function EncodeDigits(bs: seq<byte>): (r: string)
    ensures forall i :: 0 <= i < |r| ==> InAlphabet(r[i])
    ensures |r| % 4 != 1
    ensures |r| % 4 == 0 <==> |bs| % 3 == 0
  {
    var v := EncodeSextets(Bytes(bs));
    GroupRemainder(|bs| / 3, if |bs| % 3 == 0 then 0 else |bs| % 3 + 1);
    seq(|v|, i requires 0 <= i < |v| => SextetChar(v[i]))
  }

  lemma GroupRemainder(groups: nat, tail: nat)
    requires tail < 4
    ensures (4 * groups + tail) % 4 == tail
  {
  }

  /** The '=' characters that fill the last group up to four characters. */
  function Padding(k: nat): string
    requires k <= 2
  {
    if k == 2 then "==" else if k == 1 then "=" else ""
  }

  /** Padded base64 (RFC 4648, section 4). */
  function Encode(bs: seq<byte>): (r: string)
    ensures |r| == 4 * ((|bs| + 2) / 3)
    ensures forall i :: 0 <= i < |r| ==> r[i] != ','
  {
    EncodeDigits(bs) + Padding(if |bs| % 3 == 0 then 0 else 3 - |bs| % 3)
  }

  lemma {:induction false} StripWhitespaceNoop(s: string)
    requires forall i :: 0 <= i < |s| ==> !IsAsciiWhitespace(s[i])
    ensures StripAsciiWhitespace(s) == s
  {
    if s != [] {
      StripWhitespaceNoop(s[1..]);
      assert s == [s[0]] + s[1..];
    }
  }

  lemma QuadDecodes(b0: int, b1: int, b2: int)
    requires 0 <= b0 < 256 && 0 <= b1 < 256 && 0 <= b2 < 256
    ensures var v := Quad(b0, b1, b2); Triple(v[0], v[1], v[2], v[3]) == [b0, b1, b2]
  {
  }

  lemma QuadDecodedFirst(b0: int, b1: int, b2: int, rest: seq<int>)
    requires 0 <= b0 < 256 && 0 <= b1 < 256 && 0 <= b2 < 256
    requires AllSextets(rest) && |rest| % 4 != 1
    ensures AllSextets(Quad(b0, b1, b2) + rest)
    ensures DecodeSextets(Quad(b0, b1, b2) + rest) == [b0, b1, b2] + DecodeSextets(rest)
  {
    var q := Quad(b0, b1, b2);
    var v := q + rest;
    assert v[4..] == rest;
    assert AllSextets(v) by {
      forall i | 0 <= i < |v| ensures 0 <= v[i] < 64 {
        if i >= 4 {
          assert v[i] == rest[i - 4];
        }
      }
    }
    assert v[0] == q[0] && v[1] == q[1] && v[2] == q[2] && v[3] == q[3];
    QuadDecodes(b0, b1, b2);
  }

  lemma {:induction false} DecodeEncodeSextets(b: seq<int>)
    requires AllOctets(b)
    ensures DecodeSextets(EncodeSextets(b)) == b
  {
    if |b| >= 3 {
      var tail := b[3..];
      assert AllOctets(tail);
      var rest := EncodeSextets(tail);
      assert EncodeSextets(b) == Quad(b[0], b[1], b[2]) + rest;
      QuadDecodedFirst(b[0], b[1], b[2], rest);
      DecodeEncodeSextets(tail);
      assert b == [b[0], b[1], b[2]] + tail;
    } else if |b| == 2 {
      QuadDecodes(b[0], b[1], 0);
      assert b == [b[0], b[1]];
    } else if |b| == 1 {
      QuadDecodes(b[0], 0, 0);
      assert b == [b[0]];
    }
  }

  lemma StripPaddingOf(d: string, k: nat)
    requires k <= 2 && (|d| + k) % 4 == 0
    requires forall i :: 0 <= i < |d| ==> d[i] != '='
    ensures StripPadding(d + Padding(k)) == d
  {
    var e := d + Padding(k);
    if k == 0 {
      assert e == d;
      if |e| > 0 {
        assert e[|e| - 1] == d[|d| - 1];
      }
    } else if k == 1 {
      assert e[..|e| - 1] == d;
      assert |d| >= 3;
      assert e[|e| - 2] == d[|d| - 1];
    } else {
      assert e[..|e| - 2] == d;
    }
  }

  lemma EncodingHasNoWhitespace(bs: seq<byte>)
    ensures forall i :: 0 <= i < |Encode(bs)| ==> !IsAsciiWhitespace(Encode(bs)[i])
  {
    var e := Encode(bs);
    var digits := EncodeDigits(bs);
    forall i | 0 <= i < |e| ensures !IsAsciiWhitespace(e[i]) {
      if i < |digits| {
        assert e[i] == digits[i];
        assert InAlphabet(digits[i]);
      }
    }
  }

  /** What `Atob` is left with after its whitespace and padding steps. */
  lemma CleanedEncoding(bs: seq<byte>)
    ensures StripPadding(StripAsciiWhitespace(Encode(bs))) == EncodeDigits(bs)
  {
    var digits := EncodeDigits(bs);
    var k := if |bs| % 3 == 0 then 0 else 3 - |bs| % 3;
    var e := Encode(bs);
    assert e == digits + Padding(k);
    GroupRemainder((|bs| + 2) / 3, 0);
    assert (|digits| + k) % 4 == 0;
    EncodingHasNoWhitespace(bs);
    StripWhitespaceNoop(e);
    forall i | 0 <= i < |digits| ensures digits[i] != '=' {
      assert InAlphabet(digits[i]);
    }
    StripPaddingOf(digits, k);
  }

  /** Decoding the encoding of any byte sequence gives those bytes back. */
  lemma DecodeEncode(bs: seq<byte>)
    ensures Atob(Encode(bs)) == Some(BinaryString(Bytes(bs)))
  {
    var digits := EncodeDigits(bs);
    CleanedEncoding(bs);
    assert Sextets(digits) == EncodeSextets(Bytes(bs));
    DecodeEncodeSextets(Bytes(bs));
  }
}
