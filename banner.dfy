/**
 * The `Banner` record and `base64ToFile`, which turns the data URI stored in
 * a banner's `image.data` (`data:<mime>;base64,<payload>`, the syntax of
 * section 3 of RFC 2397) back into a named, typed file.
 */
module BannerModel {
  import opened Wrappers
  import opened Base64

  /** `image`: an object whose `name` and `data` keys may each be absent. */
  datatype ImageRef = ImageRef(name: Option<string>, data: Option<string>)

  datatype Banner = Banner(
    id: Option<string>,
    group: string,
    name: string,
    link: string,
    order: int,
    texts: seq<string>,
    image: ImageRef,
    status: string,
    createDate: string)

  /** The `File` that `base64ToFile` builds: its name, its `type` and its content. */
  datatype File = File(name: string, mimeType: string, bytes: seq<byte>)

  /** What `atob` throws on a payload it cannot decode. */
  datatype DecodeError = InvalidCharacterError

  datatype Result<T> = Ok(value: T) | Err(error: DecodeError)

  // ---------------------------------------------------------------------
  // String.prototype.split with a one-character separator

  function Join(parts: seq<string>, sep: char): string
    requires |parts| >= 1
  {
    if |parts| == 1 then parts[0] else parts[0] + [sep] + Join(parts[1..], sep)
  }

  /** `s.split(sep)`: the maximal separator-free pieces, in order. */
  function Split(s: string, sep: char): (parts: seq<string>)
    ensures |parts| >= 1
    ensures forall i :: 0 <= i < |parts| ==> sep !in parts[i]
    ensures Join(parts, sep) == s
  {
    if s == [] then [""]
    else
      var rest := Split(s[1..], sep);
      if s[0] == sep then
        assert [sep] + Join(rest, sep) == s;
        [""] + rest
      else
        var first := [s[0]] + rest[0];
        assert |rest| > 1 ==> rest == [rest[0]] + rest[1..];
        assert [s[0]] + Join(rest, sep) == s;
        [first] + rest[1..]
  }

  lemma {:induction false} SplitNoSeparator(s: string, sep: char)
    requires sep !in s
    ensures Split(s, sep) == [s]
  {
    if s != [] {
      SplitNoSeparator(s[1..], sep);
    }
  }

  lemma {:induction false} SplitAtSeparator(x: string, sep: char, y: string)
    requires sep !in x
    ensures Split(x + [sep] + y, sep) == [x] + Split(y, sep)
  {
    if x != [] {
      assert (x + [sep] + y)[1..] == x[1..] + [sep] + y;
      SplitAtSeparator(x[1..], sep, y);
      assert [x[0]] + x[1..] == x;
    } else {
      assert (x + [sep] + y)[1..] == y;
    }
  }

  /** Splitting undoes joining separator-free pieces. */
  lemma {:induction false} SplitJoin(parts: seq<string>, sep: char)
    requires |parts| >= 1
    requires forall i :: 0 <= i < |parts| ==> sep !in parts[i]
    ensures Split(Join(parts, sep), sep) == parts
  {
    if |parts| == 1 {
      SplitNoSeparator(parts[0], sep);
    } else {
      SplitJoin(parts[1..], sep);
      SplitAtSeparator(parts[0], sep, Join(parts[1..], sep));
      assert parts == [parts[0]] + parts[1..];
    }
  }

  // ---------------------------------------------------------------------
  // The MIME type: `arr[0].match(/:(.*?);/)?.[1] || ''`

  /** The characters that the regular-expression atom `.` does not match. */
  predicate IsLineTerminator(c: char) {
    c == '\n' || c == '\r' || c == '\U{2028}' || c == '\U{2029}'
  }

  /**
   * `:(.*?);` matches with its ':' at i and its ';' at j: the lazy group
   * stops at the first ';' and cannot cross a line terminator.
   */
  ghost predicate MatchesAt(s: string, i: int, j: int) {
    0 <= i < j < |s| && s[i] == ':' && s[j] == ';'
    && forall k :: i < k < j ==> s[k] != ';' && !IsLineTerminator(s[k])
  }

  /** The lazy `.*?` growing from position k: where its closing ';' is, if anywhere. */
  function LazyEnd(s: string, k: nat): (r: Option<nat>)
    requires k <= |s|
    decreases |s| - k
    ensures r.Some? ==> k <= r.value < |s| && s[r.value] == ';'
    ensures r.Some? ==> forall m :: k <= m < r.value ==> s[m] != ';' && !IsLineTerminator(s[m])
    ensures r.None? ==> forall j :: k <= j < |s| && s[j] == ';' ==>
                          exists m :: k <= m < j && IsLineTerminator(s[m])
  {
    if k == |s| then None
    else if s[k] == ';' then Some(k)
    else if IsLineTerminator(s[k]) then None
    else LazyEnd(s, k + 1)
  }

  /** The leftmost match of `:(.*?);` starting at or after p. */
  function FirstMatch(s: string, p: nat): (r: Option<(nat, nat)>)
    requires p <= |s|
    decreases |s| - p
    ensures r.Some? ==> p <= r.value.0 && MatchesAt(s, r.value.0, r.value.1)
    ensures r.Some? ==> forall i, j :: p <= i < r.value.0 ==> !MatchesAt(s, i, j)
    ensures r.None? ==> forall i, j :: p <= i ==> !MatchesAt(s, i, j)
  {
    if p == |s| then None
    else if s[p] == ':' then
      match LazyEnd(s, p + 1)
      case Some(j) => Some((p, j))
      case None => FirstMatch(s, p + 1)
    else FirstMatch(s, p + 1)
  }

  /**
   * The MIME type taken from the part before the first comma: the group of
   * the leftmost match, or "" when nothing matches.
   */
  function MimeType(head: string): (m: string)
    ensures (forall i, j :: !MatchesAt(head, i, j)) ==> m == ""
    ensures forall i, j ::
              MatchesAt(head, i, j) && (forall i', j' :: 0 <= i' < i ==> !MatchesAt(head, i', j'))
              ==> m == head[i + 1..j]
  {
    match FirstMatch(head, 0)
    case Some((i, j)) => head[i + 1..j]
    case None => ""
  }

  // ---------------------------------------------------------------------
  // The File constructor's `type` option

  predicate IsPrintableAscii(c: char) {
    ' ' <= c <= '~'
  }

  predicate IsAsciiUpper(c: char) {
    'A' <= c <= 'Z'
  }

  function AsciiLower(c: char): char {
    if IsAsciiUpper(c) then (c as int + 32) as char else c
  }

  /**
   * The `type` a `File` keeps (File API, section 4.1, the constructor's
   * `type` step): the empty string when a character lies outside
   * U+0020..U+007E, otherwise the type with ASCII letters lowercased.
   */
  function FileType(t: string): (r: string)
    ensures forall i :: 0 <= i < |r| ==> IsPrintableAscii(r[i]) && !IsAsciiUpper(r[i])
    ensures (exists i :: 0 <= i < |t| && !IsPrintableAscii(t[i])) ==> r == ""
    ensures (forall i :: 0 <= i < |t| ==> IsPrintableAscii(t[i])) ==>
              && |r| == |t|
              && (forall i :: 0 <= i < |t| && !IsAsciiUpper(t[i]) ==> r[i] == t[i])
              && (forall i :: 0 <= i < |t| && IsAsciiUpper(t[i]) ==> r[i] as int == t[i] as int + 32)
  {
    if exists i :: 0 <= i < |t| && !IsPrintableAscii(t[i]) then ""
    else seq(|t|, i requires 0 <= i < |t| => AsciiLower(t[i]))
  }

  /** A type that is already printable lowercase ASCII is kept as it is. */
  lemma FileTypeKeeps(t: string)
    requires forall i :: 0 <= i < |t| ==> IsPrintableAscii(t[i]) && !IsAsciiUpper(t[i])
    ensures FileType(t) == t
  {
    var r := FileType(t);
    assert |r| == |t|;
    forall i | 0 <= i < |t| ensures r[i] == t[i] {
    }
  }

  /** Normalising twice is normalising once. */
  lemma FileTypeIdempotent(t: string)
    ensures FileType(FileType(t)) == FileType(t)
  {
    FileTypeKeeps(FileType(t));
  }

  // ---------------------------------------------------------------------
  // base64ToFile

  /** `Uint8Array` stores a character code modulo 256, so a code below 256 is kept. */
  function ToUint8(c: char): (b: byte)
    ensures c as int < 256 ==> b as int == c as int
  {
    ((c as int) % 256) as byte
  }

  /** `arr[1]`, which is `undefined` (and reaches `atob` as "undefined") when there is no comma. */
  function Payload(parts: seq<string>): string {
    if |parts| > 1 then parts[1] else "undefined"
  }

  /** `new Uint8Array(n)` filled with the character codes of a string. */
  function Uint8Codes(bstr: string): (bytes: seq<byte>)
    ensures |bytes| == |bstr|
    ensures forall i :: 0 <= i < |bstr| && bstr[i] as int < 256 ==> bytes[i] as int == bstr[i] as int
  {
    seq(|bstr|, i requires 0 <= i < |bstr| => ToUint8(bstr[i]))
  }

  /**
   * The file `base64ToFile(uri, fileName)` returns, or the error `atob` throws:
   * it fails exactly when the piece after the first comma does not decode,
   * and a file always carries the name it was given.
   */
  function DataUriToFile(uri: string, fileName: string): (r: Result<File>)
    ensures r.Err? <==> Atob(Payload(Split(uri, ','))).None?
    ensures r.Ok? ==> r.value.name == fileName
  {
    var parts := Split(uri, ',');
    var decoded := Atob(Payload(parts));
    if decoded.None? then Err(InvalidCharacterError)
    else Ok(File(fileName, FileType(MimeType(parts[0])), Uint8Codes(decoded.value)))
  }

  /**
   * Splits at the commas, takes the MIME type from the first piece, decodes
   * the second and copies the character codes into a zero-filled byte array
   * from the last index down to the first.
   */
  method Base64ToFile(base64: string, fileName: string) returns (r: Result<File>)
    ensures r == DataUriToFile(base64, fileName)
  {
    var arr := Split(base64, ',');
    var decoded := Atob(Payload(arr));
    if decoded.None? {
      return Err(InvalidCharacterError);
    }
    var bstr := decoded.value;
    var n := |bstr|;
    var u8arr := new byte[n](_ => 0);
    while n > 0
      invariant 0 <= n <= |bstr| == u8arr.Length
      invariant u8arr[n..] == Uint8Codes(bstr)[n..]
      invariant forall i :: 0 <= i < n ==> u8arr[i] == 0
    {
      n := n - 1;
      u8arr[n] := ToUint8(bstr[n]);
      assert u8arr[n..] == [u8arr[n]] + u8arr[n + 1..];
    }
    var mime := MimeType(arr[0]);
    r := Ok(File(fileName, FileType(mime), u8arr[..]));
  }

  // ---------------------------------------------------------------------
  // Properties of base64ToFile

  /**
   * The file carries the given name and the extracted MIME type, and has one
   * byte per decoded character, equal to that character's code.
   */
  lemma DecodedFile(uri: string, fileName: string)
    ensures var parts := Split(uri, ',');
            var r := DataUriToFile(uri, fileName);
            && (r.Err? <==> Atob(Payload(parts)).None?)
            && (r.Ok? ==> r.value.name == fileName && r.value.mimeType == FileType(MimeType(parts[0])))
            && (r.Ok? ==>
                  var bstr := Atob(Payload(parts)).value;
                  |r.value.bytes| == |bstr|
                  && forall i :: 0 <= i < |bstr| ==> r.value.bytes[i] as int == bstr[i] as int)
  {
    var r := DataUriToFile(uri, fileName);
    if r.Ok? {
      var bstr := Atob(Payload(Split(uri, ','))).value;
      forall i | 0 <= i < |bstr| ensures r.value.bytes[i] as int == bstr[i] as int {
        assert bstr[i] as int < 256;
      }
    }
  }

  /** Without a comma, `atob` receives "undefined", whose length is 1 modulo 4, and throws. */
  lemma MissingPayloadFails(uri: string, fileName: string)
    requires ',' !in uri
    ensures DataUriToFile(uri, fileName) == Err(InvalidCharacterError)
  {
    SplitNoSeparator(uri, ',');
    assert Payload(Split(uri, ',')) == "undefined";
    AtobUndefined();
  }

  /**
   * Forgiving-base64 rejects only a length of 1 modulo 4 and a character
   * outside the alphabet: any other payload decodes, even one that was never
   * base64, and a head without `;` gives the type "".
   */
  lemma AlphabetPayloadDecodes(head: string, payload: string, fileName: string)
    requires ',' !in head && ';' !in head
    requires forall i :: 0 <= i < |payload| ==> InAlphabet(payload[i])
    requires |payload| % 4 != 1
    ensures var r := DataUriToFile(head + "," + payload, fileName);
            r.Ok? && r.value.mimeType == "" && |r.value.bytes| == |payload| * 6 / 8
  {
    assert Payload(Split(head + "," + payload, ',')) == payload by {
      SplitAtSeparator(head, ',', payload);
      SplitNoSeparator(payload, ',');
    }
    assert MimeType(Split(head + "," + payload, ',')[0]) == "" by {
      SplitAtSeparator(head, ',', payload);
    }
    AtobAlphabetOnly(payload);
  }

  /** A string of alphabet characters has no whitespace or padding to strip. */
  lemma AtobAlphabetOnly(s: string)
    requires forall i :: 0 <= i < |s| ==> InAlphabet(s[i])
    requires |s| % 4 != 1
    ensures Atob(s).Some? && |Atob(s).value| == |s| * 6 / 8
  {
    StripWhitespaceNoop(s);
  }

  /** A plain-text data URI decodes quietly to four unrelated bytes. */
  lemma PlainTextDecodesQuietly()
    ensures var r := DataUriToFile("data:text/plain" + "," + "abcdef", "f");
            r.Ok? && r.value.mimeType == "" && |r.value.bytes| == 4
  {
    var head, payload := "data:text/plain", "abcdef";
    assert ',' !in head && ';' !in head by {
      assert forall k :: 0 <= k < |head| ==> head[k] != ',' && head[k] != ';';
    }
    assert forall i :: 0 <= i < |payload| ==> InAlphabet(payload[i]);
    AlphabetPayloadDecodes(head, payload, "f");
  }

  /** "undefined" has no whitespace or padding to strip and nine characters. */
  lemma AtobUndefined()
    ensures Atob("undefined") == None
  {
    var u := "undefined";
    assert forall i :: 0 <= i < |u| ==> !IsAsciiWhitespace(u[i]);
    StripWhitespaceNoop(u);
    assert |StripPadding(StripAsciiWhitespace(u))| % 4 == 1;
  }

  /** Only the piece between the first and the second comma is decoded. */
  lemma OnlySecondPieceDecoded(head: string, payload: string, tail: string, fileName: string)
    requires ',' !in head && ',' !in payload
    ensures DataUriToFile(head + "," + payload + "," + tail, fileName)
            == DataUriToFile(head + "," + payload, fileName)
  {
    assert head + "," + payload + "," + tail == head + [','] + (payload + [','] + tail);
    SplitAtSeparator(head, ',', payload + [','] + tail);
    SplitAtSeparator(payload, ',', tail);
    assert head + "," + payload == head + [','] + payload;
    SplitAtSeparator(head, ',', payload);
    SplitNoSeparator(payload, ',');
  }

  /** For `data:M;base64` with no ';' or line terminator in M, the MIME type is M. */
  lemma {:induction false} MimeOfDataUriHead(m: string)
    requires forall k :: 0 <= k < |m| ==> m[k] != ';' && !IsLineTerminator(m[k])
    ensures MimeType("data:" + m + ";base64") == m
  {
    var h := "data:" + m + ";base64";
    var j := 5 + |m|;
    assert MatchesAt(h, 4, j);
    forall i', j' | 0 <= i' < 4 ensures !MatchesAt(h, i', j') {
      assert h[i'] != ':';
    }
    assert h[5..j] == m;
  }

  lemma HeadHasNoComma(m: string)
    requires forall k :: 0 <= k < |m| ==> m[k] != ','
    ensures ',' !in "data:" + m + ";base64"
  {
    var head := "data:" + m + ";base64";
    forall k | 0 <= k < |head| ensures head[k] != ',' {
      if k < 5 {
        assert head[k] == "data:"[k];
      } else if k < 5 + |m| {
        assert head[k] == m[k - 5];
      } else {
        assert head[k] == ";base64"[k - 5 - |m|];
      }
    }
  }

  /** The comma-separated pieces of `data:M;base64,P` when neither M nor P holds a comma. */
  lemma DataUriPieces(m: string, payload: string)
    requires forall k :: 0 <= k < |m| ==> m[k] != ','
    requires ',' !in payload
    ensures Split("data:" + m + ";base64," + payload, ',') == ["data:" + m + ";base64", payload]
  {
    var head := "data:" + m + ";base64";
    assert "data:" + m + ";base64," + payload == head + [','] + payload;
    HeadHasNoComma(m);
    SplitAtSeparator(head, ',', payload);
    SplitNoSeparator(payload, ',');
  }

  /** Copying the codes of a binary string into bytes restores the bytes it was made from. */
  lemma CopyBinaryString(bs: seq<byte>)
    ensures Uint8Codes(BinaryString(Bytes(bs))) == bs
  {
    var bstr := BinaryString(Bytes(bs));
    forall i | 0 <= i < |bs| ensures Uint8Codes(bstr)[i] == bs[i] {
      assert bstr[i] as int == bs[i] as int;
    }
  }

  /**
   * A data URI built from a MIME type free of ';', ',' and line terminators
   * and the base64 encoding of some bytes gives back a file with the given
   * name, that MIME type as the File constructor normalises it, and exactly
   * those bytes; a printable lowercase ASCII type comes back unchanged.
   */
  lemma DataUriRoundTrip(m: string, bs: seq<byte>, fileName: string)
    requires forall k :: 0 <= k < |m| ==> m[k] != ';' && m[k] != ',' && !IsLineTerminator(m[k])
    ensures DataUriToFile("data:" + m + ";base64," + Encode(bs), fileName)
            == Ok(File(fileName, FileType(m), bs))
    ensures (forall k :: 0 <= k < |m| ==> IsPrintableAscii(m[k]) && !IsAsciiUpper(m[k])) ==>
              DataUriToFile("data:" + m + ";base64," + Encode(bs), fileName)
              == Ok(File(fileName, m, bs))
  {
    DataUriPieces(m, Encode(bs));
    MimeOfDataUriHead(m);
    DecodeEncode(bs);
    CopyBinaryString(bs);
    if forall k :: 0 <= k < |m| ==> IsPrintableAscii(m[k]) && !IsAsciiUpper(m[k]) {
      FileTypeKeeps(m);
    }
  }
}
