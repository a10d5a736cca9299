/** Base64 with the URL-safe alphabet and without padding (section 5 of RFC 4648, appendix C of
    RFC 7515), as the token code builds it from the padded library functions. */
module Base64Url {
  import opened Wrappers
  import opened Bytes

  type Sextet = v: int | 0 <= v < 64

  function CharOf(v: Sextet): char {
    if v < 26 then ('A' as int + v) as char
    else if v < 52 then ('a' as int + (v - 26)) as char
    else if v < 62 then ('0' as int + (v - 52)) as char
    else if v == 62 then '-'
    else '_'
  }

  /** The decoder's table. It first maps '-' and '_' to '+' and '/', so all four are accepted. */
  function ValueOf(c: char): Option<Sextet> {
    if 'A' <= c <= 'Z' then Some(c as int - 'A' as int)
    else if 'a' <= c <= 'z' then Some(c as int - 'a' as int + 26)
    else if '0' <= c <= '9' then Some(c as int - '0' as int + 52)
    else if c == '-' || c == '+' then Some(62)
    else if c == '_' || c == '/' then Some(63)
    else None
  }

  lemma CharRoundTrip(v: Sextet)
    ensures ValueOf(CharOf(v)) == Some(v)
    ensures CharOf(v) != '=' && CharOf(v) != '.' && CharOf(v) < 128 as char
  {
  }

  /** `n` characters from `c` on. */
  function Run(c: char, n: nat): (r: string)
    requires c as int + n <= 128
    ensures |r| == n && forall i | 0 <= i < n :: r[i] == (c as int + i) as char
  {
    seq(n, i requires 0 <= i < n => (c as int + i) as char)
  }

  /** The alphabet of section 5 of RFC 4648: letters, digits, minus and underscore. */
  function Alphabet(): (a: string)
    ensures |a| == 64
  {
    Run('A', 26) + Run('a', 26) + Run('0', 10) + "-_"
  }

  lemma CharIsInAlphabet(v: Sextet)
    ensures CharOf(v) == Alphabet()[v]
  {
  }

  // ----- Encoding -------------------------------------------------------------------------

  function Quad(a: byte, b: byte, c: byte): string {
    [CharOf(a / 4), CharOf(a % 4 * 16 + b / 16), CharOf(b % 16 * 4 + c / 64), CharOf(c % 64)]
  }

  /** `base64.urlsafe_b64encode`: groups of three bytes, the last group padded with '='. */
  function EncodePadded(data: seq<byte>): string {
    if |data| == 0 then ""
    else if |data| == 1 then Quad(data[0], 0, 0)[..2] + "=="
    else if |data| == 2 then Quad(data[0], data[1], 0)[..3] + "="
    else Quad(data[0], data[1], data[2]) + EncodePadded(data[3..])
  }

  function RStrip(s: string, c: char): (r: string)
    ensures r <= s && (r == "" || r[|r| - 1] != c)
  {
    if s != "" && s[|s| - 1] == c then RStrip(s[..|s| - 1], c) else s
  }

  function Encode(data: seq<byte>): string {
    RStrip(EncodePadded(data), '=')
  }

  // ----- Decoding -------------------------------------------------------------------------

  datatype DecodeError = NonAscii | Incomplete

  function Prepend(b: byte, r: Result<seq<byte>, DecodeError>): Result<seq<byte>, DecodeError> {
    match r
    case Ok(rest) => Ok([b] + rest)
    case Err(e) => Err(e)
  }

  /** The library's non-strict decoder: characters outside the alphabet are skipped, and enough
      padding in the second half of a group ends the input. `quad` is the position in the group,
      `left` the bits not yet put into a byte, `pads` the padding seen. */
  function Scan(s: string, quad: nat, left: nat, pads: nat): Result<seq<byte>, DecodeError>
    requires quad < 4 && (quad == 1 ==> left < 64) && (quad == 2 ==> left < 16) && (quad == 3 ==> left < 4)
    decreases |s|
  {
    if s == "" then (if quad == 0 then Ok([]) else Err(Incomplete))
    else if s[0] == '=' then
      if quad >= 2 && quad + pads + 1 >= 4 then Ok([])
      else Scan(s[1..], quad, left, if quad >= 2 then pads + 1 else pads)
    else match ValueOf(s[0])
      case None => Scan(s[1..], quad, left, pads)
      case Some(v) =>
        if quad == 0 then Scan(s[1..], 1, v, 0)
        else if quad == 1 then Prepend(left * 4 + v / 16, Scan(s[1..], 2, v % 16, 0))
        else if quad == 2 then Prepend(left * 16 + v / 4, Scan(s[1..], 3, v % 4, 0))
        else Prepend(left * 64 + v, Scan(s[1..], 0, 0, 0))
  }

  function Repeat(c: char, n: nat): string { seq(n, i => c) }

  function Decode(s: string): Result<seq<byte>, DecodeError> {
    var padding := |s| % 4;
    var padded := if padding != 0 then s + Repeat('=', 4 - padding) else s;
    if exists c <- padded :: c >= 128 as char then Err(NonAscii)
    else Scan(padded, 0, 0, 0)
  }

  // ----- Round trip ----------------------------------------------------------------------------

  predicate Clean(s: string) { forall c <- s :: c != '=' && c != '.' && c < 128 as char }

  function PadLength(n: nat): nat {
    if n % 3 == 0 then 0 else 3 - n % 3
  }

  lemma QuadIsClean(a: byte, b: byte, c: byte)
    ensures Clean(Quad(a, b, c))
  {
    CharRoundTrip(a / 4);
    CharRoundTrip(a % 4 * 16 + b / 16);
    CharRoundTrip(b % 16 * 4 + c / 64);
    CharRoundTrip(c % 64);
  }

  lemma ShortForms(a: byte, b: byte)
    ensures Clean(Quad(a, 0, 0)[..2]) && Clean(Quad(a, b, 0)[..3])
    ensures Repeat('=', 1) == "=" && Repeat('=', 2) == "=="
  {
    QuadIsClean(a, 0, 0);
    QuadIsClean(a, b, 0);
  }

  lemma LongerForm(quad: string, rest: string, pad: string)
    requires Clean(quad) && Clean(rest)
    ensures Clean(quad + rest) && quad + (rest + pad) == (quad + rest) + pad
  {
  }

  predicate PaddedAs(padded: string, n: nat, text: string, groups: nat) {
    && padded == text + Repeat('=', PadLength(n))
    && Clean(text) && |text| + PadLength(n) == 4 * groups
  }

  lemma ShortPadded(data: seq<byte>)
    requires 0 < |data| < 3
    ensures var padded := EncodePadded(data);
      |padded| == 4 && PaddedAs(padded, |data|, padded[..|data| + 1], 1)
  {
    if |data| == 1 { ShortForms(data[0], 0); } else { ShortForms(data[0], data[1]); }
  }

  lemma LongPadded(quad: string, more: string, n: nat, text: string, groups: nat)
    requires |quad| == 4 && Clean(quad) && n >= 3 && PaddedAs(more, n - 3, text, groups)
    ensures PaddedAs(quad + more, n, quad + text, groups + 1)
  {
    assert PadLength(n) == PadLength(n - 3);
    LongerForm(quad, text, Repeat('=', PadLength(n)));
  }

  /** The padded form is clean text followed by padding, in whole groups of four. */
  lemma {:induction false} PaddedForm(data: seq<byte>) returns (text: string, groups: nat)
    ensures PaddedAs(EncodePadded(data), |data|, text, groups)
    decreases |data|
  {
    if |data| == 0 {
      text, groups := "", 0;
    } else if |data| < 3 {
      ShortPadded(data);
      text, groups := EncodePadded(data)[..|data| + 1], 1;
    } else {
      var quad := Quad(data[0], data[1], data[2]);
      QuadIsClean(data[0], data[1], data[2]);
      text, groups := PaddedForm(data[3..]);
      LongPadded(quad, EncodePadded(data[3..]), |data|, text, groups);
      text, groups := quad + text, groups + 1;
    }
  }

  lemma {:induction false} RStripRepeat(text: string, c: char, n: nat)
    requires text == "" || text[|text| - 1] != c
    ensures RStrip(text + Repeat(c, n), c) == text
    decreases n
  {
    var s := text + Repeat(c, n);
    if n == 0 {
      assert s == text;
    } else {
      assert s[..|s| - 1] == text + Repeat(c, n - 1);
      RStripRepeat(text, c, n - 1);
    }
  }

  lemma PadCompletes(n: nat, pad: nat, groups: nat)
    requires n + pad == 4 * groups && pad < 3
    ensures pad == if n % 4 != 0 then 4 - n % 4 else 0
  {
  }

  /** The encoding has no '=' and no '.', and completing it gives the padded form back. */
  lemma EncodeIsClean(data: seq<byte>)
    ensures Clean(Encode(data))
    ensures EncodePadded(data) ==
              if |Encode(data)| % 4 != 0 then Encode(data) + Repeat('=', 4 - |Encode(data)| % 4) else Encode(data)
  {
    var text, groups := PaddedForm(data);
    if text != "" { assert text[|text| - 1] in text; }
    RStripRepeat(text, '=', PadLength(|data|));
    PadCompletes(|text|, PadLength(|data|), groups);
    assert text + Repeat('=', 0) == text;
  }

  lemma {:induction false} ScanPadded(data: seq<byte>)
    ensures Scan(EncodePadded(data), 0, 0, 0) == Ok(data)
    decreases |data|
  {
    if |data| == 0 {
    } else if |data| == 1 {
      ScanOne(data[0]);
      assert data == [data[0]];
    } else if |data| == 2 {
      ScanTwo(data[0], data[1]);
      assert data == [data[0], data[1]];
    } else {
      ScanPadded(data[3..]);
      ScanQuad(data[0], data[1], data[2], EncodePadded(data[3..]), data[3..]);
      assert data == [data[0], data[1], data[2]] + data[3..];
    }
  }

  /** One alphabet character moves the decoder on by six bits. */
  lemma ScanChar(v: Sextet, more: string, quad: nat, left: nat)
    requires quad < 4 && (quad == 1 ==> left < 64) && (quad == 2 ==> left < 16) && (quad == 3 ==> left < 4)
    ensures Scan([CharOf(v)] + more, quad, left, 0) ==
            if quad == 0 then Scan(more, 1, v, 0)
            else if quad == 1 then Prepend(left * 4 + v / 16, Scan(more, 2, v % 16, 0))
            else if quad == 2 then Prepend(left * 16 + v / 4, Scan(more, 3, v % 4, 0))
            else Prepend(left * 64 + v, Scan(more, 0, 0, 0))
  {
    CharRoundTrip(v);
    assert ([CharOf(v)] + more)[1..] == more;
  }

  lemma SplitByte(a: byte, low: nat, unit: nat)
    requires (unit == 4 && low < 16) || (unit == 16 && low < 4)
    ensures var v := a % unit * (64 / unit) + low; 0 <= v < 64 && v / (64 / unit) == a % unit && v % (64 / unit) == low
  {
  }

  lemma ScanQuad(a: byte, b: byte, c: byte, more: string, rest: seq<byte>)
    requires Scan(more, 0, 0, 0) == Ok(rest)
    ensures Scan(Quad(a, b, c) + more, 0, 0, 0) == Ok([a, b, c] + rest)
  {
    SplitByte(a, b / 16, 4);
    SplitByte(b, c / 64, 16);
    ScanFour(a / 4, a % 4 * 16 + b / 16, b % 16 * 4 + c / 64, c % 64, more);
    assert [a] + ([b] + ([c] + rest)) == [a, b, c] + rest;
  }

  /** Four alphabet characters give three bytes. */
  lemma ScanFour(v0: Sextet, v1: Sextet, v2: Sextet, v3: Sextet, more: string)
    ensures Scan([CharOf(v0), CharOf(v1), CharOf(v2), CharOf(v3)] + more, 0, 0, 0) ==
            Prepend(v0 * 4 + v1 / 16, Prepend(v1 % 16 * 16 + v2 / 4, Prepend(v2 % 4 * 64 + v3, Scan(more, 0, 0, 0))))
  {
    var s3 := [CharOf(v3)] + more;
    var s2 := [CharOf(v2)] + s3;
    var s1 := [CharOf(v1)] + s2;
    ScanChar(v3, more, 3, v2 % 4);
    ScanChar(v2, s3, 2, v1 % 16);
    ScanChar(v1, s2, 1, v0);
    ScanChar(v0, s1, 0, 0);
    assert [CharOf(v0), CharOf(v1), CharOf(v2), CharOf(v3)] + more == [CharOf(v0)] + s1;
  }

  lemma ScanOne(a: byte)
    ensures Scan(Quad(a, 0, 0)[..2] + "==", 0, 0, 0) == Ok([a])
  {
    var v0, v1 := a / 4, a % 4 * 16;
    assert "=="[1..] == "=";
    assert Scan("=", 2, 0, 1) == Ok([]);
    assert Scan("==", 2, 0, 0) == Ok([]);
    SplitByte(a, 0, 4);
    ScanChar(v1, "==", 1, a / 4);
    ScanChar(v0, [CharOf(v1)] + "==", 0, 0);
    assert Quad(a, 0, 0)[..2] + "==" == [CharOf(v0)] + ([CharOf(v1)] + "==");
    assert [a] + [] == [a];
  }

  lemma ScanTwo(a: byte, b: byte)
    ensures Scan(Quad(a, b, 0)[..3] + "=", 0, 0, 0) == Ok([a, b])
  {
    var v0, v1, v2 := a / 4, a % 4 * 16 + b / 16, b % 16 * 4;
    assert Scan("=", 3, 0, 0) == Ok([]);
    var s2 := [CharOf(v2)] + "=";
    SplitByte(a, b / 16, 4);
    SplitByte(b, 0, 16);
    ScanChar(v2, "=", 2, b / 16);
    ScanChar(v1, s2, 1, a / 4);
    ScanChar(v0, [CharOf(v1)] + s2, 0, 0);
    assert Quad(a, b, 0)[..3] + "=" == [CharOf(v0)] + ([CharOf(v1)] + s2);
    assert [a] + ([b] + []) == [a, b];
  }

  /** Decoding undoes encoding on every byte string. */
  lemma RoundTrip(data: seq<byte>)
    ensures Decode(Encode(data)) == Ok(data)
    ensures '.' !in Encode(data)
  {
    EncodeIsClean(data);
    ScanPadded(data);
    PaddedIsAscii(data);
  }

  lemma PaddedIsAscii(data: seq<byte>)
    ensures !exists c <- EncodePadded(data) :: c >= 128 as char
  {
    var text, _ := PaddedForm(data);
    assert forall c <- EncodePadded(data) :: c in text || c == '=';
  }

  /** Three bytes and their four characters stand for the same 24-bit number, most significant part first. */
  lemma QuadIsBigEndian(a: byte, b: byte, c: byte)
    ensures var q := Quad(a, b, c);
      exists v0: Sextet, v1: Sextet, v2: Sextet, v3: Sextet ::
        && q == [CharOf(v0), CharOf(v1), CharOf(v2), CharOf(v3)]
        && ((v0 * 64 + v1) * 64 + v2) * 64 + v3 == (a * 256 + b) * 256 + c
  {
    var v0, v1, v2, v3 := a / 4, a % 4 * 16 + b / 16, b % 16 * 4 + c / 64, c % 64;
    assert Quad(a, b, c) == [CharOf(v0), CharOf(v1), CharOf(v2), CharOf(v3)];
    assert ((v0 * 64 + v1) * 64 + v2) * 64 + v3 == (a * 256 + b) * 256 + c;
  }

  /** The bits that one more character leaves over. */
  function NextLeft(quad: nat, v: Sextet): nat
    requires quad < 4
  {
    if quad == 0 then v else if quad == 1 then v % 16 else if quad == 2 then v % 4 else 0
  }

  /** The decoder takes the characters of the alphabet, each for its place in it, and the plus sign and the
      slash for its last two. */
  lemma DecoderAlphabet(c: char)
    ensures ValueOf(c).Some? ==> c == Alphabet()[ValueOf(c).value] || c == '+' || c == '/'
    ensures c in Alphabet() ==> ValueOf(c).Some?
    ensures ValueOf('+') == Some(62) && ValueOf('/') == Some(63)
  {
    if ValueOf(c).Some? && c != '+' && c != '/' {
      CharIsInAlphabet(ValueOf(c).value);
    }
    if c in Alphabet() {
      var v :| 0 <= v < 64 && Alphabet()[v] == c;
      CharIsInAlphabet(v);
      CharRoundTrip(v);
    }
  }
}
