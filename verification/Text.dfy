/** The string operations of Python that the GRUB editor is built on. */
module Text {

  /** `str.isspace`, which `split` and `strip` use. */
  predicate IsSpace(c: char) {
    var n := c as int;
    || 9 <= n <= 13 || 28 <= n <= 32 || n == 0x85 || n == 0xA0 || n == 0x1680 || 0x2000 <= n <= 0x200A
    || n == 0x2028 || n == 0x2029 || n == 0x202F || n == 0x205F || n == 0x3000
  }

  /** The line boundaries of `str.splitlines`. */
  predicate IsBreak(c: char) {
    var n := c as int;
    10 <= n <= 13 || 28 <= n <= 30 || n == 0x85 || n == 0x2028 || n == 0x2029
  }

  /** `string.punctuation`. */
  predicate IsPunct(c: char) {
    '!' <= c <= '/' || ':' <= c <= '@' || '[' <= c <= '`' || '{' <= c <= '~'
  }

  /** The characters of `string.punctuation`, of `str.splitlines` and of `str.isspace`, one by one. */
  lemma CharacterClasses(c: char)
    ensures IsPunct(c) <==> c in "!\"#$%&'()*+,-./:;<=>?@[\\]^_`{|}~"
    ensures IsBreak(c) <==> c as int in {10, 11, 12, 13, 28, 29, 30, 0x85, 0x2028, 0x2029}
    ensures IsSpace(c) <==> c as int in {9, 10, 11, 12, 13, 28, 29, 30, 31, 32, 0x85, 0xA0, 0x1680,
                                         0x2000, 0x2001, 0x2002, 0x2003, 0x2004, 0x2005, 0x2006, 0x2007, 0x2008,
                                         0x2009, 0x200A, 0x2028, 0x2029, 0x202F, 0x205F, 0x3000}
  {
  }

  /** The first position of `c`, or the length. */
  function IndexOf(s: string, c: char): (k: nat)
    ensures k <= |s| && c !in s[..k] && (k < |s| ==> s[k] == c)
  {
    if s == "" || s[0] == c then 0 else
      assert forall k: nat | k <= |s[1..]| :: s[..k + 1] == [s[0]] + s[1..][..k];
      1 + IndexOf(s[1..], c)
  }

  lemma IndexOfUnique(a: string, c: char, b: string)
    requires c !in a
    ensures IndexOf(a + [c] + b, c) == |a|
  {
    var s := a + [c] + b;
    assert s[|a|] == c;
    assert forall k | 0 <= k < |a| :: s[k] == a[k] && a[k] in a;
  }

  // ----- Lines ------------------------------------------------------------------------------

  predicate NoBreak(s: string) { forall c <- s :: !IsBreak(c) }

  function LineEnd(s: string): (k: nat)
    ensures k <= |s| && NoBreak(s[..k]) && (k < |s| ==> IsBreak(s[k]))
  {
    if s == "" || IsBreak(s[0]) then 0 else
      assert forall k: nat | k <= |s[1..]| :: s[..k + 1] == [s[0]] + s[1..][..k];
      1 + LineEnd(s[1..])
  }

  /** `splitlines`: a carriage return and line feed count as one boundary, and a final boundary
      does not start another line. */
  function SplitLines(s: string): (lines: seq<string>)
    ensures forall l <- lines :: NoBreak(l)
    decreases |s|
  {
    if s == "" then []
    else
      var k := LineEnd(s);
      if k == |s| then [s[..k]]
      else
        var next := if s[k] == '\r' && k + 1 < |s| && s[k + 1] == '\n' then k + 2 else k + 1;
        [s[..k]] + SplitLines(s[next..])
  }

  function JoinLines(lines: seq<string>): string {
    if lines == [] then "" else lines[0] + "\n" + JoinLines(lines[1..])
  }

  lemma LineEndAt(l: string, rest: string)
    requires NoBreak(l) && (rest == "" || IsBreak(rest[0]))
    ensures LineEnd(l + rest) == |l|
  {
    var s := l + rest;
    var k := LineEnd(s);
    assert rest != "" ==> s[|l|] == rest[0];
    assert forall i | 0 <= i < |l| :: s[i] == l[i] && l[i] in l;
    assert forall i | 0 <= i < k :: s[..k][i] == s[i] && s[..k][i] in s[..k];
  }

  /** A line boundary: one break character, or a carriage return and line feed together. */
  predicate IsBoundary(b: string) { b == "\r\n" || (|b| == 1 && IsBreak(b[0])) }

  /** The text is the lines with a boundary after each. Only the last line may be without one, and then it
      is not empty; a carriage return is a boundary of its own only where no line feed follows it. */
  predicate Lined(s: string, lines: seq<string>, bounds: seq<string>)
    decreases |lines|
  {
    if lines == [] then s == "" && bounds == []
    else
      && bounds != [] && NoBreak(lines[0]) && lines[0] + bounds[0] <= s
      && var rest := s[|lines[0]| + |bounds[0]|..];
      && (if bounds[0] == "" then lines[0] != "" && rest == ""
          else IsBoundary(bounds[0]) && !(bounds[0] == "\r" && "\n" <= rest))
      && Lined(rest, lines[1..], bounds[1..])
  }

  /** Every text is made up of its lines in this way. */
  lemma {:induction false} TextIsLined(s: string) returns (bounds: seq<string>)
    ensures Lined(s, SplitLines(s), bounds)
    decreases |s|
  {
    if s == "" {
      bounds := [];
    } else {
      var k := LineEnd(s);
      if k == |s| {
        bounds := [""];
        assert s[..k] + "" == s;
      } else {
        var next := if s[k] == '\r' && k + 1 < |s| && s[k + 1] == '\n' then k + 2 else k + 1;
        var more := TextIsLined(s[next..]);
        bounds := [s[k..next]] + more;
        BoundaryAt(s, k, next);
        assert bounds[1..] == more;
      }
    }
  }

  lemma BoundaryAt(s: string, k: nat, next: nat)
    requires k < |s| && IsBreak(s[k])
    requires next == if s[k] == '\r' && k + 1 < |s| && s[k + 1] == '\n' then k + 2 else k + 1
    ensures IsBoundary(s[k..next]) && !(s[k..next] == "\r" && "\n" <= s[next..])
    ensures s[..k] + s[k..next] <= s && s[k..next] != "" && |s[..k]| + |s[k..next]| == next
  {
    if next == k + 2 {
      assert s[k..next] == "\r\n";
    } else {
      assert s[k..next] == [s[k]];
      assert "\n" <= s[next..] ==> s[next..][0] == s[k + 1] == '\n';
    }
  }

  /** And in no other way: `splitlines` gives the only lines a text can be made up of. */
  lemma {:induction false} LinesAreUnique(s: string, lines: seq<string>, bounds: seq<string>)
    requires Lined(s, lines, bounds)
    ensures SplitLines(s) == lines
    decreases |lines|
  {
    if lines != [] {
      var l, b := lines[0], bounds[0];
      var rest := s[|l| + |b|..];
      assert s == l + (b + rest);
      LineEndAt(l, b + rest);
      assert s[..|l|] == l;
      LinesAreUnique(rest, lines[1..], bounds[1..]);
      if b != "" {
        NextLine(s, |l|, b, rest);
      }
    }
  }

  lemma NextLine(s: string, k: nat, b: string, rest: string)
    requires k <= |s| && s[k..] == b + rest && IsBoundary(b) && !(b == "\r" && "\n" <= rest)
    ensures k < |s|
    ensures var next := if s[k] == '\r' && k + 1 < |s| && s[k + 1] == '\n' then k + 2 else k + 1;
      next == k + |b| && s[next..] == rest
  {
    var t := s[k..];
    assert t[0] == s[k] && (|t| > 1 ==> t[1] == s[k + 1]);
    assert t[|b|..] == rest;
    if |b| == 1 && s[k] == '\r' && k + 1 < |s| {
      assert b == "\r";
      assert rest[0] == s[k + 1];
    }
  }

  /** The printer's own boundaries. */
  function NewLines(n: nat): seq<string> { seq(n, i => "\n") }

  lemma {:induction false} JoinedIsLined(lines: seq<string>)
    requires forall l <- lines :: NoBreak(l)
    ensures Lined(JoinLines(lines), lines, NewLines(|lines|))
    decreases |lines|
  {
    if lines != [] {
      assert lines[0] in lines;
      JoinedIsLined(lines[1..]);
      assert NewLines(|lines|)[1..] == NewLines(|lines[1..]|);
      assert JoinLines(lines)[|lines[0]| + 1..] == JoinLines(lines[1..]);
    }
  }

  lemma SplitJoin(lines: seq<string>)
    requires forall l <- lines :: NoBreak(l)
    ensures SplitLines(JoinLines(lines)) == lines
  {
    JoinedIsLined(lines);
    LinesAreUnique(JoinLines(lines), lines, NewLines(|lines|));
  }

  // ----- Words ------------------------------------------------------------------------------

  predicate NoSpace(s: string) { forall c <- s :: !IsSpace(c) }

  predicate IsWord(s: string) { s != "" && NoSpace(s) }

  function WordEnd(s: string): (k: nat)
    ensures k <= |s| && NoSpace(s[..k]) && (k < |s| ==> IsSpace(s[k]))
    ensures s != "" && !IsSpace(s[0]) ==> k > 0
  {
    if s == "" || IsSpace(s[0]) then 0 else
      assert forall k: nat | k <= |s[1..]| :: s[..k + 1] == [s[0]] + s[1..][..k];
      1 + WordEnd(s[1..])
  }

  /** `split()` without a separator. */
  function Words(s: string): seq<string>
    decreases |s|
  {
    if s == "" then []
    else if IsSpace(s[0]) then Words(s[1..])
    else [s[..WordEnd(s)]] + Words(s[WordEnd(s)..])
  }

  lemma {:induction false} WordsAreWords(s: string)
    ensures forall w <- Words(s) :: IsWord(w)
    decreases |s|
  {
    if s != "" {
      if IsSpace(s[0]) { WordsAreWords(s[1..]); } else { WordsAreWords(s[WordEnd(s)..]); }
    }
  }

  predicate AllSpace(s: string) { forall c <- s :: IsSpace(c) }

  /** The text is the words with white space around them: some or none in front and behind, some between. */
  predicate Worded(s: string, ws: seq<string>, gaps: seq<string>)
    decreases |ws|
  {
    && gaps != [] && AllSpace(gaps[0]) && gaps[0] <= s
    && var t := s[|gaps[0]|..];
    if ws == [] then t == "" && |gaps| == 1
    else
      && IsWord(ws[0]) && ws[0] <= t
      && var rest := t[|ws[0]|..];
      && (rest == "" || IsSpace(rest[0])) && Worded(rest, ws[1..], gaps[1..])
  }

  /** Every text is made up of its words in this way. */
  lemma {:induction false} TextIsWorded(s: string) returns (gaps: seq<string>)
    ensures Worded(s, Words(s), gaps)
    decreases |s|
  {
    if s == "" {
      gaps := [""];
    } else if IsSpace(s[0]) {
      gaps := TextIsWorded(s[1..]);
      WiderGap(s, Words(s), gaps);
      gaps := [[s[0]] + gaps[0]] + gaps[1..];
    } else {
      var k := WordEnd(s);
      var more := TextIsWorded(s[k..]);
      gaps := [""] + more;
      assert gaps[1..] == more && s[0..] == s;
    }
  }

  lemma WiderGap(s: string, ws: seq<string>, gaps: seq<string>)
    requires s != "" && IsSpace(s[0]) && Worded(s[1..], ws, gaps)
    ensures Worded(s, ws, [[s[0]] + gaps[0]] + gaps[1..])
  {
    var wider := [s[0]] + gaps[0];
    assert s == [s[0]] + s[1..];
    assert s[|wider|..] == s[1..][|gaps[0]|..];
    assert ([wider] + gaps[1..])[1..] == gaps[1..];
  }

  /** And in no other way: `split` gives the only words a text can be made up of. */
  lemma {:induction false} WordsAreUnique(s: string, ws: seq<string>, gaps: seq<string>)
    requires Worded(s, ws, gaps)
    ensures Words(s) == ws
    decreases |s|, |ws|
  {
    var gap := gaps[0];
    if gap != "" {
      assert gap[0] in gap && s[0] == gap[0];
      var less := [gap[1..]] + gaps[1..];
      assert s[1..][|gap[1..]|..] == s[|gap|..];
      assert less[1..] == gaps[1..];
      WordsAreUnique(s[1..], ws, less);
    } else if ws != [] {
      var w := ws[0];
      assert s[0..] == s;
      var rest := s[|w|..];
      assert w[0] in w && s[0] == w[0];
      assert s == w + rest;
      WordEndExact(w, rest);
      WordsAreUnique(rest, ws[1..], gaps[1..]);
      assert ws == [w] + ws[1..];
    }
  }

  function JoinWords(ws: seq<string>): string {
    if ws == [] then "" else if |ws| == 1 then ws[0] else ws[0] + " " + JoinWords(ws[1..])
  }

  lemma WordEndExact(w: string, rest: string)
    requires NoSpace(w) && (rest == "" || IsSpace(rest[0]))
    ensures WordEnd(w + rest) == |w|
  {
    var s := w + rest;
    assert forall k | 0 <= k < |w| :: s[k] == w[k] && w[k] in w;
    if rest != "" {
      assert s[|w|] == rest[0];
    } else {
      assert s == w;
    }
  }

  /** Joining words with single blanks and splitting again gives the words. */
  lemma {:induction false} WordsJoin(ws: seq<string>)
    requires forall w <- ws :: IsWord(w)
    ensures Words(JoinWords(ws)) == ws
    ensures ws != [] ==> ws[0] != "" && JoinWords(ws) != "" && JoinWords(ws)[0] == ws[0][0]
    decreases |ws|
  {
    if ws != [] {
      assert ws[0] in ws;
      assert ws[0][0] in ws[0];
      var rest := if |ws| == 1 then "" else " " + JoinWords(ws[1..]);
      var s := JoinWords(ws);
      assert s == ws[0] + rest;
      WordEndExact(ws[0], rest);
      assert s[..|ws[0]|] == ws[0] && s[|ws[0]|..] == rest;
      WordsJoin(ws[1..]);
      if |ws| == 1 {
        assert ws == [ws[0]];
      } else {
        assert rest[1..] == JoinWords(ws[1..]);
        assert Words(rest) == ws[1..];
      }
    }
  }

  /** Splitting and joining keeps no character but blanks that was not there, and never lengthens. */
  lemma {:induction false} JoinWordsOfWords(s: string)
    ensures |JoinWords(Words(s))| <= |s|
    ensures forall c <- JoinWords(Words(s)) :: c in s || c == ' '
    ensures NoSpace(s) && s != "" ==> Words(s) == [s]
    decreases |s|
  {
    if s != "" {
      if IsSpace(s[0]) {
        assert s[0] in s;
        JoinWordsOfWords(s[1..]);
      } else {
        var k := WordEnd(s);
        assert s == s[..k] + s[k..];
        JoinTail(s[k..]);
        if NoSpace(s) {
          assert forall i | 0 <= i < |s| :: s[i] in s;
          assert s[..k] == s && s[k..] == "";
        }
      }
    }
  }

  /** The words after a first word need one blank more than they have characters at most. */
  lemma {:induction false} JoinTail(t: string)
    requires t == "" || IsSpace(t[0])
    ensures Words(t) != [] ==> |JoinWords(Words(t))| + 1 <= |t|
    ensures forall c <- JoinWords(Words(t)) :: c in t || c == ' '
    decreases |t|, 0
  {
    if t != "" {
      assert Words(t) == Words(t[1..]);
      JoinWordsOfWords(t[1..]);
    }
  }

  // ----- Quotes -----------------------------------------------------------------------------

  function LStripQuotes(s: string): string {
    if s != "" && s[0] == '"' then LStripQuotes(s[1..]) else s
  }

  function RStripQuotes(s: string): string {
    if s != "" && s[|s| - 1] == '"' then RStripQuotes(s[..|s| - 1]) else s
  }

  lemma {:induction false} LStripFacts(s: string)
    ensures var r := LStripQuotes(s);
      && |r| <= |s| && (r == "" || r[0] != '"')
      && (r != "" ==> r[|r| - 1] == s[|s| - 1]) && forall c <- r :: c in s
    decreases |s|
  {
    if s != "" && s[0] == '"' { LStripFacts(s[1..]); }
  }

  lemma {:induction false} RStripFacts(s: string)
    ensures var r := RStripQuotes(s);
      && |r| <= |s| && (r == "" || r[|r| - 1] != '"')
      && (r != "" ==> r[0] == s[0]) && forall c <- r :: c in s
    decreases |s|
  {
    if s != "" && s[|s| - 1] == '"' { RStripFacts(s[..|s| - 1]); }
  }

  /** `strip('"')`. */
  function StripQuotes(s: string): string {
    RStripQuotes(LStripQuotes(s))
  }

  predicate QuotedEnds(s: string) { s != "" && s[0] == '"' && s[|s| - 1] == '"' }

  predicate PlainEnds(s: string) { s == "" || (s[0] != '"' && s[|s| - 1] != '"') }

  lemma StripFacts(s: string)
    ensures PlainEnds(StripQuotes(s)) && |StripQuotes(s)| <= |s|
    ensures forall c <- StripQuotes(s) :: c in s
    ensures PlainEnds(s) <==> StripQuotes(s) == s
    ensures !PlainEnds(s) ==> |StripQuotes(s)| < |s|
  {
    if s != "" {
      LStripFacts(s[1..]);
      RStripFacts(LStripQuotes(s[1..]));
      RStripFacts(s[..|s| - 1]);
    }
    LStripFacts(s);
    RStripFacts(LStripQuotes(s));
  }

  predicate AllQuotes(s: string) { forall c <- s :: c == '"' }

  /** What is stripped is quotes and nothing else; what is left has none at its ends. */
  lemma {:induction false} OnlyQuotesAreStripped(s: string) returns (front: string, back: string)
    ensures s == front + StripQuotes(s) + back && AllQuotes(front) && AllQuotes(back) && PlainEnds(StripQuotes(s))
    decreases |s|
  {
    StripFacts(s);
    if s != "" && s[0] == '"' {
      front, back := OnlyQuotesAreStripped(s[1..]);
      assert s == [s[0]] + s[1..];
      front := "\"" + front;
    } else if s != "" && s[|s| - 1] == '"' {
      front, back := OnlyQuotesAreStripped(s[..|s| - 1]);
      assert s == s[..|s| - 1] + [s[|s| - 1]];
      back := back + "\"";
    } else {
      front, back := "", "";
    }
  }

  /** Putting text between quotes and stripping gives the stripped text. */
  lemma StripOfQuoted(t: string)
    ensures StripQuotes("\"" + t + "\"") == StripQuotes(t)
  {
    var s := "\"" + t + "\"";
    assert s[1..] == t + "\"";
    assert LStripQuotes(s) == LStripQuotes(t + "\"");
    LStripAppend(t);
  }

  lemma {:induction false} LStripAppend(t: string)
    ensures RStripQuotes(LStripQuotes(t + "\"")) == RStripQuotes(LStripQuotes(t))
    decreases |t|
  {
    var s := t + "\"";
    if t == "" {
      assert s[1..] == "";
      assert LStripQuotes(s) == "";
    } else if t[0] == '"' {
      assert s[1..] == t[1..] + "\"";
      LStripAppend(t[1..]);
    } else {
      assert s[0] == t[0];
      RStripAppend(t);
    }
  }

  lemma RStripAppend(t: string)
    ensures RStripQuotes(t + "\"") == RStripQuotes(t)
  {
    var s := t + "\"";
    assert s[|s| - 1] == '"' && s[..|s| - 1] == t;
  }

  // ----- Blanks keep quotes and words apart ---------------------------------------------------

  lemma {:induction false} LStripBefore(a: string, b: string)
    ensures LStripQuotes(a + " " + b) == LStripQuotes(a) + " " + b
    decreases |a|
  {
    if a != "" && a[0] == '"' {
      assert (a + " " + b)[1..] == a[1..] + " " + b;
      LStripBefore(a[1..], b);
    }
  }

  lemma {:induction false} RStripAfter(a: string, b: string)
    ensures RStripQuotes(a + " " + b) == a + " " + RStripQuotes(b)
    decreases |b|
  {
    var s := a + " " + b;
    if b != "" && b[|b| - 1] == '"' {
      assert s[..|s| - 1] == a + " " + b[..|b| - 1];
      RStripAfter(a, b[..|b| - 1]);
    }
  }

  lemma StripAround(a: string, b: string)
    ensures StripQuotes(a + " " + b) == LStripQuotes(a) + " " + RStripQuotes(b)
  {
    LStripBefore(a, b);
    RStripAfter(LStripQuotes(a), b);
  }

  lemma StripPlain(s: string)
    requires '"' !in s
    ensures LStripQuotes(s) == s && RStripQuotes(s) == s && StripQuotes(s) == s
  {
    assert s != "" ==> s[0] in s && s[|s| - 1] in s;
  }

  lemma {:induction false} WordsApart(a: string, b: string)
    ensures Words(a + " " + b) == Words(a) + Words(b)
    decreases |a|
  {
    var s := a + " " + b;
    if a == "" {
      assert s[1..] == b;
    } else if IsSpace(a[0]) {
      assert s[1..] == a[1..] + " " + b;
      WordsApart(a[1..], b);
    } else {
      var k := WordEnd(a);
      assert a == a[..k] + a[k..];
      WordEndExact(a[..k], a[k..] + " " + b);
      assert s == a[..k] + (a[k..] + " " + b);
      assert s[..k] == a[..k] && s[k..] == a[k..] + " " + b;
      WordsApart(a[k..], b);
    }
  }

  lemma WordsOfNoSpace(s: string)
    requires NoSpace(s)
    ensures Words(s) == if s == "" then [] else [s]
  {
    JoinWordsOfWords(s);
  }

  lemma {:induction false} JoinWordsLast(ws: seq<string>, w: string)
    requires ws != []
    ensures JoinWords(ws + [w]) == JoinWords(ws) + " " + w
    decreases |ws|
  {
    assert (ws + [w])[1..] == ws[1..] + [w];
    if |ws| > 1 {
      JoinWordsLast(ws[1..], w);
    } else {
      assert ws[1..] + [w] == [w];
    }
  }
}
