/** What parsing, printing and editing a GRUB configuration keep. */
module GrubProofs {
  import opened Text
  import opened Grub

  // ----- One value --------------------------------------------------------------------------

  lemma DumpParseWords(ws: seq<string>)
    ensures DumpValues(ParseWords(ws)) == ws
  {
    forall i | 0 <= i < |ws| ensures DumpValue(ParseWord(ws[i])) == ws[i] {
      var w := ws[i];
      var k := IndexOf(w, '=');
      if k < |w| { assert w == w[..k] + "=" + w[k + 1..]; }
    }
  }

  function Unquoted(value: string): string {
    if QuotedEnds(value) then StripQuotes(value) else value
  }

  /** What a value looks like after parsing and printing. */
  function NormValue(value: string): string {
    var text := Unquoted(value);
    if TakenWhole(text) then Quote(QuotedEnds(value), text)
    else
      var ws := Words(text);
      if ws == [] then "" else Quote(QuotedEnds(value) || |ws| > 1, JoinWords(ws))
  }

  /** A split value whose words, joined, have quotes at an end where the printer's own quotes will
      stand, or are nothing but an unbalanced pair. */
  predicate RaggedValue(value: string) {
    var text := Unquoted(value);
    !TakenWhole(text) && Words(text) != [] &&
    var t := JoinWords(Words(text));
    if QuotedEnds(value) || |Words(text)| > 1 then !PlainEnds(t)
    else QuotedEnds(t) && "\"" + StripQuotes(t) + "\"" != t
  }

  /** Inside quotes, text with plain ends stays; any other loses its outer quotes. */
  lemma NormOfQuoted(t: string)
    requires t != "" && (TakenWhole(t) || JoinWords(Words(t)) == t)
    ensures PlainEnds(t) ==> NormValue("\"" + t + "\"") == "\"" + t + "\""
    ensures !PlainEnds(t) ==> |NormValue("\"" + t + "\"")| < |t| + 2
  {
    var inner := StripQuotes(t);
    StripOfQuoted(t);
    StripFacts(t);
    QuotedNorm("\"" + t + "\"", inner);
    JoinWordsOfWords(inner);
  }

  lemma QuotedNorm(value: string, inner: string)
    requires QuotedEnds(value) && StripQuotes(value) == inner
    ensures NormValue(value) ==
              if TakenWhole(inner) then "\"" + inner + "\""
              else if Words(inner) == [] then ""
              else "\"" + JoinWords(Words(inner)) + "\""
  {
  }

  lemma NormOfWord(t: string)
    requires IsWord(t)
    ensures NormValue(t) == if QuotedEnds(t) then "\"" + StripQuotes(t) + "\"" else t
  {
    StripFacts(t);
    JoinWordsOfWords(Unquoted(t));
  }

  /** Parsing and printing a second time changes nothing if and only if the value is not ragged. */
  lemma ValueStableIff(value: string)
    ensures NormValue(NormValue(value)) == NormValue(value) <==> !RaggedValue(value)
  {
    var text := Unquoted(value);
    StripFacts(value);
    if TakenWhole(text) {
      if QuotedEnds(value) {
        StripOfQuoted(text);
        StripFacts(text);
      }
    } else if Words(text) != [] {
      var ws := Words(text);
      var t := JoinWords(ws);
      WordsAreWords(text);
      WordsJoin(ws);
      if QuotedEnds(value) || |ws| > 1 {
        NormOfQuoted(t);
      } else {
        assert ws[0] in ws;
        NormOfWord(t);
      }
    }
  }

  ghost predicate PlainQuotes(value: string) {
    '"' !in value || exists u :: value == "\"" + u + "\"" && '"' !in u
  }

  /** A value without quotes, or with none but one enclosing pair, is never ragged. */
  lemma PlainValueIsNotRagged(value: string)
    requires PlainQuotes(value)
    ensures !RaggedValue(value)
  {
    var text := Unquoted(value);
    assert '"' !in text by {
      StripFacts(value);
      if '"' in value {
        var u :| value == "\"" + u + "\"" && '"' !in u;
        StripOfQuoted(u);
        StripFacts(u);
      }
    }
    var t := JoinWords(Words(text));
    JoinWordsOfWords(text);
    assert '"' !in t;
    assert forall i | 0 <= i < |t| :: t[i] in t;
  }

  // ----- One line ---------------------------------------------------------------------------

  function Norm(line: string): string { DumpLine(ParseLine(line)) }

  predicate Ragged(line: string) {
    !IsRaw(line) && RaggedValue(line[IndexOf(line, '=') + 1..])
  }

  lemma NormOfSetting(name: string, value: string)
    requires '=' !in name && !IsComment(name + "=" + value)
    ensures Norm(name + "=" + value) == name + "=" + NormValue(value)
    ensures !IsRaw(name + "=" + value) && !IsComment(name + "=" + NormValue(value))
    ensures Ragged(name + "=" + value) <==> RaggedValue(value)
  {
    var line := name + "=" + value;
    assert line[|name|] == '=' && line[|name|] in line;
    IndexOfUnique(name, '=', value);
    assert line[..|name|] == name && line[|name| + 1..] == value;
    DumpParseWords(Words(Unquoted(value)));
    var text := Unquoted(value);
    if TakenWhole(text) {
      assert DumpValues([Single(text)]) == [text];
    }
  }

  lemma SplitSetting(line: string) returns (name: string, value: string)
    requires !IsRaw(line)
    ensures line == name + "=" + value && '=' !in name
  {
    EqualsInside(line);
    var k := IndexOf(line, '=');
    name, value := line[..k], line[k + 1..];
  }

  lemma LineStableIff(line: string)
    ensures Norm(Norm(line)) == Norm(line) <==> !Ragged(line)
    ensures IsRaw(line) ==> Norm(line) == line
  {
    if !IsRaw(line) {
      var name, value := SplitSetting(line);
      NormOfSetting(name, value);
      NormOfSetting(name, NormValue(value));
      ValueStableIff(value);
      SameTail(name + "=", NormValue(NormValue(value)), NormValue(value));
    }
  }

  lemma SameTail(head: string, a: string, b: string)
    ensures head + a == head + b <==> a == b
  {
    if head + a == head + b {
      assert (head + a)[|head|..] == a && (head + b)[|head|..] == b;
    }
  }

  lemma NormValueChars(value: string)
    ensures forall c <- NormValue(value) :: c in value || c == '"' || c == ' '
  {
    StripFacts(value);
    JoinWordsOfWords(Unquoted(value));
  }

  lemma NormKeepsOneLine(line: string)
    requires NoBreak(line)
    ensures NoBreak(Norm(line))
  {
    if !IsRaw(line) {
      var name, value := SplitSetting(line);
      NormOfSetting(name, value);
      NormValueChars(value);
      forall c | c in name + "=" + NormValue(value) ensures !IsBreak(c) {
        if c in name || c in value { assert c in line; }
      }
    }
  }

  // ----- The whole file -----------------------------------------------------------------------

  function Normalise(cfg: string): string { Dump(Parse(cfg)) }

  function NormLines(lines: seq<string>): (r: seq<string>)
    ensures |r| == |lines| && forall i | 0 <= i < |lines| :: r[i] == Norm(lines[i])
  {
    seq(|lines|, i requires 0 <= i < |lines| => Norm(lines[i]))
  }

  predicate OneLiners(lines: seq<string>) { forall l <- lines :: NoBreak(l) }

  lemma NormLinesAreLines(lines: seq<string>)
    requires OneLiners(lines)
    ensures OneLiners(NormLines(lines))
  {
    var r := NormLines(lines);
    forall l | l in r ensures NoBreak(l) {
      var i :| 0 <= i < |r| && r[i] == l;
      assert lines[i] in lines;
      NormKeepsOneLine(lines[i]);
    }
  }

  lemma NormaliseByLines(cfg: string)
    ensures Normalise(cfg) == JoinLines(NormLines(SplitLines(cfg)))
    ensures SplitLines(Normalise(cfg)) == NormLines(SplitLines(cfg))
  {
    var lines := SplitLines(cfg);
    assert DumpLines(ParseLines(lines)) == NormLines(lines);
    NormLinesAreLines(lines);
    SplitJoin(NormLines(lines));
  }

  /** However a file is made up of lines and their boundaries, the printed file has one line for each of them,
      in the same order and with a line feed after each: comments, blank lines and lines without '='
      unchanged, every other line in its printed form. */
  lemma LinesSurvive(cfg: string, lines: seq<string>, bounds: seq<string>)
    requires Lined(cfg, lines, bounds)
    ensures Lined(Normalise(cfg), NormLines(lines), NewLines(|lines|))
    ensures forall i | 0 <= i < |lines| ::
              lines[i] == "" || lines[i][0] == '#' || '=' !in lines[i] ==> NormLines(lines)[i] == lines[i]
  {
    LinesAreUnique(cfg, lines, bounds);
    NormaliseByLines(cfg);
    NormLinesAreLines(lines);
    JoinedIsLined(NormLines(lines));
    forall i | 0 <= i < |lines| && IsRaw(lines[i]) ensures Norm(lines[i]) == lines[i] {
      LineStableIff(lines[i]);
    }
  }

  lemma LinesStableIff(lines: seq<string>)
    ensures NormLines(NormLines(lines)) == NormLines(lines) <==> forall line <- lines :: !Ragged(line)
  {
    var once, twice := NormLines(lines), NormLines(NormLines(lines));
    forall i | 0 <= i < |lines| ensures twice[i] == once[i] <==> !Ragged(lines[i]) {
      LineStableIff(lines[i]);
    }
    if twice == once {
      forall line | line in lines ensures !Ragged(line) {
        var i :| 0 <= i < |lines| && lines[i] == line;
        assert twice[i] == once[i];
      }
    }
  }

  /** Reading the printed file and printing it again changes nothing if and only if no line of the
      original is ragged. */
  lemma NormalFormIff(cfg: string)
    ensures Normalise(Normalise(cfg)) == Normalise(cfg) <==> forall line <- SplitLines(cfg) :: !Ragged(line)
  {
    NormaliseByLines(cfg);
    NormaliseByLines(Normalise(cfg));
    LinesStableIff(SplitLines(cfg));
  }

  /** A configuration none of whose values has a quote besides one enclosing pair is printed in a
      normal form. */
  lemma PlainConfigIsStable(cfg: string)
    requires forall line <- SplitLines(cfg) :: !IsRaw(line) ==> PlainQuotes(line[IndexOf(line, '=') + 1..])
    ensures Normalise(Normalise(cfg)) == Normalise(cfg)
  {
    forall line | line in SplitLines(cfg) ensures !Ragged(line) {
      if !IsRaw(line) { PlainValueIsNotRagged(line[IndexOf(line, '=') + 1..]); }
    }
    NormalFormIff(cfg);
  }

  lemma TwoWordsRagged(a: string, b: string)
    requires IsWord(a) && IsWord(b) && !IsPunct(a[0]) && b[|b| - 1] == '"'
    ensures RaggedValue(a + " " + b)
  {
    var ws := [a, b];
    assert ws[1..] == [b];
    assert JoinWords(ws) == a + " " + b;
    WordsJoin(ws);
  }

  /** Where it fails: a file whose only line sets an unquoted list of two words that ends in a quote,
      such as `X=a "b"`, is printed differently every time until that quote is gone. */
  lemma UnstableFile(name: string, a: string, b: string)
    requires '=' !in name && NoBreak(name) && (name != "" ==> name[0] != '#')
    requires IsWord(a) && IsWord(b) && !IsPunct(a[0]) && b[|b| - 1] == '"'
    ensures var cfg := JoinLines([name + "=" + (a + " " + b)]); Normalise(Normalise(cfg)) != Normalise(cfg)
  {
    var value := a + " " + b;
    TwoWordsRagged(a, b);
    NormOfSetting(name, value);
    TwoWordsOneLine(name, a, b);
    RaggedFile(name + "=" + value);
  }

  lemma TwoWordsOneLine(name: string, a: string, b: string)
    requires NoBreak(name) && NoSpace(a) && NoSpace(b)
    ensures NoBreak(name + "=" + (a + " " + b))
  {
    forall c | c in name + "=" + (a + " " + b) ensures !IsBreak(c) {
      assert c in name || c == '=' || c in a || c == ' ' || c in b;
    }
  }

  lemma RaggedFile(line: string)
    requires NoBreak(line) && Ragged(line)
    ensures Normalise(Normalise(JoinLines([line]))) != Normalise(JoinLines([line]))
  {
    SplitJoin([line]);
    assert line in [line];
    NormalFormIff(JoinLines([line]));
  }

  // ----- Editing ----------------------------------------------------------------------------------

  /** After an edit with a key: the option's first line holds the key, and only with the new value; its
      other values are untouched and in place; all other lines are untouched; a line is added exactly
      when the option was absent; and the same edit again changes nothing. */
  lemma AppendKey(ls: seq<Line>, name: string, key: string, val: string)
    ensures
      var v := KeyVal(key, val);
      var k, after := FirstOf(ls, name), Append(ls, name, v);
      && FirstOf(after, name) == k < |after|
      && |after| == (if k < |ls| then |ls| else |ls| + 1)
      && v in after[k].values
      && (forall x <- after[k].values :: x.KeyVal? && x.key == key ==> x == v)
      && (forall j | 0 <= j < |ls| && j != k :: after[j] == ls[j] && DumpLine(after[j]) == DumpLine(ls[j]))
      && (k < |ls| ==>
            && after[k].quoted == ls[k].quoted && |ls[k].values| <= |after[k].values|
            && forall i | 0 <= i < |ls[k].values| ::
                 !(ls[k].values[i].KeyVal? && ls[k].values[i].key == key) ==> after[k].values[i] == ls[k].values[i])
      && Append(after, name, v) == after
  {
    var v := KeyVal(key, val);
    var k, after := FirstOf(ls, name), Append(ls, name, v);
    FirstUnchanged(ls, name, v);
    if k < |ls| {
      MergeKey(ls[k].values, v);
    }
    assert Merge(after[k].values, v) == after[k].values by {
      MergeTwice(if k < |ls| then ls[k].values else [], v);
    }
  }

  lemma {:induction false} FirstUnchanged(ls: seq<Line>, name: string, v: Value)
    ensures FirstOf(Append(ls, name, v), name) == FirstOf(ls, name)
    decreases |ls|
  {
    var k, after := FirstOf(ls, name), Append(ls, name, v);
    assert after[k].Setting? && after[k].name == name;
    var k' := FirstOf(after, name);
    assert forall i | 0 <= i < k :: after[i] == ls[i];
  }

  lemma MergeKey(vs: seq<Value>, v: Value)
    requires v.KeyVal?
    ensures v in Merge(vs, v)
    ensures forall x <- Merge(vs, v) :: x.KeyVal? && x.key == v.key ==> x == v
  {
    if x :| x in vs && Matches(x, v) {
      var i :| 0 <= i < |vs| && vs[i] == x;
      assert Replaced(vs, v)[i] == v;
    }
  }

  lemma MergeTwice(vs: seq<Value>, v: Value)
    ensures Merge(Merge(vs, v), v) == Merge(vs, v)
    ensures Merge([], v) == [v]
  {
    var once := Merge(vs, v);
    assert v in once by {
      if x :| x in vs && Matches(x, v) {
        var i :| 0 <= i < |vs| && vs[i] == x;
        assert Replaced(vs, v)[i] == v;
      }
    }
    assert Matches(v, v);
    assert Replaced(once, v) == once;
  }

  /** After an edit with a single value: the option's first line holds it, nothing else in the line and
      no other line has changed, and a value that was there is not added again. */
  lemma AppendSingle(ls: seq<Line>, name: string, val: string)
    ensures
      var v := Single(val);
      var k, after := FirstOf(ls, name), Append(ls, name, v);
      && FirstOf(after, name) == k < |after|
      && |after| == (if k < |ls| then |ls| else |ls| + 1)
      && v in after[k].values
      && (forall j | 0 <= j < |ls| && j != k :: after[j] == ls[j])
      && (k < |ls| ==> after[k].values == if v in ls[k].values then ls[k].values else ls[k].values + [v])
      && Append(after, name, v) == after
  {
    var v := Single(val);
    var k, after := FirstOf(ls, name), Append(ls, name, v);
    FirstUnchanged(ls, name, v);
    if k < |ls| {
      assert forall x <- ls[k].values :: Matches(x, v) ==> x == v;
      assert v in ls[k].values ==> Matches(v, v);
      assert Replaced(ls[k].values, v) == ls[k].values;
    }
    MergeTwice(if k < |ls| then ls[k].values else [], v);
  }
}
