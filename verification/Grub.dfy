/** The GRUB configuration editor: parsing, printing and editing `KEY=value` files. */
module Grub {
  import opened Text

  datatype Value = Single(val: string) | KeyVal(key: string, val: string)

  datatype Line = Raw(payload: string) | Setting(name: string, quoted: bool, values: seq<Value>)

  // ----- Parsing ----------------------------------------------------------------------------

  predicate IsComment(line: string) { line != "" && line[0] == '#' }

  predicate IsBlank(line: string) { forall c <- line :: IsSpace(c) }

  /** Comments, blank lines and lines without '=' are kept as they are. */
  predicate IsRaw(line: string) {
    IsComment(line) || IsBlank(line) || '=' !in line
  }

  function ParseWord(w: string): Value {
    var k := IndexOf(w, '=');
    if k == |w| then Single(w) else KeyVal(w[..k], w[k + 1..])
  }

  function ParseWords(ws: seq<string>): (vs: seq<Value>)
    ensures |vs| == |ws| && forall i | 0 <= i < |ws| :: vs[i] == ParseWord(ws[i])
  {
    seq(|ws|, i requires 0 <= i < |ws| => ParseWord(ws[i]))
  }

  /** A value that is empty or starts with punctuation is one single value; others are split. */
  predicate TakenWhole(text: string) { text == "" || IsPunct(text[0]) }

  function ParseSetting(name: string, value: string): Line {
    var quoted := QuotedEnds(value);
    var text := if quoted then StripQuotes(value) else value;
    Setting(name, quoted, if TakenWhole(text) then [Single(text)] else ParseWords(Words(text)))
  }

  lemma EqualsInside(line: string)
    requires '=' in line
    ensures IndexOf(line, '=') < |line|
  {
    assert line[..|line|] == line;
  }

  function ParseLine(line: string): Line {
    if IsRaw(line) then Raw(line)
    else
      var k := IndexOf(line, '=');
      EqualsInside(line);
      ParseSetting(line[..k], line[k + 1..])
  }

  function ParseLines(lines: seq<string>): (ls: seq<Line>)
    ensures |ls| == |lines| && forall i | 0 <= i < |lines| :: ls[i] == ParseLine(lines[i])
  {
    seq(|lines|, i requires 0 <= i < |lines| => ParseLine(lines[i]))
  }

  // ----- Printing ---------------------------------------------------------------------------

  function DumpValue(v: Value): string {
    match v
    case Single(val) => val
    case KeyVal(key, val) => key + "=" + val
  }

  function DumpValues(vs: seq<Value>): (ws: seq<string>)
    ensures |ws| == |vs| && forall i | 0 <= i < |vs| :: ws[i] == DumpValue(vs[i])
  {
    seq(|vs|, i requires 0 <= i < |vs| => DumpValue(vs[i]))
  }

  function Quote(quoted: bool, text: string): string {
    if quoted then "\"" + text + "\"" else text
  }

  function DumpLine(l: Line): string {
    match l
    case Raw(payload) => payload
    case Setting(name, quoted, vs) =>
      if vs == [] then name + "="
      else name + "=" + Quote(quoted || |vs| > 1, JoinWords(DumpValues(vs)))
  }

  function DumpLines(ls: seq<Line>): (lines: seq<string>)
    ensures |lines| == |ls| && forall i | 0 <= i < |ls| :: lines[i] == DumpLine(ls[i])
  {
    seq(|ls|, i requires 0 <= i < |ls| => DumpLine(ls[i]))
  }

  function Parse(cfg: string): seq<Line> { ParseLines(SplitLines(cfg)) }

  function Dump(ls: seq<Line>): string { JoinLines(DumpLines(ls)) }

  // ----- Editing ----------------------------------------------------------------------------

  predicate Matches(present: Value, wanted: Value) {
    || (present.KeyVal? && wanted.KeyVal? && present.key == wanted.key)
    || (present.Single? && present == wanted)
  }

  /** Every value with the same key takes the new one; if nothing matches, it is appended. */
  function Replaced(vs: seq<Value>, v: Value): (r: seq<Value>)
    ensures |r| == |vs| && forall i | 0 <= i < |vs| :: r[i] == if Matches(vs[i], v) then v else vs[i]
  {
    seq(|vs|, i requires 0 <= i < |vs| => if Matches(vs[i], v) then v else vs[i])
  }

  function Merge(vs: seq<Value>, v: Value): seq<Value> {
    if exists x <- vs :: Matches(x, v) then Replaced(vs, v) else vs + [v]
  }

  function FirstOf(ls: seq<Line>, name: string): (k: nat)
    ensures k <= |ls|
    ensures forall i | 0 <= i < k :: !(ls[i].Setting? && ls[i].name == name)
    ensures k < |ls| ==> ls[k].Setting? && ls[k].name == name
  {
    if ls == [] || (ls[0].Setting? && ls[0].name == name) then 0 else 1 + FirstOf(ls[1..], name)
  }

  function Append(ls: seq<Line>, name: string, v: Value): seq<Line> {
    var k := FirstOf(ls, name);
    if k < |ls| then ls[k := ls[k].(values := Merge(ls[k].values, v))]
    else ls + [Setting(name, true, [v])]
  }

  // ----- The editor object --------------------------------------------------------------------

  class Grub2ConfigEditor {
    var parsed: seq<Line>

    constructor(cfg: string)
      ensures parsed == Parse(cfg)
    {
      var ls := ParseCfg(cfg);
      parsed := ls;
    }

    static method ParseCfg(cfg: string) returns (ls: seq<Line>)
      ensures ls == Parse(cfg)
    {
      ls := [];
      var lines := SplitLines(cfg);
      for n := 0 to |lines|
        invariant |ls| == n
        invariant forall i | 0 <= i < n :: ls[i] == ParseLine(lines[i])
      {
        var l := ReadLine(lines[n]);
        ls := ls + [l];
      }
      assert ls == ParseLines(lines);
    }

    static method ReadLine(line: string) returns (l: Line)
      ensures l == ParseLine(line)
    {
      if IsRaw(line) {
        l := Raw(line);
      } else {
        EqualsInside(line);
        l := ReadSetting(line, IndexOf(line, '='));
      }
    }

    static method ReadSetting(line: string, k: nat) returns (l: Line)
      requires k < |line|
      ensures l == ParseSetting(line[..k], line[k + 1..])
    {
      var name, value := line[..k], line[k + 1..];
      var quoted, text := false, value;
      if QuotedEnds(value) {
        quoted, text := true, StripQuotes(value);
      }
      if TakenWhole(text) {
        return Setting(name, quoted, [Single(text)]);
      }
      var values := ReadValues(Words(text));
      l := Setting(name, quoted, values);
    }

    static method ReadValues(sections: seq<string>) returns (values: seq<Value>)
      ensures values == ParseWords(sections)
    {
      values := [];
      for n := 0 to |sections|
        invariant |values| == n
        invariant forall i | 0 <= i < n :: values[i] == ParseWord(sections[i])
      {
        values := values + [ParseWord(sections[n])];
      }
    }

    method AppendToOption(name: string, v: Value)
      modifies this
      ensures parsed == Append(old(parsed), name, v)
    {
      var n := 0;
      while n < |parsed|
        invariant 0 <= n <= FirstOf(parsed, name)
        invariant parsed == old(parsed)
      {
        if parsed[n].Setting? && parsed[n].name == name {
          var merged := MergeInto(parsed[n].values, v);
          parsed := parsed[n := parsed[n].(values := merged)];
          return;
        }
        n := n + 1;
      }
      parsed := parsed + [Setting(name, true, [v])];
    }

    static method MergeInto(values: seq<Value>, v: Value) returns (merged: seq<Value>)
      ensures merged == Merge(values, v)
    {
      var found := false;
      merged := values;
      for n := 0 to |values|
        invariant |merged| == |values|
        invariant found <==> exists i :: 0 <= i < n && Matches(values[i], v)
        invariant forall i | 0 <= i < n :: merged[i] == if Matches(values[i], v) then v else values[i]
        invariant forall i | n <= i < |values| :: merged[i] == values[i]
      {
        if Matches(merged[n], v) {
          merged := merged[n := v];
          found := true;
        }
      }
      if found {
        assert merged == Replaced(values, v);
      } else {
        assert merged == values;
        merged := merged + [v];
      }
    }

    method DumpText() returns (text: string)
      ensures text == Dump(parsed)
    {
      text := "";
      for n := 0 to |parsed|
        invariant text == Dump(parsed[..n])
      {
        assert DumpLines(parsed[..n + 1]) == DumpLines(parsed[..n]) + [DumpLine(parsed[n])];
        JoinLinesAppend(DumpLines(parsed[..n]), DumpLine(parsed[n]));
        text := text + DumpLine(parsed[n]) + "\n";
      }
      assert parsed[..|parsed|] == parsed;
    }
  }

  lemma {:induction false} JoinLinesAppend(lines: seq<string>, l: string)
    ensures JoinLines(lines + [l]) == JoinLines(lines) + l + "\n"
    decreases |lines|
  {
    if lines == [] {
      assert lines + [l] == [l];
    } else {
      assert (lines + [l])[1..] == lines[1..] + [l];
      JoinLinesAppend(lines[1..], l);
    }
  }
}
