/** Which edits of a GRUB configuration survive being printed and read back. */
module GrubEdits {
  import opened Text
  import opened Grub
  import opened GrubProofs

  /** A value that is printed on one line and without quotes. */
  predicate Plain(v: Value) { '"' !in DumpValue(v) && NoBreak(DumpValue(v)) }

  /** Printed among other words, the value is read back as itself: it is one word, and its first equals
      sign is the one the printer put there. */
  predicate Readable(v: Value) {
    IsWord(DumpValue(v)) && '=' !in (if v.KeyVal? then v.key else v.val)
  }

  function ValuesOf(text: string): seq<Value> {
    if TakenWhole(text) then [Single(text)] else ParseWords(Words(text))
  }

  // ----- The exact condition, in terms of the text and the value ---------------------------------

  /** What the text will be printed from first: all of a text that is taken whole, or else its first word. */
  function FirstPart(text: string): string {
    if TakenWhole(text) then text else if Words(text) == [] then "" else Words(text)[0]
  }

  /** The first character read back, once the quotes in front of it are stripped; a blank where nothing but
      quotes precede the next word. */
  function Lead(text: string, v: Value): char
    requires DumpValue(v) != ""
  {
    if !TakenWhole(text) && Words(text) == [] then DumpValue(v)[0]
    else
      var first := LStripQuotes(FirstPart(text));
      if first == "" then ' ' else first[0]
  }

  /** The words that a quote in front hides from the edit and that come into view when it is stripped. */
  function Hidden(text: string): seq<string> {
    var first := FirstPart(text);
    if first != "" && first[0] == '"' then Words(LStripQuotes(first)) else []
  }

  /** The word sets the same key to something else. */
  predicate Clashes(w: string, v: Value) { Matches(ParseWord(w), v) && ParseWord(w) != v }

  /** The single value is all there is on the line, and it is taken whole. */
  predicate WholeAndAlone(text: string, v: Value) {
    && v.Single? && TakenWhole(v.val)
    && if TakenWhole(text) then text == v.val else Words(text) == [] || (Words(text) == [v.val] && '=' !in v.val)
  }

  predicate Survives(text: string, v: Value) {
    || WholeAndAlone(text, v)
    || (Readable(v) && !IsPunct(Lead(text, v)) && (v.KeyVal? ==> forall w <- Hidden(text) :: !Clashes(w, v)))
  }

  // ----- Editing and reading back one text -------------------------------------------------------------

  function Edited(text: string, v: Value): seq<Value> { Merge(ValuesOf(text), v) }

  /** The text between the printer's quotes, if it prints any. */
  function Printed(vs: seq<Value>): string { JoinWords(DumpValues(vs)) }

  /** The text that is read back. */
  function Reread(quoted: bool, text: string, v: Value): string {
    Unquoted(Quote(quoted || |Edited(text, v)| > 1, Printed(Edited(text, v))))
  }

  /** What is read back between quotes. */
  function Back(text: string, v: Value): string { StripQuotes(Printed(Edited(text, v))) }

  lemma MergeHolds(vs: seq<Value>, v: Value)
    ensures v in Merge(vs, v)
  {
    if x :| x in vs && Matches(x, v) {
      var i :| 0 <= i < |vs| && vs[i] == x;
      assert Replaced(vs, v)[i] == v;
    }
  }

  /** A repeated edit changes nothing if and only if the value is there and nothing else matches it. */
  lemma MergeFixedIff(vs: seq<Value>, v: Value)
    ensures Merge(vs, v) == vs <==> v in vs && forall x <- vs :: Matches(x, v) ==> x == v
  {
    MergeHolds(vs, v);
    if Merge(vs, v) == vs {
      forall x | x in vs && Matches(x, v) ensures x == v {
        var i :| 0 <= i < |vs| && vs[i] == x;
        assert Replaced(vs, v)[i] == v;
      }
    }
    if v in vs && forall x <- vs :: Matches(x, v) ==> x == v {
      assert Matches(v, v);
      assert Replaced(vs, v) == vs;
    }
  }

  lemma ReadableIsReadBack(v: Value)
    requires Readable(v)
    ensures ParseWord(DumpValue(v)) == v
  {
    var w := DumpValue(v);
    if v.KeyVal? {
      IndexOfUnique(v.key, '=', v.val);
      assert w[..|v.key|] == v.key && w[|v.key| + 1..] == v.val;
    } else {
      assert forall i | 0 <= i < |w| :: w[i] in w;
    }
  }

  /** Only readable values are ever read from a split text. */
  lemma OnlyReadableAreRead(s: string, v: Value)
    requires v in ParseWords(Words(s))
    ensures Readable(v)
  {
    var ws := Words(s);
    WordsAreWords(s);
    DumpParseWords(ws);
    var i :| 0 <= i < |ws| && ParseWord(ws[i]) == v;
    assert DumpValues(ParseWords(ws))[i] == ws[i] && ws[i] in ws;
    var k := IndexOf(ws[i], '=');
    assert k == |ws[i]| ==> ws[i][..k] == ws[i];
  }

  // ----- A text that is taken whole -----------------------------------------------------------------------

  lemma EditedWhole(text: string, v: Value)
    requires TakenWhole(text)
    ensures Edited(text, v) == if v == Single(text) then [v] else [Single(text), v]
  {
    assert Edited(text, v) == if Matches(Single(text), v) then Replaced([Single(text)], v) else [Single(text)] + [v];
  }

  lemma PrintedPair(a: Value, b: Value)
    ensures Printed([a, b]) == DumpValue(a) + " " + DumpValue(b)
  {
    var ws := [DumpValue(a), DumpValue(b)];
    assert DumpValues([a, b]) == ws;
    assert ws[1..] == [DumpValue(b)];
    assert JoinWords([DumpValue(b)]) == DumpValue(b);
  }

  lemma PrintedOne(a: Value)
    ensures Printed([a]) == DumpValue(a)
  {
    assert DumpValues([a]) == [DumpValue(a)];
  }

  lemma BackOfWhole(text: string, v: Value)
    requires Plain(v) && TakenWhole(text) && v != Single(text)
    ensures Back(text, v) == LStripQuotes(text) + " " + DumpValue(v)
  {
    EditedWhole(text, v);
    PrintedPair(Single(text), v);
    StripAround(text, DumpValue(v));
    StripPlain(DumpValue(v));
  }

  lemma BackAlone(text: string, v: Value)
    requires Plain(v) && Edited(text, v) == [v]
    ensures Back(text, v) == DumpValue(v)
  {
    PrintedOne(v);
    StripPlain(DumpValue(v));
  }

  // ----- A text that is split ---------------------------------------------------------------------------

  /** What the edited words of a split text are: those that match are replaced, or the new one is added. */
  predicate EditedFrom(ws: seq<string>, v: Value, ds: seq<string>) {
    && |ws| <= |ds| <= |ws| + 1 && DumpValue(v) in ds && (forall w <- ws :: IsWord(w))
    && forall i | 0 <= i < |ds| ::
         ds[i] == if i < |ws| && !Matches(ParseWord(ws[i]), v) then ws[i] else DumpValue(v)
  }

  lemma EditedIsFrom(text: string, v: Value)
    requires Readable(v) && !TakenWhole(text)
    ensures EditedFrom(Words(text), v, DumpValues(Edited(text, v)))
  {
    var ws, vs := Words(text), Edited(text, v);
    WordsAreWords(text);
    MergeHolds(ParseWords(ws), v);
    var k :| 0 <= k < |vs| && vs[k] == v;
    assert DumpValues(vs)[k] == DumpValue(v);
    MergedAt(ws, v);
  }

  lemma MergedAt(ws: seq<string>, v: Value)
    ensures var ds := DumpValues(Merge(ParseWords(ws), v));
      && |ws| <= |ds| <= |ws| + 1
      && forall i | 0 <= i < |ds| ::
           ds[i] == if i < |ws| && !Matches(ParseWord(ws[i]), v) then ws[i] else DumpValue(v)
  {
    var vs := ParseWords(ws);
    DumpParseWords(ws);
    assert forall i | 0 <= i < |ws| :: DumpValue(vs[i]) == DumpValues(vs)[i] == ws[i];
    assert forall i | 0 <= i < |ws| :: vs[i] in vs;
  }

  lemma EditedAreWords(ws: seq<string>, v: Value, ds: seq<string>)
    requires Readable(v) && EditedFrom(ws, v, ds)
    ensures forall w <- ds :: IsWord(w)
  {
    forall w | w in ds ensures IsWord(w) {
      var i :| 0 <= i < |ds| && ds[i] == w;
      assert i < |ws| ==> ws[i] in ws;
    }
  }

  lemma RStripBehind(w: string, tail: string)
    requires IsWord(w)
    ensures Words(RStripQuotes(w + " " + tail)) == [w] + Words(RStripQuotes(tail))
  {
    RStripAfter(w, tail);
    WordsApart(w, RStripQuotes(tail));
    WordsOfNoSpace(w);
  }

  lemma {:induction false} RStripJoined(ws: seq<string>)
    requires ws != [] && forall w <- ws :: IsWord(w)
    ensures Words(RStripQuotes(JoinWords(ws))) == ws[..|ws| - 1] + Words(RStripQuotes(ws[|ws| - 1]))
    decreases |ws|
  {
    if |ws| > 1 {
      var rest := ws[1..];
      assert ws[0] in ws && forall w <- rest :: w in ws;
      JoinWordsCons(ws);
      RStripBehind(ws[0], JoinWords(rest));
      RStripJoined(rest);
      assert [ws[0]] + rest[..|rest| - 1] == ws[..|ws| - 1];
      assert rest[|rest| - 1] == ws[|ws| - 1];
    }
  }

  lemma ShownTwo(a: string, b: string, behind: seq<string>)
    requires Words(RStripQuotes(b)) == behind
    ensures var u := StripQuotes(a + " " + b);
      && Words(u) == Words(LStripQuotes(a)) + behind && u != ""
      && u[0] == if LStripQuotes(a) == "" then ' ' else LStripQuotes(a)[0]
  {
    StripAround(a, b);
    WordsApart(LStripQuotes(a), RStripQuotes(b));
  }

  lemma RestShown(ds: seq<string>)
    requires |ds| >= 2 && forall w <- ds :: IsWord(w)
    ensures Words(RStripQuotes(JoinWords(ds[1..]))) == ds[1..|ds| - 1] + Words(RStripQuotes(ds[|ds| - 1]))
  {
    var rest := ds[1..];
    assert forall w <- rest :: w in ds;
    RStripJoined(rest);
    assert rest[..|rest| - 1] == ds[1..|ds| - 1] && rest[|rest| - 1] == ds[|ds| - 1];
  }

  lemma JoinWordsCons(ws: seq<string>)
    requires |ws| >= 2
    ensures JoinWords(ws) == ws[0] + " " + JoinWords(ws[1..])
  {
  }

  /** What is read back from two or more words: quotes come off the outer two only. */
  function Shown(ds: seq<string>): seq<string>
    requires |ds| >= 2
  {
    Words(LStripQuotes(ds[0])) + (ds[1..|ds| - 1] + Words(RStripQuotes(ds[|ds| - 1])))
  }

  lemma ShownWords(ds: seq<string>)
    requires |ds| >= 2 && forall w <- ds :: IsWord(w)
    ensures var u := StripQuotes(JoinWords(ds));
      && Words(u) == Shown(ds) && u != ""
      && u[0] == if LStripQuotes(ds[0]) == "" then ' ' else LStripQuotes(ds[0])[0]
  {
    RestShown(ds);
    ShownTwo(ds[0], JoinWords(ds[1..]), ds[1..|ds| - 1] + Words(RStripQuotes(ds[|ds| - 1])));
    JoinWordsCons(ds);
  }

  lemma PlainWordIsShown(ds: seq<string>, d: string)
    requires |ds| >= 2 && d in ds && IsWord(d) && '"' !in d
    ensures d in Shown(ds)
  {
    StripPlain(d);
    WordsOfNoSpace(d);
    var i :| 0 <= i < |ds| && ds[i] == d;
    if 0 < i < |ds| - 1 {
      assert ds[1..|ds| - 1][i - 1] == d;
    }
  }

  // ----- Keys under stripped quotes ------------------------------------------------------------------------

  /** A word that matches a plain key starts with the same character as its replacement, and so has no
      quote in front. */
  lemma MatchedStart(w: string, v: Value)
    requires Plain(v) && Readable(v) && IsWord(w) && Matches(ParseWord(w), v)
    ensures w[0] == DumpValue(v)[0] && LStripQuotes(w) == w
  {
    assert DumpValue(v)[0] in DumpValue(v);
    DumpParseWords([w]);
    assert DumpValues(ParseWords([w]))[0] == w;
  }

  /** Stripping quotes from its end does not change a word's key. */
  lemma RStripKeepsKey(w: string, v: Value)
    requires v.KeyVal? && Matches(ParseWord(RStripQuotes(w)), v)
    ensures Matches(ParseWord(w), v)
  {
    RStripIsPrefix(w);
    SameKey(RStripQuotes(w), w);
  }

  lemma {:induction false} SameIndex(r: string, w: string)
    requires r <= w && IndexOf(r, '=') < |r|
    ensures IndexOf(w, '=') == IndexOf(r, '=')
    decreases |r|
  {
    if r[0] != '=' {
      SameIndex(r[1..], w[1..]);
    }
  }

  lemma SameKey(r: string, w: string)
    requires r <= w && IndexOf(r, '=') < |r|
    ensures IndexOf(w, '=') == IndexOf(r, '=') && w[..IndexOf(w, '=')] == r[..IndexOf(r, '=')]
  {
    SameIndex(r, w);
  }

  lemma {:induction false} RStripIsPrefix(w: string)
    ensures RStripQuotes(w) <= w
    decreases |w|
  {
    if w != "" && w[|w| - 1] == '"' {
      RStripIsPrefix(w[..|w| - 1]);
    }
  }

  // ----- Reading back ------------------------------------------------------------------------------------------

  /** None of the words sets the same key to something else. */
  predicate NoneClash(ws: seq<string>, v: Value) { forall w <- ws :: !Clashes(w, v) }

  lemma NoneClashIff(ws: seq<string>, v: Value)
    ensures NoneClash(ws, v) <==> forall x <- ParseWords(ws) :: Matches(x, v) ==> x == v
  {
    var vs := ParseWords(ws);
    if forall x <- vs :: Matches(x, v) ==> x == v {
      forall w | w in ws ensures !Clashes(w, v) {
        var i :| 0 <= i < |ws| && ws[i] == w;
        assert vs[i] in vs;
      }
    }
    if NoneClash(ws, v) {
      forall x | x in vs && Matches(x, v) ensures x == v {
        var i :| 0 <= i < |vs| && vs[i] == x;
        assert ws[i] in ws;
      }
    }
  }

  lemma ReadAmong(ws: seq<string>, v: Value)
    requires Readable(v) && DumpValue(v) in ws
    ensures v in ParseWords(ws)
  {
    ReadableIsReadBack(v);
    var i :| 0 <= i < |ws| && ws[i] == DumpValue(v);
    assert ParseWords(ws)[i] == v;
  }

  /** The first edited word is the text's own or a replacement that starts alike; what a quote in front of it
      hides is all that can clash. */
  lemma FirstWord(ws: seq<string>, v: Value, ds: seq<string>)
    requires Plain(v) && Readable(v) && EditedFrom(ws, v, ds) && ws != []
    ensures LStripQuotes(ds[0]) == "" <==> LStripQuotes(ws[0]) == ""
    ensures LStripQuotes(ds[0]) != "" ==> LStripQuotes(ds[0])[0] == LStripQuotes(ws[0])[0]
    ensures ws[0] != "" && (ws[0][0] != '"' ==> NoneClash(Words(LStripQuotes(ds[0])), v))
    ensures ws[0][0] == '"' ==> ds[0] == ws[0]
  {
    assert ws[0] in ws;
    ReadableIsReadBack(v);
    StripPlain(DumpValue(v));
    assert DumpValue(v)[0] in DumpValue(v);
    if Matches(ParseWord(ws[0]), v) {
      MatchedStart(ws[0], v);
      WordsOfNoSpace(DumpValue(v));
    } else if ws[0][0] != '"' {
      assert LStripQuotes(ws[0]) == ws[0];
      WordsOfNoSpace(ws[0]);
    }
  }

  lemma MiddleWords(ws: seq<string>, v: Value, ds: seq<string>)
    requires Readable(v) && EditedFrom(ws, v, ds)
    ensures NoneClash(ds, v)
  {
    ReadableIsReadBack(v);
    forall w | w in ds ensures !Clashes(w, v) {
      var i :| 0 <= i < |ds| && ds[i] == w;
    }
  }

  lemma LastWord(ws: seq<string>, v: Value, ds: seq<string>)
    requires v.KeyVal? && Plain(v) && Readable(v) && EditedFrom(ws, v, ds)
    ensures NoneClash(Words(RStripQuotes(ds[|ds| - 1])), v)
  {
    var w := ds[|ds| - 1];
    assert w in ds;
    EditedAreWords(ws, v, ds);
    RStripFacts(w);
    WordsOfNoSpace(RStripQuotes(w));
    if w == DumpValue(v) {
      StripPlain(w);
      ReadableIsReadBack(v);
    } else if RStripQuotes(w) != "" && Matches(ParseWord(RStripQuotes(w)), v) {
      RStripKeepsKey(w, v);
    }
  }

  /** A split text of which more than the value is left. */
  lemma ReadBackSplit(ws: seq<string>, v: Value, ds: seq<string>)
    requires Plain(v) && Readable(v) && EditedFrom(ws, v, ds) && |ds| >= 2
    ensures ws != [] && ws[0] != ""
    ensures var first, u := LStripQuotes(ws[0]), StripQuotes(JoinWords(ds));
      && u != "" && u[0] == (if first == "" then ' ' else first[0])
      && DumpValue(v) in Words(u)
      && (v.KeyVal? ==> (NoneClash(Words(u), v) <==> (ws[0][0] != '"' || NoneClash(Words(first), v))))
  {
    EditedAreWords(ws, v, ds);
    ShownWords(ds);
    FirstWord(ws, v, ds);
    PlainWordIsShown(ds, DumpValue(v));
    if v.KeyVal? {
      MiddleWords(ws, v, ds);
      LastWord(ws, v, ds);
      ClashOnlyFirst(ds, v);
    }
  }

  lemma ClashOnlyFirst(ds: seq<string>, v: Value)
    requires |ds| >= 2 && NoneClash(ds, v) && NoneClash(Words(RStripQuotes(ds[|ds| - 1])), v)
    ensures NoneClash(Shown(ds), v) <==> NoneClash(Words(LStripQuotes(ds[0])), v)
  {
    var first, rest := Words(LStripQuotes(ds[0])), ds[1..|ds| - 1] + Words(RStripQuotes(ds[|ds| - 1]));
    assert NoneClash(rest, v) by { assert forall w <- ds[1..|ds| - 1] :: w in ds; }
    assert forall w :: w in first + rest <==> w in first || w in rest;
  }

  /** A split text of which only the value is left. */
  lemma OnlyTheValue(ws: seq<string>, v: Value, ds: seq<string>)
    requires Plain(v) && Readable(v) && EditedFrom(ws, v, ds) && |ds| == 1
    ensures ds == [DumpValue(v)]
    ensures ws != [] ==> ws[0] != "" && ws[0][0] == DumpValue(v)[0] && LStripQuotes(ws[0]) == ws[0] && ws[0][0] != '"'
  {
    assert ds[0] == DumpValue(v);
    assert DumpValue(v)[0] in DumpValue(v);
    if ws != [] {
      assert ws[0] in ws;
      ReadableIsReadBack(v);
      MatchedStart(ws[0], v);
    }
  }

  /** What reading back a readable value finds. */
  predicate Found(text: string, v: Value, u: string)
    requires Readable(v)
  {
    && u != "" && u[0] == Lead(text, v)
    && (!IsPunct(Lead(text, v)) ==>
          && DumpValue(v) in Words(u)
          && (v.KeyVal? ==> (NoneClash(Words(u), v) <==> NoneClash(Hidden(text), v))))
  }

  lemma ReadBackOfSplit(text: string, v: Value)
    requires Plain(v) && Readable(v) && !TakenWhole(text)
    ensures Found(text, v, Back(text, v))
  {
    var ws, ds := Words(text), DumpValues(Edited(text, v));
    EditedIsFrom(text, v);
    if |ds| >= 2 {
      ReadBackSplit(ws, v, ds);
    } else {
      OnlyTheValue(ws, v, ds);
      StripPlain(DumpValue(v));
      WordsOfNoSpace(DumpValue(v));
      ReadableIsReadBack(v);
    }
  }

  lemma ReadBackOfWhole(text: string, v: Value)
    requires Plain(v) && Readable(v) && TakenWhole(text)
    ensures Found(text, v, Back(text, v))
  {
    if v == Single(text) {
      EditedWhole(text, v);
      BackAlone(text, v);
      StripPlain(text);
    } else {
      var left, d := LStripQuotes(text), DumpValue(v);
      BackOfWhole(text, v);
      WordsApart(left, d);
      WordsOfNoSpace(d);
      ReadableIsReadBack(v);
      assert (left + " " + d)[0] == Lead(text, v);
      if !IsPunct(Lead(text, v)) {
        assert d in Words(left) + [d];
        assert forall w :: w in Words(left) + [d] <==> w in Words(left) || w == d;
        assert Hidden(text) == Words(left);
      }
    }
  }

  lemma BlankInside(ds: seq<string>)
    requires |ds| >= 2
    ensures ' ' in StripQuotes(JoinWords(ds))
  {
    StripAround(ds[0], JoinWords(ds[1..]));
  }

  lemma StripOnce(d: string)
    requires PlainEnds(d)
    ensures RStripQuotes(d) == d
  {
  }

  lemma AddedBehind(text: string, v: Value)
    requires v.Single? && PlainEnds(v.val) && !TakenWhole(text) && Words(text) != [] && v !in ParseWords(Words(text))
    ensures |Back(text, v)| > |v.val|
  {
    var ws := Words(text);
    assert Edited(text, v) == ParseWords(ws) + [v];
    DumpParseWords(ws);
    assert DumpValues(ParseWords(ws) + [v]) == ws + [v.val];
    JoinWordsLast(ws, v.val);
    StripAround(JoinWords(ws), v.val);
    StripOnce(v.val);
  }

  /** Two or more values are never read back as one whole. */
  lemma NeverOneWhole(text: string, v: Value)
    requires |Edited(text, v)| >= 2
    ensures v != Single(Back(text, v))
  {
    var u := Back(text, v);
    StripFacts(Printed(Edited(text, v)));
    if v == Single(u) {
      StripOnce(u);
      if TakenWhole(text) {
        EditedWhole(text, v);
        PrintedPair(Single(text), v);
        StripAround(text, u);
      } else if v in ParseWords(Words(text)) {
        OnlyReadableAreRead(text, v);
        BlankInside(DumpValues(Edited(text, v)));
      } else {
        AddedBehind(text, v);
      }
    }
  }

  /** The value is all that is read back if and only if it is all there was. */
  lemma AloneIff(text: string, v: Value)
    requires Plain(v) && v.Single?
    ensures Back(text, v) == v.val <==> Edited(text, v) == [v]
  {
    MergeHolds(ValuesOf(text), v);
    if Edited(text, v) == [v] {
      BackAlone(text, v);
    } else {
      NeverOneWhole(text, v);
    }
  }

  lemma WholeAndAloneIff(text: string, v: Value)
    requires v.Single? && TakenWhole(v.val)
    ensures WholeAndAlone(text, v) <==> Edited(text, v) == [v]
  {
    MergeHolds(ValuesOf(text), v);
    if TakenWhole(text) {
      EditedWhole(text, v);
    } else if Words(text) != [] {
      var ws := Words(text);
      DumpParseWords(ws);
      if Edited(text, v) == [v] {
        assert |ws| == 1 && ParseWord(ws[0]) == v;
        assert DumpValues(ParseWords(ws))[0] == ws[0];
        OnlyReadableAreRead(text, v);
      }
      if ws == [v.val] && '=' !in v.val {
        WordsAreWords(text);
        assert ws[0] in ws;
        ReadableIsReadBack(v);
        assert ParseWords(ws) == [v];
      }
    }
  }

  /** The same edit of what was read back changes nothing if and only if the edit survives. */
  lemma EditAgainIff(text: string, v: Value)
    requires Plain(v)
    ensures var back := ValuesOf(Back(text, v)); Merge(back, v) == back <==> Survives(text, v)
  {
    var u := Back(text, v);
    var back := ValuesOf(u);
    MergeFixedIff(back, v);
    if Readable(v) {
      if TakenWhole(text) { ReadBackOfWhole(text, v); } else { ReadBackOfSplit(text, v); }
    }
    if v.Single? {
      AloneIff(text, v);
      if TakenWhole(v.val) { WholeAndAloneIff(text, v); }
    }
    if !TakenWhole(u) {
      NoneClashIff(Words(u), v);
      if v in back { OnlyReadableAreRead(u, v); }
      if Readable(v) { ReadAmong(Words(u), v); }
    }
  }

  // ----- Any value, quotes and all ---------------------------------------------------------------------------

  /** A value that stands alone on its line is not changed by the reader's stripping of quotes. */
  predicate KeepsQuotes(quoted: bool, d: string) { PlainEnds(d) || (!quoted && !QuotedEnds(d)) }

  /** The words the reader will see of two or more values: the edited ones, without the quotes in front of the
      first and behind the last. */
  function Seen(text: string, v: Value): seq<string>
    requires |Edited(text, v)| >= 2
  {
    if TakenWhole(text) then Words(LStripQuotes(text)) + Words(RStripQuotes(DumpValue(v)))
    else Shown(DumpValues(Edited(text, v)))
  }

  /** The first character the reader will see of them. */
  function SeenFirst(text: string, v: Value): char
    requires |Edited(text, v)| >= 2
  {
    var first := LStripQuotes(DumpValue(Edited(text, v)[0]));
    if first == "" then ' ' else first[0]
  }

  /** A value alone on its line survives if it keeps its quotes and is read as what it is; among others, if
      the reader splits the text, sees the value as one of its words, and sees no other setting of its key. */
  predicate SurvivesIn(quoted: bool, text: string, v: Value) {
    if |Edited(text, v)| < 2 then
      KeepsQuotes(quoted, DumpValue(v)) && if TakenWhole(DumpValue(v)) then v.Single? else Readable(v)
    else
      Readable(v) && !IsPunct(SeenFirst(text, v)) && DumpValue(v) in Seen(text, v) && NoneClash(Seen(text, v), v)
  }

  lemma AloneIsTheValue(text: string, v: Value)
    requires |Edited(text, v)| < 2
    ensures Edited(text, v) == [v] && Printed(Edited(text, v)) == DumpValue(v)
  {
    MergeHolds(ValuesOf(text), v);
    PrintedOne(v);
  }

  lemma RereadAlone(quoted: bool, d: string)
    ensures Unquoted(Quote(quoted, d)) == if quoted || QuotedEnds(d) then StripQuotes(d) else d
    ensures Unquoted(Quote(quoted, d)) == d <==> KeepsQuotes(quoted, d)
    ensures forall c <- Unquoted(Quote(quoted, d)) :: c in d
  {
    StripOfQuoted(d);
    StripFacts(d);
  }

  /** A word is read as a value if and only if it is the value's printed form. */
  lemma ReadIff(w: string, v: Value)
    requires Readable(v)
    ensures ParseWord(w) == v <==> w == DumpValue(v)
  {
    ReadableIsReadBack(v);
    DumpParseWords([w]);
    assert DumpValues(ParseWords([w]))[0] == w;
  }

  lemma AloneAgainIff(quoted: bool, text: string, v: Value)
    requires |Edited(text, v)| < 2
    ensures var back := ValuesOf(Reread(quoted, text, v)); Merge(back, v) == back <==> SurvivesIn(quoted, text, v)
  {
    var d, u := DumpValue(v), Reread(quoted, text, v);
    AloneIsTheValue(text, v);
    RereadAlone(quoted, d);
    MergeFixedIff(ValuesOf(u), v);
    if !TakenWhole(u) {
      if v in ValuesOf(u) { OnlyReadableAreRead(u, v); }
      if Readable(v) {
        WordsOfNoSpace(u);
        ReadIff(u, v);
        assert ParseWords([u]) == [ParseWord(u)];
      }
    }
  }

  lemma SeenStarts(text: string, v: Value)
    requires |Edited(text, v)| >= 2
    ensures Back(text, v) != "" && Back(text, v)[0] == SeenFirst(text, v)
  {
    var ds := DumpValues(Edited(text, v));
    JoinWordsCons(ds);
    ShownTwo(ds[0], JoinWords(ds[1..]), Words(RStripQuotes(JoinWords(ds[1..]))));
  }

  lemma SeenWords(text: string, v: Value)
    requires |Edited(text, v)| >= 2 && Readable(v)
    ensures Words(Back(text, v)) == Seen(text, v)
  {
    if TakenWhole(text) {
      EditedWhole(text, v);
      PrintedPair(Single(text), v);
      ShownTwo(text, DumpValue(v), Words(RStripQuotes(DumpValue(v))));
    } else {
      EditedIsFrom(text, v);
      EditedAreWords(Words(text), v, DumpValues(Edited(text, v)));
      ShownWords(DumpValues(Edited(text, v)));
    }
  }

  lemma AmongIff(ws: seq<string>, v: Value)
    requires Readable(v)
    ensures v in ParseWords(ws) <==> DumpValue(v) in ws
  {
    if v in ParseWords(ws) {
      var i :| 0 <= i < |ws| && ParseWord(ws[i]) == v;
      ReadIff(ws[i], v);
    }
    if DumpValue(v) in ws { ReadAmong(ws, v); }
  }

  lemma AmongAgainIff(text: string, v: Value)
    requires |Edited(text, v)| >= 2
    ensures var back := ValuesOf(Back(text, v)); Merge(back, v) == back <==> SurvivesIn(true, text, v)
  {
    var u := Back(text, v);
    MergeFixedIff(ValuesOf(u), v);
    SeenStarts(text, v);
    NeverOneWhole(text, v);
    if !TakenWhole(u) {
      if v in ValuesOf(u) { OnlyReadableAreRead(u, v); }
      if Readable(v) {
        SeenWords(text, v);
        AmongIff(Words(u), v);
        NoneClashIff(Words(u), v);
      }
    }
  }

  /** The same edit of what was read back changes nothing if and only if the edit survives. */
  lemma RereadAgainIff(quoted: bool, text: string, v: Value)
    ensures var back := ValuesOf(Reread(quoted, text, v)); Merge(back, v) == back <==> SurvivesIn(quoted, text, v)
  {
    if |Edited(text, v)| < 2 {
      AloneAgainIff(quoted, text, v);
    } else {
      StripOfQuoted(Printed(Edited(text, v)));
      AmongAgainIff(text, v);
    }
  }

  /** For a value without quotes the condition is one on the text and the value alone. */
  lemma PlainSurvivesIff(quoted: bool, text: string, v: Value)
    requires Plain(v)
    ensures SurvivesIn(quoted, text, v) <==> Survives(text, v)
  {
    var vs := Edited(text, v);
    RereadAgainIff(quoted, text, v);
    EditAgainIff(text, v);
    if |vs| < 2 { AloneIsTheValue(text, v); }
    UnquotedOfQuote(quoted || |vs| > 1, Printed(vs));
  }

  // ----- One line ------------------------------------------------------------------------------------------

  lemma {:induction false} WordsChars(s: string)
    ensures forall w <- Words(s) :: forall c <- w :: c in s
    decreases |s|
  {
    if s != "" {
      if IsSpace(s[0]) { WordsChars(s[1..]); } else { WordsChars(s[WordEnd(s)..]); }
    }
  }

  lemma {:induction false} JoinedChars(ws: seq<string>, pool: string)
    requires forall w <- ws :: forall c <- w :: c in pool
    ensures forall c <- JoinWords(ws) :: c in pool || c == ' '
    decreases |ws|
  {
    if ws != [] {
      assert ws[0] in ws;
      assert forall w <- ws[1..] :: w in ws;
      JoinedChars(ws[1..], pool);
    }
  }

  /** Printing an edited text adds no characters but those of the value and blanks. */
  lemma PrintedChars(text: string, v: Value)
    ensures forall c <- Printed(Edited(text, v)) :: c in text || c in DumpValue(v) || c == ' '
  {
    var ds, pool := DumpValues(Edited(text, v)), text + DumpValue(v);
    WordsChars(text);
    if TakenWhole(text) { EditedWhole(text, v); } else { MergedAt(Words(text), v); }
    forall w | w in ds ensures forall c <- w :: c in pool {
      var i :| 0 <= i < |ds| && ds[i] == w;
      assert !TakenWhole(text) && i < |Words(text)| ==> Words(text)[i] in Words(text);
    }
    JoinedChars(ds, pool);
  }

  lemma UnquotedOfQuote(quoted: bool, t: string)
    requires quoted || '"' !in t
    ensures Unquoted(Quote(quoted, t)) == StripQuotes(t)
  {
    if quoted {
      StripOfQuoted(t);
    } else {
      StripPlain(t);
      assert t != "" ==> t[0] in t;
    }
  }

  /** The first line of the option after the edit, printed and read back. */
  lemma LineReadBack(name: string, quoted: bool, text: string, v: Value)
    requires '=' !in name && (name != "" ==> name[0] != '#')
    ensures var line := ParseLine(DumpLine(Setting(name, quoted, Edited(text, v))));
      line.Setting? && line.name == name && line.values == ValuesOf(Reread(quoted, text, v))
  {
    var vs := Edited(text, v);
    MergeHolds(ValuesOf(text), v);
    var value := Quote(quoted || |vs| > 1, Printed(vs));
    assert DumpLine(Setting(name, quoted, vs)) == name + "=" + value;
    ParseOfSetting(name, value);
  }

  lemma ParseOfSetting(name: string, value: string)
    requires '=' !in name && (name != "" ==> name[0] != '#')
    ensures ParseLine(name + "=" + value) == ParseSetting(name, value)
    ensures ParseSetting(name, value) == Setting(name, QuotedEnds(value), ValuesOf(Unquoted(value)))
  {
    var line := name + "=" + value;
    assert line[|name|] == '=' && line[|name|] in line;
    IndexOfUnique(name, '=', value);
    assert line[..|name|] == name && line[|name| + 1..] == value;
  }

  // ----- The whole file --------------------------------------------------------------------------------------

  predicate ValidName(name: string) { '=' !in name && (name != "" ==> name[0] != '#') && NoBreak(name) }

  predicate Sets(l: Line, name: string) { l.Setting? && l.name == name }

  lemma NormKeepsName(line: string, name: string)
    ensures Sets(ParseLine(Norm(line)), name) <==> Sets(ParseLine(line), name)
  {
    if IsRaw(line) {
      LineStableIff(line);
    } else {
      var n, value := SplitSetting(line);
      NormOfSetting(n, value);
      assert n != "" ==> line[0] == n[0];
      ParseOfSetting(n, value);
      ParseOfSetting(n, NormValue(value));
    }
  }

  /** The value text of the option's first line, unquoted; a blank, which holds no words, when the option
      is absent. */
  function TextOf(cfg: string, name: string): string {
    var lines := SplitLines(cfg);
    var k := FirstOf(Parse(cfg), name);
    if k < |lines| && '=' in lines[k] then
      EqualsInside(lines[k]);
      Unquoted(lines[k][IndexOf(lines[k], '=') + 1..])
    else " "
  }

  /** Whether the option's first line is quoted; a line that the edit adds is. */
  function QuotedIn(cfg: string, name: string): bool {
    var ls := Parse(cfg);
    var k := FirstOf(ls, name);
    k == |ls| || ls[k].quoted
  }

  lemma TextOfLine(line: string)
    requires ParseLine(line).Setting? && NoBreak(line)
    ensures '=' in line && IndexOf(line, '=') < |line|
    ensures var text := Unquoted(line[IndexOf(line, '=') + 1..]);
      ParseLine(line).values == ValuesOf(text) && NoBreak(text)
  {
    EqualsInside(line);
    var value := line[IndexOf(line, '=') + 1..];
    StripFacts(value);
    assert forall c <- Unquoted(value) :: c in value;
    assert forall c <- value :: c in line;
  }

  /** The edited line of the file, whether it was there or not. */
  lemma EditedLine(cfg: string, name: string, v: Value)
    ensures var ls := Parse(cfg); var k := FirstOf(ls, name);
      Append(ls, name, v)[k] == Setting(name, QuotedIn(cfg, name), Edited(TextOf(cfg, name), v))
    ensures NoBreak(TextOf(cfg, name))
  {
    var k := FirstOf(Parse(cfg), name);
    if k < |Parse(cfg)| {
      PresentText(cfg, name, k);
    } else {
      AbsentText(cfg, name);
      BlankHasNoWords();
      MergeTwice([], v);
    }
  }

  lemma PresentText(cfg: string, name: string, k: nat)
    requires k == FirstOf(Parse(cfg), name) < |Parse(cfg)|
    ensures ValuesOf(TextOf(cfg, name)) == Parse(cfg)[k].values && NoBreak(TextOf(cfg, name))
  {
    var line := SplitLines(cfg)[k];
    PresentLine(cfg, name, k, line);
    TextOfLine(line);
  }

  lemma PresentLine(cfg: string, name: string, k: nat, line: string)
    requires k == FirstOf(Parse(cfg), name) < |Parse(cfg)| && line == SplitLines(cfg)[k]
    ensures Parse(cfg)[k] == ParseLine(line) && ParseLine(line).Setting? && NoBreak(line)
    ensures '=' in line ==>
      IndexOf(line, '=') < |line| && TextOf(cfg, name) == Unquoted(line[IndexOf(line, '=') + 1..])
  {
    assert line in SplitLines(cfg);
    if '=' in line {
      EqualsInside(line);
    }
  }

  lemma AbsentText(cfg: string, name: string)
    requires FirstOf(Parse(cfg), name) == |Parse(cfg)|
    ensures TextOf(cfg, name) == " "
  {
  }

  lemma BlankHasNoWords()
    ensures ValuesOf(" ") == []
  {
    assert " "[1..] == "";
  }

  lemma EditedLineIsOne(name: string, quoted: bool, text: string, v: Value)
    requires ValidName(name) && NoBreak(DumpValue(v)) && NoBreak(text)
    ensures NoBreak(DumpLine(Setting(name, quoted, Edited(text, v))))
  {
    PrintedChars(text, v);
    var t := Printed(Edited(text, v));
    forall c | c in t ensures !IsBreak(c) { }
    NoBreakQuoted(name, quoted || |Edited(text, v)| > 1, t);
    MergeHolds(ValuesOf(text), v);
  }

  lemma NoBreakQuoted(name: string, quoted: bool, t: string)
    requires NoBreak(name) && NoBreak(t)
    ensures NoBreak(name + "=" + Quote(quoted, t))
  {
  }

  /** Line by line, what reading the printed edit gives. */
  lemma ReadBackLines(cfg: string, name: string, v: Value)
    requires NoBreak(DumpValue(v)) && ValidName(name)
    ensures var ls, after := Parse(cfg), Append(Parse(cfg), name, v);
      var again := Parse(Dump(after));
      && |again| == |after|
      && forall i | 0 <= i < |after| :: again[i] == ParseLine(DumpLine(after[i]))
  {
    var lines, ls, after := SplitLines(cfg), Parse(cfg), Append(Parse(cfg), name, v);
    var k, dumped := FirstOf(ls, name), DumpLines(after);
    EditedLine(cfg, name, v);
    EditedLineIsOne(name, QuotedIn(cfg, name), TextOf(cfg, name), v);
    forall l | l in dumped ensures NoBreak(l) {
      var i :| 0 <= i < |after| && dumped[i] == l;
      if i != k {
        assert after[i] == ls[i] == ParseLine(lines[i]);
        assert lines[i] in lines;
        NormKeepsOneLine(lines[i]);
      }
    }
    SplitJoin(dumped);
  }

  lemma FirstIs(ls: seq<Line>, name: string, k: nat)
    requires k < |ls| && Sets(ls[k], name) && forall i | 0 <= i < k :: !Sets(ls[i], name)
    ensures FirstOf(ls, name) == k
  {
  }

  /** The option is found again on the same line, with what reading the edited text gives. */
  lemma FoundAgain(cfg: string, name: string, v: Value)
    requires NoBreak(DumpValue(v)) && ValidName(name)
    ensures var ls, after := Parse(cfg), Append(Parse(cfg), name, v);
      var again, k := Parse(Dump(after)), FirstOf(ls, name);
      && FirstOf(again, name) == k < |again|
      && again[k].values == ValuesOf(Reread(QuotedIn(cfg, name), TextOf(cfg, name), v))
  {
    var lines, ls, after := SplitLines(cfg), Parse(cfg), Append(Parse(cfg), name, v);
    var again, k := Parse(Dump(after)), FirstOf(ls, name);
    ReadBackLines(cfg, name, v);
    EditedLine(cfg, name, v);
    LineReadBack(name, QuotedIn(cfg, name), TextOf(cfg, name), v);
    forall i | 0 <= i < k ensures !Sets(again[i], name) {
      assert again[i] == ParseLine(Norm(lines[i]));
      NormKeepsName(lines[i], name);
    }
    FirstIs(again, name, k);
  }

  /** What is read has no characters that the line does not have. */
  lemma ReadChars(line: string, v: Value)
    requires ParseLine(line).Setting? && v in ParseLine(line).values && NoBreak(line)
    ensures NoBreak(DumpValue(v)) && ValidName(ParseLine(line).name)
  {
    TextOfLine(line);
    var text := Unquoted(line[IndexOf(line, '=') + 1..]);
    if !TakenWhole(text) {
      var ws := Words(text);
      WordsChars(text);
      DumpParseWords(ws);
      var i :| 0 <= i < |ws| && ParseWord(ws[i]) == v;
      assert DumpValues(ParseWords(ws))[i] == ws[i] && ws[i] in ws;
    }
    assert forall c <- line[..IndexOf(line, '=')] :: c in line;
  }

  /** No edit of a name or with a value that cannot stand on one line is ever found again. */
  lemma OnlyOneLiners(cfg: string, name: string, v: Value)
    requires Append(Parse(cfg), name, v) == Parse(cfg)
    ensures ValidName(name) && NoBreak(DumpValue(v))
  {
    var lines, ls := SplitLines(cfg), Parse(cfg);
    var k := FirstOf(ls, name);
    if k < |ls| {
      assert ls[k] == ParseLine(lines[k]) && lines[k] in lines;
      SameLine(ls, k, ls[k].(values := Merge(ls[k].values, v)));
      MergeHolds(ls[k].values, v);
      ReadChars(lines[k], v);
    }
  }

  /** For every file, option and value: editing, printing, reading back and making the same edit again changes
      nothing if and only if name and value fit on a line and the edit survives in the option's first line. */
  lemma EditSurvivesIff(cfg: string, name: string, v: Value)
    ensures var again := Parse(Dump(Append(Parse(cfg), name, v)));
      Append(again, name, v) == again <==>
        && ValidName(name) && NoBreak(DumpValue(v))
        && SurvivesIn(QuotedIn(cfg, name), TextOf(cfg, name), v)
  {
    var printed := Dump(Append(Parse(cfg), name, v));
    var again := Parse(printed);
    if Append(again, name, v) == again { OnlyOneLiners(printed, name, v); }
    if ValidName(name) && NoBreak(DumpValue(v)) {
      FoundAgain(cfg, name, v);
      RereadAgainIff(QuotedIn(cfg, name), TextOf(cfg, name), v);
      var k := FirstOf(Parse(cfg), name);
      SameLine(again, k, again[k].(values := Merge(again[k].values, v)));
    }
  }

  /** For values without quotes the condition needs only the text of the option's first line. */
  lemma PlainEditSurvivesIff(cfg: string, name: string, v: Value)
    requires Plain(v) && ValidName(name)
    ensures var again := Parse(Dump(Append(Parse(cfg), name, v)));
      Append(again, name, v) == again <==> Survives(TextOf(cfg, name), v)
  {
    EditSurvivesIff(cfg, name, v);
    PlainSurvivesIff(QuotedIn(cfg, name), TextOf(cfg, name), v);
  }

  lemma SameLine(ls: seq<Line>, k: nat, l: Line)
    requires k < |ls|
    ensures ls[k := l] == ls <==> l == ls[k]
  {
    if ls[k := l] == ls {
      assert ls[k := l][k] == l;
    }
  }

  /** Where it fails: a file whose only line sets the option to a quoted text that starts with punctuation,
      such as `"$a"`, gets another copy of every value but that text itself. */
  lemma WholeValueGrows(name: string, text: string, v: Value)
    requires Plain(v) && ValidName(name) && v != Single(text)
    requires text != "" && IsPunct(text[0]) && '"' !in text && NoBreak(text)
    ensures var again := Parse(Dump(Append(Parse(JoinLines([name + "=" + Quote(true, text)])), name, v)));
      Append(again, name, v) != again
  {
    OneLineFile(name, text);
    StripPlain(text);
    PlainEditSurvivesIff(JoinLines([name + "=" + Quote(true, text)]), name, v);
  }

  lemma OneLineFile(name: string, text: string)
    requires ValidName(name) && '"' !in text && NoBreak(text)
    ensures TextOf(JoinLines([name + "=" + Quote(true, text)]), name) == text
  {
    var line := name + "=" + Quote(true, text);
    var cfg := JoinLines([line]);
    assert NoBreak(line);
    SplitJoin([line]);
    ParseOfSetting(name, Quote(true, text));
    FirstIs(Parse(cfg), name, 0);
    OnlyLine(cfg, name, text);
  }

  /** And in every file: a value that is read back as something else, such as a single value with an equals
      sign, gets another copy every time. */
  lemma UnreadableGrows(cfg: string, name: string, v: Value)
    requires !Readable(v) && !(v.Single? && TakenWhole(v.val))
    ensures var again := Parse(Dump(Append(Parse(cfg), name, v))); Append(again, name, v) != again
  {
    EditSurvivesIff(cfg, name, v);
  }

  lemma OnlyLine(cfg: string, name: string, text: string)
    requires ValidName(name) && '"' !in text
    requires SplitLines(cfg) == [name + "=" + Quote(true, text)] && FirstOf(Parse(cfg), name) == 0
    ensures TextOf(cfg, name) == text
  {
    var line := name + "=" + Quote(true, text);
    assert line[|name|] == '=' && line[|name|] in line;
    IndexOfUnique(name, '=', Quote(true, text));
    assert line[|name| + 1..] == Quote(true, text);
    UnquotedOfQuote(true, text);
    StripPlain(text);
  }
}
