/** Renaming Ethernet interfaces consistently across netplan files. */
module Netplan {
  import opened Wrappers

  // ----- "%d" ------------------------------------------------------------------------------

  function Digit(d: nat): char
    requires d < 10
  {
    ('0' as int + d) as char
  }

  function Decimal(n: nat): (s: string)
    ensures s != ""
  {
    if n < 10 then [Digit(n)] else Decimal(n / 10) + [Digit(n % 10)]
  }

  function ValueOf(s: string): int {
    if s == "" then 0 else ValueOf(s[..|s| - 1]) * 10 + (s[|s| - 1] as int - '0' as int)
  }

  lemma {:induction false} DecimalRoundTrip(n: nat)
    ensures ValueOf(Decimal(n)) == n
  {
    var s := Decimal(n);
    if n >= 10 {
      DecimalRoundTrip(n / 10);
      assert s[..|s| - 1] == Decimal(n / 10);
    } else {
      assert s[..0] == "";
    }
  }

  /** Digits only, and no leading zero. */
  lemma {:induction false} DecimalIsCanonical(n: nat)
    ensures forall c <- Decimal(n) :: '0' <= c <= '9'
    ensures n > 0 ==> Decimal(n)[0] != '0'
    ensures n == 0 ==> Decimal(n) == "0"
  {
    if n >= 10 {
      DecimalIsCanonical(n / 10);
    }
  }

  lemma NumberedNamesDiffer(prefix: string, i: nat, j: nat)
    requires i != j
    ensures prefix + Decimal(i) != prefix + Decimal(j)
  {
    DecimalRoundTrip(i);
    DecimalRoundTrip(j);
    assert (prefix + Decimal(i))[|prefix|..] == Decimal(i);
    assert (prefix + Decimal(j))[|prefix|..] == Decimal(j);
  }

  // ----- Files -------------------------------------------------------------------------------

  /** The configuration of an interface; `NoSettings` is a name with nothing after it. */
  datatype Iface = NoSettings | Iface(settings: map<string, string>)

  type Ethernets = seq<(string, Iface)>

  /** A file in the netplan directory: skipped (wrong extension, no network section, or another format
      version), an empty document, one whose version is no number, without an `ethernets` section, or with
      one. */
  datatype NetFile = Skipped | EmptyDocument | BadVersion | NoEthernets | WithEthernets(ifaces: Ethernets)

  /** The version of a network section: absent, empty or zero; a number, or text that reads as one; or neither. */
  datatype Version = Unset | Number(n: int) | NotANumber

  datatype Network = Network(version: Version, ethernets: Option<Ethernets>)

  /** A file as it lies in the directory: its name, and its document, which may be empty or have no network
      section. */
  datatype ConfFile = ConfFile(name: string, document: Option<Option<Network>>)

  predicate IsYaml(name: string) { |name| >= 5 && name[|name| - 5..] == ".yaml" }

  /** What the loop makes of a file before it looks at interfaces. It is skipped if and only if its name has
      another ending, or its document has no network section, or that section a version other than 2. */
  function Kind(f: ConfFile): (file: NetFile)
    ensures file.Skipped? <==>
      || !IsYaml(f.name)
      || (f.document.Some? &&
          (f.document.value.None? ||
           (var v := f.document.value.value.version; v.Unset? || (v.Number? && v.n != 2))))
    ensures file.WithEthernets? <==>
      && IsYaml(f.name) && f.document.Some? && f.document.value.Some? && f.document.value.value.version == Number(2)
      && f.document.value.value.ethernets.Some?
    ensures file.WithEthernets? ==> f.document.value.value.ethernets == Some(file.ifaces)
  {
    if !IsYaml(f.name) then Skipped
    else match f.document
      case None => EmptyDocument
      case Some(None) => Skipped
      case Some(Some(network)) =>
        if network.version.Unset? then Skipped
        else if network.version.NotANumber? then BadVersion
        else if network.version.n != 2 then Skipped
        else match network.ethernets
          case None => NoEthernets
          case Some(ifaces) => WithEthernets(ifaces)
  }

  function Kinds(confs: seq<ConfFile>): (files: seq<NetFile>)
    ensures |files| == |confs| && forall i | 0 <= i < |confs| :: files[i] == Kind(confs[i])
  {
    seq(|confs|, i requires 0 <= i < |confs| => Kind(confs[i]))
  }

  predicate AnyWithoutSettings(ifaces: Ethernets) {
    exists i :: 0 <= i < |ifaces| && ifaces[i].1.NoSettings?
  }

  /** The files on which the loop raises: there is nothing to look a key up in, no number to compare, no
      section to run over, or no mapping to set a flag in. */
  predicate Raises(file: NetFile, dhcp: bool) {
    match file
    case Skipped => false
    case EmptyDocument => true
    case BadVersion => true
    case NoEthernets => true
    case WithEthernets(ifaces) => dhcp && AnyWithoutSettings(ifaces)
  }

  /** The interface names of the files, in the order in which they are met. */
  function NamesIn(ifaces: Ethernets): (names: seq<string>)
    ensures |names| == |ifaces| && forall i | 0 <= i < |ifaces| :: names[i] == ifaces[i].0
  {
    seq(|ifaces|, i requires 0 <= i < |ifaces| => ifaces[i].0)
  }

  function NamesOf(files: seq<NetFile>): seq<string> {
    if files == [] then []
    else
      var rest, last := NamesOf(files[..|files| - 1]), files[|files| - 1];
      if last.WithEthernets? then rest + NamesIn(last.ifaces) else rest
  }

  // ----- The renaming, defined from the names alone --------------------------------------------

  /** An empty prefix means that nothing is renamed. */
  predicate Renamed(prefix: string, name: string) {
    prefix != "" && !(prefix <= name)
  }

  /** The names to be replaced, each once, in order of first appearance. */
  function FirstMet(prefix: string, names: seq<string>): (r: seq<string>)
    ensures forall x :: x in r <==> x in names && Renamed(prefix, x)
    ensures forall i, j | 0 <= i < j < |r| :: r[i] != r[j]
  {
    if names == [] then []
    else
      var rest, last := FirstMet(prefix, names[..|names| - 1]), names[|names| - 1];
      assert forall x :: x in names <==> x in names[..|names| - 1] || x == last;
      if Renamed(prefix, last) && last !in rest then rest + [last] else rest
  }

  function Position(xs: seq<string>, x: string): (k: nat)
    ensures k <= |xs| && (x in xs ==> k < |xs| && xs[k] == x)
  {
    if xs == [] || xs[0] == x then 0 else 1 + Position(xs[1..], x)
  }

  /** The new name: a name that carries the prefix stays, every other gets the number of distinct
      replaced names that were met before it. */
  function NewName(prefix: string, names: seq<string>, x: string): string {
    if Renamed(prefix, x) then prefix + Decimal(Position(FirstMet(prefix, names), x)) else x
  }

  lemma {:induction false} PositionAppend(xs: seq<string>, x: string, y: string)
    requires x in xs
    ensures Position(xs + [y], x) == Position(xs, x)
    decreases |xs|
  {
    assert (xs + [y])[0] == xs[0];
    if xs[0] != x {
      assert (xs + [y])[1..] == xs[1..] + [y];
      PositionAppend(xs[1..], x, y);
    }
  }

  lemma {:induction false} PositionLast(xs: seq<string>, y: string)
    requires y !in xs
    ensures Position(xs + [y], y) == |xs|
    decreases |xs|
  {
    if xs == [] {
      assert xs + [y] == [y];
    } else {
      assert (xs + [y])[1..] == xs[1..] + [y];
      PositionLast(xs[1..], y);
    }
  }

  lemma NewNameStep(prefix: string, names: seq<string>, y: string, x: string)
    requires x in names
    ensures NewName(prefix, names + [y], x) == NewName(prefix, names, x)
  {
    assert (names + [y])[..|names|] == names;
    if Renamed(prefix, x) {
      PositionAppend(FirstMet(prefix, names), x, y);
    }
  }

  /** A name keeps its new name when more names are met. */
  lemma {:induction false} NewNameStable(prefix: string, names: seq<string>, more: seq<string>, x: string)
    requires x in names
    ensures NewName(prefix, names + more, x) == NewName(prefix, names, x)
    decreases |more|
  {
    if more == [] {
      assert names + more == names;
    } else {
      var front, y := more[..|more| - 1], more[|more| - 1];
      NewNameStable(prefix, names, front, x);
      NewNameStep(prefix, names + front, y, x);
      assert names + more == names + front + [y];
    }
  }

  /** Two different interfaces that are renamed get different names. */
  lemma RenamedNamesDiffer(prefix: string, names: seq<string>, a: string, b: string)
    requires a in names && b in names && a != b && Renamed(prefix, a) && Renamed(prefix, b)
    ensures NewName(prefix, names, a) != NewName(prefix, names, b)
  {
    var firsts := FirstMet(prefix, names);
    NumberedNamesDiffer(prefix, Position(firsts, a), Position(firsts, b));
  }

  lemma {:induction false} PositionOf(xs: seq<string>, k: nat)
    requires k < |xs| && forall i, j | 0 <= i < j < |xs| :: xs[i] != xs[j]
    ensures Position(xs, xs[k]) == k
    decreases |xs|
  {
    if k > 0 {
      assert xs[0] != xs[k];
      assert xs[1..][k - 1] == xs[k];
      PositionOf(xs[1..], k - 1);
    }
  }

  /** Distinct interfaces of all files keep distinct names. */
  predicate Injective(prefix: string, names: seq<string>) {
    forall a, b | a in names && b in names && a != b :: NewName(prefix, names, a) != NewName(prefix, names, b)
  }

  /** No interface that keeps its name is called by the prefix and a number below the count of those that
      do not. */
  predicate NoNumberTaken(prefix: string, names: seq<string>) {
    forall a, i: nat | a in names && !Renamed(prefix, a) && i < |FirstMet(prefix, names)| :: a != prefix + Decimal(i)
  }

  lemma NumberIsGiven(prefix: string, names: seq<string>, i: nat)
    requires i < |FirstMet(prefix, names)|
    ensures var b := FirstMet(prefix, names)[i];
      b in names && Renamed(prefix, b) && NewName(prefix, names, b) == prefix + Decimal(i)
  {
    var firsts := FirstMet(prefix, names);
    assert firsts[i] in firsts;
    PositionOf(firsts, i);
  }

  lemma NumberTaken(prefix: string, names: seq<string>, a: string, i: nat)
    requires Injective(prefix, names) && a in names && !Renamed(prefix, a) && i < |FirstMet(prefix, names)|
    ensures a != prefix + Decimal(i)
  {
    NumberIsGiven(prefix, names, i);
    var b := FirstMet(prefix, names)[i];
    assert a != b;
    assert NewName(prefix, names, a) == a;
  }

  lemma KeptIsNotGiven(prefix: string, names: seq<string>, a: string, b: string)
    requires NoNumberTaken(prefix, names) && a in names && b in names && !Renamed(prefix, a) && Renamed(prefix, b)
    ensures NewName(prefix, names, a) != NewName(prefix, names, b)
  {
    var firsts := FirstMet(prefix, names);
    assert b in firsts;
    assert Position(firsts, b) < |firsts|;
  }

  /** Across all files, no two interfaces end up with the same name if and only if none that keeps its name
      has one of the numbers that are handed out. */
  lemma InjectiveIff(prefix: string, names: seq<string>)
    ensures Injective(prefix, names) <==> NoNumberTaken(prefix, names)
  {
    if NoNumberTaken(prefix, names) {
      forall a, b | a in names && b in names && a != b ensures NewName(prefix, names, a) != NewName(prefix, names, b) {
        if Renamed(prefix, a) && Renamed(prefix, b) {
          RenamedNamesDiffer(prefix, names, a, b);
        } else if Renamed(prefix, b) {
          KeptIsNotGiven(prefix, names, a, b);
        } else if Renamed(prefix, a) {
          KeptIsNotGiven(prefix, names, b, a);
        }
      }
    }
    if Injective(prefix, names) {
      forall a, i: nat | a in names && !Renamed(prefix, a) && i < |FirstMet(prefix, names)|
        ensures a != prefix + Decimal(i)
      {
        NumberTaken(prefix, names, a, i);
      }
    }
  }

  // ----- Rewriting one file ----------------------------------------------------------------------

  function Adjusted(c: Iface, dhcp: bool): Iface {
    if dhcp && c.Iface? then Iface(c.settings["dhcp4" := "true"]["dhcp6" := "true"]) else c
  }

  /** With dhcp set both of its settings are on, and all others are as they were. */
  lemma AdjustedSettings(c: Iface, dhcp: bool)
    ensures !dhcp ==> Adjusted(c, dhcp) == c
    ensures dhcp && c.Iface? ==>
      && Adjusted(c, dhcp).Iface?
      && var after := Adjusted(c, dhcp).settings;
      && after.Keys == c.settings.Keys + {"dhcp4", "dhcp6"} && after["dhcp4"] == "true" && after["dhcp6"] == "true"
      && forall k <- c.settings :: k != "dhcp4" && k != "dhcp6" ==> after[k] == c.settings[k]
  {
  }

  /** The interfaces under their new names, in order. */
  function Moved(prefix: string, names: seq<string>, ifaces: Ethernets, dhcp: bool): (r: Ethernets)
    ensures |r| == |ifaces|
    ensures forall i | 0 <= i < |ifaces| :: r[i] == (NewName(prefix, names, ifaces[i].0), Adjusted(ifaces[i].1, dhcp))
  {
    seq(|ifaces|, i requires 0 <= i < |ifaces| => (NewName(prefix, names, ifaces[i].0), Adjusted(ifaces[i].1, dhcp)))
  }

  /** A mapping filled entry by entry: a later entry replaces an earlier one with the same key. */
  function Filled(entries: Ethernets): map<string, Iface> {
    if entries == [] then map[]
    else Filled(entries[..|entries| - 1])[entries[|entries| - 1].0 := entries[|entries| - 1].1]
  }

  function Rewritten(prefix: string, names: seq<string>, ifaces: Ethernets, dhcp: bool): map<string, Iface> {
    Filled(Moved(prefix, names, ifaces, dhcp))
  }

  lemma RewrittenStable(prefix: string, names: seq<string>, more: seq<string>, ifaces: Ethernets, dhcp: bool)
    requires forall i | 0 <= i < |ifaces| :: ifaces[i].0 in names
    ensures Rewritten(prefix, names + more, ifaces, dhcp) == Rewritten(prefix, names, ifaces, dhcp)
  {
    forall i | 0 <= i < |ifaces|
      ensures NewName(prefix, names + more, ifaces[i].0) == NewName(prefix, names, ifaces[i].0)
    {
      NewNameStable(prefix, names, more, ifaces[i].0);
    }
    assert Moved(prefix, names + more, ifaces, dhcp) == Moved(prefix, names, ifaces, dhcp);
  }

  /** No interface that keeps its name has the name that another one of the file is given. */
  predicate NoClash(prefix: string, names: seq<string>, ifaces: Ethernets) {
    forall i, j | 0 <= i < |ifaces| && 0 <= j < |ifaces| ::
      !Renamed(prefix, ifaces[i].0) && Renamed(prefix, ifaces[j].0) ==>
        ifaces[i].0 != NewName(prefix, names, ifaces[j].0)
  }

  predicate DistinctNames(ifaces: Ethernets) {
    forall i, j | 0 <= i < j < |ifaces| :: ifaces[i].0 != ifaces[j].0
  }

  /** Distinct interfaces that are renamed get distinct names, so only an interface that keeps its
      name can meet another one's new name. */
  lemma DistinctIffNoClash(prefix: string, names: seq<string>, ifaces: Ethernets, dhcp: bool)
    requires DistinctNames(ifaces) && forall i | 0 <= i < |ifaces| :: ifaces[i].0 in names
    ensures DistinctNames(Moved(prefix, names, ifaces, dhcp)) <==> NoClash(prefix, names, ifaces)
  {
    var moved := Moved(prefix, names, ifaces, dhcp);
    if NoClash(prefix, names, ifaces) {
      forall i, j | 0 <= i < j < |ifaces| ensures moved[i].0 != moved[j].0 {
        if Renamed(prefix, ifaces[i].0) && Renamed(prefix, ifaces[j].0) {
          RenamedNamesDiffer(prefix, names, ifaces[i].0, ifaces[j].0);
        }
      }
    }
    if DistinctNames(moved) {
      forall i, j | 0 <= i < |ifaces| && 0 <= j < |ifaces|
                    && !Renamed(prefix, ifaces[i].0) && Renamed(prefix, ifaces[j].0)
        ensures ifaces[i].0 != NewName(prefix, names, ifaces[j].0)
      {
        assert i != j;
        assert moved[i].0 != moved[j].0;
      }
    }
  }

  lemma {:induction false} FilledEntries(entries: Ethernets)
    ensures forall i | 0 <= i < |entries| :: entries[i].0 in Filled(entries)
    ensures forall k <- Filled(entries) :: exists i :: 0 <= i < |entries| && entries[i] == (k, Filled(entries)[k])
    decreases |entries|
  {
    if entries != [] {
      var n := |entries| - 1;
      FilledEntries(entries[..n]);
      var before, after := Filled(entries[..n]), Filled(entries);
      forall i | 0 <= i < |entries| ensures entries[i].0 in after {
        if i < n { assert entries[..n][i].0 in before; }
      }
      forall k | k in after ensures exists i :: 0 <= i < |entries| && entries[i] == (k, after[k]) {
        if k == entries[n].0 {
          assert entries[n] == (k, after[k]);
        } else {
          var i :| 0 <= i < n && entries[..n][i] == (k, before[k]);
          assert entries[i] == (k, after[k]);
        }
      }
    }
  }

  lemma DistinctLast(entries: Ethernets)
    requires entries != []
    ensures var n := |entries| - 1;
      DistinctNames(entries) <==> DistinctNames(entries[..n]) && entries[n].0 !in Filled(entries[..n])
  {
    var n := |entries| - 1;
    FilledEntries(entries[..n]);
    if entries[n].0 !in Filled(entries[..n]) {
      assert forall i | 0 <= i < n :: entries[..n][i].0 == entries[i].0 && entries[i].0 != entries[n].0;
    }
  }

  /** Filling keeps every entry if and only if the keys are distinct. */
  lemma {:induction false} FilledSize(entries: Ethernets)
    ensures |Filled(entries)| <= |entries|
    ensures |Filled(entries)| == |entries| <==> DistinctNames(entries)
    decreases |entries|
  {
    if entries != [] {
      var n := |entries| - 1;
      FilledSize(entries[..n]);
      DistinctLast(entries);
      var before, after := Filled(entries[..n]), Filled(entries);
      if entries[n].0 in before {
        assert after.Keys == before.Keys;
      } else {
        assert after.Keys == before.Keys + {entries[n].0};
      }
    }
  }

  /** No interface configuration of a file is lost if and only if no interface that keeps its name has
      the name another one is given; and then each is found, adjusted, under its new name. */
  lemma NothingLostIff(prefix: string, names: seq<string>, ifaces: Ethernets, dhcp: bool)
    requires DistinctNames(ifaces) && forall i | 0 <= i < |ifaces| :: ifaces[i].0 in names
    ensures var out := Rewritten(prefix, names, ifaces, dhcp);
      && (|out| == |ifaces| <==> NoClash(prefix, names, ifaces))
      && (NoClash(prefix, names, ifaces) ==> forall i | 0 <= i < |ifaces| ::
            var name := NewName(prefix, names, ifaces[i].0); name in out && out[name] == Adjusted(ifaces[i].1, dhcp))
  {
    var moved := Moved(prefix, names, ifaces, dhcp);
    DistinctIffNoClash(prefix, names, ifaces, dhcp);
    FilledSize(moved);
    FilledEntries(moved);
    if DistinctNames(moved) {
      forall i | 0 <= i < |ifaces| ensures Filled(moved)[moved[i].0] == moved[i].1 {
        var k :| 0 <= k < |moved| && moved[k] == (moved[i].0, Filled(moved)[moved[i].0]);
        assert k == i;
      }
    }
  }

  /** In particular nothing is lost where no original name carries the prefix. */
  lemma NothingLostWithoutPrefix(prefix: string, names: seq<string>, ifaces: Ethernets, dhcp: bool)
    requires DistinctNames(ifaces) && forall i | 0 <= i < |ifaces| :: ifaces[i].0 in names && !(prefix <= ifaces[i].0)
    ensures |Rewritten(prefix, names, ifaces, dhcp)| == |ifaces|
  {
    NothingLostIff(prefix, names, ifaces, dhcp);
  }

  /** Two interfaces in one file of which one is lost: `eth0` stays, `ens3` becomes `eth0`. */
  lemma InterfaceLost(a: Iface, b: Iface)
    ensures |Rewritten("eth", ["eth0", "ens3"], [("eth0", a), ("ens3", b)], false)| < 2
  {
    var names, ifaces := ["eth0", "ens3"], [("eth0", a), ("ens3", b)];
    assert names[..1] == ["eth0"] && names[..1][..0] == [];
    assert FirstMet("eth", []) == [];
    assert Renamed("eth", "ens3") by { assert "ens3"[1] != "eth"[1]; }
    assert !Renamed("eth", "eth0") by { assert "eth0"[..3] == "eth"; }
    assert FirstMet("eth", ["eth0"]) == [];
    assert FirstMet("eth", names) == ["ens3"];
    assert NewName("eth", names, "ens3") == "eth" + Decimal(0) == "eth0";
    NothingLostIff("eth", names, ifaces, false);
    assert ifaces[0].0 == NewName("eth", names, ifaces[1].0);
    FilledSize(Moved("eth", names, ifaces, false));
  }

  // ----- All files, as the source runs over them -------------------------------------------------------

  /** The files on which the loop does not raise: those that it skips, and those with interfaces to run over
      that all have settings if they are to be set. */
  predicate Accepts(f: ConfFile, dhcp: bool) {
    || Kind(f).Skipped?
    || (Kind(f).WithEthernets? && (dhcp ==> forall entry <- Kind(f).ifaces :: entry.1 != NoSettings))
  }

  lemma AcceptsIff(f: ConfFile, dhcp: bool)
    ensures Accepts(f, dhcp) <==> !Raises(Kind(f), dhcp)
  {
  }

  /** The new `ethernets` section of every file up to the first one that raises. Every file written agrees
      with the one renaming that all files' names determine. */
  method SetEthernetConfigs(confs: seq<ConfFile>, prefix: string, dhcp: bool)
      returns (ok: bool, written: seq<Option<map<string, Iface>>>)
    ensures ok <==> forall f <- confs :: Accepts(f, dhcp)
    ensures |written| <= |confs| && forall i | 0 <= i < |written| :: Accepts(confs[i], dhcp)
    ensures if ok then |written| == |confs| else |written| < |confs| && !Accepts(confs[|written|], dhcp)
    ensures forall i | 0 <= i < |written| ::
      WrittenBy(Kind(confs[i]), NamesOf(Kinds(confs)), prefix, dhcp, written[i])
  {
    var files := Kinds(confs);
    forall f ensures Accepts(f, dhcp) <==> !Raises(Kind(f), dhcp) { AcceptsIff(f, dhcp); }
    var index: nat, processed: map<string, string> := 0, map[];
    written := [];
    RenamingStart(prefix);
    assert files[..0] == [];
    for n := 0 to |files|
      invariant |written| == n && forall i | 0 <= i < n :: !Raises(files[i], dhcp)
      invariant Renaming(prefix, NamesOf(files[..n]), index, processed)
      invariant WrittenSoFar(files, prefix, dhcp, written)
    {
      var done, section;
      done, section, index, processed := HandleFile(files, n, prefix, dhcp, index, processed);
      if !done {
        AllAgree(files, prefix, dhcp, written);
        return false, written;
      }
      WrittenOneMore(files, prefix, dhcp, written, section);
      written := written + [section];
    }
    AllAgree(files, prefix, dhcp, written);
    ok := true;
  }

  method HandleFile(
      files: seq<NetFile>, n: nat, prefix: string, dhcp: bool, index0: nat, processed0: map<string, string>)
      returns (done: bool, section: Option<map<string, Iface>>, index: nat, processed: map<string, string>)
    requires n < |files|
    requires Renaming(prefix, NamesOf(files[..n]), index0, processed0)
    ensures done <==> !Raises(files[n], dhcp)
    ensures done ==> WrittenBy(files[n], NamesOf(files[..n + 1]), prefix, dhcp, section)
    ensures done ==> Renaming(prefix, NamesOf(files[..n + 1]), index, processed)
  {
    done, section, index, processed := false, None, index0, processed0;
    NamesStep(files, n);
    match files[n] {
      case Skipped =>
        done := true;
      case EmptyDocument =>
      case BadVersion =>
      case NoEthernets =>
      case WithEthernets(ifaces) =>
        // A section is written only after all its interfaces, so it does not matter which of them raises.
        if !dhcp || !AnyWithoutSettings(ifaces) {
          var ethernets;
          ethernets, index, processed := RewriteFile(ifaces, prefix, dhcp, index0, processed0, NamesOf(files[..n]));
          done, section := true, Some(ethernets);
        }
    }
  }

  lemma NamesStep(files: seq<NetFile>, n: nat)
    requires n < |files|
    ensures NamesOf(files[..n + 1]) ==
              if files[n].WithEthernets? then NamesOf(files[..n]) + NamesIn(files[n].ifaces) else NamesOf(files[..n])
  {
    assert files[..n + 1][..n] == files[..n];
  }

  /** The loop's two variables: how many names were replaced so far, and the name each got. */
  ghost predicate Renaming(prefix: string, names: seq<string>, index: nat, processed: map<string, string>) {
    && index == |FirstMet(prefix, names)|
    && forall x :: (x in processed <==> x in names) && (x in names ==> processed[x] == NewName(prefix, names, x))
  }

  lemma RenamingStart(prefix: string)
    ensures Renaming(prefix, [], 0, map[])
  {
  }

  predicate WrittenSoFar(files: seq<NetFile>, prefix: string, dhcp: bool, written: seq<Option<map<string, Iface>>>) {
    |written| <= |files| &&
    forall i | 0 <= i < |written| :: WrittenBy(files[i], NamesOf(files[..i + 1]), prefix, dhcp, written[i])
  }

  lemma WrittenOneMore(
      files: seq<NetFile>, prefix: string, dhcp: bool, written: seq<Option<map<string, Iface>>>,
      w: Option<map<string, Iface>>)
    requires |written| < |files| && WrittenSoFar(files, prefix, dhcp, written)
    requires WrittenBy(files[|written|], NamesOf(files[..|written| + 1]), prefix, dhcp, w)
    ensures WrittenSoFar(files, prefix, dhcp, written + [w])
  {
  }

  /** What is written for a file, given the names that determine the renaming. */
  predicate WrittenBy(file: NetFile, names: seq<string>, prefix: string, dhcp: bool, w: Option<map<string, Iface>>) {
    match file
    case WithEthernets(ifaces) => w == Some(Rewritten(prefix, names, ifaces, dhcp))
    case _ => w == None
  }

  method RewriteFile(
      ifaces: Ethernets, prefix: string, dhcp: bool, index0: nat, processed0: map<string, string>,
      ghost names: seq<string>)
      returns (section: map<string, Iface>, index: nat, processed: map<string, string>)
    requires Renaming(prefix, names, index0, processed0)
    ensures section == Rewritten(prefix, names + NamesIn(ifaces), ifaces, dhcp)
    ensures Renaming(prefix, names + NamesIn(ifaces), index, processed)
  {
    section, index, processed := map[], index0, processed0;
    assert names + NamesIn(ifaces[..0]) == names;
    for k := 0 to |ifaces|
      invariant section == Rewritten(prefix, MetBy(names, ifaces, k), ifaces[..k], dhcp)
      invariant Renaming(prefix, MetBy(names, ifaces, k), index, processed)
    {
      var newName;
      newName, index, processed := RenameOne(ifaces[k].0, prefix, index, processed, MetBy(names, ifaces, k));
      RewrittenStep(prefix, names, ifaces, k, dhcp);
      section := section[newName := Adjusted(ifaces[k].1, dhcp)];
    }
    assert ifaces[..|ifaces|] == ifaces;
  }

  /** The names met when `k` interfaces of a file have been handled. */
  function MetBy(names: seq<string>, ifaces: Ethernets, k: nat): seq<string>
    requires k <= |ifaces|
  {
    names + NamesIn(ifaces[..k])
  }

  method RenameOne(name: string, prefix: string, index0: nat, processed0: map<string, string>, ghost names: seq<string>)
      returns (newName: string, index: nat, processed: map<string, string>)
    requires Renaming(prefix, names, index0, processed0)
    ensures newName == NewName(prefix, names + [name], name)
    ensures Renaming(prefix, names + [name], index, processed)
  {
    newName, index := name, index0;
    if prefix != "" && !(prefix <= name) {
      if name in processed0 {
        newName := processed0[name];
      } else {
        newName := prefix + Decimal(index);
        index := index + 1;
      }
    }
    RenamingStep(prefix, names, name);
    processed := processed0[name := newName];
  }

  lemma RenamingStep(prefix: string, names: seq<string>, x: string)
    ensures forall y <- names :: NewName(prefix, names + [x], y) == NewName(prefix, names, y)
    ensures FirstMet(prefix, names + [x]) ==
              if Renamed(prefix, x) && x !in names then FirstMet(prefix, names) + [x] else FirstMet(prefix, names)
    ensures x !in names && Renamed(prefix, x) ==>
              NewName(prefix, names + [x], x) == prefix + Decimal(|FirstMet(prefix, names)|)
  {
    forall y | y in names ensures NewName(prefix, names + [x], y) == NewName(prefix, names, y) {
      NewNameStep(prefix, names, x, y);
    }
    assert (names + [x])[..|names|] == names;
    if x !in names { PositionLast(FirstMet(prefix, names), x); }
  }

  lemma RewrittenStep(prefix: string, names: seq<string>, ifaces: Ethernets, k: nat, dhcp: bool)
    requires k < |ifaces|
    ensures MetBy(names, ifaces, k + 1) == MetBy(names, ifaces, k) + [ifaces[k].0]
    ensures Rewritten(prefix, MetBy(names, ifaces, k + 1), ifaces[..k + 1], dhcp) ==
            Rewritten(prefix, MetBy(names, ifaces, k), ifaces[..k], dhcp)
              [NewName(prefix, MetBy(names, ifaces, k + 1), ifaces[k].0) := Adjusted(ifaces[k].1, dhcp)]
  {
    var before, after := MetBy(names, ifaces, k), MetBy(names, ifaces, k + 1);
    assert after == before + [ifaces[k].0];
    forall i | 0 <= i < k ensures ifaces[..k][i].0 in before {
      assert NamesIn(ifaces[..k])[i] in before;
    }
    RewrittenStable(prefix, before, [ifaces[k].0], ifaces[..k], dhcp);
    var all := Moved(prefix, after, ifaces[..k + 1], dhcp);
    assert all[..k] == Moved(prefix, after, ifaces[..k], dhcp);
  }

  /** What was written with the names met so far is what all the names together determine. */
  lemma AllAgree(files: seq<NetFile>, prefix: string, dhcp: bool, written: seq<Option<map<string, Iface>>>)
    requires WrittenSoFar(files, prefix, dhcp, written)
    ensures forall i | 0 <= i < |written| :: WrittenBy(files[i], NamesOf(files), prefix, dhcp, written[i])
  {
    forall i | 0 <= i < |written| ensures WrittenBy(files[i], NamesOf(files), prefix, dhcp, written[i]) {
      assert WrittenBy(files[i], NamesOf(files[..i + 1]), prefix, dhcp, written[i]);
      if files[i].WithEthernets? {
        FileStable(files, i, prefix, dhcp);
      }
    }
  }

  lemma FileStable(files: seq<NetFile>, i: nat, prefix: string, dhcp: bool)
    requires i < |files| && files[i].WithEthernets?
    ensures Rewritten(prefix, NamesOf(files), files[i].ifaces, dhcp) ==
            Rewritten(prefix, NamesOf(files[..i + 1]), files[i].ifaces, dhcp)
  {
    NamesStep(files, i);
    var more := NamesGrow(files, i + 1);
    forall j | 0 <= j < |files[i].ifaces| ensures files[i].ifaces[j].0 in NamesOf(files[..i + 1]) {
      assert NamesIn(files[i].ifaces)[j] in NamesOf(files[..i + 1]);
    }
    RewrittenStable(prefix, NamesOf(files[..i + 1]), more, files[i].ifaces, dhcp);
  }

  lemma {:induction false} NamesGrow(files: seq<NetFile>, n: nat) returns (more: seq<string>)
    requires n <= |files|
    ensures NamesOf(files) == NamesOf(files[..n]) + more
    decreases |files|
  {
    if n == |files| {
      assert files[..n] == files;
      more := [];
    } else {
      var front := files[..|files| - 1];
      var most := NamesGrow(front, n);
      assert front[..n] == files[..n];
      more := if files[|files| - 1].WithEthernets? then most + NamesIn(files[|files| - 1].ifaces) else most;
    }
  }
}
