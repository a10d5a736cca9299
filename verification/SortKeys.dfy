/** Completing sort keys for paged listings. */
module SortKeys {
  import opened Wrappers

  datatype Sorting = Sorting(keys: seq<string>, dirs: seq<string>) | InvalidInput

  predicate ValidDir(d: string) { d == "asc" || d == "desc" }

  /** The first position of a key, or the length. */
  function Rank(keys: seq<string>, k: string): (r: nat)
    ensures r <= |keys| && (r < |keys| ==> keys[r] == k) && forall i | 0 <= i < r :: keys[i] != k
  {
    if keys == [] || keys[0] == k then 0 else 1 + Rank(keys[1..], k)
  }

  lemma RankOfNew(keys: seq<string>, n: nat, k: string)
    requires n < |keys| && k in keys[..n] && keys[n] !in keys[..n]
    ensures Rank(keys, k) < Rank(keys, keys[n]) == n
  {
    assert forall i | 0 <= i < n :: keys[i] in keys[..n];
  }

  /** The keys with the default keys they lack after them, in order, and a direction for each. */
  ghost predicate Completed(given: seq<string>, defaults: seq<string>, keys: seq<string>) {
    && given <= keys
    && (forall k :: k in keys <==> k in given || k in defaults)
    && (forall i, j | |given| <= j < |keys| && 0 <= i < j :: keys[i] != keys[j])
    && (forall i, j | |given| <= i < j < |keys| :: Rank(defaults, keys[i]) < Rank(defaults, keys[j]))
  }

  method AddDefaults(given: seq<string>, dirs0: seq<string>, defaults: seq<string>, fill: string)
      returns (keys: seq<string>, dirs: seq<string>)
    requires |dirs0| == |given|
    ensures Completed(given, defaults, keys)
    ensures |dirs| == |keys| && dirs0 <= dirs && forall i | |dirs0| <= i < |dirs| :: dirs[i] == fill
  {
    keys, dirs := given, dirs0;
    for n := 0 to |defaults|
      invariant |keys| == |dirs| && dirs0 <= dirs
      invariant forall i | |dirs0| <= i < |dirs| :: dirs[i] == fill
      invariant CompletedSoFar(given, defaults, n, keys)
    {
      CompletedNext(given, defaults, n, keys);
      if defaults[n] !in keys {
        keys := keys + [defaults[n]];
        dirs := dirs + [fill];
      }
    }
    assert defaults[..|defaults|] == defaults;
  }

  /** The same after the first `n` default keys. */
  ghost predicate CompletedSoFar(given: seq<string>, defaults: seq<string>, n: nat, keys: seq<string>)
    requires n <= |defaults|
  {
    && given <= keys && (forall k :: k in keys <==> k in given || k in defaults[..n])
    && (forall i, j | |given| <= j < |keys| && 0 <= i < j :: keys[i] != keys[j])
    && (forall i | |given| <= i < |keys| :: keys[i] in defaults[..n])
    && (forall i, j | |given| <= i < j < |keys| :: Rank(defaults, keys[i]) < Rank(defaults, keys[j]))
  }

  lemma CompletedNext(given: seq<string>, defaults: seq<string>, n: nat, keys: seq<string>)
    requires n < |defaults| && CompletedSoFar(given, defaults, n, keys)
    ensures CompletedSoFar(given, defaults, n + 1, if defaults[n] in keys then keys else keys + [defaults[n]])
  {
    assert defaults[..n + 1] == defaults[..n] + [defaults[n]];
    if defaults[n] !in keys {
      forall i | |given| <= i < |keys| ensures Rank(defaults, keys[i]) < Rank(defaults, defaults[n]) {
        RankOfNew(defaults, n, keys[i]);
      }
    }
  }

  /** The caller's keys and directions come first, unchanged; directions are completed with the first one
      given or the default; the default keys that are missing follow, in their own order. */
  method ProcessSortParams(
      sortKeys: seq<string>, sortDirs: seq<string>, defaultKeys: Option<seq<string>>, defaultDir: string)
      returns (r: Sorting)
    ensures r.InvalidInput? <==> |sortDirs| > |sortKeys| || exists d <- sortDirs :: !ValidDir(d)
    ensures r.Sorting? ==>
      && |r.keys| == |r.dirs|
      && Completed(sortKeys, if defaultKeys.Some? then defaultKeys.value else ["created_at", "id"], r.keys)
      && sortDirs <= r.dirs
      && (forall i | |sortDirs| <= i < |r.dirs| :: r.dirs[i] == if sortDirs != [] then sortDirs[0] else defaultDir)
  {
    var defaults := if defaultKeys.Some? then defaultKeys.value else ["created_at", "id"];
    var fill := if sortDirs != [] then sortDirs[0] else defaultDir;
    var dirs := [];
    for n := 0 to |sortDirs|
      invariant dirs == sortDirs[..n]
      invariant forall d <- sortDirs[..n] :: ValidDir(d)
    {
      if !ValidDir(sortDirs[n]) {
        return InvalidInput;
      }
      dirs := dirs + [sortDirs[n]];
    }
    assert dirs == sortDirs;
    while |dirs| < |sortKeys|
      invariant |sortDirs| <= |dirs| && (|dirs| <= |sortKeys| || dirs == sortDirs) && sortDirs <= dirs
      invariant forall i | |sortDirs| <= i < |dirs| :: dirs[i] == fill
    {
      dirs := dirs + [fill];
    }
    if |dirs| > |sortKeys| {
      return InvalidInput;
    }
    var keys;
    keys, dirs := AddDefaults(sortKeys, dirs, defaults, fill);
    r := Sorting(keys, dirs);
  }

  // ----- The order it defines ----------------------------------------------------------------

  /** A row as far as sorting looks at it: a value for every column. */
  type Row = string -> int

  /** The lexicographic order of the keys, each in its own direction. */
  predicate Before(keys: seq<string>, dirs: seq<string>, a: Row, b: Row)
    requires |keys| == |dirs|
  {
    keys != [] &&
    if a(keys[0]) != b(keys[0]) then
      if dirs[0] == "desc" then a(keys[0]) > b(keys[0]) else a(keys[0]) < b(keys[0])
    else Before(keys[1..], dirs[1..], a, b)
  }

  lemma {:induction false} BeforeTransitive(keys: seq<string>, dirs: seq<string>, a: Row, b: Row, c: Row)
    requires |keys| == |dirs| && Before(keys, dirs, a, b) && Before(keys, dirs, b, c)
    ensures Before(keys, dirs, a, c)
    decreases |keys|
  {
    if a(keys[0]) == b(keys[0]) == c(keys[0]) {
      BeforeTransitive(keys[1..], dirs[1..], a, b, c);
    }
  }

  lemma {:induction false} BeforeIrreflexive(keys: seq<string>, dirs: seq<string>, a: Row)
    requires |keys| == |dirs|
    ensures !Before(keys, dirs, a, a)
    decreases |keys|
  {
    if keys != [] { BeforeIrreflexive(keys[1..], dirs[1..], a); }
  }

  /** Two rows are comparable if and only if some key tells them apart. */
  lemma {:induction false} ComparableIff(keys: seq<string>, dirs: seq<string>, a: Row, b: Row)
    requires |keys| == |dirs|
    ensures Before(keys, dirs, a, b) || Before(keys, dirs, b, a) <==> exists k <- keys :: a(k) != b(k)
    decreases |keys|
  {
    if keys != [] {
      ComparableIff(keys[1..], dirs[1..], a, b);
      assert keys[0] in keys;
      if a(keys[0]) == b(keys[0]) {
        assert forall k <- keys :: k == keys[0] || k in keys[1..];
      }
    }
  }

  /** Whatever the mix of directions, accepted keys that include `id` order any set of rows with distinct
      ids strictly and totally: exactly one of two rows comes first, and the order is transitive. */
  lemma {:induction false} StrictTotalOrder(keys: seq<string>, dirs: seq<string>, a: Row, b: Row, c: Row)
    requires |keys| == |dirs| && "id" in keys && a("id") != b("id")
    ensures Before(keys, dirs, a, b) <==> !Before(keys, dirs, b, a)
    ensures Before(keys, dirs, a, b) && Before(keys, dirs, b, c) ==> Before(keys, dirs, a, c)
  {
    ComparableIff(keys, dirs, a, b);
    if Before(keys, dirs, a, b) && Before(keys, dirs, b, a) {
      BeforeTransitive(keys, dirs, a, b, a);
      BeforeIrreflexive(keys, dirs, a);
    }
    if Before(keys, dirs, a, b) && Before(keys, dirs, b, c) {
      BeforeTransitive(keys, dirs, a, b, c);
    }
  }
}
