/** `walk_class_hierarchy` and the fault map built from it. */
module ClassWalk {

  type Class = string

  /** The direct subclasses of every class. */
  type Hierarchy = map<Class, seq<Class>>

  predicate Closed(g: Hierarchy) {
    forall c <- g, s <- g[c] :: s in g
  }

  function Subs(g: Hierarchy, c: Class): seq<Class> {
    if c in g then g[c] else []
  }

  /** `path` leads from `a` down to `b`, one subclass at a time. */
  ghost predicate Leads(g: Hierarchy, a: Class, path: seq<Class>, b: Class)
    decreases |path|
  {
    && path != [] && path[0] in Subs(g, a)
    && if |path| == 1 then path[0] == b else Leads(g, path[0], path[1..], b)
  }

  /** `b` is a strict descendant of `a`. */
  ghost predicate Below(g: Hierarchy, a: Class, b: Class) {
    exists path :: Leads(g, a, path, b)
  }

  ghost predicate Acyclic(g: Hierarchy) {
    forall c :: !Below(g, c, c)
  }

  lemma ChildIsBelow(g: Hierarchy, a: Class, s: Class)
    requires s in Subs(g, a)
    ensures Below(g, a, s)
  {
    assert Leads(g, a, [s], s);
  }

  lemma {:induction false} LeadsTransitive(g: Hierarchy, a: Class, p: seq<Class>, b: Class, q: seq<Class>, c: Class)
    requires Leads(g, a, p, b) && Leads(g, b, q, c)
    ensures Leads(g, a, p + q, c)
    decreases |p|
  {
    if |p| == 1 {
      assert (p + q)[1..] == q;
    } else {
      LeadsTransitive(g, p[0], p[1..], b, q, c);
      assert (p + q)[1..] == p[1..] + q;
    }
  }

  lemma BelowTransitive(g: Hierarchy, a: Class, b: Class, c: Class)
    requires Below(g, a, b) && Below(g, b, c)
    ensures Below(g, a, c)
  {
    var p :| Leads(g, a, p, b);
    var q :| Leads(g, b, q, c);
    LeadsTransitive(g, a, p, b, q, c);
  }

  predicate NoRepeats(out: seq<Class>) {
    forall i, j :: 0 <= i < j < |out| ==> out[i] != out[j]
  }

  /** Every class comes after all its direct subclasses. */
  predicate ChildrenFirst(g: Hierarchy, out: seq<Class>) {
    forall i, s | 0 <= i < |out| && s in Subs(g, out[i]) :: s in out[..i]
  }

  function Elems(s: seq<Class>): set<Class> { set x <- s }

  /** A walk under way: `stack` holds the classes that were encountered but not yet yielded, those
      the walk is currently below. */
  ghost predicate Midway(g: Hierarchy, encountered: seq<Class>, yielded: seq<Class>, stack: set<Class>) {
    && Closed(g) && Acyclic(g)
    && Elems(encountered) == Elems(yielded) + stack && Elems(yielded) !! stack
    && Elems(encountered) <= g.Keys
    && NoRepeats(yielded) && ChildrenFirst(g, yielded)
  }

  lemma Enter(g: Hierarchy, encountered: seq<Class>, yielded: seq<Class>, stack: set<Class>, s: Class)
    requires Midway(g, encountered, yielded, stack) && s !in encountered && s in g
    ensures Midway(g, encountered + [s], yielded, stack + {s})
    ensures Elems(encountered + [s]) == Elems(encountered) + {s} && s !in Elems(encountered)
  {
  }

  lemma Leave(g: Hierarchy, encountered: seq<Class>, yielded: seq<Class>, stack: set<Class>, s: Class)
    requires Midway(g, encountered, yielded, stack + {s}) && s !in stack && forall t <- Subs(g, s) :: t in yielded
    ensures Midway(g, encountered, yielded + [s], stack)
  {
    AppendYield(g, yielded, s);
    assert Elems(yielded + [s]) == Elems(yielded) + {s};
  }

  /** The walk's shared state: the list of encountered classes, and what has been yielded. */
  class Walker {
    const g: Hierarchy
    var encountered: seq<Class>
    var yielded: seq<Class>

    constructor(g: Hierarchy)
      ensures this.g == g && encountered == [] && yielded == []
    {
      this.g := g;
      encountered, yielded := [], [];
    }

    ghost predicate Consistent(stack: set<Class>)
      reads this
    {
      Midway(g, encountered, yielded, stack)
    }

    method Walk(c: Class, ghost stack: set<Class>)
      requires Consistent(stack) && c in g
      requires forall x <- stack :: x == c || Below(g, x, c)
      modifies this
      ensures Consistent(stack)
      ensures Elems(old(encountered)) <= Elems(encountered) && old(yielded) <= yielded
      ensures forall s <- Subs(g, c) :: s in yielded
      ensures forall x <- yielded :: x in old(yielded) || Below(g, c, x)
      decreases g.Keys - Elems(encountered), 1
    {
      var subclasses := g[c];
      for k := 0 to |subclasses|
        invariant Consistent(stack)
        invariant Elems(old(encountered)) <= Elems(encountered) && old(yielded) <= yielded
        invariant forall i | 0 <= i < k :: subclasses[i] in yielded
        invariant forall x <- yielded :: x in old(yielded) || Below(g, c, x)
      {
        if subclasses[k] !in encountered {
          label pre:
          Visit(c, subclasses[k], stack);
          assert forall i | 0 <= i < k :: subclasses[i] in old@pre(yielded);
        } else {
          NotOnStack(g, c, subclasses[k], stack);
          assert subclasses[k] in Elems(encountered);
        }
      }
    }

    /** One subclass that has not been encountered: drill down, then yield it. */
    method Visit(c: Class, subclass: Class, ghost stack: set<Class>)
      requires Consistent(stack) && c in g && subclass in Subs(g, c) && subclass !in encountered
      requires forall x <- stack :: x == c || Below(g, x, c)
      modifies this
      ensures Consistent(stack)
      ensures Elems(old(encountered)) <= Elems(encountered) && old(yielded) <= yielded
      ensures subclass in yielded
      ensures forall x <- yielded :: x in old(yielded) || Below(g, c, x)
      decreases g.Keys - Elems(encountered), 0
    {
      ghost var was := encountered;
      Enter(g, encountered, yielded, stack, subclass);
      assert subclass !in stack by { assert subclass !in Elems(encountered); }
      encountered := encountered + [subclass];
      StackStaysAbove(g, c, subclass, stack);
      assert subclass in g.Keys - Elems(was);
      Walk(subclass, stack + {subclass});
      ghost var inner := yielded;
      Leave(g, encountered, yielded, stack, subclass);
      yielded := yielded + [subclass];
      NewBelow(g, c, subclass, old(yielded), inner);
    }
  }

  lemma NewBelow(g: Hierarchy, c: Class, s: Class, before: seq<Class>, inner: seq<Class>)
    requires s in Subs(g, c) && forall x <- inner :: x in before || Below(g, s, x)
    ensures forall x <- inner + [s] :: x in before || Below(g, c, x)
  {
    ChildIsBelow(g, c, s);
    forall x | x in inner + [s] && x !in before && x != s ensures Below(g, c, x) {
      assert x in inner;
      BelowTransitive(g, c, s, x);
    }
  }

  lemma AppendYield(g: Hierarchy, out: seq<Class>, c: Class)
    requires NoRepeats(out) && ChildrenFirst(g, out)
    requires c !in Elems(out) && forall s <- Subs(g, c) :: s in out
    ensures NoRepeats(out + [c]) && ChildrenFirst(g, out + [c])
  {
    var longer := out + [c];
    forall i, s | 0 <= i < |longer| && s in Subs(g, longer[i]) ensures s in longer[..i] {
      if i < |out| {
        assert longer[i] == out[i] && longer[..i] == out[..i];
      } else {
        assert longer[..i] == out;
      }
    }
  }

  lemma StackStaysAbove(g: Hierarchy, c: Class, s: Class, stack: set<Class>)
    requires s in Subs(g, c)
    requires forall x <- stack :: x == c || Below(g, x, c)
    ensures forall x <- stack + {s} :: x == s || Below(g, x, s)
  {
    ChildIsBelow(g, c, s);
    forall x | x in stack && x != s ensures Below(g, x, s) {
      if x != c { BelowTransitive(g, x, c, s); }
    }
  }

  /** In an acyclic hierarchy a subclass is never one of the classes the walk is below. */
  lemma NotOnStack(g: Hierarchy, c: Class, s: Class, stack: set<Class>)
    requires Acyclic(g) && s in Subs(g, c)
    requires forall x <- stack :: x == c || Below(g, x, c)
    ensures s !in stack
  {
    if s in stack {
      ChildIsBelow(g, c, s);
      if s != c { BelowTransitive(g, s, c, s); }
    }
  }

  // ----- The whole walk ----------------------------------------------------------------------

  /** Every class comes after all its descendants, not only after its direct subclasses. */
  lemma {:induction false} DescendantsFirst(g: Hierarchy, out: seq<Class>, i: nat, path: seq<Class>, b: Class)
    requires ChildrenFirst(g, out) && i < |out| && Leads(g, out[i], path, b)
    ensures b in out[..i]
    decreases |path|
  {
    assert path[0] in out[..i];
    if |path| > 1 {
      var k :| 0 <= k < i && out[k] == path[0];
      DescendantsFirst(g, out, k, path[1..], b);
      assert forall x <- out[..k] :: x in out[..i];
    }
  }

  /** The walk yields every strict descendant of the root exactly once, and nothing else; whatever
      comes earlier in the result is never an ancestor of what comes later. */
  method WalkClassHierarchy(g: Hierarchy, root: Class) returns (out: seq<Class>)
    requires Closed(g) && Acyclic(g) && root in g
    ensures NoRepeats(out)
    ensures forall x :: x in out <==> Below(g, root, x)
    ensures forall i, j | 0 <= i < j < |out| :: !Below(g, out[i], out[j])
  {
    var walker := new Walker(g);
    walker.Walk(root, {});
    out := walker.yielded;
    forall x | Below(g, root, x) ensures x in out {
      var path :| Leads(g, root, path, x);
      if |path| > 1 {
        var k :| 0 <= k < |out| && out[k] == path[0];
        DescendantsFirst(g, out, k, path[1..], x);
      }
    }
    forall i, j | 0 <= i < j < |out| ensures !Below(g, out[i], out[j]) {
      if Below(g, out[i], out[j]) {
        var path :| Leads(g, out[i], path, out[j]);
        DescendantsFirst(g, out, i, path, out[j]);
      }
    }
  }

  // ----- The fault map -----------------------------------------------------------------------------

  /** For every status code of a walked class the map holds a class with that code none of whose
      walked ancestors has it; for other codes it holds nothing. */
  ghost predicate MostGeneral(g: Hierarchy, root: Class, codes: map<Class, int>, table: map<int, Class>) {
    && (forall code :: code in table <==> exists x :: Below(g, root, x) && x in codes && codes[x] == code)
    && (forall code <- table ::
          && Below(g, root, table[code]) && table[code] in codes && codes[table[code]] == code
          && forall x :: Below(g, root, x) && Below(g, x, table[code]) && x in codes ==> codes[x] != code)
  }

  method BuildFaultMap(g: Hierarchy, root: Class, codes: map<Class, int>) returns (table: map<int, Class>)
    requires Closed(g) && Acyclic(g) && root in g
    requires forall c <- g :: c in codes
    ensures MostGeneral(g, root, codes, table)
  {
    var order := WalkClassHierarchy(g, root);
    table := map[];
    for k := 0 to |order|
      invariant forall code :: code in table <==> exists i :: 0 <= i < k && order[i] in codes && codes[order[i]] == code
      invariant forall code <- table :: table[code] in order[..k] && table[code] in codes && codes[table[code]] == code
      invariant forall code <- table, i | 0 <= i < k && order[i] in codes && codes[order[i]] == code ::
                  !Below(g, order[i], table[code])
    {
      BelowIsKnown(g, root, order[k]);
      table := table[codes[order[k]] := order[k]];
    }
  }

  lemma {:induction false} LeadsIsKnown(g: Hierarchy, a: Class, path: seq<Class>, b: Class)
    requires Closed(g) && Leads(g, a, path, b)
    ensures b in g
    decreases |path|
  {
    if |path| > 1 { LeadsIsKnown(g, path[0], path[1..], b); }
  }

  lemma BelowIsKnown(g: Hierarchy, a: Class, b: Class)
    requires Closed(g) && Below(g, a, b)
    ensures b in g
  {
    var path :| Leads(g, a, path, b);
    LeadsIsKnown(g, a, path, b);
  }

  const FALLBACK: Class := "HTTPInternalServerError"

  /** The fault wrapper keeps the map once it has been built. */
  class FaultWrapper {
    const g: Hierarchy
    const root: Class
    const codes: map<Class, int>
    var table: map<int, Class>

    ghost predicate Valid()
      reads this
    {
      && Closed(g) && Acyclic(g) && root in g && (forall c <- g :: c in codes)
      && (table == map[] || MostGeneral(g, root, codes, table))
    }

    constructor(g: Hierarchy, root: Class, codes: map<Class, int>)
      requires Closed(g) && Acyclic(g) && root in g && forall c <- g :: c in codes
      ensures Valid() && this.g == g && this.root == root && this.codes == codes
    {
      this.g, this.root, this.codes := g, root, codes;
      table := map[];
    }

    /** The answer is a most general class with that status, or the fallback when no class has it;
        a map that was built before is used as it is. */
    method StatusToType(status: int) returns (c: Class)
      requires Valid()
      modifies this`table
      ensures Valid() && MostGeneral(g, root, codes, table)
      ensures old(table) != map[] ==> table == old(table)
      ensures c == if status in table then table[status] else FALLBACK
    {
      if table == map[] {
        table := BuildFaultMap(g, root, codes);
      }
      c := if status in table then table[status] else FALLBACK;
    }
  }
}
