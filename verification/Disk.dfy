/** Disks as byte sequences, positioned writes, and the plain file writer that
    every other backup writer has to agree with. */
module Disk {
  import opened Bytes

  datatype Write = Write(offset: nat, data: seq<byte>) {
    predicate Covers(i: nat) { offset <= i < offset + |data| }

    function ByteAt(i: nat): byte
      requires Covers(i)
    {
      data[i - offset]
    }

    predicate InBounds(size: nat) { offset + |data| <= size }
  }

  predicate AllInBounds(ws: seq<Write>, size: nat) {
    forall w <- ws :: w.InBounds(size)
  }

  /** Two writes agree when every byte they both cover is the same. Disjoint writes agree. */
  ghost predicate Agree(a: Write, b: Write) {
    forall i: nat :: a.Covers(i) && b.Covers(i) ==> a.ByteAt(i) == b.ByteAt(i)
  }

  ghost predicate PairwiseAgree(ws: seq<Write>) {
    forall a, b :: a in ws && b in ws ==> Agree(a, b)
  }

  predicate Disjoint(a: Write, b: Write) {
    a.offset + |a.data| <= b.offset || b.offset + |b.data| <= a.offset
  }

  predicate PairwiseDisjoint(ws: seq<Write>) {
    forall i, j :: 0 <= i < j < |ws| ==> Disjoint(ws[i], ws[j])
  }

  lemma DisjointAgree(ws: seq<Write>)
    requires PairwiseDisjoint(ws)
    ensures PairwiseAgree(ws)
  {
    forall a, b | a in ws && b in ws ensures Agree(a, b) {
      var i :| 0 <= i < |ws| && ws[i] == a;
      var j :| 0 <= j < |ws| && ws[j] == b;
      if i < j {
        assert Disjoint(ws[i], ws[j]);
      } else if j < i {
        assert Disjoint(ws[j], ws[i]);
      }
    }
  }

  function Overwrite(disk: seq<byte>, w: Write): (r: seq<byte>)
    requires w.InBounds(|disk|)
    ensures |r| == |disk|
    ensures forall i: nat | i < |disk| :: r[i] == if w.Covers(i) then w.ByteAt(i) else disk[i]
  {
    disk[..w.offset] + w.data + disk[w.offset + |w.data|..]
  }

  /** The disk after the writes have been applied first to last. */
  function ApplyAll(disk: seq<byte>, ws: seq<Write>): (r: seq<byte>)
    requires AllInBounds(ws, |disk|)
    ensures |r| == |disk|
  {
    if ws == [] then disk
    else Overwrite(ApplyAll(disk, ws[..|ws| - 1]), ws[|ws| - 1])
  }

  lemma {:induction false} ApplyAppend(disk: seq<byte>, xs: seq<Write>, ys: seq<Write>)
    requires AllInBounds(xs, |disk|) && AllInBounds(ys, |disk|)
    ensures AllInBounds(xs + ys, |disk|)
    ensures ApplyAll(disk, xs + ys) == ApplyAll(ApplyAll(disk, xs), ys)
    decreases |ys|
  {
    if ys == [] {
      assert xs + ys == xs;
    } else {
      var front, last := ys[..|ys| - 1], ys[|ys| - 1];
      assert (xs + ys)[..|xs + ys| - 1] == xs + front;
      ApplyAppend(disk, xs, front);
    }
  }

  lemma ApplyOne(disk: seq<byte>, w: Write)
    requires w.InBounds(|disk|)
    ensures ApplyAll(disk, [w]) == Overwrite(disk, w)
  {
    assert [w][..0] == [];
  }

  lemma ApplyCons(disk: seq<byte>, w: Write, ws: seq<Write>)
    requires w.InBounds(|disk|) && AllInBounds(ws, |disk|)
    ensures AllInBounds([w] + ws, |disk|)
    ensures ApplyAll(disk, [w] + ws) == ApplyAll(Overwrite(disk, w), ws)
  {
    ApplyOne(disk, w);
    ApplyAppend(disk, [w], ws);
  }

  /** A byte no write covers is left alone; a byte some write covers takes the value
      that all covering writes agree on, whatever their order and multiplicity. */
  lemma {:induction false} ByteAfter(disk: seq<byte>, ws: seq<Write>, i: nat)
    requires AllInBounds(ws, |disk|) && i < |disk|
    requires PairwiseAgree(ws)
    ensures (forall w <- ws :: !w.Covers(i)) ==> ApplyAll(disk, ws)[i] == disk[i]
    ensures forall w <- ws :: w.Covers(i) ==> ApplyAll(disk, ws)[i] == w.ByteAt(i)
    decreases |ws|
  {
    if ws != [] {
      var front, last := ws[..|ws| - 1], ws[|ws| - 1];
      assert last in ws;
      ByteAfter(disk, front, i);
      forall w | w in ws && w.Covers(i)
        ensures ApplyAll(disk, ws)[i] == w.ByteAt(i)
      {
        if last.Covers(i) {
          assert Agree(w, last);
        } else {
          assert w in front;
        }
      }
    }
  }

  ghost predicate SameElements(xs: seq<Write>, ys: seq<Write>) {
    forall w :: w in xs <==> w in ys
  }

  /** Any two sequences made of the same agreeing writes leave the same disk:
      arrival order and resends do not matter. */
  lemma OrderAndRepeatsIrrelevant(disk: seq<byte>, xs: seq<Write>, ys: seq<Write>)
    requires AllInBounds(xs, |disk|)
    requires PairwiseAgree(xs)
    requires SameElements(xs, ys)
    ensures AllInBounds(ys, |disk|)
    ensures ApplyAll(disk, ys) == ApplyAll(disk, xs)
  {
    forall w | w in ys ensures w.InBounds(|disk|) { assert w in xs; }
    forall a, b | a in ys && b in ys ensures Agree(a, b) { assert a in xs && b in xs; }
    forall i: nat | i < |disk|
      ensures ApplyAll(disk, ys)[i] == ApplyAll(disk, xs)[i]
    {
      ByteAfter(disk, xs, i);
      ByteAfter(disk, ys, i);
      if w :| w in xs && w.Covers(i) {
        assert w in ys;
      }
    }
  }

  ghost predicate IsReordering(xs: seq<Write>, ys: seq<Write>) {
    multiset(xs) == multiset(ys)
  }

  lemma ReorderingFacts(xs: seq<Write>, ys: seq<Write>, size: nat)
    requires IsReordering(xs, ys) && AllInBounds(xs, size)
    ensures AllInBounds(ys, size) && SameElements(xs, ys)
  {
    forall w ensures w in xs <==> w in ys {
      assert w in xs <==> w in multiset(xs);
      assert w in ys <==> w in multiset(ys);
    }
    forall w | w in ys ensures w.InBounds(size) { assert w in xs; }
  }

  ghost predicate OrderIndependent(disk: seq<byte>, ws: seq<Write>)
    requires AllInBounds(ws, |disk|)
  {
    forall ys | IsReordering(ws, ys) ::
      AllInBounds(ys, |disk|) && ApplyAll(disk, ys) == ApplyAll(disk, ws)
  }

  /** The sequence with the write at position `k` moved to the end. */
  function MoveLast(ws: seq<Write>, k: nat): (r: seq<Write>)
    requires k < |ws|
    ensures IsReordering(ws, r) && r[|r| - 1] == ws[k]
  {
    assert ws == ws[..k] + [ws[k]] + ws[k + 1..];
    ws[..k] + ws[k + 1..] + [ws[k]]
  }

  /** Agreement on every overlap is exactly what makes the order of arrival irrelevant. */
  lemma OrderIndependentIffAgree(disk: seq<byte>, ws: seq<Write>)
    requires AllInBounds(ws, |disk|)
    ensures OrderIndependent(disk, ws) <==> PairwiseAgree(ws)
  {
    if PairwiseAgree(ws) {
      forall ys | IsReordering(ws, ys)
        ensures AllInBounds(ys, |disk|) && ApplyAll(disk, ys) == ApplyAll(disk, ws)
      {
        ReorderingFacts(ws, ys, |disk|);
        OrderAndRepeatsIrrelevant(disk, ws, ys);
      }
    }
    if OrderIndependent(disk, ws) {
      forall a, b | a in ws && b in ws ensures Agree(a, b) {
        forall i: nat | a.Covers(i) && b.Covers(i) ensures a.ByteAt(i) == b.ByteAt(i) {
          LastWins(disk, ws, a, i);
          LastWins(disk, ws, b, i);
        }
      }
    }
  }

  lemma LastWins(disk: seq<byte>, ws: seq<Write>, a: Write, i: nat)
    requires AllInBounds(ws, |disk|) && OrderIndependent(disk, ws)
    requires a in ws && a.Covers(i)
    ensures i < |disk| && ApplyAll(disk, ws)[i] == a.ByteAt(i)
  {
    var k :| 0 <= k < |ws| && ws[k] == a;
    var ys := MoveLast(ws, k);
    ReorderingFacts(ws, ys, |disk|);
    assert ApplyAll(disk, ys) == ApplyAll(disk, ws);
  }

  // ----- The plain file writer ---------------------------------------------------

  datatype Call = Seek(pos: nat) | Put(data: seq<byte>)

  /** Python's file object: writing past the end fills the gap with zeros and grows the file. */
  function FileWrite(content: seq<byte>, pos: nat, data: seq<byte>): (r: seq<byte>)
    ensures pos + |data| <= |content| ==> r == Overwrite(content, Write(pos, data))
  {
    if data == [] then
      assert pos <= |content| ==> content == content[..pos] + [] + content[pos..];
      content
    else
      var padded := if pos <= |content| then content else content + Zeros(pos - |content|);
      padded[..pos] + data + if pos + |data| <= |content| then content[pos + |data|..] else []
  }

  /** A write that is not empty makes the file long enough for it and fills a gap with zeros; all other bytes
      stay. An empty write changes nothing. */
  lemma FileWriteBytes(content: seq<byte>, pos: nat, data: seq<byte>)
    ensures var r := FileWrite(content, pos, data);
      && |r| == (if data != [] && pos + |data| > |content| then pos + |data| else |content|)
      && forall i: nat | i < |r| ::
           r[i] == if pos <= i < pos + |data| then data[i - pos] else if i < |content| then content[i] else 0
  {
  }

  function Zeros(n: nat): (z: seq<byte>)
    ensures |z| == n && forall i: nat | i < n :: z[i] == 0
  {
    seq(n, i => 0)
  }

  class FileBackupWriter {
    var content: seq<byte>
    var pos: nat

    constructor(existing: seq<byte>)
      ensures content == existing && pos == 0
    {
      content := existing;
      pos := 0;
    }

    method SeekTo(p: nat)
      modifies this`pos
      ensures pos == p
    {
      pos := p;
    }

    method WriteData(data: seq<byte>)
      modifies this
      ensures content == FileWrite(old(content), old(pos), data)
      ensures pos == old(pos) + |data|
    {
      content := FileWrite(content, pos, data);
      pos := pos + |data|;
    }
  }

  /** The position a writer is at after the calls, starting from 0. */
  function PosAfter(calls: seq<Call>): nat {
    if calls == [] then 0
    else match calls[|calls| - 1]
      case Seek(p) => p
      case Put(d) => PosAfter(calls[..|calls| - 1]) + |d|
  }

  /** The positioned writes that a sequence of seek and write calls asks for. */
  function WritesOf(calls: seq<Call>): seq<Write> {
    if calls == [] then []
    else
      var before := calls[..|calls| - 1];
      match calls[|calls| - 1]
      case Seek(_) => WritesOf(before)
      case Put(d) => WritesOf(before) + [Write(PosAfter(before), d)]
  }

  /** Where the writes are in bounds, the content is the disk after them. */
  ghost predicate Reflects(existing: seq<byte>, ws: seq<Write>, content: seq<byte>) {
    AllInBounds(ws, |existing|) ==> content == ApplyAll(existing, ws)
  }

  lemma WriteReflects(existing: seq<byte>, ws: seq<Write>, content: seq<byte>, w: Write)
    requires Reflects(existing, ws, content)
    ensures Reflects(existing, ws + [w], FileWrite(content, w.offset, w.data))
  {
    var all := ws + [w];
    assert all[..|all| - 1] == ws;
    if AllInBounds(all, |existing|) {
      assert w in all;
      assert forall x <- ws :: x in all;
    }
  }

  lemma CallStep(calls: seq<Call>, k: nat)
    requires k < |calls|
    ensures var now, next := calls[..k], calls[..k + 1];
      match calls[k]
      case Seek(p) => WritesOf(next) == WritesOf(now) && PosAfter(next) == p
      case Put(d) =>
        && WritesOf(next) == WritesOf(now) + [Write(PosAfter(now), d)]
        && PosAfter(next) == PosAfter(now) + |d|
  {
    assert calls[..k + 1][..k] == calls[..k];
  }

  /** How long a file of `n` bytes is after the writes. */
  function LengthAfter(n: nat, ws: seq<Write>): nat {
    if ws == [] then n
    else
      var before, w := LengthAfter(n, ws[..|ws| - 1]), ws[|ws| - 1];
      if w.data != [] && w.offset + |w.data| > before then w.offset + |w.data| else before
  }

  /** The byte at `i` after the writes: the last write that covers it, or else the old byte, or else zero. */
  function LastByte(existing: seq<byte>, ws: seq<Write>, i: nat): byte {
    if ws == [] then (if i < |existing| then existing[i] else 0)
    else
      var w := ws[|ws| - 1];
      if w.Covers(i) then w.ByteAt(i) else LastByte(existing, ws[..|ws| - 1], i)
  }

  predicate Shows(existing: seq<byte>, ws: seq<Write>, content: seq<byte>) {
    |content| == LengthAfter(|existing|, ws) && forall i: nat | i < |content| :: content[i] == LastByte(existing, ws, i)
  }

  lemma {:induction false} BeyondTheEnd(existing: seq<byte>, ws: seq<Write>, i: nat)
    requires i >= LengthAfter(|existing|, ws)
    ensures LastByte(existing, ws, i) == 0
    decreases |ws|
  {
    if ws != [] { BeyondTheEnd(existing, ws[..|ws| - 1], i); }
  }

  lemma ShowsMore(existing: seq<byte>, ws: seq<Write>, content: seq<byte>, w: Write)
    requires Shows(existing, ws, content)
    ensures Shows(existing, ws + [w], FileWrite(content, w.offset, w.data))
  {
    var all, r := ws + [w], FileWrite(content, w.offset, w.data);
    assert all[..|all| - 1] == ws;
    FileWriteBytes(content, w.offset, w.data);
    forall i: nat | i < |r| ensures r[i] == LastByte(existing, all, i) {
      if i >= |content| { BeyondTheEnd(existing, ws, i); }
    }
  }

  /** Running the calls one after another on the plain file writer. */
  method RunOnFile(existing: seq<byte>, calls: seq<Call>) returns (result: seq<byte>)
    ensures Shows(existing, WritesOf(calls), result)
    ensures AllInBounds(WritesOf(calls), |existing|) ==>
              result == ApplyAll(existing, WritesOf(calls))
  {
    var file := new FileBackupWriter(existing);
    var k := 0;
    ghost var asked: seq<Write> := [];
    while k < |calls|
      invariant 0 <= k <= |calls|
      invariant file.pos == PosAfter(calls[..k]) && asked == WritesOf(calls[..k])
      invariant Reflects(existing, asked, file.content) && Shows(existing, asked, file.content)
    {
      CallStep(calls, k);
      match calls[k] {
        case Seek(p) =>
          file.SeekTo(p);
        case Put(d) =>
          WriteReflects(existing, asked, file.content, Write(file.pos, d));
          ShowsMore(existing, asked, file.content, Write(file.pos, d));
          asked := asked + [Write(file.pos, d)];
          file.WriteData(d);
      }
      k := k + 1;
    }
    assert calls[..k] == calls;
    result := file.content;
  }
}
