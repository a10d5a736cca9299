/** The message format between the SSH backup writer and its helper process. */
module Framing {
  import opened Wrappers
  import opened Bytes

  const MIN_MSG_SIZE := 9
  const MAX_MSG_SIZE := 104857600

  type Path = seq<byte>

  /** What the compression stage did with one message: it was switched off, or a
      compressor (the built-in one or the compression service) produced some bytes. */
  datatype Compression = Off | On(compressed: seq<byte>)

  predicate NulFree(path: Path) { 0 !in path }

  function Inflated(path: Path, offset: nat, content: seq<byte>): seq<byte> {
    path + [0] + Pack(offset, 8) + content
  }

  /** Whether the compressed form is kept: only when it is strictly shorter. */
  predicate KeepsCompressed(inflated: seq<byte>, comp: Compression) {
    comp.On? && |comp.compressed| < |inflated|
  }

  /** The bytes of one data message; None where `struct.pack` raises. */
  function EncodeData(msgId: nat, path: Path, offset: nat, content: seq<byte>, comp: Compression): Option<seq<byte>> {
    var inflated := Inflated(path, offset, content);
    var keep := KeepsCompressed(inflated, comp);
    var body := if keep then comp.compressed else inflated;
    var inflatedLen := if keep then |inflated| else 0;
    if msgId < U32_LIMIT && offset < U64_LIMIT && |body| < U32_LIMIT && inflatedLen < U32_LIMIT then
      Some(Pack(msgId, 4) + Pack(|body|, 4) + Pack(inflatedLen, 4) + body)
    else
      None
  }

  /** The end-of-data message has no third length and no body. */
  function EncodeEod(msgId: nat): Option<seq<byte>> {
    if msgId < U32_LIMIT then Some(Pack(msgId, 4) + Pack(0, 4)) else None
  }

  /** Decompression as the receiver performs it; None is a zlib error. */
  type Inflate = seq<byte> -> Option<seq<byte>>

  /** What is asked of a compressor: the receiver can undo it, and its output is never
      shorter than the smallest message the receiver takes. */
  predicate Lawful(inflate: Inflate, inflated: seq<byte>, comp: Compression) {
    comp.On? ==> inflate(comp.compressed) == Some(inflated) && MIN_MSG_SIZE <= |comp.compressed|
  }

  /** The body of a data message is the shorter of the two forms, the plain one on a tie, and the third field
      tells them apart: zero for the plain form, otherwise its length. */
  lemma ShorterFormIsSent(msgId: nat, path: Path, offset: nat, content: seq<byte>, comp: Compression, frame: seq<byte>)
    requires EncodeData(msgId, path, offset, content, comp) == Some(frame)
    ensures var plain := path + [0] + Pack(offset, 8) + content;
      var squeezed := comp.On? && |comp.compressed| < |plain|;
      && frame[..4] == Pack(msgId, 4)
      && frame[4..8] == Pack(|frame| - 12, 4)
      && frame[8..12] == Pack(if squeezed then |plain| else 0, 4)
      && frame[12..] == if squeezed then comp.compressed else plain
  {
    var plain := Inflated(path, offset, content);
    var squeezed := KeepsCompressed(plain, comp);
    var body := if squeezed then comp.compressed else plain;
    FourParts(Pack(msgId, 4), Pack(|body|, 4), Pack(if squeezed then |plain| else 0, 4), body);
  }

  /** A message can be packed if and only if its number, its offset and both its lengths fit their fields. */
  lemma EncodesIff(msgId: nat, path: Path, offset: nat, content: seq<byte>, comp: Compression)
    ensures var plain := |path| + 9 + |content|;
      EncodeData(msgId, path, offset, content, comp).Some? <==>
        && msgId < 0x1_0000_0000 && offset < 0x1_0000_0000_0000_0000
        && plain < 0x1_0000_0000
    ensures EncodeEod(msgId).Some? <==> msgId < 0x1_0000_0000
  {
    assert |Inflated(path, offset, content)| == |path| + 9 + |content|;
  }

  lemma FourParts(a: seq<byte>, b: seq<byte>, c: seq<byte>, d: seq<byte>)
    requires |a| == |b| == |c| == 4
    ensures var all := a + b + c + d;
      |all| == 12 + |d| && all[..4] == a && all[4..8] == b && all[8..12] == c && all[12..] == d
  {
  }
}
