/** What the receiver makes of the encoder's messages, one by one and as a whole stream. */
module Stream {
  import opened Wrappers
  import opened Bytes
  import opened Disk
  import opened Framing
  import opened Receiver

  /** One message as it travels: what was encoded, how it was compressed, and its bytes. */
  datatype Sent = Sent(id: nat, w: Write, comp: Compression, frame: seq<byte>)

  predicate Framed(inflate: Inflate, path: Path, m: Sent) {
    && Lawful(inflate, Inflated(path, m.w.offset, m.w.data), m.comp)
    && EncodeData(m.id, path, m.w.offset, m.w.data, m.comp) == Some(m.frame)
  }

  /** The body travels compressed. */
  predicate Squeezed(path: Path, m: Sent) { KeepsCompressed(Inflated(path, m.w.offset, m.w.data), m.comp) }

  /** The verdict on a data message, in terms of what was encoded and what the system refuses. */
  function Verdict(path: Path, m: Sent, files: Files, fault: Fault): Exit {
    if |m.frame| - 12 > MAX_MSG_SIZE then Code(2)
    else if |path| + 9 + |m.w.data| > MAX_MSG_SIZE then Code(12)
    else BodyVerdict(path, m, files, fault)
  }

  /** What the receiver says of the body once it has read it. */
  function BodyVerdict(path: Path, m: Sent, files: Files, fault: Fault): Exit {
    if fault.NoBuffer? || (fault.NoInflateBuffer? && Squeezed(path, m)) then Code(9)
    else if fault.ZlibFails? && Squeezed(path, m) then Code(13)
    else WriteVerdict(path, m.w, files, fault)
  }

  function WriteVerdict(path: Path, w: Write, files: Files, fault: Fault): Exit {
    var end := w.offset + |w.data|;
    if path !in files || fault.OpenFails? then Code(3)
    else if w.offset >= 0x8000_0000_0000_0000 || fault.SeekFails? then Code(6)
    else if end >= 0x8000_0000_0000_0000 then Undefined
    else if end > |files[path]| || fault.TellFails? then Code(15)
    else match fault
      case WriteFails(_) => if w.data == [] then Code(-1) else Code(7)
      case CloseFails(_) => Code(8)
      case EchoFails => Code(14)
      case _ => Code(-1)
  }

  /** The part of a write that is in the file after a failed write or close. */
  function FirstPart(w: Write, kept: nat): (r: Write)
    ensures r.offset == w.offset && |r.data| <= |w.data|
  {
    Write(w.offset, if kept < |w.data| then w.data[..kept] else w.data)
  }

  /** The files after a message with this verdict: the whole write when it went on or only the echo failed, a
      first part of it when the write or the close failed, and otherwise no change. */
  function FilesAfter(path: Path, w: Write, files: Files, fault: Fault, e: Exit): Files {
    if path !in files || w.offset + |w.data| > |files[path]| then files
    else if e == Code(-1) || e == Code(14) then files[path := Overwrite(files[path], w)]
    else if (e == Code(7) || e == Code(8)) && (fault.WriteFails? || fault.CloseFails?) then
      files[path := Overwrite(files[path], FirstPart(w, fault.kept))]
    else files
  }

  lemma NulAfterPath(path: Path, rest: seq<byte>)
    requires NulFree(path)
    ensures NulIndex(path + [0] + rest) == |path|
  {
    var b := path + [0] + rest;
    NulIndexIsFirst(b);
    assert b[|path|] == 0;
    assert forall k | 0 <= k < |path| :: b[k] == path[k] && path[k] in path;
  }

  lemma InflatedParts(path: Path, offset: nat, data: seq<byte>)
    requires NulFree(path) && offset < U64_LIMIT
    ensures var body, n := Inflated(path, offset, data), |path|;
      && NulIndex(body) == n && |body| == n + 9 + |data|
      && body[..n] == path && Unpack(body[n + 1..n + 9]) == offset && body[n + 9..] == data
  {
    var body, n := Inflated(path, offset, data), |path|;
    assert body == path + [0] + (Pack(offset, 8) + data);
    NulAfterPath(path, Pack(offset, 8) + data);
    assert body[n + 1..n + 9] == Pack(offset, 8);
    ReadU64(offset);
  }

  lemma StoreInflated(path: Path, w: Write, files: Files, fault: Fault)
    requires NulFree(path) && w.offset < U64_LIMIT
    ensures Store(Inflated(path, w.offset, w.data), files, fault) == StoreWrite(path, w, files, fault)
  {
    InflatedParts(path, w.offset, w.data);
  }

  // ----- Messages at a place in the input ---------------------------------------------------------

  /** The bytes are what the receiver reads next. */
  predicate Next(rx: Rx, bytes: seq<byte>) {
    rx.Has(|bytes|) && rx.input[rx.pos..rx.pos + |bytes|] == bytes
  }

  lemma NextSplits(rx: Rx, a: seq<byte>, b: seq<byte>)
    requires Next(rx, a + b)
    ensures Next(rx, a) && Next(rx.Skip(|a|), b)
  {
    var ab := rx.input[rx.pos..rx.pos + |a + b|];
    assert ab[..|a|] == a && ab[|a|..] == b;
  }

  lemma NextField(rx: Rx, n: nat)
    requires n < U32_LIMIT && Next(rx, Pack(n, 4))
    ensures rx.Has(4) && rx.Field() == n
  {
    ReadU32(n);
  }

  lemma FrameLayout(path: Path, m: Sent, inflate: Inflate) returns (body: seq<byte>, inflatedLen: nat)
    requires Framed(inflate, path, m)
    ensures |m.frame| == 12 + |body| && 0 < |body| <= |path| + 9 + |m.w.data|
    ensures |body| >= MIN_MSG_SIZE && (inflatedLen != 0 ==> inflatedLen >= MIN_MSG_SIZE)
    ensures inflatedLen == if Squeezed(path, m) then |path| + 9 + |m.w.data| else 0
    ensures inflatedLen == 0 ==> |body| == |path| + 9 + |m.w.data|
    ensures Unwrap(inflate, body, inflatedLen) == Bytes(Inflated(path, m.w.offset, m.w.data))
    ensures m.id < U32_LIMIT && |body| < U32_LIMIT && inflatedLen < U32_LIMIT && m.w.offset < U64_LIMIT
    ensures m.frame == Pack(m.id, 4) + (Pack(|body|, 4) + (Pack(inflatedLen, 4) + body))
  {
    var inflated := Inflated(path, m.w.offset, m.w.data);
    var keep := KeepsCompressed(inflated, m.comp);
    assert |inflated| == |path| + 9 + |m.w.data|;
    body := if keep then m.comp.compressed else inflated;
    inflatedLen := if keep then |inflated| else 0;
    Regroup(Pack(m.id, 4), Pack(|body|, 4), Pack(inflatedLen, 4), body);
  }

  lemma Regroup(a: seq<byte>, b: seq<byte>, c: seq<byte>, d: seq<byte>)
    ensures a + b + c + d == a + (b + (c + d))
  {
  }

  /** The receiver reads back the header fields that were packed and goes on with the body. */
  lemma HeaderFields(inflate: Inflate, fault: Fault, id: nat, size: nat, inflatedLen: nat, body: seq<byte>, rx: Rx)
    requires id < U32_LIMIT && 0 < size < U32_LIMIT && inflatedLen < U32_LIMIT
    requires Next(rx, Pack(id, 4) + (Pack(size, 4) + (Pack(inflatedLen, 4) + body)))
    ensures Next(rx.Skip(12), body)
    ensures
      HandleMsg(inflate, fault, rx) ==
        if BadSize(size) then (Code(ERR_MSG_SIZE), rx.Skip(8))
        else if inflatedLen != 0 && BadSize(inflatedLen) then (Code(ERR_MSG_SIZE_INFLATED), rx.Skip(12))
        else HandleBody(inflate, fault, rx.Skip(12), id, size, inflatedLen)
  {
    NextSplits(rx, Pack(id, 4), Pack(size, 4) + (Pack(inflatedLen, 4) + body));
    NextSplits(rx.Skip(4), Pack(size, 4), Pack(inflatedLen, 4) + body);
    NextSplits(rx.Skip(8), Pack(inflatedLen, 4), body);
    NextField(rx, id);
    NextField(rx.Skip(4), size);
    NextField(rx.Skip(8), inflatedLen);
  }

  /** The receiver reads the header of an encoded message and goes on with its body. */
  lemma HeaderOf(inflate: Inflate, fault: Fault, path: Path, m: Sent, rx: Rx)
      returns (body: seq<byte>, inflatedLen: nat)
    requires Framed(inflate, path, m) && Next(rx, m.frame)
    ensures |m.frame| == 12 + |body| && m.w.offset < U64_LIMIT && Next(rx.Skip(12), body)
    ensures inflatedLen == if Squeezed(path, m) then |path| + 9 + |m.w.data| else 0
    ensures |body| <= |path| + 9 + |m.w.data| && (inflatedLen == 0 ==> |body| == |path| + 9 + |m.w.data|)
    ensures Unwrap(inflate, body, inflatedLen) == Bytes(Inflated(path, m.w.offset, m.w.data))
    ensures HandleMsg(inflate, fault, rx) ==
            if |body| > MAX_MSG_SIZE then (Code(ERR_MSG_SIZE), rx.Skip(8))
            else if inflatedLen > MAX_MSG_SIZE then (Code(ERR_MSG_SIZE_INFLATED), rx.Skip(12))
            else HandleBody(inflate, fault, rx.Skip(12), m.id, |body|, inflatedLen)
  {
    body, inflatedLen := FrameLayout(path, m, inflate);
    HeaderFields(inflate, fault, m.id, |body|, inflatedLen, body, rx);
  }

  /** `out` is the state after a message with verdict `e`, of which `len` bytes were still to be read. */
  predicate Follows(path: Path, m: Sent, fault: Fault, rx: Rx, len: nat, e: Exit, out: (Exit, Rx)) {
    && out.0 == e && out.1.input == rx.input
    && out.1.files == FilesAfter(path, m.w, rx.files, fault, e)
    && out.1.acks == (if e == Code(ERR_MORE_MSG) then rx.acks + [m.id] else rx.acks)
    && (e == Code(ERR_MORE_MSG) ==> out.1.pos == rx.pos + len)
  }

  lemma StoreWriteOutcome(path: Path, w: Write, files: Files, fault: Fault)
    ensures var e := WriteVerdict(path, w, files, fault);
      StoreWrite(path, w, files, fault) == (e, FilesAfter(path, w, files, fault, e))
  {
  }

  lemma TakeOutcome(
      inflate: Inflate, fault: Fault, path: Path, m: Sent, body: seq<byte>, inflatedLen: nat, files: Files)
    requires NulFree(path) && m.w.offset < U64_LIMIT && !fault.NoBuffer?
    requires inflatedLen != 0 <==> Squeezed(path, m)
    requires Unwrap(inflate, body, inflatedLen) == Bytes(Inflated(path, m.w.offset, m.w.data))
    ensures var e := BodyVerdict(path, m, files, fault);
      TakeBody(inflate, fault, body, inflatedLen, files) == (e, FilesAfter(path, m.w, files, fault, e))
  {
    StoreInflated(path, m.w, files, fault);
    StoreWriteOutcome(path, m.w, files, fault);
  }

  lemma BodyOutcome(inflate: Inflate, fault: Fault, path: Path, m: Sent, body: seq<byte>, inflatedLen: nat, rx: Rx)
    requires NulFree(path) && m.w.offset < U64_LIMIT && Next(rx, body)
    requires inflatedLen != 0 <==> Squeezed(path, m)
    requires Unwrap(inflate, body, inflatedLen) == Bytes(Inflated(path, m.w.offset, m.w.data))
    ensures Follows(path, m, fault, rx, |body|, BodyVerdict(path, m, rx.files, fault),
                    HandleBody(inflate, fault, rx, m.id, |body|, inflatedLen))
  {
    if !fault.NoBuffer? {
      TakeOutcome(inflate, fault, path, m, body, inflatedLen, rx.files);
    }
  }

  lemma VerdictOf(
      path: Path, m: Sent, fault: Fault, bodyLen: nat, inflatedLen: nat, rx: Rx, out: (Exit, Rx), bodyOut: (Exit, Rx))
    requires |m.frame| == 12 + bodyLen && inflatedLen == if Squeezed(path, m) then |path| + 9 + |m.w.data| else 0
    requires bodyLen <= |path| + 9 + |m.w.data| && (inflatedLen == 0 ==> bodyLen == |path| + 9 + |m.w.data|)
    requires out == if bodyLen > MAX_MSG_SIZE then (Code(ERR_MSG_SIZE), rx.Skip(8))
                    else if inflatedLen > MAX_MSG_SIZE then (Code(ERR_MSG_SIZE_INFLATED), rx.Skip(12))
                    else bodyOut
    requires Follows(path, m, fault, rx.Skip(12), bodyLen, BodyVerdict(path, m, rx.files, fault), bodyOut)
    ensures Follows(path, m, fault, rx, |m.frame|, Verdict(path, m, rx.files, fault), out)
  {
  }

  /** One data message, in every case and under every fault: the verdict, what it leaves in the files, and an
      echo exactly when the receiver goes on. */
  lemma FrameOutcome(inflate: Inflate, fault: Fault, path: Path, m: Sent, rx: Rx)
    requires NulFree(path) && Framed(inflate, path, m) && Next(rx, m.frame)
    ensures Follows(path, m, fault, rx, |m.frame|, Verdict(path, m, rx.files, fault), HandleMsg(inflate, fault, rx))
  {
    var body, inflatedLen := HeaderOf(inflate, fault, path, m, rx);
    BodyOutcome(inflate, fault, path, m, body, inflatedLen, rx.Skip(12));
    var bodyOut := HandleBody(inflate, fault, rx.Skip(12), m.id, |body|, inflatedLen);
    VerdictOf(path, m, fault, |body|, inflatedLen, rx, HandleMsg(inflate, fault, rx), bodyOut);
  }

  /** The system refuses nothing that this message needs. */
  predicate Unhit(path: Path, m: Sent, fault: Fault) {
    match fault
    case NoFault => true
    case NoInflateBuffer => !Squeezed(path, m)
    case ZlibFails => !Squeezed(path, m)
    case WriteFails(_) => m.w.data == []
    case _ => false
  }

  /** The message fits, the file exists, the write ends inside it and nothing the message needs is refused. */
  predicate Storing(path: Path, m: Sent, files: Files, fault: Fault) {
    var end := m.w.offset + |m.w.data|;
    && |path| + 9 + |m.w.data| <= 104857600
    && path in files && end < 0x8000_0000_0000_0000 && end <= |files[path]| && Unhit(path, m, fault)
  }

  lemma VerdictGoesOnIff(path: Path, m: Sent, files: Files, fault: Fault)
    requires |m.frame| <= 12 + (|path| + 9 + |m.w.data|)
    ensures Verdict(path, m, files, fault) == Code(-1) <==> Storing(path, m, files, fault)
  {
  }

  /** The receiver goes on exactly in that case; then exactly the encoded write is in the file and its id
      echoed, and in every other case nothing is echoed. */
  lemma GoesOnIff(inflate: Inflate, fault: Fault, path: Path, m: Sent, rx: Rx)
    requires NulFree(path) && Framed(inflate, path, m) && Next(rx, m.frame)
    ensures
      var (e, rx') := HandleMsg(inflate, fault, rx);
      && (e == Code(-1) <==> Storing(path, m, rx.files, fault))
      && (Storing(path, m, rx.files, fault) ==> rx' == Stored(path, m, rx))
      && (!Storing(path, m, rx.files, fault) ==> rx'.acks == rx.acks)
  {
    FrameIsSmall(inflate, path, m);
    FrameOutcome(inflate, fault, path, m, rx);
    VerdictGoesOnIff(path, m, rx.files, fault);
    if Storing(path, m, rx.files, fault) {
      FollowsStored(path, m, fault, rx, HandleMsg(inflate, fault, rx));
    }
  }

  /** The codes of a message that fits and can be unpacked: missing file 3, seek 6, out of bounds 15, write 7,
      close 8, echo 14; and what is in the files then. */
  lemma RefusalCodes(inflate: Inflate, fault: Fault, path: Path, m: Sent, rx: Rx)
    requires NulFree(path) && Framed(inflate, path, m) && Next(rx, m.frame)
    requires |path| + 9 + |m.w.data| <= 104857600
    ensures
      var (e, rx') := HandleMsg(inflate, fault, rx);
      var end := m.w.offset + |m.w.data|;
      if fault.NoBuffer? || (fault.NoInflateBuffer? && Squeezed(path, m)) then e == Code(9) && rx'.files == rx.files
      else if fault.ZlibFails? && Squeezed(path, m) then e == Code(13) && rx'.files == rx.files
      else if path !in rx.files || fault.OpenFails? then e == Code(3) && rx'.files == rx.files
      else if m.w.offset >= 0x8000_0000_0000_0000 || fault.SeekFails? then e == Code(6) && rx'.files == rx.files
      else if end >= 0x8000_0000_0000_0000 then e == Undefined
      else if end > |rx.files[path]| || fault.TellFails? then e == Code(15) && rx'.files == rx.files
      else if fault.EchoFails? then
        e == Code(14) && rx'.files == rx.files[path := Overwrite(rx.files[path], m.w)]
      else if fault.CloseFails? || (fault.WriteFails? && m.w.data != []) then
        && e == Code(if fault.CloseFails? then 8 else 7)
        && rx'.files == rx.files[path := Overwrite(rx.files[path], FirstPart(m.w, fault.kept))]
      else e == Code(-1)
  {
    FrameIsSmall(inflate, path, m);
    FrameOutcome(inflate, fault, path, m, rx);
  }

  lemma FrameIsSmall(inflate: Inflate, path: Path, m: Sent)
    requires Framed(inflate, path, m)
    ensures 12 <= |m.frame| <= 12 + (|path| + 9 + |m.w.data|)
  {
    var body, inflatedLen := FrameLayout(path, m, inflate);
  }

  lemma EodOutcome(inflate: Inflate, fault: Fault, id: nat, rx: Rx)
    requires id < U32_LIMIT && Next(rx, EncodeEod(id).value)
    ensures HandleMsg(inflate, fault, rx) ==
            if fault.EchoFails? then (Code(ERR_WRITE_MSG_ID), rx.Skip(8))
            else (Code(ERR_DONE), rx.Skip(8).(acks := rx.acks + [id]))
  {
    NextSplits(rx, Pack(id, 4), Pack(0, 4));
    NextField(rx, id);
    NextField(rx.Skip(4), 0);
  }

  lemma BodyIsNotEod(inflate: Inflate, fault: Fault, rx: Rx, id: nat, size: nat, inflatedLen: nat)
    ensures HandleBody(inflate, fault, rx, id, size, inflatedLen).0 != Code(ERR_DONE)
  {
  }

  /** No data message can be taken for end-of-data: its size field is never zero. */
  lemma DataIsNotEod(inflate: Inflate, fault: Fault, path: Path, m: Sent, rx: Rx)
    requires Framed(inflate, path, m) && Next(rx, m.frame)
    ensures HandleMsg(inflate, fault, rx).0 != Code(ERR_DONE)
  {
    var body, inflatedLen := FrameLayout(path, m, inflate);
    HeaderFields(inflate, fault, m.id, |body|, inflatedLen, body, rx);
    BodyIsNotEod(inflate, fault, rx.Skip(12), m.id, |body|, inflatedLen);
  }

  // ----- Whole streams ------------------------------------------------------------------------------

  function Bytestream(ms: seq<Sent>): seq<byte> {
    if ms == [] then [] else ms[0].frame + Bytestream(ms[1..])
  }

  function Ids(ms: seq<Sent>): (ids: seq<nat>)
    ensures |ids| == |ms|
  {
    seq(|ms|, i requires 0 <= i < |ms| => ms[i].id)
  }

  function WritesIn(ms: seq<Sent>): (ws: seq<Write>)
    ensures |ws| == |ms| && forall i | 0 <= i < |ms| :: ws[i] == ms[i].w
  {
    seq(|ms|, i requires 0 <= i < |ms| => ms[i].w)
  }

  /** A message the receiver can store on a device of the given size. */
  predicate Storable(path: Path, m: Sent, size: nat) {
    && m.w.InBounds(size)
    && |path| + 9 + |m.w.data| <= MAX_MSG_SIZE
  }

  /** A fault stops a storable message exactly when it refuses something the message needs. */
  lemma VerdictOfStorable(path: Path, m: Sent, files: Files, fault: Fault)
    requires path in files && |files[path]| < LONG_LIMIT
    requires Storable(path, m, |files[path]|) && |m.frame| - 12 <= MAX_MSG_SIZE
    ensures Verdict(path, m, files, fault) == Code(ERR_MORE_MSG) <==> Unhit(path, m, fault)
    ensures Verdict(path, m, files, fault) !in {Code(ERR_DONE), Undefined}
  {
  }

  /** The state after one stored message. */
  function Stored(path: Path, m: Sent, rx: Rx): Rx
    requires path in rx.files && m.w.InBounds(|rx.files[path]|)
  {
    Rx(rx.input, rx.pos + |m.frame|, rx.files[path := Overwrite(rx.files[path], m.w)], rx.acks + [m.id])
  }

  /** The receiver is where it can take a storable message. */
  predicate Ready(inflate: Inflate, path: Path, m: Sent, rx: Rx) {
    && NulFree(path) && path in rx.files && |rx.files[path]| < LONG_LIMIT
    && Framed(inflate, path, m) && Storable(path, m, |rx.files[path]|) && Next(rx, m.frame)
  }

  lemma FollowsStored(path: Path, m: Sent, fault: Fault, rx: Rx, out: (Exit, Rx))
    requires path in rx.files && m.w.InBounds(|rx.files[path]|)
    requires Follows(path, m, fault, rx, |m.frame|, Code(ERR_MORE_MSG), out)
    ensures out == (Code(ERR_MORE_MSG), Stored(path, m, rx))
  {
  }

  lemma StoresOne(inflate: Inflate, fault: Fault, path: Path, m: Sent, rx: Rx)
    requires Ready(inflate, path, m, rx) && Unhit(path, m, fault)
    ensures HandleMsg(inflate, fault, rx) == (Code(ERR_MORE_MSG), Stored(path, m, rx))
  {
    FrameOutcome(inflate, fault, path, m, rx);
    FrameIsSmall(inflate, path, m);
    VerdictOfStorable(path, m, rx.files, fault);
    FollowsStored(path, m, fault, rx, HandleMsg(inflate, fault, rx));
  }

  /** One storable message makes the receiver continue with the rest of its input. */
  lemma ReceiveOne(host: Host, path: Path, m: Sent, rx: Rx)
    requires Ready(host.inflate, path, m, rx) && Unhit(path, m, host.faults(|rx.acks|))
    ensures Receive(host, rx) == Receive(host, Stored(path, m, rx))
  {
    StoresOne(host.inflate, host.faults(|rx.acks|), path, m, rx);
  }

  /** A message that is refused something it needs is the last one. */
  lemma StopsAt(host: Host, path: Path, m: Sent, rx: Rx)
    requires Ready(host.inflate, path, m, rx) && !Unhit(path, m, host.faults(|rx.acks|))
    ensures
      var (e, rx') := Receive(host, rx);
      && e != Code(ERR_DONE) && rx'.acks == rx.acks
      && rx'.files == FilesAfter(path, m.w, rx.files, host.faults(|rx.acks|), e)
  {
    var fault := host.faults(|rx.acks|);
    FrameIsSmall(host.inflate, path, m);
    VerdictOfStorable(path, m, rx.files, fault);
    FrameOutcome(host.inflate, fault, path, m, rx);
  }

  lemma ReceiveEod(host: Host, eod: nat, rx: Rx)
    requires eod < U32_LIMIT && Next(rx, EncodeEod(eod).value)
    ensures Receive(host, rx) ==
            if host.faults(|rx.acks|).EchoFails? then (Code(ERR_WRITE_MSG_ID), rx.Skip(8))
            else (Code(ERR_DONE), rx.Skip(8).(acks := rx.acks + [eod]))
  {
    EodOutcome(host.inflate, host.faults(|rx.acks|), eod, rx);
  }

  lemma ApplyFirst(disk: seq<byte>, ms: seq<Sent>)
    requires ms != [] && AllInBounds(WritesIn(ms), |disk|)
    ensures ms[0].w.InBounds(|disk|) && AllInBounds(WritesIn(ms[1..]), |disk|)
    ensures ApplyAll(disk, WritesIn(ms)) == ApplyAll(Overwrite(disk, ms[0].w), WritesIn(ms[1..]))
  {
    var tail := WritesIn(ms[1..]);
    WritesInCons(ms);
    assert ms[0].w in WritesIn(ms);
    forall x | x in tail ensures x.InBounds(|disk|) { assert x in WritesIn(ms); }
    ApplyCons(disk, ms[0].w, tail);
  }

  lemma WritesInCons(ms: seq<Sent>)
    requires ms != []
    ensures WritesIn(ms) == [ms[0].w] + WritesIn(ms[1..])
  {
  }

  /** The receiver after it has stored the messages. */
  function After(path: Path, ms: seq<Sent>, rx: Rx): Rx
    requires path in rx.files && AllInBounds(WritesIn(ms), |rx.files[path]|)
  {
    Rx(rx.input, rx.pos + |Bytestream(ms)|, rx.files[path := ApplyAll(rx.files[path], WritesIn(ms))], rx.acks + Ids(ms))
  }

  lemma AfterNone(path: Path, rx: Rx)
    requires path in rx.files
    ensures After(path, [], rx) == rx
  {
    assert rx.files[path := rx.files[path]] == rx.files;
  }

  lemma AfterFirst(path: Path, ms: seq<Sent>, rx: Rx)
    requires path in rx.files && ms != [] && AllInBounds(WritesIn(ms), |rx.files[path]|)
    ensures ms[0].w.InBounds(|rx.files[path]|) && AllInBounds(WritesIn(ms[1..]), |rx.files[path]|)
    ensures After(path, ms, rx) == After(path, ms[1..], Stored(path, ms[0], rx))
  {
    ApplyFirst(rx.files[path], ms);
    var disk' := Overwrite(rx.files[path], ms[0].w);
    var last := ApplyAll(disk', WritesIn(ms[1..]));
    assert rx.files[path := disk'][path := last] == rx.files[path := last];
    assert rx.acks + [ms[0].id] + Ids(ms[1..]) == rx.acks + Ids(ms);
  }

  predicate Deliverable(inflate: Inflate, path: Path, ms: seq<Sent>, size: nat) {
    forall m <- ms :: Framed(inflate, path, m) && Storable(path, m, size)
  }

  lemma DeliverableInBounds(inflate: Inflate, path: Path, ms: seq<Sent>, size: nat)
    requires Deliverable(inflate, path, ms, size)
    ensures AllInBounds(WritesIn(ms), size)
  {
    var ws := WritesIn(ms);
    forall w | w in ws ensures w.InBounds(size) {
      var i :| 0 <= i < |ws| && ws[i] == w;
      assert ms[i] in ms;
    }
  }

  /** Nothing the messages need is refused while they are handled as number `n` and onwards. */
  predicate Untouched(path: Path, ms: seq<Sent>, faults: nat -> Fault, n: nat) {
    forall i: nat | i < |ms| :: Unhit(path, ms[i], faults(n + i))
  }

  lemma TailUntouched(path: Path, ms: seq<Sent>, faults: nat -> Fault, n: nat)
    requires ms != [] && Untouched(path, ms, faults, n)
    ensures Unhit(path, ms[0], faults(n)) && Untouched(path, ms[1..], faults, n + 1)
  {
    assert Unhit(path, ms[0], faults(n + 0));
    forall i: nat | i < |ms| - 1 ensures Unhit(path, ms[1..][i], faults(n + 1 + i)) {
      assert Unhit(path, ms[i + 1], faults(n + (i + 1)));
    }
  }

  lemma TailDeliverable(inflate: Inflate, path: Path, ms: seq<Sent>, size: nat)
    requires ms != [] && Deliverable(inflate, path, ms, size)
    ensures Framed(inflate, path, ms[0]) && Storable(path, ms[0], size)
    ensures Deliverable(inflate, path, ms[1..], size)
  {
    assert ms[0] in ms;
    assert forall m <- ms[1..] :: m in ms;
  }

  lemma NextInStream(ms: seq<Sent>, rx: Rx)
    requires ms != [] && Next(rx, Bytestream(ms))
    ensures Next(rx, ms[0].frame) && Next(rx.Skip(|ms[0].frame|), Bytestream(ms[1..]))
  {
    NextSplits(rx, ms[0].frame, Bytestream(ms[1..]));
  }

  lemma NextElsewhere(rx: Rx, rx': Rx, bytes: seq<byte>)
    requires rx.input == rx'.input && rx.pos == rx'.pos && Next(rx, bytes)
    ensures Next(rx', bytes)
  {
  }

  /** A file the receiver can write to. */
  predicate Writable(path: Path, rx: Rx) {
    NulFree(path) && path in rx.files && |rx.files[path]| < LONG_LIMIT
  }

  lemma {:induction false} ReceiveMany(host: Host, path: Path, ms: seq<Sent>, rx: Rx)
    requires Writable(path, rx) && Next(rx, Bytestream(ms))
    requires Deliverable(host.inflate, path, ms, |rx.files[path]|) && Untouched(path, ms, host.faults, |rx.acks|)
    ensures AllInBounds(WritesIn(ms), |rx.files[path]|)
    ensures Receive(host, rx) == Receive(host, After(path, ms, rx))
    decreases |ms|
  {
    DeliverableInBounds(host.inflate, path, ms, |rx.files[path]|);
    if ms == [] {
      AfterNone(path, rx);
    } else {
      TailUntouched(path, ms, host.faults, |rx.acks|);
      TailDeliverable(host.inflate, path, ms, |rx.files[path]|);
      NextInStream(ms, rx);
      ReceiveOne(host, path, ms[0], rx);
      AfterFirst(path, ms, rx);
      var rx1 := Stored(path, ms[0], rx);
      NextElsewhere(rx.Skip(|ms[0].frame|), rx1, Bytestream(ms[1..]));
      ReceiveMany(host, path, ms[1..], rx1);
    }
  }

  /** Any list of messages followed by end-of-data, in any mix of compressed and raw bodies:
      the receiver consumes exactly those bytes, applies the writes in order, echoes every id
      and exits with ERR_DONE, unless echoing the last one fails. */
  lemma StreamRoundTrip(host: Host, path: Path, ms: seq<Sent>, eod: nat, rx: Rx)
    requires Writable(path, rx) && eod < U32_LIMIT && Next(rx, Bytestream(ms) + EncodeEod(eod).value)
    requires Deliverable(host.inflate, path, ms, |rx.files[path]|) && Untouched(path, ms, host.faults, |rx.acks|)
    ensures AllInBounds(WritesIn(ms), |rx.files[path]|)
    ensures
      var after := After(path, ms, rx);
      Receive(host, rx) ==
        if host.faults(|after.acks|).EchoFails? then (Code(ERR_WRITE_MSG_ID), after.Skip(8))
        else (Code(ERR_DONE), after.Skip(8).(acks := after.acks + [eod]))
  {
    NextSplits(rx, Bytestream(ms), EncodeEod(eod).value);
    ReceiveMany(host, path, ms, rx);
    NextElsewhere(rx.Skip(|Bytestream(ms)|), After(path, ms, rx), EncodeEod(eod).value);
    ReceiveEod(host, eod, After(path, ms, rx));
  }

  // ----- Under any faults ------------------------------------------------------------------------------

  /** The position of the first message that is refused something it needs, or the number of messages. */
  function FirstHit(path: Path, ms: seq<Sent>, faults: nat -> Fault, n: nat): (j: nat)
    ensures j <= |ms|
    decreases |ms|
  {
    if ms == [] || !Unhit(path, ms[0], faults(n)) then 0 else 1 + FirstHit(path, ms[1..], faults, n + 1)
  }

  /** What a run leaves that started at `rx` with the messages and the end-of-data before it: the first `j`
      messages are stored and echoed, and of the next one at most a first part is in the file; the exit code
      is ERR_DONE if and only if there is no next one and the end-of-data is echoed too. */
  predicate StoredUpTo(host: Host, path: Path, ms: seq<Sent>, j: nat, eod: nat, rx: Rx, e: Exit, rx': Rx)
    requires path in rx.files && j <= |ms|
  {
    && AllInBounds(WritesIn(ms[..j]), |rx.files[path]|)
    && var before := After(path, ms[..j], rx);
    && (e == Code(ERR_DONE) <==> j == |ms| && !host.faults(|before.acks|).EchoFails?)
    && rx'.acks == before.acks + (if e == Code(ERR_DONE) then [eod] else [])
    && rx'.files == if j == |ms| then before.files
                    else FilesAfter(path, ms[j].w, before.files, host.faults(|before.acks|), e)
  }

  /** One more message stored first. */
  lemma StoredUpToCons(host: Host, path: Path, ms: seq<Sent>, j: nat, eod: nat, rx: Rx, e: Exit, rx': Rx)
    requires ms != [] && j < |ms| && path in rx.files && ms[0].w.InBounds(|rx.files[path]|)
    requires StoredUpTo(host, path, ms[1..], j, eod, Stored(path, ms[0], rx), e, rx')
    ensures StoredUpTo(host, path, ms, j + 1, eod, rx, e, rx')
  {
    var done := ms[..j + 1];
    assert done[1..] == ms[1..][..j] && done[0] == ms[0];
    WritesInCons(done);
    assert AllInBounds(WritesIn(done), |rx.files[path]|);
    AfterFirst(path, done, rx);
    assert j + 1 < |ms| ==> ms[1..][j] == ms[j + 1];
  }

  lemma Associate(a: seq<byte>, b: seq<byte>, c: seq<byte>)
    ensures a + b + c == a + (b + c)
  {
  }

  lemma NextAfterFirst(ms: seq<Sent>, more: seq<byte>, rx: Rx, rx1: Rx)
    requires ms != [] && Next(rx, Bytestream(ms) + more)
    requires rx1.input == rx.input && rx1.pos == rx.pos + |ms[0].frame|
    ensures Next(rx1, Bytestream(ms[1..]) + more)
  {
    var tail := Bytestream(ms[1..]);
    Associate(ms[0].frame, tail, more);
    NextSplits(rx, ms[0].frame, tail + more);
    NextElsewhere(rx.Skip(|ms[0].frame|), rx1, tail + more);
  }

  lemma StopsFirst(host: Host, path: Path, ms: seq<Sent>, eod: nat, rx: Rx)
    requires ms != [] && Ready(host.inflate, path, ms[0], rx) && !Unhit(path, ms[0], host.faults(|rx.acks|))
    ensures var (e, rx') := Receive(host, rx); StoredUpTo(host, path, ms, 0, eod, rx, e, rx')
  {
    StopsAt(host, path, ms[0], rx);
    AfterNone(path, rx);
  }

  lemma StopsAtEod(host: Host, path: Path, eod: nat, rx: Rx)
    requires path in rx.files && eod < U32_LIMIT && Next(rx, EncodeEod(eod).value)
    ensures var (e, rx') := Receive(host, rx); StoredUpTo(host, path, [], 0, eod, rx, e, rx')
  {
    ReceiveEod(host, eod, rx);
    AfterNone(path, rx);
  }

  /** The first message is stored and the run goes on as if it had started after it. */
  lemma GoesOn(host: Host, path: Path, ms: seq<Sent>, more: seq<byte>, rx: Rx)
    requires ms != [] && Ready(host.inflate, path, ms[0], rx) && Unhit(path, ms[0], host.faults(|rx.acks|))
    requires Next(rx, Bytestream(ms) + more)
    ensures var rx1 := Stored(path, ms[0], rx);
      && Receive(host, rx1) == Receive(host, rx)
      && Writable(path, rx1) && Next(rx1, Bytestream(ms[1..]) + more)
      && |rx1.acks| == |rx.acks| + 1 && |rx1.files[path]| == |rx.files[path]|
  {
    ReceiveOne(host, path, ms[0], rx);
    NextAfterFirst(ms, more, rx, Stored(path, ms[0], rx));
  }

  lemma ReadyForFirst(inflate: Inflate, path: Path, ms: seq<Sent>, more: seq<byte>, rx: Rx)
    requires Writable(path, rx) && ms != [] && Next(rx, Bytestream(ms) + more)
    requires Deliverable(inflate, path, ms, |rx.files[path]|)
    ensures Ready(inflate, path, ms[0], rx)
  {
    NextSplits(rx, Bytestream(ms), more);
    TailDeliverable(inflate, path, ms, |rx.files[path]|);
    NextInStream(ms, rx);
  }

  lemma {:induction false} UnderFaults(host: Host, path: Path, ms: seq<Sent>, eod: nat, rx: Rx, e: Exit, rx': Rx)
    requires Writable(path, rx) && eod < U32_LIMIT && Next(rx, Bytestream(ms) + EncodeEod(eod).value)
    requires Deliverable(host.inflate, path, ms, |rx.files[path]|) && Receive(host, rx) == (e, rx')
    ensures StoredUpTo(host, path, ms, FirstHit(path, ms, host.faults, |rx.acks|), eod, rx, e, rx')
    decreases |ms|
  {
    if ms == [] {
      NextSplits(rx, [], EncodeEod(eod).value);
      StopsAtEod(host, path, eod, rx);
    } else {
      ReadyForFirst(host.inflate, path, ms, EncodeEod(eod).value, rx);
      if Unhit(path, ms[0], host.faults(|rx.acks|)) {
        var rx1 := Stored(path, ms[0], rx);
        GoesOn(host, path, ms, EncodeEod(eod).value, rx);
        TailDeliverable(host.inflate, path, ms, |rx.files[path]|);
        UnderFaults(host, path, ms[1..], eod, rx1, e, rx');
        StoredUpToCons(host, path, ms, FirstHit(path, ms[1..], host.faults, |rx1.acks|), eod, rx, e, rx');
      } else {
        StopsFirst(host, path, ms, eod, rx);
      }
    }
  }

  /** Whatever the system refuses, and whenever: the receiver stores and echoes the messages in order up to
      the first one that is refused something it needs. */
  lemma ReceiveUnderFaults(host: Host, path: Path, ms: seq<Sent>, eod: nat, rx: Rx)
    requires Writable(path, rx) && eod < U32_LIMIT && Next(rx, Bytestream(ms) + EncodeEod(eod).value)
    requires Deliverable(host.inflate, path, ms, |rx.files[path]|)
    ensures
      var (e, rx') := Receive(host, rx);
      StoredUpTo(host, path, ms, FirstHit(path, ms, host.faults, |rx.acks|), eod, rx, e, rx')
  {
    var (e, rx') := Receive(host, rx);
    UnderFaults(host, path, ms, eod, rx, e, rx');
  }

  /** No message is hit on a host that refuses nothing. */
  lemma {:induction false} NothingHit(path: Path, ms: seq<Sent>, faults: nat -> Fault, n: nat)
    requires forall i: nat :: faults(i).NoFault?
    ensures FirstHit(path, ms, faults, n) == |ms|
    decreases |ms|
  {
    if ms != [] {
      NothingHit(path, ms[1..], faults, n + 1);
    }
  }
}
