/** The receiver on arbitrary bytes: it stores and acknowledges well-formed messages and nothing else. */
module AnyInput {
  import opened Wrappers
  import opened Bytes
  import opened Disk
  import opened Framing
  import opened Receiver
  import opened Stream

  /** The parts of a message on the wire. */
  datatype Raw = Raw(id: nat, inflatedLen: nat, body: seq<byte>)

  predicate InRange(m: Raw) {
    && m.id < 0x1_0000_0000 && 9 <= |m.body| <= 104857600
    && (m.inflatedLen == 0 || 9 <= m.inflatedLen <= 104857600)
  }

  function BytesOf(m: Raw): seq<byte> {
    Pack(m.id, 4) + (Pack(|m.body|, 4) + (Pack(m.inflatedLen, 4) + m.body))
  }

  /** The body, inflated if need be, names the path and holds the write. */
  predicate Says(inflate: Inflate, m: Raw, path: Path, w: Write) {
    var plain := path + [0] + Pack(w.offset, 8) + w.data;
    && 0 !in path && w.offset < 0x1_0000_0000_0000_0000
    && if m.inflatedLen == 0 then m.body == plain else inflate(m.body) == Some(plain) && |plain| == m.inflatedLen
  }

  /** The system refuses nothing that this message needs. */
  predicate Spared(m: Raw, w: Write, fault: Fault) {
    match fault
    case NoFault => true
    case NoInflateBuffer => m.inflatedLen == 0
    case ZlibFails => m.inflatedLen == 0
    case WriteFails(_) => w.data == []
    case _ => false
  }

  /** The receiver is in front of this message, which writes inside an existing file and is refused nothing. */
  predicate InFrontOf(inflate: Inflate, fault: Fault, rx: Rx, m: Raw, path: Path, w: Write) {
    && InRange(m) && Next(rx, BytesOf(m)) && Says(inflate, m, path, w) && Spared(m, w, fault)
    && path in rx.files && w.offset + |w.data| < 0x8000_0000_0000_0000 && w.offset + |w.data| <= |rx.files[path]|
  }

  // ----- A well-formed message is stored -----------------------------------------------------------

  lemma BodyIsStored(inflate: Inflate, fault: Fault, m: Raw, path: Path, w: Write, files: Files)
    requires Says(inflate, m, path, w) && Spared(m, w, fault)
    requires path in files && w.offset + |w.data| < LONG_LIMIT && w.offset + |w.data| <= |files[path]|
    ensures TakeBody(inflate, fault, m.body, m.inflatedLen, files) ==
            (Code(-1), files[path := Overwrite(files[path], w)])
  {
    assert path + [0] + Pack(w.offset, 8) + w.data == Inflated(path, w.offset, w.data);
    StoreInflated(path, w, files, fault);
    StoreWriteOutcome(path, w, files, fault);
  }

  lemma BodyIsHandled(inflate: Inflate, fault: Fault, rx: Rx, id: nat, body: seq<byte>, inflatedLen: nat, files: Files)
    requires Next(rx, body) && !fault.NoBuffer?
    requires TakeBody(inflate, fault, body, inflatedLen, rx.files) == (Code(-1), files)
    ensures HandleBody(inflate, fault, rx, id, |body|, inflatedLen) ==
            (Code(-1), Rx(rx.input, rx.pos + |body|, files, rx.acks + [id]))
  {
  }

  lemma HeaderIsRead(inflate: Inflate, fault: Fault, rx: Rx, m: Raw)
    requires InRange(m) && Next(rx, BytesOf(m))
    ensures Next(rx.Skip(12), m.body)
    ensures HandleMsg(inflate, fault, rx) ==
            HandleBody(inflate, fault, rx.Skip(12), m.id, |m.body|, m.inflatedLen)
  {
    HeaderFields(inflate, fault, m.id, |m.body|, m.inflatedLen, m.body, rx);
  }

  /** The state after a message whose write was stored. */
  function Kept(rx: Rx, m: Raw, path: Path, w: Write): Rx
    requires path in rx.files && w.InBounds(|rx.files[path]|)
  {
    Rx(rx.input, rx.pos + 12 + |m.body|, rx.files[path := Overwrite(rx.files[path], w)], rx.acks + [m.id])
  }

  lemma HandledAsKept(inflate: Inflate, fault: Fault, rx: Rx, m: Raw, path: Path, w: Write)
    requires path in rx.files && w.InBounds(|rx.files[path]|) && Next(rx.Skip(12), m.body) && !fault.NoBuffer?
    requires TakeBody(inflate, fault, m.body, m.inflatedLen, rx.files) ==
             (Code(-1), rx.files[path := Overwrite(rx.files[path], w)])
    ensures HandleBody(inflate, fault, rx.Skip(12), m.id, |m.body|, m.inflatedLen) == (Code(-1), Kept(rx, m, path, w))
  {
    var files := rx.files[path := Overwrite(rx.files[path], w)];
    BodyIsHandled(inflate, fault, rx.Skip(12), m.id, m.body, m.inflatedLen, files);
  }

  lemma MessageIsStored(inflate: Inflate, fault: Fault, rx: Rx, m: Raw, path: Path, w: Write)
    requires InFrontOf(inflate, fault, rx, m, path, w)
    ensures HandleMsg(inflate, fault, rx) == (Code(-1), Kept(rx, m, path, w))
  {
    HeaderIsRead(inflate, fault, rx, m);
    BodyIsStored(inflate, fault, m, path, w, rx.files);
    HandledAsKept(inflate, fault, rx, m, path, w);
  }

  // ----- Whatever is stored is a well-formed message -------------------------------------------------

  /** A body that is taken reads as a path, a NUL, an offset and data. */
  lemma StoredBody(body: seq<byte>, files: Files, fault: Fault) returns (path: Path, w: Write)
    requires Store(body, files, fault).0 == Code(-1)
    ensures body == path + [0] + Pack(w.offset, 8) + w.data && 0 !in path && w.offset < U64_LIMIT
    ensures StoreWrite(path, w, files, fault).0 == Code(-1)
  {
    var n := NulIndex(body);
    NulIndexIsFirst(body);
    path, w := body[..n], Write(Unpack(body[n + 1..n + 9]), body[n + 9..]);
    FieldBytes(body[n + 1..n + 9]);
    BodySlices(body, n);
    assert forall i | 0 <= i < n :: path[i] == body[i];
  }

  lemma BodySlices(b: seq<byte>, n: nat)
    requires n + 9 <= |b|
    ensures b == b[..n] + [b[n]] + b[n + 1..n + 9] + b[n + 9..]
  {
  }

  lemma PastHeader(inflate: Inflate, fault: Fault, rx: Rx)
    requires HandleMsg(inflate, fault, rx).0 == Code(-1)
    ensures rx.Has(12)
    ensures var size, inflatedLen := rx.Skip(4).Field(), rx.Skip(8).Field();
      && size != 0 && !BadSize(size) && (inflatedLen == 0 || !BadSize(inflatedLen))
      && HandleBody(inflate, fault, rx.Skip(12), rx.Field(), size, inflatedLen).0 == Code(-1)
  {
    assert HandleSize(inflate, fault, rx.Skip(4), rx.Field()).0 == Code(-1);
    assert HandleInflatedSize(inflate, fault, rx.Skip(8), rx.Field(), rx.Skip(4).Field()).0 == Code(-1);
  }

  lemma NextJoins(rx: Rx, a: seq<byte>, b: seq<byte>)
    requires Next(rx, a) && Next(rx.Skip(|a|), b)
    ensures Next(rx, a + b)
  {
    var both := rx.input[rx.pos..rx.pos + |a| + |b|];
    assert both == both[..|a|] + both[|a|..];
  }

  lemma FieldIsNext(rx: Rx)
    requires rx.Has(4)
    ensures rx.Field() < U32_LIMIT && |Pack(rx.Field(), 4)| == 4 && Next(rx, Pack(rx.Field(), 4))
  {
    FieldBytes(rx.input[rx.pos..rx.pos + 4]);
  }

  lemma NextThree(rx: Rx, a: seq<byte>, b: seq<byte>, c: seq<byte>, d: seq<byte>)
    requires |a| == |b| == |c| == 4
    requires Next(rx, a) && Next(rx.Skip(4), b) && Next(rx.Skip(8), c) && Next(rx.Skip(12), d)
    ensures Next(rx, a + (b + (c + d)))
  {
    NextJoins(rx.Skip(8), c, d);
    NextJoins(rx.Skip(4), b, c + d);
    NextJoins(rx, a, b + (c + d));
  }

  lemma HeaderBytes(rx: Rx, m: Raw)
    requires Reads(rx, m)
    ensures m.id < U32_LIMIT && Next(rx, BytesOf(m))
  {
    FieldIsNext(rx);
    FieldIsNext(rx.Skip(4));
    FieldIsNext(rx.Skip(8));
    NextThree(rx, Pack(m.id, 4), Pack(|m.body|, 4), Pack(m.inflatedLen, 4), m.body);
  }

  /** The receiver has read these parts. */
  predicate Reads(rx: Rx, m: Raw) {
    && rx.Has(12 + |m.body|) && Next(rx.Skip(12), m.body)
    && m.id == rx.Field() && |m.body| == rx.Skip(4).Field() && m.inflatedLen == rx.Skip(8).Field()
  }

  lemma PastBody(inflate: Inflate, fault: Fault, rx: Rx, id: nat, size: nat, inflatedLen: nat) returns (body: seq<byte>)
    requires HandleBody(inflate, fault, rx, id, size, inflatedLen).0 == Code(-1)
    ensures rx.Has(size) && |body| == size && Next(rx, body)
    ensures !fault.NoBuffer? && TakeBody(inflate, fault, body, inflatedLen, rx.files).0 == Code(-1)
  {
    body := rx.input[rx.pos..rx.pos + size];
  }

  lemma StoredHeader(inflate: Inflate, fault: Fault, rx: Rx) returns (m: Raw)
    requires HandleMsg(inflate, fault, rx).0 == Code(-1)
    ensures InRange(m) && Next(rx, BytesOf(m))
    ensures !fault.NoBuffer? && TakeBody(inflate, fault, m.body, m.inflatedLen, rx.files).0 == Code(-1)
  {
    PastHeader(inflate, fault, rx);
    var id, size, inflatedLen := rx.Field(), rx.Skip(4).Field(), rx.Skip(8).Field();
    var body := PastBody(inflate, fault, rx.Skip(12), id, size, inflatedLen);
    m := Raw(id, inflatedLen, body);
    HeaderBytes(rx, m);
  }

  lemma StoredIsMessage(inflate: Inflate, fault: Fault, rx: Rx) returns (m: Raw, path: Path, w: Write)
    requires HandleMsg(inflate, fault, rx).0 == Code(-1)
    ensures InFrontOf(inflate, fault, rx, m, path, w)
  {
    m := StoredHeader(inflate, fault, rx);
    var plain := if m.inflatedLen == 0 then m.body else inflate(m.body).value;
    path, w := StoredBody(plain, rx.files, fault);
    StoreWriteOutcome(path, w, rx.files, fault);
  }

  /** Whatever bytes the receiver is in front of, it goes on and echoes an id if and only if they begin with a
      message in range whose body names an existing file and a write inside it; then exactly that write is in
      the file, exactly that id is echoed, and exactly the message's bytes are consumed. */
  lemma StoredIff(inflate: Inflate, fault: Fault, rx: Rx)
    ensures HandleMsg(inflate, fault, rx).0 == Code(-1) <==>
            exists m, path, w :: InFrontOf(inflate, fault, rx, m, path, w)
    ensures forall m, path, w | InFrontOf(inflate, fault, rx, m, path, w) ::
              HandleMsg(inflate, fault, rx).1 == Kept(rx, m, path, w)
  {
    if HandleMsg(inflate, fault, rx).0 == Code(-1) {
      var m, path, w := StoredIsMessage(inflate, fault, rx);
    }
    forall m, path, w | InFrontOf(inflate, fault, rx, m, path, w)
      ensures HandleMsg(inflate, fault, rx) == (Code(-1), Kept(rx, m, path, w))
    {
      MessageIsStored(inflate, fault, rx, m, path, w);
    }
  }

  // ----- The codes for what is not a message ---------------------------------------------------------

  /** What is wrong with a message, field after field; `left` is what remains of the input. */
  lemma HeaderCodes(inflate: Inflate, fault: Fault, rx: Rx)
    ensures
      var left := |rx.input| - rx.pos;
      var e := HandleMsg(inflate, fault, rx).0;
      if left < 4 then e == Code(11)
      else if left < 8 then e == Code(1)
      else
        var size := Unpack(rx.input[rx.pos + 4..rx.pos + 8]);
        if size == 0 then e == (if fault.EchoFails? then Code(14) else Code(0))
        else if size < 9 || size > 104857600 then e == Code(2)
        else e == HandleInflatedSize(inflate, fault, rx.Skip(8), rx.Field(), size).0
  {
  }

  lemma LengthCodes(inflate: Inflate, fault: Fault, rx: Rx, id: nat, size: nat)
    ensures
      var left := |rx.input| - rx.pos;
      var e := HandleInflatedSize(inflate, fault, rx, id, size).0;
      if left < 4 then e == Code(12)
      else
        var inflatedLen := Unpack(rx.input[rx.pos..rx.pos + 4]);
        if inflatedLen != 0 && (inflatedLen < 9 || inflatedLen > 104857600) then e == Code(12)
        else if fault.NoBuffer? then e == Code(9)
        else if left < 4 + size then e == Code(5)
        else e == TakeBody(inflate, fault, rx.input[rx.pos + 4..rx.pos + 4 + size], inflatedLen, rx.files).0
  {
  }

  /** What is wrong with a body: it cannot be inflated to the announced length, or it has no NUL. */
  lemma BodyCodes(inflate: Inflate, fault: Fault, raw: seq<byte>, inflatedLen: nat, files: Files)
    ensures
      var (e, files') := TakeBody(inflate, fault, raw, inflatedLen, files);
      if inflatedLen != 0 && fault.NoInflateBuffer? then e == Code(9) && files' == files
      else if inflatedLen != 0 && (fault.ZlibFails? || inflate(raw).None? || |inflate(raw).value| > inflatedLen) then
        e == Code(13) && files' == files
      else if inflatedLen != 0 && |inflate(raw).value| < inflatedLen then e == Undefined
      else
        var plain := if inflatedLen == 0 then raw else inflate(raw).value;
        0 !in plain ==> e == Code(4) && files' == files
  {
    var plain := if inflatedLen == 0 || inflate(raw).None? then raw else inflate(raw).value;
    NulIndexIsFirst(plain);
    assert NulIndex(plain) < |plain| ==> plain[NulIndex(plain)] in plain;
  }
}
