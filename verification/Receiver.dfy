/** The receiving helper: it parses the message stream from its standard input, applies each
    positioned write to an existing file, and echoes every message id. */
module Receiver {
  import opened Wrappers
  import opened Bytes
  import opened Disk
  import opened Framing

  const ERR_MORE_MSG := -1
  const ERR_DONE := 0
  const ERR_READ_MSG_SIZE := 1
  const ERR_MSG_SIZE := 2
  const ERR_OPEN_FILE := 3
  const ERR_DATA := 4
  const ERR_IO_OPEN := 5
  const ERR_IO_SEEK := 6
  const ERR_IO_WRITE := 7
  const ERR_IO_CLOSE := 8
  const ERR_NO_MEM := 9
  const ERR_READ_MSG_ID := 11
  const ERR_MSG_SIZE_INFLATED := 12
  const ERR_ZLIB := 13
  const ERR_WRITE_MSG_ID := 14
  const ERR_OUT_OF_BOUNDS := 15

  /** A return code, or a place where C leaves the behaviour undefined. */
  datatype Exit = Code(n: int) | Undefined

  /** What the operating system refuses while one message is handled, if anything. A write or a close
      that fails may have put the first `kept` bytes into the file. */
  datatype Fault =
    | NoFault
    | NoBuffer
    | NoInflateBuffer
    | ZlibFails
    | OpenFails
    | SeekFails
    | TellFails
    | WriteFails(kept: nat)
    | CloseFails(kept: nat)
    | EchoFails

  /** The decompressor, and the fault met by each message, counted from the start of the process. */
  datatype Host = Host(inflate: Inflate, faults: nat -> Fault)

  type Files = map<Path, seq<byte>>

  /** The process: its input and how far it has read, the files, and the ids echoed so far. */
  datatype Rx = Rx(input: seq<byte>, pos: nat, files: Files, acks: seq<nat>) {
    predicate Has(n: nat) { pos + n <= |input| }

    /** The next four bytes as a number. */
    function Field(): nat
      requires Has(4)
    {
      Unpack(input[pos..pos + 4])
    }

    function Skip(n: nat): Rx { this.(pos := pos + n) }

    /** `fread` has met the end of the stream. */
    function AtEnd(): Rx { this.(pos := |input|) }
  }

  predicate BadSize(n: nat) { n < MIN_MSG_SIZE || n > MAX_MSG_SIZE }

  /** `memchr`: the first position of a NUL byte, or the length if there is none. */
  function NulIndex(b: seq<byte>): (k: nat)
    ensures k <= |b|
  {
    if b == [] || b[0] == 0 then 0 else 1 + NulIndex(b[1..])
  }

  lemma {:induction false} NulIndexIsFirst(b: seq<byte>)
    ensures var k := NulIndex(b); (forall i | 0 <= i < k :: b[i] != 0) && (k < |b| ==> b[k] == 0)
    decreases |b|
  {
    if b != [] && b[0] != 0 {
      NulIndexIsFirst(b[1..]);
      assert forall i | 0 < i < |b| :: b[i] == b[1..][i - 1];
    }
  }

  /** The message body as the receiver sees it after decompression. */
  datatype Body = Bytes(b: seq<byte>) | ZlibError | ShortInflate

  function Unwrap(inflate: Inflate, raw: seq<byte>, inflatedLen: nat): Body {
    if inflatedLen == 0 then Bytes(raw)
    else match inflate(raw)
      case None => ZlibError
      case Some(b) =>
        if |b| > inflatedLen then ZlibError
        else if |b| < inflatedLen then ShortInflate
        else Bytes(b)
  }

  /** The part of a write that gets into the file. */
  function Reached(w: Write, fault: Fault): (r: Write)
    ensures r.offset == w.offset && |r.data| <= |w.data|
  {
    if (fault.WriteFails? || fault.CloseFails?) && fault.kept < |w.data|
    then Write(w.offset, w.data[..fault.kept]) else w
  }

  /** `fwrite`, `fclose` and the echo. Writing nothing cannot fall short. */
  function Finish(w: Write, fault: Fault): Exit {
    if fault.WriteFails? && w.data != [] then Code(ERR_IO_WRITE)
    else if fault.CloseFails? then Code(ERR_IO_CLOSE)
    else if fault.EchoFails? then Code(ERR_WRITE_MSG_ID)
    else Code(ERR_MORE_MSG)
  }

  /** Open the file, seek, check the bounds and write. */
  function StoreWrite(path: Path, w: Write, files: Files, fault: Fault): (Exit, Files) {
    if path !in files || fault.OpenFails? then (Code(ERR_OPEN_FILE), files)
    else if w.offset >= LONG_LIMIT || fault.SeekFails? then (Code(ERR_IO_SEEK), files)
    else if w.offset + |w.data| >= LONG_LIMIT then (Undefined, files)
    else if !w.InBounds(|files[path]|) || fault.TellFails? then (Code(ERR_OUT_OF_BOUNDS), files)
    else (Finish(w, fault), files[path := Overwrite(files[path], Reached(w, fault))])
  }

  /** Apply one decoded body to the files. */
  function Store(body: seq<byte>, files: Files, fault: Fault): (Exit, Files) {
    var nul := NulIndex(body);
    if nul == |body| then (Code(ERR_DATA), files)
    else if |body| < nul + 9 then (Undefined, files)
    else StoreWrite(body[..nul], Write(Unpack(body[nul + 1..nul + 9]), body[nul + 9..]), files, fault)
  }

  /** Decompress a body if need be, and store it. */
  function TakeBody(inflate: Inflate, fault: Fault, raw: seq<byte>, inflatedLen: nat, files: Files): (Exit, Files) {
    if inflatedLen != 0 && fault.NoInflateBuffer? then (Code(ERR_NO_MEM), files)
    else if inflatedLen != 0 && fault.ZlibFails? then (Code(ERR_ZLIB), files)
    else match Unwrap(inflate, raw, inflatedLen)
      case ZlibError => (Code(ERR_ZLIB), files)
      case ShortInflate => (Undefined, files)
      case Bytes(b) => Store(b, files, fault)
  }

  function HandleBody(inflate: Inflate, fault: Fault, rx: Rx, id: nat, size: nat, inflatedLen: nat): (r: (Exit, Rx))
    ensures r.1.input == rx.input && (r.0 == Code(ERR_MORE_MSG) ==> rx.pos <= r.1.pos <= |rx.input|)
  {
    if fault.NoBuffer? then (Code(ERR_NO_MEM), rx)
    else if !rx.Has(size) then (Code(ERR_IO_OPEN), rx.AtEnd())
    else
      var (e, files) := TakeBody(inflate, fault, rx.input[rx.pos..rx.pos + size], inflatedLen, rx.files);
      (e, rx.Skip(size).(files := files, acks := if e == Code(ERR_MORE_MSG) then rx.acks + [id] else rx.acks))
  }

  function HandleInflatedSize(inflate: Inflate, fault: Fault, rx: Rx, id: nat, size: nat): (r: (Exit, Rx))
    ensures r.1.input == rx.input && (r.0 == Code(ERR_MORE_MSG) ==> rx.pos <= r.1.pos <= |rx.input|)
  {
    if !rx.Has(4) then (Code(ERR_MSG_SIZE_INFLATED), rx.AtEnd())
    else if rx.Field() != 0 && BadSize(rx.Field()) then (Code(ERR_MSG_SIZE_INFLATED), rx.Skip(4))
    else HandleBody(inflate, fault, rx.Skip(4), id, size, rx.Field())
  }

  function HandleSize(inflate: Inflate, fault: Fault, rx: Rx, id: nat): (r: (Exit, Rx))
    ensures r.1.input == rx.input && (r.0 == Code(ERR_MORE_MSG) ==> rx.pos <= r.1.pos <= |rx.input|)
  {
    if !rx.Has(4) then (Code(ERR_READ_MSG_SIZE), rx.AtEnd())
    else if rx.Field() == 0 then
      if fault.EchoFails? then (Code(ERR_WRITE_MSG_ID), rx.Skip(4))
      else (Code(ERR_DONE), rx.Skip(4).(acks := rx.acks + [id]))
    else if BadSize(rx.Field()) then (Code(ERR_MSG_SIZE), rx.Skip(4))
    else HandleInflatedSize(inflate, fault, rx.Skip(4), id, rx.Field())
  }

  function HandleMsg(inflate: Inflate, fault: Fault, rx: Rx): (r: (Exit, Rx))
    ensures r.1.input == rx.input && (r.0 == Code(ERR_MORE_MSG) ==> rx.pos < r.1.pos <= |rx.input|)
  {
    if !rx.Has(4) then (Code(ERR_READ_MSG_ID), rx.AtEnd())
    else HandleSize(inflate, fault, rx.Skip(4), rx.Field())
  }

  /** The whole run of the helper: handle messages until one does not ask for more. Every message before
      the last one is echoed, so the echoes number the messages. */
  function Receive(host: Host, rx: Rx): (Exit, Rx)
    decreases |rx.input| - rx.pos
  {
    var (e, rx') := HandleMsg(host.inflate, host.faults(|rx.acks|), rx);
    if e == Code(ERR_MORE_MSG) then Receive(host, rx') else (e, rx')
  }

  /** The helper process itself, with the read position, the files and the echoed ids as state. */
  class WriteDataProcess {
    const host: Host
    const input: seq<byte>
    var pos: nat
    var files: Files
    var acks: seq<nat>

    constructor(host: Host, stream: seq<byte>, files: Files)
      ensures this.host == host && Now() == Rx(stream, 0, files, [])
    {
      this.host := host;
      input := stream;
      pos := 0;
      this.files := files;
      acks := [];
    }

    function Now(): Rx
      reads this
    {
      Rx(input, pos, files, acks)
    }

    /** `fread`: `n` bytes, or None after reading what is left of a shorter stream. */
    method Read(n: nat) returns (buf: Option<seq<byte>>)
      modifies this`pos
      ensures buf == if old(Now()).Has(n) then Some(input[old(pos)..old(pos) + n]) else None
      ensures pos == if buf.Some? then old(pos) + n else |input|
    {
      if pos + n <= |input| {
        buf := Some(input[pos..pos + n]);
        pos := pos + n;
      } else {
        buf := None;
        pos := |input|;
      }
    }

    method HandleMessage(fault: Fault) returns (e: Exit)
      modifies this
      ensures (e, Now()) == HandleMsg(host.inflate, fault, old(Now()))
    {
      var idBytes := Read(4);
      if idBytes.None? { return Code(ERR_READ_MSG_ID); }
      e := ReceiveSize(fault, Unpack(idBytes.value));
    }

    method ReceiveSize(fault: Fault, id: nat) returns (e: Exit)
      modifies this
      ensures (e, Now()) == HandleSize(host.inflate, fault, old(Now()), id)
    {
      var sizeBytes := Read(4);
      if sizeBytes.None? { return Code(ERR_READ_MSG_SIZE); }
      var size := Unpack(sizeBytes.value);
      if size == 0 {
        if fault.EchoFails? { return Code(ERR_WRITE_MSG_ID); }
        acks := acks + [id];
        return Code(ERR_DONE);
      }
      if BadSize(size) { return Code(ERR_MSG_SIZE); }
      e := ReceiveInflatedSize(fault, id, size);
    }

    method ReceiveInflatedSize(fault: Fault, id: nat, size: nat) returns (e: Exit)
      modifies this
      ensures (e, Now()) == HandleInflatedSize(host.inflate, fault, old(Now()), id, size)
    {
      var inflatedBytes := Read(4);
      if inflatedBytes.None? { return Code(ERR_MSG_SIZE_INFLATED); }
      var inflatedLen := Unpack(inflatedBytes.value);
      if inflatedLen != 0 && BadSize(inflatedLen) { return Code(ERR_MSG_SIZE_INFLATED); }
      e := ReceiveBody(fault, id, size, inflatedLen);
    }

    method ReceiveBody(fault: Fault, id: nat, size: nat, inflatedLen: nat) returns (e: Exit)
      modifies this
      ensures (e, Now()) == HandleBody(host.inflate, fault, old(Now()), id, size, inflatedLen)
    {
      if fault.NoBuffer? { return Code(ERR_NO_MEM); }
      var raw := Read(size);
      if raw.None? { return Code(ERR_IO_OPEN); }
      ghost var out := TakeBody(host.inflate, fault, raw.value, inflatedLen, files);
      e := StoreBody(fault, raw.value, inflatedLen);
      assert (e, files) == out;
      if e == Code(ERR_MORE_MSG) {
        acks := acks + [id];
      }
    }

    method StoreBody(fault: Fault, raw: seq<byte>, inflatedLen: nat) returns (e: Exit)
      modifies this`files
      ensures (e, files) == TakeBody(host.inflate, fault, raw, inflatedLen, old(files))
    {
      if inflatedLen != 0 {
        if fault.NoInflateBuffer? { return Code(ERR_NO_MEM); }
        if fault.ZlibFails? { return Code(ERR_ZLIB); }
      }
      match Unwrap(host.inflate, raw, inflatedLen) {
        case ZlibError =>
          e := Code(ERR_ZLIB);
        case ShortInflate =>
          e := Undefined;
        case Bytes(b) =>
          var (err, stored) := Store(b, files, fault);
          e := err;
          files := stored;
      }
    }

    /** One call of `handle_msg` and what it means for the whole run. */
    method Step() returns (e: Exit)
      modifies this
      ensures Receive(host, old(Now())) == if e == Code(ERR_MORE_MSG) then Receive(host, Now()) else (e, Now())
      ensures e == Code(ERR_MORE_MSG) ==> old(pos) < pos <= |input|
    {
      e := HandleMessage(host.faults(|acks|));
    }

    method Run() returns (e: Exit)
      modifies this
      ensures (e, Now()) == Receive(host, old(Now()))
    {
      e := Step();
      while e == Code(ERR_MORE_MSG)
        invariant Receive(host, old(Now())) == if e == Code(ERR_MORE_MSG) then Receive(host, Now()) else (e, Now())
        invariant e == Code(ERR_MORE_MSG) ==> pos <= |input|
        decreases if e == Code(ERR_MORE_MSG) then |input| - pos + 1 else 0
      {
        e := Step();
      }
    }
  }
}
