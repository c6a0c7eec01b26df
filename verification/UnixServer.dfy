/** The socket server's request handlers over its two caches, proved against SdkSpec. */
module UnixServers {
  import opened Options
  import opened Bytes
  import opened Wire
  import opened CodecSpec
  import Codecs
  import S = SdkSpec
  import P = SparseSpec
  import opened SparseCaches

  /** The value of `n` little-endian bytes at a position. */
  method DecodeInt(p: Bytes, pos: nat, n: nat) returns (v: nat)
    requires pos + n <= |p|
    ensures v == Number(p[pos..pos + n]) && v < Pow256(n)
  {
    v := 0;
    var scale := 1;
    for i := 0 to n
      invariant v == Number(p[pos..pos + i]) && scale == Pow256(i)
    {
      Codecs.NumberAppend(p[pos..pos + i], p[pos + i]);
      assert p[pos..pos + i + 1] == p[pos..pos + i] + [p[pos + i]];
      v := v + p[pos + i] as int * scale;
      scale := 256 * scale;
    }
    LittleEndianOfNumber(p[pos..pos + n]);
  }

  class SyncCache {
    var data: map<Bytes, Bytes>

    constructor ()
      ensures data == map[]
    {
      data := map[];
    }

    method Put(key: Bytes, value: Bytes)
      modifies this
      ensures data == old(data)[key := value]
    {
      data := data[key := value];
    }

    method Get(key: Bytes) returns (value: Option<Bytes>)
      ensures value == if key in data then Some(data[key]) else None
    {
      value := if key in data then Some(data[key]) else None;
    }

    method Remove(key: Bytes) returns (removed: bool)
      modifies this
      ensures data == old(data) - {key} && removed == (key in old(data))
    {
      removed := key in data;
      data := data - {key};
    }
  }

  /** The key at the front of a payload, checked for `k` bytes more; then the position after it. */
  method ReadKey(p: Bytes, k: nat) returns (r: S.Parse<Bytes>, pos: nat)
    requires |p| < TWO_32
    ensures match S.ParseKey(p, k)
      case Parsed(got) => r == S.Parsed(got.value) && pos + k <= |p| && got.rest == p[pos..]
      case Ignored => r == S.Ignored
      case Overread => r == S.Overread
  {
    pos := 0;
    if |p| < 4 { return S.Ignored, 0; }
    var keyLength := DecodeInt(p, 0, 4);
    assert p[0..4] == p[..4];
    if |p| < (4 + keyLength + k) % TWO_32 { return S.Ignored, 0; }
    if |p| < 4 + keyLength + k { return S.Overread, 0; }
    r := S.Parsed(p[4..4 + keyLength]);
    pos := 4 + keyLength;
  }

  method ReadGetArgs(p: Bytes) returns (r: S.Parse<S.GetArgs>)
    requires |p| < TWO_32
    ensures r == S.ParseGet(p)
  {
    Powers();
    var key, pos := ReadKey(p, 2);
    if key.IsFailure() { return key.PropagateFailure(); }
    var hasRange := p[pos + 1] != 0;
    pos := pos + 2;
    ghost var rest := p[pos..];
    assert p[pos - 2..][2..] == rest;
    var offset, length := 0, 0;
    if hasRange && |p| >= pos + 16 {
      offset := DecodeInt(p, pos, 8);
      length := DecodeInt(p, pos + 8, 8);
      assert rest[..8] == p[pos..pos + 8];
      assert rest[8..16] == p[pos + 8..pos + 16];
    }
    r := S.Parsed(S.GetArgs(key.value, hasRange, offset, length));
  }

  method ReadPutArgs(p: Bytes) returns (r: S.Parse<(Bytes, Bytes)>)
    requires |p| < TWO_32
    ensures r == S.ParsePut(p)
  {
    if |p| < 8 { return S.Ignored; }
    var key, pos := ReadKey(p, 4);
    if key.IsFailure() { return key.PropagateFailure(); }
    var valueLength := DecodeInt(p, pos, 4);
    assert p[pos..][..4] == p[pos..pos + 4];
    pos := pos + 4;
    if |p| < pos + valueLength { return S.Ignored; }
    assert p[pos - 4..][4..] == p[pos..];
    assert p[pos..][..valueLength] == p[pos..pos + valueLength];
    r := S.Parsed((key.value, p[pos..pos + valueLength]));
  }

  method ReadKeyArg(p: Bytes) returns (r: S.Parse<Bytes>)
    requires |p| < TWO_32
    ensures r == S.ParseDelete(p)
  {
    var key, _ := ReadKey(p, 0);
    r := key;
  }

  method ReadCreateArgs(p: Bytes) returns (r: S.Parse<(Bytes, nat)>)
    requires |p| < TWO_32
    ensures r == S.ParseCreate(p)
  {
    var key, pos := ReadKey(p, 8);
    if key.IsFailure() { return key.PropagateFailure(); }
    var totalSize := DecodeInt(p, pos, 8);
    assert p[pos..][..8] == p[pos..pos + 8];
    r := S.Parsed((key.value, totalSize));
  }

  method ReadWriteRangeArgs(p: Bytes) returns (r: S.Parse<(Bytes, P.Write)>)
    requires |p| < TWO_32
    ensures r == S.ParseWriteRange(p)
  {
    var key, pos := ReadKey(p, 12);
    if key.IsFailure() { return key.PropagateFailure(); }
    var offset := DecodeInt(p, pos, 8);
    var dataLength := DecodeInt(p, pos + 8, 4);
    ghost var rest := p[pos..];
    assert rest[..8] == p[pos..pos + 8];
    assert rest[8..12] == p[pos + 8..pos + 12];
    pos := pos + 12;
    assert rest[12..] == p[pos..];
    if |p| < pos + dataLength { return S.Ignored; }
    assert p[pos..][..dataLength] == p[pos..pos + dataLength];
    r := S.Parsed((key.value, P.Write(offset, p[pos..pos + dataLength])));
  }

  method ReadCall(kind: u16, p: Bytes) returns (call: S.Call)
    requires |p| < TWO_32
    ensures call == S.ReadCall(kind, p)
  {
    match kind
    case 0x0100 =>
      var args := ReadGetArgs(p);
      call := S.GetCall(args);
    case 0x0102 =>
      var args := ReadPutArgs(p);
      call := S.PutCall(args);
    case 0x0104 =>
      var args := ReadKeyArg(p);
      call := S.DeleteCall(args);
    case 0x0108 =>
      var args := ReadCreateArgs(p);
      call := S.CreateCall(args);
    case 0x010A =>
      var args := ReadWriteRangeArgs(p);
      call := S.WriteRangeCall(args);
    case 0x010C =>
      var args := ReadKeyArg(p);
      call := S.FinalizeCall(args);
    case _ =>
      call := S.UnknownCall;
  }

  /** The header of a message, its magic number, and as much payload as it announces. */
  method ReadMessage(message: Bytes) returns (incoming: Option<S.Incoming>)
    ensures incoming == S.ReadMessage(message)
  {
    var view := new Codecs.View(message);
    var header := view.ReadWholeHeader();
    if header.IsFailure() || header.value.magic != MAGIC || |view.data| < header.value.length { return None; }
    var call := ReadCall(header.value.kind, view.data[..header.value.length]);
    incoming := Some(S.Incoming(call, header.value.requestId));
  }

  /** The response to a get: code, no metadata, data. */
  method BuildGetAnswer(found: bool, data: Bytes) returns (payload: Bytes)
    ensures payload == S.GetAnswer(found, data)
  {
    var buffer := new Codecs.Buffer();
    buffer.PutU32(if found then 0 else 1);
    buffer.PutBool(false);
    buffer.PutText(data);
    payload := buffer.bytes;
  }

  method CopyRange(value: Bytes, offset: nat, length: nat) returns (part: Bytes)
    ensures part == S.RangeOf(value, offset, length) && S.IsPart(part, value, offset, length)
  {
    part := [];
    if offset < |value| {
      var available := |value| - offset;
      var toCopy := if 0 < length < available then length else available;
      part := value[offset..offset + toCopy];
    }
  }

  class UnixServer {
    const cache: SyncCache
    const sparse: SparseCache

    ghost predicate Valid()
      reads this, sparse, sparse.Repr
    {
      sparse.Valid() && cache !in sparse.Repr
    }

    ghost function Model(): S.Server
      requires Valid()
      reads this, cache, sparse, sparse.Repr
    {
      S.Server(cache.data, sparse.Model())
    }

    constructor ()
      ensures Valid() && fresh(cache) && fresh(sparse.Repr) && Model() == S.Server(map[], map[])
    {
      cache := new SyncCache();
      sparse := new SparseCache();
    }

    lemma ModelSound()
      requires Valid()
      ensures S.Sound(Model())
    {
    }

    method ServeGet(args: S.Parse<S.GetArgs>) returns (reply: S.Reply)
      requires Valid()
      ensures reply == S.ServeGet(Model(), args)
    {
      if args.Ignored? { return S.Silent; }
      if args.Overread? { return S.Broken; }
      var a := args.value;
      var found := cache.Get(a.key);
      var data := [];
      if found.Some? && a.hasRange {
        data := CopyRange(found.value, a.offset, a.length);
      } else if found.Some? {
        data := found.value;
      }
      var payload := BuildGetAnswer(found.Some?, data);
      reply := S.Answer(0x0101, payload);
    }

    method ServePut(args: S.Parse<(Bytes, Bytes)>) returns (reply: S.Reply)
      requires Valid()
      modifies cache
      ensures Valid() && Model() == S.ServePut(old(Model()), args).0 && reply == S.ServePut(old(Model()), args).1
    {
      if args.Ignored? { return S.Silent; }
      if args.Overread? { return S.Broken; }
      cache.Put(args.value.0, args.value.1);
      reply := S.Answer(0x0103, S.CodeAnswer(0));
    }

    method ServeDelete(args: S.Parse<Bytes>) returns (reply: S.Reply)
      requires Valid()
      modifies cache
      ensures Valid() && Model() == S.ServeDelete(old(Model()), args).0 && reply == S.ServeDelete(old(Model()), args).1
    {
      if args.Ignored? { return S.Silent; }
      if args.Overread? { return S.Broken; }
      var _ := cache.Remove(args.value);
      reply := S.Answer(0x0105, S.CodeAnswer(0));
    }

    method ServeCreate(args: S.Parse<(Bytes, nat)>) returns (reply: S.Reply)
      requires Valid()
      modifies sparse.Repr
      ensures Valid() && fresh(sparse.Repr - old(sparse.Repr))
      ensures Model() == S.ServeCreate(old(Model()), args).0 && reply == S.ServeCreate(old(Model()), args).1
    {
      if args.Ignored? { return S.Silent; }
      if args.Overread? { return S.Broken; }
      var created := sparse.Create(args.value.0, args.value.1);
      reply := S.Answer(0x0109, S.CodeAnswer(if created then 0 else 1));
    }

    method ServeWriteRange(args: S.Parse<(Bytes, P.Write)>) returns (reply: S.Reply)
      requires Valid() && S.Sound(Model())
      modifies sparse.Repr
      ensures Valid() && sparse.Repr == old(sparse.Repr)
      ensures Model() == S.ServeWriteRange(old(Model()), args).0
      ensures reply == S.ServeWriteRange(old(Model()), args).1
    {
      if args.Ignored? { return S.Silent; }
      if args.Overread? { return S.Broken; }
      var v := sparse.WriteRange(args.value.0, args.value.1);
      if v == P.OutOfBounds { return S.Broken; }
      var code := 0;
      if v != P.Accepted {
        var present := sparse.Exists(args.value.0);
        code := if present then 2 else 1;
      }
      reply := S.Answer(0x010B, S.CodeAnswer(code));
    }

    method ServeFinalize(args: S.Parse<Bytes>) returns (reply: S.Reply)
      requires Valid()
      modifies cache, sparse.Repr
      ensures Valid() && sparse.Repr == old(sparse.Repr)
      ensures Model() == S.ServeFinalize(old(Model()), args).0 && reply == S.ServeFinalize(old(Model()), args).1
    {
      if args.Ignored? { return S.Silent; }
      if args.Overread? { return S.Broken; }
      var code, data := sparse.Finalize(args.value);
      if code == 0 { cache.Put(args.value, data); }
      reply := S.Answer(0x010D, S.CodeAnswer(code));
    }

    method Dispatch(call: S.Call) returns (reply: S.Reply)
      requires Valid() && S.Sound(Model())
      modifies cache, sparse.Repr
      ensures Valid() && fresh(sparse.Repr - old(sparse.Repr))
      ensures Model() == S.Dispatch(old(Model()), call).0 && reply == S.Dispatch(old(Model()), call).1
    {
      match call
      case GetCall(args) => reply := ServeGet(args);
      case PutCall(args) => reply := ServePut(args);
      case DeleteCall(args) => reply := ServeDelete(args);
      case CreateCall(args) => reply := ServeCreate(args);
      case WriteRangeCall(args) => reply := ServeWriteRange(args);
      case FinalizeCall(args) => reply := ServeFinalize(args);
      case UnknownCall => reply := S.Silent;
    }

    /** One request message: read it, serve it, respond. */
    method Process(message: Bytes, time: u64) returns (served: S.Served)
      requires Valid()
      modifies cache, sparse.Repr
      ensures Valid() && fresh(sparse.Repr - old(sparse.Repr)) && S.Sound(old(Model()))
      ensures Model() == S.Serve(old(Model()), message, time).0 && served == S.Serve(old(Model()), message, time).1
    {
      ModelSound();
      var incoming := ReadMessage(message);
      if incoming.None? { return S.Hangup; }
      var reply := Dispatch(incoming.value.call);
      served := S.Respond(reply, incoming.value.requestId, time);
    }
  }
}
