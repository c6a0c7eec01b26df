/**
 Histories of calls. Whatever the calls, an open sparse entry is the overlay of the writes accepted for it, and once it
 is finalized it is read back (`FinalizedIsRead`). Through the wire a history does the same (`ExchangedIsAfter`), so
 what clients write in ranges and finalize is what they read (`WrittenIsRead`).
 */
module SdkHistories {
  import opened Options
  import opened Bytes
  import opened Histories
  import opened Wire
  import opened SdkSpec
  import opened SdkTheorems
  import SparseSpec

  // ----- calls as such ---------------------------------------------------------------------------------------

  lemma DirectKeepsSound(s: Server, r: Request)
    requires Sound(s)
    ensures Sound(Direct(s, r).0)
  {
  }

  /** The server after a history of calls, from any number of clients. */
  function After(s: Server, history: seq<Request>): (s': Server)
    requires Sound(s)
    ensures Sound(s')
    decreases |history|
  {
    if history == [] then s
    else
      var before := After(s, history[..|history| - 1]);
      DirectKeepsSound(before, history[|history| - 1]);
      Direct(before, history[|history| - 1]).0
  }

  lemma AfterOne(s: Server, history: seq<Request>, r: Request)
    requires Sound(s)
    ensures After(s, history + [r]) == Direct(After(s, history), r).0
  {
    assert (history + [r])[..|history|] == history;
  }

  lemma {:induction false} AfterFirst(s: Server, r: Request, history: seq<Request>)
    requires Sound(s)
    ensures Sound(Direct(s, r).0) && After(s, [r] + history) == After(Direct(s, r).0, history)
    decreases |history|
  {
    DirectKeepsSound(s, r);
    if history == [] {
      AfterOne(s, [], r);
      assert [] + [r] == [r] + history;
    } else {
      var before, last := history[..|history| - 1], history[|history| - 1];
      AfterFirst(s, r, before);
      AfterOne(s, [r] + before, last);
      AfterOne(Direct(s, r).0, before, last);
      assert [r] + before + [last] == [r] + history && before + [last] == history;
    }
  }

  /** The range writes to a key that are inside its entry, in order. */
  function AcceptedWrites(history: seq<Request>, key: Bytes, total: nat): (w: seq<SparseSpec.Write>)
    ensures SparseSpec.AllAccepted(total, w)
    decreases |history|
  {
    if history == [] then []
    else
      var before, r := AcceptedWrites(history[..|history| - 1], key, total), history[|history| - 1];
      if r.WriteRange? && r.key == key && r.offset + |r.data| <= total then
        before + [SparseSpec.Write(r.offset, r.data)]
      else before
  }

  /** Whatever else happens, an open entry is the overlay of the writes accepted for it. */
  lemma {:induction false} HistoryOverlays(s: Server, key: Bytes, total: nat, history: seq<Request>)
    requires Sound(s) && key in s.sparse && s.sparse[key] == SparseSpec.New(total)
    requires forall i :: 0 <= i < |history| ==> !(history[i].Finalize? && history[i].key == key)
    ensures key in After(s, history).sparse
    ensures After(s, history).sparse[key] == SparseSpec.OverlayAll(total, AcceptedWrites(history, key, total))
    decreases |history|
  {
    if history != [] {
      var shorter, r := history[..|history| - 1], history[|history| - 1];
      HistoryOverlays(s, key, total, shorter);
      StepOverlays(After(s, shorter), r, key, total, AcceptedWrites(shorter, key, total));
    }
  }

  lemma StepOverlays(s: Server, r: Request, key: Bytes, total: nat, writes: seq<SparseSpec.Write>)
    requires Sound(s) && key in s.sparse && SparseSpec.AllAccepted(total, writes)
    requires s.sparse[key] == SparseSpec.OverlayAll(total, writes) && !(r.Finalize? && r.key == key)
    ensures key in Direct(s, r).0.sparse
    ensures Direct(s, r).0.sparse[key] ==
      if r.WriteRange? && r.key == key && r.offset + |r.data| <= total then
        SparseSpec.OverlayAll(total, writes + [SparseSpec.Write(r.offset, r.data)])
      else s.sparse[key]
  {
    if r.WriteRange? && r.key == key && r.offset + |r.data| <= total {
      var more := writes + [SparseSpec.Write(r.offset, r.data)];
      assert more[..|more| - 1] == writes;
    }
  }

  /** The entry was created, written to in any interleaving with other calls, and finalized. */
  function Finalized(s: Server, create: Request, history: seq<Request>): (f: (Server, Result))
    requires Sound(s) && create.Create?
  {
    DirectKeepsSound(s, create);
    Direct(After(Direct(s, create).0, history), Finalize(create.key))
  }

  ghost predicate NeverFinalizes(history: seq<Request>, key: Bytes) {
    forall i :: 0 <= i < |history| ==> !(history[i].Finalize? && history[i].key == key)
  }

  /** Calls that leave the value of a key alone. */
  ghost predicate LeaveValue(history: seq<Request>, key: Bytes) {
    forall i :: 0 <= i < |history| ==>
      !((history[i].Put? || history[i].Delete? || history[i].Finalize?) && history[i].key == key)
  }

  lemma {:induction false} ValueStays(s: Server, key: Bytes, history: seq<Request>)
    requires Sound(s) && key in s.values && LeaveValue(history, key)
    ensures key in After(s, history).values && After(s, history).values[key] == s.values[key]
    decreases |history|
  {
    if history != [] { ValueStays(s, key, history[..|history| - 1]); }
  }

  /** Every byte of a part is that of the last write that covers it. */
  ghost predicate IsWrittenPart(data: Bytes, writes: seq<SparseSpec.Write>, total: nat, offset: nat, length: nat) {
    && |data| == PartSize(total, offset, length)
    && forall i :: 0 <= i < |data| ==> SparseSpec.LastWrite(writes, offset + i) == Some(data[i])
  }

  lemma CoveredIsWritten(writes: seq<SparseSpec.Write>, total: nat, offset: nat, length: nat)
    requires SparseSpec.AllAccepted(total, writes) && SparseSpec.Complete(SparseSpec.OverlayAll(total, writes))
    ensures var data := RangeOf(SparseSpec.OverlayAll(total, writes).data, offset, length);
            IsWrittenPart(data, writes, total, offset, length)
  {
    var e := SparseSpec.OverlayAll(total, writes);
    RangeIsPart(e.data, offset, length);
    var data := RangeOf(e.data, offset, length);
    forall i | 0 <= i < |data| ensures SparseSpec.LastWrite(writes, offset + i) == Some(data[i]) {
      SparseSpec.OverlayIsLastWrite(total, writes, offset + i);
      assert e.written[offset + i];
    }
  }

  /**
   Finalizing succeeds exactly when the accepted writes cover every byte, and then, after any calls that leave the value
   alone, a get returns the part asked for, every byte of it that of the last write that covers it.
   */
  lemma FinalizedIsRead(s: Server, create: Request, history: seq<Request>, later: seq<Request>, offset: u64,
                        length: u64)
    requires Sound(s) && create.Create? && create.key !in s.sparse && NeverFinalizes(history, create.key)
    requires LeaveValue(later, create.key)
    ensures var writes := AcceptedWrites(history, create.key, create.totalSize);
      var f := Finalized(s, create, history);
      && (f.1.code == OK <==> forall k :: 0 <= k < create.totalSize ==> SparseSpec.CoveredBy(writes, k))
      && (f.1.code != OK ==> f.1.code == PARTIAL)
      && Sound(f.0)
      && (f.1.code == OK ==>
            && Direct(After(f.0, later), Request.Get(create.key, offset, length)).1.code == OK
            && IsWrittenPart(Direct(After(f.0, later), Request.Get(create.key, offset, length)).1.value, writes,
                             create.totalSize, offset, length))
  {
    DirectKeepsSound(s, create);
    var s1, key, total := Direct(s, create).0, create.key, create.totalSize;
    HistoryOverlays(s1, key, total, history);
    var writes := AcceptedWrites(history, key, total);
    SparseSpec.CompleteIffCovered(total, writes);
    FinalizeStores(After(s1, history), key);
    var f := Finalized(s, create, history);
    if f.1.code == OK {
      ValueStays(f.0, key, later);
      CoveredIsWritten(writes, total, offset, length);
    }
  }

  lemma FinalizeStores(s: Server, key: Bytes)
    requires Sound(s) && key in s.sparse
    ensures var f := Direct(s, Finalize(key));
      && Sound(f.0)
      && f.1.code == (if SparseSpec.Complete(s.sparse[key]) then OK else PARTIAL)
      && (f.1.code == OK ==> key in f.0.values && f.0.values[key] == s.sparse[key].data)
  {
    DirectKeepsSound(s, Finalize(key));
  }

  // ----- a map of values and a map of entries ----------------------------------------------------------------

  /** A call changes nothing under other keys. */
  lemma CallKeepsOthers(s: Server, r: Request, key: Bytes)
    requires Sound(s) && r.key != key
    ensures var s' := Direct(s, r).0;
      && (key in s'.values <==> key in s.values) && (key in s.values ==> s'.values[key] == s.values[key])
      && (key in s'.sparse <==> key in s.sparse) && (key in s.sparse ==> s'.sparse[key] == s.sparse[key])
  {
  }

  /** A get changes nothing; only puts, deletes and finalizing change values, only the sparse calls change entries. */
  lemma CallScope(s: Server, r: Request)
    requires Sound(s)
    ensures r.Get? ==> Direct(s, r).0 == s
    ensures !r.Put? && !r.Delete? && !r.Finalize? ==> Direct(s, r).0.values == s.values
    ensures !r.Create? && !r.WriteRange? && !r.Finalize? ==> Direct(s, r).0.sparse == s.sparse
  {
  }

  /** What was put is read, after any calls that leave the value alone: the part asked for, byte by byte. */
  lemma StoredIsRead(s: Server, put: Request, later: seq<Request>, offset: u64, length: u64)
    requires Sound(s) && put.Put? && LeaveValue(later, put.key)
    ensures Direct(s, put).1 == Code(OK) && Sound(Direct(s, put).0)
    ensures var got := Direct(After(Direct(s, put).0, later), Request.Get(put.key, offset, length)).1;
      got.code == OK && got.needed == |got.value| && IsPart(got.value, put.value, offset, length)
  {
    DirectKeepsSound(s, put);
    ValueStays(Direct(s, put).0, put.key, later);
    RangeIsPart(put.value, offset, length);
  }

  lemma {:induction false} StaysGone(s: Server, key: Bytes, history: seq<Request>)
    requires Sound(s) && key !in s.values && LeaveValue(history, key)
    ensures key !in After(s, history).values
    decreases |history|
  {
    if history != [] { StaysGone(s, key, history[..|history| - 1]); }
  }

  /** What was deleted is not found, after any calls that leave the value alone. */
  lemma DeletedIsGone(s: Server, key: Bytes, later: seq<Request>, offset: u64, length: u64)
    requires Sound(s) && LeaveValue(later, key)
    ensures Direct(s, Delete(key)).1 == Code(OK) && Sound(Direct(s, Delete(key)).0)
    ensures Direct(After(Direct(s, Delete(key)).0, later), Request.Get(key, offset, length)).1 == Code(NOT_FOUND)
  {
    DirectKeepsSound(s, Delete(key));
    StaysGone(Direct(s, Delete(key)).0, key, later);
  }

  /** Creating succeeds exactly when there is no such entry, and makes one with no byte written. */
  lemma CreateMakesEntry(s: Server, create: Request)
    requires Sound(s) && create.Create?
    ensures Direct(s, create).1 == Code(if create.key in s.sparse then INTERNAL else OK)
    ensures create.key in Direct(s, create).0.sparse
    ensures create.key !in s.sparse ==>
      var e := Direct(s, create).0.sparse[create.key];
      && |e.data| == |e.written| == create.totalSize
      && forall k :: 0 <= k < create.totalSize ==> e.data[k] == 0 && !e.written[k]
  {
  }

  // ----- calls through the wire ------------------------------------------------------------------------------

  /** The server, and what is unread on each connection; nothing, on one that was not used. */
  datatype World = World(server: Server, unread: map<nat, Bytes>)

  function UnreadOn(w: World, connection: nat): Bytes {
    if connection in w.unread then w.unread[connection] else []
  }

  ghost predicate Clean(w: World) {
    forall connection :: connection in w.unread ==> w.unread[connection] == []
  }

  /** A call as some client makes it: its connection and buffers, the request, its id, and the times. */
  datatype Asking = Asking(connection: nat, client: Client, request: Request, requestId: u32, sent: u64, answered: u64)

  function RequestsOf(asked: seq<Asking>): (history: seq<Request>)
    ensures |history| == |asked| && forall i :: 0 <= i < |asked| ==> history[i] == asked[i].request
  {
    seq(|asked|, i requires 0 <= i < |asked| => asked[i].request)
  }

  function Asked(w: World, a: Asking): (e: Step)
    requires Sound(w.server)
  {
    Exchange(a.client, w.server, UnreadOn(w, a.connection), a.request, a.requestId, a.sent, a.answered)
  }

  function AfterAsking(w: World, a: Asking): (w': World)
    requires Sound(w.server)
    ensures Sound(w'.server)
  {
    ExchangeKeepsSound(w, a);
    World(Asked(w, a).server, w.unread[a.connection := Asked(w, a).unread])
  }

  lemma ExchangeKeepsSound(w: World, a: Asking)
    requires Sound(w.server)
    ensures Sound(Asked(w, a).server)
  {
    var b := Build(a.client, a.request, a.requestId, a.sent);
    if b.Ready? { ServeKeepsSound(w.server, b.message, a.answered); }
  }

  ghost function Asks(): (World, Asking) -> World {
    (w: World, a: Asking) => if Sound(w.server) then AfterAsking(w, a) else w
  }

  /** The world after a history of calls through the wire. */
  ghost function Exchanged(w: World, asked: seq<Asking>): (w': World)
    requires Sound(w.server)
    ensures Sound(w'.server)
  {
    FoldKeeps(Asks(), (w: World) => Sound(w.server), w, asked);
    Fold(Asks(), w, asked)
  }

  /** A request can be sent and its answer has room. */
  predicate Fitting(s: Server, a: Asking) {
    Sendable(a.client, a.request) && Checked(s, a.request) && Roomy(a.client, s, a.request)
  }

  ghost function HasRoom(): (World, Asking) -> bool {
    (w: World, a: Asking) => Fitting(w.server, a)
  }

  /** Every request can be sent and every answer has room, at the time it is made. */
  ghost predicate AllFit(w: World, asked: seq<Asking>) {
    Along(Asks(), HasRoom(), w, asked)
  }

  /** A fitting call on a clean connection does what it means, and leaves it clean. */
  lemma AskedIsDirect(w: World, a: Asking)
    requires Sound(w.server) && Clean(w) && Fitting(w.server, a)
    ensures Asked(w, a) == Step(Direct(w.server, a.request).0, Ok(Direct(w.server, a.request).1), [])
    ensures Clean(AfterAsking(w, a))
  {
    ExchangeIsDirect(a.client, w.server, a.request, a.requestId, a.sent, a.answered);
  }

  ghost function Means(): (Server, Request) -> Server {
    (s: Server, r: Request) => if Sound(s) then Direct(s, r).0 else s
  }

  lemma {:induction false} AfterIsFold(s: Server, history: seq<Request>)
    requires Sound(s)
    ensures After(s, history) == Fold(Means(), s, history)
    decreases |history|
  {
    if history != [] { AfterIsFold(s, history[..|history| - 1]); }
  }

  /** The server is what the calls make it, and nothing is left on any connection. */
  ghost predicate Matched(w: World, s: Server) {
    w.server == s && Sound(s) && Clean(w)
  }

  lemma AskMatches(w: World, s: Server, a: Asking)
    requires Matched(w, s) && Fitting(w.server, a)
    ensures Matched(Asks()(w, a), Means()(s, a.request))
  {
    AskedIsDirect(w, a);
    DirectKeepsSound(s, a.request);
  }

  /**
   A history of calls through the wire, over any connections and from clients with any buffers that have room, leaves
   the server as the calls themselves would, and nothing on any connection.
   */
  lemma ExchangedIsAfter(w: World, asked: seq<Asking>)
    requires Sound(w.server) && Clean(w) && AllFit(w, asked)
    ensures Exchanged(w, asked).server == After(w.server, RequestsOf(asked)) && Clean(Exchanged(w, asked))
  {
    forall u: World, s: Server, a: Asking | Matched(u, s) && HasRoom()(u, a)
      ensures Matched(Asks()(u, a), Means()(s, a.request))
    {
      AskMatches(u, s, a);
    }
    FoldMatches(Asks(), HasRoom(), Means(), (a: Asking) => a.request, (u: World, s: Server) => Matched(u, s), w,
                w.server, asked, RequestsOf(asked));
    AfterIsFold(w.server, RequestsOf(asked));
  }

  // ----- end to end ------------------------------------------------------------------------------------------

  /**
   End to end: through the wire, over any connections and from clients with any buffers that have room, an entry is
   created, written in ranges among any other calls, finalized, and read after any calls that leave its value alone.
   Finalizing answers that the entry is complete exactly when the accepted writes cover every byte, and then the get
   answers with the part asked for, every byte of it that of the last write that covers it.
   */
  lemma WrittenIsRead(w: World, create: Asking, calls: seq<Asking>, finalize: Asking, later: seq<Asking>, get: Asking)
    requires Sound(w.server) && Clean(w) && AllFit(w, [create] + calls + [finalize] + later + [get])
    requires create.request.Create? && create.request.key !in w.server.sparse
    requires finalize.request == Finalize(create.request.key)
    requires get.request.Get? && get.request.key == create.request.key
    requires NeverFinalizes(RequestsOf(calls), create.request.key)
    requires LeaveValue(RequestsOf(later), create.request.key)
    ensures var key, total := create.request.key, create.request.totalSize;
      var writes := AcceptedWrites(RequestsOf(calls), key, total);
      var finalized := Asked(Exchanged(w, [create] + calls), finalize).outcome;
      var got := Asked(Exchanged(w, [create] + calls + [finalize] + later), get).outcome;
      && finalized.Ok? && got.Ok?
      && (finalized.value.code == OK <==> forall k :: 0 <= k < total ==> SparseSpec.CoveredBy(writes, k))
      && (finalized.value.code != OK ==> finalized.value.code == PARTIAL)
      && (finalized.value.code == OK ==>
            && got.value.code == OK
            && IsWrittenPart(got.value.value, writes, total, get.request.offset, get.request.length))
  {
    var begun := [create] + calls;
    var done := begun + [finalize];
    HistoryCut(w, done + later, [get]);
    HistoryCut(w, done, later);
    FinalizeAsked(w, create, calls, finalize);
    ExchangedIsAfter(Exchanged(w, done), later);
    FitsNext(Exchanged(w, done + later), get);
    AskedIsDirect(Exchanged(w, done + later), get);
    FinalizedIsRead(w.server, create.request, RequestsOf(calls), RequestsOf(later), get.request.offset,
                    get.request.length);
  }

  lemma HistoryCut(w: World, done: seq<Asking>, later: seq<Asking>)
    requires Sound(w.server) && AllFit(w, done + later)
    ensures AllFit(w, done) && AllFit(Exchanged(w, done), later)
    ensures Exchanged(w, done + later) == Exchanged(Exchanged(w, done), later)
  {
    FoldJoin(Asks(), HasRoom(), w, done, later);
  }

  lemma FitsNext(w: World, a: Asking)
    requires Sound(w.server) && AllFit(w, [a])
    ensures Fitting(w.server, a) && Exchanged(w, [a]) == AfterAsking(w, a)
  {
    FoldOne(Asks(), HasRoom(), w, [], a);
    assert [] + [a] == [a];
  }

  lemma RequestsJoin(a: Asking, asked: seq<Asking>)
    ensures RequestsOf([a] + asked) == [a.request] + RequestsOf(asked)
  {
  }

  lemma FinalizeAsked(w: World, create: Asking, calls: seq<Asking>, finalize: Asking)
    requires Sound(w.server) && Clean(w) && AllFit(w, [create] + calls + [finalize])
    requires create.request.Create? && finalize.request == Finalize(create.request.key)
    ensures var f := Finalized(w.server, create.request, RequestsOf(calls));
      && Asked(Exchanged(w, [create] + calls), finalize) == Step(f.0, Ok(f.1), [])
      && Exchanged(w, [create] + calls + [finalize]).server == f.0
    ensures Clean(Exchanged(w, [create] + calls + [finalize]))
  {
    var begun := [create] + calls;
    HistoryCut(w, begun, [finalize]);
    ExchangedIsAfter(w, begun);
    RequestsJoin(create, calls);
    AfterFirst(w.server, create.request, RequestsOf(calls));
    FitsNext(Exchanged(w, begun), finalize);
    AskedIsDirect(Exchanged(w, begun), finalize);
  }

  /** End to end for a put: through the wire it is read back, after any calls that leave the value alone. */
  lemma PutIsRead(w: World, put: Asking, later: seq<Asking>, get: Asking)
    requires Sound(w.server) && Clean(w) && AllFit(w, [put] + later + [get])
    requires put.request.Put? && get.request.Get? && get.request.key == put.request.key
    requires LeaveValue(RequestsOf(later), put.request.key)
    ensures Asked(w, put).outcome == Ok(Code(OK))
    ensures var got := Asked(Exchanged(w, [put] + later), get).outcome;
      && got.Ok? && got.value.code == OK
      && IsPart(got.value.value, put.request.value, get.request.offset, get.request.length)
  {
    HistoryCut(w, [put] + later, [get]);
    HistoryCut(w, [put], later);
    FitsNext(w, put);
    AskedIsDirect(w, put);
    ExchangedIsAfter(Exchanged(w, [put]), later);
    FitsNext(Exchanged(w, [put] + later), get);
    AskedIsDirect(Exchanged(w, [put] + later), get);
    StoredIsRead(w.server, put.request, RequestsOf(later), get.request.offset, get.request.length);
  }
}
