/** A request from one engine to another: written, patched, sent, received and read. */
module EndToEnd {
  import opened Bytes
  import opened Cdr
  import opened Fragment
  import opened Reassembly
  import opened Chain
  import opened Segments
  import opened Giop
  import opened Session
  import Reader

  /** Settling the response flag after the fact gives the header coded with the final flag, and changes nothing else. */
  lemma ResponsePatched(h: Stream, ctxs: seq<ServiceContext>, id: nat, was: bool, now: bool, tail: seq<Item>,
        body: Stream, order: Order)
    requires |h| == HDR_SZ
    ensures var a := EncAll(HDR_SZ, RequestHeadItems(ctxs, id, was) + tail, order);
            var b := EncAll(HDR_SZ, RequestHeadItems(ctxs, id, now) + tail, order);
            var n := |EncAll(HDR_SZ, RequestHeadItems(ctxs, id, was), order)|;
            1 <= n <= |a| == |b| && Patch(h + a + body, HDR_SZ + n - 1, [ResponseFlag(now)]) == h + b + body
  {
    hide EncAll, Patch, ResponseFlag;
    var x, a1 := FlagLast(ctxs, id, was, tail, order);
    var y, b1 := FlagLast(ctxs, id, now, tail, order);
    var c := h + (x + Cells([ResponseFlag(was)]) + a1) + body;
    OnePatched(h, x, ResponseFlag(was), ResponseFlag(now), a1, body);
  }

  /** The flag is the last octet of the header's first part. */
  lemma FlagLast(ctxs: seq<ServiceContext>, id: nat, noResponse: bool, tail: seq<Item>, order: Order)
        returns (x: Stream, rest: Stream)
    ensures x == EncAll(HDR_SZ, ContextItems(ctxs) + [Scalar(4, id)], order)
    ensures EncAll(HDR_SZ, RequestHeadItems(ctxs, id, noResponse), order) == x + Cells([ResponseFlag(noResponse)])
    ensures rest == EncAll(HDR_SZ + |x| + 1, tail, order)
    ensures EncAll(HDR_SZ, RequestHeadItems(ctxs, id, noResponse) + tail, order)
              == x + Cells([ResponseFlag(noResponse)]) + rest
  {
    hide EncAll, ResponseFlag;
    var front := ContextItems(ctxs) + [Scalar(4, id)];
    var flag := ResponseFlag(noResponse);
    x := EncAll(HDR_SZ, front, order);
    assert RequestHeadItems(ctxs, id, noResponse) == front + [Scalar(1, flag)];
    EncAllSnoc(HDR_SZ, front, Scalar(1, flag), order);
    Engine.OneOctet(HDR_SZ + |x|, flag, order);
    rest := EncAll(HDR_SZ + |x| + 1, tail, order);
    EncAllAppend(HDR_SZ, RequestHeadItems(ctxs, id, noResponse), tail, order);
  }

  lemma OnePatched(h: Stream, x: Stream, was: byte, now: byte, rest: Stream, body: Stream)
    ensures Patch(h + (x + Cells([was]) + rest) + body, |h| + |x|, [now]) == h + (x + Cells([now]) + rest) + body
  {
    PatchedSize(h + (x + Cells([was]) + rest), body, |h| + |x|, [now]);
    var c := h + (x + Cells([was]) + rest);
    assert c[..|h| + |x|] == h + x && c[|h| + |x| + 1..] == rest;
    assert Patch(c, |h| + |x|, [now]) == h + x + Cells([now]) + rest;
    assert h + x + Cells([now]) + rest == h + (x + Cells([now]) + rest);
  }

  /** The completed message is its header with the final values, and the rest as coded. */
  lemma FinalHeader(major: byte, minor: byte, flags: byte, typ: byte, more: bool, order: Order, rest: Stream)
    ensures var c := Header(major, minor, flags, typ, 0, order) + rest;
            Sized(if more then Flagged(c) else c, order)
            == Header(major, minor, if more then MoreFrags(flags) else flags, typ, |rest|, order) + rest
  {
    hide Header, Sized, Flagged;
    BackPatch(major, minor, flags, typ, 0, order, rest);
    BackPatch(major, minor, MoreFrags(flags), typ, 0, order, rest);
  }

  // ---- the client's side ----

  /** A complete request on its way: header, request header and body. */
  ghost predicate Request(c: Stream, m: seq<byte>, minor: byte, flags: byte, id: nat, noResponse: bool,
                          key: seq<byte>, op: seq<byte>, prin: seq<byte>, body: Stream, sender: Order)
  {
    var rest := EncAll(HDR_SZ, Reader.RequestItems(id, noResponse, minor == 1, key, op, prin), sender) + body;
    && Matches(c, m) && c == Fragment.Header(1, minor, flags, REQUEST, |rest|, sender) + rest
    && (flags == sender.Bit() || (minor == 1 && flags == MoreFrags(sender.Bit())))
    && id < WORD && |key| < WORD && |op| < WORD && |prin| < WORD && minor <= 1
  }

  /** The octet of a request with its response flag, there being no service contexts. */
  const RESPONSE_AT: nat := 20

  lemma FlagAt(id: nat, noResponse: bool, tail: seq<Item>, order: Order)
    ensures var r := EncAll(HDR_SZ, RequestHeadItems([], id, noResponse) + tail, order);
            && |EncAll(HDR_SZ, RequestHeadItems([], id, noResponse), order)| == RESPONSE_AT + 1 - HDR_SZ <= |r|
            && r[RESPONSE_AT - HDR_SZ] == Data(ResponseFlag(noResponse))
  {
    hide EncAll, NativeBytes, ResponseFlag;
    var x, rest := FlagLast([], id, noResponse, tail, order);
    assert ContextItems([]) + [Scalar(4, id)] == [Scalar(4, 0), Scalar(4, id)];
    TwoWords(0, id, order);
    assert (x + Cells([ResponseFlag(noResponse)]) + rest)[|x|] == Cells([ResponseFlag(noResponse)])[0];
  }

  lemma TwoWords(a: nat, b: nat, order: Order)
    ensures |EncAll(HDR_SZ, [Scalar(4, a), Scalar(4, b)], order)| == 8
  {
    hide NativeBytes;
    assert [Scalar(4, a), Scalar(4, b)][1..] == [Scalar(4, b)] && [Scalar(4, b)][1..] == [];
    assert AlignDelta(12, 4) == 0 && AlignDelta(16, 4) == 0;
    assert EncAll(16, [Scalar(4, b)], order) == EncItem(16, Scalar(4, b), order) + [];
  }

  /** The flag a request was completed with is the octet at its place. */
  lemma FlagSent(c: Stream, m: seq<byte>, minor: byte, flags: byte, id: nat, noResponse: bool,
                 key: seq<byte>, op: seq<byte>, prin: seq<byte>, body: Stream, sender: Order)
    requires Request(c, m, minor, flags, id, noResponse, key, op, prin, body, sender)
    ensures |m| > 20 && (m[20] == 1 <==> !noResponse) && (m[20] == 0 <==> noResponse)
  {
    hide EncAll, Fragment.Header;
    var r := EncAll(HDR_SZ, Reader.RequestItems(id, noResponse, minor == 1, key, op, prin), sender);
    FlagAt(id, noResponse, RequestTailItems(minor == 1, key, op, prin), sender);
    var h := Fragment.Header(1, minor, flags, REQUEST, |r + body|, sender);
    assert c[RESPONSE_AT] == (h + (r + body))[RESPONSE_AT] == r[RESPONSE_AT - HDR_SZ];
  }

  // ---- a request cut or whole ----

  /** What the coder fragments by, while this engine codes a message. */
  ghost function Settings(e: Engine): Config
    reads e, e.coder
  {
    Config(e.afrag.on, e.coder.maxlen, e.coder.order, e.major, e.minor)
  }

  /** The header of the next request. */
  ghost function RequestOpen(e: Engine, op: seq<byte>, prin: seq<byte>, guess: bool): Stream
    reads e, e.coder
  {
    var id := (e.reqId + 1) % WORD;
    Fragment.Header(1, e.minor, e.coder.order.Bit(), REQUEST, 0, e.coder.order)
    + EncAll(HDR_SZ, Reader.RequestItems(id, guess, e.minor == 1, e.objkey, op, prin), e.coder.order)
  }

  ghost predicate HeaderTooLong(e: Engine, op: seq<byte>, prin: seq<byte>, guess: bool)
    reads e, e.coder
  {
    e.afrag.on && |RequestOpen(e, op, prin, guess)| > e.coder.maxlen
  }

  /** Where its body begins: behind the header or, if that is too long to go on, behind that of a Fragment. */
  ghost function Started(e: Engine, op: seq<byte>, prin: seq<byte>, guess: bool): Flow
    reads e, e.coder
  {
    var f := Flow(e.sent, RequestOpen(e, op, prin, guess));
    if HeaderTooLong(e, op, prin, guess) then Break(f, Settings(e)) else f
  }

  /** The request will not fit one message. The caller can tell by lengths alone. */
  ghost predicate IsCut(e: Engine, op: seq<byte>, prin: seq<byte>, guess: bool, items: seq<Item>)
    reads e, e.coder
  {
    HeaderTooLong(e, op, prin, guess) || SomeEnters(Started(e, op, prin, guess), Settings(e), items)
  }

  /** GIOPRequestCreate, seen from before. */
  method Create(e: Engine, op: seq<byte>, prin: seq<byte>, guess: bool) returns (ok: bool)
    requires e.Valid() && !e.isServer && e.state == SIdle && e.major == 1 && e.minor <= 1
    requires |op| < WORD && |prin| < WORD
    modifies e, e.coder.Repr
    ensures e.Valid() && fresh(e.coder.Repr - old(e.coder.Repr)) && old(e.handed) <= e.handed
    ensures e.reqId == (old(e.reqId) + 1) % WORD && e.objkey == old(e.objkey) && e.minor == old(e.minor) && e.major == 1
    ensures if ok then e.state == SReqCr else e.coder.CutFailed()
    ensures !old(HeaderTooLong(e, op, prin, guess)) ==> ok
    ensures ok ==>
              && e.coder.Flow() == old(Started(e, op, prin, guess)) && e.coder.Cfg() == old(Settings(e))
              && e.sent == e.coder.Flow().sent
              && e.coder.Layout() == old(e.coder.Layout()) && e.afrag == old(e.afrag)
              && HDR_SZ <= |e.coder.cells|
    ensures ok ==>
              if old(HeaderTooLong(e, op, prin, guess)) then e.minor == 1 && TypeOf(e.coder.cells) == FRAGMENT
              else TypeOf(e.coder.cells) == REQUEST && e.respOff == RESPONSE_AT
  {
    hide Matches, HeaderAt, EncAll, Fragment.Header, Seal, Coder.Enc, Coder.Evenly, Coder.CutFailed, Owned,
          Engine.Trace;
    var st := e.RequestCreate(op, prin, [], guess);
    ok := st == GIOP_OK;
    if ok {
      FlagAt(e.reqId, guess, [], e.coder.order);
      assert RequestHeadItems([], e.reqId, guess) + [] == RequestHeadItems([], e.reqId, guess);
      OpenLengths(e);
      e.OpenHasBuffer();
    }
  }

  /** The first message, cut: sealed behind the header and some of the body, with its flag as first guessed. */
  lemma SealedRequest(c: Stream, m: seq<byte>, minor: byte, id: nat, guess: bool, key: seq<byte>, op: seq<byte>,
                      prin: seq<byte>, body: Stream, order: Order)
    requires id < WORD && |key| < WORD && |op| < WORD && |prin| < WORD && minor == 1 && Matches(c, m)
    requires c == Seal(Fragment.Header(1, minor, order.Bit(), REQUEST, 0, order)
                       + EncAll(HDR_SZ, Reader.RequestItems(id, guess, minor == 1, key, op, prin), order) + body, order)
    ensures Request(c, m, minor, MoreFrags(order.Bit()), id, guess, key, op, prin, body, order)
  {
    hide EncAll, Fragment.Header, Seal, MoreFrags, Matches;
    var h := Fragment.Header(1, minor, order.Bit(), REQUEST, 0, order);
    var r := EncAll(HDR_SZ, Reader.RequestItems(id, guess, minor == 1, key, op, prin), order);
    assert h + r + body == h + (r + body);
    SealedHeader(1, minor, order.Bit(), REQUEST, 0, order, r + body);
  }

  /** The only message, its flag patched. */
  lemma WholeRequest(c: Stream, m: seq<byte>, minor: byte, id: nat, guess: bool, noResponse: bool, key: seq<byte>,
                     op: seq<byte>, prin: seq<byte>, body: Stream, more: bool, order: Order) returns (flags: byte)
    requires id < WORD && |key| < WORD && |op| < WORD && |prin| < WORD && minor <= 1 && Matches(c, m)
    requires more ==> minor == 1
    requires var open := Fragment.Header(1, minor, order.Bit(), REQUEST, 0, order)
                         + EncAll(HDR_SZ, Reader.RequestItems(id, guess, minor == 1, key, op, prin), order) + body;
             && RESPONSE_AT < |open|
             && var p := Patch(open, RESPONSE_AT, [ResponseFlag(noResponse)]);
                c == Sized(if more then Flagged(p) else p, order)
    ensures Request(c, m, minor, flags, id, noResponse, key, op, prin, body, order)
  {
    hide EncAll, Fragment.Header, Patch, Sized, Flagged, MoreFrags, Matches, ResponseFlag;
    var h := Fragment.Header(1, minor, order.Bit(), REQUEST, 0, order);
    var tail := RequestTailItems(minor == 1, key, op, prin);
    var r2 := EncAll(HDR_SZ, RequestHeadItems([], id, noResponse) + tail, order);
    FlagAt(id, guess, tail, order);
    ResponsePatched(h, [], id, guess, noResponse, tail, body, order);
    assert h + r2 + body == h + (r2 + body);
    FinalHeader(1, minor, order.Bit(), REQUEST, more, order, r2 + body);
    flags := if more then MoreFrags(order.Bit()) else order.Bit();
  }

  /**
   * Create, code a body, send, with or without automatic fragmentation: the first message handed over is the request,
   * as if all of it had been known from the start, and the body is read back from it and those that follow. The
   * response flag given last goes out if and only if the request was not cut or had been created with the same.
   */
  method SendRequest(e: Engine, op: seq<byte>, prin: seq<byte>, guess: bool, noResponse: bool, more: bool,
                     items: seq<Item>, ghost native: Order)
    returns (ok: bool, ghost c: Stream, ghost m: seq<byte>, ghost flags: byte, ghost body: Stream)
    requires e.Valid() && !e.isServer && e.state == SIdle && e.major == 1 && e.minor <= 1
    requires |op| < WORD && |prin| < WORD && ValidItems(items)
    requires BodySafe(e.coder.Layout(), Started(e, op, prin, guess), Settings(e), items)
    modifies e, e.coder.Repr
    ensures e.Valid() && old(e.handed) <= e.handed
    ensures e.reqId == (old(e.reqId) + 1) % WORD && e.objkey == old(e.objkey) && e.minor == old(e.minor)
    ensures ok || (old(IsCut(e, op, prin, guess, items)) && e.coder.CutFailed())
    ensures ok ==>
              && |old(e.handed)| < |e.handed| && m == e.handed[|old(e.handed)|]
              && (|e.handed| == |old(e.handed)| + 1 <==> !old(IsCut(e, op, prin, guess, items)))
    ensures ok ==>
              Request(c, m, e.minor, flags, e.reqId, if old(IsCut(e, op, prin, guess, items)) then guess
                    else noResponse,
                      e.objkey, op, prin, body, e.coder.order)
    ensures ok ==>
              && |m| > 20
              && (m[20] == 0 <==> if old(IsCut(e, op, prin, guess, items)) then guess else noResponse)
              && (m[20] == 1 <==> if old(IsCut(e, op, prin, guess, items)) then !guess else !noResponse)
    ensures !old(IsCut(e, op, prin, guess, items)) ==>
              body == EncAll(|old(RequestOpen(e, op, prin, guess))|, items, e.coder.order)
    ensures ok ==> ReadsBack(e.handed, old(Started(e, op, prin, guess)), items, native, e.coder.order)
    ensures ok ==> FragmentsLinked(e.sent, |old(e.sent)|)
  {
    hide FragmentsLinked;
    hide Matches, HeaderAt, EncAll, Patch, Sized, Flagged, Seal, PutAll, SomeEnters, BodySafe, ReadsBack, Request;
    hide Fragment.Header, Break, LastMessage, Coder.Shape, Coder.Enc, Coder.CutFailed, Engine.Valid, ResponseFlag;
    ghost var open, f, cfg := RequestOpen(e, op, prin, guess), Started(e, op, prin, guess), Settings(e);
    ghost var long, cut := HeaderTooLong(e, op, prin, guess), IsCut(e, op, prin, guess, items);
    ghost var sent := e.sent;
    SentHanded(e);
    c, m, flags, body := [], [], 0, EncAll(|open|, items, e.coder.order);
    Broken(Flow(sent, open), cfg);
    ok := Create(e, op, prin, guess);
    if !ok {
      return;
    }
    ghost var at := e.respOff;
    var cs := FinishRequest(e, items, noResponse, more, native);
    ok := cs == CDR_OK;
    if ok {
      SentHanded(e);
      var last := LastMessage(e, PutAll(f, cfg, items), at, noResponse, more);
      c, m := e.sent[|sent|], e.handed[|sent|];
      flags, body := FirstSent(e, sent, f, cfg, open, long, op, prin, guess, noResponse, more, items, c, m, last);
      FlagSent(c, m, e.minor, flags, e.reqId, if cut then guess else noResponse, e.objkey, op, prin, body, cfg.order);
      if long {
        IsRequest(e.minor, cfg.order, open[HDR_SZ..]);
        Rejoin(open, Fragment.Header(1, e.minor, cfg.order.Bit(), REQUEST, 0, cfg.order));
        PutAllContinues(f, cfg, items);
        SentKept(f, PutAll(f, cfg, items), |sent|);
        LinkedFrom(e.sent, |sent|, open, cfg.order);
      }
    }
  }

  lemma Rejoin(c: Stream, h: Stream)
    requires HDR_SZ == |h| <= |c| && c[..HDR_SZ] == h
    ensures c == h + c[HDR_SZ..]
  {}

  /** A sealed message before a Fragment. */
  lemma LinkedFrom(sent: seq<Stream>, k: nat, open: Stream, order: Order)
    requires k + 1 < |sent| && FragmentsLinked(sent, k + 1) && sent[k] == Seal(open, order) && Opened(open)
    requires |sent[k + 1]| >= HDR_SZ && TypeOf(sent[k + 1]) == FRAGMENT
    ensures FragmentsLinked(sent, k)
  {
    hide Opened, Seal, MoreSet, WellFormed, TypeOf;
    SealedIsWellFormed(open, order);
    WellFormedLong(sent[k], order);
  }

  lemma Broken(f: Flow, cfg: Config)
    ensures Break(f, cfg).sent == f.sent + [Seal(f.open, cfg.order)] && |Break(f, cfg).open| == HDR_SZ
  {}

  lemma SentHanded(e: Engine)
    requires e.Valid()
    ensures |e.handed| == |e.sent| && forall i :: 0 <= i < |e.sent| ==> Matches(e.sent[i], e.handed[i])
    ensures e.reqId < WORD && |e.objkey| < WORD && Legal(Settings(e))
  {
    hide Matches, HeaderAt, WellFormed, Allowed, Coder.Shape, Coder.Enc;
  }

  /** The first message of a request that has been sent, cut or whole. */
  lemma FirstSent(e: Engine, was: seq<Stream>, f: Flow, cfg: Config, open: Stream, long: bool, op: seq<byte>,
                  prin: seq<byte>, guess: bool, noResponse: bool, more: bool, items: seq<Item>, c: Stream, m: seq<byte>,
                  last: Stream)
    returns (flags: byte, body: Stream)
    requires Legal(cfg) && e.major == 1 && e.minor <= 1 && cfg.order == e.coder.order && HDR_SZ <= |f.open|
    requires e.reqId < WORD && |e.objkey| < WORD && |op| < WORD && |prin| < WORD
    requires open == Fragment.Header(1, e.minor, cfg.order.Bit(), REQUEST, 0, cfg.order)
                     + EncAll(HDR_SZ, Reader.RequestItems(e.reqId, guess, e.minor == 1, e.objkey, op, prin), cfg.order)
    requires if long then e.minor == 1 && f.sent == was + [Seal(open, cfg.order)] else f == Flow(was, open)
    requires var g := PutAll(f, cfg, items);
             && HDR_SZ <= |g.open| && e.sent == g.sent + [last]
             && (!long ==> last == LastMessage(e, g, RESPONSE_AT, noResponse, more))
    requires |e.sent| > |f.sent| + 1 ==> e.minor == 1
    requires |was| < |e.sent| && c == e.sent[|was|] && Matches(c, m)
    ensures var cut := long || SomeEnters(f, cfg, items);
            && Request(c, m, e.minor, flags, e.reqId, if cut then guess
                  else noResponse, e.objkey, op, prin, body, cfg.order)
            && (!cut ==> body == EncAll(|open|, items, cfg.order))
            && (|e.sent| == |was| + 1 <==> !cut)
  {
    hide Matches, EncAll, Seal, PutAll, SomeEnters, Request, Fragment.Header, LastMessage;
    var g := PutAll(f, cfg, items);
    var e1 := FirstMessage(f, cfg, items);
    PutAllContinues(f, cfg, items);
    if long {
      body := [];
      assert open + body == open;
      SentKept(f, g, |was|);
      SealedRequest(c, m, e.minor, e.reqId, guess, e.objkey, op, prin, body, cfg.order);
      flags := MoreFrags(cfg.order.Bit());
    } else if SomeEnters(f, cfg, items) {
      body := e1;
      SealedRequest(c, m, e.minor, e.reqId, guess, e.objkey, op, prin, body, cfg.order);
      flags := MoreFrags(cfg.order.Bit());
    } else {
      body := e1;
      flags := LastIsRequest(e, open, body, cfg.order, op, prin, guess, noResponse, more, g, c, m);
    }
  }

  lemma LastIsRequest(e: Engine, open: Stream, body: Stream, order: Order, op: seq<byte>, prin: seq<byte>, guess: bool,
                      noResponse: bool, more: bool, g: Flow, c: Stream, m: seq<byte>) returns (flags: byte)
    requires e.major == 1 && e.minor <= 1 && order == e.coder.order && HDR_SZ <= |g.open| && g.open == open + body
    requires e.reqId < WORD && |e.objkey| < WORD && |op| < WORD && |prin| < WORD
    requires open == Fragment.Header(1, e.minor, order.Bit(), REQUEST, 0, order)
                     + EncAll(HDR_SZ, Reader.RequestItems(e.reqId, guess, e.minor == 1, e.objkey, op, prin), order)
    requires c == LastMessage(e, g, RESPONSE_AT, noResponse, more) && Matches(c, m)
    ensures Request(c, m, e.minor, flags, e.reqId, noResponse, e.objkey, op, prin, body, order)
  {
    hide Matches, EncAll, Seal, PutAll, Request, Fragment.Header, Patch, Sized, Flagged, ResponseFlag;
    var r := EncAll(HDR_SZ, Reader.RequestItems(e.reqId, guess, e.minor == 1, e.objkey, op, prin), order);
    FlagAt(e.reqId, guess, RequestTailItems(e.minor == 1, e.objkey, op, prin), order);
    var h := Fragment.Header(1, e.minor, order.Bit(), REQUEST, 0, order);
    assert h + r + body == h + (r + body);
    IsRequest(e.minor, order, r + body);
    flags := WholeRequest(c, m, e.minor, e.reqId, guess, noResponse, e.objkey, op, prin, body, more
          && e.minor == 1, order);
  }

  lemma IsRequest(minor: byte, order: Order, rest: Stream)
    ensures TypeOf(Fragment.Header(1, minor, order.Bit(), REQUEST, 0, order) + rest) == REQUEST
    ensures Opened(Fragment.Header(1, minor, order.Bit(), REQUEST, 0, order) + rest)
  {
    HeaderOpens(1, minor, order.Bit(), REQUEST, 0, order, rest);
  }

  // ---- the server's side ----

  /**
   * Any message with a good header is taken, unless the transport fails: "GIOP", revision 1.0 or 1.1, one of the eight
   * types, a Fragment only where the revision in use has them, nothing behind a closing or an error message, and the
   * true length in the byte order the flags name. The engine needs a buffer for the body, or leave to free those that
   * are too short.
   */
  method NextMessage(e: Engine, up: bool, m: seq<byte>) returns (st: GiopStatus, typ: byte)
    requires e.Valid() && e.state == SIdle && m <= e.inbound && |m| >= 12
    requires m[0] == 'G' as int && m[1] == 'I' as int && m[2] == 'O' as int && m[3] == 'P' as int
    requires m[4] == 1 && m[5] <= 1 && (m[5] == 0 ==> m[6] <= 1)
    requires m[7] <= 7 && (m[7] == 7 ==> e.minor >= 1 && (m[5] == 1 || e.isServer))
    requires m[7] == 5 || m[7] == 6 ==> |m| == 12
    requires var a: nat, b: nat, c: nat, d: nat := m[8], m[9], m[10], m[11];
             |m| - 12
             == if m[6] % 2 == 1 then a + 0x100 * b + 0x1_0000 * c + 0x100_0000 * d
                else d + 0x100 * c + 0x1_0000 * b + 0x100_0000 * a
    requires |m| == 12 || |m| - 8 <= e.coder.Layout().first || (e.coder.canFree && |m| - 8 < 0x1_0000_0000)
    modifies e, e.coder.Repr
    ensures e.Valid() && fresh(e.coder.Repr - old(e.coder.Repr))
    ensures if up then st == GIOP_OK else st == GIOP_OK || st == GIOP_ETRANSPORT
    ensures st == GIOP_OK ==>
              && typ == m[7] && e.msgIn.typ == m[7] && e.msgIn.size == |m| - 12 && e.inbound == old(e.inbound)[|m|..]
              && e.coder.sex == m[6] % 2
              && (|m| > 12 ==>
                    && e.coder.Dec(0) && e.coder.bufs != [] && e.coder.Cursor() == At(4)
                    && |e.coder.Input()| == |m| - 8 && e.coder.Input()[4..] == m[12..])
  {
    hide Engine.Valid, Coder.Sound, Coder.Dec, Coder.CanDecode;
    ghost var w := e.inbound;
    Begins(m, w);
    st, typ := e.GetNextMsg(up);
  }

  /**
   * So is any message that an engine has handed over, by a peer of the same revision; but if one of revision 1.0 was
   * cut, which takes a reply of that revision from an engine of a later one, its flags are no byte order that 1.0 has,
   * and a machine of the sender's own order takes its size for the reverse.
   */
  method Accepted(e: Engine, k: nat, r: Engine, up: bool) returns (st: GiopStatus, typ: byte)
    requires e.Valid() && k < |e.handed| && r.Valid() && r.state == SIdle && e.handed[k] <= r.inbound
    requires var m := e.handed[k];
             && m[4] == 1 && m[5] == r.minor <= 1 && |m| - 8 < 0x1_0000_0000
             && (r.coder.canFree || |m| - 8 <= r.coder.Layout().first)
    modifies r, r.coder.Repr
    ensures var m := old(e.handed)[k];
            && (up ==>
                  typ == m[7] == r.msgIn.typ
                  && (r.msgIn.size == |m| - 12
                      <==> m[5] == 1 || m[6] <= 1 || r.coder.order != e.coder.order
                           || (m[8] == m[11] && m[9] == m[10])))
            && (up && (m[5] == 1 || m[6] <= 1) ==>
                  && st == GIOP_OK && r.inbound == old(r.inbound)[|m|..]
                  && (|m| > 12 ==>
                        && r.coder.Dec(0) && r.coder.bufs != [] && r.coder.Cursor() == At(4)
                        && |r.coder.Input()| == |m| - 8 && r.coder.Input()[4..] == m[12..]))
  {
    hide Engine.Valid, Coder.Sound, Coder.Dec, Coder.CanDecode, Spelt;
    HandedWell(e);
    st, typ := TakeSpelt(r, up, e.handed[k], e.isServer, e.coder.order);
  }

  method TakeSpelt(r: Engine, up: bool, ghost m: seq<byte>, ghost isServer: bool, ghost sender: Order)
    returns (st: GiopStatus, typ: byte)
    requires Spelt(m, isServer, sender) && r.Valid() && r.state == SIdle && m <= r.inbound
    requires m[4] == 1 && m[5] == r.minor <= 1 && |m| - 8 < 0x1_0000_0000
    requires r.coder.canFree || |m| - 8 <= r.coder.Layout().first
    modifies r, r.coder.Repr
    ensures up ==>
              typ == m[7] == r.msgIn.typ
              && (r.msgIn.size == |m| - 12
                  <==> m[5] == 1 || m[6] <= 1 || r.coder.order != sender || (m[8] == m[11] && m[9] == m[10]))
    ensures up && (m[5] == 1 || m[6] <= 1) ==>
              && st == GIOP_OK && r.inbound == old(r.inbound)[|m|..]
              && (|m| > 12 ==>
                    && r.coder.Dec(0) && r.coder.bufs != [] && r.coder.Cursor() == At(4)
                    && |r.coder.Input()| == |m| - 8 && r.coder.Input()[4..] == m[12..])
  {
    hide Engine.Valid, Coder.Sound, Coder.Dec, Coder.CanDecode, Spelt;
    ghost var w := r.inbound;
    WhatIsSpelt(m, isServer, sender);
    Reversed(m[8], m[9], m[10], m[11]);
    Begins(m, w);
    st, typ := r.GetNextMsg(up);
  }

  /** Such a reply, of four octets: a machine of the sender's order takes it for one of 2 to the 26. */
  lemma MisreadReply()
    ensures var m := [71, 73, 79, 80, 1, 0, 3, 1, 4, 0, 0, 0, 9, 9, 9, 9];
            && Spelt(m, true, Little)
            && Engine.HeaderVerdict(m, false, 0, Little) == GIOP_OK
            && Engine.Parsed(m[4..12], false, 0, Little).1.size == 0x400_0000
  {
    hide Decoded;
    Engine.HeaderSaid([71, 73, 79, 80, 1, 0, 3, 1, 4, 0, 0, 0, 9, 9, 9, 9], false, 0, Little);
  }

  lemma WhatIsSpelt(m: seq<byte>, isServer: bool, order: Order)
    requires Spelt(m, isServer, order)
    ensures |m| >= 12 && m[7] <= 7 && m[6] < 4 && (m[7] == 7 ==> m[5] >= 1) && (m[7] == 5 || m[7] == 6 ==> |m| == 12)
    ensures m[0] == 'G' as int && m[1] == 'I' as int && m[2] == 'O' as int && m[3] == 'P' as int
    ensures m[6] % 2 == 1 <==> order == Little
    ensures |m| - 12 < 0x1_0000_0000 ==>
              var a: nat, b: nat, c: nat, d: nat := m[8], m[9], m[10], m[11];
              |m| - 12
              == if m[6] % 2 == 1 then a + 0x100 * b + 0x1_0000 * c + 0x100_0000 * d
                 else d + 0x100 * c + 0x1_0000 * b + 0x100_0000 * a
  {}

  /** Only a palindrome says the same either way. */
  lemma Reversed(a: byte, b: byte, c: byte, d: byte)
    ensures var w: nat, x: nat, y: nat, z: nat := a, b, c, d;
            w + 0x100 * x + 0x1_0000 * y + 0x100_0000 * z == z + 0x100 * y + 0x1_0000 * x + 0x100_0000 * w
            <==> a == d && b == c
  {}

  /** A request's header, octet by octet. */
  lemma RequestSpelt(c: Stream, m: seq<byte>, minor: byte, flags: byte, id: nat, noResponse: bool, key: seq<byte>,
                     op: seq<byte>, prin: seq<byte>, body: Stream, sender: Order)
    requires Request(c, m, minor, flags, id, noResponse, key, op, prin, body, sender)
    ensures |m| >= 12 && m[0] == 'G' as int && m[1] == 'I' as int && m[2] == 'O' as int && m[3] == 'P' as int
    ensures m[4] == 1 && m[5] == minor && m[6] == flags && m[7] == 0
    ensures m[6] % 2 == sender.Bit() && (minor == 0 ==> m[6] <= 1) && minor <= 1
    ensures |m| - 12 < 0x1_0000_0000 ==>
              var a: nat, b: nat, c: nat, d: nat := m[8], m[9], m[10], m[11];
              |m| - 12
              == if m[6] % 2 == 1 then a + 0x100 * b + 0x1_0000 * c + 0x100_0000 * d
                 else d + 0x100 * c + 0x1_0000 * b + 0x100_0000 * a
  {
    hide Matches, EncAll, Fragment.Header;
    var rest := EncAll(HDR_SZ, Reader.RequestItems(id, noResponse, minor == 1, key, op, prin), sender) + body;
    SpeltOctets(c, m, minor, flags, REQUEST, rest, sender);
    hide Request;
    MoreFragsSpelt(sender.Bit());
    BitTellsOrder(sender);
  }

  lemma SpeltOctets(c: Stream, m: seq<byte>, minor: byte, flags: byte, typ: byte, rest: Stream, sender: Order)
    requires Matches(c, m) && c == Fragment.Header(1, minor, flags, typ, |rest|, sender) + rest
    ensures WellFormedOctets(m, sender) && m[4] == 1 && m[5] == minor && m[6] == flags && m[7] == typ
  {
    hide Matches, Fragment.Header, WellFormed, WellFormedOctets;
    HeaderOpens(1, minor, flags, typ, |rest|, sender, rest);
    HeaderSpelt(1, minor, flags, typ, |rest|, sender);
    WellFormedCarried(c, m, sender);
  }

  /** Whatever the revision, the flags of a message name its sender's byte order. */
  lemma FlagsNameOrder(flags: byte, minor: byte, sender: Order)
    requires flags == sender.Bit() || (minor == 1 && flags == MoreFrags(sender.Bit()))
    ensures Engine.SexOf(flags, minor) == sender.Bit() == if sender == Little then 1 else 0
    ensures flags % 2 == 1 <==> sender == Little
  {
    MoreFragsBit(sender.Bit());
    BitTellsOrder(sender);
  }

  /** The request's items lie where its header ends. */
  lemma RequestCoded(c: Stream, m: seq<byte>, minor: byte, flags: byte, id: nat, noResponse: bool,
                     key: seq<byte>, op: seq<byte>, prin: seq<byte>, body: Stream, sender: Order)
    requires Request(c, m, minor, flags, id, noResponse, key, op, prin, body, sender)
    ensures Reader.Coded(c, m, HDR_SZ, Reader.RequestItems(id, noResponse, minor == 1, key, op, prin), sender)
    ensures |c| > HDR_SZ && |m| == |c|
  {
    hide EncAll, ValidItem, Matches, Fragment.Header;
    Coder.MatchLengths(c, m);
    var items := Reader.RequestItems(id, noResponse, minor == 1, key, op, prin);
    RequestItemsValid(id, noResponse, minor == 1, key, op, prin);
    EncAllSnoc(HDR_SZ, RequestHeadItems([], id, noResponse), Scalar(4, 0), sender);
    var e := EncAll(HDR_SZ, items, sender);
    var h := Fragment.Header(1, minor, flags, REQUEST, |e + body|, sender);
    assert c[HDR_SZ..HDR_SZ + |e|] == e;
    Reader.HeadEnds(HDR_SZ, [], id, noResponse, sender);
    EncAllAppend(HDR_SZ, RequestHeadItems([], id, noResponse), RequestTailItems(minor == 1, key, op, prin), sender);
  }

  lemma RequestItemsValid(id: nat, noResponse: bool, reserved: bool, key: seq<byte>, op: seq<byte>, prin: seq<byte>)
    requires id < WORD && |key| < WORD && |op| < WORD && |prin| < WORD
    ensures ValidItems(Reader.RequestItems(id, noResponse, reserved, key, op, prin))
  {
    ValidWords(id, ResponseFlag(noResponse));
    ValidContext([]);
    ValidSized(key);
    ValidSized(prin);
    ValidTail(op);
    hide ValidItem;
    var head := [Scalar(4, 0), Scalar(4, id), Scalar(1, ResponseFlag(noResponse))];
    assert RequestHeadItems([], id, noResponse) == head;
  }

  lemma Begins(m: seq<byte>, w: seq<byte>)
    requires m <= w && HDR_SZ <= |m|
    ensures w[..4] == m[..4] && w[4..HDR_SZ] == m[4..HDR_SZ] && w[HDR_SZ..|m|] == m[HDR_SZ..]
  {}

  /** GIOPGetNextMsg and then IT_IIOP_make_header, on a machine of any order: the request that was sent. */
  method ReadRequest(e: Engine, up: bool, m: seq<byte>, ghost c: Stream, ghost minor: byte, ghost flags: byte,
                     ghost id: nat,
                     ghost noResponse: bool, ghost key: seq<byte>, ghost op: seq<byte>, ghost prin: seq<byte>,
                     ghost body: Stream, ghost sender: Order)
    returns (st: GiopStatus, r: Reader.Result)
    requires e.Valid() && e.isServer && e.state == SIdle && m <= e.inbound
    requires Request(c, m, minor, flags, id, noResponse, key, op, prin, body, sender)
    requires |m| - 8 <= e.coder.Layout().first || (e.coder.canFree && |m| - 8 < 0x1_0000_0000)
    requires |m| - 12 < 0x1_0000_0000
    modifies e, e.coder.Repr
    ensures if up then st == GIOP_OK else st == GIOP_OK || st == GIOP_ETRANSPORT
    ensures st == GIOP_OK ==>
              && r == Reader.Header(Reader.RequestHdr(id, if noResponse then 0 else 1, key, Reader.Terminated(key),
                                                      op, prin))
              && e.msgIn.typ == 0 && e.inbound == old(e.inbound)[|m|..]
  {
    hide Matches, HeaderAt, EncAll, Fragment.Header, Coder.Enc, Owned, Coder.Ledger, Coder.Geometry, Engine.Trace,
          Decode, Reader.Parse, Reader.Coded, Request;
    RequestSpelt(c, m, minor, flags, id, noResponse, key, op, prin, body, sender);
    RequestCoded(c, m, minor, flags, id, noResponse, key, op, prin, body, sender);
    var typ;
    st, typ := NextMessage(e, up, m);
    r := Reader.Error;
    if st == GIOP_OK {
      Reader.RequestEndToEnd(c, m, e.coder.Input(), id, noResponse, minor == 1, key, op, prin, sender, e.coder.order);
      e.coder.InRepr();
      r := Reader.MakeHeader(e.coder, typ);
    }
  }
}
