/** The server's reading of request headers, which pairs with the engine's writing of them. */
module Reader {
  import opened Bytes
  import opened Cdr
  import opened Fragment
  import opened Giop

  datatype MsgHdr =
    | RequestHdr(id: nat, responseExpected: nat, objkey: seq<byte>, objectKey: seq<byte>, operation: seq<byte>,
          principal: seq<byte>)
    | LocateRequestHdr(id: nat, objkey: seq<byte>, objectKey: seq<byte>)
    | CancelRequestHdr(id: nat)

  datatype Result = Error | Header(hdr: MsgHdr)

  // ---- decoding calls whose status is ignored: what fails leaves zero or nothing ----

  function Word(input: seq<byte>, d: Cdr.Cursor, native: Order, sex: nat): (r: (nat, Cdr.Cursor))
    requires Contained(input, d)
    ensures Contained(input, r.1)
  {
    var (reply, e) := Decode(input, d, SScalar(4), native, sex);
    (if reply.Got? && reply.item.Scalar? then reply.item.v else 0, e)
  }

  function Octet(input: seq<byte>, d: Cdr.Cursor, native: Order, sex: nat): (r: (nat, Cdr.Cursor))
    requires Contained(input, d)
    ensures Contained(input, r.1)
  {
    var (reply, e) := Decode(input, d, SScalar(1), native, sex);
    (if reply.Got? && reply.item.Scalar? then reply.item.v else 0, e)
  }

  function Text(input: seq<byte>, d: Cdr.Cursor, native: Order, sex: nat): (r: (seq<byte>, Cdr.Cursor))
    requires Contained(input, d)
    ensures Contained(input, r.1)
  {
    var (reply, e) := Decode(input, d, SStr, native, sex);
    (match reply
     case Got(it) => if it.Str? then it.s else []
     case Cut(part) => part
     case Failed => [], e)
  }

  /** A length and that many octets. */
  function Sequence(input: seq<byte>, d: Cdr.Cursor, native: Order, sex: nat): (r: (seq<byte>, Cdr.Cursor))
    requires Contained(input, d)
    ensures Contained(input, r.1)
  {
    var (len, e) := Word(input, d, native, sex);
    var (reply, g) := Decode(input, e, SOctets(len), native, sex);
    (match reply
     case Got(it) => if it.Octets? then it.s else []
     case Cut(part) => part
     case Failed => [], g)
  }

  /** The copy of the key that is kept ends in a NUL, in place of whatever octet it ended in. */
  function Terminated(key: seq<byte>): seq<byte> {
    if key == [] then [] else key[..|key| - 1] + [0]
  }

  /** It is as long as the key, with the key's octets but the last, which is a NUL. */
  lemma TerminatedAt(key: seq<byte>)
    ensures |Terminated(key)| == |key| && forall i :: 0 <= i < |key| ==>
              Terminated(key)[i] == if i == |key| - 1 then 0 else key[i]
  {}

  /** What IT_IIOP_make_header finds at a cursor. */
  function Parse(typ: byte, input: seq<byte>, d: Cdr.Cursor, native: Order, sex: nat): Result
    requires Contained(input, d)
  {
    if typ == REQUEST then
      var (scl, d1) := Word(input, d, native, sex);
      if scl != 0 then Error
      else
        var (id, d2) := Word(input, d1, native, sex);
        var (resp, d3) := Octet(input, d2, native, sex);
        var (key, d4) := Sequence(input, d3, native, sex);
        var (op, d5) := Text(input, d4, native, sex);
        var (prin, d6) := Sequence(input, d5, native, sex);
        Header(RequestHdr(id, resp, key, Terminated(key), op, prin))
    else if typ == LOCATE_REQUEST then
      var (id, d1) := Word(input, d, native, sex);
      var (key, d2) := Sequence(input, d1, native, sex);
      Header(LocateRequestHdr(id, key, Terminated(key)))
    else if typ == CANCEL_REQUEST then
      Header(CancelRequestHdr(Word(input, d, native, sex).0))
    else Error
  }

  /** What cannot be read is zero or nothing; of what is cut short there is what there is. */
  lemma WhatFails(input: seq<byte>, d: Cdr.Cursor, native: Order, sex: nat)
    requires Contained(input, d)
    ensures d.used + AlignDelta(d.pos, 4) + 4 > |input| ==>
              && Word(input, d, native, sex) == (0, d) && Text(input, d, native, sex) == ([], d)
              && Sequence(input, d, native, sex).0 == []
    ensures d.used + 1 > |input| ==> Octet(input, d, native, sex) == (0, d)
    ensures var q := d.used + AlignDelta(d.pos, 4) + 4;
            q <= |input| && |input| - q < Decoded(input[q - 4..q], native, sex) ==>
              Text(input, d, native, sex).0 == input[q..] == Sequence(input, d, native, sex).0
  {
    hide AlignDelta, Decoded;
    var q := d.used + AlignDelta(d.pos, 4) + 4;
    if q <= |input| {
      assert Word(input, d, native, sex) == (Decoded(input[q - 4..q], native, sex), At(q));
    }
  }

  /** A request that comes with service contexts is refused, and so is any message that is no request of some kind. */
  lemma WhatIsRefused(typ: byte, input: seq<byte>, p: nat, native: Order, sex: nat)
    requires p <= |input|
    ensures typ !in {0, 2, 3} ==> Parse(typ, input, At(p), native, sex) == Error
    ensures p % 4 == 0 && p + 4 <= |input| ==>
              (Parse(0, input, At(p), native, sex) == Error <==> input[p..p + 4] != [0, 0, 0, 0])
  {
    hide Octet, Text, Sequence, Decoded;
    if p % 4 == 0 && p + 4 <= |input| {
      assert AlignDelta(p, 4) == 0;
      var w := input[p..p + 4];
      assert w == [w[0], w[1], w[2], w[3]];
      WordDecoded(w, native, sex);
    }
  }

  // ---- the decoding itself ----

  method GetWord(c: Coder) returns (v: nat)
    requires c.Dec(0) && c.bufs != []
    modifies c.bufs
    ensures c.Dec(0) && c.Input() == old(c.Input()) && (v, c.Cursor())
              == old(Word(c.Input(), c.Cursor(), c.order, c.sex))
  {
    hide Decode, Coder.Shape;
    var st, w := c.DecodeScalar(4);
    v := if st == CDR_OK then w else 0;
  }

  method GetOctet(c: Coder) returns (v: nat)
    requires c.Dec(0) && c.bufs != []
    modifies c.bufs
    ensures c.Dec(0) && c.Input() == old(c.Input()) && (v, c.Cursor())
              == old(Octet(c.Input(), c.Cursor(), c.order, c.sex))
  {
    hide Decode, Coder.Shape;
    var st, w := c.DecodeScalar(1);
    v := if st == CDR_OK then w else 0;
  }

  method GetText(c: Coder) returns (s: seq<byte>)
    requires c.Dec(0) && c.bufs != []
    modifies c.bufs
    ensures c.Dec(0) && c.Input() == old(c.Input()) && (s, c.Cursor())
              == old(Text(c.Input(), c.Cursor(), c.order, c.sex))
  {
    hide Decode, Coder.Shape;
    var st, t := c.DecodeStr();
    s := if st == CDR_FAIL then [] else t;
  }

  method GetSequence(c: Coder) returns (s: seq<byte>)
    requires c.Dec(0) && c.bufs != []
    modifies c.bufs
    ensures c.Dec(0) && c.Input() == old(c.Input()) && (s, c.Cursor())
              == old(Sequence(c.Input(), c.Cursor(), c.order, c.sex))
  {
    hide Decode, Coder.Shape;
    var len := GetWord(c);
    var st, t := c.DecodeOctets(len);
    s := if st == CDR_FAIL then [] else t;
  }

  /** IT_IIOP_make_header */
  method MakeHeader(c: Coder, typ: byte) returns (r: Result)
    requires c.Dec(0) && c.bufs != []
    modifies c`mode, c.bufs
    ensures r == old(Parse(typ, c.Input(), c.Cursor(), c.order, c.sex))
    ensures r == Error ==> typ !in {0, 2, 3} || (typ == 0 && old(Word(c.Input(), c.Cursor(), c.order, c.sex).0) != 0)
    ensures typ !in {0, 2, 3} ==> r == Error
  {
    hide Word, Octet, Text, Sequence, Owned, Coder.Ledger, Coder.Geometry;
    c.mode := Decoding;
    if typ == REQUEST {
      r := MakeRequest(c);
    } else if typ == LOCATE_REQUEST {
      var id := GetWord(c);
      var key := GetSequence(c);
      r := Header(LocateRequestHdr(id, key, Terminated(key)));
    } else if typ == CANCEL_REQUEST {
      var id := GetWord(c);
      r := Header(CancelRequestHdr(id));
    } else {
      r := Error;
    }
  }

  method MakeRequest(c: Coder) returns (r: Result)
    requires c.Dec(0) && c.bufs != []
    modifies c.bufs
    ensures r == old(Parse(REQUEST, c.Input(), c.Cursor(), c.order, c.sex))
  {
    hide Word, Octet, Text, Sequence, Coder.Shape;
    var scl := GetWord(c);
    if scl != 0 {
      return Error;
    }
    var id := GetWord(c);
    var resp := GetOctet(c);
    var key := GetSequence(c);
    var op := GetText(c);
    var prin := GetSequence(c);
    r := Header(RequestHdr(id, resp, key, Terminated(key), op, prin));
  }

  // ---- reading what was written ----

  /** The items lie coded at offset p of the octets. */
  ghost predicate Coded(c: Stream, bs: seq<byte>, p: nat, items: seq<Item>, sender: Order) {
    var e := EncAll(p, items, sender);
    Matches(c, bs) && ValidItems(items) && p + |e| <= |c| && c[p..p + |e|] == e
  }

  lemma Take(c: Stream, bs: seq<byte>, p: nat, items: seq<Item>, sender: Order, native: Order)
    requires Coded(c, bs, p, items, sender) && items != [] && (items[0] == Octets([]) ==> p < |c|)
    ensures var q := p + |EncItem(p, items[0], sender)|;
            && Coded(c, bs, q, items[1..], sender)
            && Decode(bs, At(p), ShapeOf(items[0]), native, sender.Bit()) == (Got(items[0]), At(q))
  {
    hide EncItem, Decode;
    var e := EncItem(p, items[0], sender);
    SplitAt(c, p, e, EncAll(p + |e|, items[1..], sender));
    DecodeItem(c, bs, p, items[0], sender, native);
  }

  lemma TakeWord(c: Stream, bs: seq<byte>, p: nat, v: nat, rest: seq<Item>, sender: Order, native: Order)
        returns (q: nat)
    requires Coded(c, bs, p, [Scalar(4, v)] + rest, sender)
    ensures q == p + AlignDelta(p, 4) + 4 && Coded(c, bs, q, rest, sender)
    ensures Word(bs, At(p), native, sender.Bit()) == (v, At(q))
  {
    hide Decode, Coded, AlignDelta;
    var items := [Scalar(4, v)] + rest;
    Take(c, bs, p, items, sender, native);
    assert items[1..] == rest;
    q := p + AlignDelta(p, 4) + 4;
  }

  lemma TakeOctet(c: Stream, bs: seq<byte>, p: nat, v: nat, rest: seq<Item>, sender: Order, native: Order)
        returns (q: nat)
    requires Coded(c, bs, p, [Scalar(1, v)] + rest, sender)
    ensures q == p + 1 && Coded(c, bs, q, rest, sender)
    ensures Octet(bs, At(p), native, sender.Bit()) == (v, At(q))
  {
    hide Decode, Coded;
    var items := [Scalar(1, v)] + rest;
    Take(c, bs, p, items, sender, native);
    assert items[1..] == rest;
    q := p + 1;
  }

  lemma TakeText(c: Stream, bs: seq<byte>, p: nat, s: seq<byte>, rest: seq<Item>, sender: Order, native: Order)
        returns (q: nat)
    requires Coded(c, bs, p, [Str(s)] + rest, sender)
    ensures Coded(c, bs, q, rest, sender)
    ensures q <= |bs| && Text(bs, At(p), native, sender.Bit()) == (s, At(q))
  {
    hide Decode, Coded, AlignDelta;
    var items := [Str(s)] + rest;
    Take(c, bs, p, items, sender, native);
    assert items[1..] == rest;
    q := p + |EncItem(p, Str(s), sender)|;
  }

  /** Also at the very end, where asking for no octets fails but leaves none. */
  lemma TakeSequence(c: Stream, bs: seq<byte>, p: nat, s: seq<byte>, rest: seq<Item>, sender: Order, native: Order)
        returns (q: nat)
    requires Coded(c, bs, p, [Scalar(4, |s|), Octets(s)] + rest, sender)
    ensures Coded(c, bs, q, rest, sender)
    ensures q <= |bs| && Sequence(bs, At(p), native, sender.Bit()) == (s, At(q))
  {
    hide Decode, Coded, AlignDelta;
    assert [Scalar(4, |s|), Octets(s)] + rest == [Scalar(4, |s|)] + ([Octets(s)] + rest);
    var m := TakeWord(c, bs, p, |s|, [Octets(s)] + rest, sender, native);
    assert ([Octets(s)] + rest)[1..] == rest;
    q := m + |s|;
    if s == [] && m >= |c| {
      NoneAtEnd(c, bs, m, rest, sender, native);
    } else {
      Take(c, bs, m, [Octets(s)] + rest, sender, native);
    }
  }

  lemma NoneAtEnd(c: Stream, bs: seq<byte>, p: nat, rest: seq<Item>, sender: Order, native: Order)
    requires Coded(c, bs, p, [Octets([])] + rest, sender) && p >= |c|
    ensures Coded(c, bs, p, rest, sender) && p == |bs|
    ensures Decode(bs, At(p), SOctets(0), native, sender.Bit()) == (Failed, At(p))
  {
    hide EncScalar;
    var items := [Octets([])] + rest;
    assert items[1..] == rest && [] + EncAll(p, rest, sender) == EncAll(p, rest, sender);
  }

  function Gots(items: seq<Item>): (r: seq<Reply>)
    ensures |r| == |items|
  {
    seq(|items|, i requires 0 <= i < |items| => Got(items[i]))
  }

  /** One decoding call for each item that lies coded there gives all of them back. */
  lemma {:induction false} ItemsDecoded(c: Stream, bs: seq<byte>, p: nat, items: seq<Item>, sender: Order,
                                        native: Order)
    requires Coded(c, bs, p, items, sender) && p <= |bs| && (items != [] ==> items[|items| - 1] != Octets([]))
    ensures DecodeRun(bs, At(p), Shapes(items), native, sender.Bit()).0 == Gots(items)
    decreases |items|
  {
    hide Coded, Decode, DecodeRun, Gots;
    if items == [] {
      NoneDecoded(bs, p, native, sender.Bit());
    } else {
      var q := TakeFirst(c, bs, p, items, sender, native);
      ItemsDecoded(c, bs, q, items[1..], sender, native);
      FirstDecoded(bs, p, items, q, native, sender.Bit());
    }
  }

  lemma NoneDecoded(bs: seq<byte>, p: nat, native: Order, sex: nat)
    requires p <= |bs|
    ensures DecodeRun(bs, At(p), Shapes([]), native, sex).0 == Gots([])
  {}

  lemma TakeFirst(c: Stream, bs: seq<byte>, p: nat, items: seq<Item>, sender: Order, native: Order) returns (q: nat)
    requires Coded(c, bs, p, items, sender) && items != [] && items[|items| - 1] != Octets([])
    ensures p <= |bs| && q <= |bs| && Coded(c, bs, q, items[1..], sender)
    ensures |items| > 1 ==> items[1..][|items[1..]| - 1] == items[|items| - 1]
    ensures Decode(bs, At(p), ShapeOf(items[0]), native, sender.Bit()) == (Got(items[0]), At(q))
  {
    hide Coded, EncItem, Decode;
    ItemsLeft(c, bs, p, items, sender);
    Take(c, bs, p, items, sender, native);
    q := p + |EncItem(p, items[0], sender)|;
    Inside(c, bs, p, items, sender);
    Inside(c, bs, q, items[1..], sender);
  }

  lemma FirstDecoded(bs: seq<byte>, p: nat, items: seq<Item>, q: nat, native: Order, sex: nat)
    requires p <= |bs| && q <= |bs| && items != []
    requires Decode(bs, At(p), ShapeOf(items[0]), native, sex) == (Got(items[0]), At(q))
    requires DecodeRun(bs, At(q), Shapes(items[1..]), native, sex).0 == Gots(items[1..])
    ensures DecodeRun(bs, At(p), Shapes(items), native, sex).0 == Gots(items)
  {
    hide Decode;
    assert Shapes(items)[1..] == Shapes(items[1..]) && Shapes(items)[0] == ShapeOf(items[0]);
    assert Gots(items) == [Got(items[0])] + Gots(items[1..]);
  }

  lemma ItemsLeft(c: Stream, bs: seq<byte>, p: nat, items: seq<Item>, sender: Order)
    requires Coded(c, bs, p, items, sender) && items != [] && items[|items| - 1] != Octets([])
    ensures p < |c| && (|items| > 1 ==> items[1..][|items[1..]| - 1] == items[|items| - 1])
  {
    EncodingNotEmpty(p, items, sender);
  }

  lemma Inside(c: Stream, bs: seq<byte>, p: nat, items: seq<Item>, sender: Order)
    requires Coded(c, bs, p, items, sender)
    ensures p <= |bs|
  {}

  /** So a decoder of a request's header reads of each service context its id, its length and its data. */
  lemma ContextsRead(c: Stream, bs: seq<byte>, p: nat, ctxs: seq<ServiceContext>, id: nat, noResponse: bool,
                     sender: Order, native: Order)
    requires Coded(c, bs, p, RequestHeadItems(ctxs, id, noResponse), sender) && p <= |bs|
    ensures var r := DecodeRun(bs, At(p), Shapes(RequestHeadItems(ctxs, id, noResponse)), native, sender.Bit()).0;
            var n := 1 + 3 * |ctxs|;
            && |r| == n + 2 && r[0] == Got(Scalar(4, |ctxs|))
            && (forall k :: 0 <= k < |ctxs| ==>
                  && r[1 + 3 * k] == Got(Scalar(4, ctxs[k].id)) && r[2 + 3 * k] == Got(Scalar(4, |ctxs[k].data|))
                  && r[3 + 3 * k] == Got(Octets(ctxs[k].data)))
            && r[n] == Got(Scalar(4, id)) && r[n + 1] == Got(Scalar(1, if noResponse then 0 else 1))
  {
    hide Coded, ContextItems, Decode;
    var items := RequestHeadItems(ctxs, id, noResponse);
    ContextsAt(ctxs);
    ItemsDecoded(c, bs, p, items, sender, native);
    assert forall i :: 0 <= i < 1 + 3 * |ctxs| ==> items[i] == ContextItems(ctxs)[i];
  }

  /** A request header of revision 1.0 without service contexts is read as it was written. */
  lemma RequestParsed(c: Stream, bs: seq<byte>, p: nat, id: nat, noResponse: bool, key: seq<byte>, op: seq<byte>,
        prin: seq<byte>,
                      sender: Order, native: Order)
    requires Coded(c, bs, p, RequestHeadItems([], id, noResponse) + RequestTailItems(false, key, op, prin), sender)
    ensures Parse(REQUEST, bs, At(p), native, sender.Bit())
            == Header(RequestHdr(id, if noResponse then 0 else 1, key, Terminated(key), op, prin))
  {
    hide Coded, Word, Octet, Text, Sequence, AlignDelta;
    var flag: nat := ResponseFlag(noResponse);
    var i5 := [Scalar(4, |prin|), Octets(prin)];
    var i4 := [Str(op)] + i5;
    var i3 := [Scalar(4, |key|), Octets(key)] + i4;
    var i2 := [Scalar(1, flag)] + i3;
    var i1 := [Scalar(4, id)] + i2;
    assert RequestHeadItems([], id, noResponse) + RequestTailItems(false, key, op, prin) == [Scalar(4, 0)] + i1;
    var p1 := TakeWord(c, bs, p, 0, i1, sender, native);
    var p2 := TakeWord(c, bs, p1, id, i2, sender, native);
    var p3 := TakeOctet(c, bs, p2, flag, i3, sender, native);
    var p4 := TakeSequence(c, bs, p3, key, i4, sender, native);
    var p5 := TakeText(c, bs, p4, op, i5, sender, native);
    assert i5 == i5 + [];
    var p6 := TakeSequence(c, bs, p5, prin, [], sender, native);
  }

  lemma LocateParsed(c: Stream, bs: seq<byte>, p: nat, id: nat, key: seq<byte>, sender: Order, native: Order)
    requires Coded(c, bs, p, [Scalar(4, id), Scalar(4, |key|), Octets(key)], sender)
    ensures Parse(LOCATE_REQUEST, bs, At(p), native, sender.Bit()) == Header(LocateRequestHdr(id, key, Terminated(key)))
  {
    hide Coded, Word, Octet, Text, Sequence, AlignDelta;
    var i1 := [Scalar(4, |key|), Octets(key)];
    assert [Scalar(4, id), Scalar(4, |key|), Octets(key)] == [Scalar(4, id)] + i1 && i1 + [] == i1;
    var p1 := TakeWord(c, bs, p, id, i1, sender, native);
    var p2 := TakeSequence(c, bs, p1, key, [], sender, native);
  }

  lemma CancelParsed(c: Stream, bs: seq<byte>, p: nat, id: nat, sender: Order, native: Order)
    requires Coded(c, bs, p, [Scalar(4, id)], sender)
    ensures Parse(CANCEL_REQUEST, bs, At(p), native, sender.Bit()) == Header(CancelRequestHdr(id))
  {
    hide Coded, Word;
    assert [Scalar(4, id)] == [Scalar(4, id)] + [];
    var p1 := TakeWord(c, bs, p, id, [], sender, native);
  }

  // ---- the reserved octets of revision 1.1 ----

  /** They take the place of the padding that revision 1.0 has there; all else is the same. */
  lemma ReservedIsPadding(p: nat, key: seq<byte>, op: seq<byte>, prin: seq<byte>, order: Order)
    requires p % 4 == 1
    ensures var old10 := EncAll(p, RequestTailItems(false, key, op, prin), order);
            |old10| >= 3 && old10[..3] == Pads(3)
            && EncAll(p, RequestTailItems(true, key, op, prin), order) == Cells([0, 0, 0]) + old10[3..]
  {
    hide NativeBytes, EncItem, EncAll, AlignDelta;
    var tail := RequestTailItems(false, key, op, prin);
    var longer := RequestTailItems(true, key, op, prin);
    assert longer == [Octets([0, 0, 0])] + tail && longer[1..] == tail && longer[0] == Octets([0, 0, 0]);
    var word := Cells(NativeBytes(|key|, 4, order));
    WordAfter(p, |key|, order);
    EncAllCons(p, longer, order);
    EncAllCons(p, tail, order);
    EncAllCons(p + 3, tail, order);
    ReservedItem(p, order);
    var rest := EncAll(p + 7, tail[1..], order);
    assert Pads(3) + word + rest == Pads(3) + (word + rest);
  }

  lemma WordAfter(p: nat, v: nat, order: Order)
    requires p % 4 == 1
    ensures var word := Cells(NativeBytes(v, 4, order));
            EncItem(p, Scalar(4, v), order) == Pads(3) + word && EncItem(p + 3, Scalar(4, v), order) == word
  {
    hide NativeBytes;
    assert AlignDelta(p, 4) == 3 && AlignDelta(p + 3, 4) == 0;
    assert Pads(0) == [];
  }

  lemma ReservedItem(p: nat, order: Order)
    ensures EncItem(p, Octets([0, 0, 0]), order) == Cells([0, 0, 0])
  {}

  /** The response flag is behind a word, so one octet past a multiple of four. */
  lemma HeadEnds(p: nat, ctxs: seq<ServiceContext>, id: nat, noResponse: bool, order: Order)
    ensures (p + |EncAll(p, RequestHeadItems(ctxs, id, noResponse), order)|) % 4 == 1
  {
    hide EncAll, NativeBytes;
    var flag: nat := ResponseFlag(noResponse);
    var first, second := ContextItems(ctxs), ContextItems(ctxs) + [Scalar(4, id)];
    assert RequestHeadItems(ctxs, id, noResponse) == second + [Scalar(1, flag)];
    EncAllSnoc(p, first, Scalar(4, id), order);
    EncAllSnoc(p, second, Scalar(1, flag), order);
    var q := p + |EncAll(p, first, order)|;
    WordEnds(q);
  }

  lemma WordEnds(q: nat)
    ensures (q + AlignDelta(q, 4) + 4) % 4 == 0
  {}

  /** Octets that carry a request header of revision 1.1 carry the same one of revision 1.0. */
  lemma AsOldRevision(c: Stream, bs: seq<byte>, p: nat, ctxs: seq<ServiceContext>, id: nat, noResponse: bool,
                      key: seq<byte>, op: seq<byte>, prin: seq<byte>, sender: Order)
    returns (d: Stream)
    requires Coded(c, bs, p, RequestHeadItems(ctxs, id, noResponse) + RequestTailItems(true, key, op, prin), sender)
    ensures Coded(d, bs, p, RequestHeadItems(ctxs, id, noResponse) + RequestTailItems(false, key, op, prin), sender)
  {
    hide EncAll, Matches, ValidItem;
    var head := RequestHeadItems(ctxs, id, noResponse);
    var t1, t0 := RequestTailItems(true, key, op, prin), RequestTailItems(false, key, op, prin);
    var h := EncAll(p, head, sender);
    var q := p + |h|;
    EncAllAppend(p, head, t1, sender);
    EncAllAppend(p, head, t0, sender);
    HeadEnds(p, ctxs, id, noResponse, sender);
    ReservedIsPadding(q, key, op, prin, sender);
    var e1, e0 := EncAll(q, t1, sender), EncAll(q, t0, sender);
    SplitAt(c, p, h, e1);
    d := c[..q] + e0 + c[q + |e1|..];
    Padded(c, d, bs, q, e1, e0);
    assert d[p..p + |h + e0|] == h + e0 by {
      assert d[p..q] == c[p..q];
    }
    assert t1 == [Octets([0, 0, 0])] + t0;
    forall i | 0 <= i < |head + t0| ensures ValidItem((head + t0)[i]) {
      assert (head + t0)[i] == (head + t1)[if i < |head| then i else i + 1];
    }
  }

  /** Fewer octets fixed are matched all the more. */
  lemma Padded(c: Stream, d: Stream, bs: seq<byte>, q: nat, e1: Stream, e0: Stream)
    requires Matches(c, bs) && |e0| == |e1| && |e0| >= 3 && e0[..3] == Pads(3) && e1[3..] == e0[3..]
    requires q + |e1| <= |c| && c[q..q + |e1|] == e1 && d == c[..q] + e0 + c[q + |e1|..]
    ensures Matches(d, bs)
  {
    forall i | 0 <= i < |d| && d[i].Data? ensures bs[i] == d[i].b {
      if i < q {
      } else if i < q + |e0| {
        assert d[i] == e0[i - q];
        if i - q >= 3 {
          assert e0[i - q] == e0[3..][i - q - 3] == e1[3..][i - q - 3] == e1[i - q];
          assert c[i] == c[q..q + |e1|][i - q];
        }
      } else {
        assert d[i] == c[i];
      }
    }
  }

  // ---- end to end ----

  /** What lies coded behind the twelve octets of a header lies so behind four dummies. */
  lemma BehindDummies(c: Stream, m: seq<byte>, buffer: seq<byte>, items: seq<Item>, sender: Order) returns (d: Stream)
    requires Coded(c, m, HDR_SZ, items, sender)
    requires |buffer| == |m| - 8 && buffer[4..] == m[HDR_SZ..]
    ensures Coded(d, buffer, 4, items, sender)
  {
    hide EncAll;
    EncAllShift(4, items, sender);
    var e := EncAll(4, items, sender);
    d := Pads(4) + c[HDR_SZ..];
    forall i | 0 <= i < |d| && d[i].Data? ensures buffer[i] == d[i].b {
      assert buffer[i] == buffer[4..][i - 4] == m[HDR_SZ..][i - 4];
      assert d[i] == c[i + 8];
    }
    assert d[4..4 + |e|] == c[HDR_SZ..HDR_SZ + |e|];
  }

  /** The items of a request header, of either revision, without service contexts. */
  function RequestItems(id: nat, noResponse: bool, reserved: bool, key: seq<byte>, op: seq<byte>,
        prin: seq<byte>): seq<Item> {
    RequestHeadItems([], id, noResponse) + RequestTailItems(reserved, key, op, prin)
  }

  /** A request, with any body, received behind four dummies is read as it was written. */
  lemma RequestEndToEnd(c: Stream, m: seq<byte>, buffer: seq<byte>, id: nat, noResponse: bool, reserved: bool,
                        key: seq<byte>, op: seq<byte>, prin: seq<byte>, sender: Order, native: Order)
    requires Coded(c, m, HDR_SZ, RequestItems(id, noResponse, reserved, key, op, prin), sender)
    requires |buffer| == |m| - 8 && buffer[4..] == m[HDR_SZ..]
    ensures Contained(buffer, At(4))
    ensures Parse(REQUEST, buffer, At(4), native, sender.Bit())
            == Header(RequestHdr(id, if noResponse then 0 else 1, key, Terminated(key), op, prin))
  {
    hide Coded, Parse;
    Long(c, m, RequestItems(id, noResponse, reserved, key, op, prin), sender);
    var d := BehindDummies(c, m, buffer, RequestItems(id, noResponse, reserved, key, op, prin), sender);
    if reserved {
      d := AsOldRevision(d, buffer, 4, [], id, noResponse, key, op, prin, sender);
    }
    RequestParsed(d, buffer, 4, id, noResponse, key, op, prin, sender, native);
  }

  lemma Long(c: Stream, m: seq<byte>, items: seq<Item>, sender: Order)
    requires Coded(c, m, HDR_SZ, items, sender)
    ensures |m| >= HDR_SZ
  {}
}
