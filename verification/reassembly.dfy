/** Conservation: a receiver reading the messages in order gets back every item that was coded. */
module Reassembly {
  import opened Bytes
  import opened Cdr
  import opened Fragment

  /**
   * Reading one item from message k at offset p: a call that fails is tried again behind the next
   * message's header, cut octets continue there, and asking for no octets is taken as having read none.
   */
  function ReadOne(all: seq<seq<byte>>, k: nat, p: nat, sh: Shape, native: Order, sex: nat): (r: (bool, Item, nat, nat))
    requires k < |all| && p <= |all[k]|
    ensures r.0 ==> k <= r.2 < |all| && r.3 <= |all[r.2]|
    decreases |all| - k
  {
    var (reply, d) := Decode(all[k], At(p), sh, native, sex);
    var more := k + 1 < |all| && HDR_SZ <= |all[k + 1]|;
    match reply
    case Got(it) => (true, it, k, d.used)
    case Failed =>
      if sh == SOctets(0) then (true, Octets([]), k, p)
      else if more then ReadOne(all, k + 1, HDR_SZ, sh, native, sex)
      else (false, Octets([]), k, p)
    case Cut(part) =>
      if sh.SOctets? && more && |part| <= sh.len then
        var r := ReadOne(all, k + 1, HDR_SZ, SOctets(sh.len - |part|), native, sex);
        if r.0 && r.1.Octets? then (true, Octets(part + r.1.s), r.2, r.3) else (false, Octets([]), k, p)
      else (false, Octets([]), k, p)
  }

  function ReadAll(all: seq<seq<byte>>, k: nat, p: nat, shapes: seq<Shape>, native: Order, sex: nat): (bool, seq<Item>)
    requires k < |all| && p <= |all[k]|
    decreases |shapes|
  {
    if shapes == [] then (true, [])
    else
      var r := ReadOne(all, k, p, shapes[0], native, sex);
      if !r.0 then (false, [])
      else
        var (ok, rest) := ReadAll(all, r.2, r.3, shapes[1..], native, sex);
        (ok, [r.1] + rest)
  }

  // ---- what later coding leaves of an open message ----

  /** Every message of the flow, the open one last. */
  function Messages(f: Flow): seq<Stream> {
    f.sent + [f.open]
  }

  /** g came from f by coding on: what f has sent is kept, and f's open message is kept behind its header. */
  ghost predicate Continues(f: Flow, g: Flow) {
    && |f.sent| <= |g.sent|
    && g.sent[..|f.sent|] == f.sent
    && KeepsBody(f.open, Messages(g)[|f.sent|])
  }

  ghost predicate KeepsBody(c: Stream, m: Stream) {
    HDR_SZ <= |c| <= |m| && m[HDR_SZ..|c|] == c[HDR_SZ..]
  }

  lemma ContinuesTrans(f: Flow, g: Flow, h: Flow)
    requires Continues(f, g) && Continues(g, h)
    ensures Continues(f, h)
  {
    var k := |f.sent|;
    assert h.sent[..k] == h.sent[..|g.sent|][..k];
    if |g.sent| > k {
      assert Messages(h)[k] == h.sent[..|g.sent|][k] == Messages(g)[k];
    } else {
      var n := |f.open|;
      var m := Messages(h)[k];
      assert m[HDR_SZ..n] == m[HDR_SZ..|g.open|][..n - HDR_SZ];
      assert g.open[HDR_SZ..n] == g.open[HDR_SZ..][..n - HDR_SZ];
    }
  }

  lemma SealKeepsBody(c: Stream, order: Order)
    requires HDR_SZ <= |c|
    ensures KeepsBody(c, Seal(c, order))
  {
    hide NativeBytes, MoreFrags;
    var s := Sized(c, order);
    PatchParts(c, 8, NativeBytes(|c| - HDR_SZ, 4, order));
    PatchParts(s, 6, [MoreFrags(FlagsOf(s))]);
    SameTail(Flagged(s), s, 7, HDR_SZ, |c|);
  }

  lemma BreakContinues(f: Flow, cfg: Config)
    requires HDR_SZ <= |f.open|
    ensures Continues(f, Break(f, cfg)) && |Break(f, cfg).open| == HDR_SZ
  {
    hide Seal;
    SealKeepsBody(f.open, cfg.order);
  }

  lemma AppendContinues(f: Flow, e: Stream)
    requires HDR_SZ <= |f.open|
    ensures Continues(f, Flow(f.sent, f.open + e))
  {}

  lemma {:induction false} PutBytesContinues(f: Flow, cfg: Config, s: seq<byte>)
    requires Legal(cfg) && HDR_SZ <= |f.open| && (cfg.on ==> |f.open| <= cfg.maxlen)
    ensures Continues(f, PutBytes(f, cfg, s)) && HDR_SZ <= |PutBytes(f, cfg, s).open|
    decreases |s|, |f.open|
  {
    hide Break, Continues;
    if cfg.on && |f.open| + |s| > cfg.maxlen {
      var k := cfg.maxlen - |f.open|;
      var g := Flow(f.sent, f.open + Cells(s[..k]));
      AppendContinues(f, Cells(s[..k]));
      BreakContinues(g, cfg);
      PutBytesContinues(Break(g, cfg), cfg, s[k..]);
      ContinuesTrans(f, g, Break(g, cfg));
      ContinuesTrans(f, Break(g, cfg), PutBytes(f, cfg, s));
    } else {
      AppendContinues(f, Cells(s));
    }
  }

  lemma RoomContinues(f: Flow, cfg: Config, n: Size)
    requires HDR_SZ <= |f.open|
    ensures Continues(f, Room(f, cfg, n)) && HDR_SZ <= |Room(f, cfg, n).open|
  {
    hide Break;
    BreakContinues(f, cfg);
    AppendContinues(f, []);
    assert f.open + [] == f.open;
  }

  lemma PutItemContinues(f: Flow, cfg: Config, it: Item)
    requires Legal(cfg) && HDR_SZ <= |f.open|
    ensures Continues(f, PutItem(f, cfg, it)) && HDR_SZ <= |PutItem(f, cfg, it).open|
  {
    hide Room, Continues, PutBytes, EncScalar;
    match it
    case Scalar(n, v) =>
      RoomContinues(f, cfg, n);
      var g := Room(f, cfg, n);
      AppendContinues(g, EncScalar(|g.open|, n, v, cfg.order));
      ContinuesTrans(f, g, PutItem(f, cfg, it));
    case Str(s) =>
      RoomContinues(f, cfg, 4);
      var g := Room(f, cfg, 4);
      var e := EncScalar(|g.open|, 4, |s|, cfg.order);
      AppendContinues(g, e);
      ContinuesTrans(f, g, Flow(g.sent, g.open + e));
      AppendContinues(Flow(g.sent, g.open + e), Cells(s));
      ContinuesTrans(f, Flow(g.sent, g.open + e), PutItem(f, cfg, it));
    case Octets(s) =>
      RoomContinues(f, cfg, 1);
      RoomAtMost(f, cfg);
      PutBytesContinues(Room(f, cfg, 1), cfg, s);
      ContinuesTrans(f, Room(f, cfg, 1), PutItem(f, cfg, it));
  }

  lemma RoomAtMost(f: Flow, cfg: Config)
    requires Legal(cfg)
    ensures cfg.on ==> |Room(f, cfg, 1).open| < cfg.maxlen
  {}

  lemma {:induction false} PutAllContinues(f: Flow, cfg: Config, items: seq<Item>)
    requires Legal(cfg) && HDR_SZ <= |f.open|
    ensures Continues(f, PutAll(f, cfg, items)) && HDR_SZ <= |PutAll(f, cfg, items).open|
    decreases |items|
  {
    if items == [] {
      AppendContinues(f, []);
      assert f.open + [] == f.open;
    } else {
      hide Continues, PutItem;
      var g := PutItem(f, cfg, items[0]);
      PutItemContinues(f, cfg, items[0]);
      PutAllContinues(g, cfg, items[1..]);
      ContinuesTrans(f, g, PutAll(f, cfg, items));
    }
  }

  // ---- reading back ----

  /** The octets of every message of the flow, in order. */
  ghost predicate Carries(all: seq<seq<byte>>, f: Flow) {
    |all| == |f.sent| + 1 && forall i :: 0 <= i < |all| ==> Matches(Messages(f)[i], all[i])
  }

  /** A piece coded into f's open message is found in place in the message that became of it. */
  lemma InPlace(all: seq<seq<byte>>, f: Flow, end: Flow, p: nat, e: Stream)
    requires Carries(all, end) && Continues(f, end)
    requires HDR_SZ <= p && p + |e| <= |f.open| && f.open[p..p + |e|] == e
    ensures var m := Messages(end)[|f.sent|];
            Matches(m, all[|f.sent|]) && p + |e| <= |m| && m[p..p + |e|] == e
  {
    var m := Messages(end)[|f.sent|];
    assert m[p..p + |e|] == m[HDR_SZ..|f.open|][p - HDR_SZ..][..|e|];
    assert f.open[p..p + |e|] == f.open[HDR_SZ..][p - HDR_SZ..][..|e|];
  }

  /** A message that was cut off ends where its stream ended. */
  lemma CutMessage(all: seq<seq<byte>>, f: Flow, cfg: Config, end: Flow)
    requires Carries(all, end) && Continues(Break(f, cfg), end)
    ensures |f.sent| + 1 < |all| && |all[|f.sent|]| == |f.open|
    ensures HDR_SZ <= |all[|f.sent| + 1]|
  {
    var g := Break(f, cfg);
    assert Messages(end)[|f.sent|] == end.sent[..|g.sent|][|f.sent|] == Seal(f.open, cfg.order);
  }

  lemma ReadScalarLike(all: seq<seq<byte>>, f: Flow, g: Flow, end: Flow, it: Item, sender: Order, native: Order)
    requires Carries(all, end) && Continues(g, end) && ValidItem(it) && it != Octets([])
    requires HDR_SZ <= |f.open| && g == Flow(f.sent, f.open + EncItem(|f.open|, it, sender))
    ensures |f.sent| < |all| && |f.open| <= |g.open| <= |all[|f.sent|]|
    ensures ReadOne(all, |f.sent|, |f.open|, ShapeOf(it), native, sender.Bit()) == (true, it, |g.sent|, |g.open|)
  {
    hide Decode, EncItem, Carries, Matches, Continues;
    InPlaceRead(all, f, g, end, it, sender, native);
  }

  lemma InPlaceRead(all: seq<seq<byte>>, f: Flow, g: Flow, end: Flow, it: Item, sender: Order, native: Order)
    requires Carries(all, end) && Continues(g, end) && ValidItem(it) && it != Octets([])
    requires HDR_SZ <= |f.open| && g == Flow(f.sent, f.open + EncItem(|f.open|, it, sender))
    ensures |f.sent| < |all| && |f.open| <= |g.open| <= |all[|f.sent|]|
    ensures Decode(all[|f.sent|], At(|f.open|), ShapeOf(it), native, sender.Bit()) == (Got(it), At(|g.open|))
  {
    hide Decode, EncItem;
    var e := EncItem(|f.open|, it, sender);
    InPlace(all, g, end, |f.open|, e);
    DecodeItem(Messages(end)[|f.sent|], all[|f.sent|], |f.open|, it, sender, native);
  }

  /** The cut item's first part is the rest of the message it was cut in. */
  lemma CutPart(all: seq<seq<byte>>, f: Flow, cfg: Config, a: seq<byte>, n: nat, end: Flow, native: Order, sex: nat)
    requires HDR_SZ <= |f.open| && |a| < n
    requires var h := Flow(f.sent, f.open + Cells(a)); Carries(all, end) && Continues(Break(h, cfg), end)
    ensures |f.sent| + 1 < |all| && |f.open| <= |all[|f.sent|]| && HDR_SZ <= |all[|f.sent| + 1]|
    ensures Decode(all[|f.sent|], At(|f.open|), SOctets(n), native, sex).0 == if a == [] then Failed else Cut(a)
  {
    hide Break;
    var h := Flow(f.sent, f.open + Cells(a));
    CutMessage(all, h, cfg, end);
    BreakContinues(h, cfg);
    ContinuesTrans(h, Break(h, cfg), end);
    InPlace(all, h, end, |f.open|, Cells(a));
    MatchesSlice(Messages(end)[|f.sent|], all[|f.sent|], |f.open|, a);
  }

  lemma ReadCut(all: seq<seq<byte>>, k: nat, p: nat, a: seq<byte>, b: seq<byte>, k': nat, p': nat, native: Order,
        sex: nat)
    requires k + 1 < |all| && p <= |all[k]| && HDR_SZ <= |all[k + 1]| && b != []
    requires Decode(all[k], At(p), SOctets(|a| + |b|), native, sex).0 == if a == [] then Failed else Cut(a)
    requires ReadOne(all, k + 1, HDR_SZ, SOctets(|b|), native, sex) == (true, Octets(b), k', p')
    ensures ReadOne(all, k, p, SOctets(|a| + |b|), native, sex) == (true, Octets(a + b), k', p')
  {
    hide Decode;
    assert a == [] ==> a + b == b;
  }

  lemma {:induction false} ReadBytes(all: seq<seq<byte>>, f: Flow, cfg: Config, s: seq<byte>, end: Flow, native: Order)
    requires Legal(cfg) && HDR_SZ <= |f.open| && (cfg.on ==> |f.open| <= cfg.maxlen) && 0 < |s| < WORD
    requires Carries(all, end) && Continues(PutBytes(f, cfg, s), end)
    ensures |f.sent| < |all| && |f.open| <= |all[|f.sent|]|
    ensures var g := PutBytes(f, cfg, s);
            ReadOne(all, |f.sent|, |f.open|, SOctets(|s|), native, cfg.order.Bit())
            == (true, Octets(s), |g.sent|, |g.open|)
    decreases |s|, |f.open|
  {
    hide ReadOne, Carries, Continues, PutBytes, Break;
    var g := PutBytes(f, cfg, s);
    PutBytesStep(f, cfg, s);
    if cfg.on && |f.open| + |s| > cfg.maxlen {
      var k := cfg.maxlen - |f.open|;
      var a, b := s[..k], s[k..];
      var next := Break(Flow(f.sent, f.open + Cells(a)), cfg);
      BreakCounts(Flow(f.sent, f.open + Cells(a)), cfg);
      PutBytesContinues(next, cfg, b);
      ContinuesTrans(next, g, end);
      ReadBytes(all, next, cfg, b, end, native);
      CutPart(all, f, cfg, a, |s|, end, native, cfg.order.Bit());
      ReadCut(all, |f.sent|, |f.open|, a, b, |g.sent|, |g.open|, native, cfg.order.Bit());
      assert a + b == s;
    } else {
      ReadScalarLike(all, f, g, end, Octets(s), cfg.order, native);
    }
  }

  /** An item that started a new message is not found at the end of the old one but behind the next header. */
  lemma ReadAcross(all: seq<seq<byte>>, f: Flow, cfg: Config, end: Flow, sh: Shape, native: Order, sex: nat)
    requires HDR_SZ <= |f.open| && sh != SOctets(0)
    requires Carries(all, end) && Continues(Break(f, cfg), end)
    ensures |f.sent| + 1 < |all| && |f.open| <= |all[|f.sent|]| && HDR_SZ <= |all[|f.sent| + 1]|
    ensures ReadOne(all, |f.sent|, |f.open|, sh, native, sex) == ReadOne(all, |f.sent| + 1, HDR_SZ, sh, native, sex)
  {
    hide Decode, Continues, Carries, Break;
    CutMessage(all, f, cfg, end);
    NothingLeft(all[|f.sent|], sh, native, sex);
  }

  lemma ReadBehindRoom(all: seq<seq<byte>>, f: Flow, cfg: Config, n: Size, g: Flow, end: Flow, it: Item, native: Order)
    requires HDR_SZ <= |f.open| && ValidItem(it) && it != Octets([])
    requires Carries(all, end) && Continues(g, end)
    requires var r := Room(f, cfg, n); g == Flow(r.sent, r.open + EncItem(|r.open|, it, cfg.order))
    ensures |f.sent| < |all| && |f.open| <= |all[|f.sent|]|
    ensures ReadOne(all, |f.sent|, |f.open|, ShapeOf(it), native, cfg.order.Bit()) == (true, it, |g.sent|, |g.open|)
  {
    hide ReadOne, Carries, Continues, EncItem, Break, Breaks;
    var r := Room(f, cfg, n);
    RoomContinues(f, cfg, n);
    AppendContinues(r, EncItem(|r.open|, it, cfg.order));
    ContinuesTrans(r, g, end);
    ReadScalarLike(all, r, g, end, it, cfg.order, native);
    if Breaks(f, cfg, n) {
      BreakContinues(f, cfg);
      ReadAcross(all, f, cfg, end, ShapeOf(it), native, cfg.order.Bit());
      BreakCounts(f, cfg);
    }
  }

  lemma BreakCounts(f: Flow, cfg: Config)
    ensures |Break(f, cfg).sent| == |f.sent| + 1 && |Break(f, cfg).open| == HDR_SZ
  {}

  lemma ReadOctetsItem(all: seq<seq<byte>>, f: Flow, cfg: Config, s: seq<byte>, end: Flow, native: Order)
    requires Legal(cfg) && HDR_SZ <= |f.open| && 0 < |s| < WORD
    requires Carries(all, end) && Continues(PutItem(f, cfg, Octets(s)), end)
    ensures |f.sent| < |all| && |f.open| <= |all[|f.sent|]|
    ensures var g := PutItem(f, cfg, Octets(s));
            ReadOne(all, |f.sent|, |f.open|, SOctets(|s|), native, cfg.order.Bit())
                  == (true, Octets(s), |g.sent|, |g.open|)
  {
    hide ReadOne, Carries, Continues, Break, Breaks, PutBytes;
    var r := Room(f, cfg, 1);
    var g := PutItem(f, cfg, Octets(s));
    RoomContinues(f, cfg, 1);
    RoomAtMost(f, cfg);
    PutBytesContinues(r, cfg, s);
    ContinuesTrans(r, g, end);
    ReadBytes(all, r, cfg, s, end, native);
    if Breaks(f, cfg, 1) {
      ReadAcross(all, f, cfg, end, SOctets(|s|), native, cfg.order.Bit());
      BreakCounts(f, cfg);
    }
  }

  /** Asking for no octets reads none, wherever it happens. */
  lemma ReadNoOctets(all: seq<seq<byte>>, k: nat, p: nat, native: Order, sex: nat)
    requires k < |all| && p <= |all[k]|
    ensures ReadOne(all, k, p, SOctets(0), native, sex) == (true, Octets([]), k, p)
  {
    assert all[k][p..p + 0] == [];
  }

  lemma ReadItem(all: seq<seq<byte>>, f: Flow, cfg: Config, it: Item, end: Flow, native: Order)
    requires Legal(cfg) && HDR_SZ <= |f.open| && ValidItem(it) && it != Octets([])
    requires Carries(all, end) && Continues(PutItem(f, cfg, it), end)
    ensures |f.sent| < |all| && |f.open| <= |all[|f.sent|]|
    ensures var g := PutItem(f, cfg, it);
            ReadOne(all, |f.sent|, |f.open|, ShapeOf(it), native, cfg.order.Bit()) == (true, it, |g.sent|, |g.open|)
  {
    hide ReadOne, Carries, Continues, Room, Breaks, PutBytes, EncScalar;
    var g := PutItem(f, cfg, it);
    match it
    case Scalar(n, v) =>
      ReadBehindRoom(all, f, cfg, n, g, end, it, native);
    case Str(s) =>
      var r := Room(f, cfg, 4);
      assert g.open == r.open + EncItem(|r.open|, it, cfg.order);
      ReadBehindRoom(all, f, cfg, 4, g, end, it, native);
    case Octets(s) =>
      ReadOctetsItem(all, f, cfg, s, end, native);
  }

  /** The reader stands where the coder stood, or one message back with nothing left to read there. */
  ghost predicate InStep(all: seq<seq<byte>>, k: nat, p: nat, f: Flow) {
    && k < |all| && p <= |all[k]|
    && (|| (k == |f.sent| && p == |f.open|)
        || (k + 1 == |f.sent| < |all| && p == |all[k]| && HDR_SZ == |f.open| <= |all[k + 1]|))
  }

  lemma ReadInStep(all: seq<seq<byte>>, k: nat, p: nat, f: Flow, cfg: Config, it: Item, end: Flow, native: Order)
    requires Legal(cfg) && HDR_SZ <= |f.open| && ValidItem(it) && InStep(all, k, p, f)
    requires Carries(all, end) && Continues(PutItem(f, cfg, it), end)
    ensures var r := ReadOne(all, k, p, ShapeOf(it), native, cfg.order.Bit());
            r.0 && r.1 == it && InStep(all, r.2, r.3, PutItem(f, cfg, it))
  {
    hide Continues, PutItem, Decode;
    if it == Octets([]) {
      ReadNoOctets(all, k, p, native, cfg.order.Bit());
      NoOctetsInStep(all, k, p, f, cfg, end);
    } else {
      if k < |f.sent| {
        NothingLeft(all[k], ShapeOf(it), native, cfg.order.Bit());
        assert ReadOne(all, k, p, ShapeOf(it), native, cfg.order.Bit())
            == ReadOne(all, k + 1, HDR_SZ, ShapeOf(it), native, cfg.order.Bit());
      }
      ReadItem(all, f, cfg, it, end, native);
    }
  }

  lemma NoOctetsInStep(all: seq<seq<byte>>, k: nat, p: nat, f: Flow, cfg: Config, end: Flow)
    requires Legal(cfg) && HDR_SZ <= |f.open| && InStep(all, k, p, f)
    requires Carries(all, end) && Continues(PutItem(f, cfg, Octets([])), end)
    ensures InStep(all, k, p, PutItem(f, cfg, Octets([])))
  {
    hide Continues, Carries, Break;
    var g := Room(f, cfg, 1);
    assert g.open + Cells([]) == g.open;
    RoomAtMost(f, cfg);
    assert PutBytes(g, cfg, []) == Flow(g.sent, g.open + Cells([]));
    assert PutItem(f, cfg, Octets([])) == g;
    if Breaks(f, cfg, 1) {
      CutMessage(all, f, cfg, end);
      BreakCounts(f, cfg);
    }
  }

  lemma {:induction false} ReadBack(all: seq<seq<byte>>, k: nat, p: nat, f: Flow, cfg: Config, items: seq<Item>,
        end: Flow, native: Order)
    requires Legal(cfg) && HDR_SZ <= |f.open| && ValidItems(items) && InStep(all, k, p, f)
    requires Carries(all, end) && Continues(PutAll(f, cfg, items), end)
    ensures ReadAll(all, k, p, Shapes(items), native, cfg.order.Bit()) == (true, items)
    decreases |items|
  {
    if items != [] {
      hide Continues, Carries, PutItem, ReadOne, InStep;
      var it, rest := items[0], items[1..];
      var g := PutItem(f, cfg, it);
      PutItemContinues(f, cfg, it);
      PutAllContinues(g, cfg, rest);
      ContinuesTrans(g, PutAll(f, cfg, items), end);
      ReadInStep(all, k, p, f, cfg, it, end, native);
      var r := ReadOne(all, k, p, ShapeOf(it), native, cfg.order.Bit());
      ReadBack(all, r.2, r.3, g, cfg, rest, end, native);
      assert Shapes(items)[1..] == Shapes(rest);
      assert [it] + rest == items;
    }
  }

  /** Completing a message leaves what is behind its header. */
  lemma FinalContinues(f: Flow, more: bool, order: Order)
    requires HDR_SZ <= |f.open|
    ensures Continues(f, Flow(f.sent, Sized(if more then Flagged(f.open) else f.open, order)))
  {
    hide NativeBytes, MoreFrags;
    var c := f.open;
    var d := if more then Flagged(c) else c;
    PatchParts(c, 6, [MoreFrags(FlagsOf(c))]);
    SameTail(d, c, 7, HDR_SZ, |c|);
    PatchParts(d, 8, NativeBytes(|d| - HDR_SZ, 4, order));
  }

  /**
   * Conservation: code any items behind any open message under any legal fragment size and complete the last
   * message; whoever reads the messages in order, each behind its own header, gets exactly those items, on a
   * machine of either order.
   */
  lemma Conservation(all: seq<seq<byte>>, f: Flow, cfg: Config, items: seq<Item>, more: bool, native: Order)
    requires Legal(cfg) && HDR_SZ <= |f.open| && ValidItems(items)
    requires var g := PutAll(f, cfg, items);
             Carries(all, Flow(g.sent, Sized(if more then Flagged(g.open) else g.open, cfg.order)))
    ensures |f.sent| < |all| && |f.open| <= |all[|f.sent|]|
    ensures ReadAll(all, |f.sent|, |f.open|, Shapes(items), native, cfg.order.Bit()) == (true, items)
  {
    hide Sized, Flagged, PutAll, ReadAll;
    var g := PutAll(f, cfg, items);
    var end := Flow(g.sent, Sized(if more then Flagged(g.open) else g.open, cfg.order));
    PutAllContinues(f, cfg, items);
    FinalContinues(g, more, cfg.order);
    ContinuesTrans(f, g, end);
    ReadBack(all, |f.sent|, |f.open|, f, cfg, items, end, native);
  }

  // ---- flows that were not cut ----

  lemma PutBytesUncut(f: Flow, cfg: Config, s: seq<byte>)
    requires Legal(cfg) && HDR_SZ <= |f.open| && (cfg.on ==> |f.open| <= cfg.maxlen)
              && PutBytes(f, cfg, s).sent == f.sent
    ensures cfg.on ==> |f.open| + |s| <= cfg.maxlen
  {
    hide PutBytes;
    PutBytesStep(f, cfg, s);
    if cfg.on && |f.open| + |s| > cfg.maxlen {
      var k := cfg.maxlen - |f.open|;
      var g := Flow(f.sent, f.open + Cells(s[..k]));
      BreakCounts(g, cfg);
      PutBytesContinues(Break(g, cfg), cfg, s[k..]);
    }
  }

  /** An item that sent nothing went behind the open message as the flat encoder has it; only lengths decide that. */
  lemma PutItemUncut(f: Flow, f': Flow, cfg: Config, it: Item)
    requires Legal(cfg) && HDR_SZ <= |f.open| == |f'.open| && PutItem(f, cfg, it).sent == f.sent
    ensures PutItem(f', cfg, it) == Flow(f'.sent, f'.open + EncItem(|f'.open|, it, cfg.order))
  {
    hide PutBytes, EncItem, AlignDelta;
    match it
    case Scalar(n, v) => PutFits(f', cfg, it);
    case Str(s) => PutFits(f', cfg, it);
    case Octets(s) =>
      RoomContinues(f, cfg, 1);
      RoomAtMost(f, cfg);
      PutBytesContinues(Room(f, cfg, 1), cfg, s);
      NotBroken(f, cfg);
      PutBytesUncut(f, cfg, s);
      PutFits(f', cfg, it);
  }

  lemma NotBroken(f: Flow, cfg: Config)
    requires |Room(f, cfg, 1).sent| <= |f.sent|
    ensures Room(f, cfg, 1) == f && (cfg.on ==> |f.open| < cfg.maxlen)
  {
    assert AlignDelta(|f.open|, 1) == 0;
  }

  lemma {:induction false} PutAllUncut(f: Flow, f': Flow, cfg: Config, items: seq<Item>)
    requires Legal(cfg) && HDR_SZ <= |f.open| == |f'.open| && PutAll(f, cfg, items).sent == f.sent
    ensures PutAll(f', cfg, items) == Flow(f'.sent, f'.open + EncAll(|f'.open|, items, cfg.order))
    decreases |items|
  {
    hide PutItem, EncItem, Continues;
    if items == [] {
      assert f'.open + [] == f'.open;
    } else {
      var g := PutItem(f, cfg, items[0]);
      PutItemContinues(f, cfg, items[0]);
      PutAllContinues(g, cfg, items[1..]);
      SameSent(f, g, PutAll(f, cfg, items));
      PutItemUncut(f, f, cfg, items[0]);
      PutItemUncut(f, f', cfg, items[0]);
      var e := EncItem(|f'.open|, items[0], cfg.order);
      var g' := Flow(f'.sent, f'.open + e);
      PutAllUncut(g, g', cfg, items[1..]);
      assert f'.open + (e + EncAll(|f'.open| + |e|, items[1..], cfg.order))
          == f'.open + e + EncAll(|f'.open| + |e|, items[1..], cfg.order);
    }
  }

  lemma SameSent(f: Flow, g: Flow, h: Flow)
    requires Continues(f, g) && Continues(g, h) && h.sent == f.sent
    ensures g.sent == f.sent
  {}
}
