/** Whole exchanges: coding a body of any length, and any run of calls. */
module Session {
  import opened Bytes
  import opened Cdr
  import opened Fragment
  import opened Reassembly
  import opened Chain
  import opened Segments
  import opened Giop

  /** Every octet sequence of a body is safe to code where it comes. */
  predicate BodySafe(g: Segments.Geometry, f: Flow, cfg: Config, items: seq<Item>)
    requires Legal(cfg)
    decreases |items|
  {
    || items == []
    || (&& (items[0].Octets? && cfg.on && Possible(g) ==> Safe(g, |f.open|, |items[0].s|))
        && BodySafe(g, PutItem(f, cfg, items[0]), cfg, items[1..]))
  }

  /**
   * It is so for every body without octets to be cut, and for all where no buffer ends at the limit or the first takes
   * a message.
   */
  lemma {:induction false} BodySafeAlways(g: Segments.Geometry, f: Flow, cfg: Config, items: seq<Item>)
    requires Legal(cfg)
    requires || !cfg.on || g.limit <= g.first || (g.next > 0 && !EndsAt(g.first, g.next, g.limit))
             || forall i :: 0 <= i < |items| ==> !items[i].Octets?
    ensures BodySafe(g, f, cfg, items)
    decreases |items|
  {
    hide PutItem, Safe;
    if items != [] {
      if items[0].Octets? && cfg.on && Possible(g) {
        SafeAlways(g, |f.open|, |items[0].s|);
      }
      BodySafeAlways(g, PutItem(f, cfg, items[0]), cfg, items[1..]);
    }
  }

  /** The application codes items one after the other until one fails. */
  method CodeAll(e: Engine, items: seq<Item>) returns (st: CdrStatus)
    requires e.Codable() && ValidItems(items) && BodySafe(e.coder.Layout(), e.coder.Flow(), e.coder.Cfg(), items)
    modifies e, e.coder.Repr
    ensures e.Codable() && fresh(e.coder.Repr - old(e.coder.Repr)) && e.coder.SameCoder() && e.Steady()
    ensures st == CDR_OK ==> e.state == old(e.state) && e.coder.Cfg() == old(e.coder.Cfg())
    ensures st == CDR_OK ==> e.coder.Flow() == PutAll(old(e.coder.Flow()), old(e.coder.Cfg()), items)
    ensures st == CDR_OK || e.coder.CutFailed()
    ensures !old(SomeEnters(e.coder.Flow(), e.coder.Cfg(), items)) ==> st == CDR_OK
    ensures !old(e.coder.Cfg().on) ==> st == CDR_OK
  {
    hide PutItem, Engine.Codable, PutAll, ValidItem, SomeEnters, Coder.CutFailed, BodySafe;
    CodableLegal(e);
    NoneEntersOff(e.coder.Flow(), e.coder.Cfg(), items);
    ghost var goal := PutAll(e.coder.Flow(), e.coder.Cfg(), items);
    var done := 0;
    st := CDR_OK;
    assert items[0..] == items;
    while done < |items|
      invariant done <= |items| && st == CDR_OK && e.Codable() && Legal(e.coder.Cfg())
      invariant fresh(e.coder.Repr - old(e.coder.Repr)) && e.coder.SameCoder() && e.Steady()
      invariant e.state == old(e.state) && e.coder.Cfg() == old(e.coder.Cfg())
      invariant PutAll(e.coder.Flow(), e.coder.Cfg(), items[done..]) == goal
      invariant BodySafe(e.coder.Layout(), e.coder.Flow(), e.coder.Cfg(), items[done..])
      invariant !old(SomeEnters(e.coder.Flow(), e.coder.Cfg(), items)) ==>
                  !SomeEnters(e.coder.Flow(), e.coder.Cfg(), items[done..])
    {
      PutNextItem(e.coder.Flow(), e.coder.Cfg(), items, done);
      SafeNextItem(e.coder.Layout(), e.coder.Flow(), e.coder.Cfg(), items, done);
      CodableLegal(e);
      if !SomeEnters(e.coder.Flow(), e.coder.Cfg(), items[done..]) {
        NextEnters(e.coder.Flow(), e.coder.Cfg(), items, done);
      }
      st := CodeNext(e, items[done]);
      if st != CDR_OK {
        return;
      }
      done := done + 1;
    }
    PutNoItems(e.coder.Flow(), e.coder.Cfg(), items[done..]);
  }

  /** One item; the buffers stay laid out as they are. */
  method CodeNext(e: Engine, it: Item) returns (st: CdrStatus)
    requires e.Codable() && ValidItem(it)
    requires it.Octets? && e.coder.Cfg().on && Possible(e.coder.Layout()) ==>
              Safe(e.coder.Layout(), |e.coder.cells|, |it.s|)
    modifies e, e.coder.Repr
    ensures e.Codable() && fresh(e.coder.Repr - old(e.coder.Repr)) && e.coder.SameCoder() && e.Steady()
    ensures st == CDR_OK ==>
              && e.state == old(e.state) && e.coder.Cfg() == old(e.coder.Cfg())
              && e.coder.Layout() == old(e.coder.Layout())
    ensures st == CDR_OK ==> e.coder.Flow() == PutItem(old(e.coder.Flow()), old(e.coder.Cfg()), it)
    ensures st == CDR_OK || e.coder.CutFailed()
    ensures !old(Enters(e.coder.Flow(), e.coder.Cfg(), it)) ==> st == CDR_OK
  {
    hide PutItem, Coder.Shape, Coder.CutFailed, Engine.HeaderOpen, Engine.Trace, Safe, HeaderAt, Enters;
    OpenLengths(e);
    e.OpenHasBuffer();
    st := e.Code(it);
  }

  lemma CodableLegal(e: Engine)
    requires e.Codable()
    ensures Legal(e.coder.Cfg()) && HDR_SZ <= |e.coder.Flow().open|
  {
    hide Coder.Shape, Coder.Enc, Coder.Linked, Engine.HeaderOpen;
    OpenLengths(e);
  }

  lemma SafeNextItem(g: Segments.Geometry, f: Flow, cfg: Config, items: seq<Item>, k: nat)
    requires Legal(cfg) && k < |items| && BodySafe(g, f, cfg, items[k..])
    ensures items[k].Octets? && cfg.on && Possible(g) ==> Safe(g, |f.open|, |items[k].s|)
    ensures BodySafe(g, PutItem(f, cfg, items[k]), cfg, items[k + 1..])
  {
    hide PutItem, Safe;
    assert items[k..][1..] == items[k + 1..];
  }

  lemma PutNextItem(f: Flow, cfg: Config, items: seq<Item>, k: nat)
    requires Legal(cfg) && k < |items|
    ensures PutAll(f, cfg, items[k..]) == PutAll(PutItem(f, cfg, items[k]), cfg, items[k + 1..])
  {
    hide PutItem;
    assert items[k..][1..] == items[k + 1..];
  }

  lemma PutNoItems(f: Flow, cfg: Config, items: seq<Item>)
    requires Legal(cfg) && items == []
    ensures PutAll(f, cfg, items) == f
  {}

  // ---- which bodies are cut ----

  /** An item is cut, or taken to the next message, exactly if coding it has the engine send a fragment. */
  lemma EntersExactly(f: Flow, cfg: Config, it: Item)
    requires Legal(cfg) && HDR_SZ <= |f.open|
    ensures var g := PutItem(f, cfg, it);
            && HDR_SZ <= |g.open|
            && if Enters(f, cfg, it) then |g.sent| > |f.sent| && g.sent[..|f.sent|] == f.sent
               else g == Flow(f.sent, f.open + EncItem(|f.open|, it, cfg.order))
  {
    hide PutBytes, EncItem, Seal, Header;
    PutItemContinues(f, cfg, it);
    if !Enters(f, cfg, it) {
      PutFits(f, cfg, it);
    } else if it.Octets? {
      RoomAtMost(f, cfg);
      var _ := OctetsCut(f, cfg, it.s);
    }
  }

  /** The first message of octets that are cut. */
  lemma OctetsCut(f: Flow, cfg: Config, s: seq<byte>) returns (e: Stream)
    requires Legal(cfg) && HDR_SZ <= |f.open| && Enters(f, cfg, Octets(s))
    ensures var g := PutItem(f, cfg, Octets(s));
            |f.sent| < |g.sent| && g.sent[|f.sent|] == Seal(f.open + e, cfg.order) && g.sent[..|f.sent|] == f.sent
  {
    hide PutBytes, Seal, Header;
    if Breaks(f, cfg, 1) {
      e := [];
      assert f.open + e == f.open;
      var r := Break(f, cfg);
      PutBytesContinues(r, cfg, s);
      KeptPrefix(PutBytes(r, cfg, s).sent, f.sent, Seal(f.open, cfg.order));
    } else {
      PutBytesStep(f, cfg, s);
      var k := cfg.maxlen - |f.open|;
      e := Cells(s[..k]);
      var r := Break(Flow(f.sent, f.open + e), cfg);
      PutBytesContinues(r, cfg, s[k..]);
      KeptPrefix(PutBytes(r, cfg, s[k..]).sent, f.sent, Seal(f.open + e, cfg.order));
    }
  }

  lemma KeptPrefix(all: seq<Stream>, was: seq<Stream>, m: Stream)
    requires |was| < |all| && all[..|was| + 1] == was + [m]
    ensures all[|was|] == m && all[..|was|] == was
  {
    assert all[|was|] == all[..|was| + 1][|was|];
    assert all[..|was|] == all[..|was| + 1][..|was|];
  }

  /** The first message of an item that is cut or moved on. */
  lemma ItemCut(f: Flow, cfg: Config, it: Item) returns (e: Stream)
    requires Legal(cfg) && HDR_SZ <= |f.open| && Enters(f, cfg, it)
    ensures var g := PutItem(f, cfg, it);
            |f.sent| < |g.sent| && g.sent[|f.sent|] == Seal(f.open + e, cfg.order) && g.sent[..|f.sent|] == f.sent
  {
    hide PutBytes, Seal, Header;
    if it.Octets? {
      e := OctetsCut(f, cfg, it.s);
    } else {
      e := [];
      assert f.open + e == f.open;
      KeptPrefix(PutItem(f, cfg, it).sent, f.sent, Seal(f.open, cfg.order));
    }
  }

  /**
   * The message a body was begun in: whole, if no item is cut or moved on; else it is sealed behind some of the body,
   * and the caller can tell which it will be by lengths alone.
   */
  lemma {:induction false} FirstMessage(f: Flow, cfg: Config, items: seq<Item>) returns (e: Stream)
    requires Legal(cfg) && HDR_SZ <= |f.open|
    ensures var g := PutAll(f, cfg, items);
            if SomeEnters(f, cfg, items) then |f.sent| < |g.sent| && g.sent[|f.sent|] == Seal(f.open + e, cfg.order)
            else e == EncAll(|f.open|, items, cfg.order) && g == Flow(f.sent, f.open + e)
    decreases |items|
  {
    hide PutItem, EncItem, Enters, Seal, Continues;
    if items == [] {
      e := [];
      assert f.open + e == f.open;
    } else {
      var g := PutItem(f, cfg, items[0]);
      EntersExactly(f, cfg, items[0]);
      if Enters(f, cfg, items[0]) {
        e := ItemCut(f, cfg, items[0]);
        PutAllContinues(g, cfg, items[1..]);
        SentKept(g, PutAll(g, cfg, items[1..]), |f.sent|);
      } else {
        var a := EncItem(|f.open|, items[0], cfg.order);
        var b := FirstMessage(g, cfg, items[1..]);
        e := a + b;
        assert f.open + a + b == f.open + (a + b);
      }
    }
  }

  lemma SentKept(g: Flow, h: Flow, i: nat)
    requires Continues(g, h) && i < |g.sent|
    ensures i < |h.sent| && h.sent[i] == g.sent[i]
  {
    assert h.sent[..|g.sent|][i] == h.sent[i];
  }

  lemma NextEnters(f: Flow, cfg: Config, items: seq<Item>, k: nat)
    requires Legal(cfg) && k < |items| && HDR_SZ <= |f.open| && !SomeEnters(f, cfg, items[k..])
    ensures !Enters(f, cfg, items[k]) && !SomeEnters(PutItem(f, cfg, items[k]), cfg, items[k + 1..])
  {
    hide PutItem, EncItem, Enters;
    EntersExactly(f, cfg, items[k]);
    assert items[k..][1..] == items[k + 1..] && items[k..][0] == items[k];
  }

  lemma {:induction false} NoneEntersOff(f: Flow, cfg: Config, items: seq<Item>)
    ensures !cfg.on ==> !SomeEnters(f, cfg, items)
    decreases |items|
  {
    if items != [] && !cfg.on {
      NoneEntersOff(Flow(f.sent, f.open + EncItem(|f.open|, items[0], cfg.order)), cfg, items[1..]);
    }
  }

  // ---- a body, however it is cut ----

  /** Overwriting octets of an open message changes nothing in what is coded behind it, if nothing is cut. */
  lemma PatchedFlow(f: Flow, cfg: Config, items: seq<Item>, at: nat, bs: seq<byte>)
    requires Legal(cfg) && HDR_SZ <= |f.open| && at + |bs| <= |f.open| && PutAll(f, cfg, items).sent == f.sent
    ensures |PutAll(f, cfg, items).open| >= |f.open|
    ensures PutAll(Flow(f.sent, Patch(f.open, at, bs)), cfg, items)
            == Flow(f.sent, Patch(PutAll(f, cfg, items).open, at, bs))
  {
    hide PutAll, Patch, EncAll;
    PutAllUncut(f, f, cfg, items);
    PutAllUncut(f, Flow(f.sent, Patch(f.open, at, bs)), cfg, items);
    PatchedSize(f.open, EncAll(|f.open|, items, cfg.order), at, bs);
  }

  /** The type of the open message tells whether anything has been cut off it. */
  lemma TypeTells(f: Flow, cfg: Config, items: seq<Item>)
    requires Legal(cfg) && Opened(f.open) && TypeOf(f.open) != FRAGMENT
    ensures var g := PutAll(f, cfg, items);
            Opened(g.open) && (TypeOf(g.open) != FRAGMENT ==> g.sent == f.sent)
  {
    hide Opened, PutAll, MoreSet, WellFormed;
    FragmentChain(f, cfg, items);
  }

  /** What the receiver reads of the messages handed over since the flow was f: exactly the items. */
  ghost predicate ReadsBack(all: seq<seq<byte>>, f: Flow, items: seq<Item>, native: Order, sender: Order) {
    && |f.sent| < |all| && |f.open| <= |all[|f.sent|]|
    && ReadAll(all, |f.sent|, |f.open|, Shapes(items), native, sender.Bit()) == (true, items)
  }

  lemma Delivered(e: Engine, f: Flow, cfg: Config, items: seq<Item>, more: bool, native: Order)
    requires e.Trace() && Legal(cfg) && HDR_SZ <= |f.open| && ValidItems(items) && cfg.order == e.coder.order
    requires var g := PutAll(f, cfg, items); e.sent == g.sent + [e.Final(g.open, more)]
    ensures ReadsBack(e.handed, f, items, native, e.coder.order)
  {
    hide PutAll, ReadAll, Matches, WellFormed, Allowed, Sized, Flagged;
    Conservation(e.handed, f, cfg, items, more, native);
  }

  lemma FinalKeepsType(e: Engine, c: Stream, more: bool)
    requires Opened(c)
    ensures |c| >= HDR_SZ && TypeOf(e.Final(c, more)) == TypeOf(c)
  {
    hide Patch, Sized, Opened;
    FlaggedKeeps(c);
    SizedIsWellFormed(if more then Flagged(c) else c, e.coder.order);
  }

  lemma FlaggedKeeps(c: Stream)
    requires Opened(c)
    ensures Opened(Flagged(c)) && TypeOf(Flagged(c)) == TypeOf(c)
  {
    hide MoreFrags;
    PatchParts(c, 6, [MoreFrags(FlagsOf(c))]);
    SameHead(Flagged(c), c, 6, 4);
  }

  /** Every message but the last promises more, and every message but the first is a Fragment. */
  ghost predicate FragmentsLinked(sent: seq<Stream>, from: nat) {
    && (forall i :: from <= i < |sent| ==> |sent[i]| >= HDR_SZ)
    && (forall i :: from <= i < |sent| - 1 ==> MoreSet(sent[i]))
    && (forall i :: from < i < |sent| ==> TypeOf(sent[i]) == FRAGMENT)
  }

  lemma ChainDelivered(e: Engine, f: Flow, cfg: Config, items: seq<Item>, more: bool)
    requires Legal(cfg) && Opened(f.open) && cfg.order == e.coder.order
    requires var g := PutAll(f, cfg, items); e.sent == g.sent + [e.Final(g.open, more)]
    ensures FragmentsLinked(e.sent, |f.sent|)
    ensures |f.sent| < |e.sent| && TypeOf(e.sent[|f.sent|]) == TypeOf(f.open)
  {
    hide PutAll, Opened, MoreSet, Sized, Flagged;
    var g := PutAll(f, cfg, items);
    FragmentChain(f, cfg, items);
    FinalKeepsType(e, g.open, more);
    forall i | |f.sent| <= i < |e.sent| ensures |e.sent[i]| >= HDR_SZ {
      if i < |g.sent| {
        assert e.sent[i] == g.sent[i] && WellFormed(g.sent[i], cfg.order);
        WellFormedLong(g.sent[i], cfg.order);
      }
    }
  }

  /** The octets close with those of a string, and are no more than the limit without them. */
  ghost predicate StringOver(it: Item, m: seq<byte>, limit: nat) {
    it.Str? && HDR_SZ <= |m| - |it.s| <= limit && m[|m| - |it.s|..] == it.s
  }

  /**
   * From message `from` on every message is within the limit or was taken over it by a string that closes it,
   * unless it is the first and as long as it was when its body began.
   */
  ghost predicate KeepsLimit(all: seq<seq<byte>>, from: nat, began: nat, items: seq<Item>, limit: nat) {
    forall i :: from <= i < |all| ==>
      || |all[i]| <= limit || (i == from && |all[i]| == began)
      || exists k :: 0 <= k < |items| && StringOver(items[k], all[i], limit)
  }

  lemma SizeDelivered(e: Engine, f: Flow, cfg: Config, items: seq<Item>, more: bool)
    requires e.Trace() && Legal(cfg) && HDR_SZ <= |f.open| && cfg.order == e.coder.order && cfg.on && cfg.maxlen >= 24
    requires var g := PutAll(f, cfg, items); e.sent == g.sent + [e.Final(g.open, more)]
    ensures KeepsLimit(e.handed, |f.sent|, |f.open|, items, cfg.maxlen)
  {
    hide PutAll, Matches, WellFormed, Allowed, Sized, Flagged, Excuses;
    var g := PutAll(f, cfg, items);
    SizeLimitAll(f, cfg, items);
    PutAllContinues(f, cfg, items);
    FinalContinues(g, more, cfg.order);
    forall i | |f.sent| <= i < |e.handed|
      ensures || |e.handed[i]| <= cfg.maxlen || (i == |f.sent| && |e.handed[i]| == |f.open|)
              || exists k :: 0 <= k < |items| && StringOver(items[k], e.handed[i], cfg.maxlen)
    {
      var m := Messages(g)[i];
      assert |m| == |e.sent[i]| == |e.handed[i]| by {
        MatchedLength(e.sent[i], e.handed[i]);
      }
      if Excused(m, items, cfg.maxlen) {
        var k :| 0 <= k < |items| && Excuses(items[k], m, cfg.maxlen);
        StillLast(m, e.sent[i], e.handed[i], items[k], cfg.maxlen);
      }
    }
  }

  lemma MatchedLength(c: Stream, m: seq<byte>)
    requires Matches(c, m)
    ensures |c| == |m|
  {}

  lemma StillLast(c: Stream, d: Stream, m: seq<byte>, it: Item, limit: nat)
    requires Excuses(it, c, limit) && |c| == |d| && d[HDR_SZ..] == c[HDR_SZ..] && Matches(d, m)
    ensures StringOver(it, m, limit)
  {
    var n := |m| - |it.s|;
    SameTail(d, c, HDR_SZ, n, |m|);
    forall j | 0 <= j < |it.s| ensures m[n..][j] == it.s[j] {
      assert d[n..][j] == Cells(it.s)[j];
    }
  }

  lemma WellFormedLong(c: Stream, order: Order)
    requires WellFormed(c, order)
    ensures |c| >= HDR_SZ
  {}

  lemma OpenLengths(e: Engine)
    requires e.HeaderOpen()
    ensures |e.coder.cells| >= HDR_SZ && Opened(e.coder.cells) && TypeOf(e.coder.cells) == e.msgOut.typ
    ensures e.respOff > 0 ==> HDR_SZ <= e.respOff < |e.coder.cells|
    ensures e.msgOut.typ == FRAGMENT ==> e.major >= 1 && e.minor >= 1
  {
    hide Allowed;
  }

  /** GIOPReplyCreate has returned: the body is coded and the reply sent, in as many messages as it takes. */
  method FinishReply(e: Engine, items: seq<Item>, more: bool, ghost native: Order) returns (st: CdrStatus)
    requires e.Valid() && e.isServer && e.state == SRepCr && ValidItems(items)
    requires BodySafe(e.coder.Layout(), e.coder.Flow(), e.coder.Cfg(), items)
    modifies e, e.coder.Repr
    ensures e.Valid() && old(e.handed) <= e.handed
    ensures st == CDR_OK ==> ReadsBack(e.handed, old(e.coder.Flow()), items, native, e.coder.order)
    ensures st == CDR_OK ==> FragmentsLinked(e.sent, |old(e.sent)|)
    ensures st == CDR_OK && old(e.afrag.on) && old(e.coder.maxlen) >= 24 ==>
              KeepsLimit(e.handed, |old(e.sent)|, |old(e.coder.cells)|, items, old(e.coder.maxlen))
    ensures st == CDR_OK || e.coder.CutFailed()
    ensures !old(SomeEnters(e.coder.Flow(), e.coder.Cfg(), items)) ==> st == CDR_OK
    ensures !old(e.afrag.on) ==> st == CDR_OK
  {
    hide ReadsBack, FragmentsLinked, KeepsLimit, PutAll, SomeEnters, BodySafe, Matches, Opened, HeaderAt, Coder.Shape,
          Coder.Enc, ValidItems;
    ghost var f, cfg := e.coder.Flow(), e.coder.Cfg();
    OpenLengths(e);
    st := CodeAll(e, items);
    if st != CDR_OK {
      return;
    }
    ghost var withMore := more && (e.msgOut.typ == FRAGMENT || (e.major == 1 && e.minor == 1));
    var gs := e.ReplySend(more);
    Outcome(e, f, cfg, items, withMore, native);
  }

  /** The message a request ends with: its response flag is settled now, unless it went out with an earlier message. */
  ghost function LastMessage(e: Engine, g: Flow, at: nat, noResponse: bool, more: bool): Stream
    requires HDR_SZ <= |g.open|
    reads e
  {
    if TypeOf(g.open) == FRAGMENT || |g.open| <= at then e.Final(g.open, more)
    else e.Final(Patch(g.open, at, [ResponseFlag(noResponse)]), more && e.major == 1 && e.minor == 1)
  }

  /** GIOPRequestCreate has returned: the same for a request, whose response flag is settled only now. */
  method FinishRequest(e: Engine, items: seq<Item>, noResponse: bool, more: bool, ghost native: Order)
        returns (st: CdrStatus)
    requires e.Valid() && !e.isServer && e.state == SReqCr && ValidItems(items)
    requires BodySafe(e.coder.Layout(), e.coder.Flow(), e.coder.Cfg(), items)
    modifies e, e.coder.Repr
    ensures e.Valid() && old(e.handed) <= e.handed
    ensures st == CDR_OK ==> ReadsBack(e.handed, old(e.coder.Flow()), items, native, e.coder.order)
    ensures st == CDR_OK ==> FragmentsLinked(e.sent, |old(e.sent)|)
    ensures st == CDR_OK && old(e.afrag.on) && old(e.coder.maxlen) >= 24 ==>
              KeepsLimit(e.handed, |old(e.sent)|, |old(e.coder.cells)|, items, old(e.coder.maxlen))
    ensures st == CDR_OK ==>
              var g := PutAll(old(e.coder.Flow()), old(e.coder.Cfg()), items);
              HDR_SZ <= |g.open| && e.sent == g.sent + [LastMessage(e, g, old(e.respOff), noResponse, more)]
    ensures st == CDR_OK ==>
              |old(e.sent)| < |e.sent| && |e.sent[|old(e.sent)|]| >= HDR_SZ
              && TypeOf(e.sent[|old(e.sent)|]) == TypeOf(old(e.coder.cells))
    ensures st == CDR_OK && |e.sent| > |old(e.sent)| + 1 ==> e.major >= 1 && e.minor >= 1
    ensures e.reqId == old(e.reqId) && e.objkey == old(e.objkey) && e.major == old(e.major) && e.minor == old(e.minor)
    ensures st == CDR_OK || e.coder.CutFailed()
    ensures !old(SomeEnters(e.coder.Flow(), e.coder.Cfg(), items)) ==> st == CDR_OK
    ensures !old(e.afrag.on) ==> st == CDR_OK
  {
    hide ReadsBack, FragmentsLinked, KeepsLimit, PutAll, SomeEnters, BodySafe, Patch, Matches, Opened, HeaderAt;
    hide Coder.Shape, Coder.Enc, Coder.CutFailed, ValidItems;
    ghost var f, cfg := e.coder.Flow(), e.coder.Cfg();
    OpenLengths(e);
    st := CodeAll(e, items);
    if st != CDR_OK {
      return;
    }
    OpenLengths(e);
    ghost var cut, at := e.msgOut.typ == FRAGMENT, e.respOff;
    var gs := e.RequestSend(noResponse, more);
    if cut {
      Outcome(e, f, cfg, items, more, native);
    } else {
      UncutOutcome(e, f, cfg, items, at, noResponse, more && e.major == 1 && e.minor == 1, native);
    }
  }

  /** What the receiver gets, once the last message of an exchange has been completed. */
  lemma Outcome(e: Engine, f: Flow, cfg: Config, items: seq<Item>, more: bool, native: Order)
    requires e.Trace() && Legal(cfg) && Opened(f.open) && ValidItems(items) && cfg.order == e.coder.order
    requires var g := PutAll(f, cfg, items); e.sent == g.sent + [e.Final(g.open, more)]
    ensures ReadsBack(e.handed, f, items, native, e.coder.order) && FragmentsLinked(e.sent, |f.sent|)
    ensures |f.sent| < |e.sent| && |e.sent[|f.sent|]| >= HDR_SZ && TypeOf(e.sent[|f.sent|]) == TypeOf(f.open)
    ensures cfg.on && cfg.maxlen >= 24 ==> KeepsLimit(e.handed, |f.sent|, |f.open|, items, cfg.maxlen)
  {
    hide ReadsBack, KeepsLimit, PutAll, Matches, Engine.Trace;
    Delivered(e, f, cfg, items, more, native);
    ChainDelivered(e, f, cfg, items, more);
    if cfg.on && cfg.maxlen >= 24 {
      SizeDelivered(e, f, cfg, items, more);
    }
  }

  /** The same with the response flag patched into a message that has not been cut. */
  lemma UncutOutcome(e: Engine, f: Flow, cfg: Config, items: seq<Item>, at: nat, noResponse: bool, more: bool,
        native: Order)
    requires e.Trace() && Legal(cfg) && Opened(f.open) && ValidItems(items) && cfg.order == e.coder.order
    requires TypeOf(f.open) != FRAGMENT && HDR_SZ <= at < |f.open|
    requires var g := PutAll(f, cfg, items);
             && HDR_SZ <= |g.open| && TypeOf(g.open) != FRAGMENT && at < |g.open|
             && e.sent == g.sent + [e.Final(Patch(g.open, at, [ResponseFlag(noResponse)]), more)]
    ensures ReadsBack(e.handed, f, items, native, e.coder.order) && FragmentsLinked(e.sent, |f.sent|)
    ensures |f.sent| < |e.sent| && |e.sent[|f.sent|]| >= HDR_SZ && TypeOf(e.sent[|f.sent|]) == TypeOf(f.open)
    ensures cfg.on && cfg.maxlen >= 24 ==> KeepsLimit(e.handed, |f.sent|, |f.open|, items, cfg.maxlen)
    ensures |e.sent| == |f.sent| + 1
  {
    hide ReadsBack, FragmentsLinked, KeepsLimit, PutAll, Patch, Matches, Opened, ValidItems, Engine.Trace, ResponseFlag;
    var flag := [ResponseFlag(noResponse)];
    TypeTells(f, cfg, items);
    PatchedFlow(f, cfg, items, at, flag);
    var f' := Flow(f.sent, Patch(f.open, at, flag));
    PatchOpened(f.open, at, flag);
    Outcome(e, f', cfg, items, more, native);
    SameLengths(e.handed, f', f, items, native, e.coder.order);
  }

  lemma PatchOpened(c: Stream, at: nat, bs: seq<byte>)
    requires Opened(c) && at >= HDR_SZ && at + |bs| <= |c|
    ensures Opened(Patch(c, at, bs)) && TypeOf(Patch(c, at, bs)) == TypeOf(c)
  {
    PatchParts(c, at, bs);
    SameHead(Patch(c, at, bs), c, at, 4);
  }

  lemma SameLengths(all: seq<seq<byte>>, f: Flow, g: Flow, items: seq<Item>, native: Order, sender: Order)
    requires ReadsBack(all, f, items, native, sender) && f.sent == g.sent && |f.open| == |g.open|
    ensures ReadsBack(all, g, items, native, sender)
  {
    hide ReadAll;
  }

  // ---- decoding ----

  /** Any sequence of decoding calls, whatever they return: the specification's replies, and its cursor. */
  method DecodeCalls(c: Coder, shapes: seq<Cdr.Shape>) returns (replies: seq<Reply>)
    requires c.Dec(0) && c.bufs != []
    modifies c.bufs
    ensures c.Dec(0) && c.Input() == old(c.Input())
    ensures (replies, c.Cursor()) == old(DecodeRun(c.Input(), c.Cursor(), shapes, c.order, c.sex))
  {
    hide Decode, DecodeRun, Owned, Coder.Ledger, Coder.Geometry;
    ghost var input, goal := c.Input(), DecodeRun(c.Input(), c.Cursor(), shapes, c.order, c.sex);
    replies := [];
    var k := 0;
    assert shapes[0..] == shapes && [] + goal.0 == goal.0;
    while k < |shapes|
      invariant k <= |shapes| && DecodingAt(c, input)
      invariant goal == Behind(replies, DecodeRun(input, c.Cursor(), shapes[k..], c.order, c.sex))
    {
      RunStep(replies, input, c.Cursor(), shapes, k, c.order, c.sex);
      var reply := DecodeCall(c, shapes[k]);
      replies := replies + [reply];
      k := k + 1;
    }
    RunEnd(replies, input, c.Cursor(), shapes[k..], c.order, c.sex);
  }

  ghost predicate DecodingAt(c: Coder, input: seq<byte>)
    reads c, c.Repr
  {
    c.Dec(0) && c.bufs != [] && c.Input() == input && Contained(input, c.Cursor())
  }

  method DecodeCall(c: Coder, sh: Cdr.Shape) returns (reply: Reply)
    requires c.Dec(0) && c.bufs != []
    modifies c.bufs
    ensures c.Dec(0) && c.Input() == old(c.Input())
    ensures (reply, c.Cursor()) == old(Decode(c.Input(), c.Cursor(), sh, c.order, c.sex))
  {
    hide Decode, Coder.Shape;
    match sh
    case SScalar(n) =>
      var st, v := c.DecodeScalar(n);
      reply := if st == CDR_OK then Got(Scalar(n, v)) else Failed;
    case SStr =>
      var st, s := c.DecodeStr();
      reply := if st == CDR_OK then Got(Str(s)) else if st == CDR_ESTR_FRAG then Cut(s) else Failed;
    case SOctets(n) =>
      var st, s := c.DecodeOctets(n);
      reply := if st == CDR_OK then Got(Octets(s)) else if st == CDR_ESTR_FRAG then Cut(s) else Failed;
  }

  function Behind(replies: seq<Reply>, r: (seq<Reply>, Cdr.Cursor)): (seq<Reply>, Cdr.Cursor) {
    (replies + r.0, r.1)
  }

  lemma RunStep(replies: seq<Reply>, input: seq<byte>, d: Cdr.Cursor, shapes: seq<Cdr.Shape>, k: nat, native: Order,
        sex: nat)
    requires Contained(input, d) && k < |shapes|
    ensures var (reply, e) := Decode(input, d, shapes[k], native, sex);
            Behind(replies, DecodeRun(input, d, shapes[k..], native, sex))
            == Behind(replies + [reply], DecodeRun(input, e, shapes[k + 1..], native, sex))
  {
    hide Decode;
    assert shapes[k..][1..] == shapes[k + 1..];
    var (reply, e) := Decode(input, d, shapes[k], native, sex);
    var rest := DecodeRun(input, e, shapes[k + 1..], native, sex).0;
    assert replies + ([reply] + rest) == replies + [reply] + rest;
  }

  lemma RunEnd(replies: seq<Reply>, input: seq<byte>, d: Cdr.Cursor, none: seq<Cdr.Shape>, native: Order, sex: nat)
    requires Contained(input, d) && none == []
    ensures Behind(replies, DecodeRun(input, d, none, native, sex)) == (replies, d)
  {
    assert replies + [] == replies;
  }

  /** What a coder wrote through however many buffers is read back from one, on a machine of either order. */
  lemma CoderRoundTrip(c: Coder, items: seq<Item>, native: Order)
    requires c.Enc(0) && ValidItems(items) && c.cells == EncAll(0, items, c.order)
    ensures (c.bufs != [] ==> c.InBounds())
    ensures DecodeAll(c.Active(), 0, Shapes(items), native, c.order.Bit()) == (true, items)
            <==> (items == [] || items[|items| - 1] != Octets([]))
  {
    hide Matches, EncAll, DecodeAll, Owned, Coder.Ledger, Coder.Geometry, Concat, PastOf;
    c.ActiveMatches();
    assert c.cells[0..] == c.cells;
    RoundTrip(c.cells, c.Active(), 0, items, c.order, native);
  }

  /** A body decoded from the coder's reused buffer is decoded as from the whole message behind its header. */
  method NextBody(e: Engine, up: bool, shapes: seq<Cdr.Shape>) returns (st: GiopStatus, replies: seq<Reply>)
    requires e.Valid()
    modifies e, e.coder.Repr
    ensures st == GIOP_OK && e.msgIn.size > 0 ==>
              && HDR_SZ + e.msgIn.size <= |old(e.inbound)|
              && replies == DecodeRun(old(e.inbound)[..HDR_SZ + e.msgIn.size], At(HDR_SZ), shapes, e.coder.order,
                    e.coder.sex).0
  {
    hide Matches, HeaderAt, Owned, Coder.Ledger, Coder.Geometry, Coder.Enc, Engine.Trace, DecodeRun, Engine.Parsed;
    ghost var w := e.inbound;
    var typ;
    st, typ := e.GetNextMsg(up);
    replies := [];
    if st == GIOP_OK && e.msgIn.size > 0 {
      ghost var msg := w[..HDR_SZ + e.msgIn.size];
      assert msg[HDR_SZ..] == w[HDR_SZ..HDR_SZ + e.msgIn.size];
      Realigned(msg, e.coder.Input(), At(4), shapes, e.coder.order, e.coder.sex);
      e.coder.InRepr();
      replies := DecodeCalls(e.coder, shapes);
    }
  }

  // ---- any run of calls ----

  datatype Call =
    | Connect(key: seq<byte>, up: bool, maj: byte, min: byte)
    | Listen(up: bool) | Accept(up: bool) | StopListen(down: bool) | CloseConnection(closes: bool)
    | AutoFrag(clr: bool, flags: FragFlags, nbyte: nat)
    | RequestCreate(op: seq<byte>, prin: seq<byte>, ctxs: seq<ServiceContext>, noResponse: bool)
    | RequestSend(noResponse: bool, more: bool)
    | ReplyCreate(maj: byte, min: byte, code: nat, id: nat, ctxs: seq<ServiceContext>)
    | ReplySend(more: bool)
    | LocateReplyCreate(maj: byte, min: byte, code: nat, id: nat)
    | LocateReplySend
    | LocateRequestSend(key: seq<byte>)
    | CancelRequestSend(id: nat)
    | MessageErrorSend
    | FragCreate
    | FragSend(more: bool)
    | GetNextMsg(up: bool)
    | Code(it: Item)
    | DecodeNext(shape: Cdr.Shape)

  /** The arguments fit their C types. */
  predicate ValidCall(c: Call) {
    match c
    case Connect(key, _, _, _) => |key| < WORD
    case RequestCreate(op, prin, ctxs, _) => |op| < WORD && |prin| < WORD && ValidContexts(ctxs)
    case ReplyCreate(_, _, code, id, ctxs) => code < WORD && id < WORD && ValidContexts(ctxs)
    case LocateReplyCreate(_, _, code, id) => code < WORD && id < WORD
    case LocateRequestSend(key) => |key| < WORD
    case CancelRequestSend(id) => id < WORD
    case Code(it) => ValidItem(it)
    case _ => true
  }

  /**
   * What is asked of the caller: code only while a message is open, octets only if that is safe, decode only what has
   * been received, and fragment only once there has been a size for it.
   */
  predicate Proper(e: Engine, c: Call)
    reads e, e.coder, e.coder.bufs
  {
    match c
    case Code(it) =>
      && e.state in {SReqCr, SRepCr, SLRepCr, SFragCr}
      && (it.Octets? && e.afrag.on && Possible(e.coder.Layout()) ==> Safe(e.coder.Layout(), e.coder.buflen, |it.s|))
    case AutoFrag(clr, flags, nbyte) =>
      (if flags.on then !clr else e.afrag.on) ==> (if nbyte > 0 then nbyte else e.coder.maxlen) >= MIN_FRAGSZ
    case LocateRequestSend(key) => e.KeySafe(key)
    case DecodeNext(_) => e.coder.CanDecode()
    case _ => true
  }

  method Configure(e: Engine, clr: bool, flags: FragFlags, nbyte: nat)
    requires e.Valid() && Proper(e, AutoFrag(clr, flags, nbyte))
    modifies e, e.coder.Repr
    ensures e.Valid() && e.coder.Repr == old(e.coder.Repr) && e.handed == old(e.handed)
  {
    hide Matches, HeaderAt, Owned, Coder.Ledger, Coder.Geometry, Coder.Enc, Engine.Trace;
    var st := e.SetAutoFrag(clr, flags, nbyte);
  }

  /** A decoding call of the application, in what has been received. */
  method DecodeBetween(e: Engine, shape: Cdr.Shape)
    requires e.Valid() && e.coder.CanDecode()
    modifies e, e.coder.Repr
    ensures e.Valid() && e.coder.CanDecode() && e.coder.Repr == old(e.coder.Repr) && e.handed == old(e.handed)
  {
    hide Matches, HeaderAt, Owned, Coder.Ledger, Coder.Geometry, Coder.Enc, Coder.Evenly, Engine.Trace, Cdr.Decode;
    e.coder.DecodesIfItCan();
    e.coder.InRepr();
    var reply := DecodeCall(e.coder, shape);
    e.coder.DecodesIfItCan();
  }

  /** One call, whatever its arguments and whatever the transport makes of it. */
  method Step(e: Engine, c: Call)
    requires e.Valid() && ValidCall(c) && Proper(e, c)
    modifies e, e.coder.Repr
    ensures e.Valid() && fresh(e.coder.Repr - old(e.coder.Repr)) && old(e.handed) <= e.handed
  {
    hide Matches, HeaderAt, Coder.Shape, Coder.Enc, Coder.Dec, Engine.Trace, ValidItem, ValidContexts, PutAll, PutItem;
    hide Engine.Created, Engine.Final, Fragment.Header, Patch, Safe;
    match c
    case Connect(key, up, maj, min) => var st := e.Connect(key, up, maj, min);
    case Listen(up) => var st := e.Listen(up);
    case Accept(up) => var st := e.Accept(up);
    case StopListen(down) => var st := e.StopListen(down);
    case CloseConnection(closes) => var st := e.CloseConnectionSend(closes);
    case AutoFrag(clr, flags, nbyte) => Configure(e, clr, flags, nbyte);
    case RequestCreate(op, prin, ctxs, noResponse) => var st := e.RequestCreate(op, prin, ctxs, noResponse);
    case RequestSend(noResponse, more) => var st := e.RequestSend(noResponse, more);
    case ReplyCreate(maj, min, code, id, ctxs) => var st := e.ReplyCreate(maj, min, code, id, ctxs);
    case ReplySend(more) => var st := e.ReplySend(more);
    case LocateReplyCreate(maj, min, code, id) => var st, coded := e.LocateReplyCreate(maj, min, code, id);
    case LocateReplySend => var st := e.LocateReplySend();
    case LocateRequestSend(key) => var st, coded := e.LocateRequestSend(key);
    case CancelRequestSend(id) => var st := e.CancelRequestSend(id);
    case MessageErrorSend => var st := e.MessageErrorSend();
    case FragCreate => var st := e.FragCreate();
    case FragSend(more) => var st := e.FragSend(more);
    case GetNextMsg(up) => var st, typ := e.GetNextMsg(up);
    case Code(it) => var st := e.Code(it);
    case DecodeNext(shape) => DecodeBetween(e, shape);
  }

  /**
   * What a message handed over is, octet by octet: "GIOP", flags that name the order its size is in, more fragments to
   * come or not, a type its sender may send, a Fragment of no revision before 1.1, no body behind a closing or an error
   * message, and its own length, modulo 2 to the 32.
   */
  ghost predicate Spelt(m: seq<byte>, isServer: bool, order: Order) {
    && |m| >= 12 && m[0] == 'G' as int && m[1] == 'I' as int && m[2] == 'O' as int && m[3] == 'P' as int
    && m[6] < 4 && (m[6] % 2 == 1 <==> order == Little)
    && (if isServer then m[7] in {1, 4, 5, 6, 7} else m[7] in {0, 2, 3, 6, 7})
    && (m[7] == 7 ==> m[4] >= 1 && m[5] >= 1) && (m[7] == 5 || m[7] == 6 ==> |m| == 12)
    && var a: nat, b: nat, c: nat, d: nat := m[8], m[9], m[10], m[11];
       (|m| - 12) % 0x1_0000_0000
       == if m[6] % 2 == 1 then a + 0x100 * b + 0x1_0000 * c + 0x100_0000 * d
          else d + 0x100 * c + 0x1_0000 * b + 0x100_0000 * a
  }

  lemma MessageSpelt(e: Engine, k: nat)
    requires e.Trace() && k < |e.handed|
    ensures Spelt(e.handed[k], e.isServer, e.coder.order) && WellFormedOctets(e.handed[k], e.coder.order)
    ensures |e.handed[k]| >= 12 && Allowed(e.isServer, e.handed[k][7])
  {
    hide Matches, WellFormed;
    WellFormedCarried(e.sent[k], e.handed[k], e.coder.order);
    BitTellsOrder(e.coder.order);
  }

  /**
   * Safety over every run: after any proper calls in any order, every message ever handed to the transport has a
   * valid header, says its own length in the byte order its flags name, and is of a type its sender may send.
   */
  method Run(e: Engine, calls: seq<Call>)
    requires e.Valid() && forall i :: 0 <= i < |calls| ==> ValidCall(calls[i])
    modifies e, e.coder.Repr
    ensures e.Valid() && old(e.handed) <= e.handed
    ensures forall i :: 0 <= i < |e.handed| ==>
              WellFormedOctets(e.handed[i], e.coder.order) && Allowed(e.isServer, e.handed[i][7])
    ensures forall i :: 0 <= i < |e.handed| ==>
              var m := e.handed[i];
              && |m| >= 12 && m[0] == 'G' as int && m[1] == 'I' as int && m[2] == 'O' as int && m[3] == 'P' as int
              && m[6] < 4 && (m[6] % 2 == 1 <==> e.coder.order == Little)
              && (if e.isServer then m[7] in {1, 4, 5, 6, 7} else m[7] in {0, 2, 3, 6, 7})
              && (m[7] == 7 ==> m[4] >= 1 && m[5] >= 1) && (m[7] == 5 || m[7] == 6 ==> |m| == 12)
              && var a: nat, b: nat, c: nat, d: nat := m[8], m[9], m[10], m[11];
                 (|m| - 12) % 0x1_0000_0000
                 == if m[6] % 2 == 1 then a + 0x100 * b + 0x1_0000 * c + 0x100_0000 * d
                    else d + 0x100 * c + 0x1_0000 * b + 0x100_0000 * a
  {
    hide Engine.Valid, ValidCall, Allowed, WellFormedOctets;
    for k := 0 to |calls|
      invariant e.Valid() && fresh(e.coder.Repr - old(e.coder.Repr)) && old(e.handed) <= e.handed
    {
      if Proper(e, calls[k]) {
        Step(e, calls[k]);
      }
    }
    HandedWell(e);
  }

  lemma HandedWell(e: Engine)
    requires e.Valid()
    ensures forall i :: 0 <= i < |e.handed| ==>
              && WellFormedOctets(e.handed[i], e.coder.order) && Allowed(e.isServer, e.handed[i][7])
              && Spelt(e.handed[i], e.isServer, e.coder.order)
  {
    hide Matches, HeaderAt, Coder.Shape, Coder.Enc, WellFormedOctets, Allowed, Engine.Trace, Spelt;
    forall i | 0 <= i < |e.handed|
      ensures WellFormedOctets(e.handed[i], e.coder.order) && |e.handed[i]| >= 12
      ensures Allowed(e.isServer, e.handed[i][7]) && Spelt(e.handed[i], e.isServer, e.coder.order)
    {
      MessageSpelt(e, i);
    }
  }

  // ---- any run of buffer calls ----

  datatype BufferCall =
    | Mode(mode: Giop.Mode) | Add | AddOwn(len: nat) | Need(minLen: nat)
    | Reset(inUse: bool) | Rewind(resetLength: bool) | Free

  /** A buffer of the caller's own is a multiple of eight octets, unless the coder is encoding and will trim it. */
  predicate ProperBuffer(c: Coder, call: BufferCall)
    reads c
  {
    call.AddOwn? ==> c.mode == Encoding || Whole(call.len)
  }

  /** Every buffer ever granted is either in the list, once, or has been returned; the list has no others. */
  ghost predicate Accounted(c: Coder)
    requires c.alloc != null
    reads c, c.alloc
  {
    && (forall b :: b in c.alloc.granted ==> (b in c.bufs <==> b !in c.alloc.returned))
    && (forall b :: b in c.bufs ==> b in c.alloc.granted)
    && (forall i, j :: 0 <= i < j < |c.bufs| ==> c.bufs[i] != c.bufs[j])
  }

  lemma LedgerAccounts(c: Coder)
    requires c.Shape() && c.alloc != null && c.canFree
    ensures Accounted(c)
  {
    forall b | b in c.alloc.granted ensures b in c.bufs <==> b !in c.alloc.returned {
      assert b in c.alloc.granted - c.alloc.returned <==> b in Listed(c.bufs) + c.lost;
    }
    forall b | b in c.bufs ensures b in c.alloc.granted {
      assert b in Listed(c.bufs) + c.lost;
    }
  }

  method BufferStep(c: Coder, call: BufferCall) returns (st: CdrStatus)
    requires c.Shape() && c.alloc != null && c.canFree && ProperBuffer(c, call)
    modifies c, c.Repr
    ensures c.Shape() && fresh(c.Repr - old(c.Repr))
    ensures old(c.alloc.granted) <= c.alloc.granted && old(c.alloc.returned) <= c.alloc.returned
    ensures call.Need? && st == CDR_OK ==>
              c.bufs != [] && c.cur == 0 && c.bufs[0].used == 0 && c.bufs[0].len >= call.minLen
    ensures call.Free? ==> c.bufs == [] && c.alloc.granted <= c.alloc.returned
  {
    hide Matches, Owned, Coder.Ledger, Coder.Geometry, Coder.Enc, Coder.Full, Listed, Inserted, Coder.Added;
    c.InRepr();
    st := CDR_OK;
    match call
    case Mode(m) => c.mode := m;
    case Add => st := c.AddBuffer(null);
    case AddOwn(len) =>
      var b := new Buffer(len);
      st := c.AddBuffer(b);
    case Need(minLen) => ghost var n; st, n := c.NeedBuffer(minLen);
    case Reset(inUse) => st := c.Reset(inUse);
    case Rewind(resetLength) => c.Rewind(resetLength);
    case Free => c.Free();
  }

  /**
   * Over every run of buffer calls, whatever the caller's callback grants or refuses, no buffer is leaked, listed
   * twice or returned while listed, and what was returned stays returned; a run that ends with CDRFree has
   * returned all.
   */
  method BufferRun(c: Coder, calls: seq<BufferCall>)
    requires c.Shape() && c.alloc != null && c.canFree
    modifies c, c.Repr
    ensures c.Shape() && Accounted(c)
    ensures old(c.alloc.granted) <= c.alloc.granted && old(c.alloc.returned) <= c.alloc.returned
    ensures calls != [] && calls[|calls| - 1].Free? ==> c.bufs == [] && c.alloc.granted <= c.alloc.returned
  {
    hide Coder.Shape, Listed;
    for k := 0 to |calls|
      invariant c.Shape() && fresh(c.Repr - old(c.Repr))
      invariant old(c.alloc.granted) <= c.alloc.granted && old(c.alloc.returned) <= c.alloc.returned
      invariant k > 0 && calls[k - 1].Free? ==> c.bufs == [] && c.alloc.granted <= c.alloc.returned
    {
      if ProperBuffer(c, calls[k]) {
        var st := BufferStep(c, calls[k]);
      }
    }
    LedgerAccounts(c);
  }
}
