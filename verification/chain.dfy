/** The protocol a chain of fragments follows on the wire. */
module Chain {
  import opened Bytes
  import opened Cdr
  import opened Fragment
  import opened Reassembly

  /** Starts with the octets of a message header. */
  ghost predicate Opened(c: Stream) {
    && |c| >= HDR_SZ && c[..4] == Cells(MAGIC)
    && c[4].Data? && c[5].Data? && c[6].Data? && c[7].Data?
  }

  function TypeOf(c: Stream): byte
    requires |c| >= HDR_SZ
  {
    if c[7].Data? then c[7].b else UNKNOWN
  }

  predicate MoreSet(c: Stream)
    requires |c| >= HDR_SZ
  {
    (FlagsOf(c) / 2) % 2 == 1
  }

  /** A message as it may go on the wire: a header whose size field counts what follows it. */
  ghost predicate WellFormed(c: Stream, order: Order) {
    Opened(c) && c[8..HDR_SZ] == Cells(NativeBytes(|c| - HDR_SZ, 4, order))
  }

  /** The same said of octets: "GIOP", and the length, modulo 2 to the 32, as the sender's order spells it. */
  ghost predicate WellFormedOctets(m: seq<byte>, order: Order) {
    && |m| >= 12 && m[0] == 'G' as int && m[1] == 'I' as int && m[2] == 'O' as int && m[3] == 'P' as int
    && var a: nat, b: nat, c: nat, d: nat := m[8], m[9], m[10], m[11];
       (|m| - 12) % 0x1_0000_0000
       == if order == Little then a + 0x100 * b + 0x1_0000 * c + 0x100_0000 * d
          else d + 0x100 * c + 0x1_0000 * b + 0x100_0000 * a
  }

  lemma WellFormedCarried(c: Stream, m: seq<byte>, order: Order)
    requires WellFormed(c, order) && Matches(c, m)
    ensures WellFormedOctets(m, order) && m[7] == TypeOf(c) && m[6] == FlagsOf(c) && m[4] == c[4].b && m[5] == c[5].b
    ensures m[..4] == MAGIC && |m| == |c|
    ensures |m| - HDR_SZ < WORD ==> NativeValue(m[8..HDR_SZ], order) == |m| - HDR_SZ
  {
    hide NativeBytes, NativeValue, Limit;
    MatchesSlice(c, m, 0, MAGIC);
    assert m[..4] == m[0..0 + |MAGIC|];
    var size := NativeBytes(|c| - HDR_SZ, 4, order);
    MatchesSlice(c, m, 8, size);
    StoredWord(|c| - HDR_SZ, order);
    assert m[8..HDR_SZ] == [m[8], m[9], m[10], m[11]];
    LimitOfWord();
    if |m| - HDR_SZ < WORD {
      NativeRoundTrip(|m| - HDR_SZ, 4, order);
    }
  }

  lemma HeaderOpens(major: byte, minor: byte, flags: byte, typ: byte, size: nat, order: Order, body: Stream)
    ensures var c := Header(major, minor, flags, typ, size, order) + body;
            Opened(c) && TypeOf(c) == typ && FlagsOf(c) == flags
    ensures WellFormed(Header(major, minor, flags, typ, |body|, order) + body, order)
  {
    hide NativeBytes;
    var h := Header(major, minor, flags, typ, size, order);
    assert (h + body)[..4] == Cells(MAGIC);
    var g := Header(major, minor, flags, typ, |body|, order);
    assert (g + body)[..4] == Cells(MAGIC);
    assert (g + body)[8..HDR_SZ] == Cells(NativeBytes(|body|, 4, order));
  }

  /** Sizing completes an opened message; type and flags stay. */
  lemma SizedIsWellFormed(c: Stream, order: Order)
    requires Opened(c)
    ensures WellFormed(Sized(c, order), order)
    ensures TypeOf(Sized(c, order)) == TypeOf(c) && FlagsOf(Sized(c, order)) == FlagsOf(c)
    ensures KeepsBody(c, Sized(c, order))
  {
    hide NativeBytes;
    var s := Sized(c, order);
    PatchParts(c, 8, NativeBytes(|c| - HDR_SZ, 4, order));
    SameHead(s, c, 8, 4);
  }

  lemma MoreFragsBit(flags: byte)
    ensures (MoreFrags(flags) / 2) % 2 == 1
    ensures MoreFrags(flags) % 2 == flags % 2
  {}

  lemma FlaggedStaysWellFormed(c: Stream, order: Order)
    requires WellFormed(c, order)
    ensures WellFormed(Flagged(c), order) && MoreSet(Flagged(c)) && TypeOf(Flagged(c)) == TypeOf(c)
    ensures KeepsBody(c, Flagged(c))
  {
    hide NativeBytes, MoreFrags;
    var s := Flagged(c);
    MoreFragsBit(FlagsOf(c));
    PatchParts(c, 6, [MoreFrags(FlagsOf(c))]);
    SameHead(s, c, 6, 4);
    SameTail(s, c, 7, 8, HDR_SZ);
    SameTail(s, c, 7, HDR_SZ, |c|);
  }

  lemma SealedIsWellFormed(c: Stream, order: Order)
    requires Opened(c)
    ensures WellFormed(Seal(c, order), order) && MoreSet(Seal(c, order)) && TypeOf(Seal(c, order)) == TypeOf(c)
  {
    hide Sized, Flagged, WellFormed;
    SizedIsWellFormed(c, order);
    FlaggedStaysWellFormed(Sized(c, order), order);
  }

  /**
   * A message completed, octet by octet: its flags promise more if asked to and are as they were if not, its size is
   * what follows the header, and all the rest is as coded.
   */
  lemma CompletedSpelt(c: Stream, m: seq<byte>, more: bool, order: Order, i: nat)
    requires Opened(c) && Matches(Sized(if more then Flagged(c) else c, order), m) && i < |c|
    ensures |m| == |c| && m[6] % 2 == c[6].b % 2 && m[6] / 4 == c[6].b / 4
    ensures if more then (m[6] / 2) % 2 == 1 else m[6] == c[6].b
    ensures i != 6 && !(8 <= i < 12) && c[i].Data? ==> m[i] == c[i].b
    ensures var x: nat, y: nat, z: nat, w: nat := m[8], m[9], m[10], m[11];
            (|m| - 12) % 0x1_0000_0000
            == if order == Little then x + 0x100 * y + 0x1_0000 * z + 0x100_0000 * w
               else w + 0x100 * z + 0x1_0000 * y + 0x100_0000 * x
  {
    hide NativeBytes, MoreFrags;
    var f := if more then Flagged(c) else c;
    var s := Sized(f, order);
    MoreFragsSpelt(c[6].b);
    StoredWord(|c| - 12, order);
    assert f[6] == Data(if more then MoreFrags(c[6].b) else c[6].b) && (i != 6 ==> f[i] == c[i]);
    assert s[6] == f[6] && (!(8 <= i < 12) ==> s[i] == f[i]);
    var n := NativeBytes(|c| - 12, 4, order);
    assert s[8] == Data(n[0]) && s[9] == Data(n[1]) && s[10] == Data(n[2]) && s[11] == Data(n[3]);
  }

  /**
   * What else a message's header says: its flags are the sender's byte order and, maybe, that there is more, and a
   * Fragment is of a revision that has them.
   */
  ghost predicate Signed(c: Stream, order: Order) {
    && |c| >= HDR_SZ && FlagsOf(c) < 4 && FlagsOf(c) % 2 == order.Bit()
    && (TypeOf(c) == FRAGMENT ==> c[4].Data? && c[5].Data? && c[4].b >= 1 && c[5].b >= 1)
  }

  /** Of the octets of a header, the size and the bit for more fragments do not matter to that. */
  lemma SignedPatched(c: Stream, at: nat, bs: seq<byte>, order: Order)
    requires Signed(c, order) && at + |bs| <= |c|
    requires at >= 8 || (at == 6 && |bs| == 1 && bs[0] < 4 && bs[0] % 2 == order.Bit())
    ensures Signed(Patch(c, at, bs), order)
  {
    PatchParts(c, at, bs);
    SameHead(Patch(c, at, bs), c, at, 6);
    forall i | 0 <= i < 8 && i != 6 ensures Patch(c, at, bs)[i] == c[i] {}
  }

  lemma HeaderSigned(major: byte, minor: byte, typ: byte, size: nat, order: Order)
    requires typ == FRAGMENT ==> major >= 1 && minor >= 1
    ensures Signed(Header(major, minor, order.Bit(), typ, size, order), order)
  {
    hide NativeBytes;
  }

  // ---- the chain ----

  /**
   * g came from f by coding on, and every message sent on the way is whole, promises more,
   * and is followed by a Fragment.
   */
  ghost predicate Chained(f: Flow, g: Flow, order: Order) {
    && |f.sent| <= |g.sent| && g.sent[..|f.sent|] == f.sent
    && Opened(f.open) && Opened(g.open)
    && (forall i :: |f.sent| <= i < |g.sent| ==> WellFormed(g.sent[i], order) && MoreSet(g.sent[i]))
    && (forall i :: |f.sent| < i < |g.sent| ==> TypeOf(g.sent[i]) == FRAGMENT)
    && TypeOf(g.open) == (if |g.sent| == |f.sent| then TypeOf(f.open) else FRAGMENT)
    && (|g.sent| > |f.sent| ==> TypeOf(g.sent[|f.sent|]) == TypeOf(f.open))
  }

  lemma ChainedTrans(f: Flow, g: Flow, h: Flow, order: Order)
    requires Chained(f, g, order) && Chained(g, h, order)
    ensures Chained(f, h, order)
  {
    hide WellFormed, Opened, MoreSet;
    assert h.sent[..|f.sent|] == h.sent[..|g.sent|][..|f.sent|];
    forall i | |f.sent| <= i < |g.sent| ensures h.sent[i] == g.sent[i] {
      assert h.sent[i] == h.sent[..|g.sent|][i];
    }
  }

  lemma BreakChained(f: Flow, cfg: Config)
    requires Opened(f.open)
    ensures Chained(f, Break(f, cfg), cfg.order)
  {
    hide Seal, Header, WellFormed, Opened;
    SealedIsWellFormed(f.open, cfg.order);
    HeaderOpens(cfg.major, cfg.minor, cfg.order.Bit(), FRAGMENT, 0, cfg.order, []);
    assert FragHeader(cfg) + [] == FragHeader(cfg);
  }

  lemma AppendChained(f: Flow, e: Stream, order: Order)
    requires Opened(f.open)
    ensures Chained(f, Flow(f.sent, f.open + e), order)
  {
    assert (f.open + e)[..4] == f.open[..4];
  }

  lemma RoomChained(f: Flow, cfg: Config, n: Size)
    requires Opened(f.open)
    ensures Chained(f, Room(f, cfg, n), cfg.order)
  {
    hide Break, Chained;
    BreakChained(f, cfg);
    AppendChained(f, [], cfg.order);
    assert f.open + [] == f.open;
  }

  lemma {:induction false} PutBytesChained(f: Flow, cfg: Config, s: seq<byte>)
    requires Legal(cfg) && Opened(f.open) && (cfg.on ==> |f.open| <= cfg.maxlen)
    ensures Chained(f, PutBytes(f, cfg, s), cfg.order)
    decreases |s|, |f.open|
  {
    hide Break, Opened, PutBytes;
    PutBytesStep(f, cfg, s);
    if cfg.on && |f.open| + |s| > cfg.maxlen {
      var k := cfg.maxlen - |f.open|;
      var g := Flow(f.sent, f.open + Cells(s[..k]));
      AppendChained(f, Cells(s[..k]), cfg.order);
      BreakChained(g, cfg);
      BreakCounts(g, cfg);
      PutBytesChained(Break(g, cfg), cfg, s[k..]);
      hide Chained;
      ChainedTrans(f, g, Break(g, cfg), cfg.order);
      ChainedTrans(f, Break(g, cfg), PutBytes(f, cfg, s), cfg.order);
    } else {
      AppendChained(f, Cells(s), cfg.order);
    }
  }

  lemma PutItemChained(f: Flow, cfg: Config, it: Item)
    requires Legal(cfg) && Opened(f.open)
    ensures Chained(f, PutItem(f, cfg, it), cfg.order)
  {
    hide Room, PutBytes, EncScalar, Opened;
    match it
    case Scalar(n, v) =>
      RoomChained(f, cfg, n);
      var g := Room(f, cfg, n);
      AppendChained(g, EncScalar(|g.open|, n, v, cfg.order), cfg.order);
      ChainedTrans(f, g, PutItem(f, cfg, it), cfg.order);
    case Str(s) =>
      RoomChained(f, cfg, 4);
      var g := Room(f, cfg, 4);
      var e := EncScalar(|g.open|, 4, |s|, cfg.order);
      AppendChained(g, e + Cells(s), cfg.order);
      assert g.open + e + Cells(s) == g.open + (e + Cells(s));
      ChainedTrans(f, g, PutItem(f, cfg, it), cfg.order);
    case Octets(s) =>
      RoomChained(f, cfg, 1);
      RoomAtMost(f, cfg);
      PutBytesChained(Room(f, cfg, 1), cfg, s);
      ChainedTrans(f, Room(f, cfg, 1), PutItem(f, cfg, it), cfg.order);
  }

  /** The chain protocol, for any items coded behind any opened message. */
  lemma {:induction false} FragmentChain(f: Flow, cfg: Config, items: seq<Item>)
    requires Legal(cfg) && Opened(f.open)
    ensures Chained(f, PutAll(f, cfg, items), cfg.order)
    decreases |items|
  {
    if items == [] {
      AppendChained(f, [], cfg.order);
      assert f.open + [] == f.open;
    } else {
      hide PutItem, WellFormed, Opened, MoreSet;
      var g := PutItem(f, cfg, items[0]);
      PutItemChained(f, cfg, items[0]);
      FragmentChain(g, cfg, items[1..]);
      ChainedTrans(f, g, PutAll(f, cfg, items), cfg.order);
    }
  }

  // ---- the size limit ----

  /** What was sent after f, and what is open now, keeps to the limit unless f's own message was over it. */
  ghost predicate Within(f: Flow, g: Flow, maxlen: nat) {
    && |f.sent| <= |g.sent| && g.sent[..|f.sent|] == f.sent
    && (forall i :: |f.sent| < i < |g.sent| ==> |g.sent[i]| <= maxlen)
    && (|g.sent| > |f.sent| ==> |g.sent[|f.sent|]| <= maxlen || |g.sent[|f.sent|]| == |f.open|)
    && (|g.open| <= maxlen || (|g.sent| == |f.sent| && |g.open| == |f.open|))
  }

  lemma WithinTrans(f: Flow, g: Flow, h: Flow, maxlen: nat)
    requires Within(f, g, maxlen) && Within(g, h, maxlen)
    ensures Within(f, h, maxlen)
  {
    assert h.sent[..|f.sent|] == h.sent[..|g.sent|][..|f.sent|];
    forall i | |f.sent| <= i < |g.sent| ensures h.sent[i] == g.sent[i] {
      assert h.sent[i] == h.sent[..|g.sent|][i];
    }
  }

  /** A double needs 24 octets behind a header: it keeps to the limit exactly when the limit allows them. */
  lemma DoubleFits(f: Flow, cfg: Config, v: nat)
    requires cfg.on && Legal(cfg) && HDR_SZ <= |f.open|
    ensures |PutItem(f, cfg, Scalar(8, v)).open| <= cfg.maxlen <==> cfg.maxlen >= 24
  {
    hide Seal;
    assert AlignDelta(HDR_SZ, 8) == 4;
  }

  lemma ScalarWithin(f: Flow, cfg: Config, n: Size, v: nat)
    requires cfg.on && Legal(cfg) && (cfg.maxlen >= 24 || n < 8)
    ensures Within(f, PutScalar(f, cfg, n, v), cfg.maxlen)
  {
    hide Header;
    assert AlignDelta(HDR_SZ, 8) == 4;
    assert AlignDelta(HDR_SZ, 4) == 0;
    assert AlignDelta(HDR_SZ, 2) == 0;
    assert Seal(f.open, cfg.order) == Seal(f.open, cfg.order) && |Seal(f.open, cfg.order)| == |f.open|;
  }

  lemma {:induction false} BytesWithin(f: Flow, cfg: Config, s: seq<byte>)
    requires cfg.on && Legal(cfg) && |f.open| <= cfg.maxlen
    ensures Within(f, PutBytes(f, cfg, s), cfg.maxlen)
    decreases |s|, |f.open|
  {
    hide PutBytes;
    PutBytesStep(f, cfg, s);
    if |f.open| + |s| > cfg.maxlen {
      var k := cfg.maxlen - |f.open|;
      var g := Break(Flow(f.sent, f.open + Cells(s[..k])), cfg);
      BytesWithin(g, cfg, s[k..]);
      WithinTrans(f, g, PutBytes(f, cfg, s), cfg.maxlen);
    }
  }

  lemma OctetsWithin(f: Flow, cfg: Config, s: seq<byte>)
    requires cfg.on && Legal(cfg)
    ensures Within(f, PutItem(f, cfg, Octets(s)), cfg.maxlen)
  {
    hide PutBytes, Seal, Header;
    var g := Room(f, cfg, 1);
    RoomAtMost(f, cfg);
    BytesWithin(g, cfg, s);
    WithinTrans(f, g, PutBytes(g, cfg, s), cfg.maxlen);
  }

  /**
   * Only a string takes a message over the limit: coding anything else keeps to it, given room for a double.
   * A string's prefix keeps to it as well, so the excess is the string's own octets.
   */
  lemma SizeLimit(f: Flow, cfg: Config, it: Item)
    requires cfg.on && Legal(cfg) && cfg.maxlen >= 24
    ensures !it.Str? ==> Within(f, PutItem(f, cfg, it), cfg.maxlen)
    ensures it.Str? ==> var g := PutItem(f, cfg, it);
                        Within(f, Flow(g.sent, g.open[..|g.open| - |it.s|]), cfg.maxlen)
  {
    hide Within, PutScalar, PutBytes;
    match it
    case Scalar(n, v) => ScalarWithin(f, cfg, n, v);
    case Str(s) =>
      ScalarWithin(f, cfg, 4, |s|);
      var g := PutScalar(f, cfg, 4, |s|);
      assert (g.open + Cells(s))[..|g.open|] == g.open;
    case Octets(s) => OctetsWithin(f, cfg, s);
  }

  /** The message closes with the octets of this string, and is within the limit without them. */
  ghost predicate Excuses(it: Item, m: Stream, limit: nat) {
    it.Str? && HDR_SZ <= |m| - |it.s| <= limit && m[|m| - |it.s|..] == Cells(it.s)
  }

  ghost predicate Excused(m: Stream, items: seq<Item>, limit: nat) {
    exists k :: 0 <= k < |items| && Excuses(items[k], m, limit)
  }

  /**
   * Every message since f, and the one left open, is within the limit or closes with a string that took it over,
   * unless f's own message was over the limit already; that one has stayed as long as it was.
   */
  ghost predicate Limited(f: Flow, g: Flow, items: seq<Item>, limit: nat) {
    && |f.sent| <= |g.sent|
    && forall i :: |f.sent| <= i < |Messages(g)| ==>
         var m := Messages(g)[i];
         |m| <= limit || Excused(m, items, limit) || (i == |f.sent| && |m| == |f.open|)
  }

  /** One item, and what is coded behind it. */
  lemma LimitedStep(f: Flow, g: Flow, h: Flow, items: seq<Item>, cfg: Config)
    requires cfg.on && Legal(cfg) && cfg.maxlen >= 24 && HDR_SZ <= |f.open|
    requires items != [] && g == PutItem(f, cfg, items[0]) && HDR_SZ <= |g.open| && Continues(g, h)
    requires Limited(g, h, items[1..], cfg.maxlen)
    ensures Limited(f, h, items, cfg.maxlen)
  {
    hide PutItem, KeepsBody, Excuses;
    SizeLimit(f, cfg, items[0]);
    forall i | |f.sent| <= i < |Messages(h)|
      ensures var m := Messages(h)[i];
              |m| <= cfg.maxlen || Excused(m, items, cfg.maxlen) || (i == |f.sent| && |m| == |f.open|)
    {
      var m := Messages(h)[i];
      if i < |g.sent| {
        assert m == h.sent[..|g.sent|][i] == g.sent[i];
      } else if Excused(m, items[1..], cfg.maxlen) {
        var k :| 0 <= k < |items[1..]| && Excuses(items[1..][k], m, cfg.maxlen);
        assert Excuses(items[k + 1], m, cfg.maxlen);
      } else if |m| > cfg.maxlen && items[0].Str? {
        assert |m| == |g.open| && i == |g.sent|;
        StringExcuses(f, g, m, items[0], cfg);
      }
    }
  }

  /** A string that took the open message over the limit still closes it when it is sent. */
  lemma StringExcuses(f: Flow, g: Flow, m: Stream, it: Item, cfg: Config)
    requires cfg.on && Legal(cfg) && cfg.maxlen >= 24 && HDR_SZ <= |f.open| && it.Str?
    requires g == PutItem(f, cfg, it) && KeepsBody(g.open, m) && |m| == |g.open|
    ensures Excuses(it, m, cfg.maxlen)
  {
    var n := |g.open| - |it.s|;
    StringLast(f, cfg, it);
    assert m[n..] == m[HDR_SZ..|m|][n - HDR_SZ..];
    assert g.open[n..] == g.open[HDR_SZ..][n - HDR_SZ..];
  }

  lemma StringLast(f: Flow, cfg: Config, it: Item)
    requires cfg.on && Legal(cfg) && cfg.maxlen >= 24 && HDR_SZ <= |f.open| && it.Str?
    ensures var c := PutItem(f, cfg, it).open;
            HDR_SZ <= |c| - |it.s| <= cfg.maxlen && c[|c| - |it.s|..] == Cells(it.s)
  {
    hide Header;
    assert AlignDelta(HDR_SZ, 4) == 0;
  }

  /** The size limit, for any items coded behind any message. */
  lemma {:induction false} SizeLimitAll(f: Flow, cfg: Config, items: seq<Item>)
    requires cfg.on && Legal(cfg) && cfg.maxlen >= 24 && HDR_SZ <= |f.open|
    ensures Limited(f, PutAll(f, cfg, items), items, cfg.maxlen)
    decreases |items|
  {
    if items != [] {
      hide PutItem, Continues, Limited;
      var g := PutItem(f, cfg, items[0]);
      PutItemContinues(f, cfg, items[0]);
      PutAllContinues(g, cfg, items[1..]);
      SizeLimitAll(g, cfg, items[1..]);
      LimitedStep(f, g, PutAll(f, cfg, items), items, cfg);
    }
  }
}
