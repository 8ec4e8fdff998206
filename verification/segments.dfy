/** Where the octets of one coding call go, buffer by buffer: the loop of cdr_encode_nbytes on lengths alone. */
module Segments {
  import opened Bytes
  import opened Cdr
  import opened Fragment

  const MIN_BUFSZ: nat := 8

  predicate Whole(n: nat) {
    n >= MIN_BUFSZ && n % 8 == 0
  }

  /** The length of a coder's first buffer, that of every further one, and the limit on messages. */
  datatype Geometry = Geometry(first: nat, next: nat, limit: nat)

  predicate Possible(g: Geometry) {
    Whole(g.first) && Whole(g.next) && g.limit >= MIN_FRAGSZ
  }

  /** cdr_buflen, and the used octets and the length of the current buffer. */
  datatype Place = Place(len: nat, used: nat, size: nat) {
    /** Where in the stream the current buffer ends. */
    function End(): int {
      len + size - used
    }
  }

  /** Behind a Fragment's header, which lies in the first buffer or, if that has but eight octets, in two. */
  function Behind(g: Geometry): (p: Place)
    requires Possible(g)
    ensures p.len == HDR_SZ && 0 < p.used < p.size
  {
    if g.first > HDR_SZ then Place(HDR_SZ, HDR_SZ, g.first) else Place(HDR_SZ, HDR_SZ - MIN_BUFSZ, g.next)
  }

  /** Where in the stream the buffer with the end of a header ends. */
  function HeaderEnd(g: Geometry): nat {
    if g.first > HDR_SZ then g.first else g.first + g.next
  }

  // ---- the loop ----

  /** How much of the remaining octets is coded next, and whether a fragment is sent behind it. */
  function Clip(remainder: nat, free: nat, buflen: nat, maxlen: nat, enabled: bool): (r: (nat, bool))
    requires enabled ==> buflen <= maxlen
    ensures r.0 <= remainder && r.0 <= free && (enabled ==> buflen + r.0 <= maxlen)
    ensures r.1 ==> enabled && buflen + r.0 == maxlen
    ensures !r.1 ==> r.0 == remainder || r.0 == free
  {
    var seglen := if remainder <= free then remainder else free;
    if enabled && buflen + seglen > maxlen then (maxlen - buflen, true) else (seglen, false)
  }

  /** cdr_align for no datum: a fragment if not one more octet may be coded, then a buffer with room for one. */
  function Aligned(g: Geometry, p: Place): (q: Place)
    requires Possible(g)
    ensures q.len < g.limit && q.used < q.size
  {
    var q := if p.len + 1 > g.limit then Behind(g) else p;
    if q.used + 1 > q.size then Place(q.len, 0, g.next) else q
  }

  /** All segments of n octets still to come stay inside their buffers, when `free` octets are taken for free. */
  predicate Fits(g: Geometry, p: Place, free: nat, n: nat)
    requires Possible(g) && p.len <= g.limit
    decreases n, if p.len >= g.limit then 1 else 0, 1
  {
    || n == 0
    || (if free == 0 then Goes(g, Aligned(g, p), Aligned(g, p).size, n) else Goes(g, p, free, n))
  }

  /** The same for the round of the loop in which the free space has been settled. */
  predicate Goes(g: Geometry, p: Place, free: nat, n: nat)
    requires Possible(g) && p.len <= g.limit && free > 0 && n > 0
    decreases n, if p.len >= g.limit then 1 else 0, 0
  {
    var (k, cut) := Clip(n, free, p.len, g.limit, true);
    && p.used + k <= p.size
    && (if cut then Fits(g, Behind(g), Behind(g).size - Behind(g).used, n - k)
        else Fits(g, Place(p.len + k, p.used + k, p.size), free - k, n - k))
  }

  /** The whole of CDRCodeNOctet: room for one octet is made before the loop is entered. */
  predicate OctetsFit(g: Geometry, p: Place, n: nat)
    requires Possible(g)
  {
    var q := Aligned(g, p);
    Fits(g, q, q.size - q.used, n)
  }

  // ---- when they fit ----

  /** A buffer ends at offset e of the stream. */
  predicate EndsAt(first: nat, next: nat, e: int)
    requires next > 0
    decreases if e > 0 then e else 0
  {
    e == first || (e > first && EndsAt(first, next, e - next))
  }

  /**
   * What a caller can check before coding n octets with `len` coded in the message: the first buffer takes a whole
   * message, or no buffer ends at the limit, or what the message cannot take fits behind the header of the next.
   */
  predicate Safe(g: Geometry, len: nat, n: nat)
    requires Possible(g)
  {
    var here := if len < g.limit then len else HDR_SZ;
    g.limit <= HeaderEnd(g) || !EndsAt(g.first, g.next, g.limit) || n - (g.limit - here) <= HeaderEnd(g) - HDR_SZ
  }

  /** The buffers of a stream are its first and then others of the length new ones have. */
  predicate Even(first: nat, next: nat, p: Place)
    requires next > 0
  {
    p.used <= p.size && EndsAt(first, next, p.End()) && (p.End() == first || p.size <= next)
  }

  lemma {:induction false} EndsApart(g: Geometry, a: int, b: int)
    requires Possible(g) && EndsAt(g.first, g.next, a) && EndsAt(g.first, g.next, b) && a < b
    ensures a + g.next <= b
    decreases b - g.first
  {
    if a > g.first {
      EndsApart(g, a - g.next, b - g.next);
    } else {
      EndsFrom(g.first, g.next, b - g.next);
    }
  }

  lemma {:induction false} EndsFrom(first: nat, next: nat, e: int)
    requires next > 0 && EndsAt(first, next, e)
    ensures e >= first
    decreases if e > 0 then e else 0
  {
    if e != first {
      EndsFrom(first, next, e - next);
    }
  }

  /** The buffers stay even when the current one is full and another one follows. */
  lemma EvenNext(first: nat, next: nat, p: Place)
    requires next > 0 && Even(first, next, p)
    ensures var end := p.len + p.size - p.used;
            Even(first, next, Place(end, 0, next)) && Even(first, next, Place(end, p.size, p.size))
  {
    EndsFrom(first, next, p.End());
  }

  /** In the loop: at the limit only if the buffer is full too, and then the whole buffer is taken for free. */
  lemma {:induction false} FitsExactly(g: Geometry, p: Place, n: nat)
    requires Possible(g) && Even(g.first, g.next, p) && p.len <= g.limit && (p.len == g.limit ==> p.used == p.size)
    ensures Fits(g, p, p.size - p.used, n)
            <==> n == 0 || g.limit <= HeaderEnd(g) || !EndsAt(g.first, g.next, g.limit)
                  || n - (g.limit - p.len) <= HeaderEnd(g) - HDR_SZ
    decreases n, if p.len >= g.limit then 1 else 0, 1
  {
    hide Goes, EndsAt;
    EndsFrom(g.first, g.next, p.End());
    EvenNext(g.first, g.next, p);
    if n > 0 {
      if p.used < p.size {
        GoesExactly(g, p, n);
      } else if p.len < g.limit {
        GoesExactly(g, Place(p.len, 0, g.next), n);
      } else {
        hide Fits;
        AtLimit(g, p, n);
      }
    }
  }

  lemma {:induction false} GoesExactly(g: Geometry, p: Place, n: nat)
    requires Possible(g) && Even(g.first, g.next, p) && p.len < g.limit && p.used < p.size && n > 0
    ensures Goes(g, p, p.size - p.used, n)
            <==> g.limit <= HeaderEnd(g) || !EndsAt(g.first, g.next, g.limit)
                  || n - (g.limit - p.len) <= HeaderEnd(g) - HDR_SZ
    decreases n, if p.len >= g.limit then 1 else 0, 0
  {
    hide EndsAt;
    var free := p.size - p.used;
    var (k, cut) := Clip(n, free, p.len, g.limit, true);
    EndsFrom(g.first, g.next, p.End());
    BehindIsEven(g);
    if cut {
      if EndsAt(g.first, g.next, g.limit) {
        EndsFrom(g.first, g.next, g.limit);
        EndsApart(g, g.limit, p.End());
        assert false;
      }
      FitsExactly(g, Behind(g), n - k);
    } else if k < n {
      FitsExactly(g, Place(p.len + k, p.used + k, p.size), n - k);
    }
  }

  /** A header that fills no buffer lies there, and one that fills its first has its rest in the next. */
  lemma HeaderPlace(g: Geometry, p: Place)
    requires Possible(g) && Even(g.first, g.next, p) && p.len == HDR_SZ && Whole(p.size)
    requires (p.size == g.first && p.used == HDR_SZ) || (g.first == MIN_BUFSZ && p.used == HDR_SZ - MIN_BUFSZ)
    ensures p == Behind(g)
  {
    if p.used != HDR_SZ {
      assert p.End() == g.first + p.size && EndsAt(g.first, g.next, p.End() - g.next);
    }
  }

  lemma BehindIsEven(g: Geometry)
    requires Possible(g)
    ensures Even(g.first, g.next, Behind(g)) && Behind(g).End() == HeaderEnd(g)
  {
    assert EndsAt(g.first, g.next, g.first);
  }

  /** The buffer and the message are both full. */
  lemma AtLimit(g: Geometry, p: Place, n: nat)
    requires Possible(g) && Even(g.first, g.next, p) && p.len == g.limit && p.used == p.size && n > 0
    ensures Fits(g, p, 0, n) <==> g.limit <= HeaderEnd(g) || n <= HeaderEnd(g) - HDR_SZ
    decreases n, 1, 0
  {
    var q := Behind(g);
    var (k, cut) := Clip(n, q.size, q.len, g.limit, true);
    BehindIsEven(g);
    assert Fits(g, p, 0, n) == Goes(g, q, q.size, n);
    if cut {
      FitsExactly(g, q, n - k);
      assert Goes(g, q, q.size, n) <==> q.used + k <= q.size && Fits(g, q, q.size - q.used, n - k);
      assert q.used + k <= q.size <==> g.limit <= HeaderEnd(g);
    } else {
      assert q.used + k <= q.size ==> k == n && Fits(g, Place(q.len + k, q.used + k, q.size), q.size - k, 0);
      assert Goes(g, q, q.size, n) <==> q.used + k <= q.size;
    }
  }

  /**
   * For every message open, number of octets, lengths of buffers and limit: all segments of a coding call stay
   * inside their buffers exactly if the call is safe.
   */
  lemma NoOverrun(g: Geometry, p: Place, n: nat)
    requires Possible(g) && Even(g.first, g.next, p)
    ensures OctetsFit(g, p, n) <==> Safe(g, p.len, n)
  {
    hide Fits, EndsAt;
    EvenNext(g.first, g.next, p);
    BehindIsEven(g);
    FitsExactly(g, Aligned(g, p), n);
  }

  /** In a full message a call is as safe as behind the header of the next. */
  lemma SafeBehind(g: Geometry, len: nat, n: nat)
    requires Possible(g)
    ensures len >= g.limit ==> (Safe(g, len, n) <==> Safe(g, HDR_SZ, n))
  {}

  /** Without a buffer that ends at the limit, or with a first one for a whole message, every call is safe. */
  lemma SafeAlways(g: Geometry, len: nat, n: nat)
    requires Possible(g) && (g.limit < HDR_SZ + 8 || g.limit <= g.first || !EndsAt(g.first, g.next, g.limit))
    ensures Safe(g, len, n)
  {
    if EndsAt(g.first, g.next, g.limit) {
      EndsWhole(g, g.limit);
    }
  }

  lemma {:induction false} EndsWhole(g: Geometry, e: int)
    requires Possible(g) && EndsAt(g.first, g.next, e)
    ensures e % 8 == 0
    decreases if e > 0 then e else 0
  {
    if e != g.first {
      EndsWhole(g, e - g.next);
    }
  }

  /**
   * Buffers of 512 octets and a limit of 1024: behind a fresh header 1612 octets fill two buffers and the message
   * with 600 to go, the whole of the first buffer is then taken for free behind the new header, and the segment
   * runs 12 octets over its end. 1512 octets stay inside, and so do 4000 under a limit of 1000.
   */
  lemma OverrunRun()
    ensures var g := Geometry(512, 512, 1024);
            && OctetsFit(g, Behind(g), 1612) == Fits(g, Place(1024, 512, 512), 0, 600)
            && Fits(g, Place(1024, 512, 512), 0, 600) == Goes(g, Behind(g), 512, 600)
            && Clip(600, 512, HDR_SZ, 1024, true) == (512, false)
            && !OctetsFit(g, Behind(g), 1612) && OctetsFit(g, Behind(g), 1512)
    ensures var g := Geometry(512, 512, 1000); OctetsFit(g, Behind(g), 4000)
  {
    var g := Geometry(512, 512, 1024);
    assert EndsAt(g.first, g.next, 512) && EndsAt(g.first, g.next, 1024);
    assert Fits(g, Behind(g), 500, 1612) == Fits(g, Place(512, 512, 512), 0, 1112);
    assert Aligned(g, Place(512, 512, 512)) == Place(512, 0, 512);
    assert Fits(g, Place(512, 512, 512), 0, 1112) == Fits(g, Place(1024, 512, 512), 0, 600);
    NoOverrun(g, Behind(g), 1612);
    NoOverrun(g, Behind(g), 1512);
    var h := Geometry(512, 512, 1000);
    assert !EndsAt(h.first, h.next, 1000);
    BehindIsEven(h);
    NoOverrun(h, Behind(h), 4000);
  }

  // ---- limits too small to go on under ----

  /** Coding this item has the engine send a fragment. */
  predicate Enters(f: Flow, cfg: Config, it: Item) {
    match it
    case Scalar(n, v) => Breaks(f, cfg, n)
    case Str(s) => Breaks(f, cfg, 4)
    case Octets(s) => Breaks(f, cfg, 1) || (cfg.on && |f.open| + |s| > cfg.maxlen)
  }

  /** What is coded of an item before the engine is asked for a fragment. */
  function UpTo(f: Flow, cfg: Config, it: Item): Flow
    requires Enters(f, cfg, it)
  {
    if it.Octets? && !Breaks(f, cfg, 1) then Flow(f.sent, f.open + Cells(it.s[..cfg.maxlen - |f.open|])) else f
  }

  datatype Coded = Done(f: Flow) | Entered(f: Flow)

  /** Code the items until all are coded or one has the engine send a fragment. */
  function CodeItems(f: Flow, cfg: Config, items: seq<Item>): Coded
    decreases |items|
  {
    if items == [] then Done(f)
    else if Enters(f, cfg, items[0]) then Entered(UpTo(f, cfg, items[0]))
    else CodeItems(Flow(f.sent, f.open + EncItem(|f.open|, items[0], cfg.order)), cfg, items[1..])
  }

  /** To code these items is to send a fragment. */
  predicate SomeEnters(f: Flow, cfg: Config, items: seq<Item>) {
    CodeItems(f, cfg, items).Entered?
  }

  lemma EnteredWithin(f: Flow, cfg: Config, it: Item)
    requires !it.Str?
    ensures Enters(f, cfg, it) ==>
              && cfg.on && UpTo(f, cfg, it).sent == f.sent
              && (|f.open| <= cfg.maxlen ==> |UpTo(f, cfg, it).open| <= cfg.maxlen)
    ensures !Enters(f, cfg, it) && cfg.on && |f.open| <= cfg.maxlen ==>
              |f.open + EncItem(|f.open|, it, cfg.order)| <= cfg.maxlen
  {}

  /** Nothing is sent on the way; all is coded as the flat encoding has it, or what is coded is within the limit. */
  lemma {:induction false} CodedItems(f: Flow, cfg: Config, items: seq<Item>)
    requires forall i :: 0 <= i < |items| ==> !items[i].Str?
    ensures var r := CodeItems(f, cfg, items);
            && r.f.sent == f.sent
            && (r.Done? ==> r.f.open == f.open + EncAll(|f.open|, items, cfg.order))
            && (r.Entered? ==> cfg.on && (|f.open| <= cfg.maxlen ==> |r.f.open| <= cfg.maxlen))
    decreases |items|
  {
    hide EncItem, Enters, UpTo;
    if items == [] {
      assert f.open + [] == f.open;
    } else if Enters(f, cfg, items[0]) {
      EnteredWithin(f, cfg, items[0]);
    } else {
      var e := EncItem(|f.open|, items[0], cfg.order);
      EnteredWithin(f, cfg, items[0]);
      CodedItems(Flow(f.sent, f.open + e), cfg, items[1..]);
      assert f.open + (e + EncAll(|f.open| + |e|, items[1..], cfg.order))
          == f.open + e + EncAll(|f.open| + |e|, items[1..], cfg.order);
    }
  }

  /** What giop_hdr_cr codes. */
  function HeaderItems(major: byte, minor: byte, flags: byte, typ: byte): seq<Item> {
    [Octets(MAGIC), Scalar(1, major), Scalar(1, minor), Scalar(1, flags), Scalar(1, typ), Scalar(4, 0)]
  }

  lemma HeaderItemsEncode(major: byte, minor: byte, flags: byte, typ: byte, order: Order)
    ensures EncAll(0, HeaderItems(major, minor, flags, typ), order) == Header(major, minor, flags, typ, 0, order)
  {
    hide NativeBytes, EncAll;
    var r4 := [Scalar(4, 0)];
    var r3 := [Scalar(1, typ)] + r4;
    var r2 := [Scalar(1, flags)] + r3;
    var r1 := [Scalar(1, minor)] + r2;
    var r0 := [Scalar(1, major)] + r1;
    assert HeaderItems(major, minor, flags, typ) == [Octets(MAGIC)] + r0;
    EncAllCons(0, [Octets(MAGIC)] + r0, order);
    OctetThen(4, major, r1, order);
    OctetThen(5, minor, r2, order);
    OctetThen(6, flags, r3, order);
    OctetThen(7, typ, r4, order);
    WordLast(order);
  }

  lemma WordLast(order: Order)
    ensures EncAll(8, [Scalar(4, 0)], order) == Cells(NativeBytes(0, 4, order))
  {
    hide NativeBytes;
    assert AlignDelta(8, 4) == 0 && Pads(0) == [];
    assert [Scalar(4, 0)][1..] == [] && Cells(NativeBytes(0, 4, order)) + [] == Cells(NativeBytes(0, 4, order));
  }

  lemma SingleOctet(p: nat, v: byte, order: Order)
    ensures EncItem(p, Scalar(1, v), order) == Cells([v])
  {
    assert LittleBytes(v, 1) == [v] + LittleBytes(v / 256, 0);
    assert AlignDelta(p, 1) == 0 && Pads(0) == [];
  }

  lemma OctetThen(p: nat, v: byte, rest: seq<Item>, order: Order)
    ensures EncAll(p, [Scalar(1, v)] + rest, order) == Cells([v]) + EncAll(p + 1, rest, order)
  {
    hide EncItem, NativeBytes, EncAll;
    SingleOctet(p, v, order);
    EncAllCons(p, [Scalar(1, v)] + rest, order);
    assert ([Scalar(1, v)] + rest)[1..] == rest;
  }

  /** To code a header is to send a fragment, and so to code another header, exactly under a limit below its size. */
  lemma HeaderEnters(sent: seq<Stream>, cfg: Config, major: byte, minor: byte, flags: byte, typ: byte)
    ensures SomeEnters(Flow(sent, []), cfg, HeaderItems(major, minor, flags, typ)) <==> cfg.on && cfg.maxlen < HDR_SZ
  {
    hide SomeEnters, EncItem;
    var items := HeaderItems(major, minor, flags, typ);
    var f0 := Flow(sent, []);
    var f1 := EntersStep(f0, cfg, items, 0);
    var f2 := EntersStep(f1, cfg, items, 1);
    var f3 := EntersStep(f2, cfg, items, 2);
    var f4 := EntersStep(f3, cfg, items, 3);
    var f5 := EntersStep(f4, cfg, items, 4);
    var f6 := EntersStep(f5, cfg, items, 5);
    NoneEnters(f6, cfg, items[6..]);
    assert items[0..] == items;
  }

  lemma NoneEnters(f: Flow, cfg: Config, items: seq<Item>)
    requires items == []
    ensures !SomeEnters(f, cfg, items)
  {}

  lemma EntersStep(f: Flow, cfg: Config, items: seq<Item>, k: nat) returns (g: Flow)
    requires k < |items|
    ensures g == Flow(f.sent, f.open + EncItem(|f.open|, items[k], cfg.order))
    ensures SomeEnters(f, cfg, items[k..]) <==> Enters(f, cfg, items[k]) || SomeEnters(g, cfg, items[k + 1..])
    ensures |g.open| == |f.open| + match items[k]
                                   case Scalar(n, v) => AlignDelta(|f.open|, n) + n
                                   case Str(s) => AlignDelta(|f.open|, 4) + 4 + |s|
                                   case Octets(s) => |s|
  {
    g := Flow(f.sent, f.open + EncItem(|f.open|, items[k], cfg.order));
    assert items[k..][1..] == items[k + 1..] && items[k..][0] == items[k];
  }

  /**
   * giop_hdr_cr for a Fragment: the coder is emptied and the header coded. Where that has the engine send a fragment,
   * the engine seals and sends what is coded and starts over with another header; at most so many times here.
   */
  function HeaderFlow(f: Flow, cfg: Config, fragments: nat): Coded
    decreases fragments
  {
    var r := CodeItems(Flow(f.sent, []), cfg, HeaderItems(cfg.major, cfg.minor, cfg.order.Bit(), FRAGMENT));
    if r.Done? || fragments == 0 then r
    else HeaderFlow(Flow(r.f.sent + [Seal(r.f.open, cfg.order)], []), cfg, fragments - 1)
  }

  /**
   * The header is complete at once, or never: under a limit below its size one message shorter than a header goes out
   * for every start, without end.
   */
  lemma {:induction false} HeaderNested(f: Flow, cfg: Config, fragments: nat)
    ensures !cfg.on || cfg.maxlen >= HDR_SZ ==> HeaderFlow(f, cfg, fragments) == Done(Flow(f.sent, FragHeader(cfg)))
    ensures cfg.on && cfg.maxlen < HDR_SZ ==>
              var r := HeaderFlow(f, cfg, fragments);
              && r.Entered? && |r.f.sent| == |f.sent| + fragments && r.f.sent[..|f.sent|] == f.sent
              && forall i :: |f.sent| <= i < |r.f.sent| ==> |r.f.sent[i]| < HDR_SZ
    decreases fragments
  {
    hide CodeItems, Seal, Header;
    var items := HeaderItems(cfg.major, cfg.minor, cfg.order.Bit(), FRAGMENT);
    var r := CodeItems(Flow(f.sent, []), cfg, items);
    HeaderEnters(f.sent, cfg, cfg.major, cfg.minor, cfg.order.Bit(), FRAGMENT);
    CodedItems(Flow(f.sent, []), cfg, items);
    HeaderItemsEncode(cfg.major, cfg.minor, cfg.order.Bit(), FRAGMENT, cfg.order);
    if r.Done? {
      assert [] + EncAll(0, items, cfg.order) == EncAll(0, items, cfg.order);
    } else if fragments > 0 {
      var g := Flow(r.f.sent + [Seal(r.f.open, cfg.order)], []);
      HeaderNested(g, cfg, fragments - 1);
      OneMoreShort(f.sent, Seal(r.f.open, cfg.order), HeaderFlow(g, cfg, fragments - 1).f.sent);
    }
  }

  lemma OneMoreShort(was: seq<Stream>, m: Stream, all: seq<Stream>)
    requires |was| < |all| && all[..|was| + 1] == was + [m] && |m| < HDR_SZ
    requires forall i :: |was| < i < |all| ==> |all[i]| < HDR_SZ
    ensures all[..|was|] == was && forall i :: |was| <= i < |all| ==> |all[i]| < HDR_SZ
  {
    assert all[..|was|] == all[..|was| + 1][..|was|];
    assert all[|was|] == all[..|was| + 1][|was|];
  }

  /**
   * What remains of n octets after so many rounds of the loop, with buffers that always have room. While no type
   * of message is known yet the engine is idle: asked for a fragment it does nothing, and reports success.
   */
  function Remaining(limit: nat, len: nat, n: nat, rounds: nat, idle: bool): nat
    requires len <= limit && (idle || HDR_SZ <= limit)
    decreases rounds
  {
    if rounds == 0 || n == 0 then n
    else
      var (k, cut) := Clip(n, n, len, limit, true);
      Remaining(limit, if cut && !idle then HDR_SZ else len + k, n - k, rounds - 1, idle)
  }

  /** Behind a Fragment's header the loop ends exactly under a limit beyond the header's size. */
  lemma LoopEnds(limit: nat, n: nat)
    requires HDR_SZ <= limit
    ensures (exists rounds: nat :: Remaining(limit, HDR_SZ, n, rounds, false) == 0) <==> n == 0 || limit > HDR_SZ
  {
    if limit > HDR_SZ {
      AllCoded(limit, n);
    } else {
      forall rounds: nat ensures Remaining(limit, HDR_SZ, n, rounds, false) == n {
        NothingCoded(limit, n, rounds);
      }
    }
    assert Remaining(limit, HDR_SZ, n, 0, false) == n;
  }

  lemma {:induction false} AllCoded(limit: nat, n: nat)
    requires HDR_SZ < limit
    ensures exists rounds: nat :: Remaining(limit, HDR_SZ, n, rounds, false) == 0
  {
    if n == 0 {
      assert Remaining(limit, HDR_SZ, n, 0, false) == 0;
    } else {
      var (k, cut) := Clip(n, n, HDR_SZ, limit, true);
      if cut {
        AllCoded(limit, n - k);
        var rounds: nat :| Remaining(limit, HDR_SZ, n - k, rounds, false) == 0;
        assert Remaining(limit, HDR_SZ, n, rounds + 1, false) == 0;
      } else {
        assert Remaining(limit, HDR_SZ + k, 0, 0, false) == 0;
        assert Remaining(limit, HDR_SZ, n, 1, false) == 0;
      }
    }
  }

  lemma {:induction false} NothingCoded(limit: nat, n: nat, rounds: nat)
    requires HDR_SZ == limit
    ensures Remaining(limit, HDR_SZ, n, rounds, false) == n
  {
    if rounds > 0 && n > 0 {
      NothingCoded(limit, n, rounds - 1);
    }
  }

  /** With an idle engine it ends exactly if all octets fit the message. */
  lemma IdleLoopEnds(limit: nat, len: nat, n: nat)
    requires len <= limit
    ensures (exists rounds: nat :: Remaining(limit, len, n, rounds, true) == 0) <==> n == 0 || len + n <= limit
  {
    if len + n <= limit {
      assert Remaining(limit, len + n, 0, 0, true) == 0;
      assert Remaining(limit, len, n, 1, true) == 0;
    } else {
      forall rounds: nat ensures Remaining(limit, len, n, rounds, true) > 0 {
        IdleRemaining(limit, len, n, rounds);
      }
    }
    assert Remaining(limit, len, n, 0, true) == n;
  }

  lemma {:induction false} IdleRemaining(limit: nat, len: nat, n: nat, rounds: nat)
    requires len <= limit < len + n
    ensures Remaining(limit, len, n, rounds, true) >= len + n - limit
    decreases rounds
  {
    if rounds > 0 {
      var k := Clip(n, n, len, limit, true).0;
      IdleRemaining(limit, len + k, n - k, rounds - 1);
    }
  }

  /**
   * So with the limit left at zero no header is ever complete: idle, the magic is coded without end; else the engine
   * recurses.
   */
  lemma NoHeaderAtZero(f: Flow, cfg: Config)
    requires cfg.on && cfg.maxlen == 0
    ensures forall rounds: nat :: Remaining(0, 0, |MAGIC|, rounds, true) > 0
    ensures forall fragments: nat :: HeaderFlow(f, cfg, fragments).Entered?
  {
    hide HeaderFlow;
    IdleLoopEnds(0, 0, |MAGIC|);
    forall fragments: nat ensures HeaderFlow(f, cfg, fragments).Entered? {
      HeaderNested(f, cfg, fragments);
    }
  }
}
