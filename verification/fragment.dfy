/** GIOP messages as streams, and the specification of encoding with automatic fragmentation. */
module Fragment {
  import opened Bytes
  import opened Cdr

  const HDR_SZ: nat := 12
  const MIN_FRAGSZ: nat := 16

  // Message types, GIOPMsgTypeE.
  const REQUEST: byte := 0
  const REPLY: byte := 1
  const CANCEL_REQUEST: byte := 2
  const LOCATE_REQUEST: byte := 3
  const LOCATE_REPLY: byte := 4
  const CLOSE_CONNECTION: byte := 5
  const MESSAGE_ERROR: byte := 6
  const FRAGMENT: byte := 7
  const UNKNOWN: byte := 99

  const MAGIC: seq<byte> := [71, 73, 79, 80]

  /** A message header with its final values. */
  function Header(major: byte, minor: byte, flags: byte, typ: byte, size: nat, order: Order): (h: Stream)
    ensures |h| == HDR_SZ
  {
    Cells(MAGIC + [major, minor, flags, typ] + NativeBytes(size, 4, order))
  }

  /** The stream with the octets from `at` on overwritten. */
  function Patch(c: Stream, at: nat, bs: seq<byte>): (r: Stream)
    requires at + |bs| <= |c|
    ensures |r| == |c|
  {
    c[..at] + Cells(bs) + c[at + |bs|..]
  }

  /** GIOP_BITON(flags, GIOP_FRAG_BIT). */
  function MoreFrags(flags: byte): byte {
    if (flags / 2) % 2 == 1 then flags else flags + 2
  }

  function FlagsOf(c: Stream): byte
    requires |c| >= HDR_SZ
  {
    if c[6].Data? then c[6].b else 0
  }

  /** The size field patched to the octets that follow the header. */
  function Sized(c: Stream, order: Order): (r: Stream)
    ensures |r| == |c|
  {
    if |c| < HDR_SZ then c else Patch(c, 8, NativeBytes(|c| - HDR_SZ, 4, order))
  }

  /** The more-fragments bit patched on. */
  function Flagged(c: Stream): (r: Stream)
    ensures |r| == |c|
  {
    if |c| < HDR_SZ then c else Patch(c, 6, [MoreFrags(FlagsOf(c))])
  }

  /** A message cut short by the coder: sized and marked as having more fragments. */
  function Seal(c: Stream, order: Order): (r: Stream)
    ensures |r| == |c|
  {
    Flagged(Sized(c, order))
  }

  /** What the fragmenting coder depends on: is it on, the size limit, our order and the revision in use. */
  datatype Config = Config(on: bool, maxlen: nat, order: Order, major: byte, minor: byte)

  predicate Legal(cfg: Config) {
    cfg.on ==> cfg.maxlen >= MIN_FRAGSZ
  }

  /** The messages sent so far and the one being coded. */
  datatype Flow = Flow(sent: seq<Stream>, open: Stream)

  function FragHeader(cfg: Config): (h: Stream)
    ensures |h| == HDR_SZ
  {
    Header(cfg.major, cfg.minor, cfg.order.Bit(), FRAGMENT, 0, cfg.order)
  }

  /** Send the open message and start a Fragment. */
  function Break(f: Flow, cfg: Config): (g: Flow) {
    Flow(f.sent + [Seal(f.open, cfg.order)], FragHeader(cfg))
  }

  /** Would n octets, aligned, take the open message over the limit? */
  predicate Breaks(f: Flow, cfg: Config, n: Size) {
    cfg.on && |f.open| + AlignDelta(|f.open|, n) + n > cfg.maxlen
  }

  function Room(f: Flow, cfg: Config, n: Size): Flow {
    if Breaks(f, cfg, n) then Break(f, cfg) else f
  }

  function PutScalar(f: Flow, cfg: Config, n: Size, v: nat): Flow {
    var g := Room(f, cfg, n);
    Flow(g.sent, g.open + EncScalar(|g.open|, n, v, cfg.order))
  }

  /** A string's prefix finds room like any word; its octets follow in the same message whatever its size. */
  function PutStr(f: Flow, cfg: Config, s: seq<byte>): Flow {
    var g := PutScalar(f, cfg, 4, |s|);
    Flow(g.sent, g.open + Cells(s))
  }

  /** Octets are cut at the limit. */
  function PutBytes(f: Flow, cfg: Config, s: seq<byte>): Flow
    requires Legal(cfg) && (cfg.on ==> |f.open| <= cfg.maxlen)
    decreases |s|, |f.open|
  {
    if cfg.on && |f.open| + |s| > cfg.maxlen then
      var k := cfg.maxlen - |f.open|;
      PutBytes(Break(Flow(f.sent, f.open + Cells(s[..k])), cfg), cfg, s[k..])
    else
      Flow(f.sent, f.open + Cells(s))
  }

  function PutItem(f: Flow, cfg: Config, it: Item): Flow
    requires Legal(cfg)
  {
    match it
    case Scalar(n, v) => PutScalar(f, cfg, n, v)
    case Str(s) => PutStr(f, cfg, s)
    case Octets(s) => PutBytes(Room(f, cfg, 1), cfg, s)
  }

  function PutAll(f: Flow, cfg: Config, items: seq<Item>): Flow
    requires Legal(cfg)
    decreases |items|
  {
    if items == [] then f else PutAll(PutItem(f, cfg, items[0]), cfg, items[1..])
  }

  lemma RoomLength(f: Flow, cfg: Config, n: Size)
    requires |f.open| >= HDR_SZ
    ensures |Room(f, cfg, n).open| >= HDR_SZ
  {}

  // ---- back-patching ----

  lemma PatchParts(c: Stream, at: nat, bs: seq<byte>)
    requires at + |bs| <= |c|
    ensures var r := Patch(c, at, bs);
            r[..at] == c[..at] && r[at..at + |bs|] == Cells(bs) && r[at + |bs|..] == c[at + |bs|..]
  {}

  lemma SameHead<T>(a: seq<T>, b: seq<T>, k: nat, j: nat)
    requires j <= k <= |a| && k <= |b| && a[..k] == b[..k]
    ensures a[..j] == b[..j]
  {
    assert a[..j] == a[..k][..j];
    assert b[..j] == b[..k][..j];
  }

  lemma SameTail<T>(a: seq<T>, b: seq<T>, k: nat, i: nat, j: nat)
    requires |a| == |b| && k <= i <= j <= |a| && a[k..] == b[k..]
    ensures a[i..j] == b[i..j] && a[i..] == b[i..]
  {
    assert a[i..] == a[k..][i - k..];
    assert b[i..] == b[k..][i - k..];
    assert a[i..j] == a[i..][..j - i];
    assert b[i..j] == b[i..][..j - i];
  }

  lemma PatchedSize(h: Stream, body: Stream, at: nat, bs: seq<byte>)
    requires at + |bs| <= |h|
    ensures Patch(h + body, at, bs) == Patch(h, at, bs) + body
  {}

  /** Patching a coded message gives the one-pass encoding with the final values, body untouched. */
  lemma BackPatch(major: byte, minor: byte, flags: byte, typ: byte, size: nat, order: Order, body: Stream)
    ensures Sized(Header(major, minor, flags, typ, size, order) + body, order)
            == Header(major, minor, flags, typ, |body|, order) + body
    ensures Flagged(Header(major, minor, flags, typ, size, order) + body)
            == Header(major, minor, MoreFrags(flags), typ, size, order) + body
  {
    hide NativeBytes, MoreFrags;
    var h := Header(major, minor, flags, typ, size, order);
    PatchedSize(h, body, 8, NativeBytes(|body|, 4, order));
    assert Patch(h, 8, NativeBytes(|body|, 4, order)) == Header(major, minor, flags, typ, |body|, order);
    PatchedSize(h, body, 6, [MoreFrags(flags)]);
    assert Patch(h, 6, [MoreFrags(flags)]) == Header(major, minor, MoreFrags(flags), typ, size, order);
  }

  lemma SealedHeader(major: byte, minor: byte, flags: byte, typ: byte, size: nat, order: Order, body: Stream)
    ensures Seal(Header(major, minor, flags, typ, size, order) + body, order)
            == Header(major, minor, MoreFrags(flags), typ, |body|, order) + body
  {
    hide Header, Sized, Flagged;
    BackPatch(major, minor, flags, typ, size, order, body);
    BackPatch(major, minor, flags, typ, |body|, order, body);
  }

  // ---- what the octets of a header are ----

  /** The twelve octets of a header; its size is a word in the order given, so it counts modulo 2 to the 32. */
  lemma HeaderSpelt(major: byte, minor: byte, flags: byte, typ: byte, size: nat, order: Order)
    ensures var h := Header(major, minor, flags, typ, size, order);
            && |h| == 12 && (forall i :: 0 <= i < 12 ==> h[i].Data?)
            && h[0].b == 'G' as int && h[1].b == 'I' as int && h[2].b == 'O' as int && h[3].b == 'P' as int
            && h[4].b == major && h[5].b == minor && h[6].b == flags && h[7].b == typ
            && var a: nat, b: nat, c: nat, d: nat := h[8].b, h[9].b, h[10].b, h[11].b;
               size % 0x1_0000_0000
               == if order == Little then a + 0x100 * b + 0x1_0000 * c + 0x100_0000 * d
                  else d + 0x100 * c + 0x1_0000 * b + 0x100_0000 * a
  {
    hide NativeBytes;
    StoredWord(size, order);
  }

  /** Setting the more-fragments bit sets the bit of value two and leaves the others. */
  lemma MoreFragsSpelt(flags: byte)
    ensures var r := MoreFrags(flags); r % 2 == flags % 2 && (r / 2) % 2 == 1 && r / 4 == flags / 4
  {}

  /** The types of messages. */
  lemma MessageTypes()
    ensures REQUEST == 0 && REPLY == 1 && CANCEL_REQUEST == 2 && LOCATE_REQUEST == 3 && LOCATE_REPLY == 4
    ensures CLOSE_CONNECTION == 5 && MESSAGE_ERROR == 6 && FRAGMENT == 7
  {}

  /** Sealing settles the size and the bit for more fragments, and nothing else. */
  lemma SealSpelt(c: Stream, order: Order, i: nat)
    requires |c| >= 12 && c[6].Data? && i < |c|
    ensures var s := Seal(c, order);
            && |s| == |c| && (i != 6 && !(8 <= i < 12) ==> s[i] == c[i])
            && s[6].Data? && (s[6].b / 2) % 2 == 1 && s[6].b % 2 == c[6].b % 2
            && s[8].Data? && s[9].Data? && s[10].Data? && s[11].Data?
            && var x: nat, y: nat, z: nat, w: nat := s[8].b, s[9].b, s[10].b, s[11].b;
               (|c| - 12) % 0x1_0000_0000
               == if order == Little then x + 0x100 * y + 0x1_0000 * z + 0x100_0000 * w
                  else w + 0x100 * z + 0x1_0000 * y + 0x100_0000 * x
  {
    hide NativeBytes, MoreFrags;
    StoredWord(|c| - 12, order);
    MoreFragsSpelt(c[6].b);
  }

  /** An item stays in the open message exactly if it fits there; a string need only fit with its prefix. */
  lemma StaysExactly(f: Flow, cfg: Config, it: Item)
    requires Legal(cfg)
    ensures var left := cfg.maxlen - |f.open|;
            PutItem(f, cfg, it).sent == f.sent
            <==> !cfg.on || match it
                            case Scalar(n, _) => AlignDelta(|f.open|, n) + n <= left
                            case Str(_) => AlignDelta(|f.open|, 4) + 4 <= left
                            case Octets(s) => 1 <= left && |s| <= left
  {
    hide Seal, Header, EncScalar;
    if it.Octets? {
      OctetsStay(f, cfg, it.s);
    }
  }

  lemma OctetsStay(f: Flow, cfg: Config, s: seq<byte>)
    requires Legal(cfg)
    ensures PutBytes(Room(f, cfg, 1), cfg, s).sent == f.sent
            <==> !cfg.on || (|f.open| + 1 <= cfg.maxlen && |f.open| + |s| <= cfg.maxlen)
  {
    hide PutBytes, Seal, Header;
    var g := Room(f, cfg, 1);
    PutBytesStep(g, cfg, s);
    if Breaks(f, cfg, 1) {
      SentGrows(g, cfg, s);
      assert |g.sent| > |f.sent|;
    } else if cfg.on && |f.open| + |s| > cfg.maxlen {
      var k := cfg.maxlen - |f.open|;
      SentGrows(Break(Flow(f.sent, f.open + Cells(s[..k])), cfg), cfg, s[k..]);
    }
  }

  lemma {:induction false} SentGrows(f: Flow, cfg: Config, s: seq<byte>)
    requires Legal(cfg) && (cfg.on ==> |f.open| <= cfg.maxlen)
    ensures |PutBytes(f, cfg, s).sent| >= |f.sent|
    decreases |s|, |f.open|
  {
    hide Seal, Header;
    PutBytesStep(f, cfg, s);
    if cfg.on && |f.open| + |s| > cfg.maxlen {
      var k := cfg.maxlen - |f.open|;
      SentGrows(Break(Flow(f.sent, f.open + Cells(s[..k])), cfg), cfg, s[k..]);
    }
  }

  /** Octets that are cut fill each message to the limit, and the last of them are in the one left open. */
  lemma {:induction false} CutFull(f: Flow, cfg: Config, s: seq<byte>)
    requires Legal(cfg) && cfg.on && |f.open| <= cfg.maxlen
    ensures var g := PutBytes(f, cfg, s);
            && |f.sent| <= |g.sent| && g.sent[..|f.sent|] == f.sent && |g.open| <= cfg.maxlen
            && (forall i :: |f.sent| <= i < |g.sent| ==> |g.sent[i]| == cfg.maxlen)
            && (|g.sent| > |f.sent| ==> |g.open| > 12)
            && (|g.sent| > |f.sent| <==> |f.open| + |s| > cfg.maxlen)
    decreases |s|, |f.open|
  {
    hide Seal, Header;
    PutBytesStep(f, cfg, s);
    hide PutBytes;
    if |f.open| + |s| > cfg.maxlen {
      var k := cfg.maxlen - |f.open|;
      var b := Break(Flow(f.sent, f.open + Cells(s[..k])), cfg);
      CutFull(b, cfg, s[k..]);
      var g := PutBytes(b, cfg, s[k..]);
      assert |b.open| == 12 && |b.sent| == |f.sent| + 1 && |b.sent[|f.sent|]| == cfg.maxlen;
      assert g.sent[|f.sent|] == g.sent[..|b.sent|][|f.sent|];
      assert g.sent[..|f.sent|] == g.sent[..|b.sent|][..|f.sent|];
      if |g.sent| == |b.sent| {
        PutBytesStep(b, cfg, s[k..]);
      }
    }
  }

  // ---- without fragmentation ----

  /** An item that fits goes behind the open message exactly as the flat encoder writes it. */
  lemma PutFits(f: Flow, cfg: Config, it: Item)
    requires Legal(cfg)
    requires !cfg.on || (match it
                         case Scalar(n, v) => !Breaks(f, cfg, n)
                         case Str(s) => !Breaks(f, cfg, 4)
                         case Octets(s) => |f.open| + |s| <= cfg.maxlen && |f.open| < cfg.maxlen)
    ensures PutItem(f, cfg, it) == Flow(f.sent, f.open + EncItem(|f.open|, it, cfg.order))
  {}

  /** With fragmentation off the flow is the flat encoding. */
  lemma {:induction false} PutAllFlat(f: Flow, cfg: Config, items: seq<Item>)
    requires !cfg.on
    ensures PutAll(f, cfg, items) == Flow(f.sent, f.open + EncAll(|f.open|, items, cfg.order))
    decreases |items|
  {
    hide PutItem, EncItem;
    if items == [] {
      assert f.open + [] == f.open;
    } else {
      var e := EncItem(|f.open|, items[0], cfg.order);
      PutFits(f, cfg, items[0]);
      PutAllFlat(Flow(f.sent, f.open + e), cfg, items[1..]);
      assert f.open + (e + EncAll(|f.open| + |e|, items[1..], cfg.order))
          == f.open + e + EncAll(|f.open| + |e|, items[1..], cfg.order);
    }
  }

  // ---- octets in segments ----

  lemma PutBytesStep(f: Flow, cfg: Config, s: seq<byte>)
    requires Legal(cfg) && (cfg.on ==> |f.open| <= cfg.maxlen)
    ensures PutBytes(f, cfg, s)
            == if cfg.on && |f.open| + |s| > cfg.maxlen then
                 var k := cfg.maxlen - |f.open|;
                 PutBytes(Break(Flow(f.sent, f.open + Cells(s[..k])), cfg), cfg, s[k..])
               else Flow(f.sent, f.open + EncItem(|f.open|, Octets(s), cfg.order))
  {}

  /** How the octets are chunked does not matter, as long as no chunk crosses the limit. */
  lemma PutBytesSegment(f: Flow, cfg: Config, a: seq<byte>, b: seq<byte>)
    requires Legal(cfg) && (cfg.on ==> |f.open| + |a| <= cfg.maxlen)
    ensures PutBytes(f, cfg, a + b) == PutBytes(Flow(f.sent, f.open + Cells(a)), cfg, b)
  {
    hide PutBytes, Break;
    var g := Flow(f.sent, f.open + Cells(a));
    PutBytesStep(f, cfg, a + b);
    PutBytesStep(g, cfg, b);
    if cfg.on && |f.open| + |a + b| > cfg.maxlen {
      var k := cfg.maxlen - |f.open|;
      var m := cfg.maxlen - |g.open|;
      assert (a + b)[..k] == a + b[..m];
      assert (a + b)[k..] == b[m..];
      assert f.open + Cells((a + b)[..k]) == g.open + Cells(b[..m]);
    } else {
      assert f.open + Cells(a + b) == g.open + Cells(b);
    }
  }

  /** Making room first, when there are octets to come, changes nothing. */
  lemma PutBytesRoom(f: Flow, cfg: Config, s: seq<byte>)
    requires Legal(cfg) && (cfg.on ==> |f.open| <= cfg.maxlen) && s != []
    ensures cfg.on ==> |Room(f, cfg, 1).open| <= cfg.maxlen
    ensures PutBytes(Room(f, cfg, 1), cfg, s) == PutBytes(f, cfg, s)
  {
    hide PutBytes, Break;
    if Breaks(f, cfg, 1) {
      PutBytesStep(f, cfg, s);
      assert f.open + Cells(s[..0]) == f.open;
      assert s[0..] == s;
      BreakHeader(f, cfg);
    }
  }

  lemma BreakHeader(f: Flow, cfg: Config)
    ensures |Break(f, cfg).open| == HDR_SZ
  {}

  /** Octets that fill the message exactly, with more to come, are a cut. */
  lemma PutBytesCut(f: Flow, cfg: Config, a: seq<byte>, b: seq<byte>)
    requires Legal(cfg) && cfg.on && |f.open| + |a| == cfg.maxlen && b != []
    ensures |Break(Flow(f.sent, f.open + Cells(a)), cfg).open| == HDR_SZ
    ensures PutBytes(f, cfg, a + b) == PutBytes(Break(Flow(f.sent, f.open + Cells(a)), cfg), cfg, b)
  {
    hide PutBytes, Break;
    PutBytesStep(f, cfg, a + b);
    BreakHeader(Flow(f.sent, f.open + Cells(a)), cfg);
    assert (a + b)[..|a|] == a && (a + b)[|a|..] == b;
  }
}
