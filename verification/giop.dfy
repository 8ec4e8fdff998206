/** The CDR coder over a list of buffers and the GIOP engine it calls back to send fragments. */
module Giop {
  import opened Bytes
  import opened Cdr
  import opened Fragment
  import opened Chain
  import opened Reassembly
  import opened Segments

  datatype Mode = Encoding | Decoding | NoMode

  datatype CdrStatus = CDR_OK | CDR_FAIL | CDR_EINV_MODE | CDR_EAUTO_FRAG | CDR_ESTR_FRAG
    | CDR_ENULL_CODER | CDR_ENULL_DATA

  // ---- one buffer ----

  /** CDRBufferT. Positions are offsets from the start of the memory block, which is 8-aligned. */
  class Buffer {
    const data: array<byte>
    var len: nat
    var used: nat
    var pos: int
    ghost var part: Stream

    constructor (n: nat)
      ensures fresh(data) && data.Length == n
      ensures len == n && used == 0 && pos == 0 && Content()
    {
      data := new byte[n];
      len, used, pos, part := n, 0, 0, [];
    }

    /** A buffer over the caller's own octets. */
    constructor Over(data: array<byte>, n: nat)
      requires n <= data.Length
      ensures this.data == data && len == n && used == 0 && pos == 0 && Content()
    {
      this.data := data;
      len, used, pos, part := n, 0, 0, [];
    }

    /** `part` is the stream in the used octets. */
    ghost predicate Content()
      reads this, data
    {
      used <= len <= data.Length && |part| == used && Matches(part, data[..used])
    }

    /** Coding goes on k octets short of the used ones. */
    ghost predicate Holds(k: nat)
      reads this, data
    {
      Content() && k <= used && pos == used - k
    }

    /** Write into the space set aside for these octets. */
    method Store(bs: seq<byte>)
      requires Holds(|bs|)
      modifies this`pos, this`part, data
      ensures Holds(0) && part == old(part)[..used - |bs|] + Cells(bs)
    {
      forall j | 0 <= j < |bs| {
        data[pos + j] := bs[j];
      }
      pos := pos + |bs|;
      part := part[..used - |bs|] + Cells(bs);
    }

    /** memcpy behind the used octets. */
    method Append(bs: seq<byte>)
      requires Holds(0) && used + |bs| <= len
      modifies this`pos, this`used, this`part, data
      ensures Holds(0) && part == old(part) + Cells(bs) && used == old(used) + |bs|
    {
      forall j | 0 <= j < |bs| {
        data[pos + j] := bs[j];
      }
      pos := pos + |bs|;
      used := used + |bs|;
      part := part + Cells(bs);
    }

    /** Skip d octets of padding and set n aside for the datum. */
    method Reserve(d: nat, n: nat)
      requires Holds(0) && used + d + n <= len
      modifies this`pos, this`used, this`part
      ensures Holds(n) && part == old(part) + Pads(d) + Pads(n) && used == old(used) + d + n
    {
      pos := pos + d;
      used := used + d + n;
      part := part + Pads(d) + Pads(n);
    }

    /** The trailing octets become padding. */
    method Close(d: nat)
      modifies this`used, this`part
      ensures part == old(part) + Pads(d) && used == old(used) + d
      ensures old(Content()) && used <= len ==> Content()
    {
      used := used + d;
      part := part + Pads(d);
    }

    method Reset()
      requires len <= data.Length
      modifies this`pos, this`used, this`part
      ensures Holds(0) && part == [] && used == 0
    {
      used, pos, part := 0, 0, [];
    }

    /** Overwrite octets already coded. */
    method Poke(off: nat, bs: seq<byte>)
      requires Content() && off + |bs| <= used
      modifies this`part, data
      ensures Content() && part == Patch(old(part), off, bs)
    {
      forall j | 0 <= j < |bs| {
        data[off + j] := bs[j];
      }
      part := Patch(part, off, bs);
    }
  }

  // ---- lists of buffers ----

  function Flat(parts: seq<Stream>): Stream {
    if parts == [] then [] else Flat(parts[..|parts| - 1]) + parts[|parts| - 1]
  }

  ghost function Parts(bs: seq<Buffer>): (p: seq<Stream>)
    reads bs`part
    ensures |p| == |bs| && forall i :: 0 <= i < |bs| ==> p[i] == bs[i].part
  {
    if bs == [] then [] else Parts(bs[..|bs| - 1]) + [bs[|bs| - 1].part]
  }

  /** The stream in a list of buffers. */
  ghost function Concat(bs: seq<Buffer>): Stream
    reads bs`part
  {
    Flat(Parts(bs))
  }

  lemma ConcatLast(bs: seq<Buffer>, n: nat)
    requires n < |bs|
    ensures Concat(bs[..n + 1]) == Concat(bs[..n]) + bs[n].part
  {
    var p := Parts(bs[..n + 1]);
    assert p[..n] == Parts(bs[..n]);
  }

  /** The used octets of a list of buffers, in order. */
  ghost function Octs(bs: seq<Buffer>): seq<byte>
    requires forall i :: 0 <= i < |bs| ==> bs[i].used <= bs[i].data.Length
    reads bs, set b | b in bs :: b.data
  {
    if bs == [] then [] else Octs(bs[..|bs| - 1]) + bs[|bs| - 1].data[..bs[|bs| - 1].used]
  }

  lemma OctsLast(bs: seq<Buffer>, n: nat)
    requires n < |bs| && forall i :: 0 <= i < |bs| ==> bs[i].used <= bs[i].data.Length
    ensures Octs(bs[..n + 1]) == Octs(bs[..n]) + bs[n].data[..bs[n].used]
  {
    assert bs[..n + 1][..n] == bs[..n];
  }

  lemma {:induction false} OctsGrow(bs: seq<Buffer>, n: nat, m: nat)
    requires n <= m <= |bs| && forall i :: 0 <= i < |bs| ==> bs[i].used <= bs[i].data.Length
    ensures Octs(bs[..n]) <= Octs(bs[..m])
  {
    if n < m {
      OctsGrow(bs, n, m - 1);
      OctsLast(bs, m - 1);
    }
  }

  lemma JoinMatches(c: Stream, d: Stream, a: seq<byte>, b: seq<byte>)
    requires Matches(c, a) && Matches(d, b)
    ensures Matches(c + d, a + b)
  {}

  /** They carry the stream in those buffers. */
  lemma {:induction false} OctsMatch(bs: seq<Buffer>, n: nat)
    requires n <= |bs| && forall i :: 0 <= i < |bs| ==> bs[i].used <= bs[i].data.Length && bs[i].Content()
    ensures Matches(Concat(bs[..n]), Octs(bs[..n]))
  {
    if n == 0 {
      assert Parts(bs[..0]) == [];
    } else {
      hide Matches, Concat, Octs;
      OctsMatch(bs, n - 1);
      ConcatLast(bs, n - 1);
      OctsLast(bs, n - 1);
      JoinMatches(Concat(bs[..n - 1]), bs[n - 1].part, Octs(bs[..n - 1]), bs[n - 1].data[..bs[n - 1].used]);
    }
  }

  /** Overwriting octets of one buffer overwrites them in the stream, where that buffer's part lies. */
  lemma {:induction false} FlatPatched(parts: seq<Stream>, i: nat, off: nat, bs: seq<byte>)
    requires i < |parts| && off + |bs| <= |parts[i]|
    ensures |Flat(parts[..i])| + off + |bs| <= |Flat(parts)|
    ensures Flat(parts[i := Patch(parts[i], off, bs)]) == Patch(Flat(parts), |Flat(parts[..i])| + off, bs)
    decreases |parts|
  {
    var n := |parts| - 1;
    var q := parts[i := Patch(parts[i], off, bs)];
    var at := |Flat(parts[..i])| + off;
    if i == n {
      assert q[..n] == parts[..n];
      assert Patch(Flat(parts), at, bs) == Flat(parts[..n]) + Patch(parts[n], off, bs);
    } else {
      assert parts[..n][..i] == parts[..i];
      assert q[..n] == parts[..n][i := Patch(parts[i], off, bs)];
      FlatPatched(parts[..n], i, off, bs);
      PatchedSize(Flat(parts[..n]), parts[n], at, bs);
    }
  }

  lemma FlatLast(parts: seq<Stream>, last: Stream)
    ensures Flat(parts + [last]) == Flat(parts) + last
  {
    assert (parts + [last])[..|parts|] == parts;
  }

  lemma {:induction false} FlatAt(parts: seq<Stream>, i: nat, off: nat)
    requires i < |parts| && off < |parts[i]|
    ensures |Flat(parts[..i])| + off < |Flat(parts)|
    ensures Flat(parts)[|Flat(parts[..i])| + off] == parts[i][off]
    decreases |parts|
  {
    var n := |parts| - 1;
    if i < n {
      assert parts[..n][..i] == parts[..i];
      FlatAt(parts[..n], i, off);
    }
  }

  /** The same for a list whose last buffer is the current one. */
  lemma PatchedPart(was: seq<Stream>, now: seq<Stream>, part: Stream, last: Stream, loc: Loc, bs: seq<byte>)
    requires loc.buf <= |was| && loc.off + |bs| <= |(was + [part])[loc.buf]|
    requires now + [last] == (was + [part])[loc.buf := Patch((was + [part])[loc.buf], loc.off, bs)]
    ensures |Flat(was[..loc.buf])| + loc.off + |bs| <= |Flat(was) + part| && |Flat(now)| == |Flat(was)|
    ensures Flat(now) + last == Patch(Flat(was) + part, |Flat(was[..loc.buf])| + loc.off, bs)
  {
    hide Patch, Flat;
    FlatLast(was, part);
    FlatLast(now, last);
    var p, q := was + [part], now + [last];
    assert p[..|was|] == was && q[..|was|] == now && |now| == |was|;
    assert p[..loc.buf] == was[..loc.buf];
    FlatPatched(p, loc.buf, loc.off, bs);
    if loc.buf < |was| {
      assert now == was[loc.buf := Patch(was[loc.buf], loc.off, bs)];
      FlatPatched(was, loc.buf, loc.off, bs);
    } else {
      assert now == was;
    }
  }

  /** Full buffers, and in `starts` where each one's part of the stream begins and where the next one's will. */
  ghost predicate PastOf(past: seq<Buffer>, starts: seq<nat>)
    reads past, set b | b in past :: b.data
  {
    var n := |past|;
    && |starts| == n + 1 && starts[0] == 0
    && starts[n] % 8 == 0 && starts[n] == |Concat(past)|
    && (forall i :: 0 <= i < n ==> past[i].Content() && past[i].used == past[i].len)
    && (forall i :: 0 <= i < n ==> starts[i + 1] == starts[i] + past[i].len)
  }

  lemma NoPast()
    ensures PastOf([], [0]) && Concat([]) == []
  {
    assert Parts([]) == [];
  }

  lemma PastEnds(past: seq<Buffer>, starts: seq<nat>)
    requires PastOf(past, starts)
    ensures |starts| == |past| + 1 && starts[|past|] % 8 == 0 && starts[|past|] == |Concat(past)|
  {}

  lemma {:induction false} StartsCount(past: seq<Buffer>, starts: seq<nat>, i: nat)
    requires PastOf(past, starts) && i <= |past|
    ensures starts[i] == |Concat(past[..i])|
  {
    if i > 0 {
      StartsCount(past, starts, i - 1);
      ConcatLast(past, i - 1);
    } else {
      assert Parts(past[..0]) == [];
    }
  }

  lemma {:induction false} StartsGrow(past: seq<Buffer>, starts: seq<nat>, i: nat)
    requires PastOf(past, starts) && 1 <= i <= |past|
    ensures starts[i] >= past[0].len
  {
    if i > 1 {
      StartsGrow(past, starts, i - 1);
    }
  }

  lemma {:induction false} StartsApart(past: seq<Buffer>, starts: seq<nat>, i: nat, j: nat)
    requires PastOf(past, starts) && i <= j <= |past|
    ensures starts[i] <= starts[j]
  {
    if i < j {
      StartsApart(past, starts, i, j - 1);
    }
  }

  /** The current buffer full, the next one starts where it ends. */
  lemma PastNext(past: seq<Buffer>, starts: seq<nat>, b: Buffer)
    requires PastOf(past, starts) && b.Content() && b.used == b.len
    requires (starts[|past|] + b.len) % 8 == 0
    ensures PastOf(past + [b], starts + [starts[|past|] + b.len])
    ensures Concat(past + [b]) == Concat(past) + b.part
  {
    hide Concat, Matches;
    ConcatLast(past + [b], |past|);
    assert (past + [b])[..|past|] == past;
    assert (past + [b])[..|past| + 1] == past + [b];
  }

  /** The buffers and their memory blocks are distinct and ours. */
  ghost predicate Owned(bs: seq<Buffer>, repr: set<object>) {
    && (forall i :: 0 <= i < |bs| ==> bs[i] in repr && bs[i].data in repr)
    && (forall i, j :: 0 <= i < j < |bs| ==> bs[i] != bs[j] && bs[i].data != bs[j].data)
  }

  ghost function Listed(bs: seq<Buffer>): set<Buffer> {
    set b | b in bs
  }

  /** The list with b behind the element at cur, or alone in it. */
  function Inserted(bs: seq<Buffer>, cur: nat, b: Buffer): seq<Buffer> {
    if bs == [] then [b] else if cur < |bs| then bs[..cur + 1] + [b] + bs[cur + 1..] else bs
  }

  lemma InsertedOwned(bs: seq<Buffer>, cur: nat, b: Buffer, repr: set<object>)
    requires Owned(bs, repr) && b !in repr && b.data !in repr
    ensures Owned(Inserted(bs, cur, b), repr + {b, b.data})
  {}

  lemma InsertedMembers(bs: seq<Buffer>, cur: nat, b: Buffer)
    requires bs == [] || cur < |bs|
    ensures Listed(Inserted(bs, cur, b)) == Listed(bs) + {b}
    ensures var r := Inserted(bs, cur, b);
            |r| == |bs| + 1 && r[if bs == [] then 0 else cur + 1] == b
            && (forall i :: 0 <= i < |r| ==>
                  r[i] == if bs == [] || i == cur + 1 then b else if i <= cur then bs[i] else bs[i - 1])
            && r == if bs == [] then [b] else bs[..cur + 1] + [b] + bs[cur + 1..]
  {
    var r := Inserted(bs, cur, b);
    forall x | x in bs ensures x in r {
      var k :| 0 <= k < |bs| && bs[k] == x;
      assert r[if k <= cur then k else k + 1] == x;
    }
  }

  lemma InsertedKeeps(bs: seq<Buffer>, cur: nat, b: Buffer)
    requires bs == [] || cur < |bs|
    requires b.len <= b.data.Length && forall i :: 0 <= i < |bs| ==> bs[i].len <= bs[i].data.Length
    ensures var r := Inserted(bs, cur, b); forall i :: 0 <= i < |r| ==> r[i].len <= r[i].data.Length
    ensures Whole(b.len) && (forall i :: 0 <= i < |bs| ==> Whole(bs[i].len)) ==>
              var r := Inserted(bs, cur, b); forall i :: 0 <= i < |r| ==> Whole(r[i].len)
  {}

  lemma Regroup<T>(a: set<T>, b: set<T>, c: set<T>)
    ensures a + b + c == a + c + b
  {}

  lemma TrimmedIsWhole(len: nat)
    requires len >= MIN_BUFSZ
    ensures var d := AlignDelta(len, 8); Whole(if d == 0 then len else len - (MIN_BUFSZ - d))
  {}

  /** Where aligned data does not fit a whole buffer, the padding reaches exactly to the buffer's end. */
  lemma SpillFills(used: nat, len: nat, sz: Size)
    requires len % 8 == 0 && used <= len && used + AlignDelta(used, sz) + sz > len
    ensures used + AlignDelta(used, sz) == len
  {}

  lemma Mod2(x: int, k: int)
    ensures (x + 2 * k) % 2 == x % 2
  {}

  lemma Mod4(x: int, k: int)
    ensures (x + 4 * k) % 4 == x % 4
  {}

  lemma Mod8(x: int, k: int)
    ensures (x + 8 * k) % 8 == x % 8
  {}

  /** Offsets in a buffer that starts at a multiple of eight align as offsets in the stream. */
  lemma BaseAligns(base: nat, p: nat, sz: Size)
    requires base % 8 == 0
    ensures AlignDelta(base + p, sz) == AlignDelta(p, sz)
  {
    var k: int := base / 8;
    assert 0 - (base + p) == 0 - p + 8 * (0 - k);
    Mod2(0 - p, 0 - 4 * k);
    Mod4(0 - p, 0 - 2 * k);
    Mod8(0 - p, 0 - k);
  }

  /** What was set aside for a datum, written. */
  lemma StoredBehind(open: Stream, d: nat, bs: seq<byte>)
    ensures var c := open + Pads(d) + Pads(|bs|);
            c[..|c| - |bs|] + Cells(bs) == open + (Pads(d) + Cells(bs))
  {}

  lemma NoPads(c: Stream)
    ensures c + Pads(0) == c
  {}

  // ---- pointers into the coder ----

  /** A pointer into a coder's buffers: which buffer, and the offset in it. */
  datatype Loc = Loc(buf: nat, off: nat)

  /** The pointer leads to the n octets at offset `at` of the stream whose buffers start at `starts`. */
  ghost predicate Locates(starts: seq<nat>, total: nat, loc: Loc, at: nat, n: nat) {
    && loc.buf < |starts| && starts[loc.buf] + loc.off == at
    && at + n <= total
    && at + n <= if loc.buf + 1 < |starts| then starts[loc.buf + 1] else total
  }

  /** The stream grew: the buffers it was in are as they were. */
  ghost predicate Grown(s: seq<nat>, n: nat, s': seq<nat>, n': nat) {
    s <= s' && n <= n' && (|s'| > |s| ==> s'[|s|] >= n)
  }

  /** Messages that are a header and nothing else. */
  predicate Bare(typ: byte) {
    typ == CLOSE_CONNECTION || typ == MESSAGE_ERROR
  }

  predicate Allowed(isServer: bool, typ: byte) {
    if isServer then typ in {REPLY, LOCATE_REPLY, CLOSE_CONNECTION, MESSAGE_ERROR, FRAGMENT}
    else typ in {REQUEST, CANCEL_REQUEST, LOCATE_REQUEST, MESSAGE_ERROR, FRAGMENT}
  }

  /**
   * Where a message's header fields are: pointers to its flags, its size and, when respOff is not 0, its response
   * flag.
   */
  datatype Marks = Marks(flags: Loc, msgsz: Loc, resp: Loc)

  /** A message header is open: the stream starts with one of a type allowed, and the pointers lead to its fields. */
  ghost predicate HeaderAt(c: Stream, starts: seq<nat>, m: Marks, respOff: nat, isServer: bool, typ: byte,
                           order: Order)
  {
    && Opened(c) && Signed(c, order) && TypeOf(c) == typ && Allowed(isServer, typ)
    && Locates(starts, |c|, m.flags, 6, 1) && Locates(starts, |c|, m.msgsz, 8, 4)
    && (respOff > 0 ==> respOff >= HDR_SZ && Locates(starts, |c|, m.resp, respOff, 1))
  }

  /** It stays open while the message grows behind it. */
  lemma HeaderKept(c: Stream, s: seq<nat>, c': Stream, s': seq<nat>, m: Marks, respOff: nat, isServer: bool, typ: byte,
                   order: Order)
    requires HeaderAt(c, s, m, respOff, isServer, typ, order) && Grown(s, |c|, s', |c'|)
    requires |c| <= |c'| && c'[..HDR_SZ] == c[..HDR_SZ]
    ensures HeaderAt(c', s', m, respOff, isServer, typ, order)
  {
    hide Allowed;
    SameHead(c', c, HDR_SZ, 4);
    forall i | 0 <= i < HDR_SZ ensures c'[i] == c[i] {
      assert c'[i] == c'[..HDR_SZ][i] && c[i] == c[..HDR_SZ][i];
    }
  }

  // ---- segments of octets ----

  /** Coding a segment, and a fragment behind it if it is cut, leaves what is to come of the octets the same. */
  lemma CodeSegment(f: Flow, cfg: Config, rest: seq<byte>, k: nat, cut: bool)
    requires Legal(cfg) && k <= |rest| && (cfg.on ==> |f.open| + k <= cfg.maxlen)
    requires cut ==> cfg.on && |f.open| + k == cfg.maxlen && k < |rest|
    ensures var g := Flow(f.sent, f.open + Cells(rest[..k]));
            var h := if cut then Break(g, cfg) else g;
            (cfg.on ==> |h.open| <= cfg.maxlen) && PutBytes(h, cfg, rest[k..]) == PutBytes(f, cfg, rest)
  {
    hide PutBytes, Break;
    assert rest[..k] + rest[k..] == rest;
    if cut {
      PutBytesCut(f, cfg, rest[..k], rest[k..]);
    } else {
      PutBytesSegment(f, cfg, rest[..k], rest[k..]);
    }
  }

  lemma PutNoBytes(f: Flow, cfg: Config, s: seq<byte>)
    requires Legal(cfg) && (cfg.on ==> |f.open| <= cfg.maxlen) && s == []
    ensures PutBytes(f, cfg, s) == f
  {
    assert f.open + Cells([]) == f.open;
  }

  // ---- allocation ----

  /** The buffer callbacks of the caller, with a ledger of what went out and what came back. */
  class Allocator {
    const reliable: bool
    const extra: nat -> nat
    ghost var granted: set<Buffer>
    ghost var returned: set<Buffer>

    constructor (reliable: bool, extra: nat -> nat)
      ensures this.reliable == reliable && this.extra == extra && granted == {} && returned == {}
    {
      this.reliable, this.extra := reliable, extra;
      granted, returned := {}, {};
    }

    /** How long a block is that is granted for n octets: for a multiple of eight, another. */
    function LengthFor(n: nat): (m: nat)
      ensures m >= n && m % 8 == n % 8
    {
      n + 8 * extra(n)
    }

    /** An 8-aligned block of at least the length asked for, or none if the caller has run out. */
    method Alloc(n: nat) returns (b: Buffer?)
      requires n % 8 == 0
      modifies this
      ensures returned == old(returned)
      ensures b == null ==> granted == old(granted) && !reliable
      ensures b != null ==> fresh(b) && fresh(b.data) && b.pos == 0 && b.len == b.data.Length == LengthFor(n)
      ensures b != null ==> granted == old(granted) + {b}
    {
      var refuse: bool := *;
      if refuse && !reliable {
        return null;
      }
      b := new Buffer(LengthFor(n));
      granted := granted + {b};
    }

    method Release(b: Buffer)
      requires b in granted && b !in returned
      modifies this
      ensures returned == old(returned) + {b} && granted == old(granted)
    {
      returned := returned + {b};
    }
  }

  // ---- the coder ----

  /** The engine, if there is one: for frames. */
  function One(e: Engine?): set<Engine> {
    if e == null then {} else {e}
  }

  /** CDRCoderT. The buffer list is `bufs` with `cur` the current one; there is none when the list is empty. */
  class Coder {
    const order: Order
    const alloc: Allocator?
    const canFree: bool
    var mode: Mode
    var bufs: seq<Buffer>
    var cur: nat
    var buflen: nat
    var sex: nat
    var allocMin: nat
    var maxlen: nat
    var giop: Engine?
    ghost var owner: Engine?
    ghost var cells: Stream
    ghost var starts: seq<nat>
    ghost var lost: set<Buffer>
    ghost var Repr: set<object>

    /** CDRInit, with the callbacks registered. */
    constructor (order: Order, sex: nat, allocMin: nat, alloc: Allocator?, canFree: bool)
      requires alloc != null ==> alloc.granted == alloc.returned
      ensures Shape() && bufs == [] && mode == NoMode && Enc(0) && cells == []
      ensures this.order == order && this.alloc == alloc && this.canFree == canFree && this.sex == sex
      ensures this.allocMin == if allocMin < 8 then 8 else allocMin
      ensures maxlen == 0 && giop == null && owner == null && Repr == {this} + (if alloc == null then {} else {alloc})
    {
      this.order, this.alloc, this.canFree := order, alloc, canFree;
      mode, bufs, cur, buflen, maxlen := NoMode, [], 0, 0, 0;
      giop, owner := null, null;
      this.sex := sex;
      this.allocMin := if allocMin < MIN_BUFSZ then MIN_BUFSZ else allocMin;
      cells, starts, lost := [], [0], {};
      new;
      Repr := {this} + if alloc == null then {} else {alloc};
    }

    ghost predicate Shape()
      reads this, Repr
    {
      Sound() && (alloc != null ==> Ledger())
    }

    /** Shape without the ledger. */
    ghost predicate Sound()
      reads this, Repr
    {
      && this in Repr && (alloc != null ==> alloc in Repr)
      && Owned(bufs, Repr)
      && (forall i :: 0 <= i < |bufs| ==> bufs[i].len <= bufs[i].data.Length)
      && (if bufs == [] then cur == 0 && buflen == 0 else cur < |bufs|)
      && (alloc != null ==> Geometry())
    }

    /** Buffers are multiples of eight octets. */
    ghost predicate Geometry()
      reads this`bufs, bufs`len
    {
      forall i :: 0 <= i < |bufs| ==> Whole(bufs[i].len)
    }

    /**
     * The list holds exactly the buffers that are out: granted, not yet returned and, with a way to return them, none
     * lost.
     */
    ghost predicate Ledger()
      requires alloc != null
      reads this`bufs, this`lost, alloc
    {
      alloc.granted - alloc.returned == Listed(bufs) + lost && (canFree ==> lost == {})
    }

    predicate Reliable() {
      alloc != null && alloc.reliable
    }

    ghost predicate Past()
      requires Sound()
      reads this, Repr
    {
      cur < |bufs| && PastOf(bufs[..cur], starts)
    }

    /** The coder is encoding: `cells` is the stream in its active buffers, the last k octets still to be written. */
    ghost predicate Enc(k: nat)
      reads this, Repr
    {
      && Shape() && buflen == |cells|
      && (bufs == [] ==> k == 0)
      && (bufs != [] ==> Past() && bufs[cur].Holds(k) && cells == Concat(bufs[..cur]) + bufs[cur].part)
    }

    /** As when encoding, with the current buffer full to its end. */
    ghost predicate Full()
      reads this, Repr
    {
      && Shape() && buflen == |cells| && |cells| % 8 == 0
      && (bufs != [] ==>
            && Past() && bufs[cur].Content() && bufs[cur].used == bufs[cur].len
            && cells == Concat(bufs[..cur]) + bufs[cur].part)
    }

    // ---- stores ----

    method Store(bs: seq<byte>)
      requires bufs != [] && Enc(|bs|)
      modifies this`cells, bufs[cur], bufs[cur].data
      ensures Enc(0)
      ensures cells == old(cells)[..|old(cells)| - |bs|] + Cells(bs)
      ensures bufs[cur].used == old(bufs[cur].used) && bufs[cur].len == old(bufs[cur].len)
    {
      hide Concat, Matches, Cells, PastOf, Coder.Geometry, Coder.Ledger;
      var b := bufs[cur];
      b.Store(bs);
      cells := cells[..|cells| - |bs|] + Cells(bs);
    }

    method Append(bs: seq<byte>)
      requires bufs != [] && Enc(0) && bufs[cur].used + |bs| <= bufs[cur].len
      modifies this`cells, this`buflen, bufs[cur], bufs[cur].data
      ensures Enc(0)
      ensures cells == old(cells) + Cells(bs)
      ensures bufs[cur].used == old(bufs[cur].used) + |bs| && bufs[cur].len == old(bufs[cur].len)
      ensures old(Evenly()) ==> Evenly()
    {
      hide Concat, Matches, Cells, PastOf, Coder.Geometry, Coder.Ledger, EndsAt;
      var b := bufs[cur];
      b.Append(bs);
      buflen := buflen + |bs|;
      cells := cells + Cells(bs);
    }

    method Reserve(d: nat, n: nat)
      requires bufs != [] && Enc(0) && bufs[cur].used + d + n <= bufs[cur].len
      modifies this`cells, this`buflen, bufs[cur]
      ensures Enc(n)
      ensures cells == old(cells) + Pads(d) + Pads(n)
      ensures bufs[cur].used == old(bufs[cur].used) + d + n && bufs[cur].len == old(bufs[cur].len)
      ensures old(Evenly()) ==> Evenly()
    {
      hide Concat, Matches, Pads, PastOf, Coder.Geometry, Coder.Ledger, EndsAt;
      var b := bufs[cur];
      b.Reserve(d, n);
      buflen := buflen + d + n;
      cells := cells + Pads(d) + Pads(n);
    }

    method Close(d: nat)
      requires bufs != [] && Enc(0)
      modifies this`cells, this`buflen, bufs[cur]
      ensures Shape() && cells == old(cells) + Pads(d) && bufs[cur].len == old(bufs[cur].len)
      ensures old(bufs[cur].used) + d == old(bufs[cur].len) && Whole(old(bufs[cur].len)) ==> Full()
    {
      hide Concat, Matches, Pads, PastOf, Coder.Geometry, Coder.Ledger;
      PastEnds(bufs[..cur], starts);
      var b := bufs[cur];
      b.Close(d);
      buflen := buflen + d;
      cells := cells + Pads(d);
    }

    /** Overwrite the octets a pointer leads to. */
    method Poke(loc: Loc, ghost at: nat, bs: seq<byte>)
      requires bufs != [] && loc.buf <= cur
      requires Enc(0) && Locates(starts, |cells|, loc, at, |bs|)
      modifies this`cells, bufs[loc.buf], bufs[loc.buf].data
      ensures Enc(0)
      ensures cells == Patch(old(cells), at, bs)
      ensures forall i :: 0 <= i < |bufs| ==> bufs[i].len == old(bufs[i].len) && bufs[i].used == old(bufs[i].used)
    {
      hide Patch, PastOf, Flat, Concat, Locates, Owned, Buffer.Content, Buffer.Holds, Coder.Shape, Coder.Enc;
      PokeReady(loc, at, |bs|);
      ghost var p, part := Parts(bufs[..cur]), bufs[cur].part;
      PokeBuffer(loc.buf, loc.off, at, bs);
      Poked(p, part, loc, bs);
    }

    /** The octet a pointer leads to. */
    method Peek(loc: Loc, ghost at: nat) returns (b: byte)
      requires bufs != [] && Enc(0) && Locates(starts, |cells|, loc, at, 1)
      ensures at < |cells| && (cells[at].Data? ==> b == cells[at].b)
    {
      hide Flat, Concat, Owned, Coder.Geometry, Coder.Ledger;
      PastEnds(bufs[..cur], starts);
      PokeReady(loc, at, 1);
      b := bufs[loc.buf].data[loc.off];
      InBuffer(loc, at);
    }

    /** The stream at a pointer's offset is that buffer's part there. */
    lemma InBuffer(loc: Loc, at: nat)
      requires bufs != [] && loc.buf <= cur && Sound() && Past() && loc.off < |bufs[loc.buf].part|
      requires cells == Flat(Parts(bufs[..cur])) + bufs[cur].part
      requires at == |Flat(Parts(bufs[..cur])[..loc.buf])| + loc.off
      ensures at < |cells| && cells[at] == bufs[loc.buf].part[loc.off]
    {
      hide Flat, Owned, PastOf, Coder.Geometry;
      var p := Parts(bufs[..cur]) + [bufs[cur].part];
      FlatLast(Parts(bufs[..cur]), bufs[cur].part);
      assert p[..loc.buf] == Parts(bufs[..cur])[..loc.buf];
      FlatAt(p, loc.buf, loc.off);
    }

    method PokeBuffer(i: nat, off: nat, ghost at: nat, bs: seq<byte>)
      requires Shape() && i <= cur < |bufs| && bufs[i].Content() && off + |bs| <= bufs[i].used && at + |bs| <= |cells|
      modifies this`cells, bufs[i], bufs[i].data
      ensures bufs[i].pos == old(bufs[i].pos) && bufs[i].used == old(bufs[i].used) && bufs[i].len == old(bufs[i].len)
      ensures cells == Patch(old(cells), at, bs)
      ensures Shape() && bufs[i].Content() && bufs[i].part == Patch(old(bufs[i].part), off, bs)
      ensures forall k :: old(bufs[cur].Holds(k)) ==> bufs[cur].Holds(k)
      ensures forall j: nat :: j < |bufs| && j != i ==>
                bufs[j].part == old(bufs[j].part) && (old(bufs[j].Content()) ==> bufs[j].Content())
                && bufs[j].pos == old(bufs[j].pos) && bufs[j].used == old(bufs[j].used)
                      && bufs[j].len == old(bufs[j].len)
    {
      hide Matches, Patch, Coder.Geometry, Coder.Ledger;
      bufs[i].Poke(off, bs);
      cells := Patch(cells, at, bs);
    }

    /** The full buffers before the current one, their parts spelt out. */
    ghost predicate PastIs(p: seq<Stream>)
      requires Sound()
      reads this, Repr
    {
      && cur < |bufs| && |p| == cur
      && |starts| == cur + 1 && starts[0] == 0 && starts[cur] % 8 == 0 && starts[cur] == |Flat(p)|
      && (forall i :: 0 <= i < cur ==> bufs[i].Content() && bufs[i].used == bufs[i].len)
      && (forall i :: 0 <= i < cur ==> starts[i + 1] == starts[i] + bufs[i].len)
    }

    lemma PokeReady(loc: Loc, at: nat, n: nat)
      requires bufs != [] && loc.buf <= cur
      requires Enc(0) && Locates(starts, |cells|, loc, at, n)
      ensures bufs[loc.buf].Content() && loc.off + n <= bufs[loc.buf].used == |bufs[loc.buf].part| && at + n <= |cells|
      ensures at == |Flat(Parts(bufs[..cur])[..loc.buf])| + loc.off
      ensures Shape() && cur < |bufs| && bufs[cur].Holds(0) && buflen == |cells|
      ensures PastIs(Parts(bufs[..cur])) && cells == Flat(Parts(bufs[..cur])) + bufs[cur].part
    {
      hide Matches, Flat, Owned;
      StartsCount(bufs[..cur], starts, loc.buf);
      assert Parts(bufs[..cur])[..loc.buf] == Parts(bufs[..cur][..loc.buf]);
      PastEnds(bufs[..cur], starts);
    }

    lemma Poked(p: seq<Stream>, part: Stream, loc: Loc, bs: seq<byte>)
      requires Shape() && PastIs(p) && loc.buf <= cur && loc.off + |bs| <= |(p + [part])[loc.buf]|
      requires forall i :: 0 <= i < cur && i != loc.buf ==> bufs[i].part == p[i]
      requires loc.buf < cur ==> bufs[cur].part == part
      requires bufs[loc.buf].part == Patch((p + [part])[loc.buf], loc.off, bs)
      requires bufs[cur].Holds(0) && buflen == |cells|
      requires |Flat(p[..loc.buf])| + loc.off + |bs| <= |Flat(p) + part|
      requires cells == Patch(Flat(p) + part, |Flat(p[..loc.buf])| + loc.off, bs)
      ensures Enc(0)
    {
      hide Matches, Flat, Owned, Patch, Coder.Geometry;
      var q := Parts(bufs[..cur]);
      assert q + [bufs[cur].part] == (p + [part])[loc.buf := Patch((p + [part])[loc.buf], loc.off, bs)];
      PatchedPart(p, q, part, bufs[cur].part, loc, bs);
    }

    // ---- the buffer list ----

    /** CDRReset */
    method Reset(inUse: bool) returns (st: CdrStatus)
      requires Shape()
      modifies this`buflen, bufs
      ensures Shape()
      ensures bufs == [] ==> st == CDR_FAIL && buflen == old(buflen)
      ensures bufs != [] ==> st == CDR_OK && bufs[cur].Holds(0) && bufs[cur].used == 0
      ensures bufs != [] ==> buflen == if inUse && old(buflen) >= old(bufs[cur].used)
                                       then old(buflen) - old(bufs[cur].used) else old(buflen)
      ensures forall i :: 0 <= i < |bufs| ==> bufs[i].len == old(bufs[i].len)
      ensures AtStart() ==> Enc(0)
    {
      hide Matches;
      if bufs == [] {
        return CDR_FAIL;
      }
      if inUse && buflen >= bufs[cur].used {
        buflen := buflen - bufs[cur].used;
      }
      bufs[cur].Reset();
      st := CDR_OK;
    }

    /** Nothing coded yet. */
    ghost predicate AtStart()
      reads this
    {
      cur == 0 && buflen == 0 && cells == [] && starts == [0]
    }

    /** CDRRewind */
    method Rewind(resetLength: bool)
      requires Shape()
      modifies this`cur, this`buflen, this`cells, this`starts
      ensures Shape() && cur == 0
      ensures buflen == if resetLength then 0 else old(buflen)
      ensures resetLength ==> AtStart()
    {
      cur := 0;
      if resetLength {
        buflen := 0;
      }
      cells, starts := [], [0];
    }

    /** The length CDRAddBuffer asks for: at least eight, rounded up to a multiple of eight. */
    function AskFor(): (n: nat)
      reads this`allocMin
      ensures n >= allocMin && Whole(n) && (n == 8 || n < allocMin + 8)
    {
      if allocMin < MIN_BUFSZ then MIN_BUFSZ else allocMin + AlignDelta(allocMin, 8)
    }

    /** The length of the buffer CDRAddBuffer then gets. */
    function NewLen(): (n: nat)
      reads this`allocMin
      ensures n >= AskFor() && Whole(n)
    {
      if alloc == null then AskFor() else alloc.LengthFor(AskFor())
    }

    /** A buffer that may join the list: empty, ours to take and, unless it will be trimmed, a multiple of eight. */
    ghost predicate Admissible(b: Buffer)
      reads this, b, b.data, alloc
    {
      && b.pos == 0 && b.len <= b.data.Length && b !in Repr && b.data !in Repr
      && (alloc != null ==> b !in alloc.granted && b !in alloc.returned)
      && (alloc != null && mode != Encoding ==> Whole(b.len))
    }

    /** The buffer CDRAddBuffer will insert, trimmed to a multiple of eight when encoding; null if it cannot. */
    method Obtain(given: Buffer?) returns (b: Buffer?)
      requires Shape() && (given != null ==> Admissible(given))
      modifies alloc, given
      ensures b == null ==> Shape()
      ensures alloc != null ==> alloc.returned == old(alloc.returned) && old(alloc.granted) <= alloc.granted
      ensures given == null && Reliable() ==> b != null
      ensures given == null && alloc == null ==> b == null
      ensures b != null ==> Sound() && b !in Repr && b.data !in Repr && b.pos == 0 && b.len <= b.data.Length
      ensures b != null ==> if given == null then fresh(b) && fresh(b.data) && b.len == NewLen() else b == given
      ensures given != null ==> (b == null <==> mode == Encoding && old(given.len) < 8)
      ensures given != null && b != null ==>
                given.len == old(given.len) - if mode == Encoding then old(given.len) % 8 else 0
      ensures b != null && alloc != null ==> Whole(b.len) && alloc.granted - alloc.returned == Listed(bufs) + lost + {b}
      ensures b != null && alloc != null && canFree ==> lost == {}
    {
      hide Matches, Coder.Geometry;
      b := given;
      if b == null {
        if alloc == null {
          return null;
        }
        b := alloc.Alloc(AskFor());
        if b == null {
          return null;
        }
      }
      if mode == Encoding {
        if b.len < MIN_BUFSZ {
          return null;
        }
        var delta := AlignDelta(b.pos + b.len, 8);
        TrimmedIsWhole(b.len);
        if delta != 0 {
          b.len := b.len - (MIN_BUFSZ - delta);
        }
      }
      if given != null && alloc != null {
        alloc.granted := alloc.granted + {b};
      }
    }

    /** Link b in behind the current buffer, any trailing buffer following it, and reset it. */
    method Insert(b: Buffer)
      requires alloc != null ==>
                Whole(b.len) && alloc.granted - alloc.returned == Listed(bufs) + lost + {b} && (canFree ==> lost == {})
      requires Sound() && b !in Repr && b.data !in Repr && b.len <= b.data.Length
      modifies this`bufs, this`cur, this`buflen, this`cells, this`starts, this`Repr, b
      ensures Shape() && Repr == old(Repr) + {b, b.data}
      ensures Added(old(bufs), old(cur), old(buflen)) && bufs[cur] == b && b.len == old(b.len)
      ensures if old(bufs) == [] then bufs == [b] && cur == 0
              else bufs == old(bufs)[..old(cur) + 1] + [b] + old(bufs)[old(cur) + 1..] && cur == old(cur) + 1
      ensures old(bufs) != [] ==> cells == old(cells) && starts == old(starts) + [old(buflen)]
      ensures old(bufs) == [] ==> cells == [] && starts == [0]
    {
      hide Matches, Owned, Listed, Inserted, Whole;
      InsertedOwned(bufs, cur, b, Repr);
      InsertedMembers(bufs, cur, b);
      InsertedKeeps(bufs, cur, b);
      Regroup(Listed(bufs), lost, {b});
      if bufs == [] {
        bufs, cur, buflen := [b], 0, 0;
        cells, starts := [], [0];
      } else {
        bufs := bufs[..cur + 1] + [b] + bufs[cur + 1..];
        cur := cur + 1;
        starts := starts + [buflen];
      }
      Repr := Repr + {b, b.data};
      b.Reset();
    }

    /** A new empty buffer has become the current one. */
    ghost predicate Added(was: seq<Buffer>, at: nat, total: nat)
      requires Sound()
      reads this, Repr
    {
      && bufs != [] && bufs == Inserted(was, at, bufs[cur]) && bufs[cur].Holds(0) && bufs[cur].used == 0
      && cur == (if was == [] then 0 else at + 1)
      && buflen == (if was == [] then 0 else total)
    }

    lemma AddedEnc(was: seq<Buffer>, at: nat, s: seq<nat>)
      requires Shape() && Added(was, at, |cells|) && buflen == |cells| && |cells| % 8 == 0
      requires was != [] ==> at < |was| && PastOf(was[..at], s) && was[at].Content() && was[at].used == was[at].len
                             && cells == Concat(was[..at]) + was[at].part && starts == s + [|cells|]
      requires was == [] ==> cells == [] && starts == [0]
      ensures Enc(0)
    {
      hide Matches, Owned, Coder.Geometry, PastOf;
      if was == [] {
        assert bufs[..cur] == [];
        NoPast();
      } else {
        PastEnds(was[..at], s);
        PastNext(was[..at], s, was[at]);
        assert bufs[..cur] == was[..at] + [was[at]];
        assert bufs[cur].part == [];
      }
    }

    /** CDRAddBuffer: put a new buffer behind the current one, the caller's own or one from the callback. */
    method AddBuffer(given: Buffer?) returns (st: CdrStatus)
      requires Shape() && (given != null ==> Admissible(given))
      modifies this`bufs, this`cur, this`buflen, this`cells, this`starts, this`Repr, alloc, given
      ensures Shape() && old(Repr) <= Repr
      ensures if given == null then fresh(Repr - old(Repr)) else Repr <= old(Repr) + {given, given.data}
      ensures st == CDR_OK || st == CDR_FAIL
      ensures alloc != null ==> alloc.returned == old(alloc.returned) && old(alloc.granted) <= alloc.granted
      ensures st == CDR_FAIL ==> bufs == old(bufs) && cur == old(cur) && buflen == old(buflen) && cells == old(cells)
      ensures st == CDR_OK ==>
                && Added(old(bufs), old(cur), old(buflen))
                && starts == (if old(bufs) == [] then [0] else old(starts) + [old(buflen)])
      ensures st == CDR_OK ==>
                if given == null then fresh(bufs[cur]) && bufs[cur].len == NewLen() else bufs[cur] == given
      ensures st == CDR_OK ==>
                && bufs == (if old(bufs) == [] then [bufs[cur]]
                            else old(bufs)[..old(cur) + 1] + [bufs[cur]] + old(bufs)[old(cur) + 1..])
                && cur == (if old(bufs) == [] then 0 else old(cur) + 1) && bufs[cur].used == 0
      ensures given != null ==> (st == CDR_FAIL <==> mode == Encoding && old(given.len) < 8)
      ensures given != null && st == CDR_OK ==>
                given.len == old(given.len) - if mode == Encoding then old(given.len) % 8 else 0
      ensures st == CDR_OK && old(Full()) ==> Enc(0) && cells == old(cells)
      ensures st == CDR_OK && old(bufs) == [] ==> cells == []
      ensures given == null && Reliable() ==> st == CDR_OK
      ensures given == null && alloc == null ==> st == CDR_FAIL
    {
      hide Matches, Coder.Geometry, Listed, Concat, PastOf, Inserted;
      ghost var was, at, s, full := bufs, cur, starts, Full();
      var b := Obtain(given);
      if b == null {
        return CDR_FAIL;
      }
      Insert(b);
      if full {
        AddedEnc(was, at, s);
      }
      st := CDR_OK;
    }

    // ---- encoding ----

    /** The flow this coder is part of: what its engine has sent, and the stream being coded. */
    ghost function Flow(): Flow
      reads this, One(owner)`sent
    {
      Fragment.Flow(if owner == null then [] else owner.sent, cells)
    }

    ghost function Cfg(): Config
      reads this, One(giop)`afrag, One(owner)`major, One(owner)`minor
    {
      Config(giop != null && giop.afrag.on, maxlen, order,
             if owner == null then 0 else owner.major, if owner == null then 0 else owner.minor)
    }

    /** The engine that uses this coder, if any, is its own and its record of messages is sound. */
    ghost predicate Linked()
      reads this, One(giop)`afrag, One(owner)`sent, One(owner)`handed
    {
      && (owner != null ==> owner.coder == this && owner !in Repr && Reliable() && owner.Trace())
      && (giop != null ==> giop == owner && !giop.afrag.str)
    }

    /** Encoding, and able to make room for n aligned octets. */
    ghost predicate Ready(n: Size)
      reads this, Repr, giop, owner
    {
      && Enc(0) && mode == Encoding && Linked() && Legal(Cfg())
      && (Breaks(Flow(), Cfg(), n) ==>
            owner != null && owner.coder == this && owner.HeaderOpen() && Fragmentable(owner.msgOut.typ))
    }

    twostate predicate SameCoder()
      reads this, bufs
    {
      mode == old(mode) && SameSettings()
    }

    twostate predicate SameSettings()
      reads this, bufs
    {
      && sex == old(sex) && allocMin == old(allocMin) && maxlen == old(maxlen)
      && giop == old(giop) && owner == old(owner)
      && (old(bufs) != [] ==> bufs != [] && bufs[0] == old(bufs[0]) && bufs[0].len == old(bufs[0].len))
      && (old(bufs) == [] && bufs != [] ==> bufs[0].len == NewLen())
      && (old(Evenly()) ==> Evenly())
    }

    /** The lengths that decide where octets go. */
    function Layout(): (g: Segments.Geometry)
      reads this, bufs
    {
      Segments.Geometry(if bufs == [] then NewLen() else bufs[0].len, NewLen(), maxlen)
    }

    /** How far coding has got. */
    ghost function Spot(): Place
      requires cur < |bufs|
      reads this, bufs
    {
      Place(|cells|, bufs[cur].used, bufs[cur].len)
    }

    /** All buffers in use behind the first one have the length of a new one. */
    ghost predicate Evenly()
      reads this, bufs
    {
      alloc != null && cur < |bufs| ==> Even(bufs[0].len, NewLen(), Spot())
    }

    /** The engine is as a coding call may leave it: its open header and its settings have survived. */
    twostate predicate SameEngine()
      reads this, owner, bufs
    {
      old(owner) != null && old(owner) == owner ==>
        owner.Steady() && (owner.coder == this && old(owner.HeaderOpen()) ==> owner.HeaderOpen())
    }

    /** The engine is as it was. */
    twostate predicate OwnerUntouched()
      reads this, owner
    {
      old(owner) != null && old(owner) == owner ==> unchanged(owner)
    }

    /** A fragment was not sent, by a transport that may fail, or the engine's revision has none. */
    ghost predicate CutFailed()
      reads this, owner
    {
      && owner != null
      && (|| (owner.status == GIOP_ETRANSPORT && !owner.sends)
          || (owner.status == GIOP_EREVISION && (owner.major < 1 || owner.minor < 1)))
    }

    twostate predicate SameState()
      reads this, owner
    {
      old(owner) != null && old(owner) == owner ==> owner.state == old(owner.state)
    }

    /** Where an aligned datum does not fit, its padding reaches exactly to the end of the current buffer. */
    lemma SpillPads(d: nat, sz: Size)
      requires Enc(0) && bufs != [] && alloc != null && d == AlignDelta(|cells|, sz)
      requires bufs[cur].used + d + sz > bufs[cur].len
      ensures bufs[cur].used + d == bufs[cur].len && Whole(bufs[cur].len)
    {
      hide Matches, Owned, Coder.Ledger;
      PastEnds(bufs[..cur], starts);
      BaseAligns(starts[cur], bufs[cur].used, sz);
      SpillFills(bufs[cur].used, bufs[cur].len, sz);
    }

    /** Get the first buffer. */
    method FirstBuffer() returns (st: CdrStatus)
      requires Shape() && bufs == []
      modifies this`bufs, this`cur, this`buflen, this`cells, this`starts, this`Repr, alloc
      ensures Shape() && old(Repr) <= Repr && fresh(Repr - old(Repr)) && (st == CDR_OK || st == CDR_FAIL)
      ensures Reliable() ==> st == CDR_OK
      ensures st == CDR_OK ==>
                && Enc(0) && cells == [] && buflen == 0 && starts == [0] && cur == 0 && |bufs| == 1 && fresh(bufs[0])
                && bufs[0].Holds(0) && bufs[0].used == 0 && bufs[0].len == NewLen() && Evenly()
      ensures st == CDR_FAIL ==> bufs == [] && cells == old(cells) && Evenly()
      ensures alloc != null ==> alloc.returned == old(alloc.returned) && old(alloc.granted) <= alloc.granted
    {
      hide Matches, Owned, Coder.Ledger, Coder.Geometry, Even;
      st := AddBuffer(null);
      if st == CDR_OK {
        NoPast();
        assert bufs[..0] == [];
        FirstEven();
      }
    }

    /** Pad the current buffer to its end. */
    method FillUp(d: nat, sz: Size)
      requires Enc(0) && bufs != [] && d == AlignDelta(|cells|, sz)
      requires bufs[cur].used + d + sz > bufs[cur].len
      modifies this`cells, this`buflen, bufs[cur]
      ensures Shape() && cells == old(cells) + Pads(d) && bufs[cur].len == old(bufs[cur].len)
      ensures alloc != null ==> Full() && bufs[cur].used == bufs[cur].len == old(bufs[cur].used) + d
    {
      hide Matches, Owned, PastOf, Concat, Coder.Ledger, Pads;
      if alloc != null {
        SpillPads(d, sz);
      }
      Close(d);
    }

    /** Go on in a new buffer behind the full one. */
    method NextBuffer() returns (st: CdrStatus)
      requires Shape() && bufs != [] && (alloc != null ==> Full())
      modifies this`bufs, this`cur, this`buflen, this`cells, this`starts, this`Repr, alloc
      ensures Shape() && fresh(Repr - old(Repr)) && (st == CDR_OK || st == CDR_FAIL) && (Reliable() ==> st == CDR_OK)
      ensures cells == old(cells) && bufs != [] && bufs[0] == old(bufs[0])
      ensures st == CDR_OK ==>
                alloc != null && Enc(0) && fresh(bufs[cur]) && bufs[cur].len == NewLen() && bufs[cur].used == 0
      ensures st == CDR_OK ==> Grown(old(starts), |old(cells)|, starts, |cells|)
      ensures st == CDR_FAIL ==> bufs == old(bufs) && cur == old(cur)
    {
      hide Matches, Owned, PastOf, Concat, Coder.Ledger;
      st := AddBuffer(null);
    }

    /** Pad the current buffer to its end and add a new one. */
    method Spill(d: nat, sz: Size) returns (st: CdrStatus)
      requires Enc(0) && bufs != [] && d == AlignDelta(|cells|, sz)
      requires bufs[cur].used + d + sz > bufs[cur].len
      modifies this`bufs, this`cur, this`buflen, this`cells, this`starts, this`Repr, alloc, bufs[cur]
      ensures Shape() && fresh(Repr - old(Repr)) && (st == CDR_OK || st == CDR_FAIL) && (Reliable() ==> st == CDR_OK)
      ensures st == CDR_OK ==>
                && Enc(0) && bufs != [] && cells == old(cells) + Pads(d)
                && bufs[cur].len == NewLen() && bufs[cur].used == 0 && fresh(bufs[cur])
      ensures st == CDR_OK ==> Grown(old(starts), |old(cells)|, starts, |cells|)
      ensures bufs != [] && bufs[0] == old(bufs[0]) && bufs[0].len == old(bufs[0].len)
      ensures old(Evenly()) ==> Evenly()
    {
      hide Matches, Owned, PastOf, Concat, Coder.Enc, Coder.Full, Coder.Shape, Pads, Even;
      EncInRepr(0);
      if alloc != null && Evenly() {
        EvenNext(bufs[0].len, NewLen(), Spot());
      }
      FillUp(d, sz);
      st := NextBuffer();
    }

    /** What is left of the current buffer. */
    ghost function Left(): int
      reads this, bufs
    {
      if cur < |bufs| then bufs[cur].len - bufs[cur].used else -1
    }

    /** Coding went on in the same buffer. */
    twostate predicate Unmoved()
      reads this, bufs
    {
      bufs == old(bufs) && cur == old(cur) && (cur < |bufs| ==> bufs[cur].len == old(bufs[cur].len))
    }

    /** The current buffer is full. */
    predicate NoRoom()
      reads this, bufs
    {
      cur < |bufs| && bufs[cur].used >= bufs[cur].len
    }

    /** The part of cdr_align that finds room in the buffers: pad, spill to a new buffer if need be, set n aside. */
    method MakeRoom(fromCurr: nat, n: nat, sz: Size) returns (st: CdrStatus)
      requires Enc(0) && (n == sz || (n == 0 && sz == 1)) && fromCurr == AlignDelta(|cells|, sz)
      modifies this`bufs, this`cur, this`buflen, this`cells, this`starts, this`Repr, alloc, bufs
      ensures Shape() && fresh(Repr - old(Repr)) && (st == CDR_OK || st == CDR_FAIL) && (Reliable() ==> st == CDR_OK)
      ensures st == CDR_OK ==> Enc(n) && bufs != [] && bufs[cur].used >= n
      ensures st == CDR_OK ==> cells == old(cells) + Pads(fromCurr) + Pads(n)
      ensures st == CDR_OK && old(bufs) != [] ==> Grown(old(starts), |old(cells)|, starts, |cells|)
      ensures st == CDR_OK && old(NoRoom()) ==> bufs[cur].used == n && bufs[cur].len == NewLen()
      ensures old(bufs) != [] ==> bufs != [] && bufs[0] == old(bufs[0]) && bufs[0].len == old(bufs[0].len)
      ensures old(bufs) == [] && bufs != [] ==> bufs[0].len == NewLen()
      ensures old(Left()) >= fromCurr + sz ==> st == CDR_OK && Unmoved() && Left() == old(Left()) - fromCurr - n
      ensures old(Evenly()) ==> Evenly()
    {
      hide Coder.Shape, Coder.Enc, Coder.Evenly, Owned, Pads;
      EncInRepr(0);
      var d := fromCurr;
      if bufs == [] {
        st := FirstBuffer();
        if st != CDR_OK {
          return CDR_FAIL;
        }
      } else {
        var free := bufs[cur].len - bufs[cur].used;
        if d + sz > free {
          st := Spill(d, sz);
          if st != CDR_OK {
            return CDR_FAIL;
          }
          d := 0;
        }
      }
      Reserve(d, n);
      EncInRepr(n);
      st := CDR_OK;
    }

    lemma InRepr()
      requires Sound()
      ensures forall b :: b in bufs ==> b in Repr && b.data in Repr
    {}

    lemma EncInRepr(k: nat)
      requires Enc(k)
      ensures Shape() && this in Repr && (alloc != null ==> alloc in Repr) && buflen == |cells|
      ensures forall b :: b in bufs ==> b in Repr && b.data in Repr
      ensures forall i :: 0 <= i < |bufs| ==> bufs[i] in Repr && bufs[i].data in Repr
      ensures (bufs != [] ==> cur < |bufs| && bufs[cur].used <= bufs[cur].len) && (cells != [] ==> bufs != [])
    {
      hide Matches, Concat, PastOf, Coder.Ledger, Coder.Geometry;
    }

    /** Make room; the engine and its open header are left as they are. */
    method FindRoom(fromCurr: nat, n: nat, sz: Size) returns (st: CdrStatus)
      requires Enc(0) && Linked() && (n == sz || (n == 0 && sz == 1)) && fromCurr == AlignDelta(|cells|, sz)
      modifies Repr
      ensures Shape() && Linked() && fresh(Repr - old(Repr)) && SameCoder() && OwnerUntouched() && SameEngine()
      ensures st == CDR_OK || (st == CDR_FAIL && !Reliable())
      ensures st == CDR_OK ==> Enc(n) && bufs != [] && bufs[cur].used >= n && Cfg() == old(Cfg())
      ensures st == CDR_OK ==> Flow() == Fragment.Flow(old(Flow()).sent, old(cells) + Pads(fromCurr) + Pads(n))
      ensures st == CDR_OK && old(NoRoom()) ==> bufs[cur].used == n && bufs[cur].len == NewLen()
      ensures old(Left()) >= fromCurr + sz ==> st == CDR_OK && Unmoved() && Left() == old(Left()) - fromCurr - n
    {
      hide Coder.Shape, Coder.Enc, Coder.Evenly, AlignDelta, HeaderAt, Grown, Engine.Trace, Pads;
      EncInRepr(0);
      ghost var c, s, open := cells, starts, owner != null && owner.HeaderOpen();
      if open {
        OpenLength();
      }
      st := MakeRoom(fromCurr, n, sz);
      if open && st == CDR_OK {
        assert cells[..HDR_SZ] == c[..HDR_SZ];
        HeaderKept(c, s, cells, starts, owner.marks, owner.respOff, owner.isServer, owner.msgOut.typ, order);
      }
    }

    lemma OpenLength()
      requires owner != null && owner.coder == this && owner.HeaderOpen()
      ensures |cells| >= HDR_SZ
    {}

    /** cdr_align when encoding: send a fragment if the datum would pass the limit, then make room for it. */
    method AlignEncode(n: nat, sz: Size) returns (st: CdrStatus)
      requires (n == sz || (n == 0 && sz == 1)) && Ready(sz)
      modifies Repr, owner
      ensures Shape() && Linked() && fresh(Repr - old(Repr)) && SameCoder() && SameEngine()
      ensures st == CDR_OK || (st == CDR_FAIL && !Reliable()) || (st == CDR_EAUTO_FRAG && Enc(0) && CutFailed())
      ensures st == CDR_OK ==> Enc(n) && bufs != [] && bufs[cur].used >= n && Cfg() == old(Cfg()) && SameState()
      ensures st == CDR_OK ==> var f := Room(old(Flow()), old(Cfg()), sz);
                               Flow() == Fragment.Flow(f.sent, f.open + Pads(AlignDelta(|f.open|, sz)) + Pads(n))
      ensures !old(Breaks(Flow(), Cfg(), sz)) ==> st != CDR_EAUTO_FRAG && OwnerUntouched()
      ensures st == CDR_OK && !old(Breaks(Flow(), Cfg(), sz)) && old(NoRoom()) ==>
                bufs[cur].used == n && bufs[cur].len == NewLen()
      ensures !old(Breaks(Flow(), Cfg(), sz)) && old(Left()) >= AlignDelta(|old(cells)|, sz) + sz ==>
                st == CDR_OK && Unmoved() && Left() == old(Left()) - AlignDelta(|old(cells)|, sz) - n
      decreases if Breaks(Flow(), Cfg(), sz) then 1 else 0, 2
    {
      hide Matches, Owned, Concat, PastOf, Pads, AlignDelta, HeaderAt, Coder.Ledger, Coder.Geometry, Break,
            Engine.Trace;
      var fromCurr := 0;
      if bufs != [] {
        fromCurr := AlignDelta(bufs[cur].pos, sz);
      }
      PosAligns(sz);
      if giop != null && giop.afrag.on && bufs != [] && buflen + fromCurr + sz > maxlen {
        var gs := giop.AutoFrag();
        if gs != GIOP_OK {
          return CDR_EAUTO_FRAG;
        }
        PosAligns(sz);
        fromCurr := AlignDelta(bufs[cur].pos, sz);
      }
      st := FindRoom(fromCurr, n, sz);
    }

    /** The buffer position aligns as the offset in the stream does. */
    lemma PosAligns(sz: Size)
      requires Enc(0)
      ensures AlignDelta(if bufs == [] then 0 else bufs[cur].pos, sz) == AlignDelta(|cells|, sz)
      ensures AlignDelta(0, sz) == 0
    {
      hide Matches, Owned, Coder.Ledger, Coder.Geometry;
      if bufs != [] {
        PastEnds(bufs[..cur], starts);
        BaseAligns(starts[cur], bufs[cur].used, sz);
      }
    }

    /** CDRCodeUChar, CDRCodeShort, CDRCodeLong, CDRCodeFloat and CDRCodeDouble when encoding. */
    method EncodeScalar(n: Size, v: nat) returns (st: CdrStatus)
      requires Ready(n)
      modifies Repr, owner
      ensures Shape() && Linked() && fresh(Repr - old(Repr)) && SameCoder() && SameEngine()
      ensures st == CDR_OK || st == CDR_FAIL
      ensures st == CDR_OK || Reliable() ==> Enc(0)
      ensures st == CDR_OK || !Reliable() || CutFailed()
      ensures st == CDR_OK ==> Flow() == PutScalar(old(Flow()), old(Cfg()), n, v)
      ensures st == CDR_OK ==> bufs != [] && Last(n) && Cfg() == old(Cfg()) && SameState()
      ensures !old(Breaks(Flow(), Cfg(), n)) ==> (Reliable() ==> st == CDR_OK) && OwnerUntouched()
      ensures !old(Breaks(Flow(), Cfg(), n)) && old(Left()) >= AlignDelta(|old(cells)|, n) + n ==>
                st == CDR_OK && Unmoved()
      decreases if Breaks(Flow(), Cfg(), n) then 1 else 0, 5
    {
      hide Matches, AlignDelta, NativeBytes, Pads, Cells, Room, Breaks, HeaderAt, Coder.Shape, Coder.Enc, Coder.Linked,
            Coder.Ready;
      if owner != null && owner.coder == this && owner.HeaderOpen() {
        OpenLength();
        RoomLength(Flow(), Cfg(), n);
      }
      st := AlignEncode(n, n);
      if st != CDR_OK {
        return CDR_FAIL;
      }
      ghost var g := Room(old(Flow()), old(Cfg()), n);
      StoredBehind(g.open, AlignDelta(|g.open|, n), NativeBytes(v, n, order));
      StoreAligned(NativeBytes(v, n, order));
      CurrentInUse(0);
    }

    /** Store; an open header lies before what is stored. */
    method StoreAligned(bs: seq<byte>)
      requires bufs != [] && Enc(|bs|) && Linked()
      modifies Repr
      ensures Shape() && Enc(0) && Linked() && SameCoder() && OwnerUntouched()
      ensures Repr == old(Repr) && bufs == old(bufs) && cur == old(cur) && Cfg() == old(Cfg())
      ensures cells == old(cells)[..|old(cells)| - |bs|] + Cells(bs)
      ensures bufs[cur].used == old(bufs[cur].used) && bufs[cur].len == old(bufs[cur].len)
      ensures |cells| - |bs| >= HDR_SZ ==> SameEngine()
    {
      hide Matches, Owned, Concat, PastOf, HeaderAt, Coder.Ledger, Coder.Geometry, Engine.Trace;
      ghost var c, open := cells, owner != null && owner.HeaderOpen();
      InRepr();
      Store(bs);
      if open && |cells| - |bs| >= HDR_SZ {
        assert cells[..HDR_SZ] == c[..HDR_SZ];
        HeaderKept(c, starts, cells, starts, owner.marks, owner.respOff, owner.isServer, owner.msgOut.typ, order);
      }
    }

    /** Append; an open header stays. */
    method AppendLinked(bs: seq<byte>)
      requires bufs != [] && Enc(0) && Linked() && bufs[cur].used + |bs| <= bufs[cur].len
      modifies Repr
      ensures Shape() && Enc(0) && Linked() && SameCoder() && OwnerUntouched() && SameEngine()
      ensures Repr == old(Repr) && bufs == old(bufs) && cur == old(cur) && Cfg() == old(Cfg())
      ensures cells == old(cells) + Cells(bs)
      ensures bufs[cur].used == old(bufs[cur].used) + |bs| && bufs[cur].len == old(bufs[cur].len)
    {
      hide Matches, Owned, Concat, PastOf, HeaderAt, Coder.Ledger, Coder.Geometry, Engine.Trace;
      ghost var c, open := cells, owner != null && owner.HeaderOpen();
      InRepr();
      if open {
        OpenLength();
      }
      Append(bs);
      if open {
        assert cells[..HDR_SZ] == c[..HDR_SZ];
        HeaderKept(c, starts, cells, starts, owner.marks, owner.respOff, owner.isServer, owner.msgOut.typ, order);
      }
    }

    /** To code n octets is safe, if the coder may cut them. */
    predicate OctetsSafe(n: nat)
      reads this, bufs, giop
    {
      giop != null && giop.afrag.on && Possible(Layout()) ==> Safe(Layout(), buflen, n)
    }

    /** The segments of n octets to come stay inside their buffers, if they have to be cut. */
    ghost predicate Fitting(free: nat, n: nat)
      requires cur < |bufs|
      reads this, bufs, giop
    {
      Tall(n) && |cells| <= maxlen ==> Possible(Layout()) && Fits(Layout(), Spot(), free, n)
    }

    /** What is safe fits. */
    lemma SafeFits(n: nat)
      requires Enc(0) && bufs != [] && Legal(Cfg())
      requires Tall(n) ==> alloc != null && Evenly() && |cells| < maxlen && OctetsSafe(n)
      ensures bufs[cur].used <= bufs[cur].len && Fitting(bufs[cur].len - bufs[cur].used, n)
    {
      hide Matches, Owned, Coder.Ledger, PastOf, Concat, Even, Fits;
      if Tall(n) {
        FitsExactly(Layout(), Spot(), n);
      }
    }

    /** Nor is less asked for than that: of the coder as it is, a call's octets fit exactly if it is safe. */
    lemma SafeExactly(n: nat)
      requires Enc(0) && alloc != null && bufs != [] && Evenly() && Possible(Layout())
      ensures OctetsFit(Layout(), Spot(), n) <==> Safe(Layout(), buflen, n)
    {
      hide Matches, Owned, Coder.Ledger, PastOf, Concat, Even, OctetsFit, Safe;
      NoOverrun(Layout(), Spot(), n);
    }

    lemma RoomFits(n: nat)
      requires Enc(0) && Linked() && bufs != [] && Legal(Cfg())
      requires Tall(n) ==> owner != null && owner.HeaderOpen() && |cells| < maxlen && OctetsSafe(n)
      ensures cur < |bufs| && bufs[cur].used <= bufs[cur].len && Fitting(bufs[cur].len - bufs[cur].used, n)
    {
      hide Coder.Shape, Coder.Enc, Coder.Evenly, Coder.Fitting, Engine.Trace, HeaderAt;
      EncInRepr(0);
      SafeFits(n);
    }

    /** Nothing coded but in the first buffer. */
    lemma FirstEven()
      requires cur == 0 < |bufs| && |cells| == bufs[0].used <= bufs[0].len
      ensures Evenly()
    {}

    /** A header takes no more than two buffers. */
    static lemma OnlyPast(past: seq<Buffer>, starts: seq<nat>)
      requires PastOf(past, starts) && past != [] && starts[|past|] <= HDR_SZ
      requires forall i :: 0 <= i < |past| ==> past[i].len >= MIN_BUFSZ
      ensures |past| == 1 && starts[1] == past[0].len
    {
      hide Matches, Concat, Buffer.Content;
      assert starts[1] == starts[0] + past[0].len;
      if |past| > 1 {
        assert starts[2] == starts[1] + past[1].len;
        StartsApart(past, starts, 2, |past|);
      }
    }

    /** A Fragment's header alone lies where the lengths of the buffers say. */
    lemma HeaderSpot()
      requires Enc(0) && alloc != null && bufs != [] && Evenly() && |cells| == HDR_SZ && Possible(Layout())
      ensures Spot() == Behind(Layout())
    {
      hide Matches, Owned, Coder.Ledger, Concat, EndsAt, Even;
      PastEnds(bufs[..cur], starts);
      if cur > 0 {
        OnlyPast(bufs[..cur], starts);
      }
      HeaderPlace(Layout(), Spot());
    }

    /** Ready for n octets, to be cut if they take the message over the limit. */
    ghost predicate Cuttable(n: nat)
      reads this, Repr, giop, owner
    {
      && Enc(0) && mode == Encoding && Linked() && Legal(Cfg()) && bufs != []
      && (Tall(n) ==> |cells| <= maxlen && owner != null && owner.coder == this
                       && owner.HeaderOpen() && Fragmentable(owner.msgOut.typ))
    }

    ghost predicate Tall(n: nat)
      reads this, giop
    {
      giop != null && giop.afrag.on && |cells| + n > maxlen
    }

    /** Have the engine send what is coded as a fragment. */
    method CutHere() returns (st: CdrStatus)
      requires Enc(0) && mode == Encoding && Linked() && Legal(Cfg()) && bufs != [] && giop != null
      requires owner != null && owner.coder == this && owner.HeaderOpen() && Fragmentable(owner.msgOut.typ)
      modifies Repr, owner
      ensures Shape() && Enc(0) && Linked() && fresh(Repr - old(Repr)) && SameCoder() && SameEngine()
      ensures st == CDR_OK || (st == CDR_EAUTO_FRAG && CutFailed())
      ensures st == CDR_OK ==>
                Cfg() == old(Cfg()) && SameState() && owner.HeaderOpen() && Fragmentable(owner.msgOut.typ)
      ensures st == CDR_OK ==> Flow() == Break(old(Flow()), Cfg()) && bufs != []
      ensures st == CDR_OK && Possible(Layout()) ==> Spot() == Behind(Layout())
      decreases 0, 16
    {
      hide Matches, HeaderAt, Concat, PastOf, Coder.Shape, Engine.Trace, Break, Even;
      BreakHeader(Flow(), Cfg());
      var gs := giop.AutoFrag();
      st := if gs != GIOP_OK then CDR_EAUTO_FRAG else CDR_OK;
      if st == CDR_OK && Possible(Layout()) {
        HeaderSpot();
      }
    }

    /** Append a segment and, if it fills the fragment, send that. */
    method PutSegment(seg: seq<byte>, doFrag: bool, ghost n: nat) returns (st: CdrStatus)
      requires Cuttable(n) && |seg| <= n && (doFrag ==> |seg| < n && |cells| + |seg| == maxlen)
      requires bufs != [] && bufs[cur].used + |seg| <= bufs[cur].len && (doFrag ==> Cfg().on)
      requires Cfg().on ==> |cells| + |seg| <= maxlen
      modifies Repr, owner
      ensures Shape() && Enc(0) && Linked() && fresh(Repr - old(Repr)) && SameCoder() && SameEngine()
      ensures st == CDR_OK || (st == CDR_EAUTO_FRAG && CutFailed())
      ensures st == CDR_OK ==> Cuttable(n - |seg|) && Cfg() == old(Cfg()) && SameState()
      ensures st == CDR_OK ==> var f := Fragment.Flow(old(Flow()).sent, old(cells) + Cells(seg));
                               Flow() == if doFrag then Break(f, Cfg()) else f
      ensures !doFrag ==> st == CDR_OK && OwnerUntouched() && bufs[cur].used == old(bufs[cur].used) + |seg|
                          && bufs[cur].len == old(bufs[cur].len)
      ensures !doFrag ==> Unmoved() && Layout() == old(Layout())
      ensures st == CDR_OK && doFrag && Possible(Layout()) ==> Spot() == Behind(Layout()) && Layout() == old(Layout())
      decreases if doFrag then 1 else 0, 3
    {
      hide Matches, Cells, HeaderAt, Engine.HeaderOpen, Coder.Shape, Coder.Enc, Coder.Linked, Break;
      AppendLinked(seg);
      st := CDR_OK;
      if doFrag {
        BreakCounts(Flow(), Cfg());
        st := CutHere();
      }
    }

    lemma InFirstFour()
      requires Enc(0) && |cells| == 4 && alloc != null && bufs != []
      ensures cur == 0 && bufs[0].used == 4
    {
      hide Matches, Owned, Coder.Ledger, Concat, PastOf;
      InFirst();
    }

    lemma InFirst()
      requires Enc(0) && bufs != [] && |cells| < bufs[0].len
      ensures cur == 0 && bufs[0].used == |cells|
    {
      hide Matches, Owned, Coder.Ledger, Coder.Geometry;
      PastEnds(bufs[..cur], starts);
      if cur > 0 {
        StartsGrow(bufs[..cur], starts, cur);
      }
    }

    /** The current buffer full: a fragment if the message is full too, else a new buffer. */
    method MakeFree(ghost n: nat) returns (st: CdrStatus)
      requires Cuttable(n) && n > 0 && NoRoom()
      modifies Repr, owner
      ensures Shape() && Linked() && fresh(Repr - old(Repr)) && SameCoder() && SameEngine()
      ensures st == CDR_OK || (st == CDR_FAIL && !Reliable()) || (st == CDR_EAUTO_FRAG && Enc(0) && CutFailed())
      ensures st == CDR_OK ==>
                Cuttable(n) && Cfg() == old(Cfg()) && SameState() && Flow() == Room(old(Flow()), old(Cfg()), 1)
      ensures st == CDR_OK && !old(Breaks(Flow(), Cfg(), 1)) ==> Spot() == Place(|old(cells)|, 0, NewLen())
      ensures st == CDR_OK && old(Breaks(Flow(), Cfg(), 1)) && Possible(Layout()) ==> Spot() == Behind(Layout())
      ensures st == CDR_OK ==> Layout() == old(Layout())
      ensures !old(Breaks(Flow(), Cfg(), 1)) ==> st != CDR_EAUTO_FRAG && OwnerUntouched()
      decreases if Breaks(Flow(), Cfg(), 1) then 1 else 0, 3
    {
      hide Matches, HeaderAt, Coder.Shape, Engine.Trace, Header, Seal, Opened, PastOf, Concat, Pads;
      ghost var broke := Breaks(Flow(), Cfg(), 1);
      st := AlignEncode(0, 1);
      NoPads(old(cells));
      NoPads(FragHeader(Cfg()));
      if st == CDR_OK && broke && Possible(Layout()) {
        HeaderSpot();
      }
    }

    /**
     * The next segment of n octets stays inside the buffer and so do the others, the space taken for free being this.
     */
    ghost predicate Space(free: nat, n: nat)
      requires Sound() && bufs != []
      reads this, Repr, giop, owner
    {
      && 0 < free && 0 < n && bufs[cur].len <= bufs[cur].used + free
      && (|| (!Tall(n) && bufs[cur].used + free == bufs[cur].len)
          || (Cfg().on && |cells| <= maxlen && Possible(Layout()) && Goes(Layout(), Spot(), free, n)))
    }

    /** Without free space left, make some. */
    method Refill(rest: seq<byte>, free: nat) returns (st: CdrStatus, nowFree: nat)
      requires rest != [] && Cuttable(|rest|) && bufs[cur].used + free == bufs[cur].len && Fitting(free, |rest|)
      modifies Repr, owner
      ensures Shape() && Linked() && fresh(Repr - old(Repr)) && SameCoder() && SameEngine()
      ensures st == CDR_OK || (st == CDR_FAIL && !Reliable()) || (st == CDR_EAUTO_FRAG && Enc(0) && CutFailed())
      ensures st == CDR_OK ==> Cuttable(|rest|) && Cfg() == old(Cfg()) && SameState() && Space(nowFree, |rest|)
      ensures st == CDR_OK ==> PutBytes(Flow(), Cfg(), rest) == PutBytes(old(Flow()), old(Cfg()), rest)
      ensures st == CDR_OK ==>
                && (free > 0 ==> nowFree == free)
                && (|cells| == |old(cells)| || |cells| == HDR_SZ < maxlen <= |old(cells)|)
      ensures free > 0 ==> st == CDR_OK && |cells| == |old(cells)|
      ensures !old(Tall(|rest|)) ==>
                st != CDR_EAUTO_FRAG && OwnerUntouched() && (st == CDR_OK ==> |cells| == |old(cells)|)
      ensures free > 0 ==> Unmoved()
      decreases if Tall(|rest|) then 1 else 0, 4
    {
      hide Matches, HeaderAt, Coder.Shape, Engine.Trace, Header, Seal, Opened, PastOf, Concat, PutBytes;
      nowFree := free;
      st := CDR_OK;
      if nowFree == 0 {
        PutBytesRoom(Flow(), Cfg(), rest);
        st := MakeFree(|rest|);
        if st != CDR_OK {
          return;
        }
        nowFree := bufs[cur].len;
      }
    }

    /**
     * Code as much of the rest as there is free space and message for, and send a fragment behind it if that was less.
     */
    method CodeClip(rest: seq<byte>, free: nat) returns (st: CdrStatus, seglen: nat, nowFree: nat)
      requires rest != [] && Cuttable(|rest|) && Space(free, |rest|)
      modifies Repr, owner
      ensures Shape() && Linked() && fresh(Repr - old(Repr)) && SameCoder() && SameEngine()
      ensures st == CDR_OK || (st == CDR_EAUTO_FRAG && Enc(0) && CutFailed())
      ensures st == CDR_OK ==> seglen <= |rest| && Cuttable(|rest| - seglen) && Cfg() == old(Cfg()) && SameState()
      ensures st == CDR_OK ==> PutBytes(Flow(), Cfg(), rest[seglen..]) == PutBytes(old(Flow()), old(Cfg()), rest)
      ensures st == CDR_OK && seglen < |rest| ==>
                bufs[cur].used + nowFree == bufs[cur].len && Fitting(nowFree, |rest| - seglen)
      ensures st == CDR_OK && seglen == 0 ==> |cells| == HDR_SZ < maxlen <= |old(cells)|
      ensures !old(Tall(|rest|)) ==>
                st != CDR_EAUTO_FRAG && OwnerUntouched() && Unmoved() && |cells| == |old(cells)| + seglen
      ensures !old(Tall(|rest|)) && free >= |rest| ==> seglen == |rest|
      decreases if Tall(|rest|) then 1 else 0, 4
    {
      hide HeaderAt, Coder.Shape, Coder.Enc, Coder.Evenly, Coder.CutFailed, Engine.Trace, Header, Seal, Owned, PutBytes;
      EncInRepr(0);
      var clip := Clip(|rest|, free, buflen, maxlen, giop != null && giop.afrag.on);
      seglen := clip.0;
      var doFrag := clip.1;
      CodeSegment(Flow(), Cfg(), rest, seglen, doFrag);
      st := PutSegment(rest[..seglen], doFrag, |rest|);
      nowFree := free - seglen;
      EncInRepr(0);
      if doFrag {
        nowFree := bufs[cur].len - bufs[cur].used;
      }
    }

    /** One round of cdr_encode_nbytes: code as much of the rest as there is room for. */
    method WriteSegment(rest: seq<byte>, free: nat) returns (st: CdrStatus, seglen: nat, nowFree: nat)
      requires rest != [] && Cuttable(|rest|) && bufs[cur].used + free == bufs[cur].len && Fitting(free, |rest|)
      modifies Repr, owner
      ensures Shape() && Linked() && fresh(Repr - old(Repr)) && SameCoder() && SameEngine()
      ensures st == CDR_OK || (st == CDR_FAIL && !Reliable()) || (st == CDR_EAUTO_FRAG && Enc(0) && CutFailed())
      ensures st == CDR_OK ==> seglen <= |rest| && Cuttable(|rest| - seglen) && Cfg() == old(Cfg()) && SameState()
      ensures st == CDR_OK ==> PutBytes(Flow(), Cfg(), rest[seglen..]) == PutBytes(old(Flow()), old(Cfg()), rest)
      ensures st == CDR_OK && seglen < |rest| ==>
                bufs[cur].used + nowFree == bufs[cur].len && Fitting(nowFree, |rest| - seglen)
      ensures st == CDR_OK && seglen == 0 ==> |cells| < maxlen <= |old(cells)|
      ensures !old(Tall(|rest|)) ==> st != CDR_EAUTO_FRAG && OwnerUntouched()
      ensures st == CDR_OK && !old(Tall(|rest|)) ==> |cells| == |old(cells)| + seglen
      ensures !old(Tall(|rest|)) && free >= |rest| ==> st == CDR_OK && seglen == |rest| && Unmoved()
      decreases if Tall(|rest|) then 1 else 0, 5
    {
      hide Matches, HeaderAt, Coder.Shape, Coder.Enc, Engine.HeaderOpen, Engine.Trace, PutBytes;
      seglen := 0;
      st, nowFree := Refill(rest, free);
      if st != CDR_OK {
        return;
      }
      st, seglen, nowFree := CodeClip(rest, nowFree);
    }

    /** The first octets are coded, and the rest leads to the goal from here. */
    ghost predicate Midway(s: seq<byte>, done: nat, free: nat, goal: Fragment.Flow)
      reads this, Repr, giop, owner
    {
      && done <= |s| && Cuttable(|s| - done) && cur < |bufs|
      && (done < |s| ==> bufs[cur].used + free == bufs[cur].len && Fitting(free, |s| - done))
      && PutBytes(Flow(), Cfg(), s[done..]) == goal
    }

    lemma MidwayBegins(s: seq<byte>, free: nat)
      requires Cuttable(|s|) && bufs[cur].used + free == bufs[cur].len && Fitting(free, |s|)
      ensures Shape() && Linked() && Legal(Cfg()) && (Cfg().on ==> |Flow().open| <= Cfg().maxlen)
      ensures Midway(s, 0, free, PutBytes(Flow(), Cfg(), s))
    {
      hide PutBytes, HeaderAt, Coder.Shape, Engine.Trace, Fits;
      EncInRepr(0);
      assert s[0..] == s;
    }

    lemma MidwayEnds(s: seq<byte>, free: nat, goal: Fragment.Flow)
      requires Midway(s, |s|, free, goal)
      ensures Enc(0) && Flow() == goal
    {
      hide HeaderAt, Coder.Shape, Coder.Enc, Engine.Trace, Fits, PutBytes;
      PutNoBytes(Flow(), Cfg(), s[|s|..]);
    }

    /** One round in the middle of the octets s. */
    method WriteNext(s: seq<byte>, done: nat, free: nat, ghost goal: Fragment.Flow)
          returns (st: CdrStatus, now: nat, nowFree: nat)
      requires Midway(s, done, free, goal) && done < |s|
      modifies Repr, owner
      ensures Shape() && Linked() && fresh(Repr - old(Repr)) && SameCoder() && SameEngine()
      ensures st == CDR_OK || (st == CDR_FAIL && !Reliable()) || (st == CDR_EAUTO_FRAG && Enc(0) && CutFailed())
      ensures st == CDR_OK ==> done <= now <= |s| && Midway(s, now, nowFree, goal) && Cfg() == old(Cfg()) && SameState()
      ensures st == CDR_OK && now == done ==> |cells| < maxlen <= |old(cells)|
      ensures !old(Tall(|s| - done)) ==> st != CDR_EAUTO_FRAG && OwnerUntouched()
      ensures st == CDR_OK && !old(Tall(|s| - done)) ==> !Tall(|s| - now)
      ensures !old(Tall(|s| - done)) && free >= |s| - done ==> st == CDR_OK && now == |s| && Unmoved()
      decreases if Tall(|s| - done) then 1 else 0, 6, 0
    {
      hide Matches, HeaderAt, Coder.Shape, Coder.Enc, Engine.HeaderOpen, Engine.Trace, PutBytes, Coder.Fitting;
      var seglen;
      st, seglen, nowFree := WriteSegment(s[done..], free);
      now := done + seglen;
      if st == CDR_OK {
        EncInRepr(0);
        assert s[done..][seglen..] == s[now..];
      }
    }

    /** The loop of cdr_encode_nbytes. */
    method WriteAll(s: seq<byte>, free: nat) returns (st: CdrStatus)
      requires Cuttable(|s|) && bufs[cur].used + free == bufs[cur].len && Fitting(free, |s|)
      modifies Repr, owner
      ensures Shape() && Linked() && fresh(Repr - old(Repr)) && SameCoder() && SameEngine()
      ensures st == CDR_OK || (st == CDR_FAIL && !Reliable()) || (st == CDR_EAUTO_FRAG && Enc(0) && CutFailed())
      ensures st == CDR_OK ==>
                Enc(0) && Cfg() == old(Cfg()) && SameState() && Flow() == PutBytes(old(Flow()), old(Cfg()), s)
      ensures !old(Tall(|s|)) ==> st != CDR_EAUTO_FRAG && OwnerUntouched()
      ensures !old(Tall(|s|)) && free >= |s| ==> st == CDR_OK && Unmoved()
      decreases if Tall(|s|) then 1 else 0, 6, 1
    {
      hide Coder.Shape, Coder.Enc, Coder.Midway, Coder.Cuttable, Coder.Fitting, Coder.Evenly, Coder.Linked,
            Engine.Trace;
      hide Engine.HeaderOpen, Coder.CutFailed, Coder.Tall, Coder.Cfg, Coder.Flow, PutBytes, Owned;
      MidwayBegins(s, free);
      ghost var goal := PutBytes(Flow(), Cfg(), s);
      var done, nowFree := 0, free;
      st := CDR_OK;
      while done < |s|
        invariant done <= |s| && st == CDR_OK && Midway(s, done, nowFree, goal) && Shape() && Linked()
        invariant fresh(Repr - old(Repr)) && SameCoder() && SameEngine() && SameState() && Cfg() == old(Cfg())
        invariant !old(Tall(|s|)) ==> !Tall(|s| - done) && OwnerUntouched()
        invariant !old(Tall(|s|)) && free >= |s| ==>
                  Unmoved() && (done == 0 ==> nowFree == free) && (done == 0 || done == |s|)
        decreases |s| - done, if |cells| >= maxlen then 1 else 0
      {
        st, done, nowFree := WriteNext(s, done, nowFree, goal);
        if st != CDR_OK {
          return;
        }
      }
      MidwayEnds(s, nowFree, goal);
    }

    /** Octets that are not cut go behind the stream. */
    lemma Uncut(f: Fragment.Flow, cfg: Config, s: seq<byte>)
      requires Legal(cfg) && (cfg.on ==> |f.open| + |s| <= cfg.maxlen)
      ensures PutBytes(f, cfg, s) == Fragment.Flow(f.sent, f.open + Cells(s))
    {}

    /** Encoding, and able to code these octets: to cut a string is never needed. */
    ghost predicate Writable(n: nat, isString: bool)
      reads this, Repr, giop, owner
    {
      if isString then Enc(0) && mode == Encoding && Linked() && Legal(Cfg()) && bufs != []
      else Cuttable(n) && Fitting(bufs[cur].len - bufs[cur].used, n)
    }

    method SetLimit(n: nat)
      requires Shape()
      modifies this`maxlen
      ensures Shape() && maxlen == n && Flow() == old(Flow())
      ensures (old(Enc(0)) ==> Enc(0)) && (old(Evenly()) ==> Evenly())
      ensures owner != null && owner.coder == this && old(owner.HeaderOpen()) ==> owner.HeaderOpen()
    {
      hide Matches, HeaderAt, Owned, Coder.Ledger, Coder.Geometry, Engine.Trace, Concat, PastOf, Even;
      maxlen := n;
    }

    /** Forget the engine, or remember it. */
    method Use(g: Engine?)
      requires Shape() && Linked() && (g == null || (g == owner && !g.afrag.str))
      modifies this`giop
      ensures Shape() && Linked() && giop == g && Flow() == old(Flow())
      ensures (old(Enc(0)) ==> Enc(0)) && (old(Evenly()) ==> Evenly())
      ensures owner != null && old(owner.HeaderOpen()) ==> owner.HeaderOpen()
    {
      hide Matches, HeaderAt, Owned, Coder.Ledger, Coder.Geometry, Engine.Trace, Concat, PastOf, Even;
      giop := g;
    }

    /** cdr_encode_nbytes: a string's octets stay together, so for them the coder forgets its engine. */
    method EncodeNBytes(s: seq<byte>, free: nat, isString: bool) returns (st: CdrStatus)
      requires Writable(|s|, isString) && bufs[cur].used + free == bufs[cur].len
      modifies Repr, owner
      ensures Shape() && Linked() && fresh(Repr - old(Repr)) && SameCoder() && SameEngine()
      ensures st == CDR_OK || (st == CDR_FAIL && !Reliable()) || (st == CDR_EAUTO_FRAG && Enc(0) && CutFailed())
      ensures st == CDR_OK ==> Enc(0) && Cfg() == old(Cfg()) && SameState()
      ensures st == CDR_OK ==> Flow() == if isString then Fragment.Flow(old(Flow()).sent, old(cells) + Cells(s))
                                         else PutBytes(old(Flow()), old(Cfg()), s)
      ensures isString || !old(Tall(|s|)) ==> st != CDR_EAUTO_FRAG && OwnerUntouched()
      ensures (isString || !old(Tall(|s|))) && free >= |s| ==> st == CDR_OK && Unmoved()
      decreases if !isString && Tall(|s|) then 1 else 0, 7
    {
      hide Matches, HeaderAt, Coder.Shape, Coder.Enc, Coder.Evenly, Engine.Trace, PutBytes, Cells, Fits;
      EncInRepr(0);
      ghost var f := Flow();
      var saved := giop;
      if giop != null && giop.afrag.on && isString && !giop.afrag.str {
        Use(null);
      }
      ghost var cfg := Cfg();
      if isString {
        Uncut(f, cfg, s);
      }
      st := WriteAll(s, free);
      Use(saved);
    }

    /** Encoding, and able to make room for one octet and to code n. */
    ghost predicate ReadyOctets(n: nat)
      reads this, Repr, giop, owner
    {
      && Enc(0) && mode == Encoding && Linked() && Legal(Cfg())
      && (Tall(if n == 0 then 1 else n) ==>
            && owner != null && owner.coder == this && owner.HeaderOpen() && Fragmentable(owner.msgOut.typ)
            && OctetsSafe(n))
    }

    /** Room for one octet takes no padding. */
    static lemma OneMore(f: Fragment.Flow, cfg: Config)
      requires Legal(cfg)
      ensures var g := Room(f, cfg, 1);
              && Fragment.Flow(g.sent, g.open + Pads(AlignDelta(|g.open|, 1)) + Pads(0)) == g
              && (cfg.on ==> |g.open| < cfg.maxlen)
              && |g.open| == if Breaks(f, cfg, 1) then HDR_SZ else |f.open|
      ensures Breaks(f, cfg, 1) <==> cfg.on && |f.open| + 1 > cfg.maxlen
      ensures AlignDelta(|f.open|, 1) == 0
    {
      NoPads(Room(f, cfg, 1).open);
      BreakHeader(f, cfg);
    }

    /** Room for one octet, and so for the first of n, wherever that is. */
    method RoomForOctets(ghost n: nat) returns (st: CdrStatus)
      requires ReadyOctets(n)
      modifies Repr, owner
      ensures Shape() && Linked() && fresh(Repr - old(Repr)) && SameCoder() && SameEngine()
      ensures st == CDR_OK || (st == CDR_FAIL && !Reliable()) || (st == CDR_EAUTO_FRAG && Enc(0) && CutFailed())
      ensures st == CDR_OK ==>
                && Cfg() == old(Cfg()) && SameState() && Flow() == Room(old(Flow()), old(Cfg()), 1)
                && cur < |bufs| && bufs[cur].used <= bufs[cur].len && Writable(n, false)
      ensures !old(Tall(if n == 0 then 1 else n)) ==>
                st != CDR_EAUTO_FRAG && OwnerUntouched() && (st == CDR_OK ==> |cells| == |old(cells)|)
      ensures !old(Tall(if n == 0 then 1 else n)) && old(Left()) >= 1 ==>
                st == CDR_OK && Unmoved() && Left() == old(Left())
      decreases if Tall(if n == 0 then 1 else n) then 1 else 0, 7
    {
      hide Coder.Shape, Coder.Enc, Coder.Evenly, Coder.CutFailed, Engine.Trace, Engine.HeaderOpen, PutBytes, Pads, Fits;
      hide Coder.Fitting, Owned, AlignDelta, Room, Breaks, Safe;
      EncInRepr(0);
      OneMore(Flow(), Cfg());
      if Possible(Layout()) {
        SafeBehind(Layout(), buflen, n);
      }
      st := AlignEncode(0, 1);
      if st == CDR_OK {
        EncInRepr(0);
        RoomFits(n);
      }
    }

    /** CDRCodeNOctet when encoding. */
    method EncodeOctets(s: seq<byte>) returns (st: CdrStatus)
      requires ReadyOctets(|s|)
      modifies Repr, owner
      ensures Shape() && Linked() && fresh(Repr - old(Repr)) && SameCoder() && SameEngine()
      ensures st == CDR_OK || Reliable() ==> Enc(0)
      ensures st == CDR_OK || !Reliable() || CutFailed()
      ensures st == CDR_OK ==>
                Flow() == PutItem(old(Flow()), old(Cfg()), Octets(s)) && Cfg() == old(Cfg()) && SameState()
      ensures !old(Tall(if |s| == 0 then 1 else |s|)) ==> (Reliable() ==> st == CDR_OK) && OwnerUntouched()
      ensures !old(Tall(if |s| == 0 then 1 else |s|)) && old(Left()) >= (if s == [] then 1 else |s|) ==>
                st == CDR_OK && Unmoved()
      decreases if Tall(if |s| == 0 then 1 else |s|) then 1 else 0, 8
    {
      hide HeaderAt, Coder.Shape, Coder.Enc, Coder.Evenly, Engine.Trace, PutBytes, Coder.Fitting, Safe;
      st := RoomForOctets(|s|);
      if st != CDR_OK {
        return CDR_FAIL;
      }
      if s == [] {
        PutNoBytes(Flow(), Cfg(), s);
        return CDR_OK;
      }
      st := EncodeNBytes(s, bufs[cur].len - bufs[cur].used, false);
    }

    /** The last n octets coded lie in the current buffer. */
    ghost predicate Last(n: nat)
      reads this, bufs
    {
      cur < |bufs| && bufs[cur].used >= n
    }

    lemma CurrentInUse(k: nat)
      requires Enc(k) && bufs != []
      ensures cur < |bufs| && bufs[cur].used <= bufs[cur].len
    {
      hide Matches, Concat, PastOf, Coder.Shape;
    }

    /** CDRCodeNString and CDRCodeString when encoding; s has the closing NUL and is empty for a null string. */
    method EncodeStr(s: seq<byte>) returns (st: CdrStatus)
      requires Ready(4) && |s| < WORD
      modifies Repr, owner
      ensures Shape() && Linked() && fresh(Repr - old(Repr)) && SameCoder() && SameEngine()
      ensures st == CDR_OK || Reliable() ==> Enc(0)
      ensures st == CDR_OK || !Reliable() || CutFailed()
      ensures st == CDR_OK ==> Flow() == PutItem(old(Flow()), old(Cfg()), Str(s)) && Cfg() == old(Cfg()) && SameState()
      ensures !old(Breaks(Flow(), Cfg(), 4)) ==> (Reliable() ==> st == CDR_OK) && OwnerUntouched()
      ensures !old(Breaks(Flow(), Cfg(), 4)) && old(Left()) >= AlignDelta(|old(cells)|, 4) + 4 + |s| ==>
                st == CDR_OK && Unmoved()
      decreases if Breaks(Flow(), Cfg(), 4) then 1 else 0, 8
    {
      hide Matches, AlignDelta, NativeBytes, Pads, Cells, Room, Breaks, HeaderAt, Coder.Shape, Coder.Enc, Engine.Trace;
      if owner != null && owner.coder == this && owner.HeaderOpen() {
        OpenLength();
        RoomLength(Flow(), Cfg(), 4);
      }
      st := AlignEncode(4, 4);
      if st != CDR_OK {
        return;
      }
      CurrentInUse(4);
      var free := bufs[cur].len - bufs[cur].used;
      ghost var g := Room(old(Flow()), old(Cfg()), 4);
      StoredBehind(g.open, AlignDelta(|g.open|, 4), NativeBytes(|s|, 4, order));
      StoreAligned(NativeBytes(|s|, 4, order));
      CurrentInUse(0);
      st := EncodeNBytes(s, free, true);
    }

    // ---- decoding ----

    /** Decoding what has been received: the current buffer's first octets, the last k used still to be loaded. */
    ghost predicate Dec(k: nat)
      reads this, Repr
    {
      && Shape()
      && (bufs != [] ==>
            && buflen <= bufs[cur].data.Length
            && Contained(Input(), Cdr.Cursor(bufs[cur].used, bufs[cur].pos + k)))
      && (k > 0 ==> bufs != [] && 0 <= bufs[cur].pos == bufs[cur].used - k)
    }

    /** The coder is set to decode and its cursor is where decoding can have left it. */
    predicate CanDecode()
      reads this, bufs
    {
      && mode == Decoding && cur < |bufs| && buflen <= bufs[cur].data.Length && bufs[cur].used <= buflen
      && (bufs[cur].pos == bufs[cur].used || bufs[cur].used == buflen)
    }

    lemma DecodesIfItCan()
      requires Shape()
      ensures CanDecode() <==> mode == Decoding && Dec(0) && bufs != []
    {
      hide Matches, Owned, Coder.Ledger, Coder.Geometry;
    }

    ghost function Input(): (s: seq<byte>)
      requires Sound() && (bufs != [] ==> buflen <= bufs[cur].data.Length)
      reads this, Repr
      ensures bufs != [] ==> |s| == buflen
    {
      if bufs == [] then [] else bufs[cur].data[..buflen]
    }

    ghost function Cursor(): Cdr.Cursor
      requires Sound() && bufs != []
      reads this, Repr
    {
      Cdr.Cursor(bufs[cur].used, bufs[cur].pos)
    }

    /** One decoding call as the specification has it; without a buffer it fails. */
    ghost function Expect(sh: Cdr.Shape): (Reply, Cdr.Cursor)
      requires Dec(0)
      reads this, Repr
    {
      if bufs == [] then (Failed, At(0)) else Decode(Input(), Cursor(), sh, order, sex)
    }

    lemma CutRest(sh: Cdr.Shape)
      requires Dec(0) && bufs != []
      ensures var r := Expect(sh).0;
              r.Cut? ==> |r.part| <= |Input()| && r.part == Input()[|Input()| - |r.part|..]
    {
      hide Cdr.Decode, Owned, Coder.Ledger, Coder.Geometry;
      CutIsRest(Input(), Cursor(), sh, order, sex);
    }

    /** What decoding leaves alone: everything but the current buffer's position and use. */
    twostate predicate OnlyRead()
      reads this, bufs
    {
      unchanged(this) && forall i :: 0 <= i < |bufs| ==>
            bufs[i].len == old(bufs[i].len) && bufs[i].part == old(bufs[i].part)
    }

    /** cdr_align when decoding. */
    method AlignDecode(n: nat, sz: Size) returns (st: CdrStatus)
      requires Dec(0) && (n == sz || (n == 0 && sz == 1))
      modifies bufs
      ensures OnlyRead() && Shape() && (bufs != [] ==> buflen <= bufs[cur].data.Length && Input() == old(Input()))
      ensures st == CDR_FAIL || st == CDR_OK
      ensures st == CDR_FAIL ==> Dec(0) && (bufs != [] ==> Cursor() == old(Cursor()))
      ensures st == CDR_OK ==> bufs != [] && Dec(n) && old(Cursor()).pos == old(Cursor()).used
      ensures bufs != [] ==>
                var d := old(Cursor());
                var delta := AlignDelta(d.pos, sz);
                st == (if d.used + delta + sz > buflen then CDR_FAIL else CDR_OK)
                && (st == CDR_OK ==> bufs[cur].used == d.used + delta + n && bufs[cur].pos == d.used + delta)
    {
      hide AlignDelta, Coder.Ledger, Coder.Geometry;
      if bufs == [] {
        return CDR_FAIL;
      }
      var b := bufs[cur];
      var fromCurr := AlignDelta(b.pos, sz);
      if fromCurr + sz > buflen - b.used {
        return CDR_FAIL;
      }
      b.pos := b.pos + fromCurr;
      b.used := b.used + fromCurr + n;
      st := CDR_OK;
    }

    /** The octets back to front, one at a time. */
    static method Backwards(data: array<byte>, pos: nat, n: nat) returns (r: seq<byte>)
      requires pos + n <= data.Length
      ensures r == Reverse(data[pos..pos + n])
    {
      var own := data[pos..pos + n];
      r := [];
      for i := 0 to n
        invariant |r| == i && forall j :: 0 <= j < i ==> r[j] == own[n - 1 - j]
      {
        r := r + [data[pos + n - 1 - i]];
      }
      forall j | 0 <= j < n ensures Reverse(own)[j] == r[j] {
        ReverseAt(own, j);
      }
    }

    /** The octets of a datum set aside are the last used ones. */
    lemma OwnOctets(n: nat)
      requires n > 0 && Dec(n)
      ensures var b := bufs[cur]; b.used <= buflen && b.data[b.pos..b.pos + n] == Input()[b.used - n..b.used]
    {
      hide Owned, Coder.Ledger, Coder.Geometry;
    }

    /** Load n octets, back to front unless the stream has our own byte order. */
    method Load(n: Size) returns (v: nat)
      requires bufs != [] && Dec(n)
      modifies bufs[cur]
      ensures Dec(0) && Cursor() == At(bufs[cur].used) && Input() == old(Input())
      ensures bufs[cur].used == old(bufs[cur].used) && bufs[cur].len == old(bufs[cur].len)
                && bufs[cur].part == old(bufs[cur].part)
      ensures v == Decoded(Input()[bufs[cur].used - n..bufs[cur].used], order, sex)
    {
      hide Decoded, Reverse, NativeValue, Coder.Ledger, Coder.Geometry, Owned;
      var b := bufs[cur];
      ghost var own := b.data[b.pos..b.pos + n];
      OwnOctets(n);
      AsDecoded(own, order, sex);
      if sex == order.Bit() {
        v := NativeValue(b.data[b.pos..b.pos + n], order);
      } else {
        var r := Backwards(b.data, b.pos, n);
        v := NativeValue(r, order);
      }
      b.pos := b.pos + n;
    }

    lemma AsDecoded(bs: seq<byte>, native: Order, sex: nat)
      ensures Decoded(bs, native, sex) == NativeValue(if sex == native.Bit() then bs else Reverse(bs), native)
    {}

    /** CDRCodeUChar, CDRCodeShort, CDRCodeLong, CDRCodeFloat and CDRCodeDouble when decoding. */
    method DecodeScalar(n: Size) returns (st: CdrStatus, v: nat)
      requires Dec(0)
      modifies bufs
      ensures Dec(0) && OnlyRead() && Input() == old(Input())
      ensures bufs != [] ==> Cursor() == old(Expect(SScalar(n))).1
      ensures old(Expect(SScalar(n))).0 == (if st == CDR_OK then Got(Scalar(n, v)) else Failed)
                && st in {CDR_OK, CDR_FAIL}
    {
      hide AlignDelta, Decoded, Coder.Ledger, Coder.Geometry, Owned;
      v := 0;
      st := AlignDecode(n, n);
      if st != CDR_OK {
        return;
      }
      v := Load(n);
    }

    /** A string's length, reversed by CDR_SWAP_4 unless the stream has our own byte order. */
    method LoadLength() returns (v: nat)
      requires bufs != [] && Dec(4)
      modifies bufs[cur]
      ensures Dec(0) && Cursor() == At(bufs[cur].used) && Input() == old(Input())
      ensures bufs[cur].used == old(bufs[cur].used) && bufs[cur].len == old(bufs[cur].len)
                && bufs[cur].part == old(bufs[cur].part)
      ensures v == Decoded(Input()[bufs[cur].used - 4..bufs[cur].used], order, sex)
    {
      hide Decoded, SwapMacro, Reverse, NativeValue, Coder.Ledger, Coder.Geometry;
      var b := bufs[cur];
      var own := b.data[b.pos..b.pos + 4];
      assert own == Input()[b.used - 4..b.used];
      SwapMacroReverses(own);
      AsDecoded(own, order, sex);
      v := NativeValue(if sex != order.Bit() then SwapMacro(own) else own, order);
      b.pos := b.pos + 4;
    }

    /**
     * The octets a string or an octet sequence of the given length has in the buffer; `ahead` is added to the
     * position.
     */
    method Take(len: nat, ahead: nat) returns (s: seq<byte>)
      requires bufs != [] && Dec(0) && Cursor().pos == Cursor().used && Cursor().used + len <= buflen
      requires ahead == len || Cursor().used + len == buflen
      modifies bufs[cur]
      ensures Dec(0) && Input() == old(Input()) && bufs[cur].len == old(bufs[cur].len)
                && bufs[cur].part == old(bufs[cur].part)
      ensures var d := old(Cursor());
              Cursor() == Cdr.Cursor(d.used + len, d.pos + ahead) && s == Input()[d.used..d.used + len]
    {
      hide Coder.Ledger, Coder.Geometry, Owned;
      var b := bufs[cur];
      s := b.data[b.pos..b.pos + len];
      assert b.pos == b.used && b.used + len <= buflen;
      assert s == Input()[b.used..b.used + len];
      b.pos := b.pos + ahead;
      b.used := b.used + len;
    }

    /** CDRCodeNString and CDRCodeString when decoding. A length that is not all there leaves the position behind it. */
    method DecodeStr() returns (st: CdrStatus, s: seq<byte>)
      requires Dec(0)
      modifies bufs
      ensures Dec(0) && OnlyRead() && Input() == old(Input())
      ensures bufs != [] ==> Cursor() == old(Expect(SStr)).1
      ensures old(Expect(SStr)).0 == (match st
                                      case CDR_OK => Got(Str(s))
                                      case CDR_ESTR_FRAG => Cut(s)
                                      case _ => Failed)
      ensures st == CDR_ESTR_FRAG ==> |s| <= |Input()| && s == Input()[|Input()| - |s|..]
      ensures st in {CDR_OK, CDR_ESTR_FRAG, CDR_FAIL}
    {
      hide AlignDelta, Decoded, Coder.Ledger, Coder.Geometry, Owned;
      if bufs != [] {
        CutRest(SStr);
      }
      InRepr();
      s := [];
      st := AlignDecode(4, 4);
      if st != CDR_OK {
        return;
      }
      var realLen := LoadLength();
      if realLen == 0 {
        return;
      }
      var free := buflen - bufs[cur].used;
      var len := realLen;
      if free == 0 || free < realLen {
        len := free;
        st := CDR_ESTR_FRAG;
      }
      s := Take(len, realLen);
    }

    /** CDRCodeNOctet when decoding. */
    method DecodeOctets(n: nat) returns (st: CdrStatus, s: seq<byte>)
      requires Dec(0)
      modifies bufs
      ensures Dec(0) && OnlyRead() && Input() == old(Input())
      ensures bufs != [] ==> Cursor() == old(Expect(SOctets(n))).1
      ensures old(Expect(SOctets(n))).0 == (match st
                                            case CDR_OK => Got(Octets(s))
                                            case CDR_ESTR_FRAG => Cut(s)
                                            case _ => Failed)
      ensures st == CDR_ESTR_FRAG ==> |s| <= |Input()| && s == Input()[|Input()| - |s|..]
      ensures st in {CDR_OK, CDR_ESTR_FRAG, CDR_FAIL}
    {
      hide Coder.Ledger, Coder.Geometry, Owned;
      if bufs != [] {
        CutRest(SOctets(n));
      }
      InRepr();
      s := [];
      st := AlignDecode(0, 1);
      if st != CDR_OK {
        return;
      }
      var free := buflen - bufs[cur].used;
      var len := n;
      if free < n {
        len := free;
        st := CDR_ESTR_FRAG;
      }
      s := Take(len, len);
    }

    /** Octets from the transport go behind those received before. */
    method Receive(bs: seq<byte>)
      requires Dec(0) && bufs != [] && Cursor() == At(buflen) && buflen + |bs| <= bufs[cur].len
      modifies this`buflen, bufs[cur].data
      ensures Dec(0) && Input() == old(Input()) + bs && Cursor() == old(Cursor()) && buflen == old(buflen) + |bs|
    {
      hide Matches, Coder.Ledger, Coder.Geometry;
      var b := bufs[cur];
      forall j | 0 <= j < |bs| {
        b.data[b.pos + j] := bs[j];
      }
      buflen := buflen + |bs|;
    }

    // ---- finding one buffer, and giving all back ----

    /** Take the first buffer off the list and give it back. */
    method DropFirst()
      requires Shape() && bufs != [] && canFree
      modifies this`bufs, this`cur, this`buflen, alloc
      ensures Shape() && bufs == old(bufs)[1..] && cur == 0 && buflen == 0
      ensures alloc != null ==>
                alloc.returned == old(alloc.returned) + {old(bufs)[0]} && alloc.granted == old(alloc.granted)
    {
      hide Matches;
      var b := bufs[0];
      if alloc != null {
        assert b in Listed(bufs);
        alloc.Release(b);
      }
      assert bufs == [b] + bufs[1..];
      bufs, cur, buflen := bufs[1..], 0, 0;
      assert Listed(old(bufs)) == Listed(bufs) + {b};
    }

    /** Without a way to give buffers back: what follows the first one is cut off the list. */
    method CutOff()
      requires Shape() && bufs != [] && !canFree && cur == 0
      modifies this`bufs, this`lost
      ensures Shape() && bufs == old(bufs)[..1] && lost == old(lost) + Listed(old(bufs)[1..])
    {
      hide Matches;
      lost, bufs := lost + Listed(bufs[1..]), bufs[..1];
      assert old(bufs) == bufs + old(bufs)[1..];
      assert Listed(old(bufs)) == Listed(bufs) + Listed(old(bufs)[1..]);
    }

    /** The first n buffers have been given back. */
    ghost predicate GaveBack(was: seq<Buffer>, before: set<Buffer>, n: nat)
      requires n <= |was|
      reads alloc
    {
      alloc != null ==> alloc.returned == before + Listed(was[..n])
    }

    lemma GaveOneMore(was: seq<Buffer>, n: nat)
      requires n < |was|
      ensures Listed(was[..n + 1]) == Listed(was[..n]) + {was[n]}
    {}

    /** Get the first buffer, asking for the length. */
    method FirstOf(minLen: nat) returns (st: CdrStatus)
      requires Shape() && bufs == []
      modifies this`bufs, this`cur, this`buflen, this`cells, this`starts, this`Repr, this`allocMin, alloc
      ensures Shape() && old(Repr) <= Repr && fresh(Repr - old(Repr)) && (st == CDR_OK || st == CDR_FAIL)
      ensures allocMin == old(allocMin) && (Reliable() ==> st == CDR_OK)
      ensures st == CDR_OK ==>
                && Enc(0) && cells == [] && cur == 0 && |bufs| == 1 && fresh(bufs[0])
                && bufs[0].used == 0 && bufs[0].len >= minLen
      ensures st == CDR_FAIL ==> bufs == []
      ensures alloc != null ==> alloc.returned == old(alloc.returned) && old(alloc.granted) <= alloc.granted
    {
      hide Matches, Owned, Coder.Ledger, Coder.Geometry, Even;
      var save := allocMin;
      allocMin := minLen;
      st := FirstBuffer();
      allocMin := save;
    }

    /** Start over in the first buffer, or in a new one of at least the length. */
    method StartOver(minLen: nat) returns (st: CdrStatus)
      requires Shape() && (bufs != [] ==> bufs[0].len >= minLen)
      modifies this`bufs, this`cur, this`buflen, this`cells, this`starts, this`Repr, this`allocMin, alloc, bufs
      ensures Shape() && old(Repr) <= Repr && fresh(Repr - old(Repr)) && allocMin == old(allocMin)
      ensures st == CDR_OK || st == CDR_FAIL
      ensures st == CDR_OK ==>
                Enc(0) && cells == [] && bufs != [] && cur == 0 && bufs[0].used == 0 && bufs[0].len >= minLen
      ensures old(bufs) != [] ==> st == CDR_OK && bufs == old(bufs)
      ensures old(bufs) == [] && st == CDR_OK ==> |bufs| == 1 && fresh(bufs[0])
      ensures st == CDR_FAIL ==> bufs == old(bufs)
      ensures Reliable() ==> st == CDR_OK
      ensures alloc != null ==> alloc.returned == old(alloc.returned) && old(alloc.granted) <= alloc.granted
      ensures forall k :: 0 <= k < |old(bufs)| ==> old(bufs)[k].len == old(bufs[k].len)
    {
      hide Matches, Coder.Enc, Coder.Evenly, Coder.SameSettings, Buffer.Holds;
      if bufs == [] {
        st := FirstOf(minLen);
      } else {
        Restart(false);
        st := CDR_OK;
      }
    }

    /** CDRNeedBuffer: give back the buffers before the first one of the length needed, or get one of it. */
    method NeedBuffer(minLen: nat) returns (st: CdrStatus, ghost n: nat)
      requires Shape() && (canFree || cur == 0)
      modifies this`bufs, this`cur, this`buflen, this`cells, this`starts, this`Repr, this`lost, this`allocMin, alloc,
                bufs
      ensures Shape() && old(Repr) <= Repr && fresh(Repr - old(Repr)) && allocMin == old(allocMin)
      ensures st == CDR_OK || st == CDR_FAIL
      ensures st == CDR_OK ==>
                Enc(0) && cells == [] && bufs != [] && cur == 0 && bufs[0].used == 0 && bufs[0].len >= minLen
      ensures n <= |old(bufs)| && forall k :: 0 <= k < n ==> old(bufs[k].len) < minLen
      ensures GaveBack(old(bufs), if alloc == null then {} else old(alloc.returned), n)
      ensures alloc != null ==> old(alloc.granted) <= alloc.granted
      ensures forall k :: 0 <= k < |old(bufs)| ==> old(bufs)[k].len == old(bufs[k].len)
      ensures st == CDR_OK && n < |old(bufs)| ==> bufs == old(bufs)[n..]
      ensures old(bufs) != [] && bufs != [] ==> bufs[0].len >= old(bufs[0].len)
      ensures st == CDR_OK && n == |old(bufs)| ==> |bufs| == 1 && fresh(bufs[0])
      ensures Reliable() && canFree ==> st == CDR_OK
      ensures !canFree ==> n == 0
      ensures !canFree && old(bufs) != [] ==> (st == CDR_FAIL <==> old(bufs[0].len) < minLen)
      ensures !canFree && st == CDR_FAIL && old(bufs) != [] ==>
                bufs == old(bufs)[..1] && lost == old(lost) + Listed(old(bufs)[1..])
    {
      hide Matches, Listed, Coder.Shape, Coder.Enc;
      ghost var was, before := bufs, if alloc == null then {} else alloc.returned;
      n := 0;
      NoneListed(was);
      while bufs != [] && bufs[0].len < minLen
        invariant Shape() && n <= |was| && bufs == was[n..] && Repr == old(Repr) && allocMin == old(allocMin)
        invariant forall k :: 0 <= k < |was| ==> was[k].len == old(was[k].len)
        invariant forall k :: 0 <= k < n ==> was[k].len < minLen
        invariant GaveBack(was, before, n)
        invariant alloc != null ==> alloc.granted == old(alloc.granted)
        invariant n > 0 ==> canFree
        invariant n == 0 ==> cur == old(cur) && lost == old(lost)
        decreases |bufs|
      {
        if !canFree {
          CutOff();
          return CDR_FAIL, n;
        }
        GaveOneMore(was, n);
        DropFirst();
        n := n + 1;
      }
      assert n > 0 ==> was[0].len < minLen;
      st := StartOver(minLen);
    }

    lemma NoneListed(was: seq<Buffer>)
      ensures Listed(was[..0]) == {}
    {}

    /** CDRFree: give every buffer back, if there is a way to. */
    method Free()
      requires Shape()
      modifies this`bufs, this`cur, this`buflen, this`cells, this`starts, alloc
      ensures Shape()
      ensures alloc != null ==> alloc.granted == old(alloc.granted) && old(alloc.returned) <= alloc.returned
      ensures if canFree then bufs == [] && buflen == 0 && cells == [] && Enc(0)
                && (alloc != null ==> alloc.granted <= alloc.returned)
              else bufs == old(bufs) && cur == old(cur) && buflen == old(buflen)
    {
      hide Matches, Owned, Coder.Geometry;
      if !canFree {
        return;
      }
      while bufs != []
        invariant Shape()
        invariant alloc != null ==> alloc.granted == old(alloc.granted) && old(alloc.returned) <= alloc.returned
        decreases |bufs|
      {
        DropFirst();
      }
      cur, buflen, cells, starts := 0, 0, [], [0];
      assert Listed(bufs) == {};
      if alloc != null {
        forall b | b in alloc.granted ensures b in alloc.returned {
          assert b !in alloc.granted - alloc.returned;
        }
      }
    }

    // ---- the octets coded, and encapsulations ----

    ghost predicate InBounds()
      requires Sound()
      reads this, Repr
    {
      cur < |bufs| && forall i :: 0 <= i <= cur ==> bufs[i].used <= bufs[i].data.Length
    }

    /** What the active buffers hold: all up to the current one, none of those behind it. */
    ghost function Active(): seq<byte>
      requires Sound() && (bufs != [] ==> InBounds())
      reads this, Repr
    {
      if bufs == [] then [] else Octs(bufs[..cur + 1])
    }

    /** The active buffers carry the stream, and their use sums to the coder's length. */
    lemma ActiveMatches()
      requires Enc(0)
      ensures bufs != [] ==> InBounds()
      ensures Matches(cells, Active()) && |Active()| == buflen
    {
      hide Owned, Coder.Ledger, Coder.Geometry, Concat, Matches;
      if bufs != [] {
        var bs := bufs[..cur + 1];
        assert bs[..cur + 1] == bs && bs[..cur] == bufs[..cur];
        OctsMatch(bs, cur + 1);
        ConcatLast(bs, cur);
        MatchLengths(cells, Octs(bs));
      } else {
        NothingMatches();
      }
    }

    static lemma MatchLengths(c: Stream, bs: seq<byte>)
      requires Matches(c, bs)
      ensures |c| == |bs|
    {}

    static lemma NothingMatches()
      ensures Matches([], [])
    {}

    /** CDRRewind and CDRReset: encoding may start over in the first buffer. */
    method Restart(inUse: bool)
      requires Shape()
      modifies this`cur, this`buflen, this`cells, this`starts, bufs
      ensures Shape() && Enc(0) && cells == [] && buflen == cur == 0 && SameSettings() && Evenly()
      ensures bufs != [] ==> bufs[0].Holds(0) && bufs[0].pos == bufs[0].used == 0 <= bufs[0].len
      ensures forall k :: 0 <= k < |bufs| ==> bufs[k].len == old(bufs[k].len)
    {
      hide Matches, Owned, Coder.Ledger, Coder.Geometry, PastOf, Concat, Even;
      Rewind(true);
      var rs := Reset(inUse);
      if bufs != [] {
        FirstEven();
      }
    }

    method StartEncoding(byteSex: nat)
      requires Shape() && Linked() && Legal(Cfg())
      modifies Repr
      ensures Shape() && Linked() && Enc(0) && cells == [] && mode == Encoding && sex == byteSex
      ensures Repr == old(Repr) && Cfg() == old(Cfg()) && giop == old(giop) && owner == old(owner) && OwnerUntouched()
    {
      hide Matches, Owned, Coder.Ledger, Coder.Geometry, PastOf, Concat, Engine.Trace, HeaderAt, Coder.Evenly;
      InRepr();
      Restart(true);
      mode := Encoding;
      sex := byteSex;
    }

    /** CDREncapCreate: start an encapsulation with the octet naming its byte order. */
    method EncapCreate(byteSex: byte) returns (st: CdrStatus)
      requires Shape() && Linked() && Legal(Cfg())
      modifies Repr, owner
      ensures Shape() && Linked() && fresh(Repr - old(Repr)) && mode == Encoding && sex == byteSex as int
                && st == CDR_OK
      ensures giop == old(giop) && owner == old(owner) && OwnerUntouched()
      ensures Reliable() ==> Enc(0) && cells == EncScalar(0, 1, byteSex as int, order)
    {
      hide Coder.Shape, Coder.Enc, Coder.Evenly, Owned, EncScalar, Engine.Trace, HeaderAt;
      StartEncoding(byteSex as int);
      EncInRepr(0);
      assert AlignDelta(0, 1) == 0;
      var es := EncodeScalar(1, byteSex as int);
      st := CDR_OK;
    }

    /** memcpy */
    static method Copy(out: array<byte>, at: nat, from: array<byte>, n: nat)
      requires at + n <= out.Length && n <= from.Length && out != from
      modifies out
      ensures out[..at + n] == old(out[..at]) + from[..n]
    {
      forall j | 0 <= j < n {
        out[at + j] := from[j];
      }
    }

    /** CDREncapEnd: the octets of the active buffers copied into one block. */
    method EncapEnd() returns (out: array<byte>)
      requires Enc(0)
      ensures fresh(out) && (bufs != [] ==> InBounds()) && out[..] == Active() && Matches(cells, out[..])
    {
      hide Matches, Owned, Octs, Concat, Coder.Enc, Coder.Shape, Coder.Copied, PastOf;
      EncInRepr(0);
      ActiveMatches();
      var len := buflen;
      out := new byte[len];
      var tot: nat, k: nat := 0, 0;
      ghost var bs := if bufs == [] then [] else bufs[..cur + 1];
      CopiedNone(out, bs);
      while k < |bufs| && tot < len
        invariant Copied(out, bs, k, tot) && tot <= len && (k < |bs| || tot == len)
      {
        var segLen := CopyNext(out, bufs[k], k, tot, bs);
        tot, k := tot + segLen, k + 1;
      }
      CopiedAll(out, bs, k, tot);
    }

    /** The octets of the first k buffers have been copied, to a block for all of them. */
    static ghost predicate Copied(out: array<byte>, bs: seq<Buffer>, k: nat, tot: nat)
      reads out, bs, set b | b in bs :: b.data
    {
      && (forall i :: 0 <= i < |bs| ==> bs[i].used <= bs[i].data.Length && bs[i].data != out)
      && k <= |bs| && tot <= out.Length == |Octs(bs)|
      && tot == |Octs(bs[..k])| && out[..tot] == Octs(bs[..k])
    }

    static lemma CopiedNone(out: array<byte>, bs: seq<Buffer>)
      requires forall i :: 0 <= i < |bs| ==> bs[i].used <= bs[i].data.Length && bs[i].data != out
      requires out.Length == if bs == [] then 0 else |Octs(bs)|
      ensures Copied(out, bs, 0, 0)
    {
      assert bs[..0] == [];
    }

    static lemma CopiedAll(out: array<byte>, bs: seq<Buffer>, k: nat, tot: nat)
      requires Copied(out, bs, k, tot) && (k == |bs| || tot == out.Length)
      ensures out[..] == Octs(bs)
    {
      hide Octs;
      OctsGrow(bs, k, |bs|);
      assert bs[..|bs|] == bs && out[..out.Length] == out[..];
    }

    static method CopyNext(out: array<byte>, b: Buffer, ghost k: nat, tot: nat, ghost bs: seq<Buffer>)
        returns (segLen: nat)
      requires Copied(out, bs, k, tot) && k < |bs| && bs[k] == b
      modifies out
      ensures Copied(out, bs, k + 1, tot + segLen) && tot + segLen <= out.Length
      ensures k + 1 == |bs| ==> tot + segLen == out.Length
    {
      hide Octs;
      segLen := b.used;
      if tot + segLen > out.Length {
        segLen := out.Length - tot;
      }
      OctsLast(bs, k);
      OctsGrow(bs, k + 1, |bs|);
      assert bs[..|bs|] == bs;
      Copy(out, tot, b.data, segLen);
    }

    /** Decode the octet naming the byte order of what follows. */
    method TakeOrder()
      requires Dec(0) && bufs != [] && Cursor() == At(0) && buflen > 0
      modifies this`sex, bufs
      ensures Dec(0) && Input() == old(Input()) && sex == Input()[0] as int && Cursor() == At(1)
      ensures forall i :: 0 <= i < |bufs| ==> bufs[i].len == old(bufs[i].len)
    {
      hide Matches, Decode, Coder.Ledger, Coder.Geometry, Owned;
      SingleOctet(Input(), 0, order, sex);
      var ds, v := DecodeScalar(1);
      sex := v;
    }

    /** CDREncapInit: a coder over one given block, encoding into it or decoding the encapsulation it holds. */
    static method EncapInit(order: Order, data: array<byte>, n: nat, mode: Mode) returns (st: CdrStatus, c: Coder?)
      requires n <= data.Length
      ensures st == (if mode == NoMode then CDR_ENULL_CODER else if n == 0 then CDR_ENULL_DATA else CDR_OK)
      ensures c != null <==> st == CDR_OK
      ensures c != null ==>
                fresh(c.Repr - {data}) && c.mode == mode && c.order == order && c.owner == null && c.giop == null
      ensures c != null ==> |c.bufs| == 1 && c.cur == 0 && c.bufs[0].data == data && c.bufs[0].len == n
      ensures c != null && mode == Encoding ==> c.Enc(0) && c.cells == [] && c.bufs[0].used == 0
      ensures c != null && mode == Decoding ==>
                c.Dec(0) && c.bufs != [] && c.Input() == data[..n] && c.sex == data[0] as int && c.Cursor() == At(1)
    {
      hide Matches, Decoded, AlignDelta, Concat;
      c := null;
      if mode == NoMode {
        return CDR_ENULL_CODER, null;
      }
      if n == 0 {
        return CDR_ENULL_DATA, null;
      }
      c := new Coder.Single(order, data, n);
      c.mode := mode;
      if mode == Decoding {
        c.buflen := n;
        c.TakeOrder();
      } else {
        c.buflen := 0;
      }
      st := CDR_OK;
    }

    /** A coder whose one buffer is the given block. */
    constructor Single(order: Order, data: array<byte>, n: nat)
      requires n <= data.Length
      ensures Enc(0) && cells == [] && mode == NoMode && this.order == order && sex == order.Bit()
      ensures alloc == null && !canFree && giop == null && owner == null && buflen == 0
      ensures |bufs| == 1 && cur == 0 && bufs[0].data == data && bufs[0].len == n && bufs[0].used == 0
                && bufs[0].pos == 0
      ensures fresh(Repr - {data})
    {
      var b := new Buffer.Over(data, n);
      this.order, alloc, canFree := order, null, false;
      mode, bufs, cur, buflen, maxlen := NoMode, [b], 0, 0, 0;
      giop, owner := null, null;
      sex, allocMin := order.Bit(), MIN_BUFSZ;
      cells, starts, lost := [], [0], {};
      Repr := {this, b, data};
      new;
      NoPast();
      assert bufs[..0] == [];
    }

    /** One octet reads the same in any order. */
    static lemma SingleOctet(input: seq<byte>, p: nat, native: Order, sex: nat)
      requires p < |input|
      ensures Decode(input, At(p), SScalar(1), native, sex) == (Got(Scalar(1, input[p] as int)), At(p + 1))
    {
      var one := input[p..p + 1];
      assert one == [input[p]];
      assert Reverse(one) == one;
      assert LittleValue(one) == input[p] + 256 * LittleValue([]);
    }

    lemma CurrentIsLast()
      requires Enc(0) && bufs != []
      ensures |starts| == cur + 1
    {
      hide Matches, Concat, Owned, Coder.Ledger, Coder.Geometry;
      PastEnds(bufs[..cur], starts);
    }

    /** A pointer to the last n octets coded. */
    method Here(n: nat) returns (loc: Loc)
      requires Enc(0) && bufs != [] && Last(n)
      ensures n <= |cells| && Locates(starts, |cells|, loc, |cells| - n, n)
      ensures alloc != null && |cells| < MIN_BUFSZ ==> loc == Loc(0, |cells| - n)
    {
      hide Matches, Concat, Owned, Coder.Ledger;
      PastEnds(bufs[..cur], starts);
      if alloc != null && |cells| < MIN_BUFSZ {
        InFirst();
      }
      loc := Loc(cur, bufs[cur].pos - n);
    }

    /** The first eight octets of the stream lie in the first buffer. */
    lemma FirstOctets(off: nat)
      requires Enc(0) && alloc != null && off < MIN_BUFSZ && off < |cells|
      ensures Locates(starts, |cells|, Loc(0, off), off, 1)
    {
      hide Matches, Concat, Owned, Coder.Ledger;
      PastEnds(bufs[..cur], starts);
    }
  }

  // ---- the engine ----

  datatype GiopStatus = GIOP_OK | GIOP_EINV_AGENT | GIOP_EINV_CALL | GIOP_EREVISION | GIOP_EINV_FRAGSZ
    | GIOP_ENOSPACE | GIOP_ECONNECT | GIOP_ETRANSPORT | GIOP_ECLOSED | GIOP_EBADMAGIC | GIOP_EINV_MSGTYP
    | GIOP_EINV_MSGSZ

  datatype State = SInit | SOpen | SIdle | SReqCr | SRepCr | SLRepCr | SFragCr

  /** The GIOP_AFRAG bits. */
  datatype FragFlags = FragFlags(on: bool, str: bool, msghdr: bool)

  datatype MsgInfo = MsgInfo(major: byte, minor: byte, typ: byte, size: nat, isFrag: bool)

  predicate Fragmentable(typ: byte) {
    typ !in {CANCEL_REQUEST, CLOSE_CONNECTION, MESSAGE_ERROR, UNKNOWN}
  }

  /** The types a cut is made in: all but cancel requests, closing and error messages, and no message at all. */
  lemma FragmentableTypes(typ: byte)
    ensures Fragmentable(typ) <==> typ !in {2, 5, 6, 99}
  {}

  /** GIOP_BITOFF(flags, GIOP_FRAG_BIT). */
  function NoMoreFrags(flags: byte): byte {
    if (flags / 2) % 2 == 1 then flags - 2 else flags
  }

  /** Clearing the more-fragments bit clears the bit of value two and leaves the others. */
  lemma NoMoreFragsSpelt(flags: byte)
    ensures var r := NoMoreFrags(flags); r % 2 == flags % 2 && (r / 2) % 2 == 0 && r / 4 == flags / 4
  {}

  datatype ServiceContext = ServiceContext(id: nat, data: seq<byte>)

  predicate ValidContexts(ctxs: seq<ServiceContext>) {
    |ctxs| < WORD && forall i :: 0 <= i < |ctxs| ==> ctxs[i].id < WORD && |ctxs[i].data| < WORD
  }

  function ContextList(ctxs: seq<ServiceContext>): seq<Item> {
    if ctxs == [] then []
    else
      var c := ctxs[|ctxs| - 1];
      ContextList(ctxs[..|ctxs| - 1]) + [Scalar(4, c.id), Scalar(4, |c.data|), Octets(c.data)]
  }

  /** A service context list. */
  function ContextItems(ctxs: seq<ServiceContext>): seq<Item> {
    [Scalar(4, |ctxs|)] + ContextList(ctxs)
  }

  lemma ValidContext(ctxs: seq<ServiceContext>)
    requires ValidContexts(ctxs)
    ensures ValidItem(Scalar(4, |ctxs|))
    ensures forall i :: 0 <= i < |ctxs| ==>
              ValidItem(Scalar(4, ctxs[i].id)) && ValidItem(Scalar(4, |ctxs[i].data|))
                    && ValidItem(Octets(ctxs[i].data))
  {
    LimitOfWord();
  }

  /** The response_expected octet. */
  function ResponseFlag(noResponse: bool): byte {
    if noResponse then 0 else 1
  }

  /** A request header up to the response flag. */
  function RequestHeadItems(ctxs: seq<ServiceContext>, id: nat, noResponse: bool): seq<Item> {
    ContextItems(ctxs) + [Scalar(4, id), Scalar(1, ResponseFlag(noResponse))]
  }

  /** The rest of a request header; `reserved` octets are for revision 1.1. */
  function RequestTailItems(reserved: bool, key: seq<byte>, op: seq<byte>, prin: seq<byte>): seq<Item> {
    (if reserved then [Octets([0, 0, 0])] else [])
    + [Scalar(4, |key|), Octets(key), Str(op), Scalar(4, |prin|), Octets(prin)]
  }

  lemma {:induction false} ContextCount(ctxs: seq<ServiceContext>)
    ensures |ContextList(ctxs)| == 3 * |ctxs|
  {
    if ctxs != [] {
      ContextCount(ctxs[..|ctxs| - 1]);
    }
  }

  lemma {:induction false} ContextAt(ctxs: seq<ServiceContext>, k: nat)
    requires k < |ctxs|
    ensures var t := ContextList(ctxs);
            && |t| == 3 * |ctxs| && t[3 * k] == Scalar(4, ctxs[k].id) && t[3 * k + 1] == Scalar(4, |ctxs[k].data|)
            && t[3 * k + 2] == Octets(ctxs[k].data)
    decreases |ctxs|
  {
    var init := ctxs[..|ctxs| - 1];
    ContextCount(init);
    if k < |init| {
      ContextAt(init, k);
    }
  }

  /** The items of a service context list: how many, and of each its id, its length and its data. */
  lemma ContextsAt(ctxs: seq<ServiceContext>)
    ensures var t := ContextItems(ctxs);
            && |t| == 1 + 3 * |ctxs| && t[0] == Scalar(4, |ctxs|)
            && forall k :: 0 <= k < |ctxs| ==>
                 && t[1 + 3 * k] == Scalar(4, ctxs[k].id) && t[2 + 3 * k] == Scalar(4, |ctxs[k].data|)
                 && t[3 + 3 * k] == Octets(ctxs[k].data)
  {
    ContextCount(ctxs);
    var t, list := ContextItems(ctxs), ContextList(ctxs);
    hide ContextList;
    forall k | 0 <= k < |ctxs|
      ensures t[1 + 3 * k] == Scalar(4, ctxs[k].id) && t[2 + 3 * k] == Scalar(4, |ctxs[k].data|)
      ensures t[3 + 3 * k] == Octets(ctxs[k].data)
    {
      ContextAt(ctxs, k);
      assert t[1 + 3 * k] == list[3 * k] && t[2 + 3 * k] == list[3 * k + 1] && t[3 + 3 * k] == list[3 * k + 2];
    }
  }

  /** The items of a request header, of either revision, behind its n service contexts. */
  lemma RequestAt(ctxs: seq<ServiceContext>, id: nat, noResponse: bool, reserved: bool, key: seq<byte>, op: seq<byte>,
                  prin: seq<byte>)
    ensures var t := RequestHeadItems(ctxs, id, noResponse) + RequestTailItems(reserved, key, op, prin);
            var n := 1 + 3 * |ctxs|;
            && |t| == n + (if reserved then 8 else 7) && t[..n] == ContextItems(ctxs)
            && t[n] == Scalar(4, id) && t[n + 1] == Scalar(1, if noResponse then 0 else 1)
            && t[n + 2..] == (if reserved then [Octets([0, 0, 0])] else [])
                             + [Scalar(4, |key|), Octets(key), Str(op), Scalar(4, |prin|), Octets(prin)]
  {
    ContextsAt(ctxs);
    hide ContextItems;
  }

  lemma ValidWords(id: nat, flag: byte)
    requires id < WORD
    ensures ValidItem(Scalar(4, id)) && ValidItem(Scalar(1, flag))
  {
    LimitOfWord();
    assert Limit(1) == 256;
  }

  lemma ValidSized(s: seq<byte>)
    requires |s| < WORD
    ensures ValidItem(Scalar(4, |s|)) && ValidItem(Octets(s))
  {
    LimitOfWord();
  }

  lemma ValidTail(op: seq<byte>)
    requires |op| < WORD
    ensures ValidItem(Octets([0, 0, 0])) && ValidItem(Str(op))
  {}

  /**
   * GIOPStateT. `handed` is every message given to pc_send, `sent` the streams those messages are, and
   * `inbound` what the peer has sent and has not been read. `sends` says that the transport takes all it is given;
   * otherwise any call of pc_send may fail.
   */
  class Engine {
    const isServer: bool
    const sends: bool
    const coder: Coder
    var major: byte
    var minor: byte
    var state: State
    var status: GiopStatus
    var afrag: FragFlags
    var fragNbyte: nat
    var reqId: nat
    var objkey: seq<byte>
    var marks: Marks
    var msgOut: MsgInfo
    var msgIn: MsgInfo
    var inbound: seq<byte>
    ghost var respOff: nat
    ghost var sent: seq<Stream>
    ghost var handed: seq<seq<byte>>

    /**
     * Every message handed to the transport is well formed, signed, and of a type this agent may send; if that has no
     * body, it has none.
     */
    ghost predicate Trace()
      reads this`sent, this`handed
    {
      && |handed| == |sent|
      && forall i :: 0 <= i < |sent| ==>
           && WellFormed(sent[i], coder.order) && Allowed(isServer, TypeOf(sent[i])) && Matches(sent[i], handed[i])
           && Signed(sent[i], coder.order) && (Bare(TypeOf(sent[i])) ==> |sent[i]| == HDR_SZ)
    }

    ghost predicate HeaderOpen()
      reads this`marks, this`respOff, this`msgOut, this`major, this`minor, coder, coder.bufs
    {
      && coder.Evenly() && (msgOut.typ == FRAGMENT ==> major >= 1 && minor >= 1)
      && HeaderAt(coder.cells, coder.starts, marks, respOff, isServer, msgOut.typ, coder.order)
    }

    /** Settings that coding and fragmenting leave alone. */
    twostate predicate Steady()
      reads this
    {
      && major == old(major) && minor == old(minor) && afrag == old(afrag) && fragNbyte == old(fragNbyte)
      && reqId == old(reqId) && objkey == old(objkey) && msgIn == old(msgIn)
      && (state == old(state) || state == SIdle) && old(handed) <= handed
      && (msgOut.typ == FRAGMENT || (msgOut.typ == old(msgOut.typ) && respOff == old(respOff)))
    }

    /** The engine and its coder belong together, whatever they are doing. */
    ghost predicate Mine()
      reads coder, coder.Repr, One(coder.giop)`afrag, One(coder.owner)`sent, One(coder.owner)`handed,
            One(coder.owner)`major, One(coder.owner)`minor
    {
      coder.owner == this && coder.Shape() && coder.Linked() && Legal(coder.Cfg())
    }

    /** In the middle of coding a message. */
    ghost predicate Coding()
      reads coder, coder.Repr, One(coder.giop)`afrag, One(coder.owner)`sent, One(coder.owner)`handed,
            One(coder.owner)`major, One(coder.owner)`minor
    {
      Mine() && coder.mode == Encoding && coder.Enc(0)
    }

    // ---- patching ----

    /** Overwrite octets of the open message behind its magic, version and type. */
    method Patched(loc: Loc, ghost at: nat, bs: seq<byte>)
      requires Coding() && HeaderOpen() && Locates(coder.starts, |coder.cells|, loc, at, |bs|)
      requires (at == 6 && |bs| == 1 && bs[0] < 4 && bs[0] % 2 == coder.order.Bit()) || at >= 8
      modifies coder.Repr
      ensures Coding() && HeaderOpen() && coder.SameCoder() && coder.Repr == old(coder.Repr)
      ensures coder.cells == Patch(old(coder.cells), at, bs) && coder.starts == old(coder.starts)
      ensures coder.cur == old(coder.cur) && coder.bufs == old(coder.bufs)
    {
      hide Matches, Owned, PastOf, Concat, Patch, Cells, Coder.Ledger, Coder.Geometry, Engine.Trace;
      coder.InRepr();
      ghost var c := coder.cells;
      ghost var s := coder.starts;
      ghost var cur := coder.cur;
      coder.CurrentIsLast();
      coder.Poke(loc, at, bs);
      PatchKeepsHeader(c, s, marks, respOff, isServer, msgOut.typ, coder.order, at, bs);
    }

    static lemma PatchKeepsHeader(c: Stream, s: seq<nat>, m: Marks, respOff: nat, isServer: bool, typ: byte,
          order: Order, at: nat, bs: seq<byte>)
      requires HeaderAt(c, s, m, respOff, isServer, typ, order) && at + |bs| <= |c|
      requires (at == 6 && |bs| == 1 && bs[0] < 4 && bs[0] % 2 == order.Bit()) || at >= 8
      ensures HeaderAt(Patch(c, at, bs), s, m, respOff, isServer, typ, order)
    {
      hide Allowed, Locates, Signed;
      SignedPatched(c, at, bs, order);
      PatchParts(c, at, bs);
      SameHead(Patch(c, at, bs), c, at, 4);
    }

    /** giop_set_msgsz */
    method SetMsgSz(n: nat)
      requires Coding() && HeaderOpen()
      modifies coder.Repr
      ensures Coding() && HeaderOpen() && coder.SameCoder() && coder.Repr == old(coder.Repr)
      ensures |coder.cells| >= HDR_SZ && coder.cells == Patch(old(coder.cells), 8, NativeBytes(n, 4, coder.order))
    {
      hide NativeBytes, Patch, Allowed, Coder.Shape, Coder.Enc, Coder.Linked, Engine.Trace;
      Patched(marks.msgsz, 8, NativeBytes(n, 4, coder.order));
    }

    /** The flags octet, read through the pointer to it. */
    method Flags() returns (flags: byte)
      requires Coding() && HeaderOpen()
      ensures |coder.cells| >= HDR_SZ && flags == FlagsOf(coder.cells)
      ensures flags < 4 && flags % 2 == coder.order.Bit()
    {
      hide Owned, Concat, PastOf, Coder.Ledger, Coder.Geometry, Engine.Trace, Allowed;
      flags := coder.Peek(marks.flags, 6);
    }

    /** giop_set_frags */
    method SetFrags(more: bool)
      requires Coding() && HeaderOpen()
      modifies coder.Repr
      ensures Coding() && HeaderOpen() && coder.SameCoder() && coder.Repr == old(coder.Repr)
      ensures |coder.cells| >= HDR_SZ
      ensures var was := FlagsOf(old(coder.cells));
              coder.cells == Patch(old(coder.cells), 6, [if more then MoreFrags(was) else NoMoreFrags(was)])
    {
      hide Patch, Allowed, Coder.Shape, Coder.Enc, Engine.Trace, MoreFrags, NoMoreFrags;
      var flags := Flags();
      MoreFragsSpelt(flags);
      NoMoreFragsSpelt(flags);
      flags := if more then MoreFrags(flags) else NoMoreFrags(flags);
      Patched(marks.flags, 6, [flags]);
    }

    /** giop_set_noresp: despite its name the pointer leads to the response_expected flag. */
    method SetNoResp(noResponse: bool)
      requires Coding() && HeaderOpen() && respOff > 0
      modifies coder.Repr
      ensures Coding() && HeaderOpen() && coder.SameCoder() && coder.Repr == old(coder.Repr)
      ensures respOff < |old(coder.cells)|
      ensures coder.cells == Patch(old(coder.cells), respOff, [if noResponse then 0 else 1])
    {
      hide Patch, Allowed, Coder.Shape, Coder.Enc, Engine.Trace;
      Patched(marks.resp, respOff, [ResponseFlag(noResponse)]);
    }

    // ---- sending ----

    /** pc_send: the active buffers' octets go to the transport, with an outcome not ours to choose. */
    method PcSend() returns (st: GiopStatus)
      requires Coding() && HeaderOpen() && WellFormed(coder.cells, coder.order)
      requires Bare(msgOut.typ) ==> |coder.cells| == HDR_SZ
      modifies this`sent, this`handed
      ensures Coding() && HeaderOpen() && coder.InBounds()
      ensures sent == old(sent) + [coder.cells] && handed == old(handed) + [coder.Active()]
      ensures st == GIOP_OK || (st == GIOP_ETRANSPORT && !sends)
    {
      hide Owned, Concat, PastOf, Coder.Ledger, Coder.Geometry, Allowed, WellFormed, Coder.Active, Matches;
      coder.ActiveMatches();
      sent, handed := sent + [coder.cells], handed + [coder.Active()];
      var sentAll: bool := *;
      st := if sends || sentAll then GIOP_OK else GIOP_ETRANSPORT;
    }

    /** Patch the size of what has been coded into the open header. */
    method SizeOpen()
      requires Coding() && HeaderOpen()
      modifies coder.Repr
      ensures Coding() && HeaderOpen() && coder.SameCoder() && coder.Repr == old(coder.Repr)
      ensures coder.cells == Sized(old(coder.cells), coder.order)
    {
      hide NativeBytes, Patch, HeaderAt, Matches, Concat, PastOf, Coder.Shape, Engine.Trace;
      coder.OpenLength();
      SetMsgSz(coder.buflen - HDR_SZ);
    }

    /** Patch the more-fragments bit into the open header. */
    method FlagOpen()
      requires Coding() && HeaderOpen()
      modifies coder.Repr
      ensures Coding() && HeaderOpen() && coder.SameCoder() && coder.Repr == old(coder.Repr)
      ensures coder.cells == Flagged(old(coder.cells))
    {
      hide Patch, HeaderAt, Coder.Shape, Coder.Enc, Engine.Trace, MoreFrags, NoMoreFrags, FlagsOf;
      coder.OpenLength();
      SetFrags(true);
    }

    lemma OpenIsOpened()
      requires HeaderOpen()
      ensures Opened(coder.cells)
    {
      hide Opened, Allowed, Locates;
    }

    /** Set the more-fragments bit if asked to, and the size. */
    method Finish(more: bool)
      requires Coding() && HeaderOpen()
      modifies coder.Repr
      ensures Coding() && HeaderOpen() && coder.SameCoder() && coder.Repr == old(coder.Repr)
      ensures coder.cells == Sized(if more then Flagged(old(coder.cells)) else old(coder.cells), coder.order)
      ensures WellFormed(coder.cells, coder.order)
    {
      hide Sized, Flagged, Opened, WellFormed, Coder.Shape, Coder.Enc, Engine.HeaderOpen, Engine.Trace;
      if more {
        FlagOpen();
      }
      OpenIsOpened();
      SizedIsWellFormed(coder.cells, coder.order);
      SizeOpen();
    }

    /** What goes in a message must fit the open one, if messages are limited. */
    ghost predicate Fits(it: Item)
      reads coder, coder.giop, coder.owner
    {
      coder.Cfg().on ==>
        |coder.cells| + (match it
                         case Scalar(n, v) => AlignDelta(|coder.cells|, n) + n
                         case Str(s) => AlignDelta(|coder.cells|, 4) + 4
                         case Octets(s) => if s == [] then 1 else |s|) <= coder.maxlen
    }

    /** A coding call whose item stays in the open message; its status is ignored. */
    method Put(it: Item)
      requires Coding() && ValidItem(it) && Fits(it)
      modifies this, coder.Repr
      ensures unchanged(this) && Coding() && coder.SameCoder() && fresh(coder.Repr - old(coder.Repr))
      ensures coder.cells == old(coder.cells) + EncItem(|old(coder.cells)|, it, coder.order)
      ensures old(HeaderOpen()) ==> HeaderOpen()
      ensures it.Scalar? ==> coder.Last(it.size)
      decreases 0, 9
    {
      hide Matches, HeaderAt, EncItem, AlignDelta, Coder.Shape, Coder.Enc, Engine.Trace;
      PutFits(coder.Flow(), coder.Cfg(), it);
      var st;
      match it
      case Scalar(n, v) => st := coder.EncodeScalar(n, v);
      case Str(s) => st := coder.EncodeStr(s);
      case Octets(s) => st := coder.EncodeOctets(s);
    }

    // ---- headers and fragments ----

    static lemma OneOctet(p: nat, v: byte, order: Order)
      ensures EncItem(p, Scalar(1, v), order) == Cells([v]) && AlignDelta(p, 1) == 0
    {
      assert LittleBytes(v, 1) == [v] + LittleBytes(v / 256, 0);
      assert Pads(0) == [];
    }

    /** CDRCodeOctet */
    method PutOctet(v: byte)
      requires Coding() && (coder.Cfg().on ==> |coder.cells| < coder.maxlen)
      modifies this, coder.Repr
      ensures unchanged(this) && Coding() && coder.SameCoder() && fresh(coder.Repr - old(coder.Repr))
      ensures coder.cells == old(coder.cells) + Cells([v]) && |coder.cells| == |old(coder.cells)| + 1
      ensures old(HeaderOpen()) ==> HeaderOpen()
      ensures coder.Last(1)
      decreases 0, 10
    {
      hide EncItem, AlignDelta, Cells, HeaderAt, Engine.Coding, Coder.SameSettings;
      OneOctet(|coder.cells|, v, coder.order);
      Put(Scalar(1, v));
    }

    /** Start over in the first buffer. */
    method StartMessage()
      requires Mine()
      modifies this, coder.Repr
      ensures unchanged(this)
      ensures Coding() && coder.cells == [] && coder.SameSettings() && coder.Repr == old(coder.Repr) && coder.Evenly()
    {
      hide Matches, Owned, PastOf, Concat, Coder.Ledger, Coder.Geometry, Engine.Trace;
      coder.InRepr();
      coder.mode := Encoding;
      coder.Restart(false);
      if coder.bufs != [] {
        coder.FirstEven();
      }
    }

    /** A new message starts with the magic. */
    method PutMagic()
      requires Mine()
      modifies this, coder.Repr
      ensures unchanged(this) && Coding() && coder.SameSettings() && fresh(coder.Repr - old(coder.Repr))
      ensures coder.cells == Cells(MAGIC) && coder.Evenly()
      decreases 0, 10
    {
      hide Matches, HeaderAt, Cells, Coder.Shape, Coder.Enc, Engine.Trace, Engine.HeaderOpen;
      StartMessage();
      Put(Octets(MAGIC));
    }

    method PutVersion(maj: byte, min: byte)
      requires Coding() && |coder.cells| == 4
      modifies this, coder.Repr
      ensures unchanged(this) && Coding() && coder.SameCoder() && fresh(coder.Repr - old(coder.Repr))
      ensures coder.cells == old(coder.cells) + Cells([maj]) + Cells([min])
      decreases 0, 11
    {
      hide Matches, HeaderAt, Cells, Coder.Shape, Coder.Enc, Engine.Trace, Engine.HeaderOpen;
      PutOctet(maj);
      PutOctet(min);
    }

    /** The magic, the version and the flags, with the pointer to these. */
    method OpenHeader(maj: byte, min: byte) returns (flagsAt: Loc)
      requires Mine()
      modifies this, coder.Repr
      ensures unchanged(this) && Coding() && coder.SameSettings() && fresh(coder.Repr - old(coder.Repr))
      ensures flagsAt == Loc(0, 6) && coder.Evenly()
      ensures coder.cells == Cells(MAGIC) + Cells([maj]) + Cells([min]) + Cells([coder.order.Bit()])
      decreases 0, 12
    {
      hide Matches, HeaderAt, Cells, Coder.Shape, Coder.Enc, Engine.Trace, Engine.HeaderOpen;
      PutMagic();
      PutVersion(maj, min);
      PutOctet(coder.order.Bit());
      flagsAt := coder.Here(1);
    }

    /** The type and a size of zero, with the pointer to that. */
    method CloseHeader(typ: byte) returns (msgszAt: Loc)
      requires Coding() && |coder.cells| == 7
      modifies this, coder.Repr
      ensures unchanged(this) && Coding() && coder.SameCoder() && fresh(coder.Repr - old(coder.Repr))
      ensures coder.cells == old(coder.cells) + Cells([typ]) + Cells(NativeBytes(0, 4, coder.order))
      ensures Locates(coder.starts, HDR_SZ, Loc(0, 6), 6, 1) && Locates(coder.starts, HDR_SZ, msgszAt, 8, 4)
      decreases 0, 11
    {
      hide Matches, HeaderAt, Cells, Locates, NativeBytes, Coder.Shape, Coder.Enc, Engine.Trace, Engine.HeaderOpen;
      PutOctet(typ);
      NoPadding(coder.order);
      Put(Scalar(4, 0));
      msgszAt := coder.Here(4);
      coder.FirstOctets(6);
    }

    /** A word behind eight octets is aligned. */
    static lemma NoPadding(order: Order)
      ensures EncItem(8, Scalar(4, 0), order) == Cells(NativeBytes(0, 4, order)) && AlignDelta(8, 4) == 0
                && 0 < Limit(4)
    {
      hide NativeBytes;
      assert Pads(0) == [];
      LimitOfWord();
    }

    /** giop_hdr_cr: code a header; the size is zero and no more fragments are promised until they are patched. */
    method HdrCr(typ: byte, maj: byte, min: byte)
      requires Mine() && Allowed(isServer, typ)
      requires typ == FRAGMENT ==> major >= 1 && minor >= 1 && maj >= 1 && min >= 1
      modifies this, coder.Repr
      ensures Coding() && HeaderOpen() && coder.SameSettings() && fresh(coder.Repr - old(coder.Repr))
      ensures unchanged(`major, `minor, `state, `status, `afrag, `fragNbyte, `reqId, `objkey, `msgIn, `sent, `handed)
      ensures coder.cells == Header(maj, min, coder.order.Bit(), typ, 0, coder.order)
      ensures var c := coder.cells;
              && |c| == 12 && c[0] == Data('G' as int) && c[1] == Data('I' as int) && c[2] == Data('O' as int)
              && c[3] == Data('P' as int) && c[4] == Data(maj) && c[5] == Data(min)
              && c[6] == Data(if coder.order == Little then 1 else 0) && c[7] == Data(typ)
      ensures msgOut == MsgInfo(maj, min, typ, 0, false) && respOff == 0
      decreases 0, 13
    {
      hide Matches, NativeBytes, Allowed, Locates, Cells, Coder.Shape, Coder.Enc, Signed, Engine.Trace, Owned, Header,
            HeaderAt;
      var flagsAt := OpenHeader(maj, min);
      var msgszAt := CloseHeader(typ);
      HeaderInPieces(maj, min, coder.order.Bit(), typ, coder.order);
      HeaderSpelt(maj, min, coder.order.Bit(), typ, 0, coder.order);
      BitTellsOrder(coder.order);
      MarkHeader(typ, maj, min, flagsAt, msgszAt);
    }

    /** The pointers to a header just coded. */
    method MarkHeader(typ: byte, maj: byte, min: byte, flagsAt: Loc, msgszAt: Loc)
      requires Coding() && coder.Evenly() && coder.cells == Header(maj, min, coder.order.Bit(), typ, 0, coder.order)
      requires Locates(coder.starts, HDR_SZ, flagsAt, 6, 1) && Locates(coder.starts, HDR_SZ, msgszAt, 8, 4)
      requires Allowed(isServer, typ) && (typ == FRAGMENT ==> major >= 1 && minor >= 1 && maj >= 1 && min >= 1)
      modifies this`marks, this`msgOut, this`respOff
      ensures Coding() && HeaderOpen() && msgOut == MsgInfo(maj, min, typ, 0, false) && respOff == 0
    {
      hide Matches, NativeBytes, Allowed, Locates, Cells, Coder.Shape, Coder.Enc, Signed, Engine.Trace, Owned, Header;
      HeaderSigned(maj, min, typ, 0, coder.order);
      HeaderInPieces(maj, min, coder.order.Bit(), typ, coder.order);
      marks := marks.(flags := flagsAt, msgsz := msgszAt);
      msgOut := MsgInfo(maj, min, typ, 0, false);
      respOff := 0;
    }

    static lemma HeaderInPieces(maj: byte, min: byte, flags: byte, typ: byte, order: Order)
      ensures Cells(MAGIC) + Cells([maj]) + Cells([min]) + Cells([flags]) + Cells([typ])
                + Cells(NativeBytes(0, 4, order))
              == Header(maj, min, flags, typ, 0, order)
      ensures Opened(Header(maj, min, flags, typ, 0, order)) && TypeOf(Header(maj, min, flags, typ, 0, order)) == typ
    {
      hide NativeBytes;
      HeaderOpens(maj, min, flags, typ, 0, order, []);
      assert Header(maj, min, flags, typ, 0, order) + [] == Header(maj, min, flags, typ, 0, order);
    }

    /** GIOPFragCreate */
    method FragCreate() returns (st: GiopStatus)
      requires Mine()
      modifies this, coder.Repr
      ensures st == if major < 1 || minor < 1 then GIOP_EREVISION
                    else if old(state) != SIdle then GIOP_EINV_CALL else GIOP_OK
      ensures st == GIOP_OK ==>
                && Coding() && HeaderOpen() && coder.SameSettings() && fresh(coder.Repr - old(coder.Repr))
                && coder.cells == Header(major, minor, coder.order.Bit(), FRAGMENT, 0, coder.order)
                && msgOut == MsgInfo(major, minor, FRAGMENT, 0, false) && respOff == 0 && state == SFragCr
      ensures unchanged(`major, `minor, `status, `afrag, `fragNbyte, `reqId, `objkey, `msgIn, `sent, `handed)
      ensures st != GIOP_OK ==> unchanged(this) && unchanged(coder) && unchanged(coder.Repr)
      decreases 0, 14, 0
    {
      hide Matches, HeaderAt, Header, Coder.Shape, Coder.Enc, Engine.Trace, Coder.SameSettings;
      if major < 1 || minor < 1 {
        return GIOP_EREVISION;
      }
      if state != SIdle {
        return GIOP_EINV_CALL;
      }
      HdrCr(FRAGMENT, major, minor);
      state := SFragCr;
      st := GIOP_OK;
    }

    /** Set the size, and promise more fragments. */
    method SealOpen()
      requires Coding() && HeaderOpen()
      modifies coder.Repr
      ensures Coding() && HeaderOpen() && coder.SameCoder() && coder.Repr == old(coder.Repr)
      ensures coder.cells == Seal(old(coder.cells), coder.order) && WellFormed(coder.cells, coder.order)
    {
      hide Sized, Flagged, Opened, WellFormed, Coder.Shape, Coder.Enc, Engine.HeaderOpen, Engine.Trace;
      OpenIsOpened();
      SealedIsWellFormed(coder.cells, coder.order);
      SizeOpen();
      FlagOpen();
    }

    /** Seal the open message and send it. */
    method SendSealed() returns (st: GiopStatus)
      requires Coding() && HeaderOpen() && !Bare(msgOut.typ)
      modifies this, coder.Repr
      ensures Coding() && HeaderOpen() && coder.SameCoder() && coder.Repr == old(coder.Repr)
      ensures unchanged(`major, `minor, `state, `afrag, `fragNbyte, `reqId, `objkey, `msgIn, `msgOut, `respOff)
      ensures coder.cells == Seal(old(coder.cells), coder.order) && sent == old(sent) + [coder.cells]
      ensures |handed| == |old(handed)| + 1 && old(handed) <= handed
      ensures status == st && (st == GIOP_OK || (st == GIOP_ETRANSPORT && !sends))
    {
      hide Matches, HeaderAt, Seal, Coder.Shape, WellFormed, Engine.Trace, Concat, PastOf, Coder.InBounds, Coder.Active;
      SealOpen();
      st := PcSend();
      status := st;
    }

    /** giop_auto_frag: send what has been coded and go on in a Fragment, unseen by the interrupted call. */
    method AutoFrag() returns (st: GiopStatus)
      requires Coding() && (Fragmentable(msgOut.typ) ==> HeaderOpen())
      modifies this, coder.Repr
      ensures Coding() && fresh(coder.Repr - old(coder.Repr)) && coder.SameCoder() && Steady()
      ensures old(HeaderOpen()) ==> HeaderOpen()
      ensures !old(Fragmentable(msgOut.typ)) ==> st == GIOP_OK && unchanged(this) && coder.Flow() == old(coder.Flow())
      ensures old(Fragmentable(msgOut.typ)) && st == GIOP_OK ==>
                coder.Flow() == Break(old(coder.Flow()), old(coder.Cfg())) && msgOut.typ == FRAGMENT && coder.bufs != []
      ensures old(Fragmentable(msgOut.typ)) && st != GIOP_OK ==>
                var f := old(coder.Flow());
                coder.Flow() == Fragment.Flow(f.sent + [Seal(f.open, coder.order)], Seal(f.open, coder.order))
      ensures st != GIOP_EREVISION ==> state == old(state)
      ensures old(Fragmentable(msgOut.typ)) ==>
                st == status && (st == GIOP_OK || (st == GIOP_ETRANSPORT && !sends) || st == GIOP_EREVISION)
      ensures old(Fragmentable(msgOut.typ)) && st != GIOP_ETRANSPORT ==>
                (st == GIOP_EREVISION <==> major < 1 || minor < 1)
      ensures st == GIOP_EREVISION ==> state == SIdle
      decreases 0, 15
    {
      hide Matches, HeaderAt, Header, Seal, Coder.Shape, Coder.Enc, Engine.HeaderOpen, WellFormed, Opened, Engine.Trace;
      if !Fragmentable(msgOut.typ) {
        return GIOP_OK;
      }
      st := SendSealed();
      if st != GIOP_OK {
        return;
      }
      st := GoOn();
    }

    /** Open a Fragment and put the state back; if the revision has none, the state is left idle. */
    method GoOn() returns (st: GiopStatus)
      requires Coding()
      modifies this, coder.Repr
      ensures Coding() && fresh(coder.Repr - old(coder.Repr)) && coder.SameCoder()
      ensures unchanged(`major, `minor, `afrag, `fragNbyte, `reqId, `objkey, `msgIn, `sent, `handed)
      ensures st == status == if major < 1 || minor < 1 then GIOP_EREVISION else GIOP_OK
      ensures st == GIOP_OK ==>
                HeaderOpen() && coder.cells == FragHeader(coder.Cfg()) && msgOut.typ == FRAGMENT && coder.bufs != []
      ensures st == GIOP_OK ==> state == old(state)
      ensures st != GIOP_OK ==>
                state == SIdle && unchanged(coder) && unchanged(coder.Repr) && unchanged(`msgOut, `marks, `respOff)
      decreases 0, 14, 1
    {
      hide Matches, HeaderAt, Header, Coder.Shape, Coder.Enc, Engine.HeaderOpen, WellFormed, Engine.Trace, Coder.Evenly,
            Owned;
      var saved := state;
      state := SIdle;
      st := FragCreate();
      status := st;
      if st != GIOP_OK {
        return;
      }
      msgOut := msgOut.(typ := FRAGMENT);
      state := saved;
      OpenHasBuffer();
    }

    lemma OpenHasBuffer()
      requires Coding() && coder.cells != []
      ensures coder.bufs != []
    {
      hide Matches, HeaderAt, Owned, Concat, PastOf, Coder.Ledger, Coder.Geometry, Engine.Trace;
    }

    // ---- the message calls ----

    /** What every call of the engine keeps. */
    ghost predicate Valid()
      reads this, coder, coder.Repr, coder.giop, coder.owner, coder.bufs
    {
      && Mine() && !afrag.str && !afrag.msghdr && reqId < WORD && |objkey| < WORD
      && (afrag.on ==> coder.giop == this)
      && (state in {SReqCr, SRepCr, SLRepCr, SFragCr} ==> Coding() && HeaderOpen() && Fragmentable(msgOut.typ))
      && (state == SReqCr ==> msgOut.typ == FRAGMENT || (msgOut.typ == REQUEST && respOff > 0))
    }

    /** The open message completed and given to the transport. */
    function Final(c: Stream, more: bool): Stream {
      Sized(if more then Flagged(c) else c, coder.order)
    }

    /** Complete the open message and send it. */
    method Dispatch(more: bool, isFrag: bool) returns (st: GiopStatus)
      requires Coding() && HeaderOpen() && !Bare(msgOut.typ)
      modifies this, coder.Repr
      ensures Coding() && HeaderOpen() && coder.SameCoder() && coder.Repr == old(coder.Repr)
      ensures unchanged(`major, `minor, `state, `afrag, `fragNbyte, `reqId, `objkey, `msgIn, `marks, `respOff)
      ensures coder.cells == Final(old(coder.cells), more) && sent == old(sent) + [coder.cells]
      ensures |coder.cells| >= HDR_SZ && msgOut == old(msgOut).(size := |coder.cells| - HDR_SZ, isFrag := isFrag)
      ensures |handed| == |old(handed)| + 1 && old(handed) <= handed
      ensures st == status && (st == GIOP_OK || (st == GIOP_ETRANSPORT && !sends))
    {
      hide Matches, HeaderAt, Sized, Flagged, Coder.Shape, WellFormed, Opened, Engine.Trace, Coder.Enc,
            Coder.Evenly;
      Finish(more);
      coder.EncInRepr(0);
      coder.OpenLength();
      msgOut := msgOut.(size := coder.buflen - HDR_SZ, isFrag := isFrag);
      st := PcSend();
      status := st;
    }

    /** GIOPFragSend */
    method FragSend(more: bool) returns (st: GiopStatus)
      requires Valid()
      modifies this, coder.Repr
      ensures Valid() && fresh(coder.Repr - old(coder.Repr)) && old(handed) <= handed
      ensures unchanged(`major, `minor, `afrag, `fragNbyte, `reqId, `objkey, `msgIn) && coder.SameSettings()
      ensures old(state) != SFragCr ==> st == GIOP_EINV_CALL && unchanged(this) && unchanged(coder)
      ensures old(state) == SFragCr ==>
                state == SIdle && sent == old(sent) + [Final(old(coder.cells), more)] && (sends ==> st == GIOP_OK)
    {
      hide Matches, HeaderAt, Sized, Flagged, Coder.Shape, Coder.Enc, Engine.Trace, Concat, PastOf;
      if state != SFragCr {
        return GIOP_EINV_CALL;
      }
      st := Dispatch(more, more);
      state := SIdle;
    }

    // ---- headers of requests and replies ----

    /** Coding a header item by item behind h; fragmentation waits until the header is complete. */
    ghost predicate Building(h: Stream, d: seq<Item>)
      reads this, coder, coder.Repr, coder.giop, coder.owner
    {
      && Coding() && HeaderOpen() && !coder.Cfg().on
      && |h| == HDR_SZ && coder.cells == h + EncAll(|h|, d, coder.order)
    }

    method PutNext(it: Item, ghost h: Stream, ghost d: seq<Item>) returns (ghost e: seq<Item>)
      requires Building(h, d) && ValidItem(it)
      modifies this, coder.Repr
      ensures unchanged(this) && coder.SameCoder() && fresh(coder.Repr - old(coder.Repr))
      ensures e == d + [it] && Building(h, e)
      ensures it.Scalar? ==> coder.Last(it.size) && |coder.cells| >= HDR_SZ + it.size
    {
      hide Matches, HeaderAt, EncAll, EncItem, AlignDelta, Coder.Shape, Coder.Enc;
      ghost var x := EncAll(|h|, d, coder.order);
      Put(it);
      e := d + [it];
      EncAllSnoc(|h|, d, it, coder.order);
      ScalarLength(|h + x|, it, coder.order);
      assert h + x + EncItem(|h + x|, it, coder.order) == h + (x + EncItem(|h + x|, it, coder.order));
    }

    /** A length and that many octets. */
    method PutSized(s: seq<byte>, ghost h: Stream, ghost d: seq<Item>) returns (ghost e: seq<Item>)
      requires Building(h, d) && |s| < WORD
      modifies this, coder.Repr
      ensures unchanged(this) && coder.SameCoder() && fresh(coder.Repr - old(coder.Repr))
      ensures e == d + [Scalar(4, |s|), Octets(s)] && Building(h, e)
    {
      hide ValidItem, EncAll, Engine.Building;
      ValidSized(s);
      e := PutNext(Scalar(4, |s|), h, d);
      e := PutNext(Octets(s), h, e);
    }

    static lemma ScalarLength(p: nat, it: Item, order: Order)
      ensures it.Scalar? ==> |EncItem(p, it, order)| >= it.size
    {
      hide AlignDelta;
    }

    /** giop_serv_cxt */
    method ServCxt(ctxs: seq<ServiceContext>, ghost h: Stream) returns (ghost e: seq<Item>)
      requires Building(h, []) && ValidContexts(ctxs)
      modifies this, coder.Repr
      ensures unchanged(this) && coder.SameCoder() && fresh(coder.Repr - old(coder.Repr))
      ensures e == ContextItems(ctxs) && Building(h, e)
      ensures |e| == 1 + 3 * |ctxs| && e[0] == Scalar(4, |ctxs|)
      ensures forall k :: 0 <= k < |ctxs| ==>
                && e[1 + 3 * k] == Scalar(4, ctxs[k].id) && e[2 + 3 * k] == Scalar(4, |ctxs[k].data|)
                && e[3 + 3 * k] == Octets(ctxs[k].data)
    {
      hide Engine.Building, ValidItem;
      ValidContext(ctxs);
      e := PutNext(Scalar(4, |ctxs|), h, []);
      assert [] + [Scalar(4, |ctxs|)] == [Scalar(4, |ctxs|)] + ContextList(ctxs[..0]);
      var n := 0;
      while n < |ctxs|
        invariant n <= |ctxs| && e == [Scalar(4, |ctxs|)] + ContextList(ctxs[..n]) && Building(h, e)
        invariant unchanged(this) && coder.SameCoder() && fresh(coder.Repr - old(coder.Repr))
      {
        ghost var was := e;
        var c := ctxs[n];
        assert ctxs[..n + 1][..n] == ctxs[..n];
        e := PutNext(Scalar(4, c.id), h, e);
        e := PutSized(c.data, h, e);
        assert e == was + [Scalar(4, c.id), Scalar(4, |c.data|), Octets(c.data)];
        n := n + 1;
      }
      assert ctxs[..n] == ctxs;
      ContextsAt(ctxs);
    }

    /** The pointer to the response flag just coded. */
    method MarkResponse(ghost h: Stream, ghost d: seq<Item>)
      requires Building(h, d) && coder.Last(1) && |coder.cells| > HDR_SZ
      modifies this`marks, this`respOff
      ensures Building(h, d) && respOff + 1 == |coder.cells| == HDR_SZ + |EncAll(HDR_SZ, d, coder.order)|
    {
      hide Matches, Locates, Allowed, EncAll, Coder.Shape, Coder.Enc;
      var at := coder.Here(1);
      marks := marks.(resp := at);
      respOff := |coder.cells| - 1;
    }

    /** giop_inc_id */
    method IncId(ghost h: Stream, ghost d: seq<Item>)
      requires Building(h, d) && reqId < WORD
      modifies this`reqId
      ensures Building(h, d) && reqId == (old(reqId) + 1) % WORD
    {
      hide Matches, HeaderAt, EncAll, Coder.Shape, Coder.Enc, Engine.Trace;
      reqId := if reqId == WORD - 1 then 0 else reqId + 1;
    }

    /** The request header behind the message header h, up to the response flag. */
    method RequestHead(ctxs: seq<ServiceContext>, noResponse: bool, ghost h: Stream) returns (ghost e: seq<Item>)
      requires Building(h, []) && ValidContexts(ctxs) && reqId < WORD
      modifies this, coder.Repr
      ensures Building(h, e) && coder.SameCoder() && fresh(coder.Repr - old(coder.Repr))
      ensures unchanged(`major, `minor, `state, `status, `afrag, `fragNbyte, `objkey, `msgIn, `msgOut, `sent, `handed)
      ensures reqId == (old(reqId) + 1) % WORD && respOff >= HDR_SZ
      ensures e == RequestHeadItems(ctxs, reqId, noResponse)
      ensures respOff + 1 == HDR_SZ + |EncAll(HDR_SZ, e, coder.order)|
    {
      hide ValidItem, EncAll, Engine.Building, Coder.Evenly, Owned, Engine.Trace, HeaderAt;
      e := ServCxt(ctxs, h);
      IncId(h, e);
      ValidWords(reqId, ResponseFlag(noResponse));
      e := PutNext(Scalar(4, reqId), h, e);
      e := PutNext(Scalar(1, ResponseFlag(noResponse)), h, e);
      MarkResponse(h, e);
      assert e == RequestHeadItems(ctxs, reqId, noResponse);
    }

    /** The rest of it: reserved octets for revision 1.1, object key, operation and principal. */
    method RequestTail(op: seq<byte>, prin: seq<byte>, ghost h: Stream, ghost d: seq<Item>) returns (ghost e: seq<Item>)
      requires Building(h, d) && |op| < WORD && |prin| < WORD && |objkey| < WORD
      modifies this, coder.Repr
      ensures unchanged(this) && Building(h, e) && coder.SameCoder() && fresh(coder.Repr - old(coder.Repr))
      ensures e == d + RequestTailItems(major == 1 && minor == 1, objkey, op, prin)
    {
      hide ValidItem, EncAll, Engine.Building;
      ValidTail(op);
      e := d;
      if major == 1 && minor == 1 {
        e := PutNext(Octets([0, 0, 0]), h, e);
      }
      ghost var f := e;
      e := PutSized(objkey, h, e);
      e := PutNext(Str(op), h, e);
      e := PutSized(prin, h, e);
      assert e == f + [Scalar(4, |objkey|), Octets(objkey), Str(op), Scalar(4, |prin|), Octets(prin)];
    }

    /** A complete header behind which a body is to be coded, or a Fragment if it took the message over the limit. */
    twostate predicate Created(d: seq<Item>, typ: byte, maj: byte, min: byte, s: State, st: GiopStatus)
      reads this, coder, coder.Repr, coder.giop, coder.owner
    {
      var open := Header(maj, min, coder.order.Bit(), typ, 0, coder.order) + EncAll(HDR_SZ, d, coder.order);
      var f := Flow(old(sent), open);
      && afrag == old(afrag) && coder.maxlen == old(coder.maxlen)
      && (if old(afrag.on) && |open| > coder.maxlen then
            if st == GIOP_OK then state == s && msgOut.typ == FRAGMENT && coder.Flow() == Break(f, coder.Cfg())
            else
              && sent == old(sent) + [Seal(open, coder.order)] && (state == old(state) || state == SIdle)
              && coder.CutFailed()
          else st == GIOP_OK && state == s && msgOut.typ == typ && coder.Flow() == f)
    }

    /** No fragments while a header is coded. */
    method Suspend(ghost h: Stream) returns (checkSz: bool)
      requires Coding() && HeaderOpen() && |h| == HDR_SZ && coder.cells == h && (afrag.on ==> !afrag.msghdr)
      modifies this`afrag
      ensures Building(h, []) && checkSz == old(afrag.on) && afrag == old(afrag).(on := false)
    {
      hide Matches, HeaderAt, Coder.Shape, Coder.Enc, Engine.Trace;
      checkSz := false;
      assert h + [] == h;
      if afrag.on && !afrag.msghdr {
        checkSz := true;
        afrag := afrag.(on := false);
      }
    }

    /** A header that passed the limit is sent at once. */
    method Flush(checkSz: bool, ghost h: Stream, ghost d: seq<Item>) returns (st: GiopStatus)
      requires Building(h, d) && Fragmentable(msgOut.typ)
      modifies this, coder.Repr
      ensures Coding() && HeaderOpen() && coder.SameCoder() && fresh(coder.Repr - old(coder.Repr)) && Steady()
      ensures var f := Flow(old(sent), h + EncAll(HDR_SZ, d, coder.order));
              if checkSz && |f.open| > coder.maxlen then
                if st == GIOP_OK then msgOut.typ == FRAGMENT && coder.Flow() == Break(f, coder.Cfg())
                else sent == f.sent + [Seal(f.open, coder.order)]
              else st == GIOP_OK && msgOut.typ == old(msgOut.typ) && coder.Flow() == f
      ensures st == GIOP_OK ==> state == old(state)
      ensures || st == GIOP_OK || (st == GIOP_ETRANSPORT && !sends)
              || (st == GIOP_EREVISION && (major < 1 || minor < 1))
    {
      hide Matches, HeaderAt, EncAll, Seal, Break, Coder.Shape, Engine.Trace, Concat, PastOf;
      st := GIOP_OK;
      if checkSz && coder.buflen > coder.maxlen {
        st := AutoFrag();
      }
    }

    static lemma SameBreak(f: Flow, c: Config, d: Config)
      requires c.order == d.order && c.major == d.major && c.minor == d.minor
      ensures Break(f, c) == Break(f, d)
    {}

    /** The header is complete: a fragment if it passed the limit, and the coder may fragment again. */
    method Resume(checkSz: bool, aflags: FragFlags, s: State, ghost h: Stream, ghost d: seq<Item>)
          returns (st: GiopStatus)
      requires Building(h, d) && (s == SReqCr ==> msgOut.typ == REQUEST && respOff > 0) && Fragmentable(msgOut.typ)
                && afrag == aflags.(on := false)
      requires checkSz == aflags.on && (aflags.on ==> coder.giop == this && coder.maxlen >= MIN_FRAGSZ)
      requires !aflags.str && !aflags.msghdr && reqId < WORD && |objkey| < WORD && state == SIdle
      modifies this, coder.Repr
      ensures Valid() && coder.SameCoder() && fresh(coder.Repr - old(coder.Repr))
      ensures unchanged(`major, `minor, `fragNbyte, `reqId, `objkey, `msgIn) && afrag == aflags && status == st
                && old(handed) <= handed
      ensures msgOut.typ == FRAGMENT || respOff == old(respOff)
      ensures st == GIOP_OK || coder.CutFailed()
      ensures var f := Flow(old(sent), h + EncAll(HDR_SZ, d, coder.order));
              if aflags.on && |f.open| > coder.maxlen then
                if st == GIOP_OK then state == s && msgOut.typ == FRAGMENT && coder.Flow() == Break(f, coder.Cfg())
                else state == SIdle && sent == f.sent + [Seal(f.open, coder.order)]
              else st == GIOP_OK && state == s && msgOut.typ == old(msgOut.typ) && coder.Flow() == f
    {
      hide Matches, HeaderAt, EncAll, Seal, Break, Coder.Shape, Coder.Enc, Coder.Linked, Engine.Trace;
      st := Flush(checkSz, h, d);
      ghost var cfg := coder.Cfg();
      PutBack(aflags, s, st);
      SameBreak(Flow(old(sent), h + EncAll(HDR_SZ, d, coder.order)), cfg, coder.Cfg());
    }

    /** The fragmentation settings as they were; the state moves on if all went well. */
    method PutBack(aflags: FragFlags, s: State, st: GiopStatus)
      requires Coding() && HeaderOpen() && Fragmentable(msgOut.typ) && (state == SIdle || state == s)
      requires st == GIOP_OK && s == SReqCr ==> msgOut.typ == FRAGMENT || (msgOut.typ == REQUEST && respOff > 0)
      requires aflags.on ==> coder.giop == this && coder.maxlen >= MIN_FRAGSZ
      requires !aflags.str && !aflags.msghdr && reqId < WORD && |objkey| < WORD && (st != GIOP_OK ==> state == SIdle)
      modifies this`afrag, this`state, this`status
      ensures Valid() && afrag == aflags && status == st && state == (if st == GIOP_OK then s else old(state))
      ensures coder.Cfg() == old(coder.Cfg()).(on := coder.giop != null && aflags.on)
                && coder.Flow() == old(coder.Flow())
    {
      hide Matches, HeaderAt, Coder.Shape, Coder.Enc, Engine.Trace;
      status := st;
      afrag := aflags;
      if status == GIOP_OK {
        state := s;
      }
    }

    /** A message header coded, and fragmentation suspended. */
    method Begin(typ: byte, maj: byte, min: byte) returns (checkSz: bool, ghost h: Stream)
      requires Valid() && (if isServer then typ == REPLY else typ == REQUEST)
      modifies this, coder.Repr
      ensures Building(h, []) && coder.SameSettings() && fresh(coder.Repr - old(coder.Repr))
      ensures unchanged(`major, `minor, `state, `status, `fragNbyte, `reqId, `objkey, `msgIn, `sent, `handed)
      ensures h == Header(maj, min, coder.order.Bit(), typ, 0, coder.order)
      ensures msgOut.typ == typ && checkSz == old(afrag.on) && afrag == old(afrag).(on := false)
    {
      hide Matches, HeaderAt, Header, EncAll, Engine.Building, Coder.Shape, Coder.Enc, Coder.Evenly, Engine.HeaderOpen,
            Engine.Trace;
      HdrCr(typ, maj, min);
      h := coder.cells;
      checkSz := Suspend(h);
    }

    /** GIOPRequestCreate; the operation name has its closing NUL. */
    method RequestCreate(op: seq<byte>, prin: seq<byte>, ctxs: seq<ServiceContext>, noResponse: bool)
          returns (st: GiopStatus)
      requires Valid() && |op| < WORD && |prin| < WORD && ValidContexts(ctxs)
      modifies this, coder.Repr
      ensures Valid() && fresh(coder.Repr - old(coder.Repr)) && coder.SameSettings() && old(handed) <= handed
      ensures unchanged(`major, `minor, `afrag, `fragNbyte, `objkey, `msgIn)
      ensures isServer ==> st == GIOP_EINV_AGENT && unchanged(this) && unchanged(coder)
      ensures !isServer && old(state) != SIdle ==> st == GIOP_EINV_CALL && unchanged(this) && unchanged(coder)
      ensures !isServer && old(state) == SIdle ==>
                && reqId == (old(reqId) + 1) % WORD && unchanged(`major, `minor, `objkey, `msgIn)
                && Created(RequestHeadItems(ctxs, reqId, noResponse)
                      + RequestTailItems(major == 1 && minor == 1, objkey, op, prin),
                           REQUEST, major, minor, SReqCr, st)
                && (msgOut.typ == REQUEST ==>
                      respOff + 1 == HDR_SZ + |EncAll(HDR_SZ, RequestHeadItems(ctxs, reqId, noResponse), coder.order)|)
    {
      hide Matches, HeaderAt, Header, EncAll, Seal, Break, Engine.Building, Coder.Shape, Coder.Enc, Coder.Linked,
            Coder.Evenly;
      if isServer {
        return GIOP_EINV_AGENT;
      }
      if state != SIdle {
        return GIOP_EINV_CALL;
      }
      var aflags := afrag;
      var checkSz;
      ghost var h;
      checkSz, h := Begin(REQUEST, major, minor);
      ghost var d := RequestHead(ctxs, noResponse, h);
      d := RequestTail(op, prin, h, d);
      st := Resume(checkSz, aflags, SReqCr, h, d);
    }

    // ---- coding in an open message ----

    /** A message is open that the coder may cut into fragments. */
    ghost predicate Codable()
      reads this, coder, coder.Repr, coder.giop, coder.owner, coder.bufs
    {
      Coding() && HeaderOpen() && Fragmentable(msgOut.typ)
    }

    /** A coding call, by the application or by the engine itself. */
    method Code(it: Item) returns (st: CdrStatus)
      requires Codable() && ValidItem(it) && (it.Octets? ==> coder.OctetsSafe(|it.s|))
      modifies this, coder.Repr
      ensures Codable() && fresh(coder.Repr - old(coder.Repr)) && coder.SameCoder() && Steady()
      ensures st == CDR_OK ==>
                coder.Flow() == PutItem(old(coder.Flow()), old(coder.Cfg()), it) && coder.Cfg() == old(coder.Cfg())
      ensures st == CDR_OK ==> state == old(state)
      ensures !old(Enters(coder.Flow(), coder.Cfg(), it)) ==> st == CDR_OK
      ensures st == CDR_OK || coder.CutFailed()
    {
      hide Matches, HeaderAt, PutScalar, PutBytes, Room, Coder.Shape, Coder.Enc, Engine.Trace, Engine.HeaderOpen;
      coder.OpenLength();
      OpenHasBuffer();
      match it
      case Scalar(n, v) => st := coder.EncodeScalar(n, v);
      case Str(s) => st := coder.EncodeStr(s);
      case Octets(s) => st := coder.EncodeOctets(s);
    }

    // ---- the other message calls ----

    /**
     * GIOPRequestSend: the response flag is settled and the message goes out, unless only its last fragment is left.
     */
    method RequestSend(noResponse: bool, more: bool) returns (st: GiopStatus)
      requires Valid()
      modifies this, coder.Repr
      ensures Valid() && fresh(coder.Repr - old(coder.Repr)) && old(handed) <= handed
      ensures unchanged(`major, `minor, `afrag, `fragNbyte, `reqId, `objkey, `msgIn) && coder.SameSettings()
      ensures isServer ==> st == GIOP_EINV_AGENT && unchanged(this) && unchanged(coder)
      ensures !isServer && old(state) != SReqCr ==> st == GIOP_EINV_CALL && unchanged(this) && unchanged(coder)
      ensures !isServer && old(state) == SReqCr ==>
                && state == SIdle && (sends ==> st == GIOP_OK)
                && (old(msgOut.typ) == REQUEST ==> old(respOff) < |old(coder.cells)|)
                && sent == old(sent) + [if old(msgOut.typ) == FRAGMENT then Final(old(coder.cells), more)
                                        else Final(Patch(old(coder.cells), old(respOff), [if noResponse then 0 else 1]),
                                                   more && major == 1 && minor == 1)]
    {
      hide Matches, HeaderAt, Patch, Sized, Flagged, Coder.Shape, Coder.Enc, Engine.Trace;
      if isServer {
        return GIOP_EINV_AGENT;
      }
      if state != SReqCr {
        return GIOP_EINV_CALL;
      }
      if msgOut.typ == FRAGMENT {
        state := SFragCr;
        st := FragSend(more);
        return;
      }
      SetNoResp(noResponse);
      st := Dispatch(more && major == 1 && minor == 1, more);
      state := SIdle;
    }

    /** GIOPReplyCreate; `code` is the reply status. */
    method ReplyCreate(maj: byte, min: byte, code: nat, id: nat, ctxs: seq<ServiceContext>) returns (st: GiopStatus)
      requires Valid() && id < WORD && code < WORD && ValidContexts(ctxs)
      modifies this, coder.Repr
      ensures Valid() && fresh(coder.Repr - old(coder.Repr)) && coder.SameSettings() && old(handed) <= handed
      ensures unchanged(`major, `minor, `afrag, `fragNbyte, `objkey, `msgIn)
      ensures !isServer ==> st == GIOP_EINV_AGENT && unchanged(this) && unchanged(coder)
      ensures isServer && old(state) != SIdle ==> st == GIOP_EINV_CALL && unchanged(this) && unchanged(coder)
      ensures isServer && old(state) == SIdle ==>
                && reqId == id && unchanged(`major, `minor, `objkey, `msgIn)
                && Created(ContextItems(ctxs) + [Scalar(4, id), Scalar(4, code)], REPLY, maj, min, SRepCr, st)
    {
      hide Matches, HeaderAt, Header, EncAll, Seal, Break, Engine.Building, ValidItem, Coder.Shape, Coder.Enc,
            Coder.Linked, Coder.Evenly;
      if !isServer {
        return GIOP_EINV_AGENT;
      }
      if state != SIdle {
        return GIOP_EINV_CALL;
      }
      var aflags := afrag;
      var checkSz;
      ghost var h;
      checkSz, h := Begin(REPLY, maj, min);
      ghost var d := ReplyHead(code, id, ctxs, h);
      st := Resume(checkSz, aflags, SRepCr, h, d);
    }

    /** The reply header behind the message header h. */
    method ReplyHead(code: nat, id: nat, ctxs: seq<ServiceContext>, ghost h: Stream) returns (ghost d: seq<Item>)
      requires Building(h, []) && id < WORD && code < WORD && ValidContexts(ctxs)
      modifies this, coder.Repr
      ensures Building(h, d) && coder.SameCoder() && fresh(coder.Repr - old(coder.Repr))
      ensures unchanged(`major, `minor, `state, `status, `afrag, `fragNbyte, `objkey, `msgIn, `msgOut, `sent, `handed)
      ensures reqId == id && d == ContextItems(ctxs) + [Scalar(4, id), Scalar(4, code)]
    {
      hide EncAll, Engine.Building;
      LimitOfWord();
      hide Limit;
      d := ServCxt(ctxs, h);
      ghost var e := d;
      d := PutNext(Scalar(4, id), h, d);
      SetId(id, h, d);
      d := PutNext(Scalar(4, code), h, d);
      assert d == e + [Scalar(4, id), Scalar(4, code)];
    }

    method SetId(id: nat, ghost h: Stream, ghost d: seq<Item>)
      requires Building(h, d)
      modifies this`reqId
      ensures Building(h, d) && reqId == id
    {
      hide Matches, HeaderAt, EncAll, Coder.Shape, Coder.Enc, Engine.Trace;
      reqId := id;
    }

    /** GIOPReplySend */
    method ReplySend(more: bool) returns (st: GiopStatus)
      requires Valid()
      modifies this, coder.Repr
      ensures Valid() && fresh(coder.Repr - old(coder.Repr)) && old(handed) <= handed
      ensures unchanged(`major, `minor, `afrag, `fragNbyte, `reqId, `objkey, `msgIn) && coder.SameSettings()
      ensures !isServer ==> st == GIOP_EINV_AGENT && unchanged(this) && unchanged(coder)
      ensures isServer && old(state) != SRepCr ==> st == GIOP_EINV_CALL && unchanged(this) && unchanged(coder)
      ensures isServer && old(state) == SRepCr ==>
                && state == SIdle && (sends ==> st == GIOP_OK)
                && var flag := more && (old(msgOut.typ) == FRAGMENT || (major == 1 && minor == 1));
                   sent == old(sent) + [Final(old(coder.cells), flag)]
    {
      hide Matches, HeaderAt, Patch, Sized, Flagged, Coder.Shape, Coder.Enc, Engine.Trace;
      if !isServer {
        return GIOP_EINV_AGENT;
      }
      if state != SRepCr {
        return GIOP_EINV_CALL;
      }
      if msgOut.typ == FRAGMENT {
        state := SFragCr;
        st := FragSend(more);
        return;
      }
      st := Dispatch(more && major == 1 && minor == 1, false);
      state := SIdle;
    }

    /** GIOPLocateReplyCreate; a fragment may go out within it, and what comes of that is not reported. */
    method LocateReplyCreate(maj: byte, min: byte, code: nat, id: nat) returns (st: GiopStatus, ghost coded: bool)
      requires Valid() && id < WORD && code < WORD
      modifies this, coder.Repr
      ensures Valid() && fresh(coder.Repr - old(coder.Repr)) && coder.SameSettings() && old(handed) <= handed
      ensures unchanged(`major, `minor, `afrag, `fragNbyte, `objkey, `msgIn)
      ensures !isServer ==> st == GIOP_EINV_AGENT && unchanged(this) && unchanged(coder)
      ensures isServer && old(state) != SIdle ==> st == GIOP_EINV_CALL && unchanged(this) && unchanged(coder)
      ensures isServer && old(state) == SIdle ==>
                && st == GIOP_OK && state == SLRepCr && reqId == id
                && (!afrag.on || (sends && major >= 1 && minor >= 1) ==> coded)
      ensures isServer && old(state) == SIdle && coded ==>
                var h := Flow(old(sent), Header(maj, min, coder.order.Bit(), LOCATE_REPLY, 0, coder.order));
                coder.Flow() == PutAll(h, coder.Cfg(), [Scalar(4, id), Scalar(4, code)])
    {
      hide Matches, HeaderAt, Header, PutItem, PutAll, ValidItem, Coder.Shape, Coder.Enc, Engine.Trace, Coder.Evenly;
      coded := false;
      if !isServer {
        return GIOP_EINV_AGENT, coded;
      }
      if state != SIdle {
        return GIOP_EINV_CALL, coded;
      }
      HdrCr(LOCATE_REPLY, maj, min);
      coded := LocateReplyHead(code, id);
      state := SLRepCr;
      st := GIOP_OK;
    }

    /** The locate reply header. */
    method LocateReplyHead(code: nat, id: nat) returns (ghost coded: bool)
      requires Codable() && id < WORD && code < WORD
      modifies this, coder.Repr
      ensures Codable() && fresh(coder.Repr - old(coder.Repr)) && coder.SameCoder()
      ensures unchanged(`major, `minor, `afrag, `fragNbyte, `objkey, `msgIn) && old(handed) <= handed && reqId == id
      ensures msgOut.typ == old(msgOut.typ) || msgOut.typ == FRAGMENT
      ensures !old(coder.Cfg().on) || (sends && major >= 1 && minor >= 1) ==> coded
      ensures coded ==> coder.Cfg() == old(coder.Cfg())
      ensures coded ==> coder.Flow() == PutAll(old(coder.Flow()), coder.Cfg(), [Scalar(4, id), Scalar(4, code)])
    {
      hide Matches, HeaderAt, PutItem, PutAll, ValidItem, Coder.Shape, Coder.Enc, Engine.Trace;
      ValidWords(id, 0);
      ValidWords(code, 0);
      PutTwo(coder.Flow(), coder.Cfg(), Scalar(4, id), Scalar(4, code));
      var c1 := Code(Scalar(4, id));
      reqId := id;
      var c2 := Code(Scalar(4, code));
      coded := c1 == CDR_OK && c2 == CDR_OK;
    }

    /** GIOPLocateReplySend */
    method LocateReplySend() returns (st: GiopStatus)
      requires Valid()
      modifies this, coder.Repr
      ensures Valid() && fresh(coder.Repr - old(coder.Repr)) && old(handed) <= handed
      ensures unchanged(`major, `minor, `afrag, `fragNbyte, `reqId, `objkey, `msgIn) && coder.SameSettings()
      ensures !isServer ==> st == GIOP_EINV_AGENT && unchanged(this) && unchanged(coder)
      ensures isServer && old(state) != SLRepCr ==> st == GIOP_EINV_CALL && unchanged(this) && unchanged(coder)
      ensures isServer && old(state) == SLRepCr ==>
                state == SIdle && sent == old(sent) + [Final(old(coder.cells), false)] && (sends ==> st == GIOP_OK)
    {
      hide Matches, HeaderAt, Sized, Flagged, Coder.Shape, Coder.Enc, Engine.Trace;
      if !isServer {
        return GIOP_EINV_AGENT;
      }
      if state != SLRepCr {
        return GIOP_EINV_CALL;
      }
      st := Dispatch(false, false);
      state := SIdle;
    }

    /** The key of a locate request, behind its header and two words, is safe to code. */
    predicate KeySafe(key: seq<byte>)
      reads this, coder, coder.bufs
    {
      afrag.on && Possible(coder.Layout()) ==> Safe(coder.Layout(), HDR_SZ + 8, |key|)
    }

    /** GIOPLocateRequestSend */
    method LocateRequestSend(key: seq<byte>) returns (st: GiopStatus, ghost coded: bool)
      requires Valid() && |key| < WORD && KeySafe(key)
      modifies this, coder.Repr
      ensures Valid() && fresh(coder.Repr - old(coder.Repr)) && coder.SameSettings() && old(handed) <= handed
      ensures unchanged(`major, `minor, `afrag, `fragNbyte, `objkey, `msgIn)
      ensures isServer ==> st == GIOP_EINV_AGENT && unchanged(this) && unchanged(coder)
      ensures !isServer && old(state) != SIdle ==> st == GIOP_EINV_CALL && unchanged(this) && unchanged(coder)
      ensures !isServer && old(state) == SIdle ==>
                && state == SIdle && reqId == (old(reqId) + 1) % WORD && (!afrag.on ==> coded)
                && (sends ==> st == GIOP_OK) && (sends && major >= 1 && minor >= 1 ==> coded)
      ensures !isServer && old(state) == SIdle && coded ==>
                var h := Flow(old(sent), Header(major, minor, coder.order.Bit(), LOCATE_REQUEST, 0, coder.order));
                var f := PutAll(h, coder.Cfg(), [Scalar(4, reqId), Scalar(4, |key|), Octets(key)]);
                sent == f.sent + [Final(f.open, false)]
    {
      hide Matches, HeaderAt, Header, PutItem, PutAll, Sized, Flagged, Coder.Shape, Coder.Enc, Engine.Trace, Safe,
            Coder.Evenly, Engine.HeaderOpen, Owned;
      coded := false;
      if isServer {
        return GIOP_EINV_AGENT, coded;
      }
      if state != SIdle {
        return GIOP_EINV_CALL, coded;
      }
      LocateOpen(key);
      coded := LocateHead(key);
      st := Dispatch(false, false);
    }

    /** Its message header, and the next request id. */
    method LocateOpen(ghost key: seq<byte>)
      requires Valid() && !isServer && state == SIdle && KeySafe(key)
      modifies this, coder.Repr
      ensures Codable() && KeySafe(key) && |coder.cells| == HDR_SZ && msgOut.typ == LOCATE_REQUEST
      ensures fresh(coder.Repr - old(coder.Repr)) && coder.SameSettings() && reqId == (old(reqId) + 1) % WORD
      ensures unchanged(`major, `minor, `state, `status, `afrag, `fragNbyte, `objkey, `msgIn, `sent, `handed)
      ensures coder.cells == Header(major, minor, coder.order.Bit(), LOCATE_REQUEST, 0, coder.order)
    {
      hide Matches, HeaderAt, Header, Coder.Shape, Coder.Enc, Engine.Trace, Safe, Coder.Evenly, Owned;
      HdrCr(LOCATE_REQUEST, major, minor);
      reqId := if reqId == WORD - 1 then 0 else reqId + 1;
    }

    /** The locate request header; fragments may go out within it, and what comes of them is ignored. */
    method LocateHead(key: seq<byte>) returns (ghost coded: bool)
      requires Codable() && reqId < WORD && |key| < WORD && |coder.cells| == HDR_SZ && KeySafe(key)
      modifies this, coder.Repr
      ensures Codable() && fresh(coder.Repr - old(coder.Repr)) && coder.SameCoder() && Steady()
      ensures !old(coder.Cfg().on) || (sends && major >= 1 && minor >= 1) ==> coded
      ensures coded ==> state == old(state) && coder.Cfg() == old(coder.Cfg())
      ensures coded ==> coder.Flow() == PutAll(old(coder.Flow()), coder.Cfg(),
                [Scalar(4, reqId), Scalar(4, |key|), Octets(key)])
    {
      hide Matches, HeaderAt, PutItem, PutAll, ValidItem, Coder.Shape, Coder.Enc, Coder.Linked, Engine.Trace,
            Engine.HeaderOpen;
      ValidWords(reqId, 0);
      ValidSized(key);
      PutThree(coder.Flow(), coder.Cfg(), Scalar(4, reqId), Scalar(4, |key|), Octets(key));
      var c1 := LocateId(key);
      var c2 := LocateLength(key);
      var c3 := Code(Octets(key));
      coded := c1 == CDR_OK && c2 == CDR_OK && c3 == CDR_OK;
    }

    static lemma WordLength(f: Flow, cfg: Config, v: nat)
      requires Legal(cfg) && |f.open| % 4 == 0 && (cfg.on ==> |f.open| + 4 <= cfg.maxlen)
      ensures !Enters(f, cfg, Scalar(4, v)) && |PutItem(f, cfg, Scalar(4, v)).open| == |f.open| + 4
    {}

    /** The request id goes behind the header under any limit allowed. */
    method LocateId(ghost key: seq<byte>) returns (st: CdrStatus)
      requires Codable() && reqId < WORD && |coder.cells| == HDR_SZ && KeySafe(key)
      modifies this, coder.Repr
      ensures Codable() && fresh(coder.Repr - old(coder.Repr)) && coder.SameCoder() && Steady() && state == old(state)
      ensures st == CDR_OK && |coder.cells| == HDR_SZ + 4 && coder.Cfg() == old(coder.Cfg()) && KeySafe(key)
      ensures coder.Flow() == PutItem(old(coder.Flow()), old(coder.Cfg()), Scalar(4, reqId))
    {
      hide Matches, HeaderAt, PutItem, Coder.Shape, Coder.Enc, Engine.Trace, Engine.HeaderOpen, Safe,
            Enters, Even;
      ValidWords(reqId, 0);
      WordLength(coder.Flow(), coder.Cfg(), reqId);
      st := Code(Scalar(4, reqId));
    }

    /** The key's length behind that, or behind a new header; then the key is safe. */
    method LocateLength(key: seq<byte>) returns (st: CdrStatus)
      requires Codable() && |key| < WORD && |coder.cells| == HDR_SZ + 4 && KeySafe(key)
      modifies this, coder.Repr
      ensures Codable() && fresh(coder.Repr - old(coder.Repr)) && coder.SameCoder() && Steady()
      ensures !old(coder.Cfg().on) || (sends && major >= 1 && minor >= 1) ==> st == CDR_OK
      ensures st == CDR_OK ==> state == old(state) && coder.Cfg() == old(coder.Cfg())
      ensures st == CDR_OK ==> coder.Flow() == PutItem(old(coder.Flow()), old(coder.Cfg()), Scalar(4, |key|))
      ensures coder.OctetsSafe(|key|)
    {
      hide Matches, HeaderAt, PutItem, Coder.Shape, Coder.Enc, Engine.Trace, Engine.HeaderOpen, Safe,
            Enters, Even, Owned;
      ValidWords(|key|, 0);
      coder.EncInRepr(0);
      OpenHasBuffer();
      if !coder.Cfg().on || coder.maxlen >= HDR_SZ + 8 {
        WordLength(coder.Flow(), coder.Cfg(), |key|);
      }
      st := Code(Scalar(4, |key|));
      coder.EncInRepr(0);
      if coder.Cfg().on && Possible(coder.Layout()) && coder.maxlen < HDR_SZ + 8 {
        SafeAlways(coder.Layout(), coder.buflen, |key|);
      }
    }

    static lemma PutOne(f: Flow, cfg: Config, a: Item)
      requires Legal(cfg)
      ensures PutAll(f, cfg, [a]) == PutItem(f, cfg, a)
    {
      hide PutItem;
      assert [a][1..] == [];
      assert PutAll(PutItem(f, cfg, a), cfg, []) == PutItem(f, cfg, a);
    }

    static lemma PutTwo(f: Flow, cfg: Config, a: Item, b: Item)
      requires Legal(cfg)
      ensures PutAll(f, cfg, [a, b]) == PutItem(PutItem(f, cfg, a), cfg, b)
    {
      hide PutItem;
      assert [a, b][1..] == [b];
      PutOne(PutItem(f, cfg, a), cfg, b);
    }

    static lemma PutThree(f: Flow, cfg: Config, a: Item, b: Item, c: Item)
      requires Legal(cfg)
      ensures PutAll(f, cfg, [a, b, c]) == PutItem(PutItem(PutItem(f, cfg, a), cfg, b), cfg, c)
    {
      hide PutItem;
      assert [a, b, c][1..] == [b, c];
      PutTwo(PutItem(f, cfg, a), cfg, b, c);
    }

    /** GIOPCancelRequestSend */
    method CancelRequestSend(id: nat) returns (st: GiopStatus)
      requires Valid() && id < WORD
      modifies this, coder.Repr
      ensures Valid() && fresh(coder.Repr - old(coder.Repr)) && coder.SameSettings() && old(handed) <= handed
      ensures unchanged(`major, `minor, `afrag, `fragNbyte, `reqId, `objkey, `msgIn)
      ensures isServer ==> st == GIOP_EINV_AGENT && unchanged(this) && unchanged(coder)
      ensures !isServer && old(state) != SIdle ==> st == GIOP_EINV_CALL && unchanged(this) && unchanged(coder)
      ensures !isServer && old(state) == SIdle ==>
                && state == SIdle && (sends ==> st == GIOP_OK)
                && sent == old(sent) + [Header(major, minor, coder.order.Bit(), CANCEL_REQUEST, 4, coder.order)
                                        + Cells(NativeBytes(id, 4, coder.order))]
    {
      hide Matches, HeaderAt, Header, NativeBytes, Sized, Coder.Shape, Coder.Enc, Engine.Trace;
      if isServer {
        return GIOP_EINV_AGENT;
      }
      if state != SIdle {
        return GIOP_EINV_CALL;
      }
      LimitOfWord();
      HdrCr(CANCEL_REQUEST, major, minor);
      BackPatch(major, minor, coder.order.Bit(), CANCEL_REQUEST, 0, coder.order,
            Cells(NativeBytes(id, 4, coder.order)));
      WordBehindHeader(id, coder.order);
      Put(Scalar(4, id));
      st := Dispatch(false, false);
    }

    static lemma WordBehindHeader(v: nat, order: Order)
      ensures AlignDelta(HDR_SZ, 4) == 0 && EncItem(HDR_SZ, Scalar(4, v), order) == Cells(NativeBytes(v, 4, order))
    {
      hide NativeBytes;
      assert Pads(0) == [];
    }

    /** Send a header and nothing else. */
    method SendBare(typ: byte) returns (st: GiopStatus)
      requires Mine() && Allowed(isServer, typ) && typ != FRAGMENT
      modifies this, coder.Repr
      ensures Mine() && fresh(coder.Repr - old(coder.Repr)) && coder.SameSettings() && old(handed) <= handed
      ensures unchanged(`major, `minor, `state, `afrag, `fragNbyte, `reqId, `objkey, `msgIn) && status == st
      ensures st == GIOP_OK || (st == GIOP_ETRANSPORT && !sends)
      ensures sent == old(sent) + [Header(major, minor, coder.order.Bit(), typ, 0, coder.order)]
    {
      hide Matches, HeaderAt, Header, Coder.Shape, Coder.Enc, Coder.Evenly, WellFormed, Engine.Trace, Coder.InBounds,
            Coder.Active, Owned;
      HdrCr(typ, major, minor);
      BareHeader(major, minor, coder.order.Bit(), typ, coder.order);
      st := PcSend();
      status := st;
    }

    /** GIOPMessageErrorSend */
    method MessageErrorSend() returns (st: GiopStatus)
      requires Valid()
      modifies this, coder.Repr
      ensures Valid() && fresh(coder.Repr - old(coder.Repr)) && coder.SameSettings() && old(handed) <= handed
      ensures unchanged(`major, `minor, `afrag, `fragNbyte, `reqId, `objkey, `msgIn)
      ensures old(state) != SIdle ==> st == GIOP_EINV_CALL && unchanged(this) && unchanged(coder)
      ensures old(state) == SIdle ==>
                && state == SIdle && (sends ==> st == GIOP_OK)
                && sent == old(sent) + [Header(major, minor, coder.order.Bit(), MESSAGE_ERROR, 0, coder.order)]
    {
      hide Matches, HeaderAt, Header, Coder.Shape, Coder.Enc, Engine.Trace;
      if state != SIdle {
        return GIOP_EINV_CALL;
      }
      st := SendBare(MESSAGE_ERROR);
    }

    static lemma BareHeader(maj: byte, min: byte, flags: byte, typ: byte, order: Order)
      ensures WellFormed(Header(maj, min, flags, typ, 0, order), order)
    {
      HeaderOpens(maj, min, flags, typ, 0, order, []);
      assert Header(maj, min, flags, typ, 0, order) + [] == Header(maj, min, flags, typ, 0, order);
    }

    /** GIOPCloseConnectionSend: a server says so before the transport closes, if it does. */
    method CloseConnectionSend(closes: bool) returns (st: GiopStatus)
      requires Valid()
      modifies this, coder.Repr
      ensures Valid() && fresh(coder.Repr - old(coder.Repr)) && coder.SameSettings() && old(handed) <= handed
      ensures unchanged(`major, `minor, `afrag, `fragNbyte, `reqId, `objkey, `msgIn)
      ensures old(state) != SIdle ==> st == GIOP_EINV_CALL && unchanged(this) && unchanged(coder)
      ensures old(state) == SIdle ==>
                && state == (if st != GIOP_OK then SIdle else if isServer then SOpen else SInit)
                && (st == GIOP_OK ==> closes) && (closes && (sends || !isServer) ==> st == GIOP_OK)
                && var bare := Header(major, minor, coder.order.Bit(), CLOSE_CONNECTION, 0, coder.order);
                   sent == old(sent) + if isServer then [bare] else []
    {
      hide Matches, HeaderAt, Header, Coder.Shape, Coder.Enc, Engine.Trace, Coder.Evenly;
      if state != SIdle {
        return GIOP_EINV_CALL;
      }
      if isServer {
        st := SendBare(CLOSE_CONNECTION);
        if st != GIOP_OK {
          return;
        }
      }
      st := if closes then GIOP_OK else GIOP_ETRANSPORT;
      status := st;
      if st == GIOP_OK {
        state := if isServer then SOpen else SInit;
      }
    }

    // ---- receiving ----

    /** The coder's buffer has been filled from its start, as far as anything has been decoded. */
    ghost predicate Filled()
      reads this, coder, coder.Repr
    {
      coder.Dec(0) && coder.bufs != [] && coder.Cursor() == At(coder.buflen)
    }

    /**
     * pc_recv: n more octets behind those in the buffer. `up` says that the transport does not fail: then only too
     * short a buffer, or a peer that has not sent so much, keeps them from coming.
     */
    method PcRecv(n: nat, up: bool) returns (st: GiopStatus)
      requires Mine() && Filled()
      modifies this`inbound, coder`buflen, coder.bufs[coder.cur].data
      ensures Mine() && coder.Dec(0)
      ensures st == GIOP_OK || (st == GIOP_ETRANSPORT && Filled())
      ensures st == GIOP_OK ==>
                n <= |old(inbound)| && inbound == old(inbound)[n..] && coder.Cursor() == old(coder.Cursor())
                                && coder.Input() == old(coder.Input()) + old(inbound)[..n]
                                      && coder.buflen == old(coder.buflen) + n
      ensures n > 0 && n > old(coder.bufs[coder.cur].len - coder.bufs[coder.cur].used) ==> st == GIOP_ETRANSPORT
      ensures up && n <= |old(inbound)| && n <= old(coder.bufs[coder.cur].len - coder.bufs[coder.cur].used) ==>
                st == GIOP_OK
    {
      hide Matches, Owned, Coder.Ledger, Coder.Geometry, Engine.Trace;
      coder.InRepr();
      if n == 0 {
        assert inbound[0..] == inbound && coder.Input() + inbound[..0] == coder.Input();
        return GIOP_OK;
      }
      var b := coder.bufs[coder.cur];
      var fails: bool := *;
      if n > b.len - b.used || n > |inbound| || (!up && fails) {
        var k: nat :| k <= |inbound|;
        inbound := inbound[k..];
        return GIOP_ETRANSPORT;
      }
      var bs := inbound[..n];
      inbound := inbound[n..];
      coder.Receive(bs);
      st := GIOP_OK;
    }

    /** Any first buffer has room for the parts of a message header. */
    lemma HeaderRoom()
      requires Mine() && Filled() && coder.buflen == 0
      ensures coder.bufs[coder.cur].len - coder.bufs[coder.cur].used >= 8
    {
      hide Matches, Owned, Coder.Ledger, Engine.Trace;
    }

    /** Start over in the first buffer, getting one if there is none. */
    method StartRead()
      requires Mine()
      modifies coder.Repr
      ensures Mine() && Filled() && coder.buflen == 0 && coder.cur == 0 && coder.mode == old(coder.mode)
      ensures fresh(coder.Repr - old(coder.Repr)) && coder.SameSettings()
    {
      hide Matches, Owned, PastOf, Concat, Coder.Ledger, Coder.Geometry, Engine.Trace, Coder.Enc, Even;
      coder.InRepr();
      if coder.bufs == [] {
        var added := coder.FirstBuffer();
      } else {
        coder.Restart(false);
      }
    }

    /** Read n octets and turn to decoding them. */
    method Fetch(n: nat, up: bool) returns (st: GiopStatus)
      requires Mine() && Filled()
      modifies this`inbound, this`status, coder`buflen, coder`mode, coder.bufs[coder.cur].data
      ensures Mine() && coder.Dec(0) && status == st && (st == GIOP_OK || (st == GIOP_ETRANSPORT && Filled()))
      ensures st == GIOP_OK ==> coder.mode == Decoding && n <= |old(inbound)| && inbound == old(inbound)[n..]
                                && coder.Cursor() == old(coder.Cursor()) && coder.buflen == old(coder.buflen) + n
                                && coder.Input() == old(coder.Input()) + old(inbound)[..n]
      ensures coder.bufs != [] && coder.bufs[0].len == old(coder.bufs[0].len)
      ensures n > 0 && n > old(coder.bufs[coder.cur].len - coder.bufs[coder.cur].used) ==> st == GIOP_ETRANSPORT
      ensures up && n <= |old(inbound)| && n <= old(coder.bufs[coder.cur].len - coder.bufs[coder.cur].used) ==>
                st == GIOP_OK
    {
      hide Matches, Owned, Coder.Ledger, Coder.Geometry, Engine.Trace, Concat, PastOf, Coder.Enc;
      st := PcRecv(n, up);
      status := st;
      if st == GIOP_OK {
        coder.mode := Decoding;
      }
    }

    /** CDRCodeNOctet of the four octets there are. */
    method GetMagic() returns (mag: seq<byte>)
      requires Mine() && coder.Dec(0) && coder.bufs != [] && coder.Cursor() == At(0) && coder.buflen == 4
      modifies coder.bufs
      ensures Mine() && coder.Dec(0) && OnlyHeader() && coder.buflen == 4 && coder.Cursor() == At(4)
                && mag == old(coder.Input())
    {
      hide Matches, Owned, Coder.Ledger, Coder.Geometry, Engine.Trace, Decode;
      MagicAt(coder.Input(), coder.order, coder.sex);
      var ds, octets := coder.DecodeOctets(4);
      mag := octets;
    }

    /** CDRReset of a buffer all of which is in use: nothing is left of it. */
    method DropRead()
      requires Mine() && coder.Dec(0) && coder.bufs != [] && coder.Cursor() == At(coder.buflen)
      modifies coder`buflen, coder.bufs
      ensures Mine() && Filled() && OnlyHeader() && coder.buflen == 0
    {
      hide Matches, Owned, Coder.Ledger, Coder.Geometry, Engine.Trace, PastOf, Concat;
      var rs := coder.Reset(true);
    }

    /** The magic: its four octets are read, looked at and dropped. */
    method ReadMagic(up: bool) returns (st: GiopStatus)
      requires Mine() && Filled() && coder.buflen == 0
      modifies this`inbound, this`status, coder`buflen, coder`mode, coder.bufs, coder.bufs[coder.cur].data
      ensures Mine() && OnlyHeader() && coder.bufs != []
      ensures st == GIOP_OK || st == GIOP_ETRANSPORT || st == GIOP_EBADMAGIC
      ensures st == GIOP_ETRANSPORT <==> status == GIOP_ETRANSPORT
      ensures st != GIOP_ETRANSPORT ==> |old(inbound)| >= 4 && inbound == old(inbound)[4..]
                                        && (st == GIOP_OK <==> old(inbound)[..4] == MAGIC)
      ensures st == GIOP_OK ==> Filled() && coder.buflen == 0
      ensures up && |old(inbound)| >= 4 ==> st != GIOP_ETRANSPORT
    {
      hide Coder.Dec, Coder.Shape, Engine.Trace, Coder.Input, Coder.Cursor;
      ghost var was := inbound;
      st := FetchMagic(was, up);
      if st != GIOP_OK {
        return;
      }
      var mag := GetMagic();
      if mag != MAGIC {
        return GIOP_EBADMAGIC;
      }
      DropRead();
    }

    method FetchMagic(ghost was: seq<byte>, up: bool) returns (st: GiopStatus)
      requires Mine() && Filled() && coder.buflen == 0 && was == inbound
      modifies this`inbound, this`status, coder`buflen, coder`mode, coder.bufs[coder.cur].data
      ensures Mine() && OnlyHeader() && (st == GIOP_OK || st == GIOP_ETRANSPORT) && st == status && coder.bufs != []
      ensures st == GIOP_OK ==> 4 <= |was| && inbound == was[4..] && coder.Dec(0) && coder.Cursor() == At(0)
                                && coder.buflen == 4 && coder.Input() == was[..4]
      ensures up && |was| >= 4 ==> st == GIOP_OK
    {
      hide Matches, Owned, Coder.Ledger, Coder.Geometry, Engine.Trace, Concat, PastOf, Coder.Enc;
      HeaderRoom();
      st := Fetch(4, up);
    }

    static lemma MagicAt(input: seq<byte>, native: Order, sex: nat)
      requires |input| == 4
      ensures Decode(input, At(0), SOctets(4), native, sex) == (Got(Octets(input)), At(4))
    {
      assert AlignDelta(0, 1) == 0;
      assert input[0..0 + 4] == input;
    }

    /** The rest of a message header, decoded up to offset p. */
    ghost predicate Reading(w: seq<byte>, p: nat)
      reads coder, coder.Repr, One(coder.giop)`afrag, One(coder.owner)`sent, One(coder.owner)`handed,
            One(coder.owner)`major, One(coder.owner)`minor
    {
      && Mine() && coder.Dec(0) && coder.bufs != [] && coder.mode == Decoding
      && |w| == 8 && coder.Input() == w && coder.Cursor() == At(p)
    }

    /** What reading a header leaves alone in the coder. */
    twostate predicate OnlyHeader()
      reads coder, coder.bufs
    {
      && coder.Repr == old(coder.Repr) && coder.bufs == old(coder.bufs) && coder.cur == old(coder.cur)
      && coder.maxlen == old(coder.maxlen) && coder.giop == old(coder.giop) && coder.owner == old(coder.owner)
      && coder.allocMin == old(coder.allocMin)
      && forall i :: 0 <= i < |coder.bufs| ==> coder.bufs[i].len == old(coder.bufs[i].len)
    }

    /** CDRCodeOctet, of what is known to be there. */
    method GetOctet(ghost w: seq<byte>, ghost p: nat) returns (b: byte)
      requires Reading(w, p) && p < 8
      modifies coder.bufs
      ensures Reading(w, p + 1) && OnlyHeader() && b == w[p]
    {
      hide Matches, Owned, Coder.Ledger, Coder.Geometry, Engine.Trace, Decode;
      SingleOctetAt(w, p);
      var ds, v := coder.DecodeScalar(1);
      b := v;
    }

    lemma SingleOctetAt(w: seq<byte>, p: nat)
      requires Reading(w, p) && p < 8
      ensures coder.Expect(SScalar(1)) == (Got(Scalar(1, w[p] as int)), At(p + 1))
    {
      hide Matches, Owned, Coder.Ledger, Coder.Geometry, Decode;
      Coder.SingleOctet(w, p, coder.order, coder.sex);
    }

    /** CDRCodeULong of the message size. */
    method GetSize(ghost w: seq<byte>) returns (n: nat)
      requires Reading(w, 4)
      modifies coder.bufs
      ensures Reading(w, 8) && OnlyHeader() && n == Decoded(w[4..8], coder.order, coder.sex)
    {
      hide Matches, Owned, Coder.Ledger, Coder.Geometry, Engine.Trace, Decoded;
      assert AlignDelta(4, 4) == 0;
      var ds, v := coder.DecodeScalar(4);
      n := v;
    }

    /** The byte order a header names: a flag bit since revision 1.1, the whole octet before. */
    static function SexOf(flags: byte, min: byte): nat {
      if min == 1 then flags % 2 else flags
    }

    /** What the eight octets behind the magic say, as far as it is acceptable. */
    static function Parsed(w: seq<byte>, isServer: bool, minor: byte, native: Order): (GiopStatus, MsgInfo)
      requires |w| == 8
    {
      var inUse := if w[1] != 1 && !isServer then w[1] else minor;
      if w[0] != 1 || w[1] > 1 then (GIOP_EREVISION, MsgInfo(w[0], w[1], UNKNOWN, 0, false))
      else if w[3] > FRAGMENT || (inUse < 1 && w[3] == FRAGMENT) then
        (GIOP_EINV_MSGTYP, MsgInfo(w[0], w[1], UNKNOWN, 0, false))
      else
        var size := Decoded(w[4..8], native, SexOf(w[2], w[1]));
        (GIOP_OK, MsgInfo(w[0], w[1], w[3], size, w[1] == 1 && (w[2] / 2) % 2 == 1))
    }

    /** The octets behind the magic. */
    method FetchFields(ghost was: seq<byte>, up: bool) returns (st: GiopStatus)
      requires Mine() && Filled() && coder.buflen == 0 && was == inbound
      modifies this`inbound, this`status, coder`buflen, coder`mode, coder.bufs[coder.cur].data
      ensures Mine() && OnlyHeader() && (st == GIOP_OK || st == GIOP_ETRANSPORT) && st == status
      ensures unchanged(`msgIn, `minor)
      ensures st == GIOP_OK ==> 8 <= |was| && inbound == was[8..] && Reading(was[..8], 0)
      ensures up && |was| >= 8 ==> st == GIOP_OK
    {
      hide Matches, Owned, Coder.Ledger, Coder.Geometry, Engine.Trace, Concat, PastOf, Coder.Enc;
      HeaderRoom();
      st := Fetch(8, up);
    }

    /** Take the byte order and, since revision 1.1, the more-fragments bit from the flags. */
    method TakeFlags(flags: byte, min: byte, ghost w: seq<byte>, ghost p: nat)
      requires Reading(w, p)
      modifies this`msgIn, this`minor, coder`sex
      ensures Reading(w, p) && OnlyHeader() && coder.sex == SexOf(flags, min)
      ensures msgIn == if min == 1 then old(msgIn).(isFrag := (flags / 2) % 2 == 1) else old(msgIn)
      ensures minor == if min != 1 && !isServer then min else old(minor)
    {
      hide Matches, Owned, Coder.Ledger, Coder.Geometry, Engine.Trace, Concat, PastOf;
      if min == 1 {
        coder.sex := flags % 2;
        msgIn := msgIn.(isFrag := (flags / 2) % 2 == 1);
      } else {
        coder.sex := flags;
        if !isServer {
          minor := min;
        }
      }
    }

    /** Octets and version. */
    method ReadVersion(ghost was: seq<byte>, up: bool) returns (st: GiopStatus)
      requires Mine() && Filled() && coder.buflen == 0 && was == inbound
      modifies this`inbound, this`status, this`msgIn, coder`buflen, coder`mode, coder.bufs, coder.bufs[coder.cur].data
      ensures Mine() && OnlyHeader() && (st == GIOP_OK || st == GIOP_ETRANSPORT) && st == status
      ensures st == GIOP_OK ==> 8 <= |was| && inbound == was[8..] && Reading(was[..8], 2)
                                && msgIn == old(msgIn).(major := was[0], minor := was[1])
      ensures unchanged(`minor) && (st != GIOP_OK ==> msgIn == old(msgIn))
      ensures up && |was| >= 8 ==> st == GIOP_OK
    {
      hide Decoded, Decode, Coder.Dec, Coder.Shape, Engine.Trace, Coder.Input, Coder.Cursor;
      st := FetchFields(was, up);
      if st != GIOP_OK {
        return;
      }
      ghost var w := was[..8];
      var maj := GetOctet(w, 0);
      var min := GetOctet(w, 1);
      msgIn := msgIn.(major := maj, minor := min);
    }

    /** Flags, type and size, of a version that will do. */
    method ReadKind(ghost w: seq<byte>) returns (st: GiopStatus)
      requires Reading(w, 2) && msgIn == MsgInfo(w[0], w[1], UNKNOWN, 0, msgIn.isFrag) && w[0] == 1 && w[1] <= 1
      modifies this`msgIn, this`minor, coder`sex, coder.bufs
      ensures Reading(w, if st == GIOP_OK then 8 else 4) && OnlyHeader()
      ensures coder.sex == SexOf(w[2], w[1])
      ensures minor == if w[1] == 0 && !isServer then 0 else old(minor)
      ensures var p := Parsed(w, isServer, old(minor), coder.order);
              st == p.0 && msgIn == p.1.(isFrag := if w[1] == 1 then (w[2] / 2) % 2 == 1 else old(msgIn.isFrag))
    {
      hide Decoded, Decode, Coder.Dec, Coder.Shape, Engine.Trace, Coder.Input, Coder.Cursor, Coder.Evenly, Owned,
            HeaderAt;
      var min := msgIn.minor;
      var flags := GetOctet(w, 2);
      TakeFlags(flags, min, w, 3);
      var typ := GetOctet(w, 3);
      if typ > FRAGMENT || (minor < 1 && typ == FRAGMENT) {
        return GIOP_EINV_MSGTYP;
      }
      msgIn := msgIn.(typ := typ);
      var size := GetSize(w);
      msgIn := msgIn.(size := size);
      st := GIOP_OK;
    }

    /** The rest of the message header. */
    method ReadFields(up: bool) returns (st: GiopStatus)
      requires Mine() && Filled() && coder.buflen == 0 && msgIn.typ == UNKNOWN && msgIn.size == 0
      modifies this`inbound, this`status, this`msgIn, this`minor, coder, coder.bufs, coder.bufs[coder.cur].data
      ensures Mine() && OnlyHeader()
      ensures st == GIOP_ETRANSPORT <==> status == GIOP_ETRANSPORT
      ensures st != GIOP_ETRANSPORT ==>
                && |old(inbound)| >= 8 && inbound == old(inbound)[8..]
                && var w := old(inbound)[..8];
                   var p := Parsed(w, isServer, old(minor), coder.order);
                   && st == p.0 && st != GIOP_EBADMAGIC && msgIn == p.1.(isFrag := msgIn.isFrag)
                   && (w[1] == 1 && st == GIOP_OK ==> msgIn.isFrag == ((w[2] / 2) % 2 == 1))
                   && (st == GIOP_OK ==> Reading(w, 8) && coder.sex == SexOf(w[2], w[1]))
                   && (st == GIOP_OK ==> minor == if w[1] == 0 && !isServer then 0 else old(minor))
      ensures up && |old(inbound)| >= 8 ==> st != GIOP_ETRANSPORT
    {
      hide Decoded, Decode, Coder.Dec, Coder.Shape, Engine.Trace, Coder.Input, Coder.Cursor;
      ghost var was := inbound;
      st := ReadVersion(was, up);
      if st != GIOP_OK {
        return;
      }
      if msgIn.major != 1 || msgIn.minor > 1 {
        return GIOP_EREVISION;
      }
      st := ReadKind(was[..8]);
    }

    /** The settings for fragmentation are as they were. */
    twostate predicate StillSet()
      reads coder
    {
      coder.maxlen == old(coder.maxlen) && coder.giop == old(coder.giop)
    }

    /** Make the first buffer long enough for the body and four octets before it. */
    method MakeBuffer(size: nat) returns (st: GiopStatus)
      requires Mine() && coder.cur == 0 && coder.bufs != []
      modifies coder.Repr
      ensures Mine() && StillSet() && coder.bufs != [] && coder.sex == old(coder.sex)
                && fresh(coder.Repr - old(coder.Repr))
      ensures st == GIOP_ENOSPACE || (st == GIOP_OK && Coding() && coder.cells == [] && coder.cur == 0)
      ensures st == GIOP_ENOSPACE <==> !coder.canFree && old(coder.bufs[0].len) < (size + 4) % WORD
      ensures st == GIOP_OK ==> coder.bufs[0].len >= (size + 4) % WORD
      ensures old(coder.bufs[0].len) >= (size + 4) % WORD ==> coder.bufs[0].len == old(coder.bufs[0].len)
    {
      hide Matches, Owned, Coder.Ledger, Coder.Geometry, Engine.Trace, Concat, PastOf, Coder.GaveBack, HeaderAt,
            Coder.Evenly;
      coder.InRepr();
      var ns, k := coder.NeedBuffer((size + 4) % WORD);
      if ns != CDR_OK {
        return GIOP_ENOSPACE;
      }
      coder.mode := Encoding;
      st := GIOP_OK;
    }

    /** Four dummy octets, so that the body is aligned as in the message. */
    method PadOut()
      requires Coding() && coder.cells == [] && coder.bufs != []
      modifies this, coder.Repr
      ensures unchanged(this) && Mine() && Filled() && coder.buflen == 4 && coder.mode == Decoding
      ensures coder.cur == 0 && coder.bufs[0].used == 4
      ensures fresh(coder.Repr - old(coder.Repr)) && coder.SameSettings()
    {
      hide Matches, Owned, Coder.Ledger, Engine.Trace, Concat, PastOf, HeaderAt, Even;
      PutDummy();
      coder.mode := Decoding;
    }

    method PutDummy()
      requires Coding() && coder.cells == [] && coder.bufs != []
      modifies this, coder.Repr
      ensures unchanged(this) && Coding() && coder.SameCoder() && fresh(coder.Repr - old(coder.Repr))
      ensures |coder.cells| == 4 && coder.bufs != [] && coder.cur == 0 && coder.bufs[0].used == 4
    {
      hide Matches, Coder.Shape, Coder.Enc, Coder.Evenly, Engine.Trace, Engine.HeaderOpen, NativeBytes;
      assert AlignDelta(0, 4) == 0;
      LimitOfWord();
      Put(Scalar(4, 0));
      coder.InFirstFour();
    }

    static lemma SubSlice(w: seq<byte>, i: nat, n: nat)
      requires i <= |w|
      ensures i + n <= |w| ==> w[i..][..n] == w[i..i + n] && w[i..][n..] == w[i + n..]
    {}

    /** The body of a message whose header has been read. */
    method ReadBody(size: nat, up: bool) returns (st: GiopStatus)
      requires Mine() && coder.cur == 0 && coder.bufs != [] && 0 < size
      modifies this, coder.Repr
      ensures Mine() && StillSet() && coder.sex == old(coder.sex) && fresh(coder.Repr - old(coder.Repr))
      ensures unchanged(`major, `minor, `state, `afrag, `fragNbyte, `reqId, `objkey, `marks, `msgOut, `msgIn, `respOff,
                `sent, `handed)
      ensures st in {GIOP_OK, GIOP_ETRANSPORT, GIOP_ENOSPACE}
      ensures st == GIOP_ENOSPACE <==> !coder.canFree && old(coder.bufs[0].len) < (size + 4) % WORD
      ensures size + 4 >= WORD && old(coder.bufs[0].len) < size + 4 && (size + 4) % WORD <= old(coder.bufs[0].len) ==>
                st == GIOP_ETRANSPORT
      ensures up && st != GIOP_ENOSPACE && size <= |old(inbound)|
              && (size + 4 < WORD || size + 4 <= old(coder.bufs[0].len)) ==>
                st == GIOP_OK
      ensures st == GIOP_OK ==>
                && size <= |old(inbound)| && inbound == old(inbound)[size..]
                && coder.Dec(0) && coder.bufs != [] && coder.Cursor() == At(4) && coder.mode == Decoding
                && |coder.Input()| == size + 4 && coder.Input()[4..] == old(inbound)[..size]
    {
      hide Coder.Shape, Coder.Enc, Coder.Dec, Coder.Input, Coder.Cursor, Engine.Trace;
      st := MakeBuffer(size);
      if st != GIOP_OK {
        return;
      }
      PadOut();
      st := FetchBody(size, up);
    }

    method FetchBody(size: nat, up: bool) returns (st: GiopStatus)
      requires Mine() && Filled() && coder.buflen == 4 && coder.mode == Decoding && 0 < size
      requires coder.cur == 0 && coder.bufs[0].used == 4
      modifies this`inbound, this`status, coder.Repr
      ensures Mine() && OnlyHeader() && coder.sex == old(coder.sex) && (st == GIOP_OK || st == GIOP_ETRANSPORT)
      ensures size + 4 > old(coder.bufs[0].len) ==> st == GIOP_ETRANSPORT
      ensures up && size <= |old(inbound)| && size + 4 <= old(coder.bufs[0].len) ==> st == GIOP_OK
      ensures st == GIOP_OK ==>
                && size <= |old(inbound)| && inbound == old(inbound)[size..]
                && coder.Dec(0) && coder.bufs != [] && coder.Cursor() == At(4) && coder.mode == Decoding
                && |coder.Input()| == size + 4 && coder.Input()[4..] == old(inbound)[..size]
    {
      hide Matches, Owned, Coder.Ledger, Coder.Geometry, Engine.Trace, Concat, PastOf, Coder.Enc;
      coder.InRepr();
      st := Fetch(size, up);
    }

    /** What is wrong with the header of the peer's octets w, if all of them arrive. */
    static function HeaderVerdict(w: seq<byte>, isServer: bool, minor: byte, native: Order): GiopStatus {
      if |w| < 4 then GIOP_ETRANSPORT
      else if w[..4] != MAGIC then GIOP_EBADMAGIC
      else if |w| < HDR_SZ then GIOP_ETRANSPORT
      else Parsed(w[4..HDR_SZ], isServer, minor, native).0
    }

    /** The same in terms of those octets alone, and what a good header says. */
    static lemma HeaderSaid(w: seq<byte>, isServer: bool, minor: byte, native: Order)
      ensures HeaderVerdict(w, isServer, minor, native)
              == if |w| < 4 then GIOP_ETRANSPORT
                 else if !(w[0] == 'G' as int && w[1] == 'I' as int && w[2] == 'O' as int && w[3] == 'P' as int) then
                   GIOP_EBADMAGIC
                 else if |w| < 12 then GIOP_ETRANSPORT
                 else if w[4] != 1 || w[5] > 1 then GIOP_EREVISION
                 else if w[7] > 7 || (w[7] == 7 && (if w[5] == 0 && !isServer then 0 else minor) < 1) then
                   GIOP_EINV_MSGTYP
                 else GIOP_OK
      ensures HeaderVerdict(w, isServer, minor, native) == GIOP_OK ==>
                && |w| >= 12
                && var p := Parsed(w[4..12], isServer, minor, native).1;
                   var a: nat, b: nat, c: nat, d: nat := w[8], w[9], w[10], w[11];
                   && p.typ == w[7]
                   && p.size == if (w[5] == 1 && w[6] % 2 == 1) || (w[5] == 0 && w[6] == 1)
                                   || (w[5] == 0 && w[6] > 1 && native == Big)
                                then a + 0x100 * b + 0x1_0000 * c + 0x100_0000 * d
                                else d + 0x100 * c + 0x1_0000 * b + 0x100_0000 * a
    {
      hide Decoded;
      if |w| >= 4 {
        assert w[..4] == [w[0], w[1], w[2], w[3]];
      }
      if |w| >= 12 {
        HeaderOctets(w);
        WordDecoded(w[4..12][4..8], native, SexOf(w[6], w[5]));
      }
    }

    static lemma HeaderOctets(w: seq<byte>)
      requires |w| >= 12
      ensures var v := w[4..12];
              && |v| == 8 && v[0] == w[4] && v[1] == w[5] && v[2] == w[6] && v[3] == w[7]
              && v[4..8][0] == w[8] && v[4..8][1] == w[9] && v[4..8][2] == w[10] && v[4..8][3] == w[11]
    {}

    lemma FirstRoom()
      requires Mine()
      ensures coder.Layout().first >= 8
    {
      hide Matches, Owned, Coder.Ledger, Engine.Trace;
    }

    /** The first twelve octets of the next message. */
    method ReadHeader(ghost w: seq<byte>, up: bool) returns (st: GiopStatus)
      requires Mine() && msgIn.typ == UNKNOWN && msgIn.size == 0 && w == inbound
      modifies this, coder.Repr
      ensures Mine() && StillSet() && fresh(coder.Repr - old(coder.Repr))
      ensures unchanged(`major, `state, `afrag, `fragNbyte, `reqId, `objkey, `marks, `msgOut, `respOff, `sent, `handed)
      ensures up || st != GIOP_ETRANSPORT ==> st == HeaderVerdict(w, isServer, old(minor), coder.order)
      ensures st == GIOP_OK ==> coder.bufs != [] && coder.bufs[0].len == old(coder.Layout().first)
      ensures st == GIOP_OK ==>
                && HDR_SZ <= |w| && w[..4] == MAGIC && inbound == w[HDR_SZ..]
                && minor == (if w[5] == 0 && !isServer then 0 else old(minor))
                && (w[5] == 1 ==> msgIn.isFrag == ((w[6] / 2) % 2 == 1))
                && var p := Parsed(w[4..HDR_SZ], isServer, old(minor), coder.order);
                   p.0 == GIOP_OK && msgIn.typ == p.1.typ && msgIn.size == p.1.size
                   && coder.sex == SexOf(w[6], w[5]) && coder.cur == 0 && coder.bufs != []
    {
      hide Matches, HeaderAt, Owned, Coder.Ledger, Coder.Geometry, Engine.Trace, Concat, PastOf, Coder.Enc, Parsed,
            Coder.Evenly;
      StartRead();
      coder.InRepr();
      st := ReadMagic(up);
      if st != GIOP_OK {
        return;
      }
      SubSlice(w, 4, 8);
      st := ReadFields(up);
    }

    /**
     * GIOPGetNextMsg: the next message the peer sent, its header checked and its body in the coder behind four
     * dummy octets, in the byte order its header names. If the transport does not fail, the octets settle the outcome,
     * with the length of the first buffer for a body that this has to take.
     */
    method GetNextMsg(up: bool) returns (st: GiopStatus, typ: byte)
      requires Valid()
      modifies this, coder.Repr
      ensures Valid() && StillSet() && fresh(coder.Repr - old(coder.Repr))
      ensures unchanged(`major, `state, `afrag, `fragNbyte, `reqId, `objkey, `marks, `msgOut, `respOff, `sent, `handed)
      ensures old(state) != SIdle ==> st == GIOP_EINV_CALL && typ == UNKNOWN
      ensures old(state) == SIdle && (up || st != GIOP_ETRANSPORT) ==>
                Answers(old(inbound), isServer, old(minor), coder.order, old(coder.Layout().first), coder.canFree,
                        st, typ, msgIn)
      ensures st == GIOP_OK ==>
                var w := old(inbound);
                && 12 <= |w| && typ == msgIn.typ == w[7]
                && minor == (if w[5] == 0 && !isServer then 0 else old(minor))
                && (w[5] == 1 ==> msgIn.isFrag == ((w[6] / 2) % 2 == 1))
                && coder.sex == (if w[5] == 1 then w[6] % 2 else w[6])
                && 12 + msgIn.size <= |w| && inbound == w[12 + msgIn.size..]
                && (msgIn.size > 0 ==>
                      && coder.Dec(0) && coder.CanDecode() && coder.bufs != [] && coder.Cursor() == At(4)
                      && |coder.Input()| == msgIn.size + 4 && coder.Input()[4..] == w[12..12 + msgIn.size])
    {
      hide Engine.Valid, Engine.Mine, Coder.Sound, Coder.Dec, Parsed, HeaderVerdict, Foretold, Answers;
      typ := UNKNOWN;
      ForgetMsg();
      if state != SIdle {
        return GIOP_EINV_CALL, typ;
      }
      ghost var w, was, room := inbound, minor, coder.Layout().first;
      st, typ := NextFrom(w, up);
      IdleValid();
      if up || st != GIOP_ETRANSPORT {
        OctetsForetell(w, isServer, was, coder.order, room, coder.canFree, st, typ, msgIn);
      }
    }

    /**
     * What becomes of the octets w, in a first buffer with so much room, if the transport does not fail: first what is
     * refused, then the type, and the size in the byte order the flags name; flags of revision 1.0 that are neither 0
     * nor 1 name the order that is not the machine's own.
     */
    static ghost predicate Answers(w: seq<byte>, isServer: bool, minor: byte, native: Order, room: nat, canFree: bool,
                                   st: GiopStatus, typ: byte, m: MsgInfo)
    {
      if |w| < 4 then st == GIOP_ETRANSPORT
      else if !(w[0] == 'G' as int && w[1] == 'I' as int && w[2] == 'O' as int && w[3] == 'P' as int) then
        st == GIOP_EBADMAGIC
      else if |w| < 12 then st == GIOP_ETRANSPORT
      else if w[4] != 1 || w[5] > 1 then st == GIOP_EREVISION
      else if w[7] > 7 || (w[7] == 7 && (if w[5] == 0 && !isServer then 0 else minor) < 1) then
        st == GIOP_EINV_MSGTYP
      else
        var a: nat, b: nat, c: nat, d: nat := w[8], w[9], w[10], w[11];
        var size := if (w[5] == 1 && w[6] % 2 == 1) || (w[5] == 0 && w[6] == 1)
                       || (w[5] == 0 && w[6] > 1 && native == Big)
                    then a + 0x100 * b + 0x1_0000 * c + 0x100_0000 * d
                    else d + 0x100 * c + 0x1_0000 * b + 0x100_0000 * a;
        && typ == w[7] && m.typ == w[7] && m.size == size
        && (if size == 0 then st == GIOP_OK
            else if w[7] == 5 || w[7] == 6 then st == GIOP_EINV_MSGSZ
            else if !canFree && room < (size + 4) % 0x1_0000_0000 then st == GIOP_ENOSPACE
            else if size + 4 >= 0x1_0000_0000 && room < size + 4 then st == GIOP_ETRANSPORT
            else st == if |w| < 12 + size then GIOP_ETRANSPORT else GIOP_OK)
    }

    /** The same, by what reading the header comes to. */
    static ghost predicate Foretold(w: seq<byte>, isServer: bool, minor: byte, native: Order, room: nat, canFree: bool,
                                    st: GiopStatus, typ: byte, m: MsgInfo)
    {
      var v := HeaderVerdict(w, isServer, minor, native);
      if v != GIOP_OK then st == v
      else
        && |w| >= HDR_SZ
        && var p := Parsed(w[4..HDR_SZ], isServer, minor, native).1;
           && typ == p.typ && m.typ == p.typ && m.size == p.size
           && (if p.size == 0 then st == GIOP_OK
               else if p.typ == CLOSE_CONNECTION || p.typ == MESSAGE_ERROR then st == GIOP_EINV_MSGSZ
               else if !canFree && room < (p.size + 4) % WORD then st == GIOP_ENOSPACE
               else if p.size + 4 >= WORD && room < p.size + 4 then
                 room >= (p.size + 4) % WORD ==> st == GIOP_ETRANSPORT
               else st == if |w| < HDR_SZ + p.size then GIOP_ETRANSPORT else GIOP_OK)
    }

    /** The same in terms of the octets alone. */
    static lemma OctetsForetell(w: seq<byte>, isServer: bool, minor: byte, native: Order, room: nat, canFree: bool,
                                st: GiopStatus, typ: byte, m: MsgInfo)
      requires Foretold(w, isServer, minor, native, room, canFree, st, typ, m) && room >= 8
      ensures Answers(w, isServer, minor, native, room, canFree, st, typ, m)
      ensures st == GIOP_OK ==> |w| >= 12 && typ == w[7]
    {
      hide HeaderVerdict, Parsed;
      HeaderSaid(w, isServer, minor, native);
    }

    /** Between calls of an idle engine. */
    lemma IdleValid()
      requires Mine() && state == SIdle && !afrag.str && !afrag.msghdr && reqId < WORD && |objkey| < WORD
      requires afrag.on ==> coder.giop == this
      ensures Valid()
    {
      hide Matches, HeaderAt, Engine.Trace, Coder.Shape, Coder.Enc;
    }

    method ForgetMsg()
      requires Valid()
      modifies this`msgIn
      ensures Valid() && msgIn == old(msgIn).(typ := UNKNOWN, size := 0) && Mine() && coder.Layout().first >= 8
      ensures !afrag.str && !afrag.msghdr && reqId < WORD && |objkey| < WORD && (afrag.on ==> coder.giop == this)
    {
      hide Matches, HeaderAt, Engine.Trace, Coder.Shape, Coder.Enc;
      msgIn := msgIn.(typ := UNKNOWN, size := 0);
      FirstRoom();
    }

    method NextFrom(ghost w: seq<byte>, up: bool) returns (st: GiopStatus, typ: byte)
      requires Mine() && msgIn.typ == UNKNOWN && msgIn.size == 0 && w == inbound
      modifies this, coder.Repr
      ensures Mine() && StillSet() && fresh(coder.Repr - old(coder.Repr))
      ensures unchanged(`major, `state, `afrag, `fragNbyte, `reqId, `objkey, `marks, `msgOut, `respOff, `sent, `handed)
      ensures up || st != GIOP_ETRANSPORT ==>
                Foretold(w, isServer, old(minor), coder.order, old(coder.Layout().first), coder.canFree, st, typ, msgIn)
      ensures st == GIOP_OK ==>
                && HDR_SZ <= |w| && w[..4] == MAGIC && typ == msgIn.typ
                && minor == (if w[5] == 0 && !isServer then 0 else old(minor))
                && (w[5] == 1 ==> msgIn.isFrag == ((w[6] / 2) % 2 == 1))
                && coder.sex == SexOf(w[6], w[5])
                && HDR_SZ + msgIn.size <= |w| && inbound == w[HDR_SZ + msgIn.size..]
                && (msgIn.size > 0 ==>
                      && coder.Dec(0) && coder.CanDecode() && coder.bufs != [] && coder.Cursor() == At(4)
                      && |coder.Input()| == msgIn.size + 4
                      && coder.Input()[4..] == w[HDR_SZ..HDR_SZ + msgIn.size])
    {
      hide Matches, HeaderAt, Engine.Trace, Coder.Shape, Coder.Enc, Coder.Dec, Parsed, HeaderVerdict, SexOf,
            Engine.HeaderOpen, Coder.Evenly, Engine.Coding, Owned, Coder.Input, Coder.Cursor, Coder.CanDecode;
      typ := UNKNOWN;
      st := ReadHeader(w, up);
      if st != GIOP_OK {
        return;
      }
      typ := msgIn.typ;
      if msgIn.size > 0 {
        if typ == MESSAGE_ERROR || typ == CLOSE_CONNECTION {
          return GIOP_EINV_MSGSZ, typ;
        }
        SubSlice(w, HDR_SZ, msgIn.size);
        st := ReadBody(msgIn.size, up);
        coder.DecodesIfItCan();
      }
    }

    // ---- control ----

    /** GIOPAutoFrag; `clr` is the GIOP_AFRAG_CLR bit. The string and header settings are never kept. */
    method SetAutoFrag(clr: bool, flags: FragFlags, nbyte: nat) returns (st: GiopStatus)
      requires Valid()
      modifies this`afrag, this`fragNbyte, coder`maxlen, coder`giop
      ensures st == if major < 1 || minor < 1 then GIOP_EREVISION
                    else if 0 < nbyte < 16 then GIOP_EINV_FRAGSZ else GIOP_OK
      ensures st != GIOP_OK ==> Valid() && unchanged(this) && unchanged(coder)
      ensures st == GIOP_OK ==>
                && afrag == FragFlags(if flags.on then !clr else old(afrag.on), false, false)
                && coder.maxlen == (if nbyte > 0 then nbyte else old(coder.maxlen)) && coder.giop == this
                && fragNbyte == (if nbyte > 0 then nbyte else old(fragNbyte))
                && (Valid() <==> (afrag.on ==> coder.maxlen >= MIN_FRAGSZ))
    {
      hide Matches, HeaderAt, Coder.Shape, Coder.Enc, Coder.Evenly, Engine.Trace, Engine.HeaderOpen, Owned, Coder.Sound,
            Coder.Ledger, Allowed;
      if major < 1 || minor < 1 {
        return GIOP_EREVISION;
      }
      if nbyte > 0 {
        if nbyte < MIN_FRAGSZ {
          return GIOP_EINV_FRAGSZ;
        }
        fragNbyte := nbyte;
        coder.SetLimit(nbyte);
      }
      afrag := FragFlags(if flags.on then !clr else afrag.on, false, false);
      coder.Use(this);
      st := GIOP_OK;
    }

    /** GIOPConnect, once the arguments are good: the transport settles the revision to be used, or fails. */
    method Connect(key: seq<byte>, up: bool, maj: byte, min: byte) returns (st: GiopStatus)
      requires Valid() && |key| < WORD
      modifies this
      ensures Valid()
      ensures isServer ==> st == GIOP_EINV_AGENT && unchanged(this)
      ensures !isServer && old(state) != SInit && old(status) !in {GIOP_ETRANSPORT, GIOP_ECLOSED} ==>
                st == GIOP_EINV_CALL && unchanged(this)
      ensures !isServer && (old(state) == SInit || old(status) in {GIOP_ETRANSPORT, GIOP_ECLOSED}) ==>
                && status == st && state == (if st == GIOP_OK then SIdle else SInit)
                && objkey == (if st == GIOP_OK then key else []) && st == (if up then GIOP_OK else GIOP_ECONNECT)
                && (if up then major == maj && minor == min else unchanged(`major, `minor))
      ensures unchanged(`afrag, `reqId, `msgIn, `msgOut, `inbound, `sent, `handed)
    {
      hide Matches, HeaderAt, Coder.Shape, Coder.Enc, Engine.Trace, Coder.Evenly, Engine.HeaderOpen, Engine.Coding,
            Owned;
      if isServer {
        return GIOP_EINV_AGENT;
      }
      if state != SInit {
        if Number(state) >= Number(SIdle) && (status == GIOP_ETRANSPORT || status == GIOP_ECLOSED) {
          state := SInit;
        } else {
          return GIOP_EINV_CALL;
        }
      }
      objkey := [];
      st := if up then GIOP_OK else GIOP_ECONNECT;
      status := st;
      if up {
        objkey, major, minor := key, maj, min;
        state := SIdle;
      }
    }

    /** GIOPListen, once the arguments are good. */
    method Listen(up: bool) returns (st: GiopStatus)
      requires Valid()
      modifies this`state, this`status
      ensures Valid()
      ensures !isServer ==> st == GIOP_EINV_AGENT && unchanged(this)
      ensures isServer && old(state) != SInit ==> st == GIOP_EINV_CALL && unchanged(this)
      ensures isServer && old(state) == SInit ==>
                && state == (if st == GIOP_OK then SOpen else SInit)
                && status == st == (if up then GIOP_OK else GIOP_ETRANSPORT)
    {
      hide Matches, HeaderAt, Coder.Shape, Coder.Enc, Engine.Trace;
      if !isServer {
        return GIOP_EINV_AGENT;
      }
      if state != SInit {
        return GIOP_EINV_CALL;
      }
      st := if up then GIOP_OK else GIOP_ETRANSPORT;
      status := st;
      if up {
        state := SOpen;
      }
    }

    /** GIOPAccept: also out of any later state, if the transport has failed. */
    method Accept(up: bool) returns (st: GiopStatus)
      requires Valid()
      modifies this`state, this`status
      ensures Valid()
      ensures !isServer ==> st == GIOP_EINV_AGENT && unchanged(this)
      ensures isServer
              && (old(state) == SInit || (old(state) != SOpen && old(status) !in {GIOP_ETRANSPORT, GIOP_ECLOSED})) ==>
                st == GIOP_EINV_CALL && unchanged(this)
      ensures isServer
              && (old(state) == SOpen || (old(state) != SInit && old(status) in {GIOP_ETRANSPORT, GIOP_ECLOSED})) ==>
                && state == (if st == GIOP_OK then SIdle else SOpen)
                && status == st == (if up then GIOP_OK else GIOP_ETRANSPORT)
    {
      hide Matches, HeaderAt, Coder.Shape, Coder.Enc, Engine.Trace;
      if !isServer {
        return GIOP_EINV_AGENT;
      }
      if state != SOpen {
        if Number(state) >= Number(SIdle) && (status == GIOP_ETRANSPORT || status == GIOP_ECLOSED) {
          state := SOpen;
        } else {
          return GIOP_EINV_CALL;
        }
      }
      st := if up then GIOP_OK else GIOP_ETRANSPORT;
      status := st;
      if up {
        state := SIdle;
      }
    }

    /** GIOPStopListen: the states are numbered so that it is refused once a connection is idle. */
    method StopListen(down: bool) returns (st: GiopStatus)
      requires Valid()
      modifies this`state, this`status
      ensures Valid()
      ensures !isServer ==> st == GIOP_EINV_AGENT
      ensures isServer ==>
                st == if old(state) in {SInit, SIdle, SReqCr} then GIOP_EINV_CALL
                      else if down then GIOP_OK else GIOP_ETRANSPORT
      ensures state == if isServer && st == GIOP_OK then SIdle else old(state)
    {
      hide Matches, HeaderAt, Coder.Shape, Coder.Enc, Engine.Trace;
      if !isServer {
        return GIOP_EINV_AGENT;
      }
      if Number(state) < Number(SOpen) {
        return GIOP_EINV_CALL;
      }
      st := if down then GIOP_OK else GIOP_ETRANSPORT;
      status := st;
      if down {
        state := SIdle;
      }
    }

    /** The value of a GIOP_S constant. */
    static function Number(s: State): nat {
      match s
      case SInit => 1
      case SIdle => 2
      case SReqCr => 3
      case SOpen => 4
      case SRepCr => 5
      case SLRepCr => 6
      case SFragCr => 7
    }

    /** GIOPInit */
    constructor (c: Coder, isServer: bool, sends: bool)
      requires c.Shape() && c.owner == null && c.giop == null && c.Reliable()
      modifies c`owner
      ensures Valid() && coder == c && this.isServer == isServer && this.sends == sends
      ensures state == SInit && status == GIOP_OK && major == 1 && minor == 0 && reqId == 0 && objkey == []
      ensures afrag == FragFlags(false, false, false) && sent == [] && handed == [] && inbound == []
    {
      this.isServer, this.sends, coder := isServer, sends, c;
      major, minor, state, status := 1, 0, SInit, GIOP_OK;
      afrag, fragNbyte, reqId, objkey := FragFlags(false, false, false), 0, 0, [];
      marks, respOff := Marks(Loc(0, 0), Loc(0, 0), Loc(0, 0)), 0;
      msgOut, msgIn := MsgInfo(1, 1, UNKNOWN, 0, false), MsgInfo(1, 1, UNKNOWN, 0, false);
      sent, handed, inbound := [], [], [];
      new;
      c.owner := this;
    }
  }
}
