/** CDR transfer syntax on one flat stream: the encoder's specification and the decoder's steps. */
module Cdr {
  import opened Bytes

  /** One octet of an encoded stream. Alignment padding is skipped, never written. */
  datatype Cell = Pad | Data(b: byte)

  type Stream = seq<Cell>

  /** The sizes the coder aligns to. */
  type Size = n: nat | n == 1 || n == 2 || n == 4 || n == 8 witness 1

  const WORD: nat := 0x1_0000_0000

  /** CDR_ALIGN_DELTA: the distance from pos up to the next multiple of sz. */
  function AlignDelta(pos: int, sz: Size): (d: nat)
    ensures d < sz
  {
    if sz == 1 then 0 else if sz == 2 then -pos % 2 else if sz == 4 then -pos % 4 else -pos % 8
  }

  predicate Aligned(pos: int, sz: Size) {
    if sz == 1 then true else if sz == 2 then pos % 2 == 0 else if sz == 4 then pos % 4 == 0 else pos % 8 == 0
  }

  lemma AlignDelta2(pos: int, d: nat)
    requires d < 2
    ensures Aligned(pos + d, 2) <==> d == AlignDelta(pos, 2)
  {}

  lemma AlignDelta4(pos: int, d: nat)
    requires d < 4
    ensures Aligned(pos + d, 4) <==> d == AlignDelta(pos, 4)
  {
    Negated4(pos);
    Added4(pos, d);
  }

  lemma Negated4(pos: int)
    ensures -pos % 4 == (4 - pos % 4) % 4
  {
    assert -pos == 4 * (-(pos / 4) - 1) + (4 - pos % 4);
  }

  lemma Added4(pos: int, d: nat)
    ensures (pos + d) % 4 == (pos % 4 + d) % 4
  {
    assert pos + d == 4 * (pos / 4) + (pos % 4 + d);
  }

  lemma AlignDelta8(pos: int, d: nat)
    requires d < 8
    ensures Aligned(pos + d, 8) <==> d == AlignDelta(pos, 8)
  {}

  /** It is the one distance below sz that reaches a multiple. */
  lemma AlignDeltaAligns(pos: int, sz: Size, d: nat)
    requires d < sz
    ensures Aligned(pos + d, sz) <==> d == AlignDelta(pos, sz)
  {
    if sz != 1 {
      hide AlignDelta, Aligned;
      if sz == 2 {
        AlignDelta2(pos, d);
      } else if sz == 4 {
        AlignDelta4(pos, d);
      } else {
        AlignDelta8(pos, d);
      }
    }
  }

  /** Fixed-size data, a string (its octets with the closing NUL; empty for a null string) or N octets. */
  datatype Item = Scalar(size: Size, v: nat) | Str(s: seq<byte>) | Octets(s: seq<byte>)

  predicate ValidItem(it: Item) {
    match it
    case Scalar(n, v) => v < Limit(n)
    case Str(s) => |s| < WORD
    case Octets(s) => |s| < WORD
  }

  predicate ValidItems(items: seq<Item>) {
    forall i :: 0 <= i < |items| ==> ValidItem(items[i])
  }

  function Pads(n: nat): (c: Stream)
    ensures |c| == n
  {
    seq(n, _ => Pad)
  }

  function Cells(bs: seq<byte>): (c: Stream)
    ensures |c| == |bs|
  {
    seq(|bs|, i requires 0 <= i < |bs| => Data(bs[i]))
  }

  /** n-octet data at offset p: padding up to its natural boundary, then its octets. */
  function EncScalar(p: nat, n: Size, v: nat, order: Order): (e: Stream)
    ensures |e| == AlignDelta(p, n) + n
  {
    Pads(AlignDelta(p, n)) + Cells(NativeBytes(v, n, order))
  }

  /** The item's encoding when it starts at offset p. */
  function EncItem(p: nat, it: Item, order: Order): Stream {
    match it
    case Scalar(n, v) => EncScalar(p, n, v, order)
    case Str(s) => EncScalar(p, 4, |s|, order) + Cells(s)
    case Octets(s) => Cells(s)
  }

  /**
   * The encoding, octet by octet: padding to the datum's boundary, then its digits from the end its order starts with;
   * a string's length, with the closing NUL, before its octets; octets as they are.
   */
  lemma ItemSpelt(p: nat, it: Item, order: Order, k: nat)
    ensures var e := EncItem(p, it, order);
            match it
            case Scalar(n, v) =>
              var d := AlignDelta(p, n);
              && |e| == d + n && (k < d ==> e[k] == Pad)
              && (k < n ==> Limit(k) > 0 && e[d + if order == Little then k else n - 1 - k]
                                            == Data((v / Limit(k)) % 256))
            case Str(s) =>
              var d := AlignDelta(p, 4);
              && |e| == d + 4 + |s| && e[..d + 4] == EncItem(p, Scalar(4, |s|), order)
              && (k < |s| ==> e[d + 4 + k] == Data(s[k]))
            case Octets(s) => |e| == |s| && (k < |s| ==> e[k] == Data(s[k]))
  {
    hide NativeBytes, AlignDelta;
    if it.Scalar? && k < it.size {
      StoredDigits(it.v, it.size, k, order);
    }
  }

  /** The flat encoding of a list of items from offset p on. */
  function EncAll(p: nat, items: seq<Item>, order: Order): Stream
    decreases |items|
  {
    if items == [] then []
    else
      var e := EncItem(p, items[0], order);
      e + EncAll(p + |e|, items[1..], order)
  }

  /** One more item goes behind the others. */
  lemma {:induction false} EncAllSnoc(p: nat, items: seq<Item>, it: Item, order: Order)
    ensures EncAll(p, items + [it], order)
            == EncAll(p, items, order) + EncItem(p + |EncAll(p, items, order)|, it, order)
    decreases |items|
  {
    hide EncItem;
    if items == [] {
      assert [it][1..] == [];
      assert EncItem(p, it, order) + [] == EncItem(p, it, order);
    } else {
      var e := EncItem(p, items[0], order);
      EncAllSnoc(p + |e|, items[1..], it, order);
      assert (items + [it])[1..] == items[1..] + [it];
    }
  }

  lemma {:induction false} EncAllAppend(p: nat, a: seq<Item>, b: seq<Item>, order: Order)
    ensures EncAll(p, a + b, order) == EncAll(p, a, order) + EncAll(p + |EncAll(p, a, order)|, b, order)
    decreases |a|
  {
    hide EncItem;
    if a == [] {
      assert a + b == b && [] + EncAll(p, b, order) == EncAll(p, b, order);
    } else {
      var e := EncItem(p, a[0], order);
      EncAllAppend(p + |e|, a[1..], b, order);
      assert (a + b)[1..] == a[1..] + b;
    }
  }

  lemma EncItemShift(p: nat, it: Item, order: Order)
    ensures EncItem(p + 8, it, order) == EncItem(p, it, order)
  {
    hide NativeBytes, AlignDelta;
    if it.Scalar? {
      AlignDeltaShift(p, it.size);
    } else {
      AlignDeltaShift(p, 4);
    }
  }

  lemma EncAllCons(p: nat, items: seq<Item>, order: Order)
    requires items != []
    ensures var e := EncItem(p, items[0], order); EncAll(p, items, order) == e + EncAll(p + |e|, items[1..], order)
  {}

  /** An encoding depends on its offset modulo eight only. */
  lemma {:induction false} EncAllShift(p: nat, items: seq<Item>, order: Order)
    ensures EncAll(p + 8, items, order) == EncAll(p, items, order)
    decreases |items|
  {
    if items != [] {
      hide EncItem;
      var e := EncItem(p, items[0], order);
      EncItemShift(p, items[0], order);
      EncAllShift(p + |e|, items[1..], order);
      EncAllCons(p, items, order);
      EncAllCons(p + 8, items, order);
      hide EncAll;
      assert p + 8 + |e| == p + |e| + 8;
    }
  }

  /** The octets carry the stream: equal to it everywhere but in the padding. */
  ghost predicate Matches(c: Stream, bs: seq<byte>) {
    |c| == |bs| && forall i :: 0 <= i < |c| && c[i].Data? ==> bs[i] == c[i].b
  }

  // ---- decoding ----

  /** What a caller of the decoder asks for. */
  datatype Shape = SScalar(size: Size) | SStr | SOctets(len: nat)

  /** CDR_FAIL, CDR_OK with the value, or CDR_ESTR_FRAG with the octets that were there. */
  datatype Reply = Failed | Got(item: Item) | Cut(part: seq<byte>)

  /** cdrb_used and cdrb_pos_p of the single buffer being decoded. */
  datatype Cursor = Cursor(used: nat, pos: int)

  function At(p: nat): Cursor { Cursor(p, p) }

  /** Position and use agree, or a truncated string has used the whole buffer up. */
  predicate Contained(input: seq<byte>, d: Cursor) {
    d.used <= |input| && (d.pos == d.used || d.used == |input|)
  }

  function ShapeOf(it: Item): Shape {
    match it
    case Scalar(n, _) => SScalar(n)
    case Str(_) => SStr
    case Octets(s) => SOctets(|s|)
  }

  function Shapes(items: seq<Item>): (sh: seq<Shape>)
    ensures |sh| == |items|
  {
    seq(|items|, i requires 0 <= i < |items| => ShapeOf(items[i]))
  }

  /** One decoding call on the buffer contents `input`. */
  function Decode(input: seq<byte>, d: Cursor, sh: Shape, native: Order, sex: nat): (r: (Reply, Cursor))
    requires Contained(input, d)
    ensures Contained(input, r.1)
    ensures d.used <= r.1.used
    ensures r.0.Failed? ==> r.1 == d
    ensures r.0.Got? ==> d.pos == d.used && r.1.pos == r.1.used
  {
    match sh
    case SScalar(n) =>
      var delta := AlignDelta(d.pos, n);
      if d.used + delta + n > |input| then (Failed, d)
      else
        var q := d.used + delta;
        (Got(Scalar(n, Decoded(input[q..q + n], native, sex))), At(q + n))
    case SStr =>
      var delta := AlignDelta(d.pos, 4);
      if d.used + delta + 4 > |input| then (Failed, d)
      else
        var q := d.used + delta + 4;
        var len := Decoded(input[q - 4..q], native, sex);
        if len == 0 then (Got(Str([])), At(q))
        else if |input| - q < len then (Cut(input[q..]), Cursor(|input|, q + len))
        else (Got(Str(input[q..q + len])), At(q + len))
    case SOctets(n) =>
      if d.used + 1 > |input| then (Failed, d)
      else if |input| - d.used < n then (Cut(input[d.used..]), At(|input|))
      else (Got(Octets(input[d.used..d.used + n])), At(d.used + n))
  }

  /**
   * What is cut short is what there is: a call gives less than announced exactly when it is not there, and then it
   * gives all the octets to the end, with which the buffer is used up.
   */
  lemma CutIsRest(input: seq<byte>, d: Cursor, sh: Shape, native: Order, sex: nat)
    requires Contained(input, d)
    ensures var (reply, e) := Decode(input, d, sh, native, sex);
            reply.Cut? ==> |reply.part| <= |input| && reply.part == input[|input| - |reply.part|..] && e.used == |input|
    ensures sh.SOctets? ==>
              var reply := Decode(input, d, sh, native, sex).0;
              && (reply.Cut? <==> 0 < |input| - d.used < sh.len)
              && (reply.Cut? ==> |reply.part| == |input| - d.used)
    ensures sh == SStr ==>
              var reply := Decode(input, d, sh, native, sex).0;
              var q := d.used + AlignDelta(d.pos, 4) + 4;
              && (reply.Cut? <==> q <= |input| && |input| - q < Decoded(input[q - 4..q], native, sex))
              && (reply.Cut? ==> |reply.part| == |input| - q)
  {
    hide AlignDelta, Decoded;
  }

  /** The cursor after a list of decoding calls, whatever they returned. */
  function DecodeRun(input: seq<byte>, d: Cursor, shapes: seq<Shape>, native: Order,
        sex: nat): (r: (seq<Reply>, Cursor))
    requires Contained(input, d)
    ensures |r.0| == |shapes|
    ensures Contained(input, r.1) && d.used <= r.1.used
    decreases |shapes|
  {
    if shapes == [] then ([], d)
    else
      var (reply, d') := Decode(input, d, shapes[0], native, sex);
      var (replies, d'') := DecodeRun(input, d', shapes[1..], native, sex);
      ([reply] + replies, d'')
  }

  /** Every call on a used-up buffer fails and changes nothing, so after a truncated string nothing decodes. */
  lemma {:induction false} UsedUpStaysUsedUp(input: seq<byte>, d: Cursor, shapes: seq<Shape>, native: Order, sex: nat)
    requires Contained(input, d) && d.used == |input|
    ensures DecodeRun(input, d, shapes, native, sex).1 == d
    ensures forall i :: 0 <= i < |shapes| ==> DecodeRun(input, d, shapes, native, sex).0[i] == Failed
    decreases |shapes|
  {
    hide AlignDelta;
    if shapes != [] {
      UsedUpStaysUsedUp(input, d, shapes[1..], native, sex);
    }
  }

  /** A run of decoding calls that never met a truncated item keeps position and use together. */
  lemma {:induction false} InStepUnlessCut(input: seq<byte>, d: Cursor, shapes: seq<Shape>, native: Order, sex: nat)
    requires Contained(input, d) && d.pos == d.used
    requires forall i :: 0 <= i < |shapes| ==> !DecodeRun(input, d, shapes, native, sex).0[i].Cut?
    ensures DecodeRun(input, d, shapes, native, sex).1.pos == DecodeRun(input, d, shapes, native, sex).1.used
    decreases |shapes|
  {
    hide AlignDelta;
    if shapes != [] {
      var (reply, d') := Decode(input, d, shapes[0], native, sex);
      var rest := DecodeRun(input, d', shapes[1..], native, sex);
      assert DecodeRun(input, d, shapes, native, sex).0 == [reply] + rest.0;
      assert !DecodeRun(input, d, shapes, native, sex).0[0].Cut?;
      forall i | 0 <= i < |shapes[1..]| ensures !rest.0[i].Cut? {
        assert DecodeRun(input, d, shapes, native, sex).0[i + 1] == rest.0[i];
      }
      InStepUnlessCut(input, d', shapes[1..], native, sex);
    }
  }

  // ---- decoding what was encoded ----

  lemma MatchesSlice(c: Stream, bs: seq<byte>, i: nat, data: seq<byte>)
    requires Matches(c, bs) && i + |data| <= |c|
    requires c[i..i + |data|] == Cells(data)
    ensures bs[i..i + |data|] == data
  {
    forall k | 0 <= k < |data| ensures bs[i + k] == data[k] {
      assert c[i + k] == c[i..i + |data|][k];
    }
  }

  lemma LimitOfWord()
    ensures Limit(4) == WORD
  {
    assert Limit(1) == 256;
    assert Limit(2) == 0x1_0000;
    assert Limit(3) == 0x100_0000;
  }

  lemma ScalarInPlace(c: Stream, bs: seq<byte>, p: nat, n: Size, v: nat, sender: Order, native: Order)
    requires Matches(c, bs) && v < Limit(n)
    requires var e := EncScalar(p, n, v, sender); p + |e| <= |c| && c[p..p + |e|] == e
    ensures var q := p + AlignDelta(p, n);
            q + n <= |bs| && Decoded(bs[q..q + n], native, sender.Bit()) == v
  {
    hide AlignDelta, NativeBytes, Decoded, Limit;
    var data := NativeBytes(v, n, sender);
    SplitAt(c, p, Pads(AlignDelta(p, n)), Cells(data));
    MatchesSlice(c, bs, p + AlignDelta(p, n), data);
    AnyOrderRoundTrip(v, n, sender, native);
  }

  lemma DecodeStr(c: Stream, bs: seq<byte>, p: nat, s: seq<byte>, sender: Order, native: Order)
    requires Matches(c, bs) && |s| < WORD
    requires var e := EncItem(p, Str(s), sender); p + |e| <= |c| && c[p..p + |e|] == e
    ensures Decode(bs, At(p), SStr, native, sender.Bit()) == (Got(Str(s)), At(p + |EncItem(p, Str(s), sender)|))
  {
    hide AlignDelta, NativeBytes, Decoded, Limit, EncScalar, Matches, Cells;
    var prefix := EncScalar(p, 4, |s|, sender);
    var q := p + |prefix|;
    LimitOfWord();
    SplitAt(c, p, prefix, Cells(s));
    ScalarInPlace(c, bs, p, 4, |s|, sender, native);
    StrInPlace(c, bs, q, s);
  }

  lemma StrInPlace(c: Stream, bs: seq<byte>, q: nat, s: seq<byte>)
    requires Matches(c, bs) && q + |s| <= |c| && c[q..q + |s|] == Cells(s)
    ensures q + |s| <= |bs| && bs[q..q + |s|] == s
  {
    MatchesSlice(c, bs, q, s);
  }

  lemma SplitAt<T>(c: seq<T>, p: nat, e: seq<T>, t: seq<T>)
    requires p + |e| + |t| <= |c| && c[p..p + |e| + |t|] == e + t
    ensures c[p..p + |e|] == e && c[p + |e|..p + |e| + |t|] == t
  {
    var w := c[p..p + |e| + |t|];
    assert c[p..p + |e|] == w[..|e|];
    assert c[p + |e|..p + |e| + |t|] == w[|e|..];
  }

  /** One call reads back one item, at any offset and in any pair of byte orders. */
  lemma DecodeItem(c: Stream, bs: seq<byte>, p: nat, it: Item, sender: Order, native: Order)
    requires Matches(c, bs) && ValidItem(it)
    requires var e := EncItem(p, it, sender); p + |e| <= |c| && c[p..p + |e|] == e
    requires it != Octets([]) || p < |c|
    ensures Decode(bs, At(p), ShapeOf(it), native, sender.Bit()) == (Got(it), At(p + |EncItem(p, it, sender)|))
  {
    hide AlignDelta, NativeBytes, Decoded, Limit;
    match it
    case Scalar(n, v) => ScalarInPlace(c, bs, p, n, v, sender, native);
    case Str(s) => DecodeStr(c, bs, p, s, sender, native);
    case Octets(s) => MatchesSlice(c, bs, p, s);
  }

  /** The items a run of decoding calls delivers, if every call succeeds. */
  function DecodeAll(input: seq<byte>, p: nat, shapes: seq<Shape>, native: Order, sex: nat): (r: (bool, seq<Item>))
    requires p <= |input|
    decreases |shapes|
  {
    if shapes == [] then (true, [])
    else
      var (reply, d) := Decode(input, At(p), shapes[0], native, sex);
      if !reply.Got? then (false, [])
      else
        var (ok, items) := DecodeAll(input, d.used, shapes[1..], native, sex);
        (ok, [reply.item] + items)
  }

  lemma {:induction false} DecodeAllItems(c: Stream, bs: seq<byte>, p: nat, items: seq<Item>, sender: Order,
        native: Order)
    requires p <= |c| && Matches(c, bs) && ValidItems(items)
    requires c[p..] == EncAll(p, items, sender)
    requires items == [] || items[|items| - 1] != Octets([])
    ensures DecodeAll(bs, p, Shapes(items), native, sender.Bit()) == (true, items)
    decreases |items|
  {
    hide AlignDelta, Decode, EncItem;
    if items != [] {
      var it, rest := items[0], items[1..];
      var e := EncItem(p, it, sender);
      var tail := EncAll(p + |e|, rest, sender);
      SplitAt(c, p, e, tail);
      if rest != [] {
        assert rest[|rest| - 1] == items[|items| - 1];
        EncodingNotEmpty(p + |e|, rest, sender);
      }
      DecodeItem(c, bs, p, it, sender, native);
      DecodeAllItems(c, bs, p + |e|, rest, sender, native);
      DecodeAllStep(bs, p, it, p + |e|, rest, native, sender.Bit());
      assert [it] + rest == items;
    }
  }

  lemma DecodeAllStep(bs: seq<byte>, p: nat, it: Item, q: nat, rest: seq<Item>, native: Order, sex: nat)
    requires p <= q <= |bs|
    requires Decode(bs, At(p), ShapeOf(it), native, sex) == (Got(it), At(q))
    ensures DecodeAll(bs, p, Shapes([it] + rest), native, sex)
            == (DecodeAll(bs, q, Shapes(rest), native, sex).0, [it] + DecodeAll(bs, q, Shapes(rest), native, sex).1)
  {
    hide AlignDelta;
    assert Shapes([it] + rest) == [ShapeOf(it)] + Shapes(rest);
  }

  lemma ItemNotEmpty(p: nat, it: Item, order: Order)
    requires it != Octets([])
    ensures EncItem(p, it, order) != []
  {}

  lemma {:induction false} EncodingNotEmpty(p: nat, items: seq<Item>, order: Order)
    requires items != [] && items[|items| - 1] != Octets([])
    ensures EncAll(p, items, order) != []
    decreases |items|
  {
    hide EncItem, EncAll;
    var e := EncItem(p, items[0], order);
    EncAllCons(p, items, order);
    if |items| > 1 {
      assert items[1..][|items[1..]| - 1] == items[|items| - 1];
      EncodingNotEmpty(p + |e|, items[1..], order);
    } else {
      ItemNotEmpty(p, items[0], order);
    }
  }

  lemma {:induction false} TrailingEmptyFails(c: Stream, bs: seq<byte>, p: nat, items: seq<Item>, sender: Order,
        native: Order)
    requires p <= |c| && Matches(c, bs) && ValidItems(items)
    requires c[p..] == EncAll(p, items, sender)
    requires items != [] && items[|items| - 1] == Octets([])
    ensures !DecodeAll(bs, p, Shapes(items), native, sender.Bit()).0
    decreases |items|
  {
    hide AlignDelta, Decode, EncItem, ValidItem, Limit;
    var it, rest := items[0], items[1..];
    var e := EncItem(p, it, sender);
    SplitAt(c, p, e, EncAll(p + |e|, rest, sender));
    if rest == [] {
      NoOctets(p, sender);
      assert c[p..] == [];
    }
    if it == Octets([]) && p == |c| {
      NothingLeft(bs, SOctets(0), native, sender.Bit());
    } else {
      DecodeItem(c, bs, p, it, sender, native);
      assert rest[|rest| - 1] == items[|items| - 1];
      TrailingEmptyFails(c, bs, p + |e|, rest, sender, native);
      DecodeAllStep(bs, p, it, p + |e|, rest, native, sender.Bit());
      assert [it] + rest == items;
    }
  }

  lemma NothingLeft(bs: seq<byte>, sh: Shape, native: Order, sex: nat)
    ensures Decode(bs, At(|bs|), sh, native, sex) == (Failed, At(|bs|))
  {
    hide AlignDelta;
  }

  lemma NoOctets(p: nat, order: Order)
    ensures EncItem(p, Octets([]), order) == []
    ensures EncAll(p, [Octets([])], order) == []
  {
    hide AlignDelta;
  }

  /**
   * The round trip, for every list of items, every start offset and all four pairs of byte orders:
   * the calls deliver the items exactly when the list does not close with a zero-length octet sequence.
   */
  lemma RoundTrip(c: Stream, bs: seq<byte>, p: nat, items: seq<Item>, sender: Order, native: Order)
    requires p <= |c| && Matches(c, bs) && ValidItems(items)
    requires c[p..] == EncAll(p, items, sender)
    ensures DecodeAll(bs, p, Shapes(items), native, sender.Bit()) == (true, items)
            <==> (items == [] || items[|items| - 1] != Octets([]))
  {
    if items == [] || items[|items| - 1] != Octets([]) {
      DecodeAllItems(c, bs, p, items, sender, native);
    } else {
      TrailingEmptyFails(c, bs, p, items, sender, native);
    }
  }

  // ---- offsets modulo 8 ----

  function Shift(d: Cursor, k: nat): Cursor { Cursor(d.used + k, d.pos + k) }

  lemma AlignDeltaShift(pos: int, n: Size)
    ensures AlignDelta(pos + 8, n) == AlignDelta(pos, n)
  {}

  /**
   * A message read into a buffer behind four dummy octets decodes as the whole message does behind its
   * twelve-octet header, call by call and whatever the contents are.
   */
  lemma {:induction false} Realigned(msg: seq<byte>, buffer: seq<byte>, d: Cursor, shapes: seq<Shape>, native: Order,
        sex: nat)
    requires |msg| >= 12 && |buffer| == |msg| - 8 && buffer[4..] == msg[12..]
    requires 4 <= d.used && Contained(buffer, d)
    ensures DecodeRun(msg, Shift(d, 8), shapes, native, sex)
            == (DecodeRun(buffer, d, shapes, native, sex).0, Shift(DecodeRun(buffer, d, shapes, native, sex).1, 8))
    decreases |shapes|
  {
    hide AlignDelta;
    if shapes != [] {
      RealignedCall(msg, buffer, d, shapes[0], native, sex);
      var d' := Decode(buffer, d, shapes[0], native, sex).1;
      Realigned(msg, buffer, d', shapes[1..], native, sex);
    }
  }

  lemma RealignedCall(msg: seq<byte>, buffer: seq<byte>, d: Cursor, sh: Shape, native: Order, sex: nat)
    requires |msg| >= 12 && |buffer| == |msg| - 8 && buffer[4..] == msg[12..]
    requires 4 <= d.used && Contained(buffer, d)
    ensures Decode(msg, Shift(d, 8), sh, native, sex)
            == (Decode(buffer, d, sh, native, sex).0, Shift(Decode(buffer, d, sh, native, sex).1, 8))
  {
    hide AlignDelta, Decoded;
    match sh
    case SScalar(n) => RealignedScalar(msg, buffer, d, n);
    case SStr => RealignedStr(msg, buffer, d, native, sex);
    case SOctets(n) =>
      SameSlice(msg, buffer, d.used, |buffer|);
      if d.used + n <= |buffer| {
        SameSlice(msg, buffer, d.used, d.used + n);
      }
  }

  lemma RealignedStr(msg: seq<byte>, buffer: seq<byte>, d: Cursor, native: Order, sex: nat)
    requires |msg| >= 12 && |buffer| == |msg| - 8 && buffer[4..] == msg[12..]
    requires 4 <= d.used && Contained(buffer, d)
    ensures Decode(msg, Shift(d, 8), SStr, native, sex)
            == (Decode(buffer, d, SStr, native, sex).0, Shift(Decode(buffer, d, SStr, native, sex).1, 8))
  {
    hide AlignDelta, Decoded;
    RealignedScalar(msg, buffer, d, 4);
    var q := d.used + AlignDelta(d.pos, 4) + 4;
    if q <= |buffer| {
      assert buffer[q - 4..q] == msg[q + 4..q + 8];
      var len := Decoded(buffer[q - 4..q], native, sex);
      SameSlice(msg, buffer, q, |buffer|);
      if q + len <= |buffer| {
        SameSlice(msg, buffer, q, q + len);
      }
    }
  }

  lemma RealignedScalar(msg: seq<byte>, buffer: seq<byte>, d: Cursor, n: Size)
    requires |msg| >= 12 && |buffer| == |msg| - 8 && buffer[4..] == msg[12..]
    requires 4 <= d.used && Contained(buffer, d)
    ensures AlignDelta(d.pos + 8, n) == AlignDelta(d.pos, n)
    ensures var q := d.used + AlignDelta(d.pos, n);
            q + n <= |buffer| ==> buffer[q..q + n] == msg[q + 8..q + 8 + n]
  {
    hide AlignDelta;
    AlignDeltaShift(d.pos, n);
    var q := d.used + AlignDelta(d.pos, n);
    if q + n <= |buffer| {
      SameSlice(msg, buffer, q, q + n);
    }
  }

  lemma SameSlice(msg: seq<byte>, buffer: seq<byte>, i: nat, j: nat)
    requires |msg| >= 12 && |buffer| == |msg| - 8 && buffer[4..] == msg[12..]
    requires 4 <= i <= j <= |buffer|
    ensures buffer[i..j] == msg[i + 8..j + 8]
    ensures buffer[i..] == msg[i + 8..]
  {
    assert buffer[i..] == buffer[4..][i - 4..];
    assert msg[i + 8..] == msg[12..][i - 4..];
    assert buffer[i..j] == buffer[i..][..j - i];
    assert msg[i + 8..j + 8] == msg[i + 8..][..j - i];
  }
}
