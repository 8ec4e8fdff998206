/** Object references as strings: "IOR:" and the hexadecimal digits of their encapsulation. */
module Ior {
  import opened Bytes
  import opened Cdr
  import opened Fragment
  import opened Giop
  import opened Reader

  datatype IorStatus = IOR_OK | IOR_ENULL_DATA | IOR_EINV_IORSTR

  // ---- hexadecimal ----

  /** "0123456789abcdef" */
  function Digit(nyb: nat): byte
    requires nyb < 16
  {
    if nyb < 10 then 48 + nyb else 87 + nyb
  }

  /** ior_byte_to_hex */
  function Pair(b: byte): (p: seq<byte>)
    ensures |p| == 2
  {
    [Digit(b / 16), Digit(b % 16)]
  }

  function Hex(bs: seq<byte>): (h: seq<byte>)
    ensures |h| == 2 * |bs|
  {
    if bs == [] then [] else Pair(bs[0]) + Hex(bs[1..])
  }

  /** ior_hex_to_nyb: digits and letters of either case; anything else is taken for zero. */
  function Nyb(ch: byte): (n: nat)
    ensures n < 16
  {
    if 48 <= ch <= 57 then ch - 48
    else if 65 <= ch <= 70 then ch - 65 + 10
    else if 97 <= ch <= 102 then ch - 97 + 10
    else 0
  }

  /** What pairs of digits spell; an odd digit at the end is dropped. */
  function Unhex(h: seq<byte>): (bs: seq<byte>)
    ensures |bs| == |h| / 2
  {
    if |h| < 2 then [] else [Nyb(h[0]) * 16 + Nyb(h[1])] + Unhex(h[2..])
  }

  // ---- what the digits are ----

  /** A hexadecimal digit, in a letter of either case, and its value. */
  predicate IsDigit(ch: byte, value: nat) {
    value < 16 && (ch == "0123456789abcdef"[value] as int || ch == "0123456789ABCDEF"[value] as int)
  }

  /** The digits written are the lower-case ones, and those read may be any. */
  lemma DigitTable(value: nat)
    requires value < 16
    ensures Digit(value) == "0123456789abcdef"[value] as int
    ensures forall ch: byte :: IsDigit(ch, value) ==> Nyb(ch) == value
  {
    var lower, upper := "0123456789abcdef", "0123456789ABCDEF";
    if value < 8 {
      assert lower[0] == '0' && lower[1] == '1' && lower[2] == '2' && lower[3] == '3';
    } else {
      assert lower[8] == '8' && lower[9] == '9' && upper[8] == '8' && upper[9] == '9';
    }
  }

  /** Whatever is no digit is taken for zero. */
  lemma OtherIsZero(ch: byte)
    ensures Nyb(ch) == 0 || IsDigit(ch, Nyb(ch))
  {
    var lower, upper := "0123456789abcdef", "0123456789ABCDEF";
    if 48 <= ch <= 57 {
      assert lower[8] == '8' && lower[9] == '9';
    } else if 65 <= ch <= 70 {
      assert upper[10] == 'A' && upper[15] == 'F';
    }
  }

  /** The string spells the octets, two digits each, in letters of either case. */
  predicate Spells(h: seq<byte>, bs: seq<byte>) {
    && |h| == 2 * |bs|
    && forall i :: 0 <= i < |bs| ==> IsDigit(h[2 * i], bs[i] / 16) && IsDigit(h[2 * i + 1], bs[i] % 16)
  }

  /** What a string spells is what is read of it. */
  lemma {:induction false} UnhexSpelt(h: seq<byte>, bs: seq<byte>)
    requires Spells(h, bs)
    ensures Unhex(h) == bs
  {
    if bs == [] {
      UnhexDone(h);
    } else {
      FirstSpelt(h, bs);
      UnhexFirst(h);
      hide Spells, Unhex;
      UnhexSpelt(h[2..], bs[1..]);
      assert bs == [bs[0]] + bs[1..];
    }
  }

  lemma UnhexFirst(h: seq<byte>)
    requires |h| >= 2
    ensures Unhex(h) == [Nyb(h[0]) * 16 + Nyb(h[1])] + Unhex(h[2..])
  {}

  lemma FirstSpelt(h: seq<byte>, bs: seq<byte>)
    requires Spells(h, bs) && bs != []
    ensures |h| >= 2 && Nyb(h[0]) * 16 + Nyb(h[1]) == bs[0] && Spells(h[2..], bs[1..])
  {
    hide IsDigit, Nyb;
    assert IsDigit(h[2 * 0], bs[0] / 16) && IsDigit(h[2 * 0 + 1], bs[0] % 16);
    DigitTable(bs[0] / 16);
    DigitTable(bs[0] % 16);
    forall i | 0 <= i < |bs[1..]|
      ensures IsDigit(h[2..][2 * i], bs[1..][i] / 16) && IsDigit(h[2..][2 * i + 1], bs[1..][i] % 16)
    {
      assert bs[1..][i] == bs[i + 1] && h[2..][2 * i] == h[2 * (i + 1)];
      assert h[2..][2 * i + 1] == h[2 * (i + 1) + 1];
    }
  }

  /** What is written spells the octets, in lower case. */
  lemma {:induction false} HexAt(bs: seq<byte>, i: nat)
    requires i < |bs|
    ensures Hex(bs)[2 * i] == "0123456789abcdef"[bs[i] / 16] as int
    ensures Hex(bs)[2 * i + 1] == "0123456789abcdef"[bs[i] % 16] as int
  {
    if i == 0 {
      DigitTable(bs[0] / 16);
      DigitTable(bs[0] % 16);
    } else {
      HexAt(bs[1..], i - 1);
      assert bs[1..][i - 1] == bs[i] && Hex(bs)[2 * i] == Hex(bs[1..])[2 * (i - 1)];
    }
  }

  lemma HexSpells(bs: seq<byte>)
    ensures Spells(Hex(bs), bs)
  {
    forall i | 0 <= i < |bs|
      ensures IsDigit(Hex(bs)[2 * i], bs[i] / 16) && IsDigit(Hex(bs)[2 * i + 1], bs[i] % 16)
    {
      HexAt(bs, i);
    }
  }

  lemma HexOctets(bs: seq<byte>)
    ensures forall i :: 0 <= i < |Hex(bs)| ==> 48 <= Hex(bs)[i] <= 57 || 97 <= Hex(bs)[i] <= 102
  {
    forall i | 0 <= i < |Hex(bs)| ensures 48 <= Hex(bs)[i] <= 57 || 97 <= Hex(bs)[i] <= 102 {
      HexAt(bs, i / 2);
      var b := bs[i / 2];
      LowerCase(b / 16);
      LowerCase(b % 16);
    }
  }

  lemma LowerCase(value: nat)
    requires value < 16
    ensures var d := "0123456789abcdef"[value] as int; 48 <= d <= 57 || 97 <= d <= 102
  {
    DigitTable(value);
  }

  lemma PairSpells(b: byte)
    ensures Nyb(Pair(b)[0]) * 16 + Nyb(Pair(b)[1]) == b
    ensures Pair(b)[0] != 0 && Pair(b)[1] != 0
  {}

  /** The nibble loop undoes the expansion. */
  lemma {:induction false} UnhexHex(bs: seq<byte>)
    ensures Unhex(Hex(bs)) == bs && forall i :: 0 <= i < |Hex(bs)| ==> Hex(bs)[i] != 0
  {
    if bs != [] {
      PairSpells(bs[0]);
      UnhexHex(bs[1..]);
      assert Hex(bs)[2..] == Hex(bs[1..]);
    }
  }

  /** A digit pair stands where its octet is, doubled. */
  lemma {:induction false} HexTail(bs: seq<byte>, i: nat)
    requires i < |bs|
    ensures Hex(bs[i..]) == Pair(bs[i]) + Hex(bs[i + 1..])
  {
    assert bs[i..][1..] == bs[i + 1..];
  }

  /** The octets from i on have been expanded, those before are as they were, and so is all around them. */
  ghost predicate Halfway(s: seq<byte>, was: seq<byte>, at: nat, len: nat, i: nat) {
    && |s| == |was| && at + 2 * len < |s| && i <= len
    && s[..at + i] == was[..at + i] && s[at + 2 * i..at + 2 * len] == Hex(was[at + i..at + len])
    && s[at + 2 * len] == 0 && s[at + 2 * len + 1..] == was[at + 2 * len + 1..]
  }

  lemma HalfwayStep(s: seq<byte>, was: seq<byte>, at: nat, len: nat, i: nat, byt: byte)
    requires Halfway(s, was, at, len, i + 1) && byt == s[at + i]
    ensures Halfway(s[at + 2 * i := Pair(byt)[0]][at + 2 * i + 1 := Pair(byt)[1]], was, at, len, i)
  {
    hide Hex, Pair;
    var p := at + 2 * i;
    var t := s[p := Pair(byt)[0]][p + 1 := Pair(byt)[1]];
    assert s[at + i] == s[..at + i + 1][at + i] == was[at + i];
    HexTail(was[at..at + len], i);
    assert was[at..at + len][i..] == was[at + i..at + len];
    assert was[at..at + len][i + 1..] == was[at + (i + 1)..at + len];
    assert t[p..at + 2 * len] == [t[p], t[p + 1]] + s[at + 2 * (i + 1)..at + 2 * len];
    assert [t[p], t[p + 1]] == Pair(byt);
    assert t[..at + i] == s[..at + i + 1][..at + i];
  }

  /** ior_byte_to_hex */
  method ByteToHex(byt: byte, a: array<byte>, at: nat)
    requires at + 1 < a.Length
    modifies a
    ensures a[..] == old(a[..])[at := Pair(byt)[0]][at + 1 := Pair(byt)[1]]
  {
    a[at] := Digit(byt / 16);
    a[at + 1] := Digit(byt % 16);
  }

  /**
   * ior_to_ascii: in place, from the last octet to the first, twice as far along; no octet is lost before it is read.
   * What is left are lower-case digits that spell the octets.
   */
  method ToAscii(a: array<byte>, at: nat, len: nat) returns (st: IorStatus)
    requires len > 0 ==> at + 2 * len < a.Length
    modifies a
    ensures len == 0 ==> st == IOR_ENULL_DATA && a[..] == old(a[..])
    ensures len > 0 ==>
              && st == IOR_OK && a[at..at + 2 * len] == Hex(old(a[at..at + len])) && a[at + 2 * len] == 0
              && a[..at] == old(a[..at]) && a[at + 2 * len + 1..] == old(a[at + 2 * len + 1..])
    ensures len > 0 ==>
              && Spells(a[at..at + 2 * len], old(a[at..at + len]))
              && forall i :: at <= i < at + 2 * len ==> 48 <= a[i] <= 57 || 97 <= a[i] <= 102
  {
    if len == 0 {
      return IOR_ENULL_DATA;
    }
    ghost var was := a[..];
    hide Hex, Spells;
    Expand(a, at, len);
    Expanded(a[..], was, at, len);
    st := IOR_OK;
  }

  /** Its loop. */
  method Expand(a: array<byte>, at: nat, len: nat)
    requires len > 0 && at + 2 * len < a.Length
    modifies a
    ensures a[at..at + 2 * len] == Hex(old(a[at..at + len])) && a[at + 2 * len] == 0
    ensures a[..at] == old(a[..at]) && a[at + 2 * len + 1..] == old(a[at + 2 * len + 1..])
  {
    ghost var was := a[..];
    var oldAt: int := at + len - 1;
    var newAt: int := oldAt + len - 1;
    a[newAt + 2] := 0;
    hide Halfway, Hex;
    HalfwayStart(was, at, len);
    assert a[..] == was[at + 2 * len := 0];
    while oldAt >= at
      invariant at - 1 <= oldAt < at + len && newAt == at + 2 * (oldAt - at)
      invariant Halfway(a[..], was, at, len, oldAt + 1 - at)
    {
      HalfwayStep(a[..], was, at, len, oldAt - at, a[oldAt]);
      ByteToHex(a[oldAt], a, newAt);
      oldAt, newAt := oldAt - 1, newAt - 2;
    }
    HalfwayDone(a[..], was, at, len);
  }

  lemma HalfwayStart(was: seq<byte>, at: nat, len: nat)
    requires at + 2 * len < |was|
    ensures Halfway(was[at + 2 * len := 0], was, at, len, len)
  {
    assert was[at + len..at + len] == [] && Hex([]) == [];
  }

  lemma HalfwayDone(s: seq<byte>, was: seq<byte>, at: nat, len: nat)
    requires Halfway(s, was, at, len, 0)
    ensures |s| == |was| && at + 2 * len < |s|
    ensures s[at..at + 2 * len] == Hex(was[at..at + len]) && s[at + 2 * len] == 0
    ensures s[..at] == was[..at] && s[at + 2 * len + 1..] == was[at + 2 * len + 1..]
  {}

  lemma Expanded(s: seq<byte>, was: seq<byte>, at: nat, len: nat)
    requires at + 2 * len <= |s| && at + len <= |was| && s[at..at + 2 * len] == Hex(was[at..at + len])
    ensures Spells(s[at..at + 2 * len], was[at..at + len])
    ensures forall i :: at <= i < at + 2 * len ==> 48 <= s[i] <= 57 || 97 <= s[i] <= 102
  {
    hide Hex, Spells;
    var h := s[at..at + 2 * len];
    HexSpells(was[at..at + len]);
    HexOctets(was[at..at + len]);
    forall i | at <= i < at + 2 * len ensures 48 <= s[i] <= 57 || 97 <= s[i] <= 102 {
      assert s[i] == h[i - at];
    }
  }

  /** The loop of IORFromString that turns digit pairs back into octets. */
  method FromHex(h: seq<byte>) returns (buf: array<byte>)
    ensures fresh(buf) && buf[..] == Unhex(h)
    ensures forall bs :: Spells(h, bs) ==> buf[..] == bs
  {
    hide Unhex, Spells;
    forall bs | Spells(h, bs) ensures Unhex(h) == bs {
      UnhexSpelt(h, bs);
    }
    var len := |h| / 2;
    buf := new byte[len];
    var idx := 0;
    assert h[0..] == h && buf[..0] == [] && [] + Unhex(h) == Unhex(h);
    while idx < len
      invariant idx <= len && buf[..idx] + Unhex(h[2 * idx..]) == Unhex(h)
    {
      ghost var before := buf[..idx];
      buf[idx] := Nyb(h[2 * idx]) * 16;
      buf[idx] := buf[idx] + Nyb(h[2 * idx + 1]);
      UnhexStep(h, idx, before);
      assert buf[..idx + 1] == before + [buf[idx]];
      idx := idx + 1;
    }
    UnhexDone(h[2 * idx..]);
    assert buf[..] == buf[..len] && buf[..len] + [] == buf[..len];
  }

  lemma UnhexStep(h: seq<byte>, idx: nat, before: seq<byte>)
    requires 2 * idx + 1 < |h|
    ensures before + Unhex(h[2 * idx..]) == before + [Nyb(h[2 * idx]) * 16 + Nyb(h[2 * idx + 1])]
              + Unhex(h[2 * (idx + 1)..])
  {
    var rest := h[2 * idx..];
    assert rest[2..] == h[2 * (idx + 1)..];
  }

  lemma UnhexDone(h: seq<byte>)
    requires |h| < 2
    ensures Unhex(h) == []
  {}

  // ---- references ----

  datatype Profile = Profile(tag: nat, data: seq<byte>)

  /** IORT; the type id has its closing NUL. */
  datatype Reference = Reference(typeId: seq<byte>, profiles: seq<Profile>)

  predicate ValidProfile(p: Profile) {
    p.tag < WORD && |p.data| < WORD
  }

  predicate ValidReference(r: Reference) {
    && r.typeId != [] && r.typeId[|r.typeId| - 1] == 0 && (forall i :: 0 <= i < |r.typeId| - 1 ==> r.typeId[i] != 0)
    && |r.typeId| < WORD && |r.profiles| < WORD && forall i :: 0 <= i < |r.profiles| ==> ValidProfile(r.profiles[i])
  }

  /** "IOR:" */
  const PREFIX: seq<byte> := [73, 79, 82, 58]

  function ProfileItems(ps: seq<Profile>): seq<Item> {
    if ps == [] then []
    else
      var p := ps[|ps| - 1];
      ProfileItems(ps[..|ps| - 1]) + [Scalar(4, p.tag), Scalar(4, |p.data|), Octets(p.data)]
  }

  /** The encapsulation of a reference: its byte order, the type id and the profiles. */
  function Items(r: Reference, order: Order): seq<Item> {
    [Scalar(1, order.Bit()), Str(r.typeId), Scalar(4, |r.profiles|)] + ProfileItems(r.profiles)
  }

  /** They are the order octet, 0 or 1, the type id, the number of profiles and tag, length and data of each. */
  lemma ItemsAt(r: Reference, order: Order)
    ensures var t := Items(r, order);
            && |t| == 3 + 3 * |r.profiles|
            && t[0] == Scalar(1, if order == Little then 1 else 0) && t[1] == Str(r.typeId)
            && t[2] == Scalar(4, |r.profiles|)
            && forall k :: 0 <= k < |r.profiles| ==>
                 && t[3 + 3 * k] == Scalar(4, r.profiles[k].tag)
                 && t[4 + 3 * k] == Scalar(4, |r.profiles[k].data|)
                 && t[5 + 3 * k] == Octets(r.profiles[k].data)
  {
    var t, ps := Items(r, order), ProfileItems(r.profiles);
    ProfileCount(r.profiles);
    hide ProfileItems;
    forall k | 0 <= k < |r.profiles|
      ensures t[3 + 3 * k] == Scalar(4, r.profiles[k].tag) && t[4 + 3 * k] == Scalar(4, |r.profiles[k].data|)
      ensures t[5 + 3 * k] == Octets(r.profiles[k].data)
    {
      ProfileAt(r.profiles, k);
      assert t[3 + 3 * k] == ps[3 * k] && t[4 + 3 * k] == ps[3 * k + 1] && t[5 + 3 * k] == ps[3 * k + 2];
    }
  }

  lemma {:induction false} ProfileItemsValid(ps: seq<Profile>)
    requires forall i :: 0 <= i < |ps| ==> ValidProfile(ps[i])
    ensures ValidItems(ProfileItems(ps))
  {
    if ps != [] {
      hide ValidItem;
      ProfileItemsValid(ps[..|ps| - 1]);
      var p := ps[|ps| - 1];
      ValidWords(p.tag, 0);
      ValidSized(p.data);
    }
  }

  lemma ItemsValid(r: Reference, order: Order)
    requires ValidReference(r)
    ensures ValidItems(Items(r, order))
  {
    ProfileItemsValid(r.profiles);
    ValidWords(|r.profiles|, order.Bit());
    ValidTail(r.typeId);
    hide ValidItem;
  }

  // ---- alignment behind the prefix ----

  predicate Narrow(items: seq<Item>) {
    forall i :: 0 <= i < |items| && items[i].Scalar? ==> items[i].size <= 4
  }

  lemma AlignDeltaBy4(p: nat, n: Size)
    requires n <= 4
    ensures AlignDelta(p + 4, n) == AlignDelta(p, n)
  {}

  lemma ItemBy4(p: nat, it: Item, order: Order)
    requires it.Scalar? ==> it.size <= 4
    ensures EncItem(p + 4, it, order) == EncItem(p, it, order)
  {
    hide NativeBytes, AlignDelta;
    AlignDeltaBy4(p, 4);
    if it.Scalar? {
      AlignDeltaBy4(p, it.size);
    }
  }

  lemma NarrowTail(items: seq<Item>)
    requires Narrow(items) && items != []
    ensures Narrow(items[1..]) && (items[0].Scalar? ==> items[0].size <= 4)
  {}

  /** The four octets of the prefix do not shift anything, since nothing in a reference is wider. */
  lemma {:induction false} BehindPrefix(p: nat, q: nat, items: seq<Item>, order: Order)
    requires Narrow(items) && q == p + 4
    ensures EncAll(q, items, order) == EncAll(p, items, order)
    decreases |items|
  {
    hide EncItem, EncAll, Narrow;
    if items == [] {
      EncNothing(p, order);
      EncNothing(q, order);
    } else {
      var e := EncItem(p, items[0], order);
      NarrowTail(items);
      ItemBy4(p, items[0], order);
      BehindPrefix(p + |e|, q + |e|, items[1..], order);
      EncAllCons(p, items, order);
      EncAllCons(q, items, order);
    }
  }

  lemma {:induction false} ProfilesNarrow(ps: seq<Profile>)
    ensures Narrow(ProfileItems(ps))
  {
    if ps != [] {
      ProfilesNarrow(ps[..|ps| - 1]);
    }
  }

  lemma ItemsNarrow(r: Reference, order: Order)
    ensures Narrow(Items(r, order))
  {
    ProfilesNarrow(r.profiles);
  }

  // ---- the size of the string ----

  function Total(ps: seq<Profile>): nat {
    if ps == [] then 0 else Total(ps[..|ps| - 1]) + 8 + |ps[|ps| - 1].data| + 3
  }

  /** ior_length, as its comments have it. */
  function Length(r: Reference): nat {
    4 + 3 + |r.typeId| - 1 + 4 + Total(r.profiles) + 4
  }

  /**
   * ior_length as it stands: the conditional takes the sum for its condition, so the first seven octets are not
   * counted.
   */
  function LengthAsWritten(r: Reference): nat {
    |r.typeId| - 1 + 4 + Total(r.profiles) + 4
  }

  /** The padding before the profiles' tags: it takes each profile but the last to a multiple of four. */
  function Padding(ps: seq<Profile>): nat {
    if |ps| <= 1 then 0 else Padding(ps[..|ps| - 1]) + AlignDelta(|ps[|ps| - 2].data|, 4)
  }

  /** The length of the profiles' encoding, to the octet. */
  lemma {:induction false} ProfilesLength(p: nat, ps: seq<Profile>, order: Order)
    requires p % 4 == 0
    ensures var n := |EncAll(p, ProfileItems(ps), order)|;
            n + 3 * |ps| == Total(ps) + Padding(ps) && (ps != [] ==> (p + n) % 4 == |ps[|ps| - 1].data| % 4)
    ensures ps != [] ==> Padding(ps) <= 3 * (|ps| - 1)
  {
    EncNothing(p, order);
    hide EncAll, NativeBytes, AlignDelta;
    if ps != [] {
      var init, last := ps[..|ps| - 1], ps[|ps| - 1];
      ProfilesLength(p, init, order);
      ProfileMore(p, init, last, order);
      assert ps == init + [last];
    }
  }

  /** One more profile: padding, unless it is the first, tag, length and data. */
  lemma ProfileMore(p: nat, init: seq<Profile>, last: Profile, order: Order)
    requires p % 4 == 0
    requires init != [] ==> (p + |EncAll(p, ProfileItems(init), order)|) % 4 == |init[|init| - 1].data| % 4
    ensures var n := |EncAll(p, ProfileItems(init), order)|;
            var pad := if init == [] then 0 else AlignDelta(|init[|init| - 1].data|, 4);
            && pad <= 3
            && |EncAll(p, ProfileItems(init + [last]), order)| == n + pad + 8 + |last.data|
            && (p + n + pad + 8 + |last.data|) % 4 == |last.data| % 4
  {
    EncNothing(p, order);
    hide EncAll, NativeBytes, AlignDelta;
    var items := ProfileItems(init);
    var q := p + |EncAll(p, items, order)|;
    assert (init + [last])[..|init|] == init;
    OneProfile(p, items, last, order);
    AlignedTo4(q, |last.data|);
    if init != [] {
      SameDelta(q, |init[|init| - 1].data|);
    }
  }

  lemma AlignedTo4(q: nat, n: nat)
    ensures (q + AlignDelta(q, 4) + 8 + n) % 4 == n % 4 && (q % 4 == 0 ==> AlignDelta(q, 4) == 0)
  {
    AlignDelta4(q, AlignDelta(q, 4));
    AlignDelta4(q, 0);
    var k := (q + AlignDelta(q, 4)) / 4;
    assert q + AlignDelta(q, 4) + 8 + n == 4 * (k + 2) + n;
  }

  lemma SameDelta(q: nat, n: nat)
    requires q % 4 == n % 4
    ensures AlignDelta(q, 4) == AlignDelta(n, 4) <= 3
  {}

  lemma EncNothing(p: nat, order: Order)
    ensures EncAll(p, [], order) == []
  {}

  lemma OneProfile(p: nat, items: seq<Item>, last: Profile, order: Order)
    ensures var q := p + |EncAll(p, items, order)|;
            |EncAll(p, items + [Scalar(4, last.tag), Scalar(4, |last.data|), Octets(last.data)], order)|
            == |EncAll(p, items, order)| + AlignDelta(q, 4) + 8 + |last.data|
  {
    hide EncAll, NativeBytes, AlignDelta;
    var a, b := items + [Scalar(4, last.tag)], items + [Scalar(4, last.tag)] + [Scalar(4, |last.data|)];
    EncAllSnoc(p, items, Scalar(4, last.tag), order);
    EncAllSnoc(p, a, Scalar(4, |last.data|), order);
    EncAllSnoc(p, b, Octets(last.data), order);
    assert b + [Octets(last.data)] == items + [Scalar(4, last.tag), Scalar(4, |last.data|), Octets(last.data)];
    var q := p + |EncAll(p, items, order)|;
    AlignedNow(q);
  }

  lemma AlignedNow(q: nat)
    ensures AlignDelta(q + AlignDelta(q, 4) + 4, 4) == 0
  {}

  /** The whole encapsulation, to the octet. */
  lemma CodedLength(r: Reference, order: Order)
    requires r.typeId != []
    ensures var p0 := AlignDelta(|r.typeId|, 4);
            |EncAll(4, Items(r, order), order)| + 3 * |r.profiles|
            == 12 + |r.typeId| + p0 + Total(r.profiles) + Padding(r.profiles)
    ensures r.profiles != [] ==> Padding(r.profiles) <= 3 * (|r.profiles| - 1)
  {
    hide EncAll, NativeBytes;
    var a: seq<Item> := [Scalar(1, order.Bit())];
    var b := a + [Str(r.typeId)];
    var c := b + [Scalar(4, |r.profiles|)];
    FrontLength(r, order);
    EncAllAppend(4, c, ProfileItems(r.profiles), order);
    assert Items(r, order) == c + ProfileItems(r.profiles);
    FirstItems(|r.typeId|);
    ProfilesLength(16 + |r.typeId| + AlignDelta(|r.typeId|, 4), r.profiles, order);
  }

  lemma FrontLength(r: Reference, order: Order)
    ensures |EncAll(4, [Scalar(1, order.Bit())] + [Str(r.typeId)] + [Scalar(4, |r.profiles|)], order)|
            == 12 + |r.typeId| + AlignDelta(|r.typeId|, 4)
  {
    hide EncAll, NativeBytes, AlignDelta;
    var a: seq<Item> := [Scalar(1, order.Bit())];
    var b := a + [Str(r.typeId)];
    EncNothing(4, order);
    assert [] + a == a;
    EncAllSnoc(4, [], Scalar(1, order.Bit()), order);
    EncAllSnoc(4, a, Str(r.typeId), order);
    EncAllSnoc(4, b, Scalar(4, |r.profiles|), order);
    FirstItems(|r.typeId|);
  }

  lemma FirstItems(n: nat)
    ensures AlignDelta(4, 1) == 0 && AlignDelta(5, 4) == 3 && AlignDelta(12 + n, 4) == AlignDelta(n, 4)
    ensures (16 + n + AlignDelta(n, 4)) % 4 == 0
  {}

  /** A reference coded takes no more than so many octets. */
  ghost predicate Enough(r: Reference, order: Order, len: nat) {
    |EncAll(4, Items(r, order), order)| <= len
  }

  /**
   * The length meant is enough exactly when there is a profile or the type id does not need all the padding there is.
   */
  lemma SizeBound(r: Reference, order: Order)
    requires r.typeId != []
    ensures Enough(r, order, Length(r)) <==> r.profiles != [] || |r.typeId| % 4 != 1
  {
    hide EncAll;
    CodedLength(r, order);
  }

  /** The length as written is enough exactly when little enough of the profiles' padding is needed. */
  lemma AsWrittenBound(r: Reference, order: Order)
    requires r.typeId != []
    ensures var p0 := AlignDelta(|r.typeId|, 4);
            Enough(r, order, LengthAsWritten(r))
            <==> 5 + p0 + Padding(r.profiles) <= 3 * |r.profiles|
  {
    hide EncAll, Padding, AlignDelta;
    CodedLength(r, order);
  }

  /** So it is too short for every reference with one profile, the usual kind. */
  lemma AsWrittenTooShort(r: Reference, order: Order)
    requires r.typeId != [] && |r.profiles| == 1
    ensures !Enough(r, order, LengthAsWritten(r))
  {
    hide EncAll, Padding, AlignDelta;
    AsWrittenBound(r, order);
  }

  // ---- writing the string ----

  /** The first items of `full` have been coded into the one block there is, and the rest will fit. */
  ghost predicate Writing(c: Coder, out: array<byte>, d: seq<Item>, full: seq<Item>)
    reads c, c.Repr
  {
    && c.Enc(0) && c.mode == Encoding && c.owner == null && c.giop == null
    && |c.bufs| == 1 && c.cur == 0 && c.bufs[0].data == out && c.bufs[0].len == out.Length
    && c.cells == EncAll(0, d, c.order) && d <= full && |EncAll(0, full, c.order)| < out.Length
  }

  lemma PrefixShorter(d: seq<Item>, full: seq<Item>, order: Order)
    requires d <= full
    ensures |EncAll(0, d, order)| <= |EncAll(0, full, order)|
  {
    hide EncAll;
    assert full == d + full[|d|..];
    EncAllAppend(0, d, full[|d|..], order);
  }

  lemma OneBlock(c: Coder, out: array<byte>, d: seq<Item>, full: seq<Item>)
    requires Writing(c, out, d, full)
    ensures c.Left() == out.Length - |c.cells| && Matches(c.cells, out[..|c.cells|]) && |c.cells| <= out.Length
    ensures c.buflen == |c.cells|
  {
    hide EncAll, Owned, Coder.Ledger, Coder.Geometry;
    assert c.bufs[..0] == [] && Parts([]) == [];
    assert [] + c.bufs[0].part == c.bufs[0].part;
  }

  /** One coding call; there is room, so it cannot fail. */
  method Put(c: Coder, it: Item, ghost out: array<byte>, ghost d: seq<Item>, ghost full: seq<Item>)
    requires Writing(c, out, d, full) && ValidItem(it) && |d| < |full| && full[|d|] == it
    modifies c.Repr
    ensures Writing(c, out, d + [it], full) && fresh(c.Repr - old(c.Repr)) && out in c.Repr
  {
    hide EncAll, PutItem, AlignDelta, Matches, Coder.Shape, Coder.Enc;
    assert d + [it] <= full;
    PrefixShorter(d + [it], full, c.order);
    EncAllSnoc(0, d, it, c.order);
    OneBlock(c, out, d, full);
    Flat(c, it);
    match it {
      case Scalar(n, v) => var st := c.EncodeScalar(n, v);
      case Str(s) => var st := c.EncodeStr(s);
      case Octets(s) => var st := c.EncodeOctets(s);
    }
    InBlock(c, out);
  }

  lemma InBlock(c: Coder, out: array<byte>)
    requires c.Shape() && |c.bufs| == 1 && c.bufs[0].data == out
    ensures out in c.Repr
  {
    hide Coder.Ledger, Coder.Geometry;
  }

  /** A coder without an engine never cuts anything. */
  lemma Flat(c: Coder, it: Item)
    requires c.giop == null && c.owner == null
    ensures PutItem(c.Flow(), c.Cfg(), it) == Fragment.Flow([], c.cells + EncItem(|c.cells|, it, c.order))
  {
    hide EncItem;
    PutFits(c.Flow(), c.Cfg(), it);
  }

  /** The prefix and the encapsulation behind it, coded into a block for a reference of the length. */
  method Encoded(order: Order, r: Reference, len: nat) returns (out: array<byte>, n: nat, ghost bin: seq<byte>)
    requires ValidReference(r) && Enough(r, order, len)
    ensures fresh(out) && out.Length == 2 * len + 5 && n == 4 + |bin| && 0 < |bin| <= len
    ensures out[..4] == PREFIX && out[4..n] == bin && Matches(EncAll(4, Items(r, order), order), bin)
  {
    hide EncAll, Matches, ValidItem, Items, Coder.Shape, Coder.Enc;
    var size := len + len + 5;
    out := new byte[size];
    var es, c := Coder.EncapInit(order, out, size, Encoding);
    ghost var full := [Octets(PREFIX)] + Items(r, order);
    Prefixed(r, order);
    EncNothing(0, order);
    WriteItems(c, out, r, full);
    OneBlock(c, out, full, full);
    n := c.buflen;
    NotEmpty(r, order);
    Split(c.cells, out[..n], EncAll(4, Items(r, order), order));
    bin := out[..n][4..];
    Nested(out[..], n);
  }

  lemma Nested(s: seq<byte>, n: nat)
    requires 4 <= n <= |s|
    ensures s[..n][..4] == s[..4] && s[..n][4..] == s[4..n]
  {}

  /** IORToString, with the length computed by ior_length, as it is meant or as it is written. */
  method ToString(order: Order, r: Reference, len: nat) returns (st: IorStatus, out: array<byte>, ghost bin: seq<byte>)
    requires ValidReference(r) && Enough(r, order, len)
    ensures fresh(out) && out.Length == 2 * len + 5 && st == IOR_OK
    ensures Matches(EncAll(0, Items(r, order), order), bin) && 4 + 2 * |bin| < out.Length
    ensures out[..4 + 2 * |bin|] == PREFIX + Hex(bin) && out[4 + 2 * |bin|] == 0
    ensures out[0] == 'I' as int && out[1] == 'O' as int && out[2] == 'R' as int && out[3] == ':' as int
    ensures Spells(out[4..4 + 2 * |bin|], bin)
    ensures forall i :: 4 <= i < 4 + 2 * |bin| ==> 48 <= out[i] <= 57 || 97 <= out[i] <= 102
  {
    hide EncAll, Matches, Hex, Items, ValidReference, Enough, Spells;
    var n;
    out, n, bin := Encoded(order, r, len);
    st := ToAscii(out, 4, n - 4);
    assert out[..4 + 2 * |bin|] == out[..4] + out[4..4 + 2 * |bin|];
    PrefixIs(out[..]);
    ItemsNarrow(r, order);
    BehindPrefix(0, 4, Items(r, order), order);
  }

  lemma Prefixed(r: Reference, order: Order)
    ensures EncAll(0, [Octets(PREFIX)] + Items(r, order), order) == Cells(PREFIX) + EncAll(4, Items(r, order), order)
  {
    hide EncAll, Items;
    var full := [Octets(PREFIX)] + Items(r, order);
    EncAllCons(0, full, order);
    assert full[1..] == Items(r, order) && full[0] == Octets(PREFIX);
  }

  lemma NotEmpty(r: Reference, order: Order)
    ensures |EncAll(4, Items(r, order), order)| > 0
  {
    hide EncAll;
    EncAllCons(4, Items(r, order), order);
  }

  lemma Split(c: Stream, bs: seq<byte>, rest: Stream)
    requires Matches(c, bs) && c == Cells(PREFIX) + rest
    ensures bs[..4] == PREFIX && Matches(rest, bs[4..])
  {
    MatchesSlice(c, bs, 0, PREFIX);
    forall i | 0 <= i < |rest| && rest[i].Data? ensures bs[4..][i] == rest[i].b {
      assert c[i + 4] == rest[i];
    }
  }

  lemma {:induction false} ProfileAt(ps: seq<Profile>, k: nat)
    requires k < |ps|
    ensures |ProfileItems(ps)| == 3 * |ps| && ProfileItems(ps[..k]) == ProfileItems(ps)[..3 * k]
    ensures var t := ProfileItems(ps);
            t[3 * k] == Scalar(4, ps[k].tag) && t[3 * k + 1] == Scalar(4, |ps[k].data|)
                  && t[3 * k + 2] == Octets(ps[k].data)
    decreases |ps|
  {
    var init := ps[..|ps| - 1];
    ProfileCount(init);
    if k < |init| {
      ProfileAt(init, k);
      assert init[..k] == ps[..k];
    }
  }

  lemma {:induction false} ProfileCount(ps: seq<Profile>)
    ensures |ProfileItems(ps)| == 3 * |ps|
  {
    if ps != [] {
      ProfileCount(ps[..|ps| - 1]);
    }
  }

  /** Some of the items coded. */
  ghost predicate Written(c: Coder, out: array<byte>, k: nat, full: seq<Item>)
    reads c, c.Repr
  {
    k <= |full| && Writing(c, out, full[..k], full)
  }

  method PutNext(c: Coder, it: Item, ghost out: array<byte>, ghost k: nat, ghost full: seq<Item>)
    requires Written(c, out, k, full) && ValidItems(full) && k < |full| && full[k] == it
    modifies c.Repr
    ensures Written(c, out, k + 1, full) && fresh(c.Repr - old(c.Repr))
  {
    hide Writing, ValidItem;
    assert full[..k] + [it] == full[..k + 1];
    Put(c, it, out, full[..k], full);
  }

  /** The coding calls of IORToString. */
  method WriteItems(c: Coder, ghost out: array<byte>, r: Reference, ghost full: seq<Item>)
    requires Writing(c, out, [], full) && ValidReference(r) && full == [Octets(PREFIX)] + Items(r, c.order)
    modifies c.Repr
    ensures Writing(c, out, full, full) && fresh(c.Repr - old(c.Repr))
  {
    hide Writing, Written, ValidItems, ProfileItems;
    FullValid(r, c.order);
    Begun(c, out, full);
    ProfileCount(r.profiles);
    PutNext(c, Octets(PREFIX), out, 0, full);
    PutNext(c, Scalar(1, c.order.Bit()), out, 1, full);
    PutNext(c, Str(r.typeId), out, 2, full);
    var len := |r.profiles|;
    PutNext(c, Scalar(4, len), out, 3, full);
    var idx := 0;
    while idx < len
      invariant idx <= len && Written(c, out, 4 + 3 * idx, full) && fresh(c.Repr - old(c.Repr))
    {
      ProfileAt(r.profiles, idx);
      var p := r.profiles[idx];
      PutNext(c, Scalar(4, p.tag), out, 4 + 3 * idx, full);
      PutNext(c, Scalar(4, |p.data|), out, 5 + 3 * idx, full);
      PutNext(c, Octets(p.data), out, 6 + 3 * idx, full);
      idx := idx + 1;
    }
    Ended(c, out, full);
  }

  lemma FullValid(r: Reference, order: Order)
    requires ValidReference(r)
    ensures ValidItems([Octets(PREFIX)] + Items(r, order))
  {
    hide ValidReference, Items;
    ItemsValid(r, order);
  }

  lemma Begun(c: Coder, out: array<byte>, full: seq<Item>)
    requires Writing(c, out, [], full)
    ensures Written(c, out, 0, full)
  {
    hide Writing;
    assert full[..0] == [];
  }

  lemma Ended(c: Coder, out: array<byte>, full: seq<Item>)
    requires Written(c, out, |full|, full)
    ensures Writing(c, out, full, full)
  {
    hide Writing;
    assert full[..|full|] == full;
  }

  // ---- reading the string ----

  function ReadProfiles(n: nat, input: seq<byte>, d: Cdr.Cursor, native: Order, sex: nat): seq<Profile>
    requires Contained(input, d)
  {
    if n == 0 then []
    else
      var (tag, d1) := Word(input, d, native, sex);
      var (data, d2) := Sequence(input, d1, native, sex);
      [Profile(tag, data)] + ReadProfiles(n - 1, input, d2, native, sex)
  }

  /** What the octets of an encapsulation say. */
  function ReadReference(input: seq<byte>, native: Order): Reference
    requires input != []
  {
    var (id, d1) := Text(input, At(1), native, input[0]);
    var (n, d2) := Word(input, d1, native, input[0]);
    Reference(id, ReadProfiles(n, input, d2, native, input[0]))
  }

  /** IORFromString; s is the string without its closing NUL. */
  method FromString(native: Order, s: seq<byte>) returns (st: IorStatus, r: Reference)
    requires 4 <= |s| && s[..4] == PREFIX ==> |s| >= 6
    ensures |s| < 4 || s[..4] != PREFIX ==> st == IOR_EINV_IORSTR
    ensures 4 <= |s| && s[..4] == PREFIX ==> st == IOR_OK && r == ReadReference(Unhex(s[4..]), native)
    ensures st == IOR_OK <==> |s| >= 4 && s[0] == 'I' as int && s[1] == 'O' as int && s[2] == 'R' as int
                              && s[3] == ':' as int
    ensures forall bin :: st == IOR_OK && Spells(s[4..], bin) && bin != [] ==> r == ReadReference(bin, native)
  {
    hide Unhex, ReadProfiles, Word, Text, Sequence, Coder.Shape, Spells;
    PrefixIs(s);
    if |s| >= 4 {
      forall bin | Spells(s[4..], bin) ensures Unhex(s[4..]) == bin {
        UnhexSpelt(s[4..], bin);
      }
    }
    r := Reference([], []);
    if |s| < 4 || s[..4] != PREFIX {
      return IOR_EINV_IORSTR, r;
    }
    var buf := FromHex(s[4..]);
    var es, c := Coder.EncapInit(native, buf, buf.Length, Decoding);
    assert buf[..buf.Length] == buf[..];
    r := GetReference(c, buf[..]);
    st := IOR_OK;
  }

  lemma PrefixIs(s: seq<byte>)
    ensures |s| >= 4 && s[..4] == PREFIX
            <==> |s| >= 4 && s[0] == 'I' as int && s[1] == 'O' as int && s[2] == 'R' as int && s[3] == ':' as int
  {
    if |s| >= 4 {
      assert s[..4] == [s[0], s[1], s[2], s[3]];
    }
  }

  /** Where in the encapsulation decoding is. */
  ghost predicate Within(c: Coder, input: seq<byte>, d: Cdr.Cursor)
    reads c, c.Repr
  {
    c.Dec(0) && c.bufs != [] && c.Input() == input && c.Cursor() == d && Contained(input, d)
  }

  /** The decoding calls of IORFromString. */
  method GetReference(c: Coder, ghost input: seq<byte>) returns (r: Reference)
    requires Within(c, input, At(1)) && input != [] && c.sex == input[0] as int
    modifies c.bufs
    ensures r == ReadReference(input, c.order)
  {
    hide ReadProfiles, Word, Text, Sequence, Coder.Shape, Coder.Dec;
    var id := GetText(c);
    var len := GetWord(c);
    ghost var d := Word(input, Text(input, At(1), c.order, c.sex).1, c.order, c.sex).1;
    ghost var goal := ReadProfiles(len, input, d, c.order, c.sex);
    var profs := [];
    var idx := 0;
    assert [] + goal == goal;
    while idx < len
      invariant idx <= len && Within(c, input, d)
      invariant profs + ReadProfiles(len - idx, input, d, c.order, c.sex) == goal
    {
      NextProfile(len - idx, input, d, c.order, c.sex, profs);
      var p;
      p, d := GetProfile(c, input, d);
      profs := profs + [p];
      idx := idx + 1;
    }
    NoProfiles(input, d, c.order, c.sex);
    assert profs + [] == profs;
    r := Reference(id, profs);
  }

  method GetProfile(c: Coder, ghost input: seq<byte>, ghost d: Cdr.Cursor) returns (p: Profile, ghost e: Cdr.Cursor)
    requires Within(c, input, d)
    modifies c.bufs
    ensures var (tag, d1) := Word(input, d, c.order, c.sex);
            var (data, d2) := Sequence(input, d1, c.order, c.sex);
            p == Profile(tag, data) && e == d2 && Within(c, input, e)
  {
    hide Word, Sequence, Coder.Shape, Coder.Dec;
    var tag := GetWord(c);
    var data := GetSequence(c);
    p := Profile(tag, data);
    e := Sequence(input, Word(input, d, c.order, c.sex).1, c.order, c.sex).1;
  }

  lemma NextProfile(n: nat, input: seq<byte>, d: Cdr.Cursor, native: Order, sex: nat, before: seq<Profile>)
    requires Contained(input, d) && n > 0
    ensures var (tag, d1) := Word(input, d, native, sex);
            var (data, d2) := Sequence(input, d1, native, sex);
            before + ReadProfiles(n, input, d, native, sex)
            == before + [Profile(tag, data)] + ReadProfiles(n - 1, input, d2, native, sex)
  {
    hide Word, Sequence;
  }

  lemma NoProfiles(input: seq<byte>, d: Cdr.Cursor, native: Order, sex: nat)
    requires Contained(input, d)
    ensures ReadProfiles(0, input, d, native, sex) == []
  {}

  // ---- there and back ----

  /** The items of one profile. */
  function OneItems(p: Profile): seq<Item> {
    [Scalar(4, p.tag), Scalar(4, |p.data|), Octets(p.data)]
  }

  lemma ProfileSnoc(init: seq<Profile>, last: Profile)
    ensures ProfileItems(init + [last]) == ProfileItems(init) + OneItems(last) && ProfileItems([]) == []
  {
    assert (init + [last])[..|init|] == init;
  }

  lemma Regroup<T>(a: seq<T>, b: seq<T>, c: seq<T>)
    ensures a + b + c == a + (b + c)
  {}

  lemma {:induction false} ProfileCons(ps: seq<Profile>)
    requires ps != []
    ensures ProfileItems(ps) == OneItems(ps[0]) + ProfileItems(ps[1..])
    decreases |ps|
  {
    hide ProfileItems, OneItems;
    var init, last := ps[..|ps| - 1], ps[|ps| - 1];
    assert ps == init + [last];
    ProfileSnoc(init, last);
    if init == [] {
      assert ps[1..] == [] && [] + OneItems(last) == OneItems(last) + [];
    } else {
      ProfileCons(init);
      assert ps[1..] == init[1..] + [last];
      ProfileSnoc(init[1..], last);
      Regroup(OneItems(ps[0]), ProfileItems(init[1..]), OneItems(last));
    }
  }

  lemma ProfileFront(ps: seq<Profile>)
    requires ps != []
    ensures ProfileItems(ps)
            == [Scalar(4, ps[0].tag)] + ([Scalar(4, |ps[0].data|), Octets(ps[0].data)] + ProfileItems(ps[1..]))
  {
    hide ProfileItems;
    ProfileCons(ps);
    Regroup([Scalar(4, ps[0].tag)], [Scalar(4, |ps[0].data|), Octets(ps[0].data)], ProfileItems(ps[1..]));
    assert OneItems(ps[0]) == [Scalar(4, ps[0].tag)] + [Scalar(4, |ps[0].data|), Octets(ps[0].data)];
  }

  lemma {:induction false} ProfilesRead(c: Stream, bin: seq<byte>, p: nat, ps: seq<Profile>, sender: Order,
        native: Order)
    requires Coded(c, bin, p, ProfileItems(ps), sender)
    ensures p <= |bin| && ReadProfiles(|ps|, bin, At(p), native, sender.Bit()) == ps
    decreases |ps|
  {
    Bounded(c, bin, p, ProfileItems(ps), sender);
    if ps == [] {
      NoProfiles(bin, At(p), native, sender.Bit());
    } else {
      hide Coded, Word, Sequence, AlignDelta, ProfileItems, ReadProfiles;
      ProfileFront(ps);
      var rest := [Scalar(4, |ps[0].data|), Octets(ps[0].data)] + ProfileItems(ps[1..]);
      var p1 := TakeWord(c, bin, p, ps[0].tag, rest, sender, native);
      var p2 := TakeSequence(c, bin, p1, ps[0].data, ProfileItems(ps[1..]), sender, native);
      ProfilesRead(c, bin, p2, ps[1..], sender, native);
      NextProfile(|ps|, bin, At(p), native, sender.Bit(), []);
      assert ps == [ps[0]] + ps[1..];
    }
  }

  lemma Bounded(c: Stream, bin: seq<byte>, p: nat, items: seq<Item>, sender: Order)
    requires Coded(c, bin, p, items, sender)
    ensures p <= |bin|
  {}

  /** The octets of a reference's encapsulation say that reference, on a machine of either order. */
  lemma ReferenceRead(r: Reference, bin: seq<byte>, sender: Order, native: Order)
    requires ValidReference(r) && Matches(EncAll(0, Items(r, sender), sender), bin)
    ensures bin != [] && ReadReference(bin, native) == r
  {
    hide EncAll, Matches, Word, Text, Sequence, Octet, ProfileItems, ReadProfiles, Coded, AlignDelta;
    var c := EncAll(0, Items(r, sender), sender);
    ItemsValid(r, sender);
    AllCoded(c, bin, Items(r, sender), sender);
    var bit: nat := sender.Bit();
    var i3 := ProfileItems(r.profiles);
    var i2 := [Scalar(4, |r.profiles|)] + i3;
    var i1 := [Str(r.typeId)] + i2;
    assert Items(r, sender) == [Scalar(1, bit)] + i1;
    var p1 := TakeOctet(c, bin, 0, bit, i1, sender, native);
    SexOctet(bin, bit, native);
    var p2 := TakeText(c, bin, 1, r.typeId, i2, sender, native);
    var p3 := TakeWord(c, bin, p2, |r.profiles|, i3, sender, native);
    ProfilesRead(c, bin, p3, r.profiles, sender, native);
  }

  lemma AllCoded(c: Stream, bin: seq<byte>, items: seq<Item>, sender: Order)
    requires c == EncAll(0, items, sender) && Matches(c, bin) && ValidItems(items)
    ensures Coded(c, bin, 0, items, sender)
  {
    hide EncAll;
    assert c[0..0 + |c|] == c;
  }

  lemma SexOctet(bin: seq<byte>, bit: nat, native: Order)
    requires Octet(bin, At(0), native, bit) == (bit, At(1))
    ensures bin != [] && bin[0] == bit
  {
    if bin != [] {
      Coder.SingleOctet(bin, 0, native, bit);
    }
  }

  /** Any reference, made a string by a machine of one order and read by one of the same or the other, comes back. */
  method RoundTrip(sender: Order, native: Order, r: Reference, len: nat) returns (st: IorStatus, back: Reference)
    requires ValidReference(r) && Enough(r, sender, len)
    ensures st == IOR_OK && back == r
  {
    hide EncAll, Matches, Hex, Unhex, Items, ReadReference, ValidReference, Enough;
    var ts, out, bin := ToString(sender, r, len);
    ReferenceRead(r, bin, sender, native);
    UnhexHex(bin);
    ghost var n := 4 + 2 * |bin|;
    StringOf(out[..], PREFIX + Hex(bin));
    var s := CString(out);
    assert (PREFIX + Hex(bin))[..4] == PREFIX && (PREFIX + Hex(bin))[4..] == Hex(bin);
    st, back := FromString(native, s);
  }

  /**
   * A reference that any machine has written, in digits of either case: whatever spells the octets of its
   * encapsulation is read as that reference.
   */
  method ReadAny(native: Order, s: seq<byte>, ghost r: Reference, ghost bin: seq<byte>, ghost sender: Order)
        returns (st: IorStatus, back: Reference)
    requires ValidReference(r) && Matches(EncAll(0, Items(r, sender), sender), bin)
    requires |s| >= 4 && Spells(s[4..], bin)
    requires s[0] == 'I' as int && s[1] == 'O' as int && s[2] == 'R' as int && s[3] == ':' as int
    ensures st == IOR_OK && back == r
  {
    hide EncAll, Matches, Unhex, Items, ReadReference, ValidReference, IsDigit;
    ReferenceRead(r, bin, sender, native);
    st, back := FromString(native, s);
  }

  /** The octets before the first NUL. */
  function Until0(s: seq<byte>): seq<byte> {
    if s == [] || s[0] == 0 then [] else [s[0]] + Until0(s[1..])
  }

  lemma {:induction false} StringOf(s: seq<byte>, t: seq<byte>)
    requires |t| < |s| && s[..|t|] == t && s[|t|] == 0 && forall i :: 0 <= i < |t| ==> t[i] != 0
    ensures Until0(s) == t
    decreases |t|
  {
    if t != [] {
      assert s[0] == s[..|t|][0] == t[0];
      assert s[1..][..|t| - 1] == s[..|t|][1..] == t[1..];
      StringOf(s[1..], t[1..]);
    }
  }

  method CString(a: array<byte>) returns (s: seq<byte>)
    ensures s == Until0(a[..])
  {
    var n := 0;
    assert a[0..] == a[..] && a[..0] + Until0(a[..]) == Until0(a[..]);
    while n < a.Length && a[n] != 0
      invariant n <= a.Length && a[..n] + Until0(a[n..]) == Until0(a[..])
    {
      assert a[n..][1..] == a[n + 1..] && a[..n + 1] == a[..n] + [a[n]];
      n := n + 1;
    }
    s := a[..n];
    assert Until0(a[n..]) == [] && a[..n] + [] == a[..n];
  }
}
