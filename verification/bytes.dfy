/** Octets, byte orders and the integers they spell. */
module Bytes {
  type byte = x: int | 0 <= x < 256

  /** The byte order of a machine; `Bit` is the value CDR_BYTE_ORDER has on it. */
  datatype Order = Big | Little {
    function Bit(): nat {
      if Big? then 0 else 1
    }

    function Other(): Order {
      if Big? then Little else Big
    }
  }

  /** 256 to the power of n: the number of values n octets can hold. */
  function Limit(n: nat): nat {
    if n == 0 then 1 else 256 * Limit(n - 1)
  }

  function LittleBytes(v: nat, n: nat): (bs: seq<byte>)
    ensures |bs| == n
  {
    if n == 0 then [] else [v % 256] + LittleBytes(v / 256, n - 1)
  }

  function LittleValue(bs: seq<byte>): nat {
    if bs == [] then 0 else bs[0] + 256 * LittleValue(bs[1..])
  }

  function Reverse<T>(s: seq<T>): (r: seq<T>)
    ensures |r| == |s|
  {
    if s == [] then [] else Reverse(s[1..]) + [s[0]]
  }

  /** What a store of the n-octet integer v leaves in memory on a machine of the given order. */
  function NativeBytes(v: nat, n: nat, order: Order): (bs: seq<byte>)
    ensures |bs| == n
  {
    if order.Little? then LittleBytes(v, n) else Reverse(LittleBytes(v, n))
  }

  /** What a load of these octets yields on a machine of the given order. */
  function NativeValue(bs: seq<byte>, order: Order): nat {
    LittleValue(if order.Little? then bs else Reverse(bs))
  }

  /** The decoder's reading: a load, after a reversal unless the stream's byte order is our own. */
  function Decoded(bs: seq<byte>, native: Order, sex: nat): nat {
    NativeValue(if sex == native.Bit() then bs else Reverse(bs), native)
  }

  /** CDR_SWAP_2, CDR_SWAP_4 and CDR_SWAP_8: octet pairs exchanged by swab and stored back to front. */
  function SwapMacro(bs: seq<byte>): (r: seq<byte>)
    ensures |bs| % 2 == 0 ==> |r| == |bs|
  {
    if |bs| < 2 then [] else SwapMacro(bs[2..]) + [bs[1], bs[0]]
  }

  lemma {:induction false} LittleRoundTrip(v: nat, n: nat)
    requires v < Limit(n)
    ensures LittleValue(LittleBytes(v, n)) == v
  {
    if n > 0 {
      LittleRoundTrip(v / 256, n - 1);
      assert LittleBytes(v, n)[1..] == LittleBytes(v / 256, n - 1);
    }
  }

  lemma {:induction false} LittleValueBelowLimit(bs: seq<byte>)
    ensures LittleValue(bs) < Limit(|bs|)
  {
    if bs != [] {
      LittleValueBelowLimit(bs[1..]);
    }
  }

  lemma {:induction false} ReverseAt<T>(s: seq<T>, k: nat)
    requires k < |s|
    ensures Reverse(s)[k] == s[|s| - 1 - k]
  {
    if k < |s| - 1 {
      ReverseAt(s[1..], k);
    }
  }

  lemma ReverseTwice<T>(s: seq<T>)
    ensures Reverse(Reverse(s)) == s
  {
    forall k | 0 <= k < |s| ensures Reverse(Reverse(s))[k] == s[k] {
      ReverseAt(Reverse(s), k);
      ReverseAt(s, |s| - 1 - k);
    }
  }

  /** A load of reversed octets is a load on a machine of the other order. */
  lemma ReversedLoad(bs: seq<byte>, order: Order)
    ensures NativeValue(Reverse(bs), order) == NativeValue(bs, order.Other())
  {
    ReverseTwice(bs);
  }

  lemma NativeRoundTrip(v: nat, n: nat, order: Order)
    requires v < Limit(n)
    ensures NativeValue(NativeBytes(v, n, order), order) == v
  {
    ReverseTwice(LittleBytes(v, n));
    LittleRoundTrip(v, n);
  }

  /** A store by a machine of one order is read back by a machine of any order that is told which. */
  lemma AnyOrderRoundTrip(v: nat, n: nat, sender: Order, receiver: Order)
    requires v < Limit(n)
    ensures Decoded(NativeBytes(v, n, sender), receiver, sender.Bit()) == v
  {
    NativeRoundTrip(v, n, sender);
    ReversedLoad(NativeBytes(v, n, sender), receiver);
  }

  /** The decoder's reading depends on the stream's byte order only, not on the machine doing it. */
  lemma DecodedIsOrderOfStream(bs: seq<byte>, native: Order, stream: Order)
    ensures Decoded(bs, native, stream.Bit()) == NativeValue(bs, stream)
  {
    ReversedLoad(bs, native);
  }

  lemma {:induction false} SwapMacroReverses(bs: seq<byte>)
    requires |bs| % 2 == 0
    ensures SwapMacro(bs) == Reverse(bs)
  {
    if |bs| >= 2 {
      SwapMacroReverses(bs[2..]);
      assert bs[1..][1..] == bs[2..];
    }
  }

  // ---- what the octets are ----

  /** The bit is 0 for most and 1 for least significant octet first: it tells where a stored 1 has its one. */
  lemma BitTellsOrder(o: Order)
    ensures NativeBytes(1, 2, o)[1 - o.Bit()] == 1 && NativeBytes(1, 2, o)[o.Bit()] == 0
    ensures NativeBytes(1, 2, Little) == [1, 0] && NativeBytes(1, 2, Big) == [0, 1]
    ensures o.Bit() == if o == Little then 1 else 0
  {
    assert LittleBytes(1, 2) == [1, 0];
    assert Reverse([1, 0]) == [0, 1];
  }

  /** Octet k of a stored integer, counted from its least significant end, is its digit k in base 256. */
  lemma {:induction false} LittleByteAt(v: nat, n: nat, k: nat)
    requires k < n
    ensures Limit(k) > 0 && LittleBytes(v, n)[k] == (v / Limit(k)) % 256
  {
    if k > 0 {
      LittleByteAt(v / 256, n - 1, k - 1);
      DivideTwice(v, Limit(k - 1));
    }
  }

  lemma DivideTwice(v: nat, m: nat)
    requires m > 0
    ensures (v / 256) / m == v / (256 * m)
  {
    var q, r := (v / 256) / m, (v / 256) % m;
    assert v == 256 * (q * m + r) + v % 256;
    assert v == q * (256 * m) + (256 * r + v % 256);
    QuotientIs(v, 256 * m, q, 256 * r + v % 256);
  }

  lemma QuotientIs(v: nat, d: nat, q: nat, r: nat)
    requires v == q * d + r && r < d
    ensures v / d == q
  {
    var p: int := v / d;
    Multiples(p - q, d);
    assert (p - q) * d == r - v % d;
  }

  lemma Multiples(x: int, d: int)
    requires d > 0
    ensures x >= 1 ==> x * d >= d
    ensures x <= -1 ==> x * d <= -d
  {}

  /** The digits of a stored integer in its octets, least significant first or last by the machine's order. */
  lemma StoredDigits(v: nat, n: nat, k: nat, o: Order)
    requires k < n
    ensures Limit(k) > 0 && NativeBytes(v, n, o)[if o == Little then k else n - 1 - k] == (v / Limit(k)) % 256
  {
    LittleByteAt(v, n, k);
    ReverseAt(LittleBytes(v, n), n - 1 - k);
  }

  /** A word as its four octets spell it. */
  lemma WordSpelt(bs: seq<byte>)
    requires |bs| == 4
    ensures var a: nat, b: nat, c: nat, d: nat := bs[0], bs[1], bs[2], bs[3];
            && NativeValue(bs, Little) == a + 0x100 * b + 0x1_0000 * c + 0x100_0000 * d
            && NativeValue(bs, Big) == d + 0x100 * c + 0x1_0000 * b + 0x100_0000 * a
  {
    FourOctets(bs);
    FourOctets([bs[3], bs[2], bs[1], bs[0]]);
    assert Reverse(bs) == [bs[3], bs[2], bs[1], bs[0]] by {
      forall k | 0 <= k < 4 ensures Reverse(bs)[k] == bs[3 - k] {
        ReverseAt(bs, k);
      }
    }
  }

  lemma FourOctets(bs: seq<byte>)
    requires |bs| == 4
    ensures var a: nat, b: nat, c: nat, d: nat := bs[0], bs[1], bs[2], bs[3];
            LittleValue(bs) == a + 0x100 * b + 0x1_0000 * c + 0x100_0000 * d
  {
    assert bs[1..][1..] == bs[2..] && bs[2..][1..] == bs[3..] && bs[3..][1..] == [];
    var c: nat, d: nat := bs[2], bs[3];
    assert LittleValue(bs[3..]) == d;
    assert LittleValue(bs[2..]) == c + 256 * d;
  }

  /** A decoder told 0 or 1 takes a word in that order; told anything else, in the order that is not its machine's. */
  lemma WordDecoded(bs: seq<byte>, native: Order, sex: nat)
    requires |bs| == 4
    ensures var a: nat, b: nat, c: nat, d: nat := bs[0], bs[1], bs[2], bs[3];
            Decoded(bs, native, sex)
            == if sex == 1 || (sex > 1 && native == Big) then a + 0x100 * b + 0x1_0000 * c + 0x100_0000 * d
               else d + 0x100 * c + 0x1_0000 * b + 0x100_0000 * a
  {
    WordSpelt(bs);
    ReversedLoad(bs, native);
  }

  /** Storing keeps the lowest digits. */
  lemma {:induction false} StoredModulo(v: nat, n: nat)
    ensures Limit(n) > 0 && LittleValue(LittleBytes(v, n)) == v % Limit(n)
  {
    if n > 0 {
      StoredModulo(v / 256, n - 1);
      assert LittleBytes(v, n)[1..] == LittleBytes(v / 256, n - 1);
      DigitsModulo(v, Limit(n - 1));
    }
  }

  lemma DigitsModulo(v: nat, m: nat)
    requires m > 0
    ensures v % (256 * m) == v % 256 + 256 * ((v / 256) % m)
  {
    DivideTwice(v, m);
    assert v / 256 == (v / 256) / m * m + (v / 256) % m;
    assert v == 256 * (v / 256) + v % 256;
    assert v == v / (256 * m) * (256 * m) + v % (256 * m);
    assert 256 * ((v / 256) / m * m) == (v / 256) / m * (256 * m);
  }

  /** The four octets of a stored word, as the words above read them, spell what was stored, modulo 2 to the 32. */
  lemma StoredWord(v: nat, o: Order)
    ensures var bs := NativeBytes(v, 4, o);
            var a: nat, b: nat, c: nat, d: nat := bs[0], bs[1], bs[2], bs[3];
            v % 0x1_0000_0000
            == if o == Little then a + 0x100 * b + 0x1_0000 * c + 0x100_0000 * d
               else d + 0x100 * c + 0x1_0000 * b + 0x100_0000 * a
  {
    assert Limit(1) == 0x100 && Limit(2) == 0x1_0000 && Limit(3) == 0x100_0000 && Limit(4) == 0x1_0000_0000;
    StoredModulo(v, 4);
    ReverseTwice(LittleBytes(v, 4));
    WordSpelt(NativeBytes(v, 4, o));
  }
}
