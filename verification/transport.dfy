/** The loops that move a message between the coder's buffers and a socket, for any way the socket splits it. */
module Transport {
  import opened Bytes
  import opened Cdr
  import opened Giop

  datatype IiopStatus = IIOP_OK | IIOP_EINV_FD | IIOP_ENOSPACE | IIOP_EMSG_TOO_BIG | IIOP_EZERO_READ | IIOP_ERROR

  /** What becomes of one read: up to so many octets, an interruption, or a broken connection. */
  datatype Read = Some(most: nat) | Interrupted | Broken

  function Min(a: nat, b: nat): nat {
    if a <= b then a else b
  }

  /** The octets one read delivers when n are asked for and `left` are on their way. */
  function Delivers(r: Read, n: nat, left: nat): nat {
    if r.Some? then Min(r.most, Min(n, left)) else 0
  }

  /** A socket whose future is laid down: the peer's octets, and how each read and each write will go. */
  class Socket {
    var inbound: seq<byte>
    var readScript: seq<Read>
    var writeScript: seq<int>
    var wire: seq<byte>

    constructor (inbound: seq<byte>, readScript: seq<Read>, writeScript: seq<int>)
      ensures this.inbound == inbound && this.readScript == readScript && this.writeScript == writeScript && wire == []
    {
      this.inbound, this.readScript, this.writeScript, wire := inbound, readScript, writeScript, [];
    }

    /** read(2); with no outcome left the connection is broken. The flag says that errno is EINTR. */
    method Read(dst: array<byte>, off: nat, n: nat) returns (got: int, eintr: bool)
      requires off + n <= dst.Length
      modifies this`inbound, this`readScript, dst
      ensures old(readScript) == [] ==>
                got == -1 && !eintr && readScript == [] && inbound == old(inbound) && dst[..] == old(dst[..])
      ensures old(readScript) != [] ==> readScript == old(readScript)[1..]
      ensures old(readScript) != [] && !old(readScript)[0].Some? ==>
                got == -1 && eintr == old(readScript)[0].Interrupted? && inbound == old(inbound)
                      && dst[..] == old(dst[..])
      ensures old(readScript) != [] && old(readScript)[0].Some? ==>
                && !eintr && got == Delivers(old(readScript)[0], n, |old(inbound)|) && inbound == old(inbound)[got..]
                && dst[..off] == old(dst[..off]) && dst[off..off + got] == old(inbound)[..got]
    {
      eintr := false;
      if readScript == [] {
        return -1, false;
      }
      var r := readScript[0];
      readScript := readScript[1..];
      if !r.Some? {
        return -1, r.Interrupted?;
      }
      got := Delivers(r, n, |inbound|);
      forall j | 0 <= j < got {
        dst[off + j] := inbound[j];
      }
      inbound := inbound[got..];
    }

    /** write(2): -1, or how many octets went out. */
    method Write(bs: seq<byte>) returns (n: int)
      modifies this`writeScript, this`wire
      ensures n == Result(old(writeScript), |bs|) && writeScript
                == (if old(writeScript) == [] then [] else old(writeScript)[1..])
      ensures wire == old(wire) + bs[..if n < 0 then 0 else n]
    {
      n := Result(writeScript, |bs|);
      if writeScript != [] {
        writeScript := writeScript[1..];
      }
      wire := wire + bs[..if n < 0 then 0 else n];
    }
  }

  /** The outcome of the next write of so many octets. */
  function Result(writeScript: seq<int>, len: nat): (n: int)
    ensures -1 <= n <= len
  {
    if writeScript == [] || writeScript[0] < 0 then -1 else Min(writeScript[0], len)
  }

  // ---- sending ----

  /** The used octets of every buffer of a coder. */
  ghost function Segments(bs: seq<Buffer>): (s: seq<seq<byte>>)
    requires forall i :: 0 <= i < |bs| ==> bs[i].used <= bs[i].data.Length
    reads bs, set b | b in bs :: b.data
    ensures |s| == |bs| && forall i :: 0 <= i < |bs| ==> s[i] == bs[i].data[..bs[i].used]
  {
    if bs == [] then [] else [bs[0].data[..bs[0].used]] + Segments(bs[1..])
  }

  /** The outcomes behind the first k. */
  function Later(writes: seq<int>, k: nat): seq<int> {
    if k <= |writes| then writes[k..] else []
  }

  /**
   * What the loop of iiop_send reports and emits: a short write stops it, one that failed with -1 does not. What is
   * still owed is an unsigned number of 32 bits.
   */
  function Sent(segs: seq<seq<byte>>, total: nat, writeScript: seq<int>): (r: (bool, seq<byte>))
    decreases |segs|
  {
    if segs == [] || total == 0 then (true, [])
    else
      var n := Result(writeScript, |segs[0]|);
      var out := segs[0][..if n < 0 then 0 else n];
      if 0 <= n < |segs[0]| then (false, out)
      else
        var rest := Sent(segs[1..], (total - n) % WORD, Later(writeScript, 1));
        (rest.0, out + rest.1)
  }

  function Join(segs: seq<seq<byte>>): seq<byte> {
    if segs == [] then [] else segs[0] + Join(segs[1..])
  }

  /** iiop_send */
  method IiopSend(c: Coder, fd: int, s: Socket) returns (st: IiopStatus)
    requires c.Shape() && forall i :: 0 <= i < |c.bufs| ==> c.bufs[i].used <= c.bufs[i].data.Length
    requires s !in c.Repr
    modifies s
    ensures fd < 0 ==> st == IIOP_EINV_FD && s.wire == old(s.wire)
    ensures fd >= 0 && c.bufs == [] ==> st == IIOP_ENOSPACE && s.wire == old(s.wire)
    ensures fd >= 0 && c.bufs != [] ==>
              var r := Sent(Segments(c.bufs), c.buflen % WORD, old(s.writeScript));
              st == (if r.0 then IIOP_OK else IIOP_ERROR) && s.wire == old(s.wire) + r.1
  {
    hide Coder.Shape, Sent, Segments, After, Result, Later;
    if fd < 0 {
      return IIOP_EINV_FD;
    }
    if c.bufs == [] {
      return IIOP_ENOSPACE;
    }
    var total: nat := c.buflen % WORD;
    var k := 0;
    ghost var segs, before, out := Segments(c.bufs), s.wire, [];
    ghost var goal := Sent(segs, total, s.writeScript);
    assert segs[0..] == segs && before + [] == before;
    AfterNothing(goal);
    while k < |c.bufs| && total > 0
      invariant k <= |c.bufs| && forall i :: 0 <= i < |c.bufs| ==> c.bufs[i].used <= c.bufs[i].data.Length
      invariant forall i :: 0 <= i < |c.bufs| ==> segs[i] == c.bufs[i].data[..c.bufs[i].used]
      invariant s.wire == before + out
      invariant goal == After(out, Sent(segs[k..], total, s.writeScript))
    {
      ghost var writes := s.writeScript;
      var numWritten := s.Write(c.bufs[k].data[..c.bufs[k].used]);
      SentStep(segs, k, total, writes, out);
      out := out + segs[k][..if numWritten < 0 then 0 else numWritten];
      if 0 <= numWritten < c.bufs[k].used {
        return IIOP_ERROR;
      }
      total := (total - numWritten) % WORD;
      k := k + 1;
    }
    SentDone(segs[k..], total, s.writeScript, out);
    st := IIOP_OK;
  }

  function After(out: seq<byte>, r: (bool, seq<byte>)): (bool, seq<byte>) {
    (r.0, out + r.1)
  }

  lemma AfterNothing(r: (bool, seq<byte>))
    ensures After([], r) == r
  {
    assert [] + r.1 == r.1;
  }

  lemma SentStep(segs: seq<seq<byte>>, k: nat, total: nat, writes: seq<int>, out: seq<byte>)
    requires k < |segs| && total > 0
    ensures var n := Result(writes, |segs[k]|);
            var more := out + segs[k][..if n < 0 then 0 else n];
            After(out, Sent(segs[k..], total, writes))
            == if 0 <= n < |segs[k]| then (false, more)
               else After(more, Sent(segs[k + 1..], (total - n) % WORD, if writes == [] then [] else writes[1..]))
  {
    assert segs[k..][1..] == segs[k + 1..] && segs[k..][0] == segs[k];
    var n := Result(writes, |segs[k]|);
    var part := segs[k][..if n < 0 then 0 else n];
    var rest := Sent(segs[k + 1..], (total - n) % WORD, if writes == [] then [] else writes[1..]);
    assert out + part + rest.1 == out + (part + rest.1);
  }

  lemma SentDone(rest: seq<seq<byte>>, total: nat, writes: seq<int>, out: seq<byte>)
    requires rest == [] || total == 0
    ensures After(out, Sent(rest, total, writes)) == (true, out)
  {
    assert out + [] == out;
  }

  // ---- what that makes of a message ----

  /** The first n writes take all their octets. */
  ghost predicate Complete(segs: seq<seq<byte>>, n: nat, writes: seq<int>) {
    n <= |segs| && n <= |writes| && forall i :: 0 <= i < n ==> writes[i] >= |segs[i]|
  }

  /** The message is in the first n buffers, none of them empty; others may follow from earlier messages. */
  ghost predicate Message(segs: seq<seq<byte>>, n: nat) {
    n <= |segs| && |Join(segs[..n])| < WORD && forall i :: 0 <= i < n ==> segs[i] != []
  }

  lemma FirstOf(segs: seq<seq<byte>>, n: nat)
    requires 0 < n <= |segs|
    ensures segs[..n][0] == segs[0] && segs[..n][1..] == segs[1..][..n - 1]
    ensures Join(segs[..n]) == segs[0] + Join(segs[1..][..n - 1])
  {}

  /**
   * With complete writes the active buffers go out, one after the other, and nothing of the stale ones behind
   * them.
   */
  lemma {:induction false} CompleteSends(segs: seq<seq<byte>>, n: nat, writes: seq<int>)
    requires Complete(segs, n, writes) && |Join(segs[..n])| < WORD
    ensures Sent(segs, |Join(segs[..n])|, writes) == (true, Join(segs[..n]))
    decreases n
  {
    if n > 0 && |Join(segs[..n])| > 0 {
      var a, rest := segs[0], segs[1..];
      FirstOf(segs, n);
      CompleteSends(rest, n - 1, writes[1..]);
      assert Result(writes, |a|) == |a| && a[..|a|] == a;
    }
  }

  ghost predicate SameLengths(s: seq<seq<byte>>, t: seq<seq<byte>>) {
    |s| == |t| && forall i :: 0 <= i < |s| ==> |s[i]| == |t[i]|
  }

  lemma {:induction false} JoinLengths(s: seq<seq<byte>>, t: seq<seq<byte>>, n: nat)
    requires SameLengths(s, t) && n <= |s|
    ensures |Join(s[..n])| == |Join(t[..n])|
    decreases n
  {
    if n > 0 {
      FirstOf(s, n);
      FirstOf(t, n);
      JoinLengths(s[1..], t[1..], n - 1);
    }
  }

  /**
   * Exactly the message goes out, whatever is in the buffers, if and only if every write takes all its octets, one
   * for each of its buffers.
   */
  lemma WholeExactly(segs: seq<seq<byte>>, n: nat, writes: seq<int>)
    requires Message(segs, n)
    ensures (forall t :: SameLengths(t, segs) ==> Sent(t, |Join(segs[..n])|, writes).1 == Join(t[..n]))
            <==> Complete(segs, n, writes)
  {
    if Complete(segs, n, writes) {
      forall t | SameLengths(t, segs) ensures Sent(t, |Join(segs[..n])|, writes).1 == Join(t[..n]) {
        JoinLengths(t, segs, n);
        CompleteSends(t, n, writes);
      }
    } else {
      var t := Spoiled(segs, n, writes);
      assert SameLengths(t, segs);
    }
  }

  function Filled(segs: seq<seq<byte>>, b: byte): (t: seq<seq<byte>>)
    ensures |t| == |segs| && forall i :: 0 <= i < |t| ==> t[i] == seq(|segs[i]|, _ => b)
  {
    if segs == [] then [] else [seq(|segs[0]|, _ => b)] + Filled(segs[1..], b)
  }

  lemma {:induction false} SentFilled(segs: seq<seq<byte>>, b: byte, total: nat, writes: seq<int>)
    ensures forall x :: x in Sent(Filled(segs, b), total, writes).1 ==> x == b
    decreases |segs|
  {
    if segs != [] && total > 0 {
      var t := Filled(segs, b);
      assert t[1..] == Filled(segs[1..], b);
      var n := Result(writes, |t[0]|);
      SentFilled(segs[1..], b, (total - n) % WORD, Later(writes, 1));
    }
  }

  lemma SentHead(segs: seq<seq<byte>>, total: nat, writes: seq<int>)
    requires segs != [] && total > 0
    ensures var n := Result(writes, |segs[0]|);
            Sent(segs, total, writes).1
            == if n < 0 then Sent(segs[1..], (total - n) % WORD, Later(writes, 1)).1
               else if n < |segs[0]| then segs[0][..n]
               else segs[0] + Sent(segs[1..], (total - n) % WORD, Later(writes, 1)).1
  {
    var n := Result(writes, |segs[0]|);
    if n < 0 {
      var rest := Sent(segs[1..], (total - n) % WORD, Later(writes, 1)).1;
      assert segs[0][..0] + rest == rest;
    } else if n == |segs[0]| {
      assert segs[0][..n] == segs[0];
    }
  }

  lemma CompleteLater(segs: seq<seq<byte>>, n: nat, writes: seq<int>)
    requires 0 < n <= |segs| && writes != [] && writes[0] >= |segs[0]|
    ensures Complete(segs, n, writes) <==> Complete(segs[1..], n - 1, writes[1..])
  {
    var rest, later := segs[1..], writes[1..];
    if Complete(rest, n - 1, later) {
      forall i | 0 <= i < n ensures writes[i] >= |segs[i]| {
        if i > 0 {
          assert later[i - 1] >= |rest[i - 1]|;
        }
      }
    }
    if Complete(segs, n, writes) {
      forall i | 0 <= i < n - 1 ensures later[i] >= |rest[i]| {
        assert writes[i + 1] >= |segs[i + 1]|;
      }
    }
  }

  /** A failed write spoils the message if its buffer is all ones and the others are all zeros. */
  lemma SpoiledByFailure(segs: seq<seq<byte>>, n: nat, writes: seq<int>) returns (t: seq<seq<byte>>)
    requires Message(segs, n) && n > 0 && Result(writes, |segs[0]|) < 0
    ensures SameLengths(t, segs) && Sent(t, |Join(segs[..n])|, writes).1 != Join(t[..n])
  {
    hide Sent, Join;
    var a, rest := segs[0], segs[1..];
    var total := |Join(segs[..n])|;
    FirstOf(segs, n);
    t := [seq(|a|, _ => 1)] + Filled(rest, 0);
    SentFilled(rest, 0, (total + 1) % WORD, Later(writes, 1));
    assert t[1..] == Filled(rest, 0) && t[0][0] == 1;
    FirstOf(t, n);
    SentHead(t, total, writes);
    var out := Sent(t, total, writes).1;
    assert Join(t[..n])[0] == 1 && (out != [] ==> out[0] in out);
  }

  /** A write that does not take all its octets spoils the message for some contents of the buffers. */
  lemma {:induction false} Spoiled(segs: seq<seq<byte>>, n: nat, writes: seq<int>) returns (t: seq<seq<byte>>)
    requires Message(segs, n) && !Complete(segs, n, writes)
    ensures SameLengths(t, segs) && Sent(t, |Join(segs[..n])|, writes).1 != Join(t[..n])
    decreases n
  {
    var k := Result(writes, |segs[0]|);
    if k < 0 {
      t := SpoiledByFailure(segs, n, writes);
    } else if k < |segs[0]| {
      hide Sent, Join;
      t := segs;
      FirstOf(segs, n);
      SentHead(t, |Join(segs[..n])|, writes);
    } else {
      FirstOf(segs, n);
      CompleteLater(segs, n, writes);
      RestIsMessage(segs, n);
      var u := Spoiled(segs[1..], n - 1, writes[1..]);
      t := SpoiledLater(segs, n, writes, u);
    }
  }

  lemma RestIsMessage(segs: seq<seq<byte>>, n: nat)
    requires Message(segs, n) && n > 0
    ensures Message(segs[1..], n - 1)
  {
    hide Join;
    FirstOf(segs, n);
    assert forall i :: 0 <= i < n - 1 ==> segs[1..][i] == segs[i + 1];
  }

  /** What spoils the rest of a message spoils it all. */
  lemma SpoiledLater(segs: seq<seq<byte>>, n: nat, writes: seq<int>, u: seq<seq<byte>>) returns (t: seq<seq<byte>>)
    requires Message(segs, n) && n > 0 && Result(writes, |segs[0]|) == |segs[0]| && writes != []
    requires SameLengths(u, segs[1..]) && Sent(u, |Join(segs[1..][..n - 1])|, writes[1..]).1 != Join(u[..n - 1])
    ensures SameLengths(t, segs) && Sent(t, |Join(segs[..n])|, writes).1 != Join(t[..n])
  {
    hide Sent, Join;
    var a, total := segs[0], |Join(segs[..n])|;
    FirstOf(segs, n);
    t := [a] + u;
    assert t[1..] == u;
    SamePrefix(a, Sent(u, |Join(segs[1..][..n - 1])|, writes[1..]).1, Join(u[..n - 1]));
    FirstOf(t, n);
    SentHead(t, total, writes);
    assert Sent(t, total, writes).1 == a + Sent(u, |Join(segs[1..][..n - 1])|, writes[1..]).1;
  }

  lemma SamePrefix(a: seq<byte>, x: seq<byte>, y: seq<byte>)
    requires x != y
    ensures a + x != a + y
  {
    assert (a + x)[|a|..] == x && (a + y)[|a|..] == y;
  }

  /** The outcome of write k. */
  function WriteAt(segs: seq<seq<byte>>, writes: seq<int>, k: nat): int
    requires k < |segs|
  {
    Result(Later(writes, k), |segs[k]|)
  }

  predicate Short(segs: seq<seq<byte>>, writes: seq<int>, k: nat)
    requires k < |segs|
  {
    0 <= WriteAt(segs, writes, k) < |segs[k]|
  }

  /** What the loop takes to be owed after k writes. */
  function Owed(segs: seq<seq<byte>>, total: nat, writes: seq<int>, k: nat): nat
    requires k <= |segs|
  {
    if k == 0 then total else (Owed(segs, total, writes, k - 1) - WriteAt(segs, writes, k - 1)) % WORD
  }

  lemma {:induction false} OwedLater(segs: seq<seq<byte>>, total: nat, writes: seq<int>, k: nat)
    requires 0 < k <= |segs|
    ensures Owed(segs, total, writes, k)
            == Owed(segs[1..], (total - Result(writes, |segs[0]|)) % WORD, Later(writes, 1), k - 1)
  {
    assert Later(writes, 0) == writes;
    if k > 1 {
      OwedLater(segs, total, writes, k - 1);
      WriteLater(segs, writes, k - 1);
    }
  }

  lemma WriteLater(segs: seq<seq<byte>>, writes: seq<int>, k: nat)
    requires 0 < k < |segs|
    ensures WriteAt(segs, writes, k) == WriteAt(segs[1..], Later(writes, 1), k - 1)
  {
    assert Later(writes, k) == Later(Later(writes, 1), k - 1);
  }

  /** The loop comes to an end after m writes, none of them short, with nothing owed or no buffer left. */
  ghost predicate EndsAfter(segs: seq<seq<byte>>, total: nat, writes: seq<int>, m: nat) {
    && m <= |segs| && (m == |segs| || Owed(segs, total, writes, m) == 0)
    && forall k :: 0 <= k < m ==> Owed(segs, total, writes, k) != 0 && !Short(segs, writes, k)
  }

  /** Success is reported exactly if no write made was short, whatever failed outright. */
  lemma {:induction false} ReportExactly(segs: seq<seq<byte>>, total: nat, writes: seq<int>)
    ensures Sent(segs, total, writes).0 <==> exists m: nat :: EndsAfter(segs, total, writes, m)
    decreases |segs|
  {
    assert Later(writes, 0) == writes;
    if segs == [] || total == 0 {
      assert EndsAfter(segs, total, writes, 0);
    } else {
      var owed := (total - Result(writes, |segs[0]|)) % WORD;
      ReportExactly(segs[1..], owed, Later(writes, 1));
      if Short(segs, writes, 0) {
        forall m: nat ensures !EndsAfter(segs, total, writes, m) {
          assert Owed(segs, total, writes, 0) == total;
        }
      } else {
        forall m: nat | m > 0 ensures EndsAfter(segs, total, writes, m)
              <==> EndsAfter(segs[1..], owed, Later(writes, 1), m - 1) {
          EndsLater(segs, total, writes, m);
        }
        if m: nat :| EndsAfter(segs[1..], owed, Later(writes, 1), m) {
          assert EndsAfter(segs, total, writes, m + 1);
        }
        assert !EndsAfter(segs, total, writes, 0);
      }
    }
  }

  lemma EndsLater(segs: seq<seq<byte>>, total: nat, writes: seq<int>, m: nat)
    requires segs != [] && total > 0 && m > 0 && !Short(segs, writes, 0)
    ensures EndsAfter(segs, total, writes, m)
            <==> EndsAfter(segs[1..], (total - Result(writes, |segs[0]|)) % WORD, Later(writes, 1), m - 1)
  {
    var owed, rest, later := (total - Result(writes, |segs[0]|)) % WORD, segs[1..], Later(writes, 1);
    if m <= |segs| {
      forall k: nat | 0 < k <= m ensures Owed(segs, total, writes, k) == Owed(rest, owed, later, k - 1) {
        OwedLater(segs, total, writes, k);
      }
      forall k: nat | 0 < k < m ensures Short(segs, writes, k) <==> Short(rest, later, k - 1) {
        WriteLater(segs, writes, k);
      }
      if EndsAfter(segs, total, writes, m) {
        forall k: nat | k < m - 1 ensures Owed(rest, owed, later, k) != 0 && !Short(rest, later, k) {
          assert Owed(segs, total, writes, k + 1) != 0 && !Short(segs, writes, k + 1);
        }
      }
      if EndsAfter(rest, owed, later, m - 1) {
        forall k: nat | k < m ensures Owed(segs, total, writes, k) != 0 && !Short(segs, writes, k) {
          if k > 0 {
            assert Owed(rest, owed, later, k - 1) != 0 && !Short(rest, later, k - 1);
          }
        }
      }
    }
  }

  /** One of the first m writes fails outright. */
  ghost predicate OneFails(segs: seq<seq<byte>>, writes: seq<int>, m: nat) {
    exists k: nat :: k < m && k < |segs| && WriteAt(segs, writes, k) < 0
  }

  /** As long as no write fails or is short, what is taken to be owed is owed. */
  lemma {:induction false} OwedTruly(segs: seq<seq<byte>>, n: nat, writes: seq<int>, k: nat)
    requires Message(segs, n) && k <= n && forall i: nat :: i < k ==> WriteAt(segs, writes, i) == |segs[i]|
    ensures |Join(segs[..k])| <= |Join(segs[..n])|
    ensures Owed(segs, |Join(segs[..n])|, writes, k) == |Join(segs[..n])| - |Join(segs[..k])|
  {
    hide Join;
    JoinRest(segs, k, n);
    if k > 0 {
      OwedTruly(segs, n, writes, k - 1);
      JoinSnoc(segs, k - 1);
    } else {
      NothingJoined(segs);
    }
  }

  lemma NothingJoined(segs: seq<seq<byte>>)
    ensures Join(segs[..0]) == []
  {}

  lemma {:induction false} JoinRest(segs: seq<seq<byte>>, k: nat, n: nat)
    requires k <= n <= |segs|
    ensures |Join(segs[..k])| <= |Join(segs[..n])|
    ensures k < n && segs[k] != [] ==> |Join(segs[..k])| < |Join(segs[..n])|
    decreases n
  {
    if k < n {
      hide Join;
      JoinSnoc(segs, n - 1);
      JoinRest(segs, k, n - 1);
    }
  }

  lemma FullWrites(segs: seq<seq<byte>>, n: nat, writes: seq<int>)
    requires n <= |segs|
    ensures Complete(segs, n, writes) ==> forall i: nat :: i < n ==> WriteAt(segs, writes, i) == |segs[i]|
    ensures (forall i: nat :: i < n ==> segs[i] != [] && WriteAt(segs, writes, i) == |segs[i]|) ==>
              Complete(segs, n, writes)
  {
    if forall i: nat :: i < n ==> segs[i] != [] && WriteAt(segs, writes, i) == |segs[i]| {
      forall i | 0 <= i < n ensures i < |writes| && writes[i] >= |segs[i]| {
        assert WriteAt(segs, writes, i) == |segs[i]|;
      }
      if n > 0 {
        assert WriteAt(segs, writes, n - 1) == |segs[n - 1]|;
      }
    }
  }

  /** A run that ends without a short write is one of complete writes, or one of its writes failed. */
  lemma EndsWhole(segs: seq<seq<byte>>, n: nat, writes: seq<int>, m: nat)
    requires Message(segs, n) && EndsAfter(segs, |Join(segs[..n])|, writes, m)
    ensures Complete(segs, n, writes) <==> !OneFails(segs, writes, m)
  {
    hide Join, Owed, Complete;
    FullWrites(segs, n, writes);
    if Complete(segs, n, writes) {
      OwedTruly(segs, n, writes, n);
      assert !(n < m);
    } else if !OneFails(segs, writes, m) {
      var k := if m < n then m else n;
      forall i: nat | i < k ensures WriteAt(segs, writes, i) == |segs[i]| {
        assert !Short(segs, writes, i);
      }
      OwedTruly(segs, n, writes, k);
      JoinRest(segs, k, n);
      assert false;
    }
  }

  /**
   * Success is reported for a message that did not go out whole exactly if no write made is short and one of them
   * failed outright.
   */
  lemma FalseSuccess(segs: seq<seq<byte>>, n: nat, writes: seq<int>)
    requires Message(segs, n)
    ensures Sent(segs, |Join(segs[..n])|, writes).0 && !Complete(segs, n, writes)
            <==> exists m: nat :: EndsAfter(segs, |Join(segs[..n])|, writes, m) && OneFails(segs, writes, m)
  {
    hide Sent, Join, EndsAfter, OneFails, Complete;
    var total := |Join(segs[..n])|;
    ReportExactly(segs, total, writes);
    forall m: nat | EndsAfter(segs, total, writes, m) ensures Complete(segs, n, writes)
          <==> !OneFails(segs, writes, m) {
      EndsWhole(segs, n, writes, m);
    }
  }

  /** The least of it: one buffer, one write that fails, nothing emitted, success reported. */
  lemma FailureUnseen(seg: seq<byte>)
    requires seg != []
    ensures Sent([seg], |seg|, [-1]) == (true, [])
  {
    assert [seg][1..] == [] && seg[..0] == [];
    assert Sent([seg][1..], |seg| + 1, []) == (true, []) && Later([-1], 1) == [];
    SentHead([seg], |seg|, [-1]);
  }

  /**
   * A stale buffer longer than what is owed takes the unsigned total below zero, and the loop goes on: the message
   * is the first of three buffers here, and the other two go out.
   */
  lemma StaleSent(a: seq<byte>, b: seq<byte>, c: seq<byte>)
    requires |a| == 4 && |b| == 8 && |c| == 3
    ensures Sent([a, b, c], 4, [-1, 8, 3]) == (true, b + c)
  {
    var segs, writes := [a, b, c], [-1, 8, 3];
    assert segs[1..] == [b, c] && [b, c][1..] == [c] && [c][1..] == [];
    assert writes[1..] == [8, 3] && [8, 3][1..] == [3] && [3][1..] == [];
    assert a[..0] == [] && b[..8] == b && c[..3] == c;
    assert Sent([c], (5 - 8) % WORD, [3]) == (true, c + []);
    assert Sent([b, c], 5, [8, 3]) == (true, b + (c + []));
    assert b + (c + []) == b + c && [] + (b + c) == b + c;
  }

  lemma {:induction false} JoinSnoc(segs: seq<seq<byte>>, n: nat)
    requires n < |segs|
    ensures Join(segs[..n + 1]) == Join(segs[..n]) + segs[n]
    decreases n
  {
    if n == 0 {
      assert segs[..1][1..] == [] && segs[0] + [] == segs[0];
    } else {
      JoinSnoc(segs[1..], n - 1);
      assert segs[..n + 1][1..] == segs[1..][..n] && segs[..n][1..] == segs[1..][..n - 1];
      assert segs[0] + Join(segs[1..][..n - 1]) + segs[n] == segs[0] + (Join(segs[1..][..n - 1]) + segs[n]);
    }
  }

  lemma {:induction false} JoinOcts(bs: seq<Buffer>, n: nat)
    requires n <= |bs| && forall i :: 0 <= i < |bs| ==> bs[i].used <= bs[i].data.Length
    ensures Join(Segments(bs)[..n]) == Octs(bs[..n])
  {
    if n > 0 {
      hide Octs, Join, Segments;
      JoinOcts(bs, n - 1);
      JoinSnoc(Segments(bs), n - 1);
      OctsLast(bs, n - 1);
    } else {
      assert bs[..0] == [] && Segments(bs)[..0] == [];
    }
  }

  /** What a coder holds is such a message in its buffers with octets, so that WholeExactly says when it goes out. */
  lemma ActiveIsMessage(c: Coder) returns (n: nat)
    requires c.Enc(0) && c.alloc != null && c.bufs != [] && c.buflen < WORD
    requires forall i :: 0 <= i < |c.bufs| ==> c.bufs[i].used <= c.bufs[i].data.Length
    ensures n == (if c.bufs[c.cur].used > 0 then c.cur + 1 else c.cur) && c.InBounds() && Message(Segments(c.bufs), n)
    ensures Join(Segments(c.bufs)[..n]) == c.Active() && |c.Active()| == c.buflen
  {
    hide Matches, Octs, Segments, Join, Concat;
    c.ActiveMatches();
    n := if c.bufs[c.cur].used > 0 then c.cur + 1 else c.cur;
    JoinOcts(c.bufs, c.cur + 1);
    JoinSnoc(Segments(c.bufs), c.cur);
    forall i | 0 <= i < c.cur ensures c.bufs[i].used > 0 {
      assert c.bufs[..c.cur][i] == c.bufs[i];
    }
  }

  /** What an engine hands over goes out as it is, and nothing else does, if every write takes all it is given. */
  lemma SendsActive(c: Coder, writes: seq<int>)
    requires c.Enc(0) && c.bufs != [] && forall i :: 0 <= i < |c.bufs| ==> c.bufs[i].used <= c.bufs[i].data.Length
    requires Complete(Segments(c.bufs), c.cur + 1, writes) && c.buflen < WORD
    ensures c.InBounds() && Sent(Segments(c.bufs), c.buflen % WORD, writes) == (true, c.Active())
  {
    hide Matches, Octs, Sent, Segments, Join, Coder.Enc;
    c.ActiveMatches();
    JoinOcts(c.bufs, c.cur + 1);
    CompleteSends(Segments(c.bufs), c.cur + 1, writes);
  }

  // ---- receiving ----

  /** What asking for n octets comes to under a script of reads, with so many on their way. */
  function Ending(script: seq<Read>, n: nat, left: nat): IiopStatus
    decreases |script|
  {
    if n == 0 then IIOP_OK
    else if script == [] || script[0].Broken? then IIOP_ERROR
    else if script[0].Some? && Delivers(script[0], n, left) == 0 then IIOP_EZERO_READ
    else Ending(script[1..], n - Delivers(script[0], n, left), left - Delivers(script[0], n, left))
  }

  /** How a first read settles it: a broken one fails, none at all is the peer's closing, and all at once is enough. */
  lemma FirstRead(script: seq<Read>, n: nat, left: nat)
    requires n > 0
    ensures script == [] || script[0] == Broken ==> Ending(script, n, left) == IIOP_ERROR
    ensures script != [] && script[0].Some? && (script[0].most == 0 || left == 0) ==>
              Ending(script, n, left) == IIOP_EZERO_READ
    ensures script != [] && script[0].Some? && script[0].most >= n && left >= n ==> Ending(script, n, left) == IIOP_OK
  {}

  lemma EndingStep(script: seq<Read>, n: nat, left: nat)
    requires script != []
    ensures var got := Delivers(script[0], n, left);
            && got <= n && got <= left && (script[0].Interrupted? ==> got == 0)
            && Ending(script, n, left)
            == if n == 0 then IIOP_OK else if script[0].Broken? then IIOP_ERROR
               else if script[0].Some? && got == 0 then IIOP_EZERO_READ
               else Ending(script[1..], n - got, left - got)
  {}

  /** A read that brings some of it leaves the rest to the others. */
  lemma PartRead(script: seq<Read>, n: nat, left: nat)
    requires script != [] && script[0].Some? && 0 < script[0].most < n && script[0].most <= left
    ensures Ending(script, n, left) == Ending(script[1..], n - script[0].most, left - script[0].most)
  {}

  /** The reads that were not interrupted. */
  function Uninterrupted(script: seq<Read>): seq<Read> {
    if script == [] then []
    else (if script[0].Interrupted? then [] else [script[0]]) + Uninterrupted(script[1..])
  }

  lemma UninterruptedFirst(script: seq<Read>)
    requires script != []
    ensures Uninterrupted(script)
            == if script[0].Interrupted? then Uninterrupted(script[1..]) else [script[0]] + Uninterrupted(script[1..])
  {}

  /** Interruptions make no difference. */
  lemma {:induction false} InterruptionsSkipped(script: seq<Read>, n: nat, left: nat)
    ensures Ending(script, n, left) == Ending(Uninterrupted(script), n, left)
    decreases |script|
  {
    if script != [] {
      UninterruptedFirst(script);
      EndingStep(script, n, left);
      EndingStep([script[0]] + Uninterrupted(script[1..]), n, left);
      hide Ending, Uninterrupted, Delivers;
      var got := Delivers(script[0], n, left);
      InterruptionsSkipped(script[1..], n - got, left - got);
      assert ([script[0]] + Uninterrupted(script[1..]))[1..] == Uninterrupted(script[1..]);
    }
  }

  /** n reads that each bring something bring n octets that are on their way. */
  lemma {:induction false} EnoughReads(script: seq<Read>, n: nat, left: nat)
    requires n <= left && n <= |script| && forall i :: 0 <= i < |script| ==> script[i].Some? && script[i].most > 0
    ensures Ending(script, n, left) == IIOP_OK
    decreases |script|
  {
    if n > 0 {
      var got := Delivers(script[0], n, left);
      EnoughReads(script[1..], n - got, left - got);
    }
  }

  /** Nothing arrives that was not on its way. */
  lemma {:induction false} ArrivesWhole(script: seq<Read>, n: nat, left: nat)
    ensures Ending(script, n, left) == IIOP_OK ==> n <= left
    ensures Ending(script, n, left) in {IIOP_OK, IIOP_EZERO_READ, IIOP_ERROR}
    decreases |script|
  {
    if n > 0 && script != [] {
      var got := Delivers(script[0], n, left);
      ArrivesWhole(script[1..], n - got, left - got);
    }
  }

  /** iiop_recv: n octets behind those in the buffer, however many reads it takes. */
  method IiopRecv(c: Coder, fd: int, s: Socket, n: nat) returns (st: IiopStatus)
    requires c.Dec(0) && (c.bufs != [] ==> c.Cursor() == At(c.buflen)) && s !in c.Repr
    modifies s, c`buflen, set b | b in c.bufs :: b.data
    ensures c.Dec(0)
    ensures fd < 0 ==> st == IIOP_EINV_FD
    ensures fd >= 0 && n == 0 ==> st == IIOP_OK && unchanged(s)
    ensures fd >= 0 && n > 0 && c.bufs == [] ==> st == IIOP_ENOSPACE
    ensures fd >= 0 && n > 0 && c.bufs != [] && n > c.bufs[c.cur].len - c.bufs[c.cur].used ==> st == IIOP_EMSG_TOO_BIG
    ensures st != IIOP_OK ==> c.buflen == old(c.buflen) && (c.bufs != [] ==> c.Input() == old(c.Input()))
    ensures st == IIOP_OK && n > 0 ==>
              && n <= |old(s.inbound)| && s.inbound == old(s.inbound)[n..] && c.buflen == old(c.buflen) + n
              && c.bufs != [] && c.Cursor() == old(c.Cursor()) && c.Input() == old(c.Input()) + old(s.inbound)[..n]
    ensures fd >= 0 && 0 < n && c.bufs != [] && n <= c.bufs[c.cur].len - c.bufs[c.cur].used ==>
              st == Ending(old(s.readScript), n, |old(s.inbound)|)
  {
    hide Coder.Ledger, Coder.Geometry;
    if fd < 0 {
      return IIOP_EINV_FD;
    }
    if n == 0 {
      return IIOP_OK;
    }
    if c.bufs == [] {
      return IIOP_ENOSPACE;
    }
    var b := c.bufs[c.cur];
    if n > b.len - b.used {
      return IIOP_EMSG_TOO_BIG;
    }
    st := Fill(s, b.data, b.pos, n);
    if st == IIOP_OK {
      c.buflen := c.buflen + n;
    }
  }

  /** A read, repeated while it is interrupted. */
  method ReadOnce(s: Socket, dst: array<byte>, off: nat, n: nat) returns (got: int)
    requires 0 < n && off + n <= dst.Length
    modifies s, dst
    ensures -1 <= got <= n && got <= |old(s.inbound)|
    ensures |s.readScript| <= |old(s.readScript)| && (got >= 0 ==> |s.readScript| < |old(s.readScript)|)
    ensures dst[..off] == old(dst[..off])
    ensures got >= 0 ==> s.inbound == old(s.inbound)[got..] && dst[off..off + got] == old(s.inbound)[..got]
    ensures Ending(old(s.readScript), n, |old(s.inbound)|)
            == if got == -1 then IIOP_ERROR else if got == 0 then IIOP_EZERO_READ
               else Ending(s.readScript, n - got, |s.inbound|)
  {
    ghost var script, w := s.readScript, s.inbound;
    var eintr;
    got, eintr := s.Read(dst, off, n);
    while eintr && got == -1
      invariant -1 <= got <= n && got <= |w| && (eintr ==> got == -1)
      invariant |s.readScript| <= |script| && (got >= 0 ==> |s.readScript| < |script|)
      invariant dst[..off] == old(dst[..off])
      invariant if got >= 0 then s.inbound == w[got..] && dst[off..off + got] == w[..got] else s.inbound == w
      invariant Ending(script, n, |w|)
                == if eintr then Ending(s.readScript, n, |w|)
                   else if got == -1 then IIOP_ERROR else if got == 0 then IIOP_EZERO_READ
                   else Ending(s.readScript, n - got, |w| - got)
      decreases |s.readScript|, if eintr then 1 else 0
    {
      got, eintr := s.Read(dst, off, n);
    }
  }

  /** The loop of iiop_recv. */
  method Fill(s: Socket, dst: array<byte>, start: nat, n: nat) returns (st: IiopStatus)
    requires 0 < n && start + n <= dst.Length
    modifies s, dst
    ensures dst[..start] == old(dst[..start])
    ensures st == Ending(old(s.readScript), n, |old(s.inbound)|)
    ensures st == IIOP_OK ==>
              n <= |old(s.inbound)| && s.inbound == old(s.inbound)[n..] && dst[start..start + n] == old(s.inbound)[..n]
  {
    ghost var w, script := s.inbound, s.readScript;
    var total, just: int := 0, 1;
    while just != 0 && total < n
      invariant 0 <= total <= n && total <= |w| && just >= 0 && dst[..start] == old(dst[..start])
      invariant s.inbound == w[total..] && dst[start..start + total] == w[..total]
      invariant Ending(script, n, |w|)
                == if just == 0 then IIOP_EZERO_READ else Ending(s.readScript, n - total, |w| - total)
      invariant just == 0 ==> total < n
      decreases |s.readScript|, just
    {
      hide Ending;
      ghost var head := dst[..start + total];
      just := ReadOnce(s, dst, start + total, n - total);
      if just == -1 {
        return IIOP_ERROR;
      }
      Spliced(head, dst[..], start, total, just, w);
      total := total + just;
    }
    if total == n {
      return IIOP_OK;
    }
    st := IIOP_EZERO_READ;
  }

  lemma Spliced(head: seq<byte>, now: seq<byte>, start: nat, total: nat, just: nat, w: seq<byte>)
    requires |head| == start + total && start + total + just <= |now| && total + just <= |w|
    requires now[..start + total] == head && head[start..] == w[..total]
    requires now[start + total..start + total + just] == w[total..][..just]
    ensures now[..start] == head[..start] && now[start..start + total + just] == w[..total + just]
    ensures w[total..][just..] == w[total + just..]
  {
    assert now[start..start + total] == head[start..];
    assert now[start..start + total + just] == now[start..start + total] + now[start + total..start + total + just];
    assert w[..total + just] == w[..total] + w[total..][..just];
  }
}
