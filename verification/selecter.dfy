/** The select loop that calls back for every descriptor that is ready. */
module Selecter {
  import opened Descriptors

  /** A control word; a descriptor of -1 is ignored. */
  datatype Word = Interrupt | Add(fd: int) | Remove(fd: int) | Exit | Other

  /**
   * What one call of select brings: an interrupted call, a failed one, or the descriptors that are ready, the
   * control word to be read if the notifier is among them, and the descriptors whose callback will fail.
   */
  datatype Event = Interrupted | Failed | Ready(ready: set<nat>, word: Word, failing: set<nat>)

  predicate ValidWord(w: Word, size: nat) {
    match w
    case Add(fd) => fd == -1 || 0 <= fd < size
    case Remove(fd) => fd == -1 || 0 <= fd < size
    case _ => true
  }

  predicate ValidEvent(e: Event, size: nat) {
    e.Ready? ==> ValidWord(e.word, size)
  }

  /** The descriptor control words come in on, and whether a callback is registered. */
  datatype Setup = Setup(notifier: nat, callback: bool)

  // ---- what a run of the loop does ----

  /** The watched set after a control word. */
  function Obey(watched: set<nat>, w: Word): set<nat> {
    match w
    case Add(fd) => if fd >= 0 then watched + {fd} else watched
    case Remove(fd) => if fd >= 0 then watched - {fd} else watched
    case _ => watched
  }

  predicate Stops(w: Word) {
    w.Interrupt? || w.Exit?
  }

  /** Is there a control word to be read? */
  predicate Notified(watched: set<nat>, u: Setup, e: Event) {
    e.Ready? && u.notifier in watched && u.notifier in e.ready
  }

  /** The descriptors a round calls back for. */
  function Called(watched: set<nat>, u: Setup, e: Event): set<nat> {
    if !e.Ready? || !u.callback || (Notified(watched, u, e) && Stops(e.word)) then {}
    else watched * e.ready - {u.notifier}
  }

  /** The watched set after a round: what the word asked for, without the descriptors whose callback failed. */
  function After(watched: set<nat>, u: Setup, e: Event): set<nat> {
    (if Notified(watched, u, e) then Obey(watched, e.word) else watched)
    - (if e.Ready? then Called(watched, u, e) * e.failing else {})
  }

  /** Does the loop end with this round? */
  predicate Last(watched: set<nat>, u: Setup, e: Event) {
    e.Failed? || (Notified(watched, u, e) && Stops(e.word))
  }

  /** The watched set after a run, and for each round the descriptors called back for. */
  function Outcome(watched: set<nat>, u: Setup, events: seq<Event>): (set<nat>, seq<set<nat>>)
    decreases |events|
  {
    if events == [] then (watched, [])
    else if events[0].Interrupted? then Outcome(watched, u, events[1..])
    else
      var next := After(watched, u, events[0]);
      var called := Called(watched, u, events[0]);
      if Last(watched, u, events[0]) then (next, [called])
      else
        var (final, rest) := Outcome(next, u, events[1..]);
        (final, [called] + rest)
  }

  /** Each list of callbacks has every descriptor of its set once, in ascending order. */
  ghost predicate OncePerRound(lists: seq<seq<nat>>, sets: seq<set<nat>>) {
    |lists| == |sets| && forall i :: 0 <= i < |lists| ==> Once(lists[i], sets[i])
  }

  ghost predicate Once(list: seq<nat>, s: set<nat>) {
    && (forall i :: 0 <= i < |list| ==> list[i] in s) && (forall fd :: fd in s ==> fd in list)
    && Increasing(list)
  }

  // ---- the watched set, event by event ----

  /** A round puts a descriptor under watch exactly if its word adds it and its callback does not fail. */
  predicate Puts(watched: set<nat>, u: Setup, e: Event, fd: nat) {
    Notified(watched, u, e) && e.word == Add(fd) && !Fails(watched, u, e, fd)
  }

  predicate Fails(watched: set<nat>, u: Setup, e: Event, fd: nat) {
    e.Ready? && fd in Called(watched, u, e) && fd in e.failing
  }

  /** A round takes one off exactly if its word removes it or its callback fails. */
  predicate Takes(watched: set<nat>, u: Setup, e: Event, fd: nat) {
    (Notified(watched, u, e) && e.word == Remove(fd)) || Fails(watched, u, e, fd)
  }

  lemma AfterExact(watched: set<nat>, u: Setup, e: Event, fd: nat)
    ensures fd in After(watched, u, e)
            <==> Puts(watched, u, e, fd) || (fd in watched && !Takes(watched, u, e, fd))
  {}

  /** What is watched at the end was watched at the start or has been added by a word. */
  lemma {:induction false} WatchedWasAdded(watched: set<nat>, u: Setup, events: seq<Event>, fd: nat)
    requires fd in Outcome(watched, u, events).0
    ensures fd in watched || exists i :: 0 <= i < |events| && events[i].Ready? && events[i].word == Add(fd)
    decreases |events|
  {
    if events != [] {
      if events[0].Interrupted? {
        WatchedWasAdded(watched, u, events[1..], fd);
      } else {
        AfterExact(watched, u, events[0], fd);
        if !Last(watched, u, events[0]) {
          WatchedWasAdded(After(watched, u, events[0]), u, events[1..], fd);
        }
      }
    }
  }

  /** What is watched stays so as long as no word removes it and its callback does not fail. */
  lemma {:induction false} WatchedStays(watched: set<nat>, u: Setup, events: seq<Event>, fd: nat)
    requires fd in watched
    requires forall i :: 0 <= i < |events| && events[i].Ready? ==>
               events[i].word != Remove(fd) && (fd == u.notifier || fd !in events[i].failing)
    ensures fd in Outcome(watched, u, events).0
    decreases |events|
  {
    if events != [] {
      if events[0].Interrupted? {
        WatchedStays(watched, u, events[1..], fd);
      } else {
        AfterExact(watched, u, events[0], fd);
        if !Last(watched, u, events[0]) {
          WatchedStays(After(watched, u, events[0]), u, events[1..], fd);
        }
      }
    }
  }

  // ---- a run, round by round ----

  /**
   * One call of select that was not interrupted: whom it calls back, in ascending order, and who is watched next. A
   * control word is read if the notifier is watched and ready.
   */
  ghost predicate RoundSays(watched: set<nat>, u: Setup, e: Event, calls: seq<nat>, next: set<nat>) {
    var read := e.Ready? && u.notifier in watched && u.notifier in e.ready;
    && (forall fd: nat :: fd in calls <==>
          && e.Ready? && u.callback && !(read && (e.word == Interrupt || e.word == Exit))
          && fd in watched && fd in e.ready && fd != u.notifier)
    && (forall fd: nat :: fd in next <==>
          && ((read && e.word == Add(fd)) || (fd in watched && !(read && e.word == Remove(fd))))
          && !(fd in calls && fd in e.failing))
    && Increasing(calls)
  }

  /** Is this the last round? */
  predicate RoundEnds(watched: set<nat>, u: Setup, e: Event) {
    e.Failed? || (e.Ready? && u.notifier in watched && u.notifier in e.ready && (e.word == Interrupt || e.word == Exit))
  }

  /** The events that are rounds: an interrupted call of select is made again. */
  function Completed(events: seq<Event>): (r: seq<Event>) {
    if events == [] then []
    else (if events[0].Interrupted? then [] else [events[0]]) + Completed(events[1..])
  }

  /** Event by event, in order. */
  lemma {:induction false} CompletedAppend(a: seq<Event>, b: seq<Event>)
    ensures Completed(a + b) == Completed(a) + Completed(b)
  {
    CompletedFirst(a);
    CompletedFirst(a + b);
    hide Completed;
    if a == [] {
      assert a + b == b;
    } else {
      CompletedAppend(a[1..], b);
      assert (a + b)[1..] == a[1..] + b && (a + b)[0] == a[0];
      Regroup(if a[0].Interrupted? then [] else [a[0]], Completed(a[1..]), Completed(b));
    }
  }

  lemma Regroup<T>(a: seq<T>, b: seq<T>, c: seq<T>)
    ensures a + b + c == a + (b + c)
  {}

  lemma CompletedFirst(events: seq<Event>)
    ensures Completed(events) == if events == [] then []
            else (if events[0].Interrupted? then [] else [events[0]]) + Completed(events[1..])
    ensures |events| == 1 ==> Completed(events) == if events[0].Interrupted? then [] else events
  {
    assert |events| == 1 ==> events[1..] == [];
  }

  /** A run's rounds, up to the first that ends the loop: `seen` has the sets watched before each and at the end. */
  ghost predicate Rounds(u: Setup, evs: seq<Event>, lists: seq<seq<nat>>, seen: seq<set<nat>>) {
    && |seen| == |lists| + 1 && |lists| <= |evs|
    && (forall k :: 0 <= k < |lists| ==> RoundSays(seen[k], u, evs[k], lists[k], seen[k + 1]))
    && (forall k :: 0 <= k < |lists| - 1 ==> !RoundEnds(seen[k], u, evs[k]))
    && (|lists| < |evs| ==> lists != [] && RoundEnds(seen[|lists| - 1], u, evs[|lists| - 1]))
  }

  lemma RoundSaid(watched: set<nat>, u: Setup, e: Event, calls: seq<nat>)
    requires Once(calls, Called(watched, u, e)) && !e.Interrupted?
    ensures RoundSays(watched, u, e, calls, After(watched, u, e))
    ensures Last(watched, u, e) <==> RoundEnds(watched, u, e)
  {
    forall fd | fd in calls ensures fd in Called(watched, u, e) {
      var i :| 0 <= i < |calls| && calls[i] == fd;
    }
  }

  /** The specification of a run, round by round. */
  lemma {:induction false} RunRounds(watched: set<nat>, u: Setup, events: seq<Event>, lists: seq<seq<nat>>)
    returns (seen: seq<set<nat>>)
    requires OncePerRound(lists, Outcome(watched, u, events).1)
    ensures seen != [] && Rounds(u, Completed(events), lists, seen)
    ensures seen[0] == watched && seen[|seen| - 1] == Outcome(watched, u, events).0
    decreases |events|
  {
    hide RoundSays, RoundEnds, Once, Called, After, Last, Rounds, OncePerRound;
    if events == [] {
      seen := [watched];
      assert Completed(events) == [];
      NoRounds(watched, u, lists);
    } else if events[0].Interrupted? {
      seen := RunRounds(watched, u, events[1..], lists);
      assert Completed(events) == Completed(events[1..]);
    } else {
      var e, next := events[0], After(watched, u, events[0]);
      var rest := Outcome(next, u, events[1..]);
      var sets := Outcome(watched, u, events).1;
      assert sets == [Called(watched, u, e)] + if Last(watched, u, e) then [] else rest.1;
      FirstOnce(lists, sets);
      RoundSaid(watched, u, e, lists[0]);
      if Last(watched, u, e) {
        seen := [watched, next];
        OnlyRound(u, [e] + Completed(events[1..]), lists, seen);
      } else {
        assert sets[1..] == rest.1;
        seen := RunRounds(next, u, events[1..], lists[1..]);
        OneRoundMore(watched, u, e, Completed(events[1..]), lists, seen);
        seen := [watched] + seen;
      }
    }
  }

  lemma FirstOnce(lists: seq<seq<nat>>, sets: seq<set<nat>>)
    requires OncePerRound(lists, sets) && sets != []
    ensures |lists| == |sets| && Once(lists[0], sets[0]) && OncePerRound(lists[1..], sets[1..])
  {
    hide Once;
  }

  lemma NoRounds(watched: set<nat>, u: Setup, lists: seq<seq<nat>>)
    requires OncePerRound(lists, [])
    ensures Rounds(u, [], lists, [watched])
  {}

  lemma OnlyRound(u: Setup, evs: seq<Event>, lists: seq<seq<nat>>, seen: seq<set<nat>>)
    requires |lists| == 1 && |seen| == 2 && evs != []
    requires RoundSays(seen[0], u, evs[0], lists[0], seen[1]) && RoundEnds(seen[0], u, evs[0])
    ensures Rounds(u, evs, lists, seen)
  {
    hide RoundSays, RoundEnds;
  }

  lemma OneRoundMore(watched: set<nat>, u: Setup, e: Event, evs: seq<Event>, lists: seq<seq<nat>>, seen: seq<set<nat>>)
    requires lists != [] && seen != [] && Rounds(u, evs, lists[1..], seen)
    requires RoundSays(watched, u, e, lists[0], seen[0]) && !RoundEnds(watched, u, e)
    ensures Rounds(u, [e] + evs, lists, [watched] + seen)
  {
    hide RoundSays, RoundEnds;
    var s, w := [watched] + seen, [e] + evs;
    assert forall k :: 1 <= k < |lists| ==>
        w[k] == evs[k - 1] && s[k] == seen[k - 1] && s[k + 1] == seen[k] && lists[k] == lists[1..][k - 1];
  }

  // ---- lists ----

  function Without(list: seq<nat>, x: nat): (r: seq<nat>)
    ensures |r| <= |list|
  {
    if list == [] then [] else (if list[0] == x then [] else [list[0]]) + Without(list[1..], x)
  }

  lemma {:induction false} WithoutExact(list: seq<nat>, x: nat)
    ensures forall fd :: fd in Without(list, x) <==> fd in list && fd != x
  {
    if list != [] {
      WithoutExact(list[1..], x);
    }
  }

  lemma {:induction false} WithoutAscends(list: seq<nat>, x: nat)
    requires Increasing(list)
    ensures Increasing(Without(list, x))
  {
    if list != [] {
      var tail := list[1..];
      var rest := Without(tail, x);
      assert Increasing(tail) by {
        forall i, j | 0 <= i < j < |tail| ensures tail[i] < tail[j] {
          assert tail[i] == list[i + 1] && tail[j] == list[j + 1];
        }
      }
      WithoutAscends(tail, x);
      WithoutExact(tail, x);
      forall i | 0 <= i < |rest| ensures list[0] < rest[i] {
        assert rest[i] in rest && rest[i] in tail;
        var k :| 0 <= k < |tail| && tail[k] == rest[i];
        assert tail[k] == list[k + 1];
      }
    }
  }

  /** In an ascending list the notifier, if there, is one entry. */
  lemma {:induction false} WithoutCount(list: seq<nat>, x: nat)
    requires Increasing(list)
    ensures |Without(list, x)| == |list| - if x in list then 1 else 0
  {
    if list != [] {
      var tail := list[1..];
      forall i, j | 0 <= i < j < |tail| ensures tail[i] < tail[j] {
        assert tail[i] == list[i + 1] && tail[j] == list[j + 1];
      }
      WithoutCount(tail, x);
      if list[0] == x {
        forall i | 0 <= i < |tail| ensures tail[i] != x {
          assert tail[i] == list[i + 1];
        }
      }
    }
  }

  /** The list depends on the bits from its start on. */
  lemma {:induction false} AscendingSuffix(a: seq<bool>, b: seq<bool>, from: nat)
    requires |a| == |b| && from <= |a| && forall i :: from <= i < |a| ==> a[i] == b[i]
    ensures Ascending(a, from) == Ascending(b, from)
    decreases |a| - from
  {
    if from < |a| {
      AscendingSuffix(a, b, from + 1);
    }
  }

  /** What is listed of a set's bits, the notifier aside, is each other member once. */
  lemma ListedOnce(s: FdSet, notifier: nat)
    requires s.Valid()
    ensures Once(Without(Ascending(s.bits[..], 0), notifier), s.Contents() - {notifier})
  {
    var list := Ascending(s.bits[..], 0);
    AscendingExact(s.bits[..], 0);
    WithoutExact(list, notifier);
    WithoutAscends(list, notifier);
    forall i | 0 <= i < |Without(list, notifier)|
      ensures Without(list, notifier)[i] in s.Contents() - {notifier}
    {
      var fd := Without(list, notifier)[i];
      assert fd in Without(list, notifier) && fd in list;
      var k :| 0 <= k < |list| && list[k] == fd;
    }
  }

  // ---- the loop ----

  /** IT_Selecter */
  class Loop {
    const u: Setup
    const fds: FdSet
    var running: bool
    var state: int

    constructor (u: Setup, size: nat)
      requires u.notifier < size
      ensures this.u == u && fresh(fds) && fresh(fds.bits) && fds.Valid() && fds.bits.Length == size
                && fds.Contents() == {u.notifier}
    {
      this.u := u;
      fds := new FdSet(size);
      running, state := false, 0;
      new;
      fds.Set(u.notifier);
    }

    /** select(2): of the descriptors asked about, those that are ready stay set; how many there are. */
    method Select(asked: FdSet, ready: set<nat>) returns (n: nat)
      requires asked.Valid()
      modifies asked.bits
      ensures asked.Valid() && asked.Contents() == old(asked.Contents()) * ready && n == |Ascending(asked.bits[..], 0)|
    {
      n := 0;
      var i: int := asked.bits.Length;
      EndOfBits(asked.bits[..]);
      while i > 0
        invariant 0 <= i <= asked.bits.Length && n == |Ascending(asked.bits[..], i)|
        invariant forall j :: 0 <= j < i ==> asked.bits[j] == old(asked.bits[j])
        invariant forall j :: i <= j < asked.bits.Length ==> asked.bits[j] == (old(asked.bits[j]) && j in ready)
      {
        i := i - 1;
        ghost var was := asked.bits[..];
        asked.bits[i] := asked.bits[i] && i in ready;
        AscendingSuffix(was, asked.bits[..], i + 1);
        if asked.bits[i] {
          n := n + 1;
        }
      }
    }

    /** The descriptors called back for whose callback fails. */
    static function FailedOf(calls: seq<nat>, failing: set<nat>): set<nat> {
      set fd | fd in calls && fd in failing
    }

    /** Call back for every descriptor left, dropping those whose callback fails. */
    method Dispatch(live: FdSet, failing: set<nat>) returns (calls: seq<nat>)
      requires live.Valid() && fds.Valid() && live.bits != fds.bits && live != fds
                && live.bits.Length == fds.bits.Length
      requires state == |Without(Ascending(live.bits[..], 0), u.notifier)|
      modifies this`state, live`iteratorInx, fds.bits
      ensures fds.Valid() && live.Valid()
      ensures calls == (if u.callback then Without(Ascending(live.bits[..], 0), u.notifier) else [])
      ensures fds.Contents() == old(fds.Contents()) - FailedOf(calls, failing)
    {
      hide Without, Ascending, FdSet.Contents, Increasing, FdSet.Valid;
      live.Reset();
      ghost var left := Ascending(live.bits[..], 0);
      ghost var all, done := Without(left, u.notifier), [];
      calls := [];
      var fd := 0;
      NoneFailed(failing);
      assert [] + all == all && fds.Contents() == fds.Contents() - {};
      hide FailedOf;
      while state != 0 && fd != -1
        invariant live.Valid() && fds.Valid() && live.iteratorInx <= live.bits.Length
        invariant fd != -1 ==> left == Ascending(live.bits[..], live.iteratorInx)
        invariant state == |Without(left, u.notifier)| && done + Without(left, u.notifier) == all
        invariant fd == -1 ==> Without(left, u.notifier) == []
        invariant calls == if u.callback then done else []
        invariant fds.Contents() == old(fds.Contents()) - FailedOf(calls, failing)
        decreases if fd == -1 then 0 else 1 + |left|
      {
        WithoutFirst(left, u.notifier);
        fd := Next(live, left);
        if fd != -1 {
          left := left[1..];
          if fd != u.notifier {
            Regroup(done, [fd], Without(left, u.notifier));
            done := done + [fd];
            calls := CallBack(calls, fd, failing, old(fds.Contents()));
            state := state - 1;
          }
        }
      }
      assert Without(left, u.notifier) == [] && done + [] == done;
    }

    /** The next descriptor left, or -1. */
    static method Next(live: FdSet, ghost left: seq<nat>) returns (fd: int)
      requires live.Valid() && live.iteratorInx <= live.bits.Length
      requires left == Ascending(live.bits[..], live.iteratorInx)
      modifies live`iteratorInx
      ensures live.Valid() && live.iteratorInx <= live.bits.Length
      ensures if left == [] then fd == -1
              else 0 <= fd < live.bits.Length && fd == left[0]
                   && left[1..] == Ascending(live.bits[..], live.iteratorInx)
    {
      hide Ascending, FdSet.Contents;
      FirstInRange(live.bits[..], live.iteratorInx);
      fd := live.Iterate();
    }

    /** The callback, if there is one, for one descriptor. */
    method CallBack(calls: seq<nat>, fd: nat, failing: set<nat>, ghost watched: set<nat>) returns (more: seq<nat>)
      requires fds.Valid() && fd < fds.bits.Length && fds.Contents() == watched - FailedOf(calls, failing)
      modifies fds.bits
      ensures fds.Valid() && fds.Contents() == watched - FailedOf(more, failing)
      ensures more == if u.callback then calls + [fd] else calls
    {
      hide FdSet.Contents, FailedOf;
      more := calls;
      if u.callback {
        OneMore(calls, fd, failing);
        more := calls + [fd];
        if fd in failing {
          fds.Clear(fd);
        }
      }
    }

    static lemma FirstInRange(bits: seq<bool>, from: nat)
      requires from <= |bits|
      ensures Ascending(bits, from) != [] ==> from <= Ascending(bits, from)[0] < |bits|
    {
      AscendingExact(bits, from);
    }

    static lemma NoneFailed(failing: set<nat>)
      ensures FailedOf([], failing) == {}
    {}

    static lemma WithoutFirst(list: seq<nat>, x: nat)
      ensures Without(list, x) == if list == [] then []
                else (if list[0] == x then [] else [list[0]]) + Without(list[1..], x)
    {}

    static lemma EndOfBits(bits: seq<bool>)
      ensures Ascending(bits, |bits|) == []
    {}

    static lemma OneMore(calls: seq<nat>, fd: nat, failing: set<nat>)
      ensures FailedOf(calls + [fd], failing) == FailedOf(calls, failing) + if fd in failing then {fd} else {}
    {}

    /** Obey a control word; the loop is to be left at once on an interruption or an exit. */
    method Control(w: Word) returns (leave: bool)
      requires fds.Valid() && ValidWord(w, fds.bits.Length)
      modifies this`running, fds, fds.bits
      ensures fds.Valid() && leave == Stops(w) && fds.Contents() == Obey(old(fds.Contents()), w)
      ensures leave <==> w == Interrupt || w == Exit
      ensures forall fd: nat :: fd in fds.Contents() <==> w == Add(fd) || (fd in old(fds.Contents()) && w != Remove(fd))
      ensures running == (old(running) && !w.Exit?)
    {
      leave := false;
      match w
      case Interrupt => leave := true;
      case Add(fd) =>
        if fd != -1 {
          fds.Set(fd);
        }
      case Remove(fd) =>
        if fd != -1 {
          fds.Clear(fd);
        }
      case Exit =>
        running := false;
        leave := true;
      case Other =>
    }

    /** What follows a call of select that did not fail. */
    method Round(live: FdSet, e: Event) returns (leave: bool, calls: seq<nat>)
      requires fds.Valid() && live.Valid() && live != fds && live.bits != fds.bits
                && live.bits.Length == fds.bits.Length
      requires live.Contents() == fds.Contents() && e.Ready? && ValidEvent(e, fds.bits.Length)
                && u.notifier < fds.bits.Length
      modifies this`running, this`state, live, live.bits, fds, fds.bits
      ensures fds.Valid() && live.Valid()
      ensures fds.Contents() == After(old(fds.Contents()), u, e) && Once(calls, Called(old(fds.Contents()), u, e))
      ensures leave == Last(old(fds.Contents()), u, e) && (!leave ==> running == old(running))
      ensures var was := old(fds.Contents());
              var read := u.notifier in was && u.notifier in e.ready;
              && (leave <==> read && (e.word == Interrupt || e.word == Exit))
              && (u.callback && !leave ==>
                    forall fd :: fd in calls <==> fd in was && fd in e.ready && fd != u.notifier)
              && (!u.callback || leave ==> calls == [])
      ensures RoundSays(old(fds.Contents()), u, e, calls, fds.Contents())
    {
      hide Ascending, Without, FdSet.Contents, Once, RoundSays;
      ghost var watched := fds.Contents();
      leave, calls := false, [];
      state := Select(live, e.ready);
      Counted(live, u.notifier);
      ListedOnce(live, u.notifier);
      NothingOnce();
      ghost var none := Called(watched, u, e) == {};
      if none {
        RoundSaid(watched, u, e, []);
      }
      if state == 0 {
        NoneOnce(live, u.notifier);
      } else {
        var notified := live.IsSet(u.notifier);
        if notified {
          leave := Control(e.word);
          if leave {
            return;
          }
          state := state - 1;
        }
        ghost var list := Without(Ascending(live.bits[..], 0), u.notifier);
        ghost var obeyed := fds.Contents();
        calls := Dispatch(live, e.failing);
        FailedCalls(calls, if u.callback then live.Contents() - {u.notifier} else {}, e.failing);
        RoundSaid(watched, u, e, calls);
      }
    }

    static lemma Counted(s: FdSet, notifier: nat)
      requires s.Valid() && notifier < s.bits.Length
      ensures |Without(Ascending(s.bits[..], 0), notifier)|
              == |Ascending(s.bits[..], 0)| - if notifier in s.Contents() then 1 else 0
    {
      AscendingExact(s.bits[..], 0);
      WithoutCount(Ascending(s.bits[..], 0), notifier);
    }

    static lemma NoneOnce(s: FdSet, notifier: nat)
      requires s.Valid() && |Ascending(s.bits[..], 0)| == 0
      ensures s.Contents() == {}
    {
      AscendingExact(s.bits[..], 0);
    }

    static lemma NothingOnce()
      ensures Once([], {})
    {}

    static lemma FailedCalls(calls: seq<nat>, s: set<nat>, failing: set<nat>)
      requires Once(calls, s)
      ensures FailedOf(calls, failing) == s * failing
    {
      forall fd | fd in calls ensures fd in s {
        var k :| 0 <= k < |calls| && calls[k] == fd;
      }
    }

    /**
     * select_thread, over as many calls of select as are laid down; `seen` has the sets watched before each round and
     * at the end.
     */
    method SelectThread(events: seq<Event>) returns (calls: seq<seq<nat>>, ghost seen: seq<set<nat>>)
      requires fds.Valid() && u.notifier < fds.bits.Length
      requires forall i :: 0 <= i < |events| ==> ValidEvent(events[i], fds.bits.Length)
      modifies this, fds, fds.bits
      ensures fds.Valid()
      ensures var r := Outcome(old(fds.Contents()) + {u.notifier}, u, events);
              fds.Contents() == r.0 && OncePerRound(calls, r.1)
      ensures Rounds(u, Completed(events), calls, seen)
      ensures seen[0] == old(fds.Contents()) + {u.notifier} && seen[|seen| - 1] == fds.Contents()
      ensures forall k :: 0 <= k < |calls| ==>
                var e := Completed(events)[k];
                if e.Ready? && u.callback
                   && !(u.notifier in seen[k] && u.notifier in e.ready && (e.word == Interrupt || e.word == Exit))
                then forall fd :: fd in calls[k] <==> fd in seen[k] && fd in e.ready && fd != u.notifier
                else calls[k] == []
    {
      hide FdSet.Contents, FdSet.Valid, Outcome, Once, After, Called, Last, Rounds, RoundSays, Completed;
      fds.Set(u.notifier);
      running := true;
      var temp := new FdSet(fds.bits.Length);
      var next, leave := 0, false;
      calls := [];
      ghost var sets: seq<set<nat>> := [];
      ghost var goal := Outcome(fds.Contents(), u, events);
      assert events[0..] == events && [] + goal.1 == goal.1;
      while running && !leave && next < |events|
        invariant next <= |events| && fds.Valid() && temp.Valid()
        invariant fresh(temp) && fresh(temp.bits) && temp.bits.Length == fds.bits.Length
        invariant OncePerRound(calls, sets)
        invariant goal == if running && !leave then Prepend(sets, Outcome(fds.Contents(), u, events[next..]))
                  else (fds.Contents(), sets)
      {
        temp.Assign(fds);
        ghost var watched := fds.Contents();
        var e := events[next];
        next := next + 1;
        ghost var at := next - 1;
        while e.Interrupted? && next < |events|
          invariant at < next <= |events| && e == events[next - 1]
          invariant goal == Prepend(sets, Outcome(watched, u, events[next - 1..]))
          modifies {}
        {
          OneEvent(watched, u, events, next - 1, sets);
          e := events[next];
          next := next + 1;
        }
        OneEvent(watched, u, events, next - 1, sets);
        NoEvents(watched, u, events[|events|..], sets);
        match e
        case Interrupted => leave := true;
        case Failed =>
          state := -1;
          running := false;
          NothingOnce();
          FailedRound(watched, u);
          calls, sets := calls + [[]], sets + [{}];
        case Ready(_, _, _) =>
          var list;
          leave, list := Round(temp, e);
          calls, sets := calls + [list], sets + [Called(watched, u, e)];
      }
      NoEvents(fds.Contents(), u, events[|events|..], sets);
      seen := RunRounds(old(fds.Contents()) + {u.notifier}, u, events, calls);
      CalledBack(u, Completed(events), calls, seen);
    }

    static lemma CalledBack(u: Setup, evs: seq<Event>, calls: seq<seq<nat>>, seen: seq<set<nat>>)
      requires Rounds(u, evs, calls, seen)
      ensures |seen| == |calls| + 1 && |calls| <= |evs|
      ensures forall k :: 0 <= k < |calls| ==>
                var e := evs[k];
                if e.Ready? && u.callback
                   && !(u.notifier in seen[k] && u.notifier in e.ready && (e.word == Interrupt || e.word == Exit))
                then forall fd :: fd in calls[k] <==> fd in seen[k] && fd in e.ready && fd != u.notifier
                else calls[k] == []
    {
      hide RoundSays;
      forall k | 0 <= k < |calls|
        ensures var e := evs[k];
                if e.Ready? && u.callback
                   && !(u.notifier in seen[k] && u.notifier in e.ready && (e.word == Interrupt || e.word == Exit))
                then forall fd :: fd in calls[k] <==> fd in seen[k] && fd in e.ready && fd != u.notifier
                else calls[k] == []
      {
        OneCalledBack(seen[k], u, evs[k], calls[k], seen[k + 1]);
      }
    }

    static lemma OneCalledBack(watched: set<nat>, u: Setup, e: Event, calls: seq<nat>, next: set<nat>)
      requires RoundSays(watched, u, e, calls, next)
      ensures if e.Ready? && u.callback
                 && !(u.notifier in watched && u.notifier in e.ready && (e.word == Interrupt || e.word == Exit))
              then forall fd :: fd in calls <==> fd in watched && fd in e.ready && fd != u.notifier
              else calls == []
    {
      assert calls != [] ==> calls[0] in calls;
    }

    static ghost function Prepend(sets: seq<set<nat>>, r: (set<nat>, seq<set<nat>>)): (set<nat>, seq<set<nat>>) {
      (r.0, sets + r.1)
    }

    static lemma OneEvent(watched: set<nat>, u: Setup, events: seq<Event>, k: nat, sets: seq<set<nat>>)
      requires k < |events|
      ensures Prepend(sets, Outcome(watched, u, events[k..]))
              == if events[k].Interrupted? then Prepend(sets, Outcome(watched, u, events[k + 1..]))
                 else
                   var more := sets + [Called(watched, u, events[k])];
                   var after := After(watched, u, events[k]);
                   if Last(watched, u, events[k]) then (after, more)
                   else Prepend(more, Outcome(after, u, events[k + 1..]))
    {
      hide After, Called, Last;
      assert events[k..][1..] == events[k + 1..];
      var rest := Outcome(After(watched, u, events[k]), u, events[k + 1..]).1;
      assert sets + ([Called(watched, u, events[k])] + rest) == sets + [Called(watched, u, events[k])] + rest;
    }

    static lemma NoEvents(watched: set<nat>, u: Setup, none: seq<Event>, sets: seq<set<nat>>)
      requires none == []
      ensures Prepend(sets, Outcome(watched, u, none)) == (watched, sets)
    {
      assert sets + [] == sets;
    }

    static lemma FailedRound(watched: set<nat>, u: Setup)
      ensures Called(watched, u, Failed) == {} && After(watched, u, Failed) == watched && Last(watched, u, Failed)
    {}
  }
}
