/** A set of descriptors as a bit vector, with an iterator over it. */
module Descriptors {
  /** The set bits from an index on, in ascending order. */
  function Ascending(bits: seq<bool>, from: nat): (fds: seq<nat>)
    requires from <= |bits|
    decreases |bits| - from
  {
    if from == |bits| then []
    else if bits[from] then [from] + Ascending(bits, from + 1)
    else Ascending(bits, from + 1)
  }

  ghost predicate Increasing(list: seq<nat>) {
    forall i, j :: 0 <= i < j < |list| ==> list[i] < list[j]
  }

  /** Every set bit is listed, nothing else is, and the list ascends, so that each is listed once. */
  lemma {:induction false} AscendingExact(bits: seq<bool>, from: nat)
    requires from <= |bits|
    ensures var fds := Ascending(bits, from);
            && (forall i :: 0 <= i < |fds| ==> from <= fds[i] < |bits| && bits[fds[i]])
            && (forall fd :: from <= fd < |bits| && bits[fd] ==> fd in fds)
            && Increasing(fds)
    decreases |bits| - from
  {
    if from < |bits| {
      AscendingExact(bits, from + 1);
    }
  }

  /** Clear bits list nothing. */
  lemma {:induction false} AscendingSkips(bits: seq<bool>, from: nat, to: nat)
    requires from <= to <= |bits| && forall i :: from <= i < to ==> !bits[i]
    ensures Ascending(bits, from) == Ascending(bits, to)
    decreases |bits| - from
  {
    if from < to {
      AscendingSkips(bits, from + 1, to);
    }
  }

  /** IT_fd_set */
  class FdSet {
    const bits: array<bool>
    var iteratorInx: nat
    var maxFd: nat

    constructor (size: nat)
      requires size > 0
      ensures Valid() && fresh(bits) && bits.Length == size && iteratorInx == 0 && maxFd == 0
      ensures Contents() == {}
    {
      bits := new bool[size](_ => false);
      iteratorInx, maxFd := 0, 0;
    }

    /** The highest descriptor ever set bounds those that are. */
    ghost predicate Valid()
      reads this, bits
    {
      && maxFd < bits.Length && iteratorInx <= maxFd + 1
      && forall fd :: 0 <= fd < bits.Length && bits[fd] ==> fd <= maxFd
    }

    ghost function Contents(): set<nat>
      reads bits
    {
      set fd: nat | fd < bits.Length && bits[fd]
    }

    /** The next set descriptor, or -1 behind the last one, with the iterator back at the start. */
    method Iterate() returns (fd: int)
      requires Valid()
      modifies this`iteratorInx
      ensures Valid()
      ensures var left := if old(iteratorInx) <= bits.Length then Ascending(bits[..], old(iteratorInx)) else [];
              if left == [] then fd == -1 && iteratorInx == 0
              else fd == left[0] && iteratorInx == fd + 1 && Ascending(bits[..], iteratorInx) == left[1..]
    {
      ghost var start := iteratorInx;
      while iteratorInx <= maxFd && !bits[iteratorInx]
        invariant start <= iteratorInx <= maxFd + 1 && forall i :: start <= i < iteratorInx ==> !bits[i]
      {
        iteratorInx := iteratorInx + 1;
      }
      AscendingSkips(bits[..], start, iteratorInx);
      if iteratorInx > maxFd {
        NothingAbove();
        iteratorInx := 0;
        return -1;
      }
      fd := iteratorInx;
      iteratorInx := iteratorInx + 1;
    }

    lemma NothingAbove()
      requires Valid()
      ensures Ascending(bits[..], maxFd + 1) == []
    {
      AscendingSkips(bits[..], maxFd + 1, bits.Length);
    }

    method Reset()
      requires Valid()
      modifies this`iteratorInx
      ensures Valid() && iteratorInx == 0
    {
      iteratorInx := 0;
    }

    method Clear(fd: nat)
      requires Valid() && fd < bits.Length
      modifies bits
      ensures Valid() && Contents() == old(Contents()) - {fd}
    {
      bits[fd] := false;
    }

    method IsSet(fd: nat) returns (b: bool)
      requires Valid() && fd < bits.Length
      ensures b <==> fd in Contents()
    {
      b := bits[fd];
    }

    method Zero()
      modifies this, bits
      requires bits.Length > 0
      ensures Valid() && Contents() == {} && iteratorInx == 0 && maxFd == 0
    {
      forall i | 0 <= i < bits.Length {
        bits[i] := false;
      }
      iteratorInx, maxFd := 0, 0;
    }

    method Set(fd: nat)
      requires Valid() && fd < bits.Length
      modifies this`maxFd, bits
      ensures Valid() && Contents() == old(Contents()) + {fd}
      ensures maxFd == if fd > old(maxFd) then fd else old(maxFd)
    {
      bits[fd] := true;
      if fd > maxFd {
        maxFd := fd;
      }
    }

    method MaxFd() returns (m: nat)
      requires Valid()
      ensures forall fd :: fd in Contents() ==> fd <= m
    {
      m := maxFd;
    }

    /** operator= */
    method Assign(rhs: FdSet)
      requires rhs.Valid() && bits.Length == rhs.bits.Length && bits != rhs.bits && this != rhs
      modifies this, bits
      ensures Valid() && bits[..] == rhs.bits[..] && maxFd == rhs.maxFd && iteratorInx == 0
      ensures Contents() == rhs.Contents()
    {
      forall i | 0 <= i < bits.Length {
        bits[i] := rhs.bits[i];
      }
      maxFd := rhs.maxFd;
      iteratorInx := 0;
    }

    /** Iterating from the start until -1 yields every descriptor of the set once, in ascending order. */
    method Drain() returns (fds: seq<nat>)
      requires Valid()
      modifies this`iteratorInx
      ensures Valid() && iteratorInx == 0 && fds == Ascending(bits[..], 0)
    {
      Reset();
      fds := [];
      var fd := Iterate();
      while fd != -1
        invariant Valid() && fd >= -1 && iteratorInx <= bits.Length
        invariant if fd == -1 then iteratorInx == 0 && fds == Ascending(bits[..], 0)
                  else iteratorInx == fd + 1 && fds + [fd as nat] + Ascending(bits[..], iteratorInx)
                        == Ascending(bits[..], 0)
        decreases if fd == -1 then 0 else 1 + |Ascending(bits[..], iteratorInx)|
      {
        fds := fds + [fd];
        ghost var was := iteratorInx;
        fd := Iterate();
        assert fd == -1 ==> fds + Ascending(bits[..], was) == fds;
      }
    }
  }
}
