/** Byte-range locks (lock.go): the ordered table of claims on a file, the requests that take and give back ranges, and
    the requests asleep until one comes free. */
module Locks {
  import opened Bytes

  const SHARED_LOCK: bv32 := 1
  const EXCLUSIVE_LOCK: bv32 := 2
  const FAIL_IMMEDIATELY: bv32 := 0x10

  datatype Range = Range(offset: uint64, length: uint64) {
    /** The first offset past the range, saturated; the sum wraps around as 64-bit sums do. */
    function End(): (e: uint64)
      ensures e == if offset + length <= MAX_UINT64 then offset + length else MAX_UINT64
    {
      var sum := (offset + length) % (MAX_UINT64 + 1);
      if sum < offset then MAX_UINT64 else sum
    }

    predicate Overlaps(other: Range) {
      if length == 0 && other.length == 0 then false
      else if length == 0 then other.offset < offset < other.End()
      else if other.length == 0 then offset < other.offset < End()
      else offset < other.End() && other.offset < End()
    }
  }

  predicate InRange(r: Range, x: nat) {
    r.offset <= x < r.End()
  }

  /** Two ranges that cover bytes overlap exactly if some offset lies in both; one that covers none overlaps what holds
      the offset it sits at, and the one before; overlapping is mutual. */
  lemma OverlapsMeans(r: Range, s: Range)
    ensures r.length > 0 && s.length > 0 ==> (r.Overlaps(s) <==> exists x: nat :: InRange(r, x) && InRange(s, x))
    ensures r.length == 0 && s.length > 0 ==> (r.Overlaps(s) <==> 0 < r.offset && InRange(s, r.offset) && InRange(s, r.offset - 1))
    ensures r.Overlaps(s) <==> s.Overlaps(r)
  {
    if r.length > 0 && s.length > 0 && r.Overlaps(s) {
      var x: nat := if r.offset < s.offset then s.offset else r.offset;
      assert InRange(r, x) && InRange(s, x);
    }
  }

  datatype Lock = Lock(range: Range, open: nat, exclusive: bool)

  /** An element of a lock request. */
  datatype Element = Element(offset: uint64, length: uint64, flags: bv32) {
    function Named(): Range { Range(offset, length) }
    predicate Exclusive() { flags & EXCLUSIVE_LOCK != 0 }
    predicate AtOnce() { flags & FAIL_IMMEDIATELY != 0 }
    function Claim(open: nat): Lock { Lock(Named(), open, Exclusive()) }
  }

  predicate ValidLockFlags(flags: bv32) {
    flags & !FAIL_IMMEDIATELY == SHARED_LOCK || flags & !FAIL_IMMEDIATELY == EXCLUSIVE_LOCK
  }

  /** A lock is asked for in one of four ways, two of them exclusive and two to be had at once. */
  lemma FlagsMean(flags: bv32)
    ensures ValidLockFlags(flags) <==> flags == 1 || flags == 2 || flags == 0x11 || flags == 0x12
  {
  }

  lemma FlagsAsk(offset: uint64, length: uint64)
    ensures !Element(offset, length, 1).Exclusive() && !Element(offset, length, 1).AtOnce()
    ensures Element(offset, length, 2).Exclusive() && !Element(offset, length, 2).AtOnce()
    ensures !Element(offset, length, 0x11).Exclusive() && Element(offset, length, 0x11).AtOnce()
    ensures Element(offset, length, 0x12).Exclusive() && Element(offset, length, 0x12).AtOnce()
  {
  }

  /** Anything that sets neither of the two low bits may be an unlock. */
  lemma UnlockFlagsMean(flags: bv32)
    ensures AsksToLock(flags) <==> flags & 1 == 1 || flags & 2 == 2
  {
  }

  /** The lock held keeps the claim out. */
  predicate InTheWay(held: Lock, claim: Lock) {
    held.range.Overlaps(claim.range) && if held.exclusive then held.open != claim.open else claim.exclusive
  }

  predicate Conflict(table: seq<Lock>, claim: Lock) {
    exists i :: 0 <= i < |table| && InTheWay(table[i], claim)
  }

  /** No lock stands behind one that should have kept it out. */
  ghost predicate Ordered(table: seq<Lock>) {
    forall i, j | 0 <= i < j < |table| && table[i].range.Overlaps(table[j].range) ::
      && (table[i].exclusive ==> table[i].open == table[j].open)
      && (table[j].exclusive ==> table[i].exclusive && table[i].open == table[j].open)
  }

  /** How many elements of a request are taken before one is malformed or cannot be had. */
  function Granted(table: seq<Lock>, open: nat, request: seq<Element>): (n: nat)
    ensures n <= |request|
    decreases |request|
  {
    if request == [] || !ValidLockFlags(request[0].flags) || Conflict(table, request[0].Claim(open)) then 0
    else 1 + Granted(table + [request[0].Claim(open)], open, request[1..])
  }

  function Claims(open: nat, request: seq<Element>): (r: seq<Lock>)
    ensures |r| == |request| && forall i | 0 <= i < |r| :: r[i] == request[i].Claim(open)
  {
    seq(|request|, i requires 0 <= i < |request| => request[i].Claim(open))
  }

  lemma {:induction false} GrantedNext(table: seq<Lock>, open: nat, request: seq<Element>, n: nat)
    requires n <= Granted(table, open, request)
    ensures Granted(table, open, request) == n + Granted(table + Claims(open, request[..n]), open, request[n..])
    decreases n
  {
    hide Conflict, ValidLockFlags, Element.Claim;
    if n == 0 {
      assert table + Claims(open, request[..0]) == table && request[0..] == request;
    } else {
      var table' := table + [request[0].Claim(open)];
      GrantedNext(table', open, request[1..], n - 1);
      assert request[1..][n - 1..] == request[n..];
      assert table' + Claims(open, request[1..][..n - 1]) == table + Claims(open, request[..n]);
    }
  }

  lemma TakingKeepsOrder(table: seq<Lock>, claim: Lock)
    requires Ordered(table) && !Conflict(table, claim)
    ensures Ordered(table + [claim])
  {
    assert forall i | 0 <= i < |table| :: !InTheWay(table[i], claim);
  }

  /** A claim is refused exactly if the table would be out of order with it: whatever order allows may be taken. */
  lemma RefusedForOrder(table: seq<Lock>, claim: Lock)
    requires Ordered(table)
    ensures Conflict(table, claim) <==> !Ordered(table + [claim])
  {
    if Conflict(table, claim) {
      var i :| 0 <= i < |table| && InTheWay(table[i], claim);
      var t := table + [claim];
      assert t[i] == table[i] && t[|table|] == claim;
    } else {
      TakingKeepsOrder(table, claim);
    }
  }

  /** As many elements of a request are taken as are well formed and keep the table in order, and no fewer. */
  lemma {:induction false} GrantedForOrder(table: seq<Lock>, open: nat, request: seq<Element>)
    requires Ordered(table)
    ensures var n := Granted(table, open, request);
            && (forall i | 0 <= i < n :: ValidLockFlags(request[i].flags)) && Ordered(table + Claims(open, request[..n]))
            && (n < |request| && ValidLockFlags(request[n].flags) ==> !Ordered(table + Claims(open, request[..n + 1])))
    decreases |request|
  {
    hide Ordered, Conflict, ValidLockFlags, Element.Claim;
    var n := Granted(table, open, request);
    if n == 0 {
      assert table + Claims(open, request[..0]) == table;
      if request != [] {
        RefusedForOrder(table, request[0].Claim(open));
        assert Claims(open, request[..1]) == [request[0].Claim(open)];
      }
    } else {
      var claim := request[0].Claim(open);
      TakingKeepsOrder(table, claim);
      GrantedForOrder(table + [claim], open, request[1..]);
      GrantedAgain(table, open, request, n);
      if n < |request| { GrantedAgain(table, open, request, n + 1); }
    }
  }

  lemma GrantedAgain(table: seq<Lock>, open: nat, request: seq<Element>, n: nat)
    requires 0 < n <= |request|
    ensures table + [request[0].Claim(open)] + Claims(open, request[1..][..n - 1]) == table + Claims(open, request[..n])
  {
    hide Element.Claim;
    assert request[1..][..n - 1] == request[1..n];
    assert Claims(open, request[..n]) == [request[0].Claim(open)] + Claims(open, request[1..n]);
  }

  lemma ConflictStays(table: seq<Lock>, more: seq<Lock>, claim: Lock)
    requires Conflict(table, claim)
    ensures Conflict(table + more, claim)
  {
    var i :| 0 <= i < |table| && InTheWay(table[i], claim);
    assert InTheWay((table + more)[i], claim);
  }

  /** One more element of the request is taken, or the request ends here. */
  lemma GrantedStep(table: seq<Lock>, open: nat, request: seq<Element>, n: nat)
    requires n < |request| && n <= Granted(table, open, request)
    ensures var now := table + Claims(open, request[..n]);
            var l := request[n];
            && (n == Granted(table, open, request) <==> !ValidLockFlags(l.flags) || Conflict(now, l.Claim(open)))
            && now + [l.Claim(open)] == table + Claims(open, request[..n + 1])
  {
    hide Conflict, ValidLockFlags, Element.Claim;
    GrantedNext(table, open, request, n);
  }

  lemma LosingKeepsOrder(table: seq<Lock>, i: nat)
    requires Ordered(table) && i < |table|
    ensures Ordered(table[..i] + table[i + 1..])
  {
    var t := table[..i] + table[i + 1..];
    assert forall k | 0 <= k < |t| :: t[k] == table[if k < i then k else k + 1];
  }

  function First(table: seq<Lock>, l: Lock): (i: nat)
    requires l in table
    ensures i < |table| && table[i] == l && forall j | 0 <= j < i :: table[j] != l
  {
    if table[0] == l then 0 else 1 + First(table[1..], l)
  }

  function Last(table: seq<Lock>, l: Lock): (i: nat)
    requires l in table
    ensures i < |table| && table[i] == l && forall j | i < j < |table| :: table[j] != l
  {
    var n := |table| - 1;
    if table[n] == l then n else Last(table[..n], l)
  }

  /** The lock an unlock gives back: the first exclusive one the open holds on just that range, or else the first. */
  function GivenBack(table: seq<Lock>, open: nat, range: Range): (r: Option<nat>)
    ensures r.Some? ==> r.value < |table| && table[r.value] == Lock(range, open, Lock(range, open, true) in table)
    ensures r.Some? <==> exists exclusive :: Lock(range, open, exclusive) in table
  {
    if Lock(range, open, true) in table then Some(First(table, Lock(range, open, true)))
    else if Lock(range, open, false) in table then Some(First(table, Lock(range, open, false)))
    else None
  }

  function Less(table: seq<Lock>, i: nat): seq<Lock>
    requires i < |table|
  {
    table[..i] + table[i + 1..]
  }

  predicate AsksToLock(flags: bv32) {
    flags & (SHARED_LOCK | EXCLUSIVE_LOCK) != 0
  }

  datatype Unlocking = Unlocking(table: seq<Lock>, done: nat)

  /** What an unlock request leaves, and how many of its elements were given back before one could not be. */
  function Unlocked(table: seq<Lock>, open: nat, request: seq<Element>): (u: Unlocking)
    ensures u.done <= |request| && |table| == |u.table| + u.done && (u.done == 0 ==> u.table == table)
    decreases |request|
  {
    if request == [] || AsksToLock(request[0].flags) then Unlocking(table, 0)
    else
      match GivenBack(table, open, request[0].Named())
      case None => Unlocking(table, 0)
      case Some(i) =>
        var u := Unlocked(Less(table, i), open, request[1..]);
        u.(done := u.done + 1)
  }

  lemma {:induction false} UnlockingKeepsOrder(table: seq<Lock>, open: nat, request: seq<Element>)
    requires Ordered(table)
    ensures Ordered(Unlocked(table, open, request).table)
    decreases |request|
  {
    hide AsksToLock;
    if request != [] && !AsksToLock(request[0].flags) {
      var given := GivenBack(table, open, request[0].Named());
      if given.Some? {
        LosingKeepsOrder(table, given.value);
        UnlockingKeepsOrder(Less(table, given.value), open, request[1..]);
      }
    }
  }

  lemma OneLess(table: seq<Lock>, i: nat)
    requires i < |table|
    ensures multiset(table) == multiset(Less(table, i)) + multiset{table[i]}
  {
    assert table == table[..i] + [table[i]] + table[i + 1..];
  }

  /** Taking one range and giving it back leaves the locks as they were, unless the lock taken was a shared one over a
      range the open holds exclusively: then that one is given back. */
  lemma UnlockUndoesLock(table: seq<Lock>, open: nat, l: Element, back: Element)
    requires back.Named() == l.Named() && !AsksToLock(back.flags)
    ensures var u := Unlocked(table + [l.Claim(open)], open, [back]);
            && u.done == 1
            && (multiset(u.table) == multiset(table) <==> l.Exclusive() || Lock(l.Named(), open, true) !in table)
  {
    hide AsksToLock, Element.Exclusive, First, Unlocked, Less;
    var claim := l.Claim(open);
    var t := table + [claim];
    assert claim in t;
    var i := GivenBack(t, open, l.Named()).value;
    OneLess(t, i);
    assert multiset(t) == multiset(table) + multiset{claim};
    OneUnlocked(t, open, back, i);
    SameRest(multiset(Less(t, i)), t[i], multiset(table), claim);
  }

  /** The case: an open that holds a byte exclusively, locks it shared and unlocks it, is left with the shared lock. */
  lemma ExclusiveGivenBack()
    ensures var byte := Range(0, 1);
            var l, back := Element(0, 1, SHARED_LOCK), Element(0, 1, 4);
            Unlocked([Lock(byte, 1, true)] + [l.Claim(1)], 1, [back]) == Unlocking([Lock(byte, 1, false)], 1)
  {
    var l, back := Element(0, 1, SHARED_LOCK), Element(0, 1, 4);
    var held, taken := Lock(Range(0, 1), 1, true), l.Claim(1);
    var t := [held] + [taken];
    assert held in t && First(t, held) == 0;
    OneUnlocked(t, 1, back, 0);
    assert Less(t, 0) == [taken];
  }

  lemma SameRest(a: multiset<Lock>, x: Lock, b: multiset<Lock>, y: Lock)
    requires a + multiset{x} == b + multiset{y}
    ensures a == b <==> x == y
  {
    assert a == a + multiset{x} - multiset{x} && b == b + multiset{y} - multiset{y};
    if x != y { assert (a + multiset{x})[x] == a[x] + 1 && (b + multiset{y})[x] == b[x]; }
  }

  lemma OneUnlocked(table: seq<Lock>, open: nat, back: Element, i: nat)
    requires !AsksToLock(back.flags) && GivenBack(table, open, back.Named()) == Some(i) && i < |table|
    ensures Unlocked(table, open, [back]) == Unlocking(Less(table, i), 1)
  {
    assert Unlocked(Less(table, i), open, [back][1..]) == Unlocking(Less(table, i), 0);
  }

  function Without(table: seq<Lock>, open: nat): (r: seq<Lock>)
    ensures forall l :: l in r <==> l in table && l.open != open
    ensures |r| <= |table| && (|r| == |table| ==> r == table)
  {
    if table == [] then []
    else
      var n := |table| - 1;
      assert forall l :: l in table <==> l in table[..n] || l == table[n];
      Without(table[..n], open) + if table[n].open != open then [table[n]] else []
  }

  lemma WithoutNone(open: nat)
    ensures Without([], open) == []
  {
  }

  lemma WithoutNext(table: seq<Lock>, open: nat, i: nat)
    requires i < |table|
    ensures Without(table[..i + 1], open) == Without(table[..i], open) + if table[i].open != open then [table[i]] else []
  {
    assert table[..i + 1][..i] == table[..i];
  }

  /** Exactly the open's locks go, each of the others as often as it was there. */
  lemma {:induction false} OnlyTheOpens(table: seq<Lock>, open: nat, l: Lock)
    ensures multiset(Without(table, open))[l] == if l.open == open then 0 else multiset(table)[l]
  {
    hide Without;
    WithoutNone(open);
    if table != [] {
      var n := |table| - 1;
      OnlyTheOpens(table[..n], open, l);
      WithoutNext(table, open, n);
      assert table[..n + 1] == table == table[..n] + [table[n]];
    }
  }

  lemma {:induction false} ReleasingKeepsOrder(table: seq<Lock>, open: nat)
    requires Ordered(table)
    ensures Ordered(Without(table, open))
  {
    if table != [] {
      var n := |table| - 1;
      ReleasingKeepsOrder(table[..n], open);
      var r := Without(table[..n], open);
      forall i | 0 <= i < |r| && table[n].open != open && r[i].range.Overlaps(table[n].range)
        ensures (r[i].exclusive ==> r[i].open == table[n].open)
                && (table[n].exclusive ==> r[i].exclusive && r[i].open == table[n].open)
      {
        assert r[i] in table[..n];
        var j: nat :| j < n && table[j] == r[i];
      }
    }
  }

  datatype Status = Ok | InvalidParameter | NotGranted | RangeNotLocked

  /** A request asleep until the channel is closed. */
  datatype Sleeper = Sleeper(request: nat, claim: Lock, channel: nat)

  /** The channels closed when a range comes free. */
  function Freed(lockWait: Option<nat>, closed: set<nat>): set<nat> {
    closed + if lockWait.Some? then {lockWait.value} else {}
  }

  class FileState {
    var locks: seq<Lock>

    /** The channel closed the next time a range is given back. */
    var lockWait: Option<nat>

    var made: nat
    var closed: set<nat>
    var asleep: set<Sleeper>

    /** Nobody sleeps on a free range: whoever is asleep on a channel not yet closed is kept out by a lock in the table,
        and the channel is the one that giving a range back closes. */
    ghost predicate NobodyForgotten()
      reads this
    {
      forall s | s in asleep :: s.channel in closed || (lockWait == Some(s.channel) && Conflict(locks, s.claim))
    }

    ghost predicate Valid()
      reads this
    {
      && Ordered(locks) && NobodyForgotten()
      && (forall c | c in closed :: c < made) && (lockWait.Some? ==> lockWait.value < made && lockWait.value !in closed)
    }

    constructor ()
      ensures Valid() && locks == [] && lockWait == None && made == 0 && closed == {} && asleep == {}
    {
      locks, lockWait, made, closed, asleep := [], None, 0, {}, {};
    }

    method LockConflict(claim: Lock) returns (found: bool)
      ensures found <==> Conflict(locks, claim)
      ensures Ordered(locks) ==> (found <==> !Ordered(locks + [claim]))
    {
      if Ordered(locks) { RefusedForOrder(locks, claim); }
      for i := 0 to |locks|
        invariant forall j | 0 <= j < i :: !InTheWay(locks[j], claim)
      {
        var held := locks[i];
        if !held.range.Overlaps(claim.range) {
          continue;
        }
        if held.exclusive {
          if held.open != claim.open {
            return true;
          }
          continue;
        }
        if claim.exclusive {
          return true;
        }
      }
      return false;
    }

    method LockWaiter() returns (c: nat)
      modifies this`lockWait, this`made
      ensures lockWait == Some(c)
      ensures old(lockWait).Some? ==> lockWait == old(lockWait) && made == old(made)
      ensures old(lockWait).None? ==> c == old(made) && made == old(made) + 1
    {
      if lockWait.None? {
        lockWait, made := Some(made), made + 1;
      }
      c := lockWait.value;
    }

    method LockChanged()
      requires lockWait.Some? ==> lockWait.value !in closed
      modifies this`lockWait, this`closed
      ensures lockWait == None && closed == Freed(old(lockWait), old(closed))
    {
      if lockWait.Some? {
        closed := closed + {lockWait.value};
        lockWait := None;
      }
    }

    /** Whether every element of the request is to fail at once. */
    method AllAtOnce(request: seq<Element>) returns (all: bool)
      ensures all <==> forall i | 0 <= i < |request| :: request[i].AtOnce()
    {
      for i := 0 to |request|
        invariant forall j | 0 <= j < i :: request[j].AtOnce()
      {
        if !request[i].AtOnce() {
          return false;
        }
      }
      return true;
    }

    /** Adds to the table what nothing stands in the way of. */
    method Take(claim: Lock)
      requires Valid() && !Conflict(locks, claim)
      modifies this`locks
      ensures Valid() && locks == old(locks) + [claim]
    {
      hide Conflict, Ordered;
      TakingKeepsOrder(locks, claim);
      forall s | s in asleep && s.channel !in closed ensures Conflict(locks + [claim], s.claim) {
        ConflictStays(locks, [claim], s.claim);
      }
      locks := locks + [claim];
    }

    method TakeRanges(open: nat, request: seq<Element>) returns (status: Status, wait: bool)
      requires Valid() && (|request| > 1 ==> forall i | 0 <= i < |request| :: request[i].AtOnce())
      modifies this`locks, this`lockWait, this`closed
      ensures Valid()
      ensures var n := Granted(old(locks), open, request);
              && (wait <==> n < |request| && ValidLockFlags(request[n].flags) && !request[n].AtOnce())
              && (status == Ok <==> wait || n == |request|)
              && (status == NotGranted <==> n < |request| && ValidLockFlags(request[n].flags) && request[n].AtOnce())
              && status != RangeNotLocked
              && locks == (if wait || status == NotGranted then old(locks) else old(locks) + Claims(open, request[..n]))
              && if status == NotGranted && n > 0 then lockWait == None && closed == Freed(old(lockWait), old(closed))
                 else lockWait == old(lockWait) && closed == old(closed)
      ensures wait ==> |request| == 1 && Conflict(locks, request[0].Claim(open))
    {
      hide Conflict, Ordered, ValidLockFlags, Element.Claim, Element.AtOnce, Granted;
      ghost var before := locks;
      var taken := 0;
      assert before + Claims(open, request[..0]) == before;
      while taken < |request|
        invariant Valid() && taken <= Granted(before, open, request) && taken <= |request|
        invariant locks == before + Claims(open, request[..taken])
        invariant lockWait == old(lockWait) && closed == old(closed)
      {
        var l := request[taken];
        GrantedStep(before, open, request, taken);
        if !ValidLockFlags(l.flags) {
          return InvalidParameter, false;
        }
        var conflict := LockConflict(l.Claim(open));
        if conflict {
          if !l.AtOnce() {
            return Ok, true;
          }
          if taken > 0 {
            assert locks[..|locks| - taken] == before;
            locks := locks[..|locks| - taken];
            LockChanged();
          }
          return NotGranted, false;
        }
        Take(l.Claim(open));
        taken := taken + 1;
      }
      return Ok, false;
    }

    /** Takes the ranges of a request. One that cannot be had puts back those taken before it; one that is malformed
        does not. A request told to wait has taken nothing. */
    method LockRanges(open: nat, request: seq<Element>) returns (status: Status, wait: bool)
      requires Valid()
      modifies this`locks, this`lockWait, this`closed
      ensures Valid()
      ensures var n := Granted(old(locks), open, request);
              var mixed := |request| > 1 && exists i | 0 <= i < |request| :: !request[i].AtOnce();
              && (wait <==> !mixed && n < |request| && ValidLockFlags(request[n].flags) && !request[n].AtOnce())
              && (status == Ok <==> wait || (!mixed && n == |request|))
              && (status == NotGranted <==> !mixed && n < |request| && ValidLockFlags(request[n].flags) && request[n].AtOnce())
              && status != RangeNotLocked
              && locks == (if mixed || wait || status == NotGranted then old(locks) else old(locks) + Claims(open, request[..n]))
              && if status == NotGranted && n > 0 then lockWait == None && closed == Freed(old(lockWait), old(closed))
                 else lockWait == old(lockWait) && closed == old(closed)
      ensures wait ==> |request| == 1 && Conflict(locks, request[0].Claim(open))
      ensures var n := Granted(old(locks), open, request);
              && Ordered(old(locks) + Claims(open, request[..n]))
              && (n < |request| && ValidLockFlags(request[n].flags) ==> !Ordered(old(locks) + Claims(open, request[..n + 1])))
    {
      hide Conflict, Ordered, ValidLockFlags, Element.Claim, Element.AtOnce, Granted;
      GrantedForOrder(locks, open, request);
      if |request| > 1 {
        var all := AllAtOnce(request);
        if !all {
          return InvalidParameter, false;
        }
      }
      status, wait := TakeRanges(open, request);
    }

    /** One go at a range by a request that waits for it: it is taken, or the request sleeps on the channel closed the
        next time a range is given back. */
    method Await(request: nat, open: nat, l: Element) returns (taken: bool)
      requires Valid()
      modifies this`locks, this`lockWait, this`made, this`asleep
      ensures Valid() && (taken <==> !Conflict(old(locks), l.Claim(open)))
      ensures taken <==> Ordered(old(locks) + [l.Claim(open)])
      ensures taken ==> locks == old(locks) + [l.Claim(open)] && asleep == old(asleep)
                        && lockWait == old(lockWait) && made == old(made)
      ensures !taken ==> locks == old(locks)
                         && (if old(lockWait).Some? then lockWait == old(lockWait) && made == old(made)
                             else lockWait == Some(old(made)) && made == old(made) + 1)
                         && asleep == old(asleep) + {Sleeper(request, l.Claim(open), lockWait.value)}
    {
      hide Conflict, Ordered, Element.Claim;
      var conflict := LockConflict(l.Claim(open));
      if !conflict {
        Take(l.Claim(open));
        return true;
      }
      var freed := LockWaiter();
      asleep := asleep + {Sleeper(request, l.Claim(open), freed)};
      return false;
    }

    /** A request wakes up, or is called off. */
    method Wake(s: Sleeper)
      requires Valid()
      modifies this`asleep
      ensures Valid() && asleep == old(asleep) - {s}
    {
      hide Conflict, Ordered;
      asleep := asleep - {s};
    }

    /** Gives back the lock the open took last under that name, if it still holds it. */
    method DropLock(open: nat, l: Element)
      requires Valid()
      modifies this`locks, this`lockWait, this`closed
      ensures Valid()
      ensures l.Claim(open) !in old(locks) ==> locks == old(locks) && lockWait == old(lockWait) && closed == old(closed)
      ensures l.Claim(open) in old(locks) ==>
                lockWait == None && closed == Freed(old(lockWait), old(closed))
                && locks == Less(old(locks), Last(old(locks), l.Claim(open)))
    {
      hide Conflict, Ordered, Element.Claim;
      var i := |locks|;
      while i > 0
        invariant 0 <= i <= |locks| && forall j | i <= j < |locks| :: locks[j] != l.Claim(open)
        modifies {}
      {
        if locks[i - 1] == l.Claim(open) {
          break;
        }
        i := i - 1;
      }
      if i > 0 {
        LosingKeepsOrder(locks, i - 1);
        locks := locks[..i - 1] + locks[i..];
        LockChanged();
      }
    }

    /** The place in the table of the lock an unlock gives back. */
    method FindLock(open: nat, range: Range) returns (found: Option<nat>)
      ensures found == GivenBack(locks, open, range)
    {
      var shared, exclusive := Lock(range, open, false), Lock(range, open, true);
      found := None;
      for i := 0 to |locks|
        invariant exclusive !in locks[..i]
        invariant found.None? <==> shared !in locks[..i]
        invariant found.Some? ==> found.value < i && locks[found.value] == shared && shared !in locks[..found.value]
      {
        var held := locks[i];
        if held.open != open || held.range != range {
          continue;
        }
        if held.exclusive {
          FirstIs(locks, exclusive, i);
          return Some(i);
        }
        if found.None? {
          found := Some(i);
        }
      }
      if found.Some? {
        FirstIs(locks, shared, found.value);
      }
    }

    /** Gives back the ranges of a request, one after the other; what was given back stays given back. */
    method UnlockRanges(open: nat, request: seq<Element>) returns (status: Status)
      requires Valid()
      modifies this`locks, this`lockWait, this`closed
      ensures Valid()
      ensures var u := Unlocked(old(locks), open, request);
              && locks == u.table
              && status == (if u.done == |request| then Ok
                            else if AsksToLock(request[u.done].flags) then InvalidParameter else RangeNotLocked)
              && if u.done > 0 then lockWait == None && closed == Freed(old(lockWait), old(closed))
                 else lockWait == old(lockWait) && closed == old(closed)
    {
      hide Conflict, Ordered, AsksToLock, GivenBack;
      UnlockingKeepsOrder(locks, open, request);
      var given := 0;
      status := Ok;
      ghost var u := Unlocked(locks, open, request);
      while given < |request|
        invariant given <= |request| && given <= u.done
        invariant Unlocked(locks, open, request[given..]) == Unlocking(u.table, u.done - given)
        invariant given == 0 ==> locks == old(locks)
        modifies this`locks
      {
        var l := request[given];
        if AsksToLock(l.flags) {
          status := InvalidParameter;
          break;
        }
        var found := FindLock(open, l.Named());
        if found.None? {
          status := RangeNotLocked;
          break;
        }
        assert request[given..][1..] == request[given + 1..];
        locks := locks[..found.value] + locks[found.value + 1..];
        given := given + 1;
      }
      if given > 0 {
        LockChanged();
      }
    }

    /** Drops every lock the open holds. */
    method ReleaseLocks(open: nat)
      requires Valid()
      modifies this`locks, this`lockWait, this`closed
      ensures Valid() && locks == Without(old(locks), open)
      ensures if locks != old(locks) then lockWait == None && closed == Freed(old(lockWait), old(closed))
              else lockWait == old(lockWait) && closed == old(closed)
    {
      hide Conflict, Ordered, Without;
      ReleasingKeepsOrder(locks, open);
      WithoutNone(open);
      var kept := [];
      for i := 0 to |locks|
        invariant kept == Without(locks[..i], open)
        modifies {}
      {
        WithoutNext(locks, open, i);
        if locks[i].open != open {
          kept := kept + [locks[i]];
        }
      }
      assert locks[..|locks|] == locks;
      if |kept| < |locks| {
        LockChanged();
      }
      locks := kept;
    }
  }

  lemma FirstIs(table: seq<Lock>, l: Lock, i: nat)
    requires i < |table| && table[i] == l && l !in table[..i]
    ensures First(table, l) == i
  {
    assert forall j | 0 <= j < i :: table[j] in table[..i];
  }

  datatype Event =
    | LockRequest(open: nat, elements: seq<Element>)
    | UnlockRequest(open: nat, elements: seq<Element>)
    | AwaitOne(request: nat, open: nat, element: Element)
    | WakeOne(sleeper: Sleeper)
    | DropOne(open: nat, element: Element)
    | ReleaseAll(open: nat)

  /** What there is on one file at a time, as a value. */
  datatype Picture = Picture(locks: seq<Lock>, lockWait: Option<nat>, made: nat, closed: set<nat>, asleep: set<Sleeper>) {
    /** A range came free, and the table is now this one. */
    function Left(table: seq<Lock>): Picture {
      this.(locks := table, lockWait := None, closed := Freed(lockWait, closed))
    }

    /** A request waits for the next range that comes free. */
    function Waiting(request: nat, claim: Lock): Picture {
      var c := if lockWait.Some? then lockWait.value else made;
      this.(lockWait := Some(c), made := if lockWait.Some? then made else made + 1,
            asleep := asleep + {Sleeper(request, claim, c)})
    }

    function Locked(open: nat, elements: seq<Element>): Picture {
      var n := Granted(locks, open, elements);
      if |elements| > 1 && exists i | 0 <= i < |elements| :: !elements[i].AtOnce() then this
      else if n == |elements| || !ValidLockFlags(elements[n].flags) then this.(locks := locks + Claims(open, elements[..n]))
      else if elements[n].AtOnce() && n > 0 then Left(locks)
      else this
    }

    /** What the event makes of it. */
    function Next(e: Event): Picture {
      match e
      case LockRequest(open, elements) => Locked(open, elements)
      case UnlockRequest(open, elements) =>
        var u := Unlocked(locks, open, elements);
        if u.done > 0 then Left(u.table) else this
      case AwaitOne(request, open, element) =>
        var claim := element.Claim(open);
        if Conflict(locks, claim) then Waiting(request, claim) else this.(locks := locks + [claim])
      case WakeOne(sleeper) => this.(asleep := asleep - {sleeper})
      case DropOne(open, element) =>
        var claim := element.Claim(open);
        if claim in locks then Left(Less(locks, Last(locks, claim))) else this
      case ReleaseAll(open) =>
        if Without(locks, open) != locks then Left(Without(locks, open)) else this
    }
  }

  function After(events: seq<Event>): Picture {
    if events == [] then Picture([], None, 0, {}, {})
    else After(events[..|events| - 1]).Next(events[|events| - 1])
  }

  ghost function Now(f: FileState): Picture
    reads f
  {
    Picture(f.locks, f.lockWait, f.made, f.closed, f.asleep)
  }

  method Step(f: FileState, e: Event)
    requires f.Valid()
    modifies f
    ensures f.Valid() && Now(f) == old(Now(f)).Next(e)
  {
    hide Conflict, Ordered, Granted, Unlocked, FileState.NobodyForgotten, ValidLockFlags, Element.AtOnce, Element.Claim;
    match e
    case LockRequest(open, elements) => var _, _ := f.LockRanges(open, elements);
    case UnlockRequest(open, elements) => var _ := f.UnlockRanges(open, elements);
    case AwaitOne(request, open, element) => var _ := f.Await(request, open, element);
    case WakeOne(sleeper) => f.Wake(sleeper);
    case DropOne(open, element) => f.DropLock(open, element);
    case ReleaseAll(open) => f.ReleaseLocks(open);
  }

  /** Any run of requests on one file: what the table holds and who is asleep is what the events make of it one by one,
      no lock stands behind one that should have kept it out, and nobody sleeps on a range that is free. */
  method Run(events: seq<Event>) returns (table: seq<Lock>, asleep: set<Sleeper>, closed: set<nat>)
    ensures table == After(events).locks && asleep == After(events).asleep && closed == After(events).closed
    ensures Ordered(table)
    ensures forall s | s in asleep && s.channel !in closed :: Conflict(table, s.claim)
  {
    hide Conflict, Ordered, Picture.Next;
    var f := new FileState();
    for i := 0 to |events|
      invariant fresh(f) && f.Valid() && Now(f) == After(events[..i])
    {
      Step(f, events[i]);
      assert events[..i + 1][..i] == events[..i];
    }
    assert events[..|events|] == events;
    return f.locks, f.asleep, f.closed;
  }
}
