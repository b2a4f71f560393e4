/** An open and the oplock it holds (oplock.go). Each method is what happens under the lock of the open; the
    history kept beside the fields is the one a lease keeps. */
module Oplocks {
  import opened Bytes
  import Leases

  const LEVEL_NONE: nat := 0
  const LEVEL_II: nat := 1
  const LEVEL_EXCLUSIVE: nat := 8
  const LEVEL_BATCH: nat := 9
  const LEVEL_LEASE: nat := 0xff

  datatype OplockState = NoOplock | Held | Breaking

  datatype OplockAck = OplockKept(level: nat) | NoOplockBreak | LeaseLevel | InvalidProtocol | LevelNotAccepted

  /** What an oplock is cut back to: a read cache for one who only reads, nothing for one who changes the file. */
  function OplockBreakTarget(sharedOK: bool): (to: nat)
    ensures to <= LEVEL_II && (to == LEVEL_NONE <==> !sharedOK)
  {
    if sharedOK then LEVEL_II else LEVEL_NONE
  }

  /** The levels a client may answer with. */
  predicate ValidAnswer(held: nat, level: nat) {
    if held == LEVEL_BATCH then level == LEVEL_EXCLUSIVE || level == LEVEL_II || level == LEVEL_NONE
    else if held == LEVEL_EXCLUSIVE then level == LEVEL_II || level == LEVEL_NONE
    else held == LEVEL_II && level == LEVEL_NONE
  }

  /** They are the levels below the one it held. */
  lemma AnswersBelow(held: nat, level: nat)
    requires held in {LEVEL_II, LEVEL_EXCLUSIVE, LEVEL_BATCH}
    ensures ValidAnswer(held, level) <==> level in {LEVEL_NONE, LEVEL_II, LEVEL_EXCLUSIVE} && level < held
  {
  }

  /** Whether a demand to come down to `to` is news to the holder: it goes below what it has, or below what it was
      last told. */
  predicate OplockNews(state: OplockState, level: nat, breakTo: nat, to: nat) {
    match state
    case Held => to < level
    case Breaking => to < breakTo
    case NoOplock => false
  }

  class Open {
    const id: nat
    const file: FileKey

    /** The client that made the open; zero is no client in particular. */
    const clientGuid: nat

    var level: nat
    var state: OplockState
    var breakTo: nat
    var breakSeq: nat
    var breakDone: Option<nat>
    var lease: Leases.Lease?

    /** The channels made so far are numbered below `made`. */
    var made: nat

    /** The level the open was left at when each channel was closed. */
    ghost var closed: map<nat, nat>

    /** The channels handed out, with the level demanded. */
    ghost var handed: set<(nat, nat)>

    var timers: set<Leases.Timer>

    /** A channel exists exactly while a break is in flight, and every other one ever made is closed. */
    ghost predicate Channels()
      reads this`state, this`breakSeq, this`breakDone, this`made, this`closed
    {
      && (state == Breaking <==> breakDone.Some?)
      && breakSeq == made && (breakDone.Some? ==> made > 0 && breakDone == Some(made - 1))
      && (forall c: nat :: c in closed <==> c < made && breakDone != Some(c))
    }

    /** No waiter is let go with the oplock above what it demanded. */
    ghost predicate Waits()
      reads this`breakTo, this`breakDone, this`made, this`closed, this`handed
    {
      forall w | w in handed :: w.0 < made && (if breakDone == Some(w.0) then breakTo <= w.1
                                               else w.0 in closed && closed[w.0] <= w.1)
    }

    ghost predicate Timers()
      reads this`breakSeq, this`closed, this`timers
    {
      forall t | t in timers :: t.seqNo <= breakSeq && (t.of.Some? ==> t.seqNo == t.of.value + 1)
                                && (t.of.None? && t.seqNo > 0 ==> t.seqNo - 1 in closed)
    }

    ghost predicate Valid()
      reads this`level, this`state, this`breakTo, this`breakSeq, this`breakDone, this`made, this`closed, this`handed, this`timers
    {
      && Channels() && Waits() && Timers()
      && level in {LEVEL_NONE, LEVEL_II, LEVEL_EXCLUSIVE, LEVEL_BATCH}
      && (state == NoOplock <==> level == LEVEL_NONE)
      && (state == Breaking ==> breakTo <= LEVEL_II && breakTo < level)
    }

    /** The break in flight has a timer running. */
    ghost predicate Timed()
      reads this`breakSeq, this`breakDone, this`timers
    {
      Leases.Timer(breakSeq, breakDone) in timers
    }

    constructor (id: nat, file: FileKey, clientGuid: nat)
      ensures Valid() && state == NoOplock && lease == null && handed == {}
      ensures this.id == id && this.file == file && this.clientGuid == clientGuid
    {
      this.id, this.file, this.clientGuid := id, file, clientGuid;
      level, state, breakTo, breakSeq, breakDone, lease := LEVEL_NONE, NoOplock, LEVEL_NONE, 0, None, null;
      made, closed, handed, timers := 0, map[], {}, {};
    }

    /** It has been told to come down, or further down than it had been. */
    twostate predicate Lowered()
      reads this`state, this`breakTo
    {
      state == Breaking && (old(state) == Breaking ==> breakTo != old(breakTo))
    }

    twostate lemma LoweredIs()
      ensures Lowered() <==> state == Breaking && (old(state) == Breaking ==> breakTo != old(breakTo))
    {
    }

    /** Moves the open to giving its oplock up. Nothing to wait for means that it holds no more than `to`;
        otherwise the channel is the one in flight, and the break goes at least as far down as `to`. */
    method StartBreak(to: nat) returns (wait: Option<nat>, started: bool)
      requires Valid() && to <= LEVEL_II
      modifies this`state, this`breakTo, this`breakSeq, this`breakDone, this`made, this`handed
      ensures Valid() && (state == NoOplock) == (old(state) == NoOplock)
      ensures wait.None? <==> old(state) != Breaking && level <= to
      ensures wait.None? ==> !started && state == old(state) && handed == old(handed) && made == old(made)
      ensures wait.Some? ==> state == Breaking && breakDone == wait && handed == old(handed) + {(wait.value, to)}
                             && breakTo == (if old(state) == Breaking && old(breakTo) <= to then old(breakTo) else to)
      ensures started <==> old(OplockNews(state, level, breakTo, to))
      ensures started <==> state == Breaking && (old(state) == Breaking ==> breakTo != old(breakTo))
      ensures old(state) == Breaking ==> breakDone == old(breakDone) && breakSeq == old(breakSeq)
    {
      match state
      case Held =>
        if to >= level {
          return None, false;
        }
        state := Breaking;
        breakTo := to;
        breakSeq := breakSeq + 1;
        breakDone, made := Some(made), made + 1;
        handed := handed + {(breakDone.value, to)};
        return breakDone, true;
      case Breaking =>
        handed := handed + {(breakDone.value, to)};
        if to >= breakTo {
          return breakDone, false;
        }
        breakTo := to;
        return breakDone, true;
      case NoOplock =>
        return None, false;
    }

    /** Ends the break in flight, if there is one, and lets go of those who wait for it. */
    method FinishBreak(level': nat) returns (ended: bool)
      requires Valid() && level' in {LEVEL_NONE, LEVEL_II} && (state == Breaking ==> level' <= breakTo)
      modifies this`level, this`state, this`breakDone, this`closed
      ensures Valid() && state != Breaking && ended == (old(state) == Breaking)
      ensures level == if ended then level' else old(level)
      ensures closed == if ended then old(closed)[old(breakDone).value := level'] else old(closed)
    {
      if state != Breaking {
        return false;
      }
      level := level';
      state := if level == LEVEL_NONE then NoOplock else Held;
      closed := closed[breakDone.value := level];
      breakDone := None;
      return true;
    }

    /** A timer runs out. It ends the break it was started for and no other. */
    method ExpireBreak(t: Leases.Timer) returns (ended: bool)
      requires Valid() && t in timers
      modifies this`level, this`state, this`breakDone, this`closed, this`timers
      ensures Valid() && timers == old(timers) - {t} && (ended <==> old(breakDone).Some? && old(breakDone) == t.of)
      ensures ended ==> level == LEVEL_NONE && closed == old(closed)[t.of.value := LEVEL_NONE]
      ensures !ended ==> level == old(level) && state == old(state) && breakDone == old(breakDone) && closed == old(closed)
    {
      timers := timers - {t};
      if breakSeq != t.seqNo {
        return false;
      }
      ended := FinishBreak(LEVEL_NONE);
    }

    /** Takes the oplock away, and with it the break in flight. */
    method Release()
      requires Valid()
      modifies this`level, this`state, this`breakDone, this`closed
      ensures Valid() && state == NoOplock
      ensures closed == if old(breakDone).Some? then old(closed)[old(breakDone).value := LEVEL_NONE] else old(closed)
    {
      level := LEVEL_NONE;
      state := NoOplock;
      if breakDone.Some? {
        closed := closed[breakDone.value := level];
        breakDone := None;
      }
    }

    /** Tells the client, and either ends the break there and then or starts the clock on its answer. */
    method Send(delivered: bool)
      requires Valid()
      modifies this`level, this`state, this`breakDone, this`closed, this`timers
      ensures Valid()
      ensures old(state) == Breaking && (!delivered || old(level) == LEVEL_II) ==> state == NoOplock
      ensures !(old(state) == Breaking && (!delivered || old(level) == LEVEL_II)) ==>
                level == old(level) && state == old(state) && breakDone == old(breakDone) && closed == old(closed)
      ensures timers == if delivered && old(level) != LEVEL_II then old(timers) + {Leases.Timer(breakSeq, breakDone)}
                        else old(timers)
    {
      if !delivered || level == LEVEL_II {
        var _ := FinishBreak(LEVEL_NONE);
      } else {
        timers := timers + {Leases.Timer(breakSeq, breakDone)};
      }
    }

    /** The client answers. An answer that makes no sense costs it the oplock; one above the level it was last told
        leaves the break standing. */
    method Acknowledge(answer: nat) returns (r: OplockAck)
      requires Valid()
      modifies this`level, this`state, this`breakDone, this`closed
      ensures Valid()
      ensures r == NoOplockBreak <==> old(state) != Breaking
      ensures r == LeaseLevel <==> old(state) == Breaking && answer == LEVEL_LEASE
      ensures r.OplockKept? <==> old(state) == Breaking && answer <= breakTo
      ensures r == LevelNotAccepted <==>
              old(state) == Breaking && breakTo < answer < old(level) && answer in {LEVEL_II, LEVEL_EXCLUSIVE}
      ensures r == InvalidProtocol <==>
              old(state) == Breaking && answer != LEVEL_LEASE
              && !(answer in {LEVEL_NONE, LEVEL_II, LEVEL_EXCLUSIVE} && answer < old(level))
      ensures r.OplockKept? ==> r == OplockKept(answer) && level == answer <= breakTo && state != Breaking
      ensures r == LeaseLevel || r == InvalidProtocol ==> state == NoOplock
      ensures r == NoOplockBreak || r == LevelNotAccepted ==>
                level == old(level) && state == old(state) && breakDone == old(breakDone) && closed == old(closed)
    {
      if state != Breaking {
        return NoOplockBreak;
      }
      if answer == LEVEL_LEASE {
        var _ := FinishBreak(LEVEL_NONE);
        return LeaseLevel;
      }
      if !ValidAnswer(level, answer) {
        var _ := FinishBreak(LEVEL_NONE);
        return InvalidProtocol;
      }
      if answer > breakTo {
        return LevelNotAccepted;
      }
      var _ := FinishBreak(answer);
      return OplockKept(answer);
    }

    /** The open takes its share of a lease, or lets go of it. */
    method ShareLease(l: Leases.Lease?)
      requires Valid()
      modifies this`lease
      ensures Valid() && lease == l
    {
      lease := l;
    }

    /** The open is given an oplock. One in the middle of giving one up, or holding one, must not be. */
    method Grant(granted: nat)
      requires Valid() && state == NoOplock && granted in {LEVEL_II, LEVEL_EXCLUSIVE, LEVEL_BATCH}
      modifies this`level, this`state
      ensures Valid() && level == granted && state == Held
    {
      level := granted;
      state := Held;
    }
  }
}
