/** A lease (lease.go): the promise made to one client about one file, shared by every open it has on the
    file under one key. Each method is what happens under the lock of the lease.

    The ghost fields are the history of the lease: the channels handed to those who wait for a break, what
    each of them demanded, what the lease was left at when each channel was closed, and the timers started. */
module Leases {
  import opened Bytes

  /** A lease state is the set of its bits. */
  type Bits = set<nat>

  const READ_CACHING: nat := 0
  const HANDLE_CACHING: nat := 1
  const WRITE_CACHING: nat := 2
  const LEASE_STATES: Bits := {READ_CACHING, HANDLE_CACHING, WRITE_CACHING}

  /** A timer carries the number of the break it was started for; `of` is the channel that was in flight then. */
  datatype Timer = Timer(seqNo: nat, of: Option<nat>)

  datatype LeaseAck = LeaseKept(state: Bits) | NoLeaseBreak | LeaseNotAccepted

  /** What a lease is cut back to: without the write cache for one who only reads, nothing for one who changes
      the file. */
  function LeaseBreakTarget(current: Bits, sharedOK: bool): (to: Bits)
    ensures WRITE_CACHING !in to && to <= current && (!sharedOK ==> to == {})
    ensures sharedOK ==> current <= to + {WRITE_CACHING}
  {
    if sharedOK then current - {WRITE_CACHING} else {}
  }

  /** Whether a demand to keep no more than `to` is news to the holder: it takes something it has, and something it
      was not told to give up already. */
  predicate LeaseNews(state: Bits, breaking: bool, breakToState: Bits, to: Bits) {
    !(state <= to) && (breaking ==> !(breakToState <= to))
  }

  class Lease {
    const key: nat
    const clientGuid: nat
    const fileName: string

    var state: Bits
    var breakToState: Bits
    var breaking: bool
    var epoch: nat
    var opens: set<nat>
    var breakDone: Option<nat>
    var breakSeq: nat

    /** The channels made so far are numbered below `made`. */
    var made: nat

    /** What the lease was left at when each channel was closed. */
    ghost var closed: map<nat, Bits>

    /** The channels handed out, with what the one who waits demanded. */
    ghost var handed: set<(nat, Bits)>

    var timers: set<Timer>

    /** A channel exists exactly while a break is in flight, and every other one ever made is closed. */
    ghost predicate Channels()
      reads this
    {
      && (breaking <==> breakDone.Some?)
      && breakSeq == made && (breaking ==> made > 0 && breakDone == Some(made - 1))
      && (forall c: nat :: c in closed <==> c < made && breakDone != Some(c))
    }

    /** No waiter is let go with the lease above what it demanded. */
    ghost predicate Waits()
      reads this
    {
      forall w | w in handed :: w.0 < made && (if breakDone == Some(w.0) then breakToState <= w.1
                                               else w.0 in closed && closed[w.0] <= w.1)
    }

    ghost predicate Timers()
      reads this
    {
      forall t | t in timers :: t.seqNo <= breakSeq && (t.of.Some? ==> t.seqNo == t.of.value + 1)
                                && (t.of.None? && t.seqNo > 0 ==> t.seqNo - 1 in closed)
    }

    ghost predicate Valid()
      reads this
    {
      Channels() && Waits() && Timers() && epoch < 0x1_0000 && (breaking ==> WRITE_CACHING !in breakToState && state != {})
    }

    /** The break in flight has a timer running. */
    ghost predicate Timed()
      reads this`breakSeq, this`breakDone, this`timers
    {
      Timer(breakSeq, breakDone) in timers
    }

    ghost predicate Active()
      reads this
    {
      state != {} || breaking
    }

    constructor (key: nat, clientGuid: nat, fileName: string)
      ensures Valid() && !Active() && opens == {} && this.clientGuid == clientGuid && this.fileName == fileName
      ensures handed == {} && this.key == key
    {
      this.key, this.clientGuid, this.fileName := key, clientGuid, fileName;
      state, breakToState, breaking, epoch, opens, breakDone, breakSeq := {}, {}, false, 1, {}, None, 0;
      made, closed, handed, timers := 0, map[], {}, {};
    }

    /** It has been told to give something up, or more than it had been. */
    twostate predicate Lowered()
      reads this`breaking, this`breakToState
    {
      breaking && (old(breaking) ==> breakToState != old(breakToState))
    }

    twostate lemma LoweredIs()
      ensures Lowered() <==> breaking && (old(breaking) ==> breakToState != old(breakToState))
    {
    }

    /** Moves the lease to being cut back to `to`. Nothing to wait for means that the lease has no more than `to`;
        otherwise the channel is the one in flight, and the break goes at least as far as `to`. */
    method StartBreak(to: Bits) returns (wait: Option<nat>, started: bool)
      requires Valid() && WRITE_CACHING !in to
      modifies this`breakToState, this`breaking, this`epoch, this`breakDone, this`breakSeq, this`made, this`handed
      ensures Valid() && wait.None? == (state <= to)
      ensures wait.None? ==> !started && handed == old(handed) && made == old(made) && breaking == old(breaking)
      ensures wait.Some? ==> breaking && breakDone == wait && handed == old(handed) + {(wait.value, to)}
                             && breakToState == (if old(breaking) then old(breakToState) * to else to)
      ensures started <==> old(LeaseNews(state, breaking, breakToState, to))
      ensures started <==> breaking && (old(breaking) ==> breakToState != old(breakToState))
      ensures wait.None? ==> breakToState == old(breakToState)
      ensures epoch == if started then (old(epoch) + 1) % 0x1_0000 else old(epoch)
      ensures old(breaking) ==> breakDone == old(breakDone) && breakSeq == old(breakSeq)
    {
      if state == {} || state <= to {
        return None, false;
      }
      if breaking {
        if breakToState <= to {
          handed := handed + {(breakDone.value, to)};
          assert breakToState == breakToState * to;
          return breakDone, false;
        }
        breakToState := breakToState * to;
        epoch := (epoch + 1) % 0x1_0000;
        handed := handed + {(breakDone.value, to)};
        return breakDone, true;
      }
      breaking := true;
      breakToState := to;
      epoch := (epoch + 1) % 0x1_0000;
      breakSeq := breakSeq + 1;
      breakDone, made := Some(made), made + 1;
      handed := handed + {(breakDone.value, to)};
      return breakDone, true;
    }

    /** Ends the break in flight, if there is one, and lets go of those who wait for it. */
    method FinishBreak(state': Bits) returns (ended: bool)
      requires Valid() && (breaking ==> state' <= breakToState)
      modifies this`state, this`breaking, this`breakDone, this`closed
      ensures Valid() && !breaking && ended == old(breaking)
      ensures state == (if ended then state' else old(state))
      ensures closed == if ended then old(closed)[old(breakDone).value := state'] else old(closed)
    {
      if !breaking {
        return false;
      }
      state := state';
      breaking := false;
      closed := closed[breakDone.value := state];
      breakDone := None;
      return true;
    }

    /** A timer runs out. It ends the break it was started for and no other. */
    method ExpireBreak(t: Timer) returns (ended: bool)
      requires Valid() && t in timers
      modifies this`state, this`breaking, this`breakDone, this`closed, this`timers
      ensures Valid() && timers == old(timers) - {t} && (ended <==> old(breakDone).Some? && old(breakDone) == t.of)
      ensures ended ==> state == {} && !breaking && closed == old(closed)[t.of.value := {}]
      ensures !ended ==> state == old(state) && breaking == old(breaking) && breakDone == old(breakDone) && closed == old(closed)
    {
      timers := timers - {t};
      if breakSeq != t.seqNo {
        return false;
      }
      ended := FinishBreak({});
    }

    /** Tells the client, and either ends the break there and then or starts the clock on its answer. */
    method Send(delivered: bool)
      requires Valid()
      modifies this`state, this`breaking, this`breakDone, this`closed, this`timers
      ensures Valid()
      ensures old(breaking) && (!delivered || old(state) == {READ_CACHING}) ==>
                !breaking && state == if delivered then breakToState else {}
      ensures !(old(breaking) && (!delivered || old(state) == {READ_CACHING})) ==>
                state == old(state) && breaking == old(breaking) && breakDone == old(breakDone) && closed == old(closed)
      ensures timers == if delivered && old(state) != {READ_CACHING} then old(timers) + {Timer(breakSeq, breakDone)}
                        else old(timers)
    {
      if !delivered {
        var _ := FinishBreak({});
      } else if state == {READ_CACHING} {
        var _ := FinishBreak(breakToState);
      } else {
        timers := timers + {Timer(breakSeq, breakDone)};
      }
    }

    /** The client answers. It may keep no more than it was last told it could. */
    method Acknowledge(kept: Bits) returns (r: LeaseAck)
      requires Valid()
      modifies this`state, this`breaking, this`breakDone, this`closed
      ensures Valid()
      ensures r == NoLeaseBreak <==> !old(breaking)
      ensures r == LeaseNotAccepted <==> old(breaking) && !(kept <= breakToState)
      ensures r.LeaseKept? ==> r == LeaseKept(kept) && state == kept && !breaking && WRITE_CACHING !in state
      ensures !r.LeaseKept? ==> state == old(state) && breaking == old(breaking) && breakDone == old(breakDone) && closed == old(closed)
    {
      if !breaking {
        return NoLeaseBreak;
      }
      if !(kept <= breakToState) {
        return LeaseNotAccepted;
      }
      var _ := FinishBreak(kept);
      return LeaseKept(kept);
    }

    /** An open joins, and the lease is set to what was granted, in the middle of a break or not. */
    method Join(open: nat, granted: Bits)
      requires Valid() && granted != {}
      modifies this`state, this`opens
      ensures Valid() && state == granted && opens == old(opens) + {open}
    {
      state := granted;
      opens := opens + {open};
    }

    /** An open leaves. The last one to leave takes everything with it. */
    method Leave(open: nat)
      requires Valid()
      modifies this`state, this`opens, this`breaking, this`breakDone, this`closed
      ensures Valid() && opens == old(opens) - {open}
      ensures opens == {} ==> !Active()
      ensures opens != {} ==> state == old(state) && breaking == old(breaking) && breakDone == old(breakDone) && closed == old(closed)
    {
      opens := opens - {open};
      if |opens| > 0 {
        return;
      }
      state := {};
      if breaking {
        breaking := false;
        closed := closed[breakDone.value := state];
        breakDone := None;
      }
    }
  }
}
