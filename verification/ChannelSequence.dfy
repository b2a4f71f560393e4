/** The counters that tell the requests sent before a client reconnected a channel from those sent after it (conn.go). */
module ChannelSequence {
  import opened Bytes

  const WRAP: nat := 0x1_0000

  datatype Status = Ok | FileNotAvailable

  /** Whether the command changes the file: WRITE, SET_INFO or IOCTL. */
  datatype Command = Write | SetInfo | Ioctl | Other {
    predicate Modifies() { !Other? }
  }

  /** The 16-bit difference. */
  function Diff(a: uint16, b: uint16): uint16 {
    (a - b) % WRAP
  }

  /** It is how far `a` is ahead of `b`, all the way round if need be. */
  lemma DiffIsAhead(a: uint16, b: uint16)
    ensures Diff(a, b) == if b <= a then a - b else a + WRAP - b
  {
  }

  /** The requests counted at sequence `e`, and those counted before it. */
  ghost function At(counted: map<nat, nat>, e: nat): set<nat> {
    set id | id in counted && counted[id] == e
  }

  ghost function Before(counted: map<nat, nat>, e: nat): set<nat> {
    set id | id in counted && counted[id] < e
  }

  /** How many there are of each is what the counters say. */
  ghost predicate Exact(counted: map<nat, nat>, e: nat, current: nat, previous: nat) {
    current == |At(counted, e)| && previous == |Before(counted, e)|
  }

  lemma CountedOne(counted: map<nat, nat>, id: nat, e: nat)
    requires id !in counted
    ensures |At(counted[id := e], e)| == |At(counted, e)| + 1 && Before(counted[id := e], e) == Before(counted, e)
  {
    assert At(counted[id := e], e) == At(counted, e) + {id};
  }

  /** When the client moves on, everything counted so far is counted before. */
  lemma MovedOn(counted: map<nat, nat>, e: nat, e': nat)
    requires e < e' && forall id | id in counted :: counted[id] <= e
    ensures |Before(counted, e')| == |Before(counted, e)| + |At(counted, e)| && At(counted, e') == {}
  {
    assert Before(counted, e') == Before(counted, e) + At(counted, e);
  }

  lemma ReleasedOne(counted: map<nat, nat>, id: nat, e: nat)
    requires id in counted && counted[id] <= e
    ensures counted[id] == e ==> |At(counted - {id}, e)| == |At(counted, e)| - 1 && Before(counted - {id}, e) == Before(counted, e)
    ensures counted[id] < e ==> |Before(counted - {id}, e)| == |Before(counted, e)| - 1 && At(counted - {id}, e) == At(counted, e)
  {
    if counted[id] == e {
      assert At(counted, e) == At(counted - {id}, e) + {id};
    } else {
      assert Before(counted, e) == Before(counted - {id}, e) + {id};
    }
  }

  /** The request was counted a whole round of the 16-bit sequence ago, so that its sequence looks like the current one. */
  ghost predicate LooksCurrent(counted: map<nat, nat>, id: nat, e: nat) {
    id in counted && counted[id] < e && counted[id] % WRAP == e % WRAP
  }

  class Open {
    var channelSequence: uint16
    var outstandingRequestCount: nat
    var outstandingPreviousRequestCount: nat

    /** The requests counted and not yet answered, with the sequence each carries. */
    var requestOpens: map<nat, uint16>

    /** The sequence without wrap-around, and that of each counted request. */
    ghost var epoch: nat
    ghost var counted: map<nat, nat>

    ghost predicate Valid()
      reads this
    {
      && epoch % WRAP == channelSequence && counted.Keys == requestOpens.Keys
      && forall id | id in counted :: counted[id] <= epoch && requestOpens[id] == counted[id] % WRAP
    }

    /** The counters are the numbers of unanswered requests at the current sequence and at older ones. */
    ghost predicate CountsExactly()
      reads this
    {
      Exact(counted, epoch, outstandingRequestCount, outstandingPreviousRequestCount)
    }

    constructor (sequence: uint16)
      ensures Valid() && CountsExactly() && channelSequence == sequence && counted == map[] && epoch == sequence
    {
      channelSequence, outstandingRequestCount, outstandingPreviousRequestCount, requestOpens := sequence, 0, 0, map[];
      epoch, counted := sequence, map[];
    }

    /** A request on the open. It is counted if it belongs to the current sequence or a newer one and, when it is a
        replay, no older request is unanswered; one that is not counted is refused if it would change the file. */
    method Verify(id: nat, sequence: uint16, replay: bool, command: Command) returns (status: Status)
      requires Valid() && id !in requestOpens
      modifies this
      ensures Valid() && (old(CountsExactly()) ==> CountsExactly())
      ensures Diff(sequence, old(channelSequence)) > 0x7fff ==>
                epoch == old(epoch) && counted == old(counted) && (status == Ok <==> command == Other)
      ensures Diff(sequence, old(channelSequence)) <= 0x7fff ==>
                && epoch == old(epoch) + Diff(sequence, old(channelSequence))
                && (counted == old(counted)[id := epoch] || counted == old(counted))
                && (old(CountsExactly()) ==> (id in counted <==> !replay || Before(old(counted), epoch) == {}))
                && (status == Ok <==> id in counted || command == Other)
    {
      var diff := Diff(sequence, channelSequence);
      var take := false;
      if diff == 0 {
        take := !replay || outstandingPreviousRequestCount == 0;
        if take {
          outstandingRequestCount := outstandingRequestCount + 1;
        }
      } else if diff <= 0x7fff {
        MovedOn(counted, epoch, epoch + diff);
        epoch := epoch + diff;
        outstandingPreviousRequestCount := outstandingPreviousRequestCount + outstandingRequestCount;
        channelSequence := sequence;
        take := !replay || outstandingPreviousRequestCount == 0;
        outstandingRequestCount := if take then 1 else 0;
      }
      if take {
        CountedOne(counted, id, epoch);
        counted := counted[id := epoch];
        requestOpens := requestOpens[id := sequence];
        return Ok;
      }
      status := if command.Modifies() then FileNotAvailable else Ok;
    }

    /** The answer to a request goes out. The counters stay exact exactly if the request is not one from a whole round of
        the sequence ago; answering again does nothing. */
    method Release(id: nat)
      requires Valid()
      modifies this`outstandingRequestCount, this`outstandingPreviousRequestCount, this`requestOpens, this`counted
      ensures Valid() && counted == old(counted) - {id}
      ensures id !in old(counted) ==> CountsExactly() == old(CountsExactly())
      ensures old(CountsExactly()) ==> (CountsExactly() <==> !old(LooksCurrent(counted, id, epoch)))
    {
      if id !in requestOpens {
        assert counted - {id} == counted;
        return;
      }
      var sequence := requestOpens[id];
      ReleasedOne(counted, id, epoch);
      requestOpens := requestOpens - {id};
      counted := counted - {id};
      if sequence == channelSequence {
        if outstandingRequestCount > 0 {
          outstandingRequestCount := outstandingRequestCount - 1;
        }
      } else if outstandingPreviousRequestCount > 0 {
        outstandingPreviousRequestCount := outstandingPreviousRequestCount - 1;
      }
    }
  }

  datatype Event =
    | Request(id: nat, sequence: uint16, replay: bool, command: Command)
    | Answered(id: nat)

  /** What is to be counted: the sequence without wrap-around, and the unanswered requests that were counted, each with the
      sequence it was counted at. */
  datatype Track = Track(epoch: nat, counted: map<nat, nat>)

  ghost function Next(t: Track, e: Event): Track {
    match e
    case Answered(id) => t.(counted := t.counted - {id})
    case Request(id, sequence, replay, _) =>
      var diff := Diff(sequence, t.epoch % WRAP);
      if id in t.counted || diff > 0x7fff then t
      else if replay && Before(t.counted, t.epoch + diff) != {} then t.(epoch := t.epoch + diff)
      else Track(t.epoch + diff, t.counted[id := t.epoch + diff])
  }

  ghost function After(sequence: uint16, events: seq<Event>): Track {
    if events == [] then Track(sequence, map[]) else Next(After(sequence, events[..|events| - 1]), events[|events| - 1])
  }

  /** No request is answered a whole round of the sequence, 65536 of them, after it was counted. */
  ghost predicate InTime(sequence: uint16, events: seq<Event>) {
    forall i | 0 <= i < |events| :: OneInTime(After(sequence, events[..i]), events[i])
  }

  ghost predicate OneInTime(t: Track, e: Event) {
    e.Answered? && e.id in t.counted ==> t.epoch < t.counted[e.id] + WRAP
  }

  /** A replay that was let change the file found no older request unanswered. */
  ghost predicate Overtakes(t: Track, e: Event, status: Option<Status>) {
    && e.Request? && e.replay && e.command != Other && status == Some(Ok)
    && Before(t.counted, Next(t, e).epoch) != {}
  }

  ghost predicate Tracks(o: Open, t: Track)
    reads o
  {
    o.Valid() && o.CountsExactly() && o.epoch == t.epoch && o.counted == t.counted
  }

  /** One event, on an open that counts exactly. */
  method Step(o: Open, e: Event, ghost t: Track) returns (status: Option<Status>)
    requires Tracks(o, t) && OneInTime(t, e)
    modifies o
    ensures Tracks(o, Next(t, e)) && !Overtakes(t, e, status)
  {
    hide At, Before, Exact;
    status := None;
    match e
    case Request(id, sequence, replay, command) =>
      if id !in o.requestOpens {
        var s := o.Verify(id, sequence, replay, command);
        status := Some(s);
      }
    case Answered(id) =>
      RoundAgoOnly(o.counted, id, o.epoch);
      o.Release(id);
  }

  /** Any run of requests and answers on one open, if every answer is in time: the counters are exactly the numbers of
      unanswered requests at the current sequence and at older ones, and no replay that may change the file overtakes an
      older request. */
  method Run(sequence: uint16, events: seq<Event>) returns (current: nat, previous: nat, statuses: seq<Option<Status>>)
    requires InTime(sequence, events)
    ensures var t := After(sequence, events); current == |At(t.counted, t.epoch)| && previous == |Before(t.counted, t.epoch)|
    ensures |statuses| == |events|
    ensures forall i | 0 <= i < |events| :: !Overtakes(After(sequence, events[..i]), events[i], statuses[i])
  {
    hide At, Before, Next, Overtakes, OneInTime;
    var o := new Open(sequence);
    statuses := [];
    for i := 0 to |events|
      invariant fresh(o) && Tracks(o, After(sequence, events[..i])) && |statuses| == i
      invariant forall j | 0 <= j < i :: !Overtakes(After(sequence, events[..j]), events[j], statuses[j])
    {
      assert events[..i + 1][..i] == events[..i];
      var status := Step(o, events[i], After(sequence, events[..i]));
      statuses := statuses + [status];
    }
    assert events[..|events|] == events;
    return o.outstandingRequestCount, o.outstandingPreviousRequestCount, statuses;
  }

  lemma RoundAgoOnly(counted: map<nat, nat>, id: nat, e: nat)
    ensures LooksCurrent(counted, id, e) ==> counted[id] + WRAP <= e
  {
  }

  method HalfRound() returns (o: Open)
    ensures fresh(o) && o.Valid() && o.CountsExactly() && o.epoch == 0x8000 - 1
    ensures o.counted == map[0 := 0, 1 := 0x8000 - 1]
  {
    hide At, Before, Exact;
    o := new Open(0);
    var _ := o.Verify(0, 0, false, Write);
    var _ := o.Verify(1, 0x8000 - 1, false, Write);
  }

  method WholeRound() returns (o: Open)
    ensures fresh(o) && o.Valid() && o.CountsExactly() && 0 in o.counted && o.counted[0] == 0 && o.epoch == WRAP
  {
    hide At, Before, Exact;
    o := HalfRound();
    var _ := o.Verify(2, 0x1_0000 - 2, false, Write);
    var _ := o.Verify(3, 0, false, Write);
  }

  /** The counters go wrong when a request is answered after the sequence has come round to its number again. */
  method RoundAgo() returns (o: Open)
    ensures o.Valid() && !o.CountsExactly()
  {
    hide At, Before, Exact;
    o := WholeRound();
    o.Release(0);
  }
}
