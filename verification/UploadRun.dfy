/** Whole runs of an upload: any sequence of writes, reads, settings of the end of the file and landings of
    parts, followed by the flush that the last close brings. What becomes of a run is told from its events alone. */
module UploadRun {
  import opened Bytes
  import opened UploadQueue
  import opened UploadParts
  import opened Uploading

  datatype Event =
    | ClientWrite(offset: nat, data: seq<byte>)
    | ClientRead(offset: nat, length: nat)
    | ClientEnd(eof: nat)
    | PartLands(number: nat)

  /** How a run ends: the upload is called off on the way, or flushed. */
  datatype Outcome = CalledOff | Flushed(result: FlushResult)

  /** The size of a part, how much of the front of the file is kept, and the numbers of the parts that fail on their way. */
  datatype Setup = Setup(maxLength: nat, headKept: nat, failing: set<nat>)

  /** What a run has come to: the file as the client wrote it and as the upload has it, the queue, the end of what is joined,
      how many parts have been numbered, where those on their way and those that landed end, whether one failed, the part
      whose bytes are kept, and the front of the file that is. */
  datatype Progress = Progress(file: File, held: File, pending: Queue, next: nat, count: nat, flying: map<nat, nat>, ends: set<nat>,
                               failed: bool, kept: Chunk, head: seq<byte>)

  /** The end of what has been sent in parts. */
  ghost function Sent(p: Progress, s: Setup): nat
    requires s.maxLength > 0
  {
    Boundary(p.next, s.maxLength)
  }

  /** The run ends with this event: a part has failed and the client writes on, it writes over what has been sent, or it
      empties a file of which something has been sent. */
  ghost predicate CallsOff(p: Progress, e: Event, s: Setup)
    requires s.maxLength > 0
  {
    || (e.ClientWrite? && (p.failed || e.offset < Sent(p, s)))
    || (e.ClientEnd? && e.eof == 0 && Sent(p, s) > 0)
  }

  ghost predicate InKept(p: Progress, n: nat) {
    InsideKept(p.kept.data, p.kept.offset, n)
  }

  /** The end is moved: to a place not sent yet, to where a part that landed ends, or into the part kept. */
  ghost predicate MovesEnd(p: Progress, eof: nat, s: Setup)
    requires s.maxLength > 0
  {
    eof < p.next && (Sent(p, s) <= eof || (eof > 0 && CanCut(p.kept, p.ends, p.flying, eof, s.failing)))
  }

  /** The event takes effect. */
  ghost predicate Takes(p: Progress, e: Event, s: Setup)
    requires s.maxLength > 0
  {
    e.ClientEnd? ==> MovesEnd(p, e.eof, s)
  }

  /** The last full part of a file that has been joined up to `next`. */
  ghost function LastFull(held: File, next: nat, p: nat): Chunk
    requires p > 0
  {
    var end := Boundary(next, p);
    var at := if end < p then 0 else end - p;
    Chunk(at, Slice(held, at, p))
  }

  ghost function AfterWrite(p: Progress, offset: nat, data: seq<byte>, s: Setup): Progress
    requires s.maxLength > 0
  {
    var held := Laid(p.held, p.pending, p.next, offset, data);
    var next := NextAfter(held, p.next, offset, |data|);
    var more := if next < Sent(p, s) then 0 else next - Sent(p, s);
    var parts := PartsIn(more, s.maxLength);
    Progress(Overlay(p.file, offset, data), held,
             if offset < p.next then p.pending else Past(p.pending[offset := data], next),
             next, p.count + parts, p.flying + Cuts(p.count, Sent(p, s), more, s.maxLength), p.ends, p.failed,
             if parts == 0 then p.kept else LastFull(held, next, s.maxLength),
             HeadNext(p.head, s.headKept, offset, data))
  }

  ghost function CutOff(p: Progress, eof: nat): Progress {
    p.(file := CutAt(p.file, eof), held := CutAt(p.held, eof), next := eof)
  }

  ghost function AfterEnd(p: Progress, eof: nat, s: Setup): Progress
    requires s.maxLength > 0
  {
    var cut := MovesEnd(p, eof, s);
    if eof == 0 || Sent(p, s) <= eof then if cut then CutOff(p, eof).(pending := TrimQueue(p.pending, eof)) else p
    else
      var q := p.(flying := map[], failed := p.failed || p.flying.Keys * s.failing != {},
                  ends := EndsAfter(p.ends, p.flying, eof, s.failing, cut, s.maxLength));
      if cut then CutOff(q, eof).(pending := map[], kept := if InKept(p, eof) then Chunk(0, []) else p.kept) else q
  }

  ghost function AfterLanding(p: Progress, n: nat, s: Setup): Progress {
    if n !in p.flying then p
    else p.(flying := p.flying - {n}, ends := p.ends + (if n in s.failing then {} else {p.flying[n]}),
            failed := p.failed || n in s.failing)
  }

  /** What an event that does not end the run makes of it. */
  ghost function Next(p: Progress, e: Event, s: Setup): Progress
    requires s.maxLength > 0
  {
    match e
    case ClientWrite(offset, data) => AfterWrite(p, offset, data, s)
    case ClientEnd(eof) => AfterEnd(p, eof, s)
    case PartLands(n) => AfterLanding(p, n, s)
    case ClientRead(_, _) => p
  }

  ghost function After(events: seq<Event>, s: Setup): Progress
    requires s.maxLength > 0
  {
    if events == [] then Progress(map[], map[], map[], 0, 0, map[], {}, false, Chunk(0, []), [])
    else Next(After(events[..|events| - 1], s), events[|events| - 1], s)
  }

  lemma AfterNext(events: seq<Event>, i: nat, s: Setup)
    requires s.maxLength > 0 && i < |events|
    ensures After(events[..i + 1], s) == Next(After(events[..i], s), events[i], s)
  {
    assert events[..i + 1][..i] == events[..i];
  }

  // What a read is told

  /** What a read was told: the size the file reports, and the answer, if there was one. */
  datatype Told = Told(size: nat, answer: Option<seq<byte>>)

  /** The answer of the head, or else of the part kept, or else of the buffer. */
  ghost function Answer(p: Progress, offset: nat, length: nat, s: Setup): (r: Option<seq<byte>>)
    requires s.maxLength > 0
    ensures r.Some? ==> |r.value| == length
  {
    if offset + length <= |p.head| then Some(p.head[offset..offset + length])
    else if p.kept.offset <= offset && offset + length <= p.kept.End() then
      Some(p.kept.data[offset - p.kept.offset..offset - p.kept.offset + length])
    else if Sent(p, s) <= offset && offset + length <= p.next then Some(Slice(p.held, offset, length))
    else None
  }

  /** The part kept begins where what stands ends: it is one that was cut off. */
  ghost predicate Stale(p: Progress, s: Setup)
    requires s.maxLength > 0
  {
    p.kept.data != [] && p.kept.offset == Sent(p, s)
  }

  /** A read is told the size and given that answer. Inside the size of a file the upload has as the client wrote it, the
      answer is what the file holds if it is the head's, and if it is another's unless the part kept was cut off. */
  ghost predicate ToldRight(p: Progress, e: Event, told: Told, s: Setup)
    requires s.maxLength > 0
  {
    e.ClientRead? ==>
      var end := e.offset + e.length;
      && told == Told(p.next, Answer(p, e.offset, e.length, s))
      && (p.held == p.file && told.answer.Some? && end <= p.next && (end <= |p.head| || !Stale(p, s)) ==>
          HoldsAt(p.file, e.offset, told.answer.value))
  }

  // When the upload has the file as the client wrote it

  /** The event is no write, or one that starts inside what is joined or may be queued. */
  ghost predicate InOrder(p: Progress, e: Event) {
    e.ClientWrite? ==> e.offset < p.next || Kept(p.pending, p.held, e.offset, e.data)
  }

  ghost predicate AllInOrder(events: seq<Event>, n: nat, s: Setup)
    requires s.maxLength > 0 && n <= |events|
  {
    forall i | 0 <= i < n :: InOrder(After(events[..i], s), events[i])
  }

  ghost predicate AsWritten(p: Progress) {
    p.held == p.file
  }

  /** After each of the first `n` events the upload has the file as the client wrote it. */
  ghost predicate AllAsWritten(events: seq<Event>, n: nat, s: Setup)
    requires s.maxLength > 0 && n <= |events|
  {
    forall i | 0 <= i <= n :: AsWritten(After(events[..i], s))
  }

  /** At every point up to `n` the upload has had the file as the client wrote it if and only if every write had been in
      order. */
  ghost predicate WrittenIfInOrder(events: seq<Event>, n: nat, s: Setup)
    requires s.maxLength > 0 && n <= |events|
  {
    forall k | 0 <= k <= n :: AllAsWritten(events, k, s) <==> AllInOrder(events, k, s)
  }

  ghost predicate Writes(e: Event, x: nat) {
    e.ClientWrite? && e.offset <= x < e.offset + |e.data|
  }

  /** No byte is written twice and the end of the file is never set. */
  ghost predicate WritesApart(events: seq<Event>) {
    && (forall e | e in events :: !e.ClientEnd?)
    && (forall i, j, x | 0 <= i < j < |events| && Writes(events[i], x) :: !Writes(events[j], x))
  }

  lemma FileNext(p: Progress, e: Event, s: Setup, x: nat)
    requires s.maxLength > 0 && x in Next(p, e, s).file
    ensures x in p.file || Writes(e, x)
  {
    hide Laid, NextAfter, Past, Cuts, PartsIn, LastFull, HeadNext, Boundary, TrimQueue;
  }

  lemma {:induction false} WrittenBySome(events: seq<Event>, n: nat, s: Setup, x: nat)
    requires s.maxLength > 0 && n <= |events| && x in After(events[..n], s).file
    ensures exists i :: 0 <= i < n && Writes(events[i], x)
  {
    hide Next;
    if n > 0 {
      AfterNext(events, n - 1, s);
      FileNext(After(events[..n - 1], s), events[n - 1], s, x);
      if !Writes(events[n - 1], x) {
        WrittenBySome(events, n - 1, s, x);
      }
    }
  }

  /** A write apart from all others brings only bytes that are new to the file. */
  lemma ApartIsNew(events: seq<Event>, n: nat, s: Setup, x: nat)
    requires s.maxLength > 0 && WritesApart(events) && n < |events| && Writes(events[n], x)
    ensures x !in After(events[..n], s).file
  {
    hide After;
    if x in After(events[..n], s).file {
      WrittenBySome(events, n, s, x);
      assert false;
    }
  }

  /** A write of new bytes lands past what was taken and clear of what is queued. */
  lemma NewBytesKept(q: Queue, file: File, from: nat, offset: nat, data: seq<byte>)
    requires data != [] && forall x | offset <= x < offset + |data| :: x !in file
    requires Shows(q, file, from) && Dense(file, from) && NoEmpty(q)
    ensures from <= offset && Kept(q, file, offset, data)
  {
    assert offset !in file;
    assert from <= offset;
    assert forall o: nat :: !Covers(q, o, offset);
    assert forall o: nat, x: nat :: Covers(q, o, x) && o <= offset <= x ==> Covers(q, o, offset);
    assert NotHidden(q, offset, data);
  }

  // The steps

  /** The upload is where the progress says. */
  ghost predicate At(u: Upload, p: Progress)
    reads u
  {
    && u.file == p.file && u.held == p.held && u.pending == p.pending && u.nextOffset == p.next
    && u.partCount == p.count && FlightEnds(u.inFlight) == p.flying && Ends(u.parts) == p.ends && u.partErr == p.failed
    && u.LastPart() == p.kept && u.head == p.head
  }

  ghost predicate Runs(u: Upload, p: Progress, s: Setup)
    reads u
  {
    u.Valid() && u.Settled() && At(u, p) && u.maxLength == s.maxLength && u.headKept == s.headKept
  }

  /** The part kept is the last full one. */
  lemma KeptIs(u: Upload)
    requires u.Valid() && u.Settled() && u.LastKept()
    ensures u.LastPart() == LastFull(u.held, u.nextOffset, u.maxLength)
    ensures |u.lastSent| == u.maxLength && u.lastSentOffset + u.maxLength == u.bufOffset
  {
    hide Shows, Dense, HeadHolds, NoEmpty, IsLast, Balanced;
    BeforeLast(u.ledger, u.LastPart());
    u.LastIsFull();
    u.SentIs();
    var from, n := u.lastSentOffset, u.maxLength;
    forall i | 0 <= i < n ensures u.lastSent[i] == Slice(u.held, from, n)[i] {
      assert u.lastSent[i] == u.ledger.sent[from + i] == u.Contents()[from + i];
    }
  }

  method StepWrite(u: Upload, e: Event, ghost p: Progress, ghost s: Setup) returns (alive: bool)
    requires Runs(u, p, s) && e.ClientWrite? && e.data != []
    modifies u
    ensures s.maxLength > 0 && (alive <==> !CallsOff(p, e, s))
    ensures alive ==> Runs(u, Next(p, e, s), s)
    ensures alive && AsWritten(p) ==> (AsWritten(Next(p, e, s)) <==> InOrder(p, e))
  {
    hide Upload.Valid, Upload.Settled, Upload.LastKept, Kept, PartsIn, Laid, NextAfter, Past, FlightEnds, Ends, Cuts,
         HeadNext, LastFull;
    u.SentIs();
    var r := u.Write(e.offset, e.data);
    alive := r == Written;
    if alive && u.partCount > old(u.partCount) {
      KeptIs(u);
    }
  }

  /** A setting of the end of the file; one that empties the file calls the upload off. */
  method StepEnd(u: Upload, e: Event, failing: set<nat>, ghost p: Progress, ghost s: Setup) returns (took: bool, alive: bool)
    requires Runs(u, p, s) && e.ClientEnd? && failing == s.failing
    modifies u
    ensures s.maxLength > 0 && (alive <==> !CallsOff(p, e, s))
    ensures alive ==> Runs(u, Next(p, e, s), s) && took == Takes(p, e, s)
  {
    hide Upload.Valid, Upload.Settled, Upload.Contents, Upload.LastKept, Upload.LastSentCurrent, IsMultiple, FlightEnds, Ends,
         TrimQueue, InsideKept, CutAt, Boundary, CanCut, EndsAfter, AfterEnd;
    u.SentIs();
    SameKeys(u.inFlight);
    NoFlight();
    ghost var near := e.eof == 0 || u.bufOffset <= e.eof;
    var r := u.SetEndOfFile(e.eof, failing);
    took, alive := r == Cut, r != Emptied;
    assert alive ==> took == MovesEnd(p, e.eof, s);
    if alive {
      EndIsSet(p, e.eof, s, took);
      if near {
        assert At(u, Next(p, e, s));
      } else {
        assert At(u, Next(p, e, s));
      }
    }
  }

  /** Where a setting of the end that took effect, or did not, leaves a run. */
  lemma EndIsSet(p: Progress, eof: nat, s: Setup, cut: bool)
    requires s.maxLength > 0 && cut == MovesEnd(p, eof, s)
    ensures var q, near := AfterEnd(p, eof, s), eof == 0 || Sent(p, s) <= eof;
            && q.file == (if cut then CutAt(p.file, eof) else p.file) && q.held == (if cut then CutAt(p.held, eof) else p.held)
            && q.next == (if cut then eof else p.next) && q.count == p.count && q.head == p.head
            && q.pending == (if !cut then p.pending else if near then TrimQueue(p.pending, eof) else map[])
            && q.flying == (if near then p.flying else map[])
            && q.failed == (p.failed || (!near && p.flying.Keys * s.failing != {}))
            && q.kept == (if cut && !near && InKept(p, eof) then Chunk(0, []) else p.kept)
            && q.ends == if near then p.ends else EndsAfter(p.ends, p.flying, eof, s.failing, cut, s.maxLength)
  {
    hide CutAt, TrimQueue, CanCut, InsideKept, Boundary, EndsAfter;
  }

  lemma SameKeys(flying: map<nat, Chunk>)
    ensures FlightEnds(flying).Keys == flying.Keys
  {
  }

  method StepRead(u: Upload, e: Event, ghost p: Progress, ghost s: Setup) returns (told: Told)
    requires Runs(u, p, s) && e.ClientRead?
    ensures s.maxLength > 0 && ToldRight(p, e, told, s)
  {
    hide Upload.Valid, Upload.Settled, HoldsAt, Slice;
    u.SentIs();
    var data, ok := u.ReadBuffered(e.offset, e.length);
    told := Told(u.size, if ok then Some(data) else None);
  }

  method StepLand(u: Upload, n: nat, failing: set<nat>, ghost p: Progress, ghost s: Setup)
    requires Runs(u, p, s) && failing == s.failing
    modifies u
    ensures s.maxLength > 0 && Runs(u, Next(p, PartLands(n), s), s)
  {
    hide Shows, Renders, Dense, HeadHolds, NoEmpty, Balanced, IsLast, Ends, Upload.Booked;
    if n in u.inFlight {
      u.Land(n, n in failing);
    }
  }

  /** One event of a run. */
  method Step(u: Upload, e: Event, failing: set<nat>, ghost p: Progress, ghost s: Setup) returns (t: bool, alive: bool, told: Told)
    requires Runs(u, p, s) && failing == s.failing && (e.ClientWrite? ==> e.data != [])
    modifies u
    ensures s.maxLength > 0 && (alive <==> !CallsOff(p, e, s))
    ensures alive ==> Runs(u, Next(p, e, s), s) && t == Takes(p, e, s) && ToldRight(p, e, told, s)
    ensures alive && AsWritten(p) ==> (AsWritten(Next(p, e, s)) <==> InOrder(p, e))
  {
    hide Runs, Next, CallsOff, MovesEnd, Kept, Answer, HoldsAt, AsWritten;
    assert s.maxLength > 0 by { RunsMeans(u, p, s); }
    OnlyThese(p, e, s);
    t, alive, told := true, true, Told(0, None);
    match e
    case ClientWrite(_, _) => alive := StepWrite(u, e, p, s);
    case ClientRead(_, _) => told := StepRead(u, e, p, s);
    case ClientEnd(_) => t, alive := StepEnd(u, e, failing, p, s);
    case PartLands(number) => StepLand(u, number, failing, p, s);
  }

  lemma RunsMeans(u: Upload, p: Progress, s: Setup)
    requires Runs(u, p, s)
    ensures s.maxLength > 0 && u.maxLength == s.maxLength && u.Valid() && u.Settled()
    ensures u.bufOffset == Sent(p, s) && u.inFlight.Keys == p.flying.Keys
    ensures Shows(p.pending, p.held, p.next) && Dense(p.held, p.next) && NoEmpty(p.pending)
  {
    hide Shows, Renders, Dense, HeadHolds, NoEmpty, Balanced, IsLast, Ends;
    u.SentIs();
    SameKeys(u.inFlight);
  }

  /** Reads and landings never end a run, and nothing but a write makes the upload have another file than the client wrote. */
  lemma OnlyThese(p: Progress, e: Event, s: Setup)
    requires s.maxLength > 0
    ensures e.ClientRead? || e.PartLands? ==> !CallsOff(p, e, s)
    ensures !e.ClientWrite? && AsWritten(p) ==> AsWritten(Next(p, e, s))
    ensures e.ClientRead? ==> Next(p, e, s) == p
  {
    hide CutAt, TrimQueue, InsideKept, Boundary, CanCut, EndsAfter, AfterWrite;
  }

  // Whole runs

  /** What the `i`-th event did is what it was to do. */
  ghost predicate StepRight(events: seq<Event>, i: nat, t: bool, told: Told, s: Setup)
    requires s.maxLength > 0 && i < |events|
  {
    var p, e := After(events[..i], s), events[i];
    !CallsOff(p, e, s) && t == Takes(p, e, s) && ToldRight(p, e, told, s)
  }

  /** How a run ends that gets to its flush. */
  ghost function FlushAfter(p: Progress, s: Setup): FlushResult
    requires s.maxLength > 0
  {
    FlushOf(p.held, p.next, Sent(p, s), p.failed, p.count, p.flying.Keys, s.failing, s.maxLength)
  }

  method Begin(s: Setup) returns (u: Upload)
    requires s.maxLength > 0
    ensures fresh(u) && Runs(u, After([], s), s)
  {
    hide Upload.Valid, Upload.Settled;
    u := new Upload(s.maxLength, s.headKept);
    NoFlight();
    assert Ends([]) == {};
  }

  method Finish(u: Upload, failing: set<nat>, ghost p: Progress, ghost s: Setup) returns (r: FlushResult)
    requires Runs(u, p, s) && failing == s.failing
    modifies u
    ensures s.maxLength > 0 && r == FlushAfter(p, s)
  {
    hide Upload.Valid, Upload.Settled, Ends, FlightEnds, FlushOf;
    u.SentIs();
    SameKeys(u.inFlight);
    r := u.Flush(failing);
  }

  /** A whole run and the flush at the end of it, in any order of events and whatever fails: `took` says which events took
      effect and `told` what the reads were told, up to the event that calls the upload off if there is one. At every point the
      upload has the file as the client wrote it if and only if every write so far was in order. */
  method Run(s: Setup, events: seq<Event>) returns (outcome: Outcome, took: seq<bool>, told: seq<Told>)
    requires s.maxLength > 0
    requires forall e | e in events && e.ClientWrite? :: e.data != []
    ensures |took| == |told| <= |events|
    ensures forall i | 0 <= i < |took| :: StepRight(events, i, took[i], told[i], s)
    ensures if |took| < |events| then outcome == CalledOff && CallsOff(After(events[..|took|], s), events[|took|], s)
            else outcome == Flushed(FlushAfter(After(events, s), s))
    ensures WrittenIfInOrder(events, |took|, s)
    ensures WritesApart(events) ==> AllInOrder(events, |took|, s) && (s.failing == {} ==> outcome.Flushed?)
  {
    hide Runs, After, Next, CallsOff, StepRight, WritesApart, Takes, ToldRight, AllInOrder, InOrder, AsWritten,
         FlushOf, WrittenIfInOrder;
    var u := Begin(s);
    took, told := [], [];
    NothingYet(events, s);
    for i := 0 to |events|
      invariant fresh(u) && |took| == |told| == i
      invariant Runs(u, After(events[..i], s), s)
      invariant forall k | 0 <= k < i :: StepRight(events, k, took[k], told[k], s)
      invariant WrittenIfInOrder(events, i, s)
      invariant WritesApart(events) ==> AllInOrder(events, i, s)
    {
      ghost var p := After(events[..i], s);
      if WritesApart(events) { ApartGoesOn(u, events, i, s); }
      AfterNext(events, i, s);
      var t, alive, r := Step(u, events[i], s.failing, p, s);
      if !alive {
        return CalledOff, took, told;
      }
      OneMore(events, i, s);
      StepIsRight(events, i, t, r, s);
      took, told := took + [t], told + [r];
    }
    assert events[..|events|] == events;
    var r := Finish(u, s.failing, After(events, s), s);
    outcome := Flushed(r);
  }

  lemma NothingYet(events: seq<Event>, s: Setup)
    requires s.maxLength > 0
    ensures After(events[..0], s) == After([], s) && WrittenIfInOrder(events, 0, s) && AllInOrder(events, 0, s)
  {
    assert events[..0] == [];
  }

  lemma StepIsRight(events: seq<Event>, i: nat, t: bool, told: Told, s: Setup)
    requires s.maxLength > 0 && i < |events|
    requires var p, e := After(events[..i], s), events[i]; !CallsOff(p, e, s) && t == Takes(p, e, s) && ToldRight(p, e, told, s)
    ensures StepRight(events, i, t, told, s)
  {
  }

  /** One more event is as written if and only if it was in order. */
  lemma OneMore(events: seq<Event>, i: nat, s: Setup)
    requires s.maxLength > 0 && i < |events| && WrittenIfInOrder(events, i, s)
    requires var p := After(events[..i], s);
             AsWritten(p) ==> (AsWritten(After(events[..i + 1], s)) <==> InOrder(p, events[i]))
    ensures WrittenIfInOrder(events, i + 1, s)
    ensures AllInOrder(events, i + 1, s) <==> AllInOrder(events, i, s) && InOrder(After(events[..i], s), events[i])
  {
    hide After, AsWritten, InOrder;
    assert AllAsWritten(events, i, s) <==> AllInOrder(events, i, s);
    assert AllAsWritten(events, i + 1, s) <==> AllAsWritten(events, i, s) && AsWritten(After(events[..i + 1], s));
    assert AllAsWritten(events, i, s) ==> AsWritten(After(events[..i], s));
    assert AllAsWritten(events, i + 1, s) <==> AllInOrder(events, i + 1, s);
  }

  /** As long as no byte is written twice, every write is in order, and without a failing part none calls the run off. */
  lemma ApartGoesOn(u: Upload, events: seq<Event>, i: nat, s: Setup)
    requires s.maxLength > 0 && WritesApart(events) && i < |events| && (events[i].ClientWrite? ==> events[i].data != [])
    requires Runs(u, After(events[..i], s), s) && WrittenIfInOrder(events, i, s) && AllInOrder(events, i, s)
    ensures var p := After(events[..i], s); InOrder(p, events[i]) && (s.failing == {} ==> !CallsOff(p, events[i], s))
  {
    hide After, Runs, Kept, Shows, Dense, NoEmpty, AllInOrder;
    assert AllAsWritten(events, i, s);
    var p, e := After(events[..i], s), events[i];
    RunsMeans(u, p, s);
    assert AsWritten(p);
    assert e in events;
    if e.ClientWrite? {
      forall x | e.offset <= x < e.offset + |e.data| ensures x !in p.held {
        assert Writes(e, x);
        ApartIsNew(events, i, s, x);
      }
      NewBytesKept(p.pending, p.held, p.next, e.offset, e.data);
    }
    if s.failing == {} { NeverFails(events, i, s); }
  }

  /** If no part is to fail, none has. */
  lemma {:induction false} NeverFails(events: seq<Event>, n: nat, s: Setup)
    requires s.maxLength > 0 && s.failing == {} && n <= |events|
    ensures !After(events[..n], s).failed
  {
    hide Next;
    if n > 0 {
      NeverFails(events, n - 1, s);
      AfterNext(events, n - 1, s);
      FailsNext(After(events[..n - 1], s), events[n - 1], s);
    }
  }

  lemma FailsNext(p: Progress, e: Event, s: Setup)
    requires s.maxLength > 0 && s.failing == {} && !p.failed
    ensures !Next(p, e, s).failed
  {
    hide Laid, NextAfter, Past, Cuts, PartsIn, LastFull, HeadNext, Boundary, TrimQueue, CutAt;
  }

  /** What is stored of a file the upload has as the client wrote it is that file, zeros in its holes, and if no part fails it
      is stored if and only if it can be filled. */
  lemma StoredAsWritten(p: Progress, s: Setup)
    requires s.maxLength > 0 && AsWritten(p)
    ensures var r := FlushAfter(p, s);
            && (r.Stored? ==> Renders(p.file, r.bytes) && EndsAt(p.file, |r.bytes|) && Fillable(p.file))
            && (s.failing == {} && !p.failed ==> (r.Stored? <==> Fillable(p.file)))
  {
    hide Holes, EndsAt;
  }

  // A read answered wrongly

  /** A write of new bytes at the end of everything written, which makes the file `to` bytes long. */
  method Append(u: Upload, data: seq<byte>, ghost to: nat)
    requires u.Valid() && u.Settled() && u.file == u.held && !u.partErr && data != [] && to == u.nextOffset + |data|
    requires forall x | x in u.held :: x < u.nextOffset
    modifies u
    ensures u.Valid() && u.Settled() && u.file == u.held == Overlay(old(u.file), old(u.nextOffset), data) && !u.partErr
    ensures u.nextOffset == to && u.bufOffset == Boundary(to, u.maxLength) && forall x | x in u.held :: x < to
    ensures if PartsIn(to - old(u.bufOffset), u.maxLength) > 0 then u.LastKept() else u.LastPart() == old(u.LastPart())
  {
    hide Shows, Renders, Dense, HeadHolds, NoEmpty, IsLast, Balanced, PartsIn, Kept, Boundary, Laid, Past, HeadNext,
         FlightEnds, Cuts;
    u.SentIs();
    NewBytesKept(u.pending, u.held, u.nextOffset, u.nextOffset, data);
    var _ := u.Write(u.nextOffset, data);
    FirstHoleIs(u.held, old(u.nextOffset), to);
    u.SentIs();
  }

  method TwoParts() returns (u: Upload)
    ensures fresh(u) && u.Valid() && u.Settled() && u.file == u.held && !u.partErr && u.maxLength == 2 && u.headKept == 0
    ensures u.file == map[0 := 1, 1 := 2, 2 := 3, 3 := 4] && u.nextOffset == u.bufOffset == 4 && u.LastPart() == Chunk(2, [3, 4])
  {
    hide Shows, Renders, Dense, HeadHolds, NoEmpty, IsLast, Balanced;
    u := new Upload(2, 0);
    Append(u, [1, 2], 2);
    assert u.file == map[0 := 1, 1 := 2];
    Append(u, [3, 4], 4);
    KeptIs(u);
    assert Slice(u.held, 2, 2) == [3, 4];
  }

  method CutAtPart(u: Upload)
    requires u.Valid() && u.Settled() && u.file == u.held && !u.partErr && u.maxLength == 2 && u.headKept == 0
    requires u.file == map[0 := 1, 1 := 2, 2 := 3, 3 := 4] && u.nextOffset == u.bufOffset == 4 && u.LastPart() == Chunk(2, [3, 4])
    modifies u
    ensures u.Valid() && u.Settled() && u.file == u.held == map[0 := 1, 1 := 2] && !u.partErr
    ensures u.nextOffset == u.bufOffset == 2 && u.LastPart() == Chunk(2, [3, 4])
  {
    hide Upload.Valid, Upload.Settled, Upload.Contents, CanCut, EndsAfter, Ends, FlightEnds;
    u.SentIs();
    var _ := u.SetEndOfFile(2, {});
    u.SentIs();
    assert u.file == map[0 := 1, 1 := 2];
  }

  method WriteThere(u: Upload)
    requires u.Valid() && u.Settled() && u.file == u.held == map[0 := 1, 1 := 2] && !u.partErr && u.maxLength == 2
    requires u.nextOffset == u.bufOffset == 2 && u.LastPart() == Chunk(2, [3, 4])
    modifies u
    ensures u.Valid() && u.Settled() && u.file == map[0 := 1, 1 := 2, 2 := 9]
    ensures u.nextOffset == 3 && u.bufOffset == 2 && u.LastPart() == Chunk(2, [3, 4])
  {
    hide Upload.Valid, Upload.Settled, Upload.LastKept, Upload.Contents;
    Append(u, [9], 3);
    assert u.file == map[0 := 1, 1 := 2, 2 := 9];
  }

  method ReadThere(u: Upload) returns (data: seq<byte>, ok: bool)
    requires u.Valid() && u.Settled() && u.headKept == 0 && u.nextOffset == 3 && u.LastPart() == Chunk(2, [3, 4])
    ensures u.size == 3 && ok && data == [3]
  {
    hide Upload.Valid, Upload.Settled, Upload.LastSentCurrent, Slice, HoldsAt, Boundary, IsMultiple;
    u.SentIs();
    NoHead(u);
    data, ok := u.ReadBuffered(2, 1);
    assert data == u.lastSent[0..1];
  }

  /** In parts of two bytes, four bytes are written, the end is set right where the second part begins, and one byte is
      written there: a read of it gets the byte of the part cut off. */
  method StaleRead() returns (u: Upload, data: seq<byte>, ok: bool)
    ensures u.file == map[0 := 1, 1 := 2, 2 := 9] && u.size == 3 && ok && data == [3]
  {
    hide Upload.Valid, Upload.Settled;
    u := TwoParts();
    CutAtPart(u);
    WriteThere(u);
    data, ok := ReadThere(u);
  }

  lemma NoHead(u: Upload)
    requires u.Settled() && u.headKept == 0
    ensures u.head == []
  {
  }
}
