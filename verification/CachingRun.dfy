/** Whole runs of the caching protocol: opens come and go, clients ask, are told, answer or stay silent, in any order. */
module CachingRun {
  import opened Bytes
  import opened Leases
  import opened Oplocks
  import opened Caching
  import opened CachingView

  /** What can happen to one open. */
  datatype OpenEvent =
    | SendOplockBreak(delivered: bool)
    | AcknowledgeOplock(answer: nat)
    | ExpireOplock(timer: Timer)
    | ReleaseOplock
    | DetachLease

  /** What can happen to one lease. */
  datatype LeaseEvent =
    | SendLeaseBreak(delivered: bool)
    | AcknowledgeLease(kept: Bits)
    | ExpireLease(timer: Timer)

  /** A step of the server. Opens and leases are named by the order in which they were made. */
  datatype Event =
    | RegisterOpen(file: FileKey, guid: nat)
    | UnregisterOpen(open: nat)
    | AskOplock(open: nat, level: nat)
    | FindLease(guid: nat, key: nat, path: string)
    | AskLease(open: nat, lease: nat, requested: Bits)
    | BreakHolders(file: FileKey, except: Option<nat>, guid: nat, own: Option<nat>, keyed: bool, sharedOK: bool)
    | OnOpen(open: nat, what: OpenEvent)
    | OnLease(lease: nat, how: LeaseEvent)
    | LeaveLease(lease: nat, id: nat)

  /** The files opened, and by which clients, in the order of the run. */
  function Opened(events: seq<Event>): seq<(FileKey, nat)> {
    if events == [] then []
    else
      var e := events[|events| - 1];
      Opened(events[..|events| - 1]) + if e.RegisterOpen? then [(e.file, e.guid)] else []
  }

  /** The leases looked up, by client and key, in the order of the run. */
  function Sought(events: seq<Event>): seq<(nat, nat)> {
    if events == [] then []
    else
      var e := events[|events| - 1];
      Sought(events[..|events| - 1]) + if e.FindLease? then [(e.guid, e.key)] else []
  }

  /** All opens of the run are on one share. */
  ghost predicate OneShare(events: seq<Event>, share: string) {
    forall e | e in events && e.RegisterOpen? :: e.file.share == share
  }

  /** An open by itself is only ever left with less. */
  method ActOnOpen(o: Open, e: OpenEvent)
    requires o.Valid()
    modifies o
    ensures o.Valid() && (o.lease == old(o.lease) || (o.lease == null && o.state == NoOplock && o.level == LEVEL_NONE))
    ensures (o.state != NoOplock ==> old(o.state) != NoOplock) && (o.level > LEVEL_II ==> o.level == old(o.level))
    ensures o.state == Breaking ==> old(o.state) == Breaking && (o.Timed() || (!e.SendOplockBreak? && !old(o.Timed())))
  {
    hide Open.Waits, Open.Timers;
    match e {
      case SendOplockBreak(delivered) => o.Send(delivered);
      case AcknowledgeOplock(answer) => var _ := o.Acknowledge(answer);
      case ExpireOplock(timer) =>
        if timer in o.timers {
          var _ := o.ExpireBreak(timer);
        }
      case ReleaseOplock => o.Release();
      case DetachLease =>
        if o.state == NoOplock {
          o.ShareLease(null);
        }
    }
  }

  /** A lease by itself, too. */
  method ActOnLease(l: Lease, e: LeaseEvent)
    requires l.Valid()
    modifies l
    ensures l.Valid() && (l.Active() ==> old(l.Active()))
    ensures WRITE_CACHING in l.state ==> WRITE_CACHING in old(l.state)
    ensures l.breaking ==> old(l.breaking) && (l.Timed() || (!e.SendLeaseBreak? && !old(l.Timed())))
  {
    hide Lease.Waits, Lease.Timers;
    match e {
      case SendLeaseBreak(delivered) => l.Send(delivered);
      case AcknowledgeLease(kept) => var _ := l.Acknowledge(kept);
      case ExpireLease(timer) =>
        if timer in l.timers {
          var _ := l.ExpireBreak(timer);
        }
    }
  }

  method ActAndTellOpen(s: Server, o: Open, e: OpenEvent)
    requires s.Valid() && o in s.opens
    modifies s`toTell, o
    ensures s.Valid() && (old(s.Exclusive()) ==> s.Exclusive()) && LessOpen(old(SeeOpen(o)), SeeOpen(o))
  {
    hide Server.Exclusive, Open.Valid, Server.LeasesValid, Server.LeasesAttended, Server.Tabled, Open.Timed;
    ActOnOpen(o, e);
    if e.SendOplockBreak? {
      s.toTell := s.toTell - {o};
    }
    if old(s.Exclusive()) { s.LessIsExclusive(); }
  }

  method StepOpen(s: Server, o: Open, e: OpenEvent)
    requires s.Valid() && o in s.opens
    modifies s`toTell, o
    ensures s.Valid() && (old(s.Exclusive()) ==> s.Exclusive()) && OnlyOpen(old(See(s)), See(s), o)
  {
    hide Server.Exclusive, Server.Valid, LessOpen;
    ActAndTellOpen(s, o, e);
  }

  method ActAndTellLease(s: Server, l: Lease, e: LeaseEvent)
    requires s.Valid() && l in s.leases
    modifies s`leasesToTell, l
    ensures s.Valid() && (old(s.Exclusive()) ==> s.Exclusive()) && LessLease(old(SeeLease(l)), SeeLease(l))
  {
    hide Server.Exclusive, Lease.Valid, Server.OpensValid, Server.OpensAttended, Server.Tabled, Lease.Timed;
    ActOnLease(l, e);
    if e.SendLeaseBreak? {
      s.leasesToTell := s.leasesToTell - {l};
    }
    if old(s.Exclusive()) { s.LessIsExclusive(); }
  }

  method StepLease(s: Server, l: Lease, e: LeaseEvent)
    requires s.Valid() && l in s.leases
    modifies s`leasesToTell, l
    ensures s.Valid() && (old(s.Exclusive()) ==> s.Exclusive()) && OnlyLease(old(See(s)), See(s), l)
  {
    hide Server.Exclusive, Server.Valid, LessLease;
    ActAndTellLease(s, l, e);
  }

  method StepAskOplock(s: Server, op: Open, level: nat) returns (a: Answer)
    requires s.Valid()
    modifies s`toTell, s`leasesToTell, s.opens, s.leases
    ensures s.Valid() && (old(s.Exclusive()) ==> s.Exclusive()) && OplockAnswered(old(See(s)), See(s), op, level, a)
  {
    hide Server.Exclusive, Server.Valid, Open.Valid, Lease.Valid, Server.AloneOnFile, Server.InTheWay, Server.Tells,
         Server.TellsLease, BeingGivenUp, OplockFor;
    a := Nothing;
    if op in s.opens && op.lease == null && level in {LEVEL_II, LEVEL_EXCLUSIVE, LEVEL_BATCH} {
      SeesOplock(s, op, level);
      var granted := s.GrantOplock(op, level);
      a := OplockGranted(granted);
    }
  }

  /** What a grant of a lease changes of what the server has promised. */
  method GrantSeen(s: Server, op: Open, l: Lease, requested: Bits) returns (granted: Bits)
    requires s.Valid() && l in s.leases && op in s.opens && op.lease == null && op.state == NoOplock
    requires l.clientGuid == op.clientGuid && l.fileName == op.file.path
    modifies s`table, s`toTell, s`leasesToTell, s.opens, s.leases
    ensures s.Valid() && granted == old(LeaseFor(See(s), op, l, requested))
    ensures if granted == {} then old(s.Exclusive()) ==> s.Exclusive()
            else old(s.Exclusive()) ==> (s.Exclusive() <==> old(s.FreeElsewhere(op, l, granted)))
    ensures var p := old(See(s));
            if granted == {} then SamePromises(p, See(s))
            else See(s) == Picture(p.opens[op := OpenView(LEVEL_NONE, NoOplock, l)],
                                   p.leases[l := LeaseView(granted, p.leases[l].breaking)])
  {
    hide Server.Exclusive, Server.Valid, Server.LeaseAlone, Server.InLeaseWay, Server.Tells, Server.TellsLease,
         Server.FreeElsewhere, Server.OutsideView, BeingGivenUp, LeaseFor;
    SeesLease(s, op, l, requested);
    granted := s.GrantLease(op, l, requested);
    if granted != {} { HoldsNothing(s, op); }
  }

  /** A request for a lease. `clash` says that it broke the rule on a share the lease had been used on before. */
  method StepAskLease(s: Server, op: Open, l: Lease, requested: Bits) returns (a: Answer, ghost clash: bool)
    requires s.Valid() && l in s.leases
    modifies s`table, s`toTell, s`leasesToTell, s.opens, s.leases
    ensures s.Valid() && (old(s.Exclusive()) && !clash ==> s.Exclusive())
    ensures LeaseAnswered(old(See(s)), See(s), op, l, requested, a)
    ensures clash ==> TwoShares(s.opens)
  {
    hide Server.Exclusive, Server.Valid, Server.FreeElsewhere, LeaseFor, TwoShares, SamePromises;
    a, clash := Nothing, false;
    if op in s.opens && op.lease == null && op.state == NoOplock && l.clientGuid == op.clientGuid && l.fileName == op.file.path {
      ClashMeans(s, op, l);
      var granted := GrantSeen(s, op, l, requested);
      a := LeaseGranted(granted);
      clash := granted != {} && !old(s.FreeElsewhere(op, l, granted));
    }
  }

  ghost predicate TwoShares(opens: set<Open>) {
    exists a, b | a in opens && b in opens :: a.file.share != b.file.share
  }

  /** What clashes with a grant elsewhere is on another share. */
  lemma ClashMeans(s: Server, op: Open, l: Lease)
    requires s.Valid() && op in s.opens && l.fileName == op.file.path
    ensures TwoShares(s.opens) || forall granted: Bits :: s.FreeElsewhere(op, l, granted)
  {
    hide Server.OpensValid, Server.LeasesValid, Server.Tabled, Server.OpensAttended, Server.LeasesAttended;
    if a :| a in s.opens && a.lease == l && a.file != op.file {
      assert a.file.share != op.file.share;
    }
  }

  lemma HoldsNothing(s: Server, op: Open)
    requires s.Valid() && op in s.opens && op.state == NoOplock
    ensures op.level == LEVEL_NONE
  {
    assert op.Valid();
  }

  /** Registers an open, which holds nothing yet. */
  method StepRegister(s: Server, id: nat, file: FileKey, guid: nat) returns (o: Open)
    requires s.Valid()
    modifies s`opens
    ensures s.Valid() && (old(s.Exclusive()) ==> s.Exclusive())
    ensures fresh(o) && s.opens == old(s.opens) + {o} && o.file == file && o.clientGuid == guid
    ensures o.lease == null && o.state == NoOplock && o.id == id
    ensures var p := old(See(s)); o !in p.opens && See(s) == p.(opens := p.opens[o := OpenView(LEVEL_NONE, NoOplock, null)])
  {
    hide Server.Exclusive, Open.Valid, Server.LeasesValid, Server.LeasesAttended, Server.Tabled;
    o := new Open(id, file, guid);
    s.opens := s.opens + {o};
    if old(s.Exclusive()) { s.NewcomerIsExclusive(o); }
  }

  /** Takes an open off the table; until it has let go of what it holds it stays. */
  method StepUnregister(s: Server, o: Open)
    requires s.Valid()
    modifies s`opens
    ensures s.Valid() && (old(s.Exclusive()) ==> s.Exclusive())
    ensures s.opens == if o.lease == null && o.state == NoOplock then old(s.opens) - {o} else old(s.opens)
    ensures o in old(s.opens) ==> o.Valid()
    ensures var p := old(See(s));
            See(s) == if o.lease == null && o.state == NoOplock then p.(opens := p.opens - {o}) else p
  {
    hide Server.Exclusive, Open.Valid, Server.LeasesValid, Server.LeasesAttended, Server.Tabled;
    if o.lease == null && o.state == NoOplock {
      s.opens := s.opens - {o};
    }
    if old(s.Exclusive()) { s.LessIsExclusive(); }
  }

  method StepBreak(s: Server, opens: seq<Open>, leases: seq<Lease>, e: Event)
    requires s.Valid() && e.BreakHolders?
    modifies s`toTell, s`leasesToTell, s.opens, s.leases
    ensures s.Valid() && (old(s.Exclusive()) ==> s.Exclusive()) && SamePromises(old(See(s)), See(s))
  {
    hide Server.Exclusive, Server.Valid, CutTo, LeaseCutFor, Server.Tells, Server.TellsLease;
    var except := if e.except.Some? && e.except.value < |opens| then opens[e.except.value] else null;
    var own := if e.own.Some? && e.own.value < |leases| then leases[e.own.value] else null;
    var _, _ := s.StartHolderBreaks(e.file, except, Asker(e.guid, own, e.keyed), e.sharedOK);
  }

  /** The opens made so far, and the leases looked up; an open off the table holds nothing. */
  ghost predicate Known(s: Server, opens: seq<Open>, leases: seq<Lease>)
    reads s, opens
  {
    && (forall o | o in s.opens :: o in opens)
    && (forall o | o in opens && o !in s.opens :: o.Valid() && o.lease == null && o.state == NoOplock)
    && (forall l | l in leases :: l in s.leases)
  }

  method StepFindLease(s: Server, guid: nat, key: nat, path: string) returns (l: Lease)
    requires s.Valid()
    modifies s`leases, s`table
    ensures s.Valid() && (old(s.Exclusive()) ==> s.Exclusive()) && l in s.leases && IsLease(l, (guid, key))
    ensures old(s.leases) <= s.leases && fresh(s.leases - old(s.leases))
    ensures Found(old(See(s)), See(s), l)
  {
    hide Server.Exclusive, Server.Valid;
    var matches;
    l, matches := s.LeaseFor(guid, key, path);
  }

  method StepLeave(s: Server, l: Lease, id: nat)
    requires s.Valid() && l in s.leases
    modifies s`table, l
    ensures s.Valid() && (old(s.Exclusive()) ==> s.Exclusive()) && OnlyLease(old(See(s)), See(s), l)
  {
    hide Server.Exclusive, Server.Valid;
    s.LeaveLease(l, id);
  }

  ghost predicate Found(p: Picture, q: Picture, l: Lease) {
    q == if l in p.leases then p else p.(leases := p.leases[l := LeaseView({}, false)])
  }

  /** What an event does to what the server has promised. `opens` and `leases` are those made before it, `opens'` and
      `leases'` those made with it. */
  ghost predicate Answered(p: Picture, q: Picture, e: Event, a: Answer, opens: seq<Open>, leases: seq<Lease>, opens': seq<Open>,
                           leases': seq<Lease>) {
    match e
    case RegisterOpen(_, _) =>
      && a == Nothing && |opens'| == |opens| + 1 && opens'[|opens|] !in p.opens
      && q == p.(opens := p.opens[opens'[|opens|] := OpenView(LEVEL_NONE, NoOplock, null)])
    case UnregisterOpen(i) =>
      && a == Nothing
      && if i < |opens| && opens[i] in p.opens && p.opens[opens[i]].lease == null && p.opens[opens[i]].state == NoOplock
         then q == p.(opens := p.opens - {opens[i]}) else q == p
    case AskOplock(i, level) => if i < |opens| then OplockAnswered(p, q, opens[i], level, a) else a == Nothing && q == p
    case FindLease(_, _, _) => a == Nothing && |leases'| == |leases| + 1 && Found(p, q, leases'[|leases|])
    case AskLease(i, j, requested) =>
      if i < |opens| && j < |leases| then LeaseAnswered(p, q, opens[i], leases[j], requested, a) else a == Nothing && q == p
    case BreakHolders(_, _, _, _, _, _) => a == Nothing && SamePromises(p, q)
    case OnOpen(i, _) => a == Nothing && if i < |opens| && opens[i] in p.opens then OnlyOpen(p, q, opens[i]) else q == p
    case OnLease(j, _) => a == Nothing && if j < |leases| then OnlyLease(p, q, leases[j]) else q == p
    case LeaveLease(j, _) => a == Nothing && if j < |leases| then OnlyLease(p, q, leases[j]) else q == p
  }

  /** One step. An event that names nobody, or asks for what is not on offer, does nothing. */
  method Step(s: Server, opens: seq<Open>, leases: seq<Lease>, e: Event)
    returns (opens': seq<Open>, leases': seq<Lease>, a: Answer, ghost clash: bool)
    requires s.Valid() && Known(s, opens, leases)
    modifies s, s.opens, s.leases
    ensures s.Valid() && Known(s, opens', leases') && (old(s.Exclusive()) && !clash ==> s.Exclusive())
    ensures Answered(old(See(s)), See(s), e, a, opens, leases, opens', leases')
    ensures fresh(s.opens - old(s.opens)) && fresh(s.leases - old(s.leases))
    ensures if e.RegisterOpen? then |opens'| == |opens| + 1 && opens' == opens + [opens'[|opens|]]
                                    && IsOpen(opens'[|opens|], |opens|, (e.file, e.guid)) else opens' == opens
    ensures if e.FindLease? then |leases'| == |leases| + 1 && leases' == leases + [leases'[|leases|]]
                                 && IsLease(leases'[|leases|], (e.guid, e.key)) else leases' == leases
    ensures clash ==> TwoShares(s.opens)
  {
    hide Server.Exclusive, Server.Valid, Open.Valid, OplockAnswered, LeaseAnswered, OnlyOpen, OnlyLease, SamePromises,
         Found, TwoShares;
    opens', leases', a, clash := opens, leases, Nothing, false;
    match e
    case RegisterOpen(file, guid) =>
      var o := StepRegister(s, |opens|, file, guid);
      opens' := opens + [o];
    case UnregisterOpen(i) =>
      if i < |opens| {
        StepUnregister(s, opens[i]);
      }
    case AskOplock(i, level) =>
      if i < |opens| {
        a := StepAskOplock(s, opens[i], level);
      }
    case FindLease(guid, key, path) =>
      var l := StepFindLease(s, guid, key, path);
      leases' := leases + [l];
    case AskLease(i, j, requested) =>
      if i < |opens| && j < |leases| {
        a, clash := StepAskLease(s, opens[i], leases[j], requested);
      }
    case BreakHolders(_, _, _, _, _, _) =>
      StepBreak(s, opens, leases, e);
    case OnOpen(i, what) =>
      if i < |opens| && opens[i] in s.opens {
        StepOpen(s, opens[i], what);
      }
    case OnLease(j, how) =>
      if j < |leases| {
        StepLease(s, leases[j], how);
      }
    case LeaveLease(j, id) =>
      if j < |leases| {
        StepLeave(s, leases[j], id);
      }
  }

  predicate IsOpen(o: Open, id: nat, what: (FileKey, nat)) {
    o.id == id && o.file == what.0 && o.clientGuid == what.1
  }

  predicate IsLease(l: Lease, what: (nat, nat)) {
    l.clientGuid == what.0 && l.key == what.1
  }

  /** These are the opens made and the leases looked up by the events. */
  ghost predicate MadeBy(opens: seq<Open>, leases: seq<Lease>, events: seq<Event>) {
    && |opens| == |Opened(events)| && (forall i | 0 <= i < |opens| :: IsOpen(opens[i], i, Opened(events)[i]))
    && |leases| == |Sought(events)| && (forall j | 0 <= j < |leases| :: IsLease(leases[j], Sought(events)[j]))
  }

  lemma MadeNext(opens: seq<Open>, leases: seq<Lease>, opens': seq<Open>, leases': seq<Lease>, events: seq<Event>, i: nat)
    requires i < |events| && MadeBy(opens, leases, events[..i])
    requires var e := events[i];
             && (if e.RegisterOpen? then |opens'| == |opens| + 1 && opens' == opens + [opens'[|opens|]]
                                         && IsOpen(opens'[|opens|], |opens|, (e.file, e.guid)) else opens' == opens)
             && (if e.FindLease? then |leases'| == |leases| + 1 && leases' == leases + [leases'[|leases|]]
                                      && IsLease(leases'[|leases|], (e.guid, e.key)) else leases' == leases)
    ensures MadeBy(opens', leases', events[..i + 1])
    ensures |opens| == |Opened(events[..i])| && |opens'| == |Opened(events[..i + 1])|
    ensures |leases| == |Sought(events[..i])| && |leases'| == |Sought(events[..i + 1])|
  {
    hide IsOpen, IsLease;
    assert events[..i + 1][..i] == events[..i];
  }

  /** The pictures, one before each event and one after the last, begin with nothing, and each comes of the one before it by
      the event and with the answer in between. */
  ghost predicate Follow(pictures: seq<Picture>, events: seq<Event>, answers: seq<Answer>, n: nat, opens: seq<Open>,
                         leases: seq<Lease>)
    requires n <= |events|
  {
    && |pictures| == n + 1 && |answers| == n && pictures[0] == Picture(map[], map[])
    && (forall i | 0 <= i <= n :: |Opened(events[..i])| <= |opens| && |Sought(events[..i])| <= |leases|)
    && forall i | 0 <= i < n ::
         Answered(pictures[i], pictures[i + 1], events[i], answers[i],
                  opens[..|Opened(events[..i])|], leases[..|Sought(events[..i])|],
                  opens[..|Opened(events[..i + 1])|], leases[..|Sought(events[..i + 1])|])
  }

  /** Any run, from a server with nothing on it; it gives back what every request was granted, and every open and every lease
      it dealt with, whether they are still there or not. A request is granted exactly what the promises at the time allow.
      Promises stay apart unless a lease key was used on two shares for files of one path and the two clashed; on one share
      that cannot be. */
  method Run(events: seq<Event>, ghost share: string)
    returns (s: Server, opens: seq<Open>, leases: seq<Lease>, answers: seq<Answer>,
             ghost pictures: seq<Picture>, ghost clash: bool)
    ensures s.Valid() && Known(s, opens, leases) && (!clash ==> s.Exclusive())
    ensures (forall o | o in opens :: o.Valid()) && forall l | l in leases :: l.Valid()
    ensures MadeBy(opens, leases, events)
    ensures Follow(pictures, events, answers, |events|, opens, leases) && pictures[|events|] == See(s)
    ensures OneShare(events, share) ==> !clash
  {
    hide Server.Valid, Server.Exclusive, Known, Follow, See, TwoShares, MadeBy, Opened, Sought, Answered, Open.Valid,
         Lease.Valid;
    s := new Server();
    opens, leases, answers, clash := [], [], [], false;
    pictures := [See(s)];
    Nobody(s, events);
    for i := 0 to |events|
      invariant fresh(s) && fresh(s.opens) && fresh(s.leases)
      invariant s.Valid() && Known(s, opens, leases) && (!clash ==> s.Exclusive())
      invariant MadeBy(opens, leases, events[..i])
      invariant |pictures| == i + 1 && Follow(pictures, events, answers, i, opens, leases) && pictures[i] == See(s)
      invariant OneShare(events, share) ==> !clash && forall o | o in opens :: o.file.share == share
    {
      ghost var c;
      var opens', leases', a;
      opens', leases', a, c := Step(s, opens, leases, events[i]);
      MadeNext(opens, leases, opens', leases', events, i);
      FollowNext(pictures, events, answers, i, opens, leases, opens', leases', a, See(s));
      OnOneShare(s, opens', leases', share);
      opens, leases, answers, pictures, clash := opens', leases', answers + [a], pictures + [See(s)], clash || c;
    }
    assert events[..|events|] == events;
    AllValid(s, opens, leases);
  }

  lemma AllValid(s: Server, opens: seq<Open>, leases: seq<Lease>)
    requires s.Valid() && Known(s, opens, leases)
    ensures (forall o | o in opens :: o.Valid()) && forall l | l in leases :: l.Valid()
  {
    hide Open.Valid, Lease.Valid;
  }

  lemma Nobody(s: Server, events: seq<Event>)
    requires s.opens == {} && s.leases == {}
    ensures Known(s, [], []) && MadeBy([], [], events[..0]) && Follow([See(s)], events, [], 0, [], [])
  {
    assert events[..0] == [];
  }

  lemma OnOneShare(s: Server, opens: seq<Open>, leases: seq<Lease>, share: string)
    requires Known(s, opens, leases)
    ensures (forall o | o in opens :: o.file.share == share) ==> !TwoShares(s.opens)
  {
    hide Open.Valid;
  }

  lemma FollowNext(pictures: seq<Picture>, events: seq<Event>, answers: seq<Answer>, n: nat, opens: seq<Open>, leases: seq<Lease>,
                   opens': seq<Open>, leases': seq<Lease>, a: Answer, q: Picture)
    requires n < |events| && Follow(pictures, events, answers, n, opens, leases) && |pictures| == n + 1
    requires |opens| == |Opened(events[..n])| && |leases| == |Sought(events[..n])| && opens <= opens' && leases <= leases'
    requires |opens'| == |Opened(events[..n + 1])| && |leases'| == |Sought(events[..n + 1])|
    requires Answered(pictures[n], q, events[n], a, opens, leases, opens', leases')
    ensures Follow(pictures + [q], events, answers + [a], n + 1, opens', leases')
  {
    hide Answered, Opened, Sought;
    assert opens'[..|opens|] == opens && opens'[..|opens'|] == opens';
    assert leases'[..|leases|] == leases && leases'[..|leases'|] == leases';
    forall i | 0 <= i <= n
      ensures opens[..|Opened(events[..i])|] == opens'[..|Opened(events[..i])|]
      ensures leases[..|Sought(events[..i])|] == leases'[..|Sought(events[..i])|]
    {
    }
  }

  /** Two clients reading one file, each under a lease. */
  method TwoReaders(file: FileKey) returns (s: Server, mine: Lease, first: Open, second: Open)
    ensures fresh(s) && fresh(s.opens) && fresh(s.leases) && s.Valid() && s.opens == {first, second}
    ensures first != second && first.file == second.file == file && first.clientGuid == 1 && second.clientGuid == 2
    ensures mine in s.leases && first.lease == mine && mine.clientGuid == 1 && mine.fileName == file.path
    ensures second.lease != null && second.lease != mine && second.lease in s.leases && second.lease.state == {READ_CACHING}
  {
    hide Server.Valid, Server.Exclusive, Server.FreeElsewhere, Server.Tells, Server.TellsLease, See;
    s := new Server();
    mine, first := FirstReader(s, file);
    second := SecondReader(s, mine, first);
  }

  method SecondReader(s: Server, mine: Lease, first: Open) returns (second: Open)
    requires s.Valid() && s.opens == {first} && s.leases == {mine} && s.table == map[(1, 1) := mine]
    requires first.lease == mine && mine.state == {READ_CACHING} && !mine.breaking
    modifies s, first, mine
    ensures s.Valid() && s.opens == {first, second} && mine in s.leases && fresh(s.leases - {mine}) && fresh(second)
    ensures second.file == first.file && second.clientGuid == 2 && first.lease == mine
    ensures second.lease != null && second.lease != mine && second.lease in s.leases && second.lease.state == {READ_CACHING}
  {
    hide Server.Valid, Server.Exclusive, Server.FreeElsewhere, Server.Tells, Server.TellsLease, See;
    var theirs, _ := s.LeaseFor(2, 1, first.file.path);
    second := StepRegister(s, 1, first.file, 2);
    var granted := s.GrantLease(second, theirs, {READ_CACHING});
    assert READ_CACHING in granted && first in s.opens && mine in s.leases;
  }

  method FirstReader(s: Server, file: FileKey) returns (mine: Lease, first: Open)
    requires s.Valid() && s.opens == {} && s.leases == {} && s.table == map[]
    modifies s
    ensures s.Valid() && s.opens == {first} && s.leases == {mine} && s.table == map[(1, 1) := mine]
    ensures first.file == file && first.clientGuid == 1 && first.lease == mine && fresh(first) && fresh(mine)
    ensures mine.clientGuid == 1 && mine.key == 1 && mine.fileName == file.path && mine.state == {READ_CACHING} && !mine.breaking
    ensures mine.opens == {first.id} && first.state == NoOplock
  {
    hide Server.Valid, Server.Exclusive, Server.FreeElsewhere, Server.Tells, Server.TellsLease, See;
    var matches;
    mine, matches := s.LeaseFor(1, 1, file.path);
    first := StepRegister(s, 0, file, 1);
    var granted := s.GrantLease(first, mine, {READ_CACHING});
    assert READ_CACHING in granted;
  }

  /** The clash: one of them uses its key for the file of the same path on another share, where it is alone and is
      given the write cache, and has it on both. */
  method LeaseOverTwoShares() returns (s: Server)
    ensures s.Valid() && !s.Exclusive()
  {
    hide Server.Valid, Server.Exclusive, Server.FreeElsewhere, Server.Tells, Server.TellsLease, See;
    var mine, first, second;
    s, mine, first, second := TwoReaders(FileKey("a", "x"));
    var theirs := second.lease;
    var third := StepRegister(s, 2, FileKey("b", "x"), 1);
    assert s.LeaseAlone(third, mine);
    var granted := s.GrantLease(third, mine, {READ_CACHING, WRITE_CACHING});
    assert WRITE_CACHING in granted && second in s.opens && theirs in s.leases;
    TheyClash(s, first, second);
  }

  /** The key is looked up again, and the open asks under the lease it found before. */
  method AskLate(s: Server, found: Lease, first: Open, o: Open)
    requires s.Valid() && s.table == map[] && s.opens == {first, o} && found in s.leases
    requires found.clientGuid == first.clientGuid == o.clientGuid == 1 && found.key == 1 && found.fileName == o.file.path
    requires first.lease == null && first.state == NoOplock && o.lease == null && o.state == NoOplock
    modifies s, s.opens, s.leases
    ensures s.Valid() && s.opens == {first, o} && o.lease == found && found.Active()
    ensures (1, 1) in s.table && s.table[(1, 1)] != found
  {
    hide Server.Valid, Server.Exclusive, Server.FreeElsewhere, Server.Tells, Server.TellsLease, See;
    var again, _ := s.LeaseFor(1, 1, o.file.path);
    assert !s.InLeaseWay(o, found);
    var granted := s.GrantLease(o, found, {READ_CACHING});
    assert READ_CACHING in granted;
  }

  method LastLeaves(s: Server, mine: Lease, first: Open)
    requires s.Valid() && mine in s.leases && s.table == map[(1, 1) := mine]
    requires first in s.opens && first.lease == mine && mine.opens == {first.id} && first.state == NoOplock
    requires mine.clientGuid == 1 && mine.key == 1
    modifies s, first, mine
    ensures s.Valid() && s.opens == old(s.opens) && s.leases == old(s.leases)
    ensures s.table == map[] && first.lease == null && first.state == NoOplock && !mine.Active()
  {
    hide Server.Valid, Server.Exclusive;
    OpenIsValid(s, first);
    var _ := s.DetachLease(first);
    s.LeaveLease(mine, first.id);
    assert s.table == map[];
  }

  /** The lease the table does not know: it is looked up for an open that is still to ask, the last open under it goes
      away, the key is looked up again, and only then the open asks. */
  method LeaseUnknown() returns (s: Server, o: Open)
    ensures s.Valid() && o in s.opens && o.lease != null && o.lease.Active()
    ensures var k := (o.lease.clientGuid, o.lease.key); k in s.table && s.table[k] != o.lease
  {
    hide Server.Valid, Server.Exclusive, Server.FreeElsewhere, Server.Tells, Server.TellsLease, See;
    s := new Server();
    var mine, first := FirstReader(s, FileKey("a", "x"));
    var found, _ := s.LeaseFor(1, 1, "x");
    o := StepRegister(s, 1, FileKey("a", "x"), 1);
    LastLeaves(s, mine, first);
    AskLate(s, found, first, o);
  }

  lemma OpenIsValid(s: Server, o: Open)
    requires s.Valid() && o in s.opens
    ensures o.Valid()
  {
  }

  lemma TheyClash(s: Server, first: Open, second: Open)
    requires s.Valid() && first in s.opens && second in s.opens && first != second && first.file == second.file
    requires first.lease != null && second.lease != null && first.lease != second.lease
    requires WRITE_CACHING in first.lease.state && second.lease.state != {}
    ensures !s.Exclusive()
  {
    assert Apart(first, second) && Promises(first) && Promises(second) && CachesWrites(first);
  }
}
