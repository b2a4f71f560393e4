/** What the server promises its clients about files (oplock.go, lease.go): whose promises stand in whose way, when
    one may be granted, and what every step keeps. */
module Caching {
  import opened Bytes
  import opened Leases
  import opened Oplocks

  /** Who asks: the client, the lease it named if that lease is held, and whether it named a key at all. */
  datatype Asker = Asker(guid: nat, own: Lease?, keyed: bool)

  /** Whether the open belongs to the client; zero is nobody's. */
  predicate SameCacheView(o: Open, guid: nat) {
    guid != 0 && o.clientGuid == guid
  }

  /** Whether the promise held by the lease is one the asker already has. */
  predicate Covers(who: Asker, l: Lease) {
    l == who.own || (!who.keyed && who.guid != 0 && l.clientGuid == who.guid)
  }

  ghost predicate Promises(o: Open)
    reads o, o.lease
  {
    if o.lease != null then o.lease.Active() else o.state != NoOplock
  }

  /** The open lets its client write into a cache, or keep others out. */
  ghost predicate CachesWrites(o: Open)
    reads o, o.lease
  {
    if o.lease != null then WRITE_CACHING in o.lease.state else o.level > LEVEL_II
  }

  /** Two opens of one file that do not share a view of it: two leases, or an oplock against an oplock or a lease of
      another client. */
  ghost predicate Apart(a: Open, b: Open)
    reads a, b
  {
    && a != b && a.file == b.file
    && if a.lease != null && b.lease != null then a.lease != b.lease else !SameCacheView(a, b.clientGuid)
  }

  /** The open promises nothing, or is on its way to promising nothing. */
  ghost predicate BeingGivenUp(o: Open)
    reads o, o.lease
  {
    if o.lease != null then o.lease.state == {} || (o.lease.breaking && o.lease.breakToState == {})
    else o.level == LEVEL_NONE || (o.state == Breaking && o.breakTo == LEVEL_NONE)
  }

  /** The oplock is no higher than `to`, or is on its way there and is waited for. */
  ghost predicate CutTo(o: Open, to: nat, waits: set<(Open, nat)>)
    reads o
  {
    o.level <= to || (o.state == Breaking && o.breakTo <= to && o.breakDone.Some? && (o, o.breakDone.value) in waits
                      && (o.breakDone.value, to) in o.handed)
  }

  /** The lease keeps nothing the asker minds, or is on its way there and is waited for. */
  ghost predicate LeaseCutFor(l: Lease, sharedOK: bool, waits: set<(Lease, nat)>)
    reads l
  {
    var to := LeaseBreakTarget(l.state, sharedOK);
    l.state <= to || (l.breaking && l.breakToState <= to && l.breakDone.Some? && (l, l.breakDone.value) in waits
                      && (l.breakDone.value, to) in l.handed)
  }

  /** Whoever could not live with what is held has a break in flight to wait for. */
  lemma CutMeans(o: Open, l: Lease, sharedOK: bool, waits: set<(Open, nat)>, leaseWaits: set<(Lease, nat)>)
    requires CutTo(o, OplockBreakTarget(sharedOK), waits) && LeaseCutFor(l, sharedOK, leaseWaits)
    ensures o.level > LEVEL_II || (!sharedOK && o.level > LEVEL_NONE) ==>
              o.state == Breaking && o.breakDone.Some? && (o, o.breakDone.value) in waits && (sharedOK || o.breakTo == LEVEL_NONE)
    ensures WRITE_CACHING in l.state || (!sharedOK && l.state != {}) ==>
              l.breaking && l.breakDone.Some? && (l, l.breakDone.value) in leaseWaits
              && WRITE_CACHING !in l.breakToState && (sharedOK || l.breakToState == {})
  {
  }

  /** What the open promises is among the promises listed. */
  ghost predicate Listed(o: Open, oplocks: set<Open>, held: set<Lease>)
    reads o, o.lease
  {
    if o.lease != null then o.lease.Active() ==> o.lease in held else o.state != NoOplock ==> o in oplocks
  }

  class Server {
    /** The opens registered. */
    var opens: set<Open>

    /** Every lease made. */
    var leases: set<Lease>

    /** The leases by client and key. */
    var table: map<(nat, nat), Lease>

    /** The holders a break was started on, or taken further, who have not been told yet. */
    var toTell: set<Open>
    var leasesToTell: set<Lease>

    ghost predicate OpensValid()
      reads this`opens, opens
    {
      forall o | o in opens :: o.Valid()
    }

    ghost predicate LeasesValid()
      reads this`leases, leases
    {
      forall l | l in leases :: l.Valid()
    }

    /** An open shares only a lease of its own client on its own path, and then has no oplock. */
    ghost predicate Shared()
      reads this`opens, this`leases, opens`lease, opens`state
    {
      forall o | o in opens && o.lease != null ::
        && o.lease in leases && o.lease.clientGuid == o.clientGuid && o.lease.fileName == o.file.path
        && o.state == NoOplock
    }

    ghost predicate Tabled()
      reads this`leases, this`table
    {
      forall k | k in table :: table[k] in leases && table[k].clientGuid == k.0 && table[k].key == k.1
    }

    /** No break is forgotten: each one in flight has a client still to be told, or a timer that ends it. */
    ghost predicate OpensAttended()
      reads this`opens, this`toTell, opens`state, opens`breakSeq, opens`breakDone, opens`timers
    {
      forall o | o in opens && o.state == Breaking :: o in toTell || o.Timed()
    }

    ghost predicate LeasesAttended()
      reads this`leases, this`leasesToTell, leases`breaking, leases`breakSeq, leases`breakDone, leases`timers
    {
      forall l | l in leases && l.breaking :: l in leasesToTell || l.Timed()
    }

    ghost predicate Valid()
      reads this, opens, leases
    {
      OpensValid() && LeasesValid() && Shared() && Tabled() && OpensAttended() && LeasesAttended()
    }

    /** No two promises on one file that belong to different views: if one of them is more than a read cache,
        breaking or not, the other one is none. */
    ghost predicate Exclusive()
      requires Valid()
      reads this, opens, leases
    {
      forall a, b | a in opens && b in opens && Apart(a, b) && Promises(a) && Promises(b) ::
        !CachesWrites(a) && !CachesWrites(b)
    }

    /** Some open of the file other than the one named is under the lease. */
    ghost predicate HeldOn(l: Lease, file: FileKey, except: Open?)
      reads this, opens
    {
      exists o | o in opens && o.file == file && o != except :: o.lease == l
    }

    /** These are the promises on the file in the asker's way. */
    ghost predicate Holders(oplocks: set<Open>, held: set<Lease>, file: FileKey, except: Open?, who: Asker)
      reads this, opens, leases
    {
      && oplocks <= opens && held <= leases
      && (forall o | o in opens ::
            o in oplocks <==>
            o.file == file && o != except && o.lease == null && o.state != NoOplock && !SameCacheView(o, who.guid))
      && (forall l | l in leases :: l in held <==> HeldOn(l, file, except) && l.Active() && !Covers(who, l))
    }

    /** The oplock is in the asker's way, and cutting it back is news to its holder. */
    ghost predicate Tells(o: Open, file: FileKey, except: Open?, who: Asker, sharedOK: bool)
      reads o
    {
      && o.file == file && o != except && o.lease == null && !SameCacheView(o, who.guid)
      && OplockNews(o.state, o.level, o.breakTo, OplockBreakTarget(sharedOK))
    }

    ghost predicate TellsLease(l: Lease, file: FileKey, except: Open?, who: Asker, sharedOK: bool)
      reads this, opens, l
    {
      && HeldOn(l, file, except) && !Covers(who, l)
      && LeaseNews(l.state, l.breaking, l.breakToState, LeaseBreakTarget(l.state, sharedOK))
    }

    lemma NewsToHolders(oplocks: set<Open>, held: set<Lease>, file: FileKey, except: Open?, who: Asker, sharedOK: bool)
      requires Holders(oplocks, held, file, except, who)
      ensures forall o | o in opens ::
                Tells(o, file, except, who, sharedOK)
                <==> o in oplocks && OplockNews(o.state, o.level, o.breakTo, OplockBreakTarget(sharedOK))
      ensures forall l | l in leases ::
                TellsLease(l, file, except, who, sharedOK)
                <==> l in held && LeaseNews(l.state, l.breaking, l.breakToState, LeaseBreakTarget(l.state, sharedOK))
    {
    }

    constructor ()
      ensures Valid() && Exclusive() && opens == {} && leases == {} && table == map[]
    {
      opens, leases, table, toTell, leasesToTell := {}, {}, map[], {}, {};
    }

    /** Nothing was promised that was not promised before. */
    twostate predicate OnlyLess()
      reads this, opens, leases
    {
      && opens <= old(opens) && old(Valid()) && Valid()
      && forall o | o in opens ::
           && (o.lease == old(o.lease) || (o.lease == null && o.state == NoOplock))
           && (Promises(o) ==> old(Promises(o))) && (CachesWrites(o) ==> old(CachesWrites(o)))
    }

    twostate lemma LessIsExclusive()
      requires OnlyLess() && old(Exclusive())
      ensures Exclusive()
    {
      forall a, b | a in opens && b in opens && Apart(a, b) && Promises(a) && Promises(b)
        ensures !CachesWrites(a) && !CachesWrites(b)
      {
        assert old(Apart(a, b));
      }
    }

    twostate lemma NewcomerIsExclusive(new o: Open)
      requires old(Valid()) && Valid() && old(Exclusive()) && leases == old(leases) && opens == old(opens) + {o}
      requires o.lease == null && o.state == NoOplock
      requires forall p | p in old(opens) :: unchanged(p)
      requires forall l | l in leases :: unchanged(l)
      ensures Exclusive()
    {
      forall a, b | a in opens && b in opens && Apart(a, b) && Promises(a) && Promises(b)
        ensures !CachesWrites(a) && !CachesWrites(b)
      {
        assert old(Apart(a, b) && Promises(a) && Promises(b));
      }
    }

    /** Sorts the opens by what they hold: the oplocks and the leases in the asker's way. */
    method HoldersIn(others: set<Open>, who: Asker) returns (oplocks: set<Open>, held: set<Lease>)
      requires Valid() && others <= opens
      ensures oplocks <= others && held <= leases
      ensures forall o | o in others ::
                o in oplocks <==> o.lease == null && o.state != NoOplock && !SameCacheView(o, who.guid)
      ensures forall o | o in others && o.lease != null ::
                o.lease in held <==> o.lease.Active() && !Covers(who, o.lease)
      ensures forall l | l in held :: exists o :: o in others && o.lease == l
    {
      hide Open.Channels, Open.Waits, Open.Timers, LeasesValid, Tabled, OpensAttended, LeasesAttended;
      oplocks, held := {}, {};
      var todo := others;
      while todo != {}
        invariant todo <= others && oplocks <= others && held <= leases
        invariant forall o | o in others - todo ::
                    o in oplocks <==> o.lease == null && o.state != NoOplock && !SameCacheView(o, who.guid)
        invariant oplocks !! todo
        invariant forall o | o in others - todo && o.lease != null ::
                    o.lease in held <==> o.lease.Active() && !Covers(who, o.lease)
        invariant forall l | l in held :: l.Active() && !Covers(who, l) && exists o :: o in others && o.lease == l
        decreases todo
      {
        var o :| o in todo;
        todo := todo - {o};
        if o.lease != null {
          if !Covers(who, o.lease) && o.lease !in held && (o.lease.state != {} || o.lease.breaking) {
            held := held + {o.lease};
          }
        } else if o.state != NoOplock && !SameCacheView(o, who.guid) {
          oplocks := oplocks + {o};
        }
      }
    }

    /** Whether any of these promises more than a read cache, or is being given up. */
    method ExclusiveHeld(oplocks: set<Open>, held: set<Lease>) returns (found: bool)
      ensures found <==> (exists o | o in oplocks :: o.level > LEVEL_II || o.state == Breaking)
                         || (exists l | l in held :: WRITE_CACHING in l.state || l.breaking)
    {
      var todo := oplocks;
      while todo != {}
        invariant todo <= oplocks
        invariant forall o | o in oplocks - todo :: !(o.level > LEVEL_II || o.state == Breaking)
        decreases todo
      {
        var o :| o in todo;
        todo := todo - {o};
        if o.level > LEVEL_II || o.state == Breaking {
          return true;
        }
      }
      var rest := held;
      while rest != {}
        invariant rest <= held
        invariant forall l | l in held - rest :: !(WRITE_CACHING in l.state || l.breaking)
        decreases rest
      {
        var l :| l in rest;
        rest := rest - {l};
        if WRITE_CACHING in l.state || l.breaking {
          return true;
        }
      }
      return false;
    }

    /** Starts a break of every oplock given, and lists what to wait for and whom to tell. Whoever is not waited for
        holds no more than `to`, and a wait is a promise that the oplock comes down to `to`. */
    method StartBreaks(oplocks: set<Open>, to: nat) returns (waits: set<(Open, nat)>, notify: set<Open>)
      requires to <= LEVEL_II && forall o | o in oplocks :: o.Valid()
      modifies oplocks`state, oplocks`breakTo, oplocks`breakSeq, oplocks`breakDone, oplocks`made, oplocks`handed
      ensures notify == set o | o in oplocks && old(OplockNews(o.state, o.level, o.breakTo, to))
      ensures forall o | o in oplocks ::
                o in notify <==> o.Lowered()
      ensures forall o | o in oplocks :: o.Valid() && (o.state == NoOplock) == old(o.state == NoOplock)
      ensures forall o | o in oplocks && o.state == Breaking && o !in notify ::
                old(o.state) == Breaking && o.breakSeq == old(o.breakSeq) && o.breakDone == old(o.breakDone)
      ensures forall o | o in oplocks :: CutTo(o, to, waits)
    {
      hide Open.Valid, Lease.Valid, OplockNews;
      waits, notify := {}, {};
      var todo := oplocks;
      while todo != {}
        invariant todo <= oplocks && notify <= oplocks - todo
        invariant forall o | o in oplocks - todo :: o in notify <==> old(OplockNews(o.state, o.level, o.breakTo, to))
        invariant forall o | o in oplocks - todo ::
                    o in notify <==> o.Lowered()
        invariant forall o | o in todo :: unchanged(o)
        invariant forall o | o in oplocks :: o.Valid() && (o.state == NoOplock) == old(o.state == NoOplock)
        invariant forall o | o in oplocks && o.state == Breaking && o !in notify ::
                    old(o.state) == Breaking && o.breakSeq == old(o.breakSeq) && o.breakDone == old(o.breakDone)
        invariant forall o | o in oplocks - todo :: CutTo(o, to, waits)
        decreases todo
      {
        var o :| o in todo;
        todo := todo - {o};
        ghost var before := waits;
        var wait, started := o.StartBreak(to);
        if wait.Some? {
          waits := waits + {(o, wait.value)};
          if started {
            notify := notify + {o};
          }
        }
        assert forall p | p in oplocks - todo && p != o :: CutTo(p, to, before);
        assert CutTo(o, to, waits);
      }
    }

    /** The same for leases; each is cut back from what it holds when its turn comes. */
    method StartLeaseBreaks(held: set<Lease>, sharedOK: bool) returns (waits: set<(Lease, nat)>, notify: set<Lease>)
      requires forall l | l in held :: l.Valid()
      modifies held`breakToState, held`breaking, held`epoch, held`breakDone, held`breakSeq, held`made, held`handed
      ensures notify == set l | l in held && old(LeaseNews(l.state, l.breaking, l.breakToState, LeaseBreakTarget(l.state, sharedOK)))
      ensures forall l | l in held ::
                l in notify <==> l.Lowered()
      ensures forall l | l in held :: l.Valid() && l.Active() == old(l.Active())
      ensures forall l | l in held && l.breaking && l !in notify ::
                old(l.breaking) && l.breakSeq == old(l.breakSeq) && l.breakDone == old(l.breakDone)
      ensures forall l | l in held :: LeaseCutFor(l, sharedOK, waits)
    {
      hide Open.Valid, Lease.Valid, Lease.Lowered, LeaseNews, LeaseBreakTarget;
      waits, notify := {}, {};
      var todo := held;
      while todo != {}
        invariant todo <= held && notify <= held - todo
        invariant forall l | l in held - todo ::
                    l in notify <==> old(LeaseNews(l.state, l.breaking, l.breakToState, LeaseBreakTarget(l.state, sharedOK)))
        invariant forall l | l in held - todo ::
                    l in notify <==> l.Lowered()
        invariant forall l | l in todo :: unchanged(l)
        invariant forall l | l in held :: l.Valid() && l.Active() == old(l.Active())
        invariant forall l | l in held && l.breaking && l !in notify ::
                    old(l.breaking) && l.breakSeq == old(l.breakSeq) && l.breakDone == old(l.breakDone)
        invariant forall l | l in held - todo :: LeaseCutFor(l, sharedOK, waits)
        decreases todo
      {
        var l :| l in todo;
        todo := todo - {l};
        ghost var before := waits;
        var wait, started := l.StartBreak(LeaseBreakTarget(l.state, sharedOK));
        l.LoweredIs();
        if wait.Some? {
          waits := waits + {(l, wait.value)};
          if started {
            notify := notify + {l};
          }
        }
        assert forall m | m in held - todo && m != l :: LeaseCutFor(m, sharedOK, before);
        assert LeaseCutFor(l, sharedOK, waits);
      }
    }

    /** The other opens of the file the open is on. */
    method OpensOn(file: FileKey, except: Open?) returns (others: set<Open>)
      ensures forall o | o in opens :: o in others <==> o.file == file && o != except
      ensures others <= opens
    {
      others := {};
      var todo := opens;
      while todo != {}
        invariant todo <= opens && others <= opens - todo
        invariant forall o | o in opens - todo :: o in others <==> o.file == file && o != except
        decreases todo
      {
        var o :| o in todo;
        todo := todo - {o};
        if o.file == file && o != except {
          others := others + {o};
        }
      }
    }

    /** Those of the opens that are not the client's. */
    method Elsewhere(others: set<Open>, guid: nat) returns (elsewhere: set<Open>)
      ensures elsewhere <= others && forall o | o in others :: o in elsewhere <==> !SameCacheView(o, guid)
    {
      elsewhere := {};
      var todo := others;
      while todo != {}
        invariant todo <= others && elsewhere <= others - todo
        invariant forall o | o in others - todo :: o in elsewhere <==> !SameCacheView(o, guid)
        decreases todo
      {
        var o :| o in todo;
        todo := todo - {o};
        if !SameCacheView(o, guid) {
          elsewhere := elsewhere + {o};
        }
      }
    }

    /** Whether any of the opens is not under the lease. */
    method AnyOutside(others: set<Open>, own: Lease) returns (found: bool)
      ensures found <==> exists o | o in others :: o.lease != own
    {
      var todo := others;
      while todo != {}
        invariant todo <= others && forall o | o in others - todo :: o.lease == own
        decreases todo
      {
        var o :| o in todo;
        todo := todo - {o};
        if o.lease != own {
          return true;
        }
      }
      return false;
    }

    /** Somebody else's promise on the file is more than a read cache, or is being given up. */
    ghost predicate InTheWay(op: Open)
      reads this, opens, leases
      requires Valid()
    {
      exists o | o in opens && o != op && o.file == op.file && !SameCacheView(o, op.clientGuid) ::
        if o.lease != null then WRITE_CACHING in o.lease.state || o.lease.breaking
        else o.level > LEVEL_II || o.state == Breaking
    }

    ghost predicate AloneOnFile(op: Open)
      reads this, opens
    {
      forall o | o in opens && o != op && o.file == op.file :: SameCacheView(o, op.clientGuid)
    }

    /** Alone is who shares the file only with opens of its own, named client; in the way is what a stranger holds. */
    lemma WaysAre(op: Open)
      requires Valid() && op in opens
      ensures var strange :=
                set o | o in opens && o != op && o.file == op.file && (op.clientGuid == 0 || o.clientGuid != op.clientGuid);
              && (AloneOnFile(op) <==> strange == {})
              && (InTheWay(op) <==> exists o | o in strange ::
                                      if o.lease != null then WRITE_CACHING in o.lease.state || o.lease.breaking
                                      else o.level > LEVEL_II || o.state == Breaking)
    {
      hide OpensValid, LeasesValid, Tabled, OpensAttended, LeasesAttended;
      var strange :=
        set o | o in opens && o != op && o.file == op.file && (op.clientGuid == 0 || o.clientGuid != op.clientGuid);
      assert forall o | o in opens && o != op && o.file == op.file :: o in strange <==> !SameCacheView(o, op.clientGuid);
    }

    twostate lemma GrantIsExclusive(op: Open)
      requires old(Valid()) && Valid() && old(Exclusive()) && opens == old(opens) && leases == old(leases)
      requires op in opens && op.lease == null
      requires forall o | o in opens && o != op :: unchanged(o)
      requires forall l | l in leases :: unchanged(l)
      requires old(AloneOnFile(op)) || (old(!InTheWay(op)) && op.level <= LEVEL_II)
      ensures Exclusive()
    {
      forall a, b | a in opens && b in opens && Apart(a, b) && Promises(a) && Promises(b)
        ensures !CachesWrites(a) && !CachesWrites(b)
      {
        if a != op && b != op {
          assert old(Apart(a, b) && Promises(a) && Promises(b));
        }
      }
    }

    /** What an open with no oplock may be granted, and whose promises are in its way. */
    method DecideOplock(op: Open, requested: nat) returns (granted: nat, oplocks: set<Open>, held: set<Lease>)
      requires Valid() && op in opens && requested in {LEVEL_II, LEVEL_EXCLUSIVE, LEVEL_BATCH}
      ensures granted == if AloneOnFile(op) then requested else if InTheWay(op) then LEVEL_NONE else LEVEL_II
      ensures Holders(oplocks, held, op.file, op, Asker(op.clientGuid, null, false))
      ensures forall o | o in opens && o != op && o.file == op.file && !SameCacheView(o, op.clientGuid) ::
                Listed(o, oplocks, held)
    {
      hide Open.Channels, Open.Waits, Open.Timers, LeasesValid, Exclusive, Tabled, OpensAttended, LeasesAttended;
      var others := OpensOn(op.file, op);
      var elsewhere := Elsewhere(others, op.clientGuid);
      oplocks, held := HoldersIn(elsewhere, Asker(op.clientGuid, null, false));
      granted := requested;
      if elsewhere != {} {
        var exclusive := ExclusiveHeld(oplocks, held);
        granted := if exclusive then LEVEL_NONE else LEVEL_II;
      }
    }

    /** Starts the breaks of some of the oplocks, and notes whom to tell. Nobody's promise changes by that. */
    method BreakOplocks(oplocks: set<Open>, to: nat) returns (waits: set<(Open, nat)>)
      requires Valid() && oplocks <= opens && to <= LEVEL_II
      modifies this`toTell
      modifies oplocks`state, oplocks`breakTo, oplocks`breakSeq, oplocks`breakDone, oplocks`made, oplocks`handed
      ensures Valid() && (old(Exclusive()) ==> Exclusive())
      ensures forall o | o in oplocks :: CutTo(o, to, waits)
      ensures toTell == old(toTell) + set o | o in oplocks && old(OplockNews(o.state, o.level, o.breakTo, to))
      ensures toTell == old(toTell) + set o | o in oplocks && o.Lowered()
    {
      hide Exclusive, Open.Valid, Open.Lowered, LeasesValid, Tabled, LeasesAttended, CutTo, OplockNews;
      var notify;
      waits, notify := StartBreaks(oplocks, to);
      toTell := toTell + notify;
      if old(Exclusive()) { LessIsExclusive(); }
    }

    /** The same for leases. */
    method BreakLeases(held: set<Lease>, sharedOK: bool) returns (waits: set<(Lease, nat)>)
      requires Valid() && held <= leases
      modifies this`leasesToTell
      modifies held`breakToState, held`breaking, held`epoch, held`breakDone, held`breakSeq, held`made, held`handed
      ensures Valid() && (old(Exclusive()) ==> Exclusive())
      ensures forall l | l in held :: LeaseCutFor(l, sharedOK, waits)
      ensures leasesToTell ==
              old(leasesToTell)
              + set l | l in held && old(LeaseNews(l.state, l.breaking, l.breakToState, LeaseBreakTarget(l.state, sharedOK)))
      ensures leasesToTell ==
              old(leasesToTell) + set l | l in held && l.Lowered()
    {
      hide Exclusive, Lease.Valid, Lease.Lowered, OpensValid, Tabled, OpensAttended, LeaseCutFor, LeaseNews;
      var notify;
      waits, notify := StartLeaseBreaks(held, sharedOK);
      leasesToTell := leasesToTell + notify;
      if old(Exclusive()) { LessIsExclusive(); }
    }

    /** Whoever has been told to come down, or further down, is among those to be told. */
    twostate predicate LoweredAreTold()
      reads this, opens, leases
    {
      && (forall o | o in opens && o in old(opens) && o.Lowered() :: o in toTell)
      && (forall l | l in leases && l in old(leases) && l.Lowered() :: l in leasesToTell)
    }

    /** Starts the breaks of these oplocks and leases, and notes whom to tell: those for whom it is news. */
    method BreakBoth(oplocks: set<Open>, held: set<Lease>, sharedOK: bool)
      returns (waits: set<(Open, nat)>, leaseWaits: set<(Lease, nat)>)
      requires Valid() && oplocks <= opens && held <= leases
      modifies this`toTell, this`leasesToTell
      modifies oplocks`state, oplocks`breakTo, oplocks`breakSeq, oplocks`breakDone, oplocks`made, oplocks`handed
      modifies held`breakToState, held`breaking, held`epoch, held`breakDone, held`breakSeq, held`made, held`handed
      ensures Valid() && (old(Exclusive()) ==> Exclusive())
      ensures forall o | o in oplocks :: CutTo(o, OplockBreakTarget(sharedOK), waits)
      ensures forall l | l in held :: LeaseCutFor(l, sharedOK, leaseWaits)
      ensures toTell ==
              old(toTell) + set o | o in oplocks && old(OplockNews(o.state, o.level, o.breakTo, OplockBreakTarget(sharedOK)))
      ensures leasesToTell ==
              old(leasesToTell)
              + set l | l in held && old(LeaseNews(l.state, l.breaking, l.breakToState, LeaseBreakTarget(l.state, sharedOK)))
      ensures LoweredAreTold()
    {
      hide Exclusive, Valid, Open.Valid, Lease.Valid, Open.Lowered, Lease.Lowered, CutTo, LeaseCutFor, OplockNews, LeaseNews;
      waits := BreakOplocks(oplocks, OplockBreakTarget(sharedOK));
      label mid:
      leaseWaits := BreakLeases(held, sharedOK);
      forall o | o in opens && o in old(opens) && o.Lowered() ensures o in toTell {
        o.LoweredIs();
        o.LoweredIs@mid();
      }
      forall l | l in leases && l in old(leases) && l.Lowered() ensures l in leasesToTell {
        l.LoweredIs();
        l.LoweredIs@mid();
      }
    }

    /** Starts the breaks of the promises in somebody's way, and notes whom to tell. */
    method BreakHolders(oplocks: set<Open>, held: set<Lease>, sharedOK: bool,
                        ghost file: FileKey, ghost except: Open?, ghost who: Asker)
      returns (waits: set<(Open, nat)>, leaseWaits: set<(Lease, nat)>)
      requires Valid() && Holders(oplocks, held, file, except, who)
      modifies this`toTell, this`leasesToTell
      modifies oplocks`state, oplocks`breakTo, oplocks`breakSeq, oplocks`breakDone, oplocks`made, oplocks`handed
      modifies held`breakToState, held`breaking, held`epoch, held`breakDone, held`breakSeq, held`made, held`handed
      ensures Valid() && (old(Exclusive()) ==> Exclusive())
      ensures forall o | o in oplocks :: CutTo(o, OplockBreakTarget(sharedOK), waits)
      ensures forall l | l in held :: LeaseCutFor(l, sharedOK, leaseWaits)
      ensures forall o | o in opens :: o in toTell <==> o in old(toTell) || old(Tells(o, file, except, who, sharedOK))
      ensures forall l | l in leases ::
                l in leasesToTell <==> l in old(leasesToTell) || old(TellsLease(l, file, except, who, sharedOK))
      ensures LoweredAreTold()
    {
      hide Exclusive, Valid, Open.Valid, Lease.Valid, LoweredAreTold, CutTo, LeaseCutFor, Tells, TellsLease, OplockNews, LeaseNews;
      NewsToHolders(oplocks, held, file, except, who, sharedOK);
      waits, leaseWaits := BreakBoth(oplocks, held, sharedOK);
    }

    lemma HoldersAmong(oplocks: set<Open>, held: set<Lease>, file: FileKey, except: Open?, who: Asker)
      requires Holders(oplocks, held, file, except, who)
      ensures oplocks <= opens && held <= leases
    {
    }

    lemma GivenUp(o: Open, oplocks: set<Open>, held: set<Lease>, waits: set<(Open, nat)>, leaseWaits: set<(Lease, nat)>)
      requires Valid() && o in opens && Listed(o, oplocks, held)
      requires forall p | p in oplocks :: CutTo(p, OplockBreakTarget(false), waits)
      requires forall l | l in held :: LeaseCutFor(l, false, leaseWaits)
      ensures BeingGivenUp(o)
    {
      hide Open.Channels, Open.Waits, Open.Timers, Lease.Channels, Lease.Waits, Lease.Timers, Tabled, OpensAttended, LeasesAttended;
    }

    /** Nothing is granted, and whoever holds anything is told to give it up. */
    method Refuse(oplocks: set<Open>, held: set<Lease>, ghost file: FileKey, ghost except: Open?, ghost who: Asker)
      requires Valid() && Holders(oplocks, held, file, except, who)
      modifies this`toTell, this`leasesToTell
      modifies oplocks`state, oplocks`breakTo, oplocks`breakSeq, oplocks`breakDone, oplocks`made, oplocks`handed
      modifies held`breakToState, held`breaking, held`epoch, held`breakDone, held`breakSeq, held`made, held`handed
      ensures Valid() && (old(Exclusive()) ==> Exclusive())
      ensures forall o | o in opens && old(Listed(o, oplocks, held)) :: BeingGivenUp(o)
      ensures forall o | o in opens :: o in toTell <==> o in old(toTell) || old(Tells(o, file, except, who, false))
      ensures forall l | l in leases ::
                l in leasesToTell <==> l in old(leasesToTell) || old(TellsLease(l, file, except, who, false))
      ensures LoweredAreTold()
    {
      hide Valid, Exclusive, LoweredAreTold, CutTo, LeaseCutFor, BeingGivenUp, Tells, TellsLease, Holders;
      assert oplocks <= opens && held <= leases by { HoldersAmong(oplocks, held, file, except, who); }
      var waits, leaseWaits := BreakHolders(oplocks, held, false, file, except, who);
      forall o | o in opens && old(Listed(o, oplocks, held)) ensures BeingGivenUp(o) {
        GivenUp(o, oplocks, held, waits, leaseWaits);
      }
    }

    method GiveOplock(op: Open, granted: nat)
      requires Valid() && op in opens && op.lease == null && op.state == NoOplock
      requires granted in {LEVEL_II, LEVEL_EXCLUSIVE, LEVEL_BATCH}
      requires AloneOnFile(op) || (!InTheWay(op) && granted == LEVEL_II)
      modifies op`level, op`state
      ensures Valid() && (old(Exclusive()) ==> Exclusive()) && op.level == granted && op.state == Held
    {
      hide Exclusive, Open.Valid, LeasesValid, LeasesAttended, Tabled;
      op.Grant(granted);
      if old(Exclusive()) { GrantIsExclusive(op); }
    }

    /** Grants the open what it may be granted: the whole of it if nobody else has the file open, a read cache if
        nobody else has more than one, and otherwise nothing, in which case everybody else is told to give up what
        they hold. */
    method GrantOplock(op: Open, requested: nat) returns (granted: nat)
      requires Valid() && op in opens && op.lease == null && requested in {LEVEL_II, LEVEL_EXCLUSIVE, LEVEL_BATCH}
      modifies this`toTell, this`leasesToTell, opens, leases
      ensures Valid() && (old(Exclusive()) ==> Exclusive())
      ensures granted == if old(op.state) != NoOplock then LEVEL_NONE
                         else if old(AloneOnFile(op)) then requested
                         else if old(InTheWay(op)) then LEVEL_NONE
                         else LEVEL_II
      ensures granted != LEVEL_NONE ==> op.level == granted && op.state == Held && op.lease == null
                                        && (forall o | o in opens && o != op :: unchanged(o))
                                        && (forall l | l in leases :: unchanged(l))
      ensures granted == LEVEL_NONE ==> (forall o | o in opens :: o.level == old(o.level) && o.lease == old(o.lease))
                                        && (forall l | l in leases :: l.state == old(l.state) && l.opens == old(l.opens))
      ensures granted == LEVEL_NONE && old(op.state) == NoOplock ==>
                forall o | o in opens && o != op && o.file == op.file && !SameCacheView(o, op.clientGuid) :: BeingGivenUp(o)
      ensures var refused, who := granted == LEVEL_NONE && old(op.state) == NoOplock, Asker(op.clientGuid, null, false);
              && (forall o | o in opens ::
                    o in toTell <==> o in old(toTell) || (refused && old(Tells(o, op.file, op, who, false))))
              && (forall l | l in leases ::
                    l in leasesToTell <==> l in old(leasesToTell) || (refused && old(TellsLease(l, op.file, op, who, false))))
      ensures LoweredAreTold()
    {
      hide Exclusive, Valid, Open.Valid, Lease.Valid, InTheWay, AloneOnFile, Listed, BeingGivenUp, Tells, TellsLease;
      if op.state != NoOplock {
        return LEVEL_NONE;
      }
      var oplocks, held;
      granted, oplocks, held := DecideOplock(op, requested);
      if granted != LEVEL_NONE {
        GiveOplock(op, granted);
      } else {
        Refuse(oplocks, held, op.file, op, Asker(op.clientGuid, null, false));
      }
    }

    /** The promises on a file that are in the asker's way. */
    method HoldersOn(file: FileKey, except: Open?, who: Asker) returns (oplocks: set<Open>, held: set<Lease>)
      requires Valid()
      ensures Holders(oplocks, held, file, except, who)
    {
      hide Open.Channels, Open.Waits, Open.Timers, LeasesValid, Tabled, OpensAttended, LeasesAttended, Exclusive;
      var others := OpensOn(file, except);
      oplocks, held := HoldersIn(others, who);
    }

    lemma NoneIsNothing()
      requires Valid()
      ensures forall o | o in opens :: (o.lease != null ==> o.lease in leases) && (o.state == NoOplock ==> o.level == LEVEL_NONE)
    {
    }

    /** Cuts back every promise on a file that is not the asker's own: what is to be waited for, and who has to be
        told. Whoever holds more than the asker can live with is waited for. */
    method StartHolderBreaks(file: FileKey, except: Open?, who: Asker, sharedOK: bool)
      returns (waits: set<(Open, nat)>, leaseWaits: set<(Lease, nat)>)
      requires Valid()
      modifies this`toTell, this`leasesToTell, opens, leases
      ensures Valid() && (old(Exclusive()) ==> Exclusive())
      ensures forall o | o in old(opens)
                         && (o.file != file || o == except || o.lease != null || (who.guid != 0 && o.clientGuid == who.guid)) ::
                unchanged(o)
      ensures forall l | l in old(leases) && (l == who.own || (!who.keyed && who.guid != 0 && l.clientGuid == who.guid)) ::
                unchanged(l)
      ensures forall o | o in opens :: o.level == old(o.level) && o.lease == old(o.lease)
      ensures forall l | l in leases :: l.state == old(l.state)
      ensures forall o | o in opens :: o in toTell <==> o in old(toTell) || old(Tells(o, file, except, who, sharedOK))
      ensures forall l | l in leases ::
                l in leasesToTell <==> l in old(leasesToTell) || old(TellsLease(l, file, except, who, sharedOK))
      ensures LoweredAreTold()
      ensures forall o | o in opens && o.file == file && o != except && o.lease == null && !SameCacheView(o, who.guid) ::
                CutTo(o, OplockBreakTarget(sharedOK), waits)
      ensures forall o | o in opens && o.file == file && o != except && o.lease != null && !Covers(who, o.lease) ::
                LeaseCutFor(o.lease, sharedOK, leaseWaits)
    {
      hide Valid, Exclusive, Tells, TellsLease;
      NoneIsNothing();
      var oplocks, held := HoldersOn(file, except, who);
      assert forall o | o in opens && o.file == file && o != except && o.lease != null :: HeldOn(o.lease, file, except);
      waits, leaseWaits := BreakHolders(oplocks, held, sharedOK, file, except, who);
    }

    /** The lease a client holds under a key, made if there is none; a key in use for another file is refused. */
    method LeaseFor(guid: nat, key: nat, path: string) returns (l: Lease, matches: bool)
      requires Valid()
      modifies this`leases, this`table
      ensures Valid() && (old(Exclusive()) ==> Exclusive()) && l in leases
      ensures l.clientGuid == guid && l.key == key && (matches <==> l.fileName == path)
      ensures (guid, key) in table && table[(guid, key)] == l
      ensures if (guid, key) in old(table) then leases == old(leases) && table == old(table)
              else fresh(l) && leases == old(leases) + {l} && table == old(table)[(guid, key) := l] && matches
                   && !l.Active() && l.opens == {}
    {
      hide Exclusive, OpensValid, OpensAttended, Lease.Valid;
      if (guid, key) in table {
        l := table[(guid, key)];
        return l, l.fileName == path;
      }
      l := new Lease(key, guid, path);
      leases := leases + {l};
      table := table[(guid, key) := l];
      matches := true;
      if old(Exclusive()) { LessIsExclusive(); }
    }

    /** The open holds under another key than the lease, or an oplock as another client. */
    ghost predicate OutsideView(o: Open, op: Open, l: Lease)
      reads o
    {
      if o.lease != null then o.lease != l else !SameCacheView(o, op.clientGuid)
    }

    ghost predicate LeaseAlone(op: Open, l: Lease)
      reads this, opens
    {
      forall o | o in opens && o != op && o.file == op.file :: o.lease == l
    }

    /** Somebody else's promise, or the client's own under another key, is more than a read cache or being given up. */
    ghost predicate InLeaseWay(op: Open, l: Lease)
      reads this, opens, leases
      requires Valid()
    {
      exists o | o in opens && o != op && o.file == op.file ::
        if o.lease != null then o.lease != l && (WRITE_CACHING in o.lease.state || o.lease.breaking)
        else !SameCacheView(o, op.clientGuid) && (o.level > LEVEL_II || o.state == Breaking)
    }

    lemma LeaseWaysAre(op: Open, l: Lease)
      requires Valid() && op in opens
      ensures var others := set o | o in opens && o != op && o.file == op.file;
              && (LeaseAlone(op, l) <==> forall o | o in others :: o.lease == l)
              && (InLeaseWay(op, l) <==>
                  exists o | o in others ::
                    if o.lease != null then o.lease != l && (WRITE_CACHING in o.lease.state || o.lease.breaking)
                    else (op.clientGuid == 0 || o.clientGuid != op.clientGuid) && (o.level > LEVEL_II || o.state == Breaking))
    {
      hide OpensValid, LeasesValid, Tabled, OpensAttended, LeasesAttended;
    }

    /** Nothing clashes with the grant on any other file the lease has been used on. A key names a path, and the same
        path may be a file on several shares. */
    ghost predicate FreeElsewhere(op: Open, l: Lease, granted: Bits)
      reads this, opens, leases
      requires Valid()
    {
      forall a, b | a in opens && a.lease == l && a.file != op.file && b in opens && Apart(a, b) && Promises(b) ::
        WRITE_CACHING !in granted && !CachesWrites(b)
    }

    /** What a lease may be granted, and whose promises are in its way. */
    method DecideLease(op: Open, l: Lease, requested: Bits) returns (granted: Bits, oplocks: set<Open>, held: set<Lease>)
      requires Valid() && op in opens
      ensures granted == if LeaseAlone(op, l) then requested * LEASE_STATES else if InLeaseWay(op, l) then {}
                         else requested * LEASE_STATES - {WRITE_CACHING}
      ensures Holders(oplocks, held, op.file, op, Asker(op.clientGuid, l, true))
      ensures forall o | o in opens && o != op && o.file == op.file && OutsideView(o, op, l) :: Listed(o, oplocks, held)
    {
      hide Open.Channels, Open.Waits, Open.Timers, LeasesValid, Exclusive, Tabled, OpensAttended, LeasesAttended;
      var others := OpensOn(op.file, op);
      oplocks, held := HoldersIn(others, Asker(op.clientGuid, l, true));
      granted := requested * LEASE_STATES;
      var outside := AnyOutside(others, l);
      if outside {
        var exclusive := ExclusiveHeld(oplocks, held);
        granted := if exclusive then {} else granted - {WRITE_CACHING};
      }
    }

    twostate lemma JoinIsExclusive(op: Open)
      requires old(Valid()) && Valid() && old(Exclusive()) && opens == old(opens) && leases == old(leases)
      requires op in opens && old(op.lease) == null && old(op.state) == NoOplock
      requires op.lease != null && op.lease in leases && op.lease.state != {}
      requires forall o | o in opens && o != op :: unchanged(o)
      requires forall m | m in leases && m != op.lease :: unchanged(m)
      requires var l := op.lease; old(LeaseAlone(op, l)) || (old(!InLeaseWay(op, l)) && WRITE_CACHING !in l.state)
      requires var l, granted := op.lease, op.lease.state; old(FreeElsewhere(op, l, granted))
      ensures Exclusive()
    {
      hide Open.Channels, Open.Waits, Open.Timers, Lease.Channels, Lease.Waits, Lease.Timers;
      var l := op.lease;
      forall a, b | a in opens && b in opens && Apart(a, b) && Promises(a) && Promises(b)
        ensures !CachesWrites(a) && !CachesWrites(b)
      {
        if a.lease != l && b.lease != l {
          assert old(Apart(a, b) && Promises(a) && Promises(b));
        } else if a.file != op.file {
          assert old(Apart(a, b) && Apart(b, a));
          assert (a.lease == l || old(Promises(a))) && (b.lease == l || old(Promises(b)));
        }
      }
    }

    twostate lemma JoinClashes(op: Open)
      requires old(Valid()) && Valid() && old(Exclusive()) && opens == old(opens) && leases == old(leases)
      requires op in opens && old(op.lease) == null && old(op.state) == NoOplock
      requires op.lease != null && op.lease in leases && op.lease.state != {}
      requires forall o | o in opens && o != op :: unchanged(o)
      requires forall m | m in leases && m != op.lease :: unchanged(m)
      requires Exclusive()
      ensures var l, granted := op.lease, op.lease.state; old(FreeElsewhere(op, l, granted))
    {
      hide Open.Channels, Open.Waits, Open.Timers, Lease.Channels, Lease.Waits, Lease.Timers;
      var l, granted := op.lease, op.lease.state;
      forall a, b | a in opens && old(a.lease) == l && a.file != op.file && b in opens && old(Apart(a, b) && Promises(b))
        ensures WRITE_CACHING !in granted && !old(CachesWrites(b))
      {
        assert Apart(a, b) && Promises(a) && Promises(b);
      }
    }

    /** The open joins the lease with what it may be granted, or everybody in the way is told to give up what they hold.
        The grant keeps promises apart exactly if the lease clashes with nothing on the other shares it was used on.
        The table knows the lease afterwards exactly if no other one was taken out under the key meanwhile. */
    method GrantLease(op: Open, l: Lease, requested: Bits) returns (granted: Bits)
      requires Valid() && op in opens && op.lease == null && op.state == NoOplock
      requires l in leases && l.clientGuid == op.clientGuid && l.fileName == op.file.path
      modifies this`table, this`toTell, this`leasesToTell, opens, leases
      ensures Valid()
      ensures granted == if old(LeaseAlone(op, l)) then requested * LEASE_STATES else if old(InLeaseWay(op, l)) then {}
                         else requested * LEASE_STATES - {WRITE_CACHING}
      ensures granted == {} ==> table == old(table) && (old(Exclusive()) ==> Exclusive())
                                && (forall o | o in opens :: o.level == old(o.level) && o.lease == old(o.lease))
                                && (forall m | m in leases :: m.state == old(m.state) && m.opens == old(m.opens))
      ensures granted == {} && requested * LEASE_STATES != {} && old(InLeaseWay(op, l)) ==>
                forall o | o in opens && o != op && o.file == op.file && OutsideView(o, op, l) :: BeingGivenUp(o)
      ensures var refused, who := granted == {}, Asker(op.clientGuid, l, true);
              && (forall o | o in opens ::
                    o in toTell <==> o in old(toTell) || (refused && old(Tells(o, op.file, op, who, false))))
              && (forall m | m in leases ::
                    m in leasesToTell <==> m in old(leasesToTell) || (refused && old(TellsLease(m, op.file, op, who, false))))
      ensures granted != {} ==> op.lease == l && l.state == granted && l.opens == old(l.opens) + {op.id}
                                && l.breaking == old(l.breaking) && op.state == NoOplock
                                && (forall o | o in opens && o != op :: unchanged(o))
                                && (forall m | m in leases && m != l :: unchanged(m))
      ensures granted != {} ==> (old(Exclusive()) ==> (Exclusive() <==> old(FreeElsewhere(op, l, granted))))
      ensures granted != {} ==>
                table == if (l.clientGuid, l.key) in old(table) then old(table) else old(table)[(l.clientGuid, l.key) := l]
      ensures granted != {} ==> (l.clientGuid, l.key) in table
                                && (table[(l.clientGuid, l.key)] == l <==>
                                    (l.clientGuid, l.key) in old(table) ==> old(table)[(l.clientGuid, l.key)] == l)
      ensures LoweredAreTold()
    {
      hide Exclusive, Valid, Open.Valid, Lease.Valid, InLeaseWay, LeaseAlone, FreeElsewhere, Listed, BeingGivenUp,
           Tells, TellsLease;
      var oplocks, held;
      granted, oplocks, held := DecideLease(op, l, requested);
      if granted != {} {
        JoinLease(op, l, granted);
      } else {
        Refuse(oplocks, held, op.file, op, Asker(op.clientGuid, l, true));
      }
    }

    /** The lease is put into the table unless its key is taken, set to what was granted, and shared by the open. */
    method ShareGranted(op: Open, l: Lease, granted: Bits)
      requires Valid() && op in opens && op.lease == null && op.state == NoOplock && l in leases && granted != {}
      requires l.clientGuid == op.clientGuid && l.fileName == op.file.path
      modifies this`table, l`state, l`opens, op`lease
      ensures Valid() && op.lease == l && l.state == granted && l.opens == old(l.opens) + {op.id}
      ensures table == if (l.clientGuid, l.key) in old(table) then old(table) else old(table)[(l.clientGuid, l.key) := l]
    {
      hide Open.Valid, Lease.Valid, OpensAttended, LeasesAttended;
      if (l.clientGuid, l.key) !in table {
        table := table[(l.clientGuid, l.key) := l];
      }
      l.Join(op.id, granted);
      op.ShareLease(l);
    }

    method JoinLease(op: Open, l: Lease, granted: Bits)
      requires Valid() && op in opens && op.lease == null && op.state == NoOplock && l in leases && granted != {}
      requires LeaseAlone(op, l) || (!InLeaseWay(op, l) && WRITE_CACHING !in granted)
      requires l.clientGuid == op.clientGuid && l.fileName == op.file.path
      modifies this`table, l`state, l`opens, op`lease
      ensures Valid() && op.lease == l && l.state == granted && l.opens == old(l.opens) + {op.id}
      ensures old(Exclusive()) ==> (Exclusive() <==> old(FreeElsewhere(op, l, granted)))
      ensures table == if (l.clientGuid, l.key) in old(table) then old(table) else old(table)[(l.clientGuid, l.key) := l]
    {
      hide Exclusive, Valid, FreeElsewhere, InLeaseWay, LeaseAlone;
      ShareGranted(op, l, granted);
      if old(Exclusive() && FreeElsewhere(op, l, granted)) { JoinIsExclusive(op); }
      if old(Exclusive()) && Exclusive() { JoinClashes(op); }
    }

    /** An open that goes away first lets go of its lease... */
    method DetachLease(op: Open) returns (l: Lease?)
      requires Valid() && op.Valid() && op.state == NoOplock
      modifies op`lease
      ensures Valid() && op.lease == null && l == old(op.lease) && (old(Exclusive()) ==> Exclusive())
    {
      hide Exclusive, Open.Valid, LeasesValid, LeasesAttended, Tabled;
      l := op.lease;
      op.ShareLease(null);
      if old(Exclusive()) { LessIsExclusive(); }
    }

    /** ...and is then taken off it; a lease that lost its last open is worth nothing, and its key is free. */
    method LeaveLease(l: Lease, id: nat)
      requires Valid() && l in leases
      modifies this`table, l`state, l`opens, l`breaking, l`breakDone, l`closed
      ensures Valid() && (old(Exclusive()) ==> Exclusive()) && l.opens == old(l.opens) - {id}
      ensures if l.opens == {} then !l.Active() && l !in table.Values else l.state == old(l.state) && l.breaking == old(l.breaking)
      ensures var k := (l.clientGuid, l.key);
              table == if l.opens == {} && k in old(table) && old(table)[k] == l then old(table) - {k} else old(table)
    {
      hide Exclusive, Lease.Valid, OpensValid, OpensAttended;
      l.Leave(id);
      var k := (l.clientGuid, l.key);
      if l.opens == {} && k in table && table[k] == l {
        table := table - {k};
      }
      if old(Exclusive()) { LessIsExclusive(); }
    }
  }
}
