/** What the server has promised at one moment, as a value, and what a request is granted by it. */
module CachingView {
  import opened Bytes
  import opened Leases
  import opened Oplocks
  import opened Caching

  datatype OpenView = OpenView(level: nat, state: OplockState, lease: Lease?)

  datatype LeaseView = LeaseView(state: Bits, breaking: bool) {
    predicate Active() { state != {} || breaking }
  }

  datatype Picture = Picture(opens: map<Open, OpenView>, leases: map<Lease, LeaseView>)

  ghost function SeeOpen(o: Open): OpenView
    reads o`level, o`state, o`lease
  {
    OpenView(o.level, o.state, o.lease)
  }

  ghost function SeeLease(l: Lease): LeaseView
    reads l`state, l`breaking
  {
    LeaseView(l.state, l.breaking)
  }

  ghost function See(s: Server): Picture
    reads s`opens, s`leases, s.opens`level, s.opens`state, s.opens`lease, s.leases`state, s.leases`breaking
  {
    Picture(map o | o in s.opens :: SeeOpen(o), map l | l in s.leases :: SeeLease(l))
  }

  /** Nobody has more or less than before, if some may have been told to give it up. */
  ghost predicate SamePromises(p: Picture, q: Picture) {
    && q.opens.Keys == p.opens.Keys && q.leases.Keys == p.leases.Keys
    && (forall o | o in p.opens :: q.opens[o].level == p.opens[o].level && q.opens[o].lease == p.opens[o].lease)
    && (forall l | l in p.leases :: q.leases[l].state == p.leases[l].state)
  }

  /** The promise is more than a read cache, or is being given up. */
  ghost predicate Strong(p: Picture, o: Open)
    requires o in p.opens
  {
    var v := p.opens[o];
    if v.lease != null then v.lease in p.leases && (WRITE_CACHING in p.leases[v.lease].state || p.leases[v.lease].breaking)
    else v.level > LEVEL_II || v.state == Breaking
  }

  predicate OtherOn(o: Open, op: Open) {
    o != op && o.file == op.file
  }

  /** What an oplock request is granted: everything if only its own client has the file open, a read cache if nobody else
      has more than one, and otherwise nothing. */
  ghost function OplockFor(p: Picture, op: Open, requested: nat): nat
    requires op in p.opens
  {
    if p.opens[op].state != NoOplock then LEVEL_NONE
    else if forall o | o in p.opens && OtherOn(o, op) :: SameCacheView(o, op.clientGuid) then requested
    else if exists o | o in p.opens && OtherOn(o, op) :: !SameCacheView(o, op.clientGuid) && Strong(p, o) then LEVEL_NONE
    else LEVEL_II
  }

  /** What a lease request is granted: the same, but only the opens under the lease itself do not count. */
  ghost function LeaseFor(p: Picture, op: Open, l: Lease, requested: Bits): Bits {
    var all := requested * LEASE_STATES;
    if forall o | o in p.opens && OtherOn(o, op) :: p.opens[o].lease == l then all
    else if exists o | o in p.opens && OtherOn(o, op) ::
              && Strong(p, o)
              && (if p.opens[o].lease != null then p.opens[o].lease != l else !SameCacheView(o, op.clientGuid)) then {}
    else all - {WRITE_CACHING}
  }

  /** What came of an event: what a request was granted, or nothing. */
  datatype Answer = Nothing | OplockGranted(level: nat) | LeaseGranted(bits: Bits)

  ghost predicate OplockAnswered(p: Picture, q: Picture, op: Open, requested: nat, a: Answer) {
    if op in p.opens && p.opens[op].lease == null && requested in {LEVEL_II, LEVEL_EXCLUSIVE, LEVEL_BATCH} then
      var granted := OplockFor(p, op, requested);
      && a == OplockGranted(granted)
      && if granted != LEVEL_NONE then q == p.(opens := p.opens[op := OpenView(granted, Held, null)]) else SamePromises(p, q)
    else a == Nothing && q == p
  }

  ghost predicate LeaseAnswered(p: Picture, q: Picture, op: Open, l: Lease, requested: Bits, a: Answer) {
    if op in p.opens && p.opens[op].lease == null && p.opens[op].state == NoOplock && l in p.leases
       && l.clientGuid == op.clientGuid && l.fileName == op.file.path then
      var granted := LeaseFor(p, op, l, requested);
      && a == LeaseGranted(granted)
      && if granted == {} then SamePromises(p, q)
         else q == Picture(p.opens[op := OpenView(LEVEL_NONE, NoOplock, l)],
                           p.leases[l := LeaseView(granted, p.leases[l].breaking)])
    else a == Nothing && q == p
  }

  /** An open was left with what it had, or less. */
  predicate LessOpen(v: OpenView, w: OpenView) {
    && (w.lease == v.lease || w == OpenView(LEVEL_NONE, NoOplock, null))
    && (w.state != NoOplock ==> v.state != NoOplock) && (w.level > LEVEL_II ==> w.level == v.level)
  }

  predicate LessLease(v: LeaseView, w: LeaseView) {
    (w.Active() ==> v.Active()) && (WRITE_CACHING in w.state ==> WRITE_CACHING in v.state)
  }

  ghost predicate OnlyOpen(p: Picture, q: Picture, o: Open) {
    o in p.opens && o in q.opens && q == p.(opens := p.opens[o := q.opens[o]]) && LessOpen(p.opens[o], q.opens[o])
  }

  ghost predicate OnlyLease(p: Picture, q: Picture, l: Lease) {
    l in p.leases && l in q.leases && q == p.(leases := p.leases[l := q.leases[l]]) && LessLease(p.leases[l], q.leases[l])
  }

  lemma SeesOplock(s: Server, op: Open, requested: nat)
    requires s.Valid() && op in s.opens
    ensures OplockFor(See(s), op, requested) ==
            if op.state != NoOplock then LEVEL_NONE else if s.AloneOnFile(op) then requested
            else if s.InTheWay(op) then LEVEL_NONE else LEVEL_II
  {
    hide Server.OpensValid, Server.LeasesValid, Server.Tabled, Server.OpensAttended, Server.LeasesAttended;
    var p := See(s);
    assert forall o | o in s.opens ::
        Strong(p, o) <==> if o.lease != null then WRITE_CACHING in o.lease.state || o.lease.breaking
                          else o.level > LEVEL_II || o.state == Breaking;
  }

  lemma SeesLease(s: Server, op: Open, l: Lease, requested: Bits)
    requires s.Valid() && op in s.opens
    ensures LeaseFor(See(s), op, l, requested) ==
            if s.LeaseAlone(op, l) then requested * LEASE_STATES else if s.InLeaseWay(op, l) then {}
            else requested * LEASE_STATES - {WRITE_CACHING}
  {
    hide Server.OpensValid, Server.LeasesValid, Server.Tabled, Server.OpensAttended, Server.LeasesAttended;
    var p := See(s);
    assert forall o | o in s.opens ::
        Strong(p, o) <==> if o.lease != null then WRITE_CACHING in o.lease.state || o.lease.breaking
                          else o.level > LEVEL_II || o.state == Breaking;
  }
}
