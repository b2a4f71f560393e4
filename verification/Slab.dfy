/** Packing the pieces of several files into one slab (client/indexd.go), and telling what is where in it
    (client/objecttag.go). */
module Slab {
  import opened Bytes
  import opened ObjectTag
  import TagCode

  /** A claimed piece of a file: whose it is, where in the file it begins, and its bytes. */
  datatype Job = Job(metadataID: uint64, objOffset: uint64, data: seq<byte>)

  datatype Owner = Owner(share: Name, path: Name, size: uint64)

  function Concat(jobs: seq<Job>): seq<byte> {
    if jobs == [] then [] else Concat(jobs[..|jobs| - 1]) + jobs[|jobs| - 1].data
  }

  lemma ConcatNext(jobs: seq<Job>, n: nat)
    requires n < |jobs|
    ensures Concat(jobs[..n + 1]) == Concat(jobs[..n]) + jobs[n].data
  {
    assert jobs[..n + 1][..n] == jobs[..n];
  }

  function AtMost(s: seq<byte>, n: nat): seq<byte> {
    if |s| <= n then s else s[..n]
  }

  /** Concatenates the pieces into a slab of at most `size` bytes. Each piece is left with the front of it that went
      in. */
  method PackSlab(jobs: array<Job>, size: nat) returns (slab: seq<byte>)
    modifies jobs
    ensures slab == AtMost(Concat(old(jobs[..])), size) == Concat(jobs[..])
    ensures slab <= Concat(old(jobs[..])) && |slab| <= size && (|slab| < size ==> slab == Concat(old(jobs[..])))
    ensures forall i | 0 <= i < jobs.Length :: jobs[i].data <= old(jobs[i]).data && jobs[i] == old(jobs[i]).(data := jobs[i].data)
  {
    hide Concat;
    NothingPacked(map[]);
    slab := [];
    ghost var before := jobs[..];
    for i := 0 to jobs.Length
      invariant |slab| <= size && slab == AtMost(Concat(before[..i]), size) == Concat(jobs[..i])
      invariant forall j | i <= j < jobs.Length :: jobs[j] == before[j]
      invariant forall j | 0 <= j < i :: jobs[j].data <= before[j].data && jobs[j] == before[j].(data := jobs[j].data)
    {
      ConcatNext(before, i);
      ghost var packed := jobs[..i];
      if |slab| + |jobs[i].data| > size {
        jobs[i] := jobs[i].(data := jobs[i].data[..size - |slab|]);
      }
      assert jobs[..i] == packed;
      ConcatNext(jobs[..], i);
      assert jobs[..][..i + 1] == jobs[..i + 1] && jobs[..][..i] == jobs[..i];
      slab := slab + jobs[i].data;
    }
    assert before[..jobs.Length] == before && jobs[..jobs.Length] == jobs[..];
  }

  /** Where the jobs whose files have a name lie, one after the other. */
  function Runs(jobs: seq<Job>, owners: map<uint64, Owner>): seq<Piece>
    requires forall j | j in jobs :: |j.data| < TWO_64
  {
    if jobs == [] then []
    else
      var n := |jobs| - 1;
      var runs := Runs(jobs[..n], owners);
      if jobs[n].metadataID in owners then runs + [RunOf(jobs, n, owners[jobs[n].metadataID])] else runs
  }

  function RunOf(jobs: seq<Job>, i: nat, owner: Owner): Piece
    requires i < |jobs| && |jobs[i].data| < TWO_64
  {
    Piece(owner.share, owner.path, jobs[i].objOffset, |Concat(jobs[..i])| % TWO_64, |jobs[i].data|, owner.size)
  }

  lemma RunsNext(jobs: seq<Job>, owners: map<uint64, Owner>, i: nat)
    requires i < |jobs| && forall j | j in jobs :: |j.data| < TWO_64
    ensures Runs(jobs[..i + 1], owners) ==
            Runs(jobs[..i], owners) + if jobs[i].metadataID in owners then [RunOf(jobs, i, owners[jobs[i].metadataID])] else []
  {
    assert jobs[..i + 1][..i] == jobs[..i];
  }

  /** Lists the runs of the object made of the jobs. */
  method TagPieces(jobs: seq<Job>, owners: map<uint64, Owner>) returns (pieces: seq<Piece>)
    requires forall j | j in jobs :: |j.data| < TWO_64
    ensures pieces == Runs(jobs, owners)
  {
    hide Runs, Concat;
    pieces := [];
    var at := 0;
    NothingPacked(owners);
    for i := 0 to |jobs|
      invariant at == |Concat(jobs[..i])| % TWO_64 && pieces == Runs(jobs[..i], owners)
    {
      RunsNext(jobs, owners, i);
      ConcatNext(jobs, i);
      var job := jobs[i];
      if job.metadataID in owners {
        var owner := owners[job.metadataID];
        pieces := pieces + [Piece(owner.share, owner.path, job.objOffset, at, |job.data|, owner.size)];
      }
      at := (at + |job.data|) % TWO_64;
    }
    assert jobs[..|jobs|] == jobs;
  }

  lemma NothingPacked(owners: map<uint64, Owner>)
    ensures Runs([], owners) == [] && Concat([]) == []
  {
  }

  /** The piece tells the truth about the slab: it names a job's file and offset, and the job's bytes are where it says. */
  ghost predicate Truthful(p: Piece, jobs: seq<Job>, owners: map<uint64, Owner>, slab: seq<byte>) {
    && p.at + p.length <= |slab|
    && exists j | j in jobs && j.metadataID in owners ::
         && p.share == owners[j.metadataID].share && p.path == owners[j.metadataID].path && p.size == owners[j.metadataID].size
         && p.offset == j.objOffset && slab[p.at..p.at + p.length] == j.data
  }

  /** What is true of a run stays true when the slab grows by another job. */
  lemma StillTruthful(p: Piece, jobs: seq<Job>, owners: map<uint64, Owner>, slab: seq<byte>, more: Job)
    requires Truthful(p, jobs, owners, slab)
    ensures Truthful(p, jobs + [more], owners, slab + more.data)
  {
    assert (slab + more.data)[p.at..p.at + p.length] == slab[p.at..p.at + p.length];
    assert forall j | j in jobs :: j in jobs + [more];
  }

  lemma PlacedLast(j: Job, jobs: seq<Job>, owners: map<uint64, Owner>, before: seq<byte>)
    requires j in jobs && j.metadataID in owners && |before| < TWO_64 && |j.data| < TWO_64
    ensures var owner := owners[j.metadataID];
            Truthful(Piece(owner.share, owner.path, j.objOffset, |before|, |j.data|, owner.size), jobs, owners, before + j.data)
  {
    assert (before + j.data)[|before|..|before| + |j.data|] == j.data;
  }

  lemma RunIs(jobs: seq<Job>, i: nat, owner: Owner)
    requires i < |jobs| && |jobs[i].data| < TWO_64 && |Concat(jobs[..i])| < TWO_64
    ensures RunOf(jobs, i, owner) ==
            Piece(owner.share, owner.path, jobs[i].objOffset, |Concat(jobs[..i])|, |jobs[i].data|, owner.size)
  {
    hide Concat;
  }

  /** The run of the last job is where the slab ended before it. */
  lemma LastTruthful(jobs: seq<Job>, owners: map<uint64, Owner>)
    requires jobs != [] && |Concat(jobs)| < TWO_64 && |jobs[|jobs| - 1].data| < TWO_64 && jobs[|jobs| - 1].metadataID in owners
    ensures var n := |jobs| - 1;
            var p := RunOf(jobs, n, owners[jobs[n].metadataID]);
            Truthful(p, jobs, owners, Concat(jobs)) && p.at == |Concat(jobs[..n])| && p.length == |jobs[n].data|
  {
    hide Concat, RunOf, Truthful;
    var n := |jobs| - 1;
    ConcatNext(jobs, n);
    assert jobs[..n + 1] == jobs;
    RunIs(jobs, n, owners[jobs[n].metadataID]);
    PlacedLast(jobs[n], jobs, owners, Concat(jobs[..n]));
  }

  /** Every run named is where it is said to be, and the runs come one after the other. */
  lemma {:induction false} RunsAreTruthful(jobs: seq<Job>, owners: map<uint64, Owner>)
    requires |Concat(jobs)| < TWO_64 && forall j | j in jobs :: |j.data| < TWO_64
    ensures forall p | p in Runs(jobs, owners) :: Truthful(p, jobs, owners, Concat(jobs)) && p.at + p.length <= |Concat(jobs)|
    ensures forall i, k | 0 <= i < k < |Runs(jobs, owners)| ::
              Runs(jobs, owners)[i].at + Runs(jobs, owners)[i].length <= Runs(jobs, owners)[k].at
    decreases |jobs|
  {
    hide Truthful, RunOf;
    if jobs != [] {
      var n := |jobs| - 1;
      RunsAreTruthful(jobs[..n], owners);
      var runs, before := Runs(jobs[..n], owners), Concat(jobs[..n]);
      assert jobs[..n] + [jobs[n]] == jobs;
      forall p | p in runs ensures Truthful(p, jobs, owners, Concat(jobs)) {
        StillTruthful(p, jobs[..n], owners, before, jobs[n]);
      }
      if jobs[n].metadataID in owners {
        LastTruthful(jobs, owners);
      }
    }
  }

  /** The jobs whose files have a name. */
  function Named(jobs: seq<Job>, owners: map<uint64, Owner>): seq<Job> {
    if jobs == [] then []
    else Named(jobs[..|jobs| - 1], owners) + if jobs[|jobs| - 1].metadataID in owners then [jobs[|jobs| - 1]] else []
  }

  lemma {:induction false} RunsCounted(jobs: seq<Job>, owners: map<uint64, Owner>)
    requires forall j | j in jobs :: |j.data| < TWO_64
    ensures |Runs(jobs, owners)| == |Named(jobs, owners)|
  {
    if jobs != [] {
      RunsCounted(jobs[..|jobs| - 1], owners);
    }
  }

  /** Every job whose file has a name is among the runs, once. */
  lemma {:induction false} EveryRunNamed(jobs: seq<Job>, owners: map<uint64, Owner>, i: nat) returns (k: nat)
    requires |Concat(jobs)| < TWO_64 && (forall j | j in jobs :: |j.data| < TWO_64)
    requires i < |jobs| && jobs[i].metadataID in owners
    ensures |Concat(jobs[..i])| <= |Concat(jobs)| && k == |Named(jobs[..i], owners)| < |Runs(jobs, owners)|
    ensures var owner := owners[jobs[i].metadataID];
            Runs(jobs, owners)[k] ==
            Piece(owner.share, owner.path, jobs[i].objOffset, |Concat(jobs[..i])|, |jobs[i].data|, owner.size)
    ensures |Runs(jobs, owners)| == |Named(jobs, owners)|
    decreases |jobs|
  {
    var n := |jobs| - 1;
    RunsCounted(jobs[..n], owners);
    RunsCounted(jobs, owners);
    if i < n {
      k := EveryRunNamed(jobs[..n], owners, i);
      assert jobs[..n][..i] == jobs[..i];
    } else {
      k := |Named(jobs[..i], owners)|;
    }
  }

  /** A slab packed and tagged: whoever reads the tag learns, of every piece it names, what is where in the slab. */
  method PackAndTag(c: Codec, jobs: array<Job>, owners: map<uint64, Owner>, size: nat, maxTagSize: nat)
    returns (slab: seq<byte>, meta: Option<seq<byte>>, n: nat)
    requires Lossless(c) && size < TWO_64
    modifies jobs
    ensures slab == AtMost(Concat(old(jobs[..])), size)
    ensures forall j | j in jobs[..] :: |j.data| < TWO_64
    ensures var runs := TagCode.CatalogsFirst(Runs(jobs[..], owners));
            && n <= |runs| && (meta.Some? <==> n > 0) && (n == |runs| || |Pack(c, runs, n + 1)| > maxTagSize)
            && (|Pack(c, runs, |runs|)| <= maxTagSize ==> n == |runs|)
            && (meta.Some? ==> |meta.value| <= maxTagSize && Decode(c, meta.value) == Decoded(c, runs, n))
    ensures meta.Some? && Decode(c, meta.value).Some? ==>
              forall p | p in Decode(c, meta.value).value.pieces :: Truthful(p, jobs[..], owners, slab)
  {
    hide Runs, Concat, Truthful, Decode, Decoded, Pack, TagCode.CatalogsFirst, WithinBounds, Body, TagCode.IsCatalog;
    slab := PackSlab(jobs, size);
    NoLongerThan(jobs[..]);
    var pieces := TagPieces(jobs[..], owners);
    RunsAreTruthful(jobs[..], owners);
    meta, n := TagCode.Encode(c, pieces, maxTagSize);
    if meta.Some? {
      ghost var sorted := TagCode.CatalogsFirst(pieces);
      PackRoundTrip(c, sorted, n);
      DecodedAre(c, sorted, n);
      forall p | p in sorted[..n] ensures Truthful(p, jobs[..], owners, slab) {
        assert p in multiset(sorted);
        assert p in multiset(pieces);
        assert p in pieces;
      }
    }
  }

  lemma {:induction false} NoLongerThan(jobs: seq<Job>)
    ensures forall j | j in jobs :: |j.data| <= |Concat(jobs)|
  {
    if jobs != [] {
      NoLongerThan(jobs[..|jobs| - 1]);
    }
  }
}
