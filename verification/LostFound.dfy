/** Sorting out an object nobody knows the files of (client/lostfound.go): what is found in it becomes files, and what is
    left stays. */
module LostFound {
  import opened Bytes
  import Walkers
  import opened Carve

  /** A run of the object, as the file it was lost in has it. */
  datatype Run = Run(offset: nat, length: nat)

  /** A stretch of the object that was made a file of, or left. */
  datatype Stretch = Found(offset: nat, length: nat) | Left(offset: nat, length: nat) {
    function End(): nat { offset + length }
  }

  /** The stretches lie one after the other, none of them empty, from `from` to `to`. */
  ghost predicate Tiles(cover: seq<Stretch>, from: nat, to: nat) {
    if cover == [] then from == to
    else
      var last := cover[|cover| - 1];
      last.length > 0 && last.End() == to && from <= last.offset && Tiles(cover[..|cover| - 1], from, last.offset)
  }

  /** Every byte of a tiled run is in one stretch, and in one only. */
  lemma {:induction false} ExactlyOnce(cover: seq<Stretch>, from: nat, to: nat, x: nat)
    requires Tiles(cover, from, to) && from <= x < to
    ensures exists i :: 0 <= i < |cover| && cover[i].offset <= x < cover[i].End()
    ensures forall i, j | 0 <= i < j < |cover| :: !(cover[i].offset <= x < cover[i].End() && cover[j].offset <= x < cover[j].End())
  {
    var n := |cover| - 1;
    AllBefore(cover[..n], from, cover[n].offset);
    assert forall i | 0 <= i < n :: cover[..n][i] == cover[i];
    if x < cover[n].offset {
      ExactlyOnce(cover[..n], from, cover[n].offset, x);
      var i :| 0 <= i < n && cover[..n][i].offset <= x < cover[..n][i].End();
      assert cover[i].offset <= x < cover[i].End();
    }
  }

  lemma {:induction false} AllBefore(cover: seq<Stretch>, from: nat, to: nat)
    requires Tiles(cover, from, to)
    ensures from <= to && forall i | 0 <= i < |cover| :: cover[i].End() <= to
  {
    if cover != [] {
      AllBefore(cover[..|cover| - 1], from, cover[|cover| - 1].offset);
    }
  }

  /** The stretches of one kind, and how long those left are together. */
  ghost function Only(cover: seq<Stretch>, found: bool): seq<Stretch> {
    if cover == [] then []
    else
      var n := |cover| - 1;
      Only(cover[..n], found) + if cover[n].Found? == found then [cover[n]] else []
  }

  ghost function Total(cover: seq<Stretch>): nat {
    if cover == [] then 0 else Total(cover[..|cover| - 1]) + cover[|cover| - 1].length
  }

  lemma Laid(cover: seq<Stretch>, s: Stretch, from: nat)
    requires Tiles(cover, from, s.offset) && s.length > 0
    ensures Tiles(cover + [s], from, s.End())
    ensures Only(cover + [s], true) == Only(cover, true) + if s.Found? then [s] else []
    ensures Only(cover + [s], false) == Only(cover, false) + if s.Left? then [s] else []
  {
    AllBefore(cover, from, s.offset);
    assert (cover + [s])[..|cover|] == cover;
  }

  lemma TotalMore(cover: seq<Stretch>, s: Stretch)
    ensures Total(cover + [s]) == Total(cover) + s.length
  {
    assert (cover + [s])[..|cover|] == cover;
  }

  lemma {:induction false} TiledTotal(cover: seq<Stretch>, from: nat, to: nat)
    requires Tiles(cover, from, to)
    ensures from <= to && Total(cover) == to - from
    ensures Total(Only(cover, true)) + Total(Only(cover, false)) == to - from
  {
    if cover != [] {
      var n := |cover| - 1;
      TiledTotal(cover[..n], from, cover[n].offset);
      TotalMore(Only(cover[..n], cover[n].Found?), cover[n]);
      assert Only(cover[..n], !cover[n].Found?) + [] == Only(cover[..n], !cover[n].Found?);
    }
  }

  /** The stretches made files of are the finds, as far into the run as they were found. */
  ghost predicate FoundAre(found: seq<Stretch>, run: Run, finds: seq<Find>) {
    |found| == |finds| && forall i | 0 <= i < |finds| :: found[i] == Found(run.offset + finds[i].offset, finds[i].length)
  }

  /** Sorts out one run: the finds and what lies between them, in order. */
  method SortRun(run: Run, carved: seq<Find>)
    returns (found: seq<Stretch>, remainder: seq<Stretch>, leftover: nat, ghost cover: seq<Stretch>)
    requires InOrder(carved, 0, run.length)
    ensures Tiles(cover, run.offset, run.offset + run.length)
    ensures found == Only(cover, true) && remainder == Only(cover, false) && leftover == Total(remainder)
    ensures FoundAre(found, run, carved)
  {
    hide Tiles, Only, Total, InOrder;
    found, remainder, leftover, cover := [], [], 0, [];
    NothingLaid(run.offset);
    var done: nat := 0;
    for i := 0 to |carved|
      invariant done <= run.length && Tiles(cover, run.offset, run.offset + done)
      invariant done == if i == 0 then 0 else carved[i - 1].End()
      invariant found == Only(cover, true) && remainder == Only(cover, false) && leftover == Total(remainder)
      invariant |found| == i && forall j | 0 <= j < i :: found[j] == Found(run.offset + carved[j].offset, carved[j].length)
    {
      var find := carved[i];
      FindIs(carved, i, run.length);
      if find.offset > done {
        var left := Left(run.offset + done, find.offset - done);
        Laid(cover, left, run.offset);
        TotalMore(remainder, left);
        remainder, leftover, cover := remainder + [left], leftover + left.length, cover + [left];
      }
      var file := Found(run.offset + find.offset, find.length);
      Laid(cover, file, run.offset);
      found, cover := found + [file], cover + [file];
      done := find.End();
    }
    if done < run.length {
      var left := Left(run.offset + done, run.length - done);
      Laid(cover, left, run.offset);
      TotalMore(remainder, left);
      remainder, leftover, cover := remainder + [left], leftover + left.length, cover + [left];
    }
  }

  lemma FindIs(finds: seq<Find>, i: nat, end: nat)
    requires InOrder(finds, 0, end) && i < |finds|
    ensures 0 < finds[i].length && finds[i].End() <= end && (i > 0 ==> finds[i - 1].End() <= finds[i].offset)
  {
    assert finds[i] in finds;
  }

  lemma NothingLaid(at: nat)
    ensures Tiles([], at, at) && Only([], true) == [] && Only([], false) == [] && Total([]) == 0
  {
  }

  function Joined(parts: seq<seq<Stretch>>): seq<Stretch> {
    if parts == [] then [] else Joined(parts[..|parts| - 1]) + parts[|parts| - 1]
  }

  /** Every run is tiled, by the stretches found in it and those left of it. */
  ghost predicate AllTiled(runs: seq<Run>, covers: seq<seq<Stretch>>) {
    |covers| == |runs| && forall i | 0 <= i < |runs| :: Tiles(covers[i], runs[i].offset, runs[i].offset + runs[i].length)
  }

  ghost function OnlyEach(covers: seq<seq<Stretch>>, found: bool): seq<seq<Stretch>> {
    seq(|covers|, i requires 0 <= i < |covers| => Only(covers[i], found))
  }

  lemma {:induction false} TotalOf(a: seq<Stretch>, b: seq<Stretch>)
    ensures Total(a + b) == Total(a) + Total(b)
  {
    if b == [] {
      assert a + b == a;
    } else {
      var n := |b| - 1;
      TotalOf(a, b[..n]);
      assert (a + b)[..|a + b| - 1] == a + b[..n];
    }
  }

  lemma JoinedMore(parts: seq<seq<Stretch>>, p: seq<Stretch>)
    ensures Joined(parts + [p]) == Joined(parts) + p
  {
    assert (parts + [p])[..|parts|] == parts;
  }

  lemma OneMoreRun(runs: seq<Run>, i: nat, covers: seq<seq<Stretch>>, cover: seq<Stretch>)
    requires i < |runs| && AllTiled(runs[..i], covers) && Tiles(cover, runs[i].offset, runs[i].offset + runs[i].length)
    ensures AllTiled(runs[..i + 1], covers + [cover])
    ensures Joined(OnlyEach(covers + [cover], true)) == Joined(OnlyEach(covers, true)) + Only(cover, true)
    ensures Joined(OnlyEach(covers + [cover], false)) == Joined(OnlyEach(covers, false)) + Only(cover, false)
  {
    hide Tiles, Only, Joined;
    assert OnlyEach(covers + [cover], true) == OnlyEach(covers, true) + [Only(cover, true)];
    assert OnlyEach(covers + [cover], false) == OnlyEach(covers, false) + [Only(cover, false)];
    JoinedMore(OnlyEach(covers, true), Only(cover, true));
    JoinedMore(OnlyEach(covers, false), Only(cover, false));
  }

  lemma NoRuns(runs: seq<Run>)
    ensures AllTiled(runs[..0], []) && Joined(OnlyEach([], true)) == [] && Joined(OnlyEach([], false)) == [] && Total([]) == 0
  {
  }

  /** Sorts out an object run by run. If every run can be read, the files made and the remainder together are the runs,
      each byte once; the finds of each run are those the carver makes of it. */
  method SortObject(o: Walkers.Oracle, runs: seq<Run>, download: Run -> Option<seq<byte>>)
    returns (r: Option<(seq<Stretch>, seq<Stretch>, nat)>, ghost covers: seq<seq<Stretch>>)
    requires forall run :: download(run).Some? ==> |download(run).value| <= run.length
    ensures r.Some? <==> forall i | 0 <= i < |runs| :: download(runs[i]).Some?
    ensures r.Some? ==> |covers| == |runs| && AllTiled(runs, covers)
                        && r.value.0 == Joined(OnlyEach(covers, true)) && r.value.1 == Joined(OnlyEach(covers, false))
                        && r.value.2 == Total(r.value.1)
    ensures r.Some? ==>
              forall i | 0 <= i < |runs| :: FoundAre(Only(covers[i], true), runs[i], Finds(o, download(runs[i]).value, 0))
  {
    hide Tiles, Only, Total, InOrder, Finds, AllTiled, Joined, OnlyEach, FoundAre;
    covers := [];
    NoRuns(runs);
    var found: seq<Stretch>, remainder: seq<Stretch>, leftover := [], [], 0;
    for i := 0 to |runs|
      invariant forall j | 0 <= j < i :: download(runs[j]).Some?
      invariant AllTiled(runs[..i], covers) && |covers| == i
      invariant forall j | 0 <= j < i :: FoundAre(Only(covers[j], true), runs[j], Finds(o, download(runs[j]).value, 0))
      invariant found == Joined(OnlyEach(covers, true)) && remainder == Joined(OnlyEach(covers, false))
      invariant leftover == Total(remainder)
    {
      var data := download(runs[i]);
      if data.None? {
        return None, covers;
      }
      var carved, _ := CarveData(o, data.value);
      WithinRun(carved, |data.value|, runs[i].length);
      var f, l, n;
      ghost var cover;
      f, l, n, cover := SortRun(runs[i], carved);
      OneMoreRun(runs, i, covers, cover);
      assert FoundAre(Only(cover, true), runs[i], Finds(o, data.value, 0));
      TotalOf(remainder, l);
      found, remainder, leftover, covers := found + f, remainder + l, leftover + n, covers + [cover];
    }
    assert runs[..|runs|] == runs;
    r := Some((found, remainder, leftover));
  }

  lemma WithinRun(finds: seq<Find>, end: nat, length: nat)
    requires InOrder(finds, 0, end) && end <= length
    ensures InOrder(finds, 0, length)
  {
  }
}
