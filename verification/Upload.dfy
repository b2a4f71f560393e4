/** A multipart upload of a file being written (open.go): writes arrive in any order, are joined into a
    contiguous buffer, cut into parts that land in any order, cut short, filled over and completed. */
module Uploading {
  import opened Bytes
  import opened UploadQueue
  import opened UploadParts

  const MAX_GAP_FILLED: nat := 0x400_0000

  datatype WriteResult = Written | PartFailed | AlreadyStored

  datatype EndResult = Unchanged | Cut | Emptied | Refused

  datatype FlushResult =
    | Stored(bytes: seq<byte>)
    | FrontMissing
    | TooSparse
    | NonContiguous
    | StoringFailed

  /** How many of the first `n` bytes nobody wrote. */
  ghost function Holes(file: File, n: nat): nat {
    if n == 0 then 0 else Holes(file, n - 1) + if n - 1 in file then 0 else 1
  }

  /** That is, the number of offsets below `n` that are not in the file. */
  lemma {:induction false} HolesAre(file: File, n: nat)
    ensures Holes(file, n) == |set x | 0 <= x < n && x !in file|
  {
    if n > 0 {
      HolesAre(file, n - 1);
      var before := set x | 0 <= x < n - 1 && x !in file;
      assert (set x | 0 <= x < n && x !in file) == before + if n - 1 in file then {} else {n - 1};
    }
  }

  lemma {:induction false} HolesWritten(file: File, m: nat, n: nat)
    requires m <= n && forall x | m <= x < n :: x in file
    ensures Holes(file, n) == Holes(file, m)
    decreases n
  {
    if m < n { HolesWritten(file, m, n - 1); }
  }

  lemma {:induction false} HolesUnwritten(file: File, m: nat, n: nat)
    requires m <= n && forall x | m <= x < n :: x !in file
    ensures Holes(file, n) == Holes(file, m) + (n - m)
    decreases n
  {
    if m < n { HolesUnwritten(file, m, n - 1); }
  }

  lemma {:induction false} HolesGrow(file: File, m: nat, n: nat)
    requires m <= n
    ensures Holes(file, m) <= Holes(file, n)
    decreases n
  {
    if m < n { HolesGrow(file, m, n - 1); }
  }

  /** The server will complete the file: it is empty, or its first byte was written and what the client left
      unwritten before any byte it wrote is no more than the server fills in. */
  ghost predicate Fillable(file: File) {
    file == map[] || (0 in file && forall x | x in file :: Holes(file, x) <= MAX_GAP_FILLED)
  }

  /** What lies between the end of what was taken and the lowest queued chunk was never written. */
  lemma GapUnwritten(q: Queue, file: File, s: seq<byte>, gap: nat, hole: nat)
    requires Renders(file, s) && Shows(q, file, |s|) && hole <= gap
    requires forall o | o in q :: |s| + gap <= o
    ensures forall x | |s| <= x < |s| + gap :: x !in file
    ensures Renders(file, s + seq(hole, i => 0)) && Shows(q, file, |s| + hole)
    ensures Holes(file, |s| + hole) == Holes(file, |s|) + hole
    ensures Holes(file, |s| + gap) == Holes(file, |s|) + gap
  {
    forall x | |s| <= x < |s| + gap ensures x !in file {
      assert forall o :: !Covers(q, o, x);
    }
    HolesUnwritten(file, |s|, |s| + hole);
    HolesUnwritten(file, |s|, |s| + gap);
    ShowsLater(q, file, |s|, file, |s| + hole);
  }

  lemma NothingQueued(file: File, s: seq<byte>)
    requires Shows(map[], file, |s|) && Renders(file, s) && Holes(file, |s|) <= MAX_GAP_FILLED
    requires |s| == 0 || (0 in file && |s| - 1 in file)
    ensures EndsAt(file, |s|) && Fillable(file)
  {
    assert forall o, x :: !Covers(map[], o, x);
    forall x | x in file ensures x < |s| && Holes(file, x) <= MAX_GAP_FILLED {
      assert x < |s|;
      HolesGrow(file, x, |s|);
    }
  }

  lemma FrontUnwritten(q: Queue, file: File, gap: nat)
    requires Shows(q, file, 0) && gap > 0 && gap in q && NoEmpty(q) && forall o | o in q :: gap <= o
    ensures !Fillable(file) && 0 !in file && file != map[]
  {
    assert Covers(q, gap, gap);
    assert 0 !in file by { assert forall o :: !Covers(q, o, 0); }
  }

  lemma GapTooWide(q: Queue, file: File, s: seq<byte>, gap: nat)
    requires Renders(file, s) && Shows(q, file, |s|) && Holes(file, |s|) + gap > MAX_GAP_FILLED
    requires |s| + gap in q && NoEmpty(q) && forall o | o in q :: |s| + gap <= o
    ensures !Fillable(file)
  {
    GapUnwritten(q, file, s, gap, 0);
    assert Covers(q, |s| + gap, |s| + gap);
    assert |s| + gap in file;
  }

  /** A queue that shows the file from `from` on shows it from any later offset, whatever was rewritten before that. */
  lemma ShowsLater(q: Queue, file: File, from: nat, file': File, from': nat)
    requires Shows(q, file, from) && from <= from'
    requires forall x | from' <= x :: (x in file <==> x in file') && (x in file ==> file[x] == file'[x])
    ensures Shows(q, file', from')
  {
  }

  ghost predicate NoEmpty(q: Queue) {
    forall o | o in q :: |q[o]| > 0
  }

  /** What is left of `q` once chunks that end by `n` have been taken out of it. */
  ghost predicate Drained(q: Queue, left: Queue, n: nat) {
    && (forall o | o in left :: o in q && left[o] == q[o])
    && (forall o | o in q && o !in left :: o + |q[o]| <= n)
  }

  lemma DrainedFurther(q: Queue, mid: Queue, m: nat, left: Queue, n: nat)
    requires Drained(q, mid, m) && Drained(mid, left, n) && m <= n
    ensures Drained(q, left, n) && left.Keys <= mid.Keys
  {
  }

  lemma DrainedNone(q: Queue, n: nat)
    ensures Drained(q, q, n)
  {
  }

  lemma DrainedShows(q: Queue, left: Queue, file: File, n: nat)
    requires Drained(q, left, n)
    ensures Shows(q, file, n) <==> Shows(left, file, n)
  {
    DroppingShows(q, left, file, n);
  }

  lemma DrainedNoEmpty(q: Queue, left: Queue, n: nat)
    requires NoEmpty(q) && Drained(q, left, n)
    ensures NoEmpty(left)
  {
  }

  lemma DrainedOne(q: Queue, o: nat, n: nat)
    requires o in q && o + |q[o]| <= n
    ensures Drained(q, q - {o}, n)
  {
  }

  /** What of a queue reaches past `n`. */
  function Past(q: Queue, n: nat): Queue {
    map o | o in q && o + |q[o]| > n :: q[o]
  }

  lemma DrainedPast(q: Queue, left: Queue, n: nat)
    requires Drained(q, left, n) && NoEmpty(q) && AllPast(left, n)
    ensures left == Past(q, n)
  {
  }

  /** Where a write leaves the end of what has been joined: past itself if it started inside, and otherwise at the first byte
      that is missing. */
  ghost function NextAfter(held: File, next: nat, offset: nat, len: nat): nat {
    if offset >= next then FirstHole(held, next) else if offset + len > next then offset + len else next
  }

  /** A write at or past the end is joined up to the first byte that nobody wrote; one inside never takes the end back. */
  lemma NextMeans(held: File, next: nat, offset: nat, len: nat)
    ensures var n := NextAfter(held, next, offset, len);
            && next <= n
            && (next <= offset ==> n !in held && forall x | next <= x < n :: x in held)
            && (offset < next ==> offset + len <= n && (n == next || n == offset + len))
  {
  }

  lemma NextIsHole(q: Queue, file: File, next: nat)
    requires Shows(q, file, next) && AllPast(q, next)
    ensures next !in file
  {
  }

  lemma DenserStill(was: File, file: File, from: nat, next: nat)
    requires Dense(was, from) && (forall x | x < from :: x in was <==> x in file) && forall x | from <= x < next :: x in file
    ensures Dense(file, next)
  {
  }

  lemma DrawingRenders(was: File, file: File, s: seq<byte>)
    requires Renders(was, s) && forall x | x < |s| :: (x in was <==> x in file) && (x in was ==> was[x] == file[x])
    ensures Renders(file, s)
  {
  }

  lemma FlightsJoin(a: map<nat, Chunk>, b: map<nat, Chunk>)
    ensures FlightEnds(a + b) == FlightEnds(a) + FlightEnds(b)
  {
  }

  lemma NoFlight()
    ensures FlightEnds(map[]) == map[]
  {
  }

  /** Where the file ends. */
  ghost function EndOf(file: File): (n: nat)
    ensures EndsAt(file, n)
    decreases |file|
  {
    if file == map[] then 0
    else
      var x :| x in file;
      var n := EndOf(file - {x});
      assert n > 0 ==> n - 1 in file - {x};
      assert forall y | y in file :: y == x || y in file - {x};
      if n > x then n else x + 1
  }

  lemma EndIs(file: File, n: nat)
    requires EndsAt(file, n)
    ensures EndOf(file) == n
  {
  }

  /** How many parts a flush sends of a file that ends at `end`, of which what lies before `from` has been sent: one of any
      length if there is no hole to fill past `next`. */
  ghost function FlushParts(held: File, next: nat, from: nat, end: nat, p: nat): nat
    requires p > 0
  {
    if end <= from then 0 else if FirstHole(held, next) == end then 1 else PartsFor(end - from, p)
  }

  ghost predicate SomeFail(failing: set<nat>, flying: set<nat>, count: nat, more: nat) {
    exists n | n in failing :: n in flying || count < n <= count + more
  }

  /** How a flush ends. */
  ghost function FlushOf(held: File, next: nat, from: nat, failed: bool, count: nat, flying: set<nat>, failing: set<nat>,
                         p: nat): FlushResult
    requires p > 0
  {
    if held != map[] && 0 !in held then FrontMissing
    else if !Fillable(held) then TooSparse
    else if failed || SomeFail(failing, flying, count, FlushParts(held, next, from, EndOf(held), p)) then StoringFailed
    else Stored(Slice(held, 0, EndOf(held)))
  }

  /** The front must be there, and below no byte written may more than 64 MiB be missing. */
  lemma FillableMeans(file: File)
    ensures Fillable(file) <==>
            file == map[] || (0 in file && forall x | x in file :: |set y | 0 <= y < x && y !in file| <= 0x400_0000)
  {
    hide Holes;
    forall x | x in file ensures Holes(file, x) == |set y | 0 <= y < x && y !in file| {
      HolesAre(file, x);
    }
  }

  /** What is stored is the file, with zeros where nobody wrote, up to the last byte written; it is stored whenever it can be
      filled and no part fails, and never once one has. */
  lemma FlushMeans(held: File, next: nat, from: nat, failed: bool, count: nat, flying: set<nat>, failing: set<nat>, p: nat)
    requires p > 0
    ensures var r := FlushOf(held, next, from, failed, count, flying, failing, p);
            && (r.Stored? ==> Renders(held, r.bytes) && (forall x | x in held :: x < |r.bytes|)
                              && (r.bytes != [] ==> |r.bytes| - 1 in held))
            && (r == FrontMissing <==> held != map[] && 0 !in held)
            && (r == TooSparse <==> (held != map[] ==> 0 in held) && !Fillable(held))
            && (Fillable(held) && !failed && failing == {} ==> r.Stored?)
            && (failed || flying * failing != {} ==> !r.Stored?)
            && r != NonContiguous
  {
    hide Holes;
    if n :| n in flying * failing { assert n in failing && n in flying; }
  }

  lemma NoFull(count: nat, from: nat, n: nat, p: nat)
    requires n < p
    ensures PartsIn(n, p) == 0 && Cuts(count, from, n, p) == map[]
  {
  }

  lemma OneFull(n: nat, p: nat)
    requires 0 < p <= n
    ensures PartsIn(n, p) == 1 + PartsIn(n - p, p)
  {
  }

  lemma FlushPartsAre(held: File, next: nat, from: nat, end: nat, at: nat, p: nat)
    requires p > 0 && IsMultiple(from, p) && IsMultiple(at, p) && from <= at <= end
    requires if FirstHole(held, next) == end then at == from else end - at < p
    ensures PartsIn(from, p) + FlushParts(held, next, from, end, p) == PartsIn(at, p) + if at < end then 1 else 0
  {
    hide IsMultiple;
    PartsFrom(from, end, p);
    PartsFrom(at, end, p);
  }

  lemma EmptyFills(file: File)
    requires Fillable(file)
    ensures file == map[] || 0 in file
  {
  }

  lemma FailsIs(failing: set<nat>, flying': set<nat>, flying: set<nat>, count: nat, count': nat)
    requires count <= count' && forall n :: n in flying' <==> n in flying || count < n <= count'
    ensures SomeFail(failing, flying, count, count' - count) <==> flying' * failing != {}
  {
    if n :| n in failing && (n in flying || count < n <= count + (count' - count)) { assert n in flying' * failing; }
  }

  lemma RenderedWhole(file: File, s: seq<byte>)
    requires Renders(file, s)
    ensures s == Slice(file, 0, |s|)
  {
  }

  lemma SameFlights(was: map<nat, Chunk>, flying: map<nat, Chunk>, cuts: map<nat, nat>)
    requires FlightEnds(flying) == FlightEnds(was) + cuts
    ensures forall n :: n in flying <==> n in was || n in cuts
  {
    assert forall n :: n in flying <==> n in FlightEnds(flying);
    assert forall n :: n in was <==> n in FlightEnds(was);
  }

  /** Every queued chunk starts past `n`. */
  ghost predicate AllPast(q: Queue, n: nat) {
    forall o | o in q :: n < o
  }

  lemma NothingPast(q: Queue, n: nat)
    requires AllPast(q, n)
    ensures !exists o :: o in q && o <= n
  {
  }

  lemma WrittenFromTheStart(file: File, n: nat)
    requires Dense(file, n)
    ensures Holes(file, n) == 0 && (n == 0 || (0 in file && n - 1 in file))
  {
    HolesWritten(file, 0, n);
  }

  /** A queue cut off at `n`. */
  function TrimQueue(q: Queue, n: nat): Queue {
    map o | o in q && o < n :: if o + |q[o]| > n then q[o][..n - o] else q[o]
  }

  /** The kept bytes of the last part, where it stands, are the bytes the file has there. */
  lemma LastSentAnswers(file: File, sent: seq<byte>, buf: seq<byte>, last: Chunk, offset: nat, length: nat)
    requires last.End() == |sent| && sent[last.offset..] == last.data
    requires Renders(file, sent + buf) && Dense(file, |sent| + |buf|)
    requires last.offset <= offset && offset + length <= last.End()
    ensures HoldsAt(file, offset, last.data[offset - last.offset..offset - last.offset + length])
  {
    hide Renders, Dense, HoldsAt;
    RangeOfRendered(file, sent + buf, offset, length);
    var start := offset - last.offset;
    assert (sent + buf)[offset..offset + length] == sent[offset..offset + length];
    assert sent[last.offset..][start..start + length] == sent[offset..offset + length];
  }

  lemma NothingHeld(file: File, offset: nat)
    ensures HoldsAt(file, offset, [])
  {
  }

  ghost predicate HeadHolds(file: File, head: seq<byte>, kept: nat) {
    forall x | x in file && x < kept :: x < |head| && head[x] == file[x]
  }

  /** The front of the file as it is kept after a write. */
  function HeadNext(head: seq<byte>, kept: nat, offset: nat, data: seq<byte>): (r: seq<byte>)
    ensures |head| <= kept ==> |r| <= kept
  {
    if offset >= kept then head
    else
      var take := if offset + |data| > kept then data[..kept - offset] else data;
      var end := offset + |take|;
      var long := if end > |head| then head + seq(end - |head|, i => 0) else head;
      long[..offset] + take + long[end..]
  }

  lemma HeadNextAt(head: seq<byte>, kept: nat, offset: nat, data: seq<byte>)
    ensures var r := HeadNext(head, kept, offset, data);
            && |head| <= |r| && (offset < kept ==> (if offset + |data| < kept then offset + |data| else kept) <= |r|)
            && forall x | 0 <= x < |r| && x < kept ::
                 r[x] == if offset <= x < offset + |data| then data[x - offset] else if x < |head| then head[x] else 0
  {
  }

  lemma HeadNextHolds(file: File, head: seq<byte>, kept: nat, offset: nat, data: seq<byte>)
    requires HeadHolds(file, head, kept)
    ensures HeadHolds(Overlay(file, offset, data), HeadNext(head, kept, offset, data), kept)
  {
    hide HeadNext;
    HeadNextAt(head, kept, offset, data);
  }

  lemma HeadAnswers(file: File, head: seq<byte>, kept: nat, offset: nat, length: nat, next: nat)
    requires HeadHolds(file, head, kept) && |head| <= kept
    requires Dense(file, next) && offset + length <= next && offset + length <= |head|
    ensures HoldsAt(file, offset, head[offset..offset + length])
  {
  }

  lemma BufferAnswers(file: File, sent: seq<byte>, buf: seq<byte>, offset: nat, length: nat)
    requires Renders(file, sent + buf) && Dense(file, |sent| + |buf|)
    requires |sent| <= offset && offset + length <= |sent| + |buf|
    ensures HoldsAt(file, offset, buf[offset - |sent|..offset - |sent| + length])
    ensures Slice(file, offset, length) == buf[offset - |sent|..offset - |sent| + length]
  {
    RangeOfRendered(file, sent + buf, offset, length);
    assert (sent + buf)[offset..offset + length] == buf[offset - |sent|..offset - |sent| + length];
  }

  /** The chunk to be taken is the one every byte it reaches past the end is taken from. */
  lemma ChunkIsLowest(q: Queue, s: nat, next: nat, x: nat)
    requires next in q && next <= s <= x < next + |q[next]|
    requires forall o | o in q && o <= s :: o < next ==> o + |q[o]| <= s
    ensures Lowest(q, next, x)
  {
    assert Covers(q, next, x);
  }

  /** Taking the lowest chunk that reaches past the end of what has been taken extends the front of the file. */
  lemma ChunkJoins(q: Queue, file: File, s: seq<byte>, next: nat)
    requires Renders(file, s) && Shows(q, file, |s|)
    requires next in q && next <= |s| < next + |q[next]|
    requires forall o | o in q && o <= |s| :: o < next ==> o + |q[o]| <= |s|
    ensures var end := next + |q[next]|;
            && Renders(file, s + q[next][|s| - next..]) && Shows(q - {next}, file, end)
            && forall x | |s| <= x < end :: x in file
  {
    hide Shows;
    var end, t := next + |q[next]|, s + q[next][|s| - next..];
    forall x | |s| <= x < end ensures x in file && file[x] == q[next][x - next] {
      ChunkIsLowest(q, |s|, next, x);
      ShownByte(q, file, |s|, next, x);
    }
    assert forall x | |s| <= x < |t| :: t[x] == q[next][x - next];
    ShowsLater(q, file, |s|, file, end);
    DroppingShows(q, q - {next}, file, end);
  }

  /** The buffer after `data` is written over it from `start` on, past its end if need be. */
  function Rewritten(buf: seq<byte>, start: nat, data: seq<byte>): (r: seq<byte>)
    requires start <= |buf|
  {
    buf[..start] + data + if start + |data| <= |buf| then buf[start + |data|..] else []
  }

  lemma RewriteJoins(q: Queue, file: File, sent: seq<byte>, buf: seq<byte>, offset: nat, data: seq<byte>)
    requires Renders(file, sent + buf) && Shows(q, file, |sent| + |buf|)
    requires |sent| <= offset < |sent| + |buf|
    ensures var buf' := Rewritten(buf, offset - |sent|, data);
            Renders(Overlay(file, offset, data), sent + buf') && Shows(q, Overlay(file, offset, data), |sent| + |buf'|)
  {
    hide Shows;
    var buf' := Rewritten(buf, offset - |sent|, data);
    var file' := Overlay(file, offset, data);
    forall x | 0 <= x < |sent + buf'| ensures (sent + buf')[x] == ByteAt(file', x) {
      assert x < |sent| + |buf| ==> (sent + buf)[x] == ByteAt(file, x);
    }
    ShowsLater(q, file, |sent| + |buf|, file', |sent| + |buf'|);
  }

  /** Cutting the file at `n` leaves the first `n` bytes of what was in hand. */
  lemma CutRenders(file: File, s: seq<byte>, n: nat)
    requires Renders(file, s) && n <= |s|
    ensures Renders(CutAt(file, n), s[..n])
  {
  }

  lemma TrimmedNoEmpty(q: Queue, n: nat)
    requires NoEmpty(q)
    ensures NoEmpty(TrimQueue(q, n))
  {
  }

  lemma CutDense(file: File, m: nat, n: nat)
    requires Dense(file, m) && n <= m
    ensures Dense(CutAt(file, n), n)
  {
  }

  lemma CutHead(file: File, head: seq<byte>, kept: nat, n: nat)
    requires HeadHolds(file, head, kept)
    ensures HeadHolds(CutAt(file, n), head, kept)
  {
  }

  /** Nothing at or past the cut is queued any more. */
  lemma TrimmedShows(q: Queue, file: File, n: nat)
    ensures Shows(TrimQueue(q, n), CutAt(file, n), n)
    ensures Shows(map[], CutAt(file, n), n)
  {
  }

  lemma FirstBytes(sent: seq<byte>, buf: seq<byte>, last: Chunk, n: nat)
    requires last.offset < n <= last.End() == |sent| && sent[last.offset..] == last.data
    ensures (sent + buf)[..n] == sent[..last.offset] + last.data[..n - last.offset]
  {
  }

  /** The slabs taken are exactly the ones handed out, each under its number, numbers ascending. */
  ghost predicate AllHanded(handed: map<nat, Chunk>, slabs: seq<Chunk>, numbers: seq<nat>) {
    && |slabs| == |numbers|
    && (forall n :: n in handed <==> n in numbers)
    && (forall i | 0 <= i < |numbers| :: numbers[i] in handed && handed[numbers[i]] == slabs[i])
    && (forall i, j | 0 <= i < j < |numbers| :: numbers[i] < numbers[j])
  }

  lemma LandsOne(flying: set<nat>, failing: set<nat>, n: nat)
    requires n in flying
    ensures flying * failing != {} <==> n in failing || (flying - {n}) * failing != {}
  {
    if n in failing { assert n in flying * failing; }
    if x :| x in flying * failing { assert x == n || x in (flying - {n}) * failing; }
    if x :| x in (flying - {n}) * failing { assert x in flying * failing; }
  }

  /** Where the parts end that land of those on their way. */
  ghost function Landing(flying: map<nat, nat>, failing: set<nat>): set<nat> {
    set n | n in flying && n !in failing :: flying[n]
  }

  /** A cut behind what was sent falls inside the part kept, or where a part ends that has landed once nothing is on its
      way. */
  ghost predicate CanCut(kept: Chunk, ends: set<nat>, flying: map<nat, nat>, eof: nat, failing: set<nat>) {
    InsideKept(kept.data, kept.offset, eof) || eof in ends + Landing(flying, failing)
  }

  /** Where the landed parts end once nothing is on its way and the file has been cut behind what was sent, or could not be. */
  ghost function EndsAfter(ends: set<nat>, flying: map<nat, nat>, eof: nat, failing: set<nat>, cut: bool, p: nat): set<nat>
    requires p > 0
  {
    var landed := ends + Landing(flying, failing);
    if cut then EndingBy(landed, Boundary(eof, p)) else landed
  }

  lemma LandsAt(flying: map<nat, Chunk>, failing: set<nat>, n: nat)
    requires n in flying
    ensures Landing(FlightEnds(flying), failing)
            == Landing(FlightEnds(flying - {n}), failing) + if n in failing then {} else {flying[n].End()}
  {
    var ends, rest := FlightEnds(flying), FlightEnds(flying - {n});
    assert forall m :: m in ends && m != n <==> m in rest;
    assert forall m | m in rest :: rest[m] == ends[m];
  }

  lemma NoneLanding(failing: set<nat>)
    ensures Landing(FlightEnds(map[]), failing) == {}
  {
  }

  /** The end falls inside the part whose bytes are kept. */
  predicate InsideKept(kept: seq<byte>, keptOffset: nat, n: nat) {
    keptOffset < n < keptOffset + |kept|
  }

  lemma HandedAre(handed: map<nat, Chunk>, slabs: seq<Chunk>, numbers: seq<nat>)
    requires AllHanded(handed, slabs, numbers)
    ensures |slabs| == |numbers| && forall n :: n in handed <==> n in numbers
  {
  }

  lemma NoneYet()
    ensures AllHanded(map[], [], [])
  {
  }

  lemma HandedMore(handed: map<nat, Chunk>, slabs: seq<Chunk>, numbers: seq<nat>, slab: Chunk, n: nat)
    requires AllHanded(handed, slabs, numbers) && forall m | m in numbers :: m < n
    ensures AllHanded(handed[n := slab], slabs + [slab], numbers + [n])
  {
  }

  lemma NoneHanded(handed: map<nat, Chunk>, slabs: seq<Chunk>, numbers: seq<nat>)
    requires AllHanded(handed, slabs, numbers) && slabs == []
    ensures handed == map[]
  {
  }

  lemma NextHanded(handed: map<nat, Chunk>, slabs: seq<Chunk>, numbers: seq<nat>)
    requires AllHanded(handed, slabs, numbers) && slabs != []
    ensures numbers[0] in handed && handed[numbers[0]] == slabs[0]
    ensures AllHanded(handed - {numbers[0]}, slabs[1..], numbers[1..])
  {
    assert numbers == [numbers[0]] + numbers[1..];
  }

  class Upload {
    const maxLength: nat
    const headKept: nat

    var partCount: nat
    var parts: seq<SentPart>
    var totalSize: nat
    var nextOffset: nat
    var pending: Queue
    var buf: seq<byte>
    var bufOffset: nat
    var lastSent: seq<byte>
    var lastSentOffset: nat
    var head: seq<byte>
    var partErr: bool

    /** The parts on their way to the backend, by number. */
    var inFlight: map<nat, Chunk>

    /** What the backend has taken under each number. */
    var stored: map<nat, seq<byte>>

    /** The size the file reports while the upload runs. */
    var size: nat

    /** The file as the client wrote it. */
    ghost var file: File

    /** The file as the upload has it, in hand, sent or queued: what it is going to store. */
    ghost var held: File

    /** The account of every part issued. */
    ghost var ledger: Ledger

    /** The parts cut from the buffer and not yet on their way. */
    ghost var handed: map<nat, Chunk>

    /** The buffer starts where the sent parts end and ends where the file has got to. */
    ghost predicate Aligned()
      reads this
    {
      bufOffset == |ledger.sent| && bufOffset + |buf| == nextOffset == totalSize
    }

    /** The fields agree with the ledger. */
    ghost predicate Booked()
      reads this`ledger, this`partCount, this`parts, this`partErr, this`stored, this`inFlight, this`handed
    {
      && ledger.count == partCount && ledger.parts == parts && ledger.failed == partErr && ledger.partSize == maxLength
      && ledger.stored == stored
      && ledger.flying == inFlight + handed && inFlight.Keys !! handed.Keys
    }

    ghost predicate Valid()
      reads this
    {
      maxLength > 0 && Aligned() && Booked()
    }

    /** Everything in hand or sent, which is the file up to `nextOffset`. */
    ghost function Contents(): seq<byte>
      reads this`ledger, this`buf
    {
      ledger.sent + buf
    }

    /** The bytes in hand and sent are the front of what the upload has, and the queue is the rest of it. */
    ghost predicate Faithful()
      reads this`held, this`ledger, this`buf, this`pending, this`nextOffset
    {
      Renders(held, Contents()) && Shows(pending, held, nextOffset)
    }

    lemma FaithfulMeans()
      requires Faithful()
      ensures Shows(pending, held, nextOffset)
    {
    }

    /** The kept bytes are those of the last part that stands. */
    ghost predicate LastKept()
      reads this`ledger, this`lastSent, this`lastSentOffset
    {
      IsLast(ledger, Chunk(lastSentOffset, lastSent))
    }

    /** The kept front of the file is the client's. */
    ghost predicate HeadExact()
      reads this`head, this`file
    {
      |head| <= headKept && HeadHolds(file, head, headKept)
    }

    /** What holds between requests, until the flush sends the last, shorter part. */
    ghost predicate Settled()
      reads this
    {
      && |buf| < maxLength && handed == map[] && ledger.even
      && size == totalSize && NoEmpty(pending)
      && Faithful() && Dense(held, nextOffset) && HeadExact()
      && (lastSent == [] || LastKept() || lastSentOffset == bufOffset || lastSentOffset >= bufOffset + maxLength)
    }

    /** The kept bytes of the last part are not those of a part cut off right at the end of what stands. */
    ghost predicate LastSentCurrent()
      reads this`lastSent, this`lastSentOffset, this`bufOffset
    {
      lastSent == [] || lastSentOffset != bufOffset
    }

    /** The part whose bytes are kept. */
    ghost function LastPart(): Chunk
      reads this`lastSent, this`lastSentOffset
    {
      Chunk(lastSentOffset, lastSent)
    }

    /** The parts cut off the buffer since it began at `from` have been numbered and put on their way, and the last of them
        is kept. */
    ghost predicate Dispatched(count: nat, from: nat, flying: map<nat, nat>, kept: Chunk)
      requires maxLength > 0
      reads this
    {
      && from <= nextOffset && partCount == count + PartsIn(nextOffset - from, maxLength)
      && FlightEnds(inFlight) == flying + Cuts(count, from, nextOffset - from, maxLength)
      && (if partCount == count then LastPart() == kept else LastKept())
    }

    constructor (maxLength: nat, headKept: nat)
      requires maxLength > 0
      ensures Valid() && Settled() && LastSentCurrent()
      ensures file == held == map[] && pending == map[] && nextOffset == 0 && inFlight == map[] && !partErr
      ensures this.maxLength == maxLength && this.headKept == headKept
      ensures partCount == 0 && parts == [] && head == [] && LastPart() == Chunk(0, [])
    {
      this.maxLength, this.headKept := maxLength, headKept;
      partCount, parts, totalSize, nextOffset, pending := 0, [], 0, 0, map[];
      buf, bufOffset, lastSent, lastSentOffset, head := [], 0, [], 0, [];
      partErr, inFlight, stored, size := false, map[], map[], 0;
      file, held, ledger, handed := map[], map[], NewLedger(maxLength), map[];
    }

    /** The bytes of the range if something in memory answers for all of it: the head, or else the part kept, or else the
        buffer. As long as the upload has the file as the client wrote it, a read inside the file is answered with what the
        file holds by the head in any case, and by the others unless the part kept was cut off. */
    method ReadBuffered(offset: nat, length: nat) returns (data: seq<byte>, ok: bool)
      requires Valid() && Settled()
      ensures ok ==> |data| == length
      ensures if offset + length <= |head| then ok && data == head[offset..offset + length]
              else if lastSentOffset <= offset && offset + length <= lastSentOffset + |lastSent| then
                ok && data == lastSent[offset - lastSentOffset..offset - lastSentOffset + length]
              else if bufOffset <= offset && offset + length <= size then ok && data == Slice(held, offset, length)
              else !ok
      ensures ok && offset + length <= size && file == held && (offset + length <= |head| || LastSentCurrent())
              ==> HoldsAt(file, offset, data)
    {
      hide Balanced, Shows, Renders, Dense, HeadHolds, HoldsAt, IsLast;
      ghost var inside := offset + length <= size && file == held;
      if offset + length <= |head| {
        data, ok := head[offset..offset + length], true;
        if inside {
          HeadAnswers(file, head, headKept, offset, length, nextOffset);
        }
        return;
      }
      if offset >= lastSentOffset && offset + length <= lastSentOffset + |lastSent| {
        var start := offset - lastSentOffset;
        data, ok := lastSent[start..start + length], true;
        if inside && LastSentCurrent() && length > 0 {
          BeforeLast(ledger, LastPart());
          LastSentAnswers(held, ledger.sent, buf, LastPart(), offset, length);
        } else if inside && LastSentCurrent() {
          assert data == [];
          NothingHeld(held, offset);
        }
        return;
      }
      if offset < bufOffset || offset + length > bufOffset + |buf| {
        return [], false;
      }
      var start := offset - bufOffset;
      data, ok := buf[start..start + length], true;
      BufferAnswers(held, ledger.sent, buf, offset, length);
    }

    /** Keeps what the write carries of the front of the file. */
    method KeepHead(offset: nat, data: seq<byte>)
      modifies this`head
      ensures head == HeadNext(old(head), headKept, offset, data)
    {
      if offset < headKept {
        var take := data;
        if offset + |take| > headKept {
          take := take[..headKept - offset];
        }
        var end := offset + |take|;
        if end > |head| {
          head := head + seq(end - |head|, i => 0);
        }
        head := head[..offset] + take + head[end..];
      }
    }

    /** One pass over the queue: drops what has been taken already and finds the lowest chunk that can be joined. */
    method PickNext() returns (next: Option<nat>)
      modifies this`pending
      ensures Drained(old(pending), pending, nextOffset)
      ensures forall o | o in pending && o <= nextOffset :: nextOffset < o + |pending[o]|
      ensures next.None? ==> AllPast(pending, nextOffset)
      ensures next.Some? ==> next.value in pending && next.value <= nextOffset
      ensures next.Some? ==> forall o | o in pending && o <= nextOffset :: next.value <= o
    {
      next := None;
      var todo := pending.Keys;
      while todo != {}
        invariant forall o | o in pending :: o in old(pending) && pending[o] == old(pending)[o]
        invariant forall o | o in old(pending) && o !in pending :: o + |old(pending)[o]| <= nextOffset && o !in todo
        invariant todo <= old(pending).Keys
        invariant forall o | o in pending && o <= nextOffset && o !in todo :: nextOffset < o + |pending[o]|
        invariant next.None? ==> forall o | o in pending && o !in todo :: nextOffset < o
        invariant next.Some? ==> next.value in pending && next.value <= nextOffset && next.value !in todo
        invariant next.Some? ==> forall o | o in pending && o <= nextOffset && o !in todo :: next.value <= o
        decreases todo
      {
        var o :| o in todo;
        todo := todo - {o};
        if o > nextOffset {
        } else if o + |pending[o]| <= nextOffset {
          pending := pending - {o};
        } else if next.None? || o < next.value {
          next := Some(o);
        }
      }
    }

    /** Joins the queued chunk at `next` onto the buffer. */
    method JoinChunk(next: nat)
      requires Aligned() && Faithful() && next in pending && next <= nextOffset < next + |pending[next]|
      requires forall o | o in pending && o <= nextOffset :: next <= o
      modifies this`pending, this`buf, this`bufOffset, this`nextOffset, this`totalSize
      ensures Aligned() && Faithful() && bufOffset == old(bufOffset)
      ensures old(nextOffset) < nextOffset == next + |old(pending)[next]| && pending == old(pending) - {next}
      ensures forall x | old(nextOffset) <= x < nextOffset :: x in held
    {
      hide Balanced, Shows, Renders;
      ChunkJoins(pending, held, Contents(), next);
      if |buf| == 0 {
        bufOffset := nextOffset;
      }
      var data := pending[next];
      assert ledger.sent + (buf + data[nextOffset - next..]) == Contents() + data[nextOffset - next..];
      buf := buf + data[nextOffset - next..];
      nextOffset := next + |data|;
      totalSize := nextOffset;
      pending := pending - {next};
    }

    /** Joins onto the buffer as much of the queue as reaches it. */
    method TakePending()
      requires Aligned() && Faithful()
      modifies this`pending, this`buf, this`bufOffset, this`nextOffset, this`totalSize
      ensures Aligned() && Faithful() && bufOffset == old(bufOffset) && old(nextOffset) <= nextOffset
      ensures Drained(old(pending), pending, nextOffset) && AllPast(pending, nextOffset)
      ensures forall x | old(nextOffset) <= x < nextOffset :: x in held
    {
      hide Balanced, Shows, Renders, Drained, AllPast;
      DrainedNone(pending, nextOffset);
      while true
        invariant Aligned() && Faithful() && bufOffset == old(bufOffset) && old(nextOffset) <= nextOffset
        invariant Drained(old(pending), pending, nextOffset)
        invariant forall x | old(nextOffset) <= x < nextOffset :: x in held
        decreases pending.Keys
      {
        ghost var q, m := pending, nextOffset;
        var next := PickNext();
        DrainedFurther(old(pending), q, m, pending, m);
        DrainedShows(q, pending, held, nextOffset);
        if next.None? {
          return;
        }
        DrainedOne(pending, next.value, next.value + |pending[next.value]|);
        ghost var q' := pending;
        JoinChunk(next.value);
        DrainedFurther(old(pending), q', m, pending, nextOffset);
      }
    }

    /** Gives the part the next number. */
    method Issue(slab: Chunk)
      requires Booked() && slab.offset == |ledger.sent| && |slab.data| > 0
      modifies this`partCount, this`ledger, this`handed
      ensures Booked() && partCount == old(partCount) + 1
      ensures ledger == Issued(old(ledger), slab) && handed == old(handed)[partCount := slab]
    {
      hide Balanced;
      assert Issued(ledger, slab).count == partCount + 1;
      assert (inFlight + handed)[partCount + 1 := slab] == inFlight + handed[partCount + 1 := slab];
      ledger := Issued(ledger, slab);
      partCount := partCount + 1;
      handed := handed[partCount := slab];
    }

    /** Detaches one full part from the front of the buffer and keeps its bytes as the last sent. */
    method CutSlab() returns (slab: Chunk)
      requires Valid() && |buf| >= maxLength
      modifies this`partCount, this`buf, this`bufOffset, this`lastSent, this`lastSentOffset, this`ledger, this`handed
      ensures Valid() && Contents() == old(Contents()) && |buf| == old(|buf|) - maxLength
      ensures bufOffset == old(bufOffset) + maxLength == slab.End()
      ensures partCount == old(partCount) + 1 && handed == old(handed)[partCount := slab]
      ensures ledger.even == old(ledger.even)
      ensures LastKept() && lastSentOffset < bufOffset
    {
      hide Balanced;
      slab := Chunk(bufOffset, buf[..maxLength]);
      assert (ledger.sent + slab.data) + buf[maxLength..] == Contents();
      Issue(slab);
      buf := buf[maxLength..];
      bufOffset := bufOffset + maxLength;
      lastSent, lastSentOffset := slab.data, slab.offset;
    }

    /** Cuts off as many whole parts as the buffer holds, and numbers them. */
    method TakeSlabs() returns (slabs: seq<Chunk>, numbers: seq<nat>)
      requires Valid() && handed == map[]
      modifies this`partCount, this`buf, this`bufOffset, this`lastSent, this`lastSentOffset, this`ledger, this`handed
      ensures Valid() && |buf| < maxLength && Contents() == old(Contents()) && old(bufOffset) <= bufOffset
      ensures AllHanded(handed, slabs, numbers)
      ensures partCount == old(partCount) + PartsIn(|old(buf)|, maxLength) == old(partCount) + |slabs|
      ensures FlightEnds(handed) == Cuts(old(partCount), old(bufOffset), |old(buf)|, maxLength)
      ensures ledger.even == old(ledger.even)
      ensures slabs == [] ==> ledger == old(ledger) && lastSent == old(lastSent)
                              && lastSentOffset == old(lastSentOffset) && bufOffset == old(bufOffset) && buf == old(buf)
      ensures slabs != [] ==> LastKept() && lastSentOffset < bufOffset
    {
      hide Balanced, Booked, LastKept, AllHanded, FlightEnds, Cuts, PartsIn;
      slabs, numbers := [], [];
      NoneYet();
      NoFlight();
      while |buf| >= maxLength
        invariant Valid() && Contents() == old(Contents()) && old(bufOffset) <= bufOffset
        invariant AllHanded(handed, slabs, numbers) && forall n | n in numbers :: n <= partCount
        invariant FlightEnds(handed) + Cuts(partCount, bufOffset, |buf|, maxLength)
                  == Cuts(old(partCount), old(bufOffset), |old(buf)|, maxLength)
        invariant partCount == old(partCount) + |slabs| && |slabs| + PartsIn(|buf|, maxLength) == PartsIn(|old(buf)|, maxLength)
        invariant ledger.even == old(ledger.even)
        invariant slabs == [] ==> ledger == old(ledger) && lastSent == old(lastSent)
                                  && lastSentOffset == old(lastSentOffset) && bufOffset == old(bufOffset) && buf == old(buf)
        invariant slabs != [] ==> LastKept() && lastSentOffset < bufOffset
        decreases |buf|
      {
        ghost var was, from, n := handed, bufOffset, |buf|;
        var slab := CutSlab();
        CutsNext(was, partCount - 1, from, n, maxLength, slab);
        OneFull(n, maxLength);
        HandedMore(was, slabs, numbers, slab, partCount);
        slabs := slabs + [slab];
        numbers := numbers + [partCount];
      }
      NoFull(partCount, bufOffset, |buf|, maxLength);
      assert FlightEnds(handed) + map[] == FlightEnds(handed);
    }

    /** Puts one part on its way. */
    method SendPart(number: nat, slab: Chunk)
      requires Booked() && number in handed && handed[number] == slab
      modifies this`inFlight, this`handed
      ensures Booked() && handed == old(handed) - {number} && inFlight == old(inFlight)[number := slab]
    {
      hide Balanced;
      assert inFlight[number := slab] + (handed - {number}) == inFlight + handed;
      inFlight := inFlight[number := slab];
      handed := handed - {number};
    }

    method SendParts(slabs: seq<Chunk>, numbers: seq<nat>)
      requires Booked() && AllHanded(handed, slabs, numbers)
      modifies this`inFlight, this`handed
      ensures Booked() && handed == map[] && inFlight == old(inFlight + handed)
    {
      hide Balanced, AllHanded;
      HandedAre(handed, slabs, numbers);
      assert |slabs| == |numbers| && slabs[0..] == slabs && numbers[0..] == numbers;
      for i := 0 to |slabs|
        invariant Booked() && AllHanded(handed, slabs[i..], numbers[i..])
        invariant inFlight + handed == old(inFlight + handed)
      {
        NextHanded(handed, slabs[i..], numbers[i..]);
        SendPart(numbers[i], slabs[i]);
        assert slabs[i..][1..] == slabs[i + 1..] && numbers[i..][1..] == numbers[i + 1..];
      }
      NoneHanded(handed, slabs[|slabs|..], numbers[|slabs|..]);
    }

    /** Sends every full part the buffer holds. */
    method SendFullParts()
      requires Valid() && handed == map[]
      modifies this`partCount, this`buf, this`bufOffset, this`lastSent, this`lastSentOffset
      modifies this`ledger, this`handed, this`inFlight
      ensures Valid() && handed == map[] && |buf| < maxLength && Contents() == old(Contents()) && old(bufOffset) <= bufOffset
      ensures ledger.even == old(ledger.even)
      ensures partCount == old(partCount) + PartsIn(|old(buf)|, maxLength)
      ensures FlightEnds(inFlight) == FlightEnds(old(inFlight)) + Cuts(old(partCount), old(bufOffset), |old(buf)|, maxLength)
      ensures if partCount == old(partCount)
              then ledger == old(ledger) && LastPart() == old(LastPart()) && bufOffset == old(bufOffset) && buf == old(buf)
              else LastKept() && lastSentOffset < bufOffset
    {
      hide Balanced, IsLast, AllHanded, PartsIn, FlightEnds;
      var slabs, numbers := TakeSlabs();
      FlightsJoin(inFlight, handed);
      SendParts(slabs, numbers);
    }

    /** A write over bytes still in the buffer. */
    method Rewrite(offset: nat, data: seq<byte>)
      requires Aligned() && Faithful() && Dense(held, nextOffset) && bufOffset <= offset < nextOffset
      modifies this`buf, this`nextOffset, this`totalSize, this`held
      ensures Aligned() && Faithful() && Dense(held, nextOffset) && held == Overlay(old(held), offset, data)
      ensures nextOffset == NextAfter(held, old(nextOffset), offset, |data|)
    {
      hide Balanced, Shows, Renders;
      var start := offset - bufOffset;
      RewriteJoins(pending, held, ledger.sent, buf, offset, data);
      held := Overlay(held, offset, data);
      buf := Rewritten(buf, start, data);
      if offset + |data| > nextOffset {
        nextOffset := offset + |data|;
        totalSize := nextOffset;
      }
    }

    /** A write at or past the end of what has been joined. */
    method Enqueue(offset: nat, data: seq<byte>)
      requires Aligned() && Faithful() && Dense(held, nextOffset) && NoEmpty(pending) && nextOffset <= offset && data != []
      modifies this`pending, this`buf, this`bufOffset, this`nextOffset, this`totalSize, this`held
      ensures Aligned() && Faithful() && Dense(held, nextOffset) && NoEmpty(pending) && bufOffset == old(bufOffset)
      ensures old(nextOffset) <= nextOffset && held == Drawing(old(held), old(pending)[offset := data], old(nextOffset))
      ensures nextOffset == NextAfter(held, old(nextOffset), offset, |data|)
      ensures pending == Past(old(pending)[offset := data], nextOffset)
    {
      hide Balanced, Shows, Renders, Drained, AllPast, Drawing, Dense;
      ghost var was := held;
      pending := pending[offset := data];
      held := Drawing(held, pending, nextOffset);
      DrawingShows(was, pending, nextOffset);
      DrawingRenders(was, held, Contents());
      ghost var q, from := pending, nextOffset;
      TakePending();
      DrainedPast(q, pending, nextOffset);
      DrainedNoEmpty(q, pending, nextOffset);
      NextIsHole(pending, held, nextOffset);
      FirstHoleIs(held, from, nextOffset);
      DenserStill(was, held, from, nextOffset);
    }

    /** Puts a write where it belongs: into the buffer or into the queue. */
    method Place(offset: nat, data: seq<byte>)
      requires Aligned() && Faithful() && Dense(held, nextOffset) && NoEmpty(pending) && bufOffset <= offset && data != []
      modifies this`pending, this`buf, this`bufOffset, this`nextOffset, this`totalSize, this`held, this`size
      ensures Aligned() && Faithful() && Dense(held, nextOffset) && NoEmpty(pending)
      ensures bufOffset == old(bufOffset) && size == totalSize && old(nextOffset) <= nextOffset
      ensures held == Laid(old(held), old(pending), old(nextOffset), offset, data)
      ensures nextOffset == NextAfter(held, old(nextOffset), offset, |data|)
      ensures pending == if offset < old(nextOffset) then old(pending) else Past(old(pending)[offset := data], nextOffset)
    {
      hide Balanced, Booked, Shows, Renders, Dense, NoEmpty, Drawing, Past, HeadExact, LastKept;
      if offset < nextOffset {
        Rewrite(offset, data);
      } else {
        Enqueue(offset, data);
      }
      size := totalSize;
    }

    /** Takes a write in, wherever it lands, and sends the parts it fills. */
    method Take(offset: nat, data: seq<byte>)
      requires Valid() && Settled() && bufOffset <= offset && data != []
      modifies this`pending, this`buf, this`bufOffset, this`nextOffset, this`totalSize, this`held, this`size
      modifies this`partCount, this`lastSent, this`lastSentOffset, this`ledger, this`handed, this`inFlight
      ensures Valid() && Settled() && held == Laid(old(held), old(pending), old(nextOffset), offset, data)
      ensures nextOffset == NextAfter(held, old(nextOffset), offset, |data|)
      ensures pending == if offset < old(nextOffset) then old(pending) else Past(old(pending)[offset := data], nextOffset)
      ensures Dispatched(old(partCount), old(bufOffset), old(FlightEnds(inFlight)), old(LastPart()))
      ensures old(LastSentCurrent()) ==> LastSentCurrent()
    {
      hide Balanced, LastKept, Booked, Shows, Renders, Dense, NoEmpty, HeadExact, Laid, NextAfter, Past, FlightEnds,
           Cuts, PartsIn;
      Place(offset, data);
      SendFullParts();
    }

    /** A write of a client: joined to the buffer, queued, or written over bytes still in the buffer. What the upload has of
        the file afterwards is what the client meant if and only if the write was laid over it or could be queued. */
    method Write(offset: nat, data: seq<byte>) returns (r: WriteResult)
      requires Valid() && Settled() && data != []
      modifies this
      ensures Valid()
      ensures r == PartFailed <==> old(partErr)
      ensures r == AlreadyStored <==> !old(partErr) && offset < old(bufOffset)
      ensures r == Written ==> Settled() && file == Overlay(old(file), offset, data)
      ensures r == Written ==> held == Laid(old(held), old(pending), old(nextOffset), offset, data)
      ensures r == Written ==>
                (held == Overlay(old(held), offset, data) <==>
                 offset < old(nextOffset) || Kept(old(pending), old(held), offset, data))
      ensures r == Written ==> nextOffset == NextAfter(held, old(nextOffset), offset, |data|)
      ensures r == Written && old(nextOffset) <= offset ==>
                nextOffset !in held && old(nextOffset) <= nextOffset && forall x | old(nextOffset) <= x < nextOffset :: x in held
      ensures r == Written && offset < old(nextOffset) ==>
                nextOffset == if old(nextOffset) < offset + |data| then offset + |data| else old(nextOffset)
      ensures r == Written ==>
                pending == if offset < old(nextOffset) then old(pending) else Past(old(pending)[offset := data], nextOffset)
      ensures r == Written ==> Dispatched(old(partCount), old(bufOffset), old(FlightEnds(inFlight)), old(LastPart()))
      ensures r == Written ==> head == HeadNext(old(head), headKept, offset, data)
      ensures r == Written && old(LastSentCurrent()) ==> LastSentCurrent()
      ensures r != Written ==> file == old(file) && held == old(held) && ledger == old(ledger) && buf == old(buf)
                               && pending == old(pending) && inFlight == old(inFlight)
      ensures partErr == old(partErr) && parts == old(parts)
    {
      hide Balanced, Booked, LastKept, Shows, Renders, Dense, Kept, HeadHolds, HeadNext, Laid, NextAfter, Past,
           NoEmpty, FlightEnds, Dispatched, Faithful, Contents;
      assert Shows(pending, held, nextOffset) by { FaithfulMeans(); }
      if partErr {
        return PartFailed;
      }
      LaidAsMeant(held, pending, nextOffset, offset, data);
      HeadNextHolds(file, head, headKept, offset, data);
      KeepHead(offset, data);
      if offset < nextOffset && offset < bufOffset {
        return AlreadyStored;
      }
      file := Overlay(file, offset, data);
      Take(offset, data);
      NextMeans(held, old(nextOffset), offset, |data|);
      r := Written;
    }

    /** One part reaches the backend, or fails to. */
    method Land(number: nat, fails: bool)
      requires Booked() && number in inFlight && handed == map[]
      modifies this`inFlight, this`parts, this`partErr, this`ledger, this`stored
      ensures Booked() && inFlight == old(inFlight) - {number} && partErr == (old(partErr) || fails)
      ensures ledger == Arrived(old(ledger), number, fails)
      ensures ledger.sent == old(ledger.sent) && ledger.even == old(ledger.even) && LastKept() == old(LastKept())
      ensures Ends(parts) == old(Ends(parts)) + if fails then {} else {old(inFlight)[number].End()}
    {
      hide Balanced, Ends, IsLast, Arrived;
      var slab := inFlight[number];
      ArrivedIs(ledger, number, fails, LastPart());
      assert (inFlight + handed) - {number} == (inFlight - {number}) + handed;
      ledger := Arrived(ledger, number, fails);
      inFlight := inFlight - {number};
      if fails {
        partErr := true;
      } else {
        EndsMore(parts, SentPart(number, slab.offset, |slab.data|));
        parts := parts + [SentPart(number, slab.offset, |slab.data|)];
        stored := stored[number := slab.data];
      }
    }

    /** Waits until nothing is on its way; the parts land in any order, those in `failing` fail. */
    method Wait(failing: set<nat>)
      requires Booked() && handed == map[]
      modifies this`inFlight, this`parts, this`partErr, this`ledger, this`stored
      ensures Booked() && inFlight == map[]
      ensures ledger.sent == old(ledger.sent) && ledger.even == old(ledger.even)
      ensures LastKept() == old(LastKept())
      ensures partErr <==> old(partErr || inFlight.Keys * failing != {})
      ensures Ends(parts) == old(Ends(parts)) + Landing(old(FlightEnds(inFlight)), failing)
    {
      hide Balanced, Booked, LastKept, Arrived, Ends, EndingBy, Landing, FlightEnds;
      while inFlight != map[]
        invariant Booked() && inFlight.Keys <= old(inFlight.Keys)
        invariant partErr || inFlight.Keys * failing != {} <==> old(partErr || inFlight.Keys * failing != {})
        invariant ledger.sent == old(ledger.sent) && ledger.even == old(ledger.even)
        invariant LastKept() == old(LastKept())
        invariant Ends(parts) + Landing(FlightEnds(inFlight), failing)
                  == old(Ends(parts)) + Landing(old(FlightEnds(inFlight)), failing)
        decreases inFlight.Keys
      {
        assert exists n :: n in inFlight by { assert inFlight.Keys != {}; }
        var number :| number in inFlight;
        LandsOne(inFlight.Keys, failing, number);
        LandsAt(inFlight, failing, number);
        Land(number, number in failing);
      }
      NoneLanding(failing);
    }

    /** Cuts the upload down to `n` bytes if the buffer still reaches that far back. */
    method CutTo(n: nat) returns (ok: bool)
      requires Aligned() && Faithful() && Dense(held, nextOffset)
      modifies this`buf, this`nextOffset, this`totalSize, this`pending, this`held
      ensures Aligned() && Faithful() && Dense(held, nextOffset) && ok == (n >= old(bufOffset))
      ensures !ok || n >= old(totalSize) ==> unchanged(this)
      ensures ok && n < old(totalSize) ==>
                && nextOffset == n && Contents() == old(Contents())[..n] && |buf| <= old(|buf|)
                && pending == TrimQueue(old(pending), n) && held == CutAt(old(held), n)
    {
      hide Balanced, Shows, Renders, Dense;
      if n >= totalSize {
        return true;
      }
      if n < bufOffset {
        return false;
      }
      assert ledger.sent + buf[..n - bufOffset] == Contents()[..n];
      CutRenders(held, Contents(), n);
      TrimmedShows(pending, held, n);
      CutDense(held, nextOffset, n);
      buf := buf[..n - bufOffset];
      nextOffset := n;
      totalSize := n;
      held := CutAt(held, n);
      TrimPending(n);
      ok := true;
    }

    /** Drops what is queued past `n`. */
    method TrimPending(n: nat)
      modifies this`pending
      ensures pending == TrimQueue(old(pending), n)
    {
      var todo := pending.Keys;
      while todo != {}
        invariant todo <= old(pending).Keys
        invariant forall o | o in todo :: o in pending && pending[o] == old(pending)[o]
        invariant forall o | o in pending && o !in todo :: o in TrimQueue(old(pending), n) && pending[o] == TrimQueue(old(pending), n)[o]
        invariant forall o | o in old(pending) && o < n :: o in pending
        decreases todo
      {
        var o :| o in todo;
        todo := todo - {o};
        if o >= n {
          pending := pending - {o};
        } else if o + |pending[o]| > n {
          pending := pending[o := pending[o][..n - o]];
        }
      }
    }

    /** The landed parts that begin before `bound`, in the order they landed. */
    method PartsBefore(bound: nat) returns (kept: seq<SentPart>)
      ensures kept == Before(parts, bound)
    {
      kept := [];
      for i := 0 to |parts|
        invariant kept == Before(parts[..i], bound)
      {
        assert parts[..i + 1][..i] == parts[..i];
        if parts[i].offset < bound {
          kept := kept + [parts[i]];
        }
      }
      assert parts[..|parts|] == parts;
    }

    method EndsPart(n: nat) returns (ends: bool)
      ensures ends <==> n in Ends(parts)
    {
      ends := false;
      for i := 0 to |parts|
        invariant ends <==> n in Ends(parts[..i])
      {
        assert parts[..i + 1] == parts[..i] + [parts[i]];
        EndsMore(parts[..i], parts[i]);
        if parts[i].offset + parts[i].size == n {
          ends := true;
        }
      }
      assert parts[..|parts|] == parts;
    }

    /** The upload stands as it would had only the first `n` bytes of `s` been written, and of the parts that had landed by
        `ends` the ones that end by the end of what was sent are left. */
    ghost predicate CutBack(n: nat, s: seq<byte>, was: File, ends: set<nat>)
      reads this
    {
      && Valid() && Settled()
      && n <= |s| && Contents() == s[..n] && nextOffset == n
      && pending == map[] && held == CutAt(was, n)
      && Ends(parts) == EndingBy(ends, bufOffset)
    }

    /** The new end is within the last part sent, of which a copy was kept. */
    method CutInsideLast(n: nat)
      requires Valid() && Settled() && inFlight == map[] && n < bufOffset
      requires InsideKept(lastSent, lastSentOffset, n)
      modifies this`buf, this`bufOffset, this`nextOffset, this`totalSize, this`size, this`pending, this`file, this`held
      modifies this`parts, this`ledger, this`lastSent, this`lastSentOffset
      ensures CutBack(n, old(Contents()), old(held), old(Ends(parts))) && file == CutAt(old(file), n)
      ensures LastPart() == Chunk(0, [])
    {
      hide Balanced, IsLast, Shows, Renders, Dense, HeadHolds, CutPoint, NoEmpty, Ends, EndingBy;
      BeforeLast(ledger, LastPart());
      FirstBytes(ledger.sent, buf, LastPart(), n);
      RollBack(n, lastSent[..n - lastSentOffset], lastSentOffset, |ledger.live| - 1, lastSentOffset);
      lastSent, lastSentOffset := [], 0;
    }

    /** The new end falls right behind a part that stands. */
    method CutBehindPart(n: nat)
      requires Valid() && Settled() && inFlight == map[] && 0 < n < bufOffset && n in Ends(parts)
      modifies this`buf, this`bufOffset, this`nextOffset, this`totalSize, this`size, this`pending, this`file, this`held
      modifies this`parts, this`ledger
      ensures CutBack(n, old(Contents()), old(held), old(Ends(parts))) && file == CutAt(old(file), n)
      ensures bufOffset == n
    {
      hide Balanced, IsLast, Shows, Renders, Dense, HeadHolds, CutPoint, NoEmpty, Ends, EndingBy;
      ghost var k := BehindPart(ledger, n);
      assert Contents()[..n] == ledger.sent[..n] + [];
      RollBack(n, [], n, k, n);
    }

    /** Leaves the parts that begin at or past `bound`, which are those past the first `k`, out of the upload and ends
        the file at `n`, with `keep` of it in hand from offset `at` on and nothing queued. */
    method RollBack(n: nat, keep: seq<byte>, at: nat, ghost k: nat, bound: nat)
      requires Booked() && inFlight == map[] && handed == map[] && HeadExact()
      requires CutPoint(ledger, k, at, bound) && n <= |Contents()| == nextOffset
      requires at <= |ledger.sent| && ledger.sent[..at] + keep == Contents()[..n]
      requires Renders(held, Contents()) && Dense(held, nextOffset)
      modifies this`buf, this`bufOffset, this`nextOffset, this`totalSize, this`size, this`pending, this`file, this`held
      modifies this`parts, this`ledger
      ensures Booked() && Aligned() && Contents() == old(Contents())[..n] && ledger.even == old(ledger.even)
      ensures buf == keep && bufOffset == at && nextOffset == n == size && pending == map[] && NoEmpty(pending)
      ensures held == CutAt(old(held), n) && file == CutAt(old(file), n)
      ensures Faithful() && Dense(held, nextOffset) && HeadExact()
      ensures Ends(parts) == EndingBy(old(Ends(parts)), bufOffset)
    {
      hide Balanced, CutPoint, Shows, Renders, Dense, HeadHolds, Ends, EndingBy;
      ghost var s := Contents();
      LeaveOut(bound, k, at);
      EndHere(n, keep, at, s);
    }

    /** Leaves the parts that begin at or past `bound` out of the upload. */
    method LeaveOut(bound: nat, ghost k: nat, ghost end: nat)
      requires Booked() && inFlight == map[] && handed == map[]
      requires CutPoint(ledger, k, end, bound)
      modifies this`parts, this`ledger
      ensures Booked() && end <= |old(ledger).sent| && ledger.sent == old(ledger).sent[..end] && ledger.even == old(ledger).even
      ensures Ends(parts) == EndingBy(old(Ends(parts)), end)
    {
      hide Balanced, CutPoint, Ends, EndingBy;
      assert inFlight + handed == map[];
      EndsCut(ledger, k, end, bound);
      parts := PartsBefore(bound);
      ledger := Shortened(ledger, k, end, bound);
    }

    /** Ends the file at `n`, the first `n` bytes of `s`, with nothing queued. */
    method EndHere(n: nat, keep: seq<byte>, at: nat, ghost s: seq<byte>)
      requires n <= |s| && ledger.sent + keep == s[..n] && at == |ledger.sent|
      requires Renders(held, s) && Dense(held, |s|) && HeadExact()
      modifies this`buf, this`bufOffset, this`nextOffset, this`totalSize, this`size, this`pending, this`file, this`held
      ensures Aligned() && Contents() == s[..n] && buf == keep && bufOffset == at && nextOffset == n == size
      ensures pending == map[] && held == CutAt(old(held), n) && file == CutAt(old(file), n)
      ensures Faithful() && Dense(held, nextOffset) && HeadExact()
    {
      hide Balanced, Shows, Renders, Dense, HeadHolds;
      CutRenders(held, s, n);
      TrimmedShows(pending, held, n);
      CutDense(held, |s|, n);
      CutHead(file, head, headKept, n);
      buf := keep;
      bufOffset := at;
      nextOffset := n;
      totalSize := n;
      size := n;
      pending := map[];
      held, file := CutAt(held, n), CutAt(file, n);
    }

    /** The part kept is a full one, right before the buffer. */
    lemma LastIsFull()
      requires Valid() && Settled() && LastKept()
      ensures |lastSent| == maxLength && lastSentOffset + maxLength == bufOffset
    {
      hide Balanced, IsLast, Shows, Renders, Dense, HeadHolds, NoEmpty, CutPoint;
      BeforeLast(ledger, LastPart());
    }

    lemma KeptInside(n: nat)
      requires n < bufOffset && |lastSent| == maxLength && lastSentOffset + maxLength == bufOffset
      ensures InsideKept(lastSent, lastSentOffset, n) <==> bufOffset - maxLength < n
    {
    }

    /** Cuts the file down to `n` bytes behind what has been sent, once nothing is on its way. While the last part is kept
        that can be done anywhere less than a part back. */
    method CutBackToSent(n: nat) returns (ok: bool)
      requires Valid() && Settled() && inFlight == map[]
      modifies this`buf, this`bufOffset, this`nextOffset, this`totalSize, this`size, this`pending, this`file, this`held
      modifies this`parts, this`ledger, this`lastSent, this`lastSentOffset
      ensures ok == (0 < n < old(bufOffset) && (old(InsideKept(lastSent, lastSentOffset, n)) || n in old(Ends(parts))))
      ensures LastPart() == if ok && old(InsideKept(lastSent, lastSentOffset, n)) then Chunk(0, []) else old(LastPart())
      ensures old(LastKept()) && old(bufOffset) - maxLength < n < old(bufOffset) ==> ok
      ensures ok ==> CutBack(n, old(Contents()), old(held), old(Ends(parts))) && file == CutAt(old(file), n)
      ensures ok ==> (LastSentCurrent() <==> old(lastSent) == [] || old(lastSentOffset) != n)
      ensures !ok ==> unchanged(this)
    {
      hide Balanced, IsLast, Shows, Renders, Dense, HeadHolds, NoEmpty, Ends, EndingBy;
      if LastKept() { LastIsFull(); }
      if n == 0 || n >= bufOffset {
        return false;
      }
      if InsideKept(lastSent, lastSentOffset, n) {
        CutInsideLast(n);
        return true;
      }
      var ends := EndsPart(n);
      if ends {
        CutBehindPart(n);
      }
      ok := ends;
    }

    /** Waits for what is on its way. With no part failing, the places where a landed part ends are the multiples of the part
        size. */
    method WaitFor(ghost eof: nat, failing: set<nat>)
      requires Valid() && Settled() && 0 < eof < bufOffset
      modifies this`inFlight, this`parts, this`partErr, this`ledger, this`stored
      ensures Valid() && Settled() && inFlight == map[] && Contents() == old(Contents()) && LastKept() == old(LastKept())
      ensures partErr <==> old(partErr || inFlight.Keys * failing != {})
      ensures Ends(parts) == old(Ends(parts)) + Landing(old(FlightEnds(inFlight)), failing)
      ensures maxLength > 0 && (!partErr ==> (eof in Ends(parts) <==> IsMultiple(eof, maxLength)))
    {
      hide Balanced, IsLast, Shows, Renders, Dense, HeadHolds, NoEmpty, IsMultiple, Ends, EndingBy, Landing, FlightEnds;
      Wait(failing);
      if !partErr {
        assert inFlight + handed == map[];
        LandedBoundary(ledger, eof);
      }
    }

    /** Waits for what is on its way and cuts the file down behind what has been sent. It can be where a part that landed ends
        or inside the part kept; with no part failing, the former are the multiples of the part size. */
    method CutBehindSent(eof: nat, failing: set<nat>) returns (ok: bool)
      requires Valid() && Settled() && 0 < eof < bufOffset
      modifies this`buf, this`bufOffset, this`nextOffset, this`totalSize, this`size, this`pending, this`file, this`held
      modifies this`parts, this`ledger, this`lastSent, this`lastSentOffset, this`inFlight, this`partErr, this`stored
      ensures Valid() && Settled() && inFlight == map[]
      ensures partErr <==> old(partErr || inFlight.Keys * failing != {})
      ensures var ends := old(Ends(parts)) + Landing(old(FlightEnds(inFlight)), failing);
              && ok == (old(InsideKept(lastSent, lastSentOffset, eof)) || eof in ends)
              && (if ok then CutBack(eof, old(Contents()), old(held), ends) && file == CutAt(old(file), eof)
                  else Ends(parts) == ends && file == old(file) && held == old(held) && Contents() == old(Contents())
                       && pending == old(pending) && nextOffset == old(nextOffset) && bufOffset == old(bufOffset))
      ensures !partErr ==> (ok <==> old(InsideKept(lastSent, lastSentOffset, eof)) || IsMultiple(eof, maxLength))
      ensures LastPart() == if ok && old(InsideKept(lastSent, lastSentOffset, eof)) then Chunk(0, []) else old(LastPart())
      ensures ok ==> (LastSentCurrent() <==> old(lastSent) == [] || old(lastSentOffset) != eof)
    {
      hide Valid, Settled, Contents, LastKept, LastPart, LastSentCurrent, IsMultiple, Ends, EndingBy, Landing, FlightEnds, CutBack, CutAt,
           InsideKept;
      WaitFor(eof, failing);
      ghost var ends, s, was := Ends(parts), Contents(), held;
      ok := CutBackToSent(eof);
      if ok { CutBackMeans(eof, s, was, ends); }
    }

    lemma CutBackMeans(n: nat, s: seq<byte>, was: File, ends: set<nat>)
      requires CutBack(n, s, was, ends)
      ensures Valid() && Settled() && n <= |s| && Contents() == s[..n] && nextOffset == n && pending == map[] && held == CutAt(was, n)
      ensures Ends(parts) == EndingBy(ends, bufOffset)
    {
    }

    /** Cuts the file down inside what has not been sent. */
    method CutUnsent(eof: nat) returns (ok: bool)
      requires Valid() && Settled() && eof < size
      modifies this`buf, this`nextOffset, this`totalSize, this`pending, this`file, this`held, this`size
      ensures Valid() && Settled() && ok == (eof >= bufOffset)
      ensures ok ==> nextOffset == eof && file == CutAt(old(file), eof) && held == CutAt(old(held), eof)
                     && Contents() == old(Contents())[..eof] && pending == TrimQueue(old(pending), eof)
      ensures !ok ==> unchanged(this)
    {
      hide Balanced, Booked, LastKept, Shows, Renders, Dense, TrimQueue, NoEmpty, HeadHolds, CutAt;
      TrimmedNoEmpty(pending, eof);
      CutHead(file, head, headKept, eof);
      ok := CutTo(eof);
      if ok {
        size := eof;
        file := CutAt(file, eof);
      }
    }

    /** A client sets the end of the file. The parts in `failing` are the ones that fail on their way. */
    method SetEndOfFile(eof: nat, failing: set<nat>) returns (r: EndResult)
      requires Valid() && Settled()
      modifies this`buf, this`bufOffset, this`nextOffset, this`totalSize, this`size, this`pending, this`file, this`held
      modifies this`parts, this`ledger, this`lastSent, this`lastSentOffset, this`inFlight, this`partErr, this`stored
      ensures Valid() && Settled()
      ensures r == Unchanged <==> old(size) <= eof
      ensures r == Emptied <==> eof == 0 && 0 < old(bufOffset)
      ensures r == Cut <==>
                eof < old(size)
                && (old(bufOffset) <= eof
                    || (eof > 0 && old(CanCut(LastPart(), Ends(parts), FlightEnds(inFlight), eof, failing))))
      ensures 0 < eof < old(bufOffset) && !partErr ==>
                (r == Cut <==> old(InsideKept(lastSent, lastSentOffset, eof)) || IsMultiple(eof, maxLength))
      ensures old(LastKept()) && old(bufOffset) - maxLength < eof < old(bufOffset) ==> r == Cut
      ensures 0 < eof < old(bufOffset) && old(LastKept()) && !partErr ==>
                (r == Cut <==> old(bufOffset) - maxLength < eof || IsMultiple(eof, maxLength))
      ensures if 0 < eof < old(bufOffset) then inFlight == map[] && (partErr <==> old(partErr || inFlight.Keys * failing != {}))
              else inFlight == old(inFlight) && partErr == old(partErr)
      ensures Ends(parts) ==
              if eof == 0 || old(bufOffset) <= eof then old(Ends(parts))
              else EndsAfter(old(Ends(parts)), old(FlightEnds(inFlight)), eof, failing, r == Cut, maxLength)
      ensures LastPart() == if eof < old(bufOffset) && r == Cut && old(InsideKept(lastSent, lastSentOffset, eof)) then Chunk(0, [])
                            else old(LastPart())
      ensures r == Cut ==> size == nextOffset == eof && file == CutAt(old(file), eof) && held == CutAt(old(held), eof)
                           && Contents() == old(Contents())[..eof]
                           && pending == if old(bufOffset) <= eof then TrimQueue(old(pending), eof) else map[]
      ensures r == Cut ==> (LastSentCurrent() <==> if eof < old(bufOffset) then old(lastSent) == [] || old(lastSentOffset) != eof
                                                   else old(LastSentCurrent()))
      ensures r != Cut ==> file == old(file) && held == old(held) && Contents() == old(Contents()) && pending == old(pending)
                           && nextOffset == old(nextOffset) && bufOffset == old(bufOffset)
    {
      hide Balanced, IsLast, Shows, Renders, Dense, HeadHolds, TrimQueue, NoEmpty, IsMultiple, InsideKept, Ends,
           EndingBy, Landing, FlightEnds;
      if LastKept() && eof < bufOffset { LastIsFull(); KeptInside(eof); }
      if eof >= size {
        return Unchanged;
      }
      var reaches := CutUnsent(eof);
      if reaches {
        return Cut;
      }
      if eof == 0 {
        return Emptied;
      }
      var cut := CutBehindSent(eof, failing);
      r := if cut then Cut else Refused;
      SentIs();
    }

    lemma OnBoundary()
      requires Valid() && ledger.even
      ensures IsMultiple(bufOffset, maxLength)
    {
      hide Balanced;
      SentOnBoundary(ledger);
    }

    /** What was sent ends at the last multiple of the part size. */
    lemma SentIs()
      requires Valid() && Settled()
      ensures maxLength > 0 && bufOffset == Boundary(nextOffset, maxLength) && size == nextOffset
    {
      hide Shows, Renders, Dense, HeadHolds, NoEmpty, IsLast, Balanced;
      OnBoundary();
      BoundaryIs(bufOffset, nextOffset, maxLength);
    }

    /** How much lies unwritten in front of the lowest queued write. */
    method GapAhead() returns (gap: nat)
      ensures gap == 0 ==> pending == map[] || exists o :: o in pending && o <= nextOffset
      ensures gap > 0 ==> nextOffset + gap in pending && forall o | o in pending :: nextOffset + gap <= o
    {
      if pending == map[] {
        return 0;
      }
      var todo := pending.Keys;
      var lowest :| lowest in todo;
      while todo != {}
        invariant todo <= pending.Keys && lowest in pending
        invariant forall o | o in pending && o !in todo :: lowest <= o
        decreases todo
      {
        var o :| o in todo;
        todo := todo - {o};
        if o < lowest {
          lowest := o;
        }
      }
      gap := if lowest <= nextOffset then 0 else lowest - nextOffset;
    }

    /** Writes zeros over the front of the gap, a part's worth of them at most, and takes what that lets it take. */
    method FillGap(gap: nat) returns (hole: nat)
      requires Aligned() && Faithful() && maxLength > 0 && gap > 0 && NoEmpty(pending)
      requires nextOffset + gap in pending && forall o | o in pending :: nextOffset + gap <= o
      modifies this`pending, this`buf, this`bufOffset, this`nextOffset, this`totalSize
      ensures 0 < hole <= gap && Aligned() && Faithful() && NoEmpty(pending) && bufOffset == old(bufOffset)
      ensures old(nextOffset) + hole <= nextOffset && forall o | o in pending :: nextOffset < o
      ensures Holes(held, nextOffset) == Holes(held, old(nextOffset)) + hole
      ensures pending == map[] ==> nextOffset - 1 in held
    {
      hide Balanced, Shows, Renders, Holes;
      hole := if gap < maxLength then gap else maxLength;
      GapUnwritten(pending, held, Contents(), gap, hole);
      assert ledger.sent + (buf + seq(hole, i => 0)) == Contents() + seq(hole, i => 0);
      if |buf| == 0 {
        bufOffset := nextOffset;
      }
      buf := buf + seq(hole, i => 0);
      nextOffset := nextOffset + hole;
      totalSize := nextOffset;
      ghost var mid := nextOffset;
      assert old(nextOffset) + gap in pending && |pending[old(nextOffset) + gap]| > 0;
      TakePending();
      HolesWritten(held, mid, nextOffset);
    }

    /** The parts since the numbers stood at `count` and the buffer began at `from` have been put on their way. */
    ghost predicate Underway(count: nat, from: nat, flying: set<nat>)
      requires maxLength > 0
      reads this
    {
      && partCount + PartsIn(from, maxLength) == count + PartsIn(bufOffset, maxLength)
      && from <= bufOffset && count <= partCount && forall n :: n in inFlight <==> n in flying || count < n <= partCount
    }

    /** Fills some of the gap and sends the parts that fill up. */
    method FillAndSend(gap: nat, ghost count: nat, ghost from: nat, ghost flying: set<nat>) returns (hole: nat)
      requires Valid() && Faithful() && handed == map[] && ledger.even && gap > 0 && NoEmpty(pending)
      requires nextOffset + gap in pending && forall o | o in pending :: nextOffset + gap <= o
      requires Underway(count, from, flying)
      modifies this`pending, this`buf, this`bufOffset, this`nextOffset, this`totalSize
      modifies this`partCount, this`lastSent, this`lastSentOffset, this`ledger, this`handed, this`inFlight
      ensures Valid() && Faithful() && handed == map[] && ledger.even && |buf| < maxLength
      ensures NoEmpty(pending) && AllPast(pending, nextOffset) && Underway(count, from, flying)
      ensures 0 < hole <= gap && old(nextOffset) < nextOffset
      ensures Holes(held, nextOffset) == Holes(held, old(nextOffset)) + hole
      ensures pending == map[] ==> nextOffset - 1 in held
    {
      hide Balanced, IsLast, Shows, Renders, Holes, NoEmpty;
      hole := FillGap(gap);
      SendMore(count, from, flying);
    }

    method SendMore(ghost count: nat, ghost from: nat, ghost flying: set<nat>)
      requires Valid() && handed == map[] && ledger.even && Underway(count, from, flying)
      modifies this`partCount, this`buf, this`bufOffset, this`lastSent, this`lastSentOffset
      modifies this`ledger, this`handed, this`inFlight
      ensures Valid() && handed == map[] && ledger.even && |buf| < maxLength && Contents() == old(Contents())
      ensures Underway(count, from, flying)
    {
      hide Balanced, IsLast, FlightEnds, Cuts, PartsIn, IsMultiple;
      SentOnBoundary(ledger);
      PartsFrom(bufOffset, nextOffset, maxLength);
      CutsAre(partCount, bufOffset, |buf|, maxLength);
      SendFullParts();
      SentOnBoundary(ledger);
      PartsFrom(bufOffset, nextOffset, maxLength);
      NoFull(partCount, bufOffset, |buf|, maxLength);
      SameFlights(old(inFlight), inFlight, Cuts(old(partCount), old(bufOffset), old(|buf|), maxLength));
    }

    /** Fills every hole in front of what is queued, sending the parts that fill up on the way. */
    method FillHoles() returns (err: Option<FlushResult>)
      requires Valid() && Faithful() && handed == map[] && ledger.even
      requires NoEmpty(pending) && AllPast(pending, nextOffset) && Dense(held, nextOffset)
      modifies this`pending, this`buf, this`bufOffset, this`nextOffset, this`totalSize
      modifies this`partCount, this`lastSent, this`lastSentOffset, this`ledger, this`handed, this`inFlight
      ensures Valid() && Faithful() && handed == map[] && ledger.even
      ensures Underway(old(partCount), old(bufOffset), old(inFlight.Keys))
      ensures if nextOffset == old(nextOffset) then bufOffset == old(bufOffset) else |buf| < maxLength
      ensures err.None? <==> Fillable(held)
      ensures err.None? ==> pending == map[] && EndsAt(held, nextOffset) && old(nextOffset) <= nextOffset
      ensures err.Some? ==> held != map[] && err == Some(if 0 in held then TooSparse else FrontMissing)
    {
      hide Balanced, IsLast, Shows, Renders, Holes, Dense, NoEmpty, AllPast, Fillable, EndsAt, PartsIn;
      WrittenFromTheStart(held, nextOffset);
      var filled := 0;
      while true
        invariant Valid() && Faithful() && handed == map[] && ledger.even && old(nextOffset) <= nextOffset
        invariant NoEmpty(pending) && AllPast(pending, nextOffset)
        invariant Underway(old(partCount), old(bufOffset), old(inFlight.Keys))
        invariant if nextOffset == old(nextOffset) then bufOffset == old(bufOffset) else |buf| < maxLength
        invariant filled <= MAX_GAP_FILLED && filled == Holes(held, nextOffset)
        invariant pending == map[] ==> nextOffset == 0 || nextOffset - 1 in held
        invariant nextOffset > 0 ==> 0 in held
        decreases MAX_GAP_FILLED - filled
      {
        var gap := GapAhead();
        NothingPast(pending, nextOffset);
        if gap == 0 {
          NothingQueued(held, Contents());
          return None;
        }
        if nextOffset == 0 {
          FrontUnwritten(pending, held, gap);
          return Some(FrontMissing);
        }
        if gap > MAX_GAP_FILLED - filled {
          GapTooWide(pending, held, Contents(), gap);
          return Some(TooSparse);
        }
        var hole := FillAndSend(gap, old(partCount), old(bufOffset), old(inFlight.Keys));
        filled := filled + hole;
      }
    }

    /** Sends what is left in the buffer as the last part. */
    method SendLast()
      requires Valid() && handed == map[]
      modifies this`partCount, this`buf, this`bufOffset, this`ledger, this`handed, this`inFlight
      ensures Valid() && handed == map[] && buf == [] && ledger.sent == old(Contents())
      ensures partCount == old(partCount) + if old(buf) == [] then 0 else 1
      ensures forall n :: n in inFlight <==> n in old(inFlight) || old(partCount) < n <= partCount
    {
      hide Balanced, IsLast;
      if |buf| > 0 {
        var last := Chunk(bufOffset, buf);
        Issue(last);
        buf := [];
        bufOffset := nextOffset;
        SendPart(partCount, last);
      } else {
        assert Contents() == ledger.sent;
      }
    }

    /** The object made of every part that landed, once all have, unless one failed. */
    method Complete(failing: set<nat>) returns (r: FlushResult)
      requires Booked() && handed == map[]
      modifies this`inFlight, this`parts, this`partErr, this`ledger, this`stored
      ensures r == if old(partErr || inFlight.Keys * failing != {}) then StoringFailed else Stored(old(ledger.sent))
    {
      hide Balanced, IsLast;
      Wait(failing);
      if partErr {
        return StoringFailed;
      }
      assert inFlight + handed == map[];
      CompletedLedger(ledger);
      return Stored(Join(Numbers(SortByNumber(parts)), stored));
    }

    /** Takes what is queued right behind what has been joined, up to the first byte that is missing. */
    method TakeRest()
      requires Valid() && Faithful() && NoEmpty(pending) && Dense(held, nextOffset)
      modifies this`pending, this`buf, this`bufOffset, this`nextOffset, this`totalSize
      ensures Valid() && Faithful() && NoEmpty(pending) && Dense(held, nextOffset) && AllPast(pending, nextOffset)
      ensures bufOffset == old(bufOffset) && nextOffset == FirstHole(held, old(nextOffset))
    {
      hide Balanced, Shows, Renders, Dense, NoEmpty, AllPast, Drained;
      ghost var q, from := pending, nextOffset;
      TakePending();
      DrainedNoEmpty(q, pending, nextOffset);
      NextIsHole(pending, held, nextOffset);
      FirstHoleIs(held, from, nextOffset);
      DenserStill(held, held, from, nextOffset);
    }

    /** Fills the holes and puts everything on its way, unless the file cannot be filled. */
    method SendAll() returns (err: Option<FlushResult>)
      requires Valid() && Settled()
      modifies this`pending, this`buf, this`bufOffset, this`nextOffset, this`totalSize
      modifies this`partCount, this`lastSent, this`lastSentOffset, this`ledger, this`handed, this`inFlight
      ensures Valid() && handed == map[]
      ensures err.None? <==> Fillable(held)
      ensures err.Some? ==> held != map[] && err == Some(if 0 in held then TooSparse else FrontMissing)
      ensures err.None? ==> ledger.sent == Slice(held, 0, EndOf(held)) && old(partCount) <= partCount
      ensures err.None? ==> partCount == old(partCount) + FlushParts(held, old(nextOffset), old(bufOffset), EndOf(held), maxLength)
      ensures err.None? ==> forall n :: n in inFlight <==> n in old(inFlight) || old(partCount) < n <= partCount
    {
      hide Balanced, LastKept, Booked, Shows, Renders, Dense, Holes, NoEmpty, AllPast, Fillable, EndsAt, HeadExact,
           PartsIn, FlushParts, IsMultiple, Slice;
      OnBoundary();
      TakeRest();
      err := FillHoles();
      if err.Some? {
        return;
      }
      if pending != map[] {
        return Some(NonContiguous);
      }
      OnBoundary();
      EndIs(held, nextOffset);
      FlushPartsAre(held, old(nextOffset), old(bufOffset), nextOffset, bufOffset, maxLength);
      RenderedWhole(held, Contents());
      SendLast();
    }

    /** Fills the holes, sends the rest and completes the upload. Every way it ends is told from what the upload has of the
        file and from the numbers of the parts that fail. */
    method Flush(failing: set<nat>) returns (r: FlushResult)
      requires Valid() && Settled()
      modifies this
      ensures file == old(file) && held == old(held)
      ensures r == FlushOf(held, old(nextOffset), old(bufOffset), old(partErr), old(partCount), old(inFlight.Keys), failing,
                           maxLength)
    {
      hide Balanced, LastKept, Booked, Shows, Renders, Dense, NoEmpty, Fillable, HeadExact, FlushParts, SomeFail,
           Slice, EndOf;
      var err := SendAll();
      if err.Some? {
        return err.value;
      }
      FailsIs(failing, inFlight.Keys, old(inFlight.Keys), old(partCount), partCount);
      EmptyFills(held);
      r := Complete(failing);
    }
  }
}
