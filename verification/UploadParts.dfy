/** The numbered parts an upload is sent to the backend as.

    Parts are numbered as they are cut from the front of the buffer and land in any order; the upload is
    completed with the landed ones sorted by number. `CompletedIsSent` says that is the file that was sent. */
module UploadParts {
  import opened Bytes

  datatype Chunk = Chunk(offset: nat, data: seq<byte>) {
    function End(): nat { offset + |data| }
  }

  datatype SentPart = SentPart(number: nat, offset: nat, size: nat)

  /** The parts numbered `live`, in that order, cover `sent` with no gap and no overlap. */
  ghost predicate Tiled(live: seq<nat>, chunks: map<nat, Chunk>, sent: seq<byte>) {
    && (forall i | 0 <= i < |live| ::
          && live[i] in chunks && |chunks[live[i]].data| > 0
          && chunks[live[i]].End() <= |sent|
          && sent[chunks[live[i]].offset..chunks[live[i]].End()] == chunks[live[i]].data)
    && (forall i, j | 0 <= i < j < |live| && j == i + 1 :: chunks[live[j]].offset == chunks[live[i]].End())
    && (live == [] ==> sent == [])
    && (live != [] ==> chunks[live[0]].offset == 0 && chunks[live[|live| - 1]].End() == |sent|)
  }

  /** Numbers are handed out in order and never handed out twice. */
  ghost predicate Numbered(live: seq<nat>, chunks: map<nat, Chunk>, count: nat) {
    && (forall i | 0 <= i < |live| :: 1 <= live[i] <= count)
    && (forall i, j | 0 <= i < j < |live| :: live[i] < live[j])
    && (forall n | n in chunks :: n <= count)
  }

  /** Where the landed parts end. */
  ghost function Ends(parts: seq<SentPart>): set<nat> {
    set p | p in parts :: p.offset + p.size
  }

  ghost function EndingBy(ends: set<nat>, n: nat): set<nat> {
    set e | e in ends && e <= n
  }

  /** Where each of the parts on their way ends. */
  ghost function FlightEnds(flying: map<nat, Chunk>): map<nat, nat> {
    map n | n in flying :: flying[n].End()
  }

  ghost predicate HasLanded(parts: seq<SentPart>, n: nat) {
    exists j :: 0 <= j < |parts| && parts[j].number == n
  }

  /** Every live part is on its way or has landed, unless one has failed, and nothing else has landed. */
  ghost predicate Accounted(live: seq<nat>, chunks: map<nat, Chunk>, parts: seq<SentPart>,
                            inFlight: map<nat, Chunk>, stored: map<nat, seq<byte>>, failed: bool) {
    && (forall n | n in inFlight :: n in live && n in chunks && inFlight[n] == chunks[n])
    && (forall j | 0 <= j < |parts| ::
          var p := parts[j];
          && p.number in live && p.number !in inFlight
          && p.number in chunks && p.offset == chunks[p.number].offset && p.size == |chunks[p.number].data|
          && p.number in stored && stored[p.number] == chunks[p.number].data)
    && (forall i, j | 0 <= i < j < |parts| :: parts[i].number != parts[j].number)
    && (!failed ==> forall n | n in live :: n in inFlight || HasLanded(parts, n))
  }

  lemma {:induction false} TiledInOrder(live: seq<nat>, chunks: map<nat, Chunk>, sent: seq<byte>, i: nat, j: nat)
    requires Tiled(live, chunks, sent) && i < j < |live|
    ensures chunks[live[i]].End() <= chunks[live[j]].offset
    decreases j - i
  {
    if i + 1 < j {
      TiledInOrder(live, chunks, sent, i + 1, j);
    }
  }

  lemma NextTile(live: seq<nat>, chunks: map<nat, Chunk>, sent: seq<byte>, n: nat, slab: Chunk)
    requires Tiled(live, chunks, sent) && n !in chunks && slab.offset == |sent| && |slab.data| > 0
    ensures Tiled(live + [n], chunks[n := slab], sent + slab.data)
  {
    var live', chunks', sent' := live + [n], chunks[n := slab], sent + slab.data;
    assert sent'[slab.offset..slab.End()] == slab.data;
    forall i | 0 <= i < |live|
      ensures live'[i] == live[i] && chunks'[live[i]] == chunks[live[i]]
      ensures sent'[chunks[live[i]].offset..chunks[live[i]].End()] == chunks[live[i]].data
    {
      assert sent'[chunks[live[i]].offset..chunks[live[i]].End()] == sent[chunks[live[i]].offset..chunks[live[i]].End()];
    }
  }

  /** Issuing the next part keeps the tiling and the numbering. */
  lemma IssuePart(live: seq<nat>, chunks: map<nat, Chunk>, sent: seq<byte>, count: nat, slab: Chunk)
    requires Tiled(live, chunks, sent) && Numbered(live, chunks, count)
    requires slab.offset == |sent| && |slab.data| > 0
    ensures Tiled(live + [count + 1], chunks[count + 1 := slab], sent + slab.data)
    ensures Numbered(live + [count + 1], chunks[count + 1 := slab], count + 1)
  {
    hide Tiled;
    NextTile(live, chunks, sent, count + 1, slab);
  }

  lemma IssueAccounted(live: seq<nat>, chunks: map<nat, Chunk>, count: nat, slab: Chunk, parts: seq<SentPart>,
                       flying: map<nat, Chunk>, stored: map<nat, seq<byte>>, failed: bool)
    requires Numbered(live, chunks, count)
    requires Accounted(live, chunks, parts, flying, stored, failed)
    ensures Accounted(live + [count + 1], chunks[count + 1 := slab], parts, flying[count + 1 := slab], stored, failed)
    ensures count + 1 !in flying
  {
    var live' := live + [count + 1];
    assert forall n :: n in live' <==> n in live || n == count + 1;
  }

  lemma LandedAccounted(live: seq<nat>, chunks: map<nat, Chunk>, parts: seq<SentPart>, flying: map<nat, Chunk>,
                        stored: map<nat, seq<byte>>, failed: bool, n: nat)
    requires Accounted(live, chunks, parts, flying, stored, failed) && n in flying
    ensures Accounted(live, chunks, parts + [SentPart(n, flying[n].offset, |flying[n].data|)], flying - {n},
                      stored[n := flying[n].data], failed)
    ensures Accounted(live, chunks, parts, flying - {n}, stored, true)
  {
    var parts' := parts + [SentPart(n, flying[n].offset, |flying[n].data|)];
    forall m ensures HasLanded(parts', m) <==> HasLanded(parts, m) || m == n {
      assert parts'[|parts|].number == n;
      if HasLanded(parts, m) {
        var j: nat :| j < |parts| && parts[j].number == m;
        assert parts'[j].number == m;
      }
    }
  }

  /** The landed parts that begin before `bound`. */
  function Before(parts: seq<SentPart>, bound: nat): seq<SentPart> {
    if parts == [] then []
    else
      var last := parts[|parts| - 1];
      Before(parts[..|parts| - 1], bound) + if last.offset < bound then [last] else []
  }

  ghost predicate AllDistinct(parts: seq<SentPart>) {
    forall i, j | 0 <= i < j < |parts| :: parts[i].number != parts[j].number
  }

  lemma {:induction false} BeforeKeeps(parts: seq<SentPart>, bound: nat)
    ensures forall p :: p in Before(parts, bound) <==> p in parts && p.offset < bound
    ensures AllDistinct(parts) ==> AllDistinct(Before(parts, bound))
  {
    if parts != [] {
      var init, last := parts[..|parts| - 1], parts[|parts| - 1];
      BeforeKeeps(init, bound);
      assert parts == init + [last];
      if AllDistinct(parts) {
        forall p | p in Before(init, bound) ensures p.number != last.number { assert p in init; }
      }
    }
  }

  lemma EndsMore(parts: seq<SentPart>, p: SentPart)
    ensures Ends(parts + [p]) == Ends(parts) + {p.offset + p.size}
  {
    assert forall q :: q in parts + [p] <==> q in parts || q == p;
  }

  /** Leaving the parts past the first `k` out of the upload, once nothing is on its way. */
  lemma CutParts(live: seq<nat>, chunks: map<nat, Chunk>, sent: seq<byte>, count: nat, k: nat, end: nat)
    requires Tiled(live, chunks, sent) && Numbered(live, chunks, count)
    requires k <= |live| && end == (if k == 0 then 0 else chunks[live[k - 1]].End())
    ensures end <= |sent| && Tiled(live[..k], chunks, sent[..end]) && Numbered(live[..k], chunks, count)
  {
    hide Numbered;
    assert end <= |sent|;
    forall i | 0 <= i < k
      ensures chunks[live[i]].End() <= end
      ensures sent[..end][chunks[live[i]].offset..chunks[live[i]].End()] == chunks[live[i]].data
    {
      CutTile(live, chunks, sent, k, end, i);
    }
    assert Numbered(live[..k], chunks, count) by { FewerNumbered(live, chunks, count, k); }
  }

  lemma FewerNumbered(live: seq<nat>, chunks: map<nat, Chunk>, count: nat, k: nat)
    requires Numbered(live, chunks, count) && k <= |live|
    ensures Numbered(live[..k], chunks, count)
  {
  }

  lemma CutTile(live: seq<nat>, chunks: map<nat, Chunk>, sent: seq<byte>, k: nat, end: nat, i: nat)
    requires Tiled(live, chunks, sent) && i < k <= |live| && end == chunks[live[k - 1]].End()
    ensures chunks[live[i]].End() <= end <= |sent|
    ensures sent[..end][chunks[live[i]].offset..chunks[live[i]].End()] == chunks[live[i]].data
  {
    if i < k - 1 { TiledInOrder(live, chunks, sent, i, k - 1); }
    SliceOfFront(sent, end, chunks[live[i]].offset, chunks[live[i]].End());
  }

  lemma CutAccounted(live: seq<nat>, chunks: map<nat, Chunk>, parts: seq<SentPart>, stored: map<nat, seq<byte>>,
                     failed: bool, k: nat, bound: nat)
    requires Accounted(live, chunks, parts, map[], stored, failed) && k <= |live|
    requires forall i | 0 <= i < |live| :: live[i] in chunks && (chunks[live[i]].offset < bound <==> i < k)
    ensures Accounted(live[..k], chunks, Before(parts, bound), map[], stored, failed)
  {
    BeforeKeeps(parts, bound);
    var kept := Before(parts, bound);
    assert AllDistinct(parts);
    forall j | 0 <= j < |kept| ensures kept[j].number in live[..k] {
      assert kept[j] in kept;
      var i: nat :| i < |live| && live[i] == kept[j].number;
      assert live[..k][i] == live[i];
    }
    if !failed {
      forall n | n in live[..k] ensures HasLanded(kept, n) {
        var i: nat :| i < k && live[i] == n;
        assert HasLanded(parts, n);
        var j: nat :| j < |parts| && parts[j].number == n;
        assert parts[j] in kept;
        var l: nat :| l < |kept| && kept[l] == parts[j];
      }
    }
  }

  /** The object the backend makes of the numbers an upload is completed with. */
  function Join(numbers: seq<nat>, stored: map<nat, seq<byte>>): seq<byte>
    requires forall n | n in numbers :: n in stored
  {
    if numbers == [] then []
    else Join(numbers[..|numbers| - 1], stored) + stored[numbers[|numbers| - 1]]
  }

  function Insert(p: SentPart, s: seq<SentPart>): seq<SentPart> {
    if s == [] || p.number <= s[0].number then [p] + s else [s[0]] + Insert(p, s[1..])
  }

  /** The landed parts in the order of their numbers. */
  function SortByNumber(s: seq<SentPart>): seq<SentPart> {
    if s == [] then [] else Insert(s[0], SortByNumber(s[1..]))
  }

  function Numbers(s: seq<SentPart>): seq<nat> {
    seq(|s|, i requires 0 <= i < |s| => s[i].number)
  }

  ghost predicate Increasing(s: seq<nat>) {
    forall i, j | 0 <= i < j < |s| :: s[i] < s[j]
  }

  lemma HasLandedTail(s: seq<SentPart>, n: nat)
    requires s != []
    ensures HasLanded(s, n) <==> s[0].number == n || HasLanded(s[1..], n)
  {
    if HasLanded(s, n) {
      var j: nat :| j < |s| && s[j].number == n;
      assert j > 0 ==> s[1..][j - 1].number == n;
    }
    if HasLanded(s[1..], n) {
      var j: nat :| j < |s| - 1 && s[1..][j].number == n;
      assert s[j + 1].number == n;
    }
  }

  lemma {:induction false} InsertHas(p: SentPart, s: seq<SentPart>, n: nat)
    ensures HasLanded(Insert(p, s), n) <==> p.number == n || HasLanded(s, n)
  {
    HasLandedTail(Insert(p, s), n);
    if s == [] || p.number <= s[0].number {
      assert ([p] + s)[1..] == s;
    } else {
      InsertHas(p, s[1..], n);
      HasLandedTail(s, n);
      assert ([s[0]] + Insert(p, s[1..]))[1..] == Insert(p, s[1..]);
    }
  }

  lemma {:induction false} SortHas(s: seq<SentPart>, n: nat)
    ensures HasLanded(SortByNumber(s), n) <==> HasLanded(s, n)
  {
    if s != [] {
      SortHas(s[1..], n);
      InsertHas(s[0], SortByNumber(s[1..]), n);
      HasLandedTail(s, n);
    }
  }

  ghost predicate Rising(s: seq<SentPart>) {
    forall i, j | 0 <= i < j < |s| :: s[i].number < s[j].number
  }

  lemma {:induction false} InsertRising(p: SentPart, s: seq<SentPart>)
    requires Rising(s) && !HasLanded(s, p.number)
    ensures Rising(Insert(p, s))
  {
    if s != [] {
      HasLandedTail(s, p.number);
      if p.number > s[0].number {
        InsertRising(p, s[1..]);
        var r := Insert(p, s[1..]);
        forall i | 0 <= i < |r| ensures s[0].number < r[i].number {
          InsertHas(p, s[1..], r[i].number);
          assert HasLanded(r, r[i].number);
        }
      }
    }
  }

  /** Sorting parts of distinct numbers puts them in the order of their numbers. */
  lemma {:induction false} SortRising(s: seq<SentPart>)
    requires AllDistinct(s)
    ensures Rising(SortByNumber(s))
  {
    if s != [] {
      SortRising(s[1..]);
      SortHas(s[1..], s[0].number);
      InsertRising(s[0], SortByNumber(s[1..]));
    }
  }

  lemma {:induction false} IncreasingIsUnique(a: seq<nat>, b: seq<nat>)
    requires Increasing(a) && Increasing(b)
    requires forall x :: x in a <==> x in b
    ensures a == b
  {
    assert a != [] ==> a[0] in a;
    assert b != [] ==> b[0] in b;
    if a != [] && b != [] {
      var x, y := a[|a| - 1], b[|b| - 1];
      assert x in b && y in a;
      assert x == y;
      var a', b' := a[..|a| - 1], b[..|b| - 1];
      forall z ensures z in a' <==> z in b' {
        assert z in a' <==> z in a && z != x;
        assert z in b' <==> z in b && z != y;
      }
      IncreasingIsUnique(a', b');
      assert a == a' + [x] && b == b' + [y];
    }
  }

  lemma TileAt(live: seq<nat>, chunks: map<nat, Chunk>, sent: seq<byte>, k: nat)
    requires Tiled(live, chunks, sent) && 0 < k <= |live|
    ensures live[k - 1] in chunks && (k > 1 ==> live[k - 2] in chunks)
    ensures var last := chunks[live[k - 1]];
            && last.End() <= |sent| && sent[last.offset..last.End()] == last.data
            && last.offset == if k == 1 then 0 else chunks[live[k - 2]].End()
  {
  }

  lemma {:induction false} JoinLive(live: seq<nat>, chunks: map<nat, Chunk>, sent: seq<byte>, stored: map<nat, seq<byte>>, k: nat)
    requires Tiled(live, chunks, sent) && 0 < k <= |live|
    requires forall n | n in live :: n in stored && stored[n] == chunks[n].data
    ensures Join(live[..k], stored) == sent[..chunks[live[k - 1]].End()]
  {
    hide Tiled;
    TileAt(live, chunks, sent, k);
    var last := chunks[live[k - 1]];
    assert live[..k][..k - 1] == live[..k - 1];
    if k > 1 {
      JoinLive(live, chunks, sent, stored, k - 1);
      assert sent[..last.End()] == sent[..last.offset] + sent[last.offset..last.End()];
    }
  }

  lemma LandedInOrder(live: seq<nat>, parts: seq<SentPart>)
    requires Increasing(live) && AllDistinct(parts)
    requires forall n :: n in live <==> HasLanded(parts, n)
    ensures Numbers(SortByNumber(parts)) == live
  {
    SortRising(parts);
    var r := SortByNumber(parts);
    assert Increasing(Numbers(r));
    forall n ensures n in Numbers(r) <==> n in live {
      SortHas(parts, n);
      assert HasLanded(r, n) <==> n in Numbers(r) by {
        if HasLanded(r, n) {
          var j: nat :| j < |r| && r[j].number == n;
          assert Numbers(r)[j] == n;
        }
      }
    }
    IncreasingIsUnique(Numbers(r), live);
  }

  /** Once everything has landed, completing with the landed parts sorted by number stores what was sent. */
  lemma CompletedIsSent(live: seq<nat>, chunks: map<nat, Chunk>, sent: seq<byte>, count: nat,
                        parts: seq<SentPart>, stored: map<nat, seq<byte>>)
    requires Tiled(live, chunks, sent) && Numbered(live, chunks, count)
    requires Accounted(live, chunks, parts, map[], stored, false)
    ensures Numbers(SortByNumber(parts)) == live
    ensures (forall n | n in live :: n in stored) && Join(live, stored) == sent
  {
    assert forall n :: n in live <==> HasLanded(parts, n);
    LandedInOrder(live, parts);
    forall n | n in live ensures n in stored && stored[n] == chunks[n].data {
      assert HasLanded(parts, n);
    }
    if live != [] {
      JoinLive(live, chunks, sent, stored, |live|);
      assert live[..|live|] == live;
    }
  }

  /** The account an upload keeps of its parts: every part ever issued by number, the numbers of those not cut
      off since and the bytes they carry, how many numbers are out, the parts landed and on their way, what the
      backend took under each number, whether a part failed, and whether every standing part is of full size. */
  datatype Books = Books(chunks: map<nat, Chunk>, live: seq<nat>, sent: seq<byte>, count: nat, parts: seq<SentPart>,
                         flying: map<nat, Chunk>, stored: map<nat, seq<byte>>, failed: bool, even: bool, partSize: nat)

  ghost predicate AllOfSize(live: seq<nat>, chunks: map<nat, Chunk>, n: nat) {
    forall i | 0 <= i < |live| :: live[i] in chunks && |chunks[live[i]].data| == n
  }

  /** The standing parts tile what was sent in the order of their numbers, and each of them is on its way or has
      landed unless one failed. Where `Balanced` is compared with `true`, its quantifiers stay folded. */
  ghost predicate Balanced(b: Books) {
    && Tiled(b.live, b.chunks, b.sent)
    && Numbered(b.live, b.chunks, b.count)
    && Accounted(b.live, b.chunks, b.parts, b.flying, b.stored, b.failed)
    && (b.even ==> AllOfSize(b.live, b.chunks, b.partSize))
  }

  type Ledger = b: Books | Balanced(b) witness Books(map[], [], [], 0, [], map[], map[], false, true, 1)

  /** The books of an upload that has sent nothing. */
  ghost function NewLedger(partSize: nat): (r: Ledger)
    ensures r.sent == [] && r.live == [] && r.even && r.partSize == partSize
  {
    Books(map[], [], [], 0, [], map[], map[], false, true, partSize)
  }

  lemma IssueEven(live: seq<nat>, chunks: map<nat, Chunk>, count: nat, slab: Chunk)
    requires Numbered(live, chunks, count) && AllOfSize(live, chunks, |slab.data|)
    ensures AllOfSize(live + [count + 1], chunks[count + 1 := slab], |slab.data|)
  {
  }

  ghost function WithPart(b: Books, slab: Chunk): Books {
    b.(live := b.live + [b.count + 1], chunks := b.chunks[b.count + 1 := slab], sent := b.sent + slab.data,
       count := b.count + 1, flying := b.flying[b.count + 1 := slab], even := b.even && |slab.data| == b.partSize)
  }

  lemma WithPartBalanced(b: Ledger, slab: Chunk)
    requires slab.offset == |b.sent| && |slab.data| > 0
    ensures Balanced(WithPart(b, slab)) == true && b.count + 1 !in b.flying
  {
    hide Tiled, Numbered, Accounted, AllOfSize;
    IssuePart(b.live, b.chunks, b.sent, b.count, slab);
    IssueAccounted(b.live, b.chunks, b.count, slab, b.parts, b.flying, b.stored, b.failed);
    if b.even && |slab.data| == b.partSize {
      IssueEven(b.live, b.chunks, b.count, slab);
    }
  }

  /** The books once the next part has been given its number. */
  ghost function Issued(b: Ledger, slab: Chunk): (r: Ledger)
    requires slab.offset == |b.sent| && |slab.data| > 0
    ensures b.count + 1 !in b.flying && IsLast(r, slab)
  {
    hide Balanced;
    WithPartBalanced(b, slab);
    WithPart(b, slab)
  }

  ghost function WithArrival(b: Books, n: nat, fails: bool): Books
    requires n in b.flying
  {
    if fails then b.(flying := b.flying - {n}, failed := true)
    else b.(flying := b.flying - {n}, stored := b.stored[n := b.flying[n].data],
            parts := b.parts + [SentPart(n, b.flying[n].offset, |b.flying[n].data|)])
  }

  lemma WithArrivalBalanced(b: Ledger, n: nat, fails: bool)
    requires n in b.flying
    ensures Balanced(WithArrival(b, n, fails)) == true
  {
    hide Tiled, Numbered, Accounted, AllOfSize;
    LandedAccounted(b.live, b.chunks, b.parts, b.flying, b.stored, b.failed, n);
  }

  /** The books once part `n` has landed, or failed to. */
  ghost function Arrived(b: Ledger, n: nat, fails: bool): (r: Ledger)
    requires n in b.flying
  {
    hide Balanced;
    WithArrivalBalanced(b, n, fails);
    WithArrival(b, n, fails)
  }

  /** `last` is the last part that stands. */
  ghost predicate IsLast(b: Books, last: Chunk) {
    b.live != [] && b.live[|b.live| - 1] in b.chunks && b.chunks[b.live[|b.live| - 1]] == last
  }

  lemma ArrivedIs(b: Ledger, n: nat, fails: bool, last: Chunk)
    requires n in b.flying
    ensures var r := Arrived(b, n, fails);
            && r.sent == b.sent && r.even == b.even && r.count == b.count && r.partSize == b.partSize
            && r.flying == b.flying - {n} && r.failed == (b.failed || fails)
            && r.parts == b.parts + (if fails then [] else [SentPart(n, b.flying[n].offset, |b.flying[n].data|)])
            && r.stored == (if fails then b.stored else b.stored[n := b.flying[n].data])
            && IsLast(r, last) == IsLast(b, last)
  {
    hide Balanced;
  }

  /** The first `k` parts end at `end` and begin before `bound`, and the others begin at or past it. */
  ghost predicate CutPoint(b: Books, k: nat, end: nat, bound: nat) {
    && k <= |b.live|
    && (if k == 0 then end == 0
        else b.live[k - 1] in b.chunks && b.chunks[b.live[k - 1]].End() == end && b.chunks[b.live[k - 1]].offset < bound)
    && (k < |b.live| ==> b.live[k] in b.chunks && bound <= b.chunks[b.live[k]].offset)
  }

  lemma PartsSplit(b: Ledger, k: nat, end: nat, bound: nat)
    requires CutPoint(b, k, end, bound)
    ensures forall i | 0 <= i < |b.live| :: b.live[i] in b.chunks && (b.chunks[b.live[i]].offset < bound <==> i < k)
  {
    hide AllOfSize, Numbered, Accounted;
    forall i | 0 <= i < |b.live| ensures b.chunks[b.live[i]].offset < bound <==> i < k {
      if i < k - 1 { TiledInOrder(b.live, b.chunks, b.sent, i, k - 1); }
      if k < i { TiledInOrder(b.live, b.chunks, b.sent, k, i); }
    }
  }

  ghost function WithFirst(b: Books, k: nat, end: nat, bound: nat): Books
    requires k <= |b.live| && end <= |b.sent|
  {
    b.(live := b.live[..k], sent := b.sent[..end], parts := Before(b.parts, bound))
  }

  lemma WithFirstBalanced(b: Ledger, k: nat, end: nat, bound: nat)
    requires b.flying == map[] && CutPoint(b, k, end, bound)
    ensures end <= |b.sent| && Balanced(WithFirst(b, k, end, bound)) == true
  {
    hide Tiled, Numbered, Accounted, AllOfSize;
    PartsSplit(b, k, end, bound);
    CutParts(b.live, b.chunks, b.sent, b.count, k, end);
    CutAccounted(b.live, b.chunks, b.parts, b.stored, b.failed, k, bound);
    if b.even {
      CutEven(b.live, b.chunks, b.partSize, k);
    }
  }

  lemma CutEven(live: seq<nat>, chunks: map<nat, Chunk>, n: nat, k: nat)
    requires AllOfSize(live, chunks, n) && k <= |live|
    ensures AllOfSize(live[..k], chunks, n)
  {
  }

  /** The books once every part past the first `k` is left out of the upload, with nothing on its way. */
  ghost function Shortened(b: Ledger, k: nat, end: nat, bound: nat): (r: Ledger)
    requires b.flying == map[] && CutPoint(b, k, end, bound)
    ensures end <= |b.sent|
  {
    hide Balanced;
    WithFirstBalanced(b, k, end, bound);
    WithFirst(b, k, end, bound)
  }

  /** The landed parts that stay are those that end by `end`. */
  lemma EndsCut(b: Ledger, k: nat, end: nat, bound: nat)
    requires CutPoint(b, k, end, bound)
    ensures Ends(Before(b.parts, bound)) == EndingBy(Ends(b.parts), end)
  {
    hide AllOfSize, Numbered;
    BeforeKeeps(b.parts, bound);
    forall p | p in b.parts ensures p.offset < bound <==> p.offset + p.size <= end {
      PartSplit(b, k, end, bound, p);
    }
  }

  lemma PartSplit(b: Ledger, k: nat, end: nat, bound: nat, p: SentPart)
    requires CutPoint(b, k, end, bound) && p in b.parts
    ensures p.offset < bound <==> p.offset + p.size <= end
  {
    hide AllOfSize, Numbered, Tiled, CutPoint;
    assert p.number in b.live && p.number in b.chunks;
    assert p.offset == b.chunks[p.number].offset && p.size == |b.chunks[p.number].data|;
    var i :| 0 <= i < |b.live| && b.live[i] == p.number;
    TileSplit(b, k, end, bound, i);
  }

  lemma TileSplit(b: Ledger, k: nat, end: nat, bound: nat, i: nat)
    requires CutPoint(b, k, end, bound) && i < |b.live|
    ensures b.live[i] in b.chunks
    ensures b.chunks[b.live[i]].offset < bound <==> b.chunks[b.live[i]].End() <= end
  {
    hide AllOfSize, Numbered, Accounted;
    PartsSplit(b, k, end, bound);
    if i < k - 1 { TiledInOrder(b.live, b.chunks, b.sent, i, k - 1); }
    if k < i { TiledInOrder(b.live, b.chunks, b.sent, k, i); }
  }

  /** What stands before the last part ends where that part begins. */
  lemma BeforeLast(b: Ledger, last: Chunk)
    requires IsLast(b, last)
    ensures |b.live| > 0 && CutPoint(b, |b.live| - 1, last.offset, last.offset)
    ensures last.End() == |b.sent| && b.sent[last.offset..] == last.data && |last.data| > 0
    ensures b.even ==> |last.data| == b.partSize
  {
    var k := |b.live| - 1;
    if k > 0 { TiledInOrder(b.live, b.chunks, b.sent, k - 1, k); }
  }

  ghost predicate IsMultiple(n: nat, p: nat)
    requires p > 0
  {
    n == 0 || (n >= p && IsMultiple(n - p, p))
  }

  /** How many full parts `n` bytes make, and where the last of them ends. */
  function PartsIn(n: nat, p: nat): nat
    requires p > 0
  {
    if n < p then 0 else 1 + PartsIn(n - p, p)
  }

  /** How many parts `n` bytes go out in, the last of them perhaps a shorter one. */
  function PartsFor(n: nat, p: nat): nat
    requires p > 0
  {
    if n == 0 then 0 else if n < p then 1 else 1 + PartsFor(n - p, p)
  }

  /** The numbers that go to the full parts of the next `n` bytes, and where each of them ends. */
  function Cuts(count: nat, from: nat, n: nat, p: nat): map<nat, nat>
    requires p > 0
    decreases n
  {
    if n < p then map[] else map[count + 1 := from + p] + Cuts(count + 1, from + p, n - p, p)
  }

  lemma {:induction false} CutsAre(count: nat, from: nat, n: nat, p: nat)
    requires p > 0
    ensures forall m :: m in Cuts(count, from, n, p) <==> count < m <= count + PartsIn(n, p)
    decreases n
  {
    if n >= p {
      CutsAre(count + 1, from + p, n - p, p);
    }
  }

  /** The `i`th of the parts cut gets the `i`th number and ends `i` part sizes on. */
  lemma {:induction false} CutEnds(count: nat, from: nat, n: nat, p: nat, i: nat)
    requires p > 0 && 0 < i * p <= n
    ensures count + i in Cuts(count, from, n, p) && Cuts(count, from, n, p)[count + i] == from + i * p
    decreases n
  {
    CutsAre(count + 1, from + p, n - p, p);
    if i > 1 {
      assert (i - 1) * p == i * p - p;
      CutEnds(count + 1, from + p, n - p, p, i - 1);
    }
  }

  /** One part after another comes to the same. */
  lemma CutsNext(cut: map<nat, Chunk>, count: nat, from: nat, n: nat, p: nat, slab: Chunk)
    requires p > 0 && n >= p && slab.End() == from + p
    ensures FlightEnds(cut[count + 1 := slab]) + Cuts(count + 1, from + p, n - p, p) == FlightEnds(cut) + Cuts(count, from, n, p)
  {
    assert FlightEnds(cut[count + 1 := slab]) == FlightEnds(cut) + map[count + 1 := from + p];
  }

  lemma {:induction false} PartsFrom(from: nat, n: nat, p: nat)
    requires p > 0 && IsMultiple(from, p) && from <= n
    ensures PartsIn(n, p) == PartsIn(from, p) + PartsIn(n - from, p)
    ensures PartsFor(n, p) == PartsIn(from, p) + PartsFor(n - from, p)
  {
    if from > 0 {
      PartsFrom(from - p, n - p, p);
    }
  }

  function Boundary(n: nat, p: nat): (r: nat)
    requires p > 0
    ensures r <= n < r + p && IsMultiple(r, p)
  {
    if n < p then 0 else p + Boundary(n - p, p)
  }

  /** Counted in parts: how many are full, where the last of those ends, how many it takes in all. */
  lemma {:induction false} PartsAre(n: nat, p: nat)
    requires p > 0
    ensures PartsIn(n, p) == n / p && PartsFor(n, p) == (n + p - 1) / p
    ensures Boundary(n, p) == n - n % p && (IsMultiple(n, p) <==> n % p == 0)
  {
    if n >= p {
      PartsAre(n - p, p);
      OneLess(n, p);
      OneLess(n + p - 1, p);
    } else {
      QuotientSmall(n, p);
    }
  }

  lemma OneLess(n: nat, p: nat)
    requires 0 < p <= n
    ensures n / p == (n - p) / p + 1 && n % p == (n - p) % p
  {
    var q := (n - p) / p;
    Quotient(n - p, p);
    NextProduct(q, p);
    QuotientIs(n, q + 1, p);
    RemainderIs(n, p);
    RemainderIs(n - p, p);
  }

  lemma RemainderIs(n: nat, p: nat)
    requires p > 0
    ensures n % p == n - n / p * p
  {
  }

  lemma QuotientSmall(n: nat, p: nat)
    requires n < p
    ensures n / p == 0 && n % p == n && (n + p - 1) / p == if n == 0 then 0 else 1
  {
    QuotientIs(n, 0, p);
    QuotientIs(n + p - 1, if n == 0 then 0 else 1, p);
    RemainderIs(n, p);
  }

  lemma {:induction false} BoundaryIs(b: nat, n: nat, p: nat)
    requires p > 0 && IsMultiple(b, p) && b <= n < b + p
    ensures Boundary(n, p) == b
  {
    if b > 0 {
      BoundaryIs(b - p, n - p, p);
    }
  }

  lemma {:induction false} TilesOnBoundary(live: seq<nat>, chunks: map<nat, Chunk>, sent: seq<byte>, p: nat, k: nat)
    requires Tiled(live, chunks, sent) && AllOfSize(live, chunks, p) && p > 0 && k < |live|
    ensures IsMultiple(chunks[live[k]].offset, p)
  {
    if k > 0 {
      TilesOnBoundary(live, chunks, sent, p, k - 1);
    }
  }

  /** While every part is a full one, what was sent ends at a multiple of the part size. */
  lemma SentOnBoundary(b: Ledger)
    requires b.even && b.partSize > 0
    ensures IsMultiple(|b.sent|, b.partSize)
  {
    hide Accounted, Numbered, Tiled;
    if b.live == [] {
      NothingTiled(b.chunks, b.sent);
    } else {
      var k := |b.live|;
      TilesOnBoundary(b.live, b.chunks, b.sent, b.partSize, k - 1);
      TileAt(b.live, b.chunks, b.sent, k);
      LastTile(b.live, b.chunks, b.sent);
    }
  }

  lemma NothingTiled(chunks: map<nat, Chunk>, sent: seq<byte>)
    requires Tiled([], chunks, sent)
    ensures sent == []
  {
  }

  lemma LastTile(live: seq<nat>, chunks: map<nat, Chunk>, sent: seq<byte>)
    requires Tiled(live, chunks, sent) && live != []
    ensures live[|live| - 1] in chunks && chunks[live[|live| - 1]].End() == |sent|
  {
  }

  /** While every part is a full one, the last one begins at a multiple of the part size. */
  lemma LastOnBoundary(b: Ledger, last: Chunk)
    requires b.even && b.partSize > 0 && IsLast(b, last)
    ensures IsMultiple(last.offset, b.partSize)
  {
    hide Accounted, Numbered, Tiled;
    TilesOnBoundary(b.live, b.chunks, b.sent, b.partSize, |b.live| - 1);
  }

  /** A landed part that ends at `n` before the end of what was sent has a part right behind it, and the last part
      begins at `n` or at least a full part further on. */
  lemma BehindPart(b: Ledger, n: nat) returns (k: nat)
    requires b.even && n < |b.sent|
    requires n in Ends(b.parts)
    ensures CutPoint(b, k, n, n) && n + b.partSize <= |b.sent|
    ensures forall last | IsLast(b, last) :: last.offset == n || last.offset >= n + b.partSize
  {
    hide Accounted, Numbered;
    var i := LandedStands(b, n);
    k := i + 1;
    if k < |b.live| - 1 { TiledInOrder(b.live, b.chunks, b.sent, k, |b.live| - 1); }
  }

  /** A landed part is one that stands. */
  lemma LandedStands(b: Ledger, n: nat) returns (i: nat)
    requires n in Ends(b.parts)
    ensures i < |b.live| && b.live[i] in b.chunks && b.chunks[b.live[i]].End() == n
  {
    hide Tiled, Numbered, AllOfSize;
    var p :| p in b.parts && p.offset + p.size == n;
    i :| 0 <= i < |b.live| && b.live[i] == p.number;
  }

  lemma {:induction false} TileEndingAt(live: seq<nat>, chunks: map<nat, Chunk>, sent: seq<byte>, p: nat, n: nat) returns (k: nat)
    requires Tiled(live, chunks, sent) && AllOfSize(live, chunks, p) && p > 0 && IsMultiple(n, p) && 0 < n <= |sent|
    ensures k < |live| && live[k] in chunks && chunks[live[k]].End() == n
  {
    hide Tiled;
    if live == [] { NothingTiled(chunks, sent); }
    LastTile(live, chunks, sent);
    if n == p {
      k := 0;
      TileAt(live, chunks, sent, 1);
    } else {
      var before := TileEndingAt(live, chunks, sent, p, n - p);
      k := before + 1;
      TileAt(live, chunks, sent, k + 1);
    }
  }

  /** Once nothing is on its way and no part has failed, a landed part ends at exactly the multiples of the part size. */
  lemma LandedBoundary(b: Ledger, n: nat)
    requires b.even && b.partSize > 0 && !b.failed && b.flying == map[] && 0 < n < |b.sent|
    ensures n in Ends(b.parts) <==> IsMultiple(n, b.partSize)
  {
    if IsMultiple(n, b.partSize) {
      var k := TileEndingAt(b.live, b.chunks, b.sent, b.partSize, n);
      var j := LandedPart(b, k);
    } else if n in Ends(b.parts) {
      var i := LandedStands(b, n);
      MultipleEnds(b, i);
    }
  }

  lemma LandedPart(b: Ledger, k: nat) returns (j: nat)
    requires !b.failed && b.flying == map[] && k < |b.live|
    ensures b.live[k] in b.chunks && j < |b.parts|
    ensures b.parts[j].offset + b.parts[j].size == b.chunks[b.live[k]].End()
  {
    hide Tiled, Numbered;
    assert b.live[k] in b.live && HasLanded(b.parts, b.live[k]);
    j :| 0 <= j < |b.parts| && b.parts[j].number == b.live[k];
  }

  lemma MultipleEnds(b: Ledger, i: nat)
    requires b.even && b.partSize > 0 && i < |b.live|
    ensures b.live[i] in b.chunks && IsMultiple(b.chunks[b.live[i]].End(), b.partSize)
  {
    hide Tiled, Numbered, Accounted;
    TilesOnBoundary(b.live, b.chunks, b.sent, b.partSize, i);
  }

  /** Completing with the landed parts in the order of their numbers stores what was sent. */
  lemma CompletedLedger(b: Ledger)
    requires b.flying == map[] && !b.failed
    ensures forall n | n in Numbers(SortByNumber(b.parts)) :: n in b.stored
    ensures Join(Numbers(SortByNumber(b.parts)), b.stored) == b.sent
  {
    CompletedIsSent(b.live, b.chunks, b.sent, b.count, b.parts, b.stored);
  }
}
