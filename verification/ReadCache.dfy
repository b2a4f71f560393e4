/** The read cache of an open (open.go): chunks of the file, downloaded in the background and dropped when there are too
    many, and reads answered from them alone. */
module ReadCache {
  import opened Bytes

  /** A chunk on its way, or there, possibly shorter than was asked for. `id` tells one download from another. */
  datatype Chunk = Loading(id: nat) | Loaded(id: nat, data: seq<byte>)

  type Buffer = map<nat, Chunk>

  /** The queue lists every cached chunk, and none of them twice. */
  ghost predicate ListsAll(order: seq<nat>, buffer: Buffer) {
    && (forall x :: x in order <==> x in buffer)
    && forall i, j | 0 <= i < j < |order| :: order[i] != order[j]
  }

  /** The cache as a value. */
  datatype Picture = Picture(order: seq<nat>, buffer: Buffer) {
    ghost predicate Listed() { ListsAll(order, buffer) }
  }

  function Without(order: seq<nat>, i: nat): seq<nat>
    requires i < |order|
  {
    order[..i] + order[i + 1..]
  }

  lemma WithoutIs(order: seq<nat>, i: nat)
    requires i < |order| && forall j, k | 0 <= j < k < |order| :: order[j] != order[k]
    ensures forall x :: x in Without(order, i) <==> x in order && x != order[i]
    ensures forall j, k | 0 <= j < k < |order| - 1 :: Without(order, i)[j] != Without(order, i)[k]
  {
    var r := Without(order, i);
    assert forall j | 0 <= j < |r| :: r[j] == order[if j < i then j else j + 1];
    forall x ensures x in r <==> x in order && x != order[i] {
      if x in order && x != order[i] {
        var j :| 0 <= j < |order| && order[j] == x;
        assert r[if j < i then j else j - 1] == x;
      }
    }
  }

  lemma DroppingLists(order: seq<nat>, buffer: Buffer, i: nat)
    requires ListsAll(order, buffer) && i < |order|
    ensures ListsAll(Without(order, i), buffer - {order[i]})
  {
    WithoutIs(order, i);
  }

  lemma TouchingLists(order: seq<nat>, buffer: Buffer, i: nat)
    requires ListsAll(order, buffer) && i < |order|
    ensures ListsAll(Without(order, i) + [order[i]], buffer)
  {
    WithoutIs(order, i);
  }

  lemma AddingLists(order: seq<nat>, buffer: Buffer, x: nat, c: Chunk)
    requires ListsAll(order, buffer) && x !in buffer
    ensures ListsAll(order + [x], buffer[x := c])
  {
  }

  lemma ReplacingLists(order: seq<nat>, buffer: Buffer, x: nat, c: Chunk)
    requires ListsAll(order, buffer) && x in buffer
    ensures ListsAll(order, buffer[x := c])
  {
  }

  /** The first chunk in the queue that is there. */
  function FirstLoaded(order: seq<nat>, buffer: Buffer): (r: Option<nat>)
    requires forall x | x in order :: x in buffer
    ensures r.Some? ==> r.value < |order| && buffer[order[r.value]].Loaded?
                        && forall j | 0 <= j < r.value :: buffer[order[j]].Loading?
    ensures r.None? <==> forall j | 0 <= j < |order| :: buffer[order[j]].Loading?
  {
    if order == [] then None
    else if buffer[order[0]].Loaded? then Some(0)
    else
      match FirstLoaded(order[1..], buffer)
      case None =>
        assert forall j | 1 <= j < |order| :: order[j] == order[1..][j - 1];
        None
      case Some(i) =>
        assert forall j | 1 <= j < |order| :: order[j] == order[1..][j - 1];
        Some(i + 1)
  }

  /** The place of a chunk in a queue. */
  function Place(order: seq<nat>, x: nat): (i: nat)
    requires x in order
    ensures i < |order| && order[i] == x
  {
    if order[0] == x then 0 else 1 + Place(order[1..], x)
  }

  /** What is left of the queue is in the order it was in. */
  ghost predicate SameOrder(before: seq<nat>, order: seq<nat>) {
    && (forall x | x in order :: x in before)
    && forall i, j | 0 <= i < j < |order| :: Place(before, order[i]) < Place(before, order[j])
  }

  /** Only chunks that are there were dropped, and of two of them never the one used later alone. */
  ghost predicate LeastRecentGone(before: seq<nat>, was: Buffer, buffer: Buffer)
    requires forall x :: x in before <==> x in was
  {
    && (forall x | x in buffer :: x in was && buffer[x] == was[x])
    && (forall x | x in was && x !in buffer :: was[x].Loaded?)
    && forall x, y | x in was && y in was && was[x].Loaded? && Place(before, x) < Place(before, y) && y !in buffer :: x !in buffer
  }

  ghost predicate Evicted(before: seq<nat>, was: Buffer, order: seq<nat>, buffer: Buffer) {
    ListsAll(before, was) && ListsAll(order, buffer) && SameOrder(before, order) && LeastRecentGone(before, was, buffer)
  }

  lemma {:induction false} PlaceIs(order: seq<nat>, i: nat)
    requires i < |order| && forall j, k | 0 <= j < k < |order| :: order[j] != order[k]
    ensures Place(order, order[i]) == i
  {
    var p := Place(order, order[i]);
    assert p == i || p < i || i < p;
  }

  lemma ListedPlace(order: seq<nat>, buffer: Buffer, i: nat)
    requires ListsAll(order, buffer) && i < |order|
    ensures Place(order, order[i]) == i
  {
    PlaceIs(order, i);
  }

  /** The queue with a chunk moved to its back. */
  function Touched(order: seq<nat>, x: nat): seq<nat> {
    if x in order then Without(order, Place(order, x)) + [x] else order
  }

  lemma TouchedLists(order: seq<nat>, buffer: Buffer, x: nat)
    requires ListsAll(order, buffer)
    ensures ListsAll(Touched(order, x), buffer)
  {
    hide ListsAll;
    if x in order {
      TouchingLists(order, buffer, Place(order, x));
    }
  }

  /** The queue after a read has gone through the chunks from `k` to `last` up to the first that is not there. */
  function TouchedRow(order: seq<nat>, buffer: Buffer, k: nat, last: nat, chunkSize: nat): seq<nat>
    decreases last + 1 - k
  {
    if k > last || k * chunkSize !in buffer || buffer[k * chunkSize].Loading? then order
    else TouchedRow(Touched(order, k * chunkSize), buffer, k + 1, last, chunkSize)
  }

  lemma {:induction false} TouchedRowLists(order: seq<nat>, buffer: Buffer, k: nat, last: nat, chunkSize: nat)
    requires ListsAll(order, buffer)
    ensures ListsAll(TouchedRow(order, buffer, k, last, chunkSize), buffer)
    decreases last + 1 - k
  {
    hide ListsAll, Touched;
    if k <= last {
      TouchedLists(order, buffer, k * chunkSize);
      TouchedRowLists(Touched(order, k * chunkSize), buffer, k + 1, last, chunkSize);
    }
  }

  /** The chunks from `k` on, `n` of them. */
  function Row(k: nat, n: nat, chunkSize: nat): (r: seq<nat>)
    ensures |r| == n
  {
    if n == 0 then [] else Row(k, n - 1, chunkSize) + [(k + n - 1) * chunkSize]
  }

  /** A read that finds all its chunks leaves them at the back of the queue, in order: they are the last to be dropped. */
  lemma {:induction false} FoundAtTheBack(order: seq<nat>, buffer: Buffer, first: nat, k: nat, last: nat, chunkSize: nat)
    requires ListsAll(order, buffer) && chunkSize > 0 && first <= k <= last + 1
    requires forall c | first <= c <= last :: There(buffer, c, chunkSize)
    requires EndsWith(order, Row(first, k - first, chunkSize))
    ensures EndsWith(TouchedRow(order, buffer, k, last, chunkSize), Row(first, last + 1 - first, chunkSize))
    decreases last + 1 - k
  {
    hide ListsAll, Touched, EndsWith, Row;
    if k <= last {
      assert There(buffer, k, chunkSize);
      TouchedLists(order, buffer, k * chunkSize);
      NextAtTheBack(order, buffer, first, k, chunkSize);
      FoundAtTheBack(Touched(order, k * chunkSize), buffer, first, k + 1, last, chunkSize);
    }
  }

  ghost predicate EndsWith(order: seq<nat>, row: seq<nat>) {
    |row| <= |order| && order[|order| - |row|..] == row
  }

  lemma NextAtTheBack(order: seq<nat>, buffer: Buffer, first: nat, k: nat, chunkSize: nat)
    requires ListsAll(order, buffer) && chunkSize > 0 && first <= k && k * chunkSize in buffer
    requires EndsWith(order, Row(first, k - first, chunkSize))
    ensures EndsWith(Touched(order, k * chunkSize), Row(first, k + 1 - first, chunkSize))
  {
    hide ListsAll;
    var x, row := k * chunkSize, Row(first, k - first, chunkSize);
    InBoth(order, buffer, x);
    var i := Place(order, x);
    if i >= |order| - |row| {
      RowIs(first, k - first, chunkSize, i - (|order| - |row|));
      ProductsInOrder(first + (i - (|order| - |row|)), k, chunkSize);
      assert false;
    }
    var rest := Without(order, i);
    assert rest[|rest| - |row|..] == order[|order| - |row|..];
    assert (rest + [x])[|rest| + 1 - (|row| + 1)..] == row + [x];
  }

  lemma {:induction false} RowIs(k: nat, n: nat, chunkSize: nat, i: nat)
    requires i < n
    ensures Row(k, n, chunkSize)[i] == (k + i) * chunkSize
  {
    if i < n - 1 { RowIs(k, n - 1, chunkSize, i); }
  }

  /** What is left when chunks that are there are dropped from the front of the queue until there are `most`, or none. */
  ghost function Shrunk(order: seq<nat>, buffer: Buffer, most: nat): (p: Picture)
    requires ListsAll(order, buffer)
    ensures p.Listed()
    decreases |order|
  {
    if |buffer| <= most then Picture(order, buffer)
    else
      match FirstLoaded(order, buffer)
      case None => Picture(order, buffer)
      case Some(i) =>
        DroppingLists(order, buffer, i);
        Shrunk(Without(order, i), buffer - {order[i]}, most)
  }

  /** The cache once a chunk has been asked for, under the number of the download that starts if it was not cached. */
  ghost function Ensured(p: Picture, x: nat, id: nat, most: nat): (p': Picture)
    requires p.Listed()
    ensures p'.Listed()
  {
    TouchedLists(p.order, p.buffer, x);
    if x in p.buffer then Picture(Touched(p.order, x), p.buffer)
    else
      AddingLists(p.order, p.buffer, x, Loading(id));
      Shrunk(p.order + [x], p.buffer[x := Loading(id)], most)
  }

  /** The cache once a download has ended. */
  ghost function Finished(p: Picture, x: nat, id: nat, result: Option<seq<byte>>): (p': Picture)
    requires p.Listed()
    ensures p'.Listed()
  {
    if x !in p.buffer || p.buffer[x] != Loading(id) then p
    else if result.Some? then
      ReplacingLists(p.order, p.buffer, x, Loaded(id, result.value));
      p.(buffer := p.buffer[x := Loaded(id, result.value)])
    else
      DroppingLists(p.order, p.buffer, Place(p.order, x));
      Picture(Without(p.order, Place(p.order, x)), p.buffer - {x})
  }

  lemma NothingEvicted(order: seq<nat>, buffer: Buffer)
    requires ListsAll(order, buffer)
    ensures Evicted(order, buffer, order, buffer)
  {
    forall i | 0 <= i < |order| ensures Place(order, order[i]) == i {
      PlaceIs(order, i);
    }
  }

  lemma OrderKept(before: seq<nat>, order: seq<nat>, i: nat)
    requires SameOrder(before, order) && i < |order|
    ensures SameOrder(before, Without(order, i))
  {
    hide Place;
    var rest := Without(order, i);
    assert forall j | 0 <= j < |rest| :: rest[j] == order[if j < i then j else j + 1];
  }

  lemma LaterStays(before: seq<nat>, was: Buffer, order: seq<nat>, buffer: Buffer, i: nat, x: nat)
    requires ListsAll(before, was) && ListsAll(order, buffer) && SameOrder(before, order)
    requires FirstLoaded(order, buffer) == Some(i) && i < |order|
    requires x in buffer && buffer[x].Loaded? && x != order[i]
    ensures order[i] in before && x in before && Place(before, order[i]) < Place(before, x)
  {
    hide Place, FirstLoaded;
    var j :| 0 <= j < |order| && order[j] == x;
    assert i < j;
  }

  lemma OneEvicted(before: seq<nat>, was: Buffer, order: seq<nat>, buffer: Buffer, i: nat)
    requires Evicted(before, was, order, buffer) && FirstLoaded(order, buffer) == Some(i)
    ensures i < |order| && Evicted(before, was, Without(order, i), buffer - {order[i]})
  {
    hide Place, FirstLoaded, ListsAll, SameOrder;
    AllCached(order, buffer);
    AllCached(before, was);
    DroppingLists(order, buffer, i);
    OrderKept(before, order, i);
    var left := buffer - {order[i]};
    forall x | x in left && buffer[x].Loaded? ensures order[i] in before && x in before && Place(before, order[i]) < Place(before, x) {
      LaterStays(before, was, order, buffer, i, x);
    }
  }

  lemma EvictedMeans(before: seq<nat>, was: Buffer, order: seq<nat>, buffer: Buffer)
    requires Evicted(before, was, order, buffer)
    ensures ListsAll(order, buffer) && forall x | x in buffer :: x in order
  {
  }

  // Answering from the cache

  /** The part of a chunk that falls inside the range, unless the chunk does not reach into it. */
  function ChunkSlice(data: seq<byte>, chunkOffset: nat, offset: nat, length: nat): (r: Option<seq<byte>>)
    requires chunkOffset < offset + length
  {
    var start := if offset > chunkOffset then offset - chunkOffset else 0;
    if start >= |data| then None
    else
      var end := if chunkOffset + |data| > offset + length then offset + length - chunkOffset else |data|;
      Some(data[start..end])
  }

  /** The bytes are the file's, from the offset on, and no more than a chunk of them. */
  ghost predicate FrontOf(data: seq<byte>, file: seq<byte>, x: nat, chunkSize: nat) {
    |data| <= chunkSize && x + |data| <= |file| && data == file[x..x + |data|]
  }

  ghost predicate Truthful(buffer: Buffer, file: seq<byte>, chunkSize: nat) {
    forall x | x in buffer && buffer[x].Loaded? :: FrontOf(buffer[x].data, file, x, chunkSize)
  }

  /** How far the `k`-th chunk goes into a range that ends at `end`. */
  function Upto(k: nat, chunkSize: nat, end: nat): nat {
    if (k + 1) * chunkSize < end then (k + 1) * chunkSize else end
  }

  /** The `k`-th chunk is there and has all of its part of a range that ends at `end`. */
  ghost predicate Reaches(buffer: Buffer, k: nat, chunkSize: nat, end: nat) {
    && k * chunkSize in buffer && buffer[k * chunkSize].Loaded?
    && Upto(k, chunkSize, end) <= k * chunkSize + |buffer[k * chunkSize].data|
  }

  ghost predicate AllReach(buffer: Buffer, first: nat, next: nat, chunkSize: nat, end: nat) {
    forall k | first <= k < next :: Reaches(buffer, k, chunkSize, end)
  }

  /** Every chunk of the range is there with its part. */
  ghost predicate HasAll(buffer: Buffer, offset: nat, length: nat, chunkSize: nat)
    requires chunkSize > 0
  {
    length > 0 ==> AllReach(buffer, offset / chunkSize, (offset + length - 1) / chunkSize + 1, chunkSize, offset + length)
  }

  /** The byte is in a chunk that is there. */
  ghost predicate HasByte(buffer: Buffer, x: nat, chunkSize: nat)
    requires chunkSize > 0
  {
    var c := x / chunkSize * chunkSize;
    c in buffer && buffer[c].Loaded? && x < c + |buffer[c].data|
  }

  /** A range is had exactly if each of its bytes is. */
  lemma HasAllBytes(buffer: Buffer, offset: nat, length: nat, chunkSize: nat)
    requires chunkSize > 0
    ensures HasAll(buffer, offset, length, chunkSize) <==> forall x | offset <= x < offset + length :: HasByte(buffer, x, chunkSize)
  {
    hide AllReach, Reaches, HasByte;
    if HasAll(buffer, offset, length, chunkSize) {
      forall x | offset <= x < offset + length ensures HasByte(buffer, x, chunkSize) {
        HasOneByte(buffer, offset, length, chunkSize, x);
      }
    }
    if (forall x | offset <= x < offset + length :: HasByte(buffer, x, chunkSize)) && length > 0 {
      var first, last, end := offset / chunkSize, (offset + length - 1) / chunkSize, offset + length;
      forall k | first <= k < last + 1 ensures Reaches(buffer, k, chunkSize, end) {
        LastByteReaches(buffer, offset, length, chunkSize, k);
      }
      AllReachIs(buffer, first, last + 1, chunkSize, end);
    }
  }

  lemma AllReachIs(buffer: Buffer, first: nat, next: nat, chunkSize: nat, end: nat)
    ensures AllReach(buffer, first, next, chunkSize, end) <==> forall k | first <= k < next :: Reaches(buffer, k, chunkSize, end)
  {
  }

  lemma HasOneByte(buffer: Buffer, offset: nat, length: nat, chunkSize: nat, x: nat)
    requires chunkSize > 0 && offset <= x < offset + length && HasAll(buffer, offset, length, chunkSize)
    ensures HasByte(buffer, x, chunkSize)
  {
    hide Reaches;
    var k := x / chunkSize;
    InOrderQuotients(offset, x, chunkSize);
    InOrderQuotients(x, offset + length - 1, chunkSize);
    Quotient(x, chunkSize);
    NextProduct(k, chunkSize);
    assert Reaches(buffer, k, chunkSize, offset + length);
    ReachedByte(buffer, k, chunkSize, offset + length, x);
  }

  lemma ReachedByte(buffer: Buffer, k: nat, chunkSize: nat, end: nat, x: nat)
    requires Reaches(buffer, k, chunkSize, end) && chunkSize > 0 && k == x / chunkSize && x < end && x < (k + 1) * chunkSize
    ensures HasByte(buffer, x, chunkSize)
  {
  }

  /** The last byte of the range in a chunk is had only if the chunk has all of its part. */
  lemma LastByteReaches(buffer: Buffer, offset: nat, length: nat, chunkSize: nat, k: nat)
    requires chunkSize > 0 && length > 0 && offset / chunkSize <= k <= (offset + length - 1) / chunkSize
    requires forall x | offset <= x < offset + length :: HasByte(buffer, x, chunkSize)
    ensures Reaches(buffer, k, chunkSize, offset + length)
  {
    var end := offset + length;
    var x := Upto(k, chunkSize, end) - 1;
    Quotient(offset, chunkSize);
    Quotient(end - 1, chunkSize);
    NextProduct(k, chunkSize);
    if offset / chunkSize < k { ProductsInOrder(offset / chunkSize, k, chunkSize); }
    if k < (end - 1) / chunkSize { ProductsInOrder(k, (end - 1) / chunkSize, chunkSize); }
    assert k * chunkSize <= x < k * chunkSize + chunkSize && offset <= x < end;
    QuotientIs(x, k, chunkSize);
    assert HasByte(buffer, x, chunkSize);
  }

  /** What one chunk adds to an answer that has come to `got`, which is exact if it has all it could have. */
  lemma PartAdds(data: seq<byte>, file: seq<byte>, x: nat, chunkSize: nat, offset: nat, length: nat, got: seq<byte>)
    requires FrontOf(data, file, x, chunkSize) && chunkSize > 0 && x < offset + length && offset < x + chunkSize
    requires ChunkSlice(data, x, offset, length).Some?
    requires var from := if offset > x then offset else x;
             && |got| <= from - offset
             && (|got| == from - offset && from > offset ==> from <= |file| && got == file[offset..from])
    ensures var part := ChunkSlice(data, x, offset, length).value;
            var from := if offset > x then offset else x;
            var upto := if x + chunkSize < offset + length then x + chunkSize else offset + length;
            && |got + part| <= upto - offset
            && (|got + part| == upto - offset ==> upto <= |file| && got + part == file[offset..upto])
            && (|got + part| == upto - offset <==> |got| == from - offset && upto <= x + |data|)
  {
    var part := ChunkSlice(data, x, offset, length).value;
    var from := if offset > x then offset else x;
    PartIs(data, file, x, chunkSize, offset, length);
    var upto := if x + chunkSize < offset + length then x + chunkSize else offset + length;
    if |got + part| == upto - offset {
      assert |got| == from - offset && |part| == upto - from;
      SlicesJoin(file, offset, from, upto);
    }
  }

  /** The part of a chunk that falls inside the range is the file's. */
  lemma PartIs(data: seq<byte>, file: seq<byte>, x: nat, chunkSize: nat, offset: nat, length: nat)
    requires FrontOf(data, file, x, chunkSize) && x < offset + length && ChunkSlice(data, x, offset, length).Some?
    ensures var part := ChunkSlice(data, x, offset, length).value;
            var from := if offset > x then offset else x;
            && |part| == (if x + |data| > offset + length then offset + length else x + |data|) - from
            && from + |part| <= |file| && part == file[from..from + |part|]
  {
    var part := ChunkSlice(data, x, offset, length).value;
    var from := if offset > x then offset else x;
    var start, end := from - x, from - x + |part|;
    assert part == data[start..end];
    SliceOfSlice(file, x, x + |data|, start, end);
  }

  lemma SliceOfSlice(s: seq<byte>, a: nat, b: nat, i: nat, j: nat)
    requires a <= b <= |s| && i <= j <= b - a
    ensures s[a..b][i..j] == s[a + i..a + j]
  {
    var t := s[a..b];
    assert forall k | i <= k < j :: t[k] == s[a + k];
  }

  class Cache {
    const chunkSize: nat
    const maxCacheSize: nat
    var buffer: Buffer
    var cacheOrder: seq<nat>
    var lastReadEnd: nat
    var cacheGeneration: nat

    ghost predicate Valid()
      reads this
    {
      chunkSize > 0 && ListsAll(cacheOrder, buffer)
    }

    constructor (chunkSize: nat, maxCacheSize: nat)
      requires chunkSize > 0
      ensures Valid() && buffer == map[] && cacheOrder == [] && this.chunkSize == chunkSize && this.maxCacheSize == maxCacheSize
    {
      this.chunkSize, this.maxCacheSize := chunkSize, maxCacheSize;
      buffer, cacheOrder, lastReadEnd, cacheGeneration := map[], [], 0, 0;
    }

    /** The place of a chunk in the queue. */
    method Find(x: nat) returns (at: Option<nat>)
      ensures at.Some? ==> at.value < |cacheOrder| && cacheOrder[at.value] == x
      ensures at.None? <==> x !in cacheOrder
    {
      for i := 0 to |cacheOrder|
        invariant x !in cacheOrder[..i]
      {
        if cacheOrder[i] == x {
          return Some(i);
        }
      }
      return None;
    }

    /** Moves a chunk to the back of the queue. */
    method TouchChunk(x: nat)
      requires Valid()
      modifies this`cacheOrder
      ensures Valid()
      ensures cacheOrder == Touched(old(cacheOrder), x)
      ensures x !in buffer ==> cacheOrder == old(cacheOrder)
      ensures x in buffer ==> exists i :: 0 <= i < |old(cacheOrder)| && old(cacheOrder)[i] == x
                                          && cacheOrder == old(cacheOrder)[..i] + old(cacheOrder)[i + 1..] + [x]
    {
      hide ListsAll;
      InBoth(cacheOrder, buffer, x);
      var i := Find(x);
      if i.Some? {
        ListedPlace(cacheOrder, buffer, i.value);
        TouchingLists(cacheOrder, buffer, i.value);
        cacheOrder := Without(cacheOrder, i.value) + [x];
      }
    }

    /** Drops chunks that are there, the least recently used first, until the cache is within its limit or everything left
        is on its way. */
    method EvictChunks()
      requires Valid()
      modifies this`buffer, this`cacheOrder
      ensures Valid()
      ensures |buffer| <= maxCacheSize || forall x | x in buffer :: buffer[x].Loading?
      ensures Evicted(old(cacheOrder), old(buffer), cacheOrder, buffer)
      ensures buffer != old(buffer) ==> |buffer| >= maxCacheSize
      ensures Picture(cacheOrder, buffer) == Shrunk(old(cacheOrder), old(buffer), maxCacheSize)
    {
      hide ListsAll, Evicted, FirstLoaded;
      NothingEvicted(cacheOrder, buffer);
      while |buffer| > maxCacheSize
        invariant Evicted(old(cacheOrder), old(buffer), cacheOrder, buffer) && Valid()
        invariant buffer != old(buffer) ==> |buffer| >= maxCacheSize
        invariant Shrunk(cacheOrder, buffer, maxCacheSize) == Shrunk(old(cacheOrder), old(buffer), maxCacheSize)
        decreases |buffer|
      {
        AllCached(cacheOrder, buffer);
        var i := FirstLoaded(cacheOrder, buffer);
        if i.None? {
          break;
        }
        DroppingLists(cacheOrder, buffer, i.value);
        OneEvicted(old(cacheOrder), old(buffer), cacheOrder, buffer, i.value);
        buffer := buffer - {cacheOrder[i.value]};
        cacheOrder := Without(cacheOrder, i.value);
      }
      EvictedMeans(old(cacheOrder), old(buffer), cacheOrder, buffer);
    }

    /** The entry of a chunk, which a download is started for if there is none. */
    method EnsureChunk(x: nat, id: nat) returns (started: bool)
      requires Valid()
      modifies this`buffer, this`cacheOrder
      ensures Valid() && x in buffer && (started <==> x !in old(buffer))
      ensures !started ==> buffer == old(buffer) && cacheOrder == Touched(old(cacheOrder), x)
      ensures Picture(cacheOrder, buffer) == Ensured(Picture(old(cacheOrder), old(buffer)), x, id, maxCacheSize)
      ensures started ==> buffer[x] == Loading(id) && Evicted(old(cacheOrder) + [x], old(buffer)[x := Loading(id)], cacheOrder, buffer)
                          && (|buffer| <= maxCacheSize || forall y | y in buffer :: buffer[y].Loading?)
    {
      hide ListsAll, Shrunk, Touched;
      if x in buffer {
        TouchChunk(x);
        return false;
      }
      AddingLists(cacheOrder, buffer, x, Loading(id));
      buffer := buffer[x := Loading(id)];
      cacheOrder := cacheOrder + [x];
      EvictChunks();
      StillThere(old(cacheOrder) + [x], old(buffer)[x := Loading(id)], cacheOrder, buffer, x);
      return true;
    }

    /** A download ends. The chunk takes its bytes, or leaves the cache; a chunk that is no longer the one cached is nothing
        to the cache. */
    method FinishDownload(x: nat, id: nat, result: Option<seq<byte>>)
      requires Valid()
      modifies this`buffer, this`cacheOrder
      ensures Valid()
      ensures buffer == if x in old(buffer) && old(buffer)[x] == Loading(id)
                        then if result.Some? then old(buffer)[x := Loaded(id, result.value)] else old(buffer) - {x}
                        else old(buffer)
      ensures Picture(cacheOrder, buffer) == Finished(Picture(old(cacheOrder), old(buffer)), x, id, result)
    {
      hide ListsAll;
      if x !in buffer || buffer[x] != Loading(id) {
        return;
      }
      if result.Some? {
        ReplacingLists(cacheOrder, buffer, x, Loaded(id, result.value));
        buffer := buffer[x := Loaded(id, result.value)];
        return;
      }
      InBoth(cacheOrder, buffer, x);
      var i := Find(x);
      ListedPlace(cacheOrder, buffer, i.value);
      DroppingLists(cacheOrder, buffer, i.value);
      buffer := buffer - {x};
      cacheOrder := Without(cacheOrder, i.value);
    }

    /** Empties the cache if the file was written anew since it was filled. */
    method DropOlderGeneration(generation: nat)
      requires Valid()
      modifies this`buffer, this`cacheOrder, this`lastReadEnd, this`cacheGeneration
      ensures Valid() && cacheGeneration == generation
      ensures buffer == if old(cacheGeneration) == generation then old(buffer) else map[]
      ensures old(cacheGeneration) == generation ==> cacheOrder == old(cacheOrder) && lastReadEnd == old(lastReadEnd)
    {
      if cacheGeneration == generation {
        return;
      }
      if |buffer| > 0 {
        buffer, cacheOrder, lastReadEnd := map[], [], 0;
      }
      cacheGeneration := generation;
    }

    /** Collects the chunks of a range, if they are all there. */
    method Collect(first: nat, last: nat) returns (chunks: Option<seq<seq<byte>>>)
      requires Valid() && first <= last
      modifies this`cacheOrder
      ensures Valid()
      ensures chunks.Some? <==> forall k | first <= k <= last :: There(buffer, k, chunkSize)
      ensures chunks.Some? ==> |chunks.value| == last - first + 1 && Collected(buffer, chunks.value, first, chunkSize)
      ensures cacheOrder == TouchedRow(old(cacheOrder), buffer, first, last, chunkSize)
    {
      hide ListsAll, There, Touched;
      var got: seq<seq<byte>> := [];
      ghost var k := first;
      var chunkOffset := first * chunkSize;
      while chunkOffset <= last * chunkSize
        invariant Valid() && first <= k <= last + 1 && chunkOffset == k * chunkSize && |got| == k - first
        invariant Collected(buffer, got, first, chunkSize)
        invariant TouchedRow(cacheOrder, buffer, k, last, chunkSize) == TouchedRow(old(cacheOrder), buffer, first, last, chunkSize)
        decreases last + 1 - k
      {
        if k > last { ProductsInOrder(last, k, chunkSize); }
        ThereMeans(buffer, k, chunkSize);
        if chunkOffset !in buffer || buffer[chunkOffset].Loading? {
          return None;
        }
        TouchChunk(chunkOffset);
        CollectedMore(buffer, got, first, chunkSize);
        got := got + [buffer[chunkOffset].data];
        NextProduct(k, chunkSize);
        chunkOffset := chunkOffset + chunkSize;
        k := k + 1;
      }
      if k < last { ProductsInOrder(k, last, chunkSize); }
      CollectedThere(buffer, got, first, chunkSize);
      return Some(got);
    }

    /** Puts an answer together from the chunks of a range. It is declined unless every chunk has its part. */
    method Assemble(chunks: seq<seq<byte>>, first: nat, last: nat, offset: nat, length: nat, ghost file: seq<byte>)
      returns (r: Option<seq<byte>>)
      requires Valid() && length > 0 && first * chunkSize <= offset < first * chunkSize + chunkSize
      requires last * chunkSize <= offset + length - 1 < last * chunkSize + chunkSize
      requires first <= last && |chunks| == last - first + 1
      requires Collected(buffer, chunks, first, chunkSize)
      requires Truthful(buffer, file, chunkSize)
      ensures r.Some? ==> offset + length <= |file| && r.value == file[offset..offset + length]
      ensures r.Some? <==> AllReach(buffer, first, last + 1, chunkSize, offset + length)
    {
      hide ListsAll, ChunkSlice, Gathered, AllReach, Truthful, Collected;
      var result: seq<byte> := [];
      NothingGathered(buffer, file, first, chunkSize, offset, length);
      for i := 0 to |chunks|
        invariant Gathered(result, buffer, file, first, first + i, chunkSize, offset, offset + length)
      {
        OneMoreChunk(result, buffer, file, chunks, i, first, last, chunkSize, offset, length);
        var part := ChunkSlice(chunks[i], (first + i) * chunkSize, offset, length);
        if part.None? {
          return None;
        }
        result := result + part.value;
      }
      AllGathered(result, buffer, file, first, last, chunkSize, offset, length);
      r := if |result| == length then Some(result) else None;
    }

    /** Answers a read if everything it asks for is there, and otherwise declines; what is still missing and comes next is
        listed. The answer is the file's bytes over the range, cut off at the end of the file. */
    method TryReadCached(size: nat, uploading: bool, generation: nat, offset: nat, length: nat, ghost file: seq<byte>)
      returns (r: Option<seq<byte>>, prefetch: seq<nat>)
      requires Valid() && Truthful(buffer, file, chunkSize)
      modifies this`buffer, this`cacheOrder, this`lastReadEnd, this`cacheGeneration
      ensures Valid() && (buffer == old(buffer) || buffer == map[])
      ensures r.Some? ==> var len := Clipped(size, offset, length);
                          |r.value| == len && (len > 0 ==> offset + len <= |file| && r.value == file[offset..offset + len])
      ensures r.Some? <==>
              var len := Clipped(size, offset, length);
              !uploading && offset < size && HasAll(buffer, offset, len, chunkSize)
      ensures r.Some? ==> offset + |r.value| == if offset + length < size then offset + length else size
      ensures |prefetch| <= READ_PREFETCH_DEPTH && forall x | x in prefetch :: x < size && x !in buffer
      ensures r.Some? && r.value != [] && generation == old(cacheGeneration) ==>
                && lastReadEnd == offset + |r.value|
                && prefetch == Ahead(buffer, old(lastReadEnd), offset, |r.value|, chunkSize, size)
      ensures generation == old(cacheGeneration) ==>
                && buffer == old(buffer)
                && cacheOrder == ReadOrder(Picture(old(cacheOrder), buffer), size, uploading, offset, length, chunkSize)
    {
      hide ListsAll, Truthful, AllReach, There, Ahead;
      prefetch := [];
      if uploading {
        return None, [];
      }
      DropOlderGeneration(generation);
      StaysTruthful(old(buffer), buffer, file, chunkSize);
      if offset >= size {
        return None, [];
      }
      var len := Clipped(size, offset, length);
      if len == 0 {
        return Some([]), [];
      }
      var first, last := offset / chunkSize, (offset + len - 1) / chunkSize;
      InOrderQuotients(offset, offset + len - 1, chunkSize);
      Quotient(offset, chunkSize);
      Quotient(offset + len - 1, chunkSize);
      var chunks := Collect(first, last);
      if AllReach(buffer, first, last + 1, chunkSize, offset + len) {
        ReachedAreThere(buffer, first, last + 1, chunkSize, offset + len);
      }
      if chunks.None? {
        return None, [];
      }
      prefetch := ListPrefetch(first, last, offset, len, size);
      r := Assemble(chunks.value, first, last, offset, len, file);
    }

    /** The chunks after the range that are not cached, a few of them, if the reads look sequential. */
    method ListPrefetch(first: nat, last: nat, offset: nat, length: nat, size: nat) returns (prefetch: seq<nat>)
      requires chunkSize > 0 && length > 0 && first == offset / chunkSize && last == (offset + length - 1) / chunkSize
      modifies this`lastReadEnd
      ensures lastReadEnd == offset + length
      ensures prefetch == Ahead(buffer, old(lastReadEnd), offset, length, chunkSize, size)
      ensures |prefetch| <= READ_PREFETCH_DEPTH && forall x | x in prefetch :: x < size && x !in buffer
    {
      var prevCached := first > 0 && first * chunkSize - chunkSize in buffer;
      var sequential := offset == 0 || prevCached
                        || (offset <= lastReadEnd + 2 * chunkSize && lastReadEnd <= offset + length + 2 * chunkSize);
      lastReadEnd := offset + length;
      if !sequential {
        return [];
      }
      prefetch := ListMissing(last * chunkSize + chunkSize, READ_PREFETCH_DEPTH, size);
    }

    method ListMissing(from: nat, depth: nat, size: nat) returns (missing: seq<nat>)
      ensures missing == Missing(buffer, from, depth, chunkSize, size)
    {
      hide Missing;
      missing := [];
      var chunkOffset: nat := from;
      for i := 0 to depth
        invariant missing + Missing(buffer, chunkOffset, depth - i, chunkSize, size) == Missing(buffer, from, depth, chunkSize, size)
      {
        MissingNext(buffer, chunkOffset, depth - i, chunkSize, size);
        if chunkOffset >= size {
          return;
        }
        if chunkOffset !in buffer {
          missing := missing + [chunkOffset];
        }
        chunkOffset := chunkOffset + chunkSize;
      }
      NoneMissing(buffer, chunkOffset, chunkSize, size);
    }
  }

  const READ_PREFETCH_DEPTH: nat := 3

  /** Those of the next `n` chunks from `x` on, inside the file, that are not cached, in order. */
  function Missing(buffer: Buffer, x: nat, n: nat, chunkSize: nat, size: nat): (r: seq<nat>)
    ensures |r| <= n && forall y | y in r :: x <= y < size && y !in buffer
    decreases n
  {
    if n == 0 || x >= size then []
    else (if x in buffer then [] else [x]) + Missing(buffer, x + chunkSize, n - 1, chunkSize, size)
  }

  /** What is fetched ahead of a read: the missing ones of the chunks behind it, if it looks like one in a row. */
  function Ahead(buffer: Buffer, lastReadEnd: nat, offset: nat, length: nat, chunkSize: nat, size: nat): seq<nat>
    requires chunkSize > 0 && length > 0
  {
    if Sequential(buffer, lastReadEnd, offset / chunkSize, offset, length, chunkSize) then
      Missing(buffer, (offset + length - 1) / chunkSize * chunkSize + chunkSize, READ_PREFETCH_DEPTH, chunkSize, size)
    else []
  }

  /** Exactly the chunks among the next `n` that lie inside the file and are not cached are missing. */
  lemma {:induction false} MissingIs(buffer: Buffer, x: nat, n: nat, chunkSize: nat, size: nat, i: nat)
    requires chunkSize > 0
    ensures i < n && x + i * chunkSize < size && x + i * chunkSize !in buffer ==>
              x + i * chunkSize in Missing(buffer, x, n, chunkSize, size)
    decreases n
  {
    if 0 < i < n && x + i * chunkSize < size {
      NextProduct(i - 1, chunkSize);
      MissingIs(buffer, x + chunkSize, n - 1, chunkSize, size, i - 1);
      assert x + chunkSize + (i - 1) * chunkSize == x + i * chunkSize;
    }
  }

  /** A read that goes on where the last one ended looks like one in a row, wherever that is; one that is far from there,
      with nothing cached before it, does not. */
  lemma GoingOnIsSequential(buffer: Buffer, lastReadEnd: nat, first: nat, offset: nat, length: nat, chunkSize: nat)
    ensures offset == lastReadEnd ==> Sequential(buffer, lastReadEnd, first, offset, length, chunkSize)
    ensures buffer == map[] && offset > lastReadEnd + 2 * chunkSize ==>
              !Sequential(buffer, lastReadEnd, first, offset, length, chunkSize)
    ensures buffer == map[] && offset > 0 && offset + length + 2 * chunkSize < lastReadEnd ==>
              !Sequential(buffer, lastReadEnd, first, offset, length, chunkSize)
  {
  }

  lemma MissingNext(buffer: Buffer, x: nat, n: nat, chunkSize: nat, size: nat)
    requires n > 0
    ensures Missing(buffer, x, n, chunkSize, size) ==
            if x >= size then [] else (if x in buffer then [] else [x]) + Missing(buffer, x + chunkSize, n - 1, chunkSize, size)
  {
  }

  lemma NoneMissing(buffer: Buffer, x: nat, chunkSize: nat, size: nat)
    ensures Missing(buffer, x, 0, chunkSize, size) == []
  {
  }

  /** The queue once a read has looked for its chunks. */
  function ReadOrder(p: Picture, size: nat, uploading: bool, offset: nat, length: nat, chunkSize: nat): seq<nat>
    requires chunkSize > 0
  {
    var len := Clipped(size, offset, length);
    if uploading || len == 0 then p.order
    else TouchedRow(p.order, p.buffer, offset / chunkSize, (offset + len - 1) / chunkSize, chunkSize)
  }

  /** Whether a read looks like one in a row: it starts the file, or follows a cached chunk, or is close to where the last
      one ended. */
  predicate Sequential(buffer: Buffer, lastReadEnd: nat, first: nat, offset: nat, length: nat, chunkSize: nat) {
    || offset == 0
    || (first > 0 && first * chunkSize - chunkSize in buffer)
    || (offset <= lastReadEnd + 2 * chunkSize && lastReadEnd <= offset + length + 2 * chunkSize)
  }

  function Clipped(size: nat, offset: nat, length: nat): (r: nat)
    ensures offset < size ==> offset + r == if offset + length < size then offset + length else size
    ensures offset >= size ==> r == 0
  {
    if offset >= size then 0 else if offset + length >= size then size - offset else length
  }

  /** What has been put together of a range once the chunks from `first` up to `k` are through: never more than they were
      to add, and if that much, then exactly the file's bytes, which it is if each of them had its part. */
  ghost predicate Gathered(got: seq<byte>, buffer: Buffer, file: seq<byte>, first: nat, k: nat, chunkSize: nat, offset: nat, end: nat)
    requires offset <= end
  {
    var upto := Reached(k, chunkSize, offset, end);
    && |got| <= upto - offset
    && (|got| == upto - offset && upto > offset ==> upto <= |file| && got == file[offset..upto])
    && (|got| == upto - offset <==> AllReach(buffer, first, k, chunkSize, end))
  }

  lemma OneMorePart(got: seq<byte>, buffer: Buffer, file: seq<byte>, first: nat, k: nat, last: nat,
                    chunkSize: nat, offset: nat, length: nat)
    requires chunkSize > 0 && length > 0 && first <= k <= last && There(buffer, k, chunkSize) && Truthful(buffer, file, chunkSize)
    requires first * chunkSize <= offset < first * chunkSize + chunkSize && last * chunkSize < offset + length
    requires Gathered(got, buffer, file, first, k, chunkSize, offset, offset + length)
    ensures k * chunkSize < offset + length
    ensures var part := ChunkSlice(buffer[k * chunkSize].data, k * chunkSize, offset, length);
            if part.None? then !Reaches(buffer, k, chunkSize, offset + length)
            else Gathered(got + part.value, buffer, file, first, k + 1, chunkSize, offset, offset + length)
  {
    hide AllReach;
    var x, end, data := k * chunkSize, offset + length, buffer[k * chunkSize].data;
    if first < k { ProductsInOrder(first, k, chunkSize); }
    if k < last { ProductsInOrder(k, last, chunkSize); }
    NextProduct(k, chunkSize);
    ReachMore(buffer, first, k, chunkSize, end);
    if ChunkSlice(data, x, offset, length).Some? {
      PartAdds(data, file, x, chunkSize, offset, length, got);
    }
  }

  lemma ReachMore(buffer: Buffer, first: nat, k: nat, chunkSize: nat, end: nat)
    requires first <= k
    ensures AllReach(buffer, first, k + 1, chunkSize, end) <==>
            AllReach(buffer, first, k, chunkSize, end) && Reaches(buffer, k, chunkSize, end)
  {
  }

  lemma NothingGathered(buffer: Buffer, file: seq<byte>, first: nat, chunkSize: nat, offset: nat, length: nat)
    requires first * chunkSize <= offset
    ensures Gathered([], buffer, file, first, first, chunkSize, offset, offset + length)
  {
  }

  lemma NotAll(buffer: Buffer, first: nat, k: nat, last: nat, chunkSize: nat, end: nat)
    requires first <= k <= last && !Reaches(buffer, k, chunkSize, end)
    ensures !AllReach(buffer, first, last + 1, chunkSize, end)
  {
  }

  lemma AllGathered(got: seq<byte>, buffer: Buffer, file: seq<byte>, first: nat, last: nat, chunkSize: nat, offset: nat, length: nat)
    requires offset + length <= last * chunkSize + chunkSize
    requires Gathered(got, buffer, file, first, last + 1, chunkSize, offset, offset + length)
    ensures |got| == length <==> AllReach(buffer, first, last + 1, chunkSize, offset + length)
    ensures |got| == length && length > 0 ==> offset + length <= |file| && got == file[offset..offset + length]
  {
    NextProduct(last, chunkSize);
  }

  lemma OneMoreChunk(got: seq<byte>, buffer: Buffer, file: seq<byte>, chunks: seq<seq<byte>>, i: nat, first: nat, last: nat,
                     chunkSize: nat, offset: nat, length: nat)
    requires chunkSize > 0 && length > 0 && i < |chunks| == last - first + 1 && first <= last
    requires Collected(buffer, chunks, first, chunkSize) && Truthful(buffer, file, chunkSize)
    requires first * chunkSize <= offset < first * chunkSize + chunkSize && last * chunkSize < offset + length
    requires Gathered(got, buffer, file, first, first + i, chunkSize, offset, offset + length)
    ensures (first + i) * chunkSize < offset + length
    ensures var part := ChunkSlice(chunks[i], (first + i) * chunkSize, offset, length);
            if part.None? then !AllReach(buffer, first, last + 1, chunkSize, offset + length)
            else Gathered(got + part.value, buffer, file, first, first + i + 1, chunkSize, offset, offset + length)
  {
    hide ChunkSlice, Gathered, AllReach, Truthful;
    assert HoldsChunk(buffer, first + i, chunkSize, chunks[i]);
    OneMorePart(got, buffer, file, first, first + i, last, chunkSize, offset, length);
    if !Reaches(buffer, first + i, chunkSize, offset + length) {
      NotAll(buffer, first, first + i, last, chunkSize, offset + length);
    }
  }

  lemma StaysTruthful(was: Buffer, buffer: Buffer, file: seq<byte>, chunkSize: nat)
    requires Truthful(was, file, chunkSize) && (buffer == was || buffer == map[])
    ensures Truthful(buffer, file, chunkSize)
  {
  }

  lemma InOrderQuotients(a: nat, b: nat, n: nat)
    requires a <= b && n > 0
    ensures a / n <= b / n
  {
    Quotient(a, n);
    Quotient(b, n);
    if b / n < a / n { ProductsInOrder(b / n, a / n, n); }
  }

  lemma ReachedAreThere(buffer: Buffer, first: nat, next: nat, chunkSize: nat, end: nat)
    requires AllReach(buffer, first, next, chunkSize, end)
    ensures forall k | first <= k < next :: There(buffer, k, chunkSize)
  {
    forall k | first <= k < next ensures There(buffer, k, chunkSize) {
      assert Reaches(buffer, k, chunkSize, end);
    }
  }

  /** Where a range has been dealt with up to before the `k`-th chunk. */
  function Reached(k: nat, chunkSize: nat, offset: nat, end: nat): (r: nat)
    requires offset <= end
    ensures offset <= r <= end
  {
    if k * chunkSize < offset then offset else if k * chunkSize < end then k * chunkSize else end
  }

  ghost predicate There(buffer: Buffer, k: nat, chunkSize: nat) {
    k * chunkSize in buffer && buffer[k * chunkSize].Loaded?
  }

  lemma ThereMeans(buffer: Buffer, k: nat, chunkSize: nat)
    ensures There(buffer, k, chunkSize) <==> k * chunkSize in buffer && buffer[k * chunkSize].Loaded?
  {
  }

  ghost predicate HoldsChunk(buffer: Buffer, k: nat, chunkSize: nat, data: seq<byte>) {
    There(buffer, k, chunkSize) && buffer[k * chunkSize].data == data
  }

  /** The bytes are those of the chunks from the first on. */
  ghost predicate Collected(buffer: Buffer, chunks: seq<seq<byte>>, first: nat, chunkSize: nat) {
    forall i | 0 <= i < |chunks| :: HoldsChunk(buffer, first + i, chunkSize, chunks[i])
  }

  lemma CollectedMore(buffer: Buffer, chunks: seq<seq<byte>>, first: nat, chunkSize: nat)
    requires Collected(buffer, chunks, first, chunkSize) && There(buffer, first + |chunks|, chunkSize)
    ensures Collected(buffer, chunks + [buffer[(first + |chunks|) * chunkSize].data], first, chunkSize)
  {
  }

  lemma CollectedThere(buffer: Buffer, chunks: seq<seq<byte>>, first: nat, chunkSize: nat)
    requires Collected(buffer, chunks, first, chunkSize)
    ensures forall k | first <= k < first + |chunks| :: There(buffer, k, chunkSize)
  {
    forall k | first <= k < first + |chunks| ensures There(buffer, k, chunkSize) {
      assert HoldsChunk(buffer, first + (k - first), chunkSize, chunks[k - first]);
    }
  }

  lemma StillThere(before: seq<nat>, was: Buffer, order: seq<nat>, buffer: Buffer, x: nat)
    requires Evicted(before, was, order, buffer) && x in was && was[x].Loading?
    ensures x in buffer && buffer[x] == was[x]
  {
  }

  lemma AllCached(order: seq<nat>, buffer: Buffer)
    requires ListsAll(order, buffer)
    ensures forall x | x in order :: x in buffer
  {
  }

  lemma InBoth(order: seq<nat>, buffer: Buffer, x: nat)
    requires ListsAll(order, buffer)
    ensures x in order <==> x in buffer
  {
  }

  datatype Event =
    | Ensure(chunk: nat)
    | Finish(chunk: nat, id: nat, got: Option<nat>)
    | Read(offset: nat, length: nat)

  /** What a backend answers for a chunk: the file's bytes, possibly fewer than were asked for. */
  function Answer(file: seq<byte>, x: nat, chunkSize: nat, got: nat): (data: seq<byte>)
    ensures x <= |file| ==> FrontOf(data, file, x, chunkSize)
    ensures x > |file| ==> data == []
    ensures x <= |file| ==> |data| == got || |data| == chunkSize || x + |data| == |file|
    ensures |data| <= got
  {
    if x > |file| then []
    else
      var n := if got < chunkSize then got else chunkSize;
      if x + n <= |file| then file[x..x + n] else file[x..]
  }

  lemma FinishedTruthful(buffer: Buffer, file: seq<byte>, chunkSize: nat, x: nat, id: nat, data: seq<byte>)
    requires Truthful(buffer, file, chunkSize) && FrontOf(data, file, x, chunkSize)
    ensures Truthful(buffer[x := Loaded(id, data)], file, chunkSize)
  {
  }

  lemma FewerTruthful(was: Buffer, buffer: Buffer, file: seq<byte>, chunkSize: nat)
    requires Truthful(was, file, chunkSize) && forall x | x in buffer :: buffer[x].Loading? || (x in was && was[x] == buffer[x])
    ensures Truthful(buffer, file, chunkSize)
  {
  }

  lemma EvictedFewer(before: seq<nat>, was: Buffer, order: seq<nat>, buffer: Buffer)
    requires Evicted(before, was, order, buffer)
    ensures forall x | x in buffer :: x in was && was[x] == buffer[x]
  {
  }

  lemma ReadOrderLists(p: Picture, offset: nat, length: nat, size: nat, chunkSize: nat)
    requires p.Listed() && chunkSize > 0
    ensures ListsAll(ReadOrder(p, size, false, offset, length, chunkSize), p.buffer)
  {
    hide ListsAll, TouchedRow, Clipped;
    var len := Clipped(size, offset, length);
    if len > 0 {
      TouchedRowLists(p.order, p.buffer, offset / chunkSize, (offset + len - 1) / chunkSize, chunkSize);
    }
  }

  /** The cache once a read has looked for its chunks. */
  ghost function AfterRead(p: Picture, offset: nat, length: nat, size: nat, chunkSize: nat): (p': Picture)
    requires p.Listed() && chunkSize > 0
    ensures p'.Listed()
  {
    hide ListsAll, ReadOrder;
    ReadOrderLists(p, offset, length, size, chunkSize);
    p.(order := ReadOrder(p, size, false, offset, length, chunkSize))
  }

  /** What the `i`-th event makes of the cache. */
  ghost function Next(p: Picture, e: Event, i: nat, file: seq<byte>, chunkSize: nat, most: nat): (p': Picture)
    requires p.Listed() && chunkSize > 0
    ensures p'.Listed()
  {
    hide ListsAll, Ensured, Finished, AfterRead;
    match e
    case Ensure(x) => Ensured(p, x, i, most)
    case Finish(x, id, got) => Finished(p, x, id, if got.None? then None else Some(Answer(file, x, chunkSize, got.value)))
    case Read(offset, length) => AfterRead(p, offset, length, |file|, chunkSize)
  }

  ghost function After(file: seq<byte>, chunkSize: nat, most: nat, events: seq<Event>): (p: Picture)
    requires chunkSize > 0
    ensures p.Listed()
  {
    if events == [] then Picture([], map[])
    else
      var n := |events| - 1;
      Next(After(file, chunkSize, most, events[..n]), events[n], n, file, chunkSize, most)
  }

  lemma NothingCached(file: seq<byte>, chunkSize: nat, most: nat)
    requires chunkSize > 0
    ensures After(file, chunkSize, most, []) == Picture([], map[])
  {
  }

  lemma AfterNext(file: seq<byte>, chunkSize: nat, most: nat, events: seq<Event>, i: nat)
    requires chunkSize > 0 && i < |events|
    ensures After(file, chunkSize, most, events[..i + 1])
            == Next(After(file, chunkSize, most, events[..i]), events[i], i, file, chunkSize, most)
  {
    assert events[..i + 1][..i] == events[..i];
  }

  /** The cache is within its limit, or everything in it is on its way. */
  ghost predicate WithinLimit(buffer: Buffer, most: nat) {
    |buffer| <= most || forall x | x in buffer :: buffer[x].Loading?
  }

  lemma {:induction false} ShrunkFits(order: seq<nat>, buffer: Buffer, most: nat)
    requires ListsAll(order, buffer)
    ensures WithinLimit(Shrunk(order, buffer, most).buffer, most)
    decreases |order|
  {
    hide ListsAll, FirstLoaded;
    AllCached(order, buffer);
    if |buffer| > most {
      var i := FirstLoaded(order, buffer);
      if i.Some? {
        DroppingLists(order, buffer, i.value);
        ShrunkFits(Without(order, i.value), buffer - {order[i.value]}, most);
      } else {
        AllLoading(order, buffer);
      }
    }
  }

  lemma AllLoading(order: seq<nat>, buffer: Buffer)
    requires ListsAll(order, buffer) && FirstLoaded(order, buffer).None?
    ensures forall x | x in buffer :: buffer[x].Loading?
  {
    hide FirstLoaded;
  }

  /** Starting a download leaves the cache within its limit, or full of chunks on their way. */
  lemma LimitKept(file: seq<byte>, chunkSize: nat, most: nat, events: seq<Event>, i: nat)
    requires chunkSize > 0 && i < |events| && Starts(After(file, chunkSize, most, events[..i]).buffer, events[i])
    ensures WithinLimit(After(file, chunkSize, most, events[..i + 1]).buffer, most)
  {
    hide ListsAll, After, Shrunk, WithinLimit;
    AfterNext(file, chunkSize, most, events, i);
    var p, x := After(file, chunkSize, most, events[..i]), events[i].chunk;
    AddingLists(p.order, p.buffer, x, Loading(i));
    ShrunkFits(p.order + [x], p.buffer[x := Loading(i)], most);
  }

  /** The event starts a download. */
  predicate Starts(buffer: Buffer, e: Event) {
    e.Ensure? && e.chunk !in buffer
  }

  /** The event is a read inside the file, and every chunk of its range is cached with all of its part. */
  ghost predicate Cached(buffer: Buffer, e: Event, file: seq<byte>, chunkSize: nat)
    requires chunkSize > 0
  {
    e.Read? && e.offset < |file| && HasAll(buffer, e.offset, Clipped(|file|, e.offset, e.length), chunkSize)
  }

  /** The answer is the file's bytes over the range, and there is one exactly if the range was cached by then. */
  ghost predicate Right(answer: Option<seq<byte>>, buffer: Buffer, e: Event, file: seq<byte>, chunkSize: nat)
    requires chunkSize > 0
  {
    && (answer.Some? <==> Cached(buffer, e, file, chunkSize))
    && (answer.Some? ==> answer.value == file[e.offset..e.offset + Clipped(|file|, e.offset, e.length)])
  }

  /** One event. */
  method Step(c: Cache, e: Event, i: nat, file: seq<byte>) returns (answer: Option<seq<byte>>)
    requires c.Valid() && Truthful(c.buffer, file, c.chunkSize) && (!e.Read? ==> e.chunk <= |file|)
    modifies c
    ensures c.Valid() && Truthful(c.buffer, file, c.chunkSize)
    ensures Right(answer, old(c.buffer), e, file, c.chunkSize)
    ensures Picture(c.cacheOrder, c.buffer) == Next(Picture(old(c.cacheOrder), old(c.buffer)), e, i, file, c.chunkSize, c.maxCacheSize)
  {
    hide ListsAll, Truthful, HasAll, FrontOf, Evicted, Ensured, Finished, Touched, TouchedRow;
    answer := None;
    ghost var was, before := c.buffer, c.cacheOrder;
    match e
    case Ensure(x) =>
      var started := c.EnsureChunk(x, i);
      if started {
        EvictedFewer(before + [x], was[x := Loading(i)], c.cacheOrder, c.buffer);
      }
      FewerTruthful(was, c.buffer, file, c.chunkSize);
    case Finish(x, id, got) =>
      var result := if got.None? then None else Some(Answer(file, x, c.chunkSize, got.value));
      if result.Some? {
        FinishedTruthful(was, file, c.chunkSize, x, id, result.value);
      }
      FewerTruthful(was, was - {x}, file, c.chunkSize);
      c.FinishDownload(x, id, result);
    case Read(offset, length) =>
      var prefetch;
      answer, prefetch := c.TryReadCached(|file|, false, c.cacheGeneration, offset, length, file);
      StaysTruthful(was, c.buffer, file, c.chunkSize);
  }

  /** Any run of reads and downloads on a file. A read is answered exactly if everything it asks for is cached by then, with
      the file's bytes over the range; the queue lists every cached chunk once, and both are what the events make of them. */
  method Run(file: seq<byte>, chunkSize: nat, maxCacheSize: nat, events: seq<Event>)
    returns (order: seq<nat>, buffer: Buffer, answers: seq<Option<seq<byte>>>)
    requires chunkSize > 0
    requires forall e | e in events && !e.Read? :: e.chunk <= |file|
    ensures Picture(order, buffer) == After(file, chunkSize, maxCacheSize, events) && ListsAll(order, buffer)
    ensures |answers| == |events|
    ensures forall i | 0 <= i < |events| ::
              Right(answers[i], After(file, chunkSize, maxCacheSize, events[..i]).buffer, events[i], file, chunkSize)
    ensures forall i | 0 <= i < |events| && Starts(After(file, chunkSize, maxCacheSize, events[..i]).buffer, events[i]) ::
              WithinLimit(After(file, chunkSize, maxCacheSize, events[..i + 1]).buffer, maxCacheSize)
  {
    hide ListsAll, Truthful, Next, After, Right, WithinLimit, Starts;
    NothingCached(file, chunkSize, maxCacheSize);
    var c := new Cache(chunkSize, maxCacheSize);
    answers := [];
    FewerTruthful(map[], map[], file, chunkSize);
    assert events[..0] == [];
    for i := 0 to |events|
      invariant fresh(c) && c.Valid() && Truthful(c.buffer, file, chunkSize)
      invariant c.chunkSize == chunkSize && c.maxCacheSize == maxCacheSize && |answers| == i
      invariant Picture(c.cacheOrder, c.buffer) == After(file, chunkSize, maxCacheSize, events[..i])
      invariant forall j | 0 <= j < i ::
                  Right(answers[j], After(file, chunkSize, maxCacheSize, events[..j]).buffer, events[j], file, chunkSize)
    {
      assert events[i] in events;
      AfterNext(file, chunkSize, maxCacheSize, events, i);
      var answer := Step(c, events[i], i, file);
      answers := answers + [answer];
    }
    assert events[..|events|] == events;
    forall i | 0 <= i < |events| && Starts(After(file, chunkSize, maxCacheSize, events[..i]).buffer, events[i])
      ensures WithinLimit(After(file, chunkSize, maxCacheSize, events[..i + 1]).buffer, maxCacheSize)
    {
      LimitKept(file, chunkSize, maxCacheSize, events, i);
    }
    return c.cacheOrder, c.buffer, answers;
  }
}
