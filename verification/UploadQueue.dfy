/** The queue of writes that arrived ahead of the contiguous part of an upload (`pending` in open.go).

    The queue is keyed by offset, a write replaces whatever was queued at the same offset, and where
    two chunks cover the same byte the one that starts lower is taken first. `LastWriteWinsExactly`
    says when that is what the client meant. */
module UploadQueue {
  import opened Bytes

  type Queue = map<nat, seq<byte>>

  ghost predicate Covers(q: Queue, o: nat, x: nat) {
    o in q && o <= x < o + |q[o]|
  }

  /** The chunk at `o` is the one the byte at `x` is taken from. */
  ghost predicate Lowest(q: Queue, o: nat, x: nat) {
    && Covers(q, o, x)
    && forall p :: Covers(q, p, x) ==> o <= p
  }

  /** From offset `from` on, draining the queue yields exactly the bytes of `file`. */
  ghost predicate Shows(q: Queue, file: File, from: nat) {
    && (forall x :: from <= x && x in file ==> exists o :: Covers(q, o, x))
    && (forall o, x :: from <= x && Covers(q, o, x) ==> x in file)
    && (forall o, x :: from <= x && Lowest(q, o, x) ==> x in file && file[x] == q[o][x - o])
  }

  /** Wherever a chunk that starts lower is the one a byte of the write would be taken from, it holds that very byte. */
  ghost predicate NotHidden(q: Queue, offset: nat, data: seq<byte>) {
    forall o: nat, x: nat | Lowest(q, o, x) && o < offset <= x < offset + |data| :: q[o][x - o] == data[x - offset]
  }

  /** What a write of `len` bytes leaves uncovered of the chunk it replaces, the other chunks have. */
  ghost predicate TailKept(q: Queue, file: File, offset: nat, len: nat) {
    offset in q ==> forall x | offset + len <= x < offset + |q[offset]| :: ShownWithout(q, file, offset, x)
  }

  ghost predicate ShownWithout(q: Queue, file: File, offset: nat, x: nat) {
    x in file && exists o :: Lowest(q - {offset}, o, x) && q[o][x - o] == file[x]
  }

  /** The write may be queued without an older one showing through it or being lost behind it. */
  ghost predicate Kept(q: Queue, file: File, offset: nat, data: seq<byte>) {
    NotHidden(q, offset, data) && TailKept(q, file, offset, |data|)
  }

  /** Any write of `len` bytes at `offset` may be queued: nothing that starts lower reaches past `offset`, and what it
      leaves uncovered of the chunk it replaces, the other chunks have. */
  ghost predicate KeepsLastWrite(q: Queue, file: File, offset: nat, len: nat) {
    && (forall o :: o in q && o < offset ==> o + |q[o]| <= offset)
    && TailKept(q, file, offset, len)
  }

  lemma {:induction false} LowestBelow(q: Queue, o: nat, x: nat) returns (l: nat)
    requires Covers(q, o, x)
    ensures Lowest(q, l, x)
    decreases o
  {
    if p: nat :| p < o && Covers(q, p, x) {
      l := LowestBelow(q, p, x);
    } else {
      l := o;
    }
  }

  lemma QueueingCovers(q: Queue, offset: nat, data: seq<byte>, o: nat, x: nat)
    ensures var q' := q[offset := data];
            && (o != offset ==> Covers(q', o, x) == Covers(q, o, x) == Covers(q - {offset}, o, x))
            && (Covers(q', offset, x) <==> offset <= x < offset + |data|)
  {
  }

  /** Which chunk a byte is taken from once the write is queued: one that starts lower if there is one, then the write, then
      whatever else covers it. */
  lemma QueueingLowest(q: Queue, offset: nat, data: seq<byte>, o: nat, x: nat)
    ensures var q' := q[offset := data];
            && (o < offset ==> (Lowest(q', o, x) <==> Lowest(q, o, x)))
            && (o > offset && offset + |data| <= x ==> (Lowest(q', o, x) <==> Lowest(q - {offset}, o, x)))
            && (o < offset ==> (Lowest(q', o, x) <==> Lowest(q - {offset}, o, x)))
            && (o > offset && Lowest(q', o, x) ==> offset + |data| <= x)
  {
    var q', rest := q[offset := data], q - {offset};
    assert forall p: nat :: p != offset ==> (Covers(q', p, x) <==> Covers(q, p, x));
    assert forall p: nat :: Covers(rest, p, x) <==> p != offset && Covers(q, p, x);
    assert Covers(q', offset, x) <==> offset <= x < offset + |data|;
    if o < offset && Lowest(q', o, x) {
      forall p: nat | Covers(q, p, x) ensures o <= p { assert p != offset ==> Covers(q', p, x); }
    }
    if o < offset && Lowest(rest, o, x) {
      forall p: nat | Covers(q', p, x) ensures o <= p { assert p != offset ==> Covers(rest, p, x); }
    }
    if o > offset && Lowest(rest, o, x) && offset + |data| <= x {
      forall p: nat | Covers(q', p, x) ensures o <= p { assert Covers(rest, p, x); }
    }
  }

  lemma KeptShows(q: Queue, file: File, from: nat, offset: nat, data: seq<byte>)
    requires Shows(q, file, from) && from <= offset && Kept(q, file, offset, data)
    ensures Shows(q[offset := data], Overlay(file, offset, data), from)
  {
    var q', file' := q[offset := data], Overlay(file, offset, data);
    forall x | from <= x && x in file' ensures exists o :: Covers(q', o, x) {
      QueueingCovers(q, offset, data, offset, x);
      if !(offset <= x < offset + |data|) {
        var o: nat :| Covers(q, o, x);
        if o == offset {
          assert ShownWithout(q, file, offset, x);
          o :| Lowest(q - {offset}, o, x);
        }
        QueueingCovers(q, offset, data, o, x);
        assert Covers(q', o, x);
      }
    }
    forall o: nat, x: nat | from <= x && Covers(q', o, x) ensures x in file' {
      QueueingCovers(q, offset, data, o, x);
    }
    forall o: nat, x: nat | from <= x && Lowest(q', o, x) ensures x in file' && file'[x] == q'[o][x - o] {
      KeptByte(q, file, from, offset, data, o, x);
    }
  }

  /** The byte of the file is the one taken, and every byte of the file is taken from some chunk. */
  lemma ShownByte(q: Queue, file: File, from: nat, o: nat, x: nat)
    requires Shows(q, file, from) && from <= x && Lowest(q, o, x)
    ensures x in file && file[x] == q[o][x - o]
  {
  }

  lemma ShownSomewhere(q: Queue, file: File, from: nat, x: nat) returns (o: nat)
    requires Shows(q, file, from) && from <= x && x in file
    ensures Lowest(q, o, x) && file[x] == q[o][x - o]
  {
    var p: nat :| Covers(q, p, x);
    o := LowestBelow(q, p, x);
  }

  lemma KeptByte(q: Queue, file: File, from: nat, offset: nat, data: seq<byte>, o: nat, x: nat)
    requires Shows(q, file, from) && from <= offset && Kept(q, file, offset, data)
    requires from <= x && Lowest(q[offset := data], o, x)
    ensures var file' := Overlay(file, offset, data); x in file' && file'[x] == q[offset := data][o][x - o]
  {
    hide Shows, NotHidden, TailKept, Lowest;
    assert Covers(q[offset := data], o, x) by { LowestCovers(q[offset := data], o, x); }
    QueueingCovers(q, offset, data, o, x);
    QueueingLowest(q, offset, data, o, x);
    if o < offset {
      ShownByte(q, file, from, o, x);
      if offset <= x < offset + |data| { SameByte(q, offset, data, o, x); }
    } else if o > offset {
      if offset in q && x < offset + |q[offset]| {
        TailByte(q, file, offset, |data|, o, x);
      } else {
        LowestWithout(q, offset, o, x);
        ShownByte(q, file, from, o, x);
      }
    }
  }

  lemma LowestCovers(q: Queue, o: nat, x: nat)
    requires Lowest(q, o, x)
    ensures Covers(q, o, x)
  {
  }

  lemma SameByte(q: Queue, offset: nat, data: seq<byte>, o: nat, x: nat)
    requires NotHidden(q, offset, data) && Lowest(q, o, x) && o < offset <= x < offset + |data|
    ensures q[o][x - o] == data[x - offset]
  {
  }

  lemma TailByte(q: Queue, file: File, offset: nat, len: nat, o: nat, x: nat)
    requires TailKept(q, file, offset, len) && offset in q && offset + len <= x < offset + |q[offset]| && Lowest(q - {offset}, o, x)
    ensures o in q && Covers(q, o, x) && x in file && file[x] == q[o][x - o]
  {
    assert ShownWithout(q, file, offset, x);
    var p: nat :| Lowest(q - {offset}, p, x) && q[p][x - p] == file[x];
    assert p == o;
  }

  lemma LowestWithout(q: Queue, offset: nat, o: nat, x: nat)
    requires Lowest(q - {offset}, o, x) && !Covers(q, offset, x)
    ensures Lowest(q, o, x)
  {
    assert forall p: nat :: Covers(q, p, x) ==> Covers(q - {offset}, p, x);
  }

  lemma ShownTail(q: Queue, file: File, from: nat, offset: nat, data: seq<byte>, x: nat)
    requires Shows(q, file, from) && from <= offset && Shows(q[offset := data], Overlay(file, offset, data), from)
    requires offset in q && offset + |data| <= x < offset + |q[offset]|
    ensures ShownWithout(q, file, offset, x)
  {
    hide Shows;
    assert Covers(q, offset, x);
    var l := LowestBelow(q, offset, x);
    ShownByte(q, file, from, l, x);
    var o := ShownSomewhere(q[offset := data], Overlay(file, offset, data), from, x);
    QueueingCovers(q, offset, data, o, x);
    QueueingLowest(q, offset, data, o, x);
  }

  lemma ShowsKept(q: Queue, file: File, from: nat, offset: nat, data: seq<byte>)
    requires Shows(q, file, from) && from <= offset && Shows(q[offset := data], Overlay(file, offset, data), from)
    ensures Kept(q, file, offset, data)
  {
    hide Shows, ShownWithout;
    forall o: nat, x: nat | Lowest(q, o, x) && o < offset <= x < offset + |data| ensures q[o][x - o] == data[x - offset] {
      QueueingLowest(q, offset, data, o, x);
      ShownByte(q[offset := data], Overlay(file, offset, data), from, o, x);
    }
    if offset in q {
      forall x | offset + |data| <= x < offset + |q[offset]| ensures ShownWithout(q, file, offset, x) {
        ShownTail(q, file, from, offset, data, x);
      }
    }
  }

  /** Queueing a write leaves the queue showing the file with the write laid over it if and only if the write may be
      queued. */
  lemma QueueingShows(q: Queue, file: File, from: nat, offset: nat, data: seq<byte>)
    requires Shows(q, file, from) && from <= offset
    ensures Shows(q[offset := data], Overlay(file, offset, data), from) <==> Kept(q, file, offset, data)
  {
    hide Shows, Kept;
    if Kept(q, file, offset, data) {
      KeptShows(q, file, from, offset, data);
    }
    if Shows(q[offset := data], Overlay(file, offset, data), from) {
      ShowsKept(q, file, from, offset, data);
    }
  }

  // What a queue amounts to

  /** The byte at `x` that draining the queue yields, if there is one. */
  ghost function Drawn(q: Queue, x: nat): Option<byte> {
    if exists o :: Lowest(q, o, x) then
      var o :| Lowest(q, o, x);
      Some(q[o][x - o])
    else None
  }

  /** The offsets a queue has a byte for. */
  ghost function Places(q: Queue): (r: set<nat>)
    ensures forall o: nat, x: nat | Covers(q, o, x) :: x in r
    decreases |q|
  {
    if q == map[] then {}
    else
      var o :| o in q;
      assert forall p: nat, x: nat :: Covers(q, p, x) && p != o ==> Covers(q - {o}, p, x);
      Places(q - {o}) + Overlay(map[], o, q[o]).Keys
  }

  /** The file that is `file` before `from`, and from there on what draining the queue yields. */
  ghost function Drawing(file: File, q: Queue, from: nat): File {
    map x: nat | x in file.Keys + Places(q) && (if x < from then x in file else Drawn(q, x).Some?) ::
      if x < from then file[x] else Drawn(q, x).value
  }

  lemma DrawnIs(q: Queue, o: nat, x: nat)
    requires Covers(q, o, x)
    ensures x in Places(q) && Drawn(q, x).Some?
    ensures Lowest(q, o, x) ==> Drawn(q, x) == Some(q[o][x - o])
  {
    var l := LowestBelow(q, o, x);
    assert Lowest(q, l, x);
  }

  lemma DrawingShows(file: File, q: Queue, from: nat)
    ensures Shows(q, Drawing(file, q, from), from)
    ensures forall x | x < from :: (x in file <==> x in Drawing(file, q, from)) && (x in file ==> file[x] == Drawing(file, q, from)[x])
  {
    var f := Drawing(file, q, from);
    forall x: nat | from <= x && x in f ensures exists o :: Covers(q, o, x) {
      var o :| Lowest(q, o, x);
      assert Covers(q, o, x);
    }
    forall o: nat, x: nat | from <= x && Covers(q, o, x)
      ensures x in f && (Lowest(q, o, x) ==> f[x] == q[o][x - o])
    {
      DrawnIs(q, o, x);
    }
  }

  /** A queue shows one file only. */
  lemma ShownOnce(q: Queue, f: File, g: File, from: nat)
    requires Shows(q, f, from) && Shows(q, g, from)
    requires forall x | x < from :: (x in f <==> x in g) && (x in f ==> f[x] == g[x])
    ensures f == g
  {
    hide Shows;
    forall x: nat | from <= x ensures (x in f <==> x in g) && (x in f ==> f[x] == g[x]) {
      if x in f {
        var o := ShownSomewhere(q, f, from, x);
        ShownByte(q, g, from, o, x);
      } else if x in g {
        var o := ShownSomewhere(q, g, from, x);
        ShownByte(q, f, from, o, x);
      }
    }
    assert forall x: nat :: x in f <==> x in g;
  }

  /** What is made of the file by a write: one before `from` is laid over it, any other is queued. */
  ghost function Laid(file: File, q: Queue, from: nat, offset: nat, data: seq<byte>): File {
    if offset < from then Overlay(file, offset, data) else Drawing(file, q[offset := data], from)
  }

  /** What is made of the file is what the client meant if and only if the write is laid over it or may be queued. */
  lemma LaidAsMeant(file: File, q: Queue, from: nat, offset: nat, data: seq<byte>)
    requires Shows(q, file, from)
    ensures Laid(file, q, from, offset, data) == Overlay(file, offset, data) <==> offset < from || Kept(q, file, offset, data)
  {
    hide Shows, Kept;
    if from <= offset {
      var q', file' := q[offset := data], Overlay(file, offset, data);
      DrawingShows(file, q', from);
      QueueingShows(q, file, from, offset, data);
      if Shows(q', file', from) {
        ShownOnce(q', Drawing(file, q', from), file', from);
      }
    }
  }

  /** Chunks whose every byte lies before `from` may be dropped. */
  lemma DroppingShows(q: Queue, q': Queue, file: File, from: nat)
    requires forall o :: o in q' ==> o in q && q'[o] == q[o]
    requires forall o :: o in q && o !in q' ==> o + |q[o]| <= from
    ensures Shows(q, file, from) <==> Shows(q', file, from)
  {
    forall o: nat, x: nat | from <= x ensures Covers(q, o, x) <==> Covers(q', o, x) {
    }
    forall o: nat, x: nat | from <= x ensures Lowest(q, o, x) <==> Lowest(q', o, x) {
      assert forall p: nat :: Covers(q, p, x) <==> Covers(q', p, x);
    }
  }

  /** Queueing a write of `len` bytes leaves the queue showing the file the newest write would make, whatever bytes it
      carries, if and only if no queued chunk that starts lower reaches past it and what it leaves uncovered of the chunk it
      replaces, the other chunks have. */
  lemma LastWriteWinsExactly(q: Queue, file: File, from: nat, offset: nat, len: nat)
    requires Shows(q, file, from) && from <= offset && len > 0
    ensures KeepsLastWrite(q, file, offset, len) <==>
            forall data: seq<byte> | |data| == len :: Shows(q[offset := data], Overlay(file, offset, data), from)
  {
    hide Shows;
    if KeepsLastWrite(q, file, offset, len) {
      forall data: seq<byte> | |data| == len ensures Shows(q[offset := data], Overlay(file, offset, data), from) {
        QueueingShows(q, file, from, offset, data);
      }
    } else if o: nat :| o in q && o < offset && o + |q[o]| > offset {
      var data: seq<byte> := OlderShowsThrough(q, o, offset, len);
      QueueingShows(q, file, from, offset, data);
    } else {
      var data: seq<byte> := seq(len, i => 0);
      QueueingShows(q, file, from, offset, data);
    }
  }

  /** A chunk that starts lower and reaches past `offset` hides the first byte of some newer write. */
  lemma OlderShowsThrough(q: Queue, o: nat, offset: nat, len: nat) returns (data: seq<byte>)
    requires o in q && o < offset < o + |q[o]| && len > 0
    ensures |data| == len && !NotHidden(q, offset, data)
  {
    assert Covers(q, o, offset);
    var l := LowestBelow(q, o, offset);
    var older: byte := q[l][offset - l];
    var newer: byte := if older == 0 then 1 else 0;
    data := seq(len, i => newer);
    assert Lowest(q, l, offset);
  }

  /** One byte written at 0 and queued over two bytes there loses the second of them, and one written at 1 does not show. */
  lemma OverlapsGoWrong()
    ensures var q, file: File := map[0 := [1, 2]], map[0 := 1, 1 := 2];
            && Shows(q, file, 0)
            && !Shows(q[0 := [9]], Overlay(file, 0, [9]), 0)
            && !Shows(q[1 := [9]], Overlay(file, 1, [9]), 0)
  {
    var q: Queue, file: File := map[0 := [1, 2]], map[0 := 1, 1 := 2];
    assert Covers(q, 0, 0) && Covers(q, 0, 1) && Lowest(q, 0, 1);
    assert Shows(q, file, 0);
    QueueingShows(q, file, 0, 0, [9]);
    QueueingShows(q, file, 0, 1, [9]);
    assert !ShownWithout(q, file, 0, 1);
  }
}
