/** Where the files the carver knows end (client/carve.go): the walk of each structure, told from one place in the data to
    the next. Nothing is known of the checksum and of what the PDF patterns match. */
module Walkers {
  import opened Bytes

  /** The checksum and the three patterns of a PDF: its header, the offset its trailer names, and a cross-reference. */
  datatype Oracle = Oracle(crc: seq<byte> -> nat, pdfHeader: seq<byte> -> bool, startxref: seq<byte> -> Option<nat>,
                           xrefAt: seq<byte> -> bool)

  function Be16(data: seq<byte>, i: nat): nat
    requires i + 2 <= |data|
  {
    data[i] as int * 256 + data[i + 1]
  }

  function Be32(data: seq<byte>, i: nat): nat
    requires i + 4 <= |data|
  {
    Be16(data, i) * 0x1_0000 + Be16(data, i + 2)
  }

  function Be64(data: seq<byte>, i: nat): nat
    requires i + 8 <= |data|
  {
    Be32(data, i) * 0x1_0000_0000 + Be32(data, i + 4)
  }

  function Le16(data: seq<byte>, i: nat): nat
    requires i + 2 <= |data|
  {
    data[i + 1] as int * 256 + data[i]
  }

  function Le32(data: seq<byte>, i: nat): nat
    requires i + 4 <= |data|
  {
    Le16(data, i + 2) * 0x1_0000 + Le16(data, i)
  }

  predicate Has(data: seq<byte>, i: nat, pattern: seq<byte>) {
    i + |pattern| <= |data| && data[i..i + |pattern|] == pattern
  }

  /** The first place from `from` on where the pattern is. */
  function Index(data: seq<byte>, from: nat, pattern: seq<byte>): (r: Option<nat>)
    requires from <= |data|
    ensures r.Some? ==> from <= r.value && Has(data, r.value, pattern)
    ensures forall i | from <= i && (r.Some? ==> i < r.value) :: !Has(data, i, pattern)
    decreases |data| - from
  {
    if Has(data, from, pattern) then Some(from)
    else if from == |data| then None
    else Index(data, from + 1, pattern)
  }

  /** Both sequences hold the same bytes up to `n`. */
  ghost predicate SameUpTo(a: seq<byte>, b: seq<byte>, n: nat) {
    n <= |a| && n <= |b| && a[..n] == b[..n]
  }

  lemma HasSame(a: seq<byte>, b: seq<byte>, i: nat, pattern: seq<byte>, n: nat)
    requires SameUpTo(a, b, n) && i + |pattern| <= n
    ensures Has(a, i, pattern) == Has(b, i, pattern)
  {
    assert a[i..i + |pattern|] == a[..n][i..i + |pattern|] == b[i..i + |pattern|];
  }

  lemma {:induction false} IndexSame(a: seq<byte>, b: seq<byte>, from: nat, pattern: seq<byte>, n: nat)
    requires SameUpTo(a, b, n) && from <= |a| && from <= |b|
    requires Index(a, from, pattern).Some? && Index(a, from, pattern).value + |pattern| <= n
    ensures Index(b, from, pattern) == Index(a, from, pattern)
    decreases |a| - from
  {
    HasSame(a, b, from, pattern, n);
    if !Has(a, from, pattern) {
      IndexSame(a, b, from + 1, pattern, n);
    }
  }

  /** Steps lead from place to place. */
  ghost predicate Trail(step: (nat, nat) -> bool, at: seq<nat>, from: nat, to: nat) {
    && at != [] && at[0] == from && at[|at| - 1] == to
    && forall j, k | 0 <= j && k == j + 1 && k < |at| :: step(at[j], at[k])
  }

  ghost predicate Leads(step: (nat, nat) -> bool, from: nat, to: nat) {
    exists at :: Trail(step, at, from, to)
  }

  lemma LeadsHere(step: (nat, nat) -> bool, i: nat)
    ensures Leads(step, i, i)
  {
    assert Trail(step, [i], i, i);
  }

  lemma StepAhead(step: (nat, nat) -> bool, i: nat, at: seq<nat>, from: nat, to: nat)
    requires Trail(step, at, from, to) && step(i, from)
    ensures Trail(step, [i] + at, i, to)
  {
    var all := [i] + at;
    forall j, k | 0 <= j && k == j + 1 && k < |all| ensures step(all[j], all[k]) {
      assert all[k] == at[j];
      assert j > 0 ==> all[j] == at[j - 1];
    }
  }

  lemma LeadsOn(step: (nat, nat) -> bool, i: nat, from: nat, to: nat)
    requires step(i, from) && Leads(step, from, to)
    ensures Leads(step, i, to)
  {
    hide Trail;
    var at :| Trail(step, at, from, to);
    StepAhead(step, i, at, from, to);
  }

  /** A trail stays where it is, or takes a step first. */
  lemma FirstStep(step: (nat, nat) -> bool, at: seq<nat>, from: nat, to: nat)
    requires Trail(step, at, from, to)
    ensures |at| <= 1 ==> from == to
    ensures |at| > 1 ==> step(from, at[1]) && Trail(step, at[1..], at[1], to)
  {
    if |at| > 1 {
      var rest := at[1..];
      forall j, k | 0 <= j && k == j + 1 && k < |rest| ensures step(rest[j], rest[k]) {
        assert rest[j] == at[k] && rest[k] == at[k + 1];
      }
      assert step(at[0], at[1]);
    }
  }

  // JPEG

  predicate IsFrameHeader(marker: byte) {
    0xc0 <= marker <= 0xcf && marker != 0xc4 && marker != 0xc8 && marker != 0xcc
  }

  /** The length of a segment, which counts itself. */
  function SegmentLength(data: seq<byte>, at: nat): (r: Option<nat>)
    ensures r.Some? ==> 2 <= r.value && at + r.value <= |data|
  {
    if at + 2 > |data| then None
    else if Be16(data, at) < 2 || at + Be16(data, at) > |data| then None
    else Some(Be16(data, at))
  }

  /** The marker that ends entropy-coded data: a 0xff that is neither stuffing nor a restart. */
  function ScanEnd(data: seq<byte>, i: nat): (r: Option<nat>)
    requires i <= |data|
    ensures r.Some? ==> i <= r.value && r.value + 1 < |data|
    decreases |data| - i
  {
    match Index(data, i, [0xff])
    case None => None
    case Some(j) =>
      if j + 1 >= |data| then None
      else if data[j + 1] == 0 || 0xd0 <= data[j + 1] <= 0xd7 then ScanEnd(data, j + 2)
      else Some(j)
  }

  function Jpeg(data: seq<byte>, i: nat, frame: bool, scan: bool): (r: Option<nat>)
    ensures r.Some? ==> i + 2 <= r.value <= |data|
    decreases |data| - i
  {
    if i + 1 >= |data| || data[i] != 0xff then None
    else
      var marker := data[i + 1];
      if marker == 0xff then Jpeg(data, i + 1, frame, scan)
      else if marker == 0xd8 then None
      else if marker == 0x01 || 0xd0 <= marker <= 0xd7 then Jpeg(data, i + 2, frame, scan)
      else if marker == 0xd9 then if scan then Some(i + 2) else None
      else if marker == 0xda then
        if !frame then None
        else
          match SegmentLength(data, i + 2)
          case None => None
          case Some(n) =>
            match ScanEnd(data, i + 2 + n)
            case None => None
            case Some(j) => Jpeg(data, j, frame, true)
      else if !(0xc0 <= marker <= 0xfe) then None
      else
        match SegmentLength(data, i + 2)
        case None => None
        case Some(n) => Jpeg(data, i + 2 + n, frame || IsFrameHeader(marker), scan)
  }

  function JpegLength(data: seq<byte>): (r: Option<nat>)
    ensures r.Some? ==> 0 < r.value <= |data|
  {
    if |data| < 4 || data[0] != 0xff || data[1] != 0xd8 then None else Jpeg(data, 2, false, false)
  }

  /** Where the frame header and the scan are that a JPEG cannot do without. */
  lemma {:induction false} JpegFrom(data: seq<byte>, i: nat, frame: bool, scan: bool) returns (f: nat, s: nat)
    requires Jpeg(data, i, frame, scan).Some? && (scan ==> frame)
    ensures var n := Jpeg(data, i, frame, scan).value;
            && data[n - 2] == 0xff && data[n - 1] == 0xd9
            && (!scan ==> i <= s < n - 2 && data[s] == 0xff && data[s + 1] == 0xda)
            && (!frame ==> i <= f < s && data[f] == 0xff && IsFrameHeader(data[f + 1]))
    decreases |data| - i
  {
    hide ScanEnd, SegmentLength, IsFrameHeader;
    f, s := i, i;
    var marker := data[i + 1];
    if marker == 0xff {
      f, s := JpegFrom(data, i + 1, frame, scan);
    } else if marker == 0x01 || 0xd0 <= marker <= 0xd7 {
      f, s := JpegFrom(data, i + 2, frame, scan);
    } else if marker == 0xda {
      var _, _ := JpegFrom(data, ScanEnd(data, i + 2 + SegmentLength(data, i + 2).value).value, frame, true);
    } else if marker != 0xd9 {
      var f', s' := JpegFrom(data, i + 2 + SegmentLength(data, i + 2).value, frame || IsFrameHeader(marker), scan);
      f, s := if IsFrameHeader(marker) then i else f', s';
    }
  }

  /** A JPEG begins with its start marker, ends right behind an end marker, and has a frame header and then a scan between. */
  lemma JpegEnds(data: seq<byte>)
    requires JpegLength(data).Some?
    ensures var n := JpegLength(data).value;
            && data[0] == 0xff && data[1] == 0xd8 && data[n - 2] == 0xff && data[n - 1] == 0xd9
            && exists f, s | 2 <= f < s < n - 2 ::
                 && data[f] == 0xff && 0xc0 <= data[f + 1] <= 0xcf && data[f + 1] !in {0xc4, 0xc8, 0xcc}
                 && data[s] == 0xff && data[s + 1] == 0xda
  {
    hide Jpeg;
    var f, s := JpegFrom(data, 2, false, false);
  }

  lemma ByteSame(a: seq<byte>, b: seq<byte>, n: nat, i: nat)
    requires SameUpTo(a, b, n) && i < n
    ensures a[i] == b[i]
  {
    assert a[i] == a[..n][i];
  }

  lemma SameIsLong(a: seq<byte>, b: seq<byte>, n: nat)
    requires SameUpTo(a, b, n)
    ensures n <= |a| && n <= |b|
  {
  }

  lemma SegmentSame(a: seq<byte>, b: seq<byte>, at: nat, n: nat)
    requires SameUpTo(a, b, n) && SegmentLength(a, at).Some? && at + SegmentLength(a, at).value <= n
    ensures SegmentLength(b, at) == SegmentLength(a, at)
  {
    ByteSame(a, b, n, at);
    ByteSame(a, b, n, at + 1);
  }

  lemma {:induction false} ScanEndSame(a: seq<byte>, b: seq<byte>, i: nat, n: nat)
    requires SameUpTo(a, b, n) && i <= n && ScanEnd(a, i).Some? && ScanEnd(a, i).value + 2 <= n
    ensures ScanEnd(b, i) == ScanEnd(a, i)
    decreases |a| - i
  {
    hide Index, SameUpTo;
    SameIsLong(a, b, n);
    var j := Index(a, i, [0xff]).value;
    IndexSame(a, b, i, [0xff], n);
    ByteSame(a, b, n, j + 1);
    if a[j + 1] == 0 || 0xd0 <= a[j + 1] <= 0xd7 {
      ScanEndSame(a, b, j + 2, n);
    }
  }

  lemma {:induction false} JpegSame(a: seq<byte>, b: seq<byte>, i: nat, frame: bool, scan: bool)
    requires Jpeg(a, i, frame, scan).Some? && SameUpTo(a, b, Jpeg(a, i, frame, scan).value)
    ensures Jpeg(b, i, frame, scan) == Jpeg(a, i, frame, scan)
    decreases |a| - i
  {
    hide ScanEnd, SegmentLength, SameUpTo;
    var n := Jpeg(a, i, frame, scan).value;
    assert n <= |a| && n <= |b| by { SameIsLong(a, b, n); }
    ByteSame(a, b, n, i);
    ByteSame(a, b, n, i + 1);
    var marker := a[i + 1];
    if marker == 0xff {
      JpegSame(a, b, i + 1, frame, scan);
    } else if marker == 0x01 || 0xd0 <= marker <= 0xd7 {
      JpegSame(a, b, i + 2, frame, scan);
    } else if marker != 0xd9 {
      var m := SegmentLength(a, i + 2).value;
      SegmentSame(a, b, i + 2, n);
      if marker == 0xda {
        ScanEndSame(a, b, i + 2 + m, n);
        JpegSame(a, b, ScanEnd(a, i + 2 + m).value, frame, true);
      } else {
        JpegSame(a, b, i + 2 + m, frame || IsFrameHeader(marker), scan);
      }
    }
  }

  lemma SliceSame(a: seq<byte>, b: seq<byte>, n: nat, i: nat, j: nat)
    requires SameUpTo(a, b, n) && i <= j <= n
    ensures a[i..j] == b[i..j]
  {
    assert a[i..j] == a[..n][i..j];
  }

  lemma NumberSame(a: seq<byte>, b: seq<byte>, n: nat, i: nat)
    requires SameUpTo(a, b, n) && i + 4 <= n
    ensures Be32(a, i) == Be32(b, i) && Le32(a, i) == Le32(b, i) && Le16(a, i) == Le16(b, i)
  {
    ByteSame(a, b, n, i);
    ByteSame(a, b, n, i + 1);
    ByteSame(a, b, n, i + 2);
    ByteSame(a, b, n, i + 3);
  }

  // PNG

  function Png(o: Oracle, data: seq<byte>, i: nat, first: bool): (r: Option<nat>)
    ensures r.Some? ==> i + 12 <= r.value <= |data|
    decreases |data| - i
  {
    if i + 8 > |data| then None
    else
      var length, kind := Be32(data, i), data[i + 4..i + 8];
      var next := i + 12 + length;
      if next > |data| then None
      else if first && (kind != AsBytes("IHDR") || length != 13) then None
      else if o.crc(data[i + 4..i + 8 + length]) != Be32(data, i + 8 + length) then None
      else if kind == AsBytes("IEND") then Some(next)
      else Png(o, data, next, false)
  }

  function PngLength(o: Oracle, data: seq<byte>): (r: Option<nat>)
    ensures r.Some? ==> 0 < r.value <= |data|
  {
    Png(o, data, 8, true)
  }

  lemma {:induction false} PngSame(o: Oracle, a: seq<byte>, b: seq<byte>, i: nat, first: bool)
    requires Png(o, a, i, first).Some? && SameUpTo(a, b, Png(o, a, i, first).value)
    ensures Png(o, b, i, first) == Png(o, a, i, first)
    decreases |a| - i
  {
    hide Be32, AsBytes, SameUpTo;
    var n := Png(o, a, i, first).value;
    SameIsLong(a, b, n);
    NumberSame(a, b, n, i);
    var length := Be32(a, i);
    SliceSame(a, b, n, i + 4, i + 8);
    SliceSame(a, b, n, i + 4, i + 8 + length);
    NumberSame(a, b, n, i + 8 + length);
    if a[i + 4..i + 8] != AsBytes("IEND") {
      PngSame(o, a, b, i + 12 + length, false);
    }
  }

  /** A chunk of a PNG is at `i`, it has the right checksum, and it ends at `j`. */
  ghost predicate PngChunk(o: Oracle, data: seq<byte>, i: nat, j: nat) {
    && j <= |data| && i + 12 <= j && j == i + 12 + Be32(data, i)
    && o.crc(data[i + 4..j - 4]) == Be32(data, j - 4)
  }

  /** The chunk is not the end chunk. */
  ghost function PngStep(o: Oracle, data: seq<byte>): (nat, nat) -> bool {
    (i: nat, j: nat) => PngChunk(o, data, i, j) && !Has(data, i + 4, AsBytes("IEND"))
  }

  ghost predicate PngLast(o: Oracle, data: seq<byte>, from: nat, n: nat) {
    exists i: nat :: Leads(PngStep(o, data), from, i) && PngChunk(o, data, i, n) && Has(data, i + 4, AsBytes("IEND"))
  }

  lemma ChunkIs(o: Oracle, data: seq<byte>, i: nat, j: nat)
    requires i + 8 <= |data|
    ensures PngChunk(o, data, i, j) <==>
            j == i + 12 + Be32(data, i) <= |data| && o.crc(data[i + 4..i + 8 + Be32(data, i)]) == Be32(data, i + 8 + Be32(data, i))
    ensures PngStep(o, data)(i, j) <==> PngChunk(o, data, i, j) && data[i + 4..i + 8] != AsBytes("IEND")
  {
    hide Be32;
  }

  lemma HeaderHas(data: seq<byte>, i: nat)
    requires i + 8 <= |data| && data[i + 4..i + 8] == AsBytes("IHDR") && Be32(data, i) == 13
    ensures Has(data, i, [0, 0, 0, 13] + AsBytes("IHDR"))
  {
    assert data[i..i + 8] == data[i..i + 4] + data[i + 4..i + 8];
  }

  lemma {:induction false} PngFrom(o: Oracle, data: seq<byte>, i: nat, first: bool)
    requires Png(o, data, i, first).Some?
    ensures PngLast(o, data, i, Png(o, data, i, first).value)
    ensures first ==> Has(data, i, [0, 0, 0, 13] + AsBytes("IHDR"))
    decreases |data| - i
  {
    hide Leads, PngChunk, PngStep, AsBytes, Be32;
    var n, next, step := Png(o, data, i, first).value, i + 12 + Be32(data, i), PngStep(o, data);
    ChunkIs(o, data, i, next);
    if data[i + 4..i + 8] == AsBytes("IEND") {
      LeadsHere(step, i);
    } else {
      PngFrom(o, data, next, false);
      var last: nat :| Leads(step, next, last) && PngChunk(o, data, last, n) && Has(data, last + 4, AsBytes("IEND"));
      LeadsOn(step, i, next, last);
    }
    if first { HeaderHas(data, i); }
  }

  lemma IsChunk(o: Oracle, data: seq<byte>, i: nat, j: nat)
    requires PngChunk(o, data, i, j) || PngStep(o, data)(i, j)
    ensures PngChunk(o, data, i, j) && i + 8 <= |data| && j == i + 12 + Be32(data, i) <= |data|
    ensures o.crc(data[i + 4..i + 8 + Be32(data, i)]) == Be32(data, i + 8 + Be32(data, i))
    ensures Has(data, i + 4, AsBytes("IEND")) <==> data[i + 4..i + 8] == AsBytes("IEND")
    ensures PngStep(o, data)(i, j) ==> data[i + 4..i + 8] != AsBytes("IEND")
  {
    hide Be32;
  }

  lemma {:induction false} PngIs(o: Oracle, data: seq<byte>, at: seq<nat>, from: nat, last: nat, n: nat, first: bool)
    requires Trail(PngStep(o, data), at, from, last) && PngChunk(o, data, last, n) && Has(data, last + 4, AsBytes("IEND"))
    requires first ==> Has(data, from, [0, 0, 0, 13] + AsBytes("IHDR"))
    ensures Png(o, data, from, first) == Some(n)
    decreases |at|
  {
    hide Trail, PngChunk, PngStep, Has, Be32;
    if first { HeaderIs(data, from); }
    FirstStep(PngStep(o, data), at, from, last);
    IsChunk(o, data, from, if |at| > 1 then at[1] else n);
    if |at| > 1 {
      PngIs(o, data, at[1..], at[1], last, n, false);
    }
  }

  lemma HeaderIs(data: seq<byte>, i: nat)
    requires Has(data, i, [0, 0, 0, 13] + AsBytes("IHDR"))
    ensures i + 8 <= |data| && data[i + 4..i + 8] == AsBytes("IHDR") && Be32(data, i) == 13
  {
    var all := data[i..i + 8];
    assert all[..4] == [0, 0, 0, 13] && all[4..] == AsBytes("IHDR");
    assert data[i] == all[0] && data[i + 1] == all[1] && data[i + 2] == all[2] && data[i + 3] == all[3];
  }

  /** A PNG is `n` long exactly if chunks with the right checksums lead from behind its signature to an end chunk that ends at
      `n`, the first of them a header of 13 bytes and none before the last an end chunk. */
  lemma PngEnds(o: Oracle, data: seq<byte>, n: nat)
    ensures PngLength(o, data) == Some(n) <==> Has(data, 8, [0, 0, 0, 13] + AsBytes("IHDR")) && PngLast(o, data, 8, n)
  {
    hide Png, PngChunk, PngStep, Trail, Has, AsBytes;
    if PngLength(o, data) == Some(n) {
      PngFrom(o, data, 8, true);
    }
    if Has(data, 8, [0, 0, 0, 13] + AsBytes("IHDR")) && PngLast(o, data, 8, n) {
      var last: nat :| Leads(PngStep(o, data), 8, last) && PngChunk(o, data, last, n) && Has(data, last + 4, AsBytes("IEND"));
      var at :| Trail(PngStep(o, data), at, 8, last);
      PngIs(o, data, at, 8, last, n, true);
    }
  }

  // GIF

  function Power(n: nat): nat { if n == 0 then 1 else 2 * Power(n - 1) }

  /** The size of the colour table the flags announce. */
  function ColourTable(flags: byte): nat {
    if flags >= 0x80 then 3 * Power(flags % 8 + 1) else 0
  }

  /** Two colours in three bytes each for the lowest number, and twice as many for every next one. */
  lemma ColourTableIs(flags: byte)
    ensures flags < 0x80 ==> ColourTable(flags) == 0
    ensures flags >= 0x80 && flags % 8 == 0 ==> ColourTable(flags) == 6
    ensures flags >= 0x80 && flags % 8 > 0 ==> ColourTable(flags) == 2 * ColourTable(flags - 1)
  {
    assert Power(1) == 2;
    if flags >= 0x80 && flags % 8 > 0 {
      var n: nat := flags % 8;
      assert (flags - 1) % 8 == n - 1 && Power(n + 1) == 2 * Power(n);
    }
  }

  /** Past the empty sub-block that ends the ones from `at` on. */
  function SubBlocks(data: seq<byte>, at: nat): (r: Option<nat>)
    ensures r.Some? ==> at < r.value <= |data| && data[r.value - 1] == 0
    decreases |data| - at
  {
    if at >= |data| then None
    else if data[at] == 0 then Some(at + 1)
    else SubBlocks(data, at + 1 + data[at])
  }

  function Gif(data: seq<byte>, i: nat): (r: Option<nat>)
    ensures r.Some? ==> i < r.value <= |data|
    decreases |data| - i
  {
    if i >= |data| then None
    else if data[i] == 0x3b then Some(i + 1)
    else if data[i] == 0x21 then
      match SubBlocks(data, i + 2)
      case None => None
      case Some(end) => Gif(data, end)
    else if data[i] == 0x2c then
      if i + 10 > |data| then None
      else
        match SubBlocks(data, i + 11 + ColourTable(data[i + 9]))
        case None => None
        case Some(end) => Gif(data, end)
    else None
  }

  function GifLength(data: seq<byte>): (r: Option<nat>)
    ensures r.Some? ==> 0 < r.value <= |data|
  {
    if |data| < 13 then None else Gif(data, 13 + ColourTable(data[10]))
  }

  lemma {:induction false} SubBlocksSame(a: seq<byte>, b: seq<byte>, at: nat, n: nat)
    requires SubBlocks(a, at).Some? && SameUpTo(a, b, n) && SubBlocks(a, at).value <= n
    ensures SubBlocks(b, at) == SubBlocks(a, at)
    decreases |a| - at
  {
    ByteSame(a, b, n, at);
    if a[at] != 0 {
      SubBlocksSame(a, b, at + 1 + a[at], n);
    }
  }

  lemma {:induction false} GifSame(a: seq<byte>, b: seq<byte>, i: nat)
    requires Gif(a, i).Some? && SameUpTo(a, b, Gif(a, i).value)
    ensures Gif(b, i) == Gif(a, i)
    decreases |a| - i
  {
    hide SubBlocks, ColourTable;
    var n := Gif(a, i).value;
    ByteSame(a, b, n, i);
    if a[i] == 0x21 {
      SubBlocksSame(a, b, i + 2, n);
      GifSame(a, b, SubBlocks(a, i + 2).value);
    } else if a[i] == 0x2c {
      ByteSame(a, b, n, i + 9);
      var from := i + 11 + ColourTable(a[i + 9]);
      SubBlocksSame(a, b, from, n);
      GifSame(a, b, SubBlocks(a, from).value);
    }
  }

  /** An extension or an image is at `i`, and its last, empty sub-block ends at `j`. */
  ghost predicate GifBlock(data: seq<byte>, i: nat, j: nat) {
    && i + 10 <= j + 8 && j <= |data|
    && if data[i] == 0x21 then SubBlocks(data, i + 2) == Some(j)
       else data[i] == 0x2c && i + 10 <= j && SubBlocks(data, i + 11 + ColourTable(data[i + 9])) == Some(j)
  }

  ghost function GifStep(data: seq<byte>): (nat, nat) -> bool {
    (i: nat, j: nat) => GifBlock(data, i, j)
  }

  lemma {:induction false} GifFrom(data: seq<byte>, i: nat)
    requires Gif(data, i).Some?
    ensures var n := Gif(data, i).value; data[n - 1] == 0x3b && Leads(GifStep(data), i, n - 1)
    decreases |data| - i
  {
    hide SubBlocks, ColourTable, Leads;
    var last := Gif(data, i).value - 1;
    if data[i] == 0x3b {
      LeadsHere(GifStep(data), i);
    } else {
      var end := SubBlocks(data, if data[i] == 0x21 then i + 2 else i + 11 + ColourTable(data[i + 9])).value;
      GifFrom(data, end);
      LeadsOn(GifStep(data), i, end, last);
    }
  }

  lemma {:induction false} GifIs(data: seq<byte>, at: seq<nat>, from: nat, last: nat)
    requires Trail(GifStep(data), at, from, last) && last < |data| && data[last] == 0x3b
    ensures Gif(data, from) == Some(last + 1)
    decreases |at|
  {
    hide Trail, SubBlocks, ColourTable;
    FirstStep(GifStep(data), at, from, last);
    if |at| > 1 {
      GifIs(data, at[1..], at[1], last);
    }
  }

  /** A GIF is `n` long exactly if extensions and images lead from behind its colour table to a trailer, the last of its
      bytes. */
  lemma GifEnds(data: seq<byte>, n: nat)
    ensures GifLength(data) == Some(n) <==>
            13 <= |data| && 0 < n <= |data| && data[n - 1] == 0x3b && Leads(GifStep(data), 13 + ColourTable(data[10]), n - 1)
  {
    hide Gif, GifStep, Trail, ColourTable;
    if GifLength(data) == Some(n) {
      GifFrom(data, 13 + ColourTable(data[10]));
    }
    if 13 <= |data| && 0 < n <= |data| && data[n - 1] == 0x3b {
      var from, last := 13 + ColourTable(data[10]), n - 1;
      if at :| Trail(GifStep(data), at, from, last) { GifIs(data, at, from, last); }
    }
  }

  // ZIP

  const EOCD: seq<byte> := [0x50, 0x4b, 0x05, 0x06]
  const DIRECTORY_ENTRY: seq<byte> := [0x50, 0x4b, 0x01, 0x02]

  /** The record at `at` is the one of the archive that begins at the start: its directory ends right there and begins with
      an entry. */
  predicate OwnRecord(data: seq<byte>, at: nat)
    requires at + 22 <= |data|
  {
    var dirSize, dirOffset := Le32(data, at + 12), Le32(data, at + 16);
    dirOffset + dirSize == at && Has(data, dirOffset, DIRECTORY_ENTRY)
  }

  function Zip(data: seq<byte>, from: nat): (r: Option<nat>)
    requires from <= |data|
    ensures r.Some? ==> from + 22 <= r.value <= |data|
    decreases |data| - from
  {
    match Index(data, from, EOCD)
    case None => None
    case Some(at) =>
      if at + 22 > |data| then None
      else if !OwnRecord(data, at) then Zip(data, at + 1)
      else
        var end := at + 22 + Le16(data, at + 20);
        if end > |data| then None else Some(end)
  }

  function ZipLength(data: seq<byte>): (r: Option<nat>)
    ensures r.Some? ==> 0 < r.value <= |data|
  {
    Zip(data, 0)
  }

  /** The record at `at` is the first of the archive's own, and the archive ends at `n`, behind its comment. */
  ghost predicate EndsArchive(data: seq<byte>, from: nat, at: nat, n: nat) {
    && from <= at && at + 22 <= n <= |data| && n == at + 22 + Le16(data, at + 20)
    && Has(data, at, EOCD) && Le32(data, at + 16) + Le32(data, at + 12) == at
    && Has(data, Le32(data, at + 16), [0x50, 0x4b, 0x01, 0x02])
    && forall b | from <= b < at && Has(data, b, EOCD) :: !OwnRecord(data, b)
  }

  lemma {:induction false} ZipFrom(data: seq<byte>, from: nat, n: nat)
    requires from <= |data|
    ensures Zip(data, from) == Some(n) <==> exists at: nat :: EndsArchive(data, from, at, n)
    decreases |data| - from
  {
    hide Has, Index, Le16, Le32;
    var first := Index(data, from, EOCD);
    if first.Some? && first.value + 22 <= |data| && !OwnRecord(data, first.value) {
      var next := first.value + 1;
      ZipFrom(data, next, n);
      if at: nat :| EndsArchive(data, from, at, n) { assert EndsArchive(data, next, at, n); }
      if at: nat :| EndsArchive(data, next, at, n) { assert EndsArchive(data, from, at, n); }
    } else if first.Some? && first.value + 22 <= |data| {
      forall at: nat | EndsArchive(data, from, at, n) ensures at == first.value {}
      assert Zip(data, from) == Some(n) ==> EndsArchive(data, from, first.value, n);
    } else {
      forall at: nat ensures !EndsArchive(data, from, at, n) {}
    }
  }

  /** A ZIP archive is `n` long exactly if its own record, the first whose directory ends right there and begins with an
      entry, ends at `n` with its comment. */
  lemma ZipEnds(data: seq<byte>, n: nat)
    ensures ZipLength(data) == Some(n) <==> exists at: nat :: EndsArchive(data, 0, at, n)
  {
    ZipFrom(data, 0, n);
  }

  lemma OwnRecordSame(a: seq<byte>, b: seq<byte>, at: nat, n: nat)
    requires SameUpTo(a, b, n) && at + 22 <= n
    ensures OwnRecord(a, at) == OwnRecord(b, at) && Le16(a, at + 20) == Le16(b, at + 20)
  {
    hide Le32, Le16, Has;
    NumberSame(a, b, n, at + 12);
    NumberSame(a, b, n, at + 16);
    if Le32(a, at + 16) <= at {
      HasSame(a, b, Le32(a, at + 16), DIRECTORY_ENTRY, n);
    }
    LastTwoSame(a, b, n, at + 20);
  }

  lemma LastTwoSame(a: seq<byte>, b: seq<byte>, n: nat, i: nat)
    requires SameUpTo(a, b, n) && i + 2 <= n
    ensures Le16(a, i) == Le16(b, i)
  {
    ByteSame(a, b, n, i);
    ByteSame(a, b, n, i + 1);
  }

  lemma {:induction false} ZipSame(a: seq<byte>, b: seq<byte>, from: nat)
    requires from <= |a| && from <= |b| && Zip(a, from).Some? && SameUpTo(a, b, Zip(a, from).value)
    ensures Zip(b, from) == Zip(a, from)
    decreases |a| - from
  {
    hide OwnRecord, Le16;
    var n := Zip(a, from).value;
    var at := Index(a, from, EOCD).value;
    IndexSame(a, b, from, EOCD, n);
    OwnRecordSame(a, b, at, n);
    if !OwnRecord(a, at) {
      ZipSame(a, b, at + 1);
    }
  }

  /** The walk of a JPEG, a PNG, a GIF or a ZIP never depends on anything behind its own end: with other bytes there, or none,
      it comes to the same length. */
  lemma SelfDelimiting(o: Oracle, data: seq<byte>, more: seq<byte>)
    ensures JpegLength(data).Some? ==> JpegLength(data[..JpegLength(data).value] + more) == JpegLength(data)
    ensures PngLength(o, data).Some? ==> PngLength(o, data[..PngLength(o, data).value] + more) == PngLength(o, data)
    ensures GifLength(data).Some? ==> GifLength(data[..GifLength(data).value] + more) == GifLength(data)
    ensures ZipLength(data).Some? ==> ZipLength(data[..ZipLength(data).value] + more) == ZipLength(data)
  {
    hide Jpeg, Png, Gif, Zip, ColourTable, SameUpTo;
    if JpegLength(data).Some? {
      var n := JpegLength(data).value;
      CutIsSame(data, n, more);
      JpegSame(data, data[..n] + more, 2, false, false);
    }
    if PngLength(o, data).Some? {
      var n := PngLength(o, data).value;
      CutIsSame(data, n, more);
      PngSame(o, data, data[..n] + more, 8, true);
    }
    if GifLength(data).Some? {
      var n := GifLength(data).value;
      CutIsSame(data, n, more);
      GifSame(data, data[..n] + more, 13 + ColourTable(data[10]));
    }
    if ZipLength(data).Some? {
      var n := ZipLength(data).value;
      CutIsSame(data, n, more);
      ZipSame(data, data[..n] + more, 0);
    }
  }

  lemma CutIsSame(data: seq<byte>, n: nat, more: seq<byte>)
    requires n <= |data|
    ensures SameUpTo(data, data[..n] + more, n)
  {
    assert (data[..n] + more)[..n] == data[..n];
  }

  // PDF

  const EOF_MARK: seq<byte> := AsBytes("%%EOF")

  function SkipNewlines(data: seq<byte>, end: nat): (r: nat)
    requires end <= |data|
    ensures end <= r <= |data|
    decreases |data| - end
  {
    if end < |data| && (data[end] == 13 || data[end] == 10) then SkipNewlines(data, end + 1) else end
  }

  /** The trailer before the %%EOF at `at` names an offset of this file, and a cross-reference is there. */
  predicate OwnTrailer(o: Oracle, data: seq<byte>, at: nat)
    requires at <= |data|
  {
    var lookback := if at < 64 then 0 else at - 64;
    var offset := o.startxref(data[lookback..at]);
    offset.Some? && 0 < offset.value < at && o.xrefAt(data[offset.value..])
  }

  /** The end of the last %%EOF from `from` on that is this file's, or `end` if the next one is not. */
  function Pdf(o: Oracle, data: seq<byte>, end: nat, from: nat): (r: nat)
    requires end <= |data| && from <= |data|
    ensures end <= r <= |data| || 0 < r <= |data|
    ensures end > 0 ==> 0 < r
    decreases |data| - from
  {
    match Index(data, from, EOF_MARK)
    case None => end
    case Some(at) => if OwnTrailer(o, data, at) then Pdf(o, data, SkipNewlines(data, at + 5), at + 5) else end
  }

  function PdfLength(o: Oracle, data: seq<byte>): (r: Option<nat>)
    ensures r.Some? ==> 0 < r.value <= |data|
  {
    if !o.pdfHeader(data) then None
    else
      var end := Pdf(o, data, 0, 0);
      if end > 0 then Some(end) else None
  }

  /** Every mark from `from` up to `at` is this file's. */
  ghost predicate AllOwn(o: Oracle, data: seq<byte>, from: nat, at: nat) {
    forall b | from <= b <= at && Has(data, b, EOF_MARK) :: OwnTrailer(o, data, b)
  }

  /** `end` is behind the last of the marks in a row that are this file's: it comes right after one and the newlines behind
      it, all before it are this file's, and the next one, if there is one, is not. */
  ghost predicate EndsBehindOwn(o: Oracle, data: seq<byte>, from: nat, at: nat, end: nat) {
    && from <= at && Has(data, at, EOF_MARK) && AllOwn(o, data, from, at) && end == SkipNewlines(data, at + 5)
    && !OwnMark(o, data, at + 5)
  }

  /** The next mark from `from` on is there, and this file's. */
  ghost predicate OwnMark(o: Oracle, data: seq<byte>, from: nat) {
    from <= |data| && var mark := Index(data, from, EOF_MARK); mark.Some? && OwnTrailer(o, data, mark.value)
  }

  /** Two marks do not overlap. */
  lemma MarksApart(data: seq<byte>, at: nat, b: nat)
    requires Has(data, at, EOF_MARK) && Has(data, b, EOF_MARK) && at <= b < at + 5
    ensures b == at
  {
    assert data[at..at + 5][1] == 0x25 && data[at..at + 5][2] == 0x45 && data[b..b + 5][0] == 0x25 && data[b..b + 5][1] == 0x25;
    assert data[at..at + 5][3] == 0x4f && data[at..at + 5][4] == 0x46;
    assert data[b] == 0x25 && data[b + 1] == 0x25;
    assert data[at + 2] == 0x45 && data[at + 3] == 0x4f && data[at + 4] == 0x46;
  }

  lemma {:induction false} PdfFrom(o: Oracle, data: seq<byte>, end: nat, from: nat) returns (at: nat)
    requires end <= |data| && OwnMark(o, data, from)
    ensures EndsBehindOwn(o, data, from, at, Pdf(o, data, end, from))
    decreases |data| - from
  {
    hide OwnTrailer, SkipNewlines, Index, Has;
    at := Index(data, from, EOF_MARK).value;
    OneMark(o, data, from, at);
    var next, r := SkipNewlines(data, at + 5), Pdf(o, data, end, from);
    assert r == Pdf(o, data, next, at + 5);
    if OwnMark(o, data, at + 5) {
      at := PdfFrom(o, data, next, at + 5);
      assert AllOwn(o, data, from, at);
    }
  }

  lemma OneMark(o: Oracle, data: seq<byte>, from: nat, at: nat)
    requires from <= |data| && Index(data, from, EOF_MARK) == Some(at) && OwnTrailer(o, data, at)
    ensures at + 5 <= |data| && Has(data, at, EOF_MARK)
    ensures forall b | from <= b < at + 5 && Has(data, b, EOF_MARK) :: b == at
  {
    hide OwnTrailer, Index, Has;
    MarkFits(data, at);
    forall b | from <= b < at + 5 && Has(data, b, EOF_MARK) ensures b == at {
      if at <= b { MarksApart(data, at, b); }
    }
  }

  lemma MarkFits(data: seq<byte>, at: nat)
    requires Has(data, at, EOF_MARK)
    ensures at + 5 <= |data|
  {
  }

  /** A PDF is found exactly if its header is there and the first mark is its own, and it ends behind the last mark of those
      in a row that are. */
  lemma PdfEnds(o: Oracle, data: seq<byte>)
    ensures PdfLength(o, data).Some? <==> o.pdfHeader(data) && OwnMark(o, data, 0)
    ensures PdfLength(o, data).Some? ==> exists at :: EndsBehindOwn(o, data, 0, at, PdfLength(o, data).value)
  {
    hide OwnTrailer, SkipNewlines, Index, Has, EndsBehindOwn;
    if OwnMark(o, data, 0) {
      var at := PdfFrom(o, data, 0, 0);
      PdfIsLong(o, data, at, Pdf(o, data, 0, 0));
    }
  }

  lemma PdfIsLong(o: Oracle, data: seq<byte>, at: nat, end: nat)
    requires EndsBehindOwn(o, data, 0, at, end)
    ensures end > 0
  {
    hide OwnTrailer, SkipNewlines, Index;
  }

  // ISO base media

  const TOP_LEVEL: set<string> := {
    "ftyp", "moov", "mdat", "free", "skip", "wide", "meta", "moof", "mfra", "uuid", "pdin", "styp", "sidx", "ssix", "prft", "udta",
    "junk", "pnot", "emsg", "PICT"}

  predicate TopLevel(kind: seq<byte>) {
    exists name | name in TOP_LEVEL :: AsBytes(name) == kind
  }

  /** The size of the atom at `i`, if it is one the file goes on with. */
  function Atom(data: seq<byte>, i: nat): (r: Option<nat>)
    ensures r.Some? ==> 8 <= r.value && i + r.value <= |data|
  {
    if i + 8 > |data| then None
    else
      var size, kind := Be32(data, i), data[i + 4..i + 8];
      if !TopLevel(kind) || (kind == AsBytes("ftyp") && i > 0) then None
      else if size == 1 then
        if i + 16 > |data| || Be64(data, i + 8) < 16 || Be64(data, i + 8) > |data| - i then None else Some(Be64(data, i + 8))
      else if size < 8 || size > |data| - i then None
      else Some(size)
  }

  function Iso(data: seq<byte>, i: nat, mdat: bool, index: bool): (r: Option<nat>)
    requires i <= |data|
    ensures r.Some? ==> i <= r.value <= |data| && (r.value > i || (mdat && index))
    decreases |data| - i
  {
    match Atom(data, i)
    case None => if mdat && index then Some(i) else None
    case Some(size) =>
      var kind := data[i + 4..i + 8];
      Iso(data, i + size, mdat || kind == AsBytes("mdat"), index || kind == AsBytes("moov") || kind == AsBytes("meta"))
  }

  function IsoLength(data: seq<byte>): (r: Option<nat>)
    ensures r.Some? ==> 0 < r.value <= |data|
  {
    Iso(data, 0, false, false)
  }

  /** An atom is at `i`, and ends at `j`. */
  ghost function AtomStep(data: seq<byte>): (nat, nat) -> bool {
    (i: nat, j: nat) => Atom(data, i).Some? && j == i + Atom(data, i).value
  }

  /** Some atom on the trail is of the kind. */
  ghost predicate Holds(data: seq<byte>, at: seq<nat>, kind: string) {
    exists k | 0 <= k < |at| - 1 :: Has(data, at[k] + 4, AsBytes(kind))
  }

  /** Atoms lead to `n`, where there is none; among them are what the file needs and has not had. */
  ghost predicate EndsAtoms(data: seq<byte>, at: seq<nat>, from: nat, n: nat, mdat: bool, index: bool) {
    && Trail(AtomStep(data), at, from, n) && Atom(data, n) == None
    && (mdat || Holds(data, at, "mdat")) && (index || Holds(data, at, "moov") || Holds(data, at, "meta"))
  }

  lemma HoldsAhead(data: seq<byte>, i: nat, at: seq<nat>, kind: string)
    requires at != []
    ensures Holds(data, [i] + at, kind) <==> Has(data, i + 4, AsBytes(kind)) || Holds(data, at, kind)
  {
    hide Has, AsBytes;
    var all := [i] + at;
    if Has(data, i + 4, AsBytes(kind)) { assert Has(data, all[0] + 4, AsBytes(kind)); }
    if k :| 0 <= k < |at| - 1 && Has(data, at[k] + 4, AsBytes(kind)) { assert Has(data, all[k + 1] + 4, AsBytes(kind)); }
    if k :| 0 <= k < |all| - 1 && Has(data, all[k] + 4, AsBytes(kind)) { assert k == 0 || Has(data, at[k - 1] + 4, AsBytes(kind)); }
  }

  lemma KindIs(data: seq<byte>, i: nat)
    requires Atom(data, i).Some?
    ensures i + 8 <= |data|
    ensures forall kind: string | |kind| == 4 :: Has(data, i + 4, AsBytes(kind)) <==> data[i + 4..i + 8] == AsBytes(kind)
  {
    hide TopLevel;
  }

  /** One atom more in front. */
  lemma AtomAhead(data: seq<byte>, i: nat, at: seq<nat>, n: nat, mdat: bool, index: bool)
    requires Atom(data, i).Some? && at != [] && at[0] == i + Atom(data, i).value
    ensures var kind := data[i + 4..i + 8];
            EndsAtoms(data, [i] + at, i, n, mdat, index) <==>
            EndsAtoms(data, at, at[0], n, mdat || kind == AsBytes("mdat"), index || kind == AsBytes("moov") || kind == AsBytes("meta"))
  {
    hide Atom, Holds, AsBytes, Has, Trail;
    KindIs(data, i);
    HoldsAhead(data, i, at, "mdat");
    HoldsAhead(data, i, at, "moov");
    HoldsAhead(data, i, at, "meta");
    if Trail(AtomStep(data), at, at[0], n) { StepAhead(AtomStep(data), i, at, at[0], n); }
    if Trail(AtomStep(data), [i] + at, i, n) {
      FirstStep(AtomStep(data), [i] + at, i, n);
      assert ([i] + at)[1..] == at;
    }
  }

  lemma {:induction false} IsoFrom(data: seq<byte>, i: nat, mdat: bool, index: bool) returns (at: seq<nat>)
    requires i <= |data| && Iso(data, i, mdat, index).Some?
    ensures EndsAtoms(data, at, i, Iso(data, i, mdat, index).value, mdat, index)
    decreases |data| - i
  {
    hide Atom, EndsAtoms, AsBytes;
    var n := Iso(data, i, mdat, index).value;
    if Atom(data, i).Some? {
      var next, kind := i + Atom(data, i).value, data[i + 4..i + 8];
      at := IsoFrom(data, next, mdat || kind == AsBytes("mdat"), index || kind == AsBytes("moov") || kind == AsBytes("meta"));
      AtomsFrom(data, at, next, n, mdat || kind == AsBytes("mdat"), index || kind == AsBytes("moov") || kind == AsBytes("meta"));
      AtomAhead(data, i, at, n, mdat, index);
      at := [i] + at;
    } else {
      at := [i];
      NoAtoms(data, at, i, i, mdat, index);
    }
  }

  lemma AtomsFrom(data: seq<byte>, at: seq<nat>, i: nat, n: nat, mdat: bool, index: bool)
    requires EndsAtoms(data, at, i, n, mdat, index)
    ensures at != [] && at[0] == i
  {
  }

  lemma NoAtoms(data: seq<byte>, at: seq<nat>, i: nat, n: nat, mdat: bool, index: bool)
    requires Atom(data, i) == None
    ensures EndsAtoms(data, at, i, n, mdat, index) <==> at == [i] && n == i && mdat && index
  {
    hide Atom, Has;
    if EndsAtoms(data, at, i, n, mdat, index) && |at| > 1 {
      FirstStep(AtomStep(data), at, i, n);
    }
  }

  lemma {:induction false} IsoIs(data: seq<byte>, at: seq<nat>, i: nat, n: nat, mdat: bool, index: bool)
    requires i <= |data| && EndsAtoms(data, at, i, n, mdat, index)
    ensures Iso(data, i, mdat, index) == Some(n)
    decreases |at|
  {
    hide Atom, EndsAtoms, AsBytes, Trail;
    if Atom(data, i).None? {
      NoAtoms(data, at, i, n, mdat, index);
    } else {
      var next, kind := i + Atom(data, i).value, data[i + 4..i + 8];
      MoreAtoms(data, at, i, n, mdat, index);
      AtomAhead(data, i, at[1..], n, mdat, index);
      IsoIs(data, at[1..], next, n, mdat || kind == AsBytes("mdat"), index || kind == AsBytes("moov") || kind == AsBytes("meta"));
    }
  }

  lemma MoreAtoms(data: seq<byte>, at: seq<nat>, i: nat, n: nat, mdat: bool, index: bool)
    requires Atom(data, i).Some? && EndsAtoms(data, at, i, n, mdat, index)
    ensures |at| > 1 && at[1] == i + Atom(data, i).value && at == [i] + at[1..]
  {
    hide Atom, Has;
    FirstStep(AtomStep(data), at, i, n);
  }

  /** A media file is `n` long exactly if atoms lead from its start to `n`, where there is none, and one of them holds the
      media and one tells where. */
  lemma IsoEnds(data: seq<byte>, n: nat)
    ensures IsoLength(data) == Some(n) <==> exists at :: EndsAtoms(data, at, 0, n, false, false)
  {
    hide Iso, EndsAtoms;
    if IsoLength(data) == Some(n) {
      var at := IsoFrom(data, 0, false, false);
    }
    if at :| EndsAtoms(data, at, 0, n, false, false) { IsoIs(data, at, 0, n, false, false); }
  }

  // RIFF

  predicate Printable(s: seq<byte>) {
    forall i | 0 <= i < |s| :: 0x20 <= s[i] <= 0x7e
  }

  /** The chunks from `i` on come to `end`, give or take the pad byte of the last. */
  predicate ChunksFit(data: seq<byte>, i: nat, end: nat)
    requires end <= |data|
    decreases end - i
  {
    i >= end
    || (i + 8 <= end && Printable(data[i..i + 4])
        && var n := Le32(data, i + 4);
           var next := i + 8 + n + n % 2;
           next <= end + 1 && ChunksFit(data, next, end))
  }

  predicate KnownForm(form: seq<byte>) {
    form == AsBytes("AVI ") || form == AsBytes("WAVE") || form == AsBytes("WEBP") || form == AsBytes("AVIX")
  }

  /** The end of the RIFF chunk at `at`. */
  function RiffChunk(data: seq<byte>, at: nat): (r: Option<nat>)
    ensures r.Some? ==> at + 12 <= r.value <= |data|
  {
    if at + 12 > |data| then None
    else
      var size := Le32(data, at + 4);
      var end := at + 8 + size;
      if size < 4 || end > |data| || !KnownForm(data[at + 8..at + 12]) || !ChunksFit(data, at + 12, end) then None
      else Some(end)
  }

  predicate GoesOn(data: seq<byte>, end: nat) {
    Has(data, end, AsBytes("RIFF")) && Has(data, end + 8, AsBytes("AVIX"))
  }

  /** The end of the chunks that belong to an AVI that has got to `end`. */
  function Riff(data: seq<byte>, end: nat): (r: nat)
    requires end <= |data|
    ensures end <= r <= |data|
    decreases |data| - end
  {
    if !GoesOn(data, end) then end
    else
      match RiffChunk(data, end)
      case None => end
      case Some(next) => Riff(data, next)
  }

  function RiffLength(data: seq<byte>): (r: Option<nat>)
    ensures r.Some? ==> 0 < r.value <= |data|
  {
    match RiffChunk(data, 0)
    case None => None
    case Some(end) => Some(Riff(data, end))
  }

  /** The file goes on at `i` with another RIFF chunk, which ends at `j`. */
  ghost function RiffStep(data: seq<byte>): (nat, nat) -> bool {
    (i: nat, j: nat) => GoesOn(data, i) && RiffChunk(data, i) == Some(j)
  }

  lemma {:induction false} RiffFrom(data: seq<byte>, i: nat)
    requires i <= |data|
    ensures Leads(RiffStep(data), i, Riff(data, i)) && forall j :: !RiffStep(data)(Riff(data, i), j)
    decreases |data| - i
  {
    hide GoesOn, RiffChunk, Leads;
    if GoesOn(data, i) && RiffChunk(data, i).Some? {
      RiffFrom(data, RiffChunk(data, i).value);
      LeadsOn(RiffStep(data), i, RiffChunk(data, i).value, Riff(data, i));
    } else {
      LeadsHere(RiffStep(data), i);
    }
  }

  lemma {:induction false} RiffIs(data: seq<byte>, at: seq<nat>, i: nat, n: nat)
    requires i <= |data| && Trail(RiffStep(data), at, i, n) && forall j :: !RiffStep(data)(n, j)
    ensures Riff(data, i) == n
    decreases |at|
  {
    hide GoesOn, RiffChunk, Trail;
    FirstStep(RiffStep(data), at, i, n);
    if |at| > 1 {
      RiffIs(data, at[1..], at[1], n);
    } else {
      assert RiffChunk(data, i).Some? ==> !RiffStep(data)(i, RiffChunk(data, i).value);
    }
  }

  /** A RIFF is `n` long exactly if chunks that carry it on lead from the end of its first one to `n`, where none does. */
  lemma RiffEnds(data: seq<byte>, n: nat)
    ensures RiffLength(data) == Some(n) <==>
            RiffChunk(data, 0).Some? && Leads(RiffStep(data), RiffChunk(data, 0).value, n) && forall j :: !RiffStep(data)(n, j)
  {
    hide Riff, RiffStep, Trail;
    if RiffChunk(data, 0).Some? {
      var end := RiffChunk(data, 0).value;
      RiffFrom(data, end);
      if forall j :: !RiffStep(data)(n, j) {
        if at :| Trail(RiffStep(data), at, end, n) { RiffIs(data, at, end, n); }
      }
    }
  }

  lemma AtomSame(a: seq<byte>, b: seq<byte>, i: nat, n: nat)
    requires SameUpTo(a, b, n) && n == |b| && Atom(a, i).Some? && i + Atom(a, i).value <= n
    ensures Atom(b, i) == Atom(a, i) && a[i + 4..i + 8] == b[i + 4..i + 8]
  {
    hide TopLevel, AsBytes, SameUpTo, Be32;
    SameIsLong(a, b, n);
    NumberSame(a, b, n, i);
    SliceSame(a, b, n, i + 4, i + 8);
    if Be32(a, i) == 1 {
      NumberSame(a, b, n, i + 8);
      NumberSame(a, b, n, i + 12);
    }
  }

  lemma {:induction false} IsoCut(a: seq<byte>, b: seq<byte>, i: nat, mdat: bool, index: bool)
    requires i <= |a| && Iso(a, i, mdat, index) == Some(|b|) && SameUpTo(a, b, |b|)
    ensures i <= |b| && Iso(b, i, mdat, index) == Some(|b|)
    decreases |a| - i
  {
    hide Atom, AsBytes, SameUpTo;
    if Atom(a, i).Some? {
      var next, kind := i + Atom(a, i).value, a[i + 4..i + 8];
      AtomSame(a, b, i, |b|);
      IsoCut(a, b, next, mdat || kind == AsBytes("mdat"), index || kind == AsBytes("moov") || kind == AsBytes("meta"));
    } else {
      NoAtom(b, i);
    }
  }

  lemma NoAtom(data: seq<byte>, i: nat)
    requires i + 8 > |data|
    ensures Atom(data, i) == None
  {
  }

  lemma {:induction false} ChunksSame(a: seq<byte>, b: seq<byte>, i: nat, end: nat, n: nat)
    requires SameUpTo(a, b, n) && end <= n <= |a| && n <= |b|
    ensures ChunksFit(a, i, end) == ChunksFit(b, i, end)
    decreases end - i
  {
    hide Printable, Le32, SameUpTo;
    if i < end && i + 8 <= end {
      SliceSame(a, b, n, i, i + 4);
      NumberSame(a, b, n, i + 4);
      var m := Le32(a, i + 4);
      ChunksSame(a, b, i + 8 + m + m % 2, end, n);
    }
  }

  lemma RiffChunkSame(a: seq<byte>, b: seq<byte>, at: nat, n: nat)
    requires SameUpTo(a, b, n) && RiffChunk(a, at).Some? && RiffChunk(a, at).value <= n
    ensures RiffChunk(b, at) == RiffChunk(a, at)
  {
    hide KnownForm, ChunksFit, SameUpTo, Le32;
    SameIsLong(a, b, n);
    NumberSame(a, b, n, at + 4);
    SliceSame(a, b, n, at + 8, at + 12);
    ChunksSame(a, b, at + 12, RiffChunk(a, at).value, n);
  }

  lemma {:induction false} RiffCut(a: seq<byte>, b: seq<byte>, end: nat)
    requires end <= |a| && Riff(a, end) == |b| && SameUpTo(a, b, |b|)
    ensures end <= |b| && Riff(b, end) == |b|
    decreases |a| - end
  {
    hide RiffChunk, SameUpTo;
    if end < |b| {
      var next := RiffChunk(a, end).value;
      RiffChunkSame(a, b, end, |b|);
      HasSame(a, b, end, AsBytes("RIFF"), |b|);
      HasSame(a, b, end + 8, AsBytes("AVIX"), |b|);
      RiffCut(a, b, next);
    }
  }

  /** An ISO media file or a RIFF that is cut out where it ends is a whole file of just that length. */
  lemma CutOutWhole(data: seq<byte>)
    ensures IsoLength(data).Some? ==> IsoLength(data[..IsoLength(data).value]) == IsoLength(data)
    ensures RiffLength(data).Some? ==> RiffLength(data[..RiffLength(data).value]) == RiffLength(data)
  {
    hide Iso, Riff, RiffChunk;
    if IsoLength(data).Some? {
      var file := data[..IsoLength(data).value];
      IsoCut(data, file, 0, false, false);
    }
    if RiffLength(data).Some? {
      var file := data[..RiffLength(data).value];
      RiffChunkSame(data, file, 0, |file|);
      RiffCut(data, file, RiffChunk(data, 0).value);
    }
  }
}
