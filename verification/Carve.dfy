/** The carver (client/carve.go): the loops that walk the structures, and the search for files in data that says nothing
    about itself. */
module Carve {
  import opened Bytes
  import opened Walkers

  method WalkScan(data: seq<byte>, from: nat) returns (r: Option<nat>)
    requires from <= |data|
    ensures r == ScanEnd(data, from)
  {
    var i := from;
    while true
      invariant i <= |data| && ScanEnd(data, i) == ScanEnd(data, from)
      decreases |data| - i
    {
      var j := Index(data, i, [0xff]);
      if j.None? || j.value + 1 >= |data| {
        return None;
      }
      var next := data[j.value + 1];
      if next == 0 || 0xd0 <= next <= 0xd7 {
        i := j.value + 2;
      } else {
        return j;
      }
    }
  }

  method WalkJpeg(data: seq<byte>) returns (r: Option<nat>)
    ensures r == JpegLength(data)
  {
    hide ScanEnd, SegmentLength;
    if |data| < 4 || data[0] != 0xff || data[1] != 0xd8 {
      return None;
    }
    var i, frame, scan := 2, false, false;
    while true
      invariant Jpeg(data, 2, false, false) == Jpeg(data, i, frame, scan)
      decreases |data| - i
    {
      if i + 1 >= |data| || data[i] != 0xff {
        return None;
      }
      var marker := data[i + 1];
      if marker == 0xff {
        i := i + 1;
      } else if marker == 0xd8 {
        return None;
      } else if marker == 0x01 || 0xd0 <= marker <= 0xd7 {
        i := i + 2;
      } else if marker == 0xd9 {
        return if scan then Some(i + 2) else None;
      } else if marker == 0xda {
        if !frame {
          return None;
        }
        var segment := SegmentLength(data, i + 2);
        if segment.None? {
          return None;
        }
        var end := WalkScan(data, i + 2 + segment.value);
        if end.None? {
          return None;
        }
        i, scan := end.value, true;
      } else {
        if !(0xc0 <= marker <= 0xfe) {
          return None;
        }
        var segment := SegmentLength(data, i + 2);
        if segment.None? {
          return None;
        }
        i, frame := i + 2 + segment.value, frame || IsFrameHeader(marker);
      }
    }
  }

  method WalkPng(o: Oracle, data: seq<byte>) returns (r: Option<nat>)
    ensures r == PngLength(o, data)
  {
    hide Be32, AsBytes;
    var i, first := 8, true;
    while true
      invariant Png(o, data, 8, true) == Png(o, data, i, first)
      decreases |data| - i
    {
      if i + 8 > |data| {
        return None;
      }
      var length, kind := Be32(data, i), data[i + 4..i + 8];
      if i + 12 + length > |data| {
        return None;
      }
      if first && (kind != AsBytes("IHDR") || length != 13) {
        return None;
      }
      if o.crc(data[i + 4..i + 8 + length]) != Be32(data, i + 8 + length) {
        return None;
      }
      i, first := i + 12 + length, false;
      if kind == AsBytes("IEND") {
        return Some(i);
      }
    }
  }

  method WalkSubBlocks(data: seq<byte>, from: nat) returns (r: Option<nat>)
    ensures r == SubBlocks(data, from)
  {
    var at := from;
    while true
      invariant SubBlocks(data, from) == SubBlocks(data, at)
      decreases |data| - at
    {
      if at >= |data| {
        return None;
      }
      var size := data[at];
      at := at + 1;
      if size == 0 {
        return Some(at);
      }
      at := at + size;
    }
  }

  method WalkGif(data: seq<byte>) returns (r: Option<nat>)
    ensures r == GifLength(data)
  {
    hide SubBlocks, ColourTable;
    if |data| < 13 {
      return None;
    }
    var start := 13 + ColourTable(data[10]);
    var i := start;
    while true
      invariant Gif(data, start) == Gif(data, i)
      decreases |data| - i
    {
      if i >= |data| || data[i] !in {0x3b, 0x21, 0x2c} {
        return None;
      }
      if data[i] == 0x3b {
        return Some(i + 1);
      }
      var blocks := i + 2;
      if data[i] == 0x2c {
        if i + 10 > |data| {
          return None;
        }
        blocks := i + 11 + ColourTable(data[i + 9]);
      }
      var end := WalkSubBlocks(data, blocks);
      if end.None? {
        return None;
      }
      i := end.value;
    }
  }

  method WalkZip(data: seq<byte>) returns (r: Option<nat>)
    ensures r == ZipLength(data)
  {
    hide OwnRecord, Le16, Index, Has;
    var from := 0;
    while true
      invariant from <= |data| && Zip(data, 0) == Zip(data, from)
      decreases |data| - from
    {
      var at := Index(data, from, EOCD);
      if at.None? || at.value + 22 > |data| {
        return None;
      }
      from := at.value + 1;
      if OwnRecord(data, at.value) {
        var end := at.value + 22 + Le16(data, at.value + 20);
        return if end > |data| then None else Some(end);
      }
    }
  }

  method WalkNewlines(data: seq<byte>, from: nat) returns (end: nat)
    requires from <= |data|
    ensures end == SkipNewlines(data, from)
  {
    end := from;
    while end < |data| && (data[end] == 13 || data[end] == 10)
      invariant end <= |data| && SkipNewlines(data, end) == SkipNewlines(data, from)
    {
      end := end + 1;
    }
  }

  method WalkPdf(o: Oracle, data: seq<byte>) returns (r: Option<nat>)
    ensures r == PdfLength(o, data)
  {
    hide OwnTrailer, SkipNewlines, Index;
    if !o.pdfHeader(data) {
      return None;
    }
    var eof := AsBytes("%%EOF");
    var end: nat, from: nat := 0, 0;
    while true
      invariant end <= |data| && from <= |data| && Pdf(o, data, 0, 0) == Pdf(o, data, end, from)
      decreases |data| - from
    {
      var at := Index(data, from, eof);
      if at.None? || !OwnTrailer(o, data, at.value) {
        break;
      }
      from := at.value + 5;
      end := WalkNewlines(data, from);
    }
    return if end > 0 then Some(end) else None;
  }

  method WalkIso(data: seq<byte>) returns (r: Option<nat>)
    ensures r == IsoLength(data)
  {
    hide Atom, AsBytes;
    var i, mdat, index := 0, false, false;
    while true
      invariant i <= |data| && Iso(data, 0, false, false) == Iso(data, i, mdat, index)
      decreases |data| - i
    {
      var size := Atom(data, i);
      if size.None? {
        break;
      }
      var kind := data[i + 4..i + 8];
      if kind == AsBytes("mdat") {
        mdat := true;
      }
      if kind == AsBytes("moov") || kind == AsBytes("meta") {
        index := true;
      }
      i := i + size.value;
    }
    return if mdat && index then Some(i) else None;
  }

  method WalkChunks(data: seq<byte>, from: nat, end: nat) returns (fit: bool)
    requires end <= |data|
    ensures fit == ChunksFit(data, from, end)
  {
    hide Le32, Printable;
    var i := from;
    while i < end
      invariant ChunksFit(data, from, end) == ChunksFit(data, i, end)
      decreases end - i
    {
      if i + 8 > end || !Printable(data[i..i + 4]) {
        return false;
      }
      var n := Le32(data, i + 4);
      i := i + 8 + n + n % 2;
      if i > end + 1 {
        return false;
      }
    }
    return true;
  }

  method WalkRiffChunk(data: seq<byte>, at: nat) returns (r: Option<nat>)
    ensures r == RiffChunk(data, at)
  {
    hide Le32, KnownForm, ChunksFit;
    if at + 12 > |data| {
      return None;
    }
    var size := Le32(data, at + 4);
    var end := at + 8 + size;
    if size < 4 || end > |data| || !KnownForm(data[at + 8..at + 12]) {
      return None;
    }
    var fit := WalkChunks(data, at + 12, end);
    return if fit then Some(end) else None;
  }

  method WalkRiff(data: seq<byte>) returns (r: Option<nat>)
    ensures r == RiffLength(data)
  {
    hide RiffChunk, GoesOn;
    var first := WalkRiffChunk(data, 0);
    if first.None? {
      return None;
    }
    var end := first.value;
    while GoesOn(data, end)
      invariant end <= |data| && Riff(data, first.value) == Riff(data, end)
      decreases |data| - end
    {
      var next := WalkRiffChunk(data, end);
      if next.None? {
        break;
      }
      end := next.value;
    }
    return Some(end);
  }

  // The search

  datatype Format = JPG | PNG | GIF89 | GIF87 | ZIP | PDF | MP4 | AVI {
    /** How the files open, and how many bytes of them come before that. */
    function Magic(): (m: seq<byte>)
      ensures m != []
    {
      match this
      case JPG => [0xff, 0xd8, 0xff]
      case PNG => [0x89, 0x50, 0x4e, 0x47, 0x0d, 0x0a, 0x1a, 0x0a]
      case GIF89 => AsBytes("GIF89a")
      case GIF87 => AsBytes("GIF87a")
      case ZIP => [0x50, 0x4b, 0x03, 0x04]
      case PDF => AsBytes("%PDF-")
      case MP4 => AsBytes("ftyp")
      case AVI => AsBytes("RIFF")
    }

    function Lead(): nat { if MP4? then 4 else 0 }

    /** A file of the kind begins at `p`, by the look of it. */
    predicate Begins(data: seq<byte>, p: nat) {
      Has(data, p + Lead(), Magic())
    }

    /** How long the file is that begins at the start of the data. */
    function Length(o: Oracle, data: seq<byte>): (r: Option<nat>)
      ensures r.Some? ==> 0 < r.value <= |data|
    {
      match this
      case JPG => JpegLength(data)
      case PNG => PngLength(o, data)
      case GIF89 => GifLength(data)
      case GIF87 => GifLength(data)
      case ZIP => ZipLength(data)
      case PDF => PdfLength(o, data)
      case MP4 => IsoLength(data)
      case AVI => RiffLength(data)
    }

    method Walk(o: Oracle, data: seq<byte>) returns (r: Option<nat>)
      ensures r == Length(o, data)
    {
      match this
      case JPG => r := WalkJpeg(data);
      case PNG => r := WalkPng(o, data);
      case GIF89 => r := WalkGif(data);
      case GIF87 => r := WalkGif(data);
      case ZIP => r := WalkZip(data);
      case PDF => r := WalkPdf(o, data);
      case MP4 => r := WalkIso(data);
      case AVI => r := WalkRiff(data);
    }
  }

  const FORMATS: seq<Format> := [JPG, PNG, GIF89, GIF87, ZIP, PDF, MP4, AVI]

  /** The first of the formats a file of which begins at `p`. */
  function FirstOf(formats: seq<Format>, data: seq<byte>, p: nat): (r: Option<Format>)
    ensures r.Some? ==> r.value in formats && r.value.Begins(data, p)
    ensures r.None? <==> forall f | f in formats :: !f.Begins(data, p)
  {
    if formats == [] then None
    else if formats[0].Begins(data, p) then Some(formats[0])
    else FirstOf(formats[1..], data, p)
  }

  lemma {:induction false} FirstOfMore(formats: seq<Format>, f: Format, data: seq<byte>, p: nat)
    ensures FirstOf(formats + [f], data, p) ==
            if FirstOf(formats, data, p).Some? then FirstOf(formats, data, p) else if f.Begins(data, p) then Some(f) else None
  {
    hide Format.Begins;
    if formats != [] {
      FirstOfMore(formats[1..], f, data, p);
      assert (formats + [f])[1..] == formats[1..] + [f];
    } else {
      assert (formats + [f])[1..] == [];
    }
  }

  /** `at` is the first place from `from` on where a file of one of the formats begins, if there is one. */
  ghost predicate FirstStart(formats: seq<Format>, data: seq<byte>, from: nat, found: Option<Format>, at: nat) {
    && (found.Some? ==> from <= at && FirstOf(formats, data, at) == found)
    && forall p | from <= p && (found.Some? ==> p < at) :: FirstOf(formats, data, p) == None
  }

  /** Looks for the magic of one format after the other, and keeps the one that begins first. */
  method LookForEach(data: seq<byte>, from: nat) returns (found: Option<Format>, at: nat)
    ensures FirstStart(FORMATS, data, from, found, at)
    ensures found.Some? ==> at < |data|
  {
    hide Has, Index, Format.Magic, FirstOf;
    found, at := None, 0;
    NoneBegin(data);
    for i := 0 to |FORMATS|
      invariant FirstStart(FORMATS[..i], data, from, found, at)
    {
      var f := FORMATS[i];
      assert FORMATS[..i + 1] == FORMATS[..i] + [f];
      var start := StartOf(f, data, from);
      AlsoLooked(FORMATS[..i], f, data, from, found, at, start);
      if start.Some? && (found.None? || start.value < at) {
        found, at := Some(f), start.value;
      }
    }
    assert FORMATS[..|FORMATS|] == FORMATS;
    if found.Some? {
      BeginsInside(found.value, data, at);
    }
  }

  lemma NoneBegin(data: seq<byte>)
    ensures forall p :: FirstOf([], data, p) == None
  {
  }

  lemma BeginsInside(f: Format, data: seq<byte>, p: nat)
    requires f.Begins(data, p)
    ensures p < |data|
  {
  }

  /** Where a file of the format begins first, by its magic. */
  method StartOf(f: Format, data: seq<byte>, from: nat) returns (start: Option<nat>)
    ensures start.Some? ==> from <= start.value && f.Begins(data, start.value)
    ensures forall p | from <= p && (start.Some? ==> p < start.value) :: !f.Begins(data, p)
  {
    hide Has, Index;
    var search := from + f.Lead();
    if search >= |data| {
      TooLate(f, data, from);
      return None;
    }
    var offset := Index(data, search, f.Magic());
    start := if offset.None? then None else Some(offset.value - f.Lead());
  }

  lemma TooLate(f: Format, data: seq<byte>, from: nat)
    requires from + f.Lead() >= |data|
    ensures forall p | from <= p :: !f.Begins(data, p)
  {
  }

  /** What one more format makes of the first start. */
  lemma AlsoLooked(formats: seq<Format>, f: Format, data: seq<byte>, from: nat, found: Option<Format>, at: nat, start: Option<nat>)
    requires FirstStart(formats, data, from, found, at)
    requires start.Some? ==> from <= start.value && f.Begins(data, start.value)
    requires forall p | from <= p && (start.Some? ==> p < start.value) :: !f.Begins(data, p)
    ensures if start.Some? && (found.None? || start.value < at) then FirstStart(formats + [f], data, from, Some(f), start.value)
            else FirstStart(formats + [f], data, from, found, at)
  {
    hide Format.Begins, FirstOf;
    forall p: nat ensures FirstOf(formats + [f], data, p) == if FirstOf(formats, data, p).Some? then FirstOf(formats, data, p)
                                                        else if f.Begins(data, p) then Some(f) else None
    {
      FirstOfMore(formats, f, data, p);
    }
  }

  /** The format of the file that begins at `p`, by the look of it. */
  function FormatAt(data: seq<byte>, p: nat): Option<Format> {
    FirstOf(FORMATS, data, p)
  }

  /** A file found inside an object. */
  datatype Find = Find(offset: nat, length: nat, format: Format) {
    function End(): nat { offset + length }
  }

  /** What there is to be found from `at` on, looked for at every byte. */
  function Finds(o: Oracle, data: seq<byte>, at: nat): seq<Find>
    decreases |data| - at
  {
    if at >= |data| then []
    else
      match FormatAt(data, at)
      case None => Finds(o, data, at + 1)
      case Some(f) =>
        match f.Length(o, data[at..])
        case None => Finds(o, data, at + 1)
        case Some(n) => [Find(at, n, f)] + Finds(o, data, at + n)
  }

  lemma {:induction false} NothingBetween(o: Oracle, data: seq<byte>, at: nat, next: nat)
    requires at <= next && forall p | at <= p < next :: FormatAt(data, p) == None
    ensures Finds(o, data, at) == Finds(o, data, next)
    decreases next - at
  {
    hide FormatAt, Format.Length;
    if at < next {
      NothingBetween(o, data, at + 1, next);
    }
  }

  function Taken(finds: seq<Find>): nat {
    if finds == [] then 0 else Taken(finds[..|finds| - 1]) + finds[|finds| - 1].length
  }

  /** Files one after the other, none of them empty, all of them between `from` and `end`. */
  ghost predicate InOrder(finds: seq<Find>, from: nat, end: nat) {
    && (forall f | f in finds :: from <= f.offset && 0 < f.length && f.End() <= end)
    && forall i, j | 0 <= i < j < |finds| :: finds[i].End() <= finds[j].offset
  }

  lemma OneAhead(f: Find, finds: seq<Find>, from: nat, end: nat)
    requires InOrder(finds, f.End(), end) && from <= f.offset && 0 < f.length && f.End() <= end
    ensures InOrder([f] + finds, from, end)
  {
    var all := [f] + finds;
    forall i, j | 0 <= i < j < |all| ensures all[i].End() <= all[j].offset {
      assert all[j] in finds;
      if i > 0 { assert finds[i - 1].End() <= finds[j - 1].offset; }
    }
  }

  lemma Nothing(from: nat, end: nat)
    ensures InOrder([], from, end)
  {
  }

  lemma FromEarlier(finds: seq<Find>, from: nat, earlier: nat, end: nat)
    requires InOrder(finds, from, end) && earlier <= from
    ensures InOrder(finds, earlier, end)
  {
  }

  lemma {:induction false} FindsInOrder(o: Oracle, data: seq<byte>, at: nat)
    ensures InOrder(Finds(o, data, at), at, |data|)
    decreases |data| - at
  {
    hide FormatAt, Format.Length, InOrder;
    if at >= |data| {
      Nothing(at, |data|);
    } else {
      var f := FormatAt(data, at);
      if f.Some? && f.value.Length(o, data[at..]).Some? {
        var n := f.value.Length(o, data[at..]).value;
        FindsInOrder(o, data, at + n);
        OneAhead(Find(at, n, f.value), Finds(o, data, at + n), at, |data|);
      } else {
        FindsInOrder(o, data, at + 1);
        FromEarlier(Finds(o, data, at + 1), at + 1, at, |data|);
      }
    }
  }

  /** A whole file begins at `p`. */
  ghost predicate WholeAt(o: Oracle, data: seq<byte>, p: nat) {
    p <= |data| && var f := FormatAt(data, p); f.Some? && f.value.Length(o, data[p..]).Some?
  }

  /** The finds lie one after the other, each is a whole file as long as its structure says, and no whole file begins outside
      of them. */
  ghost predicate Carves(o: Oracle, data: seq<byte>, at: nat, finds: seq<Find>) {
    && InOrder(finds, at, |data|)
    && (forall f | f in finds :: f.offset <= |data| && FormatAt(data, f.offset) == Some(f.format)
                                 && f.format.Length(o, data[f.offset..]) == Some(f.length))
    && (forall p | at <= p < |data| && WholeAt(o, data, p) :: exists f :: f in finds && f.offset <= p < f.End())
  }

  lemma {:induction false} FindsCarve(o: Oracle, data: seq<byte>, at: nat)
    ensures Carves(o, data, at, Finds(o, data, at))
    decreases |data| - at
  {
    hide FormatAt, Format.Length, InOrder;
    FindsInOrder(o, data, at);
    if at < |data| && WholeAt(o, data, at) {
      var f := FormatAt(data, at).value;
      var n := f.Length(o, data[at..]).value;
      var rest, finds := Finds(o, data, at + n), Finds(o, data, at);
      FindsCarve(o, data, at + n);
      assert finds[0] == Find(at, n, f) && forall g | g in rest :: g in finds;
    } else if at < |data| {
      FindsCarve(o, data, at + 1);
    }
  }

  /** There is only one way to carve the data. */
  lemma {:induction false} OnlyCarving(o: Oracle, data: seq<byte>, at: nat, finds: seq<Find>)
    requires Carves(o, data, at, finds)
    ensures finds == Finds(o, data, at)
    decreases |data| - at
  {
    hide FormatAt, Format.Length, Carves;
    if at >= |data| {
      NoneCarved(o, data, at, finds);
    } else if WholeAt(o, data, at) {
      FirstCarved(o, data, at, finds);
      OnlyCarving(o, data, finds[0].End(), finds[1..]);
    } else {
      NotHere(o, data, at, finds);
      OnlyCarving(o, data, at + 1, finds);
    }
  }

  lemma FirstIs(finds: seq<Find>, from: nat, end: nat)
    requires InOrder(finds, from, end) && finds != []
    ensures from <= finds[0].offset && 0 < finds[0].length && finds[0].End() <= end
  {
    assert finds[0] in finds;
  }

  lemma NoneCarved(o: Oracle, data: seq<byte>, at: nat, finds: seq<Find>)
    requires Carves(o, data, at, finds) && at >= |data|
    ensures finds == []
  {
    hide FormatAt, Format.Length, WholeAt;
    if finds != [] { FirstIs(finds, at, |data|); assert false; }
  }

  lemma RestInOrder(finds: seq<Find>, from: nat, end: nat)
    requires InOrder(finds, from, end) && finds != []
    ensures InOrder(finds[1..], finds[0].End(), end)
    ensures forall f | f in finds :: f == finds[0] || f in finds[1..]
  {
    var rest := finds[1..];
    assert finds == [finds[0]] + rest;
    forall f | f in rest ensures finds[0].End() <= f.offset && 0 < f.length && f.End() <= end {
      var j :| 0 <= j < |rest| && rest[j] == f;
      assert finds[j + 1] == f && f in finds;
    }
    forall i, j | 0 <= i < j < |rest| ensures rest[i].End() <= rest[j].offset {
      assert finds[i + 1].End() <= finds[j + 1].offset;
    }
  }

  lemma FirstCovers(finds: seq<Find>, at: nat, end: nat, f: Find)
    requires InOrder(finds, at, end) && f in finds && f.offset <= at
    ensures finds != [] && f == finds[0] && f.offset == at
  {
    var i :| 0 <= i < |finds| && finds[i] == f;
    FirstIs(finds, at, end);
    assert i > 0 ==> finds[0].End() <= finds[i].offset;
  }

  lemma FirstCarved(o: Oracle, data: seq<byte>, at: nat, finds: seq<Find>)
    requires Carves(o, data, at, finds) && at < |data| && WholeAt(o, data, at)
    ensures finds != [] && finds == [finds[0]] + finds[1..] && finds[0].offset == at && 0 < finds[0].length
    ensures FormatAt(data, at) == Some(finds[0].format) && finds[0].format.Length(o, data[at..]) == Some(finds[0].length)
    ensures Carves(o, data, finds[0].End(), finds[1..])
  {
    hide FormatAt, Format.Length, WholeAt, InOrder;
    var f :| f in finds && f.offset <= at < f.End();
    FirstCovers(finds, at, |data|, f);
    RestInOrder(finds, at, |data|);
    var rest := finds[1..];
    forall p | f.End() <= p < |data| && WholeAt(o, data, p) ensures exists g :: g in rest && g.offset <= p < g.End() {
      var g :| g in finds && g.offset <= p < g.End();
      assert g in rest;
    }
  }

  lemma NotHere(o: Oracle, data: seq<byte>, at: nat, finds: seq<Find>)
    requires Carves(o, data, at, finds) && at < |data| && !WholeAt(o, data, at)
    ensures Carves(o, data, at + 1, finds)
  {
    hide FormatAt, Format.Length;
    assert forall f | f in finds :: f.offset != at;
  }

  lemma {:induction false} NoMoreThanThereIs(finds: seq<Find>, end: nat)
    requires InOrder(finds, 0, end)
    ensures Taken(finds) <= if finds == [] then 0 else finds[|finds| - 1].End()
    ensures Taken(finds) <= end
  {
    if finds != [] {
      var n := |finds| - 1;
      assert forall f | f in finds[..n] :: f in finds;
      NoMoreThanThereIs(finds[..n], end);
      assert finds[n] in finds;
    }
  }

  /** The next place from `from` on where some format is recognised, and which. Of several there it is the earliest in the
      list. */
  method NextMagic(data: seq<byte>, from: nat) returns (found: Option<Format>, at: nat)
    ensures found.Some? ==> from <= at < |data| && FormatAt(data, at) == found
    ensures forall p | from <= p && (found.Some? ==> p < at) :: FormatAt(data, p) == None
  {
    found, at := LookForEach(data, from);
  }

  /** Jumps from one magic to the next. */
  method Search(o: Oracle, data: seq<byte>) returns (finds: seq<Find>)
    ensures finds == Finds(o, data, 0)
  {
    hide FormatAt, Format.Length;
    finds := [];
    var at := 0;
    while at < |data|
      invariant finds + Finds(o, data, at) == Finds(o, data, 0)
      decreases |data| - at
    {
      var f, start := NextMagic(data, at);
      if f.None? {
        NothingBetween(o, data, at, |data|);
        break;
      }
      NothingBetween(o, data, at, start);
      var length := f.value.Walk(o, data[start..]);
      if length.None? {
        at := start + 1;
        continue;
      }
      finds := finds + [Find(start, length.value, f.value)];
      at := start + length.value;
    }
    assert finds + [] == finds;
  }

  method CountTaken(finds: seq<Find>) returns (taken: nat)
    ensures taken == Taken(finds)
  {
    taken := 0;
    for i := 0 to |finds|
      invariant taken == Taken(finds[..i])
    {
      assert finds[..i + 1][..i] == finds[..i];
      taken := taken + finds[i].length;
    }
    assert finds[..|finds|] == finds;
  }

  /** Carves the data: the finds are exactly those of a search that looks at every byte, and the rest is counted. */
  method CarveData(o: Oracle, data: seq<byte>) returns (finds: seq<Find>, leftover: nat)
    ensures finds == Finds(o, data, 0) && InOrder(finds, 0, |data|) && Carves(o, data, 0, finds)
    ensures Taken(finds) + leftover == |data|
  {
    hide Finds, InOrder, Carves;
    finds := Search(o, data);
    FindsInOrder(o, data, 0);
    FindsCarve(o, data, 0);
    NoMoreThanThereIs(finds, |data|);
    var taken := CountTaken(finds);
    leftover := |data| - taken;
  }
}
