/** The tag an object carries about its own contents (client/objecttag.go): its layout, and reading it back. */
module ObjectTag {
  import opened Bytes
  import opened Varint

  const TAG_BINARY: byte := 2
  const TAG_COMPRESSED: byte := 1
  const MAX_TAG_PLAIN: nat := 0x10_0000
  const MAX_TAG_PIECES: nat := 0x1_0000
  const MAX_TAG_PATH: nat := 0x1000

  type Name = seq<byte>

  /** What a tag says of a stretch of an object: which file it is of, and which part of that file. */
  datatype Piece = Piece(share: Name, path: Name, offset: uint64, at: uint64, length: uint64, size: uint64) {
    function End(): uint64 { (at + length) % TWO_64 }
  }

  datatype Tag = Tag(pieces: seq<Piece>, omitted: nat)

  /** The checksum and the compression, of which nothing is known but that what was deflated inflates again. */
  datatype Codec = Codec(crc: seq<byte> -> nat, deflate: seq<byte> -> seq<byte>, inflate: seq<byte> -> Option<seq<byte>>)

  ghost predicate Lossless(c: Codec) {
    && (forall s :: c.inflate(c.deflate(s)) == Some(s))
    && (forall s :: c.crc(s) < 0x1_0000_0000)
  }

  // Strings

  function PutString(s: Name): seq<byte> {
    PutUvarint(|s|) + s
  }

  function GetString(s: seq<byte>): Option<Read<Name>> {
    match GetUvarint(s)
    case None => None
    case Some(n) =>
      if n.value > MAX_TAG_PATH || n.value > |n.rest| then None
      else Some(Read(n.rest[..n.value], n.rest[n.value..]))
  }

  lemma StringRoundTrip(s: Name, rest: seq<byte>)
    ensures GetString(PutString(s) + rest) == if |s| <= MAX_TAG_PATH then Some(Read(s, rest)) else None
  {
    assert PutString(s) + rest == PutUvarint(|s|) + (s + rest);
    UvarintRoundTrip(|s|, s + rest);
    assert (s + rest)[..|s|] == s && (s + rest)[|s|..] == rest;
  }

  function PutAll(names: seq<Name>): seq<byte> {
    if names == [] then [] else PutString(names[0]) + PutAll(names[1..])
  }

  function GetAll(s: seq<byte>, n: nat): (r: Option<Read<seq<Name>>>)
    ensures r.Some? ==> |r.value.value| == n
    decreases n
  {
    if n == 0 then Some(Read([], s))
    else
      match GetString(s)
      case None => None
      case Some(first) =>
        match GetAll(first.rest, n - 1)
        case None => None
        case Some(more) => Some(Read([first.value] + more.value, more.rest))
  }

  ghost predicate ShortNames(names: seq<Name>) {
    forall i | 0 <= i < |names| :: |names[i]| <= MAX_TAG_PATH
  }

  lemma {:induction false} AllRoundTrip(names: seq<Name>, rest: seq<byte>)
    ensures GetAll(PutAll(names) + rest, |names|) == if ShortNames(names) then Some(Read(names, rest)) else None
    decreases |names|
  {
    hide GetString, PutString;
    if names == [] {
      assert PutAll(names) + rest == rest;
    } else {
      var after := PutAll(names[1..]) + rest;
      assert PutAll(names) + rest == PutString(names[0]) + after;
      StringRoundTrip(names[0], after);
      AllRoundTrip(names[1..], rest);
      assert ShortNames(names) <==> |names[0]| <= MAX_TAG_PATH && ShortNames(names[1..]);
      assert [names[0]] + names[1..] == names;
    }
  }

  function GetStrings(s: seq<byte>): Option<Read<seq<Name>>> {
    match GetUvarint(s)
    case None => None
    case Some(n) => if n.value > MAX_TAG_PIECES then None else GetAll(n.rest, n.value)
  }

  // The shares, each named once

  /** The shares of the pieces, in the order in which they first come up. */
  function Shares(pieces: seq<Piece>): (shares: seq<Name>)
    ensures |shares| <= |pieces|
    ensures forall p | p in pieces :: p.share in shares
    ensures forall s | s in shares :: exists p | p in pieces :: p.share == s
    ensures forall i, j | 0 <= i < j < |shares| :: shares[i] != shares[j]
  {
    if pieces == [] then []
    else
      var n := |pieces| - 1;
      var before := Shares(pieces[..n]);
      assert forall p | p in pieces :: p in pieces[..n] || p == pieces[n];
      assert forall p | p in pieces[..n] :: p in pieces;
      if pieces[n].share in before then before else before + [pieces[n].share]
  }

  function IndexOf(names: seq<Name>, s: Name): (i: nat)
    requires s in names
    ensures i < |names| && names[i] == s && forall j | 0 <= j < i :: names[j] != s
  {
    if names[0] == s then 0 else 1 + IndexOf(names[1..], s)
  }

  // The pieces

  /** The layout of a piece that follows one ending at `end`. */
  function PutPiece(p: Piece, shares: seq<Name>, end: uint64): seq<byte>
    requires p.share in shares
  {
    PutUvarint(IndexOf(shares, p.share)) + (PutString(p.path) + (PutUvarint(p.offset) +
    (PutVarint(ToInt64(ToInt64(p.at) - ToInt64(end))) + (PutUvarint(p.length) + PutUvarint(p.size)))))
  }

  function PutPieces(pieces: seq<Piece>, shares: seq<Name>, end: uint64): seq<byte>
    requires forall p | p in pieces :: p.share in shares
  {
    if pieces == [] then []
    else PutPiece(pieces[0], shares, end) + PutPieces(pieces[1..], shares, pieces[0].End())
  }

  /** The numbers of a piece, which come after its share and its path. */
  datatype Numbers = Numbers(offset: uint64, distance: int, length: uint64, size: uint64)

  function GetNumbers(s: seq<byte>): Option<Read<Numbers>> {
    match GetUvarint(s)
    case None => None
    case Some(offset) =>
      match GetVarint(offset.rest)
      case None => None
      case Some(distance) =>
        match GetUvarint(distance.rest)
        case None => None
        case Some(length) =>
          match GetUvarint(length.rest)
          case None => None
          case Some(size) => Some(Read(Numbers(offset.value, distance.value, length.value, size.value), size.rest))
  }

  lemma NumbersRoundTrip(n: Numbers, rest: seq<byte>)
    requires -TWO_63 <= n.distance < TWO_63
    ensures GetNumbers(PutUvarint(n.offset) + (PutVarint(n.distance) + (PutUvarint(n.length) + (PutUvarint(n.size) + rest)))) ==
            Some(Read(n, rest))
  {
    hide GetUvarint, PutUvarint, GetVarint, PutVarint;
    UvarintRoundTrip(n.offset, PutVarint(n.distance) + (PutUvarint(n.length) + (PutUvarint(n.size) + rest)));
    VarintRoundTrip(n.distance, PutUvarint(n.length) + (PutUvarint(n.size) + rest));
    UvarintRoundTrip(n.length, PutUvarint(n.size) + rest);
    UvarintRoundTrip(n.size, rest);
  }

  function GetPiece(s: seq<byte>, shares: seq<Name>, end: uint64): Option<Read<Piece>> {
    match GetUvarint(s)
    case None => None
    case Some(share) =>
      if share.value >= |shares| then None
      else
        match GetString(share.rest)
        case None => None
        case Some(path) =>
          match GetNumbers(path.rest)
          case None => None
          case Some(n) =>
            var at := ToInt64(ToInt64(end) + n.value.distance);
            if at < 0 then None
            else Some(Read(Piece(shares[share.value], path.value, n.value.offset, at, n.value.length, n.value.size), n.rest))
  }

  /** A piece a reader takes: its path is short enough, and its start is no negative number when taken as signed. */
  predicate Takes(p: Piece) {
    |p.path| <= MAX_TAG_PATH && p.at < TWO_63
  }

  lemma PieceRoundTrip(p: Piece, shares: seq<Name>, end: uint64, rest: seq<byte>)
    requires p.share in shares && |shares| <= MAX_TAG_PIECES
    ensures GetPiece(PutPiece(p, shares, end) + rest, shares, end) == if Takes(p) then Some(Read(p, rest)) else None
  {
    hide GetUvarint, PutUvarint, GetVarint, PutVarint, GetString, PutString, GetNumbers;
    var n := Numbers(p.offset, ToInt64(ToInt64(p.at) - ToInt64(end)), p.length, p.size);
    var afterPath := PutUvarint(n.offset) + (PutVarint(n.distance) + (PutUvarint(n.length) + (PutUvarint(n.size) + rest)));
    var afterShare := PutString(p.path) + afterPath;
    assert PutPiece(p, shares, end) + rest == PutUvarint(IndexOf(shares, p.share)) + afterShare;
    UvarintRoundTrip(IndexOf(shares, p.share), afterShare);
    StringRoundTrip(p.path, afterPath);
    NumbersRoundTrip(n, rest);
    DistanceRoundTrip(p.at, end);
    assert ToInt64(p.at) == if p.at < TWO_63 then p.at else p.at - TWO_64;
  }

  function GetPieces(s: seq<byte>, n: nat, shares: seq<Name>, end: uint64): Option<Read<seq<Piece>>>
    decreases n
  {
    if n == 0 then Some(Read([], s))
    else
      match GetPiece(s, shares, end)
      case None => None
      case Some(first) =>
        match GetPieces(first.rest, n - 1, shares, first.value.End())
        case None => None
        case Some(more) => Some(Read([first.value] + more.value, more.rest))
  }

  ghost predicate TakesAll(pieces: seq<Piece>) {
    forall i | 0 <= i < |pieces| :: Takes(pieces[i])
  }

  lemma PutNext(pieces: seq<Piece>, shares: seq<Name>, end: uint64, rest: seq<byte>)
    requires (forall p | p in pieces :: p.share in shares) && pieces != []
    ensures PutPieces(pieces, shares, end) + rest ==
            PutPiece(pieces[0], shares, end) + (PutPieces(pieces[1..], shares, pieces[0].End()) + rest)
  {
    hide PutPiece, Piece.End;
  }

  lemma GetNext(s: seq<byte>, n: nat, shares: seq<Name>, end: uint64)
    requires n > 0
    ensures GetPieces(s, n, shares, end) ==
            match GetPiece(s, shares, end)
            case None => None
            case Some(first) =>
              (match GetPieces(first.rest, n - 1, shares, first.value.End())
               case None => None
               case Some(more) => Some(Read([first.value] + more.value, more.rest)))
  {
    hide GetPiece, Piece.End;
  }

  lemma TakesNext(pieces: seq<Piece>)
    requires pieces != []
    ensures TakesAll(pieces) <==> Takes(pieces[0]) && TakesAll(pieces[1..])
  {
    hide Takes;
  }

  lemma {:induction false} PiecesRoundTrip(pieces: seq<Piece>, shares: seq<Name>, end: uint64, rest: seq<byte>)
    requires (forall p | p in pieces :: p.share in shares) && |shares| <= MAX_TAG_PIECES
    ensures GetPieces(PutPieces(pieces, shares, end) + rest, |pieces|, shares, end) ==
            if TakesAll(pieces) then Some(Read(pieces, rest)) else None
    decreases |pieces|, 1
  {
    if pieces == [] {
      assert PutPieces(pieces, shares, end) + rest == rest;
    } else {
      MorePieces(pieces, shares, end, rest);
    }
  }

  lemma {:induction false} MorePieces(pieces: seq<Piece>, shares: seq<Name>, end: uint64, rest: seq<byte>)
    requires (forall p | p in pieces :: p.share in shares) && |shares| <= MAX_TAG_PIECES && pieces != []
    ensures GetPieces(PutPieces(pieces, shares, end) + rest, |pieces|, shares, end) ==
            if TakesAll(pieces) then Some(Read(pieces, rest)) else None
    decreases |pieces|, 0
  {
    hide GetPiece, PutPiece, GetPieces, PutPieces, Takes, TakesAll, Piece.End;
    var next := pieces[0].End();
    var after := PutPieces(pieces[1..], shares, next) + rest;
    PutNext(pieces, shares, end, rest);
    GetNext(PutPiece(pieces[0], shares, end) + after, |pieces|, shares, end);
    PieceRoundTrip(pieces[0], shares, end, after);
    PiecesRoundTrip(pieces[1..], shares, next, rest);
    TakesNext(pieces);
    assert [pieces[0]] + pieces[1..] == pieces;
  }

  // The whole

  function PutPayload(pieces: seq<Piece>, n: nat): seq<byte>
    requires n <= |pieces|
  {
    var shares := Shares(pieces[..n]);
    PutUvarint(|pieces| - n) + (PutUvarint(|shares|) + (PutAll(shares) + (PutUvarint(n) + PutPieces(pieces[..n], shares, 0))))
  }

  function GetPayload(s: seq<byte>): Option<Tag> {
    match GetUvarint(s)
    case None => None
    case Some(omitted) =>
      if omitted.value > MAX_TAG_PLAIN then None
      else
        match GetStrings(omitted.rest)
        case None => None
        case Some(shares) =>
          match GetUvarint(shares.rest)
          case None => None
          case Some(n) =>
            if n.value == 0 || n.value > MAX_TAG_PIECES then None
            else
              match GetPieces(n.rest, n.value, shares.value, 0)
              case None => None
              case Some(pieces) => if pieces.rest != [] then None else Some(Tag(pieces.value, omitted.value))
  }

  /** What the reader's bounds leave of a tag: how many pieces, how many left out, how long the names, how far in. */
  ghost predicate WithinBounds(pieces: seq<Piece>, n: nat)
    requires n <= |pieces|
  {
    && 1 <= n <= MAX_TAG_PIECES && |pieces| - n <= MAX_TAG_PLAIN
    && forall i | 0 <= i < n :: Takes(pieces[i]) && |pieces[i].share| <= MAX_TAG_PATH
  }

  lemma ShortShares(pieces: seq<Piece>)
    ensures ShortNames(Shares(pieces)) <==> forall i | 0 <= i < |pieces| :: |pieces[i].share| <= MAX_TAG_PATH
  {
    var shares := Shares(pieces);
    if ShortNames(shares) {
      forall i | 0 <= i < |pieces| ensures |pieces[i].share| <= MAX_TAG_PATH {
        assert pieces[i] in pieces && pieces[i].share in shares;
      }
    } else {
      var j :| 0 <= j < |shares| && |shares[j]| > MAX_TAG_PATH;
      assert shares[j] in shares;
      var p :| p in pieces && p.share == shares[j];
    }
  }

  lemma BoundsAre(pieces: seq<Piece>, n: nat)
    requires n <= |pieces|
    ensures WithinBounds(pieces, n) <==>
            && 1 <= n <= MAX_TAG_PIECES && |pieces| - n <= MAX_TAG_PLAIN
            && ShortNames(Shares(pieces[..n])) && TakesAll(pieces[..n])
  {
    hide Takes, ShortNames, Shares;
    var named := pieces[..n];
    ShortShares(named);
    assert forall i | 0 <= i < n :: named[i] == pieces[i];
    assert TakesAll(named) <==> forall i | 0 <= i < n :: Takes(named[i]);
  }

  lemma PayloadRoundTrip(pieces: seq<Piece>, n: nat)
    requires n <= |pieces|
    ensures GetPayload(PutPayload(pieces, n)) == if WithinBounds(pieces, n) then Some(Tag(pieces[..n], |pieces| - n)) else None
  {
    hide GetUvarint, PutUvarint, GetAll, PutAll, GetPieces, PutPieces, WithinBounds, ShortNames, TakesAll, Shares;
    BoundsAre(pieces, n);
    var shares := Shares(pieces[..n]);
    var afterN := PutPieces(pieces[..n], shares, 0);
    var afterShares := PutUvarint(n) + afterN;
    var afterCount := PutAll(shares) + afterShares;
    UvarintRoundTrip(|pieces| - n, PutUvarint(|shares|) + afterCount);
    UvarintRoundTrip(|shares|, afterCount);
    AllRoundTrip(shares, afterShares);
    UvarintRoundTrip(n, afterN);
    if |shares| <= MAX_TAG_PIECES {
      assert afterN == afterN + [];
      PiecesRoundTrip(pieces[..n], shares, 0, []);
    }
  }

  function Put32(x: nat): seq<byte>
    requires x < 0x1_0000_0000
  {
    var high := x / 256;
    var higher := high / 256;
    [higher / 256, higher % 256, high % 256, x % 256]
  }

  function Get32(s: seq<byte>): nat
    requires |s| == 4
  {
    s[0] as int * 0x100_0000 + s[1] as int * 0x1_0000 + s[2] as int * 256 + s[3]
  }

  lemma Number32RoundTrip(x: nat)
    requires x < 0x1_0000_0000
    ensures |Put32(x)| == 4 && Get32(Put32(x)) == x
  {
  }

  /** The first `n` pieces written out, with four bytes to check them by. */
  ghost function Body(c: Codec, pieces: seq<Piece>, n: nat): seq<byte>
    requires Lossless(c) && n <= |pieces|
  {
    var payload := PutPayload(pieces, n);
    payload + Put32(c.crc(payload))
  }

  function GetBody(c: Codec, body: seq<byte>): Option<Tag> {
    if |body| < 4 then None
    else
      var payload := body[..|body| - 4];
      if c.crc(payload) != Get32(body[|body| - 4..]) then None else GetPayload(payload)
  }

  /** What is stored: the body as it is, or compressed if that saves anything. */
  ghost function Pack(c: Codec, pieces: seq<Piece>, n: nat): seq<byte>
    requires Lossless(c) && n <= |pieces|
  {
    var body := Body(c, pieces, n);
    if Zips(c, body) then [TAG_BINARY, TAG_COMPRESSED] + c.deflate(body) else [TAG_BINARY, 0] + body
  }

  /** What is stored is no longer than either form. */
  lemma PackIsSmaller(c: Codec, pieces: seq<Piece>, n: nat)
    requires Lossless(c) && n <= |pieces|
    ensures var body := Body(c, pieces, n);
            && |Pack(c, pieces, n)| <= 2 + |body| && |Pack(c, pieces, n)| <= 2 + |c.deflate(body)|
            && (|Pack(c, pieces, n)| == 2 + |body| || |Pack(c, pieces, n)| == 2 + |c.deflate(body)|)
  {
    hide Body;
  }

  /** The layout of a piece: the place of its share, its path, offset, distance from where the last one ended, length and
      size. */
  lemma PieceLayout(share: byte, path: byte)
    ensures PutPiece(Piece([share], [path], 300, 7, 5, 9), [[share]], 10) == [0, 1, path, 172, 2, 5, 5, 9]
  {
    hide IndexOf;
    assert PutUvarint(300) == [172] + PutUvarint(2);
    assert ToInt64(ToInt64(7) - ToInt64(10)) == -3 && PutVarint(-3) == [5];
    assert IndexOf([[share]], [share]) == 0;
  }

  /** The layout of a tag: how many pieces are left out, the shares, how many pieces follow, and those. */
  lemma TagLayout(share: byte, p: Piece)
    requires p.share == [share]
    ensures PutPayload([p, p, p], 1) == [2, 1, 1, share, 1] + PutPiece(p, [[share]], 0)
    ensures Put32(0x01020304) == [1, 2, 3, 4]
  {
    hide PutPiece;
    var shares: seq<Name> := [[share]];
    assert [p, p, p][..1] == [p];
    assert Shares([p]) == shares by { assert [p][..0] == []; }
    assert shares[1..] == [] && PutAll(shares) == [1, share];
    assert [p][1..] == [] && PutPieces([p], shares, 0) == PutPiece(p, shares, 0);
  }

  /** Each piece is told from where the one before it ends. */
  lemma NextFromEnd(p: Piece, q: Piece, shares: seq<Name>, end: uint64)
    requires p.share in shares && q.share in shares
    ensures PutPieces([p, q], shares, end) == PutPiece(p, shares, end) + PutPiece(q, shares, (p.at + p.length) % TWO_64)
  {
    hide PutPiece;
    assert [p, q][1..] == [q] && [q][1..] == [];
    assert PutPieces([q], shares, p.End()) == PutPiece(q, shares, p.End());
  }

  /** The body is written compressed. */
  predicate Zips(c: Codec, body: seq<byte>) {
    |c.deflate(body)| < |body|
  }

  function Decode(c: Codec, meta: seq<byte>): Option<Tag> {
    if |meta| < 2 || meta[0] != TAG_BINARY then None
    else if meta[1] % 2 == 1 then
      match c.inflate(meta[2..])
      case None => None
      case Some(body) => if |body| > MAX_TAG_PLAIN then None else GetBody(c, body)
    else GetBody(c, meta[2..])
  }

  lemma LastFour(s: seq<byte>, t: seq<byte>)
    requires |t| == 4
    ensures (s + t)[..|s + t| - 4] == s && (s + t)[|s + t| - 4..] == t
  {
  }

  lemma BodyRoundTrip(c: Codec, pieces: seq<Piece>, n: nat)
    requires Lossless(c) && n <= |pieces|
    ensures GetBody(c, Body(c, pieces, n)) == if WithinBounds(pieces, n) then Some(Tag(pieces[..n], |pieces| - n)) else None
  {
    hide PutPayload, GetPayload, WithinBounds, Put32, Get32;
    var payload := PutPayload(pieces, n);
    Number32RoundTrip(c.crc(payload));
    var body := Body(c, pieces, n);
    LastFour(payload, Put32(c.crc(payload)));
    PayloadRoundTrip(pieces, n);
  }

  /** What a reader makes of the first `n` pieces: those pieces in order and the number of the others, if they are within
      its bounds, and nothing otherwise. */
  ghost function Decoded(c: Codec, pieces: seq<Piece>, n: nat): Option<Tag>
    requires Lossless(c) && n <= |pieces|
  {
    var body := Body(c, pieces, n);
    if WithinBounds(pieces, n) && (Zips(c, body) ==> |body| <= MAX_TAG_PLAIN) then Some(Tag(pieces[..n], |pieces| - n)) else None
  }

  lemma DecodedAre(c: Codec, pieces: seq<Piece>, n: nat)
    requires Lossless(c) && n <= |pieces|
    ensures Decoded(c, pieces, n).Some? ==> Decoded(c, pieces, n).value.pieces == pieces[..n]
  {
  }

  /** The packed form of the first `n` pieces decodes to exactly those pieces in order and to the number of the others,
      if and only if they are within the reader's bounds; otherwise it is refused. */
  lemma PackRoundTrip(c: Codec, pieces: seq<Piece>, n: nat)
    requires Lossless(c) && n <= |pieces|
    ensures Decode(c, Pack(c, pieces, n)) == Decoded(c, pieces, n)
  {
    hide Body, GetBody, WithinBounds;
    var body := Body(c, pieces, n);
    var meta := Pack(c, pieces, n);
    assert meta[2..] == if Zips(c, body) then c.deflate(body) else body;
    BodyRoundTrip(c, pieces, n);
  }

  /** The case: the tag of a run that starts 2^63 bytes in is refused by whoever reads it. */
  lemma TooFarIn(c: Codec)
    requires Lossless(c)
    ensures var pieces := [Piece([], [], 0, TWO_63, 1, 1)];
            Decode(c, Pack(c, pieces, 1)) == None
  {
    hide Body, Pack, Decode;
    var pieces := [Piece([], [], 0, TWO_63, 1, 1)];
    assert !Takes(pieces[0]);
    PackRoundTrip(c, pieces, 1);
  }
}
