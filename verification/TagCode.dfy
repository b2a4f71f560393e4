/** The loops that write and read an object tag (client/objecttag.go), and the search for how much of it fits. */
module TagCode {
  import opened Bytes
  import opened Varint
  import opened ObjectTag

  lemma IndexIs(names: seq<Name>, s: Name, i: nat)
    requires i < |names| && names[i] == s && forall j, k | 0 <= j < k < |names| :: names[j] != names[k]
    ensures IndexOf(names, s) == i
  {
  }

  lemma SharesNone()
    ensures Shares([]) == []
  {
  }

  lemma SharesNext(pieces: seq<Piece>, i: nat)
    requires i < |pieces|
    ensures var before := Shares(pieces[..i]);
            Shares(pieces[..i + 1]) == if pieces[i].share in before then before else before + [pieces[i].share]
  {
    assert pieces[..i + 1][..i] == pieces[..i];
  }

  /** The table of the shares of the first `n` pieces, and where each is in it. */
  method ShareTable(pieces: seq<Piece>, n: nat) returns (shares: seq<Name>, index: map<Name, nat>)
    requires n <= |pieces|
    ensures shares == Shares(pieces[..n])
    ensures forall s | s in shares :: s in index && index[s] == IndexOf(shares, s)
  {
    hide IndexOf, Shares;
    SharesNone();
    shares, index := [], map[];
    for i := 0 to n
      invariant shares == Shares(pieces[..i])
      invariant forall s :: s in index <==> s in shares
      invariant forall s | s in index :: index[s] < |shares| && shares[index[s]] == s
    {
      SharesNext(pieces, i);
      var share := pieces[i].share;
      if share !in index {
        index := index[share := |shares|];
        shares := shares + [share];
      }
    }
    forall s | s in shares ensures index[s] == IndexOf(shares, s) {
      IndexIs(shares, s, index[s]);
    }
  }

  method AppendStrings(b: seq<byte>, names: seq<Name>) returns (r: seq<byte>)
    ensures r == b + PutAll(names)
  {
    hide PutString;
    r := b;
    for i := 0 to |names|
      invariant r + PutAll(names[i..]) == b + PutAll(names)
    {
      assert names[i..][1..] == names[i + 1..];
      r := r + PutString(names[i]);
    }
  }

  method AppendPieces(b: seq<byte>, pieces: seq<Piece>, shares: seq<Name>, index: map<Name, nat>) returns (r: seq<byte>)
    requires forall p | p in pieces :: p.share in shares && p.share in index && index[p.share] == IndexOf(shares, p.share)
    ensures r == b + PutPieces(pieces, shares, 0)
  {
    hide PutUvarint, PutVarint, PutString, IndexOf, Piece.End, ToInt64, PutPiece;
    r := b;
    var end: uint64 := 0;
    for i := 0 to |pieces|
      invariant r + PutPieces(pieces[i..], shares, end) == b + PutPieces(pieces, shares, 0)
    {
      var p := pieces[i];
      assert pieces[i..][1..] == pieces[i + 1..];
      r := AppendPiece(r, p, shares, index[p.share], end);
      end := p.End();
    }
  }

  method AppendPiece(b: seq<byte>, p: Piece, ghost shares: seq<Name>, index: nat, end: uint64) returns (r: seq<byte>)
    requires p.share in shares && index == IndexOf(shares, p.share)
    ensures r == b + PutPiece(p, shares, end)
  {
    hide PutUvarint, PutVarint, PutString, IndexOf, ToInt64;
    r := b + PutUvarint(index);
    r := r + PutString(p.path);
    r := r + PutUvarint(p.offset);
    r := r + PutVarint(ToInt64(ToInt64(p.at) - ToInt64(end)));
    r := r + PutUvarint(p.length);
    r := r + PutUvarint(p.size);
  }

  method WriteBody(c: Codec, pieces: seq<Piece>, n: nat) returns (b: seq<byte>)
    requires Lossless(c) && n <= |pieces|
    ensures b == Body(c, pieces, n)
  {
    hide PutUvarint, PutAll, PutPieces, Shares, IndexOf, Put32;
    var shares, index := ShareTable(pieces, n);
    b := PutUvarint(|pieces| - n);
    b := b + PutUvarint(|shares|);
    b := AppendStrings(b, shares);
    b := b + PutUvarint(n);
    b := AppendPieces(b, pieces[..n], shares, index);
    assert b == PutPayload(pieces, n);
    b := b + Put32(c.crc(b));
  }

  method WriteTag(c: Codec, pieces: seq<Piece>, n: nat) returns (r: seq<byte>)
    requires Lossless(c) && n <= |pieces|
    ensures r == Pack(c, pieces, n)
    ensures var body := Body(c, pieces, n); |r| == 2 + if |c.deflate(body)| < |body| then |c.deflate(body)| else |body|
  {
    hide Body;
    PackIsSmaller(c, pieces, n);
    var body := WriteBody(c, pieces, n);
    var plain := [TAG_BINARY, 0] + body;
    var zipped := [TAG_BINARY, TAG_COMPRESSED] + c.deflate(body);
    r := if |zipped| < |plain| then zipped else plain;
  }

  /** Reads a counted list of strings. */
  method ReadStrings(s: seq<byte>) returns (r: Option<Read<seq<Name>>>)
    ensures r == GetStrings(s)
  {
    hide GetString, GetUvarint;
    var n := GetUvarint(s);
    if n.None? || n.value.value > MAX_TAG_PIECES {
      return None;
    }
    var names: seq<Name>, rest := [], n.value.rest;
    PrependNothing(GetAll(rest, n.value.value));
    for i := 0 to n.value.value
      invariant GetAll(n.value.rest, n.value.value) == Prepend(names, GetAll(rest, n.value.value - i))
    {
      var name := GetString(rest);
      if name.None? {
        return None;
      }
      PrependMore(names, [name.value.value], GetAll(name.value.rest, n.value.value - i - 1));
      names, rest := names + [name.value.value], name.value.rest;
    }
    assert names + [] == names;
    return Some(Read(names, rest));
  }

  /** What was read before what was read after it. */
  function Prepend<T>(before: seq<T>, r: Option<Read<seq<T>>>): Option<Read<seq<T>>> {
    match r
    case None => None
    case Some(more) => Some(Read(before + more.value, more.rest))
  }

  lemma PrependNothing<T>(r: Option<Read<seq<T>>>)
    ensures Prepend([], r) == r
  {
    if r.Some? { assert [] + r.value.value == r.value.value; }
  }

  lemma PrependMore<T>(a: seq<T>, b: seq<T>, r: Option<Read<seq<T>>>)
    ensures Prepend(a, Prepend(b, r)) == Prepend(a + b, r)
  {
    if r.Some? { assert a + (b + r.value.value) == a + b + r.value.value; }
  }

  method ReadPieces(s: seq<byte>, n: nat, shares: seq<Name>) returns (r: Option<Read<seq<Piece>>>)
    ensures r == GetPieces(s, n, shares, 0)
  {
    hide GetPiece, Piece.End;
    var pieces: seq<Piece>, rest, end: uint64 := [], s, 0;
    PrependNothing(GetPieces(s, n, shares, 0));
    for i := 0 to n
      invariant GetPieces(s, n, shares, 0) == Prepend(pieces, GetPieces(rest, n - i, shares, end))
    {
      var p := GetPiece(rest, shares, end);
      if p.None? {
        return None;
      }
      PrependMore(pieces, [p.value.value], GetPieces(p.value.rest, n - i - 1, shares, p.value.value.End()));
      pieces, rest, end := pieces + [p.value.value], p.value.rest, p.value.value.End();
    }
    assert pieces + [] == pieces;
    return Some(Read(pieces, rest));
  }

  method ReadPayload(s: seq<byte>) returns (r: Option<Tag>)
    ensures r == GetPayload(s)
  {
    hide GetUvarint, GetStrings, GetPieces;
    var omitted := GetUvarint(s);
    if omitted.None? || omitted.value.value > MAX_TAG_PLAIN {
      return None;
    }
    var shares := ReadStrings(omitted.value.rest);
    if shares.None? {
      return None;
    }
    var n := GetUvarint(shares.value.rest);
    if n.None? || n.value.value == 0 || n.value.value > MAX_TAG_PIECES {
      return None;
    }
    var pieces := ReadPieces(n.value.rest, n.value.value, shares.value.value);
    if pieces.None? || pieces.value.rest != [] {
      return None;
    }
    return Some(Tag(pieces.value.value, omitted.value.value));
  }

  method DecodeTag(c: Codec, meta: seq<byte>) returns (r: Option<Tag>)
    ensures r == Decode(c, meta)
  {
    hide GetPayload, Get32;
    if |meta| < 2 || meta[0] != TAG_BINARY {
      return None;
    }
    var body := meta[2..];
    if meta[1] % 2 == 1 {
      var inflated := c.inflate(body);
      if inflated.None? || |inflated.value| > MAX_TAG_PLAIN {
        return None;
      }
      body := inflated.value;
    }
    if |body| < 4 {
      return None;
    }
    var payload := body[..|body| - 4];
    if c.crc(payload) != Get32(body[|body| - 4..]) {
      return None;
    }
    r := ReadPayload(payload);
  }

  // How much of a tag fits

  const CATALOG_FOLDER: string := "/.sombrero/catalog"

  predicate IsCatalog(p: Piece) {
    AsBytes(CATALOG_FOLDER + "/") <= p.path
  }

  function Only(pieces: seq<Piece>, catalogs: bool): (r: seq<Piece>)
    ensures forall p | p in r :: IsCatalog(p) == catalogs
    ensures forall p | p in pieces && IsCatalog(p) == catalogs :: p in r
  {
    if pieces == [] then []
    else (if IsCatalog(pieces[0]) == catalogs then [pieces[0]] else []) + Only(pieces[1..], catalogs)
  }

  /** The catalogs first, and either kind in the order it was in. */
  function CatalogsFirst(pieces: seq<Piece>): seq<Piece> {
    Only(pieces, true) + Only(pieces, false)
  }

  lemma {:induction false} SortingKeepsAll(pieces: seq<Piece>)
    ensures multiset(CatalogsFirst(pieces)) == multiset(pieces) && |CatalogsFirst(pieces)| == |pieces|
  {
    if pieces != [] {
      SortingKeepsAll(pieces[1..]);
      assert pieces == [pieces[0]] + pieces[1..];
    }
  }

  /** A catalog is what lies in the folder of catalogs. */
  lemma CatalogIs(p: Piece)
    ensures IsCatalog(p) <==> exists rest: seq<byte> :: p.path == AsBytes("/.sombrero/catalog/") + rest
  {
    var folder := AsBytes("/.sombrero/catalog/");
    assert CATALOG_FOLDER + "/" == "/.sombrero/catalog/";
    if folder <= p.path { assert p.path == folder + p.path[|folder|..]; }
  }

  /** The pieces of the one list are those of the other at these places, which ascend. */
  ghost predicate Picked(some: seq<Piece>, all: seq<Piece>, at: seq<nat>) {
    && |at| == |some| && (forall i | 0 <= i < |at| :: at[i] < |all| && some[i] == all[at[i]])
    && forall i, j | 0 <= i < j < |at| :: at[i] < at[j]
  }

  lemma PickedLater(some: seq<Piece>, all: seq<Piece>, at: seq<nat>, p: Piece) returns (r: seq<nat>)
    requires Picked(some, all, at)
    ensures Picked(some, [p] + all, r) && forall i | 0 <= i < |r| :: 0 < r[i]
  {
    r := seq(|at|, i requires 0 <= i < |at| => at[i] + 1);
  }

  lemma PickedFirst(some: seq<Piece>, all: seq<Piece>, at: seq<nat>)
    requires Picked(some, all, at) && all != [] && forall i | 0 <= i < |at| :: 0 < at[i]
    ensures Picked([all[0]] + some, all, [0] + at)
  {
    var more, places := [all[0]] + some, [0] + at;
    forall i | 0 <= i < |places| ensures places[i] < |all| && more[i] == all[places[i]] {
      assert i > 0 ==> places[i] == at[i - 1] && more[i] == some[i - 1];
    }
    forall i, j | 0 <= i < j < |places| ensures places[i] < places[j] {
      assert places[j] == at[j - 1] && (i > 0 ==> places[i] == at[i - 1]);
    }
  }

  /** Sorting is stable: the pieces of a kind are those of the list, at ascending places. */
  lemma {:induction false} SortingIsStable(pieces: seq<Piece>, catalogs: bool) returns (at: seq<nat>)
    ensures Picked(Only(pieces, catalogs), pieces, at)
  {
    hide IsCatalog, Picked;
    at := [];
    if pieces == [] {
      NonePicked(pieces);
    } else {
      at := SortingIsStable(pieces[1..], catalogs);
      at := PickedLater(Only(pieces[1..], catalogs), pieces[1..], at, pieces[0]);
      assert [pieces[0]] + pieces[1..] == pieces;
      if IsCatalog(pieces[0]) == catalogs {
        PickedFirst(Only(pieces[1..], catalogs), pieces, at);
        at := [0] + at;
      } else {
        assert [] + Only(pieces[1..], catalogs) == Only(pieces[1..], catalogs);
      }
    }
  }

  lemma NonePicked(all: seq<Piece>)
    ensures Picked([], all, [])
  {
  }

  /** The first `n` pieces fit, or there is none. */
  ghost predicate Fits(c: Codec, pieces: seq<Piece>, maxSize: nat, n: nat)
    requires Lossless(c) && n <= |pieces|
  {
    |Pack(c, pieces, n)| <= maxSize
  }

  /** The binary search of Go's sort package over the number of pieces, for a property that need not be monotone. What
      it comes to fits, and one more does not, whichever of several such numbers it is. */
  method Search(c: Codec, pieces: seq<Piece>, maxSize: nat) returns (n: nat)
    requires Lossless(c)
    ensures n <= |pieces| && (n == 0 || Fits(c, pieces, maxSize, n)) && (n == |pieces| || !Fits(c, pieces, maxSize, n + 1))
  {
    hide Pack, Lossless, Body;
    var i, j := 0, |pieces|;
    while i < j
      invariant 0 <= i <= j <= |pieces|
      invariant i == 0 || Fits(c, pieces, maxSize, i)
      invariant j == |pieces| || !Fits(c, pieces, maxSize, j + 1)
    {
      var h := (i + j) / 2;
      var packed := WriteTag(c, pieces, h + 1);
      if |packed| <= maxSize {
        i := h + 1;
      } else {
        j := h;
      }
    }
    n := i;
  }

  /** How many pieces a tag names: all of them if they fit, and otherwise a number that fits while one more does not. */
  method HowMany(c: Codec, pieces: seq<Piece>, maxSize: nat) returns (n: nat)
    requires Lossless(c)
    ensures n <= |pieces| && (n == 0 || Fits(c, pieces, maxSize, n)) && (n == |pieces| || !Fits(c, pieces, maxSize, n + 1))
    ensures Fits(c, pieces, maxSize, |pieces|) ==> n == |pieces|
  {
    hide Pack, Lossless, Body;
    n := |pieces|;
    var packed := WriteTag(c, pieces, n);
    if |packed| <= maxSize {
      return;
    }
    n := Search(c, pieces, maxSize);
    packed := WriteTag(c, pieces, n);
    while n > 0 && |packed| > maxSize
      invariant n <= |pieces| && packed == Pack(c, pieces, n)
    {
      n := n - 1;
      packed := WriteTag(c, pieces, n);
    }
    while n < |pieces|
      invariant n <= |pieces| && (n == 0 || Fits(c, pieces, maxSize, n))
    {
      packed := WriteTag(c, pieces, n + 1);
      if |packed| > maxSize {
        return;
      }
      n := n + 1;
    }
  }

  /** The tag as the indexer takes it. It is never too large, leaves a piece out only if naming one more would make it
      too large, and names no other piece before all catalogs. */
  method Encode(c: Codec, pieces: seq<Piece>, maxSize: nat) returns (r: Option<seq<byte>>, n: nat)
    requires Lossless(c)
    ensures var sorted := CatalogsFirst(pieces);
            && n <= |pieces| == |sorted|
            && (r == if n == 0 then None else Some(Pack(c, sorted, n)))
            && (r.Some? ==> |r.value| <= maxSize)
            && (n == |pieces| || |Pack(c, sorted, n + 1)| > maxSize)
            && (|Pack(c, sorted, |pieces|)| <= maxSize ==> n == |pieces|)
            && (var body := Body(c, sorted, |pieces|);
                2 + |body| <= maxSize || 2 + |c.deflate(body)| <= maxSize ==> n == |pieces|)
            && ((exists i | 0 <= i < n :: !IsCatalog(sorted[i])) ==> forall i | n <= i < |sorted| :: !IsCatalog(sorted[i]))
    ensures multiset(CatalogsFirst(pieces)) == multiset(pieces)
  {
    hide Pack, IsCatalog;
    SortingKeepsAll(pieces);
    if |pieces| == 0 {
      return None, 0;
    }
    var sorted := CatalogsFirst(pieces);
    PackIsSmaller(c, sorted, |pieces|);
    n := HowMany(c, sorted, maxSize);
    CatalogsAhead(pieces, n);
    if n == 0 {
      return None, 0;
    }
    var packed := WriteTag(c, sorted, n);
    r := Some(packed);
  }

  lemma CatalogsAhead(pieces: seq<Piece>, n: nat)
    requires n <= |CatalogsFirst(pieces)|
    ensures var sorted := CatalogsFirst(pieces);
            (exists i | 0 <= i < n :: !IsCatalog(sorted[i])) ==> forall i | n <= i < |sorted| :: !IsCatalog(sorted[i])
  {
    hide IsCatalog;
    var catalogs, others := Only(pieces, true), Only(pieces, false);
    var sorted := CatalogsFirst(pieces);
    assert forall i | 0 <= i < |catalogs| :: sorted[i] == catalogs[i] && catalogs[i] in catalogs;
    assert forall i | |catalogs| <= i < |sorted| :: sorted[i] == others[i - |catalogs|] && others[i - |catalogs|] in others;
  }
}