/** The variable-length integers the object tag is written in, as Go's encoding/binary reads and writes them: seven bits
    to a byte, low bits first, at most ten bytes, signed numbers folded onto unsigned ones. */
module Varint {
  import opened Bytes

  const TWO_63: int := 0x8000_0000_0000_0000

  /** A value and what is left to read. */
  datatype Read<+T> = Read(value: T, rest: seq<byte>)

  function PutUvarint(x: nat): (s: seq<byte>)
    ensures s != []
  {
    if x < 128 then [x] else [x % 128 + 128] + PutUvarint(x / 128)
  }

  /** What still fits into the number once `i` bytes have been read. */
  function Room(i: nat): (r: nat)
    requires i <= 9
    decreases 9 - i
    ensures r >= 2 && (i < 9 ==> r >= 256)
  {
    if i == 9 then 2 else 128 * Room(i + 1)
  }

  /** Reads the rest of a number of which `i` bytes have been read. */
  function GetUvarintFrom(s: seq<byte>, i: nat): (r: Option<Read<nat>>)
    ensures r.Some? ==> i <= 9 && r.value.value < Room(i)
    decreases |s|
  {
    if i >= 10 || s == [] then None
    else if s[0] < 128 then if i == 9 && s[0] > 1 then None else Some(Read(s[0], s[1..]))
    else
      match GetUvarintFrom(s[1..], i + 1)
      case None => None
      case Some(r) => Some(Read(s[0] - 128 + 128 * r.value, r.rest))
  }

  lemma RoomForAll()
    ensures Room(0) == TWO_64
  {
    assert Room(8) == 256 && Room(7) == 32768 && Room(6) == 0x40_0000;
    assert Room(4) == 0x40_0000 * 0x4000 && Room(2) == 0x40_0000 * 0x1000_0000;
  }

  function GetUvarint(s: seq<byte>): (r: Option<Read<nat>>)
    ensures r.Some? ==> r.value.value < TWO_64
  {
    RoomForAll();
    GetUvarintFrom(s, 0)
  }

  lemma {:induction false} UvarintFrom(x: nat, rest: seq<byte>, i: nat)
    requires i <= 9
    ensures GetUvarintFrom(PutUvarint(x) + rest, i) == if x < Room(i) then Some(Read(x, rest)) else None
    decreases x
  {
    var s := PutUvarint(x) + rest;
    if x < 128 {
      assert s[1..] == rest;
    } else {
      assert s[1..] == PutUvarint(x / 128) + rest;
      if i < 9 {
        UvarintFrom(x / 128, rest, i + 1);
      } else {
        assert GetUvarintFrom(s[1..], 10) == None;
      }
    }
  }

  /** What was written is read back; a number of more than 64 bits is refused. */
  lemma UvarintRoundTrip(x: nat, rest: seq<byte>)
    ensures GetUvarint(PutUvarint(x) + rest) == if x < TWO_64 then Some(Read(x, rest)) else None
  {
    UvarintFrom(x, rest, 0);
    RoomForAll();
  }

  /** The number a row of seven-bit groups makes, low ones first. */
  function Value(s: seq<byte>): nat {
    if s == [] then 0 else s[0] % 128 + 128 * Value(s[1..])
  }

  /** A number is written in seven-bit groups, low ones first, with the high bit set on all but the last, and in as few as
      it takes. */
  lemma {:induction false} UvarintLayout(x: nat)
    ensures var s := PutUvarint(x);
            && Value(s) == x && (forall i | 0 <= i < |s| :: s[i] >= 128 <==> i < |s| - 1)
            && (|s| > 1 ==> s[|s| - 1] > 0)
    decreases x
  {
    if x >= 128 {
      UvarintLayout(x / 128);
      var s, rest := PutUvarint(x), PutUvarint(x / 128);
      assert s[1..] == rest;
      assert forall i | 1 <= i < |s| :: s[i] == rest[i - 1];
    }
  }

  /** A 64-bit number taken as a signed one. */
  function ToInt64(x: int): (r: int)
    ensures -TWO_63 <= r < TWO_63
    ensures -TWO_63 <= x < TWO_63 ==> r == x
    ensures (x - r) % TWO_64 == 0
  {
    (x + TWO_63) % TWO_64 - TWO_63
  }

  function Fold(x: int): nat {
    if x < 0 then -2 * x - 1 else 2 * x
  }

  /** A signed number is shifted left by one bit, and if it is negative all its 64 bits are turned round. */
  lemma FoldIs(x: int)
    requires -TWO_63 <= x < TWO_63
    ensures Fold(x) == if x < 0 then TWO_64 - 1 - (2 * x) % TWO_64 else (2 * x) % TWO_64
  {
    if x < 0 { assert (2 * x) % TWO_64 == 2 * x + TWO_64; }
  }

  function Unfold(u: nat): int {
    if u % 2 == 1 then -(u / 2) - 1 else u / 2
  }

  function PutVarint(x: int): seq<byte> {
    PutUvarint(Fold(x))
  }

  function GetVarint(s: seq<byte>): Option<Read<int>> {
    match GetUvarint(s)
    case None => None
    case Some(r) => Some(Read(Unfold(r.value), r.rest))
  }

  lemma VarintRoundTrip(x: int, rest: seq<byte>)
    requires -TWO_63 <= x < TWO_63
    ensures GetVarint(PutVarint(x) + rest) == Some(Read(x, rest))
  {
    UvarintRoundTrip(Fold(x), rest);
  }

  /** Where a run starts, told as its distance from where the last one ended, comes back as the signed number it is. */
  lemma DistanceRoundTrip(at: uint64, end: uint64)
    ensures var distance := ToInt64(ToInt64(at) - ToInt64(end));
            ToInt64(ToInt64(end) + distance) == ToInt64(at)
  {
  }
}
