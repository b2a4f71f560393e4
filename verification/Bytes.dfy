/** Bytes, the machine's numbers, the partial byte map a file is, and the few operations on them that several components
    share. */
module Bytes {

  const TWO_64: int := 0x1_0000_0000_0000_0000
  const MAX_UINT64: nat := 0xffff_ffff_ffff_ffff

  type byte = x: int | 0 <= x < 256
  type uint16 = x: int | 0 <= x < 0x1_0000
  type uint64 = x: int | 0 <= x < TWO_64

  /** Where a file is: a share, and a path on it. */
  datatype FileKey = FileKey(share: string, path: string)

  /** The bytes of a text in ASCII. */
  function AsBytes(s: string): seq<byte> {
    seq(|s|, i requires 0 <= i < |s| => s[i] as int % 256)
  }

  datatype Option<+T> = None | Some(value: T)

  /** What a client has written of a file: the byte at every offset it wrote. */
  type File = map<nat, byte>

  /** `file` after a write of `data` at `offset`: the newest byte wins. */
  function Overlay(file: File, offset: nat, data: seq<byte>): (r: File)
    ensures forall x :: x in r <==> x in file || offset <= x < offset + |data|
    ensures forall x | x in r :: r[x] == if offset <= x < offset + |data| then data[x - offset] else file[x]
    decreases |data|
  {
    if data == [] then file
    else Overlay(file, offset, data[..|data| - 1])[offset + |data| - 1 := data[|data| - 1]]
  }

  /** `file` cut down to its first `n` bytes. */
  function CutAt(file: File, n: nat): File {
    map x | x in file && x < n :: file[x]
  }

  /** A byte nobody wrote reads as zero. */
  function ByteAt(file: File, x: nat): byte {
    if x in file then file[x] else 0
  }

  /** `s` is the front of the file, holes reading as zeros. */
  ghost predicate Renders(file: File, s: seq<byte>) {
    forall x | 0 <= x < |s| :: s[x] == ByteAt(file, x)
  }

  /** The file has no hole before `n`. */
  ghost predicate Dense(file: File, n: nat) {
    forall x | 0 <= x < n :: x in file
  }

  /** The first offset from `n` on that is not written. */
  ghost function FirstHole(file: File, n: nat): (h: nat)
    ensures n <= h && h !in file && forall x | n <= x < h :: x in file
    decreases |file|
  {
    if n in file then
      var h := FirstHole(file - {n}, n + 1);
      assert h in file ==> h in file - {n};
      assert forall x | n <= x < h :: x in file by {
        forall x | n <= x < h ensures x in file { assert x == n || x in file - {n}; }
      }
      h
    else n
  }

  lemma FirstHoleIs(file: File, n: nat, h: nat)
    requires n <= h && h !in file && forall x | n <= x < h :: x in file
    ensures FirstHole(file, n) == h
  {
    var f := FirstHole(file, n);
    assert f < h ==> f in file;
    assert h < f ==> h in file;
  }

  /** `length` bytes of the file from `offset` on, holes reading as zeros. */
  function Slice(file: File, offset: nat, length: nat): (r: seq<byte>)
    ensures |r| == length && forall i | 0 <= i < length :: r[i] == ByteAt(file, offset + i)
  {
    if length == 0 then [] else Slice(file, offset, length - 1) + [ByteAt(file, offset + length - 1)]
  }

  /** `n` is where the file ends: nothing is written at or past it, and the byte before it is written. */
  ghost predicate EndsAt(file: File, n: nat) {
    && (forall x | x in file :: x < n)
    && (n == 0 || n - 1 in file)
  }

  /** `data` is what the file holds at `offset`. */
  ghost predicate HoldsAt(file: File, offset: nat, data: seq<byte>) {
    forall x | offset <= x < offset + |data| :: x in file && file[x] == data[x - offset]
  }

  lemma RangeOfRendered(file: File, s: seq<byte>, offset: nat, length: nat)
    requires Renders(file, s) && Dense(file, |s|) && offset + length <= |s|
    ensures HoldsAt(file, offset, s[offset..offset + length])
  {
  }

  lemma NextProduct(k: nat, n: nat)
    ensures (k + 1) * n == k * n + n
  {
  }

  lemma ProductsInOrder(j: nat, k: nat, n: nat)
    requires j < k
    ensures j * n + n <= k * n
    decreases k
  {
    NextProduct(k - 1, n);
    if j < k - 1 { ProductsInOrder(j, k - 1, n); }
  }

  /** `x` is in the chunk its quotient numbers. */
  lemma Quotient(x: nat, n: nat)
    requires n > 0
    ensures x / n * n <= x < x / n * n + n
  {
    assert x == x / n * n + x % n;
  }

  lemma QuotientIs(x: nat, k: nat, n: nat)
    requires n > 0 && k * n <= x < k * n + n
    ensures x / n == k
  {
    Quotient(x, n);
    if x / n < k { ProductsInOrder(x / n, k, n); }
    if k < x / n { ProductsInOrder(k, x / n, n); }
  }

  lemma SliceOfFront(s: seq<byte>, n: nat, i: nat, j: nat)
    requires i <= j <= n <= |s|
    ensures s[..n][i..j] == s[i..j]
  {
  }

  lemma SlicesJoin(s: seq<byte>, i: nat, j: nat, k: nat)
    requires i <= j <= k <= |s|
    ensures s[i..k] == s[i..j] + s[j..k]
  {
  }
}
