/**
 * The canonical pair combiner `combinedHash` and its helper `bufSortJoin`.
 * The hash primitive (Keccak-256, `sha3` of ethereumjs-util) is injected as a
 * `Hasher`, a function on byte strings; `Digest256` says that its digests are
 * 32 bytes long, and only the lemmas about digest lengths assume it.
 */
module Hashing {
  import opened ByteOrder

  /** A JavaScript value handed to `combinedHash`: `Absent` is a falsy one
      (`undefined` past the end of an array, `null`, the empty string `''`),
      `Buf` a Buffer, which is truthy whatever its length. */
  datatype Value = Absent | Buf(bytes: seq<byte>)

  type Hasher = seq<byte> -> seq<byte>

  /** A 256-bit hash: every digest is 32 bytes long. */
  ghost predicate Digest256(h: Hasher) {
    forall s :: |h(s)| == 32
  }

  /** bufSortJoin(a, b): the two buffers sorted by Buffer.compare, then concatenated. */
  function SortJoin(a: seq<byte>, b: seq<byte>): (r: seq<byte>)
    ensures |r| == |a| + |b|
    ensures (r == a + b && Le(a, b)) || (r == b + a && Le(b, a))
  {
    if Le(a, b) then a + b else CompareFlip(a, b); b + a
  }

  /** The order of the two arguments does not matter to bufSortJoin. */
  lemma SortJoinCommutes(a: seq<byte>, b: seq<byte>)
    ensures SortJoin(a, b) == SortJoin(b, a)
  {
    CompareFlip(a, b);
    CompareZeroIffEqual(a, b);
  }

  /** bufSortJoin puts the smaller buffer first. */
  lemma SortJoinSmallerFirst(a: seq<byte>, b: seq<byte>)
    ensures Lt(a, b) ==> SortJoin(a, b) == a + b && SortJoin(b, a) == a + b
  {
    CompareFlip(a, b);
  }

  /** combinedHash(first, second): a missing partner carries the other value up
      unchanged; two buffers are hashed in sorted order. */
  function CombinedHash(h: Hasher, first: Value, second: Value): (r: Value)
    ensures first.Buf? || second.Buf? ==> r.Buf?
  {
    if second.Absent? then first
    else if first.Absent? then second
    else Buf(h(SortJoin(first.bytes, second.bytes)))
  }

  /** Two 32-byte buffers combine into a 32-byte buffer, and a carried value keeps its length. */
  lemma CombinedHashIs32(h: Hasher, a: Value, b: Value)
    requires Digest256(h)
    requires a.Buf? ==> |a.bytes| == 32
    requires b.Buf? ==> |b.bytes| == 32
    ensures CombinedHash(h, a, b).Buf? ==> |CombinedHash(h, a, b).bytes| == 32
  {
  }

  /** Carry-forward: a falsy partner leaves the other argument as it is. */
  lemma CombinedHashCarries(h: Hasher, v: Value)
    ensures CombinedHash(h, v, Absent) == v
    ensures CombinedHash(h, Absent, v) == v
  {
  }

  /** Two buffers combine into the hash of the smaller followed by the larger. */
  lemma CombinedHashOfPair(h: Hasher, a: seq<byte>, b: seq<byte>)
    requires Lt(a, b)
    ensures CombinedHash(h, Buf(a), Buf(b)) == Buf(h(a + b))
    ensures CombinedHash(h, Buf(b), Buf(a)) == Buf(h(a + b))
  {
    SortJoinSmallerFirst(a, b);
  }

  /** combinedHash is commutative, so a proof needs no left/right markers. */
  lemma CombinedHashCommutes(h: Hasher, a: Value, b: Value)
    ensures CombinedHash(h, a, b) == CombinedHash(h, b, a)
  {
    if a.Buf? && b.Buf? {
      SortJoinCommutes(a.bytes, b.bytes);
    }
  }
}
