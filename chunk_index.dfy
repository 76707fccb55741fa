/** The chunk index of revision.cpp:22-52: `TABLE_SIZE` buckets, each an
    append-only list of (full hash, offset) entries, and what it holds once
    every 8-byte chunk of the old content has been inserted. */
module ChunkIndex {
  import opened Bytes
  import opened Hashing

  const TABLE_SIZE: nat := 10007
  const CHUNK_SIZE: nat := 8

  /** One bucket entry: the chunk's full hash and the offset it came from. */
  datatype Entry = Entry(fullHash: nat, position: nat)

  /** The offsets of the entries of `bucket` whose stored full hash is `h`,
      in bucket (insertion) order. */
  function Matching(bucket: seq<Entry>, h: nat): (ps: seq<nat>)
    ensures |ps| <= |bucket|
    ensures forall k :: 0 <= k < |ps| ==> exists j :: 0 <= j < |bucket| && bucket[j] == Entry(h, ps[k])
  {
    if bucket == [] then []
    else
      var last := bucket[|bucket| - 1];
      Matching(bucket[..|bucket| - 1], h) + (if last.fullHash == h then [last.position] else [])
  }

  /** Matching is a filter that keeps order: it distributes over concatenation. */
  lemma {:induction false} MatchingConcat(a: seq<Entry>, b: seq<Entry>, h: nat)
    ensures Matching(a + b, h) == Matching(a, h) + Matching(b, h)
    decreases |b|
  {
    if b == [] {
      assert a + b == a;
    } else {
      var b' := b[..|b| - 1];
      assert (a + b)[..|a + b| - 1] == a + b';
      MatchingConcat(a, b', h);
    }
  }

  /** Every entry of `bucket` with hash `h` has its offset in Matching(bucket, h). */
  lemma {:induction false} MatchingComplete(bucket: seq<Entry>, h: nat, j: nat)
    requires j < |bucket| && bucket[j].fullHash == h
    ensures bucket[j].position in Matching(bucket, h)
    decreases |bucket|
  {
    if j < |bucket| - 1 {
      MatchingComplete(bucket[..|bucket| - 1], h, j);
    }
  }

  /** The hash table. `table[b]` is the list of bucket `b`. */
  class HashTable {
    var table: seq<seq<Entry>>

    /** `TABLE_SIZE` buckets; every entry sits in the bucket of its full hash. */
    ghost predicate Valid()
      reads this
    {
      && |table| == TABLE_SIZE
      && forall b, k :: 0 <= b < |table| && 0 <= k < |table[b]| ==> table[b][k].fullHash % TABLE_SIZE == b
    }

    constructor ()
      ensures Valid()
      ensures forall b :: 0 <= b < TABLE_SIZE ==> table[b] == []
    {
      var empty: seq<Entry> := [];
      table := seq(TABLE_SIZE, _ => empty);
    }

    /** Appends (hash(chunk), position) to bucket hash(chunk) % TABLE_SIZE; no
        other bucket changes. */
    method Insert(chunk: seq<Byte>, position: nat)
      requires Valid()
      modifies this
      ensures Valid()
      ensures Hash(chunk) % TABLE_SIZE < |table|
      ensures table == old(table)[Hash(chunk) % TABLE_SIZE :=
                                  old(table)[Hash(chunk) % TABLE_SIZE] + [Entry(Hash(chunk), position)]]
    {
      var bucket := HashString(chunk);
      bucket := bucket % TABLE_SIZE;
      var fullHash := HashString(chunk);
      table := table[bucket := table[bucket] + [Entry(fullHash, position)]];
    }

    /** The offsets stored in the chunk's bucket under the chunk's full hash,
        in insertion order. The table is not changed. */
    method GetPositions(chunk: seq<Byte>) returns (positions: seq<nat>)
      requires Valid()
      ensures positions == Matching(table[Hash(chunk) % TABLE_SIZE], Hash(chunk))
    {
      var bucket := HashString(chunk);
      bucket := bucket % TABLE_SIZE;
      var fullHash := HashString(chunk);
      positions := [];
      var entries := table[bucket];
      for k := 0 to |entries|
        invariant positions == Matching(entries[..k], fullHash)
      {
        assert entries[..k + 1][..k] == entries[..k];
        if entries[k].fullHash == fullHash {
          positions := positions + [entries[k].position];
        }
      }
      assert entries[..|entries|] == entries;
    }
  }

  /** How many offsets of an `n`-byte content start a full chunk. */
  function ChunkCount(n: nat): nat {
    if n >= CHUNK_SIZE then n - CHUNK_SIZE + 1 else 0
  }

  /** The hash of the chunk of `oldContent` at offset `p`
      (`Hash(oldContent[p..p + CHUNK_SIZE])`, by HashRangeIsHash). */
  function ChunkHash(oldContent: seq<Byte>, p: nat): nat
    requires p + CHUNK_SIZE <= |oldContent|
  {
    HashRange(oldContent, p, p + CHUNK_SIZE)
  }

  /** Bucket `b` after the chunks at offsets 0 .. n-1 of `oldContent` were inserted in
      that order. */
  function IndexedBucket(oldContent: seq<Byte>, n: nat, b: nat): seq<Entry>
    requires n <= ChunkCount(|oldContent|)
  {
    if n == 0 then []
    else
      var h := ChunkHash(oldContent, n - 1);
      IndexedBucket(oldContent, n - 1, b) + (if h % TABLE_SIZE == b then [Entry(h, n - 1)] else [])
  }

  /** Every entry of bucket `b` records an offset below `n` with the full
      hash of its chunk, and that hash selects bucket `b`. */
  lemma {:induction false} BucketEntries(oldContent: seq<Byte>, n: nat, b: nat)
    requires n <= ChunkCount(|oldContent|)
    ensures forall e :: e in IndexedBucket(oldContent, n, b) ==>
      e.position < n && e.fullHash == ChunkHash(oldContent, e.position) && e.fullHash % TABLE_SIZE == b
  {
    if n > 0 {
      BucketEntries(oldContent, n - 1, b);
    }
  }

  /** The offsets below `n` whose chunk hashes to `h`: only those
      (OffsetsComplete: all of them), in ascending order (OffsetsAscending). */
  function Offsets(oldContent: seq<Byte>, n: nat, h: nat): (ps: seq<nat>)
    requires n <= ChunkCount(|oldContent|)
    ensures forall k :: 0 <= k < |ps| ==> ps[k] < n && ChunkHash(oldContent, ps[k]) == h
  {
    if n == 0 then []
    else Offsets(oldContent, n - 1, h) + (if ChunkHash(oldContent, n - 1) == h then [n - 1] else [])
  }

  /** Every offset below `n` whose chunk hashes to `h` is among the offsets. */
  lemma {:induction false} OffsetsComplete(oldContent: seq<Byte>, n: nat, h: nat, p: nat)
    requires n <= ChunkCount(|oldContent|)
    requires p < n && ChunkHash(oldContent, p) == h
    ensures p in Offsets(oldContent, n, h)
  {
    if p < n - 1 {
      OffsetsComplete(oldContent, n - 1, h, p);
    }
  }

  /** The offsets come out in ascending order, each once. */
  lemma {:induction false} OffsetsAscending(oldContent: seq<Byte>, n: nat, h: nat)
    requires n <= ChunkCount(|oldContent|)
    ensures forall j, k :: 0 <= j < k < |Offsets(oldContent, n, h)| ==>
              Offsets(oldContent, n, h)[j] < Offsets(oldContent, n, h)[k]
  {
    if n > 0 {
      var prev := Offsets(oldContent, n - 1, h);
      OffsetsAscending(oldContent, n - 1, h);
      var ps := Offsets(oldContent, n, h);
      var last := if ChunkHash(oldContent, n - 1) == h then [n - 1] else [];
      assert ps == prev + last;
      forall j, k | 0 <= j < k < |ps|
        ensures ps[j] < ps[k]
      {
        if k < |prev| {
          assert ps[j] == prev[j] && ps[k] == prev[k];
        } else {
          assert ps[k] == n - 1;
          assert ps[j] == prev[j] && prev[j] < n - 1;
        }
      }
    }
  }

  /** A table holds the index of `oldContent`: every bucket is as the build loop
      leaves it. */
  ghost predicate Indexes(t: HashTable, oldContent: seq<Byte>)
    reads t
  {
    && |t.table| == TABLE_SIZE
    && forall b :: 0 <= b < TABLE_SIZE ==> t.table[b] == IndexedBucket(oldContent, ChunkCount(|oldContent|), b)
  }

  /** Looking up full hash `h` in the bucket the build loop fills for `h`
      gives the offsets whose chunk hashes to `h`. */
  lemma {:induction false} IndexedLookup(oldContent: seq<Byte>, n: nat, h: nat)
    requires n <= ChunkCount(|oldContent|)
    ensures Matching(IndexedBucket(oldContent, n, h % TABLE_SIZE), h) == Offsets(oldContent, n, h)
  {
    if n > 0 {
      IndexedLookup(oldContent, n - 1, h);
      var c := ChunkHash(oldContent, n - 1);
      var prev := IndexedBucket(oldContent, n - 1, h % TABLE_SIZE);
      var added := if c % TABLE_SIZE == h % TABLE_SIZE then [Entry(c, n - 1)] else [];
      MatchingConcat(prev, added, h);
      if c % TABLE_SIZE == h % TABLE_SIZE {
        assert Matching(added, h) == (if c == h then [n - 1] else []) by {
          assert added[..0] == [];
        }
      }
    }
  }

  /** What a lookup in a table that indexes `oldContent` returns. */
  lemma {:induction false} LookupInIndex(t: HashTable, oldContent: seq<Byte>, chunk: seq<Byte>)
    requires Indexes(t, oldContent)
    ensures Hash(chunk) % TABLE_SIZE < |t.table|
    ensures Matching(t.table[Hash(chunk) % TABLE_SIZE], Hash(chunk))
            == Offsets(oldContent, ChunkCount(|oldContent|), Hash(chunk))
  {
    IndexedLookup(oldContent, ChunkCount(|oldContent|), Hash(chunk));
  }
}
