/**
 * What a save computes: the compressed chunk of every indexed key, an index
 * whose offsets are running sums of the chunk sizes in key order, and the
 * bytes of the file, a length word, the header and the chunks.
 */
module Layout {
  import opened Bytes
  import opened KeyOrder

  /** Where a key's compressed chunk sits in the data region, and how long it is. */
  datatype Entry = Entry(offset: int, size: int)

  /**
   * The two library encoders a save calls, taken as given: compress is what a
   * gzip writer holds after one Write of the value, encodeHeader is the gob
   * encoding of the index map. Gob writes a map in Go's random order; the
   * model fixes one encoding per index.
   */
  datatype Codec = Codec(compress: seq<Byte> -> seq<Byte>, encodeHeader: map<Key, Entry> -> seq<Byte>)

  /** Go's `m[k]` on a byte-slice map: the value, or nil when `k` is absent. */
  function Lookup(m: map<Key, seq<Byte>>, k: Key): seq<Byte> {
    if k in m then m[k] else []
  }

  /** The data region: the chunks of `ks` one after another, without padding. */
  function Body(ks: seq<Key>, chunks: map<Key, seq<Byte>>): seq<Byte> {
    if ks == [] then [] else Body(ks[..|ks| - 1], chunks) + Lookup(chunks, ks[|ks| - 1])
  }

  /** The index a save builds while walking `ks`: each key at the length of the chunks before it. */
  function IndexFor(ks: seq<Key>, chunks: map<Key, seq<Byte>>): map<Key, Entry> {
    if ks == [] then map[]
    else IndexFor(ks[..|ks| - 1], chunks)[ks[|ks| - 1] := Entry(|Body(ks[..|ks| - 1], chunks)|, |Lookup(chunks, ks[|ks| - 1])|)]
  }

  /** The index holds exactly the walked keys. */
  lemma {:induction false} IndexForKeys(ks: seq<Key>, chunks: map<Key, seq<Byte>>)
    ensures IndexFor(ks, chunks).Keys == set k | k in ks
    decreases |ks|
  {
    if ks != [] {
      var init := ks[..|ks| - 1];
      IndexForKeys(init, chunks);
      assert ks == init + [ks[|ks| - 1]];
    }
  }

  lemma BodyStep(ks: seq<Key>, chunks: map<Key, seq<Byte>>, j: nat)
    requires j < |ks|
    ensures Body(ks[..j + 1], chunks) == Body(ks[..j], chunks) + Lookup(chunks, ks[j])
  {
    assert ks[..j + 1][..j] == ks[..j];
  }

  /** The chunks of a prefix of the keys are a prefix of the data region. */
  lemma {:induction false} BodyPrefix(ks: seq<Key>, chunks: map<Key, seq<Byte>>, j: nat)
    requires j <= |ks|
    ensures Body(ks[..j], chunks) <= Body(ks, chunks)
    decreases |ks|
  {
    if j < |ks| {
      var init := ks[..|ks| - 1];
      BodyPrefix(init, chunks, j);
      assert init[..j] == ks[..j];
    } else {
      assert ks[..j] == ks;
    }
  }

  /** `chunk` occurs in `img` starting at position `start`. */
  predicate ChunkAtIn(img: seq<Byte>, start: int, chunk: seq<Byte>) {
    0 <= start && start + |chunk| <= |img| && img[start..start + |chunk|] == chunk
  }

  /** The chunk of the `j`-th key starts where the chunks of the keys before it end. */
  lemma ChunkAt(ks: seq<Key>, chunks: map<Key, seq<Byte>>, j: nat)
    requires j < |ks|
    ensures ChunkAtIn(Body(ks, chunks), |Body(ks[..j], chunks)|, Lookup(chunks, ks[j]))
  {
    BodyStep(ks, chunks, j);
    BodyPrefix(ks, chunks, j + 1);
  }

  /** Putting bytes in front of a region moves every chunk in it along by their length. */
  lemma ChunkAfterPrefix(prefix: seq<Byte>, body: seq<Byte>, off: int, chunk: seq<Byte>, img: seq<Byte>, start: int)
    requires ChunkAtIn(body, off, chunk)
    requires img == prefix + body && start == |prefix| + off
    ensures ChunkAtIn(img, start, chunk)
  {
    assert img[start..start + |chunk|] == body[off..off + |chunk|];
  }

  /** On distinct keys, the entry of the `j`-th key records its offset and its chunk's length. */
  lemma {:induction false} IndexForAt(ks: seq<Key>, chunks: map<Key, seq<Byte>>, j: nat)
    requires Distinct(ks) && j < |ks|
    ensures ks[j] in IndexFor(ks, chunks)
    ensures IndexFor(ks, chunks)[ks[j]] == Entry(|Body(ks[..j], chunks)|, |Lookup(chunks, ks[j])|)
    decreases |ks|
  {
    var init := ks[..|ks| - 1];
    if j < |ks| - 1 {
      IndexForAt(init, chunks, j);
      assert init[..j] == ks[..j];
    } else {
      assert init == ks[..j];
    }
  }

  /** The value a save stores for each key of the index: its compressed chunk. */
  function Chunks(c: Codec, data: map<Key, seq<Byte>>, index: map<Key, Entry>): map<Key, seq<Byte>> {
    map k | k in index :: c.compress(Lookup(data, k))
  }

  /** `data` after a save: every key of the index now maps to its chunk, other keys keep their value. */
  function SavedData(c: Codec, data: map<Key, seq<Byte>>, index: map<Key, Entry>): (saved: map<Key, seq<Byte>>)
    ensures saved.Keys == data.Keys + index.Keys
  {
    data + Chunks(c, data, index)
  }

  /** `index` after a save: entries rebuilt over the index's keys in ascending order. */
  ghost function SavedIndex(c: Codec, data: map<Key, seq<Byte>>, index: map<Key, Entry>): (saved: map<Key, Entry>)
    ensures saved.Keys == index.Keys
  {
    IndexForKeys(SortedKeys(index.Keys), SavedData(c, data, index));
    IndexFor(SortedKeys(index.Keys), SavedData(c, data, index))
  }

  /** The header: the compressed gob encoding of the index. */
  function Header(c: Codec, index: map<Key, Entry>): seq<Byte> {
    c.compress(c.encodeHeader(index))
  }

  /** What a save writes before the chunks: the header's length (low 32 bits, big-endian), then the header. */
  ghost function SavedPrefix(c: Codec, data: map<Key, seq<Byte>>, index: map<Key, Entry>): seq<Byte> {
    var hdr := Header(c, SavedIndex(c, data, index));
    BigEndian32(Uint32(|hdr|)) + hdr
  }

  /** The bytes a save writes, from the maps it starts with: the prefix, then every chunk in key order. */
  ghost function SavedFile(c: Codec, data: map<Key, seq<Byte>>, index: map<Key, Entry>): seq<Byte> {
    SavedPrefix(c, data, index) + Body(SortedKeys(index.Keys), SavedData(c, data, index))
  }

  /** A key deleted from `data` but still indexed is back after a save, holding the chunk of nil. */
  lemma DeletedKeyReappears(c: Codec, data: map<Key, seq<Byte>>, index: map<Key, Entry>, k: Key)
    requires k in index && k !in data
    ensures k in SavedData(c, data, index)
    ensures SavedData(c, data, index)[k] == c.compress([])
  {
  }

  /** After a save, each key of the index holds the compressed chunk of the value it held before. */
  lemma SavedChunk(c: Codec, data: map<Key, seq<Byte>>, index: map<Key, Entry>, k: Key)
    requires k in index
    ensures k in SavedData(c, data, index)
    ensures SavedData(c, data, index)[k] == c.compress(Lookup(data, k))
  {
  }

  /** Every indexed key's saved value is its compressed value. */
  lemma SavedChunks(c: Codec, data: map<Key, seq<Byte>>, index: map<Key, Entry>)
    ensures forall k :: k in index ==> Lookup(SavedData(c, data, index), k) == c.compress(Lookup(data, k))
  {
    forall k | k in index ensures Lookup(SavedData(c, data, index), k) == c.compress(Lookup(data, k)) {
      SavedChunk(c, data, index, k);
    }
  }

  /** The `j`-th key in order: its size is its chunk's length, its offset the length of the chunks before it. */
  lemma SavedEntry(c: Codec, data: map<Key, seq<Byte>>, index: map<Key, Entry>, j: nat)
    requires j < |SortedKeys(index.Keys)|
    ensures var ks := SortedKeys(index.Keys);
            var d := SavedData(c, data, index);
            var idx := SavedIndex(c, data, index);
            && ks[j] in idx && ks[j] in d
            && idx[ks[j]].size == |d[ks[j]]|
            && idx[ks[j]].offset == |Body(ks[..j], d)|
  {
    var ks := SortedKeys(index.Keys);
    SortedKeysListing(index.Keys);
    StrictlySortedDistinct(ks);
    IndexForAt(ks, SavedData(c, data, index), j);
  }

  /** Over distinct keys, the first offset is zero and each next one is the previous offset plus its size. */
  lemma IndexForRunningSum(ks: seq<Key>, chunks: map<Key, seq<Byte>>, j: nat)
    requires Distinct(ks) && j < |ks|
    ensures ks[j] in IndexFor(ks, chunks)
    ensures j == 0 ==> IndexFor(ks, chunks)[ks[j]].offset == 0
    ensures j > 0 ==> ks[j - 1] in IndexFor(ks, chunks)
    ensures j > 0 ==> IndexFor(ks, chunks)[ks[j]].offset
                      == IndexFor(ks, chunks)[ks[j - 1]].offset + IndexFor(ks, chunks)[ks[j - 1]].size
  {
    IndexForAt(ks, chunks, j);
    if j > 0 {
      IndexForAt(ks, chunks, j - 1);
      BodyStep(ks, chunks, j - 1);
    } else {
      assert ks[..0] == [];
    }
  }

  /** Offsets are a running sum of sizes over the keys in ascending order, starting at zero. */
  lemma OffsetsArePrefixSums(c: Codec, data: map<Key, seq<Byte>>, index: map<Key, Entry>, j: nat)
    requires j < |SortedKeys(index.Keys)|
    ensures var ks := SortedKeys(index.Keys);
            var idx := SavedIndex(c, data, index);
            && ks[j] in idx
            && (j == 0 ==> idx[ks[j]].offset == 0)
            && (j > 0 ==> ks[j - 1] in idx && idx[ks[j]].offset == idx[ks[j - 1]].offset + idx[ks[j - 1]].size)
  {
    var ks := SortedKeys(index.Keys);
    SortedKeysListing(index.Keys);
    StrictlySortedDistinct(ks);
    IndexForRunningSum(ks, SavedData(c, data, index), j);
  }

  /**
   * Reading the saved file back: its first four bytes give the header's
   * length, the header follows, and the chunks follow the header.
   */
  lemma FileLayout(c: Codec, data: map<Key, seq<Byte>>, index: map<Key, Entry>)
    ensures |SavedPrefix(c, data, index)| == 4 + |Header(c, SavedIndex(c, data, index))|
    ensures |SavedFile(c, data, index)| >= 4 + |Header(c, SavedIndex(c, data, index))|
    ensures FromBigEndian32(SavedFile(c, data, index)[..4]) == Uint32(|Header(c, SavedIndex(c, data, index))|)
    ensures SavedFile(c, data, index)[4..4 + |Header(c, SavedIndex(c, data, index))|] == Header(c, SavedIndex(c, data, index))
    ensures SavedFile(c, data, index)[|SavedPrefix(c, data, index)|..] == Body(SortedKeys(index.Keys), SavedData(c, data, index))
  {
    var hdr := Header(c, SavedIndex(c, data, index));
    var img := SavedFile(c, data, index);
    BigEndian32RoundTrip(Uint32(|hdr|));
    assert img[..4] == BigEndian32(Uint32(|hdr|));
  }

  /**
   * In `img`, a prefix followed by the chunks of strictly sorted keys, the
   * chunk of each key starts at |prefix| plus the offset the index records.
   */
  lemma ChunkOfKey(prefix: seq<Byte>, ks: seq<Key>, chunks: map<Key, seq<Byte>>, k: Key, idx: map<Key, Entry>,
                   img: seq<Byte>, start: int, chunk: seq<Byte>)
    requires StrictlySorted(ks) && k in ks
    requires idx == IndexFor(ks, chunks) && k in idx
    requires img == prefix + Body(ks, chunks) && start == |prefix| + idx[k].offset && chunk == Lookup(chunks, k)
    ensures idx[k].size == |chunk|
    ensures ChunkAtIn(img, start, chunk)
  {
    StrictlySortedDistinct(ks);
    var j :| 0 <= j < |ks| && ks[j] == k;
    IndexForAt(ks, chunks, j);
    var off := |Body(ks[..j], chunks)|;
    assert idx[k] == Entry(off, |chunk|);
    ChunkAt(ks, chunks, j);
    ChunkAfterPrefix(prefix, Body(ks, chunks), off, chunk, img, start);
  }

  /**
   * After a save, the index entry of every indexed key gives where its
   * compressed value lies in the file: `size` bytes from 4 + |header| + `offset`.
   */
  lemma ChunkInFile(c: Codec, data: map<Key, seq<Byte>>, index: map<Key, Entry>, k: Key)
    requires k in index
    ensures k in SavedIndex(c, data, index)
    ensures SavedIndex(c, data, index)[k].size == |c.compress(Lookup(data, k))|
    ensures ChunkAtIn(SavedFile(c, data, index), |SavedPrefix(c, data, index)| + SavedIndex(c, data, index)[k].offset,
                      c.compress(Lookup(data, k)))
  {
    SortedKeysListing(index.Keys);
    SavedChunk(c, data, index, k);
    ChunkOfKey(SavedPrefix(c, data, index), SortedKeys(index.Keys), SavedData(c, data, index), k,
               SavedIndex(c, data, index), SavedFile(c, data, index),
               |SavedPrefix(c, data, index)| + SavedIndex(c, data, index)[k].offset, c.compress(Lookup(data, k)));
  }

  /**
   * A second save stores compress(compress(v)) for each indexed key, which
   * differs from what the first save stored whenever compress is not
   * idempotent on v.
   */
  lemma SecondSaveRecompresses(c: Codec, data: map<Key, seq<Byte>>, index: map<Key, Entry>, k: Key)
    requires k in index
    ensures var d := SavedData(c, data, index);
            var idx := SavedIndex(c, data, index);
            && k in SavedData(c, d, idx)
            && SavedData(c, d, idx)[k] == c.compress(c.compress(Lookup(data, k)))
  {
  }
}
