/**
 * The store itself: a key-value map kept in memory next to an index of where
 * each key's compressed value lies in the store file, and a handle on that
 * file. Every write flushes: the file is backed up, then rewritten in full.
 */
module Store {
  import opened Bytes
  import opened KeyOrder
  import opened Layout

  datatype Option<T> = None | Some(value: T)

  /** Why an operation on the store file failed. */
  datatype Error =
    | OpenFailed    // os.Open failed for a reason other than a missing file
    | CreateFailed  // os.Create of the store file failed
    | BackupFailed  // renaming the store file to its `.bak` backup failed

  /** What os.Open reports for the store file. */
  datatype OpenResult = Opened | NotExist | Unreadable

  /** The result of a flush: the bytes written to the store file, or the error returned. */
  datatype Outcome = Flushed(file: seq<Byte>) | Failed(error: Error)

  /** loadFromDisk's result: it succeeds when the file opens, or is missing and can be created. */
  function LoadError(open: OpenResult, createOk: bool): (e: Option<Error>)
    ensures e.None? <==> open == Opened || (open == NotExist && createOk)
    ensures e == Some(OpenFailed) <==> open == Unreadable
  {
    match open
    case Opened => None
    case NotExist => if createOk then None else Some(CreateFailed)
    case Unreadable => Some(OpenFailed)
  }

  /** A subset has no more elements than its superset. */
  lemma {:induction false} SubsetCardinality(a: set<Key>, b: set<Key>)
    requires a <= b
    ensures |a| <= |b|
    decreases |a|
  {
    if a != {} {
      var x :| x in a;
      SubsetCardinality(a - {x}, b - {x});
    }
  }

  class Sunduk {
    /** FilePath: where the store is persisted. */
    const filePath: string
    /** The compressor and header encoder every save uses. */
    const codec: Codec
    /** Whether the `file` handle is set (non-nil). */
    var fileOpen: bool
    var data: map<Key, seq<Byte>>
    var index: map<Key, Entry>
    /** How many times flush has run, to state how often a write flushes. */
    ghost var flushes: nat

    /** Every key with a value is indexed: Delete drops values only, and every write indexes its keys. */
    ghost predicate Valid()
      reads this
    {
      data.Keys <= index.Keys
    }

    /** The state flush leaves behind, from the maps `d` and `i` it started from, and what it returns. */
    ghost predicate FlushedFrom(d: map<Key, seq<Byte>>, i: map<Key, Entry>, renameOk: bool, createOk: bool, r: Outcome)
      reads this
    {
      && !fileOpen
      && (if !renameOk then
            data == d && index == i && r == Failed(BackupFailed)
          else
            && data == SavedData(codec, d, i)
            && index == SavedIndex(codec, d, i)
            && r == (if createOk then Flushed(SavedFile(codec, d, i)) else Failed(CreateFailed)))
    }

    /** New: an empty store over `filePath`. Go's `New` panics when loading fails (sunduk.go:35-37), so loading must succeed. */
    constructor New(filePath: string, codec: Codec, open: OpenResult, createOk: bool)
      requires LoadError(open, createOk).None?
      ensures this.filePath == filePath && this.codec == codec
      ensures data == map[] && index == map[] && fileOpen && flushes == 0
      ensures Valid() && Count() == 0
    {
      this.filePath := filePath;
      this.codec := codec;
      data := map[];
      index := map[];
      fileOpen := false;
      flushes := 0;
      new;
      var err := LoadFromDisk(open, createOk);
    }

    /** loadFromDisk: drops every value, then opens the store file or creates it when missing. */
    method LoadFromDisk(open: OpenResult, createOk: bool) returns (err: Option<Error>)
      modifies this
      ensures err == LoadError(open, createOk)
      ensures data == map[] && index == old(index) && flushes == old(flushes)
      ensures fileOpen == (err.None? || old(fileOpen))
    {
      data := map[];
      if open == Opened {
        fileOpen := true;
        return None;
      }
      if open == NotExist {
        if !createOk {
          return Some(CreateFailed);
        }
        fileOpen := true;
        return None;
      }
      return Some(OpenFailed);
    }

    /** Close: releases the file handle if there is one; closing twice is harmless. */
    method Close()
      modifies this
      ensures !fileOpen
      ensures data == old(data) && index == old(index) && flushes == old(flushes)
    {
      if !fileOpen {
        return;
      }
      fileOpen := false;
    }

    /** Get: the value of `key`, or nil, and whether `key` has a value. */
    function Get(key: Key): (r: (seq<Byte>, bool))
      reads this
      ensures r.1 <==> key in data
      ensures r.1 ==> r.0 == data[key]
      ensures !r.1 ==> r.0 == []
    {
      if key in data then (data[key], true) else ([], false)
    }

    /** Count: the number of keys with a value, never more than the number indexed. */
    function Count(): (n: nat)
      reads this
      ensures n == |data.Keys|
      ensures Valid() ==> n <= |index|
    {
      SubsetCardinalityOfValid();
      |data|
    }

    lemma SubsetCardinalityOfValid()
      ensures Valid() ==> |data| <= |index|
    {
      if Valid() {
        SubsetCardinality(data.Keys, index.Keys);
      }
    }

    /** Keys: every key with a value, once each, in the map's iteration order. */
    method Keys() returns (keys: seq<Key>)
      ensures |keys| == Count()
      ensures Distinct(keys)
      ensures forall k :: k in keys <==> k in data
    {
      var out := new Key[|data|](_ => []);
      var i := 0;
      var rest := data.Keys;
      while rest != {}
        invariant 0 <= i <= out.Length
        invariant rest <= data.Keys
        invariant i + |rest| == |data|
        invariant Distinct(out[..i])
        invariant forall k :: k in out[..i] <==> k in data && k !in rest
        decreases |rest|
      {
        var k :| k in rest;
        out[i] := k;
        assert out[..i + 1] == out[..i] + [k];
        i := i + 1;
        rest := rest - {k};
      }
      keys := out[..];
      assert out[..i] == keys;
    }

    /**
     * Put: records `key` with `value`, sized `len(value)` until the flush that
     * follows rewrites the index. When the flush gets as far as saving, every
     * indexed key holds a value again, deleted ones included.
     */
    method Put(key: Key, value: seq<Byte>, renameOk: bool, createOk: bool) returns (r: Outcome)
      modifies this
      ensures FlushedFrom(old(data)[key := value], old(index)[key := Entry(0, |value|)], renameOk, createOk, r)
      ensures flushes == old(flushes) + 1
      ensures Get(key).1 && index.Keys == old(index).Keys + {key}
      ensures old(Valid()) ==> Valid() && (renameOk ==> data.Keys == index.Keys)
    {
      index := index[key := Entry(0, |value|)];
      data := data[key := value];
      assert index.Keys == old(index).Keys + {key};
      r := Flush(renameOk, createOk);
    }

    /** PutAll: records every entry, each sized 0 until the single flush that follows. */
    method PutAll(entries: map<Key, seq<Byte>>, renameOk: bool, createOk: bool) returns (r: Outcome)
      modifies this
      ensures FlushedFrom(old(data) + entries, old(index) + ZeroEntries(entries.Keys), renameOk, createOk, r)
      ensures flushes == old(flushes) + 1
      ensures forall k :: k in entries ==> Get(k).1
      ensures index.Keys == old(index).Keys + entries.Keys
      ensures old(Valid()) ==> Valid() && (renameOk ==> data.Keys == index.Keys)
    {
      var values, indexed := RecordEntries(entries);
      data, index := values, indexed;
      assert index.Keys == old(index).Keys + entries.Keys;
      r := Flush(renameOk, createOk);
    }

    /** PutAll's loop: each entry's value and a zero entry, recorded one key at a time in the map's iteration order. */
    method RecordEntries(entries: map<Key, seq<Byte>>) returns (values: map<Key, seq<Byte>>, indexed: map<Key, Entry>)
      ensures values == data + entries
      ensures indexed == index + ZeroEntries(entries.Keys)
    {
      values, indexed := data, index;
      var rest := entries.Keys;
      ghost var done: set<Key> := {};
      while rest != {}
        invariant Recording(data, index, entries, rest, done, values, indexed)
        decreases |rest|
      {
        var k :| k in rest;
        ghost var rest0, done0, values0, indexed0 := rest, done, values, indexed;
        values := values[k := entries[k]];
        indexed := indexed[k := Entry(0, 0)];
        rest := rest - {k};
        done := done + {k};
        RecordingStep(data, index, entries, rest0, done0, values0, indexed0, k, rest, done, values, indexed);
      }
      RecordingDone(data, index, entries, done, values, indexed);
    }

    /** Delete: drops the value of `key`; the index keeps its entry and nothing is flushed. */
    method Delete(key: Key)
      modifies this
      ensures data == old(data) - {key} && !Get(key).1
      ensures index == old(index) && fileOpen == old(fileOpen) && flushes == old(flushes)
      ensures old(Valid()) ==> Valid()
    {
      data := data - {key};
    }

    /**
     * flush: closes the file, backs it up, and saves. When the backup rename
     * fails nothing else happens; `file` stays nil in every case, because save
     * writes through a handle of its own.
     */
    method Flush(renameOk: bool, createOk: bool) returns (r: Outcome)
      modifies this
      ensures FlushedFrom(old(data), old(index), renameOk, createOk, r)
      ensures flushes == old(flushes) + 1
      ensures index.Keys == old(index).Keys
      ensures data.Keys == if renameOk then old(data).Keys + old(index).Keys else old(data).Keys
      ensures old(Valid()) ==> Valid()
      ensures old(Valid()) && renameOk ==> data.Keys == index.Keys
    {
      Close();
      flushes := flushes + 1;
      if !renameOk {
        return Failed(BackupFailed);
      }
      r := Save(createOk);
    }

    /**
     * save: walks the indexed keys in ascending order, replacing each value by
     * its compressed chunk and indexing it at the running sum of the chunk
     * sizes before it; then writes the header's length, the header and the chunks.
     */
    method Save(createOk: bool) returns (r: Outcome)
      modifies this
      ensures data == SavedData(codec, old(data), old(index))
      ensures index == SavedIndex(codec, old(data), old(index))
      ensures r == if createOk then Flushed(SavedFile(codec, old(data), old(index))) else Failed(CreateFailed)
      ensures fileOpen == old(fileOpen) && flushes == old(flushes)
    {
      var sorted := SortedIndexKeys();
      ghost var chunks := SavedData(codec, data, index);
      SortedKeysListing(index.Keys);
      StrictlySortedDistinct(sorted);
      SavedChunks(codec, data, index);
      data, index := RewriteChunks(sorted, chunks);
      SaveDone(codec, old(data), old(index), sorted);
      var header := codec.compress(codec.encodeHeader(index));
      if !createOk {
        return Failed(CreateFailed);
      }
      var file := WriteFile(header, sorted);
      r := Flushed(file);
    }

    /** The indexed keys, collected in the map's iteration order and then sorted with sort.Strings. */
    method SortedIndexKeys() returns (sorted: seq<Key>)
      ensures sorted == SortedKeys(index.Keys)
      ensures forall k :: k in sorted <==> k in index
    {
      var keys := CollectKeys();
      sorted := SortStrings(keys);
      assert Listing(sorted, index.Keys) by {
        forall k ensures k in sorted <==> k in index {
          assert k in sorted <==> k in multiset(sorted);
          assert k in keys <==> k in multiset(keys);
        }
      }
      SortedKeysOf(sorted, index.Keys);
    }

    /**
     * save's loop over the sorted keys: each key's value becomes its chunk,
     * and its entry records the running offset and the chunk's size.
     */
    method RewriteChunks(sorted: seq<Key>, ghost chunks: map<Key, seq<Byte>>) returns (values: map<Key, seq<Byte>>, entries: map<Key, Entry>)
      requires Distinct(sorted) && forall k :: k in sorted <==> k in index
      requires forall k :: k in index ==> Lookup(chunks, k) == codec.compress(Lookup(data, k))
      ensures values == Rewritten(data, chunks, index.Keys)
      ensures entries == index + IndexFor(sorted, chunks)
    {
      values, entries := data, index;
      var offset := 0;
      var i := 0;
      ghost var done: set<Key> := {};
      while i < |sorted|
        invariant i <= |sorted|
        invariant Rewriting(data, index, chunks, sorted, i, done, values, entries, offset)
      {
        var k := sorted[i];
        ghost var values0, entries0, offset0, done0 := values, entries, offset, done;
        var v := Lookup(values, k);
        values := values[k := codec.compress(v)];
        entries := entries[k := Entry(offset, |values[k]|)];
        offset := offset + entries[k].size;
        done := done + {k};
        RewritingStep(codec, data, index, chunks, sorted, i, done0, values0, entries0, offset0, done, values, entries, offset);
        i := i + 1;
      }
      RewritingDone(data, index, chunks, sorted, done, values, entries, offset);
    }

    /** save's writes: the header's length as four big-endian bytes, the header, then each key's chunk in order. */
    method WriteFile(header: seq<Byte>, sorted: seq<Key>) returns (file: seq<Byte>)
      ensures file == BigEndian32(Uint32(|header|)) + header + Body(sorted, data)
    {
      file := BigEndian32(Uint32(|header|)) + header;
      for j := 0 to |sorted|
        invariant file == BigEndian32(Uint32(|header|)) + header + Body(sorted[..j], data)
      {
        BodyStep(sorted, data, j);
        file := file + Lookup(data, sorted[j]);
      }
      assert sorted[..|sorted|] == sorted;
    }

    /** The keys of the index, once each, in the map's iteration order. */
    method CollectKeys() returns (keys: seq<Key>)
      ensures Distinct(keys)
      ensures forall k :: k in keys <==> k in index
    {
      keys := [];
      var rest := index.Keys;
      while rest != {}
        invariant rest <= index.Keys
        invariant Distinct(keys)
        invariant forall k :: k in keys <==> k in index && k !in rest
        decreases |rest|
      {
        var k :| k in rest;
        keys := keys + [k];
        rest := rest - {k};
      }
    }
  }

  /** PutAll's loop with the keys of `rest` still to record: the others are recorded over the maps it started from. */
  ghost predicate Recording(data: map<Key, seq<Byte>>, index: map<Key, Entry>, entries: map<Key, seq<Byte>>, rest: set<Key>,
                            done: set<Key>, values: map<Key, seq<Byte>>, indexed: map<Key, Entry>)
  {
    && rest <= entries.Keys && done == entries.Keys - rest
    && values == data + Restrict(entries, done)
    && indexed == index + ZeroEntries(done)
  }

  /** One turn of PutAll's loop records one more key. */
  lemma RecordingStep(data: map<Key, seq<Byte>>, index: map<Key, Entry>, entries: map<Key, seq<Byte>>,
                      rest: set<Key>, done: set<Key>, values: map<Key, seq<Byte>>, indexed: map<Key, Entry>, k: Key,
                      rest': set<Key>, done': set<Key>, values': map<Key, seq<Byte>>, indexed': map<Key, Entry>)
    requires Recording(data, index, entries, rest, done, values, indexed) && k in rest
    requires rest' == rest - {k} && done' == done + {k}
    requires values' == values[k := entries[k]] && indexed' == indexed[k := Entry(0, 0)]
    ensures Recording(data, index, entries, rest', done', values', indexed')
  {
    RestrictStep(data, entries, done, k);
    ZeroEntriesStep(index, done, k);
  }

  /** When no key is left, every entry is recorded. */
  lemma RecordingDone(data: map<Key, seq<Byte>>, index: map<Key, Entry>, entries: map<Key, seq<Byte>>,
                      done: set<Key>, values: map<Key, seq<Byte>>, indexed: map<Key, Entry>)
    requires Recording(data, index, entries, {}, done, values, indexed)
    ensures values == data + entries
    ensures indexed == index + ZeroEntries(entries.Keys)
  {
    assert done == entries.Keys;
    RestrictAll(entries, done);
  }

  /** The entries of `m` whose keys are in `ks`. */
  function Restrict(m: map<Key, seq<Byte>>, ks: set<Key>): (r: map<Key, seq<Byte>>)
    requires ks <= m.Keys
    ensures r.Keys == ks && forall k :: k in r ==> r[k] == m[k]
  {
    map k | k in ks :: m[k]
  }

  /** The placeholder entry PutAll gives each of `ks`. */
  function ZeroEntries(ks: set<Key>): (r: map<Key, Entry>)
    ensures r.Keys == ks && forall k :: k in r ==> r[k] == Entry(0, 0)
  {
    map k | k in ks :: Entry(0, 0)
  }

  lemma RestrictStep(d: map<Key, seq<Byte>>, m: map<Key, seq<Byte>>, done: set<Key>, k: Key)
    requires done <= m.Keys && k in m
    ensures (d + Restrict(m, done))[k := m[k]] == d + Restrict(m, done + {k})
  {
  }

  lemma ZeroEntriesStep(i: map<Key, Entry>, done: set<Key>, k: Key)
    ensures (i + ZeroEntries(done))[k := Entry(0, 0)] == i + ZeroEntries(done + {k})
  {
  }

  lemma RestrictAll(m: map<Key, seq<Byte>>, ks: set<Key>)
    requires ks == m.Keys
    ensures Restrict(m, ks) == m
  {
  }

  /** The values after save has rewritten the keys of `done`: their chunks, over the values before. */
  function Rewritten(d: map<Key, seq<Byte>>, chunks: map<Key, seq<Byte>>, done: set<Key>): (r: map<Key, seq<Byte>>)
    ensures r.Keys == d.Keys + done
  {
    d + map k | k in done :: Lookup(chunks, k)
  }

  /** save's loop after `i` keys: they are the keys of `done`, rewritten and indexed, and `offset` is their chunks' total size. */
  ghost predicate Rewriting(data: map<Key, seq<Byte>>, index: map<Key, Entry>, chunks: map<Key, seq<Byte>>, sorted: seq<Key>,
                            i: nat, done: set<Key>, values: map<Key, seq<Byte>>, entries: map<Key, Entry>, offset: int)
  {
    && i <= |sorted|
    && (forall k :: k in done <==> k in sorted[..i])
    && values == Rewritten(data, chunks, done)
    && entries == index + IndexFor(sorted[..i], chunks)
    && offset == |Body(sorted[..i], chunks)|
  }

  /** One turn of save's loop: the next key still holds its old value, whose compression is its chunk. */
  lemma RewritingStep(c: Codec, data: map<Key, seq<Byte>>, index: map<Key, Entry>, chunks: map<Key, seq<Byte>>, sorted: seq<Key>, i: nat,
                      done: set<Key>, values: map<Key, seq<Byte>>, entries: map<Key, Entry>, offset: int,
                      done': set<Key>, values': map<Key, seq<Byte>>, entries': map<Key, Entry>, offset': int)
    requires Distinct(sorted) && forall k :: k in sorted <==> k in index
    requires forall k :: k in index ==> Lookup(chunks, k) == c.compress(Lookup(data, k))
    requires Rewriting(data, index, chunks, sorted, i, done, values, entries, offset) && i < |sorted|
    requires values' == values[sorted[i] := c.compress(Lookup(values, sorted[i]))]
    requires entries' == entries[sorted[i] := Entry(offset, |values'[sorted[i]]|)]
    requires offset' == offset + entries'[sorted[i]].size && done' == done + {sorted[i]}
    ensures Rewriting(data, index, chunks, sorted, i + 1, done', values', entries', offset')
  {
    var k := sorted[i];
    assert k !in done && k in index by {
      assert k !in sorted[..i];
    }
    ValuesStep(c, data, index, chunks, done, values, k, values');
    EntriesStep(index, sorted, chunks, i, entries, offset, values'[k], entries', offset');
    PrefixStep(sorted, i);
  }

  /** The next key's value becomes its chunk. */
  lemma ValuesStep(c: Codec, data: map<Key, seq<Byte>>, index: map<Key, Entry>, chunks: map<Key, seq<Byte>>,
                   done: set<Key>, values: map<Key, seq<Byte>>, k: Key, values': map<Key, seq<Byte>>)
    requires k in index && k !in done
    requires forall k :: k in index ==> Lookup(chunks, k) == c.compress(Lookup(data, k))
    requires values == Rewritten(data, chunks, done)
    requires values' == values[k := c.compress(Lookup(values, k))]
    ensures values' == Rewritten(data, chunks, done + {k})
  {
    RewrittenStep(data, chunks, done, k);
  }

  /** The next key is indexed at the running offset, which then grows by its chunk's size. */
  lemma EntriesStep(index: map<Key, Entry>, sorted: seq<Key>, chunks: map<Key, seq<Byte>>, i: nat,
                    entries: map<Key, Entry>, offset: int, chunk: seq<Byte>, entries': map<Key, Entry>, offset': int)
    requires i < |sorted| && chunk == Lookup(chunks, sorted[i])
    requires entries == index + IndexFor(sorted[..i], chunks) && offset == |Body(sorted[..i], chunks)|
    requires entries' == entries[sorted[i] := Entry(offset, |chunk|)] && offset' == offset + |chunk|
    ensures entries' == index + IndexFor(sorted[..i + 1], chunks) && offset' == |Body(sorted[..i + 1], chunks)|
  {
    IndexForStep(index, sorted, chunks, i);
    BodyStep(sorted, chunks, i);
  }

  /** When the loop ends every indexed key has been rewritten. */
  lemma RewritingDone(data: map<Key, seq<Byte>>, index: map<Key, Entry>, chunks: map<Key, seq<Byte>>, sorted: seq<Key>,
                      done: set<Key>, values: map<Key, seq<Byte>>, entries: map<Key, Entry>, offset: int)
    requires forall k :: k in sorted <==> k in index
    requires Rewriting(data, index, chunks, sorted, |sorted|, done, values, entries, offset)
    ensures values == Rewritten(data, chunks, index.Keys)
    ensures entries == index + IndexFor(sorted, chunks)
  {
    assert sorted[..|sorted|] == sorted;
    assert done == index.Keys;
  }

  /** Rewriting a key not yet rewritten: it still held its old value, and now holds its chunk. */
  lemma RewrittenStep(d: map<Key, seq<Byte>>, chunks: map<Key, seq<Byte>>, done: set<Key>, k: Key)
    requires k !in done
    ensures Lookup(Rewritten(d, chunks, done), k) == Lookup(d, k)
    ensures Rewritten(d, chunks, done)[k := Lookup(chunks, k)] == Rewritten(d, chunks, done + {k})
  {
  }

  /** Indexing the next key at the length of the chunks before it extends the index by that key. */
  lemma IndexForStep(i0: map<Key, Entry>, ks: seq<Key>, chunks: map<Key, seq<Byte>>, i: nat)
    requires i < |ks|
    ensures (i0 + IndexFor(ks[..i], chunks))[ks[i] := Entry(|Body(ks[..i], chunks)|, |Lookup(chunks, ks[i])|)]
            == i0 + IndexFor(ks[..i + 1], chunks)
  {
    assert ks[..i + 1][..i] == ks[..i];
  }

  /** After the loop every indexed key is rewritten, which is what SavedData and SavedIndex describe. */
  lemma SaveDone(c: Codec, d0: map<Key, seq<Byte>>, i0: map<Key, Entry>, sorted: seq<Key>)
    requires sorted == SortedKeys(i0.Keys) && forall k :: k in sorted <==> k in i0
    ensures Rewritten(d0, SavedData(c, d0, i0), i0.Keys) == SavedData(c, d0, i0)
    ensures i0 + IndexFor(sorted, SavedData(c, d0, i0)) == SavedIndex(c, d0, i0)
  {
    IndexForKeys(sorted, SavedData(c, d0, i0));
  }
}
