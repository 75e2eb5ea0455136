# sunduk, modelled in Dafny

sunduk is a small Go key-value store persisted to a single file. A `Sunduk`
keeps two maps in memory:

- `data`, from each key to its value bytes;
- `index`, from each key to an `entry{Offset, Size}` saying where its chunk
  lies in the file.

It also keeps a handle on the store file. `Put` and `PutAll` record values
and then flush. `Delete` drops a value from `data` only. `Get`, `Count` and
`Keys` read `data`.

A flush closes the handle, renames the store file to its `.bak` backup and
saves. A save runs in three steps:

- it walks the indexed keys in Go's string order;
- for each key it replaces the value by its gzip-compressed chunk and indexes
  the chunk at the running total of the sizes of the chunks before it;
- it writes the file: the compressed gob encoding of the index (the header),
  preceded by the header's length as four big-endian bytes, then every chunk
  in key order.

The project has four modules:

- `Bytes` (`bytes.dfy`): bytes, Go's `uint32` truncation, and the big-endian
  length word with its round trip.
- `KeyOrder` (`keyorder.dfy`): Go's byte-wise string order as the predicate
  `Less`, proved a strict total order. Also `sort.Strings` as an insertion
  sort, and `SortedKeys`, the unique ascending listing of a key set.
- `Layout` (`layout.dfy`): the specification of a save as functions of the
  maps it starts from (`SavedData`, `SavedIndex`, `SavedFile`), and the
  lemmas about it:
  - offsets are running sums;
  - each chunk lies in the file where the index says;
  - a deleted but still indexed key reappears;
  - a second save compresses the stored chunks again.
- `Store` (`store.dfy`): the class `Sunduk`. Its methods change the `data`
  and `index` fields, the `fileOpen` flag (whether `file` is non-nil) and a
  ghost counter of flushes. Each method is proved against the Layout
  functions.

Things the model takes as given:

- gzip and gob are a `Codec`, two opaque function values fixed when the store
  is created.
- The outcomes of the file-system calls are inputs:
  - `OpenResult` for `os.Open`;
  - `renameOk` for the backup rename;
  - `createOk` for `os.Create`.

The comment on `Close` (sunduk.go:42) says that write actions re-open the
store. The code does not: `save` writes through a local `file`
(sunduk.go:187), so `store.file` is nil after every flush. The model follows
the code, and `Flush` ensures `!fileOpen`.

A save replaces each indexed value by its compressed bytes (sunduk.go:167).
So after a flush `Get` returns the compressed value, not the value that was
put, and the model says so.

The invariant `Valid()` says that every key with a value is indexed,
`data.Keys <= index.Keys`. `New` establishes it and every operation
preserves it. After a flush whose rename succeeded, `data.Keys == index.Keys`.

## Model

| member | source | states |
|---|---|---|
| Bytes.Uint32 | sunduk.go:192 | `uint32(n)` is below 2^32 and leaves lengths below 2^32 unchanged |
| Bytes.BigEndian32 | sunduk.go:191-193 | the length word is four bytes |
| Bytes.FromBigEndian32 | sunduk.go:191-193 | reading four bytes back gives a value below 2^32 |
| Bytes.BigEndian32RoundTrip | sunduk.go:191-193 | reading back the length word gives the length written |
| Bytes.FromBigEndian32RoundTrip | sunduk.go:191-193 | every four-byte word is the encoding of the value read from it, so the encoding is a bijection |
| KeyOrder.LessIrreflexive | sunduk.go:155 | no key sorts before itself |
| KeyOrder.LessTransitive | sunduk.go:155 | the string order is transitive |
| KeyOrder.LessAsymmetric | sunduk.go:155 | two keys never sort before each other |
| KeyOrder.LessTotal | sunduk.go:155 | any two different keys are ordered one way or the other |
| KeyOrder.Insert | sunduk.go:155 | inserting into a sorted sequence keeps it sorted, adds exactly the new key to its multiset, and keeps it strictly sorted when the key is new |
| KeyOrder.SortStrings | sunduk.go:155 | `sort.Strings`: the result is sorted and a permutation of its input, and strictly sorted when the input keys are distinct |
| KeyOrder.LeastExists | sunduk.go:155 | every non-empty key set has a least key |
| KeyOrder.ListingExists | sunduk.go:151-155 | every key set can be listed in ascending order, each key once |
| KeyOrder.SortedKeysListing | sunduk.go:151-155 | `SortedKeys(s)` lists exactly the keys of `s`, strictly ascending |
| KeyOrder.StrictlySortedUnique | sunduk.go:151-155 | two strictly sorted sequences holding the same keys are equal, so the walk order is determined by the key set |
| KeyOrder.SortedKeysOf | sunduk.go:151-155 | any ascending duplicate-free listing of a key set is `SortedKeys` of that set |
| Layout.IndexForKeys | sunduk.go:162-173 | the index the loop builds holds exactly the keys walked |
| Layout.BodyPrefix | sunduk.go:196-201 | the chunks of the first keys are a prefix of the data region |
| Layout.IndexForAt | sunduk.go:161-173 | over distinct keys, the `j`-th key's entry is (total size of the chunks before it, its chunk's size) |
| Layout.SavedData | sunduk.go:162-171 | after a save, `data` holds every key it held plus every indexed key |
| Layout.SavedIndex | sunduk.go:162-173 | a save neither adds nor removes index keys |
| Layout.DeletedKeyReappears | sunduk.go:74-76 | a key deleted from `data` but still indexed holds the compressed chunk of nil after the next save |
| Layout.SavedChunk | sunduk.go:165-167 | after a save, each indexed key holds the compression of the value it held before (nil when it had none) |
| Layout.SavedEntry | sunduk.go:171 | the `j`-th key's size is its chunk's length and its offset the total length of the chunks before it |
| Layout.IndexForRunningSum | sunduk.go:161-173 | the first walked key is at offset 0 and each next offset is the previous offset plus the previous size |
| Layout.OffsetsArePrefixSums | sunduk.go:161-173 | the same for the saved index over the keys in ascending order |
| Layout.FileLayout | sunduk.go:191-201 | the file starts with the header's length (low 32 bits, big-endian), the header follows, and the chunks follow it in key order |
| Layout.ChunkOfKey | sunduk.go:161-173 | after any prefix, the chunk of each strictly sorted key starts at the length of the prefix plus its recorded offset and runs for its recorded size |
| Layout.ChunkInFile | sunduk.go:161-201 | after a save, in the written file each indexed key's compressed value sits at 4 + \|header\| + its offset and is as long as its size |
| Layout.SecondSaveRecompresses | sunduk.go:165-167 | the second save stores compress(compress(v)) for each indexed key, which differs from the first save's compress(v) whenever compress is not idempotent on v |
| Store.LoadError | sunduk.go:99-115 | loading fails exactly when the file neither opens nor is missing and creatable, and it reports the open error exactly when the file is unreadable |
| Store.Sunduk.New | sunduk.go:28-39 | a new store has empty maps, an open handle, no flushes, `Count() == 0` and the invariant |
| Store.Sunduk.LoadFromDisk | sunduk.go:97-116 | `data` is emptied, the error is the one `LoadError` gives, and the handle is set when the load succeeds |
| Store.Sunduk.Close | sunduk.go:43-49 | the handle is cleared whatever its state, so closing twice is harmless; the maps are unchanged |
| Store.Sunduk.Get | sunduk.go:52-55 | found exactly when the key has a value; then the value, otherwise nil |
| Store.Sunduk.Count | sunduk.go:80-83 | the number of keys with a value, never more than the number indexed |
| Store.Sunduk.Keys | sunduk.go:86-94 | `Count()` keys, pairwise distinct, exactly the keys of `data` |
| Store.Sunduk.Put | sunduk.go:58-62 | the state is flush's result from the maps with `key` recorded; one flush; `Get(key)` finds `key` and the index gains exactly `key`, whether or not the flush succeeds |
| Store.Sunduk.PutAll | sunduk.go:65-71 | the state is flush's result from the maps with every entry recorded at `Entry(0, 0)`; exactly one flush however many entries; every entry's key is then found |
| Store.Sunduk.RecordEntries | sunduk.go:66-69 | the loop over the entries, in the map's iteration order, yields the old values overlaid with the entries and the old index overlaid with a zero entry per key |
| Store.RecordingStep | sunduk.go:66-69 | one turn of PutAll's loop records one more key and keeps the loop's invariant `Recording` |
| Store.RecordingDone | sunduk.go:66-69 | when no key is left, every entry is recorded |
| Store.Sunduk.Delete | sunduk.go:74-77 | `key` loses its value and is not found; the index, the handle and the flush count are unchanged |
| Store.Sunduk.Flush | sunduk.go:121-141 | the handle is cleared; a failed rename changes nothing else and reports the backup error; otherwise the state is the save's, the index keeps its keys, and every indexed key has a value |
| Store.Sunduk.Save | sunduk.go:144-204 | the new `data` and `index` are `SavedData` and `SavedIndex` of the old maps, and the bytes written are `SavedFile`; a failed create reports its error after the maps are rewritten |
| Store.Sunduk.SortedIndexKeys | sunduk.go:151-155 | the collected and sorted keys are `SortedKeys` of the index keys |
| Store.Sunduk.CollectKeys | sunduk.go:151-154 | every index key once, in the map's iteration order |
| Store.Sunduk.RewriteChunks | sunduk.go:161-173 | after the loop each walked key holds its chunk and is indexed at the running offset, so the maps are `Rewritten` and `index + IndexFor` |
| Store.Sunduk.WriteFile | sunduk.go:191-201 | the bytes written are the length word, the header, then each key's chunk in the sorted order |
| Store.RewritingStep | sunduk.go:162-173 | one turn of save's loop keeps the loop's invariant `Rewriting` |
| Store.RewritingDone | sunduk.go:162-173 | when the walk ends every indexed key has been rewritten and indexed |
| Store.SaveDone | sunduk.go:162-173 | the loop's result equals `SavedData` and `SavedIndex` |
| Store.Rewritten | sunduk.go:165-167 | the values after rewriting the keys of `done` keep the old keys and add `done` |

## Left out

- gzip and gob are opaque functions. An error from `gob.Encode` (sunduk.go:178-181) is not modelled: `encodeHeader` is total.
- File-system calls are reduced to their outcomes (`OpenResult`, `renameOk`, `createOk`). `FilePath` and the `.bak` name are not used.
- Store.Sunduk.WriteFile: every `file.Write` is taken to write all its bytes. The early return on a zero-length or failed write (sunduk.go:197-199) is not modelled. It cannot trigger on a gzip chunk, which always holds at least the gzip header.
- Store.Sunduk.Flush: the backup's remove-then-restore sequence (sunduk.go:133-135, 139) is not modelled. On a failed save the model reports `CreateFailed` with the maps already rewritten, as the code leaves them.
- Store.Sunduk.New: `New` panics when loading fails (sunduk.go:35-37); the model requires a successful load instead.
- `loadFromDisk` never reads the file's contents, so there is no persistence across a reopen to model.
- The `err` returned by `Delete` is always nil and is not modelled.
- The `offset` field of `Sunduk` (sunduk.go:22) is never used and is not modelled.
- `Offset` and `Size` are unbounded integers, so `int64` overflow is not modelled.
- Store.Sunduk.SortedIndexKeys: `sort.Strings` is modelled as an insertion sort on a sequence, not as the in-place sort of Go's library.
- Store.Sunduk.RewriteChunks: the loop runs on local copies of `data` and `index`, and `Save` assigns them back once it ends. Nothing else runs in between, so the result is the same.
- Store.Sunduk.RecordEntries: PutAll's loop (sunduk.go:66-69) likewise runs on local copies that `PutAll` assigns back before it flushes.
- Layout.Codec: `gob.Encode` of a map (sunduk.go:177-178) writes its entries in Go's random map order, so the header's bytes, and its compressed length, can differ between two saves of the same index. The model fixes one encoding per index, so it does not capture that two such saves may write different files.
- Go's random map iteration order (in `Keys`, `PutAll` and save's key collection) is an arbitrary choice of the next key.
- The `store.file.Close()` at sunduk.go:186 acts on a handle flush has already cleared, so it changes nothing.
