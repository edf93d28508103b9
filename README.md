# zyxindex in Dafny

zyxindex is a read-only key/value lookup index over an append-only data log.
The log is a sequence of records `(keySize: uint64 LE, key, valueSize: uint64 LE, value)`.
Opening a database either loads an existing index (a manifest plus 256 hash-table files) or builds one.
To build one, it scans the log and fingerprints each key to a 64-bit hash.
The top byte of the hash picks one of 256 shards.
The low 7 bytes are the shard-local key, and the low 5 bytes of the record's start offset are the value.
Each shard is written as a closed-hash (linear probing) table file:

- an 8-byte slot count (the smallest power of two at least three times the key count);
- then 12-byte slots, where an empty slot holds the sentinel `00×7 0F×5`.

A lookup goes from the fingerprint to the shard, then to a probe for the shard key, then to the offset.
It then re-reads the record at that offset and accepts it only if the stored key equals the requested one.

The model is split into modules:

- `Bits`: bytes, `uint64`, little-endian values of byte strings, and `&`.
- `Io`: Go's error values and the semantics of `ReadAt`, `io.ReadFull` and `Seek`, over a `File` class holding bytes and a cursor.
- `Encoding`: the 7-byte key and 5-byte offset packing.
- `Probing`: the probing table as a pure value (`seq<Option<Slot>>`), with the insertion and lookup that specify the imperative code.
- `Hashtable`: `Generate` over arrays `slots`/`hit` writing to a `File`, the on-disk layout, `OpenHashTable`, and `HashTable.Get`.
- `Shard`: `calcShard`, `Shards.Get`, and `LoadFromManifest`.
- `Builder`: the classes `ShardBuilder` (a scratch file and key count) and `ShardsBuilder` (256 of them), and `BuildShards`.
- `Db`: the `preLoad` scan loop, the record-verifying `Get`, and `Open`.

The key fingerprint (FNV-1 64-bit, `fnv.New64`, in the source) is the parameter `fp`.
Files are byte sequences, and table files are passed in as `Result`s of byte sequences.
The manifest file is the `manifest` field of `DB`.

## Model

| member | source | states |
|---|---|---|
| Encoding.LittleEndianKey | shard.go:12-15 | the decoded key fits in 7 bytes |
| Encoding.LittleEndianOffset | shard.go:30-33 | the decoded offset fits in 5 bytes |
| Encoding.LittleEndianPutKey | shard.go:18-27 | the first 7 bytes of the buffer become the low 7 little-endian bytes of k; the rest of the buffer is untouched |
| Encoding.LittleEndianPutOffset | shard.go:36-43 | the first 5 bytes become the low 5 little-endian bytes of v; the rest is untouched |
| Encoding.KeyRoundTrip | shard.go:12-27 | decoding an encoded key gives k mod 2^56 (the top byte is dropped) |
| Encoding.KeyBytesRoundTrip | shard.go:12-27 | encoding a decoded key gives back the 7 bytes |
| Encoding.KeyIsLowBytes | shard.go:18-27 | the 7 key bytes are the first 7 bytes of the 8-byte little-endian form |
| Encoding.OffsetRoundTrip | shard.go:30-43 | decoding an encoded offset gives v mod 2^40 |
| Encoding.OffsetIsLowBytes | shard.go:36-43 | the 5 offset bytes are the first 5 bytes of the 8-byte form |
| Shard.ShardId | shard.go:81 | the shard id is below 256 |
| Shard.ShardKey | shard.go:79-80 | the shard key is 7 bytes |
| Shard.CalcShard | shard.go:78-83 | returns exactly the shard id and shard key of the hash |
| Shard.ShardIdIsTopByte | shard.go:81 | hash64 >> 56 is below 256 and equals byte 7 of the little-endian form |
| Shard.CalcShardLossless | shard.go:78-83 | id·2^56 + key value reconstructs the hash |
| Shard.CalcShardInjective | shard.go:78-83 | two hashes with the same id and key are equal |
| Shard.ShardsGet | shard.go:86-94 | an offset found is below 2^40; every error is NotExist, an I/O error or a panic |
| Shard.ShardsGetRoutes | shard.go:86-94 | the result is that of the id's table on the shard key, with a hit decoded as an offset and an error passed through; other shards do not matter |
| Shard.MissingShardPanics | shard.go:86-88 | a lookup routed to an absent (nil) table panics |
| Shard.OpenShard | shard.go:62-67 | a failed open fails, and a successful one is OpenHashTable on the file contents |
| Shard.CheckManifest | shard.go:55-60 | only version 1 with 256 shards passes; anything else panics |
| Shard.LoadFromManifest | shard.go:54-75 | corrected: succeeds iff the manifest is (1, 256) and all 256 tables open; then every shard is its opened table; otherwise it reports the first failing table's error |
| Shard.LoadFromManifestAsWritten | shard.go:54-75 | as written: the error is only the manifest check; a table that fails to open is silently left absent |
| Hashtable.NextSlot | hashtable.go:67-73 | the next slot stays below the slot count |
| Hashtable.NextSlotMod | hashtable.go:67-73 | nextSlot(s, n) == (s + 1) mod n |
| Hashtable.NextSlotPos | hashtable.go:99-105 | nextSlot moves the j-th probe position to the (j+1)-th |
| Hashtable.MuskFrom | hashtable.go:82-84 | the loop ends at the first exponent whose power of two reaches the bound |
| Hashtable.SlotCountFor | hashtable.go:81-85 | the slot count is at least 1 and at least 3·keycount, and below 6·keycount unless it is 1 |
| Hashtable.SlotCountMinimal | hashtable.go:81-85 | the slot count is the least power of two that is at least 3·keycount |
| Hashtable.SlotCountExamples | hashtable.go:81-85 | 0 keys give 1 slot, 3 keys 16, and 10 keys 32 |
| Hashtable.SlotCount | hashtable.go:81-85 | the shift loop computes SlotCountFor |
| Hashtable.Cell | hashtable.go:117-122 | an empty slot is written as the sentinel and an occupied one as its pair |
| Hashtable.Serialize | hashtable.go:109-127 | the table file is 8 + 12·slotCount bytes |
| Hashtable.SerializeAt | hashtable.go:117-126 | slot p sits at bytes 8+12p .. 8+12p+12 |
| Hashtable.BuildMembers | hashtable.go:90-107 | every occupied slot holds one of the input pairs |
| Hashtable.ReadPair | builder.go:175-185 | a pair is read iff 12 bytes remain, and it is those bytes |
| Hashtable.ReadPairs | hashtable.go:90-96 | keycount reads succeed iff 12·keycount bytes remain, giving keycount pairs |
| Hashtable.ReadPairsError | hashtable.go:93-96 | a short source fails with io.EOF at a pair or key boundary, else io.ErrUnexpectedEOF |
| Hashtable.ReadNext | builder.go:175-185 | reads 7 key bytes then 5 value bytes from the cursor and advances 12 |
| Hashtable.FirstFree | hashtable.go:98-106 | finds a slot iff a free one exists; it is the first free slot on the probe path from the key's home slot |
| Hashtable.Place | hashtable.go:98-106 | the arrays afterwards hold the pure Insert of the pair into the old table |
| Hashtable.WriteSlot | hashtable.go:117-126 | writes the slot's 12 bytes (or the sentinel) at the cursor |
| Hashtable.Flush | hashtable.go:109-127 | writes exactly the serialized table at the cursor |
| Hashtable.ReadAndPlace | hashtable.go:90-107 | one round reads the next pair and places it; a read error ends the whole read with that error |
| Hashtable.Fill | hashtable.go:87-107 | the placing loop fails with the source's read error, or leaves the arrays holding Build of all pairs read |
| Hashtable.Generate | hashtable.go:80-128 | on a read error nothing is written; otherwise it writes Serialize(Build(pairs, SlotCountFor(keycount))) |
| Hashtable.Walk | hashtable.go:148-162 | a probe loop returns a 5-byte value, NotExist, or a read error |
| Hashtable.HashTable.ReadSlot | hashtable.go:149-153 | a slot read gives 12 bytes or a read error |
| Hashtable.HashTable.Find | hashtable.go:145-163 | a hit is 5 bytes; a key shorter than 7 bytes panics |
| Hashtable.HashTable.Get | hashtable.go:145-163 | the probing loop computes Find |
| Hashtable.OpenHashTable | hashtable.go:131-139 | opening succeeds iff the file holds the 8-byte header (else io.EOF); the slot count is that header |
| Hashtable.OpenSerialized | hashtable.go:131-139 | opening a serialized table reads back its slot count |
| Hashtable.SlotRead | hashtable.go:149-150 | reading slot p of a serialized table gives that slot's cell |
| Hashtable.FindSerialized | hashtable.go:145-163 | a lookup in a serialized sentinel-free table equals the pure Lookup |
| Hashtable.GenerateGet | hashtable.go:80-163 | Get on a generated table returns the value of the first pair with the key, else NotExist |
| Probing.Empty | hashtable.go:87-88 | a fresh table has n empty slots |
| Probing.Home | hashtable.go:98 | the home slot is below the slot count |
| Probing.HomeIsMod | hashtable.go:98 | for a power-of-two slot count, key & (slotCount - 1) is the key modulo the slot count |
| Probing.FreeFrom | hashtable.go:99-106 | the probe distance to the first free slot; every slot before it is occupied |
| Probing.Insert | hashtable.go:98-106 | insertion keeps the table size |
| Probing.InsertPlaces | hashtable.go:98-106 | insertion fills the first free slot on the probe path and changes nothing else |
| Probing.BuildSnoc | hashtable.go:90-107 | building with one more pair inserts it into the earlier table |
| Probing.Probe | hashtable.go:148-162 | a probe hit is a 5-byte value |
| Probing.Lookup | hashtable.go:145-163 | a lookup hit is a 5-byte value |
| Probing.FirstValue | hashtable.go:90-107 | some value is found iff some pair has the key (reference definition of a lookup) |
| Probing.FirstValueSnoc | hashtable.go:90-107 | a later pair with the same key never changes the first value |
| Probing.CountInsert | hashtable.go:99-104 | inserting into a non-full table occupies exactly one more slot |
| Probing.FreeExists | hashtable.go:99-106 | a non-full table has a free slot on every probe path |
| Probing.InsertReachable | hashtable.go:98-106 | insertion keeps every pair reachable from its home without crossing an empty slot |
| Probing.LookupInsert | hashtable.go:98-106 | after an insertion a lookup gives the old hit, else the new pair's value if keys match |
| Probing.BuildLookup | hashtable.go:90-107 | building k ≤ n pairs occupies exactly k slots, and a lookup returns the first pair's value for the key |
| Builder.PutPair | builder.go:57-61 | a put stores the 7-byte shard key then the low 5 offset bytes |
| Builder.FirstOffset | builder.go:57-61 | the offset of the first put with the hash, present iff one exists |
| Builder.ShardPairsLength | builder.go:57-61 | a shard receives at most as many pairs as there are puts |
| Builder.ShardPairsFrom | builder.go:57-61 | every pair in shard i comes from a put whose hash routes to i |
| Builder.ShardFirst | builder.go:57-61 | the first value for a shard key in a shard is the packed first offset put with that hash |
| Builder.ZeroKey | shard.go:78-83 | the shard key is all zero iff the hash is 0 mod 2^56 |
| Builder.FivesOffset | shard.go:36-43 | the packed offset is 0F×5 iff the offset is 0x0F0F0F0F0F mod 2^40 |
| Builder.SentinelEntry | hashtable.go:43-50 | a put is stored as the sentinel iff both conditions above hold |
| Builder.Flatten | builder.go:137-148 | the scratch file is 12 bytes per pair |
| Builder.ReadFlatten | builder.go:175-185 | reading keycount pairs back from the scratch file gives the pairs put |
| Builder.TableFile | hashtable.go:109-127 | a shard's table file is 8 + 12·slotCount bytes |
| Builder.OpenBuilt | builder.go:89-94 | opening a built table file always succeeds, so the dropped error cannot occur |
| Builder.Built | builder.go:69-101 | every one of the 256 shards holds its built table |
| Builder.BuiltGet | shard.go:86-94 | after building, Get(h) is the offset (mod 2^40) of the first put with h, else NotExist |
| Builder.ShardBuilder.constructor | builder.go:125-131 | a new builder has an empty scratch file and no keys |
| Builder.ShardBuilder.Put | builder.go:137-148 | appends k[..7] + v[..5] to the scratch file and increments keycount |
| Builder.ShardBuilder.Finish | builder.go:152-169 | writes the table generated from exactly the pairs put |
| Builder.GenerateAfter | builder.go:152-169 | rewinding the scratch file and running Generate writes TableFile(pairs) |
| Builder.ShardsBuilder.constructor | builder.go:28-45 | 256 new builders, no puts, no table written |
| Builder.ShardsBuilder.Put | builder.go:57-61 | records the put; only builder h >> 56 changes |
| Builder.ShardsBuilder.FinishShard | builder.go:85-94 | finishing shard i yields BuiltShard(puts, i) |
| Builder.ShardsBuilder.BuildShards | builder.go:69-101 | all 256 shards are finished and the result is Built(puts) |
| Io.Int64 | db.go:90 | int64(x) lies in the int64 range and equals x whenever it is not negative |
| Io.ReadAt | db.go:145 | a read at a negative offset fails; an empty read succeeds; otherwise it succeeds iff the bytes exist, and returns them |
| Io.ReadFullAt | db.go:82 | io.ReadFull succeeds iff n bytes remain; it fails with io.EOF at the end and io.ErrUnexpectedEOF otherwise |
| Io.File.Write | hashtable.go:112 | writes the bytes at the cursor and advances it |
| Io.File.Rewind | builder.go:158 | moves the cursor to 0 |
| Io.File.Seek | db.go:90 | a relative seek below 0 fails and leaves the cursor; otherwise it moves the cursor |
| Io.File.ReadFull | db.go:82 | the read is ReadFullAt at the cursor, and the cursor advances past the bytes consumed |
| Db.ReadUint64 | db.go:78 | binary.Read of a uint64 succeeds iff 8 bytes remain, giving their little-endian value |
| Db.LogStep | db.go:77-96 | corrected round: a record read lies in the log and the cursor moves to its end; at the end of the log it stops with io.EOF |
| Db.LogStepReads | db.go:77-93 | a round reads a record iff the key size (at most 1 KiB), key and value size are present; it is the record in the log; otherwise it stops with io.EOF, io.ErrUnexpectedEOF or a panic |
| Db.LogStepAsWritten | db.go:77-93 | as written: the seek target is never negative when a record is read |
| Db.AsWrittenDiffers | db.go:90 | the written round agrees with the corrected one except for value sizes of 2^63 or more, where it moves 2^64 bytes short |
| Db.PreLoadAsWrittenLoops | db.go:76-97 | on a 16-byte log the written round returns to offset 0 with the offset unchanged, while the corrected scan ends |
| Db.ScanLog | db.go:76-98 | the scan meets at most one record per 16 bytes of log |
| Db.ScanLogNext | db.go:76-97 | a further round extends the records scanned so far |
| Db.ScanLogRecords | db.go:76-97 | every record scanned is the key in the log at its position; the first is at 0 and each next one starts 16 + keySize + valueSize later |
| Db.WrapAdd | db.go:96 | the uint64 offset sum wraps modulo 2^64 consistently |
| Db.Puts | db.go:94-96 | each record is put as (fp(key), its start offset mod 2^64) |
| Db.PutsSnoc | db.go:94-96 | a new record appends one put |
| Db.CheckKey | db.go:144-162 | a pass means the record at the offset has a size field equal to |key| and key bytes equal to key |
| Db.ReadValue | db.go:164-174 | a value read lies in the log right after its size field, which holds its length |
| Db.CheckRecord | db.go:144-175 | a value returned is that of a whole record with this key at the offset |
| Db.GetSound | db.go:138-176 | every value Get returns belongs to a record with the requested key at the offset found in the index |
| Db.CheckKeyAt | db.go:150-162 | at a record with key k, the check passes iff k is the requested key, else NotExist |
| Db.ReadValueAt | db.go:164-174 | at a whole record the value read is its value |
| Db.GetAtRecord | db.go:138-176 | if the index points at another key, the result is NotExist; if it points at the key, the result is its value |
| Db.GetMiss | db.go:138-176 | a key not in the log gives NotExist on the index built from the log |
| Db.GetHit | db.go:138-176 | a key in the log whose fingerprint no earlier record shares gives its value |
| Db.ReopenBuilt | db.go:59 | reopening the table files written by a build gives the same shards |
| Db.ReadRecord | db.go:77-93 | corrected (value skipped forward, see Findings): one round on the file is LogStep at the cursor, and the cursor ends past the record |
| Db.Round | db.go:76-97 | corrected (built on Db.LogStep): one loop round keeps the builder holding the puts of the records met, and the offset equal to the cursor mod 2^64 |
| Db.IndexLog | db.go:76-97 | corrected (built on Db.LogStep): the loop puts exactly the records of ScanLog and returns the error that ended it |
| Db.DB.constructor | db.go:46-49 | a new database has no shards and no manifest |
| Db.DB.PreLoad | db.go:65-106 | corrected (built on Db.LogStep): if the scan ends with io.EOF, the shards are built from the scanned records and the manifest (1, 256) is written; otherwise the error is returned and nothing changes |
| Db.Open | db.go:41-61 | corrected (built on Shard.LoadFromManifest and Db.LogStep): a log open error returns no database; a missing manifest builds the index; another manifest error is returned; a present manifest loads the shards |

## Left out

- Concurrency: BuildShards runs on 8 goroutines that share `err` unsynchronised; the model finishes shards one after another in id order.
- The `*os.File` type test and the dropped `OpenHashTable` error in BuildShards (builder.go:89-93) are not modelled as branches; Builder.OpenBuilt shows that opening a built table file always succeeds.
- Write, create and flush failures are not modelled: writes to scratch files, table files and the manifest file always succeed. So NewShardsBuilder's create errors, bufio flushes, `Finish`'s seek and remove errors and `CreateManifestFile`'s error are left out.
- File system plumbing is left out: paths, `HashTablePath`, the temporary files' names, `Close`, `os.Remove`, JSON encoding of the manifest, and `loadManifest`'s parsing. A manifest arrives as a `Result<Manifest>`, and table files arrive as `Result<seq<byte>>`.
- The FNV-1 64-bit fingerprint, `fnv.New64` (hash.go is not part of this model); `fp` is a parameter.
- `bufio.Writer` buffering: a put appears in the scratch file at once.
- The shared `vBuf` buffer in ShardsBuilder.Put is not modelled; ShardBuilder.Put copies the value bytes before returning.
- DB.Close and HashTable.Close.
- Shard.CheckManifest: the source panics on a bad manifest; the model returns the error value `Some(Panic)` instead of ending the process.
- Hashtable.Generate: requires 3·keycount < 2^63; the wrap-around of `uint64(keycount * 3)` for larger counts is not modelled.
- Builder.ShardsBuilder.BuildShards: requires fewer than 2^52 puts, the range in which every table's slot offsets fit in an int64.
- Db.DB.PreLoad: requires a log shorter than 2^56 bytes, so that it has fewer than 2^52 records (each takes at least 16 bytes).
- Db.GetHit: stated only for logs shorter than 2^40 bytes; in larger logs offsets are truncated to the 5 stored bytes, so a hit may check the wrong position.
- Db.GetMiss: stated only for logs shorter than 2^40 bytes, for the same reason.
- Db.GetHit, Db.GetMiss, Hashtable.GenerateGet and Hashtable.FindSerialized: require that no stored pair is stored as the empty-slot sentinel (see Builder.SentinelEntry). A record whose fingerprint is 0 mod 2^56 at an offset equal to 0x0F0F0F0F0F mod 2^40 is invisible to lookups.
- Db.Open, Db.DB.PreLoad, Db.IndexLog, Db.Round, Db.ReadRecord: these compose the corrected Shard.LoadFromManifest and Db.LogStep (see Findings), so they differ from db.go where those do: with a present manifest and a table file that cannot be opened, the model's Open returns that error where the source returns no error and a nil shard; and for a value size of 2^63 or more the model's scan skips forward where the source seeks backward.
- Db.ReadValue: Go's allocation limit is not modelled. `make([]byte, int(valueSize))` at db.go:169 panics for sizes above the runtime's limit (2^48 on linux/amd64) and can exhaust memory below it; the model allocates any non-negative size and goes on to the read, which then fails with io.EOF when the log is shorter.
- Io.File.Seek: positions are unbounded naturals; Go's refusal of positions above 2^63 − 1 is not modelled.
- A truncated tail is not an error: a key-size field at the very end (with no key) reads as io.EOF and ends the scan cleanly, and a record whose value runs past the end of the log is still indexed. The model keeps this behaviour of the source.

## Findings

| source | as written | input that shows it | evidently intended | confidence | as-written member | corrected member |
|---|---|---|---|---|---|---|
| shard.go:62-71 | `if err != nil` tests the named result `err`, never the fresh `e`, so open errors are ignored | a manifest (1, 256) with table file 0 missing: LoadFromManifest returns no error and leaves shard 0 nil, and every later Get of a hash whose top byte is 0 panics | test `e`, return its error and stop at the first table that fails | not executed | Shard.LoadFromManifestAsWritten | Shard.LoadFromManifest |
| db.go:90 | `file.Seek(int64(valueSize), 1)` turns a value size of 2^63 or more into a backward move; the uint64 offset sum wraps | the 16-byte log `00×8` then the LE bytes of 2^64 − 16 (an empty key, with the value size 2^64 − 16): the round seeks back to 0 and the offset grows by 0, so preLoad puts (fp(""), 0) forever | skip valueSize bytes forward, so the next read meets io.EOF and the scan ends | not executed | Db.PreLoadAsWrittenLoops | Db.LogStep |
