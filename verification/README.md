# Master data: a verified model

sekai-master-api keeps game master data of several regions in PostgreSQL. A sync
job loads a region's JSON files from a git source and stores each entity as
compressed, key-sorted record blocks, with relation index postings and a list
projection beside them. Reads locate single blocks, rebuild source order from
positions, or answer from postings. One sync lease in one database row decides
who may write. This project models that store, the protocol that writes it, and
the smaller pieces around it (response cache, current event, shutdown, git
pkt-line reader), and proves their properties for all inputs and all runs.

## How it is laid out

- `Text.dfy`, `Json.dfy`: byte strings, Go's byte-wise order, decimals,
  length-prefixed parts; decoded JSON with numbers as shortest decimals.
- `BlockSortKey.dfy`, `RecordKeys.dfy`, `KeyTexts.dfy`, `IndexKeys.dfy`,
  `IndexNames.dfy`: record keys, sort keys and index keys, how they are written,
  and why they never collide.
- `Blocks.dfy`, `BlockReads.dfy`, `StoreReads.dfy`: grouping, sorting and cutting
  into blocks, reading back by key and by position, paging.
- `Projection.dfy`, `Postings.dfy`, `DerivedVersions.dfy`: derived data and the
  versions that say whether it is current.
- `EntityContents.dfy`, `Collecting.dfy`, `DerivedData.dfy`, `IndexReads.dfy`:
  collecting an entity in one pass, and reads through postings against scans.
- `Limits.dfy`: inputs at which collected and rebuilt derived data part.
- `StoredEntities.dfy`, `MasterDataStore.dfy`, `FullSync.dfy`: the store as a
  class over four tables, written incrementally, proved against the plain list
  of (key, body) pairs each entity was last written from.
- `Lease.dfy`, `AdmissionGate.dfy`, `RegionSync.dfy`, `Shutdown.dfy`,
  `ResponseCache.dfy`: state machines of interleaved steps. Their main results
  are about every run; each has an invariant that every step keeps.
- `CacheKeys.dfy`, `CacheEntries.dfy`, `CurrentEvent.dfy`, `PktLine.dfy`: the
  remaining parts.

## Hypotheses

SHA-256 is an injective function where equal digests are taken for equal text
(revisions, cache keys); record keys need only its fixed length. zstd, gob and
JSON text are inverse pairs, so a stored block is its entry list, a stored
projection is itself, and `decode` is any function from bodies to records. A
source file digest determines the file's records. The lease model gives every
process its own holder name and at most one live claim, which the admission gate
ensures. The region model takes status saves not to fail, commits to be numbered
in the order the source publishes them, equal manifests to mean equal data, and
a manifest once left not to return. The cache model takes cached handlers to be
honest about when their answer changes, and cached bodies to stay within the
64 MiB its decoder accepts.

## Findings

Properties that do not hold of all inputs, each with the lines that cause it, an
input and the exact condition.

- A success status does not always say what is stored. An empty payload prunes
  nothing (internal/usecase/master_data_sync_usecase.go:1177-1181), and an entity
  whose file stops being an array is neither rewritten
  (internal/storage/master_data_postgres_store.go:135-139) nor pruned, its file
  still being named (internal/usecase/master_data_sync_usecase.go:1183-1186), so
  stale records survive. `RegionSyncs.SuccessOverStaleData` runs into both from
  an empty store. Over every history, a latest success with a commit names
  exactly what is stored if and only if the last prune fitted
  (`RegionSyncs.SuccessExact`), a check on payload and stored names before
  pruning; that covers the successes the three shortcuts record, after a prune
  that did not fit and after one that repaired it. Payloads that have files, and
  whose files without records never held any, always fit
  (`RegionSyncs.ShapedRunsFit`).
- A run that fails while checking the store
  (internal/usecase/master_data_sync_usecase.go:779-781), or is cut off before its
  running status, leaves the latest status success. `RegionSyncs.BadEnd` says
  exactly when, and that nothing was written then.
- Postings collected during a store are built from each occurrence's own record
  (internal/storage/master_data_postgres_store.go:201-213), but read back as the
  record stored last under its key. `Limits.RepeatedKeyMisread` stores two records
  with id 7 and different events: the lookup of the first event returns the second
  record, and that of the second returns it once where a scan returns it twice. An
  index read equals a scan if and only if each row that reads back was collected
  with the key exactly when its stored record carries it
  (`DerivedData.IndexReadsEqualScans`), always so for distinct keys and for
  rebuilt postings.
- A record `{}` becomes nil (internal/storage/master_data_store_shared.go:115-117)
  and gets no projection row when collected, but does when the projection is
  rebuilt (`Limits.EmptyObjectUnprojected`). The two projections are equal if and
  only if every row projects alike (`DerivedData.ProjectionsAgreeExactly`), which
  for distinct keys means that no body is an empty object
  (`DerivedData.DistinctProjectedAsStored`).
- Index keys of different arity can be equal, a single part being written without
  its length (internal/domain/masterdata/index.go:200-205,
  `IndexKeys.KeysOfDifferentArityCollide`): exactly when the only part of one is
  the length-prefixed text of the other's parts (`IndexKeys.KeysEqualExactly`).
- An empty body has no fallback key, but its second occurrence gets `":1"`
  (internal/storage/master_data_record_keys.go:44-52,
  `RecordKeys.EmptyBodyFallback`); the store skips empty bodies before keying
  (internal/storage/master_data_postgres_store.go:231-234).
- The smallest int64 timestamp stays negative when negated and wraps to 0
  (internal/usecase/master_data_sync_usecase.go:2283-2293,
  `CurrentEvents.SmallestTimestamp`), so the bound of 10^14 holds for every int64.

## Model

| member | source | states |
|---|---|---|
| BlockSortKeys.IsCanonicalDecimal | internal/domain/masterdata/record_key.go:220-230 | the index loop accepts exactly the non-empty digit strings without a leading zero, "0" included |
| BlockSortKeys.DecimalOrder | internal/domain/masterdata/record_key.go:202-218 | canonical decimals of up to 20 digits sort byte-wise by their numeric value |
| BlockSortKeys.DecimalsFirst | internal/domain/masterdata/record_key.go:202-218 | such decimals sort before every other key |
| BlockSortKeys.BlockSortKeyInjective | internal/domain/masterdata/record_key.go:202-218 | different record keys, of any kind and length, have different sort keys |
| KeyTexts.NumericKeysInOrder | internal/domain/masterdata/record_key.go:202-218 | ids up to the largest uint64 sort by number, and a key of more than 20 characters is kept as it is, after them |
| RecordKeys.EncodeCompositeKey | internal/domain/masterdata/record_key.go:120-138 | the string builder loop builds the prefix and then the length-prefixed parts of entity, field names and values |
| RecordKeys.CompositeKeyInjective | internal/domain/masterdata/record_key.go:120-138 | two composite keys of an entity are equal exactly when all canonical field values are |
| RecordKeys.BuildCompositeRecordKey | internal/domain/masterdata/record_key.go:60-83 | no key when a key field is missing or unusable, else the key of the canonical values in field order |
| RecordKeys.RecordKeyer.Key | internal/storage/master_data_record_keys.go:22-42 | one keying step: id or auto key, composite key, or a fallback numbered by earlier occurrences |
| RecordKeys.RecordKeyer.FallbackKey | internal/storage/master_data_record_keys.go:44-52 | the first occurrence gets the auto key, later ones a numbered suffix, and the count grows by one |
| RecordKeys.FallbackKeysDistinct | internal/storage/master_data_record_keys.go:8-11 | fallback keys of an entity are pairwise distinct, equal digests included |
| RecordKeys.KeysMergeOnlyEqualFields | internal/storage/master_data_record_keys.go:8-52 | over any record sequence of a composite-key entity two records share a key exactly when both have all key fields and these agree in canonical form |
| RecordKeys.EmptyBodyFallback | internal/storage/master_data_record_keys.go:44-52 | a second empty body would be keyed ":1" although an empty body has no key |
| KeyTexts.NumberTextExact | internal/domain/masterdata/index.go:211-217 | the canonical text of a number is a "-" if it is negative, the canonical decimal of its whole part, and for a fraction a "." and exactly its digits, all of them together having the number's value |
| KeyTexts.WholeNumberText | internal/domain/masterdata/index.go:211-217 | a whole number is written as its canonical decimal, a negative one as "-" and that of its magnitude |
| KeyTexts.NumberTextInjective | internal/domain/masterdata/index.go:211-217 | different numbers have different texts |
| KeyTexts.OtherKeyParts | internal/domain/masterdata/index.go:207-260 | booleans are "true" and "false", strings are trimmed of the white space at both ends and unusable if nothing is left, and null, arrays and objects are no key parts |
| KeyTexts.WholeIdIsKey | internal/domain/masterdata/record_key.go:140-169 | a whole id is its record's key, in decimal |
| KeyTexts.NumericIdsKeyApart | internal/domain/masterdata/record_key.go:140-169 | for an entity keyed by id, records with numeric ids share a key exactly when they share the id, wherever they stand |
| KeyTexts.TextIdIsKey | internal/domain/masterdata/record_key.go:140-169 | a usable string or boolean id is its record's key, in canonical form |
| KeyTexts.NoIdIsAutoKey | internal/domain/masterdata/record_key.go:140-198 | without an id, with null or a blank one, the key is "auto:" and the body's digest, and never a number's |
| KeyTexts.CanonicalFieldsExact | internal/domain/masterdata/record_key.go:60-83 | key fields have canonical values exactly when each is there and usable, and then those |
| KeyTexts.CompositeEntities | internal/domain/masterdata/record_key.go:28-50 | the three composite-key entities and their fields |
| KeyTexts.CaseDoesNotMatter | internal/domain/masterdata/record_key.go:40-50 | an entity's name means the same in any letter case |
| KeyTexts.TwoFieldKey | internal/domain/masterdata/record_key.go:60-138 | an entity keyed by two fields has the prefix and the length-prefixed entity, field names and canonical values as key |
| KeyTexts.ResourceBoxKey | internal/domain/masterdata/record_key.go:60-138 | a resource box is keyed by its id and purpose together |
| IndexKeys.ObjectsOf | internal/domain/masterdata/index.go:300-315 | the objects of a value: itself, or those in an array, in order |
| IndexKeys.ValuesAtPath | internal/domain/masterdata/index.go:154-170 | the path walk's loops compute the ordered values at a path |
| IndexKeys.PathValues | internal/domain/masterdata/index.go:273-298 | arrays at the end of a path contribute their items |
| IndexKeys.ValuesAtExact | internal/domain/masterdata/index.go:154-170 | a value is found exactly when the path reaches it, stepping into objects and into each object of an array |
| IndexKeys.KeyInjective | internal/domain/masterdata/index.go:198-205 | keys of equal arity are equal exactly for equal canonical parts |
| IndexKeys.KeysEqualExactly | internal/domain/masterdata/index.go:198-205 | keys of any numbers of parts are equal exactly for equal parts, or when the only part of one is the length-prefixed text of the several parts of the other |
| IndexKeys.KeysOfDifferentArityCollide | internal/domain/masterdata/index.go:198-205 | such a part exists: a one-field value can spell a two-field key |
| IndexKeys.IndexKeys | internal/domain/masterdata/index.go:92-121 | the loops rebuilding the key list compute the record's distinct keys, in order, for both index forms |
| IndexKeys.ElementIndexKeys | internal/domain/masterdata/index.go:137-152 | one key per array element that carries all the element fields |
| IndexKeys.IndexLookupKey | internal/domain/masterdata/index.go:184-196 | a lookup has a key exactly when it has values and each is a usable key part |
| IndexKeys.DistinctOf | internal/domain/masterdata/index.go:317-328 | the seen-map loop keeps each key once, at its first place |
| IndexKeys.IndexKeysExact | internal/domain/masterdata/index.go:92-205 | the key of a lookup of any length is among a record's keys exactly when the record matches parts of the index's arity that equal, spell or are spelled by the looked-up ones; for a lookup of that arity, when it matches them: per field independently for "a,b", in one single array element for "path[a+b]"; no key repeats |
| IndexNames.ParseElementIndexExact | internal/domain/masterdata/index.go:123-135 | a name parses to a path and fields exactly when it is the path joined by ".", "[", two or more fields joined by "+", and "]", no piece holding a separator |
| IndexNames.ElementNamesHave | internal/domain/masterdata/index.go:123-135 | a name without "[", with nothing before it, without a final "]", or with a "," is no element index |
| IndexNames.ElementNamesHaveFields | internal/domain/masterdata/index.go:123-135 | nor is one with fewer than two fields |
| IndexNames.FieldNameParses | internal/domain/masterdata/index.go:92-99 | any other declared name is read as its comma-separated fields |
| IndexNames.ElementIndexFinds | internal/domain/masterdata/index.go:92-205 | a lookup on "path[a+b]" finds a record exactly when one object reached along the path carries every field with the value asked for |
| IndexNames.FieldIndexFinds | internal/domain/masterdata/index.go:92-205 | a lookup on "a,b.c" finds a record exactly when each field path carries its own value |
| Blocks.BlockEntries | internal/storage/master_data_blocks.go:224-238 | one entry per key, with all its positions and the record stored last under it |
| Blocks.LastRecordExact | internal/storage/master_data_blocks.go:224-238 | the record kept for a key is the one at its last place in the list |
| Blocks.PositionsExact | internal/storage/master_data_blocks.go:224-238 | its positions are exactly its places, ascending |
| Blocks.SortEntries | internal/storage/master_data_blocks.go:50-55 | a strictly increasing permutation by sort key |
| Blocks.CutBlocks | internal/storage/master_data_blocks.go:56-70 | every block is closed by the first entry reaching 32 records or 65536 bytes, or by the last entry, and the blocks concatenate to the entries |
| Blocks.BuildBlocks | internal/storage/master_data_blocks.go:50-70 | the blocks are the cut of the entries in sort-key order |
| Blocks.StoreBlocks | internal/storage/master_data_postgres_store.go:243-247 | grouping, sorting and cutting a list of keys and records |
| Blocks.BlockBounds | internal/storage/master_data_blocks.go:27-32 | blocks are non-empty, hold at most 32 entries, stay under the byte limit before their last entry, and are named by their first sort key |
| Blocks.BlocksDetermined | internal/storage/master_data_blocks.go:50-70 | a list of keys and records has exactly one set of blocks |
| BlockReads.StoredTable | internal/storage/master_data_postgres_store.go:332-344 | stored blocks have strictly increasing, hence distinct, first keys and hold every key once |
| BlockReads.LocatedHolds | internal/storage/master_data_postgres_store.go:981-1012 | the block with the greatest first key at or below a stored key's sort key is the one holding it |
| BlockReads.BlockRecordsByKey | internal/storage/master_data_postgres_store.go:1077-1091 | the map holds every entry of the loaded blocks and nothing else |
| BlockReads.FetchRaws | internal/storage/master_data_postgres_store.go:981-1027 | for every query list, with repeats, absent and empty keys, each answer is the last record stored under the key or none |
| BlockReads.PositionsPartition | internal/storage/master_data_postgres_store.go:1051-1069 | the positions of all entries are 0..n-1, each once, in whatever order blocks come back |
| BlockReads.LoadEntityInOrder | internal/storage/master_data_postgres_store.go:1035-1075 | no range error and no unfilled slot: the original key sequence, each key with its last record |
| StoreReads.ListAll | internal/storage/master_data_postgres_store.go:694-714 | the decodable rows in source order, or a failure exactly when one does not decode |
| StoreReads.ListByPage | internal/storage/master_data_postgres_store.go:716-772 | for page >= 1 and a size of 1 to 100 the items are those of keys (page-1)*size up to page*size, as far as there are any; a page below 1 answers as page 1, a size below 1 as 20, one above 100 as 100; total is the number of rows |
| StoreReads.PagesConcatenateToAll | internal/storage/master_data_postgres_store.go:716-772 | slices of one size from the first on, once they cover the entity, concatenate to the full list, failing exactly when listing all fails |
| StoreReads.ReadPages | internal/storage/master_data_postgres_store.go:716-772 | what ListByPage returns for pages 1 to n of any page size, laid end to end, is what ListAll returns, once they cover the entity |
| Projections.ProjectionColumnKind | internal/domain/masterdata/projection.go:276-306 | the fold's kind depends only on the set of value kinds |
| Projections.ColumnKindExact | internal/domain/masterdata/projection.go:276-306 | no present value asks for no column, whole numbers below 2^53 for integers, other numbers for floats, texts and booleans for their own, any mix for raw values |
| Projections.BuildProjectionColumn | internal/domain/masterdata/projection.go:227-274 | the array-filling loops build the column of the values, with missing rows marked only if there are any |
| Projections.IntegersRoundTrip | internal/domain/masterdata/projection.go:276-306 | below 2^53 a whole float survives int64 and back |
| Projections.ColumnRoundTrip | internal/domain/masterdata/projection.go:136-162 | every present value reads back unchanged and exactly the null rows are missing |
| Projections.ColumnInjective | internal/domain/masterdata/projection.go:227-274 | columns of one length are equal only for equal values |
| Projections.ProjectionBuilder.Add | internal/domain/masterdata/projection.go:206-212 | a record appends its key and one cell per field, absent fields as null |
| Projections.ProjectionBuilder.Build | internal/domain/masterdata/projection.go:214-225 | the projection of exactly the records added, in order |
| Projections.ProjectionRoundTrip | internal/domain/masterdata/projection.go:136-225 | every field of every row reads back as in its record, null and absent fields as missing |
| DerivedVersions.NamesRoundTrip | internal/domain/masterdata/index.go:71-90 | the names recovered from a version are those it was made from |
| DerivedVersions.SeparableDefinitions | internal/domain/masterdata/projection.go:73-82 | equal index or projection versions mean equal definitions |
| DerivedVersions.VersionsExact | internal/domain/masterdata/index.go:63-80 | a version is "1:" and the entity's defined names, empty without any, and an index is defined exactly if it is listed |
| DerivedVersions.NothingNamed | internal/domain/masterdata/index.go:82-90 | a text without a ":", or with nothing after it, names no index |
| EntityContents.RevisionTextInjective | internal/storage/master_data_postgres_store.go:216-218 | the digested text determines every key and body, so an equal revision means equal contents |
| EntityContents.CollectedValid | internal/storage/master_data_postgres_store.go:231-238 | collected rows never have an empty key or body |
| EntityContents.ProjectRows | internal/storage/master_data_postgres_store.go:488-497 | the loop over decoded rows builds the projection of the non-nil records and their keys, or none without fields |
| EntityContents.BuildProjection | internal/domain/masterdata/projection.go:332-345 | the projection of the non-nil records and their keys, an empty one without fields |
| Postings.AddToEntityIndexes | internal/storage/master_data_store_shared.go:59-68 | each index key of the record gains its storage key exactly once, whatever order the indexes are visited in |
| Postings.BuildIndexes | internal/storage/master_data_postgres_store.go:503-512 | every index key posts the keys of the rows carrying it, in stored order |
| Collecting.EntityCollector.Add | internal/storage/master_data_postgres_store.go:201-219 | digest, postings and projection keep describing exactly the rows so far |
| Collecting.CollectEntity | internal/storage/master_data_postgres_store.go:189-241 | one pass yields the keyed rows, their revision, the postings and the projection of the same contents |
| DerivedData.EmptyRecordHasNoKeys | internal/storage/master_data_store_shared.go:105-119 | an object without fields has no key in any index, so dropping it loses no posting |
| DerivedData.ReadsEqualScanExactly | internal/storage/master_data_postgres_store.go:800-911 | whatever the postings were built from, reading a key's posted rows back equals a scan if and only if every row that reads back is posted exactly when its stored record carries the key |
| DerivedData.PostedReadsEqualScan | internal/storage/master_data_postgres_store.go:800-911 | reading the posted keys of stored rows back gives what a scan finds, repeated keys included |
| DerivedData.DistinctCollectedAsStored | internal/storage/master_data_postgres_store.go:189-241 | with distinct keys every row is collected as its stored record reads, so index reads of collected postings equal scans |
| DerivedData.CollectedPostingsAgree | internal/storage/master_data_postgres_store.go:189-241 | with distinct keys, collected postings are the rebuilt ones |
| DerivedData.IndexReadsEqualScans | internal/storage/master_data_postgres_store.go:800-933 | an index read returns a scan's records in order and multiplicity: for rebuilt postings always, for collected ones if and only if every row that reads back was collected as its stored record reads |
| Limits.RepeatedKeyMisread | internal/storage/master_data_postgres_store.go:189-213 | two records stored under one id: their collected postings lead one lookup to a record a scan does not return, and another to half of what a scan returns |
| DerivedData.ProjectionsAgreeExactly | internal/storage/master_data_postgres_store.go:189-213 | whatever the keys, the collected projection is the one built from the stored records if and only if every row has a record in both and reads the same in each projected field |
| DerivedData.DistinctProjectedAsStored | internal/storage/master_data_postgres_store.go:189-213 | for distinct keys that is so if and only if no body is an empty object |
| Limits.EmptyObjectUnprojected | internal/storage/master_data_store_shared.go:105-119 | a stored `{}` has no row in the collected projection and one in the rebuilt projection |
| IndexReads.ScanByIndex | internal/storage/master_data_postgres_store.go:913-933 | each keyed lookup gets every record carrying its key, once per record, in order |
| IndexReads.AnswersExact | internal/storage/master_data_postgres_store.go:774-820 | a lookup without values or with an unusable one has no answer, every other one the records carrying its key |
| IndexReads.ReadByPostings | internal/storage/master_data_postgres_store.go:869-911 | each keyed lookup gets what its posted keys read back as, or the read fails exactly when a posted record does not decode |
| IndexReads.PostedAnswersEqualScan | internal/storage/master_data_postgres_store.go:800-933 | for all lookups together, the answers through rebuilt postings are the scan's, and those through collected postings if and only if every asked key was collected as stored |
| StoredEntities.BlocksUnique | internal/storage/master_data_postgres_store.go:332-344 | only one block table is right for given contents |
| StoredEntities.WroteRight | internal/storage/master_data_postgres_store.go:243-319 | incremental writing keeps rows, blocks, source digest and derived data right for the new contents |
| StoredEntities.RebuiltRight | internal/storage/master_data_postgres_store.go:463-530 | rebuilding stale derived data keeps the entity right and makes it current |
| StoredEntities.IncrementalEqualsRewrite | internal/storage/master_data_postgres_store.go:243-319 | however an entity came to its contents, its blocks, order keys, count and revision are those a full rewrite leaves; so are its current postings for distinct keys and its current projection whenever every row projects alike |
| MasterDataStores.MasterDataStore.Deploy | internal/domain/masterdata/index.go:71-80 | deploying other index and projection definitions leaves every entity right, its derived data then out of date |
| MasterDataStores.MasterDataStore.WriteEntity | internal/storage/master_data_postgres_store.go:243-319 | after an admitted write the entity holds exactly the collected rows with current derived data and everything else is unchanged; a refused write changes nothing |
| MasterDataStores.MasterDataStore.SkipIsRight | internal/storage/master_data_postgres_store.go:145-151 | a file skipped by its digest holds the records the entity already has |
| MasterDataStores.MasterDataStore.StoreEntityFile | internal/storage/master_data_postgres_store.go:130-158 | skipped, partly skipped or written, the entity then holds the file's records with current derived data and the file's digest; a file whose digest and versions are stored already changes nothing; other files store nothing |
| MasterDataStores.MasterDataStore.StoreRegion | internal/storage/master_data_postgres_store.go:72-128 | every admitted file is stored whatever becomes of the others; each entity holds the records of the last stored file of its name, and is as before without one, never a mix; it succeeds exactly when all files are stored |
| MasterDataStores.NeverAMix | internal/storage/master_data_postgres_store.go:72-128 | whatever files are stored, what is left of an entity is what one stored record file of its name holds, if there is one |
| MasterDataStores.AnyFileOrder | internal/storage/master_data_postgres_store.go:72-128 | files that do not disagree on an entity leave it the same in whatever order the workers store them |
| MasterDataStores.MasterDataStore.PruneRegionEntities | internal/storage/master_data_postgres_store.go:417-458 | exactly the region's entities not named are deleted with all their rows; an empty keep list deletes nothing |
| MasterDataStores.MasterDataStore.RebuildEntity | internal/storage/master_data_postgres_store.go:463-527 | derived data is rebuilt exactly when out of date, records never change, and a failure leaves everything as it was |
| MasterDataStores.MasterDataStore.EnsureDerivedEntityData | internal/storage/master_data_postgres_store.go:460-530 | after success no listed entity is out of date, no record has changed, and it fails only on an entity whose rebuild is refused or whose records do not decode |
| MasterDataStores.MasterDataStore.FetchRecords | internal/storage/master_data_postgres_store.go:981-1033 | in every reachable state each key reads as the last record written under it |
| MasterDataStores.MasterDataStore.ListPage | internal/storage/master_data_postgres_store.go:716-772 | in every reachable state a page is its slice of the last written source order, page and size brought into range as ListByPage does |
| MasterDataStores.MasterDataStore.ListByIndex | internal/storage/master_data_postgres_store.go:774-933 | answers by the current definitions whether or not the index is built: without current postings what a scan finds, failing only when a needed scan meets an undecodable record; through current postings what they name, which is what a scan finds for rebuilt postings and distinct keys, and for any collected postings if and only if every asked key was collected as stored |
| MasterDataStores.MasterDataStore.LoadProjection | internal/storage/master_data_postgres_store.go:935-979 | without a current projection what is built from the stored records; with one, what is stored, which is the same if rebuilt, and if collected exactly when every row projects alike, for distinct keys exactly when no record is `{}` |
| FullSyncs.StoreAndPrune | internal/usecase/master_data_sync_usecase.go:1140-1212 | on success the region's data in the four tables is what it was, overwritten with the payload and pruned to it, and so exactly the payload's records if and only if the payload has files or nothing was stored and no stored entity is named by files without records alone |
| FullSyncs.AfterExact | internal/usecase/master_data_sync_usecase.go:1140-1212 | what that leaves of an entity: the records of its last record file; what it held, if only other files name it; nothing, if no file does and some file has a name |
| Leases.LeaseRepository.Acquire | internal/repository/master_data_sync_lease_repository.go:36-74 | succeeds exactly without a row or with an expired one, with the next token and an expiry of now plus the time to live; a losing racer changes nothing |
| Leases.LeaseRepository.Renew | internal/repository/master_data_sync_lease_repository.go:76-100 | exactly for its holder the lease then runs to now plus the time to live under the same token; otherwise nothing changes |
| Leases.LeaseRepository.Release | internal/repository/master_data_sync_lease_repository.go:102-120 | the holder's lease expires now, keeping row and token; anyone else's call changes nothing |
| LeaseRuns.TransactionStepKeepsInvariant | internal/storage/master_data_postgres_store.go:381-415 | begin, both token checks, commit and abort keep the invariant tying locks and tokens to the row |
| LeaseRuns.SaveStepKeepsInvariant | internal/repository/master_data_sync_status_repository.go:28-83 | the locked check and insert of a status keep it |
| LeaseRuns.TokensStrictlyIncrease | internal/repository/master_data_sync_lease_repository.go:36-74 | in every run each acquisition issues a token one above the last |
| LeaseRuns.FencedCommit | internal/storage/master_data_postgres_store.go:381-415 | in every interleaving, with any clocks, a write with a token commits only while that is the lease's token |
| LeaseRuns.NothingOlderCommits | internal/storage/master_data_postgres_store.go:381-415 | once a token is issued no older one commits |
| LeaseRuns.CommittedTokensOrdered | internal/repository/master_data_sync_status_repository.go:60-83 | nonzero tokens of committed data writes and of committed status rows never decrease |
| LeaseRuns.HolderMatchIsTokenMatch | internal/repository/master_data_sync_lease_repository.go:76-120 | an effective renewal or release finds its own claim's token in the row although it matches on the holder only |
| LeaseRuns.ExclusiveUntilExpiry | internal/repository/master_data_sync_lease_repository.go:42-58 | with one non-decreasing clock no other acquisition succeeds before expiry or release |
| LeaseRuns.AcquireExact | internal/repository/master_data_sync_lease_repository.go:36-74 | in every run an acquisition takes effect exactly without a row or on an expired one |
| LeaseRuns.RenewAndReleaseExact | internal/repository/master_data_sync_lease_repository.go:76-120 | in every run a renewal moves the expiry, and a release ends it, exactly for the row's holder |
| LeaseRuns.NoTakeoverBeforeExpiry | internal/repository/master_data_sync_lease_repository.go:42-100 | with one clock every acquisition fails until the time to live of the holder's last effective acquisition or renewal has passed, unless it releases |
| LeaseRuns.ReleasedIsFree | internal/repository/master_data_sync_lease_repository.go:102-120 | with one clock the first acquisition after an effective release succeeds |
| LeaseRuns.ChecksExact | internal/storage/master_data_postgres_store.go:381-415 | a token check lets a write through exactly when it carries no token or the row's |
| LeaseRuns.SavesExact | internal/repository/master_data_sync_status_repository.go:28-83 | a status is saved exactly when it carries no token or one at least the row's |
| LeaseRuns.ComingAndGoing | internal/storage/master_data_postgres_store.go:381-415 | a write begins unchecked, and what is rolled back or crashes leaves nothing behind |
| LeaseRuns.FreeLeaseCanBeUsed | internal/repository/master_data_sync_lease_repository.go:36-74 | from every reachable state a free or expired lease can be acquired with the next token, and a write and a status committed with it |
| LeaseRuns.HolderCanRenewAndRelease | internal/repository/master_data_sync_lease_repository.go:76-120 | and its holder can renew and release it |
| AdmissionGates.OneRuns | internal/usecase/master_data_sync_usecase.go:555-571 | in every interleaving at most one call is inside syncLeased |
| AdmissionGates.FlagClearedByItsHolder | internal/usecase/master_data_sync_usecase.go:361-374 | the running flag is only cleared by the call that set it, so a refused caller never clears another's |
| AdmissionGates.GroupCountsAdmitted | internal/usecase/master_data_sync_usecase.go:320-333 | the WaitGroup counts exactly the admitted, unfinished calls |
| AdmissionGates.NoneAfterWait | internal/usecase/master_data_sync_usecase.go:307-318 | once Wait has returned no call is admitted or running, then or later |
| AdmissionGates.TurnedAwayOnlyFor | internal/usecase/master_data_sync_usecase.go:307-374 | a call is turned away exactly by a closed gate or a flag another call holds, and otherwise goes on to run |
| AdmissionGates.NoneAdmittedOnceClosed | internal/usecase/master_data_sync_usecase.go:307-333 | once admission is closed no further call is admitted |
| AdmissionGates.CallsEnd | internal/usecase/master_data_sync_usecase.go:307-374 | every call ends: each step of it brings its end closer, and until then it can take one, a waiting call once nobody is admitted |
| AdmissionGates.CallersAreFree | internal/usecase/master_data_sync_usecase.go:307-374 | calls come, and admission is closed, at any time |
| RegionSyncs.FullStoreExact | internal/usecase/master_data_sync_usecase.go:1140-1212 | store and prune leave exactly the payload if and only if it has files or nothing was stored, and no stored entity is named by a file without records |
| RegionSyncs.StoredThenPruned | internal/usecase/master_data_sync_usecase.go:1011-1019 | once every record file is stored, pruning leaves exactly what the commit loads if and only if the payload fits the store |
| RegionSyncs.ShortcutKeeps | internal/usecase/master_data_sync_usecase.go:865-939 | the unchanged-commit, unchanged-manifest and rate-limit shortcuts record success only for a commit whose record files are all stored, and which loads all that is stored exactly when the last prune fitted |
| RegionSyncs.StepKeepsInvariant | internal/usecase/master_data_sync_usecase.go:775-1025 | every step of a run, in any order of failures and whether or not a prune fits, keeps what statuses and version payload say of the data, given whether the last prune fitted |
| RegionSyncs.SuccessExact | internal/usecase/master_data_sync_usecase.go:775-1025 | over every sequence of runs, shortcuts, failures and prunes that do not fit included, a latest success with commit c means that c's records are all stored, and that they are all that is stored if and only if the last prune fitted |
| RegionSyncs.SuccessMeansStored | internal/usecase/master_data_sync_usecase.go:775-1025 | its corollary: where every prune fits, a latest success with commit c means the stored entities are what c loads |
| RegionSyncs.PruneExact | internal/usecase/master_data_sync_usecase.go:1174-1212 | in every run, a prune leaves exactly what the commit loads if and only if the payload fits the store |
| RegionSyncs.FullSyncExact | internal/usecase/master_data_sync_usecase.go:976-1025 | in every run, whatever came before, the success a full sync ends with names a commit whose load is what is stored if and only if its prune fitted |
| RegionSyncs.FullSyncStoresVersion | internal/usecase/master_data_sync_usecase.go:1214-1229 | in every run, a full sync that ends in success has stored the version payload of the commit it wrote and its status names, and left the stored one alone if that commit has none |
| RegionSyncs.VersionChangesThere | internal/usecase/master_data_sync_usecase.go:1214-1229 | in every run, no other step changes the stored version payload |
| RegionSyncs.StatusesExact | internal/usecase/master_data_sync_usecase.go:775-1139 | in every run, the status each end leaves: success with the commit resolved, or with the last success's commit under a rate limit, failure with the commit resolved, or none when cut off |
| RegionSyncs.StatusesBeforeTheEnd | internal/usecase/master_data_sync_usecase.go:803-830 | in every run, a cold start saves a pending status, loading a running one, and no other step touches statuses before the end |
| RegionSyncs.RunningWhileLoading | internal/usecase/master_data_sync_usecase.go:1025-1045 | in every run, from its running status to its end that is the latest status |
| RegionSyncs.ShortcutsTakenOn | internal/usecase/master_data_sync_usecase.go:845-939 | in every run, what each shortcut was taken on: never under force; the last success's commit over stored data; another commit with the stored version payload; a held region whose latest status was success |
| RegionSyncs.ShortcutsAreOpen | internal/usecase/master_data_sync_usecase.go:845-939 | and then it can be taken |
| RegionSyncs.EveryRunCanComplete | internal/usecase/master_data_sync_usecase.go:976-1025 | from every reachable state a run can go on to load, store, prune and end in success |
| RegionSyncs.StoreAndPruneRun | internal/usecase/master_data_sync_usecase.go:1140-1212 | in every run, storing file by file and pruning amount to the overwriting and pruning that `FullSyncs.StoreAndPrune` proves of the tables |
| RegionSyncs.SuccessOverStaleData | internal/usecase/master_data_sync_usecase.go:1174-1212 | runs from an empty store whose second full sync loads an empty commit, or one whose file of the entity is no longer an array, and ends in success over the first commit's records |
| RegionSyncs.ShapedRunsFit | internal/usecase/master_data_sync_usecase.go:1174-1212 | if payloads have files and a file without records in one commit has none in any, every prune of every run fits |
| RegionSyncs.BadEnd | internal/usecase/master_data_sync_usecase.go:1091-1139 | in every run, a failed or cut-off sync leaves the latest status success exactly when it had saved no status and found a success, and then it has written nothing |
| RegionSyncs.WritesOnlyWhileRunning | internal/usecase/master_data_sync_usecase.go:976-1025 | in every run, no entity or version payload is written while the latest status is success |
| CacheKeys.QueryEscapeInjective | internal/transport/http/responsecache/middleware.go:207-221 | different texts escape differently |
| CacheKeys.EscapedByteExact | internal/transport/http/responsecache/middleware.go:207-221 | letters, digits and "-_.~" stand for themselves, a space is "+", any other byte "%" and two upper-case hex digits |
| CacheKeys.NormalizedQuery | internal/transport/http/responsecache/middleware.go:207-221 | the loops produce the query's escaped pairs in ascending key order |
| CacheKeys.NormalizedInjective | internal/transport/http/responsecache/middleware.go:207-221 | normalized queries are equal only for equal query multimaps |
| CacheKeys.NormalizedUnique | internal/transport/http/responsecache/middleware.go:207-221 | a query has one normalized text, whatever order its map is visited in |
| CacheKeys.PreimageInjective | internal/transport/http/responsecache/middleware.go:197-205 | the hashed text determines build, region, revision, route, path and query even when the path holds NUL bytes |
| CacheKeys.KeysDetermine | internal/transport/http/responsecache/middleware.go:197-205 | equal keys mean equal build, region, revision and request |
| CacheEntries.EncodeEntry | internal/transport/http/responsecache/entry.go:45-64 | the appended layout: version, flags, 16-bit status and type length, type, body |
| CacheEntries.DecodeEncoded | internal/transport/http/responsecache/entry.go:45-87 | decoding gives back the status's low 16 bits, at most 0xffff type bytes and the body |
| CacheEntries.EntryRoundTrip | internal/transport/http/responsecache/entry.go:45-87 | an entry round-trips exactly when status and content type length fit 16 bits |
| CacheEntries.DecodesExactly | internal/transport/http/responsecache/entry.go:66-87 | what decodes: six header bytes of version 1, the whole content type, and a body that decompresses if flagged |
| CacheEntries.Hint.ValidUntil | internal/transport/http/cachehint/cachehint.go:31-46 | the hint keeps the earliest moment reported, zero times ignored |
| CacheEntries.EarliestIsMinimum | internal/transport/http/cachehint/cachehint.go:31-57 | that moment was reported and no report comes before it |
| CacheEntries.Recorder.Write | internal/transport/http/responsecache/middleware.go:229-257 | the copy is the whole body, or dropped once the body outgrew the limit |
| ResponseCaches.ComputedKeysTellApart | internal/transport/http/responsecache/middleware.go:197-205 | the middleware's keys tell revisions and requests apart |
| ResponseCaches.RequestStepKeeps | internal/transport/http/responsecache/middleware.go:92-177 | lookups, handler runs, stores, waits and replays keep every current entry and shared response equal to the handler's answer, entries expiring at or before the next change |
| ResponseCaches.WorldStepKeeps | internal/usecase/master_data_sync_usecase.go:1603-1632 | time and syncs, which never bring a revision back, keep it |
| ResponseCaches.HitIsTransparent | internal/transport/http/responsecache/middleware.go:92-177 | a hit under the current revision is what the handler computes on that revision's data at that moment, never at or past the earliest reported change |
| ResponseCaches.OneRunPerKey | internal/transport/http/responsecache/middleware.go:118-137 | in every interleaving at most one request works on a key, and whoever waits, waits for a request at work on its own revision and request |
| ResponseCaches.ReplayIsAnswer | internal/transport/http/responsecache/middleware.go:118-177 | a shared response replayed under the current revision is what the handler computed for that very request on that revision's data, and its answer now unless a reported change has passed |
| ResponseCaches.KeepStores | internal/transport/http/responsecache/middleware.go:141-177 | a finished handler run is stored exactly if it is 200, small enough and lives at least a second, until the earlier of its lifetime and the reported change |
| ResponseCaches.KeepWakes | internal/transport/http/responsecache/middleware.go:118-137 | it answers everyone who waits for its key if it is cacheable, and sends them off alone if not |
| ResponseCaches.KeptIsFound | internal/transport/http/responsecache/middleware.go:92-116 | until it expires, is evicted or stored again, every request for it under the same revision is a hit with that response |
| ResponseCaches.LooksUnderCurrent | internal/transport/http/responsecache/middleware.go:80-103 | a request looks under the region's current revision, and only while there is one |
| ResponseCaches.WorldStepsExact | internal/usecase/master_data_sync_usecase.go:1603-1632 | what time, syncs and evictions do |
| ResponseCaches.RequestStepsExact | internal/transport/http/responsecache/middleware.go:92-177 | what a request's own steps do |
| ResponseCaches.NobodyIsStuck | internal/transport/http/responsecache/middleware.go:92-177 | every request can take a step, or waits for one with its revision and request that can |
| ResponseCaches.WorldIsFree | internal/usecase/master_data_sync_usecase.go:1603-1632 | time, syncs, evictions and new requests are never held back |
| CurrentEvents.NormalizedBounded | internal/usecase/master_data_sync_usecase.go:2283-2301 | for every int64 the result stays below 10^14 in magnitude, and keeps its sign unless it is the smallest |
| CurrentEvents.SmallestTimestamp | internal/usecase/master_data_sync_usecase.go:2283-2301 | the smallest int64 wraps to 0 |
| CurrentEvents.UnitsAgree | internal/usecase/master_data_sync_usecase.go:2283-2301 | every instant whose nanoseconds fit int64 reads the same in milli-, micro- and nanoseconds exactly from 10^11 ms on, and at 0; a whole second then reads the same in seconds |
| CurrentEvents.ResolveEventTimeRange | internal/usecase/master_data_sync_usecase.go:2152-2171 | a window is positive, ordered, and its end plus one fits int64 |
| CurrentEvents.SelectRow | internal/usecase/master_data_sync_usecase.go:2063-2087 | the first row with the latest start whose window contains now, and the least next change or 0 |
| CurrentEvents.CurrentRunsNow | internal/usecase/master_data_sync_usecase.go:2063-2171 | the selected row's startAt and closedAt, both positive and in order, enclose now, and no row with such times that enclose now starts later, or as late and earlier in the list |
| CurrentEvents.NextChangesNext | internal/usecase/master_data_sync_usecase.go:2063-2171 | the next change is the least coming startAt or closedAt plus one of all such rows, 0 without any |
| CurrentEvents.TimestampsRead | internal/usecase/master_data_sync_usecase.go:2173-2301 | milliseconds read as themselves, seconds as a thousand times them, blank texts and other values as no time |
| CurrentEvents.CurrentUnique | internal/usecase/master_data_sync_usecase.go:2063-2087 | there is at most one row to select |
| CurrentEvents.SelectionStable | internal/usecase/master_data_sync_usecase.go:2037-2091 | the same row is selected at every instant in [now, until), and forever without until |
| CurrentEvents.CurrentEventUntil | internal/usecase/master_data_sync_usecase.go:2037-2104 | the record selected is that of the latest-starting row whose startAt and closedAt enclose now, the first of several; until is the earliest coming start or end, none without any; the selection holds until then |
| ShutdownHandshake.StepKeepsInvariant | cmd/api/main.go:399-530 | every step of coordinator, handler, watcher and Serve keeps channels, results and positions consistent |
| ShutdownHandshake.ClassifiedRight | cmd/api/main.go:417-449 | a Serve return caused by the handler is classified as signaled in every interleaving |
| ShutdownHandshake.CancelAfterShutdown | cmd/api/main.go:484-527 | the handed-off cancel is called only after server.Shutdown returned and its result was collected |
| ShutdownHandshake.ErrorsReported | cmd/api/main.go:464-530 | an exit without a signal, a failed serve and a late drain are all reported as errors |
| ShutdownHandshake.FailuresReported | cmd/api/main.go:464-530 | a server that fails on its own and a drain past its deadline are reported whenever the coordinator returns |
| ShutdownHandshake.LateWorkersReported | cmd/api/main.go:464-530 | so are late workers |
| ShutdownHandshake.CleanRunsReportNothing | cmd/api/main.go:464-530 | a run in which nothing fails and nothing is late reports nothing |
| ShutdownHandshake.SignaledExitCancels | cmd/api/main.go:484-527 | the coordinator returns having called the handed-off cancel exactly after a signal |
| ShutdownHandshake.SignalStarts | cmd/api/shutdown.go:60-90 | a signal that arrives while none has been handled starts the shutdown |
| ShutdownHandshake.SecondSignalCloses | cmd/api/shutdown.go:90-134 | a second signal closes the server at once |
| ShutdownHandshake.EnvironmentIsFree | cmd/api/shutdown.go:60-134 | signals and serve failures come at any time, and the watcher leaves once Shutdown has returned |
| ShutdownHandshake.NeverStuck | cmd/api/main.go:399-530 | until the coordinator of a shutdown returns, some step of the program can be taken |
| ShutdownHandshake.StepsRunOut | cmd/api/shutdown.go:60-134 | every step but an arriving signal lowers the measure |
| ShutdownHandshake.StaysBegun | cmd/api/main.go:399-530 | a shutdown once begun stays under way |
| ShutdownHandshake.RunsAreShort | cmd/api/main.go:399-530 | a run has at most 19 steps besides signals, so the coordinator returns |
| PktLines.LengthRoundTrip | internal/repository/master_data_github_repository.go:328-332 | four printed hex digits parse to their number, for every 16-bit length |
| PktLines.HexValues | internal/repository/master_data_github_repository.go:328-332 | either case of hex digit has its value, and nothing else has one |
| PktLines.GitPktLineReader.Read | internal/repository/master_data_github_repository.go:323-356 | a successful read returns the packet at the offset and moves past it by at least 4 within the body; otherwise the packet is malformed |
| PktLines.MalformedExact | internal/repository/master_data_github_repository.go:323-356 | a read fails exactly on a truncated header, one that is not hex, length 3, or a payload that runs past the body |
| PktLines.ReadInvertsPrinting | internal/repository/master_data_github_repository.go:323-356 | any payloads of up to 65531 bytes with special packets between come back exactly and in order |
| PktLines.ParseGitUploadPackRefs | internal/repository/master_data_github_repository.go:396-427 | the loop terminates and computes the refs of the packets; no refs, a malformed packet or a bad ref line fail |
| PktLines.RefLineParses | internal/repository/master_data_github_repository.go:429-446 | a printed ref line parses to its ref with capabilities dropped |
| PktLines.RefLinesExact | internal/repository/master_data_github_repository.go:429-446 | a line is no ref without a space or with a blank sha or name; otherwise both are read, trimmed, capabilities dropped |
| PktLines.DataPacketsExact | internal/repository/master_data_github_repository.go:396-427 | a data packet, its final newline aside, is a service or version line, a ref, or an error |
| PktLines.AdvertisementParses | internal/repository/master_data_github_repository.go:396-446 | a printed advertisement parses to its last-wins ref map, whatever service, version and special packets come between |
| PktLines.LastLineWins | internal/repository/master_data_github_repository.go:396-427 | each name has the sha of the last line naming it |

## Left out

- MasterDataStores.MasterDataStore.StoreRegion: files are stored one after another; the worker pool is any order of them (`MasterDataStores.AnyFileOrder`), each file being one transaction, and its per-entity locks are not modelled.
- MasterDataStores.MasterDataStore.WriteEntity: whether the lease admits a transaction is a parameter here; the interleaving is `LeaseRuns`.
- RecordKeys.RecordKeyer.Key: records and bodies are keyed through one decoding; differences of keyFromRaw for integers beyond 2^53 and for differently cased `id` fields, and ids that are arrays or objects, are not modelled.
- LeaseRuns.HolderMatchIsTokenMatch: a statement that runs after its caller gave up on it is not modelled.
- RegionSyncs.SuccessExact: a success without a commit (the source could not be resolved) names no commit, so nothing is claimed for it.
- ResponseCaches.ReplayIsAnswer: a client that gives up while it waits, and a handler that panics, are not modelled.
- CurrentEvents.SelectRow: float-to-integer conversion and the accepted time texts are parameters, the latter within years 0 to 9999.
- Text and case: trimming and lower-casing are those of ASCII; UTF-8 validity is not modelled.
- Records given as decoded values instead of raw JSON (the legacy path), and negative zero.
- Block, projection and record encodings (`encodeBlock`, `decodeBlock`, gob, zstd, JSON text): inverse pairs by hypothesis.
- PostgreSQL itself: one statement is one step, and `master_block_sort_key` is taken to equal `BlockSortKey`.
- Ordering of statuses saved at the same instant, and the Redis store.
- waitForBackgroundWorkers: one step of the coordinator, which may be late.
- HTTP handlers, routing, authentication, configuration, logging, metrics, progress events, archive download and extraction.
