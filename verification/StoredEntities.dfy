/** One entity's rows in the four tables, and what makes them right
    (internal/storage/master_data_postgres_store.go, writeEntity). */
module StoredEntities {
  import opened Text
  import opened Json
  import opened Blocks
  import opened BlockReads
  import opened StoreReads
  import opened Postings
  import opened Projections
  import opened DerivedVersions
  import opened EntityContents
  import opened Collecting
  import opened DerivedData

  datatype Id = Id(region: string, entity: string)

  /** A row of master_entities. */
  datatype EntityRow = EntityRow(
    revision: string,
    sourceDigest: Option<string>,
    recordCount: nat,
    orderKeys: seq<string>,
    indexVersion: string,
    projectionVersion: string)

  /** A row of master_projections. */
  datatype StoredProjection = StoredProjection(version: string, projection: Projection)

  /** An entity's rows: master_entities, master_blocks by first_key,
      master_record_index and master_projections. */
  datatype Stored = Stored(
    row: Option<EntityRow>,
    blocks: Table,
    indexes: Indexes,
    projection: Option<StoredProjection>)

  const ABSENT := Stored(None, map[], map[], None)

  const SOURCE_LAYOUT := "pg-layout1:"

  function SourceTag(digest: string): string {
    SOURCE_LAYOUT + digest
  }

  /** The source files a store is fed from: how bodies decode and digest, and
      which raw records a file with a given digest holds. */
  datatype Sources = Sources(sha: string -> string, decode: Decoder, rawsOf: string -> seq<string>)

  /** Blocks equal to those a full rewrite of the contents would store. */
  ghost predicate BlocksRight(table: Table, contents: Contents)
    requires contents.Valid()
  {
    exists blocks :: BlocksFor(blocks, contents.keys, contents.bodies) && table == TableOf(blocks)
  }

  lemma BlocksReadable(table: Table, contents: Contents)
    requires contents.Valid() && BlocksRight(table, contents)
    ensures TableFor(table, contents.keys, contents.bodies)
  {
    var blocks :| BlocksFor(blocks, contents.keys, contents.bodies) && table == TableOf(blocks);
    StoredTable(blocks, contents.keys, contents.bodies);
  }

  /** There is only one such table. */
  lemma BlocksUnique(a: Table, b: Table, contents: Contents)
    requires contents.Valid() && BlocksRight(a, contents) && BlocksRight(b, contents)
    ensures a == b
  {
    var p :| BlocksFor(p, contents.keys, contents.bodies) && a == TableOf(p);
    var q :| BlocksFor(q, contents.keys, contents.bodies) && b == TableOf(q);
    BlocksDetermined(p, q, contents.keys, contents.bodies);
  }

  ghost predicate RowRight(row: EntityRow, sha: string -> string, contents: Contents)
    requires contents.Valid()
  {
    row.orderKeys == contents.keys && row.recordCount == |contents.keys| && row.revision == Revision(sha, contents)
  }

  /** A recorded source digest names a file whose records these are. */
  ghost predicate SourceRight(row: EntityRow, sources: Sources, entity: string, contents: Contents) {
    row.sourceDigest.Some? ==>
      exists digest ::
        row.sourceDigest.value == SourceTag(digest) &&
        contents == ContentsOf(sources.sha, sources.decode, entity, sources.rawsOf(digest))
  }

  function Plain(stored: Option<StoredProjection>): Option<Projection> {
    if stored.Some? then Some(stored.value.projection) else None
  }

  /** Derived data is what the row's recorded versions call for. */
  ghost predicate DerivedRight(stored: Stored, decode: Decoder, contents: Contents)
    requires contents.Valid() && stored.row.Some?
  {
    && IndexesRight(stored.indexes, NamesFromVersion(stored.row.value.indexVersion, INDEX_SEPARATOR), decode, contents)
    && ProjectionRight(Plain(stored.projection), NamesFromVersion(stored.row.value.projectionVersion, FIELD_SEPARATOR),
                       decode, contents)
    && (stored.projection.Some? ==> stored.projection.value.version == stored.row.value.projectionVersion)
  }

  /** What incremental writing keeps of every entity. */
  ghost predicate EntityRight(stored: Stored, sources: Sources, entity: string, contents: Contents) {
    && contents.Valid()
    && (stored.row.None? ==> stored == ABSENT && contents == NOTHING)
    && (stored.row.Some? ==>
          && RowRight(stored.row.value, sources.sha, contents)
          && SourceRight(stored.row.value, sources, entity, contents)
          && BlocksRight(stored.blocks, contents)
          && DerivedRight(stored, sources.decode, contents))
  }

  predicate Current(row: EntityRow, definitions: Definitions, entity: string) {
    && row.indexVersion == definitions.IndexVersion(entity)
    && row.projectionVersion == definitions.ProjectionVersion(entity)
  }

  lemma AbsentReadable()
    ensures TableFor(map[], [], [])
  {
  }

  lemma AbsentRight(sources: Sources)
    ensures forall entity :: EntityRight(ABSENT, sources, entity, NOTHING)
  {
  }

  lemma Readable(stored: Stored, sources: Sources, entity: string, contents: Contents)
    requires EntityRight(stored, sources, entity, contents)
    ensures TableFor(stored.blocks, contents.keys, contents.bodies)
  {
    if stored.row.Some? {
      BlocksReadable(stored.blocks, contents);
    } else {
      AbsentReadable();
    }
  }

  /** An equal revision means equal contents. */
  lemma SameRevision(row: EntityRow, sha: string -> string, stored: Contents, contents: Contents)
    requires Injective(sha) && stored.Valid() && contents.Valid() && RowRight(row, sha, stored)
    requires row.revision == Revision(sha, contents)
    ensures stored == contents
  {
    RevisionTextInjective(stored, contents);
  }

  // ---------------------------------------------------------------- writing

  /** What one entity file's collected records replace, and what they leave. */
  ghost predicate Wrote(before: Stored, after: Stored, collected: CollectedEntity, definitions: Definitions, entity: string,
                        digest: string, force: bool)
  {
    var changed := force || before.row.None? || before.row.value.revision != collected.revision;
    var indexVersion, projectionVersion := definitions.IndexVersion(entity), definitions.ProjectionVersion(entity);
    && after.row == Some(EntityRow(
         collected.revision,
         if digest != "" then Some(SourceTag(digest)) else if changed then None else before.row.value.sourceDigest,
         if changed then |collected.keys| else before.row.value.recordCount,
         if changed then collected.keys else before.row.value.orderKeys,
         indexVersion, projectionVersion))
    && (changed ==> exists blocks :: |collected.keys| == |collected.records|
                                     && BlocksFor(blocks, collected.keys, collected.records) && after.blocks == TableOf(blocks))
    && (!changed ==> after.blocks == before.blocks)
    && after.indexes
         == (if changed || before.row.value.indexVersion != indexVersion then collected.indexes else before.indexes)
    && after.projection
         == if changed || before.row.value.projectionVersion != projectionVersion
            then (if collected.projection.None? then None
                  else Some(StoredProjection(projectionVersion, collected.projection.value)))
            else before.projection
  }

  lemma WroteDerived(before: Stored, after: Stored, collected: CollectedEntity, sources: Sources, definitions: Definitions,
                     entity: string, digest: string, force: bool, contents: Contents)
    requires definitions.Valid() && contents.Valid()
    requires Wrote(before, after, collected, definitions, entity, digest, force)
    requires CollectedFrom(collected, sources.sha, sources.decode, definitions.EntityIndexes(entity),
                           definitions.ProjectionFields(entity), contents)
    requires !force && before.row.Some? && before.row.value.revision == collected.revision ==>
               DerivedRight(before, sources.decode, contents)
    ensures DerivedRight(after, sources.decode, contents)
  {
    SeparableDefinitions(definitions, entity);
    var changed := force || before.row.None? || before.row.value.revision != collected.revision;
    var indexVersion, projectionVersion := definitions.IndexVersion(entity), definitions.ProjectionVersion(entity);
    CollectedRight(collected, sources, definitions.EntityIndexes(entity), definitions.ProjectionFields(entity), contents);
    if !changed && before.row.value.indexVersion == indexVersion {
      assert after.indexes == before.indexes;
    } else {
      assert after.indexes == collected.indexes;
    }
    if !changed && before.row.value.projectionVersion == projectionVersion {
      assert after.projection == before.projection;
    } else {
      assert Plain(after.projection) == collected.projection;
    }
  }

  lemma CollectedRight(collected: CollectedEntity, sources: Sources, names: seq<string>, fields: seq<string>,
                       contents: Contents)
    requires contents.Valid() && CollectedFrom(collected, sources.sha, sources.decode, names, fields, contents)
    ensures IndexesRight(collected.indexes, names, sources.decode, contents)
    ensures ProjectionRight(collected.projection, fields, sources.decode, contents)
  {
  }

  /** Incremental writing keeps every entity right: what is skipped on an equal
      revision is what a rewrite would store again. */
  lemma WroteRight(before: Stored, after: Stored, collected: CollectedEntity, sources: Sources, definitions: Definitions,
                   entity: string, digest: string, force: bool, old_: Contents, contents: Contents)
    requires Injective(sources.sha) && definitions.Valid() && contents.Valid()
    requires EntityRight(before, sources, entity, old_)
    requires Wrote(before, after, collected, definitions, entity, digest, force)
    requires CollectedFrom(collected, sources.sha, sources.decode, definitions.EntityIndexes(entity),
                           definitions.ProjectionFields(entity), contents)
    requires digest != "" ==> contents == ContentsOf(sources.sha, sources.decode, entity, sources.rawsOf(digest))
    ensures EntityRight(after, sources, entity, contents)
    ensures Current(after.row.value, definitions, entity)
  {
    if !force && before.row.Some? && before.row.value.revision == collected.revision {
      SameRevision(before.row.value, sources.sha, old_, contents);
    }
    WroteDerived(before, after, collected, sources, definitions, entity, digest, force, contents);
  }

  // ---------------------------------------------------------------- rebuilding

  /** What EnsureDerivedEntityData replaces in one entity. */
  ghost predicate Rebuilt(before: Stored, after: Stored, definitions: Definitions, entity: string,
                          indexes: Indexes, projection: Option<Projection>)
  {
    var indexVersion, projectionVersion := definitions.IndexVersion(entity), definitions.ProjectionVersion(entity);
    && before.row.Some?
    && after == before.(
         row := Some(before.row.value.(indexVersion := indexVersion, projectionVersion := projectionVersion)),
         indexes := if before.row.value.indexVersion != indexVersion then indexes else before.indexes,
         projection := if before.row.value.projectionVersion == projectionVersion then before.projection
                       else if projection.None? then None
                       else Some(StoredProjection(projectionVersion, projection.value)))
  }

  lemma RebuiltRight(before: Stored, after: Stored, sources: Sources, definitions: Definitions, entity: string,
                     indexes: Indexes, projection: Option<Projection>, contents: Contents)
    requires definitions.Valid() && EntityRight(before, sources, entity, contents)
    requires Rebuilt(before, after, definitions, entity, indexes, projection)
    requires AllDecode(sources.decode, contents.Raws())
    requires PostingsFor(indexes, definitions.EntityIndexes(entity), contents.keys, RebuiltRecords(sources.decode, contents))
    requires projection
          == ProjectionFor(definitions.ProjectionFields(entity), contents.keys, RebuiltRecords(sources.decode, contents))
    ensures EntityRight(after, sources, entity, contents) && Current(after.row.value, definitions, entity)
  {
    SeparableDefinitions(definitions, entity);
    var row := before.row.value;
    assert RebuiltIndexes(indexes, definitions.EntityIndexes(entity), sources.decode, contents);
    if row.indexVersion == definitions.IndexVersion(entity) {
      assert after.indexes == before.indexes;
    } else {
      assert after.indexes == indexes;
    }
    if row.projectionVersion == definitions.ProjectionVersion(entity) {
      assert after.projection == before.projection;
    } else {
      assert Plain(after.projection) == projection;
    }
    assert RowRight(after.row.value, sources.sha, contents) && SourceRight(after.row.value, sources, entity, contents);
  }

  lemma SamePostings(a: Indexes, b: Indexes, names: seq<string>, decode: Decoder, contents: Contents, name: string, key: string)
    requires contents.Valid() && Unrepeated(contents.keys)
    requires IndexesRight(a, names, decode, contents) && IndexesRight(b, names, decode, contents)
    ensures Posted(a, name, key) == Posted(b, name, key)
  {
    var n := |contents.keys|;
    var collected, rebuilt := CollectedRecords(decode, contents.bodies), RebuiltRecords(decode, contents);
    assert contents.keys[..n] == contents.keys && collected[..n] == collected && rebuilt[..n] == rebuilt;
    CollectedPostingsAgree(decode, contents, name, key, n);
  }

  /** Incremental writing refines full rewriting: however an entity came to its
      contents, its blocks, order keys, count and revision are the ones any
      other way of writing them leaves; and so, once both carry the current
      versions, are its postings for distinct keys, and its projection whenever
      every row projects alike, as it does for distinct keys and records with
      fields. */
  lemma IncrementalEqualsRewrite(incremental: Stored, rewritten: Stored, sources: Sources, definitions: Definitions,
                                 entity: string, contents: Contents)
    requires definitions.Valid() && incremental.row.Some? && rewritten.row.Some?
    requires EntityRight(incremental, sources, entity, contents) && EntityRight(rewritten, sources, entity, contents)
    ensures incremental.blocks == rewritten.blocks
    ensures var a, b := incremental.row.value, rewritten.row.value;
            a.orderKeys == b.orderKeys && a.recordCount == b.recordCount && a.revision == b.revision
    ensures Current(incremental.row.value, definitions, entity) && Current(rewritten.row.value, definitions, entity) ==>
              && (Unrepeated(contents.keys) ==>
                    forall name, key :: Posted(incremental.indexes, name, key) == Posted(rewritten.indexes, name, key))
              && (ProjectedAsStored(definitions.ProjectionFields(entity), sources.decode, contents) ==>
                    incremental.projection == rewritten.projection)
              && (Unrepeated(contents.keys) && NoEmptyObjects(sources.decode, contents.bodies) ==>
                    incremental.projection == rewritten.projection)
  {
    BlocksUnique(incremental.blocks, rewritten.blocks, contents);
    if Current(incremental.row.value, definitions, entity) && Current(rewritten.row.value, definitions, entity) {
      SeparableDefinitions(definitions, entity);
      if Unrepeated(contents.keys) {
        DistinctProjectedAsStored(definitions.ProjectionFields(entity), sources.decode, contents);
        forall name, key ensures Posted(incremental.indexes, name, key) == Posted(rewritten.indexes, name, key) {
          SamePostings(incremental.indexes, rewritten.indexes, definitions.EntityIndexes(entity), sources.decode, contents,
                       name, key);
        }
      }
      if ProjectedAsStored(definitions.ProjectionFields(entity), sources.decode, contents) {
        SameProjection(incremental, rewritten, definitions.ProjectionFields(entity), sources.decode, contents);
      }
    }
  }

  lemma SameProjection(a: Stored, b: Stored, fields: seq<string>, decode: Decoder, contents: Contents)
    requires contents.Valid() && ProjectedAsStored(fields, decode, contents)
    requires ProjectionRight(Plain(a.projection), fields, decode, contents)
    requires ProjectionRight(Plain(b.projection), fields, decode, contents)
    requires a.projection.Some? && b.projection.Some? ==> a.projection.value.version == b.projection.value.version
    ensures a.projection == b.projection
  {
    if fields != [] {
      ProjectionsAgreeExactly(fields, decode, contents);
    }
  }
}
