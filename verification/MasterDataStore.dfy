/** PostgresMasterDataStore (internal/storage/master_data_postgres_store.go):
    incremental writes, pruning and rebuilding over four tables, and the reads
    on top. Every write is one transaction, which commits when the sync lease
    admits it and leaves nothing behind when it does not. */
module MasterDataStores {
  import opened Text
  import opened Json
  import opened Blocks
  import opened BlockReads
  import opened StoreReads
  import opened Postings
  import opened Projections
  import opened DerivedVersions
  import opened EntityContents
  import opened Collecting
  import opened DerivedData
  import opened IndexReads
  import opened StoredEntities

  /** A read that may be refused (ErrUnknownIndex, ErrUnknownProjection) or fail
      on a stored body that is not a record. */
  datatype Read<+T> = Answered(value: T) | NotDefined | Failed

  /** One file of a region's payload: its entity's raw records, or anything else. */
  datatype EntityFile = RecordFile(entity: string, raws: seq<string>, digest: string) | OtherFile(entity: string)

  /** What storing a region's files leaves an entity with: the records of the
      last file of that name, if any. */
  function LastFile(files: seq<EntityFile>, entity: string): Option<seq<string>> {
    if files == [] then None
    else
      var n := |files| - 1;
      if files[n].RecordFile? && files[n].entity == entity && entity != "" then Some(files[n].raws)
      else LastFile(files[..n], entity)
  }

  /** The files marked, in order. */
  function Chosen(files: seq<EntityFile>, marks: seq<bool>): seq<EntityFile>
    requires |files| == |marks|
  {
    if files == [] then []
    else
      var n := |files| - 1;
      Chosen(files[..n], marks[..n]) + if marks[n] then [files[n]] else []
  }

  lemma ChosenOneMore(files: seq<EntityFile>, marks: seq<bool>, mark: bool)
    requires |marks| < |files|
    ensures var i := |marks|;
            Chosen(files[..i + 1], marks + [mark]) == Chosen(files[..i], marks) + if mark then [files[i]] else []
  {
    assert files[..|marks| + 1][..|marks|] == files[..|marks|] && (marks + [mark])[..|marks|] == marks;
  }

  predicate AllMarked(marks: seq<bool>) {
    forall i :: 0 <= i < |marks| ==> marks[i]
  }

  /** Every file that the lease admits is marked. */
  predicate MarksAdmitted(marks: seq<bool>, admitted: seq<bool>) {
    |marks| <= |admitted| && forall i :: 0 <= i < |marks| && admitted[i] ==> marks[i]
  }

  lemma MarkedOneMore(marks: seq<bool>, mark: bool, admitted: seq<bool>)
    requires |marks| < |admitted| && MarksAdmitted(marks, admitted) && (admitted[|marks|] ==> mark)
    ensures AllMarked(marks + [mark]) <==> AllMarked(marks) && mark
    ensures MarksAdmitted(marks + [mark], admitted)
  {
    if AllMarked(marks + [mark]) {
      assert (marks + [mark])[|marks|];
      forall i | 0 <= i < |marks| ensures marks[i] {
        assert (marks + [mark])[i];
      }
    }
  }

  lemma {:induction false} AllChosen(files: seq<EntityFile>, marks: seq<bool>)
    requires |files| == |marks| && forall i :: 0 <= i < |marks| ==> marks[i]
    ensures Chosen(files, marks) == files
  {
    if files != [] {
      AllChosen(files[..|files| - 1], marks[..|files| - 1]);
    }
  }

  lemma {:induction false} NoneChosen(files: seq<EntityFile>, marks: seq<bool>)
    requires |files| == |marks| && forall i :: 0 <= i < |marks| ==> !marks[i]
    ensures Chosen(files, marks) == []
  {
    if files != [] {
      NoneChosen(files[..|files| - 1], marks[..|files| - 1]);
    }
  }

  lemma {:induction false} ChosenAreMarked(files: seq<EntityFile>, marks: seq<bool>, file: EntityFile)
    requires |files| == |marks| && file in Chosen(files, marks)
    ensures exists i :: 0 <= i < |files| && marks[i] && files[i] == file
  {
    var n := |files| - 1;
    if marks[n] && files[n] == file {
    } else {
      ChosenAreMarked(files[..n], marks[..n], file);
      var i :| 0 <= i < n && marks[..n][i] && files[..n][i] == file;
      assert marks[i] && files[i] == file;
    }
  }

  /** Whatever files are stored, none is mixed with another: what is left of an
      entity is what one stored record file of its name holds, if there is one. */
  lemma NeverAMix(files: seq<EntityFile>, stored: seq<bool>, entity: string)
    requires |files| == |stored|
    ensures LastFile(Chosen(files, stored), entity).Some? ==>
              exists i :: 0 <= i < |files| && stored[i] && IsRecordFileOf(files[i], entity) &&
                          files[i].raws == LastFile(Chosen(files, stored), entity).value
  {
    var chosen := Chosen(files, stored);
    LastFileFound(chosen, entity);
    if LastFile(chosen, entity).Some? {
      var file :| file in chosen && IsRecordFileOf(file, entity) && file.raws == LastFile(chosen, entity).value;
      ChosenAreMarked(files, stored, file);
    }
  }

  predicate IsRecordFileOf(file: EntityFile, entity: string) {
    file.RecordFile? && file.entity == entity && entity != ""
  }

  /** The last file found is a record file of the entity, if there is any. */
  lemma {:induction false} LastFileFound(files: seq<EntityFile>, entity: string)
    ensures LastFile(files, entity).Some? ==>
              exists file :: file in files && IsRecordFileOf(file, entity) && file.raws == LastFile(files, entity).value
    ensures LastFile(files, entity).None? ==> forall file :: file in files ==> !IsRecordFileOf(file, entity)
  {
    if files != [] {
      var n := |files| - 1;
      LastFileFound(files[..n], entity);
      assert files == files[..n] + [files[n]];
      if IsRecordFileOf(files[n], entity) {
        assert files[n] in files;
      }
    }
  }

  /** Files of different entities can be stored in any order, as a pool of workers
      does: what they leave any entity with is the same. */
  lemma AnyFileOrder(files: seq<EntityFile>, other: seq<EntityFile>, entity: string)
    requires forall file :: file in files <==> file in other
    requires forall f, g :: f in files && g in files && IsRecordFileOf(f, entity) && IsRecordFileOf(g, entity) ==> f.raws == g.raws
    ensures LastFile(files, entity) == LastFile(other, entity)
  {
    LastFileFound(files, entity);
    LastFileFound(other, entity);
  }

  class MasterDataStore {
    const sources: Sources
    var definitions: Definitions
    var entities: map<Id, EntityRow>
    var blocks: map<Id, Table>
    var indexes: map<Id, Indexes>
    var projections: map<Id, StoredProjection>
    /** What each entity was last written from. */
    ghost var contents: map<Id, Contents>

    ghost function ContentsAt(id: Id): Contents
      reads this
    {
      if id in contents then contents[id] else NOTHING
    }

    /** An entity's contents, None when it has no row. */
    ghost function Held(id: Id): Option<Contents>
      reads this
    {
      if id in entities then Some(ContentsAt(id)) else None
    }

    function At(id: Id): Stored
      reads this
    {
      Stored(if id in entities then Some(entities[id]) else None,
             if id in blocks then blocks[id] else map[],
             if id in indexes then indexes[id] else map[],
             if id in projections then Some(projections[id]) else None)
    }

    /** Every entity's rows are right for what it was last written from. */
    ghost predicate Valid()
      reads this
    {
      && Injective(sources.sha) && definitions.Valid()
      && forall id :: RightAt(id)
    }

    /** One entity's rows are right. */
    ghost predicate RightAt(id: Id)
      reads this
    {
      EntityRight(At(id), sources, id.entity, ContentsAt(id))
    }

    constructor (sources: Sources, definitions: Definitions)
      requires Injective(sources.sha) && definitions.Valid()
      ensures Valid() && this.sources == sources && this.definitions == definitions
      ensures forall id :: At(id) == ABSENT && ContentsAt(id) == NOTHING
    {
      this.sources, this.definitions := sources, definitions;
      entities, blocks, indexes, projections, contents := map[], map[], map[], map[], map[];
      new;
      AbsentRight(sources);
      forall id ensures RightAt(id) {
        assert At(id) == ABSENT && ContentsAt(id) == NOTHING;
      }
    }

    /** A deployment with other index and projection definitions. */
    method Deploy(newDefinitions: Definitions)
      requires Valid() && newDefinitions.Valid()
      modifies this`definitions
      ensures Valid() && definitions == newDefinitions
    {
      definitions := newDefinitions;
      forall id ensures RightAt(id) {
        assert old(RightAt(id));
      }
    }

    /** Commits one entity's rows. */
    method Put(id: Id, stored: Stored, ghost now: Contents)
      modifies this`entities, this`blocks, this`indexes, this`projections, this`contents
      ensures At(id) == stored && ContentsAt(id) == now
      ensures forall other :: other != id ==> At(other) == old(At(other)) && ContentsAt(other) == old(ContentsAt(other))
    {
      if stored.row.Some? {
        entities := entities[id := stored.row.value];
      } else {
        entities := entities - {id};
      }
      blocks := blocks[id := stored.blocks];
      indexes := indexes[id := stored.indexes];
      if stored.projection.Some? {
        projections := projections[id := stored.projection.value];
      } else {
        projections := projections - {id};
      }
      contents := contents[id := now];
    }

    // -------------------------------------------------------------- writes

    /** The rows writeEntity leaves, skipping what the stored revision and
        versions show to be up to date. */
    method Written(id: Id, collected: CollectedEntity, digest: string, force: bool) returns (next: Stored)
      requires |collected.keys| == |collected.records|
      ensures Wrote(At(id), next, collected, definitions, id.entity, digest, force)
    {
      var built := StoreBlocks(collected.keys, collected.records);
      next := At(id);
      var indexVersion, projectionVersion := definitions.IndexVersion(id.entity), definitions.ProjectionVersion(id.entity);
      var found := next.row.Some?;
      var recordsChanged := force || !found || next.row.value.revision != collected.revision;
      if recordsChanged {
        next := next.(blocks := TableOf(built));
      }
      if recordsChanged || next.row.value.indexVersion != indexVersion {
        next := next.(indexes := collected.indexes);
      }
      if recordsChanged || next.row.value.projectionVersion != projectionVersion {
        next := next.(projection := if collected.projection.None? then None
                                    else Some(StoredProjection(projectionVersion, collected.projection.value)));
      }
      var sourceDigest := if digest != "" then Some(SourceTag(digest)) else None;
      if recordsChanged {
        next := next.(row := Some(EntityRow(collected.revision, sourceDigest, |collected.keys|, collected.keys,
                                            indexVersion, projectionVersion)));
      } else {
        var row := next.row.value;
        next := next.(row := Some(row.(sourceDigest := if sourceDigest.Some? then sourceDigest else row.sourceDigest,
                                       indexVersion := indexVersion, projectionVersion := projectionVersion)));
      }
    }

    /** writeEntity: the entity then holds exactly the collected records, with
        derived data of the current definitions, whatever was skipped. */
    method WriteEntity(id: Id, collected: CollectedEntity, digest: string, force: bool, admitted: bool, ghost now: Contents)
      returns (ok: bool)
      requires Valid() && now.Valid()
      requires CollectedFrom(collected, sources.sha, sources.decode, definitions.EntityIndexes(id.entity),
                             definitions.ProjectionFields(id.entity), now)
      requires digest != "" ==> now == ContentsOf(sources.sha, sources.decode, id.entity, sources.rawsOf(digest))
      modifies this
      ensures Valid() && definitions == old(definitions) && ok == admitted
      ensures forall other :: other != id || !ok ==>
                At(other) == old(At(other)) && ContentsAt(other) == old(ContentsAt(other))
      ensures ok ==> ContentsAt(id) == now && Wrote(old(At(id)), At(id), collected, definitions, id.entity, digest, force)
      ensures ok ==> At(id).row.Some? && Current(At(id).row.value, definitions, id.entity)
    {
      var next := Written(id, collected, digest, force);
      if !admitted {
        return false;
      }
      assert RightAt(id);
      WroteRight(At(id), next, collected, sources, definitions, id.entity, digest, force, ContentsAt(id), now);
      Put(id, next, now);
      forall other ensures RightAt(other) {
        assert other != id ==> old(RightAt(other));
      }
      return true;
    }

    /** sourceUnchanged. */
    method SourceUnchanged(id: Id, digest: string) returns (same: bool)
      ensures same <==> At(id).row.Some? && At(id).row.value.sourceDigest == Some(SourceTag(digest)) &&
                             Current(At(id).row.value, definitions, id.entity)
    {
      if id !in entities {
        return false;
      }
      var row := entities[id];
      return row.sourceDigest.Some? && row.sourceDigest.value == SourceTag(digest) &&
             row.indexVersion == definitions.IndexVersion(id.entity) &&
             row.projectionVersion == definitions.ProjectionVersion(id.entity);
    }

    /** A skipped file is one whose records the entity already holds. */
    lemma SkipIsRight(id: Id, digest: string)
      requires Valid() && At(id).row.Some? && At(id).row.value.sourceDigest == Some(SourceTag(digest))
      ensures ContentsAt(id) == ContentsOf(sources.sha, sources.decode, id.entity, sources.rawsOf(digest))
    {
      assert RightAt(id);
      var other :| SourceTag(digest) == SourceTag(other) &&
                   ContentsAt(id) == ContentsOf(sources.sha, sources.decode, id.entity, sources.rawsOf(other));
      assert digest == SourceTag(digest)[|SOURCE_LAYOUT|..] == other;
    }

    /** storeEntityFile: whether the file was skipped, partly skipped or fully
        written, a stored entity holds exactly the file's records. */
    method StoreEntityFile(region: string, file: EntityFile, force: bool, admitted: bool) returns (ok: bool)
      requires Valid()
      requires file.RecordFile? && file.digest != "" ==> file.raws == sources.rawsOf(file.digest)
      modifies this
      ensures Valid() && definitions == old(definitions)
      ensures admitted ==> ok
      ensures var id := Id(region, file.entity);
              var stores := ok && file.RecordFile? && file.entity != "";
              && (forall other :: other != id || !stores ==>
                    At(other) == old(At(other)) && ContentsAt(other) == old(ContentsAt(other)))
              && (stores ==>
                    && ContentsAt(id) == ContentsOf(sources.sha, sources.decode, file.entity, file.raws)
                    && At(id).row.Some? && Current(At(id).row.value, definitions, file.entity)
                    && (file.digest != "" ==> At(id).row.value.sourceDigest == Some("pg-layout1:" + file.digest)))
      ensures var before := old(At(Id(region, file.entity)));
              !force && file.RecordFile? && file.entity != "" && file.digest != "" && before.row.Some? &&
              before.row.value.sourceDigest == Some("pg-layout1:" + file.digest) &&
              before.row.value.indexVersion == definitions.IndexVersion(file.entity) &&
              before.row.value.projectionVersion == definitions.ProjectionVersion(file.entity) ==>
                ok && forall id :: At(id) == old(At(id))
    {
      var id := Id(region, file.entity);
      if file.entity == "" || file.OtherFile? {
        return true;
      }
      if !force && file.digest != "" {
        var same := SourceUnchanged(id, file.digest);
        if same {
          SkipIsRight(id, file.digest);
          return true;
        }
      }
      var collected := CollectEntity(sources.sha, sources.decode, file.entity, definitions.EntityIndexes(file.entity),
                                     definitions.ProjectionFields(file.entity), file.raws);
      CollectedValid(sources.sha, sources.decode, file.entity, file.raws);
      ok := WriteEntity(id, collected, file.digest, force, admitted,
                        ContentsOf(sources.sha, sources.decode, file.entity, file.raws));
    }

    /** What storing one file does to what every entity holds. */
    method StoreNext(region: string, file: EntityFile, force: bool, admitted: bool) returns (ok: bool)
      requires Valid()
      requires file.RecordFile? && file.digest != "" ==> file.raws == sources.rawsOf(file.digest)
      modifies this
      ensures Valid() && definitions == old(definitions) && (admitted ==> ok)
      ensures var stored := ok && file.RecordFile? && file.entity != "";
              && (forall id :: Held(id) == if stored && id == Id(region, file.entity)
                               then Some(ContentsOf(sources.sha, sources.decode, file.entity, file.raws))
                               else old(Held(id)))
              && forall id: Id :: id.region != region ==> At(id) == old(At(id)) && ContentsAt(id) == old(ContentsAt(id))
    {
      ok := StoreEntityFile(region, file, force, admitted);
      assert admitted ==> ok;
      assert forall id :: At(id).row.Some? <==> id in entities;
    }

    /** What a region holds of an entity once some files are stored. */
    ghost function StoredFrom(files: seq<EntityFile>, region: string, id: Id, before: Option<Contents>): Option<Contents> {
      if id.region == region && LastFile(files, id.entity).Some?
      then Some(ContentsOf(sources.sha, sources.decode, id.entity, LastFile(files, id.entity).value))
      else before
    }

    lemma StoredFromOneMore(files: seq<EntityFile>, file: EntityFile, region: string, id: Id, before: Option<Contents>,
                            now: Option<Contents>)
      requires now == if file.RecordFile? && file.entity != "" && id == Id(region, file.entity)
                      then Some(ContentsOf(sources.sha, sources.decode, id.entity, file.raws))
                      else StoredFrom(files, region, id, before)
      ensures now == StoredFrom(files + [file], region, id, before)
    {
      assert (files + [file])[..|files|] == files;
    }

    /** StoreRegionWithSourceDigests, file by file in any order: a file that fails
        does not keep the others from being stored, so every entity named by a
        stored file holds the last one's records and every other entity is as
        before; none holds a mix. It succeeds when all files are stored. */
    method StoreRegion(region: string, files: seq<EntityFile>, force: bool, admitted: seq<bool>)
      returns (ok: bool, ghost stored: seq<bool>)
      requires Valid() && |admitted| == |files|
      requires forall i :: 0 <= i < |files| && files[i].RecordFile? && files[i].digest != "" ==>
                 files[i].raws == sources.rawsOf(files[i].digest)
      modifies this
      ensures Valid() && definitions == old(definitions)
      ensures |stored| == |files|
      ensures region != "" ==> forall i :: 0 <= i < |files| && admitted[i] ==> stored[i]
      ensures ok <==> region != "" && forall i :: 0 <= i < |files| ==> stored[i]
      ensures forall id :: Held(id) == StoredFrom(Chosen(files, stored), region, id, old(Held(id)))
      ensures ok ==> Chosen(files, stored) == files
      ensures forall id: Id :: id.region != region ==> At(id) == old(At(id)) && ContentsAt(id) == old(ContentsAt(id))
    {
      if region == "" {
        ok, stored := false, seq(|files|, _ => false);
        NoneChosen(files, stored);
        return;
      }
      ok, stored := true, [];
      ghost var done: seq<EntityFile> := [];
      for i := 0 to |files|
        invariant Valid() && definitions == old(definitions)
        invariant |stored| == i && done == Chosen(files[..i], stored)
        invariant MarksAdmitted(stored, admitted) && ok == AllMarked(stored)
        invariant forall id :: Held(id) == StoredFrom(done, region, id, old(Held(id)))
        invariant forall id: Id :: id.region != region ==> At(id) == old(At(id)) && ContentsAt(id) == old(ContentsAt(id))
      {
        var next := StoreNext(region, files[i], force, admitted[i]);
        ChosenOneMore(files, stored, next);
        MarkedOneMore(stored, next, admitted);
        if next {
          forall id ensures Held(id) == StoredFrom(done + [files[i]], region, id, old(Held(id))) {
            StoredFromOneMore(done, files[i], region, id, old(Held(id)), Held(id));
          }
          done := done + [files[i]];
        }
        stored := stored + [next];
        ok := ok && next;
      }
      assert files[..|files|] == files;
      if ok {
        AllChosen(files, stored);
      }
    }

    /** PruneRegionEntities: deletes the region's entities that keep does not
        name, with all their rows; an empty keep list deletes nothing. */
    method PruneRegionEntities(region: string, keep: seq<string>, admitted: bool) returns (ok: bool)
      requires Valid()
      modifies this
      ensures Valid() && definitions == old(definitions)
      ensures var prunes := region != "" && (exists entity :: entity in keep && entity != "");
              && ok == (admitted || !prunes)
              && forall id: Id ::
                   if ok && prunes && id.region == region && (id.entity !in keep || id.entity == "")
                   then At(id) == ABSENT && ContentsAt(id) == NOTHING
                   else At(id) == old(At(id)) && ContentsAt(id) == old(ContentsAt(id))
    {
      var kept := NamedEntities(keep);
      if region == "" || |kept| == 0 {
        return true;
      }
      assert kept[0] in kept;
      if !admitted {
        return false;
      }
      var removed := set id | id in entities && id.region == region && id.entity !in kept;
      forall id | id !in entities ensures At(id) == ABSENT && ContentsAt(id) == NOTHING {
        UnknownEntity(id);
      }
      Delete(removed);
      return true;
    }

    /** What pruning does to what every entity holds. */
    method PruneHeld(region: string, keep: seq<string>, admitted: bool) returns (ok: bool)
      requires Valid()
      modifies this
      ensures Valid() && definitions == old(definitions) && (admitted ==> ok)
      ensures var prunes := region != "" && (exists entity :: entity in keep && entity != "");
              forall id :: Held(id) == if ok && prunes && id.region == region && (id.entity !in keep || id.entity == "")
                                       then None else old(Held(id))
      ensures forall id: Id :: id.region != region ==> At(id) == old(At(id)) && ContentsAt(id) == old(ContentsAt(id))
    {
      ok := PruneRegionEntities(region, keep, admitted);
      assert forall id :: Held(id).Some? <==> At(id).row.Some?;
    }

    lemma UnknownEntity(id: Id)
      requires Valid() && id !in entities
      ensures At(id) == ABSENT && ContentsAt(id) == NOTHING
    {
      assert RightAt(id);
    }

    /** Deletes all rows of some entities. */
    method DeleteRows(removed: set<Id>)
      modifies this`entities, this`blocks, this`indexes, this`projections, this`contents
      ensures forall id :: id in removed ==> At(id) == ABSENT && ContentsAt(id) == NOTHING
      ensures forall id :: id !in removed ==> At(id) == old(At(id)) && ContentsAt(id) == old(ContentsAt(id))
    {
      entities := entities - removed;
      blocks := blocks - removed;
      indexes := indexes - removed;
      projections := projections - removed;
      contents := contents - removed;
    }

    method Delete(removed: set<Id>)
      requires Valid()
      modifies this`entities, this`blocks, this`indexes, this`projections, this`contents
      ensures Valid()
      ensures forall id :: id in removed ==> At(id) == ABSENT && ContentsAt(id) == NOTHING
      ensures forall id :: id !in removed ==> At(id) == old(At(id)) && ContentsAt(id) == old(ContentsAt(id))
    {
      DeleteRows(removed);
      AbsentRight(sources);
      forall id ensures RightAt(id) {
        assert old(RightAt(id));
      }
    }

    /** The non-empty names of a keep list. */
    method NamedEntities(keep: seq<string>) returns (kept: seq<string>)
      ensures forall entity :: entity in kept <==> entity in keep && entity != ""
    {
      kept := [];
      for i := 0 to |keep|
        invariant forall entity :: entity in kept <==> entity in keep[..i] && entity != ""
      {
        assert keep[..i + 1] == keep[..i] + [keep[i]];
        if keep[i] != "" {
          kept := kept + [keep[i]];
        }
      }
      assert keep[..|keep|] == keep;
    }

    // -------------------------------------------------------------- derived data

    /** Nothing of the entity is out of date: it holds no records, or its rows
        carry the current versions. */
    predicate UpToDate(id: Id)
      reads this
    {
      var row := At(id).row;
      row.Some? && row.value.recordCount > 0 ==> Current(row.value, definitions, id.entity)
    }

    /** An entity's keys and decoded records in source order. */
    method LoadDecodedInOrder(id: Id) returns (keys: seq<string>, records: Result<seq<Option<Record>>>)
      requires Valid()
      ensures keys == ContentsAt(id).keys
      ensures ContentsAt(id).Valid()
      ensures records == if AllDecode(sources.decode, ContentsAt(id).Raws())
                         then Ok(RebuiltRecords(sources.decode, ContentsAt(id))) else Err
    {
      ghost var c := ContentsAt(id);
      assert RightAt(id);
      Readable(At(id), sources, id.entity, c);
      var rows := LoadEntityInOrder(At(id).blocks, c.keys, c.bodies);
      keys := rows.value.keys;
      records := DecodeRecords(sources.decode, rows.value.raws);
    }

    /** One entity's turn of EnsureDerivedEntityData. */
    method RebuildEntity(id: Id, admitted: bool) returns (rebuilt: Result<bool>)
      requires Valid()
      modifies this
      ensures Valid() && definitions == old(definitions)
      ensures forall other :: ContentsAt(other) == old(ContentsAt(other))
      ensures forall other :: other != id || rebuilt != Ok(true) ==> At(other) == old(At(other))
      ensures rebuilt.Ok? ==> UpToDate(id) && (rebuilt.value <==> !old(UpToDate(id)))
      ensures rebuilt.Ok? && id in entities && entities[id].recordCount > 0 ==>
                entities[id].indexVersion == definitions.IndexVersion(id.entity) &&
                entities[id].projectionVersion == definitions.ProjectionVersion(id.entity)
      ensures rebuilt.Err? ==> !old(UpToDate(id)) && ContentsAt(id).Valid()
                               && (!admitted || !AllDecode(sources.decode, ContentsAt(id).Raws()))
    {
      if id !in entities {
        return Ok(false);
      }
      var row := entities[id];
      var fields := definitions.ProjectionFields(id.entity);
      var indexesStale := row.indexVersion != definitions.IndexVersion(id.entity);
      var projectionStale := row.projectionVersion != definitions.ProjectionVersion(id.entity);
      if row.recordCount == 0 || (!indexesStale && !projectionStale) {
        return Ok(false);
      }
      var keys, records := LoadDecodedInOrder(id);
      if records.Err? {
        return Err;
      }
      var projection := ProjectRows(fields, keys, records.value);
      if !admitted {
        return Err;
      }
      var next := At(id);
      var built := BuildIndexes(definitions.EntityIndexes(id.entity), keys, records.value);
      if indexesStale {
        next := next.(indexes := built);
      }
      if projectionStale {
        next := next.(projection := if projection.None? then None
                                    else Some(StoredProjection(definitions.ProjectionVersion(id.entity), projection.value)));
      }
      next := next.(row := Some(row.(indexVersion := definitions.IndexVersion(id.entity),
                                     projectionVersion := definitions.ProjectionVersion(id.entity))));
      assert RightAt(id);
      RebuiltRight(At(id), next, sources, definitions, id.entity, built, projection, ContentsAt(id));
      Put(id, next, ContentsAt(id));
      forall other ensures RightAt(other) {
        assert other != id ==> old(RightAt(other));
      }
      return Ok(true);
    }

    /** The lease refuses the rebuild, or a stored record does not decode. */
    ghost predicate CannotRebuild(id: Id, admitted: bool)
      reads this
    {
      ContentsAt(id).Valid() && (!admitted || !AllDecode(sources.decode, ContentsAt(id).Raws()))
    }

    /** One entity's turn, as the others see it. */
    method RebuildNext(region: string, entity: string, admitted: bool) returns (ok: bool)
      requires Valid()
      modifies this
      ensures Valid() && definitions == old(definitions)
      ensures forall id :: ContentsAt(id) == old(ContentsAt(id))
      ensures forall id: Id :: id.region != region ==> At(id) == old(At(id))
      ensures forall id :: old(UpToDate(id)) ==> UpToDate(id)
      ensures if ok then UpToDate(Id(region, entity)) else CannotRebuild(Id(region, entity), admitted)
    {
      var rebuilt := RebuildEntity(Id(region, entity), admitted);
      return rebuilt.Ok?;
    }

    ghost predicate FirstUpToDate(region: string, listed: seq<string>, n: nat)
      reads this
      requires n <= |listed|
    {
      forall j :: 0 <= j < n ==> UpToDate(Id(region, listed[j]))
    }

    /** EnsureDerivedEntityData: records never change, and after success no entity
        listed is out of date; it fails only on an entity that cannot be rebuilt. */
    method EnsureDerivedEntityData(region: string, derived: seq<string>, admitted: bool)
      returns (ok: bool, ghost failed: string)
      requires Valid()
      modifies this
      ensures Valid() && definitions == old(definitions)
      ensures forall id :: ContentsAt(id) == old(ContentsAt(id))
      ensures forall id: Id :: id.region != region ==> At(id) == old(At(id))
      ensures ok ==> forall j :: 0 <= j < |derived| ==> UpToDate(Id(region, derived[j]))
      ensures !ok ==> failed in derived && CannotRebuild(Id(region, failed), admitted)
    {
      failed := "";
      for i := 0 to |derived|
        invariant Valid() && definitions == old(definitions)
        invariant forall id :: ContentsAt(id) == old(ContentsAt(id))
        invariant forall id: Id :: id.region != region ==> At(id) == old(At(id))
        invariant FirstUpToDate(region, derived, i)
      {
        var rebuilt := RebuildNext(region, derived[i], admitted);
        if !rebuilt {
          return false, derived[i];
        }
      }
      return true, failed;
    }

    // -------------------------------------------------------------- reads

    /** fetchRecords: each key's last record, aligned with the keys asked for. */
    method FetchRecords(id: Id, query: seq<string>) returns (records: Result<seq<Option<Record>>>)
      requires Valid()
      ensures ContentsAt(id).Valid()
      ensures var raws := LastRecords(ContentsAt(id).keys, ContentsAt(id).bodies, query);
              records == if AllDecode(sources.decode, raws) then Ok(StoredRecords(sources.decode, raws)) else Err
    {
      ghost var c := ContentsAt(id);
      assert RightAt(id);
      Readable(At(id), sources, id.entity, c);
      var raws := FetchRaws(At(id).blocks, query, c.keys, c.bodies);
      records := DecodeRecords(sources.decode, raws);
    }

    method ListAllRecords(id: Id) returns (items: Result<seq<Record>>)
      requires Valid()
      ensures ContentsAt(id).Valid() && items == Items(sources.decode, ContentsAt(id).Raws())
    {
      ghost var c := ContentsAt(id);
      assert RightAt(id);
      Readable(At(id), sources, id.entity, c);
      items := ListAll(At(id).blocks, sources.decode, c.keys, c.bodies);
    }

    method ListPage(id: Id, page: int, pageSize: int) returns (items: Result<seq<Record>>, total: nat)
      requires Valid()
      ensures ContentsAt(id).Valid() && total == |ContentsAt(id).keys|
      ensures var keys := ContentsAt(id).keys;
              var number := if page <= 0 then 1 else page;
              var size := if pageSize <= 0 then 20 else if pageSize > 100 then 100 else pageSize;
              var low := if (number - 1) * size < |keys| then (number - 1) * size else |keys|;
              var high := if number * size < |keys| then number * size else |keys|;
              0 <= low <= high <= |keys| &&
              items == Items(sources.decode, LastRecords(keys, ContentsAt(id).bodies, keys[low..high]))
    {
      ghost var c := ContentsAt(id);
      assert RightAt(id);
      Readable(At(id), sources, id.entity, c);
      if id !in entities {
        NoItems(sources.decode, [], []);
        return Ok([]), 0;
      }
      var row := entities[id];
      items, total := ListByPage(At(id).blocks, row.recordCount, row.orderKeys, sources.decode, page, pageSize,
                                 c.keys, c.bodies);
    }

    /** Some lookup has a key and the entity has records. */
    ghost predicate Searches(id: Id, asked: seq<Option<string>>)
      reads this
    {
      At(id).row.Some? && At(id).row.value.recordCount > 0 && exists p :: 0 <= p < |asked| && asked[p].Some?
    }

    predicate IndexIsCurrent(id: Id)
      reads this
    {
      At(id).row.Some? && At(id).row.value.indexVersion == definitions.IndexVersion(id.entity)
    }

    /** What scanning an entity's stored records answers. */
    ghost function Scanned(id: Id, index: string, asked: seq<Option<string>>): Results
      reads this
      requires ContentsAt(id).Valid()
    {
      Answers(Present(RebuiltRecords(sources.decode, ContentsAt(id))), index, asked)
    }

    /** A read through current postings: it answers what they name, or fails on a
        named record that does not decode. */
    ghost predicate ReadThroughPostings(id: Id, index: string, asked: seq<Option<string>>, result: Read<Results>)
      reads this
      requires ContentsAt(id).Valid()
    {
      var c, indexes, names := ContentsAt(id), At(id).indexes, definitions.EntityIndexes(id.entity);
      && result == (if AskedDecode(sources.decode, c, indexes, index, asked)
                    then Answered(PostedAnswers(sources.decode, c, indexes, index, asked)) else Failed)
      && (RebuiltIndexes(indexes, names, sources.decode, c) || Unrepeated(c.keys) ==>
            result == Answered(Scanned(id, index, asked)))
      && (CollectedIndexes(indexes, names, sources.decode, c) && result.Answered? ==>
            (result == Answered(Scanned(id, index, asked)) <==> AskedAsStored(sources.decode, c, index, asked)))
    }

    lemma PostingsReadExactly(id: Id, index: string, asked: seq<Option<string>>, result: Read<Results>)
      requires Valid() && definitions.HasIndex(id.entity, index) && IndexIsCurrent(id)
      requires ContentsAt(id).Valid()
      requires result == if AskedDecode(sources.decode, ContentsAt(id), At(id).indexes, index, asked)
                         then Answered(PostedAnswers(sources.decode, ContentsAt(id), At(id).indexes, index, asked))
                         else Failed
      ensures ReadThroughPostings(id, index, asked, result)
    {
      var c, indexes, names := ContentsAt(id), At(id).indexes, definitions.EntityIndexes(id.entity);
      CurrentPostings(id);
      PostedAnswersEqualScan(indexes, names, sources.decode, c, index, asked);
      if RebuiltIndexes(indexes, names, sources.decode, c) || Unrepeated(c.keys) {
        PostedAlwaysDecode(indexes, names, sources.decode, c, index, asked);
      }
    }

    /** ListByIndex. Without current postings it answers what a scan of the
        stored records finds, in stored order, and depends on every record
        decoding. Through current postings it answers what they name: what a scan
        finds when they were rebuilt or the keys are distinct, and for any
        collected postings exactly when each asked key was collected as stored. */
    method ListByIndex(id: Id, index: string, lookups: seq<Lookup>) returns (result: Read<Results>)
      requires Valid()
      ensures ContentsAt(id).Valid()
      ensures result == NotDefined <==> !definitions.HasIndex(id.entity, index)
      ensures definitions.HasIndex(id.entity, index) && !(Searches(id, AskedKeys(lookups)) && IndexIsCurrent(id)) ==>
                result == if Searches(id, AskedKeys(lookups)) && !AllDecode(sources.decode, ContentsAt(id).Raws()) then Failed
                          else Answered(Scanned(id, index, AskedKeys(lookups)))
      ensures definitions.HasIndex(id.entity, index) && Searches(id, AskedKeys(lookups)) && IndexIsCurrent(id) ==>
                ReadThroughPostings(id, index, AskedKeys(lookups), result)
    {
      ghost var c, asked := ContentsAt(id), AskedKeys(lookups);
      assert RightAt(id);
      Readable(At(id), sources, id.entity, c);
      if !definitions.HasIndex(id.entity, index) {
        return NotDefined;
      }
      var keys, positions := KeyedLookups(lookups);
      if |keys| == 0 {
        UnaskedAnswers(Present(RebuiltRecords(sources.decode, c)), index, asked);
        return Answered(seq(|lookups|, _ => None));
      }
      assert asked[positions[0]].Some?;
      if id !in entities || entities[id].recordCount == 0 {
        assert c.keys == [] && c.bodies == [];
        assert RebuiltRecords(sources.decode, c) == [];
        var empty := NoRecords(asked, |lookups|, positions, keys, index);
        return Answered(empty);
      }
      if entities[id].indexVersion != definitions.IndexVersion(id.entity) {
        var records := ListAllRecords(id);
        if records.Err? {
          return Failed;
        }
        var scanned := ScanByIndex(records.value, index, asked, |lookups|, keys, positions);
        return Answered(scanned);
      }
      var read := ReadByPostings(At(id).blocks, At(id).indexes, index, asked, |lookups|, keys, positions,
                                 sources.decode, c);
      AskedAreKeys(sources.decode, c, At(id).indexes, index, asked, keys, positions);
      result := if read.Err? then Failed else Answered(read.value);
      PostingsReadExactly(id, index, asked, result);
    }

    /** Postings recorded under the current version are those of the current
        definitions. */
    lemma CurrentPostings(id: Id)
      requires Valid() && id in entities && entities[id].indexVersion == definitions.IndexVersion(id.entity)
      ensures ContentsAt(id).Valid()
      ensures IndexesRight(At(id).indexes, definitions.EntityIndexes(id.entity), sources.decode, ContentsAt(id))
    {
      assert RightAt(id);
      SeparableDefinitions(definitions, id.entity);
    }

    /** A stored projection recorded under the current version is that of the
        current definitions. */
    lemma CurrentProjection(id: Id)
      requires Valid() && id in entities && At(id).projection.Some?
      requires At(id).projection.value.version == definitions.ProjectionVersion(id.entity)
      ensures ContentsAt(id).Valid()
      ensures ProjectionRight(Plain(At(id).projection), definitions.ProjectionFields(id.entity), sources.decode, ContentsAt(id))
    {
      assert RightAt(id);
      SeparableDefinitions(definitions, id.entity);
    }

    /** The entity has records and a projection of the current version. */
    predicate ProjectionIsCurrent(id: Id)
      reads this
    {
      && At(id).row.Some? && At(id).row.value.recordCount > 0
      && At(id).projection.Some? && At(id).projection.value.version == definitions.ProjectionVersion(id.entity)
    }

    /** LoadProjection. Without a current projection it answers what is built from
        the stored records; with one, what is stored: the same when it was rebuilt
        from them, and when it was collected exactly if every row projects alike,
        which for distinct keys is: if no record is an empty object. */
    method LoadProjection(id: Id) returns (result: Read<Projection>)
      requires Valid()
      ensures ContentsAt(id).Valid()
      ensures result == NotDefined <==> definitions.ProjectionVersion(id.entity) == ""
      ensures definitions.ProjectionVersion(id.entity) != "" ==>
                var fields, decode, c := definitions.ProjectionFields(id.entity), sources.decode, ContentsAt(id);
                var built := ProjectionFor(fields, c.keys, RebuiltRecords(decode, c));
                && built.Some?
                && (!ProjectionIsCurrent(id) ==> result == if AllDecode(decode, c.Raws()) then Answered(built.value) else Failed)
                && (ProjectionIsCurrent(id) ==>
                      var stored := At(id).projection.value.projection;
                      && result == Answered(stored)
                      && (CollectedProjection(Some(stored), fields, decode, c) || RebuiltProjection(Some(stored), fields, decode, c))
                      && (CollectedProjection(Some(stored), fields, decode, c) ==>
                            (result == Answered(built.value) <==> ProjectedAsStored(fields, decode, c)) &&
                            (Unrepeated(c.keys) ==>
                               (result == Answered(built.value) <==> NoEmptyObjects(decode, c.bodies)))))
    {
      ghost var c := ContentsAt(id);
      assert RightAt(id);
      Readable(At(id), sources, id.entity, c);
      var fields := definitions.ProjectionFields(id.entity);
      if definitions.ProjectionVersion(id.entity) == "" {
        return NotDefined;
      }
      assert fields != [];
      if id !in entities || entities[id].recordCount == 0 {
        assert c.keys == [] && c.bodies == [];
        assert RebuiltRecords(sources.decode, c) == [];
        var empty := BuildProjection(fields, [], []);
        return Answered(empty);
      }
      if id !in projections || projections[id].version != definitions.ProjectionVersion(id.entity) {
        var keys, records := LoadDecodedInOrder(id);
        if records.Err? {
          return Failed;
        }
        var built := BuildProjection(fields, keys, records.value);
        return Answered(built);
      }
      CurrentProjection(id);
      ProjectionsAgreeExactly(fields, sources.decode, c);
      if Unrepeated(c.keys) {
        DistinctProjectedAsStored(fields, sources.decode, c);
      }
      return Answered(projections[id].projection);
    }
  }

  lemma UnaskedAnswers(records: seq<Record>, index: string, asked: seq<Option<string>>)
    requires forall p :: 0 <= p < |asked| ==> asked[p].None?
    ensures Answers(records, index, asked) == seq(|asked|, _ => None)
  {
  }
}
