/** The store and prune phases of a full sync over the real store
    (internal/usecase/master_data_sync_usecase.go, storeRegionPayload and
    pruneRemovedEntities, over internal/storage/master_data_postgres_store.go). */
module FullSyncs {
  import opened Text
  import opened EntityContents
  import opened StoredEntities
  import opened MasterDataStores
  import Regions = RegionSyncs

  /** The entities a payload's files name. */
  function Names(files: seq<EntityFile>): seq<string> {
    seq(|files|, i requires 0 <= i < |files| => files[i].entity)
  }

  /** A payload's files by entity: the last record file of each name wins over
      its other files. */
  function PayloadOf(sources: Sources, files: seq<EntityFile>): Regions.Payload {
    map entity | entity in Names(files) && entity != "" ::
      if LastFile(files, entity).Some?
      then Some(ContentsOf(sources.sha, sources.decode, entity, LastFile(files, entity).value)) else None
  }

  /** The entities stored of a region. */
  ghost function RegionData(store: MasterDataStore, region: string): Regions.Data
    reads store
  {
    var entities := set id | id in store.entities && id.region == region :: id.entity;
    map entity | entity in entities :: store.ContentsAt(Id(region, entity))
  }

  lemma RegionDataHolds(store: MasterDataStore, region: string, entity: string)
    ensures var held := store.Held(Id(region, entity));
            && (entity in RegionData(store, region) <==> held.Some?)
            && (held.Some? ==> RegionData(store, region)[entity] == held.value)
  {
    if Id(region, entity) in store.entities {
      assert Id(region, entity).entity == entity;
    }
  }

  lemma {:induction false} LastFileIsNamed(files: seq<EntityFile>, entity: string)
    requires LastFile(files, entity).Some?
    ensures entity in Names(files) && entity != ""
  {
    var n := |files| - 1;
    if !(files[n].RecordFile? && files[n].entity == entity && entity != "") {
      LastFileIsNamed(files[..n], entity);
      assert Names(files)[..n] == Names(files[..n]);
    } else {
      assert Names(files)[n] == entity;
    }
  }

  /** Some file has a name, so pruning to the files deletes what they do not name. */
  predicate SomeNamed(files: seq<EntityFile>) {
    exists entity :: entity in Names(files) && entity != ""
  }

  /** What storing and pruning leave of one entity. */
  ghost function After(store: MasterDataStore, region: string, files: seq<EntityFile>, entity: string,
                       before: Option<Contents>): Option<Contents> {
    if SomeNamed(files) && (entity !in Names(files) || entity == "") then None
    else store.StoredFrom(files, region, Id(region, entity), before)
  }

  /** In plain words: an entity with record files holds the last one's records; one
      named by other files alone holds what it held; any other is gone, unless no
      file has a name at all. */
  lemma AfterExact(store: MasterDataStore, region: string, files: seq<EntityFile>, entity: string, before: Option<Contents>)
    ensures var named := exists i :: 0 <= i < |files| && files[i].entity != "";
            var here := entity != "" && exists i :: 0 <= i < |files| && files[i].entity == entity;
            After(store, region, files, entity, before)
              == if LastFile(files, entity).Some?
                 then Some(ContentsOf(store.sources.sha, store.sources.decode, entity, LastFile(files, entity).value))
                 else if here || !named then before else None
  {
    if LastFile(files, entity).Some? {
      LastFileIsNamed(files, entity);
    }
    forall i | 0 <= i < |files| ensures files[i].entity in Names(files) {
      assert Names(files)[i] == files[i].entity;
    }
  }

  /** Entity by entity, that is overwriting the region's data with the payload
      and pruning it to the payload. */
  lemma AfterIsPruned(store: MasterDataStore, region: string, files: seq<EntityFile>, before: Regions.Data, entity: string)
    ensures var payload := PayloadOf(store.sources, files);
            var data := Regions.Pruned(Regions.Overwritten(before, payload), payload);
            After(store, region, files, entity, if entity in before then Some(before[entity]) else None)
              == if entity in data then Some(data[entity]) else None
  {
    var payload := PayloadOf(store.sources, files);
    if LastFile(files, entity).Some? {
      LastFileIsNamed(files, entity);
    }
    assert forall name :: name in Names(files) && name != "" <==> name in payload;
    assert payload == map[] <==> !SomeNamed(files) by {
      if payload != map[] {
        var name :| name in payload;
      }
    }
  }

  lemma RegionDataIs(store: MasterDataStore, region: string, data: Regions.Data)
    requires forall entity :: store.Held(Id(region, entity)) == if entity in data then Some(data[entity]) else None
    ensures RegionData(store, region) == data
  {
    forall entity
      ensures entity in RegionData(store, region) <==> entity in data
      ensures entity in data ==> RegionData(store, region)[entity] == data[entity]
    {
      RegionDataHolds(store, region, entity);
    }
  }

  /** Entity by entity. */
  method StoreThenPrune(store: MasterDataStore, region: string, files: seq<EntityFile>, force: bool,
                        admitted: seq<bool>, pruneAdmitted: bool)
    returns (ok: bool)
    requires store.Valid() && |admitted| == |files|
    requires forall i :: 0 <= i < |files| && files[i].RecordFile? && files[i].digest != "" ==>
               files[i].raws == store.sources.rawsOf(files[i].digest)
    modifies store
    ensures store.Valid()
    ensures region != "" && pruneAdmitted && (forall i :: 0 <= i < |admitted| ==> admitted[i]) ==> ok
    ensures ok ==> forall entity ::
              store.Held(Id(region, entity)) == After(store, region, files, entity, old(store.Held(Id(region, entity))))
    ensures forall id: Id :: id.region != region ==> store.At(id) == old(store.At(id)) &&
                                                     store.ContentsAt(id) == old(store.ContentsAt(id))
  {
    ghost var stored;
    ok, stored := store.StoreRegion(region, files, force, admitted);
    if !ok || |files| == 0 {
      return;
    }
    ok := store.PruneHeld(region, Names(files), pruneAdmitted);
  }

  /** Storing a payload and pruning what it no longer names. When both succeed,
      the region's data is overwritten with the payload and pruned to it, and so
      holds exactly what the payload loads if and only if the payload has files
      or nothing was stored, and no stored entity is named by files without
      records alone. Other regions are untouched. */
  method StoreAndPrune(store: MasterDataStore, region: string, files: seq<EntityFile>, force: bool,
                       admitted: seq<bool>, pruneAdmitted: bool)
    returns (ok: bool)
    requires store.Valid() && |admitted| == |files|
    requires forall i :: 0 <= i < |files| && files[i].RecordFile? && files[i].digest != "" ==>
               files[i].raws == store.sources.rawsOf(files[i].digest)
    modifies store
    ensures store.Valid()
    ensures region != "" && pruneAdmitted && (forall i :: 0 <= i < |admitted| ==> admitted[i]) ==> ok
    ensures ok ==>
              var before, payload := old(RegionData(store, region)), PayloadOf(store.sources, files);
              && RegionData(store, region) == Regions.Pruned(Regions.Overwritten(before, payload), payload)
              && (RegionData(store, region) == Regions.Entities(payload) <==>
                    (payload == map[] ==> before == map[]) &&
                    (forall name :: name in before && name in payload ==> payload[name].Some?))
    ensures ok ==> forall entity ::
              store.Held(Id(region, entity)) == After(store, region, files, entity, old(store.Held(Id(region, entity))))
    ensures forall id: Id :: id.region != region ==> store.At(id) == old(store.At(id)) &&
                                                     store.ContentsAt(id) == old(store.ContentsAt(id))
  {
    ghost var before, payload := RegionData(store, region), PayloadOf(store.sources, files);
    ghost var after := Regions.Pruned(Regions.Overwritten(before, payload), payload);
    forall entity
      ensures After(store, region, files, entity, store.Held(Id(region, entity)))
           == if entity in after then Some(after[entity]) else None
    {
      RegionDataHolds(store, region, entity);
      AfterIsPruned(store, region, files, before, entity);
    }
    ok := StoreThenPrune(store, region, files, force, admitted, pruneAdmitted);
    if ok {
      RegionDataIs(store, region, after);
      Regions.FullStoreExact(before, payload);
    }
  }
}
