/** `publish_assets` as the loops it is, against a store that may stop answering at any operation. */
module PublishClient {
  import opened Bytes
  import opened Publish

  /** Operation `2 * i` of the uploads stores the bytes of asset `i`, the next one its metadata. */
  lemma {:induction false} UploadAt(app: string, assets: seq<Asset>, i: nat)
    requires i < |assets|
    ensures var a := assets[i];
            && Uploads(app, assets)[2 * i] == Put(BytesKey(app, a.filename), Payload(a.payload))
            && Uploads(app, assets)[2 * i + 1] == Put(MetaKey(app, a.filename), Meta(a.contentType, a.sha256, a.size))
  {
    hide BytesKey, MetaKey;
    if i < |assets| - 1 {
      UploadAt(app, assets[..|assets| - 1], i);
    }
  }

  lemma {:induction false} DeleteAt(app: string, names: seq<string>, i: nat)
    requires i < |names|
    ensures Deletes(app, names)[2 * i] == Delete(BytesKey(app, names[i]))
    ensures Deletes(app, names)[2 * i + 1] == Delete(MetaKey(app, names[i]))
  {
    hide BytesKey, MetaKey;
    if i < |names| - 1 {
      DeleteAt(app, names[..|names| - 1], i);
    }
  }

  /** One more operation of a plan. */
  lemma Advance(start: Store, plan: seq<Op>, n: nat)
    requires n < |plan|
    ensures ApplyAll(start, plan[..n + 1]) == Apply(ApplyAll(start, plan[..n]), plan[n])
  {
    assert plan[..n + 1][..n] == plan[..n];
  }

  lemma Nothing(start: Store, plan: seq<Op>)
    ensures ApplyAll(start, plan[..0]) == start
  {}

  /** The key-value service; it answers `left` more operations and then none. */
  class KvClient {
    var kv: Store
    var left: nat

    constructor (kv: Store, left: nat)
      ensures this.kv == kv && this.left == left
    {
      this.kv, this.left := kv, left;
    }

    method Send(op: Op) returns (ok: bool)
      modifies this
      ensures ok <==> old(left) > 0
      ensures ok ==> kv == Apply(old(kv), op) && left == old(left) - 1
      ensures !ok ==> kv == old(kv) && left == old(left)
    {
      ok := left > 0;
      if ok {
        left := left - 1;
        match op
        case Put(k, v) => kv := kv[k := v];
        case Delete(k) => kv := kv - {k};
      }
    }

    /** Stores a value and reads it back; the read-back of a store that answers never differs. */
    method PutAndVerify(key: string, value: Value) returns (ok: bool)
      modifies this
      ensures ok <==> old(left) > 0
      ensures ok ==> kv == Apply(old(kv), Put(key, value)) && left == old(left) - 1
      ensures !ok ==> kv == old(kv) && left == old(left)
    {
      ok := Send(Put(key, value));
      if !ok {
        return;
      }
      var observed := kv[key];
      ok := observed == value;
    }

    /** Step 1: the bytes of each asset, then its metadata. */
    method UploadAssets(app: string, assets: seq<Asset>) returns (ok: bool)
      modifies this
      ensures ok <==> 2 * |assets| <= old(left)
      ensures ok ==> left == old(left) - 2 * |assets|
      ensures kv == Uploaded(old(kv), app, assets, Min(old(left), 2 * |assets|))
    {
      hide ApplyAll, BytesKey, MetaKey, Uploads;
      ghost var start, budget, plan := kv, left, Uploads(app, assets);
      Nothing(start, plan);
      for i := 0 to |assets|
        invariant left + 2 * i == budget && kv == ApplyAll(start, plan[..2 * i])
      {
        var a := assets[i];
        UploadAt(app, assets, i);
        Advance(start, plan, 2 * i);
        Advance(start, plan, 2 * i + 1);
        ok := PutAndVerify(BytesKey(app, a.filename), Payload(a.payload));
        if !ok {
          return;
        }
        ok := PutAndVerify(MetaKey(app, a.filename), Meta(a.contentType, a.sha256, a.size));
        if !ok {
          return;
        }
      }
      ok := true;
    }

    /** Step 4: both keys of each dropped file. */
    method CollectDropped(app: string, dropped: seq<string>) returns (ok: bool)
      modifies this
      ensures ok <==> 2 * |dropped| <= old(left)
      ensures kv == Deleted(old(kv), app, dropped, Min(old(left), 2 * |dropped|))
    {
      hide ApplyAll, BytesKey, MetaKey, Deletes;
      ghost var start, budget, plan := kv, left, Deletes(app, dropped);
      Nothing(start, plan);
      for i := 0 to |dropped|
        invariant left + 2 * i == budget && kv == ApplyAll(start, plan[..2 * i])
      {
        DeleteAt(app, dropped, i);
        Advance(start, plan, 2 * i);
        Advance(start, plan, 2 * i + 1);
        ok := Send(Delete(BytesKey(app, dropped[i])));
        if !ok {
          return;
        }
        ok := Send(Delete(MetaKey(app, dropped[i])));
        if !ok {
          return;
        }
      }
      ok := true;
    }

    /** The bundle is published by the operations of its plan, in order, as far as the store answers. */
    method PublishAssets(app: string, assets: seq<Asset>, catalog: Value, readOk: bool)
      returns (dropped: Option<seq<string>>)
      modifies this
      ensures var prior := ExistingIndex(old(kv), app, readOk);
              var n := |Plan(app, assets, catalog, prior)|;
              && kv == Partial(old(kv), app, assets, catalog, prior, Min(old(left), n))
              && (dropped.Some? <==> n <= old(left))
              && (dropped.Some? ==> dropped.value == DroppedNames(prior, ListingOf(assets)))
    {
      hide Partial, Uploaded, Deleted, CatalogKey, IndexKey, DroppedNames, Sorted, Uploads, Deletes;
      ghost var start, budget := kv, left;
      var newListing := Sorted(Names(assets));
      var oldListing := ExistingIndex(kv, app, readOk);
      var ok := UploadAssets(app, assets);
      if !ok {
        PartialUploads(start, app, assets, catalog, oldListing, budget);
        return None;
      }
      PartialUploads(start, app, assets, catalog, oldListing, 2 * |assets|);
      PartialCommit(start, app, assets, catalog, oldListing);
      ok := PutAndVerify(CatalogKey(app), catalog);
      if !ok {
        return None;
      }
      ok := PutAndVerify(IndexKey(app), Listing(newListing));
      if !ok {
        return None;
      }
      var gone := DroppedNames(oldListing, newListing);
      ghost var n := Min(left, 2 * |gone|);
      ok := CollectDropped(app, gone);
      PartialDeletes(start, app, assets, catalog, oldListing, 2 * |assets| + 2 + n);
      dropped := if ok then Some(gone) else None;
    }
  }
}
