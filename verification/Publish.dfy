/**
 Catalog publish: bytes and metadata of every asset, then the catalog (the commit point), then the index,
 then the deletes. Each PUT and DELETE is one operation on the KV store, and a publish may die before any.
 */
module Publish {
  import opened Bytes

  // ----- Keys and values -----

  function CatalogKey(app: string): (k: string) { "_catalog/" + app }

  function BytesKey(app: string, f: string): (k: string) { CatalogKey(app) + "/_assets/" + f }

  function MetaKey(app: string, f: string): (k: string) { CatalogKey(app) + "/_assets/" + f + ".meta" }

  function IndexKey(app: string): (k: string) { CatalogKey(app) + "/_assets_index" }

  /** A stored value; a catalog carries the asset names its theme mentions. */
  datatype Value =
    | Payload(data: seq<byte>)
    | Meta(contentType: string, sha256: string, size: nat)
    | Catalog(yaml: string, theme: set<string>)
    | Listing(names: seq<string>)
    | Other

  type Store = map<string, Value>

  datatype Asset = Asset(filename: string, contentType: string, payload: seq<byte>, sha256: string, size: nat)

  // ----- What lint lets through -----

  predicate FilenameShape(f: string)
  {
    1 <= |f| <= 64 && f[0] != '.'
    && forall c | c in f :: 'a' <= c <= 'z' || '0' <= c <= '9' || c == '.' || c == '_' || c == '-'
  }

  /** The content types of the allowlist come from these suffixes alone. */
  predicate KnownSuffix(f: string)
  {
    EndsWith(f, ".svg") || EndsWith(f, ".png") || EndsWith(f, ".jpg") || EndsWith(f, ".jpeg") || EndsWith(f, ".webp")
  }

  predicate ValidName(f: string) { FilenameShape(f) && KnownSuffix(f) }

  function Names(assets: seq<Asset>): (ns: seq<string>)
    ensures |ns| == |assets|
  {
    seq(|assets|, i requires 0 <= i < |assets| => assets[i].filename)
  }

  /** A bundle and a catalog without lint errors. */
  predicate LintClean(assets: seq<Asset>, catalog: Value)
  {
    && catalog.Catalog?
    && (forall f | f in Names(assets) :: ValidName(f))
    && (forall i, j | 0 <= i < j < |assets| :: assets[i].filename != assets[j].filename)
    && (forall f | f in catalog.theme :: f in Names(assets))
  }

  // ----- Keys do not collide -----

  lemma NotMeta(f: string, g: string)
    requires ValidName(f)
    ensures f != g + ".meta"
  {
    assert f[|f| - 1] == 'g' || f[|f| - 1] == 'p';
  }

  /** For lint-clean names the two keys of each file are its own and nobody else's. */
  lemma KeysApart(app: string, f: string, g: string)
    requires ValidName(f) && ValidName(g)
    ensures BytesKey(app, f) != MetaKey(app, g)
    ensures BytesKey(app, f) == BytesKey(app, g) <==> f == g
    ensures MetaKey(app, f) == MetaKey(app, g) <==> f == g
    ensures BytesKey(app, f) != CatalogKey(app) && MetaKey(app, f) != CatalogKey(app)
    ensures BytesKey(app, f) != IndexKey(app) && MetaKey(app, f) != IndexKey(app)
    ensures CatalogKey(app) != IndexKey(app)
  {
    var dir := CatalogKey(app) + "/_assets/";
    NotMeta(f, g);
    DropPrefix(dir, f); DropPrefix(dir, g); DropPrefix(dir, f + ".meta"); DropPrefix(dir, g + ".meta");
    Assoc(dir, f, ".meta"); Assoc(dir, g, ".meta");
    DropSuffix(f, g, ".meta");
    var at := |CatalogKey(app)| + 8;
    assert dir[at] == '/' && IndexKey(app)[at] == '_';
    assert BytesKey(app, f)[at] == '/' && MetaKey(app, f)[at] == '/';
  }

  lemma DropSuffix(f: string, g: string, t: string)
    ensures f + t == g + t <==> f == g
  {
    if f + t == g + t {
      assert (f + t)[..|f|] == f && (g + t)[..|g|] == g;
    }
  }

  // ----- The order of operations -----

  datatype Op = Put(key: string, value: Value) | Delete(key: string)

  function Apply(kv: Store, op: Op): (r: Store)
  {
    match op case Put(k, v) => kv[k := v] case Delete(k) => kv - {k}
  }

  function ApplyAll(kv: Store, ops: seq<Op>): (r: Store)
  {
    if ops == [] then kv else Apply(ApplyAll(kv, ops[..|ops| - 1]), ops[|ops| - 1])
  }

  function AssetOps(app: string, a: Asset): (ops: seq<Op>)
    ensures |ops| == 2
  {
    [Put(BytesKey(app, a.filename), Payload(a.payload)),
     Put(MetaKey(app, a.filename), Meta(a.contentType, a.sha256, a.size))]
  }

  function Uploads(app: string, assets: seq<Asset>): (ops: seq<Op>)
    ensures |ops| == 2 * |assets|
  {
    if assets == [] then [] else Uploads(app, assets[..|assets| - 1]) + AssetOps(app, assets[|assets| - 1])
  }

  function Deletes(app: string, names: seq<string>): (ops: seq<Op>)
    ensures |ops| == 2 * |names|
  {
    if names == [] then []
    else Deletes(app, names[..|names| - 1])
         + [Delete(BytesKey(app, names[|names| - 1])), Delete(MetaKey(app, names[|names| - 1]))]
  }

  // ----- Sorted listings -----

  predicate Before(s: string, t: string)
  {
    s == "" || (t != "" && (s[0] < t[0] || (s[0] == t[0] && Before(s[1..], t[1..]))))
  }

  function Insert(x: string, xs: seq<string>): (r: seq<string>)
    ensures forall y :: y in r <==> y == x || y in xs
  {
    if xs == [] || Before(x, xs[0]) then [x] + xs else [xs[0]] + Insert(x, xs[1..])
  }

  function Sorted(xs: seq<string>): (r: seq<string>)
    ensures forall y :: y in r <==> y in xs
  {
    if xs == [] then [] else Insert(xs[0], Sorted(xs[1..]))
  }

  predicate Ascending(xs: seq<string>) { forall i | 0 < i < |xs| :: Before(xs[i - 1], xs[i]) }

  lemma {:induction false} BeforeTotal(s: string, t: string)
    ensures Before(s, t) || Before(t, s)
  {
    if s != "" && t != "" {
      BeforeTotal(s[1..], t[1..]);
    }
  }

  lemma {:induction false} InsertAscends(x: string, xs: seq<string>)
    requires Ascending(xs)
    ensures Ascending(Insert(x, xs))
    ensures multiset(Insert(x, xs)) == multiset(xs) + multiset{x}
  {
    if xs != [] {
      hide Before;
      BeforeTotal(x, xs[0]);
      assert xs == [xs[0]] + xs[1..];
      if !Before(x, xs[0]) {
        InsertAscends(x, xs[1..]);
      }
    }
  }

  /** A listing is the bundle's names, each as often as it occurs, in order. */
  lemma {:induction false} SortedListing(xs: seq<string>)
    ensures Ascending(Sorted(xs)) && multiset(Sorted(xs)) == multiset(xs)
  {
    if xs != [] {
      hide Before, Ascending, Insert;
      SortedListing(xs[1..]);
      InsertAscends(xs[0], Sorted(xs[1..]));
      assert xs == [xs[0]] + xs[1..];
    } else {
      hide Before;
    }
  }

  /** The names of the old listing that the new one lacks, each once, sorted. */
  function DroppedNames(prior: seq<string>, listing: seq<string>): (r: seq<string>)
    ensures forall y :: y in r <==> y in prior && y !in listing
  {
    if prior == [] then []
    else
      var rest := DroppedNames(prior[1..], listing);
      if prior[0] in listing || prior[0] in rest then rest else Insert(prior[0], rest)
  }

  /** `_existing_index`: anything but a listing, or a failed read, counts as empty. */
  function ExistingIndex(kv: Store, app: string, readOk: bool): (names: seq<string>)
  {
    if readOk && IndexKey(app) in kv && kv[IndexKey(app)].Listing? then kv[IndexKey(app)].names else []
  }

  /** Everything one publish does, in order. */
  function Plan(app: string, assets: seq<Asset>, catalog: Value, oldListing: seq<string>): (ops: seq<Op>)
    ensures |ops| == 2 * |assets| + 2 + 2 * |DroppedNames(oldListing, Sorted(Names(assets)))|
  {
    Uploads(app, assets) + [Put(CatalogKey(app), catalog)] + [Put(IndexKey(app), Listing(Sorted(Names(assets))))]
    + Deletes(app, DroppedNames(oldListing, Sorted(Names(assets))))
  }

  // ----- The invariant -----

  predicate Stored(kv: Store, app: string, f: string) { BytesKey(app, f) in kv && MetaKey(app, f) in kv }

  /** Every asset the live catalog names, and every file in the index, has both its bytes and its metadata. */
  predicate Inv(kv: Store, app: string)
  {
    && (CatalogKey(app) in kv && kv[CatalogKey(app)].Catalog? ==>
          forall f | f in kv[CatalogKey(app)].theme :: ValidName(f) && Stored(kv, app, f))
    && (IndexKey(app) in kv && kv[IndexKey(app)].Listing? ==>
          forall f | f in kv[IndexKey(app)].names :: ValidName(f) && Stored(kv, app, f))
  }

  lemma {:induction false} ApplyAllConcat(kv: Store, a: seq<Op>, b: seq<Op>)
    ensures ApplyAll(kv, a + b) == ApplyAll(ApplyAll(kv, a), b)
  {
    if b == [] {
      assert a + b == a;
    } else {
      assert (a + b)[..|a + b| - 1] == a + b[..|b| - 1];
      ApplyAllConcat(kv, a, b[..|b| - 1]);
    }
  }

  /** The catalog and the index are the same in both. */
  predicate SamePublished(a: Store, b: Store, app: string)
  {
    (CatalogKey(app) in a <==> CatalogKey(app) in b) && (IndexKey(app) in a <==> IndexKey(app) in b)
    && (CatalogKey(app) in a ==> a[CatalogKey(app)] == b[CatalogKey(app)])
    && (IndexKey(app) in a ==> a[IndexKey(app)] == b[IndexKey(app)])
  }

  /** `b` is `a` with more files, and still consistent. */
  predicate Grown(a: Store, b: Store, app: string) { Inv(b, app) && a.Keys <= b.Keys && SamePublished(a, b, app) }

  /** Storing a file's bytes or metadata takes nothing away. */
  lemma PutFileKeeps(kv: Store, mid: Store, app: string, f: string, v: Value, meta: bool)
    requires Grown(kv, mid, app) && ValidName(f)
    ensures var k := if meta then MetaKey(app, f) else BytesKey(app, f);
            Grown(kv, mid[k := v], app)
  {
    hide BytesKey, MetaKey, CatalogKey, IndexKey, ValidName;
    KeysApart(app, f, f);
  }

  lemma PutSnoc(kv: Store, ops: seq<Op>, k: string, v: Value)
    ensures ApplyAll(kv, ops + [Put(k, v)]) == ApplyAll(kv, ops)[k := v]
  {
    assert (ops + [Put(k, v)])[..|ops|] == ops;
  }

  lemma DeleteSnoc(kv: Store, ops: seq<Op>, k: string)
    ensures ApplyAll(kv, ops + [Delete(k)]) == ApplyAll(kv, ops) - {k}
  {
    assert (ops + [Delete(k)])[..|ops|] == ops;
  }

  lemma NamesSnoc(assets: seq<Asset>)
    requires assets != []
    ensures Names(assets) == Names(assets[..|assets| - 1]) + [assets[|assets| - 1].filename]
    ensures assets[|assets| - 1].filename in Names(assets)
    ensures forall f | f in Names(assets) :: f in Names(assets[..|assets| - 1]) || f == assets[|assets| - 1].filename
    ensures forall f | f in Names(assets[..|assets| - 1]) :: f in Names(assets)
  {
    var ns := Names(assets);
    assert ns[|assets| - 1] in ns;
  }

  predicate AllValid(names: seq<string>) { forall f | f in names :: ValidName(f) }

  /** What a publish has done after `k` of its uploads. */
  function Uploaded(kv: Store, app: string, assets: seq<Asset>, k: nat): (r: Store)
    requires k <= 2 * |assets|
  {
    ApplyAll(kv, Uploads(app, assets)[..k])
  }

  lemma UploadedPrefix(kv: Store, app: string, assets: seq<Asset>, k: nat)
    requires assets != [] && k <= 2 * (|assets| - 1)
    ensures Uploaded(kv, app, assets, k) == Uploaded(kv, app, assets[..|assets| - 1], k)
  {
    assert Uploads(app, assets)[..k] == Uploads(app, assets[..|assets| - 1])[..k];
  }

  lemma UploadedBytes(kv: Store, app: string, assets: seq<Asset>)
    requires assets != []
    ensures var a := assets[|assets| - 1];
            Uploaded(kv, app, assets, 2 * |assets| - 1)
            == Uploaded(kv, app, assets, 2 * |assets| - 2)[BytesKey(app, a.filename) := Payload(a.payload)]
  {
    hide ApplyAll, BytesKey, MetaKey;
    var a, ops := assets[|assets| - 1], Uploads(app, assets);
    assert ops[..2 * |assets| - 1] == ops[..2 * |assets| - 2] + [Put(BytesKey(app, a.filename), Payload(a.payload))];
    PutSnoc(kv, ops[..2 * |assets| - 2], BytesKey(app, a.filename), Payload(a.payload));
  }

  lemma UploadedMeta(kv: Store, app: string, assets: seq<Asset>)
    requires assets != []
    ensures var a := assets[|assets| - 1];
            Uploaded(kv, app, assets, 2 * |assets|)
            == Uploaded(kv, app, assets, 2 * |assets| - 1)
               [MetaKey(app, a.filename) := Meta(a.contentType, a.sha256, a.size)]
  {
    hide ApplyAll, BytesKey, MetaKey;
    var a, ops := assets[|assets| - 1], Uploads(app, assets);
    var m := Meta(a.contentType, a.sha256, a.size);
    assert ops[..2 * |assets|] == ops[..2 * |assets| - 1] + [Put(MetaKey(app, a.filename), m)];
    PutSnoc(kv, ops[..2 * |assets| - 1], MetaKey(app, a.filename), m);
  }

  /** While assets are uploaded the old catalog and index stay live, and nothing they name goes away. */
  lemma {:induction false} UploadsKeep(kv: Store, app: string, assets: seq<Asset>, k: nat)
    requires Inv(kv, app) && AllValid(Names(assets)) && k <= 2 * |assets|
    ensures Grown(kv, Uploaded(kv, app, assets, k), app)
    decreases |assets|, k
  {
    hide Inv, BytesKey, MetaKey, CatalogKey, IndexKey, ValidName, SamePublished, Uploaded, Grown;
    if k == 0 {
      NothingUploaded(kv, app, assets);
    } else {
      NamesSnoc(assets);
      var a := assets[|assets| - 1];
      if k == 2 * |assets| {
        UploadsKeep(kv, app, assets, k - 1);
        UploadedMeta(kv, app, assets);
        PutFileKeeps(kv, Uploaded(kv, app, assets, k - 1), app, a.filename, Meta(a.contentType, a.sha256, a.size),
                     true);
      } else if k == 2 * |assets| - 1 {
        UploadsKeep(kv, app, assets, k - 1);
        UploadedBytes(kv, app, assets);
        PutFileKeeps(kv, Uploaded(kv, app, assets, k - 1), app, a.filename, Payload(a.payload), false);
      } else {
        UploadsKeep(kv, app, assets[..|assets| - 1], k);
        UploadedPrefix(kv, app, assets, k);
      }
    }
  }

  lemma NothingUploaded(kv: Store, app: string, assets: seq<Asset>)
    requires Inv(kv, app)
    ensures Grown(kv, Uploaded(kv, app, assets, 0), app)
  {
    hide Inv, BytesKey, MetaKey, CatalogKey, IndexKey;
  }

  /** After all uploads every asset of the bundle has its bytes and its metadata. */
  lemma {:induction false} UploadsStore(kv: Store, app: string, assets: seq<Asset>, f: string)
    requires f in Names(assets)
    ensures Stored(Uploaded(kv, app, assets, 2 * |assets|), app, f)
    decreases |assets|
  {
    hide BytesKey, MetaKey, CatalogKey, IndexKey, Uploaded;
    var front := assets[..|assets| - 1];
    NamesSnoc(assets);
    UploadedBytes(kv, app, assets);
    UploadedMeta(kv, app, assets);
    UploadedPrefix(kv, app, assets, 2 * |front|);
    if f in Names(front) {
      UploadsStore(kv, app, front, f);
    }
  }

  // ----- From the commit point on -----

  /** The bundle is complete, and the catalog and the index name only files of it. */
  predicate Settled(kv: Store, app: string, catalog: Value, listing: seq<string>)
  {
    && CatalogKey(app) in kv && kv[CatalogKey(app)] == catalog
    && IndexKey(app) in kv && kv[IndexKey(app)] == Listing(listing)
    && catalog.Catalog? && (forall f | f in catalog.theme :: f in listing)
    && (forall f | f in listing :: ValidName(f) && Stored(kv, app, f))
  }

  lemma SettledInv(kv: Store, app: string, catalog: Value, listing: seq<string>)
    requires Settled(kv, app, catalog, listing)
    ensures Inv(kv, app)
  {
    hide BytesKey, MetaKey, CatalogKey, IndexKey, ValidName;
  }

  /** The commit: every asset the new catalog names is already stored. */
  lemma CommitKeeps(kv: Store, app: string, catalog: Value, listing: seq<string>)
    requires Inv(kv, app) && catalog.Catalog? && (forall f | f in catalog.theme :: f in listing)
    requires forall f | f in listing :: ValidName(f) && Stored(kv, app, f)
    ensures Inv(kv[CatalogKey(app) := catalog], app)
    ensures Settled(kv[CatalogKey(app) := catalog][IndexKey(app) := Listing(listing)], app, catalog, listing)
  {
    hide BytesKey, MetaKey, CatalogKey, IndexKey, ValidName;
    BaseApart(app);
    forall f | ValidName(f) ensures FilesApart(app, f) {
      KeysApart(app, f, f);
    }
  }

  lemma BaseApart(app: string)
    ensures CatalogKey(app) != IndexKey(app)
  {
    assert |CatalogKey(app)| < |IndexKey(app)|;
  }

  /** The keys of `f` are neither the catalog's nor the index's. */
  predicate FilesApart(app: string, f: string)
  {
    && BytesKey(app, f) != CatalogKey(app) && MetaKey(app, f) != CatalogKey(app)
    && BytesKey(app, f) != IndexKey(app) && MetaKey(app, f) != IndexKey(app)
  }

  /** Deleting one key of a file outside the listing disturbs nothing the catalog or the index names. */
  lemma DeleteKeeps(kv: Store, app: string, catalog: Value, listing: seq<string>, f: string, meta: bool)
    requires Settled(kv, app, catalog, listing) && ValidName(f) && f !in listing
    ensures Settled(kv - {if meta then MetaKey(app, f) else BytesKey(app, f)}, app, catalog, listing)
  {
    hide BytesKey, MetaKey, CatalogKey, IndexKey, ValidName;
    KeysApart(app, f, f);
    var gone := if meta then MetaKey(app, f) else BytesKey(app, f);
    forall g | g in listing ensures BytesKey(app, g) != gone && MetaKey(app, g) != gone {
      KeysApart(app, f, g);
      KeysApart(app, g, f);
    }
  }

  function Deleted(kv: Store, app: string, names: seq<string>, k: nat): (r: Store)
    requires k <= 2 * |names|
  {
    ApplyAll(kv, Deletes(app, names)[..k])
  }

  lemma DeletedPrefix(kv: Store, app: string, names: seq<string>, k: nat)
    requires names != [] && k <= 2 * (|names| - 1)
    ensures Deleted(kv, app, names, k) == Deleted(kv, app, names[..|names| - 1], k)
  {
    assert Deletes(app, names)[..k] == Deletes(app, names[..|names| - 1])[..k];
  }

  lemma DeletedLast(kv: Store, app: string, names: seq<string>)
    requires names != []
    ensures var f := names[|names| - 1];
            && Deleted(kv, app, names, 2 * |names| - 1) == Deleted(kv, app, names, 2 * |names| - 2) - {BytesKey(app, f)}
            && Deleted(kv, app, names, 2 * |names|) == Deleted(kv, app, names, 2 * |names| - 1) - {MetaKey(app, f)}
  {
    hide ApplyAll, BytesKey, MetaKey;
    var f, ops := names[|names| - 1], Deletes(app, names);
    assert ops[..2 * |names| - 1] == ops[..2 * |names| - 2] + [Delete(BytesKey(app, f))];
    assert ops[..2 * |names|] == ops[..2 * |names| - 1] + [Delete(MetaKey(app, f))];
    DeleteSnoc(kv, ops[..2 * |names| - 2], BytesKey(app, f));
    DeleteSnoc(kv, ops[..2 * |names| - 1], MetaKey(app, f));
  }

  lemma {:induction false} DeletesKeep(kv: Store, app: string, catalog: Value, listing: seq<string>,
                                       names: seq<string>, k: nat)
    requires Settled(kv, app, catalog, listing) && AllValid(names) && k <= 2 * |names|
    requires forall f | f in names :: f !in listing
    ensures Settled(Deleted(kv, app, names, k), app, catalog, listing)
    decreases |names|, k
  {
    hide Settled, BytesKey, MetaKey, CatalogKey, IndexKey, ValidName, Deleted, Deletes;
    if k == 0 {
      NothingDeleted(kv, app, names);
    } else if k >= 2 * |names| - 1 {
      var f := names[|names| - 1];
      DeletesKeep(kv, app, catalog, listing, names, k - 1);
      DeletedLast(kv, app, names);
      DeleteKeeps(Deleted(kv, app, names, k - 1), app, catalog, listing, f, k == 2 * |names|);
    } else {
      DeletesKeep(kv, app, catalog, listing, names[..|names| - 1], k);
      DeletedPrefix(kv, app, names, k);
    }
  }

  lemma NothingDeleted(kv: Store, app: string, names: seq<string>)
    ensures Deleted(kv, app, names, 0) == kv
  {}

  /** After all deletions neither key of a dropped file is left. */
  lemma {:induction false} DeletesRemove(kv: Store, app: string, names: seq<string>, f: string)
    requires f in names
    ensures BytesKey(app, f) !in Deleted(kv, app, names, 2 * |names|)
    ensures MetaKey(app, f) !in Deleted(kv, app, names, 2 * |names|)
    decreases |names|
  {
    hide BytesKey, MetaKey, CatalogKey, IndexKey, Deleted;
    DeletedLast(kv, app, names);
    DeletedPrefix(kv, app, names, 2 * |names| - 2);
    if f in names[..|names| - 1] {
      DeletesRemove(kv, app, names[..|names| - 1], f);
    }
  }

  /** Through the deletions a file's metadata goes last, and goes exactly with the second of its own deletes. */
  lemma {:induction false} DeletesHold(kv: Store, app: string, names: seq<string>, k: nat, f: string)
    requires Stored(kv, app, f) && ValidName(f) && AllValid(names) && k <= 2 * |names|
    ensures var r := Deleted(kv, app, names, k);
            && (MetaKey(app, f) in r <==> f !in names[..k / 2])
            && (BytesKey(app, f) in r ==> MetaKey(app, f) in r)
    decreases |names|, k
  {
    hide BytesKey, MetaKey, CatalogKey, IndexKey, ValidName, Deleted, Deletes;
    if k == 0 {
      NothingDeleted(kv, app, names);
    } else if k >= 2 * |names| - 1 {
      var last := names[|names| - 1];
      DeletesHold(kv, app, names, k - 1, f);
      DeletedLast(kv, app, names);
      KeysApart(app, f, last);
      KeysApart(app, last, f);
      if k == 2 * |names| {
        assert (k - 1) / 2 == |names| - 1 && names[..k / 2] == names[..|names| - 1] + [last];
      } else {
        assert (k - 1) / 2 == k / 2;
      }
    } else {
      DeletesHold(kv, app, names[..|names| - 1], k, f);
      DeletedPrefix(kv, app, names, k);
      assert names[..|names| - 1][..k / 2] == names[..k / 2];
    }
  }

  // ----- One publish that may die at any point -----

  /** The listing a bundle is published under. */
  function ListingOf(assets: seq<Asset>): (ns: seq<string>)
    ensures forall f :: f in ns <==> f in Names(assets)
  {
    Sorted(Names(assets))
  }

  /** The store after the first `k` operations of a publish. */
  function Partial(kv: Store, app: string, assets: seq<Asset>, catalog: Value, prior: seq<string>, k: nat): (r: Store)
    requires k <= |Plan(app, assets, catalog, prior)|
  {
    ApplyAll(kv, Plan(app, assets, catalog, prior)[..k])
  }

  /** The store once catalog and index are written. */
  function Committed(kv: Store, app: string, assets: seq<Asset>, catalog: Value): (r: Store)
  {
    Uploaded(kv, app, assets, 2 * |assets|)[CatalogKey(app) := catalog][IndexKey(app) := Listing(ListingOf(assets))]
  }

  lemma PartialUploads(kv: Store, app: string, assets: seq<Asset>, catalog: Value, prior: seq<string>, k: nat)
    requires k <= 2 * |assets|
    ensures Partial(kv, app, assets, catalog, prior, k) == Uploaded(kv, app, assets, k)
  {
    hide ApplyAll, DroppedNames, Sorted, Uploads, Deletes;
    assert Plan(app, assets, catalog, prior)[..k] == Uploads(app, assets)[..k];
  }

  lemma PartialCommit(kv: Store, app: string, assets: seq<Asset>, catalog: Value, prior: seq<string>)
    ensures Partial(kv, app, assets, catalog, prior, 2 * |assets| + 1)
            == Uploaded(kv, app, assets, 2 * |assets|)[CatalogKey(app) := catalog]
    ensures Partial(kv, app, assets, catalog, prior, 2 * |assets| + 2) == Committed(kv, app, assets, catalog)
  {
    hide ApplyAll, DroppedNames, Sorted, Uploads, Deletes, CatalogKey, IndexKey;
    var plan, u := Plan(app, assets, catalog, prior), 2 * |assets|;
    assert plan[..u] == Uploads(app, assets)[..u];
    assert plan[..u + 1] == plan[..u] + [Put(CatalogKey(app), catalog)];
    PutSnoc(kv, plan[..u], CatalogKey(app), catalog);
    assert plan[..u + 2] == plan[..u + 1] + [Put(IndexKey(app), Listing(Sorted(Names(assets))))];
    PutSnoc(kv, plan[..u + 1], IndexKey(app), Listing(Sorted(Names(assets))));
  }

  lemma PartialDeletes(kv: Store, app: string, assets: seq<Asset>, catalog: Value, prior: seq<string>, k: nat)
    requires 2 * |assets| + 2 <= k <= |Plan(app, assets, catalog, prior)|
    ensures Partial(kv, app, assets, catalog, prior, k)
            == Deleted(Committed(kv, app, assets, catalog), app, DroppedNames(prior, ListingOf(assets)),
                       k - 2 * |assets| - 2)
  {
    hide ApplyAll, DroppedNames, Sorted, Uploads, Deletes, CatalogKey, IndexKey, Committed;
    var plan, u := Plan(app, assets, catalog, prior), 2 * |assets|;
    var ds := Deletes(app, DroppedNames(prior, ListingOf(assets)));
    assert plan[..k] == plan[..u + 2] + ds[..k - u - 2];
    ApplyAllConcat(kv, plan[..u + 2], ds[..k - u - 2]);
    PartialCommit(kv, app, assets, catalog, prior);
  }

  /** The old listing of a consistent store holds lint-clean names only. */
  lemma PriorValid(kv: Store, app: string, readOk: bool)
    requires Inv(kv, app)
    ensures AllValid(ExistingIndex(kv, app, readOk))
  {
    hide ValidName, Stored, BytesKey, MetaKey, CatalogKey, IndexKey;
  }

  lemma CommitSettles(kv: Store, app: string, assets: seq<Asset>, catalog: Value)
    requires Inv(kv, app) && LintClean(assets, catalog)
    ensures Inv(Uploaded(kv, app, assets, 2 * |assets|)[CatalogKey(app) := catalog], app)
    ensures Settled(Committed(kv, app, assets, catalog), app, catalog, ListingOf(assets))
  {
    hide Inv, Settled, BytesKey, MetaKey, CatalogKey, IndexKey, ValidName, Uploaded, Sorted, Names, Stored, ListingOf;
    UploadsKeep(kv, app, assets, 2 * |assets|);
    forall f | f in Names(assets) ensures Stored(Uploaded(kv, app, assets, 2 * |assets|), app, f) {
      UploadsStore(kv, app, assets, f);
    }
    CommitKeeps(Uploaded(kv, app, assets, 2 * |assets|), app, catalog, ListingOf(assets));
  }

  /** After the commit point, whatever deletions happened, only files of the new bundle are named. */
  lemma PartialSettled(kv: Store, app: string, assets: seq<Asset>, catalog: Value, prior: seq<string>, k: nat)
    requires Inv(kv, app) && LintClean(assets, catalog) && AllValid(prior)
    requires 2 * |assets| + 2 <= k <= |Plan(app, assets, catalog, prior)|
    ensures Settled(Partial(kv, app, assets, catalog, prior, k), app, catalog, ListingOf(assets))
  {
    hide Inv, Settled, LintClean, Partial, Committed, Deleted, DroppedNames, Sorted, ValidName;
    CommitSettles(kv, app, assets, catalog);
    PartialDeletes(kv, app, assets, catalog, prior, k);
    DeletesKeep(Committed(kv, app, assets, catalog), app, catalog, ListingOf(assets),
                DroppedNames(prior, ListingOf(assets)), k - 2 * |assets| - 2);
  }

  /** A publish that dies after any PUT or DELETE leaves a consistent store. */
  lemma PublishKeeps(kv: Store, app: string, assets: seq<Asset>, catalog: Value, readOk: bool, k: nat)
    requires Inv(kv, app) && LintClean(assets, catalog)
    requires k <= |Plan(app, assets, catalog, ExistingIndex(kv, app, readOk))|
    ensures Inv(Partial(kv, app, assets, catalog, ExistingIndex(kv, app, readOk), k), app)
  {
    hide Inv, Partial, Plan, Names, ValidName, Uploaded, Settled, Committed, ExistingIndex;
    var prior := ExistingIndex(kv, app, readOk);
    PriorValid(kv, app, readOk);
    if k <= 2 * |assets| {
      UploadsKeep(kv, app, assets, k);
      PartialUploads(kv, app, assets, catalog, prior, k);
    } else if k == 2 * |assets| + 1 {
      CommitSettles(kv, app, assets, catalog);
      PartialCommit(kv, app, assets, catalog, prior);
    } else {
      PartialSettled(kv, app, assets, catalog, prior, k);
      SettledInv(Partial(kv, app, assets, catalog, prior, k), app, catalog, ListingOf(assets));
    }
  }

  // ----- Any sequence of publishes, of any apps -----

  /** One call of `publish_assets`; it dies before operation `steps`, if it has that many. */
  datatype Round = Round(app: string, assets: seq<Asset>, catalog: Value, readOk: bool, steps: nat)

  /** App names have no slash (`APP_NAME_RE`). */
  predicate AppName(app: string) { '/' !in app }

  predicate CleanRound(r: Round) { AppName(r.app) && LintClean(r.assets, r.catalog) }

  function RoundPlan(kv: Store, r: Round): (ops: seq<Op>)
  {
    Plan(r.app, r.assets, r.catalog, ExistingIndex(kv, r.app, r.readOk))
  }

  function Publishing(kv: Store, r: Round): (after: Store)
  {
    ApplyAll(kv, RoundPlan(kv, r)[..Min(r.steps, |RoundPlan(kv, r)|)])
  }

  function PublishAll(kv: Store, rounds: seq<Round>): (after: Store)
    decreases |rounds|
  {
    if rounds == [] then kv else PublishAll(Publishing(kv, rounds[0]), rounds[1..])
  }

  ghost predicate Consistent(kv: Store) { forall app | AppName(app) :: Inv(kv, app) }

  /** The keys of an app: its catalog, and everything below it. */
  predicate KeyOf(app: string, k: string) { k == CatalogKey(app) || CatalogKey(app) + "/" <= k }

  lemma AppKeys(app: string, f: string)
    ensures KeyOf(app, BytesKey(app, f)) && KeyOf(app, MetaKey(app, f)) && KeyOf(app, IndexKey(app))
  {}

  lemma AppsApart(a: string, b: string, k: string)
    requires AppName(a) && AppName(b) && a != b && KeyOf(a, k)
    ensures !KeyOf(b, k)
  {
    if KeyOf(b, k) {
      SegmentIsApp(a, k);
      SegmentIsApp(b, k);
      SameSegment(a, b, k[9..]);
    }
  }

  lemma SameSegment(a: string, b: string, rest: string)
    requires AppName(a) && AppName(b)
    requires a <= rest && (|rest| == |a| || rest[|a|] == '/')
    requires b <= rest && (|rest| == |b| || rest[|b|] == '/')
    ensures a == b
  {}

  lemma SegmentIsApp(app: string, k: string)
    requires KeyOf(app, k)
    ensures |k| >= 9 + |app| && k[9..9 + |app|] == app && (|k| == 9 + |app| || k[9 + |app|] == '/')
  {
    assert CatalogKey(app)[9..] == app;
    if k != CatalogKey(app) {
      var p := CatalogKey(app) + "/";
      assert p[9..9 + |app|] == app && p[9 + |app|] == '/';
      assert k[..|p|] == p;
    }
  }

  /** Operations on other keys leave a key alone. */
  lemma {:induction false} Untouched(kv: Store, ops: seq<Op>, key: string)
    requires forall op | op in ops :: op.key != key
    ensures key in ApplyAll(kv, ops) <==> key in kv
    ensures key in kv ==> ApplyAll(kv, ops)[key] == kv[key]
  {
    if ops != [] {
      assert ops[|ops| - 1] in ops;
      assert forall op | op in ops[..|ops| - 1] :: op in ops;
      Untouched(kv, ops[..|ops| - 1], key);
    }
  }

  /** The operations of a publish touch files of the bundle, files dropped, the catalog and the index. */
  predicate OnFiles(app: string, op: Op, names: seq<string>)
  {
    exists f | f in names :: OnFile(app, op, f)
  }

  predicate OnFile(app: string, op: Op, f: string) { op.key == BytesKey(app, f) || op.key == MetaKey(app, f) }

  lemma {:induction false} UploadKeys(app: string, assets: seq<Asset>)
    ensures forall op | op in Uploads(app, assets) :: OnFiles(app, op, Names(assets))
  {
    hide BytesKey, MetaKey;
    if assets != [] {
      NamesSnoc(assets);
      UploadKeys(app, assets[..|assets| - 1]);
      var f := assets[|assets| - 1].filename;
      forall op | op in Uploads(app, assets) ensures OnFiles(app, op, Names(assets)) {
        if op in AssetOps(app, assets[|assets| - 1]) {
          assert OnFile(app, op, f);
        } else {
          assert op in Uploads(app, assets[..|assets| - 1]);
        }
      }
    }
  }

  lemma {:induction false} DeleteKeys(app: string, names: seq<string>)
    ensures forall op | op in Deletes(app, names) :: OnFiles(app, op, names)
  {
    hide BytesKey, MetaKey;
    if names != [] {
      var f := names[|names| - 1];
      DeleteKeys(app, names[..|names| - 1]);
      forall op | op in Deletes(app, names) ensures OnFiles(app, op, names) {
        if op !in Deletes(app, names[..|names| - 1]) {
          assert OnFile(app, op, f);
        }
      }
    }
  }

  lemma PlanKeys(app: string, assets: seq<Asset>, catalog: Value, prior: seq<string>, op: Op)
    requires op in Plan(app, assets, catalog, prior)
    ensures op.key == CatalogKey(app) || op.key == IndexKey(app)
            || OnFiles(app, op, Names(assets)) || OnFiles(app, op, DroppedNames(prior, ListingOf(assets)))
  {
    hide BytesKey, MetaKey, CatalogKey, IndexKey, Uploads, Deletes, DroppedNames, OnFiles, Sorted, Names;
    UploadKeys(app, assets);
    DeleteKeys(app, DroppedNames(prior, ListingOf(assets)));
  }

  lemma PlanOwned(app: string, assets: seq<Asset>, catalog: Value, prior: seq<string>, op: Op)
    requires op in Plan(app, assets, catalog, prior)
    ensures KeyOf(app, op.key)
  {
    hide Plan, BytesKey, MetaKey, IndexKey, DroppedNames, Names;
    PlanKeys(app, assets, catalog, prior, op);
    AppKeys(app, "");
    forall f ensures KeyOf(app, BytesKey(app, f)) && KeyOf(app, MetaKey(app, f)) {
      AppKeys(app, f);
    }
  }

  /** Consistency of an app depends on its own keys only. */
  lemma InvLocal(kv: Store, r: Store, app: string)
    requires Inv(kv, app)
    requires forall k | KeyOf(app, k) :: (k in r <==> k in kv) && (k in kv ==> r[k] == kv[k])
    ensures Inv(r, app)
  {
    hide BytesKey, MetaKey, CatalogKey, IndexKey, ValidName, KeyOf;
    AppKeys(app, "");
    assert KeyOf(app, CatalogKey(app)) by { OwnCatalog(app); }
    forall f ensures KeyOf(app, BytesKey(app, f)) && KeyOf(app, MetaKey(app, f)) {
      AppKeys(app, f);
    }
  }

  lemma OwnCatalog(app: string)
    ensures KeyOf(app, CatalogKey(app))
  {}

  lemma PublishingOthers(kv: Store, r: Round, app: string)
    requires AppName(app) && AppName(r.app) && app != r.app && Inv(kv, app)
    ensures Inv(Publishing(kv, r), app)
  {
    hide Inv, KeyOf, Plan, ExistingIndex, AppName, ApplyAll;
    var plan := RoundPlan(kv, r);
    var ops := plan[..Min(r.steps, |plan|)];
    forall k | KeyOf(app, k)
      ensures (k in ApplyAll(kv, ops) <==> k in kv) && (k in kv ==> ApplyAll(kv, ops)[k] == kv[k]) {
      forall op | op in ops ensures op.key != k {
        assert op in plan;
        PlanOwned(r.app, r.assets, r.catalog, ExistingIndex(kv, r.app, r.readOk), op);
        AppsApart(app, r.app, k);
      }
      Untouched(kv, ops, k);
    }
    InvLocal(kv, ApplyAll(kv, ops), app);
  }

  lemma PublishingKeeps(kv: Store, r: Round)
    requires Consistent(kv) && CleanRound(r)
    ensures Consistent(Publishing(kv, r))
  {
    hide Inv, Plan, ExistingIndex, AppName, ApplyAll, LintClean;
    forall app | AppName(app) ensures Inv(Publishing(kv, r), app) {
      if app == r.app {
        PublishKeeps(kv, app, r.assets, r.catalog, r.readOk, Min(r.steps, |RoundPlan(kv, r)|));
      } else {
        PublishingOthers(kv, r, app);
      }
    }
  }

  /** Through every sequence of publishes, each of which may die anywhere, no app ever names a missing file. */
  lemma {:induction false} EveryPublishKeeps(kv: Store, rounds: seq<Round>)
    requires Consistent(kv) && forall r | r in rounds :: CleanRound(r)
    ensures Consistent(PublishAll(kv, rounds))
    decreases |rounds|
  {
    hide Consistent, CleanRound, Publishing;
    if rounds != [] {
      assert rounds[0] in rounds && forall r | r in rounds[1..] :: r in rounds;
      PublishingKeeps(kv, rounds[0]);
      EveryPublishKeeps(Publishing(kv, rounds[0]), rounds[1..]);
    }
  }

  /** The same from the empty store, where nothing has been published. */
  lemma FromTheEmptyStore(rounds: seq<Round>)
    requires forall r | r in rounds :: CleanRound(r)
    ensures Consistent(PublishAll(map[], rounds))
  {
    EveryPublishKeeps(map[], rounds);
  }

  // ----- What a publish leaves behind -----

  /** Some key of the file is stored. */
  predicate Held(kv: Store, app: string, f: string) { BytesKey(app, f) in kv || MetaKey(app, f) in kv }

  /** A publish leaves every file alone that is neither in its bundle nor dropped by it. */
  lemma OthersStay(kv: Store, app: string, assets: seq<Asset>, catalog: Value, prior: seq<string>, k: nat, f: string)
    requires k <= |Plan(app, assets, catalog, prior)|
    requires AllValid(Names(assets)) && AllValid(prior) && ValidName(f)
    requires f !in Names(assets) && f !in prior
    ensures Held(Partial(kv, app, assets, catalog, prior, k), app, f) <==> Held(kv, app, f)
  {
    hide Plan, BytesKey, MetaKey, IndexKey, CatalogKey, DroppedNames, Names, ApplyAll, ValidName;
    var plan := Plan(app, assets, catalog, prior);
    forall op | op in plan[..k] ensures op.key != BytesKey(app, f) && op.key != MetaKey(app, f) {
      assert op in plan;
      PlanKeys(app, assets, catalog, prior, op);
      KeysApart(app, f, f);
      forall g | ValidName(g) && g != f && OnFile(app, op, g)
        ensures op.key != BytesKey(app, f) && op.key != MetaKey(app, f) {
        KeysApart(app, f, g);
        KeysApart(app, g, f);
      }
    }
    Untouched(kv, plan[..k], BytesKey(app, f));
    Untouched(kv, plan[..k], MetaKey(app, f));
  }

  /** The store after a publish that ran to its end. */
  function Published(kv: Store, app: string, assets: seq<Asset>, catalog: Value, prior: seq<string>): (r: Store)
  {
    Partial(kv, app, assets, catalog, prior, |Plan(app, assets, catalog, prior)|)
  }

  /** After an uninterrupted publish a file is there exactly if it is in the bundle, or was there unlisted. */
  lemma PublishedHolds(kv: Store, app: string, assets: seq<Asset>, catalog: Value, readOk: bool, f: string)
    requires Inv(kv, app) && LintClean(assets, catalog) && ValidName(f)
    ensures var prior := ExistingIndex(kv, app, readOk);
            Held(Published(kv, app, assets, catalog, prior), app, f)
            <==> f in Names(assets) || (Held(kv, app, f) && f !in prior)
  {
    hide Inv, BytesKey, MetaKey, ExistingIndex, DroppedNames, Names, ValidName, Partial, Committed, Deleted;
    var prior := ExistingIndex(kv, app, readOk);
    var n := |Plan(app, assets, catalog, prior)|;
    PriorValid(kv, app, readOk);
    if f in Names(assets) {
      PartialSettled(kv, app, assets, catalog, prior, n);
    } else if f in prior {
      PartialDeletes(kv, app, assets, catalog, prior, n);
      DeletesRemove(Committed(kv, app, assets, catalog), app, DroppedNames(prior, ListingOf(assets)), f);
    } else {
      OthersStay(kv, app, assets, catalog, prior, n, f);
    }
  }

  /** The stored file is this asset. */
  predicate Holds(kv: Store, app: string, a: Asset)
  {
    && BytesKey(app, a.filename) in kv && kv[BytesKey(app, a.filename)] == Payload(a.payload)
    && MetaKey(app, a.filename) in kv && kv[MetaKey(app, a.filename)] == Meta(a.contentType, a.sha256, a.size)
  }

  lemma {:induction false} UploadsHold(kv: Store, app: string, assets: seq<Asset>, i: nat)
    requires i < |assets| && AllValid(Names(assets)) && DistinctNames(assets)
    ensures Holds(Uploaded(kv, app, assets, 2 * |assets|), app, assets[i])
    decreases |assets|
  {
    hide BytesKey, MetaKey, CatalogKey, IndexKey, Uploaded, ValidName;
    var front, last := assets[..|assets| - 1], assets[|assets| - 1];
    NamesSnoc(assets);
    UploadedBytes(kv, app, assets);
    UploadedMeta(kv, app, assets);
    UploadedPrefix(kv, app, assets, 2 * |front|);
    assert assets[i].filename in Names(assets) by { NameAt(assets, i); }
    KeysApart(app, assets[i].filename, last.filename);
    KeysApart(app, last.filename, assets[i].filename);
    if i < |front| {
      UploadsHold(kv, app, front, i);
    }
  }

  predicate DistinctNames(assets: seq<Asset>)
  {
    forall i, j | 0 <= i < j < |assets| :: assets[i].filename != assets[j].filename
  }

  lemma NameAt(assets: seq<Asset>, i: nat)
    requires i < |assets|
    ensures assets[i].filename in Names(assets)
  {
    assert Names(assets)[i] == assets[i].filename;
  }

  /** From the end of the uploads on, every asset of the bundle is stored as it is in the bundle. */
  lemma BundleHeld(kv: Store, app: string, assets: seq<Asset>, catalog: Value, prior: seq<string>, k: nat, i: nat)
    requires LintClean(assets, catalog) && AllValid(prior) && i < |assets|
    requires 2 * |assets| <= k <= |Plan(app, assets, catalog, prior)|
    ensures Holds(Partial(kv, app, assets, catalog, prior, k), app, assets[i])
  {
    hide BytesKey, MetaKey, CatalogKey, IndexKey, ValidName, ApplyAll, Uploads, Deletes, DroppedNames, Sorted, OnFiles;
    var plan, u, f := Plan(app, assets, catalog, prior), 2 * |assets|, assets[i].filename;
    var tail := plan[u..k];
    assert plan[..k] == plan[..u] + tail;
    ApplyAllConcat(kv, plan[..u], tail);
    PartialUploads(kv, app, assets, catalog, prior, u);
    UploadsHold(kv, app, assets, i);
    NameAt(assets, i);
    forall op | op in tail ensures op.key != BytesKey(app, f) && op.key != MetaKey(app, f) {
      TailKeys(app, assets, catalog, prior, k, op);
      KeysApart(app, f, f);
      if OnFiles(app, op, DroppedNames(prior, ListingOf(assets))) {
        OtherFiles(app, f, DroppedNames(prior, ListingOf(assets)), op);
      }
    }
    Untouched(ApplyAll(kv, plan[..u]), tail, BytesKey(app, f));
    Untouched(ApplyAll(kv, plan[..u]), tail, MetaKey(app, f));
  }

  /** After the uploads a publish touches the catalog, the index and dropped files. */
  lemma TailKeys(app: string, assets: seq<Asset>, catalog: Value, prior: seq<string>, k: nat, op: Op)
    requires 2 * |assets| <= k <= |Plan(app, assets, catalog, prior)|
    requires op in Plan(app, assets, catalog, prior)[2 * |assets|..k]
    ensures op.key == CatalogKey(app) || op.key == IndexKey(app)
            || OnFiles(app, op, DroppedNames(prior, ListingOf(assets)))
  {
    hide BytesKey, MetaKey, CatalogKey, IndexKey, Uploads, Deletes, DroppedNames, OnFiles, Sorted, Names;
    var ds := Deletes(app, DroppedNames(prior, ListingOf(assets)));
    DeleteKeys(app, DroppedNames(prior, ListingOf(assets)));
    assert Plan(app, assets, catalog, prior)[2 * |assets|..]
           == [Put(CatalogKey(app), catalog), Put(IndexKey(app), Listing(Sorted(Names(assets))))] + ds;
    var n :| 2 * |assets| <= n < k && Plan(app, assets, catalog, prior)[n] == op;
    assert Plan(app, assets, catalog, prior)[2 * |assets|..][n - 2 * |assets|] == op;
  }

  lemma OtherFiles(app: string, f: string, names: seq<string>, op: Op)
    requires ValidName(f) && AllValid(names) && f !in names && OnFiles(app, op, names)
    ensures op.key != BytesKey(app, f) && op.key != MetaKey(app, f)
  {
    hide BytesKey, MetaKey, ValidName;
    var g :| g in names && OnFile(app, op, g);
    KeysApart(app, f, g);
    KeysApart(app, g, f);
  }

  /** Nothing is stored but what the listing names. */
  ghost predicate Exact(kv: Store, app: string, listing: seq<string>)
  {
    forall f | ValidName(f) :: Held(kv, app, f) <==> f in listing
  }

  /** The bundle, the index and the stored files agree after an uninterrupted publish exactly when every stored
      file was in the old listing as read, or is in the new bundle. */
  lemma ReconciledIff(kv: Store, app: string, assets: seq<Asset>, catalog: Value, readOk: bool)
    requires Inv(kv, app) && LintClean(assets, catalog)
    ensures var prior := ExistingIndex(kv, app, readOk);
            var after := Published(kv, app, assets, catalog, prior);
            && IndexKey(app) in after && after[IndexKey(app)] == Listing(ListingOf(assets))
            && (Exact(after, app, ListingOf(assets))
                <==> forall f | ValidName(f) && Held(kv, app, f) :: f in prior || f in Names(assets))
  {
    hide Inv, BytesKey, MetaKey, IndexKey, CatalogKey, ExistingIndex, DroppedNames, Names, ValidName, Partial, Held,
         Published, ListingOf;
    var prior := ExistingIndex(kv, app, readOk);
    SettledAtEnd(kv, app, assets, catalog, readOk);
    var after := Published(kv, app, assets, catalog, prior);
    forall f | ValidName(f)
      ensures Held(after, app, f) <==> f in Names(assets) || (Held(kv, app, f) && f !in prior) {
      PublishedHolds(kv, app, assets, catalog, readOk, f);
    }
  }

  lemma SettledAtEnd(kv: Store, app: string, assets: seq<Asset>, catalog: Value, readOk: bool)
    requires Inv(kv, app) && LintClean(assets, catalog)
    ensures var after := Published(kv, app, assets, catalog, ExistingIndex(kv, app, readOk));
            Settled(after, app, catalog, ListingOf(assets))
  {
    hide Inv, LintClean, ExistingIndex, Partial, Settled;
    PriorValid(kv, app, readOk);
    var prior := ExistingIndex(kv, app, readOk);
    PartialSettled(kv, app, assets, catalog, prior, |Plan(app, assets, catalog, prior)|);
  }

  /**
   A publish that dies after it wrote the index leaves behind, stored and unlisted, exactly those files outside its
   bundle that were stored before and whose two deletions it had not both done.
   */
  lemma OrphanArises(kv: Store, app: string, assets: seq<Asset>, catalog: Value, readOk: bool, f: string, k: nat)
    requires Inv(kv, app) && LintClean(assets, catalog) && ValidName(f) && f !in Names(assets) && Held(kv, app, f)
    requires 2 * |assets| + 2 <= k <= |Plan(app, assets, catalog, ExistingIndex(kv, app, readOk))|
    ensures var prior := ExistingIndex(kv, app, readOk);
            var dead := Partial(kv, app, assets, catalog, prior, k);
            && (Held(dead, app, f) <==> f !in DroppedNames(prior, ListingOf(assets))[..(k - 2 * |assets| - 2) / 2])
            && f !in ExistingIndex(dead, app, true)
  {
    hide Inv, BytesKey, MetaKey, IndexKey, CatalogKey, Names, ValidName, Partial, ListingOf, DroppedNames, Plan, Held,
         ExistingIndex, Deleted, Committed, LintClean;
    var prior := ExistingIndex(kv, app, readOk);
    PriorValid(kv, app, readOk);
    IndexAfter(kv, app, assets, catalog, readOk, k);
    if f in prior {
      var dropped, n := DroppedNames(prior, ListingOf(assets)), k - 2 * |assets| - 2;
      PartialDeletes(kv, app, assets, catalog, prior, k);
      ListedIsCommitted(kv, app, assets, catalog, readOk, f);
      DroppedCount(app, assets, catalog, prior);
      DeletesHold(Committed(kv, app, assets, catalog), app, dropped, n, f);
      HeldIs(Deleted(Committed(kv, app, assets, catalog), app, dropped, n), app, f);
    } else {
      NamesOfLint(assets, catalog);
      OthersStay(kv, app, assets, catalog, prior, k, f);
    }
  }

  lemma HeldIs(kv: Store, app: string, f: string)
    ensures Held(kv, app, f) <==> BytesKey(app, f) in kv || MetaKey(app, f) in kv
  {}

  lemma NamesOfLint(assets: seq<Asset>, catalog: Value)
    requires LintClean(assets, catalog)
    ensures AllValid(Names(assets))
  {}

  lemma DroppedCount(app: string, assets: seq<Asset>, catalog: Value, prior: seq<string>)
    ensures |Plan(app, assets, catalog, prior)| == 2 * |assets| + 2 + 2 * |DroppedNames(prior, ListingOf(assets))|
    ensures AllValid(prior) ==> AllValid(DroppedNames(prior, ListingOf(assets)))
  {
    hide DroppedNames, ValidName;
  }

  /** A file of the old listing is complete when the deletions begin. */
  lemma ListedIsCommitted(kv: Store, app: string, assets: seq<Asset>, catalog: Value, readOk: bool, f: string)
    requires Inv(kv, app) && LintClean(assets, catalog) && f in ExistingIndex(kv, app, readOk)
    ensures Stored(Committed(kv, app, assets, catalog), app, f)
  {
    hide BytesKey, MetaKey, IndexKey, CatalogKey, Names, ValidName, Uploaded, ListingOf;
    UploadsKeep(kv, app, assets, 2 * |assets|);
  }

  /** A stored file outside the index stays, and stays outside, through any publishes whose bundles lack it. */
  lemma {:induction false} OrphanStays(kv: Store, rounds: seq<Round>, app: string, f: string)
    requires AppName(app) && ValidName(f) && Consistent(kv)
    requires forall r | r in rounds :: CleanRound(r) && r.app == app && f !in Names(r.assets)
    requires Held(kv, app, f) && f !in ExistingIndex(kv, app, true)
    ensures Held(PublishAll(kv, rounds), app, f) && f !in ExistingIndex(PublishAll(kv, rounds), app, true)
    decreases |rounds|
  {
    hide Inv, Consistent, CleanRound, Publishing, Held, ExistingIndex, ValidName, Names;
    if rounds != [] {
      var r := rounds[0];
      assert r in rounds && forall q | q in rounds[1..] :: q in rounds;
      OrphanStaysOnce(kv, r, f);
      PublishingKeeps(kv, r);
      OrphanStays(Publishing(kv, r), rounds[1..], app, f);
    }
  }

  lemma OrphanStaysOnce(kv: Store, r: Round, f: string)
    requires ValidName(f) && Consistent(kv) && CleanRound(r) && f !in Names(r.assets)
    requires Held(kv, r.app, f) && f !in ExistingIndex(kv, r.app, true)
    ensures Held(Publishing(kv, r), r.app, f) && f !in ExistingIndex(Publishing(kv, r), r.app, true)
  {
    hide Inv, Held, ValidName, Names, Plan, Partial, AppName, IndexKey, BytesKey, MetaKey, CatalogKey;
    assert Inv(kv, r.app);
    PriorValid(kv, r.app, r.readOk);
    var prior := ExistingIndex(kv, r.app, r.readOk);
    var k := Min(r.steps, |RoundPlan(kv, r)|);
    OthersStay(kv, r.app, r.assets, r.catalog, prior, k, f);
    IndexAfter(kv, r.app, r.assets, r.catalog, r.readOk, k);
    PublishingIsPartial(kv, r);
  }

  lemma PublishingIsPartial(kv: Store, r: Round)
    ensures Publishing(kv, r) == Partial(kv, r.app, r.assets, r.catalog, ExistingIndex(kv, r.app, r.readOk),
                                         Min(r.steps, |RoundPlan(kv, r)|))
  {
    hide Plan, ApplyAll, ExistingIndex;
  }

  /** At every point of a publish the index is the old one or the new one. */
  lemma IndexAfter(kv: Store, app: string, assets: seq<Asset>, catalog: Value, readOk: bool, k: nat)
    requires Inv(kv, app) && LintClean(assets, catalog)
    requires k <= |Plan(app, assets, catalog, ExistingIndex(kv, app, readOk))|
    ensures var mid := Partial(kv, app, assets, catalog, ExistingIndex(kv, app, readOk), k);
            ExistingIndex(mid, app, true)
            == if k < 2 * |assets| + 2 then ExistingIndex(kv, app, true) else ListingOf(assets)
  {
    hide Inv, Partial, Plan, Names, ValidName, Uploaded, Committed, ListingOf, IndexKey, CatalogKey, Stored;
    var prior := ExistingIndex(kv, app, readOk);
    PriorValid(kv, app, readOk);
    BaseApart(app);
    if k <= 2 * |assets| + 1 {
      var u := if k <= 2 * |assets| then k else k - 1;
      UploadsKeep(kv, app, assets, u);
      PartialUploads(kv, app, assets, catalog, prior, u);
      PartialCommit(kv, app, assets, catalog, prior);
    } else {
      PartialSettled(kv, app, assets, catalog, prior, k);
    }
  }
}
