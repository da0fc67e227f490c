/** The operations of a publish, one by one, and the order of its listings. */
module PublishPlan {
  import opened Bytes
  import opened Publish

  // ----- Listings -----

  /** One text comes before another in the order of code points: it is the start of it, or smaller where they part. */
  lemma {:induction false} BeforeIff(s: string, t: string)
    ensures Before(s, t)
            <==> s <= t || exists n | 0 <= n < |s| && n < |t| :: s[..n] == t[..n] && s[n] < t[n]
  {
    if s != "" && t != "" && s[0] == t[0] {
      var p, q := s[1..], t[1..];
      BeforeIff(p, q);
      SameStart(s, t);
      if n :| 0 <= n < |p| && n < |q| && p[..n] == q[..n] && p[n] < q[n] {
        assert s[..n + 1] == [s[0]] + p[..n] && t[..n + 1] == [t[0]] + q[..n];
        assert s[n + 1] < t[n + 1];
      }
      if n :| 0 <= n < |s| && n < |t| && s[..n] == t[..n] && s[n] < t[n] {
        assert p[..n - 1] == s[..n][1..] && q[..n - 1] == t[..n][1..];
        assert p[n - 1] < q[n - 1];
      }
    } else if s != "" && t != "" && s[0] < t[0] {
      assert s[..0] == t[..0];
    } else if s != "" && t != "" {
      assert !(s <= t);
      forall n | 0 < n < |s| && n < |t| ensures s[..n] != t[..n] {
        assert s[..n][0] != t[..n][0];
      }
    }
  }

  lemma SameStart(s: string, t: string)
    requires s != "" && t != "" && s[0] == t[0]
    ensures s <= t <==> s[1..] <= t[1..]
  {
    assert s == [s[0]] + s[1..] && t == [t[0]] + t[1..];
  }

  predicate Once(xs: seq<string>) { forall i, j | 0 <= i < j < |xs| :: xs[i] != xs[j] }

  lemma OnceCons(x: string, xs: seq<string>)
    ensures Once([x] + xs) <==> Once(xs) && x !in xs
  {
    var r := [x] + xs;
    assert forall i | 0 <= i < |xs| :: xs[i] == r[i + 1];
    if Once(r) {
      forall i | 0 <= i < |xs| ensures xs[i] != x {
        assert r[0] != r[i + 1];
      }
    }
  }

  lemma {:induction false} InsertOnce(x: string, xs: seq<string>)
    requires Once(xs) && x !in xs
    ensures Once(Insert(x, xs))
  {
    hide Before, Once;
    OnceCons(x, xs);
    if xs != [] {
      var rest := xs[1..];
      assert xs == [xs[0]] + rest;
      OnceCons(xs[0], rest);
      InsertOnce(x, rest);
      OnceCons(xs[0], Insert(x, rest));
    }
  }

  /** The names to delete are those of the old listing that the new one lacks, each once, in order. */
  lemma {:induction false} DroppedInOrder(prior: seq<string>, listing: seq<string>)
    ensures var r := DroppedNames(prior, listing);
            Ascending(r) && Once(r) && forall f | f in r :: f in prior && f !in listing
  {
    hide Before, Ascending, Once, Insert;
    if prior == [] {
      NoNames();
    } else {
      DroppedInOrder(prior[1..], listing);
      var rest := DroppedNames(prior[1..], listing);
      if prior[0] !in listing && prior[0] !in rest {
        InsertAscends(prior[0], rest);
        InsertOnce(prior[0], rest);
      }
    }
  }

  lemma NoNames()
    ensures Ascending([]) && Once([])
  {}

  // ----- Names -----

  /** What lint refuses in a name, and that it lets names through. */
  lemma LintRules(f: string)
    ensures f == "" || |f| > 64 || f[0] == '.' ==> !ValidName(f)
    ensures (exists c | c in f :: c == '/' || c == ' ' || 'A' <= c <= 'Z') ==> !ValidName(f)
    ensures ValidName("logo-1_b.svg")
  {
    hide KnownSuffix;
    KnownIs();
  }

  lemma KnownIs()
    ensures KnownSuffix("logo-1_b.svg")
  {}

  // ----- The operations -----

  function FileKey(app: string, f: string): (k: string) { "_catalog/" + app + "/_assets/" + f }

  lemma {:induction false} UploadAt(app: string, assets: seq<Asset>, k: nat)
    requires k < 2 * |assets|
    ensures var a := assets[k / 2];
            Uploads(app, assets)[k]
            == if k % 2 == 0 then Put(FileKey(app, a.filename), Payload(a.payload))
               else Put(FileKey(app, a.filename) + ".meta", Meta(a.contentType, a.sha256, a.size))
  {
    if k < 2 * |assets| - 2 {
      UploadAt(app, assets[..|assets| - 1], k);
    } else {
      assert k / 2 == |assets| - 1;
    }
  }

  lemma {:induction false} DeleteAt(app: string, names: seq<string>, k: nat)
    requires k < 2 * |names|
    ensures Deletes(app, names)[k]
            == Delete(if k % 2 == 0 then FileKey(app, names[k / 2]) else FileKey(app, names[k / 2]) + ".meta")
  {
    if k < 2 * |names| - 2 {
      DeleteAt(app, names[..|names| - 1], k);
    } else {
      assert k / 2 == |names| - 1;
    }
  }

  /**
   The plan of a publish, operation by operation: of each asset in turn its bytes and then its metadata, the catalog,
   the index with the sorted names, and for each dropped name the deletion of its bytes and then of its metadata.
   */
  lemma PlanIs(app: string, assets: seq<Asset>, catalog: Value, prior: seq<string>, k: nat)
    requires k < |Plan(app, assets, catalog, prior)|
    ensures var n := 2 * |assets|;
            var dropped := DroppedNames(prior, Sorted(Names(assets)));
            Plan(app, assets, catalog, prior)[k]
            == if k < n then
                 var a := assets[k / 2];
                 if k % 2 == 0 then Put(FileKey(app, a.filename), Payload(a.payload))
                 else Put(FileKey(app, a.filename) + ".meta", Meta(a.contentType, a.sha256, a.size))
               else if k == n then Put("_catalog/" + app, catalog)
               else if k == n + 1 then Put("_catalog/" + app + "/_assets_index", Listing(Sorted(Names(assets))))
               else
                 var f := dropped[(k - n - 2) / 2];
                 Delete(if k % 2 == 0 then FileKey(app, f) else FileKey(app, f) + ".meta")
  {
    hide Uploads, Deletes, DroppedNames, Sorted, Names, FileKey;
    var n, dropped := 2 * |assets|, DroppedNames(prior, Sorted(Names(assets)));
    if k < n {
      UploadAt(app, assets, k);
    } else if k > n + 1 {
      DeleteAt(app, dropped, k - n - 2);
      assert (k - n - 2) % 2 == k % 2;
    }
  }
}
