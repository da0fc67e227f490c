/** The ACL check of backend/src/api/dependencies.py and the per-app predicates of backup_format.py. */
module Acl {
  import opened Bytes

  const CATALOG_PREFIX := "_catalog/"

  /** One permission, with the defaults "" and "r" filled in. */
  datatype Perm = Perm(prefix: string, access: string)

  function StripType(resource: string): (path: string)
  {
    if StartsWith(resource, "q/") then resource[2..]
    else if StartsWith(resource, "kv/") then resource[3..]
    else resource
  }

  /** One type segment is dropped, and no other. */
  lemma StripTypeIs(resource: string, path: string)
    ensures StripType("q/" + path) == StripType("kv/" + path) == path
    ensures !("q/" <= resource) && !("kv/" <= resource) ==> StripType(resource) == resource
  {
    var q, kv := "q/" + path, "kv/" + path;
    assert q[..2] == "q/" && q[2..] == path;
    assert kv[..3] == "kv/" && kv[3..] == path && kv[..2][0] == 'k';
  }

  /** The path itself and, for a catalog stash, the path it stands for. */
  function CandidatePaths(path: string): (paths: seq<string>)
  {
    [path] + if StartsWith(path, CATALOG_PREFIX) && |path| > |CATALOG_PREFIX| then [path[|CATALOG_PREFIX|..]] else []
  }

  predicate PrefixMatches(prefix: string, path: string)
  {
    prefix == "*" || path == prefix || StartsWith(path, prefix + "/")
  }

  predicate Covers(p: Perm, path: string) { exists c | c in CandidatePaths(path) :: PrefixMatches(p.prefix, c) }

  /** The first permission that covers the path decides. */
  predicate Allowed(perms: seq<Perm>, path: string, write: bool)
  {
    perms != [] &&
    if Covers(perms[0], path) then !write || perms[0].access == "rw" else Allowed(perms[1..], path, write)
  }

  /** `check_acl`; false stands for the 403. */
  method CheckAcl(perms: seq<Perm>, resource: string, write: bool) returns (ok: bool)
    ensures ok <==> Allowed(perms, StripType(resource), write)
  {
    var path := resource;
    var types := ["q/", "kv/"];
    var t := 0;
    while t < 2
      invariant 0 <= t <= 2 && path == resource && forall i | 0 <= i < t :: !StartsWith(resource, types[i])
    {
      if StartsWith(path, types[t]) {
        path := path[|types[t]|..];
        break;
      }
      t := t + 1;
    }
    assert path == StripType(resource) by {
      assert types[0] == "q/" && types[1] == "kv/";
    }
    var i := 0;
    while i < |perms|
      invariant 0 <= i <= |perms| && Allowed(perms, path, write) == Allowed(perms[i..], path, write)
    {
      assert perms[i..][1..] == perms[i + 1..];
      if Covers(perms[i], path) {
        return !write || perms[i].access == "rw";
      }
      i := i + 1;
    }
    return false;
  }

  /** Access is granted exactly if some permission covers the path, and the first that does grants the mode. */
  lemma {:induction false} FirstCoverDecides(perms: seq<Perm>, path: string, write: bool)
    ensures Allowed(perms, path, write) <==>
            exists i :: 0 <= i < |perms| && FirstCover(perms, path, i) && (!write || perms[i].access == "rw")
  {
    hide Covers;
    if perms != [] {
      FirstCoverDecides(perms[1..], path, write);
      if Covers(perms[0], path) {
        assert FirstCover(perms, path, 0);
      } else {
        forall i | 0 < i < |perms| ensures FirstCover(perms, path, i) <==> FirstCover(perms[1..], path, i - 1) {
          FirstCoverShifts(perms, path, i);
        }
        if i :| 0 <= i < |perms[1..]| && FirstCover(perms[1..], path, i) && (!write || perms[1..][i].access == "rw") {
          assert FirstCover(perms, path, i + 1);
        }
      }
    }
  }

  predicate FirstCover(perms: seq<Perm>, path: string, i: nat)
    requires i < |perms|
  {
    Covers(perms[i], path) && forall j | 0 <= j < i :: !Covers(perms[j], path)
  }

  lemma FirstCoverShifts(perms: seq<Perm>, path: string, i: nat)
    requires 0 < i < |perms| && !Covers(perms[0], path)
    ensures FirstCover(perms, path, i) <==> FirstCover(perms[1..], path, i - 1)
  {
    hide Covers;
    if FirstCover(perms[1..], path, i - 1) {
      forall j | 0 <= j < i ensures !Covers(perms[j], path) {
        assert j > 0 ==> perms[j] == perms[1..][j - 1];
      }
    }
  }

  // ----- What belongs to an app -----

  predicate InTree(path: string, app: string) { path == app || StartsWith(path, app + "/") }

  predicate KvKeyBelongsToApp(key: string, app: string)
  {
    InTree(key, app) || key == CATALOG_PREFIX + app || StartsWith(key, CATALOG_PREFIX + app + "/")
  }

  predicate QueueTopicBelongsToApp(topic: string, app: string) { InTree(topic, app) }

  /** `client_matches_app`, used for admins too. */
  predicate MatchesApp(perms: seq<Perm>, app: string) { exists p | p in perms :: InTree(p.prefix, app) }

  /** A list of permissions matches an app exactly if one of them, other than "*", covers keys of the
      app's own tree only. */
  lemma MatchesIff(perms: seq<Perm>, app: string)
    requires app != "*"
    ensures MatchesApp(perms, app) <==>
            exists i :: 0 <= i < |perms| && perms[i].prefix != "*"
                        && forall key: string | PrefixMatches(perms[i].prefix, key) ::
                             key == app || StartsWith(key, app + "/")
  {
    forall i | 0 <= i < |perms|
      ensures InTree(perms[i].prefix, app) <==>
              perms[i].prefix != "*" && forall key: string | PrefixMatches(perms[i].prefix, key) ::
                                          key == app || StartsWith(key, app + "/")
    {
      OwnTreeIff(perms[i].prefix, app);
    }
  }

  lemma OwnTreeIff(prefix: string, app: string)
    requires app != "*"
    ensures InTree(prefix, app) <==>
            prefix != "*" && forall key: string | PrefixMatches(prefix, key) :: key == app || StartsWith(key, app + "/")
  {
    assert PrefixMatches(prefix, prefix);
    if InTree(prefix, app) {
      assert prefix != "*" by { assert |app + "/"| >= 1 && (app + "/")[|app|] == '/'; }
      forall key: string | PrefixMatches(prefix, key) ensures key == app || StartsWith(key, app + "/") {
        if key != prefix {
          assert key[..|prefix|] == prefix && key[|prefix|] == '/';
          assert prefix == app ==> key[..|app| + 1] == app + "/";
        }
      }
    }
  }

  /** The catalog alias, as the ACL check and as the backup filter see it. */
  lemma AliasAgrees(key: string, app: string)
    ensures key == CATALOG_PREFIX + app || StartsWith(key, CATALOG_PREFIX + app + "/") <==>
            StartsWith(key, CATALOG_PREFIX) && InTree(key[|CATALOG_PREFIX|..], app)
  {
    if StartsWith(key, CATALOG_PREFIX) {
      var rest := key[|CATALOG_PREFIX|..];
      assert key == CATALOG_PREFIX + rest;
      assert CATALOG_PREFIX + app + "/" == CATALOG_PREFIX + (app + "/");
      if key == CATALOG_PREFIX + app {
        DropPrefix(CATALOG_PREFIX, app);
      }
      if StartsWith(key, CATALOG_PREFIX + app + "/") {
        assert rest[..|app + "/"|] == app + "/";
      }
    }
  }

  /** The paths one permission on `app` covers. */
  lemma CoversIff(key: string, app: string, access: string)
    ensures Covers(Perm(app, access), key) <==>
            app == "*" || (KvKeyBelongsToApp(key, app) && !(app == "" && key == CATALOG_PREFIX))
  {
    AliasAgrees(key, app);
    var paths := CandidatePaths(key);
    assert paths[0] == key;
    if StartsWith(key, CATALOG_PREFIX) {
      var rest := key[|CATALOG_PREFIX|..];
      assert key == CATALOG_PREFIX + rest;
      if rest != "" {
        assert paths == [key, rest];
        assert paths[1] == rest && key != CATALOG_PREFIX;
        assert Covers(Perm(app, access), key) <==> PrefixMatches(app, key) || PrefixMatches(app, rest);
      } else {
        assert paths == [key] && key[0] == '_';
        assert app == "" ==> (app + "/")[0] == '/' && !InTree(key, app);
        assert InTree(rest, app) <==> app == "";
        assert Covers(Perm(app, access), key) <==> PrefixMatches(app, key);
      }
    } else {
      assert paths == [key];
      assert Covers(Perm(app, access), key) <==> PrefixMatches(app, key);
      assert key != CATALOG_PREFIX;
    }
  }

  /** A key belongs to an app exactly when an admin of that app alone may write it, "*" and one key of "" apart. */
  lemma BelongsIffMayWrite(key: string, app: string)
    ensures Allowed([Perm(app, "rw")], StripType("kv/" + key), true) <==>
            app == "*" || (KvKeyBelongsToApp(key, app) && !(app == "" && key == CATALOG_PREFIX))
  {
    var resource := "kv/" + key;
    assert resource[0] == 'k' && resource[..3] == "kv/" && resource[3..] == key;
    CoversIff(key, app, "rw");
  }

  /** Under the catalog alias an admin of an app may write topics that do not belong to the app. */
  predicate AliasedTopic(topic: string, app: string)
  {
    StartsWith(topic, CATALOG_PREFIX) && InTree(topic[|CATALOG_PREFIX|..], app)
  }

  /** A topic belongs to an app exactly when an admin of that app alone may write it, except for the topics under
      `_catalog/` of the app; "*" and one topic of "" apart. */
  lemma TopicBelongsIffMayWrite(topic: string, app: string)
    ensures Allowed([Perm(app, "rw")], StripType("q/" + topic), true) <==>
            app == "*"
            || ((QueueTopicBelongsToApp(topic, app) || AliasedTopic(topic, app))
                && !(app == "" && topic == CATALOG_PREFIX))
  {
    var resource := "q/" + topic;
    assert resource[0] == 'q' && resource[..2] == "q/" && resource[2..] == topic;
    CoversIff(topic, app, "rw");
    AliasAgrees(topic, app);
  }

  // ----- Apps keep apart -----

  predicate SlashFree(s: string) { '/' !in s }

  /** The part before the first slash. */
  function Head(path: string): (h: string)
    ensures SlashFree(h) && |h| <= |path| && h == path[..|h|]
    ensures |h| < |path| ==> path[|h|] == '/'
  {
    if path == "" || path[0] == '/' then "" else [path[0]] + Head(path[1..])
  }

  lemma InTreeIffHead(path: string, app: string)
    requires SlashFree(app)
    ensures InTree(path, app) <==> Head(path) == app
  {
    var h := Head(path);
    if h == app && |h| < |path| {
      assert app + "/" == path[..|app| + 1];
    }
    assert |app| < |h| ==> h[|app|] == path[|app|];
    assert |app| < |path| && StartsWith(path, app + "/") ==> path[|app|] == '/';
  }

  lemma CatalogHead(key: string)
    requires StartsWith(key, CATALOG_PREFIX)
    ensures Head(key) == "_catalog"
  {
    assert SlashFree("_catalog");
    assert "_catalog" + "/" == CATALOG_PREFIX;
    InTreeIffHead(key, "_catalog");
  }

  /** Two slash-free apps share a key exactly when one of them is the reserved name `_catalog`. */
  lemma AppsDisjointIff(a: string, b: string)
    requires SlashFree(a) && SlashFree(b) && a != b
    ensures (exists key: string :: KvKeyBelongsToApp(key, a) && KvKeyBelongsToApp(key, b)) <==>
            a == "_catalog" || b == "_catalog"
  {
    assert "_catalog" + "/" == CATALOG_PREFIX;
    forall key: string | KvKeyBelongsToApp(key, a) && KvKeyBelongsToApp(key, b)
      ensures a == "_catalog" || b == "_catalog"
    {
      AliasAgrees(key, a);
      AliasAgrees(key, b);
      InTreeIffHead(key, a);
      InTreeIffHead(key, b);
      if StartsWith(key, CATALOG_PREFIX) {
        CatalogHead(key);
        InTreeIffHead(key[|CATALOG_PREFIX|..], a);
        InTreeIffHead(key[|CATALOG_PREFIX|..], b);
      }
    }
    if a == "_catalog" {
      assert KvKeyBelongsToApp(CATALOG_PREFIX + b, a) && KvKeyBelongsToApp(CATALOG_PREFIX + b, b);
    } else if b == "_catalog" {
      assert KvKeyBelongsToApp(CATALOG_PREFIX + a, a) && KvKeyBelongsToApp(CATALOG_PREFIX + a, b);
    }
  }
}
