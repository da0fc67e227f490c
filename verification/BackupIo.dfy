/** The loops of backup_io.py over a Redis that is a field, proved against `BackupCollect` and `BackupStore`. */
module BackupIo {
  import opened Bytes
  import opened BackupFormat
  import opened BackupStore
  import opened BackupCollect
  import Acl

  lemma PickSnoc<A, B>(xs: seq<A>, i: nat, f: A -> Option<B>)
    requires i < |xs|
    ensures FilterMap(xs[..i + 1], f)
            == if f(xs[i]).Some? then FilterMap(xs[..i], f) + [f(xs[i]).value] else FilterMap(xs[..i], f)
  {
    assert xs[..i + 1][..i] == xs[..i];
  }

  /** The first pass over the values: without the flags. */
  function RawAt(s: Store, app: Option<string>, k: string): (r: Option<(string, seq<byte>)>)
  {
    if !StartsWith(k, "kv:") || EndsWith(k[3..], ENC) || k !in s then None
    else if app.Some? && !Acl.KvKeyBelongsToApp(k[3..], app.value) then None
    else Some((k[3..], BinAt(s, k)))
  }

  function RawPick(s: Store, app: Option<string>): (f: string -> Option<(string, seq<byte>)>) { k => RawAt(s, app, k) }

  function WithFlag(raw: (string, seq<byte>), keys: seq<string>): (r: (string, KvRecord))
  {
    (raw.0, KvRecord(raw.1, EncKey(raw.0) in keys))
  }

  /** The second pass pairs each value with its sidecar. */
  lemma {:induction false} Paired(s: Store, keys: seq<string>, app: Option<string>, prefix: seq<string>)
    ensures var raw := FilterMap(prefix, RawPick(s, app));
            var kv := FilterMap(prefix, KvPick(s, keys, app));
            |raw| == |kv| && forall n | 0 <= n < |raw| :: kv[n] == WithFlag(raw[n], keys)
  {
    hide StartsWith, EndsWith, EncKey, BinAt, Acl.KvKeyBelongsToApp;
    if prefix != [] {
      Paired(s, keys, app, prefix[..|prefix| - 1]);
    }
  }

  lemma LogSnoc(es: seq<StreamEntry>, i: nat, clients: Dict<ClientRecord>, host: Host)
    requires i < |es|
    ensures LogOf(es[..i + 1], clients, host)
            == if exists n | 0 <= n < |clients| :: clients[n].0 == host.decode(FieldAt(es[i].fields, "client_id"))
               then LogOf(es[..i], clients, host) + [es[i]] else LogOf(es[..i], clients, host)
  {
    assert es[..i + 1][..i] == es[..i];
  }

  lemma ApplySnoc<T>(o: Outcome, d: Dict<T>, i: nat, make: (string, T) -> Item, force: bool, filter: string, host: Host)
    requires i < |d|
    ensures ApplyFrom(o, MakeAll(d[..i + 1], make), force, filter, host)
            == Step(ApplyFrom(o, MakeAll(d[..i], make), force, filter, host), make(d[i].0, d[i].1), force, filter, host)
  {
    hide Step;
    assert d[..i + 1][..i] == d[..i];
  }

  /** An exception in the middle ends the whole section. */
  lemma ApplyStops<T>(o: Outcome, d: Dict<T>, i: nat, make: (string, T) -> Item, force: bool, filter: string,
                      host: Host)
    requires i < |d| && ApplyFrom(o, MakeAll(d[..i + 1], make), force, filter, host).failed
    ensures ApplyFrom(o, MakeAll(d, make), force, filter, host)
            == ApplyFrom(o, MakeAll(d[..i + 1], make), force, filter, host)
  {
    hide Step;
    var all, done := MakeAll(d, make), MakeAll(d[..i + 1], make);
    assert all == done + all[i + 1..];
    ApplyConcat(o, done, all[i + 1..], force, filter, host);
    FailedStays(ApplyFrom(o, done, force, filter, host), all[i + 1..], force, filter, host);
  }

  lemma AddedSnoc(host: Host, es: seq<StreamEntry>, i: nat)
    requires i < |es| && Addable(host, es[..i])
    ensures Added(host, es[..i + 1])
            == if Takes(host, LastRank(host, es[..i]), es[i]) then es[..i + 1] else es[..i]
  {
    assert es[..i + 1][..i] == es[..i];
    assert es[..i + 1] == es[..i] + [es[i]];
  }

  /** What was refused once ends the stream there. */
  lemma {:induction false} AddedStops(host: Host, es: seq<StreamEntry>, i: nat)
    requires i < |es| && Added(host, es[..i + 1]) == es[..i]
    ensures Added(host, es) == es[..i] && !Addable(host, es)
  {
    hide Takes;
    if i + 1 < |es| {
      assert es[..|es| - 1][..i + 1] == es[..i + 1];
      AddedStops(host, es[..|es| - 1], i);
    } else {
      assert es[..i + 1] == es;
    }
  }

  /** What the restore routes answer; not `ok` is an exception in the middle of the restore. */
  datatype Response =
    | BadAppName
    | Refused(error: Error)
    | WrongKind
    | OtherApp(named: Json)
    | Done(report: seq<Line>, ok: bool)

  /** `not app.strip()`, for ASCII white space. */
  predicate Blank(app: string) { forall c | c in app :: c == ' ' || 9 <= c as int <= 13 || 28 <= c as int <= 31 }

  class Redis {
    var store: Store
    const host: Host

    constructor (store: Store, host: Host)
      ensures this.store == store && this.host == host
    {
      this.store, this.host := store, host;
    }

    // ----- Collecting; `keys` is what KEYS answers -----

    /** The clients; `None` if an ACL does not parse, whichever client it is. */
    method CollectClients(keys: seq<string>, app: Option<string>) returns (r: Option<Dict<ClientRecord>>)
      ensures r.Some? <==> AclsParse(store, keys, host)
      ensures r.Some? ==> r.value == FilterMap(keys, ClientPick(store, host, app))
    {
      hide FilterMap, IsSecretKey, AclOf, TextAt, Belongs;
      var clients: Dict<ClientRecord> := [];
      assert FilterMap(keys[..0], ClientPick(store, host, app)) == [] by {
        PickNone(keys, ClientPick(store, host, app));
      }
      for i := 0 to |keys|
        invariant AclsParse(store, keys[..i], host) && clients == FilterMap(keys[..i], ClientPick(store, host, app))
      {
        var k := keys[i];
        PickSnoc(keys, i, ClientPick(store, host, app));
        if !IsSecretKey(k) {
          continue;
        }
        var id := IdOf(k);
        var secret := TextAt(store, k);
        var acl := AclOf(store, id, host);
        if acl.None? {
          assert k in keys;
          return None;
        }
        if app.Some? && !Belongs(Client(id, ClientRecord(secret, acl.value)), app.value) {
          continue;
        }
        clients := clients + [(id, ClientRecord(secret, acl.value))];
      }
      assert keys[..|keys|] == keys;
      r := Some(clients);
    }

    method CollectAdminAcls(keys: seq<string>, app: Option<string>) returns (r: Dict<Json>)
      ensures r == FilterMap(keys, AdminPick(store, host, app))
    {
      hide FilterMap, TextAt, Belongs, TruthyAt;
      r := [];
      PickNone(keys, AdminPick(store, host, app));
      for i := 0 to |keys|
        invariant r == FilterMap(keys[..i], AdminPick(store, host, app))
      {
        var k := keys[i];
        PickSnoc(keys, i, AdminPick(store, host, app));
        if !StartsWith(k, "admin_acls:") || !TruthyAt(store, k) {
          continue;
        }
        var acl := host.parse(TextAt(store, k));
        if acl.None? {
          continue;
        }
        if app.Some? && !Belongs(Admin(k[11..], acl.value), app.value) {
          continue;
        }
        r := r + [(k[11..], acl.value)];
      }
      assert keys[..|keys|] == keys;
    }

    /** The values in one pass, their sidecars paired in a second. */
    method CollectKv(keys: seq<string>, app: Option<string>) returns (r: Dict<KvRecord>)
      ensures r == FilterMap(keys, KvPick(store, keys, app))
    {
      hide FilterMap, BinAt, Acl.KvKeyBelongsToApp, EncKey;
      var values: Dict<seq<byte>>, encFlags: set<string> := [], {};
      PickNone(keys, RawPick(store, app));
      for i := 0 to |keys|
        invariant values == FilterMap(keys[..i], RawPick(store, app))
        invariant forall x :: x in encFlags <==> EncKey(x) in keys[..i]
      {
        var k := keys[i];
        PickSnoc(keys, i, RawPick(store, app));
        forall x ensures EncKey(x) in keys[..i + 1] <==> EncKey(x) in keys[..i] || EncKey(x) == k {}
        forall x ensures EncKey(x) == k <==> StartsWith(k, "kv:") && EndsWith(k[3..], ENC) && x == k[3..|k| - 4] {
          EncKeyIs(k, x);
        }
        if !StartsWith(k, "kv:") {
          continue;
        }
        if EndsWith(k[3..], ENC) {
          encFlags := encFlags + {k[3..|k| - 4]};
          continue;
        }
        if app.Some? && !Acl.KvKeyBelongsToApp(k[3..], app.value) {
          continue;
        }
        if k !in store {
          continue;
        }
        values := values + [(k[3..], BinAt(store, k))];
      }
      assert keys[..|keys|] == keys;
      Paired(store, keys, app, keys);
      r := [];
      for i := 0 to |values|
        invariant |r| == i && forall n | 0 <= n < i :: r[n] == WithFlag(values[n], keys)
      {
        r := r + [(values[i].0, KvRecord(values[i].1, values[i].0 in encFlags))];
      }
    }

    method CollectQueues(keys: seq<string>, app: Option<string>) returns (r: Dict<seq<StreamEntry>>)
      ensures r == FilterMap(keys, QueuePick(store, app))
    {
      hide FilterMap, StreamAt, Acl.QueueTopicBelongsToApp;
      r := [];
      PickNone(keys, QueuePick(store, app));
      for i := 0 to |keys|
        invariant r == FilterMap(keys[..i], QueuePick(store, app))
      {
        var k := keys[i];
        PickSnoc(keys, i, QueuePick(store, app));
        if !StartsWith(k, "q:") || (app.Some? && !Acl.QueueTopicBelongsToApp(k[2..], app.value)) {
          continue;
        }
        r := r + [(k[2..], StreamAt(store, k))];
      }
      assert keys[..|keys|] == keys;
    }

    method CollectDeviceToApp(keys: seq<string>, app: Option<string>) returns (r: Dict<string>)
      ensures r == FilterMap(keys, DevicePick(store, app))
    {
      hide FilterMap, TextAt;
      r := [];
      PickNone(keys, DevicePick(store, app));
      for i := 0 to |keys|
        invariant r == FilterMap(keys[..i], DevicePick(store, app))
      {
        var k := keys[i];
        PickSnoc(keys, i, DevicePick(store, app));
        if !StartsWith(k, "device_to_app:") || (app.Some? && TextAt(store, k) != app.value) {
          continue;
        }
        r := r + [(k[14..], TextAt(store, k))];
      }
      assert keys[..|keys|] == keys;
    }

    /** The log entries of the clients in the dump. */
    method FilterLog(full: seq<StreamEntry>, clients: Dict<ClientRecord>) returns (r: seq<StreamEntry>)
      ensures r == LogOf(full, clients, host)
    {
      hide FieldAt;
      r := [];
      for i := 0 to |full|
        invariant r == LogOf(full[..i], clients, host)
      {
        LogSnoc(full, i, clients, host);
        if exists n | 0 <= n < |clients| :: clients[n].0 == host.decode(FieldAt(full[i].fields, "client_id")) {
          r := r + [full[i]];
        }
      }
      assert full[..|full|] == full;
    }

    /** `collect_whole_envelope`, and `collect_per_app_envelope` for an app. */
    method Collect(keys: seq<string>, app: Option<string>, logs: bool, now: string) returns (r: Option<Envelope>)
      ensures r.Some? <==> AclsParse(store, keys, host)
      ensures r.Some? ==> r.value == Collected(store, keys, app, logs, now, host)
    {
      hide FilterMap, AclsParse, LogOf, StreamAt;
      var clients := CollectClients(keys, app);
      if clients.None? {
        return None;
      }
      var acls := CollectAdminAcls(keys, app);
      var kv := CollectKv(keys, app);
      var queues := CollectQueues(keys, app);
      var devices := CollectDeviceToApp(keys, app);
      var log: Option<seq<StreamEntry>> := None;
      if logs {
        var full := StreamAt(store, LOG_KEY);
        if app.Some? {
          full := FilterLog(full, clients.value);
        }
        log := Some(full);
      }
      r := Some(Envelope(if app.Some? then "per-app" else "whole", if app.Some? then Text(app.value) else Null,
                         Text(now), clients.value, acls, kv, queues, log, devices));
    }

    // ----- Applying -----

    /** XADD with an explicit id; it makes the stream if there is none. */
    method XAdd(k: string, e: StreamEntry) returns (ok: bool)
      requires k in store ==> store[k].Stream?
      modifies this
      ensures var es := StreamAt(old(store), k);
              && (ok <==> Takes(host, LastRank(host, es), e))
              && store == if ok then old(store)[k := Stream(es + [e])] else old(store)
    {
      var es := StreamAt(store, k);
      ok := Takes(host, LastRank(host, es), e);
      if ok {
        store := store[k := Stream(es + [e])];
      }
    }

    /** Replaces a stream, entry by entry, until XADD refuses one. */
    method PutEntries(k: string, existed: bool, es: seq<StreamEntry>) returns (ok: bool)
      requires existed <==> k in store
      modifies this
      ensures store == PutStream(old(store), k, Added(host, es)) && (ok <==> Addable(host, es))
    {
      hide Takes, LastRank, Added;
      if existed {
        store := store - {k};
      }
      ghost var s := store;
      NoneAdded(host);
      for i := 0 to |es|
        invariant Addable(host, es[..i]) && store == PutStream(old(store), k, es[..i])
      {
        AddedSnoc(host, es, i);
        ok := XAdd(k, es[i]);
        assert es[..i + 1] == es[..i] + [es[i]];
        if !ok {
          AddedStops(host, es, i);
          return;
        }
      }
      assert es[..|es|] == es;
      ok := true;
    }

    method ApplyClients(clients: Dict<ClientRecord>, force: bool, filter: string, lines: seq<Line>)
      returns (report: seq<Line>)
      modifies this
      ensures Outcome(store, report, false)
              == ApplyFrom(Outcome(old(store), lines, false), MakeAll(clients, MakeClient), force, filter, host)
    {
      hide ApplyFrom, MakeAll, Acl.MatchesApp, Granted, SecretKey, AclKey, TruthyAt;
      report := lines;
      ghost var start := Outcome(store, lines, false);
      ApplyNone(start, clients, MakeClient, force, filter, host);
      for i := 0 to |clients|
        invariant Outcome(store, report, false)
                  == ApplyFrom(start, MakeAll(clients[..i], MakeClient), force, filter, host)
      {
        var (id, rec) := clients[i];
        ApplySnoc(start, clients, i, MakeClient, force, filter, host);
        if filter != "" && !Acl.MatchesApp(Granted(rec.acl), filter) {
          report := report + [Line(Clients, id, Rejected)];
          continue;
        }
        var existing := TruthyAt(store, SecretKey(id));
        if existing && !force {
          report := report + [Line(Clients, id, Skipped)];
          continue;
        }
        store := store[SecretKey(id) := Chars(rec.secret)];
        store := store[AclKey(id) := Chars(host.dump(rec.acl))];
        report := report + [Line(Clients, id, if existing then Overwritten else Restored)];
      }
      assert clients[..|clients|] == clients;
    }

    method ApplyAdminAcls(acls: Dict<Json>, force: bool, filter: string, lines: seq<Line>) returns (report: seq<Line>)
      modifies this
      ensures Outcome(store, report, false)
              == ApplyFrom(Outcome(old(store), lines, false), MakeAll(acls, MakeAdmin), force, filter, host)
    {
      hide ApplyFrom, MakeAll, Acl.MatchesApp, Granted, AdminKey, TruthyAt;
      report := lines;
      ghost var start := Outcome(store, lines, false);
      ApplyNone(start, acls, MakeAdmin, force, filter, host);
      for i := 0 to |acls|
        invariant Outcome(store, report, false)
                  == ApplyFrom(start, MakeAll(acls[..i], MakeAdmin), force, filter, host)
      {
        var (user, acl) := acls[i];
        ApplySnoc(start, acls, i, MakeAdmin, force, filter, host);
        if filter != "" && !Acl.MatchesApp(Granted(acl), filter) {
          report := report + [Line(AdminAcls, user, Rejected)];
          continue;
        }
        var existing := TruthyAt(store, AdminKey(user));
        if existing && !force {
          report := report + [Line(AdminAcls, user, Skipped)];
          continue;
        }
        store := store[AdminKey(user) := Chars(host.dump(acl))];
        report := report + [Line(AdminAcls, user, if existing then Overwritten else Restored)];
      }
      assert acls[..|acls|] == acls;
    }

    method ApplyKv(kv: Dict<KvRecord>, force: bool, filter: string, lines: seq<Line>) returns (report: seq<Line>)
      modifies this
      ensures Outcome(store, report, false)
              == ApplyFrom(Outcome(old(store), lines, false), MakeAll(kv, MakeKv), force, filter, host)
    {
      hide ApplyFrom, MakeAll, Acl.KvKeyBelongsToApp, KvKey, EncKey;
      report := lines;
      ghost var start := Outcome(store, lines, false);
      ApplyNone(start, kv, MakeKv, force, filter, host);
      for i := 0 to |kv|
        invariant Outcome(store, report, false) == ApplyFrom(start, MakeAll(kv[..i], MakeKv), force, filter, host)
      {
        var (key, rec) := kv[i];
        ApplySnoc(start, kv, i, MakeKv, force, filter, host);
        if filter != "" && !Acl.KvKeyBelongsToApp(key, filter) {
          report := report + [Line(KvPairs, key, Rejected)];
          continue;
        }
        var existing := KvKey(key) in store;
        if existing && !force {
          report := report + [Line(KvPairs, key, Skipped)];
          continue;
        }
        store := store[KvKey(key) := Bin(rec.value)];
        if rec.encrypted {
          store := store[EncKey(key) := Bin(ENC_FLAG)];
        } else {
          store := store - {EncKey(key)};
        }
        report := report + [Line(KvPairs, key, if existing then Overwritten else Restored)];
      }
      assert kv[..|kv|] == kv;
    }

    /** The queues; not `ok` is an exception out of XADD, which ends the restore. */
    method ApplyQueues(queues: Dict<seq<StreamEntry>>, force: bool, filter: string, lines: seq<Line>)
      returns (report: seq<Line>, ok: bool)
      modifies this
      ensures Outcome(store, report, !ok)
              == ApplyFrom(Outcome(old(store), lines, false), MakeAll(queues, MakeQueue), force, filter, host)
    {
      hide ApplyFrom, MakeAll, Acl.QueueTopicBelongsToApp, QueueKey, Added, PutStream, Addable;
      report, ok := lines, true;
      ghost var start := Outcome(store, lines, false);
      ApplyNone(start, queues, MakeQueue, force, filter, host);
      for i := 0 to |queues|
        invariant ok && Outcome(store, report, false)
                        == ApplyFrom(start, MakeAll(queues[..i], MakeQueue), force, filter, host)
      {
        var (topic, entries) := queues[i];
        ApplySnoc(start, queues, i, MakeQueue, force, filter, host);
        if filter != "" && !Acl.QueueTopicBelongsToApp(topic, filter) {
          report := report + [Line(Queues, topic, Rejected)];
          continue;
        }
        var existed := QueueKey(topic) in store;
        if existed && !force {
          report := report + [Line(Queues, topic, Skipped)];
          continue;
        }
        ok := PutEntries(QueueKey(topic), existed, entries);
        if !ok {
          ApplyStops(start, queues, i, MakeQueue, force, filter, host);
          return;
        }
        report := report + [Line(Queues, topic, if existed then Overwritten else Restored)];
      }
      assert queues[..|queues|] == queues;
    }

    method ApplyDeviceToApp(devices: Dict<string>, force: bool, filter: string, lines: seq<Line>)
      returns (report: seq<Line>)
      modifies this
      ensures Outcome(store, report, false)
              == ApplyFrom(Outcome(old(store), lines, false), MakeAll(devices, MakeDevice), force, filter, host)
    {
      hide ApplyFrom, MakeAll, DeviceKey, TruthyAt;
      report := lines;
      ghost var start := Outcome(store, lines, false);
      ApplyNone(start, devices, MakeDevice, force, filter, host);
      for i := 0 to |devices|
        invariant Outcome(store, report, false)
                  == ApplyFrom(start, MakeAll(devices[..i], MakeDevice), force, filter, host)
      {
        var (id, app) := devices[i];
        ApplySnoc(start, devices, i, MakeDevice, force, filter, host);
        if filter != "" && app != filter {
          report := report + [Line(Devices, id, Rejected)];
          continue;
        }
        var existing := TruthyAt(store, DeviceKey(id));
        if existing && !force {
          report := report + [Line(Devices, id, Skipped)];
          continue;
        }
        store := store[DeviceKey(id) := Chars(app)];
        report := report + [Line(Devices, id, if existing then Overwritten else Restored)];
      }
      assert devices[..|devices|] == devices;
    }

    /** The log, which no filter applies to. */
    method ApplyLog(log: Option<seq<StreamEntry>>, force: bool, filter: string, lines: seq<Line>)
      returns (report: seq<Line>, ok: bool)
      modifies this
      ensures Outcome(store, report, !ok)
              == ApplyFrom(Outcome(old(store), lines, false), LogItems(log), force, filter, host)
    {
      hide Added, PutStream, Addable;
      report, ok := lines, true;
      if log.None? {
        return;
      }
      ApplyOne(Outcome(store, lines, false), Log(log.value), force, filter, host);
      var existed := LOG_KEY in store;
      if existed && !force {
        report := report + [Line(ActivityLog, "", Skipped)];
        return;
      }
      ok := PutEntries(LOG_KEY, existed, log.value);
      if ok {
        report := report + [Line(ActivityLog, "", if existed then Overwritten else Restored)];
      }
    }

    /** `apply_envelope`: the sections in turn. An empty `filter` is no filter. */
    method ApplyEnvelope(e: Envelope, force: bool, filter: string) returns (report: seq<Line>, ok: bool)
      modifies this
      ensures Outcome(store, report, !ok) == Apply(old(store), Items(e), force, filter, host)
    {
      hide ApplyFrom, MakeAll, LogItems;
      ghost var o := Outcome(store, [], false);
      ghost var a, b, c, d, f, g := MakeAll(e.clients, MakeClient), MakeAll(e.adminAcls, MakeAdmin),
          MakeAll(e.kv, MakeKv), MakeAll(e.queues, MakeQueue), MakeAll(e.deviceToApp, MakeDevice),
          LogItems(e.activityLog);
      ApplyConcat(o, a, b, force, filter, host);
      ApplyConcat(o, a + b, c, force, filter, host);
      ApplyConcat(o, a + b + c, d, force, filter, host);
      ApplyConcat(o, a + b + c + d, f, force, filter, host);
      ApplyConcat(o, a + b + c + d + f, g, force, filter, host);
      report := ApplyClients(e.clients, force, filter, []);
      report := ApplyAdminAcls(e.adminAcls, force, filter, report);
      report := ApplyKv(e.kv, force, filter, report);
      report, ok := ApplyQueues(e.queues, force, filter, report);
      if !ok {
        FailedStays(Outcome(store, report, true), f, force, filter, host);
        FailedStays(Outcome(store, report, true), g, force, filter, host);
        return;
      }
      report := ApplyDeviceToApp(e.deviceToApp, force, filter, report);
      report, ok := ApplyLog(e.activityLog, force, filter, report);
    }

    /** The restore route of an app. Whatever it refuses, it refuses before any write. */
    method RestorePerApp(app: string, doc: Json, force: bool, show: Json -> string) returns (r: Response)
      modifies this
      ensures match r
              case BadAppName => (Blank(app) || '/' in app) && store == old(store)
              case Refused(error) => FromJson(doc, show) == Err(error) && store == old(store)
              case OtherApp(named) =>
                FromJson(doc, show).Ok? && named == FromJson(doc, show).value.app && named != Text(app)
                && named != Null && store == old(store)
              case Done(report, ok) =>
                !Blank(app) && '/' !in app && FromJson(doc, show).Ok?
                && (FromJson(doc, show).value.app == Null || FromJson(doc, show).value.app == Text(app))
                && Outcome(store, report, !ok) == Apply(old(store), Items(FromJson(doc, show).value), force, app, host)
              case WrongKind => false
    {
      hide FromJson, Apply, Items;
      if Blank(app) || '/' in app {
        return BadAppName;
      }
      var env := Load(doc, show);
      if env.Err? {
        return Refused(env.error);
      }
      if env.value.app != Null && env.value.app != Text(app) {
        return OtherApp(env.value.app);
      }
      var report, ok := ApplyEnvelope(env.value, force, app);
      r := Done(report, ok);
    }

    /** The restore route of the instance takes whole dumps only. */
    method RestoreWhole(doc: Json, force: bool, show: Json -> string) returns (r: Response)
      modifies this
      ensures match r
              case Refused(error) => FromJson(doc, show) == Err(error) && store == old(store)
              case WrongKind =>
                FromJson(doc, show).Ok? && FromJson(doc, show).value.kind != "whole" && store == old(store)
              case Done(report, ok) =>
                FromJson(doc, show).Ok? && FromJson(doc, show).value.kind == "whole"
                && Outcome(store, report, !ok) == Apply(old(store), Items(FromJson(doc, show).value), force, "", host)
              case _ => false
    {
      hide FromJson, Apply, Items;
      var env := Load(doc, show);
      if env.Err? {
        return Refused(env.error);
      }
      if env.value.kind != "whole" {
        return WrongKind;
      }
      var report, ok := ApplyEnvelope(env.value, force, "");
      r := Done(report, ok);
    }
  }

  lemma PickNone<A, B>(xs: seq<A>, f: A -> Option<B>)
    ensures FilterMap(xs[..0], f) == []
  {}

  lemma NoneAdded(host: Host)
    ensures Added(host, []) == []
  {}

  lemma EncKeyIs(k: string, x: string)
    ensures EncKey(x) == k <==> StartsWith(k, "kv:") && EndsWith(k[3..], ENC) && x == k[3..|k| - 4]
  {
    if EncKey(x) == k {
      DropPrefix("kv:", x + ENC);
    }
    if StartsWith(k, "kv:") && EndsWith(k[3..], ENC) && x == k[3..|k| - 4] {
      assert k == k[..3] + (k[3..|k| - 4] + k[3..][|k| - 7..]);
    }
  }

  lemma ApplyNone<T>(o: Outcome, d: Dict<T>, make: (string, T) -> Item, force: bool, filter: string, host: Host)
    ensures ApplyFrom(o, MakeAll(d[..0], make), force, filter, host) == o
  {}
}
