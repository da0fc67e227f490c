/** Dumping the store: `collect_whole_envelope` and `collect_per_app_envelope`, against restoring. */
module BackupCollect {
  import opened Bytes
  import opened BackupFormat
  import opened BackupStore
  import Acl

  /** What KEYS lists: each key once. */
  predicate Lists(keys: seq<string>, s: Store)
  {
    (forall i, j | 0 <= i < j < |keys| :: keys[i] != keys[j])
    && (forall k | k in keys :: k in s) && forall k | k in s :: k in keys
  }

  function FilterMap<A, B>(xs: seq<A>, f: A -> Option<B>): (r: seq<B>)
  {
    if xs == [] then []
    else
      var front, last := FilterMap(xs[..|xs| - 1], f), f(xs[|xs| - 1]);
      if last.Some? then front + [last.value] else front
  }

  // ----- What each key contributes -----

  function TextAt(s: Store, k: string): (t: string) { if k in s && s[k].Chars? then s[k].text else "" }

  function BinAt(s: Store, k: string): (b: seq<byte>) { if k in s && s[k].Bin? then s[k].data else [] }

  function StreamAt(s: Store, k: string): (es: seq<StreamEntry>) { if k in s && s[k].Stream? then s[k].entries else [] }

  /** The pattern `client:*:secret`. */
  predicate IsSecretKey(k: string) { StartsWith(k, "client:") && |k| >= 14 && EndsWith(k, ":secret") }

  function IdOf(k: string): (id: string)
    requires IsSecretKey(k)
  {
    k[7..|k| - 7]
  }

  /** The stored ACL of a client, `{}` without one; `None` stands for the exception out of `json.loads`. */
  function AclOf(s: Store, id: string, host: Host): (acl: Option<Json>)
  {
    if TruthyAt(s, AclKey(id)) then host.parse(TextAt(s, AclKey(id))) else Some(Object([]))
  }

  function Value(j: Option<Json>): (r: Json) { if j.Some? then j.value else Null }

  /** The filter of a per-app dump; a whole dump has none. */
  predicate Wanted(i: Item, app: Option<string>) { app.None? || Belongs(i, app.value) }

  function ClientAt(s: Store, host: Host, app: Option<string>, k: string): (r: Option<(string, ClientRecord)>)
  {
    if !IsSecretKey(k) then None
    else
      var rec := ClientRecord(TextAt(s, k), Value(AclOf(s, IdOf(k), host)));
      if Wanted(Client(IdOf(k), rec), app) then Some((IdOf(k), rec)) else None
  }

  function AdminAt(s: Store, host: Host, app: Option<string>, k: string): (r: Option<(string, Json)>)
  {
    if !StartsWith(k, "admin_acls:") || !TruthyAt(s, k) || host.parse(TextAt(s, k)).None? then None
    else
      var user, acl := k[11..], host.parse(TextAt(s, k)).value;
      if Wanted(Admin(user, acl), app) then Some((user, acl)) else None
  }

  function KvAt(s: Store, keys: seq<string>, app: Option<string>, k: string): (r: Option<(string, KvRecord)>)
  {
    if !StartsWith(k, "kv:") || EndsWith(k[3..], ENC) || k !in s then None
    else
      var rec := KvRecord(BinAt(s, k), EncKey(k[3..]) in keys);
      if Wanted(Kv(k[3..], rec), app) then Some((k[3..], rec)) else None
  }

  function QueueAt(s: Store, app: Option<string>, k: string): (r: Option<(string, seq<StreamEntry>)>)
  {
    if StartsWith(k, "q:") && Wanted(Queue(k[2..], StreamAt(s, k)), app) then Some((k[2..], StreamAt(s, k))) else None
  }

  function DeviceAt(s: Store, app: Option<string>, k: string): (r: Option<(string, string)>)
  {
    if StartsWith(k, "device_to_app:") && Wanted(Device(k[14..], TextAt(s, k)), app) then Some((k[14..], TextAt(s, k)))
    else None
  }

  function ClientPick(s: Store, host: Host, app: Option<string>): (f: string -> Option<(string, ClientRecord)>)
  {
    k => ClientAt(s, host, app, k)
  }

  function AdminPick(s: Store, host: Host, app: Option<string>): (f: string -> Option<(string, Json)>)
  {
    k => AdminAt(s, host, app, k)
  }

  function KvPick(s: Store, keys: seq<string>, app: Option<string>): (f: string -> Option<(string, KvRecord)>)
  {
    k => KvAt(s, keys, app, k)
  }

  function QueuePick(s: Store, app: Option<string>): (f: string -> Option<(string, seq<StreamEntry>)>)
  {
    k => QueueAt(s, app, k)
  }

  function DevicePick(s: Store, app: Option<string>): (f: string -> Option<(string, string)>)
  {
    k => DeviceAt(s, app, k)
  }

  /** No client has an ACL that `json.loads` rejects; with one, both dumps raise. */
  predicate AclsParse(s: Store, keys: seq<string>, host: Host)
  {
    forall k | k in keys && IsSecretKey(k) :: AclOf(s, IdOf(k), host).Some?
  }

  function FieldAt(d: Dict<seq<byte>>, key: string): (b: seq<byte>)
  {
    if d == [] then [] else if d[0].0 == key then d[0].1 else FieldAt(d[1..], key)
  }

  /** The log of a per-app dump: the entries of the clients in it. */
  function LogOf(es: seq<StreamEntry>, clients: Dict<ClientRecord>, host: Host): (r: seq<StreamEntry>)
  {
    if es == [] then []
    else
      var front, e := LogOf(es[..|es| - 1], clients, host), es[|es| - 1];
      if exists i | 0 <= i < |clients| :: clients[i].0 == host.decode(FieldAt(e.fields, "client_id"))
      then front + [e] else front
  }

  /** The log of a per-app dump has exactly the entries whose client is in the dump. */
  lemma {:induction false} LogOfIff(es: seq<StreamEntry>, clients: Dict<ClientRecord>, host: Host, e: StreamEntry)
    ensures e in LogOf(es, clients, host) <==>
            e in es
            && exists i :: 0 <= i < |clients| && clients[i].0 == host.decode(FieldAt(e.fields, "client_id"))
  {
    hide FieldAt;
    if es != [] {
      LogOfIff(es[..|es| - 1], clients, host, e);
      assert es == es[..|es| - 1] + [es[|es| - 1]];
    }
  }

  function Collected(s: Store, keys: seq<string>, app: Option<string>, logs: bool, now: string, host: Host)
    : (e: Envelope)
  {
    var clients := FilterMap(keys, ClientPick(s, host, app));
    var log := StreamAt(s, LOG_KEY);
    Envelope(if app.Some? then "per-app" else "whole", if app.Some? then Text(app.value) else Null, Text(now),
             clients, FilterMap(keys, AdminPick(s, host, app)), FilterMap(keys, KvPick(s, keys, app)),
             FilterMap(keys, QueuePick(s, app)),
             if !logs then None else if app.None? then Some(log) else Some(LogOf(log, clients, host)),
             FilterMap(keys, DevicePick(s, app)))
  }

  // ----- The entries of an envelope, in the order they are applied -----

  function MakeAll<T>(d: Dict<T>, make: (string, T) -> Item): (items: seq<Item>)
    ensures |items| == |d| && forall n | 0 <= n < |d| :: items[n] == make(d[n].0, d[n].1)
  {
    if d == [] then [] else MakeAll(d[..|d| - 1], make) + [make(d[|d| - 1].0, d[|d| - 1].1)]
  }

  function MakeClient(id: string, c: ClientRecord): (i: Item) { Client(id, c) }

  function MakeAdmin(user: string, acl: Json): (i: Item) { Admin(user, acl) }

  function MakeKv(key: string, v: KvRecord): (i: Item) { Kv(key, v) }

  function MakeQueue(topic: string, es: seq<StreamEntry>): (i: Item) { Queue(topic, es) }

  function MakeDevice(id: string, app: string): (i: Item) { Device(id, app) }

  function LogItems(log: Option<seq<StreamEntry>>): (items: seq<Item>) { if log.Some? then [Log(log.value)] else [] }

  function Items(e: Envelope): (items: seq<Item>)
  {
    MakeAll(e.clients, MakeClient) + MakeAll(e.adminAcls, MakeAdmin) + MakeAll(e.kv, MakeKv)
    + MakeAll(e.queues, MakeQueue) + MakeAll(e.deviceToApp, MakeDevice) + LogItems(e.activityLog)
  }

  predicate DistinctKeys<T>(d: Dict<T>) { forall m, n | 0 <= m < n < |d| :: d[m].0 != d[n].0 }

  /** The sections are dictionaries. */
  predicate Dictionaries(e: Envelope)
  {
    && DistinctKeys(e.clients) && DistinctKeys(e.adminAcls) && DistinctKeys(e.kv) && DistinctKeys(e.queues)
    && DistinctKeys(e.deviceToApp)
  }

  lemma MadeDistinct<T>(d: Dict<T>, make: (string, T) -> Item, sec: Section)
    requires DistinctKeys(d) && forall x, u :: SectionOf(make(x, u)) == sec && NameOf(make(x, u)) == x
    ensures Distinct(MakeAll(d, make)) && forall i | i in MakeAll(d, make) :: SectionOf(i) == sec
  {
    hide SectionOf, NameOf;
  }

  lemma AppendDistinct(a: seq<Item>, b: seq<Item>)
    requires Distinct(a) && Distinct(b) && forall x, y | x in a && y in b :: SectionOf(x) != SectionOf(y)
    ensures Distinct(a + b)
  {
    hide SectionOf, NameOf;
    forall i, j | 0 <= i < j < |a + b| ensures !SameEntry((a + b)[i], (a + b)[j]) {
      if i < |a| <= j {
        assert a[i] in a && b[j - |a|] in b;
      }
    }
  }

  /** No envelope whose sections are dictionaries has an entry twice. */
  lemma ItemsDistinct(e: Envelope)
    requires Dictionaries(e)
    ensures Distinct(Items(e))
  {
    hide MakeAll, Distinct, DistinctKeys;
    MadeDistinct(e.clients, MakeClient, Clients);
    MadeDistinct(e.adminAcls, MakeAdmin, AdminAcls);
    MadeDistinct(e.kv, MakeKv, KvPairs);
    MadeDistinct(e.queues, MakeQueue, Queues);
    MadeDistinct(e.deviceToApp, MakeDevice, Devices);
    LogDistinct(e.activityLog);
    var a, b, c, d, f := MakeAll(e.clients, MakeClient), MakeAll(e.adminAcls, MakeAdmin), MakeAll(e.kv, MakeKv),
        MakeAll(e.queues, MakeQueue), MakeAll(e.deviceToApp, MakeDevice);
    AppendDistinct(a, b);
    AppendDistinct(a + b, c);
    AppendDistinct(a + b + c, d);
    AppendDistinct(a + b + c + d, f);
    AppendDistinct(a + b + c + d + f, LogItems(e.activityLog));
  }

  lemma LogDistinct(log: Option<seq<StreamEntry>>)
    ensures Distinct(LogItems(log)) && forall i | i in LogItems(log) :: SectionOf(i) == ActivityLog
  {}

  // ----- A per-app dump is the app's slice of the whole dump -----

  function Owned(items: seq<Item>, app: string): (r: seq<Item>)
  {
    if items == [] then []
    else
      var front, i := Owned(items[..|items| - 1], app), items[|items| - 1];
      if Belongs(i, app) then front + [i] else front
  }

  lemma {:induction false} SliceOfSection<T>(keys: seq<string>, whole: string -> Option<(string, T)>,
                                             part: string -> Option<(string, T)>, make: (string, T) -> Item,
                                             app: string)
    requires forall k :: part(k) == if whole(k).Some? && Belongs(make(whole(k).value.0, whole(k).value.1), app)
                                    then whole(k) else None
    ensures MakeAll(FilterMap(keys, part), make) == Owned(MakeAll(FilterMap(keys, whole), make), app)
  {
    hide Belongs;
    if keys != [] {
      SliceOfSection(keys[..|keys| - 1], whole, part, make, app);
      var last := whole(keys[|keys| - 1]);
      if last.Some? {
        MakeSnoc(FilterMap(keys[..|keys| - 1], whole), last.value, make);
        MakeSnoc(FilterMap(keys[..|keys| - 1], part), last.value, make);
        OwnedSnoc(MakeAll(FilterMap(keys[..|keys| - 1], whole), make), make(last.value.0, last.value.1), app);
      }
    }
  }

  lemma MakeSnoc<T>(d: Dict<T>, e: (string, T), make: (string, T) -> Item)
    ensures MakeAll(d + [e], make) == MakeAll(d, make) + [make(e.0, e.1)]
  {
    assert (d + [e])[..|d|] == d;
  }

  lemma {:induction false} OwnedIff(items: seq<Item>, app: string, i: Item)
    ensures i in Owned(items, app) <==> i in items && Belongs(i, app)
  {
    hide Belongs;
    if items != [] {
      OwnedIff(items[..|items| - 1], app, i);
      assert items == items[..|items| - 1] + [items[|items| - 1]];
    }
  }

  lemma OwnedSnoc(items: seq<Item>, i: Item, app: string)
    ensures Owned(items + [i], app) == if Belongs(i, app) then Owned(items, app) + [i] else Owned(items, app)
  {
    hide Belongs;
    assert (items + [i])[..|items|] == items;
  }

  lemma {:induction false} OwnedConcat(a: seq<Item>, b: seq<Item>, app: string)
    ensures Owned(a + b, app) == Owned(a, app) + Owned(b, app)
  {
    hide Belongs;
    if b == [] {
      assert a + b == a;
    } else {
      assert (a + b)[..|a + b| - 1] == a + b[..|b| - 1];
      OwnedConcat(a, b[..|b| - 1], app);
    }
  }

  /** Up to order nothing differs: the entries of a per-app dump are those of the whole dump that belong to the app. */
  lemma PerAppIsSlice(s: Store, keys: seq<string>, app: string, now: string, host: Host)
    ensures Items(Collected(s, keys, Some(app), false, now, host))
            == Owned(Items(Collected(s, keys, None, false, now, host)), app)
  {
    hide FilterMap, MakeAll, Owned, Belongs, IsSecretKey, AclOf, EndsWith, TruthyAt, TextAt;
    var w, p := Collected(s, keys, None, false, now, host), Collected(s, keys, Some(app), false, now, host);
    SliceOfSection(keys, ClientPick(s, host, None), ClientPick(s, host, Some(app)), MakeClient, app);
    SliceOfSection(keys, AdminPick(s, host, None), AdminPick(s, host, Some(app)), MakeAdmin, app);
    SliceOfSection(keys, KvPick(s, keys, None), KvPick(s, keys, Some(app)), MakeKv, app);
    SliceOfSection(keys, QueuePick(s, None), QueuePick(s, Some(app)), MakeQueue, app);
    SliceOfSection(keys, DevicePick(s, None), DevicePick(s, Some(app)), MakeDevice, app);
    var a, b, c, d, e := MakeAll(w.clients, MakeClient), MakeAll(w.adminAcls, MakeAdmin), MakeAll(w.kv, MakeKv),
        MakeAll(w.queues, MakeQueue), MakeAll(w.deviceToApp, MakeDevice);
    OwnedConcat(a, b, app);
    OwnedConcat(a + b, c, app);
    OwnedConcat(a + b + c, d, app);
    OwnedConcat(a + b + c + d, e, app);
    assert Items(w) == a + b + c + d + e;
    assert Items(p) == Owned(a, app) + Owned(b, app) + Owned(c, app) + Owned(d, app) + Owned(e, app);
  }

  function Accepted(report: seq<Line>): (r: seq<Line>)
  {
    if report == [] then []
    else
      var front, l := Accepted(report[..|report| - 1]), report[|report| - 1];
      if l.verdict == Rejected then front else front + [l]
  }

  lemma AcceptedSnoc(report: seq<Line>, l: Line)
    ensures Accepted(report + [l]) == if l.verdict == Rejected then Accepted(report) else Accepted(report) + [l]
  {
    assert (report + [l])[..|report|] == report;
  }

  /** The same store and fate, and the same lines but for those of refused entries. */
  predicate Alike(all: Outcome, part: Outcome)
  {
    all.store == part.store && all.failed == part.failed && Accepted(all.report) == part.report
  }

  lemma StepOwned(all: Outcome, part: Outcome, i: Item, force: bool, app: string, host: Host)
    requires app != "" && Alike(all, part)
    ensures Alike(Step(all, i, force, app, host), if Belongs(i, app) then Step(part, i, force, app, host) else part)
  {
    hide Belongs, Written, Writable, Existing, SectionOf, NameOf, Accepted;
    AcceptedSnoc(all.report, Line(SectionOf(i), NameOf(i), VerdictFor(all.store, i, force, app)));
  }

  /** The filter refuses what does not belong, and nothing else; so refused entries might as well not be there. */
  lemma {:induction false} ApplyOwned(s: Store, items: seq<Item>, force: bool, app: string, host: Host)
    requires app != ""
    ensures Alike(Apply(s, items, force, app, host), Apply(s, Owned(items, app), force, app, host))
  {
    hide Belongs, Step;
    if items == [] {
      hide ApplyFrom;
    } else {
      hide Alike;
      var front, i := items[..|items| - 1], items[|items| - 1];
      ApplyOwned(s, front, force, app, host);
      var all, part := Apply(s, front, force, app, host), Apply(s, Owned(front, app), force, app, host);
      StepOwned(all, part, i, force, app, host);
      assert items == front + [i];
      OwnedSnoc(front, i, app);
      ApplyConcat(Outcome(s, [], false), Owned(front, app), [i], force, app, host);
      ApplyOne(part, i, force, app, host);
    }
  }

  lemma {:induction false} OwnedBelong(items: seq<Item>, app: string)
    ensures forall i | i in Owned(items, app) :: Belongs(i, app)
  {
    hide Belongs;
    if items != [] {
      OwnedBelong(items[..|items| - 1], app);
    }
  }

  lemma {:induction false} NothingRejected(s: Store, items: seq<Item>, force: bool, app: string, host: Host)
    requires forall i | i in items :: Belongs(i, app)
    ensures forall l | l in Apply(s, items, force, app, host).report :: l.verdict != Rejected
  {
    hide Belongs, Written, Writable, Existing, SectionOf, NameOf;
    if items != [] {
      assert forall i | i in items[..|items| - 1] :: i in items;
      NothingRejected(s, items[..|items| - 1], force, app, host);
      assert items[|items| - 1] in items;
    }
  }

  /** Restoring the whole dump through the filter of an app is restoring the app's own dump: the same store, the same
      lists but for the refused entries, the same failure; and the app's own dump has nothing refused. */
  lemma WholeThroughFilter(s: Store, keys: seq<string>, app: string, now: string, dst: Store, force: bool, host: Host)
    requires app != ""
    ensures var whole := Apply(dst, Items(Collected(s, keys, None, false, now, host)), force, app, host);
            var own := Apply(dst, Items(Collected(s, keys, Some(app), false, now, host)), force, app, host);
            && whole.store == own.store && whole.failed == own.failed && Accepted(whole.report) == own.report
            && forall l | l in own.report :: l.verdict != Rejected
  {
    hide Collected, Apply, Items, Owned, Belongs;
    var items := Items(Collected(s, keys, None, false, now, host));
    PerAppIsSlice(s, keys, app, now, host);
    ApplyOwned(dst, items, force, app, host);
    OwnedBelong(items, app);
    NothingRejected(dst, Owned(items, app), force, app, host);
  }
}
