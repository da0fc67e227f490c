/** Dump, JSON, restore into an empty store, and dump again. */
module BackupRoundTrip {
  import opened Bytes
  import opened BackupFormat
  import opened BackupStore
  import opened BackupCollect

  // ----- What a dump says of the store -----

  /** The store has this entry. */
  predicate ItemIn(s: Store, host: Host, i: Item)
  {
    match i
    case Client(id, c) =>
      SecretKey(id) in s && c.secret == TextAt(s, SecretKey(id)) && c.acl == Value(AclOf(s, id, host))
    case Admin(user, acl) => TruthyAt(s, AdminKey(user)) && host.parse(TextAt(s, AdminKey(user))) == Some(acl)
    case Kv(key, v) =>
      !EndsWith(key, ENC) && KvKey(key) in s && v.value == BinAt(s, KvKey(key)) && (v.encrypted <==> EncKey(key) in s)
    case Queue(topic, es) => QueueKey(topic) in s && es == StreamAt(s, QueueKey(topic))
    case Device(device, app) => DeviceKey(device) in s && app == TextAt(s, DeviceKey(device))
    case Log(_) => false
  }

  lemma {:induction false} InFilterMap<A, B>(xs: seq<A>, f: A -> Option<B>, y: B)
    ensures y in FilterMap(xs, f) <==> exists n :: 0 <= n < |xs| && f(xs[n]) == Some(y)
  {
    if xs != [] {
      var front := xs[..|xs| - 1];
      InFilterMap(front, f, y);
      if y in FilterMap(front, f) {
        var n :| 0 <= n < |front| && f(front[n]) == Some(y);
        assert f(xs[n]) == Some(y);
      }
      if n :| 0 <= n < |xs| && f(xs[n]) == Some(y) {
        assert n < |front| ==> f(front[n]) == Some(y);
      }
    }
  }

  /** A section has an entry exactly if some key contributes it. */
  lemma InSection<T>(keys: seq<string>, pick: string -> Option<(string, T)>, make: (string, T) -> Item, i: Item)
    ensures i in MakeAll(FilterMap(keys, pick), make)
            <==> exists k :: k in keys && pick(k).Some? && make(pick(k).value.0, pick(k).value.1) == i
  {
    var d := FilterMap(keys, pick);
    var items := MakeAll(d, make);
    if i in items {
      var n :| 0 <= n < |items| && items[n] == i;
      InFilterMap(keys, pick, d[n]);
      var m :| 0 <= m < |keys| && pick(keys[m]) == Some(d[n]);
      assert keys[m] in keys;
    }
    if k :| k in keys && pick(k).Some? && make(pick(k).value.0, pick(k).value.1) == i {
      var m :| 0 <= m < |keys| && keys[m] == k;
      InFilterMap(keys, pick, pick(k).value);
      var n :| 0 <= n < |d| && d[n] == pick(k).value;
      assert items[n] == i;
    }
  }

  lemma SecretKeyShape(k: string)
    ensures IsSecretKey(k) ==> SecretKey(IdOf(k)) == k
  {
    if IsSecretKey(k) {
      assert k == k[..7] + (k[7..|k| - 7] + k[|k| - 7..]);
    }
  }

  lemma SecretKeyIs(id: string)
    ensures IsSecretKey(SecretKey(id)) && IdOf(SecretKey(id)) == id
  {
    var k := SecretKey(id);
    assert k[..7] == "client:" && k[|k| - 7..] == ":secret";
  }

  lemma PrefixShape(k: string, p: string)
    ensures StartsWith(k, p) ==> p + k[|p|..] == k
    ensures StartsWith(p + k, p) && (p + k)[|p|..] == k
  {}

  lemma ClientContributes(s: Store, host: Host, k: string, id: string, c: ClientRecord)
    ensures k in s && ClientAt(s, host, None, k) == Some((id, c))
            <==> k == SecretKey(id) && ItemIn(s, host, Client(id, c))
  {
    hide TextAt, AclOf, IsSecretKey, SecretKey;
    SecretKeyShape(k);
    SecretKeyIs(id);
  }

  lemma AdminContributes(s: Store, host: Host, k: string, user: string, acl: Json)
    ensures AdminAt(s, host, None, k) == Some((user, acl))
            <==> k == AdminKey(user) && ItemIn(s, host, Admin(user, acl))
  {
    hide TextAt, TruthyAt, StartsWith;
    PrefixShape(k, "admin_acls:");
    PrefixShape(user, "admin_acls:");
  }

  lemma KvContributes(s: Store, keys: seq<string>, host: Host, k: string, key: string, v: KvRecord)
    requires Lists(keys, s)
    ensures KvAt(s, keys, None, k) == Some((key, v)) <==> k == KvKey(key) && ItemIn(s, host, Kv(key, v))
  {
    hide BinAt, EndsWith, EncKey, StartsWith;
    PrefixShape(k, "kv:");
    PrefixShape(key, "kv:");
  }

  lemma QueueContributes(s: Store, host: Host, k: string, topic: string, es: seq<StreamEntry>)
    ensures k in s && QueueAt(s, None, k) == Some((topic, es))
            <==> k == QueueKey(topic) && ItemIn(s, host, Queue(topic, es))
  {
    hide StreamAt, StartsWith;
    PrefixShape(k, "q:");
    PrefixShape(topic, "q:");
  }

  lemma DeviceContributes(s: Store, host: Host, k: string, id: string, app: string)
    ensures k in s && DeviceAt(s, None, k) == Some((id, app))
            <==> k == DeviceKey(id) && ItemIn(s, host, Device(id, app))
  {
    hide TextAt, StartsWith;
    PrefixShape(k, "device_to_app:");
    PrefixShape(id, "device_to_app:");
  }

  lemma ItemInMain(s: Store, host: Host, i: Item)
    requires ItemIn(s, host, i)
    ensures MainKey(i) in s && NotSidecar(i) && !i.Log?
  {
    hide SecretKey, AdminKey, KvKey, QueueKey, DeviceKey, EncKey, EndsWith, AclOf, TextAt, BinAt, StreamAt;
  }

  lemma ClientsIn(s: Store, keys: seq<string>, host: Host, i: Item)
    requires Lists(keys, s)
    ensures i in MakeAll(FilterMap(keys, ClientPick(s, host, None)), MakeClient) <==> i.Client? && ItemIn(s, host, i)
  {
    hide MakeAll, FilterMap, ItemIn, ClientAt, SecretKey;
    InSection(keys, ClientPick(s, host, None), MakeClient, i);
    forall k, id, c ensures k in s && ClientAt(s, host, None, k) == Some((id, c))
                            <==> k == SecretKey(id) && ItemIn(s, host, Client(id, c)) {
      ClientContributes(s, host, k, id, c);
    }
    if ItemIn(s, host, i) {
      ItemInMain(s, host, i);
      assert i.Client? ==> ClientAt(s, host, None, MainKey(i)) == Some((i.id, i.client));
    }
  }

  lemma AdminsIn(s: Store, keys: seq<string>, host: Host, i: Item)
    requires Lists(keys, s)
    ensures i in MakeAll(FilterMap(keys, AdminPick(s, host, None)), MakeAdmin) <==> i.Admin? && ItemIn(s, host, i)
  {
    hide MakeAll, FilterMap, ItemIn, AdminAt, AdminKey;
    InSection(keys, AdminPick(s, host, None), MakeAdmin, i);
    forall k, u, a ensures AdminAt(s, host, None, k) == Some((u, a))
                           <==> k == AdminKey(u) && ItemIn(s, host, Admin(u, a)) {
      AdminContributes(s, host, k, u, a);
    }
    if ItemIn(s, host, i) {
      ItemInMain(s, host, i);
      assert i.Admin? ==> AdminAt(s, host, None, MainKey(i)) == Some((i.user, i.acl));
    }
  }

  lemma KvsIn(s: Store, keys: seq<string>, host: Host, i: Item)
    requires Lists(keys, s)
    ensures i in MakeAll(FilterMap(keys, KvPick(s, keys, None)), MakeKv) <==> i.Kv? && ItemIn(s, host, i)
  {
    hide MakeAll, FilterMap, ItemIn, KvAt, KvKey;
    InSection(keys, KvPick(s, keys, None), MakeKv, i);
    forall k, key, v ensures KvAt(s, keys, None, k) == Some((key, v))
                             <==> k == KvKey(key) && ItemIn(s, host, Kv(key, v)) {
      KvContributes(s, keys, host, k, key, v);
    }
    if ItemIn(s, host, i) {
      ItemInMain(s, host, i);
      assert i.Kv? ==> KvAt(s, keys, None, MainKey(i)) == Some((i.key, i.value));
    }
  }

  lemma QueuesIn(s: Store, keys: seq<string>, host: Host, i: Item)
    requires Lists(keys, s)
    ensures i in MakeAll(FilterMap(keys, QueuePick(s, None)), MakeQueue) <==> i.Queue? && ItemIn(s, host, i)
  {
    hide MakeAll, FilterMap, ItemIn, QueueAt, QueueKey;
    InSection(keys, QueuePick(s, None), MakeQueue, i);
    forall k, t, es ensures k in s && QueueAt(s, None, k) == Some((t, es))
                            <==> k == QueueKey(t) && ItemIn(s, host, Queue(t, es)) {
      QueueContributes(s, host, k, t, es);
    }
    if ItemIn(s, host, i) {
      ItemInMain(s, host, i);
      assert i.Queue? ==> QueueAt(s, None, MainKey(i)) == Some((i.topic, i.entries));
    }
  }

  lemma DevicesIn(s: Store, keys: seq<string>, host: Host, i: Item)
    requires Lists(keys, s)
    ensures i in MakeAll(FilterMap(keys, DevicePick(s, None)), MakeDevice) <==> i.Device? && ItemIn(s, host, i)
  {
    hide MakeAll, FilterMap, ItemIn, DeviceAt, DeviceKey;
    InSection(keys, DevicePick(s, None), MakeDevice, i);
    forall k, d, a ensures k in s && DeviceAt(s, None, k) == Some((d, a))
                           <==> k == DeviceKey(d) && ItemIn(s, host, Device(d, a)) {
      DeviceContributes(s, host, k, d, a);
    }
    if ItemIn(s, host, i) {
      ItemInMain(s, host, i);
      assert i.Device? ==> DeviceAt(s, None, MainKey(i)) == Some((i.device, i.app));
    }
  }

  /** A per-app dump has exactly those entries of the store that are the app's, in literal terms: a client or an admin
      is if its stored ACL lists a permission for the app or below it. */
  lemma PerAppHasIff(s: Store, keys: seq<string>, app: string, now: string, host: Host, i: Item)
    requires Lists(keys, s) && app != ""
    ensures i in Items(Collected(s, keys, Some(app), false, now, host)) <==> ItemIn(s, host, i) && OwnedBy(i, app)
  {
    hide Collected, Items, Owned, Belongs, OwnedBy, ItemIn, Lists;
    PerAppIsSlice(s, keys, app, now, host);
    OwnedIff(Items(Collected(s, keys, None, false, now, host)), app, i);
    DumpedIff(s, keys, false, now, host, i);
    BelongsIff(i, app);
  }

  /** A whole dump has exactly the entries of the store, and the log if it was asked for. */
  lemma DumpedIff(s: Store, keys: seq<string>, logs: bool, now: string, host: Host, i: Item)
    requires Lists(keys, s)
    ensures i in Items(Collected(s, keys, None, logs, now, host))
            <==> ItemIn(s, host, i) || (logs && i == Log(StreamAt(s, LOG_KEY)))
  {
    hide FilterMap, MakeAll, ItemIn, StreamAt, Lists;
    ClientsIn(s, keys, host, i);
    AdminsIn(s, keys, host, i);
    KvsIn(s, keys, host, i);
    QueuesIn(s, keys, host, i);
    DevicesIn(s, keys, host, i);
    if ItemIn(s, host, i) {
      ItemInMain(s, host, i);
    }
  }

  // ----- The entries of a dump are distinct -----

  predicate NoDup<T(==)>(xs: seq<T>) { forall i, j | 0 <= i < j < |xs| :: xs[i] != xs[j] }

  /** Which key an entry comes from can be read off the entry. */
  ghost predicate Traceable<T(!new)>(pick: string -> Option<T>)
  {
    forall k, l :: pick(k).Some? && pick(k) == pick(l) ==> k == l
  }

  lemma {:induction false} PickedNoDup<T(!new)>(keys: seq<string>, pick: string -> Option<T>)
    requires NoDup(keys) && Traceable(pick)
    ensures NoDup(FilterMap(keys, pick))
  {
    if keys != [] {
      PickedNoDup(keys[..|keys| - 1], pick);
      LastIsNew(keys, pick);
    }
  }

  lemma LastIsNew<T(!new)>(keys: seq<string>, pick: string -> Option<T>)
    requires keys != [] && NoDup(keys) && Traceable(pick)
    ensures var last := pick(keys[|keys| - 1]);
            last.Some? ==> last.value !in FilterMap(keys[..|keys| - 1], pick)
  {
    hide FilterMap;
    var front, last := keys[..|keys| - 1], pick(keys[|keys| - 1]);
    if last.Some? {
      InFilterMap(front, pick, last.value);
      forall n | 0 <= n < |front| ensures pick(front[n]) != last {
        assert front[n] == keys[n];
      }
    }
  }

  lemma MadeNoDup<T>(d: Dict<T>, make: (string, T) -> Item)
    requires NoDup(d) && forall x, y, u, v :: make(x, u) == make(y, v) ==> x == y && u == v
    ensures NoDup(MakeAll(d, make))
  {
    forall i, j | 0 <= i < j < |d| ensures MakeAll(d, make)[i] != MakeAll(d, make)[j] {
      assert d[i] != d[j];
    }
  }

  lemma AppendNoDup(a: seq<Item>, b: seq<Item>)
    requires NoDup(a) && NoDup(b) && forall x, y | x in a && y in b :: SectionOf(x) != SectionOf(y)
    ensures NoDup(a + b)
  {
    hide SectionOf;
    forall i, j | 0 <= i < j < |a + b| ensures (a + b)[i] != (a + b)[j] {
      if i < |a| <= j {
        assert a[i] in a && b[j - |a|] in b;
      }
    }
  }

  lemma SectionsNoDup(s: Store, keys: seq<string>, host: Host)
    requires Lists(keys, s)
    ensures NoDup(MakeAll(FilterMap(keys, ClientPick(s, host, None)), MakeClient))
    ensures NoDup(MakeAll(FilterMap(keys, AdminPick(s, host, None)), MakeAdmin))
    ensures NoDup(MakeAll(FilterMap(keys, KvPick(s, keys, None)), MakeKv))
    ensures NoDup(MakeAll(FilterMap(keys, QueuePick(s, None)), MakeQueue))
    ensures NoDup(MakeAll(FilterMap(keys, DevicePick(s, None)), MakeDevice))
  {
    hide MakeAll, FilterMap, NoDup, Traceable;
    PicksTraceable(s, keys, host);
    assert NoDup(keys) by { KeysNoDup(s, keys); }
    PickedNoDup(keys, ClientPick(s, host, None));
    PickedNoDup(keys, AdminPick(s, host, None));
    PickedNoDup(keys, KvPick(s, keys, None));
    PickedNoDup(keys, QueuePick(s, None));
    PickedNoDup(keys, DevicePick(s, None));
    MadeNoDup(FilterMap(keys, ClientPick(s, host, None)), MakeClient);
    MadeNoDup(FilterMap(keys, AdminPick(s, host, None)), MakeAdmin);
    MadeNoDup(FilterMap(keys, KvPick(s, keys, None)), MakeKv);
    MadeNoDup(FilterMap(keys, QueuePick(s, None)), MakeQueue);
    MadeNoDup(FilterMap(keys, DevicePick(s, None)), MakeDevice);
  }

  lemma KeysNoDup(s: Store, keys: seq<string>)
    requires Lists(keys, s)
    ensures NoDup(keys)
  {}

  lemma PicksTraceable(s: Store, keys: seq<string>, host: Host)
    ensures Traceable(ClientPick(s, host, None)) && Traceable(AdminPick(s, host, None))
    ensures Traceable(KvPick(s, keys, None)) && Traceable(QueuePick(s, None)) && Traceable(DevicePick(s, None))
  {
    hide TextAt, BinAt, StreamAt, AclOf, TruthyAt, EndsWith, EncKey, IsSecretKey, StartsWith, SecretKey;
    var c := ClientPick(s, host, None);
    forall k, l | c(k).Some? && c(k) == c(l) ensures k == l {
      SecretKeyShape(k);
      SecretKeyShape(l);
    }
    var a := AdminPick(s, host, None);
    forall k, l | a(k).Some? && a(k) == a(l) ensures k == l {
      PrefixShape(k, "admin_acls:");
      PrefixShape(l, "admin_acls:");
    }
    var v := KvPick(s, keys, None);
    forall k, l | v(k).Some? && v(k) == v(l) ensures k == l {
      PrefixShape(k, "kv:");
      PrefixShape(l, "kv:");
    }
    var q := QueuePick(s, None);
    forall k, l | q(k).Some? && q(k) == q(l) ensures k == l {
      PrefixShape(k, "q:");
      PrefixShape(l, "q:");
    }
    var d := DevicePick(s, None);
    forall k, l | d(k).Some? && d(k) == d(l) ensures k == l {
      PrefixShape(k, "device_to_app:");
      PrefixShape(l, "device_to_app:");
    }
  }

  lemma MadeSection<T>(d: Dict<T>, make: (string, T) -> Item, sec: Section)
    requires forall x, u :: SectionOf(make(x, u)) == sec
    ensures forall i | i in MakeAll(d, make) :: SectionOf(i) == sec
  {
    hide SectionOf;
  }

  lemma ItemsNoDup(s: Store, keys: seq<string>, logs: bool, now: string, host: Host)
    requires Lists(keys, s)
    ensures NoDup(Items(Collected(s, keys, None, logs, now, host)))
  {
    hide FilterMap, MakeAll, Lists, NoDup;
    var e := Collected(s, keys, None, logs, now, host);
    SectionsNoDup(s, keys, host);
    MadeSection(e.clients, MakeClient, Clients);
    MadeSection(e.adminAcls, MakeAdmin, AdminAcls);
    MadeSection(e.kv, MakeKv, KvPairs);
    MadeSection(e.queues, MakeQueue, Queues);
    MadeSection(e.deviceToApp, MakeDevice, Devices);
    LogNoDup(e.activityLog);
    var a, b, c, d, f := MakeAll(e.clients, MakeClient), MakeAll(e.adminAcls, MakeAdmin), MakeAll(e.kv, MakeKv),
        MakeAll(e.queues, MakeQueue), MakeAll(e.deviceToApp, MakeDevice);
    AppendNoDup(a, b);
    AppendNoDup(a + b, c);
    AppendNoDup(a + b + c, d);
    AppendNoDup(a + b + c + d, f);
    AppendNoDup(a + b + c + d + f, LogItems(e.activityLog));
  }

  lemma LogNoDup(log: Option<seq<StreamEntry>>)
    ensures NoDup(LogItems(log)) && forall i | i in LogItems(log) :: SectionOf(i) == ActivityLog
  {}

  /** A store has one entry for each section and name. */
  lemma InFunctional(s: Store, host: Host, i: Item, j: Item)
    requires ItemIn(s, host, i) && ItemIn(s, host, j) && SameEntry(i, j)
    ensures i == j
  {
    hide SecretKey, AdminKey, KvKey, QueueKey, DeviceKey, EncKey, EndsWith, AclOf, TextAt, BinAt, StreamAt;
  }

  /** A dump can be restored: no two entries are the same one, and no value poses as a sidecar. */
  lemma DumpIsClean(s: Store, keys: seq<string>, logs: bool, now: string, host: Host)
    requires Lists(keys, s)
    ensures Clean(Items(Collected(s, keys, None, logs, now, host)))
    ensures forall i | i in Items(Collected(s, keys, None, logs, now, host)) :: NotSidecar(i)
  {
    hide Collected, Items, ItemIn, Lists, NotSidecar, SameEntry, Crosses;
    var items := Items(Collected(s, keys, None, logs, now, host));
    ItemsNoDup(s, keys, logs, now, host);
    forall n | 0 <= n < |items| ensures NotSidecar(items[n]) {
      assert items[n] in items;
      DumpedIff(s, keys, logs, now, host, items[n]);
      EntrySidecarFree(s, host, items[n], logs);
    }
    forall m, n | 0 <= m < |items| && 0 <= n < |items| ensures !Crosses(items[m], items[n]) {
      NoSidecarsCross(items[m], items[n]);
    }
    forall m, n | 0 <= m < n < |items| ensures !SameEntry(items[m], items[n]) {
      assert items[m] in items && items[n] in items;
      DumpedIff(s, keys, logs, now, host, items[m]);
      DumpedIff(s, keys, logs, now, host, items[n]);
      if SameEntry(items[m], items[n]) {
        OneOfAKind(s, host, items[m], items[n]);
      }
    }
  }

  lemma EntrySidecarFree(s: Store, host: Host, i: Item, logs: bool)
    requires ItemIn(s, host, i) || i == Log(StreamAt(s, LOG_KEY))
    ensures NotSidecar(i)
  {
    if ItemIn(s, host, i) {
      ItemInMain(s, host, i);
    }
  }

  lemma OneOfAKind(s: Store, host: Host, i: Item, j: Item)
    requires ItemIn(s, host, i) || i == Log(StreamAt(s, LOG_KEY))
    requires ItemIn(s, host, j) || j == Log(StreamAt(s, LOG_KEY))
    requires SameEntry(i, j)
    ensures i == j
  {
    hide ItemIn;
    if ItemIn(s, host, i) && ItemIn(s, host, j) {
      InFunctional(s, host, i, j);
    } else if ItemIn(s, host, i) {
      ItemInMain(s, host, i);
    } else if ItemIn(s, host, j) {
      ItemInMain(s, host, j);
    }
  }

  // ----- Restoring it -----

  /** `json.loads` undoes `json.dumps`, which never writes the empty text. */
  ghost predicate HostLaws(host: Host) { forall j :: host.parse(host.dump(j)) == Some(j) && host.dump(j) != "" }

  /** What XADD keeps of every stream: ids that increase, and no entry without fields. */
  predicate StreamsInOrder(s: Store, host: Host) { forall k | k in s && s[k].Stream? :: Addable(host, s[k].entries) }

  predicate EmptyQueue(i: Item) { i.Queue? && i.entries == [] }

  lemma DumpIsWritable(s: Store, keys: seq<string>, logs: bool, now: string, force: bool, host: Host)
    requires Lists(keys, s) && StreamsInOrder(s, host)
    ensures AllWritable(map[], Items(Collected(s, keys, None, logs, now, host)), force, "", host)
  {
    hide Collected, Items, Lists, Addable, Chosen, ItemIn;
    var items := Items(Collected(s, keys, None, logs, now, host));
    forall n | 0 <= n < |items| ensures Writable(items[n], host) {
      assert items[n] in items;
      DumpedIff(s, keys, logs, now, host, items[n]);
      StoredIsWritable(s, host, items[n]);
    }
  }

  lemma StoredIsWritable(s: Store, host: Host, i: Item)
    requires StreamsInOrder(s, host) && (ItemIn(s, host, i) || i == Log(StreamAt(s, LOG_KEY)))
    ensures Writable(i, host)
  {
    hide Addable;
    assert Addable(host, []) by { NothingAdded(host); }
  }

  lemma NothingAdded(host: Host)
    ensures Addable(host, [])
  {}

  lemma AllChosen(i: Item, force: bool)
    ensures Chosen(map[], i, force, "")
  {}

  /** A store that holds an entry has it, but for streams without entries. */
  lemma HeldIsIn(t: Store, host: Host, i: Item)
    requires HostLaws(host) && Holds(t, i, host) && NotSidecar(i) && !i.Log? && !EmptyQueue(i)
    ensures ItemIn(t, host, i)
  {
    hide SecretKey, AdminKey, KvKey, QueueKey, DeviceKey, EncKey, AclKey, EndsWith;
  }

  lemma EmptyQueueGone(t: Store, host: Host, i: Item)
    requires Holds(t, i, host) && EmptyQueue(i)
    ensures MainKey(i) !in t
  {}

  function Restoring(s: Store, keys: seq<string>, logs: bool, now: string, force: bool, host: Host): (o: Outcome)
  {
    Apply(map[], Items(Collected(s, keys, None, logs, now, host)), force, "", host)
  }

  /** The restored store holds every entry of the dump, and no key that belongs to none of them. */
  lemma RestoringHolds(s: Store, keys: seq<string>, logs: bool, now: string, force: bool, host: Host)
    requires Lists(keys, s) && StreamsInOrder(s, host)
    ensures var items := Items(Collected(s, keys, None, logs, now, host));
            var o := Restoring(s, keys, logs, now, force, host);
            && !o.failed
            && (forall i | i in items :: Holds(o.store, i, host))
            && forall k | k in o.store :: exists i :: i in items && Touches(i, k)
  {
    hide Collected, Items, Lists, Chosen, Holds, Touches, Clean, AllWritable, Apply, StreamsInOrder;
    var items := Items(Collected(s, keys, None, logs, now, host));
    var o := Restoring(s, keys, logs, now, force, host);
    DumpIsClean(s, keys, logs, now, host);
    DumpIsWritable(s, keys, logs, now, force, host);
    CleanEffect(map[], items, force, "", host);
    forall i | i in items ensures Holds(o.store, i, host) {
      var n :| 0 <= n < |items| && items[n] == i;
      AllChosen(i, force);
    }
    forall k | k in o.store ensures exists i :: i in items && Touches(i, k) {
      assert !Untouched(map[], items, force, "", k);
      var n :| 0 <= n < |items| && Touches(items[n], k);
      assert items[n] in items;
    }
  }

  /** Restoring a dump into an empty store makes a store with the same entries, but for streams without entries. */
  lemma RestoredHasIff(s: Store, keys: seq<string>, logs: bool, now: string, force: bool, host: Host, i: Item)
    requires Lists(keys, s) && StreamsInOrder(s, host) && HostLaws(host)
    ensures ItemIn(Restoring(s, keys, logs, now, force, host).store, host, i)
            <==> ItemIn(s, host, i) && !EmptyQueue(i)
  {
    hide Collected, Items, Lists, Holds, Touches, Apply, StreamsInOrder, HostLaws, ItemIn, EmptyQueue, NotSidecar,
         Restoring, Crosses;
    var items := Items(Collected(s, keys, None, logs, now, host));
    var t := Restoring(s, keys, logs, now, force, host).store;
    RestoringHolds(s, keys, logs, now, force, host);
    if ItemIn(s, host, i) {
      ItemInMain(s, host, i);
      DumpedIff(s, keys, logs, now, host, i);
      if EmptyQueue(i) {
        EmptyQueueGone(t, host, i);
        if ItemIn(t, host, i) {
          ItemInMain(t, host, i);
        }
      } else {
        HeldIsIn(t, host, i);
      }
    }
    if ItemIn(t, host, i) {
      ItemInMain(t, host, i);
      TouchesOwn(i);
      var j :| j in items && Touches(j, MainKey(i));
      DumpedIff(s, keys, logs, now, host, j);
      EntrySidecarFree(s, host, j, logs);
      NoSidecarsCross(i, j);
      NoSidecarsCross(j, i);
      EntriesApart(i, j, MainKey(i));
      SameAsDumped(s, t, host, i, j);
    }
  }

  lemma SameAsDumped(s: Store, t: Store, host: Host, i: Item, j: Item)
    requires HostLaws(host) && ItemIn(t, host, i) && SameEntry(i, j) && Holds(t, j, host)
    requires ItemIn(s, host, j) || j == Log(StreamAt(s, LOG_KEY))
    ensures i == j && ItemIn(s, host, j) && !EmptyQueue(i)
  {
    hide ItemIn, Holds, HostLaws, MainKey;
    ItemInMain(t, host, i);
    EntrySidecarFree(s, host, j, true);
    if EmptyQueue(j) {
      EmptyQueueGone(t, host, j);
      SameMain(i, j);
    } else {
      HeldIsIn(t, host, j);
      InFunctional(t, host, i, j);
    }
  }

  lemma SameMain(i: Item, j: Item)
    requires SameEntry(i, j)
    ensures MainKey(i) == MainKey(j)
  {}

  /** The log comes back, if it was dumped. */
  lemma RestoredLog(s: Store, keys: seq<string>, now: string, force: bool, host: Host)
    requires Lists(keys, s) && StreamsInOrder(s, host)
    ensures StreamAt(Restoring(s, keys, true, now, force, host).store, LOG_KEY) == StreamAt(s, LOG_KEY)
  {
    hide Collected, Items, Lists, Apply, StreamsInOrder, ItemIn, Restoring, Holds, StreamAt, Touches;
    RestoringHolds(s, keys, true, now, force, host);
    DumpedIff(s, keys, true, now, host, Log(StreamAt(s, LOG_KEY)));
    HeldLog(Restoring(s, keys, true, now, force, host).store, host, StreamAt(s, LOG_KEY));
  }

  lemma HeldLog(t: Store, host: Host, es: seq<StreamEntry>)
    requires Holds(t, Log(es), host)
    ensures StreamAt(t, LOG_KEY) == es
  {}

  /** Dump, restore into an empty store, dump again: the second dump has the entries of the first, but for queues
      without entries, and the same log, however KEYS orders its answers. */
  lemma DumpAgain(s: Store, keys: seq<string>, logs: bool, now: string, force: bool, host: Host,
                  keys2: seq<string>, now2: string, i: Item)
    requires Lists(keys, s) && StreamsInOrder(s, host) && HostLaws(host)
    requires Lists(keys2, Restoring(s, keys, logs, now, force, host).store)
    ensures var t := Restoring(s, keys, logs, now, force, host).store;
            i in Items(Collected(t, keys2, None, logs, now2, host))
            <==> i in Items(Collected(s, keys, None, logs, now, host)) && !EmptyQueue(i)
  {
    hide Collected, Items, Lists, StreamsInOrder, HostLaws, ItemIn, Restoring, StreamAt;
    var t := Restoring(s, keys, logs, now, force, host).store;
    RestoredHasIff(s, keys, logs, now, force, host, i);
    DumpedIff(s, keys, logs, now, host, i);
    DumpedIff(t, keys2, logs, now2, host, i);
    if logs {
      RestoredLog(s, keys, now, force, host);
    }
  }

  /** The two dumps agree exactly when no queue is empty. */
  lemma SameDumpIff(s: Store, keys: seq<string>, logs: bool, now: string, force: bool, host: Host,
                    keys2: seq<string>, now2: string)
    requires Lists(keys, s) && StreamsInOrder(s, host) && HostLaws(host)
    requires Lists(keys2, Restoring(s, keys, logs, now, force, host).store)
    ensures var first := Items(Collected(s, keys, None, logs, now, host));
            var restored := Restoring(s, keys, logs, now, force, host).store;
            var second := Items(Collected(restored, keys2, None, logs, now2, host));
            (forall i :: i in second <==> i in first)
            <==> forall topic :: QueueKey(topic) in s ==> StreamAt(s, QueueKey(topic)) != []
  {
    hide Collected, Items, Lists, StreamsInOrder, HostLaws, Restoring, StreamAt, QueueKey;
    var first := Items(Collected(s, keys, None, logs, now, host));
    forall i ensures i in first && EmptyQueue(i) <==>
                     i.Queue? && QueueKey(i.topic) in s && StreamAt(s, QueueKey(i.topic)) == [] && i.entries == [] {
      DumpedIff(s, keys, logs, now, host, i);
      QueueIn(s, host, i);
    }
    forall i { DumpAgain(s, keys, logs, now, force, host, keys2, now2, i); }
    forall topic | QueueKey(topic) in s && StreamAt(s, QueueKey(topic)) == [] ensures Queue(topic, []) in first {
      assert EmptyQueue(Queue(topic, []));
    }
  }

  lemma QueueIn(s: Store, host: Host, i: Item)
    ensures i.Queue? ==> (ItemIn(s, host, i) <==> QueueKey(i.topic) in s && i.entries == StreamAt(s, QueueKey(i.topic)))
  {}

  // ----- Through JSON -----

  /** Every ACL that a dump reads is a JSON object. */
  ghost predicate ObjectAcls(s: Store, host: Host)
  {
    (forall id :: SecretKey(id) in s ==> Value(AclOf(s, id, host)).Object?)
    && forall user :: TruthyAt(s, AdminKey(user)) && host.parse(TextAt(s, AdminKey(user))).Some?
                      ==> Value(host.parse(TextAt(s, AdminKey(user)))).Object?
  }

  /** A whole dump comes back from its JSON form. */
  lemma DumpThroughJson(s: Store, keys: seq<string>, logs: bool, now: string, host: Host, show: Json -> string)
    requires Lists(keys, s) && ObjectAcls(s, host)
    ensures var e := Collected(s, keys, None, logs, now, host);
            FromJson(ToJson(e), show) == Ok(e)
  {
    hide FromJson, ToJson, FilterMap, MakeAll, Lists, ItemIn, ObjectAcls;
    var e := Collected(s, keys, None, logs, now, host);
    var clients, acls := MakeAll(e.clients, MakeClient), MakeAll(e.adminAcls, MakeAdmin);
    forall n | 0 <= n < |e.clients| ensures AclSurvives(e.clients[n].1.acl) {
      assert clients[n] in clients;
      ClientsIn(s, keys, host, clients[n]);
      AclIsObject(s, host, clients[n]);
    }
    forall n | 0 <= n < |e.adminAcls| ensures e.adminAcls[n].1.Object? {
      assert acls[n] in acls;
      AdminsIn(s, keys, host, acls[n]);
      AclIsObject(s, host, acls[n]);
    }
    FromJsonToJsonIff(e, show);
  }

  lemma AclIsObject(s: Store, host: Host, i: Item)
    requires ObjectAcls(s, host) && ItemIn(s, host, i)
    ensures i.Client? ==> i.client.acl.Object?
    ensures i.Admin? ==> i.acl.Object?
  {
    hide SecretKey, AdminKey, KvKey, QueueKey, DeviceKey, AclOf, TextAt, BinAt, StreamAt, TruthyAt;
  }
}
