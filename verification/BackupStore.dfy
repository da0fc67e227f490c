/** Restoring an envelope: `apply_envelope` as a run over its entries, and what such a run does to the store. */
module BackupStore {
  import opened Bytes
  import opened BackupFormat
  import Acl

  // ----- Redis -----

  /** A text, a binary value or a stream. */
  datatype Cell = Chars(text: string) | Bin(data: seq<byte>) | Stream(entries: seq<StreamEntry>)

  type Store = map<string, Cell>

  const ENC := ":enc"
  const LOG_KEY := "system:activity_log"

  function SecretKey(id: string): (k: string) { "client:" + (id + ":secret") }

  function AclKey(id: string): (k: string) { "client:" + (id + ":acl") }

  function AdminKey(user: string): (k: string) { "admin_acls:" + user }

  function KvKey(key: string): (k: string) { "kv:" + key }

  function EncKey(key: string): (k: string) { "kv:" + (key + ENC) }

  function QueueKey(topic: string): (k: string) { "q:" + topic }

  function DeviceKey(id: string): (k: string) { "device_to_app:" + id }

  /** The parts of the host: `json.loads`, `json.dumps`, UTF-8 decoding, and how Redis ranks stream ids, where 0 is no
      id XADD takes. */
  datatype Host = Host(parse: string -> Option<Json>, dump: Json -> string, decode: seq<byte> -> string,
                       rank: string -> nat)

  /** A key that holds something other than the empty value. */
  predicate TruthyAt(s: Store, k: string) { k in s && s[k] != Chars("") && s[k] != Bin([]) }

  /** XADD takes an entry after an entry of rank `prior`. */
  predicate Takes(host: Host, prior: nat, e: StreamEntry) { host.rank(e.id) > prior && e.fields != [] }

  function LastRank(host: Host, es: seq<StreamEntry>): (n: nat) { if es == [] then 0 else host.rank(es[|es| - 1].id) }

  /** What a fresh stream holds after adding the entries in order, up to the first one refused. */
  function Added(host: Host, es: seq<StreamEntry>): (r: seq<StreamEntry>)
    ensures |r| <= |es|
  {
    if es == [] then []
    else
      var front := Added(host, es[..|es| - 1]);
      if |front| == |es| - 1 && Takes(host, LastRank(host, front), es[|es| - 1]) then front + [es[|es| - 1]] else front
  }

  /** Every entry is taken. */
  predicate Addable(host: Host, es: seq<StreamEntry>) { Added(host, es) == es }

  function PutStream(s: Store, k: string, es: seq<StreamEntry>): (r: Store)
  {
    if es == [] then s - {k} else s[k := Stream(es)]
  }

  // ----- Entries -----

  /** One entry of an envelope. */
  datatype Item =
    | Client(id: string, client: ClientRecord)
    | Admin(user: string, acl: Json)
    | Kv(key: string, value: KvRecord)
    | Queue(topic: string, entries: seq<StreamEntry>)
    | Device(device: string, app: string)
    | Log(log: seq<StreamEntry>)

  datatype Section = Clients | AdminAcls | KvPairs | Queues | Devices | ActivityLog

  function SectionOf(i: Item): (s: Section)
  {
    match i
    case Client(_, _) => Clients
    case Admin(_, _) => AdminAcls
    case Kv(_, _) => KvPairs
    case Queue(_, _) => Queues
    case Device(_, _) => Devices
    case Log(_) => ActivityLog
  }

  function NameOf(i: Item): (n: string)
  {
    match i
    case Client(id, _) => id
    case Admin(user, _) => user
    case Kv(key, _) => key
    case Queue(topic, _) => topic
    case Device(device, _) => device
    case Log(_) => ""
  }

  /** The key that tells whether the entry is there already. */
  function MainKey(i: Item): (k: string)
  {
    match i
    case Client(id, _) => SecretKey(id)
    case Admin(user, _) => AdminKey(user)
    case Kv(key, _) => KvKey(key)
    case Queue(topic, _) => QueueKey(topic)
    case Device(device, _) => DeviceKey(device)
    case Log(_) => LOG_KEY
  }

  /** The key written along with it, or the same key. */
  function SideKey(i: Item): (k: string)
  {
    match i
    case Client(id, _) => AclKey(id)
    case Kv(key, _) => EncKey(key)
    case _ => MainKey(i)
  }

  predicate Touches(i: Item, k: string) { k == MainKey(i) || k == SideKey(i) }

  /** Permissions as the filter reads them: a missing prefix is empty. */
  function Granted(acl: Json): (ps: seq<Acl.Perm>)
  {
    var ps := if acl.Object? then OrElse(Get(acl.fields, "permissions"), Null) else Null;
    if ps.List? then MapList(ps.items, PermOf) else []
  }

  function PermOf(j: Json): (p: Acl.Perm)
  {
    var prefix := if j.Object? then OrElse(Get(j.fields, "prefix"), Null) else Null;
    Acl.Perm(if prefix.Text? then prefix.s else "", "r")
  }

  /** The ACL document lists a permission whose prefix is the app or a path below it. */
  predicate GrantsTo(acl: Json, app: string)
  {
    && acl.Object? && Get(acl.fields, "permissions").Some? && Get(acl.fields, "permissions").value.List?
    && exists j | j in Get(acl.fields, "permissions").value.items :: IsGrant(j, app)
  }

  predicate IsGrant(j: Json, app: string)
  {
    && j.Object? && Get(j.fields, "prefix").Some? && Get(j.fields, "prefix").value.Text?
    && var prefix := Get(j.fields, "prefix").value.s;
       prefix == app || StartsWith(prefix, app + "/")
  }

  /** The section's own rule for what belongs to an app; the log has none. */
  predicate Belongs(i: Item, app: string)
  {
    match i
    case Client(_, c) => Acl.MatchesApp(Granted(c.acl), app)
    case Admin(_, acl) => Acl.MatchesApp(Granted(acl), app)
    case Kv(key, _) => Acl.KvKeyBelongsToApp(key, app)
    case Queue(topic, _) => Acl.QueueTopicBelongsToApp(topic, app)
    case Device(_, a) => a == app
    case Log(_) => true
  }

  lemma GrantIff(j: Json, app: string)
    requires app != ""
    ensures Acl.InTree(PermOf(j).prefix, app) <==> IsGrant(j, app)
  {}

  /** A client or an admin belongs to an app exactly if its ACL document has such a permission. */
  lemma GrantedIff(acl: Json, app: string)
    requires app != ""
    ensures Acl.MatchesApp(Granted(acl), app) <==> GrantsTo(acl, app)
  {
    hide PermOf, IsGrant, Acl.InTree;
    forall j ensures Acl.InTree(PermOf(j).prefix, app) <==> IsGrant(j, app) {
      GrantIff(j, app);
    }
    var ps := Granted(acl);
    if GrantsTo(acl, app) {
      var items := Get(acl.fields, "permissions").value.items;
      var n :| 0 <= n < |items| && IsGrant(items[n], app);
      assert ps[n] == PermOf(items[n]);
    }
    if Acl.MatchesApp(ps, app) {
      var p :| p in ps && Acl.InTree(p.prefix, app);
      var n :| 0 <= n < |ps| && ps[n] == p;
      assert IsGrant(Get(acl.fields, "permissions").value.items[n], app);
    }
  }

  /** What belongs to an app, section by section, in literal terms. */
  predicate OwnedBy(i: Item, app: string)
  {
    match i
    case Client(_, c) => GrantsTo(c.acl, app)
    case Admin(_, acl) => GrantsTo(acl, app)
    case Kv(key, _) =>
      key == app || StartsWith(key, app + "/")
      || key == "_catalog/" + app || StartsWith(key, "_catalog/" + app + "/")
    case Queue(topic, _) => topic == app || StartsWith(topic, app + "/")
    case Device(_, a) => a == app
    case Log(_) => true
  }

  lemma BelongsIff(i: Item, app: string)
    requires app != ""
    ensures Belongs(i, app) <==> OwnedBy(i, app)
  {
    hide GrantsTo, Granted, Acl.MatchesApp;
    match i
    case Client(_, c) => GrantedIff(c.acl, app);
    case Admin(_, acl) => GrantedIff(acl, app);
    case _ =>
  }

  // ----- Applying -----

  datatype Verdict = Restored | Skipped | Overwritten | Rejected

  datatype Line = Line(section: Section, name: string, verdict: Verdict)

  /** `report` holds what the response lists, in order; `failed` stands for an exception out of XADD. */
  datatype Outcome = Outcome(store: Store, report: seq<Line>, failed: bool)

  /** An empty filter filters nothing, and nothing filters the log. */
  predicate Refused(i: Item, filter: string) { filter != "" && !Belongs(i, filter) }

  predicate Existing(s: Store, i: Item)
  {
    if i.Kv? || i.Queue? || i.Log? then MainKey(i) in s else TruthyAt(s, MainKey(i))
  }

  const ENC_FLAG: seq<byte> := [49]

  function Written(s: Store, i: Item, host: Host): (r: Store)
  {
    match i
    case Client(id, c) => s[SecretKey(id) := Chars(c.secret)][AclKey(id) := Chars(host.dump(c.acl))]
    case Admin(user, acl) => s[AdminKey(user) := Chars(host.dump(acl))]
    case Kv(key, v) =>
      var put := s[KvKey(key) := Bin(v.value)];
      if v.encrypted then put[EncKey(key) := Bin(ENC_FLAG)] else put - {EncKey(key)}
    case Queue(topic, es) => PutStream(s, QueueKey(topic), Added(host, es))
    case Device(device, app) => s[DeviceKey(device) := Chars(app)]
    case Log(es) => PutStream(s, LOG_KEY, Added(host, es))
  }

  predicate Writable(i: Item, host: Host)
  {
    match i case Queue(_, es) => Addable(host, es) case Log(es) => Addable(host, es) case _ => true
  }

  function VerdictFor(s: Store, i: Item, force: bool, filter: string): (v: Verdict)
  {
    if Refused(i, filter) then Rejected
    else if Existing(s, i) then if force then Overwritten else Skipped
    else Restored
  }

  predicate Lands(v: Verdict) { v == Restored || v == Overwritten }

  function Step(o: Outcome, i: Item, force: bool, filter: string, host: Host): (r: Outcome)
  {
    if o.failed then o
    else
      var v := VerdictFor(o.store, i, force, filter);
      var line := Line(SectionOf(i), NameOf(i), v);
      if !Lands(v) then o.(report := o.report + [line])
      else if Writable(i, host) then Outcome(Written(o.store, i, host), o.report + [line], false)
      else Outcome(Written(o.store, i, host), o.report, true)
  }

  function ApplyFrom(o: Outcome, items: seq<Item>, force: bool, filter: string, host: Host): (r: Outcome)
  {
    if items == [] then o
    else Step(ApplyFrom(o, items[..|items| - 1], force, filter, host), items[|items| - 1], force, filter, host)
  }

  function Apply(s: Store, items: seq<Item>, force: bool, filter: string, host: Host): (r: Outcome)
  {
    ApplyFrom(Outcome(s, [], false), items, force, filter, host)
  }

  // ----- Keys do not collide -----

  /** Two entries are the same one if they have section and name in common. */
  predicate SameEntry(i: Item, j: Item) { SectionOf(i) == SectionOf(j) && NameOf(i) == NameOf(j) }

  /** The value of `i` is kept under the key of the encryption flag of `j`. */
  predicate Crosses(i: Item, j: Item) { i.Kv? && j.Kv? && i.key == j.key + ENC }

  predicate NotSidecar(i: Item) { i.Kv? ==> !EndsWith(i.key, ENC) }

  /** What dictionaries guarantee: no entry twice. */
  predicate Distinct(items: seq<Item>)
  {
    forall m, n | 0 <= m < n < |items| :: !SameEntry(items[m], items[n])
  }

  /** No entry poses as the encryption flag of another entry of the envelope. */
  predicate Clean(items: seq<Item>)
  {
    Distinct(items) && forall m, n | 0 <= m < |items| && 0 <= n < |items| :: !Crosses(items[m], items[n])
  }

  lemma AppendSame(a: string, b: string, t: string)
    ensures a + t == b + t ==> a == b
  {
    if a + t == b + t {
      assert (a + t)[..|a|] == a && (b + t)[..|b|] == b;
    }
  }

  lemma ClientKeysApart(a: string, b: string)
    ensures SecretKey(a) == SecretKey(b) ==> a == b
    ensures AclKey(a) == AclKey(b) ==> a == b
    ensures SecretKey(a) != AclKey(b)
  {
    DropPrefix("client:", a + ":secret");
    DropPrefix("client:", b + ":secret");
    DropPrefix("client:", a + ":acl");
    DropPrefix("client:", b + ":acl");
    AppendSame(a, b, ":secret");
    AppendSame(a, b, ":acl");
    var s, t := SecretKey(a), AclKey(b);
    assert s[|s| - 1] == 't' && t[|t| - 1] == 'l';
  }

  lemma KvKeysApart(a: string, b: string)
    ensures KvKey(a) == KvKey(b) <==> a == b
    ensures EncKey(a) == EncKey(b) <==> a == b
    ensures KvKey(a) == EncKey(b) <==> a == b + ENC
  {
    DropPrefix("kv:", a);
    DropPrefix("kv:", b);
    DropPrefix("kv:", a + ENC);
    DropPrefix("kv:", b + ENC);
    AppendSame(a, b, ENC);
  }

  lemma PrefixSame(p: string, a: string, b: string)
    ensures p + a == p + b ==> a == b
  {
    DropPrefix(p, a);
    DropPrefix(p, b);
  }

  lemma OneSection(i: Item, j: Item)
    requires SectionOf(i) == SectionOf(j)
    ensures Touches(j, MainKey(i)) <==> SameEntry(i, j) || Crosses(i, j)
    ensures Touches(j, SideKey(i)) <==> SameEntry(i, j) || Crosses(j, i)
  {
    hide SecretKey, AclKey, KvKey, EncKey;
    match i
    case Client(id, _) => ClientKeysApart(id, j.id); ClientKeysApart(j.id, id);
    case Kv(key, _) => KvKeysApart(key, j.key); KvKeysApart(j.key, key);
    case Admin(user, _) => PrefixSame("admin_acls:", user, j.user);
    case Queue(topic, _) => PrefixSame("q:", topic, j.topic);
    case Device(device, _) => PrefixSame("device_to_app:", device, j.device);
    case Log(_) =>
  }

  function Initial(s: Section): (c: char)
  {
    match s
    case Clients => 'c'
    case AdminAcls => 'a'
    case KvPairs => 'k'
    case Queues => 'q'
    case Devices => 'd'
    case ActivityLog => 's'
  }

  lemma KeyInitial(i: Item, k: string)
    requires Touches(i, k)
    ensures k != "" && k[0] == Initial(SectionOf(i))
  {}

  /** Which entries write the keys of `i`: itself, and the values that pose as sidecars. */
  lemma TouchesIff(i: Item, j: Item)
    ensures Touches(j, MainKey(i)) <==> SameEntry(i, j) || Crosses(i, j)
    ensures Touches(j, SideKey(i)) <==> SameEntry(i, j) || Crosses(j, i)
  {
    hide MainKey, SideKey, Touches;
    if SectionOf(i) == SectionOf(j) {
      OneSection(i, j);
    } else {
      OtherSection(i, j, MainKey(i));
      OtherSection(i, j, SideKey(i));
    }
  }

  lemma OtherSection(i: Item, j: Item, k: string)
    requires SectionOf(i) != SectionOf(j)
    ensures k == MainKey(i) || k == SideKey(i) ==> !Touches(j, k)
    ensures !SameEntry(i, j) && !Crosses(i, j) && !Crosses(j, i)
  {
    hide MainKey, SideKey, Touches;
    assert k == MainKey(i) || k == SideKey(i) ==> Touches(i, k) by { TouchesOwn(i); }
    if Touches(i, k) && Touches(j, k) {
      KeyInitial(i, k);
      KeyInitial(j, k);
    }
  }

  lemma TouchesOwn(i: Item)
    ensures Touches(i, MainKey(i)) && Touches(i, SideKey(i))
  {}

  /** Two entries write a common key exactly if they are the same, or one poses as the flag of the other. */
  lemma EntriesMeetIff(i: Item, j: Item)
    ensures (exists k :: Touches(i, k) && Touches(j, k)) <==> SameEntry(i, j) || Crosses(i, j) || Crosses(j, i)
  {
    hide MainKey, SideKey, SameEntry, Crosses;
    TouchesIff(i, j);
    TouchesOwn(i);
  }

  lemma EntriesApart(i: Item, j: Item, k: string)
    requires !Crosses(i, j) && !Crosses(j, i) && Touches(i, k) && Touches(j, k)
    ensures SameEntry(i, j)
  {
    EntriesMeetIff(i, j);
  }

  lemma NoSidecarsCross(i: Item, j: Item)
    requires NotSidecar(i)
    ensures !Crosses(i, j)
  {}

  // ----- What a restore does -----

  /** The store holds what the entry says. */
  predicate Holds(s: Store, i: Item, host: Host)
  {
    match i
    case Client(id, c) =>
      SecretKey(id) in s && s[SecretKey(id)] == Chars(c.secret)
      && AclKey(id) in s && s[AclKey(id)] == Chars(host.dump(c.acl))
    case Admin(user, acl) => AdminKey(user) in s && s[AdminKey(user)] == Chars(host.dump(acl))
    case Kv(key, v) =>
      KvKey(key) in s && s[KvKey(key)] == Bin(v.value)
      && (EncKey(key) in s <==> v.encrypted) && (v.encrypted ==> s[EncKey(key)] == Bin(ENC_FLAG))
    case Queue(topic, es) => HoldsStream(s, QueueKey(topic), es)
    case Device(device, app) => DeviceKey(device) in s && s[DeviceKey(device)] == Chars(app)
    case Log(es) => HoldsStream(s, LOG_KEY, es)
  }

  /** Redis has no empty streams made by XADD. */
  predicate HoldsStream(s: Store, k: string, es: seq<StreamEntry>)
  {
    if es == [] then k !in s else k in s && s[k] == Stream(es)
  }

  lemma WrittenHolds(s: Store, i: Item, host: Host)
    requires Writable(i, host)
    ensures Holds(Written(s, i, host), i, host)
  {
    hide SecretKey, AclKey, KvKey, EncKey, AdminKey, QueueKey, DeviceKey;
    if i.Client? {
      ClientKeysApart(i.id, i.id);
    }
    if i.Kv? {
      assert KvKey(i.key) != EncKey(i.key) by { SideIsOther(i.key); }
    }
  }

  lemma SideIsOther(key: string)
    ensures KvKey(key) != EncKey(key)
  {
    assert |EncKey(key)| == |KvKey(key)| + 4;
  }

  lemma WrittenElsewhere(s: Store, i: Item, host: Host, k: string)
    requires !Touches(i, k)
    ensures SameAt(s, Written(s, i, host), k)
  {
    hide SecretKey, AclKey, KvKey, EncKey, AdminKey, QueueKey, DeviceKey, Added;
  }

  /** What an entry writes does not depend on what was there. */
  lemma WrittenSame(a: Store, b: Store, i: Item, host: Host, k: string)
    requires Touches(i, k)
    ensures SameAt(Written(a, i, host), Written(b, i, host), k)
  {
    hide SecretKey, AclKey, KvKey, EncKey, AdminKey, QueueKey, DeviceKey, Added;
  }

  /** Whether an entry is there, and whether it holds, depends on its own keys. */
  lemma Local(a: Store, b: Store, i: Item, host: Host)
    requires SameAt(a, b, MainKey(i)) && SameAt(a, b, SideKey(i))
    ensures Existing(a, i) <==> Existing(b, i)
    ensures Holds(a, i, host) <==> Holds(b, i, host)
  {
    hide SecretKey, AclKey, KvKey, EncKey, AdminKey, QueueKey, DeviceKey;
  }

  /** Writing again what is there changes nothing. */
  lemma WrittenAgain(s: Store, i: Item, host: Host)
    requires Holds(s, i, host) && Writable(i, host)
    ensures Written(s, i, host) == s
  {
    hide SecretKey, AclKey, KvKey, EncKey, AdminKey, QueueKey, DeviceKey, Added;
  }

  /** What the report will say of an entry can be read off the store before the restore. */
  predicate Chosen(s: Store, i: Item, force: bool, filter: string) { Lands(VerdictFor(s, i, force, filter)) }

  function Reported(s: Store, items: seq<Item>, force: bool, filter: string): (ls: seq<Line>)
    ensures |ls| == |items|
  {
    seq(|items|, n requires 0 <= n < |items| =>
      Line(SectionOf(items[n]), NameOf(items[n]), VerdictFor(s, items[n], force, filter)))
  }

  /** The store after the chosen entries, and nothing else, were written. */
  ghost predicate Effect(s: Store, items: seq<Item>, force: bool, filter: string, host: Host, after: Store)
  {
    (forall n | 0 <= n < |items| && Chosen(s, items[n], force, filter) :: Holds(after, items[n], host))
    && forall k: string :: Untouched(s, items, force, filter, k) ==> SameAt(s, after, k)
  }

  predicate Untouched(s: Store, items: seq<Item>, force: bool, filter: string, k: string)
  {
    forall n | 0 <= n < |items| && Chosen(s, items[n], force, filter) :: !Touches(items[n], k)
  }

  lemma CleanFront(items: seq<Item>)
    requires items != [] && Clean(items)
    ensures Clean(items[..|items| - 1])
    ensures forall n | 0 <= n < |items| - 1 :: !SameEntry(items[n], items[|items| - 1])
    ensures forall n | 0 <= n < |items| - 1 ::
              !Crosses(items[n], items[|items| - 1]) && !Crosses(items[|items| - 1], items[n])
  {
    hide Crosses, SameEntry;
  }

  /** The entries before do not touch the keys of the last one. */
  lemma LastIsFresh(s: Store, items: seq<Item>, force: bool, filter: string, k: string)
    requires items != [] && Clean(items) && Touches(items[|items| - 1], k)
    ensures Untouched(s, items[..|items| - 1], force, filter, k)
  {
    hide Crosses, SameEntry, Clean, Touches, Chosen;
    CleanFront(items);
    var i := items[|items| - 1];
    forall n | 0 <= n < |items| - 1 ensures !Touches(items[n], k) {
      if Touches(items[n], k) {
        EntriesApart(items[n], i, k);
      }
    }
  }

  /** Before the last entry its keys are as they were at the start. */
  lemma LastAsBefore(s: Store, items: seq<Item>, force: bool, filter: string, host: Host, mid: Store)
    requires items != [] && Clean(items) && Effect(s, items[..|items| - 1], force, filter, host, mid)
    ensures VerdictFor(mid, items[|items| - 1], force, filter) == VerdictFor(s, items[|items| - 1], force, filter)
  {
    hide Clean, SameAt, MainKey, SideKey, Holds, Existing;
    var i := items[|items| - 1];
    LastIsFresh(s, items, force, filter, MainKey(i));
    LastIsFresh(s, items, force, filter, SideKey(i));
    Local(s, mid, i, host);
  }

  lemma SameTrans(a: Store, b: Store, c: Store, k: string)
    requires SameAt(a, b, k) && SameAt(b, c, k)
    ensures SameAt(a, c, k)
  {}

  /** Writing the last entry leaves what the others hold. */
  lemma OthersHold(mid: Store, items: seq<Item>, host: Host, n: nat)
    requires n < |items| - 1 && Clean(items) && Holds(mid, items[n], host)
    ensures Holds(Written(mid, items[|items| - 1], host), items[n], host)
  {
    hide Clean, SameAt, MainKey, SideKey, Holds, Written, Crosses, SameEntry, Existing;
    var i, j := items[|items| - 1], items[n];
    CleanFront(items);
    forall k | Touches(j, k) ensures SameAt(mid, Written(mid, i, host), k) {
      if Touches(i, k) {
        EntriesApart(j, i, k);
      }
      WrittenElsewhere(mid, i, host, k);
    }
    Local(mid, Written(mid, i, host), j, host);
  }

  lemma EffectOfLast(s: Store, items: seq<Item>, force: bool, filter: string, host: Host, mid: Store)
    requires items != [] && Clean(items) && Effect(s, items[..|items| - 1], force, filter, host, mid)
    requires Chosen(s, items[|items| - 1], force, filter) && Writable(items[|items| - 1], host)
    ensures Effect(s, items, force, filter, host, Written(mid, items[|items| - 1], host))
  {
    hide Clean, SameAt, Touches, Holds, Written, Chosen, Writable;
    var i, front := items[|items| - 1], items[..|items| - 1];
    var after := Written(mid, i, host);
    WrittenHolds(mid, i, host);
    forall n | 0 <= n < |items| && Chosen(s, items[n], force, filter) ensures Holds(after, items[n], host) {
      if n < |items| - 1 {
        assert front[n] == items[n];
        OthersHold(mid, items, host, n);
      }
    }
    forall k: string | Untouched(s, items, force, filter, k) ensures SameAt(s, after, k) {
      assert items[|items| - 1] == i;
      UntouchedFront(s, items, force, filter, k);
      WrittenElsewhere(mid, i, host, k);
      SameTrans(s, mid, after, k);
    }
  }

  lemma UntouchedFront(s: Store, items: seq<Item>, force: bool, filter: string, k: string)
    requires items != [] && Untouched(s, items, force, filter, k)
    ensures Untouched(s, items[..|items| - 1], force, filter, k)
    ensures Chosen(s, items[|items| - 1], force, filter) ==> !Touches(items[|items| - 1], k)
  {
    hide Touches, Chosen;
  }

  lemma EffectOfNone(s: Store, items: seq<Item>, force: bool, filter: string, host: Host, mid: Store)
    requires items != [] && Effect(s, items[..|items| - 1], force, filter, host, mid)
    requires !Chosen(s, items[|items| - 1], force, filter)
    ensures Effect(s, items, force, filter, host, mid)
  {
    hide SameAt, Touches, Holds, Chosen;
    forall k: string | Untouched(s, items, force, filter, k) ensures SameAt(s, mid, k) {
      UntouchedFront(s, items, force, filter, k);
    }
    forall n | 0 <= n < |items| && Chosen(s, items[n], force, filter) ensures Holds(mid, items[n], host) {
      assert items[..|items| - 1][n] == items[n];
    }
  }

  /** Every entry that is to be written can be. */
  predicate AllWritable(s: Store, items: seq<Item>, force: bool, filter: string, host: Host)
  {
    forall n | 0 <= n < |items| && Chosen(s, items[n], force, filter) :: Writable(items[n], host)
  }

  lemma ReportedSnoc(s: Store, items: seq<Item>, force: bool, filter: string)
    requires items != []
    ensures var i := items[|items| - 1];
            Reported(s, items, force, filter)
            == Reported(s, items[..|items| - 1], force, filter)
               + [Line(SectionOf(i), NameOf(i), VerdictFor(s, i, force, filter))]
  {
    hide VerdictFor, SectionOf, NameOf;
  }

  /** A restore of entries none of which poses as the flag of another: the report has one line for each entry, in order,
      and says what the store before it implies; the chosen entries are stored; every other key is as it was. */
  lemma {:induction false} CleanEffect(s: Store, items: seq<Item>, force: bool, filter: string, host: Host)
    requires Clean(items) && AllWritable(s, items, force, filter, host)
    ensures var o := Apply(s, items, force, filter, host);
            && !o.failed && o.report == Reported(s, items, force, filter)
            && Effect(s, items, force, filter, host, o.store)
  {
    hide Clean, Effect, Reported, VerdictFor, Written, Writable, SectionOf, NameOf;
    if items == [] {
      NoEffect(s, force, filter, host);
    } else {
      var i, front := items[|items| - 1], items[..|items| - 1];
      CleanFront(items);
      CleanEffect(s, front, force, filter, host);
      var mid := Apply(s, front, force, filter, host).store;
      LastAsBefore(s, items, force, filter, host, mid);
      ReportedSnoc(s, items, force, filter);
      if Chosen(s, i, force, filter) {
        EffectOfLast(s, items, force, filter, host, mid);
      } else {
        EffectOfNone(s, items, force, filter, host, mid);
      }
    }
  }

  lemma NoEffect(s: Store, force: bool, filter: string, host: Host)
    ensures Effect(s, [], force, filter, host, s) && Reported(s, [], force, filter) == []
  {}

  // ----- Failing -----

  lemma {:induction false} ApplyConcat(o: Outcome, a: seq<Item>, b: seq<Item>, force: bool, filter: string, host: Host)
    ensures ApplyFrom(o, a + b, force, filter, host)
            == ApplyFrom(ApplyFrom(o, a, force, filter, host), b, force, filter, host)
  {
    hide Step;
    if b == [] {
      assert a + b == a;
    } else {
      assert (a + b)[..|a + b| - 1] == a + b[..|b| - 1];
      ApplyConcat(o, a, b[..|b| - 1], force, filter, host);
    }
  }

  lemma {:induction false} FailedStays(o: Outcome, items: seq<Item>, force: bool, filter: string, host: Host)
    requires o.failed
    ensures ApplyFrom(o, items, force, filter, host) == o
  {
    if items != [] {
      FailedStays(o, items[..|items| - 1], force, filter, host);
    }
  }

  lemma ApplyOne(o: Outcome, i: Item, force: bool, filter: string, host: Host)
    ensures ApplyFrom(o, [i], force, filter, host) == Step(o, i, force, filter, host)
  {
    hide Step;
    assert [i][..0] == [];
  }

  // ----- Any envelope, step by step -----

  /** Where a restore stands before entry `n`. */
  function Before(s: Store, items: seq<Item>, n: nat, force: bool, filter: string, host: Host): (o: Outcome)
    requires n <= |items|
  {
    Apply(s, items[..n], force, filter, host)
  }

  /** Entry `n` is written. */
  predicate Landed(s: Store, items: seq<Item>, n: nat, force: bool, filter: string, host: Host)
    requires n < |items|
  {
    var o := Before(s, items, n, force, filter, host);
    !o.failed && Chosen(o.store, items[n], force, filter)
  }

  lemma LandedPrefix(s: Store, items: seq<Item>, p: nat, n: nat, force: bool, filter: string, host: Host)
    requires n < p <= |items|
    ensures items[..p][n] == items[n]
    ensures Before(s, items[..p], n, force, filter, host) == Before(s, items, n, force, filter, host)
    ensures Landed(s, items[..p], n, force, filter, host) == Landed(s, items, n, force, filter, host)
  {
    hide Apply, Chosen;
    assert items[..p][..n] == items[..n];
  }

  lemma LastStep(s: Store, items: seq<Item>, force: bool, filter: string, host: Host)
    requires items != []
    ensures var n := |items| - 1;
            && Apply(s, items, force, filter, host)
               == Step(Before(s, items, n, force, filter, host), items[n], force, filter, host)
            && (Landed(s, items, n, force, filter, host) ==>
                  Apply(s, items, force, filter, host).store
                  == Written(Before(s, items, n, force, filter, host).store, items[n], host))
            && (!Landed(s, items, n, force, filter, host) ==>
                  Apply(s, items, force, filter, host).store == Before(s, items, n, force, filter, host).store)
  {
    hide VerdictFor, Written, Writable, SectionOf, NameOf;
  }

  /** A key that no entry written from `n` on touches stays as it is, whether the restore raises or not. */
  lemma {:induction false} NoneLandedFrom(s: Store, items: seq<Item>, n: nat, force: bool, filter: string, host: Host,
                                          k: string)
    requires n <= |items|
    requires forall m | n <= m < |items| && Landed(s, items, m, force, filter, host) :: !Touches(items[m], k)
    ensures SameAt(Before(s, items, n, force, filter, host).store, Apply(s, items, force, filter, host).store, k)
  {
    if n == |items| {
      assert items[..n] == items;
    } else {
      hide Apply, Before, Landed, Touches, Written, Step, SameAt;
      var p := |items| - 1;
      forall m | n <= m < p && Landed(s, items[..p], m, force, filter, host) ensures !Touches(items[..p][m], k) {
        LandedPrefix(s, items, p, m, force, filter, host);
      }
      NoneLandedFrom(s, items[..p], n, force, filter, host, k);
      BeforePrefix(s, items, p, n, force, filter, host);
      BeforeIs(s, items, p, force, filter, host);
      LastStep(s, items, force, filter, host);
      if Landed(s, items, p, force, filter, host) {
        WrittenElsewhere(Before(s, items, p, force, filter, host).store, items[p], host, k);
        SameTrans(Before(s, items, n, force, filter, host).store, Before(s, items, p, force, filter, host).store,
                  Apply(s, items, force, filter, host).store, k);
      }
    }
  }

  lemma BeforePrefix(s: Store, items: seq<Item>, p: nat, n: nat, force: bool, filter: string, host: Host)
    requires n <= p <= |items|
    ensures Before(s, items[..p], n, force, filter, host) == Before(s, items, n, force, filter, host)
  {
    hide Apply;
    assert items[..p][..n] == items[..n];
  }

  /** A key that no written entry touches is as it was at the start. */
  lemma NoneLanded(s: Store, items: seq<Item>, force: bool, filter: string, host: Host, k: string)
    requires forall n | 0 <= n < |items| && Landed(s, items, n, force, filter, host) :: !Touches(items[n], k)
    ensures SameAt(s, Apply(s, items, force, filter, host).store, k)
  {
    hide Apply, Landed, Touches, SameAt;
    NoneLandedFrom(s, items, 0, force, filter, host, k);
    assert items[..0] == [];
    NothingApplied(s, force, filter, host);
  }

  lemma NothingApplied(s: Store, force: bool, filter: string, host: Host)
    ensures Apply(s, [], force, filter, host) == Outcome(s, [], false)
  {}

  lemma BeforeIs(s: Store, items: seq<Item>, n: nat, force: bool, filter: string, host: Host)
    requires n <= |items|
    ensures Before(s, items, n, force, filter, host) == Apply(s, items[..n], force, filter, host)
  {}

  /** No entry written after entry `n` touches the key. */
  predicate LastOn(s: Store, items: seq<Item>, n: nat, force: bool, filter: string, host: Host, k: string)
    requires n < |items|
  {
    && Landed(s, items, n, force, filter, host) && Touches(items[n], k)
    && forall m | n < m < |items| && Landed(s, items, m, force, filter, host) :: !Touches(items[m], k)
  }

  /** A key is left as the last written entry that touches it leaves it. */
  lemma {:induction false} LastWriter(s: Store, items: seq<Item>, n: nat, force: bool, filter: string, host: Host,
                                      k: string)
    requires n < |items| && LastOn(s, items, n, force, filter, host, k)
    ensures SameAt(Written(Before(s, items, n, force, filter, host).store, items[n], host),
                   Apply(s, items, force, filter, host).store, k)
  {
    hide Apply, Before, Landed, Touches, Written, Step, SameAt;
    var p := |items| - 1;
    LastStep(s, items, force, filter, host);
    if n == p {
      SameAsItself(Apply(s, items, force, filter, host).store, k);
    } else {
      forall m | 0 <= m < p
        ensures Landed(s, items[..p], m, force, filter, host) == Landed(s, items, m, force, filter, host)
        ensures items[..p][m] == items[m] {
        LandedPrefix(s, items, p, m, force, filter, host);
      }
      LandedPrefix(s, items, p, n, force, filter, host);
      LastWriter(s, items[..p], n, force, filter, host, k);
      BeforeIs(s, items, p, force, filter, host);
      if Landed(s, items, p, force, filter, host) {
        WrittenElsewhere(Before(s, items, p, force, filter, host).store, items[p], host, k);
        SameTrans(Written(Before(s, items, n, force, filter, host).store, items[n], host),
                  Before(s, items, p, force, filter, host).store, Apply(s, items, force, filter, host).store, k);
      }
    }
  }

  lemma SameAsItself(s: Store, k: string)
    ensures SameAt(s, s, k)
  {}

  /** The report has one line for each entry, in order, by the store as it stands when the entry's turn comes. */
  lemma {:induction false} ReportInOrder(s: Store, items: seq<Item>, force: bool, filter: string, host: Host, n: nat)
    requires !Apply(s, items, force, filter, host).failed
    ensures var o := Apply(s, items, force, filter, host);
            && |o.report| == |items|
            && (n < |items| ==>
                  !Before(s, items, n, force, filter, host).failed
                  && o.report[n] == Line(SectionOf(items[n]), NameOf(items[n]),
                                         VerdictFor(Before(s, items, n, force, filter, host).store, items[n], force,
                                                    filter)))
  {
    hide VerdictFor, Written, Writable, SectionOf, NameOf;
    if items != [] {
      var p := |items| - 1;
      LastStep(s, items, force, filter, host);
      ReportInOrder(s, items[..p], force, filter, host, n);
      if n < p {
        LandedPrefix(s, items, p, n, force, filter, host);
      }
    }
  }

  // ----- Dictionaries -----

  /** Unless it poses as the flag of an entry written before, an entry finds its key as it was at the start. */
  lemma MainBefore(s: Store, items: seq<Item>, n: nat, force: bool, filter: string, host: Host)
    requires n < |items| && Distinct(items)
    requires forall m | 0 <= m < n && Landed(s, items, m, force, filter, host) :: !Crosses(items[n], items[m])
    ensures SameAt(s, Before(s, items, n, force, filter, host).store, MainKey(items[n]))
  {
    hide Apply, Landed, Touches, SameAt, MainKey, SameEntry, Crosses;
    forall m | 0 <= m < n && Landed(s, items[..n], m, force, filter, host)
      ensures !Touches(items[..n][m], MainKey(items[n])) {
      LandedPrefix(s, items, n, m, force, filter, host);
      TouchesIff(items[n], items[m]);
      SameEntrySym(items[n], items[m]);
    }
    NoneLanded(s, items[..n], force, filter, host, MainKey(items[n]));
  }

  lemma SameEntrySym(i: Item, j: Item)
    ensures SameEntry(i, j) <==> SameEntry(j, i)
  {}

  /** An entry that does finds what that entry's flag says. */
  lemma FlagBefore(s: Store, items: seq<Item>, n: nat, m: nat, force: bool, filter: string, host: Host)
    requires m < n < |items| && Distinct(items)
    requires Landed(s, items, m, force, filter, host) && Crosses(items[n], items[m])
    ensures MainKey(items[n]) in Before(s, items, n, force, filter, host).store <==> items[m].value.encrypted
  {
    hide Apply, Landed, Touches, SameAt, MainKey, SideKey, SameEntry, Written;
    var k := MainKey(items[n]);
    TouchesIff(items[n], items[m]);
    LandedPrefix(s, items, n, m, force, filter, host);
    forall p | m < p < n && Landed(s, items[..n], p, force, filter, host) ensures !Touches(items[..n][p], k) {
      LandedPrefix(s, items, n, p, force, filter, host);
      TouchesIff(items[n], items[p]);
      SameEntrySym(items[n], items[p]);
      if Crosses(items[n], items[p]) {
        OneFlagged(items[n], items[m], items[p]);
      }
    }
    LastWriter(s, items[..n], m, force, filter, host, k);
    FlagWritten(Before(s, items, m, force, filter, host).store, items[n], items[m], host);
    SameMembership(Written(Before(s, items, m, force, filter, host).store, items[m], host),
                   Before(s, items, n, force, filter, host).store, k);
  }

  lemma SameMembership(a: Store, b: Store, k: string)
    ensures SameAt(a, b, k) ==> (k in a <==> k in b)
  {}

  /** An entry poses as the flag of one entry only. */
  lemma OneFlagged(i: Item, j: Item, l: Item)
    requires Crosses(i, j) && Crosses(i, l)
    ensures SameEntry(j, l)
  {
    AppendSame(j.key, l.key, ENC);
  }

  lemma FlagWritten(s: Store, i: Item, j: Item, host: Host)
    requires Crosses(i, j)
    ensures MainKey(i) in Written(s, j, host) <==> j.value.encrypted
  {
    KvKeysApart(i.key, j.key);
    SideIsOther(j.key);
  }

  /** The verdict on an entry whose flag key an earlier value occupied or cleared. */
  function FlaggedVerdict(i: Item, encrypted: bool, force: bool, filter: string): (v: Verdict)
  {
    if Refused(i, filter) then Rejected
    else if encrypted then if force then Overwritten else Skipped
    else Restored
  }

  /** The verdict on every entry, read off the store before the restore and the entries written before: for any
      envelope, in either mode, under any filter. */
  lemma VerdictIs(s: Store, items: seq<Item>, n: nat, force: bool, filter: string, host: Host)
    requires n < |items| && Distinct(items)
    ensures var v := VerdictFor(Before(s, items, n, force, filter, host).store, items[n], force, filter);
            && (forall m | 0 <= m < n && Landed(s, items, m, force, filter, host) && Crosses(items[n], items[m]) ::
                  v == FlaggedVerdict(items[n], items[m].value.encrypted, force, filter))
            && ((forall m | 0 <= m < n && Landed(s, items, m, force, filter, host) :: !Crosses(items[n], items[m])) ==>
                  v == VerdictFor(s, items[n], force, filter))
  {
    hide Apply, Landed, Touches, SameAt, MainKey, SameEntry, Before, Refused, Distinct;
    forall m | 0 <= m < n && Landed(s, items, m, force, filter, host) && Crosses(items[n], items[m])
      ensures MainKey(items[n]) in Before(s, items, n, force, filter, host).store <==> items[m].value.encrypted {
      FlagBefore(s, items, n, m, force, filter, host);
    }
    if forall m | 0 <= m < n && Landed(s, items, m, force, filter, host) :: !Crosses(items[n], items[m]) {
      MainBefore(s, items, n, force, filter, host);
      ExistingBy(s, Before(s, items, n, force, filter, host).store, items[n]);
    }
  }

  /** Whether an entry is there depends on its main key. */
  lemma ExistingBy(a: Store, b: Store, i: Item)
    requires SameAt(a, b, MainKey(i))
    ensures Existing(a, i) <==> Existing(b, i)
  {
    hide MainKey;
  }

  // ----- Failing -----

  /** A restore raises exactly when some stream it is to write has an entry XADD does not take. */
  lemma {:induction false} FailsIff(s: Store, items: seq<Item>, force: bool, filter: string, host: Host)
    requires Distinct(items)
    ensures Apply(s, items, force, filter, host).failed <==> !AllWritable(s, items, force, filter, host)
  {
    if items == [] {
      NothingApplied(s, force, filter, host);
    } else {
      hide Apply, Chosen, Writable, Landed, SameEntry;
      var p := |items| - 1;
      FailsIff(s, items[..p], force, filter, host);
      LastFails(s, items, force, filter, host);
      StreamVerdict(s, items, force, filter, host);
      WritableSnoc(s, items, force, filter, host);
    }
  }

  lemma LastFails(s: Store, items: seq<Item>, force: bool, filter: string, host: Host)
    requires items != []
    ensures var n := |items| - 1;
            Apply(s, items, force, filter, host).failed
            <==> Apply(s, items[..n], force, filter, host).failed
                 || (Landed(s, items, n, force, filter, host) && !Writable(items[n], host))
  {
    hide VerdictFor, Written, Writable, SectionOf, NameOf;
    LastStep(s, items, force, filter, host);
  }

  /** Nothing poses as the key of a stream, so its verdict is that of the store at the start. */
  lemma StreamVerdict(s: Store, items: seq<Item>, force: bool, filter: string, host: Host)
    requires items != [] && Distinct(items)
    ensures var n := |items| - 1;
            !Writable(items[n], host) && !Before(s, items, n, force, filter, host).failed ==>
              (Landed(s, items, n, force, filter, host) <==> Chosen(s, items[n], force, filter))
  {
    hide Apply, VerdictFor, SameEntry, Distinct;
    var n := |items| - 1;
    if !Writable(items[n], host) {
      assert forall m | 0 <= m < n :: !Crosses(items[n], items[m]);
      VerdictIs(s, items, n, force, filter, host);
    }
  }

  lemma WritableSnoc(s: Store, items: seq<Item>, force: bool, filter: string, host: Host)
    requires items != []
    ensures var n := |items| - 1;
            AllWritable(s, items, force, filter, host)
            <==> AllWritable(s, items[..n], force, filter, host)
                 && (Chosen(s, items[n], force, filter) ==> Writable(items[n], host))
  {
    hide Chosen, Writable;
    var n := |items| - 1;
    forall m | 0 <= m < n ensures items[..n][m] == items[m] {}
  }

  // ----- What a restore does, for any envelope -----

  /** The verdict on every entry, from the store before the restore and the entries alone: an entry that poses as the
      flag of an earlier one, which is written, finds what that one's flag says. */
  ghost function Foretold(s: Store, items: seq<Item>, n: nat, force: bool, filter: string): (v: Verdict)
    requires n < |items|
    decreases n
  {
    if exists m :: 0 <= m < n && Crosses(items[n], items[m]) && Lands(Foretold(s, items, m, force, filter)) then
      var m :| 0 <= m < n && Crosses(items[n], items[m]) && Lands(Foretold(s, items, m, force, filter));
      FlaggedVerdict(items[n], items[m].value.encrypted, force, filter)
    else VerdictFor(s, items[n], force, filter)
  }

  ghost function Report(s: Store, items: seq<Item>, force: bool, filter: string): (ls: seq<Line>)
    ensures |ls| == |items|
  {
    seq(|items|, n requires 0 <= n < |items| =>
      Line(SectionOf(items[n]), NameOf(items[n]), Foretold(s, items, n, force, filter)))
  }

  /** Entry `n` is the last to write the key. */
  ghost predicate WritesLast(s: Store, items: seq<Item>, n: nat, force: bool, filter: string, k: string)
    requires n < |items|
  {
    && Lands(Foretold(s, items, n, force, filter)) && Touches(items[n], k)
    && forall m | n < m < |items| && Lands(Foretold(s, items, m, force, filter)) :: !Touches(items[m], k)
  }

  ghost predicate NoneWrites(s: Store, items: seq<Item>, force: bool, filter: string, k: string)
  {
    forall n | 0 <= n < |items| && Lands(Foretold(s, items, n, force, filter)) :: !Touches(items[n], k)
  }

  /** Under every key the store has what the last entry written there writes, and elsewhere what it had. */
  ghost predicate Result(s: Store, items: seq<Item>, force: bool, filter: string, host: Host, after: Store)
  {
    && (forall n: nat, k: string | n < |items| && WritesLast(s, items, n, force, filter, k) ::
          SameAt(Written(s, items[n], host), after, k))
    && (forall k: string | NoneWrites(s, items, force, filter, k) :: SameAt(s, after, k))
  }

  /** What is foretold of an entry is its verdict when its turn comes. */
  lemma {:induction false} ForetoldIs(s: Store, items: seq<Item>, n: nat, force: bool, filter: string, host: Host)
    requires n < |items| && Distinct(items) && !Before(s, items, n, force, filter, host).failed
    ensures Foretold(s, items, n, force, filter)
            == VerdictFor(Before(s, items, n, force, filter, host).store, items[n], force, filter)
    ensures Lands(Foretold(s, items, n, force, filter)) == Landed(s, items, n, force, filter, host)
    decreases n
  {
    hide Apply, Before, VerdictFor, FlaggedVerdict, Crosses, Distinct, Lands;
    forall m: nat | m < n
      ensures Lands(Foretold(s, items, m, force, filter)) == Landed(s, items, m, force, filter, host)
    {
      EarlierNotFailed(s, items, m, n, force, filter, host);
      ForetoldIs(s, items, m, force, filter, host);
    }
    VerdictIs(s, items, n, force, filter, host);
    LandedIs(s, items, n, force, filter, host);
  }

  lemma LandedIs(s: Store, items: seq<Item>, n: nat, force: bool, filter: string, host: Host)
    requires n < |items|
    ensures var o := Before(s, items, n, force, filter, host);
            Landed(s, items, n, force, filter, host)
            <==> !o.failed && Lands(VerdictFor(o.store, items[n], force, filter))
  {
    hide Before, VerdictFor;
  }

  lemma EarlierNotFailed(s: Store, items: seq<Item>, m: nat, n: nat, force: bool, filter: string, host: Host)
    requires m <= n <= |items| && !Before(s, items, n, force, filter, host).failed
    ensures !Before(s, items, m, force, filter, host).failed
  {
    hide Apply;
    var o, mid := Outcome(s, [], false), items[m..n];
    assert items[..n] == items[..m] + mid;
    BeforeIs(s, items, m, force, filter, host);
    BeforeIs(s, items, n, force, filter, host);
    ApplyIs(s, items[..m], force, filter, host);
    ApplyIs(s, items[..n], force, filter, host);
    ApplyConcat(o, items[..m], mid, force, filter, host);
    if Before(s, items, m, force, filter, host).failed {
      FailedStays(ApplyFrom(o, items[..m], force, filter, host), mid, force, filter, host);
    }
  }

  lemma ApplyIs(s: Store, items: seq<Item>, force: bool, filter: string, host: Host)
    ensures Apply(s, items, force, filter, host) == ApplyFrom(Outcome(s, [], false), items, force, filter, host)
  {
    hide ApplyFrom;
  }

  /** A restore of any envelope, in either mode and under any filter, unless it is to write a stream XADD does not take:
      the report has one line for each entry, in order, with the verdict foretold, and the store is what it says. */
  lemma ApplyEffect(s: Store, items: seq<Item>, force: bool, filter: string, host: Host)
    requires Distinct(items) && AllWritable(s, items, force, filter, host)
    ensures var o := Apply(s, items, force, filter, host);
            && !o.failed && o.report == Report(s, items, force, filter)
            && Result(s, items, force, filter, host, o.store)
  {
    hide *;
    FailsIff(s, items, force, filter, host);
    ReportIsForetold(s, items, force, filter, host);
    ResultIsForetold(s, items, force, filter, host);
  }

  lemma ReportIsForetold(s: Store, items: seq<Item>, force: bool, filter: string, host: Host)
    requires Distinct(items) && !Apply(s, items, force, filter, host).failed
    ensures Apply(s, items, force, filter, host).report == Report(s, items, force, filter)
  {
    hide Apply, Before, VerdictFor, Foretold, SectionOf, NameOf, Distinct, Landed;
    ReportInOrder(s, items, force, filter, host, 0);
    forall n | 0 <= n < |items|
      ensures Apply(s, items, force, filter, host).report[n] == Report(s, items, force, filter)[n]
    {
      ReportInOrder(s, items, force, filter, host, n);
      ForetoldIs(s, items, n, force, filter, host);
    }
  }

  lemma ResultIsForetold(s: Store, items: seq<Item>, force: bool, filter: string, host: Host)
    requires Distinct(items) && !Apply(s, items, force, filter, host).failed
    ensures Result(s, items, force, filter, host, Apply(s, items, force, filter, host).store)
  {
    hide Apply, Before, VerdictFor, Foretold, Distinct, Landed, Touches, Written, SameAt, Lands;
    var after := Apply(s, items, force, filter, host).store;
    forall n: nat | n < |items|
      ensures Lands(Foretold(s, items, n, force, filter)) == Landed(s, items, n, force, filter, host)
    {
      ReportInOrder(s, items, force, filter, host, n);
      ForetoldIs(s, items, n, force, filter, host);
    }
    forall n: nat, k: string | n < |items| && WritesLast(s, items, n, force, filter, k)
      ensures SameAt(Written(s, items[n], host), after, k)
    {
      LastWriter(s, items, n, force, filter, host, k);
      var mid := Before(s, items, n, force, filter, host).store;
      WrittenSame(s, mid, items[n], host, k);
      SameTrans(Written(s, items[n], host), Written(mid, items[n], host), after, k);
    }
    forall k: string | NoneWrites(s, items, force, filter, k) ensures SameAt(s, after, k) {
      NoneLanded(s, items, force, filter, host, k);
    }
  }

  // ----- Without force -----

  /** No entry written poses as the value of `i`'s own key. */
  predicate NoneBehind(s: Store, items: seq<Item>, filter: string, host: Host, i: Item)
  {
    forall n | 0 <= n < |items| && Landed(s, items, n, false, filter, host) :: !Crosses(i, items[n])
  }

  predicate FlagLanded(s: Store, items: seq<Item>, filter: string, host: Host, i: Item)
  {
    exists n :: 0 <= n < |items| && Landed(s, items, n, false, filter, host) && Crosses(items[n], i)
  }

  lemma {:induction false} ExistingKeeps(s: Store, items: seq<Item>, filter: string, host: Host, i: Item)
    requires Existing(s, i) && NoneBehind(s, items, filter, host, i)
    ensures var after := Apply(s, items, false, filter, host).store;
            && SameAt(s, after, MainKey(i))
            && (SameAt(s, after, SideKey(i)) || (SideKey(i) !in s && FlagLanded(s, items, filter, host, i)))
  {
    if items == [] {
      NothingApplied(s, false, filter, host);
    } else {
      hide Apply, Before, Landed, Touches, Step, SameAt, Existing, MainKey, SideKey, Crosses, NoneBehind, FlagLanded;
      var p := |items| - 1;
      WithoutLast(s, items, filter, host, i);
      ExistingKeeps(s, items[..p], filter, host, i);
      BeforeIs(s, items, p, false, filter, host);
      LastStep(s, items, false, filter, host);
      if Landed(s, items, p, false, filter, host) {
        LandedSpares(s, items, filter, host, i);
      }
    }
  }

  lemma WithoutLast(s: Store, items: seq<Item>, filter: string, host: Host, i: Item)
    requires items != [] && NoneBehind(s, items, filter, host, i)
    ensures NoneBehind(s, items[..|items| - 1], filter, host, i)
    ensures FlagLanded(s, items[..|items| - 1], filter, host, i) ==> FlagLanded(s, items, filter, host, i)
    ensures Landed(s, items, |items| - 1, false, filter, host) ==> !Crosses(i, items[|items| - 1])
  {
    hide Before, Landed, Crosses;
    var p := |items| - 1;
    forall n | 0 <= n < p
      ensures Landed(s, items[..p], n, false, filter, host) == Landed(s, items, n, false, filter, host)
      ensures items[..p][n] == items[n] {
      LandedPrefix(s, items, p, n, false, filter, host);
    }
  }

  /** The last entry, if it is written, does not touch what an existing record has. */
  lemma LandedSpares(s: Store, items: seq<Item>, filter: string, host: Host, i: Item)
    requires items != [] && Existing(s, i) && Landed(s, items, |items| - 1, false, filter, host)
    requires !Crosses(i, items[|items| - 1])
    requires var mid := Before(s, items, |items| - 1, false, filter, host).store;
             && SameAt(s, mid, MainKey(i))
             && (SameAt(s, mid, SideKey(i)) || (SideKey(i) !in s && FlagLanded(s, items, filter, host, i)))
    ensures var after := Apply(s, items, false, filter, host).store;
            && SameAt(s, after, MainKey(i))
            && (SameAt(s, after, SideKey(i)) || (SideKey(i) !in s && FlagLanded(s, items, filter, host, i)))
  {
    hide Apply, Step, SameAt, Existing, MainKey, SideKey, Before, Touches, SameEntry, Written, Refused, Crosses;
    var p := |items| - 1;
    var mid, j := Before(s, items, p, false, filter, host).store, items[p];
    var after := Written(mid, j, host);
    LastStep(s, items, false, filter, host);
    ExistingBy(s, mid, i);
    TouchesIff(i, j);
    assert !SameEntry(i, j) by {
      if SameEntry(i, j) {
        SameEntryExists(mid, i, j);
      }
    }
    WrittenElsewhere(mid, j, host, MainKey(i));
    SameTrans(s, mid, after, MainKey(i));
    if Crosses(j, i) {
      assert FlagLanded(s, items, filter, host, i);
      if SideKey(i) in s {
        FlagExists(s, mid, i, j);
      }
    } else {
      WrittenElsewhere(mid, j, host, SideKey(i));
      if SameAt(s, mid, SideKey(i)) {
        SameTrans(s, mid, after, SideKey(i));
      }
    }
  }

  lemma FlagExists(s: Store, mid: Store, i: Item, j: Item)
    requires Crosses(j, i) && SideKey(i) in s && SameAt(s, mid, SideKey(i))
    ensures Existing(mid, j)
  {
    KvKeysApart(j.key, i.key);
  }

  lemma SameEntryExists(s: Store, i: Item, j: Item)
    requires SameEntry(i, j)
    ensures Existing(s, i) == Existing(s, j)
  {}

  /** Without force, whatever the envelope holds and wherever the restore ends: the keys of an existing record are as
      they were, unless the record is itself the flag of a value that is written, or has no flag and a value that
      poses as its flag is written. */
  lemma ExistingStays(s: Store, items: seq<Item>, filter: string, host: Host, i: Item, k: string)
    requires Existing(s, i) && Touches(i, k)
    ensures var after := Apply(s, items, false, filter, host).store;
            || SameAt(s, after, k)
            || (exists n :: 0 <= n < |items| && Landed(s, items, n, false, filter, host) && Crosses(i, items[n]))
            || (k == SideKey(i) && k !in s && FlagLanded(s, items, filter, host, i))
  {
    hide Apply, Landed, SameAt, Existing, MainKey, SideKey, Crosses;
    if NoneBehind(s, items, filter, host, i) {
      ExistingKeeps(s, items, filter, host, i);
    }
  }

  /** An entry of the envelope, not refused, that poses as the flag of `x`. */
  predicate FlagPosted(items: seq<Item>, filter: string, x: string)
  {
    exists n :: 0 <= n < |items| && items[n].Kv? && items[n].key == x + ENC && !Refused(items[n], filter)
  }

  /** The exact effect of a restore without force on an existing value: its own key stays; its flag stays if it has one;
      if it has none, it gets one exactly if an entry that is not refused poses as its flag. */
  lemma FlagAppearsIff(s: Store, items: seq<Item>, filter: string, host: Host, x: string)
    requires KvKey(x) in s && !EndsWith(x, ENC) && !Apply(s, items, false, filter, host).failed
    ensures var after := Apply(s, items, false, filter, host).store;
            && SameAt(s, after, KvKey(x))
            && (EncKey(x) in s ==> SameAt(s, after, EncKey(x)))
            && (EncKey(x) !in s ==> (EncKey(x) in after <==> FlagPosted(items, filter, x)))
  {
    hide Apply, SameAt, KvKey, EncKey, EndsWith, FlagPosted, Landed;
    var i := Kv(x, KvRecord([], false));
    forall n | 0 <= n < |items| ensures !Crosses(i, items[n]) {
      NoSidecarsCross(i, items[n]);
    }
    ExistingKeeps(s, items, filter, host, i);
    var after := Apply(s, items, false, filter, host).store;
    SameMembership(s, after, KvKey(x));
    if FlagPosted(items, filter, x) {
      PostedFlagLands(s, items, filter, host, x);
    }
    if EncKey(x) !in s && EncKey(x) in after {
      assert !SameAt(s, after, EncKey(x)) by { SameMembership(s, after, EncKey(x)); }
      LandedIsPosted(s, items, filter, host, x);
    }
  }

  lemma LandedIsPosted(s: Store, items: seq<Item>, filter: string, host: Host, x: string)
    requires FlagLanded(s, items, filter, host, Kv(x, KvRecord([], false)))
    ensures FlagPosted(items, filter, x)
  {
    hide Apply;
    var n :| 0 <= n < |items| && Landed(s, items, n, false, filter, host)
             && Crosses(items[n], Kv(x, KvRecord([], false)));
  }

  /** Once an existing value has a flag, it keeps one; and a posted flag is there when its turn is over. */
  lemma {:induction false} PostedFlagLands(s: Store, items: seq<Item>, filter: string, host: Host, x: string)
    requires KvKey(x) in s && !EndsWith(x, ENC) && !Apply(s, items, false, filter, host).failed
    requires FlagPosted(items, filter, x)
    ensures EncKey(x) in Apply(s, items, false, filter, host).store
  {
    hide Apply, KvKey, EncKey, EndsWith, Landed, SameAt, Before, Step, Refused;
    var p := |items| - 1;
    LastStep(s, items, false, filter, host);
    LastFails(s, items, false, filter, host);
    BeforeIs(s, items, p, false, filter, host);
    var mid := Before(s, items, p, false, filter, host).store;
    var n :| 0 <= n < |items| && items[n].Kv? && items[n].key == x + ENC && !Refused(items[n], filter);
    if n < p {
      assert items[..p][n] == items[n];
      PostedFlagLands(s, items[..p], filter, host, x);
      ValueStays(s, items[..p], filter, host, x);
      FlagStays(s, items, filter, host, x);
    } else {
      FlagNow(s, items, filter, host, x);
    }
  }

  lemma ValueStays(s: Store, items: seq<Item>, filter: string, host: Host, x: string)
    requires KvKey(x) in s && !EndsWith(x, ENC)
    ensures KvKey(x) in Apply(s, items, false, filter, host).store
  {
    hide Apply, SameAt, KvKey, EncKey, EndsWith, Landed;
    var i := Kv(x, KvRecord([], false));
    forall n | 0 <= n < |items| ensures !Crosses(i, items[n]) {
      NoSidecarsCross(i, items[n]);
    }
    ExistingKeeps(s, items, filter, host, i);
    SameMembership(s, Apply(s, items, false, filter, host).store, KvKey(x));
  }

  lemma FlagStays(s: Store, items: seq<Item>, filter: string, host: Host, x: string)
    requires items != [] && !EndsWith(x, ENC)
    requires var mid := Before(s, items, |items| - 1, false, filter, host).store; KvKey(x) in mid && EncKey(x) in mid
    ensures EncKey(x) in Apply(s, items, false, filter, host).store
  {
    hide Apply, SameAt, Before, Step, Written, EndsWith, Refused, KvKey, EncKey, Touches;
    var p := |items| - 1;
    var mid, i, j := Before(s, items, p, false, filter, host).store, Kv(x, KvRecord([], false)), items[p];
    LastStep(s, items, false, filter, host);
    if Landed(s, items, p, false, filter, host) {
      TouchesIff(i, j);
      if Touches(j, EncKey(x)) {
        KvKeysApart(x + ENC, x);
      } else {
        WrittenElsewhere(mid, j, host, EncKey(x));
        SameMembership(mid, Written(mid, j, host), EncKey(x));
      }
    }
  }

  lemma FlagNow(s: Store, items: seq<Item>, filter: string, host: Host, x: string)
    requires items != [] && !Before(s, items, |items| - 1, false, filter, host).failed
    requires items[|items| - 1].Kv? && items[|items| - 1].key == x + ENC && !Refused(items[|items| - 1], filter)
    ensures EncKey(x) in Apply(s, items, false, filter, host).store
  {
    hide Apply, Before, Step, Refused;
    var p := |items| - 1;
    LastStep(s, items, false, filter, host);
    KvKeysApart(x + ENC, x);
    SideIsOther(x + ENC);
  }

  /** A value that poses as a sidecar can flip the encryption flag of an existing value, without force. */
  lemma SidecarFlips(host: Host)
    ensures var s: Store := map[KvKey("x") := Bin([1])];
            var items := [Kv("x" + ENC, KvRecord([7], false))];
            var after := Apply(s, items, false, "", host).store;
            Existing(s, Kv("x", KvRecord([1], false))) && EncKey("x") !in s && EncKey("x") in after
  {
    var s: Store := map[KvKey("x") := Bin([1])];
    var i := Kv("x" + ENC, KvRecord([7], false));
    ApplyOne(Outcome(s, [], false), i, false, "", host);
    SideIsOther("x");
    SideIsOther("x" + ENC);
  }

  // ----- The sandbox of a per-app restore -----

  /** With a filter, whatever the envelope holds and wherever the restore ends, only keys of entries that belong to the
      app change; the log is no app's. */
  lemma OnlyTheAppChanges(s: Store, items: seq<Item>, force: bool, app: string, host: Host, k: string)
    requires app != "" && !SameAt(s, Apply(s, items, force, app, host).store, k)
    ensures k == LOG_KEY
            || exists n :: 0 <= n < |items| && Touches(items[n], k) && Belongs(items[n], app) && !items[n].Log?
  {
    hide SameAt, Touches, Belongs, Existing, Apply;
    if forall n | 0 <= n < |items| && Landed(s, items, n, force, app, host) :: !Touches(items[n], k) {
      NoneLanded(s, items, force, app, host, k);
    } else {
      var n :| 0 <= n < |items| && Landed(s, items, n, force, app, host) && Touches(items[n], k);
      if items[n].Log? {
        LogTouches(items[n], k);
      }
    }
  }

  lemma LogTouches(i: Item, k: string)
    requires i.Log? && Touches(i, k)
    ensures k == LOG_KEY
  {}
}
