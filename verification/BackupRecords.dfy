/** What the keys, the verdicts and the streams of a restore are, and what goes into a dump, in plain terms. */
module BackupRecords {
  import opened Bytes
  import opened BackupFormat
  import opened BackupStore
  import opened BackupCollect

  // ----- Where an entry lies -----

  /** The keys of an entry, in full. */
  lemma KeysAre(i: Item)
    ensures match i
            case Client(id, _) => MainKey(i) == "client:" + id + ":secret" && SideKey(i) == "client:" + id + ":acl"
            case Admin(user, _) => MainKey(i) == SideKey(i) == "admin_acls:" + user
            case Kv(key, _) => MainKey(i) == "kv:" + key && SideKey(i) == "kv:" + key + ":enc"
            case Queue(topic, _) => MainKey(i) == SideKey(i) == "q:" + topic
            case Device(id, _) => MainKey(i) == SideKey(i) == "device_to_app:" + id
            case Log(_) => MainKey(i) == SideKey(i) == "system:activity_log"
  {
    match i
    case Client(id, _) =>
      assert "client:" + (id + ":secret") == "client:" + id + ":secret";
      assert "client:" + (id + ":acl") == "client:" + id + ":acl";
    case Kv(key, _) => assert "kv:" + (key + ":enc") == "kv:" + key + ":enc";
    case _ =>
  }

  /** Texts count as there unless they are empty; values and streams count as there as soon as the key exists. */
  predicate There(s: Store, i: Item)
  {
    match i
    case Client(id, _) => Filled(s, "client:" + id + ":secret")
    case Admin(user, _) => Filled(s, "admin_acls:" + user)
    case Kv(key, _) => "kv:" + key in s
    case Queue(topic, _) => "q:" + topic in s
    case Device(id, _) => Filled(s, "device_to_app:" + id)
    case Log(_) => "system:activity_log" in s
  }

  predicate Filled(s: Store, k: string) { k in s && s[k] != Chars("") && s[k] != Bin([]) }

  lemma ExistingIff(s: Store, i: Item)
    ensures Existing(s, i) <==> There(s, i)
  {
    KeysAre(i);
  }

  // ----- What XADD takes -----

  /** The entry may follow those before it: it has fields, and its id ranks above theirs and above zero. */
  predicate MayFollow(host: Host, es: seq<StreamEntry>, n: nat)
    requires n < |es|
  {
    es[n].fields != [] && host.rank(es[n].id) > 0 && (n > 0 ==> host.rank(es[n].id) > host.rank(es[n - 1].id))
  }

  lemma LastTaken(host: Host, es: seq<StreamEntry>)
    requires es != []
    requires var front := es[..|es| - 1]; Added(host, front) == front && (front != [] ==> LastRank(host, front) > 0)
    ensures Added(host, es) == if MayFollow(host, es, |es| - 1) then es else es[..|es| - 1]
  {
    assert es[..|es| - 1] + [es[|es| - 1]] == es;
  }

  lemma LastLeft(host: Host, es: seq<StreamEntry>)
    requires es != [] && |Added(host, es[..|es| - 1])| < |es| - 1
    ensures Added(host, es) == Added(host, es[..|es| - 1])
  {}

  lemma SameBefore(host: Host, es: seq<StreamEntry>)
    requires es != []
    ensures forall n | 0 <= n < |es| - 1 :: MayFollow(host, es, n) <==> MayFollow(host, es[..|es| - 1], n)
  {}

  lemma NoneTaken(host: Host)
    ensures Added(host, []) == []
  {}

  /** A stream gets its entries in order, up to the first that may not follow. */
  lemma {:induction false} AddedIs(host: Host, es: seq<StreamEntry>)
    ensures var r := Added(host, es);
            && r <= es && (forall n | 0 <= n < |r| :: MayFollow(host, es, n))
            && (|r| < |es| ==> !MayFollow(host, es, |r|))
  {
    hide Added, MayFollow;
    if es == [] {
      NoneTaken(host);
    } else {
      var front := es[..|es| - 1];
      AddedIs(host, front);
      SameBefore(host, es);
      if |Added(host, front)| == |front| {
        Positive(host, front);
        LastTaken(host, es);
      } else {
        LastLeft(host, es);
      }
    }
  }

  lemma Positive(host: Host, es: seq<StreamEntry>)
    requires forall n | 0 <= n < |es| :: MayFollow(host, es, n)
    ensures es != [] ==> LastRank(host, es) > 0
  {
    assert es != [] ==> MayFollow(host, es, |es| - 1);
  }

  // ----- What one entry does -----

  /**
   One turn of the restore: a refused entry and one that is there already, without force, leave the store; any other
   ends up in the store as it stands in the envelope, every other key as before, and is reported as overwritten exactly
   if it was there. A stream with an entry XADD refuses raises, unreported, with what was added until then.
   */
  lemma StepMeans(o: Outcome, i: Item, force: bool, filter: string, host: Host)
    requires !o.failed
    ensures var r := Step(o, i, force, filter, host);
            if filter != "" && !OwnedBy(i, filter) then
              r == Outcome(o.store, o.report + [Line(SectionOf(i), NameOf(i), Rejected)], false)
            else if There(o.store, i) && !force then
              r == Outcome(o.store, o.report + [Line(SectionOf(i), NameOf(i), Skipped)], false)
            else if Writable(i, host) then
              && Holds(r.store, i, host) && (forall k | !Touches(i, k) :: SameAt(o.store, r.store, k))
              && !r.failed
              && r.report == o.report + [Line(SectionOf(i), NameOf(i),
                                              if There(o.store, i) then Overwritten else Restored)]
            else
              && r.failed && r.report == o.report && (forall k | !Touches(i, k) :: SameAt(o.store, r.store, k))
              && HoldsStream(r.store, MainKey(i), Added(host, if i.Queue? then i.entries else i.log))
  {
    hide SecretKey, AclKey, KvKey, EncKey, AdminKey, QueueKey, DeviceKey, Added, OwnedBy, Holds, There, Existing,
         Written, Belongs, Touches, SameAt, Writable;
    if filter != "" {
      BelongsIff(i, filter);
    }
    ExistingIff(o.store, i);
    forall k | !Touches(i, k) ensures SameAt(o.store, Written(o.store, i, host), k) {
      WrittenElsewhere(o.store, i, host, k);
    }
    if Writable(i, host) {
      WrittenHolds(o.store, i, host);
    } else {
      BrokenStream(o.store, i, host);
    }
  }

  /** A value's flag is the byte `1` beside it, and stays away if the value is not encrypted. */
  lemma FlagIs(s: Store, key: string, v: KvRecord, host: Host)
    ensures var r, enc := Written(s, Kv(key, v), host), "kv:" + key + ":enc";
            if v.encrypted then enc in r && r[enc] == Bin(['1' as int]) else enc !in r
  {
    hide KvKey, EncKey;
    KeysAre(Kv(key, v));
    SideIsOther(key);
  }

  lemma BrokenStream(s: Store, i: Item, host: Host)
    requires !Writable(i, host)
    ensures i.Queue? || i.Log?
    ensures HoldsStream(Written(s, i, host), MainKey(i), Added(host, if i.Queue? then i.entries else i.log))
  {
    hide QueueKey, Added;
  }

  // ----- What an envelope holds -----

  /** Sections come in the order of the restore, each in its own order. */
  lemma ItemsInOrder(e: Envelope, n: nat)
    requires n < |Items(e)|
    ensures var c, a, k, q, d := |e.clients|, |e.adminAcls|, |e.kv|, |e.queues|, |e.deviceToApp|;
            if n < c then Items(e)[n] == Client(e.clients[n].0, e.clients[n].1)
            else if n < c + a then Items(e)[n] == Admin(e.adminAcls[n - c].0, e.adminAcls[n - c].1)
            else if n < c + a + k then Items(e)[n] == Kv(e.kv[n - c - a].0, e.kv[n - c - a].1)
            else if n < c + a + k + q then Items(e)[n] == Queue(e.queues[n - c - a - k].0, e.queues[n - c - a - k].1)
            else if n < c + a + k + q + d then
              Items(e)[n] == Device(e.deviceToApp[n - c - a - k - q].0, e.deviceToApp[n - c - a - k - q].1)
            else n == c + a + k + q + d && e.activityLog == Some(Items(e)[n].log) && Items(e)[n].Log?
  {
    hide MakeAll;
  }

  // ----- What a dump says of itself -----

  /** The head of a dump and its log; other sections are left to the keys. */
  lemma DumpHead(s: Store, keys: seq<string>, app: Option<string>, logs: bool, now: string, host: Host)
    ensures var e := Collected(s, keys, app, logs, now, host);
            && e.exportedAt == Text(now)
            && (app.None? ==> e.kind == "whole" && e.app == Null)
            && (app.Some? ==> e.kind == "per-app" && e.app == Text(app.value))
            && (e.activityLog.Some? <==> logs)
            && (logs && app.None? && "system:activity_log" in s && s["system:activity_log"].Stream?
                ==> e.activityLog == Some(s["system:activity_log"].entries))
  {
    hide FilterMap, LogOf;
  }

  /** The log of a per-app dump keeps the order of the entries. */
  lemma {:induction false} LogInOrder(a: seq<StreamEntry>, b: seq<StreamEntry>, clients: Dict<ClientRecord>, host: Host)
    ensures LogOf(a + b, clients, host) == LogOf(a, clients, host) + LogOf(b, clients, host)
  {
    hide FieldAt;
    if b == [] {
      assert a + b == a;
    } else {
      LogInOrder(a, b[..|b| - 1], clients, host);
      assert (a + b)[..|a + b| - 1] == a + b[..|b| - 1];
    }
  }

  /** A field that an entry lacks reads as empty. */
  lemma {:induction false} FieldIs(d: Dict<seq<byte>>, key: string)
    ensures match Get(d, key) case None => FieldAt(d, key) == [] case Some(b) => FieldAt(d, key) == b
  {
    if d != [] {
      FieldIs(d[1..], key);
    }
  }
}
