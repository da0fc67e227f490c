/** Restoring the same envelope a second time: when it changes nothing more, and what it changes otherwise. */
module BackupTwice {
  import opened Bytes
  import opened BackupFormat
  import opened BackupStore

  // ----- With force -----

  predicate TouchedBy(s: Store, items: seq<Item>, filter: string, host: Host, k: string)
  {
    exists n :: 0 <= n < |items| && Landed(s, items, n, true, filter, host) && Touches(items[n], k)
  }

  /** From any two stores a forced restore writes the same entries, and leaves the same under every key they touch. */
  lemma {:induction false} ForcedAgree(a: Store, b: Store, items: seq<Item>, filter: string, host: Host, k: string)
    ensures var x, y := Apply(a, items, true, filter, host), Apply(b, items, true, filter, host);
            && x.failed == y.failed
            && (SameAt(a, b, k) || TouchedBy(a, items, filter, host, k) ==> SameAt(x.store, y.store, k))
  {
    if items == [] {
      NothingApplied(a, true, filter, host);
      NothingApplied(b, true, filter, host);
    } else {
      hide Apply, Before, Touches, Step, SameAt, Written, Refused, Existing, Writable, TouchedBy, Landed;
      var p := |items| - 1;
      ForcedAgree(a, b, items[..p], filter, host, k);
      ForcedLanding(a, items, filter, host);
      ForcedLanding(b, items, filter, host);
      LastTouch(a, items, filter, host, k);
      var m, n := Apply(a, items[..p], true, filter, host).store, Apply(b, items[..p], true, filter, host).store;
      if Landed(a, items, p, true, filter, host) {
        if Touches(items[p], k) {
          WrittenSame(m, n, items[p], host, k);
        } else {
          BothElsewhere(m, n, items[p], host, k);
        }
      }
    }
  }

  lemma ForcedLanding(a: Store, items: seq<Item>, filter: string, host: Host)
    requires items != []
    ensures var p, o := |items| - 1, Apply(a, items[..|items| - 1], true, filter, host);
            && Landed(a, items, p, true, filter, host) == (!o.failed && !Refused(items[p], filter))
            && Apply(a, items, true, filter, host).failed
               == (o.failed || (Landed(a, items, p, true, filter, host) && !Writable(items[p], host)))
            && Apply(a, items, true, filter, host).store
               == if Landed(a, items, p, true, filter, host) then Written(o.store, items[p], host) else o.store
  {
    hide Apply, Step, Refused, Existing, Writable, Written;
    LastStep(a, items, true, filter, host);
    LastFails(a, items, true, filter, host);
  }

  lemma LastTouch(a: Store, items: seq<Item>, filter: string, host: Host, k: string)
    requires items != []
    ensures var p := |items| - 1;
            TouchedBy(a, items, filter, host, k)
            <==> TouchedBy(a, items[..p], filter, host, k)
                 || (Landed(a, items, p, true, filter, host) && Touches(items[p], k))
  {
    hide Apply, Before, Touches, Landed;
    var p := |items| - 1;
    forall n | 0 <= n < p
      ensures Landed(a, items[..p], n, true, filter, host) == Landed(a, items, n, true, filter, host)
      ensures items[..p][n] == items[n] {
      LandedPrefix(a, items, p, n, true, filter, host);
    }
  }

  lemma BothElsewhere(a: Store, b: Store, i: Item, host: Host, k: string)
    requires !Touches(i, k)
    ensures SameAt(a, b, k) ==> SameAt(Written(a, i, host), Written(b, i, host), k)
  {
    hide Written, Touches;
    WrittenElsewhere(a, i, host, k);
    WrittenElsewhere(b, i, host, k);
  }

  lemma SameMaps(a: Store, b: Store)
    requires forall k: string :: SameAt(a, b, k)
    ensures a == b
  {
    forall k: string ensures (k in a <==> k in b) && (k in a ==> a[k] == b[k]) {
      assert SameAt(a, b, k);
    }
  }

  /** With force, restoring any envelope twice is restoring it once, and raises the second time if it did the first. */
  lemma ForcedTwice(s: Store, items: seq<Item>, filter: string, host: Host)
    ensures var once := Apply(s, items, true, filter, host);
            var twice := Apply(once.store, items, true, filter, host);
            twice.store == once.store && twice.failed == once.failed
  {
    hide Apply, SameAt, Landed, Touches;
    var once := Apply(s, items, true, filter, host);
    var twice := Apply(once.store, items, true, filter, host);
    forall k: string ensures SameAt(once.store, twice.store, k) {
      ForcedAgree(s, once.store, items, filter, host, k);
      if !TouchedBy(s, items, filter, host, k) {
        NoneLanded(s, items, true, filter, host, k);
      }
    }
    ForcedAgree(s, once.store, items, filter, host, "");
    SameMaps(once.store, twice.store);
  }

  // ----- Without force -----

  /** Entry `m` poses as the flag of entry `n`, which comes later, is written, and has no flag. */
  predicate Clears(s: Store, items: seq<Item>, m: nat, n: nat, filter: string, host: Host)
    requires m < |items| && n < |items|
  {
    && m < n && Crosses(items[m], items[n]) && !Refused(items[m], filter)
    && Landed(s, items, n, false, filter, host) && !items[n].value.encrypted
  }

  ghost predicate SomeClear(s: Store, items: seq<Item>, filter: string, host: Host)
  {
    exists m: nat, n: nat :: m < |items| && n < |items| && Clears(s, items, m, n, filter, host)
  }

  ghost predicate ClearedBehind(s: Store, items: seq<Item>, m: nat, filter: string, host: Host)
    requires m < |items|
  {
    exists n: nat :: n < |items| && Clears(s, items, m, n, filter, host)
  }

  lemma DistinctAt(items: seq<Item>, m: nat, n: nat)
    requires m < |items| && n < |items| && Distinct(items) && SameEntry(items[m], items[n])
    ensures m == n
  {
    SameEntrySym(items[m], items[n]);
  }

  /** No entry of a run that succeeds finds it failed. */
  lemma NotFailedBefore(s: Store, items: seq<Item>, n: nat, force: bool, filter: string, host: Host)
    requires n <= |items| && !Apply(s, items, force, filter, host).failed
    ensures !Before(s, items, n, force, filter, host).failed
  {
    hide Apply;
    if n < |items| {
      ReportInOrder(s, items, force, filter, host, n);
    } else {
      assert items[..n] == items;
    }
  }

  /** After the turn of a value that is not refused, its key is in the store. */
  lemma KvPresent(s: Store, items: seq<Item>, n: nat, filter: string, host: Host)
    requires n < |items| && !Apply(s, items, false, filter, host).failed
    requires items[n].Kv? && !Refused(items[n], filter)
    ensures MainKey(items[n]) in Before(s, items, n + 1, false, filter, host).store
  {
    hide Apply, Refused, KvKey, EncKey, Step;
    NotFailedBefore(s, items, n, false, filter, host);
    var ps := items[..n + 1];
    LastStep(s, ps, false, filter, host);
    LandedPrefix(s, items, n + 1, n, false, filter, host);
    SideIsOther(items[n].key);
  }

  /** It stays, unless a later value clears its own flag there. */
  lemma KvKept(s: Store, items: seq<Item>, n: nat, filter: string, host: Host)
    requires n < |items| && Distinct(items) && !Apply(s, items, false, filter, host).failed
    requires items[n].Kv? && !Refused(items[n], filter)
    ensures MainKey(items[n]) in Apply(s, items, false, filter, host).store
            || ClearedBehind(s, items, n, filter, host)
  {
    hide Apply, Before, Landed, Touches, MainKey, SideKey, Refused, SameAt, SameEntry, Distinct;
    var k := MainKey(items[n]);
    KvPresent(s, items, n, filter, host);
    if m :| n < m < |items| && Landed(s, items, m, false, filter, host) && Crosses(items[n], items[m]) {
      LastCrosser(s, items, n, m, filter, host);
      FlagWritten(Before(s, items, m, false, filter, host).store, items[n], items[m], host);
      LastWriter(s, items, m, false, filter, host, k);
      SameMembership(Written(Before(s, items, m, false, filter, host).store, items[m], host),
                     Apply(s, items, false, filter, host).store, k);
      assert !items[m].value.encrypted ==> Clears(s, items, n, m, filter, host);
    } else {
      forall m | n + 1 <= m < |items| && Landed(s, items, m, false, filter, host) ensures !Touches(items[m], k) {
        TouchesIff(items[n], items[m]);
        if SameEntry(items[n], items[m]) {
          DistinctAt(items, n, m);
        }
      }
      NoneLandedFrom(s, items, n + 1, false, filter, host, k);
      SameMembership(Before(s, items, n + 1, false, filter, host).store,
                     Apply(s, items, false, filter, host).store, k);
    }
  }

  lemma LastCrosser(s: Store, items: seq<Item>, n: nat, m: nat, filter: string, host: Host)
    requires n < m < |items| && Distinct(items)
    requires Landed(s, items, m, false, filter, host) && Crosses(items[n], items[m])
    ensures LastOn(s, items, m, false, filter, host, MainKey(items[n]))
  {
    hide Apply, Before, Landed, Touches, MainKey, SideKey, SameEntry, Distinct, Crosses;
    TouchesIff(items[n], items[m]);
    forall l | m < l < |items| && Landed(s, items, l, false, filter, host)
      ensures !Touches(items[l], MainKey(items[n]))
    {
      TouchesIff(items[n], items[l]);
      if SameEntry(items[n], items[l]) {
        DistinctAt(items, n, l);
      }
      if Crosses(items[n], items[l]) {
        OneFlagged(items[n], items[m], items[l]);
        DistinctAt(items, m, l);
      }
    }
  }

  /** The keys of an entry that is no value are touched by itself alone. */
  lemma OwnKeys(items: seq<Item>, n: nat, m: nat)
    requires n < |items| && m < |items| && n != m && Distinct(items) && !items[n].Kv?
    ensures !Touches(items[m], MainKey(items[n])) && !Touches(items[m], SideKey(items[n]))
  {
    hide Touches, MainKey, SideKey, SameEntry, Distinct;
    TouchesIff(items[n], items[m]);
    if SameEntry(items[n], items[m]) {
      DistinctAt(items, n, m);
    }
  }

  /** After a restore, an entry that is no value is there already, or the store holds what it says. */
  lemma OtherSettled(s: Store, items: seq<Item>, n: nat, filter: string, host: Host)
    requires n < |items| && Distinct(items) && !Apply(s, items, false, filter, host).failed
    requires !items[n].Kv? && !Refused(items[n], filter)
    ensures var once := Apply(s, items, false, filter, host).store;
            Existing(once, items[n]) || (Holds(once, items[n], host) && Writable(items[n], host))
  {
    hide Apply, Touches, MainKey, SideKey, Refused, SameAt, Distinct, Holds, Written, Writable, Existing, Before;
    NotFailedBefore(s, items, n, false, filter, host);
    NotFailedBefore(s, items, n + 1, false, filter, host);
    var before := Before(s, items, n, false, filter, host).store;
    var after := Before(s, items, n + 1, false, filter, host).store;
    var once := Apply(s, items, false, filter, host).store;
    forall m | n + 1 <= m < |items|
      ensures !Touches(items[m], MainKey(items[n])) && !Touches(items[m], SideKey(items[n])) {
      OwnKeys(items, n, m);
    }
    NoneLandedFrom(s, items, n + 1, false, filter, host, MainKey(items[n]));
    NoneLandedFrom(s, items, n + 1, false, filter, host, SideKey(items[n]));
    Local(after, once, items[n], host);
    AfterTurn(s, items, n, filter, host);
  }

  lemma AfterTurn(s: Store, items: seq<Item>, n: nat, filter: string, host: Host)
    requires n < |items| && !Refused(items[n], filter)
    requires !Before(s, items, n, false, filter, host).failed && !Before(s, items, n + 1, false, filter, host).failed
    ensures var after := Before(s, items, n + 1, false, filter, host).store;
            Existing(after, items[n]) || (Holds(after, items[n], host) && Writable(items[n], host))
  {
    hide Apply, Refused, Holds, Written, Writable, Existing, Step;
    LastStep(s, items[..n + 1], false, filter, host);
    LastFails(s, items[..n + 1], false, filter, host);
    LandedPrefix(s, items, n + 1, n, false, filter, host);
    assert items[..n + 1][..n] == items[..n];
    if Landed(s, items, n, false, filter, host) {
      WrittenHolds(Before(s, items, n, false, filter, host).store, items[n], host);
    }
  }

  /** If no entry clears a flag behind another, each entry is there already or held after the restore. */
  lemma Settled(s: Store, items: seq<Item>, n: nat, filter: string, host: Host)
    requires n < |items| && Distinct(items) && !Apply(s, items, false, filter, host).failed
    requires !SomeClear(s, items, filter, host)
    ensures var once := Apply(s, items, false, filter, host).store;
            Refused(items[n], filter) || Existing(once, items[n])
            || (Holds(once, items[n], host) && Writable(items[n], host))
  {
    hide Apply, Refused, Holds, Writable, MainKey, Distinct, Clears;
    if !Refused(items[n], filter) {
      if items[n].Kv? {
        KvKept(s, items, n, filter, host);
      } else {
        OtherSettled(s, items, n, filter, host);
      }
    }
  }

  lemma {:induction false} AgainNothing(once: Store, items: seq<Item>, filter: string, host: Host)
    requires forall n | 0 <= n < |items| :: Refused(items[n], filter) || Existing(once, items[n])
                                            || (Holds(once, items[n], host) && Writable(items[n], host))
    ensures var o := Apply(once, items, false, filter, host);
            o.store == once && !o.failed
  {
    hide Holds, Writable, Written, Refused, Existing;
    if items != [] {
      AgainNothing(once, items[..|items| - 1], filter, host);
      var i := items[|items| - 1];
      if Holds(once, i, host) && Writable(i, host) {
        WrittenAgain(once, i, host);
      }
    }
  }

  /** Twice is once, if no entry clears a flag behind another. */
  lemma TwiceSame(s: Store, items: seq<Item>, filter: string, host: Host)
    requires Distinct(items) && !Apply(s, items, false, filter, host).failed && !SomeClear(s, items, filter, host)
    ensures var once := Apply(s, items, false, filter, host).store;
            Apply(once, items, false, filter, host).store == once
  {
    hide Apply, Refused, Existing, Holds, Writable, Distinct, SomeClear;
    var once := Apply(s, items, false, filter, host).store;
    forall n | 0 <= n < |items| ensures Refused(items[n], filter) || Existing(once, items[n])
                                        || (Holds(once, items[n], host) && Writable(items[n], host)) {
      Settled(s, items, n, filter, host);
    }
    AgainNothing(once, items, filter, host);
  }

  /** A second restore does not raise where the first did not. */
  lemma TwiceSucceeds(s: Store, items: seq<Item>, filter: string, host: Host)
    requires Distinct(items) && !Apply(s, items, false, filter, host).failed
    ensures !Apply(Apply(s, items, false, filter, host).store, items, false, filter, host).failed
  {
    hide Apply, Refused, Existing, Holds, Distinct;
    var once := Apply(s, items, false, filter, host).store;
    FailsIff(once, items, false, filter, host);
    forall n | 0 <= n < |items| && Chosen(once, items[n], false, filter) ensures Writable(items[n], host) {
      if !items[n].Kv? {
        OtherSettled(s, items, n, filter, host);
      }
    }
  }

  /** A value that a second restore writes again was cleared, by an entry with a shorter key. */
  lemma {:induction false} LandsAgain(s: Store, items: seq<Item>, l: nat, filter: string, host: Host)
    returns (p: nat, q: nat)
    requires l < |items| && Distinct(items) && !Apply(s, items, false, filter, host).failed
    requires items[l].Kv? && Landed(Apply(s, items, false, filter, host).store, items, l, false, filter, host)
    ensures p < |items| && q < |items| && Clears(s, items, p, q, filter, host) && |items[q].key| < |items[l].key|
    decreases |items[l].key|
  {
    hide Apply, Touches, MainKey, Refused, SameAt, SameEntry, Distinct, Before;
    var once := Apply(s, items, false, filter, host).store;
    var mid := Before(once, items, l, false, filter, host).store;
    KvKept(s, items, l, filter, host);
    if MainKey(items[l]) in once {
      SameMembership(once, mid, MainKey(items[l]));
      var m := TouchedBefore(once, items, l, filter, host);
      p, q := LandsAgain(s, items, m, filter, host);
    } else {
      p := l;
      q :| q < |items| && Clears(s, items, l, q, filter, host);
    }
  }

  /** A key that went missing before entry `l` was touched by an entry that clears its flag there. */
  lemma TouchedBefore(t: Store, items: seq<Item>, l: nat, filter: string, host: Host) returns (m: nat)
    requires l < |items| && Distinct(items)
    requires !SameAt(t, Before(t, items, l, false, filter, host).store, MainKey(items[l]))
    ensures m < l && Landed(t, items, m, false, filter, host) && Crosses(items[l], items[m])
  {
    hide Apply, Touches, MainKey, SameAt, SameEntry, Distinct, Landed;
    m := l;
    if x :| 0 <= x < l && Landed(t, items, x, false, filter, host) && Touches(items[x], MainKey(items[l])) {
      TouchesIff(items[l], items[x]);
      if SameEntry(items[l], items[x]) {
        DistinctAt(items, l, x);
      }
      m := x;
    } else {
      forall x | 0 <= x < l && Landed(t, items[..l], x, false, filter, host)
        ensures !Touches(items[..l][x], MainKey(items[l])) {
        LandedPrefix(t, items, l, x, false, filter, host);
      }
      NoneLanded(t, items[..l], false, filter, host, MainKey(items[l]));
    }
  }

  /** The flag key that an entry clears is not in the store after the restore. */
  lemma FlagGone(s: Store, items: seq<Item>, m: nat, n: nat, filter: string, host: Host)
    requires m < |items| && n < |items| && Distinct(items) && Clears(s, items, m, n, filter, host)
    ensures MainKey(items[m]) !in Apply(s, items, false, filter, host).store
  {
    hide Apply, Before, Touches, MainKey, SideKey, SameAt, SameEntry, Distinct, Landed, Refused, Written;
    LastCrosser(s, items, m, n, filter, host);
    FlagWritten(Before(s, items, n, false, filter, host).store, items[m], items[n], host);
    LastWriter(s, items, n, false, filter, host, MainKey(items[m]));
    SameMembership(Written(Before(s, items, n, false, filter, host).store, items[n], host),
                   Apply(s, items, false, filter, host).store, MainKey(items[m]));
  }

  /** A second restore writes the flag back, unless it writes the value again. */
  lemma FlagBack(s: Store, items: seq<Item>, m: nat, n: nat, filter: string, host: Host)
    requires m < |items| && n < |items| && Distinct(items) && !Apply(s, items, false, filter, host).failed
    requires Clears(s, items, m, n, filter, host)
    requires !Landed(Apply(s, items, false, filter, host).store, items, n, false, filter, host)
    ensures MainKey(items[m])
            in Apply(Apply(s, items, false, filter, host).store, items, false, filter, host).store
  {
    hide Apply, Before, Touches, MainKey, SideKey, SameAt, SameEntry, Distinct, Refused, Written, Landed;
    var once, k := Apply(s, items, false, filter, host).store, MainKey(items[m]);
    FlagGone(s, items, m, n, filter, host);
    TwiceSucceeds(s, items, filter, host);
    FlagLandsAgain(once, items, m, n, filter, host);
    forall l | m < l < |items| && Landed(once, items, l, false, filter, host) ensures !Touches(items[l], k) {
      OnlyCrosser(items, m, n, l);
    }
    TouchesOwn(items[m]);
    LastWriter(once, items, m, false, filter, host, k);
    WrittenHere(Before(once, items, m, false, filter, host).store, items[m], host);
    SameMembership(Written(Before(once, items, m, false, filter, host).store, items[m], host),
                   Apply(once, items, false, filter, host).store, k);
  }

  lemma OnlyCrosser(items: seq<Item>, m: nat, n: nat, l: nat)
    requires m < |items| && n < |items| && l < |items| && l != m && Distinct(items) && Crosses(items[m], items[n])
    ensures Touches(items[l], MainKey(items[m])) ==> l == n
  {
    hide Touches, MainKey, SideKey, SameEntry, Distinct, Crosses;
    TouchesIff(items[m], items[l]);
    if SameEntry(items[m], items[l]) {
      DistinctAt(items, m, l);
    }
    if Crosses(items[m], items[l]) {
      OneFlagged(items[m], items[n], items[l]);
      DistinctAt(items, n, l);
    }
  }

  lemma WrittenHere(s: Store, i: Item, host: Host)
    requires i.Kv?
    ensures MainKey(i) in Written(s, i, host)
  {
    SideIsOther(i.key);
  }

  lemma FlagLandsAgain(t: Store, items: seq<Item>, m: nat, n: nat, filter: string, host: Host)
    requires m < n < |items| && Distinct(items) && Crosses(items[m], items[n]) && !Refused(items[m], filter)
    requires MainKey(items[m]) !in t && !Apply(t, items, false, filter, host).failed
    ensures Landed(t, items, m, false, filter, host)
  {
    hide Apply, Touches, MainKey, SameAt, SameEntry, Distinct, Refused, Before;
    NotFailedBefore(t, items, m, false, filter, host);
    var mid := Before(t, items, m, false, filter, host).store;
    if !SameAt(t, mid, MainKey(items[m])) {
      var l := TouchedBefore(t, items, m, filter, host);
      OneFlagged(items[m], items[n], items[l]);
      DistinctAt(items, n, l);
    }
    SameMembership(t, mid, MainKey(items[m]));
  }

  lemma {:induction false} Differs(s: Store, items: seq<Item>, m: nat, n: nat, filter: string, host: Host)
    requires m < |items| && n < |items| && Distinct(items) && !Apply(s, items, false, filter, host).failed
    requires Clears(s, items, m, n, filter, host)
    ensures var once := Apply(s, items, false, filter, host).store;
            Apply(once, items, false, filter, host).store != once
    decreases |items[n].key|
  {
    hide Apply, Landed, MainKey, Distinct, Refused;
    var once := Apply(s, items, false, filter, host).store;
    if Landed(once, items, n, false, filter, host) {
      var p, q := LandsAgain(s, items, n, filter, host);
      Differs(s, items, p, q, filter, host);
    } else {
      FlagGone(s, items, m, n, filter, host);
      FlagBack(s, items, m, n, filter, host);
    }
  }

  /** Without force, a second restore never raises where the first did not, and changes nothing more exactly if no entry
      poses as the flag of a value that comes later, is written, and has no flag. */
  lemma RestoreTwiceIff(s: Store, items: seq<Item>, filter: string, host: Host)
    requires Distinct(items) && !Apply(s, items, false, filter, host).failed
    ensures var once := Apply(s, items, false, filter, host).store;
            var twice := Apply(once, items, false, filter, host);
            !twice.failed && (twice.store == once <==> !SomeClear(s, items, filter, host))
  {
    hide Apply, Distinct, Clears;
    TwiceSucceeds(s, items, filter, host);
    if m: nat, n: nat :| m < |items| && n < |items| && Clears(s, items, m, n, filter, host) {
      Differs(s, items, m, n, filter, host);
    } else {
      TwiceSame(s, items, filter, host);
    }
  }

  /** Into the empty store, a value that poses as the flag of the next: the first restore clears it, the second writes
      it back. */
  lemma TwiceDiffers(host: Host)
    ensures var items := [Kv("x" + ENC, KvRecord([7], false)), Kv("x", KvRecord([1], false))];
            var once := Apply(map[], items, false, "", host).store;
            Apply(once, items, false, "", host).store != once
  {
    hide Apply, SameAt, MainKey;
    var items := [Kv("x" + ENC, KvRecord([7], false)), Kv("x", KvRecord([1], false))];
    FailsIff(map[], items, false, "", host);
    NotFailedBefore(map[], items, 1, false, "", host);
    MainBefore(map[], items, 1, false, "", host);
    SameMembership(map[], Before(map[], items, 1, false, "", host).store, MainKey(items[1]));
    KvMainKey(items[1]);
    assert Clears(map[], items, 0, 1, "", host);
    RestoreTwiceIff(map[], items, "", host);
  }

  lemma KvMainKey(i: Item)
    requires i.Kv?
    ensures forall s: Store :: Existing(s, i) <==> MainKey(i) in s
  {}

  // ----- After a restore that raised -----

  /** Stores that differ under one key, which no entry touches, are restored alike. */
  lemma {:induction false} Alike(a: Store, b: Store, items: seq<Item>, force: bool, filter: string, host: Host,
                                 k: string)
    requires forall q: string | q != k :: SameAt(a, b, q)
    requires forall n | 0 <= n < |items| :: !Touches(items[n], k)
    ensures var x, y := Apply(a, items, force, filter, host), Apply(b, items, force, filter, host);
            && x.failed == y.failed && (forall q: string | q != k :: SameAt(x.store, y.store, q))
            && SameAt(b, y.store, k)
  {
    if items == [] {
      NothingApplied(a, force, filter, host);
      NothingApplied(b, force, filter, host);
    } else {
      hide Apply, Touches, SameAt, Written, Refused, Existing, Writable, MainKey, SideKey, Step;
      var p := |items| - 1;
      Alike(a, b, items[..p], force, filter, host, k);
      var x, y := Apply(a, items[..p], force, filter, host), Apply(b, items[..p], force, filter, host);
      LastStep(a, items, force, filter, host);
      LastStep(b, items, force, filter, host);
      StepAlike(x, y, items[p], force, filter, host, k);
      StepElsewhere(y, items[p], force, filter, host, k);
      SameTrans(b, y.store, Apply(b, items, force, filter, host).store, k);
    }
  }

  lemma StepAlike(x: Outcome, y: Outcome, i: Item, force: bool, filter: string, host: Host, k: string)
    requires x.failed == y.failed && (forall q: string | q != k :: SameAt(x.store, y.store, q)) && !Touches(i, k)
    ensures var v, w := Step(x, i, force, filter, host), Step(y, i, force, filter, host);
            v.failed == w.failed && forall q: string | q != k :: SameAt(v.store, w.store, q)
  {
    hide SameAt, Written, Refused, Existing, Writable, MainKey, SideKey;
    assert MainKey(i) != k;
    ExistingBy(x.store, y.store, i);
    forall q: string | q != k ensures SameAt(Written(x.store, i, host), Written(y.store, i, host), q) {
      if Touches(i, q) {
        WrittenSame(x.store, y.store, i, host, q);
      } else {
        BothElsewhere(x.store, y.store, i, host, q);
      }
    }
  }

  lemma StepElsewhere(y: Outcome, i: Item, force: bool, filter: string, host: Host, k: string)
    requires !Touches(i, k)
    ensures SameAt(y.store, Step(y, i, force, filter, host).store, k)
  {
    hide SameAt, Written, Refused, Existing, Writable, Touches;
    WrittenElsewhere(y.store, i, host, k);
    SameAsItself(y.store, k);
  }

  /** Entry `n` is a stream that is written and has an entry XADD does not take; the restore raises there. */
  predicate RaisesAt(s: Store, items: seq<Item>, n: nat, filter: string, host: Host)
    requires n < |items|
  {
    Landed(s, items, n, false, filter, host) && !Writable(items[n], host)
  }

  /** The entries of a stream. */
  function EntriesOf(i: Item): (es: seq<StreamEntry>)
    requires i.Queue? || i.Log?
  {
    if i.Queue? then i.entries else i.log
  }

  /** A restore that raised did so at one of its entries. */
  lemma {:induction false} RaisesSomewhere(s: Store, items: seq<Item>, filter: string, host: Host)
    requires Apply(s, items, false, filter, host).failed
    ensures exists n: nat :: n < |items| && RaisesAt(s, items, n, filter, host)
  {
    if items == [] {
      NothingApplied(s, false, filter, host);
    } else {
      hide Apply, Landed, Writable, Before;
      var p := |items| - 1;
      LastFails(s, items, false, filter, host);
      if RaisesAt(s, items, p, filter, host) {
      } else {
        RaisesSomewhere(s, items[..p], filter, host);
        var n: nat :| n < p && RaisesAt(s, items[..p], n, filter, host);
        LandedPrefix(s, items, p, n, false, filter, host);
        assert RaisesAt(s, items, n, filter, host);
      }
    }
  }

  /** What was reported so far does not matter to what comes. */
  lemma {:induction false} ReportApart(o: Outcome, r: Outcome, items: seq<Item>, force: bool, filter: string,
                                       host: Host)
    requires o.store == r.store && o.failed == r.failed
    ensures var x, y := ApplyFrom(o, items, force, filter, host), ApplyFrom(r, items, force, filter, host);
            x.store == y.store && x.failed == y.failed
  {
    hide VerdictFor, Written, Writable, SectionOf, NameOf;
    if items != [] {
      ReportApart(o, r, items[..|items| - 1], force, filter, host);
    }
  }

  lemma StreamKeys(i: Item)
    requires i.Queue? || i.Log?
    ensures forall k: string :: Touches(i, k) <==> k == MainKey(i)
  {}

  lemma StreamWritten(s: Store, i: Item, host: Host)
    requires i.Queue? || i.Log?
    ensures Written(s, i, host) == PutStream(s, MainKey(i), Added(host, EntriesOf(i)))
    ensures Existing(s, i) <==> MainKey(i) in s
  {}

  /** The entries before the broken stream find all their keys as they left them. */
  lemma FrontAgain(s: Store, items: seq<Item>, n: nat, filter: string, host: Host)
    requires n < |items| && Distinct(items) && RaisesAt(s, items, n, filter, host)
    requires !SomeClear(s, items[..n], filter, host)
    ensures var once := Written(Before(s, items, n, false, filter, host).store, items[n], host);
            Before(once, items, n, false, filter, host).store == once
            && !Before(once, items, n, false, filter, host).failed
  {
    hide Apply, Touches, SameAt, Written, Refused, Existing, MainKey, SideKey, SameEntry, SomeClear, Distinct;
    var front, k, i := items[..n], MainKey(items[n]), items[n];
    var s1 := Before(s, items, n, false, filter, host).store;
    var once := Written(s1, i, host);
    DistinctPrefix(items, n);
    TwiceSame(s, front, filter, host);
    TwiceSucceeds(s, front, filter, host);
    StreamKeys(i);
    forall q: string | q != k ensures SameAt(s1, once, q) {
      WrittenElsewhere(s1, i, host, q);
    }
    forall m | 0 <= m < n ensures !Touches(front[m], k) {
      OwnKeys(items, n, m);
    }
    Alike(s1, once, front, false, filter, host, k);
    var y := Apply(once, front, false, filter, host).store;
    forall q: string ensures SameAt(once, y, q) {
      if q != k {
        SameSym(s1, once, q);
        SameTrans(once, s1, y, q);
      }
    }
    SameMaps(once, y);
  }

  lemma SameSym(a: Store, b: Store, k: string)
    ensures SameAt(a, b, k) <==> SameAt(b, a, k)
  {}

  lemma DistinctPrefix(items: seq<Item>, n: nat)
    requires n <= |items| && Distinct(items)
    ensures Distinct(items[..n])
  {
    hide SameEntry;
  }

  /** After a restore without force that raised at a stream, a second one raises there again and changes nothing, if the
      stream got no entry; otherwise it takes the broken stream for an existing one and goes on with the rest. */
  lemma RetryGoesOn(s: Store, items: seq<Item>, n: nat, filter: string, host: Host)
    requires n < |items| && Distinct(items) && RaisesAt(s, items, n, filter, host)
    requires !SomeClear(s, items[..n], filter, host)
    ensures var once := Apply(s, items, false, filter, host).store;
            var twice := Apply(once, items, false, filter, host);
            var rest := Apply(once, items[n + 1..], false, filter, host);
            if Added(host, EntriesOf(items[n])) == [] then twice.store == once && twice.failed
            else twice.store == rest.store && twice.failed == rest.failed
  {
    hide Refused, Addable, Existing, MainKey, SomeClear, Distinct, Added, ApplyFrom, Written, Clears;
    var i, s1, tail := items[n], Before(s, items, n, false, filter, host).store, items[n + 1..];
    var once := Written(s1, i, host);
    RaisedEnds(s, items, n, filter, host);
    FrontAgain(s, items, n, filter, host);
    StreamWritten(s1, i, host);
    StreamWritten(once, i, host);
    var o := Before(once, items, n, false, filter, host);
    assert items == items[..n] + ([i] + tail);
    ApplyConcat(Outcome(once, [], false), items[..n], [i] + tail, false, filter, host);
    ApplyConcat(o, [i], tail, false, filter, host);
    ApplyOne(o, i, false, filter, host);
    var at := Step(o, i, false, filter, host);
    if Added(host, EntriesOf(i)) == [] {
      assert once == once - {MainKey(i)};
      FailedStays(at, tail, false, filter, host);
    } else {
      ReportApart(at, Outcome(once, [], false), tail, false, filter, host);
    }
  }

  /** Where a restore raises, it ends. */
  lemma RaisedEnds(s: Store, items: seq<Item>, n: nat, filter: string, host: Host)
    requires n < |items| && RaisesAt(s, items, n, filter, host)
    ensures Apply(s, items, false, filter, host).failed
    ensures Apply(s, items, false, filter, host).store
            == Written(Before(s, items, n, false, filter, host).store, items[n], host)
  {
    hide Refused, Writable, Existing, ApplyFrom, Written;
    var i, tail, o := items[n], items[n + 1..], Before(s, items, n, false, filter, host);
    assert items == items[..n] + ([i] + tail);
    ApplyConcat(Outcome(s, [], false), items[..n], [i] + tail, false, filter, host);
    ApplyConcat(o, [i], tail, false, filter, host);
    ApplyOne(o, i, false, filter, host);
    FailedStays(Step(o, i, false, filter, host), tail, false, filter, host);
  }
}
