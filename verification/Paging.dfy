/** The paged scans of a stream: newest first with a cap, and oldest first to the end, both by exclusive id bounds. */
module Paging {
  import opened Bytes

  datatype Item = Item(id: nat, client: string, payload: seq<byte>)

  const FILTER_BATCH: nat := 100
  const FILTER_MAX_BATCHES: nat := 10
  const DUMP_PAGE: nat := 500

  predicate Ascending(s: seq<Item>) { forall i, j | 0 <= i < j < |s| :: s[i].id < s[j].id }

  /** The items of wanted clients, in order. */
  function Filter(s: seq<Item>, wanted: set<string>): (r: seq<Item>)
  {
    if s == [] then []
    else Filter(s[..|s| - 1], wanted) + if s[|s| - 1].client in wanted then [s[|s| - 1]] else []
  }

  function Take(s: seq<Item>, n: nat): (r: seq<Item>) { if |s| <= n then s else s[..n] }

  // ----- The two range commands -----

  /** How many items come before the exclusive bound; None is "+". */
  function Below(s: seq<Item>, bound: Option<nat>): (k: nat)
    ensures k <= |s|
    ensures forall i | 0 <= i < k :: bound.Some? ==> s[i].id < bound.value
    ensures k < |s| ==> bound.Some?
  {
    if s == [] then 0
    else if bound.Some? && s[0].id >= bound.value then 0
    else 1 + Below(s[1..], bound)
  }

  /** XREVRANGE from the bound down. */
  function Xrevrange(s: seq<Item>, bound: Option<nat>, count: nat): (page: seq<Item>)
  {
    var k := Below(s, bound);
    Reverse(s[k - Min(count, k)..k])
  }

  /** How many items come at or before the exclusive bound; None is "-". */
  function UpTo(s: seq<Item>, bound: Option<nat>): (k: nat)
    ensures k <= |s|
    ensures k > 0 ==> bound.Some?
  {
    if s == [] || bound.None? || s[0].id > bound.value then 0 else 1 + UpTo(s[1..], bound)
  }

  /** XRANGE from the bound up. */
  function Xrange(s: seq<Item>, bound: Option<nat>, count: nat): (page: seq<Item>)
  {
    var k := UpTo(s, bound);
    s[k..k + Min(count, |s| - k)]
  }

  lemma {:induction false} BelowAt(s: seq<Item>, k: nat)
    requires Ascending(s) && k < |s|
    ensures Below(s, Some(s[k].id)) == k
  {
    if k > 0 {
      BelowAt(s[1..], k - 1);
    }
  }

  lemma {:induction false} BelowNone(s: seq<Item>)
    ensures Below(s, None) == |s|
  {
    if s != [] {
      BelowNone(s[1..]);
    }
  }

  lemma {:induction false} UpToAt(s: seq<Item>, k: nat)
    requires Ascending(s) && k < |s|
    ensures UpTo(s, Some(s[k].id)) == k + 1
  {
    if k > 0 {
      UpToAt(s[1..], k - 1);
    } else if |s| > 1 {
      assert s[1..][0].id > s[0].id;
    }
  }

  // ----- Filters -----

  lemma {:induction false} FilterConcat(a: seq<Item>, b: seq<Item>, wanted: set<string>)
    ensures Filter(a + b, wanted) == Filter(a, wanted) + Filter(b, wanted)
  {
    if b == [] {
      assert a + b == a;
    } else {
      assert (a + b)[..|a + b| - 1] == a + b[..|b| - 1];
      FilterConcat(a, b[..|b| - 1], wanted);
    }
  }

  lemma FilterExtend(s: seq<Item>, i: nat, wanted: set<string>)
    requires i < |s|
    ensures Filter(s[..i + 1], wanted) == Filter(s[..i], wanted) + if s[i].client in wanted then [s[i]] else []
  {
    assert s[..i + 1][..i] == s[..i];
  }

  lemma FilterPrefix(s: seq<Item>, i: nat, j: nat, wanted: set<string>)
    requires i <= j <= |s|
    ensures Filter(s[..i], wanted) <= Filter(s[..j], wanted)
  {
    assert s[..j] == s[..i] + s[i..j];
    FilterConcat(s[..i], s[i..j], wanted);
  }

  lemma {:induction false} FilterReversed(s: seq<Item>, wanted: set<string>)
    ensures Filter(Reverse(s), wanted) == Reverse(Filter(s, wanted))
  {
    if s != [] {
      var front, last := s[..|s| - 1], s[|s| - 1];
      assert Reverse(s) == [last] + Reverse(front);
      FilterConcat([last], Reverse(front), wanted);
      FilterReversed(front, wanted);
      var f, l := Filter(front, wanted), if last.client in wanted then [last] else [];
      assert Filter([last], wanted) == l by { assert [last][..0] == []; }
      assert Reverse(f + l) == Reverse(l) + Reverse(f);
    }
  }

  /** A filter keeps the entries of wanted clients and no others. */
  lemma {:induction false} FilterIff(s: seq<Item>, wanted: set<string>, e: Item)
    ensures e in Filter(s, wanted) <==> e in s && e.client in wanted
  {
    if s != [] {
      FilterIff(s[..|s| - 1], wanted, e);
      assert s == s[..|s| - 1] + [s[|s| - 1]];
    }
  }

  /** It keeps them in the order of the stream, each once. */
  lemma {:induction false} FilterAscends(s: seq<Item>, wanted: set<string>)
    requires Ascending(s)
    ensures Ascending(Filter(s, wanted))
  {
    if s != [] {
      var front := s[..|s| - 1];
      FilterAscends(front, wanted);
      forall e | e in Filter(front, wanted) ensures e.id < s[|s| - 1].id {
        FilterIff(front, wanted, e);
      }
    }
  }

  // ----- The loops -----

  /** `_xrevrange_filtered` on a stream fixed during the scan. A limit below 1 acts as 1. */
  method XrevrangeFiltered(s: seq<Item>, limit: int, wanted: set<string>) returns (matches: seq<Item>)
    requires Ascending(s)
    ensures matches == Take(Filter(Reverse(s)[..Min(1000, |s|)], wanted), if limit < 1 then 1 else limit)
  {
    hide Filter, Below, UpTo, Take, Reverse;
    ghost var newest, cap := Reverse(s), Min(FILTER_BATCH * FILTER_MAX_BATCHES, |s|);
    ghost var want: nat := if limit < 1 then 1 else limit;
    matches := [];
    var cursor: Option<nat> := None;
    BelowNone(s);
    FilterNothing(newest, wanted);
    var batchNo := 0;
    ghost var p: nat := 0;
    while batchNo < FILTER_MAX_BATCHES
      invariant 0 <= batchNo <= FILTER_MAX_BATCHES && p == FILTER_BATCH * batchNo && p <= |s|
      invariant Below(s, cursor) == |s| - p
      invariant matches == Filter(newest[..p], wanted) && |matches| < want
    {
      var batch := Xrevrange(s, cursor, FILTER_BATCH);
      PageOfNewest(s, cursor, p, FILTER_BATCH);
      if batch == [] {
        break;
      }
      var i := 0;
      while i < |batch|
        invariant 0 <= i <= |batch| && p + |batch| <= cap && |newest| == |s|
        invariant matches == Filter(newest[..p + i], wanted) && |matches| < want
      {
        FilterExtend(newest, p + i, wanted);
        assert newest[p + i] == batch[i];
        if batch[i].client in wanted {
          matches := matches + [batch[i]];
          if |matches| >= limit {
            TakenEarly(newest, p + i + 1, cap, wanted, matches, want);
            return;
          }
        }
        i := i + 1;
      }
      LastOfPage(s, cursor, p, FILTER_BATCH);
      cursor := Some(batch[|batch| - 1].id);
      p := p + |batch|;
      batchNo := batchNo + 1;
      if |batch| < FILTER_BATCH {
        break;
      }
    }
    assert p == cap || p == |s|;
    TakenWhole(newest, p, cap, wanted, want);
  }

  lemma FilterNothing(s: seq<Item>, wanted: set<string>)
    ensures Filter(s[..0], wanted) == []
  {}

  /** A page read from position `p` is the next stretch of the reversed stream: nothing twice, nothing missed. */
  lemma PageOfNewest(s: seq<Item>, bound: Option<nat>, p: nat, count: nat)
    requires p <= |s| && Below(s, bound) == |s| - p
    ensures var page := Xrevrange(s, bound, count);
            |page| == Min(count, |s| - p) && page == Reverse(s)[p..p + |page|]
  {
    hide Below;
  }

  /** The last id of a page bounds exactly what comes after it. */
  lemma LastOfPage(s: seq<Item>, bound: Option<nat>, p: nat, count: nat)
    requires Ascending(s) && p <= |s| && Below(s, bound) == |s| - p && Xrevrange(s, bound, count) != []
    ensures var page := Xrevrange(s, bound, count);
            Below(s, Some(page[|page| - 1].id)) == |s| - p - |page|
  {
    hide Below, Xrevrange, Ascending;
    var page := Xrevrange(s, bound, count);
    PageOfNewest(s, bound, p, count);
    LastOfStretch(s, p, |page|);
    BelowAt(s, |s| - p - |page|);
  }

  lemma LastOfStretch(s: seq<Item>, p: nat, n: nat)
    requires 0 < n <= |s| - p
    ensures Reverse(s)[p..p + n][n - 1] == s[|s| - p - n]
  {}

  lemma TakenEarly(newest: seq<Item>, i: nat, cap: nat, wanted: set<string>, matches: seq<Item>, want: nat)
    requires i <= cap <= |newest| && matches == Filter(newest[..i], wanted) && |matches| == want
    ensures matches == Take(Filter(newest[..cap], wanted), want)
  {
    hide Filter;
    FilterPrefix(newest, i, cap, wanted);
  }

  lemma TakenWhole(newest: seq<Item>, p: nat, cap: nat, wanted: set<string>, want: nat)
    requires p == cap <= |newest| && |Filter(newest[..p], wanted)| < want
    ensures Filter(newest[..p], wanted) == Take(Filter(newest[..cap], wanted), want)
  {}

  /** The scan of `dump_heartbeats` on a fixed stream: every entry of the client, newest first. */
  method DumpHeartbeats(s: seq<Item>, client: string) returns (out: seq<Item>)
    requires Ascending(s)
    ensures out == Filter(Reverse(s), {client})
  {
    hide Filter, UpTo;
    var cursor: Option<nat> := None;
    var matches: seq<Item> := [];
    ghost var p: nat := 0;
    FilterNothing(s, {client});
    while true
      invariant p <= |s| && UpTo(s, cursor) == p && matches == Filter(s[..p], {client})
      decreases |s| - p
    {
      var page := Xrange(s, cursor, DUMP_PAGE);
      if page == [] {
        break;
      }
      var i := 0;
      while i < |page|
        invariant 0 <= i <= |page| && matches == Filter(s[..p + i], {client})
      {
        FilterExtend(s, p + i, {client});
        if page[i].client == client {
          matches := matches + [page[i]];
        }
        i := i + 1;
      }
      assert page[|page| - 1] == s[p + |page| - 1];
      UpToAt(s, p + |page| - 1);
      cursor := Some(page[|page| - 1].id);
      p := p + |page|;
      if |page| < DUMP_PAGE {
        break;
      }
    }
    assert s[..p] == s;
    FilterReversed(s, {client});
    out := Reverse(matches);
  }
}
