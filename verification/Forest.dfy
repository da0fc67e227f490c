/**
 Walking trees with one counter. A pass takes the own bytes of the first tree off the front of a byte
 string and says how many children follow; the loop keeps only the number of trees still to come. Nothing
 here depends on what a pass reads, so the pass is a parameter.
 */
module Forest {
  import opened Bytes

  /** One pass: the bytes it takes, the children that follow, and whether the tree is a container. */
  datatype Step = Step(used: nat, kids: nat, container: bool)

  type Pass = seq<byte> -> Option<Step>

  datatype Run = Run(rest: seq<byte>, containers: nat)

  /** A pass takes at least one byte of what is there and announces a 32-bit number of pairs at most. */
  ghost predicate Progresses(p: Pass)
  {
    forall b: seq<byte> :: p(b).Some? ==> 1 <= p(b).value.used <= |b| && p(b).value.kids < 0x2_0000_0000
  }

  /** A tree: its own bytes, whether it is a container, and its children. */
  datatype Tree = Node(own: seq<byte>, container: bool, kids: seq<Tree>)

  /** Whatever follows, the pass takes exactly the node's own bytes and announces its children. */
  ghost predicate OneStep(p: Pass, t: Tree)
  {
    |t.own| > 0 && forall rest: seq<byte> :: p(t.own + rest) == Some(Step(|t.own|, |t.kids|, t.container))
  }

  /** Every node of the tree is one pass. */
  ghost predicate Walkable(p: Pass, t: Tree)
  {
    OneStep(p, t) && forall k | k in t.kids :: Walkable(p, k)
  }

  ghost predicate AllWalkable(p: Pass, ts: seq<Tree>) { forall t | t in ts :: Walkable(p, t) }

  /** A tree's bytes: a writer's recursion. */
  function TreeBytes(t: Tree): (b: seq<byte>)
    decreases t, 1
  {
    t.own + ForestBytes(t.kids)
  }

  function ForestBytes(ts: seq<Tree>): (b: seq<byte>)
    decreases ts, 0
  {
    if ts == [] then [] else TreeBytes(ts[0]) + ForestBytes(ts[1..])
  }

  /** The containers in a tree. */
  function Containers(t: Tree): (n: nat)
    decreases t, 1
  {
    (if t.container then 1 else 0) + ContainersIn(t.kids)
  }

  function ContainersIn(ts: seq<Tree>): (n: nat)
    decreases ts, 0
  {
    if ts == [] then 0 else Containers(ts[0]) + ContainersIn(ts[1..])
  }

  /** The loop, with a counter of `n` in a machine integer of `m` values. */
  ghost function Loop(p: Pass, b: seq<byte>, n: nat, m: nat): (r: Option<Run>)
    requires Progresses(p) && n < m
    decreases |b|
  {
    if n == 0 then Some(Run(b, 0))
    else match p(b)
      case None => None
      case Some(s) => Counted(Loop(p, b[s.used..], (n - 1 + s.kids) % m, m), s.container)
  }

  function Counted(r: Option<Run>, container: bool): Option<Run>
  {
    if r.None? then None else Some(Run(r.value.rest, r.value.containers + if container then 1 else 0))
  }

  /** One turn of the loop. */
  lemma LoopUnfold(p: Pass, b: seq<byte>, n: nat, m: nat)
    requires Progresses(p) && 0 < n < m
    ensures Loop(p, b, n, m) ==
            if p(b).None? then None
            else Counted(Loop(p, b[p(b).value.used..], (n - 1 + p(b).value.kids) % m, m), p(b).value.container)
  {}

  lemma LoopDone(p: Pass, b: seq<byte>, m: nat)
    requires Progresses(p) && 0 < m
    ensures Loop(p, b, 0, m) == Some(Run(b, 0))
  {}

  /** One turn of the loop whose counter does not wrap. */
  lemma LoopTurn(p: Pass, b: seq<byte>, n: nat, m: nat)
    requires Progresses(p) && 0 < n < m && p(b).Some? && n - 1 + p(b).value.kids < m
    ensures var s := p(b).value;
            Loop(p, b, n, m) == Counted(Loop(p, b[s.used..], n - 1 + s.kids, m), s.container)
  {
    SmallMod(n - 1 + p(b).value.kids, m);
  }

  lemma SmallMod(x: nat, m: nat)
    requires x < m
    ensures x % m == x
  {}

  lemma {:induction false} ForestConcat(us: seq<Tree>, vs: seq<Tree>)
    ensures ForestBytes(us + vs) == ForestBytes(us) + ForestBytes(vs)
    ensures ContainersIn(us + vs) == ContainersIn(us) + ContainersIn(vs)
  {
    if us == [] {
      assert us + vs == vs;
    } else {
      assert (us + vs)[1..] == us[1..] + vs;
      ForestConcat(us[1..], vs);
    }
  }

  /** The children of the first tree take its place; their bytes follow its own. */
  lemma Unfold(t: Tree, others: seq<Tree>)
    ensures ForestBytes([t] + others) == t.own + ForestBytes(t.kids + others)
    ensures ContainersIn([t] + others) == (if t.container then 1 else 0) + ContainersIn(t.kids + others)
  {
    ForestConcat(t.kids, others);
    assert ([t] + others)[1..] == others;
  }

  lemma {:induction false} ForestNotShort(p: Pass, ts: seq<Tree>)
    requires AllWalkable(p, ts)
    ensures |ForestBytes(ts)| >= |ts|
  {
    if ts != [] {
      assert Walkable(p, ts[0]);
      ForestNotShort(p, ts[1..]);
    }
  }

  /**
   One pass turns "n trees, then the rest" into "n - 1 + kids trees, then the rest"; the counter never
   exceeds the bytes left, and the bytes left shrink.
   */
  lemma PassKeepsForest(p: Pass, ts: seq<Tree>, rest: seq<byte>) returns (next: seq<Tree>)
    requires ts != [] && AllWalkable(p, ts)
    ensures AllWalkable(p, next) && |next| <= |ForestBytes(next)| < |ForestBytes(ts)|
    ensures var b := ForestBytes(ts) + rest;
            && p(b) == Some(Step(|ts[0].own|, |ts[0].kids|, ts[0].container))
            && |next| == |ts| - 1 + |ts[0].kids|
            && |ts[0].own| <= |b| && b[|ts[0].own|..] == ForestBytes(next) + rest
    ensures ContainersIn(ts) == ContainersIn(next) + if ts[0].container then 1 else 0
  {
    var t, others := ts[0], ts[1..];
    assert ts == [t] + others && Walkable(p, t);
    next := t.kids + others;
    Unfold(t, others);
    ForestNotShort(p, next);
    Assoc(t.own, ForestBytes(next), rest);
    DropPrefix(t.own, ForestBytes(next) + rest);
  }

  /** Completeness: the loop walks every forest to its end, and its counter never wraps. */
  lemma {:induction false} LoopComplete(p: Pass, ts: seq<Tree>, rest: seq<byte>, m: nat)
    requires Progresses(p) && AllWalkable(p, ts) && |ForestBytes(ts)| < m && |ts| < m
    ensures Loop(p, ForestBytes(ts) + rest, |ts|, m) == Some(Run(rest, ContainersIn(ts)))
    decreases |ForestBytes(ts)|
  {
    if ts == [] {
      assert ForestBytes(ts) + rest == rest;
    } else {
      var next := PassKeepsForest(p, ts, rest);
      LoopComplete(p, next, rest, m);
      LoopTurn(p, ForestBytes(ts) + rest, |ts|, m);
    }
  }

  /** What a pass takes, it takes whatever follows. */
  ghost predicate Framed(p: Pass)
  {
    forall b: seq<byte>, rest: seq<byte> ::
      p(b).Some? && p(b).value.used <= |b| ==> p(b[..p(b).value.used] + rest) == p(b)
  }

  // ----- Whether the counter wraps -----

  /** No turn of the loop takes the counter out of a machine integer of `m` values. */
  ghost predicate NoWrap(p: Pass, b: seq<byte>, n: nat, m: nat)
    requires Progresses(p)
    decreases |b|
  {
    n == 0 || p(b).None?
    || (n - 1 + p(b).value.kids < m && NoWrap(p, b[p(b).value.used..], n - 1 + p(b).value.kids, m))
  }

  lemma NoWrapTurn(p: Pass, b: seq<byte>, n: nat, m: nat)
    requires Progresses(p) && n > 0 && p(b).Some?
    ensures var s := p(b).value;
            NoWrap(p, b, n, m) <==> n - 1 + s.kids < m && NoWrap(p, b[s.used..], n - 1 + s.kids, m)
  {}

  /** Where the counter does not wrap, a wider one makes no difference. */
  lemma {:induction false} SameRun(p: Pass, b: seq<byte>, n: nat, m: nat, wide: nat)
    requires Progresses(p) && n < m <= wide && NoWrap(p, b, n, m)
    ensures Loop(p, b, n, wide) == Loop(p, b, n, m)
    decreases |b|
  {
    if n == 0 {
      LoopDone(p, b, m);
      LoopDone(p, b, wide);
    } else if p(b).None? {
      LoopUnfold(p, b, n, m);
      LoopUnfold(p, b, n, wide);
    } else {
      var s := p(b).value;
      NoWrapTurn(p, b, n, m);
      SameRun(p, b[s.used..], n - 1 + s.kids, m, wide);
      LoopTurn(p, b, n, m);
      LoopTurn(p, b, n, wide);
    }
  }

  /** A forest at the front never makes a counter wrap that can count its bytes. */
  lemma {:induction false} ForestNoWrap(p: Pass, ts: seq<Tree>, rest: seq<byte>, m: nat)
    requires Progresses(p) && AllWalkable(p, ts) && |ForestBytes(ts)| < m
    ensures NoWrap(p, ForestBytes(ts) + rest, |ts|, m)
    decreases |ForestBytes(ts)|
  {
    if ts != [] {
      var next := PassKeepsForest(p, ts, rest);
      ForestNoWrap(p, next, rest, m);
      NoWrapTurn(p, ForestBytes(ts) + rest, |ts|, m);
    }
  }

  /** Nor does anything at all, if the counter has room for every byte to announce a full map. */
  lemma {:induction false} WideNoWrap(p: Pass, b: seq<byte>, n: nat, m: nat)
    requires Progresses(p) && n + 0x2_0000_0000 * |b| < m
    ensures NoWrap(p, b, n, m)
    decreases |b|
  {
    if n > 0 && p(b).Some? {
      var s := p(b).value;
      WideNoWrap(p, b[s.used..], n - 1 + s.kids, m);
      NoWrapTurn(p, b, n, m);
    }
  }

  /** Soundness: what the loop passed over is a forest, if its counter did not wrap. */
  lemma {:induction false} LoopSound(p: Pass, b: seq<byte>, n: nat, m: nat) returns (ts: seq<Tree>)
    requires Progresses(p) && Framed(p) && n < m
    requires NoWrap(p, b, n, m) && Loop(p, b, n, m).Some?
    ensures |ts| == n && AllWalkable(p, ts)
    ensures b == ForestBytes(ts) + Loop(p, b, n, m).value.rest
    ensures ContainersIn(ts) == Loop(p, b, n, m).value.containers
    decreases |b|
  {
    if n == 0 {
      LoopDone(p, b, m);
      ts := [];
    } else {
      LoopUnfold(p, b, n, m);
      var s := p(b).value;
      NoWrapTurn(p, b, n, m);
      LoopTurn(p, b, n, m);
      var us := LoopSound(p, b[s.used..], n - 1 + s.kids, m);
      TakeDrop(us, s.kids);
      var t := Node(b[..s.used], s.container, us[..s.kids]);
      assert OneStep(p, t);
      ts := [t] + us[s.kids..];
      Unfold(t, us[s.kids..]);
      TakeDrop(b, s.used);
      Assoc(t.own, ForestBytes(us), Loop(p, b, n, m).value.rest);
    }
  }

  lemma ForestOfOne(t: Tree)
    ensures ForestBytes([t]) == TreeBytes(t) && ContainersIn([t]) == Containers(t)
  {
    assert ForestBytes([t]) == TreeBytes(t) + ForestBytes([]);
    assert ContainersIn([t]) == Containers(t) + ContainersIn([]);
  }

  /** Completeness for one tree. */
  lemma LoopCompleteOne(p: Pass, t: Tree, rest: seq<byte>, m: nat)
    requires Progresses(p) && Walkable(p, t) && |TreeBytes(t)| < m && 1 < m
    ensures Loop(p, TreeBytes(t) + rest, 1, m) == Some(Run(rest, Containers(t)))
  {
    ForestOfOne(t);
    LoopComplete(p, [t], rest, m);
  }

  /** Soundness for one tree. */
  lemma LoopSoundOne(p: Pass, b: seq<byte>, m: nat) returns (t: Tree)
    requires Progresses(p) && Framed(p) && 1 < m
    requires NoWrap(p, b, 1, m) && Loop(p, b, 1, m).Some?
    ensures Walkable(p, t) && b == TreeBytes(t) + Loop(p, b, 1, m).value.rest
    ensures Containers(t) == Loop(p, b, 1, m).value.containers
  {
    var ts := LoopSound(p, b, 1, m);
    t := ts[0];
    assert ts == [t];
    ForestOfOne(t);
  }
}
