/** `cmp_skip_object` and its three companions as methods over a read context. */
module CmpSkippers {
  import opened Bytes
  import opened CmpFormat
  import opened CmpReader
  import opened Forest
  import opened CmpSkip

  lemma PassOnLeaf(marker: byte, ty: CmpType, rest: seq<byte>)
    requires Leads(LayoutOf(ty), marker) && !IsContainer(ty)
    ensures match TypeSize(ty, marker, rest)
            case Failed(_) => OnePass([marker] + rest) == None
            case Got(size, used) =>
              var extra := Extra(ty, size);
              if |rest| < used + extra then OnePass([marker] + rest) == None
              else OnePass([marker] + rest) == Some(Step(1 + used + extra, 0, false))
                   && rest[used..][extra..] == rest[used + extra..]
  {
    hide LayoutOf, TypeOf, TypeSize, Leads, Extra;
    var b := [marker] + rest;
    assert b[0] == marker && b[1..] == rest;
    TypeLeads(marker, ty);
  }

  /** The error code after a turn of the loop that fails: only the marker and a length field have one of their own; data
      that cannot be skipped leaves the code as it was. */
  function PassError(b: seq<byte>, before: CmpError): (e: CmpError)
  {
    if b == [] then TYPE_MARKER_READING
    else match TypeOf(b[0])
      case None => INVALID_TYPE
      case Some(ty) =>
        var l := LayoutOf(ty);
        if (l.Sized? || l.SizedExt?) && |b| < 1 + l.width.Count() then FieldError(ty) else before
  }

  lemma SizeErrorIs(marker: byte, ty: CmpType, rest: seq<byte>, before: CmpError)
    requires Leads(LayoutOf(ty), marker)
    ensures PassError([marker] + rest, before)
            == match TypeSize(ty, marker, rest) case Failed(e) => e case Got(_, _) => before
  {
    hide LayoutOf, TypeOf, Leads;
    assert ([marker] + rest)[0] == marker;
    TypeLeads(marker, ty);
  }

  /** Skipping a leaf whose marker has been read: length field, then the counted bytes. */
  method SkipLeaf(ctx: ReadContext, marker: byte, ty: CmpType) returns (ok: bool)
    requires ctx.Valid() && Leads(LayoutOf(ty), marker) && !IsContainer(ty)
    modifies ctx
    ensures ctx.Valid()
    ensures match OnePass([marker] + old(ctx.Rest()))
            case None => !ok && ctx.error == PassError([marker] + old(ctx.Rest()), old(ctx.error))
            case Some(s) => ok && s.kids == 0 && !s.container && s.used <= 1 + |old(ctx.Rest())|
                            && ctx.pos == old(ctx.pos) + s.used - 1 && ctx.error == old(ctx.error)
  {
    hide LayoutOf, TypeOf, TypeSize, Leads, OnePass, PassError;
    PassOnLeaf(marker, ty, ctx.Rest());
    SizeErrorIs(marker, ty, ctx.Rest(), ctx.error);
    var size;
    ok, size := ctx.ReadTypeSize(marker, ty);
    if !ok {
      return;
    }
    if size != 0 {
      var count := size;
      if IsExt(ty) {
        count := (count + 1) % 0x1_0000_0000;
      }
      ok := ctx.SkipBytes(count);
    }
  }

  lemma PassNeedsMarker(b: seq<byte>)
    ensures |b| == 0 || TypeOf(b[0]).None? ==> OnePass(b).None?
  {}

  /** The marker of the next element and its type. */
  method ReadHead(ctx: ReadContext, ghost b: seq<byte>) returns (ok: bool, marker: byte, ty: CmpType)
    requires ctx.Valid() && b == ctx.Rest()
    modifies ctx
    ensures ctx.Valid()
    ensures ok ==> b == [marker] + ctx.Rest() && TypeOf(marker) == Some(ty)
                   && Leads(LayoutOf(ty), marker) && ctx.error == old(ctx.error) && ctx.pos == old(ctx.pos) + 1
    ensures !ok ==> OnePass(b) == None && Decode(b).Err? && ctx.error == PassError(b, old(ctx.error))
  {
    hide LayoutOf, Leads, TypeOf, OnePass;
    ty := NIL;
    PassNeedsMarker(b);
    ok, marker := ctx.ReadTypeMarker();
    if !ok {
      return;
    }
    var announced := TypeOf(marker);
    if announced.None? {
      ctx.error := INVALID_TYPE;
      return false, marker, ty;
    }
    ty := announced.value;
    TypeLeads(marker, ty);
  }

  /** The number of elements a container header adds to the counter. */
  method ReadChildren(ctx: ReadContext, marker: byte, ty: CmpType) returns (ok: bool, n: nat)
    requires ctx.Valid() && Leads(LayoutOf(ty), marker) && IsContainer(ty)
    modifies ctx
    ensures ctx.Valid()
    ensures match OnePass([marker] + old(ctx.Rest()))
            case None => !ok && ctx.error == PassError([marker] + old(ctx.Rest()), old(ctx.error))
            case Some(s) => ok && s.kids == n && s.container && s.used <= 1 + |old(ctx.Rest())|
                            && ctx.pos == old(ctx.pos) + s.used - 1 && ctx.error == old(ctx.error)
  {
    hide LayoutOf, TypeOf, TypeSize, Leads, PassError;
    ghost var rest0 := ctx.Rest();
    SizeErrorIs(marker, ty, rest0, ctx.error);
    ghost var b := [marker] + rest0;
    TypeLeads(marker, ty);
    assert b[0] == marker && b[1..] == rest0;
    var size;
    ok, size := ctx.ReadTypeSize(marker, ty);
    n := if IsArray(ty) then size else size * 2;
  }

  /** The rest of an element: a container's header, or all of a leaf. */
  method SkipElement(ctx: ReadContext, marker: byte, ty: CmpType, ghost b: seq<byte>) returns (ok: bool, n: nat)
    requires ctx.Valid() && Leads(LayoutOf(ty), marker) && b == [marker] + ctx.Rest()
    modifies ctx
    ensures ctx.Valid()
    ensures match OnePass(b)
            case None => !ok && ctx.error == PassError(b, old(ctx.error))
            case Some(s) => ok && n == s.kids && s.container == IsContainer(ty) && 1 <= s.used <= |b|
                            && ctx.pos == old(ctx.pos) + s.used - 1 && ctx.error == old(ctx.error)
  {
    hide LayoutOf, TypeOf, Leads, OnePass, PassError;
    n := 0;
    if IsContainer(ty) {
      ok, n := ReadChildren(ctx, marker, ty);
    } else {
      ok := SkipLeaf(ctx, marker, ty);
    }
  }

  /** A container that is refused: its header goes to `obj`, so that the caller can go on from there. */
  method RefuseContainer(ctx: ReadContext, marker: byte, ty: CmpType, ghost b: seq<byte>) returns (obj: Obj)
    requires ctx.Valid() && Leads(LayoutOf(ty), marker) && IsContainer(ty) && b == [marker] + ctx.Rest()
    modifies ctx
    ensures ctx.Valid()
    ensures match Decode(b)
            case Ok(o, used) =>
              obj == o && used > 0 && ctx.pos == old(ctx.pos) + used - 1 && ctx.error == SKIP_DEPTH_LIMIT_EXCEEDED
            case Err(e) => ctx.error == e
  {
    hide LayoutOf, TypeOf, TypeSize, Leads, DecodeAs;
    TypeLeads(marker, ty);
    assert b[0] == marker && Decode(b) == DecodeAs(ty, b);
    var ok;
    ok, obj := ctx.ReadObjData(marker, ty);
    if ok {
      ctx.error := SKIP_DEPTH_LIMIT_EXCEEDED;
    }
  }

  /** A container at the front is one the reader finds there, if its header is complete. */
  lemma ContainerHead(b: seq<byte>, ty: CmpType, before: CmpError)
    requires |b| > 0 && Leads(LayoutOf(ty), b[0]) && IsContainer(ty)
    ensures match Decode(b)
            case Ok(o, used) => o.ty == ty && OnePass(b).Some? && OnePass(b).value.used == used
            case Err(e) => OnePass(b).None? && e == PassError(b, before)
    ensures OnePass(b).Some? ==> OnePass(b).value.container
  {
    hide TypeOf, FromBE, BE;
    TypeLeads(b[0], ty);
  }

  /** The marker tells whether a pass takes a container, and whether the reader finds one. */
  lemma HeadDecides(b: seq<byte>, marker: byte, ty: CmpType)
    requires |b| > 0 && b[0] == marker && TypeOf(marker) == Some(ty)
    ensures OnePass(b).Some? ==> OnePass(b).value.container == IsContainer(ty)
    ensures Decode(b).Ok? ==> Decode(b).obj.ty == ty
  {
    hide LayoutOf, TypeOf;
  }

  function Plus(r: Option<Run>, k: nat): Option<Run>
  {
    if r.None? then None else Some(Run(r.value.rest, r.value.containers + k))
  }

  /** The counter behind an element with `kids` children, in a machine integer of `m` values. */
  function NextCount(n: nat, kids: nat, m: nat): (r: nat)
    requires 0 < n && 0 < m
    ensures r < m
  {
    (n - 1 + kids) % m
  }

  /** One turn of the loop, with the containers seen so far. */
  lemma Turn(b: seq<byte>, n: nat, m: nat, seen: nat)
    requires 0 < n < m && Progresses(OnePass)
    ensures match OnePass(b)
            case None => Loop(OnePass, b, n, m) == None
            case Some(s) =>
              Plus(Loop(OnePass, b, n, m), seen) ==
              Plus(Loop(OnePass, b[s.used..], NextCount(n, s.kids, m), m), seen + if s.container then 1 else 0)
  {
    hide OnePass, Loop, Plus, Counted;
    LoopUnfold(OnePass, b, n, m);
    if OnePass(b).Some? {
      var s := OnePass(b).value;
      PlusCounted(Loop(OnePass, b[s.used..], (n - 1 + s.kids) % m, m), s.container, seen);
    }
    PlusNone(seen);
  }

  lemma PlusCounted(r: Option<Run>, container: bool, seen: nat)
    ensures Plus(Counted(r, container), seen) == Plus(r, seen + if container then 1 else 0)
  {}

  lemma PlusNone(seen: nat)
    ensures Plus(None, seen) == None
  {}

  // ----- How far the loop comes -----

  /** Where the loop is: offset, counter and containers passed. */
  datatype Place = Place(p: nat, n: nat, seen: nat)

  /** The place after `k` turns on the stream `b`; None if the loop does not make so many. */
  ghost function PlaceAfter(b: seq<byte>, m: nat, k: nat): (r: Option<Place>)
    requires 1 < m
    ensures r.Some? ==> r.value.p <= |b| && r.value.n < m
  {
    if k == 0 then Some(Place(0, 1, 0))
    else
      match PlaceAfter(b, m, k - 1)
      case None => None
      case Some(at) =>
        if at.n == 0 then None
        else match OnePass(b[at.p..])
          case None => None
          case Some(s) =>
            Some(Place(at.p + s.used, NextCount(at.n, s.kids, m), at.seen + if s.container then 1 else 0))
  }

  /** The loop comes to offset `p` with elements still to come, past `seen` containers. */
  ghost predicate Reaches(b: seq<byte>, m: nat, p: nat, seen: nat)
    requires 1 < m
  {
    exists k: nat :: PlaceAfter(b, m, k).Some? && var at := PlaceAfter(b, m, k).value;
                     at.p == p && at.seen == seen && at.n > 0
  }

  /** The loop is at offset `p` with counter `n`, past `seen` containers. */
  ghost predicate Underway(b: seq<byte>, m: nat, p: nat, n: nat, seen: nat)
    requires 1 < m
  {
    OnePassIsFramed();
    && p <= |b| && n < m && SkipRun(b, m) == Plus(Loop(OnePass, b[p..], n, m), seen)
    && exists k: nat :: PlaceAfter(b, m, k) == Some(Place(p, n, seen))
  }

  lemma UnderwayAtStart(b: seq<byte>, m: nat)
    requires 1 < m
    ensures Underway(b, m, 0, 1, 0)
  {
    hide OnePass, Loop;
    assert PlaceAfter(b, m, 0) == Some(Place(0, 1, 0));
    assert b[0..] == b;
  }

  lemma UnderwayDone(b: seq<byte>, m: nat, p: nat, seen: nat)
    requires 1 < m && Underway(b, m, p, 0, seen)
    ensures p <= |b| && SkipRun(b, m) == Some(Run(b[p..], seen))
  {
    hide OnePass, Loop, SkipRun, PlaceAfter;
    OnePassIsFramed();
    LoopDone(OnePass, b[p..], m);
  }

  lemma UnderwayReaches(b: seq<byte>, m: nat, p: nat, n: nat, seen: nat)
    requires 1 < m && 0 < n && Underway(b, m, p, n, seen)
    ensures Reaches(b, m, p, seen)
  {
    hide OnePass, Loop, SkipRun, PlaceAfter;
  }

  lemma PlaceMoves(b: seq<byte>, m: nat, k: nat)
    requires 1 < m && PlaceAfter(b, m, k).Some? && PlaceAfter(b, m, k).value.n > 0
    requires OnePass(b[PlaceAfter(b, m, k).value.p..]).Some?
    ensures var at := PlaceAfter(b, m, k).value;
            var s := OnePass(b[at.p..]).value;
            PlaceAfter(b, m, k + 1)
            == Some(Place(at.p + s.used, NextCount(at.n, s.kids, m), at.seen + if s.container then 1 else 0))
  {
    hide OnePass;
  }

  /** One turn: the loop goes on from behind the element, or has failed. */
  lemma UnderwayTurn(b: seq<byte>, m: nat, p: nat, n: nat, seen: nat)
    requires 1 < m && 0 < n && Underway(b, m, p, n, seen)
    ensures p <= |b| && n < m && Reaches(b, m, p, seen)
    ensures match OnePass(b[p..])
            case None => SkipRun(b, m) == None
            case Some(s) =>
              var now := seen + if s.container then 1 else 0;
              && p + s.used <= |b| && Underway(b, m, p + s.used, NextCount(n, s.kids, m), now)
              && (SkipRun(b, m).Some? ==> SkipRun(b, m).value.containers >= now)
  {
    hide OnePass, Loop, Reaches, SkipRun, PlaceAfter, NextCount;
    OnePassIsFramed();
    UnderwayReaches(b, m, p, n, seen);
    Turn(b[p..], n, m, seen);
    if OnePass(b[p..]).Some? {
      var k: nat :| PlaceAfter(b, m, k) == Some(Place(p, n, seen));
      PlaceMoves(b, m, k);
      PassWithin(b[p..]);
      assert b[p..][OnePass(b[p..]).value.used..] == b[p + OnePass(b[p..]).value.used..];
    }
  }

  lemma Suffix(b: seq<byte>, i: nat, j: nat)
    requires i <= j <= |b|
    ensures b[i..][j - i..] == b[j..]
  {}

  lemma PassWithin(b: seq<byte>)
    requires OnePass(b).Some?
    ensures 1 <= OnePass(b).value.used <= |b|
  {}

  /** The loop fails at offset `p`, past `seen` containers, with the error code of that turn. */
  ghost predicate Stuck(b: seq<byte>, m: nat, p: nat, seen: nat, error: CmpError, before: CmpError)
    requires 1 < m
  {
    p <= |b| && Reaches(b, m, p, seen) && OnePass(b[p..]).None? && error == PassError(b[p..], before)
  }

  /** At offset `p`, past `limit` containers, the reader finds a container: `obj`, and stops at `off` behind it. */
  ghost predicate Refused(b: seq<byte>, m: nat, p: nat, limit: nat, obj: Obj, off: int, error: CmpError)
    requires 1 < m
  {
    && p <= |b| && Reaches(b, m, p, limit) && error == SKIP_DEPTH_LIMIT_EXCEEDED
    && match Decode(b[p..]) case Ok(o, used) => IsContainer(o.ty) && obj == o && off == p + used case Err(_) => false
  }

  lemma StuckHere(b: seq<byte>, m: nat, p: nat, seen: nat, error: CmpError, before: CmpError)
    requires 1 < m && p <= |b| && Reaches(b, m, p, seen) && OnePass(b[p..]).None?
    requires error == PassError(b[p..], before)
    ensures Stuck(b, m, p, seen, error, before)
  {}

  lemma RefusedOrStuck(b: seq<byte>, m: nat, p: nat, limit: nat, ty: CmpType, obj: Obj, off: int,
                       error: CmpError, before: CmpError)
    requires 1 < m && p < |b| && Reaches(b, m, p, limit) && Leads(LayoutOf(ty), b[p]) && IsContainer(ty)
    requires match Decode(b[p..])
             case Ok(o, used) => obj == o && off == p + used && error == SKIP_DEPTH_LIMIT_EXCEEDED
             case Err(e) => error == e
    ensures Refused(b, m, p, limit, obj, off, error) || Stuck(b, m, p, limit, error, before)
  {
    hide Reaches, Decode, OnePass, PassError, LayoutOf, Leads;
    ContainerHead(b[p..], ty, before);
  }

  /** `cmp_skip_object_no_limit`; `m` is the number of values of the host's size_t. */
  method SkipObjectNoLimit(ctx: ReadContext, m: nat) returns (ok: bool)
    requires ctx.Valid() && m > 1
    modifies ctx
    ensures ctx.Valid()
    ensures match SkipRun(old(ctx.Rest()), m)
            case None => !ok && exists p, n :: Stuck(old(ctx.Rest()), m, p, n, ctx.error, old(ctx.error))
            case Some(r) => ok && ctx.Rest() == r.rest && ctx.error == old(ctx.error)
  {
    hide OnePass, LayoutOf, Leads, TypeOf, NextCount, Underway, Reaches, PassError, Stuck, Refused, Decode, SkipRun;
    ghost var b0, start := ctx.Rest(), ctx.pos;
    UnderwayAtStart(b0, m);
    var elementCount := 1;
    ghost var seen := 0;
    while elementCount != 0
      invariant ctx.Valid() && 0 <= elementCount < m && ctx.error == old(ctx.error) && start <= ctx.pos
      invariant ctx.pos - start <= |b0|
      invariant 0 <= seen && Underway(b0, m, ctx.pos - start, elementCount, seen)
      decreases |ctx.input| - ctx.pos
    {
      ghost var p := ctx.pos - start;
      ghost var b := b0[p..];
      Suffix(ctx.input, start, ctx.pos);
      UnderwayTurn(b0, m, p, elementCount, seen);
      var marker, ty;
      ok, marker, ty := ReadHead(ctx, b);
      if !ok {
        StuckHere(b0, m, p, seen, ctx.error, old(ctx.error));
        return;
      }
      var n;
      ok, n := SkipElement(ctx, marker, ty, b);
      if !ok {
        StuckHere(b0, m, p, seen, ctx.error, old(ctx.error));
        return;
      }
      elementCount := NextCount(elementCount, n, m);
      seen := seen + if IsContainer(ty) then 1 else 0;
    }
    Suffix(ctx.input, start, ctx.pos);
    UnderwayDone(b0, m, ctx.pos - start, seen);
    ok := true;
  }

  /** What the skippers that refuse come to. A skip succeeds exactly if the loop does with at most `limit` containers;
      otherwise the first container beyond the limit is refused with its header in hand, or the loop got stuck
      before. */
  ghost predicate LimitedOutcome(b: seq<byte>, m: nat, limit: nat, unlimited: bool, ok: bool, off: int,
                                 error: CmpError, before: CmpError, obj: Obj)
    requires 1 < m
  {
    && ok == (SkipRun(b, m).Some? && (SkipRun(b, m).value.containers <= limit || unlimited))
    && (ok ==> 0 <= off <= |b| && b[off..] == SkipRun(b, m).value.rest && error == before)
    && (!ok ==>
          || (!unlimited && exists p :: Refused(b, m, p, limit, obj, off, error))
          || exists p, n: nat :: Stuck(b, m, p, n, error, before) && (n <= limit || unlimited))
  }

  lemma OutcomeDone(b: seq<byte>, m: nat, limit: nat, unlimited: bool, off: int, error: CmpError, obj: Obj)
    requires 1 < m && 0 <= off <= |b| && SkipRun(b, m).Some? && SkipRun(b, m).value.rest == b[off..]
    requires SkipRun(b, m).value.containers <= limit || unlimited
    ensures LimitedOutcome(b, m, limit, unlimited, true, off, error, error, obj)
  {
    hide SkipRun, Stuck, Refused;
  }

  lemma OutcomeStuck(b: seq<byte>, m: nat, limit: nat, unlimited: bool, p: nat, head: seq<byte>, seen: nat, off: int,
                     error: CmpError, before: CmpError, obj: Obj)
    requires 1 < m && SkipRun(b, m) == None && p <= |b| && Reaches(b, m, p, seen) && head == b[p..]
    requires OnePass(head).None? && error == PassError(head, before) && (seen <= limit || unlimited)
    ensures LimitedOutcome(b, m, limit, unlimited, false, off, error, before, obj)
  {
    hide SkipRun, Refused, OnePass, PassError, Reaches;
    assert Stuck(b, m, p, seen, error, before);
  }

  lemma OutcomeRefused(b: seq<byte>, m: nat, limit: nat, p: nat, head: seq<byte>, ty: CmpType, off: int,
                       error: CmpError, before: CmpError, obj: Obj)
    requires 1 < m && p < |b| && Reaches(b, m, p, limit) && head == b[p..]
    requires Leads(LayoutOf(ty), head[0]) && IsContainer(ty)
    requires SkipRun(b, m).Some? ==> SkipRun(b, m).value.containers > limit
    requires match Decode(head)
             case Ok(o, used) => obj == o && off == p + used && error == SKIP_DEPTH_LIMIT_EXCEEDED
             case Err(e) => error == e
    ensures LimitedOutcome(b, m, limit, false, false, off, error, before, obj)
  {
    hide SkipRun, Refused, Stuck, OnePass, PassError, Reaches, Leads, LayoutOf, Decode;
    RefusedOrStuck(b, m, p, limit, ty, obj, off, error, before);
  }

  /** What that says of values, on every host whose size_t can count the stream: a skip that succeeds without wrapping
      passed exactly one value of at most `limit` containers, and no such value is refused. */
  lemma LimitedMeansValues(b: seq<byte>, m: nat, limit: nat, unlimited: bool, ok: bool, off: int,
                           error: CmpError, before: CmpError, obj: Obj)
    requires 1 < m && |b| < m && LimitedOutcome(b, m, limit, unlimited, ok, off, error, before, obj)
    ensures ok && Unwrapped(b, m) <==>
            exists r: seq<byte>, n: nat :: StartsWithValue(b, r, n) && (n <= limit || unlimited)
    ensures ok && Unwrapped(b, m) ==>
              0 <= off <= |b| && exists n: nat :: StartsWithValue(b, b[off..], n) && (n <= limit || unlimited)
  {
    hide SkipRun, Unwrapped, StartsWithValue, Stuck, Refused;
    SkipIff(b, m);
    if ok && Unwrapped(b, m) {
      assert StartsWithValue(b, b[off..], SkipRun(b, m).value.containers);
    }
  }

  /** `cmp_skip_object_limit`: `limit` bounds the containers met, not their depth, and 0xFFFFFFFF bounds nothing. */
  method SkipObjectLimit(ctx: ReadContext, limit: u32, m: nat) returns (ok: bool, obj: Obj)
    requires ctx.Valid() && m > 1
    modifies ctx
    ensures ctx.Valid()
    ensures LimitedOutcome(old(ctx.Rest()), m, limit, limit == 0xFFFF_FFFF, ok, ctx.pos - old(ctx.pos),
                           ctx.error, old(ctx.error), obj)
  {
    hide OnePass, LayoutOf, Leads, TypeOf, NextCount, Underway, Reaches, PassError, LimitedOutcome, Decode, SkipRun,
      IsContainer;
    obj := Obj(NIL, Num(0));
    ghost var b0, start := ctx.Rest(), ctx.pos;
    UnderwayAtStart(b0, m);
    var elementCount, depth := 1, 0;
    ghost var seen := 0;
    while elementCount != 0
      invariant ctx.Valid() && 0 <= elementCount < m && ctx.error == old(ctx.error) && start <= ctx.pos
      invariant ctx.pos - start <= |b0|
      invariant 0 <= seen && Underway(b0, m, ctx.pos - start, elementCount, seen)
      invariant 0 <= depth <= limit && (seen == depth || limit == 0xFFFF_FFFF)
      decreases |ctx.input| - ctx.pos
    {
      ghost var p := ctx.pos - start;
      ghost var b := b0[p..];
      Suffix(ctx.input, start, ctx.pos);
      UnderwayTurn(b0, m, p, elementCount, seen);
      var marker, ty;
      ok, marker, ty := ReadHead(ctx, b);
      if !ok {
        OutcomeStuck(b0, m, limit, limit == 0xFFFF_FFFF, p, b, seen, ctx.pos - start, ctx.error, old(ctx.error), obj);
        return;
      }
      HeadDecides(b, marker, ty);
      if IsContainer(ty) {
        depth := (depth + 1) % 0x1_0000_0000;
        if depth > limit {
          obj := RefuseContainer(ctx, marker, ty, b);
          OutcomeRefused(b0, m, limit, p, b, ty, ctx.pos - start, ctx.error, old(ctx.error), obj);
          return false, obj;
        }
      }
      var n;
      ok, n := SkipElement(ctx, marker, ty, b);
      if !ok {
        OutcomeStuck(b0, m, limit, limit == 0xFFFF_FFFF, p, b, seen, ctx.pos - start, ctx.error, old(ctx.error), obj);
        return;
      }
      elementCount := NextCount(elementCount, n, m);
      seen := seen + if IsContainer(ty) then 1 else 0;
    }
    Suffix(ctx.input, start, ctx.pos);
    UnderwayDone(b0, m, ctx.pos - start, seen);
    OutcomeDone(b0, m, limit, limit == 0xFFFF_FFFF, ctx.pos - start, ctx.error, obj);
    ok := true;
  }

  /** `cmp_skip_object_flat`: one container and no container inside it. */
  method SkipObjectFlat(ctx: ReadContext, m: nat) returns (ok: bool, obj: Obj)
    requires ctx.Valid() && m > 1
    modifies ctx
    ensures ctx.Valid()
    ensures LimitedOutcome(old(ctx.Rest()), m, 1, false, ok, ctx.pos - old(ctx.pos), ctx.error, old(ctx.error), obj)
  {
    hide OnePass, LayoutOf, Leads, TypeOf, NextCount, Underway, Reaches, PassError, LimitedOutcome, Decode, SkipRun,
      IsContainer;
    obj := Obj(NIL, Num(0));
    ghost var b0, start := ctx.Rest(), ctx.pos;
    UnderwayAtStart(b0, m);
    var elementCount, inContainer := 1, false;
    ghost var seen := 0;
    while elementCount != 0
      invariant ctx.Valid() && 0 <= elementCount < m && ctx.error == old(ctx.error) && start <= ctx.pos
      invariant ctx.pos - start <= |b0|
      invariant 0 <= seen && Underway(b0, m, ctx.pos - start, elementCount, seen)
      invariant seen == if inContainer then 1 else 0
      decreases |ctx.input| - ctx.pos
    {
      ghost var p := ctx.pos - start;
      ghost var b := b0[p..];
      Suffix(ctx.input, start, ctx.pos);
      UnderwayTurn(b0, m, p, elementCount, seen);
      var marker, ty;
      ok, marker, ty := ReadHead(ctx, b);
      if !ok {
        OutcomeStuck(b0, m, 1, false, p, b, seen, ctx.pos - start, ctx.error, old(ctx.error), obj);
        return;
      }
      HeadDecides(b, marker, ty);
      if IsContainer(ty) {
        if inContainer {
          obj := RefuseContainer(ctx, marker, ty, b);
          OutcomeRefused(b0, m, 1, p, b, ty, ctx.pos - start, ctx.error, old(ctx.error), obj);
          return false, obj;
        }
        inContainer := true;
      }
      var n;
      ok, n := SkipElement(ctx, marker, ty, b);
      if !ok {
        OutcomeStuck(b0, m, 1, false, p, b, seen, ctx.pos - start, ctx.error, old(ctx.error), obj);
        return;
      }
      elementCount := NextCount(elementCount, n, m);
      seen := seen + if IsContainer(ty) then 1 else 0;
    }
    Suffix(ctx.input, start, ctx.pos);
    UnderwayDone(b0, m, ctx.pos - start, seen);
    OutcomeDone(b0, m, 1, false, ctx.pos - start, ctx.error, obj);
    ok := true;
  }

  /** `cmp_skip_object`: no container at all, and so no loop. A container whose header is there is handed back with the
      reader behind that header, whether its elements are there or not. */
  method SkipObject(ctx: ReadContext, ghost m: nat) returns (ok: bool, obj: Obj)
    requires ctx.Valid() && m > 1
    modifies ctx
    ensures ctx.Valid()
    ensures LimitedOutcome(old(ctx.Rest()), m, 0, false, ok, ctx.pos - old(ctx.pos), ctx.error, old(ctx.error), obj)
    ensures match Decode(old(ctx.Rest()))
            case Ok(o, used) =>
              IsContainer(o.ty) ==>
                !ok && obj == o && ctx.pos == old(ctx.pos) + used && ctx.error == SKIP_DEPTH_LIMIT_EXCEEDED
            case Err(_) => true
  {
    hide OnePass, LayoutOf, Leads, TypeOf, NextCount, Underway, Reaches, PassError, LimitedOutcome, Decode, SkipRun,
      IsContainer;
    obj := Obj(NIL, Num(0));
    ghost var b, start := ctx.Rest(), ctx.pos;
    SingleTurn(b, m);
    UnderwayAtStart(b, m);
    UnderwayTurn(b, m, 0, 1, 0);
    assert b[0..] == b;
    var marker, ty;
    ok, marker, ty := ReadHead(ctx, b);
    if !ok {
      OutcomeStuck(b, m, 0, false, 0, b, 0, ctx.pos - start, ctx.error, old(ctx.error), obj);
      return;
    }
    assert b[0] == marker;
    HeadDecides(b, marker, ty);
    if IsContainer(ty) {
      obj := RefuseContainer(ctx, marker, ty, b);
      OutcomeRefused(b, m, 0, 0, b, ty, ctx.pos - start, ctx.error, old(ctx.error), obj);
      return false, obj;
    }
    ok := SkipLeaf(ctx, marker, ty);
    if ok {
      OutcomeDone(b, m, 0, false, ctx.pos - start, ctx.error, obj);
    } else {
      OutcomeStuck(b, m, 0, false, 0, b, 0, ctx.pos - start, ctx.error, old(ctx.error), obj);
    }
  }

  /** A value without children is one turn; a container makes the count positive. */
  lemma SingleTurn(b: seq<byte>, m: nat)
    requires m > 1
    ensures match OnePass(b)
            case None => SkipRun(b, m) == None
            case Some(s) =>
              && (s.container && SkipRun(b, m).Some? ==> SkipRun(b, m).value.containers > 0)
              && (!s.container && s.kids == 0 ==> SkipRun(b, m) == Some(Run(b[s.used..], 0)))
  {
    hide OnePass;
    OnePassIsFramed();
    if OnePass(b).Some? && OnePass(b).value.kids == 0 {
      OneTurn(b, m);
    }
  }
}
