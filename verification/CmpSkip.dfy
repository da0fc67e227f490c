/**
 The skippers of client/src/cmp.c. They walk a nested value with one flat counter and no recursion; here
 they are proved against the tree grammar of MessagePack values.
 */
module CmpSkip {
  import opened Bytes
  import opened CmpFormat
  import opened CmpReader
  import opened Forest

  // ----- Values as trees of headers -----

  /**
   A value: its header, its own data bytes, and its children (for a map, keys and values alternating).
   `Stub` is a header the skippers take for a whole value although it is not one: a sized ext whose length
   field holds 0 or 0xFFFFFFFF, without the type byte (and data) that MessagePack puts after it.
   */
  datatype Value =
    | Value(head: Obj, data: seq<byte>, kids: seq<Value>)
    | Stub(width: Width, full: bool)

  function DataLength(o: Obj): (n: nat)
    requires Fits(o)
  {
    match o.val
    case Size(n) => if IsContainer(o.ty) then 0 else n
    case Ext(_, n) => n
    case _ => 0
  }

  function Arity(o: Obj): (n: nat)
    requires Fits(o)
  {
    if IsArray(o.ty) then o.val.size else if IsMap(o.ty) then 2 * o.val.size else 0
  }

  /** The ext headers the skippers mistake: the length field stops them from counting the type byte. */
  predicate Quirky(o: Obj)
    requires Fits(o)
  {
    LayoutOf(o.ty).SizedExt? && (o.val.esize == 0 || o.val.esize == 0xFFFF_FFFF)
  }

  predicate StubFits(w: Width, full: bool) { !w.W64? && (full ==> w.W32?) }

  /** A header that fits its type, with the data and the children it announces. */
  predicate HeadFits(v: Value)
  {
    match v
    case Value(head, data, kids) => Fits(head) && |data| == DataLength(head) && |kids| == Arity(head)
    case Stub(w, full) => StubFits(w, full)
  }

  predicate Fitting(v: Value) { HeadFits(v) && (v.Value? ==> forall k | k in v.kids :: Fitting(k)) }

  predicate StubFree(v: Value) { v.Value? && forall k | k in v.kids :: StubFree(k) }

  predicate QuirkFree(v: Value)
  {
    v.Value? ==> Fits(v.head) && !Quirky(v.head) && forall k | k in v.kids :: QuirkFree(k)
  }

  /** The MessagePack grammar. */
  predicate Standard(v: Value) { Fitting(v) && StubFree(v) }

  /** The grammar of what the skippers take for one value. */
  predicate Skippable(v: Value) { Fitting(v) && QuirkFree(v) }

  predicate AllFitting(vs: seq<Value>) { forall v | v in vs :: Fitting(v) }

  predicate AllSkippable(vs: seq<Value>) { AllFitting(vs) && forall v | v in vs :: QuirkFree(v) }

  function StubBytes(w: Width, full: bool): (b: seq<byte>)
    requires StubFits(w, full)
    ensures |b| == 1 + w.Count()
  {
    [match w case W8 => 0xC7 case W16 => 0xC8 case W32 => 0xC9] + BE(w, if full then 0xFFFF_FFFF else 0)
  }

  /** A value's bytes before its children. */
  function OwnBytes(v: Value): (b: seq<byte>)
    requires HeadFits(v)
    ensures |b| > 0
  {
    match v
    case Value(head, data, _) => Encode(head) + data
    case Stub(w, full) => StubBytes(w, full)
  }

  predicate IsContainerValue(v: Value) { v.Value? && IsContainer(v.head.ty) }

  function TreeOf(v: Value): (t: Tree)
    requires Fitting(v)
    ensures t.own == OwnBytes(v) && t.container == IsContainerValue(v)
    ensures t.kids == if v.Value? then TreesOf(v.kids) else []
    decreases v, 1
  {
    Node(OwnBytes(v), IsContainerValue(v), if v.Value? then TreesOf(v.kids) else [])
  }

  function TreesOf(vs: seq<Value>): (ts: seq<Tree>)
    requires AllFitting(vs)
    ensures |ts| == |vs|
    decreases vs, 0
  {
    if vs == [] then [] else [TreeOf(vs[0])] + TreesOf(vs[1..])
  }

  /** The bytes a writer produces for a value, header by header, by recursion on the tree. */
  function EncodeValue(v: Value): (b: seq<byte>)
    requires Fitting(v)
  {
    TreeBytes(TreeOf(v))
  }

  function ContainerCount(v: Value): (n: nat)
    requires Fitting(v)
  {
    Containers(TreeOf(v))
  }

  // ----- One pass of the skippers' loop -----

  /** Bytes the skippers pass over after the length field: `if (size)`, and `++size` in 32 bits for an ext. */
  function Extra(ty: CmpType, size: nat): (n: nat)
  {
    if size == 0 then 0 else if IsExt(ty) then (size + 1) % 0x1_0000_0000 else size
  }

  /** What one pass takes from the front of `b` and adds to the counter; None when it fails. */
  function OnePass(b: seq<byte>): (r: Option<Step>)
    ensures r.Some? ==> 1 <= r.value.used <= |b| && r.value.kids < 0x2_0000_0000
  {
    if |b| == 0 || TypeOf(b[0]).None? then None
    else
      var ty := TypeOf(b[0]).value;
      TypeLeads(b[0], ty);
      match TypeSize(ty, b[0], b[1..])
      case Failed(_) => None
      case Got(size, used) =>
        if IsArray(ty) then Some(Step(1 + used, size, true))
        else if IsMap(ty) then Some(Step(1 + used, 2 * size, true))
        else if |b| < 1 + used + Extra(ty, size) then None
        else Some(Step(1 + used + Extra(ty, size), 0, false))
  }

  // ----- A pass takes exactly one header and its data -----

  lemma PassOnStub(w: Width, full: bool, rest: seq<byte>)
    requires StubFits(w, full)
    ensures OnePass(StubBytes(w, full) + rest) == Some(Step(1 + w.Count(), 0, false))
  {
    var b, x := StubBytes(w, full) + rest, if full then 0xFFFF_FFFF else 0;
    assert b[1..][..w.Count()] == BE(w, x);
    BERoundTrip(w, x);
  }

  /** What `read_type_size` reports for an object's own header. */
  function SizeField(o: Obj): (r: SizeRead)
    requires Fits(o)
  {
    match LayoutOf(o.ty)
    case FixSize(_, _) => Got(o.val.size, 0)
    case UInt(_, w) => Got(w.Count(), 0)
    case SInt(_, w) => Got(w.Count(), 0)
    case Float(_, count) => Got(count, 0)
    case FixExt(_, fixed) => Got(fixed, 0)
    case Sized(_, w) => Got(o.val.size, w.Count())
    case SizedExt(_, w) => Got(o.val.esize, w.Count())
    case _ => Got(0, 0)
  }

  lemma SizeInHeader(o: Obj, rest: seq<byte>)
    requires Fits(o)
    ensures var b := Encode(o) + rest;
            Leads(LayoutOf(o.ty), b[0]) && TypeSize(o.ty, b[0], b[1..]) == SizeField(o)
  {
    var l, b := LayoutOf(o.ty), Encode(o) + rest;
    ValueInImage(l, o.val, rest);
    if l.Sized? || l.SizedExt? {
      assert b[1..][..l.width.Count()] == b[1..1 + l.width.Count()];
    }
  }

  /** Where the skippers' arithmetic on a leaf meets the specification's. */
  lemma LeafLength(o: Obj)
    requires Fits(o) && !IsContainer(o.ty)
    ensures var f := SizeField(o);
            f.Got? && (!Quirky(o) <==> 1 + f.used + Extra(o.ty, f.size) == |Encode(o)| + DataLength(o))
  {
    hide Image, BE;
    assert IsExt(o.ty) <==> LayoutOf(o.ty).FixExt? || LayoutOf(o.ty).SizedExt?;
    assert |Encode(o)| == HeaderLength(LayoutOf(o.ty));
    assert !IsExt(o.ty) ==> !o.val.Ext?;
    assert o.val.Size? ==> LayoutOf(o.ty).FixSize? || LayoutOf(o.ty).Sized?;
  }

  lemma ContainerLength(o: Obj)
    requires Fits(o) && IsContainer(o.ty)
    ensures var f := SizeField(o);
            f.Got? && 1 + f.used == |Encode(o)| && DataLength(o) == 0 && f.size == o.val.size
  {}

  lemma PassOnHead(v: Value, rest: seq<byte>)
    requires HeadFits(v) && (v.Value? ==> !Quirky(v.head))
    ensures OnePass(OwnBytes(v) + rest) ==
            Some(Step(|OwnBytes(v)|, if v.Value? then |v.kids| else 0, IsContainerValue(v)))
  {
    hide Image, LayoutOf, TypeOf, TypeSize, BE, Holds, DataLength, SizeField, Quirky, Extra, StubBytes;
    match v
    case Stub(w, full) => PassOnStub(w, full, rest);
    case Value(o, data, _) =>
      var b := Encode(o) + (data + rest);
      Assoc(Encode(o), data, rest);
      SizeInHeader(o, data + rest);
      TypeLeads(b[0], o.ty);
      if IsContainer(o.ty) {
        ContainerLength(o);
      } else {
        LeafLength(o);
      }
  }

  /** The header behind a pass: an object that is not quirky, or a stub. */
  lemma HeadOfPass(b: seq<byte>, kids: seq<Value>) returns (v: Value)
    requires OnePass(b).Some? && |kids| == OnePass(b).value.kids
    ensures HeadFits(v) && (v.Value? ==> !Quirky(v.head) && v.kids == kids) && (v.Stub? ==> kids == [])
    ensures IsContainerValue(v) == OnePass(b).value.container && b[..OnePass(b).value.used] == OwnBytes(v)
  {
    hide Image, BE, Holds, LayoutOf, HeaderLength, TypeOf, Quirky, SizeField, Extra, TypeSize, DataLength;
    var s, ty := OnePass(b).value, TypeOf(b[0]).value;
    TypeLeads(b[0], ty);
    SizedExtTypes(ty);
    if LayoutOf(ty).SizedExt? && Extra(ty, TypeSize(ty, b[0], b[1..]).size) == 0 {
      v := StubOfPass(b, ty);
    } else {
      var o, used := HeaderOfPass(b, ty);
      v := Value(o, b[used..s.used], kids);
      assert b[..s.used] == b[..used] + b[used..s.used];
    }
  }

  /** Where a pass succeeds, the whole header is there. */
  lemma HeaderOfPass(b: seq<byte>, ty: CmpType) returns (o: Obj, used: nat)
    requires OnePass(b).Some? && Leads(LayoutOf(ty), b[0])
    requires LayoutOf(ty).SizedExt? ==> Extra(ty, TypeSize(ty, b[0], b[1..]).size) != 0
    ensures Fits(o) && !Quirky(o) && o.ty == ty && used <= OnePass(b).value.used && Encode(o) == b[..used]
    ensures Arity(o) == OnePass(b).value.kids && IsContainer(ty) == OnePass(b).value.container
    ensures used + DataLength(o) == OnePass(b).value.used
  {
    hide Image, BE, TypeOf, LayoutOf;
    TypeLeads(b[0], ty);
    var l := LayoutOf(ty);
    PassCoversHeader(b, ty);
    used := HeaderLength(l);
    EncodeDecode(b);
    o := Decode(b).obj;
    assert b == b[..used] + b[used..];
    SizeInHeader(o, b[used..]);
    if IsContainer(ty) {
      ContainerLength(o);
    } else {
      LeafLength(o);
    }
  }

  lemma PassCoversHeader(b: seq<byte>, ty: CmpType)
    requires OnePass(b).Some? && Leads(LayoutOf(ty), b[0])
    requires LayoutOf(ty).SizedExt? ==> Extra(ty, TypeSize(ty, b[0], b[1..]).size) != 0
    ensures HeaderLength(LayoutOf(ty)) <= OnePass(b).value.used
  {
    hide TypeOf;
    TypeLeads(b[0], ty);
  }

  lemma SizedExtTypes(ty: CmpType)
    ensures LayoutOf(ty).SizedExt? <==> ty.EXT8? || ty.EXT16? || ty.EXT32?
  {}

  lemma StubOfPass(b: seq<byte>, ty: CmpType) returns (v: Value)
    requires OnePass(b).Some? && Leads(LayoutOf(ty), b[0]) && (ty.EXT8? || ty.EXT16? || ty.EXT32?)
    requires TypeSize(ty, b[0], b[1..]).Got? && Extra(ty, TypeSize(ty, b[0], b[1..]).size) == 0
    ensures v.Stub? && StubFits(v.width, v.full) && b[..OnePass(b).value.used] == OwnBytes(v)
    ensures OnePass(b).value.kids == 0 && !OnePass(b).value.container
  {
    hide TypeOf;
    TypeLeads(b[0], ty);
    var w, size := LayoutOf(ty).width, TypeSize(ty, b[0], b[1..]).size;
    v := Stub(w, size != 0);
    FromBERoundTrip(w, b[1..][..w.Count()]);
    assert b[..1 + w.Count()] == [b[0]] + b[1..][..w.Count()];
  }

  /** A pass depends only on the bytes it takes. */
  lemma OnePassIsFramed()
    ensures Progresses(OnePass) && Framed(OnePass)
  {
    forall b: seq<byte>, rest: seq<byte> | OnePass(b).Some?
      ensures OnePass(b[..OnePass(b).value.used] + rest) == OnePass(b)
    {
      var v := HeadOfPass(b, seq(OnePass(b).value.kids, _ => Stub(W8, false)));
      PassOnHead(v, rest);
    }
  }

  // ----- Values the skippers walk, and trees they walked -----

  lemma {:induction false} ValueIsWalkable(v: Value)
    requires Skippable(v)
    ensures Walkable(OnePass, TreeOf(v))
    decreases v, 1
  {
    forall rest: seq<byte>
      ensures OnePass(OwnBytes(v) + rest) == Some(Step(|OwnBytes(v)|, |TreeOf(v).kids|, IsContainerValue(v)))
    {
      PassOnHead(v, rest);
    }
    if v.Value? {
      ValuesAreWalkable(v.kids);
    }
  }

  lemma {:induction false} ValuesAreWalkable(vs: seq<Value>)
    requires AllSkippable(vs)
    ensures AllWalkable(OnePass, TreesOf(vs))
    decreases vs, 0
  {
    if vs != [] {
      ValueIsWalkable(vs[0]);
      ValuesAreWalkable(vs[1..]);
    }
  }

  lemma {:induction false} ValueOfTree(t: Tree) returns (v: Value)
    requires Walkable(OnePass, t)
    ensures Skippable(v) && TreeOf(v) == t
    decreases t, 1
  {
    var kids := ValuesOfTrees(t.kids);
    assert t.own + [] == t.own;
    assert OnePass(t.own + []) == Some(Step(|t.own|, |t.kids|, t.container));
    v := HeadOfPass(t.own, kids);
    assert t.own[..|t.own|] == t.own;
  }

  lemma {:induction false} ValuesOfTrees(ts: seq<Tree>) returns (vs: seq<Value>)
    requires AllWalkable(OnePass, ts)
    ensures AllSkippable(vs)
    ensures TreesOf(vs) == ts
    decreases ts, 0
  {
    if ts == [] {
      vs := [];
    } else {
      hide OnePass, TreeOf, Fitting, QuirkFree, Walkable;
      var v := ValueOfTree(ts[0]);
      var rest := ValuesOfTrees(ts[1..]);
      vs := [v] + rest;
      assert vs[1..] == rest;
    }
  }

  // ----- The skippers' loop against the grammar -----

  /** The bytes walked by `cmp_skip_object_no_limit` from a counter of one, and the containers passed. */
  ghost function SkipRun(b: seq<byte>, m: nat): (r: Option<Run>)
    requires m > 1
  {
    OnePassIsFramed();
    Loop(OnePass, b, 1, m)
  }

  /** On any stream that starts with a value, the loop ends exactly at the end of that value. */
  lemma SkipComplete(v: Value, rest: seq<byte>, m: nat)
    requires Skippable(v) && |EncodeValue(v)| < m && m > 1
    ensures SkipRun(EncodeValue(v) + rest, m) == Some(Run(rest, ContainerCount(v)))
  {
    hide OnePass, Loop;
    OnePassIsFramed();
    ValueIsWalkable(v);
    LoopCompleteOne(OnePass, TreeOf(v), rest, m);
  }

  /** On the stream `b` the counter stays below `m`: no turn announces more elements than it can count. */
  ghost predicate Unwrapped(b: seq<byte>, m: nat)
  {
    OnePassIsFramed();
    NoWrap(OnePass, b, 1, m)
  }

  /** What the loop passed over when it ended without wrapping is one value of the skippers' grammar. */
  lemma SkipSound(b: seq<byte>, m: nat) returns (v: Value)
    requires m > 1 && Unwrapped(b, m) && SkipRun(b, m).Some?
    ensures Skippable(v) && b == EncodeValue(v) + SkipRun(b, m).value.rest
    ensures ContainerCount(v) == SkipRun(b, m).value.containers
  {
    hide OnePass, Loop, NoWrap;
    OnePassIsFramed();
    var t := LoopSoundOne(OnePass, b, m);
    v := ValueOfTree(t);
  }

  /** A value at the front of a stream never makes the counter wrap that can count its bytes. */
  lemma ValueUnwrapped(v: Value, rest: seq<byte>, m: nat)
    requires Skippable(v) && |EncodeValue(v)| < m
    ensures Unwrapped(EncodeValue(v) + rest, m)
  {
    hide OnePass, NoWrap;
    OnePassIsFramed();
    ValueIsWalkable(v);
    ForestOfOne(TreeOf(v));
    assert AllWalkable(OnePass, [TreeOf(v)]);
    ForestNoWrap(OnePass, [TreeOf(v)], rest, m);
  }

  /** `b` starts with a value of the skippers' grammar, `rest` follows it, and it has `n` containers. */
  ghost predicate StartsWithValue(b: seq<byte>, rest: seq<byte>, n: nat)
  {
    exists v: Value :: Skippable(v) && b == EncodeValue(v) + rest && ContainerCount(v) == n
  }

  /** On every host whose size_t can count the stream: a stream starts with a value, what follows it and its number of
      containers are what the loop says, exactly when the loop succeeds and its counter did not wrap. */
  lemma SkipIff(b: seq<byte>, m: nat)
    requires |b| < m && m > 1
    ensures forall rest: seq<byte>, n: nat ::
              StartsWithValue(b, rest, n) <==> SkipRun(b, m) == Some(Run(rest, n)) && Unwrapped(b, m)
  {
    hide SkipRun, Unwrapped, StartsWithValue;
    if SkipRun(b, m).Some? && Unwrapped(b, m) {
      SkippedIsValue(b, m);
    }
    forall rest: seq<byte>, n: nat | StartsWithValue(b, rest, n)
      ensures SkipRun(b, m) == Some(Run(rest, n)) && Unwrapped(b, m)
    {
      ValueIsSkipped(b, m, rest, n);
    }
  }

  lemma SkippedIsValue(b: seq<byte>, m: nat)
    requires m > 1 && Unwrapped(b, m) && SkipRun(b, m).Some?
    ensures StartsWithValue(b, SkipRun(b, m).value.rest, SkipRun(b, m).value.containers)
  {
    hide SkipRun, Unwrapped, Skippable;
    var v := SkipSound(b, m);
  }

  lemma ValueIsSkipped(b: seq<byte>, m: nat, rest: seq<byte>, n: nat)
    requires |b| < m && m > 1 && StartsWithValue(b, rest, n)
    ensures SkipRun(b, m) == Some(Run(rest, n)) && Unwrapped(b, m)
  {
    hide SkipRun, Unwrapped, Fitting, QuirkFree;
    var v: Value :| Skippable(v) && b == EncodeValue(v) + rest && ContainerCount(v) == n;
    SkipComplete(v, rest, m);
    ValueUnwrapped(v, rest, m);
  }

  /** With a counter too wide to wrap, the loop succeeds on exactly the streams that start with a value. */
  lemma WideSkipIff(b: seq<byte>, m: nat)
    requires 1 + 0x2_0000_0000 * |b| < m
    ensures forall rest: seq<byte>, n: nat :: StartsWithValue(b, rest, n) <==> SkipRun(b, m) == Some(Run(rest, n))
  {
    hide SkipRun, OnePass, NoWrap, StartsWithValue;
    OnePassIsFramed();
    WideNoWrap(OnePass, b, 1, m);
    SkipIff(b, m);
  }

  /** A narrow host is right exactly when its counter did not wrap: it then says what a wide one says, and otherwise
      there is no value, so that any success of it is a mistake. */
  lemma NarrowIff(b: seq<byte>, m: nat, wide: nat)
    requires 1 < m && |b| < m <= wide && 1 + 0x2_0000_0000 * |b| < wide
    ensures SkipRun(b, wide) == if Unwrapped(b, m) then SkipRun(b, m) else None
  {
    SkipIff(b, m);
    WideSkipIff(b, wide);
    hide OnePass, NoWrap, StartsWithValue, Loop;
    if SkipRun(b, wide).Some? {
      var r := SkipRun(b, wide).value;
      assert StartsWithValue(b, r.rest, r.containers);
    }
    if Unwrapped(b, m) {
      OnePassIsFramed();
      SameRun(OnePass, b, 1, m, wide);
    }
  }

  // ----- Where the skippers part from MessagePack -----

  /** On a MessagePack leaf followed by anything, the loop ends at its end exactly when its header is not quirky. */
  lemma LeafSkipIff(v: Value, rest: seq<byte>, m: nat)
    requires Standard(v) && !IsContainer(v.head.ty) && m > 1
    ensures SkipRun(EncodeValue(v) + rest, m) == Some(Run(rest, 0)) <==> !Quirky(v.head)
  {
    hide OnePass, Image, LayoutOf, Holds, BE, TypeSize, TypeOf, Loop;
    OnePassIsFramed();
    LeafHasNoKids(v);
    var own, b := OwnBytes(v), EncodeValue(v) + rest;
    assert own + ForestBytes([]) == own;
    assert b == own + rest;
    LeafPass(v, rest);
    var s := OnePass(b).value;
    OneTurn(b, m);
    assert |b| == |own| + |rest| && |b[s.used..]| == |b| - s.used;
    if !Quirky(v.head) {
      DropPrefix(own, rest);
    }
  }

  lemma LeafHasNoKids(v: Value)
    requires Standard(v) && !IsContainer(v.head.ty)
    ensures v.kids == []
  {}

  lemma OneTurn(b: seq<byte>, m: nat)
    requires m > 1 && Progresses(OnePass) && OnePass(b).Some? && OnePass(b).value.kids == 0
    ensures Loop(OnePass, b, 1, m) ==
            Some(Run(b[OnePass(b).value.used..], if OnePass(b).value.container then 1 else 0))
  {
    hide OnePass;
    LoopTurn(OnePass, b, 1, m);
  }

  /** A pass on a leaf takes all of it, or, when its header is quirky, less. */
  lemma LeafPass(v: Value, rest: seq<byte>)
    requires v.Value? && HeadFits(v) && !IsContainer(v.head.ty)
    ensures var b := OwnBytes(v) + rest;
            OnePass(b).Some? && OnePass(b).value.kids == 0 && !OnePass(b).value.container
            && (OnePass(b).value.used == |OwnBytes(v)| <==> !Quirky(v.head))
  {
    hide Image, LayoutOf, TypeOf, TypeSize, BE, Holds, DataLength, SizeField, Extra;
    var o := v.head;
    var b := Encode(o) + (v.data + rest);
    Assoc(Encode(o), v.data, rest);
    SizeInHeader(o, v.data + rest);
    TypeLeads(b[0], o.ty);
    LeafLength(o);
    if Quirky(o) {
      QuirkTakesNothing(o);
    }
  }

  lemma QuirkTakesNothing(o: Obj)
    requires Fits(o) && Quirky(o)
    ensures var f := SizeField(o); f.Got? && Extra(o.ty, f.size) == 0 && 1 + f.used < |Encode(o)|
  {
    hide BE;
  }

  /**
   Inside a container a quirky ext can still come out right: the byte left over is read as one more header.
   Here the ext of an array of two has no data and type byte 0x91, which then stands for an array of one.
   */
  lemma QuirkByCoincidence(m: nat)
    requires m > 16
    ensures var v := Value(Obj(FIXARRAY, Size(2)), [],
                           [Value(Obj(EXT8, Ext(-111, 0)), [], []), Value(Obj(NIL, Num(0)), [], [])]);
            Standard(v) && !QuirkFree(v) && SkipRun(EncodeValue(v), m) == Some(Run([], 2))
  {
    var ext, nil := Value(Obj(EXT8, Ext(-111, 0)), [], []), Value(Obj(NIL, Num(0)), [], []);
    var one := Value(Obj(FIXARRAY, Size(1)), [], [nil]);
    var taken := Value(Obj(FIXARRAY, Size(2)), [], [Stub(W8, false), one]);
    var v := Value(Obj(FIXARRAY, Size(2)), [], [ext, nil]);
    BytesOfCoincidence(ext, nil, one, taken, v);
    hide OnePass, Loop;
    SkipComplete(taken, [], m);
    assert EncodeValue(v) + [] == EncodeValue(v);
  }

  lemma BytesOfCoincidence(ext: Value, nil: Value, one: Value, taken: Value, v: Value)
    requires ext == Value(Obj(EXT8, Ext(-111, 0)), [], []) && nil == Value(Obj(NIL, Num(0)), [], [])
    requires one == Value(Obj(FIXARRAY, Size(1)), [], [nil])
    requires taken == Value(Obj(FIXARRAY, Size(2)), [], [Stub(W8, false), one])
    requires v == Value(Obj(FIXARRAY, Size(2)), [], [ext, nil])
    ensures Standard(v) && !QuirkFree(v) && Skippable(taken) && ContainerCount(taken) == 2
    ensures EncodeValue(taken) == EncodeValue(v) && |EncodeValue(v)| == 5
  {
    HeadsOfCoincidence(v, taken, ext, nil, one);
    FitOfCoincidence(ext, nil, one, taken, v);
    hide Fitting, QuirkFree, StubFree, HeadFits;
    OwnBytesOfCoincidence(ext, nil, one, v);
    hide OwnBytes, EncodeValue, ContainerCount;
    TwoKids(v, ext, nil);
    TwoKids(taken, Stub(W8, false), one);
    OneKid(one, nil);
    NoKids(ext); NoKids(nil); NoKids(Stub(W8, false));
    SameOwnBytes(v, taken);
    assert [0xC7, 0x00, 0x91] + [0xC0] == [0xC7, 0x00] + ([0x91] + [0xC0]);
  }

  lemma FitOfCoincidence(ext: Value, nil: Value, one: Value, taken: Value, v: Value)
    requires HeadFits(v) && HeadFits(taken) && HeadFits(ext) && HeadFits(nil) && HeadFits(one)
    requires HeadFits(Stub(W8, false)) && ext.Value? && nil.Value? && one.Value? && v.Value? && taken.Value?
    requires Quirky(ext.head) && !Quirky(nil.head) && !Quirky(one.head) && !Quirky(v.head) && taken.head == v.head
    requires ext.kids == [] && nil.kids == [] && one.kids == [nil]
    requires taken.kids == [Stub(W8, false), one] && v.kids == [ext, nil]
    ensures Fitting(nil) && Fitting(ext) && Fitting(one) && Fitting(Stub(W8, false)) && HeadFits(v) && HeadFits(taken)
    ensures HeadFits(one) && HeadFits(nil) && HeadFits(ext) && HeadFits(Stub(W8, false))
    ensures Standard(v) && !QuirkFree(v) && Skippable(taken)
  {
    hide HeadFits, Fits, Quirky, Fitting, StubFree, QuirkFree;
    NoneBelow(nil); NoneBelow(ext); NoneBelow(Stub(W8, false));
    OneBelow(one, nil);
    TwoBelow(v, ext, nil);
    TwoBelow(taken, Stub(W8, false), one);
  }

  lemma NoneBelow(v: Value)
    requires HeadFits(v) && (v.Value? ==> v.kids == [])
    ensures Fitting(v) && StubFree(v) == v.Value? && QuirkFree(v) == (v.Value? ==> !Quirky(v.head))
  {}

  lemma OneBelow(v: Value, k: Value)
    requires v.Value? && HeadFits(v) && v.kids == [k] && Fitting(k)
    ensures Fitting(v) && StubFree(v) == StubFree(k) && QuirkFree(v) == (!Quirky(v.head) && QuirkFree(k))
  {
    assert k in v.kids;
  }

  lemma TwoBelow(v: Value, j: Value, k: Value)
    requires v.Value? && HeadFits(v) && v.kids == [j, k] && Fitting(j) && Fitting(k)
    ensures Fitting(v) && StubFree(v) == (StubFree(j) && StubFree(k))
    ensures QuirkFree(v) == (!Quirky(v.head) && QuirkFree(j) && QuirkFree(k))
  {
    assert j in v.kids && k in v.kids;
  }

  lemma HeadsOfCoincidence(v: Value, taken: Value, ext: Value, nil: Value, one: Value)
    requires v.Value? && v.head == Obj(FIXARRAY, Size(2)) && v.data == [] && |v.kids| == 2
    requires taken.Value? && taken.head == v.head && taken.data == [] && |taken.kids| == 2
    requires ext == Value(Obj(EXT8, Ext(-111, 0)), [], []) && nil == Value(Obj(NIL, Num(0)), [], [])
    requires one.Value? && one.head == Obj(FIXARRAY, Size(1)) && one.data == [] && |one.kids| == 1
    ensures HeadFits(v) && HeadFits(taken) && HeadFits(ext) && HeadFits(nil) && HeadFits(one)
    ensures HeadFits(Stub(W8, false)) && Fits(ext.head) && Quirky(ext.head) && Fits(nil.head) && !Quirky(nil.head)
    ensures Fits(one.head) && !Quirky(one.head) && Fits(v.head) && !Quirky(v.head)
  {
    hide Image, BE;
  }

  lemma SameOwnBytes(v: Value, w: Value)
    requires v.Value? && w.Value? && HeadFits(v) && HeadFits(w) && v.head == w.head && v.data == w.data
    ensures OwnBytes(v) == OwnBytes(w)
  {}

  lemma OwnBytesOfCoincidence(ext: Value, nil: Value, one: Value, v: Value)
    requires HeadFits(ext) && HeadFits(nil) && HeadFits(one) && HeadFits(v)
    requires ext == Value(Obj(EXT8, Ext(-111, 0)), [], []) && nil == Value(Obj(NIL, Num(0)), [], [])
    requires one.Value? && one.head == Obj(FIXARRAY, Size(1)) && v.Value? && v.head == Obj(FIXARRAY, Size(2))
    ensures OwnBytes(ext) == [0xC7, 0x00, 0x91] && OwnBytes(nil) == [0xC0] && OwnBytes(one) == [0x91]
    ensures OwnBytes(v) == [0x92] && OwnBytes(Stub(W8, false)) == [0xC7, 0x00]
  {}

  lemma NoKids(v: Value)
    requires Fitting(v) && (v.Value? ==> v.kids == [])
    ensures EncodeValue(v) == OwnBytes(v) && ContainerCount(v) == if IsContainerValue(v) then 1 else 0
  {
    hide OwnBytes, HeadFits;
    assert TreeOf(v).kids == [] && ForestBytes([]) == [] && ContainersIn([]) == 0;
    assert OwnBytes(v) + [] == OwnBytes(v);
  }

  lemma OneKid(v: Value, k: Value)
    requires Fitting(v) && v.Value? && v.kids == [k]
    ensures EncodeValue(v) == OwnBytes(v) + EncodeValue(k)
    ensures ContainerCount(v) == (if IsContainerValue(v) then 1 else 0) + ContainerCount(k)
  {
    hide OwnBytes, HeadFits;
    assert TreesOf(v.kids) == [TreeOf(k)] + TreesOf([]);
    assert TreeOf(v).kids == [TreeOf(k)];
    ForestOfOne(TreeOf(k));
  }

  lemma TwoKids(v: Value, j: Value, k: Value)
    requires Fitting(v) && v.Value? && v.kids == [j, k]
    ensures EncodeValue(v) == OwnBytes(v) + (EncodeValue(j) + EncodeValue(k))
    ensures ContainerCount(v) == (if IsContainerValue(v) then 1 else 0) + ContainerCount(j) + ContainerCount(k)
  {
    hide OwnBytes, HeadFits;
    assert v.kids[1..] == [k];
    assert TreesOf([k]) == [TreeOf(k)] + TreesOf([]);
    assert TreeOf(v).kids == [TreeOf(j)] + [TreeOf(k)];
    ForestConcat([TreeOf(j)], [TreeOf(k)]);
    ForestOfOne(TreeOf(j));
    ForestOfOne(TreeOf(k));
  }

  /** On a 32-bit size_t the counter can wrap: a map header of 2^31 pairs alone is taken for a whole value. */
  lemma CounterWraps()
    ensures var b := Encode(Obj(MAP32, Size(0x8000_0000)));
            && SkipRun(b, 0x1_0000_0000) == Some(Run([], 1)) && !Unwrapped(b, 0x1_0000_0000)
            && SkipRun(b, 0x1_0000_0000_0000_0000) == None
  {
    var o := Obj(MAP32, Size(0x8000_0000));
    var b := Encode(o);
    MapPass(o);
    OnePassIsFramed();
    EmptyPass();
    hide OnePass, Loop, Image, LayoutOf, BE;
    var narrow: nat, wide: nat := 0x1_0000_0000, 0x1_0000_0000_0000_0000;
    assert b[|b|..] == [];
    LoopUnfold(OnePass, b, 1, narrow);
    LoopDone(OnePass, [], narrow);
    LoopUnfold(OnePass, b, 1, wide);
    LoopUnfold(OnePass, [], narrow, wide);
    NoWrapTurn(OnePass, b, 1, narrow);
  }

  lemma EmptyPass()
    ensures OnePass([]) == None
  {}

  lemma MapPass(o: Obj)
    requires Fits(o) && IsMap(o.ty)
    ensures OnePass(Encode(o)) == Some(Step(|Encode(o)|, 2 * o.val.size, true))
  {
    hide OnePass, BE, Image;
    ContainerLength(o);
    assert Arity(o) == 2 * o.val.size;
    var v := Value(o, [], seq(Arity(o), _ => Stub(W8, false)));
    PassOnHead(v, []);
    assert OwnBytes(v) + [] == Encode(o);
  }
}
