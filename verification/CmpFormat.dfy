/**
 The MessagePack object headers of client/src/cmp.c on values: the type table, the bytes of every
 header, and what reading a header gives. The reading and writing methods of CmpReader and CmpWriter
 are proved against `Decode` and `Encode`.
 */
module CmpFormat {
  import opened Bytes

  datatype CmpType =
    | POSITIVE_FIXNUM | FIXMAP | FIXARRAY | FIXSTR | NIL | BOOLEAN
    | BIN8 | BIN16 | BIN32 | EXT8 | EXT16 | EXT32 | FLOAT | DOUBLE
    | UINT8 | UINT16 | UINT32 | UINT64 | SINT8 | SINT16 | SINT32 | SINT64
    | FIXEXT1 | FIXEXT2 | FIXEXT4 | FIXEXT8 | FIXEXT16
    | STR8 | STR16 | STR32 | ARRAY16 | ARRAY32 | MAP16 | MAP32 | NEGATIVE_FIXNUM

  datatype CmpError =
    | NONE | INPUT_VALUE_TOO_LARGE | FIXED_VALUE_WRITING | TYPE_MARKER_READING | TYPE_MARKER_WRITING
    | DATA_READING | DATA_WRITING | EXT_TYPE_READING | EXT_TYPE_WRITING | INVALID_TYPE
    | LENGTH_READING | LENGTH_WRITING | SKIP_DEPTH_LIMIT_EXCEEDED | INTERNAL

  /** The union `cmp_object_t.as`; `Raw` is the big-endian IEEE image of a float or double. */
  datatype Payload =
    | Num(n: int)
    | Bool(b: bool)
    | Raw(image: seq<byte>)
    | Size(size: nat)
    | Ext(etype: int, esize: nat)

  datatype Obj = Obj(ty: CmpType, val: Payload)

  // ----- The type table -----

  /** The type a leading byte announces; 0xC1 is the one byte that announces none. */
  function TypeOf(marker: byte): (t: Option<CmpType>)
    ensures t == None <==> marker == 0xC1
  {
    if marker <= 0x7F then Some(POSITIVE_FIXNUM)
    else if marker <= 0x8F then Some(FIXMAP)
    else if marker <= 0x9F then Some(FIXARRAY)
    else if marker <= 0xBF then Some(FIXSTR)
    else if marker >= 0xE0 then Some(NEGATIVE_FIXNUM)
    else match marker
      case 0xC0 => Some(NIL)
      case 0xC2 => Some(BOOLEAN)
      case 0xC3 => Some(BOOLEAN)
      case 0xC4 => Some(BIN8)
      case 0xC5 => Some(BIN16)
      case 0xC6 => Some(BIN32)
      case 0xC7 => Some(EXT8)
      case 0xC8 => Some(EXT16)
      case 0xC9 => Some(EXT32)
      case 0xCA => Some(FLOAT)
      case 0xCB => Some(DOUBLE)
      case 0xCC => Some(UINT8)
      case 0xCD => Some(UINT16)
      case 0xCE => Some(UINT32)
      case 0xCF => Some(UINT64)
      case 0xD0 => Some(SINT8)
      case 0xD1 => Some(SINT16)
      case 0xD2 => Some(SINT32)
      case 0xD3 => Some(SINT64)
      case 0xD4 => Some(FIXEXT1)
      case 0xD5 => Some(FIXEXT2)
      case 0xD6 => Some(FIXEXT4)
      case 0xD7 => Some(FIXEXT8)
      case 0xD8 => Some(FIXEXT16)
      case 0xD9 => Some(STR8)
      case 0xDA => Some(STR16)
      case 0xDB => Some(STR32)
      case 0xDC => Some(ARRAY16)
      case 0xDD => Some(ARRAY32)
      case 0xDE => Some(MAP16)
      case 0xDF => Some(MAP32)
      case _ => None
  }

  /** What follows the marker byte of each type, after the MessagePack specification. */
  datatype Layout =
    | FixNum(lo: int, hi: int)             // the value is in the marker
    | FixSize(base: nat, max: nat)         // the size is in the marker
    | Nil
    | Boolean                              // the truth value is in the marker
    | UInt(marker: byte, width: Width)
    | SInt(marker: byte, width: Width)
    | Float(marker: byte, count: nat)
    | Sized(marker: byte, width: Width)    // a length field
    | FixExt(marker: byte, fixed: nat)     // a type byte
    | SizedExt(marker: byte, width: Width) // a length field and a type byte

  function LayoutOf(ty: CmpType): Layout
  {
    match ty
    case POSITIVE_FIXNUM => FixNum(0, 0x7F)
    case NEGATIVE_FIXNUM => FixNum(-0x20, -1)
    case FIXMAP => FixSize(0x80, 0xF)
    case FIXARRAY => FixSize(0x90, 0xF)
    case FIXSTR => FixSize(0xA0, 0x1F)
    case NIL => Nil
    case BOOLEAN => Boolean
    case BIN8 => Sized(0xC4, W8)
    case BIN16 => Sized(0xC5, W16)
    case BIN32 => Sized(0xC6, W32)
    case EXT8 => SizedExt(0xC7, W8)
    case EXT16 => SizedExt(0xC8, W16)
    case EXT32 => SizedExt(0xC9, W32)
    case FLOAT => Float(0xCA, 4)
    case DOUBLE => Float(0xCB, 8)
    case UINT8 => UInt(0xCC, W8)
    case UINT16 => UInt(0xCD, W16)
    case UINT32 => UInt(0xCE, W32)
    case UINT64 => UInt(0xCF, W64)
    case SINT8 => SInt(0xD0, W8)
    case SINT16 => SInt(0xD1, W16)
    case SINT32 => SInt(0xD2, W32)
    case SINT64 => SInt(0xD3, W64)
    case FIXEXT1 => FixExt(0xD4, 1)
    case FIXEXT2 => FixExt(0xD5, 2)
    case FIXEXT4 => FixExt(0xD6, 4)
    case FIXEXT8 => FixExt(0xD7, 8)
    case FIXEXT16 => FixExt(0xD8, 16)
    case STR8 => Sized(0xD9, W8)
    case STR16 => Sized(0xDA, W16)
    case STR32 => Sized(0xDB, W32)
    case ARRAY16 => Sized(0xDC, W16)
    case ARRAY32 => Sized(0xDD, W32)
    case MAP16 => Sized(0xDE, W16)
    case MAP32 => Sized(0xDF, W32)
  }

  predicate IsArray(ty: CmpType) { ty.FIXARRAY? || ty.ARRAY16? || ty.ARRAY32? }
  predicate IsMap(ty: CmpType) { ty.FIXMAP? || ty.MAP16? || ty.MAP32? }
  predicate IsContainer(ty: CmpType) { IsArray(ty) || IsMap(ty) }
  predicate IsExt(ty: CmpType) { LayoutOf(ty).FixExt? || LayoutOf(ty).SizedExt? }

  // ----- Headers as values, layout by layout -----

  /** The value fits the layout. */
  predicate Holds(l: Layout, v: Payload)
  {
    match l
    case FixNum(lo, hi) => v.Num? && lo <= v.n <= hi && InSigned(W8, v.n)
    case FixSize(base, max) => v.Size? && v.size <= max && base + max < 0x100
    case Nil => v == Num(0)
    case Boolean => v.Bool?
    case UInt(_, w) => v.Num? && 0 <= v.n < w.Range()
    case SInt(_, w) => v.Num? && InSigned(w, v.n)
    case Float(_, count) => v.Raw? && |v.image| == count
    case Sized(_, w) => v.Size? && v.size < w.Range()
    case FixExt(_, fixed) => v.Ext? && v.esize == fixed && InSigned(W8, v.etype)
    case SizedExt(_, w) => v.Ext? && v.esize < w.Range() && InSigned(W8, v.etype)
  }

  /** The header bytes of a value. */
  function Image(l: Layout, v: Payload): (b: seq<byte>)
    requires Holds(l, v)
    ensures |b| == HeaderLength(l)
  {
    match l
    case FixNum(_, _) => [ToUnsigned(W8, v.n)]
    case FixSize(base, _) => [base + v.size]
    case Nil => [0xC0]
    case Boolean => [if v.b then 0xC3 else 0xC2]
    case UInt(m, w) => [m] + BE(w, v.n)
    case SInt(m, w) => [m] + BE(w, ToUnsigned(w, v.n))
    case Float(m, _) => [m] + v.image
    case Sized(m, w) => [m] + BE(w, v.size)
    case FixExt(m, _) => [m, ToUnsigned(W8, v.etype)]
    case SizedExt(m, w) => [m] + BE(w, v.esize) + [ToUnsigned(W8, v.etype)]
  }

  function HeaderLength(l: Layout): (n: nat)
    ensures n >= 1
  {
    match l
    case UInt(_, w) => 1 + w.Count()
    case SInt(_, w) => 1 + w.Count()
    case Float(_, count) => 1 + count
    case Sized(_, w) => 1 + w.Count()
    case FixExt(_, _) => 2
    case SizedExt(_, w) => 2 + w.Count()
    case _ => 1
  }

  /** `marker` is a leading byte of this layout. */
  predicate Leads(l: Layout, marker: byte)
  {
    match l
    case FixNum(lo, hi) => lo <= ToSigned(W8, marker) <= hi
    case FixSize(base, max) => base <= marker <= base + max < 0x100
    case Nil => marker == 0xC0
    case Boolean => marker == 0xC2 || marker == 0xC3
    case UInt(m, _) => marker == m
    case SInt(m, _) => marker == m
    case Float(m, _) => marker == m
    case Sized(m, _) => marker == m
    case FixExt(m, _) => marker == m
    case SizedExt(m, _) => marker == m
  }

  /** The value in a header that is complete. */
  function ValueIn(l: Layout, b: seq<byte>): (v: Payload)
    requires |b| >= HeaderLength(l) && Leads(l, b[0])
  {
    match l
    case FixNum(_, _) => Num(ToSigned(W8, b[0]))
    case FixSize(base, _) => Size(b[0] - base)
    case Nil => Num(0)
    case Boolean => Bool(b[0] == 0xC3)
    case UInt(_, w) => Num(FromBE(w, b[1..1 + w.Count()]))
    case SInt(_, w) => Num(ToSigned(w, FromBE(w, b[1..1 + w.Count()])))
    case Float(_, count) => Raw(b[1..1 + count])
    case Sized(_, w) => Size(FromBE(w, b[1..1 + w.Count()]))
    case FixExt(_, fixed) => Ext(ToSigned(W8, b[1]), fixed)
    case SizedExt(_, w) => Ext(ToSigned(W8, b[1 + w.Count()]), FromBE(w, b[1..1 + w.Count()]))
  }

  lemma FieldAt(b: seq<byte>, w: Width, x: nat, rest: seq<byte>)
    requires x < w.Range() && |b| > 0 && b == [b[0]] + BE(w, x) + rest
    ensures |b| >= 1 + w.Count() && FromBE(w, b[1..1 + w.Count()]) == x
  {
    assert b[1..1 + w.Count()] == BE(w, x);
    BERoundTrip(w, x);
  }

  lemma ValueInImage(l: Layout, v: Payload, rest: seq<byte>)
    requires Holds(l, v)
    ensures Leads(l, Image(l, v)[0]) && ValueIn(l, Image(l, v) + rest) == v
  {
    var b := Image(l, v) + rest;
    match l
    case FixNum(_, _) =>
    case FixSize(_, _) =>
    case Nil =>
    case Boolean =>
    case UInt(_, w) => FieldAt(b, w, v.n, rest);
    case SInt(_, w) => FieldAt(b, w, ToUnsigned(w, v.n), rest);
    case Float(_, count) => assert b[1..1 + count] == v.image;
    case Sized(_, w) => FieldAt(b, w, v.size, rest);
    case FixExt(_, _) =>
    case SizedExt(m, w) => SizedExtAt(m, w, v.etype, v.esize, rest);
  }

  lemma SizedExtAt(m: byte, w: Width, etype: int, esize: nat, rest: seq<byte>)
    requires esize < w.Range() && InSigned(W8, etype)
    ensures ValueIn(SizedExt(m, w), Image(SizedExt(m, w), Ext(etype, esize)) + rest) == Ext(etype, esize)
  {
    var t := [ToUnsigned(W8, etype)];
    var b := Image(SizedExt(m, w), Ext(etype, esize)) + rest;
    assert b == [b[0]] + BE(w, esize) + (t + rest);
    FieldAt(b, w, esize, t + rest);
  }

  lemma FieldImage(b: seq<byte>, w: Width)
    requires |b| >= 1 + w.Count()
    ensures FromBE(w, b[1..1 + w.Count()]) < w.Range()
    ensures [b[0]] + BE(w, FromBE(w, b[1..1 + w.Count()])) == b[..1 + w.Count()]
  {
    hide BE, FromBE;
    FromBERoundTrip(w, b[1..1 + w.Count()]);
  }

  lemma SignedImage(w: Width, x: nat)
    requires x < w.Range()
    ensures InSigned(w, ToSigned(w, x)) && ToUnsigned(w, ToSigned(w, x)) == x
  {}

  lemma ImageOfValueIn(l: Layout, b: seq<byte>)
    requires |b| >= HeaderLength(l) && Leads(l, b[0])
    ensures Holds(l, ValueIn(l, b)) && Image(l, ValueIn(l, b)) == b[..HeaderLength(l)]
  {
    if l.UInt? || l.SInt? || l.Sized? || l.SizedExt? {
      FieldOfValueIn(l, b);
    } else {
      SignedImage(W8, b[0]);
      if l.FixExt? {
        SignedImage(W8, b[1]);
        assert b[..2] == [b[0], b[1]];
      } else if l.Float? {
        assert b[..HeaderLength(l)] == [b[0]] + b[1..HeaderLength(l)];
      }
      hide ToSigned, ToUnsigned, InSigned;
    }
  }

  lemma FieldOfValueIn(l: Layout, b: seq<byte>)
    requires |b| >= HeaderLength(l) && Leads(l, b[0]) && (l.UInt? || l.SInt? || l.Sized? || l.SizedExt?)
    ensures Holds(l, ValueIn(l, b)) && Image(l, ValueIn(l, b)) == b[..HeaderLength(l)]
  {
    hide BE, FromBE, ToSigned, ToUnsigned, InSigned;
    var w := l.width;
    FieldImage(b, w);
    if l.SInt? {
      SignedImage(w, FromBE(w, b[1..1 + w.Count()]));
    } else if l.SizedExt? {
      SignedImage(W8, b[1 + w.Count()]);
      assert b[..2 + w.Count()] == b[..1 + w.Count()] + [b[1 + w.Count()]];
    }
  }

  // ----- Objects -----

  /** The object's value fits its type. */
  predicate Fits(o: Obj) { Holds(LayoutOf(o.ty), o.val) }

  /** The bytes of a header. */
  function Encode(o: Obj): (b: seq<byte>)
    requires Fits(o)
    ensures |b| > 0
  {
    Image(LayoutOf(o.ty), o.val)
  }

  datatype Decoded = Ok(obj: Obj, used: nat) | Err(error: CmpError)

  /** The error cmp.c reports for a length field or a value that cannot be read. */
  function FieldError(ty: CmpType): CmpError
  {
    match ty
    case BIN8 | BIN16 | BIN32 | EXT8 | EXT16 | EXT32 => LENGTH_READING
    case FIXEXT1 | FIXEXT2 | FIXEXT4 | FIXEXT8 | FIXEXT16 => EXT_TYPE_READING
    case _ => DATA_READING
  }

  /** Reading the header of type `ty` from the bytes `b`, whose first byte is its marker. */
  function DecodeAs(ty: CmpType, b: seq<byte>): (r: Decoded)
    requires |b| > 0 && Leads(LayoutOf(ty), b[0])
  {
    var l := LayoutOf(ty);
    if |b| >= HeaderLength(l) then Ok(Obj(ty, ValueIn(l, b)), HeaderLength(l))
    else if l.SizedExt? && |b| == 1 + l.width.Count() then Err(EXT_TYPE_READING)
    else Err(FieldError(ty))
  }

  /** What `cmp_read_object` finds at the front of `b`. */
  function Decode(b: seq<byte>): (r: Decoded)
  {
    if |b| == 0 then Err(TYPE_MARKER_READING)
    else match TypeOf(b[0])
      case None => Err(INVALID_TYPE)
      case Some(ty) => TypeLeads(b[0], ty); DecodeAs(ty, b)
  }

  /** The marker table of the reader and the layouts of the writer agree. */
  lemma TypeLeads(m: byte, ty: CmpType)
    ensures TypeOf(m) == Some(ty) <==> Leads(LayoutOf(ty), m)
  {
    hide TypeOf, LayoutOf, Leads;
    if TypeOf(m) == Some(ty) {
      MarkerLeads(m);
    }
    if Leads(LayoutOf(ty), m) {
      LeadsType(m, ty);
    }
  }

  lemma MarkerLeads(m: byte)
    requires TypeOf(m).Some?
    ensures Leads(LayoutOf(TypeOf(m).value), m)
  {
    if m <= 0xBF {
    } else if m >= 0xE0 {
    } else {
      match TypeOf(m).value
      case NIL =>
      case BOOLEAN =>
      case _ =>
        if m <= 0xCF {
          LowMarkers(m);
        } else if m <= 0xD7 {
          MiddleMarkers(m);
        } else {
          HighMarkers(m);
        }
    }
  }

  lemma LowMarkers(m: byte)
    requires 0xC4 <= m <= 0xCF
    ensures TypeOf(m).Some? && Leads(LayoutOf(TypeOf(m).value), m)
  {
    hide ToSigned;
  }

  lemma MiddleMarkers(m: byte)
    requires 0xD0 <= m <= 0xD7
    ensures TypeOf(m).Some? && Leads(LayoutOf(TypeOf(m).value), m)
  {
    hide ToSigned;
  }

  lemma HighMarkers(m: byte)
    requires 0xD8 <= m <= 0xDF
    ensures TypeOf(m).Some? && Leads(LayoutOf(TypeOf(m).value), m)
  {
    hide ToSigned;
  }

  lemma LeadsType(m: byte, ty: CmpType)
    requires Leads(LayoutOf(ty), m)
    ensures TypeOf(m) == Some(ty)
  {}

  // ----- The two maps undo each other -----

  /** Writing any object whose size fits its type, then reading, gives the object back and stops at its end. */
  lemma DecodeEncode(o: Obj, rest: seq<byte>)
    requires Fits(o)
    ensures Decode(Encode(o) + rest) == Ok(o, |Encode(o)|)
  {
    ValueInImage(LayoutOf(o.ty), o.val, rest);
    TypeLeads(Encode(o)[0], o.ty);
    assert (Encode(o) + rest)[0] == Encode(o)[0];
  }

  /** Reading any valid header, then writing, reproduces its bytes, non-minimal forms included. */
  lemma EncodeDecode(b: seq<byte>)
    requires Decode(b).Ok?
    ensures Fits(Decode(b).obj)
    ensures 1 <= Decode(b).used <= |b|
    ensures Encode(Decode(b).obj) == b[..Decode(b).used]
  {
    var ty := Decode(b).obj.ty;
    TypeLeads(b[0], ty);
    ImageOfValueIn(LayoutOf(ty), b);
  }

  /** Two objects with the same header bytes at the front of one stream are the same object. */
  lemma EncodeInjective(o: Obj, p: Obj, r: seq<byte>, s: seq<byte>)
    requires Fits(o) && Fits(p) && Encode(o) + r == Encode(p) + s
    ensures o == p && r == s
  {
    DecodeEncode(o, r);
    DecodeEncode(p, s);
    assert r == (Encode(o) + r)[|Encode(o)|..] && s == (Encode(p) + s)[|Encode(p)|..];
  }

  // ----- Integers -----

  /** The object `cmp_write_uinteger` writes. */
  function UIntObj(u: u64): (o: Obj)
    ensures Fits(o)
  {
    if u <= 0x7F then Obj(POSITIVE_FIXNUM, Num(u))
    else if u <= 0xFF then Obj(UINT8, Num(u))
    else if u <= 0xFFFF then Obj(UINT16, Num(u))
    else if u <= 0xFFFF_FFFF then Obj(UINT32, Num(u))
    else Obj(UINT64, Num(u))
  }

  /** The object `cmp_write_integer` writes. */
  function IntObj(d: int): (o: Obj)
    requires InSigned(W64, d)
    ensures Fits(o)
  {
    if d >= 0 then UIntObj(d)
    else if d >= -0x20 then Obj(NEGATIVE_FIXNUM, Num(d))
    else if d >= -0x80 then Obj(SINT8, Num(d))
    else if d >= -0x8000 then Obj(SINT16, Num(d))
    else if d >= -0x8000_0000 then Obj(SINT32, Num(d))
    else Obj(SINT64, Num(d))
  }

  /** The layouts chosen for unsigned integers. */
  lemma UIntImage(u: u64)
    ensures Encode(UIntObj(u)) == (
              if u <= 0x7F then Image(FixNum(0, 0x7F), Num(u))
              else if u <= 0xFF then Image(UInt(0xCC, W8), Num(u))
              else if u <= 0xFFFF then Image(UInt(0xCD, W16), Num(u))
              else if u <= 0xFFFF_FFFF then Image(UInt(0xCE, W32), Num(u))
              else Image(UInt(0xCF, W64), Num(u)))
  {}

  /** The layouts chosen for negative integers. */
  lemma NegImage(d: int)
    requires InSigned(W64, d) && d < 0
    ensures Encode(IntObj(d)) == (
              if d >= -0x20 then Image(FixNum(-0x20, -1), Num(d))
              else if d >= -0x80 then Image(SInt(0xD0, W8), Num(d))
              else if d >= -0x8000 then Image(SInt(0xD1, W16), Num(d))
              else if d >= -0x8000_0000 then Image(SInt(0xD2, W32), Num(d))
              else Image(SInt(0xD3, W64), Num(d)))
  {}

  predicate IsInteger(ty: CmpType)
  {
    var l := LayoutOf(ty);
    l.FixNum? || l.UInt? || l.SInt?
  }

  /** The value `cmp_read_long` takes from an object, if it is an integer in the range of int64. */
  function LongOf(o: Obj): (r: Option<int>)
    requires Fits(o)
  {
    if IsInteger(o.ty) && InSigned(W64, o.val.n) then Some(o.val.n) else None
  }

  /** The value `cmp_read_ulong` takes from an object, if it is a non-negative integer. */
  function ULongOf(o: Obj): (r: Option<int>)
    requires Fits(o)
  {
    if IsInteger(o.ty) && o.val.n >= 0 then Some(o.val.n) else None
  }

  /** Every int64 survives a write and a read. */
  lemma IntegerRoundTrip(d: int, rest: seq<byte>)
    requires InSigned(W64, d)
    ensures Decode(Encode(IntObj(d)) + rest) == Ok(IntObj(d), |Encode(IntObj(d))|)
    ensures LongOf(IntObj(d)) == Some(d)
  {
    hide *;
    IntObjValue(d);
    DecodeEncode(IntObj(d), rest);
  }

  lemma IntObjValue(d: int)
    requires InSigned(W64, d)
    ensures LongOf(IntObj(d)) == Some(d)
  {}

  /** Every uint64 survives a write and a read. */
  lemma UIntegerRoundTrip(u: u64, rest: seq<byte>)
    ensures Decode(Encode(UIntObj(u)) + rest) == Ok(UIntObj(u), |Encode(UIntObj(u))|)
    ensures ULongOf(UIntObj(u)) == Some(u)
  {
    hide *;
    UIntObjValue(u);
    DecodeEncode(UIntObj(u), rest);
  }

  lemma UIntObjValue(u: u64)
    ensures ULongOf(UIntObj(u)) == Some(u)
  {}

  /** No byte string from which the reader takes `d` has a shorter header than the one written for `d`. */
  lemma IntegerShortest(d: int, b: seq<byte>)
    requires InSigned(W64, d) && Decode(b).Ok? && Fits(Decode(b).obj) && LongOf(Decode(b).obj) == Some(d)
    ensures |Encode(IntObj(d))| <= Decode(b).used
  {
    EncodeDecode(b);
    IntegerFieldsGrow(d, Decode(b).obj);
  }

  lemma IntegerFieldsGrow(d: int, o: Obj)
    requires InSigned(W64, d) && Fits(o) && LongOf(o) == Some(d)
    ensures |Encode(IntObj(d))| <= |Encode(o)|
  {
    var l, m := LayoutOf(o.ty), LayoutOf(IntObj(d).ty);
    assert HeaderLength(m) <= HeaderLength(l);
  }

  /** The same for the unsigned pair. */
  lemma UIntegerShortest(u: u64, b: seq<byte>)
    requires Decode(b).Ok? && Fits(Decode(b).obj) && ULongOf(Decode(b).obj) == Some(u)
    ensures |Encode(UIntObj(u))| <= Decode(b).used
  {
    EncodeDecode(b);
    UIntegerFieldsGrow(u, Decode(b).obj);
  }

  lemma UIntegerFieldsGrow(u: u64, o: Obj)
    requires Fits(o) && ULongOf(o) == Some(u)
    ensures |Encode(UIntObj(u))| <= |Encode(o)|
  {
    var l, m := LayoutOf(o.ty), LayoutOf(UIntObj(u).ty);
    assert HeaderLength(m) <= HeaderLength(l);
  }

  // ----- Ext -----

  /** The object `cmp_write_ext_marker` writes. */
  function ExtObj(etype: int, size: u32): (o: Obj)
    requires InSigned(W8, etype)
    ensures Fits(o) && o.val == Ext(etype, size) && IsExt(o.ty)
  {
    var ty :=
      if size == 1 then FIXEXT1
      else if size == 2 then FIXEXT2
      else if size == 4 then FIXEXT4
      else if size == 8 then FIXEXT8
      else if size == 16 then FIXEXT16
      else if size <= 0xFF then EXT8
      else if size <= 0xFFFF then EXT16
      else EXT32;
    Obj(ty, Ext(etype, size))
  }

  /** The layouts chosen for ext headers. */
  lemma ExtImage(etype: int, size: u32)
    requires InSigned(W8, etype)
    ensures var v := Ext(etype, size);
            Encode(ExtObj(etype, size)) == (
              if size == 1 then Image(FixExt(0xD4, 1), v)
              else if size == 2 then Image(FixExt(0xD5, 2), v)
              else if size == 4 then Image(FixExt(0xD6, 4), v)
              else if size == 8 then Image(FixExt(0xD7, 8), v)
              else if size == 16 then Image(FixExt(0xD8, 16), v)
              else if size <= 0xFF then Image(SizedExt(0xC7, W8), v)
              else if size <= 0xFFFF then Image(SizedExt(0xC8, W16), v)
              else Image(SizedExt(0xC9, W32), v))
  {
    hide Image, BE, ToUnsigned;
  }

  /** The ext header written is the shortest the reader accepts for that type and size. */
  lemma ExtShortest(etype: int, size: u32, b: seq<byte>)
    requires InSigned(W8, etype) && Decode(b).Ok? && Decode(b).obj.val == Ext(etype, size)
    ensures |Encode(ExtObj(etype, size))| <= Decode(b).used
  {
    hide Image, BE, ToUnsigned, ValueIn, TypeOf;
    EncodeDecode(b);
    var l, m := LayoutOf(Decode(b).obj.ty), LayoutOf(ExtObj(etype, size).ty);
    assert HeaderLength(m) <= HeaderLength(l);
  }

  // ----- The format itself, byte by byte -----

  lemma FieldsOnTheWire()
    ensures BE(W8, 7) == [7] && BE(W16, 0x0102) == [1, 2] && BE(W32, 0x0102_0304) == [1, 2, 3, 4]
    ensures BE(W64, 0x0102_0304_0506_0708) == [1, 2, 3, 4, 5, 6, 7, 8]
  {
    FromBERoundTrip(W16, [1, 2]);
    FromBERoundTrip(W32, [1, 2, 3, 4]);
    FromBERoundTrip(W64, [1, 2, 3, 4, 5, 6, 7, 8]);
    assert [1, 2, 3, 4][..2] == [1, 2] && [1, 2, 3, 4][2..] == [3, 4];
    assert [1, 2, 3, 4, 5, 6, 7, 8][..4] == [1, 2, 3, 4] && [1, 2, 3, 4, 5, 6, 7, 8][4..] == [5, 6, 7, 8];
    assert [5, 6, 7, 8][..2] == [5, 6] && [5, 6, 7, 8][2..] == [7, 8];
  }

  /** The object is on the wire as these bytes. */
  predicate Wire(o: Obj, b: seq<byte>) { Fits(o) && Encode(o) == b }

  /** The one-byte formats of the MessagePack specification. */
  lemma FixFormats(n: nat)
    ensures n < 0x80 ==> Wire(Obj(POSITIVE_FIXNUM, Num(n)), [n])
    ensures 0 < n <= 32 ==> Wire(Obj(NEGATIVE_FIXNUM, Num(0 - n)), [0x100 - n])
    ensures n < 16 ==> Wire(Obj(FIXMAP, Size(n)), [0x80 + n]) && Wire(Obj(FIXARRAY, Size(n)), [0x90 + n])
    ensures n < 32 ==> Wire(Obj(FIXSTR, Size(n)), [0xA0 + n])
    ensures Wire(Obj(NIL, Num(0)), [0xC0])
    ensures Wire(Obj(BOOLEAN, Bool(false)), [0xC2]) && Wire(Obj(BOOLEAN, Bool(true)), [0xC3])
  {}

  lemma SizedWire(ty: CmpType, m: byte, w: Width, n: nat, field: seq<byte>, b: seq<byte>)
    requires LayoutOf(ty) == Sized(m, w) && n < w.Range() && BE(w, n) == field && b == [m] + field
    ensures Wire(Obj(ty, Size(n)), b)
  {
    hide LayoutOf, BE;
  }

  lemma NumberWire(ty: CmpType, m: byte, w: Width, n: nat, field: seq<byte>, b: seq<byte>)
    requires LayoutOf(ty) == UInt(m, w) || LayoutOf(ty) == SInt(m, w)
    requires InSigned(w, n) && n < w.Range() && BE(w, n) == field && b == [m] + field
    ensures Wire(Obj(ty, Num(n)), b)
  {
    hide LayoutOf, BE;
  }

  lemma FixExtWire(ty: CmpType, m: byte, etype: int, size: nat, b: seq<byte>)
    requires LayoutOf(ty) == FixExt(m, size) && InSigned(W8, etype) && b == [m, ToUnsigned(W8, etype)]
    ensures Wire(Obj(ty, Ext(etype, size)), b)
  {
    hide LayoutOf;
  }

  lemma SizedExtWire(ty: CmpType, m: byte, w: Width, n: nat, field: seq<byte>, b: seq<byte>)
    requires LayoutOf(ty) == SizedExt(m, w) && n < w.Range() && BE(w, n) == field && b == [m] + field + [5]
    ensures Wire(Obj(ty, Ext(5, n)), b)
  {
    hide LayoutOf, BE;
  }

  /** The formats with a field of one byte. */
  lemma ByteFormats()
    ensures Wire(Obj(BIN8, Size(7)), [0xC4, 7]) && Wire(Obj(STR8, Size(7)), [0xD9, 7])
    ensures Wire(Obj(UINT8, Num(7)), [0xCC, 7]) && Wire(Obj(SINT8, Num(7)), [0xD0, 7])
  {
    hide BE, Wire, Encode, Fits;
    FieldsOnTheWire();
    SizedWire(BIN8, 0xC4, W8, 7, [7], [0xC4, 7]);
    SizedWire(STR8, 0xD9, W8, 7, [7], [0xD9, 7]);
    NumberWire(UINT8, 0xCC, W8, 7, [7], [0xCC, 7]);
    NumberWire(SINT8, 0xD0, W8, 7, [7], [0xD0, 7]);
  }

  /** Of two bytes. */
  lemma WordFormats()
    ensures Wire(Obj(BIN16, Size(0x0102)), [0xC5, 1, 2]) && Wire(Obj(STR16, Size(0x0102)), [0xDA, 1, 2])
    ensures Wire(Obj(ARRAY16, Size(0x0102)), [0xDC, 1, 2]) && Wire(Obj(MAP16, Size(0x0102)), [0xDE, 1, 2])
  {
    hide BE, Wire, Encode, Fits;
    FieldsOnTheWire();
    SizedWire(BIN16, 0xC5, W16, 0x0102, [1, 2], [0xC5, 1, 2]);
    SizedWire(STR16, 0xDA, W16, 0x0102, [1, 2], [0xDA, 1, 2]);
    SizedWire(ARRAY16, 0xDC, W16, 0x0102, [1, 2], [0xDC, 1, 2]);
    SizedWire(MAP16, 0xDE, W16, 0x0102, [1, 2], [0xDE, 1, 2]);
  }

  /** Of four bytes. */
  lemma LongFormats()
    ensures Wire(Obj(BIN32, Size(0x0102_0304)), [0xC6, 1, 2, 3, 4])
    ensures Wire(Obj(STR32, Size(0x0102_0304)), [0xDB, 1, 2, 3, 4])
    ensures Wire(Obj(ARRAY32, Size(0x0102_0304)), [0xDD, 1, 2, 3, 4])
    ensures Wire(Obj(MAP32, Size(0x0102_0304)), [0xDF, 1, 2, 3, 4])
  {
    hide BE, Wire, Encode, Fits;
    FieldsOnTheWire();
    SizedWire(BIN32, 0xC6, W32, 0x0102_0304, [1, 2, 3, 4], [0xC6, 1, 2, 3, 4]);
    SizedWire(STR32, 0xDB, W32, 0x0102_0304, [1, 2, 3, 4], [0xDB, 1, 2, 3, 4]);
    SizedWire(ARRAY32, 0xDD, W32, 0x0102_0304, [1, 2, 3, 4], [0xDD, 1, 2, 3, 4]);
    SizedWire(MAP32, 0xDF, W32, 0x0102_0304, [1, 2, 3, 4], [0xDF, 1, 2, 3, 4]);
  }

  /** The integers of two and four bytes. */
  lemma IntegerFormats()
    ensures Wire(Obj(UINT16, Num(0x0102)), [0xCD, 1, 2]) && Wire(Obj(SINT16, Num(0x0102)), [0xD1, 1, 2])
    ensures Wire(Obj(UINT32, Num(0x0102_0304)), [0xCE, 1, 2, 3, 4])
    ensures Wire(Obj(SINT32, Num(0x0102_0304)), [0xD2, 1, 2, 3, 4])
  {
    hide BE, Wire, Encode, Fits;
    FieldsOnTheWire();
    NumberWire(UINT16, 0xCD, W16, 0x0102, [1, 2], [0xCD, 1, 2]);
    NumberWire(SINT16, 0xD1, W16, 0x0102, [1, 2], [0xD1, 1, 2]);
    NumberWire(UINT32, 0xCE, W32, 0x0102_0304, [1, 2, 3, 4], [0xCE, 1, 2, 3, 4]);
    NumberWire(SINT32, 0xD2, W32, 0x0102_0304, [1, 2, 3, 4], [0xD2, 1, 2, 3, 4]);
  }

  /** Of eight bytes, and the floats. */
  lemma WideFormats(image: seq<byte>)
    ensures Wire(Obj(UINT64, Num(0x0102_0304_0506_0708)), [0xCF, 1, 2, 3, 4, 5, 6, 7, 8])
    ensures Wire(Obj(SINT64, Num(0x0102_0304_0506_0708)), [0xD3, 1, 2, 3, 4, 5, 6, 7, 8])
    ensures |image| == 4 ==> Wire(Obj(FLOAT, Raw(image)), [0xCA] + image)
    ensures |image| == 8 ==> Wire(Obj(DOUBLE, Raw(image)), [0xCB] + image)
  {
    FloatFormats(image);
    hide BE, Wire, Encode, Fits;
    FieldsOnTheWire();
    NumberWire(UINT64, 0xCF, W64, 0x0102_0304_0506_0708, [1, 2, 3, 4, 5, 6, 7, 8], [0xCF, 1, 2, 3, 4, 5, 6, 7, 8]);
    NumberWire(SINT64, 0xD3, W64, 0x0102_0304_0506_0708, [1, 2, 3, 4, 5, 6, 7, 8], [0xD3, 1, 2, 3, 4, 5, 6, 7, 8]);
  }

  lemma FloatFormats(image: seq<byte>)
    ensures |image| == 4 ==> Wire(Obj(FLOAT, Raw(image)), [0xCA] + image)
    ensures |image| == 8 ==> Wire(Obj(DOUBLE, Raw(image)), [0xCB] + image)
  {}

  /** The ext formats of fixed size. */
  lemma FixExtFormats()
    ensures Wire(Obj(FIXEXT1, Ext(5, 1)), [0xD4, 5]) && Wire(Obj(FIXEXT2, Ext(5, 2)), [0xD5, 5])
    ensures Wire(Obj(FIXEXT4, Ext(5, 4)), [0xD6, 5]) && Wire(Obj(FIXEXT8, Ext(5, 8)), [0xD7, 5])
    ensures Wire(Obj(FIXEXT16, Ext(-1, 16)), [0xD8, 0xFF])
  {
    hide Wire;
    FixExtWire(FIXEXT1, 0xD4, 5, 1, [0xD4, 5]);
    FixExtWire(FIXEXT2, 0xD5, 5, 2, [0xD5, 5]);
    FixExtWire(FIXEXT4, 0xD6, 5, 4, [0xD6, 5]);
    FixExtWire(FIXEXT8, 0xD7, 5, 8, [0xD7, 5]);
    FixExtWire(FIXEXT16, 0xD8, -1, 16, [0xD8, 0xFF]);
  }

  /** The other ext formats: the type byte comes after the length. */
  lemma SizedExtFormats()
    ensures Wire(Obj(EXT8, Ext(5, 7)), [0xC7, 7, 5]) && Wire(Obj(EXT16, Ext(5, 0x0102)), [0xC8, 1, 2, 5])
    ensures Wire(Obj(EXT32, Ext(5, 0x0102_0304)), [0xC9, 1, 2, 3, 4, 5])
  {
    hide BE, Wire;
    FieldsOnTheWire();
    SizedExtWire(EXT8, 0xC7, W8, 7, [7], [0xC7, 7, 5]);
    SizedExtWire(EXT16, 0xC8, W16, 0x0102, [1, 2], [0xC8, 1, 2, 5]);
    SizedExtWire(EXT32, 0xC9, W32, 0x0102_0304, [1, 2, 3, 4], [0xC9, 1, 2, 3, 4, 5]);
  }

  /** What the reader answers when a header is cut short, or is none. */
  lemma CutHeaders()
    ensures Decode([]) == Err(TYPE_MARKER_READING) && Decode([0xC1]) == Err(INVALID_TYPE)
    ensures Decode([0xC4]) == Err(LENGTH_READING) && Decode([0xC5, 1]) == Err(LENGTH_READING)
    ensures Decode([0xC6, 1]) == Err(LENGTH_READING) && Decode([0xC7]) == Err(LENGTH_READING)
    ensures Decode([0xC8, 1]) == Err(LENGTH_READING) && Decode([0xC9, 1]) == Err(LENGTH_READING)
    ensures Decode([0xC7, 1]) == Err(EXT_TYPE_READING) && Decode([0xC8, 0, 1]) == Err(EXT_TYPE_READING)
    ensures Decode([0xC9, 0, 0, 0, 1]) == Err(EXT_TYPE_READING)
    ensures forall m: byte | 0xD4 <= m <= 0xD8 :: Decode([m]) == Err(EXT_TYPE_READING)
    ensures forall m: byte | 0xCA <= m <= 0xD3 || 0xD9 <= m <= 0xDF :: Decode([m]) == Err(DATA_READING)
  {
    hide *;
    CutLengths();
    CutTypes();
    CutRest();
  }

  lemma CutRest()
    ensures Decode([]) == Err(TYPE_MARKER_READING) && Decode([0xC1]) == Err(INVALID_TYPE)
    ensures forall m: byte | 0xD4 <= m <= 0xD8 :: Decode([m]) == Err(EXT_TYPE_READING)
    ensures forall m: byte | 0xCA <= m <= 0xD3 || 0xD9 <= m <= 0xDF :: Decode([m]) == Err(DATA_READING)
  {
    hide ValueIn, DecodeAs, TypeOf;
    NoMarker();
    forall m: byte | 0xD4 <= m <= 0xD8 ensures Decode([m]) == Err(EXT_TYPE_READING) {
      CutFixExt(m);
    }
    forall m: byte | 0xCA <= m <= 0xD3 || 0xD9 <= m <= 0xDF ensures Decode([m]) == Err(DATA_READING) {
      if m <= 0xD3 {
        CutNumber(m);
      } else {
        CutContainer(m);
      }
    }
  }

  lemma NoMarker()
    ensures TypeOf(0xC1) == None
  {}

  lemma CutLengths()
    ensures Decode([0xC4]) == Err(LENGTH_READING) && Decode([0xC5, 1]) == Err(LENGTH_READING)
    ensures Decode([0xC6, 1]) == Err(LENGTH_READING) && Decode([0xC7]) == Err(LENGTH_READING)
    ensures Decode([0xC8, 1]) == Err(LENGTH_READING) && Decode([0xC9, 1]) == Err(LENGTH_READING)
  {
    hide Decode;
    CutSized([0xC4], BIN8); CutSized([0xC5, 1], BIN16); CutSized([0xC6, 1], BIN32);
    CutSized([0xC7], EXT8); CutSized([0xC8, 1], EXT16); CutSized([0xC9, 1], EXT32);
  }

  lemma CutSized(b: seq<byte>, ty: CmpType)
    requires |b| > 0 && Leads(LayoutOf(ty), b[0]) && (LayoutOf(ty).Sized? || LayoutOf(ty).SizedExt?)
    requires |b| < 1 + LayoutOf(ty).width.Count()
    ensures Decode(b) == Err(FieldError(ty))
  {
    hide TypeOf, LayoutOf, Leads, FieldError;
    TypeLeads(b[0], ty);
  }

  lemma CutTypes()
    ensures Decode([0xC7, 1]) == Err(EXT_TYPE_READING) && Decode([0xC8, 0, 1]) == Err(EXT_TYPE_READING)
    ensures Decode([0xC9, 0, 0, 0, 1]) == Err(EXT_TYPE_READING)
  {
    hide ValueIn;
  }

  lemma CutFixExt(m: byte)
    requires 0xD4 <= m <= 0xD8
    ensures Decode([m]) == Err(EXT_TYPE_READING)
  {
    hide ValueIn;
  }

  lemma CutNumber(m: byte)
    requires 0xCA <= m <= 0xD3
    ensures Decode([m]) == Err(DATA_READING)
  {
    hide ValueIn;
  }

  lemma CutContainer(m: byte)
    requires 0xD9 <= m <= 0xDF
    ensures Decode([m]) == Err(DATA_READING)
  {
    hide ValueIn;
  }

  /** Which form an integer gets: a signed one exactly if it is negative. With the shortest form that leaves one. */
  lemma SignedIffNegative(d: int)
    requires InSigned(W64, d)
    ensures IntObj(d).val == Num(d)
    ensures var ty := IntObj(d).ty;
            && (d < 0 <==> ty.NEGATIVE_FIXNUM? || ty.SINT8? || ty.SINT16? || ty.SINT32? || ty.SINT64?)
            && (d >= 0 <==> ty.POSITIVE_FIXNUM? || ty.UINT8? || ty.UINT16? || ty.UINT32? || ty.UINT64?)
  {
    hide LayoutOf, Holds;
  }

  /** Which objects the integer readers take: the numbers of any form but nil, within the range. */
  lemma IntegersRead(o: Obj, n: int)
    requires Fits(o)
    ensures LongOf(o) == Some(n) <==>
            o.val == Num(n) && !o.ty.NIL? && -0x8000_0000_0000_0000 <= n < 0x8000_0000_0000_0000
    ensures ULongOf(o) == Some(n) <==> o.val == Num(n) && !o.ty.NIL? && n >= 0
  {}
}
