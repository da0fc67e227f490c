/** The writing half of the cmp context, over the bounded memory buffer of IoTClient.cpp. */
module CmpWriter {
  import opened Bytes
  import opened CmpFormat

  class MemoryBuffer {
    const data: array<byte>
    var size: nat
    const capacity: nat

    constructor (mem: array<byte>, capacity: nat)
      requires capacity <= mem.Length
      ensures Valid() && Contents() == [] && data == mem && this.capacity == capacity
    {
      data, size, this.capacity := mem, 0, capacity;
    }

    ghost predicate Valid() reads this { size <= capacity <= data.Length }

    ghost function Contents(): (c: seq<byte>)
      requires Valid()
      reads this, data
      ensures |c| == size
    {
      data[..size]
    }
  }

  /** The value `cmp_write_object` writes for a value `v` after its C casts; None when it refuses. */
  function Cast(l: Layout, v: Payload): (r: Option<Payload>)
    requires Shaped(l, v)
    ensures r.Some? ==> Holds(l, r.value)
  {
    match l
    case FixNum(lo, hi) => if lo <= v.n <= hi then Some(v) else None
    case FixSize(_, max) => if v.size % 0x100 <= max then Some(Size(v.size % 0x100)) else None
    case Nil => Some(Num(0))
    case Sized(_, w) => Some(Size(v.size % w.Range()))
    case FixExt(_, fixed) => Some(Ext(v.etype, fixed))
    case SizedExt(_, w) => Some(Ext(v.etype, v.esize % w.Range()))
    case _ => Some(v)
  }

  /** The union field selected by the layout holds a value of its C type. */
  predicate Shaped(l: Layout, v: Payload)
  {
    match l
    case FixNum(lo, hi) => v.Num? && hi < 0x80 && if lo < 0 then InSigned(W8, v.n) else 0 <= v.n < 0x100
    case FixSize(base, max) => v.Size? && v.size < 0x1_0000_0000 && base + max < 0x100
    case Nil => true
    case Sized(_, _) => v.Size? && v.size < 0x1_0000_0000
    case FixExt(_, _) => v.Ext? && v.esize < 0x1_0000_0000 && InSigned(W8, v.etype)
    case SizedExt(_, _) => v.Ext? && v.esize < 0x1_0000_0000 && InSigned(W8, v.etype)
    case _ => Holds(l, v)
  }

  lemma CastKeepsExactlyWhatFits(l: Layout, v: Payload)
    requires Shaped(l, v)
    ensures Holds(l, v) <==> Cast(l, v) == Some(v)
  {}

  /** Writing an object and reading it back gives it back exactly when its value fits its type. */
  lemma RoundTripIffFits(o: Obj, rest: seq<byte>)
    requires Shaped(LayoutOf(o.ty), o.val)
    ensures var c := Cast(LayoutOf(o.ty), o.val);
            Fits(o) <==> c.Some? && Decode(Encode(Obj(o.ty, c.value)) + rest).Ok?
                         && Decode(Encode(Obj(o.ty, c.value)) + rest).obj == o
  {
    var c := Cast(LayoutOf(o.ty), o.val);
    CastKeepsExactlyWhatFits(LayoutOf(o.ty), o.val);
    if c.Some? {
      DecodeEncode(Obj(o.ty, c.value), rest);
    }
  }

  /** A write of `enc` to a buffer holding `before` leaves `after`: it succeeds exactly when it fits, is
      then exactly an append, and otherwise leaves what was there followed by a proper prefix of `enc`. */
  predicate Appended(before: seq<byte>, after: seq<byte>, capacity: nat, enc: seq<byte>, ok: bool)
  {
    && ok == (|before| + |enc| <= capacity)
    && |before| <= |after| <= |before| + |enc|
    && ok == (|after| == |before| + |enc|)
    && after == before + enc[..|after| - |before|]
  }

  lemma AppendedLength(before: seq<byte>, after: seq<byte>, capacity: nat, enc: seq<byte>, ok: bool)
    requires Appended(before, after, capacity, enc, ok)
    ensures |before| <= |after| <= |before| + |enc| && (ok <==> |after| == |before| + |enc|)
  {}

  /** One write after another is the write of both. */
  lemma AppendedThen(before: seq<byte>, mid: seq<byte>, after: seq<byte>, capacity: nat,
                     a: seq<byte>, b: seq<byte>, ok: bool)
    requires |after| <= capacity && Appended(before, mid, capacity, a, true)
    requires Appended(mid, after, capacity, b, ok)
    ensures Appended(before, after, capacity, a + b, ok)
  {
    assert mid == before + a;
    assert (a + b)[..|after| - |before|] == a + b[..|after| - |mid|];
  }

  /** A write that stopped in its first part stopped in the whole. */
  lemma AppendedStopped(before: seq<byte>, mid: seq<byte>, capacity: nat, a: seq<byte>, b: seq<byte>)
    requires |mid| <= capacity && Appended(before, mid, capacity, a, false)
    ensures Appended(before, mid, capacity, a + b, false)
  {
    assert (a + b)[..|mid| - |before|] == a[..|mid| - |before|];
  }

  /** The error code of a write that stops after `written` bytes of a header of this layout. */
  function StopError(l: Layout, written: nat, before: CmpError): (e: CmpError)
  {
    match l
    case FixNum(_, _) => FIXED_VALUE_WRITING
    case FixSize(_, _) => FIXED_VALUE_WRITING
    case _ =>
      if written == 0 then TYPE_MARKER_WRITING
      else match l
        case Sized(_, _) => LENGTH_WRITING
        case FixExt(_, _) => EXT_TYPE_WRITING
        case SizedExt(_, _) => if written == 1 then LENGTH_WRITING else EXT_TYPE_WRITING
        case _ => before // the number itself has no code of its own
  }

  class WriteContext {
    const buf: MemoryBuffer
    const bigEndian: bool // byte order of the host
    var error: CmpError

    constructor (buf: MemoryBuffer, bigEndian: bool)
      ensures this.buf == buf && this.bigEndian == bigEndian && error == NONE
    {
      this.buf, this.bigEndian, error := buf, bigEndian, NONE;
    }

    twostate predicate Appends(enc: seq<byte>, ok: bool)
      requires old(buf.Valid()) && buf.Valid()
      reads this, buf, buf.data
    {
      Appended(old(buf.Contents()), buf.Contents(), buf.capacity, enc, ok)
    }

    /** A write of a header, and the error code it leaves. */
    twostate predicate Emits(l: Layout, v: Payload, ok: bool)
      requires old(buf.Valid()) && buf.Valid() && Holds(l, v)
      reads this, buf, buf.data
    {
      && Appends(Image(l, v), ok) && |buf.Contents()| >= |old(buf.Contents())|
      && error == if ok then old(error) else StopError(l, |buf.Contents()| - |old(buf.Contents())|, old(error))
    }

    /** `mem_buf_writer`: all of the bytes or none. */
    method Write(bytes: seq<byte>) returns (count: nat)
      requires buf.Valid()
      modifies buf`size, buf.data
      ensures buf.Valid() && (count == |bytes| || count == 0) && |buf.Contents()| == |old(buf.Contents())| + count
      ensures Appends(bytes, |old(buf.Contents())| + |bytes| <= buf.capacity)
      ensures |old(buf.Contents())| + |bytes| > buf.capacity ==> count == 0 && buf.Contents() == old(buf.Contents())
      ensures |old(buf.Contents())| + |bytes| <= buf.capacity ==> count == |bytes|
    {
      if buf.size + |bytes| > buf.capacity {
        return 0;
      }
      forall i | 0 <= i < |bytes| {
        buf.data[buf.size + i] := bytes[i];
      }
      buf.size := buf.size + |bytes|;
      count := |bytes|;
      assert buf.Contents() == old(buf.Contents()) + bytes;
    }

    /** `write_type_marker`, `write_fixed_value` and the other single bytes, which differ in the error reported. */
    method WriteMarker(b: byte, e: CmpError) returns (ok: bool)
      requires buf.Valid()
      modifies this, buf`size, buf.data
      ensures buf.Valid() && Appends([b], ok) && |buf.Contents()| == |old(buf.Contents())| + if ok then 1 else 0
      ensures error == if ok then old(error) else e
    {
      var n := Write([b]);
      ok := n == 1;
      if !ok {
        error := e;
      }
    }

    /** A marker and then a field: two writes, the second only after the first. */
    method WriteField(marker: byte, field: seq<byte>, e: CmpError) returns (ok: bool)
      requires buf.Valid()
      modifies this, buf`size, buf.data
      ensures buf.Valid() && Appends([marker] + field, ok)
      ensures |buf.Contents()| >= |old(buf.Contents())|
      ensures error == if ok then old(error)
                       else if |buf.Contents()| == |old(buf.Contents())| then TYPE_MARKER_WRITING else e
      ensures !ok ==> |buf.Contents()| <= |old(buf.Contents())| + 1
      ensures ok ==> |buf.Contents()| == |old(buf.Contents())| + 1 + |field|
    {
      hide Appended;
      ghost var before := buf.Contents();
      ok := WriteMarker(marker, TYPE_MARKER_WRITING);
      if !ok {
        AppendedStopped(before, buf.Contents(), buf.capacity, [marker], field);
        return;
      }
      ghost var mid := buf.Contents();
      var n := Write(field);
      ok := n == |field|;
      if !ok {
        error := e;
      }
      AppendedThen(before, mid, buf.Contents(), buf.capacity, [marker], field, ok);
    }

    method WritePfix(c: byte) returns (ok: bool)
      requires buf.Valid()
      modifies this, buf`size, buf.data
      ensures buf.Valid()
      ensures c <= 0x7F ==> Emits(FixNum(0, 0x7F), Num(c), ok)
      ensures c > 0x7F ==> !ok && error == INPUT_VALUE_TOO_LARGE && buf.Contents() == old(buf.Contents())
    {
      if c <= 0x7F {
        ok := WriteMarker(c, FIXED_VALUE_WRITING);
      } else {
        error := INPUT_VALUE_TOO_LARGE;
        ok := false;
      }
    }

    method WriteNfix(c: int) returns (ok: bool)
      requires buf.Valid() && InSigned(W8, c)
      modifies this, buf`size, buf.data
      ensures buf.Valid()
      ensures -0x20 <= c <= -1 ==> Emits(FixNum(-0x20, -1), Num(c), ok)
      ensures !(-0x20 <= c <= -1) ==>
                !ok && error == INPUT_VALUE_TOO_LARGE && buf.Contents() == old(buf.Contents())
    {
      if -0x20 <= c <= -1 {
        ok := WriteMarker(ToUnsigned(W8, c), FIXED_VALUE_WRITING);
      } else {
        error := INPUT_VALUE_TOO_LARGE;
        ok := false;
      }
    }

    /** `cmp_write_fixmap`, `cmp_write_fixarray`, `cmp_write_fixstr_marker`: `base` has the low bits clear. */
    method WriteFixSize(base: byte, max: nat, size: nat) returns (ok: bool)
      requires buf.Valid() && base + max < 0x100
      modifies this, buf`size, buf.data
      ensures buf.Valid()
      ensures size <= max ==> Emits(FixSize(base, max), Size(size), ok)
      ensures size > max ==> !ok && error == INPUT_VALUE_TOO_LARGE && buf.Contents() == old(buf.Contents())
    {
      if size <= max {
        ok := WriteMarker(base + size, FIXED_VALUE_WRITING);
      } else {
        error := INPUT_VALUE_TOO_LARGE;
        ok := false;
      }
    }

    /** The bytes a host stores for an integer after the byte swap of be16, be32 or be64. */
    function Stored(w: Width, x: nat): (b: seq<byte>)
      requires x < w.Range()
      ensures b == BE(w, x)
    {
      SwapStoresBigEndian(bigEndian, w, x);
      HostStore(bigEndian, w, Swap(bigEndian, w, x))
    }

    /** `cmp_write_u8` to `cmp_write_u64`. */
    method WriteUInt(marker: byte, w: Width, x: nat) returns (ok: bool)
      requires buf.Valid() && x < w.Range()
      modifies this, buf`size, buf.data
      ensures buf.Valid() && Emits(UInt(marker, w), Num(x), ok)
    {
      hide Appended, BE, HostStore, Swap;
      ok := WriteField(marker, Stored(w, x), error);
    }

    /** `cmp_write_s8` to `cmp_write_s64`. */
    method WriteSInt(marker: byte, w: Width, n: int) returns (ok: bool)
      requires buf.Valid() && InSigned(w, n)
      modifies this, buf`size, buf.data
      ensures buf.Valid() && Emits(SInt(marker, w), Num(n), ok)
    {
      hide Appended, BE, HostStore, Swap;
      ok := WriteField(marker, Stored(w, ToUnsigned(w, n)), error);
    }

    /** The `_marker` writers of str, bin, array and map: marker and length field. */
    method WriteSized(marker: byte, w: Width, size: nat) returns (ok: bool)
      requires buf.Valid() && size < w.Range()
      modifies this, buf`size, buf.data
      ensures buf.Valid() && Emits(Sized(marker, w), Size(size), ok)
    {
      hide Appended, BE, HostStore, Swap;
      ok := WriteField(marker, Stored(w, size), LENGTH_WRITING);
    }

    method WriteFloat(marker: byte, image: seq<byte>) returns (ok: bool)
      requires buf.Valid()
      modifies this, buf`size, buf.data
      ensures buf.Valid() && Emits(Float(marker, |image|), Raw(image), ok)
    {
      hide Appended;
      ok := WriteField(marker, image, error);
    }

    /** `cmp_write_fixext1_marker` to `cmp_write_fixext16_marker`. */
    method WriteFixExt(marker: byte, etype: int, ghost fixed: nat) returns (ok: bool)
      requires buf.Valid() && InSigned(W8, etype)
      modifies this, buf`size, buf.data
      ensures buf.Valid() && Emits(FixExt(marker, fixed), Ext(etype, fixed), ok)
    {
      hide Appended;
      assert [marker, ToUnsigned(W8, etype)] == [marker] + [ToUnsigned(W8, etype)];
      ok := WriteField(marker, [ToUnsigned(W8, etype)], EXT_TYPE_WRITING);
    }

    /** `cmp_write_ext8_marker`, `cmp_write_ext16_marker`, `cmp_write_ext32_marker`. */
    method WriteSizedExt(marker: byte, w: Width, etype: int, size: nat) returns (ok: bool)
      requires buf.Valid() && size < w.Range() && InSigned(W8, etype)
      modifies this, buf`size, buf.data
      ensures buf.Valid() && Emits(SizedExt(marker, w), Ext(etype, size), ok)
    {
      hide Appended, BE, HostStore, Swap;
      ghost var before, head, tail := buf.Contents(), [marker] + BE(w, size), [ToUnsigned(W8, etype)];
      ok := WriteField(marker, Stored(w, size), LENGTH_WRITING);
      ghost var mid := buf.Contents();
      if ok {
        ok := WriteMarker(ToUnsigned(W8, etype), EXT_TYPE_WRITING);
        AppendedThen(before, mid, buf.Contents(), buf.capacity, head, tail, ok);
      } else {
        AppendedStopped(before, mid, buf.capacity, head, tail);
      }
    }

    /** The outcome promised by `cmp_write_object` for `o`. */
    twostate predicate Writes(o: Obj, ok: bool)
      requires old(buf.Valid()) && buf.Valid() && Shaped(LayoutOf(o.ty), o.val)
      reads this, buf, buf.data
    {
      match Cast(LayoutOf(o.ty), o.val)
      case Some(v) => Emits(LayoutOf(o.ty), v, ok)
      case None => !ok && error == INPUT_VALUE_TOO_LARGE && buf.Contents() == old(buf.Contents())
    }

    /** The integer arms of `cmp_write_object`. */
    method WriteIntegerObject(o: Obj) returns (ok: bool)
      requires buf.Valid() && Shaped(LayoutOf(o.ty), o.val) && (LayoutOf(o.ty).UInt? || LayoutOf(o.ty).SInt?)
      modifies this, buf`size, buf.data
      ensures buf.Valid() && Writes(o, ok)
    {
      hide Appended, BE, Image;
      match o.ty {
        case UINT8 => ok := WriteUInt(0xCC, W8, o.val.n);
        case UINT16 => ok := WriteUInt(0xCD, W16, o.val.n);
        case UINT32 => ok := WriteUInt(0xCE, W32, o.val.n);
        case UINT64 => ok := WriteUInt(0xCF, W64, o.val.n);
        case SINT8 => ok := WriteSInt(0xD0, W8, o.val.n);
        case SINT16 => ok := WriteSInt(0xD1, W16, o.val.n);
        case SINT32 => ok := WriteSInt(0xD2, W32, o.val.n);
        case SINT64 => ok := WriteSInt(0xD3, W64, o.val.n);
      }
    }

    /** The str and bin arms of `cmp_write_object` with a length field. */
    method WriteRawObject(o: Obj) returns (ok: bool)
      requires buf.Valid() && Shaped(LayoutOf(o.ty), o.val)
      requires o.ty.BIN8? || o.ty.BIN16? || o.ty.BIN32? || o.ty.STR8? || o.ty.STR16? || o.ty.STR32?
      modifies this, buf`size, buf.data
      ensures buf.Valid() && Writes(o, ok)
    {
      hide Appended, BE, Image;
      match o.ty {
        case BIN8 => ok := WriteSized(0xC4, W8, o.val.size % 0x100);
        case BIN16 => ok := WriteSized(0xC5, W16, o.val.size % 0x1_0000);
        case BIN32 => ok := WriteSized(0xC6, W32, o.val.size);
        case STR8 => ok := WriteSized(0xD9, W8, o.val.size % 0x100);
        case STR16 => ok := WriteSized(0xDA, W16, o.val.size % 0x1_0000);
        case STR32 => ok := WriteSized(0xDB, W32, o.val.size);
      }
    }

    /** The array and map arms of `cmp_write_object` with a length field. */
    method WriteContainerObject(o: Obj) returns (ok: bool)
      requires buf.Valid() && Shaped(LayoutOf(o.ty), o.val)
      requires o.ty.ARRAY16? || o.ty.ARRAY32? || o.ty.MAP16? || o.ty.MAP32?
      modifies this, buf`size, buf.data
      ensures buf.Valid() && Writes(o, ok)
    {
      hide Appended, BE, Image;
      match o.ty {
        case ARRAY16 => ok := WriteSized(0xDC, W16, o.val.size % 0x1_0000);
        case ARRAY32 => ok := WriteSized(0xDD, W32, o.val.size);
        case MAP16 => ok := WriteSized(0xDE, W16, o.val.size % 0x1_0000);
        case MAP32 => ok := WriteSized(0xDF, W32, o.val.size);
      }
    }

    /** The ext arms of `cmp_write_object` with a length field. */
    method WriteSizedExtObject(o: Obj) returns (ok: bool)
      requires buf.Valid() && Shaped(LayoutOf(o.ty), o.val) && (LayoutOf(o.ty).SizedExt?)
      modifies this, buf`size, buf.data
      ensures buf.Valid() && Writes(o, ok)
    {
      hide Appended, BE, Image;
      match o.ty {
        case EXT8 => ok := WriteSizedExt(0xC7, W8, o.val.etype, o.val.esize % 0x100);
        case EXT16 => ok := WriteSizedExt(0xC8, W16, o.val.etype, o.val.esize % 0x1_0000);
        case EXT32 => ok := WriteSizedExt(0xC9, W32, o.val.etype, o.val.esize);
      }
    }

    /** The fixext arms of `cmp_write_object`. */
    method WriteFixExtObject(o: Obj) returns (ok: bool)
      requires buf.Valid() && Shaped(LayoutOf(o.ty), o.val) && (LayoutOf(o.ty).FixExt?)
      modifies this, buf`size, buf.data
      ensures buf.Valid() && Writes(o, ok)
    {
      hide Appended, BE, Image;
      match o.ty {
        case FIXEXT1 => ok := WriteFixExt(0xD4, o.val.etype, 1);
        case FIXEXT2 => ok := WriteFixExt(0xD5, o.val.etype, 2);
        case FIXEXT4 => ok := WriteFixExt(0xD6, o.val.etype, 4);
        case FIXEXT8 => ok := WriteFixExt(0xD7, o.val.etype, 8);
        case FIXEXT16 => ok := WriteFixExt(0xD8, o.val.etype, 16);
      }
    }

    method WriteObject(o: Obj) returns (ok: bool)
      requires buf.Valid() && Shaped(LayoutOf(o.ty), o.val)
      modifies this, buf`size, buf.data
      ensures buf.Valid() && Writes(o, ok)
    {
      hide Appended, BE;
      match o.ty {
        case POSITIVE_FIXNUM => ok := WritePfix(o.val.n);
        case FIXMAP => ok := WriteFixSize(0x80, 0xF, o.val.size % 0x100);
        case FIXARRAY => ok := WriteFixSize(0x90, 0xF, o.val.size % 0x100);
        case FIXSTR => ok := WriteFixSize(0xA0, 0x1F, o.val.size % 0x100);
        case NIL => ok := WriteMarker(0xC0, TYPE_MARKER_WRITING);
        case BOOLEAN => ok := WriteMarker(if o.val.b then 0xC3 else 0xC2, TYPE_MARKER_WRITING);
        case FLOAT => ok := WriteFloat(0xCA, o.val.image);
        case DOUBLE => ok := WriteFloat(0xCB, o.val.image);
        case NEGATIVE_FIXNUM => ok := WriteNfix(o.val.n);
        case UINT8 | UINT16 | UINT32 | UINT64 => ok := WriteIntegerObject(o);
        case SINT8 | SINT16 | SINT32 | SINT64 => ok := WriteIntegerObject(o);
        case BIN8 | BIN16 | BIN32 | STR8 | STR16 | STR32 => ok := WriteRawObject(o);
        case ARRAY16 | ARRAY32 | MAP16 | MAP32 => ok := WriteContainerObject(o);
        case EXT8 | EXT16 | EXT32 => ok := WriteSizedExtObject(o);
        case FIXEXT1 | FIXEXT2 | FIXEXT4 | FIXEXT8 | FIXEXT16 => ok := WriteFixExtObject(o);
      }
    }

    method WriteUInteger(u: u64) returns (ok: bool)
      requires buf.Valid()
      modifies this, buf`size, buf.data
      ensures buf.Valid() && Appends(Encode(UIntObj(u)), ok) && Emits(LayoutOf(UIntObj(u).ty), Num(u), ok)
    {
      hide Appended, BE, Image;
      UIntImage(u);
      if u <= 0x7F {
        ok := WritePfix(u);
      } else if u <= 0xFF {
        ok := WriteUInt(0xCC, W8, u);
      } else if u <= 0xFFFF {
        ok := WriteUInt(0xCD, W16, u);
      } else if u <= 0xFFFF_FFFF {
        ok := WriteUInt(0xCE, W32, u);
      } else {
        ok := WriteUInt(0xCF, W64, u);
      }
    }

    method WriteInteger(d: int) returns (ok: bool)
      requires buf.Valid() && InSigned(W64, d)
      modifies this, buf`size, buf.data
      ensures buf.Valid() && Appends(Encode(IntObj(d)), ok) && Emits(LayoutOf(IntObj(d).ty), Num(d), ok)
    {
      hide Appended, BE, Image;
      if d >= 0 {
        ok := WriteUInteger(d);
        return;
      }
      NegImage(d);
      if d >= -0x20 {
        ok := WriteNfix(d);
      } else if d >= -0x80 {
        ok := WriteSInt(0xD0, W8, d);
      } else if d >= -0x8000 {
        ok := WriteSInt(0xD1, W16, d);
      } else if d >= -0x8000_0000 {
        ok := WriteSInt(0xD2, W32, d);
      } else {
        ok := WriteSInt(0xD3, W64, d);
      }
    }

    /** `cmp_write_ext_marker`: the header chosen by size. */
    method WriteExtMarker(etype: int, size: u32) returns (ok: bool)
      requires buf.Valid() && InSigned(W8, etype)
      modifies this, buf`size, buf.data
      ensures buf.Valid() && Appends(Encode(ExtObj(etype, size)), ok)
      ensures Emits(LayoutOf(ExtObj(etype, size).ty), Ext(etype, size), ok)
    {
      hide Appended, BE, Image;
      ExtImage(etype, size);
      if size == 1 {
        ok := WriteFixExt(0xD4, etype, 1);
      } else if size == 2 {
        ok := WriteFixExt(0xD5, etype, 2);
      } else if size == 4 {
        ok := WriteFixExt(0xD6, etype, 4);
      } else if size == 8 {
        ok := WriteFixExt(0xD7, etype, 8);
      } else if size == 16 {
        ok := WriteFixExt(0xD8, etype, 16);
      } else if size <= 0xFF {
        ok := WriteSizedExt(0xC7, W8, etype, size);
      } else if size <= 0xFFFF {
        ok := WriteSizedExt(0xC8, W16, etype, size);
      } else {
        ok := WriteSizedExt(0xC9, W32, etype, size);
      }
    }

    /** `cmp_write_ext`: header and data. */
    method WriteExt(etype: int, data: seq<byte>) returns (ok: bool)
      requires buf.Valid() && InSigned(W8, etype) && |data| < 0x1_0000_0000
      modifies this, buf`size, buf.data
      ensures buf.Valid() && Appends(Encode(ExtObj(etype, |data|)) + data, ok)
      ensures var l, n := LayoutOf(ExtObj(etype, |data|).ty), |buf.Contents()| - |old(buf.Contents())|;
              && 0 <= n
              && error == if ok then old(error)
                          else if n < HeaderLength(l) then StopError(l, n, old(error)) else DATA_WRITING
    {
      hide Appended, BE, LayoutOf;
      ghost var before, header := buf.Contents(), Encode(ExtObj(etype, |data|));
      ok := WriteExtMarker(etype, |data|);
      ghost var mid := buf.Contents();
      AppendedLength(before, mid, buf.capacity, header, ok);
      if !ok {
        AppendedStopped(before, mid, buf.capacity, header, data);
        return;
      }
      var n := Write(data);
      ok := n == |data|;
      if !ok {
        error := DATA_WRITING;
      }
      AppendedThen(before, mid, buf.Contents(), buf.capacity, header, data, ok);
    }
  }
}
