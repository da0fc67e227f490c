/** The reading half of the cmp context: a byte source, a position and the last error. */
module CmpReader {
  import opened Bytes
  import opened CmpFormat

  datatype SizeRead = Got(size: nat, used: nat) | Failed(error: CmpError)

  /** What `read_type_size` finds, given the marker and the bytes `b` after it. */
  function TypeSize(ty: CmpType, marker: byte, b: seq<byte>): (r: SizeRead)
    requires Leads(LayoutOf(ty), marker)
    ensures r.Got? ==> r.used <= |b| && r.size < 0x1_0000_0000
  {
    match LayoutOf(ty)
    case FixNum(_, _) => Got(0, 0)
    case FixSize(base, _) => Got(marker - base, 0)
    case Nil => Got(0, 0)
    case Boolean => Got(0, 0)
    case UInt(_, w) => Got(w.Count(), 0)
    case SInt(_, w) => Got(w.Count(), 0)
    case Float(_, count) => Got(count, 0)
    case FixExt(_, fixed) => Got(fixed, 0)
    case Sized(_, w) =>
      if |b| < w.Count() then Failed(FieldError(ty)) else Got(FromBE(w, b[..w.Count()]), w.Count())
    case SizedExt(_, w) =>
      if |b| < w.Count() then Failed(FieldError(ty)) else Got(FromBE(w, b[..w.Count()]), w.Count())
  }

  /** The arms of `read_type_size` that read nothing. */
  function SizeWithoutField(marker: byte, ty: CmpType): (size: nat)
    requires Leads(LayoutOf(ty), marker) && !LayoutOf(ty).Sized? && !LayoutOf(ty).SizedExt?
    ensures forall b: seq<byte> :: TypeSize(ty, marker, b) == Got(size, 0)
  {
    match ty
    case POSITIVE_FIXNUM | NEGATIVE_FIXNUM | NIL | BOOLEAN => 0
    case FIXMAP | FIXARRAY => marker % 0x10 // & FIXMAP_SIZE, & FIXARRAY_SIZE
    case FIXSTR => marker % 0x20            // & FIXSTR_SIZE
    case UINT8 | SINT8 | FIXEXT1 => 1
    case UINT16 | SINT16 | FIXEXT2 => 2
    case UINT32 | SINT32 | FLOAT | FIXEXT4 => 4
    case UINT64 | SINT64 | DOUBLE | FIXEXT8 => 8
    case FIXEXT16 => 16
  }

  class ReadContext {
    const input: seq<byte>
    const bigEndian: bool  // byte order of the host
    const hasSkipper: bool // whether a skip callback was installed
    var pos: nat
    var error: CmpError

    constructor (input: seq<byte>, bigEndian: bool, hasSkipper: bool)
      ensures Valid() && Rest() == input && error == NONE
      ensures this.bigEndian == bigEndian && this.hasSkipper == hasSkipper
    {
      this.input, this.bigEndian, this.hasSkipper := input, bigEndian, hasSkipper;
      pos, error := 0, NONE;
    }

    ghost predicate Valid() reads this { pos <= |input| }

    /** The bytes not read yet. */
    ghost function Rest(): (r: seq<byte>)
      requires Valid()
      reads this
      ensures |r| == |input| - pos
    {
      input[pos..]
    }

    /** The read callback: all of the bytes or none. */
    method Read(count: nat) returns (ok: bool, data: seq<byte>)
      requires Valid()
      modifies this`pos
      ensures Valid()
      ensures ok == (count <= |old(Rest())|)
      ensures ok ==> data == old(Rest())[..count] && pos == old(pos) + count
      ensures !ok ==> data == [] && pos == old(pos)
    {
      ok, data := count <= |input| - pos, [];
      if ok {
        data := input[pos..pos + count];
        pos := pos + count;
      }
    }

    /** Reading a fixed-width integer: a raw host load, then the byte swap. */
    method ReadInt(w: Width) returns (ok: bool, x: nat)
      requires Valid()
      modifies this`pos
      ensures Valid()
      ensures ok == (w.Count() <= |old(Rest())|)
      ensures ok ==> x == FromBE(w, old(Rest())[..w.Count()]) && pos == old(pos) + w.Count()
      ensures ok ==> x < w.Range()
      ensures !ok ==> x == 0 && pos == old(pos)
    {
      var data;
      x := 0;
      ok, data := Read(w.Count());
      if ok {
        SwapLoadsBigEndian(bigEndian, w, data);
        x := Swap(bigEndian, w, HostLoad(bigEndian, w, data));
      }
    }

    method SkipBytes(count: nat) returns (ok: bool)
      requires Valid()
      modifies this`pos
      ensures Valid()
      ensures ok == (count <= |old(Rest())|)
      ensures ok ==> pos == old(pos) + count
      ensures !ok ==> pos >= old(pos)
    {
      if hasSkipper {
        ok := count <= |input| - pos;
        if ok {
          pos := pos + count;
        }
      } else {
        ghost var before := pos;
        var i := 0;
        while i < count
          invariant 0 <= i <= count && before <= pos <= |input| && pos == before + i
        {
          var floor;
          ok, floor := Read(1);
          if !ok {
            return false;
          }
          i := i + 1;
        }
        ok := true;
      }
    }

    method ReadTypeMarker() returns (ok: bool, marker: byte)
      requires Valid()
      modifies this
      ensures Valid()
      ensures ok == (|old(Rest())| > 0)
      ensures ok ==> marker == old(Rest())[0] && pos == old(pos) + 1 && error == old(error)
      ensures !ok ==> error == TYPE_MARKER_READING && pos == old(pos)
    {
      var data;
      marker := 0;
      ok, data := Read(1);
      if ok {
        marker := data[0];
      } else {
        error := TYPE_MARKER_READING;
      }
    }

    /** One arm of `read_type_size`: a length field of width `w`. */
    method ReadLength(w: Width, e: CmpError) returns (ok: bool, size: nat)
      requires Valid()
      modifies this
      ensures Valid() && pos >= old(pos)
      ensures ok == (w.Count() <= |old(Rest())|)
      ensures ok ==> size == FromBE(w, old(Rest())[..w.Count()]) && pos == old(pos) + w.Count()
      ensures ok ==> error == old(error) && size < w.Range()
      ensures !ok ==> error == e
    {
      ok, size := ReadInt(w);
      if !ok {
        error := e;
      }
    }

    /** The arms of `read_type_size` that read a length field. */
    method ReadTypeLength(ty: CmpType) returns (ok: bool, size: nat)
      requires Valid() && (LayoutOf(ty).Sized? || LayoutOf(ty).SizedExt?)
      modifies this
      ensures Valid() && pos >= old(pos)
      ensures var w := LayoutOf(ty).width;
              && ok == (w.Count() <= |old(Rest())|)
              && (ok ==> size == FromBE(w, old(Rest())[..w.Count()]) && pos == old(pos) + w.Count())
      ensures ok ==> error == old(error)
      ensures !ok ==> error == FieldError(ty)
    {
      hide FromBE;
      match ty {
        case BIN8 | EXT8 => ok, size := ReadLength(W8, LENGTH_READING);
        case BIN16 | EXT16 => ok, size := ReadLength(W16, LENGTH_READING);
        case BIN32 | EXT32 => ok, size := ReadLength(W32, LENGTH_READING);
        case STR8 => ok, size := ReadLength(W8, DATA_READING);
        case STR16 | ARRAY16 | MAP16 => ok, size := ReadLength(W16, DATA_READING);
        case STR32 | ARRAY32 | MAP32 => ok, size := ReadLength(W32, DATA_READING);
      }
    }

    method ReadTypeSize(marker: byte, ty: CmpType) returns (ok: bool, size: nat)
      requires Valid() && Leads(LayoutOf(ty), marker)
      modifies this
      ensures Valid() && pos >= old(pos)
      ensures match TypeSize(ty, marker, old(Rest()))
              case Got(n, used) => ok && size == n && pos == old(pos) + used && error == old(error)
              case Failed(e) => !ok && error == e
    {
      hide FromBE;
      if LayoutOf(ty).Sized? || LayoutOf(ty).SizedExt? {
        ok, size := ReadTypeLength(ty);
      } else {
        ok, size := true, SizeWithoutField(marker, ty);
      }
    }

    /** The bytes read since the old state are those `d` says, and so are the object and the error. */
    twostate predicate Decodes(d: Decoded, ok: bool, obj: Obj)
      requires old(Valid()) && Valid()
      reads this
    {
      match d
      case Ok(o, used) =>
        ok && obj == o && 1 <= used <= 1 + |old(Rest())| && pos == old(pos) + used - 1 && error == old(error)
      case Err(e) => !ok && error == e
    }

    /** The unsigned arms of `read_obj_data`. */
    method ReadUInt(marker: byte, ty: CmpType, w: Width) returns (ok: bool, obj: Obj)
      requires Valid() && Leads(LayoutOf(ty), marker) && LayoutOf(ty).UInt? && LayoutOf(ty).width == w
      modifies this
      ensures Valid() && Decodes(DecodeAs(ty, [marker] + old(Rest())), ok, obj)
    {
      assert ([marker] + Rest())[0] == marker;
      ghost var b := [marker] + Rest();
      var x;
      ok, x := ReadInt(w);
      obj := Obj(ty, Num(x));
      if ok {
        assert b[1..1 + w.Count()] == old(Rest())[..w.Count()];
      } else {
        error := DATA_READING;
      }
    }

    /** The signed arms of `read_obj_data`. */
    method ReadSInt(marker: byte, ty: CmpType, w: Width) returns (ok: bool, obj: Obj)
      requires Valid() && Leads(LayoutOf(ty), marker) && LayoutOf(ty).SInt? && LayoutOf(ty).width == w
      modifies this
      ensures Valid() && Decodes(DecodeAs(ty, [marker] + old(Rest())), ok, obj)
    {
      assert ([marker] + Rest())[0] == marker;
      ghost var b := [marker] + Rest();
      var x;
      ok, x := ReadInt(w);
      obj := Obj(ty, Num(0));
      if ok {
        assert b[1..1 + w.Count()] == old(Rest())[..w.Count()];
        obj := Obj(ty, Num(ToSigned(w, x)));
      } else {
        error := DATA_READING;
      }
    }

    method ReadFloat(marker: byte, ty: CmpType, count: nat) returns (ok: bool, obj: Obj)
      requires Valid() && Leads(LayoutOf(ty), marker) && LayoutOf(ty).Float? && LayoutOf(ty).count == count
      modifies this
      ensures Valid() && Decodes(DecodeAs(ty, [marker] + old(Rest())), ok, obj)
    {
      ghost var b := [marker] + Rest();
      var data;
      ok, data := Read(count);
      obj := Obj(ty, Raw(data));
      if ok {
        assert b[1..1 + count] == old(Rest())[..count];
      } else {
        error := DATA_READING;
      }
    }

    method ReadSized(marker: byte, ty: CmpType) returns (ok: bool, obj: Obj)
      requires Valid() && Leads(LayoutOf(ty), marker) && (LayoutOf(ty).Sized? || LayoutOf(ty).FixSize?)
      modifies this
      ensures Valid() && Decodes(DecodeAs(ty, [marker] + old(Rest())), ok, obj)
    {
      hide FromBE;
      ghost var b := [marker] + Rest();
      var size;
      ok, size := ReadTypeSize(marker, ty);
      obj := Obj(ty, Size(size));
      if ok && LayoutOf(ty).Sized? {
        assert b[1..1 + LayoutOf(ty).width.Count()] == old(Rest())[..LayoutOf(ty).width.Count()];
      }
    }

    /** The type byte of an ext object whose size is already known. */
    method ReadExtType(ty: CmpType, size: nat) returns (ok: bool, obj: Obj)
      requires Valid()
      modifies this
      ensures Valid()
      ensures ok == (1 <= |old(Rest())|)
      ensures ok ==> obj == Obj(ty, Ext(ToSigned(W8, old(Rest())[0]), size))
                     && pos == old(pos) + 1 && error == old(error)
      ensures !ok ==> error == EXT_TYPE_READING
    {
      var data;
      ok, data := Read(1);
      obj := Obj(ty, Ext(0, size));
      if ok {
        obj := Obj(ty, Ext(ToSigned(W8, data[0]), size));
      } else {
        error := EXT_TYPE_READING;
      }
    }

    method ReadFixExt(marker: byte, ty: CmpType, size: nat) returns (ok: bool, obj: Obj)
      requires Valid() && Leads(LayoutOf(ty), marker) && LayoutOf(ty).FixExt? && LayoutOf(ty).fixed == size
      modifies this
      ensures Valid() && Decodes(DecodeAs(ty, [marker] + old(Rest())), ok, obj)
    {
      ok, obj := ReadExtType(ty, size);
    }

    method ReadSizedExt(marker: byte, ty: CmpType) returns (ok: bool, obj: Obj)
      requires Valid() && Leads(LayoutOf(ty), marker) && LayoutOf(ty).SizedExt?
      modifies this
      ensures Valid() && Decodes(DecodeAs(ty, [marker] + old(Rest())), ok, obj)
    {
      ghost var b, w := [marker] + Rest(), LayoutOf(ty).width;
      var size;
      ok, size := ReadTypeSize(marker, ty);
      obj := Obj(ty, Ext(0, size));
      if !ok {
        return;
      }
      assert b[1..1 + w.Count()] == old(Rest())[..w.Count()];
      ok, obj := ReadExtType(ty, size);
    }

    method ReadObjData(marker: byte, ty: CmpType) returns (ok: bool, obj: Obj)
      requires Valid() && Leads(LayoutOf(ty), marker)
      modifies this
      ensures Valid() && Decodes(DecodeAs(ty, [marker] + old(Rest())), ok, obj)
    {
      hide Holds, FromBE, Image, TypeOf;
      ok, obj := true, Obj(ty, Num(0));
      match ty {
        case POSITIVE_FIXNUM => obj := Obj(ty, Num(marker));
        case NEGATIVE_FIXNUM => obj := Obj(ty, Num(ToSigned(W8, marker)));
        case NIL => obj := Obj(ty, Num(0));
        case BOOLEAN =>
          match marker {
            case 0xC3 => obj := Obj(ty, Bool(true));
            case 0xC2 => obj := Obj(ty, Bool(false));
            case _ => assert false;
          }
        case UINT8 => ok, obj := ReadUInt(marker, ty, W8);
        case UINT16 => ok, obj := ReadUInt(marker, ty, W16);
        case UINT32 => ok, obj := ReadUInt(marker, ty, W32);
        case UINT64 => ok, obj := ReadUInt(marker, ty, W64);
        case SINT8 => ok, obj := ReadSInt(marker, ty, W8);
        case SINT16 => ok, obj := ReadSInt(marker, ty, W16);
        case SINT32 => ok, obj := ReadSInt(marker, ty, W32);
        case SINT64 => ok, obj := ReadSInt(marker, ty, W64);
        case FLOAT => ok, obj := ReadFloat(marker, ty, 4);
        case DOUBLE => ok, obj := ReadFloat(marker, ty, 8);
        case BIN8 | BIN16 | BIN32 => ok, obj := ReadSized(marker, ty);
        case FIXSTR | STR8 | STR16 | STR32 => ok, obj := ReadSized(marker, ty);
        case FIXARRAY | ARRAY16 | ARRAY32 => ok, obj := ReadSized(marker, ty);
        case FIXMAP | MAP16 | MAP32 => ok, obj := ReadSized(marker, ty);
        case FIXEXT1 => ok, obj := ReadFixExt(marker, ty, 1);
        case FIXEXT2 => ok, obj := ReadFixExt(marker, ty, 2);
        case FIXEXT4 => ok, obj := ReadFixExt(marker, ty, 4);
        case FIXEXT8 => ok, obj := ReadFixExt(marker, ty, 8);
        case FIXEXT16 => ok, obj := ReadFixExt(marker, ty, 16);
        case EXT8 | EXT16 | EXT32 => ok, obj := ReadSizedExt(marker, ty);
      }
    }

    method ReadObject() returns (ok: bool, obj: Obj)
      requires Valid()
      modifies this
      ensures Valid()
      ensures match Decode(old(Rest()))
              case Ok(o, used) =>
                ok && obj == o && used <= |old(Rest())| && pos == old(pos) + used && error == old(error)
              case Err(e) => !ok && error == e
    {
      ghost var b := Rest();
      var marker;
      obj := Obj(NIL, Num(0));
      ok, marker := ReadTypeMarker();
      if !ok {
        return;
      }
      var ty := TypeOf(marker);
      if ty.None? {
        error := INVALID_TYPE;
        return false, obj;
      }
      assert b == [marker] + Rest();
      TypeLeads(marker, ty.value);
      ok, obj := ReadObjData(marker, ty.value);
    }

    /** `cmp_read_long`, which `cmp_read_integer` calls. */
    method ReadLong() returns (ok: bool, d: int)
      requires Valid()
      modifies this
      ensures Valid()
      ensures match Decode(old(Rest()))
              case Ok(o, used) =>
                Fits(o) && used <= |old(Rest())| && pos == old(pos) + used
                && (match LongOf(o)
                    case Some(n) => ok && d == n && error == old(error)
                    case None => !ok && error == INVALID_TYPE)
              case Err(e) => !ok && error == e
    {
      ghost var b := Rest();
      var obj;
      d := 0;
      ok, obj := ReadObject();
      if !ok {
        return;
      }
      EncodeDecode(b);
      match obj.ty {
        case POSITIVE_FIXNUM | NEGATIVE_FIXNUM | SINT8 => return true, obj.val.n;
        case UINT8 => return true, obj.val.n;
        case SINT16 => return true, obj.val.n;
        case UINT16 => return true, obj.val.n;
        case SINT32 => return true, obj.val.n;
        case UINT32 => return true, obj.val.n;
        case SINT64 => return true, obj.val.n;
        case UINT64 =>
          if obj.val.n <= 0x7FFF_FFFF_FFFF_FFFF {
            return true, obj.val.n;
          }
        case _ =>
      }
      error := INVALID_TYPE;
      ok := false;
    }

    /** `cmp_read_ulong`, which `cmp_read_uinteger` calls. */
    method ReadULong() returns (ok: bool, u: int)
      requires Valid()
      modifies this
      ensures Valid()
      ensures match Decode(old(Rest()))
              case Ok(o, used) =>
                Fits(o) && used <= |old(Rest())| && pos == old(pos) + used
                && (match ULongOf(o)
                    case Some(n) => ok && u == n && error == old(error)
                    case None => !ok && error == INVALID_TYPE)
              case Err(e) => !ok && error == e
    {
      ghost var b := Rest();
      var obj;
      u := 0;
      ok, obj := ReadObject();
      if !ok {
        return;
      }
      EncodeDecode(b);
      match obj.ty {
        case POSITIVE_FIXNUM | UINT8 => return true, obj.val.n;
        case UINT16 => return true, obj.val.n;
        case UINT32 => return true, obj.val.n;
        case UINT64 => return true, obj.val.n;
        case NEGATIVE_FIXNUM | SINT8 | SINT16 | SINT32 | SINT64 =>
          if obj.val.n >= 0 {
            return true, obj.val.n;
          }
        case _ =>
      }
      error := INVALID_TYPE;
      ok := false;
    }

    /** `cmp_read_ext`: the header and then exactly its data. */
    method ReadExt() returns (ok: bool, etype: int, data: seq<byte>)
      requires Valid()
      modifies this
      ensures Valid()
      ensures match Decode(old(Rest()))
              case Ok(o, used) =>
                var b := old(Rest())[used..];
                if !IsExt(o.ty) then !ok && error == INVALID_TYPE
                else if |b| < o.val.esize then !ok && error == DATA_READING
                else ok && etype == o.val.etype && data == b[..o.val.esize] && pos == old(pos) + used + o.val.esize
              case Err(e) => !ok && error == e
    {
      hide LayoutOf, Holds, Decode, Fits, IsExt;
      ghost var b := Rest();
      var obj;
      etype, data := 0, [];
      ok, obj := ReadObject();
      if !ok {
        return;
      }
      EncodeDecode(b);
      ExtCases(obj);
      match obj.ty {
        case FIXEXT1 | FIXEXT2 | FIXEXT4 | FIXEXT8 | FIXEXT16 | EXT8 | EXT16 | EXT32 =>
          etype := obj.val.etype;
          ok, data := Read(obj.val.esize);
          if !ok {
            error := DATA_READING;
          }
        case _ =>
          error := INVALID_TYPE;
          ok := false;
      }
    }
  }

  /** The types that `cmp_read_ext` switches on. */
  lemma ExtCases(o: Obj)
    requires Fits(o)
    ensures IsExt(o.ty) <==> match o.ty
                             case FIXEXT1 | FIXEXT2 | FIXEXT4 | FIXEXT8 | FIXEXT16 | EXT8 | EXT16 | EXT32 => true
                             case _ => false
    ensures IsExt(o.ty) ==> o.val.Ext?
  {}
}
