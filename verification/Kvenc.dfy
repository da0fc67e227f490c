/**
 Per-key encrypted values: one keystream cipher written three times (server, CLI, firmware), the ext frame
 around the ciphertext, and the firmware's in-place parse, decrypt and shift. HMAC-SHA256 is the parameter
 `h`, a function of key and message about which only the length of its result is known.
 */
module Kvenc {
  import opened Bytes
  import opened CmpFormat

  type Block = b: seq<byte> | |b| == 32 witness seq(32, _ => 0)

  type Hmac = (seq<byte>, seq<byte>) -> Block

  /** "stra2us-kvenc-v1" */
  const LABEL: seq<byte> := [115, 116, 114, 97, 50, 117, 115, 45, 107, 118, 101, 110, 99, 45, 118, 49]
  const KVENC_EXT_TYPE := 0x21
  const SERVER_LIMIT := 8160 // 255 blocks
  const STREAM_LIMIT := 8192 // 256 blocks

  // ----- Exclusive or, bit by bit -----

  function Pow2(k: nat): (p: nat)
    ensures p > 0
  {
    if k == 0 then 1 else 2 * Pow2(k - 1)
  }

  /** The exclusive or of the low `k` bits. */
  function XorBits(a: nat, b: nat, k: nat): (r: nat)
    ensures r < Pow2(k)
  {
    if k == 0 then 0 else (if a % 2 == b % 2 then 0 else 1) + 2 * XorBits(a / 2, b / 2, k - 1)
  }

  function Xor(a: byte, b: byte): (r: byte)
  {
    assert Pow2(8) == 2 * Pow2(7) && Pow2(6) == 2 * Pow2(5) && Pow2(4) == 2 * Pow2(3) && Pow2(2) == 2 * Pow2(1);
    assert Pow2(7) == 2 * Pow2(6) && Pow2(5) == 2 * Pow2(4) && Pow2(3) == 2 * Pow2(2);
    XorBits(a, b, 8)
  }

  lemma {:induction false} XorBitsTwice(a: nat, b: nat, k: nat)
    requires a < Pow2(k)
    ensures XorBits(XorBits(a, b, k), b, k) == a
  {
    if k > 0 {
      XorBitsTwice(a / 2, b / 2, k - 1);
      var x := XorBits(a, b, k);
      assert x / 2 == XorBits(a / 2, b / 2, k - 1);
      assert x % 2 == if a % 2 == b % 2 then 0 else 1;
    }
  }

  /** The cipher is its own inverse, byte by byte. */
  lemma XorTwice(a: byte, b: byte)
    ensures Xor(Xor(a, b), b) == a
  {
    assert Pow2(8) == 2 * Pow2(7) && Pow2(6) == 2 * Pow2(5) && Pow2(4) == 2 * Pow2(3) && Pow2(2) == 2 * Pow2(1);
    assert Pow2(7) == 2 * Pow2(6) && Pow2(5) == 2 * Pow2(4) && Pow2(3) == 2 * Pow2(2);
    XorBitsTwice(a, b, 8);
  }

  /** Bit `k` of a number, the lowest being bit 0. */
  predicate Bit(x: nat, k: nat) { if k == 0 then x % 2 == 1 else Bit(x / 2, k - 1) }

  lemma {:induction false} XorBitsAt(a: nat, b: nat, n: nat, k: nat)
    requires k < n
    ensures Bit(XorBits(a, b, n), k) <==> Bit(a, k) != Bit(b, k)
  {
    var x := XorBits(a, b, n);
    assert x / 2 == XorBits(a / 2, b / 2, n - 1) && x % 2 == if a % 2 == b % 2 then 0 else 1;
    if k > 0 {
      XorBitsAt(a / 2, b / 2, n - 1, k - 1);
    }
  }

  /** A bit of the result is set exactly if the two bits differ. */
  lemma XorIsExclusive(a: byte, b: byte, k: nat)
    requires k < 8
    ensures Bit(Xor(a, b), k) <==> Bit(a, k) != Bit(b, k)
  {
    XorBitsAt(a, b, 8, k);
  }

  lemma {:induction false} XorBitsZero(b: nat, k: nat)
    requires b < Pow2(k)
    ensures XorBits(0, b, k) == b
  {
    if k > 0 {
      XorBitsZero(b / 2, k - 1);
    }
  }

  lemma XorZero(b: byte)
    ensures Xor(0, b) == b
  {
    assert Pow2(8) == 2 * Pow2(7) && Pow2(6) == 2 * Pow2(5) && Pow2(4) == 2 * Pow2(3) && Pow2(2) == 2 * Pow2(1);
    assert Pow2(7) == 2 * Pow2(6) && Pow2(5) == 2 * Pow2(4) && Pow2(3) == 2 * Pow2(2);
    XorBitsZero(b, 8);
  }

  // ----- The keystream -----

  /** The message under one HMAC: label, nonce, block counter. */
  function BlockInput(nonce: u32, counter: byte): (m: seq<byte>)
  {
    LABEL + BE32(nonce) + [counter]
  }

  /** The input byte by byte: the label in ASCII, the nonce from its highest byte on, and the counter. */
  lemma BlockInputIs(nonce: u32, counter: byte)
    ensures var m, name := BlockInput(nonce, counter), "stra2us-kvenc-v1";
            && |m| == 21 && |name| == 16 && (forall i | 0 <= i < 16 :: m[i] == name[i] as int)
            && nonce == m[16] as int * 0x100_0000 + m[17] as int * 0x1_0000 + m[18] as int * 0x100 + m[19] as int
            && m[20] == counter
  {
    var m := BlockInput(nonce, counter);
    BE32RoundTrip(nonce);
    assert m[16..20] == BE32(nonce);
    BE32OfBytes([0] + m[16..20]);
    assert ([0] + m[16..20])[1..5] == m[16..20];
  }

  /** No two (nonce, counter) pairs share an HMAC input. */
  lemma BlockInputInjective(n1: u32, c1: byte, n2: u32, c2: byte)
    requires BlockInput(n1, c1) == BlockInput(n2, c2)
    ensures n1 == n2 && c1 == c2
  {
    BE32RoundTrip(n1);
    BE32RoundTrip(n2);
    assert BlockInput(n1, c1)[16..20] == BE32(n1) && BlockInput(n2, c2)[16..20] == BE32(n2);
    assert BlockInput(n1, c1)[20] == c1 && BlockInput(n2, c2)[20] == c2;
  }

  /** Byte `k` of the keystream. */
  function KeyByte(h: Hmac, secret: seq<byte>, nonce: u32, k: nat): (b: byte)
    requires k < STREAM_LIMIT
  {
    h(secret, BlockInput(nonce, k / 32))[k % 32]
  }

  function Keystream(h: Hmac, secret: seq<byte>, nonce: u32, n: nat): (ks: seq<byte>)
    requires n <= STREAM_LIMIT
  {
    seq(n, k requires 0 <= k < n => KeyByte(h, secret, nonce, k))
  }

  /** Each byte combined with the keystream byte at its position, as far as the keystream goes. */
  function Ciphered(h: Hmac, secret: seq<byte>, nonce: u32, data: seq<byte>): (c: seq<byte>)
    ensures |c| == |data|
  {
    seq(|data|, k requires 0 <= k < |data| =>
      if k < STREAM_LIMIT then Xor(data[k], KeyByte(h, secret, nonce, k)) else data[k])
  }

  /** Ciphering twice is doing nothing. */
  lemma CipheredTwice(h: Hmac, secret: seq<byte>, nonce: u32, data: seq<byte>)
    ensures Ciphered(h, secret, nonce, Ciphered(h, secret, nonce, data)) == data
  {
    hide Xor;
    var c := Ciphered(h, secret, nonce, data);
    forall k | 0 <= k < |data| ensures Ciphered(h, secret, nonce, c)[k] == data[k] {
      if k < STREAM_LIMIT {
        XorTwice(data[k], KeyByte(h, secret, nonce, k));
      }
    }
  }

  lemma BlockIsKeystream(h: Hmac, secret: seq<byte>, nonce: u32, counter: byte)
    ensures 32 * counter + 32 <= STREAM_LIMIT
    ensures Keystream(h, secret, nonce, 32 * counter) + h(secret, BlockInput(nonce, counter)) ==
            Keystream(h, secret, nonce, 32 * counter + 32)
  {
    var n := 32 * counter;
    forall k | n <= k < n + 32
      ensures KeyByte(h, secret, nonce, k) == h(secret, BlockInput(nonce, counter))[k - n]
    {
      assert k / 32 == counter && k % 32 == k - n;
    }
  }

  /** The blocks one after another. */
  function Blocks(h: Hmac, secret: seq<byte>, nonce: u32, k: nat): (ks: seq<byte>)
    requires k <= 256
    ensures |ks| == 32 * k
  {
    if k == 0 then [] else Blocks(h, secret, nonce, k - 1) + h(secret, BlockInput(nonce, k - 1))
  }

  lemma {:induction false} BlocksAreKeystream(h: Hmac, secret: seq<byte>, nonce: u32, k: nat)
    requires k <= 256
    ensures Blocks(h, secret, nonce, k) == Keystream(h, secret, nonce, 32 * k)
  {
    if k > 0 {
      BlocksAreKeystream(h, secret, nonce, k - 1);
      BlockIsKeystream(h, secret, nonce, k - 1);
    }
  }

  /** A keystream of any length is the beginning of the 256 blocks. */
  lemma KeystreamIsBlocks(h: Hmac, secret: seq<byte>, nonce: u32, n: nat)
    requires n <= STREAM_LIMIT
    ensures Keystream(h, secret, nonce, n) == Blocks(h, secret, nonce, 256)[..n]
  {
    BlocksAreKeystream(h, secret, nonce, 256);
  }

  /** What the cipher does: a bit is flipped exactly where the keystream has one. */
  lemma CipheredFlips(h: Hmac, secret: seq<byte>, nonce: u32, data: seq<byte>, k: nat, bit: nat)
    requires k < |data| <= STREAM_LIMIT && bit < 8
    ensures Bit(Ciphered(h, secret, nonce, data)[k], bit)
            <==> Bit(data[k], bit) != Bit(Keystream(h, secret, nonce, |data|)[k], bit)
  {
    hide Xor;
    XorIsExclusive(data[k], KeyByte(h, secret, nonce, k), bit);
  }

  /** Zeros are ciphered to the keystream itself. */
  lemma ZerosGiveKeystream(h: Hmac, secret: seq<byte>, nonce: u32, n: nat)
    requires n <= STREAM_LIMIT
    ensures Ciphered(h, secret, nonce, seq(n, _ => 0)) == Keystream(h, secret, nonce, n)
  {
    hide Xor;
    forall k | 0 <= k < n ensures Xor(0, KeyByte(h, secret, nonce, k)) == KeyByte(h, secret, nonce, k) {
      XorZero(KeyByte(h, secret, nonce, k));
    }
  }

  /** Server: `kvenc_keystream`, None standing for the exception. The 256th block is refused. */
  method KvencKeystream(h: Hmac, secret: seq<byte>, nonce: int, length: nat) returns (r: Option<seq<byte>>)
    ensures r.Some? <==> 0 <= nonce < 0x1_0000_0000 && length <= 8160
    ensures r.Some? ==> r.value == Keystream(h, secret, nonce, length)
  {
    if !(0 <= nonce < 0x1_0000_0000) {
      return None; // nonce.to_bytes(4, "big")
    }
    var out: seq<byte>, counter := [], 0;
    while |out| < length
      invariant 0 <= counter <= 255 && |out| == 32 * counter && (counter > 0 ==> |out| < length + 32)
      invariant out == Keystream(h, secret, nonce, 32 * counter)
      decreases 256 - counter
    {
      BlockIsKeystream(h, secret, nonce, counter);
      out := out + h(secret, BlockInput(nonce, counter));
      counter := counter + 1;
      if counter > 255 {
        return None;
      }
    }
    return Some(out[..length]);
  }

  /** Server: `kvenc_xor`. */
  method ServerXor(h: Hmac, secret: seq<byte>, nonce: int, data: seq<byte>) returns (r: Option<seq<byte>>)
    ensures r.Some? <==> 0 <= nonce < 0x1_0000_0000 && |data| <= 8160
    ensures r.Some? ==> r.value == Ciphered(h, secret, nonce, data)
  {
    hide Xor;
    var ks := KvencKeystream(h, secret, nonce, |data|);
    if ks.None? {
      return None;
    }
    return Some(seq(|data|, k requires 0 <= k < |data| => Xor(data[k], ks.value[k])));
  }

  /** CLI: `_kvenc_xor`. It stops where a counter no longer fits one byte, one block later than the server. */
  method CliXor(h: Hmac, secret: seq<byte>, nonce: int, data: seq<byte>) returns (r: Option<seq<byte>>)
    ensures r.Some? <==> 0 <= nonce < 0x1_0000_0000 && |data| <= 8192
    ensures r.Some? ==> r.value == Ciphered(h, secret, nonce, data)
  {
    hide Xor;
    if !(0 <= nonce < 0x1_0000_0000) {
      return None;
    }
    var out: seq<byte>, counter := [], 0;
    while |out| < |data|
      invariant 0 <= counter <= 256 && |out| == 32 * counter
      invariant out == Keystream(h, secret, nonce, 32 * counter)
      decreases 257 - counter
    {
      if counter > 255 {
        return None; // bytes([counter])
      }
      BlockIsKeystream(h, secret, nonce, counter);
      out := out + h(secret, BlockInput(nonce, counter));
      counter := counter + 1;
    }
    return Some(seq(|data|, k requires 0 <= k < |data| => Xor(data[k], out[k])));
  }

  /** The keystream bytes of a block. */
  lemma BlockKeys(h: Hmac, secret: seq<byte>, nonce: u32, counter: byte, k: nat)
    requires 32 * counter <= k < 32 * counter + 32
    ensures k < STREAM_LIMIT && KeyByte(h, secret, nonce, k) == h(secret, BlockInput(nonce, counter))[k - 32 * counter]
  {
    assert k / 32 == counter && k % 32 == k - 32 * counter;
  }

  /** Firmware: `kvencXor` on the `len` bytes at `off`, in place, with a one-byte counter that wraps. */
  method FirmwareXor(h: Hmac, secret: seq<byte>, nonce: u32, data: array<byte>, off: nat, len: nat)
    requires off + len <= data.Length
    modifies data
    ensures data[off..off + len] == Ciphered(h, secret, nonce, old(data[off..off + len]))
    ensures data[..off] == old(data[..off]) && data[off + len..] == old(data[off + len..])
  {
    hide Xor, KeyByte, BlockInput;
    var counter, pos := 0, 0;
    while pos < len
      invariant 0 <= counter < 0x100 && 0 <= pos <= len && pos <= STREAM_LIMIT
      invariant pos < len ==> pos == 32 * counter
      invariant forall k | 0 <= k < data.Length ::
                  data[k] == if off <= k < off + pos then Xor(old(data[k]), KeyByte(h, secret, nonce, k - off))
                             else old(data[k])
    {
      var block := h(secret, BlockInput(nonce, counter));
      var blockEnd := pos + 32;
      if blockEnd > len {
        blockEnd := len;
      }
      ghost var c := counter;
      var i := pos;
      while i < blockEnd
        invariant pos <= i <= blockEnd
        invariant forall k | 0 <= k < data.Length ::
                    data[k] == if off <= k < off + i then Xor(old(data[k]), KeyByte(h, secret, nonce, k - off))
                               else old(data[k])
      {
        BlockKeys(h, secret, nonce, c, i);
        data[off + i] := Xor(data[off + i], block[i - pos]);
        i := i + 1;
      }
      pos := blockEnd;
      counter := (counter + 1) % 0x100;
      if counter == 0 && pos < len {
        return;
      }
    }
  }

  // ----- The frame -----

  /** A complete ext of the given type at the front of `b`, as cmp reads it: header length and data length. */
  function Frame(b: seq<byte>): (r: Option<(nat, nat)>)
    ensures r.Some? ==> r.value.0 + r.value.1 <= |b| && r.value.0 > 0
  {
    match Decode(b)
    case Err(_) => None
    case Ok(o, used) =>
      if IsExt(o.ty) && o.val.Ext? && o.val.etype == KVENC_EXT_TYPE && used + o.val.esize <= |b|
      then Some((used, o.val.esize)) else None
  }

  /** The body of an encrypted response. */
  function ResponseBody(h: Hmac, secret: seq<byte>, nonce: u32, plaintext: seq<byte>): (b: seq<byte>)
    requires |plaintext| <= SERVER_LIMIT
  {
    var c := Ciphered(h, secret, nonce, plaintext);
    Encode(ExtObj(KVENC_EXT_TYPE, |c|)) + c
  }

  /** Server: the body built by `signed_encrypted_response`. */
  method SignedEncryptedBody(h: Hmac, secret: seq<byte>, nonce: int, plaintext: seq<byte>)
    returns (r: Option<seq<byte>>)
    ensures r.Some? <==> 0 <= nonce < 0x1_0000_0000 && |plaintext| <= 8160
    ensures r.Some? ==> r.value == ResponseBody(h, secret, nonce, plaintext)
  {
    hide Image;
    var c := ServerXor(h, secret, nonce, plaintext);
    if c.None? {
      return None;
    }
    return Some(Encode(ExtObj(KVENC_EXT_TYPE, |c.value|)) + c.value);
  }

  /** The body frames exactly the ciphertext. */
  lemma BodyIsFramed(h: Hmac, secret: seq<byte>, nonce: u32, plaintext: seq<byte>)
    requires |plaintext| <= SERVER_LIMIT
    ensures var b := ResponseBody(h, secret, nonce, plaintext);
            Frame(b).Some? && Frame(b).value.1 == |plaintext| && Frame(b).value.0 + |plaintext| == |b|
            && b[Frame(b).value.0..] == Ciphered(h, secret, nonce, plaintext)
            && Decode(b).Ok? && Decode(b).obj.val == Ext(0x21, |plaintext|)
  {
    hide Image, Ciphered;
    var c := Ciphered(h, secret, nonce, plaintext);
    DecodeEncode(ExtObj(KVENC_EXT_TYPE, |c|), c);
    DropPrefix(Encode(ExtObj(KVENC_EXT_TYPE, |c|)), c);
  }

  lemma FrameFixExt(b: seq<byte>, ty: CmpType)
    requires |b| > 0 && LayoutOf(ty).FixExt? && b[0] == LayoutOf(ty).marker
    ensures Frame(b) == if |b| >= 2 && ToSigned(W8, b[1]) == KVENC_EXT_TYPE && 2 + LayoutOf(ty).fixed <= |b|
                        then Some((2, LayoutOf(ty).fixed)) else None
  {
    hide LayoutOf, TypeOf;
    TypeLeads(b[0], ty);
  }

  lemma FrameSizedExt(b: seq<byte>, ty: CmpType)
    requires |b| > 0 && LayoutOf(ty).SizedExt? && b[0] == LayoutOf(ty).marker
    ensures var n := LayoutOf(ty).width.Count();
            Frame(b) ==
            if |b| < 2 + n then None
            else
              var size := FromBE(LayoutOf(ty).width, b[1..1 + n]);
              if ToSigned(W8, b[1 + n]) == KVENC_EXT_TYPE && 2 + n + size <= |b| then Some((2 + n, size)) else None
  {
    hide LayoutOf, TypeOf, FromBE;
    TypeLeads(b[0], ty);
  }

  lemma FrameOther(b: seq<byte>)
    requires |b| < 2 || !(0xC7 <= b[0] <= 0xC9 || 0xD4 <= b[0] <= 0xD8)
    ensures Frame(b) == None
  {
    if |b| > 0 && TypeOf(b[0]).Some? {
      var ty := TypeOf(b[0]).value;
      TypeLeads(b[0], ty);
      if IsExt(ty) {
        ExtMarkers(b[0], ty);
      }
    }
  }

  lemma ExtMarkers(m: byte, ty: CmpType)
    requires Leads(LayoutOf(ty), m) && IsExt(ty)
    ensures 0xC7 <= m <= 0xC9 || 0xD4 <= m <= 0xD8
    ensures HeaderLength(LayoutOf(ty)) >= 2
  {}

  lemma BE32OfBytes(b: seq<byte>)
    requires |b| >= 5
    ensures FromBE32(b[1..5]) ==
            b[1] as int * 0x100_0000 + b[2] as int * 0x1_0000 + b[3] as int * 0x100 + b[4] as int
  {
    assert b[1..5][..2] == [b[1], b[2]] && b[1..5][2..] == [b[3], b[4]];
  }

  /** What the firmware's hand-written header parse finds: header length and data length. */
  method ParseHeader(data: seq<byte>) returns (r: Option<(nat, nat)>)
    ensures r == Frame(data)
  {
    hide Frame;
    if |data| < 2 {
      FrameOther(data);
      return None;
    }
    var payloadLen, headerLen, extType := 0, 0, 0;
    match data[0] {
      case 0xD4 => FrameFixExt(data, FIXEXT1); payloadLen, headerLen, extType := 1, 2, ToSigned(W8, data[1]);
      case 0xD5 => FrameFixExt(data, FIXEXT2); payloadLen, headerLen, extType := 2, 2, ToSigned(W8, data[1]);
      case 0xD6 => FrameFixExt(data, FIXEXT4); payloadLen, headerLen, extType := 4, 2, ToSigned(W8, data[1]);
      case 0xD7 => FrameFixExt(data, FIXEXT8); payloadLen, headerLen, extType := 8, 2, ToSigned(W8, data[1]);
      case 0xD8 => FrameFixExt(data, FIXEXT16); payloadLen, headerLen, extType := 16, 2, ToSigned(W8, data[1]);
      case 0xC7 =>
        FrameSizedExt(data, EXT8);
        if |data| < 3 {
          return None;
        }
        payloadLen, extType, headerLen := data[1], ToSigned(W8, data[2]), 3;
      case 0xC8 =>
        FrameSizedExt(data, EXT16);
        if |data| < 4 {
          return None;
        }
        payloadLen := data[1] as int * 0x100 + data[2] as int;
        extType, headerLen := ToSigned(W8, data[3]), 4;
      case 0xC9 =>
        FrameSizedExt(data, EXT32);
        if |data| < 6 {
          return None;
        }
        BE32OfBytes(data);
        payloadLen := data[1] as int * 0x100_0000 + data[2] as int * 0x1_0000 + data[3] as int * 0x100 + data[4] as int;
        extType, headerLen := ToSigned(W8, data[5]), 6;
      case _ =>
        FrameOther(data);
        return None;
    }
    if extType != KVENC_EXT_TYPE {
      return None;
    }
    if headerLen + payloadLen > |data| {
      return None;
    }
    return Some((headerLen, payloadLen));
  }

  /** The buffer after the in-place decrypt and the shift, for a frame of `hl` and `pl` bytes. */
  function Opened(h: Hmac, secret: seq<byte>, nonce: u32, buf: seq<byte>, hl: nat, pl: nat): (r: seq<byte>)
    requires hl + pl <= |buf|
    ensures |r| == |buf| && r[..pl] == Ciphered(h, secret, nonce, buf[hl..hl + pl]) && r[hl + pl..] == buf[hl + pl..]
  {
    var x := buf[..hl] + Ciphered(h, secret, nonce, buf[hl..hl + pl]) + buf[hl + pl..];
    x[hl..hl + pl] + x[pl..]
  }

  /** Firmware: `decryptKVResponseIfEncrypted`. */
  method DecryptIfEncrypted(h: Hmac, secret: seq<byte>, lastResponseTs: u32, data: array?<byte>, len: nat)
    returns (ok: bool, newLen: nat)
    requires data != null ==> len <= data.Length
    modifies data
    ensures data == null ==> !ok && newLen == len
    ensures data != null ==>
              match Frame(old(data[..len]))
              case None => !ok && newLen == len && data[..] == old(data[..])
              case Some((hl, pl)) =>
                ok && newLen == pl && data[..] == Opened(h, secret, lastResponseTs, old(data[..]), hl, pl)
  {
    hide Decode, Ciphered;
    if data == null {
      return false, len;
    }
    var header := ParseHeader(data[..len]);
    if header.None? {
      return false, len;
    }
    var (headerLen, payloadLen) := header.value;
    ghost var buf := data[..];
    FirmwareXor(h, secret, lastResponseTs, data, headerLen, payloadLen);
    ghost var x := data[..];
    assert x == buf[..headerLen] + Ciphered(h, secret, lastResponseTs, buf[headerLen..headerLen + payloadLen])
                + buf[headerLen + payloadLen..];
    forall i | 0 <= i < payloadLen {
      data[i] := data[i + headerLen];
    }
    assert data[..] == x[headerLen..headerLen + payloadLen] + x[payloadLen..];
    return true, payloadLen;
  }

  /** The firmware recovers exactly the plaintext from the body the server builds, whatever follows it in memory. */
  lemma FirmwareRecovers(h: Hmac, secret: seq<byte>, nonce: u32, plaintext: seq<byte>, tail: seq<byte>)
    requires |plaintext| <= SERVER_LIMIT
    ensures var body := ResponseBody(h, secret, nonce, plaintext);
            Frame(body).Some? && Frame(body).value.1 == |plaintext|
            && Opened(h, secret, nonce, body + tail, Frame(body).value.0, |plaintext|)[..|plaintext|] == plaintext
  {
    hide Ciphered, Frame, ResponseBody;
    BodyIsFramed(h, secret, nonce, plaintext);
    CipheredTwice(h, secret, nonce, plaintext);
    var body := ResponseBody(h, secret, nonce, plaintext);
    var hl := Frame(body).value.0;
    assert (body + tail)[hl..hl + |plaintext|] == body[hl..];
  }

  /** So does the CLI, which ciphers the ext data. */
  lemma CliRecovers(h: Hmac, secret: seq<byte>, nonce: u32, plaintext: seq<byte>)
    requires |plaintext| <= SERVER_LIMIT
    ensures var body := ResponseBody(h, secret, nonce, plaintext);
            Frame(body).Some? && Ciphered(h, secret, nonce, body[Frame(body).value.0..]) == plaintext
  {
    hide Ciphered, Frame, ResponseBody;
    BodyIsFramed(h, secret, nonce, plaintext);
    CipheredTwice(h, secret, nonce, plaintext);
  }
}
