/** Machine integers, byte strings and the host-independent wire order of client/src/cmp.c. */
module Bytes {

  type byte = x: int | 0 <= x < 0x100
  type u16 = x: int | 0 <= x < 0x1_0000
  type u32 = x: int | 0 <= x < 0x1_0000_0000
  type u64 = x: int | 0 <= x < 0x1_0000_0000_0000_0000

  datatype Option<+T> = None | Some(value: T)

  datatype Width = W8 | W16 | W32 | W64 {
    function Count(): (n: nat)
    {
      match this case W8 => 1 case W16 => 2 case W32 => 4 case W64 => 8
    }

    function Range(): (n: nat)
      ensures n > 0
    {
      match this
      case W8 => 0x100
      case W16 => 0x1_0000
      case W32 => 0x1_0000_0000
      case W64 => 0x1_0000_0000_0000_0000
    }
  }

  // ----- Numbers, texts, maps -----

  function Min(a: nat, b: nat): (m: nat) { if a <= b then a else b }

  predicate StartsWith(s: string, p: string) { p <= s }

  predicate EndsWith(s: string, t: string) { |t| <= |s| && s[|s| - |t|..] == t }

  /** Both maps have the same value at a key, or none. */
  predicate SameAt<K, V(==)>(a: map<K, V>, b: map<K, V>, k: K) { (k in a <==> k in b) && (k in a ==> a[k] == b[k]) }

  // ----- Sequences -----

  lemma Assoc<T>(a: seq<T>, b: seq<T>, c: seq<T>)
    ensures a + b + c == a + (b + c)
  {}

  lemma DropPrefix<T>(a: seq<T>, b: seq<T>)
    ensures (a + b)[|a|..] == b && (a + b)[..|a|] == a
  {}

  lemma TakeDrop<T>(a: seq<T>, k: nat)
    requires k <= |a|
    ensures a == a[..k] + a[k..]
  {}

  function Reverse<T>(s: seq<T>): (r: seq<T>)
    ensures |r| == |s|
  {
    seq(|s|, i requires 0 <= i < |s| => s[|s| - 1 - i])
  }

  // ----- Big-endian images (the MessagePack wire order) -----

  function BE16(x: u16): (b: seq<byte>) { [x / 0x100, x % 0x100] }

  function BE32(x: u32): (b: seq<byte>) { BE16(x / 0x1_0000) + BE16(x % 0x1_0000) }

  function BE64(x: u64): (b: seq<byte>) { BE32(x / 0x1_0000_0000) + BE32(x % 0x1_0000_0000) }

  function BE(w: Width, x: int): (b: seq<byte>)
    requires 0 <= x < w.Range()
    ensures |b| == w.Count()
  {
    match w case W8 => [x] case W16 => BE16(x) case W32 => BE32(x) case W64 => BE64(x)
  }

  function FromBE16(b: seq<byte>): (x: u16)
    requires |b| == 2
  {
    b[0] as int * 0x100 + b[1] as int
  }

  function FromBE32(b: seq<byte>): (x: u32)
    requires |b| == 4
  {
    FromBE16(b[..2]) * 0x1_0000 + FromBE16(b[2..])
  }

  function FromBE64(b: seq<byte>): (x: u64)
    requires |b| == 8
  {
    FromBE32(b[..4]) * 0x1_0000_0000 + FromBE32(b[4..])
  }

  function FromBE(w: Width, b: seq<byte>): (x: nat)
    requires |b| == w.Count()
    ensures x < w.Range()
  {
    match w case W8 => b[0] case W16 => FromBE16(b) case W32 => FromBE32(b) case W64 => FromBE64(b)
  }

  lemma BE32RoundTrip(x: u32)
    ensures FromBE32(BE32(x)) == x
  {
    assert BE32(x)[..2] == BE16(x / 0x1_0000) && BE32(x)[2..] == BE16(x % 0x1_0000);
  }

  lemma FromBE32RoundTrip(b: seq<byte>)
    requires |b| == 4
    ensures BE32(FromBE32(b)) == b
  {
    var hi, lo := FromBE16(b[..2]), FromBE16(b[2..]);
    assert FromBE32(b) / 0x1_0000 == hi && FromBE32(b) % 0x1_0000 == lo;
    assert BE16(hi) == b[..2] && BE16(lo) == b[2..];
  }

  /** Fixed-width big-endian images lose nothing. */
  lemma BERoundTrip(w: Width, x: int)
    requires 0 <= x < w.Range()
    ensures FromBE(w, BE(w, x)) == x
  {
    match w
    case W8 =>
    case W16 =>
    case W32 => BE32RoundTrip(x);
    case W64 =>
      var hi, lo := x / 0x1_0000_0000, x % 0x1_0000_0000;
      BE32RoundTrip(hi); BE32RoundTrip(lo);
      assert BE64(x)[..4] == BE32(hi) && BE64(x)[4..] == BE32(lo);
  }

  /** Every byte string of the right length is the image of the number read from it. */
  lemma FromBERoundTrip(w: Width, b: seq<byte>)
    requires |b| == w.Count()
    ensures BE(w, FromBE(w, b)) == b
  {
    match w
    case W8 =>
    case W16 => assert b == [b[0], b[1]];
    case W32 => FromBE32RoundTrip(b);
    case W64 =>
      var hi, lo := FromBE32(b[..4]), FromBE32(b[4..]);
      FromBE32RoundTrip(b[..4]); FromBE32RoundTrip(b[4..]);
      assert FromBE64(b) / 0x1_0000_0000 == hi && FromBE64(b) % 0x1_0000_0000 == lo;
      assert b == b[..4] + b[4..];
  }

  // ----- Host memory: what reading an integer through a pointer gives -----

  /** The integer a host of the given byte order sees at the bytes `b`. */
  function HostLoad(big: bool, w: Width, b: seq<byte>): (x: nat)
    requires |b| == w.Count()
    ensures x < w.Range()
  {
    FromBE(w, if big then b else Reverse(b))
  }

  /** The bytes a host of the given byte order stores for `x`. */
  function HostStore(big: bool, w: Width, x: int): (b: seq<byte>)
    requires 0 <= x < w.Range()
    ensures |b| == w.Count()
  {
    if big then BE(w, x) else Reverse(BE(w, x))
  }

  function Be16(big: bool, x: u16): (r: u16)
  {
    if !big then x / 0x100 % 0x100 + (x * 0x100) / 0x100 % 0x100 * 0x100 else x
  }

  function Be32(big: bool, x: u32): (r: u32)
  {
    if !big then Be16(big, x / 0x1_0000) + Be16(big, x % 0x1_0000) * 0x1_0000 else x
  }

  function Be64(big: bool, x: u64): (r: u64)
  {
    if !big then Be32(big, x / 0x1_0000_0000) + Be32(big, x % 0x1_0000_0000) * 0x1_0000_0000 else x
  }

  function Swap(big: bool, w: Width, x: int): (r: nat)
    requires 0 <= x < w.Range()
    ensures r < w.Range()
  {
    match w case W8 => x case W16 => Be16(big, x) case W32 => Be32(big, x) case W64 => Be64(big, x)
  }

  lemma Store16(x: u16)
    ensures Reverse(BE16(Be16(false, x))) == BE16(x)
  {
    var r := Be16(false, x);
    assert r == x / 0x100 + (x % 0x100) * 0x100;
    assert r / 0x100 == x % 0x100 && r % 0x100 == x / 0x100;
  }

  lemma ReverseConcat(a: seq<byte>, b: seq<byte>)
    ensures Reverse(a + b) == Reverse(b) + Reverse(a)
  {}

  lemma Store32(x: u32)
    ensures Reverse(BE32(Be32(false, x))) == BE32(x)
  {
    var hi: u16, lo: u16 := x / 0x1_0000, x % 0x1_0000;
    var r := Be32(false, x);
    assert r / 0x1_0000 == Be16(false, lo) && r % 0x1_0000 == Be16(false, hi);
    ReverseConcat(BE16(Be16(false, lo)), BE16(Be16(false, hi)));
    Store16(hi); Store16(lo);
  }

  /** `be16/be32/be64` followed by a raw host store always puts the big-endian image on the wire. */
  lemma SwapStoresBigEndian(big: bool, w: Width, x: int)
    requires 0 <= x < w.Range()
    ensures HostStore(big, w, Swap(big, w, x)) == BE(w, x)
  {
    if !big {
      match w
      case W8 => assert Reverse([x]) == [x];
      case W16 => Store16(x);
      case W32 => Store32(x);
      case W64 =>
        var hi: u32, lo: u32 := x / 0x1_0000_0000, x % 0x1_0000_0000;
        var r := Be64(false, x);
        assert r / 0x1_0000_0000 == Be32(false, lo) && r % 0x1_0000_0000 == Be32(false, hi);
        ReverseConcat(BE32(Be32(false, lo)), BE32(Be32(false, hi)));
        Store32(hi); Store32(lo);
    }
  }

  lemma SwapInvolution16(x: u16)
    ensures Be16(false, Be16(false, x)) == x
  {
    var r := Be16(false, x);
    assert r == x / 0x100 + (x % 0x100) * 0x100;
    assert r / 0x100 == x % 0x100 && r % 0x100 == x / 0x100;
  }

  lemma SwapInvolution32(x: u32)
    ensures Be32(false, Be32(false, x)) == x
  {
    var hi: u16, lo: u16 := x / 0x1_0000, x % 0x1_0000;
    var r := Be32(false, x);
    assert r / 0x1_0000 == Be16(false, lo) && r % 0x1_0000 == Be16(false, hi);
    SwapInvolution16(hi); SwapInvolution16(lo);
  }

  lemma SwapInvolution(big: bool, w: Width, x: int)
    requires 0 <= x < w.Range()
    ensures Swap(big, w, Swap(big, w, x)) == x
  {
    if !big {
      match w
      case W8 =>
      case W16 => SwapInvolution16(x);
      case W32 => SwapInvolution32(x);
      case W64 =>
        var hi: u32, lo: u32 := x / 0x1_0000_0000, x % 0x1_0000_0000;
        var r := Be64(false, x);
        assert r / 0x1_0000_0000 == Be32(false, lo) && r % 0x1_0000_0000 == Be32(false, hi);
        SwapInvolution32(hi); SwapInvolution32(lo);
    }
  }

  /** A raw host load followed by `be16/be32/be64` always reads the big-endian number. */
  lemma SwapLoadsBigEndian(big: bool, w: Width, b: seq<byte>)
    requires |b| == w.Count()
    ensures Swap(big, w, HostLoad(big, w, b)) == FromBE(w, b)
  {
    var x := HostLoad(big, w, b);
    SwapInvolution(big, w, x);
    SwapStoresBigEndian(big, w, Swap(big, w, x));
    FromBERoundTrip(w, if big then b else Reverse(b));
    assert Reverse(Reverse(b)) == b;
    BERoundTrip(w, Swap(big, w, x));
  }

  // ----- Two's complement -----

  /** The cast from a signed to an unsigned integer of the same width. */
  function ToUnsigned(w: Width, n: int): (u: nat)
    requires InSigned(w, n)
    ensures u < w.Range()
  {
    if n < 0 then n + w.Range() else n
  }

  /** The cast from an unsigned to a signed integer of the same width. */
  function ToSigned(w: Width, u: nat): (n: int)
    requires u < w.Range()
    ensures InSigned(w, n) && ToUnsigned(w, n) == u
  {
    if u >= w.Range() / 2 then u - w.Range() else u
  }

  predicate InSigned(w: Width, n: int) { var half: int := w.Range() / 2; -half <= n < half }
}
