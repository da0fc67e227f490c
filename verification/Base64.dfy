/** Base64 as `base64.b64encode` writes it (section 4 of RFC 4648) and as the lenient `b64decode` reads it. */
module Base64 {
  import opened Bytes

  type sextet = n: int | 0 <= n < 64

  function Letter(n: sextet): (c: char)
  {
    if n < 26 then ('A' as int + n) as char
    else if n < 52 then ('a' as int + (n - 26)) as char
    else if n < 62 then ('0' as int + (n - 52)) as char
    else if n == 62 then '+'
    else '/'
  }

  function ValueOf(c: char): (n: Option<sextet>)
  {
    if 'A' <= c <= 'Z' then Some(c as int - 'A' as int)
    else if 'a' <= c <= 'z' then Some(c as int - 'a' as int + 26)
    else if '0' <= c <= '9' then Some(c as int - '0' as int + 52)
    else if c == '+' then Some(62)
    else if c == '/' then Some(63)
    else None
  }

  lemma LetterRoundTrip(n: sextet)
    ensures ValueOf(Letter(n)) == Some(n) && Letter(n) != '='
    ensures Letter(n) as int < 128
  {}

  function First(b: byte): (n: sextet) { b / 4 }

  function Second(b: byte, c: byte): (n: sextet) { (b as int % 4) * 16 + c / 16 }

  function Third(c: byte, d: byte): (n: sextet) { (c as int % 16) * 4 + d / 64 }

  function Fourth(d: byte): (n: sextet) { d % 64 }

  /** Three bytes make four letters; a short last group is filled with zero bits and padded. */
  function Encode(b: seq<byte>): (s: string)
  {
    if b == [] then ""
    else if |b| == 1 then [Letter(First(b[0])), Letter(Second(b[0], 0)), '=', '=']
    else if |b| == 2 then [Letter(First(b[0])), Letter(Second(b[0], b[1])), Letter(Third(b[1], 0)), '=']
    else
      [Letter(First(b[0])), Letter(Second(b[0], b[1])), Letter(Third(b[1], b[2])), Letter(Fourth(b[2]))]
      + Encode(b[3..])
  }

  /** The bits of a byte are all in its letters. */
  lemma Regroup(b: byte, c: byte, d: byte)
    ensures First(b) * 4 + Second(b, c) / 16 == b
    ensures (Second(b, c) % 16) * 16 + Third(c, d) / 4 == c
    ensures (Third(c, d) % 4) * 64 + Fourth(d) == d
  {}

  /**
   The reader's loop: `quad` letters of the current group are read, `left` holds their bits not yet given out, and
   `pads` counts padding since the last letter. Anything outside the alphabet is skipped, and enough padding ends the
   reading wherever it stands.
   */
  function Read(s: string, quad: nat, left: nat, pads: nat): (b: Option<seq<byte>>)
    requires quad < 4 && left < [1, 64, 16, 4][quad]
  {
    if s == "" then if quad == 0 then Some([]) else None
    else if s[0] == '=' then
      if quad >= 2 && quad + pads + 1 >= 4 then Some([])
      else Read(s[1..], quad, left, if quad >= 2 then pads + 1 else pads)
    else
      match ValueOf(s[0])
      case None => Read(s[1..], quad, left, pads)
      case Some(v) =>
        if quad == 0 then Read(s[1..], 1, v, 0)
        else if quad == 1 then Give(left * 4 + v / 16, Read(s[1..], 2, v % 16, 0))
        else if quad == 2 then Give(left * 16 + v / 4, Read(s[1..], 3, v % 4, 0))
        else Give(left * 64 + v, Read(s[1..], 0, 0, 0))
  }

  function Give(b: byte, rest: Option<seq<byte>>): (r: Option<seq<byte>>)
  {
    if rest.Some? then Some([b] + rest.value) else None
  }

  /** `b64decode(s, validate=False)`; `None` stands for the exception. */
  function Decode(s: string): (b: Option<seq<byte>>)
  {
    if exists i | 0 <= i < |s| :: s[i] as int >= 128 then None else Read(s, 0, 0, 0)
  }

  lemma Letter0(s: string, n: sextet, pads: nat)
    requires s != "" && s[0] == Letter(n)
    ensures Read(s, 0, 0, pads) == Read(s[1..], 1, n, 0)
  {
    hide Letter, ValueOf;
    LetterRoundTrip(n);
  }

  lemma Letter1(s: string, n: sextet, left: sextet)
    requires s != "" && s[0] == Letter(n)
    ensures Read(s, 1, left, 0) == Give(left * 4 + n / 16, Read(s[1..], 2, n % 16, 0))
  {
    hide Letter, ValueOf, Give;
    LetterRoundTrip(n);
  }

  lemma Letter2(s: string, n: sextet, left: nat)
    requires s != "" && s[0] == Letter(n) && left < 16
    ensures Read(s, 2, left, 0) == Give(left * 16 + n / 4, Read(s[1..], 3, n % 4, 0))
  {
    hide Letter, ValueOf, Give;
    LetterRoundTrip(n);
  }

  lemma Letter3(s: string, n: sextet, left: nat)
    requires s != "" && s[0] == Letter(n) && left < 4
    ensures Read(s, 3, left, 0) == Give(left * 64 + n, Read(s[1..], 0, 0, 0))
  {
    hide Letter, ValueOf, Give;
    LetterRoundTrip(n);
  }

  lemma ReadPair(m: sextet, n: sextet, rest: string)
    ensures Read([Letter(m), Letter(n)] + rest, 0, 0, 0) == Give(m * 4 + n / 16, Read(rest, 2, n % 16, 0))
  {
    hide Letter, Give, Read;
    var s := [Letter(m), Letter(n)] + rest;
    Letter0(s, m, 0);
    Letter1(s[1..], n, m);
    assert s[1..][1..] == rest;
  }

  lemma ReadTriple(m: sextet, n: sextet, o: sextet, rest: string)
    ensures Read([Letter(m), Letter(n), Letter(o)] + rest, 0, 0, 0)
            == Give(m * 4 + n / 16, Give(n % 16 * 16 + o / 4, Read(rest, 3, o % 4, 0)))
  {
    hide Letter, Give, Read;
    var t := [Letter(o)] + rest;
    assert [Letter(m), Letter(n), Letter(o)] + rest == [Letter(m), Letter(n)] + t;
    ReadPair(m, n, t);
    Letter2(t, o, n % 16);
    assert t[1..] == rest;
  }

  lemma ReadQuad(m: sextet, n: sextet, o: sextet, p: sextet, rest: string)
    ensures Read([Letter(m), Letter(n), Letter(o), Letter(p)] + rest, 0, 0, 0)
            == Give(m * 4 + n / 16, Give(n % 16 * 16 + o / 4, Give(o % 4 * 64 + p, Read(rest, 0, 0, 0))))
  {
    hide Letter, Give, Read;
    var t := [Letter(p)] + rest;
    assert [Letter(m), Letter(n), Letter(o), Letter(p)] + rest == [Letter(m), Letter(n), Letter(o)] + t;
    ReadTriple(m, n, o, t);
    Letter3(t, p, o % 4);
    assert t[1..] == rest;
  }

  lemma ReadPadding(left: nat)
    ensures left < 16 ==> Read("==", 2, left, 0) == Some([])
    ensures left < 4 ==> Read("=", 3, left, 0) == Some([])
  {
    if left < 16 {
      assert "=="[1..] == "=";
      assert Read("=", 2, left, 1) == Some([]);
    }
  }

  lemma {:induction false} EncodeIsAscii(b: seq<byte>)
    ensures forall i | 0 <= i < |Encode(b)| :: Encode(b)[i] as int < 128
  {
    if |b| >= 3 {
      EncodeIsAscii(b[3..]);
    }
    forall n: sextet ensures Letter(n) as int < 128 {
      LetterRoundTrip(n);
    }
  }

  lemma GiveSome(b: byte, rest: seq<byte>)
    ensures Give(b, Some(rest)) == Some([b] + rest)
  {}

  lemma ReadOne(b: byte)
    ensures Read(Encode([b]), 0, 0, 0) == Some([b])
  {
    hide Letter, ValueOf, Give, First, Second, Read;
    var m, n := First(b), Second(b, 0);
    assert Encode([b]) == [Letter(m), Letter(n)] + "==";
    ReadPair(m, n, "==");
    ReadPadding(n % 16);
    Regroup(b, 0, 0);
    GiveSome(b, []);
    assert [b] + [] == [b];
  }

  lemma ReadTwo(b: byte, c: byte)
    ensures Read(Encode([b, c]), 0, 0, 0) == Some([b, c])
  {
    hide Letter, ValueOf, Give, First, Second, Third, Read;
    var m, n, o := First(b), Second(b, c), Third(c, 0);
    assert Encode([b, c]) == [Letter(m), Letter(n), Letter(o)] + "=";
    ReadTriple(m, n, o, "=");
    ReadPadding(o % 4);
    Regroup(b, c, 0);
    GiveSome(c, []);
    GiveSome(b, [c] + []);
    assert [b] + ([c] + []) == [b, c];
  }

  lemma EncodeThree(b: byte, c: byte, d: byte, tail: seq<byte>)
    ensures Encode([b, c, d] + tail)
            == [Letter(First(b)), Letter(Second(b, c)), Letter(Third(c, d)), Letter(Fourth(d))] + Encode(tail)
  {
    hide Letter, First, Second, Third, Fourth;
    assert ([b, c, d] + tail)[3..] == tail;
  }

  lemma ReadThree(b: byte, c: byte, d: byte, tail: seq<byte>)
    requires Read(Encode(tail), 0, 0, 0) == Some(tail)
    ensures Read(Encode([b, c, d] + tail), 0, 0, 0) == Some([b, c, d] + tail)
  {
    hide Letter, ValueOf, Give, First, Second, Third, Fourth, Read, Encode;
    EncodeThree(b, c, d, tail);
    ReadQuad(First(b), Second(b, c), Third(c, d), Fourth(d), Encode(tail));
    Regroup(b, c, d);
    GiveSome(d, tail);
    GiveSome(c, [d] + tail);
    GiveSome(b, [c] + ([d] + tail));
    assert [b] + ([c] + ([d] + tail)) == [b, c, d] + tail;
  }

  /** Every byte string comes back. */
  lemma {:induction false} RoundTrip(b: seq<byte>)
    ensures Decode(Encode(b)) == Some(b)
  {
    hide Encode, Read;
    EncodeIsAscii(b);
    ReadBack(b);
  }

  lemma {:induction false} ReadBack(b: seq<byte>)
    ensures Read(Encode(b), 0, 0, 0) == Some(b)
  {
    hide Letter, ValueOf, Give, First, Second, Third, Fourth;
    if |b| == 1 {
      ReadOne(b[0]);
      assert b == [b[0]];
    } else if |b| == 2 {
      ReadTwo(b[0], b[1]);
      assert b == [b[0], b[1]];
    } else if |b| > 2 {
      ReadBack(b[3..]);
      ReadThree(b[0], b[1], b[2], b[3..]);
      assert b == [b[0], b[1], b[2]] + b[3..];
    }
  }

  // ----- The wire form, letter by letter -----

  /** Capital letters, small letters and digits in their order, then plus and slash. */
  lemma AlphabetIs(n: sextet)
    ensures Letter(0) == 'A' && Letter(25) == 'Z' && Letter(26) == 'a' && Letter(51) == 'z'
    ensures Letter(52) == '0' && Letter(61) == '9' && Letter(62) == '+' && Letter(63) == '/'
    ensures n !in {25, 51, 61, 62, 63} ==> Letter(n + 1) as int == Letter(n) as int + 1
  {}

  /** The number that a group of up to three bytes is, missing bytes counted as zeros. */
  function GroupNumber(b: seq<byte>): (n: nat)
    requires |b| <= 3
    ensures n < 0x100_0000
  {
    (if |b| > 0 then b[0] as int * 65536 else 0) + (if |b| > 1 then b[1] as int * 256 else 0)
    + if |b| > 2 then b[2] else 0
  }

  function Digit(n: nat, place: nat): (d: sextet)
    requires place > 0
  {
    n / place % 64
  }

  lemma Parts(n: nat, q: nat, r: nat)
    requires r < 64 && n == q * 64 + r
    ensures n % 64 == r
  {}

  lemma FirstDigit(b: byte, c: byte, d: byte)
    ensures Digit(b as int * 65536 + c as int * 256 + d, 262144) == First(b)
  {
    var rest := c as int * 256 + d;
    assert (b * 65536 + rest) / 262144 == b / 4;
  }

  lemma SecondDigit(b: byte, c: byte, d: byte)
    ensures Digit(b as int * 65536 + c as int * 256 + d, 4096) == Second(b, c)
  {
    assert (b as int * 65536 + c as int * 256 + d) / 4096 == b as int * 16 + c / 16;
    Parts(b as int * 16 + c / 16, b / 4, b % 4 * 16 + c / 16);
  }

  lemma ThirdDigit(b: byte, c: byte, d: byte)
    ensures Digit(b as int * 65536 + c as int * 256 + d, 64) == Third(c, d)
  {
    assert (b as int * 65536 + c as int * 256 + d) / 64 == b as int * 1024 + c as int * 4 + d / 64;
    Parts(b as int * 1024 + c as int * 4 + d / 64, b as int * 16 + c / 16, c % 16 * 4 + d / 64);
  }

  lemma FourthDigit(b: byte, c: byte, d: byte)
    ensures Digit(b as int * 65536 + c as int * 256 + d, 1) == Fourth(d)
  {
    Parts(b as int * 65536 + c as int * 256 + d, b as int * 1024 + c as int * 4 + d / 64, d % 64);
  }

  /** The four letters of a group. */
  function Letters(n: nat): (s: string)
  {
    [Letter(Digit(n, 262144)), Letter(Digit(n, 4096)), Letter(Digit(n, 64)), Letter(Digit(n, 1))]
  }

  lemma LettersOf(b: byte, c: byte, d: byte)
    ensures Letters(b as int * 65536 + c as int * 256 + d)
            == [Letter(First(b)), Letter(Second(b, c)), Letter(Third(c, d)), Letter(Fourth(d))]
  {
    hide Letter, First, Second, Third, Fourth, Digit;
    FirstDigit(b, c, d);
    SecondDigit(b, c, d);
    ThirdDigit(b, c, d);
    FourthDigit(b, c, d);
  }

  /**
   A group is its number in four digits of base 64, the most significant first, with padding for the digits that hold
   no bit of the group's; the bits that fill up the last digit are zeros.
   */
  lemma GroupIs(b: seq<byte>)
    requires 0 < |b| <= 3
    ensures |Encode(b)| == 4 == |Letters(GroupNumber(b))|
    ensures forall i | 0 <= i < 4 :: Encode(b)[i] == if i <= |b| then Letters(GroupNumber(b))[i] else '='
  {
    hide Letter, First, Second, Third, Fourth, Letters, Encode;
    if |b| == 1 {
      assert b == [b[0]];
      LettersOf(b[0], 0, 0);
      ShortOne(b[0]);
    } else if |b| == 2 {
      assert b == [b[0], b[1]];
      LettersOf(b[0], b[1], 0);
      ShortTwo(b[0], b[1]);
    } else {
      LettersOf(b[0], b[1], b[2]);
      EncodeThree(b[0], b[1], b[2], []);
      assert b == [b[0], b[1], b[2]] + [];
      EncodeEmpty();
    }
  }

  lemma EncodeEmpty()
    ensures Encode([]) == ""
  {}

  lemma ShortOne(b: byte)
    ensures Encode([b]) == [Letter(First(b)), Letter(Second(b, 0)), '=', '=']
  {}

  lemma ShortTwo(b: byte, c: byte)
    ensures Encode([b, c]) == [Letter(First(b)), Letter(Second(b, c)), Letter(Third(c, 0)), '=']
  {}

  lemma EncodeGroup(b: byte, c: byte, d: byte)
    ensures Encode([b, c, d]) == [Letter(First(b)), Letter(Second(b, c)), Letter(Third(c, d)), Letter(Fourth(d))]
  {
    hide Letter, First, Second, Third, Fourth;
    assert [b, c, d][3..] == [];
  }

  /** A text is written group by group. */
  lemma GroupsInTurn(b: seq<byte>)
    requires |b| >= 3
    ensures Encode(b) == Encode(b[..3]) + Encode(b[3..])
  {
    hide Letter, First, Second, Third, Fourth, Encode;
    EncodeGroup(b[0], b[1], b[2]);
    assert b[..3] == [b[0], b[1], b[2]];
    assert b == [b[0], b[1], b[2]] + b[3..];
    EncodeThree(b[0], b[1], b[2], b[3..]);
  }

  // ----- What the reader takes -----

  predicate InAlphabet(c: char) { 'A' <= c <= 'Z' || 'a' <= c <= 'z' || '0' <= c <= '9' || c == '+' || c == '/' }

  /** The text without what is neither a letter nor padding. */
  function Cleaned(s: string): (t: string)
  {
    if s == "" then "" else (if InAlphabet(s[0]) || s[0] == '=' then [s[0]] else "") + Cleaned(s[1..])
  }

  lemma CleanedFirst(s: string)
    requires s != "" && (InAlphabet(s[0]) || s[0] == '=')
    ensures Cleaned(s) != "" && Cleaned(s)[0] == s[0] && Cleaned(s)[1..] == Cleaned(s[1..])
  {
    hide InAlphabet;
  }

  lemma CleanedEmpty()
    ensures Cleaned("") == ""
  {}

  lemma ReadJunk(s: string, quad: nat, left: nat, pads: nat)
    requires quad < 4 && left < [1, 64, 16, 4][quad] && s != "" && !InAlphabet(s[0]) && s[0] != '='
    ensures Read(s, quad, left, pads) == Read(s[1..], quad, left, pads) && Cleaned(s) == Cleaned(s[1..])
  {
    hide Give;
  }

  /** Line ends, blanks and the like are passed over. */
  lemma {:induction false} ReadCleaned(s: string, quad: nat, left: nat, pads: nat)
    requires quad < 4 && left < [1, 64, 16, 4][quad]
    ensures Read(s, quad, left, pads) == Read(Cleaned(s), quad, left, pads)
    decreases s
  {
    hide Cleaned, Give, InAlphabet, ValueOf;
    if s == "" {
      CleanedEmpty();
    } else if !InAlphabet(s[0]) && s[0] != '=' {
      ReadJunk(s, quad, left, pads);
      ReadCleaned(s[1..], quad, left, pads);
    } else {
      CleanedFirst(s);
      if s[0] == '=' {
        if quad < 2 || quad + pads + 1 < 4 {
          ReadCleaned(s[1..], quad, left, if quad >= 2 then pads + 1 else pads);
        }
      } else {
        InAlphabetIff(s[0]);
        ReadLetter(s, ValueOf(s[0]).value, quad, left, pads);
      }
    }
  }

  lemma InAlphabetIff(c: char)
    ensures InAlphabet(c) <==> ValueOf(c).Some?
  {}

  lemma ReadLetter(s: string, v: sextet, quad: nat, left: nat, pads: nat)
    requires quad < 4 && left < [1, 64, 16, 4][quad] && s != "" && ValueOf(s[0]) == Some(v) && s[0] != '='
    requires Cleaned(s) != "" && Cleaned(s)[0] == s[0] && Cleaned(s)[1..] == Cleaned(s[1..])
    ensures Read(s, quad, left, pads) == Read(Cleaned(s), quad, left, pads)
    decreases s, 0
  {
    hide Cleaned, Give, InAlphabet, ValueOf;
    if quad == 0 {
      ReadCleaned(s[1..], 1, v, 0);
    } else if quad == 1 {
      ReadCleaned(s[1..], 2, v % 16, 0);
    } else if quad == 2 {
      ReadCleaned(s[1..], 3, v % 4, 0);
    } else {
      ReadCleaned(s[1..], 0, 0, 0);
    }
  }

  /** The text is read as if only letters and padding stood in it, unless it holds more than ASCII. */
  lemma JunkIsPassed(s: string)
    ensures Decode(s) == if exists i | 0 <= i < |s| :: s[i] as int >= 128 then None else Decode(Cleaned(s))
  {
    hide Read, Cleaned;
    CleanedIsAscii(s);
    ReadCleaned(s, 0, 0, 0);
  }

  lemma {:induction false} CleanedIsAscii(s: string)
    ensures forall i | 0 <= i < |Cleaned(s)| :: Cleaned(s)[i] as int < 128
  {
    if s != "" {
      CleanedIsAscii(s[1..]);
    }
  }

  /**
   With two or three letters of a group read, padding up to its length ends the reading, whatever follows; a text that
   ends in the middle of a group, or is padded short, is refused. Elsewhere padding is passed over.
   */
  lemma PaddingIs(rest: string, quad: nat, left: nat)
    requires quad < 4 && left < [1, 64, 16, 4][quad]
    ensures quad < 2 ==> Read("=" + rest, quad, left, 0) == Read(rest, quad, left, 0)
    ensures quad == 2 ==> Read("==" + rest, quad, left, 0) == Some([]) && Read("=", quad, left, 0) == None
    ensures quad == 3 ==> Read("=" + rest, quad, left, 0) == Some([])
    ensures Read("", quad, left, 0) == if quad == 0 then Some([]) else None
  {
    assert ("=" + rest)[1..] == rest && ("==" + rest)[1..] == "=" + rest;
    if quad == 2 {
      assert Read("=" + rest, 2, left, 1) == Some([]);
    }
  }
}
