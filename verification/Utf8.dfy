/** The UTF-8 reader and writer of genx, and its checking and scrubbing of texts. */
module Utf8 {

  type Byte = b: int | 0 <= b < 256

  /** A C string without its terminating zero. */
  type Text = t: seq<Byte> | forall k | 0 <= k < |t| :: t[k] != 0

  // ----- the encoding of section 4 of RFC 3629

  /** The number of bytes of a character that begins with b, 0 when none does. */
  function Span(b: Byte): nat {
    if b < 0x80 then 1
    else if 0xC2 <= b <= 0xDF then 2
    else if 0xE0 <= b <= 0xEF then 3
    else if 0xF0 <= b <= 0xF4 then 4
    else 0
  }

  /** The bytes that may follow the first one as number k. */
  predicate MayFollow(first: Byte, k: nat, b: Byte) {
    if k == 1 && first == 0xE0 then 0xA0 <= b <= 0xBF
    else if k == 1 && first == 0xED then 0x80 <= b <= 0x9F
    else if k == 1 && first == 0xF0 then 0x90 <= b <= 0xBF
    else if k == 1 && first == 0xF4 then 0x80 <= b <= 0x8F
    else 0x80 <= b <= 0xBF
  }

  predicate IsUtf8Char(s: seq<Byte>) {
    s != [] && |s| == Span(s[0]) && forall k | 1 <= k < |s| :: MayFollow(s[0], k, s[k])
  }

  predicate IsScalar(c: int) {
    0 <= c <= 0x10FFFF && !(0xD800 <= c <= 0xDFFF)
  }

  /** The bytes genxAddCharacter makes of a character; shifts and masks are quotients and
    * remainders, and or is addition, the bits being disjoint. */
  function Encode(c: int): seq<Byte>
    requires IsScalar(c)
  {
    if c < 0x80 then [c]
    else if c < 0x800 then [0xC0 + c / 0x40, 0x80 + c % 0x40]
    else if c < 0x10000 then [0xE0 + c / 0x1000, 0x80 + c / 0x40 % 0x40, 0x80 + c % 0x40]
    else [0xF0 + c / 0x40000, 0x80 + c / 0x1000 % 0x40, 0x80 + c / 0x40 % 0x40, 0x80 + c % 0x40]
  }

  /** The bits of the first byte, then six from each of the others. */
  function Bits(first: int, rest: seq<Byte>): int {
    if rest == [] then first else 0x40 * Bits(first, rest[..|rest| - 1]) + rest[|rest| - 1] - 0x80
  }

  /** The character that bytes stand for. */
  function Value(s: seq<Byte>): int
    requires IsUtf8Char(s)
  {
    match |s|
    case 1 => s[0]
    case 2 => Bits(s[0] - 0xC0, [s[1]])
    case 3 => Bits(s[0] - 0xE0, [s[1], s[2]])
    case _ => Bits(s[0] - 0xF0, [s[1], s[2], s[3]])
  }

  lemma Two(a: int, b: Byte)
    requires 0x80 <= b <= 0xBF
    ensures var v := Bits(a, [b]); v == 0x40 * a + b - 0x80 && v / 0x40 == a && v % 0x40 == b - 0x80
  {
    assert [b][..0] == [];
  }

  lemma Three(a: int, b: Byte, c: Byte)
    requires 0x80 <= b <= 0xBF && 0x80 <= c <= 0xBF
    ensures var v := Bits(a, [b, c]);
      && v == 0x1000 * a + 0x40 * (b - 0x80) as int + c - 0x80
      && v / 0x1000 == a && v / 0x40 % 0x40 == b - 0x80 && v % 0x40 == c - 0x80
  {
    assert [b, c][..1] == [b];
    Two(a, b);
  }

  lemma Four(a: int, b: Byte, c: Byte, d: Byte)
    requires 0x80 <= b <= 0xBF && 0x80 <= c <= 0xBF && 0x80 <= d <= 0xBF
    ensures var v := Bits(a, [b, c, d]);
      && v == 0x40000 * a + 0x1000 * (b - 0x80) as int + 0x40 * (c - 0x80) as int + d - 0x80
      && v / 0x40000 == a && v / 0x1000 % 0x40 == b - 0x80 && v / 0x40 % 0x40 == c - 0x80 && v % 0x40 == d - 0x80
  {
    assert [b, c, d][..2] == [b, c];
    Three(a, b, c);
    var v := Bits(a, [b, c, d]);
    assert v / 0x40 == Bits(a, [b, c]);
    assert v / 0x1000 == v / 0x40 / 0x40 && v / 0x40000 == v / 0x1000 / 0x40;
  }

  /** The writer's bytes are well-formed, and the reader's value of them is the character. */
  lemma ValueOfEncoded(c: int)
    requires IsScalar(c)
    ensures IsUtf8Char(Encode(c)) && Value(Encode(c)) == c
  {
    var s := Encode(c);
    assert c / 0x1000 == c / 0x40 / 0x40 && c / 0x40000 == c / 0x1000 / 0x40;
    if 0x80 <= c < 0x800 {
      Two(c / 0x40, s[1]);
    } else if 0x800 <= c < 0x10000 {
      Three(c / 0x1000, s[1], s[2]);
    } else if 0x10000 <= c {
      Four(c / 0x40000, s[1], s[2], s[3]);
    }
  }

  /** Well-formed bytes are the writer's bytes for their value, which is a scalar value: no
    * surrogate, no overlong form, nothing past U+10FFFF. */
  lemma EncodedValue(s: seq<Byte>)
    requires IsUtf8Char(s)
    ensures IsScalar(Value(s)) && Encode(Value(s)) == s
  {
    hide Bits, Encode;
    assert forall k | 1 <= k < |s| :: MayFollow(s[0], k, s[k]);
    match |s| {
      case 1 => EncodedOne(s);
      case 2 => EncodedTwo(s, s[0] - 0xC0);
      case 3 => EncodedThree(s, s[0] - 0xE0);
      case _ => EncodedFour(s, s[0] - 0xF0);
    }
  }

  lemma EncodedOne(s: seq<Byte>)
    requires |s| == 1 && s[0] < 0x80
    ensures Encode(s[0]) == s
  {
  }

  lemma EncodedTwo(s: seq<Byte>, a: int)
    requires |s| == 2 && s[0] == 0xC0 + a && 2 <= a < 0x20 && MayFollow(s[0], 1, s[1])
    ensures var c := Bits(a, [s[1]]); IsScalar(c) && Encode(c) == s
  {
    hide Bits;
    Two(a, s[1]);
  }

  lemma EncodedThree(s: seq<Byte>, a: int)
    requires |s| == 3 && s[0] == 0xE0 + a && 0 <= a < 0x10 && MayFollow(s[0], 1, s[1]) && MayFollow(s[0], 2, s[2])
    ensures var c := Bits(a, [s[1], s[2]]); IsScalar(c) && Encode(c) == s
  {
    hide Bits;
    Three(a, s[1], s[2]);
    EncodeThree(Bits(a, [s[1], s[2]]));
  }

  lemma EncodeThree(c: int)
    requires IsScalar(c) && 0x800 <= c < 0x10000
    ensures Encode(c) == [0xE0 + c / 0x1000, 0x80 + c / 0x40 % 0x40, 0x80 + c % 0x40]
  {
  }

  lemma EncodedFour(s: seq<Byte>, a: int)
    requires |s| == 4 && s[0] == 0xF0 + a && 0 <= a < 5
    requires MayFollow(s[0], 1, s[1]) && MayFollow(s[0], 2, s[2]) && MayFollow(s[0], 3, s[3])
    ensures var c := Bits(a, [s[1], s[2], s[3]]); IsScalar(c) && Encode(c) == s
  {
    hide Bits, Encode;
    Four(a, s[1], s[2], s[3]);
    EncodeFour(Bits(a, [s[1], s[2], s[3]]));
  }

  lemma EncodeFour(c: int)
    requires IsScalar(c) && 0x10000 <= c
    ensures Encode(c) == [0xF0 + c / 0x40000, 0x80 + c / 0x1000 % 0x40, 0x80 + c / 0x40 % 0x40, 0x80 + c % 0x40]
  {
  }

  /** In the order of a dictionary. */
  ghost predicate Below(s: seq<Byte>, t: seq<Byte>) {
    exists k :: FirstDifference(s, t, k)
  }

  predicate FirstDifference(s: seq<Byte>, t: seq<Byte>, k: nat) {
    k <= |s| && k < |t| && s[..k] == t[..k] && (k == |s| || s[k] < t[k])
  }

  /** The bytes of characters are in the order of the characters. */
  lemma EncodingKeepsOrder(c: int, d: int)
    requires IsScalar(c) && IsScalar(d) && c < d
    ensures Below(Encode(c), Encode(d))
  {
    hide Below, Encode;
    var s, t := Encode(c), Encode(d);
    SixBits(c, d);
    if d < 0x80 || c < 0x80 <= d || c < 0x800 <= d || c < 0x10000 <= d {
      FirstByte(c);
      FirstByte(d);
      DiffersAt(s, t, 0);
    } else if d < 0x800 {
      EncodeTwo(c);
      EncodeTwo(d);
      DiffersAt(s, t, if s[0] != t[0] then 0 else 1);
    } else if d < 0x10000 {
      EncodeThree(c);
      EncodeThree(d);
      DiffersAt(s, t, if s[0] != t[0] then 0 else if s[1] != t[1] then 1 else 2);
    } else {
      EncodeFour(c);
      EncodeFour(d);
      DiffersAt(s, t, if s[0] != t[0] then 0 else if s[1] != t[1] then 1 else if s[2] != t[2] then 2 else 3);
    }
  }

  lemma FirstByte(c: int)
    requires IsScalar(c)
    ensures Encode(c) != []
    ensures var b := Encode(c)[0];
      if c < 0x80 then b == c else if c < 0x800 then 0xC0 <= b < 0xE0 else if c < 0x10000 then 0xE0 <= b < 0xF0 else b >= 0xF0
  {
  }

  lemma EncodeTwo(c: int)
    requires IsScalar(c) && 0x80 <= c < 0x800
    ensures Encode(c) == [0xC0 + c / 0x40, 0x80 + c % 0x40]
  {
  }

  lemma DiffersAt(s: seq<Byte>, t: seq<Byte>, k: nat)
    requires k < |s| && k < |t| && s[k] < t[k] && forall j | 0 <= j < k :: s[j] == t[j]
    ensures Below(s, t)
  {
    assert FirstDifference(s, t, k);
  }

  /** Comparing numbers by their sixes of bits, the highest first. */
  lemma SixBits(c: int, d: int)
    requires 0 <= c < d
    ensures c / 0x40 <= d / 0x40 && c / 0x1000 <= d / 0x1000 && c / 0x40000 <= d / 0x40000
    ensures c / 0x40 == d / 0x40 ==> c % 0x40 < d % 0x40
    ensures c / 0x1000 == d / 0x1000 ==> c / 0x40 % 0x40 <= d / 0x40 % 0x40
    ensures c / 0x1000 == d / 0x1000 && c / 0x40 % 0x40 == d / 0x40 % 0x40 ==> c / 0x40 == d / 0x40
    ensures c / 0x40000 == d / 0x40000 ==> c / 0x1000 % 0x40 <= d / 0x1000 % 0x40
    ensures c / 0x40000 == d / 0x40000 && c / 0x1000 % 0x40 == d / 0x1000 % 0x40 ==> c / 0x1000 == d / 0x1000
  {
    assert c / 0x1000 == c / 0x40 / 0x40 && c / 0x40000 == c / 0x1000 / 0x40;
    assert d / 0x1000 == d / 0x40 / 0x40 && d / 0x40000 == d / 0x1000 / 0x40;
  }

  // ----- reading

  /** Reading stays within the string and its terminator. */
  function At(t: Text, i: nat): Byte
    requires i <= |t|
  {
    if i < |t| then t[i] else 0
  }

  /** The byte k places on may belong to the character that begins at i. */
  predicate Fits(t: Text, i: nat, k: nat)
    requires i + k < |t|
  {
    k == 0 || MayFollow(t[i], k, t[i + k])
  }

  /** How many bytes at i fit the beginning of one character, up to its length. */
  function Fitting(t: Text, i: nat, k: nat): (m: nat)
    requires i < |t| && k <= Span(t[i]) && i + k <= |t|
    ensures k <= m <= Span(t[i]) && i + m <= |t|
    ensures forall n | k <= n < m :: Fits(t, i, n)
    ensures m < Span(t[i]) && i + m < |t| ==> !Fits(t, i, m)
    decreases Span(t[i]) - k
  {
    if k < Span(t[i]) && i + k < |t| && Fits(t, i, k) then Fitting(t, i, k + 1) else k
  }

  lemma FittingIsChar(t: Text, i: nat)
    requires i < |t|
    ensures var m := Fitting(t, i, 0); m > 0 && m == Span(t[i]) ==> IsUtf8Char(t[i..i + m])
  {
    var m := Fitting(t, i, 0);
    if m > 0 {
      var s := t[i..i + m];
      forall k | 1 <= k < |s|
        ensures MayFollow(s[0], k, s[k])
      {
        assert Fits(t, i, k);
      }
    }
  }

  lemma {:induction false} FittingIs(t: Text, i: nat, k: nat, m: nat)
    requires i < |t| && k <= m <= Span(t[i]) && i + m <= |t|
    requires forall n | k <= n < m :: Fits(t, i, n)
    requires m == Span(t[i]) || i + m == |t| || !Fits(t, i, m)
    ensures Fitting(t, i, k) == m
    decreases m - k
  {
    hide MayFollow, Fits;
    if k < m {
      FittingIs(t, i, k + 1, m);
    }
  }

  /** The character at i and the place after it; -1 when there is none, and then the place
    * after the first byte that does not fit, or the end. */
  function Next(t: Text, i: nat): (r: (int, nat))
    requires i <= |t|
    ensures i <= r.1 <= |t| && (i < |t| ==> i < r.1)
  {
    if i == |t| then (-1, i)
    else
      var m := Fitting(t, i, 0);
      FittingIsChar(t, i);
      if m > 0 && m == Span(t[i]) then (Value(t[i..i + m]), i + m)
      else (-1, if i + m < |t| then i + m + 1 else |t|)
  }

  /** A character stands at i, n bytes long. */
  predicate IsCharAt(t: Text, i: nat, n: nat) {
    i + n <= |t| && IsUtf8Char(t[i..i + n])
  }

  /** The reader accepts exactly the well-formed characters other than zero: it takes the one
    * that stands at i, and no other value can stand there. */
  lemma NextAccepts(t: Text, i: nat, n: nat)
    requires i <= |t|
    ensures IsCharAt(t, i, n) ==> Next(t, i) == (Value(t[i..i + n]), i + n)
    ensures Next(t, i).0 != -1 ==> IsCharAt(t, i, Next(t, i).1 - i)
    ensures Next(t, i).0 != -1 ==> IsScalar(Next(t, i).0) && Next(t, i).0 != 0 && Encode(Next(t, i).0) == t[i..Next(t, i).1]
  {
    hide Value, Encode, Span, MayFollow, Fits, IsUtf8Char;
    if i < |t| {
      FittingIsChar(t, i);
      if IsCharAt(t, i, n) {
        CharFits(t, i, n);
        FittingIs(t, i, 0, n);
      }
    } else {
      NothingAtEnd(t, n);
    }
    if Next(t, i).0 != -1 || IsCharAt(t, i, n) {
      var s := t[i..Next(t, i).1];
      EncodedValue(s);
      FirstIsNotZero(s);
    }
  }

  /** The beginning of some character. */
  ghost predicate IsBeginning(s: seq<Byte>) {
    exists q: seq<Byte> :: IsUtf8Char(s + q)
  }

  /** A byte that may follow the first as number k. */
  function Filler(first: Byte, k: nat): (b: Byte)
    ensures MayFollow(first, k, b)
  {
    if k == 1 && first == 0xE0 then 0xA0 else if k == 1 && first == 0xF0 then 0x90 else 0x80
  }

  lemma FittingBegins(t: Text, i: nat)
    requires i < |t|
    ensures IsBeginning(t[i..i + Fitting(t, i, 0)])
  {
    var m := Fitting(t, i, 0);
    var s := t[i..i + m];
    if m == 0 {
      var q: seq<Byte> := [0x41];
      assert s + q == q && IsUtf8Char(q);
    } else {
      var q := seq<Byte>(Span(t[i]) - m, k requires 0 <= k < Span(t[i]) - m => Filler(t[i], m + k));
      forall k | 1 <= k < |s + q|
        ensures MayFollow(t[i], k, (s + q)[k])
      {
        if k < m {
          assert Fits(t, i, k);
        } else {
          assert (s + q)[k] == q[k - m] == Filler(t[i], m + (k - m));
        }
      }
      GoesOn(s, q);
    }
  }

  lemma GoesOn(s: seq<Byte>, q: seq<Byte>)
    requires IsUtf8Char(s + q)
    ensures IsBeginning(s)
  {
  }

  lemma BeginsNoMore(t: Text, i: nat)
    requires i < |t|
    ensures var m := Fitting(t, i, 0); i + m < |t| && !(m > 0 && m == Span(t[i])) ==> !IsBeginning(t[i..i + m + 1])
  {
    hide IsUtf8Char, Span, MayFollow, Fits;
    var m := Fitting(t, i, 0);
    if i + m < |t| && !(m > 0 && m == Span(t[i])) {
      var s := t[i..i + m + 1];
      forall q: seq<Byte>
        ensures !IsUtf8Char(s + q)
      {
        GoesNotOn(t, i, m, q);
      }
    }
  }

  lemma GoesNotOn(t: Text, i: nat, m: nat, q: seq<Byte>)
    requires i + m < |t| && m <= Span(t[i]) && (m == Span(t[i]) ==> m == 0) && (m < Span(t[i]) ==> !Fits(t, i, m))
    ensures !IsUtf8Char(t[i..i + m + 1] + q)
  {
    hide MayFollow, Span;
    var u := t[i..i + m + 1] + q;
    assert u[0] == t[i] && u[m] == t[i + m];
  }

  /** Malformed bytes from i to j: no character stands at i, and the bytes before the last are
    * the beginning of one which the last does not go on; or the string ends first. */
  ghost predicate IsMalformed(t: Text, i: nat, j: nat) {
    && i < j <= |t| && (forall n :: !IsCharAt(t, i, n))
    && if IsBeginning(t[i..j]) then j == |t| else IsBeginning(t[i..j - 1])
  }

  /** When no character stands at i, the reader stops behind the malformed bytes there. */
  lemma NextRejects(t: Text, i: nat)
    requires i < |t|
    ensures Next(t, i).0 == -1 ==> IsMalformed(t, i, Next(t, i).1)
  {
    hide Span, MayFollow, IsUtf8Char, Value, IsBeginning;
    var (c, j) := Next(t, i);
    if c == -1 {
      forall n
        ensures !IsCharAt(t, i, n)
      {
        NextAccepts(t, i, n);
        if IsCharAt(t, i, n) { CharIsScalar(t, i, n); }
      }
      FittingIsChar(t, i);
      assert !IsCharAt(t, i, Fitting(t, i, 0));
      FittingBegins(t, i);
      BeginsNoMore(t, i);
    }
  }

  lemma CharIsScalar(t: Text, i: nat, n: nat)
    requires IsCharAt(t, i, n)
    ensures IsScalar(Value(t[i..i + n]))
  {
    EncodedValue(t[i..i + n]);
  }

  /** The malformed bytes at a place are no others. */
  lemma MalformedOnce(t: Text, i: nat, j: nat, k: nat)
    requires IsMalformed(t, i, j) && IsMalformed(t, i, k)
    ensures j == k
  {
    hide IsUtf8Char, IsCharAt;
    ShorterBegins(t, i, j, k);
    ShorterBegins(t, i, k, j);
  }

  lemma ShorterBegins(t: Text, i: nat, j: nat, k: nat)
    requires i < j < k <= |t| ==> IsBeginning(t[i..k - 1]) || IsBeginning(t[i..k])
    ensures i < j < k <= |t| ==> IsBeginning(t[i..j])
  {
    hide IsUtf8Char;
    if i < j < k <= |t| {
      var l := if IsBeginning(t[i..k]) then k else k - 1;
      var q: seq<Byte> :| IsUtf8Char(t[i..l] + q);
      assert t[i..j] + (t[j..l] + q) == t[i..l] + q;
    }
  }

  lemma NothingAtEnd(t: Text, n: nat)
    ensures !IsCharAt(t, |t|, n)
  {
  }

  lemma FirstIsNotZero(s: seq<Byte>)
    requires IsUtf8Char(s) && s[0] != 0
    ensures Value(s) != 0 && Value(s) != -1
  {
    EncodedValue(s);
    assert Encode(0) == [0];
  }

  lemma CharFits(t: Text, i: nat, n: nat)
    requires i < |t| && IsCharAt(t, i, n)
    ensures n == Span(t[i]) && n > 0 && forall k | 0 <= k < n :: Fits(t, i, k)
  {
    var s := t[i..i + n];
    forall k | 0 <= k < n
      ensures Fits(t, i, k)
    {
      assert s[k] == t[i + k];
      if k > 0 { assert MayFollow(s[0], k, s[k]); }
    }
  }

  /** What a branch of the reader has found: it has come past the bytes that fit, and when
    * they are a whole character it has its value. */
  ghost predicate Found(t: Text, i: nat, c: int, s: nat, whole: bool)
    requires i < |t|
  {
    && i <= s <= |t| && s - i == Fitting(t, i, 0) && (whole <==> s - i == Span(t[i]) && s > i)
    && (whole ==> IsUtf8Char(t[i..s]) && c == Value(t[i..s]))
  }

  lemma IsFound(t: Text, i: nat, c: int, s: nat, whole: bool)
    requires i < |t| && i <= s <= |t| && s - i <= Span(t[i]) && (forall n | 0 <= n < s - i :: Fits(t, i, n))
    requires whole <==> s - i == Span(t[i]) && s > i
    requires whole || s - i == Span(t[i]) || s == |t| || !Fits(t, i, s - i)
    requires whole && IsUtf8Char(t[i..s]) ==> c == Value(t[i..s])
    ensures Found(t, i, c, s, whole)
  {
    hide Span, Value, Fits, IsUtf8Char, Fitting;
    FittingIs(t, i, 0, s - i);
    FittingIsChar(t, i);
  }

  /** A mask of low bits. */
  function LowBits(b: Byte, size: nat): int
    requires size > 0
  {
    b % size
  }

  /** The branch for first bytes C2 to DF. */
  method TwoBytes(t: Text, i: nat) returns (c: int, s: nat, whole: bool)
    requires i < |t| && 0xC2 <= t[i] < 0xE0
    ensures Found(t, i, c, s, whole)
  {
    c := LowBits(t[i], 0x20) * 0x40;
    s := i + 1;
    whole := 0x80 <= At(t, s) <= 0xBF;
    if whole {
      c := c + LowBits(At(t, s), 0x40);
      s := s + 1;
      assert t[i..s] == [t[i], t[i + 1]];
      Two(t[i] - 0xC0, t[i + 1]);
    }
    IsFound(t, i, c, s, whole);
  }

  /** The branch for first bytes E0 to EF. */
  method ThreeBytes(t: Text, i: nat) returns (c: int, s: nat, whole: bool)
    requires i < |t| && 0xE0 <= t[i] < 0xF0
    ensures Found(t, i, c, s, whole)
  {
    hide Value, Bits;
    var b0 := t[i];
    c := LowBits(b0, 0x10) * 0x1000;
    s := i + 1;
    var b := At(t, s);
    whole := !((b0 == 0xE0 && (b < 0xA0 || b > 0xBF))
               || (b0 < 0xED && (b < 0x80 || b > 0xBF))
               || (b0 == 0xED && (b < 0x80 || b > 0x9F))
               || (b0 > 0xED && (b < 0x80 || b > 0xBF)));
    if whole {
      c := c + LowBits(b, 0x40) * 0x40;
      s := s + 1;
      whole := 0x80 <= At(t, s) <= 0xBF;
      if whole {
        c := c + LowBits(At(t, s), 0x40);
        s := s + 1;
        ThreeValue(t[i..s]);
      }
    }
    IsFound(t, i, c, s, whole);
  }

  /** The branch for first bytes F0 to F4. */
  method FourBytes(t: Text, i: nat) returns (c: int, s: nat, whole: bool)
    requires i < |t| && 0xF0 <= t[i] < 0xF5
    ensures Found(t, i, c, s, whole)
  {
    hide Value, Bits;
    var b0 := t[i];
    c := LowBits(b0, 8) * 0x40000;
    s := i + 1;
    var b := At(t, s);
    whole := !((b0 == 0xF0 && (b < 0x90 || b > 0xBF))
               || (b0 < 0xF4 && (b < 0x80 || b > 0xBF))
               || (b0 >= 0xF4 && (b < 0x80 || b > 0x8F)));
    if whole {
      c := c + LowBits(b, 0x40) * 0x1000;
      s := s + 1;
      whole := 0x80 <= At(t, s) <= 0xBF;
      if whole {
        c := c + LowBits(At(t, s), 0x40) * 0x40;
        s := s + 1;
        whole := 0x80 <= At(t, s) <= 0xBF;
        if whole {
          c := c + LowBits(At(t, s), 0x40);
          s := s + 1;
          FourValue(t[i..s]);
        }
      }
    }
    IsFound(t, i, c, s, whole);
  }

  lemma ThreeValue(s: seq<Byte>)
    requires |s| == 3 && 0xE0 <= s[0] < 0xF0 && 0x80 <= s[1] <= 0xBF && 0x80 <= s[2] <= 0xBF
    ensures IsUtf8Char(s) ==>
      Value(s) == LowBits(s[0], 0x10) * 0x1000 + LowBits(s[1], 0x40) * 0x40 + LowBits(s[2], 0x40)
  {
    Three(s[0] - 0xE0, s[1], s[2]);
  }

  lemma FourValue(s: seq<Byte>)
    requires |s| == 4 && 0xF0 <= s[0] < 0xF5 && 0x80 <= s[1] <= 0xBF && 0x80 <= s[2] <= 0xBF && 0x80 <= s[3] <= 0xBF
    ensures IsUtf8Char(s) ==>
      Value(s) == LowBits(s[0], 8) * 0x40000 + LowBits(s[1], 0x40) * 0x1000 + LowBits(s[2], 0x40) * 0x40 + LowBits(s[3], 0x40)
  {
    Four(s[0] - 0xF0, s[1], s[2], s[3]);
  }

  /** genxNextUnicodeChar: the place is moved past what was read. */
  method NextUnicodeChar(t: Text, i: nat) returns (c: int, s: nat)
    requires i <= |t|
    ensures (c, s) == Next(t, i)
  {
    if At(t, i) == 0 { return -1, i; }
    var first := At(t, i);
    var whole := false;
    c, s := -1, i;
    if first < 0x80 {
      c, s, whole := first, i + 1, true;
      assert t[i..s] == [first];
      IsFound(t, i, c, s, whole);
    } else if first < 0xC2 {
      IsFound(t, i, c, s, whole);
    } else if first < 0xE0 {
      c, s, whole := TwoBytes(t, i);
    } else if first < 0xF0 {
      c, s, whole := ThreeBytes(t, i);
    } else if first < 0xF5 {
      c, s, whole := FourBytes(t, i);
    } else {
      IsFound(t, i, c, s, whole);
    }
    if !whole {
      c := -1;
      if At(t, s) != 0 { s := s + 1; }
    }
  }

  // ----- checking and scrubbing

  datatype Status = Success | BadUtf8 | NonXmlCharacter

  /** isXMLChar, over the table of the writer. */
  predicate IsXmlChar(table: int -> bool, c: int) {
    if c < 0 then false else if c < 0x10000 then table(c) else c <= 0x10FFFF
  }

  /** The characters a scrub keeps. */
  function Good(table: int -> bool, t: Text, i: nat): seq<int>
    requires i <= |t|
    decreases |t| - i
  {
    if i == |t| then []
    else
      var (c, j) := Next(t, i);
      (if c != -1 && IsXmlChar(table, c) then [c] else []) + Good(table, t, j)
  }

  function Scrubbed(table: int -> bool, t: Text, i: nat): seq<Byte>
    requires i <= |t|
    decreases |t| - i
  {
    if i == |t| then []
    else
      var (c, j) := Next(t, i);
      (if c != -1 && IsXmlChar(table, c) then t[i..j] else []) + Scrubbed(table, t, j)
  }

  function Problems(table: int -> bool, t: Text, i: nat): nat
    requires i <= |t|
    decreases |t| - i
  {
    if i == |t| then 0
    else
      var (c, j) := Next(t, i);
      (if c != -1 && IsXmlChar(table, c) then 0 else 1) + Problems(table, t, j)
  }

  /** The first problem decides. */
  function Checked(table: int -> bool, t: Text, i: nat): Status
    requires i <= |t|
    decreases |t| - i
  {
    if i == |t| then Success
    else
      var (c, j) := Next(t, i);
      if c == -1 then BadUtf8 else if !IsXmlChar(table, c) then NonXmlCharacter else Checked(table, t, j)
  }

  lemma ScrubStep(table: int -> bool, t: Text, i: nat, done: seq<Byte>)
    requires i < |t|
    ensures var (c, j) := Next(t, i);
      if c != -1 && IsXmlChar(table, c) then
        && done + Scrubbed(table, t, i) == done + t[i..j] + Scrubbed(table, t, j)
        && Problems(table, t, i) == Problems(table, t, j)
      else
        && done + Scrubbed(table, t, i) == done + Scrubbed(table, t, j)
        && Problems(table, t, i) == Problems(table, t, j) + 1
  {
    hide Next;
    var (c, j) := Next(t, i);
    if c != -1 && IsXmlChar(table, c) {
      assert done + (t[i..j] + Scrubbed(table, t, j)) == done + t[i..j] + Scrubbed(table, t, j);
    } else {
      assert [] + Scrubbed(table, t, j) == Scrubbed(table, t, j);
    }
  }

  lemma NothingLeft(table: int -> bool, t: Text, done: seq<Byte>)
    ensures done + Scrubbed(table, t, |t|) == done && Problems(table, t, |t|) == 0
  {
  }

  /** What a text of these characters is written as. */
  function EncodeAll(cs: seq<int>): seq<Byte>
    requires AllScalars(cs)
  {
    if cs == [] then [] else Encode(cs[0]) + EncodeAll(cs[1..])
  }

  predicate AllScalars(cs: seq<int>) {
    forall k | 0 <= k < |cs| :: IsScalar(cs[k]) && cs[k] != 0
  }

  predicate AllXml(table: int -> bool, cs: seq<int>) {
    forall k | 0 <= k < |cs| :: IsXmlChar(table, cs[k])
  }

  /** A scrub writes the encoding of the characters it keeps. */
  lemma {:induction false} ScrubbedIsEncoded(table: int -> bool, t: Text, i: nat)
    requires i <= |t|
    ensures var cs := Good(table, t, i); AllScalars(cs) && AllXml(table, cs) && Scrubbed(table, t, i) == EncodeAll(cs)
    decreases |t| - i
  {
    hide Next, Encode, IsScalar, IsXmlChar;
    if i < |t| {
      var (c, j) := Next(t, i);
      ScrubbedIsEncoded(table, t, j);
      if c != -1 && IsXmlChar(table, c) {
        NextAccepts(t, i, 0);
        assert Good(table, t, i)[1..] == Good(table, t, j);
      } else {
        assert Good(table, t, i) == Good(table, t, j) && Scrubbed(table, t, i) == Scrubbed(table, t, j);
      }
    }
  }

  lemma ReadsFirst(t: Text, i: nat, c: int, tail: seq<Byte>)
    requires i <= |t| && IsScalar(c) && t[i..] == Encode(c) + tail
    ensures var j := i + |Encode(c)|; i < j <= |t| && Next(t, i) == (c, j) && t[j..] == tail && c != -1
  {
    hide Next, Encode, IsUtf8Char, Value;
    var e := Encode(c);
    ValueOfEncoded(c);
    CharNotEmpty(e);
    assert t[i..][..|e|] == e && t[i..][|e|..] == tail;
    assert t[i..i + |e|] == e && t[i + |e|..] == tail;
    NextAccepts(t, i, |e|);
  }

  lemma CharNotEmpty(e: seq<Byte>)
    requires IsUtf8Char(e)
    ensures e != []
  {
  }

  /** A text of XML characters reads as those characters. */
  lemma {:induction false} EncodedReads(table: int -> bool, t: Text, i: nat, cs: seq<int>)
    requires i <= |t| && AllScalars(cs) && AllXml(table, cs) && t[i..] == EncodeAll(cs)
    ensures Good(table, t, i) == cs && Problems(table, t, i) == 0 && Checked(table, t, i) == Success
    decreases |cs|
  {
    hide Next, Encode, IsXmlChar, IsScalar;
    if cs != [] {
      ReadsFirst(t, i, cs[0], EncodeAll(cs[1..]));
      EncodedReads(table, t, i + |Encode(cs[0])|, cs[1..]);
      assert [cs[0]] + cs[1..] == cs;
    }
  }

  /** Each problem costs the scrub at least one byte; without one nothing is lost. */
  lemma {:induction false} ScrubLoses(table: int -> bool, t: Text, i: nat)
    requires i <= |t|
    ensures |Scrubbed(table, t, i)| + Problems(table, t, i) <= |t| - i
    ensures Problems(table, t, i) == 0 <==> Checked(table, t, i) == Success
    ensures Problems(table, t, i) == 0 ==> Scrubbed(table, t, i) == t[i..]
    decreases |t| - i
  {
    hide Next, IsXmlChar;
    if i < |t| {
      var j := Next(t, i).1;
      ScrubLoses(table, t, j);
      assert t[i..] == t[i..j] + t[j..];
    }
  }

  lemma {:induction false} NoZeroWritten(cs: seq<int>)
    requires AllScalars(cs)
    ensures forall k | 0 <= k < |EncodeAll(cs)| :: EncodeAll(cs)[k] != 0
  {
    if cs != [] {
      NoZeroWritten(cs[1..]);
    }
  }

  /** For every string a scrub gives a string no longer, which passes the check and which a
    * second scrub leaves as it is; and a scrub changes a string exactly when the check
    * rejects it, which is when it counts a problem. */
  lemma ScrubTheorem(table: int -> bool, t: Text)
    ensures var u := Scrubbed(table, t, 0);
      && |u| <= |t| && (forall k | 0 <= k < |u| :: u[k] != 0)
      && Checked(table, u, 0) == Success && Scrubbed(table, u, 0) == u && Problems(table, u, 0) == 0
    ensures Scrubbed(table, t, 0) == t <==> Checked(table, t, 0) == Success
    ensures Problems(table, t, 0) == 0 <==> Checked(table, t, 0) == Success
  {
    hide *;
    ScrubbedIsEncoded(table, t, 0);
    var cs := Good(table, t, 0);
    NoZeroWritten(cs);
    var u: Text := Scrubbed(table, t, 0);
    assert u[0..] == u && t[0..] == t;
    EncodedReads(table, u, 0, cs);
    ScrubLoses(table, u, 0);
    ScrubLoses(table, t, 0);
  }

  // ----- what the check and the scrub mean, without the reader

  /** The characters from 0x10000 on, and those of the table. */
  predicate Allowed(table: int -> bool, c: int) {
    c >= 0x10000 || table(c)
  }

  predicate AllAllowed(table: int -> bool, cs: seq<int>) {
    forall k | 0 <= k < |cs| :: Allowed(table, cs[k])
  }

  /** Some character stands at the beginning. */
  ghost predicate StartsWell(s: seq<Byte>) {
    exists n | 0 <= n <= |s| :: IsUtf8Char(s[..n])
  }

  /** A character that is not allowed stands at the beginning. */
  ghost predicate StartsWithout(table: int -> bool, s: seq<Byte>) {
    exists n | 0 <= n <= |s| :: IsUtf8Char(s[..n]) && !Allowed(table, Value(s[..n]))
  }

  lemma XmlIsAllowed(table: int -> bool, c: int)
    requires IsScalar(c)
    ensures IsXmlChar(table, c) <==> Allowed(table, c)
  {
  }

  lemma CharFirst(t: Text, i: nat, n: nat)
    requires i + n <= |t|
    ensures t[i..][..n] == t[i..i + n]
  {
  }

  /** What stands at place i decides the next step of the check. */
  lemma CheckStep(table: int -> bool, t: Text, i: nat)
    requires i < |t|
    ensures !StartsWell(t[i..]) ==> Checked(table, t, i) == BadUtf8
    ensures StartsWithout(table, t[i..]) ==> Checked(table, t, i) == NonXmlCharacter
    ensures var (c, j) := Next(t, i);
      if c == -1 then !StartsWell(t[i..])
      else if Allowed(table, c) then Checked(table, t, i) == Checked(table, t, j)
      else StartsWithout(table, t[i..])
  {
    hide Next, IsUtf8Char, Value, IsXmlChar, Allowed, Encode;
    var (c, j) := Next(t, i);
    forall n | 0 <= n <= |t| - i && IsUtf8Char(t[i..][..n])
      ensures c == Value(t[i..][..n]) && j == i + n && IsScalar(c)
    {
      CharFirst(t, i, n);
      NextAccepts(t, i, n);
      EncodedValue(t[i..i + n]);
    }
    if c != -1 {
      NextAccepts(t, i, 0);
      CharFirst(t, i, j - i);
      NextAccepts(t, i, j - i);
      XmlIsAllowed(table, c);
      assert IsUtf8Char(t[i..][..j - i]);
    }
  }

  /** Behind a beginning of allowed characters, what stands next decides the check. */
  lemma {:induction false} CheckedAfter(table: int -> bool, t: Text, i: nat, cs: seq<int>, rest: seq<Byte>)
    requires i <= |t| && AllScalars(cs) && AllAllowed(table, cs) && t[i..] == EncodeAll(cs) + rest
    ensures rest == [] ==> Checked(table, t, i) == Success
    ensures rest != [] && !StartsWell(rest) ==> Checked(table, t, i) == BadUtf8
    ensures StartsWithout(table, rest) ==> Checked(table, t, i) == NonXmlCharacter
    decreases |cs|
  {
    hide Next, Encode, IsUtf8Char, StartsWell, StartsWithout, Value, Allowed, Checked, IsScalar;
    if cs == [] {
      assert t[i..] == rest;
      if i < |t| {
        CheckStep(table, t, i);
      } else {
        NoneInNothing(table, t);
      }
    } else {
      var tail := EncodeAll(cs[1..]) + rest;
      assert EncodeAll(cs) + rest == Encode(cs[0]) + tail;
      ReadsFirst(t, i, cs[0], tail);
      CheckStep(table, t, i);
      CheckedAfter(table, t, i + |Encode(cs[0])|, cs[1..], rest);
    }
  }

  lemma NoneInNothing(table: int -> bool, t: Text)
    ensures !StartsWithout(table, []) && Checked(table, t, |t|) == Success
  {
  }

  /** Every string is a text of allowed characters, or goes on after one with something that is
    * no character, or with a character that is not allowed. */
  lemma {:induction false} LongestGood(table: int -> bool, t: Text, i: nat) returns (cs: seq<int>, rest: seq<Byte>)
    requires i <= |t|
    ensures AllScalars(cs) && AllAllowed(table, cs) && t[i..] == EncodeAll(cs) + rest
    ensures rest == [] || !StartsWell(rest) || StartsWithout(table, rest)
    decreases |t| - i
  {
    hide Next, Encode, IsUtf8Char, StartsWell, StartsWithout, Value, Allowed;
    cs, rest := [], t[i..];
    if i < |t| {
      CheckStep(table, t, i);
      var (c, j) := Next(t, i);
      if c != -1 && Allowed(table, c) {
        NextAccepts(t, i, 0);
        var cs', rest' := LongestGood(table, t, j);
        assert ([c] + cs')[1..] == cs';
        assert t[i..] == t[i..j] + t[j..] == Encode(c) + EncodeAll(cs') + rest';
        cs, rest := [c] + cs', rest';
      }
    }
  }

  /** The check accepts exactly the texts of allowed characters. It finds bad UTF-8 exactly
    * when, behind a beginning of allowed characters, something stands that is no character,
    * and a non-XML character exactly when a character stands there that is not allowed. */
  lemma CheckMeaning(table: int -> bool, t: Text)
    ensures Checked(table, t, 0) == Success <==>
      exists cs :: AllScalars(cs) && AllAllowed(table, cs) && t == EncodeAll(cs)
    ensures Checked(table, t, 0) == BadUtf8 <==>
      exists cs, rest :: IsSplit(table, t, cs, rest) && rest != [] && !StartsWell(rest)
    ensures Checked(table, t, 0) == NonXmlCharacter <==>
      exists cs, rest :: IsSplit(table, t, cs, rest) && StartsWithout(table, rest)
  {
    hide Checked, EncodeAll, StartsWell, StartsWithout, AllScalars, AllAllowed;
    var cs, rest := LongestGood(table, t, 0);
    assert t[0..] == t;
    assert IsSplit(table, t, cs, rest);
    CheckedAfter(table, t, 0, cs, rest);
    assert rest == [] ==> EncodeAll(cs) + rest == EncodeAll(cs);
    forall ds, rest' | IsSplit(table, t, ds, rest')
      ensures rest' != [] && !StartsWell(rest') ==> Checked(table, t, 0) == BadUtf8
      ensures StartsWithout(table, rest') ==> Checked(table, t, 0) == NonXmlCharacter
    {
      CheckedAfter(table, t, 0, ds, rest');
    }
    forall ds | AllScalars(ds) && AllAllowed(table, ds) && t == EncodeAll(ds)
      ensures Checked(table, t, 0) == Success
    {
      assert EncodeAll(ds) + [] == t;
      CheckedAfter(table, t, 0, ds, []);
    }
  }

  /** t begins with these allowed characters, and goes on with the rest. */
  ghost predicate IsSplit(table: int -> bool, t: seq<Byte>, cs: seq<int>, rest: seq<Byte>) {
    AllScalars(cs) && AllAllowed(table, cs) && t == EncodeAll(cs) + rest
  }

  /** genxCheckText */
  method CheckText(table: int -> bool, t: Text) returns (status: Status)
    ensures status == Checked(table, t, 0)
    ensures status == Success <==> exists cs :: AllScalars(cs) && AllAllowed(table, cs) && t == EncodeAll(cs)
    ensures status == BadUtf8 <==> exists cs, rest :: IsSplit(table, t, cs, rest) && rest != [] && !StartsWell(rest)
    ensures status == NonXmlCharacter <==> exists cs, rest :: IsSplit(table, t, cs, rest) && StartsWithout(table, rest)
  {
    hide Next, AllScalars, AllAllowed, EncodeAll, IsSplit, StartsWell, StartsWithout;
    CheckMeaning(table, t);
    var s := 0;
    while At(t, s) != 0
      invariant s <= |t| && Checked(table, t, s) == Checked(table, t, 0)
      decreases |t| - s
    {
      var c;
      c, s := NextUnicodeChar(t, s);
      if c == -1 { return BadUtf8; }
      if !IsXmlChar(table, c) { return NonXmlCharacter; }
    }
    status := Success;
  }

  /** What a string is made of: characters, and malformed bytes between them. */
  datatype Piece = Character(c: int) | Malformed(bytes: seq<Byte>)

  /** From i on the string is made of these pieces. */
  ghost predicate MadeOf(t: Text, i: nat, ps: seq<Piece>)
    requires i <= |t|
    decreases |ps|
  {
    if ps == [] then i == |t|
    else
      match ps[0]
      case Character(c) =>
        && IsScalar(c) && c != 0
        && Encode(c) <= t[i..] && MadeOf(t, i + |Encode(c)|, ps[1..])
      case Malformed(bytes) =>
        bytes <= t[i..] && IsMalformed(t, i, i + |bytes|) && MadeOf(t, i + |bytes|, ps[1..])
  }

  /** The allowed characters of these pieces. */
  function Kept(table: int -> bool, ps: seq<Piece>): (cs: seq<int>)
    ensures |cs| <= |ps|
  {
    if ps == [] then []
    else (if ps[0].Character? && Allowed(table, ps[0].c) then [ps[0].c] else []) + Kept(table, ps[1..])
  }

  /** The reader goes from piece to piece. */
  lemma NextPiece(t: Text, i: nat, ps: seq<Piece>)
    requires i <= |t| && ps != [] && MadeOf(t, i, ps)
    ensures var n := if ps[0].Character? then |Encode(ps[0].c)| else |ps[0].bytes|;
      && 0 < n <= |t| - i && MadeOf(t, i + n, ps[1..])
      && Next(t, i) == (if ps[0].Character? then ps[0].c else -1, i + n)
      && (ps[0].Character? ==> Next(t, i).0 != -1)
  {
    hide Encode, IsUtf8Char, Value, IsMalformed, Next;
    match ps[0]
    case Character(c) =>
      ValueOfEncoded(c);
      CharNotEmpty(Encode(c));
      assert t[i..i + |Encode(c)|] == t[i..][..|Encode(c)|] == Encode(c);
      NextAccepts(t, i, |Encode(c)|);
    case Malformed(bytes) =>
      BadPiece(t, i, i + |bytes|);
      assert 0 < |bytes|;
  }

  lemma BadPiece(t: Text, i: nat, j: nat)
    requires IsMalformed(t, i, j)
    ensures i < j <= |t| && Next(t, i) == (-1, j)
  {
    hide IsCharAt, Next, Encode, IsBeginning;
    NextAccepts(t, i, 0);
    NextRejects(t, i);
    MalformedOnce(t, i, j, Next(t, i).1);
  }

  /** Every string is made of pieces, in only one way. */
  lemma {:induction false} Pieces(t: Text, i: nat) returns (ps: seq<Piece>)
    requires i <= |t|
    ensures MadeOf(t, i, ps)
    decreases |t| - i
  {
    hide Encode, IsMalformed, Next;
    ps := [];
    if i < |t| {
      var (c, j) := Next(t, i);
      var rest := Pieces(t, j);
      NextAccepts(t, i, 0);
      NextRejects(t, i);
      ps := [if c == -1 then Malformed(t[i..j]) else Character(c)] + rest;
      assert ps[1..] == rest && t[i..j] == t[i..][..j - i];
    }
  }

  /** A scrub keeps the allowed characters, and counts every other character and every run of
    * malformed bytes as a problem. */
  lemma {:induction false} ScrubMeaning(table: int -> bool, t: Text, i: nat, ps: seq<Piece>)
    requires i <= |t| && MadeOf(t, i, ps)
    ensures var cs := Kept(table, ps);
      && AllScalars(cs) && Scrubbed(table, t, i) == EncodeAll(cs) && Problems(table, t, i) == |ps| - |cs|
    decreases |ps|
  {
    hide Encode, EncodeAll, Next, IsMalformed, IsXmlChar, Allowed, IsScalar, Kept, Scrubbed, Problems, MadeOf;
    KeptStep(table, ps);
    if ps == [] {
      NoPieces(t, i);
      NothingLeft(table, t, []);
    } else {
      NextPiece(t, i, ps);
      var (c, j) := Next(t, i);
      ScrubStep(table, t, i, []);
      ScrubMeaning(table, t, j, ps[1..]);
      NextAccepts(t, i, 0);
      assert [] + Scrubbed(table, t, i) == Scrubbed(table, t, i) && [] + Scrubbed(table, t, j) == Scrubbed(table, t, j);
      if c != -1 {
        XmlIsAllowed(table, c);
        EncodedOnce(c, Kept(table, ps[1..]));
        assert [] + t[i..j] == Encode(c);
      }
    }
  }

  lemma KeptStep(table: int -> bool, ps: seq<Piece>)
    ensures Kept(table, ps) ==
      if ps == [] then []
      else if ps[0].Character? && Allowed(table, ps[0].c) then [ps[0].c] + Kept(table, ps[1..])
      else Kept(table, ps[1..])
  {
  }

  lemma NoPieces(t: Text, i: nat)
    requires i <= |t|
    ensures MadeOf(t, i, []) <==> i == |t|
    ensures EncodeAll([]) == []
  {
  }

  lemma EncodedOnce(c: int, cs: seq<int>)
    requires IsScalar(c) && c != 0 && AllScalars(cs)
    ensures AllScalars([c] + cs) && EncodeAll([c] + cs) == Encode(c) + EncodeAll(cs)
  {
    hide Encode;
    assert ([c] + cs)[1..] == cs;
  }

  /** Copies t[first..end] to the output. */
  method CopyRun(t: Text, first: nat, end: nat, out: array<Byte>, o: nat) returns (last: nat, o': nat)
    requires first <= end <= |t| && o + end - first <= out.Length
    modifies out
    ensures last == end && o' == o + end - first && out[..o'] == old(out[..o]) + t[first..end]
  {
    last, o' := first, o;
    while last < end
      invariant first <= last <= end && o' == o + last - first
      invariant out[..o'] == old(out[..o]) + t[first..last]
    {
      out[o'] := t[last];
      o', last := o' + 1, last + 1;
    }
  }

  /** genxScrubText: an output buffer as long as the input is enough. */
  method ScrubText(table: int -> bool, t: Text, out: array<Byte>) returns (problems: nat, ghost n: nat)
    requires out.Length > |t|
    modifies out
    ensures problems == Problems(table, t, 0)
    ensures n <= |t| && out[..n] == Scrubbed(table, t, 0) && out[n] == 0
    ensures forall ps | MadeOf(t, 0, ps) ::
      var cs := Kept(table, ps);
      AllScalars(cs) && out[..n] == EncodeAll(cs) && problems == |ps| - |cs|
  {
    hide Next, Scrubbed, Problems, IsXmlChar, MadeOf, Kept, AllScalars, EncodeAll;
    forall ps | MadeOf(t, 0, ps) { ScrubMeaning(table, t, 0, ps); }
    problems := 0;
    var in', last, o: nat := 0, 0, 0;
    assert out[..o] + Scrubbed(table, t, in') == Scrubbed(table, t, 0);
    while At(t, in') != 0
      invariant o <= in' == last <= |t|
      invariant out[..o] + Scrubbed(table, t, in') == Scrubbed(table, t, 0)
      invariant problems + Problems(table, t, in') == Problems(table, t, 0)
      decreases |t| - in'
    {
      ScrubStep(table, t, in', out[..o]);
      var c;
      c, in' := NextUnicodeChar(t, in');
      if c == -1 || !IsXmlChar(table, c) {
        problems := problems + 1;
        last := in';
        continue;
      }
      last, o := CopyRun(t, last, in', out, o);
    }
    NothingLeft(table, t, out[..o]);
    n := o;
    out[o] := 0;
  }
}
