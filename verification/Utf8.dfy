/** The Unicode helpers of src/util/json.c. Bit masks and shifts are written as the divisions and
    remainders they are on unsigned values. */
module Utf8 {
  import opened Bytes

  predicate Scalar(u: int) {
    0 <= u <= 0x10FFFF && !(0xD800 <= u <= 0xDFFF)
  }

  predicate Tail(b: byte) {
    0x80 <= b <= 0xBF
  }

  /** `utf8_validate_cz`: the length of the character that starts at `i`, or 0. */
  function ValidateCz(s: bytes, i: nat): nat
    requires i <= |s|
  {
    var c := At(s, i);
    if c <= 0x7F then 1
    else if c <= 0xC1 then 0
    else if c <= 0xDF then
      if !Tail(At(s, i + 1)) then 0 else 2
    else if c <= 0xEF then
      if c == 0xE0 && At(s, i + 1) < 0xA0 then 0
      else if c == 0xED && At(s, i + 1) > 0x9F then 0
      else if !Tail(At(s, i + 1)) then 0
      else if !Tail(At(s, i + 2)) then 0
      else 3
    else if c <= 0xF4 then
      if c == 0xF0 && At(s, i + 1) < 0x90 then 0
      else if c == 0xF4 && At(s, i + 1) > 0x8F then 0
      else if !Tail(At(s, i + 1)) then 0
      else if !Tail(At(s, i + 2)) then 0
      else if !Tail(At(s, i + 3)) then 0
      else 4
    else 0
  }

  /** One UTF8-char of the syntax in section 4 of RFC 3629. */
  predicate Utf8Char(ch: bytes) {
    if |ch| == 1 then
      ch[0] <= 0x7F
    else if |ch| == 2 then
      0xC2 <= ch[0] <= 0xDF && Tail(ch[1])
    else if |ch| == 3 then
      && Tail(ch[2])
      && (|| (ch[0] == 0xE0 && 0xA0 <= ch[1] <= 0xBF)
          || (0xE1 <= ch[0] <= 0xEC && Tail(ch[1]))
          || (ch[0] == 0xED && 0x80 <= ch[1] <= 0x9F)
          || (0xEE <= ch[0] <= 0xEF && Tail(ch[1])))
    else
      && |ch| == 4 && Tail(ch[2]) && Tail(ch[3])
      && (|| (ch[0] == 0xF0 && 0x90 <= ch[1] <= 0xBF)
          || (0xF1 <= ch[0] <= 0xF3 && Tail(ch[1]))
          || (ch[0] == 0xF4 && 0x80 <= ch[1] <= 0x8F))
  }

  /** `utf8_validate`: what it accepts, as a text without its terminator. */
  predicate Text(s: bytes) {
    s == [] ||
    (s[0] != 0 && ValidateCz(s, 0) > 0 && (ValidateStaysInside(s, 0); Text(s[ValidateCz(s, 0)..])))
  }

  /** `utf8_read_char`: the length of the character at `i` and its code point. */
  function ReadChar(s: bytes, i: nat): (nat, nat)
    requires i <= |s| && ValidateCz(s, i) > 0
  {
    var c := At(s, i);
    if c <= 0x7F then
      (1, c)
    else if c <= 0xDF then
      (2, c % 0x20 * 0x40 + At(s, i + 1) % 0x40)
    else if c <= 0xEF then
      (3, c % 0x10 * 0x1000 + At(s, i + 1) % 0x40 * 0x40 + At(s, i + 2) % 0x40)
    else
      (4, c % 8 * 0x40000 + At(s, i + 1) % 0x40 * 0x1000 + At(s, i + 2) % 0x40 * 0x40 + At(s, i + 3) % 0x40)
  }

  /** `utf8_write_char`: the bytes stored for a scalar value. */
  function WriteChar(u: nat): bytes
    requires Scalar(u)
  {
    if u <= 0x7F then
      [u]
    else if u <= 0x7FF then
      [0xC0 + u / 0x40, 0x80 + u % 0x40]
    else if u <= 0xFFFF then
      [0xE0 + u / 0x1000, 0x80 + u / 0x40 % 0x40, 0x80 + u % 0x40]
    else
      [0xF0 + u / 0x40000, 0x80 + u / 0x1000 % 0x40, 0x80 + u / 0x40 % 0x40, 0x80 + u % 0x40]
  }

  predicate HighSurrogate(w: nat) { 0xD800 <= w <= 0xDBFF }

  predicate LowSurrogate(w: nat) { 0xDC00 <= w <= 0xDFFF }

  /** `from_surrogate_pair`. */
  function FromSurrogatePair(uc: nat, lc: nat): Option<nat> {
    if uc >= 0xD800 && uc <= 0xDBFF && lc >= 0xDC00 && lc <= 0xDFFF then
      Some(0x10000 + uc % 0x400 * 0x400 + lc % 0x400)
    else
      None
  }

  /** `to_surrogate_pair`. */
  function ToSurrogatePair(u: nat): (nat, nat)
    requires 0x10000 <= u <= 0x10FFFF
  {
    var n := u - 0x10000;
    (n / 0x400 % 0x400 + 0xD800, n % 0x400 + 0xDC00)
  }

  /** The validator accepts exactly the characters of RFC 3629. */
  lemma ValidateIsRfc3629(s: bytes, i: nat, n: nat)
    requires 1 <= n <= 4 && i + n <= |s|
    ensures ValidateCz(s, i) == n <==> Utf8Char(s[i..i + n])
  {
    var ch := s[i..i + n];
    assert ch[0] == s[i];
    assert n >= 2 ==> ch[1] == s[i + 1];
    assert n >= 3 ==> ch[2] == s[i + 2];
    assert n >= 4 ==> ch[3] == s[i + 3];
  }

  /** A character that is cut off by the end of the string is never accepted. */
  lemma ValidateStaysInside(s: bytes, i: nat)
    requires i < |s|
    ensures i + ValidateCz(s, i) <= |s| && ValidateCz(s, i) <= 4
  {
  }

  lemma ReadLength(s: bytes, i: nat)
    requires i <= |s| && ValidateCz(s, i) > 0
    ensures ReadChar(s, i).0 == ValidateCz(s, i)
  {
  }

  /** A character of two, three or four bytes and its code point, group of six bits by group. */
  lemma TwoBytes(c: nat, d: nat)
    requires 2 <= c < 0x20 && d < 0x40
    ensures var u, ch: bytes := c * 0x40 + d, [0xC0 + c, 0x80 + d];
            Scalar(u) && WriteChar(u) == ch && ValidateCz(ch, 0) == 2 && ReadChar(ch, 0) == (2, u)
  {
    var u := c * 0x40 + d;
    assert u / 0x40 == c && u % 0x40 == d;
  }

  lemma ThreeBytes(b: nat, c: nat, d: nat)
    requires b < 0x10 && c < 0x40 && d < 0x40
    requires b == 0 ==> c >= 0x20
    requires b == 0xD ==> c < 0x20
    ensures var u, ch: bytes := b * 0x1000 + c * 0x40 + d, [0xE0 + b, 0x80 + c, 0x80 + d];
            Scalar(u) && WriteChar(u) == ch && ValidateCz(ch, 0) == 3 && ReadChar(ch, 0) == (3, u)
  {
    var u := b * 0x1000 + c * 0x40 + d;
    assert u / 0x40 == b * 0x40 + c && u % 0x40 == d;
    assert u / 0x1000 == b && (b * 0x40 + c) % 0x40 == c;
    assert (0xE0 + b) % 0x10 == b && (0x80 + c) % 0x40 == c && (0x80 + d) % 0x40 == d;
  }

  lemma FourBytes(a: nat, b: nat, c: nat, d: nat)
    requires a <= 4 && b < 0x40 && c < 0x40 && d < 0x40
    requires a == 0 ==> b >= 0x10
    requires a == 4 ==> b < 0x10
    ensures var u, ch: bytes := a * 0x40000 + b * 0x1000 + c * 0x40 + d, [0xF0 + a, 0x80 + b, 0x80 + c, 0x80 + d];
            Scalar(u) && WriteChar(u) == ch && ValidateCz(ch, 0) == 4 && ReadChar(ch, 0) == (4, u)
  {
    var u := a * 0x40000 + b * 0x1000 + c * 0x40 + d;
    Sixes(a, b, c, d);
    assert (0xF0 + a) % 8 == a;
  }

  lemma Sixes(a: nat, b: nat, c: nat, d: nat)
    requires b < 0x40 && c < 0x40 && d < 0x40
    ensures var u := a * 0x40000 + b * 0x1000 + c * 0x40 + d;
            u % 0x40 == d && u / 0x40 % 0x40 == c && u / 0x1000 % 0x40 == b && u / 0x40000 == a
    ensures (0x80 + b) % 0x40 == b && (0x80 + c) % 0x40 == c && (0x80 + d) % 0x40 == d
  {
    var u := a * 0x40000 + b * 0x1000 + c * 0x40 + d;
    assert u / 0x40 == a * 0x1000 + b * 0x40 + c;
    assert u / 0x1000 == a * 0x40 + b;
  }

  lemma SixBitGroups(u: nat) returns (a: nat, b: nat, c: nat, d: nat)
    ensures b < 0x40 && c < 0x40 && d < 0x40
    ensures u == a * 0x40000 + b * 0x1000 + c * 0x40 + d
  {
    a, b, c, d := u / 0x40000, u / 0x1000 % 0x40, u / 0x40 % 0x40, u % 0x40;
    assert u / 0x1000 == a * 0x40 + b;
    assert u / 0x40 == u / 0x1000 * 0x40 + c;
  }

  /** Every scalar value is written as one character, and read back from it. */
  lemma ReadInvertsWrite(u: nat)
    requires Scalar(u)
    ensures ValidateCz(WriteChar(u), 0) == |WriteChar(u)|
    ensures ReadChar(WriteChar(u), 0) == (|WriteChar(u)|, u)
  {
    if u > 0x7F {
      var a, b, c, d := SixBitGroups(u);
      if u <= 0x7FF {
        TwoBytes(c, d);
      } else if u <= 0xFFFF {
        ThreeBytes(b, c, d);
      } else {
        FourBytes(a, b, c, d);
      }
    }
  }

  lemma WrittenCharIsUtf8(u: nat)
    requires Scalar(u)
    ensures Utf8Char(WriteChar(u))
    ensures WriteChar(u)[0] == 0 <==> u == 0
  {
    ReadInvertsWrite(u);
    var ch := WriteChar(u);
    assert ch[0..0 + |ch|] == ch;
    ValidateIsRfc3629(ch, 0, |ch|);
  }

  lemma WriteInvertsReadOfTwo(ch: bytes)
    requires Utf8Char(ch) && |ch| == 2
    ensures ValidateCz(ch, 0) == 2
    ensures Scalar(ReadChar(ch, 0).1) && WriteChar(ReadChar(ch, 0).1) == ch
  {
    var c, d := ch[0] - 0xC0, ch[1] - 0x80;
    TwoBytes(c, d);
    var w: bytes := [0xC0 + c, 0x80 + d];
    assert w == ch;
  }

  lemma WriteInvertsReadOfThree(ch: bytes)
    requires Utf8Char(ch) && |ch| == 3
    ensures ValidateCz(ch, 0) == 3
    ensures Scalar(ReadChar(ch, 0).1) && WriteChar(ReadChar(ch, 0).1) == ch
  {
    var b, c, d := ch[0] - 0xE0, ch[1] - 0x80, ch[2] - 0x80;
    ThreeBytes(b, c, d);
    var w: bytes := [0xE0 + b, 0x80 + c, 0x80 + d];
    assert w == ch;
  }

  lemma WriteInvertsReadOfFour(ch: bytes)
    requires Utf8Char(ch) && |ch| == 4
    ensures ValidateCz(ch, 0) == 4
    ensures Scalar(ReadChar(ch, 0).1) && WriteChar(ReadChar(ch, 0).1) == ch
  {
    var a, b, c, d := ch[0] - 0xF0, ch[1] - 0x80, ch[2] - 0x80, ch[3] - 0x80;
    FourBytes(a, b, c, d);
    var w: bytes := [0xF0 + a, 0x80 + b, 0x80 + c, 0x80 + d];
    assert w == ch;
  }

  /** Every RFC 3629 character is the writing of the scalar value that is read from it. */
  lemma WriteInvertsRead(ch: bytes)
    requires Utf8Char(ch)
    ensures ValidateCz(ch, 0) == |ch|
    ensures Scalar(ReadChar(ch, 0).1) && WriteChar(ReadChar(ch, 0).1) == ch
  {
    if |ch| == 2 {
      WriteInvertsReadOfTwo(ch);
    } else if |ch| == 3 {
      WriteInvertsReadOfThree(ch);
    } else if |ch| == 4 {
      WriteInvertsReadOfFour(ch);
    }
  }

  /** Section 2 of RFC 2781: the two surrogate functions are inverse on their domains. */
  lemma FromInvertsTo(u: nat)
    requires 0x10000 <= u <= 0x10FFFF
    ensures var (h, l) := ToSurrogatePair(u);
            HighSurrogate(h) && LowSurrogate(l) && FromSurrogatePair(h, l) == Some(u)
  {
    var n := u - 0x10000;
    assert n == n / 0x400 * 0x400 + n % 0x400 && n / 0x400 < 0x400;
    assert (n / 0x400 + 0xD800) % 0x400 == n / 0x400 && (n % 0x400 + 0xDC00) % 0x400 == n % 0x400;
  }

  lemma ToInvertsFrom(uc: nat, lc: nat)
    ensures FromSurrogatePair(uc, lc).Some? <==> HighSurrogate(uc) && LowSurrogate(lc)
    ensures HighSurrogate(uc) && LowSurrogate(lc) ==>
      var u := FromSurrogatePair(uc, lc).value;
      0x10000 <= u <= 0x10FFFF && ToSurrogatePair(u) == (uc, lc)
  {
    if HighSurrogate(uc) && LowSurrogate(lc) {
      assert uc % 0x400 == uc - 0xD800 && lc % 0x400 == lc - 0xDC00;
      var n := (uc - 0xD800) * 0x400 + (lc - 0xDC00);
      assert n / 0x400 == uc - 0xD800 && n % 0x400 == lc - 0xDC00;
    }
  }

  // Which bijections these are

  /** The order of byte strings. */
  predicate Before(a: bytes, b: bytes) {
    b != [] && (a == [] || a[0] < b[0] || (a[0] == b[0] && Before(a[1..], b[1..])))
  }

  lemma {:induction false} BeforeAt(a: bytes, b: bytes, k: nat)
    requires k < |a| && k < |b| && a[..k] == b[..k] && a[k] < b[k]
    ensures Before(a, b)
  {
    if k > 0 {
      assert a[0] == a[..k][0] == b[..k][0] == b[0];
      assert a[1..][..k - 1] == a[..k][1..] && b[1..][..k - 1] == b[..k][1..];
      BeforeAt(a[1..], b[1..], k - 1);
    }
  }

  /** Groups of six bits in the order of the numbers that they make up. */
  lemma GroupsInOrder(a: nat, b: nat, c: nat, d: nat, e: nat, f: nat, g: nat, h: nat)
    requires (a != e ==> b < 0x40 && f < 0x40) && c < 0x40 && d < 0x40 && g < 0x40 && h < 0x40
    requires a * 0x40000 + b * 0x1000 + c * 0x40 + d < e * 0x40000 + f * 0x1000 + g * 0x40 + h
    ensures a < e || (a == e && (b < f || (b == f && (c < g || (c == g && d < h)))))
  {
  }

  lemma FourInOrder(x: bytes, y: bytes)
    requires |x| == |y| == 4
    requires x[0] < y[0] || (x[0] == y[0] && (x[1] < y[1] || (x[1] == y[1] && (x[2] < y[2] || (x[2] == y[2] && x[3] < y[3])))))
    ensures Before(x, y)
  {
    BeforeAt(x, y, if x[0] != y[0] then 0 else if x[1] != y[1] then 1 else if x[2] != y[2] then 2 else 3);
  }

  lemma ThreeInOrder(x: bytes, y: bytes)
    requires |x| == |y| == 3
    requires x[0] < y[0] || (x[0] == y[0] && (x[1] < y[1] || (x[1] == y[1] && x[2] < y[2])))
    ensures Before(x, y)
  {
    BeforeAt(x, y, if x[0] != y[0] then 0 else if x[1] != y[1] then 1 else 2);
  }

  lemma TwoInOrder(x: bytes, y: bytes)
    requires |x| == |y| == 2 && (x[0] < y[0] || (x[0] == y[0] && x[1] < y[1]))
    ensures Before(x, y)
  {
    BeforeAt(x, y, if x[0] != y[0] then 0 else 1);
  }

  lemma TwosKeepOrder(u: nat, v: nat)
    requires 0x7F < u < v <= 0x7FF
    ensures Before(WriteChar(u), WriteChar(v))
  {
    GroupsInOrder(0, 0, u / 0x40, u % 0x40, 0, 0, v / 0x40, v % 0x40);
    TwoInOrder(WriteChar(u), WriteChar(v));
  }

  lemma ThreesKeepOrder(u: nat, v: nat)
    requires 0x7FF < u < v <= 0xFFFF && Scalar(u) && Scalar(v)
    ensures Before(WriteChar(u), WriteChar(v))
  {
    Groups(u);
    Groups(v);
    GroupsInOrder(0, u / 0x1000, u / 0x40 % 0x40, u % 0x40, 0, v / 0x1000, v / 0x40 % 0x40, v % 0x40);
    ThreeInOrder(WriteChar(u), WriteChar(v));
  }

  lemma FoursKeepOrder(u: nat, v: nat)
    requires 0xFFFF < u < v && Scalar(u) && Scalar(v)
    ensures Before(WriteChar(u), WriteChar(v))
  {
    Groups(u);
    Groups(v);
    GroupsInOrder(u / 0x40000, u / 0x1000 % 0x40, u / 0x40 % 0x40, u % 0x40,
                  v / 0x40000, v / 0x1000 % 0x40, v / 0x40 % 0x40, v % 0x40);
    FourInOrder(WriteChar(u), WriteChar(v));
  }

  lemma Groups(u: nat)
    ensures u == u / 0x40000 * 0x40000 + u / 0x1000 % 0x40 * 0x1000 + u / 0x40 % 0x40 * 0x40 + u % 0x40
    ensures u == u / 0x1000 * 0x1000 + u / 0x40 % 0x40 * 0x40 + u % 0x40
  {
    assert u / 0x1000 == u / 0x40000 * 0x40 + u / 0x1000 % 0x40;
    assert u / 0x40 == u / 0x1000 * 0x40 + u / 0x40 % 0x40;
  }

  /** The encodings of code points are in the order of the code points (section 1 of RFC 3629), which
      is true of no other way to assign the characters to them. */
  lemma EncodingKeepsOrder(u: nat, v: nat)
    requires Scalar(u) && Scalar(v) && u < v
    ensures Before(WriteChar(u), WriteChar(v))
  {
    if 0x7F < u && v <= 0x7FF {
      TwosKeepOrder(u, v);
    } else if 0x7FF < u && v <= 0xFFFF {
      ThreesKeepOrder(u, v);
    } else if 0xFFFF < u {
      FoursKeepOrder(u, v);
    } else {
      FirstBytes(u, v);
      BeforeAt(WriteChar(u), WriteChar(v), 0);
    }
  }

  lemma FirstBytes(u: nat, v: nat)
    requires Scalar(u) && Scalar(v) && u < v
    ensures WriteChar(u)[0] <= WriteChar(v)[0]
    ensures |WriteChar(u)| != |WriteChar(v)| || |WriteChar(u)| == 1 ==> WriteChar(u)[0] < WriteChar(v)[0]
  {
  }

  /** So are the surrogate pairs, */
  lemma PairsKeepOrder(u: nat, v: nat)
    requires 0x10000 <= u < v <= 0x10FFFF
    ensures var ((a, b), (c, d)) := (ToSurrogatePair(u), ToSurrogatePair(v)); a < c || (a == c && b < d)
  {
    var m, n := u - 0x10000, v - 0x10000;
    assert m / 0x400 < 0x400 && n / 0x400 < 0x400;
  }

  /** as in the example of section 7 of RFC 8259. */
  lemma GClef()
    ensures ToSurrogatePair(0x1D11E) == (0xD834, 0xDD1E) && WriteChar(0x1D11E) == [0xF0, 0x9D, 0x84, 0x9E]
  {
  }

  /** A valid character keeps its length whatever stands behind it. */
  lemma ValidateIsLocal(a: bytes, b: bytes)
    requires a != [] && ValidateCz(a, 0) > 0
    ensures ValidateCz(a + b, 0) == ValidateCz(a, 0)
  {
    var n := ValidateCz(a, 0);
    ValidateStaysInside(a, 0);
    assert a[0..0 + n] == (a + b)[0..0 + n];
    ValidateIsRfc3629(a, 0, n);
    ValidateIsRfc3629(a + b, 0, n);
  }

  lemma {:induction false} TextAppend(a: bytes, b: bytes)
    requires Text(a) && Text(b)
    ensures Text(a + b)
  {
    if a == [] {
      assert a + b == b;
    } else {
      var n := ValidateCz(a, 0);
      ValidateStaysInside(a, 0);
      ValidateIsLocal(a, b);
      TextAppend(a[n..], b);
      assert (a + b)[n..] == a[n..] + b;
    }
  }

  lemma CharIsText(ch: bytes)
    requires Utf8Char(ch) && ch[0] != 0
    ensures Text(ch)
  {
    assert ch[0..0 + |ch|] == ch;
    ValidateIsRfc3629(ch, 0, |ch|);
    assert ch[|ch|..] == [];
  }

  lemma WrittenCharIsText(u: nat)
    requires Scalar(u) && u != 0
    ensures Text(WriteChar(u))
  {
    WrittenCharIsUtf8(u);
    CharIsText(WriteChar(u));
  }

  /** The first character of a text and the text behind it. */
  lemma FirstChar(s: bytes) returns (ch: bytes, rest: bytes)
    requires Text(s) && s != []
    ensures s == ch + rest && Utf8Char(ch) && ch[0] != 0 && Text(rest) && |ch| == ValidateCz(s, 0)
  {
    var n := ValidateCz(s, 0);
    ValidateStaysInside(s, 0);
    ValidateIsRfc3629(s, 0, n);
    assert s[0..0 + n] == s[..n];
    ch, rest := s[..n], s[n..];
  }

  lemma {:induction false} TextHasNoNul(s: bytes)
    requires Text(s)
    ensures 0 !in s
    decreases |s|
  {
    if s != [] {
      var ch, rest := FirstChar(s);
      TextHasNoNul(rest);
    }
  }

  lemma CodePoint(ch: bytes) returns (u: nat)
    requires Utf8Char(ch)
    ensures Scalar(u) && WriteChar(u) == ch && (u == 0 <==> ch[0] == 0)
  {
    WriteInvertsRead(ch);
    u := ReadChar(ch, 0).1;
    WrittenCharIsUtf8(u);
  }

  /** The encoding of a run of code points. */
  function Encode(us: seq<nat>): bytes
    requires forall u <- us :: Scalar(u)
  {
    if us == [] then [] else WriteChar(us[0]) + Encode(us[1..])
  }

  lemma {:induction false} EncodeIsText(us: seq<nat>)
    requires forall u <- us :: Scalar(u) && u != 0
    ensures Text(Encode(us))
  {
    if us != [] {
      WrittenCharIsUtf8(us[0]);
      CharIsText(WriteChar(us[0]));
      EncodeIsText(us[1..]);
      TextAppend(WriteChar(us[0]), Encode(us[1..]));
    }
  }

  /** `utf8_validate` accepts exactly the encodings of scalar values other than NUL, each of them
      of one single run of code points. */
  lemma {:induction false} TextIsEncoding(s: bytes) returns (us: seq<nat>)
    requires Text(s)
    ensures (forall u <- us :: Scalar(u) && u != 0) && Encode(us) == s
    decreases |s|
  {
    if s == [] {
      us := [];
    } else {
      var ch, rest := FirstChar(s);
      var u := CodePoint(ch);
      var more := TextIsEncoding(rest);
      us := [u] + more;
      assert us[1..] == more;
    }
  }

  lemma {:induction false} EncodingIsUnique(us: seq<nat>, vs: seq<nat>)
    requires forall u <- us :: Scalar(u)
    requires forall v <- vs :: Scalar(v)
    requires Encode(us) == Encode(vs)
    ensures us == vs
  {
    if us == [] || vs == [] {
    } else {
      var a, b := WriteChar(us[0]), WriteChar(vs[0]);
      ReadInvertsWrite(us[0]);
      ReadInvertsWrite(vs[0]);
      var s := Encode(us);
      ValidateIsLocal(a, Encode(us[1..]));
      ValidateIsLocal(b, Encode(vs[1..]));
      assert a == s[..|a|] == s[..|b|] == b;
      assert Encode(us[1..]) == s[|a|..] == Encode(vs[1..]);
      EncodingIsUnique(us[1..], vs[1..]);
    }
  }
}
