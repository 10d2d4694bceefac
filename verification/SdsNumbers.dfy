/** `sdsll2str` and `sdsull2str`: the digits of a number, made backwards and then turned around. */
module SdsNumbers {
  import opened Bytes

  const SDS_LLSTR_SIZE: nat := 21

  const ULLONGS: nat := 0x1_0000_0000_0000_0000
  const LLONG_MIN: int := -0x8000_0000_0000_0000
  const LLONG_MAX: int := 0x7FFF_FFFF_FFFF_FFFF

  predicate Digits(t: bytes) {
    forall i | 0 <= i < |t| :: 0x30 <= t[i] <= 0x39
  }

  /** The number that a text of decimal digits means. */
  function Value(t: bytes): nat
    requires Digits(t)
  {
    if t == [] then 0 else 10 * Value(t[..|t| - 1]) + (t[|t| - 1] - 0x30)
  }

  /** A decimal numeral: no leading zeroes. */
  predicate Canonical(t: bytes) {
    t != [] && Digits(t) && (t[0] == 0x30 ==> |t| == 1)
  }

  /** The numeral of a number. */
  function Decimal(v: nat): bytes {
    if v < 10 then [0x30 + v] else Decimal(v / 10) + [0x30 + v % 10]
  }

  function Signed(v: int): bytes {
    if v < 0 then [0x2D] + Decimal(-v) else Decimal(v)
  }

  lemma {:induction false} DecimalIsCanonical(v: nat)
    ensures Canonical(Decimal(v)) && Value(Decimal(v)) == v
    ensures v > 0 ==> Decimal(v)[0] != 0x30
  {
    if v >= 10 {
      DecimalIsCanonical(v / 10);
      var t := Decimal(v);
      assert t[..|t| - 1] == Decimal(v / 10);
    }
  }

  /** There is only one numeral for each number. */
  lemma {:induction false} DecimalIsUnique(t: bytes)
    requires Canonical(t)
    ensures t == Decimal(Value(t))
    ensures t[0] != 0x30 ==> Value(t) > 0
    decreases |t|
  {
    var n := |t| - 1;
    if n == 0 {
      assert Value(t[..0]) == 0;
    } else {
      var u := t[..n];
      DecimalIsUnique(u);
      assert t == u + [t[n]];
      assert Value(t) / 10 == Value(u);
    }
  }

  /** A text in front of which the minus sign stands exactly if the number is negative. */
  predicate SignedText(t: bytes, v: int) {
    if v < 0 then t != [] && t[0] == 0x2D && Canonical(t[1..]) && Value(t[1..]) == -v
    else Canonical(t) && Value(t) == v
  }

  lemma SignedIsCanonical(v: int)
    ensures SignedText(Signed(v), v)
  {
    if v < 0 {
      DecimalIsCanonical(-v);
      assert Signed(v)[1..] == Decimal(-v);
    } else {
      DecimalIsCanonical(v);
    }
  }

  /** There is no other such text, and no text is that of two numbers. */
  lemma SignedIsUnique(t: bytes, v: int)
    requires SignedText(t, v)
    ensures t == Signed(v) && forall w: int :: SignedText(t, w) ==> w == v
  {
    if v < 0 {
      DecimalIsUnique(t[1..]);
      assert t == [0x2D] + t[1..];
    } else {
      DecimalIsUnique(t);
    }
  }

  lemma SignedIsInjective(v: int, w: int)
    requires Signed(v) == Signed(w)
    ensures v == w
  {
    SignedIsCanonical(v);
    SignedIsCanonical(w);
    SignedIsUnique(Signed(v), v);
  }

  function Pow10(n: nat): nat {
    if n == 0 then 1 else 10 * Pow10(n - 1)
  }

  /** Every digit counts for its place, whatever stands in front of it and behind it. */
  lemma {:induction false} ValueIsPositional(a: bytes, d: nat, b: bytes)
    requires Digits(a) && d < 10 && Digits(b)
    ensures Value(a + [0x30 + d] + b) == (10 * Value(a) + d) * Pow10(|b|) + Value(b)
    decreases |b|
  {
    var t := a + [0x30 + d] + b;
    if b == [] {
      assert t == a + [0x30 + d] && t[..|t| - 1] == a;
    } else {
      var c := b[..|b| - 1];
      assert t[..|t| - 1] == a + [0x30 + d] + c;
      ValueIsPositional(a, d, c);
      Shifted(10 * Value(a) + d, Pow10(|c|), Value(c), b[|b| - 1] - 0x30);
    }
  }

  lemma Shifted(x: nat, p: nat, y: nat, z: int)
    ensures 10 * (x * p + y) + z == x * (10 * p) + (10 * y + z)
  {
  }

  lemma {:induction false} DecimalLength(v: nat, n: nat)
    requires n > 0 && v < Pow10(n)
    ensures |Decimal(v)| <= n
  {
    if v >= 10 {
      DecimalLength(v / 10, n - 1);
    }
  }

  lemma TwentyDigits()
    ensures Pow10(20) == 100_000_000_000_000_000_000
  {
    assert Pow10(5) == 100_000;
    assert Pow10(10) == 100_000 * Pow10(5);
    assert Pow10(15) == 100_000 * Pow10(10);
  }

  // Turning around

  function Reverse(t: bytes): bytes {
    if t == [] then [] else Reverse(t[1..]) + [t[0]]
  }

  lemma {:induction false} ReverseAt(t: bytes)
    ensures |Reverse(t)| == |t| && forall i | 0 <= i < |t| :: Reverse(t)[i] == t[|t| - 1 - i]
  {
    if t != [] {
      ReverseAt(t[1..]);
    }
  }

  lemma {:induction false} ReverseSnoc(t: bytes, c: byte)
    ensures Reverse(t + [c]) == [c] + Reverse(t)
  {
    if t != [] {
      ReverseSnoc(t[1..], c);
      assert (t + [c])[1..] == t[1..] + [c];
    } else {
      assert t + [c] == [c] && [c][1..] == [];
    }
  }

  /** The loop that swaps the ends, the ends of what is left, and so on. */
  method ReverseInPlace(s: array<byte>, l: nat)
    requires l <= s.Length
    modifies s
    ensures s[..l] == Reverse(old(s[..l])) && s[l..] == old(s[l..])
  {
    var i, p := 0, l - 1;
    while i < p
      invariant 0 <= i && p == l - 1 - i && i <= p + 2
      invariant forall k | 0 <= k < l :: s[k] == if i <= k <= p then old(s[k]) else old(s[l - 1 - k])
      invariant s[l..] == old(s[l..])
    {
      s[i], s[p] := s[p], s[i];
      i, p := i + 1, p - 1;
    }
    ReverseAt(old(s[..l]));
    assert forall k | 0 <= k < l :: s[..l][k] == Reverse(old(s[..l]))[k];
  }

  /** The digits that are still to come when `v` is left. */
  function Rest(v: nat): bytes {
    if v == 0 then [] else Decimal(v)
  }

  /** The loop that makes the digits, the last one first. */
  method DigitsBackwards(s: array<byte>, value: nat) returns (p: nat)
    requires value < ULLONGS && s.Length >= SDS_LLSTR_SIZE
    modifies s
    ensures 1 <= p <= 20 && Reverse(s[..p]) == Decimal(value)
  {
    var v: nat := value;
    TwentyDigits();
    DecimalLength(value, 20);
    s[0] := 0x30 + v % 10;
    v := v / 10;
    p := 1;
    assert s[..1] == [s[0]] && Reverse([s[0]]) == [s[0]];
    while v > 0
      invariant 1 <= p <= 20 && Decimal(value) == Rest(v) + Reverse(s[..p])
      decreases v
    {
      ghost var done := s[..p];
      RestLength(Decimal(value), Rest(v), done);
      s[p] := 0x30 + v % 10;
      assert s[..p + 1] == done + [0x30 + v % 10];
      ReverseSnoc(done, 0x30 + v % 10);
      OneDigit(v, Reverse(done));
      v := v / 10;
      p := p + 1;
    }
  }

  lemma RestLength(a: bytes, b: bytes, c: bytes)
    requires a == b + Reverse(c)
    ensures |a| == |b| + |c|
  {
    ReverseAt(c);
  }

  lemma OneDigit(v: nat, t: bytes)
    requires v > 0
    ensures Rest(v) + t == Rest(v / 10) + ([0x30 + v % 10] + t)
    ensures |Rest(v)| >= 1
  {
    if v < 10 {
      assert Rest(v / 10) == [];
    } else {
      assert Decimal(v) + t == Decimal(v / 10) + ([0x30 + v % 10] + t);
    }
  }

  /** `sdsull2str`. */
  method Ull2Str(s: array<byte>, v: nat) returns (l: nat)
    requires v < ULLONGS && s.Length >= SDS_LLSTR_SIZE
    modifies s
    ensures l < SDS_LLSTR_SIZE && s[..l] == Decimal(v) && s[l] == 0
  {
    l := DigitsBackwards(s, v);
    ghost var t := s[..l];
    s[l] := 0;
    assert s[..l] == t;
    ReverseInPlace(s, l);
    assert s[l..][0] == 0;
  }

  /** The negation of a negative number once it is converted to an unsigned one, which has no
      exception for the smallest number. */
  function Negated(value: int): (v: nat)
    requires LLONG_MIN <= value < 0
    ensures v == -value
  {
    (ULLONGS - value % ULLONGS) % ULLONGS
  }

  /** `sdsll2str`. */
  method Ll2Str(s: array<byte>, value: int) returns (l: nat)
    requires LLONG_MIN <= value <= LLONG_MAX && s.Length >= SDS_LLSTR_SIZE
    modifies s
    ensures l < SDS_LLSTR_SIZE && s[..l] == Signed(value) && s[l] == 0
  {
    var v := if value < 0 then Negated(value) else value;
    if value < 0 {
      NineteenDigits(value);
    }
    l := DigitsBackwards(s, v);
    ghost var t := s[..l];
    ReverseAt(t);
    if value < 0 {
      s[l] := 0x2D;
      l := l + 1;
      assert s[..l] == t + [0x2D];
      ReverseSnoc(t, 0x2D);
    }
    ghost var u := s[..l];
    s[l] := 0;
    assert s[..l] == u;
    ReverseInPlace(s, l);
    assert s[l..][0] == 0;
  }

  lemma NineteenDigits(value: int)
    requires LLONG_MIN <= value < 0
    ensures |Decimal(-value)| <= 19
  {
    TwentyDigits();
    assert Pow10(20) == 10 * Pow10(19);
    DecimalLength(-value, 19);
  }
}
