/** `sdscatfmt`: what a format and its arguments expand to, and that exactly this is appended. */
module SdsFormat {
  import opened Bytes
  import opened Sds
  import N = SdsNumbers

  /** What `va_arg` can find. */
  datatype Arg = TextArg(text: bytes) | SignedArg(num: int) | UnsignedArg(unum: nat)

  const PERCENT: byte := 0x25

  /** The argument that is printed for the letter behind a percent sign, if the letter calls for one. */
  predicate TakesArg(c: byte) {
    c == 0x73 || c == 0x53 || c == 0x69 || c == 0x49 || c == 0x75 || c == 0x55
  }

  /** The argument has the type that the letter calls for: %s a C string, %S a dynamic string, %i an
      int, %I a long long, %u an unsigned int, %U an unsigned long long. */
  predicate HasType(c: byte, a: Arg) {
    if c == 0x73 then a.TextArg? && 0 !in a.text
    else if c == 0x53 then a.TextArg?
    else if c == 0x69 then a.SignedArg? && -0x8000_0000 <= a.num <= 0x7FFF_FFFF
    else if c == 0x49 then a.SignedArg? && N.LLONG_MIN <= a.num <= N.LLONG_MAX
    else if c == 0x75 then a.UnsignedArg? && a.unum < 0x1_0000_0000
    else a.UnsignedArg? && a.unum < N.ULLONGS
  }

  /** The arguments are what the format calls for, and it does not end in a bare percent sign. */
  predicate Matches(f: bytes, args: seq<Arg>)
    decreases |f|
  {
    if f == [] then true
    else if f[0] != PERCENT then Matches(f[1..], args)
    else if |f| == 1 then false
    else if TakesArg(f[1]) then args != [] && HasType(f[1], args[0]) && Matches(f[2..], args[1..])
    else Matches(f[2..], args)
  }

  function Print(a: Arg): bytes {
    match a
    case TextArg(t) => t
    case SignedArg(v) => N.Signed(v)
    case UnsignedArg(v) => N.Decimal(v)
  }

  /** What the format expands to. */
  function Expand(f: bytes, args: seq<Arg>): bytes
    requires Matches(f, args)
    decreases |f|
  {
    if f == [] then []
    else if f[0] != PERCENT then [f[0]] + Expand(f[1..], args)
    else if TakesArg(f[1]) then Print(args[0]) + Expand(f[2..], args[1..])
    else [f[1]] + Expand(f[2..], args)
  }

  // What an expansion is

  /** A format without a percent sign stands for itself. */
  lemma {:induction false} PlainExpands(f: bytes, args: seq<Arg>)
    requires PERCENT !in f
    ensures Matches(f, args) && Expand(f, args) == f
    decreases |f|
  {
    if f != [] {
      PlainExpands(f[1..], args);
      assert [f[0]] + f[1..] == f;
    }
  }

  /** A percent sign and one of the letters s and S stand for a text, */
  lemma TextExpands(c: byte, t: bytes)
    requires c in Ascii("sS") && (c == 's' as int ==> 0 !in t)
    ensures Matches([PERCENT, c], [TextArg(t)]) && Expand([PERCENT, c], [TextArg(t)]) == t
  {
    DirectiveExpands(c, TextArg(t));
  }

  /** one of the letters i, I, u and U for a number, */
  lemma SignedExpands(c: byte, v: int)
    requires c in Ascii("iI") && HasType(c, SignedArg(v))
    ensures Matches([PERCENT, c], [SignedArg(v)]) && N.SignedText(Expand([PERCENT, c], [SignedArg(v)]), v)
  {
    DirectiveExpands(c, SignedArg(v));
    N.SignedIsCanonical(v);
  }

  lemma UnsignedExpands(c: byte, v: nat)
    requires c in Ascii("uU") && HasType(c, UnsignedArg(v))
    ensures var f, args := [PERCENT, c], [UnsignedArg(v)];
      Matches(f, args) && N.Canonical(Expand(f, args)) && N.Value(Expand(f, args)) == v
  {
    DirectiveExpands(c, UnsignedArg(v));
    N.DecimalIsCanonical(v);
  }

  lemma DirectiveExpands(c: byte, a: Arg)
    requires c in Ascii("sS") + Ascii("iI") + Ascii("uU") && HasType(c, a)
    ensures Matches([PERCENT, c], [a]) && Expand([PERCENT, c], [a]) == Print(a)
  {
    Letters(c);
    assert [PERCENT, c][2..] == [] && [a][1..] == [];
    assert Print(a) + [] == Print(a);
  }

  /** and any other byte, the percent sign included, for itself. */
  lemma ByteExpands(c: byte)
    requires c !in Ascii("sSiIuU")
    ensures Matches([PERCENT, c], []) && Expand([PERCENT, c], []) == [c]
  {
    Letters(c);
    assert [PERCENT, c][2..] == [];
  }

  lemma Letters(c: byte)
    ensures c in Ascii("sSiIuU") <==> TakesArg(c)
    ensures c in Ascii("sS") <==> c == 0x73 || c == 0x53
    ensures c in Ascii("iI") <==> c == 0x69 || c == 0x49
    ensures c in Ascii("uU") <==> c == 0x75 || c == 0x55
  {
    var all, t, i, u := Ascii("sSiIuU"), Ascii("sS"), Ascii("iI"), Ascii("uU");
    assert all == [0x73, 0x53, 0x69, 0x49, 0x75, 0x55];
    assert t == [0x73, 0x53] && i == [0x69, 0x49] && u == [0x75, 0x55];
  }

  /** How many arguments the format takes. */
  function Uses(f: bytes): nat
    decreases |f|
  {
    if f == [] then 0
    else if f[0] != PERCENT then Uses(f[1..])
    else if |f| == 1 then 0
    else (if TakesArg(f[1]) then 1 else 0) + Uses(f[2..])
  }

  ghost predicate Both(f: bytes, args: seq<Arg>, g: bytes, more: seq<Arg>)
    requires Matches(f, args) && Matches(g, more)
  {
    Matches(f + g, args + more) && Expand(f + g, args + more) == Expand(f, args) + Expand(g, more)
  }

  lemma PlainBoth(f: bytes, args: seq<Arg>, g: bytes, more: seq<Arg>)
    requires Matches(f, args) && Matches(g, more) && f != [] && f[0] != PERCENT && Both(f[1..], args, g, more)
    ensures Both(f, args, g, more) == true
  {
    DropBoth(f, g, 1);
    Assoc([f[0]], Expand(f[1..], args), Expand(g, more));
  }

  lemma ArgFirst(f: bytes, args: seq<Arg>)
    requires |f| > 1 && f[0] == PERCENT && TakesArg(f[1]) && args != [] && HasType(f[1], args[0])
    requires Matches(f[2..], args[1..])
    ensures Matches(f, args) && Expand(f, args) == Print(args[0]) + Expand(f[2..], args[1..])
  {
  }

  lemma ArgBoth(f: bytes, args: seq<Arg>, g: bytes, more: seq<Arg>)
    requires Matches(f, args) && Matches(g, more) && f != [] && f[0] == PERCENT && TakesArg(f[1])
    requires Both(f[2..], args[1..], g, more)
    ensures Both(f, args, g, more) == true
  {
    DropBoth(f, g, 2);
    DropBoth(args, more, 1);
    ArgFirst(f + g, args + more);
    ArgFirst(f, args);
    Assoc(Print(args[0]), Expand(f[2..], args[1..]), Expand(g, more));
  }

  lemma EscapeBoth(f: bytes, args: seq<Arg>, g: bytes, more: seq<Arg>)
    requires Matches(f, args) && Matches(g, more) && f != [] && f[0] == PERCENT && !TakesArg(f[1])
    requires Both(f[2..], args, g, more)
    ensures Both(f, args, g, more) == true
  {
    DropBoth(f, g, 2);
    Assoc([f[1]], Expand(f[2..], args), Expand(g, more));
  }

  /** Two formats one behind the other expand to the two expansions, each with its own arguments. */
  lemma {:induction false} BothExpand(f: bytes, args: seq<Arg>, g: bytes, more: seq<Arg>)
    requires Matches(f, args) && Matches(g, more) && Uses(f) == |args|
    ensures Both(f, args, g, more)
    decreases |f|
  {
    if f == [] {
      assert f + g == g && args + more == more;
    } else if f[0] != PERCENT {
      BothExpand(f[1..], args, g, more);
      PlainBoth(f, args, g, more);
    } else if TakesArg(f[1]) {
      BothExpand(f[2..], args[1..], g, more);
      ArgBoth(f, args, g, more);
    } else {
      BothExpand(f[2..], args, g, more);
      EscapeBoth(f, args, g, more);
    }
  }

  /** A number as the `int` that the position of the next byte is kept in. */
  function Int32(n: int): int {
    (n + 0x8000_0000) % 0x1_0000_0000 - 0x8000_0000
  }

  /** Exactly up to 2^31 - 1 that is the number itself; the position 2^31 already lies in front of the
      string. */
  lemma PositionFits(n: nat)
    ensures Int32(n) == n <==> n < 0x8000_0000
    ensures 0x8000_0000 <= n < 0x1_0000_0000 ==> Int32(n) < 0
  {
  }

  /** The bytes `t` from position `i` on, which are there already but not in use. */
  method PutRaw(s: Str, i: int, t: bytes) returns (j: int)
    requires s.Fits() && |t| <= s.Avail() && i == s.Len() && s.Len() + |t| < 0x8000_0000
    modifies s`flags, s`len, s.buf
    ensures s.Fits() && s.Contents() == old(s.Contents()) + t
    ensures s.Alloc() == old(s.Alloc()) && s.Len() == old(s.Len()) + |t| && j == s.Len()
  {
    forall k | 0 <= k < |t| {
      s.buf[i + k] := t[k];
    }
    assert s.buf[..i + |t|] == old(s.buf[..s.Len()]) + t;
    s.IncLen(|t|);
    j := Int32(i + |t|);
  }

  /** One argument, after more room has been made where it is needed. */
  method PutArg(s: Str, i: int, c: byte, a: Arg) returns (j: int)
    requires s.Fits() && TakesArg(c) && HasType(c, a) && i == s.Len() && s.Len() + |Print(a)| < 0x8000_0000
    modifies s, s.buf
    ensures s.Fits() && s.Contents() == old(s.Contents()) + Print(a) && j == s.Len()
    ensures s.buf == old(s.buf) || fresh(s.buf)
  {
    var t: bytes;
    match a {
      case TextArg(text) =>
        t := text;
      case SignedArg(num) =>
        var buf := new byte[N.SDS_LLSTR_SIZE];
        var l := N.Ll2Str(buf, num);
        t := buf[..l];
      case UnsignedArg(unum) =>
        var buf := new byte[N.SDS_LLSTR_SIZE];
        var l := N.Ull2Str(buf, unum);
        t := buf[..l];
    }
    if s.Avail() < |t| {
      s.MakeRoomFor(|t|);
    }
    j := PutRaw(s, i, t);
  }

  /** The three kinds of rounds of `sdscatfmt`: a byte that stands for itself, */
  lemma PlainStep(text: bytes, fmt: bytes, f: nat, args: seq<Arg>)
    requires f < |fmt| && Matches(fmt[f..], args) && fmt[f] != PERCENT
    ensures Matches(fmt[f + 1..], args)
    ensures text + Expand(fmt[f..], args) == text + [fmt[f]] + Expand(fmt[f + 1..], args)
  {
    assert fmt[f..][1..] == fmt[f + 1..];
    Assoc(text, [fmt[f]], Expand(fmt[f + 1..], args));
  }

  /** a percent sign with an argument, */
  lemma ArgStep(text: bytes, fmt: bytes, f: nat, args: seq<Arg>, a: nat)
    requires f < |fmt| && a <= |args| && Matches(fmt[f..], args[a..]) && fmt[f] == PERCENT
    requires f + 1 < |fmt| && TakesArg(fmt[f + 1])
    ensures a < |args| && HasType(fmt[f + 1], args[a]) && Matches(fmt[f + 2..], args[a + 1..])
    ensures text + Expand(fmt[f..], args[a..]) == text + Print(args[a]) + Expand(fmt[f + 2..], args[a + 1..])
  {
    assert fmt[f..][2..] == fmt[f + 2..] && args[a..][1..] == args[a + 1..];
    Assoc(text, Print(args[a]), Expand(fmt[f + 2..], args[a + 1..]));
  }

  /** or one without. */
  lemma EscapeStep(text: bytes, fmt: bytes, f: nat, args: seq<Arg>)
    requires f < |fmt| && Matches(fmt[f..], args) && fmt[f] == PERCENT
    ensures f + 1 < |fmt|
    ensures !TakesArg(fmt[f + 1]) ==>
      && Matches(fmt[f + 2..], args)
      && text + Expand(fmt[f..], args) == text + [fmt[f + 1]] + Expand(fmt[f + 2..], args)
  {
    assert fmt[f..][2..] == fmt[f + 2..];
    if !TakesArg(fmt[f + 1]) {
      Assoc(text, [fmt[f + 1]], Expand(fmt[f + 2..], args));
    }
  }

  /** One round of the loop of `sdscatfmt`. */
  method Round(s: Str, i: int, fmt: bytes, f: nat, args: seq<Arg>, a: nat) returns (j: int, g: nat, b: nat)
    requires f < |fmt| && a <= |args| && Matches(fmt[f..], args[a..])
    requires s.Fits() && i == s.Len() && s.Len() + |Expand(fmt[f..], args[a..])| < 0x8000_0000
    modifies s, s.buf
    ensures j == s.Len() && f < g <= |fmt| && b <= |args| && Matches(fmt[g..], args[b..])
    ensures s.Fits() && (s.buf == old(s.buf) || fresh(s.buf))
    ensures s.Contents() + Expand(fmt[g..], args[b..]) == old(s.Contents()) + Expand(fmt[f..], args[a..])
  {
    ghost var was := s.Contents();
    if s.Avail() == 0 {
      s.MakeRoomFor(1);
    }
    if fmt[f] == PERCENT {
      EscapeStep(was, fmt, f, args[a..]);
      var next := fmt[f + 1];
      if TakesArg(next) {
        ArgStep(was, fmt, f, args, a);
        j := PutArg(s, i, next, args[a]);
        g, b := f + 2, a + 1;
      } else {
        j := PutRaw(s, i, [next]);
        g, b := f + 2, a;
      }
    } else {
      PlainStep(was, fmt, f, args[a..]);
      j := PutRaw(s, i, [fmt[f]]);
      g, b := f + 1, a;
    }
  }

  /** `sdscatfmt`. Its `int` position is right exactly as long as the string stays below 2^31 bytes. */
  method CatFmt(s: Str, fmt: bytes, args: seq<Arg>)
    requires s.Valid() && 0 !in fmt && Matches(fmt, args)
    requires s.Len() + |Expand(fmt, args)| < 0x8000_0000
    modifies s, s.buf
    ensures s.Valid() && s.Contents() == old(s.Contents()) + Expand(fmt, args)
    ensures s.buf == old(s.buf) || fresh(s.buf)
  {
    var f: nat, a: nat, i := 0, 0, Int32(s.Len());
    ghost var goal := s.Contents() + Expand(fmt, args);
    assert fmt[0..] == fmt && args[0..] == args;
    while f < |fmt|
      invariant f <= |fmt| && a <= |args| && Matches(fmt[f..], args[a..])
      invariant s.Fits() && (s.buf == old(s.buf) || fresh(s.buf)) && i == s.Len()
      invariant s.Contents() + Expand(fmt[f..], args[a..]) == goal
      decreases |fmt| - f
    {
      assert |goal| == s.Len() + |Expand(fmt[f..], args[a..])|;
      i, f, a := Round(s, i, fmt, f, args, a);
    }
    assert s.Contents() + [] == s.Contents();
    ghost var all := s.Contents();
    s.buf[i] := 0;
    assert s.Contents() == all;
  }
}
