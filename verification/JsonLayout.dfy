/** The layout of what the printers write, told from the text alone: a scanner that knows strings from
    the rest and counts open brackets. */
module JsonLayout {
  import opened Bytes
  import opened JsonGrammar
  import opened JsonSyntax
  import opened JsonPrinting
  import JsonParsing
  import Utf8

  /** Where the scanner is: outside of strings with so many brackets open, `first` if the last byte has
      opened one; in a string; or behind a backslash in a string. */
  datatype State =
    | Outside(depth: nat, first: bool)
    | InString(depth: nat)
    | Escaped(depth: nat)

  predicate Opens(c: byte) {
    c == 0x5B || c == 0x7B
  }

  predicate Closes(c: byte) {
    c == 0x5D || c == 0x7D
  }

  predicate IsBlank(c: byte) {
    c == 0x20 || c == 0x09 || c == 0x0A || c == 0x0D
  }

  function Next(st: State, c: byte): State {
    match st
    case Outside(depth, _) =>
      if c == 0x22 then InString(depth)
      else if Opens(c) then Outside(depth + 1, true)
      else if Closes(c) && depth > 0 then Outside(depth - 1, false)
      else Outside(depth, false)
    case InString(depth) =>
      if c == 0x22 then Outside(depth, false) else if c == 0x5C then Escaped(depth) else st
    case Escaped(depth) => InString(depth)
  }

  function Run(st: State, t: bytes): State
    decreases |t|
  {
    if t == [] then st else Run(Next(st, t[0]), t[1..])
  }

  // The compact print

  /** Outside of strings there is no blank. */
  predicate Tight(st: State, t: bytes)
    decreases |t|
  {
    t != [] ==> (st.Outside? ==> !IsBlank(t[0])) && Tight(Next(st, t[0]), t[1..])
  }

  // The indented print

  function LineStart(space: bytes, depth: nat): bytes {
    [0x0A] + Repeat(space, depth)
  }

  /** What is written for the next byte of the compact print. A line begins behind a bracket that opens
      and a comma, and in front of a bracket that closes, unless nothing is between the two brackets.
      It is indented once for every bracket that is open there. Behind a colon there is a blank. */
  function Laid(st: State, c: byte, space: bytes): bytes {
    if !st.Outside? then [c]
    else if Closes(c) then
      (if st.first || st.depth == 0 then [] else LineStart(space, st.depth - 1)) + [c]
    else
      (if st.first then LineStart(space, st.depth) else []) +
      (if c == 0x2C then [c] + LineStart(space, st.depth) else if c == 0x3A then [c, 0x20] else [c])
  }

  function LayOut(st: State, t: bytes, space: bytes): bytes
    decreases |t|
  {
    if t == [] then [] else Laid(st, t[0], space) + LayOut(Next(st, t[0]), t[1..], space)
  }

  // Texts one behind the other

  lemma {:induction false} BothRun(st: State, a: bytes, b: bytes, space: bytes)
    ensures Run(st, a + b) == Run(Run(st, a), b)
    ensures Tight(st, a + b) <==> Tight(st, a) && Tight(Run(st, a), b)
    ensures LayOut(st, a + b, space) == LayOut(st, a, space) + LayOut(Run(st, a), b, space)
    decreases |a|
  {
    if a == [] {
      assert a + b == b;
    } else {
      assert (a + b)[1..] == a[1..] + b;
      BothRun(Next(st, a[0]), a[1..], b, space);
      Assoc(Laid(st, a[0], space), LayOut(Next(st, a[0]), a[1..], space), LayOut(Run(st, a), b, space));
    }
  }

  lemma OneRuns(st: State, c: byte, space: bytes)
    ensures Run(st, [c]) == Next(st, c) && LayOut(st, [c], space) == Laid(st, c, space)
    ensures Tight(st, [c]) <==> (st.Outside? ==> !IsBlank(c))
  {
    assert [c][1..] == [];
    assert Laid(st, c, space) + [] == Laid(st, c, space);
  }

  /** The text is scanned from one state to another, with this layout and without blanks. */
  ghost predicate Scans(st: State, t: bytes, to: State, space: bytes, out: bytes) {
    Run(st, t) == to && Tight(st, t) && LayOut(st, t, space) == out
  }

  lemma ScansBoth(st: State, a: bytes, mid: State, b: bytes, to: State, space: bytes, x: bytes, y: bytes)
    requires Scans(st, a, mid, space, x) && Scans(mid, b, to, space, y)
    ensures Scans(st, a + b, to, space, x + y) == true
  {
    BothRun(st, a, b, space);
  }

  lemma ScansOne(st: State, c: byte, space: bytes)
    requires st.Outside? ==> !IsBlank(c)
    ensures Scans(st, [c], Next(st, c), space, Laid(st, c, space)) == true
  {
    OneRuns(st, c, space);
  }

  // Strings

  /** Bytes that mean nothing in a string. */
  predicate Inner(t: bytes) {
    forall k | 0 <= k < |t| :: t[k] != 0x22 && t[k] != 0x5C
  }

  lemma {:induction false} InnerScans(depth: nat, t: bytes, space: bytes)
    requires Inner(t)
    ensures Scans(InString(depth), t, InString(depth), space, t) == true
    decreases |t|
  {
    if t != [] {
      assert Inner(t[1..]) && t == [t[0]] + t[1..];
      InnerScans(depth, t[1..], space);
    }
  }

  lemma EscapeScans(depth: nat, c: byte, t: bytes, space: bytes)
    requires Inner(t)
    ensures Scans(InString(depth), [0x5C, c] + t, InString(depth), space, [0x5C, c] + t) == true
  {
    var st := InString(depth);
    ScansOne(st, 0x5C, space);
    ScansOne(Escaped(depth), c, space);
    ScansBoth(st, [0x5C], Escaped(depth), [c], st, space, [0x5C], [c]);
    assert [0x5C] + [c] == [0x5C, c];
    InnerScans(depth, t, space);
    ScansBoth(st, [0x5C, c], st, t, st, space, [0x5C, c], t);
  }

  lemma CharScans(depth: nat, ch: bytes, space: bytes)
    requires Utf8.Utf8Char(ch)
    ensures Scans(InString(depth), EmitChar(ch), InString(depth), space, EmitChar(ch)) == true
  {
    var t := EmitChar(ch);
    if EscapeLetter(ch[0]).Some? {
      EscapeScans(depth, t[1], [], space);
      assert [0x5C, t[1]] + [] == t;
    } else if ch[0] < 0x1F {
      EscapeScans(depth, LOWER_U, WriteHex16(ch[0]), space);
      assert [0x5C, LOWER_U] + WriteHex16(ch[0]) == t;
    } else {
      InnerScans(depth, ch, space);
    }
  }

  lemma {:induction false} CharsScan(depth: nat, str: bytes, space: bytes)
    requires Utf8.Text(str)
    ensures Scans(InString(depth), EmitChars(str), InString(depth), space, EmitChars(str)) == true
    decreases |str|
  {
    if str == [] {
    } else {
      var ch, rest := Utf8.FirstChar(str);
      assert str[..|ch|] == ch && str[|ch|..] == rest;
      CharScans(depth, ch, space);
      CharsScan(depth, rest, space);
      var st := InString(depth);
      ScansBoth(st, EmitChar(ch), st, EmitChars(rest), st, space, EmitChar(ch), EmitChars(rest));
    }
  }

  /** What stands in front of the first byte of a value. */
  function Front(st: State, space: bytes): bytes
    requires st.Outside?
  {
    if st.first then LineStart(space, st.depth) else []
  }

  lemma StringScans(st: State, str: bytes, space: bytes)
    requires st.Outside? && Utf8.Text(str)
    ensures Scans(st, EmitString(str), Outside(st.depth, false), space, Front(st, space) + EmitString(str)) == true
  {
    var d := st.depth;
    var t := EmitChars(str);
    ScansOne(st, 0x22, space);
    CharsScan(d, str, space);
    ScansOne(InString(d), 0x22, space);
    ScansBoth(InString(d), t, InString(d), [0x22], Outside(d, false), space, t, [0x22]);
    ScansBoth(st, [0x22], InString(d), t + [0x22], Outside(d, false), space, Front(st, space) + [0x22], t + [0x22]);
    Assoc(Front(st, space), [0x22], t + [0x22]);
  }

  // Literals and numbers

  /** Bytes that mean nothing outside of strings. */
  predicate Inert(t: bytes) {
    forall k | 0 <= k < |t| :: IsInert(t[k])
  }

  predicate IsInert(c: byte) {
    c != 0x22 && c != 0x2C && c != 0x3A && !IsBlank(c) && !Opens(c) && !Closes(c)
  }

  lemma {:induction false} InertScans(st: State, t: bytes, space: bytes)
    requires st.Outside? && Inert(t) && t != []
    ensures Scans(st, t, Outside(st.depth, false), space, Front(st, space) + t) == true
    decreases |t|
  {
    var st' := Outside(st.depth, false);
    ScansOne(st, t[0], space);
    if |t| == 1 {
      assert t == [t[0]];
    } else {
      assert Inert(t[1..]);
      InertScans(st', t[1..], space);
      ScansBoth(st, [t[0]], st', t[1..], st', space, Front(st, space) + [t[0]], t[1..]);
      assert [t[0]] + t[1..] == t;
      Assoc(Front(st, space), [t[0]], t[1..]);
    }
  }

  lemma InertBoth(a: bytes, b: bytes)
    requires Inert(a) && Inert(b)
    ensures Inert(a + b)
  {
  }

  lemma InertExponent(x: Option<Exponent>)
    requires x.Some? ==> NumberDerives(Number(false, [ZERO], None, x))
    ensures Inert(ExpText(x))
  {
    if x.Some? {
      InertBoth(x.value.sign, x.value.digits);
      InertBoth([x.value.e], x.value.sign + x.value.digits);
    }
  }

  lemma NumberIsInert(n: Number)
    requires NumberDerives(n)
    ensures Inert(NumberText(n)) && NumberText(n) != []
  {
    var frac, exp := FracText(n.frac), ExpText(n.exp);
    assert Inert(frac);
    InertExponent(n.exp);
    InertBoth(frac, exp);
    InertBoth(n.whole, frac + exp);
    InertBoth(if n.minus then [MINUS] else [], n.whole + (frac + exp));
  }

  lemma PrintedNumberIsInert(text: bytes)
    requires 0 !in text
    ensures Inert(EmitNumber(text)) && EmitNumber(text) != []
  {
    if NumberIsValid(text) {
      var n := JsonParsing.NumberSound(text, 0);
      AfterIsSlice(text, 0, NumberText(n));
      assert text[0..|text|] == text;
      NumberIsInert(n);
    }
  }

  // Values

  lemma {:induction false} ValueScans(st: State, v: Json, space: bytes)
    requires st.Outside? && Printable(v)
    ensures Scans(st, EmitValue(v), Outside(st.depth, false), space, Front(st, space) + EmitIndented(v, space, st.depth)) == true
    decreases v, 1
  {
    match v
    case Null => InertScans(st, NULL_TEXT, space);
    case Bool(b) => InertScans(st, if b then TRUE_TEXT else FALSE_TEXT, space);
    case Str(s) => StringScans(st, s, space);
    case Num(text) =>
      PrintedNumberIsInert(text);
      InertScans(st, EmitNumber(text), space);
    case Arr(elems) => ArrayScans(st, elems, space);
    case Obj(members) => ObjectScans(st, members, space);
  }

  lemma {:induction false} ArrayScans(st: State, es: seq<Json>, space: bytes)
    requires st.Outside? && Printable(Arr(es))
    ensures Scans(st, EmitValue(Arr(es)), Outside(st.depth, false), space, Front(st, space) + EmitIndented(Arr(es), space, st.depth)) == true
    decreases es, 1
  {
    if es == [] {
      EmptyScans(st, LBRACKET, RBRACKET, space);
      assert [LBRACKET] + ([] + [RBRACKET]) == [LBRACKET, RBRACKET];
    } else {
      var y := ElementsScan(Outside(st.depth + 1, true), es, space);
      Enclosed(st, LBRACKET, EmitElements(es), y, RBRACKET, IndentedElements(es, space, st.depth), space);
    }
  }

  lemma {:induction false} ObjectScans(st: State, ms: seq<Member>, space: bytes)
    requires st.Outside? && Printable(Obj(ms))
    ensures Scans(st, EmitValue(Obj(ms)), Outside(st.depth, false), space, Front(st, space) + EmitIndented(Obj(ms), space, st.depth)) == true
    decreases ms, 1
  {
    if ms == [] {
      EmptyScans(st, LBRACE, RBRACE, space);
      assert [LBRACE] + ([] + [RBRACE]) == [LBRACE, RBRACE];
    } else {
      var y := MembersScan(Outside(st.depth + 1, true), ms, space);
      Enclosed(st, LBRACE, EmitMembers(ms), y, RBRACE, IndentedMembers(ms, space, st.depth), space);
    }
  }

  lemma EmptyScans(st: State, open: byte, close: byte, space: bytes)
    requires st.Outside? && Opens(open) && Closes(close)
    ensures Scans(st, [open, close], Outside(st.depth, false), space, Front(st, space) + [open, close]) == true
  {
    ScansOne(st, open, space);
    ScansOne(Outside(st.depth + 1, true), close, space);
    ScansBoth(st, [open], Outside(st.depth + 1, true), [close], Outside(st.depth, false), space, Front(st, space) + [open], [close]);
    assert [open] + [close] == [open, close];
    Assoc(Front(st, space), [open], [close]);
  }

  /** Between two brackets: the lines `y`, the first of which begins behind the first bracket. */
  lemma Enclosed(st: State, open: byte, t: bytes, y: bytes, close: byte, lines: bytes, space: bytes)
    requires st.Outside? && Opens(open) && Closes(close)
    requires Scans(Outside(st.depth + 1, true), t, Outside(st.depth + 1, false), space, LineStart(space, st.depth + 1) + y)
    requires lines == Repeat(space, st.depth + 1) + (y + [NEWLINE])
    ensures Scans(st, [open] + (t + [close]), Outside(st.depth, false), space,
      Front(st, space) + ([open] + ([NEWLINE] + (lines + (Repeat(space, st.depth) + [close]))))) == true
  {
    var inner, last := Outside(st.depth + 1, true), Outside(st.depth + 1, false);
    var x, z := LineStart(space, st.depth + 1) + y, LineStart(space, st.depth) + [close];
    ScansOne(st, open, space);
    ScansOne(last, close, space);
    ScansBoth(inner, t, last, [close], Outside(st.depth, false), space, x, z);
    ScansBoth(st, [open], inner, t + [close], Outside(st.depth, false), space, Front(st, space) + [open], x + z);
    Assoc(Front(st, space), [open], x + z);
    LinesBetween(Repeat(space, st.depth + 1), y, [NEWLINE], Repeat(space, st.depth), [close]);
  }

  lemma LinesBetween(in1: bytes, y: bytes, nl: bytes, in0: bytes, close: bytes)
    ensures nl + in1 + y + (nl + in0 + close) == nl + (in1 + (y + nl) + (in0 + close))
  {
  }

  /** The elements, without the indentation of the first one and the end of the last line. */
  lemma {:induction false} ElementsScan(st: State, es: seq<Json>, space: bytes) returns (y: bytes)
    requires st.Outside? && st.depth > 0 && es != [] && forall e <- es :: Printable(e)
    ensures Scans(st, EmitElements(es), Outside(st.depth, false), space, Front(st, space) + y) == true
    ensures IndentedElements(es, space, st.depth - 1) == Repeat(space, st.depth) + (y + [NEWLINE])
    decreases es, 0
  {
    var x := EmitIndented(es[0], space, st.depth);
    ValueScans(st, es[0], space);
    if |es| == 1 {
      y := x;
    } else {
      var z := ElementsScan(Outside(st.depth, false), es[1..], space);
      y := x + ([COMMA] + LineStart(space, st.depth) + z);
      Continued(st, EmitValue(es[0]), x, EmitElements(es[1..]), z, space);
      NextLine(Repeat(space, st.depth), x, COMMA, z);
    }
  }

  /** An item, a comma, and the rest on the next line. */
  lemma Continued(st: State, a: bytes, x: bytes, b: bytes, z: bytes, space: bytes)
    requires st.Outside? && Scans(st, a, Outside(st.depth, false), space, Front(st, space) + x)
    requires Scans(Outside(st.depth, false), b, Outside(st.depth, false), space, z)
    ensures Scans(st, a + ([COMMA] + b), Outside(st.depth, false), space,
      Front(st, space) + (x + ([COMMA] + LineStart(space, st.depth) + z))) == true
  {
    var mid := Outside(st.depth, false);
    ScansOne(mid, COMMA, space);
    ScansBoth(mid, [COMMA], mid, b, mid, space, [COMMA] + LineStart(space, st.depth), z);
    ScansBoth(st, a, mid, [COMMA] + b, mid, space, Front(st, space) + x, [COMMA] + LineStart(space, st.depth) + z);
    Assoc(Front(st, space), x, [COMMA] + LineStart(space, st.depth) + z);
  }

  lemma NextLine(indent: bytes, x: bytes, comma: byte, z: bytes)
    ensures indent + (x + ([comma, NEWLINE] + (indent + (z + [NEWLINE]))))
         == indent + (x + ([comma] + ([NEWLINE] + indent) + z) + [NEWLINE])
  {
  }

  lemma {:induction false} MembersScan(st: State, ms: seq<Member>, space: bytes) returns (y: bytes)
    requires st.Outside? && st.depth > 0 && ms != [] && forall m <- ms :: Utf8.Text(m.key) && Printable(m.value)
    ensures Scans(st, EmitMembers(ms), Outside(st.depth, false), space, Front(st, space) + y) == true
    ensures IndentedMembers(ms, space, st.depth - 1) == Repeat(space, st.depth) + (y + [NEWLINE])
    decreases ms, 0
  {
    var x := IndentedMember(ms[0], space, st.depth);
    MemberScans(st, ms[0], space);
    if |ms| == 1 {
      y := x;
    } else {
      var z := MembersScan(Outside(st.depth, false), ms[1..], space);
      y := x + ([COMMA] + LineStart(space, st.depth) + z);
      Continued(st, EmitMember(ms[0]), x, EmitMembers(ms[1..]), z, space);
      NextLine(Repeat(space, st.depth), x, COMMA, z);
    }
  }

  lemma {:induction false} MemberScans(st: State, m: Member, space: bytes)
    requires st.Outside? && Utf8.Text(m.key) && Printable(m.value)
    ensures Scans(st, EmitMember(m), Outside(st.depth, false), space, Front(st, space) + IndentedMember(m, space, st.depth)) == true
    decreases m, 2
  {
    var mid, x := Outside(st.depth, false), EmitIndented(m.value, space, st.depth);
    StringScans(st, m.key, space);
    ScansOne(mid, COLON, space);
    ValueScans(mid, m.value, space);
    ScansBoth(mid, [COLON], mid, EmitValue(m.value), mid, space, [COLON, 0x20], x);
    ScansBoth(st, EmitString(m.key), mid, [COLON] + EmitValue(m.value), mid, space,
              Front(st, space) + EmitString(m.key), [COLON, 0x20] + x);
    Assoc(Front(st, space), EmitString(m.key), [COLON, 0x20] + x);
  }

  // The main results

  /** The compact print has no blank outside of strings, and leaves no bracket or string open. */
  lemma CompactIsTight(v: Json)
    requires Printable(v)
    ensures Tight(Outside(0, false), EmitValue(v)) && Run(Outside(0, false), EmitValue(v)) == Outside(0, false)
  {
    ValueScans(Outside(0, false), v, []);
  }

  /** The indented print is the compact one with the lines, indentations and blanks that the rules of
      the layout put in, whatever C string is used for indenting. */
  lemma IndentedIsLaidOut(v: Json, space: bytes)
    requires Printable(v)
    ensures EmitIndented(v, space, 0) == LayOut(Outside(0, false), EmitValue(v), space)
  {
    ValueScans(Outside(0, false), v, space);
    assert [] + EmitIndented(v, space, 0) == EmitIndented(v, space, 0);
  }
}
