/** The parser accepts exactly the texts of the grammar and gives them their meaning. */
module JsonParsing {
  import opened Bytes
  import opened JsonGrammar
  import opened JsonSyntax
  import Utf8

  // Blanks and digits

  lemma {:induction false} SkipSpaceFinds(s: bytes, i: nat, w: bytes, j: nat)
    requires Spaces(w) && After(s, i, w) == Some(j) && !IsSpace(At(s, j))
    ensures SkipSpace(s, i) == j
    decreases |w|
  {
    if w != [] {
      SkipSpaceFinds(s, i + 1, w[1..], j);
    }
  }

  lemma {:induction false} SkippedAreSpaces(s: bytes, i: nat)
    requires i <= |s|
    ensures forall k | i <= k < SkipSpace(s, i) :: IsSpace(s[k])
    ensures !IsSpace(At(s, SkipSpace(s, i)))
    decreases |s| - i
  {
    if IsSpace(At(s, i)) {
      SkippedAreSpaces(s, i + 1);
    }
  }

  lemma SkipSpaceSound(s: bytes, i: nat) returns (w: bytes)
    requires i <= |s|
    ensures Spaces(w) && After(s, i, w) == Some(SkipSpace(s, i))
  {
    SkippedAreSpaces(s, i);
    w := s[i..SkipSpace(s, i)];
    AfterSelf(s, i, SkipSpace(s, i));
  }

  lemma {:induction false} SkipDigitsFinds(s: bytes, i: nat, d: bytes, j: nat)
    requires forall k | 0 <= k < |d| :: IsDigit(d[k])
    requires After(s, i, d) == Some(j) && !IsDigit(At(s, j))
    ensures SkipDigits(s, i) == j
    decreases |d|
  {
    if d != [] {
      SkipDigitsFinds(s, i + 1, d[1..], j);
    }
  }

  lemma {:induction false} SkippedAreDigits(s: bytes, i: nat)
    requires i <= |s|
    ensures forall k | i <= k < SkipDigits(s, i) :: IsDigit(s[k])
    decreases |s| - i
  {
    if IsDigit(At(s, i)) {
      SkippedAreDigits(s, i + 1);
    }
  }

  lemma SkipDigitsSound(s: bytes, i: nat) returns (d: bytes)
    requires i <= |s| && IsDigit(At(s, i))
    ensures Digits(d) && After(s, i, d) == Some(SkipDigits(s, i)) && d[0] == s[i]
  {
    SkippedAreDigits(s, i);
    d := s[i..SkipDigits(s, i)];
    AfterSelf(s, i, SkipDigits(s, i));
  }

  // Numbers

  /** A byte that cannot carry on a number. */
  predicate EndsNumber(c: byte) {
    !IsDigit(c) && c != DOT && c != 0x45 && c != 0x65
  }

  predicate WholeDerives(w: bytes) {
    w == [ZERO] || (Digits(w) && w[0] != ZERO)
  }

  lemma WholeComplete(s: bytes, i: nat, w: bytes, j: nat)
    requires WholeDerives(w) && After(s, i, w) == Some(j) && !IsDigit(At(s, j))
    ensures WholeEnd(s, i) == Some(j)
  {
    if w != [ZERO] {
      SkipDigitsFinds(s, i, w, j);
    }
  }

  lemma FracComplete(s: bytes, i: nat, f: Option<bytes>, j: nat)
    requires f.Some? ==> Digits(f.value)
    requires After(s, i, FracText(f)) == Some(j) && !IsDigit(At(s, j)) && At(s, j) != DOT
    ensures FracEnd(s, i) == Some(j)
  {
    if f.Some? {
      var k := Split(s, i, [DOT], f.value);
      SkipDigitsFinds(s, k, f.value, j);
    }
  }

  predicate ExponentDerives(x: Exponent) {
    && (x.e == 0x45 || x.e == 0x65)
    && (x.sign == [] || x.sign == [PLUS] || x.sign == [MINUS])
    && Digits(x.digits)
  }

  lemma ExpComplete(s: bytes, i: nat, x: Option<Exponent>, j: nat)
    requires x.Some? ==> ExponentDerives(x.value)
    requires After(s, i, ExpText(x)) == Some(j) && EndsNumber(At(s, j))
    ensures ExpEnd(s, i) == Some(j)
  {
    if x.Some? {
      var Exponent(e, sign, digits) := x.value;
      var k := Split(s, i, [e], sign + digits);
      var l := Split(s, k, sign, digits);
      SkipDigitsFinds(s, l, digits, j);
    }
  }

  lemma NumberComplete(s: bytes, i: nat, n: Number, j: nat)
    requires NumberDerives(n) && After(s, i, NumberText(n)) == Some(j) && EndsNumber(At(s, j))
    ensures ParseNumber(s, i) == Ok(NumberText(n), j)
  {
    var m: bytes := if n.minus then [MINUS] else [];
    var a := Split(s, i, m, n.whole + (FracText(n.frac) + ExpText(n.exp)));
    var b := Split(s, a, n.whole, FracText(n.frac) + ExpText(n.exp));
    var c := Split(s, b, FracText(n.frac), ExpText(n.exp));
    assert a == if At(s, i) == MINUS then i + 1 else i;
    NumberPartsComplete(s, a, n, b, c, j);
    AfterIsSlice(s, i, NumberText(n));
  }

  lemma NumberPartsComplete(s: bytes, a: nat, n: Number, b: nat, c: nat, d: nat)
    requires NumberDerives(n)
    requires After(s, a, n.whole) == Some(b) && After(s, b, FracText(n.frac)) == Some(c)
    requires After(s, c, ExpText(n.exp)) == Some(d) && EndsNumber(At(s, d))
    ensures WholeEnd(s, a) == Some(b) && FracEnd(s, b) == Some(c) && ExpEnd(s, c) == Some(d)
  {
    ExpComplete(s, c, n.exp, d);
    FracComplete(s, b, n.frac, c);
    WholeComplete(s, a, n.whole, b);
  }

  lemma WholeSound(s: bytes, i: nat) returns (w: bytes)
    requires i <= |s| && WholeEnd(s, i).Some?
    ensures WholeDerives(w) && After(s, i, w) == WholeEnd(s, i)
  {
    if At(s, i) == ZERO {
      w := [ZERO];
    } else {
      w := SkipDigitsSound(s, i);
    }
  }

  lemma FracSound(s: bytes, i: nat) returns (f: Option<bytes>)
    requires i <= |s| && FracEnd(s, i).Some?
    ensures f.Some? ==> Digits(f.value)
    ensures After(s, i, FracText(f)) == FracEnd(s, i)
  {
    if At(s, i) != DOT {
      f := None;
    } else {
      var d := SkipDigitsSound(s, i + 1);
      f := Some(d);
      AfterBoth(s, i, [DOT], d);
    }
  }

  lemma ExpSound(s: bytes, i: nat) returns (x: Option<Exponent>)
    requires i <= |s| && ExpEnd(s, i).Some?
    ensures x.Some? ==> ExponentDerives(x.value)
    ensures After(s, i, ExpText(x)) == ExpEnd(s, i)
  {
    if At(s, i) != 0x45 && At(s, i) != 0x65 {
      x := None;
    } else {
      var signed := At(s, i + 1) == PLUS || At(s, i + 1) == MINUS;
      var sign: bytes := if signed then [s[i + 1]] else [];
      var d := SkipDigitsSound(s, i + 1 + |sign|);
      x := Some(Exponent(s[i], sign, d));
      AfterBoth(s, i + 1, sign, d);
      AfterBoth(s, i, [s[i]], sign + d);
    }
  }

  lemma NumberSound(s: bytes, i: nat) returns (n: Number)
    requires i <= |s| && ParseNumber(s, i).Ok?
    ensures NumberDerives(n) && NumberText(n) == ParseNumber(s, i).value
    ensures After(s, i, NumberText(n)) == Some(ParseNumber(s, i).end)
  {
    var minus := At(s, i) == MINUS;
    var m: bytes := if minus then [MINUS] else [];
    var a := i + |m|;
    var w := WholeSound(s, a);
    var b := WholeEnd(s, a).value;
    var f := FracSound(s, b);
    var c := FracEnd(s, b).value;
    var x := ExpSound(s, c);
    n := Number(minus, w, f, x);
    JoinThree(s, i, m, a, w, b, FracText(f), c, ExpText(x));
    AfterIsSlice(s, i, NumberText(n));
  }

  // Strings

  lemma UnicodeComplete(s: bytes, i: nat, h: bytes, j: nat)
    requires Hex16(h) && After(s, i, UnicodeText(h)) == Some(j)
    ensures At(s, i) == BACKSLASH && At(s, i + 1) == LOWER_U && ParseHex16(s, i + 2) == Ok(Hex16Value(h), j)
  {
    AfterCons(s, i, BACKSLASH, [LOWER_U] + h);
    AfterCons(s, i + 1, LOWER_U, h);
    AfterIsSlice(s, i + 2, h);
  }

  lemma UnicodeSound(s: bytes, i: nat) returns (h: bytes)
    requires i + 2 <= |s| && s[i] == BACKSLASH && s[i + 1] == LOWER_U && ParseHex16(s, i + 2).Ok?
    ensures Hex16(h) && Hex16Value(h) == ParseHex16(s, i + 2).value && After(s, i, UnicodeText(h)) == Some(i + 6)
  {
    h := s[i + 2..i + 6];
    AfterSelf(s, i + 2, i + 6);
    AfterCons(s, i + 1, LOWER_U, h);
    AfterCons(s, i, BACKSLASH, [LOWER_U] + h);
  }

  lemma PairValue(h: nat, l: nat)
    requires Utf8.HighSurrogate(h) && Utf8.LowSurrogate(l)
    ensures Utf8.FromSurrogatePair(h, l) == Some(PairMeaning(h, l))
  {
    assert h % 0x400 == h - 0xD800 && l % 0x400 == l - 0xDC00;
  }

  lemma ShortComplete(s: bytes, i: nat, c: byte, j: nat)
    requires ShortEscape(c).Some? && After(s, i, [BACKSLASH, c]) == Some(j)
    ensures ParseChar(s, i) == Ok([ShortEscape(c).value], j)
  {
    assert [BACKSLASH, c] == [BACKSLASH] + [c];
    AfterCons(s, i, BACKSLASH, [c]);
    AfterByte(s, i + 1, c);
  }

  lemma PairComplete(s: bytes, i: nat, h: bytes, l: bytes, j: nat)
    requires ItemDerives(Pair(h, l)) && After(s, i, UnicodeText(h) + UnicodeText(l)) == Some(j)
    ensures ParseChar(s, i) == Ok(ItemMeaning(Pair(h, l)), j)
  {
    var p := Split(s, i, UnicodeText(h), UnicodeText(l));
    UnicodeComplete(s, i, h, p);
    UnicodeComplete(s, p, l, j);
    PairValue(Hex16Value(h), Hex16Value(l));
  }

  lemma ItemComplete(s: bytes, i: nat, it: Item, j: nat)
    requires ItemDerives(it) && After(s, i, ItemText(it)) == Some(j)
    ensures ParseChar(s, i) == Ok(ItemMeaning(it), j) && At(s, i) != QUOTE
  {
    match it
    case Raw(ch) =>
      AfterIsSlice(s, i, ch);
      Utf8.ValidateIsRfc3629(s, i, |ch|);
    case Short(c) =>
      ShortComplete(s, i, c, j);
    case Unicode(h) =>
      UnicodeComplete(s, i, h, j);
    case Pair(h, l) =>
      PairComplete(s, i, h, l, j);
  }

  lemma {:induction false} CharsComplete(s: bytes, i: nat, items: seq<Item>, j: nat)
    requires StringDerives(items) && After(s, i, ItemsText(items)) == Some(j) && At(s, j) == QUOTE
    ensures ParseChars(s, i) == Ok(StringMeaning(items), j + 1)
    decreases |items|
  {
    if items != [] {
      var k := Split(s, i, ItemText(items[0]), ItemsText(items[1..]));
      ItemComplete(s, i, items[0], k);
      CharsComplete(s, k, items[1..], j);
    }
  }

  lemma StringComplete(s: bytes, i: nat, items: seq<Item>, j: nat)
    requires StringDerives(items) && After(s, i, StringText(items)) == Some(j)
    ensures ParseString(s, i) == Ok(StringMeaning(items), j)
  {
    AfterCons(s, i, QUOTE, ItemsText(items) + [QUOTE]);
    var k := Split(s, i + 1, ItemsText(items), [QUOTE]);
    AfterByte(s, k, QUOTE);
    CharsComplete(s, i + 1, items, k);
  }

  lemma EscapeSound(s: bytes, i: nat) returns (it: Item)
    requires i < |s| && s[i] == BACKSLASH && ParseEscape(s, i + 1).Ok?
    ensures ItemDerives(it) && ItemMeaning(it) == ParseEscape(s, i + 1).value
    ensures After(s, i, ItemText(it)) == Some(ParseEscape(s, i + 1).end)
  {
    var c := At(s, i + 1);
    if ShortEscape(c).Some? {
      it := Short(c);
      assert [BACKSLASH, c] == [BACKSLASH] + [c];
      AfterByte(s, i + 1, c);
      AfterCons(s, i, BACKSLASH, [c]);
    } else {
      var h := UnicodeSound(s, i);
      var uc := Hex16Value(h);
      if uc >= 0xD800 && uc <= 0xDFFF {
        var l := UnicodeSound(s, i + 6);
        it := Pair(h, l);
        PairValue(uc, Hex16Value(l));
        AfterBoth(s, i, UnicodeText(h), UnicodeText(l));
      } else {
        it := Unicode(h);
      }
    }
  }

  lemma ItemSound(s: bytes, i: nat) returns (it: Item)
    requires i <= |s| && ParseChar(s, i).Ok? && At(s, i) != QUOTE
    ensures ItemDerives(it) && ItemMeaning(it) == ParseChar(s, i).value
    ensures After(s, i, ItemText(it)) == Some(ParseChar(s, i).end)
  {
    if At(s, i) == BACKSLASH {
      it := EscapeSound(s, i);
    } else {
      Utf8.ValidateStaysInside(s, i);
      Utf8.ValidateIsRfc3629(s, i, Utf8.ValidateCz(s, i));
      it := Raw(ParseChar(s, i).value);
      AfterSelf(s, i, ParseChar(s, i).end);
    }
  }

  lemma {:induction false} CharsSound(s: bytes, i: nat) returns (items: seq<Item>, j: nat)
    requires i <= |s| && ParseChars(s, i).Ok?
    ensures StringDerives(items) && ParseChars(s, i) == Ok(StringMeaning(items), j + 1)
    ensures After(s, i, ItemsText(items)) == Some(j) && At(s, j) == QUOTE
    decreases |s| - i
  {
    if At(s, i) == QUOTE {
      items, j := [], i;
    } else {
      var it := ItemSound(s, i);
      var rest;
      rest, j := CharsSound(s, ParseChar(s, i).end);
      items := [it] + rest;
      assert items[1..] == rest;
      AfterBoth(s, i, ItemText(it), ItemsText(rest));
    }
  }

  lemma StringSound(s: bytes, i: nat) returns (items: seq<Item>)
    requires i <= |s| && ParseString(s, i).Ok?
    ensures StringDerives(items) && StringMeaning(items) == ParseString(s, i).value
    ensures After(s, i, StringText(items)) == Some(ParseString(s, i).end)
  {
    var j;
    items, j := CharsSound(s, i + 1);
    AfterByte(s, j, QUOTE);
    AfterBoth(s, i + 1, ItemsText(items), [QUOTE]);
    AfterCons(s, i, QUOTE, ItemsText(items) + [QUOTE]);
  }

  /** What a string means is NUL-free UTF-8. */
  lemma {:induction false} StringMeansText(items: seq<Item>)
    requires StringDerives(items)
    ensures Utf8.Text(StringMeaning(items))
  {
    if items != [] {
      ItemMeansText(items[0]);
      StringMeansText(items[1..]);
      Utf8.TextAppend(ItemMeaning(items[0]), StringMeaning(items[1..]));
    }
  }

  lemma ItemMeansText(it: Item)
    requires ItemDerives(it)
    ensures Utf8.Text(ItemMeaning(it))
  {
    match it
    case Raw(ch) => Utf8.CharIsText(ch);
    case Short(c) => Utf8.CharIsText([ShortEscape(c).value]);
    case Unicode(h) => Utf8.WrittenCharIsText(Hex16Value(h));
    case Pair(h, l) => Utf8.WrittenCharIsText(PairMeaning(Hex16Value(h), Hex16Value(l)));
  }

  // Values

  /** The first byte of a value, by which `parse_value` tells the kinds apart. */
  predicate Starts(t: Value, c: byte) {
    match t
    case NullV => c == 0x6E
    case TrueV => c == 0x74
    case FalseV => c == 0x66
    case StringV(_) => c == QUOTE
    case NumberV(_) => c == MINUS || IsDigit(c)
    case EmptyArrayV(_) => c == LBRACKET
    case ArrayV(_) => c == LBRACKET
    case EmptyObjectV(_) => c == LBRACE
    case ObjectV(_) => c == LBRACE
  }

  lemma ValueStarts(t: Value)
    requires ValueDerives(t)
    ensures ValueText(t) != [] && Starts(t, ValueText(t)[0])
  {
    if t.NumberV? {
      var n := t.number;
      assert NumberText(n)[0] == if n.minus then MINUS else n.whole[0];
    }
  }

  /** Blanks and then a byte that is none: the cursor stops at that byte. */
  lemma SpacesThen(s: bytes, i: nat, w: bytes, t: bytes) returns (j: nat)
    requires Spaces(w) && t != [] && !IsSpace(t[0]) && After(s, i, w + t).Some?
    ensures After(s, i, w) == Some(j) && After(s, j, t) == After(s, i, w + t)
    ensures SkipSpace(s, i) == j && At(s, j) == t[0]
    ensures At(s, i) == if w == [] then t[0] else w[0]
  {
    j := Split(s, i, w, t);
    SkipSpaceFinds(s, i, w, j);
  }

  /** An item between blanks, and then the byte that separates or closes. */
  lemma SpacedItem(s: bytes, i: nat, w: bytes, v: bytes, a: bytes, last: bytes) returns (p: nat, q: nat, r: nat)
    requires Spaces(w) && v != [] && !IsSpace(v[0])
    requires Spaces(a) && last != [] && !IsSpace(last[0]) && EndsNumber(last[0])
    requires After(s, i, w + (v + (a + last))).Some?
    ensures SkipSpace(s, i) == p && After(s, p, v) == Some(q) && At(s, p) == v[0] && EndsNumber(At(s, q))
    ensures SkipSpace(s, q) == r && After(s, r, last) == After(s, i, w + (v + (a + last)))
  {
    p := SpacesThen(s, i, w, v + (a + last));
    q := Split(s, p, v, a + last);
    r := SpacesThen(s, q, a, last);
  }

  lemma {:induction false} ValueComplete(s: bytes, i: nat, t: Value, j: nat)
    requires ValueDerives(t) && After(s, i, ValueText(t)) == Some(j) && EndsNumber(At(s, j))
    ensures ParseValue(s, i) == Ok(ValueMeaning(t), j)
    decreases t
  {
    ValueStarts(t);
    assert Starts(t, At(s, i));
    match t
    case NullV =>
    case TrueV =>
    case FalseV =>
    case StringV(items) =>
      StringComplete(s, i, items, j);
    case NumberV(n) =>
      NumberComplete(s, i, n, j);
    case EmptyArrayV(w) =>
      AfterCons(s, i, LBRACKET, w + [RBRACKET]);
      var k := SpacesThen(s, i + 1, w, [RBRACKET]);
      AfterByte(s, k, RBRACKET);
    case ArrayV(e) =>
      AfterCons(s, i, LBRACKET, ElementsText(e));
      ElementsComplete(s, i + 1, e, j);
    case EmptyObjectV(w) =>
      AfterCons(s, i, LBRACE, w + [RBRACE]);
      var k := SpacesThen(s, i + 1, w, [RBRACE]);
      AfterByte(s, k, RBRACE);
    case ObjectV(m) =>
      AfterCons(s, i, LBRACE, MembersText(m));
      MembersComplete(s, i + 1, m, j);
  }

  lemma ElementsStep(s: bytes, p: nat, q: nat, r: nat)
    requires p <= |s| && ParseValue(s, p).Ok? && ParseValue(s, p).end == q && SkipSpace(s, q) == r
    ensures At(s, r) == RBRACKET ==>
      var a := ParseElements(s, p);
      a.Ok? && a.end == r + 1 && a.value == [ParseValue(s, p).value]
    ensures At(s, r) == COMMA && ParseElements(s, SkipSpace(s, r + 1)).Ok? ==>
      var a, rest := ParseElements(s, p), ParseElements(s, SkipSpace(s, r + 1));
      a.Ok? && a.end == rest.end && a.value == [ParseValue(s, p).value] + rest.value
  {
  }

  lemma {:induction false} ElementsComplete(s: bytes, i: nat, e: Elements, j: nat)
    requires ElementsDerive(e) && After(s, i, ElementsText(e)) == Some(j)
    ensures At(s, SkipSpace(s, i)) != RBRACKET
    ensures ParseElements(s, SkipSpace(s, i)) == Ok(ElementsMeaning(e), j)
    decreases e
  {
    ValueStarts(e.value);
    var p, q, r := SpacedItem(s, i, e.before, ValueText(e.value), e.after, MoreElementsText(e.rest));
    ValueComplete(s, p, e.value, q);
    ElementsStep(s, p, q, r);
    match e.rest
    case NoElements =>
      AfterByte(s, r, RBRACKET);
    case CommaElements(rest) =>
      AfterCons(s, r, COMMA, ElementsText(rest));
      ElementsComplete(s, r + 1, rest, j);
  }

  lemma MembersStep(s: bytes, p: nat, q: nat, r: nat)
    requires p <= |s| && ParseMember(s, p).Ok? && ParseMember(s, p).end == q && SkipSpace(s, q) == r
    ensures At(s, r) == RBRACE ==>
      var a := ParseMembers(s, p);
      a.Ok? && a.end == r + 1 && a.value == [ParseMember(s, p).value]
    ensures At(s, r) == COMMA && ParseMembers(s, SkipSpace(s, r + 1)).Ok? ==>
      var a, rest := ParseMembers(s, p), ParseMembers(s, SkipSpace(s, r + 1));
      a.Ok? && a.end == rest.end && a.value == [ParseMember(s, p).value] + rest.value
  {
  }

  lemma {:induction false} MembersComplete(s: bytes, i: nat, m: Members, j: nat)
    requires MembersDerive(m) && After(s, i, MembersText(m)) == Some(j)
    ensures At(s, SkipSpace(s, i)) != RBRACE
    ensures ParseMembers(s, SkipSpace(s, i)) == Ok(MembersMeaning(m), j)
    decreases m
  {
    var p, q, r := SpacedItem(s, i, m.before, KeyValueText(m.pair), m.after, MoreMembersText(m.rest));
    KeyValueComplete(s, p, m.pair, q);
    MembersStep(s, p, q, r);
    match m.rest
    case NoMembers =>
      AfterByte(s, r, RBRACE);
    case CommaMembers(rest) =>
      AfterCons(s, r, COMMA, MembersText(rest));
      MembersComplete(s, r + 1, rest, j);
  }

  lemma {:induction false} KeyValueComplete(s: bytes, i: nat, p: KeyValue, j: nat)
    requires KeyValueDerives(p) && After(s, i, KeyValueText(p)) == Some(j) && EndsNumber(At(s, j))
    ensures ParseMember(s, i) == Ok(KeyValueMeaning(p), j)
    decreases p
  {
    var value := p.postColon + ValueText(p.value);
    ValueStarts(p.value);
    var k := Split(s, i, StringText(p.key), p.preColon + ([COLON] + value));
    StringComplete(s, i, p.key, k);
    var l := SpacesThen(s, k, p.preColon, [COLON] + value);
    AfterCons(s, l, COLON, value);
    var m := SpacesThen(s, l + 1, p.postColon, ValueText(p.value));
    ValueComplete(s, m, p.value, j);
  }

  lemma {:induction false} ValueSound(s: bytes, i: nat) returns (t: Value)
    requires i <= |s| && ParseValue(s, i).Ok?
    ensures ValueDerives(t) && ValueMeaning(t) == ParseValue(s, i).value
    ensures After(s, i, ValueText(t)) == Some(ParseValue(s, i).end)
    decreases |s| - i, 1
  {
    var c := At(s, i);
    if c == 0x6E {
      t := NullV;
    } else if c == 0x66 {
      t := FalseV;
    } else if c == 0x74 {
      t := TrueV;
    } else if c == QUOTE {
      var items := StringSound(s, i);
      t := StringV(items);
    } else if c == LBRACKET {
      t := ArraySound(s, i);
    } else if c == LBRACE {
      t := ObjectSound(s, i);
    } else {
      var n := NumberSound(s, i);
      t := NumberV(n);
    }
  }

  lemma {:induction false} ArraySound(s: bytes, i: nat) returns (t: Value)
    requires i <= |s| && ParseArray(s, i).Ok?
    ensures ValueDerives(t) && ValueMeaning(t) == ParseArray(s, i).value
    ensures After(s, i, ValueText(t)) == Some(ParseArray(s, i).end)
    decreases |s| - i, 0
  {
    var w := SkipSpaceSound(s, i + 1);
    var j := SkipSpace(s, i + 1);
    if At(s, j) == RBRACKET {
      t := EmptyArrayV(w);
      AfterByte(s, j, RBRACKET);
      AfterBoth(s, i + 1, w, [RBRACKET]);
      AfterCons(s, i, LBRACKET, w + [RBRACKET]);
    } else {
      var e := ElementsSound(s, i + 1, w, j);
      t := ArrayV(e);
      AfterCons(s, i, LBRACKET, ElementsText(e));
    }
  }

  lemma {:induction false} ElementsSound(s: bytes, i: nat, w: bytes, j: nat) returns (e: Elements)
    requires Spaces(w) && After(s, i, w) == Some(j) && ParseElements(s, j).Ok?
    ensures ElementsDerive(e) && ElementsMeaning(e) == ParseElements(s, j).value
    ensures After(s, i, ElementsText(e)) == Some(ParseElements(s, j).end)
    decreases |s| - j, 2
  {
    var v := ValueSound(s, j);
    var p := ParseValue(s, j).end;
    var after := SkipSpaceSound(s, p);
    var q := SkipSpace(s, p);
    var more := NoElements;
    if At(s, q) == RBRACKET {
      AfterByte(s, q, RBRACKET);
    } else {
      var before := SkipSpaceSound(s, q + 1);
      var rest := ElementsSound(s, q + 1, before, SkipSpace(s, q + 1));
      more := CommaElements(rest);
      AfterCons(s, q, COMMA, ElementsText(rest));
    }
    e := Elements(w, v, after, more);
    JoinThree(s, i, w, j, ValueText(v), p, after, q, MoreElementsText(more));
  }

  lemma {:induction false} ObjectSound(s: bytes, i: nat) returns (t: Value)
    requires i <= |s| && ParseObject(s, i).Ok?
    ensures ValueDerives(t) && ValueMeaning(t) == ParseObject(s, i).value
    ensures After(s, i, ValueText(t)) == Some(ParseObject(s, i).end)
    decreases |s| - i, 0
  {
    var w := SkipSpaceSound(s, i + 1);
    var j := SkipSpace(s, i + 1);
    if At(s, j) == RBRACE {
      t := EmptyObjectV(w);
      AfterByte(s, j, RBRACE);
      AfterBoth(s, i + 1, w, [RBRACE]);
      AfterCons(s, i, LBRACE, w + [RBRACE]);
    } else {
      var m := MembersSound(s, i + 1, w, j);
      t := ObjectV(m);
      AfterCons(s, i, LBRACE, MembersText(m));
    }
  }

  lemma {:induction false} MembersSound(s: bytes, i: nat, w: bytes, j: nat) returns (m: Members)
    requires Spaces(w) && After(s, i, w) == Some(j) && ParseMembers(s, j).Ok?
    ensures MembersDerive(m) && MembersMeaning(m) == ParseMembers(s, j).value
    ensures After(s, i, MembersText(m)) == Some(ParseMembers(s, j).end)
    decreases |s| - j, 2
  {
    var v := KeyValueSound(s, j);
    var p := ParseMember(s, j).end;
    var after := SkipSpaceSound(s, p);
    var q := SkipSpace(s, p);
    var more := NoMembers;
    if At(s, q) == RBRACE {
      AfterByte(s, q, RBRACE);
    } else {
      var before := SkipSpaceSound(s, q + 1);
      var rest := MembersSound(s, q + 1, before, SkipSpace(s, q + 1));
      more := CommaMembers(rest);
      AfterCons(s, q, COMMA, MembersText(rest));
    }
    m := Members(w, v, after, more);
    JoinThree(s, i, w, j, KeyValueText(v), p, after, q, MoreMembersText(more));
  }

  lemma {:induction false} KeyValueSound(s: bytes, i: nat) returns (p: KeyValue)
    requires i <= |s| && ParseMember(s, i).Ok?
    ensures KeyValueDerives(p) && KeyValueMeaning(p) == ParseMember(s, i).value
    ensures After(s, i, KeyValueText(p)) == Some(ParseMember(s, i).end)
    decreases |s| - i, 0
  {
    var key := StringSound(s, i);
    var j := ParseString(s, i).end;
    var preColon := SkipSpaceSound(s, j);
    var k := SkipSpace(s, j);
    var postColon := SkipSpaceSound(s, k + 1);
    var l := SkipSpace(s, k + 1);
    var v := ValueSound(s, l);
    p := KeyValue(key, preColon, postColon, v);
    AfterByte(s, k, COLON);
    Join(s, k + 1, postColon, l, ValueText(v));
    JoinThree(s, i, StringText(key), j, preColon, k, [COLON], k + 1, postColon + ValueText(v));
  }

  // Documents

  lemma AfterAll(s: bytes)
    ensures After(s, 0, s) == Some(|s|)
  {
    AfterSelf(s, 0, |s|);
    assert s[0..|s|] == s;
  }

  lemma DocumentComplete(s: bytes, d: Document)
    requires DocumentDerives(d) && DocumentText(d) == s && 0 !in s
    ensures Decode(s) == Some(ValueMeaning(d.value))
  {
    var v := ValueText(d.value);
    AfterAll(s);
    ValueStarts(d.value);
    var i := SpacesThen(s, 0, d.before, v + d.after);
    var j := Split(s, i, v, d.after);
    ValueComplete(s, i, d.value, j);
    SkipSpaceFinds(s, j, d.after, |s|);
  }

  lemma DocumentSound(s: bytes) returns (d: Document)
    requires 0 !in s && Decode(s).Some?
    ensures DocumentDerives(d) && DocumentText(d) == s && ValueMeaning(d.value) == Decode(s).value
  {
    var before := SkipSpaceSound(s, 0);
    var i := SkipSpace(s, 0);
    var v := ValueSound(s, i);
    var j := ParseValue(s, i).end;
    var after := SkipSpaceSound(s, j);
    d := Document(before, v, after);
    AfterBoth(s, i, ValueText(v), after);
    AfterBoth(s, 0, before, ValueText(v) + after);
    AfterIsSlice(s, 0, DocumentText(d));
    assert s[0..|s|] == s;
  }

  /** `json_decode` gives a text the value `v` exactly when the grammar does. */
  lemma DecodeIsGrammar(s: bytes, v: Json)
    requires 0 !in s
    ensures Decode(s) == Some(v) <==> Derives(s, v)
  {
    if Decode(s) == Some(v) {
      var d := DocumentSound(s);
    }
    if Derives(s, v) {
      var d: Document :| DocumentDerives(d) && DocumentText(d) == s && ValueMeaning(d.value) == v;
      DocumentComplete(s, d);
    }
  }

  /** The grammar is not ambiguous about meaning. */
  lemma MeaningIsUnique(s: bytes, v: Json, w: Json)
    requires 0 !in s && Derives(s, v) && Derives(s, w)
    ensures v == w
  {
    DecodeIsGrammar(s, v);
    DecodeIsGrammar(s, w);
  }
}
