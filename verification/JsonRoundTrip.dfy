/** Printing a value and decoding the print. Both printers write texts of the grammar; the one
    exception, a raw byte 0x1F, makes the text undecodable. */
module JsonRoundTrip {
  import opened Bytes
  import opened JsonGrammar
  import opened JsonSyntax
  import opened JsonParsing
  import opened JsonPrinting
  import Utf8

  // Characters and strings

  lemma HexCharInverse(d: nat)
    requires d < 16
    ensures IsHex(HexChar(d)) && HexDigit(HexChar(d)) == d
  {
  }

  lemma FourDigits(v: nat)
    requires v <= 0xFFFF
    ensures v / 0x1000 < 16
    ensures v == ((v / 0x1000 * 16 + v / 0x100 % 0x10) * 16 + v / 0x10 % 0x10) * 16 + v % 0x10
  {
    assert v / 0x10 == v / 0x100 * 0x10 + v / 0x10 % 0x10;
    assert v / 0x100 == v / 0x1000 * 0x10 + v / 0x100 % 0x10;
  }

  lemma WriteHex16Inverse(v: nat)
    requires v <= 0xFFFF
    ensures Hex16(WriteHex16(v)) && Hex16Value(WriteHex16(v)) == v
  {
    FourDigits(v);
    HexCharInverse(v / 0x1000);
    HexCharInverse(v / 0x100 % 0x10);
    HexCharInverse(v / 0x10 % 0x10);
    HexCharInverse(v % 0x10);
  }

  /** How the grammar derives what is printed for one character. */
  function CharItem(ch: bytes): Item
    requires ch != []
  {
    if EscapeLetter(ch[0]).Some? then Short(EscapeLetter(ch[0]).value)
    else if ch[0] < 0x1F then Unicode(WriteHex16(ch[0]))
    else Raw(ch)
  }

  lemma CharItemDerives(ch: bytes)
    requires Utf8.Utf8Char(ch) && ch[0] != 0
    ensures ItemText(CharItem(ch)) == EmitChar(ch)
    ensures ch[0] != UNIT_SEPARATOR ==> ItemDerives(CharItem(ch)) && ItemMeaning(CharItem(ch)) == ch
  {
    if EscapeLetter(ch[0]).None? && ch[0] < 0x1F {
      WriteHex16Inverse(ch[0]);
      assert ch == [ch[0]];
    }
  }

  lemma {:induction false} CharsItems(str: bytes) returns (items: seq<Item>)
    requires Utf8.Text(str) && UNIT_SEPARATOR !in str
    ensures StringDerives(items) && ItemsText(items) == EmitChars(str) && StringMeaning(items) == str
    decreases |str|
  {
    if str == [] {
      items := [];
    } else {
      var ch, rest := Utf8.FirstChar(str);
      assert str[..|ch|] == ch && str[|ch|..] == rest;
      CharItemDerives(ch);
      var more := CharsItems(rest);
      items := [CharItem(ch)] + more;
      assert items[1..] == more;
    }
  }

  /** The printed string, read back at any place of any text: the same bytes, or failure if and
      only if there is a byte 0x1F among them. */
  lemma {:induction false} EmittedCharsParse(s: bytes, i: nat, str: bytes, j: nat)
    requires Utf8.Text(str) && After(s, i, EmitChars(str)) == Some(j) && At(s, j) == QUOTE
    ensures ParseChars(s, i) == if UNIT_SEPARATOR in str then Fail else Ok(str, j + 1)
    decreases |str|
  {
    if str != [] {
      var ch, rest := Utf8.FirstChar(str);
      assert str[..|ch|] == ch && str[|ch|..] == rest;
      CharItemDerives(ch);
      var k := Split(s, i, EmitChar(ch), EmitChars(rest));
      if ch[0] == UNIT_SEPARATOR {
        assert UNIT_SEPARATOR in str;
        assert At(s, i) == UNIT_SEPARATOR;
      } else {
        ItemComplete(s, i, CharItem(ch), k);
        EmittedCharsParse(s, k, rest, j);
        CharHasNoUnitSeparator(ch);
      }
    }
  }

  lemma CharHasNoUnitSeparator(ch: bytes)
    requires Utf8.Utf8Char(ch) && ch[0] != UNIT_SEPARATOR
    ensures UNIT_SEPARATOR !in ch
  {
  }

  /** `parse_string` inverts `emit_string` in front of any suffix, with its exact boundary. */
  lemma StringRoundTrip(str: bytes, suffix: bytes)
    requires Utf8.Text(str)
    ensures ParseString(EmitString(str) + suffix, 0)
         == if UNIT_SEPARATOR in str then Fail else Ok(str, |EmitString(str)|)
  {
    var s := EmitString(str) + suffix;
    AfterAll(s);
    var j := Split(s, 0, EmitString(str), suffix);
    AfterCons(s, 0, QUOTE, EmitChars(str) + [QUOTE]);
    var k := Split(s, 1, EmitChars(str), [QUOTE]);
    AfterByte(s, k, QUOTE);
    EmittedCharsParse(s, 1, str, k);
  }

  // Derivations of the two prints

  lemma CompactLast(x: bytes, close: bytes)
    ensures [] + (x + ([] + close)) == x + close
  {
    assert [] + close == close;
    assert [] + (x + close) == x + close;
  }

  lemma CompactNext(x: bytes, comma: bytes, rest: bytes, close: bytes)
    ensures [] + (x + ([] + (comma + (rest + close)))) == x + (comma + rest) + close
  {
    CompactLast(x, comma + (rest + close));
    assert comma + (rest + close) == comma + rest + close;
  }

  lemma IndentedLast(nl: bytes, in1: bytes, x: bytes, in0: bytes, close: bytes)
    ensures nl + in1 + (x + (nl + in0 + close)) == nl + (in1 + (x + nl) + (in0 + close))
  {
    assert nl + in0 + close == nl + (in0 + close);
    Reassociate(nl, in1, x, nl, in0 + close);
  }

  lemma IndentedNext(comma: byte, nl: byte, in1: bytes, x: bytes, rest: bytes, close: bytes)
    ensures [nl] + in1 + (x + ([] + ([comma] + ([nl] + (rest + close)))))
         == [nl] + (in1 + (x + ([comma, nl] + rest)) + close)
  {
    assert [] + ([comma] + ([nl] + (rest + close))) == [comma, nl] + rest + close;
    Reassociate([nl], in1, x, [comma, nl] + rest, close);
  }

  lemma Reassociate(a: bytes, b: bytes, c: bytes, d: bytes, e: bytes)
    ensures a + b + (c + (d + e)) == a + (b + (c + d) + e)
  {
  }

  lemma NumberDerivation(text: bytes) returns (t: Value)
    requires 0 !in text
    ensures ValueDerives(t) && ValueText(t) == EmitNumber(text) && ValueMeaning(t) == Normal(Num(text))
  {
    if NumberIsValid(text) {
      var n := NumberSound(text, 0);
      t := NumberV(n);
    } else {
      t := NullV;
    }
  }

  lemma {:induction false} CompactDerivation(v: Json) returns (t: Value)
    requires Printable(v) && !HoldsUnitSeparator(v)
    ensures ValueDerives(t) && ValueText(t) == EmitValue(v) && ValueMeaning(t) == Normal(v)
    decreases v, 1
  {
    match v
    case Null => t := NullV;
    case Bool(b) => t := if b then TrueV else FalseV;
    case Str(s) =>
      var items := CharsItems(s);
      t := StringV(items);
    case Num(text) => t := NumberDerivation(text);
    case Arr(elems) =>
      if elems == [] {
        t := EmptyArrayV([]);
      } else {
        var e := CompactElements(elems);
        t := ArrayV(e);
      }
    case Obj(members) =>
      if members == [] {
        t := EmptyObjectV([]);
      } else {
        var m := CompactMembers(members);
        t := ObjectV(m);
      }
  }

  lemma {:induction false} CompactElements(es: seq<Json>) returns (t: Elements)
    requires es != [] && forall e <- es :: Printable(e) && !HoldsUnitSeparator(e)
    ensures ElementsDerive(t) && ElementsText(t) == EmitElements(es) + [RBRACKET]
    ensures ElementsMeaning(t) == NormalElements(es)
    decreases es, 0
  {
    var v := CompactDerivation(es[0]);
    var x := ValueText(v);
    if |es| == 1 {
      t := Elements([], v, [], NoElements);
      CompactLast(x, [RBRACKET]);
    } else {
      var more := CompactElements(es[1..]);
      t := Elements([], v, [], CommaElements(more));
      CompactNext(x, [COMMA], EmitElements(es[1..]), [RBRACKET]);
    }
  }

  lemma {:induction false} CompactMembers(ms: seq<Member>) returns (t: Members)
    requires ms != []
    requires forall m <- ms :: Utf8.Text(m.key) && Printable(m.value)
    requires forall m <- ms :: UNIT_SEPARATOR !in m.key && !HoldsUnitSeparator(m.value)
    ensures MembersDerive(t) && MembersText(t) == EmitMembers(ms) + [RBRACE]
    ensures MembersMeaning(t) == NormalMembers(ms)
    decreases ms, 0
  {
    var p := CompactMember(ms[0]);
    var x := KeyValueText(p);
    if |ms| == 1 {
      t := Members([], p, [], NoMembers);
      CompactLast(x, [RBRACE]);
    } else {
      var more := CompactMembers(ms[1..]);
      t := Members([], p, [], CommaMembers(more));
      CompactNext(x, [COMMA], EmitMembers(ms[1..]), [RBRACE]);
    }
  }

  lemma {:induction false} CompactMember(m: Member) returns (p: KeyValue)
    requires Utf8.Text(m.key) && Printable(m.value)
    requires UNIT_SEPARATOR !in m.key && !HoldsUnitSeparator(m.value)
    ensures KeyValueDerives(p) && KeyValueText(p) == EmitMember(m)
    ensures KeyValueMeaning(p) == Member(m.key, Normal(m.value))
    decreases m, 2
  {
    var key := CharsItems(m.key);
    var v := CompactDerivation(m.value);
    p := KeyValue(key, [], [], v);
    assert [] + ValueText(v) == ValueText(v);
    assert [] + ([COLON] + ValueText(v)) == [COLON] + ValueText(v);
  }

  lemma {:induction false} RepeatIsSpace(space: bytes, n: nat)
    requires Spaces(space)
    ensures Spaces(Repeat(space, n))
  {
    if n > 0 {
      RepeatIsSpace(space, n - 1);
    }
  }

  lemma NewLineIsSpace(space: bytes, n: nat)
    requires Spaces(space)
    ensures Spaces([NEWLINE] + Repeat(space, n))
  {
    RepeatIsSpace(space, n);
  }

  lemma {:induction false} IndentedDerivation(v: Json, space: bytes, level: nat) returns (t: Value)
    requires Printable(v) && !HoldsUnitSeparator(v) && Spaces(space)
    ensures ValueDerives(t) && ValueText(t) == EmitIndented(v, space, level) && ValueMeaning(t) == Normal(v)
    decreases v, 1
  {
    match v
    case Null => t := NullV;
    case Bool(b) => t := if b then TrueV else FalseV;
    case Str(s) =>
      var items := CharsItems(s);
      t := StringV(items);
    case Num(text) => t := NumberDerivation(text);
    case Arr(elems) =>
      if elems == [] {
        t := EmptyArrayV([]);
      } else {
        var e := IndentedElementsTree(elems, space, level);
        t := ArrayV(e);
      }
    case Obj(members) =>
      if members == [] {
        t := EmptyObjectV([]);
      } else {
        var m := IndentedMembersTree(members, space, level);
        t := ObjectV(m);
      }
  }

  lemma {:induction false} IndentedElementsTree(es: seq<Json>, space: bytes, level: nat) returns (t: Elements)
    requires es != [] && Spaces(space) && forall e <- es :: Printable(e) && !HoldsUnitSeparator(e)
    ensures ElementsDerive(t) && ElementsMeaning(t) == NormalElements(es)
    ensures ElementsText(t) == [NEWLINE] + (IndentedElements(es, space, level) + (Repeat(space, level) + [RBRACKET]))
    decreases es, 0
  {
    var v := IndentedDerivation(es[0], space, level + 1);
    var x, in1, in0 := ValueText(v), Repeat(space, level + 1), Repeat(space, level);
    assert Spaces([NEWLINE] + in1) && Spaces([NEWLINE] + in0) by {
      NewLineIsSpace(space, level + 1);
      NewLineIsSpace(space, level);
    }
    assert Spaces([]);
    if |es| == 1 {
      assert IndentedElements(es, space, level) == in1 + (x + [NEWLINE]);
      t := Elements([NEWLINE] + in1, v, [NEWLINE] + in0, NoElements);
      IndentedLast([NEWLINE], in1, x, in0, [RBRACKET]);
    } else {
      var more := IndentedElementsTree(es[1..], space, level);
      t := Elements([NEWLINE] + in1, v, [], CommaElements(more));
      var rest := IndentedElements(es[1..], space, level);
      assert IndentedElements(es, space, level) == in1 + (x + ([COMMA, NEWLINE] + rest));
      IndentedNext(COMMA, NEWLINE, in1, x, rest, in0 + [RBRACKET]);
    }
  }

  lemma {:induction false} IndentedMembersTree(ms: seq<Member>, space: bytes, level: nat) returns (t: Members)
    requires ms != [] && Spaces(space)
    requires forall m <- ms :: Utf8.Text(m.key) && Printable(m.value)
    requires forall m <- ms :: UNIT_SEPARATOR !in m.key && !HoldsUnitSeparator(m.value)
    ensures MembersDerive(t) && MembersMeaning(t) == NormalMembers(ms)
    ensures MembersText(t) == [NEWLINE] + (IndentedMembers(ms, space, level) + (Repeat(space, level) + [RBRACE]))
    decreases ms, 0
  {
    var p := IndentedMemberTree(ms[0], space, level + 1);
    var x, in1, in0 := KeyValueText(p), Repeat(space, level + 1), Repeat(space, level);
    assert Spaces([NEWLINE] + in1) && Spaces([NEWLINE] + in0) by {
      NewLineIsSpace(space, level + 1);
      NewLineIsSpace(space, level);
    }
    assert Spaces([]);
    if |ms| == 1 {
      assert IndentedMembers(ms, space, level) == in1 + (x + [NEWLINE]);
      t := Members([NEWLINE] + in1, p, [NEWLINE] + in0, NoMembers);
      IndentedLast([NEWLINE], in1, x, in0, [RBRACE]);
    } else {
      var more := IndentedMembersTree(ms[1..], space, level);
      t := Members([NEWLINE] + in1, p, [], CommaMembers(more));
      var rest := IndentedMembers(ms[1..], space, level);
      assert IndentedMembers(ms, space, level) == in1 + (x + ([COMMA, NEWLINE] + rest));
      IndentedNext(COMMA, NEWLINE, in1, x, rest, in0 + [RBRACE]);
    }
  }

  lemma {:induction false} IndentedMemberTree(m: Member, space: bytes, level: nat) returns (p: KeyValue)
    requires Utf8.Text(m.key) && Printable(m.value) && Spaces(space)
    requires UNIT_SEPARATOR !in m.key && !HoldsUnitSeparator(m.value)
    ensures KeyValueDerives(p) && KeyValueText(p) == IndentedMember(m, space, level)
    ensures KeyValueMeaning(p) == Member(m.key, Normal(m.value))
    decreases m, 2
  {
    var key := CharsItems(m.key);
    var v := IndentedDerivation(m.value, space, level);
    p := KeyValue(key, [], [0x20], v);
    assert [] + ([COLON] + ([0x20] + ValueText(v))) == [COLON, 0x20] + ValueText(v);
  }

  // Control bytes

  /** The bytes that can be part of a JSON text as far as control characters go. */
  predicate Plain(t: bytes) {
    forall k | 0 <= k < |t| :: t[k] >= 0x20 || IsSpace(t[k])
  }

  lemma ItemTextIsPlain(it: Item)
    requires ItemDerives(it)
    ensures Plain(ItemText(it))
  {
    match it
    case Raw(ch) =>
    case Short(c) =>
    case Unicode(h) => UnicodeTextIsPlain(h);
    case Pair(h, l) =>
      UnicodeTextIsPlain(h);
      UnicodeTextIsPlain(l);
  }

  lemma UnicodeTextIsPlain(h: bytes)
    requires Hex16(h)
    ensures Plain(UnicodeText(h))
  {
    assert Plain(h);
  }

  lemma {:induction false} ItemsTextIsPlain(items: seq<Item>)
    requires StringDerives(items)
    ensures Plain(ItemsText(items))
  {
    if items != [] {
      ItemTextIsPlain(items[0]);
      ItemsTextIsPlain(items[1..]);
    }
  }

  lemma NumberTextIsPlain(n: Number)
    requires NumberDerives(n)
    ensures Plain(NumberText(n))
  {
    assert Plain(FracText(n.frac)) && Plain(ExpText(n.exp));
  }

  lemma {:induction false} ValueTextIsPlain(t: Value)
    requires ValueDerives(t)
    ensures Plain(ValueText(t))
    decreases t
  {
    match t
    case NullV =>
    case TrueV =>
    case FalseV =>
    case StringV(items) => ItemsTextIsPlain(items);
    case NumberV(n) => NumberTextIsPlain(n);
    case EmptyArrayV(w) =>
    case ArrayV(e) => ElementsTextIsPlain(e);
    case EmptyObjectV(w) =>
    case ObjectV(m) => MembersTextIsPlain(m);
  }

  lemma {:induction false} ElementsTextIsPlain(e: Elements)
    requires ElementsDerive(e)
    ensures Plain(ElementsText(e))
    decreases e
  {
    ValueTextIsPlain(e.value);
    if e.rest.CommaElements? {
      ElementsTextIsPlain(e.rest.elems);
    }
    assert Plain(MoreElementsText(e.rest));
  }

  lemma {:induction false} MembersTextIsPlain(m: Members)
    requires MembersDerive(m)
    ensures Plain(MembersText(m))
    decreases m
  {
    ItemsTextIsPlain(m.pair.key);
    ValueTextIsPlain(m.pair.value);
    assert Plain(KeyValueText(m.pair));
    if m.rest.CommaMembers? {
      MembersTextIsPlain(m.rest.members);
    }
    assert Plain(MoreMembersText(m.rest));
  }

  /** Neither NUL nor 0x1F is in any JSON text. */
  lemma DerivedTextIsPlain(s: bytes, v: Json)
    requires Derives(s, v)
    ensures Plain(s) && 0 !in s && UNIT_SEPARATOR !in s
  {
    var d: Document :| DocumentDerives(d) && DocumentText(d) == s && ValueMeaning(d.value) == v;
    ValueTextIsPlain(d.value);
  }

  /** What a print holds of the two bytes NUL and 0x1F. */
  ghost predicate Prints(t: bytes, separator: bool) {
    0 !in t && (separator ==> UNIT_SEPARATOR in t)
  }

  lemma PrintsBoth(a: bytes, x: bool, b: bytes, y: bool)
    requires Prints(a, x) && Prints(b, y)
    ensures Prints(a + b, x || y)
  {
    assert forall c :: c in a || c in b ==> c in a + b;
  }

  lemma CharPrints(ch: bytes)
    requires Utf8.Utf8Char(ch) && ch[0] != 0
    ensures Prints(EmitChar(ch), UNIT_SEPARATOR in ch)
  {
    if EscapeLetter(ch[0]).None? && ch[0] < 0x1F {
      WriteHex16Inverse(ch[0]);
    }
  }

  lemma {:induction false} CharsPrint(str: bytes)
    requires Utf8.Text(str)
    ensures Prints(EmitChars(str), UNIT_SEPARATOR in str)
    decreases |str|
  {
    if str != [] {
      var ch, rest := Utf8.FirstChar(str);
      assert str[..|ch|] == ch && str[|ch|..] == rest;
      CharPrints(ch);
      CharsPrint(rest);
      PrintsBoth(EmitChar(ch), UNIT_SEPARATOR in ch, EmitChars(rest), UNIT_SEPARATOR in rest);
    }
  }

  lemma StringPrints(str: bytes)
    requires Utf8.Text(str)
    ensures Prints(EmitString(str), UNIT_SEPARATOR in str)
  {
    CharsPrint(str);
    PrintsBoth(EmitChars(str), UNIT_SEPARATOR in str, [QUOTE], false);
    PrintsBoth([QUOTE], false, EmitChars(str) + [QUOTE], UNIT_SEPARATOR in str);
  }

  lemma {:induction false} ValuePrints(v: Json)
    requires Printable(v)
    ensures Prints(EmitValue(v), HoldsUnitSeparator(v))
    decreases v, 1
  {
    match v
    case Null =>
    case Bool(_) =>
    case Str(s) => StringPrints(s);
    case Num(_) =>
    case Arr(elems) =>
      ElementsPrint(elems);
      PrintsBoth(EmitElements(elems), HoldsUnitSeparator(v), [RBRACKET], false);
    case Obj(members) =>
      MembersPrint(members);
      PrintsBoth(EmitMembers(members), HoldsUnitSeparator(v), [RBRACE], false);
  }

  lemma {:induction false} ElementsPrint(es: seq<Json>)
    requires forall e <- es :: Printable(e)
    ensures Prints(EmitElements(es), exists e <- es :: HoldsUnitSeparator(e))
    decreases es, 0
  {
    if es != [] {
      ValuePrints(es[0]);
      ElementsPrint(es[1..]);
      PrintsBoth(EmitValue(es[0]), HoldsUnitSeparator(es[0]),
                 [COMMA] + EmitElements(es[1..]), exists e <- es[1..] :: HoldsUnitSeparator(e));
    }
  }

  lemma {:induction false} MembersPrint(ms: seq<Member>)
    requires forall m <- ms :: Utf8.Text(m.key) && Printable(m.value)
    ensures Prints(EmitMembers(ms), exists m <- ms :: UNIT_SEPARATOR in m.key || HoldsUnitSeparator(m.value))
    decreases ms, 0
  {
    if ms != [] {
      var m := ms[0];
      StringPrints(m.key);
      ValuePrints(m.value);
      MembersPrint(ms[1..]);
      PrintsBoth(EmitString(m.key), UNIT_SEPARATOR in m.key, [COLON] + EmitValue(m.value), HoldsUnitSeparator(m.value));
      PrintsBoth(EmitMember(m), UNIT_SEPARATOR in m.key || HoldsUnitSeparator(m.value), [COMMA] + EmitMembers(ms[1..]),
                 exists m <- ms[1..] :: UNIT_SEPARATOR in m.key || HoldsUnitSeparator(m.value));
    }
  }

  lemma {:induction false} RepeatHasNoNul(space: bytes, n: nat)
    requires 0 !in space
    ensures 0 !in Repeat(space, n)
  {
    if n != 0 {
      RepeatHasNoNul(space, n - 1);
    }
  }

  lemma {:induction false} IndentedPrints(v: Json, space: bytes, level: nat)
    requires Printable(v) && 0 !in space
    ensures Prints(EmitIndented(v, space, level), HoldsUnitSeparator(v))
    decreases v, 1
  {
    RepeatHasNoNul(space, level);
    match v
    case Null =>
    case Bool(_) =>
    case Str(s) => StringPrints(s);
    case Num(_) =>
    case Arr(elems) =>
      IndentedElementsPrint(elems, space, level);
      PrintsBoth(IndentedElements(elems, space, level), HoldsUnitSeparator(v), Repeat(space, level) + [RBRACKET], false);
    case Obj(members) =>
      IndentedMembersPrint(members, space, level);
      PrintsBoth(IndentedMembers(members, space, level), HoldsUnitSeparator(v), Repeat(space, level) + [RBRACE], false);
  }

  lemma {:induction false} IndentedElementsPrint(es: seq<Json>, space: bytes, level: nat)
    requires 0 !in space && forall e <- es :: Printable(e)
    ensures Prints(IndentedElements(es, space, level), exists e <- es :: HoldsUnitSeparator(e))
    decreases es, 0
  {
    if es != [] {
      IndentedPrints(es[0], space, level + 1);
      IndentedElementsPrint(es[1..], space, level);
      RepeatHasNoNul(space, level + 1);
      var x, more := EmitIndented(es[0], space, level + 1), exists e <- es[1..] :: HoldsUnitSeparator(e);
      var rest := if |es| == 1 then [NEWLINE] else [COMMA, NEWLINE] + IndentedElements(es[1..], space, level);
      PrintsBoth(x, HoldsUnitSeparator(es[0]), rest, more);
      PrintsBoth(Repeat(space, level + 1), false, x + rest, HoldsUnitSeparator(es[0]) || more);
    }
  }

  lemma {:induction false} IndentedMemberPrints(m: Member, space: bytes, level: nat)
    requires Utf8.Text(m.key) && Printable(m.value) && 0 !in space
    ensures Prints(IndentedMember(m, space, level), UNIT_SEPARATOR in m.key || HoldsUnitSeparator(m.value))
    decreases m, 2
  {
    StringPrints(m.key);
    IndentedPrints(m.value, space, level);
    var key, value := UNIT_SEPARATOR in m.key, HoldsUnitSeparator(m.value);
    PrintsBoth([COLON, 0x20], false, EmitIndented(m.value, space, level), value);
    PrintsBoth(EmitString(m.key), key, [COLON, 0x20] + EmitIndented(m.value, space, level), value);
  }

  lemma {:induction false} IndentedMembersPrint(ms: seq<Member>, space: bytes, level: nat)
    requires 0 !in space && forall m <- ms :: Utf8.Text(m.key) && Printable(m.value)
    ensures Prints(IndentedMembers(ms, space, level),
                   exists m <- ms :: UNIT_SEPARATOR in m.key || HoldsUnitSeparator(m.value))
    decreases ms, 0
  {
    if ms != [] {
      var m := ms[0];
      IndentedMemberPrints(m, space, level + 1);
      IndentedMembersPrint(ms[1..], space, level);
      RepeatHasNoNul(space, level + 1);
      var one := UNIT_SEPARATOR in m.key || HoldsUnitSeparator(m.value);
      var x, more := IndentedMember(m, space, level + 1),
        exists m <- ms[1..] :: UNIT_SEPARATOR in m.key || HoldsUnitSeparator(m.value);
      var rest := if |ms| == 1 then [NEWLINE] else [COMMA, NEWLINE] + IndentedMembers(ms[1..], space, level);
      PrintsBoth(x, one, rest, more);
      PrintsBoth(Repeat(space, level + 1), false, x + rest, one || more);
    }
  }

  // The main results

  lemma DerivedDecodes(s: bytes, t: Value)
    requires ValueDerives(t) && ValueText(t) == s
    ensures Decode(s) == Some(ValueMeaning(t))
  {
    var d := Document([], t, []);
    assert [] + (s + []) == s;
    assert Derives(s, ValueMeaning(t));
    DerivedTextIsPlain(s, ValueMeaning(t));
    DecodeIsGrammar(s, ValueMeaning(t));
  }

  lemma SeparatorDecodesToNothing(s: bytes)
    requires Prints(s, true)
    ensures Decode(s) == None
  {
    if Decode(s).Some? {
      DecodeIsGrammar(s, Decode(s).value);
      DerivedTextIsPlain(s, Decode(s).value);
    }
  }

  /** `json_decode(json_encode(v))`: the same ordered tree but for numbers that print as null, or
      the null pointer exactly if some string or key holds a byte 0x1F. */
  lemma EncodeThenDecode(v: Json)
    requires Printable(v)
    ensures Decode(EmitValue(v)) == if HoldsUnitSeparator(v) then None else Some(Normal(v))
  {
    if HoldsUnitSeparator(v) {
      ValuePrints(v);
      SeparatorDecodesToNothing(EmitValue(v));
    } else {
      var t := CompactDerivation(v);
      DerivedDecodes(EmitValue(v), t);
    }
  }

  /** Indentation by blanks does not change what a print means. */
  lemma StringifyThenDecode(v: Json, space: bytes)
    requires Printable(v) && Spaces(space)
    ensures Decode(EmitIndented(v, space, 0)) == Decode(EmitValue(v))
  {
    EncodeThenDecode(v);
    if HoldsUnitSeparator(v) {
      IndentedPrints(v, space, 0);
      SeparatorDecodesToNothing(EmitIndented(v, space, 0));
    } else {
      var t := IndentedDerivation(v, space, 0);
      DerivedDecodes(EmitIndented(v, space, 0), t);
    }
  }

  // Decoded values

  lemma NumberTextIsValid(n: Number)
    requires NumberDerives(n)
    ensures NumberIsValid(NumberText(n)) && 0 !in NumberText(n)
  {
    AfterAll(NumberText(n));
    NumberComplete(NumberText(n), 0, n, |NumberText(n)|);
    NumberTextIsPlain(n);
  }

  lemma {:induction false} MeaningIsPrintable(t: Value)
    requires ValueDerives(t)
    ensures Printable(ValueMeaning(t)) && Normal(ValueMeaning(t)) == ValueMeaning(t)
    decreases t
  {
    match t
    case NullV =>
    case TrueV =>
    case FalseV =>
    case StringV(items) => StringMeansText(items);
    case NumberV(n) => NumberTextIsValid(n);
    case EmptyArrayV(_) =>
    case ArrayV(e) => ElementsArePrintable(e);
    case EmptyObjectV(_) =>
    case ObjectV(m) => MembersArePrintable(m);
  }

  lemma {:induction false} ElementsArePrintable(e: Elements)
    requires ElementsDerive(e)
    ensures forall v <- ElementsMeaning(e) :: Printable(v)
    ensures NormalElements(ElementsMeaning(e)) == ElementsMeaning(e)
    decreases e
  {
    MeaningIsPrintable(e.value);
    if e.rest.CommaElements? {
      ElementsArePrintable(e.rest.elems);
    }
  }

  lemma {:induction false} MembersArePrintable(m: Members)
    requires MembersDerive(m)
    ensures forall v <- MembersMeaning(m) :: Utf8.Text(v.key) && Printable(v.value)
    ensures NormalMembers(MembersMeaning(m)) == MembersMeaning(m)
    decreases m
  {
    StringMeansText(m.pair.key);
    MeaningIsPrintable(m.pair.value);
    if m.rest.CommaMembers? {
      MembersArePrintable(m.rest.members);
    }
  }

  /** A decoded value can be printed, and all its numbers are written as JSON numbers. */
  lemma DecodedIsPrintable(s: bytes)
    requires 0 !in s && Decode(s).Some?
    ensures Printable(Decode(s).value) && Normal(Decode(s).value) == Decode(s).value
  {
    var d := DocumentSound(s);
    MeaningIsPrintable(d.value);
  }

  /** A byte 0x1F can come out of the parser: from the string with the one escape \u001F. */
  lemma DecodedSeparator()
    ensures Decode([QUOTE] + (UnicodeText(WriteHex16(0x1F)) + [QUOTE])) == Some(Str([UNIT_SEPARATOR]))
  {
    var h := WriteHex16(0x1F);
    WriteHex16Inverse(0x1F);
    var it := Unicode(h);
    assert ItemDerives(it) && ItemMeaning(it) == [UNIT_SEPARATOR];
    OneItem(it);
    DerivedDecodes(StringText([it]), StringV([it]));
  }

  lemma OneItem(it: Item)
    requires ItemDerives(it)
    ensures StringDerives([it]) && ItemsText([it]) == ItemText(it) && StringMeaning([it]) == ItemMeaning(it)
  {
    assert [it][1..] == [];
    assert ItemText(it) + [] == ItemText(it);
    assert ItemMeaning(it) + [] == ItemMeaning(it);
  }
}
