/** Which bytes the grammar, the parser and the printers speak of: what they share, said once more on
    the bytes themselves. */
module JsonTables {
  import opened Bytes
  import opened JsonGrammar
  import opened JsonSyntax
  import opened JsonPrinting
  import JsonParsing
  import JsonRoundTrip
  import Utf8

  // Hexadecimal digits

  lemma HexDigitsInBothCases(d: nat)
    requires d < 16
    ensures IsHex(LowerHex(d)) && HexDigit(LowerHex(d)) == d
    ensures IsHex(UpperHex(d)) && HexDigit(UpperHex(d)) == d && HexChar(d) == UpperHex(d)
  {
  }

  lemma NoOtherHexDigits(c: byte)
    requires IsHex(c)
    ensures HexDigit(c) < 16 && (c == LowerHex(HexDigit(c)) || c == UpperHex(HexDigit(c)))
  {
  }

  /** Four digits in either case are read, and four upper-case ones written, the highest one first. */
  lemma Hex16IsPositional(h: bytes) returns (ds: seq<nat>)
    requires Hex16(h)
    ensures |ds| == 4 && forall k | 0 <= k < 4 :: ds[k] < 16 && (h[k] == LowerHex(ds[k]) || h[k] == UpperHex(ds[k]))
    ensures Hex16Value(h) == 0x1000 * ds[0] + 0x100 * ds[1] + 0x10 * ds[2] + ds[3]
    ensures WriteHex16(Hex16Value(h)) == [UpperHex(ds[0]), UpperHex(ds[1]), UpperHex(ds[2]), UpperHex(ds[3])]
  {
    NoOtherHexDigits(h[0]);
    NoOtherHexDigits(h[1]);
    NoOtherHexDigits(h[2]);
    NoOtherHexDigits(h[3]);
    ds := [HexDigit(h[0]), HexDigit(h[1]), HexDigit(h[2]), HexDigit(h[3])];
    WrittenDigits(ds[0], ds[1], ds[2], ds[3]);
  }

  lemma Places(a: nat, b: nat, c: nat, d: nat)
    requires a < 16 && b < 16 && c < 16 && d < 16
    ensures var v := 0x1000 * a + 0x100 * b + 0x10 * c + d;
      v <= 0xFFFF && v / 0x1000 == a && v / 0x100 % 0x10 == b && v / 0x10 % 0x10 == c && v % 0x10 == d
  {
    var v := 0x1000 * a + 0x100 * b + 0x10 * c + d;
    assert v / 0x100 == 0x10 * a + b && v / 0x10 == 0x100 * a + 0x10 * b + c;
  }

  lemma WrittenDigits(a: nat, b: nat, c: nat, d: nat)
    requires a < 16 && b < 16 && c < 16 && d < 16
    ensures WriteHex16(0x1000 * a + 0x100 * b + 0x10 * c + d) == [UpperHex(a), UpperHex(b), UpperHex(c), UpperHex(d)]
  {
    Places(a, b, c, d);
    HexDigitsInBothCases(a);
    HexDigitsInBothCases(b);
    HexDigitsInBothCases(c);
    HexDigitsInBothCases(d);
  }

  // Single bytes

  /** The letters of the two-byte escapes, and what they stand for (section 7 of RFC 8259). */
  const ESCAPES: bytes := Ascii("\"\\/bfnrt")
  const ESCAPED: bytes := [0x22, 0x5C, 0x2F, 0x08, 0x0C, 0x0A, 0x0D, 0x09]

  lemma ShortEscapes()
    ensures forall k | 0 <= k < 8 :: ShortEscape(ESCAPES[k]) == Some(ESCAPED[k])
    ensures forall c: byte :: ShortEscape(c).Some? ==> c in ESCAPES
  {
    forall c: byte | ShortEscape(c).Some?
      ensures c in ESCAPES
    {
      assert exists k | 0 <= k < 8 :: ESCAPES[k] == c by {
        var k := if c == 0x22 then 0 else if c == 0x5C then 1 else if c == 0x2F then 2 else if c == 0x62 then 3
                 else if c == 0x66 then 4 else if c == 0x6E then 5 else if c == 0x72 then 6 else 7;
        assert ESCAPES[k] == c;
      }
    }
  }

  /** Blanks and digits (sections 2 and 6), and no other bytes. */
  lemma BlanksAndDigits(c: byte)
    ensures IsSpace(c) <==> c in [0x20, 0x09, 0x0A, 0x0D]
    ensures IsDigit(c) <==> exists d | 0 <= d < 10 :: c == Ascii("0123456789")[d]
  {
    if IsDigit(c) {
      assert c == Ascii("0123456789")[c - 0x30];
    }
  }

  /** The three literals and the bytes of the structure. */
  lemma Tokens()
    ensures NULL_TEXT == Ascii("null") && TRUE_TEXT == Ascii("true") && FALSE_TEXT == Ascii("false")
    ensures [LBRACKET, RBRACKET, LBRACE, RBRACE, COMMA, COLON, QUOTE, BACKSLASH] == Ascii("[]{},:\"\\")
    ensures [MINUS, PLUS, DOT, ZERO, LOWER_U] == Ascii("-+.0u")
  {
  }

  /** What `emit_string` writes for a character: a two-byte escape where there is a letter for it, but
      never for the slash, the escape with its number for any other byte below 0x1F, and itself. */
  lemma WrittenChars(ch: bytes)
    requires Utf8.Utf8Char(ch)
    ensures forall k | 0 <= k < 8 && k != 2 && ch[0] == ESCAPED[k] :: EmitChar(ch) == [0x5C, ESCAPES[k]]
    ensures ch[0] < 0x1F && ch[0] !in ESCAPED ==>
      EmitChar(ch) == Ascii("\\u00") + [UpperHex(ch[0] / 16), UpperHex(ch[0] % 16)]
    ensures ch[0] == 0x2F || (ch[0] >= 0x1F && ch[0] !in ESCAPED) ==> EmitChar(ch) == ch
  {
    if ch[0] < 0x1F && ch[0] !in ESCAPED {
      assert forall k | 0 <= k < 8 :: ch[0] != ESCAPED[k];
      WrittenDigits(0, 0, ch[0] / 16, ch[0] % 16);
    }
  }

  /** A number is printed exactly if its text is one of the grammar. */
  lemma ValidNumbers(text: bytes)
    requires 0 !in text
    ensures NumberIsValid(text) <==> exists n :: NumberDerives(n) && NumberText(n) == text
  {
    if NumberIsValid(text) {
      var n := JsonParsing.NumberSound(text, 0);
      AfterIsSlice(text, 0, NumberText(n));
      assert text[0..|text|] == text;
    }
    if n :| NumberDerives(n) && NumberText(n) == text {
      AfterIsSlice(text, 0, text);
      JsonParsing.NumberComplete(text, 0, n, |text|);
    }
  }

  /** The example of section 7 of RFC 8259: a pair of escapes, in either case, for one character. */
  lemma PairOfEscapes()
    ensures Hex16(Ascii("D834")) && Hex16Value(Ascii("D834")) == 0xD834
    ensures Hex16(Ascii("dd1e")) && Hex16Value(Ascii("dd1e")) == 0xDD1E
    ensures var it := Pair(Ascii("D834"), Ascii("dd1e"));
      ItemDerives(it) && ItemMeaning(it) == [0xF0, 0x9D, 0x84, 0x9E]
  {
    Utf8.GClef();
    assert PairMeaning(0xD834, 0xDD1E) == 0x1D11E;
  }
}
