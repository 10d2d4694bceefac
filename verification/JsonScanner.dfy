/** The cursor functions of src/util/json.c that read one token: literals, numbers and strings. */
module JsonScanner {
  import opened Bytes
  import opened Memory
  import opened StringBuffer
  import opened JsonGrammar
  import opened JsonLoops
  import opened JsonSyntax
  import JsonParsing
  import Utf8

  /** `skip_space`. */
  method Blanks(s: bytes, i: nat) returns (j: nat)
    requires i <= |s|
    ensures j == SkipSpace(s, i)
  {
    j := i;
    while IsSpace(At(s, j))
      invariant i <= j <= |s| && SkipSpace(s, j) == SkipSpace(s, i)
      decreases |s| - j
    {
      j := j + 1;
    }
  }

  /** `expect_literal`. */
  method Literal(s: bytes, i: nat, text: bytes) returns (ok: bool, end: nat)
    requires i <= |s| && 0 !in text
    ensures ok == After(s, i, text).Some?
    ensures end == if ok then After(s, i, text).value else i
  {
    var j, k := i, 0;
    while k < |text|
      invariant k <= |text| && j == i + k <= |s|
      invariant After(s, j, text[k..]) == After(s, i, text)
    {
      if At(s, j) != text[k] {
        return false, i;
      }
      assert text[k..][1..] == text[k + 1..];
      j, k := j + 1, k + 1;
    }
    return true, j;
  }

  /** The loops over digits in `parse_number`, entered with a digit. */
  method Digits(s: bytes, i: nat) returns (j: nat)
    requires i <= |s| && IsDigit(At(s, i))
    ensures j == SkipDigits(s, i)
  {
    j := i + 1;
    while IsDigit(At(s, j))
      invariant i <= j <= |s| && SkipDigits(s, j) == SkipDigits(s, i)
      decreases |s| - j
    {
      j := j + 1;
    }
  }

  /** The three parts of `parse_number`, each of which it may leave with failure: the digits in
      front of the point, */
  method Whole(s: bytes, i: nat) returns (ok: bool, j: nat)
    requires i <= |s|
    ensures WholeEnd(s, i) == if ok then Some(j) else None
  {
    if At(s, i) == ZERO {
      return true, i + 1;
    }
    if !IsDigit(At(s, i)) {
      return false, i;
    }
    j := Digits(s, i);
    return true, j;
  }

  /** the point and the digits behind it, */
  method Fraction(s: bytes, i: nat) returns (ok: bool, j: nat)
    requires i <= |s|
    ensures FracEnd(s, i) == if ok then Some(j) else None
  {
    j := i;
    if At(s, j) == DOT {
      j := j + 1;
      if !IsDigit(At(s, j)) {
        return false, i;
      }
      j := Digits(s, j);
    }
    return true, j;
  }

  /** and the exponent. */
  method Exponent(s: bytes, i: nat) returns (ok: bool, j: nat)
    requires i <= |s|
    ensures ExpEnd(s, i) == if ok then Some(j) else None
  {
    j := i;
    if At(s, j) == 0x45 || At(s, j) == 0x65 {
      j := j + 1;
      if At(s, j) == PLUS || At(s, j) == MINUS {
        j := j + 1;
      }
      if !IsDigit(At(s, j)) {
        return false, i;
      }
      j := Digits(s, j);
    }
    return true, j;
  }

  /** `parse_number`, up to the call of `strtod`. */
  method Number(s: bytes, i: nat) returns (ok: bool, end: nat)
    requires i <= |s|
    ensures ok == ParseNumber(s, i).Ok? && end == if ok then ParseNumber(s, i).end else i
  {
    var j := i;
    if At(s, j) == MINUS {
      j := j + 1;
    }
    ok, j := Whole(s, j);
    if !ok {
      return false, i;
    }
    ok, j := Fraction(s, j);
    if !ok {
      return false, i;
    }
    ok, j := Exponent(s, j);
    return ok, if ok then j else i;
  }

  predicate HexRun(s: bytes, i: nat, n: nat) {
    i + n <= |s| && forall k | i <= k < i + n :: IsHex(s[k])
  }

  /** The value of the `n` hexadecimal digits at `i`. */
  function HexRunValue(s: bytes, i: nat, n: nat): nat
    requires HexRun(s, i, n)
  {
    if n == 0 then 0 else HexRunValue(s, i, n - 1) * 16 + HexDigit(s[i + n - 1])
  }

  lemma FourHexDigits(s: bytes, i: nat)
    requires HexRun(s, i, 4)
    ensures HexRunValue(s, i, 3) <= 0xFFF && Hex16(s[i..i + 4]) && HexRunValue(s, i, 4) == Hex16Value(s[i..i + 4])
  {
    assert HexRunValue(s, i, 1) == HexDigit(s[i]);
    assert HexRunValue(s, i, 2) == HexRunValue(s, i, 1) * 16 + HexDigit(s[i + 1]);
    assert HexRunValue(s, i, 3) == HexRunValue(s, i, 2) * 16 + HexDigit(s[i + 2]);
  }

  lemma NoFourHexDigits(s: bytes, i: nat, k: nat)
    requires i <= k < i + 4 && k <= |s| && !IsHex(At(s, k))
    ensures i + 4 <= |s| ==> !Hex16(s[i..i + 4])
  {
    if i + 4 <= |s| {
      assert s[i..i + 4][k - i] == s[k];
    }
  }

  /** `parse_hex16`, with the shift of a `uint16_t` that drops the bits above the sixteenth. */
  method Hex16At(s: bytes, i: nat) returns (ok: bool, end: nat, value: nat)
    requires i <= |s|
    ensures ok == ParseHex16(s, i).Ok?
    ensures ok ==> end == ParseHex16(s, i).end && value == ParseHex16(s, i).value
    ensures !ok ==> end == i
  {
    var j, k, ret := i, 0, 0;
    while k < 4
      invariant k <= 4 && j == i + k && HexRun(s, i, k) && ret == HexRunValue(s, i, k)
      invariant ret < [1, 0x10, 0x100, 0x1000, 0x10000][k]
    {
      var c := At(s, j);
      var tmp: nat;
      if c >= 0x30 && c <= 0x39 {
        tmp := c - 0x30;
      } else if c >= 0x41 && c <= 0x46 {
        tmp := c - 0x41 + 10;
      } else if c >= 0x61 && c <= 0x66 {
        tmp := c - 0x61 + 10;
      } else {
        NoFourHexDigits(s, i, j);
        return false, i, 0;
      }
      ret := ret * 16 % 0x10000 + tmp;
      j, k := j + 1, k + 1;
    }
    FourHexDigits(s, i);
    return true, j, ret;
  }

  /** `utf8_write_char`: the bytes stored from `b` on. */
  method Utf8WriteChar(u: nat, buf: array<byte>, b: nat) returns (n: nat)
    requires Utf8.Scalar(u) && b + 4 <= buf.Length
    modifies buf
    ensures n == |Utf8.WriteChar(u)| && buf[..b + n] == old(buf[..b]) + Utf8.WriteChar(u)
  {
    if u <= 0x7F {
      buf[b] := u;
      n := 1;
    } else if u <= 0x7FF {
      buf[b] := 0xC0 + u / 0x40;
      buf[b + 1] := 0x80 + u % 0x40;
      n := 2;
    } else if u <= 0xFFFF {
      buf[b] := 0xE0 + u / 0x1000;
      buf[b + 1] := 0x80 + u / 0x40 % 0x40;
      buf[b + 2] := 0x80 + u % 0x40;
      n := 3;
    } else {
      buf[b] := 0xF0 + u / 0x40000;
      buf[b + 1] := 0x80 + u / 0x1000 % 0x40;
      buf[b + 2] := 0x80 + u / 0x40 % 0x40;
      buf[b + 3] := 0x80 + u % 0x40;
      n := 4;
    }
  }

  /** The code point of the escape that goes on behind `\u`. */
  method Unicode(s: bytes, i: nat) returns (ok: bool, end: nat, u: nat)
    requires 0 < i <= |s| && s[i - 1] == LOWER_U
    ensures ok == ParseEscape(s, i - 1).Ok? && Utf8.Scalar(u)
    ensures ok ==> ParseEscape(s, i - 1) == Ok(Utf8.WriteChar(u), end)
  {
    var uc: nat, lc: nat;
    ok, end, uc := Hex16At(s, i);
    if !ok {
      return false, i, 0;
    }
    if uc >= 0xD800 && uc <= 0xDFFF {
      if At(s, end) != BACKSLASH || At(s, end + 1) != LOWER_U {
        return false, i, 0;
      }
      ok, end, lc := Hex16At(s, end + 2);
      if !ok {
        return false, i, 0;
      }
      var pair := Utf8.FromSurrogatePair(uc, lc);
      if pair.None? {
        return false, i, 0;
      }
      u := pair.value;
    } else if uc == 0 {
      return false, i, 0;
    } else {
      u := uc;
    }
  }

  /** The escapes, from behind the backslash: at most four bytes are stored from `b` on. */
  method EscapeInto(s: bytes, i: nat, buf: array<byte>, b: nat) returns (ok: bool, end: nat, n: nat)
    requires i <= |s| && b + 4 <= buf.Length
    modifies buf
    ensures ok == ParseEscape(s, i).Ok?
    ensures ok ==> end == ParseEscape(s, i).end && n == |ParseEscape(s, i).value|
    ensures ok ==> buf[..b + n] == old(buf[..b]) + ParseEscape(s, i).value
  {
    var c := At(s, i);
    n := 1;
    end := i + 1;
    if c == QUOTE || c == BACKSLASH || c == 0x2F {
      buf[b] := c;
    } else if c == 0x62 {
      buf[b] := 0x08;
    } else if c == 0x66 {
      buf[b] := 0x0C;
    } else if c == 0x6E {
      buf[b] := 0x0A;
    } else if c == 0x72 {
      buf[b] := 0x0D;
    } else if c == 0x74 {
      buf[b] := 0x09;
    } else if c == LOWER_U {
      var u: nat;
      ok, end, u := Unicode(s, i + 1);
      if !ok {
        return false, i, 0;
      }
      n := Utf8WriteChar(u, buf, b);
    } else {
      return false, i, 0;
    }
    return true, end, n;
  }

  /** The bytes of a character, one by one. */
  method Echo(s: bytes, i: nat, len: nat, buf: array<byte>, b: nat)
    requires i + len <= |s| && b + len <= buf.Length
    modifies buf
    ensures buf[..b + len] == old(buf[..b]) + s[i..i + len]
  {
    var n := 0;
    while n < len
      invariant n <= len && buf[..b + n] == old(buf[..b]) + s[i..i + n]
    {
      buf[b + n] := s[i + n];
      n := n + 1;
    }
  }

  /** One round of the loop of `parse_string`. */
  method CharInto(s: bytes, i: nat, buf: array<byte>, b: nat) returns (ok: bool, end: nat, n: nat)
    requires i <= |s| && At(s, i) != QUOTE && b + 4 <= buf.Length
    modifies buf
    ensures ok == ParseChar(s, i).Ok?
    ensures ok ==> end == ParseChar(s, i).end && n == |ParseChar(s, i).value|
    ensures ok ==> buf[..b + n] == old(buf[..b]) + ParseChar(s, i).value
  {
    var c := At(s, i);
    if c == BACKSLASH {
      ok, end, n := EscapeInto(s, i + 1, buf, b);
    } else if c <= 0x1F {
      return false, i, 0;
    } else {
      Utf8.ValidateStaysInside(s, i);
      var len := Utf8.ValidateCz(s, i);
      if len == 0 {
        return false, i, 0;
      }
      Echo(s, i, len, buf, b);
      return true, i + len, len;
    }
  }

  lemma StringHasNoNul(s: bytes, i: nat)
    requires i <= |s| && ParseString(s, i).Ok?
    ensures Utf8.Text(ParseString(s, i).value) && 0 !in ParseString(s, i).value
  {
    var items := JsonParsing.StringSound(s, i);
    JsonParsing.StringMeansText(items);
    Utf8.TextHasNoNul(ParseString(s, i).value);
  }

  /** `parse_string`. Where no string is asked for, the characters go to a buffer of four bytes. */
  method String(h: Heap, s: bytes, i: nat, out: bool) returns (ok: bool, end: nat, str: Ptr)
    requires i <= |s|
    modifies h
    ensures ok == ParseString(s, i).Ok? && end == if ok then ParseString(s, i).end else i
    ensures h.buffers == old(h.buffers)
    ensures !(ok && out) ==> h.m == old(h.m)
    ensures ok && out ==> str != NULL && str !in old(h.m).texts
    ensures ok && out ==> h.m == old(h.m).(texts := old(h.m).texts[str := ParseString(s, i).value])
  {
    if At(s, i) != QUOTE {
      return false, i, NULL;
    }
    var j, b: nat := i + 1, 0;
    var sb: SB? := null;
    var buf: array<byte>;
    if out {
      sb := new SB(h);
      sb.Need(h, 4);
      buf, b := sb.start, sb.cur;
    } else {
      buf := new byte[4];
    }
    ghost var acc: bytes := [];
    NothingResumed(ParseChars(s, j));
    while At(s, j) != QUOTE
      invariant j <= |s| && Resumed(acc, ParseChars(s, j)) == ParseString(s, i)
      invariant h.m == old(h.m) && fresh(buf) && b + 4 <= buf.Length
      invariant out ==>
        && sb != null && fresh(sb) && sb.Valid() && buf == sb.start && b == sb.cur && sb.Contents() == acc
        && sb.end - sb.cur >= 4 && h.buffers == old(h.buffers) + {buf} && buf !in old(h.buffers)
      invariant !out ==> h.buffers == old(h.buffers)
      decreases |s| - j
    {
      CharsStep(s, j, acc);
      var more, k, n := CharInto(s, j, buf, b);
      if !more {
        if out {
          sb.Free(h);
        }
        return false, i, NULL;
      }
      acc := acc + ParseChar(s, j).value;
      j := k;
      if out {
        sb.Commit(h, b + n, 4);
        buf, b := sb.start, sb.cur;
      } else {
        b := 0;
      }
    }
    StringHasNoNul(s, i);
    assert acc + [] == acc;
    str := NULL;
    if out {
      str := sb.Finish(h);
    }
    return true, j + 1, str;
  }
}
