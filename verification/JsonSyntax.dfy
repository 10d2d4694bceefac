/** What the cursor parser of src/util/json.c computes, as functions on positions in the text. */
module JsonSyntax {
  import opened Bytes
  import opened JsonGrammar
  import Utf8

  /** Failure leaves the cursor alone; success moves it to `end`. */
  datatype Parsed<+T> = Fail | Ok(value: T, end: nat)

  function SkipSpace(s: bytes, i: nat): (j: nat)
    requires i <= |s|
    ensures i <= j <= |s|
    decreases |s| - i
  {
    if IsSpace(At(s, i)) then SkipSpace(s, i + 1) else i
  }

  function SkipDigits(s: bytes, i: nat): (j: nat)
    requires i <= |s|
    ensures i <= j <= |s|
    ensures IsDigit(At(s, i)) ==> i < j
    decreases |s| - i
  {
    if IsDigit(At(s, i)) then SkipDigits(s, i + 1) else i
  }

  /** The end of the number that starts at `i`, part by part. */
  function WholeEnd(s: bytes, i: nat): (r: Option<nat>)
    requires i <= |s|
    ensures r.Some? ==> i < r.value <= |s|
  {
    if At(s, i) == ZERO then Some(i + 1)
    else if !IsDigit(At(s, i)) then None
    else Some(SkipDigits(s, i))
  }

  function FracEnd(s: bytes, i: nat): (r: Option<nat>)
    requires i <= |s|
    ensures r.Some? ==> i <= r.value <= |s|
  {
    if At(s, i) != DOT then Some(i)
    else if !IsDigit(At(s, i + 1)) then None
    else Some(SkipDigits(s, i + 1))
  }

  function ExpEnd(s: bytes, i: nat): (r: Option<nat>)
    requires i <= |s|
    ensures r.Some? ==> i <= r.value <= |s|
  {
    if At(s, i) != 0x45 && At(s, i) != 0x65 then Some(i)
    else
      var j := if At(s, i + 1) == PLUS || At(s, i + 1) == MINUS then i + 2 else i + 1;
      if !IsDigit(At(s, j)) then None else Some(SkipDigits(s, j))
  }

  /** `parse_number`; the value is the text that the number is written as. */
  function ParseNumber(s: bytes, i: nat): (r: Parsed<bytes>)
    requires i <= |s|
    ensures r.Ok? ==> i < r.end <= |s| && r.value == s[i..r.end]
  {
    var a := if At(s, i) == MINUS then i + 1 else i;
    var b := WholeEnd(s, a);
    if b.None? then Fail else
    var c := FracEnd(s, b.value);
    if c.None? then Fail else
    var d := ExpEnd(s, c.value);
    if d.None? then Fail else Ok(s[i..d.value], d.value)
  }

  /** `parse_hex16`. */
  function ParseHex16(s: bytes, i: nat): (r: Parsed<nat>)
    requires i <= |s|
    ensures r.Ok? ==> r.end == i + 4 <= |s| && r.value <= 0xFFFF
  {
    if i + 4 <= |s| && Hex16(s[i..i + 4]) then Ok(Hex16Value(s[i..i + 4]), i + 4) else Fail
  }

  /** One round of the loop of `parse_string`: the bytes stored for the character at `i`. */
  function ParseChar(s: bytes, i: nat): (r: Parsed<bytes>)
    requires i <= |s|
    ensures r.Ok? ==> i < r.end <= |s| && 1 <= |r.value| <= 4
  {
    var c := At(s, i);
    if c == BACKSLASH then
      ParseEscape(s, i + 1)
    else if c <= 0x1F then
      Fail
    else
      Utf8.ValidateStaysInside(s, i);
      var len := Utf8.ValidateCz(s, i);
      if len == 0 then Fail else Ok(s[i..i + len], i + len)
  }

  function ParseEscape(s: bytes, i: nat): (r: Parsed<bytes>)
    requires i <= |s|
    ensures r.Ok? ==> i < r.end <= |s| && 1 <= |r.value| <= 4
  {
    var c := At(s, i);
    if ShortEscape(c).Some? then
      Ok([ShortEscape(c).value], i + 1)
    else if c == LOWER_U then
      var uc := ParseHex16(s, i + 1);
      if uc.Fail? then
        Fail
      else if uc.value >= 0xD800 && uc.value <= 0xDFFF then
        if At(s, uc.end) != BACKSLASH || At(s, uc.end + 1) != LOWER_U then
          Fail
        else
          var lc := ParseHex16(s, uc.end + 2);
          if lc.Fail? then
            Fail
          else
            var u := Utf8.FromSurrogatePair(uc.value, lc.value);
            if u.None? then Fail else Ok(Utf8.WriteChar(u.value), lc.end)
      else if uc.value == 0 then
        Fail
      else
        Ok(Utf8.WriteChar(uc.value), uc.end)
    else
      Fail
  }

  /** The loop of `parse_string`, from the position behind the opening quote. */
  function ParseChars(s: bytes, i: nat): (r: Parsed<bytes>)
    requires i <= |s|
    ensures r.Ok? ==> i < r.end <= |s|
    decreases |s| - i
  {
    if At(s, i) == QUOTE then
      Ok([], i + 1)
    else
      var c := ParseChar(s, i);
      if c.Fail? then Fail else
      var rest := ParseChars(s, c.end);
      if rest.Fail? then Fail else Ok(c.value + rest.value, rest.end)
  }

  /** `parse_string`. */
  function ParseString(s: bytes, i: nat): (r: Parsed<bytes>)
    requires i <= |s|
    ensures r.Ok? ==> i < r.end <= |s|
  {
    if At(s, i) != QUOTE then Fail else ParseChars(s, i + 1)
  }

  /** `expect_literal` followed by the making of the node. */
  function ParseLiteral(s: bytes, i: nat, text: bytes, v: Json): (r: Parsed<Json>)
    requires text != []
    ensures r.Ok? ==> i < r.end <= |s|
  {
    if After(s, i, text).Some? then Ok(v, After(s, i, text).value) else Fail
  }

  /** `parse_value`. */
  function ParseValue(s: bytes, i: nat): (r: Parsed<Json>)
    requires i <= |s|
    ensures r.Ok? ==> i < r.end <= |s|
    decreases |s| - i, 1
  {
    var c := At(s, i);
    if c == 0x6E then
      ParseLiteral(s, i, NULL_TEXT, Null)
    else if c == 0x66 then
      ParseLiteral(s, i, FALSE_TEXT, Bool(false))
    else if c == 0x74 then
      ParseLiteral(s, i, TRUE_TEXT, Bool(true))
    else if c == QUOTE then
      var r := ParseString(s, i);
      if r.Fail? then Fail else Ok(Str(r.value), r.end)
    else if c == LBRACKET then
      ParseArray(s, i)
    else if c == LBRACE then
      ParseObject(s, i)
    else
      var r := ParseNumber(s, i);
      if r.Fail? then Fail else Ok(Num(r.value), r.end)
  }

  /** `parse_array`. */
  function ParseArray(s: bytes, i: nat): (r: Parsed<Json>)
    requires i <= |s|
    ensures r.Ok? ==> i < r.end <= |s|
    decreases |s| - i, 0
  {
    if At(s, i) != LBRACKET then Fail else
    var j := SkipSpace(s, i + 1);
    if At(s, j) == RBRACKET then Ok(Arr([]), j + 1) else
    var r := ParseElements(s, j);
    if r.Fail? then Fail else Ok(Arr(r.value), r.end)
  }

  /** The loop of `parse_array`. */
  function ParseElements(s: bytes, i: nat): (r: Parsed<seq<Json>>)
    requires i <= |s|
    ensures r.Ok? ==> i < r.end <= |s|
    decreases |s| - i, 2
  {
    var v := ParseValue(s, i);
    if v.Fail? then Fail else
    var j := SkipSpace(s, v.end);
    if At(s, j) == RBRACKET then
      Ok([v.value], j + 1)
    else if At(s, j) != COMMA then
      Fail
    else
      var rest := ParseElements(s, SkipSpace(s, j + 1));
      if rest.Fail? then Fail else Ok([v.value] + rest.value, rest.end)
  }

  /** `parse_object`. */
  function ParseObject(s: bytes, i: nat): (r: Parsed<Json>)
    requires i <= |s|
    ensures r.Ok? ==> i < r.end <= |s|
    decreases |s| - i, 0
  {
    if At(s, i) != LBRACE then Fail else
    var j := SkipSpace(s, i + 1);
    if At(s, j) == RBRACE then Ok(Obj([]), j + 1) else
    var r := ParseMembers(s, j);
    if r.Fail? then Fail else Ok(Obj(r.value), r.end)
  }

  /** The loop of `parse_object`. */
  function ParseMembers(s: bytes, i: nat): (r: Parsed<seq<Member>>)
    requires i <= |s|
    ensures r.Ok? ==> i < r.end <= |s|
    decreases |s| - i, 2
  {
    var m := ParseMember(s, i);
    if m.Fail? then Fail else
    var j := SkipSpace(s, m.end);
    if At(s, j) == RBRACE then
      Ok([m.value], j + 1)
    else if At(s, j) != COMMA then
      Fail
    else
      var rest := ParseMembers(s, SkipSpace(s, j + 1));
      if rest.Fail? then Fail else Ok([m.value] + rest.value, rest.end)
  }

  function ParseMember(s: bytes, i: nat): (r: Parsed<Member>)
    requires i <= |s|
    ensures r.Ok? ==> i < r.end <= |s|
    decreases |s| - i, 0
  {
    var key := ParseString(s, i);
    if key.Fail? then Fail else
    var j := SkipSpace(s, key.end);
    if At(s, j) != COLON then Fail else
    var v := ParseValue(s, SkipSpace(s, j + 1));
    if v.Fail? then Fail else Ok(Member(key.value, v.value), v.end)
  }

  /** `json_decode`: the value of a C string, or None for the null pointer. */
  function Decode(s: bytes): Option<Json> {
    var v := ParseValue(s, SkipSpace(s, 0));
    if v.Fail? || At(s, SkipSpace(s, v.end)) != 0 then None else Some(v.value)
  }
}
