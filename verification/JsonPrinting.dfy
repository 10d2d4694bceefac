/** What the two printers of src/util/json.c write, as functions on values. */
module JsonPrinting {
  import opened Bytes
  import opened JsonGrammar
  import opened JsonSyntax
  import Utf8

  const NEWLINE: byte := 0x0A
  const UNIT_SEPARATOR: byte := 0x1F

  // The printers

  /** The letter of the two-byte escape that `emit_string` writes for a byte. */
  function EscapeLetter(c: byte): Option<byte> {
    if c == QUOTE || c == BACKSLASH then Some(c)
    else if c == 0x08 then Some(0x62)
    else if c == 0x0C then Some(0x66)
    else if c == 0x0A then Some(0x6E)
    else if c == 0x0D then Some(0x72)
    else if c == 0x09 then Some(0x74)
    else None
  }

  function HexChar(d: nat): byte
    requires d < 16
  {
    if d < 10 then 0x30 + d else 0x41 + (d - 10)
  }

  /** `write_hex16`. */
  function WriteHex16(v: nat): bytes
    requires v <= 0xFFFF
  {
    [HexChar(v / 0x1000), HexChar(v / 0x100 % 0x10), HexChar(v / 0x10 % 0x10), HexChar(v % 0x10)]
  }

  /** What one round of the loop of `emit_string` writes for the character `ch`. */
  function EmitChar(ch: bytes): bytes
    requires ch != []
  {
    if EscapeLetter(ch[0]).Some? then [BACKSLASH, EscapeLetter(ch[0]).value]
    else if ch[0] < 0x1F then UnicodeText(WriteHex16(ch[0]))
    else ch
  }

  function EmitChars(str: bytes): bytes
    requires Utf8.Text(str)
  {
    if str == [] then
      []
    else
      Utf8.ValidateStaysInside(str, 0);
      var n := Utf8.ValidateCz(str, 0);
      EmitChar(str[..n]) + EmitChars(str[n..])
  }

  /** `emit_string`. */
  function EmitString(str: bytes): bytes
    requires Utf8.Text(str)
  {
    [QUOTE] + (EmitChars(str) + [QUOTE])
  }

  /** `number_is_valid`. */
  predicate NumberIsValid(text: bytes) {
    ParseNumber(text, 0).Ok? && At(text, ParseNumber(text, 0).end) == 0
  }

  /** `emit_number`, for the text that `sprintf` makes of the number. */
  function EmitNumber(text: bytes): bytes {
    if NumberIsValid(text) then text else NULL_TEXT
  }

  /** The values that a tree of nodes can hold: strings and keys are NUL-free UTF-8, as
      `emit_string` asserts, and number texts are C strings. */
  predicate Printable(v: Json) {
    match v
    case Null => true
    case Bool(_) => true
    case Str(s) => Utf8.Text(s)
    case Num(text) => 0 !in text
    case Arr(elems) => forall e <- elems :: Printable(e)
    case Obj(members) => forall m <- members :: Utf8.Text(m.key) && Printable(m.value)
  }

  /** `emit_value`. */
  function EmitValue(v: Json): bytes
    requires Printable(v)
    decreases v, 1
  {
    match v
    case Null => NULL_TEXT
    case Bool(b) => if b then TRUE_TEXT else FALSE_TEXT
    case Str(s) => EmitString(s)
    case Num(text) => EmitNumber(text)
    case Arr(elems) => [LBRACKET] + (EmitElements(elems) + [RBRACKET])
    case Obj(members) => [LBRACE] + (EmitMembers(members) + [RBRACE])
  }

  /** The loop of `emit_array`. */
  function EmitElements(es: seq<Json>): bytes
    requires forall e <- es :: Printable(e)
    decreases es, 0
  {
    if es == [] then []
    else if |es| == 1 then EmitValue(es[0])
    else EmitValue(es[0]) + ([COMMA] + EmitElements(es[1..]))
  }

  /** The loop of `emit_object`. */
  function EmitMembers(ms: seq<Member>): bytes
    requires forall m <- ms :: Utf8.Text(m.key) && Printable(m.value)
    decreases ms, 0
  {
    if ms == [] then []
    else if |ms| == 1 then EmitMember(ms[0])
    else EmitMember(ms[0]) + ([COMMA] + EmitMembers(ms[1..]))
  }

  function EmitMember(m: Member): bytes
    requires Utf8.Text(m.key) && Printable(m.value)
    decreases m, 2
  {
    EmitString(m.key) + ([COLON] + EmitValue(m.value))
  }

  /** `emit_value_indented`. */
  function EmitIndented(v: Json, space: bytes, level: nat): bytes
    requires Printable(v)
    decreases v, 1
  {
    match v
    case Null => NULL_TEXT
    case Bool(b) => if b then TRUE_TEXT else FALSE_TEXT
    case Str(s) => EmitString(s)
    case Num(text) => EmitNumber(text)
    case Arr(elems) =>
      if elems == [] then [LBRACKET, RBRACKET]
      else [LBRACKET] + ([NEWLINE] + (IndentedElements(elems, space, level) + (Repeat(space, level) + [RBRACKET])))
    case Obj(members) =>
      if members == [] then [LBRACE, RBRACE]
      else [LBRACE] + ([NEWLINE] + (IndentedMembers(members, space, level) + (Repeat(space, level) + [RBRACE])))
  }

  /** The loop of `emit_array_indented`. */
  function IndentedElements(es: seq<Json>, space: bytes, level: nat): bytes
    requires forall e <- es :: Printable(e)
    decreases es, 0
  {
    if es == [] then
      []
    else
      Repeat(space, level + 1) + (EmitIndented(es[0], space, level + 1) +
        (if |es| == 1 then [NEWLINE] else [COMMA, NEWLINE] + IndentedElements(es[1..], space, level)))
  }

  /** The loop of `emit_object_indented`. */
  function IndentedMembers(ms: seq<Member>, space: bytes, level: nat): bytes
    requires forall m <- ms :: Utf8.Text(m.key) && Printable(m.value)
    decreases ms, 0
  {
    if ms == [] then
      []
    else
      Repeat(space, level + 1) + (IndentedMember(ms[0], space, level + 1) +
        (if |ms| == 1 then [NEWLINE] else [COMMA, NEWLINE] + IndentedMembers(ms[1..], space, level)))
  }

  function IndentedMember(m: Member, space: bytes, level: nat): bytes
    requires Utf8.Text(m.key) && Printable(m.value)
    decreases m, 2
  {
    EmitString(m.key) + ([COLON, 0x20] + EmitIndented(m.value, space, level))
  }

  // What is lost by printing

  /** The value with every number whose text is no JSON number made null. */
  function Normal(v: Json): Json {
    match v
    case Null => v
    case Bool(_) => v
    case Str(_) => v
    case Num(text) => if NumberIsValid(text) then v else Null
    case Arr(elems) => Arr(NormalElements(elems))
    case Obj(members) => Obj(NormalMembers(members))
  }

  function NormalElements(es: seq<Json>): seq<Json> {
    if es == [] then [] else [Normal(es[0])] + NormalElements(es[1..])
  }

  function NormalMembers(ms: seq<Member>): seq<Member> {
    if ms == [] then [] else [Member(ms[0].key, Normal(ms[0].value))] + NormalMembers(ms[1..])
  }

  /** Some string or key holds the byte 0x1F, which is printed as it is and never accepted. */
  predicate HoldsUnitSeparator(v: Json) {
    match v
    case Null => false
    case Bool(_) => false
    case Str(s) => UNIT_SEPARATOR in s
    case Num(_) => false
    case Arr(elems) => exists e <- elems :: HoldsUnitSeparator(e)
    case Obj(members) => exists m <- members :: UNIT_SEPARATOR in m.key || HoldsUnitSeparator(m.value)
  }
}
