/** The JSON texts of sections 2 to 7 of RFC 8259, as derivation trees: what text a tree derives
    and what value it means. Nothing here knows how a text is parsed or printed. */
module JsonGrammar {
  import opened Bytes
  import Utf8

  /** A JSON value. Objects keep their members in order, duplicate keys included; a number is the
      text it is written as. */
  datatype Json =
    | Null
    | Bool(b: bool)
    | Str(s: bytes)
    | Num(text: bytes)
    | Arr(elems: seq<Json>)
    | Obj(members: seq<Member>)

  datatype Member = Member(key: bytes, value: Json)

  const QUOTE: byte := 0x22
  const PLUS: byte := 0x2B
  const COMMA: byte := 0x2C
  const MINUS: byte := 0x2D
  const DOT: byte := 0x2E
  const ZERO: byte := 0x30
  const COLON: byte := 0x3A
  const LBRACKET: byte := 0x5B
  const BACKSLASH: byte := 0x5C
  const RBRACKET: byte := 0x5D
  const LOWER_U: byte := 0x75
  const LBRACE: byte := 0x7B
  const RBRACE: byte := 0x7D

  const NULL_TEXT: bytes := [0x6E, 0x75, 0x6C, 0x6C]
  const TRUE_TEXT: bytes := [0x74, 0x72, 0x75, 0x65]
  const FALSE_TEXT: bytes := [0x66, 0x61, 0x6C, 0x73, 0x65]

  predicate IsSpace(c: byte) {
    c == 0x09 || c == 0x0A || c == 0x0D || c == 0x20
  }

  predicate IsDigit(c: byte) {
    0x30 <= c <= 0x39
  }

  predicate Spaces(t: bytes) {
    forall k | 0 <= k < |t| :: IsSpace(t[k])
  }

  predicate Digits(t: bytes) {
    t != [] && forall k | 0 <= k < |t| :: IsDigit(t[k])
  }

  // Strings (section 7)

  /** One character of a string: written as itself, as a two-byte escape, as one \uXXXX or as the
      two \uXXXX of a surrogate pair. */
  datatype Item =
    | Raw(ch: bytes)
    | Short(c: byte)
    | Unicode(hex: bytes)
    | Pair(high: bytes, low: bytes)

  predicate IsHex(c: byte) {
    0x30 <= c <= 0x39 || 0x41 <= c <= 0x46 || 0x61 <= c <= 0x66
  }

  function HexDigit(c: byte): nat
    requires IsHex(c)
  {
    if c <= 0x39 then c - 0x30 else if c <= 0x46 then c - 0x41 + 10 else c - 0x61 + 10
  }

  predicate Hex16(h: bytes) {
    |h| == 4 && IsHex(h[0]) && IsHex(h[1]) && IsHex(h[2]) && IsHex(h[3])
  }

  function Hex16Value(h: bytes): (v: nat)
    requires Hex16(h)
    ensures v <= 0xFFFF
  {
    ((HexDigit(h[0]) * 16 + HexDigit(h[1])) * 16 + HexDigit(h[2])) * 16 + HexDigit(h[3])
  }

  /** The byte that a two-byte escape stands for. */
  function ShortEscape(c: byte): Option<byte> {
    if c == QUOTE || c == BACKSLASH || c == 0x2F then Some(c)
    else if c == 0x62 then Some(0x08)
    else if c == 0x66 then Some(0x0C)
    else if c == 0x6E then Some(0x0A)
    else if c == 0x72 then Some(0x0D)
    else if c == 0x74 then Some(0x09)
    else None
  }

  /** The escapes \u0000 and unpaired surrogates are left out. */
  predicate ItemDerives(it: Item) {
    match it
    case Raw(ch) => Utf8.Utf8Char(ch) && ch[0] >= 0x20 && ch[0] != QUOTE && ch[0] != BACKSLASH
    case Short(c) => ShortEscape(c).Some?
    case Unicode(h) => Hex16(h) && Hex16Value(h) != 0 && !(0xD800 <= Hex16Value(h) <= 0xDFFF)
    case Pair(h, l) =>
      Hex16(h) && Hex16(l) && Utf8.HighSurrogate(Hex16Value(h)) && Utf8.LowSurrogate(Hex16Value(l))
  }

  function ItemText(it: Item): bytes {
    match it
    case Raw(ch) => ch
    case Short(c) => [BACKSLASH, c]
    case Unicode(h) => UnicodeText(h)
    case Pair(h, l) => UnicodeText(h) + UnicodeText(l)
  }

  function UnicodeText(h: bytes): bytes {
    [BACKSLASH] + ([LOWER_U] + h)
  }

  function ItemMeaning(it: Item): bytes
    requires ItemDerives(it)
  {
    match it
    case Raw(ch) => ch
    case Short(c) => [ShortEscape(c).value]
    case Unicode(h) => Utf8.WriteChar(Hex16Value(h))
    case Pair(h, l) => Utf8.WriteChar(PairMeaning(Hex16Value(h), Hex16Value(l)))
  }

  function PairMeaning(h: nat, l: nat): (u: nat)
    requires Utf8.HighSurrogate(h) && Utf8.LowSurrogate(l)
    ensures Utf8.Scalar(u) && u >= 0x10000
  {
    0x10000 + (h - 0xD800) * 0x400 + (l - 0xDC00)
  }

  predicate StringDerives(items: seq<Item>) {
    forall it <- items :: ItemDerives(it)
  }

  function ItemsText(items: seq<Item>): bytes {
    if items == [] then [] else ItemText(items[0]) + ItemsText(items[1..])
  }

  function StringText(items: seq<Item>): bytes {
    [QUOTE] + (ItemsText(items) + [QUOTE])
  }

  function StringMeaning(items: seq<Item>): bytes
    requires StringDerives(items)
  {
    if items == [] then [] else ItemMeaning(items[0]) + StringMeaning(items[1..])
  }

  // Numbers (section 6)

  datatype Number = Number(minus: bool, whole: bytes, frac: Option<bytes>, exp: Option<Exponent>)

  datatype Exponent = Exponent(e: byte, sign: bytes, digits: bytes)

  predicate NumberDerives(n: Number) {
    && (n.whole == [ZERO] || (Digits(n.whole) && n.whole[0] != ZERO))
    && (n.frac.Some? ==> Digits(n.frac.value))
    && (n.exp.Some? ==>
          && (n.exp.value.e == 0x45 || n.exp.value.e == 0x65)
          && (n.exp.value.sign == [] || n.exp.value.sign == [PLUS] || n.exp.value.sign == [MINUS])
          && Digits(n.exp.value.digits))
  }

  function FracText(f: Option<bytes>): bytes {
    if f.None? then [] else [DOT] + f.value
  }

  function ExpText(x: Option<Exponent>): bytes {
    if x.None? then [] else [x.value.e] + (x.value.sign + x.value.digits)
  }

  function NumberText(n: Number): bytes {
    (if n.minus then [MINUS] else []) + (n.whole + (FracText(n.frac) + ExpText(n.exp)))
  }

  // Values, arrays and objects (sections 2 to 5)

  datatype Value =
    | NullV
    | TrueV
    | FalseV
    | StringV(items: seq<Item>)
    | NumberV(number: Number)
    | EmptyArrayV(space: bytes)
    | ArrayV(elems: Elements)
    | EmptyObjectV(space: bytes)
    | ObjectV(members: Members)

  /** What stands between `[` and the closing bracket, which is included. */
  datatype Elements = Elements(before: bytes, value: Value, after: bytes, rest: MoreElements)

  datatype MoreElements = NoElements | CommaElements(elems: Elements)

  datatype Members = Members(before: bytes, pair: KeyValue, after: bytes, rest: MoreMembers)

  datatype KeyValue = KeyValue(key: seq<Item>, preColon: bytes, postColon: bytes, value: Value)

  datatype MoreMembers = NoMembers | CommaMembers(members: Members)

  predicate ValueDerives(t: Value) {
    match t
    case NullV => true
    case TrueV => true
    case FalseV => true
    case StringV(items) => StringDerives(items)
    case NumberV(n) => NumberDerives(n)
    case EmptyArrayV(w) => Spaces(w)
    case ArrayV(e) => ElementsDerive(e)
    case EmptyObjectV(w) => Spaces(w)
    case ObjectV(m) => MembersDerive(m)
  }

  predicate ElementsDerive(e: Elements) {
    && Spaces(e.before) && ValueDerives(e.value) && Spaces(e.after)
    && (e.rest.CommaElements? ==> ElementsDerive(e.rest.elems))
  }

  predicate MembersDerive(m: Members) {
    && Spaces(m.before) && KeyValueDerives(m.pair) && Spaces(m.after)
    && (m.rest.CommaMembers? ==> MembersDerive(m.rest.members))
  }

  predicate KeyValueDerives(p: KeyValue) {
    StringDerives(p.key) && Spaces(p.preColon) && Spaces(p.postColon) && ValueDerives(p.value)
  }

  function ValueText(t: Value): bytes {
    match t
    case NullV => NULL_TEXT
    case TrueV => TRUE_TEXT
    case FalseV => FALSE_TEXT
    case StringV(items) => StringText(items)
    case NumberV(n) => NumberText(n)
    case EmptyArrayV(w) => [LBRACKET] + (w + [RBRACKET])
    case ArrayV(e) => [LBRACKET] + ElementsText(e)
    case EmptyObjectV(w) => [LBRACE] + (w + [RBRACE])
    case ObjectV(m) => [LBRACE] + MembersText(m)
  }

  function ElementsText(e: Elements): bytes {
    e.before + (ValueText(e.value) + (e.after + MoreElementsText(e.rest)))
  }

  function MoreElementsText(r: MoreElements): bytes {
    match r
    case NoElements => [RBRACKET]
    case CommaElements(e) => [COMMA] + ElementsText(e)
  }

  function MembersText(m: Members): bytes {
    m.before + (KeyValueText(m.pair) + (m.after + MoreMembersText(m.rest)))
  }

  function MoreMembersText(r: MoreMembers): bytes {
    match r
    case NoMembers => [RBRACE]
    case CommaMembers(m) => [COMMA] + MembersText(m)
  }

  function KeyValueText(p: KeyValue): bytes {
    StringText(p.key) + (p.preColon + ([COLON] + (p.postColon + ValueText(p.value))))
  }

  function ValueMeaning(t: Value): Json
    requires ValueDerives(t)
  {
    match t
    case NullV => Null
    case TrueV => Bool(true)
    case FalseV => Bool(false)
    case StringV(items) => Str(StringMeaning(items))
    case NumberV(n) => Num(NumberText(n))
    case EmptyArrayV(_) => Arr([])
    case ArrayV(e) => Arr(ElementsMeaning(e))
    case EmptyObjectV(_) => Obj([])
    case ObjectV(m) => Obj(MembersMeaning(m))
  }

  function ElementsMeaning(e: Elements): seq<Json>
    requires ElementsDerive(e)
  {
    match e.rest
    case NoElements => [ValueMeaning(e.value)]
    case CommaElements(r) => [ValueMeaning(e.value)] + ElementsMeaning(r)
  }

  function MembersMeaning(m: Members): seq<Member>
    requires MembersDerive(m)
  {
    match m.rest
    case NoMembers => [KeyValueMeaning(m.pair)]
    case CommaMembers(r) => [KeyValueMeaning(m.pair)] + MembersMeaning(r)
  }

  function KeyValueMeaning(p: KeyValue): Member
    requires KeyValueDerives(p)
  {
    Member(StringMeaning(p.key), ValueMeaning(p.value))
  }

  /** A whole document: a value with blanks around it. */
  datatype Document = Document(before: bytes, value: Value, after: bytes)

  predicate DocumentDerives(d: Document) {
    Spaces(d.before) && ValueDerives(d.value) && Spaces(d.after)
  }

  function DocumentText(d: Document): bytes {
    d.before + (ValueText(d.value) + d.after)
  }

  /** `s` is a JSON text that means `v`. */
  ghost predicate Derives(s: bytes, v: Json) {
    exists d: Document :: DocumentDerives(d) && DocumentText(d) == s && ValueMeaning(d.value) == v
  }
}
