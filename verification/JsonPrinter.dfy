/** The printers of src/util/json.c: what they append to the buffer for a string, a number or a tree. */
module JsonPrinter {
  import opened Bytes
  import opened Memory
  import opened StringBuffer
  import opened JsonGrammar
  import opened JsonTree
  import opened JsonLinks
  import Scan = JsonScanner
  import P = JsonPrinting
  import Utf8

  /** `write_hex16`. */
  method WriteHex16(v: nat, buf: array<byte>, b: nat)
    requires v <= 0xFFFF && b + 4 <= buf.Length
    modifies buf
    ensures buf[..b + 4] == old(buf[..b]) + P.WriteHex16(v)
  {
    buf[b] := P.HexChar(v / 0x1000 % 0x10);
    buf[b + 1] := P.HexChar(v / 0x100 % 0x10);
    buf[b + 2] := P.HexChar(v / 0x10 % 0x10);
    buf[b + 3] := P.HexChar(v % 0x10);
  }

  /** One round of the loop of `emit_string`, which writes at most six bytes. */
  method EmitChar(str: bytes, i: nat, buf: array<byte>, b: nat) returns (j: nat, e: nat)
    requires i < |str| && Utf8.ValidateCz(str, i) > 0 && b + 6 <= buf.Length
    modifies buf
    ensures i < j <= |str| && j - i == Utf8.ValidateCz(str, i)
    ensures e <= b + 6 && buf[..e] == old(buf[..b]) + P.EmitChar(str[i..j])
  {
    var c := str[i];
    var letter := P.EscapeLetter(c);
    var len := Utf8.ValidateCz(str, i);
    Utf8.ValidateStaysInside(str, i);
    if letter.Some? {
      buf[b] := BACKSLASH;
      buf[b + 1] := letter.value;
      return i + 1, b + 2;
    } else if c < 0x1F {
      var (n, u) := Utf8.ReadChar(str, i);
      buf[b] := BACKSLASH;
      buf[b + 1] := LOWER_U;
      WriteHex16(u, buf, b + 2);
      return i + n, b + 6;
    } else {
      Scan.Echo(str, i, len, buf, b);
      return i + len, b + len;
    }
  }

  lemma CharAt(str: bytes, i: nat)
    requires i < |str| && Utf8.Text(str[i..])
    ensures Utf8.ValidateCz(str, i) == Utf8.ValidateCz(str[i..], 0) > 0
  {
  }

  /** What the rest of the loop writes. */
  lemma EmitRest(str: bytes, i: nat, j: nat, text: bytes)
    requires i < j <= |str| && Utf8.Text(str[i..]) && j - i == Utf8.ValidateCz(str, i)
    ensures Utf8.Text(str[j..])
    ensures text + P.EmitChars(str[i..]) == text + P.EmitChar(str[i..j]) + P.EmitChars(str[j..])
  {
    CharAt(str, i);
    Utf8.ValidateStaysInside(str[i..], 0);
    assert str[i..][..j - i] == str[i..j] && str[i..][j - i..] == str[j..];
    Assoc(text, P.EmitChar(str[i..j]), P.EmitChars(str[j..]));
  }

  lemma Bracketed(was: bytes, open: bytes, mid: bytes, close: bytes)
    ensures was + open + mid + close == was + (open + (mid + close))
  {
    Assoc(was + open, mid, close);
    Assoc(was, open, mid + close);
  }

  /** The loop of `emit_string`: from position `b` on, with thirteen bytes kept free. */
  method EmitChars(h: Heap, out: SB, str: bytes, b: nat) returns (e: nat)
    requires out.Valid() && out.start in h.buffers && Utf8.Text(str) && out.cur <= b && b + 13 <= out.end
    modifies out, out.start, h`buffers
    ensures out.Valid() && out.cur <= e && e + 13 <= out.end
    ensures out.start[..e] == old(out.start[..b]) + P.EmitChars(str)
    ensures out.start == old(out.start) || fresh(out.start)
    ensures h.buffers == old(h.buffers) - {old(out.start)} + {out.start}
  {
    ghost var text := out.start[..b];
    var i := 0;
    e := b;
    assert str[0..] == str;
    while i < |str|
      invariant i <= |str| && Utf8.Text(str[i..])
      invariant out.Valid() && out.cur <= e && e + 13 <= out.end
      invariant out.start == old(out.start) || fresh(out.start)
      invariant h.buffers == old(h.buffers) - {old(out.start)} + {out.start}
      invariant out.start[..e] == text && text + P.EmitChars(str[i..]) == old(out.start[..b]) + P.EmitChars(str)
    {
      CharAt(str, i);
      var j, k := EmitChar(str, i, out.start, e);
      EmitRest(str, i, j, text);
      text := text + P.EmitChar(str[i..j]);
      out.Commit(h, k, 14);
      e, i := out.cur, j;
    }
    assert text + [] == text;
  }

  /** `emit_string`. The fourteen bytes that are kept free are never exceeded. */
  method EmitString(h: Heap, out: SB, str: bytes)
    requires out.Valid() && out.start in h.buffers && Utf8.Text(str)
    modifies out, out.start, h`buffers
    ensures out.Valid() && out.Contents() == old(out.Contents()) + P.EmitString(str)
    ensures out.start == old(out.start) || fresh(out.start)
    ensures h.buffers == old(h.buffers) - {old(out.start)} + {out.start}
  {
    ghost var was := out.Contents();
    out.Need(h, 14);
    var b := out.cur;
    out.start[b] := QUOTE;
    b := b + 1;
    assert out.start[..b] == was + [QUOTE];
    b := EmitChars(h, out, str, b);
    ghost var text := out.start[..b];
    out.start[b] := QUOTE;
    b := b + 1;
    out.cur := b;
    assert out.start[..b] == text + [QUOTE];
    Bracketed(was, [QUOTE], P.EmitChars(str), [QUOTE]);
  }

  /** No character takes more than six bytes, and none of them less than its own length. */
  lemma {:induction false} EmitCharsLength(str: bytes)
    requires Utf8.Text(str)
    ensures |str| <= |P.EmitChars(str)| <= 6 * |str|
    decreases |str|
  {
    if str != [] {
      var ch, rest := Utf8.FirstChar(str);
      assert str[..|ch|] == ch && str[|ch|..] == rest;
      EmitCharsLength(rest);
    }
  }

  lemma EmitStringLength(str: bytes)
    requires Utf8.Text(str)
    ensures |str| + 2 <= |P.EmitString(str)| <= 6 * |str| + 2
  {
    EmitCharsLength(str);
  }

  /** `emit_number`, from the text that `sprintf` has made on. */
  method EmitNumber(h: Heap, out: SB, buf: bytes)
    requires out.Valid() && out.start in h.buffers
    modifies out, out.start, h`buffers
    ensures out.Valid() && out.Contents() == old(out.Contents()) + P.EmitNumber(buf)
    ensures out.start == old(out.start) || fresh(out.start)
    ensures h.buffers == old(h.buffers) - {old(out.start)} + {out.start}
  {
    var ok, end := Scan.Number(buf, 0);
    if ok && At(buf, end) == 0 {
      out.Put(h, buf);
    } else {
      out.Put(h, NULL_TEXT);
    }
  }

  /** What stands behind an element, depending on whether there is a next one. */
  function Separator(next: Ptr): bytes {
    if next != NULL then [COMMA] else []
  }

  /** What the loop of `emit_array` writes for the first of the elements that are left. */
  lemma FirstElement(m: Mem, f: Forest, text: bytes)
    requires f.Tree? && (f.rest.Tree? ==> f.rest.at != NULL) && forall e <- ValuesOf(m, f) :: P.Printable(e)
    ensures var v := ValueOf(m, f.at, f.kids); P.Printable(v)
    ensures forall e <- ValuesOf(m, f.rest) :: P.Printable(e)
    ensures var v := ValueOf(m, f.at, f.kids);
      text + P.EmitElements(ValuesOf(m, f)) ==
      text + P.EmitValue(v) + Separator(First(f.rest)) + P.EmitElements(ValuesOf(m, f.rest))
  {
    var v, vs := ValueOf(m, f.at, f.kids), ValuesOf(m, f.rest);
    assert ValuesOf(m, f) == [v] + vs && ([v] + vs)[1..] == vs;
    assert forall e <- vs :: e in [v] + vs;
    if f.rest.Tree? {
      Assoc(text, P.EmitValue(v), [COMMA] + P.EmitElements(vs));
      Assoc(text + P.EmitValue(v), [COMMA], P.EmitElements(vs));
    } else {
      assert text + P.EmitValue(v) + [] + [] == text + P.EmitValue(v);
    }
  }

  /** One round of the loop of `emit_array`. */
  method ElementRound(h: Heap, out: SB, element: Ptr, ghost kids: Forest) returns (next: Ptr)
    requires out.Valid() && out.start in h.buffers
    requires Body(h.m, element, kids) && P.Printable(ValueOf(h.m, element, kids))
    modifies out, out.start, h`buffers
    ensures out.Valid() && next == h.m.nodes[element].next
    ensures out.Contents() == old(out.Contents()) + P.EmitValue(ValueOf(h.m, element, kids)) + Separator(next)
    ensures out.start == old(out.start) || fresh(out.start)
    ensures h.buffers == old(h.buffers) - {old(out.start)} + {out.start}
    decreases kids, 4
  {
    EmitValue(h, out, element, kids);
    next := h.m.nodes[element].next;
    if next != NULL {
      out.Putc(h, COMMA);
    } else {
      assert out.Contents() + [] == out.Contents();
    }
  }

  /** The loop of `emit_array`. */
  method EmitElements(h: Heap, out: SB, first: Ptr, ghost parent: Ptr, ghost f: Forest)
    requires out.Valid() && out.start in h.buffers
    requires Chain(h.m, parent, false, NULL, f) && first == First(f)
    requires forall e <- ValuesOf(h.m, f) :: P.Printable(e)
    modifies out, out.start, h`buffers
    ensures out.Valid() && out.Contents() == old(out.Contents()) + P.EmitElements(ValuesOf(h.m, f))
    ensures out.start == old(out.start) || fresh(out.start)
    ensures h.buffers == old(h.buffers) - {old(out.start)} + {out.start}
    decreases f, 0
  {
    var element := first;
    ghost var rest, prev := f, NULL;
    ghost var goal := out.Contents() + P.EmitElements(ValuesOf(h.m, f));
    while element != NULL
      invariant element == First(rest) && (rest == f || rest < f) && Chain(h.m, parent, false, prev, rest)
      invariant forall e <- ValuesOf(h.m, rest) :: P.Printable(e)
      invariant out.Valid() && out.start in h.buffers
      invariant out.start == old(out.start) || fresh(out.start)
      invariant h.buffers == old(h.buffers) - {old(out.start)} + {out.start}
      invariant out.Contents() + P.EmitElements(ValuesOf(h.m, rest)) == goal
      decreases rest
    {
      FirstElement(h.m, rest, out.Contents());
      prev := element;
      element := ElementRound(h, out, element, rest.kids);
      rest := rest.rest;
    }
    assert out.Contents() + [] == out.Contents();
  }

  /** What the loop of `emit_object` writes for the first of the members that are left. */
  lemma FirstMember(m: Mem, f: Forest, text: bytes)
    requires f.Tree? && (f.rest.Tree? ==> f.rest.at != NULL) && forall e <- MembersOf(m, f) :: Utf8.Text(e.key) && P.Printable(e.value)
    ensures var v := MemberOf(m, f.at, f.kids); Utf8.Text(v.key) && P.Printable(v.value)
    ensures forall e <- MembersOf(m, f.rest) :: Utf8.Text(e.key) && P.Printable(e.value)
    ensures var v := MemberOf(m, f.at, f.kids);
      text + P.EmitMembers(MembersOf(m, f)) ==
      text + P.EmitMember(v) + Separator(First(f.rest)) + P.EmitMembers(MembersOf(m, f.rest))
  {
    var v, vs := MemberOf(m, f.at, f.kids), MembersOf(m, f.rest);
    assert MembersOf(m, f) == [v] + vs && ([v] + vs)[1..] == vs;
    assert forall e <- vs :: e in [v] + vs;
    if f.rest.Tree? {
      Assoc(text, P.EmitMember(v), [COMMA] + P.EmitMembers(vs));
      Assoc(text + P.EmitMember(v), [COMMA], P.EmitMembers(vs));
    } else {
      assert text + P.EmitMember(v) + [] + [] == text + P.EmitMember(v);
    }
  }

  /** A key, the colon and the value. */
  method EmitMember(h: Heap, out: SB, member: Ptr, ghost kids: Forest)
    requires out.Valid() && out.start in h.buffers
    requires Body(h.m, member, kids) && h.m.nodes[member].key in h.m.texts && h.m.nodes[member].key != NULL
    requires var v := MemberOf(h.m, member, kids); Utf8.Text(v.key) && P.Printable(v.value)
    modifies out, out.start, h`buffers
    ensures out.Valid() && out.Contents() == old(out.Contents()) + P.EmitMember(MemberOf(h.m, member, kids))
    ensures out.start == old(out.start) || fresh(out.start)
    ensures h.buffers == old(h.buffers) - {old(out.start)} + {out.start}
    decreases kids, 3
  {
    ghost var was, v := out.Contents(), MemberOf(h.m, member, kids);
    EmitString(h, out, h.m.texts[h.m.nodes[member].key]);
    out.Putc(h, COLON);
    EmitValue(h, out, member, kids);
    Bracketed(was, P.EmitString(v.key), [COLON], P.EmitValue(v.value));
  }

  /** One round of the loop of `emit_object`. */
  method MemberRound(h: Heap, out: SB, member: Ptr, ghost kids: Forest) returns (next: Ptr)
    requires out.Valid() && out.start in h.buffers
    requires Body(h.m, member, kids) && h.m.nodes[member].key in h.m.texts && h.m.nodes[member].key != NULL
    requires var v := MemberOf(h.m, member, kids); Utf8.Text(v.key) && P.Printable(v.value)
    modifies out, out.start, h`buffers
    ensures out.Valid() && next == h.m.nodes[member].next
    ensures out.Contents() == old(out.Contents()) + P.EmitMember(MemberOf(h.m, member, kids)) + Separator(next)
    ensures out.start == old(out.start) || fresh(out.start)
    ensures h.buffers == old(h.buffers) - {old(out.start)} + {out.start}
    decreases kids, 4
  {
    EmitMember(h, out, member, kids);
    next := h.m.nodes[member].next;
    if next != NULL {
      out.Putc(h, COMMA);
    } else {
      assert out.Contents() + [] == out.Contents();
    }
  }

  /** The loop of `emit_object`. */
  method EmitMembers(h: Heap, out: SB, first: Ptr, ghost parent: Ptr, ghost f: Forest)
    requires out.Valid() && out.start in h.buffers
    requires Chain(h.m, parent, true, NULL, f) && first == First(f)
    requires forall e <- MembersOf(h.m, f) :: Utf8.Text(e.key) && P.Printable(e.value)
    modifies out, out.start, h`buffers
    ensures out.Valid() && out.Contents() == old(out.Contents()) + P.EmitMembers(MembersOf(h.m, f))
    ensures out.start == old(out.start) || fresh(out.start)
    ensures h.buffers == old(h.buffers) - {old(out.start)} + {out.start}
    decreases f, 0
  {
    var member := first;
    ghost var rest, prev := f, NULL;
    ghost var goal := out.Contents() + P.EmitMembers(MembersOf(h.m, f));
    while member != NULL
      invariant member == First(rest) && (rest == f || rest < f) && Chain(h.m, parent, true, prev, rest)
      invariant forall e <- MembersOf(h.m, rest) :: Utf8.Text(e.key) && P.Printable(e.value)
      invariant out.Valid() && out.start in h.buffers
      invariant out.start == old(out.start) || fresh(out.start)
      invariant h.buffers == old(h.buffers) - {old(out.start)} + {out.start}
      invariant out.Contents() + P.EmitMembers(MembersOf(h.m, rest)) == goal
      decreases rest
    {
      FirstMember(h.m, rest, out.Contents());
      prev := member;
      member := MemberRound(h, out, member, rest.kids);
      rest := rest.rest;
    }
    assert out.Contents() + [] == out.Contents();
  }

  /** `emit_array`. */
  method EmitArray(h: Heap, out: SB, node: Ptr, ghost kids: Forest)
    requires out.Valid() && out.start in h.buffers
    requires Body(h.m, node, kids) && h.m.nodes[node].tag == JSON_ARRAY && P.Printable(ValueOf(h.m, node, kids))
    modifies out, out.start, h`buffers
    ensures out.Valid() && out.Contents() == old(out.Contents()) + P.EmitValue(ValueOf(h.m, node, kids))
    ensures out.start == old(out.start) || fresh(out.start)
    ensures h.buffers == old(h.buffers) - {old(out.start)} + {out.start}
    decreases kids, 1
  {
    ghost var was := out.Contents();
    out.Putc(h, LBRACKET);
    EmitElements(h, out, h.m.nodes[node].head, node, kids);
    out.Putc(h, RBRACKET);
    Bracketed(was, [LBRACKET], P.EmitElements(ValuesOf(h.m, kids)), [RBRACKET]);
  }

  /** `emit_object`. */
  method EmitObject(h: Heap, out: SB, node: Ptr, ghost kids: Forest)
    requires out.Valid() && out.start in h.buffers
    requires Body(h.m, node, kids) && h.m.nodes[node].tag == JSON_OBJECT && P.Printable(ValueOf(h.m, node, kids))
    modifies out, out.start, h`buffers
    ensures out.Valid() && out.Contents() == old(out.Contents()) + P.EmitValue(ValueOf(h.m, node, kids))
    ensures out.start == old(out.start) || fresh(out.start)
    ensures h.buffers == old(h.buffers) - {old(out.start)} + {out.start}
    decreases kids, 1
  {
    ghost var was := out.Contents();
    out.Putc(h, LBRACE);
    EmitMembers(h, out, h.m.nodes[node].head, node, kids);
    out.Putc(h, RBRACE);
    Bracketed(was, [LBRACE], P.EmitMembers(MembersOf(h.m, kids)), [RBRACE]);
  }

  /** `emit_value`. */
  method EmitValue(h: Heap, out: SB, node: Ptr, ghost kids: Forest)
    requires out.Valid() && out.start in h.buffers
    requires Body(h.m, node, kids) && P.Printable(ValueOf(h.m, node, kids))
    modifies out, out.start, h`buffers
    ensures out.Valid() && out.Contents() == old(out.Contents()) + P.EmitValue(ValueOf(h.m, node, kids))
    ensures out.start == old(out.start) || fresh(out.start)
    ensures h.buffers == old(h.buffers) - {old(out.start)} + {out.start}
    decreases kids, 2
  {
    var n := h.m.nodes[node];
    if n.tag == JSON_NULL {
      out.Put(h, NULL_TEXT);
    } else if n.tag == JSON_BOOL {
      out.Put(h, if n.bool_ then TRUE_TEXT else FALSE_TEXT);
    } else if n.tag == JSON_STRING {
      EmitString(h, out, h.m.texts[n.string_]);
    } else if n.tag == JSON_NUMBER {
      EmitNumber(h, out, n.number_);
    } else if n.tag == JSON_ARRAY {
      EmitArray(h, out, node, kids);
    } else {
      EmitObject(h, out, node, kids);
    }
  }
}
