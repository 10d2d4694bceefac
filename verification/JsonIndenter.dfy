/** The indenting printer of src/util/json.c, and the functions that make a C string of a tree. */
module JsonIndenter {
  import opened Bytes
  import opened Memory
  import opened StringBuffer
  import opened JsonGrammar
  import opened JsonTree
  import opened JsonPrinter
  import P = JsonPrinting
  import JsonRoundTrip
  import Utf8

  /** The loops that write the indentation. */
  method Indent(h: Heap, out: SB, space: bytes, n: nat)
    requires out.Valid() && out.start in h.buffers
    modifies out, out.start, h`buffers
    ensures out.Valid() && out.Contents() == old(out.Contents()) + Repeat(space, n)
    ensures out.start == old(out.start) || fresh(out.start)
    ensures h.buffers == old(h.buffers) - {old(out.start)} + {out.start}
  {
    var i := 0;
    while i < n
      invariant i <= n
      invariant out.Valid() && out.start in h.buffers
      invariant out.start == old(out.start) || fresh(out.start)
      invariant h.buffers == old(h.buffers) - {old(out.start)} + {out.start}
      invariant out.Contents() + Repeat(space, n - i) == old(out.Contents()) + Repeat(space, n)
    {
      Assoc(out.Contents(), space, Repeat(space, n - i - 1));
      out.Put(h, space);
      i := i + 1;
    }
    assert out.Contents() + [] == out.Contents();
  }

  /** What stands behind an element, depending on whether there is a next one. */
  function LineEnd(next: Ptr): bytes {
    if next != NULL then [COMMA, P.NEWLINE] else [P.NEWLINE]
  }

  lemma Line(text: bytes, indent: bytes, v: bytes, end: bytes, rest: bytes)
    ensures text + (indent + (v + (end + rest))) == text + (indent + v + end) + rest
    ensures rest == [] ==> end + rest == end
  {
    Assoc(indent, v, end + rest);
    Assoc(indent + v, end, rest);
    Assoc(text, indent + v + end, rest);
  }

  lemma Sibling(m: Mem, parent: Ptr, keyed: bool, prev: Ptr, f: Forest)
    requires Chain(m, parent, keyed, prev, f) && f.Tree?
    ensures Body(m, f.at, f.kids) == true && f.at in m.nodes && m.nodes[f.at].next == First(f.rest)
    ensures keyed ==> m.nodes[f.at].key in m.texts && m.nodes[f.at].key != NULL
    ensures Chain(m, parent, keyed, f.at, f.rest) == true && (f.rest.Tree? ==> f.rest.at != NULL)
  {
  }

  /** In the loop of `emit_array_indented`: what is written already, and what is to come for `f`, is all of it. */
  ghost predicate ElementsToCome(m: Mem, f: Forest, space: bytes, level: nat, text: bytes, all: bytes) {
    (forall e <- ValuesOf(m, f) :: P.Printable(e)) && text + P.IndentedElements(ValuesOf(m, f), space, level) == all
  }

  lemma FirstElement(m: Mem, f: Forest, space: bytes, level: nat, text: bytes, all: bytes)
    requires f.Tree? && (f.rest.Tree? ==> f.rest.at != NULL) && ElementsToCome(m, f, space, level, text, all)
    ensures var v := ValueOf(m, f.at, f.kids); P.Printable(v)
    ensures var line := Repeat(space, level + 1) + P.EmitIndented(ValueOf(m, f.at, f.kids), space, level + 1) + LineEnd(First(f.rest));
      ElementsToCome(m, f.rest, space, level, text + line, all) == true
  {
    var v, vs := ValueOf(m, f.at, f.kids), ValuesOf(m, f.rest);
    assert ValuesOf(m, f) == [v] + vs && ([v] + vs)[1..] == vs;
    assert forall e <- vs :: e in [v] + vs;
    Line(text, Repeat(space, level + 1), P.EmitIndented(v, space, level + 1),
         LineEnd(First(f.rest)), P.IndentedElements(vs, space, level));
  }

  /** One element on its line. */
  method ElementLine(h: Heap, out: SB, element: Ptr, ghost kids: Forest, space: bytes, level: nat) returns (next: Ptr)
    requires out.Valid() && out.start in h.buffers
    requires Body(h.m, element, kids) && P.Printable(ValueOf(h.m, element, kids))
    modifies out, out.start, h`buffers
    ensures out.Valid() && next == h.m.nodes[element].next
    ensures out.Contents() == old(out.Contents()) + (Repeat(space, level) + P.EmitIndented(ValueOf(h.m, element, kids), space, level) + LineEnd(next))
    ensures out.start == old(out.start) || fresh(out.start)
    ensures h.buffers == old(h.buffers) - {old(out.start)} + {out.start}
    decreases kids, 4
  {
    ghost var was := out.Contents();
    Indent(h, out, space, level);
    EmitValueIndented(h, out, element, kids, space, level);
    next := h.m.nodes[element].next;
    out.Put(h, LineEnd(next));
    Bracketed(was, Repeat(space, level), P.EmitIndented(ValueOf(h.m, element, kids), space, level), LineEnd(next));
    Assoc(Repeat(space, level), P.EmitIndented(ValueOf(h.m, element, kids), space, level), LineEnd(next));
  }

  /** The loop of `emit_array_indented`. */
  method IndentedElements(h: Heap, out: SB, first: Ptr, ghost parent: Ptr, ghost f: Forest, space: bytes, level: nat)
    requires out.Valid() && out.start in h.buffers
    requires Chain(h.m, parent, false, NULL, f) && first == First(f)
    requires forall e <- ValuesOf(h.m, f) :: P.Printable(e)
    modifies out, out.start, h`buffers
    ensures out.Valid() && out.Contents() == old(out.Contents()) + P.IndentedElements(ValuesOf(h.m, f), space, level)
    ensures out.start == old(out.start) || fresh(out.start)
    ensures h.buffers == old(h.buffers) - {old(out.start)} + {out.start}
    decreases f, 0
  {
    var element := first;
    ghost var rest, prev := f, NULL;
    ghost var before, start := h.buffers, out.start;
    ghost var all := out.Contents() + P.IndentedElements(ValuesOf(h.m, f), space, level);
    while element != NULL
      invariant element == First(rest) && (rest == f || rest < f) && Chain(h.m, parent, false, prev, rest) == true
      invariant out.Valid() == true && out.start in h.buffers
      invariant out.start == old(out.start) || fresh(out.start)
      invariant Moved(before, start, h.buffers, out.start) == true
      invariant ElementsToCome(h.m, rest, space, level, out.Contents(), all) == true
      decreases rest
    {
      ghost var now, at := h.buffers, out.start;
      Sibling(h.m, parent, false, prev, rest);
      FirstElement(h.m, rest, space, level, out.Contents(), all);
      prev := element;
      element := ElementLine(h, out, element, rest.kids, space, level + 1);
      MovedAgain(before, start, now, at, h.buffers, out.start);
      rest := rest.rest;
    }
    assert out.Contents() + [] == out.Contents();
  }

  /** A key, the colon, a blank and the value. */
  method EmitMemberIndented(h: Heap, out: SB, member: Ptr, ghost kids: Forest, space: bytes, level: nat)
    requires out.Valid() && out.start in h.buffers
    requires Body(h.m, member, kids) && h.m.nodes[member].key in h.m.texts && h.m.nodes[member].key != NULL
    requires var v := MemberOf(h.m, member, kids); Utf8.Text(v.key) && P.Printable(v.value)
    modifies out, out.start, h`buffers
    ensures out.Valid() && out.Contents() == old(out.Contents()) + P.IndentedMember(MemberOf(h.m, member, kids), space, level)
    ensures out.start == old(out.start) || fresh(out.start)
    ensures h.buffers == old(h.buffers) - {old(out.start)} + {out.start}
    decreases kids, 3
  {
    ghost var was, v := out.Contents(), MemberOf(h.m, member, kids);
    EmitString(h, out, h.m.texts[h.m.nodes[member].key]);
    out.Put(h, [COLON, 0x20]);
    EmitValueIndented(h, out, member, kids, space, level);
    Bracketed(was, P.EmitString(v.key), [COLON, 0x20], P.EmitIndented(v.value, space, level));
  }

  /** In the loop of `emit_object_indented`: what is written already, and what is to come for `f`, is all of it. */
  ghost predicate MembersToCome(m: Mem, f: Forest, space: bytes, level: nat, text: bytes, all: bytes) {
    (forall e <- MembersOf(m, f) :: Utf8.Text(e.key) && P.Printable(e.value)) && text + P.IndentedMembers(MembersOf(m, f), space, level) == all
  }

  lemma FirstMember(m: Mem, f: Forest, space: bytes, level: nat, text: bytes, all: bytes)
    requires f.Tree? && (f.rest.Tree? ==> f.rest.at != NULL) && MembersToCome(m, f, space, level, text, all)
    ensures var v := MemberOf(m, f.at, f.kids); Utf8.Text(v.key) && P.Printable(v.value)
    ensures var line := Repeat(space, level + 1) + P.IndentedMember(MemberOf(m, f.at, f.kids), space, level + 1) + LineEnd(First(f.rest));
      MembersToCome(m, f.rest, space, level, text + line, all) == true
  {
    var v, vs := MemberOf(m, f.at, f.kids), MembersOf(m, f.rest);
    assert MembersOf(m, f) == [v] + vs && ([v] + vs)[1..] == vs;
    assert forall e <- vs :: e in [v] + vs;
    Line(text, Repeat(space, level + 1), P.IndentedMember(v, space, level + 1),
         LineEnd(First(f.rest)), P.IndentedMembers(vs, space, level));
  }

  /** One member on its line. */
  method MemberLine(h: Heap, out: SB, member: Ptr, ghost kids: Forest, space: bytes, level: nat) returns (next: Ptr)
    requires out.Valid() && out.start in h.buffers
    requires Body(h.m, member, kids) && h.m.nodes[member].key in h.m.texts && h.m.nodes[member].key != NULL
    requires var v := MemberOf(h.m, member, kids); Utf8.Text(v.key) && P.Printable(v.value)
    modifies out, out.start, h`buffers
    ensures out.Valid() && next == h.m.nodes[member].next
    ensures out.Contents() == old(out.Contents()) + (Repeat(space, level) + P.IndentedMember(MemberOf(h.m, member, kids), space, level) + LineEnd(next))
    ensures out.start == old(out.start) || fresh(out.start)
    ensures h.buffers == old(h.buffers) - {old(out.start)} + {out.start}
    decreases kids, 4
  {
    ghost var was := out.Contents();
    Indent(h, out, space, level);
    EmitMemberIndented(h, out, member, kids, space, level);
    next := h.m.nodes[member].next;
    out.Put(h, LineEnd(next));
    Bracketed(was, Repeat(space, level), P.IndentedMember(MemberOf(h.m, member, kids), space, level), LineEnd(next));
    Assoc(Repeat(space, level), P.IndentedMember(MemberOf(h.m, member, kids), space, level), LineEnd(next));
  }

  /** The loop of `emit_object_indented`. */
  method IndentedMembers(h: Heap, out: SB, first: Ptr, ghost parent: Ptr, ghost f: Forest, space: bytes, level: nat)
    requires out.Valid() && out.start in h.buffers
    requires Chain(h.m, parent, true, NULL, f) && first == First(f)
    requires forall e <- MembersOf(h.m, f) :: Utf8.Text(e.key) && P.Printable(e.value)
    modifies out, out.start, h`buffers
    ensures out.Valid() && out.Contents() == old(out.Contents()) + P.IndentedMembers(MembersOf(h.m, f), space, level)
    ensures out.start == old(out.start) || fresh(out.start)
    ensures h.buffers == old(h.buffers) - {old(out.start)} + {out.start}
    decreases f, 0
  {
    var member := first;
    ghost var rest, prev := f, NULL;
    ghost var before, start := h.buffers, out.start;
    ghost var all := out.Contents() + P.IndentedMembers(MembersOf(h.m, f), space, level);
    while member != NULL
      invariant member == First(rest) && (rest == f || rest < f) && Chain(h.m, parent, true, prev, rest) == true
      invariant out.Valid() == true && out.start in h.buffers
      invariant out.start == old(out.start) || fresh(out.start)
      invariant Moved(before, start, h.buffers, out.start) == true
      invariant MembersToCome(h.m, rest, space, level, out.Contents(), all) == true
      decreases rest
    {
      ghost var now, at := h.buffers, out.start;
      Sibling(h.m, parent, true, prev, rest);
      FirstMember(h.m, rest, space, level, out.Contents(), all);
      prev := member;
      member := MemberLine(h, out, member, rest.kids, space, level + 1);
      MovedAgain(before, start, now, at, h.buffers, out.start);
      rest := rest.rest;
    }
    assert out.Contents() + [] == out.Contents();
  }

  /** The closing bracket on its line. */
  method Close(h: Heap, out: SB, space: bytes, level: nat, close: byte)
    requires out.Valid() && out.start in h.buffers
    modifies out, out.start, h`buffers
    ensures out.Valid() && out.Contents() == old(out.Contents()) + (Repeat(space, level) + [close])
    ensures out.start == old(out.start) || fresh(out.start)
    ensures h.buffers == old(h.buffers) - {old(out.start)} + {out.start}
  {
    ghost var was := out.Contents();
    Indent(h, out, space, level);
    out.Putc(h, close);
    Assoc(was, Repeat(space, level), [close]);
  }

  lemma Enclosed(was: bytes, open: byte, mid: bytes, indent: bytes, close: byte)
    ensures was + [open, P.NEWLINE] + mid + (indent + [close]) == was + ([open] + ([P.NEWLINE] + (mid + (indent + [close]))))
  {
    Assoc([open], [P.NEWLINE], mid + (indent + [close]));
    assert [open] + [P.NEWLINE] == [open, P.NEWLINE];
    Assoc(was, [open, P.NEWLINE], mid + (indent + [close]));
    Assoc(was + [open, P.NEWLINE], mid, indent + [close]);
  }

  /** `emit_array_indented`. */
  method EmitArrayIndented(h: Heap, out: SB, node: Ptr, ghost kids: Forest, space: bytes, level: nat)
    requires out.Valid() && out.start in h.buffers
    requires Body(h.m, node, kids) && h.m.nodes[node].tag == JSON_ARRAY && P.Printable(ValueOf(h.m, node, kids))
    modifies out, out.start, h`buffers
    ensures out.Valid() && out.Contents() == old(out.Contents()) + P.EmitIndented(ValueOf(h.m, node, kids), space, level)
    ensures out.start == old(out.start) || fresh(out.start)
    ensures h.buffers == old(h.buffers) - {old(out.start)} + {out.start}
    decreases kids, 1
  {
    ghost var was, vs := out.Contents(), ValuesOf(h.m, kids);
    var first := h.m.nodes[node].head;
    if first == NULL {
      out.Put(h, [LBRACKET, RBRACKET]);
    } else {
      out.Put(h, [LBRACKET, P.NEWLINE]);
      IndentedElements(h, out, first, node, kids, space, level);
      Close(h, out, space, level, RBRACKET);
      Enclosed(was, LBRACKET, P.IndentedElements(vs, space, level), Repeat(space, level), RBRACKET);
    }
  }

  /** `emit_object_indented`. */
  method EmitObjectIndented(h: Heap, out: SB, node: Ptr, ghost kids: Forest, space: bytes, level: nat)
    requires out.Valid() && out.start in h.buffers
    requires Body(h.m, node, kids) && h.m.nodes[node].tag == JSON_OBJECT && P.Printable(ValueOf(h.m, node, kids))
    modifies out, out.start, h`buffers
    ensures out.Valid() && out.Contents() == old(out.Contents()) + P.EmitIndented(ValueOf(h.m, node, kids), space, level)
    ensures out.start == old(out.start) || fresh(out.start)
    ensures h.buffers == old(h.buffers) - {old(out.start)} + {out.start}
    decreases kids, 1
  {
    ghost var was, vs := out.Contents(), MembersOf(h.m, kids);
    var first := h.m.nodes[node].head;
    if first == NULL {
      out.Put(h, [LBRACE, RBRACE]);
    } else {
      out.Put(h, [LBRACE, P.NEWLINE]);
      IndentedMembers(h, out, first, node, kids, space, level);
      Close(h, out, space, level, RBRACE);
      Enclosed(was, LBRACE, P.IndentedMembers(vs, space, level), Repeat(space, level), RBRACE);
    }
  }

  /** `emit_value_indented`. */
  method EmitValueIndented(h: Heap, out: SB, node: Ptr, ghost kids: Forest, space: bytes, level: nat)
    requires out.Valid() && out.start in h.buffers
    requires Body(h.m, node, kids) && P.Printable(ValueOf(h.m, node, kids))
    modifies out, out.start, h`buffers
    ensures out.Valid() && out.Contents() == old(out.Contents()) + P.EmitIndented(ValueOf(h.m, node, kids), space, level)
    ensures out.start == old(out.start) || fresh(out.start)
    ensures h.buffers == old(h.buffers) - {old(out.start)} + {out.start}
    decreases kids, 2
  {
    var n := h.m.nodes[node];
    if n.tag == JSON_NULL {
      out.Put(h, NULL_TEXT);
    } else if n.tag == JSON_BOOL {
      out.Put(h, if n.bool_ then TRUE_TEXT else FALSE_TEXT);
    } else if n.tag == JSON_STRING {
      EmitString(h, out, h.m.texts[n.string_]);
    } else if n.tag == JSON_NUMBER {
      EmitNumber(h, out, n.number_);
    } else if n.tag == JSON_ARRAY {
      EmitArrayIndented(h, out, node, kids, space, level);
    } else {
      EmitObjectIndented(h, out, node, kids, space, level);
    }
  }

  /** `json_stringify`, where no `space` is the null pointer: the only thing that it adds to the
      memory is the text. */
  method JsonStringify(h: Heap, node: Ptr, ghost kids: Forest, space: Option<bytes>) returns (text: Ptr)
    requires Body(h.m, node, kids) && P.Printable(ValueOf(h.m, node, kids))
    requires space.Some? ==> 0 !in space.value
    modifies h
    ensures h.buffers == old(h.buffers) && text != NULL && text !in old(h.m).texts
    ensures var v := ValueOf(old(h.m), node, kids);
      h.m == old(h.m).(texts := old(h.m).texts[text :=
        if space.Some? then P.EmitIndented(v, space.value, 0) else P.EmitValue(v)])
  {
    var sb := new SB(h);
    ghost var v := ValueOf(h.m, node, kids);
    if space.Some? {
      EmitValueIndented(h, sb, node, kids, space.value, 0);
      JsonRoundTrip.IndentedPrints(v, space.value, 0);
      assert [] + P.EmitIndented(v, space.value, 0) == P.EmitIndented(v, space.value, 0);
    } else {
      EmitValue(h, sb, node, kids);
      JsonRoundTrip.ValuePrints(v);
      assert [] + P.EmitValue(v) == P.EmitValue(v);
    }
    text := sb.Finish(h);
  }

  /** `json_encode`. */
  method JsonEncode(h: Heap, node: Ptr, ghost kids: Forest) returns (text: Ptr)
    requires Body(h.m, node, kids) && P.Printable(ValueOf(h.m, node, kids))
    modifies h
    ensures h.buffers == old(h.buffers) && text != NULL && text !in old(h.m).texts
    ensures h.m == old(h.m).(texts := old(h.m).texts[text := P.EmitValue(ValueOf(old(h.m), node, kids))])
  {
    text := JsonStringify(h, node, kids, None);
  }

  /** `json_encode_string`. */
  method JsonEncodeString(h: Heap, str: bytes) returns (text: Ptr)
    requires Utf8.Text(str)
    modifies h
    ensures h.buffers == old(h.buffers) && text != NULL && text !in old(h.m).texts
    ensures h.m == old(h.m).(texts := old(h.m).texts[text := P.EmitString(str)])
  {
    var sb := new SB(h);
    EmitString(h, sb, str);
    JsonRoundTrip.StringPrints(str);
    assert [] + P.EmitString(str) == P.EmitString(str);
    text := sb.Finish(h);
  }
}
