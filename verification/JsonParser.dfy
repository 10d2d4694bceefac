/** The parser of src/util/json.c: what it accepts, what it builds, and that it gives back
    everything that it has allocated when it fails. */
module JsonParser {
  import opened Bytes
  import opened Memory
  import opened JsonGrammar
  import opened JsonTree
  import opened JsonLinks
  import opened JsonEdit
  import opened JsonBuild
  import opened JsonLoops
  import opened JsonNumbers
  import Delete = JsonDelete
  import Scan = JsonScanner
  import Syntax = JsonSyntax

  /** `mknode` and the setting of the one member that the tag calls for. */
  method NewLeaf(h: Heap, tag: nat, b: bool, str: Ptr, number: bytes, ghost m: Mem) returns (p: Ptr)
    requires tag <= JSON_NUMBER && h.m.nodes == m.nodes
    requires if tag == JSON_STRING then str != NULL && str !in m.texts && str in h.m.texts && h.m.texts - {str} == m.texts
             else str == NULL && h.m.texts == m.texts
    modifies h`m
    ensures h.m.texts == old(h.m.texts) && Grown(m, h.m, p, Nil)
    ensures var n := Struct(h.m, p); n.tag == tag && n.bool_ == b && n.string_ == str && n.number_ == number
  {
    p := h.NewNode(tag);
    var n := h.m.nodes[p].(bool_ := b, string_ := str, number_ := number);
    h.Write(p, n);
    assert h.m.nodes == m.nodes[p := n];
    GrownLeaf(m, h.m, p, n);
  }

  /** The array or object that is filled next. */
  method NewContainer(h: Heap, tag: nat) returns (p: Ptr)
    requires IsContainer(tag)
    modifies h`m
    ensures Grown(old(h.m), h.m, p, Nil) && Struct(h.m, p).tag == tag
  {
    p := h.NewNode(tag);
    GrownLeaf(old(h.m), h.m, p, h.m.nodes[p]);
  }

  /** `parse_value`. A number is kept as what `render` makes of its text. */
  method ParseValue(h: Heap, s: bytes, i: nat, out: bool, render: bytes -> bytes)
    returns (ok: bool, end: nat, node: Ptr, ghost below: Forest)
    requires i <= |s|
    modifies h
    ensures ok == Syntax.ParseValue(s, i).Ok? && end == if ok then Syntax.ParseValue(s, i).end else i
    ensures h.buffers == old(h.buffers)
    ensures !(ok && out) ==> h.m == old(h.m)
    ensures ok && out ==> Built(old(h.m), h.m, node, below, Rendered(Syntax.ParseValue(s, i).value, render))
    decreases |s| - i, 1
  {
    var c := At(s, i);
    node, below := NULL, Nil;
    if c == 0x6E {
      ok, end := Scan.Literal(s, i, NULL_TEXT);
      if ok && out {
        node := NewLeaf(h, JSON_NULL, false, NULL, [], h.m);
      }
    } else if c == 0x66 {
      ok, end := Scan.Literal(s, i, FALSE_TEXT);
      if ok && out {
        node := NewLeaf(h, JSON_BOOL, false, NULL, [], h.m);
      }
    } else if c == 0x74 {
      ok, end := Scan.Literal(s, i, TRUE_TEXT);
      if ok && out {
        node := NewLeaf(h, JSON_BOOL, true, NULL, [], h.m);
      }
    } else if c == QUOTE {
      var str: Ptr;
      ghost var m := h.m;
      ok, end, str := Scan.String(h, s, i, out);
      if ok && out {
        assert h.m.texts - {str} == m.texts;
        node := NewLeaf(h, JSON_STRING, false, str, [], m);
      }
    } else if c == LBRACKET {
      ok, end, node, below := ParseArray(h, s, i, out, render);
    } else if c == LBRACE {
      ok, end, node, below := ParseObject(h, s, i, out, render);
    } else {
      ok, end := Scan.Number(s, i);
      if ok && out {
        node := NewLeaf(h, JSON_NUMBER, false, NULL, render(s[i..end]), h.m);
      }
    }
  }

  /** The state of the loops below: the array or object made so far holds `v`, or nothing is made. */
  ghost predicate Partial(out: bool, m: Mem, w: Mem, ret: Ptr, kids: Forest, v: Json) {
    if out then Built(m, w, ret, kids, v) else ret == NULL && w == m
  }

  /** `json_mkarray` and `json_mkobject`, where a tree is asked for. */
  method Start(h: Heap, out: bool, tag: nat) returns (ret: Ptr)
    requires IsContainer(tag)
    modifies h`m
    ensures Partial(out, old(h.m), h.m, ret, Nil, if tag == JSON_ARRAY then Arr([]) else Obj([])) == true
  {
    ret := NULL;
    if out {
      ret := NewContainer(h, tag);
    }
  }

  /** The linking of an element that has been parsed. */
  method AddElement(h: Heap, out: bool, ghost m: Mem, ghost m1: Mem, ret: Ptr, ghost kids: Forest, ghost acc: seq<Json>,
                    element: Ptr, ghost b: Forest, ghost v: Json) returns (ghost all: Forest)
    requires Partial(out, m, m1, ret, kids, Arr(acc))
    requires if out then Built(m1, h.m, element, b, v) else h.m == m1
    modifies h`m
    ensures Partial(out, m, h.m, ret, all, Arr(acc + [v])) == true
  {
    all := kids;
    if out {
      GrownApart(m, m1, ret, kids, h.m, element, b, NULL, []);
      SetSame(h.m, element);
      GrownAppend(m, m1, ret, kids, h.m, element, b, NULL, []);
      JsonAppendElement(h, ret, element);
      all := Snoc(kids, element, b);
    }
  }

  /** The failure label: what has been built so far is given back. */
  method GiveUp(h: Heap, out: bool, ret: Ptr, ghost kids: Forest, ghost m: Mem, ghost v: Json)
    requires Partial(out, m, h.m, ret, kids, v)
    modifies h`m
    ensures h.m == m
  {
    if out {
      GrownThenDeleted(m, h.m, ret, kids);
    }
    Delete.JsonDelete(h, ret, kids, Nil);
  }

  /** In the loop of `parse_array`: the element at `j` and the blanks behind it. */
  method OneElement(h: Heap, s: bytes, j: nat, out: bool, render: bytes -> bytes, ret: Ptr,
                    ghost m: Mem, ghost kids: Forest, ghost acc: seq<Json>)
    returns (ok: bool, k: nat, ghost all: Forest)
    requires j <= |s| && Partial(out, m, h.m, ret, kids, Rendered(Arr(acc), render))
    modifies h
    ensures h.buffers == old(h.buffers) && ok == Syntax.ParseValue(s, j).Ok?
    ensures ok ==> k == Syntax.SkipSpace(s, Syntax.ParseValue(s, j).end)
    ensures ok ==> Partial(out, m, h.m, ret, all, Rendered(Arr(acc + [Syntax.ParseValue(s, j).value]), render)) == true
    ensures !ok ==> Partial(out, m, h.m, ret, all, Rendered(Arr(acc), render)) == true
    decreases |s| - j, 2
  {
    all := kids;
    ghost var m1 := h.m;
    var element: Ptr;
    ghost var b: Forest;
    ok, k, element, b := ParseValue(h, s, j, out, render);
    if ok {
      k := Scan.Blanks(s, k);
      ghost var v := Syntax.ParseValue(s, j).value;
      all := AddElement(h, out, m, m1, ret, kids, RenderedElements(acc, render), element, b, Rendered(v, render));
      RenderedSnoc(acc, v, render);
    }
  }

  /** In the loops of `parse_array` and `parse_object`: the end is reached at `close`, and a comma goes on. */
  method Separator(s: bytes, k: nat, close: byte) returns (ok: bool, last: bool, next: nat)
    requires k <= |s| && close != 0
    ensures Separated(s, k, close, ok, last, next) == true && (ok ==> k < next)
  {
    ok, last, next := true, At(s, k) == close, k;
    if last {
      next := k + 1;
    } else if At(s, k) == COMMA {
      next := Scan.Blanks(s, k + 1);
    } else {
      ok := false;
    }
  }

  /** A round of the loop of `parse_array`. */
  method ElementsRound(h: Heap, s: bytes, i: nat, j: nat, out: bool, render: bytes -> bytes, ret: Ptr,
                       ghost m: Mem, ghost kids: Forest, ghost acc: seq<Json>)
    returns (ok: bool, last: bool, next: nat, ghost all: Forest, ghost read: seq<Json>)
    requires ElementsLeft(s, i, j, acc) && Partial(out, m, h.m, ret, kids, Rendered(Arr(acc), render))
    modifies h
    ensures h.buffers == old(h.buffers) && Partial(out, m, h.m, ret, all, Rendered(Arr(read), render)) == true
    ensures ElementsStand(s, i, ok, last, next, read) == true && (ok ==> j < next)
    decreases |s| - j, 3
  {
    ok, next, all := OneElement(h, s, j, out, render, ret, m, kids, acc);
    read, last := acc, false;
    if ok {
      read := acc + [Syntax.ParseValue(s, j).value];
      ok, last, next := Separator(s, next, RBRACKET);
    }
    ElementsSteps(s, i, j, acc, ok, last, next, read);
  }

  /** The loop of `parse_array`. */
  method Elements(h: Heap, s: bytes, i: nat, out: bool, render: bytes -> bytes, ret: Ptr, ghost m: Mem)
    returns (ok: bool, end: nat, ghost kids: Forest, ghost acc: seq<Json>)
    requires i <= |s| && Partial(out, m, h.m, ret, Nil, Arr([]))
    modifies h
    ensures h.buffers == old(h.buffers) && Partial(out, m, h.m, ret, kids, Rendered(Arr(acc), render)) == true
    ensures if ok then Syntax.ParseElements(s, i) == Syntax.Ok(acc, end) else Syntax.ParseElements(s, i).Fail?
    decreases |s| - i, 4
  {
    var last := false;
    ok, end, kids, acc := true, i, Nil, [];
    NothingResumed(Syntax.ParseElements(s, i));
    while ok && !last
      invariant h.buffers == old(h.buffers) && Partial(out, m, h.m, ret, kids, Rendered(Arr(acc), render)) == true
      invariant ElementsStand(s, i, ok, last, end, acc) == true
      decreases ok, !last, |s| - end
    {
      ok, last, end, kids, acc := ElementsRound(h, s, i, end, out, render, ret, m, kids, acc);
    }
  }

  /** `parse_array`. */
  method ParseArray(h: Heap, s: bytes, i: nat, out: bool, render: bytes -> bytes)
    returns (ok: bool, end: nat, node: Ptr, ghost below: Forest)
    requires i <= |s|
    modifies h
    ensures ok == Syntax.ParseArray(s, i).Ok? && end == if ok then Syntax.ParseArray(s, i).end else i
    ensures h.buffers == old(h.buffers)
    ensures !(ok && out) ==> h.m == old(h.m)
    ensures ok && out ==> Built(old(h.m), h.m, node, below, Rendered(Syntax.ParseArray(s, i).value, render))
    decreases |s| - i, 0
  {
    ghost var m, acc := h.m, [];
    below := Nil;
    node := Start(h, out, JSON_ARRAY);
    if At(s, i) == LBRACKET {
      var j := Scan.Blanks(s, i + 1);
      if At(s, j) == RBRACKET {
        return true, j + 1, node, Nil;
      }
      ok, end, below, acc := Elements(h, s, j, out, render, node, m);
      if ok {
        return;
      }
    }
    GiveUp(h, out, node, below, m, Rendered(Arr(acc), render));
    return false, i, NULL, Nil;
  }

  /** The memory in which the key of the next member has been made. */
  ghost predicate Named(out: bool, m: Mem, w: Mem, key: Ptr, text: bytes) {
    if out then key != NULL && key !in m.texts && w == WithKey(m, key, text) else w == m
  }

  /** The linking of a member that has been parsed. */
  method AddMember(h: Heap, out: bool, ghost m: Mem, ghost m1: Mem, ret: Ptr, ghost kids: Forest, ghost acc: seq<Member>,
                   key: Ptr, value: Ptr, ghost b: Forest, ghost e: Member) returns (ghost all: Forest)
    requires Partial(out, m, m1, ret, kids, Obj(acc))
    requires out ==> key != NULL && key !in m1.texts && Built(WithKey(m1, key, e.key), h.m, value, b, e.value)
    requires !out ==> h.m == m1
    modifies h`m
    ensures Partial(out, m, h.m, ret, all, Obj(acc + [e])) == true
  {
    all := kids;
    if out {
      GrownApart(m, m1, ret, kids, h.m, value, b, key, e.key);
      GrownAppend(m, m1, ret, kids, h.m, value, b, key, e.key);
      AppendMember(h, ret, key, value);
      all := Snoc(kids, value, b);
    }
  }

  /** The label in `parse_object` at which the key has to be freed. */
  method FreeKey(h: Heap, out: bool, key: Ptr, ghost m1: Mem, ghost text: bytes)
    requires Named(out, m1, h.m, key, text)
    modifies h`m
    ensures h.m == m1
  {
    if out {
      h.FreeText(key);
      assert m1.texts[key := text] - {key} == m1.texts;
    }
  }

  /** In the loop of `parse_object`: a key, the colon and the value, unless one of them is missing. */
  method NameAndValue(h: Heap, s: bytes, j: nat, out: bool, render: bytes -> bytes)
    returns (ok: bool, k: nat, key: Ptr, value: Ptr, ghost b: Forest)
    requires j <= |s|
    modifies h
    ensures h.buffers == old(h.buffers) && ok == Syntax.ParseMember(s, j).Ok?
    ensures ok ==> k == Syntax.ParseMember(s, j).end
    ensures !(ok && out) ==> h.m == old(h.m)
    ensures ok && out ==>
      var e := Syntax.ParseMember(s, j).value;
      key != NULL && key !in old(h.m).texts && Built(WithKey(old(h.m), key, e.key), h.m, value, b, Rendered(e.value, render))
    decreases |s| - j, 0
  {
    ghost var m1 := h.m;
    value, b := NULL, Nil;
    ok, k, key := Scan.String(h, s, j, out);
    if !ok {
      return;
    }
    ghost var text := Syntax.ParseString(s, j).value;
    k := Scan.Blanks(s, k);
    if At(s, k) != COLON {
      FreeKey(h, out, key, m1, text);
      return false, k, NULL, NULL, Nil;
    }
    k := Scan.Blanks(s, k + 1);
    ok, k, value, b := ParseValue(h, s, k, out, render);
    if !ok {
      FreeKey(h, out, key, m1, text);
    }
  }

  /** In the loop of `parse_object`: a member and the blanks behind it. */
  method OneMember(h: Heap, s: bytes, j: nat, out: bool, render: bytes -> bytes, ret: Ptr,
                   ghost m: Mem, ghost kids: Forest, ghost acc: seq<Member>)
    returns (ok: bool, k: nat, ghost all: Forest)
    requires j <= |s| && Partial(out, m, h.m, ret, kids, Rendered(Obj(acc), render))
    modifies h
    ensures h.buffers == old(h.buffers) && ok == Syntax.ParseMember(s, j).Ok?
    ensures ok ==> k == Syntax.SkipSpace(s, Syntax.ParseMember(s, j).end)
    ensures ok ==> Partial(out, m, h.m, ret, all, Rendered(Obj(acc + [Syntax.ParseMember(s, j).value]), render)) == true
    ensures !ok ==> Partial(out, m, h.m, ret, all, Rendered(Obj(acc), render)) == true
    decreases |s| - j, 2
  {
    all := kids;
    ghost var m1 := h.m;
    var key: Ptr, value: Ptr;
    ghost var b: Forest;
    ok, k, key, value, b := NameAndValue(h, s, j, out, render);
    if ok {
      k := Scan.Blanks(s, k);
      ghost var e := Syntax.ParseMember(s, j).value;
      all := AddMember(h, out, m, m1, ret, kids, RenderedMembers(acc, render), key, value, b,
                       Member(e.key, Rendered(e.value, render)));
      RenderedMembersSnoc(acc, e, render);
    }
  }

  /** A round of the loop of `parse_object`. */
  method MembersRound(h: Heap, s: bytes, i: nat, j: nat, out: bool, render: bytes -> bytes, ret: Ptr,
                       ghost m: Mem, ghost kids: Forest, ghost acc: seq<Member>)
    returns (ok: bool, last: bool, next: nat, ghost all: Forest, ghost read: seq<Member>)
    requires MembersLeft(s, i, j, acc) && Partial(out, m, h.m, ret, kids, Rendered(Obj(acc), render))
    modifies h
    ensures h.buffers == old(h.buffers) && Partial(out, m, h.m, ret, all, Rendered(Obj(read), render)) == true
    ensures MembersStand(s, i, ok, last, next, read) == true && (ok ==> j < next)
    decreases |s| - j, 3
  {
    ok, next, all := OneMember(h, s, j, out, render, ret, m, kids, acc);
    read, last := acc, false;
    if ok {
      read := acc + [Syntax.ParseMember(s, j).value];
      ok, last, next := Separator(s, next, RBRACE);
    }
    MembersSteps(s, i, j, acc, ok, last, next, read);
  }

  /** The loop of `parse_object`. */
  method Members(h: Heap, s: bytes, i: nat, out: bool, render: bytes -> bytes, ret: Ptr, ghost m: Mem)
    returns (ok: bool, end: nat, ghost kids: Forest, ghost acc: seq<Member>)
    requires i <= |s| && Partial(out, m, h.m, ret, Nil, Obj([]))
    modifies h
    ensures h.buffers == old(h.buffers) && Partial(out, m, h.m, ret, kids, Rendered(Obj(acc), render)) == true
    ensures if ok then Syntax.ParseMembers(s, i) == Syntax.Ok(acc, end) else Syntax.ParseMembers(s, i).Fail?
    decreases |s| - i, 4
  {
    var last := false;
    ok, end, kids, acc := true, i, Nil, [];
    NothingResumed(Syntax.ParseMembers(s, i));
    while ok && !last
      invariant h.buffers == old(h.buffers) && Partial(out, m, h.m, ret, kids, Rendered(Obj(acc), render)) == true
      invariant MembersStand(s, i, ok, last, end, acc) == true
      decreases ok, !last, |s| - end
    {
      ok, last, end, kids, acc := MembersRound(h, s, i, end, out, render, ret, m, kids, acc);
    }
  }

  /** `parse_object`. */
  method ParseObject(h: Heap, s: bytes, i: nat, out: bool, render: bytes -> bytes)
    returns (ok: bool, end: nat, node: Ptr, ghost below: Forest)
    requires i <= |s|
    modifies h
    ensures ok == Syntax.ParseObject(s, i).Ok? && end == if ok then Syntax.ParseObject(s, i).end else i
    ensures h.buffers == old(h.buffers)
    ensures !(ok && out) ==> h.m == old(h.m)
    ensures ok && out ==> Built(old(h.m), h.m, node, below, Rendered(Syntax.ParseObject(s, i).value, render))
    decreases |s| - i, 0
  {
    ghost var m, acc := h.m, [];
    below := Nil;
    node := Start(h, out, JSON_OBJECT);
    if At(s, i) == LBRACE {
      var j := Scan.Blanks(s, i + 1);
      if At(s, j) == RBRACE {
        return true, j + 1, node, Nil;
      }
      ok, end, below, acc := Members(h, s, j, out, render, node, m);
      if ok {
        return;
      }
    }
    GiveUp(h, out, node, below, m, Rendered(Obj(acc), render));
    return false, i, NULL, Nil;
  }

  /** `json_decode`: the tree of exactly one document, or nothing at all. */
  method JsonDecode(h: Heap, s: bytes, render: bytes -> bytes) returns (ret: Ptr, ghost below: Forest)
    modifies h
    ensures h.buffers == old(h.buffers)
    ensures (ret != NULL) == Syntax.Decode(s).Some?
    ensures if ret == NULL then h.m == old(h.m) else Built(old(h.m), h.m, ret, below, Rendered(Syntax.Decode(s).value, render))
  {
    ghost var m := h.m;
    var i := Scan.Blanks(s, 0);
    var ok, end: nat;
    ok, end, ret, below := ParseValue(h, s, i, true, render);
    if !ok {
      return NULL, Nil;
    }
    end := Scan.Blanks(s, end);
    if At(s, end) != 0 {
      GrownThenDeleted(m, h.m, ret, below);
      Delete.JsonDelete(h, ret, below, Nil);
      return NULL, Nil;
    }
    BuiltSomewhere(m, h.m, ret, below, Rendered(Syntax.Decode(s).value, render));
  }

  lemma BuiltSomewhere(m: Mem, w: Mem, p: Ptr, below: Forest, v: Json)
    requires Built(m, w, p, below, v)
    ensures p != NULL
  {
  }

  /** `json_validate`, which leaves nothing behind. */
  method JsonValidate(h: Heap, s: bytes) returns (valid: bool)
    modifies h
    ensures h.m == old(h.m) && h.buffers == old(h.buffers)
    ensures valid == Syntax.Decode(s).Some?
  {
    var i := Scan.Blanks(s, 0);
    var ok, end, node, below := ParseValue(h, s, i, false, t => t);
    if !ok {
      return false;
    }
    end := Scan.Blanks(s, end);
    return At(s, end) == 0;
  }
}
