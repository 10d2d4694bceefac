/** Decoding what `json_encode` has printed, numbers included: they go through `strtod` and `sprintf`,
    which are left open here. */
module JsonReprint {
  import opened Bytes
  import opened JsonGrammar
  import opened JsonNumbers
  import opened JsonPrinting
  import opened JsonRoundTrip
  import opened JsonSyntax

  lemma {:induction false} RenderedIsPrintable(v: Json, render: bytes -> bytes)
    requires Renders(render) && Printable(v)
    ensures Printable(Rendered(v, render))
    ensures HoldsUnitSeparator(Rendered(v, render)) == HoldsUnitSeparator(v)
    decreases v
  {
    match v
    case Null =>
    case Bool(_) =>
    case Str(_) =>
    case Num(_) =>
    case Arr(elems) =>
      forall k | 0 <= k < |elems|
        ensures Printable(RenderedElements(elems, render)[k])
        ensures HoldsUnitSeparator(RenderedElements(elems, render)[k]) == HoldsUnitSeparator(elems[k])
      {
        RenderedAt(elems, render, k);
        RenderedIsPrintable(elems[k], render);
      }
    case Obj(members) =>
      forall k | 0 <= k < |members|
        ensures var m := RenderedMembers(members, render)[k];
          && m.key == members[k].key && Printable(m.value)
          && HoldsUnitSeparator(m.value) == HoldsUnitSeparator(members[k].value)
      {
        RenderedMemberAt(members, render, k);
        RenderedIsPrintable(members[k].value, render);
      }
  }

  lemma {:induction false} RenderedAt(es: seq<Json>, render: bytes -> bytes, k: nat)
    requires k < |es|
    ensures RenderedElements(es, render)[k] == Rendered(es[k], render)
  {
    if k > 0 {
      RenderedAt(es[1..], render, k - 1);
    }
  }

  lemma {:induction false} RenderedMemberAt(ms: seq<Member>, render: bytes -> bytes, k: nat)
    requires k < |ms|
    ensures RenderedMembers(ms, render)[k] == Member(ms[k].key, Rendered(ms[k].value, render))
  {
    if k > 0 {
      RenderedMemberAt(ms[1..], render, k - 1);
    }
  }

  lemma {:induction false} NormalAt(es: seq<Json>, k: nat)
    requires k < |es|
    ensures |NormalElements(es)| == |es| && NormalElements(es)[k] == Normal(es[k])
  {
    if k > 0 {
      NormalAt(es[1..], k - 1);
    } else if |es| > 1 {
      NormalAt(es[1..], 0);
    }
  }

  lemma {:induction false} NormalMemberAt(ms: seq<Member>, k: nat)
    requires k < |ms|
    ensures |NormalMembers(ms)| == |ms| && NormalMembers(ms)[k] == Member(ms[k].key, Normal(ms[k].value))
  {
    if k > 0 {
      NormalMemberAt(ms[1..], k - 1);
    } else if |ms| > 1 {
      NormalMemberAt(ms[1..], 0);
    }
  }

  /** Decoding what is printed for a document, with its numbers as their doubles print: the same
      ordered tree with these numbers, null where they are none any more, or nothing exactly if some
      string holds a byte 0x1F. */
  lemma DecodeThenEncode(s: bytes, render: bytes -> bytes)
    requires 0 !in s && Decode(s).Some? && Renders(render)
    ensures var v := Decode(s).value;
      && Printable(Rendered(v, render))
      && Decode(EmitValue(Rendered(v, render)))
         == if HoldsUnitSeparator(v) then None else Some(Normal(Rendered(v, render)))
  {
    DecodedIsPrintable(s);
    RenderedIsPrintable(Decode(s).value, render);
    EncodeThenDecode(Rendered(Decode(s).value, render));
  }

  /** Of a value that is written with JSON numbers, printing loses nothing exactly if every number
      prints as it was written. */
  lemma {:induction false} NormalRendered(v: Json, render: bytes -> bytes)
    requires Normal(v) == v
    ensures Normal(Rendered(v, render)) == v <==> Exact(v, render)
    decreases v
  {
    match v
    case Null =>
    case Bool(_) =>
    case Str(_) =>
    case Num(_) =>
    case Arr(elems) =>
      var r := RenderedElements(elems, render);
      forall k | 0 <= k < |elems|
        ensures |NormalElements(r)| == |elems| && (NormalElements(r)[k] == elems[k] <==> Exact(elems[k], render))
      {
        NormalAt(elems, k);
        NormalAt(r, k);
        RenderedAt(elems, render, k);
        NormalRendered(elems[k], render);
      }
      assert elems != [] ==> |NormalElements(r)| == |elems|;
      assert NormalElements(r) == elems <==> forall k | 0 <= k < |elems| :: NormalElements(r)[k] == elems[k];
    case Obj(members) =>
      var r := RenderedMembers(members, render);
      forall k | 0 <= k < |members|
        ensures |NormalMembers(r)| == |members|
        ensures NormalMembers(r)[k] == members[k] <==> Exact(members[k].value, render)
      {
        NormalMemberAt(members, k);
        NormalMemberAt(r, k);
        RenderedMemberAt(members, render, k);
        NormalRendered(members[k].value, render);
      }
      assert NormalMembers(r) == members <==> forall k | 0 <= k < |members| :: NormalMembers(r)[k] == members[k];
  }

  /** The document's own value comes back exactly if no string holds a byte 0x1F and every number
      prints as it was written. */
  lemma ValueComesBack(s: bytes, render: bytes -> bytes)
    requires 0 !in s && Decode(s).Some? && Renders(render)
    ensures var v := Decode(s).value;
      && Printable(Rendered(v, render))
      && (Decode(EmitValue(Rendered(v, render))) == Some(v) <==> !HoldsUnitSeparator(v) && Exact(v, render))
  {
    DecodeThenEncode(s, render);
    DecodedIsPrintable(s);
    NormalRendered(Decode(s).value, render);
  }

  /** Every number of the tree prints as a JSON number, whose double prints the same again. */
  predicate Settled(v: Json, render: bytes -> bytes) {
    match v
    case Null => true
    case Bool(_) => true
    case Str(_) => true
    case Num(text) => NumberIsValid(text) && render(text) == text
    case Arr(elems) => forall e <- elems :: Settled(e, render)
    case Obj(members) => forall m <- members :: Settled(m.value, render)
  }

  lemma {:induction false} RenderedNormal(v: Json, render: bytes -> bytes)
    ensures Rendered(Normal(v), render) == v <==> Settled(v, render)
    decreases v
  {
    match v
    case Null =>
    case Bool(_) =>
    case Str(_) =>
    case Num(_) =>
    case Arr(elems) =>
      var n := NormalElements(elems);
      forall k | 0 <= k < |elems|
        ensures |n| == |elems| && (RenderedElements(n, render)[k] == elems[k] <==> Settled(elems[k], render))
      {
        NormalAt(elems, k);
        RenderedAt(n, render, k);
        RenderedNormal(elems[k], render);
      }
      assert RenderedElements(n, render) == elems <==>
        forall k | 0 <= k < |elems| :: RenderedElements(n, render)[k] == elems[k];
    case Obj(members) =>
      var n := NormalMembers(members);
      forall k | 0 <= k < |members|
        ensures |n| == |members|
        ensures RenderedMembers(n, render)[k] == members[k] <==> Settled(members[k].value, render)
      {
        NormalMemberAt(members, k);
        RenderedMemberAt(n, render, k);
        RenderedNormal(members[k].value, render);
      }
      assert RenderedMembers(n, render) == members <==>
        forall k | 0 <= k < |members| :: RenderedMembers(n, render)[k] == members[k];
  }

  /** `json_decode(json_encode(v))` for the value of any tree of nodes: the tree comes back exactly if
      no string holds a byte 0x1F and all its numbers are settled. */
  lemma TreeComesBack(v: Json, render: bytes -> bytes)
    requires Printable(v)
    ensures var d := Decode(EmitValue(v));
      d.Some? && Rendered(d.value, render) == v <==> !HoldsUnitSeparator(v) && Settled(v, render)
  {
    EncodeThenDecode(v);
    RenderedNormal(v, render);
  }

  // A document that is lost

  /** The document 1e999, and what `sprintf` prints for a double that is infinite. */
  const TOO_LARGE: bytes := [0x31, 0x65, 0x39, 0x39, 0x39]
  const INF: bytes := [0x69, 0x6E, 0x66]

  lemma OverflowIsLost(render: bytes -> bytes)
    requires render(TOO_LARGE) == INF
    ensures Decode(TOO_LARGE) == Some(Num(TOO_LARGE))
    ensures var v := Rendered(Num(TOO_LARGE), render); Printable(v) && Decode(EmitValue(v)) == Some(Null)
  {
    var x := Exponent(0x65, [], [0x39, 0x39, 0x39]);
    var n := Number(false, [0x31], None, Some(x));
    assert NumberDerives(n) && NumberText(n) == TOO_LARGE;
    DerivedDecodes(TOO_LARGE, NumberV(n));
    assert !NumberIsValid(INF);
    EncodeThenDecode(Num(INF));
  }
}
