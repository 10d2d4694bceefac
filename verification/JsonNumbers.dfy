/** What becomes of the numbers of a document: `strtod` makes a double of a number's text, and
    `sprintf` prints the double as some other text, which may not even be a number any more. */
module JsonNumbers {
  import opened Bytes
  import opened JsonGrammar

  /** The value as `json_decode` holds it, with every number as the text that its double prints as.
      `render` is `strtod` followed by `sprintf`. */
  function Rendered(v: Json, render: bytes -> bytes): Json {
    match v
    case Null => v
    case Bool(_) => v
    case Str(_) => v
    case Num(text) => Num(render(text))
    case Arr(elems) => Arr(RenderedElements(elems, render))
    case Obj(members) => Obj(RenderedMembers(members, render))
  }

  function RenderedElements(es: seq<Json>, render: bytes -> bytes): (r: seq<Json>)
    ensures |r| == |es|
  {
    if es == [] then [] else [Rendered(es[0], render)] + RenderedElements(es[1..], render)
  }

  function RenderedMembers(ms: seq<Member>, render: bytes -> bytes): (r: seq<Member>)
    ensures |r| == |ms|
  {
    if ms == [] then [] else [Member(ms[0].key, Rendered(ms[0].value, render))] + RenderedMembers(ms[1..], render)
  }

  lemma {:induction false} RenderedSnoc(es: seq<Json>, v: Json, render: bytes -> bytes)
    ensures RenderedElements(es + [v], render) == RenderedElements(es, render) + [Rendered(v, render)]
  {
    if es == [] {
      assert es + [v] == [v];
    } else {
      RenderedSnoc(es[1..], v, render);
      assert (es + [v])[1..] == es[1..] + [v];
    }
  }

  lemma {:induction false} RenderedMembersSnoc(ms: seq<Member>, m: Member, render: bytes -> bytes)
    ensures RenderedMembers(ms + [m], render) == RenderedMembers(ms, render) + [Member(m.key, Rendered(m.value, render))]
  {
    if ms == [] {
      assert ms + [m] == [m];
    } else {
      RenderedMembersSnoc(ms[1..], m, render);
      assert (ms + [m])[1..] == ms[1..] + [m];
    }
  }

  /** What is printed is a C string. */
  ghost predicate Renders(render: bytes -> bytes) {
    forall t :: 0 !in render(t)
  }

  /** Every number prints as the text that it was written as. */
  predicate Exact(v: Json, render: bytes -> bytes) {
    match v
    case Null => true
    case Bool(_) => true
    case Str(_) => true
    case Num(text) => render(text) == text
    case Arr(elems) => forall e <- elems :: Exact(e, render)
    case Obj(members) => forall m <- members :: Exact(m.value, render)
  }
}
