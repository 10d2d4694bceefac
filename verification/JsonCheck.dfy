/** `json_check` itself. */
module JsonCheck {
  import opened Bytes
  import opened Memory
  import opened JsonTree
  import opened JsonLinks
  import opened JsonNumbers
  import opened JsonShape
  import opened JsonDecision
  import JsonBuild
  import JsonPrinting
  import JsonReprint
  import JsonRoundTrip
  import JsonSyntax
  import Utf8

  /** `utf8_validate`. */
  method Utf8Validate(s: bytes) returns (ok: bool)
    requires 0 !in s
    ensures ok == Utf8.Text(s)
  {
    var i := 0;
    assert s[0..] == s;
    while i < |s|
      invariant i <= |s| && Utf8.Text(s[i..]) == Utf8.Text(s)
    {
      var len := Utf8.ValidateCz(s, i);
      Utf8.ValidateStaysInside(s, i);
      assert s[i..][len..] == s[i + len..];
      assert Utf8.ValidateCz(s[i..], 0) == len;
      if len == 0 {
        return false;
      }
      i := i + len;
    }
    return true;
  }

  /** `json_check`, wherever it comes to an end. */
  method Check(m: Mem, node: Ptr, ghost fuel: nat) returns (ok: bool)
    requires Closed(m) && node in m.nodes && CheckRun(m, node, fuel).Some?
    ensures CheckRun(m, node, fuel) == Some(ok)
    decreases fuel, 1
  {
    var n := m.nodes[node];
    ok := true;
    if n.key != NULL {
      ok := Utf8Validate(m.texts[n.key]);
    }
    if !ok || n.tag > JSON_OBJECT {
      ok := false;
    } else if n.tag == JSON_STRING {
      ok := n.string_ != NULL;
      if ok {
        ok := Utf8Validate(m.texts[n.string_]);
      }
    } else if n.tag == JSON_ARRAY || n.tag == JSON_OBJECT {
      if n.head == NULL || n.tail == NULL {
        ok := n.head == NULL && n.tail == NULL;
      } else if m.nodes[n.head].prev != NULL {
        ok := false;
      } else {
        ok := CheckChildren(m, node, fuel - 1);
      }
    }
  }

  /** The loop over the children. */
  method CheckChildren(m: Mem, node: Ptr, ghost fuel: nat) returns (ok: bool)
    requires Closed(m) && node in m.nodes && m.nodes[node].head in m.nodes
    requires LoopRun(m, node, m.nodes[node].head, NULL, fuel).Some?
    ensures LoopRun(m, node, m.nodes[node].head, NULL, fuel) == Some(ok)
    decreases fuel, 0
  {
    var child, last := m.nodes[node].head, NULL;
    ghost var left: nat := fuel;
    ok := true;
    while child != NULL && ok
      invariant child != NULL ==> child in m.nodes
      invariant left <= fuel && (ok ==> LoopRun(m, node, child, last, left) == LoopRun(m, node, m.nodes[node].head, NULL, fuel))
      invariant !ok ==> LoopRun(m, node, m.nodes[node].head, NULL, fuel) == Some(false)
      decreases ok, left
    {
      ok := GoodLinks(m, node, child);
      if ok {
        left := left - 1;
        ok := Check(m, child, left);
      }
      last, child := child, m.nodes[child].next;
    }
    if ok {
      ok := last == m.nodes[node].tail;
    }
  }

  /** `json_check` of a node that is not among its own ancestors: it accepts exactly the roots of trees. */
  method JsonCheck(m: Mem, node: Ptr) returns (ok: bool)
    requires Closed(m) && node in m.nodes && !OwnAncestor(m, node)
    ensures ok <==> exists kids :: WellFormed(m, node, kids)
  {
    NoCircle(m, node);
    AcceptsExactly(m, node);
    ghost var fuel: nat :| CheckRun(m, node, fuel).Some?;
    ok := Check(m, node, fuel);
    if !ok {
      RefusedIsRefused(m, node, fuel);
    }
  }

  lemma RefusedIsRefused(m: Mem, node: Ptr, fuel: nat)
    requires Closed(m) && node in m.nodes && CheckRun(m, node, fuel) == Some(false)
    ensures !Accepts(m, node)
  {
    forall more: nat
      ensures CheckRun(m, node, more) != Some(true)
    {
      if CheckRun(m, node, more).Some? {
        if fuel <= more {
          CheckRunMore(m, node, fuel, more);
        } else {
          CheckRunMore(m, node, more, fuel);
        }
      }
    }
  }

  /** There is only one tree that a node can be the root of. */
  lemma {:induction false} TreeIsUnique(m: Mem, p: Ptr, a: Forest, b: Forest)
    requires Body(m, p, a) && Body(m, p, b)
    ensures a == b
    decreases a, 1
  {
    if IsContainer(m.nodes[p].tag) {
      ChainIsUnique(m, p, m.nodes[p].tag == JSON_OBJECT, NULL, a, b);
    }
  }

  lemma {:induction false} ChainIsUnique(m: Mem, parent: Ptr, keyed: bool, prev: Ptr, a: Forest, b: Forest)
    requires Chain(m, parent, keyed, prev, a) && Chain(m, parent, keyed, prev, b) && First(a) == First(b)
    ensures a == b
    decreases a, 0
  {
    if a.Tree? && b.Tree? {
      TreeIsUnique(m, a.at, a.kids, b.kids);
      ChainIsUnique(m, parent, keyed, a.at, a.rest, b.rest);
    }
  }

  lemma {:induction false} PrintableTexts(m: Mem, p: Ptr, kids: Forest)
    requires Body(m, p, kids) && JsonPrinting.Printable(ValueOf(m, p, kids))
    ensures GoodString(m, p) && Utf8Texts(m, Texts(m, kids))
    decreases kids, 1
  {
    if IsContainer(m.nodes[p].tag) {
      PrintableChain(m, p, m.nodes[p].tag == JSON_OBJECT, NULL, kids);
    }
  }

  lemma {:induction false} PrintableChain(m: Mem, parent: Ptr, keyed: bool, prev: Ptr, f: Forest)
    requires Chain(m, parent, keyed, prev, f)
    requires !keyed ==> forall v <- ValuesOf(m, f) :: JsonPrinting.Printable(v)
    requires keyed ==> forall v <- MembersOf(m, f) :: Utf8.Text(v.key) && JsonPrinting.Printable(v.value)
    ensures Utf8Texts(m, Texts(m, f))
    decreases f, 0
  {
    if f.Tree? {
      assert ValuesOf(m, f)[0] == ValueOf(m, f.at, f.kids) && ValuesOf(m, f)[1..] == ValuesOf(m, f.rest);
      assert MembersOf(m, f)[0] == MemberOf(m, f.at, f.kids) && MembersOf(m, f)[1..] == MembersOf(m, f.rest);
      PrintableTexts(m, f.at, f.kids);
      PrintableChain(m, parent, keyed, f.at, f.rest);
    }
  }

  // What json_decode makes

  lemma {:induction false} ChainIsClosed(m: Mem, parent: Ptr, keyed: bool, prev: Ptr, f: Forest)
    requires Chain(m, parent, keyed, prev, f) && Nodes(f) <= m.nodes.Keys
    ensures forall p <- Nodes(f) :: NodeClosed(m, p)
    decreases f, 0
  {
    if f.Tree? {
      BodyIsClosed(m, f.at, f.kids);
      ChainIsClosed(m, parent, keyed, f.at, f.rest);
    }
  }

  lemma {:induction false} BodyIsClosed(m: Mem, p: Ptr, kids: Forest)
    requires Body(m, p, kids) && Nodes(kids) <= m.nodes.Keys
    ensures forall q <- Nodes(kids) :: NodeClosed(m, q)
    ensures IsContainer(m.nodes[p].tag) && m.nodes[p].head != NULL ==> m.nodes[p].head in m.nodes
    decreases kids, 1
  {
    if IsContainer(m.nodes[p].tag) {
      ChainIsClosed(m, p, m.nodes[p].tag == JSON_OBJECT, NULL, kids);
    }
  }

  /** Closed memory stays closed when a tree of UTF-8 strings is added. */
  lemma GrownIsClosed(m: Mem, w: Mem, p: Ptr, below: Forest)
    requires Closed(m) && JsonBuild.Grown(m, w, p, below) && WellFormed(w, p, below)
    ensures Closed(w)
  {
    JsonBuild.GrownKeeps(m, w, p, below);
    BodyDomain(w, p, below);
    BodyIsClosed(w, p, below);
    WellFormedParts(w, p, below);
    NewTextsAreClosed(m, w, p, below);
    forall q | q in w.nodes
      ensures NodeClosed(w, q)
    {
      if q in m.nodes {
        assert w.nodes[q] == m.nodes[q];
      } else if q == p {
      } else {
        assert q in Nodes(below);
      }
    }
  }

  lemma NewTextsAreClosed(m: Mem, w: Mem, p: Ptr, below: Forest)
    requires Closed(m) && JsonBuild.Grown(m, w, p, below) && GoodString(w, p) && Utf8Texts(w, Texts(w, below))
    ensures NULL !in w.texts && forall t <- w.texts :: 0 !in w.texts[t]
  {
    JsonBuild.GrownKeeps(m, w, p, below);
    BodyDomain(w, p, below);
    forall t | t in w.texts
      ensures t != NULL && 0 !in w.texts[t]
    {
      if t !in m.texts {
        assert t in TreeTexts(w, p, below);
        assert Utf8.Text(TextAt(w, t));
        Utf8.TextHasNoNul(TextAt(w, t));
      }
    }
  }

  /** A tree that `json_decode` has made on closed memory is accepted by `json_check`, and can be
      printed again. */
  lemma DecodedIsAccepted(s: bytes, render: bytes -> bytes, m: Mem, w: Mem, p: Ptr, below: Forest)
    requires 0 !in s && JsonSyntax.Decode(s).Some? && Renders(render) && Closed(m)
    requires JsonBuild.Built(m, w, p, below, Rendered(JsonSyntax.Decode(s).value, render))
    ensures Closed(w) && p in w.nodes && !OwnAncestor(w, p) && Accepts(w, p)
    ensures JsonPrinting.Printable(ValueOf(w, p, below))
  {
    JsonRoundTrip.DecodedIsPrintable(s);
    JsonReprint.RenderedIsPrintable(JsonSyntax.Decode(s).value, render);
    PrintableTexts(w, p, below);
    WellFormedParts(w, p, below);
    GrownIsClosed(m, w, p, below);
    AcceptsExactly(w, p);
    RootHasNoAncestor(w, p);
  }

  lemma RootHasNoAncestor(m: Mem, p: Ptr)
    requires Closed(m) && Detached(m, p)
    ensures !OwnAncestor(m, p)
  {
  }
}
