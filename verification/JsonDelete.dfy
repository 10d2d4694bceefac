/** `json_delete`: what it frees and what it leaves. */
module JsonDelete {
  import opened Bytes
  import opened Memory
  import opened JsonGrammar
  import opened JsonTree
  import opened JsonLinks
  import opened JsonEdit

  /** The node is unlinked, and it, everything below it and all their strings are gone. */
  function Deleted(m: Mem, n: Ptr, below: Forest): Mem {
    Mem(RemoveMem(m, n).nodes - ({n} + Nodes(below)), RemoveMem(m, n).texts - TreeTexts(m, n, below))
  }

  /** The node is no one's child and has no key, or it is one of the children `kids` of its parent. */
  ghost predicate Deletable(m: Mem, n: Ptr, below: Forest, kids: Forest) {
    && Proper(m, n, below)
    && (var parent := Struct(m, n).parent;
        if parent == NULL then
          Struct(m, n).key == NULL
        else
          && Proper(m, parent, kids) && IsContainer(Struct(m, parent).tag)
          && Top(kids, n) && Below(kids, n) == below)
  }

  lemma ChildIsDeletable(m: Mem, parent: Ptr, n: Ptr, kids: Forest)
    requires Proper(m, parent, kids) && IsContainer(Struct(m, parent).tag) && Top(kids, n)
    ensures Deletable(m, n, Below(kids, n), kids) && Struct(m, n).parent == parent && Removable(m, n)
  {
    ChildFacts(m, parent, n, kids);
    WithoutForest(kids, n);
    WithoutTexts(m, kids, n);
    ContainerChain(m, parent, kids);
    TopLinks(m, parent, m.nodes[parent].tag == JSON_OBJECT, NULL, kids, n);
  }

  lemma RemoveSameData(m: Mem, n: Ptr, p: Ptr)
    requires Unlinked(m, RemoveMem(m, n), n) && p != n
    ensures SameData(Struct(m, p), Struct(RemoveMem(m, n), p))
  {
    var d := Struct(m, n);
    assert p in m.nodes ==>
      p in {d.parent, d.prev, d.next} - {NULL} || p in m.nodes.Keys - ({n, d.parent, d.prev, d.next} - {NULL});
  }

  /** A child shares nothing with the parent and the other children. */
  lemma RemainingApart(m: Mem, parent: Ptr, n: Ptr, kids: Forest)
    requires Proper(m, parent, kids) && Top(kids, n)
    ensures var rest := Without(kids, n);
      && Distinct(Tree(parent, rest, Nil)) && Nodes(rest) + {parent} !! {n} + Nodes(Below(kids, n))
      && OwnedOnce(m, rest) && Texts(m, rest) !! KeyText(Struct(m, n)) + TreeTexts(m, n, Below(kids, n))
  {
    ChildFacts(m, parent, n, kids);
    WithoutForest(kids, n);
    WithoutTexts(m, kids, n);
  }

  /** Unlinking a child leaves the data of the other children alone. */
  lemma RemainingData(m: Mem, parent: Ptr, n: Ptr, kids: Forest)
    requires Proper(m, parent, kids) && IsContainer(Struct(m, parent).tag) && Top(kids, n)
    ensures var u, rest := RemoveMem(m, n), Without(kids, n);
      && Unlinked(m, u, n) && Body(u, parent, rest) == true
      && Distinct(Tree(parent, rest, Nil)) && Nodes(rest) + {parent} !! {n} + Nodes(Below(kids, n))
      && (forall p <- Nodes(rest) + {parent} :: SameData(Struct(m, p), Struct(u, p)))
      && OwnedOnce(m, rest) && Texts(m, rest) !! KeyText(Struct(m, n)) + TreeTexts(m, n, Below(kids, n))
  {
    RemoveTree(m, parent, n, kids);
    RemainingApart(m, parent, n, kids);
    forall p | p in Nodes(Without(kids, n)) + {parent}
      ensures SameData(Struct(m, p), Struct(RemoveMem(m, n), p))
    {
      RemoveSameData(m, n, p);
    }
  }

  /** The parent of a deleted node: its other children are as before, in the same order, with the
      same values and strings. */
  lemma DeletedParent(m: Mem, w: Mem, parent: Ptr, n: Ptr, kids: Forest)
    requires Proper(m, parent, kids) && IsContainer(Struct(m, parent).tag) && Top(kids, n)
    requires w == Deleted(m, n, Below(kids, n))
    ensures Proper(w, parent, Without(kids, n))
    ensures Texts(w, Without(kids, n)) == Texts(m, Without(kids, n))
    ensures ValuesOf(w, Without(kids, n)) == ValuesOf(m, Without(kids, n))
    ensures MembersOf(w, Without(kids, n)) == MembersOf(m, Without(kids, n))
  {
    var u, rest := RemoveMem(m, n), Without(kids, n);
    RemainingData(m, parent, n, kids);
    TextsFrame(m, u, rest);
    ValuesFrame(m, u, rest);
    ProperFrame(u, w, parent, rest);
  }

  /** Outside of the siblings of an unlinked node nothing has changed. */
  lemma UnlinkedOutside(m: Mem, u: Mem, parent: Ptr, n: Ptr, kids: Forest)
    requires Unlinked(m, u, n) && Struct(m, n).parent == parent && parent in m.nodes && parent !in Nodes(kids)
    requires n in Nodes(kids) && Struct(m, n).prev in Nodes(kids) + {NULL} && Struct(m, n).next in Nodes(kids) + {NULL}
    ensures SameNodes(m, u, m.nodes.Keys - Nodes(kids) - {parent}) && u.nodes.Keys == m.nodes.Keys
    ensures SameData(Struct(m, parent), Struct(u, parent)) && SameLinks(Struct(m, parent), Struct(u, parent))
    ensures u.texts == m.texts - KeyText(Struct(m, n))
  {
  }

  /** One round of the loop of `json_delete` below the node `p`: the first of the remaining children
      is deleted. */
  lemma DeletedFirst(m: Mem, w: Mem, p: Ptr, f: Forest)
    requires Proper(m, p, f) && IsContainer(Struct(m, p).tag) && f.Tree?
    requires w == Deleted(m, f.at, f.kids)
    ensures Proper(w, p, f.rest) && SameData(Struct(m, p), Struct(w, p)) && SameLinks(Struct(m, p), Struct(w, p))
    ensures w.nodes - ({p} + Nodes(f.rest)) == m.nodes - ({p} + Nodes(f))
    ensures w.texts - Texts(w, f.rest) == m.texts - Texts(m, f)
  {
    var u := RemoveMem(m, f.at);
    DeletedParent(m, w, p, f.at, f);
    RemoveTree(m, p, f.at, f);
    ChildFacts(m, p, f.at, f);
    UnlinkedOutside(m, u, p, f.at, f);
    FreedNodes(m, u, w, p, f);
    FreedTexts(m, u, w, f);
  }

  lemma FreedNodes(m: Mem, u: Mem, w: Mem, p: Ptr, f: Forest)
    requires f.Tree? && Distinct(Tree(p, f, Nil)) && p in m.nodes
    requires SameNodes(m, u, m.nodes.Keys - Nodes(f) - {p}) && u.nodes.Keys == m.nodes.Keys
    requires w.nodes == u.nodes - ({f.at} + Nodes(f.kids))
    ensures Struct(w, p) == Struct(u, p)
    ensures w.nodes - ({p} + Nodes(f.rest)) == m.nodes - ({p} + Nodes(f))
  {
    Minus(m.nodes, u.nodes, {f.at} + Nodes(f.kids), {p} + Nodes(f.rest), {p} + Nodes(f));
  }

  lemma FreedTexts(m: Mem, u: Mem, w: Mem, f: Forest)
    requires f.Tree? && u.texts == m.texts - KeyText(Struct(m, f.at))
    requires w.texts == u.texts - TreeTexts(m, f.at, f.kids)
    ensures w.texts - Texts(m, f.rest) == m.texts - Texts(m, f)
  {
    var own := KeyText(Struct(m, f.at)) + TreeTexts(m, f.at, f.kids);
    assert w.texts == m.texts - own;
    Minus(m.texts, m.texts, own, Texts(m, f.rest), Texts(m, f));
  }

  lemma Minus<T>(m: map<Ptr, T>, u: map<Ptr, T>, a: set<Ptr>, b: set<Ptr>, all: set<Ptr>)
    requires a + b == all && u.Keys == m.Keys && forall p <- m.Keys - all :: u[p] == m[p]
    ensures u - a - b == m - all
  {
  }

  /** `json_delete`, which does nothing for the null pointer. */
  method JsonDelete(h: Heap, node: Ptr, ghost below: Forest, ghost kids: Forest)
    requires node != NULL ==> Deletable(h.m, node, below, kids)
    modifies h`m
    ensures h.m == if node == NULL then old(h.m) else Deleted(old(h.m), node, below)
    decreases below
  {
    if node != NULL {
      ghost var m := h.m;
      if Struct(m, node).parent != NULL {
        ChildIsDeletable(m, Struct(m, node).parent, node, kids);
      }
      JsonRemoveFromParent(h, node);
      UnlinkedAlone(m, node, below, kids);
      ghost var u := h.m;
      var tag := h.m.nodes[node].tag;
      if tag == JSON_STRING {
        assert TreeTexts(u, node, below) == {h.m.nodes[node].string_};
        h.FreeText(h.m.nodes[node].string_);
      } else if tag == JSON_ARRAY || tag == JSON_OBJECT {
        DeleteChildren(h, node, below);
        assert TreeTexts(u, node, below) == Texts(u, below);
      } else {
        assert TreeTexts(u, node, below) == {} && u.texts - {} == u.texts;
      }
      assert below.Nil? ==> {node} + Nodes(below) == {node};
      AllDeleted(m, u, h.m, node, below);
      h.FreeNode(node);
    }
  }

  /** The loop of `json_delete`, in which every call unlinks the child that it frees. */
  method DeleteChildren(h: Heap, node: Ptr, ghost below: Forest)
    requires Proper(h.m, node, below) && IsContainer(h.m.nodes[node].tag)
    modifies h`m
    ensures node in h.m.nodes && h.m.nodes - {node} == old(h.m.nodes) - ({node} + Nodes(below))
    ensures h.m.texts == old(h.m.texts) - Texts(old(h.m), below)
    decreases below, 0
  {
    ghost var u, rest := h.m, below;
    ContainerChain(h.m, node, below);
    var child := h.m.nodes[node].head;
    while child != NULL
      invariant Proper(h.m, node, rest) && child == First(rest) && IsContainer(h.m.nodes[node].tag)
      invariant h.m.nodes - ({node} + Nodes(rest)) == u.nodes - ({node} + Nodes(below))
      invariant h.m.texts - Texts(h.m, rest) == u.texts - Texts(u, below)
      invariant rest.Tree? ==> rest.kids < below
      decreases rest
    {
      ContainerChain(h.m, node, rest);
      ChildIsDeletable(h.m, node, child, rest);
      ghost var before := h.m;
      var next := h.m.nodes[child].next;
      JsonDelete(h, child, rest.kids, rest);
      DeletedFirst(before, h.m, node, rest);
      child := next;
      rest := rest.rest;
    }
    ContainerChain(h.m, node, rest);
    assert rest.Nil? && {node} + Nodes(rest) == {node} && h.m.texts - {} == h.m.texts;
  }

  lemma UnlinkedAlone(m: Mem, node: Ptr, below: Forest, kids: Forest)
    requires Deletable(m, node, below, kids)
    ensures var u := RemoveMem(m, node);
      && Proper(u, node, below) && TreeTexts(u, node, below) == TreeTexts(m, node, below)
      && SameContents(Struct(m, node), Struct(u, node))
  {
    if Struct(m, node).parent != NULL {
      var parent, u := Struct(m, node).parent, RemoveMem(m, node);
      RemoveTree(m, parent, node, kids);
      forall p | p in Nodes(below)
        ensures SameData(Struct(m, p), Struct(u, p))
      {
        RemoveSameData(m, node, p);
      }
      TextsFrame(m, u, below);
    }
  }

  /** What is left when all children are gone and the node is freed. */
  lemma AllDeleted(m: Mem, u: Mem, w: Mem, node: Ptr, below: Forest)
    requires u == RemoveMem(m, node) && TreeTexts(u, node, below) == TreeTexts(m, node, below)
    requires w.nodes - {node} == u.nodes - ({node} + Nodes(below))
    requires w.texts == u.texts - TreeTexts(u, node, below)
    ensures w.(nodes := w.nodes - {node}) == Deleted(m, node, below)
  {
  }

  /** The abstract list of children loses exactly the deleted one. */
  lemma {:induction false} WithoutValue(m: Mem, f: Forest, n: Ptr) returns (i: nat)
    requires Top(f, n)
    ensures var vs, ms := ValuesOf(m, f), MembersOf(m, f);
      && i < |vs| && vs[i] == ValueOf(m, n, Below(f, n)) && ValuesOf(m, Without(f, n)) == vs[..i] + vs[i + 1..]
      && i < |ms| && ms[i] == MemberOf(m, n, Below(f, n)) && MembersOf(m, Without(f, n)) == ms[..i] + ms[i + 1..]
  {
    if f.at == n {
      i := 0;
    } else {
      var j := WithoutValue(m, f.rest, n);
      i := j + 1;
      Behind(ValueOf(m, f.at, f.kids), ValuesOf(m, f.rest), j);
      Behind(MemberOf(m, f.at, f.kids), MembersOf(m, f.rest), j);
    }
  }

  lemma Behind<T>(x: T, s: seq<T>, j: nat)
    requires j < |s|
    ensures ([x] + s)[..j + 1] + ([x] + s)[j + 2..] == [x] + (s[..j] + s[j + 1..])
  {
  }

  /** Deleting a child: exactly its nodes and strings are gone, nothing outside of the siblings and
      their parent has changed, and the parent's list has lost exactly the one entry. */
  lemma DeleteIsExact(m: Mem, n: Ptr, below: Forest, kids: Forest) returns (i: nat)
    requires Deletable(m, n, below, kids) && Struct(m, n).parent != NULL
    ensures var w, parent, own := Deleted(m, n, below), Struct(m, n).parent, KeyText(Struct(m, n)) + TreeTexts(m, n, below);
      && w.nodes.Keys == m.nodes.Keys - ({n} + Nodes(below))
      && SameNodes(m, w, m.nodes.Keys - Nodes(kids) - {parent})
      && w.texts == m.texts - own && own <= m.texts.Keys
      && Body(w, parent, Without(kids, n)) && Distinct(Tree(parent, Without(kids, n), Nil))
    ensures var w, vs, ms := Deleted(m, n, below), ValuesOf(m, kids), MembersOf(m, kids);
      && i < |vs| && vs[i] == ValueOf(m, n, below) && ValuesOf(w, Without(kids, n)) == vs[..i] + vs[i + 1..]
      && i < |ms| && ms[i] == MemberOf(m, n, below) && MembersOf(w, Without(kids, n)) == ms[..i] + ms[i + 1..]
  {
    var w, parent := Deleted(m, n, below), Struct(m, n).parent;
    DeletedParent(m, w, parent, n, kids);
    i := WithoutValue(m, kids, n);
    DeletedOutside(m, n, below, kids);
  }

  lemma DeletedOutside(m: Mem, n: Ptr, below: Forest, kids: Forest)
    requires Deletable(m, n, below, kids) && Struct(m, n).parent != NULL
    ensures var w, parent, own := Deleted(m, n, below), Struct(m, n).parent, KeyText(Struct(m, n)) + TreeTexts(m, n, below);
      && w.nodes.Keys == m.nodes.Keys - ({n} + Nodes(below))
      && SameNodes(m, w, m.nodes.Keys - Nodes(kids) - {parent})
      && w.texts == m.texts - own && own <= m.texts.Keys
  {
    var parent, u := Struct(m, n).parent, RemoveMem(m, n);
    RemoveTree(m, parent, n, kids);
    ChildFacts(m, parent, n, kids);
    UnlinkedOutside(m, u, parent, n, kids);
    TopLinks(m, parent, m.nodes[parent].tag == JSON_OBJECT, NULL, kids, n);
    BodyDomain(m, n, below);
    TakenAway(m, u, Deleted(m, n, below), {n} + Nodes(below), Nodes(kids) + {parent},
              KeyText(Struct(m, n)), TreeTexts(m, n, below));
    assert m.nodes.Keys - Nodes(kids) - {parent} == m.nodes.Keys - (Nodes(kids) + {parent});
  }

  lemma TakenAway(m: Mem, u: Mem, w: Mem, gone: set<Ptr>, touched: set<Ptr>, key: set<Ptr>, own: set<Ptr>)
    requires u.nodes.Keys == m.nodes.Keys && SameNodes(m, u, m.nodes.Keys - touched) && gone <= touched
    requires w.nodes == u.nodes - gone && u.texts == m.texts - key && w.texts == u.texts - own
    ensures w.nodes.Keys == m.nodes.Keys - gone && SameNodes(m, w, m.nodes.Keys - touched)
    ensures w.texts == m.texts - (key + own)
  {
  }
}
