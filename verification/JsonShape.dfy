/** What `json_check` looks for, and how it goes about it: its tests as functions of the memory, with
    a bound on how far it may go. */
module JsonShape {
  import opened Bytes
  import opened Memory
  import opened JsonTree
  import opened JsonLinks
  import Utf8

  /** The pointers of a node that are followed lead to something allocated. */
  predicate NodeClosed(m: Mem, p: Ptr)
    requires p in m.nodes
  {
    var n := m.nodes[p];
    && (n.next != NULL ==> n.next in m.nodes) && (n.key != NULL ==> n.key in m.texts)
    && (IsContainer(n.tag) && n.head != NULL ==> n.head in m.nodes)
    && (n.tag == JSON_STRING && n.string_ != NULL ==> n.string_ in m.texts)
  }

  /** All that is taken for granted about the memory. Which nodes the pointers lead to is left open, and
      a parent pointer, which is never followed, may lead anywhere. */
  predicate Closed(m: Mem) {
    && NULL !in m.nodes && NULL !in m.texts
    && (forall p <- m.nodes :: NodeClosed(m, p))
    && (forall t <- m.texts :: 0 !in m.texts[t])
  }

  ghost predicate Utf8Texts(m: Mem, s: set<Ptr>) {
    forall t <- s :: Utf8.Text(TextAt(m, t))
  }

  /** A tree: the links of all nodes agree with each other, no node is met twice, exactly the members
      of objects have keys, and the keys and strings are UTF-8. */
  ghost predicate WellFormed(m: Mem, p: Ptr, kids: Forest) {
    Body(m, p, kids) && Distinct(Tree(p, kids, Nil)) && Utf8Texts(m, Texts(m, Tree(p, kids, Nil)))
  }

  /** The three parts of what `json_check` tests at a node: its key, its string, and its children. */
  ghost predicate GoodKey(m: Mem, p: Ptr) {
    Struct(m, p).key == NULL || Utf8.Text(TextAt(m, Struct(m, p).key))
  }

  ghost predicate GoodString(m: Mem, p: Ptr) {
    Struct(m, p).tag == JSON_STRING ==> Utf8.Text(TextAt(m, Struct(m, p).string_))
  }

  ghost predicate GoodKids(m: Mem, p: Ptr, kids: Forest) {
    Body(m, p, kids) && Distinct(kids) && p !in Nodes(kids) && Utf8Texts(m, Texts(m, kids))
  }

  lemma WellFormedParts(m: Mem, p: Ptr, kids: Forest)
    ensures WellFormed(m, p, kids) <==> GoodKey(m, p) && GoodString(m, p) && GoodKids(m, p, kids)
  {
    var all, t := Texts(m, Tree(p, kids, Nil)), Tree(p, kids, Nil);
    assert t.Tree? && t.rest == Nil && Texts(m, t.rest) == {};
    assert all == KeyText(Struct(m, p)) + OwnText(Struct(m, p)) + Texts(m, kids);
    assert Distinct(Tree(p, kids, Nil)) <==> Distinct(kids) && p !in Nodes(kids);
  }

  lemma WellFormedForest(m: Mem, f: Forest, c: Ptr, below: Forest)
    requires Utf8Texts(m, Texts(m, f)) && Utf8Texts(m, Texts(m, Tree(c, below, Nil)))
    ensures Utf8Texts(m, Texts(m, Snoc(f, c, below)))
  {
    SnocData(m, f, c, below);
  }

  /** The siblings that the loop has left behind, the last of which leads to `after`. */
  ghost predicate ChainTo(m: Mem, parent: Ptr, keyed: bool, prev: Ptr, f: Forest, after: Ptr)
    decreases f
  {
    f.Nil? ||
    (&& f.at in m.nodes && f.at != NULL
     && m.nodes[f.at].parent == parent
     && m.nodes[f.at].prev == prev
     && m.nodes[f.at].next == (if f.rest.Nil? then after else f.rest.at)
     && (if keyed then m.nodes[f.at].key in m.texts && m.nodes[f.at].key != NULL else m.nodes[f.at].key == NULL)
     && Body(m, f.at, f.kids)
     && ChainTo(m, parent, keyed, f.at, f.rest, after))
  }

  lemma {:induction false} ChainToEnd(m: Mem, parent: Ptr, keyed: bool, prev: Ptr, f: Forest)
    ensures ChainTo(m, parent, keyed, prev, f, NULL) <==> Chain(m, parent, keyed, prev, f)
    decreases f
  {
    if f.Tree? {
      ChainToEnd(m, parent, keyed, f.at, f.rest);
    }
  }

  lemma {:induction false} ChainToNext(m: Mem, parent: Ptr, keyed: bool, prev: Ptr, f: Forest, c: Ptr, below: Forest)
    requires ChainTo(m, parent, keyed, prev, f, c) && c in m.nodes && c != NULL
    requires m.nodes[c].parent == parent && m.nodes[c].prev == Last(f, prev) && Body(m, c, below)
    requires if keyed then m.nodes[c].key in m.texts && m.nodes[c].key != NULL else m.nodes[c].key == NULL
    ensures ChainTo(m, parent, keyed, prev, Snoc(f, c, below), m.nodes[c].next)
    ensures First(Snoc(f, c, below)) == if f.Nil? then c else First(f)
    decreases f
  {
    if f.Tree? {
      ChainToNext(m, parent, keyed, f.at, f.rest, c, below);
    }
  }

  /** Every node but the siblings themselves has its parent among the nodes of the forest, and every
      sibling has its left neighbour among the siblings. */
  lemma {:induction false} Inside(m: Mem, parent: Ptr, keyed: bool, prev: Ptr, f: Forest, after: Ptr)
    requires ChainTo(m, parent, keyed, prev, f, after) && parent !in Nodes(f)
    ensures Nodes(f) <= m.nodes.Keys
    ensures forall x <- Nodes(f) :: m.nodes[x].parent in Nodes(f) || Top(f, x)
    ensures forall x :: Top(f, x) ==> x in Nodes(f) && m.nodes[x].parent == parent
    ensures forall x :: Top(f, x) ==> m.nodes[x].prev == prev || Top(f, m.nodes[x].prev)
    decreases f
  {
    if f.Tree? {
      Inside(m, parent, keyed, f.at, f.rest, after);
      InsideBody(m, f.at, f.kids);
    }
  }

  lemma {:induction false} InsideBody(m: Mem, p: Ptr, kids: Forest)
    requires Body(m, p, kids)
    ensures Nodes(kids) <= m.nodes.Keys
    ensures forall x <- Nodes(kids) :: m.nodes[x].parent in Nodes(kids) + {p}
    decreases kids, 1
  {
    BodyDomain(m, p, kids);
    if IsContainer(m.nodes[p].tag) {
      InsideChain(m, p, m.nodes[p].tag == JSON_OBJECT, NULL, kids);
    }
  }

  lemma {:induction false} InsideChain(m: Mem, p: Ptr, keyed: bool, prev: Ptr, f: Forest)
    requires Chain(m, p, keyed, prev, f) && Nodes(f) <= m.nodes.Keys
    ensures forall x <- Nodes(f) :: m.nodes[x].parent in Nodes(f) + {p}
    decreases f, 0
  {
    if f.Tree? {
      InsideBody(m, f.at, f.kids);
      InsideChain(m, p, keyed, f.at, f.rest);
    }
  }

  /** A set of nodes that can only be entered from `top` holds nothing of a tree below a node outside
      of it. */
  lemma {:induction false} Apart(m: Mem, s: set<Ptr>, top: Ptr, p: Ptr, kids: Forest)
    requires Body(m, p, kids) && p !in s && p != top && top !in Nodes(kids)
    requires s <= m.nodes.Keys && forall x <- s :: m.nodes[x].parent in s + {top}
    ensures Nodes(kids) !! s
    decreases kids, 1
  {
    if IsContainer(m.nodes[p].tag) {
      ApartChain(m, s, top, p, m.nodes[p].tag == JSON_OBJECT, NULL, kids);
    }
  }

  lemma {:induction false} ApartChain(m: Mem, s: set<Ptr>, top: Ptr, p: Ptr, keyed: bool, prev: Ptr, f: Forest)
    requires Chain(m, p, keyed, prev, f) && p !in s && p != top && top !in Nodes(f)
    requires s <= m.nodes.Keys && forall x <- s :: m.nodes[x].parent in s + {top}
    ensures Nodes(f) !! s
    decreases f, 0
  {
    if f.Tree? {
      assert f.at !in s;
      Apart(m, s, top, f.at, f.kids);
      ApartChain(m, s, top, p, keyed, f.at, f.rest);
    }
  }

  // The run

  /** The tests that the loop over the children makes at a child before it looks into it. */
  predicate GoodLinks(m: Mem, node: Ptr, child: Ptr)
    requires Closed(m) && node in m.nodes && child in m.nodes
  {
    var n, c := m.nodes[node], m.nodes[child];
    && child != node
    && c.next != child
    && c.next != n.head
    && c.parent == node
    && (c.next != NULL ==> m.nodes[c.next].prev == child)
    && !(n.tag == JSON_ARRAY && c.key != NULL)
    && !(n.tag == JSON_OBJECT && c.key == NULL)
  }

  ghost predicate Container(m: Mem, node: Ptr) {
    Closed(m) && node in m.nodes && IsContainer(m.nodes[node].tag)
  }

  /** What the check of a node comes to before it looks at the children, or None if it does look. */
  function Header(m: Mem, node: Ptr): Option<bool>
    requires Closed(m) && node in m.nodes
  {
    var n := m.nodes[node];
    if n.key != NULL && !Utf8.Text(m.texts[n.key]) then Some(false)
    else if n.tag > JSON_OBJECT then Some(false)
    else if n.tag == JSON_STRING then Some(n.string_ != NULL && Utf8.Text(m.texts[n.string_]))
    else if !IsContainer(n.tag) then Some(true)
    else if n.head == NULL || n.tail == NULL then Some(n.head == NULL && n.tail == NULL)
    else if m.nodes[n.head].prev != NULL then Some(false)
    else None
  }

  /** `json_check`, or None if `fuel` does not suffice to come to an end. */
  function CheckRun(m: Mem, node: Ptr, fuel: nat): Option<bool>
    requires Closed(m) && node in m.nodes
    decreases fuel
  {
    if fuel == 0 then None
    else if Header(m, node).Some? then Header(m, node)
    else LoopRun(m, node, m.nodes[node].head, NULL, fuel - 1)
  }

  /** Its loop over the children, from `child` on, which comes behind `last`. */
  function LoopRun(m: Mem, node: Ptr, child: Ptr, last: Ptr, fuel: nat): Option<bool>
    requires Closed(m) && node in m.nodes && (child != NULL ==> child in m.nodes)
    decreases fuel
  {
    if fuel == 0 then None
    else if child == NULL then Some(last == m.nodes[node].tail)
    else if !GoodLinks(m, node, child) then Some(false)
    else
      var r := CheckRun(m, child, fuel - 1);
      if r != Some(true) then r else LoopRun(m, node, m.nodes[child].next, child, fuel - 1)
  }

  /** A run that comes to an end does not depend on the bound. */
  lemma {:induction false} CheckRunMore(m: Mem, node: Ptr, fuel: nat, more: nat)
    requires Closed(m) && node in m.nodes && CheckRun(m, node, fuel).Some? && fuel <= more
    ensures CheckRun(m, node, more) == CheckRun(m, node, fuel)
    decreases fuel
  {
    if Header(m, node).None? {
      LoopRunMore(m, node, m.nodes[node].head, NULL, fuel - 1, more - 1);
    }
  }

  lemma {:induction false} LoopRunMore(m: Mem, node: Ptr, child: Ptr, last: Ptr, fuel: nat, more: nat)
    requires Closed(m) && node in m.nodes && (child != NULL ==> child in m.nodes)
    requires LoopRun(m, node, child, last, fuel).Some? && fuel <= more
    ensures LoopRun(m, node, child, last, more) == LoopRun(m, node, child, last, fuel)
    decreases fuel
  {
    if child != NULL && GoodLinks(m, node, child) {
      CheckRunMore(m, child, fuel - 1, more - 1);
      if CheckRun(m, child, fuel - 1) == Some(true) {
        LoopRunMore(m, node, m.nodes[child].next, child, fuel - 1, more - 1);
      }
    }
  }

  /** The check of the node comes to an end, */
  ghost predicate Ends(m: Mem, node: Ptr)
    requires Closed(m) && node in m.nodes
  {
    exists fuel: nat :: CheckRun(m, node, fuel).Some?
  }

  /** or even accepts it. */
  ghost predicate Accepts(m: Mem, node: Ptr)
    requires Closed(m) && node in m.nodes
  {
    exists fuel: nat :: CheckRun(m, node, fuel) == Some(true)
  }
}
