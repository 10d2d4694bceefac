/** Linking and unlinking of nodes, as transformations of the memory, and what they do to trees. */
module JsonLinks {
  import opened Bytes
  import opened Memory
  import opened JsonGrammar
  import opened JsonTree

  // Lists of siblings

  function Snoc(f: Forest, c: Ptr, below: Forest): Forest {
    if f.Nil? then Tree(c, below, Nil) else f.(rest := Snoc(f.rest, c, below))
  }

  /** `n` is one of the siblings. */
  predicate Top(f: Forest, n: Ptr) {
    f.Tree? && (f.at == n || Top(f.rest, n))
  }

  function Without(f: Forest, n: Ptr): Forest {
    if f.Nil? then Nil else if f.at == n then f.rest else f.(rest := Without(f.rest, n))
  }

  /** The children of the sibling `n`. */
  function Below(f: Forest, n: Ptr): Forest
    requires Top(f, n)
  {
    if f.at == n then f.kids else Below(f.rest, n)
  }

  lemma {:induction false} SnocForest(f: Forest, c: Ptr, below: Forest)
    ensures Nodes(Snoc(f, c, below)) == Nodes(f) + {c} + Nodes(below)
    ensures Distinct(f) && Distinct(Tree(c, below, Nil)) && Nodes(f) !! Nodes(Tree(c, below, Nil))
        ==> Distinct(Snoc(f, c, below))
    ensures First(Snoc(f, c, below)) == if f.Nil? then c else First(f)
    ensures forall b :: Last(Snoc(f, c, below), b) == c
  {
    if f.Tree? {
      SnocForest(f.rest, c, below);
    }
  }

  /** Taking out the sibling that was put in last. */
  lemma {:induction false} WithoutSnoc(f: Forest, c: Ptr, below: Forest)
    requires c !in Nodes(f)
    ensures Top(Snoc(f, c, below), c) && Below(Snoc(f, c, below), c) == below
    ensures Without(Snoc(f, c, below), c) == f
  {
    if f.Tree? {
      WithoutSnoc(f.rest, c, below);
    }
  }

  lemma {:induction false} WithoutForest(f: Forest, n: Ptr)
    requires Distinct(f) && Top(f, n)
    ensures n in Nodes(f) && Nodes(Below(f, n)) <= Nodes(f) - {n}
    ensures Nodes(Without(f, n)) == Nodes(f) - {n} - Nodes(Below(f, n))
    ensures Distinct(Without(f, n)) && Distinct(Tree(n, Below(f, n), Nil))
  {
    if f.at != n {
      WithoutForest(f.rest, n);
    }
  }

  lemma {:induction false} LastOf(f: Forest, before: Ptr)
    ensures f.Tree? ==> Top(f, Last(f, before)) && Last(f, before) in Nodes(f)
    ensures f.Tree? ==> forall b :: Last(f, b) == Last(f, before)
  {
    if f.Tree? && f.rest.Tree? {
      LastOf(f.rest, f.at);
    }
  }

  // Appending and prepending

  function Set(m: Mem, p: Ptr, n: Node): Mem {
    m.(nodes := m.nodes[p := n])
  }

  /** `append_node`. */
  function AppendMem(m: Mem, parent: Ptr, child: Ptr): Mem {
    var tail := Struct(m, parent).tail;
    var a := Set(m, child, Struct(m, child).(parent := parent, prev := tail, next := NULL));
    var b := if tail != NULL then Set(a, tail, Struct(a, tail).(next := child))
             else Set(a, parent, Struct(a, parent).(head := child));
    Set(b, parent, Struct(b, parent).(tail := child))
  }

  /** `prepend_node`. */
  function PrependMem(m: Mem, parent: Ptr, child: Ptr): Mem {
    var head := Struct(m, parent).head;
    var a := Set(m, child, Struct(m, child).(parent := parent, prev := NULL, next := head));
    var b := if head != NULL then Set(a, head, Struct(a, head).(prev := child))
             else Set(a, parent, Struct(a, parent).(tail := child));
    Set(b, parent, Struct(b, parent).(head := child))
  }

  lemma {:induction false} SnocChain(m: Mem, w: Mem, parent: Ptr, keyed: bool, prev: Ptr, f: Forest, c: Ptr, below: Forest)
    requires Chain(m, parent, keyed, prev, f) && Distinct(f) && w.texts == m.texts
    requires Nodes(f) <= w.nodes.Keys
    requires SameNodes(m, w, Nodes(f) - {Last(f, NULL)})
    requires f.Tree? ==> Struct(w, Last(f, NULL)) == Struct(m, Last(f, NULL)).(next := c)
    requires Chain(w, parent, keyed, Last(f, prev), Tree(c, below, Nil))
    ensures Chain(w, parent, keyed, prev, Snoc(f, c, below))
    decreases f
  {
    if f.Tree? {
      LastOf(f.rest, f.at);
      assert Last(f, NULL) == if f.rest.Nil? then f.at else Last(f.rest, NULL);
      BodyDomain(m, f.at, f.kids);
      assert SameNodes(m, w, Nodes(f.kids));
      assert Struct(w, f.at) == if f.rest.Nil? then Struct(m, f.at).(next := c) else Struct(m, f.at);
      BodyFrame(m, w, f.at, f.kids);
      SnocChain(m, w, parent, keyed, f.at, f.rest, c, below);
    }
  }

  /** The children of a container: what `append_node` and `json_remove_from_parent` rely on. */
  lemma ContainerChain(m: Mem, p: Ptr, kids: Forest)
    requires Body(m, p, kids) && IsContainer(m.nodes[p].tag)
    ensures Chain(m, p, m.nodes[p].tag == JSON_OBJECT, NULL, kids)
    ensures m.nodes[p].head == First(kids) && m.nodes[p].tail == Last(kids, NULL)
    ensures Nodes(kids) <= m.nodes.Keys
    ensures kids.Tree? ==> First(kids) in Nodes(kids) && Last(kids, NULL) in Nodes(kids)
    ensures kids.Tree? <==> m.nodes[p].head != NULL
    ensures kids.Tree? <==> m.nodes[p].tail != NULL
  {
    BodyDomain(m, p, kids);
    LastOf(kids, NULL);
  }

  /** Appending a tree to a container: its children are then the old ones and the new one. */
  lemma AppendTree(m: Mem, parent: Ptr, child: Ptr, kids: Forest, below: Forest)
    requires Body(m, parent, kids) && IsContainer(m.nodes[parent].tag) && Body(m, child, below)
    requires Distinct(Tree(parent, kids, Tree(child, below, Nil)))
    requires var key := m.nodes[child].key;
             if m.nodes[parent].tag == JSON_OBJECT then key != NULL && key in m.texts else key == NULL
    ensures Body(AppendMem(m, parent, child), parent, Snoc(kids, child, below))
  {
    ContainerChain(m, parent, kids);
    BodyDomain(m, child, below);
    var w := AppendMem(m, parent, child);
    BodyFrame(m, w, child, below);
    SnocForest(kids, child, below);
    SnocChain(m, w, parent, m.nodes[parent].tag == JSON_OBJECT, NULL, kids, child, below);
  }

  /** The first of the siblings gets another left neighbour. */
  lemma HeadChain(m: Mem, w: Mem, parent: Ptr, keyed: bool, prev: Ptr, prev': Ptr, f: Forest)
    requires Chain(m, parent, keyed, prev, f) && Distinct(f) && Nodes(f) <= w.nodes.Keys
    requires SameTexts(m, w, Texts(m, f)) && SameNodes(m, w, Nodes(f) - {First(f)})
    requires f.Tree? ==> Struct(w, f.at) == Struct(m, f.at).(prev := prev')
    ensures Chain(w, parent, keyed, prev', f)
  {
    if f.Tree? {
      ChainDomain(m, parent, keyed, prev, f);
      assert SameNodes(m, w, Nodes(f.kids)) && SameNodes(m, w, Nodes(f.rest));
      BodyFrame(m, w, f.at, f.kids);
      ChainFrame(m, w, parent, keyed, f.at, f.rest);
    }
  }

  lemma PrependTree(m: Mem, parent: Ptr, child: Ptr, kids: Forest, below: Forest)
    requires Body(m, parent, kids) && IsContainer(m.nodes[parent].tag) && Body(m, child, below)
    requires Distinct(Tree(parent, kids, Tree(child, below, Nil)))
    requires var key := m.nodes[child].key;
             if m.nodes[parent].tag == JSON_OBJECT then key != NULL && key in m.texts else key == NULL
    ensures Body(PrependMem(m, parent, child), parent, Tree(child, below, kids))
  {
    ContainerChain(m, parent, kids);
    BodyDomain(m, child, below);
    LastOf(kids, child);
    var w := PrependMem(m, parent, child);
    BodyFrame(m, w, child, below);
    HeadChain(m, w, parent, m.nodes[parent].tag == JSON_OBJECT, NULL, child, kids);
  }

  // Removing

  /** `json_remove_from_parent`. */
  function RemoveMem(m: Mem, n: Ptr): Mem {
    var d := Struct(m, n);
    if d.parent == NULL then
      m
    else
      var a := if d.prev != NULL then Set(m, d.prev, Struct(m, d.prev).(next := d.next))
               else Set(m, d.parent, Struct(m, d.parent).(head := d.next));
      var b := if d.next != NULL then Set(a, d.next, Struct(a, d.next).(prev := d.prev))
               else Set(a, d.parent, Struct(a, d.parent).(tail := d.prev));
      var c := b.(texts := b.texts - KeyText(d));
      Set(c, n, Struct(c, n).(parent := NULL, prev := NULL, next := NULL, key := NULL))
  }

  /** Unlinking leaves a node without a parent, and such a node is left alone, with everything else. */
  lemma RemoveTwice(m: Mem, n: Ptr)
    ensures Struct(m, n).parent == NULL ==> RemoveMem(m, n) == m
    ensures RemoveMem(RemoveMem(m, n), n) == RemoveMem(m, n)
  {
  }

  /** The links of one of the siblings lead to siblings. */
  lemma {:induction false} TopLinks(m: Mem, parent: Ptr, keyed: bool, prev: Ptr, f: Forest, n: Ptr)
    requires Chain(m, parent, keyed, prev, f) && Distinct(f) && Top(f, n)
    ensures n in Nodes(f) && n in m.nodes && n != NULL && m.nodes[n].parent == parent
    ensures m.nodes[n].prev == prev || m.nodes[n].prev in Nodes(f)
    ensures f.at == n ==> m.nodes[n].prev == prev && m.nodes[n].next == First(f.rest)
    ensures f.at != n ==> n in Nodes(f.rest)
    ensures f.at != n ==> (m.nodes[n].prev == f.at || m.nodes[n].prev in Nodes(f.rest))
    ensures f.at != n && First(f.rest) == n ==> m.nodes[n].prev == f.at
    ensures f.at != n && First(f.rest) != n ==> m.nodes[n].prev in Nodes(f.rest)
    ensures m.nodes[n].next == NULL || m.nodes[n].next in Nodes(f.rest)
    ensures KeyText(m.nodes[n]) <= m.texts.Keys
    ensures Body(m, n, Below(f, n))
    ensures Last(Without(f, n), prev) == if m.nodes[n].next == NULL then m.nodes[n].prev else Last(f, prev)
    decreases f
  {
    ChainDomain(m, parent, keyed, prev, f);
    if f.at != n {
      TopLinks(m, parent, keyed, f.at, f.rest, n);
    }
  }

  lemma {:induction false} RemoveChain(m: Mem, w: Mem, parent: Ptr, keyed: bool, prev: Ptr, f: Forest, n: Ptr)
    requires Chain(m, parent, keyed, prev, f) && Distinct(f) && Top(f, n) && prev !in Nodes(f)
    requires Nodes(f) <= w.nodes.Keys
    requires var d := Struct(m, n);
      && SameNodes(m, w, Nodes(f) - {n, d.prev, d.next})
      && (d.prev in Nodes(f) ==> Struct(w, d.prev) == Struct(m, d.prev).(next := d.next))
      && (d.next in Nodes(f) ==> Struct(w, d.next) == Struct(m, d.next).(prev := d.prev))
    requires SameTexts(m, w, Texts(m, Without(f, n)))
    ensures Chain(w, parent, keyed, prev, Without(f, n))
    decreases f
  {
    TopLinks(m, parent, keyed, prev, f, n);
    ChainDomain(m, parent, keyed, prev, f);
    var d := Struct(m, n);
    if f.at == n {
      RemoveFirst(m, w, parent, keyed, prev, f);
    } else {
      SameKids(m, w, f, {n, d.prev, d.next});
      RemoveChain(m, w, parent, keyed, f.at, f.rest, n);
      BodyFrame(m, w, f.at, f.kids);
    }
  }

  lemma SameKids(m: Mem, w: Mem, f: Forest, s: set<Ptr>)
    requires f.Tree? && Distinct(f) && NULL !in Nodes(f) && SameNodes(m, w, Nodes(f) - s)
    requires s <= {f.at, NULL} + Nodes(f.rest)
    ensures SameNodes(m, w, Nodes(f.kids))
  {
  }

  lemma RemoveFirst(m: Mem, w: Mem, parent: Ptr, keyed: bool, prev: Ptr, f: Forest)
    requires Chain(m, parent, keyed, prev, f) && f.Tree? && Distinct(f) && prev !in Nodes(f)
    requires Nodes(f) <= w.nodes.Keys && SameTexts(m, w, Texts(m, f.rest))
    requires SameNodes(m, w, Nodes(f.rest) - {First(f.rest)})
    requires f.rest.Tree? ==> Struct(w, f.rest.at) == Struct(m, f.rest.at).(prev := prev)
    ensures Chain(w, parent, keyed, prev, f.rest)
  {
    if f.rest.Tree? {
      HeadChain(m, w, parent, keyed, f.at, prev, f.rest);
    }
  }

  /** What the siblings own is what is left and what goes. */
  lemma {:induction false} WithoutTexts(m: Mem, f: Forest, n: Ptr)
    requires OwnedOnce(m, f) && Top(f, n)
    ensures Texts(m, f) == Texts(m, Without(f, n)) + KeyText(Struct(m, n)) + TreeTexts(m, n, Below(f, n))
    ensures Texts(m, Without(f, n)) !! KeyText(Struct(m, n)) !! OwnText(Struct(m, n)) !! Texts(m, Below(f, n))
    ensures OwnedOnce(m, Without(f, n)) && OwnedOnce(m, Below(f, n))
  {
    if f.at != n {
      WithoutTexts(m, f.rest, n);
    }
  }

  ghost predicate Detached(m: Mem, n: Ptr) {
    var d := Struct(m, n);
    d.parent == NULL && d.prev == NULL && d.next == NULL && d.key == NULL
  }

  /** Only the children of the node have changed, not where it is linked to. */
  ghost predicate SameLinks(n: Node, o: Node) {
    o.parent == n.parent && o.prev == n.prev && o.next == n.next && o.key == n.key
  }

  /** The neighbours of a sibling are two different nodes and not below it. */
  lemma {:induction false} LinkedApart(m: Mem, parent: Ptr, keyed: bool, prev: Ptr, f: Forest, n: Ptr)
    requires Chain(m, parent, keyed, prev, f) && Distinct(f) && Top(f, n) && prev !in Nodes(f)
    ensures n in m.nodes
    ensures var d := m.nodes[n];
      && d.prev != n && d.next != n && (d.prev == d.next ==> d.prev == NULL)
      && d.prev !in Nodes(Below(f, n)) && d.next !in Nodes(Below(f, n))
      && First(Without(f, n)) == (if f.at == n then d.next else f.at)
      && (d.prev == prev <==> f.at == n)
    decreases f
  {
    TopLinks(m, parent, keyed, prev, f, n);
    ChainDomain(m, parent, keyed, prev, f);
    WithoutForest(f, n);
    if f.at != n {
      TopLinks(m, parent, keyed, f.at, f.rest, n);
      LinkedApart(m, parent, keyed, f.at, f.rest, n);
    }
  }

  /** The unlinking, struct by struct. */
  ghost predicate Unlinked(m: Mem, w: Mem, n: Ptr) {
    var d, p := Struct(m, n), Struct(m, Struct(m, n).parent);
    && w.nodes.Keys == m.nodes.Keys && w.texts == m.texts - KeyText(d)
    && SameNodes(m, w, m.nodes.Keys - ({n, d.parent, d.prev, d.next} - {NULL}))
    && (d.prev != NULL ==> Struct(w, d.prev) == Struct(m, d.prev).(next := d.next))
    && (d.next != NULL ==> Struct(w, d.next) == Struct(m, d.next).(prev := d.prev))
    && Struct(w, n) == d.(parent := NULL, prev := NULL, next := NULL, key := NULL)
    && Struct(w, d.parent) == p.(head := if d.prev == NULL then d.next else p.head,
                                 tail := if d.next == NULL then d.prev else p.tail)
  }

  lemma RemoveMemAt(m: Mem, n: Ptr)
    requires var d := Struct(m, n);
      && {n, d.parent} <= m.nodes.Keys && {d.prev, d.next} - {NULL} <= m.nodes.Keys
      && NULL != d.parent && n != NULL && d.parent !in {n, d.prev, d.next}
      && d.prev != n && d.next != n && (d.prev == d.next ==> d.prev == NULL)
    ensures Unlinked(m, RemoveMem(m, n), n)
  {
  }

  /** What is known about one of the children of a container. */
  lemma ChildFacts(m: Mem, parent: Ptr, n: Ptr, kids: Forest)
    requires Body(m, parent, kids) && IsContainer(m.nodes[parent].tag)
    requires Distinct(Tree(parent, kids, Nil)) && Top(kids, n)
    ensures Nodes(kids) <= m.nodes.Keys && NULL !in Nodes(kids) && n in Nodes(kids) && parent != NULL
    ensures Chain(m, parent, m.nodes[parent].tag == JSON_OBJECT, NULL, kids)
    ensures var d := Struct(m, n);
      && d.parent == parent && d.prev != n && d.next != n && (d.prev == d.next ==> d.prev == NULL)
      && d.prev in Nodes(kids) + {NULL} && d.next in Nodes(kids) + {NULL}
      && d.prev !in Nodes(Below(kids, n)) && d.next !in Nodes(Below(kids, n))
      && First(Without(kids, n)) == (if d.prev == NULL then d.next else Struct(m, parent).head)
      && Last(Without(kids, n), NULL) == (if d.next == NULL then d.prev else Struct(m, parent).tail)
    ensures Body(m, n, Below(kids, n)) && Nodes(Below(kids, n)) <= Nodes(kids) - {n}
  {
    var keyed := m.nodes[parent].tag == JSON_OBJECT;
    ContainerChain(m, parent, kids);
    ChainDomain(m, parent, keyed, NULL, kids);
    TopLinks(m, parent, keyed, NULL, kids, n);
    LinkedApart(m, parent, keyed, NULL, kids, n);
    WithoutForest(kids, n);
  }

  lemma UnlinkedParent(m: Mem, w: Mem, parent: Ptr, n: Ptr, kids: Forest)
    requires Body(m, parent, kids) && IsContainer(m.nodes[parent].tag)
    requires Distinct(Tree(parent, kids, Nil)) && Top(kids, n) && OwnedOnce(m, kids)
    requires Unlinked(m, w, n)
    ensures Body(w, parent, Without(kids, n))
  {
    ChildFacts(m, parent, n, kids);
    WithoutTexts(m, kids, n);
    RemoveChain(m, w, parent, m.nodes[parent].tag == JSON_OBJECT, NULL, kids, n);
  }

  lemma UnlinkedChild(m: Mem, w: Mem, parent: Ptr, n: Ptr, kids: Forest)
    requires Body(m, parent, kids) && IsContainer(m.nodes[parent].tag)
    requires Distinct(Tree(parent, kids, Nil)) && Top(kids, n) && OwnedOnce(m, kids)
    requires Unlinked(m, w, n)
    ensures Body(w, n, Below(kids, n))
  {
    ChildFacts(m, parent, n, kids);
    WithoutTexts(m, kids, n);
    BodyFrame(m, w, n, Below(kids, n));
  }

  /** Removing one of the children of `parent`: the others stay its children in the same order, and
      the removed one stands alone with everything below it. */
  lemma RemoveTree(m: Mem, parent: Ptr, n: Ptr, kids: Forest)
    requires Body(m, parent, kids) && IsContainer(m.nodes[parent].tag)
    requires Distinct(Tree(parent, kids, Nil)) && Top(kids, n) && OwnedOnce(m, kids)
    ensures Unlinked(m, RemoveMem(m, n), n) && Struct(m, n).parent == parent
    ensures Body(RemoveMem(m, n), parent, Without(kids, n))
    ensures Body(RemoveMem(m, n), n, Below(kids, n))
  {
    ChildFacts(m, parent, n, kids);
    RemoveMemAt(m, n);
    UnlinkedParent(m, RemoveMem(m, n), parent, n, kids);
    UnlinkedChild(m, RemoveMem(m, n), parent, n, kids);
  }

  // Values and ownership

  lemma {:induction false} SnocData(m: Mem, f: Forest, c: Ptr, below: Forest)
    ensures Texts(m, Snoc(f, c, below)) == Texts(m, f) + Texts(m, Tree(c, below, Nil))
    ensures OwnedOnce(m, f) && OwnedOnce(m, Tree(c, below, Nil)) && Texts(m, f) !! Texts(m, Tree(c, below, Nil))
        ==> OwnedOnce(m, Snoc(f, c, below))
    ensures ValuesOf(m, Snoc(f, c, below)) == ValuesOf(m, f) + [ValueOf(m, c, below)]
    ensures MembersOf(m, Snoc(f, c, below)) == MembersOf(m, f) + [MemberOf(m, c, below)]
  {
    if f.Tree? {
      SnocData(m, f.rest, c, below);
    }
  }

  lemma AppendSameData(m: Mem, parent: Ptr, child: Ptr, p: Ptr)
    requires parent in m.nodes && child in m.nodes
    requires Struct(m, parent).tail != NULL ==> Struct(m, parent).tail in m.nodes
    ensures SameData(Struct(m, p), Struct(AppendMem(m, parent, child), p))
  {
  }

  /** The value of a container after appending. */
  function Appended(v: Json, e: Member): Json {
    match v
    case Arr(elems) => Arr(elems + [e.value])
    case Obj(members) => Obj(members + [e])
    case _ => v
  }

  lemma SnocOwned(m: Mem, child: Ptr, kids: Forest, below: Forest)
    requires OwnedOnce(m, kids) && OwnedOnce(m, below) && OwnText(Struct(m, child)) !! Texts(m, below)
    requires KeyText(Struct(m, child)) !! TreeTexts(m, child, below)
    requires Texts(m, kids) !! KeyText(Struct(m, child)) + TreeTexts(m, child, below)
    ensures OwnedOnce(m, Snoc(kids, child, below))
    ensures Texts(m, Snoc(kids, child, below)) == Texts(m, kids) + KeyText(Struct(m, child)) + TreeTexts(m, child, below)
  {
    SnocData(m, kids, child, below);
    var one := Tree(child, below, Nil);
    assert Texts(m, one) == KeyText(Struct(m, child)) + TreeTexts(m, child, below);
    assert OwnedOnce(m, one);
  }

  lemma SnocValue(m: Mem, parent: Ptr, child: Ptr, kids: Forest, below: Forest)
    requires IsContainer(Struct(m, parent).tag)
    ensures ValueOf(m, parent, Snoc(kids, child, below)) == Appended(ValueOf(m, parent, kids), MemberOf(m, child, below))
  {
    SnocData(m, kids, child, below);
  }

  lemma AppendData(m: Mem, parent: Ptr, child: Ptr, kids: Forest, all: Forest)
    requires Body(m, parent, kids) && IsContainer(Struct(m, parent).tag) && child in m.nodes
    ensures var w := AppendMem(m, parent, child);
      && Texts(w, all) == Texts(m, all) && OwnedOnce(w, all) == OwnedOnce(m, all)
      && ValueOf(w, parent, all) == ValueOf(m, parent, all)
  {
    var w := AppendMem(m, parent, child);
    ContainerChain(m, parent, kids);
    forall p ensures SameData(Struct(m, p), Struct(w, p)) {
      AppendSameData(m, parent, child, p);
    }
    SameDataValues(m, w, all);
    ValueFrame(m, w, parent, all);
  }

  /** Appending a tree to a container that shares nothing with it. */
  lemma AppendProper(m: Mem, parent: Ptr, child: Ptr, kids: Forest, below: Forest)
    requires Proper(m, parent, kids) && IsContainer(m.nodes[parent].tag) && Proper(m, child, below)
    requires Nodes(Tree(parent, kids, Nil)) !! Nodes(Tree(child, below, Nil))
    requires KeyText(Struct(m, child)) !! TreeTexts(m, child, below)
    requires Texts(m, kids) !! KeyText(Struct(m, child)) + TreeTexts(m, child, below)
    requires var key := m.nodes[child].key;
             if m.nodes[parent].tag == JSON_OBJECT then key != NULL && key in m.texts else key == NULL
    ensures Proper(AppendMem(m, parent, child), parent, Snoc(kids, child, below))
    ensures Texts(AppendMem(m, parent, child), Snoc(kids, child, below))
         == Texts(m, kids) + KeyText(Struct(m, child)) + TreeTexts(m, child, below)
    ensures Nodes(Snoc(kids, child, below)) == Nodes(kids) + {child} + Nodes(below)
    ensures ValueOf(AppendMem(m, parent, child), parent, Snoc(kids, child, below))
         == Appended(ValueOf(m, parent, kids), MemberOf(m, child, below))
  {
    AppendTree(m, parent, child, kids, below);
    SnocForest(kids, child, below);
    AppendData(m, parent, child, kids, Snoc(kids, child, below));
    SnocOwned(m, child, kids, below);
    SnocValue(m, parent, child, kids, below);
  }

  lemma PrependSameData(m: Mem, parent: Ptr, child: Ptr, p: Ptr)
    requires parent in m.nodes && child in m.nodes
    requires Struct(m, parent).head != NULL ==> Struct(m, parent).head in m.nodes
    ensures SameData(Struct(m, p), Struct(PrependMem(m, parent, child), p))
  {
  }

  /** Prepending a tree: the new one is then the first of the children, and the others keep their
      order, their strings and their values. */
  lemma PrependData(m: Mem, parent: Ptr, child: Ptr, kids: Forest, below: Forest)
    requires Body(m, parent, kids) && IsContainer(m.nodes[parent].tag) && child in m.nodes
    ensures var w, all := PrependMem(m, parent, child), Tree(child, below, kids);
      && Texts(w, all) == Texts(m, all) && OwnedOnce(w, all) == OwnedOnce(m, all)
      && ValuesOf(w, all) == [ValueOf(m, child, below)] + ValuesOf(m, kids)
      && MembersOf(w, all) == [MemberOf(m, child, below)] + MembersOf(m, kids)
  {
    var w, all := PrependMem(m, parent, child), Tree(child, below, kids);
    ContainerChain(m, parent, kids);
    forall p ensures SameData(Struct(m, p), Struct(w, p)) {
      PrependSameData(m, parent, child, p);
    }
    SameDataValues(m, w, all);
  }

  /** The value of a container after prepending. */
  function Prepended(v: Json, e: Member): Json {
    match v
    case Arr(elems) => Arr([e.value] + elems)
    case Obj(members) => Obj([e] + members)
    case _ => v
  }

  /** Prepending a tree to a container that shares nothing with it. */
  lemma PrependProper(m: Mem, parent: Ptr, child: Ptr, kids: Forest, below: Forest)
    requires Proper(m, parent, kids) && IsContainer(m.nodes[parent].tag) && Proper(m, child, below)
    requires Nodes(Tree(parent, kids, Nil)) !! Nodes(Tree(child, below, Nil))
    requires KeyText(Struct(m, child)) !! TreeTexts(m, child, below)
    requires Texts(m, kids) !! KeyText(Struct(m, child)) + TreeTexts(m, child, below)
    requires var key := m.nodes[child].key;
             if m.nodes[parent].tag == JSON_OBJECT then key != NULL && key in m.texts else key == NULL
    ensures var w, all := PrependMem(m, parent, child), Tree(child, below, kids);
      && Proper(w, parent, all) == true
      && Texts(w, all) == Texts(m, kids) + KeyText(Struct(m, child)) + TreeTexts(m, child, below)
      && ValueOf(w, parent, all) == Prepended(ValueOf(m, parent, kids), MemberOf(m, child, below))
  {
    var w, all := PrependMem(m, parent, child), Tree(child, below, kids);
    PrependTree(m, parent, child, kids, below);
    PrependData(m, parent, child, kids, below);
    PrependSame(m, parent, child, kids);
    PrependOwned(m, child, kids, below);
    ContainerProper(w, parent, all);
    PrependedValue(m, w, parent, child, kids, below);
  }

  /** Here and elsewhere, `== true` behind a predicate in a contract keeps the verifier from splitting the
      predicate into its parts, each of which would be proved by itself. */
  lemma ContainerProper(w: Mem, p: Ptr, kids: Forest)
    requires Body(w, p, kids) && IsContainer(w.nodes[p].tag) && Distinct(Tree(p, kids, Nil)) && OwnedOnce(w, kids)
    ensures Proper(w, p, kids) == true
  {
    assert OwnText(Struct(w, p)) == {};
    assert Proper(w, p, kids);
  }

  lemma PrependedValue(m: Mem, w: Mem, parent: Ptr, child: Ptr, kids: Forest, below: Forest)
    requires IsContainer(Struct(m, parent).tag) && Struct(w, parent).tag == Struct(m, parent).tag
    requires ValuesOf(w, Tree(child, below, kids)) == [ValueOf(m, child, below)] + ValuesOf(m, kids)
    requires MembersOf(w, Tree(child, below, kids)) == [MemberOf(m, child, below)] + MembersOf(m, kids)
    ensures ValueOf(w, parent, Tree(child, below, kids))
         == Prepended(ValueOf(m, parent, kids), MemberOf(m, child, below))
  {
  }

  lemma PrependSame(m: Mem, parent: Ptr, child: Ptr, kids: Forest)
    requires Body(m, parent, kids) && IsContainer(m.nodes[parent].tag) && child in m.nodes
    ensures SameData(Struct(m, parent), Struct(PrependMem(m, parent, child), parent))
  {
    ContainerChain(m, parent, kids);
  }

  lemma PrependOwned(m: Mem, child: Ptr, kids: Forest, below: Forest)
    requires OwnedOnce(m, kids) && OwnedOnce(m, below) && OwnText(Struct(m, child)) !! Texts(m, below)
    requires KeyText(Struct(m, child)) !! TreeTexts(m, child, below)
    requires Texts(m, kids) !! KeyText(Struct(m, child)) + TreeTexts(m, child, below)
    ensures OwnedOnce(m, Tree(child, below, kids))
    ensures Texts(m, Tree(child, below, kids))
         == Texts(m, kids) + KeyText(Struct(m, child)) + TreeTexts(m, child, below)
  {
  }

  lemma SameDataValues(m: Mem, w: Mem, f: Forest)
    requires w.texts == m.texts && forall p :: SameData(Struct(m, p), Struct(w, p))
    ensures Texts(w, f) == Texts(m, f) && OwnedOnce(w, f) == OwnedOnce(m, f)
    ensures ValuesOf(w, f) == ValuesOf(m, f) && MembersOf(w, f) == MembersOf(m, f)
  {
    TextsFrame(m, w, f);
    ValuesFrame(m, w, f);
  }

  /** Which nodes an appending writes to. */
  lemma AppendWrites(m: Mem, parent: Ptr, child: Ptr, kids: Forest)
    requires Body(m, parent, kids) && IsContainer(Struct(m, parent).tag) && parent !in Nodes(kids)
    requires child in m.nodes && child != parent && child !in Nodes(kids)
    ensures var w := AppendMem(m, parent, child);
      && w.nodes.Keys == m.nodes.Keys && w.texts == m.texts
      && SameNodes(m, w, m.nodes.Keys - ({parent, child} + Nodes(kids)))
      && SameLinks(Struct(m, parent), Struct(w, parent)) && Struct(w, parent).tag == Struct(m, parent).tag
  {
    ContainerChain(m, parent, kids);
  }

  /** Which nodes a prepending writes to. */
  lemma PrependWrites(m: Mem, parent: Ptr, child: Ptr, kids: Forest)
    requires Body(m, parent, kids) && IsContainer(Struct(m, parent).tag) && parent !in Nodes(kids)
    requires child in m.nodes && child != parent && child !in Nodes(kids)
    ensures var w := PrependMem(m, parent, child);
      && w.nodes.Keys == m.nodes.Keys && w.texts == m.texts
      && SameNodes(m, w, m.nodes.Keys - ({parent, child} + Nodes(kids)))
      && SameLinks(Struct(m, parent), Struct(w, parent)) && Struct(w, parent).tag == Struct(m, parent).tag
  {
    ContainerChain(m, parent, kids);
  }

  /** The node is linked to nothing, whether it has a key already or not. */
  ghost predicate Loose(m: Mem, n: Ptr) {
    var d := Struct(m, n);
    d.parent == NULL && d.prev == NULL && d.next == NULL
  }

  /** The memory without the key of `n`. */
  function Keyless(m: Mem, n: Ptr): Mem {
    Mem(m.nodes[n := Struct(m, n).(key := NULL)], m.texts - KeyText(Struct(m, n)))
  }

  /** Unlinking the node that has just been linked in restores the memory but for its key. */
  lemma AppendThenUnlink(m: Mem, parent: Ptr, child: Ptr, kids: Forest)
    requires Body(m, parent, kids) && IsContainer(m.nodes[parent].tag)
    requires child in m.nodes && child != NULL && child != parent && child !in Nodes(kids) && Loose(m, child)
    requires parent !in Nodes(kids)
    ensures RemoveMem(AppendMem(m, parent, child), child) == Keyless(m, child)
  {
    ContainerChain(m, parent, kids);
    LastNext(m, parent, m.nodes[parent].tag == JSON_OBJECT, NULL, kids);
    var w, v := RemoveMem(AppendMem(m, parent, child), child), Keyless(m, child);
    forall p | p in m.nodes
      ensures p in w.nodes && w.nodes[p] == v.nodes[p]
    {
    }
    assert w.nodes == v.nodes;
  }

  lemma PrependThenUnlink(m: Mem, parent: Ptr, child: Ptr, kids: Forest)
    requires Body(m, parent, kids) && IsContainer(m.nodes[parent].tag)
    requires child in m.nodes && child != NULL && child != parent && child !in Nodes(kids) && Loose(m, child)
    requires parent !in Nodes(kids)
    ensures RemoveMem(PrependMem(m, parent, child), child) == Keyless(m, child)
  {
    ContainerChain(m, parent, kids);
    var w, v := RemoveMem(PrependMem(m, parent, child), child), Keyless(m, child);
    forall p | p in m.nodes
      ensures p in w.nodes && w.nodes[p] == v.nodes[p]
    {
    }
    assert w.nodes == v.nodes;
  }

  /** So that the memory itself is restored: for an element, which has no key, */
  lemma ElementThenRemove(m: Mem, parent: Ptr, child: Ptr, kids: Forest)
    requires Body(m, parent, kids) && m.nodes[parent].tag == JSON_ARRAY
    requires child in m.nodes && child != NULL && child != parent && child !in Nodes(kids) && Detached(m, child)
    requires parent !in Nodes(kids)
    ensures RemoveMem(AppendMem(m, parent, child), child) == m
    ensures RemoveMem(PrependMem(m, parent, child), child) == m
  {
    AppendThenUnlink(m, parent, child, kids);
    PrependThenUnlink(m, parent, child, kids);
    assert m.nodes[child := m.nodes[child]] == m.nodes && m.texts - {} == m.texts;
  }

  /** and for a member, whose key is made for the linking and freed by the unlinking. */
  lemma MemberThenRemove(m: Mem, parent: Ptr, child: Ptr, kids: Forest, key: Ptr, text: bytes)
    requires Body(m, parent, kids) && m.nodes[parent].tag == JSON_OBJECT
    requires child in m.nodes && child != NULL && child != parent && child !in Nodes(kids) && Detached(m, child)
    requires parent !in Nodes(kids) && key != NULL && key !in m.texts
    ensures var named := WithNewKey(m, child, key, text);
      && RemoveMem(AppendMem(named, parent, child), child) == m
      && RemoveMem(PrependMem(named, parent, child), child) == m
  {
    var named := WithNewKey(m, child, key, text);
    NewKeyBody(m, parent, child, kids, key, text);
    AppendThenUnlink(named, parent, child, kids);
    PrependThenUnlink(named, parent, child, kids);
    assert Keyless(named, child).nodes == m.nodes;
    assert m.texts[key := text] - {key} == m.texts;
  }

  /** The child with a new key. */
  function WithNewKey(m: Mem, child: Ptr, key: Ptr, text: bytes): Mem {
    Set(m.(texts := m.texts[key := text]), child, Struct(m, child).(key := key))
  }

  lemma NewKeyBody(m: Mem, parent: Ptr, child: Ptr, kids: Forest, key: Ptr, text: bytes)
    requires Body(m, parent, kids) && child in m.nodes && child != parent && child !in Nodes(kids) && key !in m.texts
    ensures Body(WithNewKey(m, child, key, text), parent, kids)
  {
    BodyDomain(m, parent, kids);
    BodyFrame(m, WithNewKey(m, child, key, text), parent, kids);
  }

  lemma {:induction false} LastNext(m: Mem, parent: Ptr, keyed: bool, prev: Ptr, f: Forest)
    requires Chain(m, parent, keyed, prev, f)
    ensures f.Tree? ==> Struct(m, Last(f, NULL)).next == NULL
    decreases f
  {
    if f.Tree? && f.rest.Tree? {
      LastNext(m, parent, keyed, f.at, f.rest);
      LastOf(f.rest, f.at);
    }
  }
}
