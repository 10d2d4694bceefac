/** What a tree of nodes is, struct by struct, and which value it stands for. */
module JsonNodes {
  import opened Bytes
  import opened Memory
  import opened JsonGrammar
  import opened JsonTree
  import opened JsonLinks

  /** A child in its place: its parent is a container, it is the first or the last child exactly if it
      has no left or right neighbour, its neighbours lead back to it, and it has a key exactly if the
      parent is an object. */
  ghost predicate InPlace(m: Mem, q: Ptr) {
    && q in m.nodes && m.nodes[q].tag <= 5 && m.nodes[q].parent in m.nodes
    && var n, r := m.nodes[q], m.nodes[m.nodes[q].parent];
    && (r.tag == 4 || r.tag == 5)
    && (n.prev == NULL <==> r.head == q) && (n.next == NULL <==> r.tail == q)
    && (n.next != NULL ==> n.next in m.nodes && m.nodes[n.next].prev == q && m.nodes[n.next].parent == n.parent)
    && (n.prev != NULL ==> n.prev in m.nodes && m.nodes[n.prev].next == q && m.nodes[n.prev].parent == n.parent)
    && (if r.tag == 5 then n.key != NULL && n.key in m.texts else n.key == NULL)
    && (n.tag == 2 ==> n.string_ != NULL && n.string_ in m.texts)
  }

  /** The siblings `f`, from the one behind `prev` on. */
  lemma {:induction false} ChainInPlace(m: Mem, p: Ptr, prev: Ptr, f: Forest)
    requires p in m.nodes && IsContainer(m.nodes[p].tag) && Chain(m, p, m.nodes[p].tag == JSON_OBJECT, prev, f) && Distinct(f)
    requires NULL !in Nodes(f) && prev !in Nodes(f) && m.nodes[p].tail == Last(f, prev)
    requires if prev == NULL then m.nodes[p].head == First(f)
             else m.nodes[p].head !in Nodes(f) && prev in m.nodes && m.nodes[prev].next == First(f) && m.nodes[prev].parent == p
    ensures forall q <- Nodes(f) :: InPlace(m, q)
    decreases f, 0
  {
    if f.Tree? {
      LastOf(f.rest, f.at);
      BodyInPlace(m, f.at, f.kids);
      ChainInPlace(m, p, f.at, f.rest);
      assert InPlace(m, f.at);
    }
  }

  lemma {:induction false} BodyInPlace(m: Mem, p: Ptr, kids: Forest)
    requires Body(m, p, kids) && Distinct(kids)
    ensures forall q <- Nodes(kids) :: InPlace(m, q)
    decreases kids, 1
  {
    if IsContainer(m.nodes[p].tag) {
      BodyDomain(m, p, kids);
      ChainInPlace(m, p, NULL, kids);
    }
  }

  /** Everything below the root of a tree is in its place. */
  lemma TreeInPlace(m: Mem, p: Ptr, kids: Forest)
    requires Proper(m, p, kids)
    ensures forall q <- Nodes(kids) :: InPlace(m, q)
  {
    BodyInPlace(m, p, kids);
  }

  // Values

  /** The sibling that is `k` steps to the right. */
  function Sibling(m: Mem, first: Ptr, k: nat): Ptr
    decreases k
  {
    if k == 0 then first else Sibling(m, Struct(m, first).next, k - 1)
  }

  /** The values of siblings are in the order of the links, and there is one for each. */
  lemma {:induction false} ValuesInOrder(m: Mem, p: Ptr, keyed: bool, prev: Ptr, f: Forest, k: nat) returns (below: Forest)
    requires Chain(m, p, keyed, prev, f) && k < |ValuesOf(m, f)|
    ensures |MembersOf(m, f)| == |ValuesOf(m, f)|
    ensures var q := Sibling(m, First(f), k);
      && Body(m, q, below) && ValuesOf(m, f)[k] == ValueOf(m, q, below)
      && (keyed ==> m.nodes[q].key != NULL && m.nodes[q].key in m.texts)
      && MembersOf(m, f)[k] == Member(TextAt(m, m.nodes[q].key), ValueOf(m, q, below))
    decreases f
  {
    LengthOfBoth(m, f);
    if k == 0 {
      below := f.kids;
    } else {
      below := ValuesInOrder(m, p, keyed, f.at, f.rest, k - 1);
    }
  }

  lemma {:induction false} LengthOfBoth(m: Mem, f: Forest)
    ensures |MembersOf(m, f)| == |ValuesOf(m, f)|
  {
    if f.Tree? {
      LengthOfBoth(m, f.rest);
    }
  }

  lemma {:induction false} NoneBehind(m: Mem, p: Ptr, keyed: bool, prev: Ptr, f: Forest)
    requires Chain(m, p, keyed, prev, f)
    ensures Sibling(m, First(f), |ValuesOf(m, f)|) == NULL
    decreases f
  {
    if f.Tree? {
      NoneBehind(m, p, keyed, f.at, f.rest);
    }
  }

  ghost predicate Holds(m: Mem, q: Ptr, v: Json) {
    exists below :: Body(m, q, below) && ValueOf(m, q, below) == v
  }

  /** The value of a node by its tag, numbered as in the enumeration of the header file: a scalar, */
  lemma ScalarMeans(m: Mem, p: Ptr, kids: Forest)
    requires Body(m, p, kids)
    ensures var n, v := m.nodes[p], ValueOf(m, p, kids);
      && n.tag <= 5 && (v.Arr? <==> n.tag == 4) && (v.Obj? <==> n.tag == 5)
      && (n.tag == 0 ==> v == Null) && (n.tag == 1 ==> v == Bool(n.bool_))
      && (n.tag == 2 ==> n.string_ in m.texts && v == Str(m.texts[n.string_])) && (n.tag == 3 ==> v == Num(n.number_))
  {
  }

  /** an array with the values of its children from the head on, */
  lemma ArrayMeans(m: Mem, p: Ptr, kids: Forest)
    requires Body(m, p, kids) && m.nodes[p].tag == 4
    ensures var head, es := m.nodes[p].head, ValueOf(m, p, kids).elems;
      && Sibling(m, head, |es|) == NULL
      && forall k | 0 <= k < |es| :: Sibling(m, head, k) != NULL && Holds(m, Sibling(m, head, k), es[k])
  {
    var head := m.nodes[p].head;
    NoneBehind(m, p, false, NULL, kids);
    forall k | 0 <= k < |ValuesOf(m, kids)|
      ensures Sibling(m, head, k) != NULL && Holds(m, Sibling(m, head, k), ValuesOf(m, kids)[k])
    {
      var below := ValuesInOrder(m, p, false, NULL, kids, k);
    }
  }

  /** or an object with their keys as well. */
  lemma ObjectMeans(m: Mem, p: Ptr, kids: Forest)
    requires Body(m, p, kids) && m.nodes[p].tag == 5
    ensures var head, ms := m.nodes[p].head, ValueOf(m, p, kids).members;
      && Sibling(m, head, |ms|) == NULL
      && forall k | 0 <= k < |ms| ::
           var q := Sibling(m, head, k);
           q in m.nodes && m.nodes[q].key in m.texts && ms[k].key == m.texts[m.nodes[q].key] && Holds(m, q, ms[k].value)
  {
    var head := m.nodes[p].head;
    LengthOfBoth(m, kids);
    NoneBehind(m, p, true, NULL, kids);
    forall k | 0 <= k < |MembersOf(m, kids)|
      ensures var q := Sibling(m, head, k);
        && q in m.nodes && m.nodes[q].key in m.texts && MembersOf(m, kids)[k].key == m.texts[m.nodes[q].key]
        && Holds(m, q, MembersOf(m, kids)[k].value)
    {
      var below := ValuesInOrder(m, p, true, NULL, kids, k);
    }
  }
}
