/** Memory that has grown by exactly one tree, which is what the parser makes of it. */
module JsonBuild {
  import opened Bytes
  import opened Memory
  import opened JsonGrammar
  import opened JsonTree
  import opened JsonLinks
  import JsonDelete

  /** `m` without the node `p`, what is below it, and all their strings. */
  function Minus(m: Mem, p: Ptr, below: Forest): Mem {
    Mem(m.nodes - ({p} + Nodes(below)), m.texts - TreeTexts(m, p, below))
  }

  /** `w` is `m` and one tree that stands alone. */
  ghost predicate Grown(m: Mem, w: Mem, p: Ptr, below: Forest) {
    Proper(w, p, below) && Detached(w, p) && Minus(w, p, below) == m
  }

  /** What was there before is still there, and shares nothing with what is new. */
  lemma GrownKeeps(m: Mem, w: Mem, p: Ptr, below: Forest)
    requires Grown(m, w, p, below)
    ensures SameNodes(m, w, m.nodes.Keys) && SameTexts(m, w, m.texts.Keys)
    ensures {p} + Nodes(below) !! m.nodes.Keys && TreeTexts(w, p, below) !! m.texts.Keys
    ensures w.nodes.Keys == m.nodes.Keys + {p} + Nodes(below)
    ensures w.texts.Keys == m.texts.Keys + TreeTexts(w, p, below)
  {
    assert m.nodes == w.nodes - ({p} + Nodes(below));
    assert m.texts == w.texts - TreeTexts(w, p, below);
    BodyDomain(w, p, below);
  }

  /** A new node without children. */
  lemma GrownLeaf(m: Mem, w: Mem, p: Ptr, n: Node)
    requires p != NULL && p !in m.nodes && w.nodes == m.nodes[p := n] && n.tag <= JSON_OBJECT
    requires n.parent == NULL && n.prev == NULL && n.next == NULL && n.key == NULL && n.head == NULL && n.tail == NULL
    requires if n.tag == JSON_STRING then
               n.string_ != NULL && n.string_ !in m.texts && n.string_ in w.texts && w.texts - {n.string_} == m.texts
             else w.texts == m.texts
    ensures Grown(m, w, p, Nil)
  {
    assert {p} + Nodes(Nil) == {p};
    assert w.nodes - {p} == m.nodes;
    assert TreeTexts(w, p, Nil) == OwnText(n) && w.texts - {} == w.texts;
    assert w.texts - OwnText(n) == m.texts;
    assert Struct(w, p) == n && Body(w, p, Nil);
    assert Proper(w, p, Nil) && Detached(w, p);
    assert Minus(w, p, Nil) == m;
  }

  /** Trees that were there stay trees. */
  lemma OlderTree(m: Mem, w: Mem, p: Ptr, below: Forest, q: Ptr, kids: Forest)
    requires Grown(m, w, p, below) && Proper(m, q, kids)
    ensures Proper(w, q, kids) && Texts(w, kids) == Texts(m, kids) && Struct(w, q) == Struct(m, q)
    ensures ValueOf(w, q, kids) == ValueOf(m, q, kids)
    ensures {p} + Nodes(below) !! {q} + Nodes(kids)
    ensures TreeTexts(w, p, below) !! TreeTexts(w, q, kids)
  {
    GrownKeeps(m, w, p, below);
    BodyDomain(m, q, kids);
    ProperFrame(m, w, q, kids);
  }

  /** The memory in which `key` has been given a string, if it is not the null pointer. */
  function WithKey(m: Mem, key: Ptr, text: bytes): Mem {
    if key == NULL then m else m.(texts := m.texts[key := text])
  }

  /** The new tree gets its key. */
  lemma Keyed(m: Mem, p: Ptr, below: Forest, key: Ptr)
    requires Proper(m, p, below)
    ensures var w := Set(m, p, Struct(m, p).(key := key));
      && Proper(w, p, below) && TreeTexts(w, p, below) == TreeTexts(m, p, below)
      && ValueOf(w, p, below) == ValueOf(m, p, below)
  {
    var w := Set(m, p, Struct(m, p).(key := key));
    assert SameNodes(m, w, Nodes(below));
    ProperFrame(m, w, p, below);
  }

  /** A string that was not there before changes no tree. */
  lemma KeyIsApart(m: Mem, w: Mem, p: Ptr, below: Forest, key: Ptr, text: bytes)
    requires Grown(m, w, p, below) && (key != NULL ==> key !in w.texts)
    ensures var v := WithKey(w, key, text);
      && Proper(v, p, below) && Detached(v, p) && Struct(v, p) == Struct(w, p)
      && Texts(v, below) == Texts(w, below) && ValueOf(v, p, below) == ValueOf(w, p, below)
  {
    ProperFrame(w, WithKey(w, key, text), p, below);
  }

  /** Before the parser links an element into the container that it is filling: both are trees of
      their own, the element has its key, and neither shares anything with the other. */
  lemma ReadyToAppend(m1: Mem, ret: Ptr, kids: Forest, m2: Mem, elem: Ptr, below: Forest, key: Ptr)
    requires Proper(m1, ret, kids) && IsContainer(Struct(m1, ret).tag) && Grown(m1, m2, elem, below)
    requires key != NULL ==> key in m1.texts && key !in Texts(m1, kids)
    ensures var m3 := Set(m2, elem, Struct(m2, elem).(key := key));
      && Proper(m3, ret, kids) && Struct(m3, ret) == Struct(m1, ret) && Proper(m3, elem, below)
      && Nodes(Tree(ret, kids, Nil)) !! Nodes(Tree(elem, below, Nil))
      && KeyText(Struct(m3, elem)) !! TreeTexts(m3, elem, below)
      && Texts(m3, kids) == Texts(m1, kids) && TreeTexts(m3, elem, below) == TreeTexts(m2, elem, below)
      && Texts(m3, kids) !! KeyText(Struct(m3, elem)) + TreeTexts(m3, elem, below)
      && ValueOf(m3, ret, kids) == ValueOf(m1, ret, kids) && ValueOf(m3, elem, below) == ValueOf(m2, elem, below)
  {
    var m3 := Set(m2, elem, Struct(m2, elem).(key := key));
    OlderTree(m1, m2, elem, below, ret, kids);
    GrownKeeps(m1, m2, elem, below);
    Keyed(m2, elem, below, key);
    ProperFrame(m2, m3, ret, kids);
  }

  lemma WithoutBoth<T>(m0: map<Ptr, T>, m1: map<Ptr, T>, a: set<Ptr>, k: set<Ptr>, m2: map<Ptr, T>, b: set<Ptr>, m4: map<Ptr, T>)
    requires m0 == m1 - a && m1 == m2 - b - k
    requires m4.Keys == m2.Keys && forall p <- m2.Keys - a - b :: m4[p] == m2[p]
    ensures m4 - (a + k + b) == m0
  {
  }

  /** Taking the grown container away again leaves what there was before: the nodes, */
  lemma AppendMinusNodes(m0: map<Ptr, Node>, m1: map<Ptr, Node>, ret: Ptr, kids: Forest,
                         m2: map<Ptr, Node>, elem: Ptr, below: Forest, m4: map<Ptr, Node>)
    requires m0 == m1 - ({ret} + Nodes(kids)) && m1 == m2 - ({elem} + Nodes(below))
    requires m4.Keys == m2.Keys && forall p <- m2.Keys - ({ret, elem} + Nodes(kids)) :: m4[p] == m2[p]
    requires Nodes(Snoc(kids, elem, below)) == Nodes(kids) + {elem} + Nodes(below)
    ensures m4 - ({ret} + Nodes(Snoc(kids, elem, below))) == m0
  {
    var a, b := {ret} + Nodes(kids), {elem} + Nodes(below);
    WithoutBoth(m0, m1, a, {}, m2, b, m4);
    assert a + {} + b == {ret} + Nodes(Snoc(kids, elem, below));
  }

  /** and the strings. */
  lemma AppendMinusTexts(m0: map<Ptr, bytes>, m1: map<Ptr, bytes>, own: set<Ptr>, key: Ptr, text: bytes,
                         m2: map<Ptr, bytes>, b: set<Ptr>)
    requires m0 == m1 - own && m2 - b == (if key == NULL then m1 else m1[key := text])
    requires key != NULL ==> key !in m1
    ensures m2 - (own + (if key == NULL then {} else {key}) + b) == m0
  {
    var k := if key == NULL then {} else {key};
    assert m1 == m2 - b - k;
    WithoutBoth(m0, m1, own, k, m2, b, m2);
  }

  /** One round of the loops of `parse_array` and `parse_object`: the key, if there is one, the
      element with everything below it, and then the linking. */
  lemma GrownAppend(m0: Mem, m1: Mem, ret: Ptr, kids: Forest, m2: Mem, elem: Ptr, below: Forest, key: Ptr, text: bytes)
    requires Grown(m0, m1, ret, kids) && IsContainer(Struct(m1, ret).tag)
    requires key != NULL <==> Struct(m1, ret).tag == JSON_OBJECT
    requires key != NULL ==> key !in m1.texts
    requires Grown(WithKey(m1, key, text), m2, elem, below)
    ensures var m4 := AppendMem(Set(m2, elem, Struct(m2, elem).(key := key)), ret, elem);
      && Grown(m0, m4, ret, Snoc(kids, elem, below)) == true && Struct(m4, ret).tag == Struct(m1, ret).tag
      && ValueOf(m4, ret, Snoc(kids, elem, below))
         == Appended(ValueOf(m1, ret, kids), Member(if key == NULL then [] else text, ValueOf(m2, elem, below)))
  {
    var v, m3 := WithKey(m1, key, text), Set(m2, elem, Struct(m2, elem).(key := key));
    var m4 := AppendMem(m3, ret, elem);
    KeyIsApart(m0, m1, ret, kids, key, text);
    BodyDomain(m1, ret, kids);
    ReadyToAppend(v, ret, kids, m2, elem, below, key);
    AppendProper(m3, ret, elem, kids, below);
    AppendWrites(m3, ret, elem, kids);
    var all, k := Snoc(kids, elem, below), if key == NULL then {} else {key};
    AppendMinusNodes(m0.nodes, m1.nodes, ret, kids, m2.nodes, elem, below, m4.nodes);
    AppendMinusTexts(m0.texts, m1.texts, TreeTexts(m1, ret, kids), key, text, m2.texts, TreeTexts(m2, elem, below));
    ContainerTexts(m1, ret, kids);
    ContainerTexts(m4, ret, all);
    assert Texts(m4, all) == Texts(m1, kids) + k + TreeTexts(m2, elem, below);
    assert Minus(m4, ret, all).nodes == m0.nodes;
    assert Minus(m4, ret, all).texts == m0.texts;
    assert Grown(m0, m4, ret, all);
  }

  lemma ContainerTexts(m: Mem, p: Ptr, kids: Forest)
    requires IsContainer(Struct(m, p).tag)
    ensures TreeTexts(m, p, kids) == Texts(m, kids)
  {
    assert OwnText(Struct(m, p)) == {};
  }

  /** What `json_delete` makes of a tree that has grown, which is what the failure labels of the
      parser rely on. */
  lemma GrownThenDeleted(m: Mem, w: Mem, p: Ptr, below: Forest)
    requires Grown(m, w, p, below)
    ensures p != NULL && JsonDelete.Deletable(w, p, below, Nil) && JsonDelete.Deleted(w, p, below) == m
  {
    assert RemoveMem(w, p) == w;
  }

  /** What the appending needs to know about the pointers that it follows. */
  lemma GrownApart(m0: Mem, m1: Mem, ret: Ptr, kids: Forest, m2: Mem, elem: Ptr, below: Forest, key: Ptr, text: bytes)
    requires Grown(m0, m1, ret, kids) && IsContainer(Struct(m1, ret).tag)
    requires key != NULL ==> key !in m1.texts
    requires Grown(WithKey(m1, key, text), m2, elem, below)
    ensures ret in m2.nodes && elem in m2.nodes && ret != elem && Struct(m2, ret) == Struct(m1, ret)
    ensures var tail := Struct(m2, ret).tail;
            tail != elem && (tail != NULL ==> tail in m2.nodes)
    ensures Struct(m2, elem).parent == NULL && Struct(m2, elem).key == NULL
  {
    var v := WithKey(m1, key, text);
    KeyIsApart(m0, m1, ret, kids, key, text);
    OlderTree(v, m2, elem, below, ret, kids);
    ContainerChain(m2, ret, kids);
  }

  lemma SetSame(m: Mem, p: Ptr)
    requires p in m.nodes && m.nodes[p].key == NULL
    ensures Set(m, p, Struct(m, p).(key := NULL)) == m
  {
    assert m.nodes[p := m.nodes[p]] == m.nodes;
  }

  /** One tree more, which holds the value `v`. */
  ghost predicate Built(m: Mem, w: Mem, p: Ptr, below: Forest, v: Json) {
    Grown(m, w, p, below) && ValueOf(w, p, below) == v
  }
}
