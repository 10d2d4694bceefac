/** What it means that the nodes on the heap make up a tree, and which value the tree holds. */
module JsonTree {
  import opened Bytes
  import opened Memory
  import opened JsonGrammar

  const JSON_NULL: nat := 0
  const JSON_BOOL: nat := 1
  const JSON_STRING: nat := 2
  const JSON_NUMBER: nat := 3
  const JSON_ARRAY: nat := 4
  const JSON_OBJECT: nat := 5

  predicate IsContainer(tag: nat) {
    tag == JSON_ARRAY || tag == JSON_OBJECT
  }

  /** A list of siblings: the first node, the list of its children, and the siblings after it. */
  datatype Forest = Nil | Tree(at: Ptr, kids: Forest, rest: Forest)

  function First(f: Forest): Ptr {
    if f.Nil? then NULL else f.at
  }

  /** The last of the siblings, or `before` if there is none. */
  function Last(f: Forest, before: Ptr): Ptr {
    if f.Nil? then before else Last(f.rest, f.at)
  }

  function Nodes(f: Forest): set<Ptr> {
    if f.Nil? then {} else {f.at} + Nodes(f.kids) + Nodes(f.rest)
  }

  /** No node is met twice. */
  predicate Distinct(f: Forest) {
    f.Nil? ||
    (&& f.at !in Nodes(f.kids) && f.at !in Nodes(f.rest) && Nodes(f.kids) !! Nodes(f.rest)
     && Distinct(f.kids) && Distinct(f.rest))
  }

  /** The siblings `f` under `parent`, behind the sibling `prev`: their links, their keys, which
      exactly the members of objects have, and the trees below them. */
  ghost predicate Chain(m: Mem, parent: Ptr, keyed: bool, prev: Ptr, f: Forest)
    decreases f, 0
  {
    f.Nil? ||
    (&& f.at in m.nodes && f.at != NULL
     && m.nodes[f.at].parent == parent
     && m.nodes[f.at].prev == prev
     && m.nodes[f.at].next == First(f.rest)
     && (if keyed then m.nodes[f.at].key in m.texts && m.nodes[f.at].key != NULL else m.nodes[f.at].key == NULL)
     && Body(m, f.at, f.kids)
     && Chain(m, parent, keyed, f.at, f.rest))
  }

  /** The node `p` with the children `kids`. Where `p` itself is linked to is left open. */
  ghost predicate Body(m: Mem, p: Ptr, kids: Forest)
    decreases kids, 1
  {
    && p in m.nodes && p != NULL
    && m.nodes[p].tag <= JSON_OBJECT
    && (m.nodes[p].tag == JSON_STRING ==> m.nodes[p].string_ in m.texts && m.nodes[p].string_ != NULL)
    && (if IsContainer(m.nodes[p].tag) then
          && m.nodes[p].head == First(kids)
          && m.nodes[p].tail == Last(kids, NULL)
          && Chain(m, p, m.nodes[p].tag == JSON_OBJECT, NULL, kids)
        else kids.Nil?)
  }

  /** The struct at an address that is known to be allocated wherever it matters. */
  function Struct(m: Mem, p: Ptr): Node {
    if p in m.nodes then m.nodes[p] else Node(0, 0, 0, 0, 0, false, 0, [], 0, 0)
  }

  function TextAt(m: Mem, p: Ptr): bytes {
    if p != NULL && p in m.texts then m.texts[p] else []
  }

  /** The string that a node owns besides its key. */
  function OwnText(n: Node): set<Ptr> {
    if n.tag == JSON_STRING then {n.string_} else {}
  }

  function KeyText(n: Node): set<Ptr> {
    if n.key == NULL then {} else {n.key}
  }

  /** The strings of the siblings `f` and of everything below them. */
  function Texts(m: Mem, f: Forest): set<Ptr> {
    if f.Nil? then {}
    else KeyText(Struct(m, f.at)) + OwnText(Struct(m, f.at)) + Texts(m, f.kids) + Texts(m, f.rest)
  }

  /** No string is owned twice. */
  predicate OwnedOnce(m: Mem, f: Forest) {
    f.Nil? ||
    (&& KeyText(Struct(m, f.at)) !! OwnText(Struct(m, f.at)) !! Texts(m, f.kids) !! Texts(m, f.rest)
     && OwnedOnce(m, f.kids) && OwnedOnce(m, f.rest))
  }

  /** Everything that `json_delete` of the node frees, but for its key. */
  function TreeTexts(m: Mem, p: Ptr, kids: Forest): set<Ptr> {
    OwnText(Struct(m, p)) + Texts(m, kids)
  }

  /** The node `p` with `kids` below it is a tree that shares nothing with itself. */
  ghost predicate Proper(m: Mem, p: Ptr, kids: Forest) {
    && Body(m, p, kids) && Distinct(Tree(p, kids, Nil))
    && OwnText(Struct(m, p)) !! Texts(m, kids) && OwnedOnce(m, kids)
  }

  lemma {:induction false} ChainDomain(m: Mem, parent: Ptr, keyed: bool, prev: Ptr, f: Forest)
    requires Chain(m, parent, keyed, prev, f)
    ensures Nodes(f) <= m.nodes.Keys && NULL !in Nodes(f)
    ensures Texts(m, f) <= m.texts.Keys && NULL !in Texts(m, f)
    decreases f, 0
  {
    if f.Tree? {
      BodyDomain(m, f.at, f.kids);
      ChainDomain(m, parent, keyed, f.at, f.rest);
    }
  }

  lemma {:induction false} BodyDomain(m: Mem, p: Ptr, kids: Forest)
    requires Body(m, p, kids)
    ensures Nodes(kids) <= m.nodes.Keys && NULL !in Nodes(kids)
    ensures Texts(m, kids) <= m.texts.Keys && NULL !in Texts(m, kids)
    decreases kids, 1
  {
    if IsContainer(m.nodes[p].tag) {
      ChainDomain(m, p, m.nodes[p].tag == JSON_OBJECT, NULL, kids);
    }
  }

  // Values

  function ValueOf(m: Mem, p: Ptr, kids: Forest): Json
    decreases kids, 1
  {
    var n := Struct(m, p);
    if n.tag == JSON_NULL then Null
    else if n.tag == JSON_BOOL then Bool(n.bool_)
    else if n.tag == JSON_STRING then Str(TextAt(m, n.string_))
    else if n.tag == JSON_NUMBER then Num(n.number_)
    else if n.tag == JSON_ARRAY then Arr(ValuesOf(m, kids))
    else Obj(MembersOf(m, kids))
  }

  function ValuesOf(m: Mem, f: Forest): seq<Json>
    decreases f, 0
  {
    if f.Nil? then [] else [ValueOf(m, f.at, f.kids)] + ValuesOf(m, f.rest)
  }

  function MembersOf(m: Mem, f: Forest): seq<Member>
    decreases f, 0
  {
    if f.Nil? then [] else [MemberOf(m, f.at, f.kids)] + MembersOf(m, f.rest)
  }

  function MemberOf(m: Mem, p: Ptr, kids: Forest): Member
    decreases kids, 2
  {
    Member(TextAt(m, Struct(m, p).key), ValueOf(m, p, kids))
  }

  // Frames

  /** The nodes of `f` are the same in both memories, and the strings they own. */
  ghost predicate Agree(m: Mem, w: Mem, f: Forest) {
    SameNodes(m, w, Nodes(f)) && SameTexts(m, w, Texts(m, f))
  }

  ghost predicate SameNodes(m: Mem, w: Mem, s: set<Ptr>) {
    forall p <- s :: p in m.nodes ==> p in w.nodes && w.nodes[p] == m.nodes[p]
  }

  ghost predicate SameTexts(m: Mem, w: Mem, s: set<Ptr>) {
    forall t <- s :: t in m.texts ==> t in w.texts && w.texts[t] == m.texts[t]
  }

  ghost predicate SameContents(n: Node, o: Node) {
    && o.tag == n.tag && o.bool_ == n.bool_ && o.string_ == n.string_ && o.number_ == n.number_
    && o.head == n.head && o.tail == n.tail
  }

  lemma {:induction false} ChainFrame(m: Mem, w: Mem, parent: Ptr, keyed: bool, prev: Ptr, f: Forest)
    requires Chain(m, parent, keyed, prev, f) && Agree(m, w, f)
    ensures Chain(w, parent, keyed, prev, f)
    decreases f, 0
  {
    if f.Tree? {
      BodyFrame(m, w, f.at, f.kids);
      ChainFrame(m, w, parent, keyed, f.at, f.rest);
    }
  }

  /** The links and the key of the root may differ. */
  lemma {:induction false} BodyFrame(m: Mem, w: Mem, p: Ptr, kids: Forest)
    requires Body(m, p, kids) && Agree(m, w, kids)
    requires p in w.nodes && SameContents(m.nodes[p], w.nodes[p])
    requires forall t <- OwnText(m.nodes[p]) :: t in w.texts
    ensures Body(w, p, kids)
    decreases kids, 1
  {
    if IsContainer(m.nodes[p].tag) {
      ChainFrame(m, w, p, m.nodes[p].tag == JSON_OBJECT, NULL, kids);
    }
  }

  /** What a node says about the value and not about the links. */
  ghost predicate SameData(n: Node, o: Node) {
    o.key == n.key && SameScalar(n, o)
  }

  ghost predicate SameScalar(n: Node, o: Node) {
    o.tag == n.tag && o.bool_ == n.bool_ && o.string_ == n.string_ && o.number_ == n.number_
  }

  ghost predicate SameValues(m: Mem, w: Mem, f: Forest) {
    && (forall p <- Nodes(f) :: SameData(Struct(m, p), Struct(w, p)))
    && (forall t <- Texts(m, f) :: TextAt(w, t) == TextAt(m, t))
  }

  lemma {:induction false} TextsFrame(m: Mem, w: Mem, f: Forest)
    requires forall p <- Nodes(f) :: SameData(Struct(m, p), Struct(w, p))
    ensures Texts(w, f) == Texts(m, f) && OwnedOnce(w, f) == OwnedOnce(m, f)
  {
    if f.Tree? {
      TextsFrame(m, w, f.kids);
      TextsFrame(m, w, f.rest);
    }
  }

  lemma {:induction false} ValuesFrame(m: Mem, w: Mem, f: Forest)
    requires SameValues(m, w, f)
    ensures ValuesOf(w, f) == ValuesOf(m, f) && MembersOf(w, f) == MembersOf(m, f)
    decreases f, 0
  {
    if f.Tree? {
      ValueFrame(m, w, f.at, f.kids);
      ValuesFrame(m, w, f.rest);
    }
  }

  lemma {:induction false} ValueFrame(m: Mem, w: Mem, p: Ptr, kids: Forest)
    requires SameScalar(Struct(m, p), Struct(w, p)) && SameValues(m, w, kids)
    requires forall t <- OwnText(Struct(m, p)) :: TextAt(w, t) == TextAt(m, t)
    ensures ValueOf(w, p, kids) == ValueOf(m, p, kids)
    decreases kids, 1
  {
    ValuesFrame(m, w, kids);
  }

  /** A tree is the same tree in every memory that holds its nodes and strings, wherever its root is
      linked to. */
  lemma ProperFrame(m: Mem, w: Mem, p: Ptr, kids: Forest)
    requires Proper(m, p, kids)
    requires p in w.nodes && SameContents(m.nodes[p], w.nodes[p])
    requires SameNodes(m, w, Nodes(kids)) && SameTexts(m, w, TreeTexts(m, p, kids))
    ensures Proper(w, p, kids) && Texts(w, kids) == Texts(m, kids)
    ensures ValuesOf(w, kids) == ValuesOf(m, kids) && MembersOf(w, kids) == MembersOf(m, kids)
    ensures ValueOf(w, p, kids) == ValueOf(m, p, kids)
  {
    BodyDomain(m, p, kids);
    BodyFrame(m, w, p, kids);
    TextsFrame(m, w, kids);
    ValuesFrame(m, w, kids);
    ValueFrame(m, w, p, kids);
  }
}
