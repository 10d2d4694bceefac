/** Linking and unlinking anywhere in a tree: the whole tree stays one, with the children of the one
    node changed and everything else as it was. */
module JsonWhole {
  import opened Bytes
  import opened Memory
  import opened JsonGrammar
  import opened JsonTree
  import opened JsonLinks
  import Delete = JsonDelete

  /** The forest with `g` as the children of the node `p`. */
  function Replace(f: Forest, p: Ptr, g: Forest): Forest {
    if f.Nil? then Nil
    else if f.at == p then f.(kids := g)
    else Tree(f.at, Replace(f.kids, p, g), Replace(f.rest, p, g))
  }

  /** The children of the node `p`, wherever it is. */
  function KidsOf(f: Forest, p: Ptr): Forest {
    if f.Nil? then Nil
    else if f.at == p then f.kids
    else if p in Nodes(f.kids) then KidsOf(f.kids, p)
    else KidsOf(f.rest, p)
  }

  lemma {:induction false} ReplaceAbsent(f: Forest, p: Ptr, g: Forest)
    requires p !in Nodes(f)
    ensures Replace(f, p, g) == f
  {
    if f.Tree? {
      ReplaceAbsent(f.kids, p, g);
      ReplaceAbsent(f.rest, p, g);
    }
  }

  lemma {:induction false} ReplaceEnds(f: Forest, p: Ptr, g: Forest, b: Ptr)
    ensures First(Replace(f, p, g)) == First(f) && Last(Replace(f, p, g), b) == Last(f, b)
    ensures Nodes(KidsOf(f, p)) <= Nodes(f)
    ensures Distinct(f) ==> p !in Nodes(KidsOf(f, p))
  {
    if f.Tree? {
      ReplaceEnds(f.kids, p, g, NULL);
      ReplaceEnds(f.rest, p, g, f.at);
    }
  }

  lemma {:induction false} KidsOfTexts(m: Mem, f: Forest, p: Ptr)
    ensures Texts(m, KidsOf(f, p)) <= Texts(m, f)
  {
    if f.Tree? {
      KidsOfTexts(m, f.kids, p);
      KidsOfTexts(m, f.rest, p);
    }
  }

  /** A change below the node `p` that leaves a tree there leaves the whole forest in order. */
  lemma {:induction false} ReplaceChain(m: Mem, w: Mem, parent: Ptr, keyed: bool, prev: Ptr, f: Forest, p: Ptr, g: Forest)
    requires Chain(m, parent, keyed, prev, f) && Distinct(f) && OwnedOnce(m, f) && p in Nodes(f)
    requires SameNodes(m, w, Nodes(f) - {p} - Nodes(KidsOf(f, p)))
    requires SameTexts(m, w, Texts(m, f) - Texts(m, KidsOf(f, p)))
    requires SameLinks(Struct(m, p), Struct(w, p)) && Body(w, p, g)
    ensures Chain(w, parent, keyed, prev, Replace(f, p, g))
    decreases f, 0
  {
    ChainDomain(m, parent, keyed, prev, f);
    KidsOfTexts(m, f.kids, p);
    KidsOfTexts(m, f.rest, p);
    ReplaceEnds(f.kids, p, g, NULL);
    ReplaceEnds(f.rest, p, g, f.at);
    if f.at == p {
      ReplaceAbsent(f.rest, p, g);
      ChainFrame(m, w, parent, keyed, f.at, f.rest);
    } else if p in Nodes(f.kids) {
      ReplaceAbsent(f.rest, p, g);
      ReplaceBody(m, w, f.at, f.kids, p, g);
      ChainFrame(m, w, parent, keyed, f.at, f.rest);
    } else {
      ReplaceAbsent(f.kids, p, g);
      BodyFrame(m, w, f.at, f.kids);
      ReplaceChain(m, w, parent, keyed, f.at, f.rest, p, g);
    }
  }

  lemma {:induction false} ReplaceBody(m: Mem, w: Mem, q: Ptr, kids: Forest, p: Ptr, g: Forest)
    requires Body(m, q, kids) && Distinct(kids) && OwnedOnce(m, kids) && p in Nodes(kids)
    requires q in w.nodes && SameContents(m.nodes[q], w.nodes[q])
    requires SameNodes(m, w, Nodes(kids) - {p} - Nodes(KidsOf(kids, p)))
    requires SameTexts(m, w, OwnText(m.nodes[q]) + (Texts(m, kids) - Texts(m, KidsOf(kids, p))))
    requires SameLinks(Struct(m, p), Struct(w, p)) && Body(w, p, g)
    ensures Body(w, q, Replace(kids, p, g))
    decreases kids, 1
  {
    ReplaceEnds(kids, p, g, NULL);
    ReplaceChain(m, w, q, m.nodes[q].tag == JSON_OBJECT, NULL, kids, p, g);
  }

  // What a replaced forest consists of

  /** The nodes of the forest with other children of `p`. */
  lemma {:induction false} ReplaceNodes(f: Forest, p: Ptr, g: Forest)
    requires Distinct(f) && p in Nodes(f)
    ensures Nodes(Replace(f, p, g)) == Nodes(f) - Nodes(KidsOf(f, p)) + Nodes(g)
    ensures p !in Nodes(KidsOf(f, p)) && Nodes(KidsOf(f, p)) <= Nodes(f)
  {
    ReplaceEnds(f, p, g, NULL);
    if f.at == p {
      ReplaceAbsent(f.rest, p, g);
    } else if p in Nodes(f.kids) {
      ReplaceNodes(f.kids, p, g);
      ReplaceAbsent(f.rest, p, g);
    } else {
      ReplaceAbsent(f.kids, p, g);
      ReplaceNodes(f.rest, p, g);
    }
  }

  lemma {:induction false} ReplaceDistinct(f: Forest, p: Ptr, g: Forest)
    requires Distinct(f) && p in Nodes(f) && Distinct(g)
    requires Nodes(g) !! Nodes(f) - Nodes(KidsOf(f, p))
    ensures Distinct(Replace(f, p, g))
  {
    ReplaceNodes(f, p, g);
    if f.at == p {
      ReplaceAbsent(f.rest, p, g);
    } else if p in Nodes(f.kids) {
      ReplaceNodes(f.kids, p, g);
      ReplaceAbsent(f.rest, p, g);
      ReplaceDistinct(f.kids, p, g);
    } else {
      ReplaceAbsent(f.kids, p, g);
      ReplaceNodes(f.rest, p, g);
      ReplaceDistinct(f.rest, p, g);
    }
  }

  /** The strings, where the nodes outside of the replaced part keep theirs. */
  ghost predicate SameOutside(m: Mem, w: Mem, s: set<Ptr>) {
    forall q <- s :: KeyText(Struct(w, q)) == KeyText(Struct(m, q)) && OwnText(Struct(w, q)) == OwnText(Struct(m, q))
  }

  lemma {:induction false} SameOutsideTexts(m: Mem, w: Mem, f: Forest)
    requires SameOutside(m, w, Nodes(f))
    ensures Texts(w, f) == Texts(m, f) && OwnedOnce(w, f) == OwnedOnce(m, f)
  {
    if f.Tree? {
      SameOutsideTexts(m, w, f.kids);
      SameOutsideTexts(m, w, f.rest);
    }
  }

  lemma Exchange(a: set<Ptr>, x: set<Ptr>, y: set<Ptr>, g: set<Ptr>)
    requires a !! x && y <= x
    ensures a + (x - y + g) == a + x - y + g
    ensures a + x - y == a + (x - y)
  {
  }

  /** What a node and its siblings own besides one of the two forests. */
  lemma OwnedBeside(m: Mem, f: Forest)
    requires f.Tree? && OwnedOnce(m, f)
    ensures var own := KeyText(Struct(m, f.at)) + OwnText(Struct(m, f.at));
      && Texts(m, f) == (own + Texts(m, f.rest)) + Texts(m, f.kids) == (own + Texts(m, f.kids)) + Texts(m, f.rest)
      && own + Texts(m, f.rest) !! Texts(m, f.kids) && own + Texts(m, f.kids) !! Texts(m, f.rest)
  {
  }

  /** The forest with other kids, or with other siblings behind its first tree. */
  lemma TextsInKids(m: Mem, w: Mem, f: Forest, k: Forest, y: set<Ptr>, g: set<Ptr>)
    requires f.Tree? && OwnedOnce(m, f) && SameOutside(m, w, {f.at}) && Texts(w, f.rest) == Texts(m, f.rest)
    requires y <= Texts(m, f.kids) && Texts(w, k) == Texts(m, f.kids) - y + g
    ensures Texts(w, f.(kids := k)) == Texts(m, f) - y + g
    ensures OwnedOnce(w, f.rest) && OwnedOnce(w, k) && g !! Texts(m, f) - y ==> OwnedOnce(w, f.(kids := k))
  {
    OwnedBeside(m, f);
    var own := KeyText(Struct(m, f.at)) + OwnText(Struct(m, f.at));
    Exchange(own + Texts(m, f.rest), Texts(m, f.kids), y, g);
    assert Texts(w, f.(kids := k)) == (own + Texts(m, f.rest)) + Texts(w, k);
  }

  lemma TextsInRest(m: Mem, w: Mem, f: Forest, r: Forest, y: set<Ptr>, g: set<Ptr>)
    requires f.Tree? && OwnedOnce(m, f) && SameOutside(m, w, {f.at}) && Texts(w, f.kids) == Texts(m, f.kids)
    requires y <= Texts(m, f.rest) && Texts(w, r) == Texts(m, f.rest) - y + g
    ensures Texts(w, f.(rest := r)) == Texts(m, f) - y + g
    ensures OwnedOnce(w, f.kids) && OwnedOnce(w, r) && g !! Texts(m, f) - y ==> OwnedOnce(w, f.(rest := r))
  {
    OwnedBeside(m, f);
    var own := KeyText(Struct(m, f.at)) + OwnText(Struct(m, f.at));
    Exchange(own + Texts(m, f.kids), Texts(m, f.rest), y, g);
    assert Texts(w, f.(rest := r)) == (own + Texts(m, f.kids)) + Texts(w, r);
  }

  function Outside(f: Forest, p: Ptr): set<Ptr> {
    Nodes(f) - Nodes(KidsOf(f, p))
  }

  lemma OutsideParts(f: Forest, p: Ptr)
    requires Distinct(f) && p in Nodes(f)
    ensures f.at == p ==> {f.at} + Nodes(f.rest) <= Outside(f, p)
    ensures f.at != p && p in Nodes(f.kids) ==> {f.at} + Nodes(f.rest) + Outside(f.kids, p) <= Outside(f, p)
    ensures f.at != p && p !in Nodes(f.kids) ==> {f.at} + Nodes(f.kids) + Outside(f.rest, p) <= Outside(f, p)
  {
    ReplaceEnds(f.kids, p, Nil, NULL);
    ReplaceEnds(f.rest, p, Nil, NULL);
  }

  lemma SameOutsideLess(m: Mem, w: Mem, s: set<Ptr>, t: set<Ptr>)
    requires SameOutside(m, w, s) && t <= s
    ensures SameOutside(m, w, t)
  {
  }

  /** What the forest owns with other children of `p`, and that it owns nothing twice where the new
      children own nothing that the rest owns. */
  lemma {:induction false} ReplaceTexts(m: Mem, w: Mem, f: Forest, p: Ptr, g: Forest)
    requires Distinct(f) && OwnedOnce(m, f) && p in Nodes(f) && SameOutside(m, w, Outside(f, p))
    ensures Texts(w, Replace(f, p, g)) == Texts(m, f) - Texts(m, KidsOf(f, p)) + Texts(w, g)
    ensures OwnedOnce(w, g) && Texts(w, g) !! Texts(m, f) - Texts(m, KidsOf(f, p)) ==> OwnedOnce(w, Replace(f, p, g))
    decreases f
  {
    OutsideParts(f, p);
    SameOutsideLess(m, w, Outside(f, p), {f.at});
    if f.at == p {
      ReplaceAbsent(f.rest, p, g);
      SameOutsideLess(m, w, Outside(f, p), Nodes(f.rest));
      SameOutsideTexts(m, w, f.rest);
      TextsInKids(m, w, f, g, Texts(m, f.kids), Texts(w, g));
    } else if p in Nodes(f.kids) {
      ReplaceAbsent(f.rest, p, g);
      SameOutsideLess(m, w, Outside(f, p), Nodes(f.rest));
      SameOutsideTexts(m, w, f.rest);
      KidsOfTexts(m, f.kids, p);
      SameOutsideLess(m, w, Outside(f, p), Outside(f.kids, p));
      ReplaceTexts(m, w, f.kids, p, g);
      TextsInKids(m, w, f, Replace(f.kids, p, g), Texts(m, KidsOf(f.kids, p)), Texts(w, g));
    } else {
      ReplaceAbsent(f.kids, p, g);
      SameOutsideLess(m, w, Outside(f, p), Nodes(f.kids));
      SameOutsideTexts(m, w, f.kids);
      KidsOfTexts(m, f.rest, p);
      SameOutsideLess(m, w, Outside(f, p), Outside(f.rest, p));
      ReplaceTexts(m, w, f.rest, p, g);
      TextsInRest(m, w, f, Replace(f.rest, p, g), Texts(m, KidsOf(f.rest, p)), Texts(w, g));
    }
  }

  // What becomes of the values

  /** The value of the node `q` with the value of the node `p` below it, or itself, exchanged for `v`. */
  function ValueWith(m: Mem, q: Ptr, kids: Forest, p: Ptr, v: Json): Json
    decreases kids, 1
  {
    if q == p then v
    else
      match ValueOf(m, q, kids)
      case Arr(_) => Arr(ValuesWith(m, kids, p, v))
      case Obj(_) => Obj(MembersWith(m, kids, p, v))
      case other => other
  }

  function ValuesWith(m: Mem, f: Forest, p: Ptr, v: Json): seq<Json>
    decreases f, 0
  {
    if f.Nil? then [] else [ValueWith(m, f.at, f.kids, p, v)] + ValuesWith(m, f.rest, p, v)
  }

  function MembersWith(m: Mem, f: Forest, p: Ptr, v: Json): seq<Member>
    decreases f, 0
  {
    if f.Nil? then []
    else [Member(TextAt(m, Struct(m, f.at).key), ValueWith(m, f.at, f.kids, p, v))] + MembersWith(m, f.rest, p, v)
  }

  /** Exchanging what is not there, or a value for itself, is no exchange. */
  lemma {:induction false} NothingExchanged(m: Mem, f: Forest, p: Ptr, v: Json)
    requires Distinct(f) && (p in Nodes(f) ==> v == ValueOf(m, p, KidsOf(f, p)))
    ensures ValuesWith(m, f, p, v) == ValuesOf(m, f) && MembersWith(m, f, p, v) == MembersOf(m, f)
  {
    if f.Tree? {
      NothingExchanged(m, f.kids, p, v);
      NothingExchanged(m, f.rest, p, v);
    }
  }

  /** The nodes around the replaced part keep what they hold, and so does the node `p` its key. */
  ghost predicate SameAbout(m: Mem, w: Mem, f: Forest, p: Ptr) {
    && (forall q <- Outside(f, p) - {p} :: SameData(Struct(m, q), Struct(w, q)))
    && Struct(w, p).key == Struct(m, p).key
    && (forall t <- Texts(m, f) - Texts(m, KidsOf(f, p)) :: TextAt(w, t) == TextAt(m, t))
  }

  lemma SameAboutParts(m: Mem, w: Mem, f: Forest, p: Ptr)
    requires Distinct(f) && OwnedOnce(m, f) && p in Nodes(f) && SameAbout(m, w, f, p)
    ensures f.at == p ==> SameValues(m, w, f.rest)
    ensures f.at != p && p in Nodes(f.kids) ==> SameAbout(m, w, f.kids, p) == true && SameValues(m, w, f.rest)
    ensures f.at != p && p !in Nodes(f.kids) ==> SameAbout(m, w, f.rest, p) == true && SameValues(m, w, f.kids)
    ensures f.at != p ==> SameData(Struct(m, f.at), Struct(w, f.at))
    ensures Struct(w, f.at).key == Struct(m, f.at).key
    ensures TextAt(w, Struct(m, f.at).key) == TextAt(m, Struct(m, f.at).key)
    ensures f.at != p ==> forall t <- OwnText(Struct(m, f.at)) :: TextAt(w, t) == TextAt(m, t)
  {
    OutsideParts(f, p);
    KidsOfTexts(m, f.kids, p);
    KidsOfTexts(m, f.rest, p);
  }

  lemma ValueExchanged(m: Mem, w: Mem, q: Ptr, kids: Forest, k: Forest, p: Ptr, v: Json)
    requires q != p && SameScalar(Struct(m, q), Struct(w, q))
    requires forall t <- OwnText(Struct(m, q)) :: TextAt(w, t) == TextAt(m, t)
    requires ValuesOf(w, k) == ValuesWith(m, kids, p, v) && MembersOf(w, k) == MembersWith(m, kids, p, v)
    ensures ValueOf(w, q, k) == ValueWith(m, q, kids, p, v)
  {
  }

  lemma NodeExchanged(m: Mem, w: Mem, f: Forest, k: Forest, r: Forest, p: Ptr, v: Json)
    requires f.Tree? && f.at != p && SameData(Struct(m, f.at), Struct(w, f.at))
    requires TextAt(w, Struct(m, f.at).key) == TextAt(m, Struct(m, f.at).key)
    requires forall t <- OwnText(Struct(m, f.at)) :: TextAt(w, t) == TextAt(m, t)
    requires ValuesOf(w, k) == ValuesWith(m, f.kids, p, v) && MembersOf(w, k) == MembersWith(m, f.kids, p, v)
    requires ValuesOf(w, r) == ValuesWith(m, f.rest, p, v) && MembersOf(w, r) == MembersWith(m, f.rest, p, v)
    ensures ValuesOf(w, Tree(f.at, k, r)) == ValuesWith(m, f, p, v)
    ensures MembersOf(w, Tree(f.at, k, r)) == MembersWith(m, f, p, v)
  {
    ValueExchanged(m, w, f.at, f.kids, k, p, v);
  }

  lemma NothingReplaced(m: Mem, w: Mem, f: Forest, p: Ptr, v: Json)
    requires Distinct(f) && p !in Nodes(f) && SameValues(m, w, f)
    ensures ValuesOf(w, f) == ValuesWith(m, f, p, v) && MembersOf(w, f) == MembersWith(m, f, p, v)
  {
    ValuesFrame(m, w, f);
    NothingExchanged(m, f, p, v);
  }

  /** Other children of `p` exchange the value of `p`, and nothing else. */
  lemma {:induction false} ReplaceValues(m: Mem, w: Mem, f: Forest, p: Ptr, g: Forest)
    requires Distinct(f) && OwnedOnce(m, f) && p in Nodes(f) && SameAbout(m, w, f, p)
    ensures ValuesOf(w, Replace(f, p, g)) == ValuesWith(m, f, p, ValueOf(w, p, g))
    ensures MembersOf(w, Replace(f, p, g)) == MembersWith(m, f, p, ValueOf(w, p, g))
    decreases f
  {
    var v := ValueOf(w, p, g);
    SameAboutParts(m, w, f, p);
    if f.at == p {
      NothingReplaced(m, w, f.rest, p, v);
    } else if p in Nodes(f.kids) {
      ReplaceAbsent(f.rest, p, g);
      NothingReplaced(m, w, f.rest, p, v);
      ReplaceValues(m, w, f.kids, p, g);
      NodeExchanged(m, w, f, Replace(f.kids, p, g), f.rest, p, v);
    } else {
      ReplaceAbsent(f.kids, p, g);
      NothingReplaced(m, w, f.kids, p, v);
      ReplaceValues(m, w, f.rest, p, g);
      NodeExchanged(m, w, f, f.kids, Replace(f.rest, p, g), p, v);
    }
  }

  // Proper trees

  lemma {:induction false} SubtreeChain(m: Mem, parent: Ptr, keyed: bool, prev: Ptr, f: Forest, p: Ptr)
    requires Chain(m, parent, keyed, prev, f) && Distinct(f) && OwnedOnce(m, f) && p in Nodes(f)
    ensures Proper(m, p, KidsOf(f, p))
    decreases f, 0
  {
    if f.at != p {
      if p in Nodes(f.kids) {
        SubtreeBody(m, f.at, f.kids, p);
      } else {
        SubtreeChain(m, parent, keyed, f.at, f.rest, p);
      }
    }
  }

  lemma {:induction false} SubtreeBody(m: Mem, q: Ptr, kids: Forest, p: Ptr)
    requires Body(m, q, kids) && Distinct(kids) && OwnedOnce(m, kids) && p in Nodes(kids)
    ensures Proper(m, p, KidsOf(kids, p))
    decreases kids, 1
  {
    SubtreeChain(m, q, m.nodes[q].tag == JSON_OBJECT, NULL, kids, p);
  }

  /** Below any node of a tree there is a tree. */
  lemma SubtreeProper(m: Mem, root: Ptr, kids: Forest, p: Ptr)
    requires Proper(m, root, kids) && p in Nodes(kids)
    ensures Proper(m, p, KidsOf(kids, p)) && p in m.nodes && root in m.nodes && p != root
    ensures Nodes(KidsOf(kids, p)) <= Nodes(kids) - {p} && Nodes(kids) <= m.nodes.Keys
    ensures Texts(m, KidsOf(kids, p)) <= Texts(m, kids) <= m.texts.Keys
  {
    SubtreeBody(m, root, kids, p);
    ReplaceNodes(kids, p, Nil);
    KidsOfTexts(m, kids, p);
    BodyDomain(m, root, kids);
  }

  /** A change that leaves a tree at `p`, touches nothing of the tree around it and takes nothing that
      it owns, leaves the whole a tree. */
  lemma ChangedBelow(m: Mem, w: Mem, root: Ptr, kids: Forest, p: Ptr, g: Forest)
    requires Proper(m, root, kids) && p in Nodes(kids) && Proper(w, p, g)
    requires SameLinks(Struct(m, p), Struct(w, p)) && SameOutside(m, w, {p})
    requires SameNodes(m, w, {root} + Outside(kids, p) - {p})
    requires SameTexts(m, w, TreeTexts(m, root, kids) - Texts(m, KidsOf(kids, p)))
    requires Nodes(g) !! {root} + Outside(kids, p)
    requires Texts(w, g) !! TreeTexts(m, root, kids) - Texts(m, KidsOf(kids, p))
    ensures Proper(w, root, Replace(kids, p, g)) == true
    ensures Nodes(Replace(kids, p, g)) == Outside(kids, p) + Nodes(g)
    ensures Texts(w, Replace(kids, p, g)) == Texts(m, kids) - Texts(m, KidsOf(kids, p)) + Texts(w, g)
  {
    SubtreeProper(m, root, kids, p);
    ReplaceNodes(kids, p, g);
    ReplaceDistinct(kids, p, g);
    assert SameOutside(m, w, Outside(kids, p)) by {
      assert SameNodes(m, w, Outside(kids, p) - {p});
    }
    ReplaceTexts(m, w, kids, p, g);
    ReplaceBody(m, w, root, kids, p, g);
    assert Struct(w, root) == Struct(m, root);
    assert Proper(w, root, Replace(kids, p, g));
  }

  /** Its value is then the old one with the value of `p` exchanged. */
  lemma ChangedValue(m: Mem, w: Mem, root: Ptr, kids: Forest, p: Ptr, g: Forest)
    requires Proper(m, root, kids) && p in Nodes(kids)
    requires SameLinks(Struct(m, p), Struct(w, p))
    requires SameNodes(m, w, {root} + Outside(kids, p) - {p})
    requires SameTexts(m, w, TreeTexts(m, root, kids) - Texts(m, KidsOf(kids, p)))
    ensures ValueOf(w, root, Replace(kids, p, g)) == ValueWith(m, root, kids, p, ValueOf(w, p, g))
  {
    SubtreeProper(m, root, kids, p);
    BodyDomain(m, root, kids);
    assert SameAbout(m, w, kids, p);
    ReplaceValues(m, w, kids, p, g);
    assert Struct(w, root) == Struct(m, root);
    ValueExchanged(m, w, root, kids, Replace(kids, p, g), p, ValueOf(w, p, g));
  }

  /** The tree to be linked shares nothing with the tree that it is linked into, and has a key exactly
      if it becomes a member. */
  ghost predicate Linkable(m: Mem, root: Ptr, kids: Forest, p: Ptr, child: Ptr, below: Forest) {
    && IsContainer(Struct(m, p).tag) && Proper(m, child, below)
    && Nodes(Tree(root, kids, Nil)) !! Nodes(Tree(child, below, Nil))
    && KeyText(Struct(m, child)) !! TreeTexts(m, child, below)
    && TreeTexts(m, root, kids) !! KeyText(Struct(m, child)) + TreeTexts(m, child, below)
    && (var key := Struct(m, child).key;
        if Struct(m, p).tag == JSON_OBJECT then key != NULL && key in m.texts else key == NULL)
  }

  /** Linking makes `g` of the children `k` of `p`, and writes to nothing but `p`, `k` and the child. */
  ghost predicate Linked(m: Mem, w: Mem, p: Ptr, k: Forest, child: Ptr, below: Forest, g: Forest) {
    && SameNodes(m, w, m.nodes.Keys - ({p, child} + Nodes(k))) && w.texts == m.texts
    && SameLinks(Struct(m, p), Struct(w, p)) && Struct(w, p).tag == Struct(m, p).tag && Proper(w, p, g)
    && Nodes(g) == Nodes(k) + {child} + Nodes(below)
    && Texts(w, g) == Texts(m, k) + KeyText(Struct(m, child)) + TreeTexts(m, child, below)
  }

  /** Linking below `p`, once it is known what that does to `p` itself and which structs it writes to. */
  lemma LinkedBelow(m: Mem, w: Mem, root: Ptr, kids: Forest, p: Ptr, child: Ptr, below: Forest, g: Forest)
    requires Proper(m, root, kids) && p in Nodes(kids) && Linkable(m, root, kids, p, child, below)
    requires Linked(m, w, p, KidsOf(kids, p), child, below, g)
    ensures Proper(w, root, Replace(kids, p, g)) == true
    ensures ValueOf(w, root, Replace(kids, p, g)) == ValueWith(m, root, kids, p, ValueOf(w, p, g))
  {
    SubtreeProper(m, root, kids, p);
    assert SameOutside(m, w, {p});
    SameAround(m, w, root, kids, p, child, below);
    ApartAround(m, root, kids, p, child, below);
    ChangedBelow(m, w, root, kids, p, g);
    ChangedValue(m, w, root, kids, p, g);
  }

  lemma SameAround(m: Mem, w: Mem, root: Ptr, kids: Forest, p: Ptr, child: Ptr, below: Forest)
    requires Proper(m, root, kids) && p in Nodes(kids) && Linkable(m, root, kids, p, child, below)
    requires SameNodes(m, w, m.nodes.Keys - ({p, child} + Nodes(KidsOf(kids, p)))) && w.texts == m.texts
    ensures SameNodes(m, w, {root} + Outside(kids, p) - {p})
    ensures SameTexts(m, w, TreeTexts(m, root, kids) - Texts(m, KidsOf(kids, p)))
  {
    SubtreeProper(m, root, kids, p);
  }

  lemma ApartAround(m: Mem, root: Ptr, kids: Forest, p: Ptr, child: Ptr, below: Forest)
    requires Proper(m, root, kids) && p in Nodes(kids) && Linkable(m, root, kids, p, child, below)
    ensures Nodes(KidsOf(kids, p)) + {child} + Nodes(below) !! {root} + Outside(kids, p)
    ensures Texts(m, KidsOf(kids, p)) + KeyText(Struct(m, child)) + TreeTexts(m, child, below)
         !! TreeTexts(m, root, kids) - Texts(m, KidsOf(kids, p))
  {
    SubtreeProper(m, root, kids, p);
  }

  /** What is linkable into the tree is linkable to the node. */
  lemma LinkableHere(m: Mem, root: Ptr, kids: Forest, p: Ptr, child: Ptr, below: Forest)
    requires Proper(m, root, kids) && p in Nodes(kids) && Linkable(m, root, kids, p, child, below)
    ensures var k := KidsOf(kids, p);
      && Proper(m, p, k) == true && p !in Nodes(k) && p in m.nodes && child in m.nodes && child != p && child !in Nodes(k)
      && Nodes(Tree(p, k, Nil)) !! Nodes(Tree(child, below, Nil))
      && Texts(m, k) !! KeyText(Struct(m, child)) + TreeTexts(m, child, below)
  {
    SubtreeProper(m, root, kids, p);
    assert Proper(m, p, KidsOf(kids, p));
  }

  lemma AppendLinked(m: Mem, root: Ptr, kids: Forest, p: Ptr, child: Ptr, below: Forest)
    requires Proper(m, root, kids) && p in Nodes(kids) && Linkable(m, root, kids, p, child, below)
    ensures var k := KidsOf(kids, p); Linked(m, AppendMem(m, p, child), p, k, child, below, Snoc(k, child, below)) == true
    ensures var k := KidsOf(kids, p);
      ValueOf(AppendMem(m, p, child), p, Snoc(k, child, below)) == Appended(ValueOf(m, p, k), MemberOf(m, child, below))
  {
    var k := KidsOf(kids, p);
    LinkableHere(m, root, kids, p, child, below);
    AppendProper(m, p, child, k, below);
    AppendWrites(m, p, child, k);
  }

  /** Appending to any container below the root of a tree. */
  lemma AppendInTree(m: Mem, root: Ptr, kids: Forest, p: Ptr, child: Ptr, below: Forest)
    requires Proper(m, root, kids) && p in Nodes(kids) && Linkable(m, root, kids, p, child, below)
    ensures var w, k := AppendMem(m, p, child), KidsOf(kids, p); var all := Replace(kids, p, Snoc(k, child, below));
      && Proper(w, root, all) == true
      && ValueOf(w, root, all) == ValueWith(m, root, kids, p, Appended(ValueOf(m, p, k), MemberOf(m, child, below)))
  {
    var k := KidsOf(kids, p);
    AppendLinked(m, root, kids, p, child, below);
    LinkedBelow(m, AppendMem(m, p, child), root, kids, p, child, below, Snoc(k, child, below));
  }

  lemma PrependLinked(m: Mem, root: Ptr, kids: Forest, p: Ptr, child: Ptr, below: Forest)
    requires Proper(m, root, kids) && p in Nodes(kids) && Linkable(m, root, kids, p, child, below)
    ensures var k := KidsOf(kids, p); Linked(m, PrependMem(m, p, child), p, k, child, below, Tree(child, below, k)) == true
    ensures var k := KidsOf(kids, p);
      ValueOf(PrependMem(m, p, child), p, Tree(child, below, k)) == Prepended(ValueOf(m, p, k), MemberOf(m, child, below))
  {
    var k := KidsOf(kids, p);
    LinkableHere(m, root, kids, p, child, below);
    PrependProper(m, p, child, k, below);
    PrependWrites(m, p, child, k);
  }

  /** Prepending to any container below the root of a tree. */
  lemma PrependInTree(m: Mem, root: Ptr, kids: Forest, p: Ptr, child: Ptr, below: Forest)
    requires Proper(m, root, kids) && p in Nodes(kids) && Linkable(m, root, kids, p, child, below)
    ensures var w, k := PrependMem(m, p, child), KidsOf(kids, p); var all := Replace(kids, p, Tree(child, below, k));
      && Proper(w, root, all) == true
      && ValueOf(w, root, all) == ValueWith(m, root, kids, p, Prepended(ValueOf(m, p, k), MemberOf(m, child, below)))
  {
    var k := KidsOf(kids, p);
    PrependLinked(m, root, kids, p, child, below);
    LinkedBelow(m, PrependMem(m, p, child), root, kids, p, child, below, Tree(child, below, k));
  }

  /** `json_remove_from_parent` by itself: what it makes of the parent, */
  lemma RemoveLeavesParent(m: Mem, parent: Ptr, n: Ptr, kids: Forest)
    requires Proper(m, parent, kids) && IsContainer(Struct(m, parent).tag) && Top(kids, n)
    ensures var u, rest := RemoveMem(m, n), Without(kids, n);
      && Proper(u, parent, rest) == true && Texts(u, rest) == Texts(m, rest)
      && ValuesOf(u, rest) == ValuesOf(m, rest) && MembersOf(u, rest) == MembersOf(m, rest)
      && Struct(u, parent).tag == Struct(m, parent).tag
  {
    var u, rest := RemoveMem(m, n), Without(kids, n);
    Delete.RemainingData(m, parent, n, kids);
    TextsFrame(m, u, rest);
    ValuesFrame(m, u, rest);
    ContainerProper(u, parent, rest);
  }

  /** and of the child, which then stands alone. */
  lemma RemoveLeavesChild(m: Mem, parent: Ptr, n: Ptr, kids: Forest)
    requires Proper(m, parent, kids) && IsContainer(Struct(m, parent).tag) && Top(kids, n)
    ensures var u, below := RemoveMem(m, n), Below(kids, n);
      && Proper(u, n, below) == true && Detached(u, n) && ValueOf(u, n, below) == ValueOf(m, n, below)
      && TreeTexts(u, n, below) == TreeTexts(m, n, below)
  {
    var u, below := RemoveMem(m, n), Below(kids, n);
    RemoveTree(m, parent, n, kids);
    Delete.ChildIsDeletable(m, parent, n, kids);
    Delete.UnlinkedAlone(m, n, below, kids);
    WithoutTexts(m, kids, n);
    forall p | p in Nodes(below)
      ensures SameData(Struct(m, p), Struct(u, p))
    {
      Delete.RemoveSameData(m, n, p);
    }
    ChildValue(m, u, n, below);
  }

  lemma ChildValue(m: Mem, u: Mem, n: Ptr, below: Forest)
    requires SameContents(Struct(m, n), Struct(u, n)) && u.texts == m.texts - KeyText(Struct(m, n))
    requires forall p <- Nodes(below) :: SameData(Struct(m, p), Struct(u, p))
    requires KeyText(Struct(m, n)) !! OwnText(Struct(m, n)) + Texts(m, below)
    ensures ValueOf(u, n, below) == ValueOf(m, n, below)
  {
    ValueFrame(m, u, n, below);
  }

  /** The two share nothing, and the parent's list has lost the one entry. */
  lemma RemoveProper(m: Mem, parent: Ptr, n: Ptr, kids: Forest) returns (i: nat)
    requires Proper(m, parent, kids) && IsContainer(Struct(m, parent).tag) && Top(kids, n)
    ensures var u, rest, below := RemoveMem(m, n), Without(kids, n), Below(kids, n);
      && Proper(u, parent, rest) == true && Proper(u, n, below) == true && Detached(u, n)
      && Nodes(Tree(parent, rest, Nil)) !! Nodes(Tree(n, below, Nil)) && Texts(u, rest) !! TreeTexts(u, n, below)
    ensures var u, vs, ms, v := RemoveMem(m, n), ValuesOf(m, kids), MembersOf(m, kids), ValueOf(RemoveMem(m, n), n, Below(kids, n));
      && i < |vs| && vs[i] == v && ValuesOf(u, Without(kids, n)) == vs[..i] + vs[i + 1..]
      && i < |ms| && ms[i].value == v && MembersOf(u, Without(kids, n)) == ms[..i] + ms[i + 1..]
  {
    RemoveLeavesParent(m, parent, n, kids);
    RemoveLeavesChild(m, parent, n, kids);
    WithoutForest(kids, n);
    WithoutTexts(m, kids, n);
    i := Delete.WithoutValue(m, kids, n);
  }

  /** Which structs and strings an unlinking leaves alone. */
  lemma RemoveWrites(m: Mem, parent: Ptr, n: Ptr, kids: Forest)
    requires Proper(m, parent, kids) && IsContainer(Struct(m, parent).tag) && Top(kids, n)
    ensures var u := RemoveMem(m, n);
      && SameNodes(m, u, m.nodes.Keys - Nodes(kids) - {parent}) && SameLinks(Struct(m, parent), Struct(u, parent))
      && SameTexts(m, u, m.texts.Keys - Texts(m, kids)) && SameOutside(m, u, {parent})
  {
    RemoveTree(m, parent, n, kids);
    ChildFacts(m, parent, n, kids);
    WithoutTexts(m, kids, n);
    Delete.UnlinkedOutside(m, RemoveMem(m, n), parent, n, kids);
  }

  /** Removing a child of any container below the root: the whole stays a tree, the removed node is one,
      and the value of the whole has lost the one entry. */
  lemma RemoveInTree(m: Mem, root: Ptr, kids: Forest, p: Ptr, n: Ptr) returns (i: nat)
    requires Proper(m, root, kids) && p in Nodes(kids) && IsContainer(Struct(m, p).tag) && Top(KidsOf(kids, p), n)
    ensures var u, k := RemoveMem(m, n), KidsOf(kids, p);
      && Proper(u, root, Replace(kids, p, Without(k, n))) == true && Proper(u, n, Below(k, n)) == true && Detached(u, n)
    ensures var u, k := RemoveMem(m, n), KidsOf(kids, p);
      && EntryIs(ValueOf(m, p, k), i, ValueOf(u, n, Below(k, n))) == true
      && ValueOf(u, root, Replace(kids, p, Without(k, n))) == ValueWith(m, root, kids, p, Removed(ValueOf(m, p, k), i))
  {
    var u, k := RemoveMem(m, n), KidsOf(kids, p);
    SubtreeProper(m, root, kids, p);
    RemoveLeavesParent(m, p, n, k);
    RemoveLeavesChild(m, p, n, k);
    RemoveWrites(m, p, n, k);
    WithoutForest(k, n);
    WithoutTexts(m, k, n);
    RemovedBelow(m, u, root, kids, p, Without(k, n));
    i := RemovedValue(m, p, n, k);
  }

  /** The container's value without the entry at `i`, and what that entry holds. */
  function Removed(v: Json, i: nat): Json {
    match v
    case Arr(elems) => if i < |elems| then Arr(elems[..i] + elems[i + 1..]) else v
    case Obj(members) => if i < |members| then Obj(members[..i] + members[i + 1..]) else v
    case _ => v
  }

  ghost predicate EntryIs(v: Json, i: nat, e: Json) {
    match v
    case Arr(elems) => i < |elems| && elems[i] == e
    case Obj(members) => i < |members| && members[i].value == e
    case _ => false
  }

  lemma EntryRemoved(m: Mem, u: Mem, p: Ptr, k: Forest, rest: Forest, i: nat, e: Json)
    requires IsContainer(Struct(m, p).tag) && Struct(u, p).tag == Struct(m, p).tag
    requires var vs := ValuesOf(m, k); i < |vs| && vs[i] == e && ValuesOf(u, rest) == vs[..i] + vs[i + 1..]
    requires var ms := MembersOf(m, k); i < |ms| && ms[i].value == e && MembersOf(u, rest) == ms[..i] + ms[i + 1..]
    ensures EntryIs(ValueOf(m, p, k), i, e) && ValueOf(u, p, rest) == Removed(ValueOf(m, p, k), i)
  {
  }

  lemma RemovedValue(m: Mem, p: Ptr, n: Ptr, k: Forest) returns (i: nat)
    requires Proper(m, p, k) && IsContainer(Struct(m, p).tag) && Top(k, n)
    ensures var u := RemoveMem(m, n);
      && EntryIs(ValueOf(m, p, k), i, ValueOf(u, n, Below(k, n))) == true
      && ValueOf(u, p, Without(k, n)) == Removed(ValueOf(m, p, k), i)
  {
    var u := RemoveMem(m, n);
    RemoveLeavesParent(m, p, n, k);
    i := RemoveProper(m, p, n, k);
    EntryRemoved(m, u, p, k, Without(k, n), i, ValueOf(u, n, Below(k, n)));
  }

  lemma RemovedBelow(m: Mem, u: Mem, root: Ptr, kids: Forest, p: Ptr, rest: Forest)
    requires Proper(m, root, kids) && p in Nodes(kids) && Proper(u, p, rest)
    requires SameNodes(m, u, m.nodes.Keys - Nodes(KidsOf(kids, p)) - {p}) && SameLinks(Struct(m, p), Struct(u, p))
    requires SameTexts(m, u, m.texts.Keys - Texts(m, KidsOf(kids, p))) && SameOutside(m, u, {p})
    requires Nodes(rest) <= Nodes(KidsOf(kids, p)) && Texts(u, rest) <= Texts(m, KidsOf(kids, p))
    ensures Proper(u, root, Replace(kids, p, rest)) == true
    ensures ValueOf(u, root, Replace(kids, p, rest)) == ValueWith(m, root, kids, p, ValueOf(u, p, rest))
  {
    SubtreeProper(m, root, kids, p);
    RemovedAround(m, u, root, kids, p, rest);
    ChangedBelow(m, u, root, kids, p, rest);
    ChangedValue(m, u, root, kids, p, rest);
  }

  lemma RemovedAround(m: Mem, u: Mem, root: Ptr, kids: Forest, p: Ptr, rest: Forest)
    requires Proper(m, root, kids) && p in Nodes(kids)
    requires SameNodes(m, u, m.nodes.Keys - Nodes(KidsOf(kids, p)) - {p})
    requires SameTexts(m, u, m.texts.Keys - Texts(m, KidsOf(kids, p)))
    requires Nodes(rest) <= Nodes(KidsOf(kids, p)) && Texts(u, rest) <= Texts(m, KidsOf(kids, p))
    ensures SameNodes(m, u, {root} + Outside(kids, p) - {p})
    ensures SameTexts(m, u, TreeTexts(m, root, kids) - Texts(m, KidsOf(kids, p)))
    ensures Nodes(rest) !! {root} + Outside(kids, p)
    ensures Texts(u, rest) !! TreeTexts(m, root, kids) - Texts(m, KidsOf(kids, p))
  {
    SubtreeProper(m, root, kids, p);
  }
}
