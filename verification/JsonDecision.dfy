/** When `json_check` comes to an end, and that it then decides whether there is a tree. */
module JsonDecision {
  import opened Bytes
  import opened Memory
  import opened JsonTree
  import opened JsonLinks
  import opened JsonShape
  import Utf8

  // Where the check goes

  /** The children that the loop has come to, one behind the other: all but the last one have been
      accepted. */
  ghost predicate Walk(m: Mem, node: Ptr, cs: seq<Ptr>)
    requires Closed(m) && node in m.nodes
  {
    && Header(m, node).None? && cs != [] && cs[0] == m.nodes[node].head
    && (forall k | 0 <= k < |cs| - 1 ::
          cs[k] in m.nodes && GoodLinks(m, node, cs[k]) && Accepts(m, cs[k]) && cs[k + 1] == m.nodes[cs[k]].next)
  }

  /** The check of `node`, after passing all tests so far, looks into `child`. */
  ghost predicate LooksInto(m: Mem, node: Ptr, child: Ptr)
    requires Closed(m) && node in m.nodes
  {
    && child in m.nodes && GoodLinks(m, node, child)
    && exists cs :: Walk(m, node, cs) && cs[|cs| - 1] == child
  }

  /** Each node of the path looks into the next one. */
  ghost predicate IsPath(m: Mem, path: seq<Ptr>)
    requires Closed(m)
  {
    && path != [] && (forall k | 0 <= k < |path| :: path[k] in m.nodes)
    && (forall k | 0 <= k < |path| - 1 :: LooksInto(m, path[k], path[k + 1]))
  }

  /** The check of the node comes to look into the node itself again. */
  ghost predicate Circular(m: Mem, node: Ptr)
    requires Closed(m)
  {
    exists path :: |path| >= 2 && IsPath(m, path) && path[0] == node && path[|path| - 1] == node
  }

  // A circle never ends

  lemma {:induction false} WalkSpends(m: Mem, node: Ptr, cs: seq<Ptr>, k: nat, last: Ptr, fuel: nat)
    requires Closed(m) && node in m.nodes && Walk(m, node, cs) && k < |cs|
    requires cs[|cs| - 1] in m.nodes && GoodLinks(m, node, cs[|cs| - 1])
    requires cs[k] in m.nodes && LoopRun(m, node, cs[k], last, fuel).Some?
    ensures CheckRun(m, cs[|cs| - 1], fuel).Some?
    decreases |cs| - k
  {
    if k == |cs| - 1 {
      CheckRunMore(m, cs[k], fuel - 1, fuel);
    } else {
      var more: nat :| CheckRun(m, cs[k], more) == Some(true);
      if CheckRun(m, cs[k], fuel - 1).Some? {
        if more <= fuel - 1 {
          CheckRunMore(m, cs[k], more, fuel - 1);
        } else {
          CheckRunMore(m, cs[k], fuel - 1, more);
        }
      }
      WalkSpends(m, node, cs, k + 1, cs[k], fuel - 1);
      CheckRunMore(m, cs[|cs| - 1], fuel - 1, fuel);
    }
  }

  /** Looking into a child costs something. */
  lemma LookingSpends(m: Mem, node: Ptr, child: Ptr, fuel: nat)
    requires Closed(m) && node in m.nodes && LooksInto(m, node, child) && CheckRun(m, node, fuel).Some?
    ensures fuel > 0 && CheckRun(m, child, fuel - 1).Some?
  {
    var cs :| Walk(m, node, cs) && cs[|cs| - 1] == child;
    WalkSpends(m, node, cs, 0, NULL, fuel - 1);
  }

  lemma {:induction false} PathSpends(m: Mem, path: seq<Ptr>, k: nat, fuel: nat)
    requires Closed(m) && IsPath(m, path) && k < |path| && CheckRun(m, path[0], fuel).Some?
    ensures k <= fuel && CheckRun(m, path[k], fuel - k).Some?
  {
    if k > 0 {
      PathSpends(m, path, k - 1, fuel);
      LookingSpends(m, path[k - 1], path[k], fuel - (k - 1));
    }
  }

  lemma {:induction false} CircleGoesOn(m: Mem, node: Ptr, path: seq<Ptr>, fuel: nat)
    requires Closed(m) && IsPath(m, path) && |path| >= 2 && path[0] == node == path[|path| - 1]
    ensures CheckRun(m, node, fuel).None?
    decreases fuel
  {
    if CheckRun(m, node, fuel).Some? {
      PathSpends(m, path, |path| - 1, fuel);
      CircleGoesOn(m, node, path, fuel - (|path| - 1));
    }
  }

  // Without a circle, the check ends and decides

  lemma Bigger(s: set<Ptr>, t: set<Ptr>, all: set<Ptr>)
    requires s < t && t <= all
    ensures |all - t| < |all - s|
  {
    assert all - t < all - s;
    Smaller(all - t, all - s);
  }

  lemma Smaller(a: set<Ptr>, b: set<Ptr>)
    requires a < b
    ensures |a| < |b|
  {
    assert b == a + (b - a) && b - a != {};
  }

  /** What the loop has found out about the children `f` that it has left behind, the last of which
      leads to `child`. */
  ghost predicate Seen(m: Mem, node: Ptr, above: set<Ptr>, f: Forest, child: Ptr)
    requires Container(m, node)
  {
    && ChainTo(m, node, m.nodes[node].tag == JSON_OBJECT, NULL, f, child)
    && Distinct(f) && Nodes(f) !! above + {node} && Utf8Texts(m, Texts(m, f))
    && m.nodes[node].head == (if f.Nil? then child else f.at)
    && (child != NULL ==> child in m.nodes && !Top(f, child) && m.nodes[child].prev == Last(f, NULL))
  }

  /** If there is a tree at all, `w` is what is left of its children. */
  ghost predicate Wanted(m: Mem, node: Ptr, f: Forest, child: Ptr, w: Forest)
    requires Container(m, node)
  {
    && Chain(m, node, m.nodes[node].tag == JSON_OBJECT, Last(f, NULL), w) && First(w) == child
    && Distinct(w) && node !in Nodes(w) && Utf8Texts(m, Texts(m, w))
    && (f.Tree? ==> m.nodes[node].head !in Nodes(w))
    && Last(w, Last(f, NULL)) == m.nodes[node].tail
  }

  lemma {:induction false} SnocLast(f: Forest, c: Ptr, below: Forest, b: Ptr)
    ensures Last(Snoc(f, c, below), b) == c && Snoc(f, c, below).Tree?
    ensures forall x :: Top(Snoc(f, c, below), x) <==> Top(f, x) || x == c
  {
    if f.Tree? {
      SnocLast(f.rest, c, below, f.at);
    }
  }

  lemma WantedChild(m: Mem, node: Ptr, f: Forest, child: Ptr, w: Forest, below: Forest)
    requires Container(m, node) && Wanted(m, node, f, child, w) && child != NULL
    requires m.nodes[node].head == if f.Nil? then child else f.at
    requires m.nodes[node].head != NULL
    ensures child in m.nodes && w.Tree? && GoodLinks(m, node, child) && WellFormed(m, child, w.kids)
    ensures Wanted(m, node, Snoc(f, child, below), m.nodes[child].next, w.rest)
  {
    ChainDomain(m, node, m.nodes[node].tag == JSON_OBJECT, Last(f, NULL), w);
    SnocLast(f, child, below, NULL);
    assert Texts(m, w) >= Texts(m, w.rest);
    WantedWhole(m, child, w);
    assert First(w.rest) != NULL ==> First(w.rest) in Nodes(w.rest);
    assert Chain(m, node, m.nodes[node].tag == JSON_OBJECT, child, w.rest);
  }

  lemma WantedWhole(m: Mem, child: Ptr, w: Forest)
    requires w.Tree? && w.at == child && Distinct(w) && Utf8Texts(m, Texts(m, w)) && Body(m, child, w.kids)
    ensures WellFormed(m, child, w.kids)
  {
    WellFormedParts(m, child, w.kids);
  }

  /** The next child is none of those seen before, nor below them. */
  lemma NewChild(m: Mem, node: Ptr, above: set<Ptr>, f: Forest, child: Ptr)
    requires Container(m, node) && Seen(m, node, above, f, child) && child != NULL && GoodLinks(m, node, child)
    ensures child !in Nodes(f) && child in m.nodes
  {
    Inside(m, node, m.nodes[node].tag == JSON_OBJECT, NULL, f, child);
  }

  lemma SeenChild(m: Mem, node: Ptr, above: set<Ptr>, f: Forest, child: Ptr, below: Forest)
    requires Container(m, node) && Seen(m, node, above, f, child) && child != NULL && GoodLinks(m, node, child)
    requires child !in above + {node}
    requires WellFormed(m, child, below) && Nodes(below) !! above + {node} + {child}
    ensures Seen(m, node, above, Snoc(f, child, below), m.nodes[child].next) == true
    ensures Nodes(f) < Nodes(Snoc(f, child, below)) <= m.nodes.Keys
  {
    var keyed := m.nodes[node].tag == JSON_OBJECT;
    NewChild(m, node, above, f, child);
    Inside(m, node, keyed, NULL, f, child);
    Apart(m, Nodes(f), node, child, below);
    BodyDomain(m, child, below);
    SnocForest(f, child, below);
    SnocLast(f, child, below, NULL);
    LastOf(f, NULL);
    WellFormedForest(m, f, child, below);
    ChainToNext(m, node, keyed, NULL, f, child, below);
    assert Seen(m, node, above, Snoc(f, child, below), m.nodes[child].next);
  }

  lemma LoopStart(m: Mem, node: Ptr, above: set<Ptr>, want: Forest)
    requires Container(m, node) && m.nodes[node].head != NULL && m.nodes[m.nodes[node].head].prev == NULL
    ensures Seen(m, node, above, Nil, m.nodes[node].head) == true
    ensures GoodKids(m, node, want) ==> Wanted(m, node, Nil, m.nodes[node].head, want) == true
  {
    if GoodKids(m, node, want) {
      ContainerChain(m, node, want);
    }
  }

  lemma LoopEnd(m: Mem, node: Ptr, above: set<Ptr>, f: Forest, w: Forest)
    requires Container(m, node) && Seen(m, node, above, f, NULL)
    ensures Last(f, NULL) == m.nodes[node].tail ==> GoodKids(m, node, f) && Nodes(f) !! above + {node}
    ensures Wanted(m, node, f, NULL, w) ==> Last(f, NULL) == m.nodes[node].tail
  {
    ChainToEnd(m, node, m.nodes[node].tag == JSON_OBJECT, NULL, f);
    if w.Tree? && Wanted(m, node, f, NULL, w) {
      ChainDomain(m, node, m.nodes[node].tag == JSON_OBJECT, Last(f, NULL), w);
    }
  }

  /** The loop from `child` on comes to the result `ok`. */
  ghost predicate LoopGives(m: Mem, node: Ptr, child: Ptr, last: Ptr, fuel: nat, ok: bool)
    requires Closed(m) && node in m.nodes && (child != NULL ==> child in m.nodes)
  {
    LoopRun(m, node, child, last, fuel) == Some(ok)
  }

  function Members(path: seq<Ptr>): set<Ptr> {
    set x | x in path
  }

  /** A path on which no node comes twice, from a node whose check does not come back to it. */
  ghost predicate Straight(m: Mem, path: seq<Ptr>)
    requires Closed(m)
  {
    && IsPath(m, path) && !Circular(m, path[0])
    && (forall i, j | 0 <= i < j < |path| :: path[i] != path[j])
  }

  lemma LongerPath(m: Mem, path: seq<Ptr>, child: Ptr)
    requires Closed(m) && IsPath(m, path) && LooksInto(m, path[|path| - 1], child)
    ensures IsPath(m, path + [child])
    ensures child == path[0] ==> Circular(m, path[0])
  {
    var longer := path + [child];
    forall k | 0 <= k < |longer| - 1
      ensures LooksInto(m, longer[k], longer[k + 1])
    {
      if k < |path| - 1 {
        assert LooksInto(m, path[k], path[k + 1]);
      }
    }
    assert longer[0] == path[0] && longer[|longer| - 1] == child;
  }

  lemma ParentsOnPath(m: Mem, path: seq<Ptr>)
    requires Closed(m) && IsPath(m, path)
    ensures forall k | 0 < k < |path| :: m.nodes[path[k]].parent == path[k - 1]
  {
    forall k | 0 < k < |path|
      ensures m.nodes[path[k]].parent == path[k - 1]
    {
      var j := k - 1;
      assert LooksInto(m, path[j], path[j + 1]);
    }
  }

  /** Since the parent of a child is tested first, the path goes on to a new node. */
  lemma Onward(m: Mem, path: seq<Ptr>, child: Ptr)
    requires Closed(m) && Straight(m, path) && LooksInto(m, path[|path| - 1], child)
    ensures child !in path && Straight(m, path + [child]) == true
  {
    LongerPath(m, path, child);
    ParentsOnPath(m, path);
    assert m.nodes[child].parent == path[|path| - 1];
    forall k | 0 <= k < |path|
      ensures path[k] != child
    {
      assert k > 0 ==> m.nodes[path[k]].parent == path[k - 1];
    }
    assert (path + [child])[0] == path[0];
    assert Straight(m, path + [child]);
  }

  lemma HeaderDecides(m: Mem, node: Ptr, want: Forest)
    requires Closed(m) && node in m.nodes && Header(m, node).Some?
    ensures Header(m, node) == Some(true) ==> WellFormed(m, node, Nil) == true
    ensures WellFormed(m, node, want) ==> Header(m, node) == Some(true)
  {
    WellFormedParts(m, node, Nil);
    WellFormedParts(m, node, want);
    if GoodKids(m, node, want) && IsContainer(m.nodes[node].tag) {
      ContainerChain(m, node, want);
    }
  }

  lemma HeaderPassed(m: Mem, node: Ptr)
    requires Closed(m) && node in m.nodes && Header(m, node).None?
    ensures Container(m, node) && m.nodes[node].head != NULL && m.nodes[m.nodes[node].head].prev == NULL
    ensures GoodKey(m, node) && GoodString(m, node)
  {
  }

  lemma MembersSnoc(path: seq<Ptr>, child: Ptr)
    ensures Members(path + [child]) == Members(path) + {child}
    ensures path != [] ==> path[|path| - 1] in Members(path)
  {
  }

  lemma PathInside(m: Mem, path: seq<Ptr>)
    requires Closed(m) && IsPath(m, path)
    ensures Members(path) <= m.nodes.Keys
  {
  }

  /** The check of the last node of the path ends. If it accepts, there is a tree, apart from the path;
      and if there is a tree at all, say `want`, it accepts. */
  lemma {:induction false} Decides(m: Mem, path: seq<Ptr>, want: Forest) returns (ok: bool, fuel: nat, kids: Forest)
    requires Closed(m) && Straight(m, path)
    ensures var node := path[|path| - 1];
      && CheckRun(m, node, fuel) == Some(ok)
      && (ok ==> WellFormed(m, node, kids) == true && Nodes(kids) !! Members(path))
      && (WellFormed(m, node, want) == true ==> ok)
    decreases |m.nodes.Keys - Members(path)|, 1, 0, 0
  {
    var node := path[|path| - 1];
    if Header(m, node).Some? {
      HeaderDecides(m, node, want);
      ok, fuel, kids := Header(m, node).value, 1, Nil;
    } else {
      HeaderPassed(m, node);
      WellFormedParts(m, node, want);
      MembersSnoc(path, NULL);
      LoopStart(m, node, Members(path), want);
      ok, fuel, kids := ChildrenDecide(m, path, [m.nodes[node].head], Nil, want);
      WellFormedParts(m, node, kids);
      fuel := fuel + 1;
    }
  }

  /** The same for the loop over the children, behind the children `f` and with `w` still wanted. */
  lemma {:induction false} ChildrenDecide(m: Mem, path: seq<Ptr>, cs: seq<Ptr>, f: Forest, w: Forest)
    returns (ok: bool, fuel: nat, kids: Forest)
    requires Closed(m) && Straight(m, path) && Walk(m, path[|path| - 1], cs)
    requires Container(m, path[|path| - 1]) && Seen(m, path[|path| - 1], Members(path), f, cs[|cs| - 1])
    requires m.nodes[path[|path| - 1]].head != NULL
    ensures var node, child := path[|path| - 1], cs[|cs| - 1];
      && (child != NULL ==> child in m.nodes)
      && LoopGives(m, node, child, Last(f, NULL), fuel, ok) == true
      && (ok ==> GoodKids(m, node, kids) == true && Nodes(kids) !! Members(path))
      && (Wanted(m, node, f, child, w) == true ==> ok)
    decreases |m.nodes.Keys - Members(path)|, 0, |m.nodes.Keys - Nodes(f)|, 2
  {
    var node, child := path[|path| - 1], cs[|cs| - 1];
    if child == NULL {
      LoopEnd(m, node, Members(path), f, w);
      ok, fuel, kids := Last(f, NULL) == m.nodes[node].tail, 1, f;
    } else {
      WantedLinks(m, node, Members(path), f, child, w);
      if GoodLinks(m, node, child) {
        ok, fuel, kids := ChildDecides(m, path, cs, f, w);
      } else {
        ok, fuel, kids := false, 1, Nil;
      }
    }
  }

  /** The loop looks into a child. */
  lemma {:induction false} ChildDecides(m: Mem, path: seq<Ptr>, cs: seq<Ptr>, f: Forest, w: Forest)
    returns (ok: bool, fuel: nat, kids: Forest)
    requires Closed(m) && Straight(m, path) && Walk(m, path[|path| - 1], cs)
    requires Container(m, path[|path| - 1]) && Seen(m, path[|path| - 1], Members(path), f, cs[|cs| - 1])
    requires cs[|cs| - 1] != NULL && GoodLinks(m, path[|path| - 1], cs[|cs| - 1])
    requires m.nodes[path[|path| - 1]].head != NULL
    ensures var node, child := path[|path| - 1], cs[|cs| - 1];
      && LoopGives(m, node, child, Last(f, NULL), fuel, ok) == true
      && (ok ==> GoodKids(m, node, kids) == true && Nodes(kids) !! Members(path))
      && (Wanted(m, node, f, child, w) == true ==> ok)
    decreases |m.nodes.Keys - Members(path)|, 0, |m.nodes.Keys - Nodes(f)|, 1
  {
    var node, child := path[|path| - 1], cs[|cs| - 1];
    WantedLinks(m, node, Members(path), f, child, w);
    assert LooksInto(m, node, child);
    Onward(m, path, child);
    MembersSnoc(path, child);
    PathInside(m, path + [child]);
    Bigger(Members(path), Members(path + [child]), m.nodes.Keys);
    var below: Forest;
    ok, fuel, below := Decides(m, path + [child], if w.Tree? then w.kids else Nil);
    kids := Nil;
    if ok {
      var rest: nat;
      ok, rest, kids := NextChildren(m, path, cs, f, w, below, fuel);
      fuel := LoopRunGoesOn(m, node, child, Last(f, NULL), fuel, rest, ok);
    } else {
      fuel := LoopRunStops(m, node, child, Last(f, NULL), fuel);
    }
  }

  lemma LoopRunStops(m: Mem, node: Ptr, child: Ptr, last: Ptr, fuel: nat) returns (all: nat)
    requires Closed(m) && node in m.nodes && child in m.nodes && GoodLinks(m, node, child)
    requires CheckRun(m, child, fuel) == Some(false)
    ensures LoopGives(m, node, child, last, all, false) == true
  {
    all := fuel + 1;
  }

  lemma LoopRunGoesOn(m: Mem, node: Ptr, child: Ptr, last: Ptr, fuel: nat, rest: nat, ok: bool)
    returns (all: nat)
    requires Closed(m) && node in m.nodes && child in m.nodes && GoodLinks(m, node, child)
    requires CheckRun(m, child, fuel) == Some(true) && LoopGives(m, node, m.nodes[child].next, child, rest, ok)
    ensures LoopGives(m, node, child, last, all, ok) == true
  {
    all := fuel + rest + 1;
    CheckRunMore(m, child, fuel, fuel + rest);
    LoopRunMore(m, node, m.nodes[child].next, child, rest, fuel + rest);
  }

  /** When a child has been accepted. */
  lemma {:induction false} NextChildren(m: Mem, path: seq<Ptr>, cs: seq<Ptr>, f: Forest, w: Forest, below: Forest, spent: nat)
    returns (ok: bool, fuel: nat, kids: Forest)
    requires Closed(m) && Straight(m, path) && Walk(m, path[|path| - 1], cs)
    requires Container(m, path[|path| - 1]) && Seen(m, path[|path| - 1], Members(path), f, cs[|cs| - 1])
    requires cs[|cs| - 1] != NULL && GoodLinks(m, path[|path| - 1], cs[|cs| - 1]) && cs[|cs| - 1] !in path
    requires m.nodes[path[|path| - 1]].head != NULL
    requires CheckRun(m, cs[|cs| - 1], spent) == Some(true)
    requires WellFormed(m, cs[|cs| - 1], below) && Nodes(below) !! Members(path) + {cs[|cs| - 1]}
    ensures var node, child := path[|path| - 1], cs[|cs| - 1];
      && LoopGives(m, node, m.nodes[child].next, child, fuel, ok) == true
      && (ok ==> GoodKids(m, node, kids) == true && Nodes(kids) !! Members(path))
      && (Wanted(m, node, f, child, w) == true ==> ok)
    decreases |m.nodes.Keys - Members(path)|, 0, |m.nodes.Keys - Nodes(f)|, 0
  {
    var node, child := path[|path| - 1], cs[|cs| - 1];
    var wanted := Wanted(m, node, f, child, w);
    MembersSnoc(path, NULL);
    SeenChild(m, node, Members(path), f, child, below);
    SnocLast(f, child, below, NULL);
    if wanted {
      WantedChild(m, node, f, child, w, below);
    }
    WalkOn(m, node, cs);
    Bigger(Nodes(f), Nodes(Snoc(f, child, below)), m.nodes.Keys);
    var on, all := cs + [m.nodes[child].next], Snoc(f, child, below);
    assert on[|on| - 1] == m.nodes[child].next && Last(all, NULL) == child;
    ok, fuel, kids := ChildrenDecide(m, path, on, all, if w.Tree? then w.rest else Nil);
  }

  lemma WalkOn(m: Mem, node: Ptr, cs: seq<Ptr>)
    requires Closed(m) && node in m.nodes && Walk(m, node, cs)
    requires cs[|cs| - 1] in m.nodes && GoodLinks(m, node, cs[|cs| - 1]) && Accepts(m, cs[|cs| - 1])
    ensures Walk(m, node, cs + [m.nodes[cs[|cs| - 1]].next])
  {
  }

  lemma WantedLinks(m: Mem, node: Ptr, above: set<Ptr>, f: Forest, child: Ptr, w: Forest)
    requires Container(m, node) && Seen(m, node, above, f, child) && child != NULL && m.nodes[node].head != NULL
    ensures Wanted(m, node, f, child, w) == true ==> GoodLinks(m, node, child) && w.Tree? && WellFormed(m, child, w.kids) == true
  {
    if Wanted(m, node, f, child, w) {
      WantedChild(m, node, f, child, w, Nil);
      assert WellFormed(m, child, w.kids);
    }
  }

  /** A tree is accepted, wherever else it is linked to. */
  lemma {:induction false} TreeRuns(m: Mem, node: Ptr, kids: Forest) returns (fuel: nat)
    requires Closed(m) && WellFormed(m, node, kids)
    ensures CheckRun(m, node, fuel) == Some(true)
    decreases kids, 1
  {
    WellFormedParts(m, node, kids);
    if Header(m, node).Some? {
      HeaderDecides(m, node, kids);
      fuel := 1;
    } else {
      LoopStart(m, node, {}, kids);
      ContainerChain(m, node, kids);
      fuel := ForestRuns(m, node, Nil, kids);
      fuel := fuel + 1;
    }
  }

  lemma {:induction false} ForestRuns(m: Mem, node: Ptr, f: Forest, w: Forest) returns (fuel: nat)
    requires Container(m, node) && Wanted(m, node, f, First(w), w) && m.nodes[node].head != NULL
    requires m.nodes[node].head == (if f.Nil? then First(w) else f.at)
    ensures w.Tree? ==> First(w) in m.nodes && First(w) != NULL
    ensures LoopGives(m, node, First(w), Last(f, NULL), fuel, true) == true
    decreases w, 0
  {
    ChainDomain(m, node, m.nodes[node].tag == JSON_OBJECT, Last(f, NULL), w);
    if w.Nil? {
      fuel := 1;
    } else {
      WantedChild(m, node, f, w.at, w, Nil);
      SnocLast(f, w.at, Nil, NULL);
      SnocForest(f, w.at, Nil);
      var one := TreeRuns(m, w.at, w.kids);
      var rest := ForestRuns(m, node, Snoc(f, w.at, Nil), w.rest);
      fuel := LoopRunGoesOn(m, node, w.at, Last(f, NULL), one, rest, true);
    }
  }

  // The main results

  /** On every memory, from every node: the check comes to an end exactly if it does not come to look
      into the node itself again. */
  lemma EndsExactly(m: Mem, node: Ptr)
    requires Closed(m) && node in m.nodes
    ensures Ends(m, node) <==> !Circular(m, node)
  {
    if Circular(m, node) {
      var path :| |path| >= 2 && IsPath(m, path) && path[0] == node && path[|path| - 1] == node;
      forall fuel: nat
        ensures CheckRun(m, node, fuel).None?
      {
        CircleGoesOn(m, node, path, fuel);
      }
    } else {
      var ok, fuel, kids := Decides(m, [node], Nil);
      assert [node][|[node]| - 1] == node;
    }
  }

  /** And it accepts exactly the roots of trees. */
  lemma AcceptsExactly(m: Mem, node: Ptr)
    requires Closed(m) && node in m.nodes
    ensures Accepts(m, node) <==> exists kids :: WellFormed(m, node, kids)
  {
    if Accepts(m, node) {
      var more: nat :| CheckRun(m, node, more) == Some(true);
      assert Ends(m, node);
      EndsExactly(m, node);
      var ok, fuel, kids := Decides(m, [node], Nil);
      assert [node][|[node]| - 1] == node;
      CheckRunMore(m, node, more, more + fuel);
      CheckRunMore(m, node, fuel, more + fuel);
    }
    if kids :| WellFormed(m, node, kids) {
      var fuel := TreeRuns(m, node, kids);
    }
  }

  // A condition that needs no run

  /** The ancestor of the node that is `k` steps up, as far as parent pointers lead to nodes. */
  function Climb(m: Mem, node: Ptr, k: nat): Option<Ptr>
    decreases k
  {
    if k == 0 then Some(node)
    else if node in m.nodes && m.nodes[node].parent in m.nodes then Climb(m, m.nodes[node].parent, k - 1)
    else None
  }

  ghost predicate OwnAncestor(m: Mem, node: Ptr) {
    exists k: nat :: k > 0 && Climb(m, node, k) == Some(node)
  }

  lemma {:induction false} ClimbPath(m: Mem, path: seq<Ptr>, k: nat)
    requires Closed(m) && IsPath(m, path) && k < |path|
    ensures Climb(m, path[k], k) == Some(path[0])
  {
    if k > 0 {
      ParentsOnPath(m, path);
      ClimbPath(m, path, k - 1);
    }
  }

  /** A node that is not among its own ancestors, so in particular a node without a parent, is not come
      back to. */
  lemma NoCircle(m: Mem, node: Ptr)
    requires Closed(m) && node in m.nodes && !OwnAncestor(m, node)
    ensures Ends(m, node) && !Circular(m, node)
  {
    CircleClimbs(m, node);
    EndsExactly(m, node);
  }

  lemma CircleClimbs(m: Mem, node: Ptr)
    requires Closed(m)
    ensures Circular(m, node) ==> OwnAncestor(m, node)
  {
    if Circular(m, node) {
      var path :| |path| >= 2 && IsPath(m, path) && path[0] == node && path[|path| - 1] == node;
      ClimbPath(m, path, |path| - 1);
    }
  }

  /** Two arrays that are each other's only child are looked into for ever. */
  lemma CycleNeverEnds(fuel: nat)
    ensures var a := Node(2, 0, 0, 0, JSON_ARRAY, false, 0, [], 2, 2);
      var b := Node(1, 0, 0, 0, JSON_ARRAY, false, 0, [], 1, 1);
      var m := Mem(map[1 := a, 2 := b], map[]);
      Closed(m) && Circular(m, 1) && CheckRun(m, 1, fuel) == None
  {
    var a := Node(2, 0, 0, 0, JSON_ARRAY, false, 0, [], 2, 2);
    var b := Node(1, 0, 0, 0, JSON_ARRAY, false, 0, [], 1, 1);
    var m := Mem(map[1 := a, 2 := b], map[]);
    assert m.nodes.Keys == {1, 2} && m.nodes[1] == a && m.nodes[2] == b;
    assert Closed(m);
    OneStep(m, 1, 2);
    OneStep(m, 2, 1);
    var path: seq<Ptr> := [1, 2, 1];
    assert IsPath(m, path) by {
      assert LooksInto(m, path[0], path[1]) && LooksInto(m, path[1], path[2]);
    }
    CircleGoesOn(m, 1, path, fuel);
  }

  lemma OneStep(m: Mem, node: Ptr, child: Ptr)
    requires Closed(m) && node in m.nodes && child in m.nodes && GoodLinks(m, node, child)
    requires Header(m, node).None? && m.nodes[node].head == child
    ensures LooksInto(m, node, child)
  {
    var cs := [child];
    assert Walk(m, node, cs) && cs[|cs| - 1] == child;
  }
}
