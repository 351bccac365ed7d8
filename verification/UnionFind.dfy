/** The union-find with path halving that both split reconcilers build over
    split-group labels: the smaller root label always becomes the parent. */
module UnionFind {
  import opened Labels
  import opened Connectivity

  type Forest = map<string, string>

  /** The parent of `g` is in the forest and is not a larger label. */
  ghost predicate PointsDown(p: Forest, g: string)
    requires g in p
  {
    p[g] in p && Le(p[g], g)
  }

  ghost predicate Ordered(p: Forest) {
    forall g {:trigger PointsDown(p, g)} :: g in p ==> PointsDown(p, g)
  }

  ghost function Below(p: Forest, g: string): set<string> {
    set h | h in p && Less(h, g)
  }

  lemma BelowShrinks(p: Forest, a: string, b: string)
    requires a in p && Less(a, b)
    ensures Below(p, a) < Below(p, b)
  {
    forall h | h in Below(p, a) ensures h in Below(p, b) { LessTransitive(h, a, b); }
    LessIrreflexive(a);
    assert a in Below(p, b) && a !in Below(p, a);
  }

  /** The label a chain of parent pointers ends in. */
  ghost function Root(p: Forest, g: string): (r: string)
    requires Ordered(p) && g in p
    ensures r in p && p[r] == r && Le(r, g)
    decreases Below(p, g)
  {
    assert PointsDown(p, g);
    if p[g] == g then g else
      BelowShrinks(p, p[g], g);
      var r := Root(p, p[g]);
      LeTotalOrder(r, p[g], g);
      r
  }

  lemma {:induction false} AddingRootKeepsRoots(p: Forest, n: string, h: string)
    requires Ordered(p) && n !in p && h in p && Ordered(p[n := n])
    ensures Root(p[n := n], h) == Root(p, h)
    decreases Below(p, h)
  {
    assert PointsDown(p, h) && PointsDown(p[n := n], h);
    if p[h] != h {
      BelowShrinks(p, p[h], h);
      AddingRootKeepsRoots(p, n, p[h]);
    }
  }

  /** `parents[g] = parents[parents[g]]` */
  ghost function Halved(p: Forest, g: string): Forest
    requires Ordered(p) && g in p
  {
    assert PointsDown(p, g);
    p[g := p[p[g]]]
  }

  /** One halving step shortens a chain without changing where any chain ends. */
  lemma {:induction false} HalvingKeepsRoots(p: Forest, g: string, h: string)
    requires Ordered(p) && g in p && h in p && Ordered(Halved(p, g))
    ensures Root(Halved(p, g), h) == Root(p, h)
    decreases Below(p, h)
  {
    assert PointsDown(p, h) && PointsDown(p, p[h]);
    if p[h] != h {
      BelowShrinks(p, p[h], h);
      if h == g {
        if p[p[g]] != p[g] { BelowShrinks(p, p[p[g]], p[g]); }
        HalvingKeepsRoots(p, g, p[p[g]]);
        LessIrreflexive(g);
      } else {
        HalvingKeepsRoots(p, g, p[h]);
      }
    }
  }

  lemma HalvingKeepsOrder(p: Forest, g: string)
    requires Ordered(p) && g in p
    ensures Ordered(Halved(p, g))
  {
    assert PointsDown(p, g) && PointsDown(p, p[g]);
    var q := Halved(p, g);
    forall h | h in q ensures PointsDown(q, h) {
      assert PointsDown(p, h);
      LeTotalOrder(p[p[g]], p[g], g);
    }
  }

  /** Hanging one root under another moves exactly the chains that ended in it. */
  lemma {:induction false} HangingMovesOneRoot(p: Forest, low: string, high: string, h: string)
    requires Ordered(p) && low in p && high in p && p[low] == low && p[high] == high
    requires h in p && Less(low, high) && Ordered(p[high := low])
    ensures Root(p[high := low], h) == if Root(p, h) == high then low else Root(p, h)
    decreases Below(p, h)
  {
    LessIrreflexive(low);
    assert PointsDown(p, h);
    if p[h] != h {
      BelowShrinks(p, p[h], h);
      HangingMovesOneRoot(p, low, high, p[h]);
    } else if h == high {
      assert Root(p[high := low], low) == low;
    }
  }

  /** No label's root changes between two forests; the second may hold more labels. */
  ghost predicate SameRoots(p: Forest, q: Forest) {
    && Ordered(p) && Ordered(q)
    && p.Keys <= q.Keys
    && forall g {:trigger Root(q, g)} {:trigger Root(p, g)} :: g in p ==> Root(q, g) == Root(p, g)
  }

  lemma SameRootsCompose(p: Forest, q: Forest, r: Forest)
    requires SameRoots(p, q) && SameRoots(q, r)
    ensures SameRoots(p, r)
  {
    forall g | g in p ensures Root(r, g) == Root(p, g) { assert Root(q, g) == Root(p, g); }
  }

  /** The forest spans the links: labels share a root exactly when links connect them. */
  ghost predicate Represents(p: Forest, links: Links) {
    && Ordered(p)
    && (forall g {:trigger Root(p, g)} :: g in p ==> Connected(links, g, Root(p, g)))
    && (forall l :: l in links ==> l.0 in p && l.1 in p && Root(p, l.0) == Root(p, l.1))
  }

  lemma RootsDecideConnectivity(p: Forest, links: Links, a: string, b: string)
    requires Represents(p, links) && a in p
    ensures b in p ==> (Root(p, a) == Root(p, b) <==> Connected(links, a, b))
    ensures Connected(links, a, b) ==> b in p && Le(Root(p, a), b)
  {
    if Connected(links, a, b) {
      ConstantOnComponents(links, (g: string) => g in p, a, b);
      ConstantOnComponents(links, (g: string) => if g in p then Root(p, g) else g, a, b);
    }
    if b in p && Root(p, a) == Root(p, b) {
      ConnectedSymmetric(links, b, Root(p, b));
      ConnectedTransitive(links, a, Root(p, a), b);
    }
  }

  lemma SetDefaultStep(p: Forest, links: Links, n: string)
    requires Represents(p, links) && n !in p
    ensures Represents(p[n := n], links) && SameRoots(p, p[n := n])
  {
    LeTotalOrder(n, n, n);
    var q := p[n := n];
    forall h | h in q ensures PointsDown(q, h) { if h != n { assert PointsDown(p, h); } }
    forall g | g in p ensures Root(q, g) == Root(p, g) { AddingRootKeepsRoots(p, n, g); }
    ConnectedToSelf(links, n);
  }

  lemma HalvingStep(p: Forest, links: Links, g: string)
    requires Represents(p, links) && g in p && p[g] != g
    ensures var q := Halved(p, g);
      && Represents(q, links) && SameRoots(p, q)
      && q[g] in p && Root(q, q[g]) == Root(p, g) && Less(q[g], g)
  {
    HalvingKeepsOrder(p, g);
    assert PointsDown(p, g) && PointsDown(p, p[g]);
    var q := Halved(p, g);
    forall h | h in p ensures Root(q, h) == Root(p, h) { HalvingKeepsRoots(p, g, h); }
    LeTotalOrder(p[p[g]], p[g], g);
  }

  lemma HangingStep(p: Forest, low: string, high: string)
    requires Ordered(p) && low in p && high in p && p[low] == low && p[high] == high && Less(low, high)
    ensures var q := p[high := low];
      && Ordered(q)
      && forall g {:trigger Root(q, g)} :: g in p ==> Root(q, g) == if Root(p, g) == high then low else Root(p, g)
  {
    var q := p[high := low];
    forall h | h in q ensures PointsDown(q, h) { assert PointsDown(p, h); }
    forall g | g in p ensures Root(q, g) == if Root(p, g) == high then low else Root(p, g) {
      HangingMovesOneRoot(p, low, high, g);
    }
  }

  /** Hanging the larger root under the smaller one adds exactly the new link. */
  lemma UnionStep(p: Forest, links: Links, left: string, right: string, low: string, high: string)
    requires Represents(p, links) && left in p && right in p && Less(low, high)
    requires (low == Root(p, left) && high == Root(p, right)) || (low == Root(p, right) && high == Root(p, left))
    ensures Represents(p[high := low], links + {(left, right)})
  {
    HangingStep(p, low, high);
    var q, more := p[high := low], links + {(left, right)};
    forall g | g in q ensures Connected(more, g, Root(q, g)) {
      NewLinkConnectsRoots(p, links, left, right, g);
    }
    forall l | l in more ensures l.0 in q && l.1 in q && Root(q, l.0) == Root(q, l.1) {
      if l !in links { assert l == (left, right); }
    }
  }

  /** After the new link, both old roots are connected to every member of either component. */
  lemma NewLinkConnectsRoots(p: Forest, links: Links, left: string, right: string, g: string)
    requires Represents(p, links) && left in p && right in p && g in p
    ensures var more := links + {(left, right)};
      && Connected(more, g, Root(p, g))
      && (Root(p, g) == Root(p, left) ==> Connected(more, g, Root(p, right)))
      && (Root(p, g) == Root(p, right) ==> Connected(more, g, Root(p, left)))
  {
    var more := links + {(left, right)};
    ConnectedMonotone(links, more, g, Root(p, g));
    if Root(p, g) == Root(p, left) {
      RootThroughLink(p, links, more, g, left, right);
    }
    if Root(p, g) == Root(p, right) {
      RootThroughLink(p, links, more, g, right, left);
    }
  }

  lemma RootThroughLink(p: Forest, links: Links, more: Links, g: string, near: string, far: string)
    requires Represents(p, links) && links <= more && Adjacent(more, near, far)
    requires g in p && near in p && far in p && Root(p, g) == Root(p, near)
    ensures Connected(more, g, Root(p, far))
  {
    RootsDecideConnectivity(p, links, g, near);
    ConnectedMonotone(links, more, g, near);
    ConnectedByLink(more, near, far);
    ConnectedMonotone(links, more, far, Root(p, far));
    ConnectedTransitive(more, g, near, far);
    ConnectedTransitive(more, g, far, Root(p, far));
  }

  /** A link inside one component changes nothing. */
  lemma RedundantLink(p: Forest, links: Links, left: string, right: string)
    requires Represents(p, links) && left in p && right in p && Root(p, left) == Root(p, right)
    ensures Represents(p, links + {(left, right)})
  {
    var more := links + {(left, right)};
    forall g | g in p ensures Connected(more, g, Root(p, g)) { ConnectedMonotone(links, more, g, Root(p, g)); }
    forall l | l in more ensures l.0 in p && l.1 in p && Root(p, l.0) == Root(p, l.1) {
      if l !in links { assert l == (left, right); }
    }
  }

  /** What joining two roots makes of the forest. */
  function Joined(p: Forest, a: string, b: string): Forest {
    if a == b then p else p[Max(a, b) := Min(a, b)]
  }

  lemma JoinStep(p: Forest, links: Links, left: string, right: string)
    requires Represents(p, links) && left in p && right in p
    ensures var q := Joined(p, Root(p, left), Root(p, right));
      Represents(q, links + {(left, right)}) && q.Keys == p.Keys
  {
    assert Ordered(p);
    hide Represents, Ordered, Root, Less;
    var a, b := Root(p, left), Root(p, right);
    if a != b {
      LessTotal(a, b);
      UnionStep(p, links, left, right, Min(a, b), Max(a, b));
    } else {
      RedundantLink(p, links, left, right);
    }
  }

  class Components {
    var parents: Forest
    ghost var links: Links

    ghost predicate Valid()
      reads this
    {
      Represents(parents, links)
    }

    constructor ()
      ensures Valid() && parents == map[] && links == {}
    {
      parents, links := map[], {};
    }

    method Find(group: string) returns (root: string)
      requires Valid()
      modifies this`parents
      ensures Valid() && SameRoots(old(parents), parents)
      ensures parents.Keys == old(parents).Keys + {group}
      ensures root == Root(parents, group)
    {
      SetDefault(group);
      root := group;
      ghost var start := parents;
      while parents[root] != root
        invariant Represents(parents, links) && SameRoots(start, parents)
        invariant parents.Keys == start.Keys && root in parents
        invariant Root(parents, root) == Root(start, group)
        decreases Below(start, root)
      {
        ghost var before, child := parents, root;
        HalvingStep(before, links, child);
        assert PointsDown(parents, root);
        parents := parents[root := parents[parents[root]]];
        root := parents[root];
        BelowShrinks(start, root, child);
      }
    }

    method SetDefault(group: string)
      requires Valid()
      modifies this`parents
      ensures Valid() && SameRoots(old(parents), parents)
      ensures parents == if group in old(parents) then old(parents) else old(parents)[group := group]
    {
      if group !in parents {
        SetDefaultStep(parents, links, group);
        parents := parents[group := group];
      }
    }

    method Union(left: string, right: string)
      requires Valid()
      modifies this
      ensures Valid()
      ensures parents.Keys == old(parents).Keys + {left, right}
      ensures links == old(links) + {(left, right)}
    {
      var leftRoot := Find(left);
      var rightRoot := Find(right);
      JoinStep(parents, links, left, right);
      hide Represents, Root;
      if leftRoot != rightRoot {
        parents := parents[Max(leftRoot, rightRoot) := Min(leftRoot, rightRoot)];
      }
      links := links + {(left, right)};
    }
  }
}
