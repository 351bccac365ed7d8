/** The BK-tree over perceptual hashes that near-duplicate detection searches,
    first as a value and then as the mutable `BKNode` it is built from. */
module BkTree {
  import opened Hamming
  import opened Outcomes

  datatype Entry = Entry(phash: nat, sha256: string, split: string)

  /** Children are kept in the order the edges were first used, as a dict keeps its keys. */
  datatype Tree = Node(entry: Entry, children: seq<Child>)
  datatype Child = Child(edge: nat, tree: Tree)

  function Insert(t: Tree, e: Entry): Tree
    decreases t
  {
    t.(children := InsertBelow(t.children, Distance(t.entry.phash, e.phash), e))
  }

  function InsertBelow(cs: seq<Child>, edge: nat, e: Entry): seq<Child>
    decreases cs
  {
    if cs == [] then [Child(edge, Node(e, []))]
    else if cs[0].edge == edge then
      assert cs[0].tree < cs[0];
      [Child(edge, Insert(cs[0].tree, e))] + cs[1..]
    else [cs[0]] + InsertBelow(cs[1..], edge, e)
  }

  function Search(t: Tree, v: nat, radius: int): Option<Entry>
    decreases t
  {
    var d := Distance(t.entry.phash, v);
    if d <= radius then Some(t.entry)
    else SearchBelow(t.children, if d - radius > 0 then d - radius else 0, d + radius, v, radius)
  }

  function SearchBelow(cs: seq<Child>, lower: int, upper: int, v: nat, radius: int): Option<Entry>
    decreases cs
  {
    if cs == [] then None
    else
      assert cs[0].tree < cs[0];
      var here := if lower <= cs[0].edge <= upper then Search(cs[0].tree, v, radius) else None;
      if here.Some? then here else SearchBelow(cs[1..], lower, upper, v, radius)
  }

  function Build(es: seq<Entry>): Option<Tree> {
    if es == [] then None
    else
      match Build(es[..|es| - 1])
      case None => Some(Node(es[|es| - 1], []))
      case Some(t) => Some(Insert(t, es[|es| - 1]))
  }

  ghost function Entries(t: Tree): set<Entry>
    decreases t
  {
    {t.entry} + EntriesBelow(t.children)
  }

  ghost function EntriesBelow(cs: seq<Child>): set<Entry>
    decreases cs
  {
    if cs == [] then {} else
      assert cs[0].tree < cs[0];
      Entries(cs[0].tree) + EntriesBelow(cs[1..])
  }

  /** Every entry below an edge lies at exactly the edge's distance from the node above it. */
  ghost predicate WellFormed(t: Tree)
    decreases t
  {
    WellFormedBelow(t.entry.phash, t.children)
  }

  ghost predicate WellFormedBelow(phash: nat, cs: seq<Child>)
    decreases cs
  {
    cs == [] ||
    (assert cs[0].tree < cs[0];
     && WellFormed(cs[0].tree)
     && (forall e :: e in Entries(cs[0].tree) ==> Distance(phash, e.phash) == cs[0].edge)
     && WellFormedBelow(phash, cs[1..]))
  }

  lemma {:induction false} InsertAddsEntry(t: Tree, e: Entry)
    ensures Entries(Insert(t, e)) == Entries(t) + {e}
    decreases t
  {
    InsertBelowAddsEntry(t.children, Distance(t.entry.phash, e.phash), e);
  }

  lemma {:induction false} InsertBelowAddsEntry(cs: seq<Child>, edge: nat, e: Entry)
    ensures EntriesBelow(InsertBelow(cs, edge, e)) == EntriesBelow(cs) + {e}
    decreases cs
  {
    var r := InsertBelow(cs, edge, e);
    if cs == [] {
      assert r[1..] == [];
    } else if cs[0].edge == edge {
      assert r[1..] == cs[1..];
      assert cs[0].tree < cs[0];
      InsertAddsEntry(cs[0].tree, e);
    } else {
      assert r[1..] == InsertBelow(cs[1..], edge, e);
      InsertBelowAddsEntry(cs[1..], edge, e);
    }
  }

  lemma {:induction false} InsertKeepsWellFormed(t: Tree, e: Entry)
    requires WellFormed(t)
    ensures WellFormed(Insert(t, e))
    decreases t
  {
    InsertBelowKeepsWellFormed(t.entry.phash, t.children, e);
  }

  lemma {:induction false} InsertBelowKeepsWellFormed(phash: nat, cs: seq<Child>, e: Entry)
    requires WellFormedBelow(phash, cs)
    ensures WellFormedBelow(phash, InsertBelow(cs, Distance(phash, e.phash), e))
    decreases cs
  {
    var edge := Distance(phash, e.phash);
    var r := InsertBelow(cs, edge, e);
    if cs == [] {
      assert r[1..] == [] && Entries(r[0].tree) == {e};
    } else if cs[0].edge == edge {
      assert r[1..] == cs[1..];
      InsertAddsEntry(cs[0].tree, e);
      assert cs[0].tree < cs[0];
      InsertKeepsWellFormed(cs[0].tree, e);
    } else {
      assert r[1..] == InsertBelow(cs[1..], edge, e);
      InsertBelowKeepsWellFormed(phash, cs[1..], e);
    }
  }

  /** The index agrees with a linear scan: it finds something exactly when some entry is
      within the radius, and what it finds is such an entry. */
  lemma {:induction false} SearchIsExact(t: Tree, v: nat, radius: int)
    requires WellFormed(t)
    ensures Search(t, v, radius).None? <==> forall e :: e in Entries(t) ==> Distance(v, e.phash) > radius
    ensures var r := Search(t, v, radius);
      r.Some? ==> r.value in Entries(t) && Distance(v, r.value.phash) <= radius
    decreases t
  {
    var d := Distance(t.entry.phash, v);
    DistanceSymmetric(t.entry.phash, v);
    if d > radius {
      SearchBelowIsExact(t.entry.phash, t.children, v, radius);
    }
  }

  lemma {:induction false} SearchBelowIsExact(phash: nat, cs: seq<Child>, v: nat, radius: int)
    requires WellFormedBelow(phash, cs) && Distance(phash, v) > radius
    ensures var d := Distance(phash, v);
      var r := SearchBelow(cs, if d - radius > 0 then d - radius else 0, d + radius, v, radius);
      && (r.None? <==> forall e :: e in EntriesBelow(cs) ==> Distance(v, e.phash) > radius)
      && (r.Some? ==> r.value in EntriesBelow(cs) && Distance(v, r.value.phash) <= radius)
    decreases cs
  {
    if cs != [] {
      assert cs[0].tree < cs[0];
      SearchIsExact(cs[0].tree, v, radius);
      SearchBelowIsExact(phash, cs[1..], v, radius);
      forall e | e in Entries(cs[0].tree) && Distance(v, e.phash) <= radius
        ensures Distance(phash, v) - radius <= cs[0].edge <= Distance(phash, v) + radius
      {
        EdgeWithinBand(phash, v, e.phash, radius);
      }
    }
  }

  /** Why pruning by edge is safe: the triangle inequality, both ways round. */
  lemma EdgeWithinBand(phash: nat, v: nat, w: nat, radius: int)
    requires Distance(v, w) <= radius
    ensures Distance(phash, v) - radius <= Distance(phash, w) <= Distance(phash, v) + radius
  {
    DistanceTriangle(phash, v, w);
    DistanceTriangle(phash, w, v);
    DistanceSymmetric(v, w);
  }

  /** The tree built from a list holds exactly the list's entries. */
  ghost predicate Holds(t: Tree, es: seq<Entry>) {
    WellFormed(t) && forall e :: e in Entries(t) <==> e in es
  }

  lemma {:induction false} BuildHoldsEntries(es: seq<Entry>)
    ensures Build(es).None? <==> es == []
    ensures es != [] ==> Holds(Build(es).value, es)
  {
    if es != [] {
      var front, last := es[..|es| - 1], es[|es| - 1];
      BuildHoldsEntries(front);
      if front != [] {
        InsertHolds(Build(front).value, front, last, es);
      } else {
        assert es == [last];
      }
    }
  }

  lemma InsertHolds(t: Tree, es: seq<Entry>, e: Entry, more: seq<Entry>)
    requires Holds(t, es) && more == es + [e]
    ensures Holds(Insert(t, e), more)
  {
    InsertAddsEntry(t, e);
    InsertKeepsWellFormed(t, e);
    assert forall x :: x in more <==> x in es || x == e;
  }

  lemma {:induction false} InsertBelowExistingEdge(cs: seq<Child>, k: nat, e: Entry)
    requires k < |cs| && forall i :: 0 <= i < k ==> cs[i].edge != cs[k].edge
    ensures InsertBelow(cs, cs[k].edge, e) == cs[k := Child(cs[k].edge, Insert(cs[k].tree, e))]
  {
    if k > 0 {
      assert cs[1..][k - 1] == cs[k];
      InsertBelowExistingEdge(cs[1..], k - 1, e);
    }
  }

  lemma {:induction false} InsertBelowNewEdge(cs: seq<Child>, edge: nat, e: Entry)
    requires forall i :: 0 <= i < |cs| ==> cs[i].edge != edge
    ensures InsertBelow(cs, edge, e) == cs + [Child(edge, Node(e, []))]
  {
    if cs != [] {
      InsertBelowNewEdge(cs[1..], edge, e);
    }
  }

  lemma SearchNext(cs: seq<Child>, i: nat, lower: int, upper: int, v: nat, radius: int)
    requires i < |cs|
    ensures var here := if lower <= cs[i].edge <= upper then Search(cs[i].tree, v, radius) else None;
      SearchBelow(cs[i..], lower, upper, v, radius)
        == if here.Some? then here else SearchBelow(cs[i + 1..], lower, upper, v, radius)
  {
    assert cs[i..][1..] == cs[i + 1..];
  }

  lemma SearchEnds(cs: seq<Child>, lower: int, upper: int, v: nat, radius: int)
    ensures cs[0..] == cs && SearchBelow(cs[|cs|..], lower, upper, v, radius) == None
  {
  }

  class BKNode {
    const value: nat
    const sha256: string
    const split: string
    var children: map<nat, BKNode>
    var edges: seq<nat>  // the keys of `children` in insertion order
    ghost var model: Tree
    ghost var Repr: set<object>

    ghost predicate Valid()
      reads this, Repr
      ensures Valid() ==> this in Repr
      decreases Repr
    {
      && this in Repr && Shaped()
      && (forall i :: 0 <= i < |edges| ==> Owns(children[edges[i]], model.children[i].tree))
      && (forall i, j :: 0 <= i < j < |edges| ==> children[edges[i]].Repr !! children[edges[j]].Repr)
    }

    /** The node's own fields agree with each other. */
    ghost predicate Shaped()
      reads this
    {
      && model.entry == Entry(value, sha256, split)
      && |model.children| == |edges|
      && (forall i, j :: 0 <= i < j < |edges| ==> edges[i] != edges[j])
      && (forall d :: d in children ==> d in edges)
      && (forall i :: 0 <= i < |edges| ==> edges[i] in children && model.children[i].edge == edges[i])
    }

    /** `child` is a valid subtree of this node that represents `t`. */
    ghost predicate Owns(child: BKNode, t: Tree)
      requires this in Repr
      reads this, Repr
      decreases Repr, 0
    {
      && child in Repr && child.Repr <= Repr && this !in child.Repr
      && child.Valid() && child.model == t
    }

    constructor (value: nat, sha256: string, split: string)
      ensures Valid() && fresh(Repr)
      ensures model == Node(Entry(value, sha256, split), [])
    {
      this.value, this.sha256, this.split := value, sha256, split;
      children, edges := map[], [];
      model := Node(Entry(value, sha256, split), []);
      Repr := {this};
    }

    method Add(value: nat, sha256: string, split: string)
      requires Valid()
      modifies Repr
      ensures Valid() && fresh(Repr - old(Repr))
      ensures model == Insert(old(model), Entry(value, sha256, split))
      decreases Repr, 1
    {
      var distance := Distance(this.value, value);
      if distance !in children {
        InsertBelowNewEdge(model.children, distance, Entry(value, sha256, split));
        var child := new BKNode(value, sha256, split);
        AddLeaf(distance, child);
      } else {
        ghost var k :| 0 <= k < |edges| && edges[k] == distance;
        InsertBelowExistingEdge(model.children, k, Entry(value, sha256, split));
        AddUnder(k, distance, value, sha256, split);
      }
    }

    method AddLeaf(distance: nat, child: BKNode)
      requires Valid() && distance !in children
      requires child.Valid() && child.Repr !! Repr
      modifies this
      ensures Valid() && Repr == old(Repr) + child.Repr
      ensures model == old(model).(children := old(model.children) + [Child(distance, child.model)])
    {
      Attach(distance, child);
      forall i | 0 <= i < |edges| - 1
        ensures Owns(children[edges[i]], model.children[i].tree)
        ensures children[edges[i]].Repr == old(children[edges[i]].Repr) && children[edges[i]].Repr <= old(Repr)
      {
        assert old(Owns(children[edges[i]], model.children[i].tree));
      }
    }

    method Attach(distance: nat, child: BKNode)
      requires Shaped() && distance !in children && child != this
      modifies this
      ensures Shaped() && edges == old(edges) + [distance] && children == old(children)[distance := child]
      ensures Repr == old(Repr) + child.Repr
      ensures model == old(model).(children := old(model.children) + [Child(distance, child.model)])
    {
      children, edges := children[distance := child], edges + [distance];
      model := model.(children := model.children + [Child(distance, child.model)]);
      Repr := Repr + child.Repr;
    }

    /** Valid, but for the subtree on edge `k`, which has outgrown what this node recorded. */
    ghost predicate OpenAt(k: nat)
      reads *
    {
      && this in Repr && Shaped()
      && (forall i :: 0 <= i < |edges| && i != k ==> Owns(children[edges[i]], model.children[i].tree))
      && k < |edges| && children[edges[k]].Valid() && this !in children[edges[k]].Repr
      && (forall i, j :: 0 <= i < j < |edges| ==> children[edges[i]].Repr !! children[edges[j]].Repr)
    }

    method Absorb(ghost k: nat)
      requires OpenAt(k)
      modifies this`model, this`Repr
      ensures Valid() && Repr == old(Repr + children[edges[k]].Repr)
      ensures model == old(model.(children := model.children[k := Child(edges[k], children[edges[k]].model)]))
    {
      model := model.(children := model.children[k := Child(edges[k], children[edges[k]].model)]);
      Repr := Repr + children[edges[k]].Repr;
      forall i | 0 <= i < |edges| ensures Owns(children[edges[i]], model.children[i].tree) {
        if i != k { assert old(Owns(children[edges[i]], model.children[i].tree)); }
      }
    }

    method AddUnder(ghost k: nat, distance: nat, value: nat, sha256: string, split: string)
      requires Valid() && k < |edges| && edges[k] == distance
      modifies Repr
      ensures Valid() && fresh(Repr - old(Repr))
      ensures var e := Entry(value, sha256, split);
        model == old(model).(children :=
          old(model.children)[k := Child(distance, Insert(old(model.children[k].tree), e))])
      decreases Repr, 0
    {
      var child := children[distance];
      assert Owns(child, model.children[k].tree);
      child.Add(value, sha256, split);
      forall i | 0 <= i < |edges| && i != k ensures Owns(children[edges[i]], model.children[i].tree) {
        assert old(Owns(children[edges[i]], model.children[i].tree));
      }
      Absorb(k);
    }

    method Find(value: nat, maximumDistance: int) returns (r: Option<Entry>)
      requires Valid()
      ensures r == Search(model, value, maximumDistance)
      decreases Repr
    {
      var distance := Distance(this.value, value);
      if distance <= maximumDistance {
        return Some(Entry(this.value, sha256, split));
      }
      var lower := if distance - maximumDistance > 0 then distance - maximumDistance else 0;
      r := FindBelow(lower, distance + maximumDistance, value, maximumDistance);
    }

    method FindBelow(lower: int, upper: int, value: nat, maximumDistance: int) returns (r: Option<Entry>)
      requires Valid()
      ensures r == SearchBelow(model.children, lower, upper, value, maximumDistance)
      decreases Repr, 0
    {
      SearchEnds(model.children, lower, upper, value, maximumDistance);
      hide SearchBelow, Search;
      for i := 0 to |edges|
        invariant SearchBelow(model.children, lower, upper, value, maximumDistance)
               == SearchBelow(model.children[i..], lower, upper, value, maximumDistance)
      {
        SearchNext(model.children, i, lower, upper, value, maximumDistance);
        assert Owns(children[edges[i]], model.children[i].tree);
        if lower <= edges[i] <= upper {
          r := children[edges[i]].Find(value, maximumDistance);
          if r.Some? {
            return r;
          }
        }
      }
      return None;
    }
  }
}
