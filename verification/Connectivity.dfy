/** Being joined by a chain of links: the relation the union-find forests of both
    split reconcilers have to compute, stated without any forest. */
module Connectivity {

  type Links = set<(string, string)>

  ghost predicate Adjacent(links: Links, a: string, b: string) {
    (a, b) in links || (b, a) in links
  }

  ghost predicate IsChain(links: Links, chain: seq<string>) {
    |chain| > 0 && forall i :: 0 <= i < |chain| - 1 ==> Adjacent(links, chain[i], chain[i + 1])
  }

  ghost predicate Joins(links: Links, chain: seq<string>, a: string, b: string) {
    IsChain(links, chain) && chain[0] == a && chain[|chain| - 1] == b
  }

  ghost predicate Connected(links: Links, a: string, b: string) {
    exists chain :: Joins(links, chain, a, b)
  }

  lemma ConnectedToSelf(links: Links, a: string)
    ensures Connected(links, a, a)
  {
    assert Joins(links, [a], a, a);
  }

  lemma ConnectedByLink(links: Links, a: string, b: string)
    requires Adjacent(links, a, b)
    ensures Connected(links, a, b)
  {
    assert Joins(links, [a, b], a, b);
  }

  lemma ConnectedSymmetric(links: Links, a: string, b: string)
    requires Connected(links, a, b)
    ensures Connected(links, b, a)
  {
    var chain :| Joins(links, chain, a, b);
    var n := |chain|;
    var back := seq(n, i requires 0 <= i < n => chain[n - 1 - i]);
    assert IsChain(links, back) by {
      forall i | 0 <= i < n - 1 ensures Adjacent(links, back[i], back[i + 1]) {
        assert Adjacent(links, chain[n - 2 - i], chain[n - 2 - i + 1]);
      }
    }
    assert Joins(links, back, b, a);
  }

  lemma ConnectedTransitive(links: Links, a: string, b: string, c: string)
    requires Connected(links, a, b) && Connected(links, b, c)
    ensures Connected(links, a, c)
  {
    var left :| Joins(links, left, a, b);
    var right :| Joins(links, right, b, c);
    var chain := left + right[1..];
    assert IsChain(links, chain) by {
      forall i | 0 <= i < |chain| - 1 ensures Adjacent(links, chain[i], chain[i + 1]) {
        if i < |left| - 1 {
          assert Adjacent(links, left[i], left[i + 1]);
        } else {
          var j := i - (|left| - 1);
          assert chain[i] == right[j] && chain[i + 1] == right[j + 1];
          assert Adjacent(links, right[j], right[j + 1]);
        }
      }
    }
    assert Joins(links, chain, a, c);
  }

  lemma ConnectedMonotone(links: Links, more: Links, a: string, b: string)
    requires Connected(links, a, b) && links <= more
    ensures Connected(more, a, b)
  {
    var chain :| Joins(links, chain, a, b);
    assert IsChain(more, chain) by {
      forall i | 0 <= i < |chain| - 1 ensures Adjacent(more, chain[i], chain[i + 1]) {
        assert Adjacent(links, chain[i], chain[i + 1]);
      }
    }
    assert Joins(more, chain, a, b);
  }

  /** Whatever every link leaves equal is equal along every chain. */
  lemma {:induction false} ConstantAlongChain<T>(links: Links, mark: string -> T, chain: seq<string>)
    requires forall l :: l in links ==> mark(l.0) == mark(l.1)
    requires IsChain(links, chain)
    ensures mark(chain[0]) == mark(chain[|chain| - 1])
  {
    if |chain| > 1 {
      var rest := chain[1..];
      assert IsChain(links, rest) by {
        forall i | 0 <= i < |rest| - 1 ensures Adjacent(links, rest[i], rest[i + 1]) {
          assert Adjacent(links, chain[i + 1], chain[i + 2]);
        }
      }
      ConstantAlongChain(links, mark, rest);
      assert Adjacent(links, chain[0], chain[1]);
    }
  }

  lemma ConstantOnComponents<T>(links: Links, mark: string -> T, a: string, b: string)
    requires forall l :: l in links ==> mark(l.0) == mark(l.1)
    requires Connected(links, a, b)
    ensures mark(a) == mark(b)
  {
    var chain :| Joins(links, chain, a, b);
    ConstantAlongChain(links, mark, chain);
  }

  /** If every link of one set is a chain of another, so is every chain. */
  lemma {:induction false} ChainRefines(links: Links, other: Links, chain: seq<string>)
    requires forall l :: l in links ==> Connected(other, l.0, l.1)
    requires IsChain(links, chain)
    ensures Connected(other, chain[0], chain[|chain| - 1])
  {
    if |chain| == 1 {
      ConnectedToSelf(other, chain[0]);
    } else {
      var rest := chain[1..];
      assert IsChain(links, rest) by {
        forall i | 0 <= i < |rest| - 1 ensures Adjacent(links, rest[i], rest[i + 1]) {
          assert Adjacent(links, chain[i + 1], chain[i + 2]);
        }
      }
      ChainRefines(links, other, rest);
      assert Adjacent(links, chain[0], chain[1]);
      if (chain[0], chain[1]) in links {
        assert Connected(other, chain[0], chain[1]);
      } else {
        assert (chain[1], chain[0]) in links;
        ConnectedSymmetric(other, chain[1], chain[0]);
      }
      ConnectedTransitive(other, chain[0], chain[1], chain[|chain| - 1]);
    }
  }

  lemma ConnectionRefines(links: Links, other: Links, a: string, b: string)
    requires forall l :: l in links ==> Connected(other, l.0, l.1)
    requires Connected(links, a, b)
    ensures Connected(other, a, b)
  {
    var chain :| Joins(links, chain, a, b);
    ChainRefines(links, other, chain);
  }

  /** The groups connected to `g`. */
  ghost function Component(groups: set<string>, links: Links, g: string): set<string> {
    set h | h in groups && Connected(links, g, h)
  }

  lemma ComponentsCoincide(groups: set<string>, links: Links, a: string, b: string)
    requires Connected(links, a, b)
    ensures Component(groups, links, a) == Component(groups, links, b)
  {
    ConnectedSymmetric(links, a, b);
    forall h | h in groups ensures Connected(links, a, h) <==> Connected(links, b, h) {
      if Connected(links, a, h) { ConnectedTransitive(links, b, a, h); }
      if Connected(links, b, h) { ConnectedTransitive(links, a, b, h); }
    }
  }
}
