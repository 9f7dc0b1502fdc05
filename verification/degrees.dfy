/**
  The degrees the metrics table reports, worked out for the graphs the dashboard can
  show: a subgraph, induced by any node set, of the star built around the focal node.
 */
module Degrees {

  import opened Digraph
  import opened Builder

  /** Pairing one fixed title with each title of `s` gives `|s|` distinct edges. */
  lemma {:induction false} CardEdgesFrom(a: string, s: set<string>)
    ensures |set t | t in s :: (a, t)| == |s|
    decreases |s|
  {
    if s != {} {
      var x :| x in s;
      var rest := s - {x};
      CardEdgesFrom(a, rest);
      assert (set t | t in s :: (a, t)) == (set t | t in rest :: (a, t)) + {(a, x)};
    }
  }

  /** Pairing each title of `s` with one fixed title gives `|s|` distinct edges. */
  lemma {:induction false} CardEdgesTo(b: string, s: set<string>)
    ensures |set t | t in s :: (t, b)| == |s|
    decreases |s|
  {
    if s != {} {
      var x :| x in s;
      var rest := s - {x};
      CardEdgesTo(b, rest);
      assert (set t | t in s :: (t, b)) == (set t | t in rest :: (t, b)) + {(x, b)};
    }
  }

  /** Once the focal node is filtered out, the survivors are isolated: no edge is left. */
  lemma FocalGoneNoEdges(focal: string, links: seq<string>, source: LinkSource, maxLinks: nat, keep: set<string>)
    requires focal !in Induce(Build(focal, links, source, maxLinks), keep).nodes
    ensures Induce(Build(focal, links, source, maxLinks), keep).edges == {}
  {
  }

  /**
    A surviving node other than the focal node has in-degree 1 when the focal node
    survives (the focal page links to every built node) and 0 otherwise; its out-degree
    is 1 exactly when the focal node survives and its own page links back.
   */
  lemma LeafDegrees(focal: string, links: seq<string>, source: LinkSource, maxLinks: nat, keep: set<string>, n: string)
    requires n in Induce(Build(focal, links, source, maxLinks), keep).nodes
    requires n != focal
    ensures var h := Induce(Build(focal, links, source, maxLinks), keep);
            && InDegree(h, n) == (if focal in h.nodes then 1 else 0)
            && OutDegree(h, n) == (if focal in h.nodes && LinksBack(source, n, focal) then 1 else 0)
  {
    var g := Build(focal, links, source, maxLinks);
    var h := Induce(g, keep);
    if focal in h.nodes {
      assert EdgesInto(h, n) == {(focal, n)};
      if LinksBack(source, n, focal) {
        assert EdgesOutOf(h, n) == {(n, focal)};
      } else {
        assert EdgesOutOf(h, n) == {};
      }
    } else {
      FocalGoneNoEdges(focal, links, source, maxLinks, keep);
      assert EdgesInto(h, n) == {};
      assert EdgesOutOf(h, n) == {};
    }
  }

  /** The survivors the focal node links to: all of them but itself, unless its page lists itself. */
  function Targets(h: Graph, outgoing: seq<string>): set<string> {
    set t | t in h.nodes && t in outgoing
  }

  /** The survivors that link to the focal node, the self-loop included. */
  function Backlinkers(h: Graph, focal: string, outgoing: seq<string>, source: LinkSource): set<string> {
    set t | t in h.nodes && ((t in outgoing && LinksBack(source, t, focal)) || (t == focal && focal in outgoing))
  }

  /**
    A surviving focal node links to every other survivor, and to itself exactly when
    its page lists itself within the cap.
   */
  lemma FocalOutDegree(focal: string, links: seq<string>, source: LinkSource, maxLinks: nat, keep: set<string>)
    requires focal in Induce(Build(focal, links, source, maxLinks), keep).nodes
    ensures var h := Induce(Build(focal, links, source, maxLinks), keep);
            OutDegree(h, focal) == (if focal in Cap(links, maxLinks) then |h.nodes| else |h.nodes| - 1)
  {
    var h := Induce(Build(focal, links, source, maxLinks), keep);
    var targets := Targets(h, Cap(links, maxLinks));
    assert EdgesOutOf(h, focal) == set t | t in targets :: (focal, t) by {
      forall e | e in EdgesOutOf(h, focal) ensures e in set t | t in targets :: (focal, t) {
        assert e == (focal, e.1);
      }
    }
    CardEdgesFrom(focal, targets);
    if focal in Cap(links, maxLinks) {
      assert targets == h.nodes;
    } else {
      assert targets == h.nodes - {focal};
    }
  }

  /** The in-degree of the focal node counts the distinct survivors whose page links back to it. */
  lemma FocalInDegree(focal: string, links: seq<string>, source: LinkSource, maxLinks: nat, keep: set<string>)
    requires focal in Induce(Build(focal, links, source, maxLinks), keep).nodes
    ensures var h := Induce(Build(focal, links, source, maxLinks), keep);
            InDegree(h, focal) == |Backlinkers(h, focal, Cap(links, maxLinks), source)|
  {
    var h := Induce(Build(focal, links, source, maxLinks), keep);
    var sources := Backlinkers(h, focal, Cap(links, maxLinks), source);
    assert EdgesInto(h, focal) == set t | t in sources :: (t, focal) by {
      forall e | e in EdgesInto(h, focal) ensures e in set t | t in sources :: (t, focal) {
        assert e == (e.0, focal);
      }
    }
    CardEdgesTo(focal, sources);
  }

  /** A subset is no larger than its superset. */
  lemma {:induction false} SubsetCard(a: set<string>, b: set<string>)
    requires a <= b
    ensures |a| <= |b|
  {
    assert b == a + (b - a);
  }

  /**
    Incoming candidates come from the outgoing list, so the focal node's in-degree
    never exceeds its out-degree.
   */
  lemma FocalInAtMostOut(focal: string, links: seq<string>, source: LinkSource, maxLinks: nat, keep: set<string>)
    ensures var h := Induce(Build(focal, links, source, maxLinks), keep);
            InDegree(h, focal) <= OutDegree(h, focal)
  {
    var h := Induce(Build(focal, links, source, maxLinks), keep);
    var outgoing := Cap(links, maxLinks);
    if focal in h.nodes {
      FocalInDegree(focal, links, source, maxLinks, keep);
      FocalOutDegree(focal, links, source, maxLinks, keep);
      SubsetCard(Backlinkers(h, focal, outgoing, source), Targets(h, outgoing));
      assert |Targets(h, outgoing)| <= OutDegree(h, focal) by {
        if focal !in outgoing {
          assert Targets(h, outgoing) == h.nodes - {focal};
        } else {
          assert Targets(h, outgoing) == h.nodes;
        }
      }
    } else {
      FocalGoneNoEdges(focal, links, source, maxLinks, keep);
      assert EdgesInto(h, focal) == {};
    }
  }
}
