/**
  Building the link graph around the focal person (streamlit_app.py lines 25-41).

  The page-link service is a parameter: `source(t)` is `Some(links)` with the titles
  `wiki.page(t).links` enumerates, in its order, or `None` when that lookup raises.
 */
module Builder {

  import opened Optional
  import opened Digraph

  type LinkSource = string -> Option<seq<string>>

  function Min(a: nat, b: nat): nat {
    if a <= b then a else b
  }

  /** `list(page.links.keys())[:max_links]`: the first `maxLinks` titles, or all of them. */
  function Cap(links: seq<string>, maxLinks: nat): (capped: seq<string>)
    ensures |capped| == Min(maxLinks, |links|)
    ensures capped == links[..|capped|]
  {
    if maxLinks < |links| then links[..maxLinks] else links
  }

  /** The page of `t` could be read and it links to `focal`; a lookup that raises says no. */
  predicate LinksBack(source: LinkSource, t: string, focal: string) {
    source(t).Some? && focal in source(t).value
  }

  /**
    The `incoming_links` list the first loop collects: the titles, in order, whose own
    page lookup succeeds and lists `focal`. A title whose lookup raises is skipped and
    the loop goes on with the next one.
   */
  function Incoming(source: LinkSource, focal: string, titles: seq<string>): (incoming: seq<string>)
    ensures |incoming| <= |titles|
    ensures forall t :: t in incoming <==> t in titles && LinksBack(source, t, focal)
  {
    if titles == [] then []
    else
      var init := Incoming(source, focal, titles[..|titles| - 1]);
      var last := titles[|titles| - 1];
      assert forall t :: t in titles <==> t in titles[..|titles| - 1] || t == last;
      if LinksBack(source, last, focal) then init + [last] else init
  }

  /** The titles of a list, as a set. */
  function Titles(s: seq<string>): set<string> {
    set t | t in s
  }

  /** An edge from `a` to each title of `s`. */
  function EdgesFrom(a: string, s: seq<string>): set<Edge> {
    set t | t in s :: (a, t)
  }

  /** An edge from each title of `s` to `b`. */
  function EdgesTo(s: seq<string>, b: string): set<Edge> {
    set t | t in s :: (t, b)
  }

  /** Appending one title adds exactly that title and its edge. */
  lemma Append(s: seq<string>, x: string, a: string, b: string)
    ensures Titles(s + [x]) == Titles(s) + {x}
    ensures EdgesFrom(a, s + [x]) == EdgesFrom(a, s) + {(a, x)}
    ensures EdgesTo(s + [x], b) == EdgesTo(s, b) + {(x, b)}
  {
    assert forall t :: t in s + [x] <==> t in s || t == x;
  }

  /**
    The graph the script holds after line 41, given the focal page's link titles. The
    focal node is present even with no links; no title outside the focal node and the
    capped list becomes a node; every capped title gets an edge from the focal node;
    every edge touches the focal node; and an edge into the focal node comes from a
    capped title whose page links back, or is the self-loop the outgoing loop adds when
    the focal page lists itself.
   */
  function Build(focal: string, links: seq<string>, source: LinkSource, maxLinks: nat): (g: Graph)
    ensures WellFormed(g)
    ensures Star(g, focal)
    ensures focal in g.nodes
    ensures forall n :: n in g.nodes <==> n == focal || n in Cap(links, maxLinks)
    ensures forall t :: (focal, t) in g.edges <==> t in Cap(links, maxLinks)
    ensures forall t :: (t, focal) in g.edges <==>
              (t in Cap(links, maxLinks) && LinksBack(source, t, focal)) || (t == focal && focal in Cap(links, maxLinks))
  {
    var outgoing := Cap(links, maxLinks);
    var incoming := Incoming(source, focal, outgoing);
    Graph({focal} + Titles(outgoing), EdgesTo(incoming, focal) + EdgesFrom(focal, outgoing))
  }

  /** With a cap of zero, or a page without links, the graph is the focal node alone. */
  lemma BuildNoLinks(focal: string, links: seq<string>, source: LinkSource, maxLinks: nat)
    requires maxLinks == 0 || links == []
    ensures Build(focal, links, source, maxLinks) == Graph({focal}, {})
  {
    assert Cap(links, maxLinks) == [];
  }

  /**
    The script's first loop (lines 30-38): for each capped title in order, read its page;
    when the read succeeds and lists the focal name, add the edge back to the focal node
    and remember the title; when the read raises, go on with the next title.
   */
  method CollectBacklinks(source: LinkSource, focal: string, outgoing: seq<string>)
    returns (nodes: set<string>, edges: set<Edge>, incoming: seq<string>)
    ensures incoming == Incoming(source, focal, outgoing)
    ensures nodes == {focal} + Titles(incoming)
    ensures edges == EdgesTo(incoming, focal)
  {
    nodes, edges, incoming := {focal}, {}, [];
    var i := 0;
    while i < |outgoing|
      invariant i <= |outgoing|
      invariant incoming == Incoming(source, focal, outgoing[..i])
      invariant nodes == {focal} + Titles(incoming)
      invariant edges == EdgesTo(incoming, focal)
    {
      var link := outgoing[i];
      assert outgoing[..i + 1][..i] == outgoing[..i];
      var page := source(link);
      if page.Some? && focal in page.value {
        Append(incoming, link, focal, focal);
        nodes := nodes + {link};
        edges := edges + {(link, focal)};
        incoming := incoming + [link];
      }
      i := i + 1;
    }
    assert outgoing[..i] == outgoing;
  }

  /**
    The script's second loop (lines 40-41): an edge from the focal node to each capped
    title. The focal node is already a node (line 26).
   */
  method AddOutgoing(focal: string, outgoing: seq<string>, nodes0: set<string>, edges0: set<Edge>)
    returns (nodes: set<string>, edges: set<Edge>)
    requires focal in nodes0
    ensures nodes == nodes0 + Titles(outgoing)
    ensures edges == edges0 + EdgesFrom(focal, outgoing)
  {
    nodes, edges := nodes0, edges0;
    var j := 0;
    while j < |outgoing|
      invariant j <= |outgoing|
      invariant nodes == nodes0 + Titles(outgoing[..j])
      invariant edges == edges0 + EdgesFrom(focal, outgoing[..j])
    {
      var link := outgoing[j];
      assert outgoing[..j + 1] == outgoing[..j] + [link];
      Append(outgoing[..j], link, focal, focal);
      nodes := nodes + {link};
      edges := edges + {(focal, link)};
      j := j + 1;
    }
    assert outgoing[..j] == outgoing;
  }

  /**
    The script's own procedure (lines 23-41): read the focal page (a raise there is not
    caught, so nothing is built), cap its titles, run the two loops. It builds exactly
    `Build`'s graph.
   */
  method BuildGraph(focal: string, source: LinkSource, maxLinks: nat) returns (g: Option<Graph>)
    ensures source(focal).None? ==> g.None?
    ensures source(focal).Some? ==> g == Some(Build(focal, source(focal).value, source, maxLinks))
  {
    var page := source(focal);
    if page.None? {
      return None;
    }
    var outgoing := Cap(page.value, maxLinks);
    var nodes, edges, incoming := CollectBacklinks(source, focal, outgoing);
    nodes, edges := AddOutgoing(focal, outgoing, nodes, edges);
    assert Titles(incoming) <= Titles(outgoing);
    assert nodes == {focal} + Titles(outgoing);
    g := Some(Graph(nodes, edges));
  }
}
