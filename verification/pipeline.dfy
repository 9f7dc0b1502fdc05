/**
  One pass of the dashboard, from the selected person to the node-metrics table:
  fetch and build, filter by the CSV, filter by gender, score, tabulate
  (streamlit_app.py lines 23-53 and 92-105).
 */
module Pipeline {

  import opened Optional
  import opened Digraph
  import opened Dataset
  import opened Builder
  import opened Filters
  import opened Metrics

  datatype Report = Report(graph: Graph, scores: map<string, real>, metrics: map<string, MetricRow>)

  /**
    The focal page is read outside the script's `try`, so a raising lookup there ends
    the run with nothing shown (`None`). Otherwise the report holds the final graph, its
    scores and its metric rows.
   */
  function Explore(
    focal: string, source: LinkSource, maxLinks: nat,
    records: seq<Record>, selected: set<string>, rank: Graph -> map<string, real>): (r: Option<Report>)
    ensures r.None? <==> source(focal).None?
    ensures r.Some? ==> r.value.graph == Induce(Build(focal, source(focal).value, source, maxLinks), Keep(records, selected))
    ensures r.Some? ==> r.value.metrics.Keys == r.value.graph.nodes
    ensures r.Some? ==> (r.value.graph.nodes == {} ==> r.value.scores == map[])
  {
    match source(focal)
    case None => None
    case Some(links) =>
      var built := Build(focal, links, source, maxLinks);
      var g := GenderFilter(CsvFilter(built, records), records, selected);
      FiltersInduce(built, records, selected);
      var scores := Scores(g, rank);
      Some(Report(g, scores, NodeMetrics(g, records, scores)))
  }

  /**
    The graph shown is a well-formed star around the focal node, induced in the built
    graph, whose every node is a CSV name and is the focal node or one of its capped links.
   */
  lemma ExploreShape(
    focal: string, source: LinkSource, maxLinks: nat,
    records: seq<Record>, selected: set<string>, rank: Graph -> map<string, real>)
    requires source(focal).Some?
    ensures var g := Explore(focal, source, maxLinks, records, selected, rank).value.graph;
            var built := Build(focal, source(focal).value, source, maxLinks);
            && WellFormed(g)
            && Star(g, focal)
            && InducedBy(g, built)
            && g.nodes <= PeopleSet(records)
            && forall n :: n in g.nodes ==> n == focal || n in Cap(source(focal).value, maxLinks)
  {
    var g := Explore(focal, source, maxLinks, records, selected, rank).value.graph;
    var built := Build(focal, source(focal).value, source, maxLinks);
    InducedStar(g, built, focal);
  }

  /**
    The selected person is always kept by the CSV filter, being drawn from the CSV's
    names, but the gender filter drops them when none of their rows has a selected gender.
   */
  lemma FocalFate(
    focal: string, source: LinkSource, maxLinks: nat,
    records: seq<Record>, selected: set<string>, rank: Graph -> map<string, real>)
    requires source(focal).Some?
    requires focal in PeopleSet(records)
    ensures focal in CsvFilter(Build(focal, source(focal).value, source, maxLinks), records).nodes
    ensures (focal in Explore(focal, source, maxLinks, records, selected, rank).value.graph.nodes)
        <==> (selected == {} || focal in NamesWithGender(records, selected))
  {
  }

  /** With no gender selected, the graph shown is the CSV-filtered graph. */
  lemma NoGenderNoChange(
    focal: string, source: LinkSource, maxLinks: nat,
    records: seq<Record>, rank: Graph -> map<string, real>)
    requires source(focal).Some?
    ensures Explore(focal, source, maxLinks, records, {}, rank).value.graph
              == CsvFilter(Build(focal, source(focal).value, source, maxLinks), records)
  {
  }

  /**
    A gender selection never adds a node: the graph shown with a selection is an
    induced subgraph of the one shown without.
   */
  lemma GenderOnlyShrinks(
    focal: string, source: LinkSource, maxLinks: nat,
    records: seq<Record>, selected: set<string>, rank: Graph -> map<string, real>)
    requires source(focal).Some?
    ensures var with := Explore(focal, source, maxLinks, records, selected, rank).value.graph;
            var without := Explore(focal, source, maxLinks, records, {}, rank).value.graph;
            InducedBy(with, without) && with.nodes <= without.nodes
  {
    var built := Build(focal, source(focal).value, source, maxLinks);
    var without := Explore(focal, source, maxLinks, records, {}, rank).value.graph;
    var with := Explore(focal, source, maxLinks, records, selected, rank).value.graph;
    if selected != {} {
      InduceTwice(built, PeopleSet(records), NamesWithGender(records, selected));
      assert with == Induce(without, NamesWithGender(records, selected));
    } else {
      InduceAll(without, PeopleSet(records));
    }
  }

  const Mistral := "Gabriela Mistral"
  const Neruda := "Pablo Neruda"
  const Borges := "Jorge Luis Borges"
  const Chile := "Chile"
  const Nobel := "Nobel Prize in Literature"

  /** The example's names are pairwise distinct (their lengths differ). */
  lemma ExampleNamesDistinct()
    ensures Mistral != Neruda && Mistral != Borges && Mistral != Chile && Mistral != Nobel
    ensures Neruda != Borges && Neruda != Chile && Neruda != Nobel
    ensures Borges != Chile && Borges != Nobel && Chile != Nobel
  {
    assert |Mistral| == 16 && |Neruda| == 12 && |Borges| == 17 && |Chile| == 5 && |Nobel| == 25;
  }

  /** The link service of the worked example below. */
  function ExampleSource(): LinkSource {
    t => if t == Mistral then Some([Neruda, Chile, Nobel])
         else if t == Neruda then Some([Mistral])
         else Some([])
  }

  /** The CSV of the worked example below: three poets, other cells blank. */
  function ExampleRecords(): seq<Record> {
    [Record(Text(Mistral), Missing, Missing), Record(Text(Neruda), Missing, Missing),
     Record(Text(Borges), Missing, Missing)]
  }

  /** The graph built for the worked example, before any filter. */
  lemma ExampleBuilt()
    ensures Build(Mistral, [Neruda, Chile, Nobel], ExampleSource(), 10)
         == Graph({Mistral, Neruda, Chile, Nobel},
                  {(Mistral, Neruda), (Mistral, Chile), (Mistral, Nobel), (Neruda, Mistral)})
  {
    ExampleNamesDistinct();
    var links := [Neruda, Chile, Nobel];
    assert Cap(links, 10) == links;
    assert LinksBack(ExampleSource(), Neruda, Mistral);
    assert !LinksBack(ExampleSource(), Chile, Mistral);
    assert !LinksBack(ExampleSource(), Nobel, Mistral);
    assert !LinksBack(ExampleSource(), Mistral, Mistral);
  }

  /** The CSV names of the worked example. */
  lemma ExamplePeople()
    ensures PeopleSet(ExampleRecords()) == {Mistral, Neruda, Borges}
  {
    ExampleNamesDistinct();
    var records := ExampleRecords();
    assert records[0].name.value == Mistral && records[1].name.value == Neruda && records[2].name.value == Borges;
  }

  /** Keeping the hub `a` and the leaf `b` of the example's shape (and an absent `e`) keeps their two edges. */
  lemma KeepPair(a: string, b: string, c: string, d: string, e: string)
    requires a != c && a != d && b != c && b != d && e != c && e != d
    ensures Induce(Graph({a, b, c, d}, {(a, b), (a, c), (a, d), (b, a)}), {a, b, e}) == Graph({a, b}, {(a, b), (b, a)})
  {
    var g := Induce(Graph({a, b, c, d}, {(a, b), (a, c), (a, d), (b, a)}), {a, b, e});
    assert g.nodes == {a, b};
    assert (a, b) in g.edges && (b, a) in g.edges;
  }

  /** The worked example's graph after both filters: the two poets, linked both ways. */
  lemma ExampleShown()
    ensures Induce(Build(Mistral, [Neruda, Chile, Nobel], ExampleSource(), 10), Keep(ExampleRecords(), {}))
         == Graph({Mistral, Neruda}, {(Mistral, Neruda), (Neruda, Mistral)})
  {
    ExampleNamesDistinct();
    ExampleBuilt();
    ExamplePeople();
    KeepPair(Mistral, Neruda, Chile, Nobel, Borges);
  }

  /** In the graph of two nodes linked both ways, each has in- and out-degree 1. */
  lemma PairDegrees(a: string, b: string)
    requires a != b
    ensures var g := Graph({a, b}, {(a, b), (b, a)});
            InDegree(g, a) == 1 && OutDegree(g, a) == 1 && InDegree(g, b) == 1 && OutDegree(g, b) == 1
  {
    var g := Graph({a, b}, {(a, b), (b, a)});
    assert EdgesInto(g, b) == {(a, b)};
    assert EdgesOutOf(g, b) == {(b, a)};
    assert EdgesInto(g, a) == {(b, a)};
    assert EdgesOutOf(g, a) == {(a, b)};
  }

  /**
    A worked example: Gabriela Mistral's page lists Pablo Neruda,
    Chile and the Nobel Prize in Literature; Neruda's page links back. With the three
    poets in the CSV, the graph shown is the two poets linked both ways, and the table
    has exactly their two rows, each with in- and out-degree 1.
   */
  lemma MistralExample(rank: Graph -> map<string, real>)
    ensures var r := Explore(Mistral, ExampleSource(), 10, ExampleRecords(), {}, rank);
            && r.Some?
            && r.value.graph == Graph({Mistral, Neruda}, {(Mistral, Neruda), (Neruda, Mistral)})
            && r.value.metrics.Keys == {Mistral, Neruda}
            && r.value.metrics[Neruda].inDegree == 1 && r.value.metrics[Neruda].outDegree == 1
            && r.value.metrics[Mistral].inDegree == 1 && r.value.metrics[Mistral].outDegree == 1
  {
    ExampleNamesDistinct();
    ExampleShown();
    PairDegrees(Mistral, Neruda);
  }

  /** The worked example's CSV with a Gender column, Borges left out. */
  function GenderedRecords(): seq<Record> {
    [Record(Text(Mistral), Text("Female"), Missing), Record(Text(Neruda), Text("Male"), Missing)]
  }

  /** Of the gendered CSV, "Male" keeps Neruda alone, who is shown as "Male". */
  lemma GenderedKeep()
    ensures Keep(GenderedRecords(), {"Male"}) == {Neruda}
    ensures GenderOf(GenderedRecords(), Neruda) == Text("Male")
  {
    ExampleNamesDistinct();
    var records := GenderedRecords();
    assert records[0].name.value == Mistral && records[1].name.value == Neruda;
    assert PeopleSet(records) == {Mistral, Neruda};
    assert NamesWithGender(records, {"Male"}) == {Neruda};
    assert FirstRow(records, Neruda) == Some(1);
  }

  /**
    The same example with a Gender column and "Male" selected: the focal node is
    filtered out, and Neruda is left alone with no edges and degrees 0.
   */
  lemma MistralGenderExample(rank: Graph -> map<string, real>)
    ensures var r := Explore(Mistral, ExampleSource(), 10, GenderedRecords(), {"Male"}, rank);
            && r.Some?
            && r.value.graph == Graph({Neruda}, {})
            && r.value.metrics.Keys == {Neruda}
            && r.value.metrics[Neruda].inDegree == 0 && r.value.metrics[Neruda].outDegree == 0
            && r.value.metrics[Neruda].gender == Text("Male")
  {
    ExampleNamesDistinct();
    GenderedShown();
    var g := Graph({Neruda}, {});
    assert EdgesInto(g, Neruda) == {};
    assert EdgesOutOf(g, Neruda) == {};
    GenderedKeep();
  }

  /** Keeping only the leaf `b` of the example's shape leaves it with no edge. */
  lemma KeepLeafAlone(a: string, b: string, c: string, d: string)
    requires a != b && b != c && b != d
    ensures Induce(Graph({a, b, c, d}, {(a, b), (a, c), (a, d), (b, a)}), {b}) == Graph({b}, {})
  {
    var g := Induce(Graph({a, b, c, d}, {(a, b), (a, c), (a, d), (b, a)}), {b});
    assert g.nodes == {b};
    assert g.edges == {};
  }

  /** The gendered example's graph after both filters: Neruda alone. */
  lemma GenderedShown()
    ensures Induce(Build(Mistral, [Neruda, Chile, Nobel], ExampleSource(), 10), Keep(GenderedRecords(), {"Male"}))
         == Graph({Neruda}, {})
  {
    ExampleNamesDistinct();
    ExampleBuilt();
    GenderedKeep();
    KeepLeafAlone(Mistral, Neruda, Chile, Nobel);
  }
}
