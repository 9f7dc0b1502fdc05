/**
  The two node filters applied to the built graph (streamlit_app.py lines 43-50). Both
  keep an induced subgraph: the surviving nodes and every edge between two of them.
 */
module Filters {

  import opened Digraph
  import opened Dataset

  /** Lines 44-45: keep the nodes that are names in the CSV. */
  function CsvFilter(g: Graph, records: seq<Record>): (h: Graph)
    ensures h.nodes == g.nodes * PeopleSet(records)
    ensures forall n :: n in h.nodes <==> n in g.nodes && Listed(records, n)
    ensures InducedBy(h, g)
    ensures WellFormed(h)
  {
    Induce(g, PeopleSet(records))
  }

  /**
    Lines 48-50: with no gender selected the graph is left alone; otherwise keep the
    nodes named by some row whose Gender is selected. The node set never grows, and
    nothing protects the focal node here.
   */
  function GenderFilter(g: Graph, records: seq<Record>, selected: set<string>): (h: Graph)
    ensures selected == {} ==> h == g
    ensures selected != {} ==> h.nodes == g.nodes * NamesWithGender(records, selected)
    ensures Subgraph(h, g)
    ensures WellFormed(g) ==> InducedBy(h, g) && WellFormed(h)
  {
    if selected == {} then g else Induce(g, NamesWithGender(records, selected))
  }

  /**
    The node set both filters leave: CSV names, narrowed to the names with a selected
    gender when a selection is made.
   */
  function Keep(records: seq<Record>, selected: set<string>): (keep: set<string>)
    ensures keep <= PeopleSet(records)
    ensures selected == {} ==> keep == PeopleSet(records)
    ensures selected != {} ==> forall n :: n in keep <==>
      exists i :: 0 <= i < |records| && records[i].name == Text(n) && records[i].gender.Text? && records[i].gender.value in selected
  {
    if selected == {} then PeopleSet(records)
    else PeopleSet(records) * NamesWithGender(records, selected)
  }

  /**
    The two filters in sequence are one restriction of the built graph, to `Keep`: the
    result is the subgraph induced on the built nodes that survive both.
   */
  lemma {:induction false} FiltersInduce(g: Graph, records: seq<Record>, selected: set<string>)
    requires WellFormed(g)
    ensures GenderFilter(CsvFilter(g, records), records, selected) == Induce(g, Keep(records, selected))
  {
    if selected != {} {
      InduceTwice(g, PeopleSet(records), NamesWithGender(records, selected));
    }
  }

  /** The CSV filter keeps every node it keeps a second time: filtering again changes nothing. */
  lemma CsvFilterIdempotent(g: Graph, records: seq<Record>)
    ensures CsvFilter(CsvFilter(g, records), records) == CsvFilter(g, records)
  {
    InduceIdempotent(g, PeopleSet(records));
  }

  /** Filtering a second time by the same genders changes nothing. */
  lemma GenderFilterIdempotent(g: Graph, records: seq<Record>, selected: set<string>)
    ensures GenderFilter(GenderFilter(g, records, selected), records, selected) == GenderFilter(g, records, selected)
  {
    if selected != {} {
      InduceIdempotent(g, NamesWithGender(records, selected));
    }
  }
}
