/**
  The score guard and the node-metrics table (streamlit_app.py lines 53 and 92-105).
  The centrality routine itself is a parameter: `rank(g)` stands for the scores the
  graph library's PageRank returns for `g`.
 */
module Metrics {

  import opened Digraph
  import opened Dataset

  datatype MetricRow = MetricRow(
    name: string,
    gender: Cell,
    occupation: Cell,
    inDegree: nat,
    outDegree: nat,
    pageRank: real)

  /** Line 53: the centrality routine is consulted only on a graph with nodes. */
  function Scores(g: Graph, rank: Graph -> map<string, real>): (scores: map<string, real>)
    ensures g.nodes == {} ==> scores == map[]
    ensures g.nodes != {} ==> scores == rank(g)
  {
    if |g.nodes| > 0 then rank(g) else map[]
  }

  /** `pagerank_scores.get(node, 0)`. */
  function ScoreOf(scores: map<string, real>, n: string): real {
    if n in scores then scores[n] else 0.0
  }

  /**
    Lines 92-105: one row per node of the final graph, none when it has no nodes. A row
    carries the node's in- and out-degree in that graph, its score (0 when it has
    none), and the Gender and Occupation of the first CSV row that names it, or
    "Unknown" when no row does.
   */
  function NodeMetrics(g: Graph, records: seq<Record>, scores: map<string, real>): (rows: map<string, MetricRow>)
    ensures rows.Keys == g.nodes
    ensures rows == map[] <==> g.nodes == {}
    ensures forall n :: n in rows ==>
      && rows[n].name == n
      && rows[n].inDegree == |EdgesInto(g, n)|
      && rows[n].outDegree == |EdgesOutOf(g, n)|
      && rows[n].pageRank == (if n in scores then scores[n] else 0.0)
      && (!Listed(records, n) ==> rows[n].gender == Unknown && rows[n].occupation == Unknown)
      && (forall i :: 0 <= i < |records| && records[i].name == Text(n) && (forall j :: 0 <= j < i ==> records[j].name != Text(n))
            ==> rows[n].gender == records[i].gender && rows[n].occupation == records[i].occupation)
  {
    if |g.nodes| > 0 then
      map n | n in g.nodes ::
        MetricRow(n, GenderOf(records, n), OccupationOf(records, n), InDegree(g, n), OutDegree(g, n), ScoreOf(scores, n))
    else
      map[]
  }

  /** When the library scores exactly the graph's nodes, the score map is empty exactly when the graph is. */
  lemma ScoresEmptyIff(g: Graph, rank: Graph -> map<string, real>)
    requires rank(g).Keys == g.nodes
    ensures Scores(g, rank) == map[] <==> g.nodes == {}
  {
    if g.nodes != {} {
      var n :| n in g.nodes;
      assert n in Scores(g, rank);
    }
  }
}
