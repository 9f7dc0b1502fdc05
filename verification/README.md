# Wikipedia person network: graph assembly and filtering

A model of the non-UI logic of the Streamlit dashboard `streamlit_app.py`. The
dashboard takes a person from a CSV of Latin American intellectuals and reads that
person's Wikipedia page (the *focal* page). It then builds a directed link graph and
restricts it to people in the CSV, and optionally to selected genders. Finally it
scores the graph with PageRank and tabulates each node's degrees and CSV attributes.

The script is top-level code. Here it is lifted into pure functions over immutable
sets and sequences:

- `Digraph`: graphs as a node set plus a set of ordered edge pairs, the induced
  subgraph (`G.subgraph(...).copy()`), and in- and out-edges.
- `Dataset`: CSV rows `(Name, Gender, Occupation)`. A NaN cell is `Missing`. The module
  also has the name set, first-matching-row lookups with the `"Unknown"` fallback, and
  the names whose gender is selected.
- `Builder`: the Wikipedia link service as a parameter `string -> Option<seq<string>>`,
  where `None` means the lookup raised. It defines the cap on the focal page's links,
  the back-link loop (`Build`), and `BuildGraph`, a loop-by-loop version of the script
  proved to build the same graph.
- `Filters`: the CSV filter and the gender filter, both induced subgraphs.
- `Metrics`: the guard that skips PageRank on an empty graph, and the metric rows.
- `Degrees`: the in- and out-degrees of every node of a filtered star graph.
- `Pipeline`: one full pass (`Explore`) with its end-to-end properties. It also holds
  the worked example of Gabriela Mistral, Pablo Neruda and Jorge Luis Borges.

Behaviours of the code worth knowing:

- The filters do not protect the focal node. The gender filter removes it whenever none
  of its CSV rows has a selected gender (`Pipeline.FocalFate`,
  `Pipeline.MistralGenderExample`). The CSV filter keeps it only because the focal person
  is chosen from the CSV's names (line 14).
- There is no page-exists check. A missing page has no links, so the graph is the focal
  node alone (`Builder.BuildNoLinks`). A focal lookup that *raises* is outside the `try`
  and stops the script, so `Explore` returns `None`.
- Titles are filtered only by exact membership in the CSV's names.
- If the focal page lists itself within the cap, the outgoing loop adds a self-loop
  `(focal, focal)` whether or not a back-link is found. `Builder.Build` states the
  edges into the focal node with that case included.
- Duplicate names: the gender filter keeps a person when ANY of their rows has a
  selected gender, but the table shows the FIRST row's gender. `Dataset.ShownGenderMayDiffer`
  exhibits the mismatch. `Dataset.ShownGenderSelected` proves that unique names rule it out.

## Model

| member | source | states |
|---|---|---|
| Digraph.Induce | streamlit_app.py:44-45 | the result has exactly the nodes of `g` that are in `keep`, every edge of `g` between two of them and no other edge, and it is well-formed |
| Digraph.InducedUnique | streamlit_app.py:45 | two induced subgraphs of the same graph on the same node set are equal, so "induced subgraph on S" is one graph |
| Digraph.InduceTwice | streamlit_app.py:45-50 | restricting to `a` and then to `b` is the same as restricting once to `a ∩ b` |
| Digraph.InduceAll | streamlit_app.py:45 | restricting a well-formed graph to a superset of its nodes returns the graph unchanged |
| Digraph.InduceIdempotent | streamlit_app.py:45 | restricting twice to the same set is restricting once |
| Digraph.InducedStar | streamlit_app.py:44-50 | an induced subgraph of a star around `hub` is still a star around `hub` |
| Digraph.InducedTransitive | streamlit_app.py:44-50 | an induced subgraph of an induced subgraph is induced in the original graph |
| Dataset.PeopleSet | streamlit_app.py:10 | a name is in the people set exactly when some row carries it, and NaN names are dropped |
| Dataset.FirstRow | streamlit_app.py:96-97 | returns the index of the first row, in file order, whose Name is `n`, and returns None exactly when no row names `n` |
| Dataset.NamesWithGender | streamlit_app.py:49 | a name is returned exactly when some row with that Name has a non-NaN Gender in the selection; all returned names are people |
| Dataset.GenderOf | streamlit_app.py:96 | the shown gender is the first matching row's Gender cell, NaN included, or "Unknown" when no row matches |
| Dataset.OccupationOf | streamlit_app.py:97 | the shown occupation is the first matching row's Occupation cell, or "Unknown" when no row matches |
| Dataset.ShownGenderSelected | streamlit_app.py:49-50 | when names are unique, a person kept by a gender selection is shown with one of the selected genders |
| Dataset.ShownGenderMayDiffer | streamlit_app.py:49-96 | with a duplicated name, a person kept under "M" can be shown as "F" |
| Builder.Cap | streamlit_app.py:28 | the outgoing list is the prefix of the page's titles, in the page's order, of length min(max_links, number of titles) |
| Builder.Incoming | streamlit_app.py:30-38 | a title is collected exactly when it is in the capped list and `LinksBack` holds of it: its own page lookup succeeds and lists the focal name (lines 32-34); a raising lookup is skipped (lines 37-38) |
| Builder.Build | streamlit_app.py:25-41 | the focal node is always present; nodes are the focal node and the capped titles only; every edge touches the focal node; `(focal, t)` is an edge iff `t` is capped; `(t, focal)` is an edge iff `t` is capped and `LinksBack` holds of it, or `t` is the focal node and is capped |
| Builder.BuildNoLinks | streamlit_app.py:25-28 | with a cap of zero or a page without links, the graph is the focal node alone with no edges |
| Builder.CollectBacklinks | streamlit_app.py:30-38 | the first loop collects exactly `Incoming`'s list; its nodes are the focal node and those titles, and its edges run from each of them to the focal node |
| Builder.AddOutgoing | streamlit_app.py:40-41 | starting from nodes that already hold the focal node (line 26), the second loop adds every capped title as a node and an edge from the focal node to each of them, and nothing else |
| Builder.BuildGraph | streamlit_app.py:23-41 | the script's two loops build exactly `Build`'s graph, and nothing is built when the focal page lookup raises |
| Filters.CsvFilter | streamlit_app.py:44-45 | the kept nodes are the built nodes that are CSV names, and the result is the subgraph they induce |
| Filters.GenderFilter | streamlit_app.py:48-50 | with no gender selected the graph is unchanged; otherwise the nodes are the old nodes named by a row with a selected gender, edges are re-induced, and the graph only shrinks |
| Filters.Keep | streamlit_app.py:44-50 | the node set both filters let through is the CSV names, narrowed to names with a selected gender when any is selected |
| Filters.FiltersInduce | streamlit_app.py:44-50 | the two filters in sequence are one induced restriction of the built graph to `Keep` |
| Filters.CsvFilterIdempotent | streamlit_app.py:44-45 | applying the CSV filter a second time changes nothing |
| Filters.GenderFilterIdempotent | streamlit_app.py:48-50 | applying the same gender filter a second time changes nothing |
| Metrics.Scores | streamlit_app.py:53 | an empty graph gets the empty score map without consulting the ranking; a non-empty graph gets the ranking's scores |
| Metrics.ScoresEmptyIff | streamlit_app.py:53 | when the ranking scores exactly the graph's nodes, the score map is empty exactly when the graph has no nodes |
| Metrics.NodeMetrics | streamlit_app.py:92-105 | one row per node, none for an empty graph; each row has the node's in- and out-degree in the final graph (`Digraph.InDegree`/`Digraph.OutDegree`, the sizes of its sets of incoming and outgoing edges, lines 102-103), its score or 0, and the first matching CSV row's Gender and Occupation, or "Unknown" |
| Degrees.FocalGoneNoEdges | streamlit_app.py:44-50 | once a filter removes the focal node, no edge is left |
| Degrees.LeafDegrees | streamlit_app.py:102-103 | a surviving non-focal node has in-degree 1 iff the focal node survives (else 0), and out-degree 1 iff the focal node survives and its page links back (else 0) |
| Degrees.FocalOutDegree | streamlit_app.py:103 | a surviving focal node's out-degree is the number of other survivors, plus one when its page lists itself within the cap |
| Degrees.FocalInDegree | streamlit_app.py:102 | a surviving focal node's in-degree is the number of distinct survivors that link back, the self-loop included |
| Degrees.FocalInAtMostOut | streamlit_app.py:30-41 | incoming candidates come from the capped outgoing list, so the focal node's in-degree never exceeds its out-degree |
| Pipeline.Explore | streamlit_app.py:23-53 | no report exactly when the focal lookup raises; otherwise the graph shown is the built graph restricted to `Keep`, the table has one row per shown node, and an empty graph has an empty score map |
| Pipeline.ExploreShape | streamlit_app.py:25-50 | the graph shown is a well-formed star around the focal node, induced in the built graph, and its nodes are CSV names that are the focal node or capped links |
| Pipeline.FocalFate | streamlit_app.py:14-50 | a focal person drawn from the CSV always survives the CSV filter, and survives the whole pass iff no gender is selected or one of their rows has a selected gender |
| Pipeline.NoGenderNoChange | streamlit_app.py:48 | with no gender selected, the graph shown is the CSV-filtered graph |
| Pipeline.GenderOnlyShrinks | streamlit_app.py:48-50 | a gender selection never adds a node: the graph shown with it is induced in the graph shown without it |
| Pipeline.ExampleBuilt | streamlit_app.py:25-41 | the worked example builds four nodes, three outgoing edges and one back-link |
| Pipeline.ExamplePeople | streamlit_app.py:10 | the worked example's CSV names are the three poets |
| Pipeline.ExampleShown | streamlit_app.py:44-50 | in the worked example, both filters leave Mistral and Neruda linked both ways |
| Pipeline.MistralExample | streamlit_app.py:25-105 | in the worked example, Chile and the Nobel Prize are dropped; Mistral and Neruda are linked both ways, each with in- and out-degree 1 |
| Pipeline.GenderedShown | streamlit_app.py:44-50 | in the gendered example with "Male" selected, the filters leave Neruda alone with no edge |
| Pipeline.MistralGenderExample | streamlit_app.py:25-105 | with "Male" selected, the focal node is dropped and Neruda is left alone with degrees 0 and gender "Male" |

## Left out

- The Wikipedia API (`wiki.page`, `page.links`, lines 22-23 and 33-34) is network I/O. It is the `LinkSource` parameter, and its enumeration order is taken as given.
- Reading the CSV with pandas (line 9) is library I/O. The rows are an input sequence. Only the Name, Gender and Occupation columns are modelled, because the code reads no other column.
- The sidebar widgets, titles, warnings and success messages (lines 13-20, 57, 87-89, 107-108) are UI. `max_links` is any natural number, not just the slider's 10 to 2000 in steps of 10, because slicing behaves the same for every cap. The gender selection is a set, because only its membership and emptiness are read.
- The PageRank values (line 53) are floating-point library numerics. The ranking is a parameter.
- Metrics.Scores: says nothing about the score values, such as their sum of 1, because they come from the library's floating-point PageRank.
- Metrics.NodeMetrics: the PageRank column is not rounded to 5 places (line 104), because that is float rounding.
- The final `sort_values` on PageRank (line 108) is a library sort on float keys. Row order is also left out: the rows are a map keyed by node name.
- The 3-D spring layout, the Plotly traces, marker sizing and the `None` separators (lines 58-86) are rendering.
- `dict(G.degree())` on line 93 is computed but never used.
- An empty people set, where the selectbox yields no person, is not modelled. The script cannot build a page for it.
