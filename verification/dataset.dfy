/**
  The reference CSV of people, as the dashboard reads it with pandas: a sequence of rows
  in file order, each with a Name, a Gender and an Occupation cell. A cell pandas reads
  as NaN is `Missing`.
 */
module Dataset {

  import opened Optional

  datatype Cell = Missing | Text(value: string)

  datatype Record = Record(name: Cell, gender: Cell, occupation: Cell)

  /** `n` is in `df["Name"].values`. */
  predicate Listed(records: seq<Record>, n: string) {
    exists i :: 0 <= i < |records| && records[i].name == Text(n)
  }

  /** `set(df["Name"].dropna().unique())`: every name some row carries. */
  function PeopleSet(records: seq<Record>): (people: set<string>)
    ensures forall i :: 0 <= i < |records| && records[i].name.Text? ==> records[i].name.value in people
    ensures forall n :: n in people ==> Listed(records, n)
  {
    set i | 0 <= i < |records| && records[i].name.Text? :: records[i].name.value
  }

  /**
    The index of the first row, in file order, whose Name is `n`: the row that
    `df[df["Name"] == node][...].values[0]` reads. None when no row names `n`.
   */
  function FirstRow(records: seq<Record>, n: string): (r: Option<nat>)
    ensures r.Some? ==> r.value < |records| && records[r.value].name == Text(n)
    ensures r.Some? ==> forall j :: 0 <= j < r.value ==> records[j].name != Text(n)
    ensures r.None? <==> !Listed(records, n)
  {
    if |records| == 0 then None
    else if records[0].name == Text(n) then
      Some(0)
    else
      var tail := FirstRow(records[1..], n);
      assert forall j :: 1 <= j < |records| ==> records[j] == records[1..][j - 1];
      match tail
      case None => None
      case Some(k) => Some(k + 1)
  }

  /** The names of the rows whose Gender is one of `selected` (`df[df["Gender"].isin(...)]["Name"]`). */
  function NamesWithGender(records: seq<Record>, selected: set<string>): (names: set<string>)
    ensures names <= PeopleSet(records)
    ensures forall n :: n in names <==>
      exists i :: 0 <= i < |records| && records[i].name == Text(n) && records[i].gender.Text? && records[i].gender.value in selected
  {
    set i | 0 <= i < |records| && records[i].name.Text? && records[i].gender.Text? && records[i].gender.value in selected
      :: records[i].name.value
  }

  /** The text shown when a node has no row in the CSV. */
  const Unknown: Cell := Text("Unknown")

  /**
    The Gender shown for node `n`: the first matching row's Gender cell (NaN stays NaN),
    or "Unknown" when no row names `n`.
   */
  function GenderOf(records: seq<Record>, n: string): (c: Cell)
    ensures !Listed(records, n) ==> c == Unknown
    ensures Listed(records, n) ==> exists i :: 0 <= i < |records| && records[i].name == Text(n) && c == records[i].gender
    ensures forall i :: 0 <= i < |records| && records[i].name == Text(n) && (forall j :: 0 <= j < i ==> records[j].name != Text(n))
              ==> c == records[i].gender
  {
    match FirstRow(records, n)
    case Some(i) => records[i].gender
    case None => Unknown
  }

  /** The Occupation shown for node `n`, read the same way as its Gender. */
  function OccupationOf(records: seq<Record>, n: string): (c: Cell)
    ensures !Listed(records, n) ==> c == Unknown
    ensures Listed(records, n) ==> exists i :: 0 <= i < |records| && records[i].name == Text(n) && c == records[i].occupation
    ensures forall i :: 0 <= i < |records| && records[i].name == Text(n) && (forall j :: 0 <= j < i ==> records[j].name != Text(n))
              ==> c == records[i].occupation
  {
    match FirstRow(records, n)
    case Some(i) => records[i].occupation
    case None => Unknown
  }

  /** No two rows carry the same name. */
  predicate UniqueNames(records: seq<Record>) {
    forall i, j :: 0 <= i < j < |records| && records[i].name.Text? ==> records[i].name != records[j].name
  }

  /**
    With unique names, a person kept by a gender selection is shown with a selected
    gender: the row the filter matched is the row the metrics table reads.
   */
  lemma ShownGenderSelected(records: seq<Record>, selected: set<string>, n: string)
    requires UniqueNames(records)
    requires n in NamesWithGender(records, selected)
    ensures GenderOf(records, n).Text? && GenderOf(records, n).value in selected
  {
    var i :| 0 <= i < |records| && records[i].name == Text(n) && records[i].gender.Text? && records[i].gender.value in selected;
    var k := FirstRow(records, n).value;
    assert k == i;
  }

  /**
    With a duplicated name the two can disagree: the filter keeps a person when ANY of
    their rows has a selected gender, while the table shows the FIRST row's gender.
   */
  lemma ShownGenderMayDiffer()
    ensures var records := [Record(Text("A"), Text("F"), Missing), Record(Text("A"), Text("M"), Missing)];
            && "A" in NamesWithGender(records, {"M"})
            && GenderOf(records, "A") == Text("F")
  {
    var records := [Record(Text("A"), Text("F"), Missing), Record(Text("A"), Text("M"), Missing)];
    assert records[1].name == Text("A") && records[1].gender == Text("M");
    assert FirstRow(records, "A") == Some(0);
  }
}
