/** The page state of `docs/tables.js`: the loaded team rows and the
    league average kept between events, the rows last handed to the table
    widget, and the widget's team filter. */
module TablesPage {
  import opened Options
  import opened Tables

  /** The rows `renderTable` hands to the table: the average first, then
      the teams, all of them passed through `withDeltas` when the delta
      toggle is on. */
  function ViewRows(baseRows: seq<Row>, avg: Row, deltaMode: bool): (rows: seq<Row>)
    ensures |rows| == |baseRows| + 1
  {
    var rowsWithAvg := [avg] + baseRows;
    if deltaMode then WithDeltas(rowsWithAvg, avg) else rowsWithAvg
  }

  /** The view starts with the average row itself, in either mode, and
      then lists the teams in order: unchanged, or as their differences
      from the average when the toggle is on. */
  lemma ViewRowsShape(baseRows: seq<Row>, avg: Row, deltaMode: bool)
    requires avg.isAvg
    requires forall i :: 0 <= i < |baseRows| ==> !baseRows[i].isAvg
    ensures var rows := ViewRows(baseRows, avg, deltaMode);
      && rows[0] == avg
      && forall i :: 0 <= i < |baseRows| ==>
           rows[i + 1] == if deltaMode then DeltaRow(baseRows[i], avg) else baseRows[i]
  {
    var rowsWithAvg := [avg] + baseRows;
    assert rowsWithAvg[0] == avg;
    assert forall i :: 0 <= i < |baseRows| ==> rowsWithAvg[i + 1] == baseRows[i];
  }

  /** With no teams the toggle makes no difference: the view is the
      average row alone. */
  lemma ViewRowsNoTeams(avg: Row, deltaMode: bool)
    requires avg.isAvg
    ensures ViewRows([], avg, deltaMode) == [avg]
  {
    assert [avg] + [] == [avg];
  }

  /** However the filter is set, the average row stays visible. */
  lemma AverageAlwaysShown(baseRows: seq<Row>, avg: Row, deltaMode: bool, q: Option<string>)
    requires avg.isAvg
    requires forall i :: 0 <= i < |baseRows| ==> !baseRows[i].isAvg
    ensures avg in Filtered(ViewRows(baseRows, avg, deltaMode), q)
  {
    ViewRowsShape(baseRows, avg, deltaMode);
    FilteredMembers(ViewRows(baseRows, avg, deltaMode), q, avg);
  }

  /** The page state before a successful load (nothing loaded, nothing
      shown) or after it (the average is the average of the loaded rows
      and the table holds their view). */
  predicate Consistent(baseRows: seq<Row>, leagueAvg: Option<Row>, data: seq<Row>, deltaMode: bool) {
    && (forall r :: r in baseRows ==> Loaded(r))
    && (leagueAvg.None? ==> baseRows == [] && data == [])
    && (leagueAvg.Some? ==>
          && leagueAvg.value == ComputeLeagueAvg(baseRows)
          && data == ViewRows(baseRows, leagueAvg.value, deltaMode))
  }

  /** The page: the module-level `baseRows` and `leagueAvg`, the delta
      toggle (which may be absent), and the table widget's data and
      filter. */
  class Page {
    var baseRows: seq<Row>
    var leagueAvg: Option<Row>
    const hasToggle: bool
    var toggleChecked: bool
    var data: seq<Row>
    var query: Option<string>

    /** Whether `renderTable` builds delta rows: the toggle exists and is
        checked. Without the toggle there are never delta rows. */
    function DeltaMode(): (on: bool)
      reads this
      ensures on ==> hasToggle && toggleChecked
    {
      hasToggle && toggleChecked
    }

    /** Before a successful load nothing is shown; after it the average is
        the average of the loaded rows and the table shows the view for
        the current toggle state. */
    predicate Valid()
      reads this
    {
      Consistent(baseRows, leagueAvg, data, DeltaMode())
    }

    /** The page as the script starts: no rows, no average, no filter. */
    constructor(hasToggle: bool, toggleChecked: bool)
      ensures Valid()
      ensures this.hasToggle == hasToggle && this.toggleChecked == toggleChecked
      ensures baseRows == [] && leagueAvg.None? && data == [] && query.None?
    {
      this.hasToggle := hasToggle;
      this.toggleChecked := toggleChecked;
      baseRows := [];
      leagueAvg := None;
      data := [];
      query := None;
    }

    /** `renderTable()`: hands the view of the current rows to the table. */
    method RenderTable()
      requires leagueAvg.Some?
      modifies this
      ensures baseRows == old(baseRows) && leagueAvg == old(leagueAvg)
      ensures toggleChecked == old(toggleChecked) && query == old(query)
      ensures data == ViewRows(baseRows, leagueAvg.value, DeltaMode())
      ensures hasToggle && toggleChecked ==> data == WithDeltas([leagueAvg.value] + baseRows, leagueAvg.value)
      ensures !(hasToggle && toggleChecked) ==> data == [leagueAvg.value] + baseRows
    {
      var rowsWithAvg := [leagueAvg.value] + baseRows;
      if DeltaMode() {
        data := WithDeltas(rowsWithAvg, leagueAvg.value);
      } else {
        data := rowsWithAvg;
      }
    }

    /** The load at start-up: the records parsed from the CSV, or `None`
        when the fetch or the parse failed, which leaves the page as it
        was. */
    method Load(fetched: Option<seq<RawRecord>>)
      requires Valid()
      modifies this
      ensures Valid()
      ensures fetched.Some? ==>
        && baseRows == LoadRows(fetched.value)
        && leagueAvg == Some(ComputeLeagueAvg(baseRows))
        && data == ViewRows(baseRows, leagueAvg.value, DeltaMode())
      ensures fetched.None? ==> baseRows == old(baseRows) && leagueAvg == old(leagueAvg) && data == old(data)
      ensures toggleChecked == old(toggleChecked) && query == old(query)
    {
      if fetched.Some? {
        baseRows := LoadRows(fetched.value);
        LoadRowsLoaded(fetched.value);
        leagueAvg := Some(ComputeLeagueAvg(baseRows));
        RenderTable();
      }
    }

    /** The toggle's change handler: the box takes the new state, and the
        table is rendered again only once an average exists and at least
        one team was loaded. */
    method OnToggleChange(checked: bool)
      requires hasToggle && Valid()
      modifies this
      ensures Valid()
      ensures toggleChecked == checked
      ensures leagueAvg.Some? && |baseRows| > 0 ==> data == ViewRows(baseRows, leagueAvg.value, checked)
      ensures !(leagueAvg.Some? && |baseRows| > 0) ==> data == old(data)
      ensures baseRows == old(baseRows) && leagueAvg == old(leagueAvg) && query == old(query)
    {
      toggleChecked := checked;
      if leagueAvg.Some? && |baseRows| > 0 {
        RenderTable();
      } else if leagueAvg.Some? {
        ViewRowsNoTeams(leagueAvg.value, !checked);
        ViewRowsNoTeams(leagueAvg.value, checked);
      }
    }

    /** The filter box's input handler: a blank query clears the filter,
        any other sets it. */
    method OnFilterInput(text: string)
      requires Valid()
      modifies this
      ensures Valid()
      ensures query == FilterQuery(text)
      ensures baseRows == old(baseRows) && leagueAvg == old(leagueAvg) && data == old(data)
      ensures toggleChecked == old(toggleChecked)
    {
      query := FilterQuery(text);
    }

    /** The rows the table displays: its data under its filter. */
    function Visible(): (rows: seq<Row>)
      reads this
      ensures |rows| <= |data|
    {
      Filtered(data, query)
    }

    /** Once loaded, the league average is always on display. */
    lemma AverageVisible()
      requires Valid() && leagueAvg.Some?
      ensures leagueAvg.value in Visible()
    {
      var avg := leagueAvg.value;
      forall i | 0 <= i < |baseRows|
        ensures !baseRows[i].isAvg
      {
        assert Loaded(baseRows[i]);
      }
      AverageAlwaysShown(baseRows, avg, DeltaMode(), query);
    }
  }
}
