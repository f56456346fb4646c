/** The dashboard's data logic (app.py): the choices offered in the
    sidebar, the filtered view, the map's location triples and the choice
    between a panel and its "no data" message. The widgets themselves are
    inputs: the selected parameter, locations and date range arrive as a
    Criteria value. */
module Dashboard {
  import opened Wrappers
  import opened Seqs
  import opened Text
  import opened Schema

  /** The cleaned table as the dashboard loads it. */
  type Table = seq<Row>

  function ParameterOf(r: Row): Option<string> { r.parameter }
  function LocationOf(r: Row): Option<string> { r.location }
  function DateOf(r: Row): Option<Date> { r.date }

  // ---------------------------------------------------------------------
  // Sidebar choices

  /** `sorted(df['Parameter'].dropna().unique())`. */
  function ParameterChoices(t: Table): (choices: seq<string>)
    ensures StrictlySorted(choices)
    ensures forall p :: p in choices <==> Some(p) in MapSeq(t, ParameterOf)
  {
    SortedUnique(Present(MapSeq(t, ParameterOf)))
  }

  /** The parameter choices are exactly the parameters some row carries. */
  lemma ParameterChoicesComplete(t: Table, p: string)
    ensures p in ParameterChoices(t) <==> exists i :: 0 <= i < |t| && t[i].parameter == Some(p)
  {
    var column := MapSeq(t, ParameterOf);
    if Some(p) in column {
      var i :| 0 <= i < |column| && column[i] == Some(p);
      assert t[i].parameter == Some(p);
    }
    if exists i :: 0 <= i < |t| && t[i].parameter == Some(p) {
      var i :| 0 <= i < |t| && t[i].parameter == Some(p);
      assert column[i] == Some(p);
    }
  }

  /** The select box starts on the first choice; with no choices it
      selects nothing. */
  function DefaultParameter(t: Table): (selected: Option<string>)
    ensures selected.None? <==> forall i :: 0 <= i < |t| ==> t[i].parameter.None?
    ensures selected.Some? ==> selected.value in ParameterChoices(t)
    ensures selected.Some? ==> forall p :: p in ParameterChoices(t) ==> Below(selected.value, p)
  {
    var choices := ParameterChoices(t);
    if choices == [] then
      forall i | 0 <= i < |t| ensures t[i].parameter.None? {
        if t[i].parameter.Some? {
          ParameterChoicesComplete(t, t[i].parameter.value);
        }
      }
      None
    else
      ParameterChoicesComplete(t, choices[0]);
      assert forall p :: p in choices ==> Below(choices[0], p) by {
        forall p | p in choices ensures Below(choices[0], p) {
          var k :| 0 <= k < |choices| && choices[k] == p;
          if k == 0 {
            BelowReflexive(p);
          }
        }
      }
      Some(choices[0])
  }

  /** Rows whose Parameter is the selected one; selecting nothing (an empty
      select box) matches no row, as `== None` does on a column. */
  predicate HasParameter(selected: Option<string>, r: Row) {
    selected.Some? && r.parameter == selected
  }

  function HasParameterFn(selected: Option<string>): Row -> bool {
    r => HasParameter(selected, r)
  }

  /** `df[df['Parameter'] == selected_param]['Location'].dropna().unique()`:
      in order of first appearance. */
  function LocationsSeen(t: Table, selected: Option<string>): (seen: seq<string>)
    ensures NoDup(seen)
    ensures forall x :: x in seen <==> Some(x) in MapSeq(Filter(t, HasParameterFn(selected)), LocationOf)
  {
    Distinct(Present(MapSeq(Filter(t, HasParameterFn(selected)), LocationOf)))
  }

  /** A location is seen exactly when a row with the selected parameter
      carries it. */
  lemma LocationsSeenExact(t: Table, selected: Option<string>, x: string)
    ensures x in LocationsSeen(t, selected)
        <==> exists i :: 0 <= i < |t| && HasParameter(selected, t[i]) && t[i].location == Some(x)
  {
    var rows := Filter(t, HasParameterFn(selected));
    var column := MapSeq(rows, LocationOf);
    if Some(x) in column {
      var k :| 0 <= k < |column| && column[k] == Some(x);
      assert rows[k] in rows;
      var i :| 0 <= i < |t| && t[i] == rows[k];
      assert HasParameterFn(selected)(rows[k]);
    }
    if exists i :: 0 <= i < |t| && HasParameter(selected, t[i]) && t[i].location == Some(x) {
      var i :| 0 <= i < |t| && HasParameter(selected, t[i]) && t[i].location == Some(x);
      assert t[i] in t && HasParameterFn(selected)(t[i]);
      assert t[i] in rows;
      var k :| 0 <= k < |rows| && rows[k] == t[i];
      assert column[k] == Some(x);
    }
  }

  /** A row of the table carries location `x` under the selected parameter. */
  predicate Carries(selected: Option<string>, r: Row, x: string) {
    HasParameter(selected, r) && r.location == Some(x)
  }

  /** Some row carrying `x` comes before every row carrying `y`. */
  ghost predicate SeenBefore(t: Table, selected: Option<string>, x: string, y: string) {
    exists i :: 0 <= i < |t| && Carries(selected, t[i], x) && forall j :: 0 <= j <= i ==> !Carries(selected, t[j], y)
  }

  /** One more row adds its location at the end when it carries the selected
      parameter and a location not seen before. */
  lemma LocationsSeenSnoc(t: Table, r: Row, selected: Option<string>)
    ensures LocationsSeen(t + [r], selected)
         == if HasParameter(selected, r) && r.location.Some? && r.location.value !in LocationsSeen(t, selected)
            then LocationsSeen(t, selected) + [r.location.value]
            else LocationsSeen(t, selected)
  {
    var u := t + [r];
    var keep := HasParameterFn(selected);
    assert u[..|u| - 1] == t;
    FilterLast(u, keep);
    var rows := Filter(t, keep);
    var tail := if keep(r) then [r] else [];
    MapConcat(rows, tail, LocationOf);
    var cells := MapSeq(rows, LocationOf);
    var cells' := MapSeq(rows + tail, LocationOf);
    if keep(r) {
      assert cells' == cells + [r.location];
      assert cells'[..|cells'| - 1] == cells;
      var present := Present(cells);
      if r.location.Some? {
        assert Present(cells') == present + [r.location.value];
        assert (present + [r.location.value])[..|present|] == present;
      } else {
        assert Present(cells') == present;
      }
    } else {
      assert rows + tail == rows;
    }
  }

  /** An order of first appearance survives one more row. */
  lemma SeenBeforeSnoc(t: Table, r: Row, selected: Option<string>, x: string, y: string)
    requires SeenBefore(t, selected, x, y)
    ensures SeenBefore(t + [r], selected, x, y)
  {
    var i :| 0 <= i < |t| && Carries(selected, t[i], x) && forall j :: 0 <= j <= i ==> !Carries(selected, t[j], y);
    assert forall j :: 0 <= j <= i ==> (t + [r])[j] == t[j];
    assert Carries(selected, (t + [r])[i], x);
  }

  /** A location already seen comes before one not seen yet. */
  lemma SeenBeforeUnseen(t: Table, r: Row, selected: Option<string>, x: string, y: string)
    requires x in LocationsSeen(t, selected) && y !in LocationsSeen(t, selected)
    ensures SeenBefore(t + [r], selected, x, y)
  {
    LocationsSeenExact(t, selected, x);
    LocationsSeenExact(t, selected, y);
    var i :| 0 <= i < |t| && HasParameter(selected, t[i]) && t[i].location == Some(x);
    assert forall j :: 0 <= j <= i ==> (t + [r])[j] == t[j];
    assert Carries(selected, (t + [r])[i], x);
  }

  /** The locations are seen in order of first appearance: of two seen
      locations, the earlier one is carried by a row before every row
      carrying the later one. */
  lemma {:induction false} LocationsSeenInOrder(t: Table, selected: Option<string>)
    ensures forall k, l :: 0 <= k < l < |LocationsSeen(t, selected)|
              ==> SeenBefore(t, selected, LocationsSeen(t, selected)[k], LocationsSeen(t, selected)[l])
  {
    if t != [] {
      var n := |t| - 1;
      var init, r := t[..n], t[n];
      assert init + [r] == t;
      LocationsSeenInOrder(init, selected);
      LocationsSeenSnoc(init, r, selected);
      var before, after := LocationsSeen(init, selected), LocationsSeen(t, selected);
      forall k, l | 0 <= k < l < |after| ensures SeenBefore(t, selected, after[k], after[l]) {
        if l < |before| {
          SeenBeforeSnoc(init, r, selected, before[k], before[l]);
        } else {
          SeenBeforeUnseen(init, r, selected, before[k], after[l]);
        }
      }
    }
  }

  /** `sorted(locations)`: the options of the location multiselect. */
  function LocationOptions(t: Table, selected: Option<string>): (options: seq<string>)
    ensures StrictlySorted(options)
    ensures |options| == |LocationsSeen(t, selected)|
    ensures forall x :: x in options <==> x in LocationsSeen(t, selected)
  {
    var seen := LocationsSeen(t, selected);
    SortDistinct(seen);
    Sort(seen)
  }

  /** The location options are exactly the locations of rows carrying the
      selected parameter, sorted and without repeats. */
  lemma LocationOptionsExact(t: Table, selected: Option<string>, x: string)
    ensures x in LocationOptions(t, selected)
        <==> exists i :: 0 <= i < |t| && HasParameter(selected, t[i]) && t[i].location == Some(x)
  {
    LocationsSeenExact(t, selected, x);
  }

  /** `sorted(locations[:3])`: the first three locations seen, sorted (not
      the first three options); LocationsSeenInOrder says which those are. */
  function DefaultLocations(t: Table, selected: Option<string>): (defaults: seq<string>)
    ensures StrictlySorted(defaults)
    ensures |defaults| == if |LocationOptions(t, selected)| < 3 then |LocationOptions(t, selected)| else 3
    ensures forall x :: x in defaults ==> x in LocationOptions(t, selected)
    ensures var seen := LocationsSeen(t, selected);
            forall x :: x in defaults <==> x in seen[..if |seen| < 3 then |seen| else 3]
  {
    var seen := LocationsSeen(t, selected);
    var n := if |seen| < 3 then |seen| else 3;
    var first := seen[..n];
    assert NoDup(first);
    SortDistinct(first);
    assert forall x :: x in first ==> x in seen;
    Sort(first)
  }

  // ---------------------------------------------------------------------
  // Date range

  /** The earliest of a non-empty list of dates. */
  function Earliest(ds: seq<Date>): (m: Date)
    requires ds != []
    ensures m in ds
    ensures forall d :: d in ds ==> m <= d
  {
    if |ds| == 1 then ds[0]
    else
      var rest := Earliest(ds[1..]);
      assert forall d :: d in ds ==> d == ds[0] || d in ds[1..];
      if ds[0] < rest then ds[0] else rest
  }

  /** The latest of a non-empty list of dates. */
  function Latest(ds: seq<Date>): (m: Date)
    requires ds != []
    ensures m in ds
    ensures forall d :: d in ds ==> d <= m
  {
    if |ds| == 1 then ds[0]
    else
      var rest := Latest(ds[1..]);
      assert forall d :: d in ds ==> d == ds[0] || d in ds[1..];
      if ds[0] > rest then ds[0] else rest
  }

  /** `[df['Date'].min(), df['Date'].max()]`, skipping missing dates; there
      is no range when no row has a date. */
  function DateRange(t: Table): (range: Option<(Date, Date)>)
    ensures range.None? <==> forall i :: 0 <= i < |t| ==> t[i].date.None?
    ensures range.Some? ==> range.value.0 <= range.value.1
    ensures range.Some? ==> forall i :: 0 <= i < |t| && t[i].date.Some? ==> range.value.0 <= t[i].date.value <= range.value.1
    ensures range.Some? ==> exists i :: 0 <= i < |t| && t[i].date == Some(range.value.0)
    ensures range.Some? ==> exists i :: 0 <= i < |t| && t[i].date == Some(range.value.1)
  {
    var column := MapSeq(t, DateOf);
    var ds := Present(column);
    if ds == [] then
      assert forall i :: 0 <= i < |t| ==> column[i] == t[i].date;
      None
    else
      var lo, hi := Earliest(ds), Latest(ds);
      assert Some(lo) in column && Some(hi) in column;
      Some((lo, hi))
  }

  // ---------------------------------------------------------------------
  // The filtered view

  /** What the sidebar hands to the filter: the selected parameter, the
      selected locations and the two ends of the date range. */
  datatype Criteria = Criteria(parameter: Option<string>, locations: seq<string>, start: Date, end: Date)

  /** The boolean mask: Parameter equal to the selection, Location among
      the selected ones, and start <= Date <= end, both ends inclusive. A
      missing cell fails its comparison. */
  predicate Matches(c: Criteria, r: Row) {
    && HasParameter(c.parameter, r)
    && r.location.Some? && r.location.value in c.locations
    && r.date.Some? && c.start <= r.date.value && r.date.value <= c.end
  }

  function MatchesFn(c: Criteria): Row -> bool {
    r => Matches(c, r)
  }

  /** `df[mask].copy()`. */
  function FilteredView(t: Table, c: Criteria): (view: Table)
    ensures |view| <= |t|
    ensures forall r :: r in view <==> r in t && Matches(c, r)
  {
    Filter(t, MatchesFn(c))
  }

  /** The view is the table restricted to an increasing list of positions,
      and a position is kept exactly when its row matches the criteria. */
  lemma ViewIsStableSelection(t: Table, c: Criteria)
    ensures var idx := FilterIndices(t, MatchesFn(c));
            && SubsequenceAt(FilteredView(t, c), t, idx)
            && forall i :: 0 <= i < |t| ==> (i in idx <==> Matches(c, t[i]))
  {
    FilterIsSubsequence(t, MatchesFn(c));
    FilterIndicesExact(t, MatchesFn(c));
  }

  /** Both ends of the range are kept: a matching row dated exactly on the
      start or the end is in the view. */
  lemma ViewKeepsRangeEnds(t: Table, c: Criteria, i: nat)
    requires i < |t| && HasParameter(c.parameter, t[i])
    requires t[i].location.Some? && t[i].location.value in c.locations
    requires t[i].date == Some(c.start) || t[i].date == Some(c.end)
    requires c.start <= c.end
    ensures t[i] in FilteredView(t, c)
  {
    assert t[i] in t;
  }

  /** Filtering the view again with the same criteria changes nothing. */
  lemma ViewIdempotent(t: Table, c: Criteria)
    ensures FilteredView(FilteredView(t, c), c) == FilteredView(t, c)
  {
    FilterIdempotent(t, MatchesFn(c));
  }

  /** With the default range [earliest date, latest date] the date
      conjuncts exclude no dated row: the view is the rows with the
      selected parameter and location and some date. */
  lemma DefaultRangeKeepsAllDates(t: Table, parameter: Option<string>, locations: seq<string>)
    requires DateRange(t).Some?
    ensures var c := Criteria(parameter, locations, DateRange(t).value.0, DateRange(t).value.1);
            FilteredView(t, c) == Filter(t, HasParameterLocationFn(parameter, locations))
  {
    var c := Criteria(parameter, locations, DateRange(t).value.0, DateRange(t).value.1);
    FilterAgree(t, MatchesFn(c), HasParameterLocationFn(parameter, locations));
  }

  /** The mask without its date conjuncts, for rows that have a date. */
  predicate HasParameterLocation(parameter: Option<string>, locations: seq<string>, r: Row) {
    && HasParameter(parameter, r)
    && r.location.Some? && r.location.value in locations
    && r.date.Some?
  }

  function HasParameterLocationFn(parameter: Option<string>, locations: seq<string>): Row -> bool {
    r => HasParameterLocation(parameter, locations, r)
  }

  // ---------------------------------------------------------------------
  // The map

  /** One marker: a location with its coordinates (kept as text). */
  datatype Point = Point(location: string, latitude: string, longitude: string)

  /** The row's triple when none of its three cells is missing. */
  function PointOf(r: Row): Option<Point> {
    if r.location.Some? && r.latitude.Some? && r.longitude.Some? then
      Some(Point(r.location.value, r.latitude.value, r.longitude.value))
    else None
  }

  /** `view[['Location', 'Latitude', 'Longitude']].dropna().drop_duplicates()`. */
  function MapPoints(view: Table): (points: seq<Point>)
    ensures NoDup(points)
    ensures |points| <= |view|
    ensures forall p :: p in points <==> Some(p) in MapSeq(view, PointOf)
  {
    Distinct(Present(MapSeq(view, PointOf)))
  }

  /** Each marker is the triple of a filtered row of the table, and each
      complete triple of a filtered row is a marker. */
  lemma MapPointsExact(t: Table, c: Criteria, p: Point)
    ensures p in MapPoints(FilteredView(t, c))
        <==> exists i :: 0 <= i < |t| && Matches(c, t[i]) && PointOf(t[i]) == Some(p)
  {
    var view := FilteredView(t, c);
    var column := MapSeq(view, PointOf);
    if Some(p) in column {
      var k :| 0 <= k < |column| && column[k] == Some(p);
      assert view[k] in view;
      var i :| 0 <= i < |t| && t[i] == view[k];
    }
    if exists i :: 0 <= i < |t| && Matches(c, t[i]) && PointOf(t[i]) == Some(p) {
      var i :| 0 <= i < |t| && Matches(c, t[i]) && PointOf(t[i]) == Some(p);
      assert t[i] in t;
      var k :| 0 <= k < |view| && view[k] == t[i];
      assert column[k] == Some(p);
    }
  }

  // ---------------------------------------------------------------------
  // Empty results

  /** The map column shows the markers, or a notice when there are none. */
  datatype MapPanel = NoMapData | Scatter(points: seq<Point>)

  /** The chart column shows the time series, or a warning when the view
      is empty. */
  datatype ChartPanel = NoChartData | TimeSeries(rows: Table)

  function ShowMap(view: Table): MapPanel {
    var points := MapPoints(view);
    if points == [] then NoMapData else Scatter(points)
  }

  function ShowChart(view: Table): ChartPanel {
    if view == [] then NoChartData else TimeSeries(view)
  }

  /** The notice replaces the map exactly when no filtered row has all of
      Location, Latitude and Longitude; otherwise the map shows the markers. */
  lemma ShowMapCases(t: Table, c: Criteria)
    ensures ShowMap(FilteredView(t, c)).NoMapData?
        <==> forall i :: 0 <= i < |t| && Matches(c, t[i]) ==> PointOf(t[i]).None?
    ensures ShowMap(FilteredView(t, c)).Scatter? ==> ShowMap(FilteredView(t, c)).points == MapPoints(FilteredView(t, c))
  {
    var points := MapPoints(FilteredView(t, c));
    if points != [] {
      MapPointsExact(t, c, points[0]);
    } else {
      forall i | 0 <= i < |t| && Matches(c, t[i]) ensures PointOf(t[i]).None? {
        if PointOf(t[i]).Some? {
          MapPointsExact(t, c, PointOf(t[i]).value);
        }
      }
    }
  }

  /** The warning replaces the chart exactly when no row matches the
      criteria; an empty selection is a normal outcome, and an empty view
      also shows the map notice. */
  lemma ShowChartCases(t: Table, c: Criteria)
    ensures ShowChart(FilteredView(t, c)).NoChartData?
        <==> forall i :: 0 <= i < |t| ==> !Matches(c, t[i])
    ensures ShowChart(FilteredView(t, c)).NoChartData? ==> ShowMap(FilteredView(t, c)).NoMapData?
  {
    var view := FilteredView(t, c);
    if view != [] {
      assert view[0] in view;
    } else {
      forall i | 0 <= i < |t| ensures !Matches(c, t[i]) {
        assert t[i] in t;
      }
    }
  }
}
