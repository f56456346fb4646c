/** The batch cleaner (clean_raw_data.py): rename and project the raw
    export, drop incomplete rows, parse Date and Value, standardise unit
    strings, drop rows whose parse failed. */
module Cleaner {
  import opened Wrappers
  import opened Seqs
  import opened Text
  import opened Schema

  // ---------------------------------------------------------------------
  // Unit standardisation

  /** The synonym table, keyed by trimmed lower-case unit strings. */
  const UnitSynonyms: map<string, string> := map[
    "mg/l" := "mg/L",
    "#/100ml" := "#/100mL",
    "cfu/100ml" := "#/100mL",
    "mpn/100ml" := "#/100mL",
    "ug/l" := "µg/L"
  ]

  /** The targets of the synonym table. */
  const CanonicalUnits: set<string> := {"mg/L", "#/100mL", "µg/L"}

  /** Strip, lower-case, then replace a whole value found in the table.
      Every result is a canonical unit or a trimmed lower-case string. */
  function NormalizeUnit(u: string): string {
    var key := Lower(Strip(u));
    if key in UnitSynonyms then UnitSynonyms[key] else key
  }

  /** Every result is a canonical unit or a trimmed lower-case string. */
  lemma NormalizeUnitRange(u: string)
    ensures NormalizeUnit(u) in CanonicalUnits || (IsLower(NormalizeUnit(u)) && IsStripped(NormalizeUnit(u)))
  {
    StripSpec(u);
    LowerSpec(Strip(u));
  }

  /** Case and surrounding whitespace do not matter to the result: two
      units that agree once lower-cased and stripped normalise alike. */
  lemma NormalizeUnitIgnoresCase(u: string, v: string)
    requires Strip(Lower(u)) == Strip(Lower(v))
    ensures NormalizeUnit(u) == NormalizeUnit(v)
  {
    StripLowerCommute(u);
    StripLowerCommute(v);
    assert Lower(Strip(u)) == Lower(Strip(v));
  }

  /** A result that is not a canonical target is a fixed point: applying
      the normalisation again leaves it unchanged. */
  lemma NormalizeUnitFixesPassThrough(u: string)
    requires NormalizeUnit(u) !in CanonicalUnits
    ensures NormalizeUnit(NormalizeUnit(u)) == NormalizeUnit(u)
  {
    var r := NormalizeUnit(u);
    NormalizeUnitRange(u);
    StripStripped(r);
    LowerOfLower(r);
    assert Lower(Strip(r)) == r;
  }

  /** Trailing space and upper case: "MG/L " becomes "mg/L". */
  lemma UnitExampleMgL()
    ensures NormalizeUnit("MG/L ") == "mg/L"
  {
    assert Strip("MG/L ") == "MG/L";
    assert Lower("MG/L") == "mg/l";
  }

  /** Colony-forming units are counts per 100 mL: "CFU/100ML" becomes "#/100mL". */
  lemma UnitExampleCfu()
    ensures NormalizeUnit("CFU/100ML") == "#/100mL"
  {
    assert Strip("CFU/100ML") == "CFU/100ML";
    assert Lower("CFU/100ML") == "cfu/100ml";
  }

  /** Most-probable-number counts too, after stripping a leading space. */
  lemma UnitExampleMpn()
    ensures NormalizeUnit(" MPN/100mL") == "#/100mL"
  {
    assert LeadingSpaces(" MPN/100mL") == 1;
    assert " MPN/100mL"[1..] == "MPN/100mL";
    assert TrailingSpaces("MPN/100mL") == 0;
    assert Strip(" MPN/100mL") == "MPN/100mL";
    assert Lower("MPN/100mL") == "mpn/100ml";
  }

  /** "ug/l" becomes "µg/L". */
  lemma UnitExampleMicrograms()
    ensures NormalizeUnit("ug/l") == "µg/L"
  {
    assert Strip("ug/l") == "ug/l";
    assert Lower("ug/l") == "ug/l";
  }

  /** A unit outside the table passes through lower-cased: "None" becomes "none". */
  lemma UnitExampleUnmapped()
    ensures NormalizeUnit("None") == "none"
  {
    assert Strip("None") == "None";
    assert Lower("None") == "none";
  }

  /** Only whole values are replaced: a unit that merely contains "mg/l" is
      left as it is. */
  lemma UnitExampleSubstring()
    ensures NormalizeUnit("total mg/l") == "total mg/l"
  {
    assert Strip("total mg/l") == "total mg/l";
    assert Lower("total mg/l") == "total mg/l";
  }

  /** The target "mg/L" is a fixed point of the normalisation. */
  lemma UnitExampleMgLFixed()
    ensures NormalizeUnit("mg/L") == "mg/L"
  {
    assert Strip("mg/L") == "mg/L";
    assert Lower("mg/L") == "mg/l";
  }

  /** The normalisation is not idempotent: the target "µg/L" lower-cases to
      "µg/l", which is not a key, and stays so. */
  lemma UnitExampleMicrogramsNotFixed()
    ensures NormalizeUnit("µg/L") == "µg/l"
  {
    assert Strip("µg/L") == "µg/L";
    assert Lower("µg/L") == "µg/l";
  }

  // ---------------------------------------------------------------------
  // Row-level steps

  /** Rename and projection: each kept column takes the cell of its source
      column; every other column is discarded. */
  function Project(row: RawRow): TextRow {
    TextRow(
      Cell(row, LocationSource),
      Cell(row, LatitudeSource),
      Cell(row, LongitudeSource),
      Cell(row, DateSource),
      Cell(row, ParameterSource),
      Cell(row, FractionSource),
      Cell(row, ValueSource),
      Cell(row, UnitSource),
      Cell(row, OrganizationSource))
  }

  /** The rename table maps the i-th source column to the i-th kept column,
      and the projection reads each kept column from its source column. */
  lemma ProjectFollowsRenameMap(row: RawRow)
    ensures |KeepColumns| == |SourceColumns| == 9
    ensures forall i :: 0 <= i < |SourceColumns| ==> SourceColumns[i] in RenameMap && RenameMap[SourceColumns[i]] == KeepColumns[i]
    ensures forall i :: 0 <= i < |SourceColumns| ==> Field(Project(row), KeepColumns[i]) == Cell(row, SourceColumns[i])
  {
    forall i | 0 <= i < |SourceColumns|
      ensures SourceColumns[i] in RenameMap && RenameMap[SourceColumns[i]] == KeepColumns[i]
      ensures Field(Project(row), KeepColumns[i]) == Cell(row, SourceColumns[i])
    {
      if i == 0 {} else if i == 1 {} else if i == 2 {} else if i == 3 {} else if i == 4 {}
      else if i == 5 {} else if i == 6 {} else if i == 7 {} else {}
    }
  }

  /** A column outside the rename table has no effect on the projection. */
  lemma ProjectIgnoresOtherColumns(row: RawRow, column: string, text: string)
    requires column !in RenameMap
    ensures Project(row[column := text]) == Project(row)
  {
  }

  /** Location, Latitude, Longitude, Date, Parameter, Value and Unit are all
      present; Sample Fraction and Organization may be missing. */
  predicate HasRequired(t: TextRow) {
    && t.location.Some? && t.latitude.Some? && t.longitude.Some? && t.date.Some?
    && t.parameter.Some? && t.value.Some? && t.unit.Some?
  }

  /** A missing cell stays missing; a present one is parsed, and a failed
      parse becomes missing (`errors='coerce'`). */
  function Coerce<T>(cell: Option<string>, parse: string -> Option<T>): Option<T> {
    match cell
    case None => None
    case Some(text) => parse(text)
  }

  /** Parse Date and Value; the other columns are kept as they are. */
  function ParseTypes(t: TextRow, parseDate: string -> Option<Date>, parseValue: string -> Option<Number>): Row {
    Row(t.location, t.latitude, t.longitude, Coerce(t.date, parseDate), t.parameter,
        t.sampleFraction, Coerce(t.value, parseValue), t.unit, t.organization)
  }

  function ParseTypesFn(parseDate: string -> Option<Date>, parseValue: string -> Option<Number>): TextRow -> Row {
    t => ParseTypes(t, parseDate, parseValue)
  }

  /** Rewrite the Unit column through NormalizeUnit; a missing unit stays missing. */
  function StandardizeUnit(r: Row): Row {
    r.(unit := if r.unit.Some? then Some(NormalizeUnit(r.unit.value)) else None)
  }

  predicate IsParsed(r: Row) {
    r.date.Some? && r.value.Some?
  }

  /** The invariant of a cleaned row: the seven required columns present. */
  predicate IsComplete(r: Row) {
    && r.location.Some? && r.latitude.Some? && r.longitude.Some? && r.date.Some?
    && r.parameter.Some? && r.value.Some? && r.unit.Some?
  }

  // ---------------------------------------------------------------------
  // The pipeline as a specification

  /** The cleaned table: the five steps of the cleaner, in their order. */
  function CleanTable(raw: seq<RawRow>, parseDate: string -> Option<Date>, parseValue: string -> Option<Number>): seq<Row> {
    var projected := MapSeq(raw, Project);
    var complete := Filter(projected, HasRequired);
    var parsed := MapSeq(complete, ParseTypesFn(parseDate, parseValue));
    var standardized := MapSeq(parsed, StandardizeUnit);
    Filter(standardized, IsParsed)
  }

  /** Whether a raw row reaches the cleaned table, stated on the raw row
      alone: the seven required cells are present and Date and Value parse. */
  predicate Survives(row: RawRow, parseDate: string -> Option<Date>, parseValue: string -> Option<Number>) {
    && LocationSource in row && LatitudeSource in row && LongitudeSource in row
    && DateSource in row && ParameterSource in row && ValueSource in row && UnitSource in row
    && parseDate(row[DateSource]).Some? && parseValue(row[ValueSource]).Some?
  }

  function SurvivesFn(parseDate: string -> Option<Date>, parseValue: string -> Option<Number>): RawRow -> bool {
    row => Survives(row, parseDate, parseValue)
  }

  /** The cleaned form of one raw row. */
  function CleanRow(row: RawRow, parseDate: string -> Option<Date>, parseValue: string -> Option<Number>): Row {
    StandardizeUnit(ParseTypes(Project(row), parseDate, parseValue))
  }

  function CleanRowFn(parseDate: string -> Option<Date>, parseValue: string -> Option<Number>): RawRow -> Row {
    row => CleanRow(row, parseDate, parseValue)
  }

  /** Appending one raw row appends its cleaned form exactly when it survives. */
  lemma CleanTableLast(init: seq<RawRow>, row: RawRow, parseDate: string -> Option<Date>, parseValue: string -> Option<Number>)
    ensures CleanTable(init + [row], parseDate, parseValue)
         == CleanTable(init, parseDate, parseValue)
          + (if Survives(row, parseDate, parseValue) then [CleanRow(row, parseDate, parseValue)] else [])
  {
    var parse := ParseTypesFn(parseDate, parseValue);
    PipelineLast(init, row, Project, HasRequired, parse, StandardizeUnit, IsParsed);
    var clean := StandardizeUnit(parse(Project(row)));
    assert clean == CleanRow(row, parseDate, parseValue);
    assert HasRequired(Project(row)) && IsParsed(clean) <==> Survives(row, parseDate, parseValue);
  }

  /** The staged pipeline is a row-by-row filter followed by a row-by-row
      rewrite: the cleaned table is the cleaned form of every surviving row. */
  lemma {:induction false} CleanTableRowwise(raw: seq<RawRow>, parseDate: string -> Option<Date>, parseValue: string -> Option<Number>)
    ensures CleanTable(raw, parseDate, parseValue)
         == MapSeq(Filter(raw, SurvivesFn(parseDate, parseValue)), CleanRowFn(parseDate, parseValue))
  {
    var keep := SurvivesFn(parseDate, parseValue);
    var clean := CleanRowFn(parseDate, parseValue);
    if raw != [] {
      var init := raw[..|raw| - 1];
      var row := raw[|raw| - 1];
      assert raw == init + [row];
      CleanTableRowwise(init, parseDate, parseValue);
      CleanTableLast(init, row, parseDate, parseValue);
      FilterLast(raw, keep);
      var fTail := if keep(row) then [row] else [];
      MapConcat(Filter(init, keep), fTail, clean);
    }
  }

  // ---------------------------------------------------------------------
  // Properties of the cleaned table

  /** No cleaned row misses Location, Latitude, Longitude, Date, Parameter,
      Value or Unit. */
  lemma CleanedRowsComplete(raw: seq<RawRow>, parseDate: string -> Option<Date>, parseValue: string -> Option<Number>)
    ensures forall r :: r in CleanTable(raw, parseDate, parseValue) ==> IsComplete(r)
  {
    CleanTableRowwise(raw, parseDate, parseValue);
  }

  /** The cleaned table is an order-preserving selection of the raw rows:
      its k-th row is the cleaned form of raw row idx[k], the positions
      increase, and a raw row is selected exactly when it survives (so a
      row whose Date or Value fails to parse is dropped, not defaulted,
      and no row aborts the run). */
  lemma CleanedRowsTrackInput(raw: seq<RawRow>, parseDate: string -> Option<Date>, parseValue: string -> Option<Number>)
    ensures var out := CleanTable(raw, parseDate, parseValue);
            var idx := FilterIndices(raw, SurvivesFn(parseDate, parseValue));
            && |out| == |idx| <= |raw|
            && Increasing(idx)
            && (forall k :: 0 <= k < |idx| ==> idx[k] < |raw| && out[k] == CleanRow(raw[idx[k]], parseDate, parseValue))
            && (forall i :: 0 <= i < |raw| ==> (i in idx <==> Survives(raw[i], parseDate, parseValue)))
  {
    CleanTableRowwise(raw, parseDate, parseValue);
    MapFilterTracksInput(raw, SurvivesFn(parseDate, parseValue), CleanRowFn(parseDate, parseValue));
  }

  /** Two raw rows that differ at most in the Unit cell. */
  ghost predicate SameExceptUnit(a: RawRow, b: RawRow) {
    && (UnitSource in a <==> UnitSource in b)
    && forall c :: c != UnitSource ==> Cell(a, c) == Cell(b, c)
  }

  /** One row: survival ignores the Unit text, and so does every cleaned
      column but Unit. */
  lemma UnitTextRowwise(a: RawRow, b: RawRow, parseDate: string -> Option<Date>, parseValue: string -> Option<Number>)
    requires SameExceptUnit(a, b)
    ensures Survives(a, parseDate, parseValue) == Survives(b, parseDate, parseValue)
    ensures CleanRow(b, parseDate, parseValue) == CleanRow(a, parseDate, parseValue).(unit := CleanRow(b, parseDate, parseValue).unit)
  {
    assert Cell(a, LocationSource) == Cell(b, LocationSource);
    assert Cell(a, LatitudeSource) == Cell(b, LatitudeSource);
    assert Cell(a, LongitudeSource) == Cell(b, LongitudeSource);
    assert Cell(a, DateSource) == Cell(b, DateSource);
    assert Cell(a, ParameterSource) == Cell(b, ParameterSource);
    assert Cell(a, FractionSource) == Cell(b, FractionSource);
    assert Cell(a, ValueSource) == Cell(b, ValueSource);
    assert Cell(a, OrganizationSource) == Cell(b, OrganizationSource);
  }

  /** Two cleaned tables with the same rows up to the Unit column. */
  ghost predicate SameButUnit(xs: seq<Row>, ys: seq<Row>) {
    && |xs| == |ys|
    && forall k :: 0 <= k < |xs| ==> ys[k] == xs[k].(unit := ys[k].unit)
  }

  /** One more raw row on each side keeps two tables equal up to Unit. */
  lemma SameButUnitSnoc(xs: seq<Row>, ys: seq<Row>, a: RawRow, b: RawRow, parseDate: string -> Option<Date>, parseValue: string -> Option<Number>)
    requires SameButUnit(xs, ys) && SameExceptUnit(a, b)
    ensures SameButUnit(xs + (if Survives(a, parseDate, parseValue) then [CleanRow(a, parseDate, parseValue)] else []),
                        ys + (if Survives(b, parseDate, parseValue) then [CleanRow(b, parseDate, parseValue)] else []))
  {
    UnitTextRowwise(a, b, parseDate, parseValue);
  }

  /** Survival does not depend on the Unit text: rewriting the unit cells
      of the export keeps the same rows, which differ only in Unit. */
  lemma {:induction false} UnitTextDoesNotAffectSurvival(raw: seq<RawRow>, raw': seq<RawRow>, parseDate: string -> Option<Date>, parseValue: string -> Option<Number>)
    requires |raw| == |raw'|
    requires forall i :: 0 <= i < |raw| ==> SameExceptUnit(raw[i], raw'[i])
    ensures SameButUnit(CleanTable(raw, parseDate, parseValue), CleanTable(raw', parseDate, parseValue))
  {
    if raw != [] {
      var n := |raw| - 1;
      var init, init' := raw[..n], raw'[..n];
      assert init + [raw[n]] == raw && init' + [raw'[n]] == raw';
      assert forall i :: 0 <= i < |init| ==> SameExceptUnit(init[i], init'[i]) by {
        forall i | 0 <= i < |init| ensures SameExceptUnit(init[i], init'[i]) {
          assert init[i] == raw[i] && init'[i] == raw'[i];
        }
      }
      UnitTextDoesNotAffectSurvival(init, init', parseDate, parseValue);
      CleanTableLast(init, raw[n], parseDate, parseValue);
      CleanTableLast(init', raw'[n], parseDate, parseValue);
      SameButUnitSnoc(CleanTable(init, parseDate, parseValue), CleanTable(init', parseDate, parseValue), raw[n], raw'[n], parseDate, parseValue);
    }
  }

  // ---------------------------------------------------------------------
  // The pipeline as the script runs it: one frame rewritten step by step

  /** `dropna(subset=..., inplace=True)`: keep the rows satisfying `keep`. */
  method DropRows<T>(frame: seq<T>, keep: T -> bool) returns (kept: seq<T>)
    ensures kept == Filter(frame, keep)
  {
    kept := [];
    var i := 0;
    while i < |frame|
      invariant 0 <= i <= |frame|
      invariant kept == Filter(frame[..i], keep)
    {
      assert frame[..i + 1][..i] == frame[..i];
      if keep(frame[i]) {
        kept := kept + [frame[i]];
      }
      i := i + 1;
    }
    assert frame[..i] == frame;
  }

  /** Column reassignment: rewrite every row with `f`. */
  method RewriteRows<T, U>(frame: seq<T>, f: T -> U) returns (rewritten: seq<U>)
    ensures rewritten == MapSeq(frame, f)
  {
    rewritten := [];
    var i := 0;
    while i < |frame|
      invariant 0 <= i <= |frame|
      invariant rewritten == MapSeq(frame[..i], f)
    {
      assert frame[..i + 1][..i] == frame[..i];
      rewritten := rewritten + [f(frame[i])];
      i := i + 1;
    }
    assert frame[..i] == frame;
  }

  /** The cleaner. Fails, as the column selection does, when the export
      lacks a source column; otherwise yields the cleaned table, whose rows
      are complete and no more numerous than the raw rows. */
  method Clean(header: seq<string>, raw: seq<RawRow>, parseDate: string -> Option<Date>, parseValue: string -> Option<Number>)
    returns (result: Result<seq<Row>, LoadError>)
    ensures result.Failure? <==> MissingColumns(header) != []
    ensures result.Failure? ==> result.error == KeyError(MissingColumns(header))
    ensures result.Success? ==> result.value == CleanTable(raw, parseDate, parseValue)
    ensures result.Success? ==> |result.value| <= |raw|
    ensures result.Success? ==> forall r :: r in result.value ==> IsComplete(r)
  {
    var missing := MissingColumns(header);
    if missing != [] {
      return Failure(KeyError(missing));
    }
    var frame := RewriteRows(raw, Project);
    frame := DropRows(frame, HasRequired);
    var typed := RewriteRows(frame, ParseTypesFn(parseDate, parseValue));
    typed := RewriteRows(typed, StandardizeUnit);
    typed := DropRows(typed, IsParsed);
    // reset_index: positions in a sequence are already 0..n-1
    CleanedRowsComplete(raw, parseDate, parseValue);
    CleanedRowsTrackInput(raw, parseDate, parseValue);
    result := Success(typed);
  }
}
