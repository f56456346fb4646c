/** The record shapes shared by the cleaner and the dashboard: the raw
    export's column names, the canonical column names they are renamed to,
    and the projected and cleaned rows. */
module Schema {
  import opened Wrappers

  /** A calendar date as a day number; only its order matters. */
  type Date = int

  /** A parsed measurement; compared, never computed with. */
  type Number = real

  /** One row of the raw export: column name to cell text. A column the row
      has no entry for is a missing cell (NaN). */
  type RawRow = map<string, string>

  function Cell(row: RawRow, column: string): Option<string> {
    if column in row then Some(row[column]) else None
  }

  const LocationSource := "MonitoringLocationName"
  const LatitudeSource := "ActivityLocation/LatitudeMeasure"
  const LongitudeSource := "ActivityLocation/LongitudeMeasure"
  const DateSource := "ActivityStartDate"
  const ParameterSource := "CharacteristicName"
  const FractionSource := "ResultSampleFractionText"
  const ValueSource := "ResultMeasureValue"
  const UnitSource := "ResultMeasure/MeasureUnitCode"
  const OrganizationSource := "OrganizationFormalName"

  /** The rename table of the cleaner. */
  const RenameMap: map<string, string> := map[
    LocationSource := "Location",
    LatitudeSource := "Latitude",
    LongitudeSource := "Longitude",
    DateSource := "Date",
    ParameterSource := "Parameter",
    FractionSource := "Sample Fraction",
    ValueSource := "Value",
    UnitSource := "Unit",
    OrganizationSource := "Organization"
  ]

  /** The cleaned table's columns, in output order. */
  const KeepColumns: seq<string> := [
    "Location", "Latitude", "Longitude", "Date",
    "Parameter", "Sample Fraction", "Value", "Unit", "Organization"
  ]

  /** The source column of each kept column, in the same order. */
  const SourceColumns: seq<string> := [
    LocationSource, LatitudeSource, LongitudeSource, DateSource,
    ParameterSource, FractionSource, ValueSource, UnitSource, OrganizationSource
  ]

  /** A row after renaming and projection: the nine kept columns, still text. */
  datatype TextRow = TextRow(
    location: Option<string>,
    latitude: Option<string>,
    longitude: Option<string>,
    date: Option<string>,
    parameter: Option<string>,
    sampleFraction: Option<string>,
    value: Option<string>,
    unit: Option<string>,
    organization: Option<string>)

  /** A row of the cleaned table, with Date and Value parsed. Latitude and
      Longitude stay opaque values compared by equality. */
  datatype Row = Row(
    location: Option<string>,
    latitude: Option<string>,
    longitude: Option<string>,
    date: Option<Date>,
    parameter: Option<string>,
    sampleFraction: Option<string>,
    value: Option<Number>,
    unit: Option<string>,
    organization: Option<string>)

  /** The column of a projected row named by a canonical column name. */
  function Field(t: TextRow, column: string): Option<string> {
    if column == "Location" then t.location
    else if column == "Latitude" then t.latitude
    else if column == "Longitude" then t.longitude
    else if column == "Date" then t.date
    else if column == "Parameter" then t.parameter
    else if column == "Sample Fraction" then t.sampleFraction
    else if column == "Value" then t.value
    else if column == "Unit" then t.unit
    else if column == "Organization" then t.organization
    else None
  }

  /** Selecting the kept columns fails (a KeyError) naming each kept
      column whose source column the export lacks. */
  datatype LoadError = KeyError(columns: seq<string>)

  /** The kept columns, in order, whose source column is not in `header`. */
  function MissingColumns(header: seq<string>): (missing: seq<string>)
    ensures missing == [] <==> forall i :: 0 <= i < |SourceColumns| ==> SourceColumns[i] in header
    ensures forall k :: k in missing ==> k in KeepColumns
    ensures forall i :: 0 <= i < |KeepColumns| ==> (KeepColumns[i] in missing <==> SourceColumns[i] !in header)
  {
    MissingFrom(header, 0)
  }

  function MissingFrom(header: seq<string>, i: nat): (missing: seq<string>)
    requires i <= |SourceColumns|
    ensures missing == [] <==> forall j :: i <= j < |SourceColumns| ==> SourceColumns[j] in header
    ensures forall k :: k in missing ==> exists j :: i <= j < |KeepColumns| && k == KeepColumns[j]
    ensures forall j :: i <= j < |KeepColumns| ==> (KeepColumns[j] in missing <==> SourceColumns[j] !in header)
    decreases |SourceColumns| - i
  {
    if i == |SourceColumns| then []
    else
      var rest := MissingFrom(header, i + 1);
      KeepColumnsDistinct();
      assert KeepColumns[i] !in rest;
      if SourceColumns[i] in header then rest else [KeepColumns[i]] + rest
  }

  /** No canonical column name is listed twice. */
  lemma KeepColumnsDistinct()
    ensures forall a, b :: 0 <= a < b < |KeepColumns| ==> KeepColumns[a] != KeepColumns[b]
  {
    forall a | 0 <= a < |KeepColumns| ensures KeepColumns[a] !in KeepColumns[a + 1..] {
      if a == 0 {} else if a == 1 {} else if a == 2 {} else if a == 3 {} else if a == 4 {}
      else if a == 5 {} else if a == 6 {} else if a == 7 {} else {}
    }
    forall a, b | 0 <= a < b < |KeepColumns| ensures KeepColumns[a] != KeepColumns[b] {
      assert KeepColumns[b] in KeepColumns[a + 1..];
    }
  }
}
