/** The site-name extraction (extract_sites_from_raw.py): the distinct
    non-missing MonitoringLocationName values of the raw export, sorted,
    and the count it reports. */
module Sites {
  import opened Wrappers
  import opened Seqs
  import opened Text
  import opened Schema

  function SiteCell(row: RawRow): Option<string> {
    Cell(row, LocationSource)
  }

  /** The names a raw table carries, as a set. */
  ghost function SitesIn(raw: seq<RawRow>): set<string> {
    set i | 0 <= i < |raw| && SiteCell(raw[i]).Some? :: SiteCell(raw[i]).value
  }

  /** `sorted(df['MonitoringLocationName'].dropna().unique())`; selecting
      the column fails when the export has no such column. */
  function ExtractSiteNames(header: seq<string>, raw: seq<RawRow>): (result: Result<seq<string>, LoadError>)
    ensures result.Failure? <==> LocationSource !in header
    ensures result.Failure? ==> result.error == KeyError([LocationSource])
    ensures result.Success? ==> StrictlySorted(result.value)
    ensures result.Success? ==> forall name :: name in result.value <==> Some(name) in MapSeq(raw, SiteCell)
  {
    if LocationSource !in header then Failure(KeyError([LocationSource]))
    else Success(SortedUnique(Present(MapSeq(raw, SiteCell))))
  }

  /** The extracted names are exactly the non-missing names of the export:
      none is missing, none is invented, none is left out. */
  lemma SiteNamesExact(header: seq<string>, raw: seq<RawRow>)
    requires LocationSource in header
    ensures forall name :: name in ExtractSiteNames(header, raw).value <==> name in SitesIn(raw)
  {
    var column := MapSeq(raw, SiteCell);
    forall name ensures name in ExtractSiteNames(header, raw).value <==> name in SitesIn(raw) {
      if Some(name) in column {
        var i :| 0 <= i < |column| && column[i] == Some(name);
        assert SiteCell(raw[i]) == Some(name);
        assert name in SitesIn(raw);
      }
      if name in SitesIn(raw) {
        var i :| 0 <= i < |raw| && SiteCell(raw[i]).Some? && SiteCell(raw[i]).value == name;
        assert column[i] == Some(name);
      }
    }
  }

  /** `len(site_names)`. */
  function ReportedCount(names: seq<string>): nat {
    |names|
  }

  /** The reported count is the number of distinct non-missing names. */
  lemma ReportedCountIsDistinctNames(header: seq<string>, raw: seq<RawRow>)
    requires LocationSource in header
    ensures ReportedCount(ExtractSiteNames(header, raw).value) == |SitesIn(raw)|
  {
    var names := ExtractSiteNames(header, raw).value;
    SiteNamesExact(header, raw);
    assert NoDup(names);
    NoDupCardinality(names);
    assert Elements(names) == SitesIn(raw);
  }
}
