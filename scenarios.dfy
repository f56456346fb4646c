/** Worked examples. One raw pH reading at "Site A" with the unmapped unit
    "None" is followed through the cleaner and the dashboard; the date and
    value parsers stay abstract, and only what they return on this row's
    text is fixed. Four locations met in descending order show which
    locations the dashboard selects by default. */
module Scenarios {
  import opened Wrappers
  import opened Seqs
  import opened Text
  import opened Schema
  import opened Cleaner
  import opened Dashboard

  /** The raw export row; it has no sample-fraction cell. */
  const SiteARaw: RawRow := map[
    LocationSource := "Site A",
    LatitudeSource := "40.1",
    LongitudeSource := "-74.7",
    DateSource := "2020-01-05",
    ParameterSource := "pH",
    ValueSource := "7.2",
    UnitSource := "None",
    OrganizationSource := "DEP"
  ]

  /** The cleaned record the row becomes, given the parsed day and value. */
  function SiteACleaned(day: Date, value: Number): Row {
    Row(Some("Site A"), Some("40.1"), Some("-74.7"), Some(day), Some("pH"),
        None, Some(value), Some("none"), Some("DEP"))
  }

  /** The projection reads the eight cells the row has. */
  lemma SiteAProjected()
    ensures Project(SiteARaw) == TextRow(Some("Site A"), Some("40.1"), Some("-74.7"), Some("2020-01-05"),
                                         Some("pH"), None, Some("7.2"), Some("None"), Some("DEP"))
  {
    assert FractionSource !in SiteARaw;
  }

  /** Cleaning the one-row export yields the one record, with unit "none". */
  lemma SiteACleans(parseDate: string -> Option<Date>, parseValue: string -> Option<Number>, day: Date, value: Number)
    requires parseDate("2020-01-05") == Some(day) && parseValue("7.2") == Some(value)
    ensures CleanTable([SiteARaw], parseDate, parseValue) == [SiteACleaned(day, value)]
  {
    SiteAProjected();
    var typed := ParseTypes(Project(SiteARaw), parseDate, parseValue);
    assert typed.unit == Some("None");
    UnitExampleUnmapped();
    assert StandardizeUnit(typed) == SiteACleaned(day, value);
    assert Survives(SiteARaw, parseDate, parseValue);
    CleanTableLast([], SiteARaw, parseDate, parseValue);
    assert [] + [SiteARaw] == [SiteARaw];
  }

  /** Selecting pH at Site A over a range around the reading returns
      exactly that record. */
  lemma SiteASelected(parseDate: string -> Option<Date>, parseValue: string -> Option<Number>, day: Date, value: Number, start: Date, end: Date)
    requires parseDate("2020-01-05") == Some(day) && parseValue("7.2") == Some(value)
    requires start <= day <= end
    ensures FilteredView(CleanTable([SiteARaw], parseDate, parseValue), Criteria(Some("pH"), ["Site A"], start, end))
         == [SiteACleaned(day, value)]
  {
    SiteACleans(parseDate, parseValue, day, value);
    var c := Criteria(Some("pH"), ["Site A"], start, end);
    assert Matches(c, SiteACleaned(day, value));
    FilterLast([SiteACleaned(day, value)], MatchesFn(c));
  }

  /** A row carrying a new location adds that location at the end. */
  lemma SeenAfter(t: Table, i: nat, p: string, x: string, seen: seq<string>)
    requires i < |t| && Carries(Some(p), t[i], x)
    requires LocationsSeen(t[..i], Some(p)) == seen && x !in seen
    ensures LocationsSeen(t[..i + 1], Some(p)) == seen + [x]
  {
    assert t[..i + 1] == t[..i] + [t[i]];
    LocationsSeenSnoc(t[..i], t[i], Some(p));
  }

  /** Four rows carrying four different locations w, x, y, z, in that
      order: the locations are seen in that order. */
  lemma FourSeenInOrder(t: Table, p: string, w: string, x: string, y: string, z: string)
    requires |t| == 4
    requires Carries(Some(p), t[0], w) && Carries(Some(p), t[1], x) && Carries(Some(p), t[2], y) && Carries(Some(p), t[3], z)
    requires w != x && w != y && w != z && x != y && x != z && y != z
    ensures LocationsSeen(t, Some(p)) == [w, x, y, z]
  {
    assert w !in [] && x !in [w] && y !in [w, x] && z !in [w, x, y];
    assert [] + [w] == [w] && [w] + [x] == [w, x] && [w, x] + [y] == [w, x, y] && [w, x, y] + [z] == [w, x, y, z];
    assert t[..0] == [] && t[..4] == t;
    SeenAfter(t, 0, p, w, []);
    SeenAfter(t, 1, p, x, [w]);
    SeenAfter(t, 2, p, y, [w, x]);
    SeenAfter(t, 3, p, z, [w, x, y]);
  }

  /** With three or more locations seen, a location is selected by default
      exactly when it is among the first three seen. */
  lemma DefaultsOfFirstThree(t: Table, selected: Option<string>, first: seq<string>)
    requires |LocationsSeen(t, selected)| >= 3 && LocationsSeen(t, selected)[..3] == first
    ensures forall v :: v in DefaultLocations(t, selected) <==> v in first
  { }

  /** Four rows carrying locations w, x, y, z, in that order: whatever the
      names, the default selection holds exactly w, x and y, the first three
      seen, so z is not selected. With rows met at D, C, B, A this selects
      B, C and D, and leaves out A, the least location. */
  lemma DefaultsAreFirstSeen(t: Table, p: string, w: string, x: string, y: string, z: string)
    requires |t| == 4
    requires Carries(Some(p), t[0], w) && Carries(Some(p), t[1], x) && Carries(Some(p), t[2], y) && Carries(Some(p), t[3], z)
    requires w != x && w != y && w != z && x != y && x != z && y != z
    ensures forall v :: v in DefaultLocations(t, Some(p)) <==> v in [w, x, y]
  {
    FourSeenInOrder(t, p, w, x, y, z);
    assert [w, x, y, z][..3] == [w, x, y];
    DefaultsOfFirstThree(t, Some(p), [w, x, y]);
  }
}
