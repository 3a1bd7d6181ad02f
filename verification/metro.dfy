/**
 The per-airport record of lib/csair_lib/metro.rb and its formatters:
 timezone as `GMT +n` / `GMT -k`, coordinates as `deg°dir` pairs joined by
 `", "`, population as a decimal string, and the region name chosen by a
 numeric region code.
 */
module Metro {
  import opened Text

  /** One entry of the coordinates hash, e.g. `'N' => 44`, kept in insertion order. */
  datatype Coordinate = Coordinate(direction: string, degrees: int)

  datatype Metro = Metro(
    name: string, country: string, continent: string,
    timezone: int, population: int, coordinates: seq<Coordinate>, region: int)

  /** `timezone`: the offset from GMT with an explicit sign. */
  function Timezone(m: Metro): (r: string)
    ensures m.timezone >= 0 ==> r == "GMT +" + NatToString(m.timezone)
    ensures m.timezone < 0 ==> r == "GMT -" + NatToString(-m.timezone)
  {
    if m.timezone >= 0 then "GMT +" + IntToString(m.timezone) else "GMT " + IntToString(m.timezone)
  }

  /** Two metros print the same timezone only when their offsets agree. */
  lemma {:induction false} TimezoneInjective(a: Metro, b: Metro)
    requires Timezone(a) == Timezone(b)
    ensures a.timezone == b.timezone
  {
    var x := if a.timezone >= 0 then a.timezone else -a.timezone;
    var y := if b.timezone >= 0 then b.timezone else -b.timezone;
    var sa := if a.timezone >= 0 then "GMT +" else "GMT -";
    var sb := if b.timezone >= 0 then "GMT +" else "GMT -";
    assert Timezone(a) == sa + NatToString(x);
    assert Timezone(b) == sb + NatToString(y);
    assert Timezone(a)[4] == sa[4] && Timezone(b)[4] == sb[4];
    assert sa == sb;
    assert NatToString(x) == Timezone(a)[5..];
    assert NatToString(y) == Timezone(b)[5..];
    ParseNatToString(x);
    ParseNatToString(y);
  }

  /** One coordinate as `deg°dir`. */
  function CoordinateText(c: Coordinate): string {
    IntToString(c.degrees) + "°" + c.direction
  }

  function CoordinateTexts(cs: seq<Coordinate>): (r: seq<string>)
    ensures |r| == |cs| && forall i :: 0 <= i < |cs| ==> r[i] == CoordinateText(cs[i])
  {
    seq(|cs|, i requires 0 <= i < |cs| => CoordinateText(cs[i]))
  }

  /**
   `coordinates`: every pair is written followed by `", "` and the last two
   characters are cut off, which is the pairs joined by `", "`.
   */
  function Coordinates(m: Metro): (r: string)
    ensures r == Join(CoordinateTexts(m.coordinates), ", ")
  {
    DropTerminatorIsJoin(CoordinateTexts(m.coordinates), ", ");
    DropLast(Terminated(CoordinateTexts(m.coordinates), ", "), 2)
  }

  /**
   `population`: Ruby's decimal text of the count, a numeral without leading
   zeros (after a minus sign for a negative count) that reads back to it.
   */
  function Population(m: Metro): (r: string)
    ensures m.population >= 0 ==> Numeral(r) && ParseNat(r) == m.population
    ensures m.population < 0 ==> |r| > 1 && r[0] == '-' && Numeral(r[1..]) && ParseNat(r[1..]) == -m.population
  {
    IntToString(m.population)
  }

  /** `region`: the name of the region with the stored code; every unknown code is Asia and Oceania. */
  function Region(m: Metro): (r: string)
    ensures r == "Americas" <==> m.region == 1
    ensures r == "Africa" <==> m.region == 2
    ensures r == "Europe" <==> m.region == 3
    ensures r == "Asia and Oceania" <==> m.region !in {1, 2, 3}
  {
    match m.region
    case 1 => "Americas"
    case 2 => "Africa"
    case 3 => "Europe"
    case _ => "Asia and Oceania"
  }

  /**
   `edit_information_about_city`: option `"1"` replaces the population,
   option `"2"` the timezone, and any other option changes nothing.
   */
  function EditInformationAboutCity(m: Metro, option: string, newInfo: int): (r: Metro)
    ensures option == "1" ==> Population(r) == IntToString(newInfo) && Timezone(r) == Timezone(m)
    ensures option == "2" ==> Timezone(r) == Timezone(m.(timezone := newInfo)) && Population(r) == Population(m)
    ensures option == "2" ==> (newInfo >= 0 <==> Timezone(r)[4] == '+')
    ensures r.name == m.name && r.coordinates == m.coordinates && r.region == m.region
    ensures r.country == m.country && r.continent == m.continent
    ensures option != "1" && option != "2" ==> r == m
  {
    match option
    case "1" => m.(population := newInfo)
    case "2" => m.(timezone := newInfo)
    case _ => m
  }

  /** The metro of the unit tests: 44°N, 80°W, GMT +5, in the Americas. */
  function TestMetro(): Metro {
    Metro("Test City", "United States", "America", 5, 100000, [Coordinate("N", 44), Coordinate("W", 80)], 1)
  }

  /** The timezone tests: `GMT +5`, `GMT -5`, and the edit of the timezone to -5. */
  lemma TimezoneExamples()
    ensures Timezone(TestMetro()) == "GMT +5"
    ensures Timezone(TestMetro().(timezone := -5)) == "GMT -5"
    ensures Timezone(EditInformationAboutCity(TestMetro(), "2", -5)) == "GMT -5"
    ensures EditInformationAboutCity(TestMetro(), "7", 3) == TestMetro()
  {
    assert NatToString(5) == "5";
  }

  lemma CoordinatesExample()
    ensures Coordinates(TestMetro()) == "44°N, 80°W"
  {
    var ts := CoordinateTexts(TestMetro().coordinates);
    TestCoordinateTexts();
    assert ts[1..] == ["80°W"];
    assert Join(ts, ", ") == "44°N" + ", " + "80°W";
  }

  lemma TestCoordinateTexts()
    ensures CoordinateText(Coordinate("N", 44)) == "44°N"
    ensures CoordinateText(Coordinate("W", 80)) == "80°W"
  {
    assert NatToString(4) == "4" && NatToString(8) == "8" && NatToString(0) == "0";
    assert NatToString(44) == "44" && NatToString(80) == "80";
    assert IntToString(44) == "44" && IntToString(80) == "80";
  }

  lemma PopulationAndRegionExample()
    ensures Population(TestMetro()) == "100000" && Region(TestMetro()) == "Americas"
  {
    assert NatToString(100000) == "100000";
  }
}

/**
 The older record of lib/graph/metro.rb. Its timezone, coordinates and
 population formatters are the ones of `Metro`; its region switches on an
 instance variable that is never assigned, so it names the same region for
 every metro.
 */
module GraphMetro {
  import Metro
  import opened Optional

  /** `region` as written: the switch never matches, whatever region the metro was built with. */
  function Region(m: Metro.Metro): (r: string)
    ensures r == "Asia and Oceania"
  {
    match Unassigned()
    case Some(1) => "Americas"
    case Some(2) => "Africa"
    case Some(3) => "Europe"
    case _ => "Asia and Oceania"
  }

  /** The value of the never-assigned `@code`: `nil`. */
  function Unassigned(): Option<int> { None }

  /** The as-written region agrees with the intended one exactly for the codes that mean Asia and Oceania. */
  lemma RegionAgreesOnlyForAsia(m: Metro.Metro)
    ensures Region(m) == Metro.Region(m) <==> m.region !in {1, 2, 3}
  {
  }

  /** A metro built in the Americas is reported in Asia and Oceania. */
  lemma RegionMisreportsAmericas()
    ensures var m := Metro.Metro("Lima", "PE", "South America", -5, 9050000, [], 1);
      Metro.Region(m) == "Americas" && Region(m) != Metro.Region(m)
  {
  }
}
