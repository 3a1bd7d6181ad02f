/**
 The dictionary of lib/csair_lib/dictionary.rb: the same name/code
 translation as `Dictionary` (its `encode`, `unlock`, `city_exists?` and
 `add_translation` have the same bodies) plus the metro record of every
 airport, filed under its code. The airport records arrive as a parameter
 instead of being read from the JSON resource.
 */
module CsairDictionary {
  import opened Optional
  import Dictionary
  import Metro
  import Text

  /** One airport as the data file describes it. */
  datatype Airport = Airport(
    code: string, name: string, country: string, continent: string,
    timezone: int, population: int, coordinates: seq<Metro.Coordinate>, region: int)

  datatype Directory = Directory(names: Dictionary.Dictionary, metros: map<string, Metro.Metro>)

  function Empty(): (d: Directory)
    ensures d.metros == map[] && forall n :: Dictionary.Encode(d.names, n) == None
  {
    Directory(Dictionary.Empty(), map[])
  }

  /** The metro record built from an airport's description. */
  function MetroOf(a: Airport): (m: Metro.Metro)
    ensures m.name == a.name && m.timezone == a.timezone && m.population == a.population
    ensures m.coordinates == a.coordinates && m.region == a.region
    ensures m.country == a.country && m.continent == a.continent
  {
    Metro.Metro(a.name, a.country, a.continent, a.timezone, a.population, a.coordinates, a.region)
  }

  /**
   `add_metro`: the airport's name and code translate into each other and its
   metro replaces any earlier one under the same code; other names encode and
   other codes unlock and keep their metros as before.
   */
  function AddMetro(d: Directory, a: Airport): (r: Directory)
    ensures Dictionary.Encode(r.names, a.name) == Some(a.code)
    ensures Dictionary.Unlock(r.names, a.code) == Some(a.name)
    ensures a.code in r.metros && r.metros[a.code] == MetroOf(a)
    ensures r.metros.Keys == d.metros.Keys + {a.code}
    ensures forall c :: c in d.metros && c != a.code ==> r.metros[c] == d.metros[c]
    ensures forall n :: Text.Lower(n) != Text.Lower(a.name) ==> Dictionary.Encode(r.names, n) == Dictionary.Encode(d.names, n)
    ensures forall k :: k != a.code ==> Dictionary.Unlock(r.names, k) == Dictionary.Unlock(d.names, k)
  {
    Directory(Dictionary.AddTranslation(d.names, a.name, Some(a.code)), d.metros[a.code := MetroOf(a)])
  }

  /** The constructor's loop over the airport records, in file order. */
  function Load(airports: seq<Airport>): Directory
  {
    if |airports| == 0 then Empty()
    else AddMetro(Load(airports[..|airports| - 1]), airports[|airports| - 1])
  }

  /** Every record's code has a metro. */
  lemma {:induction false} LoadHasCode(airports: seq<Airport>, i: int)
    requires 0 <= i < |airports|
    ensures airports[i].code in Load(airports).metros
  {
    var n := |airports| - 1;
    var pre := airports[..n];
    assert airports == pre + [airports[n]];
    LoadSnoc(pre, airports[n]);
    if i < n && airports[i].code != airports[n].code {
      assert pre[i] == airports[i];
      LoadHasCode(pre, i);
      AddMetroKeeps(Load(pre), airports[n], airports[i].code);
    }
  }

  /** Only the records' codes have a metro. */
  lemma {:induction false} LoadOnlyCodes(airports: seq<Airport>, c: string)
    requires c in Load(airports).metros
    ensures exists i :: 0 <= i < |airports| && airports[i].code == c
  {
    var n := |airports| - 1;
    var pre := airports[..n];
    assert airports == pre + [airports[n]];
    LoadSnoc(pre, airports[n]);
    if airports[n].code != c {
      assert c in Load(pre).metros;
      LoadOnlyCodes(pre, c);
      var i :| 0 <= i < n && pre[i].code == c;
      assert airports[i] == pre[i];
    }
  }

  /** The last record with a code decides which metro is filed under that code. */
  lemma {:induction false} LoadLastWins(airports: seq<Airport>, i: int)
    requires 0 <= i < |airports|
    requires forall j :: i < j < |airports| ==> airports[j].code != airports[i].code
    ensures airports[i].code in Load(airports).metros
    ensures Load(airports).metros[airports[i].code] == MetroOf(airports[i])
  {
    var n := |airports| - 1;
    var pre := airports[..n];
    assert airports == pre + [airports[n]];
    LoadSnoc(pre, airports[n]);
    if i < n {
      assert pre[i] == airports[i];
      LoadLastWins(pre, i);
      AddMetroKeeps(Load(pre), airports[n], airports[i].code);
    }
  }

  /** The last record with a code decides which name that code unlocks to. */
  lemma {:induction false} LoadUnlocksLastName(airports: seq<Airport>, i: int)
    requires 0 <= i < |airports|
    requires forall j :: i < j < |airports| ==> airports[j].code != airports[i].code
    ensures Dictionary.Unlock(Load(airports).names, airports[i].code) == Some(airports[i].name)
  {
    var n := |airports| - 1;
    var pre := airports[..n];
    assert airports == pre + [airports[n]];
    LoadSnoc(pre, airports[n]);
    if i < n {
      assert pre[i] == airports[i];
      LoadUnlocksLastName(pre, i);
      AddMetroKeeps(Load(pre), airports[n], airports[i].code);
    }
  }

  /** The last record with a name (in any case) decides which code that name encodes to. */
  lemma {:induction false} LoadEncodesLastCode(airports: seq<Airport>, i: int)
    requires 0 <= i < |airports|
    requires forall j :: i < j < |airports| ==> Text.Lower(airports[j].name) != Text.Lower(airports[i].name)
    ensures Dictionary.Encode(Load(airports).names, airports[i].name) == Some(airports[i].code)
  {
    var n := |airports| - 1;
    var pre := airports[..n];
    assert airports == pre + [airports[n]];
    LoadSnoc(pre, airports[n]);
    if i < n {
      assert pre[i] == airports[i];
      LoadEncodesLastCode(pre, i);
      AddMetroKeepsName(Load(pre), airports[n], airports[i].name);
    }
  }

  /** Adding a metro leaves the code of every other name alone. */
  lemma AddMetroKeepsName(d: Directory, a: Airport, name: string)
    requires Text.Lower(name) != Text.Lower(a.name)
    ensures Dictionary.Encode(AddMetro(d, a).names, name) == Dictionary.Encode(d.names, name)
  {
  }

  /** Loading one more record adds it to what the others loaded. */
  lemma LoadSnoc(pre: seq<Airport>, a: Airport)
    ensures Load(pre + [a]) == AddMetro(Load(pre), a)
  {
    assert (pre + [a])[..|pre|] == pre;
  }

  /** Adding a metro leaves every other code's metro and name alone. */
  lemma AddMetroKeeps(d: Directory, a: Airport, c: string)
    requires c != a.code
    ensures c in d.metros ==> c in AddMetro(d, a).metros && AddMetro(d, a).metros[c] == d.metros[c]
    ensures Dictionary.Unlock(AddMetro(d, a).names, c) == Dictionary.Unlock(d.names, c)
  {
  }

  /** Two airports of the data set: both are found by code and by name in any case. */
  lemma LoadExample()
    ensures var d := Load([Airport("SCL", "Santiago", "CL", "South America", -4, 6000000, [], 1),
                           Airport("LIM", "Lima", "PE", "South America", -5, 9050000, [], 1)]);
      && d.metros.Keys == {"SCL", "LIM"}
      && Dictionary.Encode(d.names, "LIMA") == Some("LIM")
      && Dictionary.Unlock(d.names, "SCL") == Some("Santiago")
      && Metro.Region(d.metros["LIM"]) == "Americas"
  {
    var a := [Airport("SCL", "Santiago", "CL", "South America", -4, 6000000, [], 1),
              Airport("LIM", "Lima", "PE", "South America", -5, 9050000, [], 1)];
    assert a[..1] == [a[0]] && a[..1][..0] == [];
    assert Text.Lower("LIMA") == "lima" && Text.Lower("Lima") == "lima";
  }
}
