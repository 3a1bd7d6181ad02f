/**
 The two-way translation between city names and airport codes of
 lib/model/dictionary.rb. The name side is keyed by the lower-cased name, the
 code side keeps the name as it was spelled when added. A stored code may be
 `nil` (`None`): `change_city_name` of a city the dictionary does not know
 stores one, and Ruby then also files the new name under the `nil` key.
 */
module Dictionary {
  import opened Text
  import opened Optional

  datatype Dictionary = Dictionary(nameKey: map<string, Option<string>>, keyName: map<Option<string>, string>)

  function Empty(): (d: Dictionary)
    ensures forall n :: Encode(d, n) == None && !CityExists(d, n)
    ensures forall k :: Unlock(d, k) == None
  {
    Dictionary(map[], map[])
  }

  /**
   `encode`: the code filed under the lower-cased name; `nil` when nothing is
   filed there, so spellings that differ only in case encode alike.
   */
  function Encode(d: Dictionary, name: string): (r: Option<string>)
    ensures CityExists(d, Lower(name)) ==> r == d.nameKey[Lower(name)]
    ensures !CityExists(d, Lower(name)) ==> r == None
    ensures r != None ==> CityExists(d, Lower(name))
  {
    if Lower(name) in d.nameKey then d.nameKey[Lower(name)] else None
  }

  /** `unlock`: the name as originally spelled that was filed under `key`; `nil` for an unknown code. */
  function Unlock(d: Dictionary, key: string): (r: Option<string>)
    ensures r != None <==> Some(key) in d.keyName
    ensures r != None ==> d.keyName[Some(key)] == r.value
  {
    if Some(key) in d.keyName then Some(d.keyName[Some(key)]) else None
  }

  /** `city_exists?`: the argument is looked up as given, not lower-cased. */
  predicate CityExists(d: Dictionary, name: string)
  {
    name in d.nameKey
  }

  /**
   For a lower-cased name `city_exists?` holds exactly when `encode` finds a
   code or a `nil` code is filed; a name with an upper-case letter is never
   found once every filed name is lower-cased, as `add_translation` files them.
   */
  lemma CityExistsAgreesWithEncode(d: Dictionary, name: string)
    ensures CityExists(d, Lower(name)) <==> Encode(d, name) != None || (Lower(name) in d.nameKey && d.nameKey[Lower(name)] == None)
    ensures (forall n :: n in d.nameKey ==> n == Lower(n)) && name != Lower(name) ==> !CityExists(d, name)
  {
  }

  /**
   `add_translation`: the name (any spelling) now encodes to `code` and `code`
   unlocks to this spelling. Nothing else changes: in particular a code the
   name had before still unlocks to the old entry, and a name that had `code`
   before still encodes to it.
   */
  function AddTranslation(d: Dictionary, name: string, code: Option<string>): (r: Dictionary)
    ensures forall n :: Encode(r, n) == if Lower(n) == Lower(name) then code else Encode(d, n)
    ensures forall k :: Unlock(r, k) == if Some(k) == code then Some(name) else Unlock(d, k)
    ensures forall n :: CityExists(r, n) <==> n == Lower(name) || CityExists(d, n)
  {
    Dictionary(d.nameKey[Lower(name) := code], d.keyName[code := name])
  }

  /**
   `delete_translation`: the name (any spelling) no longer encodes and its
   code no longer unlocks; every other name and code is untouched. When the
   name is unknown its lookup is `nil`, and Ruby deletes the `nil` key of the
   code side.
   */
  function DeleteTranslation(d: Dictionary, name: string): (r: Dictionary)
    ensures forall n :: Encode(r, n) == if Lower(n) == Lower(name) then None else Encode(d, n)
    ensures forall k :: Unlock(r, k) == if Some(k) == Encode(d, name) then None else Unlock(d, k)
    ensures forall n :: CityExists(r, n) <==> n != Lower(name) && CityExists(d, n)
  {
    Dictionary(d.nameKey - {Lower(name)}, d.keyName - {Encode(d, name)})
  }

  /**
   `change_airport_code`: the city now encodes to the new code, which unlocks
   to it; the old code is gone, and every other code unlocks as before.
   */
  function ChangeAirportCode(d: Dictionary, name: string, newKey: string): (r: Dictionary)
    ensures Encode(r, name) == Some(newKey) && Unlock(r, newKey) == Some(name)
    ensures forall k :: k != newKey && Some(k) == Encode(d, name) ==> Unlock(r, k) == None
    ensures forall n :: Lower(n) != Lower(name) ==> Encode(r, n) == Encode(d, n)
    ensures forall k :: k != newKey && Some(k) != Encode(d, name) ==> Unlock(r, k) == Unlock(d, k)
  {
    AddTranslation(DeleteTranslation(d, name), name, Some(newKey))
  }

  /**
   `change_city_name`: the new name takes over the old name's code, the code
   unlocks to the new name, and the old name no longer encodes unless it only
   differs from the new one in case. Every other code unlocks as before.
   */
  function ChangeCityName(d: Dictionary, originalName: string, newName: string): (r: Dictionary)
    ensures Encode(r, newName) == Encode(d, originalName)
    ensures forall k :: Some(k) == Encode(d, originalName) ==> Unlock(r, k) == Some(newName)
    ensures Lower(originalName) != Lower(newName) ==> Encode(r, originalName) == None
    ensures forall n :: Lower(n) != Lower(originalName) && Lower(n) != Lower(newName) ==> Encode(r, n) == Encode(d, n)
    ensures forall k :: Some(k) != Encode(d, originalName) ==> Unlock(r, k) == Unlock(d, k)
  {
    AddTranslation(DeleteTranslation(d, originalName), newName, Encode(d, originalName))
  }

  /**
   The two sides are inverse to each other: every filed name's code unlocks
   to a spelling of that name, and every code's name encodes back to it.
   */
  ghost predicate Inverse(d: Dictionary) {
    && (forall n :: n in d.nameKey ==> d.nameKey[n] in d.keyName && Lower(d.keyName[d.nameKey[n]]) == n)
    && (forall k :: k in d.keyName ==> Lower(d.keyName[k]) in d.nameKey && d.nameKey[Lower(d.keyName[k])] == k)
  }

  /** In an inverse dictionary every known code round-trips: unlock, then encode, gives the code back. */
  lemma {:induction false} InverseRoundTrip(d: Dictionary, code: string)
    requires Inverse(d) && Unlock(d, code) != None
    ensures Encode(d, Unlock(d, code).value) == Some(code)
  {
    var name := d.keyName[Some(code)];
    assert Lower(name) in d.nameKey && d.nameKey[Lower(name)] == Some(code);
  }

  /** Adding a fresh name with a fresh code keeps the two sides inverse. */
  lemma {:induction false} AddFreshKeepsInverse(d: Dictionary, name: string, code: Option<string>)
    requires Inverse(d) && !CityExists(d, Lower(name)) && code !in d.keyName
    ensures Inverse(AddTranslation(d, name, code))
  {
    var r := AddTranslation(d, name, code);
    LowerIdempotent(name);
    forall n | n in r.nameKey
      ensures r.nameKey[n] in r.keyName && Lower(r.keyName[r.nameKey[n]]) == n
    {
      if n != Lower(name) {
        assert d.nameKey[n] != code;
      }
    }
    forall k | k in r.keyName
      ensures Lower(r.keyName[k]) in r.nameKey && r.nameKey[Lower(r.keyName[k])] == k
    {
      if k != code {
        assert Lower(d.keyName[k]) != Lower(name);
      }
    }
  }

  /**
   Re-adding a known name under a new code breaks the inverse: the old code
   still unlocks to the name, which no longer encodes to it.
   */
  lemma AddKnownLeavesStaleCode(d: Dictionary, name: string, code: string)
    requires Encode(d, name) == Some(code) && Unlock(d, code) == Some(name)
    ensures forall c :: c != code ==> var r := AddTranslation(d, name, Some(c));
      Unlock(r, code) == Some(name) && Encode(r, name) == Some(c) && !Inverse(r)
  {
    forall c | c != code
      ensures var r := AddTranslation(d, name, Some(c));
        Unlock(r, code) == Some(name) && Encode(r, name) == Some(c) && !Inverse(r)
    {
      var r := AddTranslation(d, name, Some(c));
      LowerIdempotent(name);
      assert r.nameKey[Lower(r.keyName[Some(code)])] == Some(c);
    }
  }

  /** Deleting a known name keeps the two sides inverse. */
  lemma {:induction false} DeleteKeepsInverse(d: Dictionary, name: string)
    requires Inverse(d) && CityExists(d, Lower(name))
    ensures Inverse(DeleteTranslation(d, name))
  {
    var r := DeleteTranslation(d, name);
    var gone := d.nameKey[Lower(name)];
    forall n | n in r.nameKey
      ensures r.nameKey[n] in r.keyName && Lower(r.keyName[r.nameKey[n]]) == n
    {
      assert d.nameKey[n] != gone;
    }
  }

  /** Changing the code of a known city to a code no other city uses keeps the sides inverse. */
  lemma ChangeAirportCodeKeepsInverse(d: Dictionary, name: string, newKey: string)
    requires Inverse(d) && CityExists(d, Lower(name))
    requires Unlock(d, newKey) == None || Encode(d, name) == Some(newKey)
    ensures Inverse(ChangeAirportCode(d, name, newKey))
  {
    DeleteKeepsInverse(d, name);
    var e := DeleteTranslation(d, name);
    LowerIdempotent(name);
    AddFreshKeepsInverse(e, name, Some(newKey));
  }

  /** Renaming a known city to a name not yet filed (in any case) keeps the sides inverse. */
  lemma ChangeCityNameKeepsInverse(d: Dictionary, originalName: string, newName: string)
    requires Inverse(d) && CityExists(d, Lower(originalName))
    requires !CityExists(d, Lower(newName)) || Lower(newName) == Lower(originalName)
    ensures Inverse(ChangeCityName(d, originalName, newName))
  {
    DeleteKeepsInverse(d, originalName);
    var e := DeleteTranslation(d, originalName);
    LowerIdempotent(newName);
    AddFreshKeepsInverse(e, newName, Encode(d, originalName));
  }

  /** The scenarios of the dictionary's unit tests, all starting from Lima / LIM. */
  lemma DictionaryExamples()
    ensures var d := AddTranslation(Empty(), "Lima", Some("LIM"));
      && Encode(d, "Lima") == Some("LIM") && Unlock(d, "LIM") == Some("Lima")
      && Encode(d, "LIMA") == Some("LIM") && CityExists(d, "lima") && !CityExists(d, "Lima")
      && (var deleted := DeleteTranslation(d, "Lima");
          Encode(deleted, "Lima") == None && Unlock(deleted, "LIM") == None)
      && (var moved := ChangeAirportCode(d, "Lima", "LMA");
          Encode(moved, "Lima") == Some("LMA") && Unlock(moved, "LMA") == Some("Lima") && Unlock(moved, "LIM") == None)
      && (var renamed := ChangeCityName(d, "Lima", "Limonada");
          Encode(renamed, "Limonada") == Some("LIM") && Unlock(renamed, "LIM") == Some("Limonada")
          && Encode(renamed, "Lima") == None)
  {
    assert Lower("Lima") == "lima";
    assert Lower("LIMA") == "lima";
    assert Lower("Limonada") == "limonada";
  }
}
