/** The search-history store of historyService.ts: a class over one JSON file
    holding `{id, name}` records. Its `read` turns every read or parse failure
    into an empty list, and `removeCity` answers null, without writing, when no
    record has the id. */
module CityHistory {
  import opened Documents

  /** A searched city: the id uuidv4() gave it when it was created, and its name. */
  datatype City = City(id: Id, name: string)

  function CityId(c: City): (id: Id)
  {
    c.id
  }

  /** The list `read` hands back for a given file: its records, or `[]` when
      fs.readFile or JSON.parse fails. */
  function Recovered(f: File<City>): (cities: seq<City>)
    ensures f.Json? ==> cities == f.entries
    ensures !f.Json? ==> cities == []
  {
    match Parse(f)
    case Ok(cities) => cities
    case Err(_) => []
  }

  class HistoryService {
    /** The contents of data/searchHistory.json. */
    var file: File<City>
    /** Whether fs.writeFile succeeds on that path. */
    var writable: bool

    /** The store's invariant: the records it reads back have pairwise distinct ids. */
    ghost predicate Valid()
      reads this
    {
      UniqueIds(Recovered(file), CityId)
    }

    /** A service over the file as it is on disk when the process starts. */
    constructor (file: File<City>, writable: bool)
      ensures this.file == file && this.writable == writable
    {
      this.file := file;
      this.writable := writable;
    }

    /** `read`: the parsed file, or the empty list when the file is missing or unparsable. */
    method Read() returns (cities: seq<City>)
      ensures file.Json? ==> cities == file.entries
      ensures file.Missing? || file.Unparsable? ==> cities == []
      ensures cities == Recovered(file)
    {
      var parsed := Parse(file);
      if parsed.Ok? {
        cities := parsed.value;
      } else {
        cities := [];
      }
    }

    /** `write`: replaces the whole file, so that the next read returns exactly `cities`. */
    method Write(cities: seq<City>) returns (outcome: Result<()>)
      modifies this`file
      ensures writable ==> outcome == Ok(()) && file == Json(cities) && Recovered(file) == cities
      ensures !writable ==> outcome == Err(WriteFailed) && file == old(file)
      ensures writable && UniqueIds(cities, CityId) ==> Valid()
    {
      if writable {
        file := Json(cities);
        outcome := Ok(());
      } else {
        outcome := Err(WriteFailed);
      }
    }

    /** `getCities`: the whole history, in insertion order; the file is not touched. */
    method GetCities() returns (cities: seq<City>)
      ensures file.Json? ==> cities == file.entries
      ensures file.Missing? || file.Unparsable? ==> cities == []
      ensures cities == Recovered(file)
    {
      cities := Read();
    }

    /** `addCity`: reads the history, appends a new city with the id `uuid` that
        uuidv4() produced, rewrites the whole file and returns the new city. */
    method AddCity(cityName: string, uuid: Id) returns (r: Result<City>)
      modifies this`file
      ensures writable ==> r == Ok(City(uuid, cityName))
      ensures writable ==> file == Json(Recovered(old(file)) + [City(uuid, cityName)])
      ensures writable ==> var after := Recovered(file);
        |after| == |Recovered(old(file))| + 1 &&
        after[..|after| - 1] == Recovered(old(file)) &&
        after[|after| - 1] == r.value && after[|after| - 1].name == cityName
      ensures !writable ==> r == Err(WriteFailed) && file == old(file)
      ensures old(Valid()) && uuid !in Ids(Recovered(old(file)), CityId) ==> Valid()
    {
      var cities := Read();
      var newCity := City(uuid, cityName);
      if Valid() && uuid !in Ids(cities, CityId) {
        AppendKeepsUnique(cities, newCity, CityId);
      }
      cities := cities + [newCity];
      var written := Write(cities);
      if written.Err? {
        return Err(written.error);
      }
      r := Ok(newCity);
    }

    /** `removeCity`: reads the history and drops every record with the id.
        When none had it, answers null (`Ok(None)`) and does not write; otherwise
        rewrites the file with the remaining records and returns them. */
    method RemoveCity(id: Id) returns (r: Result<Option<seq<City>>>)
      modifies this`file
      ensures id !in Ids(Recovered(old(file)), CityId) ==> r == Ok(None) && file == old(file)
      ensures id in Ids(Recovered(old(file)), CityId) && writable ==>
        var after := Without(Recovered(old(file)), CityId, id);
        r == Ok(Some(after)) && file == Json(after) &&
        |after| < |Recovered(old(file))| && id !in Ids(after, CityId) &&
        IsSubsequence(after, Recovered(old(file)))
      ensures id in Ids(Recovered(old(file)), CityId) && !writable ==>
        r == Err(WriteFailed) && file == old(file)
      ensures old(Valid()) ==> Valid()
      ensures old(Valid()) && id in Ids(Recovered(old(file)), CityId) && writable ==>
        |Recovered(file)| == |Recovered(old(file))| - 1
    {
      var cities := Read();
      var updatedCities := Without(cities, CityId, id);
      WithoutShorter(cities, CityId, id);
      if |cities| == |updatedCities| {
        return Ok(None);
      }
      WithoutRemovesId(cities, CityId, id);
      WithoutSubsequence(cities, CityId, id);
      if Valid() {
        WithoutKeepsUnique(cities, CityId, id);
        WithoutRemovesOne(cities, CityId, id);
      }
      var written := Write(updatedCities);
      if written.Err? {
        return Err(written.error);
      }
      r := Ok(Some(updatedCities));
    }
  }

  /** What a caller can count on, from the contracts alone: an empty history
      before the first write, and two appends that end the list in call order. */
  method AppendScenario(a: string, b: string, idA: Id, idB: Id)
  {
    var store := new HistoryService(Missing, true);
    var before := store.GetCities();
    assert before == [];
    var added := store.AddCity(a, idA);
    added := store.AddCity(b, idB);
    assert added == Ok(City(idB, b));
    var all := store.GetCities();
    assert all == [City(idA, a), City(idB, b)];
  }

  /** Removing the middle one of three cities leaves the other two, in their order. */
  method RemoveScenario(a: string, b: string, c: string, idA: Id, idB: Id, idC: Id)
    requires idA != idB && idB != idC
  {
    var cityA, cityB, cityC := City(idA, a), City(idB, b), City(idC, c);
    var store := new HistoryService(Json([cityA, cityB, cityC]), true);
    assert idB in Ids([cityA, cityB, cityC], CityId) by { assert CityId([cityA, cityB, cityC][1]) == idB; }
    assert Without([cityA, cityB, cityC], CityId, idB) == [cityA, cityC] by {
      assert [cityC][1..] == [];
      assert Without([cityC], CityId, idB) == [cityC];
      assert [cityB, cityC][1..] == [cityC];
      assert Without([cityB, cityC], CityId, idB) == [cityC];
      assert [cityA, cityB, cityC][1..] == [cityB, cityC];
    }
    var removed := store.RemoveCity(idB);
    assert removed == Ok(Some([cityA, cityC]));
  }

  /** Removing the same id twice: the second call finds nothing and answers null. */
  method RemoveTwiceScenario(cities: seq<City>, id: Id)
  {
    var store := new HistoryService(Json(cities), true);
    var first := store.RemoveCity(id);
    WithoutRemovesId(cities, CityId, id);
    var second := store.RemoveCity(id);
    assert second == Ok(None);
  }

  /** A file that does not parse reads as an empty history, so nothing can be removed from it. */
  method UnparsableScenario(id: Id)
  {
    var store := new HistoryService(Unparsable, true);
    var cities := store.GetCities();
    assert cities == [];
    var removed := store.RemoveCity(id);
    assert removed == Ok(None) && store.file == Unparsable;
  }

  /** Writing a list and reading it back gives exactly that list, whatever the file held before. */
  method RoundTripScenario(start: File<City>, cities: seq<City>)
  {
    var store := new HistoryService(start, true);
    var written := store.Write(cities);
    var back := store.Read();
    assert written == Ok(()) && back == cities;
  }

  /** Removing an id that matches nothing attempts no write, so it answers null
      even when the file cannot be written. */
  method UnwritableRemoveScenario(cities: seq<City>, id: Id)
    requires id !in Ids(cities, CityId)
  {
    var store := new HistoryService(Json(cities), false);
    var removed := store.RemoveCity(id);
    assert removed == Ok(None) && store.file == Json(cities);
  }

  /** Adding a city with a fresh id and then removing that id gives back the
      history from before the add, and the file holds it again. */
  method AddThenRemoveScenario(cities: seq<City>, name: string, uuid: Id)
    requires uuid !in Ids(cities, CityId)
  {
    var store := new HistoryService(Json(cities), true);
    var added := store.AddCity(name, uuid);
    var all := cities + [City(uuid, name)];
    assert uuid in Ids(all, CityId) by { assert CityId(all[|cities|]) == uuid; }
    WithoutUndoesAppend(cities, City(uuid, name), CityId);
    var removed := store.RemoveCity(uuid);
    assert removed == Ok(Some(cities)) && store.file == Json(cities);
  }
}
