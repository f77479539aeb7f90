/** The second search-history store, the `HistoryService` object of
    weatherRoutes.ts: a JSON file holding `{id, city}` records. Unlike
    the class of historyService.ts it has no fallback for a missing or
    unparsable file, and its delete always rewrites the file and always
    returns the filtered list, whether or not anything matched. */
module RouteHistory {
  import opened Documents

  /** A history entry: the id uuidv4() gave it and the city string as the caller sent it. */
  datatype Entry = Entry(id: Id, city: string)

  function EntryId(e: Entry): (id: Id)
  {
    e.id
  }

  class HistoryService {
    /** The contents of data/searchHistory.json. */
    var file: File<Entry>
    /** Whether fs.writeFile succeeds on that path. */
    var writable: bool

    /** The store's invariant: a stored history has pairwise distinct ids. */
    ghost predicate Valid()
      reads this
    {
      file.Json? ==> UniqueIds(file.entries, EntryId)
    }

    /** The object over the file as it is on disk when the process starts. */
    constructor (file: File<Entry>, writable: bool)
      ensures this.file == file && this.writable == writable
    {
      this.file := file;
      this.writable := writable;
    }

    /** `getSearchHistory`: the parsed file; a missing file and a file that is
        not JSON are errors, not an empty history. The file is not touched. */
    method GetSearchHistory() returns (r: Result<seq<Entry>>)
      ensures file.Json? ==> r == Ok(file.entries)
      ensures file.Missing? ==> r == Err(FileNotFound)
      ensures file.Unparsable? ==> r == Err(SyntaxError)
    {
      r := Parse(file);
    }

    /** `saveCityToHistory`: reads the history, appends `{id: uuid, city}`,
        rewrites the whole file and returns the new entry. A failed read is
        passed on and nothing is written. */
    method SaveCityToHistory(city: string, uuid: Id) returns (r: Result<Entry>)
      modifies this`file
      ensures !old(file).Json? ==> r == Err(Parse(old(file)).error) && file == old(file)
      ensures old(file).Json? && writable ==>
        r == Ok(Entry(uuid, city)) && file == Json(old(file).entries + [Entry(uuid, city)])
      ensures old(file).Json? && !writable ==> r == Err(WriteFailed) && file == old(file)
      ensures old(Valid()) && (old(file).Json? ==> uuid !in Ids(old(file).entries, EntryId)) ==> Valid()
    {
      var history := GetSearchHistory();
      if history.Err? {
        return Err(history.error);
      }
      var newEntry := Entry(uuid, city);
      if Valid() && uuid !in Ids(history.value, EntryId) {
        AppendKeepsUnique(history.value, newEntry, EntryId);
      }
      var updated := history.value + [newEntry];
      if !writable {
        return Err(WriteFailed);
      }
      file := Json(updated);
      r := Ok(newEntry);
    }

    /** `deleteCityFromHistory`: reads the history, drops every entry with the
        id and rewrites the file with the rest, whether or not anything matched;
        returns what it wrote. A failed read is passed on and nothing is written. */
    method DeleteCityFromHistory(id: Id) returns (r: Result<seq<Entry>>)
      modifies this`file
      ensures !old(file).Json? ==> r == Err(Parse(old(file)).error) && file == old(file)
      ensures old(file).Json? && writable ==>
        var after := Without(old(file).entries, EntryId, id);
        r == Ok(after) && file == Json(after) &&
        id !in Ids(after, EntryId) && IsSubsequence(after, old(file).entries)
      ensures old(file).Json? && writable && id !in Ids(old(file).entries, EntryId) ==>
        r == Ok(old(file).entries) && file == old(file)
      ensures old(file).Json? && !writable ==> r == Err(WriteFailed) && file == old(file)
      ensures old(Valid()) ==> Valid()
      ensures old(Valid()) && old(file).Json? && id in Ids(old(file).entries, EntryId) && writable ==>
        file.Json? && |file.entries| == |old(file).entries| - 1
    {
      var history := GetSearchHistory();
      if history.Err? {
        return Err(history.error);
      }
      var updatedHistory := Without(history.value, EntryId, id);
      WithoutRemovesId(history.value, EntryId, id);
      WithoutSubsequence(history.value, EntryId, id);
      WithoutUnchanged(history.value, EntryId, id);
      if Valid() {
        WithoutKeepsUnique(history.value, EntryId, id);
        if id in Ids(history.value, EntryId) {
          WithoutRemovesOne(history.value, EntryId, id);
        }
      }
      if !writable {
        return Err(WriteFailed);
      }
      file := Json(updatedHistory);
      r := Ok(updatedHistory);
    }
  }

  /** A store whose file was never written fails every operation, and writes nothing. */
  method MissingFileScenario(city: string, uuid: Id, id: Id)
  {
    var store := new HistoryService(Missing, true);
    var listed := store.GetSearchHistory();
    assert listed == Err(FileNotFound);
    var saved := store.SaveCityToHistory(city, uuid);
    assert saved == Err(FileNotFound) && store.file == Missing;
    var deleted := store.DeleteCityFromHistory(id);
    assert deleted == Err(FileNotFound) && store.file == Missing;
  }

  /** Deleting an id that matches nothing still writes, and so fails when the
      file cannot be written, even though there was nothing to delete. */
  method UnwritableDeleteScenario(entries: seq<Entry>, id: Id)
  {
    var store := new HistoryService(Json(entries), false);
    var deleted := store.DeleteCityFromHistory(id);
    assert deleted == Err(WriteFailed) && store.file == Json(entries);
  }

  /** Deleting the same id twice: the second delete rewrites the file with
      the same list and returns it, never a null-like result. */
  method DeleteTwiceScenario(entries: seq<Entry>, id: Id)
  {
    var store := new HistoryService(Json(entries), true);
    var first := store.DeleteCityFromHistory(id);
    WithoutIdempotent(entries, EntryId, id);
    var second := store.DeleteCityFromHistory(id);
    assert second == first && store.file == Json(Without(entries, EntryId, id));
  }
}
