# Search-history store of the weather dashboard backend

The backend keeps a list of previously searched cities in a JSON file,
`data/searchHistory.json`. The file holds an ordered array of records,
each with an `id` (from `uuidv4()`) and a city string. Every operation reads the
whole file. The mutating ones then change the list in memory and rewrite the
whole file. The repository has two versions of this store, and the model
covers both:

- **`CityHistory`** models the class `HistoryService` of `historyService.ts`.
  Its records are `{id, name}` values (`City`). Its `read` turns any read
  or parse failure into `[]`. `removeCity` answers `null` and skips the write
  when no record had the id.
- **`RouteHistory`** models the object literal `HistoryService` of
  `weatherRoutes.ts` (lines 55-75). Its records are `{id, city}` values
  (`Entry`). `getSearchHistory` has no fallback, so a missing or unparsable
  file is an error. Saving and deleting pass that error on and write nothing.
  `deleteCityFromHistory` always rewrites the file and always returns the
  filtered list, even when nothing matched. So with an unwritable file, even a
  delete that matches nothing fails.

The shared module **`Documents`** holds:

- the file as both stores see it: `File<T> = Missing | Unparsable | Json(entries)`;
- the errors: `FileNotFound` (fs.readFile), `SyntaxError` (JSON.parse) and
  `WriteFailed` (fs.writeFile);
- `Without`, the `filter(x => x.id !== id)` step both stores use, with its
  lemmas: order kept, exactly the matching records dropped, length and
  uniqueness facts.

Each store is a class. Its field `file` stands for the file on disk, and its
field `writable` says whether `fs.writeFile` succeeds. Each method states the
whole new file and its result in terms of the old file. `Valid()` says that ids
are pairwise distinct:

- `RemoveCity` and `DeleteCityFromHistory` are proved to keep it, and while it
  holds, a remove that matches deletes exactly one record.
- `AddCity` and `SaveCityToHistory` keep it when the uuid they are handed is fresh.
- `Write` stores whatever list it is given, so it keeps `Valid()` only when that
  list has unique ids.

Client methods in each module (`AppendScenario`, `RemoveScenario`,
`RemoveTwiceScenario`, `RoundTripScenario`, `UnparsableScenario`,
`UnwritableRemoveScenario`, `AddThenRemoveScenario`, `MissingFileScenario`,
`UnwritableDeleteScenario`, `DeleteTwiceScenario`) derive the expected behaviour from the contracts
alone. Examples: a fresh store lists `[]`; two appends end the list in call
order; removing the middle one of `[A, B, C]` leaves `[A, C]`; a second
removal of the same id answers null; adding a city with a fresh id and removing
it gives back the old history; a second delete of the same id rewrites the same list.

What stands in for the environment:

- The file system is the `file` and `writable` fields.
- JSON.stringify followed by JSON.parse gives back the same list.
- `uuidv4()` is the `uuid` parameter of `AddCity` and `SaveCityToHistory`.
- Each async operation runs to completion before the next one starts. A
  rejected promise is an `Err` result.

The two stores treat an absent file differently. `historyService.ts` reads it
as `[]` (historyService.ts:25-28). `weatherRoutes.ts` has no fallback
(weatherRoutes.ts:56-59), so that store can never create the file.
`RouteHistory.MissingFileScenario` shows this.

## Model

| member | source | states |
|---|---|---|
| `Documents.Parse` | weatherRoutes.ts:57-58 | `fs.readFile` plus `JSON.parse` succeed exactly on a written file and give back what was written; a missing file (`FileNotFound`) and non-JSON text (`SyntaxError`) are told apart |
| `CityHistory.Recovered` | historyService.ts:22-28 | what `read`'s try/catch hands back: the written records, or `[]` whenever reading or parsing fails |
| `Documents.Without` | historyService.ts:53 | the filtered list is no longer than the input and no surviving record has the id |
| `Documents.WithoutMembers` | weatherRoutes.ts:71 | a record survives the filter if and only if it was in the list and its id differs |
| `Documents.WithoutConcat` | weatherRoutes.ts:71 | filtering `a + b` is filtering `a` followed by filtering `b`, so survivors keep their relative order |
| `Documents.WithoutSubsequence` | historyService.ts:53 | the filtered list is obtained from the original by deleting records, so the order of the rest is kept |
| `Documents.WithoutRemovesId` | historyService.ts:53 | no record with the removed id is left (a bridge restating `Without`'s second ensures in terms of `Ids`) |
| `Documents.WithoutUnchanged` | historyService.ts:53-58 | the filter returns its input unchanged if and only if no record has the id |
| `Documents.WithoutShorter` | historyService.ts:56-58 | the length check sees a shorter list if and only if some record had the id; otherwise the length is equal |
| `Documents.WithoutRemovesOne` | historyService.ts:51-61 | while ids are unique, removing an id that occurs deletes exactly one record |
| `Documents.WithoutIdempotent` | historyService.ts:53 | filtering out the same id twice changes nothing the second time |
| `Documents.WithoutKeepsUnique` | historyService.ts:53 | removing records keeps ids pairwise distinct |
| `Documents.AppendKeepsUnique` | historyService.ts:10-13 | appending a record with a fresh id keeps ids pairwise distinct |
| `Documents.WithoutUndoesAppend` | historyService.ts:42-61 | removing the id of a freshly appended record gives back the list from before the append |
| `CityHistory.HistoryService.constructor` | historyService.ts:17-18 | the service works on the file as it is on disk |
| `CityHistory.HistoryService.Read` | historyService.ts:21-29 | the parsed records of the file; `[]` when the file is missing or unparsable |
| `CityHistory.HistoryService.Write` | historyService.ts:32-34 | on success the file holds exactly the given list, so the next read returns it; a failed write is an error and changes nothing; ids stay unique only if the given list has unique ids |
| `CityHistory.HistoryService.GetCities` | historyService.ts:37-39 | the whole history as `read` gives it, and the file is not touched |
| `CityHistory.HistoryService.AddCity` | historyService.ts:42-48 | the file becomes the old list plus `City(uuid, name)` at the end; that city is returned; the length grows by one; on a failed write nothing changes; a fresh uuid keeps ids unique |
| `CityHistory.HistoryService.RemoveCity` | historyService.ts:51-62 | no match (including an empty or unreadable file): null and no write; a match: the file and the result are the filtered list, shorter, without the id, in the original order; ids stay unique, and while they are unique exactly one record is removed |
| `RouteHistory.HistoryService.constructor` | weatherRoutes.ts:53-55 | the object works on the file as it is on disk |
| `RouteHistory.HistoryService.GetSearchHistory` | weatherRoutes.ts:56-59 | the parsed records; a missing file is `FileNotFound` and an unparsable one `SyntaxError`, never `[]` |
| `RouteHistory.HistoryService.SaveCityToHistory` | weatherRoutes.ts:61-67 | a read failure is passed on without a write; otherwise the file becomes the old list plus `Entry(uuid, city)` at the end and that entry is returned; a fresh uuid keeps ids unique |
| `RouteHistory.HistoryService.DeleteCityFromHistory` | weatherRoutes.ts:69-74 | a read failure is passed on without a write; otherwise it always writes, and the file and the result are the filtered list, without the id, in order; when nothing matched both equal the old list; ids stay unique, and while they are unique a match removes exactly one entry |

## Left out

- weatherService.ts, server.ts, the route handlers of weatherRoutes.ts (lines 1-47) and the weather client at weatherRoutes.ts:78-94 are not part of this model. They are HTTP and network glue.
- The text of the file is not modelled: JSON.stringify's two-space layout, and the parser itself, which is taken to give back what was written.
- A file that parses as JSON but is not an array of records is not modelled. The source hands the parsed value on unchecked: `getCities` and `getSearchHistory` return it as is; a non-array such as `{}` or `null` makes `push` or `filter` throw; an array of non-objects such as `[1, 2]` goes through both, and `filter` keeps every element.
- Read failures other than absence (permissions, say) are folded into `Missing`: both stores treat them the same way as a missing file.
- A failed `fs.writeFile` is modelled as leaving the file unchanged. A write that truncates the file and then fails is not modelled.
- Both stores use `../../data/searchHistory.json` relative to their own directory (historyService.ts:18, weatherRoutes.ts:53). Whether that is one file depends on a directory layout the source does not show. The model gives each store its own file.
- Concurrent read-modify-write calls and the lost update they can cause are not modelled. Each operation is atomic.
- `City`'s constructor (historyService.ts:10-13) is the datatype constructor applied to the `uuid` parameter. It has no member of its own.
- CityHistory.HistoryService.AddCity: keeps ids unique only when the `uuid` it is handed is not already in the file. The randomness that makes `uuidv4()` collide with negligible probability is not modelled.
- RouteHistory.HistoryService.SaveCityToHistory: keeps ids unique only when the `uuid` it is handed is not already in the file, for the same reason.
