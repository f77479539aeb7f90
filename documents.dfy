/** The history file both stores keep, the way they fail, and the two list
    operations they share: the ids of a list of records, and dropping every
    record that carries a given id (`filter(entry => entry.id !== id)`).

    The operations are generic in the record type: each store passes the
    function that gives a record's id (`key`), because historyService.ts
    stores `{id, name}` records and weatherRoutes.ts stores `{id, city}`. */
module Documents {

  /** A record id, as produced by uuidv4(). */
  type Id = string

  /** Why an operation on the history file failed. */
  datatype IoError =
    | FileNotFound  // fs.readFile rejected: no file at the path, or it cannot be read
    | SyntaxError   // JSON.parse threw on the text of the file
    | WriteFailed   // fs.writeFile rejected

  datatype Option<T> = None | Some(value: T)

  datatype Result<T> = Ok(value: T) | Err(error: IoError)

  /** The history file at its fixed path, as fs.readFile and JSON.parse see it:
      missing (or unreadable), present but not JSON, or a JSON array of records.
      Writing `JSON.stringify(list)` makes it `Json(list)`: parsing gives back
      the same records, in the same order. */
  datatype File<T> = Missing | Unparsable | Json(entries: seq<T>)

  /** fs.readFile followed by JSON.parse, failures included: it succeeds exactly
      on a file that was written, and then gives back what was written; a missing
      file and text that is not JSON are told apart, and reading never reports a
      write error. */
  function Parse<T>(f: File<T>): (r: Result<seq<T>>)
    ensures r.Ok? <==> f.Json?
    ensures r.Ok? ==> f == Json(r.value)
    ensures r.Err? ==> (r.error == FileNotFound <==> f.Missing?) && r.error != WriteFailed
  {
    match f
    case Missing => Err(FileNotFound)
    case Unparsable => Err(SyntaxError)
    case Json(entries) => Ok(entries)
  }

  /** The ids that occur in a list of records. */
  function Ids<T>(s: seq<T>, key: T -> Id): (ids: set<Id>)
  {
    set i | 0 <= i < |s| :: key(s[i])
  }

  /** No two records of the list share an id. */
  ghost predicate UniqueIds<T>(s: seq<T>, key: T -> Id)
  {
    forall i, j :: 0 <= i < j < |s| ==> key(s[i]) != key(s[j])
  }

  /** `r` is `s` with some records deleted and the rest in their original order. */
  ghost predicate IsSubsequence<T>(r: seq<T>, s: seq<T>)
    decreases |s|
  {
    r == [] ||
    (s != [] && ((r[0] == s[0] && IsSubsequence(r[1..], s[1..])) || IsSubsequence(r, s[1..])))
  }

  /** `s.filter(x => key(x) !== id)`: every record whose id is not `id`. */
  function Without<T>(s: seq<T>, key: T -> Id, id: Id): (r: seq<T>)
    ensures |r| <= |s|
    ensures forall i :: 0 <= i < |r| ==> key(r[i]) != id
  {
    if s == [] then []
    else if key(s[0]) == id then Without(s[1..], key, id)
    else [s[0]] + Without(s[1..], key, id)
  }

  /** The ids of a non-empty list: those of its head and of the rest. */
  lemma IdsCons<T>(s: seq<T>, key: T -> Id)
    requires s != []
    ensures Ids(s, key) == {key(s[0])} + Ids(s[1..], key)
  {
  }

  /** The filter distributes over concatenation: it never moves a record
      across another, so the survivors keep their relative order. */
  lemma {:induction false} WithoutConcat<T>(a: seq<T>, b: seq<T>, key: T -> Id, id: Id)
    ensures Without(a + b, key, id) == Without(a, key, id) + Without(b, key, id)
  {
    if a == [] {
      assert a + b == b;
    } else {
      assert (a + b)[0] == a[0];
      assert (a + b)[1..] == a[1..] + b;
      WithoutConcat(a[1..], b, key, id);
    }
  }

  /** The result of the filter is obtained from the input by deleting records. */
  lemma {:induction false} WithoutSubsequence<T>(s: seq<T>, key: T -> Id, id: Id)
    ensures IsSubsequence(Without(s, key, id), s)
  {
    if s != [] {
      WithoutSubsequence(s[1..], key, id);
      var r := Without(s, key, id);
      if key(s[0]) != id {
        assert r[0] == s[0] && r[1..] == Without(s[1..], key, id);
      }
    }
  }

  /** A record survives the filter exactly when it was in the list and its id differs. */
  lemma {:induction false} WithoutMembers<T>(s: seq<T>, key: T -> Id, id: Id, x: T)
    ensures x in Without(s, key, id) <==> x in s && key(x) != id
  {
    if s != [] {
      WithoutMembers(s[1..], key, id, x);
      assert s == [s[0]] + s[1..];
    }
  }

  /** No record with the removed id is left: the second ensures of `Without`,
      restated in terms of `Ids`, the form the store contracts use. */
  lemma WithoutRemovesId<T>(s: seq<T>, key: T -> Id, id: Id)
    ensures id !in Ids(Without(s, key, id), key)
  {
  }

  /** The filter returns its input unchanged exactly when no record has the id. */
  lemma {:induction false} WithoutUnchanged<T>(s: seq<T>, key: T -> Id, id: Id)
    ensures Without(s, key, id) == s <==> id !in Ids(s, key)
  {
    if s != [] {
      IdsCons(s, key);
      WithoutUnchanged(s[1..], key, id);
      if key(s[0]) != id {
        var r := Without(s[1..], key, id);
        assert s == [s[0]] + s[1..];
        assert ([s[0]] + r)[1..] == r;
      } else {
        assert |Without(s, key, id)| < |s|;
      }
    }
  }

  /** The filter makes the list strictly shorter exactly when some record has the id.
      The second ensures, that the length is otherwise the same, follows from the
      first and `|Without(s, key, id)| <= |s|`; it is stated for the length check
      of `removeCity`. */
  lemma {:induction false} WithoutShorter<T>(s: seq<T>, key: T -> Id, id: Id)
    ensures |Without(s, key, id)| < |s| <==> id in Ids(s, key)
    ensures id !in Ids(s, key) ==> |Without(s, key, id)| == |s|
  {
    if s != [] {
      IdsCons(s, key);
      WithoutShorter(s[1..], key, id);
    }
  }

  /** While ids are unique, removing an id that occurs deletes exactly one record. */
  lemma {:induction false} WithoutRemovesOne<T>(s: seq<T>, key: T -> Id, id: Id)
    requires UniqueIds(s, key)
    requires id in Ids(s, key)
    ensures |Without(s, key, id)| == |s| - 1
  {
    IdsCons(s, key);
    assert UniqueIds(s[1..], key) by {
      forall i, j | 0 <= i < j < |s| - 1 ensures key(s[1..][i]) != key(s[1..][j]) {
        assert s[1..][i] == s[i + 1] && s[1..][j] == s[j + 1];
      }
    }
    if key(s[0]) == id {
      assert id !in Ids(s[1..], key) by {
        forall j | 0 <= j < |s| - 1 ensures key(s[1..][j]) != id {
          assert s[1..][j] == s[j + 1];
        }
      }
      WithoutUnchanged(s[1..], key, id);
    } else {
      WithoutRemovesOne(s[1..], key, id);
    }
  }

  /** Removing an id a second time changes nothing. */
  lemma WithoutIdempotent<T>(s: seq<T>, key: T -> Id, id: Id)
    ensures Without(Without(s, key, id), key, id) == Without(s, key, id)
  {
  }

  /** Putting a record in front of a list none of whose ids it shares keeps the ids unique. */
  lemma ConsKeepsUnique<T>(x: T, r: seq<T>, key: T -> Id)
    requires UniqueIds(r, key)
    requires forall j :: 0 <= j < |r| ==> key(r[j]) != key(x)
    ensures UniqueIds([x] + r, key)
  {
  }

  /** Removing records never makes two ids collide. */
  lemma {:induction false} WithoutKeepsUnique<T>(s: seq<T>, key: T -> Id, id: Id)
    requires UniqueIds(s, key)
    ensures UniqueIds(Without(s, key, id), key)
  {
    if s != [] {
      var tail := s[1..];
      assert UniqueIds(tail, key) by {
        forall i, j | 0 <= i < j < |tail| ensures key(tail[i]) != key(tail[j]) {
          assert tail[i] == s[i + 1] && tail[j] == s[j + 1];
        }
      }
      WithoutKeepsUnique(tail, key, id);
      if key(s[0]) != id {
        var rest := Without(tail, key, id);
        forall j | 0 <= j < |rest| ensures key(rest[j]) != key(s[0]) {
          WithoutMembers(tail, key, id, rest[j]);
          var k :| 0 <= k < |tail| && tail[k] == rest[j];
          assert s[k + 1] == rest[j];
        }
        ConsKeepsUnique(s[0], rest, key);
      }
    }
  }

  /** Appending a record whose id is fresh keeps the ids unique. */
  lemma AppendKeepsUnique<T>(s: seq<T>, x: T, key: T -> Id)
    requires UniqueIds(s, key)
    requires key(x) !in Ids(s, key)
    ensures UniqueIds(s + [x], key)
  {
  }

  /** Removing the id of a freshly appended record gives back the list before the append. */
  lemma WithoutUndoesAppend<T>(s: seq<T>, x: T, key: T -> Id)
    requires key(x) !in Ids(s, key)
    ensures Without(s + [x], key, key(x)) == s
  {
    WithoutConcat(s, [x], key, key(x));
    WithoutUnchanged(s, key, key(x));
    assert [x][1..] == [];
  }
}
