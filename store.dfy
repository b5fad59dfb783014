/** The meeting store: an ordered table of meeting rows whose ids the store
    itself assigns. The SQL database behind the original repository is
    replaced by a sequence of records; each repository operation becomes a
    function on that sequence and a method of the Repository class that
    applies it. */
module MeetingStore {
  import opened MeetingModel

  /** No two rows share an id (the id column is the table's identity). */
  predicate UniqueIds(s: seq<Meeting>) {
    forall i, j :: 0 <= i < j < |s| ==> s[i].id != s[j].id
  }

  /** The first row with the given id, as `List.Find` returns it. */
  function FindFirst(s: seq<Meeting>, id: int): (r: Option<Meeting>)
    ensures r.Some? ==> r.value in s && r.value.id == id
    ensures r.None? <==> forall m :: m in s ==> m.id != id
    ensures r.Some? ==> exists i :: 0 <= i < |s| && s[i] == r.value && forall j :: 0 <= j < i ==> s[j].id != id
  {
    if s == [] then None
    else if s[0].id == id then Some(s[0])
    else
      var r := FindFirst(s[1..], id);
      assert r.Some? ==> exists i :: 0 <= i < |s| && s[i] == r.value && forall j :: 0 <= j < i ==> s[j].id != id by {
        if r.Some? {
          var i :| 0 <= i < |s[1..]| && s[1..][i] == r.value && forall j :: 0 <= j < i ==> s[1..][j].id != id;
          assert s[i + 1] == r.value;
          assert forall j :: 0 <= j < i + 1 ==> s[j].id != id by {
            forall j | 0 <= j < i + 1 ensures s[j].id != id {
              if j > 0 { assert s[j] == s[1..][j - 1]; }
            }
          }
        }
      }
      r
  }

  /** The last row with the given id: the repository's scan keeps
      overwriting its answer with every later match. */
  function FindLast(s: seq<Meeting>, id: int): (r: Option<Meeting>)
    ensures r.Some? ==> r.value in s && r.value.id == id
    ensures r.None? <==> forall m :: m in s ==> m.id != id
    ensures r.Some? ==> exists i :: 0 <= i < |s| && s[i] == r.value && forall j :: i < j < |s| ==> s[j].id != id
  {
    if s == [] then None
    else if s[|s| - 1].id == id then Some(s[|s| - 1])
    else
      var front := s[..|s| - 1];
      var r := FindLast(front, id);
      assert r.Some? ==> exists i :: 0 <= i < |s| && s[i] == r.value && forall j :: i < j < |s| ==> s[j].id != id by {
        if r.Some? {
          var i :| 0 <= i < |front| && front[i] == r.value && forall j :: i < j < |front| ==> front[j].id != id;
          assert s[i] == r.value;
          assert forall j :: i < j < |s| ==> s[j].id != id by {
            forall j | i < j < |s| ensures s[j].id != id {
              if j < |s| - 1 { assert s[j] == front[j]; }
            }
          }
        }
      }
      assert r.None? <==> forall m :: m in s ==> m.id != id by {
        assert s == front + [s[|s| - 1]];
      }
      r
  }

  /** With unique ids the first and the last match are the same row. */
  lemma FindFirstIsFindLast(s: seq<Meeting>, id: int)
    ensures UniqueIds(s) ==> FindFirst(s, id) == FindLast(s, id)
  {
    var f, l := FindFirst(s, id), FindLast(s, id);
    if UniqueIds(s) && f.Some? {
      var i :| 0 <= i < |s| && s[i] == f.value && forall j :: 0 <= j < i ==> s[j].id != id;
      var k :| 0 <= k < |s| && s[k] == l.value && forall j :: k < j < |s| ==> s[j].id != id;
      assert i == k;
    }
  }

  /** Without unique ids the two searches can disagree: with two rows
      sharing an id, the first match is the first row and the last match
      the second. */
  lemma FirstAndLastDiffer()
    ensures var s := [Meeting(1, 10, 20, None), Meeting(1, 30, 40, None)];
      FindFirst(s, 1) == Some(s[0]) && FindLast(s, 1) == Some(s[1])
  {
    var s := [Meeting(1, 10, 20, None), Meeting(1, 30, 40, None)];
    assert s[..|s| - 1] == [s[0]];
  }

  /** The columns an UPDATE writes: begin, end and note; the id stays. */
  function Overwrite(row: Meeting, item: Meeting): Meeting {
    row.(begin := item.begin, end := item.end, note := item.note)
  }

  /** UPDATE ... WHERE Id = id: every row with that id takes the item's
      begin, end and note; every other row stays as it was. */
  function EditAll(s: seq<Meeting>, id: int, item: Meeting): (r: seq<Meeting>)
    ensures |r| == |s|
    ensures forall i :: 0 <= i < |s| ==> r[i] == if s[i].id == id then Overwrite(s[i], item) else s[i]
  {
    if s == [] then []
    else [if s[0].id == id then Overwrite(s[0], item) else s[0]] + EditAll(s[1..], id, item)
  }

  /** DELETE ... WHERE Id = id: drops the rows with that id. */
  function RemoveAll(s: seq<Meeting>, id: int): (r: seq<Meeting>)
    ensures |r| <= |s|
    ensures forall m :: m in r <==> m in s && m.id != id
  {
    if s == [] then []
    else (if s[0].id == id then [] else [s[0]]) + RemoveAll(s[1..], id)
  }

  /** Removal keeps the remaining rows in their order: it distributes over concatenation. */
  lemma {:induction false} RemoveAllAppend(a: seq<Meeting>, b: seq<Meeting>, id: int)
    ensures RemoveAll(a + b, id) == RemoveAll(a, id) + RemoveAll(b, id)
  {
    if a == [] {
      assert a + b == b;
    } else {
      assert (a + b)[1..] == a[1..] + b;
      RemoveAllAppend(a[1..], b, id);
    }
  }

  /** Removing an id no row carries changes nothing. */
  lemma {:induction false} RemoveAllAbsent(s: seq<Meeting>, id: int)
    requires forall m :: m in s ==> m.id != id
    ensures RemoveAll(s, id) == s
  {
    if s != [] {
      assert s[0] in s;
      assert forall m :: m in s[1..] ==> m in s;
      RemoveAllAbsent(s[1..], id);
    }
  }

  /** Removal keeps ids unique. */
  lemma {:induction false} RemoveAllUnique(s: seq<Meeting>, id: int)
    requires UniqueIds(s)
    ensures UniqueIds(RemoveAll(s, id))
  {
    if s != [] {
      var rest := RemoveAll(s[1..], id);
      RemoveAllUnique(s[1..], id);
      forall m | m in rest ensures m.id != s[0].id {
        var j :| 0 <= j < |s[1..]| && s[1..][j] == m;
        assert s[j + 1] == m;
      }
    }
  }

  /** With unique ids, deleting an id that is present removes exactly one row. */
  lemma {:induction false} RemoveAllCount(s: seq<Meeting>, id: int)
    requires UniqueIds(s)
    requires FindFirst(s, id).Some?
    ensures |RemoveAll(s, id)| == |s| - 1
  {
    if s[0].id == id {
      forall m | m in s[1..] ensures m.id != id {
        var j :| 0 <= j < |s[1..]| && s[1..][j] == m;
        assert s[j + 1] == m;
      }
      RemoveAllAbsent(s[1..], id);
    } else {
      RemoveAllCount(s[1..], id);
    }
  }

  /** `List.Remove` of the first row with the id: one occurrence goes, if there is one. */
  function RemoveFirst(s: seq<Meeting>, id: int): (r: seq<Meeting>)
    ensures FindFirst(s, id).None? ==> r == s
    ensures FindFirst(s, id).Some? ==>
      |r| == |s| - 1 && multiset(r) == multiset(s) - multiset{FindFirst(s, id).value}
  {
    if s == [] then []
    else
      assert s == [s[0]] + s[1..];
      if s[0].id == id then s[1..]
      else [s[0]] + RemoveFirst(s[1..], id)
  }

  /** With unique ids, dropping the first match is dropping every match. */
  lemma {:induction false} RemoveFirstIsRemoveAll(s: seq<Meeting>, id: int)
    requires UniqueIds(s)
    ensures RemoveFirst(s, id) == RemoveAll(s, id)
  {
    if s != [] {
      if s[0].id == id {
        forall m | m in s[1..] ensures m.id != id {
          var j :| 0 <= j < |s[1..]| && s[1..][j] == m;
          assert s[j + 1] == m;
        }
        RemoveAllAbsent(s[1..], id);
      } else {
        RemoveFirstIsRemoveAll(s[1..], id);
      }
    }
  }

  /** The repository: the table's rows in insertion order and the next value
      of its identity column. */
  class Repository {
    var records: seq<Meeting>
    var identity: int

    ghost predicate Valid()
      reads this
    {
      1 <= identity &&
      UniqueIds(records) &&
      forall m :: m in records ==> 1 <= m.id < identity
    }

    /** An empty table whose identity column starts at 1. */
    constructor ()
      ensures Valid() && records == [] && identity == 1
    {
      records := [];
      identity := 1;
    }

    /** The full scan. Every row is read back with its stored id, so each
        returned meeting is persisted; while the store is valid their ids
        are unique. */
    function FindAll(): (r: seq<Meeting>)
      reads this
      ensures Valid() ==> UniqueIds(r) && forall m :: m in r ==> Persisted(m)
    {
      records
    }

    /** The row with the id, if any. The repository's scan answers with the
        last match; while ids are unique that is the first match, as the
        repository interface promises. */
    function Find(id: int): (r: Option<Meeting>)
      reads this
      ensures Valid() ==> r == FindFirst(FindAll(), id)
    {
      FindFirstIsFindLast(records, id);
      FindLast(records, id)
    }

    /** The number of rows: the length of the full scan. */
    function Count(): (n: nat)
      reads this
      ensures n == |FindAll()|
    {
      |records|
    }

    /** INSERT without an id: the row is appended and gets the next identity value. */
    method Add(item: Meeting)
      requires Valid()
      modifies this
      ensures Valid()
      ensures records == old(records) + [item.(id := old(identity))]
      ensures identity == old(identity) + 1
    {
      var row := item.(id := identity);
      forall m | m in records ensures m.id != row.id { }
      records := records + [row];
      identity := identity + 1;
    }

    /** UPDATE of begin, end and note on the rows with the id. */
    method Edit(id: int, item: Meeting)
      requires Valid()
      modifies this
      ensures Valid()
      ensures records == EditAll(old(records), id, item)
      ensures identity == old(identity)
    {
      var before := records;
      records := EditAll(records, id, item);
      forall m | m in records ensures 1 <= m.id < identity {
        var i :| 0 <= i < |records| && records[i] == m;
        assert m.id == before[i].id && before[i] in before;
      }
    }

    /** DELETE of the rows with the id. */
    method Remove(id: int)
      requires Valid()
      modifies this
      ensures Valid()
      ensures records == RemoveAll(old(records), id)
      ensures identity == old(identity)
    {
      RemoveAllUnique(records, id);
      records := RemoveAll(records, id);
    }
  }
}
