/** `StudentRepository` as realised by `SqliteStudentRepository`: one table of
    students keyed by id, here an in-memory map. The table's primary key and
    CHECK constraints decide when a write fails; every query reads a snapshot
    of the rows as `StudentRecord` values. */
module Repository {
  import opened Wrappers
  import opened Strings
  import opened Domain
  import opened Ordering

  /** The table's CHECK constraints on a row. */
  predicate SchemaAccepts(r: StudentRecord)
  {
    r.level in {100, 200, 300, 400, 500, 600, 700} && 0.0 <= r.gpa <= 4.0
  }

  /** `LIKE '%q%'`: `q` occurs in `h`, ignoring ASCII case. */
  predicate LikeContains(h: string, q: string)
  {
    Contains(Lower(h), Lower(q))
  }

  /** The `WHERE` clause of `search`. */
  predicate SearchMatches(q: string, r: StudentRecord)
  {
    LikeContains(r.studentId, q) || LikeContains(r.fullName, q)
  }

  /** The `WHERE` clause `filter` builds: one conjunct per non-blank (or
      present) criterion. */
  predicate FilterMatches(programme: string, level: Option<int>, status: string, r: StudentRecord)
  {
    && (IsBlank(programme) || r.programme == programme)
    && (level.None? || r.level == level.value)
    && (IsBlank(status) || StatusName(r.status) == status)
  }

  /** No string occurs twice and each precedes the later ones. */
  predicate StrictlyAscending(s: seq<string>)
  {
    forall i, j :: 0 <= i < j < |s| ==> LexLe(s[i], s[j]) && s[i] != s[j]
  }

  /** `x` added to an ascending list of distinct strings, unless already there. */
  function InsertDistinct(x: string, s: seq<string>): (r: seq<string>)
    ensures forall k :: k in r <==> k in s || k == x
  {
    if |s| == 0 then [x]
    else if x == s[0] then s
    else if LexLe(x, s[0]) then [x] + s
    else
      assert s == [s[0]] + s[1..];
      [s[0]] + InsertDistinct(x, s[1..])
  }

  lemma {:induction false} InsertDistinctAscending(x: string, s: seq<string>)
    requires StrictlyAscending(s)
    ensures StrictlyAscending(InsertDistinct(x, s))
  {
    if |s| > 0 && x != s[0] {
      if LexLe(x, s[0]) {
        forall j | 0 < j < |s| ensures LexLe(x, s[j]) && x != s[j] {
          LexLeTransitive(x, s[0], s[j]);
          if x == s[j] { LexLeAntisymmetric(s[0], s[j]); }
        }
      } else {
        LexLeTotal(x, s[0]);
        var t := InsertDistinct(x, s[1..]);
        InsertDistinctAscending(x, s[1..]);
        forall j | 0 <= j < |t| ensures LexLe(s[0], t[j]) && s[0] != t[j] {
          assert t[j] in t;
          if t[j] != x {
            var k :| 0 <= k < |s[1..]| && s[1..][k] == t[j];
            assert s[k + 1] == t[j];
          }
        }
        var r := [s[0]] + t;
        forall i, j | 0 <= i < j < |r| ensures LexLe(r[i], r[j]) && r[i] != r[j] {
          if i > 0 { assert r[i] == t[i - 1] && r[j] == t[j - 1]; }
          else { assert r[j] == t[j - 1]; }
        }
      }
    }
  }

  class StudentRepository {
    /** The rows of the `students` table, by primary key. */
    var table: map<string, StudentRecord>

    /** Each row is stored under its own id. */
    ghost predicate Valid()
      reads this
    {
      forall id :: id in table ==> table[id].studentId == id
    }

    constructor ()
      ensures Valid() && table == map[]
    {
      table := map[];
    }

    /** `findById`: the row with that primary key, if any. */
    function FindById(id: string): (r: Option<StudentRecord>)
      requires Valid()
      reads this
      ensures r.Some? <==> id in table
      ensures r.Some? ==> r.value.studentId == id && r.value in table.Values
    {
      if id in table then Some(table[id]) else None
    }

    /** `existsById`: a row with that id exists exactly when `findById` finds one. */
    function ExistsById(id: string): (b: bool)
      requires Valid()
      reads this
      ensures b <==> FindById(id).Some?
    {
      id in table
    }

    /** `add`: the insert fails on a duplicate primary key or a row the CHECK
        constraints reject, and then changes nothing. */
    method Add(s: Student) returns (ok: bool)
      requires Valid()
      modifies this
      ensures Valid()
      ensures ok <==> !old(ExistsById(s.studentId)) && SchemaAccepts(s.Value())
      ensures ok ==> table == old(table)[s.studentId := s.Value()] && FindById(s.studentId) == Some(s.Value())
      ensures !ok ==> table == old(table)
    {
      var row := s.Value();
      if row.studentId in table || !SchemaAccepts(row) {
        return false;
      }
      table := table[row.studentId := row];
      return true;
    }

    /** `update`: overwrites every column but the id and the date added, and
        fails without change on an absent id or a rejected row. */
    method Update(s: Student) returns (ok: bool)
      requires Valid()
      modifies this
      ensures Valid()
      ensures ok <==> old(ExistsById(s.studentId)) && SchemaAccepts(s.Value())
      ensures ok ==> table == old(table)[s.studentId := s.Value().(dateAdded := old(table)[s.studentId].dateAdded)]
      ensures !ok ==> table == old(table)
    {
      var row := s.Value();
      if row.studentId !in table || !SchemaAccepts(row) {
        return false;
      }
      table := table[row.studentId := row.(dateAdded := table[row.studentId].dateAdded)];
      return true;
    }

    /** `delete`: removes the row with that id; no row, no change. */
    method Delete(id: string) returns (ok: bool)
      requires Valid()
      modifies this
      ensures Valid()
      ensures ok <==> old(ExistsById(id))
      ensures table == old(table) - {id}
    {
      ok := id in table;
      table := table - {id};
    }

    /** The rows a `SELECT .. WHERE where` returns, in the engine's order:
        each matching row exactly once. */
    method Select(where: StudentRecord -> bool) returns (rows: seq<StudentRecord>)
      requires Valid()
      ensures forall r :: multiset(rows)[r] == if r in table.Values && where(r) then 1 else 0
    {
      rows := [];
      var pending := table.Keys;
      while pending != {}
        invariant pending <= table.Keys
        invariant forall r ::
          multiset(rows)[r] == if r in table.Values && where(r) && r.studentId !in pending then 1 else 0
        decreases |pending|
      {
        var id :| id in pending;
        var r := table[id];
        if where(r) {
          rows := rows + [r];
        }
        pending := pending - {id};
      }
    }

    /** `findAll`: every row exactly once, ordered by full name. */
    method FindAll() returns (list: seq<StudentRecord>)
      requires Valid()
      ensures forall r :: multiset(list)[r] == if r in table.Values then 1 else 0
      ensures Sorted(NameBinary, list)
    {
      var rows := Select(r => true);
      list := Sort(NameBinary, rows);
      SortSorted(NameBinary, rows);
    }

    /** `search(q)`: the rows whose id or full name contains `q`, each once. */
    method Search(q: string) returns (list: seq<StudentRecord>)
      requires Valid()
      ensures forall r :: multiset(list)[r] == if r in table.Values && SearchMatches(q, r) then 1 else 0
    {
      list := Select(r => SearchMatches(q, r));
    }

    /** `filter(programme, level, status)`: the rows meeting every given
        criterion, each once, ordered by full name. */
    method Filter(programme: string, level: Option<int>, status: string) returns (list: seq<StudentRecord>)
      requires Valid()
      ensures forall r ::
        multiset(list)[r] == if r in table.Values && FilterMatches(programme, level, status, r) then 1 else 0
      ensures Sorted(NameBinary, list)
    {
      var rows := Select(r => FilterMatches(programme, level, status, r));
      list := Sort(NameBinary, rows);
      SortSorted(NameBinary, rows);
    }

    /** `getAllProgrammes`: each programme in the table once, ascending. */
    method GetAllProgrammes() returns (list: seq<string>)
      requires Valid()
      ensures forall p :: p in list <==> exists id :: id in table && table[id].programme == p
      ensures StrictlyAscending(list)
    {
      list := [];
      var pending := table.Keys;
      while pending != {}
        invariant pending <= table.Keys
        invariant forall p :: p in list <==> exists id :: id in table && id !in pending && table[id].programme == p
        invariant StrictlyAscending(list)
        decreases |pending|
      {
        var id :| id in pending;
        assert table[id].programme in list || id !in pending - {id};
        InsertDistinctAscending(table[id].programme, list);
        list := InsertDistinct(table[id].programme, list);
        pending := pending - {id};
      }
    }
  }
}
