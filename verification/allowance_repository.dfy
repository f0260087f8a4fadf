/** Allowance persistence (src/repositories/allowance_repository.py) over
    the `allowances` table (src/models/db/allowance.py): rows with an
    auto-incremented identifier, a name, an NPA number, the comma-joined
    subjects and a creation time. The table is a value; the clock that
    stamps `created_at` is a parameter. */
module AllowanceRepository {

  import opened Wrappers
  import opened Sorting

  /** A stored allowance row. */
  datatype Row = Row(id: int, name: string, npaNumber: string, subjects: Option<string>, createdAt: int)

  /** A row as the service builds it, before the database assigns its
      identifier and creation time. */
  datatype NewRow = NewRow(name: string, npaNumber: string, subjects: Option<string>)

  /** The table and its auto-increment counter. */
  datatype Table = Table(rows: seq<Row>, nextId: int)

  /** Identifiers are unique and below the counter. */
  predicate Valid(t: Table) {
    && (forall i :: 0 <= i < |t.rows| ==> t.rows[i].id < t.nextId)
    && (forall i, j :: 0 <= i < j < |t.rows| ==> t.rows[i].id != t.rows[j].id)
  }

  /** The row `n` becomes when stored with identifier `id` at time `now`. */
  function Stored(n: NewRow, id: int, now: int): (r: Row)
    ensures r.id == id && r.createdAt == now
    ensures r.name == n.name && r.npaNumber == n.npaNumber && r.subjects == n.subjects
  {
    Row(id, n.name, n.npaNumber, n.subjects, now)
  }

  function CreatedAt(r: Row): real {
    r.createdAt as real
  }

  /** `list_all`: every stored row, newest first. The database does not
      order rows created at the same instant; here they keep table order. */
  function ListAll(t: Table): (r: seq<Row>)
    ensures multiset(r) == multiset(t.rows)
    ensures SortedDesc(r, CreatedAt)
  {
    SortDesc(t.rows, CreatedAt)
  }

  /** `create`: adds one row with the next identifier and returns it; the
      rows already stored are kept as they are. */
  function Create(t: Table, n: NewRow, now: int): (r: (Table, Row))
    ensures r.1 == Stored(n, t.nextId, now)
    ensures r.0.rows == t.rows + [r.1]
    ensures r.0.nextId > t.nextId
    ensures Valid(t) ==> Valid(r.0) && forall i :: 0 <= i < |t.rows| ==> t.rows[i].id != r.1.id
  {
    var row := Stored(n, t.nextId, now);
    (Table(t.rows + [row], t.nextId + 1), row)
  }

  /** The rows of `ns` stored with consecutive identifiers from `first`. */
  function StoreAll(ns: seq<NewRow>, first: int, now: int): (r: seq<Row>)
    ensures |r| == |ns|
    ensures forall i :: 0 <= i < |ns| ==> r[i] == Stored(ns[i], first + i, now)
  {
    if |ns| == 0 then [] else [Stored(ns[0], first, now)] + StoreAll(ns[1..], first + 1, now)
  }

  /** `replace_all`: deletes every row and stores `ns` in their order,
      returning the stored rows in that order. */
  function ReplaceAll(t: Table, ns: seq<NewRow>, now: int): (r: (Table, seq<Row>))
    ensures r.0.rows == r.1
    ensures |r.1| == |ns|
    ensures forall i :: 0 <= i < |ns| ==>
      && r.1[i].name == ns[i].name
      && r.1[i].npaNumber == ns[i].npaNumber
      && r.1[i].subjects == ns[i].subjects
    ensures Valid(r.0)
    ensures Valid(t) ==> forall i, j :: 0 <= i < |t.rows| && 0 <= j < |r.1| ==> t.rows[i].id != r.1[j].id
  {
    var stored := StoreAll(ns, t.nextId, now);
    (Table(stored, t.nextId + |ns|), stored)
  }

  /** Replacing is independent of what was stored: only the counter of the
      old table shows through, in the new identifiers. */
  lemma ReplaceAllForgets(s: Table, t: Table, ns: seq<NewRow>, now: int)
    requires s.nextId == t.nextId
    ensures ReplaceAll(s, ns, now) == ReplaceAll(t, ns, now)
  {
  }

  /** A created row is listed, and listing holds one row more than
      before. */
  lemma CreateThenList(t: Table, n: NewRow, now: int)
    ensures var (t2, row) := Create(t, n, now);
      row in ListAll(t2) && |ListAll(t2)| == |ListAll(t)| + 1
  {
    var (t2, row) := Create(t, n, now);
    assert row in multiset(t2.rows);
    assert |multiset(ListAll(t2))| == |multiset(t2.rows)|;
    assert |multiset(ListAll(t))| == |multiset(t.rows)|;
  }
}
