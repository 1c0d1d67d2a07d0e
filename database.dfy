/** The record store of DatabaseManager.py: the SQL text its `create` and
    `update` assemble, the products table as an in-memory value, what each
    operation does to it and returns, and the manager object whose
    connection is opened and closed around every operation. The SQLite
    engine itself is replaced by the effect of the statements the program
    issues. */
module Database {
  import opened Values
  import opened Text

  /** The columns of the products table. */
  const Columns: set<string> :=
    {"id", "product_type", "name", "description", "link", "images", "rating", "rating_count",
     "facilities", "latitude", "longitude", "phone", "address", "stars", "price", "card_href"}

  // ---------------------------------------------------------------------
  // SQL text and parameters
  // ---------------------------------------------------------------------

  /** `n` copies of `s`. */
  function Repeat(s: string, n: nat): (r: seq<string>)
    ensures |r| == n
    ensures forall i :: 0 <= i < n ==> r[i] == s
  {
    if n == 0 then [] else [s] + Repeat(s, n - 1)
  }

  /** `f"{key} = ?"` for every key, in order. */
  function Assignments(keys: seq<string>): (r: seq<string>)
    ensures |r| == |keys|
    ensures forall i :: 0 <= i < |keys| ==> r[i] == keys[i] + " = ?"
  {
    if keys == [] then [] else [keys[0] + " = ?"] + Assignments(keys[1..])
  }

  /** The statement `create` executes for a dict with these keys. */
  function InsertSql(keys: seq<string>): string
  {
    "INSERT INTO products (" + Join(keys, ", ") + ") VALUES (" + Join(Repeat("?", |keys|), ", ") + ")"
  }

  /** The statement `update` executes for a dict with these keys. */
  function UpdateSql(keys: seq<string>): string
  {
    "UPDATE products SET " + Join(Assignments(keys), ", ") + " WHERE id = ?"
  }

  /** The parameters `create` binds: the dict's values, in order. */
  function InsertParams(data: Dict): (ps: seq<PyVal>)
    ensures |ps| == |data|
    ensures forall i :: 0 <= i < |data| ==> ps[i] == data[i].1
  {
    ValuesOf(data)
  }

  /** The parameters `update` binds: the dict's values, then the record id. */
  function UpdateParams(data: Dict, recordId: int): (ps: seq<PyVal>)
    ensures |ps| == |data| + 1
    ensures forall i :: 0 <= i < |data| ==> ps[i] == data[i].1
    ensures ps[|data|] == PInt(recordId)
  {
    ValuesOf(data) + [PInt(recordId)]
  }

  lemma {:induction false} CountAbsent(s: string, c: char)
    requires c !in s
    ensures Count(s, c) == 0
  {
    if s != [] {
      CountAbsent(s[1..], c);
    }
  }

  /** Joining pieces that each hold `k` copies of `c` with a separator that
      holds none gives `k` copies per piece. */
  lemma {:induction false} CountJoin(xs: seq<string>, sep: string, c: char, k: nat)
    requires c !in sep
    requires forall i :: 0 <= i < |xs| ==> Count(xs[i], c) == k
    ensures Count(Join(xs, sep), c) == k * |xs|
  {
    if |xs| > 1 {
      var rest := xs[1..];
      assert forall i :: 0 <= i < |rest| ==> rest[i] == xs[i + 1];
      CountJoin(rest, sep, c, k);
      var j := Join(rest, sep);
      assert Join(xs, sep) == xs[0] + sep + j;
      CountAppend(xs[0] + sep, j, c);
      CountAppend(xs[0], sep, c);
      CountAbsent(sep, c);
      assert Count(xs[0] + sep + j, c) == k + k * |rest|;
      MulSucc(k, |rest|);
    } else if |xs| == 1 {
      assert Join(xs, sep) == xs[0];
    }
  }

  lemma MulSucc(k: nat, n: nat)
    ensures k * (n + 1) == k + k * n
  {
  }

  /** A key that names a column holds no `?`. */
  predicate PlainKeys(keys: seq<string>)
  {
    forall i :: 0 <= i < |keys| ==> '?' !in keys[i]
  }

  /** Text between pieces that hold no `c` adds no `c`. */
  lemma CountFrame(a: string, x: string, b: string, y: string, e: string, c: char)
    requires c !in a && c !in b && c !in e
    ensures Count(a + x + b + y + e, c) == Count(x, c) + Count(y, c)
  {
    CountAbsent(a, c);
    CountAbsent(b, c);
    CountAbsent(e, c);
    CountAppend(a, x, c);
    CountAppend(a + x, b, c);
    CountAppend(a + x + b, y, c);
    CountAppend(a + x + b + y, e, c);
  }

  /** The placeholder list holds one `?` per value. */
  lemma {:induction false} PlaceholderCount(n: nat)
    ensures Count(Join(Repeat("?", n), ", "), '?') == n
  {
    assert Count("?", '?') == 1 by {
      assert "?"[1..] == "";
    }
    CountJoin(Repeat("?", n), ", ", '?', 1);
  }

  /** Column names hold no `?`, so neither does their list. */
  lemma KeysCount(keys: seq<string>)
    requires PlainKeys(keys)
    ensures Count(Join(keys, ", "), '?') == 0
  {
    forall i | 0 <= i < |keys| ensures Count(keys[i], '?') == 0 {
      CountAbsent(keys[i], '?');
    }
    CountJoin(keys, ", ", '?', 0);
  }

  /** `create`'s statement has one placeholder per parameter. */
  lemma InsertPlaceholders(data: Dict)
    requires PlainKeys(Keys(data))
    ensures Count(InsertSql(Keys(data)), '?') == |InsertParams(data)|
  {
    var keys := Keys(data);
    KeysCount(keys);
    PlaceholderCount(|keys|);
    CountFrame("INSERT INTO products (", Join(keys, ", "), ") VALUES (", Join(Repeat("?", |keys|), ", "), ")", '?');
  }

  lemma AssignmentCount(key: string)
    requires '?' !in key
    ensures Count(key + " = ?", '?') == 1
  {
    assert Count(" = ?", '?') == 1 by {
      assert " = ?"[1..][1..][1..][1..] == "";
    }
    CountAbsent(key, '?');
    CountAppend(key, " = ?", '?');
  }

  /** Each assignment holds one `?`, so their list holds one per key. */
  lemma AssignmentsCount(keys: seq<string>)
    requires PlainKeys(keys)
    ensures Count(Join(Assignments(keys), ", "), '?') == |keys|
  {
    var asg := Assignments(keys);
    forall i | 0 <= i < |keys| ensures Count(asg[i], '?') == 1 {
      AssignmentCount(keys[i]);
    }
    CountJoin(asg, ", ", '?', 1);
  }

  /** `update`'s statement has one placeholder per parameter: one per key
      and the last for the record id. */
  lemma UpdatePlaceholders(data: Dict, recordId: int)
    requires PlainKeys(Keys(data))
    ensures Count(UpdateSql(Keys(data)), '?') == |UpdateParams(data, recordId)|
  {
    var keys := Keys(data);
    AssignmentsCount(keys);
    assert Count("?", '?') == 1 by {
      assert "?"[1..] == "";
    }
    assert " WHERE id = ?" == " WHERE id = " + "?";
    CountFrame("UPDATE products SET ", Join(Assignments(keys), ", "), " WHERE id = ", "?", "", '?');
    assert UpdateSql(keys) == "UPDATE products SET " + Join(Assignments(keys), ", ") + " WHERE id = " + "?" + "";
  }

  // ---------------------------------------------------------------------
  // The products table
  // ---------------------------------------------------------------------

  /** A stored row: its id and the values of its other columns. A column the
      map does not hold, or holds as `None`, is NULL. */
  datatype Row = Row(id: int, cols: map<string, PyVal>)

  /** The products table: its rows in id order, and the largest id the
      AUTOINCREMENT key ever handed out. */
  datatype Table = Table(rows: seq<Row>, lastId: nat)

  /** The value of a column of a row, `None` for NULL. */
  function Column(r: Row, c: string): PyVal
  {
    if c in r.cols then r.cols[c] else PNone
  }

  /** Ids increase along the rows, never exceed the counter, and every row
      has a category: the invariant the table keeps. */
  predicate ValidTable(t: Table)
  {
    && (forall i, j :: 0 <= i < j < |t.rows| ==> t.rows[i].id < t.rows[j].id)
    && (forall i :: 0 <= i < |t.rows| ==> 1 <= t.rows[i].id <= t.lastId)
    && (forall i :: 0 <= i < |t.rows| ==> Column(t.rows[i], "product_type") != PNone)
    && (forall i :: 0 <= i < |t.rows| ==> "id" !in t.rows[i].cols)
  }

  /** A value the driver can bind to a placeholder. */
  predicate Bindable(v: PyVal)
  {
    !v.PList?
  }

  /** A dict whose keys are columns other than `id` and whose values can be
      bound; anything else makes the statement fail. */
  predicate WellFormedData(data: Dict)
  {
    && data != []
    && (forall i :: 0 <= i < |data| ==> data[i].0 in Columns && data[i].0 != "id")
    && (forall i :: 0 <= i < |data| ==> Bindable(data[i].1))
  }

  /** The row position holding `id`, or `|rows|`. */
  function RowIndex(rows: seq<Row>, id: int): (k: nat)
    ensures k <= |rows|
    ensures forall j :: 0 <= j < k ==> rows[j].id != id
    ensures k < |rows| ==> rows[k].id == id
  {
    if rows == [] then 0 else if rows[0].id == id then 0 else 1 + RowIndex(rows[1..], id)
  }

  /** What `cursor.execute` of `create`'s statement does: the new id and the
      new table, or `None` and the table unchanged when the statement fails.
      A row without a category violates `NOT NULL`. */
  function InsertResult(t: Table, data: Dict): (Option<nat>, Table)
  {
    var m := AsMap(data);
    if Insertable(data) then
      var id := t.lastId + 1;
      (Some(id), Table(t.rows + [Row(id, m)], id))
    else (None, t)
  }

  /** What `cursor.execute` of `update`'s statement does: whether a row was
      affected, and the new table. */
  function UpdateResult(t: Table, recordId: int, data: Dict): (bool, Table)
  {
    var m := AsMap(data);
    var k := RowIndex(t.rows, recordId);
    if WellFormedData(data) && k < |t.rows| && Get(m, "product_type", PStr("")) != PNone then
      var r := t.rows[k];
      (true, Table(t.rows[k := Row(r.id, r.cols + m)], t.lastId))
    else (false, t)
  }

  /** The rows without the one at position `k`. */
  function Without(rows: seq<Row>, k: nat): (r: seq<Row>)
    requires k < |rows|
    ensures |r| == |rows| - 1
    ensures forall i :: 0 <= i < |r| ==> r[i] == rows[if i < k then i else i + 1]
  {
    rows[..k] + rows[k + 1..]
  }

  /** What `cursor.execute` of `destroy`'s statement does. */
  function DeleteResult(t: Table, recordId: int): (bool, Table)
  {
    var k := RowIndex(t.rows, recordId);
    if k < |t.rows| then (true, Table(Without(t.rows, k), t.lastId)) else (false, t)
  }

  /** The data `create` can insert: well formed, with a category. */
  predicate Insertable(data: Dict)
  {
    WellFormedData(data) && Get(AsMap(data), "product_type", PNone) != PNone
  }

  /** An insert appends the row under the next id when `create` accepts
      the data, and leaves the table as it was otherwise. */
  lemma InsertCases(t: Table, data: Dict)
    ensures Insertable(data) ==>
      InsertResult(t, data).1 == Table(t.rows + [Row(t.lastId + 1, AsMap(data))], t.lastId + 1)
    ensures !Insertable(data) ==> InsertResult(t, data).1 == t
  {
    if Insertable(data) {
      assert InsertResult(t, data).1 == Table(t.rows + [Row(t.lastId + 1, AsMap(data))], t.lastId + 1);
    }
  }

  /** `create` succeeds exactly when the data is well formed and has a
      category. Then the new row holds the data, gets an id larger than every
      id in the table, and the old rows stay as they were; otherwise nothing
      changes. */
  lemma InsertSpec(t: Table, data: Dict)
    requires ValidTable(t) && DistinctKeys(data)
    ensures ValidTable(InsertResult(t, data).1)
    ensures InsertResult(t, data).0.Some? <==> Insertable(data)
    ensures !Insertable(data) ==> InsertResult(t, data).1 == t
    ensures Insertable(data) ==> InsertedRow(t, data, InsertResult(t, data))
  {
    if Insertable(data) {
      InsertSucceeds(t, data);
    }
  }

  /** A successful insert keeps the table valid and adds the row. */
  lemma InsertSucceeds(t: Table, data: Dict)
    requires ValidTable(t) && DistinctKeys(data) && Insertable(data)
    ensures ValidTable(InsertResult(t, data).1)
    ensures InsertedRow(t, data, InsertResult(t, data))
  {
    var m := AsMap(data);
    var id := t.lastId + 1;
    var t' := Table(t.rows + [Row(id, m)], id);
    assert InsertResult(t, data) == (Some(id), t');
    NoIdKey(data);
    AppendValid(t, m);
    AsMapValues(data);
    assert t'.rows[|t.rows|] == Row(id, m);
  }

  /** The outcome of a successful insert: the next autoincrement id, above
      every old one, the old rows kept, and a new last row that holds exactly
      the data. */
  predicate InsertedRow(t: Table, data: Dict, res: (Option<nat>, Table))
  {
    var (r, t') := res;
    && r.Some?
    && r.value == t.lastId + 1 && t'.lastId == r.value
    && (forall i :: 0 <= i < |t.rows| ==> t.rows[i].id < r.value)
    && t'.rows == t.rows + [Row(r.value, AsMap(data))]
    && (forall i :: 0 <= i < |data| ==> Column(t'.rows[|t.rows|], data[i].0) == data[i].1)
  }

  /** Well-formed data never sets the id. */
  lemma NoIdKey(data: Dict)
    requires WellFormedData(data)
    ensures "id" !in AsMap(data)
  {
  }

  /** Appending a row with a category and a fresh id keeps the table valid. */
  lemma AppendValid(t: Table, m: map<string, PyVal>)
    requires ValidTable(t)
    requires Get(m, "product_type", PNone) != PNone && "id" !in m
    ensures ValidTable(Table(t.rows + [Row(t.lastId + 1, m)], t.lastId + 1))
  {
  }

  /** A dict with distinct keys maps each key to its own value. */
  lemma {:induction false} AsMapValues(data: Dict)
    requires DistinctKeys(data)
    ensures forall i :: 0 <= i < |data| ==> data[i].0 in AsMap(data) && AsMap(data)[data[i].0] == data[i].1
  {
    if data != [] {
      var init := data[..|data| - 1];
      assert DistinctKeys(init) by {
        forall i, j | 0 <= i < j < |init| ensures init[i].0 != init[j].0 {
          assert init[i] == data[i] && init[j] == data[j];
        }
      }
      AsMapValues(init);
      forall i | 0 <= i < |data| ensures data[i].0 in AsMap(data) && AsMap(data)[data[i].0] == data[i].1 {
        if i < |data| - 1 {
          assert init[i] == data[i];
        }
      }
    }
  }

  /** Updating a row keeps the table valid. */
  lemma UpdateValid(t: Table, recordId: int, data: Dict)
    requires ValidTable(t)
    ensures ValidTable(UpdateResult(t, recordId, data).1)
  {
    var (ok, t') := UpdateResult(t, recordId, data);
    if ok {
      var m := AsMap(data);
      var k := RowIndex(t.rows, recordId);
      assert "id" !in m;
      if "product_type" in m {
        assert m["product_type"] != PNone;
      }
      forall i | 0 <= i < |t'.rows|
        ensures Column(t'.rows[i], "product_type") != PNone && "id" !in t'.rows[i].cols
      {
        if i != k {
          assert t'.rows[i] == t.rows[i];
        }
      }
    }
  }

  /** `update` succeeds exactly when the data is well formed, does not
      clear the category, and a row has that id; otherwise nothing
      changes. */
  lemma UpdateOutcome(t: Table, recordId: int, data: Dict)
    ensures var (ok, t') := UpdateResult(t, recordId, data);
      && (ok <==> && WellFormedData(data) && Get(AsMap(data), "product_type", PStr("")) != PNone
                  && exists i :: 0 <= i < |t.rows| && t.rows[i].id == recordId)
      && (!ok ==> t' == t)
  {
    var k := RowIndex(t.rows, recordId);
    if k < |t.rows| {
      assert t.rows[k].id == recordId;
    }
  }

  /** `update` keeps the ids, the length and the other rows. */
  lemma UpdateFrame(t: Table, recordId: int, data: Dict)
    ensures var t' := UpdateResult(t, recordId, data).1;
      && t'.lastId == t.lastId && |t'.rows| == |t.rows|
      && (forall i :: 0 <= i < |t.rows| ==> t'.rows[i].id == t.rows[i].id)
      && (forall i :: 0 <= i < |t.rows| && t.rows[i].id != recordId ==> t'.rows[i] == t.rows[i])
  {
  }

  /** On success the row with that id holds the new values of the listed
      columns and its old values elsewhere. */
  lemma UpdateColumns(t: Table, recordId: int, data: Dict)
    requires ValidTable(t)
    ensures var (ok, t') := UpdateResult(t, recordId, data);
      ok ==> forall i, c :: 0 <= i < |t.rows| && t.rows[i].id == recordId ==>
        Column(t'.rows[i], c) == if c in AsMap(data) then AsMap(data)[c] else Column(t.rows[i], c)
  {
    var (ok, t') := UpdateResult(t, recordId, data);
    if ok {
      var k := RowIndex(t.rows, recordId);
      forall i | 0 <= i < |t.rows| && t.rows[i].id == recordId ensures i == k {
      }
    }
  }

  /** What `update` does: the four facts above together. */
  lemma UpdateSpec(t: Table, recordId: int, data: Dict)
    requires ValidTable(t)
    ensures var (ok, t') := UpdateResult(t, recordId, data);
      && ValidTable(t')
      && (ok <==> && WellFormedData(data) && Get(AsMap(data), "product_type", PStr("")) != PNone
                  && exists i :: 0 <= i < |t.rows| && t.rows[i].id == recordId)
      && (!ok ==> t' == t)
      && t'.lastId == t.lastId && |t'.rows| == |t.rows|
      && (forall i :: 0 <= i < |t.rows| ==> t'.rows[i].id == t.rows[i].id)
      && (forall i :: 0 <= i < |t.rows| && t.rows[i].id != recordId ==> t'.rows[i] == t.rows[i])
      && (ok ==> forall i, c :: 0 <= i < |t.rows| && t.rows[i].id == recordId ==>
            Column(t'.rows[i], c) == if c in AsMap(data) then AsMap(data)[c] else Column(t.rows[i], c))
  {
    UpdateValid(t, recordId, data);
    UpdateOutcome(t, recordId, data);
    UpdateFrame(t, recordId, data);
    UpdateColumns(t, recordId, data);
  }

  /** Removing a row keeps the table valid. */
  lemma RemoveValid(t: Table, k: nat)
    requires ValidTable(t) && k < |t.rows|
    ensures ValidTable(Table(Without(t.rows, k), t.lastId))
  {
    var r := Without(t.rows, k);
    forall i, j | 0 <= i < j < |r| ensures r[i].id < r[j].id {
      assert r[i] == t.rows[if i < k then i else i + 1];
      assert r[j] == t.rows[if j < k then j else j + 1];
    }
    forall i | 0 <= i < |r|
      ensures 1 <= r[i].id <= t.lastId && Column(r[i], "product_type") != PNone && "id" !in r[i].cols
    {
      assert r[i] == t.rows[if i < k then i else i + 1];
    }
  }

  /** The rows left after removing the one at `k` are the other rows. */
  lemma RemoveMembers(rows: seq<Row>, k: nat)
    requires k < |rows|
    ensures forall r :: r in rows && r != rows[k] ==> r in Without(rows, k)
    ensures forall r :: r in Without(rows, k) ==> r in rows
  {
    var rows' := Without(rows, k);
    forall r | r in rows && r != rows[k] ensures r in rows' {
      var i :| 0 <= i < |rows| && rows[i] == r;
      assert rows'[if i < k then i else i - 1] == r;
    }
    forall r | r in rows' ensures r in rows {
      var i :| 0 <= i < |rows'| && rows'[i] == r;
      assert rows[if i < k then i else i + 1] == r;
    }
  }

  /** `destroy` reports success exactly when a row has that id; it then
      removes just that row, and otherwise nothing changes. */
  lemma DeleteSpec(t: Table, recordId: int)
    requires ValidTable(t)
    ensures var (ok, t') := DeleteResult(t, recordId);
      && ValidTable(t')
      && (ok <==> exists i :: 0 <= i < |t.rows| && t.rows[i].id == recordId)
      && (!ok ==> t' == t)
      && (forall i :: 0 <= i < |t'.rows| ==> t'.rows[i].id != recordId)
      && (forall r :: r in t.rows && r.id != recordId ==> r in t'.rows)
      && (forall r :: r in t'.rows ==> r in t.rows)
  {
    var k := RowIndex(t.rows, recordId);
    if k < |t.rows| {
      var rows' := Without(t.rows, k);
      RemoveValid(t, k);
      RemoveMembers(t.rows, k);
      forall i | 0 <= i < |rows'| ensures rows'[i].id != recordId {
        assert rows'[i] == t.rows[if i < k then i else i + 1];
      }
    }
  }

  // ---------------------------------------------------------------------
  // The queries the program issues through `get`
  // ---------------------------------------------------------------------

  /** The numeric value of a value SQLite compares as a number. */
  function Numeric(v: PyVal): Option<real>
  {
    match v
    case PBool(b) => Some(if b then 1.0 else 0.0)
    case PInt(i) => Some(i as real)
    case PReal(r) => Some(r)
    case _ => None
  }

  /** SQL `a = b`: NULL equals nothing, numbers compare by value, texts by
      their characters. */
  predicate SqlEq(a: PyVal, b: PyVal)
  {
    && !a.PNone? && !b.PNone?
    && (if Numeric(a).Some? && Numeric(b).Some? then Numeric(a) == Numeric(b)
        else a.PStr? && b.PStr? && a.s == b.s)
  }

  /** NULL never compares equal, not even to NULL. */
  lemma NullNeverEqual(v: PyVal)
    ensures !SqlEq(PNone, v) && !SqlEq(v, PNone)
  {
  }

  /** The rows that satisfy `pred`, in table order. */
  function Filter(rows: seq<Row>, pred: Row -> bool): (r: seq<Row>)
    ensures forall x :: x in r <==> x in rows && pred(x)
    ensures |r| <= |rows|
  {
    if rows == [] then []
    else
      var rest := Filter(rows[1..], pred);
      assert forall x :: x in rows <==> x == rows[0] || x in rows[1..];
      if pred(rows[0]) then [rows[0]] + rest else rest
  }

  /** Filtering keeps the table order: filtering two runs of rows is
      filtering each and putting the results one after the other. */
  lemma {:induction false} FilterAppend(a: seq<Row>, b: seq<Row>, pred: Row -> bool)
    ensures Filter(a + b, pred) == Filter(a, pred) + Filter(b, pred)
  {
    if a == [] {
      assert a + b == b;
    } else {
      assert (a + b)[1..] == a[1..] + b;
      FilterAppend(a[1..], b, pred);
    }
  }

  /** The key `process_search_term` looks a card up by. */
  datatype ExactKey = ExactKey(name: PyVal, latitude: PyVal, longitude: PyVal, productType: PyVal)

  /** `name=? AND latitude=? AND longitude=? AND product_type=?`. */
  predicate MatchesExact(r: Row, k: ExactKey)
  {
    && SqlEq(Column(r, "name"), k.name)
    && SqlEq(Column(r, "latitude"), k.latitude)
    && SqlEq(Column(r, "longitude"), k.longitude)
    && SqlEq(Column(r, "product_type"), k.productType)
  }

  /** The rows `get` returns for the exact-key query: none when a parameter
      cannot be bound. */
  function ExactQuery(t: Table, k: ExactKey): (r: seq<Row>)
    ensures (forall x :: x in r <==> x in t.rows && MatchesExact(x, k))
      || (r == [] && !(Bindable(k.name) && Bindable(k.latitude) && Bindable(k.longitude) && Bindable(k.productType)))
  {
    if Bindable(k.name) && Bindable(k.latitude) && Bindable(k.longitude) && Bindable(k.productType)
    then Filter(t.rows, x => MatchesExact(x, k))
    else []
  }

  /** The placeholder text `main` treats as a missing description. */
  const PlaceholderDescription: string := "Based on sightseeing, recreation, and getting around"

  /** `description IS NULL OR description='' OR description=?`. */
  predicate Undescribed(r: Row)
  {
    var d := Column(r, "description");
    d.PNone? || SqlEq(d, PStr("")) || SqlEq(d, PStr(PlaceholderDescription))
  }

  /** The first element of a non-empty sequence is one of its elements. */
  lemma HeadIsMember<T>(q: seq<T>)
    requires q != []
    ensures q[0] in q
  {
  }

  /** The rows `get` returns for the query for rows without a description. */
  function UndescribedQuery(t: Table): (r: seq<Row>)
    ensures forall x :: x in r <==> x in t.rows && Undescribed(x)
  {
    Filter(t.rows, Undescribed)
  }

  // ---------------------------------------------------------------------
  // The manager object
  // ---------------------------------------------------------------------

  /** `DatabaseManager`: whether it holds an open connection, and the table
      behind it. */
  class DatabaseManager {
    var connected: bool
    var table: Table

    /** `DatabaseManager()`: `CREATE TABLE IF NOT EXISTS` keeps the table the
        file already holds; no connection is left open. */
    constructor (existing: Table)
      requires ValidTable(existing)
      ensures Valid() && table == existing
    {
      connected := false;
      table := existing;
    }

    /** Between operations the table is valid and no connection is open. */
    predicate Valid()
      reads this
    {
      ValidTable(table) && !connected
    }

    method Connect()
      modifies this
      ensures connected && table == old(table)
    {
      connected := true;
    }

    /** Closing is a no-op without a connection, so closing twice is closing
        once. */
    method Disconnect()
      modifies this
      ensures !connected && table == old(table)
    {
      if connected {
        connected := false;
      }
    }

    /** `get` with the exact-key query. */
    method GetExact(k: ExactKey) returns (rows: seq<Row>)
      requires Valid()
      modifies this
      ensures Valid() && !connected && table == old(table)
      ensures rows == ExactQuery(table, k)
    {
      Connect();
      rows := ExactQuery(table, k);
      Disconnect();
    }

    /** `get` with the query for rows without a description. */
    method GetUndescribed() returns (rows: seq<Row>)
      requires Valid()
      modifies this
      ensures Valid() && !connected && table == old(table)
      ensures rows == UndescribedQuery(table)
    {
      Connect();
      rows := UndescribedQuery(table);
      Disconnect();
    }

    /** `create(data)`: the new id, or `None` when the insert fails. */
    method Create(data: Dict) returns (id: Option<nat>)
      requires Valid() && DistinctKeys(data)
      modifies this
      ensures Valid() && !connected
      ensures (id, table) == InsertResult(old(table), data)
    {
      Connect();
      InsertSpec(table, data);
      var (r, t') := InsertResult(table, data);
      table := t';
      Disconnect();
      id := r;
    }

    /** `update(record_id, data)`: whether a row was changed. */
    method Update(recordId: int, data: Dict) returns (ok: bool)
      requires Valid() && DistinctKeys(data)
      modifies this
      ensures Valid() && !connected
      ensures (ok, table) == UpdateResult(old(table), recordId, data)
    {
      Connect();
      UpdateSpec(table, recordId, data);
      var (r, t') := UpdateResult(table, recordId, data);
      table := t';
      Disconnect();
      ok := r;
    }

    /** `destroy(record_id)`: whether a row was removed. */
    method Destroy(recordId: int) returns (ok: bool)
      requires Valid()
      modifies this
      ensures Valid() && !connected
      ensures (ok, table) == DeleteResult(old(table), recordId)
    {
      Connect();
      DeleteSpec(table, recordId);
      var (r, t') := DeleteResult(table, recordId);
      table := t';
      Disconnect();
      ok := r;
    }
  }
}
