/**
 * The per-type sheets of the workbook (app.py:246-248): the report rows are
 * grouped by their type, the groups are taken in ascending order of the type,
 * each sheet is named after its type and lists its rows sorted by client.
 */
module Partition {
  import opened Text
  import opened Ordering
  import opened ClientTypes
  import opened Reconcile

  /** One per-type sheet: its name, the type it holds and its rows. */
  datatype Sheet = Sheet(name: string, kind: string, rows: seq<Row>)

  /** The rows of one type, in table order (one `groupby` group). */
  function RowsOfKind(db: seq<Row>, kind: string): seq<Row> {
    if db == [] then []
    else (if db[0].kind == kind then [db[0]] else []) + RowsOfKind(db[1..], kind)
  }

  /** A row occurs in its type's group as often as in the table, and in no other group. */
  lemma {:induction false} RowsOfKindCount(db: seq<Row>, kind: string, x: Row)
    ensures multiset(RowsOfKind(db, kind))[x] == if x.kind == kind then multiset(db)[x] else 0
  {
    if db != [] {
      RowsOfKindCount(db[1..], kind, x);
      assert db == [db[0]] + db[1..];
    }
  }

  predicate SortedByClient(rows: seq<Row>) {
    forall i, j :: 0 <= i < j < |rows| ==> LessEq(rows[i].client, rows[j].client)
  }

  /** A row whose client is not after the first client can go in front. */
  lemma {:induction false} PrependSorted(x: Row, rows: seq<Row>)
    requires SortedByClient(rows) && rows != [] && LessEq(x.client, rows[0].client)
    ensures SortedByClient([x] + rows)
  {
    forall j | 0 <= j < |rows| ensures LessEq(x.client, rows[j].client) {
      LessEqTransitive(x.client, rows[0].client, rows[j].client);
    }
    var r := [x] + rows;
    assert forall i :: 0 < i < |r| ==> r[i] == rows[i - 1];
  }

  /** A row whose client is not after any client of a sorted list can go in front. */
  lemma {:induction false} ConsSorted(h: Row, rest: seq<Row>)
    requires SortedByClient(rest)
    requires forall k :: 0 <= k < |rest| ==> LessEq(h.client, rest[k].client)
    ensures SortedByClient([h] + rest)
  {
    var r := [h] + rest;
    assert forall i :: 0 < i < |r| ==> r[i] == rest[i - 1];
  }

  /** Puts `x` in front of the first row whose client is not before it. */
  function InsertByClient(rows: seq<Row>, x: Row): seq<Row> {
    if rows == [] then [x]
    else if LessEq(x.client, rows[0].client) then [x] + rows
    else [rows[0]] + InsertByClient(rows[1..], x)
  }

  /** Inserting adds exactly the one row. */
  lemma {:induction false} InsertByClientCount(rows: seq<Row>, x: Row)
    ensures multiset(InsertByClient(rows, x)) == multiset(rows) + multiset{x}
  {
    if rows != [] && !LessEq(x.client, rows[0].client) {
      InsertByClientCount(rows[1..], x);
      assert rows == [rows[0]] + rows[1..];
    }
  }

  /** Inserting into a list sorted by client keeps it sorted. */
  lemma {:induction false} InsertByClientSorted(rows: seq<Row>, x: Row)
    requires SortedByClient(rows)
    ensures SortedByClient(InsertByClient(rows, x))
  {
    if rows == [] {
    } else if LessEq(x.client, rows[0].client) {
      PrependSorted(x, rows);
    } else {
      var h := rows[0];
      var rest := InsertByClient(rows[1..], x);
      InsertByClientSorted(rows[1..], x);
      InsertByClientCount(rows[1..], x);
      assert forall k :: 0 <= k < |rest| ==> LessEq(h.client, rest[k].client) by {
        LessTotal(x.client, h.client);
        forall k | 0 <= k < |rest| ensures LessEq(h.client, rest[k].client) {
          assert rest[k] in multiset(rest);
        }
      }
      ConsSorted(h, rest);
    }
  }

  /**
   * `sort_values("Cliente")`: the rows ordered by client. Rows with the same
   * client may come out in any order in the source; this model keeps them in
   * table order, and `SortByClientSpec` promises only sortedness and permutation.
   */
  function SortByClient(rows: seq<Row>): seq<Row> {
    if rows == [] then []
    else InsertByClient(SortByClient(rows[..|rows| - 1]), rows[|rows| - 1])
  }

  /** The sorted rows are in order of client and are the same rows, each as often. */
  lemma {:induction false} SortByClientSpec(rows: seq<Row>)
    ensures SortedByClient(SortByClient(rows))
    ensures multiset(SortByClient(rows)) == multiset(rows)
  {
    if rows != [] {
      var init := rows[..|rows| - 1];
      SortByClientSpec(init);
      InsertByClientSorted(SortByClient(init), rows[|rows| - 1]);
      InsertByClientCount(SortByClient(init), rows[|rows| - 1]);
      assert rows == init + [rows[|rows| - 1]];
    }
  }

  /** The types of the rows, in table order. */
  function Kinds(db: seq<Row>): seq<string> {
    seq(|db|, i requires 0 <= i < |db| => db[i].kind)
  }

  /** The sheet of one type. */
  function SheetOf(db: seq<Row>, kind: string): Sheet {
    Sheet(SheetName(kind), kind, SortByClient(RowsOfKind(db, kind)))
  }

  function SheetsFor(db: seq<Row>, kinds: seq<string>): seq<Sheet> {
    seq(|kinds|, i requires 0 <= i < |kinds| => SheetOf(db, kinds[i]))
  }

  /** The per-type sheets of a report table, in ascending order of type. */
  function SheetsByType(db: seq<Row>): seq<Sheet> {
    SheetsFor(db, SortedDistinct(Kinds(db)))
  }

  /** All rows of a list of sheets, one sheet after another. */
  function Flatten(sheets: seq<Sheet>): seq<Row> {
    if sheets == [] then [] else sheets[0].rows + Flatten(sheets[1..])
  }

  /** The types of a list of sheets, in order. */
  function SheetKinds(sheets: seq<Sheet>): seq<string> {
    seq(|sheets|, i requires 0 <= i < |sheets| => sheets[i].kind)
  }

  /** A type occurs in the table exactly when some row has it. */
  lemma {:induction false} KindsMembership(db: seq<Row>, x: Row)
    requires x in db
    ensures x.kind in Kinds(db)
  {
    var j :| 0 <= j < |db| && db[j] == x;
    assert Kinds(db)[j] == x.kind;
  }

  /** A type's sheet holds each row of that type as often as the table does, and no other row. */
  lemma {:induction false} SheetCount(db: seq<Row>, kind: string, x: Row)
    ensures multiset(SheetOf(db, kind).rows)[x] == if x.kind == kind then multiset(db)[x] else 0
  {
    RowsOfKindCount(db, kind, x);
    SortByClientSpec(RowsOfKind(db, kind));
  }

  lemma {:induction false} SheetsForTail(db: seq<Row>, kinds: seq<string>)
    requires kinds != []
    ensures SheetsFor(db, kinds)[0] == SheetOf(db, kinds[0])
    ensures SheetsFor(db, kinds)[1..] == SheetsFor(db, kinds[1..])
  {
    var a, b := SheetsFor(db, kinds)[1..], SheetsFor(db, kinds[1..]);
    assert |a| == |b|;
    forall i | 0 <= i < |a| ensures a[i] == b[i] {
      assert kinds[1..][i] == kinds[i + 1];
    }
  }

  lemma {:induction false} DistinctTail(kinds: seq<string>)
    requires kinds != []
    requires forall i, j :: 0 <= i < j < |kinds| ==> kinds[i] != kinds[j]
    ensures kinds[0] !in kinds[1..]
    ensures forall k :: k in kinds <==> k == kinds[0] || k in kinds[1..]
  {
    assert kinds == [kinds[0]] + kinds[1..];
  }

  /** Over distinct types, the sheets together hold each row of those types as often as the table does. */
  lemma {:induction false} FlattenCount(db: seq<Row>, kinds: seq<string>, x: Row)
    requires forall i, j :: 0 <= i < j < |kinds| ==> kinds[i] != kinds[j]
    ensures multiset(Flatten(SheetsFor(db, kinds)))[x] == if x.kind in kinds then multiset(db)[x] else 0
  {
    if kinds != [] {
      var sheets := SheetsFor(db, kinds);
      FlattenCount(db, kinds[1..], x);
      SheetsForTail(db, kinds);
      SheetCount(db, kinds[0], x);
      DistinctTail(kinds);
      assert multiset(Flatten(sheets)) == multiset(sheets[0].rows) + multiset(Flatten(sheets[1..]));
    }
  }

  /** Strictly ascending types are distinct. */
  lemma {:induction false} SortedKindsDistinct(kinds: seq<string>)
    requires StrictlySorted(kinds)
    ensures forall i, j :: 0 <= i < j < |kinds| ==> kinds[i] != kinds[j]
  {
    forall i, j | 0 <= i < j < |kinds| ensures kinds[i] != kinds[j] {
      LessIrreflexive(kinds[i]);
    }
  }

  /** The sheets come in strictly ascending order of type, and there is one for each type in the table and no other. */
  lemma {:induction false} PartitionKinds(db: seq<Row>)
    ensures var sheets := SheetsByType(db);
      && (forall i, j :: 0 <= i < j < |sheets| ==> Less(sheets[i].kind, sheets[j].kind))
      && (forall k :: k in SheetKinds(sheets) <==> k in Kinds(db))
  {
    var sheets := SheetsByType(db);
    var kinds := SortedDistinct(Kinds(db));
    assert SheetKinds(sheets) == kinds;
  }

  /**
   * Each sheet is named after its type as app.py:247 does, is not empty, and
   * holds exactly the rows of that type, sorted by client.
   */
  lemma {:induction false} PartitionSheets(db: seq<Row>)
    ensures var sheets := SheetsByType(db);
      forall i :: 0 <= i < |sheets| ==>
        && sheets[i].name == SheetName(sheets[i].kind)
        && sheets[i].rows != []
        && SortedByClient(sheets[i].rows)
        && multiset(sheets[i].rows) == multiset(RowsOfKind(db, sheets[i].kind))
  {
    var kinds := SortedDistinct(Kinds(db));
    var sheets := SheetsByType(db);
    forall i | 0 <= i < |sheets|
      ensures sheets[i].rows != []
      ensures SortedByClient(sheets[i].rows)
      ensures multiset(sheets[i].rows) == multiset(RowsOfKind(db, sheets[i].kind))
    {
      var k := kinds[i];
      SortByClientSpec(RowsOfKind(db, k));
      assert k in Kinds(db);
      var j :| 0 <= j < |db| && Kinds(db)[j] == k;
      SheetCount(db, k, db[j]);
      assert db[j] in multiset(sheets[i].rows);
    }
  }

  /**
   * Every row of the table is in exactly the sheet of its own type: a row is
   * in a sheet if and only if it is a row of the table with that sheet's type.
   */
  lemma {:induction false} PartitionMembership(db: seq<Row>, x: Row)
    ensures var sheets := SheetsByType(db);
      && (forall i :: 0 <= i < |sheets| ==> (x in sheets[i].rows <==> x in db && x.kind == sheets[i].kind))
      && (x in db ==> exists i :: 0 <= i < |sheets| && x in sheets[i].rows)
  {
    var kinds := SortedDistinct(Kinds(db));
    var sheets := SheetsByType(db);
    forall i | 0 <= i < |sheets| ensures x in sheets[i].rows <==> x in db && x.kind == sheets[i].kind {
      SheetCount(db, kinds[i], x);
      assert x in sheets[i].rows <==> x in multiset(sheets[i].rows);
    }
    if x in db {
      KindsMembership(db, x);
      var i :| 0 <= i < |kinds| && kinds[i] == x.kind;
      assert x in sheets[i].rows;
    }
  }

  /** The sheets together hold the table's rows, each exactly as often as the table: nothing lost, nothing repeated. */
  lemma {:induction false} PartitionPreservesRows(db: seq<Row>)
    ensures multiset(Flatten(SheetsByType(db))) == multiset(db)
  {
    var kinds := SortedDistinct(Kinds(db));
    SortedKindsDistinct(kinds);
    forall x ensures multiset(Flatten(SheetsByType(db)))[x] == multiset(db)[x] {
      FlattenCount(db, kinds, x);
      if x in db {
        KindsMembership(db, x);
      }
    }
  }

  /**
   * When every type in the table is already trimmed and capitalised, two
   * sheets share a name only if one holds the blank type and the other the
   * type "Senzatipo".
   */
  lemma {:induction false} SheetNamesClash(db: seq<Row>)
    requires forall x :: x in db ==> Tidy(x.kind) == x.kind
    ensures var sheets := SheetsByType(db);
      forall i, j :: 0 <= i < j < |sheets| && sheets[i].name == sheets[j].name ==>
        sheets[i].kind == "" && sheets[j].kind == Untyped
  {
    var sheets := SheetsByType(db);
    PartitionKinds(db);
    forall i, j | 0 <= i < j < |sheets| && sheets[i].name == sheets[j].name
      ensures sheets[i].kind == "" && sheets[j].kind == Untyped
    {
      SheetKindIsTidy(db, sheets, i);
      SheetKindIsTidy(db, sheets, j);
      SheetNameOfCleanType(sheets[i].kind, sheets[j].kind);
      LessIrreflexive(sheets[i].kind);
    }
  }

  lemma {:induction false} SheetKindIsTidy(db: seq<Row>, sheets: seq<Sheet>, i: int)
    requires forall x :: x in db ==> Tidy(x.kind) == x.kind
    requires sheets == SheetsByType(db) && 0 <= i < |sheets|
    ensures Tidy(sheets[i].kind) == sheets[i].kind
  {
    var k := sheets[i].kind;
    assert k in Kinds(db) by {
      PartitionKinds(db);
      assert SheetKinds(sheets)[i] == k;
    }
    var a :| 0 <= a < |Kinds(db)| && Kinds(db)[a] == k;
    assert db[a] in db;
  }
}
