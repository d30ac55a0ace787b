/**
 * The report as written to the workbook (app.py:209-248): the reconciled rows
 * with their four money cells rewritten (app.py:233-235), a "Database" sheet
 * holding all of them, and one sheet per client type.
 */
module Report {
  import opened Wrappers
  import opened Text
  import opened Activities
  import opened ClientTypes
  import opened Currency
  import opened Reconcile
  import opened Partition

  /** The four money columns, in the order app.py:233 visits them. */
  datatype MoneyColumn = Quoted | Approved | Invoiced | Collected

  const MoneyColumns: seq<MoneyColumn> := [Quoted, Approved, Invoiced, Collected]

  function Money(r: Row, col: MoneyColumn): string {
    match col
    case Quoted => r.quoted
    case Approved => r.approved
    case Invoiced => r.invoiced
    case Collected => r.collected
  }

  /** The row with the cell of column `col` replaced by `v`. */
  function WithMoney(r: Row, col: MoneyColumn, v: string): (s: Row)
    ensures Money(s, col) == v
    ensures forall other :: other != col ==> Money(s, other) == Money(r, other)
  {
    match col
    case Quoted => r.(quoted := v)
    case Approved => r.(approved := v)
    case Invoiced => r.(invoiced := v)
    case Collected => r.(collected := v)
  }

  /** One cell of one money column rewritten by `f`. */
  function ApplyCell(r: Row, col: MoneyColumn, f: string -> string): Row {
    WithMoney(r, col, f(Money(r, col)))
  }

  /** A row after `f` has been applied to the given columns one after another. */
  function ApplyColumns(r: Row, cols: seq<MoneyColumn>, f: string -> string): Row
    decreases |cols|
  {
    if cols == [] then r else ApplyCell(ApplyColumns(r, cols[..|cols| - 1], f), cols[|cols| - 1], f)
  }

  /** A report row with `f` applied to all four money cells. */
  function MapMoney(r: Row, f: string -> string): Row {
    r.(quoted := f(r.quoted), approved := f(r.approved), invoiced := f(r.invoiced), collected := f(r.collected))
  }

  /** A report row with its money cells rewritten by `to_float_euro` and `format_euro`. */
  function FormatRow(r: Row): Row {
    MapMoney(r, MoneyCell)
  }

  function FormattedRows(db: seq<Row>): seq<Row> {
    seq(|db|, i requires 0 <= i < |db| => FormatRow(db[i]))
  }

  lemma {:induction false} ApplyColumnsStep(r: Row, cols: seq<MoneyColumn>, c: nat, f: string -> string)
    requires c < |cols|
    ensures ApplyColumns(r, cols[..c + 1], f) == ApplyCell(ApplyColumns(r, cols[..c], f), cols[c], f)
  {
    assert cols[..c + 1][..c] == cols[..c];
  }

  /** Applying `f` to the four columns one after another applies it to the whole row. */
  lemma {:induction false} ApplyAllColumns(r: Row, f: string -> string)
    ensures ApplyColumns(r, MoneyColumns, f) == MapMoney(r, f)
  {
    var cs := MoneyColumns;
    assert cs[..0] == [];
    ApplyColumnsStep(r, cs, 0, f);
    ApplyColumnsStep(r, cs, 1, f);
    ApplyColumnsStep(r, cs, 2, f);
    ApplyColumnsStep(r, cs, 3, f);
    assert cs[..4] == cs;
  }

  /** `df[col] = df[col].apply(f)`: one money column of the table rewritten in place. */
  method ApplyToColumn(db: array<Row>, col: MoneyColumn, f: string -> string)
    modifies db
    ensures forall j :: 0 <= j < db.Length ==> db[j] == ApplyCell(old(db[j]), col, f)
  {
    for i := 0 to db.Length
      invariant forall j :: 0 <= j < i ==> db[j] == ApplyCell(old(db[j]), col, f)
      invariant forall j :: i <= j < db.Length ==> db[j] == old(db[j])
    {
      db[i] := ApplyCell(db[i], col, f);
    }
  }

  /** The loop of app.py:233-235, column by column over the table in place. */
  method FormatMoneyColumns(db: array<Row>)
    modifies db
    ensures db[..] == FormattedRows(old(db[..]))
  {
    for c := 0 to |MoneyColumns|
      invariant forall j :: 0 <= j < db.Length ==> db[j] == ApplyColumns(old(db[j]), MoneyColumns[..c], MoneyCell)
    {
      ApplyToColumn(db, MoneyColumns[c], MoneyCell);
      forall j | 0 <= j < db.Length
        ensures db[j] == ApplyColumns(old(db[j]), MoneyColumns[..c + 1], MoneyCell)
      {
        ApplyColumnsStep(old(db[j]), MoneyColumns, c, MoneyCell);
      }
    }
    forall j | 0 <= j < db.Length ensures db[j] == FormatRow(old(db[j])) {
      assert MoneyColumns[..4] == MoneyColumns;
      ApplyAllColumns(old(db[j]), MoneyCell);
    }
  }

  /** Rewriting a money cell keeps the amount it stands for (or its absence). */
  lemma {:induction false} MoneyCellKeepsAmount(x: string)
    ensures ToCents(MoneyCell(x)) == ToCents(x)
  {
    match ToCents(x)
    case None =>
      StripUnchanged("");
    case Some(c) =>
      FormatThenParse(c);
  }

  /** `MapMoney` changes only the money cells, each to `f` of what it held. */
  lemma {:induction false} MapMoneyFields(r: Row, f: string -> string)
    ensures var s := MapMoney(r, f);
      && s.location == r.location && s.manager == r.manager && s.client == r.client
      && s.year == r.year && s.month == r.month && s.lastActivity == r.lastActivity
      && s.reassign == r.reassign && s.kind == r.kind
      && forall col :: Money(s, col) == f(Money(r, col))
  {
  }

  /** A row whose money cells `f` leaves alone is left alone by `MapMoney`. */
  lemma {:induction false} MapMoneyFixed(r: Row, f: string -> string)
    requires forall col :: f(Money(r, col)) == Money(r, col)
    ensures MapMoney(r, f) == r
  {
    assert f(Money(r, Quoted)) == r.quoted;
    assert f(Money(r, Approved)) == r.approved;
    assert f(Money(r, Invoiced)) == r.invoiced;
    assert f(Money(r, Collected)) == r.collected;
  }

  /** Formatting changes only the money cells, and each keeps the amount it stood for. */
  lemma {:induction false} FormatRowKeepsAmounts(r: Row)
    ensures var f := FormatRow(r);
      && f.location == r.location && f.manager == r.manager && f.client == r.client
      && f.year == r.year && f.month == r.month && f.lastActivity == r.lastActivity
      && f.reassign == r.reassign && f.kind == r.kind
      && forall col :: ToCents(Money(f, col)) == ToCents(Money(r, col))
  {
    MapMoneyFields(r, MoneyCell);
    forall col ensures ToCents(Money(FormatRow(r), col)) == ToCents(Money(r, col)) {
      MoneyCellKeepsAmount(Money(r, col));
    }
  }

  /** Formatting a formatted row again changes nothing. */
  lemma {:induction false} FormatRowIdempotent(r: Row)
    ensures FormatRow(FormatRow(r)) == FormatRow(r)
  {
    var f := FormatRow(r);
    MapMoneyFields(r, MoneyCell);
    forall col ensures MoneyCell(Money(f, col)) == Money(f, col) {
      MoneyCellIdempotent(Money(r, col));
    }
    MapMoneyFixed(f, MoneyCell);
  }

  /** The written workbook: the "Database" sheet and the per-type sheets. */
  datatype Workbook = Workbook(database: seq<Row>, sheets: seq<Sheet>)

  /**
   * The export either succeeds or stops with an error: at app.py:194, when
   * some activities match no client but none of them has a subject name (the
   * `groupby("NomeSoggetto")` drops them all, and the verdict column of the
   * empty frame cannot be assigned); or at `groupby("Tipo")` on a report
   * without rows, which has no "Tipo" column.
   */
  datatype Outcome = Written(book: Workbook) | NamelessOrphans | MissingTypeColumn

  function ReportOf(acts: seq<Activity>, roster: Roster, anchor: Period): Outcome {
    var keys := ClientKeys(roster);
    if HasOrphans(acts, keys) && OrphanNameSet(acts, keys) == {} then NamelessOrphans
    else
      var db := FormattedRows(ReconciledRows(acts, roster, anchor));
      if db == [] then MissingTypeColumn else Written(Workbook(db, SheetsByType(db)))
  }

  /** The whole export: reconcile, rewrite the money columns, split into sheets. */
  method BuildReport(acts: seq<Activity>, roster: Roster, anchor: Period := ReferencePeriod)
    returns (out: Outcome)
    ensures out == ReportOf(acts, roster, anchor)
  {
    var keys := ClientKeys(roster);
    var rows := CollectRows(acts, roster, anchor);
    OrphanNamesSpec(acts, keys);
    if HasOrphans(acts, keys) && OrphanNames(acts, keys) == [] {
      return NamelessOrphans;
    }
    var db := new Row[|rows|](i requires 0 <= i < |rows| => rows[i]);
    assert db[..] == rows;
    FormatMoneyColumns(db);
    if db.Length == 0 {
      return MissingTypeColumn;
    }
    out := Written(Workbook(db[..], SheetsByType(db[..])));
  }

  lemma {:induction false} ClientRowKindTidy(roster: Roster, c: Client, acts: seq<Activity>, anchor: Period)
    ensures Tidy(ClientRow(roster, c, acts, anchor).kind) == ClientRow(roster, c, acts, anchor).kind
  {
    ClientRowSpec(roster, c, acts, anchor);
    AdministratorsIsTidy();
    FixTypeSpec(c.kind);
  }

  /** Every orphan row has the fallback type. */
  lemma {:induction false} OrphanRowsKind(acts: seq<Activity>, roster: Roster, anchor: Period)
    ensures forall r :: r in OrphanRows(acts, roster, anchor) ==> r.kind == Administrators
  {
  }

  /** Every type in the report is already trimmed and capitalised. */
  lemma {:induction false} ReconciledKindsTidy(acts: seq<Activity>, roster: Roster, anchor: Period)
    ensures forall r :: r in ReconciledRows(acts, roster, anchor) ==> Tidy(r.kind) == r.kind
  {
    var rows := ReconciledRows(acts, roster, anchor);
    var n := |roster.clients|;
    var orphans := OrphanRows(acts, roster, anchor);
    forall i | 0 <= i < |rows| ensures Tidy(rows[i].kind) == rows[i].kind {
      if i < n {
        ClientRowKindTidy(roster, roster.clients[i], acts, anchor);
      } else {
        assert rows[i] == orphans[i - n];
        assert rows[i].kind == Administrators by {
          OrphanRowsKind(acts, roster, anchor);
        }
        AdministratorsIsTidy();
      }
    }
  }

  /** With no roster clients every activity is an orphan. */
  lemma {:induction false} EmptyRosterOrphans(acts: seq<Activity>, roster: Roster)
    requires roster.clients == []
    ensures HasOrphans(acts, ClientKeys(roster)) <==> acts != []
  {
    assert ClientKeys(roster) == {};
    if acts != [] {
      assert IsOrphan(acts[0], ClientKeys(roster));
    }
  }

  /**
   * The export stops at app.py:194 exactly when some activities match no
   * client and none of them has a subject name, and stops at
   * `groupby("Tipo")` exactly when both the roster and the activity log are
   * empty.
   */
  lemma {:induction false} ReportFailures(acts: seq<Activity>, roster: Roster, anchor: Period)
    ensures var keys := ClientKeys(roster);
      && (ReportOf(acts, roster, anchor).NamelessOrphans? <==> HasOrphans(acts, keys) && OrphanNameSet(acts, keys) == {})
      && (ReportOf(acts, roster, anchor).MissingTypeColumn? <==> roster.clients == [] && acts == [])
  {
    var keys := ClientKeys(roster);
    RowCount(acts, roster, anchor);
    var names := OrphanNameSet(acts, keys);
    if names != {} {
      var s :| s in names;
      assert |names| >= 1;
      var i :| 0 <= i < |acts| && acts[i].subject.Some? && IsOrphan(acts[i], keys) && acts[i].subject.value == s;
      assert HasOrphans(acts, keys);
    }
    if roster.clients == [] {
      EmptyRosterOrphans(acts, roster);
    }
  }

  /** Every type in the formatted report is already trimmed and capitalised. */
  lemma {:induction false} FormattedKindsTidy(rows: seq<Row>)
    requires forall r :: r in rows ==> Tidy(r.kind) == r.kind
    ensures forall x :: x in FormattedRows(rows) ==> Tidy(x.kind) == x.kind
  {
    var db := FormattedRows(rows);
    forall x | x in db ensures Tidy(x.kind) == x.kind {
      var i :| 0 <= i < |db| && db[i] == x;
      MapMoneyFields(rows[i], MoneyCell);
      assert rows[i] in rows;
    }
  }

  /**
   * The export stops at app.py:194 only with some orphans and none of them
   * named, and at `groupby("Tipo")` only with no rows; a written workbook's
   * "Database" sheet holds every reconciled row in order with its money cells
   * rewritten, and the per-type sheets together hold exactly those rows.
   */
  lemma {:induction false} ReportSpec(acts: seq<Activity>, roster: Roster, anchor: Period)
    ensures var rows := ReconciledRows(acts, roster, anchor);
      match ReportOf(acts, roster, anchor)
      case NamelessOrphans =>
        && HasOrphans(acts, ClientKeys(roster))
        && (forall i :: 0 <= i < |acts| && IsOrphan(acts[i], ClientKeys(roster)) ==> acts[i].subject.None?)
      case MissingTypeColumn => rows == []
      case Written(book) =>
        && |book.database| == |rows| > 0
        && (forall i :: 0 <= i < |rows| ==> book.database[i] == FormatRow(rows[i]))
        && multiset(Flatten(book.sheets)) == multiset(book.database)
  {
    var keys := ClientKeys(roster);
    var rows := ReconciledRows(acts, roster, anchor);
    var db := FormattedRows(rows);
    if HasOrphans(acts, keys) && OrphanNameSet(acts, keys) == {} {
      NoOrphanNames(acts, keys);
    } else if db != [] {
      PartitionPreservesRows(db);
    }
  }

  /**
   * In a written workbook only the blank type and "Senzatipo" can end up with
   * the same sheet name, and a per-type sheet is named "Database", like the
   * whole-table sheet, exactly when its type is "Database", which happens
   * exactly when some row has that type.
   */
  lemma {:induction false} ReportSheetNames(acts: seq<Activity>, roster: Roster, anchor: Period)
    ensures ReportOf(acts, roster, anchor).Written? ==>
      var book := ReportOf(acts, roster, anchor).book;
      && (forall i, j :: 0 <= i < j < |book.sheets| && book.sheets[i].name == book.sheets[j].name ==>
            book.sheets[i].kind == "" && book.sheets[j].kind == Untyped)
      && (forall i :: 0 <= i < |book.sheets| ==>
            (book.sheets[i].name == DatabaseSheet <==> book.sheets[i].kind == DatabaseSheet))
      && ((exists i :: 0 <= i < |book.sheets| && book.sheets[i].name == DatabaseSheet) <==>
            (exists j :: 0 <= j < |book.database| && book.database[j].kind == DatabaseSheet))
  {
    var rows := ReconciledRows(acts, roster, anchor);
    var db := FormattedRows(rows);
    if ReportOf(acts, roster, anchor).Written? {
      ReconciledKindsTidy(acts, roster, anchor);
      FormattedKindsTidy(rows);
      SheetNamesClash(db);
      DatabaseSheetSpec(db);
    }
  }

  /** Without orphan names, no orphaned activity has a subject. */
  lemma {:induction false} NoOrphanNames(acts: seq<Activity>, keys: set<string>)
    requires OrphanNameSet(acts, keys) == {}
    ensures forall i :: 0 <= i < |acts| && IsOrphan(acts[i], keys) ==> acts[i].subject.None?
  {
    forall i | 0 <= i < |acts| && IsOrphan(acts[i], keys) ensures acts[i].subject.None? {
      if acts[i].subject.Some? {
        OrphanNamed(acts, keys, i);
        assert false;
      }
    }
  }

  /** The subject of an orphaned activity is one of the orphan names. */
  lemma {:induction false} OrphanNamed(acts: seq<Activity>, keys: set<string>, i: int)
    requires 0 <= i < |acts| && IsOrphan(acts[i], keys) && acts[i].subject.Some?
    ensures acts[i].subject.value in OrphanNameSet(acts, keys)
  {
  }

  /**
   * When every type in the table is tidy, a per-type sheet takes the name of
   * the whole-table sheet exactly when its type is "Database", so such a
   * sheet exists exactly when some row has that type.
   */
  lemma {:induction false} DatabaseSheetSpec(db: seq<Row>)
    requires forall x :: x in db ==> Tidy(x.kind) == x.kind
    ensures var sheets := SheetsByType(db);
      && (forall i :: 0 <= i < |sheets| ==> (sheets[i].name == DatabaseSheet <==> sheets[i].kind == DatabaseSheet))
      && ((exists i :: 0 <= i < |sheets| && sheets[i].name == DatabaseSheet) <==>
            (exists j :: 0 <= j < |db| && db[j].kind == DatabaseSheet))
  {
    DatabaseSheetNames(db);
    var sheets := SheetsByType(db);
    if exists i :: 0 <= i < |sheets| && sheets[i].name == DatabaseSheet {
      var i :| 0 <= i < |sheets| && sheets[i].name == DatabaseSheet;
      DatabaseSheetHasRow(db, i);
    }
    if exists j :: 0 <= j < |db| && db[j].kind == DatabaseSheet {
      var j :| 0 <= j < |db| && db[j].kind == DatabaseSheet;
      DatabaseRowHasSheet(db, j);
    }
  }

  lemma {:induction false} DatabaseSheetNames(db: seq<Row>)
    requires forall x :: x in db ==> Tidy(x.kind) == x.kind
    ensures var sheets := SheetsByType(db);
      forall i :: 0 <= i < |sheets| ==> (sheets[i].name == DatabaseSheet <==> sheets[i].kind == DatabaseSheet)
  {
    var sheets := SheetsByType(db);
    PartitionSheets(db);
    forall i | 0 <= i < |sheets| ensures sheets[i].name == DatabaseSheet <==> sheets[i].kind == DatabaseSheet {
      SheetKindIsTidy(db, sheets, i);
      SheetNameIsDatabase(sheets[i].kind);
    }
  }

  lemma {:induction false} DatabaseSheetHasRow(db: seq<Row>, i: int)
    requires forall x :: x in db ==> Tidy(x.kind) == x.kind
    requires 0 <= i < |SheetsByType(db)| && SheetsByType(db)[i].name == DatabaseSheet
    ensures exists j :: 0 <= j < |db| && db[j].kind == DatabaseSheet
  {
    var sheets := SheetsByType(db);
    DatabaseSheetNames(db);
    PartitionKinds(db);
    assert SheetKinds(sheets)[i] == DatabaseSheet;
    assert DatabaseSheet in SheetKinds(sheets);
    assert DatabaseSheet in Kinds(db);
    var j :| 0 <= j < |Kinds(db)| && Kinds(db)[j] == DatabaseSheet;
    assert db[j].kind == DatabaseSheet;
  }

  lemma {:induction false} DatabaseRowHasSheet(db: seq<Row>, j: int)
    requires forall x :: x in db ==> Tidy(x.kind) == x.kind
    requires 0 <= j < |db| && db[j].kind == DatabaseSheet
    ensures exists i :: 0 <= i < |SheetsByType(db)| && SheetsByType(db)[i].name == DatabaseSheet
  {
    var sheets := SheetsByType(db);
    DatabaseSheetNames(db);
    PartitionKinds(db);
    KindsMembership(db, db[j]);
    var i :| 0 <= i < |SheetKinds(sheets)| && SheetKinds(sheets)[i] == DatabaseSheet;
    assert sheets[i].name == DatabaseSheet;
  }
}
