/**
 * The reconciliation of the client roster with the activity log: one report
 * row per roster client (the loop of app.py:126-174), followed by one row per
 * raw subject name among the activities that match no client (app.py:178-207).
 */
module Reconcile {
  import opened Wrappers
  import opened Names
  import opened Activities
  import opened ClientTypes
  import opened Ordering

  /** One roster row; blank text cells are "". */
  datatype Client = Client(
    name: Option<string>,
    kind: Option<string>,
    location: string,
    manager: string,
    quoted: string,
    approved: string,
    invoiced: string,
    collected: string)

  /** The roster, and whether it has a "Tipo" column at all. */
  datatype Roster = Roster(hasTypeColumn: bool, clients: seq<Client>)

  /** One row of the report (`righe_output`), after missing cells become "" (app.py:210). */
  datatype Row = Row(
    location: string,
    manager: string,
    client: string,
    year: Option<int>,
    month: Option<int>,
    lastActivity: string,
    reassign: bool,
    quoted: string,
    approved: string,
    invoiced: string,
    collected: string,
    kind: string)

  /** `Cliente_n`. */
  function ClientKey(c: Client): string {
    NormalizeName(c.name)
  }

  /** The activity a client's row reports: direct match first, the word-reversed name only when that finds nothing. */
  function MatchFor(acts: seq<Activity>, key: string): Option<nat> {
    var direct := Latest(acts, Named(key));
    if direct.None? && key != "" then Latest(acts, Named(ReverseWords(key))) else direct
  }

  /** The report row of one roster client (app.py:127-170). */
  function ClientRow(roster: Roster, c: Client, acts: seq<Activity>, anchor: Period): Row {
    var kind := ClientType(roster.hasTypeColumn, c.kind);
    match MatchFor(acts, ClientKey(c))
    case Some(k) =>
      var a := acts[k];
      Row(c.location, c.manager, c.name.GetOr(""), Some(a.year), Some(a.month), a.activityClass,
          NeedsReassignment(anchor, a.year, a.month), c.quoted, c.approved, c.invoiced, c.collected, kind)
    case None =>
      Row(c.location, c.manager, c.name.GetOr(""), None, None, "", true,
          c.quoted, c.approved, c.invoiced, c.collected, kind)
  }

  /** `clienti_norm`: the normalised names of all roster clients. */
  function ClientKeys(roster: Roster): set<string> {
    set c | c in roster.clients :: ClientKey(c)
  }

  /** The raw subject names of the orphaned activities, with repeats, in table order; missing names are dropped. */
  function OrphanSubjects(acts: seq<Activity>, keys: set<string>): (r: seq<string>)
    ensures forall n :: n in r <==> exists i :: 0 <= i < |acts| && Selects(Unclaimed(n, keys), acts[i])
  {
    if acts == [] then []
    else
      var a := acts[|acts| - 1];
      var prefix := OrphanSubjects(acts[..|acts| - 1], keys);
      assert forall i :: 0 <= i < |acts| - 1 ==> acts[..|acts| - 1][i] == acts[i];
      if a.subject.Some? && IsOrphan(a, keys) then prefix + [a.subject.value] else prefix
  }

  /** The `groupby("NomeSoggetto")` keys: distinct raw orphan subjects in ascending order. */
  function OrphanNames(acts: seq<Activity>, keys: set<string>): seq<string> {
    SortedDistinct(OrphanSubjects(acts, keys))
  }

  /** `att_no_match` is not empty: some activity's normalised name is no client's (app.py:179-181). */
  predicate HasOrphans(acts: seq<Activity>, keys: set<string>) {
    exists i :: 0 <= i < |acts| && IsOrphan(acts[i], keys)
  }

  /** The set of raw subject names of the orphaned activities. */
  function OrphanNameSet(acts: seq<Activity>, keys: set<string>): set<string> {
    set i | 0 <= i < |acts| && acts[i].subject.Some? && IsOrphan(acts[i], keys) :: acts[i].subject.value
  }

  /** The report row of one orphan group: its latest activity, the fallback type and blank money fields. */
  function OrphanRow(acts: seq<Activity>, keys: set<string>, name: string, anchor: Period): Row
    requires exists i :: 0 <= i < |acts| && Selects(Unclaimed(name, keys), acts[i])
  {
    var k := Latest(acts, Unclaimed(name, keys)).value;
    var a := acts[k];
    Row(a.location, a.manager, name, Some(a.year), Some(a.month), a.activityClass,
        NeedsReassignment(anchor, a.year, a.month), "", "", "", "", Administrators)
  }

  function ClientRows(roster: Roster, acts: seq<Activity>, anchor: Period): seq<Row> {
    seq(|roster.clients|, i requires 0 <= i < |roster.clients| => ClientRow(roster, roster.clients[i], acts, anchor))
  }

  function OrphanRows(acts: seq<Activity>, roster: Roster, anchor: Period): seq<Row> {
    var keys := ClientKeys(roster);
    var names := OrphanNames(acts, keys);
    seq(|names|, j requires 0 <= j < |names| => OrphanRow(acts, keys, names[j], anchor))
  }

  /** The whole `righe_output` list. */
  function ReconciledRows(acts: seq<Activity>, roster: Roster, anchor: Period): seq<Row> {
    ClientRows(roster, acts, anchor) + OrphanRows(acts, roster, anchor)
  }

  /** The loop of app.py:126-170 and the `extend` of app.py:204-207. */
  method CollectRows(acts: seq<Activity>, roster: Roster, anchor: Period := ReferencePeriod)
    returns (rows: seq<Row>)
    ensures rows == ReconciledRows(acts, roster, anchor)
  {
    rows := [];
    for i := 0 to |roster.clients|
      invariant |rows| == i
      invariant forall j :: 0 <= j < i ==> rows[j] == ClientRow(roster, roster.clients[j], acts, anchor)
    {
      var c := roster.clients[i];
      var key := NormalizeName(c.name);
      var kind := ClientType(roster.hasTypeColumn, c.kind);
      var found := Latest(acts, Named(key));
      if found.None? && key != "" {
        found := Latest(acts, Named(ReverseWords(key)));
      }
      var row;
      if found.Some? {
        var a := acts[found.value];
        row := Row(c.location, c.manager, c.name.GetOr(""), Some(a.year), Some(a.month), a.activityClass,
                   NeedsReassignment(anchor, a.year, a.month), c.quoted, c.approved, c.invoiced, c.collected, kind);
      } else {
        row := Row(c.location, c.manager, c.name.GetOr(""), None, None, "", true,
                   c.quoted, c.approved, c.invoiced, c.collected, kind);
      }
      assert row == ClientRow(roster, c, acts, anchor);
      rows := rows + [row];
    }
    assert rows == ClientRows(roster, acts, anchor);
    rows := rows + OrphanRows(acts, roster, anchor);
  }

  /** The row reports activity `a`: its year, month and class, and the staleness verdict for it. */
  predicate Reports(r: Row, a: Activity, anchor: Period) {
    && r.year == Some(a.year)
    && r.month == Some(a.month)
    && r.lastActivity == a.activityClass
    && (r.reassign <==> NeedsReassignment(anchor, a.year, a.month))
  }

  /**
   * A client's row copies the client's name, location, manager, type and money
   * cells. If some activity has the client's normalised name, the row reports
   * the latest of those; only when none has it and the name is non-empty is the
   * word-reversed name tried, and its latest activity reported; with no
   * candidate the row is blank and flagged for reassignment. An empty name
   * matches the activities whose normalised name is empty.
   */
  lemma {:induction false} ClientRowSpec(roster: Roster, c: Client, acts: seq<Activity>, anchor: Period)
    ensures var r := ClientRow(roster, c, acts, anchor);
            var key := ClientKey(c);
            var direct := exists i :: 0 <= i < |acts| && NameKey(acts[i]) == key;
            var reversed := exists i :: 0 <= i < |acts| && NameKey(acts[i]) == ReverseWords(key);
      && r.location == c.location && r.manager == c.manager && r.client == c.name.GetOr("")
      && r.quoted == c.quoted && r.approved == c.approved
      && r.invoiced == c.invoiced && r.collected == c.collected
      && r.kind == (if roster.hasTypeColumn then FixType(c.kind) else Administrators)
      && (direct ==> exists k :: IsLatest(acts, Named(key), k) && Reports(r, acts[k], anchor))
      && (!direct && key != "" && reversed ==>
            exists k :: IsLatest(acts, Named(ReverseWords(key)), k) && Reports(r, acts[k], anchor))
      && (!direct && (key == "" || !reversed) ==>
            r.year.None? && r.month.None? && r.lastActivity == "" && r.reassign)
  {
    var key := ClientKey(c);
    var m := MatchFor(acts, key);
    if m.Some? {
      var direct := Latest(acts, Named(key));
      if direct.Some? {
        assert IsLatest(acts, Named(key), direct.value);
      } else {
        assert IsLatest(acts, Named(ReverseWords(key)), m.value);
      }
    }
  }

  /**
   * An orphan group's row names the raw subject, takes location and manager
   * from the group's latest activity, reports it with the same >2-months rule
   * as a client's row, and has the fallback type and four blank money fields.
   */
  lemma {:induction false} OrphanRowSpec(acts: seq<Activity>, keys: set<string>, name: string, anchor: Period)
    requires exists i :: 0 <= i < |acts| && Selects(Unclaimed(name, keys), acts[i])
    ensures var r := OrphanRow(acts, keys, name, anchor);
      && r.client == name && r.kind == Administrators
      && r.quoted == "" && r.approved == "" && r.invoiced == "" && r.collected == ""
      && exists k :: && IsLatest(acts, Unclaimed(name, keys), k)
                     && r.location == acts[k].location && r.manager == acts[k].manager
                     && Reports(r, acts[k], anchor)
  {
    var k := Latest(acts, Unclaimed(name, keys)).value;
    assert IsLatest(acts, Unclaimed(name, keys), k);
  }

  /** The sorted orphan names are exactly the orphan subjects, each once. */
  lemma {:induction false} OrphanNamesSpec(acts: seq<Activity>, keys: set<string>)
    ensures var names := OrphanNames(acts, keys);
      && StrictlySorted(names)
      && (forall s :: s in names <==> s in OrphanNameSet(acts, keys))
      && |names| == |OrphanNameSet(acts, keys)|
  {
    var names := OrphanNames(acts, keys);
    forall s ensures s in names <==> s in OrphanNameSet(acts, keys) {
      if s in OrphanNameSet(acts, keys) {
        var i :| 0 <= i < |acts| && acts[i].subject.Some? && IsOrphan(acts[i], keys) && acts[i].subject.value == s;
        assert Selects(Unclaimed(s, keys), acts[i]);
      }
    }
    assert (set y | y in names) == OrphanNameSet(acts, keys);
    StrictlySortedCard(names);
  }

  /** The orphan rows carry the orphan names, one each, in order. */
  lemma {:induction false} OrphanRowNames(acts: seq<Activity>, roster: Roster, anchor: Period)
    ensures var names := OrphanNames(acts, ClientKeys(roster));
            var orphans := OrphanRows(acts, roster, anchor);
      |orphans| == |names| && forall j :: 0 <= j < |names| ==> orphans[j].client == names[j]
  {
  }

  /**
   * The report has one row per roster client, in roster order, followed by one
   * row per distinct raw subject name among the orphaned activities.
   */
  lemma {:induction false} RowCount(acts: seq<Activity>, roster: Roster, anchor: Period)
    ensures var rows := ReconciledRows(acts, roster, anchor);
            var n := |roster.clients|;
      && |rows| == n + |OrphanNameSet(acts, ClientKeys(roster))|
      && (forall i :: 0 <= i < n ==> rows[i] == ClientRow(roster, roster.clients[i], acts, anchor))
  {
    OrphanNamesSpec(acts, ClientKeys(roster));
    OrphanRowNames(acts, roster, anchor);
  }

  /** Rows appended after `head` carry their names at the shifted positions. */
  lemma {:induction false} AppendedNames(head: seq<Row>, tail: seq<Row>, names: seq<string>)
    requires |tail| == |names|
    requires forall j :: 0 <= j < |tail| ==> tail[j].client == names[j]
    ensures forall j :: |head| <= j < |head + tail| ==> (head + tail)[j].client == names[j - |head|]
  {
  }

  /** The row after the clients' at position `n + j` is the row of the `j`-th orphan name. */
  lemma {:induction false} OrphanRowAt(acts: seq<Activity>, roster: Roster, anchor: Period)
    ensures var rows := ReconciledRows(acts, roster, anchor);
            var n := |roster.clients|;
            var names := OrphanNames(acts, ClientKeys(roster));
      |rows| == n + |names| && forall j :: n <= j < |rows| ==> rows[j].client == names[j - n]
  {
    OrphanRowNames(acts, roster, anchor);
    AppendedNames(ClientRows(roster, acts, anchor), OrphanRows(acts, roster, anchor),
                  OrphanNames(acts, ClientKeys(roster)));
  }

  /**
   * The rows after the clients' are in strictly ascending order of the raw
   * subject name, so no name has two rows, and each names an orphan subject.
   */
  lemma {:induction false} OrphanRowsOrdered(acts: seq<Activity>, roster: Roster, anchor: Period)
    ensures var rows := ReconciledRows(acts, roster, anchor);
            var n := |roster.clients|;
      && (forall i, j :: n <= i < j < |rows| ==> Less(rows[i].client, rows[j].client))
      && (forall j :: n <= j < |rows| ==> rows[j].client in OrphanNameSet(acts, ClientKeys(roster)))
  {
    OrphanRowAt(acts, roster, anchor);
    OrphanNamesSpec(acts, ClientKeys(roster));
  }

  /** Every raw subject name of an orphaned activity has a row after the clients'. */
  lemma {:induction false} OrphanRowsComplete(acts: seq<Activity>, roster: Roster, anchor: Period)
    ensures var rows := ReconciledRows(acts, roster, anchor);
            var n := |roster.clients|;
      forall s :: s in OrphanNameSet(acts, ClientKeys(roster)) ==> exists j :: n <= j < |rows| && rows[j].client == s
  {
    var n := |roster.clients|;
    var keys := ClientKeys(roster);
    var names := OrphanNames(acts, keys);
    var rows := ReconciledRows(acts, roster, anchor);
    OrphanRowAt(acts, roster, anchor);
    OrphanNamesSpec(acts, keys);
    forall s | s in OrphanNameSet(acts, keys) ensures exists j :: n <= j < |rows| && rows[j].client == s {
      var j :| 0 <= j < |names| && names[j] == s;
      assert rows[n + j].client == s;
    }
  }

  /**
   * An activity filed under a client's word-reversed name is still an orphan
   * unless that reversed name is itself some client's: it gets a row of its own
   * after the clients', while the client's row, when no activity has the
   * client's own normalised name, reports the latest reversed-name activity.
   * When that latest one is this activity, it is reported in two rows.
   */
  lemma {:induction false} ReversedMatchIsAlsoOrphan(acts: seq<Activity>, roster: Roster, anchor: Period, c: Client, i: nat)
    requires c in roster.clients
    requires i < |acts| && acts[i].subject.Some?
    requires NameKey(acts[i]) == ReverseWords(ClientKey(c))
    requires ReverseWords(ClientKey(c)) !in ClientKeys(roster)
    ensures var rows := ReconciledRows(acts, roster, anchor);
      && acts[i].subject.value in OrphanNameSet(acts, ClientKeys(roster))
      && (exists j :: |roster.clients| <= j < |rows| && rows[j].client == acts[i].subject.value)
      && ((forall k :: 0 <= k < |acts| ==> NameKey(acts[k]) != ClientKey(c)) && ClientKey(c) != "" ==>
            && (forall k :: IsLatest(acts, Named(ReverseWords(ClientKey(c))), k) ==>
                  Reports(ClientRow(roster, c, acts, anchor), acts[k], anchor))
            && (IsLatest(acts, Named(ReverseWords(ClientKey(c))), i) ==>
                  Reports(ClientRow(roster, c, acts, anchor), acts[i], anchor)))
  {
    var keys := ClientKeys(roster);
    var rev := Named(ReverseWords(ClientKey(c)));
    assert IsOrphan(acts[i], keys);
    assert acts[i].subject.value in OrphanNameSet(acts, keys);
    OrphanRowsComplete(acts, roster, anchor);
    ClientRowSpec(roster, c, acts, anchor);
    forall k | IsLatest(acts, rev, k)
      ensures (forall j :: 0 <= j < |acts| ==> NameKey(acts[j]) != ClientKey(c)) && ClientKey(c) != "" ==>
                Reports(ClientRow(roster, c, acts, anchor), acts[k], anchor)
    {
      if (forall j :: 0 <= j < |acts| ==> NameKey(acts[j]) != ClientKey(c)) && ClientKey(c) != "" {
        var k' :| IsLatest(acts, rev, k') && Reports(ClientRow(roster, c, acts, anchor), acts[k'], anchor);
        LatestIsUnique(acts, rev, k, k');
      }
    }
  }
}
