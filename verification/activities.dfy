/**
 * Activities, the priority rank of their class (app.py:112-121), the
 * "sort ascending by (year, month, rank) and take the last row" selection
 * (app.py:138, 182-186) and the staleness rule (app.py:139-141, 188-192).
 */
module Activities {
  import opened Wrappers
  import Names

  /** One row of the activity log; blank text cells are "". */
  datatype Activity = Activity(
    subject: Option<string>,
    year: int,
    month: int,
    activityClass: string,
    manager: string,
    location: string)

  /** The normalised subject name (`NomeSoggetto_n`, app.py:99). */
  function NameKey(a: Activity): string {
    Names.NormalizeName(a.subject)
  }

  /** The `priorita` table: exact class labels to their rank. */
  const Priority: map<string, int> := map[
    "04 RICHIESTE" := 1,
    "06 PREVENTIVI" := 2,
    "03 INCONTRI" := 3,
    "07 DELIBERE" := 4,
    "05 SOPRALLUOGHI" := 5,
    "01 TELEFONATE" := 6,
    "02 APPUNTAMENTI" := 7]

  /** The rank given to a class outside the table (`fillna(999)`). */
  const Unranked: int := 999

  function Rank(activityClass: string): int {
    if activityClass in Priority then Priority[activityClass] else Unranked
  }

  /** The rank is one of the seven table values for a listed class and 999 for any other. */
  lemma {:induction false} RankSpec(c: string)
    ensures c == "04 RICHIESTE" ==> Rank(c) == 1
    ensures c == "06 PREVENTIVI" ==> Rank(c) == 2
    ensures c == "03 INCONTRI" ==> Rank(c) == 3
    ensures c == "07 DELIBERE" ==> Rank(c) == 4
    ensures c == "05 SOPRALLUOGHI" ==> Rank(c) == 5
    ensures c == "01 TELEFONATE" ==> Rank(c) == 6
    ensures c == "02 APPUNTAMENTI" ==> Rank(c) == 7
    ensures (c !in {"04 RICHIESTE", "06 PREVENTIVI", "03 INCONTRI", "07 DELIBERE",
                    "05 SOPRALLUOGHI", "01 TELEFONATE", "02 APPUNTAMENTI"}) ==> Rank(c) == Unranked
  {
  }

  /** `a` sorts strictly before `b` under `sort_values(["Anno", "Mese", "Priorita"])`. */
  predicate Before(a: Activity, b: Activity) {
    || a.year < b.year
    || (a.year == b.year && a.month < b.month)
    || (a.year == b.year && a.month == b.month && Rank(a.activityClass) < Rank(b.activityClass))
  }

  /** Which activities a selection looks at. */
  datatype Selector =
    | Named(key: string)                                // normalised subject equals `key`
    | Unclaimed(subject: string, clientKeys: set<string>) // raw subject is `subject`, no client has its key

  /** An activity with no client: its normalised name is none of the clients' (app.py:179). */
  predicate IsOrphan(a: Activity, clientKeys: set<string>) {
    NameKey(a) !in clientKeys
  }

  predicate Selects(sel: Selector, a: Activity) {
    match sel
    case Named(key) => NameKey(a) == key
    case Unclaimed(subject, keys) => a.subject == Some(subject) && IsOrphan(a, keys)
  }

  /**
   * `k` is the row a stable ascending sort by (year, month, rank) puts last among
   * the selected rows: nothing selected sorts after it, and every selected row
   * further down the table sorts strictly before it.
   */
  predicate IsLatest(acts: seq<Activity>, sel: Selector, k: int) {
    && 0 <= k < |acts|
    && Selects(sel, acts[k])
    && (forall j :: 0 <= j < |acts| && Selects(sel, acts[j]) ==> !Before(acts[k], acts[j]))
    && (forall j :: k < j < |acts| && Selects(sel, acts[j]) ==> Before(acts[j], acts[k]))
  }

  /** The selected row that `sort_values(...).iloc[-1]` returns, if any row is selected. */
  function Latest(acts: seq<Activity>, sel: Selector): (r: Option<nat>)
    ensures r.None? <==> forall i :: 0 <= i < |acts| ==> !Selects(sel, acts[i])
    ensures r.Some? ==> IsLatest(acts, sel, r.value)
    decreases |acts|
  {
    if acts == [] then None
    else
      var last := |acts| - 1;
      var prev := Latest(acts[..last], sel);
      if !Selects(sel, acts[last]) then prev
      else if prev.Some? && Before(acts[last], acts[prev.value]) then prev
      else Some(last)
  }

  /** At most one row meets `IsLatest`: the selection is deterministic. */
  lemma {:induction false} LatestIsUnique(acts: seq<Activity>, sel: Selector, k1: int, k2: int)
    requires IsLatest(acts, sel, k1) && IsLatest(acts, sel, k2)
    ensures k1 == k2
  {
  }

  /**
   * The chosen activity has the latest (year, month) of all selected ones,
   * whatever their class; within that month it has the largest rank number.
   */
  lemma {:induction false} LatestIsMaximal(acts: seq<Activity>, sel: Selector, k: int, j: int)
    requires IsLatest(acts, sel, k)
    requires 0 <= j < |acts| && Selects(sel, acts[j])
    ensures acts[j].year < acts[k].year || (acts[j].year == acts[k].year && acts[j].month <= acts[k].month)
    ensures acts[j].year == acts[k].year && acts[j].month == acts[k].month ==>
      Rank(acts[j].activityClass) <= Rank(acts[k].activityClass)
  {
  }

  /** Two selected activities in the same month: "07 DELIBERE" (4) wins over "04 RICHIESTE" (1), in either order. */
  lemma {:induction false} DeliberaBeatsRichiesta(sel: Selector, a: Activity, b: Activity)
    requires Selects(sel, a) && Selects(sel, b)
    requires a.year == b.year && a.month == b.month
    requires a.activityClass == "04 RICHIESTE" && b.activityClass == "07 DELIBERE"
    ensures Latest([a, b], sel) == Some(1)
    ensures Latest([b, a], sel) == Some(0)
  {
    assert [a, b][..1] == [a];
    assert [b, a][..1] == [b];
  }

  /**
   * Of two selected activities, the one in the later month wins whatever the
   * classes, in either order: a month outweighs every rank, even 999.
   */
  lemma {:induction false} LaterPeriodWins(sel: Selector, a: Activity, b: Activity)
    requires Selects(sel, a) && Selects(sel, b)
    requires b.year < a.year || (b.year == a.year && b.month < a.month)
    ensures Latest([a, b], sel) == Some(0)
    ensures Latest([b, a], sel) == Some(1)
  {
    assert [a, b][..1] == [a];
    assert [b, a][..1] == [b];
    assert Before(b, a) && !Before(a, b);
  }

  /** A point in time, as (year, month). */
  datatype Period = Period(year: int, month: int)

  /** The anchor the source hard-codes: November 2025. */
  const ReferencePeriod: Period := Period(2025, 11)

  function MonthsElapsed(anchor: Period, year: int, month: int): int {
    (anchor.year - year) * 12 + (anchor.month - month)
  }

  /** "Da riassegnare": more than two months between the activity and the anchor. */
  predicate NeedsReassignment(anchor: Period, year: int, month: int) {
    MonthsElapsed(anchor, year, month) > 2
  }

  /** The verdict as the report writes it. */
  function VerdictLabel(reassign: bool): string {
    if reassign then "Sì" else "No"
  }

  /**
   * An activity is stale exactly when it lies more than two months before the
   * anchor on the month line; a later activity is never staler than an earlier one.
   */
  lemma {:induction false} NeedsReassignmentSpec(anchor: Period, y1: int, m1: int, y2: int, m2: int)
    ensures NeedsReassignment(anchor, y1, m1) <==> y1 * 12 + m1 + 2 < anchor.year * 12 + anchor.month
    ensures y1 * 12 + m1 <= y2 * 12 + m2 && NeedsReassignment(anchor, y2, m2) ==>
      NeedsReassignment(anchor, y1, m1)
  {
  }

  /** With the November 2025 anchor: September 2025 is 2 months ("No"), August 2025 is 3 ("Sì"), November 2025 is 0 ("No"). */
  lemma {:induction false} StalenessBoundary()
    ensures MonthsElapsed(ReferencePeriod, 2025, 9) == 2
    ensures VerdictLabel(NeedsReassignment(ReferencePeriod, 2025, 9)) == "No"
    ensures MonthsElapsed(ReferencePeriod, 2025, 8) == 3
    ensures VerdictLabel(NeedsReassignment(ReferencePeriod, 2025, 8)) == "Sì"
    ensures MonthsElapsed(ReferencePeriod, 2025, 11) == 0
    ensures VerdictLabel(NeedsReassignment(ReferencePeriod, 2025, 11)) == "No"
  {
  }
}
