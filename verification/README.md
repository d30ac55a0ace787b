# Client activity reconciliation — a Dafny model

`app.py` is a small Streamlit tool. It takes two spreadsheets:

- an activity log, where each row is one contact with a subject. A row holds
  the subject's name, a year, a month, an activity class, a manager and a
  location;
- a client roster, where each row is one client. A row holds the client's
  name, type, location, manager and four money columns.

The tool reconciles the two and writes an Excel report. This project models
the reconciliation core as Dafny functions and methods and proves what the
report promises:

- **Name normalisation** (`normalize_name`, app.py:94-97). The text is
  lower-cased, `.` `*` `,` become spaces, and runs of white space collapse to
  single spaces. Modules `Text` and `Names`.
- **Client types** (`fix_tipo`, app.py:102-110). A type is trimmed and
  capitalised. Anything starting with "amministrator" becomes
  "Amministratori". A roster without a type column gives every client
  "Amministratori". Module `ClientTypes`.
- **Activity priority and selection** (app.py:112-121, 138, 182-186). The
  activities are sorted by (year, month, rank) and the last one is taken.
  Because the sort is stable, this picks the activity that comes last in
  table order among those with the greatest (year, month, rank). Module
  `Activities`.
- **Staleness** (app.py:139-141, 188-192). An activity "needs reassignment"
  when it lies more than two months before November 2025. That anchor is a
  parameter of the model whose default is November 2025. Module
  `Activities`.
- **One row per roster client** (app.py:126-170). The client's name is
  matched first on its normalised name, then on that name with its words
  reversed. The first strategy that finds something is used, and the row
  reports the latest activity found. Module `Reconcile`, method
  `CollectRows`.
- **Orphan rows** (app.py:178-207). These are the activities whose
  normalised name is no client's. There is one row per distinct raw subject
  name, in ascending order of that name. Each orphan row has type
  "Amministratori" and blank money cells.
- **Money cells** (app.py:212-235). `to_float_euro` reads an Italian or plain
  amount. `format_euro` writes it back as `€ 1.234,56`. Amounts are modelled
  as whole cents. Module `Currency`. The column-by-column in-place rewrite of
  the table is `Report.FormatMoneyColumns`.
- **Workbook** (app.py:244-248). A "Database" sheet holds every row. Then
  come one sheet per type, in ascending order of type, each named
  `str(type).strip().capitalize() or "Senzatipo"` and sorted by client.
  Modules `Partition` and `Report`.

Missing cells are modelled after the `replace({np.nan: ""})` of app.py:210,
so a blank text cell is `""`. There are three exceptions, where a missing
cell behaves differently from `""`:

- a client's name is `Option<string>`;
- an activity's subject is `Option<string>`, because `groupby` drops missing
  keys;
- a client's type is `Option<string>`, because `str(nan)` is `"nan"`, which
  `fix_tipo` turns into `"Nan"`.

The code also fixes these points, and the model keeps them:

- An orphan row is flagged for reassignment by the same more-than-two-months
  rule as a client row (app.py:188-192).
- A money cell whose text does not parse becomes `""`: app.py:220-223 return
  NaN, and `format_euro` writes NaN as `""`.
- Matching is exact, on the normalised name or on its reversed words.
- Among activities with the same year, month and rank, the one later in the
  table wins.
- Some activities may match no client while none of them has a subject
  name. Then `groupby("NomeSoggetto")` drops them all, `apply` on the empty
  frame gives a frame, and assigning it to the "Da riassegnare" column
  raises `ValueError` (app.py:194). This is the outcome `NamelessOrphans`.
- A report with no rows at all has no "Tipo" column, so
  `database.groupby("Tipo")` raises `KeyError` (app.py:246). This is the
  outcome `MissingTypeColumn`.
- A row whose type is "Database" (a roster type "database", say) gets a
  per-type sheet with the same name as the whole-table sheet (app.py:245-248).

## Model

| member | source | states |
|---|---|---|
| Text.StripSpec | app.py:104 | `strip()` gives a slice of the text with only white space cut off before and after it; the result has no white space at either end, and is "" exactly when the text is all white space |
| Text.SplitJoin | app.py:97 | splitting a single-space join of words gives the same words back |
| Text.JoinSingleSpaced | app.py:97 | `" ".join` of words has only single spaces between words and none at the ends |
| Ordering.LessIsStrictTotalOrder | app.py:246 | Python's string `<`, by which `groupby`/`sorted` order keys, is irreflexive, transitive and total |
| Ordering.StrictlySortedCard | app.py:184 | a strictly ascending key list has no repeats, so its length is the number of distinct keys |
| Names.NormalizeNameShape | app.py:94-97 | a missing name normalises to ""; otherwise the result has the same words as the lower-cased text with `.` `*` `,` made spaces; it has no upper-case letter, no `.` `*` `,`, and single spaces between words only |
| Names.NormalizeNameIdempotent | app.py:94-97 | normalising a normalised name changes nothing |
| Names.ReverseWordsSpec | app.py:134 | the reversed key has the name's words in reverse order, is itself normalised, and reversing it again gives the name back |
| Activities.RankSpec | app.py:112-121 | each of the seven listed classes gets its table rank; every other class gets 999 |
| Activities.Latest | app.py:138 | no index exactly when no activity is selected; otherwise the index is the one a stable ascending (year, month, rank) sort puts last |
| Activities.LatestIsUnique | app.py:138 | at most one activity satisfies that description, so the selection is deterministic |
| Activities.LatestIsMaximal | app.py:138 | the chosen activity has the greatest (year, month) of the selected ones, and within that month the greatest rank |
| Activities.DeliberaBeatsRichiesta | app.py:112-121 | in the same month "07 DELIBERE" is chosen over "04 RICHIESTE", in either table order |
| Activities.LaterPeriodWins | app.py:138 | of two selected activities, the one in the later month is chosen whatever their classes, in either table order |
| Activities.NeedsReassignmentSpec | app.py:139-141 | "Da riassegnare" holds exactly when the activity lies more than 2 months before the anchor; a later activity is never staler |
| Activities.StalenessBoundary | app.py:140-141 | against November 2025, September 2025 is 2 months back and labelled "No", August 2025 is 3 and labelled "Sì", November 2025 is 0 and labelled "No" |
| ClientTypes.FixTypeSpec | app.py:103-107 | `fix_tipo` output is trimmed and capitalised; it is "Amministratori" exactly when the trimmed, lower-cased input starts with "amministrator"; otherwise it is the trimmed input with only the case of its letters changed; applying it again changes nothing |
| ClientTypes.MissingTypeCell | app.py:104 | a missing type cell becomes the type "Nan" |
| ClientTypes.AdministratorsIsTidy | app.py:106 | "Amministratori" is already trimmed and capitalised and starts with "amministrator" |
| ClientTypes.SheetNameIsDatabase | app.py:245-247 | a trimmed, capitalised type is given the sheet name "Database" exactly when it is "Database" |
| ClientTypes.SheetNameOfCleanType | app.py:247 | a clean type names its own sheet, a blank one gives "Senzatipo"; two different clean types share a name only when they are "" and "Senzatipo" |
| Currency.Digits | app.py:229 | the whole-euro part n of `f"€ {float(x):,.2f}"`, before the thousands commas go in, is a non-empty digit string whose value is n and which starts with "0" only for n = 0 |
| Currency.GroupedLayout | app.py:229 | the `{:,}` numeral has a comma exactly before every group of three digits counted from the right, and starts with "0" only for 0 |
| Currency.GroupedValue | app.py:229 | dropping the commas from the `{:,}` numeral leaves plain digits whose value is n |
| Currency.FormatEuroSpec | app.py:229 | a formatted amount is "€ ", a minus for a negative amount, the whole euros grouped with points, a comma and the two-digit cents |
| Currency.SwapSeparatorsSpec | app.py:229 | the three replacements exchange every `,` with `.` and change nothing else |
| Currency.FormatEuroShape | app.py:229 | a formatted amount is "€ ", the sign, the grouped digits with points, a comma and two decimals |
| Currency.CanonicalOfFormatted | app.py:215-219 | the separator rewrite of a formatted amount is the sign, the plain digits, a point and two decimals |
| Currency.ParseSignedDecimal | app.py:220-221 | `float()` reads "sign digits.dd" as that many cents, negative with a minus |
| Currency.ReadPlainAmount | app.py:212-223 | a cell "digits,decimals" or "digits.decimals" with up to two decimals reads as that many cents |
| Currency.ReadWholeAmount | app.py:212-223 | a cell of digits alone reads as that many whole euros |
| Currency.ReadItalianAmount | app.py:212-223 | an Italian cell, the digits of n with a point between thousands, a decimal comma and up to two decimals, reads as its cents |
| Currency.FormatThenParse | app.py:212-231 | reading back a formatted amount gives the same number of cents, for every amount |
| Currency.MoneyCellIdempotent | app.py:233-235 | rewriting a rewritten money cell changes nothing |
| Reconcile.CollectRows | app.py:126-207 | the loop builds exactly the client rows in roster order followed by the orphan rows |
| Reconcile.ClientRowSpec | app.py:127-170 | a client's row copies the client's cells and type; it reports the latest direct match, else the latest reversed-name match for a non-empty name, else it is blank and flagged "Sì" |
| Reconcile.OrphanRowSpec | app.py:182-202 | an orphan group's row names the raw subject, reports the group's latest activity with its location, manager and staleness, has type "Amministratori" and blank money cells |
| Reconcile.OrphanNamesSpec | app.py:178-185 | the orphan group keys are strictly ascending and are exactly the raw subjects of activities whose name is no client's |
| Reconcile.OrphanSubjects | app.py:179 | a subject is listed exactly when some activity with that subject is unclaimed |
| Reconcile.RowCount | app.py:126-207 | the report has one row per roster client, in order, plus one per distinct orphan subject |
| Reconcile.OrphanRowsOrdered | app.py:182-186 | the orphan rows are in strictly ascending order of subject, so no subject has two, and each is an orphan subject |
| Reconcile.OrphanRowsComplete | app.py:178-186 | every orphan subject has a row after the clients' rows |
| Reconcile.ReversedMatchIsAlsoOrphan | app.py:132-179 | an activity filed under a client's reversed name still gets its own orphan row; when no activity has the client's own normalised name, the client's row reports the latest reversed-name activity, so that activity can appear in two rows |
| Partition.SortByClientSpec | app.py:248 | a sheet's rows are sorted by client and are a permutation of its group |
| Partition.PartitionKinds | app.py:246 | the sheets come in strictly ascending order of type, one for each type in the table and no other |
| Partition.PartitionSheets | app.py:246-248 | each sheet is named `SheetName` of its type, is non-empty, sorted by client, and holds exactly the rows of that type |
| Partition.PartitionMembership | app.py:246 | a row is in a sheet exactly when it is in the table and has that sheet's type |
| Partition.PartitionPreservesRows | app.py:246-248 | the sheets together hold every row of the table exactly as often as the table does |
| Partition.SheetNamesClash | app.py:247 | when all types are clean, two sheets share a name only for the types "" and "Senzatipo" |
| Report.ApplyToColumn | app.py:235 | `apply` rewrites the one column of every row and nothing else |
| Report.FormatMoneyColumns | app.py:233-235 | after the loop every row has all four money cells rewritten, in place |
| Report.ApplyAllColumns | app.py:233 | rewriting the four columns one after another rewrites the whole row |
| Report.FormatRowKeepsAmounts | app.py:233-235 | formatting changes only the money cells, and each keeps the amount it stood for |
| Report.FormatRowIdempotent | app.py:233-235 | formatting a formatted row again changes nothing |
| Report.MoneyCellKeepsAmount | app.py:212-231 | a rewritten money cell reads as the same amount, or as missing when it was missing |
| Report.ReconciledKindsTidy | app.py:102-110 | every type in the report is trimmed and capitalised |
| Report.BuildReport | app.py:123-248 | the export gives the workbook, or the error at app.py:194 or app.py:246, that `ReportOf` describes |
| Report.ReportFailures | app.py:179-246 | the export stops at app.py:194 exactly when some activity matches no client and no such activity has a subject; it stops at `groupby("Tipo")` exactly when both the roster and the log are empty |
| Report.ReportSpec | app.py:179-248 | on the app.py:194 error every unmatched activity lacks a subject; a written workbook's "Database" sheet holds every reconciled row in order, formatted, and the type sheets hold those rows exactly once each |
| Report.ReportSheetNames | app.py:245-248 | in a written workbook only the types "" and "Senzatipo" can share a sheet name, and a type sheet is named "Database" exactly when its type is "Database", which happens exactly when some row has that type |
| Report.DatabaseSheetSpec | app.py:245-247 | for a table of tidy types, a type sheet takes the name "Database" exactly when its type is "Database" |

## Left out

- Reading the two spreadsheets, the header and `skiprows` handling (app.py:88-92), the Streamlit UI, the progress bar (app.py:172-174), the Excel writer and its styling. These are I/O. The model starts from the parsed rows and ends at the workbook's contents.
- `groupby("NomeSoggetto").last()` (app.py:185) takes the last non-missing value per column. The model takes the whole last row of the group. Empty cells are `""`, not NaN, after app.py:210, but before that point a missing manager or location in the latest activity would be filled from an earlier one. That is not modelled.
- A missing "Sede" column in the activity log makes app.py:195 raise `KeyError`. The model gives every activity a location (possibly "").
- Anno/Mese are read as whole numbers. A missing year or month, which pandas turns into a float NaN and `int()` rejects, is not modelled.
- The per-type sheets in the source drop the "Tipo" column (`col_order`, app.py:238-242). The model's sheets keep whole rows and record the type once per sheet.
- Partition.SortByClientSpec: `sort_values("Cliente")` uses an unstable sort. The model sorts by insertion, which keeps table order among equal clients, and only sortedness and permutation are promised.
- Partition.SheetNamesClash: the model shows when two sheets get the same name. It does not model what openpyxl does then, nor Excel's limits on sheet-name length and characters.
- Currency.ParseCents: `float()` also accepts exponents, `inf`/`nan`, underscores between digits, and more than two decimals (which `format_euro` then rounds). The model reads only an optional sign, digits, and at most two decimals, and treats anything else as unreadable. In particular "1.234" (one point, no comma) is 1.234 euro to the source and "€ 1,23" after formatting, but unreadable ("") in the model.
- Currency.ParseCents: amounts are whole cents, which have no negative zero. "-0", "-0,00" and "€ -0,00" read as -0.0 in the source and print as "€ -0,00"; in the model they are 0 cents and print as "€ 0,00".
- Report.ReportSpec: when a type sheet is named "Database", pandas writes its header and rows into the existing whole-table sheet, over its first rows, and only one sheet of that name is saved. The model keeps the two sheets apart in `Workbook`. `Report.ReportSheetNames` states exactly when this happens.
- Text.Lower: lower-casing, `capitalize` and `isspace` follow Python only for ASCII letters and the Unicode white-space code points. Non-ASCII case mapping is not modelled.
- The reference month is a parameter (`Activities.ReferencePeriod` is November 2025, the source's constant) rather than the clock.
