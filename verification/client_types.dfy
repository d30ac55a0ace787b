/**
 * Client-type cleanup (`fix_tipo`, app.py:102-110) and the sheet name derived
 * from a type (app.py:247).
 */
module ClientTypes {
  import opened Wrappers
  import opened Text

  /** The fallback category, also given to every activity without a client. */
  const Administrators: string := "Amministratori"

  /** The sheet name used when a type is blank. */
  const Untyped: string := "Senzatipo"

  /** The sheet that holds the whole report table (app.py:245). */
  const DatabaseSheet: string := "Database"

  /** Python's `str(x)` of a type cell: a missing cell (NaN) prints as "nan". */
  function CellText(x: Option<string>): string {
    match x
    case None => "nan"
    case Some(s) => s
  }

  /** `s.strip().capitalize()`. */
  function Tidy(s: string): string {
    Capitalize(Strip(s))
  }

  /** `fix_tipo`. */
  function FixType(x: Option<string>): string {
    var y := Tidy(CellText(x));
    if StartsWith(LowerStr(y), "amministrator") then Administrators else y
  }

  /** The type column after app.py:102-110: cleaned up, or the fallback when the roster has no type column. */
  function ClientType(hasTypeColumn: bool, x: Option<string>): string {
    if hasTypeColumn then FixType(x) else Administrators
  }

  /** `str(tipo).strip().capitalize() or "Senzatipo"`. */
  function SheetName(kind: string): string {
    var n := Tidy(kind);
    if n == "" then Untyped else n
  }

  /** A tidy type is given the name of the whole-table sheet exactly when it is that name itself. */
  lemma {:induction false} SheetNameIsDatabase(k: string)
    requires Tidy(k) == k
    ensures SheetName(k) == DatabaseSheet <==> k == DatabaseSheet
  {
    assert Untyped != DatabaseSheet;
  }

  lemma {:induction false} CapitalizeKeepsSpaces(s: string)
    ensures |Capitalize(s)| == |s|
    ensures forall i :: 0 <= i < |s| ==> IsSpace(Capitalize(s)[i]) == IsSpace(s[i])
  {
    if s != [] {
      var c := Capitalize(s);
      forall i | 0 <= i < |s| ensures IsSpace(c[i]) == IsSpace(s[i]) {
        if i == 0 {
          assert c[0] == Upper(s[0]);
        } else {
          assert c[i] == Lower(s[i]);
        }
      }
    }
  }

  lemma {:induction false} CapitalizeIdempotent(s: string)
    ensures Capitalize(Capitalize(s)) == Capitalize(s)
  {
    if s != [] {
      var c := Capitalize(s);
      assert c[1..] == LowerStr(s[1..]);
      assert LowerStr(c[1..]) == c[1..];
    }
  }

  lemma {:induction false} LowerCapitalize(s: string)
    ensures LowerStr(Capitalize(s)) == LowerStr(s)
  {
  }

  /** A tidied string is trimmed and capitalised: tidying it again changes nothing. */
  lemma {:induction false} TidyIdempotent(s: string)
    ensures var t := Tidy(s); Strip(t) == t && Capitalize(t) == t
  {
    var w := Strip(s);
    StripSpec(s);
    CapitalizeKeepsSpaces(w);
    StripUnchanged(Capitalize(w));
    CapitalizeIdempotent(w);
  }

  lemma {:induction false} AdministratorsIsStripped()
    ensures Strip(Administrators) == Administrators
  {
    StripUnchanged(Administrators);
  }

  lemma {:induction false} AdministratorsIsCapitalized()
    ensures Capitalize(Administrators) == Administrators
  {
    assert LowerStr(Administrators[1..]) == Administrators[1..];
  }

  lemma {:induction false} AdministratorsPrefix()
    ensures StartsWith(LowerStr(Administrators), "amministrator")
  {
    assert LowerStr(Administrators)[..13] == "amministrator";
  }

  lemma {:induction false} AdministratorsIsTidy()
    ensures Strip(Administrators) == Administrators
    ensures Capitalize(Administrators) == Administrators
    ensures StartsWith(LowerStr(Administrators), "amministrator")
    ensures Tidy(Administrators) == Administrators
  {
    AdministratorsIsStripped();
    AdministratorsIsCapitalized();
    AdministratorsPrefix();
  }

  /**
   * `fix_tipo` gives a trimmed, capitalised type; it gives exactly
   * "Amministratori" if and only if the trimmed input, lower-cased, starts with
   * "amministrator"; any other type is the trimmed input with only the case
   * of its letters changed; and cleaning up its own output changes nothing.
   */
  lemma {:induction false} FixTypeSpec(x: Option<string>)
    ensures var r := FixType(x);
      && Strip(r) == r && Capitalize(r) == r
      && (r == Administrators <==> StartsWith(LowerStr(Strip(CellText(x))), "amministrator"))
      && (!StartsWith(LowerStr(Strip(CellText(x))), "amministrator") ==>
            LowerStr(r) == LowerStr(Strip(CellText(x))))
      && FixType(Some(r)) == r
  {
    var y := Tidy(CellText(x));
    TidyIdempotent(CellText(x));
    AdministratorsIsTidy();
    LowerCapitalize(Strip(CellText(x)));
    var r := FixType(x);
    assert Tidy(r) == r;
  }

  /** A missing type cell prints as "nan", so it becomes the type "Nan". */
  lemma {:induction false} MissingTypeCell()
    ensures FixType(None) == "Nan"
  {
    StripUnchanged("nan");
    assert Tidy("nan") == "Nan";
  }

  /**
   * For a type that is already trimmed and capitalised (every type the report
   * holds), the sheet is named after the type itself, or "Senzatipo" when the
   * type is blank; so two different types share a sheet name only when one is
   * "" and the other is "Senzatipo".
   */
  lemma {:induction false} SheetNameOfCleanType(k1: string, k2: string)
    requires Tidy(k1) == k1 && Tidy(k2) == k2
    ensures SheetName(k1) == (if k1 == "" then Untyped else k1)
    ensures k1 != k2 && SheetName(k1) == SheetName(k2) ==>
      (k1 == "" && k2 == Untyped) || (k1 == Untyped && k2 == "")
  {
  }
}
