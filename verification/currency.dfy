/**
 * The money columns: `to_float_euro` (app.py:212-223) parses a cell into an
 * amount, here a whole number of cents, and `format_euro` (app.py:225-231)
 * writes it back as "€ 1.234,56".
 */
module Currency {
  import opened Wrappers
  import opened Text

  predicate IsDigit(c: char) { '0' <= c <= '9' }

  predicate AllDigits(s: string) {
    forall i :: 0 <= i < |s| ==> IsDigit(s[i])
  }

  function DigitValue(c: char): nat
    requires IsDigit(c)
  {
    c as int - '0' as int
  }

  function DigitChar(d: nat): (c: char)
    requires d < 10
    ensures IsDigit(c) && DigitValue(c) == d
  {
    ('0' as int + d) as char
  }

  /** The number a string of decimal digits denotes. */
  function Value(s: string): nat
    requires AllDigits(s)
    decreases |s|
  {
    if s == [] then 0 else Value(s[..|s| - 1]) * 10 + DigitValue(s[|s| - 1])
  }

  lemma {:induction false} ValueSnoc(s: string, c: char)
    requires AllDigits(s) && IsDigit(c)
    ensures AllDigits(s + [c]) && Value(s + [c]) == Value(s) * 10 + DigitValue(c)
  {
    assert (s + [c])[..|s|] == s;
  }

  /** `str(n)`: the decimal digits of `n`, with no leading zero. */
  function Digits(n: nat): (r: string)
    ensures r != [] && AllDigits(r) && Value(r) == n
    ensures (r[0] == '0') == (n == 0)
    ensures n < 10 ==> |r| == 1
    ensures n < 100 ==> |r| <= 2
    ensures n < 1000 ==> |r| <= 3
    decreases n
  {
    if n < 10 then
      ValueSnoc([], DigitChar(n));
      assert [] + [DigitChar(n)] == [DigitChar(n)];
      [DigitChar(n)]
    else
      var p := Digits(n / 10);
      ValueSnoc(p, DigitChar(n % 10));
      p + [DigitChar(n % 10)]
  }

  /** A number below 1000 written with exactly three digits. */
  function ThreeDigits(k: nat): (r: string)
    requires k < 1000
    ensures |r| == 3 && AllDigits(r) && Value(r) == k
  {
    var a, b, c := DigitChar(k / 100), DigitChar(k / 10 % 10), DigitChar(k % 10);
    ValueSnoc([], a);
    ValueSnoc([a], b);
    ValueSnoc([a, b], c);
    assert [] + [a] == [a] && [a] + [b] == [a, b] && [a, b] + [c] == [a, b, c];
    [a, b, c]
  }

  /** A number below 100 written with exactly two digits. */
  function TwoDigits(k: nat): (r: string)
    requires k < 100
    ensures |r| == 2 && AllDigits(r) && Value(r) == k
  {
    var a, b := DigitChar(k / 10), DigitChar(k % 10);
    ValueSnoc([], a);
    ValueSnoc([a], b);
    assert [] + [a] == [a] && [a] + [b] == [a, b];
    [a, b]
  }

  lemma {:induction false} ValueAppendThree(a: string, p: string)
    requires AllDigits(a) && AllDigits(p) && |p| == 3
    ensures AllDigits(a + p) && Value(a + p) == Value(a) * 1000 + Value(p)
  {
    ValueSnoc(a, p[0]);
    ValueSnoc(a + [p[0]], p[1]);
    ValueSnoc(a + [p[0]] + [p[1]], p[2]);
    assert a + p == a + [p[0]] + [p[1]] + [p[2]];
    ValueSnoc([], p[0]);
    ValueSnoc([p[0]], p[1]);
    ValueSnoc([p[0], p[1]], p[2]);
    assert [] + [p[0]] == [p[0]] && [p[0]] + [p[1]] == [p[0], p[1]] && [p[0], p[1]] + [p[2]] == p;
  }

  predicate DigitsAndCommas(s: string) {
    forall i :: 0 <= i < |s| ==> IsDigit(s[i]) || s[i] == ','
  }

  /** Dropping the commas around a comma-free tail. */
  lemma {:induction false} RemoveCommaBeforeTail(head: string, tail: string)
    requires ',' !in tail
    ensures RemoveChar(head + "," + tail, ',') == RemoveChar(head, ',') + tail
  {
    assert RemoveChar(head + ",", ',') == RemoveChar(head, ',') by {
      RemoveCharConcat(head, ",", ',');
      assert RemoveChar(",", ',') == [];
    }
    assert RemoveChar(tail, ',') == tail by {
      RemoveCharAbsent(tail, ',');
    }
    RemoveCharConcat(head + ",", tail, ',');
  }

  /** Appending a comma and a group of three digits to a grouped numeral multiplies its value by 1000 and adds the group. */
  lemma {:induction false} AppendGroup(head: string, tail: string)
    requires DigitsAndCommas(head) && AllDigits(RemoveChar(head, ','))
    requires AllDigits(tail) && |tail| == 3
    ensures DigitsAndCommas(head + "," + tail)
    ensures var d := RemoveChar(head, ',');
      && RemoveChar(head + "," + tail, ',') == d + tail
      && AllDigits(d + tail) && Value(d + tail) == Value(d) * 1000 + Value(tail)
  {
    assert ',' !in tail by {
      assert forall i :: 0 <= i < |tail| ==> IsDigit(tail[i]);
    }
    RemoveCommaBeforeTail(head, tail);
    ValueAppendThree(RemoveChar(head, ','), tail);
  }

  /** `f"{n:,}"`: the digits of `n` with a comma before every group of three from the right. */
  function Grouped(n: nat): (r: string)
    ensures r != [] && DigitsAndCommas(r)
    decreases n
  {
    if n < 1000 then
      var r := Digits(n);
      assert forall i :: 0 <= i < |r| ==> IsDigit(r[i]);
      r
    else
      var head, tail := Grouped(n / 1000), ThreeDigits(n % 1000);
      assert forall i :: 0 <= i < |tail| ==> IsDigit(tail[i]);
      assert forall i :: 0 <= i < |head + "," + tail| ==>
        (i < |head| ==> (head + "," + tail)[i] == head[i]) &&
        (i > |head| ==> (head + "," + tail)[i] == tail[i - |head| - 1]);
      head + "," + tail
  }

  /** Dropping the commas from `f"{n:,}"` leaves the plain digits of `n`. */
  lemma {:induction false} GroupedValue(n: nat)
    ensures var d := RemoveChar(Grouped(n), ','); d != [] && AllDigits(d) && Value(d) == n
    decreases n
  {
    if n < 1000 {
      var r := Digits(n);
      assert ',' !in r;
      RemoveCharAbsent(r, ',');
    } else {
      var head, tail := Grouped(n / 1000), ThreeDigits(n % 1000);
      GroupedValue(n / 1000);
      AppendGroup(head, tail);
      assert Grouped(n) == head + "," + tail;
    }
  }

  /**
   * The layout of `f"{n:,}"`: counting from the right, every fourth character
   * is a comma and the others are digits, so the leftmost group has one to
   * three digits and every comma is followed by exactly three.
   */
  predicate ThousandsLayout(r: string) {
    && |r| % 4 != 0
    && DigitsAndCommas(r)
    && forall i :: 0 <= i < |r| ==> (r[i] == ',' <==> (|r| - i) % 4 == 0)
  }

  /** One to three digits alone are laid out as a grouped numeral. */
  lemma {:induction false} ShortLayout(d: string)
    requires AllDigits(d) && 1 <= |d| <= 3
    ensures ThousandsLayout(d)
  {
    forall i | 0 <= i < |d| ensures (d[i] == ',' <==> (|d| - i) % 4 == 0) {
      assert IsDigit(d[i]);
    }
  }

  /** A comma and a group of three digits keep the layout. */
  lemma {:induction false} AppendLayout(head: string, tail: string)
    requires ThousandsLayout(head) && AllDigits(tail) && |tail| == 3
    ensures ThousandsLayout(head + "," + tail)
  {
    var r := head + "," + tail;
    assert |r| == |head| + 4;
    forall i | 0 <= i < |r| ensures IsDigit(r[i]) || r[i] == ',' {
      if i < |head| {
        assert r[i] == head[i];
      } else if i > |head| {
        assert r[i] == tail[i - |head| - 1];
      }
    }
    forall i | 0 <= i < |r| ensures (r[i] == ',' <==> (|r| - i) % 4 == 0) {
      if i < |head| {
        assert r[i] == head[i];
        assert |r| - i == (|head| - i) + 4;
      } else if i > |head| {
        assert r[i] == tail[i - |head| - 1];
        assert IsDigit(tail[i - |head| - 1]);
        assert 1 <= |r| - i <= 3;
      }
    }
  }

  /** The grouped numeral has the thousands layout and no leading zero. */
  lemma {:induction false} GroupedLayout(n: nat)
    ensures ThousandsLayout(Grouped(n))
    ensures (Grouped(n)[0] == '0') == (n == 0)
    decreases n
  {
    if n < 1000 {
      ShortLayout(Digits(n));
    } else {
      var head, tail := Grouped(n / 1000), ThreeDigits(n % 1000);
      GroupedLayout(n / 1000);
      AppendLayout(head, tail);
      assert Grouped(n) == head + "," + tail;
      assert Grouped(n)[0] == head[0];
    }
  }

  /** `f"€ {v:,.2f}"` for the amount of `c` cents. */
  function EnglishFormat(c: int): string {
    var m := if c < 0 then -c else c;
    "€ " + (if c < 0 then "-" else "") + Grouped(m / 100) + "." + TwoDigits(m % 100)
  }

  /** `.replace(",", "X").replace(".", ",").replace("X", ".")`. */
  function SwapSeparators(s: string): string {
    Replace(Replace(Replace(s, ',', 'X'), '.', ','), 'X', '.')
  }

  function SwapChar(c: char): char {
    if c == ',' then '.' else if c == '.' then ',' else c
  }

  /** On text without an `X`, the three replacements exchange every `,` with `.` and leave every other character alone. */
  lemma {:induction false} SwapSeparatorsSpec(s: string)
    requires 'X' !in s
    ensures |SwapSeparators(s)| == |s|
    ensures forall i :: 0 <= i < |s| ==> SwapSeparators(s)[i] == SwapChar(s[i])
  {
  }

  /** `format_euro`: a missing amount is "", any other is written Italian-style. */
  function FormatEuro(v: Option<int>): string {
    match v
    case None => ""
    case Some(c) => SwapSeparators(EnglishFormat(c))
  }

  /** The separator rewrite of app.py:215-219 before `float()`. */
  function CanonicalAmount(s: string): string {
    SeparatorRule(RemoveChar(RemoveChar(s, '€'), ' '))
  }

  /** With both separators present the points are thousands marks and the comma the decimal mark; a lone comma is the decimal mark. */
  function SeparatorRule(t: string): string {
    if ',' in t && '.' in t then Replace(RemoveChar(t, '.'), ',', '.')
    else if ',' in t then Replace(t, ',', '.')
    else t
  }

  function IndexOf(s: string, c: char): (k: nat)
    requires c in s
    ensures k < |s| && s[k] == c && c !in s[..k]
  {
    if s[0] == c then 0 else 1 + IndexOf(s[1..], c)
  }

  /** `float()` of an unsigned decimal with at most two decimals, in cents. */
  function ParseUnsignedCents(s: string): Option<nat> {
    if '.' !in s then
      if s != [] && AllDigits(s) then Some(Value(s) * 100) else None
    else
      var d := IndexOf(s, '.');
      var whole, frac := s[..d], s[d + 1..];
      if AllDigits(whole) && AllDigits(frac) && |frac| <= 2 && |whole| + |frac| > 0 then
        Some(Value(whole) * 100 + Decimals(frac))
      else None
  }

  /** The cents that up to two decimals stand for: "5" is 50, "05" is 5, "" is 0. */
  function Decimals(t: string): nat
    requires AllDigits(t) && |t| <= 2
  {
    if |t| == 2 then Value(t) else Value(t) * 10
  }

  /** `float(t)` in cents: surrounding white space, an optional sign, then the decimal. */
  function ParseCents(t: string): Option<int> {
    var s := Strip(t);
    if s != [] && (s[0] == '-' || s[0] == '+') then
      match ParseUnsignedCents(s[1..])
      case None => None
      case Some(v) => Some(if s[0] == '-' then -(v as int) else v as int)
    else
      match ParseUnsignedCents(s)
      case None => None
      case Some(v) => Some(v)
  }

  /** `to_float_euro`: a blank cell is missing; otherwise the rewritten text is parsed, and missing if it does not parse. */
  function ToCents(x: string): Option<int> {
    if Strip(x) == "" then None else ParseCents(CanonicalAmount(x))
  }

  /** What app.py:235 writes into a money cell. */
  function MoneyCell(x: string): string {
    FormatEuro(ToCents(x))
  }

  lemma {:induction false} SwapConcat(a: string, b: string)
    ensures SwapSeparators(a + b) == SwapSeparators(a) + SwapSeparators(b)
  {
  }

  lemma {:induction false} SwapDigits(t: string)
    requires AllDigits(t)
    ensures SwapSeparators(t) == t
  {
    assert forall i :: 0 <= i < |t| ==> IsDigit(t[i]);
  }

  lemma {:induction false} SwapGrouped(g: string)
    requires DigitsAndCommas(g)
    ensures SwapSeparators(g) == Replace(g, ',', '.')
  {
    assert forall i :: 0 <= i < |g| ==> IsDigit(g[i]) || g[i] == ',';
  }

  /** The separator exchange on "€ <sign><grouped digits>.<decimals>". */
  lemma {:induction false} SwapShape(sign: string, g: string, t: string)
    requires sign == "" || sign == "-"
    requires DigitsAndCommas(g) && AllDigits(t)
    ensures SwapSeparators("€ " + sign + g + "." + t) == "€ " + sign + Replace(g, ',', '.') + "," + t
  {
    SwapConcat("€ " + sign + g + ".", t);
    SwapConcat("€ " + sign + g, ".");
    SwapConcat("€ " + sign, g);
    SwapConcat("€ ", sign);
    SwapDigits(t);
    SwapGrouped(g);
    assert SwapSeparators(".") == ",";
    assert SwapSeparators(sign) == sign;
    assert SwapSeparators("€ ") == "€ ";
  }

  /** The formatted amount, with the separators already exchanged. */
  lemma {:induction false} FormatEuroShape(c: int)
    ensures var m := if c < 0 then -c else c;
            var g := Grouped(m / 100);
      FormatEuro(Some(c)) == "€ " + (if c < 0 then "-" else "") + Replace(g, ',', '.') + "," + TwoDigits(m % 100)
  {
    var m := if c < 0 then -c else c;
    var sign: string := if c < 0 then "-" else "";
    var g, t := Grouped(m / 100), TwoDigits(m % 100);
    assert EnglishFormat(c) == "€ " + sign + g + "." + t;
    SwapShape(sign, g, t);
  }

  /** Dropping the euro sign and the space in front of text that has neither. */
  lemma {:induction false} DropCurrencyPrefix(w: string)
    requires '€' !in w && ' ' !in w
    ensures RemoveChar(RemoveChar("€ " + w, '€'), ' ') == w
  {
    RemoveCharConcat("€ ", w, '€');
    RemoveCharAbsent(w, '€');
    assert RemoveChar("€ ", '€') == " ";
    RemoveCharConcat(" ", w, ' ');
    RemoveCharAbsent(w, ' ');
    assert RemoveChar(" ", ' ') == [];
  }

  /** The one comma of a text becomes a point. */
  lemma {:induction false} ReplaceSoleComma(p: string, q: string)
    requires ',' !in p && ',' !in q
    ensures Replace(p + "," + q, ',', '.') == p + "." + q
  {
    var s := p + "," + q;
    assert forall i :: 0 <= i < |p| ==> s[i] == p[i];
    assert forall i :: |p| < i < |s| ==> s[i] == q[i - |p| - 1];
  }

  /** Dropping the points of "<sign><grouped digits with points>,<decimals>". */
  lemma {:induction false} RemoveGroupingPoints(sign: string, g: string, t: string)
    requires '.' !in sign && '.' !in t
    requires DigitsAndCommas(g)
    ensures RemoveChar(sign + Replace(g, ',', '.') + "," + t, '.') == sign + RemoveChar(g, ',') + "," + t
  {
    var g' := Replace(g, ',', '.');
    RemoveCharConcat(sign + g' + ",", t, '.');
    RemoveCharConcat(sign + g', ",", '.');
    RemoveCharConcat(sign, g', '.');
    RemoveCharAbsent(t, '.');
    RemoveCharAbsent(sign, '.');
    assert RemoveChar(",", '.') == ",";
    RemoveDotsOfGrouped(g);
  }

  /** A grouped numeral whose commas became points has no commas. */
  lemma {:induction false} NoCommaAfterReplace(g: string)
    ensures ',' !in Replace(g, ',', '.')
  {
    var g' := Replace(g, ',', '.');
    assert forall i :: 0 <= i < |g'| ==> g'[i] != ',';
  }

  /** A grouped numeral without points had no commas to begin with. */
  lemma {:induction false} UngroupedNumeral(g: string)
    requires '.' !in Replace(g, ',', '.')
    ensures Replace(g, ',', '.') == g && RemoveChar(g, ',') == g
  {
    var g' := Replace(g, ',', '.');
    forall i | 0 <= i < |g| ensures g[i] != ',' {
      assert g'[i] != '.';
    }
    RemoveCharAbsent(g, ',');
  }

  /** The separator rule turns "<sign><grouped digits with points>,<decimals>" into "<sign><digits>.<decimals>". */
  lemma {:induction false} SeparatorRuleOfFormatted(sign: string, g: string, t: string)
    requires sign == "" || sign == "-"
    requires DigitsAndCommas(g)
    requires AllDigits(t)
    ensures SeparatorRule(sign + Replace(g, ',', '.') + "," + t) == sign + RemoveChar(g, ',') + "." + t
  {
    var g' := Replace(g, ',', '.');
    var d := RemoveChar(g, ',');
    var w := sign + g' + "," + t;
    assert w[|sign| + |g'|] == ',';
    NoCommaAfterReplace(g);
    assert '.' !in t && ',' !in t by {
      assert forall i :: 0 <= i < |t| ==> IsDigit(t[i]);
    }
    if '.' in w {
      RemoveGroupingPoints(sign, g, t);
      assert ',' !in sign + d by {
        RemoveCharRemoves(g, ',');
      }
      ReplaceSoleComma(sign + d, t);
    } else {
      assert '.' !in g';
      UngroupedNumeral(g);
      ReplaceSoleComma(sign + g, t);
    }
  }

  lemma {:induction false} ConcatAssoc(a: string, b: string, c: string, e: string)
    ensures a + b + c + e == a + (b + c + e)
  {
  }

  /** The whole separator rewrite of "€ <sign><grouped digits with points>,<decimals>". */
  lemma {:induction false} CanonicalOfShape(sign: string, g: string, t: string)
    requires sign == "" || sign == "-"
    requires DigitsAndCommas(g)
    requires AllDigits(t)
    ensures CanonicalAmount("€ " + sign + Replace(g, ',', '.') + "," + t) == sign + (RemoveChar(g, ',') + "." + t)
  {
    var w := sign + Replace(g, ',', '.') + "," + t;
    assert "€ " + sign + Replace(g, ',', '.') + "," + t == "€ " + w;
    NoCommaAfterReplace(g);
    assert forall i :: 0 <= i < |w| ==> w[i] != '€' && w[i] != ' ' by {
      assert forall i :: 0 <= i < |g| ==> Replace(g, ',', '.')[i] != '€' && Replace(g, ',', '.')[i] != ' ';
      assert forall i :: 0 <= i < |t| ==> IsDigit(t[i]);
    }
    DropCurrencyPrefix(w);
    SeparatorRuleOfFormatted(sign, g, t);
    ConcatAssoc(sign, RemoveChar(g, ','), ".", t);
  }

  /** What `float()` is given for a formatted amount: the sign, the plain digits, a point and two decimals. */
  lemma {:induction false} CanonicalOfFormatted(c: int)
    ensures var m := if c < 0 then -c else c;
            var d := RemoveChar(Grouped(m / 100), ',');
      CanonicalAmount(FormatEuro(Some(c))) == (if c < 0 then "-" else "") + (d + "." + TwoDigits(m % 100))
  {
    var m := if c < 0 then -c else c;
    FormatEuroShape(c);
    CanonicalOfShape(if c < 0 then "-" else "", Grouped(m / 100), TwoDigits(m % 100));
  }

  /** Turning the commas of a digits-and-commas string into points and then dropping the points drops the commas. */
  lemma {:induction false} RemoveDotsOfGrouped(g: string)
    requires DigitsAndCommas(g)
    ensures RemoveChar(Replace(g, ',', '.'), '.') == RemoveChar(g, ',')
  {
    if g != [] {
      assert Replace(g, ',', '.') == [if g[0] == ',' then '.' else g[0]] + Replace(g[1..], ',', '.');
      RemoveDotsOfGrouped(g[1..]);
    }
  }

  /** In "<digits>.<decimals>" the first point is the one after the digits. */
  lemma {:induction false} DecimalPoint(d: string, t: string)
    requires AllDigits(d)
    ensures var u := d + "." + t;
      '.' in u && IndexOf(u, '.') == |d| && u[..|d|] == d && u[|d| + 1..] == t
  {
    var u := d + "." + t;
    assert u[|d|] == '.' && u[..|d|] == d;
    assert '.' !in d by {
      assert forall i :: 0 <= i < |d| ==> IsDigit(d[i]);
    }
    assert u[|d| + 1..] == t;
  }

  /** `float()` reads "<digits>.<two digits>" as that many cents. */
  lemma {:induction false} ParseUnsignedDecimal(d: string, t: string)
    requires d != [] && AllDigits(d) && AllDigits(t) && |t| == 2
    ensures var u := d + "." + t;
      && IsDigit(u[0]) && IsDigit(u[|u| - 1])
      && ParseUnsignedCents(u) == Some(Value(d) * 100 + Value(t))
  {
    DecimalPoint(d, t);
  }

  /** `float()` of an unsigned decimal that needs no stripping. */
  lemma {:induction false} ParseUnsigned(u: string, v: nat)
    requires u != [] && !IsSpace(u[0]) && !IsSpace(u[|u| - 1]) && u[0] != '-' && u[0] != '+'
    requires ParseUnsignedCents(u) == Some(v)
    ensures ParseCents(u) == Some(v)
  {
    StripUnchanged(u);
  }

  lemma {:induction false} TailOfCons(c: char, u: string)
    ensures ([c] + u)[1..] == u
  {
  }

  /** `float()` of a minus sign before an unsigned decimal. */
  lemma {:induction false} ParseNegative(u: string, v: nat)
    requires u != [] && !IsSpace(u[|u| - 1]) && u[0] != '-' && u[0] != '+'
    requires ParseUnsignedCents(u) == Some(v)
    ensures ParseCents("-" + u) == Some(-(v as int))
  {
    var s := "-" + u;
    assert Strip(s) == s by {
      assert s[|s| - 1] == u[|u| - 1];
      StripUnchanged(s);
    }
    TailOfCons('-', u);
  }

  /** `float()` of an unsigned decimal, with or without a leading minus. */
  lemma {:induction false} ParseWithSign(neg: bool, u: string, v: nat)
    requires u != [] && !IsSpace(u[0]) && !IsSpace(u[|u| - 1]) && u[0] != '-' && u[0] != '+'
    requires ParseUnsignedCents(u) == Some(v)
    ensures ParseCents((if neg then "-" else "") + u) == Some(if neg then -(v as int) else v as int)
  {
    if neg {
      ParseNegative(u, v);
    } else {
      ParseUnsigned(u, v);
      assert "" + u == u;
    }
  }

  /** A formatted amount is not blank: it starts with the euro sign. */
  lemma {:induction false} FormattedNotBlank(c: int)
    ensures Strip(FormatEuro(Some(c))) != ""
  {
    var s := FormatEuro(Some(c));
    FormatEuroShape(c);
    assert s[0] == '€';
    StripSpec(s);
  }

  /** `float()` reads "<sign><digits>.<two digits>" back as the amount. */
  lemma {:induction false} ParseSignedDecimal(neg: bool, d: string, t: string, m: nat)
    requires d != [] && AllDigits(d) && AllDigits(t) && |t| == 2
    requires Value(d) * 100 + Value(t) == m
    ensures ParseCents((if neg then "-" else "") + (d + "." + t)) == Some(if neg then -(m as int) else m as int)
  {
    var u := d + "." + t;
    ParseUnsignedDecimal(d, t);
    assert u != [];
    assert !IsSpace(u[0]);
    assert !IsSpace(u[|u| - 1]);
    assert u[0] != '-' && u[0] != '+';
    assert ParseUnsignedCents(u) == Some(m);
    ParseWithSign(neg, u, m);
  }

  /** `float()` of the rewritten formatted amount is the amount. */
  lemma {:induction false} ParseOfFormatted(c: int)
    ensures ParseCents(CanonicalAmount(FormatEuro(Some(c)))) == Some(c)
  {
    var m := if c < 0 then -c else c;
    var d, t := RemoveChar(Grouped(m / 100), ','), TwoDigits(m % 100);
    GroupedValue(m / 100);
    CanonicalOfFormatted(c);
    assert Value(d) * 100 + Value(t) == m by { DivMod100(m); }
    ParseSignedDecimal(c < 0, d, t, m);
  }

  lemma {:induction false} DivMod100(m: nat)
    ensures m / 100 * 100 + m % 100 == m
  {
  }

  /** Parsing a formatted amount gives the amount back, for every whole number of cents. */
  lemma {:induction false} FormatThenParse(c: int)
    ensures ToCents(FormatEuro(Some(c))) == Some(c)
  {
    FormattedNotBlank(c);
    ParseOfFormatted(c);
  }

  /** Re-running the money conversion on its own output changes nothing. */
  lemma {:induction false} MoneyCellIdempotent(x: string)
    ensures MoneyCell(MoneyCell(x)) == MoneyCell(x)
  {
    match ToCents(x)
    case None =>
      StripUnchanged("");
    case Some(c) =>
      FormatThenParse(c);
  }

  /** The formatted amount: its grouped digits have the thousands layout, no leading zero, and stand for the whole euros. */
  lemma {:induction false} FormatEuroSpec(c: int)
    ensures var m := if c < 0 then -c else c;
            var g := Grouped(m / 100);
      && FormatEuro(Some(c)) == "€ " + (if c < 0 then "-" else "") + Replace(g, ',', '.') + "," + TwoDigits(m % 100)
      && ThousandsLayout(g) && (g[0] == '0' <==> m < 100)
      && AllDigits(RemoveChar(g, ',')) && Value(RemoveChar(g, ',')) == m / 100
      && Value(TwoDigits(m % 100)) == m % 100
  {
    var m := if c < 0 then -c else c;
    FormatEuroShape(c);
    GroupedLayout(m / 100);
    GroupedValue(m / 100);
  }

  /** Text made of digits and separators only. */
  predicate Numeric(x: string) {
    forall i :: 0 <= i < |x| ==> IsDigit(x[i]) || x[i] == ',' || x[i] == '.'
  }

  /** Numeric text has no euro sign or space to drop, and is not blank when it starts with a digit. */
  lemma {:induction false} NumericCell(x: string)
    requires Numeric(x) && x != [] && IsDigit(x[0])
    ensures CanonicalAmount(x) == SeparatorRule(x)
    ensures Strip(x) != ""
  {
    assert '€' !in x && ' ' !in x by {
      assert forall i :: 0 <= i < |x| ==> IsDigit(x[i]) || x[i] == ',' || x[i] == '.';
    }
    RemoveCharAbsent(x, '€');
    RemoveCharAbsent(x, ' ');
    StripSpec(x);
  }

  /** `float()` of "<digits>.<up to two digits>". */
  lemma {:induction false} ParsePlainDecimal(d: string, t: string, m: nat)
    requires d != [] && AllDigits(d) && AllDigits(t) && |t| <= 2
    requires Value(d) * 100 + Decimals(t) == m
    ensures ParseCents(d + "." + t) == Some(m)
  {
    UnsignedPlainDecimal(d, t);
    ParseUnsigned(d + "." + t, m);
  }

  lemma {:induction false} UnsignedPlainDecimal(d: string, t: string)
    requires d != [] && AllDigits(d) && AllDigits(t) && |t| <= 2
    ensures var u := d + "." + t;
      && !IsSpace(u[0]) && !IsSpace(u[|u| - 1]) && u[0] != '-' && u[0] != '+'
      && ParseUnsignedCents(u) == Some(Value(d) * 100 + Decimals(t))
  {
    var u := d + "." + t;
    DecimalPoint(d, t);
    assert IsDigit(u[0]);
    assert u[|u| - 1] == '.' || IsDigit(u[|u| - 1]);
  }

  lemma {:induction false} DigitsNumeric(d: string, sep: char, t: string)
    requires AllDigits(d) && AllDigits(t) && (sep == ',' || sep == '.')
    ensures Numeric(d + [sep] + t)
    ensures ',' !in d && '.' !in d && ',' !in t && '.' !in t
  {
    assert forall i :: 0 <= i < |d| ==> IsDigit(d[i]);
    assert forall i :: 0 <= i < |t| ==> IsDigit(t[i]);
  }

  /**
   * A plain cell with one decimal separator, comma ("1234,5") or point
   * ("1234.56"), and up to two decimals reads as its cents.
   */
  lemma {:induction false} ReadPlainAmount(d: string, sep: char, t: string)
    requires d != [] && AllDigits(d) && AllDigits(t) && |t| <= 2
    requires sep == ',' || sep == '.'
    ensures ToCents(d + [sep] + t) == Some(Value(d) * 100 + Decimals(t))
  {
    PlainCanonical(d, sep, t);
    if sep == ',' {
      ReadParsed(d + "," + t, d, t, Value(d) * 100 + Decimals(t));
    } else {
      ReadParsed(d + "." + t, d, t, Value(d) * 100 + Decimals(t));
    }
  }

  /** A plain cell is not blank, and its separator becomes the decimal point. */
  lemma {:induction false} PlainCanonical(d: string, sep: char, t: string)
    requires d != [] && AllDigits(d) && AllDigits(t)
    requires sep == ',' || sep == '.'
    ensures Strip(d + [sep] + t) != "" && CanonicalAmount(d + [sep] + t) == d + "." + t
  {
    var x := d + [sep] + t;
    DigitsNumeric(d, sep, t);
    assert IsDigit(x[0]);
    NumericCell(x);
    assert x[|d|] == sep;
    if sep == ',' {
      assert '.' !in x;
      assert SeparatorRule(x) == d + "." + t by {
        ReplaceSoleComma(d, t);
      }
    } else {
      assert ',' !in x;
      assert SeparatorRule(x) == d + "." + t;
    }
  }

  /** A cell with no decimals, "1234", reads as that many whole euros. */
  lemma {:induction false} ReadWholeAmount(d: string)
    requires d != [] && AllDigits(d)
    ensures ToCents(d) == Some(Value(d) * 100)
  {
    assert Numeric(d) && ',' !in d && '.' !in d by {
      assert forall i :: 0 <= i < |d| ==> IsDigit(d[i]);
    }
    NumericCell(d);
    assert ParseUnsignedCents(d) == Some(Value(d) * 100);
    assert !IsSpace(d[0]) && !IsSpace(d[|d| - 1]) && d[0] != '-' && d[0] != '+' by {
      assert IsDigit(d[0]) && IsDigit(d[|d| - 1]);
    }
    ParseUnsigned(d, Value(d) * 100);
  }

  lemma {:induction false} ItalianNotBlank(g: string, t: string)
    requires g != [] && IsDigit(g[0])
    ensures Strip(Replace(g, ',', '.') + "," + t) != ""
  {
    var w := Replace(g, ',', '.') + "," + t;
    assert w[0] == g[0];
    StripSpec(w);
  }

  /** A cell with neither a euro sign nor a space is canonicalised by the separator rule alone. */
  lemma {:induction false} CanonicalOfPlain(w: string)
    requires '€' !in w && ' ' !in w
    ensures CanonicalAmount(w) == SeparatorRule(w)
  {
    RemoveCharAbsent(w, '€');
    RemoveCharAbsent(w, ' ');
  }

  lemma {:induction false} CanonicalOfItalian(g: string, t: string)
    requires DigitsAndCommas(g) && AllDigits(t)
    ensures CanonicalAmount(Replace(g, ',', '.') + "," + t) == RemoveChar(g, ',') + "." + t
  {
    var w := Replace(g, ',', '.') + "," + t;
    ItalianHasNoSignOrSpace(g, t);
    CanonicalOfPlain(w);
    ItalianSeparators(w, g, t);
  }

  lemma {:induction false} ItalianHasNoSignOrSpace(g: string, t: string)
    requires DigitsAndCommas(g) && AllDigits(t)
    ensures var w := Replace(g, ',', '.') + "," + t; '€' !in w && ' ' !in w
  {
    var w := Replace(g, ',', '.') + "," + t;
    ItalianNumeric(g, t);
    assert forall i :: 0 <= i < |w| ==> IsDigit(w[i]) || w[i] == ',' || w[i] == '.';
  }

  lemma {:induction false} ItalianSeparators(w: string, g: string, t: string)
    requires w == Replace(g, ',', '.') + "," + t
    requires DigitsAndCommas(g) && AllDigits(t)
    ensures SeparatorRule(w) == RemoveChar(g, ',') + "." + t
  {
    SeparatorRuleOfFormatted("", g, t);
    assert "" + Replace(g, ',', '.') + "," + t == w;
    assert "" + RemoveChar(g, ',') + "." + t == RemoveChar(g, ',') + "." + t;
  }

  lemma {:induction false} ItalianNumeric(g: string, t: string)
    requires DigitsAndCommas(g) && AllDigits(t)
    ensures var x := Replace(g, ',', '.') + "," + t;
      Numeric(x) && (g != [] && IsDigit(g[0]) ==> IsDigit(x[0]))
  {
    var g' := Replace(g, ',', '.');
    var x := g' + "," + t;
    forall i | 0 <= i < |x| ensures IsDigit(x[i]) || x[i] == ',' || x[i] == '.' {
      if i < |g'| {
        assert x[i] == g'[i];
        assert IsDigit(g[i]) || g[i] == ',';
      } else if i > |g'| {
        assert x[i] == t[i - |g'| - 1];
        assert IsDigit(t[i - |g'| - 1]);
      }
    }
  }

  /** An Italian cell "1.234.567,8": the digits of `n` with a point between thousands, a decimal comma
      and up to two decimals, reads as its cents. */
  lemma {:induction false} ReadItalianAmount(n: nat, t: string)
    requires AllDigits(t) && |t| <= 2
    ensures ToCents(Replace(Grouped(n), ',', '.') + "," + t) == Some(n * 100 + Decimals(t))
  {
    var d := ItalianCanonical(n, t);
    ReadParsed(Replace(Grouped(n), ',', '.') + "," + t, d, t, n * 100 + Decimals(t));
  }

  /** The digits `d` that an Italian cell for `n` is canonicalised to. */
  lemma {:induction false} ItalianCanonical(n: nat, t: string) returns (d: string)
    requires AllDigits(t)
    ensures var x := Replace(Grouped(n), ',', '.') + "," + t;
      && d != [] && AllDigits(d) && Value(d) == n
      && Strip(x) != "" && CanonicalAmount(x) == d + "." + t
  {
    var g := Grouped(n);
    d := RemoveChar(g, ',');
    GroupedValue(n);
    assert IsDigit(g[0]) by {
      GroupedLayout(n);
    }
    ItalianNotBlank(g, t);
    CanonicalOfItalian(g, t);
  }

  /** A cell whose canonical form is "<digits>.<up to two digits>" reads as those cents. */
  lemma {:induction false} ReadParsed(x: string, d: string, t: string, m: nat)
    requires Strip(x) != "" && CanonicalAmount(x) == d + "." + t
    requires d != [] && AllDigits(d) && AllDigits(t) && |t| <= 2
    requires Value(d) * 100 + Decimals(t) == m
    ensures ToCents(x) == Some(m)
  {
    ParsePlainDecimal(d, t, m);
  }
}
