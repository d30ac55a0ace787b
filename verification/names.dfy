/**
 * Name normalisation (`normalize_name`, app.py:94-97) and the word-reversed
 * key used as the second matching strategy (app.py:134).
 */
module Names {
  import opened Wrappers
  import opened Text

  /** A character a normalised name may hold: no upper-case letter and none of `.`, `*`, `,`. */
  predicate Plain(c: char) {
    !IsUpper(c) && c != '.' && c != '*' && c != ','
  }

  /** `str(x).lower().replace(".", " ").replace("*", " ").replace(",", " ")`. */
  function Fold(s: string): string {
    Replace(Replace(Replace(LowerStr(s), '.', ' '), '*', ' '), ',', ' ')
  }

  /** `normalize_name`: a missing cell gives ""; otherwise fold and collapse white space. */
  function NormalizeName(x: Option<string>): string {
    match x
    case None => ""
    case Some(s) => Join(Split(Fold(s)))
  }

  /** The shape every normalised name has. */
  predicate IsNormalized(n: string) {
    SingleSpaced(n) && forall i :: 0 <= i < |n| ==> Plain(n[i])
  }

  predicate PlainWords(ts: seq<string>) {
    Words(ts) && forall k, i :: 0 <= k < |ts| && 0 <= i < |ts[k]| ==> Plain(ts[k][i])
  }

  lemma {:induction false} FoldIsPlain(s: string)
    ensures forall i :: 0 <= i < |Fold(s)| ==> Plain(Fold(s)[i])
  {
  }

  /** Folding a string that is already plain changes nothing. */
  lemma {:induction false} FoldPlain(s: string)
    requires forall i :: 0 <= i < |s| ==> Plain(s[i])
    ensures Fold(s) == s
  {
    assert LowerStr(s) == s;
  }

  lemma {:induction false} JoinPlain(ts: seq<string>)
    requires PlainWords(ts)
    ensures forall i :: 0 <= i < |Join(ts)| ==> Plain(Join(ts)[i])
  {
    if |ts| > 1 {
      JoinPlain(ts[1..]);
      var w, j := ts[0], Join(ts[1..]);
      assert Join(ts) == w + " " + j;
      assert forall i :: |w| < i < |Join(ts)| ==> Join(ts)[i] == j[i - |w| - 1];
    }
  }

  /** The words of the folded text are plain. */
  lemma {:induction false} SplitFoldPlain(s: string)
    ensures PlainWords(Split(Fold(s)))
  {
    FoldIsPlain(s);
    var f := Fold(s);
    var ts := Split(f);
    forall k, i | 0 <= k < |ts| && 0 <= i < |ts[k]| ensures Plain(ts[k][i]) {
      var c := ts[k][i];
      assert c in f;
      var m :| 0 <= m < |f| && f[m] == c;
    }
  }

  /**
   * A normalised name is "" for a missing cell; otherwise its words are the
   * words of the lower-cased text with `.`, `*` and `,` turned into spaces, in
   * the same order. It holds no upper-case letter, no `.`, `*` or `,`, no
   * leading or trailing white space, and its only white space is single spaces
   * between words.
   */
  lemma {:induction false} NormalizeNameShape(x: Option<string>)
    ensures x.None? ==> NormalizeName(x) == ""
    ensures x.Some? ==> Split(NormalizeName(x)) == Split(Fold(x.value))
    ensures IsNormalized(NormalizeName(x))
  {
    if x.Some? {
      var ts := Split(Fold(x.value));
      SplitFoldPlain(x.value);
      JoinPlain(ts);
      JoinSingleSpaced(ts);
      SplitJoin(ts);
    }
  }

  /** Normalising a name a second time changes nothing. */
  lemma {:induction false} NormalizeNameIdempotent(x: Option<string>)
    ensures NormalizeName(Some(NormalizeName(x))) == NormalizeName(x)
  {
    if x.Some? {
      var ts := Split(Fold(x.value));
      SplitFoldPlain(x.value);
      JoinPlain(ts);
      FoldPlain(Join(ts));
      SplitJoin(ts);
    }
  }

  /** `" ".join(n.split()[::-1])`: the words of `n` in reverse order. */
  function ReverseWords(n: string): string {
    Join(Reverse(Split(n)))
  }

  /** The words of a normalised name are plain and join back to the name. */
  lemma {:induction false} NormalizedWords(x: Option<string>)
    ensures PlainWords(Split(NormalizeName(x)))
    ensures Join(Split(NormalizeName(x))) == NormalizeName(x)
  {
    if x.Some? {
      var ts := Split(Fold(x.value));
      SplitFoldPlain(x.value);
      SplitJoin(ts);
    }
  }

  /**
   * The reversed key of a normalised name is its words in reverse order, joined
   * with single spaces; it is itself a normalised name, and reversing it again
   * gives the name back.
   */
  lemma {:induction false} ReverseWordsSpec(x: Option<string>)
    ensures var n := NormalizeName(x);
      && Split(ReverseWords(n)) == Reverse(Split(n))
      && NormalizeName(Some(ReverseWords(n))) == ReverseWords(n)
      && ReverseWords(ReverseWords(n)) == n
  {
    var n := NormalizeName(x);
    var ts := Split(n);
    NormalizedWords(x);
    var rs := Reverse(ts);
    assert PlainWords(rs);
    SplitJoin(rs);
    JoinPlain(rs);
    FoldPlain(Join(rs));
    assert Reverse(rs) == ts;
  }
}
