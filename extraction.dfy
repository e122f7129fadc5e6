/** Candidate extraction (functions/index.js:83-91): the `hsn-code.original`
    parameter when it is truthy, otherwise every match of `/\b\d{2,8}\b/g`
    in the user's text. */
module Extraction {
  import opened Text

  datatype Option<T> = None | Some(value: T)

  /** `\b` at position `p` of `s`: exactly one of the characters either side
      of `p` is a word character (outside the string counts as non-word). */
  predicate IsBoundary(s: string, p: nat)
    requires p <= |s|
  {
    (p > 0 && IsWordChar(s[p - 1])) != (p < |s| && IsWordChar(s[p]))
  }

  /** `\d{n}\b` matches at `p`: `n` digits follow `p`, then a boundary. */
  predicate DigitsThenBoundaryAt(s: string, p: nat, n: nat)
    requires p <= |s|
  {
    p + n <= |s| && AllDigits(s[p..p + n]) && IsBoundary(s, p + n)
  }

  /** `\d{2,m}\b` tried at `p` with greedy backtracking: the largest count of
      digits, from `m` down to 2, after which a boundary follows. */
  function DigitsThenBoundary(s: string, p: nat, m: nat): (r: Option<nat>)
    requires p <= |s|
    ensures r.Some? ==> 2 <= r.value <= m && DigitsThenBoundaryAt(s, p, r.value)
    ensures r.Some? ==> forall n :: r.value < n <= m ==> !DigitsThenBoundaryAt(s, p, n)
    ensures r.None? ==> forall n :: 2 <= n <= m ==> !DigitsThenBoundaryAt(s, p, n)
    decreases m
  {
    if m < 2 then None
    else if DigitsThenBoundaryAt(s, p, m) then Some(m)
    else DigitsThenBoundary(s, p, m - 1)
  }

  /** The length of the match of `\b\d{2,8}\b` that starts at `p`, if any. */
  function MatchAt(s: string, p: nat): Option<nat>
    requires p <= |s|
  {
    if IsBoundary(s, p) then DigitsThenBoundary(s, p, 8) else None
  }

  /** The matches of the global regular expression from `p` on: after a match
      the search resumes where it ended, otherwise one position further. */
  function RegexMatches(s: string, p: nat): seq<string>
    requires p <= |s|
    decreases |s| - p
  {
    match MatchAt(s, p)
    case Some(n) => [s[p..p + n]] + RegexMatches(s, p + n)
    case None => if p == |s| then [] else RegexMatches(s, p + 1)
  }

  /** The end of the run of word characters that starts at `p`. */
  function WordEnd(s: string, p: nat): (q: nat)
    requires p <= |s|
    ensures p <= q <= |s|
    ensures forall i :: p <= i < q ==> IsWordChar(s[i])
    ensures q == |s| || !IsWordChar(s[q])
    decreases |s| - p
  {
    if p < |s| && IsWordChar(s[p]) then WordEnd(s, p + 1) else p
  }

  /** A word that the webhook treats as a code: 2 to 8 ASCII digits. */
  predicate IsCodeWord(w: string) {
    2 <= |w| <= 8 && AllDigits(w)
  }

  /** The maximal runs of word characters from `p` on that are code words, in
      textual order. */
  function CodeWords(s: string, p: nat): (ws: seq<string>)
    requires p <= |s|
    ensures forall i :: 0 <= i < |ws| ==> IsCodeWord(ws[i])
    decreases |s| - p
  {
    if p == |s| then []
    else if !IsWordChar(s[p]) then CodeWords(s, p + 1)
    else
      var q := WordEnd(s, p);
      (if IsCodeWord(s[p..q]) then [s[p..q]] else []) + CodeWords(s, q)
  }

  /** `p` lies strictly inside a run of word characters. */
  predicate InsideWord(s: string, p: nat)
    requires p <= |s|
  {
    0 < p < |s| && IsWordChar(s[p - 1]) && IsWordChar(s[p])
  }

  /** At the start `p` of a word, `\d{n}\b` matches only when the word is
      `n` digits long: a shorter count stops inside the word, a longer one
      takes in the non-word character after it. */
  lemma DigitsThenBoundaryAtWordStart(s: string, p: nat, n: nat)
    requires p < |s| && IsWordChar(s[p]) && 1 <= n
    ensures DigitsThenBoundaryAt(s, p, n) <==>
      n == WordEnd(s, p) - p && AllDigits(s[p..WordEnd(s, p)])
  {
    var q := WordEnd(s, p);
    if n > q - p && p + n <= |s| {
      assert s[p..p + n][q - p] == s[q];
    }
    if n < q - p {
      assert IsWordChar(s[p + n - 1]) && IsWordChar(s[p + n]);
    }
  }

  /** At the start `p` of a word the regular expression matches exactly when
      the whole word is a code word, and then matches all of it. */
  lemma MatchAtWordStart(s: string, p: nat)
    requires p < |s| && IsWordChar(s[p]) && !InsideWord(s, p)
    ensures MatchAt(s, p) == if IsCodeWord(s[p..WordEnd(s, p)]) then Some(WordEnd(s, p) - p) else None
  {
    var q := WordEnd(s, p);
    assert IsBoundary(s, p);
    forall n | 1 <= n
      ensures DigitsThenBoundaryAt(s, p, n) <==> n == q - p && AllDigits(s[p..q])
    {
      DigitsThenBoundaryAtWordStart(s, p, n);
    }
    var r := DigitsThenBoundary(s, p, 8);
    if IsCodeWord(s[p..q]) {
      assert DigitsThenBoundaryAt(s, p, q - p);
    }
  }

  /** No match starts inside a word, so the search skips to the word's end. */
  lemma {:induction false} SkipInsideWord(s: string, p: nat)
    requires p <= |s| && InsideWord(s, p)
    ensures RegexMatches(s, p) == RegexMatches(s, WordEnd(s, p))
    decreases |s| - p
  {
    assert MatchAt(s, p) == None;
    if p + 1 < |s| && IsWordChar(s[p + 1]) {
      SkipInsideWord(s, p + 1);
    }
  }

  /** No match starts at a character that is not a word character: `\d`
      cannot match it. */
  lemma NoMatchAtNonWord(s: string, p: nat)
    requires p < |s| && !IsWordChar(s[p])
    ensures MatchAt(s, p) == None
  {
    forall n | 2 <= n ensures !DigitsThenBoundaryAt(s, p, n) {
      if p + n <= |s| {
        assert s[p..p + n][0] == s[p];
      }
    }
  }

  /** From the start of a code word the search yields the whole word, then
      continues at the word's end. */
  lemma RegexMatchesAtCodeWord(s: string, p: nat)
    requires p < |s| && IsWordChar(s[p]) && !InsideWord(s, p)
    requires IsCodeWord(s[p..WordEnd(s, p)])
    ensures RegexMatches(s, p) == [s[p..WordEnd(s, p)]] + RegexMatches(s, WordEnd(s, p))
  {
    MatchAtWordStart(s, p);
  }

  /** From the start of a word that is not a code word the search yields
      nothing from inside it and continues at the word's end. */
  lemma RegexMatchesAtOtherWord(s: string, p: nat)
    requires p < |s| && IsWordChar(s[p]) && !InsideWord(s, p)
    requires !IsCodeWord(s[p..WordEnd(s, p)])
    ensures RegexMatches(s, p) == RegexMatches(s, WordEnd(s, p))
  {
    var q := WordEnd(s, p);
    assert MatchAt(s, p) == None by {
      MatchAtWordStart(s, p);
    }
    if p + 1 < q {
      assert q == WordEnd(s, p + 1);
      SkipInsideWord(s, p + 1);
    }
  }

  /** The matches of `/\b\d{2,8}\b/g` are the code words, in order, with
      repetitions kept. */
  lemma {:induction false} RegexMatchesAreCodeWords(s: string, p: nat)
    requires p <= |s| && !InsideWord(s, p)
    ensures RegexMatches(s, p) == CodeWords(s, p)
    decreases |s| - p
  {
    if p == |s| {
      assert MatchAt(s, p) == None;
    } else if !IsWordChar(s[p]) {
      NoMatchAtNonWord(s, p);
      RegexMatchesAreCodeWords(s, p + 1);
    } else {
      var q := WordEnd(s, p);
      if IsCodeWord(s[p..q]) {
        RegexMatchesAtCodeWord(s, p);
      } else {
        RegexMatchesAtOtherWord(s, p);
      }
      RegexMatchesAreCodeWords(s, q);
    }
  }

  /** The candidate codes of a request (functions/index.js:83-91). An absent
      `hsn-code.original` parameter is passed as `""`, which is falsy too. */
  function Candidates(original: string, userText: string): seq<string> {
    if original != "" then [original] else RegexMatches(userText, 0)
  }

  /** A truthy parameter is the only candidate; otherwise the candidates are
      the code words of the text, each of 2 to 8 digits, in textual order. */
  lemma CandidatesAreCodeWords(original: string, userText: string)
    ensures original != "" ==> Candidates(original, userText) == [original]
    ensures original == "" ==> Candidates(original, userText) == CodeWords(userText, 0)
    ensures original == "" ==> forall i :: 0 <= i < |Candidates(original, userText)| ==>
      IsCodeWord(Candidates(original, userText)[i])
  {
    RegexMatchesAreCodeWords(userText, 0);
  }
}
