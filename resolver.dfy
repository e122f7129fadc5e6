/** The hierarchy walk and the outcome for one candidate code
    (functions/index.js:104-121). */
module Resolver {
  import opened Text
  import opened CodeIndex

  /** A prefix of the cleaned code found in the index, with its description. */
  datatype Match = Match(code: string, description: string)

  /** What one candidate resolves to; both outcomes carry the cleaned code. */
  datatype Outcome =
    | Found(code: string, hierarchy: seq<Match>)
    | NotFound(code: string)

  /** `if (hsnMap.get(part))`: the code is a key whose description is not the
      empty string, which JavaScript treats as false. */
  predicate Known(index: Index, code: string) {
    code in index && index[code] != ""
  }

  /** The prefix lengths the loop `for (len = n; len >= 2; len -= 2)` visits. */
  function TestedLengths(n: int): (ls: seq<int>)
    ensures |ls| == if n < 2 then 0 else (n - 2) / 2 + 1
    ensures forall i :: 0 <= i < |ls| ==> ls[i] == n - 2 * i
    decreases n
  {
    if n < 2 then [] else [n] + TestedLengths(n - 2)
  }

  /** A length is tested exactly when it is between 2 and `n` and has the
      parity of `n`. */
  lemma TestedLengthsMembers(n: int, len: int)
    ensures len in TestedLengths(n) <==> 2 <= len <= n && (n - len) % 2 == 0
  {
    var ls := TestedLengths(n);
    if 2 <= len <= n && (n - len) % 2 == 0 {
      assert ls[(n - len) / 2] == len;
    }
  }

  /** The known prefixes of `cleaned` at the lengths `lens`, in that order. */
  function KnownPrefixes(cleaned: string, index: Index, lens: seq<int>): seq<Match>
    requires forall i :: 0 <= i < |lens| ==> 0 <= lens[i] <= |cleaned|
  {
    if lens == [] then []
    else
      var part := cleaned[..lens[0]];
      (if Known(index, part) then [Match(part, index[part])] else [])
      + KnownPrefixes(cleaned, index, lens[1..])
  }

  /** The hierarchy of `cleaned`: the known prefixes at every tested length,
      longest first. */
  function Hierarchy(cleaned: string, index: Index): seq<Match> {
    KnownPrefixes(cleaned, index, TestedLengths(|cleaned|))
  }

  /** The loop of functions/index.js:106-114. */
  method Walk(cleaned: string, index: Index) returns (hierarchy: seq<Match>)
    ensures hierarchy == Hierarchy(cleaned, index)
  {
    hierarchy := [];
    var len := |cleaned|;
    while len >= 2
      invariant len <= |cleaned|
      invariant hierarchy + KnownPrefixes(cleaned, index, TestedLengths(len)) == Hierarchy(cleaned, index)
      decreases len
    {
      var part := cleaned[..len];
      assert TestedLengths(len) == [len] + TestedLengths(len - 2);
      if part in index && index[part] != "" {
        hierarchy := hierarchy + [Match(part, index[part])];
      }
      len := len - 2;
    }
  }

  /** Every element of `KnownPrefixes` is a known prefix at one of the lengths
      with its indexed description. */
  lemma {:induction false} KnownPrefixesSound(cleaned: string, index: Index, lens: seq<int>)
    requires forall i :: 0 <= i < |lens| ==> 0 <= lens[i] <= |cleaned|
    ensures forall m :: m in KnownPrefixes(cleaned, index, lens) ==>
      |m.code| in lens && m.code == cleaned[..|m.code|] && Known(index, m.code) && m.description == index[m.code]
  {
    if lens != [] {
      KnownPrefixesSound(cleaned, index, lens[1..]);
    }
  }

  /** Every known prefix at one of the lengths is in `KnownPrefixes`. */
  lemma {:induction false} KnownPrefixesComplete(cleaned: string, index: Index, lens: seq<int>)
    requires forall i :: 0 <= i < |lens| ==> 0 <= lens[i] <= |cleaned|
    ensures forall len :: len in lens && Known(index, cleaned[..len]) ==>
      Match(cleaned[..len], index[cleaned[..len]]) in KnownPrefixes(cleaned, index, lens)
  {
    if lens != [] {
      KnownPrefixesComplete(cleaned, index, lens[1..]);
    }
  }

  /** With strictly decreasing lengths the matches are strictly decreasing in
      length too. */
  lemma {:induction false} KnownPrefixesDecreasing(cleaned: string, index: Index, lens: seq<int>)
    requires forall i :: 0 <= i < |lens| ==> 0 <= lens[i] <= |cleaned|
    requires forall i, j :: 0 <= i < j < |lens| ==> lens[i] > lens[j]
    ensures forall i, j :: 0 <= i < j < |KnownPrefixes(cleaned, index, lens)| ==>
      |KnownPrefixes(cleaned, index, lens)[i].code| > |KnownPrefixes(cleaned, index, lens)[j].code|
  {
    if lens != [] {
      var rest := KnownPrefixes(cleaned, index, lens[1..]);
      KnownPrefixesDecreasing(cleaned, index, lens[1..]);
      KnownPrefixesSound(cleaned, index, lens[1..]);
      forall j | 0 <= j < |rest| ensures |rest[j].code| < lens[0] {
        assert rest[j] in rest;
      }
    }
  }

  /** The hierarchy holds exactly the known prefixes of `cleaned` whose length
      is at least 2 and has the parity of `|cleaned|`, with their indexed
      descriptions, in strictly decreasing length. */
  lemma HierarchyShape(cleaned: string, index: Index)
    ensures forall m :: m in Hierarchy(cleaned, index) ==>
      2 <= |m.code| <= |cleaned| && (|cleaned| - |m.code|) % 2 == 0
      && m.code == cleaned[..|m.code|] && Known(index, m.code) && m.description == index[m.code]
    ensures forall len :: 2 <= len <= |cleaned| && (|cleaned| - len) % 2 == 0 && Known(index, cleaned[..len]) ==>
      Match(cleaned[..len], index[cleaned[..len]]) in Hierarchy(cleaned, index)
    ensures forall i, j :: 0 <= i < j < |Hierarchy(cleaned, index)| ==>
      |Hierarchy(cleaned, index)[i].code| > |Hierarchy(cleaned, index)[j].code|
  {
    var n := |cleaned|;
    var lens := TestedLengths(n);
    forall len ensures len in lens <==> 2 <= len <= n && (n - len) % 2 == 0 {
      TestedLengthsMembers(n, len);
    }
    KnownPrefixesSound(cleaned, index, lens);
    KnownPrefixesComplete(cleaned, index, lens);
    KnownPrefixesDecreasing(cleaned, index, lens);
  }

  /** The outcome for one candidate code (functions/index.js:105,116-120). */
  function OutcomeOf(candidate: string, index: Index): Outcome {
    var cleaned := Digits(candidate);
    var hierarchy := Hierarchy(cleaned, index);
    if |hierarchy| > 0 then Found(cleaned, hierarchy) else NotFound(cleaned)
  }

  /** Resolving one candidate: strip its non-digits, walk its prefixes. */
  method Resolve(candidate: string, index: Index) returns (outcome: Outcome)
    ensures outcome == OutcomeOf(candidate, index)
  {
    var cleaned := Digits(candidate);
    var hierarchy := Walk(cleaned, index);
    if |hierarchy| > 0 {
      outcome := Found(cleaned, hierarchy);
    } else {
      outcome := NotFound(cleaned);
    }
  }

  /** The outcome carries the cleaned candidate, and is `Found` exactly when
      some prefix of a tested length is known. */
  lemma OutcomeFoundIffKnownPrefix(candidate: string, index: Index)
    ensures OutcomeOf(candidate, index).code == Digits(candidate)
    ensures OutcomeOf(candidate, index).Found? <==>
      exists len :: 2 <= len <= |Digits(candidate)| && (|Digits(candidate)| - len) % 2 == 0
        && Known(index, Digits(candidate)[..len])
  {
    var cleaned := Digits(candidate);
    HierarchyShape(cleaned, index);
    var h := Hierarchy(cleaned, index);
    if |h| > 0 {
      assert h[0] in h;
      assert Known(index, cleaned[..|h[0].code|]);
    }
  }

  /** A cleaned code of fewer than two digits tests no prefix at all, so it is
      not found even when the index holds it. */
  lemma ShortCodeNotFound(candidate: string, index: Index)
    requires |Digits(candidate)| < 2
    ensures OutcomeOf(candidate, index) == NotFound(Digits(candidate))
  {
  }

  /** A code stored with an empty description is never reported. */
  lemma EmptyDescriptionNeverMatches(candidate: string, index: Index, code: string)
    requires code in index && index[code] == ""
    ensures forall m :: m in Hierarchy(Digits(candidate), index) ==> m.code != code
  {
    HierarchyShape(Digits(candidate), index);
  }

  /** Against the index built from no rows, every candidate is not found. */
  lemma EmptyIndexNotFound(candidate: string)
    ensures OutcomeOf(candidate, IndexOf([])) == NotFound(Digits(candidate))
  {
    OutcomeFoundIffKnownPrefix(candidate, IndexOf([]));
  }

  /** A worked case: with "123456" and "12" indexed but not "1234", the
      hierarchy lists the two known prefixes, longest first, and says nothing
      about the missing one. */
  lemma MissingIntermediatePrefixSkipped()
    ensures OutcomeOf("123456", map["123456" := "Item", "12" := "Chapter"])
      == Found("123456", [Match("123456", "Item"), Match("12", "Chapter")])
  {
    var code := "123456";
    var index := map[code := "Item", "12" := "Chapter"];
    var tail := [Match("12", "Chapter")];
    var found := [Match(code, "Item")] + tail;
    assert KnownPrefixes(code, index, [2]) == tail by {
      assert code[..2] == "12" && Known(index, "12");
      assert [2][1..] == [];
    }
    assert KnownPrefixes(code, index, [4, 2]) == tail by {
      assert code[..4] == "1234" && "1234" !in index;
      assert [4, 2][1..] == [2];
    }
    assert KnownPrefixes(code, index, [6, 4, 2]) == found by {
      assert code[..6] == code && Known(index, code);
      assert [6, 4, 2][1..] == [4, 2];
    }
    assert TestedLengths(6) == [6, 4, 2];
    assert AllDigits(code);
  }
}
