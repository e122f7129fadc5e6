/** The code-resolving part of the `/webhook` handler
    (functions/index.js:83-123): one rendered outcome per candidate, joined
    by a blank line, followed by a fixed closing line. */
module Webhook {
  import opened Text
  import opened CodeIndex
  import opened Extraction
  import opened Resolver

  const FoundMark := "✅ HSN Code "
  const FoundTail := " is valid."
  const MatchMark := "📘 "
  const NotFoundMark := "❌ HSN Code "
  const NotFoundTail := " not found in the master data."
  const Trailer := "💬 Want to check another one?"
  const LineSeparator := "\n"
  const BlankLine := "\n\n"

  /** `Array.prototype.join`. */
  function Join(parts: seq<string>, sep: string): string {
    if parts == [] then ""
    else if |parts| == 1 then parts[0]
    else parts[0] + sep + Join(parts[1..], sep)
  }

  /** Joining two non-empty lists puts one separator between their joins. */
  lemma {:induction false} JoinAppend(a: seq<string>, b: seq<string>, sep: string)
    requires a != [] && b != []
    ensures Join(a + b, sep) == Join(a, sep) + sep + Join(b, sep)
  {
    if |a| == 1 {
      assert (a + b)[1..] == b;
    } else {
      assert (a + b)[1..] == a[1..] + b;
      JoinAppend(a[1..], b, sep);
    }
  }

  /** One hierarchy line, `📘 ${part}: ${desc}` (functions/index.js:112). */
  function RenderMatch(m: Match): string {
    MatchMark + m.code + ": " + m.description
  }

  function RenderMatches(ms: seq<Match>): (lines: seq<string>)
    ensures |lines| == |ms|
  {
    if ms == [] then [] else [RenderMatch(ms[0])] + RenderMatches(ms[1..])
  }

  /** The text pushed onto `responses` for an outcome
      (functions/index.js:116-120). */
  function Render(o: Outcome): string {
    match o
    case Found(code, hierarchy) =>
      FoundMark + code + FoundTail + LineSeparator + Join(RenderMatches(hierarchy), LineSeparator)
    case NotFound(code) => NotFoundMark + code + NotFoundTail
  }

  /** The text of an outcome begins with its marker and the cleaned code, so
      a reader can tell `Found` from `NotFound` and recover the code. */
  lemma RenderStartsWithMarkAndCode(o: Outcome)
    ensures var mark := if o.Found? then FoundMark else NotFoundMark;
      |mark| + |o.code| <= |Render(o)|
      && Render(o)[..|mark|] == mark
      && Render(o)[|mark|..|mark| + |o.code|] == o.code
    ensures FoundMark != NotFoundMark
  {
    var mark := if o.Found? then FoundMark else NotFoundMark;
    var r := Render(o);
    var rest := r[|mark| + |o.code|..];
    assert r == mark + o.code + rest;
    assert FoundMark[0] != NotFoundMark[0];
  }

  /** The responses for the candidates, one per candidate, in order. */
  function Responses(candidates: seq<string>, index: Index): (rs: seq<string>)
    ensures |rs| == |candidates|
  {
    if candidates == [] then []
    else Responses(candidates[..|candidates| - 1], index) + [Render(OutcomeOf(candidates[|candidates| - 1], index))]
  }

  lemma ResponsesSnoc(candidates: seq<string>, i: nat, index: Index)
    requires i < |candidates|
    ensures Responses(candidates[..i + 1], index) ==
      Responses(candidates[..i], index) + [Render(OutcomeOf(candidates[i], index))]
  {
    assert candidates[..i + 1][..i] == candidates[..i];
  }

  /** Exactly one response per candidate, in candidate order. */
  lemma {:induction false} ResponsesAt(candidates: seq<string>, i: nat, index: Index)
    requires i < |candidates|
    ensures Responses(candidates, index)[i] == Render(OutcomeOf(candidates[i], index))
  {
    if i < |candidates| - 1 {
      var init := candidates[..|candidates| - 1];
      ResponsesAt(init, i, index);
      assert init[i] == candidates[i];
    }
  }

  lemma {:induction false} ResponsesAppend(a: seq<string>, b: seq<string>, index: Index)
    ensures Responses(a + b, index) == Responses(a, index) + Responses(b, index)
  {
    if b == [] {
      assert a + b == a;
    } else {
      var init := b[..|b| - 1];
      ResponsesAppend(a, init, index);
      assert (a + b)[..|a + b| - 1] == a + init;
      assert (a + b)[|a + b| - 1] == b[|b| - 1];
    }
  }

  /** The reply text: the responses joined by a blank line, then the closing
      line (functions/index.js:123). */
  function FinalResponse(responses: seq<string>): string {
    Join(responses, BlankLine) + BlankLine + Trailer
  }

  /** Candidates are resolved independently: the reply to two groups of
      candidates is the two replies' responses separated by a blank line. */
  lemma ResponsesIndependent(a: seq<string>, b: seq<string>, index: Index)
    requires a != [] && b != []
    ensures Responses(a + b, index) == Responses(a, index) + Responses(b, index)
    ensures FinalResponse(Responses(a + b, index)) ==
      Join(Responses(a, index), BlankLine) + BlankLine + FinalResponse(Responses(b, index))
  {
    ResponsesAppend(a, b, index);
    JoinAppend(Responses(a, index), Responses(b, index), BlankLine);
  }

  /** The `matches.forEach` loop of functions/index.js:102-121. */
  method Respond(candidates: seq<string>, index: Index) returns (responses: seq<string>)
    ensures responses == Responses(candidates, index)
  {
    responses := [];
    for i := 0 to |candidates|
      invariant responses == Responses(candidates[..i], index)
    {
      var outcome := Resolve(candidates[i], index);
      ResponsesSnoc(candidates, i, index);
      responses := responses + [Render(outcome)];
    }
    assert candidates[..|candidates|] == candidates;
  }

  /** What the handler does with a request: answer with the resolved codes,
      or hand the text to the conversational fallback when there is no
      candidate. */
  datatype Reply = Answer(text: string) | SmallTalk

  /** functions/index.js:83-123, with the user's text and the
      `hsn-code.original` parameter already taken from the request. */
  method HandleRequest(original: string, userText: string, index: Index) returns (reply: Reply)
    ensures reply.SmallTalk? <==> Candidates(original, userText) == []
    ensures reply.SmallTalk? ==> original == "" && CodeWords(userText, 0) == []
    ensures reply.Answer? ==> reply.text == FinalResponse(Responses(Candidates(original, userText), index))
    ensures original != "" ==> reply == Answer(FinalResponse([Render(OutcomeOf(original, index))]))
  {
    CandidatesAreCodeWords(original, userText);
    var matches := Candidates(original, userText);
    if |matches| == 0 {
      reply := SmallTalk;
    } else {
      var responses := Respond(matches, index);
      reply := Answer(Join(responses, BlankLine) + BlankLine + Trailer);
    }
  }
}
