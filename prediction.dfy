/**
  The word-completion engine of the smart keyboard's `PredictViewModel`: pad the typed seed into
  a history, rank the next-character candidates the n-gram model offers for it, and grow one word
  per selected candidate, greedily, until the text ends in a space.
 */
module Prediction {
  import opened Wrappers
  import opened KotlinText
  import opened Ranking

  /** Context length handed to the n-gram model. */
  const MODEL_ORDER: nat := 5

  /**
    The n-gram library as the engine sees it, with the language model and MODEL_ORDER fixed:
    NGrams.START_CHAR (a one-character string, held here as that one character),
    `ngrams.generateCandidates(lm, MODEL_ORDER, history)` (the entries of the returned map, in
    iteration order) and `ngrams.generateNextChar(lm, MODEL_ORDER, history)`.
   */
  datatype NGramModel = NGramModel(
    startChar: char,
    generateCandidates: string -> seq<Entry>,
    generateNextChar: string -> char)

  /** Why a request yields no predictions. */
  datatype PredictError =
    | NegativePredictionCount  // `take` rejects a negative count
    | RunawayExtension         // a branch did not reach a space within the extension cap

  /**
    The history of `generateInitialCandidates`: max(MODEL_ORDER - |seed|, 0) start characters
    followed by the seed. It is never shorter than MODEL_ORDER, it ends with the seed, and a seed
    of MODEL_ORDER characters or more is used unchanged.
   */
  function InitialHistory(startChar: char, seed: string): (h: string)
    ensures |h| == if |seed| < MODEL_ORDER then MODEL_ORDER else |seed|
    ensures IsSuffix(seed, h)
    ensures forall i :: 0 <= i < |h| - |seed| ==> h[i] == startChar
    ensures |seed| >= MODEL_ORDER ==> h == seed
  {
    var padding := if MODEL_ORDER - |seed| > 0 then MODEL_ORDER - |seed| else 0;
    Repeat(startChar, padding) + seed
  }

  /** `generateInitialCandidates(seed)`: the model's scores for the character after the padded seed. */
  function GenerateInitialCandidates(m: NGramModel, seed: string): seq<Entry> {
    m.generateCandidates(InitialHistory(m.startChar, seed))
  }

  /**
    The loop of `buildWord` with at most `fuel` iterations: append the model's next character
    until the text ends in a space. None when the cap is reached first.
   */
  function Extend(next: string -> char, h: string, fuel: nat): Option<string>
    decreases fuel
  {
    if EndsWith(h, " ") then Some(h)
    else if fuel == 0 then None
    else Extend(next, h + [next(h)], fuel - 1)
  }

  /**
    Reference definition of a finished loop: t extends h by characters each chosen by `next`
    from the text before it, t ends in a space, and no text strictly between h and t does
    (the loop stops at the first space).
   */
  ghost predicate IsGreedyCompletion(next: string -> char, h: string, t: string) {
    && |h| <= |t| && t[..|h|] == h
    && EndsWith(t, " ")
    && forall k :: |h| <= k < |t| ==> !EndsWith(t[..k], " ") && t[k] == next(t[..k])
  }

  /** Whatever Extend returns is the greedy completion of h, reached within the cap. */
  lemma {:induction false} ExtendSound(next: string -> char, h: string, fuel: nat)
    ensures Extend(next, h, fuel).Some? ==>
      IsGreedyCompletion(next, h, Extend(next, h, fuel).value) && |Extend(next, h, fuel).value| - |h| <= fuel
    decreases fuel
  {
    if !EndsWith(h, " ") && fuel > 0 {
      var h' := h + [next(h)];
      ExtendSound(next, h', fuel - 1);
      var r := Extend(next, h', fuel - 1);
      if r.Some? {
        var t := r.value;
        assert t[..|h|] == t[..|h'|][..|h|];
        forall k | |h| <= k < |t|
          ensures !EndsWith(t[..k], " ") && t[k] == next(t[..k])
        {
          if k == |h| {
            assert t[..k] == h;
            assert t[k] == h'[k];
          }
        }
      }
    }
  }

  /** Conversely, a greedy completion within the cap is what Extend returns. */
  lemma {:induction false} ExtendComplete(next: string -> char, h: string, t: string, fuel: nat)
    requires IsGreedyCompletion(next, h, t)
    requires |t| - |h| <= fuel
    ensures Extend(next, h, fuel) == Some(t)
    decreases fuel
  {
    if |t| == |h| {
      assert t == t[..|h|] == h;
    } else {
      assert t[..|h|] == h;
      assert !EndsWith(h, " ") && t[|h|] == next(h);
      var h' := h + [next(h)];
      assert t[..|h'|] == t[..|h|] + [t[|h|]] == h';
      ExtendComplete(next, h', t, fuel - 1);
    }
  }

  /** Raising the cap never changes an answer the lower cap already gives. */
  lemma ExtendFuelMonotone(next: string -> char, h: string, fuel: nat, more: nat)
    requires fuel <= more
    requires Extend(next, h, fuel).Some?
    ensures Extend(next, h, more) == Extend(next, h, fuel)
  {
    ExtendSound(next, h, fuel);
    ExtendComplete(next, h, Extend(next, h, fuel).value, more);
  }

  /** A history that already ends in a space is returned with nothing appended. */
  lemma TerminatedHistoryUnchanged(next: string -> char, h: string, fuel: nat)
    requires EndsWith(h, " ")
    ensures Extend(next, h, fuel) == Some(h)
    ensures IsGreedyCompletion(next, h, h)
    ensures forall t :: IsGreedyCompletion(next, h, t) ==> t == h
  {
  }

  /**
    `tmp.trimEnd().split(" ").takeLast(1)[0]`: the last space-delimited token of the text with
    its trailing whitespace removed. It contains no space, it is a suffix of the trimmed text, and
    it is either all of it or follows a space.
   */
  function LastToken(tmp: string): (w: string)
    ensures ' ' !in w
    ensures var trimmed := TrimEnd(tmp);
      IsSuffix(w, trimmed) && (|w| == |trimmed| || trimmed[|trimmed| - |w| - 1] == ' ')
  {
    var parts := Split(TrimEnd(tmp), ' ');
    SplitLastPiece(TrimEnd(tmp), ' ');
    TakeLast(parts, 1)[0]
  }

  /**
    Token extraction law: after a space (or at the start of the text), a word w with no space
    and ending in a non-whitespace character, followed by any trailing whitespace, is extracted
    as w; for example "he hello " gives "hello".
   */
  lemma TokenExtraction(before: string, w: string, trailing: string)
    requires before == [] || EndsWith(before, " ")
    requires ' ' !in w && |w| > 0 && !IsWhitespace(w[|w| - 1])
    requires forall i :: 0 <= i < |trailing| ==> IsWhitespace(trailing[i])
    ensures LastToken(before + w + trailing) == w
  {
    var u := before + w;
    assert u + trailing == before + w + trailing;
    assert u[|u| - 1] == w[|w| - 1];
    TrimEndTrailingWhitespace(u, trailing);
    var r := LastToken(before + w + trailing);
    assert IsSuffix(r, u);
    assert |r| <= |w| by {
      assert |before| > 0 ==> u[|before| - 1] == ' ';
    }
    assert r == u[|u| - |w|..] == w;
  }

  /** The comment's case: a history spanning two words yields its last word. */
  lemma LastTokenOfTwoWords()
    ensures LastToken("he hello ") == "hello"
  {
    assert "he hello " == "he " + "hello" + " ";
    TokenExtraction("he ", "hello", " ");
  }

  /** `buildWord(history)` with the extension capped at `fuel` characters. */
  function Word(next: string -> char, history: string, fuel: nat): Option<string> {
    match Extend(next, history, fuel)
    case None => None
    case Some(t) => Some(LastToken(t))
  }

  /** `buildWord` as a function value, with the extension cap fixed. */
  function WordBuilder(next: string -> char, fuel: nat): string -> Option<string> {
    h => Word(next, h, fuel)
  }

  /** `buildWord`: the loop of the source, capped at `fuel` iterations. */
  method BuildWord(m: NGramModel, history: string, fuel: nat) returns (r: Option<string>)
    ensures r == Word(m.generateNextChar, history, fuel)
  {
    var tmp := history;
    var steps: nat := 0;
    while !EndsWith(tmp, " ")
      invariant steps <= fuel
      invariant Extend(m.generateNextChar, history, fuel) == Extend(m.generateNextChar, tmp, fuel - steps)
      decreases fuel - steps
    {
      if steps == fuel {
        return None;
      }
      tmp := tmp + [m.generateNextChar(tmp)];
      steps := steps + 1;
    }
    r := Some(LastToken(tmp));
  }

  /**
    `candidates.map { build("$seed${it.key}") }`: one word per selected candidate, built from the
    raw seed followed by the candidate's character; fails if any branch yields no word.
   */
  function Completions(build: string -> Option<string>, seed: string, selected: seq<Entry>)
    : Result<seq<string>, PredictError>
  {
    if selected == [] then Success([])
    else
      match build(seed + [selected[0].key])
      case None => Failure(RunawayExtension)
      case Some(w) =>
        match Completions(build, seed, selected[1..])
        case Failure(e) => Failure(e)
        case Success(ws) => Success([w] + ws)
  }

  /** ws holds, in order, the word built for each selected candidate. */
  predicate BuiltFor(build: string -> Option<string>, seed: string, selected: seq<Entry>, ws: seq<string>) {
    |ws| == |selected| &&
    forall i :: 0 <= i < |selected| ==> build(seed + [selected[i].key]) == Some(ws[i])
  }

  /**
    Completions succeed exactly when every branch finishes within the cap, and then the i-th word
    is the word built for the i-th selected candidate.
   */
  lemma {:induction false} CompletionsCorrect(build: string -> Option<string>, seed: string, selected: seq<Entry>)
    ensures var r := Completions(build, seed, selected);
      && (r.Success? <==> forall i :: 0 <= i < |selected| ==> build(seed + [selected[i].key]).Some?)
      && (r.Failure? ==> r.error == RunawayExtension)
      && (r.Success? ==> BuiltFor(build, seed, selected, r.value))
  {
    if selected != [] {
      var tail := selected[1..];
      CompletionsCorrect(build, seed, tail);
      var w := build(seed + [selected[0].key]);
      var rest := Completions(build, seed, tail);
      assert forall i :: 1 <= i < |selected| ==> selected[i] == tail[i - 1];
      if w.None? {
        assert Completions(build, seed, selected) == Failure(RunawayExtension);
      } else if rest.Failure? {
        assert Completions(build, seed, selected) == rest;
        var j :| 0 <= j < |tail| && build(seed + [tail[j].key]).None?;
        assert selected[j + 1] == tail[j];
      } else {
        var ws := [w.value] + rest.value;
        assert Completions(build, seed, selected) == Success(ws);
        forall i | 0 <= i < |selected|
          ensures build(seed + [selected[i].key]) == Some(ws[i])
        {
          if i > 0 {
            assert ws[i] == rest.value[i - 1];
          }
        }
      }
    }
  }

  /** Only one sequence of words is built for given candidates. */
  lemma BuiltForUnique(build: string -> Option<string>, seed: string, selected: seq<Entry>, ws: seq<string>, vs: seq<string>)
    requires BuiltFor(build, seed, selected, ws) && BuiltFor(build, seed, selected, vs)
    ensures ws == vs
  {
  }

  lemma BuiltForSnoc(build: string -> Option<string>, seed: string, selected: seq<Entry>,
                     ws: seq<string>, i: nat, w: string)
    requires i < |selected|
    requires BuiltFor(build, seed, selected[..i], ws)
    requires build(seed + [selected[i].key]) == Some(w)
    ensures BuiltFor(build, seed, selected[..i + 1], ws + [w])
  {
  }

  lemma CompletionsFailAt(build: string -> Option<string>, seed: string, selected: seq<Entry>, i: nat)
    requires i < |selected|
    requires build(seed + [selected[i].key]) == None
    ensures Completions(build, seed, selected) == Failure(RunawayExtension)
  {
    CompletionsCorrect(build, seed, selected);
  }

  lemma CompletionsSucceed(build: string -> Option<string>, seed: string, selected: seq<Entry>, ws: seq<string>)
    requires BuiltFor(build, seed, selected, ws)
    ensures Completions(build, seed, selected) == Success(ws)
  {
    CompletionsCorrect(build, seed, selected);
    BuiltForUnique(build, seed, selected, ws, Completions(build, seed, selected).value);
  }

  /** The method form of Completions: a loop over the selected candidates calling BuildWord. */
  method BuildWords(m: NGramModel, seed: string, selected: seq<Entry>, fuel: nat)
    returns (r: Result<seq<string>, PredictError>)
    ensures r == Completions(WordBuilder(m.generateNextChar, fuel), seed, selected)
  {
    var build := WordBuilder(m.generateNextChar, fuel);
    var words: seq<string> := [];
    for i := 0 to |selected|
      invariant BuiltFor(build, seed, selected[..i], words)
    {
      var w := BuildWord(m, seed + [selected[i].key], fuel);
      if w.None? {
        CompletionsFailAt(build, seed, selected, i);
        return Failure(RunawayExtension);
      }
      BuiltForSnoc(build, seed, selected, words, i, w.value);
      words := words + [w.value];
    }
    assert selected[..|selected|] == selected;
    CompletionsSucceed(build, seed, selected, words);
    r := Success(words);
  }

  /**
    `getPredictions(seed)` of a view model built over model m with `nPredictions`, each branch's
    extension capped at `fuel` characters.
   */
  function Predictions(m: NGramModel, nPredictions: int, seed: string, fuel: nat)
    : Result<seq<string>, PredictError>
  {
    if nPredictions < 0 then Failure(NegativePredictionCount)
    else Completions(WordBuilder(m.generateNextChar, fuel), seed, TopK(GenerateInitialCandidates(m, seed), nPredictions))
  }

  /**
    When predictions are produced, there are min(nPredictions, number of candidates) of them, and
    the i-th is the word grown from the raw seed and the i-th best candidate, with no space in it.
   */
  lemma PredictionsInRankOrder(m: NGramModel, nPredictions: int, seed: string, fuel: nat)
    requires Predictions(m, nPredictions, seed, fuel).Success?
    ensures nPredictions >= 0
    ensures var ws := Predictions(m, nPredictions, seed, fuel).value;
      var candidates := GenerateInitialCandidates(m, seed);
      var selected := TopK(candidates, nPredictions);
      && |ws| == (if nPredictions < |candidates| then nPredictions else |candidates|)
      && |selected| == |ws|
      && (forall i :: 0 <= i < |ws| ==> Word(m.generateNextChar, seed + [selected[i].key], fuel) == Some(ws[i]))
      && (forall i :: 0 <= i < |ws| ==> ' ' !in ws[i])
  {
    var selected := TopK(GenerateInitialCandidates(m, seed), nPredictions);
    TopKSelection(GenerateInitialCandidates(m, seed), nPredictions);
    CompletionsCorrect(WordBuilder(m.generateNextChar, fuel), seed, selected);
  }

  /**
    The request fails with NegativePredictionCount exactly when nPredictions is negative, and
    otherwise with RunawayExtension exactly when some selected branch does not reach a space
    within the cap.
   */
  lemma PredictionsOutcome(m: NGramModel, nPredictions: int, seed: string, fuel: nat)
    ensures Predictions(m, nPredictions, seed, fuel) == Failure(NegativePredictionCount) <==> nPredictions < 0
    ensures nPredictions >= 0 ==>
      var selected := TopK(GenerateInitialCandidates(m, seed), nPredictions);
      (Predictions(m, nPredictions, seed, fuel) == Failure(RunawayExtension) <==>
        exists i :: 0 <= i < |selected| && Word(m.generateNextChar, seed + [selected[i].key], fuel).None?)
  {
    if nPredictions >= 0 {
      CompletionsCorrect(WordBuilder(m.generateNextChar, fuel), seed, TopK(GenerateInitialCandidates(m, seed), nPredictions));
    }
  }

  /** The extension cap only decides whether an answer is given, never which one. */
  lemma PredictionsFuelMonotone(m: NGramModel, nPredictions: int, seed: string, fuel: nat, more: nat)
    requires fuel <= more
    requires Predictions(m, nPredictions, seed, fuel).Success?
    ensures Predictions(m, nPredictions, seed, more) == Predictions(m, nPredictions, seed, fuel)
  {
    var next := m.generateNextChar;
    var selected := TopK(GenerateInitialCandidates(m, seed), nPredictions);
    var ws := Predictions(m, nPredictions, seed, fuel).value;
    CompletionsCorrect(WordBuilder(next, fuel), seed, selected);
    assert BuiltFor(WordBuilder(next, fuel), seed, selected, ws);
    forall i | 0 <= i < |selected|
      ensures Word(next, seed + [selected[i].key], more) == Some(ws[i])
    {
      assert Word(next, seed + [selected[i].key], fuel) == Some(ws[i]);
      ExtendFuelMonotone(next, seed + [selected[i].key], fuel, more);
    }
    CompletionsSucceed(WordBuilder(next, more), seed, selected, ws);
  }

  /**
    The unit test's expectation: with nPredictions = 3 and at least three candidates, a request
    that completes yields exactly three predictions.
   */
  lemma ThreePredictionsKept(m: NGramModel, seed: string, fuel: nat)
    requires |GenerateInitialCandidates(m, seed)| >= 3
    requires Predictions(m, 3, seed, fuel).Success?
    ensures |Predictions(m, 3, seed, fuel).value| == 3
  {
    PredictionsInRankOrder(m, 3, seed, fuel);
  }

  /**
    The view model: the language model and prediction count given at construction, the cap put
    on each branch's extension, and the value of the `prediction` LiveData (None before the first
    prediction is published).
   */
  class PredictViewModel {
    const lm: NGramModel
    const nPredictions: int
    const maxExtension: nat
    var prediction: Option<seq<string>>

    constructor (lm: NGramModel, nPredictions: int, maxExtension: nat)
      ensures this.lm == lm && this.nPredictions == nPredictions && this.maxExtension == maxExtension
      ensures prediction == None
    {
      this.lm := lm;
      this.nPredictions := nPredictions;
      this.maxExtension := maxExtension;
      prediction := None;
    }

    /**
      `getPredictions(seed)`: computes the predictions and publishes them in `prediction`; a
      failed request publishes nothing.
     */
    method GetPredictions(seed: string) returns (r: Result<seq<string>, PredictError>)
      modifies this
      ensures r == Predictions(lm, nPredictions, seed, maxExtension)
      ensures prediction == if r.Success? then Some(r.value) else old(prediction)
    {
      if nPredictions < 0 {
        return Failure(NegativePredictionCount);
      }
      var candidates := TopK(GenerateInitialCandidates(lm, seed), nPredictions);
      r := BuildWords(lm, seed, candidates, maxExtension);
      if r.Success? {
        prediction := Some(r.value);
      }
    }
  }
}
