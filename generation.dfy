/** The generation session: a fixed window of token ids that slides left
    when full, the position of the latest token, a count of generated tokens,
    the flag that keeps the per-frame update generating, and the text
    accumulated so far. The next-token predictor is outside the model: its
    answer is the parameter `id` of a step. */
module Generation {
  import opened ByteShift
  import opened BpeEncoder
  import Vocabulary

  /** The source's configuration: window size, generation cap, and the id of
      the end-of-text token. */
  const MaxTokens: nat := 100
  const StopAfter: int := 100
  const EndOfText: int := 50256

  /** The parts of the runner that do not change during a generation. */
  datatype Config = Config(maxTokens: nat, stopAfter: int, endOfText: int, tokens: seq<string>)

  /** The parts of the runner that each generation updates. */
  datatype Session = Session(
    outputTokens: seq<int>,
    currentToken: int,
    totalTokens: int,
    runInference: bool,
    outputString: string)

  /** The window has the configured size and the position points into it,
      or just before it while the window is empty. */
  predicate WellFormed(c: Config, s: Session) {
    && 1 <= c.maxTokens
    && |s.outputTokens| == c.maxTokens
    && -1 <= s.currentToken < c.maxTokens
    && 0 <= s.totalTokens
  }

  /** `ResetGenerationState`: the position and the count go back to zero, the
      window is a fresh array of zeros and the text is emptied; the flag is
      left as it was. */
  function ResetState(c: Config, s: Session): (t: Session)
    requires 1 <= c.maxTokens
    ensures WellFormed(c, t)
    ensures forall i :: 0 <= i < |t.outputTokens| ==> t.outputTokens[i] == 0
  {
    Session(seq(c.maxTokens, _ => 0), 0, 0, s.runInference, "")
  }

  /** Resetting twice is resetting once, and what the session held before
      does not matter apart from the flag. */
  lemma ResetIsIdempotent(c: Config, s: Session, s': Session)
    requires 1 <= c.maxTokens
    requires s.runInference == s'.runInference
    ensures ResetState(c, ResetState(c, s)) == ResetState(c, s)
    ensures ResetState(c, s) == ResetState(c, s')
    ensures ResetState(c, s).totalTokens == 0 && ResetState(c, s).outputString == []
  {
  }

  /** `DecodePrompt`: the prompt's ids go to the front of the window and the
      position points at the last of them (-1 for an empty prompt). */
  function SeedPrompt(c: Config, s: Session, ids: seq<int>): (t: Session)
    requires WellFormed(c, s) && |ids| <= c.maxTokens
    ensures WellFormed(c, t)
    ensures |t.outputTokens| == |s.outputTokens|
    ensures forall i :: 0 <= i < |ids| ==> t.outputTokens[i] == ids[i]
    ensures forall i :: |ids| <= i < c.maxTokens ==> t.outputTokens[i] == s.outputTokens[i]
    ensures t.currentToken + 1 == |ids|
    ensures t.totalTokens == s.totalTokens && t.runInference == s.runInference
    ensures t.outputString == s.outputString
  {
    s.(outputTokens := ids + s.outputTokens[|ids|..], currentToken := |ids| - 1)
  }

  /** The step ends the generation: the end-of-text token came, or the cap
      on generated tokens is reached. */
  predicate Stops(c: Config, s: Session, id: int) {
    id == c.endOfText || s.totalTokens + 1 >= c.stopAfter
  }

  /** What a step needs: a well-formed session and, unless the step stops,
      an id the reverse table and the backward shift can decode. */
  predicate CanStep(c: Config, s: Session, id: int) {
    WellFormed(c, s) && (Stops(c, s, id) || (0 <= id < |c.tokens| && BelowShiftLimit(c.tokens[id])))
  }

  /** The decoded text of one generated token: its subword shifted back as
      the source does it, one character per character. */
  function DecodeToken(c: Config, id: int): (r: string)
    requires 0 <= id < |c.tokens| && BelowShiftLimit(c.tokens[id])
    ensures |r| == |c.tokens[id]|
  {
    ShiftDown(c.tokens[id])
  }

  /** The part of `RunInference` after the prediction, as the source does
      it: a full window is shifted one slot to the left and the position
      moved back, then the position is advanced and the id stored there. */
  function StepState(c: Config, s: Session, id: int): (t: Session)
    requires CanStep(c, s, id)
    ensures WellFormed(c, t) && 0 <= t.currentToken
    ensures s.currentToken == c.maxTokens - 1 ==>
      t.outputTokens == s.outputTokens[1..] + [id] && t.currentToken == c.maxTokens - 1
    ensures s.currentToken < c.maxTokens - 1 ==>
      t.outputTokens == s.outputTokens[s.currentToken + 1 := id] && t.currentToken == s.currentToken + 1
    ensures t.outputTokens[t.currentToken] == id
    ensures t.totalTokens == s.totalTokens + 1
    ensures t.runInference == (s.runInference && !Stops(c, s, id))
    ensures t.outputString == if Stops(c, s, id) then s.outputString else s.outputString + DecodeToken(c, id)
  {
    var full := s.currentToken >= c.maxTokens - 1;
    var window := if full then s.outputTokens[1..] + [s.outputTokens[c.maxTokens - 1]] else s.outputTokens;
    var position := (if full then s.currentToken - 1 else s.currentToken) + 1;
    var total := s.totalTokens + 1;
    if id == c.endOfText || total >= c.stopAfter then
      Session(window[position := id], position, total, false, s.outputString)
    else
      Session(window[position := id], position, total, s.runInference, s.outputString + DecodeToken(c, id))
  }

  /** `Update`: a frame steps only while the flag is set. */
  function UpdateState(c: Config, s: Session, id: int): (t: Session)
    requires WellFormed(c, s) && (s.runInference ==> CanStep(c, s, id))
    ensures WellFormed(c, t)
    ensures !s.runInference ==> t == s
  {
    if s.runInference then StepState(c, s, id) else s
  }

  /** Every subword of the reverse table can be shifted back. */
  predicate TokensDecodable(c: Config) {
    forall j :: 0 <= j < |c.tokens| ==> BelowShiftLimit(c.tokens[j])
  }

  /** The predictor answers with the end-of-text id or an id of the reverse
      table. */
  predicate Predicted(c: Config, ids: seq<int>) {
    forall i :: 0 <= i < |ids| ==> ids[i] == c.endOfText || 0 <= ids[i] < |c.tokens|
  }

  /** The session after one frame per predicted id. */
  function Run(c: Config, s: Session, ids: seq<int>): (t: Session)
    requires WellFormed(c, s) && TokensDecodable(c) && Predicted(c, ids)
    ensures WellFormed(c, t)
    decreases |ids|
  {
    if ids == [] then s else Run(c, UpdateState(c, s, ids[0]), ids[1..])
  }

  /** Once the flag is cleared, no frame changes anything. */
  lemma {:induction false} StoppedStaysStopped(c: Config, s: Session, ids: seq<int>)
    requires WellFormed(c, s) && TokensDecodable(c) && Predicted(c, ids)
    requires !s.runInference
    ensures Run(c, s, ids) == s
    decreases |ids|
  {
    if ids != [] {
      StoppedStaysStopped(c, s, ids[1..]);
    }
  }

  /** The generation ends at the latest after `stopAfter` steps, counted
      from the tokens generated so far, and it always ends after one more
      step once the cap has been reached. */
  lemma {:induction false} RunEndsWithinCap(c: Config, s: Session, ids: seq<int>)
    requires WellFormed(c, s) && TokensDecodable(c) && Predicted(c, ids)
    requires |ids| >= 1 && |ids| >= c.stopAfter - s.totalTokens
    ensures !Run(c, s, ids).runInference
    decreases |ids|
  {
    var t := UpdateState(c, s, ids[0]);
    if !t.runInference {
      StoppedStaysStopped(c, t, ids[1..]);
    } else {
      RunEndsWithinCap(c, t, ids[1..]);
    }
  }

  /** With the source's constants, a generation started from a reset session
      is over after at most 100 frames. */
  lemma SourceCapIsOneHundred(tokens: seq<string>, s: Session, ids: seq<int>)
    requires var c := Config(MaxTokens, StopAfter, EndOfText, tokens);
      WellFormed(c, s) && TokensDecodable(c) && Predicted(c, ids)
    requires s.totalTokens == 0 && |ids| >= 100
    ensures !Run(Config(MaxTokens, StopAfter, EndOfText, tokens), s, ids).runInference
  {
    RunEndsWithinCap(Config(MaxTokens, StopAfter, EndOfText, tokens), s, ids);
  }

  /** A predicted end-of-text token ends the generation. */
  lemma {:induction false} RunEndsAtEndOfText(c: Config, s: Session, ids: seq<int>, k: int)
    requires WellFormed(c, s) && TokensDecodable(c) && Predicted(c, ids)
    requires 0 <= k < |ids| && ids[k] == c.endOfText
    ensures !Run(c, s, ids).runInference
    decreases |ids|
  {
    var t := UpdateState(c, s, ids[0]);
    if !t.runInference {
      StoppedStaysStopped(c, t, ids[1..]);
    } else {
      RunEndsAtEndOfText(c, t, ids[1..], k - 1);
    }
  }

  lemma {:induction false} DetokenizeAppend(a: seq<int>, b: seq<int>, tokens: seq<string>)
    requires Decodable(a, tokens) && Decodable(b, tokens)
    ensures Decodable(a + b, tokens)
    ensures Detokenize(a + b, tokens) == Detokenize(a, tokens) + Detokenize(b, tokens)
    decreases |b|
  {
    forall i | 0 <= i < |a + b|
      ensures 0 <= (a + b)[i] < |tokens| && BelowShiftLimit(tokens[(a + b)[i]])
    {
      if i >= |a| {
        assert (a + b)[i] == b[i - |a|];
      }
    }
    if b == [] {
      assert a + b == a;
    } else {
      var n := |b| - 1;
      var last := ShiftDown(tokens[b[n]]);
      assert Decodable(b[..n], tokens);
      DetokenizeAppend(a, b[..n], tokens);
      assert (a + b)[..|a + b| - 1] == a + b[..n];
      assert (a + b)[|a + b| - 1] == b[n];
      assert Detokenize(a + b, tokens) == Detokenize(a + b[..n], tokens) + last;
      assert Detokenize(b, tokens) == Detokenize(b[..n], tokens) + last;
      ConcatAssociates(Detokenize(a, tokens), Detokenize(b[..n], tokens), last);
    }
  }

  /** Predicted ids other than end-of-text can all be decoded. */
  lemma PredictedDecodable(c: Config, ids: seq<int>)
    requires TokensDecodable(c) && Predicted(c, ids)
    requires forall i :: 0 <= i < |ids| ==> ids[i] != c.endOfText
    ensures Decodable(ids, c.tokens)
  {
  }

  /** One frame that does not stop appends the decoded token and keeps the
      flag set. */
  lemma FrameAppends(c: Config, s: Session, id: int)
    requires WellFormed(c, s) && TokensDecodable(c) && s.runInference
    requires 0 <= id < |c.tokens| && id != c.endOfText && s.totalTokens + 1 < c.stopAfter
    ensures UpdateState(c, s, id).runInference
    ensures UpdateState(c, s, id).totalTokens == s.totalTokens + 1
    ensures UpdateState(c, s, id).outputString == s.outputString + DecodeToken(c, id)
  {
  }

  lemma DetokenizeSingle(id: int, tokens: seq<string>)
    requires 0 <= id < |tokens| && BelowShiftLimit(tokens[id])
    ensures Decodable([id], tokens)
    ensures Detokenize([id], tokens) == ShiftDown(tokens[id])
  {
    assert [id][..0] == [];
  }

  lemma ConcatAssociates(a: string, b: string, d: string)
    ensures (a + b) + d == a + (b + d)
  {
  }

  /** While no step stops it, a generation appends the decoded text of every
      predicted token, in order. */
  lemma {:induction false} RunAppendsDecodedText(c: Config, s: Session, ids: seq<int>)
    requires WellFormed(c, s) && TokensDecodable(c) && Predicted(c, ids)
    requires s.runInference
    requires forall i :: 0 <= i < |ids| ==> ids[i] != c.endOfText
    requires s.totalTokens + |ids| < c.stopAfter
    ensures Decodable(ids, c.tokens)
    ensures Run(c, s, ids).runInference
    ensures Run(c, s, ids).totalTokens == s.totalTokens + |ids|
    ensures Run(c, s, ids).outputString == s.outputString + Detokenize(ids, c.tokens)
    decreases |ids|
  {
    PredictedDecodable(c, ids);
    if ids != [] {
      var id, rest := ids[0], ids[1..];
      assert 0 <= id < |c.tokens| && id != c.endOfText;
      var t := UpdateState(c, s, id);
      FrameAppends(c, s, id);
      assert Predicted(c, rest) && forall i :: 0 <= i < |rest| ==> rest[i] != c.endOfText;
      RunAppendsDecodedText(c, t, rest);
      assert Run(c, s, ids) == Run(c, t, rest);
      DetokenizeSingle(id, c.tokens);
      DetokenizeAppend([id], rest, c.tokens);
      assert [id] + rest == ids;
      ConcatAssociates(s.outputString, DecodeToken(c, id), Detokenize(rest, c.tokens));
    }
  }

  /** The configuration of the window example: a 4-slot window, the
      source's cap and end-of-text id, and 100 one-letter subwords. */
  function ExampleConfig(): Config {
    Config(4, StopAfter, EndOfText, seq(100, _ => "x"))
  }

  /** A step on the full window [10, 11, 12, 13] that receives 99 evicts the
      oldest id and keeps the position on the last slot. */
  lemma SlidingWindowExample()
    ensures var s := Session([10, 11, 12, 13], 3, 0, true, "");
      CanStep(ExampleConfig(), s, 99) &&
      StepState(ExampleConfig(), s, 99).outputTokens == [11, 12, 13, 99] &&
      StepState(ExampleConfig(), s, 99).currentToken == 3 &&
      StepState(ExampleConfig(), s, 99).runInference
  {
    var s := Session([10, 11, 12, 13], 3, 0, true, "");
    assert BelowShiftLimit(ExampleConfig().tokens[99]);
    assert s.outputTokens[1..] + [99] == [11, 12, 13, 99];
  }

  /** The end-of-text token is still stored in the window, the generation
      stops, and the text is left as it was. */
  lemma EndOfTextExample()
    ensures var s := Session([10, 11, 0, 0], 1, 5, true, "ab");
      var t := StepState(ExampleConfig(), s, EndOfText);
      CanStep(ExampleConfig(), s, EndOfText) &&
      t.outputTokens == [10, 11, EndOfText, 0] && t.currentToken == 2 &&
      !t.runInference && t.outputString == "ab" && t.totalTokens == 6
  {
  }

  /** The runner: the fields of the source's component. */
  class RunTinyStories {
    const maxTokens: nat
    const stopAfter: int
    const endOfText: int
    const vocab: map<string, int>
    const merges: seq<string>
    const tokens: seq<string>

    var outputString: string
    var currentToken: int
    var outputTokens: array<int>
    var runInference: bool
    var totalTokens: int

    function Cfg(): Config {
      Config(maxTokens, stopAfter, endOfText, tokens)
    }

    ghost function State(): Session
      reads this, outputTokens
    {
      Session(outputTokens[..], currentToken, totalTokens, runInference, outputString)
    }

    /** The session is well formed, the merges file splits, and the reverse
        table inverts the vocabulary. */
    ghost predicate Valid()
      reads this, outputTokens
    {
      && WellFormed(Cfg(), State())
      && WellFormedMerges(merges)
      && |tokens| == |vocab|
      && (forall k :: k in vocab ==> 0 <= vocab[k] < |tokens| && tokens[vocab[k]] == k)
    }

    /** The field initialisers, then the loading done at start-up: the
        reverse table is filled from the vocabulary. */
    constructor (maxTokens: nat, stopAfter: int, endOfText: int, vocab: map<string, int>, merges: seq<string>)
      requires 1 <= maxTokens
      requires Vocabulary.IsPermutation(vocab)
      requires WellFormedMerges(merges)
      ensures Valid()
      ensures this.maxTokens == maxTokens && this.stopAfter == stopAfter && this.endOfText == endOfText
      ensures this.vocab == vocab && this.merges == merges
      ensures State() == Session(seq(maxTokens, _ => 0), 0, 0, false, "")
    {
      this.maxTokens := maxTokens;
      this.stopAfter := stopAfter;
      this.endOfText := endOfText;
      this.vocab := vocab;
      this.merges := merges;
      var slots := Vocabulary.LoadVocabulary(vocab);
      tokens := Vocabulary.Filled(slots[..]);
      outputString := "";
      currentToken := 0;
      outputTokens := new int[maxTokens](_ => 0);
      runInference := false;
      totalTokens := 0;
    }

    /** `ResetGenerationState`; disposing of the engine is left out. */
    method ResetGenerationState()
      requires Valid()
      modifies this
      ensures Valid() && fresh(outputTokens)
      ensures State() == ResetState(Cfg(), old(State()))
    {
      currentToken := 0;
      totalTokens := 0;
      outputTokens := new int[maxTokens](_ => 0);
      outputString := "";
    }

    /** `DecodePrompt`: the prompt is encoded and its ids are copied to the
        front of the window. */
    method DecodePrompt(text: seq<byte>)
      requires Valid()
      requires |Encode(text, vocab, merges)| <= maxTokens
      modifies this, outputTokens
      ensures Valid() && outputTokens == old(outputTokens)
      ensures State() == SeedPrompt(Cfg(), old(State()), Encode(text, vocab, merges))
    {
      var inputTokens := GetTokens(text, vocab, merges);
      for i := 0 to |inputTokens|
        modifies outputTokens
        invariant forall j :: 0 <= j < i ==> outputTokens[j] == inputTokens[j]
        invariant forall j :: i <= j < outputTokens.Length ==> outputTokens[j] == old(outputTokens[j])
      {
        outputTokens[i] := inputTokens[i];
      }
      currentToken := |inputTokens| - 1;
      assert outputTokens[..] == inputTokens + old(outputTokens[..])[|inputTokens|..];
    }

    /** The part of `RunInference` after the prediction `id`. */
    method RunInference(id: int)
      requires Valid() && CanStep(Cfg(), State(), id)
      modifies this, outputTokens
      ensures Valid() && outputTokens == old(outputTokens)
      ensures State() == StepState(Cfg(), old(State()), id)
    {
      ghost var s := State();
      ghost var window := if currentToken >= maxTokens - 1
        then s.outputTokens[1..] + [s.outputTokens[maxTokens - 1]] else s.outputTokens;
      if currentToken >= maxTokens - 1 {
        ShiftWindowLeft();
        currentToken := currentToken - 1;
      }
      assert outputTokens[..] == window;
      currentToken := currentToken + 1;
      outputTokens[currentToken] := id;
      assert outputTokens[..] == window[currentToken := id];
      totalTokens := totalTokens + 1;
      if id == endOfText || totalTokens >= stopAfter {
        runInference := false;
      } else {
        outputString := outputString + ShiftDown(tokens[id]);
      }
    }

    /** The loop of `RunInference` that moves every id of a full window one
        slot to the left; the last slot keeps its id. */
    method ShiftWindowLeft()
      requires 1 <= outputTokens.Length
      modifies outputTokens
      ensures outputTokens[..] == old(outputTokens[..])[1..] + [old(outputTokens[outputTokens.Length - 1])]
    {
      for i := 0 to outputTokens.Length - 1
        invariant forall j :: 0 <= j < i ==> outputTokens[j] == old(outputTokens[j + 1])
        invariant forall j :: i <= j < outputTokens.Length ==> outputTokens[j] == old(outputTokens[j])
      {
        outputTokens[i] := outputTokens[i + 1];
      }
    }

    /** `Update`: called once per frame, it steps only while the flag is set. */
    method Update(id: int)
      requires Valid() && (runInference ==> CanStep(Cfg(), State(), id))
      modifies this, outputTokens
      ensures Valid() && outputTokens == old(outputTokens)
      ensures State() == UpdateState(Cfg(), old(State()), id)
    {
      if runInference {
        RunInference(id);
      }
    }

    /** The button handler: reset, then the prompt's raw form becomes the
        text, its ids seed the window, and the flag is set. Creating the
        engine is left out. */
    method OnGenerateButtonClicked(prompt: seq<byte>)
      requires Valid()
      requires |Encode(prompt, vocab, merges)| <= maxTokens
      modifies this
      ensures Valid() && fresh(outputTokens)
      ensures State() == SeedPrompt(Cfg(),
        ResetState(Cfg(), old(State())).(outputString := Latin1(prompt)),
        Encode(prompt, vocab, merges)).(runInference := true)
    {
      ResetGenerationState();
      outputString := Latin1(prompt);
      DecodePrompt(prompt);
      runInference := true;
    }
  }
}
