/** The council's stages and its driver (`run_full_council`), with every
    remote call replaced by its result, given as an input: a failed call is
    `None`, a successful one `Some(reply)`. */
module Council {
  import opened CouncilTypes
  import opened Text
  import opened RankingParser
  import opened Anonymizer
  import opened Aggregator
  import opened Critiques

  /** One item of a `query_models_parallel` result, in the order the result
      dict lists them: the model and what its call returned. */
  datatype Answer = Answer(model: Model, reply: Option<Reply>)

  /** The indices of the calls that succeeded, in increasing order. */
  function SucceededAt(answers: seq<Answer>): (idx: seq<nat>)
    ensures forall i | 0 <= i < |idx| :: idx[i] < |answers| && answers[idx[i]].reply.Some?
    ensures forall i, j | 0 <= i < j < |idx| :: idx[i] < idx[j]
    ensures forall k | 0 <= k < |answers| && answers[k].reply.Some? :: k in idx
    decreases |answers|
  {
    if answers == [] then []
    else
      var n := |answers|;
      var before := SucceededAt(answers[..n - 1]);
      if answers[n - 1].reply.Some? then before + [n - 1] else before
  }

  // ---------------------------------------------------------------------
  // Stage 1

  /** The entry stage 1 makes of a successful answer. */
  function StageOneEntryOf(a: Answer): StageOneEntry
    requires a.reply.Some?
  {
    StageOneEntry(a.model, ContentOr(a.reply.value, ""))
  }

  /** The stage-1 results for the given answers. */
  function StageOne(answers: seq<Answer>): seq<StageOneEntry>
    decreases |answers|
  {
    if answers == [] then []
    else
      var n := |answers|;
      var before := StageOne(answers[..n - 1]);
      if answers[n - 1].reply.Some? then before + [StageOneEntryOf(answers[n - 1])] else before
  }

  /** `stage1_collect_responses`, from the answers of the council. */
  method Stage1CollectResponses(answers: seq<Answer>) returns (stage1: seq<StageOneEntry>)
    ensures stage1 == StageOne(answers)
  {
    stage1 := [];
    for i := 0 to |answers|
      invariant stage1 == StageOne(answers[..i])
    {
      assert answers[..i + 1][..i] == answers[..i];
      var answer := answers[i];
      if answer.reply.Some? {
        stage1 := stage1 + [StageOneEntry(answer.model, ContentOr(answer.reply.value, ""))];
      }
    }
    assert answers[..|answers|] == answers;
  }

  /** Stage 1 keeps exactly the successful answers, in their order: its
      `i`-th entry comes from the `i`-th successful call. */
  lemma {:induction false} StageOneExact(answers: seq<Answer>)
    ensures var stage1 := StageOne(answers); var idx := SucceededAt(answers);
      && |stage1| == |idx|
      && forall i | 0 <= i < |idx| :: stage1[i] == StageOneEntryOf(answers[idx[i]])
    decreases |answers|
  {
    if answers != [] {
      var n := |answers|;
      var front := answers[..n - 1];
      StageOneExact(front);
      var idx0 := SucceededAt(front);
      var s0 := StageOne(front);
      forall i | 0 <= i < |idx0| ensures s0[i] == StageOneEntryOf(answers[idx0[i]]) {
        assert front[idx0[i]] == answers[idx0[i]];
      }
      if answers[n - 1].reply.Some? {
        assert SucceededAt(answers) == idx0 + [n - 1];
        assert StageOne(answers) == s0 + [StageOneEntryOf(answers[n - 1])];
      } else {
        assert SucceededAt(answers) == idx0;
        assert StageOne(answers) == s0;
      }
    }
  }

  /** Stage 1 is empty exactly when every call failed. */
  lemma StageOneEmpty(answers: seq<Answer>)
    ensures StageOne(answers) == [] <==> forall a <- answers :: a.reply.None?
  {
    StageOneExact(answers);
    var idx := SucceededAt(answers);
    if idx != [] {
      assert answers[idx[0]] in answers;
    } else {
      forall a <- answers ensures a.reply.None? {
        var k :| 0 <= k < |answers| && answers[k] == a;
      }
    }
  }

  // ---------------------------------------------------------------------
  // Stage 2

  /** The entry stage 2 makes of a successful ranker: its full text and the
      labels parsed from it. */
  function StageTwoEntryOf(a: Answer): StageTwoEntry
    requires a.reply.Some?
  {
    var fullText := ContentOr(a.reply.value, "");
    StageTwoEntry(a.model, fullText, ParseRanking(fullText))
  }

  /** The stage-2 results for the given answers of the rankers. */
  function StageTwo(answers: seq<Answer>): seq<StageTwoEntry>
    decreases |answers|
  {
    if answers == [] then []
    else
      var n := |answers|;
      var before := StageTwo(answers[..n - 1]);
      if answers[n - 1].reply.Some? then before + [StageTwoEntryOf(answers[n - 1])] else before
  }

  /** `stage2_collect_rankings`: the label map for the stage-1 entries, and
      one entry per successful ranker. */
  method Stage2CollectRankings(stage1: seq<StageOneEntry>, answers: seq<Answer>)
    returns (stage2: seq<StageTwoEntry>, labelToModel: map<string, Model>)
    requires |stage1| <= Capacity
    ensures stage2 == StageTwo(answers)
    ensures labelToModel == LabelMap(ModelsOf(stage1))
  {
    labelToModel := LabelMap(ModelsOf(stage1));
    stage2 := [];
    for i := 0 to |answers|
      invariant stage2 == StageTwo(answers[..i])
    {
      assert answers[..i + 1][..i] == answers[..i];
      var answer := answers[i];
      if answer.reply.Some? {
        var fullText := ContentOr(answer.reply.value, "");
        var parsed := ParseRanking(fullText);
        stage2 := stage2 + [StageTwoEntry(answer.model, fullText, parsed)];
      }
    }
    assert answers[..|answers|] == answers;
  }

  /** Stage 2 has one entry per successful ranker, in order, each holding the
      ranker's full text and the labels parsed from it. */
  lemma {:induction false} StageTwoExact(answers: seq<Answer>)
    ensures var stage2 := StageTwo(answers); var idx := SucceededAt(answers);
      && |stage2| == |idx|
      && forall i | 0 <= i < |idx| :: stage2[i] == StageTwoEntryOf(answers[idx[i]])
    decreases |answers|
  {
    if answers != [] {
      var n := |answers|;
      var front := answers[..n - 1];
      StageTwoExact(front);
      var idx0 := SucceededAt(front);
      var s0 := StageTwo(front);
      forall i | 0 <= i < |idx0| ensures s0[i] == StageTwoEntryOf(answers[idx0[i]]) {
        assert front[idx0[i]] == answers[idx0[i]];
      }
      if answers[n - 1].reply.Some? {
        assert SucceededAt(answers) == idx0 + [n - 1];
        assert StageTwo(answers) == s0 + [StageTwoEntryOf(answers[n - 1])];
      } else {
        assert SucceededAt(answers) == idx0;
        assert StageTwo(answers) == s0;
      }
    }
  }

  // ---------------------------------------------------------------------
  // Stage 2.5

  /** What the stage-2.5 call for one stage-1 entry is asked: the prompt
      built from the question, the entry's answer and its peers' critiques. */
  function CorrectionPrompts(userQuery: string, stage1: seq<StageOneEntry>, stage2: seq<StageTwoEntry>): seq<string>
    decreases |stage1|
  {
    if stage1 == [] then []
    else
      var n := |stage1|;
      var e := stage1[n - 1];
      CorrectionPrompts(userQuery, stage1[..n - 1], stage2)
        + [BuildCorrectionPrompt(userQuery, e.response, PeerCritiques(e.model, stage2))]
  }

  /** The answer kept for one entry: the returned content, or the original
      answer when the call failed or returned no content. */
  function CorrectedResponse(original: string, reply: Option<Reply>): string
  {
    match reply
    case Some(r) => ContentOr(r, original)
    case None => original
  }

  /** The stage-2.5 results for the stage-1 entries and the answers of their
      correction calls (one per entry, as `asyncio.gather` returns them). */
  function StageTwoFive(stage1: seq<StageOneEntry>, stage2: seq<StageTwoEntry>, replies: seq<Option<Reply>>)
    : seq<StageTwoFiveEntry>
    requires |replies| == |stage1|
    decreases |stage1|
  {
    if stage1 == [] then []
    else
      var n := |stage1|;
      var e := stage1[n - 1];
      StageTwoFive(stage1[..n - 1], stage2, replies[..n - 1])
        + [StageTwoFiveEntry(e.model, e.response, PeerCritiques(e.model, stage2),
                             CorrectedResponse(e.response, replies[n - 1]))]
  }

  lemma CorrectionPromptsStep(userQuery: string, stage1: seq<StageOneEntry>, stage2: seq<StageTwoEntry>, i: nat)
    requires i < |stage1|
    ensures CorrectionPrompts(userQuery, stage1[..i + 1], stage2) == CorrectionPrompts(userQuery, stage1[..i], stage2)
      + [BuildCorrectionPrompt(userQuery, stage1[i].response, PeerCritiques(stage1[i].model, stage2))]
  {
    assert stage1[..i + 1][..i] == stage1[..i];
  }

  lemma StageTwoFiveStep(stage1: seq<StageOneEntry>, stage2: seq<StageTwoEntry>, replies: seq<Option<Reply>>, i: nat)
    requires |replies| == |stage1| && i < |stage1|
    ensures StageTwoFive(stage1[..i + 1], stage2, replies[..i + 1]) == StageTwoFive(stage1[..i], stage2, replies[..i])
      + [StageTwoFiveEntry(stage1[i].model, stage1[i].response, PeerCritiques(stage1[i].model, stage2),
                           CorrectedResponse(stage1[i].response, replies[i]))]
  {
    assert stage1[..i + 1][..i] == stage1[..i];
    assert replies[..i + 1][..i] == replies[..i];
  }

  /** The first loop of `stage2_5_collect_corrections`: for each stage-1
      entry, its peers' critiques and the correction prompt sent to it. */
  method BuildCorrectionTasks(userQuery: string, stage1: seq<StageOneEntry>, stage2: seq<StageTwoEntry>)
    returns (prompts: seq<string>, critiquesOf: seq<string>)
    ensures prompts == CorrectionPrompts(userQuery, stage1, stage2)
    ensures |critiquesOf| == |stage1|
    ensures forall j | 0 <= j < |stage1| :: critiquesOf[j] == PeerCritiques(stage1[j].model, stage2)
  {
    prompts, critiquesOf := [], [];
    for i := 0 to |stage1|
      invariant prompts == CorrectionPrompts(userQuery, stage1[..i], stage2)
      invariant |critiquesOf| == i
      invariant forall j | 0 <= j < i :: critiquesOf[j] == PeerCritiques(stage1[j].model, stage2)
    {
      CorrectionPromptsStep(userQuery, stage1, stage2, i);
      var model := stage1[i].model;
      var originalResponse := stage1[i].response;
      var peerCritiques := FormatPeerCritiques(model, stage2);
      var prompt := BuildCorrectionPrompt(userQuery, originalResponse, peerCritiques);
      prompts := prompts + [prompt];
      critiquesOf := critiquesOf + [peerCritiques];
    }
    assert stage1[..|stage1|] == stage1;
  }

  /** The second loop of `stage2_5_collect_corrections`: one result per
      stage-1 entry, from the answer of its correction call. */
  method AssembleCorrections(stage1: seq<StageOneEntry>, stage2: seq<StageTwoEntry>,
                             critiquesOf: seq<string>, replies: seq<Option<Reply>>)
    returns (results: seq<StageTwoFiveEntry>)
    requires |replies| == |stage1| && |critiquesOf| == |stage1|
    requires forall j | 0 <= j < |stage1| :: critiquesOf[j] == PeerCritiques(stage1[j].model, stage2)
    ensures results == StageTwoFive(stage1, stage2, replies)
  {
    results := [];
    for i := 0 to |stage1|
      invariant results == StageTwoFive(stage1[..i], stage2, replies[..i])
    {
      StageTwoFiveStep(stage1, stage2, replies, i);
      var response := replies[i];
      var correctedResponse;
      if response.Some? {
        correctedResponse := ContentOr(response.value, stage1[i].response);
      } else {
        correctedResponse := stage1[i].response;
      }
      results := results + [StageTwoFiveEntry(stage1[i].model, stage1[i].response, critiquesOf[i], correctedResponse)];
    }
    assert stage1[..|stage1|] == stage1 && replies[..|replies|] == replies;
  }

  /** `stage2_5_collect_corrections`: the prompts sent (one per stage-1 entry)
      and the results assembled from the calls' answers. */
  method Stage2_5CollectCorrections(
    userQuery: string, stage1: seq<StageOneEntry>, stage2: seq<StageTwoEntry>, replies: seq<Option<Reply>>)
    returns (prompts: seq<string>, results: seq<StageTwoFiveEntry>)
    requires |replies| == |stage1|
    ensures prompts == CorrectionPrompts(userQuery, stage1, stage2)
    ensures results == StageTwoFive(stage1, stage2, replies)
  {
    var critiquesOf;
    prompts, critiquesOf := BuildCorrectionTasks(userQuery, stage1, stage2);
    results := AssembleCorrections(stage1, stage2, critiquesOf, replies);
  }

  /** Stage 2.5 has one entry per stage-1 entry, in the same order, with the
      same model and original answer and that model's peer critiques; the
      corrected answer is the returned content on success and the original
      answer when the call failed or returned no content. */
  lemma {:induction false} StageTwoFiveShape(stage1: seq<StageOneEntry>, stage2: seq<StageTwoEntry>, replies: seq<Option<Reply>>)
    requires |replies| == |stage1|
    ensures var results := StageTwoFive(stage1, stage2, replies);
      && |results| == |stage1|
      && forall i | 0 <= i < |stage1| ::
           && results[i].model == stage1[i].model
           && results[i].originalResponse == stage1[i].response
           && results[i].peerCritiques == PeerCritiques(stage1[i].model, stage2)
           && (replies[i].Some? && replies[i].value.content.Some? ==>
                 results[i].correctedResponse == replies[i].value.content.value)
           && (replies[i].None? || replies[i].value.content.None? ==>
                 results[i].correctedResponse == stage1[i].response)
    decreases |stage1|
  {
    if stage1 != [] {
      var n := |stage1|;
      StageTwoFiveShape(stage1[..n - 1], stage2, replies[..n - 1]);
    }
  }

  /** Each prompt carries its entry's answer and the critiques of every
      other ranker, never the model's own. */
  lemma {:induction false} CorrectionPromptsShape(userQuery: string, stage1: seq<StageOneEntry>, stage2: seq<StageTwoEntry>)
    ensures var prompts := CorrectionPrompts(userQuery, stage1, stage2);
      && |prompts| == |stage1|
      && forall i | 0 <= i < |stage1| ::
           prompts[i] == BuildCorrectionPrompt(userQuery, stage1[i].response, PeerCritiques(stage1[i].model, stage2))
    decreases |stage1|
  {
    if stage1 != [] {
      CorrectionPromptsShape(userQuery, stage1[..|stage1| - 1], stage2);
    }
  }

  // ---------------------------------------------------------------------
  // Stage 3

  const SynthesisError: string := "Error: Unable to generate final synthesis."

  /** The chairman's context block for one corrected answer. */
  function CorrectedBlock(e: StageTwoFiveEntry): string
  {
    "Model: " + e.model + "\nCorrected Response: " + e.correctedResponse
  }

  /** The chairman's context block for one ranking. */
  function RankingBlock(e: StageTwoEntry): string
  {
    "Model: " + e.model + "\nRanking: " + e.ranking
  }

  /** The two context sections inserted into the chairman prompt. */
  function ChairmanContext(stage2_5: seq<StageTwoFiveEntry>, stage2: seq<StageTwoEntry>): (string, string)
  {
    (Join("\n\n", seq(|stage2_5|, i requires 0 <= i < |stage2_5| => CorrectedBlock(stage2_5[i]))),
     Join("\n\n", seq(|stage2|, i requires 0 <= i < |stage2| => RankingBlock(stage2[i]))))
  }

  /** Every corrected answer and every ranking reaches the chairman,
      attributed to its model. */
  lemma ChairmanSeesAll(stage2_5: seq<StageTwoFiveEntry>, stage2: seq<StageTwoEntry>)
    ensures forall i | 0 <= i < |stage2_5| :: Contains(ChairmanContext(stage2_5, stage2).0, CorrectedBlock(stage2_5[i]))
    ensures forall i | 0 <= i < |stage2| :: Contains(ChairmanContext(stage2_5, stage2).1, RankingBlock(stage2[i]))
  {
    var corrected := seq(|stage2_5|, i requires 0 <= i < |stage2_5| => CorrectedBlock(stage2_5[i]));
    var rankings := seq(|stage2|, i requires 0 <= i < |stage2| => RankingBlock(stage2[i]));
    forall i | 0 <= i < |stage2_5| ensures Contains(ChairmanContext(stage2_5, stage2).0, CorrectedBlock(stage2_5[i])) {
      JoinContainsParts("\n\n", corrected, i);
    }
    forall i | 0 <= i < |stage2| ensures Contains(ChairmanContext(stage2_5, stage2).1, RankingBlock(stage2[i])) {
      JoinContainsParts("\n\n", rankings, i);
    }
  }

  /** `stage3_synthesize_final`'s result: always attributed to the chairman;
      the sentinel when the call failed, the returned content otherwise. */
  function StageThree(chairman: Model, reply: Option<Reply>): (r: FinalResult)
    ensures r.model == chairman
    ensures reply.None? ==> r.response == SynthesisError
    ensures reply.Some? && reply.value.content.Some? ==> r.response == reply.value.content.value
    ensures reply.Some? && reply.value.content.None? ==> r.response == ""
  {
    match reply
    case None => FinalResult(chairman, SynthesisError)
    case Some(r) => FinalResult(chairman, ContentOr(r, ""))
  }

  // ---------------------------------------------------------------------
  // The driver

  const AllFailedModel: Model := "error"
  const AllFailedMessage: string := "All models failed to respond. Please try again."

  /** What the driver returns when no council member answered. */
  function AllFailedBundle(): RunBundle
  {
    RunBundle([], [], [], FinalResult(AllFailedModel, AllFailedMessage), EmptyMetadata)
  }

  /** The inputs of one run: the question, the chairman, and the answers of
      the four rounds of remote calls. */
  datatype RunInputs = RunInputs(
    userQuery: string,
    chairman: Model,
    stage1Answers: seq<Answer>,
    stage2Answers: seq<Answer>,
    correctionReplies: seq<Option<Reply>>,
    chairmanReply: Option<Reply>)

  /** The inputs the driver can be run on: no more stage-1 entries than the
      alphabet has labels, and one correction answer per stage-1 entry. */
  predicate Runnable(inputs: RunInputs)
  {
    var n := |StageOne(inputs.stage1Answers)|;
    n <= Capacity && (n == 0 || |inputs.correctionReplies| == n)
  }

  /** The specification of `run_full_council`. */
  function CouncilRun(inputs: RunInputs): RunBundle
    requires Runnable(inputs)
  {
    var stage1 := StageOne(inputs.stage1Answers);
    if stage1 == [] then AllFailedBundle()
    else
      var stage2 := StageTwo(inputs.stage2Answers);
      var labelToModel := LabelMap(ModelsOf(stage1));
      var stage2_5 := StageTwoFive(stage1, stage2, inputs.correctionReplies);
      RunBundle(stage1, stage2, stage2_5, StageThree(inputs.chairman, inputs.chairmanReply),
                Metadata(labelToModel, AggregateRankings(stage2, labelToModel)))
  }

  /** `run_full_council`. */
  method RunFullCouncil(inputs: RunInputs) returns (bundle: RunBundle)
    requires Runnable(inputs)
    ensures bundle == CouncilRun(inputs)
  {
    var stage1 := Stage1CollectResponses(inputs.stage1Answers);
    if stage1 == [] {
      return RunBundle([], [], [], FinalResult(AllFailedModel, AllFailedMessage), EmptyMetadata);
    }
    var stage2, labelToModel := Stage2CollectRankings(stage1, inputs.stage2Answers);
    var aggregateRankings := CalculateAggregateRankings(stage2, labelToModel);
    var _, stage2_5 := Stage2_5CollectCorrections(inputs.userQuery, stage1, stage2, inputs.correctionReplies);
    var stage3 := StageThree(inputs.chairman, inputs.chairmanReply);
    bundle := RunBundle(stage1, stage2, stage2_5, stage3, Metadata(labelToModel, aggregateRankings));
  }

  /** When every council member failed, the run stops after stage 1 with the
      error result, whatever the later rounds would have answered. */
  lemma AllFailedShortCircuit(inputs: RunInputs)
    requires Runnable(inputs)
    requires forall a <- inputs.stage1Answers :: a.reply.None?
    ensures CouncilRun(inputs) == RunBundle([], [], [], FinalResult("error", AllFailedMessage), EmptyMetadata)
  {
    StageOneEmpty(inputs.stage1Answers);
  }

  /** When some member answered, the run goes through every stage: stage 2.5
      has one entry per stage-1 entry, the label map one label per stage-1
      entry, and the aggregate is computed from stage 2 with that map. */
  lemma FullRunShape(inputs: RunInputs)
    requires Runnable(inputs)
    requires exists a <- inputs.stage1Answers :: a.reply.Some?
    ensures var bundle := CouncilRun(inputs);
      && bundle.stage1 == StageOne(inputs.stage1Answers) != []
      && |bundle.stage2_5| == |bundle.stage1|
      && bundle.metadata.Metadata?
      && |bundle.metadata.labelToModel| == |bundle.stage1|
      && bundle.metadata.aggregateRankings == AggregateRankings(bundle.stage2, bundle.metadata.labelToModel)
      && bundle.stage3.model == inputs.chairman
  {
    StageOneEmpty(inputs.stage1Answers);
    var stage1 := StageOne(inputs.stage1Answers);
    StageTwoFiveShape(stage1, StageTwo(inputs.stage2Answers), inputs.correctionReplies);
    LabelMapSize(ModelsOf(stage1));
  }

  /** A chairman failure touches only the final result: every other part of
      the run is what it would have been, and the final result is the
      sentinel, attributed to the chairman. */
  lemma ChairmanFailureLocal(inputs: RunInputs)
    requires Runnable(inputs)
    requires exists a <- inputs.stage1Answers :: a.reply.Some?
    ensures CouncilRun(inputs.(chairmanReply := None))
         == CouncilRun(inputs).(stage3 := FinalResult(inputs.chairman, SynthesisError))
  {
    StageOneEmpty(inputs.stage1Answers);
  }

  // ---------------------------------------------------------------------
  // The conversation title

  const DefaultTitle: string := "New Conversation"
  const MaxTitleLength: nat := 50

  predicate IsQuote(c: char)
  {
    c == '"' || c == '\''
  }

  /** `.strip()` followed by `.strip('"\'')`. */
  function CleanTitle(s: string): string
  {
    Strip(Strip(s, IsSpace), IsQuote)
  }

  /** The post-processing of `generate_conversation_title`, from the answer
      of the title call. */
  method GenerateConversationTitle(reply: Option<Reply>) returns (title: string)
    ensures |title| <= MaxTitleLength
    ensures reply.None? ==> title == DefaultTitle
    ensures reply.Some? ==>
      var cleaned := CleanTitle(ContentOr(reply.value, DefaultTitle));
      && (|cleaned| <= MaxTitleLength ==> title == cleaned)
      && (|cleaned| > MaxTitleLength ==> title == cleaned[..47] + "...")
  {
    if reply.None? {
      return DefaultTitle;
    }
    title := Strip(ContentOr(reply.value, DefaultTitle), IsSpace);
    title := Strip(title, IsQuote);
    if |title| > MaxTitleLength {
      title := title[..47] + "...";
    }
  }

  /** The cleaned title neither starts nor ends with a quote, and is a
      contiguous piece of the stripped answer. */
  lemma CleanTitleNoQuotes(s: string)
    ensures var t := CleanTitle(s);
      t != "" ==> !IsQuote(t[0]) && !IsQuote(t[|t| - 1])
    ensures var stripped := Strip(s, IsSpace);
      exists i: nat, j: nat :: StrippableAround(stripped, IsQuote, i, j) && CleanTitle(s) == stripped[i..j]
  {
    StripKeepsCore(Strip(s, IsSpace), IsQuote);
  }

  /** A reply without content falls back to the default title, which the
      clean-up leaves as it is. */
  lemma MissingContentTitle()
    ensures CleanTitle(DefaultTitle) == DefaultTitle
  {
    var d := DefaultTitle;
    assert d[0] == 'N' && d[|d| - 1] == 'n';
    assert TrimStart(d, IsSpace) == d;
    assert TrimEnd(d, IsSpace) == d;
    assert TrimStart(d, IsQuote) == d;
    assert TrimEnd(d, IsQuote) == d;
  }
}
