/** Stage 2.5's inputs: the peer critiques a model is shown
    (`format_peer_critiques`) and the prompt that asks it to correct its
    answer (`build_correction_prompt`). */
module Critiques {
  import opened CouncilTypes
  import opened Text

  const CritiqueHead: string := "Peer evaluation from "

  /** The separator `format_peer_critiques` joins the blocks with. */
  const BlockSeparator: string := "\n\n"

  /** The attributed block of one ranker's evaluation. */
  function Critique(e: StageTwoEntry): string
  {
    CritiqueHead + e.model + ":\n" + e.ranking
  }

  /** The blocks `model` is shown: one per entry of another model, in the
      order of the entries. */
  function CritiqueBlocks(model: Model, stage2: seq<StageTwoEntry>): seq<string>
    decreases |stage2|
  {
    if stage2 == [] then []
    else
      var n := |stage2|;
      var before := CritiqueBlocks(model, stage2[..n - 1]);
      if stage2[n - 1].model == model then before else before + [Critique(stage2[n - 1])]
  }

  /** The text of `format_peer_critiques(model, stage2)`. */
  function PeerCritiques(model: Model, stage2: seq<StageTwoEntry>): string
  {
    Join(BlockSeparator, CritiqueBlocks(model, stage2))
  }

  /** The loop of the source: skip the model's own entry, append the others'
      blocks, join them. */
  method FormatPeerCritiques(model: Model, stage2: seq<StageTwoEntry>) returns (text: string)
    ensures text == PeerCritiques(model, stage2)
  {
    var critiques: seq<string> := [];
    for i := 0 to |stage2|
      invariant critiques == CritiqueBlocks(model, stage2[..i])
    {
      assert stage2[..i + 1][..i] == stage2[..i];
      var result := stage2[i];
      if result.model == model {
        continue;
      }
      var criticModel := result.model;
      var critiqueText := result.ranking;
      critiques := critiques + [CritiqueHead + criticModel + ":\n" + critiqueText];
    }
    assert stage2[..|stage2|] == stage2;
    text := Join(BlockSeparator, critiques);
  }

  // ---------------------------------------------------------------------
  // Properties

  /** Self-exclusion: every block is the block of an entry of another model,
      and every entry of another model contributes its block. */
  lemma {:induction false} CritiqueBlocksExact(model: Model, stage2: seq<StageTwoEntry>, b: string)
    ensures b in CritiqueBlocks(model, stage2) <==>
      exists k | 0 <= k < |stage2| :: stage2[k].model != model && b == Critique(stage2[k])
    decreases |stage2|
  {
    if stage2 != [] {
      var n := |stage2|;
      var front := stage2[..n - 1];
      CritiqueBlocksExact(model, front, b);
      if b in CritiqueBlocks(model, front) {
        var k :| 0 <= k < |front| && front[k].model != model && b == Critique(front[k]);
        assert stage2[k] == front[k];
      } else if exists k | 0 <= k < n :: stage2[k].model != model && b == Critique(stage2[k]) {
        var k :| 0 <= k < n && stage2[k].model != model && b == Critique(stage2[k]);
        if k < n - 1 {
          assert front[k] == stage2[k];
        }
      }
    }
  }

  /** The blocks of two runs of entries are the blocks of the first, then
      those of the second: the order of the entries is kept. */
  lemma {:induction false} CritiqueBlocksAppend(model: Model, a: seq<StageTwoEntry>, b: seq<StageTwoEntry>)
    ensures CritiqueBlocks(model, a + b) == CritiqueBlocks(model, a) + CritiqueBlocks(model, b)
    decreases |b|
  {
    if b == [] {
      assert a + b == a;
    } else {
      var n := |b|;
      CritiqueBlocksAppend(model, a, b[..n - 1]);
      assert (a + b)[..|a + b| - 1] == a + b[..n - 1];
    }
  }

  /** How many entries belong to `model`. */
  function OwnEntries(model: Model, stage2: seq<StageTwoEntry>): nat
    decreases |stage2|
  {
    if stage2 == [] then 0
    else
      var n := |stage2|;
      OwnEntries(model, stage2[..n - 1]) + if stage2[n - 1].model == model then 1 else 0
  }

  /** One block per entry, except the model's own. */
  lemma {:induction false} CritiqueBlocksCount(model: Model, stage2: seq<StageTwoEntry>)
    ensures |CritiqueBlocks(model, stage2)| + OwnEntries(model, stage2) == |stage2|
    decreases |stage2|
  {
    if stage2 != [] {
      CritiqueBlocksCount(model, stage2[..|stage2| - 1]);
    }
  }

  /** The critiques are empty exactly when every entry is the model's own
      (in particular when there are no entries at all). */
  lemma PeerCritiquesEmpty(model: Model, stage2: seq<StageTwoEntry>)
    ensures PeerCritiques(model, stage2) == "" <==> forall e <- stage2 :: e.model == model
  {
    var blocks := CritiqueBlocks(model, stage2);
    JoinEmpty(BlockSeparator, blocks);
    if blocks != [] {
      CritiqueBlocksExact(model, stage2, blocks[0]);
      var k :| 0 <= k < |stage2| && stage2[k].model != model && blocks[0] == Critique(stage2[k]);
      assert |Critique(stage2[k])| > 0;
    } else {
      forall e <- stage2 ensures e.model == model {
        var k :| 0 <= k < |stage2| && stage2[k] == e;
        CritiqueBlocksExact(model, stage2, Critique(e));
      }
    }
  }

  /** Every other model's evaluation appears, attributed, in the text. */
  lemma PeerCritiquesShowOthers(model: Model, stage2: seq<StageTwoEntry>, k: nat)
    requires k < |stage2| && stage2[k].model != model
    ensures Contains(PeerCritiques(model, stage2), Critique(stage2[k]))
  {
    var blocks := CritiqueBlocks(model, stage2);
    CritiqueBlocksExact(model, stage2, Critique(stage2[k]));
    var i :| 0 <= i < |blocks| && blocks[i] == Critique(stage2[k]);
    JoinContainsParts(BlockSeparator, blocks, i);
  }

  // ---------------------------------------------------------------------
  // The correction prompt

  const PromptIntro: string :=
    "You previously answered a question, and your peers have provided feedback on your response.\n\nOriginal Question: "
  const PromptAnswer: string := "\n\nYour Original Answer:\n"
  const PromptFeedback: string := "\n\nPeer Feedback:\n\n"
  const PromptOutro: string :=
    "\n\nBased on this feedback from your peers, please provide a corrected and improved version of your response."
    + " Address the valid criticisms and incorporate any useful suggestions while maintaining the strengths of"
    + " your original answer.\n\nCorrected Response:"

  /** A template of four fixed pieces with three holes, filled. */
  function Fill(intro: string, question: string, answer: string, original: string, feedback: string, critiques: string, outro: string): string
  {
    intro + question + answer + original + feedback + critiques + outro
  }

  /** Each filled-in hole can be read back out of the text by offsets. */
  lemma FillPieces(intro: string, question: string, answer: string, original: string, feedback: string, critiques: string, outro: string)
    ensures var s := Fill(intro, question, answer, original, feedback, critiques, outro);
      && |s| == |intro| + |question| + |answer| + |original| + |feedback| + |critiques| + |outro|
      && s[..|intro|] == intro
      && s[|intro|..|intro| + |question|] == question
      && s[|intro| + |question| + |answer|..|intro| + |question| + |answer| + |original|] == original
      && s[|intro| + |question| + |answer| + |original| + |feedback|..|s| - |outro|] == critiques
      && s[|s| - |outro|..] == outro
  {
    var s := Fill(intro, question, answer, original, feedback, critiques, outro);
    var i1 := |intro|;
    var i2 := i1 + |question|;
    var i3 := i2 + |answer|;
    var i4 := i3 + |original|;
    var i5 := i4 + |feedback|;
    var i6 := i5 + |critiques|;
    forall k | 0 <= k < |question| ensures s[i1 + k] == question[k] {}
    forall k | 0 <= k < |original| ensures s[i3 + k] == original[k] {}
    forall k | 0 <= k < |critiques| ensures s[i5 + k] == critiques[k] {}
  }

  /** `build_correction_prompt`: the fixed template with the question, the
      original answer and the critiques filled in. */
  function BuildCorrectionPrompt(userQuery: string, originalResponse: string, peerCritiques: string): (prompt: string)
    ensures |prompt| == |PromptIntro| + |userQuery| + |PromptAnswer| + |originalResponse|
      + |PromptFeedback| + |peerCritiques| + |PromptOutro|
    ensures prompt[..|PromptIntro|] == PromptIntro
    ensures prompt[|prompt| - |PromptOutro|..] == PromptOutro
  {
    FillPieces(PromptIntro, userQuery, PromptAnswer, originalResponse, PromptFeedback, peerCritiques, PromptOutro);
    Fill(PromptIntro, userQuery, PromptAnswer, originalResponse, PromptFeedback, peerCritiques, PromptOutro)
  }

  /** Where the critiques start in the prompt. */
  function CritiquesOffset(userQuery: string, originalResponse: string): nat
  {
    |PromptIntro| + |userQuery| + |PromptAnswer| + |originalResponse| + |PromptFeedback|
  }

  /** The critiques can be read back out of the prompt: they are what lies
      between the feedback heading and the closing instructions. */
  lemma CorrectionPromptCritiques(userQuery: string, originalResponse: string, peerCritiques: string)
    ensures var prompt := BuildCorrectionPrompt(userQuery, originalResponse, peerCritiques);
      prompt[CritiquesOffset(userQuery, originalResponse)..|prompt| - |PromptOutro|] == peerCritiques
  {
    FillPieces(PromptIntro, userQuery, PromptAnswer, originalResponse, PromptFeedback, peerCritiques, PromptOutro);
  }

  /** Hence, for one question and one original answer, different critiques
      give different prompts. */
  lemma CorrectionPromptInjective(userQuery: string, originalResponse: string, c1: string, c2: string)
    requires BuildCorrectionPrompt(userQuery, originalResponse, c1) == BuildCorrectionPrompt(userQuery, originalResponse, c2)
    ensures c1 == c2
  {
    CorrectionPromptCritiques(userQuery, originalResponse, c1);
    CorrectionPromptCritiques(userQuery, originalResponse, c2);
  }

  /** The question and the original answer are inserted verbatim. */
  lemma CorrectionPromptPieces(userQuery: string, originalResponse: string, peerCritiques: string)
    ensures var prompt := BuildCorrectionPrompt(userQuery, originalResponse, peerCritiques);
      && prompt[|PromptIntro|..|PromptIntro| + |userQuery|] == userQuery
      && OccursAt(originalResponse, prompt, |PromptIntro| + |userQuery| + |PromptAnswer|)
  {
    FillPieces(PromptIntro, userQuery, PromptAnswer, originalResponse, PromptFeedback, peerCritiques, PromptOutro);
  }
}
