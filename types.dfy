/** The records the council pipeline passes between its stages. */
module CouncilTypes {

  /** A council member or chairman: an opaque model identifier. */
  type Model = string

  datatype Option<+T> = None | Some(value: T)

  /** A successful answer of the model invoker. `content` is `None` when the
      reply record carries no 'content' field; a failed call is `None` at the
      `Option<Reply>` level. */
  datatype Reply = Reply(content: Option<string>)

  /** `reply.get('content', default)`. */
  function ContentOr(reply: Reply, default: string): (c: string)
    ensures reply.content.None? ==> c == default
    ensures reply.content.Some? ==> c == reply.content.value
  {
    match reply.content
    case Some(text) => text
    case None => default
  }

  datatype StageOneEntry = StageOneEntry(model: Model, response: string)

  /** `ranking` is the ranker's full text; `parsedRanking` the labels read from it. */
  datatype StageTwoEntry = StageTwoEntry(model: Model, ranking: string, parsedRanking: seq<string>)

  datatype StageTwoFiveEntry = StageTwoFiveEntry(
    model: Model,
    originalResponse: string,
    peerCritiques: string,
    correctedResponse: string)

  datatype FinalResult = FinalResult(model: Model, response: string)

  /** One row of the aggregate ranking; `averageRank` is the exact mean position. */
  datatype AggregateRow = AggregateRow(model: Model, averageRank: real, rankingsCount: nat)

  /** The run's metadata record; `EmptyMetadata` is the `{}` of a run that stopped after stage 1. */
  datatype Metadata =
    | EmptyMetadata
    | Metadata(labelToModel: map<string, Model>, aggregateRankings: seq<AggregateRow>)

  datatype RunBundle = RunBundle(
    stage1: seq<StageOneEntry>,
    stage2: seq<StageTwoEntry>,
    stage2_5: seq<StageTwoFiveEntry>,
    stage3: FinalResult,
    metadata: Metadata)

  /** The models of a sequence of stage-1 entries, in order. */
  function ModelsOf(entries: seq<StageOneEntry>): (models: seq<Model>)
    ensures |models| == |entries|
    ensures forall i | 0 <= i < |entries| :: models[i] == entries[i].model
  {
    seq(|entries|, i requires 0 <= i < |entries| => entries[i].model)
  }

  predicate Distinct<T(==)>(s: seq<T>)
  {
    forall i, j | 0 <= i < j < |s| :: s[i] != s[j]
  }
}
