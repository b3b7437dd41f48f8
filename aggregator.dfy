/** The aggregator (`calculate_aggregate_rankings`): turns every ranker's
    parsed ranking into positions per model, averages them and orders the
    models best (lowest average) first.

    The specification is built from the votes the rankings cast: a `Vote` is
    one resolvable label with its 1-based position in the parsed ranking it
    comes from. */
module Aggregator {
  import opened CouncilTypes
  import opened RankingParser
  import opened RankSort

  datatype Vote = Vote(model: Model, position: nat)

  // ---------------------------------------------------------------------
  // Votes

  /** `enumerate(parsed_ranking, start=1)` keeping the labels the map
      resolves: unresolvable labels are dropped but still use up their
      position. */
  function RankingVotes(parsed: seq<string>, labelToModel: map<string, Model>): (votes: seq<Vote>)
    ensures forall v <- votes :: 1 <= v.position <= |parsed|
    decreases |parsed|
  {
    if parsed == [] then []
    else
      var n := |parsed|;
      var before := RankingVotes(parsed[..n - 1], labelToModel);
      if parsed[n - 1] in labelToModel then before + [Vote(labelToModel[parsed[n - 1]], n)]
      else before
  }

  /** A model gets position `p` from a ranking exactly when the ranking's
      `p`-th label (counting every label, resolvable or not) maps to it. */
  lemma {:induction false} RankingVotesExact(parsed: seq<string>, labelToModel: map<string, Model>, model: Model, p: nat)
    ensures Vote(model, p) in RankingVotes(parsed, labelToModel) <==>
      1 <= p <= |parsed| && parsed[p - 1] in labelToModel && labelToModel[parsed[p - 1]] == model
    decreases |parsed|
  {
    if parsed != [] {
      var n := |parsed|;
      RankingVotesExact(parsed[..n - 1], labelToModel, model, p);
      if 1 <= p < n {
        assert parsed[..n - 1][p - 1] == parsed[p - 1];
      }
    }
  }

  /** The longest parsed ranking among the rankers' texts. */
  function MaxParsedLength(stage2: seq<StageTwoEntry>): (m: nat)
    ensures forall e <- stage2 :: |ParseRanking(e.ranking)| <= m
    ensures stage2 == [] ==> m == 0
    ensures stage2 != [] ==> exists e <- stage2 :: |ParseRanking(e.ranking)| == m
    decreases |stage2|
  {
    if stage2 == [] then 0
    else
      var before := MaxParsedLength(stage2[..|stage2| - 1]);
      var last := |ParseRanking(stage2[|stage2| - 1].ranking)|;
      assert forall e <- stage2 :: e in stage2[..|stage2| - 1] || e == stage2[|stage2| - 1];
      if before < last then last else before
  }

  /** Every vote of every ranker, ranker by ranker. The rankings are parsed
      again from the rankers' raw texts. */
  function AllVotes(stage2: seq<StageTwoEntry>, labelToModel: map<string, Model>): seq<Vote>
    decreases |stage2|
  {
    if stage2 == [] then []
    else
      var n := |stage2|;
      AllVotes(stage2[..n - 1], labelToModel) + RankingVotes(ParseRanking(stage2[n - 1].ranking), labelToModel)
  }

  /** Every vote names a model of the label map, at a position no larger
      than the longest parsed ranking. */
  lemma {:induction false} AllVotesResolve(stage2: seq<StageTwoEntry>, labelToModel: map<string, Model>)
    ensures forall v <- AllVotes(stage2, labelToModel) ::
      v.model in labelToModel.Values && 1 <= v.position <= MaxParsedLength(stage2)
    decreases |stage2|
  {
    if stage2 != [] {
      var n := |stage2|;
      AllVotesResolve(stage2[..n - 1], labelToModel);
      var parsed := ParseRanking(stage2[n - 1].ranking);
      forall v <- RankingVotes(parsed, labelToModel)
        ensures v.model in labelToModel.Values && v.position <= MaxParsedLength(stage2)
      {
        RankingVotesExact(parsed, labelToModel, v.model, v.position);
      }
    }
  }

  /** The positions `model` received, in the order they were cast. */
  function PositionsOf(votes: seq<Vote>, model: Model): (ps: seq<nat>)
    ensures |ps| <= |votes|
    decreases |votes|
  {
    if votes == [] then []
    else
      var n := |votes|;
      var before := PositionsOf(votes[..n - 1], model);
      if votes[n - 1].model == model then before + [votes[n - 1].position] else before
  }

  /** The index of the first vote for `model`, or `|votes|` when it has none. */
  function FirstVote(votes: seq<Vote>, model: Model): (f: nat)
    ensures f <= |votes|
    ensures f < |votes| ==> votes[f].model == model
    ensures forall k | 0 <= k < f :: votes[k].model != model
    decreases |votes|
  {
    if votes == [] then 0
    else
      var n := |votes|;
      var before := FirstVote(votes[..n - 1], model);
      if before < n - 1 then before
      else if votes[n - 1].model == model then n - 1
      else n
  }

  // ---------------------------------------------------------------------
  // The tally: `model_positions`, a dict that remembers insertion order

  /** `order` lists the keys of `model_positions` in insertion order. */
  datatype Tally = Tally(order: seq<Model>, positions: map<Model, seq<nat>>)

  /** `model_positions[model].append(position)` on a `defaultdict(list)`. */
  function AddVote(t: Tally, v: Vote): Tally
  {
    if v.model in t.positions then
      Tally(t.order, t.positions[v.model := t.positions[v.model] + [v.position]])
    else
      Tally(t.order + [v.model], t.positions[v.model := [v.position]])
  }

  function TallyOf(votes: seq<Vote>): (t: Tally)
    ensures forall m <- t.order :: m in t.positions
    decreases |votes|
  {
    if votes == [] then Tally([], map[])
    else AddVote(TallyOf(votes[..|votes| - 1]), votes[|votes| - 1])
  }

  /** The tally's keys are its order, without repetition. */
  lemma {:induction false} TallyKeys(votes: seq<Vote>)
    ensures var t := TallyOf(votes);
      Distinct(t.order) && forall m :: m in t.positions <==> m in t.order
    decreases |votes|
  {
    if votes != [] {
      TallyKeys(votes[..|votes| - 1]);
    }
  }

  /** The first vote for `model` among `votes` and one more vote. */
  lemma FirstVoteAppend(votes: seq<Vote>, model: Model)
    requires votes != []
    ensures var n := |votes|; var f := FirstVote(votes[..n - 1], model);
      FirstVote(votes, model) == if f < n - 1 then f else if votes[n - 1].model == model then n - 1 else n
  {
  }

  /** A model has positions exactly when it has a first vote. */
  lemma {:induction false} PositionsFirstVote(votes: seq<Vote>, model: Model)
    ensures PositionsOf(votes, model) != [] <==> FirstVote(votes, model) < |votes|
    decreases |votes|
  {
    if votes != [] {
      PositionsFirstVote(votes[..|votes| - 1], model);
    }
  }

  /** The tally holds, for every model that got a vote and no other, the
      positions it got, in the order they were cast. */
  lemma {:induction false} TallyPositions(votes: seq<Vote>)
    ensures var t := TallyOf(votes);
      && (forall m :: m in t.positions <==> FirstVote(votes, m) < |votes|)
      && (forall m <- t.positions :: t.positions[m] == PositionsOf(votes, m) != [])
    decreases |votes|
  {
    if votes != [] {
      var front := votes[..|votes| - 1];
      TallyPositions(front);
      var t := TallyOf(votes);
      forall m ensures m in t.positions <==> FirstVote(votes, m) < |votes| {
        assert TallyPositionsAt(front, m);
        TallyPositionsStep(votes, m);
      }
      forall m <- t.positions ensures t.positions[m] == PositionsOf(votes, m) != [] {
        assert TallyPositionsAt(front, m);
        TallyPositionsStep(votes, m);
      }
    }
  }

  /** What `TallyPositions` says of one model. */
  predicate TallyPositionsAt(votes: seq<Vote>, m: Model)
  {
    var t := TallyOf(votes);
    && (m in t.positions <==> FirstVote(votes, m) < |votes|)
    && (m in t.positions ==> t.positions[m] == PositionsOf(votes, m) != [])
  }

  /** One more vote keeps the tally of one model right. */
  lemma TallyPositionsStep(votes: seq<Vote>, m: Model)
    requires votes != []
    requires TallyPositionsAt(votes[..|votes| - 1], m)
    ensures TallyPositionsAt(votes, m)
  {
    var n := |votes|;
    var front := votes[..n - 1];
    var v := votes[n - 1];
    var t0 := TallyOf(front);
    var t := TallyOf(votes);
    assert t == AddVote(t0, v);
    FirstVoteAppend(votes, m);
    assert PositionsOf(votes, m) == if v.model == m
      then PositionsOf(front, m) + [v.position]
      else PositionsOf(front, m);
    if m != v.model {
      assert (m in t.positions) == (m in t0.positions);
      if m in t0.positions {
        assert t.positions[m] == t0.positions[m];
      }
    } else if m in t0.positions {
      assert t.positions[m] == t0.positions[m] + [v.position];
    } else {
      assert t.positions[m] == [v.position];
      assert PositionsOf(front, m) == [] by {
        if PositionsOf(front, m) != [] {
          PositionsFirstVote(front, m);
        }
      }
    }
  }

  /** The tally's keys are ordered by each model's first vote: the order in
      which the models first received a position. */
  lemma {:induction false} TallyFirstSeen(votes: seq<Vote>)
    ensures var t := TallyOf(votes);
      forall i, j | 0 <= i < j < |t.order| :: FirstVote(votes, t.order[i]) < FirstVote(votes, t.order[j])
    decreases |votes|
  {
    if votes != [] {
      var n := |votes|;
      var front := votes[..n - 1];
      var v := votes[n - 1];
      TallyFirstSeen(front);
      TallyKeys(front);
      TallyPositions(front);
      var t0 := TallyOf(front);
      var t := TallyOf(votes);
      forall i, j | 0 <= i < j < |t.order|
        ensures FirstVote(votes, t.order[i]) < FirstVote(votes, t.order[j])
      {
        FirstVoteAppend(votes, t.order[i]);
        FirstVoteAppend(votes, t.order[j]);
        assert t.order[i] == t0.order[i] && t.order[i] in t0.positions;
        if j < |t0.order| {
          assert t.order[j] == t0.order[j] && t.order[j] in t0.positions;
        }
      }
    }
  }

  // ---------------------------------------------------------------------
  // Rows and the aggregate

  function Sum(ps: seq<nat>): nat
    decreases |ps|
  {
    if ps == [] then 0 else Sum(ps[..|ps| - 1]) + ps[|ps| - 1]
  }

  /** `sum(positions) / len(positions)`, exactly. */
  function Average(ps: seq<nat>): real
  {
    if ps == [] then 0.0 else Sum(ps) as real / |ps| as real
  }

  /** The rows of the aggregate before sorting, one per model with
      positions, in the tally's order. */
  function RowsFor(order: seq<Model>, positions: map<Model, seq<nat>>): (rows: seq<AggregateRow>)
    requires forall m <- order :: m in positions
    decreases |order|
  {
    if order == [] then []
    else
      var n := |order|;
      var before := RowsFor(order[..n - 1], positions);
      var ps := positions[order[n - 1]];
      if |ps| > 0 then before + [AggregateRow(order[n - 1], Average(ps), |ps|)] else before
  }

  /** When every model in `order` has positions, there is one row per model,
      in the same order. */
  lemma {:induction false} RowsForExact(order: seq<Model>, positions: map<Model, seq<nat>>)
    requires forall m <- order :: m in positions && positions[m] != []
    ensures |RowsFor(order, positions)| == |order|
    ensures forall k | 0 <= k < |order| ::
      RowsFor(order, positions)[k] == AggregateRow(order[k], Average(positions[order[k]]), |positions[order[k]]|)
    decreases |order|
  {
    if order != [] {
      RowsForExact(order[..|order| - 1], positions);
    }
  }

  /** The aggregate of a sequence of votes: one row per model that got a
      vote, sorted by average. */
  function AggregateOf(votes: seq<Vote>): seq<AggregateRow>
  {
    var t := TallyOf(votes);
    SortByAverage(RowsFor(t.order, t.positions))
  }

  /** The specification of `calculate_aggregate_rankings`. */
  function AggregateRankings(stage2: seq<StageTwoEntry>, labelToModel: map<string, Model>): seq<AggregateRow>
  {
    AggregateOf(AllVotes(stage2, labelToModel))
  }

  // ---------------------------------------------------------------------
  // The aggregator as the source computes it

  /** One step of the inner loop: the tally after the ranking's first
      `position` labels. */
  lemma VotesStep(done: seq<Vote>, parsed: seq<string>, position: nat, labelToModel: map<string, Model>)
    requires 1 <= position <= |parsed|
    ensures var before := done + RankingVotes(parsed[..position - 1], labelToModel);
      TallyOf(done + RankingVotes(parsed[..position], labelToModel)) ==
        if parsed[position - 1] in labelToModel
        then AddVote(TallyOf(before), Vote(labelToModel[parsed[position - 1]], position))
        else TallyOf(before)
  {
    var before := done + RankingVotes(parsed[..position - 1], labelToModel);
    assert parsed[..position][..position - 1] == parsed[..position - 1];
    if parsed[position - 1] in labelToModel {
      var v := Vote(labelToModel[parsed[position - 1]], position);
      assert done + RankingVotes(parsed[..position], labelToModel) == before + [v];
      assert (before + [v])[..|before|] == before;
    }
  }

  /** One step of the outer loop: the votes of the first `i + 1` rankers. */
  lemma RankerStep(stage2: seq<StageTwoEntry>, i: nat, labelToModel: map<string, Model>)
    requires i < |stage2|
    ensures AllVotes(stage2[..i + 1], labelToModel) ==
      AllVotes(stage2[..i], labelToModel) + RankingVotes(ParseRanking(stage2[i].ranking), labelToModel)
  {
    assert stage2[..i + 1][..i] == stage2[..i];
  }

  /** The nested loops of the source: `model_positions` filled ranking by
      ranking, label by label. */
  method CollectPositions(stage2: seq<StageTwoEntry>, labelToModel: map<string, Model>)
    returns (order: seq<Model>, positions: map<Model, seq<nat>>)
    ensures Tally(order, positions) == TallyOf(AllVotes(stage2, labelToModel))
  {
    order, positions := [], map[];
    for i := 0 to |stage2|
      invariant Tally(order, positions) == TallyOf(AllVotes(stage2[..i], labelToModel))
    {
      var parsed := ParseRanking(stage2[i].ranking);
      order, positions := CollectRanking(parsed, labelToModel, order, positions, AllVotes(stage2[..i], labelToModel));
      RankerStep(stage2, i, labelToModel);
    }
    assert stage2[..|stage2|] == stage2;
  }

  /** The inner loop: one parsed ranking's labels added to the tally of the
      votes `done` before it. */
  method CollectRanking(parsed: seq<string>, labelToModel: map<string, Model>,
                        order0: seq<Model>, positions0: map<Model, seq<nat>>, ghost done: seq<Vote>)
    returns (order: seq<Model>, positions: map<Model, seq<nat>>)
    requires Tally(order0, positions0) == TallyOf(done)
    ensures Tally(order, positions) == TallyOf(done + RankingVotes(parsed, labelToModel))
  {
    order, positions := order0, positions0;
    assert parsed[..0] == [] && done + [] == done;
    for position := 1 to |parsed| + 1
      invariant Tally(order, positions) == TallyOf(done + RankingVotes(parsed[..position - 1], labelToModel))
    {
      VotesStep(done, parsed, position, labelToModel);
      var responseLabel := parsed[position - 1];
      if responseLabel in labelToModel {
        var model := labelToModel[responseLabel];
        // the defaultdict creates the missing list and appends to it
        if model !in positions {
          order := order + [model];
          positions := positions[model := [position]];
        } else {
          positions := positions[model := positions[model] + [position]];
        }
      }
    }
    assert parsed[..|parsed|] == parsed;
  }

  method CalculateAggregateRankings(stage2: seq<StageTwoEntry>, labelToModel: map<string, Model>)
    returns (aggregate: seq<AggregateRow>)
    ensures aggregate == AggregateRankings(stage2, labelToModel)
  {
    var order, positions := CollectPositions(stage2, labelToModel);
    aggregate := [];
    for k := 0 to |order|
      invariant aggregate == RowsFor(order[..k], positions)
    {
      assert order[..k + 1][..k] == order[..k];
      var model := order[k];
      var modelPositions := positions[model];
      if |modelPositions| > 0 {
        aggregate := aggregate + [AggregateRow(model, Average(modelPositions), |modelPositions|)];
      }
    }
    assert order[..|order|] == order;
    aggregate := SortByAverage(aggregate);
  }

  // ---------------------------------------------------------------------
  // Properties of the aggregate

  /** `model` received position `p` from the parsed ranking `parsed`: the
      `p`-th label (unresolvable ones counted too) maps to it. */
  predicate Resolves(parsed: seq<string>, labelToModel: map<string, Model>, model: Model, p: nat)
  {
    1 <= p <= |parsed| && parsed[p - 1] in labelToModel && labelToModel[parsed[p - 1]] == model
  }

  /** A position is recorded for `model` exactly when some vote for
      `model` carries it. */
  lemma {:induction false} PositionsOfExact(votes: seq<Vote>, model: Model, p: nat)
    ensures p in PositionsOf(votes, model) <==> Vote(model, p) in votes
    decreases |votes|
  {
    if votes != [] {
      var n := |votes|;
      PositionsOfExact(votes[..n - 1], model, p);
      assert votes == votes[..n - 1] + [votes[n - 1]];
    }
  }

  /** The ranker at index `k` gave `model` position `p`. */
  predicate RankerGave(stage2: seq<StageTwoEntry>, k: nat, labelToModel: map<string, Model>, model: Model, p: nat)
    requires k < |stage2|
  {
    Resolves(ParseRanking(stage2[k].ranking), labelToModel, model, p)
  }

  lemma {:induction false} AllVotesExact(stage2: seq<StageTwoEntry>, labelToModel: map<string, Model>, model: Model, p: nat)
    ensures Vote(model, p) in AllVotes(stage2, labelToModel) <==>
      exists k | 0 <= k < |stage2| :: RankerGave(stage2, k, labelToModel, model, p)
    decreases |stage2|
  {
    if stage2 != [] {
      var n := |stage2|;
      var front := stage2[..n - 1];
      var last := ParseRanking(stage2[n - 1].ranking);
      AllVotesExact(front, labelToModel, model, p);
      RankingVotesExact(last, labelToModel, model, p);
      var v := Vote(model, p);
      assert AllVotes(stage2, labelToModel) == AllVotes(front, labelToModel) + RankingVotes(last, labelToModel);
      if v in AllVotes(front, labelToModel) {
        var k :| 0 <= k < |front| && RankerGave(front, k, labelToModel, model, p);
        assert front[k] == stage2[k];
        assert RankerGave(stage2, k, labelToModel, model, p);
      } else if v in RankingVotes(last, labelToModel) {
        assert RankerGave(stage2, n - 1, labelToModel, model, p);
      } else {
        forall k | 0 <= k < n ensures !RankerGave(stage2, k, labelToModel, model, p) {
          if k < n - 1 {
            assert front[k] == stage2[k];
            assert !RankerGave(front, k, labelToModel, model, p);
          }
        }
      }
    }
  }

  /** The positions recorded for `model` are exactly the 1-based indices,
      in some ranker's full parsed list, of the labels that map to it. */
  lemma PositionsAreIndices(stage2: seq<StageTwoEntry>, labelToModel: map<string, Model>, model: Model, p: nat)
    ensures p in PositionsOf(AllVotes(stage2, labelToModel), model) <==>
      exists k | 0 <= k < |stage2| :: RankerGave(stage2, k, labelToModel, model, p)
  {
    PositionsOfExact(AllVotes(stage2, labelToModel), model, p);
    AllVotesExact(stage2, labelToModel, model, p);
  }

  /** How many labels of `parsed` the map resolves to `model`. */
  function Mentions(parsed: seq<string>, labelToModel: map<string, Model>, model: Model): nat
    decreases |parsed|
  {
    if parsed == [] then 0
    else
      var n := |parsed|;
      var hit := parsed[n - 1] in labelToModel && labelToModel[parsed[n - 1]] == model;
      Mentions(parsed[..n - 1], labelToModel, model) + if hit then 1 else 0
  }

  /** How many labels, over every ranker's parsed ranking, resolve to `model`. */
  function MentionCount(stage2: seq<StageTwoEntry>, labelToModel: map<string, Model>, model: Model): nat
    decreases |stage2|
  {
    if stage2 == [] then 0
    else
      var n := |stage2|;
      MentionCount(stage2[..n - 1], labelToModel, model) + Mentions(ParseRanking(stage2[n - 1].ranking), labelToModel, model)
  }

  lemma {:induction false} PositionsOfAppend(a: seq<Vote>, b: seq<Vote>, model: Model)
    ensures PositionsOf(a + b, model) == PositionsOf(a, model) + PositionsOf(b, model)
    decreases |b|
  {
    if b == [] {
      assert a + b == a;
    } else {
      var n := |b|;
      var ab := a + b;
      PositionsOfAppend(a, b[..n - 1], model);
      AppendDropLast(a, b);
      PositionsOfLast(ab, model);
      PositionsOfLast(b, model);
      var last := if b[n - 1].model == model then [b[n - 1].position] else [];
      AppendAssoc(PositionsOf(a, model), PositionsOf(b[..n - 1], model), last);
    }
  }

  lemma AppendDropLast(a: seq<Vote>, b: seq<Vote>)
    requires b != []
    ensures (a + b)[..|a + b| - 1] == a + b[..|b| - 1]
    ensures (a + b)[|a + b| - 1] == b[|b| - 1]
  {
  }

  lemma AppendAssoc(x: seq<nat>, y: seq<nat>, z: seq<nat>)
    ensures x + y + z == x + (y + z)
  {
  }

  /** One step of `PositionsOf`, read from the last vote. */
  lemma PositionsOfLast(votes: seq<Vote>, model: Model)
    requires votes != []
    ensures PositionsOf(votes, model) == PositionsOf(votes[..|votes| - 1], model)
      + if votes[|votes| - 1].model == model then [votes[|votes| - 1].position] else []
  {
  }

  lemma {:induction false} RankingMentions(parsed: seq<string>, labelToModel: map<string, Model>, model: Model)
    ensures |PositionsOf(RankingVotes(parsed, labelToModel), model)| == Mentions(parsed, labelToModel, model)
    decreases |parsed|
  {
    if parsed != [] {
      var n := |parsed|;
      RankingMentions(parsed[..n - 1], labelToModel, model);
      if parsed[n - 1] in labelToModel {
        var v := Vote(labelToModel[parsed[n - 1]], n);
        PositionsOfAppend(RankingVotes(parsed[..n - 1], labelToModel), [v], model);
      }
    }
  }

  /** A model's number of positions is the number of parsed labels, across
      all rankings, that map to it. */
  lemma {:induction false} CountIsMentions(stage2: seq<StageTwoEntry>, labelToModel: map<string, Model>, model: Model)
    ensures |PositionsOf(AllVotes(stage2, labelToModel), model)| == MentionCount(stage2, labelToModel, model)
    decreases |stage2|
  {
    if stage2 != [] {
      var n := |stage2|;
      var parsed := ParseRanking(stage2[n - 1].ranking);
      CountIsMentions(stage2[..n - 1], labelToModel, model);
      RankingMentions(parsed, labelToModel, model);
      PositionsOfAppend(AllVotes(stage2[..n - 1], labelToModel), RankingVotes(parsed, labelToModel), model);
    }
  }

  /** The rows before sorting: one per model of the tally, in its order,
      with that model's positions. */
  lemma RowsOfTally(votes: seq<Vote>)
    ensures var t := TallyOf(votes); var rows := RowsFor(t.order, t.positions);
      && |rows| == |t.order|
      && Distinct(t.order)
      && (forall m :: m in t.order <==> PositionsOf(votes, m) != [])
      && (forall k | 0 <= k < |rows| ::
            var ps := PositionsOf(votes, t.order[k]);
            rows[k] == AggregateRow(t.order[k], Average(ps), |ps|) && ps != [])
  {
    var t := TallyOf(votes);
    TallyKeys(votes);
    TallyPositions(votes);
    forall m ensures m in t.order <==> PositionsOf(votes, m) != [] {
      PositionsFirstVote(votes, m);
    }
    RowsForExact(t.order, t.positions);
  }

  /** A model has a row exactly when it got a vote, and no model has two
      rows. */
  lemma AggregateOfMembers(votes: seq<Vote>)
    ensures DistinctModels(AggregateOf(votes))
    ensures forall m :: (exists r <- AggregateOf(votes) :: r.model == m) <==> PositionsOf(votes, m) != []
  {
    var t := TallyOf(votes);
    var rows := RowsFor(t.order, t.positions);
    RowsOfTally(votes);
    assert forall k | 0 <= k < |rows| :: rows[k].model == t.order[k];
    SortDistinct(rows);
    forall m ensures (exists r <- SortByAverage(rows) :: r.model == m) <==> m in t.order {
      SortKeepsRows(rows, m);
    }
  }

  /** Every row holds the count and the exact average of the positions its
      model received. */
  lemma AggregateOfRows(votes: seq<Vote>)
    ensures forall r <- AggregateOf(votes) ::
      && r.rankingsCount == |PositionsOf(votes, r.model)| >= 1
      && r.averageRank == Average(PositionsOf(votes, r.model))
  {
    var t := TallyOf(votes);
    var rows := RowsFor(t.order, t.positions);
    RowsOfTally(votes);
    forall r <- SortByAverage(rows)
      ensures r.rankingsCount == |PositionsOf(votes, r.model)| >= 1
      ensures r.averageRank == Average(PositionsOf(votes, r.model))
    {
      SortedRowIn(rows, r);
      var k :| 0 <= k < |rows| && rows[k] == r;
    }
  }

  /** A model has a row exactly when some parsed label maps to it, and no
      model has two rows. */
  lemma AggregateMembers(stage2: seq<StageTwoEntry>, labelToModel: map<string, Model>)
    ensures var votes := AllVotes(stage2, labelToModel);
      var aggregate := AggregateRankings(stage2, labelToModel);
      && DistinctModels(aggregate)
      && (forall m :: (exists r <- aggregate :: r.model == m) <==> PositionsOf(votes, m) != [])
  {
    AggregateOfMembers(AllVotes(stage2, labelToModel));
  }

  /** Every row names a model of the label map and holds the count and the
      exact average of the positions that model received. */
  lemma AggregateRowsHold(stage2: seq<StageTwoEntry>, labelToModel: map<string, Model>)
    ensures var votes := AllVotes(stage2, labelToModel);
      forall r <- AggregateRankings(stage2, labelToModel) ::
        && r.model in labelToModel.Values
        && r.rankingsCount == |PositionsOf(votes, r.model)| >= 1
        && r.averageRank == Average(PositionsOf(votes, r.model))
  {
    var votes := AllVotes(stage2, labelToModel);
    AggregateOfRows(votes);
    AllVotesResolve(stage2, labelToModel);
    forall r <- AggregateOf(votes) ensures r.model in labelToModel.Values {
      var ps := PositionsOf(votes, r.model);
      PositionsOfExact(votes, r.model, ps[0]);
    }
  }

  /** Every row's count is the number of parsed labels, across all
      rankings, that map to its model. */
  lemma AggregateCounts(stage2: seq<StageTwoEntry>, labelToModel: map<string, Model>)
    ensures forall r <- AggregateRankings(stage2, labelToModel) ::
      r.rankingsCount == MentionCount(stage2, labelToModel, r.model) >= 1
  {
    AggregateRowsHold(stage2, labelToModel);
    forall r <- AggregateRankings(stage2, labelToModel)
      ensures r.rankingsCount == MentionCount(stage2, labelToModel, r.model)
    {
      CountIsMentions(stage2, labelToModel, r.model);
    }
  }

  /** Ordering: ascending by average, and rows of equal average in the
      order in which their models first received a vote. */
  lemma AggregateOfOrder(votes: seq<Vote>)
    ensures SortedByAverage(AggregateOf(votes))
    ensures TiesOrderedBy(AggregateOf(votes), m => FirstVote(votes, m))
  {
    var t := TallyOf(votes);
    var rows := RowsFor(t.order, t.positions);
    SortSorted(rows);
    RowsOfTally(votes);
    TallyFirstSeen(votes);
    var key: Model -> int := m => FirstVote(votes, m);
    assert forall i, j | 0 <= i < j < |rows| :: key(rows[i].model) < key(rows[j].model);
    SortTies(rows, key);
  }

  /** The aggregate is ascending by average; rows of equal average are in
      the order in which their models first received a position. */
  lemma AggregateOrder(stage2: seq<StageTwoEntry>, labelToModel: map<string, Model>)
    ensures var votes := AllVotes(stage2, labelToModel);
      var aggregate := AggregateRankings(stage2, labelToModel);
      && SortedByAverage(aggregate)
      && TiesOrderedBy(aggregate, m => FirstVote(votes, m))
  {
    AggregateOfOrder(AllVotes(stage2, labelToModel));
  }

  /** `k * x`, by repeated addition. */
  function Scaled(k: nat, x: nat): nat
  {
    if k == 0 then 0 else Scaled(k - 1, x) + x
  }

  /** A sum of `k` values between `lo` and `hi` lies between `k` times each. */
  lemma {:induction false} SumBounds(ps: seq<nat>, lo: nat, hi: nat)
    requires forall i | 0 <= i < |ps| :: lo <= ps[i] <= hi
    ensures Scaled(|ps|, lo) <= Sum(ps) <= Scaled(|ps|, hi)
    decreases |ps|
  {
    if ps != [] {
      SumBounds(ps[..|ps| - 1], lo, hi);
    }
  }

  /** One more `x` on top of `n - 1` of them. */
  lemma MulStep(n: real, x: real)
    ensures (n - 1.0) * x + x == n * x
  {
  }

  /** Repeated addition is multiplication. */
  lemma {:induction false} ScaledIsProduct(k: nat, x: nat)
    ensures Scaled(k, x) as real == k as real * x as real
  {
    if k > 0 {
      ScaledIsProduct(k - 1, x);
      MulStep(k as real, x as real);
    }
  }

  /** Sharing `k` items of size `x` among `k` gives `x` each. */
  lemma ScaledQuotient(k: nat, x: nat)
    requires k > 0
    ensures Scaled(k, x) as real / k as real == x as real
  {
    ScaledIsProduct(k, x);
  }

  /** Division by a positive number keeps the order. */
  lemma DivMonotone(a: real, b: real, n: real)
    requires n > 0.0 && a <= b
    ensures a / n <= b / n
  {
  }

  /** An average lies between the bounds of what is averaged. */
  lemma AverageBounds(ps: seq<nat>, lo: nat, hi: nat)
    requires ps != []
    requires forall p <- ps :: lo <= p <= hi
    ensures lo as real <= Average(ps) <= hi as real
  {
    forall i | 0 <= i < |ps| ensures lo <= ps[i] <= hi {
      assert ps[i] in ps;
    }
    SumBounds(ps, lo, hi);
    var n := |ps|;
    DivMonotone(Scaled(n, lo) as real, Sum(ps) as real, n as real);
    DivMonotone(Sum(ps) as real, Scaled(n, hi) as real, n as real);
    ScaledQuotient(n, lo);
    ScaledQuotient(n, hi);
  }

  /** Every average is at least 1 and at most the length of the longest
      parsed ranking. */
  lemma AggregateBounds(stage2: seq<StageTwoEntry>, labelToModel: map<string, Model>)
    ensures forall r <- AggregateRankings(stage2, labelToModel) ::
      1.0 <= r.averageRank <= MaxParsedLength(stage2) as real
  {
    var votes := AllVotes(stage2, labelToModel);
    AggregateRowsHold(stage2, labelToModel);
    AllVotesResolve(stage2, labelToModel);
    forall r <- AggregateRankings(stage2, labelToModel)
      ensures 1.0 <= r.averageRank <= MaxParsedLength(stage2) as real
    {
      var ps := PositionsOf(votes, r.model);
      forall p <- ps ensures 1 <= p <= MaxParsedLength(stage2) {
        PositionsOfExact(votes, r.model, p);
      }
      AverageBounds(ps, 1, MaxParsedLength(stage2));
    }
  }

  // A worked example: two rankers, opposite orders, a tie.

  const ExampleMap: map<string, Model> := map[LabelPrefix + ['A'] := "m1", LabelPrefix + ['B'] := "m2"]

  /** A ranker whose text ends in the canonical two-line ranking of `x`, then `y`. */
  function ExampleRanker(name: string, x: char, y: char): StageTwoEntry
  {
    var text := Marker + TwoLines(x, y);
    StageTwoEntry(name, text, ParseRanking(text))
  }

  lemma ExampleRankingVotes(x: char, y: char, mx: Model, my: Model)
    requires LabelPrefix + [x] in ExampleMap && ExampleMap[LabelPrefix + [x]] == mx
    requires LabelPrefix + [y] in ExampleMap && ExampleMap[LabelPrefix + [y]] == my
    ensures RankingVotes([LabelPrefix + [x], LabelPrefix + [y]], ExampleMap) == [Vote(mx, 1), Vote(my, 2)]
  {
    var parsed := [LabelPrefix + [x], LabelPrefix + [y]];
    assert parsed[..1] == [LabelPrefix + [x]];
    assert parsed[..1][..0] == [];
    assert RankingVotes(parsed[..1][..0], ExampleMap) == [];
    assert RankingVotes(parsed[..1], ExampleMap) == [Vote(mx, 1)];
  }

  lemma ExampleVotes(r1: StageTwoEntry, r2: StageTwoEntry)
    requires ParseRanking(r1.ranking) == [LabelPrefix + ['B'], LabelPrefix + ['A']]
    requires ParseRanking(r2.ranking) == [LabelPrefix + ['A'], LabelPrefix + ['B']]
    ensures AllVotes([r1, r2], ExampleMap) == [Vote("m2", 1), Vote("m1", 2), Vote("m1", 1), Vote("m2", 2)]
  {
    var stage2 := [r1, r2];
    assert (LabelPrefix + ['A'])[9] != (LabelPrefix + ['B'])[9];
    ExampleRankingVotes('B', 'A', "m2", "m1");
    ExampleRankingVotes('A', 'B', "m1", "m2");
    RankerStep(stage2, 0, ExampleMap);
    RankerStep(stage2, 1, ExampleMap);
    assert stage2[..0] == [] && stage2[..2] == stage2;
  }

  lemma ExampleTally()
    ensures TallyOf([Vote("m2", 1), Vote("m1", 2), Vote("m1", 1), Vote("m2", 2)])
         == Tally(["m2", "m1"], map["m2" := [1, 2], "m1" := [2, 1]])
  {
    var votes := [Vote("m2", 1), Vote("m1", 2), Vote("m1", 1), Vote("m2", 2)];
    assert "m1" != "m2";
    assert votes[..3][..2][..1][..0] == [];
    var t1 := Tally(["m2"], map["m2" := [1]]);
    var t2 := Tally(["m2", "m1"], map["m2" := [1], "m1" := [2]]);
    var t3 := Tally(["m2", "m1"], map["m2" := [1], "m1" := [2, 1]]);
    assert TallyOf(votes[..1]) == t1;
    assert TallyOf(votes[..2]) == t2 by {
      assert votes[..2][..1] == votes[..1];
      assert AddVote(t1, votes[1]) == t2;
    }
    assert TallyOf(votes[..3]) == t3 by {
      assert votes[..3][..2] == votes[..2];
      assert [2] + [1] == [2, 1];
      assert t2.positions["m1" := [2] + [1]] == t3.positions;
    }
    assert votes[..4] == votes;
    assert [1] + [2] == [1, 2];
    assert t3.positions["m2" := [1] + [2]] == map["m2" := [1, 2], "m1" := [2, 1]];
  }

  lemma ExampleRows()
    ensures RowsFor(["m2", "m1"], map["m2" := [1, 2], "m1" := [2, 1]])
         == [AggregateRow("m2", 1.5, 2), AggregateRow("m1", 1.5, 2)]
  {
    var ps1: seq<nat> := [1, 2];
    var ps2: seq<nat> := [2, 1];
    assert Sum(ps1) == 3 by { assert ps1[..1] == [1] && ps1[..1][..0] == []; }
    assert Sum(ps2) == 3 by { assert ps2[..1] == [2] && ps2[..1][..0] == []; }
    var order: seq<Model> := ["m2", "m1"];
    assert order[..1] == ["m2"] && order[..1][..0] == [];
  }

  lemma ExampleSort(a: AggregateRow, b: AggregateRow)
    requires a.averageRank <= b.averageRank
    ensures SortByAverage([a, b]) == [a, b]
  {
    var rows := [a, b];
    assert rows[..1] == [a] && [a][..0] == [];
    assert SortByAverage([a]) == [a];
    assert [a][1..] == [];
    assert Insert([a], b) == [a] + [b];
  }

  /** Two rankers that rank the same two responses in opposite orders: both
      models average 1.5 over two rankings, and the tie keeps the model that
      received a position first (the first ranker's first choice) in front. */
  lemma TwoRankersTie()
    ensures AggregateRankings([ExampleRanker("r1", 'B', 'A'), ExampleRanker("r2", 'A', 'B')], ExampleMap)
         == [AggregateRow("m2", 1.5, 2), AggregateRow("m1", 1.5, 2)]
  {
    TwoLineRanking('B', 'A');
    TwoLineRanking('A', 'B');
    ExampleVotes(ExampleRanker("r1", 'B', 'A'), ExampleRanker("r2", 'A', 'B'));
    ExampleTally();
    ExampleRows();
    ExampleSort(AggregateRow("m2", 1.5, 2), AggregateRow("m1", 1.5, 2));
  }
}
