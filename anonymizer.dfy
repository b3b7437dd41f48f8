/** The anonymiser of stage 2: the i-th stage-1 entry is shown to the
    rankers as "Response " followed by the i-th letter, and `label_to_model`
    maps each label back to its model. */
module Anonymizer {
  import opened CouncilTypes
  import opened Text
  import opened RankingParser

  /** How many labels the alphabet A-Z provides. */
  const Capacity: nat := 26

  /** `f"Response {chr(65 + i)}"`, for the indices that stay inside A-Z. */
  function LabelOf(i: nat): (l: string)
    requires i < Capacity
    ensures IsLabel(l)
    ensures l[9] as int == 65 + i
  {
    LabelPrefix + [(65 + i) as char]
  }

  /** Different entries get different labels. */
  lemma LabelOfInjective(i: nat, j: nat)
    requires i < Capacity && j < Capacity
    ensures LabelOf(i) == LabelOf(j) <==> i == j
  {
    if LabelOf(i) == LabelOf(j) {
      assert LabelOf(i)[9] == LabelOf(j)[9];
    }
  }

  /** The label-to-model map of stage 2 for the stage-1 models in order;
      the capacity of the alphabet is a precondition. */
  function LabelMap(models: seq<Model>): (m: map<string, Model>)
    requires |models| <= Capacity
    ensures forall i | 0 <= i < |models| :: LabelOf(i) in m && m[LabelOf(i)] == models[i]
    ensures forall l <- m :: exists i | 0 <= i < |models| :: l == LabelOf(i)
    ensures forall l <- m :: IsLabel(l)
  {
    map i | 0 <= i < |models| :: LabelOf(i) := models[i]
  }

  /** The first `n` labels of the alphabet. */
  function LabelsUpTo(n: nat): set<string>
    requires n <= Capacity
  {
    set i | 0 <= i < n :: LabelOf(i)
  }

  /** The first `n` labels are `n` different labels. */
  lemma {:induction false} LabelsUpToSize(n: nat)
    requires n <= Capacity
    ensures |LabelsUpTo(n)| == n
  {
    if n > 0 {
      LabelsUpToSize(n - 1);
      assert LabelsUpTo(n) == LabelsUpTo(n - 1) + {LabelOf(n - 1)};
      forall i | 0 <= i < n - 1 ensures LabelOf(i) != LabelOf(n - 1) {
        LabelOfInjective(i, n - 1);
      }
    }
  }

  /** The map has exactly one key per stage-1 entry: the first `n` labels. */
  lemma LabelMapSize(models: seq<Model>)
    requires |models| <= Capacity
    ensures LabelMap(models).Keys == LabelsUpTo(|models|)
    ensures |LabelMap(models)| == |models|
  {
    assert LabelMap(models).Keys == LabelsUpTo(|models|);
    LabelsUpToSize(|models|);
  }

  /** With distinct models (the stage-1 entries come from a dict keyed by
      model), the map is one-to-one: no two labels name the same model. */
  lemma LabelMapInjective(models: seq<Model>, l1: string, l2: string)
    requires |models| <= Capacity && Distinct(models)
    requires l1 in LabelMap(models) && l2 in LabelMap(models)
    ensures LabelMap(models)[l1] == LabelMap(models)[l2] <==> l1 == l2
  {
    var m := LabelMap(models);
    var i :| 0 <= i < |models| && l1 == LabelOf(i);
    var j :| 0 <= j < |models| && l2 == LabelOf(j);
    LabelOfInjective(i, j);
  }

  /** Every label of the map is one the parser can hand back: the text that
      is just the label ranks it. */
  lemma LabelMapLabelsParse(models: seq<Model>, i: nat)
    requires |models| <= Capacity && i < |models|
    ensures ParseRanking(LabelOf(i)) == [LabelOf(i)]
  {
    var l := LabelOf(i);
    assert !Contains(l, Marker);
    WithoutMarkerWholeText(l);
    assert LabelAt(l, 0) && l[..10] == l;
    assert BareLabels(l[10..]) == [];
  }

  // ---------------------------------------------------------------------
  // The label map as the source writes it, with no capacity check

  /** `chr(65 + i)` with no bound on `i` (within the range of `char`). */
  function LabelAsWritten(i: nat): (l: string)
    requires 65 + i < 0xD800
    ensures |l| == 10 && l[..9] == LabelPrefix && l[9] as int == 65 + i
  {
    LabelPrefix + [(65 + i) as char]
  }

  /** The dict comprehension of stage 2 exactly as written: past 26 entries
      the labels run on to "Response [", "Response \\" and so on. */
  function LabelMapAsWritten(models: seq<Model>): (m: map<string, Model>)
    requires 65 + |models| <= 0xD800
    ensures forall i | 0 <= i < |models| :: LabelAsWritten(i) in m && m[LabelAsWritten(i)] == models[i]
  {
    map i | 0 <= i < |models| :: LabelAsWritten(i) := models[i]
  }

  /** Up to the capacity the map as written is the map of the model. */
  lemma AsWrittenAgreesUpToCapacity(models: seq<Model>)
    requires |models| <= Capacity
    ensures LabelMapAsWritten(models) == LabelMap(models)
  {
    assert forall i | 0 <= i < |models| :: LabelAsWritten(i) == LabelOf(i);
  }

  /** From the 27th stage-1 entry on, the label the map as written assigns
      can never be returned by the parser, whatever a ranker writes: that
      response is never ranked and never appears in the aggregate. */
  lemma OverflowLabelNeverParsed(models: seq<Model>, i: nat, text: string)
    requires 65 + |models| <= 0xD800
    requires Capacity <= i < |models|
    ensures LabelAsWritten(i) in LabelMapAsWritten(models)
    ensures LabelAsWritten(i) !in ParseRanking(text)
  {
    assert !IsLabel(LabelAsWritten(i));
  }
}
