/** The ranking parser (`parse_ranking_from_text`): reads the ordered list of
    anonymous labels out of a ranker's free text.

    The two regular expressions of the source are written out as scanners
    with `re.findall` semantics: the text is searched left to right, and
    after a match the search resumes where that match ended, so matches never
    overlap.
      - `Response [A-Z]`          : BareLabels
      - `\d+\.\s*Response [A-Z]`  : NumberedLabels (keeping only the label) */
module RankingParser {
  import opened CouncilTypes
  import opened Text

  /** The marker that opens the ranking section. */
  const Marker: string := "FINAL RANKING:"

  const LabelPrefix: string := "Response "

  /** A label as the parser emits it: "Response " and one letter A-Z. */
  predicate IsLabel(l: string)
  {
    |l| == 10 && l[..9] == LabelPrefix && IsUpper(l[9])
  }

  /** `Response [A-Z]` matches at index `i` of `s`. */
  predicate LabelAt(s: string, i: nat)
  {
    i + 10 <= |s| && IsLabel(s[i..i + 10])
  }

  /** The marker occurs at index `i` of `s`. */
  predicate MarkerAt(s: string, i: nat)
  {
    OccursAt(Marker, s, i)
  }

  // ---------------------------------------------------------------------
  // The bare pattern `Response [A-Z]`

  /** `re.findall(r'Response [A-Z]', s)`. */
  function BareLabels(s: string): (r: seq<string>)
    ensures forall l <- r :: IsLabel(l)
    ensures |r| <= |s| / 10
    decreases |s|
  {
    if |s| < 10 then []
    else if LabelAt(s, 0) then [s[..10]] + BareLabels(s[10..])
    else BareLabels(s[1..])
  }

  /** The bare scan finds nothing exactly when no label occurs anywhere. */
  lemma {:induction false} BareLabelsEmpty(s: string)
    ensures BareLabels(s) == [] <==> forall i: nat :: !LabelAt(s, i)
    decreases |s|
  {
    if |s| < 10 {
      forall i: nat ensures !LabelAt(s, i) {}
    } else if LabelAt(s, 0) {
    } else {
      BareLabelsEmpty(s[1..]);
      if BareLabels(s) == [] {
        forall i: nat ensures !LabelAt(s, i) {
          if i > 0 && LabelAt(s, i) {
            LabelAtSuffix(s, 1, i);
          }
        }
      } else {
        var i: nat :| LabelAt(s[1..], i);
        LabelAtFromSuffix(s, 1, i);
      }
    }
  }

  // ---------------------------------------------------------------------
  // Where the labels are read: every returned label is the text at one of
  // a list of increasing, non-overlapping match positions.

  /** `r` is what `s` holds at the positions `ps`, each a label, read left
      to right without overlap (repeated labels are separate entries). */
  predicate ReadAt(s: string, r: seq<string>, ps: seq<nat>)
  {
    && |ps| == |r|
    && (forall k | 0 <= k < |ps| :: LabelAt(s, ps[k]) && r[k] == s[ps[k]..ps[k] + 10])
    && (forall i, j | 0 <= i < j < |ps| :: ps[i] + 10 <= ps[j])
  }

  /** Every position moved on by `off`. */
  function Shift(ps: seq<nat>, off: nat): (qs: seq<nat>)
    ensures |qs| == |ps| && forall k | 0 <= k < |ps| :: qs[k] == ps[k] + off
  {
    seq(|ps|, k requires 0 <= k < |ps| => ps[k] + off)
  }

  /** What is read from a suffix of `s` is read from `s`, further on. */
  lemma ReadAtShift(s: string, off: nat, r: seq<string>, ps: seq<nat>)
    requires off <= |s| && ReadAt(s[off..], r, ps)
    ensures ReadAt(s, r, Shift(ps, off))
  {
    var qs := Shift(ps, off);
    forall k | 0 <= k < |qs| ensures LabelAt(s, qs[k]) && r[k] == s[qs[k]..qs[k] + 10] {
      assert s[off..][ps[k]..ps[k] + 10] == s[qs[k]..qs[k] + 10];
    }
  }

  /** What is read from a prefix of `s` is read from `s`, at the same places. */
  lemma ReadAtPrefix(s: string, n: nat, r: seq<string>, ps: seq<nat>)
    requires n <= |s| && ReadAt(s[..n], r, ps)
    ensures ReadAt(s, r, ps)
  {
    forall k | 0 <= k < |ps| ensures LabelAt(s, ps[k]) && r[k] == s[ps[k]..ps[k] + 10] {
      assert s[..n][ps[k]..ps[k] + 10] == s[ps[k]..ps[k] + 10];
    }
  }

  /** A label read before everything else that is read. */
  lemma ReadAtCons(s: string, start: nat, r: seq<string>, ps: seq<nat>)
    requires LabelAt(s, start) && ReadAt(s, r, ps)
    requires forall k | 0 <= k < |ps| :: start + 10 <= ps[k]
    ensures ReadAt(s, [s[start..start + 10]] + r, [start] + ps)
  {
    var r' := [s[start..start + 10]] + r;
    var ps' := [start] + ps;
    forall k | 0 <= k < |ps'| ensures LabelAt(s, ps'[k]) && r'[k] == s[ps'[k]..ps'[k] + 10] {
      if k > 0 {
        assert ps'[k] == ps[k - 1] && r'[k] == r[k - 1];
      }
    }
    forall i, j | 0 <= i < j < |ps'| ensures ps'[i] + 10 <= ps'[j] {
      assert ps'[j] == ps[j - 1];
      if i > 0 {
        assert ps'[i] == ps[i - 1];
      }
    }
  }

  /** A match ending at `e` whose last ten characters are a label, then
      what is read after it. */
  lemma ReadAtStep(s: string, e: nat, r: seq<string>, ps: seq<nat>)
    requires 10 <= e <= |s| && LabelAt(s, e - 10)
    requires ReadAt(s[e..], r, ps)
    ensures ReadAt(s, [s[e - 10..e]] + r, [e - 10] + Shift(ps, e))
  {
    ReadAtShift(s, e, r, ps);
    ReadAtCons(s, e - 10, r, Shift(ps, e));
  }

  /** Where each label of `BareLabels(s)` was found: the bare scan returns
      its matches left to right, without overlap, duplicates kept. */
  function BareStarts(s: string): (ps: seq<nat>)
    ensures ReadAt(s, BareLabels(s), ps)
    decreases |s|
  {
    if |s| < 10 then []
    else if LabelAt(s, 0) then
      var rest := BareStarts(s[10..]);
      ReadAtStep(s, 10, BareLabels(s[10..]), rest);
      [0] + Shift(rest, 10)
    else
      var rest := BareStarts(s[1..]);
      ReadAtShift(s, 1, BareLabels(s[1..]), rest);
      Shift(rest, 1)
  }

  /** Position `i` lies inside one of the matches that start at `ms` and
      end with the labels at `ps`. */
  predicate Covered(ms: seq<nat>, ps: seq<nat>, i: int)
  {
    exists k | 0 <= k < |ms| && k < |ps| :: ms[k] <= i < ps[k] + 10
  }

  /** Covering survives moving every match on by `off`, and putting a
      match in front. */
  lemma CoveredShift(ms: seq<nat>, ps: seq<nat>, off: nat, i: int, m0: nat, p0: nat)
    requires Covered(ms, ps, i - off)
    ensures Covered(Shift(ms, off), Shift(ps, off), i)
    ensures Covered([m0] + Shift(ms, off), [p0] + Shift(ps, off), i)
  {
    var k :| 0 <= k < |ms| && k < |ps| && ms[k] <= i - off < ps[k] + 10;
    var ns, qs := Shift(ms, off), Shift(ps, off);
    assert ns[k] <= i < qs[k] + 10;
    assert ([m0] + ns)[k + 1] == ns[k] && ([p0] + qs)[k + 1] == qs[k];
  }

  /** One step of the bare scan's positions. */
  lemma BareStartsStep(s: string)
    requires |s| >= 10
    ensures LabelAt(s, 0) ==> BareStarts(s) == [0] + Shift(BareStarts(s[10..]), 10)
    ensures !LabelAt(s, 0) ==> BareStarts(s) == Shift(BareStarts(s[1..]), 1)
  {
  }

  /** Every label in `s` lies inside one of the bare scan's matches: the
      scan returns a label or one that overlaps it, never skipping one. */
  lemma {:induction false} BareStartsCover(s: string, i: nat)
    requires LabelAt(s, i)
    ensures Covered(BareStarts(s), BareStarts(s), i)
    decreases |s|
  {
    if LabelAt(s, 0) && i < 10 {
      BareCoverFront(s, i);
    } else if LabelAt(s, 0) {
      LabelAtSuffix(s, 10, i);
      BareStartsCover(s[10..], i - 10);
      BareCoverAfter(s, 10, i);
    } else {
      assert i != 0;
      LabelAtSuffix(s, 1, i);
      BareStartsCover(s[1..], i - 1);
      BareCoverAfter(s, 1, i);
    }
  }

  /** A label inside the match at 0 is covered by it. */
  lemma BareCoverFront(s: string, i: nat)
    requires LabelAt(s, 0) && i < 10
    ensures Covered(BareStarts(s), BareStarts(s), i)
  {
    BareStartsStep(s);
    var rest := Shift(BareStarts(s[10..]), 10);
    CoveredFirst(0, 0, rest, rest, i);
  }

  /** What the scan from `off` covers, the scan from 0 covers: `off` is 10
      after a match at 0, and 1 when there is none. */
  lemma BareCoverAfter(s: string, off: nat, i: nat)
    requires |s| >= 10 && off <= i
    requires if LabelAt(s, 0) then off == 10 else off == 1
    requires Covered(BareStarts(s[off..]), BareStarts(s[off..]), i - off)
    ensures Covered(BareStarts(s), BareStarts(s), i)
  {
    BareStartsStep(s);
    var rest := BareStarts(s[off..]);
    CoveredShift(rest, rest, off, i, 0, 0);
  }

  /** A label of `s` at or after `off` is a label of `s[off..]`. */
  lemma LabelAtSuffix(s: string, off: nat, i: nat)
    requires off <= i && LabelAt(s, i)
    ensures LabelAt(s[off..], i - off)
  {
    assert s[off..][i - off..i - off + 10] == s[i..i + 10];
  }

  /** A label of `s[off..]` is a label of `s`, `off` further on. */
  lemma LabelAtFromSuffix(s: string, off: nat, i: nat)
    requires off <= |s| && LabelAt(s[off..], i)
    ensures LabelAt(s, off + i)
  {
    assert s[off..][i..i + 10] == s[off + i..off + i + 10];
  }

  /** The match in front covers what it spans. */
  lemma CoveredFirst(m0: nat, p0: nat, ms: seq<nat>, ps: seq<nat>, i: int)
    requires m0 <= i < p0 + 10
    ensures Covered([m0] + ms, [p0] + ps, i)
  {
    assert ([m0] + ms)[0] == m0 && ([p0] + ps)[0] == p0;
  }

  /** `r` is `re.findall(r'Response [A-Z]', s)` read at `ps`: every label
      read there, and every label of `s` inside one of them. */
  predicate BareScan(s: string, r: seq<string>, ps: seq<nat>)
  {
    && ReadAt(s, r, ps)
    && forall i | 0 <= i < |s| && LabelAt(s, i) :: Covered(ps, ps, i)
  }

  /** The bare scan is `re.findall`: sound and complete. */
  lemma BareLabelsScan(s: string)
    ensures BareScan(s, BareLabels(s), BareStarts(s))
  {
    forall i | 0 <= i < |s| && LabelAt(s, i) ensures Covered(BareStarts(s), BareStarts(s), i) {
      BareStartsCover(s, i);
    }
  }

  // ---------------------------------------------------------------------
  // The numbered pattern `\d+\.\s*Response [A-Z]`

  /** The end of the run of digits that starts at `i`. */
  function DigitRunEnd(s: string, i: nat): (j: nat)
    requires i <= |s|
    ensures i <= j <= |s|
    ensures forall k | i <= k < j :: IsDigit(s[k])
    ensures j < |s| ==> !IsDigit(s[j])
    decreases |s| - i
  {
    if i < |s| && IsDigit(s[i]) then DigitRunEnd(s, i + 1) else i
  }

  /** The end of the run of whitespace that starts at `i`. */
  function SpaceRunEnd(s: string, i: nat): (j: nat)
    requires i <= |s|
    ensures i <= j <= |s|
    ensures forall k | i <= k < j :: IsSpace(s[k])
    ensures j < |s| ==> !IsSpace(s[j])
    decreases |s| - i
  {
    if i < |s| && IsSpace(s[i]) then SpaceRunEnd(s, i + 1) else i
  }

  /** `\d+\.\s*Response [A-Z]` matches at index 0 of `s` with the digits
      ending at `d` (where the '.' is) and the blanks ending at `w` (where
      the label starts). */
  predicate NumberedMatch(s: string, d: nat, w: nat)
  {
    && 1 <= d < w <= |s|
    && (forall k | 0 <= k < d :: IsDigit(s[k]))
    && s[d] == '.'
    && (forall k | d + 1 <= k < w :: IsSpace(s[k]))
    && LabelAt(s, w)
  }

  /** Where a match of `\d+\.\s*Response [A-Z]` that begins at index 0 ends.
      Neither `\d+` nor `\s*` can give characters back usefully: the digits
      must be followed by '.', and the blanks by 'R', so only the longest
      runs can match (`NumberedMatchAtExact`). */
  function NumberedMatchAt(s: string): (r: Option<nat>)
    ensures r.Some? ==> 12 <= r.value <= |s| && LabelAt(s, r.value - 10)
    ensures r.Some? ==> IsDigit(s[0])
  {
    if s == [] || !IsDigit(s[0]) then None
    else
      var d := DigitRunEnd(s, 0);
      if d < |s| && s[d] == '.' then
        var w := SpaceRunEnd(s, d + 1);
        if LabelAt(s, w) then Some(w + 10) else None
      else None
  }

  /** The scanner is the pattern: it finds a match exactly when
      `\d+\.\s*Response [A-Z]` matches at index 0, and then ends where
      that match ends. */
  lemma NumberedMatchAtExact(s: string)
    ensures NumberedMatchAt(s).Some? ==>
      exists d: nat, w: nat :: NumberedMatch(s, d, w) && NumberedMatchAt(s).value == w + 10
    ensures forall d: nat, w: nat | NumberedMatch(s, d, w) :: NumberedMatchAt(s) == Some(w + 10)
  {
    if s == [] || !IsDigit(s[0]) {
      NoNumberedMatch(s);
    } else {
      var d := DigitRunEnd(s, 0);
      var w := if d < |s| && s[d] == '.' then SpaceRunEnd(s, d + 1) else d;
      NumberedMatchRuns(s, d, w);
      if d < |s| && s[d] == '.' && LabelAt(s, w) {
        assert NumberedMatch(s, d, w);
      }
    }
  }

  /** A label starts with 'R'. */
  lemma LabelStartsWithR(s: string, i: nat)
    requires LabelAt(s, i)
    ensures s[i] == 'R'
  {
    var l := s[i..i + 10];
    assert l[..9] == LabelPrefix;
    assert l[0] == l[..9][0];
  }

  /** A text that does not start with a digit has no numbered match at 0. */
  lemma NoNumberedMatch(s: string)
    requires s == [] || !IsDigit(s[0])
    ensures forall d: nat, w: nat :: !NumberedMatch(s, d, w)
  {
  }

  /** Any numbered match at 0 uses the longest run of digits and then the
      longest run of blanks. */
  lemma NumberedMatchRuns(s: string, d: nat, w: nat)
    requires s != [] && IsDigit(s[0])
    requires d == DigitRunEnd(s, 0)
    requires w == if d < |s| && s[d] == '.' then SpaceRunEnd(s, d + 1) else d
    ensures forall d': nat, w': nat | NumberedMatch(s, d', w') ::
      d' == d && d < |s| && s[d] == '.' && w' == w
  {
    forall d': nat, w': nat | NumberedMatch(s, d', w')
      ensures d' == d && d < |s| && s[d] == '.' && w' == w
    {
      assert d' == d;
      LabelStartsWithR(s, w');
    }
  }

  /** `[re.search(r'Response [A-Z]', m).group() for m in
      re.findall(r'\d+\.\s*Response [A-Z]', s)]`: the label that closes
      each numbered match. */
  function NumberedLabels(s: string): (r: seq<string>)
    ensures forall l <- r :: IsLabel(l)
    decreases |s|
  {
    if s == [] then []
    else match NumberedMatchAt(s)
      case Some(e) => [s[e - 10..e]] + NumberedLabels(s[e..])
      case None => NumberedLabels(s[1..])
  }

  /** A numbered match always closes with a label, so a non-empty numbered
      scan means a label occurs in the text. */
  lemma {:induction false} NumberedLabelsHaveLabel(s: string)
    ensures NumberedLabels(s) != [] ==> exists i: nat :: LabelAt(s, i)
    decreases |s|
  {
    if s != [] {
      match NumberedMatchAt(s)
      case Some(e) =>
        assert LabelAt(s, e - 10);
      case None =>
        NumberedLabelsHaveLabel(s[1..]);
        if NumberedLabels(s) != [] {
          var i: nat :| LabelAt(s[1..], i);
          assert s[1..][i..i + 10] == s[i + 1..i + 11];
          assert LabelAt(s, i + 1);
        }
    }
  }

  /** The numbered matches behind `ps`: the match at `ms[k]` is the
      scanner's and ends with the label at `ps[k]`; the matches do not
      overlap; and every position where a match starts lies inside one of
      them. */
  predicate NumberedSpans(s: string, ms: seq<nat>, ps: seq<nat>)
  {
    |ms| == |ps| && SpansMatch(s, ms, ps) && SpansApart(ms, ps) && SpansCover(s, ms, ps)
  }

  predicate SpansMatch(s: string, ms: seq<nat>, ps: seq<nat>)
  {
    forall k | 0 <= k < |ms| && k < |ps| ::
      && ms[k] <= |s| && NumberedMatchAt(s[ms[k]..]).Some?
      && ms[k] + NumberedMatchAt(s[ms[k]..]).value == ps[k] + 10
  }

  predicate SpansApart(ms: seq<nat>, ps: seq<nat>)
  {
    forall i, j | 0 <= i < j < |ms| && i < |ps| :: ps[i] + 10 <= ms[j]
  }

  predicate SpansCover(s: string, ms: seq<nat>, ps: seq<nat>)
  {
    forall i | 0 <= i < |s| && NumberedMatchAt(s[i..]).Some? :: Covered(ms, ps, i)
  }

  /** The numbered scan is `re.findall` of the numbered pattern: each
      returned label is read from the text where one of its matches ends,
      left to right without overlap, and no match is skipped (one that is
      not returned overlaps one that is). */
  lemma {:induction false} NumberedLabelsRead(s: string)
    ensures exists ms, ps :: ReadAt(s, NumberedLabels(s), ps) && NumberedSpans(s, ms, ps)
    decreases |s|
  {
    if s == [] {
      assert ReadAt(s, NumberedLabels(s), []) && NumberedSpans(s, [], []);
    } else {
      match NumberedMatchAt(s) {
        case Some(e) =>
          NumberedLabelsRead(s[e..]);
          NumberedReadAfterMatch(s, e);
        case None =>
          NumberedLabelsRead(s[1..]);
          NumberedReadAfterSkip(s);
      }
    }
  }

  /** The step of `NumberedLabelsRead` past a numbered match at 0. */
  lemma NumberedReadAfterMatch(s: string, e: nat)
    requires s != [] && NumberedMatchAt(s) == Some(e)
    requires exists ms, ps :: ReadAt(s[e..], NumberedLabels(s[e..]), ps) && NumberedSpans(s[e..], ms, ps)
    ensures exists ms, ps :: ReadAt(s, NumberedLabels(s), ps) && NumberedSpans(s, ms, ps)
  {
    var ms, rest :| ReadAt(s[e..], NumberedLabels(s[e..]), rest) && NumberedSpans(s[e..], ms, rest);
    NumberedReadMatch(s, e, rest);
    NumberedSpansMatch(s, e, ms, rest);
  }

  /** The step of `NumberedLabelsRead` past a character that starts no match. */
  lemma NumberedReadAfterSkip(s: string)
    requires s != [] && NumberedMatchAt(s) == None
    requires exists ms, ps :: ReadAt(s[1..], NumberedLabels(s[1..]), ps) && NumberedSpans(s[1..], ms, ps)
    ensures exists ms, ps :: ReadAt(s, NumberedLabels(s), ps) && NumberedSpans(s, ms, ps)
  {
    var ms, rest :| ReadAt(s[1..], NumberedLabels(s[1..]), rest) && NumberedSpans(s[1..], ms, rest);
    NumberedReadSkip(s, rest);
    NumberedSpansSkip(s, ms, rest);
  }

  /** A numbered match at 0: its label, then what is read after it. */
  lemma NumberedReadMatch(s: string, e: nat, rest: seq<nat>)
    requires s != [] && NumberedMatchAt(s) == Some(e)
    requires ReadAt(s[e..], NumberedLabels(s[e..]), rest)
    ensures ReadAt(s, NumberedLabels(s), [e - 10] + Shift(rest, e))
  {
    NumberedLabelsMatchStep(s, e);
    ReadAtStep(s, e, NumberedLabels(s[e..]), rest);
  }

  /** No numbered match at 0: what is read from one character on. */
  lemma NumberedReadSkip(s: string, rest: seq<nat>)
    requires s != [] && NumberedMatchAt(s) == None
    requires ReadAt(s[1..], NumberedLabels(s[1..]), rest)
    ensures ReadAt(s, NumberedLabels(s), Shift(rest, 1))
  {
    NumberedLabelsSkipStep(s);
    ReadAtShift(s, 1, NumberedLabels(s[1..]), rest);
  }

  /** The match at 0 spans `[0, e)`; the matches after it are those of
      `s[e..]`, moved on by `e`. */
  lemma NumberedSpansMatch(s: string, e: nat, ms: seq<nat>, ps: seq<nat>)
    requires s != [] && NumberedMatchAt(s) == Some(e)
    requires NumberedSpans(s[e..], ms, ps)
    ensures NumberedSpans(s, [0] + Shift(ms, e), [e - 10] + Shift(ps, e))
  {
    SpansMatchCons(s, e, ms, ps);
    SpansApartCons(e, ms, ps);
    SpansCoverCons(s, e, ms, ps);
  }

  lemma SpansMatchCons(s: string, e: nat, ms: seq<nat>, ps: seq<nat>)
    requires s != [] && NumberedMatchAt(s) == Some(e)
    requires |ms| == |ps| && SpansMatch(s[e..], ms, ps)
    ensures SpansMatch(s, [0] + Shift(ms, e), [e - 10] + Shift(ps, e))
  {
    var ms', ps' := [0] + Shift(ms, e), [e - 10] + Shift(ps, e);
    forall k | 0 <= k < |ms'| && k < |ps'|
      ensures ms'[k] <= |s| && NumberedMatchAt(s[ms'[k]..]).Some?
      ensures ms'[k] + NumberedMatchAt(s[ms'[k]..]).value == ps'[k] + 10
    {
      SpanMatchConsAt(s, e, ms, ps, k);
    }
  }

  lemma SpanMatchConsAt(s: string, e: nat, ms: seq<nat>, ps: seq<nat>, k: nat)
    requires s != [] && NumberedMatchAt(s) == Some(e)
    requires |ms| == |ps| && SpansMatch(s[e..], ms, ps) && k <= |ms|
    ensures var ms', ps' := [0] + Shift(ms, e), [e - 10] + Shift(ps, e);
      && ms'[k] <= |s| && NumberedMatchAt(s[ms'[k]..]).Some?
      && ms'[k] + NumberedMatchAt(s[ms'[k]..]).value == ps'[k] + 10
  {
    if k == 0 {
      assert s[0..] == s;
    } else {
      var m, p := ms[k - 1], ps[k - 1];
      assert m <= |s[e..]| && NumberedMatchAt(s[e..][m..]).Some? && m + NumberedMatchAt(s[e..][m..]).value == p + 10;
      SpanMatchLater(s, e, ms, ps, k);
    }
  }

  /** The match behind a later element: one of `s[e..]`, moved on by `e`. */
  lemma SpanMatchLater(s: string, e: nat, ms: seq<nat>, ps: seq<nat>, k: nat)
    requires 10 <= e <= |s| && |ms| == |ps| && 0 < k <= |ms|
    requires ms[k - 1] <= |s| - e
    requires NumberedMatchAt(s[e..][ms[k - 1]..]).Some?
    requires ms[k - 1] + NumberedMatchAt(s[e..][ms[k - 1]..]).value == ps[k - 1] + 10
    ensures var ms', ps' := [0] + Shift(ms, e), [e - 10] + Shift(ps, e);
      && ms'[k] <= |s| && NumberedMatchAt(s[ms'[k]..]).Some?
      && ms'[k] + NumberedMatchAt(s[ms'[k]..]).value == ps'[k] + 10
  {
    var ms', ps' := [0] + Shift(ms, e), [e - 10] + Shift(ps, e);
    ConsShiftAt(0, ms, e, k);
    ConsShiftAt(e - 10, ps, e, k);
    SpanMoved(s, e, ms[k - 1], ps[k - 1], ms'[k], ps'[k]);
  }

  /** Element `k` of a shifted list with one element put in front. */
  lemma ConsShiftAt(x: nat, ps: seq<nat>, off: nat, k: nat)
    requires 0 < k <= |ps|
    ensures ([x] + Shift(ps, off))[k] == ps[k - 1] + off
  {
  }

  /** A match at `m` in `s[off..]` is a match at `at == off + m` in `s`. */
  lemma SpanMoved(s: string, off: nat, m: nat, p: nat, at: nat, q: nat)
    requires off <= |s| && m <= |s| - off && at == off + m && q == p + off
    requires NumberedMatchAt(s[off..][m..]).Some? && m + NumberedMatchAt(s[off..][m..]).value == p + 10
    ensures at <= |s| && NumberedMatchAt(s[at..]).Some? && at + NumberedMatchAt(s[at..]).value == q + 10
  {
    assert s[off..][m..] == s[at..];
  }

  lemma SpansApartCons(e: nat, ms: seq<nat>, ps: seq<nat>)
    requires e >= 10 && |ms| == |ps| && SpansApart(ms, ps)
    ensures SpansApart([0] + Shift(ms, e), [e - 10] + Shift(ps, e))
  {
    var ms', ps' := [0] + Shift(ms, e), [e - 10] + Shift(ps, e);
    forall i, j | 0 <= i < j < |ms'| && i < |ps'| ensures ps'[i] + 10 <= ms'[j] {
      assert ms'[j] == ms[j - 1] + e;
      if i > 0 {
        assert ps'[i] == ps[i - 1] + e;
      }
    }
  }

  lemma SpansCoverCons(s: string, e: nat, ms: seq<nat>, ps: seq<nat>)
    requires s != [] && NumberedMatchAt(s) == Some(e)
    requires SpansCover(s[e..], ms, ps)
    ensures SpansCover(s, [0] + Shift(ms, e), [e - 10] + Shift(ps, e))
  {
    var ms', ps' := [0] + Shift(ms, e), [e - 10] + Shift(ps, e);
    forall i | 0 <= i < |s| && NumberedMatchAt(s[i..]).Some? ensures Covered(ms', ps', i) {
      if i < e {
        assert ms'[0] <= i < ps'[0] + 10;
      } else {
        assert s[i..] == s[e..][i - e..];
        CoveredShift(ms, ps, e, i, 0, e - 10);
      }
    }
  }

  /** No match at 0: the matches are those of `s[1..]`, moved on by one. */
  lemma NumberedSpansSkip(s: string, ms: seq<nat>, ps: seq<nat>)
    requires s != [] && NumberedMatchAt(s) == None
    requires NumberedSpans(s[1..], ms, ps)
    ensures NumberedSpans(s, Shift(ms, 1), Shift(ps, 1))
  {
    var ms', ps' := Shift(ms, 1), Shift(ps, 1);
    forall k | 0 <= k < |ms'| && k < |ps'|
      ensures ms'[k] <= |s| && NumberedMatchAt(s[ms'[k]..]).Some?
      ensures ms'[k] + NumberedMatchAt(s[ms'[k]..]).value == ps'[k] + 10
    {
      SpanMoved(s, 1, ms[k], ps[k], ms'[k], ps'[k]);
    }
    assert s[0..] == s;
    forall i | 0 <= i < |s| && NumberedMatchAt(s[i..]).Some? ensures Covered(ms', ps', i) {
      assert s[i..] == s[1..][i - 1..];
      CoveredShift(ms, ps, 1, i, 0, 0);
    }
  }

  /** One step of the numbered scan: a match at 0 ending at `e`. */
  lemma NumberedLabelsMatchStep(s: string, e: nat)
    requires s != [] && NumberedMatchAt(s) == Some(e)
    ensures NumberedLabels(s) == [s[e - 10..e]] + NumberedLabels(s[e..])
  {
  }

  /** One step of the numbered scan: no match at 0. */
  lemma NumberedLabelsSkipStep(s: string)
    requires s != [] && NumberedMatchAt(s) == None
    ensures NumberedLabels(s) == NumberedLabels(s[1..])
  {
  }

  // ---------------------------------------------------------------------
  // The marker and the section it opens

  /** The first occurrence of the marker at or after `from`. */
  function FindMarker(s: string, from: nat): (r: Option<nat>)
    requires from <= |s|
    ensures r.Some? ==> from <= r.value && MarkerAt(s, r.value)
    ensures r.Some? ==> forall k | from <= k < r.value :: !MarkerAt(s, k)
    ensures r.None? ==> forall k: nat | from <= k :: !MarkerAt(s, k)
    decreases |s| - from
  {
    if from + |Marker| > |s| then None
    else if MarkerAt(s, from) then Some(from)
    else FindMarker(s, from + 1)
  }

  /** `ranking_text.split("FINAL RANKING:")[1]` for a text whose first marker
      is at `i`: everything after that marker, up to the next one. */
  function Section(s: string, i: nat): string
    requires MarkerAt(s, i)
  {
    var rest := s[i + |Marker|..];
    match FindMarker(rest, 0)
    case Some(j) => rest[..j]
    case None => rest
  }

  /** The ranking read from the section after the marker: the numbered
      labels if there are any, otherwise every bare label. */
  function ParseSection(section: string): (r: seq<string>)
    ensures forall l <- r :: IsLabel(l)
  {
    var numbered := NumberedLabels(section);
    if numbered != [] then numbered else BareLabels(section)
  }

  /** `parse_ranking_from_text`. When the marker occurs, `split` yields at
      least two parts, so the whole-text scan is reached only when the
      marker is absent. */
  function ParseRanking(text: string): (r: seq<string>)
    ensures forall l <- r :: IsLabel(l)
  {
    match FindMarker(text, 0)
    case Some(i) => ParseSection(Section(text, i))
    case None => BareLabels(text)
  }

  /** What is read from the section after the marker at `i` is read from
      the whole text, past the marker. */
  lemma SectionRead(text: string, i: nat, r: seq<string>, ps: seq<nat>)
    requires MarkerAt(text, i) && ReadAt(Section(text, i), r, ps)
    ensures ReadAt(text, r, Shift(ps, i + |Marker|))
  {
    var section := Section(text, i);
    var rest := text[i + |Marker|..];
    match FindMarker(rest, 0) {
      case Some(j) => assert section == rest[..j];
      case None => assert section == rest[..|rest|];
    }
    ReadAtPrefix(rest, |section|, r, ps);
    ReadAtShift(text, i + |Marker|, r, ps);
  }

  /** Every label of `ParseRanking(text)` is read from the text: there are
      start positions, left to right and without overlap, at which the
      returned labels stand in order, duplicates kept. */
  lemma ParseRankingRead(text: string)
    ensures exists ps :: ReadAt(text, ParseRanking(text), ps)
  {
    match FindMarker(text, 0) {
      case Some(i) =>
        var section := Section(text, i);
        var qs;
        if NumberedLabels(section) != [] {
          NumberedLabelsRead(section);
          qs :| ReadAt(section, NumberedLabels(section), qs);
        } else {
          qs := BareStarts(section);
        }
        SectionRead(text, i, ParseSection(section), qs);
        assert ReadAt(text, ParseRanking(text), Shift(qs, i + |Marker|));
      case None =>
        assert ReadAt(text, ParseRanking(text), BareStarts(text));
    }
  }

  /** `r` is what the section's scan finds, read left to right, with no
      match skipped: the numbered matches when there are any, otherwise
      every bare label. Positions are the section's own. */
  ghost predicate FindsAll(section: string, r: seq<string>)
  {
    if NumberedLabels(section) != [] then
      exists ms, ps :: ReadAt(section, r, ps) && NumberedSpans(section, ms, ps)
    else
      exists ps :: BareScan(section, r, ps)
  }

  /** The section's scan finds every match, in order, duplicates kept. */
  lemma ParseSectionFindsAll(section: string)
    ensures FindsAll(section, ParseSection(section))
  {
    if NumberedLabels(section) != [] {
      NumberedLabelsRead(section);
    } else {
      BareLabelsScan(section);
    }
  }

  /** The parser returns every match of the text it scans, in order,
      duplicates kept, and nothing else: with the marker, that text is the
      section after the first marker; without it, the whole text. */
  lemma ParseRankingFindsAll(text: string)
    ensures FindMarker(text, 0).Some? ==>
      FindsAll(Section(text, FindMarker(text, 0).value), ParseRanking(text))
    ensures FindMarker(text, 0).None? ==> exists ps :: BareScan(text, ParseRanking(text), ps)
  {
    match FindMarker(text, 0) {
      case Some(i) =>
        ParseSectionFindsAll(Section(text, i));
      case None =>
        BareLabelsScan(text);
        assert BareScan(text, ParseRanking(text), BareStarts(text));
    }
  }

  // ---------------------------------------------------------------------
  // Properties

  /** The marker's only ':' is its last character. */
  lemma MarkerColonOnlyLast()
    ensures Marker[|Marker| - 1] == ':'
    ensures forall i | 0 <= i < |Marker| - 1 :: Marker[i] != ':'
  {
  }

  /** Since the marker's only ':' is its last character, no occurrence of it
      can begin inside `a` and run on into a `b` that starts with it. */
  lemma NoMarkerBefore(a: string, b: string)
    requires forall k: nat :: !MarkerAt(a, k)
    requires MarkerAt(b, 0)
    ensures forall k: nat | k < |a| :: !MarkerAt(a + b, k)
  {
    MarkerColonOnlyLast();
    forall k: nat | k < |a| ensures !MarkerAt(a + b, k) {
      if k + |Marker| <= |a| {
        assert !MarkerAt(a, k);
        assert (a + b)[k..k + |Marker|] == a[k..k + |Marker|];
      } else {
        var last := k + |Marker| - 1;
        assert b[..|Marker|][last - |a|] == b[last - |a|];
        assert (a + b)[last] == b[last - |a|] == Marker[last - |a|] != ':';
        assert (a + b)[k..k + |Marker|][|Marker| - 1] == (a + b)[last];
      }
    }
  }

  /** A text without ':' holds no marker. */
  lemma NoColonNoMarker(s: string)
    requires forall k | 0 <= k < |s| :: s[k] != ':'
    ensures forall k: nat :: !MarkerAt(s, k)
  {
    forall k: nat ensures !MarkerAt(s, k) {
      if k + |Marker| <= |s| {
        MarkerColonOnlyLast();
        assert s[k..k + |Marker|][|Marker| - 1] == s[k + |Marker| - 1] != ':';
      }
    }
  }

  /** With no marker in `a`, the first marker of `a + b` is the one that
      opens `b`. */
  lemma FirstMarkerAt(a: string, b: string)
    requires forall k: nat :: !MarkerAt(a, k)
    requires MarkerAt(b, 0)
    ensures FindMarker(a + b, 0) == Some(|a|)
  {
    NoMarkerBefore(a, b);
    assert (a + b)[|a|..|a| + |Marker|] == b[..|Marker|];
    assert MarkerAt(a + b, |a|);
  }

  /** The segment rule: with the first marker after `pre` and the section
      running up to the next marker or the end of the text, the ranking is
      read from the section alone; what comes before the marker and what
      comes after the next one never matter. */
  lemma SegmentRule(pre: string, section: string, post: string)
    requires forall k: nat :: !MarkerAt(pre, k)
    requires forall k: nat :: !MarkerAt(section, k)
    requires post == "" || MarkerAt(post, 0)
    ensures ParseRanking(pre + Marker + section + post) == ParseSection(section)
  {
    var text := pre + Marker + section + post;
    var tail := Marker + (section + post);
    assert text == pre + tail;
    assert tail[..|Marker|] == Marker;
    FirstMarkerAt(pre, tail);
    var rest := text[|pre| + |Marker|..];
    assert rest == section + post;
    if post == "" {
      assert rest == section;
    } else {
      FirstMarkerAt(section, post);
      assert rest[..|section|] == section;
    }
  }

  /** The marker is found exactly when the text contains it. */
  lemma MarkerFoundIffContains(text: string)
    ensures FindMarker(text, 0).Some? <==> Contains(text, Marker)
  {
    if FindMarker(text, 0).Some? {
      var i := FindMarker(text, 0).value;
      assert i <= |text| && OccursAt(Marker, text, i);
    } else {
      forall i: nat | i <= |text| ensures !OccursAt(Marker, text, i) {
        assert !MarkerAt(text, i);
      }
    }
  }

  /** Without the marker the whole text is scanned for bare labels. */
  lemma WithoutMarkerWholeText(text: string)
    requires !Contains(text, Marker)
    ensures ParseRanking(text) == BareLabels(text)
  {
    MarkerFoundIffContains(text);
  }

  /** A label inside the section is a label of the whole text. */
  lemma SectionLabelInText(text: string, i: nat, j: nat)
    requires MarkerAt(text, i)
    requires LabelAt(Section(text, i), j)
    ensures LabelAt(text, i + |Marker| + j)
  {
    var section := Section(text, i);
    var start := i + |Marker|;
    var rest := text[start..];
    match FindMarker(rest, 0) {
      case Some(k) => assert section == rest[..k];
      case None => assert section == rest;
    }
    forall t | j <= t < j + 10 ensures section[t] == text[start + t] {
      assert section[t] == rest[t];
    }
    assert section[j..j + 10] == text[start + j..start + j + 10];
  }

  /** A non-empty ranking means a label occurs in the text (where each
      returned label stands is `ParseRankingRead`). */
  lemma NonEmptyRankingHasLabel(text: string)
    ensures ParseRanking(text) != [] ==> exists i: nat :: LabelAt(text, i)
  {
    BareLabelsEmpty(text);
    match FindMarker(text, 0)
    case None =>
    case Some(i) =>
      var section := Section(text, i);
      NumberedLabelsHaveLabel(section);
      BareLabelsEmpty(section);
      if ParseRanking(text) != [] {
        var j: nat :| LabelAt(section, j);
        SectionLabelInText(text, i, j);
      }
  }

  /** A text in which no label occurs yields the empty ranking. */
  lemma NoLabelEmptyRanking(text: string)
    requires forall i: nat :: !LabelAt(text, i)
    ensures ParseRanking(text) == []
  {
    NonEmptyRankingHasLabel(text);
  }

  /** "N. Response X": one line of a numbered ranking. */
  function RankingLine(n: char, x: char): string
  {
    [n, '.', ' '] + LabelPrefix + [x]
  }

  /** "\n1. Response X\n2. Response Y": the canonical ranking of two answers. */
  function TwoLines(x: char, y: char): string
  {
    "\n" + (RankingLine('1', x) + ("\n" + RankingLine('2', y)))
  }

  /** The numbered scan of "N. Response X" followed by more text. */
  lemma NumberedLine(digit: char, letter: char, more: string)
    requires IsDigit(digit) && IsUpper(letter)
    ensures NumberedLabels(RankingLine(digit, letter) + more) == [LabelPrefix + [letter]] + NumberedLabels(more)
  {
    var s := RankingLine(digit, letter) + more;
    assert DigitRunEnd(s, 1) == 1;
    assert SpaceRunEnd(s, 3) == 3;
    assert s[3..13] == LabelPrefix + [letter];
    assert NumberedMatchAt(s) == Some(13);
    assert s[13..] == more;
  }

  /** A line break is skipped by the numbered scan. */
  lemma NumberedSkipsBreak(rest: string)
    ensures NumberedLabels("\n" + rest) == NumberedLabels(rest)
  {
    var s := "\n" + rest;
    assert NumberedMatchAt(s) == None;
    assert s[1..] == rest;
  }

  /** The numbered scan of the canonical two-line section. */
  lemma TwoLineSection(x: char, y: char)
    requires IsUpper(x) && IsUpper(y)
    ensures NumberedLabels(TwoLines(x, y)) == [LabelPrefix + [x], LabelPrefix + [y]]
  {
    var second := RankingLine('2', y);
    NumberedSkipsBreak(RankingLine('1', x) + ("\n" + second));
    NumberedLine('1', x, "\n" + second);
    NumberedSkipsBreak(second);
    assert second + "" == second;
    NumberedLine('2', y, "");
  }

  /** The canonical two-line ranking parses to its two labels, in order. */
  lemma TwoLineRanking(x: char, y: char)
    requires IsUpper(x) && IsUpper(y)
    ensures ParseRanking(Marker + TwoLines(x, y)) == [LabelPrefix + [x], LabelPrefix + [y]]
  {
    var section := TwoLines(x, y);
    assert Marker + section == "" + Marker + section + "";
    NoColonNoMarker("");
    assert forall k | 0 <= k < |section| :: section[k] != ':';
    NoColonNoMarker(section);
    SegmentRule("", section, "");
    TwoLineSection(x, y);
  }
}
