/** Character classes and string operations the council code borrows from
    Python: `\s`, `\d`, `[A-Z]`, `str.join`, `str.strip` and `in` on strings. */
module Text {

  /** The characters Python counts as whitespace (`str.isspace`, `\s` in a
      `str` pattern, and the default of `str.strip`). */
  predicate IsSpace(c: char)
  {
    || ('\t' <= c <= '\r')
    || ('\U{1C}' <= c <= ' ')
    || c == '\U{85}' || c == '\U{A0}' || c == '\U{1680}'
    || ('\U{2000}' <= c <= '\U{200A}')
    || c == '\U{2028}' || c == '\U{2029}' || c == '\U{202F}' || c == '\U{205F}'
    || c == '\U{3000}'
  }

  /** `\d`, restricted to the ASCII digits. */
  predicate IsDigit(c: char)
  {
    '0' <= c <= '9'
  }

  /** `[A-Z]`. */
  predicate IsUpper(c: char)
  {
    'A' <= c <= 'Z'
  }

  /** `pattern` occurs in `s` starting at index `i`. */
  predicate OccursAt(pattern: string, s: string, i: nat)
  {
    i + |pattern| <= |s| && s[i..i + |pattern|] == pattern
  }

  /** Python's `pattern in s`. */
  predicate Contains(s: string, pattern: string)
  {
    exists i: nat | i <= |s| :: OccursAt(pattern, s, i)
  }

  /** `sep.join(parts)`. */
  function Join(sep: string, parts: seq<string>): string
    decreases |parts|
  {
    if |parts| == 0 then ""
    else if |parts| == 1 then parts[0]
    else Join(sep, parts[..|parts| - 1]) + sep + parts[|parts| - 1]
  }

  /** Joining with a separator gives the empty string exactly when there is
      nothing to join or the only part is empty. */
  lemma {:induction false} JoinEmpty(sep: string, parts: seq<string>)
    requires sep != ""
    ensures Join(sep, parts) == "" <==> (parts == [] || parts == [""])
  {
    if |parts| > 1 {
      assert |Join(sep, parts)| >= |sep|;
    }
  }

  /** Every part appears, whole, inside the joined string. */
  lemma {:induction false} JoinContainsParts(sep: string, parts: seq<string>, k: nat)
    requires k < |parts|
    ensures Contains(Join(sep, parts), parts[k])
  {
    var joined := Join(sep, parts);
    if |parts| == 1 {
      assert OccursAt(parts[k], joined, 0);
    } else if k == |parts| - 1 {
      var at := |joined| - |parts[k]|;
      assert joined[at..] == parts[k];
      assert OccursAt(parts[k], joined, at);
    } else {
      var front := Join(sep, parts[..|parts| - 1]);
      JoinContainsParts(sep, parts[..|parts| - 1], k);
      var i: nat :| i <= |front| && OccursAt(parts[k], front, i);
      assert joined == front + (sep + parts[|parts| - 1]);
      assert joined[i..i + |parts[k]|] == front[i..i + |parts[k]|];
      assert OccursAt(parts[k], joined, i);
    }
  }

  /** Drops the leading characters that satisfy `strip`. */
  function TrimStart(s: string, strip: char -> bool): (r: string)
    ensures |r| <= |s| && r == s[|s| - |r|..]
    ensures forall k | 0 <= k < |s| - |r| :: strip(s[k])
    ensures r != "" ==> !strip(r[0])
    decreases |s|
  {
    if s != "" && strip(s[0]) then TrimStart(s[1..], strip) else s
  }

  /** Drops the trailing characters that satisfy `strip`. */
  function TrimEnd(s: string, strip: char -> bool): (r: string)
    ensures |r| <= |s| && r == s[..|r|]
    ensures forall k | |r| <= k < |s| :: strip(s[k])
    ensures r != "" ==> !strip(r[|r| - 1])
    decreases |s|
  {
    if s != "" && strip(s[|s| - 1]) then TrimEnd(s[..|s| - 1], strip) else s
  }

  /** `s.strip(chars)`: both ends trimmed of the characters `strip` accepts. */
  function Strip(s: string, strip: char -> bool): string
  {
    TrimEnd(TrimStart(s, strip), strip)
  }

  /** `s[i..j]` is a piece of `s` with only strippable characters around it. */
  predicate StrippableAround(s: string, strip: char -> bool, i: nat, j: nat)
  {
    && i <= j <= |s|
    && (forall k | 0 <= k < i :: strip(s[k]))
    && (forall k | j <= k < |s| :: strip(s[k]))
  }

  /** What `Strip` keeps is one contiguous piece of `s`: everything before it
      and after it is strippable, and the piece neither starts nor ends with
      a strippable character. */
  lemma StripKeepsCore(s: string, strip: char -> bool)
    ensures var r := Strip(s, strip);
      exists i: nat, j: nat :: StrippableAround(s, strip, i, j) && r == s[i..j]
    ensures var r := Strip(s, strip);
      r != "" ==> !strip(r[0]) && !strip(r[|r| - 1])
  {
    StripEnds(s, strip);
    var t := TrimStart(s, strip);
    var i := |s| - |t|;
    assert t == s[i..];
    TrimEndInside(s, i, strip);
    var r := TrimEnd(s[i..], strip);
    assert r == Strip(s, strip);
    assert r == s[i..i + |r|];
    assert StrippableAround(s, strip, i, i + |r|);
  }

  /** Trimming the end of a suffix of `s` leaves a piece of `s` followed only
      by strippable characters. */
  lemma TrimEndInside(s: string, i: nat, strip: char -> bool)
    requires i <= |s|
    ensures var r := TrimEnd(s[i..], strip);
      && r == s[i..i + |r|]
      && forall k | i + |r| <= k < |s| :: strip(s[k])
  {
    var t := s[i..];
    var r := TrimEnd(t, strip);
    forall k | i + |r| <= k < |s| ensures strip(s[k]) {
      assert s[k] == t[k - i];
    }
  }

  /** What `Strip` keeps neither starts nor ends with a strippable
      character. */
  lemma StripEnds(s: string, strip: char -> bool)
    ensures var r := Strip(s, strip);
      r != "" ==> !strip(r[0]) && !strip(r[|r| - 1])
  {
    var t := TrimStart(s, strip);
    var r := TrimEnd(t, strip);
    if r != "" {
      assert r[0] == t[0];
    }
  }

  /** Stripping twice strips nothing more. */
  lemma StripIdempotent(s: string, strip: char -> bool)
    ensures Strip(Strip(s, strip), strip) == Strip(s, strip)
  {
    var r := Strip(s, strip);
    StripEnds(s, strip);
    if r != "" {
      assert TrimStart(r, strip) == r;
      assert TrimEnd(r, strip) == r;
    }
  }
}
