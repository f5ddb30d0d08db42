/**
 * `getAfter(label)` of the page parser (server.js:136-140): the first match
 * of the regular expression `label\s+([^\n\r]+)` with the `i` flag, whose
 * capture group is returned trimmed, or `null` when there is no match.
 * (`label` is a reserved word in Dafny, so the label is called `name` here.)
 */
module LabelValue {
  import opened JsText

  /**
   * The backtracking of the greedy `\s+` when the run of whitespace after
   * the label reaches the end of the text: the run gives characters back one
   * at a time, so `([^\n\r]+)` starts at the largest position in (lo, hi)
   * that holds a character other than \n and \r.
   */
  function LastNonBreak(text: string, lo: nat, hi: nat): (r: Option<nat>)
    requires lo < hi <= |text|
    ensures r.Some? ==> lo < r.value < hi && !IsLineBreak(text[r.value]) && AllLineBreak(text[r.value + 1..hi])
    ensures r.None? ==> AllLineBreak(text[lo + 1..hi])
    decreases hi
  {
    if hi == lo + 1 then
      None
    else if !IsLineBreak(text[hi - 1]) then
      assert text[hi..hi] == [];
      Some(hi - 1)
    else
      var r := LastNonBreak(text, lo, hi - 1);
      var from := if r.Some? then r.value + 1 else lo + 1;
      assert text[from..hi] == text[from..hi - 1] + [text[hi - 1]];
      r
  }

  /**
   * One way for `label\s+([^\n\r]+)` to match at offset `i` with its capture
   * starting at `c`: the label, at least one `\s`, then a character of the
   * class `[^\n\r]`.
   */
  ghost predicate IsCapture(text: string, name: string, i: nat, c: nat) {
    && OccursAt(text, name, i)
    && i + |name| < c < |text|
    && AllSpace(text[i + |name|..c])
    && !IsLineBreak(text[c])
  }

  /** The label occurs at `i` and is immediately followed by a `\s` character. */
  predicate FollowedBySpace(text: string, name: string, i: nat) {
    OccursAt(text, name, i) && i + |name| < |text| && IsSpace(text[i + |name|])
  }

  /**
   * Where the capture group starts when the regular expression is tried at
   * offset `i`, or None when it fails there. The greedy `\s+` first takes the
   * whole run of whitespace; when a character follows the run, it is not a
   * line break, so `[^\n\r]+` starts there; when the run reaches the end of
   * the text, the run gives characters back.
   */
  function MatchAt(text: string, name: string, i: nat): (r: Option<nat>)
    requires i <= |text|
    ensures r.Some? ==> i + |name| < r.value < |text| && !IsLineBreak(text[r.value])
  {
    if !OccursAt(text, name, i) then
      None
    else
      var p := i + |name|;
      var j := SpaceRunEnd(text, p);
      if j == p then None
      else if j < |text| then Some(j)
      else LastNonBreak(text, p, j)
  }

  /** A match found by MatchAt is a way for the expression to match. */
  lemma MatchAtSound(text: string, name: string, i: nat)
    requires i <= |text|
    ensures MatchAt(text, name, i).Some? ==>
      IsCapture(text, name, i, MatchAt(text, name, i).value) && FollowedBySpace(text, name, i)
  {
    if OccursAt(text, name, i) {
      var p := i + |name|;
      var j := SpaceRunEnd(text, p);
      if p < j {
        SpaceAt(text, p, j, p);
        match MatchAt(text, name, i)
        case Some(c) => AllSpaceSub(text, p, j, p, c);
        case None =>
      }
    }
  }

  /**
   * The greedy `\s+` picks the longest way to match: MatchAt is the largest
   * capture start among all the ways the expression can match at `i`.
   */
  lemma MatchAtIsGreedy(text: string, name: string, i: nat, c: nat)
    requires i <= |text|
    requires IsCapture(text, name, i, c)
    ensures MatchAt(text, name, i).Some? && c <= MatchAt(text, name, i).value
  {
    var p := i + |name|;
    var j := SpaceRunEnd(text, p);
    if j < c {
      SpaceAt(text, p, c, j);
    }
    SpaceAt(text, p, c, p);
    if j == |text| {
      match LastNonBreak(text, p, j)
      case None =>
        LineBreakAt(text, p + 1, j, c);
      case Some(r) =>
        if r < c {
          LineBreakAt(text, r + 1, j, c);
        }
    }
  }

  /** A search position: the offset of the label and the start of the capture group. */
  datatype Hit = Hit(at: nat, start: nat)

  /** The leftmost offset at or after `i` at which the expression matches. */
  function FindFrom(text: string, name: string, i: nat): (r: Option<Hit>)
    requires i <= |text|
    ensures r.Some? ==> i <= r.value.at <= |text| && MatchAt(text, name, r.value.at) == Some(r.value.start)
    ensures r.Some? ==> forall k :: i <= k < r.value.at ==> MatchAt(text, name, k).None?
    ensures r.None? ==> forall k :: i <= k <= |text| ==> MatchAt(text, name, k).None?
    decreases |text| - i
  {
    match MatchAt(text, name, i)
    case Some(c) => Some(Hit(i, c))
    case None => if i < |text| then FindFrom(text, name, i + 1) else None
  }

  /** The text the capture group `([^\n\r]+)` holds: from `c` to the end of its line. */
  function CapturedLine(text: string, c: nat): string
    requires c <= |text|
  {
    text[c..LineEnd(text, c)]
  }

  /** `getAfter(label)`: the trimmed capture of the first match, or null. */
  function GetAfter(text: string, name: string): (r: Option<string>)
    ensures r.Some? ==> IsTrimmed(r.value) && NoLineBreak(r.value)
  {
    match FindFrom(text, name, 0)
    case None => None
    case Some(h) => Some(Trim(CapturedLine(text, h.start)))
  }

  /** The label occurs at `i`, then a run of `\s`, then a non-space character at `c`. */
  ghost predicate LabelledValueAt(text: string, name: string, i: nat, c: nat) {
    && OccursAt(text, name, i)
    && i + |name| < c < |text|
    && AllSpace(text[i + |name|..c])
    && !IsSpace(text[c])
  }

  /** Labels whose last character is not whitespace: "SACO", "CB", "CB#", "FECHA DE INGRESO". */
  predicate EndsInNonSpace(name: string) {
    |name| > 0 && !IsSpace(name[|name| - 1])
  }

  /**
   * When a label followed by whitespace does not match, the whitespace runs
   * to the end of the text and holds only line breaks after its first
   * character, so the label cannot occur again later.
   */
  lemma NoLaterOccurrence(text: string, name: string, k: nat, i: nat)
    requires EndsInNonSpace(name)
    requires FollowedBySpace(text, name, k) && MatchAt(text, name, k).None?
    requires k < i <= |text|
    ensures !OccursAt(text, name, i)
  {
    var p := k + |name|;
    var j := SpaceRunEnd(text, p);
    assert j == |text|;
    if i + |name| <= |text| {
      var last := i + |name| - 1;
      if last > p {
        LineBreakAt(text, p + 1, j, last);
      }
      assert IsSpace(text[last]);
      FoldKeepsSpace(text[last]);
      FoldKeepsSpace(name[|name| - 1]);
      assert Fold(text[i + (|name| - 1)]) != Fold(name[|name| - 1]);
    }
  }

  predicate LeftmostFollowedBySpace(text: string, name: string, i: nat) {
    FollowedBySpace(text, name, i) && forall k :: 0 <= k < i ==> !FollowedBySpace(text, name, k)
  }

  /**
   * The value getAfter returns comes from the leftmost occurrence of the
   * label that is immediately followed by whitespace.
   */
  lemma GetAfterOrigin(text: string, name: string)
    requires EndsInNonSpace(name)
    requires GetAfter(text, name).Some?
    ensures exists i :: LeftmostFollowedBySpace(text, name, i)
  {
    var h := FindFrom(text, name, 0).value;
    MatchAtSound(text, name, h.at);
    forall k | 0 <= k < h.at
      ensures !FollowedBySpace(text, name, k)
    {
      if FollowedBySpace(text, name, k) {
        NoLaterOccurrence(text, name, k, h.at);
      }
    }
    assert LeftmostFollowedBySpace(text, name, h.at);
  }

  /**
   * What getAfter reads after the leftmost occurrence `i` of the label that
   * is followed by whitespace: when a non-space character follows the
   * whitespace, even on a later line, the value is the rest of that line,
   * trimmed; when only whitespace follows, the value is falsy.
   */
  lemma GetAfterValue(text: string, name: string, i: nat)
    requires EndsInNonSpace(name)
    requires LeftmostFollowedBySpace(text, name, i)
    ensures var j := SpaceRunEnd(text, i + |name|);
      && (j < |text| ==> GetAfter(text, name) == Some(Trim(CapturedLine(text, j))))
      && (j == |text| ==> !Truthy(GetAfter(text, name)))
  {
    var p := i + |name|;
    var j := SpaceRunEnd(text, p);
    forall k | 0 <= k < i
      ensures MatchAt(text, name, k).None?
    {
      MatchAtSound(text, name, k);
    }
    var m := MatchAt(text, name, i);
    var r := FindFrom(text, name, 0);
    if j < |text| {
      assert m == Some(j);
      assert r == Some(Hit(i, j));
    } else {
      match m
      case Some(c) =>
        assert r == Some(Hit(i, c));
        AllSpaceSub(text, p, j, c, LineEnd(text, c));
      case None =>
        forall k | i < k <= |text|
          ensures MatchAt(text, name, k).None?
        {
          NoLaterOccurrence(text, name, i, k);
        }
        assert r.None?;
    }
  }

  /**
   * A match whose captured line is not all whitespace ends its whitespace
   * run at a labelled value.
   */
  lemma CaptureGivesValue(text: string, name: string, i: nat, c: nat)
    requires IsCapture(text, name, i, c) && FollowedBySpace(text, name, i)
    requires MatchAt(text, name, i) == Some(c)
    requires !AllSpace(CapturedLine(text, c))
    ensures LabelledValueAt(text, name, i, SpaceRunEnd(text, i + |name|))
  {
    var p := i + |name|;
    var j := SpaceRunEnd(text, p);
    if j == |text| {
      AllSpaceSub(text, p, j, c, LineEnd(text, c));
    }
  }

  lemma TruthyHasLabelledValue(text: string, name: string)
    requires Truthy(GetAfter(text, name))
    ensures exists i, c :: LabelledValueAt(text, name, i, c)
  {
    var r := FindFrom(text, name, 0);
    var h := r.value;
    assert Trim(CapturedLine(text, h.start)) != [];
    MatchAtSound(text, name, h.at);
    CaptureGivesValue(text, name, h.at, h.start);
  }

  lemma LabelledValueTruthy(text: string, name: string, i0: nat, c0: nat)
    requires LabelledValueAt(text, name, i0, c0)
    ensures Truthy(GetAfter(text, name))
  {
    assert IsCapture(text, name, i0, c0);
    MatchAtIsGreedy(text, name, i0, c0);
    var h := FindFrom(text, name, 0).value;
    assert h.at <= i0;
    MatchAtSound(text, name, h.at);
    var p := h.at + |name|;
    var j := SpaceRunEnd(text, p);
    if c0 < j {
      SpaceAt(text, p, j, c0);
    }
    assert h.start == j;
    var line := CapturedLine(text, j);
    assert line[0] == text[j];
  }

  /**
   * getAfter gives a truthy value exactly when some occurrence of the label
   * is followed by whitespace and then a non-space character.
   */
  lemma GetAfterTruthyIff(text: string, name: string)
    ensures Truthy(GetAfter(text, name)) <==> exists i, c :: LabelledValueAt(text, name, i, c)
  {
    if Truthy(GetAfter(text, name)) {
      TruthyHasLabelledValue(text, name);
    }
    if exists i, c :: LabelledValueAt(text, name, i, c) {
      var i0, c0 :| LabelledValueAt(text, name, i0, c0);
      LabelledValueTruthy(text, name, i0, c0);
    }
  }
}
