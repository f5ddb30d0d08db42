/**
 * The JavaScript string primitives the page parser of server.js relies on:
 * the `\s` class of a regular expression, the `[^\n\r]` class, character
 * comparison under a regular expression's `i` flag, and
 * `String.prototype.trim`.
 */
module JsText {

  /** A JavaScript `string | null`: `None` stands for `null`. */
  datatype Option<T> = None | Some(value: T)

  /** JavaScript truthiness of a `string | null`: a non-empty string. */
  predicate Truthy(v: Option<string>) {
    v.Some? && v.value != ""
  }

  /**
   * ECMAScript WhiteSpace or LineTerminator: the characters `\s` matches,
   * which are also the characters `trim()` removes from both ends.
   */
  predicate IsSpace(c: char) {
    || c == '\t' || c == '\n' || c == '\U{000B}' || c == '\U{000C}' || c == '\r'
    || c == ' ' || c == '\U{00A0}' || c == '\U{1680}'
    || ('\U{2000}' <= c <= '\U{200A}')
    || c == '\U{2028}' || c == '\U{2029}' || c == '\U{202F}' || c == '\U{205F}'
    || c == '\U{3000}' || c == '\U{FEFF}'
  }

  /** The two characters the class `[^\n\r]` excludes. */
  predicate IsLineBreak(c: char) {
    c == '\n' || c == '\r'
  }

  predicate AllSpace(s: string) {
    forall k :: 0 <= k < |s| ==> IsSpace(s[k])
  }

  /** No whitespace at either end. */
  predicate IsTrimmed(s: string) {
    s == [] || (!IsSpace(s[0]) && !IsSpace(s[|s| - 1]))
  }

  predicate NoLineBreak(s: string) {
    forall k :: 0 <= k < |s| ==> !IsLineBreak(s[k])
  }

  /**
   * The canonical form of a character under the `i` flag (without the `u`
   * flag): its upper case. Only ASCII letters and the pair u-acute /
   * U-acute are folded; every pattern of the parser is built from ASCII
   * characters and u-acute, and under this flag no non-ASCII character
   * folds onto an ASCII one, so no other fold can change a comparison.
   */
  function Fold(c: char): char {
    if 'a' <= c <= 'z' then (c as int - 32) as char
    else if c == '\U{00FA}' then '\U{00DA}'
    else c
  }

  lemma FoldKeepsSpace(c: char)
    ensures IsSpace(Fold(c)) <==> IsSpace(c)
    ensures IsLineBreak(Fold(c)) <==> IsLineBreak(c)
  {
  }

  /** `pat` occurs at offset `i` of `text`, ignoring case. */
  predicate OccursAt(text: string, pat: string, i: nat) {
    i + |pat| <= |text| && forall k {:trigger pat[k]} :: 0 <= k < |pat| ==> Fold(text[i + k]) == Fold(pat[k])
  }

  /** An occurrence of `a + b` is an occurrence of `a` followed by one of `b`. */
  lemma OccursConcat(text: string, a: string, b: string, i: nat)
    ensures OccursAt(text, a + b, i) <==> OccursAt(text, a, i) && OccursAt(text, b, i + |a|)
  {
    if OccursAt(text, a + b, i) {
      forall k | 0 <= k < |a|
        ensures Fold(text[i + k]) == Fold(a[k])
      {
        assert (a + b)[k] == a[k];
      }
      forall k | 0 <= k < |b|
        ensures Fold(text[i + |a| + k]) == Fold(b[k])
      {
        assert (a + b)[|a| + k] == b[k];
      }
    }
    if OccursAt(text, a, i) && OccursAt(text, b, i + |a|) {
      forall k | 0 <= k < |a + b|
        ensures Fold(text[i + k]) == Fold((a + b)[k])
      {
        if k >= |a| {
          assert b[k - |a|] == (a + b)[k];
        }
      }
    }
  }

  predicate AllLineBreak(s: string) {
    forall k :: 0 <= k < |s| ==> IsLineBreak(s[k])
  }

  lemma SpaceAt(text: string, p: nat, q: nat, k: nat)
    requires p <= k < q <= |text| && AllSpace(text[p..q])
    ensures IsSpace(text[k])
  {
    assert text[p..q][k - p] == text[k];
  }

  lemma LineBreakAt(text: string, p: nat, q: nat, k: nat)
    requires p <= k < q <= |text| && AllLineBreak(text[p..q])
    ensures IsLineBreak(text[k])
  {
    assert text[p..q][k - p] == text[k];
  }

  lemma NoBreakAt(text: string, p: nat, q: nat, k: nat)
    requires p <= k < q <= |text| && NoLineBreak(text[p..q])
    ensures !IsLineBreak(text[k])
  {
    assert text[p..q][k - p] == text[k];
  }

  /** The first position at or after `p` that holds `\n` or `\r`, or the end of the text. */
  function LineEnd(text: string, p: nat): (q: nat)
    requires p <= |text|
    ensures p <= q <= |text|
    ensures NoLineBreak(text[p..q])
    ensures q == |text| || IsLineBreak(text[q])
    decreases |text| - p
  {
    if p < |text| && !IsLineBreak(text[p]) then
      var q := LineEnd(text, p + 1);
      assert text[p..q] == [text[p]] + text[p + 1..q];
      q
    else
      p
  }

  /** The end of the longest run of `\s` characters that starts at `p`. */
  function SpaceRunEnd(text: string, p: nat): (q: nat)
    requires p <= |text|
    ensures p <= q <= |text|
    ensures AllSpace(text[p..q])
    ensures q == |text| || !IsSpace(text[q])
    decreases |text| - p
  {
    if p < |text| && IsSpace(text[p]) then
      var q := SpaceRunEnd(text, p + 1);
      assert text[p..q] == [text[p]] + text[p + 1..q];
      q
    else
      p
  }

  lemma AllSpaceSub(text: string, p: nat, q: nat, a: nat, b: nat)
    requires p <= a <= b <= q <= |text| && AllSpace(text[p..q])
    ensures AllSpace(text[a..b])
  {
    forall k | 0 <= k < b - a
      ensures IsSpace(text[a..b][k])
    {
      SpaceAt(text, p, q, a + k);
    }
  }

  /** The start of the longest run of `\s` characters that ends at `hi` and starts at or after `lo`. */
  function TrailStart(s: string, lo: nat, hi: nat): (b: nat)
    requires lo <= hi <= |s|
    ensures lo <= b <= hi
    ensures AllSpace(s[b..hi])
    ensures b == lo || !IsSpace(s[b - 1])
    decreases hi
  {
    if lo < hi && IsSpace(s[hi - 1]) then
      var b := TrailStart(s, lo, hi - 1);
      assert s[b..hi] == s[b..hi - 1] + [s[hi - 1]];
      b
    else
      hi
  }

  /** `String.prototype.trim`. */
  function Trim(s: string): (r: string)
    ensures IsTrimmed(r)
    ensures r == [] <==> AllSpace(s)
    ensures NoLineBreak(s) ==> NoLineBreak(r)
  {
    var a := SpaceRunEnd(s, 0);
    var b := TrailStart(s, a, |s|);
    if a == b then
      assert AllSpace(s) by {
        forall k | 0 <= k < |s|
          ensures IsSpace(s[k])
        {
          if k < a {
            SpaceAt(s, 0, a, k);
          } else {
            SpaceAt(s, b, |s|, k);
          }
        }
      }
      []
    else
      assert s[a..b][0] == s[a] && s[a..b][b - a - 1] == s[b - 1];
      assert NoLineBreak(s) ==> NoLineBreak(s[a..b]) by {
        if NoLineBreak(s) {
          forall k | 0 <= k < b - a
            ensures !IsLineBreak(s[a..b][k])
          {
            assert s[a..b][k] == s[a + k];
          }
        }
      }
      s[a..b]
  }

  /** A run of `\s` from `p` that stops at `q` is the run SpaceRunEnd finds. */
  lemma {:induction false} SpaceRunEndIs(text: string, p: nat, q: nat)
    requires p <= q <= |text| && AllSpace(text[p..q])
    requires q == |text| || !IsSpace(text[q])
    ensures SpaceRunEnd(text, p) == q
    decreases q - p
  {
    if p < q {
      SpaceAt(text, p, q, p);
      AllSpaceSub(text, p, q, p + 1, q);
      SpaceRunEndIs(text, p + 1, q);
    }
  }

  /** A run of `\s` that ends at `hi` and starts at `b` is the run TrailStart finds. */
  lemma {:induction false} TrailStartIs(s: string, lo: nat, hi: nat, b: nat)
    requires lo <= b <= hi <= |s| && AllSpace(s[b..hi])
    requires b == lo || !IsSpace(s[b - 1])
    ensures TrailStart(s, lo, hi) == b
    decreases hi
  {
    if b < hi {
      SpaceAt(s, b, hi, hi - 1);
      AllSpaceSub(s, b, hi, b, hi - 1);
      TrailStartIs(s, lo, hi - 1, b);
    }
  }

  /**
   * `trim()` is characterised by its result alone: whatever whitespace
   * surrounds a trimmed string, trimming recovers exactly that string.
   */
  lemma TrimUnique(u: string, m: string, v: string)
    requires AllSpace(u) && AllSpace(v) && IsTrimmed(m)
    ensures Trim(u + m + v) == m
  {
    var text := u + m + v;
    if m == [] {
      assert AllSpace(text) by {
        forall k | 0 <= k < |text|
          ensures IsSpace(text[k])
        {
          if k < |u| {
            assert text[k] == u[k];
          } else {
            assert text[k] == v[k - |u|];
          }
        }
      }
    } else {
      var a := |u|;
      var b := |u| + |m|;
      assert text[..a] == u && text[a..b] == m && text[b..] == v;
      assert text[a] == m[0] && text[b - 1] == m[|m| - 1];
      SpaceRunEndIs(text, 0, a);
      TrailStartIs(text, a, |text|, b);
    }
  }

  lemma TrimIdempotent(s: string)
    ensures Trim(Trim(s)) == Trim(s)
  {
    var r := Trim(s);
    assert [] + r + [] == r;
    TrimUnique([], r, []);
  }
}
