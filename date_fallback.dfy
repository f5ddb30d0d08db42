/**
 * The fallback for the received date (server.js:146-149): when
 * `getAfter("FECHA DE INGRESO")` is falsy, the capture group of the first
 * match of `/FECHA[^\n\r]*?(\d{1,2}\/\d{1,2}\/\d{4})/i` becomes the date.
 */
module DateFallback {
  import opened JsText

  const Fecha := "FECHA"

  /** `\d`: an ASCII digit. */
  predicate IsDigit(c: char) {
    '0' <= c <= '9'
  }

  /**
   * `\d{a}\/\d{b}\/\d{4}` matches at offset `q`, for one or two digits `a`
   * and `b`: the first and last digits of each `\d{a}` and `\d{b}` are
   * checked, which covers every digit when the count is one or two.
   */
  predicate ShapeAt(text: string, q: nat, a: nat, b: nat) {
    var m := q + a;
    var y := m + 1 + b;
    && 1 <= a <= 2 && 1 <= b <= 2
    && y + 5 <= |text|
    && IsDigit(text[q]) && IsDigit(text[m - 1])
    && text[m] == '/'
    && IsDigit(text[m + 1]) && IsDigit(text[y - 1])
    && text[y] == '/'
    && IsDigit(text[y + 1]) && IsDigit(text[y + 2]) && IsDigit(text[y + 3]) && IsDigit(text[y + 4])
  }

  /** What `\d{1,2}\/\d{1,2}\/\d{4}` matches in full: D/M/YYYY with one or two digits for D and for M. */
  predicate IsDate(s: string) {
    || (ShapeAt(s, 0, 2, 2) && |s| == 10)
    || (ShapeAt(s, 0, 2, 1) && |s| == 9)
    || (ShapeAt(s, 0, 1, 2) && |s| == 9)
    || (ShapeAt(s, 0, 1, 1) && |s| == 8)
  }

  /** `\d{1,2}\/\d{1,2}\/\d{4}` matches at offset `q`. */
  predicate DateStartsAt(text: string, q: nat) {
    ShapeAt(text, q, 2, 2) || ShapeAt(text, q, 2, 1) || ShapeAt(text, q, 1, 2) || ShapeAt(text, q, 1, 1)
  }

  /**
   * The end of the match of `\d{1,2}\/\d{1,2}\/\d{4}` at offset `q`; each
   * `\d{1,2}` tries two digits before one.
   */
  function DateAt(text: string, q: nat): (r: Option<nat>)
    requires q <= |text|
    ensures r.Some? ==> q < r.value <= |text| && IsDate(text[q..r.value])
    ensures r.Some? <==> DateStartsAt(text, q)
  {
    if ShapeAt(text, q, 2, 2) then Some(q + 10)
    else if ShapeAt(text, q, 2, 1) then Some(q + 9)
    else if ShapeAt(text, q, 1, 2) then Some(q + 9)
    else if ShapeAt(text, q, 1, 1) then Some(q + 8)
    else None
  }

  /**
   * At most one way of `\d{1,2}\/\d{1,2}\/\d{4}` matches at a given offset,
   * so the order in which the two `\d{1,2}` try their counts does not change
   * the captured date.
   */
  lemma DateShapesExclusive(text: string, q: nat, a: nat, b: nat, a': nat, b': nat)
    requires ShapeAt(text, q, a, b) && ShapeAt(text, q, a', b')
    ensures a == a' && b == b'
  {
  }

  /**
   * The lazy `[^\n\r]*?` followed by the date: the first offset at or after
   * `q`, on the line of `q`, at which a date starts.
   */
  function DateFrom(text: string, q: nat): (r: Option<nat>)
    requires q <= |text|
    ensures r.Some? ==> q <= r.value <= LineEnd(text, q) && DateStartsAt(text, r.value)
    decreases |text| - q
  {
    if DateStartsAt(text, q) then Some(q)
    else if q < |text| && !IsLineBreak(text[q]) then DateFrom(text, q + 1)
    else None
  }

  /**
   * The lazy quantifier takes the shortest gap: no date starts between `q`
   * and the one DateFrom finds, and when it finds none, no date starts on
   * the rest of the line.
   */
  lemma {:induction false} DateFromFirst(text: string, q: nat)
    requires q <= |text|
    ensures DateFrom(text, q).Some? ==> forall k :: q <= k < DateFrom(text, q).value ==> !DateStartsAt(text, k)
    ensures DateFrom(text, q).None? ==> forall k :: q <= k <= LineEnd(text, q) ==> !DateStartsAt(text, k)
    decreases |text| - q
  {
    if !DateStartsAt(text, q) && q < |text| && !IsLineBreak(text[q]) {
      DateFromFirst(text, q + 1);
    }
  }

  /**
   * Where the capture group starts when the fallback expression, anchored
   * at `anchor` (which is FECHA), is tried at offset `i`, or None when it
   * fails there.
   */
  function FechaMatch(text: string, anchor: string, i: nat): (r: Option<nat>)
    requires i <= |text|
    ensures r.Some? ==> OccursAt(text, anchor, i) && i + |anchor| <= r.value <= |text| && DateStartsAt(text, r.value)
  {
    if OccursAt(text, anchor, i) then DateFrom(text, i + |anchor|) else None
  }

  /** A search position: the offset of FECHA and the offset of the date. */
  datatype DateHit = DateHit(at: nat, start: nat)

  /** The leftmost offset at or after `i` at which the fallback expression matches. */
  function FallbackFrom(text: string, anchor: string, i: nat): (r: Option<DateHit>)
    requires i <= |text|
    ensures r.Some? ==> i <= r.value.at <= |text| && FechaMatch(text, anchor, r.value.at) == Some(r.value.start)
    ensures r.Some? ==> forall k :: i <= k < r.value.at ==> FechaMatch(text, anchor, k).None?
    ensures r.None? ==> forall k :: i <= k <= |text| ==> FechaMatch(text, anchor, k).None?
    decreases |text| - i
  {
    match FechaMatch(text, anchor, i)
    case Some(q) => Some(DateHit(i, q))
    case None => if i < |text| then FallbackFrom(text, anchor, i + 1) else None
  }

  /** The fallback's capture group `(\d{1,2}\/\d{1,2}\/\d{4})`, or None when the expression does not match. */
  function FallbackDate(text: string): (r: Option<string>)
    ensures r.Some? ==> IsDate(r.value)
  {
    match FallbackFrom(text, Fecha, 0)
    case None => None
    case Some(h) => Some(text[h.start..DateAt(text, h.start).value])
  }

  /** An occurrence of FECHA at `i` and, later on the same line, a date at `q`. */
  ghost predicate DateOnFechaLine(text: string, i: nat, q: nat) {
    && OccursAt(text, Fecha, i)
    && i + |Fecha| <= q <= |text|
    && NoLineBreak(text[i + |Fecha|..q])
    && DateStartsAt(text, q)
  }

  /** The leftmost FECHA followed on its line by a date, and the first such date after it. */
  ghost predicate FirstDateOnFechaLine(text: string, i: nat, q: nat) {
    && DateOnFechaLine(text, i, q)
    && forall i': nat, q': nat :: DateOnFechaLine(text, i', q') ==> i < i' || (i == i' && q <= q')
  }

  lemma WithinLine(text: string, p: nat, q: nat)
    requires p <= q <= |text| && NoLineBreak(text[p..q])
    ensures q <= LineEnd(text, p)
  {
    var e := LineEnd(text, p);
    if e < q {
      NoBreakAt(text, p, q, e);
    }
  }

  lemma DateOnLineFound(text: string, i: nat, q: nat)
    requires DateOnFechaLine(text, i, q)
    ensures FechaMatch(text, Fecha, i).Some? && FechaMatch(text, Fecha, i).value <= q
  {
    WithinLine(text, i + |Fecha|, q);
    DateFromFirst(text, i + |Fecha|);
  }

  /**
   * The fallback finds a date exactly when some FECHA is followed, on its
   * own line, by a D/M/YYYY date.
   */
  lemma FallbackDateIff(text: string)
    ensures FallbackDate(text).Some? <==> exists i: nat, q: nat :: DateOnFechaLine(text, i, q)
  {
    if exists i: nat, q: nat :: DateOnFechaLine(text, i, q) {
      var i: nat, q: nat :| DateOnFechaLine(text, i, q);
      DateOnLineFound(text, i, q);
    }
    match FallbackFrom(text, Fecha, 0)
    case None =>
    case Some(h) =>
      var p := h.at + |Fecha|;
      assert NoLineBreak(text[p..h.start]) by {
        forall k | 0 <= k < h.start - p
          ensures !IsLineBreak(text[p..h.start][k])
        {
          assert text[p..h.start][k] == text[p..LineEnd(text, p)][k];
        }
      }
      assert DateOnFechaLine(text, h.at, h.start);
  }

  /**
   * The fallback's date is the text of the first date on the line of the
   * leftmost FECHA that has one.
   */
  lemma FallbackDateOrigin(text: string)
    requires FallbackDate(text).Some?
    ensures exists i: nat, q: nat ::
      && FirstDateOnFechaLine(text, i, q)
      && q + |FallbackDate(text).value| <= |text|
      && text[q..q + |FallbackDate(text).value|] == FallbackDate(text).value
  {
    FallbackDateIff(text);
    var h := FallbackFrom(text, Fecha, 0).value;
    var p := h.at + |Fecha|;
    assert NoLineBreak(text[p..h.start]) by {
      forall k | 0 <= k < h.start - p
        ensures !IsLineBreak(text[p..h.start][k])
      {
        assert text[p..h.start][k] == text[p..LineEnd(text, p)][k];
      }
    }
    forall i', q' | DateOnFechaLine(text, i', q')
      ensures h.at < i' || (h.at == i' && h.start <= q')
    {
      DateOnLineFound(text, i', q');
    }
    assert FirstDateOnFechaLine(text, h.at, h.start);
  }
}
