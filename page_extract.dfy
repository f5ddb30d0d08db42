/**
 * The page parser run inside the browser (server.js:131-152): from the
 * page's visible text it computes `noRes`, `saco` (the bag code) and `fecha`
 * (the received date).
 */
module PageExtract {
  import opened JsText
  import opened LabelValue
  import opened DateFallback
  import opened Banner

  const Saco := "SACO"
  const Cb := "CB"
  const CbHash := "CB#"
  const FechaDeIngreso := "FECHA DE INGRESO"

  /** What `page.evaluate` returns: `{ noRes, saco, fecha }`. */
  datatype Extraction = Extraction(noRes: bool, saco: Option<string>, fecha: Option<string>)

  /** JavaScript `a || b` on two `string | null` values. */
  function OrElse(a: Option<string>, b: Option<string>): (r: Option<string>)
    ensures Truthy(r) <==> Truthy(a) || Truthy(b)
    ensures r == a || r == b
  {
    if Truthy(a) then a else b
  }

  /** `getAfter("SACO") || getAfter("CB") || getAfter("CB#")`. */
  function BagCode(text: string): (r: Option<string>)
    ensures r.Some? ==> IsTrimmed(r.value) && NoLineBreak(r.value)
    ensures r == GetAfter(text, Saco) || r == GetAfter(text, Cb) || r == GetAfter(text, CbHash)
  {
    OrElse(OrElse(GetAfter(text, Saco), GetAfter(text, Cb)), GetAfter(text, CbHash))
  }

  /**
   * `getAfter("FECHA DE INGRESO")`, replaced by the date the fallback
   * expression captures when it is falsy and the fallback matches.
   */
  function ReceivedDate(text: string): (r: Option<string>)
    ensures r.Some? ==> IsTrimmed(r.value) && NoLineBreak(r.value)
    ensures r == GetAfter(text, FechaDeIngreso) || r == FallbackDate(text)
  {
    var f := GetAfter(text, FechaDeIngreso);
    if Truthy(f) then f
    else
      match FallbackDate(text)
      case Some(d) => DateIsTrimmedLine(d); Some(d)
      case None => f
  }

  /** A D/M/YYYY date has neither whitespace at its ends nor a line break. */
  lemma DateIsTrimmedLine(d: string)
    requires IsDate(d)
    ensures d != [] && IsTrimmed(d) && NoLineBreak(d)
  {
  }

  /**
   * The bag code is the first of the labels SACO, CB and CB# whose value is
   * truthy; when none is, it is the value of CB#.
   */
  lemma BagCodePrecedence(text: string)
    ensures Truthy(GetAfter(text, Saco)) ==> BagCode(text) == GetAfter(text, Saco)
    ensures !Truthy(GetAfter(text, Saco)) && Truthy(GetAfter(text, Cb)) ==> BagCode(text) == GetAfter(text, Cb)
    ensures !Truthy(GetAfter(text, Saco)) && !Truthy(GetAfter(text, Cb)) ==> BagCode(text) == GetAfter(text, CbHash)
  {
  }

  /**
   * The bag code is truthy exactly when one of SACO, CB and CB# occurs
   * followed by whitespace and then a non-space character.
   */
  lemma BagCodeTruthyIff(text: string)
    ensures Truthy(BagCode(text)) <==>
      || (exists i, c :: LabelledValueAt(text, Saco, i, c))
      || (exists i, c :: LabelledValueAt(text, Cb, i, c))
      || (exists i, c :: LabelledValueAt(text, CbHash, i, c))
  {
    GetAfterTruthyIff(text, Saco);
    GetAfterTruthyIff(text, Cb);
    GetAfterTruthyIff(text, CbHash);
  }

  /**
   * The labelled received date wins; the fallback is used only when it is
   * falsy, and it then yields a D/M/YYYY date.
   */
  lemma ReceivedDatePrecedence(text: string)
    ensures Truthy(GetAfter(text, FechaDeIngreso)) ==> ReceivedDate(text) == GetAfter(text, FechaDeIngreso)
    ensures !Truthy(GetAfter(text, FechaDeIngreso)) && FallbackDate(text).Some? ==>
      ReceivedDate(text) == FallbackDate(text) && IsDate(ReceivedDate(text).value)
    ensures !Truthy(GetAfter(text, FechaDeIngreso)) && FallbackDate(text).None? ==> !Truthy(ReceivedDate(text))
  {
  }

  /**
   * The received date is truthy exactly when FECHA DE INGRESO is followed by
   * whitespace and a non-space character, or when some FECHA is followed on
   * its own line by a D/M/YYYY date.
   */
  lemma ReceivedDateTruthyIff(text: string)
    ensures Truthy(ReceivedDate(text)) <==>
      || (exists i, c :: LabelledValueAt(text, FechaDeIngreso, i, c))
      || (exists i: nat, q: nat :: DateOnFechaLine(text, i, q))
  {
    GetAfterTruthyIff(text, FechaDeIngreso);
    FallbackDateIff(text);
    if FallbackDate(text).Some? {
      DateIsTrimmedLine(FallbackDate(text).value);
    }
  }

  /**
   * The object `page.evaluate` returns for the page text `text`: the banner
   * flag, and the two fields, each a trimmed piece of a single line, truthy
   * exactly when the page shows the evidence its expressions look for.
   */
  function Extract(text: string): (x: Extraction)
    ensures x.noRes <==>
      exists i :: 0 <= i <= |text| && (OccursAt(text, Accented, i) || OccursAt(text, Plain, i))
    ensures x.saco.Some? ==> IsTrimmed(x.saco.value) && NoLineBreak(x.saco.value)
    ensures x.fecha.Some? ==> IsTrimmed(x.fecha.value) && NoLineBreak(x.fecha.value)
    ensures Truthy(x.saco) <==>
      || (exists i, c :: LabelledValueAt(text, Saco, i, c))
      || (exists i, c :: LabelledValueAt(text, Cb, i, c))
      || (exists i, c :: LabelledValueAt(text, CbHash, i, c))
    ensures Truthy(x.fecha) <==>
      || (exists i, c :: LabelledValueAt(text, FechaDeIngreso, i, c))
      || (exists i: nat, q: nat :: DateOnFechaLine(text, i, q))
  {
    BagCodeTruthyIff(text);
    ReceivedDateTruthyIff(text);
    Extraction(HasBanner(text), BagCode(text), ReceivedDate(text))
  }
}
