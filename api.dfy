/**
 * The `/api/gel` handler (server.js:52-166) around the page parser: the
 * tracking-code check (server.js:53-54), the answer built from the parser's
 * object (server.js:154-159) and the error answer (server.js:160-162). The
 * browser session that types the code into the search form and renders the
 * result page is a parameter: it yields the page text or throws.
 */
module TrackingApi {
  import opened JsText
  import opened LabelValue
  import opened DateFallback
  import opened Banner
  import opened PageExtract

  /** The message of the 400 answer. */
  const MissingTracking := "Falta ?tracking="

  /** A JavaScript value that `found` can take: `false`, `null` or a string. */
  datatype JsValue = JsBool(b: bool) | JsNull | JsString(s: string)

  /** JavaScript truthiness. */
  predicate IsTruthy(v: JsValue) {
    match v
    case JsBool(b) => b
    case JsNull => false
    case JsString(s) => s != ""
  }

  /** A `string | null` as a JavaScript value. */
  function AsValue(v: Option<string>): (r: JsValue)
    ensures IsTruthy(r) <==> Truthy(v)
  {
    match v
    case None => JsNull
    case Some(s) => JsString(s)
  }

  /**
   * What the browser session ends in: the page's `document.body.innerText`
   * (already replaced by "" when it is empty), or an exception, with its
   * `message` and its `String(e)` form.
   */
  datatype PageOutcome = Rendered(text: string) | Thrown(message: string, asText: string)

  /** The JSON answer of the handler. */
  datatype Response =
    | BadRequest(error: string)
    | ServerError(error: string)
    | Answer(found: JsValue, saco: Option<string>, fechaDeIngreso: Option<string>)

  /** The HTTP status of an answer. */
  function Status(r: Response): nat {
    match r
    case BadRequest(_) => 400
    case ServerError(_) => 500
    case Answer(_, _, _) => 200
  }

  /** The `ok` field of an answer. */
  predicate Ok(r: Response) {
    r.Answer?
  }

  /**
   * `(req.query.tracking || "").trim()`, or None when it is empty and the
   * handler answers 400 before any browsing.
   */
  function TrackingCode(param: Option<string>): (r: Option<string>)
    ensures r.None? <==> param.None? || AllSpace(param.value)
    ensures r.Some? ==> r.value == Trim(param.value) && r.value != [] && IsTrimmed(r.value)
  {
    var t := Trim(if param.Some? then param.value else "");
    if t == [] then None else Some(t)
  }

  /**
   * A tracking code read back from the query is the same code: the check
   * is idempotent.
   */
  lemma TrackingCodeIdempotent(param: Option<string>)
    ensures TrackingCode(TrackingCode(param)) == TrackingCode(param)
  {
    if TrackingCode(param).Some? {
      TrimIdempotent(param.value);
    }
  }

  /** `String(e.message || e)`. */
  function ErrorText(message: string, asText: string): (r: string)
    ensures r == message || r == asText
    ensures r == asText ==> message == "" || message == asText
    ensures r != "" <==> message != "" || asText != ""
  {
    if message != "" then message else asText
  }

  /** The 200 answer built from the parser's object. */
  function Respond(x: Extraction): (r: Response)
    ensures r.Answer? && Status(r) == 200 && Ok(r)
    ensures IsTruthy(r.found) <==> !x.noRes && (Truthy(x.saco) || Truthy(x.fecha))
    ensures IsTruthy(r.found) ==> r.found.JsString? && (Some(r.found.s) == r.saco || Some(r.found.s) == r.fechaDeIngreso)
    ensures x.noRes ==> r.found == JsBool(false)
    ensures r.saco.Some? ==> r.saco == x.saco && r.saco.value != ""
    ensures r.saco.None? <==> !Truthy(x.saco)
    ensures r.fechaDeIngreso.Some? ==> r.fechaDeIngreso == x.fecha && r.fechaDeIngreso.value != ""
    ensures r.fechaDeIngreso.None? <==> !Truthy(x.fecha)
  {
    var found := if x.noRes then JsBool(false) else if Truthy(x.saco) then AsValue(x.saco) else AsValue(x.fecha);
    Answer(
      found,
      if Truthy(x.saco) then x.saco else None,
      if Truthy(x.fecha) then x.fecha else None)
  }

  /** The handler, given the query parameter and the browser session. */
  function Handle(param: Option<string>, browse: string -> PageOutcome): (r: Response)
    ensures r.BadRequest? <==> TrackingCode(param).None?
    ensures r.BadRequest? ==> r.error == MissingTracking
    ensures r.ServerError? <==> TrackingCode(param).Some? && browse(TrackingCode(param).value).Thrown?
    ensures r.ServerError? ==>
      var e := browse(TrackingCode(param).value);
      r.error == ErrorText(e.message, e.asText)
    ensures r.Answer? ==> r == Respond(Extract(browse(TrackingCode(param).value).text))
  {
    match TrackingCode(param)
    case None => BadRequest(MissingTracking)
    case Some(t) =>
      match browse(t)
      case Thrown(message, asText) => ServerError(ErrorText(message, asText))
      case Rendered(text) => Respond(Extract(text))
  }

  /** A blank or missing tracking code is refused without browsing. */
  lemma BlankTrackingNeverBrowses(param: Option<string>, browse: string -> PageOutcome, other: string -> PageOutcome)
    requires param.None? || AllSpace(param.value)
    ensures Handle(param, browse) == Handle(param, other) == BadRequest(MissingTracking)
    ensures Status(Handle(param, browse)) == 400 && !Ok(Handle(param, browse))
  {
  }

  /**
   * The session is run on the trimmed code only: two parameters that trim to
   * the same code get the same answer.
   */
  lemma HandleSeesTrimmedCode(p: string, p': string, browse: string -> PageOutcome)
    requires Trim(p) == Trim(p')
    ensures Handle(Some(p), browse) == Handle(Some(p'), browse)
  {
  }

  /**
   * `found` is truthy exactly when the page shows no "Sin Resultado En
   * Búsqueda" banner and shows a value after SACO, CB, CB# or FECHA DE
   * INGRESO, or a date on a line after FECHA.
   */
  lemma FoundIffEvidence(param: Option<string>, browse: string -> PageOutcome)
    requires TrackingCode(param).Some?
    requires browse(TrackingCode(param).value).Rendered?
    ensures var text := browse(TrackingCode(param).value).text;
      IsTruthy(Handle(param, browse).found) <==>
        && !(exists i :: 0 <= i <= |text| && (OccursAt(text, Accented, i) || OccursAt(text, Plain, i)))
        && (|| (exists i, c :: LabelledValueAt(text, Saco, i, c))
            || (exists i, c :: LabelledValueAt(text, Cb, i, c))
            || (exists i, c :: LabelledValueAt(text, CbHash, i, c))
            || (exists i, c :: LabelledValueAt(text, FechaDeIngreso, i, c))
            || (exists i: nat, q: nat :: DateOnFechaLine(text, i, q)))
  {
    var x := Extract(browse(TrackingCode(param).value).text);
    assert Handle(param, browse) == Respond(x);
  }

  /**
   * The banner decides: when it shows, `found` is `false` whatever values the
   * page also shows, while `saco` and `fecha_de_ingreso` still report them.
   */
  lemma BannerOverridesValues(text: string)
    requires HasBanner(text)
    ensures Respond(Extract(text)).found == JsBool(false)
    ensures Truthy(BagCode(text)) ==> Respond(Extract(text)).saco == BagCode(text)
  {
  }
}
