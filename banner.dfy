/**
 * The "no results" test of the page parser (server.js:134):
 * `/Sin Resultado En B[uú]squeda/i.test(text)`.
 */
module Banner {
  import opened JsText

  /** The banner up to the letter that may carry an accent. */
  const Head := "Sin Resultado En B"
  /** The banner after that letter. */
  const Tail := "squeda"

  /** The two spellings the class `[uú]` admits. */
  const Accented := Head + "\U{00FA}" + Tail
  const Plain := Head + "u" + Tail

  /** `Sin Resultado En B[uú]squeda` matches at offset `i`, ignoring case. */
  predicate BannerAt(text: string, i: nat) {
    && OccursAt(text, Head, i)
    && (OccursAt(text, "u", i + |Head|) || OccursAt(text, "\U{00FA}", i + |Head|))
    && OccursAt(text, Tail, i + |Head| + 1)
  }

  /** `test` scanning the offsets from `i` onwards. */
  function BannerFrom(text: string, i: nat): (r: bool)
    requires i <= |text|
    ensures r <==> exists k :: i <= k <= |text| && BannerAt(text, k)
    decreases |text| - i
  {
    if BannerAt(text, i) then true
    else if i < |text| then BannerFrom(text, i + 1)
    else false
  }

  /** The class `[uú]` matches exactly the two spellings of the banner. */
  lemma BannerAtSpellings(text: string, i: nat)
    ensures BannerAt(text, i) <==> OccursAt(text, Accented, i) || OccursAt(text, Plain, i)
  {
    OccursConcat(text, Head + "\U{00FA}", Tail, i);
    OccursConcat(text, Head, "\U{00FA}", i);
    OccursConcat(text, Head + "u", Tail, i);
    OccursConcat(text, Head, "u", i);
  }

  /** Every offset: `B[uú]squeda` matches there exactly when one of the two spellings occurs there. */
  lemma SpellingsAgree(text: string)
    ensures forall i: nat :: BannerAt(text, i) <==> OccursAt(text, Accented, i) || OccursAt(text, Plain, i)
  {
    forall i: nat
      ensures BannerAt(text, i) <==> OccursAt(text, Accented, i) || OccursAt(text, Plain, i)
    {
      BannerAtSpellings(text, i);
    }
  }

  /**
   * `noRes`: it holds exactly when the page text contains "Sin Resultado En
   * Búsqueda" or "Sin Resultado En Busqueda", in any mix of upper and lower
   * case.
   */
  function HasBanner(text: string): (r: bool)
    ensures r <==> exists i :: 0 <= i <= |text| && (OccursAt(text, Accented, i) || OccursAt(text, Plain, i))
  {
    SpellingsAgree(text);
    BannerFrom(text, 0)
  }
}
