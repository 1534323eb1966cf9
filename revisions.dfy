/** How the draft revisions of the country-code check relate: the `Code<U2>`
    based one (src/iso3166.rs) and the `String` based one
    (src/country_codes.rs) agree on every text shorter than 256 characters
    and part ways only through the `u8` length cast. */
module Revisions {
  import Iso3166
  import CountryCodes

  lemma ShortTextsAgree(s: string)
    requires |s| < 256
    ensures Iso3166.CountryCode.IsValid(s) == CountryCodes.CountryCode.IsValid(s)
  {
  }

  lemma CastSeparatesRevisions()
    ensures Iso3166.CountryCode.IsValid(seq(258, i => 'Z'))
    ensures !CountryCodes.CountryCode.IsValid(seq(258, i => 'Z'))
  {
  }
}
