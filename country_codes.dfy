/** The `String`-backed draft of the ISO 3166-1 alpha-2 country code and its
    registry (src/country_codes.rs). */
module CountryCodes {
  import opened Wrappers
  import opened Text
  import Registry

  /** `LENGTH`: the byte length of an alpha-2 code. */
  const Length: nat := 2

  /** The two error kinds this draft returns, `Error::InvalidCountryCode`
      and `Error::CountryCodeNotFound`. */
  datatype Error = InvalidCountryCode | CountryCodeNotFound

  /** A character `is_valid` refuses: lowercase or not ASCII alphabetic. A
      character outside the ASCII letters is refused whatever its case. */
  predicate RefusedChar(c: char) { IsAsciiLower(c) || !IsAsciiAlpha(c) }

  /** `CountryCode(String)`; its field is private and set only by `new`. */
  datatype CountryCode = CountryCode(text: string) {

    /** `is_valid`: exactly `LENGTH` bytes, no `u8` cast, and only ASCII
        capital letters. */
    static function IsValid(s: string): (ok: bool)
      ensures ok <==> |s| == 2 && IsAsciiUpper(s[0]) && IsAsciiUpper(s[1])
    {
      Utf8Len(s) == Length && FindChar(s, RefusedChar) == None
    }

    /** `new`: checks the text, then stores it unchanged. */
    static function New(s: string): (r: Result<CountryCode, Error>)
      ensures r.Err? <==> !IsValid(s)
      ensures r.Err? ==> r.error == InvalidCountryCode
      ensures r.Ok? ==> r.value.text == s
    {
      if !IsValid(s) then Err(InvalidCountryCode) else Ok(CountryCode(s))
    }

    /** `validate`: re-checks the stored text. */
    function Validate(): (r: Result<(), Error>)
      ensures r.Ok? <==> IsValid(text)
      ensures r.Err? ==> r.error == InvalidCountryCode
    {
      if !IsValid(text) then Err(InvalidCountryCode) else Ok(())
    }
  }

  /** Every value `new` returns validates. */
  lemma NewValidates(s: string)
    ensures CountryCode.New(s).Ok? ==> CountryCode.New(s).value.Validate() == Ok(())
  {
  }

  /** A two-byte text of non-ASCII characters is not two characters long, and
      no text of another byte length passes. */
  lemma ByteLengthIsExact(s: string)
    ensures CountryCode.IsValid(s) ==> Utf8Len(s) == 2
    ensures !CountryCode.IsValid("É")
    ensures !CountryCode.IsValid("ABC")
  {
    assert !IsAsciiUpper("É"[0]);
  }

  /** `CountryCodes(BTreeMap<CountryCode, String>)`, as its entries in key order. */
  datatype CountryCodes = CountryCodes(entries: seq<Registry.Entry<CountryCode>>) {

    /** What a `BTreeMap` guarantees of its iteration order. */
    ghost predicate KeysAscending() {
      forall i, j :: 0 <= i < j < |entries| ==> Less(entries[i].key.text, entries[j].key.text)
    }

    /** `exists`: `contains_key`, membership in the map's key set. */
    function Exists(c: CountryCode): (b: bool)
      ensures b <==> c in Registry.Keys(entries)
    {
      Registry.HasKey(entries, c)
    }

    /** `validate`: the format first, then membership. */
    function Validate(s: string): (r: Result<(), Error>)
      ensures r == Err(InvalidCountryCode) <==> !CountryCode.IsValid(s)
      ensures r == Err(CountryCodeNotFound) <==> CountryCode.IsValid(s) && !Exists(CountryCode(s))
      ensures r.Ok? <==> CountryCode.IsValid(s) && Exists(CountryCode(s))
    {
      match CountryCode.New(s)
      case Err(e) => Err(e)
      case Ok(c) => if !Exists(c) then Err(CountryCodeNotFound) else Ok(())
    }

    /** `find`: the key of the first entry, in iteration order, whose name
        contains `q`. When several names match, that is the least key. */
    method Find(q: string) returns (r: Option<CountryCode>)
      ensures r.None? <==> forall i :: 0 <= i < |entries| ==> !Contains(entries[i].name, q)
      ensures r.Some? ==> Exists(r.value)
      ensures r.Some? ==> exists i :: Registry.FirstMatch(entries, q, i) && entries[i].key == r.value
      ensures r.Some? && KeysAscending() ==>
        forall i :: 0 <= i < |entries| && Contains(entries[i].name, q) ==>
          entries[i].key == r.value || Less(r.value.text, entries[i].key.text)
    {
      r := Registry.FindFirst(entries, q);
    }
  }

  /** For a code built by `new`, registry validation succeeds exactly when
      the code is a key. */
  lemma ValidateIffExists(codes: CountryCodes, c: CountryCode)
    requires CountryCode.IsValid(c.text)
    ensures codes.Validate(c.text).Ok? <==> codes.Exists(c)
    ensures codes.Validate(c.text).Err? ==> codes.Validate(c.text) == Err(CountryCodeNotFound)
  {
  }

  /** The malformed inputs of the in-file test are refused as format errors
      whatever the registry holds. */
  lemma ValidateRefusesMalformed(codes: CountryCodes)
    ensures codes.Validate("abc") == Err(InvalidCountryCode)
    ensures codes.Validate("13") == Err(InvalidCountryCode)
    ensures codes.Validate("abcde") == Err(InvalidCountryCode)
    ensures codes.Validate("AB") != Err(InvalidCountryCode)
  {
    assert !IsAsciiUpper("13"[0]);
  }
}
