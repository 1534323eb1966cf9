/** ISO 3166-1 alpha-2 country codes built on `Code<U2>`, and the registry
    from codes to country names (src/iso3166.rs). */
module Iso3166 {
  import opened Wrappers
  import opened Text
  import opened Errors
  import BoundedCode
  import Registry

  predicate NotAsciiAlpha(c: char) { !IsAsciiAlpha(c) }

  /** `CountryCode(Code<U2>)`. Its field is private: every value comes from
      `new`, directly or through `FromStr`, `From` or deserialisation. */
  datatype CountryCode = CountryCode(code: BoundedCode.Code) {

    /** What holds of every value `new` builds. */
    predicate Wellformed() { code.capacity == 2 && IsValid(code.text) }

    /** `as_str`. */
    function AsStr(): (s: string)
      ensures s == code.text
    {
      code.AsStr()
    }

    /** `is_valid`: `Code::<U2>::is_valid` and every character ASCII
        alphabetic. Together: the length is 2 modulo 256 and every character
        is an ASCII capital letter. */
    static function IsValid(s: string): (ok: bool)
      ensures ok <==> |s| % 256 == 2 && forall i :: 0 <= i < |s| ==> IsAsciiUpper(s[i])
      ensures ok ==> BoundedCode.Code.IsValid(2, s)
    {
      BoundedCode.Code.IsValid(2, s) && FindChar(s, NotAsciiAlpha) == None
    }

    /** `new`: checks the text, then wraps it in a `Code<U2>`. */
    static function New(s: string): (r: Result<CountryCode, Error>)
      ensures r.Err? <==> !IsValid(s)
      ensures r.Err? ==> r.error == InvalidCode
      ensures r.Ok? ==> r.value.AsStr() == s && r.value.Wellformed()
    {
      if !IsValid(s) then Err(InvalidCode) else Ok(CountryCode(BoundedCode.Code.From(2, s)))
    }

    /** `validate`: re-checks the format only, not membership in a registry. */
    function Validate(): (r: Result<(), Error>)
      ensures r.Ok? <==> IsValid(AsStr())
      ensures r.Err? ==> r.error == InvalidCode
    {
      if !IsValid(AsStr()) then Err(InvalidCode) else Ok(())
    }

    /** `impl FromStr`: the same as `new`. */
    static function FromStr(s: string): (r: Result<CountryCode, Error>)
      ensures r.Err? <==> !IsValid(s)
      ensures r.Err? ==> r.error == InvalidCode
      ensures r.Ok? ==> r.value.AsStr() == s && r.value.Wellformed()
    {
      New(s)
    }

    /** `impl From<&str>`: `from_str(..).unwrap()`, which panics on bad text. */
    static function From(s: string): (p: Panicking<CountryCode>)
      ensures p.Panic? <==> !IsValid(s)
      ensures p.Returned? ==> p.value.AsStr() == s && p.value.Wellformed()
    {
      Unwrap(FromStr(s))
    }

    /** `impl Serialize`: the plain text of the code. */
    function Serialize(): (t: string)
      ensures t == AsStr()
    {
      code.AsStr()
    }

    /** `impl Deserialize`: reads a text and converts it with `From`. */
    static function Deserialize(s: string): (p: Panicking<CountryCode>)
      ensures p.Panic? <==> !IsValid(s)
      ensures p.Returned? ==> p.value.Serialize() == s && p.value.Wellformed()
    {
      From(s)
    }
  }

  /** For a two-character text, validity means two letters 'A'..'Z'. */
  lemma TwoCharacterCodes(s: string)
    requires |s| == 2
    ensures CountryCode.IsValid(s) <==> IsAsciiUpper(s[0]) && IsAsciiUpper(s[1])
  {
  }

  /** Every value `new` returns validates, and keeps its text unchanged. */
  lemma NewValidates(s: string)
    ensures CountryCode.New(s).Ok? ==> CountryCode.New(s).value.Validate() == Ok(())
    ensures CountryCode.New(s).Ok? ==> CountryCode.New(s).value.AsStr() == s
  {
  }

  /** Text written by `Serialize` reads back as the same code. */
  lemma SerializeRoundTrip(c: CountryCode)
    requires c.Wellformed()
    ensures CountryCode.Deserialize(c.Serialize()) == Returned(c)
  {
  }

  /** Reading a text panics exactly when the text is not a valid code; it
      never reports an error value. What it returns writes back the same text. */
  lemma DeserializePanicsOnInvalid(s: string)
    ensures CountryCode.Deserialize(s) == Panic <==> !CountryCode.IsValid(s)
    ensures CountryCode.Deserialize(s).Returned? ==> CountryCode.Deserialize(s).value.Serialize() == s
  {
  }

  /** `CountryCodes(BTreeMap<CountryCode, String>)`, as its entries in key order. */
  datatype CountryCodes = CountryCodes(entries: seq<Registry.Entry<CountryCode>>) {

    /** What a `BTreeMap` guarantees of its iteration order. */
    ghost predicate KeysAscending() {
      forall i, j :: 0 <= i < j < |entries| ==> Less(entries[i].key.AsStr(), entries[j].key.AsStr())
    }

    /** `exists`: `contains_key`, membership in the map's key set. */
    function Exists(c: CountryCode): (b: bool)
      ensures b <==> c in Registry.Keys(entries)
    {
      Registry.HasKey(entries, c)
    }

    /** `validate`: the format first, then membership. */
    function Validate(s: string): (r: Result<(), Error>)
      ensures r == Err(InvalidCode) <==> !CountryCode.IsValid(s)
      ensures r == Err(CodeNotFound) <==> CountryCode.IsValid(s) && !Exists(CountryCode(BoundedCode.Code(2, s)))
      ensures r.Ok? <==> CountryCode.IsValid(s) && Exists(CountryCode(BoundedCode.Code(2, s)))
    {
      match CountryCode.New(s)
      case Err(e) => Err(e)
      case Ok(c) => if !Exists(c) then Err(CodeNotFound) else Ok(())
    }

    /** `find`: the key of the first entry, in iteration order, whose name
        contains `q`. When several names match, that is the least key. */
    method Find(q: string) returns (r: Option<CountryCode>)
      ensures r.None? <==> forall i :: 0 <= i < |entries| ==> !Contains(entries[i].name, q)
      ensures r.Some? ==> Exists(r.value)
      ensures r.Some? ==> exists i :: Registry.FirstMatch(entries, q, i) && entries[i].key == r.value
      ensures r.Some? && KeysAscending() ==>
        forall i :: 0 <= i < |entries| && Contains(entries[i].name, q) ==>
          entries[i].key == r.value || Less(r.value.AsStr(), entries[i].key.AsStr())
    {
      r := Registry.FindFirst(entries, q);
    }
  }

  /** For a code built by `new`, registry validation succeeds exactly when
      the code is a key. */
  lemma ValidateIffExists(codes: CountryCodes, c: CountryCode)
    requires c.Wellformed()
    ensures codes.Validate(c.AsStr()).Ok? <==> codes.Exists(c)
    ensures codes.Validate(c.AsStr()).Err? ==> codes.Validate(c.AsStr()) == Err(CodeNotFound)
  {
  }

  /** The malformed inputs of the in-file test are refused as format errors
      whatever the registry holds. */
  lemma ValidateRefusesMalformed(codes: CountryCodes)
    ensures codes.Validate("abc") == Err(InvalidCode)
    ensures codes.Validate("13") == Err(InvalidCode)
    ensures codes.Validate("abcde") == Err(InvalidCode)
    ensures codes.Validate("AB") != Err(InvalidCode)
  {
    assert !IsAsciiUpper("13"[0]);
  }
}
