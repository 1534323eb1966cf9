/** The registry keyed by plain text (src/codes.rs). Its `validate` checks
    only the byte length before looking the text up; there is no character
    check. */
module Codes {
  import opened Wrappers
  import opened Text
  import opened Errors

  /** `LENGTH`: the byte length of an alpha-2 code. */
  const Length: nat := 2

  /** `Codes(BTreeMap<String, String>)`. No operation here depends on the
      iteration order, so the map is a Dafny `map`. */
  datatype Codes = Codes(table: map<string, string>) {

    /** `exists`: `contains_key`, membership in the map's key set. */
    function Exists(s: string): (b: bool)
      ensures b <==> s in table.Keys
    {
      s in table
    }

    /** `validate`: the byte length first, then membership. */
    function Validate(s: string): (r: Result<(), Error>)
      ensures r == Err(InvalidCode) <==> Utf8Len(s) != 2
      ensures r == Err(CodeNotFound) <==> Utf8Len(s) == 2 && !Exists(s)
      ensures r.Ok? <==> Utf8Len(s) == 2 && Exists(s)
    {
      if Utf8Len(s) != Length then Err(InvalidCode)
      else if !Exists(s) then Err(CodeNotFound)
      else Ok(())
    }
  }

  /** Texts of the wrong length are refused as format errors, whatever they
      contain and whatever the table holds. */
  lemma WrongLengthIsInvalid(codes: Codes)
    ensures codes.Validate("abc") == Err(InvalidCode)
    ensures codes.Validate("abcde") == Err(InvalidCode)
    ensures codes.Validate("") == Err(InvalidCode)
  {
  }

  /** There is no character check: "13" and "ab" can only fail as absent, and
      a single two-byte character such as 'é' passes the length check. */
  lemma NoCharsetCheck(codes: Codes)
    ensures codes.Validate("13") != Err(InvalidCode)
    ensures codes.Validate("13") == Err(CodeNotFound) <==> "13" !in codes.table
    ensures codes.Validate("ab").Ok? <==> "ab" in codes.table
    ensures codes.Validate("é") != Err(InvalidCode)
  {
    assert Utf8Len("é") == 2;
  }

  /** A text that validates is a key, two bytes long. */
  lemma ValidateImpliesExists(codes: Codes, s: string)
    requires codes.Validate(s).Ok?
    ensures codes.Exists(s) && Utf8Len(s) == 2
  {
  }
}
