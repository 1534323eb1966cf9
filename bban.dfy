/** The Basic Bank Account Number of ISO 13616 (src/iso13616/bban.rs): up to
    30 ASCII letters and digits, uppercased when built. */
module Bban {
  import opened Wrappers
  import opened Text
  import opened Errors

  /** `MAX_LENGTH`: the maximum byte length of a BBAN. */
  const MaxLength: nat := 30

  predicate NotAsciiAlnum(c: char) { !IsAsciiAlnum(c) }

  /** No ASCII lowercase letter occurs in `s`. */
  predicate NoLowercase(s: string) {
    forall i :: 0 <= i < |s| ==> !IsAsciiLower(s[i])
  }

  /** `BBAN(String)`; its field is private and set only by `new`. */
  datatype Bban = Bban(text: string) {

    /** `as_str`. */
    function AsStr(): (s: string)
      ensures s == text
    {
      text
    }

    /** `is_valid`: at most `MAX_LENGTH` bytes, all ASCII letters or digits.
        Lowercase letters and the empty text pass. */
    static function IsValid(s: string): (ok: bool)
      ensures ok <==> |s| <= 30 && forall i :: 0 <= i < |s| ==> IsAsciiAlnum(s[i])
    {
      Utf8Len(s) <= MaxLength && FindChar(s, NotAsciiAlnum) == None
    }

    /** `new`: uppercases the text, checks the uppercased text and stores it. */
    static function New(s: string): (r: Result<Bban, Error>)
      ensures r.Err? <==> !IsValid(ToUpperAscii(s))
      ensures r.Err? ==> r.error == InvalidCode
      ensures r.Ok? ==> r.value.AsStr() == ToUpperAscii(s)
      ensures r.Ok? ==> NoLowercase(r.value.AsStr()) && |r.value.AsStr()| == |s| <= 30
    {
      var upper := ToUpperAscii(s);
      if !IsValid(upper) then Err(InvalidCode) else Ok(Bban(upper))
    }

    /** `validate`: re-checks the stored text. */
    function Validate(): (r: Result<(), Error>)
      ensures r.Ok? <==> IsValid(text)
      ensures r.Err? ==> r.error == InvalidCode
    {
      if !IsValid(AsStr()) then Err(InvalidCode) else Ok(())
    }

    /** `impl FromStr`: the same as `new`. */
    static function FromStr(s: string): (r: Result<Bban, Error>)
      ensures r.Err? <==> !IsValid(ToUpperAscii(s))
      ensures r.Err? ==> r.error == InvalidCode
      ensures r.Ok? ==> r.value.AsStr() == ToUpperAscii(s)
    {
      New(s)
    }

    /** `impl From<&str>`: `from_str(..).unwrap()`, which panics on bad text. */
    static function From(s: string): (p: Panicking<Bban>)
      ensures p.Panic? <==> New(s).Err?
      ensures p.Returned? ==> p.value == New(s).value
    {
      Unwrap(FromStr(s))
    }
  }

  /** Uppercasing keeps a letter a letter and a digit a digit, and changes
      nothing in a text without lowercase letters. */
  lemma UpperKeepsClasses(s: string)
    ensures (forall i :: 0 <= i < |s| ==> IsAsciiAlnum(s[i])) <==>
            (forall i :: 0 <= i < |ToUpperAscii(s)| ==> IsAsciiAlnum(ToUpperAscii(s)[i]))
    ensures NoLowercase(s) ==> ToUpperAscii(s) == s
  {
    forall i | 0 <= i < |s| ensures IsAsciiAlnum(s[i]) <==> IsAsciiAlnum(ToUpperAscii(s)[i]) {
      assert ToUpperAscii(s)[i] == UpperChar(s[i]);
    }
  }

  /** `new` accepts every text `is_valid` accepts, in any case, and accepts
      nothing more: success depends only on the text up to ASCII case. */
  lemma NewAcceptsExactlyValid(s: string)
    ensures Bban.New(s).Ok? <==> Bban.IsValid(s)
  {
  }

  /** Building from a BBAN's own text gives back that BBAN: normalisation
      is idempotent. */
  lemma NewIsIdempotent(s: string)
    requires Bban.New(s).Ok?
    ensures Bban.New(Bban.New(s).value.AsStr()) == Bban.New(s)
  {
    UpperKeepsClasses(Bban.New(s).value.AsStr());
  }

  /** `From` panics exactly on the texts whose uppercased form is invalid;
      otherwise it returns the uppercased text, which validates. */
  lemma FromPanicsOnInvalid(s: string)
    ensures Bban.From(s) == Panic <==> !Bban.IsValid(ToUpperAscii(s))
    ensures Bban.From(s).Returned? ==>
      Bban.From(s).value.AsStr() == ToUpperAscii(s) && Bban.From(s).value.Validate() == Ok(())
    ensures Bban.From("abc44") == Returned(Bban("ABC44"))
    ensures Bban.From("!") == Panic
  {
    assert ToUpperAscii("abc44") == "ABC44";
    assert !IsAsciiAlnum("!"[0]);
  }

  /** Every value `new` returns validates. */
  lemma NewValidates(s: string)
    ensures Bban.New(s).Ok? ==> Bban.New(s).value.Validate() == Ok(())
  {
  }

  /** The in-file test cases, and the uppercasing example. */
  lemma ExampleCodes()
    ensures !Bban.IsValid("!")
    ensures !Bban.IsValid(seq(30, i => 'a') + "h")
    ensures Bban.IsValid("00") && Bban.IsValid("001") && Bban.IsValid("ABC44")
    ensures Bban.IsValid(seq(30, i => 'a'))
    ensures Bban.IsValid("")
    ensures Bban.New("abc44") == Ok(Bban("ABC44"))
  {
    assert !IsAsciiAlnum("!"[0]);
    assert ToUpperAscii("abc44") == "ABC44";
  }
}
