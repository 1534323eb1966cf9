/** The generic fixed-capacity code `Code<N>` (src/code.rs) on which the
    ISO 3166 country code is built. */
module BoundedCode {
  import opened Wrappers
  import opened Text
  import opened Errors

  /** An `arraystring` capacity: a type-level number read back as a `u8`. */
  type Capacity = n: nat | n < 256

  /** A character `Code::is_valid` refuses: lowercase or outside ASCII. Every
      non-ASCII character is refused whatever its case, so only ASCII case
      matters. */
  predicate RefusedChar(c: char) { IsAsciiLower(c) || !IsAscii(c) }

  /** A value of type `Code<N>`: the capacity `N` of its type and its text. */
  datatype Code = Code(capacity: Capacity, text: string) {

    /** `as_str`. */
    function AsStr(): (s: string)
      ensures s == text
    {
      text
    }

    /** `is_valid`: the byte length, cast to `u8`, equals the capacity, and
        no character is lowercase or non-ASCII. Because of the cast, the
        length is compared modulo 256; digits, spaces and punctuation pass. */
    static function IsValid(n: Capacity, s: string): (ok: bool)
      ensures ok <==> |s| % 256 == n && forall i :: 0 <= i < |s| ==> IsAscii(s[i]) && !IsAsciiLower(s[i])
    {
      Utf8Len(s) % 256 == n && FindChar(s, RefusedChar) == None
    }

    /** `from_str`: wraps the text without checking it. */
    static function FromStr(n: Capacity, s: string): (c: Code)
      ensures c.capacity == n && c.AsStr() == s
    {
      Code(n, s)
    }

    /** `impl From<&str>`: the same as `from_str`. */
    static function From(n: Capacity, s: string): (c: Code)
      ensures c == FromStr(n, s)
    {
      FromStr(n, s)
    }

    /** `new`: checks the text first and wraps it only when it is valid. */
    static function New(n: Capacity, s: string): (r: Result<Code, Error>)
      ensures r.Err? <==> !IsValid(n, s)
      ensures r.Err? ==> r.error == InvalidCode
      ensures r.Ok? ==> r.value.capacity == n && r.value.AsStr() == s
    {
      if !IsValid(n, s) then Err(InvalidCode) else Ok(FromStr(n, s))
    }

    /** `validate`: re-runs `is_valid` on the stored text. */
    function Validate(): (r: Result<(), Error>)
      ensures r.Ok? <==> IsValid(capacity, text)
      ensures r.Err? ==> r.error == InvalidCode
    {
      if !IsValid(capacity, text) then Err(InvalidCode) else Ok(())
    }
  }

  /** The derived `PartialOrd`/`Ord`: codes compare by their text. */
  function Below(a: Code, b: Code): (r: bool)
    ensures r <==> Less(a.text, b.text)
    ensures r ==> a.text != b.text
  {
    LessIrreflexive(a.text);
    Less(a.text, b.text)
  }

  /** Text of exactly the capacity passes `new` unchanged, with no case
      folding, and the resulting value validates. */
  lemma NewKeepsValidText(n: Capacity, s: string)
    requires |s| == n && Code.IsValid(n, s)
    ensures Code.New(n, s) == Ok(Code(n, s))
    ensures Code.New(n, s).value.AsStr() == s
    ensures Code.New(n, s).value.Validate() == Ok(())
  {
  }

  /** Every value `new` returns validates. */
  lemma NewValidates(n: Capacity, s: string)
    ensures Code.New(n, s).Ok? ==> Code.New(n, s).value.Validate() == Ok(())
  {
  }

  /** `from_str` and `From` do not validate: the value they build validates
      exactly when its text would have passed `new`. */
  lemma FromStrSkipsValidation(n: Capacity, s: string)
    ensures Code.FromStr(n, s).Validate().Ok? <==> Code.New(n, s).Ok?
    ensures Code.From(n, s) == Code.FromStr(n, s)
    ensures Code.FromStr(2, "ab").Validate() == Err(InvalidCode)
  {
    assert IsAsciiLower("ab"[0]);
  }

  /** The `u8` cast lets a 258-byte text pass for a code of capacity 2. */
  lemma CastAdmitsLongText()
    ensures Code.IsValid(2, seq(258, i => 'A'))
    ensures Code.New(2, seq(258, i => 'A')).Ok?
  {
  }

  /** Only lowercase and non-ASCII characters are refused: digits, blanks and
      punctuation are accepted. */
  lemma NonLettersAccepted()
    ensures Code.IsValid(4, "1 -Z")
    ensures !Code.IsValid(2, "aZ")
    ensures !Code.IsValid(1, "É")
  {
    assert IsAsciiLower("aZ"[0]);
    assert !IsAscii("É"[0]);
  }

  /** Codes of one capacity are totally ordered by their text. */
  lemma BelowIsStrictTotalOrder(a: Code, b: Code, c: Code)
    requires a.capacity == b.capacity
    ensures !Below(a, a)
    ensures Below(a, b) && Below(b, c) ==> Below(a, c)
    ensures Below(a, b) ==> !Below(b, a)
    ensures a != b ==> Below(a, b) || Below(b, a)
  {
    LessIrreflexive(a.text);
    if Below(a, b) && Below(b, c) { LessTransitive(a.text, b.text, c.text); }
    if Below(a, b) && Below(b, a) { LessTransitive(a.text, b.text, a.text); }
    if a != b { LessTotal(a.text, b.text); }
  }
}
