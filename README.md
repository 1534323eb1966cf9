# paycube identifier validators in Dafny

This project models the structural validators of the paycube Rust crate:

- the generic fixed-capacity code `Code<N>`;
- three draft revisions of the ISO 3166-1 alpha-2 country code and of the registry that maps codes to country names;
- the ISO 13616 BBAN (Basic Bank Account Number);
- the crate's error type.

All of it is pure: validators, guarded constructors, map lookups and one first-match search. The model states and proves what each operation promises.

A Rust `&str` is modelled as a `string` (a sequence of Unicode scalar values). `Text.Utf8Len` gives the UTF-8 byte length that `str::len` returns, and `Text.FindChar` models `str::find` with a character predicate, returning the byte offset. A `BTreeMap<K, String>` that is searched in order is modelled as the sequence of its entries in iteration order (`Registry.Entry`), with the ascending-key guarantee stated as `KeysAscending()`. The registry whose order does not matter (`Codes`) is a Dafny `map`. A call that ends in `unwrap()` gives a `Wrappers.Panicking` value, `Returned(v)` or `Panic`.

Modules follow the source files:

| module | file |
|---|---|
| `BoundedCode` | src/code.rs |
| `Iso3166` | src/iso3166.rs |
| `CountryCodes` | src/country_codes.rs |
| `Codes` | src/codes.rs |
| `Bban` | src/iso13616/bban.rs |
| `Errors` | src/error.rs |
| `Registry` | the `BTreeMap` entries and the `find` loop shared by src/iso3166.rs and src/country_codes.rs |
| `Revisions` | how the two `CountryCode` drafts relate |
| `Text`, `Wrappers` | helpers: character classes, byte length, `find`, `contains`, string order; `Option`, `Result`, `unwrap` |

Behaviour of the code that the model keeps:

- `Code::is_valid` compares `code.len() as u8` with the capacity, so the byte length counts modulo 256. A 258-letter text passes for `Code<U2>` (`BoundedCode.CastAdmitsLongText`). The `Code<U2>`-based `CountryCode` of src/iso3166.rs inherits this rule. The `String`-based draft of src/country_codes.rs compares the length exactly. `Revisions` proves that the two drafts agree below 256 characters and differ at 258.
- `Code::is_valid` refuses only lowercase and non-ASCII characters. Digits, blanks and punctuation pass.
- src/codes.rs checks only the byte length before the lookup. "13" can fail only as `CodeNotFound`, and a single two-byte character such as "é" passes the length check.
- Deserialising an invalid `CountryCode` text panics through `unwrap`; it does not return an error.
- `BBAN::is_valid` accepts lowercase and the empty text. `BBAN::new` uppercases first. For ASCII input it therefore accepts exactly the texts `is_valid` accepts, in any case.

What the code does not do:

- It applies no charset policy per field beyond the checks listed above.
- Its `Code` length rule does not require an exact match, because of the cast.
- It has no BIC or IBAN parsing or formatting, and no `is_connected` or `is_primary`. The files for them declare only structs.
- `CountryCode` deserialisation does not return an error for bad text; it panics.
- src/error.rs does not declare `Error::InvalidCountryCode` or `Error::CountryCodeNotFound`, which src/country_codes.rs returns. The model gives that draft its own two-variant `CountryCodes.Error`.

## Model

| member | source | states |
|---|---|---|
| `BoundedCode.Code.AsStr` | src/code.rs:29-32 | returns the stored text |
| `BoundedCode.Code.IsValid` | src/code.rs:34-39 | valid iff the length is N modulo 256 and every character is ASCII and not lowercase |
| `BoundedCode.Code.New` | src/code.rs:15-22 | fails with InvalidCode exactly when the text is not valid; otherwise keeps capacity N and the text unchanged |
| `BoundedCode.Code.FromStr` | src/code.rs:24-27 | wraps any text with capacity N, unchanged and unchecked |
| `BoundedCode.Code.From` | src/code.rs:51-55 | the same value as `from_str` |
| `BoundedCode.Code.Validate` | src/code.rs:41-48 | Ok exactly when the stored text is valid for the value's capacity, otherwise InvalidCode |
| `BoundedCode.Below` | src/code.rs:10-12 | the derived order: codes compare by their text, and a code is never below a code with the same text |
| `BoundedCode.NewKeepsValidText` | src/code.rs:16-32 | a valid text of exactly N characters is accepted, `as_str` returns it with no case folding, and the value validates |
| `BoundedCode.NewValidates` | src/code.rs:16-48 | every value `new` returns passes `validate` |
| `BoundedCode.FromStrSkipsValidation` | src/code.rs:24-55 | `from_str`/`From` build without checking: the value validates iff `new` would accept the text; `from_str("ab")` gives a value whose `validate` is InvalidCode |
| `BoundedCode.CastAdmitsLongText` | src/code.rs:37 | because of the `u8` cast, a 258-letter text is valid for capacity 2 and `new` accepts it |
| `BoundedCode.NonLettersAccepted` | src/code.rs:38 | digits, blanks and punctuation pass; a lowercase or non-ASCII character fails |
| `BoundedCode.BelowIsStrictTotalOrder` | src/code.rs:10-12 | the derived order (by text) is irreflexive, transitive, asymmetric and total on codes of one capacity |
| `Iso3166.CountryCode.AsStr` | src/iso3166.rs:25-28 | returns the text of the inner `Code<U2>` |
| `Iso3166.CountryCode.IsValid` | src/iso3166.rs:30-34 | valid iff the length is 2 modulo 256 and every character is in 'A'..'Z'; implies `Code<U2>` validity |
| `Iso3166.CountryCode.New` | src/iso3166.rs:17-23 | fails with InvalidCode exactly when the text is not valid; otherwise `as_str` is the text and the value is well formed |
| `Iso3166.CountryCode.Validate` | src/iso3166.rs:36-45 | Ok exactly when the stored text is valid, otherwise InvalidCode |
| `Iso3166.CountryCode.FromStr` | src/iso3166.rs:48-54 | Err (InvalidCode) exactly when the text is not valid; otherwise Ok with a well-formed code holding the text |
| `Iso3166.CountryCode.From` | src/iso3166.rs:56-60 | panics exactly when the text is not valid; otherwise a well-formed code with the text |
| `Iso3166.CountryCode.Serialize` | src/iso3166.rs:62-67 | writes the code's plain text, `as_str` |
| `Iso3166.CountryCode.Deserialize` | src/iso3166.rs:69-74 | panics exactly when the text is not valid; otherwise a well-formed code that serialises back to the text |
| `Iso3166.CountryCodes.Exists` | src/iso3166.rs:90-93 | true exactly when the code is in the map's key set |
| `Iso3166.TwoCharacterCodes` | src/iso3166.rs:32-34 | a 2-character text is valid iff both characters are in 'A'..'Z' |
| `Iso3166.NewValidates` | src/iso3166.rs:17-45 | every value `new` returns validates and keeps its text |
| `Iso3166.SerializeRoundTrip` | src/iso3166.rs:56-74 | deserialising the serialised text of a code gives back the same code |
| `Iso3166.DeserializePanicsOnInvalid` | src/iso3166.rs:48-74 | deserialising panics exactly when the text is not valid; a returned code serialises back to the same text |
| `Iso3166.CountryCodes.Validate` | src/iso3166.rs:95-104 | InvalidCode iff the format fails; CodeNotFound iff well formed but not a key; Ok iff well formed and a key |
| `Iso3166.CountryCodes.Find` | src/iso3166.rs:106-117 | None iff no name contains the query; a returned code is a key, the key of the first entry in iteration order whose name contains the query, and under ascending keys it is the least such key |
| `Iso3166.ValidateIffExists` | src/iso3166.rs:90-104 | for a code built by `new`, registry validation is Ok iff `exists`, and fails only with CodeNotFound |
| `Iso3166.ValidateRefusesMalformed` | src/iso3166.rs:129-142 | "abc", "13" and "abcde" are InvalidCode for every registry; "AB" is never a format error |
| `CountryCodes.CountryCode.IsValid` | src/country_codes.rs:25-30 | valid iff exactly 2 characters (2 bytes, no cast) and both in 'A'..'Z' |
| `CountryCodes.CountryCode.New` | src/country_codes.rs:16-23 | fails with InvalidCountryCode exactly when the text is not valid; otherwise stores the text unchanged |
| `CountryCodes.CountryCode.Validate` | src/country_codes.rs:32-41 | Ok exactly when the stored text is valid, otherwise InvalidCountryCode |
| `CountryCodes.NewValidates` | src/country_codes.rs:17-41 | every value `new` returns validates |
| `CountryCodes.ByteLengthIsExact` | src/country_codes.rs:27-30 | a valid text is exactly 2 bytes; "É" and "ABC" are refused |
| `CountryCodes.CountryCodes.Exists` | src/country_codes.rs:58-61 | true exactly when the code is in the map's key set |
| `CountryCodes.CountryCodes.Validate` | src/country_codes.rs:63-72 | InvalidCountryCode iff the format fails; CountryCodeNotFound iff well formed but not a key; Ok iff well formed and a key |
| `CountryCodes.CountryCodes.Find` | src/country_codes.rs:74-85 | None iff no name contains the query; a returned code is a key, the key of the first entry in iteration order whose name contains the query, and under ascending keys it is the least such key |
| `CountryCodes.ValidateIffExists` | src/country_codes.rs:58-72 | for a well-formed code, registry validation is Ok iff `exists`, and fails only with CountryCodeNotFound |
| `CountryCodes.ValidateRefusesMalformed` | src/country_codes.rs:97-110 | "abc", "13" and "abcde" are InvalidCountryCode for every registry; "AB" is never a format error |
| `Registry.FindFirst` | src/iso3166.rs:109-116 | the loop (also the loop of src/country_codes.rs:77-84) returns None iff no entry's name contains the query, else the key of the first entry in iteration order whose name does |
| `Codes.Codes.Exists` | src/codes.rs:27-30 | true exactly when the text is in the map's key set |
| `Codes.Codes.Validate` | src/codes.rs:32-43 | InvalidCode iff the byte length is not 2; CodeNotFound iff 2 bytes and not a key; Ok iff 2 bytes and a key |
| `Codes.WrongLengthIsInvalid` | src/codes.rs:33-36 | "abc", "abcde" and "" are InvalidCode whatever the table holds |
| `Codes.NoCharsetCheck` | src/codes.rs:33-43 | "13" is never InvalidCode and is CodeNotFound iff absent; "ab" is Ok iff a key; the two-byte "é" passes the length check |
| `Codes.ValidateImpliesExists` | src/codes.rs:27-43 | a text that validates is a key and is 2 bytes long |
| `Bban.Bban.AsStr` | src/iso13616/bban.rs:28-31 | returns the stored text |
| `Bban.Bban.IsValid` | src/iso13616/bban.rs:33-39 | valid iff at most 30 characters, all ASCII letters or digits; lowercase and the empty text pass |
| `Bban.Bban.New` | src/iso13616/bban.rs:15-26 | fails with InvalidCode iff the uppercased text is not valid; otherwise stores the uppercased text, which has no lowercase letter and the input's length |
| `Bban.Bban.Validate` | src/iso13616/bban.rs:41-50 | Ok exactly when the stored text is valid, otherwise InvalidCode |
| `Bban.Bban.FromStr` | src/iso13616/bban.rs:53-59 | Err (InvalidCode) exactly when the uppercased text is not valid; otherwise Ok holding the uppercased text |
| `Bban.Bban.From` | src/iso13616/bban.rs:61-65 | panics exactly when `new` fails; otherwise returns the value `new` builds |
| `Bban.FromPanicsOnInvalid` | src/iso13616/bban.rs:53-65 | `From` panics iff the uppercased text is invalid; otherwise it returns the uppercased text, which validates; `From("abc44")` is "ABC44" and `From("!")` panics |
| `Bban.NewAcceptsExactlyValid` | src/iso13616/bban.rs:16-39 | `new` succeeds exactly on the texts `is_valid` accepts (for the crate: on ASCII input) |
| `Bban.NewIsIdempotent` | src/iso13616/bban.rs:16-26 | building from a BBAN's own text gives back the same BBAN |
| `Bban.NewValidates` | src/iso13616/bban.rs:16-50 | every value `new` returns validates |
| `Bban.ExampleCodes` | src/iso13616/bban.rs:71-83 | "!" and the 31-character text are invalid; "00", "001", "ABC44", thirty 'a's and "" are valid; `new("abc44")` stores "ABC44" |
| `Errors.Display` | src/error.rs:15-27 | "invalid code", "code not found", the `Other` text verbatim, and a serde error's own message |
| `Errors.Source` | src/error.rs:29-37 | Some exactly for Serialize and Deserialize, holding the wrapped error; None otherwise |
| `Errors.DisplayFollowsSource` | src/error.rs:17-36 | an error with a source displays as its source; the errors without one are InvalidCode, CodeNotFound and Other |
| `Errors.FixedMessagesDiffer` | src/error.rs:18-19 | InvalidCode and CodeNotFound display differently |
| `Revisions.ShortTextsAgree` | src/iso3166.rs:32-34 | below 256 characters the two `CountryCode` drafts accept the same texts |
| `Revisions.CastSeparatesRevisions` | src/code.rs:37 | 258 'Z's pass the `Code<U2>`-based draft and fail the `String`-based one |

## Left out

- Registry loading (`CountryCodes::get` in src/iso3166.rs and src/country_codes.rs, `Codes::get` in src/codes.rs): it reads an embedded JSON file with `serde_json`. The registry is a parameter instead. Facts about the concrete data set ("PN" present, "Kosovo" found) are not modelled.
- `BoundedCode.Code.New`: the model stores the whole text, also when it is longer than the capacity. `arraystring`'s handling of text longer than the capacity is not part of this model. Through `new`, such text arises for texts the `u8` cast lets through, such as 258 bytes for `Code<U2>`. The contracts that keep the text unchanged cover it too. What they give for it is the model's choice, not the crate's. Only for texts of exactly N characters is the text kept unchanged by the crate's code (`BoundedCode.NewKeepsValidText`).
- `BoundedCode.Code.FromStr`: `from_str` and `From` accept any text, so any text longer than N (such as "ABC" for `Code<U2>`) reaches `ArrayString::from`. The model keeps it whole by its own choice; the crate may store something else.
- `BoundedCode.FromStrSkipsValidation`: its first clause (the value validates iff `new` accepts the text) is the model's for text longer than N. If `ArrayString::from` truncated "ABC" to "AB", the crate's value would validate while `new` refuses "ABC".
- `Iso3166.CountryCode.New`: the same holds for the `Code<U2>` inside a country code built from an over-long text. This also applies to `Iso3166.CountryCode.FromStr`, `Iso3166.CountryCode.From`, `Iso3166.NewValidates` and `Iso3166.DeserializePanicsOnInvalid`, which say such a code keeps or writes back the whole text.
- `Iso3166.CountryCodes.Validate`: it looks up an over-long text as the whole-text key, so "AD" followed by 256 'A's is not found even when "AD" is a key. The crate's result for such text depends on what `arraystring` stores.
- `Iso3166.CountryCode.Deserialize`: the same applies; a well-formed over-long text reads back as a code that writes back the whole text.
- `Bban.NewAcceptsExactlyValid`: the equivalence holds of the model, and of the crate only for ASCII input. In the crate `BBAN::new("ß")` succeeds with "SS" while `is_valid("ß")` is false.
- `Bban.Bban.New`: only ASCII letters are uppercased; other characters are kept. Rust's `to_uppercase` maps a few non-ASCII characters to ASCII ('ß' to "SS"). The source accepts such input and the model refuses it. For every other input the result is the same, because a non-ASCII character fails the check either way. This also applies to `Bban.Bban.FromStr`, `Bban.Bban.From` and `Bban.FromPanicsOnInvalid`: in the crate `BBAN::from_str("ß")` is Ok("SS") and `BBAN::from("ß")` returns "SS", while the model gives an error and a panic.
- Order and substring search on code points: `str`'s order and `contains` work on UTF-8 bytes. On valid UTF-8 these agree with code-point order and code-point substring search.
- The `serde` machinery apart from `CountryCode`'s text round trip, and the payload of `serde_json::Error`: only its display text is kept.
- BIC, IBAN, check digits and the ISO 9362 field types (src/iso13616.rs, src/iso13616/iban.rs, src/iso13616/checkdigits.rs, src/iso9362/*.rs, src/iso9326.rs, src/bic.rs): the source declares these types but implements no operation on them.
- Module wiring (src/lib.rs, src/iso9362/mod.rs, src/iso13616/mod.rs) and the `Result` alias of src/result.rs, which becomes `Wrappers.Result`.
