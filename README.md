# Validating constructors of `bandp_rust_test`, modelled in Dafny

This crate holds three small validating constructors. Each one maps raw values
either to a validated value or to a typed error, and does nothing else. The
model gives each one as a Dafny function returning `Result`. Its contract
states when each error is returned, which guard takes priority, and what the
validated value holds.

- `Input::new` (Superman's chicken rescue) checks five things in a fixed order:
  the chicken count matches the number of positions; the count is in
  [1, 1 000 000]; the roof length is in [1, 1 000 000]; every position is in
  [1, 1 000 000 000]; the positions are pairwise distinct. It returns the
  first failure. Otherwise it stores its three arguments unchanged.
  The uniqueness test in the source compares `iter().unique().count()` with
  `len()`. The model keeps that test, using a model of `itertools::unique`
  (module `IterUnique`). It proves the test means "no two indices hold equal
  positions".
- `LimitedInputRange<MIN, MAX>::try_from` accepts a `usize` iff
  `MIN <= v <= MAX`. `UnderRange` takes priority over `OverRange`. `deref`
  gives the value back unchanged. The const generics are ordinary parameters
  `min` and `max`.
- `Symbol::try_from(&str)` first checks the byte length is 3, then checks every
  character is alphabetic, then stores the ASCII-uppercased text.
  `Price::try_from(u64)` refuses 0.

Files: `primitives.dfy` (Rust integer widths, `Result`), `iter_unique.dfy`,
`limited_input_range.dfy`, `supermans_chicken_rescue.dfy`,
`broadcast_transaction.dfy`.

Integer widths: `usize` is 64 bits, `u32` and `u64` are subset types of `int`
with their ranges. None of the modelled code does arithmetic that could wrap.

Facts about the code that the model follows:
- `Input::new` does its own range checks and does not use `LimitedInputRange`.
- The count-match check runs first, before every range check.
- `ChickenPositionLengthOutOfRange` is declared but nothing builds it.
- `max_chicken_protected` is `todo!()`.
- The rustdoc of `IntoSymbolError::InvalidCharacter` says "English alphabet
  characters only". The check in `Symbol::try_from` is the Unicode
  `is_alphabetic`, however, so it also accepts non-English letters. For
  example, "éa" is 3 bytes long and becomes the symbol "éA"
  (`NonEnglishLetterAccepted`). The model follows the code.

## Model

| member | source | states |
|---|---|---|
| `IterUnique.Unique` | src/supermans_chicken_rescue.rs:62-63 | the elements `unique()` yields are exactly the elements of the input, none twice, and there are no more of them than input elements |
| `IterUnique.UniqueLengthIffDistinct` | src/supermans_chicken_rescue.rs:62-63 | `unique().count() == len()` holds iff no two indices hold equal values |
| `SupermansChickenRescue.New` | src/supermans_chicken_rescue.rs:25-74 | a count that differs from the length gives `ChickenNumNotMatch`, whatever the other fields are; then a count outside [1, 1 000 000] gives `ChickenNumOutOfRange`, even with a bad roof length; then a roof length outside [1, 1 000 000] gives `RoofLengthOutOfRange`; then any position outside [1, 1 000 000 000] gives `ChickenPositionOutOfRange`, before uniqueness is looked at; then `ChickenPositionNotUnique` is returned iff two indices hold equal positions. `Ok` is returned iff all five conditions hold, and it holds exactly the three arguments, positions in their original order. A successful input has at least one position. `ChickenPositionLengthOutOfRange` is never returned |
| `SupermansChickenRescue.NewAcceptsValid` | src/supermans_chicken_rescue.rs:18-22 | every input meeting the five conditions is what `Input::new` builds from its own fields |
| `SupermansChickenRescue.CountOutOfRangeBeforeRoof` | src/supermans_chicken_rescue.rs:92-98 | 1 000 001 positions with a matching count and roof length 0 give `ChickenNumOutOfRange`, not `RoofLengthOutOfRange` |
| `SupermansChickenRescue.UnitTests` | src/supermans_chicken_rescue.rs:86-128 | the unit tests' inputs give `ChickenNumNotMatch`, `RoofLengthOutOfRange`, `ChickenPositionOutOfRange` and `ChickenPositionNotUnique` |
| `LimitedRange.Deref` | src/limited_input_range.rs:29-31 | gives the wrapped value unchanged: wrapping the result again rebuilds the same value |
| `LimitedRange.TryFrom` | src/limited_input_range.rs:15-22 | succeeds iff `min <= v <= max`; `v < min` gives `UnderRange`, even when also `v > max`; `min <= v` and `v > max` give `OverRange`; a success keeps the invariant `min <= value <= max`, and dereferencing it gives `v` back |
| `LimitedRange.EmptyRangeRejectsAll` | src/limited_input_range.rs:17-19 | when `min > max`, no value is accepted |
| `LimitedRange.TryFromDeref` | src/limited_input_range.rs:15-31 | rebuilding from the dereferenced value of a wrapper that keeps the invariant gives the same wrapper |
| `BroadcastTransaction.Utf8Width` | src/http_request/broadcast_transaction.rs:33 | a character takes 1 to 4 bytes in UTF-8, and exactly 1 iff it is ASCII |
| `BroadcastTransaction.Utf8Len` | src/http_request/broadcast_transaction.rs:33 | the byte length of a string is between its character count and four times that |
| `BroadcastTransaction.UpperChar` | src/http_request/broadcast_transaction.rs:39 | the result is never an ASCII lowercase letter; a lowercase letter becomes the uppercase letter 32 code points below it; every other character is kept |
| `BroadcastTransaction.ToAsciiUppercase` | src/http_request/broadcast_transaction.rs:39 | the result has the same length and upper-cases each character in its place |
| `BroadcastTransaction.UppercaseIdempotent` | src/http_request/broadcast_transaction.rs:39 | upper-cased text has no ASCII lowercase letter, and upper-casing it again changes nothing |
| `BroadcastTransaction.UppercaseKeepsUtf8Len` | src/http_request/broadcast_transaction.rs:33-39 | upper-casing keeps the UTF-8 byte length |
| `BroadcastTransaction.SymbolTryFrom` | src/http_request/broadcast_transaction.rs:31-41 | a byte length other than 3 gives `InvalidLength`, whatever the characters are; a length-3 text with a non-alphabetic character gives `InvalidCharacter`; success happens iff the length is 3 and every character is alphabetic; the stored symbol is the upper-cased input, has byte length 3 and no ASCII lowercase letter |
| `BroadcastTransaction.SymbolTryFromValid` | src/http_request/broadcast_transaction.rs:11-41 | every symbol built is 3 bytes long, alphabetic throughout and free of ASCII lowercase letters |
| `BroadcastTransaction.SymbolCaseInsensitive` | src/http_request/broadcast_transaction.rs:11-41 | validating the upper-cased text gives the same result as validating the text: the same error, or an equal symbol |
| `BroadcastTransaction.NonEnglishLetterAccepted` | src/http_request/broadcast_transaction.rs:22-39 | if 'é' is alphabetic, "éa" (two characters, three bytes) is accepted as the symbol "éA", despite the rustdoc's "English alphabet characters only" |
| `BroadcastTransaction.SymbolUnitTests` | src/http_request/broadcast_transaction.rs:191-206 | "A" and "AAAA" give `InvalidLength`; "555" gives `InvalidCharacter` |
| `BroadcastTransaction.EtcAccepted` | src/http_request/broadcast_transaction.rs:160-166 | "ETC" is accepted and stored as "ETC" |
| `BroadcastTransaction.PriceTryFrom` | src/http_request/broadcast_transaction.rs:64-73 | fails iff the value is 0, with the message "Price cannot be 0."; otherwise it wraps exactly the value, which is therefore non-zero |

## Left out

- `max_chicken_protected` (src/supermans_chicken_rescue.rs:77-79): it takes no arguments and its body is `todo!()`, so there is no coverage algorithm to model.
- `check_boss_behavior` (src/boss_babys_revenge.rs): its body is `todo!()`.
- `broadcast` and `monitor`: asynchronous HTTP requests and JSON parsing, i.e. network I/O.
- `TimeStamp`: it reads the system clock.
- The `Debug` and `serde::Serialize` impls: formatting and serialisation done by foreign libraries.
- `src/main.rs`: an async entry point with demo calls.
- BroadcastTransaction.SymbolTryFrom: `char::is_alphabetic` uses the Unicode Alphabetic property table, which is not modelled. The classification is a parameter `alphabetic`. The lemmas that need it assume only that, on ASCII, it holds exactly for the letters, as the Unicode table does.
- Text is a sequence of Unicode scalar values. `str::len` is modelled as the UTF-8 byte count of that sequence. Rust's actual byte buffer is not modelled.
