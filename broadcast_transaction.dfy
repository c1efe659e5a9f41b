/**
 * The two validating constructors of the transaction broadcaster's fields:
 * `Symbol::try_from(&str)` and `Price::try_from(u64)`.
 *
 * A Rust `&str` is modelled as its sequence of Unicode scalar values; its
 * `len()` is the number of bytes of its UTF-8 encoding (`Utf8Len`).
 * `char::is_alphabetic` consults the Unicode Alphabetic property, whose
 * table is not part of this model: the validator takes the classification
 * as a parameter `alphabetic`, and the lemmas that need it assume only that
 * it agrees with the ASCII letters on ASCII characters, as Unicode does.
 */
module BroadcastTransaction {
  import opened Primitives

  /** Length, in bytes, of a valid symbol. */
  const SYMBOL_LENGTH: usize := 3

  /** The error `Price::try_from` returns for 0. */
  const PRICE_ZERO_MESSAGE: string := "Price cannot be 0."

  datatype IntoSymbolError = InvalidLength | InvalidCharacter

  /** A transaction symbol such as "BTC"; equality is derived, on the stored text. */
  datatype Symbol = Symbol(code: string)

  /** A transaction price; never 0 when built by `PriceTryFrom`. */
  datatype Price = Price(amount: u64)

  // ---------- UTF-8 length ----------

  /** Number of bytes UTF-8 uses for one scalar value. */
  function Utf8Width(c: char): (n: nat)
    ensures 1 <= n <= 4
    ensures n == 1 <==> c as int < 0x80
  {
    if c as int < 0x80 then 1
    else if c as int < 0x800 then 2
    else if c as int < 0x1_0000 then 3
    else 4
  }

  /** `str::len`: the byte length of the UTF-8 encoding. */
  function Utf8Len(s: string): (n: nat)
    ensures |s| <= n <= 4 * |s|
  {
    if s == [] then 0 else Utf8Width(s[0]) + Utf8Len(s[1..])
  }

  // ---------- ASCII case ----------

  predicate IsAsciiLowercase(c: char) { 'a' <= c <= 'z' }

  predicate IsAsciiUppercase(c: char) { 'A' <= c <= 'Z' }

  predicate IsAsciiAlphabetic(c: char) { IsAsciiLowercase(c) || IsAsciiUppercase(c) }

  /** `char::to_ascii_uppercase`: 'a'..'z' become 'A'..'Z', all else is kept. */
  function UpperChar(c: char): (u: char)
    ensures !IsAsciiLowercase(u)
    ensures IsAsciiLowercase(c) ==> IsAsciiUppercase(u) && u as int + 32 == c as int
    ensures !IsAsciiLowercase(c) ==> u == c
  {
    if IsAsciiLowercase(c) then (c as int - 32) as char else c
  }

  /**
   * `str::to_ascii_uppercase`. Working on bytes or on scalar values gives the
   * same text, since the bytes of a non-ASCII scalar value are all >= 0x80.
   */
  function ToAsciiUppercase(s: string): (u: string)
    ensures |u| == |s|
    ensures forall i :: 0 <= i < |s| ==> u[i] == UpperChar(s[i])
  {
    if s == [] then [] else [UpperChar(s[0])] + ToAsciiUppercase(s[1..])
  }

  /** Upper-casing yields no ASCII lowercase letter, and doing it twice changes nothing. */
  lemma UppercaseIdempotent(s: string)
    ensures forall i :: 0 <= i < |ToAsciiUppercase(s)| ==> !IsAsciiLowercase(ToAsciiUppercase(s)[i])
    ensures ToAsciiUppercase(ToAsciiUppercase(s)) == ToAsciiUppercase(s)
  {
  }

  /** Upper-casing keeps the UTF-8 byte length. */
  lemma {:induction false} UppercaseKeepsUtf8Len(s: string)
    ensures Utf8Len(ToAsciiUppercase(s)) == Utf8Len(s)
  {
    if s != [] {
      UppercaseKeepsUtf8Len(s[1..]);
      var u := ToAsciiUppercase(s);
      assert u[0] == UpperChar(s[0]) && u[1..] == ToAsciiUppercase(s[1..]);
      assert Utf8Width(u[0]) == Utf8Width(s[0]);
    }
  }

  // ---------- Symbol ----------

  /** The assumption the lemmas make of `alphabetic`: on ASCII it means "an ASCII letter". */
  predicate AgreesOnAscii(alphabetic: char -> bool) {
    forall c: char :: c as int < 0x80 ==> (alphabetic(c) <==> IsAsciiAlphabetic(c))
  }

  /** What every `Symbol` built by `SymbolTryFrom` satisfies. */
  predicate ValidSymbol(alphabetic: char -> bool, sym: Symbol) {
    && Utf8Len(sym.code) == SYMBOL_LENGTH
    && (forall i :: 0 <= i < |sym.code| ==> alphabetic(sym.code[i]))
    && (forall i :: 0 <= i < |sym.code| ==> !IsAsciiLowercase(sym.code[i]))
  }

  /**
   * `Symbol::try_from(&str)`: the byte length must be `SYMBOL_LENGTH`, then
   * every character must be alphabetic; the stored symbol is the input
   * upper-cased (ASCII only).
   */
  function SymbolTryFrom(alphabetic: char -> bool, value: string): (r: Result<Symbol, IntoSymbolError>)
    // the length check comes first, whatever the characters are
    ensures Utf8Len(value) != SYMBOL_LENGTH ==> r == Err(InvalidLength)
    ensures Utf8Len(value) == SYMBOL_LENGTH && (exists i :: 0 <= i < |value| && !alphabetic(value[i])) ==>
              r == Err(InvalidCharacter)
    ensures r.Ok? <==> Utf8Len(value) == SYMBOL_LENGTH && forall i :: 0 <= i < |value| ==> alphabetic(value[i])
    ensures r.Ok? ==> r.value.code == ToAsciiUppercase(value)
    ensures r.Ok? ==> Utf8Len(r.value.code) == SYMBOL_LENGTH
    ensures r.Ok? ==> forall i :: 0 <= i < |r.value.code| ==> !IsAsciiLowercase(r.value.code[i])
  {
    UppercaseKeepsUtf8Len(value);
    if Utf8Len(value) != SYMBOL_LENGTH then Err(InvalidLength)
    else if !(forall c | c in value :: alphabetic(c)) then Err(InvalidCharacter)
    else Ok(Symbol(ToAsciiUppercase(value)))
  }

  /** A symbol built by `SymbolTryFrom` keeps the symbol invariant when ASCII letters are alphabetic. */
  lemma SymbolTryFromValid(alphabetic: char -> bool, value: string)
    requires AgreesOnAscii(alphabetic)
    ensures SymbolTryFrom(alphabetic, value).Ok? ==> ValidSymbol(alphabetic, SymbolTryFrom(alphabetic, value).value)
  {
  }

  /**
   * Case-insensitivity: validating the upper-cased text gives the same
   * outcome, and an equal symbol, as validating the text itself.
   */
  lemma SymbolCaseInsensitive(alphabetic: char -> bool, value: string)
    requires AgreesOnAscii(alphabetic)
    ensures SymbolTryFrom(alphabetic, value) == SymbolTryFrom(alphabetic, ToAsciiUppercase(value))
  {
    var u := ToAsciiUppercase(value);
    UppercaseKeepsUtf8Len(value);
    UppercaseIdempotent(value);
    forall i | 0 <= i < |value| ensures alphabetic(value[i]) <==> alphabetic(u[i]) {
      if IsAsciiLowercase(value[i]) {
        assert IsAsciiAlphabetic(value[i]) && IsAsciiAlphabetic(u[i]);
      }
    }
  }

  /**
   * The rustdoc of `InvalidCharacter` promises English letters only, but
   * `is_alphabetic` also admits other letters: a 3-byte text mixing one with
   * an ASCII lowercase letter is accepted.
   */
  lemma NonEnglishLetterAccepted(alphabetic: char -> bool)
    requires AgreesOnAscii(alphabetic) && alphabetic('é')
    ensures SymbolTryFrom(alphabetic, "éa") == Ok(Symbol("éA"))
  {
    assert alphabetic('a');
    assert Utf8Len("éa") == 3;
    assert ToAsciiUppercase("éa") == "éA";
  }

  /** The lengths the unit tests reject, and "555", made of digits. */
  lemma SymbolUnitTests(alphabetic: char -> bool)
    requires AgreesOnAscii(alphabetic)
    ensures SymbolTryFrom(alphabetic, "A") == Err(InvalidLength)
    ensures SymbolTryFrom(alphabetic, "AAAA") == Err(InvalidLength)
    ensures SymbolTryFrom(alphabetic, "555") == Err(InvalidCharacter)
  {
  }

  /** "ETC", the symbol the crate's own example broadcasts, is accepted as is. */
  lemma EtcAccepted(alphabetic: char -> bool)
    requires AgreesOnAscii(alphabetic)
    ensures SymbolTryFrom(alphabetic, "ETC") == Ok(Symbol("ETC"))
  {
    assert alphabetic('E') && alphabetic('T') && alphabetic('C');
    assert ToAsciiUppercase("ETC") == "ETC";
  }

  // ---------- Price ----------

  /** `Price::try_from(u64)`: 0 is refused, any other value is wrapped unchanged. */
  function PriceTryFrom(value: u64): (r: Result<Price, string>)
    ensures r.Err? <==> value == 0
    ensures r.Err? ==> r.error == PRICE_ZERO_MESSAGE
    ensures r.Ok? ==> r.value == Price(value) && r.value.amount != 0
  {
    if value == 0 then Err(PRICE_ZERO_MESSAGE) else Ok(Price(value))
  }
}
