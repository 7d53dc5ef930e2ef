/**
 * Document identities. A MongoDB ObjectId is twelve bytes; the service only
 * ever converts one to its string form (`str(_id)`, twenty-four lower-case
 * hex digits) and back (`ObjectId(s)`, which accepts exactly twenty-four hex
 * digits of either case). Identities themselves are natural numbers.
 */
module ObjectIds {
  import opened Wrappers
  import Text

  type Id = nat

  /** Number of hex digits in the string form of an ObjectId. */
  const HexWidth: nat := 24

  /** 16^24 = 2^96: the number of distinct ObjectIds. */
  const IdSpace: nat := Pow16(HexWidth)

  predicate IsHexChar(c: char) {
    '0' <= c <= '9' || 'a' <= c <= 'f' || 'A' <= c <= 'F'
  }

  function HexDigit(d: nat): (c: char)
    requires d < 16
  {
    if d < 10 then ('0' as int + d) as char else ('a' as int + d - 10) as char
  }

  function HexValue(c: char): (d: nat)
    requires IsHexChar(c)
  {
    if c <= '9' then c as int - '0' as int
    else if c <= 'F' then c as int - 'A' as int + 10
    else c as int - 'a' as int + 10
  }

  function Pow16(k: nat): (p: nat)
    ensures p > 0
  {
    if k == 0 then 1 else 16 * Pow16(k - 1)
  }

  /** The `k` low-order hex digits of `n`, most significant first. */
  function Digits(n: nat, k: nat): (r: string)
    ensures |r| == k
  {
    if k == 0 then [] else Digits(n / 16, k - 1) + [HexDigit(n % 16)]
  }

  predicate AllHex(s: string) {
    forall i :: 0 <= i < |s| ==> IsHexChar(s[i])
  }

  /** The number a string of hex digits denotes. */
  function Value(s: string): nat
    requires AllHex(s)
  {
    if s == [] then 0 else Value(s[..|s| - 1]) * 16 + HexValue(s[|s| - 1])
  }

  /**
   * The quote Python's `repr` puts around a string: a double quote when the
   * string holds a single quote and no double quote, a single quote otherwise.
   */
  function ReprQuote(s: string): char {
    if '\'' in s && '"' !in s then '"' else '\''
  }

  /** `repr` writes the character itself: it is neither the quote, a backslash nor a non-printable Latin-1 character. */
  predicate PrintsAsIs(c: char, quote: char) {
    c != quote && c != '\\' && ' ' <= c && !('\U{7F}' <= c <= '\U{A0}') && c != '\U{AD}'
  }

  /** One character as `repr` writes it between the given quotes. */
  function EscapeChar(c: char, quote: char): (r: string)
    ensures r == [c] <==> PrintsAsIs(c, quote)
    ensures |r| >= 1
  {
    if c == quote || c == '\\' then ['\\', c]
    else if c == '\t' then "\\t"
    else if c == '\n' then "\\n"
    else if c == '\r' then "\\r"
    else if c < ' ' || '\U{7F}' <= c <= '\U{A0}' || c == '\U{AD}' then
      ['\\', 'x', HexDigit(c as int / 16), HexDigit(c as int % 16)]
    else [c]
  }

  function Escape(s: string, quote: char): (r: string)
    ensures |r| >= |s|
    ensures (forall i :: 0 <= i < |s| ==> PrintsAsIs(s[i], quote)) ==> r == s
  {
    if s == [] then [] else EscapeChar(s[0], quote) + Escape(s[1..], quote)
  }

  /**
   * Python's `repr` of a string, as the `%r` of bson's `InvalidId` message
   * writes it: quoted, with the quote, backslashes and control characters
   * escaped; text it need not escape appears unchanged between the quotes.
   */
  function Repr(s: string): (r: string)
    ensures |r| >= |s| + 2 && r[0] == ReprQuote(s) && r[|r| - 1] == ReprQuote(s)
    ensures (forall i :: 0 <= i < |s| ==> PrintsAsIs(s[i], ReprQuote(s))) ==> r == [ReprQuote(s)] + s + [ReprQuote(s)]
  {
    [ReprQuote(s)] + Escape(s, ReprQuote(s)) + [ReprQuote(s)]
  }

  /** `repr` picks double quotes only for text holding a single quote and no double quote. */
  lemma ReprPicksQuotes()
    ensures Repr("abc") == "'abc'"
    ensures Repr("it's") == "\"it's\""
  {
    var plain, quoted := "abc", "it's";
    assert ReprQuote(plain) == '\'' by { assert '\'' !in plain; }
    assert ReprQuote(quoted) == '"' by { assert quoted[2] == '\''; assert '"' !in quoted; }
    assert [ReprQuote(plain)] + plain + [ReprQuote(plain)] == "'abc'";
    assert [ReprQuote(quoted)] + quoted + [ReprQuote(quoted)] == "\"it's\"";
  }

  /** `str(ObjectId)`. */
  function Format(id: Id): string {
    Digits(id, HexWidth)
  }

  /** `ObjectId(s)` for a string `s`: `None` where bson raises `InvalidId`. */
  function Parse(s: string): Option<Id> {
    if |s| == HexWidth && AllHex(s) then Some(Value(s)) else None
  }

  lemma HexDigitValue(d: nat)
    requires d < 16
    ensures IsHexChar(HexDigit(d)) && HexValue(HexDigit(d)) == d
  {
  }

  lemma HexValueDigit(c: char)
    requires IsHexChar(c)
    ensures HexValue(c) < 16 && HexDigit(HexValue(c)) == Text.LowerChar(c)
  {
  }

  lemma {:induction false} DigitsValue(n: nat, k: nat)
    requires n < Pow16(k)
    ensures AllHex(Digits(n, k)) && Value(Digits(n, k)) == n
  {
    if k > 0 {
      var init := Digits(n / 16, k - 1);
      DigitsValue(n / 16, k - 1);
      HexDigitValue(n % 16);
      var d := Digits(n, k);
      assert d == init + [HexDigit(n % 16)];
      assert d[..|d| - 1] == init;
    }
  }

  lemma {:induction false} ValueDigits(s: string)
    requires AllHex(s)
    ensures Value(s) < Pow16(|s|)
    ensures Digits(Value(s), |s|) == Text.Lower(s)
  {
    if s != [] {
      var init := s[..|s| - 1];
      var c := s[|s| - 1];
      ValueDigits(init);
      HexValueDigit(c);
      var v := Value(s);
      assert v / 16 == Value(init) && v % 16 == HexValue(c);
      assert Text.Lower(s) == Text.Lower(init) + [Text.LowerChar(c)];
    }
  }

  /** Formatting an ObjectId and parsing the string gives the ObjectId back. */
  lemma ParseFormat(id: Id)
    requires id < IdSpace
    ensures Parse(Format(id)) == Some(id)
  {
    DigitsValue(id, HexWidth);
  }

  /**
   * Every string `ObjectId(...)` accepts denotes an ObjectId whose string
   * form is the same digits in lower case.
   */
  lemma FormatParse(s: string)
    requires Parse(s).Some?
    ensures Parse(s).value < IdSpace
    ensures Format(Parse(s).value) == Text.Lower(s)
  {
    ValueDigits(s);
  }
}
