/** The parts of PHP's value semantics that the handlers rely on: JSON scalars as the
    handlers read them, `trim()`, `empty()`, the null-coalescing chain `a ?? b ?? c`,
    and decimal digit strings. */
module Php {

  datatype Option<+T> = None | Some(value: T)

  /** One decoded JSON value as a handler sees it: `null`, or a scalar carrying its
      string reading (what `trim` and string interpolation use) and its integer
      reading (what `intval` yields). */
  datatype Cell = Null | Scalar(text: string, number: int)

  /** A decoded JSON object (a request body, a spreadsheet row, a token's claims). */
  type Row = map<string, Cell>

  /** `isset($row[$key])`: the key is present and its value is not null. */
  predicate IsSet(row: Row, key: string) {
    key in row && row[key] != Null
  }

  /** PHP's `empty()` (and `!`) on a string: the empty string and "0". */
  predicate Empty(s: string) {
    s == "" || s == "0"
  }

  // ---------------------------------------------------------------- trim()

  /** The characters `trim()` strips by default: space, tab, LF, CR, NUL, vertical tab. */
  predicate IsTrimChar(c: char) {
    c == ' ' || c == '\t' || c == '\n' || c == '\r' || c as int == 0 || c as int == 11
  }

  function TrimStart(s: string): (r: string)
    ensures |r| <= |s|
  {
    if s != [] && IsTrimChar(s[0]) then TrimStart(s[1..]) else s
  }

  /** `ltrim` drops a prefix made of trim characters and stops at the first other one. */
  lemma {:induction false} TrimStartSpec(s: string)
    ensures TrimStart(s) == s[|s| - |TrimStart(s)|..]
    ensures TrimStart(s) != [] ==> !IsTrimChar(TrimStart(s)[0])
    ensures forall i :: 0 <= i < |s| - |TrimStart(s)| ==> IsTrimChar(s[i])
  {
    if s != [] && IsTrimChar(s[0]) {
      TrimStartSpec(s[1..]);
      forall i | 1 <= i < |s| - |TrimStart(s)| ensures IsTrimChar(s[i]) {
        assert s[i] == s[1..][i - 1];
      }
    }
  }

  function TrimEnd(s: string): (r: string)
    ensures |r| <= |s|
  {
    if s != [] && IsTrimChar(s[|s| - 1]) then TrimEnd(s[..|s| - 1]) else s
  }

  /** `rtrim` drops a suffix made of trim characters and stops at the last other one. */
  lemma {:induction false} TrimEndSpec(s: string)
    ensures TrimEnd(s) == s[..|TrimEnd(s)|]
    ensures TrimEnd(s) != [] ==> !IsTrimChar(TrimEnd(s)[|TrimEnd(s)| - 1])
    ensures forall i :: |TrimEnd(s)| <= i < |s| ==> IsTrimChar(s[i])
  {
    if s != [] && IsTrimChar(s[|s| - 1]) {
      TrimEndSpec(s[..|s| - 1]);
    }
  }

  /** `trim($s)`. */
  function Trim(s: string): (r: string)
    ensures |r| <= |s|
  {
    TrimEnd(TrimStart(s))
  }

  /** What `trim` keeps: an infix of `s` that neither starts nor ends with a trim
      character, obtained by dropping only trim characters on both sides. */
  lemma TrimSpec(s: string)
    ensures LeadingTrim(s) + |Trim(s)| <= |s|
    ensures Trim(s) != [] ==> !IsTrimChar(Trim(s)[0]) && !IsTrimChar(Trim(s)[|Trim(s)| - 1])
    ensures Trim(s) == s[LeadingTrim(s)..LeadingTrim(s) + |Trim(s)|]
    ensures forall i :: 0 <= i < LeadingTrim(s) ==> IsTrimChar(s[i])
    ensures forall i :: LeadingTrim(s) + |Trim(s)| <= i < |s| ==> IsTrimChar(s[i])
  {
    TrimStartSpec(s);
    TrimEndSpec(TrimStart(s));
  }

  /** How many characters `trim` drops at the front of `s`. */
  function LeadingTrim(s: string): (n: nat)
    ensures n <= |s|
  {
    |s| - |TrimStart(s)|
  }

  lemma TrimIdempotent(s: string)
    ensures Trim(Trim(s)) == Trim(s)
  {
    var r := Trim(s);
    TrimSpec(s);
    if r != [] {
      assert TrimStart(r) == r;
      assert TrimEnd(r) == r;
    }
  }

  /** A string made only of trim characters trims to "" (so it is `empty`). */
  lemma {:induction false} BlankTrimsToEmpty(s: string)
    requires forall i :: 0 <= i < |s| ==> IsTrimChar(s[i])
    ensures Trim(s) == ""
  {
    if s != [] {
      BlankTrimsToEmpty(s[1..]);
      assert TrimStart(s) == TrimStart(s[1..]);
    }
  }

  // ---------------------------------------------------------------- a ?? b ?? c

  /** The position of the first key in `keys` that is set in `row`, or `|keys|`. */
  function FirstSet(row: Row, keys: seq<string>): (i: nat)
    ensures i <= |keys|
    ensures i < |keys| ==> IsSet(row, keys[i])
  {
    if keys == [] then 0
    else if IsSet(row, keys[0]) then 0
    else 1 + FirstSet(row, keys[1..])
  }

  lemma {:induction false} FirstSetSpec(row: Row, keys: seq<string>)
    ensures forall j :: 0 <= j < FirstSet(row, keys) ==> !IsSet(row, keys[j])
  {
    if keys != [] && !IsSet(row, keys[0]) {
      FirstSetSpec(row, keys[1..]);
      forall j | 1 <= j < FirstSet(row, keys) ensures !IsSet(row, keys[j]) {
        assert keys[j] == keys[1..][j - 1];
      }
    }
  }

  /** `$row[k1] ?? $row[k2] ?? ...`: the value of the first key that is present and
      not null, even when that value is an empty or blank string. */
  function Coalesce(row: Row, keys: seq<string>): Option<Cell> {
    var i := FirstSet(row, keys);
    if i < |keys| then Some(row[keys[i]]) else None
  }

  /** `??` yields nothing only when no key is set, and never yields null. */
  lemma CoalesceSpec(row: Row, keys: seq<string>)
    ensures Coalesce(row, keys).None? <==> forall k :: k in keys ==> !IsSet(row, k)
    ensures Coalesce(row, keys).Some? ==> Coalesce(row, keys).value != Null
  {
    FirstSetSpec(row, keys);
  }

  /** The string reading of a coalesced value, with `?? ''` as the default. */
  function CellText(c: Option<Cell>): string {
    match c
    case Some(Scalar(t, _)) => t
    case _ => ""
  }

  /** `intval` of a coalesced value, with `?? 0` as the default. */
  function CellNumber(c: Option<Cell>): int {
    match c
    case Some(Scalar(_, n)) => n
    case _ => 0
  }

  /** `trim($row[k1] ?? $row[k2] ?? ... ?? '')`. */
  function FieldText(row: Row, keys: seq<string>): string {
    Trim(CellText(Coalesce(row, keys)))
  }

  /** The first set key decides the field, whatever the later keys hold: a present but
      blank `Name` shadows a non-empty `name`. */
  lemma FirstSetKeyDecides(row: Row, keys: seq<string>, i: nat)
    requires i < |keys| && IsSet(row, keys[i])
    requires forall j :: 0 <= j < i ==> !IsSet(row, keys[j])
    ensures FieldText(row, keys) == Trim(row[keys[i]].text)
    ensures CellNumber(Coalesce(row, keys)) == row[keys[i]].number
  {
    FirstSetSpec(row, keys);
    assert FirstSet(row, keys) == i;
  }

  // ---------------------------------------------------------------- digits

  predicate IsDigit(c: char) {
    '0' <= c <= '9'
  }

  predicate AllDigits(s: string) {
    forall i :: 0 <= i < |s| ==> IsDigit(s[i])
  }

  function DigitChar(d: nat): (c: char)
    requires d < 10
    ensures IsDigit(c)
  {
    ('0' as int + d) as char
  }

  function DigitValue(c: char): (d: nat)
    requires IsDigit(c)
    ensures d < 10 && DigitChar(d) == c
  {
    (c as int - '0' as int) as nat
  }

  /** The number a string of decimal digits denotes. */
  function DigitsValue(s: string): nat
    requires AllDigits(s)
  {
    if s == [] then 0 else DigitsValue(s[..|s| - 1]) * 10 + DigitValue(s[|s| - 1])
  }

  function Pow10(w: nat): (p: nat)
    ensures p >= 1
  {
    if w == 0 then 1 else 10 * Pow10(w - 1)
  }

  /** `n` written with exactly `width` digits, zero-padded (PHP's "%0{width}d" for a
      value that fits). */
  function FixedDigits(n: nat, width: nat): (s: string)
    ensures |s| == width && AllDigits(s)
  {
    if width == 0 then "" else FixedDigits(n / 10, width - 1) + [DigitChar(n % 10)]
  }

  /** Reading back a zero-padded number gives the number. */
  lemma {:induction false} FixedDigitsRoundTrip(n: nat, width: nat)
    requires n < Pow10(width)
    ensures DigitsValue(FixedDigits(n, width)) == n
  {
    if width > 0 {
      var s := FixedDigits(n, width);
      assert s[..|s| - 1] == FixedDigits(n / 10, width - 1);
      FixedDigitsRoundTrip(n / 10, width - 1);
    }
  }

  /** Writing back a digit string at its own width gives the string. */
  lemma {:induction false} DigitsRoundTrip(s: string)
    requires AllDigits(s)
    ensures DigitsValue(s) < Pow10(|s|)
    ensures FixedDigits(DigitsValue(s), |s|) == s
  {
    if s != [] {
      var init := s[..|s| - 1];
      DigitsRoundTrip(init);
      var v := DigitsValue(s);
      assert v / 10 == DigitsValue(init) && v % 10 == DigitValue(s[|s| - 1]);
      assert s == init + [s[|s| - 1]];
    }
  }

  /** Decimal form of a natural number, as PHP prints an int. */
  function NatToString(n: nat): (s: string)
    ensures s != [] && AllDigits(s)
  {
    if n < 10 then [DigitChar(n)] else NatToString(n / 10) + [DigitChar(n % 10)]
  }

  lemma {:induction false} NatToStringRoundTrip(n: nat)
    ensures DigitsValue(NatToString(n)) == n
  {
    if n >= 10 {
      var s := NatToString(n);
      assert s[..|s| - 1] == NatToString(n / 10);
      NatToStringRoundTrip(n / 10);
    }
  }

  /** Decimal form of an integer, as PHP prints an int. */
  function IntToString(i: int): string {
    if i < 0 then "-" + NatToString(-i) else NatToString(i)
  }
}
