/** The few pieces of Go's `strings` and `fmt` packages the reviewer relies on,
    over `string` = `seq<char>`: splitting on a separator, prefix tests,
    substring search, and decimal integers (`%d` printing and scanning). */
module Text {

  // ---------------------------------------------------------------------
  // Splitting and joining (strings.Split with a one-character separator)
  // ---------------------------------------------------------------------

  /** The segments of `s` between occurrences of `sep`, like Go's
      `strings.Split(s, string(sep))`: always at least one segment, and a
      trailing separator yields a trailing empty segment. */
  function Split(s: string, sep: char): (parts: seq<string>)
    ensures |parts| >= 1
    ensures forall i | 0 <= i < |parts| :: sep !in parts[i]
    ensures Join(parts, sep) == s
    decreases |s|
  {
    if |s| == 0 then [""]
    else
      var rest := Split(s[1..], sep);
      if s[0] == sep then
        [""] + rest
      else
        assert rest == [rest[0]] + rest[1..];
        [[s[0]] + rest[0]] + rest[1..]
  }

  /** The segments glued back together with `sep` between neighbours. */
  function Join(parts: seq<string>, sep: char): string
    requires |parts| >= 1
    decreases |parts|
  {
    if |parts| == 1 then parts[0] else parts[0] + [sep] + Join(parts[1..], sep)
  }

  /** A string without the separator is a single segment. */
  lemma {:induction false} SplitNoSep(s: string, sep: char)
    requires sep !in s
    ensures Split(s, sep) == [s]
    decreases |s|
  {
    if |s| > 0 {
      SplitNoSep(s[1..], sep);
      assert [s[0]] + s[1..] == s;
    }
  }

  /** Splitting distributes over one separator occurrence. */
  lemma {:induction false} SplitConcat(a: string, b: string, sep: char)
    ensures Split(a + [sep] + b, sep) == Split(a, sep) + Split(b, sep)
    decreases |a|
  {
    if |a| == 0 {
      assert a + [sep] + b == [sep] + b;
      assert ([sep] + b)[1..] == b;
    } else {
      var s := a + [sep] + b;
      assert s[0] == a[0];
      assert s[1..] == a[1..] + [sep] + b;
      SplitConcat(a[1..], b, sep);
    }
  }

  /** A trailing separator contributes exactly one empty trailing segment. */
  lemma SplitTrailingSep(s: string, sep: char)
    ensures Split(s + [sep], sep) == Split(s, sep) + [""]
  {
    SplitConcat(s, "", sep);
    assert s + [sep] + "" == s + [sep];
  }

  /** Round trip the other way: segments free of the separator are recovered
      exactly from their join. */
  lemma {:induction false} SplitJoin(parts: seq<string>, sep: char)
    requires |parts| >= 1
    requires forall i | 0 <= i < |parts| :: sep !in parts[i]
    ensures Split(Join(parts, sep), sep) == parts
    decreases |parts|
  {
    if |parts| == 1 {
      SplitNoSep(parts[0], sep);
    } else {
      SplitJoin(parts[1..], sep);
      SplitConcat(parts[0], Join(parts[1..], sep), sep);
      SplitNoSep(parts[0], sep);
      assert [parts[0]] + parts[1..] == parts;
    }
  }

  // ---------------------------------------------------------------------
  // Prefixes and substrings
  // ---------------------------------------------------------------------

  /** Go's `strings.HasPrefix`. */
  predicate HasPrefix(s: string, prefix: string) {
    |prefix| <= |s| && s[..|prefix|] == prefix
  }

  /** Go's `strings.TrimPrefix`: drops `prefix` once when present. */
  function TrimPrefix(s: string, prefix: string): (r: string)
    ensures HasPrefix(s, prefix) ==> prefix + r == s
    ensures !HasPrefix(s, prefix) ==> r == s
  {
    if HasPrefix(s, prefix) then s[|prefix|..] else s
  }

  /** Go's `strings.Contains`, as a scan over start positions. */
  predicate Contains(s: string, sub: string)
    decreases |s|
  {
    HasPrefix(s, sub) || (|s| > 0 && Contains(s[1..], sub))
  }

  /** `sub` occurs in `s` starting at position `i`. */
  predicate OccursAt(s: string, sub: string, i: int) {
    0 <= i && i + |sub| <= |s| && s[i..i + |sub|] == sub
  }

  /** The scan agrees with the positional definition of an occurrence. */
  lemma {:induction false} ContainsIffOccurs(s: string, sub: string)
    ensures Contains(s, sub) <==> exists i :: OccursAt(s, sub, i)
    decreases |s|
  {
    if HasPrefix(s, sub) {
      assert OccursAt(s, sub, 0);
    } else if |s| == 0 {
    } else {
      ContainsIffOccurs(s[1..], sub);
      if Contains(s[1..], sub) {
        var i :| OccursAt(s[1..], sub, i);
        assert OccursAt(s, sub, i + 1);
      }
      if exists i :: OccursAt(s, sub, i) {
        var i :| OccursAt(s, sub, i);
        assert i != 0;
        assert OccursAt(s[1..], sub, i - 1);
      }
    }
  }

  /** Whatever surrounds it, an embedded string is found. */
  lemma ContainsInfix(a: string, sub: string, b: string)
    ensures Contains(a + sub + b, sub)
  {
    var s := a + sub + b;
    assert OccursAt(s, sub, |a|);
    ContainsIffOccurs(s, sub);
  }

  // ---------------------------------------------------------------------
  // Decimal integers: `fmt.Sprintf("%d")` and `fmt.Sscanf("%d")`
  // ---------------------------------------------------------------------

  predicate IsDigit(ch: char) {
    '0' <= ch <= '9'
  }

  predicate AllDigits(s: string) {
    forall i | 0 <= i < |s| :: IsDigit(s[i])
  }

  function DigitValue(ch: char): nat
    requires IsDigit(ch)
  {
    (ch as int) - ('0' as int)
  }

  function DigitChar(d: nat): (ch: char)
    requires d < 10
    ensures IsDigit(ch) && DigitValue(ch) == d
  {
    (('0' as int) + d) as char
  }

  /** The value of a run of decimal digits, most significant first. */
  function DecimalValue(digits: string): nat
    requires AllDigits(digits)
    decreases |digits|
  {
    if |digits| == 0 then 0
    else 10 * DecimalValue(digits[..|digits| - 1]) + DigitValue(digits[|digits| - 1])
  }

  /** `%d` of a natural number: its shortest decimal spelling. */
  function ShowNat(n: nat): (s: string)
    ensures |s| >= 1 && AllDigits(s)
    decreases n
  {
    if n < 10 then [DigitChar(n)] else ShowNat(n / 10) + [DigitChar(n % 10)]
  }

  /** `%d` of any integer: a minus sign before negative values. */
  function ShowInt(n: int): (s: string)
    ensures |s| >= 1
    ensures forall i | 0 <= i < |s| :: IsDigit(s[i]) || s[i] == '-'
  {
    if n < 0 then "-" + ShowNat(-n) else ShowNat(n)
  }

  /** The longest run of digits at the front of `s`. */
  function LeadingDigits(s: string): (d: string)
    ensures |d| <= |s| && d == s[..|d|] && AllDigits(d)
    ensures |d| < |s| ==> !IsDigit(s[|d|])
    decreases |s|
  {
    if |s| > 0 && IsDigit(s[0]) then [s[0]] + LeadingDigits(s[1..]) else ""
  }

  /** `fmt.Sscanf(s, "%d", &v)` with `v` starting at 0: an optional sign and
      the leading digits; when no digit follows, the scan fails and `v`
      keeps 0. */
  function ScanInt(s: string): (v: int)
    ensures |s| == 0 ==> v == 0
    ensures |s| > 0 && !IsDigit(s[0]) && s[0] != '+' && s[0] != '-' ==> v == 0
  {
    if |s| > 0 && s[0] == '-' then -(DecimalValue(LeadingDigits(s[1..])) as int)
    else if |s| > 0 && s[0] == '+' then DecimalValue(LeadingDigits(s[1..]))
    else DecimalValue(LeadingDigits(s))
  }

  /** After at most one leading sign, no digit follows: `%d` finds no
      number at the start of `s`. */
  predicate NoLeadingNumber(s: string) {
    var body := if |s| > 0 && (s[0] == '+' || s[0] == '-') then s[1..] else s;
    |body| == 0 || !IsDigit(body[0])
  }

  /** A failed scan leaves the value at 0. */
  lemma ScanIntNoNumber(s: string)
    requires NoLeadingNumber(s)
    ensures ScanInt(s) == 0
  {
  }

  lemma {:induction false} DecimalValueShowNat(n: nat)
    ensures DecimalValue(ShowNat(n)) == n
    decreases n
  {
    if n >= 10 {
      var s := ShowNat(n);
      assert s[..|s| - 1] == ShowNat(n / 10);
      DecimalValueShowNat(n / 10);
    }
  }

  /** A digit run followed by a non-digit is exactly the leading run. */
  lemma {:induction false} LeadingDigitsOf(d: string, rest: string)
    requires AllDigits(d)
    requires |rest| == 0 || !IsDigit(rest[0])
    ensures LeadingDigits(d + rest) == d
    decreases |d|
  {
    if |d| == 0 {
      assert d + rest == rest;
    } else {
      assert (d + rest)[1..] == d[1..] + rest;
      LeadingDigitsOf(d[1..], rest);
      assert [d[0]] + d[1..] == d;
    }
  }

  /** Scanning reads back what printing wrote, whatever non-digit text follows. */
  lemma ScanShowInt(n: int, rest: string)
    requires |rest| == 0 || !IsDigit(rest[0])
    ensures ScanInt(ShowInt(n) + rest) == n
  {
    if n < 0 {
      var s := ShowInt(n) + rest;
      assert s[0] == '-';
      assert s[1..] == ShowNat(-n) + rest;
      LeadingDigitsOf(ShowNat(-n), rest);
      DecimalValueShowNat(-n);
    } else {
      var s := ShowNat(n) + rest;
      assert IsDigit(s[0]);
      LeadingDigitsOf(ShowNat(n), rest);
      DecimalValueShowNat(n);
    }
  }
}
