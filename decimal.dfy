/**
 * Base-10 rendering and parsing of unsigned integers, as `strconv.FormatUint(n, 10)`
 * writes the token's user-ID claim and `strconv.ParseUint(s, 10, 64)` reads it back.
 */
module Decimal {
  import opened Wrappers
  import opened Ascii
  import opened Models

  function DigitValue(c: char): nat
    requires IsDigit(c)
  {
    c as int - '0' as int
  }

  function DigitChar(d: nat): (c: char)
    requires d < 10
    ensures IsDigit(c) && DigitValue(c) == d
  {
    ('0' as int + d) as char
  }

  ghost predicate AllDigits(s: string) {
    forall i :: 0 <= i < |s| ==> IsDigit(s[i])
  }

  /** The number a digit string denotes, most significant digit first ("" denotes 0). */
  ghost function Value(s: string): nat
    requires AllDigits(s)
  {
    if s == [] then 0 else Value(s[..|s| - 1]) * 10 + DigitValue(s[|s| - 1])
  }

  /** The form `FormatUint` writes: at least one digit and no leading zero, except "0" itself. */
  ghost predicate Canonical(s: string) {
    |s| > 0 && AllDigits(s) && (s[0] == '0' ==> |s| == 1)
  }

  /** `strconv.FormatUint(n, 10)`: the shortest decimal rendering of `n`. */
  function FormatUint(n: nat): (s: string)
    ensures Canonical(s) && Value(s) == n
    decreases n
  {
    if n < 10 then [DigitChar(n)]
    else
      var p := FormatUint(n / 10);
      var s := p + [DigitChar(n % 10)];
      assert s[..|s| - 1] == p;
      s
  }

  /** A digit string is worth at least as much as any of its prefixes. */
  lemma {:induction false} PrefixValueAtMost(s: string, k: nat)
    requires AllDigits(s) && k <= |s|
    ensures AllDigits(s[..k]) && Value(s[..k]) <= Value(s)
  {
    if k < |s| {
      var p := s[..|s| - 1];
      PrefixValueAtMost(p, k);
      assert p[..k] == s[..k];
    } else {
      assert s[..k] == s;
    }
  }

  /**
   * The loop of `strconv.ParseUint(s, 10, 64)` from byte `i` on, where `acc` is the
   * value of the bytes already read: a non-digit is a syntax error, and the scan
   * stops with a range error as soon as the value passes the 64-bit maximum.
   */
  function ParseFrom(s: string, i: nat, acc: nat): (r: Option<nat>)
    requires i <= |s| && AllDigits(s[..i]) && acc == Value(s[..i]) && acc <= MaxUint64
    ensures r.Some? <==> AllDigits(s) && Value(s) <= MaxUint64
    ensures r.Some? ==> r.value == Value(s)
    decreases |s| - i
  {
    assert i == |s| ==> s[..i] == s;
    if i == |s| then Some(acc)
    else if !IsDigit(s[i]) then None
    else
      var n := acc * 10 + DigitValue(s[i]);
      assert s[..i + 1][..i] == s[..i];
      assert AllDigits(s[..i + 1]) && Value(s[..i + 1]) == n;
      if n > MaxUint64 then
        assert AllDigits(s) ==> Value(s) > MaxUint64 by {
          if AllDigits(s) { PrefixValueAtMost(s, i + 1); }
        }
        None
      else ParseFrom(s, i + 1, n)
  }

  /**
   * `strconv.ParseUint(s, 10, 64)`: `Some(v)` exactly when `s` is a non-empty string of
   * ASCII digits (no sign, no underscore, leading zeros allowed) whose value fits 64 bits.
   */
  function ParseUint(s: string): (r: Option<nat>)
    ensures r.Some? <==> |s| > 0 && AllDigits(s) && Value(s) <= MaxUint64
    ensures r.Some? ==> r.value == Value(s) && r.value <= MaxUint64
  {
    assert s[..0] == [];
    if s == [] then None else ParseFrom(s, 0, 0)
  }

  /** Round trip: parsing the rendering of a 64-bit value gives the value back. */
  lemma ParseFormatRoundTrip(n: nat)
    requires n <= MaxUint64
    ensures ParseUint(FormatUint(n)) == Some(n)
  {
  }

  /** A digit string with a non-zero leading digit denotes a positive number. */
  lemma {:induction false} LeadingNonZeroPositive(s: string)
    requires |s| > 0 && AllDigits(s) && s[0] != '0'
    ensures Value(s) > 0
  {
    if |s| > 1 {
      var p := s[..|s| - 1];
      assert p[0] == s[0];
      LeadingNonZeroPositive(p);
    }
  }

  /** The rendering is the only canonical string that parses to its value. */
  lemma {:induction false} FormatValueOfCanonical(s: string)
    requires Canonical(s)
    ensures FormatUint(Value(s)) == s
  {
    var p := s[..|s| - 1];
    var d := s[|s| - 1];
    if p == [] {
      assert s == [d];
    } else {
      assert p[0] == s[0];
      LeadingNonZeroPositive(p);
      assert Canonical(p);
      FormatValueOfCanonical(p);
      assert Value(s) / 10 == Value(p) && Value(s) % 10 == DigitValue(d);
      assert s == p + [d];
    }
  }

  /** Conversely: a canonical string that parses renders back to itself. */
  lemma FormatParseRoundTrip(s: string, n: nat)
    requires Canonical(s) && ParseUint(s) == Some(n)
    ensures FormatUint(n) == s
  {
    FormatValueOfCanonical(s);
  }
}
