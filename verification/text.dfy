/** String helpers the dispatcher relies on: Python's `str.split(sep)`, its inverse
    `sep.join(parts)`, `str.isdigit()` and `int(s)` on a string of decimal digits. */
module Text {

  /** The number of times `c` occurs in `s`. */
  function Occurrences(s: string, c: char): (n: nat)
  {
    if s == [] then 0 else (if s[0] == c then 1 else 0) + Occurrences(s[1..], c)
  }

  /** `s.split(sep)`: the pieces of `s` between occurrences of `sep`, in order, empty
      pieces included (so `"".split(".")` is `[""]` and `"a..b".split(".")` is
      `["a", "", "b"]`). */
  function Split(s: string, sep: char): (parts: seq<string>)
    ensures |parts| == Occurrences(s, sep) + 1
    ensures forall i :: 0 <= i < |parts| ==> sep !in parts[i]
    ensures sep !in s <==> |parts| == 1
    ensures sep !in s ==> parts == [s]
  {
    if s == [] then [[]]
    else
      var rest := Split(s[1..], sep);
      assert s == [s[0]] + s[1..];
      if s[0] == sep then [[]] + rest
      else [[s[0]] + rest[0]] + rest[1..]
  }

  /** `sep.join(parts)`. */
  function Join(parts: seq<string>, sep: char): (s: string)
    requires |parts| >= 1
  {
    if |parts| == 1 then parts[0] else parts[0] + [sep] + Join(parts[1..], sep)
  }

  /** Joining the pieces again gives back the string that was split. */
  lemma {:induction false} SplitThenJoin(s: string, sep: char)
    ensures Join(Split(s, sep), sep) == s
  {
    if s != [] {
      var rest := Split(s[1..], sep);
      SplitThenJoin(s[1..], sep);
      if s[0] == sep {
        assert ([[]] + rest)[1..] == rest;
      } else if |rest| > 1 {
        var parts := [[s[0]] + rest[0]] + rest[1..];
        assert parts[1..] == rest[1..];
        assert Join(rest, sep) == rest[0] + [sep] + Join(rest[1..], sep);
        assert Join(parts, sep) == [s[0]] + rest[0] + [sep] + Join(rest[1..], sep);
      }
    }
  }

  /** Splitting a string that starts with a non-separator extends its first piece. */
  lemma SplitCons(c: char, t: string, sep: char)
    requires c != sep
    ensures Split([c] + t, sep) == [[c] + Split(t, sep)[0]] + Split(t, sep)[1..]
  {
    var s := [c] + t;
    assert s[0] == c && s[1..] == t;
  }

  /** Splitting a piece followed by a separator peels that piece off. */
  lemma {:induction false} SplitAfterPiece(p: string, t: string, sep: char)
    requires sep !in p
    ensures Split(p + [sep] + t, sep) == [p] + Split(t, sep)
  {
    if p == [] {
      assert p + [sep] + t == [sep] + t;
      assert ([sep] + t)[1..] == t;
    } else {
      var q := p[1..] + [sep] + t;
      assert p + [sep] + t == [p[0]] + q;
      SplitAfterPiece(p[1..], t, sep);
      SplitCons(p[0], q, sep);
      assert [p[0]] + p[1..] == p;
    }
  }

  /** Splitting a join of separator-free pieces gives back the pieces. */
  lemma {:induction false} JoinThenSplit(parts: seq<string>, sep: char)
    requires |parts| >= 1
    requires forall i :: 0 <= i < |parts| ==> sep !in parts[i]
    ensures Split(Join(parts, sep), sep) == parts
  {
    if |parts| > 1 {
      JoinThenSplit(parts[1..], sep);
      SplitAfterPiece(parts[0], Join(parts[1..], sep), sep);
      assert [parts[0]] + parts[1..] == parts;
    }
  }

  /** The last piece of `s.split(sep)` (Python's `[-1]`), characterised as the longest
      separator-free suffix of `s`: it is the whole of `s` exactly when `s` holds no
      separator, and otherwise it is preceded by the last separator. */
  lemma {:induction false} LastPieceIsSuffix(s: string, sep: char)
    ensures var parts := Split(s, sep);
      var last := parts[|parts| - 1];
      && |last| <= |s| && s[|s| - |last|..] == last
      && (|last| < |s| <==> sep in s)
      && (|last| < |s| ==> s[|s| - |last| - 1] == sep)
  {
    if s != [] {
      var rest := Split(s[1..], sep);
      LastPieceIsSuffix(s[1..], sep);
      var parts := Split(s, sep);
      if s[0] != sep && |rest| == 1 {
        assert parts == [s];
      } else {
        assert parts[|parts| - 1] == rest[|rest| - 1];
        assert s[1..][|s[1..]| - |rest[|rest| - 1]|..] == s[|s| - |rest[|rest| - 1]|..];
      }
    }
  }

  predicate IsDigitChar(c: char)
  {
    '0' <= c <= '9'
  }

  /** `s.isdigit()`, for ASCII: true iff `s` is non-empty and every character is a digit. */
  predicate IsDigits(s: string)
    ensures IsDigits(s) ==> s != [] && '.' !in s
  {
    |s| > 0 && forall i :: 0 <= i < |s| ==> IsDigitChar(s[i])
  }

  function Pow10(k: nat): (p: nat)
    ensures p >= 1
  {
    if k == 0 then 1 else 10 * Pow10(k - 1)
  }

  /** `int(s)` for a string of decimal digits; leading zeros are allowed, as in Python. */
  function DecimalValue(s: string): (n: nat)
    requires forall i :: 0 <= i < |s| ==> IsDigitChar(s[i])
    ensures n < Pow10(|s|)
  {
    if s == [] then 0
    else
      var d := s[|s| - 1] as int - '0' as int;
      assert IsDigitChar(s[|s| - 1]) && 0 <= d <= 9;
      var high := DecimalValue(s[..|s| - 1]);
      assert high * 10 + d <= (Pow10(|s| - 1) - 1) * 10 + 9;
      high * 10 + d
  }

  /** `str(n)`: the shortest decimal numeral of `n`. */
  function DecimalString(n: nat): (s: string)
    ensures IsDigits(s)
    ensures |s| > 1 ==> s[0] != '0'
  {
    if n < 10 then [('0' as int + n) as char]
    else DecimalString(n / 10) + [('0' as int + n % 10) as char]
  }

  /** `int(str(n)) == n`. */
  lemma {:induction false} DecimalRoundTrip(n: nat)
    ensures DecimalValue(DecimalString(n)) == n
  {
    if n >= 10 {
      DecimalRoundTrip(n / 10);
      var s := DecimalString(n);
      assert s[..|s| - 1] == DecimalString(n / 10);
    }
  }

  /** Leading zeros do not change the value: `int("0" + s) == int(s)`. */
  lemma {:induction false} LeadingZero(s: string)
    requires forall i :: 0 <= i < |s| ==> IsDigitChar(s[i])
    ensures DecimalValue("0" + s) == DecimalValue(s)
  {
    if s != [] {
      var z := "0" + s;
      assert z[..|z| - 1] == "0" + s[..|s| - 1];
      LeadingZero(s[..|s| - 1]);
    }
  }
}
