/**
 * The Python `str` operations the modelled code relies on: `strip()`,
 * `split(sep)`, `sep.join(...)`, `replace(pat, repl)`, `isdigit()`, `int(...)`
 * on a digit string and `str(...)` on an integer. Whitespace and digits are
 * the ASCII ones.
 */
module PyStr {

  // ---------------------------------------------------------------- whitespace

  /** `c.isspace()` for the ASCII range: space, tab to carriage return, and the separators 0x1C to 0x1F. */
  predicate IsSpace(c: char)
  {
    c == ' ' || ('\t' <= c <= '\r') || ('\U{1C}' <= c <= '\U{1F}')
  }

  predicate AllSpace(s: string)
  {
    forall k :: 0 <= k < |s| ==> IsSpace(s[k])
  }

  /** `s.lstrip()`. */
  function TrimStart(s: string): (r: string)
    ensures |r| <= |s|
    decreases |s|
  {
    if |s| > 0 && IsSpace(s[0]) then TrimStart(s[1..]) else s
  }

  /** `s.rstrip()`. */
  function TrimEnd(s: string): (r: string)
    ensures |r| <= |s|
    decreases |s|
  {
    if |s| > 0 && IsSpace(s[|s| - 1]) then TrimEnd(s[..|s| - 1]) else s
  }

  /** `lstrip` drops exactly the leading whitespace: what it drops is all whitespace and what it keeps does not start with any. */
  lemma {:induction false} TrimStartSpec(s: string)
    ensures TrimStart(s) == s[|s| - |TrimStart(s)|..]
    ensures AllSpace(s[..|s| - |TrimStart(s)|])
    ensures TrimStart(s) == [] || !IsSpace(TrimStart(s)[0])
    decreases |s|
  {
    if |s| > 0 && IsSpace(s[0]) {
      TrimStartSpec(s[1..]);
      var r := TrimStart(s);
      assert s[1..][|s| - 1 - |r|..] == s[|s| - |r|..];
      assert forall k :: 1 <= k < |s| - |r| ==> s[k] == s[1..][..|s| - 1 - |r|][k - 1];
    }
  }

  /** `rstrip` drops exactly the trailing whitespace. */
  lemma {:induction false} TrimEndSpec(s: string)
    ensures TrimEnd(s) == s[..|TrimEnd(s)|]
    ensures AllSpace(s[|TrimEnd(s)|..])
    ensures TrimEnd(s) == [] || !IsSpace(TrimEnd(s)[|TrimEnd(s)| - 1])
    decreases |s|
  {
    if |s| > 0 && IsSpace(s[|s| - 1]) {
      var init := s[..|s| - 1];
      TrimEndSpec(init);
      var r := TrimEnd(s);
      assert init[..|r|] == s[..|r|];
      assert forall k :: |r| <= k < |s| - 1 ==> s[k] == init[|r|..][k - |r|];
    }
  }

  /** `s.strip()`. */
  function Strip(s: string): string
  {
    TrimEnd(TrimStart(s))
  }

  /** How many leading characters `s.strip()` removes. */
  function StripOffset(s: string): nat
  {
    |s| - |TrimStart(s)|
  }

  /**
   * The stripped string is the slice of `s` between a whitespace prefix and
   * a whitespace suffix, and it neither starts nor ends with whitespace.
   */
  lemma StripSpec(s: string)
    ensures StripOffset(s) + |Strip(s)| <= |s|
    ensures s[StripOffset(s)..StripOffset(s) + |Strip(s)|] == Strip(s)
    ensures AllSpace(s[..StripOffset(s)])
    ensures AllSpace(s[StripOffset(s) + |Strip(s)|..])
    ensures Strip(s) == [] || (!IsSpace(Strip(s)[0]) && !IsSpace(Strip(s)[|Strip(s)| - 1]))
  {
    var t := TrimStart(s);
    TrimStartSpec(s);
    TrimEndSpec(t);
    assert s[StripOffset(s) + |Strip(s)|..] == t[|Strip(s)|..];
    assert Strip(s) != [] ==> Strip(s)[0] == t[0];
  }

  // ------------------------------------------------------------ split and join

  /**
   * `s.split(sep)` for a one-character separator: the pieces between
   * consecutive separators, always at least one (an empty `s` gives `[""]`).
   */
  function Split(s: string, sep: char): (r: seq<string>)
    ensures |r| >= 1
    decreases |s|
  {
    if |s| == 0 then [""]
    else
      var rest := Split(s[1..], sep);
      if s[0] == sep then [""] + rest
      else [[s[0]] + rest[0]] + rest[1..]
  }

  /** `sep.join(pieces)`. */
  function Join(pieces: seq<string>, sep: string): string
    decreases |pieces|
  {
    if |pieces| == 0 then ""
    else if |pieces| == 1 then pieces[0]
    else pieces[0] + sep + Join(pieces[1..], sep)
  }

  /**
   * `s.split(sep)` cuts `s` at every separator and nowhere else: no piece
   * holds the separator, and joining the pieces with it gives `s` back.
   */
  lemma {:induction false} JoinSplit(s: string, sep: char)
    ensures forall k :: 0 <= k < |Split(s, sep)| ==> sep !in Split(s, sep)[k]
    ensures Join(Split(s, sep), [sep]) == s
    decreases |s|
  {
    if |s| > 0 {
      var rest := Split(s[1..], sep);
      JoinSplit(s[1..], sep);
      if s[0] == sep {
        assert Split(s, sep) == [""] + rest;
        assert ([""] + rest)[1..] == rest;
        assert forall k :: 1 <= k < |rest| + 1 ==> ([""] + rest)[k] == rest[k - 1];
      } else {
        var pieces := [[s[0]] + rest[0]] + rest[1..];
        assert Split(s, sep) == pieces;
        assert sep !in [s[0]] + rest[0];
        assert forall k :: 1 <= k < |pieces| ==> pieces[k] == rest[k];
        if |rest| == 1 {
          assert Join(rest, [sep]) == rest[0];
        } else {
          assert pieces[1..] == rest[1..];
          assert Join(rest, [sep]) == rest[0] + [sep] + Join(rest[1..], [sep]);
        }
      }
    }
  }

  // ------------------------------------------------------------------- replace

  /** `pat` occurs in `s` starting at index `i`. */
  predicate OccursAt(s: string, pat: string, i: int)
  {
    0 <= i && i + |pat| <= |s| && s[i..i + |pat|] == pat
  }

  /** `s.replace(pat, repl)`: every occurrence, scanned left to right and without overlap, is replaced. */
  function Replace(s: string, pat: string, repl: string): string
    requires |pat| > 0
    decreases |s|
  {
    if |pat| <= |s| && s[..|pat|] == pat then repl + Replace(s[|pat|..], pat, repl)
    else if |s| == 0 then ""
    else [s[0]] + Replace(s[1..], pat, repl)
  }

  /** A string in which `pat` never occurs is left unchanged. */
  lemma {:induction false} ReplaceAbsent(s: string, pat: string, repl: string)
    requires |pat| > 0
    requires forall i :: !OccursAt(s, pat, i)
    ensures Replace(s, pat, repl) == s
    decreases |s|
  {
    assert !OccursAt(s, pat, 0);
    if |s| > 0 {
      forall i ensures !OccursAt(s[1..], pat, i) {
        if OccursAt(s[1..], pat, i) {
          assert s[i + 1..i + 1 + |pat|] == s[1..][i..i + |pat|];
          assert OccursAt(s, pat, i + 1);
        }
      }
      ReplaceAbsent(s[1..], pat, repl);
    }
  }

  /** A character that is in neither `s` nor `repl` is not in the result. */
  lemma {:induction false} ReplaceAvoids(s: string, pat: string, repl: string, c: char)
    requires |pat| > 0 && c !in s && c !in repl
    ensures c !in Replace(s, pat, repl)
    decreases |s|
  {
    if |pat| <= |s| && s[..|pat|] == pat {
      ReplaceAvoids(s[|pat|..], pat, repl, c);
    } else if |s| > 0 {
      ReplaceAvoids(s[1..], pat, repl, c);
    }
  }

  /**
   * A name ending in ".pdf" is renamed to end in ".txt": the final ".pdf"
   * is always found as an occurrence of its own, never absorbed by an
   * earlier one.
   */
  lemma {:induction false} ReplacePdfSuffix(x: string)
    ensures Replace(x + ".pdf", ".pdf", ".txt") == Replace(x, ".pdf", ".txt") + ".txt"
    decreases |x|
  {
    var s := x + ".pdf";
    if |x| == 0 {
      assert s == ".pdf";
      assert Replace(s[4..], ".pdf", ".txt") == "";
    } else if 4 <= |x| && x[..4] == ".pdf" {
      assert s[..4] == ".pdf" && s[4..] == x[4..] + ".pdf";
      ReplacePdfSuffix(x[4..]);
    } else {
      assert s[..4] != ".pdf" by {
        if |x| < 4 {
          assert s[|x|] == '.';
          assert ".pdf"[|x|] != '.';
        } else {
          assert s[..4] == x[..4];
        }
      }
      assert s[1..] == x[1..] + ".pdf";
      ReplacePdfSuffix(x[1..]);
    }
  }

  // --------------------------------------------------------- decimal numerals

  predicate IsDigit(c: char)
  {
    '0' <= c <= '9'
  }

  predicate AllDigits(s: string)
  {
    forall k :: 0 <= k < |s| ==> IsDigit(s[k])
  }

  /** `s.isdigit()` on ASCII input: non-empty, digits only. */
  predicate IsDigits(s: string)
  {
    |s| > 0 && AllDigits(s)
  }

  function DigitValue(c: char): (d: nat)
    requires IsDigit(c)
    ensures d < 10
  {
    c as int - '0' as int
  }

  function DigitChar(d: nat): (c: char)
    requires d < 10
    ensures IsDigit(c) && DigitValue(c) == d
  {
    ('0' as int + d) as char
  }

  /** `int(s)` for a string of digits (leading zeros allowed); the empty string gives 0. */
  function DigitsToNat(s: string): nat
    requires AllDigits(s)
    decreases |s|
  {
    if |s| == 0 then 0
    else 10 * DigitsToNat(s[..|s| - 1]) + DigitValue(s[|s| - 1])
  }

  /** `str(n)` for a non-negative integer: digits only, no leading zero. */
  function NatToDigits(n: nat): (r: string)
    ensures IsDigits(r)
    ensures |r| > 1 ==> r[0] != '0'
    decreases n
  {
    if n < 10 then [DigitChar(n)] else NatToDigits(n / 10) + [DigitChar(n % 10)]
  }

  /** `str(i)` for any integer: a minus sign before the digits of a negative one. */
  function IntToString(i: int): (r: string)
    ensures |r| > 0
    ensures r[0] == '-' <==> i < 0
  {
    if i < 0 then "-" + NatToDigits(-i) else NatToDigits(i)
  }

  /** `int(str(n)) == n`. */
  lemma {:induction false} DigitsRoundTrip(n: nat)
    ensures DigitsToNat(NatToDigits(n)) == n
    decreases n
  {
    if n >= 10 {
      var s := NatToDigits(n);
      DigitsRoundTrip(n / 10);
      assert s[..|s| - 1] == NatToDigits(n / 10);
    }
  }

  /** Distinct naturals have distinct decimal strings. */
  lemma NatToDigitsInjective()
    ensures forall a: nat, b: nat :: NatToDigits(a) == NatToDigits(b) ==> a == b
  {
    forall a: nat, b: nat | NatToDigits(a) == NatToDigits(b)
      ensures a == b
    {
      DigitsRoundTrip(a);
      DigitsRoundTrip(b);
    }
  }

  /** Distinct integers have distinct decimal strings, so `str(i)` names exactly one non-negative key. */
  lemma IntToStringMatches(i: int, n: nat)
    ensures IntToString(i) == NatToDigits(n) <==> i == n
  {
    if i >= 0 && IntToString(i) == NatToDigits(n) {
      DigitsRoundTrip(i);
      DigitsRoundTrip(n);
    }
    if i < 0 {
      assert IntToString(i)[0] == '-';
      assert IsDigit(NatToDigits(n)[0]);
    }
  }
}
