/** Option, the one wrapper the model needs. */
module Wrappers {
  datatype Option<+T> = None | Some(value: T)
}

/**
 * The few pieces of Python 2 string handling that the Range-header parser
 * relies on: `str.strip()`, `str.split(sep)`, `int(s)` in base 10, and
 * `str(n)` for the numbers written into response headers.
 */
module Text {
  import opened Wrappers

  /** The characters `str.isspace()` accepts in a Python 2 byte string. */
  predicate IsSpace(c: char) {
    c == ' ' || c == '\t' || c == '\n' || c == '\r' || c as int == 11 || c as int == 12
  }

  predicate IsDigit(c: char) {
    '0' <= c <= '9'
  }

  predicate AllDigits(s: string) {
    forall k :: 0 <= k < |s| ==> IsDigit(s[k])
  }

  predicate AllSpace(s: string) {
    forall k :: 0 <= k < |s| ==> IsSpace(s[k])
  }

  // ---------------------------------------------------------------- strip

  /** Drops leading whitespace. */
  function TrimLeft(s: string): (r: string)
    ensures |r| <= |s|
    ensures |r| > 0 ==> !IsSpace(r[0])
  {
    if |s| > 0 && IsSpace(s[0]) then TrimLeft(s[1..]) else s
  }

  /** Drops trailing whitespace. */
  function TrimRight(s: string): (r: string)
    ensures |r| <= |s|
    ensures |r| > 0 ==> !IsSpace(r[|r| - 1])
  {
    if |s| > 0 && IsSpace(s[|s| - 1]) then TrimRight(s[..|s| - 1]) else s
  }

  /** What `TrimLeft` keeps is a suffix, and what it drops is whitespace. */
  lemma {:induction false} TrimLeftSuffix(s: string)
    ensures TrimLeft(s) == s[|s| - |TrimLeft(s)|..]
    ensures AllSpace(s[..|s| - |TrimLeft(s)|])
    decreases |s|
  {
    if |s| > 0 && IsSpace(s[0]) {
      TrimLeftSuffix(s[1..]);
      var n := |s| - |TrimLeft(s)|;
      assert s[1..][n - 1..] == s[n..];
      forall k | 0 <= k < n ensures IsSpace(s[..n][k]) {
        if k > 0 { assert s[..n][k] == s[1..][..n - 1][k - 1]; }
      }
    }
  }

  /** What `TrimRight` keeps is a prefix, and what it drops is whitespace. */
  lemma {:induction false} TrimRightPrefix(s: string)
    ensures TrimRight(s) == s[..|TrimRight(s)|]
    ensures AllSpace(s[|TrimRight(s)|..])
    decreases |s|
  {
    if |s| > 0 && IsSpace(s[|s| - 1]) {
      TrimRightPrefix(s[..|s| - 1]);
      var n := |TrimRight(s)|;
      assert s[..|s| - 1][..n] == s[..n];
      forall k | n <= k < |s| ensures IsSpace(s[k]) {
        if k < |s| - 1 { assert s[k] == s[..|s| - 1][n..][k - n]; }
      }
    }
  }

  /**
   * `s.strip()`: whitespace removed at both ends, so that what is left
   * neither starts nor ends with whitespace.
   */
  function Strip(s: string): (r: string)
    ensures |r| <= |s|
    ensures |r| > 0 ==> !IsSpace(r[0]) && !IsSpace(r[|r| - 1])
  {
    TrimRightPrefix(TrimLeft(s));
    TrimRight(TrimLeft(s))
  }

  /** What `strip()` keeps is one slice of `s`, with only whitespace around it. */
  lemma {:induction false} StripSlice(s: string) returns (i: nat, j: nat)
    ensures i <= j <= |s| && Strip(s) == s[i..j]
    ensures AllSpace(s[..i]) && AllSpace(s[j..])
  {
    var left := TrimLeft(s);
    var r := TrimRight(left);
    TrimLeftSuffix(s);
    TrimRightPrefix(left);
    i := |s| - |left|;
    j := i + |r|;
    assert left == s[i..];
    assert r == left[..|r|];
    assert s[i..j] == left[..|r|] by {
      forall k | 0 <= k < |r| ensures s[i..j][k] == left[..|r|][k] {
        assert s[i..j][k] == s[i + k] == left[k];
      }
    }
    assert s[..i] == s[..|s| - |left|];
    assert s[j..] == left[|r|..];
  }

  /** `strip()` adds no character. */
  lemma {:induction false} StripWithout(s: string, c: char)
    ensures c !in s ==> c !in Strip(s)
  {
    var i, j := StripSlice(s);
  }

  /** A string without whitespace at its ends is left alone by `strip()`. */
  lemma {:induction false} StripUntouched(s: string)
    requires |s| > 0 ==> !IsSpace(s[0]) && !IsSpace(s[|s| - 1])
    ensures Strip(s) == s
  {
  }

  /** Leading whitespace does not change what `strip()` returns. */
  lemma {:induction false} StripLeadingSpace(c: char, s: string)
    requires IsSpace(c)
    ensures Strip([c] + s) == Strip(s)
  {
    assert ([c] + s)[1..] == s;
  }

  // ---------------------------------------------------------------- split

  /**
   * `s.split(sep)`: the pieces between occurrences of `sep`, so that one
   * separator yields two pieces and the empty string yields one.
   */
  function Split(s: string, sep: char): (r: seq<string>)
    ensures |r| >= 1
    decreases |s|
  {
    if |s| == 0 then [""]
    else
      var rest := Split(s[1..], sep);
      if s[0] == sep then [""] + rest
      else [[s[0]] + rest[0]] + rest[1..]
  }

  /** No piece of a split holds the separator. */
  lemma {:induction false} SplitPieces(s: string, sep: char)
    ensures forall k :: 0 <= k < |Split(s, sep)| ==> sep !in Split(s, sep)[k]
    decreases |s|
  {
    if |s| > 0 {
      var rest := Split(s[1..], sep);
      SplitPieces(s[1..], sep);
      var r := Split(s, sep);
      if s[0] == sep {
        assert forall k :: 1 <= k < |r| ==> r[k] == rest[k - 1];
      } else {
        assert forall k :: 1 <= k < |r| ==> r[k] == rest[k];
      }
    }
  }

  /** `sep.join(parts)`, the inverse of `Split`. */
  function Join(parts: seq<string>, sep: char): string
    requires |parts| >= 1
    decreases |parts|
  {
    if |parts| == 1 then parts[0] else parts[0] + [sep] + Join(parts[1..], sep)
  }

  /** Joining the pieces of a split gives back the string. */
  lemma {:induction false} JoinSplit(s: string, sep: char)
    ensures Join(Split(s, sep), sep) == s
    decreases |s|
  {
    if |s| > 0 {
      var rest := Split(s[1..], sep);
      JoinSplit(s[1..], sep);
      if s[0] == sep {
        assert Split(s, sep)[1..] == rest;
      } else {
        var r := Split(s, sep);
        assert r[0] == [s[0]] + rest[0];
        if |rest| == 1 {
          assert s == [s[0]] + s[1..];
        } else {
          assert r[1..] == rest[1..];
          assert Join(rest, sep) == rest[0] + [sep] + Join(rest[1..], sep);
          assert s == [s[0]] + s[1..];
        }
      }
    }
  }

  /** A string without the separator splits into itself alone. */
  lemma {:induction false} SplitWithout(s: string, sep: char)
    requires sep !in s
    ensures Split(s, sep) == [s]
    decreases |s|
  {
    if |s| > 0 {
      SplitWithout(s[1..], sep);
      assert s == [s[0]] + s[1..];
    }
  }

  /** A separator after a separator-free prefix cuts exactly there. */
  lemma {:induction false} SplitAfter(a: string, sep: char, b: string)
    requires sep !in a
    ensures Split(a + [sep] + b, sep) == [a] + Split(b, sep)
    decreases |a|
  {
    var s := a + [sep] + b;
    if |a| == 0 {
      assert s[1..] == b;
    } else {
      assert s[0] == a[0];
      assert s[1..] == a[1..] + [sep] + b;
      SplitAfter(a[1..], sep, b);
      assert a == [a[0]] + a[1..];
    }
  }

  /** Splitting a join of separator-free pieces gives the pieces back. */
  lemma {:induction false} SplitJoin(parts: seq<string>, sep: char)
    requires |parts| >= 1
    requires forall k :: 0 <= k < |parts| ==> sep !in parts[k]
    ensures Split(Join(parts, sep), sep) == parts
    decreases |parts|
  {
    if |parts| == 1 {
      SplitWithout(parts[0], sep);
    } else {
      SplitJoin(parts[1..], sep);
      SplitAfter(parts[0], sep, Join(parts[1..], sep));
      assert parts == [parts[0]] + parts[1..];
    }
  }

  /** A character in no piece is in no join of those pieces but the separator. */
  lemma {:induction false} JoinWithout(parts: seq<string>, sep: char, c: char)
    requires |parts| >= 1 && c != sep
    requires forall k :: 0 <= k < |parts| ==> c !in parts[k]
    ensures c !in Join(parts, sep)
    decreases |parts|
  {
    if |parts| > 1 {
      JoinWithout(parts[1..], sep, c);
    }
  }

  // ---------------------------------------------------------------- numbers

  /** Digits are neither `=` nor `,` nor `-`. */
  lemma {:induction false} DigitsOnly(s: string)
    requires AllDigits(s)
    ensures '=' !in s && ',' !in s && '-' !in s && '*' !in s
  {
  }

  function DigitValue(c: char): nat
    requires IsDigit(c)
  {
    c as int - '0' as int
  }

  function DigitChar(d: nat): (c: char)
    requires d < 10
    ensures IsDigit(c) && DigitValue(c) == d
  {
    ('0' as int + d) as char
  }

  /** The number a string of decimal digits denotes, most significant first. */
  function DigitsValue(s: string): nat
    requires AllDigits(s)
  {
    if |s| == 0 then 0 else DigitsValue(s[..|s| - 1]) * 10 + DigitValue(s[|s| - 1])
  }

  /**
   * `str(n)` for a non-negative integer: decimal digits without leading
   * zeros, denoting `n` (`FormatNatDigits`).
   */
  function FormatNat(n: nat): (r: string)
    ensures |r| >= 1
  {
    if n < 10 then [DigitChar(n)] else FormatNat(n / 10) + [DigitChar(n % 10)]
  }

  /** `str(n)` is decimal digits, without a leading zero unless it is `0`, and it denotes `n`. */
  lemma {:induction false} FormatNatDigits(n: nat)
    ensures AllDigits(FormatNat(n))
    ensures DigitsValue(FormatNat(n)) == n
    ensures FormatNat(n)[0] == '0' ==> FormatNat(n) == "0"
    decreases n
  {
    if n >= 10 {
      var p := FormatNat(n / 10);
      var r := FormatNat(n);
      FormatNatDigits(n / 10);
      assert r == p + [DigitChar(n % 10)];
      assert r[..|r| - 1] == p;
      assert r[0] == p[0];
      assert DigitsValue(r) == DigitsValue(p) * 10 + n % 10;
    }
  }

  /** `str(n)` holds none of the header's punctuation and starts and ends with a digit. */
  lemma {:induction false} FormatNatPlain(n: nat)
    ensures '=' !in FormatNat(n) && ',' !in FormatNat(n) && '-' !in FormatNat(n) && '*' !in FormatNat(n)
    ensures IsDigit(FormatNat(n)[0]) && IsDigit(FormatNat(n)[|FormatNat(n)| - 1])
  {
    FormatNatDigits(n);
    DigitsOnly(FormatNat(n));
  }

  /** Digits that do not start with `0` denote at least 1. */
  lemma {:induction false} DigitsValuePositive(s: string)
    requires AllDigits(s) && |s| >= 1 && s[0] != '0'
    ensures DigitsValue(s) >= 1
    decreases |s|
  {
    if |s| > 1 {
      var p := s[..|s| - 1];
      assert p[0] == s[0];
      DigitsValuePositive(p);
    }
  }

  /**
   * `str(int(s)) == s` for a canonical decimal string: one or more digits,
   * with no leading zero unless the string is `0` itself.
   */
  lemma {:induction false} FormatDigits(s: string)
    requires |s| >= 1 && AllDigits(s) && (s[0] == '0' ==> |s| == 1)
    ensures FormatNat(DigitsValue(s)) == s
    decreases |s|
  {
    var c := s[|s| - 1];
    var d := DigitValue(c);
    assert DigitChar(d) == c;
    if |s| == 1 {
      assert s == [c];
    } else {
      var p := s[..|s| - 1];
      assert p[0] == s[0];
      DigitsValuePositive(p);
      FormatDigits(p);
      var v := DigitsValue(s);
      assert v == DigitsValue(p) * 10 + d;
      assert v / 10 == DigitsValue(p) && v % 10 == d;
      assert s == p + [c];
    }
  }

  /**
   * `int(s)` in base 10, as Python 2 does it on a byte string: surrounding
   * whitespace is ignored, then one optional sign, more whitespace after a
   * sign, then at least one digit, and nothing else (`int("- 5") == -5`).
   * `None` stands for the "invalid literal for int()" error.
   */
  function ParseInt(s: string): (r: Option<int>)
    ensures |Strip(s)| == 0 ==> r.None?
    ensures r.Some? && Strip(s)[0] == '-' ==> r.value <= 0
    ensures r.Some? && Strip(s)[0] != '-' ==> r.value >= 0
  {
    var t := Strip(s);
    if |t| > 0 && (t[0] == '+' || t[0] == '-') then
      var u := TrimLeft(t[1..]);
      if |u| > 0 && AllDigits(u) then
        var v: int := DigitsValue(u);
        Some(if t[0] == '-' then -v else v)
      else
        None
    else if |t| > 0 && AllDigits(t) then
      Some(DigitsValue(t))
    else
      None
  }

  /**
   * A string `int()` accepts holds at least one digit and nothing but
   * digits, whitespace and signs.
   */
  lemma {:induction false} ParseIntChars(s: string)
    requires ParseInt(s).Some?
    ensures exists k :: 0 <= k < |s| && IsDigit(s[k])
    ensures forall k :: 0 <= k < |s| ==>
              IsDigit(s[k]) || IsSpace(s[k]) || s[k] == '+' || s[k] == '-'
  {
    var t := Strip(s);
    var i, j := StripSlice(s);
    var signed := t[0] == '+' || t[0] == '-';
    var rest := t[1..];
    TrimLeftSuffix(rest);
    var gap := |rest| - |TrimLeft(rest)|;
    // Where the digits of `t` begin: right away, or after the sign and its gap.
    var d := if signed then 1 + gap else 0;
    assert IsDigit(t[d]) by {
      if signed {
        assert TrimLeft(rest)[0] == rest[gap] == t[d];
      }
    }
    assert s[i + d] == t[d];
    forall k | 0 <= k < |s|
      ensures IsDigit(s[k]) || IsSpace(s[k]) || s[k] == '+' || s[k] == '-'
    {
      if k < i {
        assert s[..i][k] == s[k];
      } else if k >= j {
        assert s[j..][k - j] == s[k];
      } else {
        assert s[k] == t[k - i];
        if k - i > 0 {
          assert rest[k - i - 1] == t[k - i];
          if signed && k - i - 1 < gap {
            assert rest[..gap][k - i - 1] == rest[k - i - 1];
          } else if signed {
            assert TrimLeft(rest)[k - i - 1 - gap] == rest[k - i - 1];
          }
        }
      }
    }
  }

  /** `int()` is negative only when the first character after the whitespace is `-`. */
  lemma {:induction false} ParseIntNegative(s: string)
    requires ParseInt(s).Some? && ParseInt(s).value < 0
    ensures exists i :: 0 <= i < |s| && s[i] == '-' && AllSpace(s[..i])
  {
    var i, j := StripSlice(s);
    assert s[i] == Strip(s)[0];
  }

  /** `int(str(n)) == n`: printing a number and reading it back is the identity. */
  lemma {:induction false} ParseFormat(n: nat)
    ensures ParseInt(FormatNat(n)) == Some(n)
  {
    var s := FormatNat(n);
    FormatNatDigits(n);
    assert IsDigit(s[0]) && IsDigit(s[|s| - 1]);
    StripUntouched(s);
    assert s[0] != '+' && s[0] != '-';
  }

  /**
   * `int(s)` of a string of one or more digits is the number they denote,
   * leading zeros included (`int("007") == 7`).
   */
  lemma {:induction false} ParseDigits(s: string)
    requires |s| >= 1 && AllDigits(s)
    ensures ParseInt(s) == Some(DigitsValue(s))
  {
    assert IsDigit(s[0]) && IsDigit(s[|s| - 1]);
    StripUntouched(s);
    assert s[0] != '+' && s[0] != '-';
  }

  /** Whitespace in front of a string that does not start with it is all `TrimLeft` drops. */
  lemma {:induction false} TrimLeftSpaces(w: string, t: string)
    requires AllSpace(w) && (|t| > 0 ==> !IsSpace(t[0]))
    ensures TrimLeft(w + t) == t
    decreases |w|
  {
    if |w| > 0 {
      assert (w + t)[0] == w[0];
      assert (w + t)[1..] == w[1..] + t;
      TrimLeftSpaces(w[1..], t);
    } else {
      assert w + t == t;
    }
  }

  /**
   * `int(sign + w + str(n))` for whitespace `w` is `n` with that sign: a gap
   * after the sign is skipped (`int("- 5") == -5`, `int("+ 5") == 5`).
   */
  lemma {:induction false} ParseSignedSpaced(sign: char, w: string, n: nat)
    requires sign == '+' || sign == '-'
    requires AllSpace(w)
    ensures ParseInt([sign] + w + FormatNat(n)) == Some(if sign == '-' then -(n as int) else n)
  {
    var f := FormatNat(n);
    var s := [sign] + w + f;
    FormatNatDigits(n);
    assert IsDigit(s[|s| - 1]) && !IsSpace(s[0]);
    StripUntouched(s);
    assert s[1..] == w + f;
    TrimLeftSpaces(w, f);
  }
}
