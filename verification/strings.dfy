/**
 * The handful of string operations the engines rely on: Go's
 * `strings.Split`, `strings.Contains`, and the decimal formatting `%v`
 * applies to a year.
 */
module Strings {

  /** `s` starts with `prefix`. */
  predicate HasPrefix(s: string, prefix: string)
  {
    |prefix| <= |s| && s[..|prefix|] == prefix
  }

  /** `sep` occurs at position `i` of `s`. */
  predicate OccursAt(s: string, sep: string, i: int)
  {
    0 <= i && i + |sep| <= |s| && s[i..i + |sep|] == sep
  }

  /** No occurrence of `sep` starts anywhere in `s`. */
  predicate Free(s: string, sep: string)
  {
    forall i :: 0 <= i <= |s| - |sep| ==> !OccursAt(s, sep, i)
  }

  /**
   * Go's `strings.Split(s, sep)` for a non-empty separator: the pieces
   * between the non-overlapping occurrences of `sep`, scanned left to right.
   * There is always at least one piece.
   */
  function Split(s: string, sep: string): (parts: seq<string>)
    requires sep != []
    ensures |parts| >= 1
    decreases |s|
  {
    if |s| < |sep| then [s]
    else if s[..|sep|] == sep then [[]] + Split(s[|sep|..], sep)
    else
      var rest := Split(s[1..], sep);
      [[s[0]] + rest[0]] + rest[1..]
  }

  /** Go's `strings.Join(parts, sep)`. */
  function Join(parts: seq<string>, sep: string): string
    requires |parts| >= 1
  {
    if |parts| == 1 then parts[0] else parts[0] + sep + Join(parts[1..], sep)
  }

  /** Splitting and joining again gives back the original string. */
  lemma {:induction false} JoinSplit(s: string, sep: string)
    requires sep != []
    ensures Join(Split(s, sep), sep) == s
    decreases |s|
  {
    if |s| < |sep| {
    } else if s[..|sep|] == sep {
      var rest := Split(s[|sep|..], sep);
      JoinSplit(s[|sep|..], sep);
      assert Split(s, sep) == [[]] + rest;
      assert ([[]] + rest)[1..] == rest;
      assert s == s[..|sep|] + s[|sep|..];
    } else {
      var rest := Split(s[1..], sep);
      JoinSplit(s[1..], sep);
      var parts := [[s[0]] + rest[0]] + rest[1..];
      assert Split(s, sep) == parts;
      if |rest| == 1 {
        assert parts == [[s[0]] + rest[0]];
      } else {
        assert parts[1..] == rest[1..];
        assert Join(rest, sep) == rest[0] + sep + Join(rest[1..], sep);
      }
      assert s == [s[0]] + s[1..];
    }
  }

  /** A string in which `sep` never occurs splits into itself alone. */
  lemma {:induction false} SplitFree(s: string, sep: string)
    requires sep != [] && Free(s, sep)
    ensures Split(s, sep) == [s]
    decreases |s|
  {
    if |s| >= |sep| {
      assert !OccursAt(s, sep, 0);
      forall i | 0 <= i <= |s[1..]| - |sep|
        ensures !OccursAt(s[1..], sep, i)
      {
        assert !OccursAt(s, sep, i + 1);
        assert s[1..][i..i + |sep|] == s[i + 1..i + 1 + |sep|];
      }
      SplitFree(s[1..], sep);
      assert [s[0]] + s[1..] == s;
    }
  }

  /**
   * `a + sep + b`, where the only occurrence of `sep` is the one between
   * `a` and `b`, splits into exactly `a` and `b`.
   */
  lemma {:induction false} SplitOnce(a: string, sep: string, b: string)
    requires sep != []
    requires Free(a + sep[..|sep| - 1], sep) && Free(b, sep)
    ensures Split(a + sep + b, sep) == [a, b]
    decreases |a|
  {
    var s := a + sep + b;
    if |a| == 0 {
      assert s == sep + b;
      assert s[..|sep|] == sep;
      assert s[|sep|..] == b;
      SplitFree(b, sep);
    } else {
      assert !OccursAt(a + sep[..|sep| - 1], sep, 0);
      assert (a + sep[..|sep| - 1])[..|sep|] == s[..|sep|];
      var a' := a[1..];
      var t, t' := a + sep[..|sep| - 1], a' + sep[..|sep| - 1];
      assert t' == t[1..];
      forall i | 0 <= i <= |t'| - |sep|
        ensures !OccursAt(t', sep, i)
      {
        assert !OccursAt(t, sep, i + 1);
        assert t'[i..i + |sep|] == t[1..][i..i + |sep|];
        assert t[1..][i..i + |sep|] == t[i + 1..i + 1 + |sep|];
      }
      SplitOnce(a', sep, b);
      assert s[1..] == a' + sep + b;
      assert s[0] == a[0];
      assert [a[0]] + a' == a;
    }
  }

  /** The pieces of a split on one character never contain that character. */
  lemma {:induction false} SplitPiecesFree(s: string, c: char)
    ensures forall k :: 0 <= k < |Split(s, [c])| ==> c !in Split(s, [c])[k]
    decreases |s|
  {
    var sep := [c];
    if |s| < 1 {
    } else if s[..1] == sep {
      SplitPiecesFree(s[1..], c);
    } else {
      SplitPiecesFree(s[1..], c);
      var rest := Split(s[1..], sep);
      assert s[0] != c;
      assert forall k :: 1 <= k < |rest| ==> rest[1..][k - 1] == rest[k];
    }
  }

  /** A string without the character `c` is free of the separator `[c]`. */
  lemma FreeOfChar(s: string, c: char)
    requires c !in s
    ensures Free(s, [c])
  {
    forall i | 0 <= i <= |s| - 1
      ensures !OccursAt(s, [c], i)
    {
      assert s[i..i + 1][0] == s[i];
    }
  }

  /**
   * Splitting on one character yields one piece exactly when the character
   * is absent, and two pieces exactly when it occurs once.
   */
  lemma SplitOnChar(a: string, c: char, b: string)
    requires c !in a && c !in b
    ensures Split(a, [c]) == [a]
    ensures Split(a + [c] + b, [c]) == [a, b]
  {
    FreeOfChar(a, c);
    FreeOfChar(b, c);
    SplitFree(a, [c]);
    assert [c][..0] == [];
    assert a + [c][..0] == a;
    SplitOnce(a, [c], b);
  }

  /** Go's `strings.Contains(s, sub)`. */
  predicate Contains(s: string, sub: string)
    decreases |s|
  {
    HasPrefix(s, sub) || (|s| > 0 && Contains(s[1..], sub))
  }

  /** `Contains` holds exactly when `sub` occurs at some position of `s`. */
  lemma {:induction false} ContainsOccurs(s: string, sub: string)
    ensures Contains(s, sub) <==> exists i :: OccursAt(s, sub, i)
    decreases |s|
  {
    if HasPrefix(s, sub) {
      assert OccursAt(s, sub, 0);
    } else if |s| > 0 {
      ContainsOccurs(s[1..], sub);
      if Contains(s[1..], sub) {
        var i :| OccursAt(s[1..], sub, i);
        assert s[1..][i..i + |sub|] == s[i + 1..i + 1 + |sub|];
        assert OccursAt(s, sub, i + 1);
      }
      if i :| OccursAt(s, sub, i) {
        assert i != 0;
        assert s[1..][i - 1..i - 1 + |sub|] == s[i..i + |sub|];
        assert OccursAt(s[1..], sub, i - 1);
      }
    }
  }

  /** Decimal digit of `d`. */
  function Digit(d: nat): char
    requires d < 10
  {
    "0123456789"[d]
  }

  /** Value of a decimal digit character. */
  function DigitValue(c: char): nat
  {
    if '0' <= c <= '9' then (c as int - '0' as int) as nat else 0
  }

  /** `%v` of a non-negative integer: its decimal digits, without leading zeros. */
  function Decimal(n: nat): (s: string)
    ensures |s| >= 1
    ensures forall k :: 0 <= k < |s| ==> '0' <= s[k] <= '9'
    decreases n
  {
    if n < 10 then [Digit(n)] else Decimal(n / 10) + [Digit(n % 10)]
  }

  /** Reads a string of decimal digits back as a number. */
  function ParseDecimal(s: string): nat
    decreases |s|
  {
    if |s| == 0 then 0 else ParseDecimal(s[..|s| - 1]) * 10 + DigitValue(s[|s| - 1])
  }

  /** Reading back the decimal form of `n` gives `n`. */
  lemma {:induction false} DecimalRoundTrip(n: nat)
    ensures ParseDecimal(Decimal(n)) == n
    decreases n
  {
    if n < 10 {
      assert Decimal(n)[..0] == [];
    } else {
      DecimalRoundTrip(n / 10);
      var s := Decimal(n);
      assert s[..|s| - 1] == Decimal(n / 10);
      assert s[|s| - 1] == Digit(n % 10);
    }
  }
}
