/** Text helpers used by the path mapper and the backup allocator:
    decimal rendering of counters, splitting on the "__" separator,
    and file-name suffixes as pathlib computes them. */
module Strings {

  /** The decimal digit for 0 <= d < 10. */
  function Digit(d: nat): (c: char)
    requires d < 10
    ensures '0' <= c <= '9'
  {
    ['0', '1', '2', '3', '4', '5', '6', '7', '8', '9'][d]
  }

  function DigitValue(c: char): nat
  {
    if '0' <= c <= '9' then (c as int - '0' as int) as nat else 0
  }

  lemma DigitValueOfDigit(d: nat)
    requires d < 10
    ensures DigitValue(Digit(d)) == d
  {
  }

  /** `str(n)` for a natural number n: decimal, no leading zeros. */
  function Dec(n: nat): (s: string)
    ensures |s| >= 1
    ensures forall i :: 0 <= i < |s| ==> '0' <= s[i] <= '9'
    decreases n
  {
    if n < 10 then [Digit(n)] else Dec(n / 10) + [Digit(n % 10)]
  }

  /** Reads a string of decimal digits back as a number. */
  function ParseDec(s: string): nat
    decreases |s|
  {
    if |s| == 0 then 0 else ParseDec(s[..|s| - 1]) * 10 + DigitValue(s[|s| - 1])
  }

  /** Reading back what Dec writes gives the number again. */
  lemma {:induction false} ParseDecOfDec(n: nat)
    ensures ParseDec(Dec(n)) == n
    decreases n
  {
    if n < 10 {
      DigitValueOfDigit(n);
    } else {
      var s := Dec(n);
      assert s[..|s| - 1] == Dec(n / 10);
      ParseDecOfDec(n / 10);
      DigitValueOfDigit(n % 10);
    }
  }

  /** Distinct counters have distinct decimal renderings. */
  lemma DecInjective(i: nat, j: nat)
    requires Dec(i) == Dec(j)
    ensures i == j
  {
    ParseDecOfDec(i);
    ParseDecOfDec(j);
  }

  /** True when "__" occurs in s at position i. */
  predicate SepAt(s: string, i: int)
  {
    0 <= i && i + 1 < |s| && s[i] == '_' && s[i + 1] == '_'
  }

  predicate HasSep(s: string)
  {
    exists i :: 0 <= i < |s| && SepAt(s, i)
  }

  /** `s.split("__")`: scans left to right and cuts at every
      non-overlapping occurrence of the separator. */
  function SplitSep(s: string): (parts: seq<string>)
    ensures |parts| >= 1
    decreases |s|
  {
    if |s| < 2 then [s]
    else if s[0] == '_' && s[1] == '_' then [""] + SplitSep(s[2..])
    else
      var rest := SplitSep(s[1..]);
      [[s[0]] + rest[0]] + rest[1..]
  }

  /** `"__".join(parts)`. */
  function JoinSep(parts: seq<string>): string
    requires |parts| >= 1
    decreases |parts|
  {
    if |parts| == 1 then parts[0] else parts[0] + "__" + JoinSep(parts[1..])
  }

  /** Joining the pieces of a split gives back the original name. */
  lemma {:induction false} JoinSplit(s: string)
    ensures JoinSep(SplitSep(s)) == s
    decreases |s|
  {
    if |s| < 2 {
    } else if s[0] == '_' && s[1] == '_' {
      JoinSplit(s[2..]);
      var rest := SplitSep(s[2..]);
      assert SplitSep(s) == [""] + rest;
      assert ([""] + rest)[1..] == rest;
      assert s == "__" + s[2..];
    } else {
      JoinSplit(s[1..]);
      var rest := SplitSep(s[1..]);
      var parts := [[s[0]] + rest[0]] + rest[1..];
      assert SplitSep(s) == parts;
      if |rest| == 1 {
        assert JoinSep(parts) == [s[0]] + rest[0];
      } else {
        assert parts[1..] == rest[1..];
        assert JoinSep(rest) == rest[0] + "__" + JoinSep(rest[1..]);
      }
      assert s == [s[0]] + s[1..];
    }
  }

  /** Dropping the first character keeps a name free of the separator. */
  lemma NoSepTail(s: string)
    requires |s| >= 1 && !HasSep(s)
    ensures !HasSep(s[1..])
  {
    forall i | 0 <= i < |s[1..]| ensures !SepAt(s[1..], i) {
      assert !SepAt(s, i + 1);
    }
  }

  /** A name without the separator splits into itself alone. */
  lemma {:induction false} SplitSingle(s: string)
    requires !HasSep(s)
    ensures SplitSep(s) == [s]
    decreases |s|
  {
    if |s| >= 2 {
      assert !SepAt(s, 0);
      NoSepTail(s);
      SplitSingle(s[1..]);
      assert [s[0]] + s[1..] == s;
    }
  }

  /** The first piece of a split is the longest separator-free prefix:
      a separator-free a that does not end in '_', followed by "__",
      is cut off as one piece. */
  lemma {:induction false} SplitAfter(a: string, r: string)
    requires !HasSep(a)
    requires a == [] || a[|a| - 1] != '_'
    ensures SplitSep(a + "__" + r) == [a] + SplitSep(r)
    decreases |a|
  {
    var s := a + "__" + r;
    if |a| == 0 {
      assert s == "__" + r;
      assert s[2..] == r;
    } else {
      assert s[0] == a[0];
      if |a| == 1 {
        assert s[0] != '_';
      } else {
        assert !SepAt(a, 0);
        assert s[1] == a[1];
      }
      NoSepTail(a);
      SplitAfter(a[1..], r);
      assert s[1..] == a[1..] + "__" + r;
      assert [a[0]] + a[1..] == a;
    }
  }

  /** `PurePath.suffix` of a final component: from the last '.' on, provided
      that dot is neither the first nor the last character; otherwise "". */
  function Suffix(name: string): (r: string)
    ensures r == "" || (|r| >= 2 && r[0] == '.' && |r| < |name| && r == name[|name| - |r|..])
  {
    var i := LastDot(name, |name|);
    if 0 < i < |name| - 1 then name[i..] else ""
  }

  /** Index of the last '.' in name[..k], or -1. */
  function LastDot(name: string, k: nat): (i: int)
    requires k <= |name|
    ensures -1 <= i < k
    ensures i >= 0 ==> name[i] == '.'
    ensures forall j :: i < j < k ==> name[j] != '.'
    decreases k
  {
    if k == 0 then -1 else if name[k - 1] == '.' then k - 1 else LastDot(name, k - 1)
  }

  lemma AppendCancel(a: string, x: string, y: string)
    requires a + x == a + y
    ensures x == y
  {
    assert x == (a + x)[|a|..];
    assert y == (a + y)[|a|..];
  }

  predicate StartsWith(s: string, prefix: string)
  {
    |prefix| <= |s| && s[..|prefix|] == prefix
  }
}
