/** Character classes and the few string operations of Python's `str` that the
    scraper relies on: `strip()`, `sep.join(...)` and `str(n)` for a natural n.

    The whitespace set is fixed explicitly as the characters for which Python's
    `str.isspace()` holds, and the line-break set as the boundaries recognised by
    `str.splitlines()`. */
module Strings {

  /** Python `str.isspace()`: the characters `str.strip()` removes. */
  predicate IsSpace(c: char)
  {
    || c == ' ' || c == '\t' || c == '\n' || c == '\r'
    || c == '\U{0B}' || c == '\U{0C}'
    || ('\U{1C}' <= c <= '\U{1F}')
    || c == '\U{85}' || c == '\U{A0}' || c == '\U{1680}'
    || ('\U{2000}' <= c <= '\U{200A}')
    || c == '\U{2028}' || c == '\U{2029}'
    || c == '\U{202F}' || c == '\U{205F}' || c == '\U{3000}'
  }

  /** The line boundaries of Python `str.splitlines()`; every one is whitespace. */
  predicate IsLineBreak(c: char): (b: bool)
    ensures b ==> IsSpace(c)
  {
    || c == '\n' || c == '\r' || c == '\U{0B}' || c == '\U{0C}'
    || c == '\U{1C}' || c == '\U{1D}' || c == '\U{1E}'
    || c == '\U{85}' || c == '\U{2028}' || c == '\U{2029}'
  }

  ghost predicate AllSpace(s: string)
  {
    forall i :: 0 <= i < |s| ==> IsSpace(s[i])
  }

  ghost predicate NoLineBreak(s: string)
  {
    forall i :: 0 <= i < |s| ==> !IsLineBreak(s[i])
  }

  /** `s` never holds the two-space string "  ". */
  ghost predicate NoDoubleSpace(s: string)
  {
    forall i :: 0 <= i < |s| - 1 ==> !(s[i] == ' ' && s[i + 1] == ' ')
  }

  /** Neither starts nor ends with whitespace (the empty string included). */
  ghost predicate Stripped(s: string)
  {
    s == [] || (!IsSpace(s[0]) && !IsSpace(s[|s| - 1]))
  }

  /** The non-whitespace skeleton of `s`: its characters with whitespace removed. */
  function NonSpace(s: string): string
  {
    if s == [] then []
    else (if IsSpace(s[0]) then [] else [s[0]]) + NonSpace(s[1..])
  }

  function NonSpaceAll(xs: seq<string>): string
  {
    if xs == [] then [] else NonSpace(xs[0]) + NonSpaceAll(xs[1..])
  }

  lemma {:induction false} NonSpaceAppend(a: string, b: string)
    ensures NonSpace(a + b) == NonSpace(a) + NonSpace(b)
  {
    if a == [] {
      assert a + b == b;
    } else {
      assert (a + b)[1..] == a[1..] + b;
      NonSpaceAppend(a[1..], b);
    }
  }

  /** The skeleton is empty exactly when the string is all whitespace. */
  lemma {:induction false} NonSpaceEmpty(s: string)
    ensures NonSpace(s) == [] <==> AllSpace(s)
  {
    if s != [] {
      NonSpaceEmpty(s[1..]);
      if !IsSpace(s[0]) {
        assert NonSpace(s)[0] == s[0];
      } else if AllSpace(s[1..]) {
        forall i | 0 <= i < |s| ensures IsSpace(s[i]) {
          if i > 0 { assert s[i] == s[1..][i - 1]; }
        }
      } else {
        assert !AllSpace(s);
      }
    }
  }

  lemma {:induction false} NonSpaceAllAppend(xs: seq<string>, ys: seq<string>)
    ensures NonSpaceAll(xs + ys) == NonSpaceAll(xs) + NonSpaceAll(ys)
  {
    if xs == [] {
      assert xs + ys == ys;
    } else {
      assert (xs + ys)[1..] == xs[1..] + ys;
      NonSpaceAllAppend(xs[1..], ys);
    }
  }

  /** `str.lstrip()`: the longest suffix that does not start with whitespace. */
  function TrimLeft(s: string): (r: string)
    ensures |r| <= |s| && r == s[|s| - |r|..]
    ensures AllSpace(s[..|s| - |r|])
    ensures r == [] || !IsSpace(r[0])
  {
    if s != [] && IsSpace(s[0]) then
      var r := TrimLeft(s[1..]);
      assert s[..|s| - |r|] == [s[0]] + s[1..][..|s[1..]| - |r|];
      r
    else s
  }

  /** `str.rstrip()`: the longest prefix that does not end with whitespace. */
  function TrimRight(s: string): (r: string)
    ensures |r| <= |s| && r == s[..|r|]
    ensures AllSpace(s[|r|..])
    ensures r == [] || !IsSpace(r[|r| - 1])
  {
    if s != [] && IsSpace(s[|s| - 1]) then
      var r := TrimRight(s[..|s| - 1]);
      assert s[|r|..] == s[..|s| - 1][|r|..] + [s[|s| - 1]];
      r
    else s
  }

  /** Python `str.strip()` with no argument: `s` with its leading and trailing
      whitespace removed and nothing else changed. */
  function Strip(s: string): (r: string)
    ensures Stripped(r) && |r| <= |s|
  {
    TrimRight(TrimLeft(s))
  }

  /** What `Strip` removes is whitespace at the two ends and nothing else:
      the result is a contiguous piece of `s` with only whitespace around it. */
  lemma StripIsInfix(s: string)
    ensures var r := Strip(s);
      exists a :: 0 <= a <= |s| - |r| && r == s[a..a + |r|]
                  && AllSpace(s[..a]) && AllSpace(s[a + |r|..])
  {
    var t := TrimLeft(s);
    var r := TrimRight(t);
    var a := |s| - |t|;
    assert r == s[a..a + |r|];
    assert s[a + |r|..] == t[|r|..];
  }

  /** Stripping keeps the skeleton, keeps a string free of line breaks and of
      two-space runs, and leaves an already stripped string as it is. */
  lemma StripKeepsShape(s: string)
    ensures NonSpace(Strip(s)) == NonSpace(s)
    ensures NoLineBreak(s) ==> NoLineBreak(Strip(s))
    ensures NoDoubleSpace(s) ==> NoDoubleSpace(Strip(s))
    ensures Stripped(s) ==> Strip(s) == s
  {
    var t := TrimLeft(s);
    var r := TrimRight(t);
    var a := |s| - |t|;
    assert r == s[a..a + |r|];
    assert s[a + |r|..] == t[|r|..];
    StripSkeleton(s, a, r);
    InfixKeepsShape(s, a, r);
  }

  /** Removing whitespace from both ends leaves the skeleton unchanged. */
  lemma StripSkeleton(s: string, a: nat, r: string)
    requires a + |r| <= |s| && r == s[a..a + |r|]
    requires AllSpace(s[..a]) && AllSpace(s[a + |r|..])
    ensures NonSpace(r) == NonSpace(s)
  {
    var u := s[a..];
    assert NonSpace(u) == NonSpace(r) by {
      NonSpaceSplit(u, |r|);
      assert u[..|r|] == r;
      assert u[|r|..] == s[a + |r|..];
      NonSpaceEmpty(s[a + |r|..]);
    }
    assert NonSpace(s[..a]) == [] by {
      NonSpaceEmpty(s[..a]);
    }
    NonSpaceSplit(s, a);
  }

  /** The skeleton of a string is that of a prefix followed by that of the rest. */
  lemma NonSpaceSplit(s: string, k: nat)
    requires k <= |s|
    ensures NonSpace(s) == NonSpace(s[..k]) + NonSpace(s[k..])
  {
    assert s == s[..k] + s[k..];
    NonSpaceAppend(s[..k], s[k..]);
  }

  /** A contiguous piece of a string inherits its shape properties. */
  lemma InfixKeepsShape(s: string, a: nat, r: string)
    requires a + |r| <= |s| && r == s[a..a + |r|]
    ensures NoLineBreak(s) ==> NoLineBreak(r)
    ensures NoDoubleSpace(s) ==> NoDoubleSpace(r)
  {
    assert forall i :: 0 <= i < |r| ==> r[i] == s[a + i];
  }

  /** Python `sep.join(xs)`. */
  function Join(xs: seq<string>, sep: string): string
  {
    if xs == [] then []
    else if |xs| == 1 then xs[0]
    else xs[0] + sep + Join(xs[1..], sep)
  }

  /** Joining with a whitespace separator keeps exactly the parts' skeletons. */
  lemma {:induction false} NonSpaceJoin(xs: seq<string>, sep: string)
    requires AllSpace(sep)
    ensures NonSpace(Join(xs, sep)) == NonSpaceAll(xs)
  {
    if |xs| == 1 {
      assert NonSpaceAll(xs) == NonSpace(xs[0]) + NonSpaceAll([]);
    } else if |xs| > 1 {
      NonSpaceJoin(xs[1..], sep);
      NonSpaceAppend(xs[0] + sep, Join(xs[1..], sep));
      NonSpaceAppend(xs[0], sep);
      NonSpaceEmpty(sep);
    }
  }

  /** Two-space runs in a concatenation come from a part or from the seam. */
  lemma NoDoubleSpaceAppend(a: string, b: string)
    requires NoDoubleSpace(a) && NoDoubleSpace(b)
    requires a == [] || b == [] || a[|a| - 1] != ' ' || b[0] != ' '
    ensures NoDoubleSpace(a + b)
  {
    var s := a + b;
    forall i | 0 <= i < |s| - 1 ensures !(s[i] == ' ' && s[i + 1] == ' ') {
      if i + 1 < |a| {
        assert s[i] == a[i] && s[i + 1] == a[i + 1];
      } else if i >= |a| {
        assert s[i] == b[i - |a|] && s[i + 1] == b[i - |a| + 1];
      }
    }
  }

  /** Python `str(n)` for a natural number: its shortest decimal numeral. */
  function NatToString(n: nat): (r: string)
    ensures r != []
    ensures forall i :: 0 <= i < |r| ==> '0' <= r[i] <= '9'
    ensures r[0] == '0' ==> r == "0"
    decreases n
  {
    if n < 10 then [Digit(n)] else NatToString(n / 10) + [Digit(n % 10)]
  }

  function Digit(d: nat): (c: char)
    requires d < 10
    ensures '0' <= c <= '9' && c as int - '0' as int == d
  {
    ('0' as int + d) as char
  }

  /** The value of a decimal numeral (the inverse of `NatToString`). */
  function ParseNat(s: string): nat
    requires forall i :: 0 <= i < |s| ==> '0' <= s[i] <= '9'
  {
    if s == [] then 0
    else 10 * ParseNat(s[..|s| - 1]) + (s[|s| - 1] as int - '0' as int)
  }

  /** `str(n)` loses nothing: reading the numeral back gives `n`. */
  lemma {:induction false} NatToStringRoundTrip(n: nat)
    ensures ParseNat(NatToString(n)) == n
    decreases n
  {
    var r := NatToString(n);
    if n >= 10 {
      NatToStringRoundTrip(n / 10);
      assert r[..|r| - 1] == NatToString(n / 10);
    }
  }

  /** Distinct numbers get distinct numerals. */
  lemma NatToStringInjective(m: nat, n: nat)
    requires NatToString(m) == NatToString(n)
    ensures m == n
  {
    NatToStringRoundTrip(m);
    NatToStringRoundTrip(n);
  }
}
