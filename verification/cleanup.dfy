/** The whitespace clean-up applied to a page's text before it is stored as
    `content`: split into lines, strip each line, split each line on the
    two-space string, strip each piece, drop the empty pieces, and join what is
    left with single spaces. */
module Cleanup {
  import opened Strings
  import opened Seqs

  /** Index of the first line boundary in `s`, or `|s|` when there is none. */
  function FirstBreak(s: string): (i: nat)
    ensures i <= |s|
    ensures NoLineBreak(s[..i])
    ensures i < |s| ==> IsLineBreak(s[i])
  {
    if s == [] || IsLineBreak(s[0]) then 0
    else
      var j := FirstBreak(s[1..]);
      assert s[..1 + j] == [s[0]] + s[1..][..j];
      1 + j
  }

  /** Python `str.splitlines()`: the text between line boundaries, where "\r\n"
      counts as one boundary and a final boundary opens no further line. */
  function SplitLines(s: string): (lines: seq<string>)
    ensures forall l :: l in lines ==> NoLineBreak(l)
    ensures lines == [] <==> s == []
    ensures NoLineBreak(s) && s != [] ==> lines == [s]
    ensures NonSpaceAll(lines) == NonSpace(s)
    decreases |s|
  {
    if s == [] then []
    else
      var i := FirstBreak(s);
      if i == |s| then
        assert s[..i] == s;
        assert NonSpaceAll([s]) == NonSpace(s) + NonSpaceAll([]);
        [s]
      else
        var w := if s[i] == '\r' && i + 1 < |s| && s[i + 1] == '\n' then 2 else 1;
        var rest := SplitLines(s[i + w..]);
        BreakSkeleton(s, i, w);
        assert ([s[..i]] + rest)[1..] == rest;
        [s[..i]] + rest
  }

  /** Cutting a string at a run of line-break characters loses no skeleton. */
  lemma BreakSkeleton(s: string, i: nat, w: nat)
    requires i + w <= |s|
    requires forall j :: i <= j < i + w ==> IsLineBreak(s[j])
    ensures NonSpace(s) == NonSpace(s[..i]) + NonSpace(s[i + w..])
  {
    assert NonSpace(s[i..i + w]) == [] by {
      BreaksAreSpace(s, i, w);
      NonSpaceEmpty(s[i..i + w]);
    }
    CutSkeleton(s, i, w);
  }

  /** Cutting out a piece without skeleton loses no skeleton. */
  lemma CutSkeleton(s: string, i: nat, w: nat)
    requires i + w <= |s|
    requires NonSpace(s[i..i + w]) == []
    ensures NonSpace(s) == NonSpace(s[..i]) + NonSpace(s[i + w..])
  {
    var u := s[i..];
    assert NonSpace(u) == NonSpace(s[i + w..]) by {
      NonSpaceSplit(u, w);
      assert u[..w] == s[i..i + w];
      assert u[w..] == s[i + w..];
    }
    NonSpaceSplit(s, i);
  }

  lemma BreaksAreSpace(s: string, i: nat, w: nat)
    requires i + w <= |s|
    requires forall j :: i <= j < i + w ==> IsLineBreak(s[j])
    ensures AllSpace(s[i..i + w])
  {
    var b := s[i..i + w];
    forall j | 0 <= j < |b| ensures IsSpace(b[j]) {
      assert b[j] == s[i + j];
      assert IsLineBreak(s[i + j]);
    }
  }

  /** A break-free prefix ended by a boundary character is where the first
      boundary is. */
  lemma FirstBreakIs(s: string, k: nat)
    requires k < |s| && NoLineBreak(s[..k]) && IsLineBreak(s[k])
    ensures FirstBreak(s) == k
  {
  }

  /** `splitlines()` cuts at the first boundary character: the text before it
      is the first line, and the lines after it are those of the rest. */
  lemma SplitLinesCut(a: string, c: char, b: string)
    requires NoLineBreak(a) && IsLineBreak(c)
    requires c == '\r' ==> b == [] || b[0] != '\n'
    ensures SplitLines(a + [c] + b) == [a] + SplitLines(b)
  {
    var s := a + [c] + b;
    assert s[..|a|] == a && s[|a|] == c;
    FirstBreakIs(s, |a|);
    assert s[|a| + 1..] == b;
  }

  /** A "\r\n" pair is a single boundary: it ends one line and opens no empty
      line of its own. */
  lemma SplitLinesCrlf(a: string, b: string)
    requires NoLineBreak(a)
    ensures SplitLines(a + "\r\n" + b) == [a] + SplitLines(b)
  {
    var s := a + "\r\n" + b;
    assert s[..|a|] == a && s[|a|] == '\r' && s[|a| + 1] == '\n';
    FirstBreakIs(s, |a|);
    assert s[|a| + 2..] == b;
  }

  /** The inverse direction: a text whose only line boundaries are "\n" and
      that does not end with one is restored by joining its lines with "\n". */
  lemma {:induction false} SplitLinesJoin(s: string)
    requires forall k :: 0 <= k < |s| && IsLineBreak(s[k]) ==> s[k] == '\n'
    requires s == [] || s[|s| - 1] != '\n'
    ensures Join(SplitLines(s), "\n") == s
    decreases |s|
  {
    if s != [] {
      var i := FirstBreak(s);
      if i < |s| {
        var a := s[..i];
        var b := s[i + 1..];
        assert s == a + ['\n'] + b;
        SplitLinesCut(a, '\n', b);
        assert b != [] && b[|b| - 1] == s[|s| - 1];
        assert forall k :: 0 <= k < |b| ==> b[k] == s[i + 1 + k];
        SplitLinesJoin(b);
        var lines := SplitLines(b);
        assert ([a] + lines)[1..] == lines;
      }
    }
  }

  /** Index of the first occurrence of the two-space string in `s`, or `|s|`
      when there is none. */
  function FirstDouble(s: string): (i: nat)
    ensures i <= |s|
    ensures i < |s| ==> i + 1 < |s| && s[i] == ' ' && s[i + 1] == ' '
    ensures NoDoubleSpace(s[..i])
    ensures forall j :: 0 <= j < i && j + 1 < |s| ==> !(s[j] == ' ' && s[j + 1] == ' ')
  {
    if |s| < 2 then |s|
    else if s[0] == ' ' && s[1] == ' ' then 0
    else
      var j := FirstDouble(s[1..]);
      assert forall k :: 0 < k < 1 + j && k + 1 < |s| ==> s[k] == s[1..][k - 1] && s[k + 1] == s[1..][k];
      assert forall k :: 0 <= k < 1 + j ==> s[..1 + j][k] == s[k];
      1 + j
  }

  /** Python `s.split("  ")`: the pieces between the non-overlapping
      occurrences of the two-space string, found from left to right. */
  function SplitDouble(s: string): (pieces: seq<string>)
    ensures |pieces| >= 1
    ensures Join(pieces, "  ") == s
    ensures forall p :: p in pieces ==> NoDoubleSpace(p)
    decreases |s|
  {
    var i := FirstDouble(s);
    if i == |s| then
      assert s[..i] == s;
      [s]
    else
      var rest := SplitDouble(s[i + 2..]);
      assert ([s[..i]] + rest)[1..] == rest;
      assert s == s[..i] + "  " + s[i + 2..];
      [s[..i]] + rest
  }

  /** Splitting a single line gives single lines. */
  lemma {:induction false} SplitDoubleKeepsLines(s: string)
    requires NoLineBreak(s)
    ensures forall p :: p in SplitDouble(s) ==> NoLineBreak(p)
    decreases |s|
  {
    var i := FirstDouble(s);
    if i < |s| {
      InfixKeepsShape(s, 0, s[..i]);
      InfixKeepsShape(s, i + 2, s[i + 2..]);
      SplitDoubleKeepsLines(s[i + 2..]);
      assert SplitDouble(s) == [s[..i]] + SplitDouble(s[i + 2..]);
    }
  }

  /** A string without the two-space string is one piece. */
  lemma SplitDoubleWhole(s: string)
    requires NoDoubleSpace(s)
    ensures SplitDouble(s) == [s]
  {
    var i := FirstDouble(s);
    if i < |s| {
      assert false;
    }
  }

  /** `split("  ")` cuts at the leftmost two-space occurrence: a prefix holding
      none (and not ending in a space, so no occurrence straddles its end) is
      the first piece, and the pieces after it are those of the rest. */
  lemma SplitDoubleCut(a: string, b: string)
    requires NoDoubleSpace(a) && (a == [] || a[|a| - 1] != ' ')
    ensures SplitDouble(a + "  " + b) == [a] + SplitDouble(b)
  {
    var s := a + "  " + b;
    assert forall j :: 0 <= j < |a| ==> s[j] == a[j];
    assert s[|a|] == ' ' && s[|a| + 1] == ' ';
    assert FirstDouble(s) == |a|;
    assert s[..|a|] == a && s[|a| + 2..] == b;
  }

  /** Strips every string of `xs` (the two `strip()` generators). */
  function StripEach(xs: seq<string>): (ys: seq<string>)
    ensures |ys| == |xs|
    ensures forall y :: y in ys ==> Stripped(y)
    ensures NonSpaceAll(ys) == NonSpaceAll(xs)
    ensures (forall x :: x in xs ==> NoLineBreak(x)) ==> forall y :: y in ys ==> NoLineBreak(y)
    ensures (forall x :: x in xs ==> NoDoubleSpace(x)) ==> forall y :: y in ys ==> NoDoubleSpace(y)
  {
    if xs == [] then []
    else
      var rest := StripEach(xs[1..]);
      StripKeepsShape(xs[0]);
      assert ([Strip(xs[0])] + rest)[1..] == rest;
      assert forall x :: x in xs[1..] ==> x in xs;
      [Strip(xs[0])] + rest
  }

  /** Line `i` of the result is line `i` of the input, stripped. */
  lemma {:induction false} StripEachAt(xs: seq<string>, i: nat)
    requires i < |xs|
    ensures StripEach(xs)[i] == Strip(xs[i])
  {
    var rest := StripEach(xs[1..]);
    assert StripEach(xs) == [Strip(xs[0])] + rest by {
      StripEachCons(xs[0], xs[1..]);
      SplitHead(xs, []);
    }
    if i > 0 {
      var x := xs[1..][i - 1];
      assert x == xs[i];
      assert rest[i - 1] == Strip(x) by {
        StripEachAt(xs[1..], i - 1);
      }
    }
  }

  /** The first element is stripped ahead of the others. */
  lemma StripEachCons(x: string, rest: seq<string>)
    ensures StripEach([x] + rest) == [Strip(x)] + StripEach(rest)
  {
    assert ([x] + rest)[0] == x && ([x] + rest)[1..] == rest;
  }

  /** Splits every line on the two-space string and flattens the pieces. */
  function SplitEach(lines: seq<string>): (pieces: seq<string>)
    ensures forall p :: p in pieces ==> NoDoubleSpace(p)
    ensures (forall l :: l in lines ==> NoLineBreak(l)) ==> forall p :: p in pieces ==> NoLineBreak(p)
    ensures NonSpaceAll(pieces) == NonSpaceAll(lines)
  {
    if lines == [] then []
    else
      var first := SplitDouble(lines[0]);
      var rest := SplitEach(lines[1..]);
      assert NoLineBreak(lines[0]) ==> forall p :: p in first ==> NoLineBreak(p) by {
        if NoLineBreak(lines[0]) {
          SplitDoubleKeepsLines(lines[0]);
        }
      }
      assert forall l :: l in lines[1..] ==> l in lines;
      NonSpaceAllAppend(first, rest);
      NonSpaceJoin(first, "  ");
      first + rest
  }

  /** Each line contributes its own pieces, in order. */
  lemma {:induction false} SplitEachAppend(a: seq<string>, b: seq<string>)
    ensures SplitEach(a + b) == SplitEach(a) + SplitEach(b)
    decreases |a|
  {
    if a != [] {
      var first := SplitDouble(a[0]);
      var pa := SplitEach(a[1..]);
      var pb := SplitEach(b);
      assert SplitEach(a + b) == first + (pa + pb) by {
        SplitHead(a, b);
        SplitEachCons(a[0], a[1..] + b);
        SplitEachAppend(a[1..], b);
      }
      assert SplitEach(a) == first + pa by {
        SplitHead(a, b);
        SplitEachCons(a[0], a[1..]);
      }
      AppendAssoc(first, pa, pb);
    } else {
      assert a + b == b;
    }
  }

  /** The first line's pieces come ahead of those of the other lines. */
  lemma SplitEachCons(line: string, rest: seq<string>)
    ensures SplitEach([line] + rest) == SplitDouble(line) + SplitEach(rest)
  {
    assert ([line] + rest)[0] == line && ([line] + rest)[1..] == rest;
  }

  /** A single line splits exactly at its double spaces. */
  lemma SplitEachOne(line: string)
    ensures SplitEach([line]) == SplitDouble(line)
  {
    assert SplitEach([line]) == SplitDouble(line) + SplitEach([]);
  }

  /** Keeps the non-empty strings of `xs`, in order. */
  function DropEmpty(xs: seq<string>): (ys: seq<string>)
    ensures |ys| <= |xs|
    ensures forall y :: y in ys ==> y != [] && y in xs
    ensures forall x :: x in xs && x != [] ==> x in ys
    ensures NonSpaceAll(ys) == NonSpaceAll(xs)
  {
    if xs == [] then []
    else
      var rest := DropEmpty(xs[1..]);
      assert forall y :: y in rest ==> y in xs;
      if xs[0] == [] then rest
      else
        assert ([xs[0]] + rest)[1..] == rest;
        [xs[0]] + rest
  }

  /** Dropping empties works piecewise: order is kept across a split. */
  lemma {:induction false} DropEmptyAppend(a: seq<string>, b: seq<string>)
    ensures DropEmpty(a + b) == DropEmpty(a) + DropEmpty(b)
    decreases |a|
  {
    if a != [] {
      assert (a + b)[0] == a[0] && (a + b)[1..] == a[1..] + b;
      DropEmptyAppend(a[1..], b);
    } else {
      assert a + b == b;
    }
  }

  /** The clean-up of a page's text (the three statements that rebind `text`). */
  function Clean(text: string): string
  {
    Join(DropEmpty(StripEach(SplitEach(StripEach(SplitLines(text))))), " ")
  }

  /** Joining non-empty, stripped, single-line pieces with single spaces gives a
      stripped single line without a two-space run. */
  lemma {:induction false} JoinWithSpaceShape(xs: seq<string>)
    requires forall x :: x in xs ==> x != [] && Stripped(x) && NoLineBreak(x) && NoDoubleSpace(x)
    ensures var r := Join(xs, " ");
      && Stripped(r) && NoLineBreak(r) && NoDoubleSpace(r) && (xs != [] ==> r != [])
  {
    if |xs| > 1 {
      var x, j := xs[0], Join(xs[1..], " ");
      assert forall y :: y in xs[1..] ==> y in xs;
      JoinWithSpaceShape(xs[1..]);
      assert x in xs;
      NoDoubleSpaceAppend(x, " ");
      NoDoubleSpaceAppend(x + " ", j);
      var r := x + " " + j;
      assert r[0] == x[0] && r[|r| - 1] == j[|j| - 1];
      assert NoLineBreak(r) by {
        forall i | 0 <= i < |r| ensures !IsLineBreak(r[i]) {
          if i < |x| { assert r[i] == x[i]; }
          else if i > |x| { assert r[i] == j[i - |x| - 1]; }
        }
      }
    } else if |xs| == 1 {
      assert xs[0] in xs;
    }
  }

  /** The cleaned content never starts or ends with whitespace, holds no line
      break, and never holds two consecutive spaces. */
  lemma CleanShape(text: string)
    ensures Stripped(Clean(text))
    ensures NoLineBreak(Clean(text))
    ensures NoDoubleSpace(Clean(text))
  {
    var lines := StripEach(SplitLines(text));
    var chunks := StripEach(SplitEach(lines));
    var kept := DropEmpty(chunks);
    JoinWithSpaceShape(kept);
  }

  /** The clean-up only rearranges whitespace: the non-whitespace characters of
      the content are those of the text, in the same order. */
  lemma CleanKeepsSkeleton(text: string)
    ensures NonSpace(Clean(text)) == NonSpace(text)
  {
    var kept := DropEmpty(StripEach(SplitEach(StripEach(SplitLines(text)))));
    NonSpaceJoin(kept, " ");
  }

  /** The content is empty exactly when the text is all whitespace. */
  lemma CleanEmptyIff(text: string)
    ensures Clean(text) == [] <==> AllSpace(text)
  {
    var r := Clean(text);
    CleanKeepsSkeleton(text);
    CleanShape(text);
    NonSpaceEmpty(text);
    NonSpaceEmpty(r);
  }

  /** Cleaning cleaned content changes nothing. */
  lemma CleanIdempotent(text: string)
    ensures Clean(Clean(text)) == Clean(text)
  {
    CleanShape(text);
    CleanFixes(Clean(text));
  }

  /** Text that is already in cleaned shape (stripped, one line, no double
      space) passes through unchanged. */
  lemma CleanFixes(r: string)
    requires Stripped(r) && NoLineBreak(r) && NoDoubleSpace(r)
    ensures Clean(r) == r
  {
    if r != [] {
      StripKeepsShape(r);
      assert SplitLines(r) == [r];
      assert StripEach([r]) == [r];
      SplitDoubleWhole(r);
      assert SplitEach([r]) == SplitDouble(r) + SplitEach([]);
      assert StripEach(SplitEach([r])) == [r];
      assert DropEmpty([r]) == [r] + DropEmpty([]);
    }
  }

  /** A line break between two clean phrases becomes one space: the clean-up
      keeps the words of different lines apart. */
  lemma CleanSeparatesLines(a: string, b: string)
    requires a != [] && b != []
    requires Stripped(a) && NoLineBreak(a) && NoDoubleSpace(a)
    requires Stripped(b) && NoLineBreak(b) && NoDoubleSpace(b)
    ensures Clean(a + "\n" + b) == a + " " + b
  {
    assert a + "\n" + b == a + ['\n'] + b;
    SplitLinesCut(a, '\n', b);
    assert SplitLines(a + "\n" + b) == [a, b];
    CleanPair(a, b);
  }

  /** A two-space run between two clean phrases becomes one space. */
  lemma CleanSeparatesDouble(a: string, b: string)
    requires a != [] && b != []
    requires Stripped(a) && NoLineBreak(a) && NoDoubleSpace(a)
    requires Stripped(b) && NoLineBreak(b) && NoDoubleSpace(b)
    ensures Clean(a + "  " + b) == a + " " + b
  {
    var s := a + "  " + b;
    assert NoLineBreak(s) by {
      forall i | 0 <= i < |s| ensures !IsLineBreak(s[i]) {
        if i < |a| {
          assert s[i] == a[i];
        } else if i >= |a| + 2 {
          assert s[i] == b[i - |a| - 2];
        }
      }
    }
    assert SplitLines(s) == [s];
    assert s[0] == a[0] && s[|s| - 1] == b[|b| - 1];
    StripKeepsShape(s);
    StripEachCons(s, []);
    assert StripEach([s]) == [s];
    SplitDoubleCut(a, b);
    SplitDoubleWhole(b);
    SplitEachOne(s);
    assert SplitEach([s]) == [a, b];
    StripPair(a, b);
    DropJoinPair(a, b);
  }

  /** The tail of the clean-up when the lines are exactly two clean phrases. */
  lemma CleanPair(a: string, b: string)
    requires a != [] && b != []
    requires Stripped(a) && NoLineBreak(a) && NoDoubleSpace(a)
    requires Stripped(b) && NoLineBreak(b) && NoDoubleSpace(b)
    ensures Join(DropEmpty(StripEach(SplitEach(StripEach([a, b])))), " ") == a + " " + b
  {
    StripPair(a, b);
    SplitEachCons(a, [b]);
    SplitEachOne(b);
    SplitDoubleWhole(a);
    SplitDoubleWhole(b);
    assert SplitEach([a, b]) == [a, b];
    DropJoinPair(a, b);
  }

  lemma StripPair(a: string, b: string)
    requires Stripped(a) && Stripped(b)
    ensures StripEach([a, b]) == [a, b]
  {
    StripKeepsShape(a);
    StripKeepsShape(b);
    StripEachCons(a, [b]);
    StripEachCons(b, []);
  }

  lemma DropJoinPair(a: string, b: string)
    requires a != [] && b != []
    ensures Join(DropEmpty([a, b]), " ") == a + " " + b
  {
    assert DropEmpty([a, b]) == [a] + DropEmpty([b]);
    assert DropEmpty([b]) == [b] + DropEmpty([]);
    assert Join([a, b], " ") == a + " " + Join([b], " ");
  }
}
