/** The JavaScript string operations the blog's scripts rely on, over `string = seq<char>`:
    `trim`, `indexOf` of one character, `includes`, `split` on a character or on `/\r?\n/`,
    `join`, and `toLowerCase` restricted to ASCII letters. */
module Strings {

  /** The characters `String.prototype.trim` removes: ECMAScript's WhiteSpace
      (tab, vertical tab, form feed, U+FEFF and every space separator) and LineTerminator
      (line feed, carriage return, U+2028, U+2029). */
  predicate IsSpace(c: char) {
    c == '\t' || c == '\n' || c == '\U{000B}' || c == '\U{000C}' || c == '\r' || c == ' ' ||
    c == '\U{00A0}' || c == '\U{1680}' || ('\U{2000}' <= c <= '\U{200A}') ||
    c == '\U{2028}' || c == '\U{2029}' || c == '\U{202F}' || c == '\U{205F}' ||
    c == '\U{3000}' || c == '\U{FEFF}'
  }

  ghost predicate AllSpace(s: string) {
    forall i :: 0 <= i < |s| ==> IsSpace(s[i])
  }

  /** Leading white space removed. */
  function TrimStart(s: string): (r: string)
    ensures |r| <= |s|
  {
    if |s| > 0 && IsSpace(s[0]) then TrimStart(s[1..]) else s
  }

  /** `TrimStart(s)` is the longest suffix of `s` not starting with white space. */
  lemma {:induction false} TrimStartSpec(s: string)
    ensures var r := TrimStart(s);
      r == s[|s| - |r|..] && AllSpace(s[..|s| - |r|]) && (r == [] || !IsSpace(r[0]))
  {
    if |s| > 0 && IsSpace(s[0]) {
      var r := TrimStart(s[1..]);
      TrimStartSpec(s[1..]);
      assert s[..|s| - |r|] == [s[0]] + s[1..][..|s| - 1 - |r|];
      assert s[1..][|s| - 1 - |r|..] == s[|s| - |r|..];
    }
  }

  /** Trailing white space removed. */
  function TrimEnd(s: string): (r: string)
    ensures |r| <= |s|
  {
    if |s| > 0 && IsSpace(s[|s| - 1]) then TrimEnd(s[..|s| - 1]) else s
  }

  /** `TrimEnd(s)` is the longest prefix of `s` not ending with white space. */
  lemma {:induction false} TrimEndSpec(s: string)
    ensures var r := TrimEnd(s);
      r == s[..|r|] && AllSpace(s[|r|..]) && (r == [] || !IsSpace(r[|r| - 1]))
  {
    if |s| > 0 && IsSpace(s[|s| - 1]) {
      var r := TrimEnd(s[..|s| - 1]);
      TrimEndSpec(s[..|s| - 1]);
      assert s[|r|..] == s[..|s| - 1][|r|..] + [s[|s| - 1]];
      assert s[..|s| - 1][..|r|] == s[..|r|];
    }
  }

  /** `s.trim()`. */
  function Trim(s: string): string {
    TrimEnd(TrimStart(s))
  }

  /** What `trim` promises: the result is a slice of `s` with only white space cut off either
      side, and it neither starts nor ends with white space. */
  lemma TrimIsInnerSlice(s: string) returns (k: nat)
    ensures k + |Trim(s)| <= |s| && Trim(s) == s[k..k + |Trim(s)|]
    ensures AllSpace(s[..k]) && AllSpace(s[k + |Trim(s)|..])
    ensures Trim(s) == [] || (!IsSpace(Trim(s)[0]) && !IsSpace(Trim(s)[|Trim(s)| - 1]))
  {
    var t := TrimStart(s);
    TrimStartSpec(s);
    k := |s| - |t|;
    TrimEndOfSuffix(s, k);
  }

  /** Trimming the end of the suffix `s[k..]` leaves a slice of `s` followed by white space. */
  lemma TrimEndOfSuffix(s: string, k: nat)
    requires k <= |s| && (s[k..] == [] || !IsSpace(s[k]))
    ensures var r := TrimEnd(s[k..]);
      k + |r| <= |s| && r == s[k..k + |r|] && AllSpace(s[k + |r|..]) &&
      (r == [] || (!IsSpace(r[0]) && !IsSpace(r[|r| - 1])))
  {
    var t := s[k..];
    var r := TrimEnd(t);
    TrimEndSpec(t);
    assert s[k..k + |r|] == t[..|r|];
    assert s[k + |r|..] == t[|r|..];
    assert r != [] ==> r[0] == t[0];
  }

  /** A string of white space trims to nothing. */
  lemma {:induction false} TrimStartAllSpace(s: string)
    requires AllSpace(s)
    ensures TrimStart(s) == [] && Trim(s) == []
  {
    if s != [] {
      assert AllSpace(s[1..]) by {
        forall i | 0 <= i < |s| - 1
          ensures IsSpace(s[1..][i])
        {
          assert s[1..][i] == s[i + 1];
        }
      }
      TrimStartAllSpace(s[1..]);
    }
  }

  /** Trimming removes characters and adds none. */
  lemma TrimKeepsOut(s: string, c: char)
    requires c !in s
    ensures c !in Trim(s)
  {
    var t := TrimStart(s);
    TrimStartSpec(s);
    TrimEndSpec(t);
    assert forall x :: x in t ==> x in s;
    assert forall x :: x in TrimEnd(t) ==> x in t;
  }

  /** Trimming twice is trimming once. */
  lemma TrimIdempotent(s: string)
    ensures Trim(Trim(s)) == Trim(s)
  {
    var r := Trim(s);
    if r != [] {
      var k := TrimIsInnerSlice(s);
      assert TrimStart(r) == r;
    }
  }

  /** `s.indexOf(c)`: the position of a `c`, or -1 when there is none. */
  function IndexOf(s: string, c: char): (r: int)
    ensures -1 <= r < |s|
    ensures r == -1 <==> c !in s
    ensures 0 <= r ==> s[r] == c
  {
    if s == [] then -1
    else if s[0] == c then 0
    else
      var k := IndexOf(s[1..], c);
      if k < 0 then -1 else k + 1
  }

  /** The position `indexOf` reports is the first one. */
  lemma {:induction false} IndexOfSpec(s: string, c: char)
    ensures 0 <= IndexOf(s, c) ==> c !in s[..IndexOf(s, c)]
  {
    if s != [] && s[0] != c {
      IndexOfSpec(s[1..], c);
      var k := IndexOf(s[1..], c);
      if k >= 0 {
        assert s[..k + 1] == [s[0]] + s[1..][..k];
      }
    }
  }

  /** A position holding `c` with no `c` before it is the one `indexOf` reports. */
  lemma {:induction false} IndexOfAt(s: string, c: char, k: nat)
    requires k < |s| && s[k] == c && c !in s[..k]
    ensures IndexOf(s, c) == k
    decreases k
  {
    if k > 0 {
      assert s[0] == s[..k][0];
      assert s[1..][..k - 1] == s[..k][1..];
      IndexOfAt(s[1..], c, k - 1);
    }
  }

  /** The first occurrence of `c` in `before + [c] + after`, when `before` has none, is at `|before|`. */
  lemma IndexOfFirst(before: string, c: char, after: string)
    requires c !in before
    ensures IndexOf(before + [c] + after, c) == |before|
  {
    var s := before + [c] + after;
    IndexOfSpec(s, c);
    assert s[|before|] == c;
    assert s[..|before|] == before;
  }

  /** `needle` occurs in `hay` at position `i`. */
  ghost predicate OccursAt(needle: string, hay: string, i: int) {
    0 <= i && i + |needle| <= |hay| && hay[i..i + |needle|] == needle
  }

  /** `hay.includes(needle)`: some position of `hay` starts a copy of `needle`. */
  function Contains(hay: string, needle: string): (r: bool)
    ensures r <==> exists i :: OccursAt(needle, hay, i)
    decreases |hay|
  {
    if needle <= hay then
      assert OccursAt(needle, hay, 0);
      true
    else if hay == [] then
      assert forall i :: !OccursAt(needle, hay, i);
      false
    else
      var rest := Contains(hay[1..], needle);
      if rest then
        assert exists i :: OccursAt(needle, hay, i) by {
          var i :| OccursAt(needle, hay[1..], i);
          assert hay[i + 1..i + 1 + |needle|] == hay[1..][i..i + |needle|];
          assert OccursAt(needle, hay, i + 1);
        }
        true
      else
        assert !OccursAt(needle, hay, 0);
        assert forall i :: 0 < i && OccursAt(needle, hay, i) ==> OccursAt(needle, hay[1..], i - 1) by {
          forall i | 0 < i && OccursAt(needle, hay, i)
            ensures OccursAt(needle, hay[1..], i - 1)
          {
            assert hay[1..][i - 1..i - 1 + |needle|] == hay[i..i + |needle|];
          }
        }
        false
  }

  /** ASCII case mapping of one character. */
  function LowerChar(c: char): char {
    if 'A' <= c <= 'Z' then (c as int + 32) as char else c
  }

  /** No upper-case ASCII letter survives the case mapping. */
  lemma LowerCharNotUpper(c: char)
    ensures !('A' <= LowerChar(c) <= 'Z')
  {
  }

  /** `s.toLowerCase()` on ASCII letters; every other character is kept. */
  function Lower(s: string): (r: string)
    ensures |r| == |s|
    ensures forall i :: 0 <= i < |s| ==> r[i] == LowerChar(s[i])
  {
    seq(|s|, i requires 0 <= i < |s| => LowerChar(s[i]))
  }

  /** Lowercasing twice is lowercasing once. */
  lemma LowerIdempotent(s: string)
    ensures Lower(Lower(s)) == Lower(s)
  {
  }

  lemma LowerCharSpace(c: char)
    ensures IsSpace(LowerChar(c)) == IsSpace(c)
  {
  }

  /** Lowercasing and trimming commute (no ASCII letter is white space). */
  lemma {:induction false} LowerTrimCommute(s: string)
    ensures Trim(Lower(s)) == Lower(Trim(s))
  {
    LowerTrimStart(s);
    LowerTrimEnd(TrimStart(s));
  }

  lemma {:induction false} LowerTrimStart(s: string)
    ensures TrimStart(Lower(s)) == Lower(TrimStart(s))
  {
    if |s| > 0 {
      var l := Lower(s);
      assert l[0] == LowerChar(s[0]);
      LowerCharSpace(s[0]);
      if IsSpace(s[0]) {
        assert l[1..] == Lower(s[1..]);
        LowerTrimStart(s[1..]);
      }
    }
  }

  lemma {:induction false} LowerTrimEnd(s: string)
    ensures TrimEnd(Lower(s)) == Lower(TrimEnd(s))
  {
    if |s| > 0 {
      var l := Lower(s);
      assert l[|s| - 1] == LowerChar(s[|s| - 1]);
      LowerCharSpace(s[|s| - 1]);
      if IsSpace(s[|s| - 1]) {
        assert l[..|s| - 1] == Lower(s[..|s| - 1]);
        LowerTrimEnd(s[..|s| - 1]);
      }
    }
  }

  /** `parts.join(sep)`. */
  function Join(parts: seq<string>, sep: string): string {
    if |parts| == 0 then ""
    else if |parts| == 1 then parts[0]
    else parts[0] + sep + Join(parts[1..], sep)
  }

  /** `s.split(sep)` for a one-character separator: never empty. */
  function SplitOn(s: string, sep: char): (r: seq<string>)
    ensures |r| >= 1
    decreases |s|
  {
    var k := IndexOf(s, sep);
    if k < 0 then [s] else [s[..k]] + SplitOn(s[k + 1..], sep)
  }

  /** No piece of `s.split(sep)` holds `sep`. */
  lemma {:induction false} SplitOnPieces(s: string, sep: char)
    ensures forall i :: 0 <= i < |SplitOn(s, sep)| ==> sep !in SplitOn(s, sep)[i]
    decreases |s|
  {
    var k := IndexOf(s, sep);
    if k >= 0 {
      IndexOfSpec(s, sep);
      SplitOnPieces(s[k + 1..], sep);
      var rest := SplitOn(s[k + 1..], sep);
      assert SplitOn(s, sep) == [s[..k]] + rest;
    }
  }

  /** Splitting on a character and joining with it gives back the string. */
  lemma {:induction false} JoinSplitOn(s: string, sep: char)
    ensures Join(SplitOn(s, sep), [sep]) == s
    decreases |s|
  {
    var k := IndexOf(s, sep);
    if k >= 0 {
      var head, tail := s[..k], s[k + 1..];
      var rest := SplitOn(tail, sep);
      JoinSplitOn(tail, sep);
      JoinCons(head, rest, [sep]);
      assert s == head + [sep] + tail;
    }
  }

  lemma JoinCons(x: string, rest: seq<string>, sep: string)
    requires |rest| >= 1
    ensures Join([x] + rest, sep) == x + sep + Join(rest, sep)
  {
    assert ([x] + rest)[1..] == rest;
  }

  /** Number of occurrences of `c` in `s`. */
  function CountChar(s: string, c: char): nat {
    if s == [] then 0 else (if s[0] == c then 1 else 0) + CountChar(s[1..], c)
  }

  lemma {:induction false} CountCharAppend(a: string, b: string, c: char)
    ensures CountChar(a + b, c) == CountChar(a, c) + CountChar(b, c)
  {
    if a == [] {
      assert a + b == b;
    } else {
      assert (a + b)[0] == a[0];
      assert (a + b)[1..] == a[1..] + b;
      CountCharAppend(a[1..], b, c);
    }
  }

  lemma {:induction false} CountCharAbsent(s: string, c: char)
    requires c !in s
    ensures CountChar(s, c) == 0
  {
    if s != [] {
      CountCharAbsent(s[1..], c);
    }
  }

  /** Drops one trailing carriage return. */
  function DropCr(line: string): string {
    if |line| > 0 && line[|line| - 1] == '\r' then line[..|line| - 1] else line
  }

  /** `s.split(/\r?\n/)`: a separator is a line feed together with the carriage return right
      before it, if any; the last piece keeps a trailing carriage return. */
  function SplitLines(s: string): (r: seq<string>)
    ensures |r| >= 1
    decreases |s|
  {
    var k := IndexOf(s, '\n');
    if k < 0 then [s] else [DropCr(s[..k])] + SplitLines(s[k + 1..])
  }

  /** No line holds a line feed. */
  lemma {:induction false} SplitLinesPieces(s: string)
    ensures forall i :: 0 <= i < |SplitLines(s)| ==> '\n' !in SplitLines(s)[i]
    decreases |s|
  {
    var k := IndexOf(s, '\n');
    if k >= 0 {
      IndexOfSpec(s, '\n');
      SplitLinesAt(s, k);
      SplitLinesPieces(s[k + 1..]);
      DropCrKeepsOut(s[..k], '\n');
      var rest := SplitLines(s[k + 1..]);
      forall i | 0 <= i < |SplitLines(s)|
        ensures '\n' !in SplitLines(s)[i]
      {
        if i > 0 {
          assert SplitLines(s)[i] == rest[i - 1];
        }
      }
    }
  }

  /** Dropping a carriage return adds no character. */
  lemma DropCrKeepsOut(line: string, c: char)
    requires c !in line
    ensures c !in DropCr(line)
  {
    if |line| > 0 && line[|line| - 1] == '\r' {
      assert forall j :: 0 <= j < |line| - 1 ==> line[..|line| - 1][j] == line[j];
    }
  }

  /** There is one more line than there are line feeds. */
  lemma {:induction false} SplitLinesCount(s: string)
    ensures |SplitLines(s)| == CountChar(s, '\n') + 1
    decreases |s|
  {
    var k := IndexOf(s, '\n');
    if k < 0 {
      CountCharAbsent(s, '\n');
    } else {
      SplitLinesCount(s[k + 1..]);
      IndexOfSpec(s, '\n');
      assert s == s[..k] + ([s[k]] + s[k + 1..]);
      CountCharAppend(s[..k], [s[k]] + s[k + 1..], '\n');
      CountCharAbsent(s[..k], '\n');
    }
  }

  /** Splitting at the first line feed: the line before it, without its carriage return,
      then the lines after it. */
  lemma SplitLinesAt(s: string, k: nat)
    requires k < |s| && s[k] == '\n' && '\n' !in s[..k]
    ensures SplitLines(s) == [DropCr(s[..k])] + SplitLines(s[k + 1..])
  {
    IndexOfAt(s, '\n', k);
  }

  /** A carriage return right before a line feed belongs to the separator: a CRLF line
      ending yields the line without it. */
  lemma SplitLinesCrLf(a: string, b: string)
    requires '\n' !in a
    ensures SplitLines(a + ['\r', '\n'] + b) == [a] + SplitLines(b)
  {
    var s := a + ['\r', '\n'] + b;
    var line := a + ['\r'];
    assert s == line + ['\n'] + b;
    assert s[..|a| + 1] == line && s[|a| + 2..] == b;
    SplitLinesAt(s, |a| + 1);
    assert line[..|line| - 1] == a;
  }

  /** Without carriage returns, splitting on `/\r?\n/` is splitting on the line feed. */
  lemma {:induction false} SplitLinesWithoutCr(s: string)
    requires '\r' !in s
    ensures SplitLines(s) == SplitOn(s, '\n')
    decreases |s|
  {
    var k := IndexOf(s, '\n');
    if k >= 0 {
      SplitLinesWithoutCr(s[k + 1..]);
      assert k == 0 || s[..k][k - 1] == s[k - 1];
    }
  }
}
