/**
  The handful of Python `str` operations the notation parser is built from:
  `find` and `rfind` of one character, slicing with Python's treatment of
  negative and out-of-range bounds, `strip` (of spaces, or of whitespace) and
  `split` on one character.
 */
module PyText {

  /** The characters Python's `str.strip()` removes when called without an argument. */
  const Whitespace: set<char> := {
    ' ', '\t', '\n', '\r', '\U{B}', '\U{C}', '\U{1C}', '\U{1D}', '\U{1E}', '\U{1F}',
    '\U{85}', '\U{A0}', '\U{1680}', '\U{2000}', '\U{2001}', '\U{2002}', '\U{2003}',
    '\U{2004}', '\U{2005}', '\U{2006}', '\U{2007}', '\U{2008}', '\U{2009}', '\U{200A}',
    '\U{2028}', '\U{2029}', '\U{202F}', '\U{205F}', '\U{3000}'
  }

  /** What `strip(" ")` removes. */
  const Spaces: set<char> := {' '}

  /** `s.find(c)`: the index of the first `c` in `s`, or -1 when there is none. */
  function Find(s: string, c: char): (r: int)
    ensures -1 <= r < |s|
    ensures r == -1 <==> c !in s
    ensures r >= 0 ==> s[r] == c && c !in s[..r]
  {
    if |s| == 0 then -1
    else if s[0] == c then 0
    else
      var k := Find(s[1..], c);
      if k == -1 then -1
      else
        assert s[..k + 1] == [s[0]] + s[1..][..k];
        k + 1
  }

  /** `s.rfind(c)`: the index of the last `c` in `s`, or -1 when there is none. */
  function RFind(s: string, c: char): (r: int)
    ensures -1 <= r < |s|
    ensures r == -1 <==> c !in s
    ensures r >= 0 ==> s[r] == c && c !in s[r + 1..]
  {
    if |s| == 0 then -1
    else if s[|s| - 1] == c then |s| - 1
    else
      var t := s[..|s| - 1];
      var k := RFind(t, c);
      assert s == t + [s[|s| - 1]];
      if k == -1 then -1
      else
        assert s[k + 1..] == t[k + 1..] + [s[|s| - 1]];
        k
  }

  /** `find` is pinned down by its contract: the first occurrence is the only index it can return. */
  lemma FindUnique(s: string, c: char, k: nat)
    requires k < |s| && s[k] == c && c !in s[..k]
    ensures Find(s, c) == k
  {
    forall i | 0 <= i < k ensures s[i] != c { assert s[i] == s[..k][i]; }
    var r := Find(s, c);
    forall i | 0 <= i < r ensures s[i] != c { assert s[i] == s[..r][i]; }
  }

  /** Likewise the last occurrence is the only index `rfind` can return. */
  lemma RFindUnique(s: string, c: char, k: nat)
    requires k < |s| && s[k] == c && c !in s[k + 1..]
    ensures RFind(s, c) == k
  {
    forall i | k < i < |s| ensures s[i] != c { assert s[i] == s[k + 1..][i - k - 1]; }
    var r := RFind(s, c);
    forall i | r < i < |s| ensures s[i] != c { assert s[i] == s[r + 1..][i - r - 1]; }
  }

  /** How Python turns a slice bound into a position in a string of length `n`. */
  function Bound(i: int, n: nat): (r: nat)
    ensures r <= n
  {
    if i < 0 then (if i + n < 0 then 0 else i + n)
    else if i > n then n
    else i
  }

  /** `s[i:j]` with Python's semantics: negative bounds count from the end, bounds are clipped, an empty range is "". */
  function Slice(s: string, i: int, j: int): (r: string)
    ensures |r| <= |s|
    ensures 0 <= i <= j <= |s| ==> r == s[i..j]
  {
    var a, b := Bound(i, |s|), Bound(j, |s|);
    if b <= a then "" else s[a..b]
  }

  /** `s.lstrip(cs)` */
  function StripStart(s: string, cs: set<char>): (r: string)
    ensures |r| <= |s|
  {
    if |s| > 0 && s[0] in cs then StripStart(s[1..], cs) else s
  }

  /** `s.rstrip(cs)` */
  function StripEnd(s: string, cs: set<char>): (r: string)
    ensures |r| <= |s|
  {
    if |s| > 0 && s[|s| - 1] in cs then StripEnd(s[..|s| - 1], cs) else s
  }

  /** `lstrip` removes the longest prefix of characters in `cs`. */
  lemma {:induction false} StripStartSpec(s: string, cs: set<char>)
    ensures var r := StripStart(s, cs);
            && r == s[|s| - |r|..]
            && (r == [] || r[0] !in cs)
            && (forall i :: 0 <= i < |s| - |r| ==> s[i] in cs)
  {
    if |s| > 0 && s[0] in cs {
      StripStartSpec(s[1..], cs);
      var r := StripStart(s, cs);
      forall i | 0 <= i < |s| - |r| ensures s[i] in cs {
        if i > 0 { assert s[i] == s[1..][i - 1]; }
      }
    }
  }

  /** `rstrip` removes the longest suffix of characters in `cs`. */
  lemma {:induction false} StripEndSpec(s: string, cs: set<char>)
    ensures var r := StripEnd(s, cs);
            && r == s[..|r|]
            && (r == [] || r[|r| - 1] !in cs)
            && (forall i :: |r| <= i < |s| ==> s[i] in cs)
  {
    if |s| > 0 && s[|s| - 1] in cs {
      StripEndSpec(s[..|s| - 1], cs);
      var r := StripEnd(s, cs);
      forall i | |r| <= i < |s| ensures s[i] in cs {
        if i < |s| - 1 { assert s[i] == s[..|s| - 1][i]; }
      }
    }
  }

  /** `s.strip(cs)`: both ends cleared of the characters in `cs`. */
  function Strip(s: string, cs: set<char>): (r: string)
  {
    StripEnd(StripStart(s, cs), cs)
  }

  /** What `strip` leaves is a piece of its input, cut between characters of `cs`, with neither end in `cs`. */
  lemma StripShape(s: string, cs: set<char>)
    ensures var r := Strip(s, cs);
            var a := |s| - |StripStart(s, cs)|;
            && a + |r| <= |s|
            && r == s[a..a + |r|]
            && (r == [] || (r[0] !in cs && r[|r| - 1] !in cs))
            && (forall i :: 0 <= i < a ==> s[i] in cs)
            && (forall i :: a + |r| <= i < |s| ==> s[i] in cs)
  {
    var t := StripStart(s, cs);
    var r := StripEnd(t, cs);
    var a := |s| - |t|;
    StripStartSpec(s, cs);
    StripEndSpec(t, cs);
    forall i | a + |r| <= i < |s| ensures s[i] in cs {
      assert s[i] == t[i - a];
    }
  }

  /** A string whose ends are not in `cs` is left alone by `strip`. */
  lemma StripNoop(s: string, cs: set<char>)
    requires s == [] || (s[0] !in cs && s[|s| - 1] !in cs)
    ensures Strip(s, cs) == s
  {
    assert StripStart(s, cs) == s;
  }

  /** `strip` leaves nothing exactly when every character is one it strips. */
  lemma StripEmpty(s: string, cs: set<char>)
    ensures Strip(s, cs) == [] <==> forall i :: 0 <= i < |s| ==> s[i] in cs
  {
    StripShape(s, cs);
    var a := |s| - |StripStart(s, cs)|;
    if forall i :: 0 <= i < |s| ==> s[i] in cs {
      var r := Strip(s, cs);
      if r != [] {
        assert r[0] == s[a];
      }
    }
  }

  /** Stripping twice is stripping once. */
  lemma StripIdempotent(s: string, cs: set<char>)
    ensures Strip(Strip(s, cs), cs) == Strip(s, cs)
  {
    StripShape(s, cs);
    StripNoop(Strip(s, cs), cs);
  }

  /** `s.split(c)`: the pieces between occurrences of `c`, always at least one. */
  function Split(s: string, c: char): (r: seq<string>)
    ensures |r| >= 1
    ensures forall i :: 0 <= i < |r| ==> c !in r[i]
    decreases |s|
  {
    var k := Find(s, c);
    if k == -1 then [s] else [s[..k]] + Split(s[k + 1..], c)
  }

  /** Splitting at the first `c`: the piece before it, then the split of the rest. */
  lemma SplitAt(s: string, c: char, k: nat)
    requires k < |s| && s[k] == c && c !in s[..k]
    ensures Split(s, c) == [s[..k]] + Split(s[k + 1..], c)
  {
    FindUnique(s, c, k);
  }

  /** `c.join(parts)` */
  function Join(parts: seq<string>, c: char): string
  {
    if |parts| == 0 then ""
    else if |parts| == 1 then parts[0]
    else parts[0] + [c] + Join(parts[1..], c)
  }

  /** The number of occurrences of `c` in `s`. */
  function Count(s: string, c: char): nat
  {
    if |s| == 0 then 0 else (if s[0] == c then 1 else 0) + Count(s[1..], c)
  }

  lemma {:induction false} CountAppend(a: string, b: string, c: char)
    ensures Count(a + b, c) == Count(a, c) + Count(b, c)
  {
    if |a| > 0 {
      assert (a + b)[0] == a[0];
      assert (a + b)[1..] == a[1..] + b;
      CountAppend(a[1..], b, c);
    } else {
      assert a + b == b;
    }
  }

  lemma {:induction false} CountAbsent(s: string, c: char)
    requires c !in s
    ensures Count(s, c) == 0
  {
    if |s| > 0 {
      CountAbsent(s[1..], c);
    }
  }

  /** Joining the pieces of a split with the same separator gives back the original string. */
  lemma {:induction false} JoinSplit(s: string, c: char)
    ensures Join(Split(s, c), c) == s
    decreases |s|
  {
    var k := Find(s, c);
    if k == -1 {
      assert Split(s, c) == [s];
    } else {
      var rest := s[k + 1..];
      SplitAt(s, c, k);
      JoinSplit(rest, c);
      JoinCons(s[..k], Split(rest, c), c);
      calc {
        Join(Split(s, c), c);
        s[..k] + [c] + Join(Split(rest, c), c);
        s[..k] + [c] + rest;
        { assert s == s[..k] + [c] + rest; }
        s;
      }
    }
  }

  lemma JoinCons(x: string, parts: seq<string>, c: char)
    requires |parts| >= 1
    ensures Join([x] + parts, c) == x + [c] + Join(parts, c)
  {
    assert ([x] + parts)[1..] == parts;
  }

  /** A split on `c` has exactly one piece more than `s` has occurrences of `c`. */
  lemma {:induction false} SplitCount(s: string, c: char)
    ensures |Split(s, c)| == Count(s, c) + 1
    decreases |s|
  {
    var k := Find(s, c);
    if k == -1 {
      CountAbsent(s, c);
    } else {
      var rest := s[k + 1..];
      SplitCount(rest, c);
      assert s == s[..k] + ([c] + rest);
      CountAppend(s[..k], [c] + rest, c);
      CountAbsent(s[..k], c);
      assert ([c] + rest)[1..] == rest;
    }
  }
}
