/**
 * The Python `str` operations that find_string.py relies on, over `seq<char>`:
 * `term in line`, `line.split('#')[0]`, `name.endswith(ext)`, ASCII `lower()`,
 * `strip('/')` and the ordering `sorted` uses on path strings.
 */
module Text {

  /** Python's `term in line`: `term` occurs as a contiguous block of `line` (the empty term occurs in every line). */
  predicate Contains(line: string, term: string): (r: bool)
    ensures term == [] ==> r
    ensures r ==> |term| <= |line|
    ensures term <= line ==> r
  {
    assert term <= line ==> OccursAt(line, term, 0);
    exists i | 0 <= i <= |line| - |term| :: OccursAt(line, term, i)
  }

  /** `term` is the block of `line` that starts at index `i`. */
  predicate OccursAt(line: string, term: string, i: int)
    requires 0 <= i <= |line| - |term|
  {
    line[i..i + |term|] == term
  }

  /** A term found in a prefix of a line is found in the line. */
  lemma ContainsInLonger(prefix: string, line: string, term: string)
    requires prefix <= line
    requires Contains(prefix, term)
    ensures Contains(line, term)
  {
    var i :| 0 <= i <= |prefix| - |term| && OccursAt(prefix, term, i);
    assert line[i..i + |term|] == prefix[i..i + |term|];
    assert OccursAt(line, term, i);
  }

  /**
   * Python's `s.split(c)[0]`: the text before the first `c`, or all of `s` when it has none.
   * The contract pins it down: the longest prefix of `s` free of `c`.
   */
  function BeforeFirst(s: string, c: char): (r: string)
    ensures r <= s
    ensures c !in r
    ensures |r| < |s| ==> s[|r|] == c
  {
    if s == [] || s[0] == c then [] else [s[0]] + BeforeFirst(s[1..], c)
  }

  /**
   * A term occurs before the first `c` of a line iff it occurs in the line and,
   * when the line holds a `c`, before its first `c`.
   */
  lemma ContainsBeforeFirst(line: string, term: string, c: char)
    ensures (Contains(line, term) && (c in line ==> Contains(BeforeFirst(line, c), term)))
            <==> Contains(BeforeFirst(line, c), term)
  {
    var pre := BeforeFirst(line, c);
    if Contains(pre, term) {
      ContainsInLonger(pre, line, term);
    }
    if c !in line {
      assert pre == line;
    }
  }

  /** Python's `s.endswith(suffix)`; every string ends with the empty suffix. */
  predicate EndsWith(s: string, suffix: string): (r: bool)
    ensures suffix == [] ==> r
    ensures r <==> |suffix| <= |s| && forall k :: 0 <= k < |suffix| ==> s[|s| - |suffix| + k] == suffix[k]
  {
    |suffix| <= |s| && s[|s| - |suffix|..] == suffix
  }

  /** ASCII lower-casing of one character; every other character is left alone. */
  function LowerChar(c: char): char {
    if 'A' <= c <= 'Z' then (c as int - 'A' as int + 'a' as int) as char else c
  }

  /** `s.lower()` restricted to ASCII letters: a character-by-character map. */
  function Lower(s: string): (r: string)
    ensures |r| == |s|
    ensures forall i :: 0 <= i < |s| ==> r[i] == LowerChar(s[i])
  {
    if s == [] then [] else [LowerChar(s[0])] + Lower(s[1..])
  }

  /** ASCII upper-casing of one character; every other character is left alone. */
  function UpperChar(c: char): char {
    if 'a' <= c <= 'z' then (c as int - 'a' as int + 'A' as int) as char else c
  }

  /** `s.upper()` restricted to ASCII letters: a character-by-character map. */
  function Upper(s: string): (r: string)
    ensures |r| == |s|
    ensures forall i :: 0 <= i < |s| ==> r[i] == UpperChar(s[i])
  {
    if s == [] then [] else [UpperChar(s[0])] + Upper(s[1..])
  }

  /** Upper-casing before lower-casing loses nothing: both give the lower-case form. */
  lemma LowerUpper(s: string)
    ensures Lower(Upper(s)) == Lower(s)
  {
    var u := Upper(s);
    forall i | 0 <= i < |s|
      ensures Lower(u)[i] == Lower(s)[i]
    {
      LowerUpperChar(s[i]);
    }
  }

  /** One character: lower-casing its upper-case form gives its lower-case form. */
  lemma LowerUpperChar(c: char)
    ensures LowerChar(UpperChar(c)) == LowerChar(c)
  {
  }

  /** Lower-casing twice is lower-casing once. */
  lemma LowerIdempotent(s: string)
    ensures Lower(Lower(s)) == Lower(s)
  {
    var once := Lower(s);
    assert forall i :: 0 <= i < |s| ==> Lower(once)[i] == LowerChar(LowerChar(s[i])) == once[i];
  }

  /** `s.lstrip(c)` for a single character `c`. */
  function TrimStart(s: string, c: char): (r: string)
    ensures |r| <= |s| && r == s[|s| - |r|..]
    ensures r == [] || r[0] != c
    ensures forall i :: 0 <= i < |s| - |r| ==> s[i] == c
  {
    if s != [] && s[0] == c then
      var r := TrimStart(s[1..], c);
      assert s[1..][|s| - 1 - |r|..] == s[|s| - |r|..];
      assert forall i :: 1 <= i < |s| - |r| ==> s[i] == s[1..][i - 1];
      r
    else s
  }

  /** `s.rstrip(c)` for a single character `c`. */
  function TrimEnd(s: string, c: char): (r: string)
    ensures r <= s
    ensures r == [] || r[|r| - 1] != c
    ensures forall i :: |r| <= i < |s| ==> s[i] == c
  {
    if s != [] && s[|s| - 1] == c then TrimEnd(s[..|s| - 1], c) else s
  }

  /** `s.strip(c)` for a single character `c`: both ends trimmed. */
  function Strip(s: string, c: char): (r: string)
    ensures r == [] || (r[0] != c && r[|r| - 1] != c)
    ensures exists i :: Framed(s, r, c, i)
  {
    StripFramed(s, c);
    TrimEnd(TrimStart(s, c), c)
  }

  /** Trimming both ends leaves a block of `s` with only `c` around it. */
  lemma StripFramed(s: string, c: char)
    ensures Framed(s, TrimEnd(TrimStart(s, c), c), c, |s| - |TrimStart(s, c)|)
  {
    TrimmedFramed(s, TrimStart(s, c), TrimEnd(TrimStart(s, c), c), c);
  }

  /** A prefix `r` of a suffix `t` of `s`, with only `c` cut off on either side, is framed by `c`. */
  lemma TrimmedFramed(s: string, t: string, r: string, c: char)
    requires |t| <= |s| && t == s[|s| - |t|..]
    requires forall k :: 0 <= k < |s| - |t| ==> s[k] == c
    requires r <= t
    requires forall k :: |r| <= k < |t| ==> t[k] == c
    ensures Framed(s, r, c, |s| - |t|)
  {
    var i := |s| - |t|;
    assert s[i..i + |r|] == r by {
      forall j | 0 <= j < |r|
        ensures s[i..i + |r|][j] == r[j]
      {
        assert s[i + j] == t[j];
      }
    }
    forall k | i + |r| <= k < |s|
      ensures s[k] == c
    {
      assert s[k] == t[k - i];
    }
  }

  /** `r` is the block of `s` at index `i`, and everything of `s` around it is `c`. */
  predicate Framed(s: string, r: string, c: char, i: int) {
    && 0 <= i <= |s| - |r|
    && s[i..i + |r|] == r
    && (forall k :: 0 <= k < i ==> s[k] == c)
    && (forall k :: i + |r| <= k < |s| ==> s[k] == c)
  }

  lemma {:induction false} TrimStartAppend(s: string, c: char)
    ensures TrimStart(s + [c], c) == if TrimStart(s, c) == [] then [] else TrimStart(s, c) + [c]
  {
    if s != [] && s[0] == c {
      assert (s + [c])[1..] == s[1..] + [c];
      assert TrimStart(s + [c], c) == TrimStart(s[1..] + [c], c);
      assert TrimStart(s, c) == TrimStart(s[1..], c);
      TrimStartAppend(s[1..], c);
    } else if s == [] {
      assert TrimStart([c][1..], c) == [];
    } else {
      assert (s + [c])[0] != c;
      assert TrimStart(s + [c], c) == s + [c];
    }
  }

  /** One more `c` on the right does not change `strip(c)`. */
  lemma StripAppend(s: string, c: char)
    ensures Strip(s + [c], c) == Strip(s, c)
  {
    TrimStartAppend(s, c);
    var t := TrimStart(s, c);
    if t != [] {
      assert (t + [c])[..|t + [c]| - 1] == t;
    }
  }

  /** One more `c` on the left does not change `strip(c)`. */
  lemma StripPrepend(s: string, c: char)
    ensures Strip([c] + s, c) == Strip(s, c)
  {
    assert ([c] + s)[1..] == s;
  }

  /** A stripped string neither starts nor ends with `c`, and stripping it again changes nothing. */
  lemma StripIdempotent(s: string, c: char)
    ensures Strip(s, c) == [] || (Strip(s, c)[0] != c && Strip(s, c)[|Strip(s, c)| - 1] != c)
    ensures Strip(Strip(s, c), c) == Strip(s, c)
  {
    var r := Strip(s, c);
    if r != [] {
      assert r[0] == TrimStart(s, c)[0];
    }
  }

  /** Python's `a < b` on strings: lexicographic by code point, a proper prefix first. */
  predicate Below(a: string, b: string): (r: bool)
    ensures a < b ==> r
    ensures b <= a ==> !r
  {
    if a == [] then b != []
    else if b == [] then false
    else if a[0] != b[0] then a[0] < b[0]
    else Below(a[1..], b[1..])
  }

  lemma {:induction false} BelowIrreflexive(a: string)
    ensures !Below(a, a)
  {
    if a != [] {
      BelowIrreflexive(a[1..]);
    }
  }

  lemma {:induction false} BelowTransitive(a: string, b: string, c: string)
    requires Below(a, b) && Below(b, c)
    ensures Below(a, c)
  {
    if a != [] && b != [] && c != [] && a[0] == b[0] == c[0] {
      BelowTransitive(a[1..], b[1..], c[1..]);
    }
  }

  /** Any two different strings are ordered one way or the other. */
  lemma {:induction false} BelowTotal(a: string, b: string)
    requires a != b
    ensures Below(a, b) || Below(b, a)
  {
    if a != [] && b != [] && a[0] == b[0] {
      assert a == [a[0]] + a[1..] && b == [b[0]] + b[1..];
      BelowTotal(a[1..], b[1..]);
    }
  }
}
