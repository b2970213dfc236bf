/**
 The Python string operations wg-reconf.py relies on, over `seq<char>`:
 `str.split` with a one-character separator, `str.join`, `str.strip()` with
 no argument, and the substring test `k in s`.
 */
module Text {

  /**
   Python's `str.isspace` for one character: the code points `str.strip()`
   removes (bidirectional class WS, B or S, or category Zs).
   */
  predicate IsSpace(c: char)
  {
    || ('\t' <= c <= '\r')
    || ('\U{1C}' <= c <= '\U{1F}')
    || c == ' '
    || c == '\U{85}'
    || c == '\U{A0}'
    || c == '\U{1680}'
    || ('\U{2000}' <= c <= '\U{200A}')
    || c == '\U{2028}'
    || c == '\U{2029}'
    || c == '\U{202F}'
    || c == '\U{205F}'
    || c == '\U{3000}'
  }

  /** Every character of `w` is white space. */
  predicate AllSpace(w: string)
  {
    forall i :: 0 <= i < |w| ==> IsSpace(w[i])
  }

  /** `s` neither starts nor ends with white space. */
  predicate Trimmed(s: string)
  {
    s == [] || (!IsSpace(s[0]) && !IsSpace(s[|s| - 1]))
  }

  /** Python's `s.lstrip()`. */
  function StripLeft(s: string): (r: string)
    ensures |r| <= |s|
  {
    if s != [] && IsSpace(s[0]) then StripLeft(s[1..]) else s
  }

  /** Python's `s.rstrip()`. */
  function StripRight(s: string): (r: string)
    ensures |r| <= |s|
  {
    if s != [] && IsSpace(s[|s| - 1]) then StripRight(s[..|s| - 1]) else s
  }

  /** Python's `s.strip()`: `s` without its leading and trailing white space. */
  function Trim(s: string): (r: string)
    ensures Trimmed(r)
  {
    StripLeftShape(s);
    StripRightShape(StripLeft(s));
    StripRight(StripLeft(s))
  }

  /** `lstrip()` drops a prefix and leaves no white space in front. */
  lemma {:induction false} StripLeftShape(s: string)
    ensures StripLeft(s) == s[|s| - |StripLeft(s)|..]
    ensures StripLeft(s) == [] || !IsSpace(StripLeft(s)[0])
  {
    if s != [] && IsSpace(s[0]) {
      StripLeftShape(s[1..]);
    }
  }

  /** `rstrip()` drops a suffix and leaves no white space at the end. */
  lemma {:induction false} StripRightShape(s: string)
    ensures StripRight(s) == s[..|StripRight(s)|]
    ensures StripRight(s) == [] || !IsSpace(StripRight(s)[|StripRight(s)| - 1])
  {
    if s != [] && IsSpace(s[|s| - 1]) {
      StripRightShape(s[..|s| - 1]);
    }
  }

  /** Number of occurrences of `c` in `s`. */
  function Count(s: string, c: char): nat
  {
    if s == [] then 0 else (if s[0] == c then 1 else 0) + Count(s[1..], c)
  }

  /** Python's `sep.join(parts)`. */
  function Join(sep: string, parts: seq<string>): string
  {
    if |parts| == 0 then []
    else if |parts| == 1 then parts[0]
    else parts[0] + sep + Join(sep, parts[1..])
  }

  /**
   Python's `s.split(c)`: the maximal runs of `s` between occurrences of
   `c`, one more than there are occurrences; joining them with `c` gives
   `s` back.
   */
  function Split(s: string, c: char): (r: seq<string>)
    ensures |r| == Count(s, c) + 1
    ensures forall i :: 0 <= i < |r| ==> c !in r[i]
    ensures Join([c], r) == s
  {
    if s == [] then [[]]
    else
      var rest := Split(s[1..], c);
      if s[0] == c then [[]] + rest
      else
        var r := [[s[0]] + rest[0]] + rest[1..];
        assert r[1..] == rest[1..];
        r
  }

  /** Python's `k in s` for strings: `k` occurs in `s` as a contiguous block. */
  predicate HasSubstring(s: string, k: string)
  {
    k <= s || (s != [] && HasSubstring(s[1..], k))
  }

  // ---------------------------------------------------------------------------
  // Splitting and joining

  /** A string without the separator splits into itself alone. */
  lemma SplitWithoutSeparator(s: string, c: char)
    requires c !in s
    ensures Split(s, c) == [s]
  {
    assert Count(s, c) == 0 by {
      CountAbsent(s, c);
    }
  }

  lemma {:induction false} CountAbsent(s: string, c: char)
    requires c !in s
    ensures Count(s, c) == 0
  {
    if s != [] {
      assert c !in s[1..];
      CountAbsent(s[1..], c);
    }
  }

  /** A prefix without the separator is glued onto the first part. */
  lemma {:induction false} SplitAfterPrefix(p: string, s: string, c: char)
    requires c !in p
    ensures Split(p + s, c) == [p + Split(s, c)[0]] + Split(s, c)[1..]
  {
    if p == [] {
      assert p + s == s;
      assert p + Split(s, c)[0] == Split(s, c)[0];
      assert [Split(s, c)[0]] + Split(s, c)[1..] == Split(s, c);
    } else {
      assert (p + s)[1..] == p[1..] + s;
      assert c !in p[1..];
      SplitAfterPrefix(p[1..], s, c);
      assert [p[0]] + (p[1..] + Split(s, c)[0]) == p + Split(s, c)[0];
    }
  }

  /** Splitting on `c` undoes joining with `c` parts that do not contain it. */
  lemma {:induction false} SplitJoin(parts: seq<string>, c: char)
    requires |parts| >= 1
    requires forall i :: 0 <= i < |parts| ==> c !in parts[i]
    ensures Split(Join([c], parts), c) == parts
  {
    if |parts| == 1 {
      SplitWithoutSeparator(parts[0], c);
    } else {
      var tail := Join([c], parts[1..]);
      SplitJoin(parts[1..], c);
      var s := [c] + tail;
      assert s[0] == c && s[1..] == tail;
      assert Split(s, c) == [[]] + parts[1..];
      assert Join([c], parts) == parts[0] + s;
      SplitAfterPrefix(parts[0], s, c);
      assert Split(s, c)[0] == [] && Split(s, c)[1..] == parts[1..];
      assert parts[0] + [] == parts[0];
      assert parts == [parts[0]] + parts[1..];
    }
  }

  /** The join of two parts. */
  lemma JoinTwo(sep: string, parts: seq<string>)
    requires |parts| == 2
    ensures Join(sep, parts) == parts[0] + sep + parts[1]
  {
    assert parts[1..] == [parts[1]];
  }

  /** Every character of a join is a separator character or a character of some part. */
  lemma {:induction false} JoinChars(sep: string, parts: seq<string>, ch: char)
    requires ch in Join(sep, parts) && ch !in sep
    ensures exists i :: 0 <= i < |parts| && ch in parts[i]
  {
    if |parts| > 1 {
      var tail := Join(sep, parts[1..]);
      if ch !in parts[0] {
        assert ch in tail;
        JoinChars(sep, parts[1..], ch);
        var i :| 0 <= i < |parts[1..]| && ch in parts[1..][i];
        assert parts[i + 1] == parts[1..][i];
      }
    }
  }

  /** Every character of a part is a character of the join. */
  lemma {:induction false} PartInJoin(sep: string, parts: seq<string>, i: nat, ch: char)
    requires i < |parts| && ch in parts[i]
    ensures ch in Join(sep, parts)
  {
    if i > 0 {
      assert parts[1..][i - 1] == parts[i];
      PartInJoin(sep, parts[1..], i - 1, ch);
    }
  }

  /** A join of parts none of which contains `ch`, with a separator without it, does not contain it. */
  lemma JoinAvoids(sep: string, parts: seq<string>, ch: char)
    requires ch !in sep
    requires forall i :: 0 <= i < |parts| ==> ch !in parts[i]
    ensures ch !in Join(sep, parts)
  {
    if ch in Join(sep, parts) {
      JoinChars(sep, parts, ch);
    }
  }

  // ---------------------------------------------------------------------------
  // Stripping

  /** A prefix of a suffix of `s` is a block of `s`. */
  lemma PrefixOfSuffix(s: string, l: string, t: string)
    requires |l| <= |s| && l == s[|s| - |l|..]
    requires |t| <= |l| && t == l[..|t|]
    ensures t == s[|s| - |l|..|s| - |l| + |t|]
  {
  }

  /** `strip()` returns a contiguous block of its argument. */
  lemma TrimIsInfix(s: string)
    ensures |s| - |StripLeft(s)| + |Trim(s)| <= |s|
    ensures Trim(s) == s[|s| - |StripLeft(s)|..|s| - |StripLeft(s)| + |Trim(s)|]
  {
    var l := StripLeft(s);
    var t := StripRight(l);
    StripLeftShape(s);
    StripRightShape(l);
    PrefixOfSuffix(s, l, t);
  }

  /** A character absent from `s` is absent from `strip(s)`. */
  lemma TrimAvoids(s: string, ch: char)
    requires ch !in s
    ensures ch !in Trim(s)
  {
    TrimIsInfix(s);
  }

  /** What `lstrip()` removes is white space. */
  lemma {:induction false} StripLeftSpaces(s: string)
    ensures AllSpace(s[..|s| - |StripLeft(s)|])
  {
    if s != [] && IsSpace(s[0]) {
      StripLeftSpaces(s[1..]);
      var k := |s| - |StripLeft(s)|;
      assert forall i :: 1 <= i < k ==> s[..k][i] == s[1..][..k - 1][i - 1];
    }
  }

  /** What `rstrip()` removes is white space. */
  lemma {:induction false} StripRightSpaces(s: string)
    ensures AllSpace(s[|StripRight(s)|..])
  {
    if s != [] && IsSpace(s[|s| - 1]) {
      var s' := s[..|s| - 1];
      StripRightSpaces(s');
      var k := |StripRight(s)|;
      assert forall i :: 0 <= i < |s| - 1 - k ==> s[k..][i] == s'[k..][i];
    }
  }

  lemma {:induction false} StripLeftPadded(w: string, t: string)
    requires AllSpace(w) && (t == [] || !IsSpace(t[0]))
    ensures StripLeft(w + t) == t
  {
    if w == [] {
      assert w + t == t;
    } else {
      assert (w + t)[1..] == w[1..] + t;
      StripLeftPadded(w[1..], t);
    }
  }

  lemma {:induction false} StripRightPadded(t: string, w: string)
    requires AllSpace(w) && (t == [] || !IsSpace(t[|t| - 1]))
    ensures StripRight(t + w) == t
  {
    if w == [] {
      assert t + w == t;
    } else {
      var w' := w[..|w| - 1];
      assert (t + w)[..|t + w| - 1] == t + w';
      StripRightPadded(t, w');
    }
  }

  /**
   `strip()` removes exactly the white space around a trimmed text: this
   pins `Trim` down, since every string is such a padding of its `Trim`.
   */
  lemma TrimPadded(w1: string, t: string, w2: string)
    requires AllSpace(w1) && AllSpace(w2) && Trimmed(t)
    ensures Trim(w1 + t + w2) == t
  {
    assert w1 + t + w2 == w1 + (t + w2);
    if t == [] {
      assert t + w2 == w2;
      StripLeftPadded(w1 + w2, []);
      assert w1 + w2 + [] == w1 + w2;
      assert AllSpace(w1 + w2) by {
        forall i | 0 <= i < |w1 + w2| ensures IsSpace((w1 + w2)[i]) {
          if i >= |w1| {
            assert (w1 + w2)[i] == w2[i - |w1|];
          }
        }
      }
    } else {
      StripLeftPadded(w1, t + w2);
      StripRightPadded(t, w2);
    }
  }

  /** `strip()` keeps a trimmed text, and one with white space appended, as the text alone. */
  lemma TrimTrimmed(t: string, w: string)
    requires Trimmed(t) && AllSpace(w)
    ensures Trim(t) == t && Trim(t + w) == t
  {
    if t == [] {
      assert t + w == w + t;
      StripLeftPadded(w, t);
    } else {
      assert (t + w)[0] == t[0];
      assert StripLeft(t + w) == t + w;
      StripRightPadded(t, w);
    }
  }

  /** A string is its suffix's prefix with what lies on either side of it. */
  lemma AroundPrefixOfSuffix(s: string, l: string, t: string)
    requires |l| <= |s| && l == s[|s| - |l|..]
    requires |t| <= |l| && t == l[..|t|]
    ensures s == s[..|s| - |l|] + t + l[|t|..]
  {
  }

  /** Every string is its `strip()` with white space around it. */
  lemma TrimDecomposes(s: string)
    ensures exists w1, w2 :: AllSpace(w1) && AllSpace(w2) && s == w1 + Trim(s) + w2
  {
    var l := StripLeft(s);
    var t := StripRight(l);
    StripLeftShape(s);
    StripRightShape(l);
    StripLeftSpaces(s);
    StripRightSpaces(l);
    AroundPrefixOfSuffix(s, l, t);
    var w1, w2 := s[..|s| - |l|], l[|t|..];
    assert AllSpace(w1) && AllSpace(w2) && s == w1 + Trim(s) + w2;
  }

  /** `strip()` is idempotent. */
  lemma TrimIdempotent(s: string)
    ensures Trim(Trim(s)) == Trim(s)
  {
    TrimPadded([], Trim(s), []);
    assert [] + Trim(s) + [] == Trim(s);
  }

  // ---------------------------------------------------------------------------
  // Substrings

  /** The stripped form of a prefix of `s` is a substring of `s`. */
  lemma TrimOfPrefixIsSubstring(s: string, p: string)
    requires p <= s
    ensures HasSubstring(s, Trim(p))
  {
    TrimIsInfix(p);
    BlockOfPrefix(s, p, Trim(p), |p| - |StripLeft(p)|);
  }

  /** A block of a prefix of `s` is a substring of `s`. */
  lemma BlockOfPrefix(s: string, p: string, k: string, i: nat)
    requires p <= s && i + |k| <= |p| && k == p[i..i + |k|]
    ensures HasSubstring(s, k)
  {
    assert s[i..i + |k|] == k;
    InfixIsSubstring(s, k, i);
  }

  /** A block of `s` starting at `i` is a substring of `s`. */
  lemma {:induction false} InfixIsSubstring(s: string, k: string, i: nat)
    requires i + |k| <= |s| && s[i..i + |k|] == k
    ensures HasSubstring(s, k)
  {
    if i > 0 {
      assert s[1..][i - 1..i - 1 + |k|] == k;
      InfixIsSubstring(s[1..], k, i - 1);
    }
  }

  /** A character absent from `s` is absent from every part of its split. */
  lemma SplitPartAvoids(s: string, c: char, i: nat, ch: char)
    requires ch !in s && i < |Split(s, c)|
    ensures ch !in Split(s, c)[i]
  {
    if ch in Split(s, c)[i] {
      PartInJoin([c], Split(s, c), i, ch);
    }
  }

  /** A substring of `s` occurs in `s` as a block at some position. */
  lemma {:induction false} SubstringIsInfix(s: string, k: string) returns (i: nat)
    requires HasSubstring(s, k)
    ensures i + |k| <= |s| && s[i..i + |k|] == k
  {
    if k <= s {
      i := 0;
    } else {
      var j := SubstringIsInfix(s[1..], k);
      assert s[1..][j..j + |k|] == s[j + 1..j + 1 + |k|];
      i := j + 1;
    }
  }
}
