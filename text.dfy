/** The few operations on Python str the analyzer uses: strip(), split() on
    one separator character, and sep.join(parts). */
module Text {

  /** The code point ranges str.isspace() holds for: the space, the ASCII
      control characters tab to carriage return, the information separators
      U+001C..U+001F, and the Unicode space and line separator characters. */
  const SPACE_RANGES: seq<(char, char)> := [
    (' ', ' '), ('\t', '\r'), ('\U{1C}', '\U{1F}'), ('\U{85}', '\U{85}'),
    ('\U{A0}', '\U{A0}'), ('\U{1680}', '\U{1680}'), ('\U{2000}', '\U{200A}'),
    ('\U{2028}', '\U{2029}'), ('\U{202F}', '\U{202F}'), ('\U{205F}', '\U{205F}'),
    ('\U{3000}', '\U{3000}')]

  predicate InRanges(c: char, ranges: seq<(char, char)>)
  {
    ranges != [] && ((ranges[0].0 <= c <= ranges[0].1) || InRanges(c, ranges[1..]))
  }

  /** str.isspace() for one character. */
  predicate IsSpace(c: char)
  {
    InRanges(c, SPACE_RANGES)
  }

  lemma {:induction false} OutsideRanges(c: char, ranges: seq<(char, char)>)
    requires forall i | 0 <= i < |ranges| :: c < ranges[i].0 || ranges[i].1 < c
    ensures !InRanges(c, ranges)
  {
    if ranges != [] {
      OutsideRanges(c, ranges[1..]);
    }
  }

  /** Signs, the dot and the ASCII digits are not whitespace. */
  lemma {:induction false} NotSpace(c: char)
    requires '+' <= c <= '9'
    ensures !IsSpace(c)
  {
    OutsideRanges(c, SPACE_RANGES);
  }

  /** A string made of whitespace only (the empty string included). */
  predicate IsBlank(s: string)
  {
    forall i | 0 <= i < |s| :: IsSpace(s[i])
  }

  /** The length of the longest whitespace prefix. */
  function LeadingSpaces(s: string): (k: nat)
    ensures k <= |s|
    ensures forall i | 0 <= i < k :: IsSpace(s[i])
    ensures k == |s| || !IsSpace(s[k])
  {
    if s != [] && IsSpace(s[0]) then 1 + LeadingSpaces(s[1..]) else 0
  }

  /** The length of the longest whitespace suffix. */
  function TrailingSpaces(s: string): (k: nat)
    ensures k <= |s|
    ensures forall i | |s| - k <= i < |s| :: IsSpace(s[i])
    ensures k == |s| || !IsSpace(s[|s| - 1 - k])
  {
    if s != [] && IsSpace(s[|s| - 1]) then 1 + TrailingSpaces(s[..|s| - 1]) else 0
  }

  /** str.strip(): s without its leading and trailing whitespace. The result
      is the part of s between a whitespace prefix and a whitespace suffix,
      and it neither starts nor ends with whitespace. */
  function Strip(s: string): (r: string)
    ensures LeadingSpaces(s) + |r| <= |s|
    ensures r == s[LeadingSpaces(s)..LeadingSpaces(s) + |r|]
    ensures forall i | LeadingSpaces(s) + |r| <= i < |s| :: IsSpace(s[i])
    ensures r == [] || (!IsSpace(r[0]) && !IsSpace(r[|r| - 1]))
    ensures r == [] <==> IsBlank(s)
  {
    var a := LeadingSpaces(s);
    var t := s[a..];
    var b := TrailingSpaces(t);
    TrimmedSpaces(s, a, t, b);
    TrimmedEnds(s, a, t, b);
    t[..|t| - b]
  }

  lemma {:induction false} LeadingSpacesUnique(s: string, k: nat)
    requires k <= |s| && IsBlank(s[..k]) && (k == |s| || !IsSpace(s[k]))
    ensures LeadingSpaces(s) == k
  {
    if k > 0 {
      assert IsSpace(s[..k][0]);
      assert s[1..][..k - 1] == s[..k][1..];
      LeadingSpacesUnique(s[1..], k - 1);
    } else if s != [] {
      assert !IsSpace(s[0]);
    }
  }

  lemma {:induction false} TrailingSpacesUnique(s: string, k: nat)
    requires k <= |s| && IsBlank(s[|s| - k..]) && (k == |s| || !IsSpace(s[|s| - 1 - k]))
    ensures TrailingSpaces(s) == k
  {
    if k > 0 {
      assert IsSpace(s[|s| - k..][k - 1]);
      var p := s[..|s| - 1];
      var tail, blank := p[|p| - (k - 1)..], s[|s| - k..][..k - 1];
      forall i | 0 <= i < k - 1
        ensures tail[i] == blank[i]
      {
        assert tail[i] == s[|s| - k + i];
      }
      assert tail == blank;
      TrailingSpacesUnique(p, k - 1);
    } else if s != [] {
      assert |s| - 1 - k == |s| - 1;
      assert !IsSpace(s[|s| - 1]);
    }
  }

  /** The part Strip keeps lies between two runs of whitespace. */
  lemma {:induction false} TrimmedSpaces(s: string, a: nat, t: string, b: nat)
    requires a <= |s| && t == s[a..] && b <= |t|
    requires forall i | |t| - b <= i < |t| :: IsSpace(t[i])
    ensures a + (|t| - b) <= |s|
    ensures t[..|t| - b] == s[a..a + (|t| - b)]
    ensures forall i | a + (|t| - b) <= i < |s| :: IsSpace(s[i])
  {
    forall i | a + (|t| - b) <= i < |s| ensures IsSpace(s[i]) {
      assert s[i] == t[i - a];
    }
  }

  /** The part Strip keeps has no whitespace at either end, and is empty
      exactly when s is blank. */
  lemma {:induction false} TrimmedEnds(s: string, a: nat, t: string, b: nat)
    requires a <= |s| && t == s[a..] && b <= |t|
    requires (forall i | 0 <= i < a :: IsSpace(s[i])) && (a == |s| || !IsSpace(s[a]))
    requires (forall i | |t| - b <= i < |t| :: IsSpace(t[i])) && (b == |t| || !IsSpace(t[|t| - 1 - b]))
    ensures var r := t[..|t| - b];
            && (r == [] || (!IsSpace(r[0]) && !IsSpace(r[|r| - 1])))
            && (r == [] <==> IsBlank(s))
  {
    var r := t[..|t| - b];
    if a < |s| {
      assert t[0] == s[a];
      assert b < |t|;
      assert r[0] == s[a];
      assert r[|r| - 1] == t[|t| - 1 - b];
    }
  }

  /** Strip is determined by its contract: whenever s is a blank prefix, a
      core r with non-blank ends, and a blank suffix, strip() returns r. */
  lemma {:induction false} StripUnique(w1: string, r: string, w2: string)
    requires IsBlank(w1) && IsBlank(w2)
    requires r == [] || (!IsSpace(r[0]) && !IsSpace(r[|r| - 1]))
    ensures Strip(w1 + r + w2) == r
  {
    var s := w1 + r + w2;
    if r == [] {
      assert s == w1 + w2;
      assert IsBlank(s);
    } else {
      assert s[..|w1|] == w1;
      LeadingSpacesUnique(s, |w1|);
      var t := s[|w1|..];
      assert t == r + w2;
      assert t[|t| - |w2|..] == w2;
      TrailingSpacesUnique(t, |w2|);
    }
  }

  /** A string that neither starts nor ends with whitespace is left alone. */
  lemma {:induction false} StripTrimmed(s: string)
    requires s == [] || (!IsSpace(s[0]) && !IsSpace(s[|s| - 1]))
    ensures Strip(s) == s
  {
    StripUnique([], s, []);
    assert [] + s + [] == s;
  }

  /** A whitespace character in front keeps a string blank or not blank. */
  lemma {:induction false} BlankCons(c: char, l: string)
    requires IsSpace(c)
    ensures IsBlank([c] + l) <==> IsBlank(l)
  {
    assert forall i | 0 <= i < |l| :: ([c] + l)[i + 1] == l[i];
  }

  /** A whitespace character at the end keeps a string blank or not blank. */
  lemma {:induction false} BlankSnoc(l: string, c: char)
    requires IsSpace(c)
    ensures IsBlank(l + [c]) <==> IsBlank(l)
  {
    assert forall i | 0 <= i < |l| :: (l + [c])[i] == l[i];
  }

  /** strip() is idempotent. */
  lemma {:induction false} StripStrip(s: string)
    ensures Strip(Strip(s)) == Strip(s)
  {
    StripTrimmed(Strip(s));
  }

  /** s is its blank prefix, then Strip(s), then its blank suffix. */
  lemma {:induction false} StripParts(s: string)
    ensures var a, r := LeadingSpaces(s), Strip(s);
            && s == s[..a] + r + s[a + |r|..]
            && IsBlank(s[..a]) && IsBlank(s[a + |r|..])
  {
    var a, r := LeadingSpaces(s), Strip(s);
    SliceAround(s, a, r);
    BlankSlice(s, 0, a);
    BlankSlice(s, a + |r|, |s|);
    assert s[..a] == s[0..a] && s[a + |r|..] == s[a + |r|..|s|];
  }

  lemma {:induction false} SliceAround<T>(s: seq<T>, a: nat, r: seq<T>)
    requires a + |r| <= |s| && r == s[a..a + |r|]
    ensures s == s[..a] + r + s[a + |r|..]
  {
  }

  lemma {:induction false} BlankSlice(s: string, lo: nat, hi: nat)
    requires lo <= hi <= |s|
    requires forall i | lo <= i < hi :: IsSpace(s[i])
    ensures IsBlank(s[lo..hi])
  {
    var w := s[lo..hi];
    forall i | 0 <= i < |w|
      ensures IsSpace(w[i])
    {
      assert w[i] == s[lo + i];
    }
  }

  /** A whitespace character in front of a line does not change what strip() returns. */
  lemma {:induction false} StripSpaceFront(c: char, l: string)
    requires IsSpace(c)
    ensures Strip([c] + l) == Strip(l)
  {
    var s, a := [c] + l, LeadingSpaces(l);
    LeadingSpacesCons(c, l);
    assert s[1 + a..] == l[a..];
  }

  lemma {:induction false} LeadingSpacesCons(c: char, l: string)
    requires IsSpace(c)
    ensures LeadingSpaces([c] + l) == 1 + LeadingSpaces(l)
  {
    assert ([c] + l)[1..] == l;
  }

  /** A whitespace character at the end of a line does not change what strip() returns. */
  lemma {:induction false} StripSpaceBack(l: string, c: char)
    requires IsSpace(c)
    ensures Strip(l + [c]) == Strip(l)
  {
    var a, r := LeadingSpaces(l), Strip(l);
    var w1, w2 := l[..a], l[a + |r|..];
    StripParts(l);
    BlankSnoc(w2, c);
    assert l + [c] == w1 + r + (w2 + [c]);
    StripUnique(w1, r, w2 + [c]);
  }

  /** str.split(sep) for a one-character separator: the pieces between
      occurrences of sep, at least one piece, none containing sep. */
  function Split(s: string, sep: char): (r: seq<string>)
    ensures |r| >= 1
    decreases |s|
  {
    if s == [] then [[]]
    else
      var rest := Split(s[1..], sep);
      if s[0] == sep then [[]] + rest
      else [[s[0]] + rest[0]] + rest[1..]
  }

  /** sep.join(parts). */
  function Join(sep: string, parts: seq<string>): string
  {
    if |parts| == 0 then []
    else if |parts| == 1 then parts[0]
    else parts[0] + sep + Join(sep, parts[1..])
  }

  /** No piece holds the separator. */
  lemma {:induction false} SplitPiecesLackSep(s: string, sep: char)
    ensures forall i | 0 <= i < |Split(s, sep)| :: sep !in Split(s, sep)[i]
    decreases |s|
  {
    if s != [] {
      var rest := Split(s[1..], sep);
      SplitPiecesLackSep(s[1..], sep);
      if s[0] != sep {
        assert forall i | 1 <= i < |rest| :: rest[1..][i - 1] == rest[i];
      }
    }
  }

  /** Joining the pieces of a split with the separator gives back the string. */
  lemma {:induction false} JoinSplit(s: string, sep: char)
    ensures Join([sep], Split(s, sep)) == s
    decreases |s|
  {
    if s != [] {
      var rest := Split(s[1..], sep);
      JoinSplit(s[1..], sep);
      if s[0] == sep {
        assert Split(s, sep) == [[]] + rest;
        assert ([[]] + rest)[1..] == rest;
      } else {
        var parts := [[s[0]] + rest[0]] + rest[1..];
        assert Split(s, sep) == parts;
        if |rest| == 1 {
          assert Join([sep], parts) == [s[0]] + rest[0];
        } else {
          assert parts[1..] == rest[1..];
          assert Join([sep], rest) == rest[0] + [sep] + Join([sep], rest[1..]);
        }
      }
    }
  }

  /** A string without the separator splits into itself alone. */
  lemma {:induction false} SplitNoSep(s: string, sep: char)
    requires sep !in s
    ensures Split(s, sep) == [s]
    decreases |s|
  {
    if s != [] {
      SplitNoSep(s[1..], sep);
      assert [s[0]] + s[1..] == s;
    }
  }

  /** The first piece is everything before the first separator. */
  lemma {:induction false} SplitAtSep(a: string, sep: char, b: string)
    requires sep !in a
    ensures Split(a + [sep] + b, sep) == [a] + Split(b, sep)
    decreases |a|
  {
    var s := a + [sep] + b;
    if a == [] {
      assert s[0] == sep && s[1..] == b;
    } else {
      assert s[1..] == a[1..] + [sep] + b;
      SplitAtSep(a[1..], sep, b);
      assert [a[0]] + a[1..] == a;
    }
  }

  /** Splitting a join of separator-free pieces gives the pieces back. */
  lemma {:induction false} SplitJoin(parts: seq<string>, sep: char)
    requires |parts| >= 1
    requires forall i | 0 <= i < |parts| :: sep !in parts[i]
    ensures Split(Join([sep], parts), sep) == parts
  {
    if |parts| == 1 {
      SplitNoSep(parts[0], sep);
    } else {
      SplitJoin(parts[1..], sep);
      SplitAtSep(parts[0], sep, Join([sep], parts[1..]));
      assert [parts[0]] + parts[1..] == parts;
    }
  }

  /** A separator at the end adds an empty last piece. */
  lemma {:induction false} SplitSnocSep(s: string, sep: char)
    ensures Split(s + [sep], sep) == Split(s, sep) + [[]]
    decreases |s|
  {
    var t := s + [sep];
    if s == [] {
      assert t[1..] == [];
    } else {
      assert t[0] == s[0] && t[1..] == s[1..] + [sep];
      SplitSnocSep(s[1..], sep);
      var q := Split(s[1..], sep);
      if s[0] != sep {
        assert (q + [[]])[1..] == q[1..] + [[]];
      }
    }
  }

  /** Any other character at the end extends the last piece. */
  lemma {:induction false} SplitSnocOther(s: string, c: char, sep: char)
    requires c != sep
    ensures var p := Split(s, sep);
            Split(s + [c], sep) == p[..|p| - 1] + [p[|p| - 1] + [c]]
    decreases |s|
  {
    var t := s + [c];
    if s == [] {
      assert t == [c] && t[1..] == [];
      assert [c] + [] == [c] && [] + [c] == [c];
      assert Split(t, sep) == [[c]];
    } else {
      assert t[0] == s[0] && t[1..] == s[1..] + [c];
      SplitSnocOther(s[1..], c, sep);
      var q, q' := Split(s[1..], sep), Split(s[1..] + [c], sep);
      if s[0] == sep {
        SnocAfterEmptyPiece(q, q', c);
      } else {
        SnocAfterExtendedPiece(s[0], q, q', c);
      }
    }
  }

  /** The list algebra of the case where the string starts with the separator. */
  lemma {:induction false} SnocAfterEmptyPiece<T>(q: seq<seq<T>>, q': seq<seq<T>>, c: T)
    requires |q| >= 1 && q' == q[..|q| - 1] + [q[|q| - 1] + [c]]
    ensures var p := [[]] + q;
            [[]] + q' == p[..|p| - 1] + [p[|p| - 1] + [c]]
  {
    var p := [[]] + q;
    assert p[..|p| - 1] == [[]] + q[..|q| - 1];
  }

  /** The list algebra of the case where the string starts with another character. */
  lemma {:induction false} SnocAfterExtendedPiece<T>(x: T, q: seq<seq<T>>, q': seq<seq<T>>, c: T)
    requires |q| >= 1 && q' == q[..|q| - 1] + [q[|q| - 1] + [c]]
    ensures var p := [[x] + q[0]] + q[1..];
            [[x] + q'[0]] + q'[1..] == p[..|p| - 1] + [p[|p| - 1] + [c]]
  {
    var p := [[x] + q[0]] + q[1..];
    if |q| == 1 {
      assert q' == [q[0] + [c]];
      assert [x] + (q[0] + [c]) == ([x] + q[0]) + [c];
    } else {
      assert q'[0] == q[0];
      assert q'[1..] == q[1..|q| - 1] + [q[|q| - 1] + [c]];
      assert p[..|p| - 1] == [[x] + q[0]] + q[1..|q| - 1];
    }
  }
}
