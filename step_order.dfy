/** Ordering the results of one test case: the step number read from a step's
    text, the arbitrary order in which the worker pool completes the steps,
    and Python's stable list.sort(key=...) that puts them back. */
module StepOrder {
  import opened Wrappers
  import opened Text
  import opened IntLiteral

  /** The ordinal of a step whose text does not start with a number. */
  const NO_STEP_NUMBER: int := 9999

  /** extract_step_number: int() of the stripped text before the first '.',
      and the sentinel wherever int() would raise. */
  function ExtractStepNumber(text: string): int
  {
    match ParseInt(Strip(Split(text, '.')[0]))
    case Some(n) => n
    case None => NO_STEP_NUMBER
  }

  lemma {:induction false} BlankHasNoDot(s: string)
    requires IsBlank(s)
    ensures '.' !in s
  {
    NotSpace('.');
    forall i | 0 <= i < |s| ensures s[i] != '.' {
      assert IsSpace(s[i]);
    }
  }

  /** A signed digit run with blanks around it has no '.' and strips to
      the run with its sign. */
  lemma {:induction false} PaddedLiteral(w1: string, sign: string, d: string, w2: string)
    requires IsBlank(w1) && IsBlank(w2)
    requires sign == "" || sign == "+" || sign == "-"
    requires IsDigitRun(d)
    ensures '.' !in w1 + sign + d + w2
    ensures Strip(w1 + sign + d + w2) == sign + d && Strip(sign + d) == sign + d
  {
    var lit := sign + d;
    BlankHasNoDot(w1);
    BlankHasNoDot(w2);
    LiteralHasNoDot(sign, d);
    assert w1 + sign + d + w2 == w1 + lit + w2;
    NotSpace(lit[0]);
    assert lit[|lit| - 1] == d[|d| - 1];
    NotSpace(lit[|lit| - 1]);
    StripUnique(w1, lit, w2);
    StripTrimmed(lit);
  }

  lemma {:induction false} LiteralHasNoDot(sign: string, d: string)
    requires sign == "" || sign == "+" || sign == "-"
    requires IsDigitRun(d)
    ensures '.' !in sign + d
  {
    var lit := sign + d;
    forall i | 0 <= i < |lit| ensures lit[i] != '.' {
      if i >= |sign| {
        assert lit[i] == d[i - |sign|];
      }
    }
  }

  /** A step whose text before the first '.' is, blanks aside, an optional
      sign and a digit run ("3", "01", "+3", "1_0") has that number. */
  lemma {:induction false} NumberedStep(w1: string, sign: string, d: string, w2: string, rest: string)
    requires IsBlank(w1) && IsBlank(w2)
    requires sign == "" || sign == "+" || sign == "-"
    requires IsDigitRun(d)
    ensures ExtractStepNumber(w1 + sign + d + w2 + "." + rest) ==
            if sign == "-" then -(DigitsValue(d) as int) else DigitsValue(d)
  {
    var a := w1 + sign + d + w2;
    PaddedLiteral(w1, sign, d, w2);
    assert a + "." + rest == a + ['.'] + rest;
    SplitAtSep(a, '.', rest);
    ParseSignedDigits(sign, d);
  }

  /** A step without any '.' that is, blanks aside, an optional sign and a
      digit run ("7", " 12 ", "+3") has that number too: the text before the
      first '.' is then the whole text. */
  lemma {:induction false} NumberedStepNoDot(w1: string, sign: string, d: string, w2: string)
    requires IsBlank(w1) && IsBlank(w2)
    requires sign == "" || sign == "+" || sign == "-"
    requires IsDigitRun(d)
    ensures ExtractStepNumber(w1 + sign + d + w2) ==
            if sign == "-" then -(DigitsValue(d) as int) else DigitsValue(d)
  {
    PaddedLiteral(w1, sign, d, w2);
    SplitNoSep(w1 + sign + d + w2, '.');
    ParseSignedDigits(sign, d);
  }

  /** "7" has number 7. */
  lemma {:induction false} BareNumberExample()
    ensures ExtractStepNumber("7") == 7
  {
    assert "7" == "" + "" + "7" + "";
    assert DigitsValue("7") == 7 by {
      assert "7"[..0] == [];
    }
    NumberedStepNoDot("", "", "7", "");
  }

  /** A step whose stripped text before the first '.' is not an optional
      sign followed by a digit run ("Step 1", "1a", "3 Click") gets the
      sentinel: extract_step_number never raises. */
  lemma {:induction false} UnnumberedStep(text: string)
    requires !IsSignedDigits(Strip(Split(text, '.')[0]))
    ensures ExtractStepNumber(text) == NO_STEP_NUMBER
  {
    var t := Strip(Split(text, '.')[0]);
    StripStrip(Split(text, '.')[0]);
    ParseSignedExactly(t);
  }

  /** In particular, a prefix without any digit gives the sentinel. */
  lemma {:induction false} DigitFreeStep(text: string)
    requires forall i | 0 <= i < |Split(text, '.')[0]| :: !IsDigit(Split(text, '.')[0][i])
    ensures ExtractStepNumber(text) == NO_STEP_NUMBER
  {
    var p := Split(text, '.')[0];
    var a := LeadingSpaces(p);
    var t := Strip(p);
    assert forall i | 0 <= i < |t| :: t[i] == p[a + i];
    ParseIntNeedsDigit(t);
  }

  lemma {:induction false} NumberedExample()
    ensures ExtractStepNumber("3. Click") == 3
  {
    assert "3. Click" == "" + "" + "3" + "" + "." + " Click";
    assert DigitsValue("3") == 3 by {
      assert "3"[..0] == [];
    }
    NumberedStep("", "", "3", "", " Click");
  }

  /** A leading zero does not matter: "01" is read as 1. */
  lemma {:induction false} LeadingZeroExample()
    ensures ExtractStepNumber("01. Open") == 1
  {
    assert "01. Open" == "" + "" + "01" + "" + "." + " Open";
    assert DigitsValue("01") == 1 by {
      assert "01"[..1] == "0" && "0"[..0] == [];
    }
    NumberedStep("", "", "01", "", " Open");
  }

  lemma {:induction false} UnnumberedExample()
    ensures ExtractStepNumber("Open page") == NO_STEP_NUMBER
  {
    var s := "Open page";
    assert forall i | 0 <= i < |s| :: s[i] != '.' && !IsDigit(s[i]);
    SplitNoSep(s, '.');
    DigitFreeStep(s);
  }

  /** A number after a word is not a step number. */
  lemma {:induction false} WordBeforeNumberExample()
    ensures ExtractStepNumber("Step 1. Open") == NO_STEP_NUMBER
  {
    var p := "Step 1";
    assert forall i | 0 <= i < |p| :: p[i] != '.';
    assert "Step 1. Open" == p + ['.'] + " Open";
    SplitAtSep(p, '.', " Open");
    OutsideRanges('S', SPACE_RANGES);
    NotSpace('1');
    StripTrimmed(p);
    assert Split("Step 1. Open", '.')[0] == p;
    assert !IsDigitRun(p) by {
      assert p[0] == 'S';
    }
    assert !IsSignedDigits(p);
    UnnumberedStep("Step 1. Open");
  }

  // ----- completion order -----

  function Indices(n: nat): (r: seq<nat>)
    ensures |r| == n && forall i | 0 <= i < n :: r[i] == i
  {
    seq(n, i requires 0 <= i < n => i)
  }

  /** order lists every index below n exactly once: as_completed yields each
      submitted future once, in an order nothing constrains. */
  predicate IsPermutation(order: seq<nat>, n: nat)
  {
    multiset(order) == multiset(Indices(n))
  }

  lemma {:induction false} PermutationInRange(order: seq<nat>, n: nat)
    requires IsPermutation(order, n)
    ensures |order| == n
    ensures forall i | 0 <= i < |order| :: order[i] < n
  {
    assert |multiset(order)| == |multiset(Indices(n))|;
    forall i | 0 <= i < |order| ensures order[i] < n {
      assert order[i] in multiset(Indices(n));
    }
  }

  /** The elements of s taken in the order the indices give. */
  function Permute<T>(s: seq<T>, order: seq<nat>): (r: seq<T>)
    requires forall i | 0 <= i < |order| :: order[i] < |s|
    ensures |r| == |order|
    ensures forall i | 0 <= i < |order| :: r[i] == s[order[i]]
  {
    seq(|order|, i requires 0 <= i < |order| => s[order[i]])
  }

  lemma {:induction false} PermuteConcat<T>(s: seq<T>, u: seq<nat>, v: seq<nat>)
    requires forall i | 0 <= i < |u| :: u[i] < |s|
    requires forall i | 0 <= i < |v| :: v[i] < |s|
    ensures forall i | 0 <= i < |u + v| :: (u + v)[i] < |s|
    ensures Permute(s, u + v) == Permute(s, u) + Permute(s, v)
  {
    assert forall i | 0 <= i < |u + v| :: (u + v)[i] == if i < |u| then u[i] else v[i - |u|];
  }

  lemma {:induction false} MultisetWithout<T>(b: seq<T>, k: nat)
    requires k < |b|
    ensures multiset(b[..k] + b[k + 1..]) == multiset(b) - multiset{b[k]}
  {
    assert b == b[..k] + [b[k]] + b[k + 1..];
  }

  predicate IndicesBelow(order: seq<nat>, n: nat)
  {
    forall i | 0 <= i < |order| :: order[i] < n
  }

  /** Taking out one index takes out one copy of the element it selects. */
  lemma {:induction false} PermuteRemove<T>(s: seq<T>, b: seq<nat>, k: nat)
    requires forall i | 0 <= i < |b| :: b[i] < |s|
    requires k < |b|
    ensures IndicesBelow(b[..k] + b[k + 1..], |s|)
    ensures multiset(Permute(s, b)) == multiset(Permute(s, b[..k] + b[k + 1..])) + multiset{s[b[k]]}
  {
    var b1, b2 := b[..k], b[k + 1..];
    assert b == b1 + [b[k]] + b2;
    PermuteConcat(s, b1, [b[k]]);
    PermuteConcat(s, b1 + [b[k]], b2);
    PermuteConcat(s, b1, b2);
  }

  /** The first element of a has a position k in any b with the same
      elements, and the rest of a has the same elements as b without k. */
  lemma {:induction false} MatchFirst(a: seq<nat>, b: seq<nat>) returns (k: nat)
    requires a != [] && multiset(a) == multiset(b)
    ensures k < |b| && b[k] == a[0]
    ensures multiset(a[1..]) == multiset(b[..k] + b[k + 1..])
  {
    assert a[0] in multiset(b);
    k :| 0 <= k < |b| && b[k] == a[0];
    MultisetWithout(b, k);
    MultisetWithoutFirst(a);
  }

  lemma {:induction false} MultisetWithoutFirst<T>(a: seq<T>)
    requires a != []
    ensures multiset(a[1..]) == multiset(a) - multiset{a[0]}
  {
    assert a == [a[0]] + a[1..];
  }

  lemma {:induction false} PermuteStep<T>(s: seq<T>, a: seq<nat>, b: seq<nat>, k: nat)
    requires IndicesBelow(a, |s|) && IndicesBelow(b, |s|)
    requires a != [] && k < |b| && b[k] == a[0]
    requires IndicesBelow(b[..k] + b[k + 1..], |s|)
    requires multiset(Permute(s, a[1..])) == multiset(Permute(s, b[..k] + b[k + 1..]))
    ensures multiset(Permute(s, a)) == multiset(Permute(s, b))
  {
    PermuteRemove(s, b, k);
    PermuteRemove(s, a, 0);
    assert a[..0] + a[0 + 1..] == a[1..];
  }

  lemma {:induction false} PermuteSameIndices<T>(s: seq<T>, a: seq<nat>, b: seq<nat>)
    requires IndicesBelow(a, |s|) && IndicesBelow(b, |s|)
    requires multiset(a) == multiset(b)
    ensures multiset(Permute(s, a)) == multiset(Permute(s, b))
    decreases |a|
  {
    if a == [] {
      assert |b| == |multiset(b)| == 0;
    } else {
      var k := MatchFirst(a, b);
      PermuteRemove(s, b, k);
      PermuteSameIndices(s, a[1..], b[..k] + b[k + 1..]);
      PermuteStep(s, a, b, k);
    }
  }

  /** Whatever the completion order, each element appears as often as before. */
  lemma {:induction false} PermutePreservesMultiset<T>(s: seq<T>, order: seq<nat>)
    requires IsPermutation(order, |s|)
    ensures forall i | 0 <= i < |order| :: order[i] < |s|
    ensures multiset(Permute(s, order)) == multiset(s)
  {
    PermutationInRange(order, |s|);
    assert IndicesBelow(Indices(|s|), |s|);
    PermuteSameIndices(s, order, Indices(|s|));
    assert Permute(s, Indices(|s|)) == s;
  }

  // ----- stable sort by key -----

  predicate SortedBy<T>(s: seq<T>, key: T -> int)
  {
    forall i, j | 0 <= i < j < |s| :: key(s[i]) <= key(s[j])
  }

  predicate StrictlyIncreasingBy<T>(s: seq<T>, key: T -> int)
  {
    forall i, j | 0 <= i < j < |s| :: key(s[i]) < key(s[j])
  }

  /** The elements of s with key k, in their order in s. A sort is stable
      exactly when it leaves each of these subsequences as it was. */
  function WithKey<T>(s: seq<T>, key: T -> int, k: int): seq<T>
  {
    if s == [] then []
    else WithKey(s[..|s| - 1], key, k) + (if key(s[|s| - 1]) == k then [s[|s| - 1]] else [])
  }

  lemma {:induction false} WithKeySnoc<T>(s: seq<T>, x: T, key: T -> int, k: int)
    ensures WithKey(s + [x], key, k) == WithKey(s, key, k) + (if key(x) == k then [x] else [])
  {
    assert (s + [x])[..|s|] == s;
  }

  /** WithKey keeps every occurrence of an element with key k and nothing else. */
  lemma {:induction false} WithKeyCount<T>(s: seq<T>, key: T -> int, k: int, x: T)
    ensures multiset(WithKey(s, key, k))[x] == if key(x) == k then multiset(s)[x] else 0
  {
    if s != [] {
      var p := s[..|s| - 1];
      WithKeyCount(p, key, k, x);
      assert s == p + [s[|s| - 1]];
    }
  }

  lemma {:induction false} WithKeyMember<T>(s: seq<T>, key: T -> int, k: int, x: T)
    requires x in WithKey(s, key, k)
    ensures x in s && key(x) == k
  {
    WithKeyCount(s, key, k, x);
    assert multiset(WithKey(s, key, k))[x] > 0;
  }

  lemma {:induction false} WithKeySameMultiset<T(!new)>(a: seq<T>, b: seq<T>, key: T -> int, k: int)
    requires multiset(a) == multiset(b)
    ensures multiset(WithKey(a, key, k)) == multiset(WithKey(b, key, k))
  {
    var wa, wb := WithKey(a, key, k), WithKey(b, key, k);
    forall x ensures multiset(wa)[x] == multiset(wb)[x] {
      WithKeyCount(a, key, k, x);
      WithKeyCount(b, key, k, x);
      assert multiset(a)[x] == multiset(b)[x];
    }
    assert multiset(wa) == multiset(wb);
  }

  /** Insert x after every element whose key is at most x's. */
  function Insert<T>(t: seq<T>, x: T, key: T -> int): seq<T>
  {
    if t == [] || key(t[|t| - 1]) <= key(x) then t + [x]
    else Insert(t[..|t| - 1], x, key) + [t[|t| - 1]]
  }

  /** list.sort(key=key): a stable insertion sort. */
  function SortBy<T>(s: seq<T>, key: T -> int): seq<T>
  {
    if s == [] then []
    else Insert(SortBy(s[..|s| - 1], key), s[|s| - 1], key)
  }

  lemma {:induction false} SortedSnoc<T>(u: seq<T>, y: T, key: T -> int)
    requires SortedBy(u, key)
    requires forall i | 0 <= i < |u| :: key(u[i]) <= key(y)
    ensures SortedBy(u + [y], key)
  {
  }

  /** Every element of u has a key at most key(l) when u holds the elements
      of p, all with keys at most key(l), and one more element x with a
      smaller key. */
  lemma {:induction false} BoundedByLast<T>(u: seq<T>, p: seq<T>, x: T, l: T, key: T -> int)
    requires multiset(u) == multiset(p) + multiset{x}
    requires forall i | 0 <= i < |p| :: key(p[i]) <= key(l)
    requires key(x) < key(l)
    ensures forall i | 0 <= i < |u| :: key(u[i]) <= key(l)
  {
    forall i | 0 <= i < |u| ensures key(u[i]) <= key(l) {
      assert u[i] in multiset(p) + multiset{x};
      if u[i] != x {
        assert u[i] in p;
      }
    }
  }

  /** Inserting into a sorted sequence keeps it sorted and adds one copy of x. */
  lemma {:induction false} InsertSpec<T>(t: seq<T>, x: T, key: T -> int)
    requires SortedBy(t, key)
    ensures SortedBy(Insert(t, x, key), key)
    ensures multiset(Insert(t, x, key)) == multiset(t) + multiset{x}
  {
    if t == [] || key(t[|t| - 1]) <= key(x) {
      SortedSnoc(t, x, key);
    } else {
      var p, l := t[..|t| - 1], t[|t| - 1];
      assert t == p + [l];
      InsertSpec(p, x, key);
      var u := Insert(p, x, key);
      BoundedByLast(u, p, x, l, key);
      SortedSnoc(u, l, key);
    }
  }

  /** Inserting x appends it to the elements with x's key and leaves the
      elements with any other key as they were. */
  lemma {:induction false} InsertStable<T>(t: seq<T>, x: T, key: T -> int)
    ensures forall k :: WithKey(Insert(t, x, key), key, k) ==
                        WithKey(t, key, k) + (if key(x) == k then [x] else [])
  {
    if t == [] || key(t[|t| - 1]) <= key(x) {
      forall k ensures WithKey(t + [x], key, k) == WithKey(t, key, k) + (if key(x) == k then [x] else []) {
        WithKeySnoc(t, x, key, k);
      }
    } else {
      var p, l := t[..|t| - 1], t[|t| - 1];
      assert t == p + [l];
      InsertStable(p, x, key);
      var u := Insert(p, x, key);
      forall k ensures WithKey(u + [l], key, k) == WithKey(t, key, k) + (if key(x) == k then [x] else []) {
        WithKeySnoc(u, l, key, k);
        WithKeySnoc(p, l, key, k);
      }
    }
  }

  lemma {:induction false} MultisetOfInitLast<T>(s: seq<T>)
    requires s != []
    ensures multiset(s) == multiset(s[..|s| - 1]) + multiset{s[|s| - 1]}
  {
    assert s == s[..|s| - 1] + [s[|s| - 1]];
  }

  /** SortBy sorts by key and keeps every element. */
  lemma {:induction false} SortBySpec<T>(s: seq<T>, key: T -> int)
    ensures SortedBy(SortBy(s, key), key)
    ensures multiset(SortBy(s, key)) == multiset(s)
  {
    if s != [] {
      var p, l := s[..|s| - 1], s[|s| - 1];
      var u := SortBy(p, key);
      SortBySpec(p, key);
      InsertSpec(u, l, key);
      assert SortBy(s, key) == Insert(u, l, key);
      MultisetOfInitLast(s);
    }
  }

  /** SortBy is stable: the elements of each key keep their order. */
  lemma {:induction false} SortByStable<T>(s: seq<T>, key: T -> int)
    ensures forall k :: WithKey(SortBy(s, key), key, k) == WithKey(s, key, k)
  {
    if s != [] {
      var p, l := s[..|s| - 1], s[|s| - 1];
      SortByStable(p, key);
      InsertStable(SortBy(p, key), l, key);
      forall k ensures WithKey(SortBy(s, key), key, k) == WithKey(s, key, k) {
        WithKeySnoc(p, l, key, k);
      }
    }
  }

  /** Sorting two elements with the same key leaves them as they are. */
  lemma {:induction false} SortTwoTied<T>(y: T, x: T, key: T -> int)
    requires key(x) == key(y)
    ensures SortBy([y, x], key) == [y, x]
  {
    assert [y, x][..1] == [y];
    assert [y][..0] == [];
    assert SortBy([y], key) == Insert([], y, key) == [y];
  }

  lemma {:induction false} SortedLastIsMax<T>(s: seq<T>, key: T -> int, x: T)
    requires SortedBy(s, key) && s != [] && x in s
    ensures key(x) <= key(s[|s| - 1])
  {
    var i :| 0 <= i < |s| && s[i] == x;
    if i < |s| - 1 {
      assert key(s[i]) <= key(s[|s| - 1]);
    }
  }

  lemma {:induction false} SnocCancel<T>(p: seq<T>, x: T, q: seq<T>, y: T)
    requires p + [x] == q + [y]
    ensures p == q && x == y
  {
    assert p == (p + [x])[..|p|];
    assert q == (q + [y])[..|q|];
    assert x == (p + [x])[|p|];
  }

  lemma {:induction false} DropLastAgrees<T>(p: seq<T>, q: seq<T>, x: T, key: T -> int)
    requires forall k :: WithKey(p + [x], key, k) == WithKey(q + [x], key, k)
    ensures forall k :: WithKey(p, key, k) == WithKey(q, key, k)
  {
    forall k ensures WithKey(p, key, k) == WithKey(q, key, k) {
      WithKeySnoc(p, x, key, k);
      WithKeySnoc(q, x, key, k);
      assert WithKey(p + [x], key, k) == WithKey(q + [x], key, k);
      if key(x) == k {
        SnocCancel(WithKey(p, key, k), x, WithKey(q, key, k), x);
        assert WithKey(p, key, k) == WithKey(q, key, k);
      } else {
        assert WithKey(p, key, k) + [] == WithKey(p, key, k);
        assert WithKey(p, key, k) == WithKey(q, key, k);
      }
    }
  }

  lemma {:induction false} LastHasItsKey<T>(s: seq<T>, key: T -> int)
    requires s != []
    ensures WithKey(s, key, key(s[|s| - 1])) != []
  {
  }

  /** Two sorted sequences with the same subsequences of equal keys end
      with the same element: the last of those with the largest key. */
  lemma {:induction false} LastsAgree<T>(a: seq<T>, b: seq<T>, key: T -> int)
    requires a != [] && b != [] && SortedBy(a, key) && SortedBy(b, key)
    requires forall k :: WithKey(a, key, k) == WithKey(b, key, k)
    ensures a[|a| - 1] == b[|b| - 1]
  {
    var a', x := a[..|a| - 1], a[|a| - 1];
    var b', y := b[..|b| - 1], b[|b| - 1];
    assert a == a' + [x] && b == b' + [y];
    WithKeySnoc(a', x, key, key(x));
    WithKeySnoc(b', y, key, key(y));
    WithKeyMember(b, key, key(x), x);
    WithKeyMember(a, key, key(y), y);
    SortedLastIsMax(a, key, y);
    SortedLastIsMax(b, key, x);
    var k := key(x);
    assert key(y) == k;
    var w := WithKey(a, key, k);
    assert w == WithKey(a', key, k) + [x];
    assert w == WithKey(b', key, k) + [y];
    assert w[|w| - 1] == x && w[|w| - 1] == y;
  }

  /** A sorted sequence is determined by its subsequences of equal keys: any
      stable sort of a sequence gives the same result as SortBy. */
  lemma {:induction false} StableSortUnique<T>(a: seq<T>, b: seq<T>, key: T -> int)
    requires SortedBy(a, key) && SortedBy(b, key)
    requires forall k :: WithKey(a, key, k) == WithKey(b, key, k)
    ensures a == b
    decreases |a| + |b|
  {
    if a == [] || b == [] {
      if a != [] || b != [] {
        var s := if a != [] then a else b;
        LastHasItsKey(s, key);
        assert false;
      }
    } else {
      var a', x := a[..|a| - 1], a[|a| - 1];
      var b', y := b[..|b| - 1], b[|b| - 1];
      LastsAgree(a, b, key);
      assert a == a' + [x] && b == b' + [x];
      DropLastAgrees(a', b', x, key);
      StableSortUnique(a', b', key);
    }
  }

  lemma {:induction false} AtMostOneWithKey<T>(s: seq<T>, key: T -> int, k: int)
    requires StrictlyIncreasingBy(s, key)
    ensures |WithKey(s, key, k)| <= 1
  {
    if s != [] {
      var p, l := s[..|s| - 1], s[|s| - 1];
      AtMostOneWithKey(p, key, k);
      if key(l) == k && WithKey(p, key, k) != [] {
        WithKeyMember(p, key, k, WithKey(p, key, k)[0]);
        assert false;
      }
    }
  }

  lemma {:induction false} SmallSeqByMultiset<T>(a: seq<T>, b: seq<T>)
    requires |b| <= 1 && multiset(a) == multiset(b)
    ensures a == b
  {
    assert |a| == |multiset(a)| == |multiset(b)| == |b|;
    if |b| == 1 {
      assert a[0] in multiset(b);
    }
  }

  /** When the keys strictly increase along the original order, sorting any
      rearrangement of it by key restores the original order. */
  lemma {:induction false} RestoresOriginalOrder<T(!new)>(original: seq<T>, arrival: seq<T>, key: T -> int)
    requires StrictlyIncreasingBy(original, key)
    requires multiset(arrival) == multiset(original)
    ensures SortBy(arrival, key) == original
  {
    SortBySpec(arrival, key);
    SortByStable(arrival, key);
    forall k ensures WithKey(SortBy(arrival, key), key, k) == WithKey(original, key, k) {
      WithKeySameMultiset(arrival, original, key, k);
      AtMostOneWithKey(original, key, k);
      SmallSeqByMultiset(WithKey(arrival, key, k), WithKey(original, key, k));
    }
    StableSortUnique(SortBy(arrival, key), original, key);
  }

  // ----- when the original order is not restored -----

  /** No element occurs twice. */
  ghost predicate AllDifferent<T>(s: seq<T>)
  {
    forall i, j | 0 <= i < j < |s| :: s[i] != s[j]
  }

  /** x occurs in s somewhere before y. */
  ghost predicate Precedes<T>(s: seq<T>, x: T, y: T)
  {
    exists p, q | 0 <= p < q < |s| :: s[p] == x && s[q] == y
  }

  /** In a sequence without repeats, two elements occur in one order only. */
  lemma {:induction false} PrecedesOneWay<T>(s: seq<T>, x: T, y: T)
    requires AllDifferent(s) && Precedes(s, x, y)
    ensures !Precedes(s, y, x)
  {
  }

  lemma {:induction false} WithKeyKeepsMember<T>(s: seq<T>, key: T -> int, x: T)
    requires x in s
    ensures x in WithKey(s, key, key(x))
  {
    WithKeyCount(s, key, key(x), x);
    assert multiset(s)[x] > 0;
  }

  /** WithKey does not change the order of two elements with key k. */
  lemma {:induction false} WithKeyPrecedes<T>(s: seq<T>, key: T -> int, x: T, y: T)
    requires Precedes(s, x, y) && key(x) == key(y)
    ensures Precedes(WithKey(s, key, key(x)), x, y)
  {
    var k := key(x);
    var p, l := s[..|s| - 1], s[|s| - 1];
    var a, b :| 0 <= a < b < |s| && s[a] == x && s[b] == y;
    assert s == p + [l];
    var w := WithKey(p, key, k);
    if b < |s| - 1 {
      assert p[a] == x && p[b] == y;
      WithKeyPrecedes(p, key, x, y);
      var c, d :| 0 <= c < d < |w| && w[c] == x && w[d] == y;
      var w' := WithKey(s, key, k);
      assert w' == w + (if key(l) == k then [l] else []);
      assert w'[c] == x && w'[d] == y;
    } else {
      assert p[a] == x;
      WithKeyKeepsMember(p, key, x);
      var c :| 0 <= c < |w| && w[c] == x;
      var w' := WithKey(s, key, k);
      assert w' == w + [y];
      assert w'[c] == x && w'[|w|] == y;
    }
  }

  lemma {:induction false} WithKeyAllDifferent<T>(s: seq<T>, key: T -> int, k: int)
    requires AllDifferent(s)
    ensures AllDifferent(WithKey(s, key, k))
  {
    if s != [] {
      var p, l := s[..|s| - 1], s[|s| - 1];
      assert forall i | 0 <= i < |p| :: p[i] == s[i];
      WithKeyAllDifferent(p, key, k);
      var w := WithKey(p, key, k);
      if key(l) == k {
        if l in w {
          WithKeyMember(p, key, k, l);
          assert false;
        }
        var w' := w + [l];
        forall i, j | 0 <= i < j < |w'| ensures w'[i] != w'[j] {
          if j == |w| {
            assert w'[i] == w[i];
          } else {
            assert w'[i] == w[i] && w'[j] == w[j];
          }
        }
      }
    }
  }

  /** The positions i and j of order exchanged. */
  function Swap(order: seq<nat>, i: nat, j: nat): (r: seq<nat>)
    requires i < j < |order|
    ensures |r| == |order| && r[i] == order[j] && r[j] == order[i]
    ensures forall m | 0 <= m < |order| && m != i && m != j :: r[m] == order[m]
  {
    order[i := order[j]][j := order[i]]
  }

  lemma {:induction false} SwapIsPermutation(n: nat, i: nat, j: nat)
    requires i < j < n
    ensures IsPermutation(Swap(Indices(n), i, j), n)
    ensures IndicesBelow(Swap(Indices(n), i, j), n)
  {
    var t := Indices(n);
    var r := Swap(t, i, j);
    assert r == t[..i] + [j] + t[i + 1..j] + [i] + t[j + 1..];
    assert t == t[..i] + [i] + t[i + 1..j] + [j] + t[j + 1..];
  }

  /** A sorted sequence without repeats whose keys do not strictly increase
      has two neighbours-in-key, i before j, that a swap puts out of order. */
  lemma {:induction false} SwappedTieNotRestored<T>(s: seq<T>, key: T -> int, i: nat, j: nat)
    requires AllDifferent(s) && i < j < |s| && key(s[i]) == key(s[j])
    requires IsPermutation(Swap(Indices(|s|), i, j), |s|)
    requires IndicesBelow(Swap(Indices(|s|), i, j), |s|)
    ensures SortBy(Permute(s, Swap(Indices(|s|), i, j)), key) != s
  {
    var arrival := Permute(s, Swap(Indices(|s|), i, j));
    var k := key(s[i]);
    assert arrival[i] == s[j] && arrival[j] == s[i];
    WithKeyPrecedes(s, key, s[i], s[j]);
    WithKeyPrecedes(arrival, key, s[j], s[i]);
    WithKeyAllDifferent(s, key, k);
    PrecedesOneWay(WithKey(s, key, k), s[i], s[j]);
    SortByStable(arrival, key);
    assert WithKey(SortBy(arrival, key), key, k) == WithKey(arrival, key, k);
  }

  /** The converse of RestoresOriginalOrder: when the elements differ and the
      keys do not strictly increase, some arrival order is not sorted back
      into the original one. A pair out of key order stays wrong even when
      nothing is rearranged; a tied pair is wrong once it arrives swapped. */
  lemma {:induction false} NotRestoredUnlessIncreasing<T>(s: seq<T>, key: T -> int)
    requires AllDifferent(s) && !StrictlyIncreasingBy(s, key)
    ensures exists order | IsPermutation(order, |s|) && IndicesBelow(order, |s|) ::
              SortBy(Permute(s, order), key) != s
  {
    if SortBy(s, key) != s {
      UnsortedNotRestored(s, key);
    } else {
      SortBySpec(s, key);
      TieNotRestored(s, key);
    }
  }

  lemma {:induction false} UnsortedNotRestored<T>(s: seq<T>, key: T -> int)
    requires SortBy(s, key) != s
    ensures exists order | IsPermutation(order, |s|) && IndicesBelow(order, |s|) ::
              SortBy(Permute(s, order), key) != s
  {
    var id := Indices(|s|);
    assert Permute(s, id) == s;
    assert IsPermutation(id, |s|) && IndicesBelow(id, |s|);
    assert SortBy(Permute(s, id), key) != s;
  }

  lemma {:induction false} TieNotRestored<T>(s: seq<T>, key: T -> int)
    requires AllDifferent(s) && SortedBy(s, key) && !StrictlyIncreasingBy(s, key)
    ensures exists order | IsPermutation(order, |s|) && IndicesBelow(order, |s|) ::
              SortBy(Permute(s, order), key) != s
  {
    var i, j :| 0 <= i < j < |s| && key(s[i]) >= key(s[j]);
    assert key(s[i]) <= key(s[j]);
    SwapIsPermutation(|s|, i, j);
    SwappedTieNotRestored(s, key, i, j);
    var order := Swap(Indices(|s|), i, j);
    assert SortBy(Permute(s, order), key) != s;
  }
}
