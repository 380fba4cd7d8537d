/** Splitting a test case's Steps cell into step texts: the cell is
    stripped, split at each newline, and every line that is not blank is
    kept, stripped, in order. */
module StepSplit {
  import opened Text

  /** Not empty, and neither starting nor ending with whitespace. */
  predicate IsStepText(s: string)
  {
    s != [] && !IsSpace(s[0]) && !IsSpace(s[|s| - 1])
  }

  /** The stripped line as a list of at most one step: none when it is blank. */
  function StepOfLine(l: string): seq<string>
  {
    if IsBlank(l) then [] else [Strip(l)]
  }

  /** The stripped non-blank lines, in order. */
  function NonBlankLines(lines: seq<string>): seq<string>
  {
    if lines == [] then [] else StepOfLine(lines[0]) + NonBlankLines(lines[1..])
  }

  /** steps = [s.strip() for s in str(cell).strip().split("\n") if s.strip()] */
  function SplitSteps(raw: string): seq<string>
  {
    NonBlankLines(Split(Strip(raw), '\n'))
  }

  /** The number of lines holding a character other than whitespace. */
  function CountNonBlank(lines: seq<string>): nat
  {
    if lines == [] then 0
    else CountNonBlank(lines[..|lines| - 1]) + (if IsBlank(lines[|lines| - 1]) then 0 else 1)
  }

  lemma {:induction false} NonBlankLinesCons(l: string, rest: seq<string>)
    ensures NonBlankLines([l] + rest) == StepOfLine(l) + NonBlankLines(rest)
  {
    assert ([l] + rest)[1..] == rest;
  }

  lemma {:induction false} NonBlankLinesConcat(a: seq<string>, b: seq<string>)
    ensures NonBlankLines(a + b) == NonBlankLines(a) + NonBlankLines(b)
  {
    if a == [] {
      assert a + b == b;
    } else {
      assert a + b == [a[0]] + (a[1..] + b);
      NonBlankLinesCons(a[0], a[1..] + b);
      NonBlankLinesConcat(a[1..], b);
    }
  }

  /** Every step is a non-empty text without surrounding whitespace. */
  lemma {:induction false} NonBlankLinesAreStepTexts(lines: seq<string>)
    ensures forall i | 0 <= i < |NonBlankLines(lines)| :: IsStepText(NonBlankLines(lines)[i])
  {
    if lines != [] {
      NonBlankLinesAreStepTexts(lines[1..]);
    }
  }

  /** One step per line that is not blank. */
  lemma {:induction false} NonBlankLinesCount(lines: seq<string>)
    ensures |NonBlankLines(lines)| == CountNonBlank(lines)
  {
    if lines != [] {
      var p, l := lines[..|lines| - 1], lines[|lines| - 1];
      assert lines == p + [l];
      NonBlankLinesConcat(p, [l]);
      NonBlankLinesCons(l, []);
      NonBlankLinesCount(p);
    }
  }

  /** Lines that are already step texts are kept as they are. */
  lemma {:induction false} NonBlankLinesOfStepTexts(lines: seq<string>)
    requires forall i | 0 <= i < |lines| :: IsStepText(lines[i])
    ensures NonBlankLines(lines) == lines
  {
    if lines != [] {
      var l := lines[0];
      assert IsStepText(l);
      StripTrimmed(l);
      NonBlankLinesOfStepTexts(lines[1..]);
      assert lines == [l] + lines[1..];
    }
  }

  /** A blank character put in front of a line changes the step it gives in no way. */
  lemma {:induction false} StepOfLineFront(c: char, l: string)
    requires IsSpace(c)
    ensures StepOfLine([c] + l) == StepOfLine(l)
  {
    BlankCons(c, l);
    StripSpaceFront(c, l);
  }

  lemma {:induction false} StepOfLineBack(l: string, c: char)
    requires IsSpace(c)
    ensures StepOfLine(l + [c]) == StepOfLine(l)
  {
    BlankSnoc(l, c);
    StripSpaceBack(l, c);
  }

  /** A blank character in front of the cell changes no step. */
  lemma {:induction false} SplitBlankFront(c: char, s: string)
    requires IsSpace(c)
    ensures NonBlankLines(Split([c] + s, '\n')) == NonBlankLines(Split(s, '\n'))
  {
    var t := [c] + s;
    var q := Split(s, '\n');
    assert t[0] == c && t[1..] == s;
    if c == '\n' {
      assert Split(t, '\n') == [[]] + q;
      NonBlankLinesCons([], q);
      assert IsBlank([]);
    } else {
      assert Split(t, '\n') == [[c] + q[0]] + q[1..];
      NonBlankLinesCons([c] + q[0], q[1..]);
      NonBlankLinesCons(q[0], q[1..]);
      assert q == [q[0]] + q[1..];
      StepOfLineFront(c, q[0]);
    }
  }

  /** A blank character at the end of the cell changes no step. */
  lemma {:induction false} SplitBlankBack(s: string, c: char)
    requires IsSpace(c)
    ensures NonBlankLines(Split(s + [c], '\n')) == NonBlankLines(Split(s, '\n'))
  {
    var p := Split(s, '\n');
    var init, last := p[..|p| - 1], p[|p| - 1];
    assert p == init + [last];
    NonBlankLinesConcat(init, [last]);
    NonBlankLinesCons(last, []);
    if c == '\n' {
      SplitSnocSep(s, '\n');
      NonBlankLinesConcat(p, [[]]);
      NonBlankLinesCons([], []);
      assert IsBlank([]);
    } else {
      SplitSnocOther(s, c, '\n');
      NonBlankLinesConcat(init, [last + [c]]);
      NonBlankLinesCons(last + [c], []);
      StepOfLineBack(last, c);
    }
  }

  lemma {:induction false} BlankTail(w: string)
    requires IsBlank(w) && w != []
    ensures IsSpace(w[0]) && IsBlank(w[1..])
  {
    assert forall i | 0 <= i < |w| - 1 :: w[1..][i] == w[i + 1];
  }

  lemma {:induction false} BlankInit(w: string)
    requires IsBlank(w) && w != []
    ensures IsSpace(w[|w| - 1]) && IsBlank(w[..|w| - 1])
  {
    assert forall i | 0 <= i < |w| - 1 :: w[..|w| - 1][i] == w[i];
  }

  lemma {:induction false} SplitBlankPrefix(w: string, s: string)
    requires IsBlank(w)
    ensures NonBlankLines(Split(w + s, '\n')) == NonBlankLines(Split(s, '\n'))
  {
    if w == [] {
      assert w + s == s;
    } else {
      BlankTail(w);
      SplitBlankPrefix(w[1..], s);
      assert w + s == [w[0]] + (w[1..] + s);
      SplitBlankFront(w[0], w[1..] + s);
    }
  }

  lemma {:induction false} SplitBlankSuffix(s: string, w: string)
    requires IsBlank(w)
    ensures NonBlankLines(Split(s + w, '\n')) == NonBlankLines(Split(s, '\n'))
  {
    if w == [] {
      assert s + w == s;
    } else {
      BlankInit(w);
      var w' := w[..|w| - 1];
      SplitBlankSuffix(s, w');
      assert s + w == (s + w') + [w[|w| - 1]];
      SplitBlankBack(s + w', w[|w| - 1]);
    }
  }

  /** Stripping the whole cell first makes no difference: the steps are the
      stripped non-blank lines of the cell as it stands. */
  lemma {:induction false} SplitStepsOfLines(raw: string)
    ensures SplitSteps(raw) == NonBlankLines(Split(raw, '\n'))
  {
    var a := LeadingSpaces(raw);
    var core := Strip(raw);
    var w1, w2 := raw[..a], raw[a + |core|..];
    assert raw == w1 + (core + w2);
    SplitBlankPrefix(w1, core + w2);
    SplitBlankSuffix(core, w2);
  }

  /** The number of steps is the number of lines holding a character other
      than whitespace. */
  lemma {:induction false} SplitStepsCount(raw: string)
    ensures |SplitSteps(raw)| == CountNonBlank(Split(raw, '\n'))
  {
    SplitStepsOfLines(raw);
    NonBlankLinesCount(Split(raw, '\n'));
  }

  lemma {:induction false} JoinFirst(sep: string, parts: seq<string>)
    requires |parts| >= 1 && parts[0] != []
    ensures Join(sep, parts) != [] && Join(sep, parts)[0] == parts[0][0]
  {
  }

  lemma {:induction false} JoinLast(sep: string, parts: seq<string>)
    requires |parts| >= 1 && parts[|parts| - 1] != []
    ensures var j := Join(sep, parts);
            j != [] && j[|j| - 1] == parts[|parts| - 1][|parts[|parts| - 1]| - 1]
  {
    if |parts| > 1 {
      JoinLast(sep, parts[1..]);
    }
  }

  /** Step texts joined by any separator form a text strip() leaves alone. */
  lemma {:induction false} JoinedStepsAreStripped(sep: string, steps: seq<string>)
    requires steps != [] && IsStepText(steps[0]) && IsStepText(steps[|steps| - 1])
    ensures Strip(Join(sep, steps)) == Join(sep, steps)
  {
    var j := Join(sep, steps);
    JoinFirst(sep, steps);
    JoinLast(sep, steps);
    assert !IsSpace(j[0]) && !IsSpace(j[|j| - 1]);
    StripTrimmed(j);
  }

  /** An empty cell has no steps. */
  lemma {:induction false} SplitStepsEmpty()
    ensures SplitSteps([]) == []
  {
    StripTrimmed([]);
    assert Split([], '\n') == [[]];
    NonBlankLinesCons([], []);
    assert IsBlank([]);
  }

  /** Writing step texts one per line and splitting the cell again gives the
      same steps back. */
  lemma {:induction false} SplitStepsOfJoin(steps: seq<string>)
    requires forall i | 0 <= i < |steps| :: IsStepText(steps[i]) && '\n' !in steps[i]
    ensures SplitSteps(Join("\n", steps)) == steps
  {
    if steps == [] {
      SplitStepsEmpty();
    } else {
      assert IsStepText(steps[0]) && IsStepText(steps[|steps| - 1]);
      JoinedStepsAreStripped("\n", steps);
      SplitJoin(steps, '\n');
      NonBlankLinesOfStepTexts(steps);
    }
  }
}
