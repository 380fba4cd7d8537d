/** Loops that append to one list and stop at the first step that raises.
    Collect appends a list of items per step (the analyzer's loop over the
    sheet's rows, the dashboard's loop over its cases); Gather appends one
    item per step (the rows of one test case, the records of one case's
    steps, the nine lookups of one record). */
module Chunks {
  import opened Wrappers

  /** The items of all parts in order, or the exception of the first part
      that raised. */
  function Collect<T, E>(parts: seq<Result<seq<T>, E>>): Result<seq<T>, E>
  {
    if parts == [] then Ok([])
    else
      match Collect(parts[..|parts| - 1])
      case Err(e) => Err(e)
      case Ok(before) =>
        match parts[|parts| - 1]
        case Err(e) => Err(e)
        case Ok(mine) => Ok(before + mine)
  }

  /** prefix with one part's items appended, or the exception that
      interrupted the appending. */
  function AppendedTo<T, E>(prefix: seq<T>, part: Result<seq<T>, E>): Result<seq<T>, E>
  {
    match part
    case Ok(items) => Ok(prefix + items)
    case Err(e) => Err(e)
  }

  /** The number of items of the parts that did not raise. */
  function Total<T, E>(parts: seq<Result<seq<T>, E>>): nat
  {
    if parts == [] then 0
    else Total(parts[..|parts| - 1]) + (if parts[|parts| - 1].Ok? then |parts[|parts| - 1].value| else 0)
  }

  function Sum(xs: seq<nat>): nat
  {
    if xs == [] then 0 else Sum(xs[..|xs| - 1]) + xs[|xs| - 1]
  }

  lemma {:induction false} PrefixOfPrefix<T>(s: seq<T>, n: nat, c: nat)
    requires c <= n <= |s|
    ensures s[..n][..c] == s[..c]
  {
  }

  /** One more part: the loop's step. */
  lemma {:induction false} CollectStep<T, E>(parts: seq<Result<seq<T>, E>>, c: nat)
    requires c < |parts|
    ensures Collect(parts[..c + 1]) ==
              match Collect(parts[..c])
              case Err(e) => Err(e)
              case Ok(before) =>
                match parts[c]
                case Err(e) => Err(e)
                case Ok(mine) => Ok(before + mine)
  {
    PrefixOfPrefix(parts, c + 1, c);
  }

  /** Once a prefix has raised, the whole loop raises the same exception. */
  lemma {:induction false} CollectErrorPersists<T, E>(parts: seq<Result<seq<T>, E>>, n: nat)
    requires n <= |parts| && Collect(parts[..n]).Err?
    ensures Collect(parts) == Collect(parts[..n])
    decreases |parts| - n
  {
    if n == |parts| {
      assert parts[..n] == parts;
    } else {
      CollectStep(parts, n);
      CollectErrorPersists(parts, n + 1);
    }
  }

  /** The loop finishes exactly when no part raises, and it then holds as
      many items as all parts together. */
  lemma {:induction false} CollectSucceeds<T, E>(parts: seq<Result<seq<T>, E>>)
    ensures Collect(parts).Ok? <==> forall c | 0 <= c < |parts| :: parts[c].Ok?
    ensures Collect(parts).Ok? ==> |Collect(parts).value| == Total(parts)
  {
    if parts != [] {
      var n := |parts| - 1;
      var init := parts[..n];
      CollectSucceeds(init);
      assert forall c | 0 <= c < n :: init[c] == parts[c];
    }
  }

  /** When the parts before c succeed and part c raises, the loop raises
      part c's exception. */
  lemma {:induction false} CollectFirstError<T, E>(parts: seq<Result<seq<T>, E>>, c: nat)
    requires c < |parts| && (forall d | 0 <= d < c :: parts[d].Ok?) && parts[c].Err?
    ensures Collect(parts) == Err(parts[c].error)
  {
    var p := parts[..c];
    assert forall d | 0 <= d < c :: p[d] == parts[d];
    CollectSucceeds(p);
    CollectStep(parts, c);
    CollectErrorPersists(parts, c + 1);
  }

  lemma {:induction false} SliceOfFront<T>(a: seq<T>, b: seq<T>, o: nat, k: nat)
    requires o + k <= |a|
    ensures (a + b)[o..o + k] == a[o..o + k]
  {
  }

  lemma {:induction false} SliceOfBack<T>(a: seq<T>, b: seq<T>)
    ensures (a + b)[|a|..|a| + |b|] == b
  {
  }

  /** The items of part c follow those of the parts before it. */
  lemma {:induction false} CollectLayout<T, E>(parts: seq<Result<seq<T>, E>>, c: nat)
    requires Collect(parts).Ok? && c < |parts|
    ensures parts[c].Ok?
    ensures Total(parts[..c]) + |parts[c].value| <= |Collect(parts).value|
    ensures Collect(parts).value[Total(parts[..c])..Total(parts[..c]) + |parts[c].value|] == parts[c].value
  {
    var n := |parts| - 1;
    var init := parts[..n];
    var before := Collect(init).value;
    var mine := parts[n].value;
    CollectSucceeds(init);
    if c == n {
      SliceOfBack(before, mine);
    } else {
      CollectLayout(init, c);
      PrefixOfPrefix(parts, n, c);
      assert init[c] == parts[c];
      SliceOfFront(before, mine, Total(parts[..c]), |parts[c].value|);
    }
  }

  /** Item j of part c sits at position Total(parts[..c]) + j. */
  lemma {:induction false} CollectItem<T, E>(parts: seq<Result<seq<T>, E>>, c: nat, j: nat)
    requires Collect(parts).Ok? && c < |parts|
    ensures parts[c].Ok?
    ensures j < |parts[c].value| ==>
              && Total(parts[..c]) + j < |Collect(parts).value|
              && Collect(parts).value[Total(parts[..c]) + j] == parts[c].value[j]
  {
    CollectLayout(parts, c);
    if j < |parts[c].value| {
      var all, o, k := Collect(parts).value, Total(parts[..c]), |parts[c].value|;
      assert all[o + j] == all[o..o + k][j];
    }
  }

  /** When every part that succeeds has the given number of items, the
      parts' items together number the sum of those counts. */
  lemma {:induction false} TotalOfCounts<T, E>(parts: seq<Result<seq<T>, E>>, counts: seq<nat>)
    requires |parts| == |counts|
    requires forall c | 0 <= c < |parts| :: parts[c].Ok? && |parts[c].value| == counts[c]
    ensures Total(parts) == Sum(counts)
  {
    if parts != [] {
      var n := |parts| - 1;
      assert forall c | 0 <= c < n :: parts[..n][c] == parts[c] && counts[..n][c] == counts[c];
      TotalOfCounts(parts[..n], counts[..n]);
    }
  }

  /** In a loop that finishes, the parts before c hold as many items as
      the counts before c add up to, when each part that succeeds holds its
      count of items. */
  lemma {:induction false} PrefixTotal<T, E>(parts: seq<Result<seq<T>, E>>, counts: seq<nat>, c: nat)
    requires Collect(parts).Ok? && |parts| == |counts| && c <= |parts|
    requires forall d | 0 <= d < |parts| :: parts[d].Ok? ==> |parts[d].value| == counts[d]
    ensures Total(parts[..c]) == Sum(counts[..c])
  {
    CollectSucceeds(parts);
    var p, q := parts[..c], counts[..c];
    assert forall d | 0 <= d < c :: p[d] == parts[d] && q[d] == counts[d];
    TotalOfCounts(p, q);
  }

  // ----- one item per step -----

  /** The values in order, or the exception of the first step that raised. */
  function Gather<T, E>(steps: seq<Result<T, E>>): (r: Result<seq<T>, E>)
    ensures r.Ok? ==> |r.value| == |steps|
  {
    if steps == [] then Ok([])
    else
      match Gather(steps[..|steps| - 1])
      case Err(e) => Err(e)
      case Ok(before) =>
        match steps[|steps| - 1]
        case Err(e) => Err(e)
        case Ok(x) => Ok(before + [x])
  }

  /** One more step: the loop's step. */
  lemma {:induction false} GatherStep<T, E>(steps: seq<Result<T, E>>, j: nat)
    requires j < |steps|
    ensures Gather(steps[..j + 1]) ==
              match Gather(steps[..j])
              case Err(e) => Err(e)
              case Ok(before) =>
                match steps[j]
                case Err(e) => Err(e)
                case Ok(x) => Ok(before + [x])
  {
    PrefixOfPrefix(steps, j + 1, j);
  }

  /** Once a prefix has raised, the whole loop raises the same exception. */
  lemma {:induction false} GatherErrorPersists<T, E>(steps: seq<Result<T, E>>, n: nat)
    requires n <= |steps| && Gather(steps[..n]).Err?
    ensures Gather(steps) == Gather(steps[..n])
    decreases |steps| - n
  {
    if n == |steps| {
      assert steps[..n] == steps;
    } else {
      GatherStep(steps, n);
      GatherErrorPersists(steps, n + 1);
    }
  }

  /** The loop finishes exactly when no step raises, and then holds the
      value of every step, in order. */
  lemma {:induction false} GatherSucceeds<T, E>(steps: seq<Result<T, E>>)
    ensures Gather(steps).Ok? <==> forall j | 0 <= j < |steps| :: steps[j].Ok?
    ensures Gather(steps).Ok? ==>
              && |Gather(steps).value| == |steps|
              && forall j | 0 <= j < |steps| :: steps[j] == Ok(Gather(steps).value[j])
  {
    if steps != [] {
      var n := |steps| - 1;
      var init := steps[..n];
      GatherSucceeds(init);
      assert forall j | 0 <= j < n :: init[j] == steps[j];
      if Gather(steps).Ok? {
        var all, before := Gather(steps).value, Gather(init).value;
        assert all == before + [steps[n].value];
        assert forall j | 0 <= j < n :: all[j] == before[j];
      }
    }
  }

  /** When the steps before j succeed and step j raises, the loop raises
      step j's exception. */
  lemma {:induction false} GatherFirstError<T, E>(steps: seq<Result<T, E>>, j: nat)
    requires j < |steps| && (forall i | 0 <= i < j :: steps[i].Ok?) && steps[j].Err?
    ensures Gather(steps) == Err(steps[j].error)
  {
    var p := steps[..j];
    assert forall i | 0 <= i < j :: p[i] == steps[i];
    GatherSucceeds(p);
    GatherStep(steps, j);
    GatherErrorPersists(steps, j + 1);
  }

  /** When the loop raises, some step raised that exception and every step
      before it succeeded. */
  lemma {:induction false} GatherError<T, E>(steps: seq<Result<T, E>>)
    requires Gather(steps).Err?
    ensures exists j | 0 <= j < |steps| ::
              && (forall i | 0 <= i < j :: steps[i].Ok?)
              && steps[j] == Err(Gather(steps).error)
  {
    var n := |steps| - 1;
    var init := steps[..n];
    if Gather(init).Err? {
      GatherError(init);
      var j :| 0 <= j < n && (forall i | 0 <= i < j :: init[i].Ok?) && init[j] == Err(Gather(init).error);
      assert forall i | 0 <= i <= j :: init[i] == steps[i];
    } else {
      GatherSucceeds(init);
      assert forall i | 0 <= i < n :: init[i] == steps[i];
    }
  }
}
