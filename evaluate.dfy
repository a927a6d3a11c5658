/**
 * The current generation of the extraction engine (src/evaluate.ts): a whole-text
 * cache, one `result` carried across the candidates of a call, and a desirability
 * filter that every candidate is tested against.
 */
module Evaluate {
  import opened Wrappers
  import opened Types
  import opened Text
  import opened Generator
  import opened Cache

  /** Normalised texts shorter than this are not evaluated. */
  const MinTextLength := 3

  // ---------------------------------------------------------------------------------
  // isDesirableResult

  /**
   * `isDesirableResult(source, result)`: there is a result, it is not the source itself,
   * the source is not that result in single quotes, and it is not a function.
   */
  predicate IsDesirableResult(source: string, result: Option<string>) {
    && result.Some?
    && result.value != source
    && source != "'" + result.value + "'"
    && !StartsWith(result.value, "function")
  }

  /** The inside of a source wrapped in exactly one pair of single quotes. */
  function Unquoted(source: string): Option<string> {
    if |source| >= 2 && source[0] == '\'' && source[|source| - 1] == '\''
    then Some(source[1..|source| - 1])
    else None
  }

  /**
   * The quote rule is "one matching pair of single quotes stripped from the source
   * equals the result": desirable exactly when the result is present, differs from
   * the source and from the source's unquoted inside, and is not a function.
   */
  lemma DesirableMeansNonTrivial(source: string, result: Option<string>)
    ensures IsDesirableResult(source, result) <==>
      && result.Some?
      && result.value != source
      && Unquoted(source) != Some(result.value)
      && !StartsWith(result.value, "function")
  {
    if result.Some? {
      var v := result.value;
      if source == "'" + v + "'" {
        assert source[1..|source| - 1] == v;
      }
      if Unquoted(source) == Some(v) {
        assert source == [source[0]] + source[1..|source| - 1] + [source[|source| - 1]];
      }
    }
  }

  /** The filter on a few representative pairs. */
  lemma DesirabilityExamples()
    ensures !IsDesirableResult("42", Some("42"))
    ensures IsDesirableResult("2 + 2", Some("4"))
    ensures !IsDesirableResult("'foo'", Some("foo"))
    ensures !IsDesirableResult("f(x) = x + 1", Some("function f(x)"))
    ensures !IsDesirableResult("2 + 2", None)
  {
    assert "'" + "foo" + "'" == "'foo'";
    assert "function f(x)"[..8] == "function";
  }

  // ---------------------------------------------------------------------------------
  // getResult

  /** The source getResult tests for a candidate: its parts joined by spaces, trimmed. */
  function Source(candidate: seq<string>): string {
    Trim(Join(candidate, ' '))
  }

  /** The sources of all candidates, in generator order. */
  function Sources(cands: seq<seq<string>>): (sources: seq<string>)
    ensures |sources| == |cands|
  {
    seq(|cands|, k requires 0 <= k < |cands| => Source(cands[k]))
  }

  /**
   * The `if (!result)` block for one candidate: only a falsy `result` is replaced, and
   * only by a successful evaluation.
   */
  function Advance(source: string, result: Option<string>, eval: Evaluator): Option<string> {
    if Truthy(result) then result
    else match eval(source)
      case Some(v) => Some(v)
      case None => result
  }

  /**
   * Where a call of getResult ends: the hit it returns, the `result` it holds, whether
   * it has written that result to the cache, and the sources the evaluator was called on.
   */
  datatype Run = Run(hit: Option<Hit>, result: Option<string>, stored: bool, evaluated: seq<string>)

  /** Evaluator calls made before a run continues. */
  function Prepend(calls: seq<string>, run: Run): Run {
    run.(evaluated := calls + run.evaluated)
  }

  /** `whole` makes the evaluator calls `calls` first and then ends as `rest` does. */
  predicate Continues(whole: Run, calls: seq<string>, rest: Run) {
    && whole.hit == rest.hit && whole.result == rest.result && whole.stored == rest.stored
    && whole.evaluated == calls + rest.evaluated
  }

  /**
   * The loop of getResult from candidate `i` on, holding `result`; `stored` tells
   * whether the cache entry for the text has been written during this call.
   */
  function Walk(sources: seq<string>, i: nat, result: Option<string>, stored: bool, eval: Evaluator): (run: Run)
    requires i <= |sources|
    requires stored ==> result.Some?
    ensures run.stored ==> run.result.Some?
    ensures run.hit.Some? ==> run.result == Some(run.hit.value.result)
    ensures run.hit.Some? ==> IsDesirableResult(run.hit.value.source, run.result)
    decreases |sources| - i
  {
    if i == |sources| then Run(None, result, stored, [])
    else
      var source := sources[i];
      var called := !Truthy(result);
      var r := Advance(source, result, eval);
      var st := stored || (called && eval(source).Some?);
      var log := if called then [source] else [];
      if IsDesirableResult(source, r) then Run(Some(Hit(r.value, source)), r, st, log)
      else Prepend(log, Walk(sources, i + 1, r, st, eval))
  }

  /** The `result` getResult holds after its first `k` candidates, starting from `r0`. */
  function Carried(sources: seq<string>, r0: Option<string>, eval: Evaluator, k: nat): Option<string>
    requires k <= |sources|
  {
    if k == 0 then r0 else Advance(sources[k - 1], Carried(sources, r0, eval, k - 1), eval)
  }

  /** Walk from candidate `i` returns the first later candidate that passes with the result then held. */
  lemma {:induction false} WalkFromCarried(sources: seq<string>, r0: Option<string>, eval: Evaluator, i: nat, stored: bool)
    returns (k: nat)
    requires i <= |sources|
    requires stored ==> Carried(sources, r0, eval, i).Some?
    ensures i <= k <= |sources|
    ensures forall j :: i <= j < k ==> !IsDesirableResult(sources[j], Carried(sources, r0, eval, j + 1))
    ensures k < |sources| ==>
      && IsDesirableResult(sources[k], Carried(sources, r0, eval, k + 1))
      && Walk(sources, i, Carried(sources, r0, eval, i), stored, eval).hit
         == Some(Hit(Carried(sources, r0, eval, k + 1).value, sources[k]))
    ensures k == |sources| ==> Walk(sources, i, Carried(sources, r0, eval, i), stored, eval).hit == None
    decreases |sources| - i
  {
    if i == |sources| {
      k := i;
    } else {
      var result := Carried(sources, r0, eval, i);
      var source := sources[i];
      if IsDesirableResult(source, Carried(sources, r0, eval, i + 1)) {
        k := i;
      } else {
        var st := stored || (!Truthy(result) && eval(source).Some?);
        k := WalkFromCarried(sources, r0, eval, i + 1, st);
      }
    }
  }

  /**
   * getResult returns the first candidate, in generator order, whose source passes the
   * filter together with the result held at that point, paired with that result; and
   * no result when no candidate passes.
   */
  lemma WalkFindsFirstDesirable(sources: seq<string>, r0: Option<string>, eval: Evaluator) returns (k: nat)
    ensures k <= |sources|
    ensures forall j :: 0 <= j < k ==> !IsDesirableResult(sources[j], Carried(sources, r0, eval, j + 1))
    ensures k < |sources| ==>
      && IsDesirableResult(sources[k], Carried(sources, r0, eval, k + 1))
      && Walk(sources, 0, r0, false, eval).hit == Some(Hit(Carried(sources, r0, eval, k + 1).value, sources[k]))
    ensures k == |sources| ==> Walk(sources, 0, r0, false, eval).hit == None
  {
    k := WalkFromCarried(sources, r0, eval, 0, false);
  }

  /** `calls` are the sources from candidate `i` on, in order. */
  predicate ConsecutiveFrom(sources: seq<string>, i: nat, calls: seq<string>) {
    i + |calls| <= |sources| && calls == sources[i..i + |calls|]
  }

  /** Every call but the last gave no truthy result. */
  predicate FailedBeforeLast(calls: seq<string>, eval: Evaluator) {
    forall j :: 0 <= j < |calls| - 1 ==> !Truthy(eval(calls[j]))
  }

  /** While the held result is truthy, the evaluator is not called at all. */
  lemma {:induction false} WalkIdleWhileTruthy(
    sources: seq<string>, i: nat, result: Option<string>, stored: bool, eval: Evaluator)
    requires i <= |sources|
    requires stored ==> result.Some?
    requires Truthy(result)
    ensures Walk(sources, i, result, stored, eval).evaluated == []
    ensures Walk(sources, i, result, stored, eval).result == result
    decreases |sources| - i
  {
    if i < |sources| && !IsDesirableResult(sources[i], result) {
      WalkIdleWhileTruthy(sources, i + 1, result, stored, eval);
    }
  }

  /**
   * The evaluator is called on consecutive candidates from `i` on, and never again once
   * `result` is truthy: every call but the last gave no truthy result.
   */
  lemma {:induction false} WalkStopsEvaluatingOnceTruthy(
    sources: seq<string>, i: nat, result: Option<string>, stored: bool, eval: Evaluator)
    requires i <= |sources|
    requires stored ==> result.Some?
    ensures ConsecutiveFrom(sources, i, Walk(sources, i, result, stored, eval).evaluated)
    ensures FailedBeforeLast(Walk(sources, i, result, stored, eval).evaluated, eval)
    decreases |sources| - i
  {
    if i < |sources| {
      var source := sources[i];
      var called := !Truthy(result);
      var r := Advance(source, result, eval);
      var st := stored || (called && eval(source).Some?);
      var log := if called then [source] else [];
      var run := Walk(sources, i, result, stored, eval);
      if !called {
        WalkIdleWhileTruthy(sources, i, result, stored, eval);
      } else if IsDesirableResult(source, r) {
        assert run.evaluated == log;
      } else {
        WalkStopsEvaluatingOnceTruthy(sources, i + 1, r, st, eval);
        var rest := Walk(sources, i + 1, r, st, eval);
        assert Continues(run, log, rest);
        if Truthy(eval(source)) {
          assert r == eval(source);
          WalkIdleWhileTruthy(sources, i + 1, r, st, eval);
        }
        CallThenConsecutive(sources, i, rest.evaluated, eval);
      }
    }
  }

  /**
   * A call on candidate `i` followed by consecutive calls from `i + 1` are consecutive
   * from `i`; and when those later calls exist the call on `i` gave no truthy result.
   */
  lemma CallThenConsecutive(sources: seq<string>, i: nat, rest: seq<string>, eval: Evaluator)
    requires i < |sources|
    requires ConsecutiveFrom(sources, i + 1, rest)
    requires FailedBeforeLast(rest, eval)
    requires rest != [] ==> !Truthy(eval(sources[i]))
    ensures ConsecutiveFrom(sources, i, [sources[i]] + rest)
    ensures FailedBeforeLast([sources[i]] + rest, eval)
  {
    var calls := [sources[i]] + rest;
    assert sources[i..i + |calls|] == [sources[i]] + sources[i + 1..i + 1 + |rest|];
    forall j | 0 <= j < |calls| - 1 ensures !Truthy(eval(calls[j])) {
      if j > 0 {
        assert calls[j] == rest[j - 1];
      } else {
        assert rest != [] && calls[0] == sources[i];
      }
    }
  }

  /** The value of the last evaluation among `calls` that succeeded, if any. */
  function LastSuccess(calls: seq<string>, eval: Evaluator): (r: Option<string>)
    ensures r.Some? <==> exists j :: 0 <= j < |calls| && eval(calls[j]).Some?
    ensures r.Some? ==> exists j :: 0 <= j < |calls| && eval(calls[j]) == r
    decreases |calls|
  {
    if calls == [] then None
    else
      var later := LastSuccess(calls[1..], eval);
      assert forall j :: 1 <= j < |calls| ==> calls[j] == calls[1..][j - 1];
      if later.Some? then later else eval(calls[0])
  }

  /**
   * Every successful evaluation replaces the held result and is written under the text:
   * a call ends holding the value of its last successful evaluation, or the result it
   * started with when none succeeded, and it has written the cache exactly when one did.
   */
  lemma {:induction false} WalkKeepsLastSuccess(
    sources: seq<string>, i: nat, result: Option<string>, stored: bool, eval: Evaluator)
    requires i <= |sources|
    requires stored ==> result.Some?
    ensures Walk(sources, i, result, stored, eval).result
            == if LastSuccess(Walk(sources, i, result, stored, eval).evaluated, eval).Some?
               then LastSuccess(Walk(sources, i, result, stored, eval).evaluated, eval) else result
    ensures Walk(sources, i, result, stored, eval).stored
            == (stored || LastSuccess(Walk(sources, i, result, stored, eval).evaluated, eval).Some?)
    decreases |sources| - i
  {
    if i < |sources| {
      var source := sources[i];
      var called := !Truthy(result);
      var r := Advance(source, result, eval);
      var st := stored || (called && eval(source).Some?);
      var log := if called then [source] else [];
      var run := Walk(sources, i, result, stored, eval);
      if IsDesirableResult(source, r) {
        assert run.evaluated == log && run.result == r && run.stored == st;
        if called {
          assert LastSuccess(log, eval) == eval(source) by {
            assert log[1..] == [];
          }
        }
      } else {
        WalkKeepsLastSuccess(sources, i + 1, r, st, eval);
        var rest := Walk(sources, i + 1, r, st, eval);
        assert Continues(run, log, rest);
        if called {
          assert run.evaluated[1..] == rest.evaluated;
          var later := LastSuccess(rest.evaluated, eval);
          assert LastSuccess(run.evaluated, eval) == if later.Some? then later else eval(source);
        } else {
          assert run.evaluated == rest.evaluated;
        }
      }
    }
  }

  /** A call of getResult on `text`, starting from the cache contents `entries`. */
  function ResultRun(text: string, entries: map<string, string>, eval: Evaluator): Run {
    Walk(Sources(Subselections(Split(text, ' '))), 0, Lookup(entries, text), false, eval)
  }

  /**
   * The cache once getResult holds `result`: when it has stored a result, the text key
   * holds it; otherwise the cache is as the call found it.
   */
  function CacheAfter(text: string, entries: map<string, string>, result: Option<string>, stored: bool)
    : map<string, string>
    requires stored ==> result.Some?
  {
    if stored then entries[text := result.value] else entries
  }

  /** When the cache already holds a truthy result for the text, no evaluation happens. */
  lemma WarmCallMakesNoEvaluation(text: string, entries: map<string, string>, eval: Evaluator)
    requires text in entries && entries[text] != ""
    ensures ResultRun(text, entries, eval).evaluated == []
    ensures var run := ResultRun(text, entries, eval);
      CacheAfter(text, entries, run.result, run.stored) == entries
  {
    var sources := Sources(Subselections(Split(text, ' ')));
    WalkIdleWhileTruthy(sources, 0, Lookup(entries, text), false, eval);
    WalkKeepsLastSuccess(sources, 0, Lookup(entries, text), false, eval);
  }

  /** Writing a key twice leaves the second value. */
  lemma OverwriteTwice(entries: map<string, string>, key: string, first: string, second: string)
    ensures entries[key := first][key := second] == entries[key := second]
  {
  }

  /** getResult's loop has gone through every candidate: the run ends with no hit. */
  lemma WalkDone(sources: seq<string>, result: Option<string>, stored: bool, eval: Evaluator,
                 calls: seq<string>, whole: Run)
    requires stored ==> result.Some?
    requires Continues(whole, calls, Walk(sources, |sources|, result, stored, eval))
    ensures whole.hit == None && whole.result == result && whole.stored == stored && whole.evaluated == calls
  {
    assert calls + [] == calls;
  }

  /** One iteration of getResult's loop, as a step of Walk. */
  lemma WalkStep(sources: seq<string>, i: nat, result: Option<string>, stored: bool, eval: Evaluator,
                 calls: seq<string>, whole: Run, next: Option<string>, nextStored: bool, nextCalls: seq<string>)
    requires i < |sources|
    requires stored ==> result.Some?
    requires Continues(whole, calls, Walk(sources, i, result, stored, eval))
    requires next == Advance(sources[i], result, eval)
    requires nextStored == (stored || (!Truthy(result) && eval(sources[i]).Some?))
    requires nextCalls == calls + if !Truthy(result) then [sources[i]] else []
    ensures nextStored ==> next.Some?
    ensures IsDesirableResult(sources[i], next) ==>
      && whole.hit == Some(Hit(next.value, sources[i]))
      && whole.result == next && whole.stored == nextStored && whole.evaluated == nextCalls
    ensures !IsDesirableResult(sources[i], next) ==> Continues(whole, nextCalls, Walk(sources, i + 1, next, nextStored, eval))
  {
    var log := if !Truthy(result) then [sources[i]] else [];
    if !IsDesirableResult(sources[i], next) {
      var rest := Walk(sources, i + 1, next, nextStored, eval);
      assert calls + (log + rest.evaluated) == nextCalls + rest.evaluated;
    }
  }

  /** The cache entry for the text follows the result getResult holds once it has stored one. */
  lemma CacheStep(text: string, entries0: map<string, string>, result: Option<string>, stored: bool,
                  wrote: bool, next: Option<string>, before: map<string, string>, after: map<string, string>)
    requires stored ==> result.Some?
    requires wrote ==> next.Some?
    requires !wrote ==> next == result
    requires before == CacheAfter(text, entries0, result, stored)
    requires after == if wrote then before[text := next.value] else before
    ensures after == CacheAfter(text, entries0, next, stored || wrote)
  {
    if stored && wrote {
      OverwriteTwice(entries0, text, result.value, next.value);
    }
  }

  /**
   * The `if (!result)` block of getResult for one candidate: a falsy result is replaced
   * by a successful evaluation of the source, which is also written under the text. The
   * cache holds, before and after, what the call has stored so far over `entries0`.
   */
  method Consider(cache: LruCache, text: string, source: string, result: Option<string>, eval: Evaluator,
                  ghost entries0: map<string, string>, ghost stored: bool)
    returns (next: Option<string>)
    requires stored ==> result.Some?
    requires cache.entries == CacheAfter(text, entries0, result, stored)
    modifies cache
    ensures next == Advance(source, result, eval)
    ensures cache.entries == CacheAfter(text, entries0, next, stored || (!Truthy(result) && eval(source).Some?))
  {
    ghost var before := cache.entries;
    next := result;
    if !Truthy(result) {
      var outcome := eval(source);
      if outcome.Some? {
        next := outcome;
        cache.Set(text, outcome.value);
      }
    }
    CacheStep(text, entries0, result, stored, !Truthy(result) && eval(source).Some?, next, before, cache.entries);
  }

  /**
   * `getResult(text)`: read the cache once under the whole text; for each candidate
   * evaluate only while the held result is falsy, writing each success under the text;
   * return the first candidate that passes the filter with the held result.
   */
  method GetResult(cache: LruCache, text: string, eval: Evaluator) returns (hit: Option<Hit>, ghost calls: seq<string>)
    modifies cache
    ensures var run := ResultRun(text, old(cache.entries), eval);
      && hit == run.hit
      && calls == run.evaluated
      && cache.entries == CacheAfter(text, old(cache.entries), run.result, run.stored)
  {
    ghost var entries0 := cache.entries;
    var result := cache.Get(text);
    ghost var stored := false;
    calls := [];
    var candidates := GenerateSubselections(text);
    ghost var sources := Sources(candidates);
    ghost var whole := ResultRun(text, entries0, eval);
    assert [] + whole.evaluated == whole.evaluated;
    var i := 0;
    while i < |candidates|
      invariant 0 <= i <= |candidates|
      invariant stored ==> result.Some?
      invariant cache.entries == CacheAfter(text, entries0, result, stored)
      invariant Continues(whole, calls, Walk(sources, i, result, stored, eval))
    {
      var source := Source(candidates[i]);
      assert source == sources[i];
      ghost var wrote := !Truthy(result) && eval(source).Some?;
      ghost var callsBefore := calls;
      calls := calls + if !Truthy(result) then [source] else [];
      var next := Consider(cache, text, source, result, eval, entries0, stored);
      WalkStep(sources, i, result, stored, eval, callsBefore, whole, next, stored || wrote, calls);
      if IsDesirableResult(source, next) {
        hit := Some(Hit(next.value, source));
        return;
      }
      result, stored := next, stored || wrote;
      i := i + 1;
    }
    WalkDone(sources, result, stored, eval, calls, whole);
    hit := None;
  }

  // ---------------------------------------------------------------------------------
  // getEvaluation / getEvaluations

  /** What getEvaluation yields for the raw text of selection `selection`, and the cache after. */
  function EvaluationFor(raw: string, selection: nat, entries: map<string, string>, eval: Evaluator)
    : (Option<Evaluation>, map<string, string>)
  {
    var text := Normalize(raw);
    if |text| < MinTextLength then (None, entries)
    else
      var run := ResultRun(text, entries, eval);
      ( if run.hit.Some? then Some(Evaluation(Some(run.hit.value.result), run.hit.value.source, selection)) else None
      , CacheAfter(text, entries, run.result, run.stored) )
  }

  /**
   * `getEvaluation`: normalise the selection's text, give up on fewer than three
   * characters or when getResult has no result, otherwise report the hit.
   */
  method GetEvaluation(cache: LruCache, raw: string, selection: nat, eval: Evaluator)
    returns (evaluation: Option<Evaluation>)
    modifies cache
    ensures (evaluation, cache.entries) == EvaluationFor(raw, selection, old(cache.entries), eval)
  {
    var text := Normalize(raw);
    if |text| < MinTextLength {
      return None;
    }
    var hit;
    ghost var calls;
    hit, calls := GetResult(cache, text, eval);
    if hit.None? {
      return None;
    }
    evaluation := Some(Evaluation(Some(hit.value.result), hit.value.source, selection));
  }

  /** What getEvaluations collects from selection `i` on, and the cache after. */
  function Collect(raws: seq<string>, i: nat, entries: map<string, string>, eval: Evaluator)
    : (seq<Evaluation>, map<string, string>)
    requires i <= |raws|
    decreases |raws| - i
  {
    if i == |raws| then ([], entries)
    else
      var step := EvaluationFor(raws[i], i, entries, eval);
      var rest := Collect(raws, i + 1, step.1, eval);
      ((if step.0.Some? then [step.0.value] else []) + rest.0, rest.1)
  }

  /**
   * getEvaluations yields at most one evaluation per selection, in selection order,
   * each with a result and from a selection whose normalised text has at least three
   * characters.
   */
  lemma {:induction false} CollectInSelectionOrder(raws: seq<string>, i: nat, entries: map<string, string>, eval: Evaluator)
    requires i <= |raws|
    ensures var evs := Collect(raws, i, entries, eval).0;
      && |evs| <= |raws| - i
      && (forall k :: 0 <= k < |evs| ==>
            && i <= evs[k].selection < |raws|
            && evs[k].result.Some?
            && |Normalize(raws[evs[k].selection])| >= MinTextLength)
      && (forall k, l :: 0 <= k < l < |evs| ==> evs[k].selection < evs[l].selection)
    decreases |raws| - i
  {
    if i < |raws| {
      var step := EvaluationFor(raws[i], i, entries, eval);
      CollectInSelectionOrder(raws, i + 1, step.1, eval);
      var rest := Collect(raws, i + 1, step.1, eval).0;
      var evs := Collect(raws, i, entries, eval).0;
      if step.0.Some? {
        assert evs == [step.0.value] + rest;
        assert step.0.value.selection == i;
        forall k | 0 <= k < |evs| ensures |Normalize(raws[evs[k].selection])| >= MinTextLength {
          if k > 0 {
            assert evs[k] == rest[k - 1];
          }
        }
      } else {
        assert evs == rest;
      }
    }
  }

  /**
   * `getEvaluations(editor)`: the evaluation of each selection, in order, skipping the
   * selections that have none. Each selection is given by the raw text of its range.
   */
  method GetEvaluations(cache: LruCache, raws: seq<string>, eval: Evaluator) returns (evaluations: seq<Evaluation>)
    modifies cache
    ensures (evaluations, cache.entries) == Collect(raws, 0, old(cache.entries), eval)
  {
    ghost var whole := Collect(raws, 0, cache.entries, eval);
    evaluations := [];
    assert [] + whole.0 == whole.0;
    var i := 0;
    while i < |raws|
      invariant 0 <= i <= |raws|
      invariant whole == (evaluations + Collect(raws, i, cache.entries, eval).0, Collect(raws, i, cache.entries, eval).1)
    {
      ghost var before := cache.entries;
      ghost var evaluationsBefore := evaluations;
      var evaluation := GetEvaluation(cache, raws[i], i, eval);
      if evaluation.Some? {
        evaluations := evaluations + [evaluation.value];
      }
      CollectStep(raws, i, before, eval, evaluation, cache.entries, evaluationsBefore, evaluations);
      i := i + 1;
    }
    assert evaluations + [] == evaluations;
  }

  /** One iteration of getEvaluations' loop, as a step of Collect. */
  lemma CollectStep(raws: seq<string>, i: nat, before: map<string, string>, eval: Evaluator,
                    evaluation: Option<Evaluation>, after: map<string, string>,
                    done: seq<Evaluation>, next: seq<Evaluation>)
    requires i < |raws|
    requires (evaluation, after) == EvaluationFor(raws[i], i, before, eval)
    requires next == done + if evaluation.Some? then [evaluation.value] else []
    ensures done + Collect(raws, i, before, eval).0 == next + Collect(raws, i + 1, after, eval).0
    ensures Collect(raws, i, before, eval).1 == Collect(raws, i + 1, after, eval).1
  {
    var step := if evaluation.Some? then [evaluation.value] else [];
    assert done + (step + Collect(raws, i + 1, after, eval).0) == (done + step) + Collect(raws, i + 1, after, eval).0;
  }

  // ---------------------------------------------------------------------------------
  // The carried result, and the per-candidate behaviour it was evidently meant to have

  /** An evaluator that only evaluates "5", to "5". */
  function OnlyFive(s: string): (r: Option<string>)
    ensures r.Some? <==> s == "5"
  {
    if s == "5" then Some("5") else None
  }

  /**
   * As written, the result found for one candidate is reported with a later candidate
   * that did not produce it, and a second call on the same text reports a different
   * source: with an evaluator that only evaluates "5" (to "5"), the text "5 x" first
   * yields source "x" with result "5", caches "5" under "5 x", and then yields source
   * "5 x" with result "5", although neither "x" nor "5 x" evaluates.
   */
  lemma CarriedResultCounterexample()
    ensures var cold := ResultRun("5 x", map[], OnlyFive);
      && cold.hit == Some(Hit("5", "x"))
      && OnlyFive("x") == None
      && CacheAfter("5 x", map[], cold.result, cold.stored) == map["5 x" := "5"]
      && ResultRun("5 x", map["5 x" := "5"], OnlyFive).hit == Some(Hit("5", "5 x"))
      && OnlyFive("5 x") == None
      && OwnHit("5 x", OnlyFive) == None
  {
    var sources := FiveXSources();
    FiveXDesirability();
    FiveXColdRun(sources);
    FiveXWarmRun(sources);
    FiveXNoOwnHit(sources);
  }

  /** Which (source, result) pairs of "5 x" pass the filter. */
  lemma FiveXDesirability()
    ensures IsDesirableResult("x", Some("5"))
    ensures IsDesirableResult("5 x", Some("5"))
    ensures !IsDesirableResult("5", Some("5"))
    ensures !IsDesirableResult("5 x", None) && !IsDesirableResult("x", None)
  {
    assert !StartsWith("5", "function");
    assert "'" + "5" + "'" == "'5'";
  }

  /** A cold call on "5 x" evaluates "5 x" and "5", and reports "x" with the result of "5". */
  lemma FiveXColdRun(sources: seq<string>)
    requires sources == ["5 x", "5", "x"]
    ensures Walk(sources, 0, None, false, OnlyFive) == Run(Some(Hit("5", "x")), Some("5"), true, ["5 x", "5"])
  {
    FiveXDesirability();
    assert Walk(sources, 2, Some("5"), true, OnlyFive) == Run(Some(Hit("5", "x")), Some("5"), true, []);
    assert Walk(sources, 1, None, false, OnlyFive) == Run(Some(Hit("5", "x")), Some("5"), true, ["5"]);
  }

  /** A warm call on "5 x" holding "5" reports the whole text with that result. */
  lemma FiveXWarmRun(sources: seq<string>)
    requires sources == ["5 x", "5", "x"]
    ensures Walk(sources, 0, Some("5"), false, OnlyFive).hit == Some(Hit("5", "5 x"))
  {
    FiveXDesirability();
  }

  /** No candidate of "5 x" passes the filter with its own evaluation. */
  lemma FiveXNoOwnHit(sources: seq<string>)
    requires sources == ["5 x", "5", "x"]
    ensures FirstOwnDesirable(sources, 0, OnlyFive) == None
  {
    FiveXDesirability();
    assert FirstOwnDesirable(sources, 3, OnlyFive) == None;
    assert FirstOwnDesirable(sources, 2, OnlyFive) == None;
    assert FirstOwnDesirable(sources, 1, OnlyFive) == None;
  }

  /** The candidate sources of "5 x": the whole text, then "5", then "x". */
  lemma FiveXSources() returns (sources: seq<string>)
    ensures sources == Sources(Subselections(Split("5 x", ' ')))
    ensures sources == ["5 x", "5", "x"]
  {
    SplitWithoutSeparator("x", ' ');
    SplitPieceThenSeparator("5", ' ', "x");
    assert "5" + [' '] + "x" == "5 x";
    var parts := ["5", "x"];
    assert Split("5 x", ' ') == parts;
    assert parts[0..2] == ["5", "x"] && parts[0..1] == ["5"] && parts[1..2] == ["x"];
    assert Level(parts, 2) == [["5", "x"]];
    assert Level(parts, 1) == [["5"], ["x"]];
    assert Above(parts, 2) == [];
    assert Above(parts, 1) == [["5", "x"]];
    var cands := Subselections(parts);
    assert cands == [["5", "x"], ["5"], ["x"]];
    assert Join(["5", "x"], ' ') == "5 x";
    TrimUnchanged("5 x");
    TrimUnchanged("5");
    TrimUnchanged("x");
    sources := Sources(cands);
  }

  /**
   * The per-candidate rule: the first candidate, in generator order, whose OWN
   * evaluation passes the filter.
   */
  function FirstOwnDesirable(sources: seq<string>, i: nat, eval: Evaluator): (hit: Option<Hit>)
    requires i <= |sources|
    ensures hit.Some? ==> eval(hit.value.source) == Some(hit.value.result)
    ensures hit.Some? ==> IsDesirableResult(hit.value.source, Some(hit.value.result))
    ensures hit.None? ==> forall j :: i <= j < |sources| ==> !IsDesirableResult(sources[j], eval(sources[j]))
    decreases |sources| - i
  {
    if i == |sources| then None
    else
      var source := sources[i];
      if IsDesirableResult(source, eval(source)) then Some(Hit(eval(source).value, source))
      else FirstOwnDesirable(sources, i + 1, eval)
  }

  /** The per-candidate rule applied to the candidates of a whole text. */
  function OwnHit(text: string, eval: Evaluator): (hit: Option<Hit>)
    ensures hit.Some? ==> eval(hit.value.source) == Some(hit.value.result)
    ensures hit.Some? ==> IsDesirableResult(hit.value.source, Some(hit.value.result))
  {
    FirstOwnDesirable(Sources(Subselections(Split(text, ' '))), 0, eval)
  }

  /** A whole-text cache of chosen hits agrees with the per-candidate rule. */
  ghost predicate HitsAgree(hits: map<string, Hit>, eval: Evaluator) {
    forall t :: t in hits ==> OwnHit(t, eval) == Some(hits[t])
  }

  /** getResult with the whole-text cache holding the chosen hit instead of a bare result. */
  function CorrectedGetResult(text: string, hits: map<string, Hit>, eval: Evaluator): (Option<Hit>, map<string, Hit>) {
    if text in hits then (Some(hits[text]), hits)
    else
      var h := OwnHit(text, eval);
      (h, if h.Some? then hits[text := h.value] else hits)
  }

  /** Under an agreeing cache the corrected getResult returns the per-candidate hit. */
  lemma CorrectedGetResultIsOwnHit(text: string, hits: map<string, Hit>, eval: Evaluator)
    requires HitsAgree(hits, eval)
    ensures CorrectedGetResult(text, hits, eval).0 == OwnHit(text, eval)
  {
    if text in hits {
      assert OwnHit(text, eval) == Some(hits[text]);
    }
  }

  /** Adding the per-candidate hit of a text keeps a cache agreeing with the rule. */
  lemma AgreementSurvivesInsert(hits: map<string, Hit>, text: string, h: Hit, eval: Evaluator)
    requires HitsAgree(hits, eval)
    requires OwnHit(text, eval) == Some(h)
    ensures HitsAgree(hits[text := h], eval)
  {
    forall t | t in hits[text := h] ensures OwnHit(t, eval) == Some(hits[text := h][t]) {
      if t != text {
        assert t in hits;
      }
    }
  }

  /** The corrected getResult keeps its cache agreeing with the per-candidate rule. */
  lemma CorrectedGetResultKeepsAgreement(text: string, hits: map<string, Hit>, eval: Evaluator)
    requires HitsAgree(hits, eval)
    ensures HitsAgree(CorrectedGetResult(text, hits, eval).1, eval)
  {
    var h := OwnHit(text, eval);
    if text !in hits && h.Some? {
      AgreementSurvivesInsert(hits, text, h.value, eval);
    }
  }

  /**
   * With the corrected cache, a warm call returns exactly what a cold call returns,
   * the reported result is the evaluation of the reported source, and the cache keeps
   * agreeing with the per-candidate rule.
   */
  lemma CorrectedGetResultIsCacheIndependent(text: string, hits: map<string, Hit>, eval: Evaluator)
    requires HitsAgree(hits, eval)
    ensures var out := CorrectedGetResult(text, hits, eval);
      && out.0 == CorrectedGetResult(text, map[], eval).0
      && (out.0.Some? ==> eval(out.0.value.source) == Some(out.0.value.result))
      && HitsAgree(out.1, eval)
      && CorrectedGetResult(text, out.1, eval).0 == out.0
  {
    var out := CorrectedGetResult(text, hits, eval);
    CorrectedGetResultIsOwnHit(text, hits, eval);
    CorrectedGetResultIsOwnHit(text, map[], eval);
    CorrectedGetResultKeepsAgreement(text, hits, eval);
    CorrectedGetResultIsOwnHit(text, out.1, eval);
  }
}
