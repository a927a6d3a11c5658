/**
 * The older generation of the extraction engine (src/evaluateMathExpression.ts): a
 * cache keyed by each candidate's source that only ever receives successful
 * evaluations, and the first candidate with a truthy result wins, with no filter.
 */
module EvaluateMathExpression {
  import opened Wrappers
  import opened Types
  import opened Text
  import opened Generator
  import opened Cache

  /** Normalised texts shorter than this are skipped. */
  const MinTextLength := 3

  // ---------------------------------------------------------------------------------
  // getResult

  /** The source tested for a candidate: its parts joined by single spaces, not trimmed. */
  function Source(candidate: seq<string>): string {
    Join(candidate, ' ')
  }

  /** The sources of all candidates, in generator order. */
  function Sources(cands: seq<seq<string>>): (sources: seq<string>)
    ensures |sources| == |cands|
  {
    seq(|cands|, k requires 0 <= k < |cands| => Source(cands[k]))
  }

  /** The cache holds a truthy value for `source`, so it is used without evaluation. */
  predicate Warm(entries: map<string, string>, source: string) {
    Truthy(Lookup(entries, source))
  }

  /**
   * What one call of getResult does from candidate `i` on: the chosen candidate, the
   * cache it leaves, and the sources handed to the evaluator, in order.
   */
  datatype Run = Run(hit: Option<Hit>, entries: map<string, string>, evaluated: seq<string>)

  /**
   * The loop of getResult from candidate `i` on. A candidate whose source is cached
   * with a truthy value is chosen at once; otherwise its source is evaluated, a success
   * is written under the source, and a truthy outcome is chosen. A thrown evaluation
   * is caught and the loop goes on.
   */
  function Walk(sources: seq<string>, i: nat, entries: map<string, string>, eval: Evaluator): (run: Run)
    requires i <= |sources|
    decreases |sources| - i
  {
    if i == |sources| then Run(None, entries, [])
    else
      var source := sources[i];
      var called := !Warm(entries, source);
      var r := if called then eval(source) else Lookup(entries, source);
      var e := if called && r.Some? then entries[source := r.value] else entries;
      var log := if called then [source] else [];
      if Truthy(r) then Run(Some(Hit(r.value, source)), e, log)
      else
        var rest := Walk(sources, i + 1, e, eval);
        Run(rest.hit, rest.entries, log + rest.evaluated)
  }

  /** A call of getResult on `text` against the cache contents `entries`. */
  function TextRun(text: string, entries: map<string, string>, eval: Evaluator): Run {
    Walk(Sources(Subselections(Split(text, ' '))), 0, entries, eval)
  }

  /** `whole` makes the evaluator calls `calls` first and then ends as `rest` does. */
  predicate Continues(whole: Run, calls: seq<string>, rest: Run) {
    whole.hit == rest.hit && whole.entries == rest.entries && whole.evaluated == calls + rest.evaluated
  }

  // ---------------------------------------------------------------------------------
  // the cache-free reference

  /** Every cached value is what the evaluator yields for its key. */
  ghost predicate Consistent(entries: map<string, string>, eval: Evaluator) {
    forall key :: key in entries ==> eval(key) == Some(entries[key])
  }

  /** Without any cache: the first source from `i` on whose evaluation is truthy. */
  function FirstHit(sources: seq<string>, i: nat, eval: Evaluator): Option<Hit>
    requires i <= |sources|
    decreases |sources| - i
  {
    if i == |sources| then None
    else if Truthy(eval(sources[i])) then Some(Hit(eval(sources[i]).value, sources[i]))
    else FirstHit(sources, i + 1, eval)
  }

  /**
   * FirstHit is what it says: when it finds a hit, the hit's source is at some index
   * `k` from `i` on, the hit's result is its evaluation, and every source in between
   * evaluates to something falsy; when it finds none, no source from `i` on is truthy.
   */
  lemma {:induction false} FirstHitIsFirst(sources: seq<string>, i: nat, eval: Evaluator) returns (k: nat)
    requires i <= |sources|
    ensures FirstHit(sources, i, eval).Some? ==>
      && i <= k < |sources|
      && Truthy(eval(sources[k]))
      && FirstHit(sources, i, eval) == Some(Hit(eval(sources[k]).value, sources[k]))
      && forall j :: i <= j < k ==> !Truthy(eval(sources[j]))
    ensures FirstHit(sources, i, eval).None? ==> forall j :: i <= j < |sources| ==> !Truthy(eval(sources[j]))
    decreases |sources| - i
  {
    if i == |sources| {
      k := i;
    } else if Truthy(eval(sources[i])) {
      k := i;
    } else {
      k := FirstHitIsFirst(sources, i + 1, eval);
    }
  }

  /** A consistent cache stays consistent when a successful evaluation is written. */
  lemma StoreKeepsConsistent(entries: map<string, string>, source: string, eval: Evaluator)
    requires Consistent(entries, eval) && eval(source).Some?
    ensures Consistent(entries[source := eval(source).value], eval)
  {
  }

  /**
   * The memoisation is transparent: against a cache that agrees with the evaluator,
   * getResult's loop chooses exactly the candidate the cache-free reference chooses.
   */
  lemma {:induction false} WalkFindsFirstHit(sources: seq<string>, i: nat, entries: map<string, string>, eval: Evaluator)
    requires i <= |sources| && Consistent(entries, eval)
    ensures Walk(sources, i, entries, eval).hit == FirstHit(sources, i, eval)
    decreases |sources| - i
  {
    if i < |sources| {
      var source := sources[i];
      if !Warm(entries, source) && eval(source).Some? {
        StoreKeepsConsistent(entries, source, eval);
        WalkFindsFirstHit(sources, i + 1, entries[source := eval(source).value], eval);
      } else if !Warm(entries, source) {
        WalkFindsFirstHit(sources, i + 1, entries, eval);
      }
    }
  }

  // ---------------------------------------------------------------------------------
  // what the cache receives

  /**
   * The cache after a call holds exactly what it held before plus every evaluated
   * source whose evaluation succeeded, under that evaluation; failures are never
   * cached, and nothing else changes.
   */
  lemma {:induction false} WalkCachesExactlySuccesses(sources: seq<string>, i: nat, entries: map<string, string>, eval: Evaluator)
    requires i <= |sources|
    ensures var run := Walk(sources, i, entries, eval);
      forall key :: key in run.entries <==> key in entries || (key in run.evaluated && eval(key).Some?)
    ensures var run := Walk(sources, i, entries, eval);
      forall key :: key in run.entries ==>
        run.entries[key] == if key in run.evaluated && eval(key).Some? then eval(key).value else entries[key]
    decreases |sources| - i
  {
    if i < |sources| {
      var source := sources[i];
      var called := !Warm(entries, source);
      var r := if called then eval(source) else Lookup(entries, source);
      var e := if called && r.Some? then entries[source := r.value] else entries;
      if !Truthy(r) {
        WalkCachesExactlySuccesses(sources, i + 1, e, eval);
      }
    }
  }

  /** A cache that agrees with the evaluator still agrees after a call. */
  lemma WalkKeepsConsistent(sources: seq<string>, i: nat, entries: map<string, string>, eval: Evaluator)
    requires i <= |sources| && Consistent(entries, eval)
    ensures Consistent(Walk(sources, i, entries, eval).entries, eval)
  {
    WalkCachesExactlySuccesses(sources, i, entries, eval);
  }

  /** Storing a falsy value never makes a source warm, nor cools one. */
  lemma StoreFalsyKeepsWarmth(entries: map<string, string>, source: string, value: string, other: string)
    requires !Warm(entries, source) && value == ""
    ensures Warm(entries[source := value], other) == Warm(entries, other)
  {
  }

  /**
   * A source the cache held a truthy value for when the call began is never handed
   * to the evaluator during the call.
   */
  lemma {:induction false} WalkSkipsWarmSources(sources: seq<string>, i: nat, entries: map<string, string>, eval: Evaluator)
    requires i <= |sources|
    ensures forall k :: 0 <= k < |Walk(sources, i, entries, eval).evaluated| ==>
      !Warm(entries, Walk(sources, i, entries, eval).evaluated[k])
    decreases |sources| - i
  {
    if i < |sources| {
      var source := sources[i];
      var called := !Warm(entries, source);
      var r := if called then eval(source) else Lookup(entries, source);
      var e := if called && r.Some? then entries[source := r.value] else entries;
      var log := if called then [source] else [];
      if !Truthy(r) {
        WalkSkipsWarmSources(sources, i + 1, e, eval);
        var rest := Walk(sources, i + 1, e, eval).evaluated;
        assert Walk(sources, i, entries, eval).evaluated == log + rest;
        forall k | 0 <= k < |log + rest|
          ensures !Warm(entries, (log + rest)[k])
        {
          if k < |log| {
            assert (log + rest)[k] == source;
          } else {
            var x := rest[k - |log|];
            assert (log + rest)[k] == x;
            assert !Warm(e, x);
            if called && r.Some? {
              StoreFalsyKeepsWarmth(entries, source, r.value, x);
            }
          }
        }
      }
    }
  }

  /** An evaluated source with a truthy outcome is the one the call chooses. */
  lemma {:induction false} WalkStopsAtTruthyEvaluation(sources: seq<string>, i: nat, entries: map<string, string>, eval: Evaluator)
    requires i <= |sources|
    ensures var run := Walk(sources, i, entries, eval);
      forall k :: 0 <= k < |run.evaluated| && Truthy(eval(run.evaluated[k])) ==>
        run.hit.Some? && run.hit.value.source == run.evaluated[k]
    decreases |sources| - i
  {
    if i < |sources| {
      var source := sources[i];
      var called := !Warm(entries, source);
      var r := if called then eval(source) else Lookup(entries, source);
      var e := if called && r.Some? then entries[source := r.value] else entries;
      var log := if called then [source] else [];
      if !Truthy(r) {
        WalkStopsAtTruthyEvaluation(sources, i + 1, e, eval);
        var rest := Walk(sources, i + 1, e, eval).evaluated;
        assert Walk(sources, i, entries, eval).evaluated == log + rest;
        assert Walk(sources, i, entries, eval).hit == Walk(sources, i + 1, e, eval).hit;
        forall k | 0 <= k < |log + rest| && Truthy(eval((log + rest)[k]))
          ensures Walk(sources, i, entries, eval).hit.Some?
          ensures Walk(sources, i, entries, eval).hit.value.source == (log + rest)[k]
        {
          assert k >= |log|;
          assert (log + rest)[k] == rest[k - |log|];
        }
      }
    }
  }

  /** The chosen candidate's source is cached with the chosen result when the call ends. */
  lemma {:induction false} WalkCachesHit(sources: seq<string>, i: nat, entries: map<string, string>, eval: Evaluator)
    requires i <= |sources|
    ensures var run := Walk(sources, i, entries, eval);
      run.hit.Some? ==> Lookup(run.entries, run.hit.value.source) == Some(run.hit.value.result)
    decreases |sources| - i
  {
    if i < |sources| {
      var source := sources[i];
      var called := !Warm(entries, source);
      var r := if called then eval(source) else Lookup(entries, source);
      var e := if called && r.Some? then entries[source := r.value] else entries;
      if !Truthy(r) {
        WalkCachesHit(sources, i + 1, e, eval);
      }
    }
  }

  /**
   * Asking again for the same text, against the cache a first call left, chooses the
   * same candidate, and the only evaluations it repeats are ones that fail or yield a
   * falsy string: those are the results this cache does not keep usable.
   */
  lemma WarmRepeatSameHit(text: string, entries: map<string, string>, eval: Evaluator)
    requires Consistent(entries, eval)
    ensures var first := TextRun(text, entries, eval);
      var second := TextRun(text, first.entries, eval);
      && second.hit == first.hit
      && forall k :: 0 <= k < |second.evaluated| ==> !Truthy(eval(second.evaluated[k]))
  {
    var sources := Sources(Subselections(Split(text, ' ')));
    var first := Walk(sources, 0, entries, eval);
    WalkKeepsConsistent(sources, 0, entries, eval);
    WalkFindsFirstHit(sources, 0, entries, eval);
    WalkFindsFirstHit(sources, 0, first.entries, eval);
    WalkCachesHit(sources, 0, entries, eval);
    var second := Walk(sources, 0, first.entries, eval);
    WalkSkipsWarmSources(sources, 0, first.entries, eval);
    WalkStopsAtTruthyEvaluation(sources, 0, first.entries, eval);
  }

  // ---------------------------------------------------------------------------------
  // the imperative getResult

  /** getResult's loop has gone through every candidate: no candidate is chosen. */
  lemma WalkDone(sources: seq<string>, entries: map<string, string>, eval: Evaluator, calls: seq<string>, whole: Run)
    requires Continues(whole, calls, Walk(sources, |sources|, entries, eval))
    ensures whole.hit == None && whole.entries == entries && whole.evaluated == calls
  {
    assert calls + [] == calls;
  }

  /** One iteration of getResult's loop, as a step of Walk. */
  lemma WalkStep(sources: seq<string>, i: nat, entries: map<string, string>, eval: Evaluator,
                 calls: seq<string>, whole: Run, result: Option<string>, after: map<string, string>, nextCalls: seq<string>)
    requires i < |sources|
    requires Continues(whole, calls, Walk(sources, i, entries, eval))
    requires var called := !Warm(entries, sources[i]);
      && Truthy(result) == Truthy(if called then eval(sources[i]) else Lookup(entries, sources[i]))
      && (Truthy(result) ==> result == if called then eval(sources[i]) else Lookup(entries, sources[i]))
      && after == (if called && eval(sources[i]).Some? then entries[sources[i] := eval(sources[i]).value] else entries)
      && nextCalls == calls + if called then [sources[i]] else []
    ensures Truthy(result) ==>
      whole.hit == Some(Hit(result.value, sources[i])) && whole.entries == after && whole.evaluated == nextCalls
    ensures !Truthy(result) ==> Continues(whole, nextCalls, Walk(sources, i + 1, after, eval))
  {
    if !Truthy(result) {
      var log := if !Warm(entries, sources[i]) then [sources[i]] else [];
      var rest := Walk(sources, i + 1, after, eval);
      assert calls + (log + rest.evaluated) == nextCalls + rest.evaluated;
    }
  }

  /**
   * One candidate of getResult: look its source up; on a falsy value evaluate it, and
   * cache a success under the source. A failed evaluation leaves the falsy value held.
   */
  method Attempt(cache: LruCache, source: string, eval: Evaluator) returns (result: Option<string>, called: bool)
    modifies cache
    ensures called == !Warm(old(cache.entries), source)
    ensures Truthy(result) == Truthy(if called then eval(source) else Lookup(old(cache.entries), source))
    ensures Truthy(result) ==> result == if called then eval(source) else Lookup(old(cache.entries), source)
    ensures cache.entries ==
      if called && eval(source).Some? then old(cache.entries)[source := eval(source).value] else old(cache.entries)
  {
    result := cache.Get(source);
    called := !Truthy(result);
    if called {
      var outcome := eval(source);
      if outcome.Some? {
        result := outcome;
        cache.Set(source, outcome.value);
      }
    }
  }

  /**
   * `getResult(text)`: for each candidate in generator order, take the cached value of
   * its source, evaluate it when that value is falsy, and return the first candidate
   * whose value is truthy; `None` stands for the empty object returned otherwise.
   */
  method GetResult(cache: LruCache, text: string, eval: Evaluator) returns (hit: Option<Hit>, ghost calls: seq<string>)
    modifies cache
    ensures var run := TextRun(text, old(cache.entries), eval);
      hit == run.hit && calls == run.evaluated && cache.entries == run.entries
  {
    var candidates := GenerateSubselections(text);
    ghost var sources := Sources(candidates);
    ghost var whole := TextRun(text, cache.entries, eval);
    calls := [];
    assert [] + whole.evaluated == whole.evaluated;
    var i := 0;
    while i < |candidates|
      invariant 0 <= i <= |candidates|
      invariant Continues(whole, calls, Walk(sources, i, cache.entries, eval))
    {
      var source := Source(candidates[i]);
      assert source == sources[i];
      ghost var before := cache.entries;
      ghost var callsBefore := calls;
      var result, called := Attempt(cache, source, eval);
      if called {
        calls := calls + [source];
      }
      WalkStep(sources, i, before, eval, callsBefore, whole, result, cache.entries, calls);
      if Truthy(result) {
        hit := Some(Hit(result.value, source));
        return;
      }
      i := i + 1;
    }
    WalkDone(sources, cache.entries, eval, calls, whole);
    hit := None;
  }

  // ---------------------------------------------------------------------------------
  // getEvaluations

  /**
   * One selection of getEvaluations: its normalised text, skipped when shorter than
   * three characters or when getResult chooses nothing; the cache after.
   */
  function Visit(raw: string, selection: nat, entries: map<string, string>, eval: Evaluator)
    : (Option<Evaluation>, map<string, string>)
  {
    var text := Normalize(raw);
    if |text| < MinTextLength then (None, entries)
    else
      var run := TextRun(text, entries, eval);
      ( if run.hit.Some? then Some(Evaluation(Some(run.hit.value.result), run.hit.value.source, selection)) else None
      , run.entries )
  }

  /** A recorded evaluation has a truthy result, from a long enough selection text. */
  lemma VisitYieldsTruthy(raw: string, selection: nat, entries: map<string, string>, eval: Evaluator)
    ensures var v := Visit(raw, selection, entries, eval).0;
      v.Some? ==> v.value.selection == selection && Truthy(v.value.result) && |Normalize(raw)| >= MinTextLength
  {
    var text := Normalize(raw);
    if |text| >= MinTextLength {
      WalkHitIsTruthy(Sources(Subselections(Split(text, ' '))), 0, entries, eval);
    }
  }

  /** What getEvaluations collects from selection `i` on, and the cache after. */
  function Collect(raws: seq<string>, i: nat, entries: map<string, string>, eval: Evaluator)
    : (seq<Evaluation>, map<string, string>)
    requires i <= |raws|
    decreases |raws| - i
  {
    if i == |raws| then ([], entries)
    else
      var step := Visit(raws[i], i, entries, eval);
      var rest := Collect(raws, i + 1, step.1, eval);
      ((if step.0.Some? then [step.0.value] else []) + rest.0, rest.1)
  }

  /**
   * `evs` holds at most one evaluation per selection from `i` on, in selection order,
   * each with a truthy result and from a selection whose normalised text has at least
   * three characters.
   */
  predicate RecordedInOrder(evs: seq<Evaluation>, raws: seq<string>, i: nat) {
    && |evs| <= |raws| - i
    && (forall k :: 0 <= k < |evs| ==>
          && i <= evs[k].selection < |raws|
          && Truthy(evs[k].result)
          && |Normalize(raws[evs[k].selection])| >= MinTextLength)
    && (forall k, l :: 0 <= k < l < |evs| ==> evs[k].selection < evs[l].selection)
  }

  /** Recording selection `i`'s evaluation ahead of later ones keeps the order. */
  lemma RecordAhead(ev: Evaluation, rest: seq<Evaluation>, raws: seq<string>, i: nat)
    requires i < |raws| && RecordedInOrder(rest, raws, i + 1)
    requires ev.selection == i && Truthy(ev.result) && |Normalize(raws[i])| >= MinTextLength
    ensures RecordedInOrder([ev] + rest, raws, i)
  {
    var evs := [ev] + rest;
    forall k | 0 <= k < |evs|
      ensures i <= evs[k].selection < |raws| && Truthy(evs[k].result) && |Normalize(raws[evs[k].selection])| >= MinTextLength
    {
      if k > 0 {
        assert evs[k] == rest[k - 1];
      }
    }
  }

  /** getEvaluations records at most one evaluation per selection, in selection order. */
  lemma {:induction false} CollectInSelectionOrder(raws: seq<string>, i: nat, entries: map<string, string>, eval: Evaluator)
    requires i <= |raws|
    ensures RecordedInOrder(Collect(raws, i, entries, eval).0, raws, i)
    decreases |raws| - i
  {
    if i < |raws| {
      var step := Visit(raws[i], i, entries, eval);
      VisitYieldsTruthy(raws[i], i, entries, eval);
      CollectInSelectionOrder(raws, i + 1, step.1, eval);
      var rest := Collect(raws, i + 1, step.1, eval).0;
      if step.0.Some? {
        RecordAhead(step.0.value, rest, raws, i);
      } else {
        assert Collect(raws, i, entries, eval).0 == rest;
      }
    }
  }

  /** The chosen result is never falsy: the loop only stops on a truthy value. */
  lemma {:induction false} WalkHitIsTruthy(sources: seq<string>, i: nat, entries: map<string, string>, eval: Evaluator)
    requires i <= |sources|
    ensures var run := Walk(sources, i, entries, eval);
      run.hit.Some? ==> run.hit.value.result != ""
    decreases |sources| - i
  {
    if i < |sources| {
      var source := sources[i];
      var called := !Warm(entries, source);
      var r := if called then eval(source) else Lookup(entries, source);
      var e := if called && r.Some? then entries[source := r.value] else entries;
      if !Truthy(r) {
        WalkHitIsTruthy(sources, i + 1, e, eval);
      }
    }
  }

  /**
   * The evaluations do not depend on what a consistent cache holds: two caches that
   * both agree with the evaluator lead to the same evaluations.
   */
  lemma {:induction false} CollectIgnoresCache(raws: seq<string>, i: nat, e1: map<string, string>, e2: map<string, string>,
                                               eval: Evaluator)
    requires i <= |raws| && Consistent(e1, eval) && Consistent(e2, eval)
    ensures Collect(raws, i, e1, eval).0 == Collect(raws, i, e2, eval).0
    decreases |raws| - i
  {
    if i < |raws| {
      var text := Normalize(raws[i]);
      if |text| < MinTextLength {
        CollectIgnoresCache(raws, i + 1, e1, e2, eval);
      } else {
        var sources := Sources(Subselections(Split(text, ' ')));
        WalkFindsFirstHit(sources, 0, e1, eval);
        WalkFindsFirstHit(sources, 0, e2, eval);
        WalkKeepsConsistent(sources, 0, e1, eval);
        WalkKeepsConsistent(sources, 0, e2, eval);
        CollectIgnoresCache(raws, i + 1, Visit(raws[i], i, e1, eval).1, Visit(raws[i], i, e2, eval).1, eval);
      }
    }
  }

  /** One iteration of getEvaluations' loop, as a step of Collect. */
  lemma CollectStep(raws: seq<string>, i: nat, before: map<string, string>, eval: Evaluator,
                    evaluation: Option<Evaluation>, after: map<string, string>,
                    done: seq<Evaluation>, next: seq<Evaluation>)
    requires i < |raws|
    requires (evaluation, after) == Visit(raws[i], i, before, eval)
    requires next == done + if evaluation.Some? then [evaluation.value] else []
    ensures done + Collect(raws, i, before, eval).0 == next + Collect(raws, i + 1, after, eval).0
    ensures Collect(raws, i, before, eval).1 == Collect(raws, i + 1, after, eval).1
  {
    var step := if evaluation.Some? then [evaluation.value] else [];
    assert done + (step + Collect(raws, i + 1, after, eval).0) == (done + step) + Collect(raws, i + 1, after, eval).0;
  }

  /**
   * `getEvaluations(editor)`: for each selection, given by the raw text of its range,
   * normalise the text, skip it when shorter than three characters or when getResult
   * chooses nothing, otherwise record the chosen result and source.
   */
  method GetEvaluations(cache: LruCache, raws: seq<string>, eval: Evaluator) returns (evaluations: seq<Evaluation>)
    modifies cache
    ensures (evaluations, cache.entries) == Collect(raws, 0, old(cache.entries), eval)
  {
    ghost var whole := Collect(raws, 0, cache.entries, eval);
    evaluations := [];
    assert [] + whole.0 == whole.0;
    for i := 0 to |raws|
      invariant whole == (evaluations + Collect(raws, i, cache.entries, eval).0, Collect(raws, i, cache.entries, eval).1)
    {
      var text := Normalize(raws[i]);
      ghost var before := cache.entries;
      ghost var evaluationsBefore := evaluations;
      if |text| < MinTextLength {
        CollectStep(raws, i, before, eval, None, before, evaluations, evaluations);
        continue;
      }
      var hit;
      ghost var calls;
      hit, calls := GetResult(cache, text, eval);
      if hit.None? {
        CollectStep(raws, i, before, eval, None, cache.entries, evaluations, evaluations);
        continue;
      }
      var evaluation := Evaluation(Some(hit.value.result), hit.value.source, i);
      evaluations := evaluations + [evaluation];
      CollectStep(raws, i, before, eval, Some(evaluation), cache.entries, evaluationsBefore, evaluations);
    }
    assert evaluations + [] == evaluations;
  }
}
