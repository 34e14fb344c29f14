/** `BaseInteractionValidationBuilder`: the interpreter that reduces a QTI `responseProcessing`
    rule tree to a scoring map (`unattempted`, `correct`, `incorrect`, `scoring_type`, `score`,
    keyed by interaction identifier), the dispatch on the response-processing template, and the
    reduction of a scoring map to a score and a matching mode. The subclass hooks are
    parameters; log messages are returned as a list of diagnostics next to each result. */
module ValidationBuilder {
  import opened Wrappers
  import opened Sequences
  import opened PhpArrays
  import opened QtiModel

  /** One `LogService::log` call, identified by the situation it reports. */
  datatype Diagnostic =
    | MatchCorrectUnsupported
    | MapResponseUnsupported
    | NoResponseProcessing
    | AssumedMapping
    | AssumedCorrectResponse
    | UnrecognizedScoringType
    | UnknownTemplate
    | ValidationUnavailable(message: string)
    | UnsupportedProcessingRule(className: string)
    | ExtraRulesForIsNull
    | ExtraRulesForMatch
    | UnsupportedExpression(className: string)
    | NoVariableMapping(identifier: string)
    | UnrecognizedOutcomeExpression(className: string)

  /** A result together with the messages logged while computing it, oldest first. */
  datatype Logged<T> = Logged(value: T, log: seq<Diagnostic>)

  /** What a subclass hook does: return a validation (or null) after logging, or throw a
      `MappingException` with a message. */
  datatype HookOutcome<V> = Returned(validation: Option<V>, hookLog: seq<Diagnostic>)
                          | Raised(raisedLog: seq<Diagnostic>, message: string)

  /** The builder's constructor arguments; a missing outcome declaration collection behaves as
      an empty one. */
  datatype Builder = Builder(
    responseDeclaration: Option<ResponseDeclaration>,
    outcomeDeclarations: map<string, OutcomeDeclaration>)

  /** The array `getOutcomeValuesFromResponseRules` builds: values appended under 0, 1, … and,
      once a `mapResponse` resolved, the `score` it found (`map_response` is set with it). */
  datatype OutcomeValues = OutcomeValues(values: seq<Value>, mapped: Option<Value>)

  /** `$results[$interactionId]` when branch results are filed under an interaction. */
  datatype BranchResult = BranchResult(responseId: Option<string>, results: PhpArray)

  datatype Mode = ExactMatch | PartialMatch

  /** The pair `getValidationScoringData` returns. */
  datatype ScoringData = ScoringData(score: real, mode: Mode)

  const UNATTEMPTED: Key := StrKey("unattempted")
  const CORRECT: Key := StrKey("correct")
  const INCORRECT: Key := StrKey("incorrect")
  const SCORING_TYPE: Key := StrKey("scoring_type")
  const SCORE: Key := StrKey("score")
  const ANSWER: Key := StrKey("answer")

  // ---------------------------------------------------------------------------------------
  // Outcome values

  /** `$outcomeValues[0]`: the first collected value, null when nothing was collected. */
  function FirstValue(o: OutcomeValues): Value {
    if o.values == [] then Null else o.values[0]
  }

  /** The `mapResponse` loop: each entry's mapped value becomes the score, stopping at the first
      strictly positive one; null (None) when the mapping has no entries. */
  function MapResponseScore(entries: seq<MapEntry>): (score: Option<real>)
    ensures score.None? <==> entries == []
  {
    if entries == [] then None
    else if entries[0].mappedValue > 0.0 || |entries| == 1 then Some(entries[0].mappedValue)
    else MapResponseScore(entries[1..])
  }

  /** The first strictly positive mapped value is the score. */
  lemma {:induction false} FirstPositiveMappedValueWins(entries: seq<MapEntry>, k: nat)
    requires k < |entries| && entries[k].mappedValue > 0.0
    requires forall i :: 0 <= i < k ==> entries[i].mappedValue <= 0.0
    ensures MapResponseScore(entries) == Some(entries[k].mappedValue)
  {
    if k > 0 {
      assert entries[0].mappedValue <= 0.0;
      FirstPositiveMappedValueWins(entries[1..], k - 1);
    }
  }

  /** Without a strictly positive mapped value the last entry's value is the score. */
  lemma {:induction false} LastMappedValueWithoutPositive(entries: seq<MapEntry>)
    requires entries != []
    requires forall i :: 0 <= i < |entries| ==> entries[i].mappedValue <= 0.0
    ensures MapResponseScore(entries) == Some(entries[|entries| - 1].mappedValue)
  {
    if |entries| > 1 {
      assert entries[0].mappedValue <= 0.0;
      LastMappedValueWithoutPositive(entries[1..]);
    }
  }

  /** The PHP value of a `mapResponse` score: the float found, or null. */
  function ScoreValue(score: Option<real>): Value {
    match score
    case Some(r) => Float(r)
    case None => Null
  }

  /** One iteration of the loop over `setOutcomeValue` rules. */
  function ResolveOutcome(b: Builder, acc: OutcomeValues, e: OutcomeExpression): Logged<OutcomeValues> {
    match e
    case BaseValue(v) => Logged(acc.(values := acc.values + [v]), [])
    case Variable(id) =>
      if id in b.outcomeDeclarations then
        Logged(acc.(values := acc.values + [b.outcomeDeclarations[id].firstDefault]), [])
      else Logged(acc, [NoVariableMapping(id)])
    case MapResponse(_) =>
      // the builder's own declaration: the per-identifier lookup reads an unset property
      if b.responseDeclaration.Some? && b.responseDeclaration.value.mapping.Some? then
        var entries := b.responseDeclaration.value.mapping.value.mapEntries;
        Logged(acc.(mapped := Some(ScoreValue(MapResponseScore(entries)))), [])
      else Logged(acc, [])
    case OtherOutcomeExpression(c) => Logged(acc, [UnrecognizedOutcomeExpression(c)])
  }

  /** `getOutcomeValuesFromResponseRules`: the rules resolved in document order. */
  function OutcomeValuesFromRules(b: Builder, rules: seq<SetOutcomeValue>): (r: Logged<OutcomeValues>)
    ensures |r.value.values| <= |rules|
    decreases |rules|
  {
    if rules == [] then Logged(OutcomeValues([], None), [])
    else
      var prev := OutcomeValuesFromRules(b, rules[..|rules| - 1]);
      var step := ResolveOutcome(b, prev.value, rules[|rules| - 1].expression);
      Logged(step.value, prev.log + step.log)
  }

  /** What one rule adds, whatever was collected before it. */
  lemma {:induction false} ResolveOutcomeShift(b: Builder, acc: OutcomeValues, e: OutcomeExpression)
    ensures var d := ResolveOutcome(b, OutcomeValues([], None), e);
      ResolveOutcome(b, acc, e).value.values == acc.values + d.value.values &&
      ResolveOutcome(b, acc, e).value.mapped == Override(acc.mapped, d.value.mapped) &&
      ResolveOutcome(b, acc, e).log == d.log
  {
  }

  /** Resolving two runs of rules one after the other collects the values of both, in order; the
      later run's mapped score, if any, replaces the earlier one. */
  lemma {:induction false} OutcomeValuesOfConcatenation(b: Builder, r1: seq<SetOutcomeValue>, r2: seq<SetOutcomeValue>)
    ensures OutcomeValuesFromRules(b, r1 + r2).value.values
         == OutcomeValuesFromRules(b, r1).value.values + OutcomeValuesFromRules(b, r2).value.values
    ensures OutcomeValuesFromRules(b, r1 + r2).value.mapped
         == Override(OutcomeValuesFromRules(b, r1).value.mapped, OutcomeValuesFromRules(b, r2).value.mapped)
    ensures OutcomeValuesFromRules(b, r1 + r2).log
         == OutcomeValuesFromRules(b, r1).log + OutcomeValuesFromRules(b, r2).log
    decreases |r2|
  {
    if r2 == [] {
      assert r1 + r2 == r1;
    } else {
      var n := |r2|;
      var front := r2[..n - 1];
      var last := r2[n - 1];
      var e := last.expression;
      assert r2 == front + [last];
      assert r1 + r2 == (r1 + front) + [last];
      OutcomeValuesOfConcatenation(b, r1, front);
      OutcomeValuesSnoc(b, r1 + front, last);
      OutcomeValuesSnoc(b, front, last);
      var whole := OutcomeValuesFromRules(b, r1 + front);
      var part := OutcomeValuesFromRules(b, front);
      var first := OutcomeValuesFromRules(b, r1);
      var d := ResolveOutcome(b, OutcomeValues([], None), e);
      ResolveOutcomeShift(b, whole.value, e);
      ResolveOutcomeShift(b, part.value, e);
      ConcatAssoc(first.value.values, part.value.values, d.value.values);
      ConcatAssoc(first.log, part.log, d.log);
    }
  }

  /** One more rule is resolved against what the earlier ones collected. */
  lemma {:induction false} OutcomeValuesSnoc(b: Builder, rules: seq<SetOutcomeValue>, last: SetOutcomeValue)
    ensures var prev := OutcomeValuesFromRules(b, rules);
      var step := ResolveOutcome(b, prev.value, last.expression);
      OutcomeValuesFromRules(b, rules + [last]) == Logged(step.value, prev.log + step.log)
  {
    assert (rules + [last])[..|rules|] == rules;
  }

  /** Rules that are all `baseValue`s collect exactly their literals, map nothing, log nothing. */
  lemma {:induction false} BaseValuesCollectLiterals(b: Builder, rules: seq<SetOutcomeValue>)
    requires forall i :: 0 <= i < |rules| ==> rules[i].expression.BaseValue?
    ensures OutcomeValuesFromRules(b, rules).value.values
         == seq(|rules|, i requires 0 <= i < |rules| => rules[i].expression.value)
    ensures OutcomeValuesFromRules(b, rules).value.mapped.None?
    ensures OutcomeValuesFromRules(b, rules).log == []
    decreases |rules|
  {
    if rules != [] {
      BaseValuesCollectLiterals(b, rules[..|rules| - 1]);
    }
  }

  /** A `variable` with no outcome declaration contributes nothing and is logged. */
  lemma {:induction false} UnknownVariableContributesNothing(b: Builder, rules: seq<SetOutcomeValue>, id: string, target: string)
    requires id !in b.outcomeDeclarations
    ensures OutcomeValuesFromRules(b, rules + [SetOutcomeValue(target, Variable(id))]).value
         == OutcomeValuesFromRules(b, rules).value
    ensures OutcomeValuesFromRules(b, rules + [SetOutcomeValue(target, Variable(id))]).log
         == OutcomeValuesFromRules(b, rules).log + [NoVariableMapping(id)]
  {
    var rs := rules + [SetOutcomeValue(target, Variable(id))];
    assert rs[..|rs| - 1] == rules;
  }

  /** A `mapResponse` sets the mapped score exactly when the builder's declaration has a mapping,
      and the score is then the mapping's `MapResponseScore`. */
  lemma {:induction false} MapResponseNeedsMapping(b: Builder, rules: seq<SetOutcomeValue>, id: string, target: string)
    ensures var o := OutcomeValuesFromRules(b, rules + [SetOutcomeValue(target, MapResponse(id))]).value;
      o.values == OutcomeValuesFromRules(b, rules).value.values &&
      (!(b.responseDeclaration.Some? && b.responseDeclaration.value.mapping.Some?) ==>
         o.mapped == OutcomeValuesFromRules(b, rules).value.mapped)
    ensures b.responseDeclaration.Some? && b.responseDeclaration.value.mapping.Some? ==>
      OutcomeValuesFromRules(b, rules + [SetOutcomeValue(target, MapResponse(id))]).value.mapped
        == Some(ScoreValue(MapResponseScore(b.responseDeclaration.value.mapping.value.mapEntries)))
  {
    var rs := rules + [SetOutcomeValue(target, MapResponse(id))];
    assert rs[..|rs| - 1] == rules;
  }

  // ---------------------------------------------------------------------------------------
  // Condition branches

  /** `processConditionBranch`: a `responseIf`/`responseElseIf` has a guard, a `responseElse`
      (guard None) has none. Returns the interaction identifier the guard names and the branch's
      scoring entries. */
  function ProcessConditionBranch(b: Builder, guard: Option<Guard>, rules: seq<SetOutcomeValue>): (r: Logged<BranchResult>)
    ensures StringKeyed(r.value.results) && UniqueKeys(r.value.results)
    ensures r.value.responseId.None? <==> guard.None? || guard.value.OtherGuard?
    ensures r.value.responseId.Some? ==> r.value.responseId == Some(guard.value.operand)
    ensures guard.Some? && guard.value.OtherGuard? ==>
      r == Logged(BranchResult(None, []), [UnsupportedExpression(guard.value.className)])
    ensures var o := OutcomeValuesFromRules(b, rules);
      guard.Some? && guard.value.IsNull? ==>
        r.value.results == [Entry(UNATTEMPTED, FirstValue(o.value))] &&
        r.log == (if |rules| > 1 then [ExtraRulesForIsNull] else []) + o.log
    ensures var o := OutcomeValuesFromRules(b, rules);
      guard.Some? && guard.value.Match? ==>
        r.value.results == [Entry(CORRECT, FirstValue(o.value)), Entry(SCORING_TYPE, Str("match"))] &&
        r.log == (if |rules| > 1 then [ExtraRulesForMatch] else []) + o.log
    ensures var o := OutcomeValuesFromRules(b, rules);
      guard.Some? && guard.value.Equal? ==>
        Lookup(r.value.results, CORRECT)
          == Some(Arr([Entry(IntKey(0), Arr([Entry(SCORE, FirstValue(o.value)), Entry(ANSWER, guard.value.literal)]))])) &&
        Lookup(r.value.results, SCORING_TYPE) == Some(Str("match")) &&
        Keys(r.value.results) == [CORRECT, SCORING_TYPE] &&
        r.log == o.log
    ensures guard.None? ==> r.log == OutcomeValuesFromRules(b, rules).log
  {
    var o := OutcomeValuesFromRules(b, rules);
    var first := FirstValue(o.value);
    match guard
    case None =>
      if o.value.mapped.Some? then
        Logged(BranchResult(None, [Entry(SCORING_TYPE, Str("partial")), Entry(SCORE, o.value.mapped.value)]), o.log)
      else
        Logged(BranchResult(None, [Entry(INCORRECT, if IsEmpty(first) then Int(0) else first)]), o.log)
    case Some(IsNull(x)) =>
      Logged(BranchResult(Some(x), [Entry(UNATTEMPTED, first)]),
             (if |rules| > 1 then [ExtraRulesForIsNull] else []) + o.log)
    case Some(Match(x)) =>
      Logged(BranchResult(Some(x), [Entry(CORRECT, first), Entry(SCORING_TYPE, Str("match"))]),
             (if |rules| > 1 then [ExtraRulesForMatch] else []) + o.log)
    case Some(Equal(x, literal)) =>
      var answer := Arr([Entry(SCORE, first), Entry(ANSWER, literal)]);
      Logged(BranchResult(Some(x), [Entry(CORRECT, Arr([Entry(IntKey(0), answer)])), Entry(SCORING_TYPE, Str("match"))]),
             o.log)
    case Some(OtherGuard(c)) => Logged(BranchResult(None, []), [UnsupportedExpression(c)])
  }

  /** Only the first rule of an `isNull` or `match` branch is used: when it is a `baseValue`,
      later rules do not change the branch's entries. */
  lemma {:induction false} OnlyFirstRuleScores(b: Builder, g: Guard, v: Value, target: string, rest: seq<SetOutcomeValue>)
    requires g.IsNull? || g.Match? || g.Equal?
    ensures var r := ProcessConditionBranch(b, Some(g), [SetOutcomeValue(target, BaseValue(v))] + rest).value;
      r == ProcessConditionBranch(b, Some(g), [SetOutcomeValue(target, BaseValue(v))]).value &&
      r.responseId == Some(g.operand) &&
      (g.IsNull? ==> r.results == [Entry(UNATTEMPTED, v)]) &&
      (g.Match? ==> r.results == [Entry(CORRECT, v), Entry(SCORING_TYPE, Str("match"))]) &&
      (g.Equal? ==> r.results == [Entry(CORRECT, Arr([Entry(IntKey(0), Arr([Entry(SCORE, v), Entry(ANSWER, g.literal)]))])),
                                   Entry(SCORING_TYPE, Str("match"))])
  {
    var head := [SetOutcomeValue(target, BaseValue(v))];
    OutcomeValuesOfConcatenation(b, head, rest);
    assert head[..0] == [];
    assert OutcomeValuesFromRules(b, head).value.values == [v];
  }

  /** The first outcome value is read off the first rule: a `baseValue` gives its literal and a
      declared `variable` its first default value; a `mapResponse`, an undeclared `variable` or an
      unrecognised expression adds no positional value, so the remaining rules decide. */
  lemma {:induction false} FirstValueOfRules(b: Builder, head: SetOutcomeValue, rest: seq<SetOutcomeValue>)
    ensures FirstValue(OutcomeValuesFromRules(b, [head] + rest).value)
         == match head.expression
            case BaseValue(v) => v
            case Variable(id) =>
              if id in b.outcomeDeclarations then b.outcomeDeclarations[id].firstDefault
              else FirstValue(OutcomeValuesFromRules(b, rest).value)
            case _ => FirstValue(OutcomeValuesFromRules(b, rest).value)
  {
    OutcomeValuesOfConcatenation(b, [head], rest);
    OutcomeValuesSnoc(b, [], head);
    assert [] + [head] == [head];
  }

  /** A branch whose rules collect no positional value files null: a lone `mapResponse` under
      `isNull` gives `unattempted` null. */
  lemma {:induction false} NoValueFilesNull(b: Builder, g: Guard, rules: seq<SetOutcomeValue>)
    requires g.IsNull? || g.Match?
    requires forall i :: 0 <= i < |rules| ==> rules[i].expression.MapResponse?
    ensures g.IsNull? ==> ProcessConditionBranch(b, Some(g), rules).value.results == [Entry(UNATTEMPTED, Null)]
    ensures g.Match? ==>
      ProcessConditionBranch(b, Some(g), rules).value.results == [Entry(CORRECT, Null), Entry(SCORING_TYPE, Str("match"))]
    decreases |rules|
  {
    MapResponsesCollectNoValue(b, rules);
  }

  lemma {:induction false} MapResponsesCollectNoValue(b: Builder, rules: seq<SetOutcomeValue>)
    requires forall i :: 0 <= i < |rules| ==> rules[i].expression.MapResponse?
    ensures OutcomeValuesFromRules(b, rules).value.values == []
    decreases |rules|
  {
    if rules != [] {
      MapResponsesCollectNoValue(b, rules[..|rules| - 1]);
    }
  }

  /** An `else` branch with a resolved `mapResponse` scores partially with the mapped score;
      otherwise it files the first value as `incorrect`, or 0 when that value is empty. */
  lemma {:induction false} ElseBranchMeaning(b: Builder, rules: seq<SetOutcomeValue>)
    ensures var o := OutcomeValuesFromRules(b, rules).value;
      var r := ProcessConditionBranch(b, None, rules).value.results;
      (o.mapped.Some? ==> Lookup(r, SCORING_TYPE) == Some(Str("partial")) && Lookup(r, SCORE) == o.mapped) &&
      (o.mapped.None? ==>
         (Keys(r) == [INCORRECT] &&
          (Lookup(r, INCORRECT) == Some(Int(0)) <==> IsEmpty(FirstValue(o))) &&
          (!IsEmpty(FirstValue(o)) ==> Lookup(r, INCORRECT) == Some(FirstValue(o)))))
  {
  }

  /** Renaming the interaction a guard refers to. */
  function WithOperand(g: Guard, x: string): Guard {
    match g
    case IsNull(_) => IsNull(x)
    case Match(_) => Match(x)
    case Equal(_, lit) => Equal(x, lit)
    case OtherGuard(c) => OtherGuard(c)
  }

  /** A branch's entries and log do not depend on which interaction its guard names. */
  lemma {:induction false} BranchIgnoresOperand(b: Builder, g: Guard, x: string, rules: seq<SetOutcomeValue>)
    ensures ProcessConditionBranch(b, Some(WithOperand(g, x)), rules).value.results
         == ProcessConditionBranch(b, Some(g), rules).value.results
    ensures ProcessConditionBranch(b, Some(WithOperand(g, x)), rules).log
         == ProcessConditionBranch(b, Some(g), rules).log
  {
  }

  // ---------------------------------------------------------------------------------------
  // Merging branch results

  /** `empty($interactionId)`: null, "" or "0". */
  predicate IsEmptyId(id: Option<string>) {
    id.None? || IsEmpty(Str(id.value))
  }

  /** `mergeResponseResults`. Without an interaction identifier the branch entries are merged
      into the top level with `array_merge`; under a new identifier they become its entry; under
      an existing one they are merged into it with `array_merge_recursive` (PHP 7 yields null when
      the existing entry is not an array). */
  function MergeResponseResults(results: PhpArray, cond: PhpArray, id: Option<string>): (r: PhpArray)
    ensures UniqueKeys(results) ==> UniqueKeys(r)
    ensures !IsEmptyId(id) ==> forall k :: k != StrKey(id.value) ==> Lookup(r, k) == Lookup(results, k)
    ensures !IsEmptyId(id) && !IssetAt(results, StrKey(id.value)) ==> Lookup(r, StrKey(id.value)) == Some(Arr(cond))
    ensures !IsEmptyId(id) ==> Keys(r) == Keys(Set(results, StrKey(id.value), Null))
  {
    if IsEmptyId(id) then ArrayMerge(results, cond)
    else
      var k := StrKey(id.value);
      Set(results, k, MergedEntry(Lookup(results, k), cond))
  }

  /** What the identifier's entry becomes: the branch entries when it was unset, both merged
      when it was an array, and null when it was any other value. */
  function MergedEntry(existing: Option<Value>, cond: PhpArray): Value {
    match existing
    case Some(Arr(entries)) => Arr(ArrayMergeRecursive(entries, cond))
    case Some(Null) => Arr(cond)
    case None => Arr(cond)
    case Some(_) => Null
  }

  /** Without an identifier, every string key takes the branch's value when it has one and keeps
      its old value otherwise. */
  lemma {:induction false} MergeIntoGlobalScope(results: PhpArray, cond: PhpArray, id: Option<string>, k: string)
    requires IsEmptyId(id) && UniqueKeys(results) && UniqueKeys(cond)
    ensures Lookup(MergeResponseResults(results, cond, id), StrKey(k))
         == Override(Lookup(results, StrKey(k)), Lookup(cond, StrKey(k)))
  {
    ArrayMergePointwise(results, cond, k);
  }

  /** Under an existing identifier, each string key of the entry is merged the
      `array_merge_recursive` way: absent keys are added, colliding ones are combined. */
  lemma {:induction false} MergeIntoExistingEntry(results: PhpArray, cond: PhpArray, id: string, existing: PhpArray, k: string)
    requires !IsEmptyId(Some(id)) && UniqueKeys(existing) && UniqueKeys(cond)
    requires Lookup(results, StrKey(id)) == Some(Arr(existing))
    ensures Lookup(MergeResponseResults(results, cond, Some(id)), StrKey(id)).Some?
    ensures Lookup(MergeResponseResults(results, cond, Some(id)), StrKey(id)).value.Arr?
    ensures Lookup(Lookup(MergeResponseResults(results, cond, Some(id)), StrKey(id)).value.entries, StrKey(k))
         == MergeValues(Lookup(existing, StrKey(k)), Lookup(cond, StrKey(k)))
  {
    MergedUnderExistingId(results, cond, id, existing);
    ArrayMergeRecursivePointwise(existing, cond, k);
  }

  lemma {:induction false} MergedUnderExistingId(results: PhpArray, cond: PhpArray, id: string, existing: PhpArray)
    requires !IsEmptyId(Some(id))
    requires Lookup(results, StrKey(id)) == Some(Arr(existing))
    ensures Lookup(MergeResponseResults(results, cond, Some(id)), StrKey(id)) == Some(Arr(ArrayMergeRecursive(existing, cond)))
  {
    var k := StrKey(id);
    var r := MergeResponseResults(results, cond, Some(id));
    var e := MergedEntry(Lookup(results, k), cond);
    assert e == Arr(ArrayMergeRecursive(existing, cond));
    assert r == Set(results, k, e);
    assert Lookup(r, k) == Some(e);
  }

  // ---------------------------------------------------------------------------------------
  // Response conditions

  /** The `responseElseIf` loop, merging each branch under the given identifier. */
  function MergeElseIfs(b: Builder, acc: Logged<PhpArray>, branches: seq<GuardedBranch>, id: Option<string>): (r: Logged<PhpArray>)
    ensures UniqueKeys(acc.value) ==> UniqueKeys(r.value)
    decreases |branches|
  {
    if branches == [] then acc
    else
      var prev := MergeElseIfs(b, acc, branches[..|branches| - 1], id);
      var last := branches[|branches| - 1];
      var br := ProcessConditionBranch(b, Some(last.guard), last.rules);
      Logged(MergeResponseResults(prev.value, br.value.results, id), prev.log + br.log)
  }

  /** `processResponseCondition`: the `responseIf`, each `responseElseIf` in order, then the
      `responseElse`, all merged under the identifier the `responseIf` guard names. */
  function ProcessResponseCondition(b: Builder, c: ResponseCondition): (r: Logged<PhpArray>)
    ensures UniqueKeys(r.value)
  {
    var first := ProcessConditionBranch(b, Some(c.responseIf.guard), c.responseIf.rules);
    var id := first.value.responseId;
    assert UniqueKeys([]);
    var afterIf := MergeResponseResults([], first.value.results, id);
    var afterElseIfs := MergeElseIfs(b, Logged(afterIf, first.log), c.responseElseIfs, id);
    match c.responseElse
    case None => afterElseIfs
    case Some(rules) =>
      var br := ProcessConditionBranch(b, None, rules);
      Logged(MergeResponseResults(afterElseIfs.value, br.value.results, id), afterElseIfs.log + br.log)
  }

  /** Merging under one identifier keeps a single top-level entry. */
  lemma {:induction false} ElseIfsKeepSingleEntry(b: Builder, acc: Logged<PhpArray>, branches: seq<GuardedBranch>, x: string)
    requires !IsEmptyId(Some(x)) && Keys(acc.value) == [StrKey(x)]
    ensures Keys(MergeElseIfs(b, acc, branches, Some(x)).value) == [StrKey(x)]
    decreases |branches|
  {
    if branches != [] {
      ElseIfsKeepSingleEntry(b, acc, branches[..|branches| - 1], x);
    }
  }

  /** When the `responseIf` guard names an interaction, the whole condition is filed under that
      interaction and nothing else. */
  lemma {:induction false} ConditionFiledUnderIfId(b: Builder, c: ResponseCondition)
    requires !c.responseIf.guard.OtherGuard? && !IsEmptyId(Some(c.responseIf.guard.operand))
    ensures Keys(ProcessResponseCondition(b, c).value) == [StrKey(c.responseIf.guard.operand)]
  {
    var x := c.responseIf.guard.operand;
    var first := ProcessConditionBranch(b, Some(c.responseIf.guard), c.responseIf.rules);
    var afterIf := MergeResponseResults([], first.value.results, Some(x));
    assert Keys(afterIf) == Keys(Set([], StrKey(x), Null)) == [StrKey(x)];
    ElseIfsKeepSingleEntry(b, Logged(afterIf, first.log), c.responseElseIfs, x);
  }

  /** The branch list with the guard of branch `i` renamed to interaction `x`. */
  function RenameBranch(branches: seq<GuardedBranch>, i: nat, x: string): seq<GuardedBranch>
    requires i < |branches|
  {
    branches[i := branches[i].(guard := WithOperand(branches[i].guard, x))]
  }

  /** What merging a branch depends on: its entries and its log. */
  function BranchContribution(b: Builder, br: GuardedBranch): (PhpArray, seq<Diagnostic>) {
    var r := ProcessConditionBranch(b, Some(br.guard), br.rules);
    (r.value.results, r.log)
  }

  /** Branch lists contributing the same entries and logs merge to the same result. */
  lemma {:induction false} MergeElseIfsCongruent(b: Builder, acc: Logged<PhpArray>, bs1: seq<GuardedBranch>, bs2: seq<GuardedBranch>, id: Option<string>)
    requires |bs1| == |bs2|
    requires forall i :: 0 <= i < |bs1| ==> BranchContribution(b, bs1[i]) == BranchContribution(b, bs2[i])
    ensures MergeElseIfs(b, acc, bs1, id) == MergeElseIfs(b, acc, bs2, id)
    decreases |bs1|
  {
    if bs1 != [] {
      var n := |bs1|;
      assert BranchContribution(b, bs1[n - 1]) == BranchContribution(b, bs2[n - 1]);
      MergeElseIfsCongruent(b, acc, bs1[..n - 1], bs2[..n - 1], id);
    }
  }

  /** The interaction named by a `responseElseIf` guard is ignored: renaming it changes nothing. */
  lemma {:induction false} ElseIfIdsIgnored(b: Builder, c: ResponseCondition, i: nat, x: string)
    requires i < |c.responseElseIfs|
    ensures ProcessResponseCondition(b, c.(responseElseIfs := RenameBranch(c.responseElseIfs, i, x)))
         == ProcessResponseCondition(b, c)
  {
    var first := ProcessConditionBranch(b, Some(c.responseIf.guard), c.responseIf.rules);
    var id := first.value.responseId;
    var afterIf := MergeResponseResults([], first.value.results, id);
    var bs := c.responseElseIfs;
    var renamed := RenameBranch(bs, i, x);
    forall j | 0 <= j < |bs| ensures BranchContribution(b, renamed[j]) == BranchContribution(b, bs[j]) {
      if j == i {
        BranchIgnoresOperand(b, bs[i].guard, x, bs[i].rules);
      }
    }
    MergeElseIfsCongruent(b, Logged(afterIf, first.log), renamed, bs, id);
  }

  // ---------------------------------------------------------------------------------------
  // Built-in response processing

  /** The loop of `getBuiltinResponseValidation` over the top-level rules: conditions are merged
      with `array_merge_recursive` in document order, anything else is logged and skipped. */
  function BuiltinScores(b: Builder, rules: seq<ResponseRule>): (r: Logged<PhpArray>)
    ensures UniqueKeys(r.value)
    decreases |rules|
  {
    if rules == [] then
      assert UniqueKeys([]);
      Logged([], [])
    else
      var prev := BuiltinScores(b, rules[..|rules| - 1]);
      match rules[|rules| - 1]
      case Condition(c) =>
        var cond := ProcessResponseCondition(b, c);
        Logged(ArrayMergeRecursive(prev.value, cond.value), prev.log + cond.log)
      case OtherRule(name) => Logged(prev.value, prev.log + [UnsupportedProcessingRule(name)])
  }

  /** The top-level conditions of a rule list, in order. */
  function Conditions(rules: seq<ResponseRule>): (cs: seq<ResponseRule>)
    ensures forall i :: 0 <= i < |cs| ==> cs[i].Condition?
    decreases |rules|
  {
    if rules == [] then []
    else Conditions(rules[..|rules| - 1]) + (if rules[|rules| - 1].Condition? then [rules[|rules| - 1]] else [])
  }

  /** Non-condition top-level rules contribute nothing to the scores. */
  lemma {:induction false} BuiltinScoresOnlyFromConditions(b: Builder, rules: seq<ResponseRule>)
    ensures BuiltinScores(b, rules).value == BuiltinScores(b, Conditions(rules)).value
    decreases |rules|
  {
    if rules != [] {
      var n := |rules|;
      BuiltinScoresOnlyFromConditions(b, rules[..n - 1]);
      var cs := Conditions(rules[..n - 1]);
      if rules[n - 1].Condition? {
        var all := cs + [rules[n - 1]];
        assert all[..|all| - 1] == cs;
      } else {
        assert Conditions(rules) == cs;
      }
    }
  }

  /** Without any top-level condition the built-in scores are empty. */
  lemma {:induction false} NoConditionsNoScores(b: Builder, rules: seq<ResponseRule>)
    requires forall i :: 0 <= i < |rules| ==> !rules[i].Condition?
    ensures BuiltinScores(b, rules).value == []
    decreases |rules|
  {
    if rules != [] {
      NoConditionsNoScores(b, rules[..|rules| - 1]);
    }
  }

  /** What one top-level rule adds to the log. */
  function RuleLog(b: Builder, rule: ResponseRule): seq<Diagnostic>
  {
    match rule
    case Condition(c) => ProcessResponseCondition(b, c).log
    case OtherRule(name) => [UnsupportedProcessingRule(name)]
  }

  lemma {:induction false} BuiltinScoresLogSnoc(b: Builder, rules: seq<ResponseRule>, last: ResponseRule)
    ensures BuiltinScores(b, rules + [last]).log == BuiltinScores(b, rules).log + RuleLog(b, last)
  {
    var all := rules + [last];
    assert all[..|all| - 1] == rules;
  }

  /** The log of a rule does not depend on the rules before it, so the log of a rule list is
      the log of its first part followed by the log of the rest. */
  lemma {:induction false} BuiltinScoresLogConcat(b: Builder, r1: seq<ResponseRule>, r2: seq<ResponseRule>)
    ensures BuiltinScores(b, r1 + r2).log == BuiltinScores(b, r1).log + BuiltinScores(b, r2).log
    decreases |r2|
  {
    if r2 == [] {
      assert r1 + r2 == r1;
    } else {
      var n := |r2|;
      var front := r2[..n - 1];
      var last := r2[n - 1];
      BuiltinScoresLogConcat(b, r1, front);
      assert r2 == front + [last];
      assert r1 + r2 == (r1 + front) + [last];
      BuiltinScoresLogSnoc(b, r1 + front, last);
      BuiltinScoresLogSnoc(b, front, last);
      ConcatAssoc(BuiltinScores(b, r1).log, BuiltinScores(b, front).log, RuleLog(b, last));
    }
  }

  /** A top-level rule that is not a condition is logged as unsupported at its place in the log
      and skipped: the scores are those of the list without it. */
  lemma {:induction false} SkippedRuleOnlyLogged(b: Builder, r1: seq<ResponseRule>, name: string, r2: seq<ResponseRule>)
    ensures BuiltinScores(b, r1 + [OtherRule(name)] + r2).value == BuiltinScores(b, r1 + r2).value
    ensures BuiltinScores(b, r1 + [OtherRule(name)] + r2).log
         == BuiltinScores(b, r1).log + [UnsupportedProcessingRule(name)] + BuiltinScores(b, r2).log
  {
    SkippedRuleKeepsScores(b, r1, name, r2);
    var head := r1 + [OtherRule(name)];
    assert head[..|head| - 1] == r1;
    BuiltinScoresLogConcat(b, head, r2);
  }

  /** What one top-level rule does to the scores collected so far. */
  function RuleScores(b: Builder, acc: PhpArray, rule: ResponseRule): PhpArray
  {
    match rule
    case Condition(c) => ArrayMergeRecursive(acc, ProcessResponseCondition(b, c).value)
    case OtherRule(_) => acc
  }

  lemma {:induction false} BuiltinScoresValueSnoc(b: Builder, rules: seq<ResponseRule>, last: ResponseRule)
    ensures BuiltinScores(b, rules + [last]).value == RuleScores(b, BuiltinScores(b, rules).value, last)
  {
    var all := rules + [last];
    assert all[..|all| - 1] == rules;
  }

  lemma {:induction false} SkippedRuleKeepsScores(b: Builder, r1: seq<ResponseRule>, name: string, r2: seq<ResponseRule>)
    ensures BuiltinScores(b, r1 + [OtherRule(name)] + r2).value == BuiltinScores(b, r1 + r2).value
    decreases |r2|
  {
    var head := r1 + [OtherRule(name)];
    if r2 == [] {
      AppendEmpty(head);
      AppendEmpty(r1);
      BuiltinScoresValueSnoc(b, r1, OtherRule(name));
    } else {
      var front := r2[..|r2| - 1];
      var last := r2[|r2| - 1];
      SkippedRuleKeepsScores(b, r1, name, front);
      SplitLast(head, r2);
      SplitLast(r1, r2);
      SameScoresSnoc(b, head + front, r1 + front, last);
    }
  }

  /** Rule lists with the same scores still have the same scores after one more rule. */
  lemma {:induction false} SameScoresSnoc(b: Builder, xs: seq<ResponseRule>, ys: seq<ResponseRule>, last: ResponseRule)
    requires BuiltinScores(b, xs).value == BuiltinScores(b, ys).value
    ensures BuiltinScores(b, xs + [last]).value == BuiltinScores(b, ys + [last]).value
  {
    BuiltinScoresValueSnoc(b, xs, last);
    BuiltinScoresValueSnoc(b, ys, last);
  }

  /** A list of top-level rules none of which is a condition logs one unsupported-rule entry per
      rule, in order, and gives no scores. */
  lemma {:induction false} SkippedRulesLogged(b: Builder, rules: seq<ResponseRule>)
    requires forall i :: 0 <= i < |rules| ==> rules[i].OtherRule?
    ensures BuiltinScores(b, rules).value == []
    ensures |BuiltinScores(b, rules).log| == |rules|
    ensures forall i :: 0 <= i < |rules| ==>
      BuiltinScores(b, rules).log[i] == UnsupportedProcessingRule(rules[i].className)
    decreases |rules|
  {
    if rules != [] {
      var n := |rules|;
      SkippedRulesLogged(b, rules[..n - 1]);
      assert BuiltinScores(b, rules).log == BuiltinScores(b, rules[..n - 1]).log + [UnsupportedProcessingRule(rules[n - 1].className)];
    }
  }

  /** `getBuiltinResponseValidation`: null for a missing processing, the merged scores otherwise. */
  function GetBuiltinResponseValidation(b: Builder, processing: Option<ResponseProcessing>): (r: Logged<Option<PhpArray>>)
    ensures r.value.None? <==> processing.None?
    ensures r.value.Some? ==> UniqueKeys(r.value.value)
  {
    match processing
    case None => Logged(None, [])
    case Some(p) =>
      var scores := BuiltinScores(b, p.responseRules);
      Logged(Some(scores.value), scores.log)
  }

  // ---------------------------------------------------------------------------------------
  // Template dispatch

  /** The `catch (MappingException)` around the hooks: an exception becomes null plus a log
      entry. */
  function Catch<V>(before: seq<Diagnostic>, h: HookOutcome<V>): (r: Logged<Option<V>>)
    ensures h.Returned? ==> r.value == h.validation
    ensures h.Raised? ==> r.value.None? && ValidationUnavailable(h.message) in r.log
  {
    match h
    case Returned(v, l) => Logged(v, before + l)
    case Raised(l, m) => Logged(None, before + l + [ValidationUnavailable(m)])
  }

  predicate HasMapEntries(rd: Option<ResponseDeclaration>) {
    rd.Some? && rd.value.mapping.Some? && |rd.value.mapping.value.mapEntries| > 0
  }

  predicate HasCorrectValues(rd: Option<ResponseDeclaration>) {
    rd.Some? && rd.value.correctResponse.Some? && |rd.value.correctResponse.value| > 0
  }

  /** `buildValidation`. The hooks stand for the subclass's `getMatchCorrectTemplateValidation`
      (given the built-in scores, or null), `getMapResponseTemplateValidation` and
      `getNoTemplateResponsesValidation`. */
  function BuildValidation<V>(
    b: Builder, t: Template,
    matchCorrect: Option<PhpArray> -> HookOutcome<V>,
    mapResponse: () -> HookOutcome<V>,
    noTemplate: () -> HookOutcome<V>): (r: Logged<Option<V>>)
    ensures t.MatchCorrectTemplate? ==> r == Catch([], matchCorrect(None))
    ensures t.MapResponseTemplate? || t.Cc2MapResponseTemplate? ==> r == Catch([], mapResponse())
    ensures t.NoTemplate? && HasMapEntries(b.responseDeclaration) ==> r == Catch([AssumedMapping], mapResponse())
    ensures t.NoTemplate? && !HasMapEntries(b.responseDeclaration) && HasCorrectValues(b.responseDeclaration) ==>
      r == Catch([AssumedCorrectResponse], matchCorrect(None))
    ensures t.NoTemplate? && !HasMapEntries(b.responseDeclaration) && !HasCorrectValues(b.responseDeclaration) ==>
      r == Catch([], noTemplate())
    ensures t.UnrecognisedTemplate? ==> r == Logged(None, [UnknownTemplate])
  {
    match t
    case MatchCorrectTemplate => Catch([], matchCorrect(None))
    case MapResponseTemplate => Catch([], mapResponse())
    case Cc2MapResponseTemplate => Catch([], mapResponse())
    case NoTemplate =>
      if HasMapEntries(b.responseDeclaration) then Catch([AssumedMapping], mapResponse())
      else if HasCorrectValues(b.responseDeclaration) then Catch([AssumedCorrectResponse], matchCorrect(None))
      else Catch([], noTemplate())
    case BuiltinTemplate(p) =>
      var scores := GetBuiltinResponseValidation(b, p);
      if scores.value.Some? && scores.value.value != [] then Catch(scores.log, matchCorrect(scores.value))
      else Logged(None, scores.log + [UnrecognizedScoringType])
    case UnrecognisedTemplate(_) => Logged(None, [UnknownTemplate])
  }

  /** A built-in processing reaches the match hook exactly when its merged scores are non-empty,
      and then with those scores; otherwise no validation results. */
  lemma {:induction false} BuiltinDispatch<V>(
    b: Builder, p: Option<ResponseProcessing>,
    matchCorrect: Option<PhpArray> -> HookOutcome<V>,
    mapResponse: () -> HookOutcome<V>,
    noTemplate: () -> HookOutcome<V>)
    ensures var r := BuildValidation(b, BuiltinTemplate(p), matchCorrect, mapResponse, noTemplate);
      var scores := GetBuiltinResponseValidation(b, p);
      (scores.value.Some? && scores.value.value != [] ==>
        r == Catch(scores.log, matchCorrect(Some(BuiltinScores(b, p.value.responseRules).value)))) &&
      (scores.value.None? || scores.value.value == [] ==>
        r.value.None? && r.log[|r.log| - 1] == UnrecognizedScoringType)
  {
  }

  /** A processing with no top-level condition never reaches the match hook. */
  lemma {:induction false} BuiltinWithoutConditionsGivesNothing<V>(
    b: Builder, p: ResponseProcessing,
    matchCorrect: Option<PhpArray> -> HookOutcome<V>,
    mapResponse: () -> HookOutcome<V>,
    noTemplate: () -> HookOutcome<V>)
    requires forall i :: 0 <= i < |p.responseRules| ==> !p.responseRules[i].Condition?
    ensures BuildValidation(b, BuiltinTemplate(Some(p)), matchCorrect, mapResponse, noTemplate).value.None?
  {
    NoConditionsNoScores(b, p.responseRules);
  }

  /** The base class's own hooks: log that the template is unsupported and return null. */
  function BaseMatchCorrect<V>(scores: Option<PhpArray>): HookOutcome<V> {
    Returned(None, [MatchCorrectUnsupported])
  }

  function BaseMapResponse<V>(): HookOutcome<V> {
    Returned(None, [MapResponseUnsupported])
  }

  function BaseNoTemplate<V>(): HookOutcome<V> {
    Returned(None, [NoResponseProcessing])
  }

  /** With the base class's hooks no template produces a validation. */
  lemma {:induction false} BaseHooksNeverValidate<V>(b: Builder, t: Template)
    ensures BuildValidation(b, t, BaseMatchCorrect<V>, BaseMapResponse<V>, BaseNoTemplate<V>).value.None?
  {
  }

  // ---------------------------------------------------------------------------------------
  // Scoring data

  /** `getScoresForInteraction`: the scores filed under the builder's response identifier, when
      that entry is non-empty. */
  function GetScoresForInteraction(b: Builder, scores: Option<PhpArray>): (r: Option<Value>)
    ensures r.Some? <==> b.responseDeclaration.Some? && scores.Some? &&
                         !EmptyAt(scores.value, StrKey(b.responseDeclaration.value.identifier))
    ensures r.Some? ==> Lookup(scores.value, StrKey(b.responseDeclaration.value.identifier)) == r
  {
    if b.responseDeclaration.Some? && scores.Some? then
      match Lookup(scores.value, StrKey(b.responseDeclaration.value.identifier))
      case Some(v) => if IsEmpty(v) then None else Some(v)
      case None => None
    else None
  }

  /** `getValidationScoringData`: the score starts at 1, a non-empty `score` replaces it, a
      non-empty `correct` replaces that; the mode is partial exactly for `scoring_type` equal to
      the string "partial". `numericPrefix` stands for how `floatval` reads a string. */
  function GetValidationScoringData(scores: Option<PhpArray>, numericPrefix: string -> real): (r: ScoringData)
    ensures r.mode == PartialMatch <==> scores.Some? && Lookup(scores.value, SCORING_TYPE) == Some(Str("partial"))
    ensures scores.None? || (EmptyAt(scores.value, SCORE) && EmptyAt(scores.value, CORRECT)) ==> r.score == 1.0
    ensures scores.Some? && !EmptyAt(scores.value, CORRECT) ==>
      r.score == FloatVal(Lookup(scores.value, CORRECT).value, numericPrefix)
    ensures scores.Some? && EmptyAt(scores.value, CORRECT) && !EmptyAt(scores.value, SCORE) ==>
      r.score == FloatVal(Lookup(scores.value, SCORE).value, numericPrefix)
  {
    var s := scores.GetOr([]);
    var fromScore := if !EmptyAt(s, SCORE) then FloatVal(Lookup(s, SCORE).value, numericPrefix) else 1.0;
    var score := if !EmptyAt(s, CORRECT) then FloatVal(Lookup(s, CORRECT).value, numericPrefix) else fromScore;
    PartialIsNonEmpty(s);
    var partial := !EmptyAt(s, SCORING_TYPE) && Lookup(s, SCORING_TYPE) == Some(Str("partial"));
    ScoringData(score, if partial then PartialMatch else ExactMatch)
  }

  /** A `scoring_type` of "partial" is never empty. */
  lemma {:induction false} PartialIsNonEmpty(s: PhpArray)
    ensures Lookup(s, SCORING_TYPE) == Some(Str("partial")) ==> !EmptyAt(s, SCORING_TYPE)
  {
  }
}
