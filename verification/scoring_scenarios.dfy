/** Whole-pipeline consequences of the response-processing interpreter for the rule trees the
    standard QTI 2.1 templates expand to, and for a condition mixing `match` and `equal`. */
module ScoringScenarios {
  import opened Wrappers
  import opened PhpArrays
  import opened QtiModel
  import opened ValidationBuilder

  /** `setOutcomeValue SCORE` to a literal. */
  function SetScore(v: Value): SetOutcomeValue {
    SetOutcomeValue("SCORE", BaseValue(v))
  }

  /** The match_correct template: score 1 when the response matches its correct response,
      0 otherwise. */
  function MatchCorrectProcessing(x: string): ResponseProcessing {
    ResponseProcessing([Condition(ResponseCondition(
      GuardedBranch(Match(x), [SetScore(Float(1.0))]), [], Some([SetScore(Float(0.0))])))])
  }

  /** The map_response template: 0 when unanswered, otherwise the mapped score. */
  function MapResponseProcessing(x: string): ResponseProcessing {
    ResponseProcessing([Condition(ResponseCondition(
      GuardedBranch(IsNull(x), [SetScore(Float(0.0))]), [],
      Some([SetOutcomeValue("SCORE", MapResponse(x))])))])
  }

  lemma {:induction false} MergeUnderFreshId(cond: PhpArray, x: string)
    requires !IsEmptyId(Some(x))
    ensures MergeResponseResults([], cond, Some(x)) == [Entry(StrKey(x), Arr(cond))]
  {
  }

  lemma {:induction false} MergeUnderExistingId(existing: PhpArray, cond: PhpArray, x: string)
    requires !IsEmptyId(Some(x))
    ensures MergeResponseResults([Entry(StrKey(x), Arr(existing))], cond, Some(x))
         == [Entry(StrKey(x), Arr(ArrayMergeRecursive(existing, cond)))]
  {
    assert Lookup([Entry(StrKey(x), Arr(existing))], StrKey(x)) == Some(Arr(existing));
  }

  /** A condition with a `responseIf` and a `responseElse` only. */
  lemma {:induction false} IfElseCondition(b: Builder, ifBranch: GuardedBranch, elseRules: seq<SetOutcomeValue>)
    ensures var first := ProcessConditionBranch(b, Some(ifBranch.guard), ifBranch.rules).value;
      var other := ProcessConditionBranch(b, None, elseRules).value;
      ProcessResponseCondition(b, ResponseCondition(ifBranch, [], Some(elseRules))).value
        == MergeResponseResults(MergeResponseResults([], first.results, first.responseId), other.results, first.responseId)
  {
  }

  /** A condition with a `responseIf` and one `responseElseIf`. */
  lemma {:induction false} IfElseIfCondition(b: Builder, ifBranch: GuardedBranch, elseIf: GuardedBranch)
    ensures var first := ProcessConditionBranch(b, Some(ifBranch.guard), ifBranch.rules).value;
      var other := ProcessConditionBranch(b, Some(elseIf.guard), elseIf.rules).value;
      ProcessResponseCondition(b, ResponseCondition(ifBranch, [elseIf], None)).value
        == MergeResponseResults(MergeResponseResults([], first.results, first.responseId), other.results, first.responseId)
  {
    var first := ProcessConditionBranch(b, Some(ifBranch.guard), ifBranch.rules);
    var id := first.value.responseId;
    var acc := Logged(MergeResponseResults([], first.value.results, id), first.log);
    assert [elseIf][..0] == [];
    assert MergeElseIfs(b, acc, [], id) == acc;
    var other := ProcessConditionBranch(b, Some(elseIf.guard), elseIf.rules);
    assert MergeElseIfs(b, acc, [elseIf], id).value == MergeResponseResults(acc.value, other.value.results, id);
  }

  /** A processing made of one condition scores what that condition files. */
  lemma {:induction false} SingleConditionProcessing(b: Builder, c: ResponseCondition)
    requires StringKeyed(ProcessResponseCondition(b, c).value)
    ensures GetBuiltinResponseValidation(b, Some(ResponseProcessing([Condition(c)]))).value
         == Some(ProcessResponseCondition(b, c).value)
  {
    var rules := [Condition(c)];
    assert rules[..0] == [];
    var v := ProcessResponseCondition(b, c).value;
    assert [] + v == v;
    ArrayMergeRecursiveDisjoint([], v);
    assert BuiltinScores(b, rules).value == v;
    var p := ResponseProcessing(rules);
    assert GetBuiltinResponseValidation(b, Some(p)).value == Some(BuiltinScores(b, p.responseRules).value);
  }

  lemma {:induction false} ThreeKeyedEntries(e1: Entry, e2: Entry, e3: Entry)
    requires e1.key.StrKey? && e2.key.StrKey? && e3.key.StrKey?
    requires e1.key != e2.key && e1.key != e3.key && e2.key != e3.key
    ensures UniqueKeys([e1, e2] + [e3]) && UniqueKeys([e1] + [e2, e3])
    ensures StringKeyed([e1, e2]) && StringKeyed([e3]) && StringKeyed([e1]) && StringKeyed([e2, e3])
  {
    assert [e1, e2] + [e3] == [e1] + [e2, e3] == [e1, e2, e3];
    assert Keys([e1, e2, e3]) == [e1.key, e2.key, e3.key];
  }

  /** The match_correct tree files `correct` 1, `scoring_type` "match" and `incorrect` 0 under
      the interaction, and scores it 1 with exact matching. */
  lemma {:induction false} MatchCorrectTreeScoresExactly(b: Builder, np: string -> real)
    requires b.responseDeclaration.Some?
    requires !IsEmptyId(Some(b.responseDeclaration.value.identifier))
    ensures var x := b.responseDeclaration.value.identifier;
      var entry := [Entry(CORRECT, Float(1.0)), Entry(SCORING_TYPE, Str("match")), Entry(INCORRECT, Int(0))];
      var scores := GetBuiltinResponseValidation(b, Some(MatchCorrectProcessing(x))).value;
      scores == Some([Entry(StrKey(x), Arr(entry))]) &&
      GetScoresForInteraction(b, scores) == Some(Arr(entry)) &&
      GetValidationScoringData(Some(entry), np) == ScoringData(1.0, ExactMatch)
  {
    var x := b.responseDeclaration.value.identifier;
    var ifEntries := [Entry(CORRECT, Float(1.0)), Entry(SCORING_TYPE, Str("match"))];
    var elseEntries := [Entry(INCORRECT, Int(0))];
    var c := ResponseCondition(GuardedBranch(Match(x), [SetScore(Float(1.0))]), [], Some([SetScore(Float(0.0))]));
    MatchCorrectBranches(b, x);
    ThreeKeyedEntries(ifEntries[0], ifEntries[1], elseEntries[0]);
    IfElseFilesUnderId(b, c.responseIf, [SetScore(Float(0.0))], x, ifEntries, elseEntries);
    assert ifEntries + elseEntries
        == [Entry(CORRECT, Float(1.0)), Entry(SCORING_TYPE, Str("match")), Entry(INCORRECT, Int(0))];
    SingleEntryScores(b, c, ifEntries + elseEntries);
    MatchCorrectEntryScoring(np);
  }

  /** The two branches of the match_correct tree. */
  lemma {:induction false} MatchCorrectBranches(b: Builder, x: string)
    requires !IsEmptyId(Some(x))
    ensures ProcessConditionBranch(b, Some(Match(x)), [SetScore(Float(1.0))]).value
         == BranchResult(Some(x), [Entry(CORRECT, Float(1.0)), Entry(SCORING_TYPE, Str("match"))])
    ensures ProcessConditionBranch(b, None, [SetScore(Float(0.0))]).value.results == [Entry(INCORRECT, Int(0))]
  {
    OnlyFirstRuleScores(b, Match(x), Float(1.0), "SCORE", []);
    assert [SetScore(Float(1.0))] + [] == [SetScore(Float(1.0))];
    BaseValuesCollectLiterals(b, [SetScore(Float(0.0))]);
    assert OutcomeValuesFromRules(b, [SetScore(Float(0.0))]).value == OutcomeValues([Float(0.0)], None);
  }

  /** An if/else condition whose `responseIf` names the interaction files the entries of both
      branches under it, when their keys are distinct strings. */
  lemma {:induction false} IfElseFilesUnderId(b: Builder, ifB: GuardedBranch, elseRules: seq<SetOutcomeValue>,
                                              x: string, ifEntries: PhpArray, elseEntries: PhpArray)
    requires !IsEmptyId(Some(x))
    requires ProcessConditionBranch(b, Some(ifB.guard), ifB.rules).value == BranchResult(Some(x), ifEntries)
    requires ProcessConditionBranch(b, None, elseRules).value.results == elseEntries
    requires StringKeyed(ifEntries) && StringKeyed(elseEntries) && UniqueKeys(ifEntries + elseEntries)
    ensures ProcessResponseCondition(b, ResponseCondition(ifB, [], Some(elseRules))).value
         == [Entry(StrKey(x), Arr(ifEntries + elseEntries))]
  {
    IfElseCondition(b, ifB, elseRules);
    MergeUnderFreshId(ifEntries, x);
    MergeUnderExistingId(ifEntries, elseEntries, x);
    ArrayMergeRecursiveDisjoint(ifEntries, elseEntries);
  }

  /** A single condition that files a non-empty entry under the interaction's identifier: the
      built-in scores are that one entry, and the interaction's scores are the entry. */
  lemma {:induction false} SingleEntryScores(b: Builder, c: ResponseCondition, entry: PhpArray)
    requires b.responseDeclaration.Some? && entry != []
    requires ProcessResponseCondition(b, c).value == [Entry(StrKey(b.responseDeclaration.value.identifier), Arr(entry))]
    ensures var k := StrKey(b.responseDeclaration.value.identifier);
      var scores := GetBuiltinResponseValidation(b, Some(ResponseProcessing([Condition(c)]))).value;
      scores == Some([Entry(k, Arr(entry))]) && GetScoresForInteraction(b, scores) == Some(Arr(entry))
  {
    var k := StrKey(b.responseDeclaration.value.identifier);
    assert StringKeyed([Entry(k, Arr(entry))]);
    SingleConditionProcessing(b, c);
    assert Lookup([Entry(k, Arr(entry))], k) == Some(Arr(entry));
  }

  lemma {:induction false} MatchCorrectEntryScoring(np: string -> real)
    ensures GetValidationScoringData(Some([Entry(CORRECT, Float(1.0)), Entry(SCORING_TYPE, Str("match")), Entry(INCORRECT, Int(0))]), np)
         == ScoringData(1.0, ExactMatch)
  {
    var entry := [Entry(CORRECT, Float(1.0)), Entry(SCORING_TYPE, Str("match")), Entry(INCORRECT, Int(0))];
    assert Lookup(entry, CORRECT) == Some(Float(1.0));
    assert Lookup(entry, SCORING_TYPE) == Some(Str("match"));
  }

  /** The map_response tree files `unattempted` 0 and, since a mapping exists, `scoring_type`
      "partial" with the mapped score; it scores partially with that score unless the score is
      zero or missing, in which case the default 1 remains. */
  lemma {:induction false} MapResponseTreeScoresPartially(b: Builder, np: string -> real)
    requires b.responseDeclaration.Some? && b.responseDeclaration.value.mapping.Some?
    requires !IsEmptyId(Some(b.responseDeclaration.value.identifier))
    ensures var x := b.responseDeclaration.value.identifier;
      var mapped := MapResponseScore(b.responseDeclaration.value.mapping.value.mapEntries);
      var entry := [Entry(UNATTEMPTED, Float(0.0)), Entry(SCORING_TYPE, Str("partial")), Entry(SCORE, ScoreValue(mapped))];
      var scores := GetBuiltinResponseValidation(b, Some(MapResponseProcessing(x))).value;
      scores == Some([Entry(StrKey(x), Arr(entry))]) &&
      GetScoresForInteraction(b, scores) == Some(Arr(entry)) &&
      GetValidationScoringData(Some(entry), np)
        == ScoringData(if mapped.Some? && mapped.value != 0.0 then mapped.value else 1.0, PartialMatch)
  {
    var x := b.responseDeclaration.value.identifier;
    var mapped := MapResponseScore(b.responseDeclaration.value.mapping.value.mapEntries);
    var ifEntries := [Entry(UNATTEMPTED, Float(0.0))];
    var elseEntries := [Entry(SCORING_TYPE, Str("partial")), Entry(SCORE, ScoreValue(mapped))];
    var elseRules := [SetOutcomeValue("SCORE", MapResponse(x))];
    var c := ResponseCondition(GuardedBranch(IsNull(x), [SetScore(Float(0.0))]), [], Some(elseRules));
    MapResponseBranches(b, x);
    ThreeKeyedEntries(ifEntries[0], elseEntries[0], elseEntries[1]);
    IfElseFilesUnderId(b, c.responseIf, elseRules, x, ifEntries, elseEntries);
    assert ifEntries + elseEntries
        == [Entry(UNATTEMPTED, Float(0.0)), Entry(SCORING_TYPE, Str("partial")), Entry(SCORE, ScoreValue(mapped))];
    SingleEntryScores(b, c, ifEntries + elseEntries);
    MapResponseEntryScoring(mapped, np);
  }

  /** The two branches of the map_response tree. */
  lemma {:induction false} MapResponseBranches(b: Builder, x: string)
    requires b.responseDeclaration.Some? && b.responseDeclaration.value.mapping.Some?
    requires x == b.responseDeclaration.value.identifier && !IsEmptyId(Some(x))
    ensures ProcessConditionBranch(b, Some(IsNull(x)), [SetScore(Float(0.0))]).value
         == BranchResult(Some(x), [Entry(UNATTEMPTED, Float(0.0))])
    ensures var mapped := MapResponseScore(b.responseDeclaration.value.mapping.value.mapEntries);
      ProcessConditionBranch(b, None, [SetOutcomeValue("SCORE", MapResponse(x))]).value.results
        == [Entry(SCORING_TYPE, Str("partial")), Entry(SCORE, ScoreValue(mapped))]
  {
    var elseRules := [SetOutcomeValue("SCORE", MapResponse(x))];
    var mapped := MapResponseScore(b.responseDeclaration.value.mapping.value.mapEntries);
    OnlyFirstRuleScores(b, IsNull(x), Float(0.0), "SCORE", []);
    assert [SetScore(Float(0.0))] + [] == [SetScore(Float(0.0))];
    MapResponseNeedsMapping(b, [], x, "SCORE");
    assert [] + elseRules == elseRules;
    assert OutcomeValuesFromRules(b, elseRules).value.mapped == Some(ScoreValue(mapped));
  }

  lemma {:induction false} MapResponseEntryScoring(mapped: Option<real>, np: string -> real)
    ensures GetValidationScoringData(Some([Entry(UNATTEMPTED, Float(0.0)), Entry(SCORING_TYPE, Str("partial")), Entry(SCORE, ScoreValue(mapped))]), np)
         == ScoringData(if mapped.Some? && mapped.value != 0.0 then mapped.value else 1.0, PartialMatch)
  {
    var entry := [Entry(UNATTEMPTED, Float(0.0)), Entry(SCORING_TYPE, Str("partial")), Entry(SCORE, ScoreValue(mapped))];
    assert Lookup(entry, CORRECT) == None;
    ThreeKeyedEntries(entry[0], entry[1], entry[2]);
    assert [entry[0], entry[1]] + [entry[2]] == entry;
    LookupUnique(entry, 2);
    assert Lookup(entry, SCORING_TYPE) == Some(Str("partial"));
  }

  /** Overwriting the second of two entries. */
  lemma {:induction false} SetSecondOfTwo(e0: Entry, e1: Entry, k: Key, v: Value)
    requires e0.key != k && e1.key == k
    ensures Set([e0, e1], k, v) == [e0, Entry(k, v)]
  {
    SetCons([e0, e1], k, v);
    assert [e0, e1][1..] == [e1];
  }

  lemma {:induction false} SetFirstOfTwo(e0: Entry, e1: Entry, k: Key, v: Value)
    requires e0.key == k
    ensures Set([e0, e1], k, v) == [Entry(k, v), e1]
  {
    assert [e0, e1][1..] == [e1];
  }

  /** Two distinct string keys: renumbering leaves the array as it is. */
  lemma {:induction false} TwoStringKeysKept(k1: Key, k2: Key, x1: Value, x2: Value)
    requires k1.StrKey? && k2.StrKey? && k1 != k2
    ensures PutAll([], [Entry(k1, x1), Entry(k2, x2)]) == [Entry(k1, x1), Entry(k2, x2)]
  {
    var a := [Entry(k1, x1), Entry(k2, x2)];
    assert [] + a == a;
    assert UniqueKeys(a) by { assert Keys(a) == [k1, k2]; }
    PutAllFreshStrings([], a);
  }

  /** Merging the same two string keys collides both, first then second. */
  lemma {:induction false} TwoKeysMergeFrom(k1: Key, k2: Key, x1: Value, x2: Value, y1: Value, y2: Value)
    requires k1.StrKey? && k2.StrKey? && k1 != k2
    ensures MergeFrom([Entry(k1, x1), Entry(k2, x2)], Arr([Entry(k1, y1), Entry(k2, y2)]), 0)
         == [Entry(k1, Arr(Collide(x1, y1))), Entry(k2, Arr(Collide(x2, y2)))]
  {
    var src := Arr([Entry(k1, y1), Entry(k2, y2)]);
    var c1, c2 := Arr(Collide(x1, y1)), Arr(Collide(x2, y2));
    var a := [Entry(k1, x1), Entry(k2, x2)];
    assert Lookup(a, k1) == Some(x1);
    MergeFromCollision(a, src, 0, x1);
    SetFirstOfTwo(Entry(k1, x1), Entry(k2, x2), k1, c1);
    var d1 := [Entry(k1, c1), Entry(k2, x2)];
    assert Lookup(d1, k2) == Some(x2);
    MergeFromCollision(d1, src, 1, x2);
    SetSecondOfTwo(Entry(k1, c1), Entry(k2, x2), k2, c2);
    MergeFromDone([Entry(k1, c1), Entry(k2, c2)], src);
  }

  /** `array_merge_recursive` of two arrays with the same two string keys collides both. */
  lemma {:induction false} TwoKeysCollide(k1: Key, k2: Key, x1: Value, x2: Value, y1: Value, y2: Value)
    requires k1.StrKey? && k2.StrKey? && k1 != k2
    ensures ArrayMergeRecursive([Entry(k1, x1), Entry(k2, x2)], [Entry(k1, y1), Entry(k2, y2)])
         == [Entry(k1, Arr(Collide(x1, y1))), Entry(k2, Arr(Collide(x2, y2)))]
  {
    TwoStringKeysKept(k1, k2, x1, x2);
    TwoKeysMergeFrom(k1, k2, x1, x2, y1, y2);
    MergeRecursiveOfRenumbered([Entry(k1, x1), Entry(k2, x2)], [Entry(k1, y1), Entry(k2, y2)]);
  }

  /** `array_merge_recursive` of a `match` branch's entries with an `equal` branch's entries. */
  lemma {:induction false} MatchEntriesMeetEqualEntries(v1: Value, answer: Value)
    requires !v1.Arr?
    ensures ArrayMergeRecursive([Entry(CORRECT, v1), Entry(SCORING_TYPE, Str("match"))],
                                [Entry(CORRECT, Arr([Entry(IntKey(0), answer)])), Entry(SCORING_TYPE, Str("match"))])
         == [Entry(CORRECT, Arr([Entry(IntKey(0), v1), Entry(IntKey(1), answer)])),
             Entry(SCORING_TYPE, Arr([Entry(IntKey(0), Str("match")), Entry(IntKey(1), Str("match"))]))]
  {
    TwoKeysCollide(CORRECT, SCORING_TYPE, v1, Str("match"), Arr([Entry(IntKey(0), answer)]), Str("match"));
    ScalarCollidesWithSingleton(v1, answer);
    ScalarCollisionIsList(Str("match"), Str("match"));
  }

  /** A `match` branch followed by an `equal` branch on one interaction: `array_merge_recursive`
      turns `correct` into the list of the scalar and the answer record, and `scoring_type` into
      the list of both "match" strings; the scoring data then reads the list as score 1. */
  lemma {:induction false} MatchThenEqualCollideIntoLists(b: Builder, x: string, v1: Value, v2: Value, literal: Value, np: string -> real)
    requires !IsEmptyId(Some(x)) && !v1.Arr?
    ensures var c := ResponseCondition(GuardedBranch(Match(x), [SetScore(v1)]),
                                       [GuardedBranch(Equal(x, literal), [SetScore(v2)])], None);
      var answer := Arr([Entry(SCORE, v2), Entry(ANSWER, literal)]);
      var entry := [Entry(CORRECT, Arr([Entry(IntKey(0), v1), Entry(IntKey(1), answer)])),
                    Entry(SCORING_TYPE, Arr([Entry(IntKey(0), Str("match")), Entry(IntKey(1), Str("match"))]))];
      ProcessResponseCondition(b, c).value == [Entry(StrKey(x), Arr(entry))] &&
      GetValidationScoringData(Some(entry), np) == ScoringData(1.0, ExactMatch)
  {
    var answer := Arr([Entry(SCORE, v2), Entry(ANSWER, literal)]);
    var ifEntries := [Entry(CORRECT, v1), Entry(SCORING_TYPE, Str("match"))];
    var eqEntries := [Entry(CORRECT, Arr([Entry(IntKey(0), answer)])), Entry(SCORING_TYPE, Str("match"))];
    var ifB := GuardedBranch(Match(x), [SetScore(v1)]);
    var eqB := GuardedBranch(Equal(x, literal), [SetScore(v2)]);
    OnlyFirstRuleScores(b, Match(x), v1, "SCORE", []);
    OnlyFirstRuleScores(b, Equal(x, literal), v2, "SCORE", []);
    assert [SetScore(v1)] + [] == [SetScore(v1)];
    assert [SetScore(v2)] + [] == [SetScore(v2)];
    assert ProcessConditionBranch(b, Some(ifB.guard), ifB.rules).value == BranchResult(Some(x), ifEntries);
    assert ProcessConditionBranch(b, Some(eqB.guard), eqB.rules).value.results == eqEntries;
    IfElseIfCondition(b, ifB, eqB);
    MergeUnderFreshId(ifEntries, x);
    MergeUnderExistingId(ifEntries, eqEntries, x);
    MatchEntriesMeetEqualEntries(v1, answer);
    ListedCorrectScoring(v1, answer, np);
  }

  lemma {:induction false} ListedCorrectScoring(v1: Value, answer: Value, np: string -> real)
    ensures var entry := [Entry(CORRECT, Arr([Entry(IntKey(0), v1), Entry(IntKey(1), answer)])),
                          Entry(SCORING_TYPE, Arr([Entry(IntKey(0), Str("match")), Entry(IntKey(1), Str("match"))]))];
      GetValidationScoringData(Some(entry), np) == ScoringData(1.0, ExactMatch)
  {
    var entry := [Entry(CORRECT, Arr([Entry(IntKey(0), v1), Entry(IntKey(1), answer)])),
                  Entry(SCORING_TYPE, Arr([Entry(IntKey(0), Str("match")), Entry(IntKey(1), Str("match"))]))];
    assert Lookup(entry, CORRECT) == Some(entry[0].value);
    assert Lookup(entry, SCORING_TYPE) == Some(entry[1].value);
  }
}
