/** The part of the QTI 2.1 object model (as the qtism library exposes it) that response
    processing reads: declarations, mappings, and the response rule tree. Shapes on which the
    interpreter would call a method that does not exist are not representable. */
module QtiModel {
  import opened Wrappers
  import opened PhpArrays

  /** A `mapEntry`: a response value and the score it maps to. */
  datatype MapEntry = MapEntry(mapKey: Value, mappedValue: real)

  /** A `mapping` element with its entries in document order. */
  datatype Mapping = Mapping(mapEntries: seq<MapEntry>)

  /** A `responseDeclaration`: its identifier, optional `mapping` and optional `correctResponse`
      value list. */
  datatype ResponseDeclaration = ResponseDeclaration(
    identifier: string,
    mapping: Option<Mapping>,
    correctResponse: Option<seq<Value>>)

  /** An `outcomeDeclaration`'s `defaultValue`, of which only the first value is ever read. */
  datatype OutcomeDeclaration = OutcomeDeclaration(firstDefault: Value, otherDefaults: seq<Value>)

  /** The expression of a `setOutcomeValue`. */
  datatype OutcomeExpression =
    | BaseValue(value: Value)
    | Variable(identifier: string)
    | MapResponse(identifier: string)
    | OtherOutcomeExpression(className: string)

  /** A rule inside a condition branch; every such rule is a `setOutcomeValue`. */
  datatype SetOutcomeValue = SetOutcomeValue(identifier: string, expression: OutcomeExpression)

  /** The expression of a `responseIf` or `responseElseIf`. The first operand of `isNull`,
      `match` and `equal` is a variable reference (its identifier is kept); the second operand
      of `equal` is a `baseValue` (its literal is kept); `match`'s second operand is not read. */
  datatype Guard =
    | IsNull(operand: string)
    | Match(operand: string)
    | Equal(operand: string, literal: Value)
    | OtherGuard(className: string)

  /** A `responseIf` or `responseElseIf`. */
  datatype GuardedBranch = GuardedBranch(guard: Guard, rules: seq<SetOutcomeValue>)

  /** A `responseCondition`: one `responseIf`, any number of `responseElseIf`, an optional
      `responseElse` (given by its rules). */
  datatype ResponseCondition = ResponseCondition(
    responseIf: GuardedBranch,
    responseElseIfs: seq<GuardedBranch>,
    responseElse: Option<seq<SetOutcomeValue>>)

  /** A top-level rule of `responseProcessing`: a condition, or any other rule by class name. */
  datatype ResponseRule = Condition(condition: ResponseCondition) | OtherRule(className: string)

  datatype ResponseProcessing = ResponseProcessing(responseRules: seq<ResponseRule>)

  /** What `ResponseProcessingTemplate::getTemplate()` reports; a built-in processing carries
      its (possibly absent) rule tree. */
  datatype Template =
    | MatchCorrectTemplate
    | MapResponseTemplate
    | Cc2MapResponseTemplate
    | NoTemplate
    | BuiltinTemplate(processing: Option<ResponseProcessing>)
    | UnrecognisedTemplate(name: string)
}
