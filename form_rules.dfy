/**
 * The rule evaluator of the form package (`validateValue`): an ordered list of
 * declarative rules is checked against one field value; the first failing rule's
 * message is the field's error.
 */
module FormRules {
  import opened Wrappers
  import opened JsValues

  /** The `type` of a rule. */
  datatype RuleType = StringType | NumberType | EmailType | UrlType

  /** What a custom validator returns: `true`, a string, or anything else (`false`). */
  datatype Verdict = Accept | Message(text: string) | Reject

  /** Form values: field name to value; a missing key reads as `undefined`. */
  type Values = map<string, JsValue>

  /**
   * One rule; every part is optional. `pattern` stands for `RegExp.prototype.test`
   * of the rule's expression, `validator` for the custom function, awaited.
   */
  datatype Rule = Rule(
    required: bool,
    message: Option<string>,
    ruleType: Option<RuleType>,
    pattern: Option<string -> bool>,
    min: Option<Number>,
    max: Option<Number>,
    validator: Option<(JsValue, Values) -> Verdict>)

  /**
   * The coercions and foreign checks the evaluator calls, left uninterpreted:
   * the e-mail regular expression, whether `new URL(text)` succeeds, `Number(v)`
   * and `String(v)` for values other than numbers and strings, and the decimal
   * text of a bound in a default message.
   */
  datatype Oracles = Oracles(
    matchesEmail: string -> bool,
    parsesAsUrl: string -> bool,
    toNumber: JsValue -> Number,
    toText: JsValue -> string,
    numberText: Number -> string)

  function Get(values: Values, name: string): JsValue
  {
    if name in values then values[name] else Undefined
  }

  /** `value === undefined || value === null || value === ''`. */
  predicate IsBlank(v: JsValue)
  {
    v == Undefined || v == Null || v == Str("")
  }

  /** `rule.message || fallback`: an absent or empty message gives the fallback. */
  function MessageOr(message: Option<string>, fallback: string): (m: string)
    ensures message.Some? && message.value != "" ==> m == message.value
    ensures message.None? || message.value == "" ==> m == fallback
  {
    if message.Some? && message.value != "" then message.value else fallback
  }

  /** `String(value)`. */
  function ToText(o: Oracles, v: JsValue): string
  {
    if v.Str? then v.s else o.toText(v)
  }

  /** `Number(value)`. */
  function ToNumber(o: Oracles, v: JsValue): Number
  {
    if v.Num? then v.n else o.toNumber(v)
  }

  /** What `min`/`max` compare: the length of a string, otherwise `Number(value)`. */
  function Measure(o: Oracles, v: JsValue): Number
  {
    if v.Str? then Finite(|v.s| as real) else ToNumber(o, v)
  }

  /** `a < b` on numbers: false whenever either side is `NaN`. */
  predicate Less(a: Number, b: Number)
  {
    a.Finite? && b.Finite? && a.r < b.r
  }

  /** The failure of a `type` check on a non-blank value, if any. */
  function TypeFailure(o: Oracles, t: RuleType, v: JsValue, message: Option<string>): Option<string>
  {
    match t
    case StringType => None
    case EmailType =>
      if o.matchesEmail(ToText(o, v)) then None else Some(MessageOr(message, "请输入有效的邮箱地址"))
    case UrlType =>
      if o.parsesAsUrl(ToText(o, v)) then None else Some(MessageOr(message, "请输入有效的 URL"))
    case NumberType =>
      if ToNumber(o, v).NaN? then Some(MessageOr(message, "请输入有效的数字")) else None
  }

  /** The outcome of a rule's custom validator, if it has one. */
  function ValidatorOutcome(rule: Rule, v: JsValue, all: Values): Option<string>
  {
    if rule.validator.None? then None
    else
      match rule.validator.value(v, all)
      case Accept => None
      case Message(text) => Some(text)
      case Reject => Some(MessageOr(rule.message, "验证失败"))
  }

  /**
   * One pass of the loop body of `validateValue`: `Some(m)` returns `m` from the
   * evaluator, `None` goes on with the next rule (the rule passed, or it has a
   * `type` and the value is blank, which `continue`s past the rest of the rule).
   */
  function CheckRule(o: Oracles, rule: Rule, v: JsValue, all: Values): Option<string>
  {
    if rule.required && IsBlank(v) then Some(MessageOr(rule.message, "该字段为必填项"))
    else if rule.ruleType.Some? && IsBlank(v) then None
    else if rule.ruleType.Some? && TypeFailure(o, rule.ruleType.value, v, rule.message).Some? then
      TypeFailure(o, rule.ruleType.value, v, rule.message)
    else if rule.pattern.Some? && !IsBlank(v) && !rule.pattern.value(ToText(o, v)) then
      Some(MessageOr(rule.message, "格式不正确"))
    else if rule.min.Some? && !IsBlank(v) && Less(Measure(o, v), rule.min.value) then
      Some(MessageOr(rule.message, "最小值为 " + o.numberText(rule.min.value)))
    else if rule.max.Some? && !IsBlank(v) && Less(rule.max.value, Measure(o, v)) then
      Some(MessageOr(rule.message, "最大值为 " + o.numberText(rule.max.value)))
    else ValidatorOutcome(rule, v, all)
  }

  /**
   * `validateValue(value, rules, formValues)`: `None` is `undefined` (every rule
   * passed); otherwise the message of the first rule that failed.
   */
  function ValidateValue(o: Oracles, v: JsValue, rules: seq<Rule>, all: Values): Option<string>
  {
    if rules == [] then None
    else
      var first := CheckRule(o, rules[0], v, all);
      if first.Some? then first else ValidateValue(o, v, rules[1..], all)
  }

  /**
   * `validateValue` gives `undefined` exactly when every rule passes, and otherwise
   * the outcome of the first rule that fails, every earlier one having passed.
   */
  lemma {:induction false} ValidateValueIsFirstFailure(o: Oracles, v: JsValue, rules: seq<Rule>, all: Values)
    ensures ValidateValue(o, v, rules, all).None? <==> forall i :: 0 <= i < |rules| ==> CheckRule(o, rules[i], v, all).None?
    ensures ValidateValue(o, v, rules, all).Some? ==>
              exists i :: 0 <= i < |rules| && CheckRule(o, rules[i], v, all) == ValidateValue(o, v, rules, all)
                          && forall j :: 0 <= j < i ==> CheckRule(o, rules[j], v, all).None?
  {
    if rules != [] && CheckRule(o, rules[0], v, all).None? {
      ValidateValueIsFirstFailure(o, v, rules[1..], all);
      assert forall i :: 1 <= i < |rules| ==> rules[i] == rules[1..][i - 1];
      if ValidateValue(o, v, rules, all).Some? {
        var k :| 0 <= k < |rules| - 1 && CheckRule(o, rules[1..][k], v, all) == ValidateValue(o, v, rules, all)
                 && forall j :: 0 <= j < k ==> CheckRule(o, rules[1..][j], v, all).None?;
        assert CheckRule(o, rules[k + 1], v, all) == ValidateValue(o, v, rules, all);
      }
    }
  }

  /** Rules are checked in list order: appending rules never changes an earlier failure. */
  lemma {:induction false} ValidateValueAppend(o: Oracles, v: JsValue, rules: seq<Rule>, more: seq<Rule>, all: Values)
    ensures ValidateValue(o, v, rules + more, all)
            == if ValidateValue(o, v, rules, all).Some? then ValidateValue(o, v, rules, all)
               else ValidateValue(o, v, more, all)
  {
    if rules != [] {
      assert (rules + more)[0] == rules[0];
      assert (rules + more)[1..] == rules[1..] + more;
      ValidateValueAppend(o, v, rules[1..], more, all);
    } else {
      assert rules + more == more;
    }
  }

  /**
   * A `required` rule fails on a blank value with its message (or the default);
   * on any other value `required` has no effect on the rule.
   */
  lemma RequiredRule(o: Oracles, rule: Rule, v: JsValue, all: Values)
    requires rule.required
    ensures IsBlank(v) ==> CheckRule(o, rule, v, all) == Some(MessageOr(rule.message, "该字段为必填项"))
    ensures !IsBlank(v) ==> CheckRule(o, rule, v, all) == CheckRule(o, rule.(required := false), v, all)
  {
  }

  /**
   * On a blank value a rule that is not `required` skips `pattern`, `min` and `max`;
   * a rule with a `type` is abandoned whole (its validator does not run), a rule
   * without one still runs its validator.
   */
  lemma BlankValueSkipsChecks(o: Oracles, rule: Rule, v: JsValue, all: Values)
    requires IsBlank(v) && !rule.required
    ensures rule.ruleType.Some? ==> CheckRule(o, rule, v, all) == None
    ensures rule.ruleType.None? ==> CheckRule(o, rule, v, all) == ValidatorOutcome(rule, v, all)
  {
  }

  /** On a non-blank value `type: 'string'` checks nothing. */
  lemma StringTypeChecksNothing(o: Oracles, rule: Rule, v: JsValue, all: Values)
    requires rule.ruleType == Some(StringType) && !IsBlank(v)
    ensures CheckRule(o, rule, v, all) == CheckRule(o, rule.(ruleType := None), v, all)
  {
  }

  /**
   * Bounds are inclusive: a rule with only `min` and `max` fails on a non-blank value
   * exactly when the measure (string length or number) lies below `min` or above
   * `max`; a `NaN` measure or bound never fails.
   */
  lemma BoundsAreInclusive(o: Oracles, rule: Rule, v: JsValue, all: Values)
    requires !rule.required && rule.ruleType.None? && rule.pattern.None? && rule.validator.None?
    requires rule.min.Some? && rule.max.Some? && !IsBlank(v)
    ensures CheckRule(o, rule, v, all).None?
            <==> !Less(Measure(o, v), rule.min.value) && !Less(rule.max.value, Measure(o, v))
    ensures v.Str? && rule.min.value.Finite? && rule.max.value.Finite? ==>
              (CheckRule(o, rule, v, all).None? <==> rule.min.value.r <= |v.s| as real <= rule.max.value.r)
  {
  }

  /**
   * A custom validator passes only by returning `true`: a string becomes the error
   * message, anything else the rule's message or the default.
   */
  lemma ValidatorVerdicts(o: Oracles, rule: Rule, v: JsValue, all: Values)
    requires !rule.required && rule.ruleType.None? && rule.pattern.None? && rule.min.None? && rule.max.None?
    requires rule.validator.Some?
    ensures CheckRule(o, rule, v, all).None? <==> rule.validator.value(v, all) == Accept
    ensures rule.validator.value(v, all).Message? ==> CheckRule(o, rule, v, all) == Some(rule.validator.value(v, all).text)
    ensures rule.validator.value(v, all) == Reject ==> CheckRule(o, rule, v, all) == Some(MessageOr(rule.message, "验证失败"))
  {
  }

  /**
   * A validator that returns the empty string stops the evaluation there: the
   * evaluator returns `''`, later rules are not consulted, and callers that test
   * the result for truthiness see a pass.
   */
  lemma EmptyMessageStopsEvaluation(o: Oracles, rule: Rule, later: seq<Rule>, v: JsValue, all: Values)
    requires !rule.required && rule.ruleType.None? && rule.pattern.None? && rule.min.None? && rule.max.None?
    requires rule.validator.Some? && rule.validator.value(v, all) == Message("")
    ensures ValidateValue(o, v, [rule] + later, all) == Some("")
  {
    assert ([rule] + later)[0] == rule;
  }
}
