/**
 * The `FormItem` wrapper: how it builds a field's rules, how it turns a change
 * argument into a value, and when it writes to and validates through the form
 * store. An absent `name` or `label` behaves exactly like the empty string
 * (every use tests it for truthiness), so both are plain strings here.
 */
module FormItem {
  import opened Wrappers
  import opened JsValues
  import opened FormRules
  import opened FormStore

  /** The message of the `required` shortcut: the label, else the name, else a generic noun. */
  function RequiredMessage(labelText: string, name: string): (m: string)
    ensures labelText != "" ==> m == labelText + "为必填项"
    ensures labelText == "" && name != "" ==> m == name + "为必填项"
    ensures labelText == "" && name == "" ==> m == "该字段为必填项"
  {
    (if labelText != "" then labelText else if name != "" then name else "该字段") + "为必填项"
  }

  /** The rule the `required` shortcut appends. */
  function RequiredShortcut(labelText: string, name: string): Rule
  {
    Rule(true, Some(RequiredMessage(labelText, name)), None, None, None, None, None)
  }

  /** `mergedRules`: a copy of the declared rules, plus the shortcut rule when `required` is set. */
  function MergedRules(rules: seq<Rule>, required: bool, labelText: string, name: string): (merged: seq<Rule>)
  {
    if required then rules + [RequiredShortcut(labelText, name)] else rules
  }

  /**
   * The merged rules are the declared ones in order followed by at most one
   * extra rule, which is `required`; it is present exactly when `required` is set.
   */
  lemma MergedRulesShape(rules: seq<Rule>, required: bool, labelText: string, name: string)
    ensures var merged := MergedRules(rules, required, labelText, name);
            merged[..|rules|] == rules
            && |merged| == (if required then |rules| + 1 else |rules|)
            && (required ==> merged[|rules|].required && merged[|rules|].message == Some(RequiredMessage(labelText, name)))
  {
  }

  /**
   * Validating the merged rules: the declared rules are checked first; if all of
   * them pass, the shortcut fails exactly on a blank value, with its message.
   */
  lemma MergedRulesValidation(o: Oracles, rules: seq<Rule>, labelText: string, name: string, v: JsValue, all: Values)
    ensures ValidateValue(o, v, MergedRules(rules, true, labelText, name), all)
            == if ValidateValue(o, v, rules, all).Some? then ValidateValue(o, v, rules, all)
               else if IsBlank(v) then Some(RequiredMessage(labelText, name))
               else None
  {
    ValidateValueAppend(o, v, rules, [RequiredShortcut(labelText, name)], all);
    assert [RequiredShortcut(labelText, name)][1..] == [];
  }

  /** `$required` of the label: the shortcut is set or some merged rule is required. */
  predicate LabelShowsRequired(rules: seq<Rule>, required: bool, labelText: string, name: string)
  {
    var merged := MergedRules(rules, required, labelText, name);
    required || exists i :: 0 <= i < |merged| && merged[i].required
  }

  /** The marker shows exactly when the shortcut is set or a declared rule is required. */
  lemma LabelShowsRequiredIff(rules: seq<Rule>, required: bool, labelText: string, name: string)
    ensures LabelShowsRequired(rules, required, labelText, name)
            <==> required || exists i :: 0 <= i < |rules| && rules[i].required
  {
    var merged := MergedRules(rules, required, labelText, name);
    if !required {
      assert merged == rules;
    } else {
      assert merged[|rules|].required;
    }
  }

  /**
   * The value a change argument stands for: `arg.target.value` when `arg` is a
   * truthy object with a `target` key, else `arg` itself. Reading `value` of a
   * `target` that is null or undefined throws.
   */
  function Unwrap(arg: JsValue): (r: Result<JsValue>)
    ensures !arg.Obj? || "target" !in arg.props ==> r == Ok(arg)
    ensures HasProperty(arg, "target") && arg.props["target"].Obj? ==>
              r == Ok(Get(arg.props["target"].props, "value"))
    ensures r.Err? <==> HasProperty(arg, "target") && (arg.props["target"] == Undefined || arg.props["target"] == Null)
    ensures (HasProperty(arg, "target") && !arg.props["target"].Obj?
             && arg.props["target"] != Undefined && arg.props["target"] != Null) ==> r == Ok(Undefined)
  {
    if Truthy(arg) && TypeOf(arg) == "object" && HasProperty(arg, "target") then
      var target := Property(arg, "target");
      Property(target.value, "value")
    else Ok(arg)
  }

  /** An input's change event carries the text typed so far. */
  lemma UnwrapInputEvent(text: string)
    ensures Unwrap(Obj(map["target" := Obj(map["value" := Str(text)])])) == Ok(Str(text))
  {
  }

  /**
   * `useEffect` registration: the merged rules are registered under `name`
   * only when `name` is non-empty.
   */
  method Register(form: Form, name: string, merged: seq<Rule>)
    modifies form`fieldRules
    ensures name != "" ==> form.fieldRules == old(form.fieldRules)[name := merged]
    ensures name == "" ==> form.fieldRules == old(form.fieldRules)
  {
    if name != "" {
      form.RegisterField(name, merged);
    }
  }

  /**
   * `handleChange`: the unwrapped value is written to the store when `name` is set;
   * the child's own `onChange` then receives the original argument, returned here.
   * A throwing unwrap writes nothing and reaches no callback.
   */
  method HandleChange(form: Form, name: string, arg: JsValue) returns (forwarded: Result<JsValue>)
    requires form.Valid()
    modifies form`values, form`errors, form`valuesChanges
    ensures forwarded.Err? <==> Unwrap(arg).Err?
    ensures forwarded.Ok? ==> forwarded.value == arg
    ensures Unwrap(arg).Ok? && name != "" ==>
              form.values == old(form.values)[name := Unwrap(arg).value]
              && form.errors == old(form.errors) - {name}
              && form.valuesChanges == old(form.valuesChanges)
                                       + [ValuesChange(map[name := Unwrap(arg).value], form.values)]
    ensures Unwrap(arg).Err? || name == "" ==>
              form.values == old(form.values) && form.errors == old(form.errors)
              && form.valuesChanges == old(form.valuesChanges)
    ensures form.Valid()
  {
    var value := Unwrap(arg);
    if value.Err? {
      forwarded := Err(value.message);
      return;
    }
    if name != "" {
      form.SetFieldValue(name, value.value);
    }
    forwarded := Ok(arg);
  }

  /** Blur validation fires only for a named field that has at least one merged rule. */
  predicate BlurValidates(name: string, merged: seq<Rule>)
  {
    name != "" && |merged| > 0
  }

  /**
   * `handleBlur`: when it fires, the field is validated through the store (which
   * stores or clears its error) and a rejection is swallowed; otherwise the
   * errors stay as they were.
   */
  method HandleBlur(form: Form, name: string, merged: seq<Rule>)
    requires form.Valid()
    modifies form`errors
    ensures BlurValidates(name, merged) && Fails(form.oracles, form.fieldRules, form.values, name) ==>
              form.errors == old(form.errors)[name := FieldError(form.oracles, form.fieldRules, form.values, name).value]
    ensures BlurValidates(name, merged) && !Fails(form.oracles, form.fieldRules, form.values, name) ==>
              form.errors == old(form.errors) - {name}
    ensures !BlurValidates(name, merged) ==> form.errors == old(form.errors)
    ensures form.Valid()
  {
    if name != "" && |merged| > 0 {
      var _ := form.ValidateField(name);
    }
  }

  /** The props the wrapper adds to its child besides the two handlers. */
  datatype Injected = Injected(value: Option<JsValue>, ariaInvalid: bool)

  /**
   * `value` is passed only for a named field whose stored value is not undefined;
   * `aria-invalid` only when the field has a truthy error.
   */
  function InjectedProps(name: string, values: Values, errors: map<string, string>): (p: Injected)
    ensures p.value.Some? <==> name != "" && Get(values, name) != Undefined
    ensures p.value.Some? ==> p.value.value == values[name]
    ensures p.ariaInvalid <==> name != "" && name in errors && errors[name] != ""
  {
    var fieldValue := if name != "" then Get(values, name) else Undefined;
    var fieldError := if name != "" && name in errors then errors[name] else "";
    Injected(if name != "" && fieldValue != Undefined then Some(fieldValue) else None, fieldError != "")
  }

  /**
   * After a change has been written, the child shows the new value (unless it is
   * undefined) and is no longer marked invalid.
   */
  lemma InjectedAfterChange(name: string, values: Values, errors: map<string, string>, v: JsValue)
    requires name != ""
    ensures InjectedProps(name, values[name := v], errors - {name})
            == Injected(if v != Undefined then Some(v) else None, false)
  {
  }
}
