/**
 * The state store of the `Form` component: the current values, the error map and
 * the rule registry, with the instance operations that read and update them.
 */
module FormStore {
  import opened Wrappers
  import opened JsValues
  import opened FormRules

  /** An entry of the `fields` prop: a field name with an optional initial value. */
  datatype Field = Field(name: string, initialValue: JsValue)

  /** The arguments of one `onValuesChange(changedValues, allValues)` call. */
  datatype ValuesChange = ValuesChange(changed: Values, all: Values)

  /** One step of the initial-values loop: a field's initial value fills an undefined key. */
  function Overlay(initial: Values, field: Field): Values
  {
    if field.initialValue != Undefined && Get(initial, field.name) == Undefined
    then initial[field.name := field.initialValue]
    else initial
  }

  /** The initial snapshot: `initialValues`, then every field overlaid in order. */
  function Snapshot(initial: Values, fields: seq<Field>): Values
    decreases |fields|
  {
    if fields == [] then initial else Snapshot(Overlay(initial, fields[0]), fields[1..])
  }

  /** The first defined initial value given for `name` in `fields`, if any. */
  function FirstInitialValue(fields: seq<Field>, name: string): (v: JsValue)
    ensures v != Undefined ==>
              exists i :: 0 <= i < |fields| && fields[i] == Field(name, v)
                && forall j :: 0 <= j < i && fields[j].name == name ==> fields[j].initialValue == Undefined
    ensures v == Undefined <==> forall i :: 0 <= i < |fields| && fields[i].name == name ==> fields[i].initialValue == Undefined
  {
    if fields == [] then Undefined
    else if fields[0].name == name && fields[0].initialValue != Undefined then fields[0].initialValue
    else
      var v := FirstInitialValue(fields[1..], name);
      assert forall i :: 1 <= i < |fields| ==> fields[i] == fields[1..][i - 1];
      assert v != Undefined ==>
               exists i :: 0 <= i < |fields| && fields[i] == Field(name, v)
                 && forall j :: 0 <= j < i && fields[j].name == name ==> fields[j].initialValue == Undefined
      by {
        if v != Undefined {
          var k :| 0 <= k < |fields[1..]| && fields[1..][k] == Field(name, v)
                   && forall j :: 0 <= j < k && fields[1..][j].name == name ==> fields[1..][j].initialValue == Undefined;
          assert fields[k + 1] == Field(name, v);
          forall j | 0 <= j < k + 1 && fields[j].name == name
            ensures fields[j].initialValue == Undefined
          {
            if j > 0 {
              assert fields[j] == fields[1..][j - 1];
            }
          }
        }
      }
      v
  }

  /** The names that some field gives a defined initial value. */
  function InitializedNames(fields: seq<Field>): set<string>
  {
    set i | 0 <= i < |fields| && fields[i].initialValue != Undefined :: fields[i].name
  }

  /**
   * A key of the snapshot reads as its `initialValues` entry unless that is
   * undefined, and then as the first defined `initialValue` a field gives it.
   */
  lemma {:induction false} SnapshotValue(initial: Values, fields: seq<Field>, name: string)
    ensures Get(Snapshot(initial, fields), name)
            == if Get(initial, name) != Undefined then Get(initial, name) else FirstInitialValue(fields, name)
    decreases |fields|
  {
    if fields != [] {
      SnapshotValue(Overlay(initial, fields[0]), fields[1..], name);
    }
  }

  /** The snapshot's keys are those of `initialValues` and the names of initialized fields. */
  lemma {:induction false} SnapshotKeys(initial: Values, fields: seq<Field>)
    ensures Snapshot(initial, fields).Keys == initial.Keys + InitializedNames(fields)
    decreases |fields|
  {
    if fields != [] {
      SnapshotKeys(Overlay(initial, fields[0]), fields[1..]);
      var rest := InitializedNames(fields[1..]);
      var head := if fields[0].initialValue != Undefined then {fields[0].name} else {};
      assert InitializedNames(fields) == head + rest by {
        forall k | k in InitializedNames(fields) ensures k in head + rest {
          var i :| 0 <= i < |fields| && fields[i].initialValue != Undefined && fields[i].name == k;
          if i > 0 { assert fields[1..][i - 1] == fields[i]; }
        }
        forall k | k in rest ensures k in InitializedNames(fields) {
          var i :| 0 <= i < |fields[1..]| && fields[1..][i].initialValue != Undefined && fields[1..][i].name == k;
          assert fields[i + 1] == fields[1..][i];
        }
      }
    }
  }

  /** `getInitialValues`: copies `initialValues`, then fills undefined keys from `fields`. */
  method GetInitialValues(initial: Values, fields: seq<Field>) returns (snapshot: Values)
    ensures snapshot == Snapshot(initial, fields)
  {
    snapshot := initial;
    var i := 0;
    while i < |fields|
      invariant 0 <= i <= |fields|
      invariant Snapshot(snapshot, fields[i..]) == Snapshot(initial, fields)
    {
      assert fields[i..][1..] == fields[i + 1..];
      var field := fields[i];
      if field.initialValue != Undefined && Get(snapshot, field.name) == Undefined {
        snapshot := snapshot[field.name := field.initialValue];
      }
      i := i + 1;
    }
  }

  /** The rules registered under `name`; an unregistered name has none. */
  function RulesOf(fieldRules: map<string, seq<Rule>>, name: string): seq<Rule>
  {
    if name in fieldRules then fieldRules[name] else []
  }

  /** What `validateValue` gives for the field `name` against the whole form's values. */
  function FieldError(o: Oracles, fieldRules: map<string, seq<Rule>>, values: Values, name: string): Option<string>
  {
    ValidateValue(o, Get(values, name), RulesOf(fieldRules, name), values)
  }

  /** `if (error)`: the field has an error that is not the empty string. */
  predicate Fails(o: Oracles, fieldRules: map<string, seq<Rule>>, values: Values, name: string)
  {
    FieldError(o, fieldRules, values, name).Some? && FieldError(o, fieldRules, values, name).value != ""
  }

  /** What `validateValue` gives for each registered field. */
  function Outcomes(o: Oracles, fieldRules: map<string, seq<Rule>>, values: Values): map<string, Option<string>>
  {
    map name | name in fieldRules.Keys :: FieldError(o, fieldRules, values, name)
  }

  /** The entries of `outcomes` that `if (error)` keeps, with their messages. */
  function Failures(outcomes: map<string, Option<string>>): map<string, string>
  {
    map name | name in outcomes.Keys && outcomes[name].Some? && outcomes[name].value != "" :: outcomes[name].value
  }

  /** The error map `validateFields` builds: every registered field that fails, with its message. */
  function FormErrors(o: Oracles, fieldRules: map<string, seq<Rule>>, values: Values): map<string, string>
  {
    Failures(Outcomes(o, fieldRules, values))
  }

  /** Recording the outcome of one more field adds an entry exactly when it is a non-empty message. */
  lemma FailuresStep(outcomes: map<string, Option<string>>, name: string, outcome: Option<string>)
    requires name !in outcomes
    ensures Failures(outcomes[name := outcome])
            == if outcome.Some? && outcome.value != "" then Failures(outcomes)[name := outcome.value]
               else Failures(outcomes)
  {
    var after := Failures(outcomes[name := outcome]);
    var expected := if outcome.Some? && outcome.value != "" then Failures(outcomes)[name := outcome.value]
                    else Failures(outcomes);
    assert after.Keys == expected.Keys;
  }

  /** The loop of `validateFields`: every registered field is checked, none is skipped. */
  method CollectFailures(o: Oracles, fieldRules: map<string, seq<Rule>>, values: Values)
    returns (failures: map<string, string>)
    ensures failures == FormErrors(o, fieldRules, values)
  {
    var remaining := fieldRules.Keys;
    ghost var checked: map<string, Option<string>> := map[];
    failures := map[];
    while remaining != {}
      invariant remaining !! checked.Keys && remaining + checked.Keys == fieldRules.Keys
      invariant forall name :: name in checked ==> checked[name] == FieldError(o, fieldRules, values, name)
      invariant failures == Failures(checked)
      decreases remaining
    {
      var name :| name in remaining;
      var error := FieldError(o, fieldRules, values, name);
      FailuresStep(checked, name, error);
      if error.Some? && error.value != "" {
        failures := failures[name := error.value];
      }
      remaining := remaining - {name};
      checked := checked[name := error];
    }
    assert checked == Outcomes(o, fieldRules, values);
  }

  /**
   * `validateFields` records exactly the fields that `validateField` would reject,
   * each with the message `validateField` would throw; an unregistered field never fails.
   */
  lemma FormErrorsMatchFieldErrors(o: Oracles, fieldRules: map<string, seq<Rule>>, values: Values, name: string)
    ensures name in FormErrors(o, fieldRules, values) <==> Fails(o, fieldRules, values, name)
    ensures name in FormErrors(o, fieldRules, values) ==>
              Some(FormErrors(o, fieldRules, values)[name]) == FieldError(o, fieldRules, values, name)
    ensures name !in fieldRules ==> !Fails(o, fieldRules, values, name)
  {
    if name !in fieldRules {
      assert RulesOf(fieldRules, name) == [];
    }
  }

  /** A field whose value passes every one of its rules is not in the error map. */
  lemma PassingFieldHasNoError(o: Oracles, fieldRules: map<string, seq<Rule>>, values: Values, name: string)
    requires forall i :: 0 <= i < |RulesOf(fieldRules, name)| ==>
               CheckRule(o, RulesOf(fieldRules, name)[i], Get(values, name), values).None?
    ensures name !in FormErrors(o, fieldRules, values)
  {
    ValidateValueIsFirstFailure(o, Get(values, name), RulesOf(fieldRules, name), values);
  }

  class Form {
    /** The `initialValues` and `fields` props and the foreign checks the rules call. */
    const initialValues: Values
    const fields: seq<Field>
    const oracles: Oracles

    var values: Values
    var errors: map<string, string>
    /** `fieldRulesRef.current`. */
    var fieldRules: map<string, seq<Rule>>
    /** The calls made to `onValuesChange`, `onSubmit` and `onReset`, oldest first. */
    var valuesChanges: seq<ValuesChange>
    var submissions: seq<Values>
    var resets: nat

    /** Only truthy messages are ever stored as errors. */
    ghost predicate Valid()
      reads this
    {
      forall name :: name in errors ==> errors[name] != ""
    }

    /** Mounting: the values start as the initial snapshot; no errors and no rules yet. */
    constructor (initialValues: Values, fields: seq<Field>, oracles: Oracles)
      ensures this.initialValues == initialValues && this.fields == fields && this.oracles == oracles
      ensures values == Snapshot(initialValues, fields)
      ensures errors == map[] && fieldRules == map[]
      ensures valuesChanges == [] && submissions == [] && resets == 0
      ensures Valid()
    {
      this.initialValues := initialValues;
      this.fields := fields;
      this.oracles := oracles;
      var snapshot := GetInitialValues(initialValues, fields);
      values := snapshot;
      errors := map[];
      fieldRules := map[];
      valuesChanges := [];
      submissions := [];
      resets := 0;
    }

    /** `registerField`: the latest registration of a name replaces the earlier one. */
    method RegisterField(name: string, rules: seq<Rule>)
      modifies this`fieldRules
      ensures fieldRules == old(fieldRules)[name := rules]
    {
      fieldRules := fieldRules[name := rules];
    }

    /** `getFieldValue`: a name with no entry reads as undefined. */
    function GetFieldValue(name: string): (v: JsValue)
      reads this
      ensures name in values ==> v == values[name]
      ensures name !in values ==> v == Undefined
    {
      Get(values, name)
    }

    /** `getFieldsValue`. */
    function GetFieldsValue(): Values
      reads this
    {
      values
    }

    /** `getFieldError`. */
    function GetFieldError(name: string): (e: Option<string>)
      reads this
      ensures e.Some? <==> name in errors
      ensures e.Some? ==> e.value == errors[name]
    {
      if name in errors then Some(errors[name]) else None
    }

    /**
     * `setFieldValue`: only the key `name` changes, `onValuesChange` receives the one
     * changed entry and the new values, and the field's error is cleared.
     */
    method SetFieldValue(name: string, value: JsValue)
      requires Valid()
      modifies this`values, this`errors, this`valuesChanges
      ensures values == old(values)[name := value]
      ensures valuesChanges == old(valuesChanges) + [ValuesChange(map[name := value], values)]
      ensures errors == old(errors) - {name}
      ensures Valid()
    {
      values := values[name := value];
      valuesChanges := valuesChanges + [ValuesChange(map[name := value], values)];
      if name in errors && errors[name] != "" {
        errors := errors - {name};
      }
    }

    /** `setFieldsValue`: a merge in which the new entries win; errors are left alone. */
    method SetFieldsValue(newValues: Values)
      modifies this`values, this`valuesChanges
      ensures values == old(values) + newValues
      ensures valuesChanges == old(valuesChanges) + [ValuesChange(newValues, values)]
    {
      values := values + newValues;
      valuesChanges := valuesChanges + [ValuesChange(newValues, values)];
    }

    /** `setFieldError`: a truthy message is stored, anything else deletes the entry. */
    method SetFieldError(name: string, error: Option<string>)
      requires Valid()
      modifies this`errors
      ensures error.Some? && error.value != "" ==> errors == old(errors)[name := error.value]
      ensures error.None? || error.value == "" ==> errors == old(errors) - {name}
      ensures Valid()
    {
      if error.Some? && error.value != "" {
        errors := errors[name := error.value];
      } else {
        errors := errors - {name};
      }
    }

    /**
     * `validateField`: runs the registered rules (none for an unregistered name),
     * stores or clears the field's error, and throws the message iff it is non-empty;
     * otherwise gives the field's value.
     */
    method ValidateField(name: string) returns (r: Result<JsValue>)
      requires Valid()
      modifies this`errors
      ensures r.Err? <==> Fails(oracles, fieldRules, values, name)
      ensures r.Err? ==> Some(r.message) == FieldError(oracles, fieldRules, values, name)
                         && errors == old(errors)[name := r.message]
      ensures r.Ok? ==> r.value == Get(values, name) && errors == old(errors) - {name}
      ensures Valid()
    {
      var rules := RulesOf(fieldRules, name);
      var value := Get(values, name);
      var error := ValidateValue(oracles, value, rules, values);
      SetFieldError(name, error);
      if error.Some? && error.value != "" {
        r := Err(error.value);
      } else {
        r := Ok(value);
      }
    }

    /**
     * `validateFields`: every registered field is checked (no early stop); the error
     * map is replaced by exactly the failing fields; it throws iff one failed,
     * otherwise gives the values.
     */
    method ValidateFields() returns (r: Result<Values>)
      modifies this`errors
      ensures errors == FormErrors(oracles, fieldRules, values)
      ensures r.Err? <==> errors != map[]
      ensures r.Err? ==> r.message == "表单验证失败"
      ensures r.Ok? ==> r.value == values
      ensures Valid()
    {
      var newErrors := CollectFailures(oracles, fieldRules, values);
      errors := newErrors;
      if newErrors != map[] {
        r := Err("表单验证失败");
      } else {
        r := Ok(values);
      }
    }

    /** `clearErrors`: a truthy name removes that entry; no name (or `''`) empties the map. */
    method ClearErrors(name: Option<string>)
      requires Valid()
      modifies this`errors
      ensures name.Some? && name.value != "" ==> errors == old(errors) - {name.value}
      ensures name.None? || name.value == "" ==> errors == map[]
      ensures Valid()
    {
      if name.Some? && name.value != "" {
        errors := errors - {name.value};
      } else {
        errors := map[];
      }
    }

    /** `resetFields`: back to the initial snapshot, no errors, then `onReset`. */
    method ResetFields()
      modifies this`values, this`errors, this`resets
      ensures values == Snapshot(initialValues, fields)
      ensures errors == map[]
      ensures resets == old(resets) + 1
      ensures Valid()
    {
      var snapshot := GetInitialValues(initialValues, fields);
      values := snapshot;
      errors := map[];
      resets := resets + 1;
    }

    /** `handleSubmit`: `onSubmit` gets the values only when every field passes. */
    method HandleSubmit()
      modifies this`errors, this`submissions
      ensures errors == FormErrors(oracles, fieldRules, values)
      ensures errors == map[] ==> submissions == old(submissions) + [values]
      ensures errors != map[] ==> submissions == old(submissions)
      ensures Valid()
    {
      var r := ValidateFields();
      if r.Ok? {
        submissions := submissions + [r.value];
      }
    }

    /** `handleReset`: the native reset is prevented and the store is reset. */
    method HandleReset()
      modifies this`values, this`errors, this`resets
      ensures values == Snapshot(initialValues, fields)
      ensures errors == map[]
      ensures resets == old(resets) + 1
      ensures Valid()
    {
      ResetFields();
    }
  }
}
