/**
 * The single-choice select: which option the trigger shows, in controlled and
 * uncontrolled mode, and how clicks and keys open, close and choose.
 */
module Select {
  import opened Wrappers
  import opened JsValues

  /** An option's value: a string or a number. */
  datatype OptionValue = TextValue(text: string) | NumberValue(n: Number)

  /** `option.value === other`: strings by content, numbers by value; `NaN` equals nothing. */
  predicate StrictEquals(a: OptionValue, b: OptionValue)
  {
    match (a, b)
    case (TextValue(x), TextValue(y)) => x == y
    case (NumberValue(Finite(x)), NumberValue(Finite(y))) => x == y
    case _ => false
  }

  /** `opt.value === currentValue`, where the current value may be `undefined`. */
  predicate Matches(v: OptionValue, current: Option<OptionValue>)
  {
    current.Some? && StrictEquals(v, current.value)
  }

  /** One entry of the `options` prop; `labelText` is its `label`. */
  datatype SelectOption = SelectOption(value: OptionValue, labelText: string, disabled: bool)

  /** One call `onChange(option.value, option)`. */
  datatype SelectChange = SelectChange(value: OptionValue, option: SelectOption)

  /** `options.find((opt) => opt.value === current)`. */
  function FindOption(options: seq<SelectOption>, current: Option<OptionValue>): (r: Option<SelectOption>)
    ensures r.Some? ==> r.value in options && Matches(r.value.value, current)
  {
    if options == [] then None
    else if Matches(options[0].value, current) then Some(options[0])
    else FindOption(options[1..], current)
  }

  /** The option found is the first one whose value equals the current value; none is found only when no option matches. */
  lemma {:induction false} FindOptionIsFirstMatch(options: seq<SelectOption>, current: Option<OptionValue>)
    ensures FindOption(options, current).None? <==>
              forall i :: 0 <= i < |options| ==> !Matches(options[i].value, current)
    ensures FindOption(options, current).Some? ==>
              exists i :: 0 <= i < |options| && options[i] == FindOption(options, current).value
                          && Matches(options[i].value, current)
                          && forall j :: 0 <= j < i ==> !Matches(options[j].value, current)
  {
    if options != [] && !Matches(options[0].value, current) {
      FindOptionIsFirstMatch(options[1..], current);
      var rest := options[1..];
      if FindOption(rest, current).Some? {
        var i :| 0 <= i < |rest| && rest[i] == FindOption(rest, current).value
                 && Matches(rest[i].value, current)
                 && forall j :: 0 <= j < i ==> !Matches(rest[j].value, current);
        assert options[i + 1] == rest[i];
        assert forall j :: 0 <= j < i + 1 ==> !Matches(options[j].value, current) by {
          forall j | 0 <= j < i + 1
            ensures !Matches(options[j].value, current)
          {
            if j > 0 {
              assert options[j] == rest[j - 1];
            }
          }
        }
      } else {
        forall i | 0 <= i < |options|
          ensures !Matches(options[i].value, current)
        {
          if i > 0 {
            assert options[i] == rest[i - 1];
          }
        }
      }
    }
  }

  /** With no current value, or a current value of `NaN`, no option is selected. */
  lemma {:induction false} NothingMatchesNaN(options: seq<SelectOption>, current: Option<OptionValue>)
    requires current.None? || current.value == NumberValue(NaN)
    ensures FindOption(options, current).None?
  {
    if options != [] {
      NothingMatchesNaN(options[1..], current);
    }
  }

  /** The select component: its props (fixed while it is mounted) and its state. */
  class Select {
    const options: seq<SelectOption>
    const placeholder: string
    const disabled: bool
    /** The `value` prop; `None` is `undefined`. */
    const value: Option<OptionValue>

    var open: bool
    var innerValue: Option<OptionValue>
    /** The calls made to `onChange`, oldest first. */
    var changes: seq<SelectChange>

    /** Mounting: closed, the inner value taken from `defaultValue`. */
    constructor (options: seq<SelectOption>, placeholder: string, disabled: bool,
                 value: Option<OptionValue>, defaultValue: Option<OptionValue>)
      ensures this.options == options && this.placeholder == placeholder
      ensures this.disabled == disabled && this.value == value
      ensures !open && innerValue == defaultValue && changes == []
    {
      this.options := options;
      this.placeholder := placeholder;
      this.disabled := disabled;
      this.value := value;
      open := false;
      innerValue := defaultValue;
      changes := [];
    }

    /** The value is controlled iff the `value` prop is not `undefined`. */
    predicate IsControlled()
    {
      value.Some?
    }

    /** `currentValue`: the prop when controlled, otherwise the inner state. */
    function CurrentValue(): (r: Option<OptionValue>)
      reads this
      ensures IsControlled() ==> r == value
      ensures !IsControlled() ==> r == innerValue
    {
      if IsControlled() then value else innerValue
    }

    /** `selectedOption`: the first option whose value is the current value. */
    function SelectedOption(): Option<SelectOption>
      reads this
    {
      FindOption(options, CurrentValue())
    }

    /** The trigger's text: the selected option's label, or the placeholder. */
    function TriggerText(): string
      reads this
    {
      var selected := SelectedOption();
      if selected.Some? then selected.value.labelText else placeholder
    }

    /** `tabIndex` of the trigger: a disabled select cannot be focused by tabbing. */
    function TabIndex(): (r: int)
      ensures r == -1 <==> disabled
      ensures !disabled ==> r == 0
    {
      if disabled then -1 else 0
    }

    /** `aria-selected` of an option in the list. */
    predicate IsMarkedSelected(option: SelectOption)
      reads this
    {
      Matches(option.value, CurrentValue())
    }

    /**
     * `handleSelect`: a disabled option does nothing; an enabled one becomes the
     * inner value (only when uncontrolled), is reported to `onChange`, and closes the list.
     */
    method HandleSelect(option: SelectOption)
      modifies this`innerValue, this`changes, this`open
      ensures option.disabled ==>
                innerValue == old(innerValue) && changes == old(changes) && open == old(open)
      ensures !option.disabled ==>
                innerValue == (if IsControlled() then old(innerValue) else Some(option.value))
                && changes == old(changes) + [SelectChange(option.value, option)]
                && !open
    {
      if option.disabled {
        return;
      }
      if !IsControlled() {
        innerValue := Some(option.value);
      }
      changes := changes + [SelectChange(option.value, option)];
      open := false;
    }

    /** `handleToggle`: a click on the trigger opens or closes the list, unless the select is disabled. */
    method HandleToggle()
      modifies this`open
      ensures open == (if disabled then old(open) else !old(open))
    {
      if disabled {
        return;
      }
      open := !open;
    }

    /**
     * `handleKeyDown`: Enter and Space toggle the list (and the key's default
     * action is prevented), Escape closes it, other keys and a disabled select do nothing.
     */
    method HandleKeyDown(key: string) returns (preventDefault: bool)
      modifies this`open
      ensures disabled ==> open == old(open) && !preventDefault
      ensures !disabled && (key == "Enter" || key == " ") ==> open == !old(open) && preventDefault
      ensures !disabled && key == "Escape" ==> !open && !preventDefault
      ensures !(key == "Enter" || key == " " || key == "Escape") ==> open == old(open) && !preventDefault
    {
      preventDefault := false;
      if disabled {
        return;
      }
      if key == "Enter" || key == " " {
        preventDefault := true;
        open := !open;
      } else if key == "Escape" {
        open := false;
      }
    }
  }

  /**
   * The trigger shows the label of the first option whose value is the current
   * value, and the placeholder when no option has it.
   */
  lemma TriggerShowsFirstMatch(s: Select)
    ensures (forall i :: 0 <= i < |s.options| ==> !Matches(s.options[i].value, s.CurrentValue()))
            ==> s.TriggerText() == s.placeholder
    ensures forall i :: 0 <= i < |s.options| && Matches(s.options[i].value, s.CurrentValue())
                        && (forall j :: 0 <= j < i ==> !Matches(s.options[j].value, s.CurrentValue()))
                        ==> s.TriggerText() == s.options[i].labelText
  {
    FindOptionIsFirstMatch(s.options, s.CurrentValue());
    var cur := s.CurrentValue();
    forall i | 0 <= i < |s.options| && Matches(s.options[i].value, cur)
               && (forall j :: 0 <= j < i ==> !Matches(s.options[j].value, cur))
      ensures s.TriggerText() == s.options[i].labelText
    {
      var k :| 0 <= k < |s.options| && s.options[k] == s.SelectedOption().value
               && Matches(s.options[k].value, cur)
               && forall j :: 0 <= j < k ==> !Matches(s.options[j].value, cur);
      assert !(k < i) && !(i < k);
    }
  }

  /** The option the trigger shows is marked selected in the list. */
  lemma SelectedIsMarked(s: Select)
    requires s.SelectedOption().Some?
    ensures s.IsMarkedSelected(s.SelectedOption().value)
  {
    FindOptionIsFirstMatch(s.options, s.CurrentValue());
  }

  /**
   * Once the current value is an option's (non-`NaN`) value, that option is the one
   * shown, unless an earlier option has the same value.
   */
  lemma ChosenOptionShown(s: Select, i: int)
    requires 0 <= i < |s.options| && s.CurrentValue() == Some(s.options[i].value)
    requires s.options[i].value != NumberValue(NaN)
    requires forall j :: 0 <= j < i ==> !StrictEquals(s.options[j].value, s.options[i].value)
    ensures s.TriggerText() == s.options[i].labelText
  {
    TriggerShowsFirstMatch(s);
  }
}
