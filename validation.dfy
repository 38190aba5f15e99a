/** The validation engine: `Actions.validate` in js/idealforms.js, which
    takes a field's options and its value and returns `{isValid, error}`. */
module Validation {
  import opened Text
  import opened Config

  /** The value handed to `validate`: `undefined` when the field shows its
      placeholder, otherwise a string. */
  datatype Value = Undefined | Str(s: string)

  /** JavaScript truthiness of a value: a non-empty string. */
  predicate Truthy(v: Value)
    ensures !Truthy(v) <==> v == Undefined || v == Str("")
  {
    v.Str? && v.s != ""
  }

  datatype ValidationResult = ValidationResult(isValid: bool, error: string)

  const Passed := ValidationResult(true, "")

  /** Filter `name` is registered and its test rejects `value`; an unknown
      name, or a filter whose test is neither a function nor a RegExp,
      never fails. */
  predicate Fails(reg: FilterTable, input: Input, value: string, name: string)
    ensures Fails(reg, input, value, name) ==> name in reg && !reg[name].test.Other?
  {
    name in reg &&
    match reg[name].test
    case Predicate(holds) => !holds(input, value)
    case Pattern(matches) => !matches(value)
    case Other => false
  }

  /** The message reported when filter `name` fails: the field's own message
      for that filter when it is a non-empty string, otherwise the filter's
      default message. */
  function ErrorFor(reg: FilterTable, options: UserOptions, name: string): (e: string)
    requires name in reg
    ensures name in options.errors && options.errors[name] != "" ==> e == options.errors[name]
    ensures name !in options.errors || options.errors[name] == "" ==> e == reg[name].error
  {
    if name in options.errors && options.errors[name] != "" then options.errors[name]
    else reg[name].error
  }

  /** Index `k` holds the first filter of `names` that fails. */
  predicate FirstFailingAt(reg: FilterTable, input: Input, value: string, names: seq<string>, k: nat)
  {
    k < |names| && Fails(reg, input, value, names[k]) &&
    forall j :: 0 <= j < k ==> !Fails(reg, input, value, names[j])
  }

  /** The position of the first failing filter in `names`, if any. */
  function FirstFailure(reg: FilterTable, input: Input, value: string, names: seq<string>): (r: Option<nat>)
    ensures r.Some? ==> FirstFailingAt(reg, input, value, names, r.value)
    ensures r.None? ==> forall j :: 0 <= j < |names| ==> !Fails(reg, input, value, names[j])
  {
    if |names| == 0 then None
    else if Fails(reg, input, value, names[0]) then Some(0)
    else
      match FirstFailure(reg, input, value, names[1..])
      case None => None
      case Some(k) => Some(k + 1)
  }

  /** `Actions.validate(input, value)` over the registry `reg`, which always
      holds the built-in `required` filter.
      - A field without filters always passes.
      - An empty value fails exactly when the filter string contains the
        word `required`, with the `required` message.
      - A non-empty value is checked against the filters of the split list
        in order, and the first failing one gives the message.
      - A passing result never carries a message. */
  function Validate(reg: FilterTable, input: Input, value: Value): (r: ValidationResult)
    requires "required" in reg
    ensures r.isValid ==> r.error == ""
    ensures input.userOptions.filters == "" ==> r == Passed
    ensures !Truthy(value) ==>
      (r.isValid <==> input.userOptions.filters == "" || !Contains(input.userOptions.filters, "required"))
    ensures !Truthy(value) && !r.isValid ==> r.error == ErrorFor(reg, input.userOptions, "required")
    ensures Truthy(value) && input.userOptions.filters != "" ==>
      var first := FirstFailure(reg, input, value.s, Split(input.userOptions.filters));
      (r.isValid <==> first.None?) &&
      (first.Some? ==> r.error == ErrorFor(reg, input.userOptions, Split(input.userOptions.filters)[first.value]))
  {
    var filters := input.userOptions.filters;
    if filters == "" then Passed
    else if !Truthy(value) then
      if Contains(filters, "required") then ValidationResult(false, ErrorFor(reg, input.userOptions, "required"))
      else Passed
    else
      var names := Split(filters);
      var first := FirstFailure(reg, input, value.s, names);
      if first.None? then Passed
      else ValidationResult(false, ErrorFor(reg, input.userOptions, names[first.value]))
  }

  /** First failure wins: for a non-empty value, the result fails exactly
      when some filter of the split list fails, and its message is that of
      the earliest failing filter, whatever fails after it. */
  lemma FirstFailureWins(reg: FilterTable, input: Input, value: Value)
    requires "required" in reg
    requires Truthy(value) && input.userOptions.filters != ""
    ensures var names := Split(input.userOptions.filters);
      Validate(reg, input, value).isValid ==>
        forall j :: 0 <= j < |names| ==> !Fails(reg, input, value.s, names[j])
    ensures !Validate(reg, input, value).isValid ==>
      exists k: nat :: FirstFailingAt(reg, input, value.s, Split(input.userOptions.filters), k) &&
        Validate(reg, input, value).error ==
          ErrorFor(reg, input.userOptions, Split(input.userOptions.filters)[k])
  {
    var names := Split(input.userOptions.filters);
    var first := FirstFailure(reg, input, value.s, names);
    if first.Some? {
      assert FirstFailingAt(reg, input, value.s, names, first.value);
    }
  }

  /** The loop of `Actions.validate`, as the source runs it. Besides the
      result it returns the filter names it looked up, in order: none for
      an empty value, and for a non-empty value the split list up to and
      including the first failing filter, so later filters are never
      evaluated. */
  method ValidateInput(reg: FilterTable, input: Input, value: Value) returns (r: ValidationResult, looked: seq<string>)
    requires "required" in reg
    ensures r == Validate(reg, input, value)
    ensures !Truthy(value) || input.userOptions.filters == "" ==> looked == []
    ensures Truthy(value) && input.userOptions.filters != "" ==>
      var names := Split(input.userOptions.filters);
      match FirstFailure(reg, input, value.s, names)
      case None => looked == names
      case Some(k) => looked == names[..k + 1]
  {
    var isValid, error := true, "";
    looked := [];
    var userFilters := input.userOptions.filters;
    if userFilters != "" {
      if !Truthy(value) && Contains(userFilters, "required") {
        error := ErrorFor(reg, input.userOptions, "required");
        isValid := false;
      }
      if Truthy(value) {
        var names := Split(userFilters);
        var i := 0;
        while i < |names|
          invariant 0 <= i <= |names|
          invariant isValid && error == ""
          invariant looked == names[..i]
          invariant forall j :: 0 <= j < i ==> !Fails(reg, input, value.s, names[j])
        {
          var uf := names[i];
          looked := looked + [uf];
          if Fails(reg, input, value.s, uf) {
            isValid := false;
            error := ErrorFor(reg, input.userOptions, uf);
            assert FirstFailingAt(reg, input, value.s, names, i);
            break;
          }
          i := i + 1;
        }
        assert looked == names[..|looked|];
      }
    }
    r := ValidationResult(isValid, error);
  }

  /** Two registries agree on `name`. */
  ghost predicate AgreeOn(reg1: FilterTable, reg2: FilterTable, name: string)
  {
    (name in reg1 <==> name in reg2) && (name in reg1 ==> reg1[name] == reg2[name])
  }

  lemma {:induction false} FirstFailureLocal(reg1: FilterTable, reg2: FilterTable, input: Input, value: string, names: seq<string>)
    requires forall j :: 0 <= j < |names| ==> AgreeOn(reg1, reg2, names[j])
    ensures FirstFailure(reg1, input, value, names) == FirstFailure(reg2, input, value, names)
  {
    if |names| > 0 {
      FirstFailureLocal(reg1, reg2, input, value, names[1..]);
    }
  }

  /** Validation reads nothing but its arguments and the registry entries of
      the names it may look up (those of the split filter list, and
      `required`): registries that agree on those give the same result. */
  lemma ValidateLocal(reg1: FilterTable, reg2: FilterTable, input: Input, value: Value)
    requires "required" in reg1 && "required" in reg2
    requires AgreeOn(reg1, reg2, "required")
    requires forall j :: 0 <= j < |Split(input.userOptions.filters)| ==>
      AgreeOn(reg1, reg2, Split(input.userOptions.filters)[j])
    ensures Validate(reg1, input, value) == Validate(reg2, input, value)
  {
    if Truthy(value) && input.userOptions.filters != "" {
      FirstFailureLocal(reg1, reg2, input, value.s, Split(input.userOptions.filters));
    }
  }

  /** Filters after the first failing one cannot change the outcome, and
      filters after a passing list are searched with their positions shifted. */
  lemma {:induction false} FirstFailureAppend(reg: FilterTable, input: Input, value: string, names: seq<string>, more: seq<string>)
    ensures FirstFailure(reg, input, value, names).Some? ==>
      FirstFailure(reg, input, value, names + more) == FirstFailure(reg, input, value, names)
    ensures FirstFailure(reg, input, value, names).None? ==>
      FirstFailure(reg, input, value, names + more) ==
        match FirstFailure(reg, input, value, more)
        case None => None
        case Some(k) => Some(|names| + k)
  {
    if |names| > 0 {
      assert (names + more)[1..] == names[1..] + more;
      FirstFailureAppend(reg, input, value, names[1..], more);
    } else {
      assert names + more == more;
    }
  }

  /** Filter names that are registered with a function or RegExp test, in order. */
  function Testable(reg: FilterTable, names: seq<string>): (t: seq<string>)
    ensures forall n :: n in t ==> n in names && n in reg && !reg[n].test.Other?
  {
    if |names| == 0 then []
    else if names[0] in reg && !reg[names[0]].test.Other? then [names[0]] + Testable(reg, names[1..])
    else Testable(reg, names[1..])
  }

  /** Unknown names and filters that are neither a function nor a RegExp can
      be dropped from the list without changing which filter is reported. */
  lemma {:induction false} OnlyTestableFiltersMatter(reg: FilterTable, input: Input, value: string, names: seq<string>)
    ensures var r, t := FirstFailure(reg, input, value, names), FirstFailure(reg, input, value, Testable(reg, names));
      r.Some? <==> t.Some?
    ensures var r, t := FirstFailure(reg, input, value, names), FirstFailure(reg, input, value, Testable(reg, names));
      r.Some? ==> names[r.value] == Testable(reg, names)[t.value]
  {
    if |names| > 0 {
      var n0, tail := names[0], names[1..];
      OnlyTestableFiltersMatter(reg, input, value, tail);
      var rest := Testable(reg, tail);
      var rt := FirstFailure(reg, input, value, tail);
      var tt := FirstFailure(reg, input, value, rest);
      if n0 in reg && !reg[n0].test.Other? {
        var t := [n0] + rest;
        assert Testable(reg, names) == t;
        assert t[1..] == rest;
        if !Fails(reg, input, value, n0) {
          assert FirstFailure(reg, input, value, names) == if rt.Some? then Some(rt.value + 1) else None;
          assert FirstFailure(reg, input, value, t) == if tt.Some? then Some(tt.value + 1) else None;
        }
      } else {
        assert Testable(reg, names) == rest;
        assert !Fails(reg, input, value, n0);
        assert FirstFailure(reg, input, value, names) == if rt.Some? then Some(rt.value + 1) else None;
      }
    }
  }
}
