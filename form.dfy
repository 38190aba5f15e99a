/** The plugin's per-form state and the operations that change or read it
    (js/idealforms.js): `Actions.analyze`, `PublicMethods.addFields`,
    `getInvalid`, `isValid`, `isValidField` and the submit and keydown
    handlers.

    The page is modelled by the names of its wrapped fields in document
    order. A field is identified by its `name` attribute: the options table,
    the validity datum, the valid/invalid class and the displayed error of a
    field are all kept under that name. */
module IdealForm {
  import opened Text
  import opened Config
  import opened Validation
  import opened FlagDispatch
  import opened Fields

  /** Radio buttons and checkboxes are validated differently from every
      other kind of input. */
  datatype Kind = TextLike | RadioCheck

  /** The attributes of an input element that `analyze` reads. A missing
      `class` attribute reads as "". */
  datatype Element = Element(name: string, classAttr: string, val: string, placeholder: Option<string>, kind: Kind)

  /** The events `analyze` is attached to. */
  datatype Event = KeyUp | Change | Focus | Blur

  /** The `valid`/`invalid` class of a field wrapper, which also decides
      which icon is shown. */
  datatype Mark = Unmarked | MarkedValid | MarkedInvalid

  /** What an event handler does besides changing the form's state. */
  datatype Effect = PreventDefault | CallOnFail | FocusField(name: string) | CallOnSuccess

  /** The options `analyze` uses for an element: those stored under its
      name, or else a filter list made of its class attribute, with no
      custom messages and no flags. */
  function ResolveOptions(inputs: map<string, UserOptions>, el: Element): (o: UserOptions)
    ensures el.name in inputs ==> o == inputs[el.name]
    ensures el.name !in inputs ==> o.filters == el.classAttr && o.errors == map[] && o.flags == ""
  {
    if el.name in inputs then inputs[el.name] else UserOptions(el.classAttr, map[], map[], "")
  }

  /** The value `analyze` validates: none when the element shows its
      placeholder text, a single space for a radio button or checkbox, and
      the element's value otherwise. */
  function ResolveValue(el: Element): (v: Value)
    ensures el.placeholder == Some(el.val) ==> v == Undefined
    ensures el.placeholder != Some(el.val) && el.kind == RadioCheck ==> v == Str(" ")
    ensures el.placeholder != Some(el.val) && el.kind == TextLike ==> v == Str(el.val)
    ensures !Truthy(v) <==> el.placeholder == Some(el.val) || (el.kind == TextLike && el.val == "")
  {
    if el.placeholder == Some(el.val) then Undefined
    else if el.kind == RadioCheck then
      assert Truthy(Str(" "));
      Str(" ")
    else
      assert el.kind == TextLike;
      assert Truthy(Str(el.val)) <==> el.val != "";
      Str(el.val)
  }

  /** A field whose validity datum is `false`. */
  predicate Invalid(state: map<string, bool>, name: string)
  {
    name in state && !state[name]
  }

  /** The fields of `doc` whose datum is `false`, in document order. */
  function InvalidAmong(doc: seq<string>, state: map<string, bool>): (r: seq<string>)
    ensures forall n :: n in r <==> n in doc && Invalid(state, n)
    ensures |r| > 0 ==>
      IndexOf(doc, r[0]).Some? &&
      forall j :: 0 <= j < IndexOf(doc, r[0]).value ==> !Invalid(state, doc[j])
  {
    if |doc| == 0 then []
    else if Invalid(state, doc[0]) then [doc[0]] + InvalidAmong(doc[1..], state)
    else InvalidAmong(doc[1..], state)
  }

  class Form {
    /** `o.inputs`: the options of the fields registered by name. */
    var inputs: map<string, UserOptions>
    /** The `isValid` datum of each field wrapper; a field that was never
        analyzed has none. */
    var fieldState: map<string, bool>
    /** The `valid`/`invalid` class of each analyzed field wrapper. */
    var marks: map<string, Mark>
    /** The error messages on display, by field. */
    var shownErrors: map<string, string>
    /** The filter registry after the caller's filters are merged in. */
    var filters: FilterTable
    /** The flag registry after the caller's flags are merged in. */
    var flags: FlagTable
    /** `o.globalFlags`. */
    var globalFlags: string
    /** The names of the wrapped fields in document order. */
    var doc: seq<string>

    /** The registry holds the built-in `required` filter, and only fields
        of the page carry a datum, a mark or a displayed error. */
    ghost predicate Valid()
      reads this
    {
      "required" in filters &&
      (forall n :: n in fieldState ==> n in doc) &&
      (forall n :: n in marks ==> n in doc) &&
      (forall n :: n in shownErrors ==> n in doc)
    }

    /** The plugin body: the caller's options over the defaults, then the
        caller's filters and flags merged into the registries. No field has
        been analyzed yet. */
    constructor (ops: Overrides, builtinFilters: FilterTable, builtinFlags: FlagTable, page: seq<string>)
      requires "required" in builtinFilters
      ensures Valid()
      ensures inputs == WithDefaults(ops).inputs && globalFlags == WithDefaults(ops).globalFlags
      ensures filters == MergeFilters(builtinFilters, WithDefaults(ops).customFilters)
      ensures flags == MergeFlags(builtinFlags, WithDefaults(ops).customFlags)
      ensures fieldState == map[] && marks == map[] && shownErrors == map[] && doc == page
    {
      var o := WithDefaults(ops);
      inputs := o.inputs;
      globalFlags := o.globalFlags;
      filters := MergeFilters(builtinFilters, o.customFilters);
      flags := MergeFlags(builtinFlags, o.customFlags);
      fieldState := map[];
      marks := map[];
      shownErrors := map[];
      doc := page;
    }

    /** `Actions.analyze(input, evt)`: validates the element, records the
        result on its field, shows or hides the messages, and runs the flags.
        Returns the validation result and the flags called. */
    method Analyze(el: Element, evt: Event) returns (test: ValidationResult, called: seq<string>)
      requires Valid()
      modifies this
      ensures Valid()
      ensures test == Validate(filters, Input(el.name, ResolveOptions(inputs, el)), ResolveValue(el))
      ensures called == RegisteredPrefix(flags, FlagList(ResolveOptions(inputs, el).flags, globalFlags))
      ensures inputs == old(inputs) && filters == old(filters) && flags == old(flags)
      ensures globalFlags == old(globalFlags) && doc == old(doc)
      ensures el.name in doc ==> fieldState == old(fieldState)[el.name := test.isValid]
      ensures el.name !in doc ==> fieldState == old(fieldState)
      ensures el.name in doc ==> marks == old(marks)[el.name :=
        if !test.isValid then MarkedInvalid
        else if Truthy(ResolveValue(el)) then MarkedValid
        else Unmarked]
      ensures el.name !in doc ==> marks == old(marks)
      ensures test.isValid ==> shownErrors == old(shownErrors) - {el.name}
      ensures !test.isValid && evt != Blur && el.name in doc ==> shownErrors == map[el.name := test.error]
      ensures !test.isValid && (evt == Blur || el.name !in doc) ==> shownErrors == map[]
    {
      var opts := ResolveOptions(inputs, el);
      var value := ResolveValue(el);
      var looked;
      test, looked := ValidateInput(filters, Input(el.name, opts), value);
      var flagList := FlagList(opts.flags, globalFlags);

      // Reset, then the outcome
      var state, mark := true, Unmarked;
      shownErrors := shownErrors - {el.name};
      if Truthy(value) && test.isValid {
        state, mark := true, MarkedValid;
      }
      if !test.isValid {
        state, mark := false, MarkedInvalid;
        shownErrors := map[];
        if evt != Blur && el.name in doc {
          shownErrors := map[el.name := test.error];
        }
      }
      if el.name in doc {
        fieldState := fieldState[el.name := state];
        marks := marks[el.name := mark];
      }

      called := DoFlags(flags, flagList);
    }

    /** The datum of a field of the page decides `isValidField`, and a
        `false` datum makes the whole form invalid. */
    lemma DatumDecides(name: string)
      requires Valid() && name in doc && name in fieldState
      ensures IsValidField(name) <==> fieldState[name]
      ensures !fieldState[name] ==> !IsValid()
    {
      if !fieldState[name] {
        assert name in GetInvalid();
      }
    }

    /** `addFields(fields)`: reverses the caller's array in place, then
        stores the options of each entry under its name and inserts its
        field into the page after its anchor, entry by entry. */
    method AddFields(fields: array<FieldSpec>)
      requires Valid()
      modifies this, fields
      ensures Valid()
      ensures fields[..] == Reversed(old(fields[..]))
      ensures inputs == StoreAll(old(inputs), fields[..])
      ensures doc == PlaceAll(old(doc), fields[..])
      ensures forall n :: n in old(doc) ==> n in doc
      ensures fieldState == old(fieldState) && marks == old(marks) && shownErrors == old(shownErrors)
      ensures filters == old(filters) && flags == old(flags) && globalFlags == old(globalFlags)
    {
      Reverse(fields);
      var i := 0;
      while i < fields.Length
        invariant 0 <= i <= fields.Length
        invariant fields[..] == Reversed(old(fields[..]))
        invariant inputs == StoreAll(old(inputs), fields[..i])
        invariant doc == PlaceAll(old(doc), fields[..i])
        invariant forall n :: n in old(doc) ==> n in doc
        invariant fieldState == old(fieldState) && marks == old(marks) && shownErrors == old(shownErrors)
        invariant filters == old(filters) && flags == old(flags) && globalFlags == old(globalFlags)
        invariant Valid()
      {
        var spec := fields[i];
        assert fields[..i + 1] == fields[..i] + [spec];
        assert fields[..i + 1][..i] == fields[..i];
        inputs := inputs[spec.name := StoredOptions(spec)];
        doc := Place(doc, spec);
        i := i + 1;
      }
      assert fields[..i] == fields[..];
    }

    /** `getInvalid()`: the fields whose datum is `false`, in document order;
        an untouched field is never among them. */
    function GetInvalid(): (r: seq<string>)
      reads this
      ensures forall n :: n in r <==> n in doc && n in fieldState && !fieldState[n]
    {
      InvalidAmong(doc, fieldState)
    }

    /** `isValid()`: no field has the datum `false`. */
    function IsValid(): (r: bool)
      reads this
      requires Valid()
      ensures r <==> GetInvalid() == []
      ensures r <==> forall n :: n in fieldState ==> fieldState[n]
    {
      assert forall n :: n in fieldState && !fieldState[n] ==> n in GetInvalid();
      |GetInvalid()| == 0
    }

    /** `isValidField(name)`: the field's datum is exactly `true`, so an
        untouched field is not reported valid. */
    function IsValidField(name: string): (r: bool)
      reads this
      ensures r ==> name in doc && name !in GetInvalid()
      ensures r <==> name in doc && name in fieldState && fieldState[name]
    {
      name in doc && name in fieldState && fieldState[name]
    }

    /** The submit handler: an invalid form has its submission cancelled,
        `onFail` called and its first invalid field focused; a valid form
        only has `onSuccess` called. */
    function OnSubmit(): (effects: seq<Effect>)
      reads this
      requires Valid()
      ensures PreventDefault in effects <==> exists n :: n in doc && Invalid(fieldState, n)
      ensures CallOnFail in effects <==> PreventDefault in effects
      ensures CallOnSuccess in effects <==> PreventDefault !in effects
      ensures PreventDefault in effects ==>
        |effects| == 3 && effects[0] == PreventDefault && effects[1] == CallOnFail && effects[2].FocusField?
      ensures PreventDefault !in effects ==> effects == [CallOnSuccess]
      ensures forall n :: FocusField(n) in effects ==>
        Invalid(fieldState, n) && IndexOf(doc, n).Some? &&
        forall j :: 0 <= j < IndexOf(doc, n).value ==> !Invalid(fieldState, doc[j])
    {
      var invalid := GetInvalid();
      if |invalid| > 0 then
        assert invalid[0] in invalid;
        [PreventDefault, CallOnFail, FocusField(invalid[0])]
      else
        assert forall n :: n in doc && Invalid(fieldState, n) ==> n in invalid;
        [CallOnSuccess]
    }
  }

  /** The keydown handler: the Enter key (code 13) has its default action,
      submitting the form, cancelled; no other key does. */
  function OnKeyDown(which: int): (effects: seq<Effect>)
    ensures PreventDefault in effects <==> which == 13
    ensures forall e :: e in effects ==> e == PreventDefault
  {
    if which == 13 then [PreventDefault] else []
  }
}
