/** The configuration the plugin works from: per-field user options, the
    filter and flag registries, and the plugin options with their defaults
    (js/idealforms.js, the `$.extend` calls at the start and at the end of
    the plugin body).

    JavaScript values that are read only for their truthiness are modelled
    by their falsy representative: a missing string option is "", a missing
    table is the empty map. */
module Config {

  datatype Option<T> = None | Some(value: T)
  {
    function GetOr(default: T): T
    {
      if Some? then value else default
    }
  }

  /** The options of one field: `{filters, data, errors, flags}`. `filters`
      and `flags` are whitespace-separated lists of names, `errors` maps a
      filter name to the message that replaces that filter's own, and `data`
      is caller data the engine never reads. */
  datatype UserOptions = UserOptions(
    filters: string,
    data: map<string, string>,
    errors: map<string, string>,
    flags: string)

  /** The first argument a filter's test function receives: the field
      (identified here by its name) together with its options. */
  datatype Input = Input(field: string, userOptions: UserOptions)

  /** A filter's `regex` property. The library tells the cases apart at run
      time: a function is called with the input and the value, a RegExp is
      matched against the value, and anything else is never applied. The
      bodies of the built-in tests are not part of this model, so every test
      is an arbitrary total predicate. */
  datatype Test =
    | Predicate(holds: (Input, string) -> bool)
    | Pattern(matches: string -> bool)
    | Other

  /** A registry entry: the test and the default error message. */
  datatype Filter = Filter(test: Test, error: string)

  type FilterTable = map<string, Filter>

  /** A flag callback, known only by its identity: what it does to the page
      is not part of this model. */
  datatype Callback = Callback(id: nat)

  type FlagTable = map<string, Callback>

  /** A caller-supplied filter entry for the deep merge: either property may
      be left out, and a left-out property keeps the built-in one. */
  datatype FilterPatch = FilterPatch(test: Option<Test>, error: Option<string>)

  /** The entry a deep merge leaves behind: a new name starts from an empty
      object, whose missing `regex` is never applied and whose missing
      `error` reads as "". */
  function Patched(base: Option<Filter>, patch: FilterPatch): (f: Filter)
    ensures patch.test.Some? ==> f.test == patch.test.value
    ensures patch.error.Some? ==> f.error == patch.error.value
    ensures base.Some? && patch.test.None? ==> f.test == base.value.test
    ensures base.Some? && patch.error.None? ==> f.error == base.value.error
    ensures base.None? && patch.test.None? ==> f.test.Other?
  {
    var b := base.GetOr(Filter(Other, ""));
    Filter(patch.test.GetOr(b.test), patch.error.GetOr(b.error))
  }

  /** `$.extend(true, Filters, o.customFilters)`: every caller name ends up
      in the registry, the caller's properties override the built-in ones,
      and what the caller did not give keeps its built-in value. */
  function MergeFilters(builtin: FilterTable, custom: map<string, FilterPatch>): (r: FilterTable)
    ensures r.Keys == builtin.Keys + custom.Keys
    ensures forall n :: n in builtin && n !in custom ==> r[n] == builtin[n]
    ensures forall n :: n in custom && custom[n].test.Some? ==> r[n].test == custom[n].test.value
    ensures forall n :: n in custom && custom[n].error.Some? ==> r[n].error == custom[n].error.value
    ensures forall n :: n in custom && n in builtin && custom[n].test.None? ==> r[n].test == builtin[n].test
    ensures forall n :: n in custom && n in builtin && custom[n].error.None? ==> r[n].error == builtin[n].error
  {
    map n | n in builtin.Keys + custom.Keys ::
      if n in custom then Patched(if n in builtin then Some(builtin[n]) else None, custom[n])
      else builtin[n]
  }

  /** `$.extend(true, Flags, o.customFlags)`: flags are functions, which a
      deep merge copies whole, so a caller's flag replaces the built-in one
      of the same name. */
  function MergeFlags(builtin: FlagTable, custom: FlagTable): (r: FlagTable)
    ensures r.Keys == builtin.Keys + custom.Keys
    ensures forall n :: n in custom ==> r[n] == custom[n]
    ensures forall n :: n in builtin && n !in custom ==> r[n] == builtin[n]
  {
    builtin + custom
  }

  /** The `responsiveAt` option: 'auto', a pixel width, or a falsy value. */
  datatype ResponsiveAt = Auto | Width(px: int) | Off

  /** The plugin options after defaults are applied (the `onSuccess` and
      `onFail` callbacks are modelled as effects in the form module). */
  datatype Settings = Settings(
    inputs: map<string, UserOptions>,
    customFilters: map<string, FilterPatch>,
    customFlags: FlagTable,
    globalFlags: string,
    responsiveAt: ResponsiveAt,
    customInputs: bool)

  /** The options a caller passes; `None` is an option left out (or
      `undefined`, which a shallow `$.extend` skips too). */
  datatype Overrides = Overrides(
    inputs: Option<map<string, UserOptions>>,
    customFilters: Option<map<string, FilterPatch>>,
    customFlags: Option<FlagTable>,
    globalFlags: Option<string>,
    responsiveAt: Option<ResponsiveAt>,
    customInputs: Option<bool>)

  const DefaultSettings: Settings := Settings(map[], map[], map[], "", Auto, true)

  /** `$.extend({defaults}, ops)`, a shallow merge: an option the caller
      gives replaces the default whole; an option left out keeps it. */
  function WithDefaults(ops: Overrides): (o: Settings)
    ensures ops.inputs.Some? ==> o.inputs == ops.inputs.value
    ensures ops.inputs.None? ==> o.inputs == map[]
    ensures ops.customFilters.Some? ==> o.customFilters == ops.customFilters.value
    ensures ops.customFilters.None? ==> o.customFilters == map[]
    ensures ops.customFlags.Some? ==> o.customFlags == ops.customFlags.value
    ensures ops.customFlags.None? ==> o.customFlags == map[]
    ensures ops.globalFlags.Some? ==> o.globalFlags == ops.globalFlags.value
    ensures ops.globalFlags.None? ==> o.globalFlags == ""
    ensures ops.responsiveAt.Some? ==> o.responsiveAt == ops.responsiveAt.value
    ensures ops.responsiveAt.None? ==> o.responsiveAt == Auto
    ensures ops.customInputs.Some? ==> o.customInputs == ops.customInputs.value
    ensures ops.customInputs.None? ==> o.customInputs
  {
    Settings(
      ops.inputs.GetOr(DefaultSettings.inputs),
      ops.customFilters.GetOr(DefaultSettings.customFilters),
      ops.customFlags.GetOr(DefaultSettings.customFlags),
      ops.globalFlags.GetOr(DefaultSettings.globalFlags),
      ops.responsiveAt.GetOr(DefaultSettings.responsiveAt),
      ops.customInputs.GetOr(DefaultSettings.customInputs))
  }
}
