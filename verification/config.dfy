/** The configuration dataclasses of `src/mkdocs_sqlalchemy_plugin/config.py`:
    their defaults, the options a table is rendered with, the way per-tag
    parameters override those options, and the include/exclude filter. */
module Config {
  import opened Wrappers
  import opened Text
  import opened Utils

  /** `DEFAULT_TICK`, the heavy check mark with its emoji presentation
      selector, and `DEFAULT_CROSS`. */
  const DefaultTick: string := "\U{2714}\U{FE0F}"
  const DefaultCross: string := "\U{274C}"

  /** `DEFAULT_FIELDS`: every field, in the order of `FIELD_NAMES`. */
  const DefaultFields: seq<string> := FieldNames

  /** `TAG_PATTERN` is the lazy spelling of the tag pattern. */
  const TagPatternSpelling: TagPattern := LazyParams

  datatype TableStyleConfig = TableStyleConfig(tick: string, cross: string, fields: seq<string>)

  datatype FilterConfig = FilterConfig(includeTables: Option<seq<string>>, excludeTables: Option<seq<string>>)

  datatype DisplayConfig = DisplayConfig(showIndexes: bool, showConstraints: bool, groupBySchema: bool)

  /** The settings one table is rendered with. */
  datatype TableGenerationOptions = TableGenerationOptions(fields: seq<string>, showIndexes: bool, showConstraints: bool)

  datatype PluginConfig = PluginConfig(
    baseClass: string,
    appPath: Option<string>,
    pythonPath: Option<seq<string>>,
    tableStyle: TableStyleConfig,
    filter: FilterConfig,
    display: DisplayConfig)

  const DefaultTableStyle: TableStyleConfig := TableStyleConfig(DefaultTick, DefaultCross, DefaultFields)
  const DefaultFilter: FilterConfig := FilterConfig(None, None)
  const DefaultDisplay: DisplayConfig := DisplayConfig(true, true, false)
  const DefaultOptions: TableGenerationOptions := TableGenerationOptions(DefaultFields, true, true)

  /** `PluginConfig(base_class=...)` with every other field at its default. */
  function NewPluginConfig(baseClass: string): PluginConfig {
    PluginConfig(baseClass, None, None, DefaultTableStyle, DefaultFilter, DefaultDisplay)
  }

  /** `TableGenerationOptions.from_style_and_display`: the style's fields and
      the display's two flags, copied unchanged; the symbols and
      `group_by_schema` play no part. */
  function FromStyleAndDisplay(style: TableStyleConfig, display: DisplayConfig): (r: TableGenerationOptions)
    ensures r.fields == style.fields
    ensures r.showIndexes == display.showIndexes && r.showConstraints == display.showConstraints
  {
    TableGenerationOptions(style.fields, display.showIndexes, display.showConstraints)
  }

  /** `PluginConfig.get_generation_options` */
  function GetGenerationOptions(cfg: PluginConfig): (r: TableGenerationOptions)
    ensures r.fields == cfg.tableStyle.fields
    ensures r.showIndexes == cfg.display.showIndexes && r.showConstraints == cfg.display.showConstraints
  {
    FromStyleAndDisplay(cfg.tableStyle, cfg.display)
  }

  /** A configuration with nothing but its base class renders every field
      with both sections. */
  lemma DefaultGenerationOptions(baseClass: string)
    ensures GetGenerationOptions(NewPluginConfig(baseClass)) == DefaultOptions
    ensures ValidFields(DefaultOptions.fields) && |DefaultOptions.fields| == 7
  {
  }

  /** The fields a tag's `fields` parameter selects in
      `merge_with_tag_params`: its `str` parsed by `parse_fields`. */
  function TagFields(params: Params): (r: Option<seq<string>>)
    requires "fields" in params
    ensures r.Some? ==> ValidFields(r.value)
  {
    ParseFields(Some(PyStr(params["fields"])))
  }

  /** `TableGenerationOptions.merge_with_tag_params`: a new options value in
      which each tag parameter that is present takes precedence. The fields
      are replaced only by a non-empty selection; each flag becomes the
      truthiness of its parameter. */
  function MergeWithTagParams(opts: TableGenerationOptions, params: Params): (r: TableGenerationOptions)
    ensures "fields" !in params ==> r.fields == opts.fields
    ensures "fields" in params && TagFields(params).Some? && TagFields(params).value != [] ==>
      r.fields == TagFields(params).value
    ensures r.fields == opts.fields || ("fields" in params && r.fields != [] && Some(r.fields) == TagFields(params))
    ensures "show_indexes" in params ==> r.showIndexes == Truthy(params["show_indexes"])
    ensures "show_indexes" !in params ==> r.showIndexes == opts.showIndexes
    ensures "show_constraints" in params ==> r.showConstraints == Truthy(params["show_constraints"])
    ensures "show_constraints" !in params ==> r.showConstraints == opts.showConstraints
  {
    var newFields :=
      if "fields" in params then
        match TagFields(params)
        case Some(parsed) => if parsed != [] then parsed else opts.fields
        case None => opts.fields
      else opts.fields;
    TableGenerationOptions(
      newFields,
      Flag(params, "show_indexes", opts.showIndexes),
      Flag(params, "show_constraints", opts.showConstraints))
  }

  /** Parameters that name none of the three options leave the options as
      they were. */
  lemma MergeWithoutOptionKeys(opts: TableGenerationOptions, params: Params)
    requires "fields" !in params && "show_indexes" !in params && "show_constraints" !in params
    ensures MergeWithTagParams(opts, params) == opts
  {
  }

  /** Merging the same parameters twice is merging them once. */
  lemma MergeIdempotent(opts: TableGenerationOptions, params: Params)
    ensures MergeWithTagParams(MergeWithTagParams(opts, params), params) == MergeWithTagParams(opts, params)
  {
  }

  /** Merging keeps the fields valid and non-empty: a tag can narrow or
      reorder the fields but never select none. */
  lemma MergeKeepsFields(opts: TableGenerationOptions, params: Params)
    requires ValidFields(opts.fields) && opts.fields != []
    ensures ValidFields(MergeWithTagParams(opts, params).fields)
    ensures MergeWithTagParams(opts, params).fields != []
  {
  }

  /** A tag `fields="a,b,..."` listing field names selects exactly those
      fields, in that order. */
  lemma MergeSelectsListedFields(opts: TableGenerationOptions, params: Params, fields: seq<string>)
    requires |fields| >= 1 && ValidFields(fields)
    requires "fields" in params && params["fields"] == Str(Join(fields, ","))
    ensures MergeWithTagParams(opts, params).fields == fields
  {
    TagFieldsListed(params, fields);
  }

  lemma TagFieldsListed(params: Params, fields: seq<string>)
    requires |fields| >= 1 && ValidFields(fields)
    requires "fields" in params && params["fields"] == Str(Join(fields, ","))
    ensures TagFields(params) == Some(fields)
  {
    ParseFieldsRoundTrip(fields);
  }

  /** A quoted `show_indexes="false"` is a non-empty string, so it turns the
      section on; only the unquoted `show_indexes=false` turns it off. */
  lemma MergeQuotedFalseIsTrue(opts: TableGenerationOptions)
    ensures MergeWithTagParams(opts, map["show_indexes" := Str("false")]).showIndexes
    ensures !MergeWithTagParams(opts, map["show_indexes" := Bool(false)]).showIndexes
  {
  }

  // ---------------------------------------------------------------------
  // The include/exclude filter
  // ---------------------------------------------------------------------

  /** An include list lets `name` through when it is absent or empty (a
      false list in Python) or when it lists `name`. */
  predicate Admits(includeList: Option<seq<string>>, name: string) {
    includeList.None? || includeList.value == [] || name in includeList.value
  }

  /** An exclude list stops `name` when it lists it. */
  predicate Bars(excludeList: Option<seq<string>>, name: string) {
    excludeList.Some? && name in excludeList.value
  }

  /** A list setting is in force: present and non-empty. */
  predicate Active(list: Option<seq<string>>) {
    list.Some? && list.value != []
  }

  /** `PluginConfig.should_include_table`: the exclude list is checked
      first, then the include list. A table is kept exactly when the include
      list admits it and the exclude list does not bar it, so an exclusion
      wins over an inclusion. */
  function ShouldIncludeTable(cfg: PluginConfig, tablename: string): (r: bool)
    ensures r <==> Admits(cfg.filter.includeTables, tablename) && !Bars(cfg.filter.excludeTables, tablename)
  {
    var f := cfg.filter;
    if Active(f.excludeTables) && tablename in f.excludeTables.value then false
    else if Active(f.includeTables) && tablename !in f.includeTables.value then false
    else true
  }
}
