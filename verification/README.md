# mkdocs-sqlalchemy-plugin, modelled in Dafny

This project models the core of the MkDocs plugin that documents SQLAlchemy
schemas. The plugin finds `{% sqlalchemy ... %}` tags in a Markdown page and
parses each tag's `key="value"` and `key=true|false` parameters. It then
replaces the tag with Markdown tables describing the schema's tables. The
model covers four parts:

- `utils.py`: the tag scanner, the parameter parser, and the `fields` and
  table-list parsers.
- `config.py`: the configuration dataclasses, their defaults, the merge of tag
  parameters into table options, and the include/exclude filter.
- `markdown.py`: the renderer. It covers the context filter, one table's
  heading, pipe table and sections, the cell values, many tables selected and
  sorted by name, and the dispatch on a tag's parameters.
- `plugin.py`: the page hook's loop. It splices the rendered text into the
  page, from the last tag to the first.

The project is organised in modules:

| file | module | what it holds |
|---|---|---|
| `wrappers.dfy` | `Wrappers` | `Option` and `Result` |
| `text.dfy` | `Text` | Python `str` operations on `string`: `strip`, `split`, `join`, `replace`, `rstrip`, `<=` |
| `seqs.dfy` | `Seqs` | subsequences and order-keeping filters |
| `finditer.dfy` | `Finditer` | `re.finditer`, for a pattern given as a matcher function |
| `schema.dfy` | `Schema` | tables, columns, indexes, constraints and foreign keys as plain datatypes |
| `utils.dfy` | `Utils` | `utils.py` |
| `params.dfy` | `ParamSyntax` | tag parameter strings written item by item, and what `parse_tag_parameters` reads back from them |
| `config.dfy` | `Config` | `config.py` |
| `markdown.dfy` | `Markdown` | `markdown.py` |
| `plugin.dfy` | `Plugin` | the splice loop of `on_page_markdown` |
| `cases.dfy` | `Cases` | the tag and parameter spellings the plugin's tests exercise, stated for all inputs of each shape |

The regular expressions are modelled by hand as recognisers. The greedy tag
pattern in `plugin.py` and `utils.py` (`GreedyParams`) and the lazy
`TAG_PATTERN` in `config.py` (`Config.TagPatternSpelling`, which is
`LazyParams`) are proved to match exactly the strings of the tag shape
(`IsTag`): `{%`, optional whitespace, `sqlalchemy`, then a body that runs up
to the first `%`. That `%` must be followed by `}`. The body must be empty or
start with whitespace. No tag can start inside another tag. So the scan finds
every tag of the page, left to right and without overlap.

Behaviours of the code worth noting, some of which the plugin's own tests
expect otherwise. The model follows the code in each:

- a boolean parameter needs no whitespace after it: `show_indexes=trueish`
  sets the flag, since the pattern at `utils.py:56` stops after the literal;
- a multi-table tag ignores `fields`, `show_indexes` and
  `show_constraints` (`markdown.py:238-262`);
- the tag's `include` and the configured `include_tables` both apply;
- an empty selection gives the empty string (`markdown.py:218`), while
  `tests/test_markdown.py:315` expects a `<!-- No tables to document -->`
  comment;
- a tag naming a missing table raises `ValueError` (`markdown.py:89-91`),
  and the loop leaves the tag in the page; `tests/test_markdown.py:122`
  expects a "not found" text instead;
- a table's heading is ``## `name` `` (`markdown.py:98`), while
  `tests/test_markdown.py:107` expects ``## Table: ``users`` ``;
- a table rendered with no fields, as for `fields="name"` in a single-table
  tag, has the header `|  |` over the separator `||` (`markdown.py:100-103`),
  so the separator no longer matches the header;
- there are no heading-level or alignment options: `tests/test_config.py:44-69`
  expect `heading_level` and `text_align` on the merged options, but
  `config.py` defines neither.

## Model

| member | source | states |
|---|---|---|
| Utils.FieldNameIsWord | src/mkdocs_sqlalchemy_plugin/utils.py:7-15 | every field name is a non-empty run of word characters, so it holds no comma and no surrounding whitespace |
| Utils.Capture | src/mkdocs_sqlalchemy_plugin/utils.py:19 | the parameter group is absent exactly when the body has at most one character; when present it holds no `%`, and the lazy pattern's capture carries no trailing whitespace |
| Utils.MatchAtIsTag | src/mkdocs_sqlalchemy_plugin/utils.py:18-19 | whatever the tag pattern matches is a whole tag: `{%`, whitespace, `sqlalchemy`, a `%`-free body, `%}` |
| Utils.MatchAtComplete | src/mkdocs_sqlalchemy_plugin/utils.py:18-19 | conversely, every tag-shaped span of the page is matched at its start, ending where the tag ends |
| Utils.NoTagInside | src/mkdocs_sqlalchemy_plugin/utils.py:18-22 | no match of the pattern starts strictly inside another match |
| Finditer.FindAll | src/mkdocs_sqlalchemy_plugin/utils.py:22 | each match found is what the pattern yields at its start, at or after the starting position; the matches ascend and do not overlap |
| Finditer.FindAllComplete | src/mkdocs_sqlalchemy_plugin/utils.py:22 | when no match can start inside another, every position where the pattern matches is the start of a found match |
| Finditer.FindAllCovers | src/mkdocs_sqlalchemy_plugin/utils.py:51-56 | every position where the pattern matches lies inside one of the matches found |
| Utils.Scan | src/mkdocs_sqlalchemy_plugin/utils.py:18-22 | the tags found are pattern matches at their own starts, in page order, non-overlapping |
| Utils.ScanFindsEveryTag | src/mkdocs_sqlalchemy_plugin/utils.py:18-22 | no tag of the page is missed by the scan |
| Utils.PatternsAgree | src/mkdocs_sqlalchemy_plugin/config.py:29 | the lazy `TAG_PATTERN` and the greedy pattern find the same spans; the lazy capture is the greedy one without trailing whitespace |
| Utils.ParseFields | src/mkdocs_sqlalchemy_plugin/utils.py:25-33 | `None` exactly for a missing or empty string; otherwise the stripped pieces that are field names, in input order, each as often as it occurs among the pieces, and no other string |
| Utils.ParseFieldsRoundTrip | src/mkdocs_sqlalchemy_plugin/utils.py:25-33 | parsing the comma-join of a non-empty list of field names gives that list back |
| Utils.KeepAllFieldNames | src/mkdocs_sqlalchemy_plugin/utils.py:29-33 | the field-name filter keeps a list of field names unchanged |
| Utils.ParseTableList | src/mkdocs_sqlalchemy_plugin/utils.py:36-40 | `None` exactly for a missing or empty string; otherwise one entry per comma-separated piece, in order, each that piece stripped |
| Utils.ParseTableListRoundTrip | src/mkdocs_sqlalchemy_plugin/utils.py:36-40 | parsing the comma-join of a non-empty list of stripped, comma-free names, whose join is not empty, gives the names back |
| Utils.StrippedPiecesJoin | src/mkdocs_sqlalchemy_plugin/utils.py:31-32 | splitting and stripping the comma-join of such names recovers each name |
| Utils.ParamText | src/mkdocs_sqlalchemy_plugin/utils.py:27-28 | a parameter counts as given exactly when present and truthy, and its text is then non-empty |
| Utils.ParamAt | src/mkdocs_sqlalchemy_plugin/utils.py:51-58 | a parameter match spans `key="value"` with a quote-free value, or `key=true`/`key=false` with the matching boolean |
| Utils.ParamAtComplete | src/mkdocs_sqlalchemy_plugin/utils.py:51-58 | conversely, a `key="value"` span with a quote-free value, or a `key=true`/`key=false` span, is matched at its start, ending where the span ends, with that key and value |
| Utils.FindParams | src/mkdocs_sqlalchemy_plugin/utils.py:51-56 | the parameter matches are pattern matches at their starts, ascending and non-overlapping |
| Utils.FindParamsCovers | src/mkdocs_sqlalchemy_plugin/utils.py:51-56 | every parameter-shaped span lies inside a match the scan finds, and is that match when the match starts where the span does |
| Utils.Store | src/mkdocs_sqlalchemy_plugin/utils.py:50-58 | storing the parameters in order adds exactly their keys; each key ends with the value of its last occurrence, and other keys keep theirs |
| Utils.ParseTagParameters | src/mkdocs_sqlalchemy_plugin/utils.py:43-58 | a missing or empty string gives no parameters; otherwise the keys are exactly those of the string matches and the boolean matches; every key is a non-empty word and no string value holds a quote |
| ParamSyntax.ParseWritten | src/mkdocs_sqlalchemy_plugin/utils.py:43-58 | parsing space-separated `key="text"` and `key=true`/`key=false` items stores the string items in order, then the boolean items in order over them |
| ParamSyntax.WrittenKeys | src/mkdocs_sqlalchemy_plugin/utils.py:43-58 | the keys parsed from such a string are exactly the items' keys |
| ParamSyntax.WrittenValue | src/mkdocs_sqlalchemy_plugin/utils.py:50-58 | an item's key holds the item's value when no later item of the same kind sets that key and, for a string item, no boolean item sets it |
| Utils.BooleanPassWins | src/mkdocs_sqlalchemy_plugin/utils.py:50-58 | a key set in the boolean pass holds its last boolean; a key only in the string pass holds its last string |
| Text.SplitJoin | src/mkdocs_sqlalchemy_plugin/utils.py:31 | for a non-empty list of pieces none of which holds the separator, `split` undoes `join` |
| Text.Strip | src/mkdocs_sqlalchemy_plugin/utils.py:32 | the result is the input with all leading and all trailing whitespace removed: it neither starts nor ends with whitespace, and what was cut off on either side is whitespace |
| Text.StripUnique | src/mkdocs_sqlalchemy_plugin/utils.py:32 | any such trimming of the input is the stripped input |
| Schema.Lookup | src/mkdocs_sqlalchemy_plugin/markdown.py:89-93 | a table is found exactly when its name is in the metadata, and it is a table of that name |
| Schema.LookupFindsTable | src/mkdocs_sqlalchemy_plugin/markdown.py:93 | with unique names, looking up a table's name finds that table |
| Config.FromStyleAndDisplay | src/mkdocs_sqlalchemy_plugin/config.py:118-127 | the options take the style's fields and the display's two flags |
| Config.GetGenerationOptions | src/mkdocs_sqlalchemy_plugin/config.py:182-186 | the configuration's options take its style's fields and its display flags |
| Config.DefaultGenerationOptions | src/mkdocs_sqlalchemy_plugin/config.py:18-28 | a configuration with only a base class renders all seven fields with both sections |
| Config.MergeWithTagParams | src/mkdocs_sqlalchemy_plugin/config.py:129-151 | tag fields replace the fields only when they parse to a non-empty list; each flag follows the tag's truthiness when given and is kept otherwise |
| Config.MergeWithoutOptionKeys | src/mkdocs_sqlalchemy_plugin/config.py:139-151 | a tag without `fields` or either flag leaves the options unchanged |
| Config.MergeIdempotent | src/mkdocs_sqlalchemy_plugin/config.py:129-151 | merging the same tag twice is the same as merging it once |
| Config.MergeKeepsFields | src/mkdocs_sqlalchemy_plugin/config.py:139-143 | valid non-empty fields stay valid and non-empty after any merge |
| Config.MergeSelectsListedFields | src/mkdocs_sqlalchemy_plugin/config.py:140-143 | a tag listing field names, comma-separated, selects exactly those fields |
| Config.MergeQuotedFalseIsTrue | src/mkdocs_sqlalchemy_plugin/config.py:147 | a quoted `"false"` is truthy and turns indexes on; an unquoted `false` turns them off |
| Config.ShouldIncludeTable | src/mkdocs_sqlalchemy_plugin/config.py:188-196 | a table is kept exactly when the include list admits it and the exclude list does not bar it |
| Markdown.ShouldIncludeTable | src/mkdocs_sqlalchemy_plugin/markdown.py:39-50 | the context keeps a table exactly when its include list admits it and its exclude list does not bar it |
| Markdown.ShouldIncludeTableAgrees | src/mkdocs_sqlalchemy_plugin/markdown.py:39-50 | the context's filter and the configuration's filter decide alike on the same lists, despite checking them in the opposite order |
| Markdown.GetFilteredTables | src/mkdocs_sqlalchemy_plugin/markdown.py:52-55 | the kept tables are exactly the metadata's tables that pass the filter, in metadata order |
| Markdown.FkCell | src/mkdocs_sqlalchemy_plugin/markdown.py:123-128 | the foreign-key cell is empty exactly without foreign keys; otherwise it is wrapped in `*` and holds no `.` |
| Markdown.FormatDefault | src/mkdocs_sqlalchemy_plugin/markdown.py:145-157 | no default gives an empty cell; a wrapped callable gives its name, a wrapped value its text, a bare default its text |
| Markdown.FkCellReadsBack | src/mkdocs_sqlalchemy_plugin/markdown.py:124-128 | for one or more foreign keys with no `&` in the targets, undoing the `&period;` escape inside the `*` gives back the comma-joined `table.column` targets |
| Markdown.UnescapeEscaped | src/mkdocs_sqlalchemy_plugin/markdown.py:128 | replacing `.` by `&period;` is undone by the reverse replacement on `&`-free text |
| Markdown.ColumnValues | src/mkdocs_sqlalchemy_plugin/markdown.py:119-142 | one value per requested field, in field order |
| Markdown.CellsFollowColumn | src/mkdocs_sqlalchemy_plugin/markdown.py:132-142 | each flag cell shows the tick exactly when the column has that property; the key cell is empty exactly without foreign keys; the default cell is the formatted default, empty without one; an unknown field gives an empty cell |
| Markdown.PipeRowSplits | src/mkdocs_sqlalchemy_plugin/markdown.py:100-108 | for one or more `\|`-free cells, splitting the row at `\|` gives back each cell padded by one space, between two empty ends |
| Markdown.SeparatorRowSplits | src/mkdocs_sqlalchemy_plugin/markdown.py:101-103 | for one or more fields, splitting the separator row at `\|` gives one dash run per field, between two empty ends |
| Markdown.HeaderAlignsWithSeparator | src/mkdocs_sqlalchemy_plugin/markdown.py:100-103 | for one or more `\|`-free fields, the header and the separator have the same number of cells, cell for cell of the same width, and the same length |
| Markdown.NoFieldsHeader | src/mkdocs_sqlalchemy_plugin/markdown.py:100-103 | with no fields the rows do not line up: the header splits into two blanks between empty ends, the separator into nothing between them |
| Markdown.SectionLinesNone | src/mkdocs_sqlalchemy_plugin/markdown.py:162-163 | an empty section reads as a blank line, the "None" line and a blank line |
| Markdown.SectionLinesListed | src/mkdocs_sqlalchemy_plugin/markdown.py:165-170 | a listed section reads as a blank line, the title, a blank line, one line per entry and a final blank line |
| Markdown.IndexesNoneForm | src/mkdocs_sqlalchemy_plugin/markdown.py:160-170 | the indexes section takes its "None" form exactly when the table has no index |
| Markdown.VisibleConstraints | src/mkdocs_sqlalchemy_plugin/markdown.py:176-178 | the shown constraints are exactly the named ones not starting with `_`, in order |
| Markdown.ConstraintsNoneForm | src/mkdocs_sqlalchemy_plugin/markdown.py:173-188 | the constraints section takes its "None" form exactly when no constraint is shown |
| Markdown.TableLines | src/mkdocs_sqlalchemy_plugin/markdown.py:96-114 | the pieces are the heading, header, separator, one row per column in order, then the sections asked for |
| Markdown.RenderTableStart | src/mkdocs_sqlalchemy_plugin/markdown.py:98-116 | a table's text starts with its heading, a blank line and the header row, and never ends in a newline |
| Markdown.RenderTableLines | src/mkdocs_sqlalchemy_plugin/markdown.py:96-116 | without sections and without newlines in the cells, the text's lines are heading, blank, header, separator and one row per column |
| Markdown.GenerateTable | src/mkdocs_sqlalchemy_plugin/markdown.py:58-116 | an error exactly for a table missing from the metadata; otherwise text starting with the table's heading and header |
| Markdown.GenerateTableRenders | src/mkdocs_sqlalchemy_plugin/markdown.py:78-93 | each absent option falls back to the configured one, and the named table is rendered |
| Markdown.SortByName | src/mkdocs_sqlalchemy_plugin/markdown.py:211-212 | the result is sorted by name and is a permutation of the input |
| Markdown.SelectedTables | src/mkdocs_sqlalchemy_plugin/markdown.py:199-212 | exactly the tables passing all three checks, each once; sorted by name for `sort_by="name"`, else in metadata order |
| Markdown.TableTexts | src/mkdocs_sqlalchemy_plugin/markdown.py:214-216 | one rendered text per selected table, each the table rendered with the configured options |
| Markdown.GenerateTables | src/mkdocs_sqlalchemy_plugin/markdown.py:191-218 | the text is the selected tables' texts joined by newlines, and is empty exactly when no table of the metadata is selected |
| Markdown.GenerateSingleTable | src/mkdocs_sqlalchemy_plugin/markdown.py:221-235 | an error exactly for a missing table; otherwise the text starts with the table's heading and header row |
| Markdown.SingleTableRenders | src/mkdocs_sqlalchemy_plugin/markdown.py:221-235 | with unique names, the tag's table is rendered with the fields its `fields` parameter parses to, or the configured fields when it parses to none, and each section shown by the truthiness of the tag's flag, or the configured flag without one |
| Markdown.SingleTableFields | src/mkdocs_sqlalchemy_plugin/markdown.py:225-235 | a tag whose `fields` parses to a list renders exactly that list, with the flags as above |
| Markdown.SingleTableListedFields | src/mkdocs_sqlalchemy_plugin/markdown.py:225-235 | a tag listing valid field names, comma-separated, renders exactly those fields in that order |
| Markdown.SingleTableWithoutValidFields | src/mkdocs_sqlalchemy_plugin/markdown.py:225-235 | a `fields` parameter naming no valid field renders the table with no columns, not with the configured fields, whatever the flags |
| Markdown.NoValidField | src/mkdocs_sqlalchemy_plugin/utils.py:29-33 | `fields="name"` parses to the empty list |
| Markdown.FinalExclude | src/mkdocs_sqlalchemy_plugin/markdown.py:249-255 | a name is excluded exactly when the tag or the configuration excludes it; no list at all exactly when neither has one |
| Markdown.FinalInclude | src/mkdocs_sqlalchemy_plugin/markdown.py:247 | a name is admitted exactly when the tag's include list admits it |
| Markdown.TagSelection | src/mkdocs_sqlalchemy_plugin/markdown.py:238-262 | the merged include and exclude lists select a table exactly when it passes the tag's include and exclude, the configured exclude and the context filter |
| Markdown.TagTables | src/mkdocs_sqlalchemy_plugin/markdown.py:238-262 | a multi-table tag documents exactly the tables of the metadata that pass it, sorted by name for `sort_by="name"` and in metadata order otherwise |
| Markdown.GenerateFilteredTables | src/mkdocs_sqlalchemy_plugin/markdown.py:238-262 | the text is the texts of the tag's tables joined by newlines, and is empty exactly when no table passes the tag's include and exclude, the configured exclude and the context filter |
| Markdown.GenerateContentFromParams | src/mkdocs_sqlalchemy_plugin/markdown.py:265-274 | with `table`: exactly the single-table rendering of that name, so an error exactly when the table is missing; without: the filtered tables, never an error |
| Plugin.Replace | src/mkdocs_sqlalchemy_plugin/plugin.py:190-192 | inside the text, the span is replaced by the new text, and the length changes by the difference |
| Plugin.Render | src/mkdocs_sqlalchemy_plugin/plugin.py:184-188 | a tag fails exactly when it names a table missing from the metadata |
| Plugin.SubstituteApplies | src/mkdocs_sqlalchemy_plugin/plugin.py:183-196 | the loop makes exactly the edits of the tags that render, last first, and skips the others |
| Plugin.EditsPlaced | src/mkdocs_sqlalchemy_plugin/plugin.py:174-183 | the edits of tags in page order are in order, inside the page and non-overlapping |
| Plugin.ApplyReversedIsSpliced | src/mkdocs_sqlalchemy_plugin/plugin.py:182-192 | replacing from the last edit to the first equals one left-to-right splice; no edit shifts a span still to be replaced |
| Plugin.SplicedAgree | src/mkdocs_sqlalchemy_plugin/plugin.py:191 | a splice up to a position does not read the text beyond it |
| Plugin.PageTags | src/mkdocs_sqlalchemy_plugin/plugin.py:172-176 | the tags are in page order inside the page, and there are none exactly when the pattern matches nowhere |
| Plugin.OnPageMarkdown | src/mkdocs_sqlalchemy_plugin/plugin.py:160-198 | nothing without a context or without a tag; otherwise the page with each rendering tag replaced in one left-to-right splice, everything else kept |
| Plugin.NothingRenders | src/mkdocs_sqlalchemy_plugin/plugin.py:183-198 | when every tag fails, the page comes back unchanged, not as nothing |
| Cases.NoPercentNoTags | tests/test_utils.py:53-54 | text without a `%` holds no tag, so `{ sqlalchemy }` and `{sqlalchemy}` are plain text |
| Cases.BracesOnly | tests/test_utils.py:53-54 | the two brace-only spellings of the tests yield no match |
| Cases.TagOf | src/mkdocs_sqlalchemy_plugin/utils.py:18-22 | `{%`, blanks, `sqlalchemy`, a valid body and `%}` is matched from end to end, and its group is the body's capture |
| Cases.BareTag | tests/test_utils.py:32-40 | a tag with blanks before the keyword and at most one blank after it, such as `{%sqlalchemy%}` or `{% sqlalchemy %}`, is the one match of its text, with no parameter group |
| Cases.BlankBodyTag | tests/test_utils.py:41 | a tag whose body is two or more blanks, such as `{%  sqlalchemy  %}`, is the one match of its text, and its group is the last blank |
| Cases.LazyDropsTrailingBlanks | tests/test_utils.py:87-95 | for `{% sqlalchemy table="users" %}`-shaped bodies the lazy pattern captures the parameters without the trailing blanks and the greedy one keeps them |
| Cases.QuotedParam | tests/test_utils.py:232-233 | one `key="value"` with a value free of `"` and `=` parses to exactly that key and text, the empty text included |
| Cases.FlagParam | tests/test_utils.py:291-295 | one `key=true` or `key=false` parses to exactly that key and flag |
| Cases.NoQuoteNoStrings | src/mkdocs_sqlalchemy_plugin/utils.py:51-53 | text without `"` yields no string parameter |
| Cases.NoLiteralNoBools | src/mkdocs_sqlalchemy_plugin/utils.py:56-58 | text where no `=` is followed by `t` or `f` yields no boolean parameter |
| Cases.UnquotedValue | tests/test_utils.py:264-299 | a key, `=` and an unquoted value free of `"` and `=` that does not start with `t` or `f`, such as `table=users`, `show_indexes=yes` or `show_indexes=True`, parses to no parameters |

## Left out

- Logging: the `logger` calls have no effect on the results.
- Plugin set-up: `on_config` and the other hooks are not modelled. That covers importing the application, extending `sys.path` and building the context dictionary. The context is a parameter, present or absent.
- SQLAlchemy: `metadata.sorted_tables` is given as a sequence of plain datatypes. `str(column.type)`, the index column keys and the constraint class names are strings in those datatypes. `table.indexes`, `table.constraints` and `column.foreign_keys` are sets with no defined iteration order; the model takes them as sequences in a given order.
- Schema-qualified tables: `metadata.tables` is taken to be keyed by the bare table name. SQLAlchemy keys a table with a schema as `schema.name`, so for such a table `generate_tables` asks `generate_table` for the bare name, which raises at `markdown.py:89-91` and leaves the tag in the page; the model renders the table instead.
- `Markdown.FinalExclude`: the set union's list order is not modelled. The tag and configured lists are concatenated instead, because the renderer only tests membership.
- Unicode word characters: `\w` is modelled as the ASCII letters, digits and `_`. Python's `str` patterns also count non-ASCII letters and digits, so a parameter key such as `tablé` is one the model does not match. Whitespace (`\s`, `str.strip()`) follows Python's full set of whitespace characters.
- `Plugin.Render`: the only failure modelled is the `ValueError` for a missing table. Any other exception the renderer could raise is not modelled.
- `group_by_schema` is carried in the configuration but read by nothing, as in the code.
- `Markdown.FormatDefault` renders a callable's `__name__` and any other value's `str` as strings given in the schema datatypes. Python's `str` of arbitrary objects is not modelled.
- `ParamSyntax.ParseWritten`, `ParamSyntax.WrittenKeys`, `ParamSyntax.WrittenValue`, `Cases.QuotedParam` and `Cases.UnquotedValue` cover string values whose text holds no `=`. The boolean pattern also matches `key=true` inside a quoted value, so `title="a=true"` sets `a` as well as `title`. The scan lemmas for such text are not stated.
- The `heading_level` and `text_align` options that the config tests expect do not exist in the code, so they are not modelled.
