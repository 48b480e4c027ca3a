/** The renderer of `src/mkdocs_sqlalchemy_plugin/markdown.py`: one schema
    table becomes a heading, a pipe table with one row per column and
    optional indexes and constraints sections; many tables are selected,
    ordered and joined; a tag's parameters choose between the two. */
module Markdown {
  import opened Wrappers
  import opened Text
  import opened Seqs
  import opened Schema
  import opened Utils
  import Config

  // ---------------------------------------------------------------------
  // The rendering context
  // ---------------------------------------------------------------------

  /** The `table_style` entry of the context's configuration. */
  datatype TableStyleConfig = TableStyleConfig(tick: string, cross: string, fields: seq<string>)

  /** The configuration dictionary the renderer reads (not the dataclass
      of the same name): the filter lists and the two flags sit at the top
      level. */
  datatype PluginConfig = PluginConfig(
    baseClass: string,
    appPath: Option<string>,
    pythonPath: Option<seq<string>>,
    tableStyle: TableStyleConfig,
    includeTables: Option<seq<string>>,
    excludeTables: Option<seq<string>>,
    groupBySchema: bool,
    showIndexes: bool,
    showConstraints: bool)

  /** `SqlAlchemyPluginContext`; the declarative base is represented by its
      metadata. */
  datatype Context = Context(metadata: Metadata, pluginConfig: PluginConfig)

  /** `SqlAlchemyPluginContext.should_include_table`: the include list is
      checked first, then the exclude list. */
  function ShouldIncludeTable(ctx: Context, tablename: string): (r: bool)
    ensures r <==> (Config.Admits(ctx.pluginConfig.includeTables, tablename) && !Config.Bars(ctx.pluginConfig.excludeTables, tablename))
  {
    var c := ctx.pluginConfig;
    if Config.Active(c.includeTables) && tablename !in c.includeTables.value then false
    else if Config.Active(c.excludeTables) && tablename in c.excludeTables.value then false
    else true
  }

  /** The renderer's filter and the configuration's filter check their two
      lists in opposite orders, yet decide every name alike. */
  lemma ShouldIncludeTableAgrees(cfg: Config.PluginConfig, ctx: Context, tablename: string)
    requires ctx.pluginConfig.includeTables == cfg.filter.includeTables
    requires ctx.pluginConfig.excludeTables == cfg.filter.excludeTables
    ensures ShouldIncludeTable(ctx, tablename) == Config.ShouldIncludeTable(cfg, tablename)
  {
  }

  /** `SqlAlchemyPluginContext.get_filtered_tables`: the tables of the
      metadata that the filter keeps, in metadata order. */
  function GetFilteredTables(ctx: Context): (r: seq<Table>)
    ensures Subsequence(r, ctx.metadata)
    ensures forall i :: 0 <= i < |r| ==> ShouldIncludeTable(ctx, r[i].name)
    ensures forall i :: 0 <= i < |ctx.metadata| && ShouldIncludeTable(ctx, ctx.metadata[i].name) ==> ctx.metadata[i] in r
  {
    FilterSubsequence(ctx.metadata, (t: Table) => ShouldIncludeTable(ctx, t.name));
    Filter(ctx.metadata, (t: Table) => ShouldIncludeTable(ctx, t.name))
  }

  // ---------------------------------------------------------------------
  // Cells
  // ---------------------------------------------------------------------

  /** `_format_default_value`: nothing for no default, the name of a
      callable argument, the text of any other argument, or the text of the
      default itself. */
  function FormatDefault(d: ColumnDefault): (r: string)
    ensures d.NoDefault? ==> r == ""
    ensures d.Wrapped? && d.arg.Callable? ==> r == d.arg.name
    ensures d.Wrapped? && d.arg.Value? ==> r == d.arg.repr
    ensures d.Raw? ==> r == d.repr
  {
    match d
    case NoDefault => ""
    case Wrapped(Callable(name)) => name
    case Wrapped(Value(repr)) => repr
    case Raw(repr) => repr
  }

  /** `table.column` for one foreign key. */
  function FkTarget(fk: ForeignKey): string {
    fk.table + "." + fk.column
  }

  function FkTargets(fks: seq<ForeignKey>): (r: seq<string>)
    ensures |r| == |fks| && forall i :: 0 <= i < |fks| ==> r[i] == FkTarget(fks[i])
  {
    seq(|fks|, i requires 0 <= i < |fks| => FkTarget(fks[i]))
  }

  /** The foreign-key cell: empty without foreign keys, otherwise the
      targets in italics with every `.` written as `&period;`. */
  function FkCell(fks: seq<ForeignKey>): (r: string)
    ensures r == "" <==> fks == []
    ensures r != "" ==> |r| >= 2 && r[0] == '*' && r[|r| - 1] == '*' && '.' !in r
  {
    if fks == [] then ""
    else "*" + ReplaceChar(Join(FkTargets(fks), ", "), '.', "&period;") + "*"
  }

  /** Markdown's reading of `&period;`: the inverse of the escaping in
      `FkCell`. */
  function UnescapePeriods(s: string): string
    decreases |s|
  {
    if |s| == 0 then ""
    else if StartsWith(s, "&period;") then "." + UnescapePeriods(s[8..])
    else [s[0]] + UnescapePeriods(s[1..])
  }

  /** Escaping the periods loses nothing: reading the entity back gives the
      original text, provided it has no `&` of its own. */
  lemma {:induction false} UnescapeEscaped(s: string)
    requires '&' !in s
    ensures UnescapePeriods(ReplaceChar(s, '.', "&period;")) == s
    decreases |s|
  {
    if |s| > 0 {
      var tail := ReplaceChar(s[1..], '.', "&period;");
      assert '&' !in s[1..] by {
        assert forall k :: 0 <= k < |s| - 1 ==> s[1..][k] == s[k + 1];
      }
      UnescapeEscaped(s[1..]);
      if s[0] == '.' {
        UnescapeEntity(tail);
      } else {
        UnescapeOther(s[0], tail);
      }
    }
  }

  lemma UnescapeEntity(tail: string)
    ensures UnescapePeriods("&period;" + tail) == "." + UnescapePeriods(tail)
  {
    var e := "&period;" + tail;
    assert e[..8] == "&period;";
    assert e[8..] == tail;
  }

  lemma UnescapeOther(c: char, tail: string)
    requires c != '&'
    ensures UnescapePeriods([c] + tail) == [c] + UnescapePeriods(tail)
  {
    var e := [c] + tail;
    assert e[0] == c;
    assert e[1..] == tail;
  }

  /** The foreign-key cell reads back as the comma-separated targets. */
  lemma FkCellReadsBack(fks: seq<ForeignKey>)
    requires fks != [] && '&' !in Join(FkTargets(fks), ", ")
    ensures var r := FkCell(fks); UnescapePeriods(r[1..|r| - 1]) == Join(FkTargets(fks), ", ")
  {
    var body := ReplaceChar(Join(FkTargets(fks), ", "), '.', "&period;");
    assert FkCell(fks)[1..|FkCell(fks)| - 1] == body;
    UnescapeEscaped(Join(FkTargets(fks), ", "));
  }

  /** The tick for a set flag, the cross otherwise. */
  function Mark(flag: bool, tick: string, cross: string): string {
    if flag then tick else cross
  }

  /** The cell of one field for one column; unknown fields give an empty
      cell. */
  function FieldValue(column: Column, field: string, tick: string, cross: string): string {
    if field == "column" then "`" + column.name + "`"
    else if field == "type" then column.typeName
    else if field == "nullable" then Mark(column.nullable, tick, cross)
    else if field == "default" then FormatDefault(column.default)
    else if field == "primary_key" then Mark(column.primaryKey, tick, cross)
    else if field == "unique" then Mark(column.unique, tick, cross)
    else if field == "foreign_key" then FkCell(column.foreignKeys)
    else ""
  }

  /** `_generate_column_values`: one cell per requested field, in order. */
  function ColumnValues(column: Column, fields: seq<string>, tick: string, cross: string): (r: seq<string>)
    ensures |r| == |fields|
    ensures forall i :: 0 <= i < |fields| ==> r[i] == FieldValue(column, fields[i], tick, cross)
  {
    seq(|fields|, i requires 0 <= i < |fields| => FieldValue(column, fields[i], tick, cross))
  }

  /** With distinct symbols, a flag cell shows the tick exactly when the
      flag is set; a field outside `FIELD_NAMES` shows nothing; the
      foreign-key cell is empty exactly when there are no foreign keys. */
  lemma CellsFollowColumn(column: Column, tick: string, cross: string, field: string)
    requires tick != cross
    ensures FieldValue(column, "nullable", tick, cross) == tick <==> column.nullable
    ensures FieldValue(column, "primary_key", tick, cross) == tick <==> column.primaryKey
    ensures FieldValue(column, "unique", tick, cross) == tick <==> column.unique
    ensures FieldValue(column, "foreign_key", tick, cross) == "" <==> column.foreignKeys == []
    ensures FieldValue(column, "default", tick, cross) == FormatDefault(column.default)
    ensures column.default.NoDefault? ==> FieldValue(column, "default", tick, cross) == ""
    ensures field !in FieldNames ==> FieldValue(column, field, tick, cross) == ""
  {
  }

  // ---------------------------------------------------------------------
  // Rows
  // ---------------------------------------------------------------------

  /** A row of the pipe table, header or body: `| a | b | c |`. */
  function PipeRow(cells: seq<string>): string {
    "| " + Join(cells, " | ") + " |"
  }

  function Dashes(n: nat): (r: string)
    ensures |r| == n && forall i :: 0 <= i < n ==> r[i] == '-'
  {
    seq(n, _ => '-')
  }

  /** The dash runs of the separator row: two longer than each field name. */
  function SeparatorCells(fields: seq<string>): (r: seq<string>)
    ensures |r| == |fields| && forall i :: 0 <= i < |fields| ==> r[i] == Dashes(|fields[i]| + 2)
  {
    seq(|fields|, i requires 0 <= i < |fields| => Dashes(|fields[i]| + 2))
  }

  /** The separator row: `|---|---|`. */
  function SeparatorRow(fields: seq<string>): string {
    "|" + Join(SeparatorCells(fields), "|") + "|"
  }

  /** Each entry between two copies of `d`: a row's cells with the space
      on either side, or an index's columns in backticks. */
  function Wrap(cells: seq<string>, d: string): (r: seq<string>)
    ensures |r| == |cells| && forall i :: 0 <= i < |cells| ==> r[i] == d + cells[i] + d
  {
    seq(|cells|, i requires 0 <= i < |cells| => d + cells[i] + d)
  }

  /** Splitting a row at its pipes gives back its padded cells between two
      empty ends: a row of `n` cells has `n + 1` pipes. */
  lemma PipeRowSplits(cells: seq<string>)
    requires |cells| >= 1 && forall i :: 0 <= i < |cells| ==> '|' !in cells[i]
    ensures Split(PipeRow(cells), '|') == [""] + Wrap(cells, " ") + [""]
  {
    var ps := [""] + Wrap(cells, " ") + [""];
    JoinPadded(cells);
    Framed(Wrap(cells, " "), "|");
    assert PipeRow(cells) == "|" + (" " + Join(cells, " | ") + " ") + "|";
    forall i | 0 <= i < |ps| ensures '|' !in ps[i] {
      if 0 < i < |ps| - 1 {
        assert ps[i] == " " + cells[i - 1] + " ";
      }
    }
    SplitJoin(ps, '|');
  }

  /** Splitting the separator row at its pipes gives back its dash runs. */
  lemma SeparatorRowSplits(fields: seq<string>)
    requires |fields| >= 1
    ensures Split(SeparatorRow(fields), '|') == [""] + SeparatorCells(fields) + [""]
  {
    Framed(SeparatorCells(fields), "|");
    SplitJoin([""] + SeparatorCells(fields) + [""], '|');
  }

  /** The header and the separator line up: they split into the same
      number of pieces and each dash run is as wide as the padded field name
      above it, so their pipes stand at the same positions. */
  lemma HeaderAlignsWithSeparator(fields: seq<string>)
    requires |fields| >= 1 && forall i :: 0 <= i < |fields| ==> '|' !in fields[i]
    ensures |Split(PipeRow(fields), '|')| == |Split(SeparatorRow(fields), '|')| == |fields| + 2
    ensures forall i :: 0 <= i < |fields| + 2 ==> |Split(PipeRow(fields), '|')[i]| == |Split(SeparatorRow(fields), '|')[i]|
    ensures |PipeRow(fields)| == |SeparatorRow(fields)|
  {
    PipeRowSplits(fields);
    SeparatorRowSplits(fields);
    var h := [""] + Wrap(fields, " ") + [""];
    var s := [""] + SeparatorCells(fields) + [""];
    assert forall i :: 0 <= i < |fields| + 2 ==> |h[i]| == |s[i]| by {
      forall i | 0 <= i < |fields| + 2 ensures |h[i]| == |s[i]| {
        if 0 < i <= |fields| {
          assert h[i] == Wrap(fields, " ")[i - 1];
          assert s[i] == SeparatorCells(fields)[i - 1];
        }
      }
    }
    SameWidthJoin(h, s);
  }

  /** Split at `|`, the header and the separator of a table with no
      fields have the same number of pieces, but the middle one is two
      blanks over nothing, so the rows do not line up. */
  lemma NoFieldsHeader()
    ensures Split(PipeRow([]), '|') == ["", "  ", ""]
    ensures Split(SeparatorRow([]), '|') == ["", "", ""]
  {
    NoFieldsRows();
    SplitBlankCell();
    SplitNoCell();
  }

  lemma SplitBlankCell()
    ensures Split("|  |", '|') == ["", "  ", ""]
  {
    SplitThree("", "  ", "");
    assert "" + "|" + "  " + "|" + "" == "|  |";
  }

  lemma SplitNoCell()
    ensures Split("||", '|') == ["", "", ""]
  {
    SplitThree("", "", "");
    assert "" + "|" + "" + "|" + "" == "||";
  }

  lemma SplitThree(a: string, b: string, c: string)
    requires '|' !in a && '|' !in b && '|' !in c
    ensures Split(a + "|" + b + "|" + c, '|') == [a, b, c]
  {
    JoinThree(a, b, c, "|");
    SplitJoin([a, b, c], '|');
  }

  /** With no fields the header and the separator no longer line up: they
      are `|  |` and `||`. */
  lemma NoFieldsRows()
    ensures PipeRow([]) == "|  |" && SeparatorRow([]) == "||"
  {
  }

  lemma {:induction false} JoinPadded(cells: seq<string>)
    requires |cells| >= 1
    ensures " " + Join(cells, " | ") + " " == Join(Wrap(cells, " "), "|")
    decreases |cells|
  {
    var first := " " + cells[0] + " ";
    if |cells| == 1 {
      assert Wrap(cells, " ") == [first];
    } else {
      var rest := Join(cells[1..], " | ");
      JoinPadded(cells[1..]);
      assert Wrap(cells, " ") == [first] + Wrap(cells[1..], " ");
      JoinAppend([first], Wrap(cells[1..], " "), "|");
      assert Join(Wrap(cells, " "), "|") == first + "|" + (" " + rest + " ");
      assert Join(cells, " | ") == cells[0] + " | " + rest;
      assert " | " == " " + "|" + " ";
    }
  }

  /** Pieces of equal widths join to equal widths. */
  lemma {:induction false} SameWidthJoin(a: seq<string>, b: seq<string>)
    requires |a| == |b| && forall i :: 0 <= i < |a| ==> |a[i]| == |b[i]|
    ensures |Join(a, "|")| == |Join(b, "|")|
    decreases |a|
  {
    if |a| > 1 {
      SameWidthJoin(a[1..], b[1..]);
    }
  }

  // ---------------------------------------------------------------------
  // Sections
  // ---------------------------------------------------------------------

  /** The title line of a section with entries, `**Title:**`. */
  function TitleLine(title: string): string {
    "**" + title + ":**"
  }

  /** The one line of a section without entries, `**Title:** None`. */
  function NoneLine(title: string): string {
    TitleLine(title) + " None"
  }

  /** A section: the `None` form for an empty list, otherwise its title
      line, a blank line and one line per entry. */
  function Section(title: string, items: seq<string>): string {
    if items == [] then "\n" + NoneLine(title) + "\n"
    else Join(["\n" + TitleLine(title) + "\n"] + items, "\n") + "\n"
  }

  /** Read line by line, a section without entries is its `None` line
      between two empty lines. */
  lemma SectionLinesNone(title: string)
    requires '\n' !in title
    ensures Split(Section(title, []), '\n') == ["", NoneLine(title), ""]
  {
    var n := NoneLine(title);
    assert '\n' !in n;
    JoinThree("", n, "", "\n");
    assert Section(title, []) == Join(["", n, ""], "\n");
    SplitJoin(["", n, ""], '\n');
  }

  /** Read line by line, a section with entries is its title line, an
      empty line and then exactly one line per entry. */
  lemma SectionLinesListed(title: string, items: seq<string>)
    requires '\n' !in title && items != [] && forall i :: 0 <= i < |items| ==> '\n' !in items[i]
    ensures Split(Section(title, items), '\n') == ["", TitleLine(title), ""] + items + [""]
  {
    var h := TitleLine(title);
    assert '\n' !in h;
    var lines := ["", h, ""] + items + [""];
    SectionText(h, items);
    forall i | 0 <= i < |lines| ensures '\n' !in lines[i] {
      if 3 <= i < |lines| - 1 {
        assert lines[i] == items[i - 3];
      }
    }
    SplitJoin(lines, '\n');
  }

  /** A section with entries is the join of its lines. */
  lemma SectionText(h: string, items: seq<string>)
    requires items != []
    ensures Join(["\n" + h + "\n"] + items, "\n") + "\n" == Join(["", h, ""] + items + [""], "\n")
  {
    var j := Join(items, "\n");
    JoinAppend(["\n" + h + "\n"], items, "\n");
    assert Join(["\n" + h + "\n"] + items, "\n") == "\n" + h + "\n" + "\n" + j;
    JoinAppend(["", h, ""], items + [""], "\n");
    JoinThree("", h, "", "\n");
    JoinAppend(items, [""], "\n");
    assert Join(items + [""], "\n") == j + "\n";
    assert ["", h, ""] + items + [""] == ["", h, ""] + (items + [""]);
  }

  /** The text of an optional name: `None` when it is absent. */
  function NameText(name: Option<string>): string {
    match name
    case Some(n) => n
    case None => "None"
  }

  function IndexBullet(idx: Index): string {
    "- `" + NameText(idx.name) + "`: " + Join(Wrap(idx.columns, "`"), ", ")
  }

  function IndexBullets(indexes: seq<Index>): (r: seq<string>)
    ensures |r| == |indexes| && forall i :: 0 <= i < |indexes| ==> r[i] == IndexBullet(indexes[i])
  {
    seq(|indexes|, i requires 0 <= i < |indexes| => IndexBullet(indexes[i]))
  }

  /** `_generate_indexes_section` */
  function IndexesSection(table: Table): string {
    Section("Indexes", IndexBullets(table.indexes))
  }

  /** A constraint is listed when it has a non-empty name that does not
      start with `_`. */
  predicate Visible(c: Constraint) {
    c.name.Some? && c.name.value != "" && !StartsWith(c.name.value, "_")
  }

  /** The constraints the constraints section lists: exactly the visible
      ones, in their original order. */
  function VisibleConstraints(constraints: seq<Constraint>): (r: seq<Constraint>)
    ensures Subsequence(r, constraints)
    ensures forall i :: 0 <= i < |r| ==> Visible(r[i])
    ensures forall i :: 0 <= i < |constraints| && Visible(constraints[i]) ==> constraints[i] in r
    ensures r == [] <==> forall i :: 0 <= i < |constraints| ==> !Visible(constraints[i])
  {
    FilterEmpty(constraints, Visible);
    FilterSubsequence(constraints, Visible);
    Filter(constraints, Visible)
  }

  function ConstraintBullet(c: Constraint): string {
    "- `" + NameText(c.name) + "` (" + c.kind + ")"
  }

  function ConstraintBullets(constraints: seq<Constraint>): (r: seq<string>)
    ensures |r| == |constraints| && forall i :: 0 <= i < |constraints| ==> r[i] == ConstraintBullet(constraints[i])
  {
    seq(|constraints|, i requires 0 <= i < |constraints| => ConstraintBullet(constraints[i]))
  }

  /** `_generate_constraints_section` */
  function ConstraintsSection(table: Table): string {
    Section("Constraints", ConstraintBullets(VisibleConstraints(table.constraints)))
  }

  /** Each section takes its `None` form exactly when it has nothing to
      list: no indexes, or no visible constraint. */
  lemma IndexesNoneForm(table: Table)
    ensures IndexesSection(table) == "\n" + NoneLine("Indexes") + "\n" <==> table.indexes == []
  {
    SectionNoneForm("Indexes", IndexBullets(table.indexes));
  }

  lemma ConstraintsNoneForm(table: Table)
    ensures ConstraintsSection(table) == "\n" + NoneLine("Constraints") + "\n" <==>
      forall i :: 0 <= i < |table.constraints| ==> !Visible(table.constraints[i])
  {
    var visible := VisibleConstraints(table.constraints);
    var items := ConstraintBullets(visible);
    assert |items| == |visible|;
    SectionNoneForm("Constraints", items);
  }

  /** A section takes its `None` form exactly when it has no entries. */
  lemma SectionNoneForm(title: string, items: seq<string>)
    ensures Section(title, items) == "\n" + NoneLine(title) + "\n" <==> items == []
  {
    if items != [] {
      var s := Section(title, items);
      var t := "\n" + TitleLine(title) + "\n";
      JoinAppend([t], items, "\n");
      assert s[|title| + 6] == t[|title| + 6] == '\n';
      assert ("\n" + NoneLine(title) + "\n")[|title| + 6] == ' ';
    }
  }

  // ---------------------------------------------------------------------
  // One table
  // ---------------------------------------------------------------------

  function Heading(name: string): string {
    "## `" + name + "`\n"
  }

  function BodyRows(table: Table, fields: seq<string>, tick: string, cross: string): (r: seq<string>)
    ensures |r| == |table.columns|
    ensures forall k :: 0 <= k < |r| ==> r[k] == PipeRow(ColumnValues(table.columns[k], fields, tick, cross))
  {
    seq(|table.columns|, k requires 0 <= k < |table.columns| => PipeRow(ColumnValues(table.columns[k], fields, tick, cross)))
  }

  /** The pieces of a table's text: heading, header row, separator row, one
      row per column in declared order, then the sections that are shown. */
  function TableLines(table: Table, fields: seq<string>, tick: string, cross: string, showIndexes: bool, showConstraints: bool): (r: seq<string>)
    ensures |r| == 3 + |table.columns| + (if showIndexes then 1 else 0) + (if showConstraints then 1 else 0)
    ensures r[0] == Heading(table.name) && r[1] == PipeRow(fields) && r[2] == SeparatorRow(fields)
    ensures forall k :: 0 <= k < |table.columns| ==> r[3 + k] == PipeRow(ColumnValues(table.columns[k], fields, tick, cross))
    ensures showIndexes ==> r[3 + |table.columns|] == IndexesSection(table)
    ensures showConstraints ==> r[|r| - 1] == ConstraintsSection(table)
  {
    [Heading(table.name), PipeRow(fields), SeparatorRow(fields)] + BodyRows(table, fields, tick, cross)
      + (if showIndexes then [IndexesSection(table)] else [])
      + (if showConstraints then [ConstraintsSection(table)] else [])
  }

  /** The text of one table: its pieces joined by newlines, trailing
      newlines removed. */
  function RenderTable(table: Table, fields: seq<string>, tick: string, cross: string, showIndexes: bool, showConstraints: bool): string {
    RStripChar(Join(TableLines(table, fields, tick, cross, showIndexes, showConstraints), "\n"), '\n')
  }

  /** A table's text opens with its heading, a blank line and the header
      row, and never ends in a newline. */
  lemma RenderTableStart(table: Table, fields: seq<string>, tick: string, cross: string, showIndexes: bool, showConstraints: bool)
    ensures StartsWith(RenderTable(table, fields, tick, cross, showIndexes, showConstraints), Heading(table.name) + "\n| ")
    ensures var r := RenderTable(table, fields, tick, cross, showIndexes, showConstraints); r != [] && r[|r| - 1] != '\n'
  {
    var lines := TableLines(table, fields, tick, cross, showIndexes, showConstraints);
    assert |lines| >= 3 && lines[0] == Heading(table.name) && lines[1] == PipeRow(fields);
    JoinedStart(lines, Heading(table.name), fields);
    assert RenderTable(table, fields, tick, cross, showIndexes, showConstraints) == RStripChar(Join(lines, "\n"), '\n');
  }

  lemma JoinedStart(lines: seq<string>, heading: string, fields: seq<string>)
    requires |lines| >= 3 && lines[0] == heading && lines[1] == PipeRow(fields)
    ensures StartsWith(RStripChar(Join(lines, "\n"), '\n'), heading + "\n| ")
    ensures var r := RStripChar(Join(lines, "\n"), '\n'); r != [] && r[|r| - 1] != '\n'
  {
    var j := Join(lines, "\n");
    var rest := Join(lines[1..], "\n");
    var p := heading + "\n| ";
    assert j == heading + "\n" + rest;
    assert lines[1..][0] == lines[1] && lines[1..][1..] == lines[2..];
    assert rest == lines[1] + "\n" + Join(lines[2..], "\n");
    assert rest[..2] == "| ";
    assert j[..|p|] == p;
    RStripKeepsPrefix(j, p, '\n');
  }

  /** Without sections, the text of a table read line by line is the
      heading, a blank line, the header, the separator and one row per
      column, in declared order. */
  lemma RenderTableLines(table: Table, fields: seq<string>, tick: string, cross: string)
    requires '\n' !in table.name && forall i :: 0 <= i < |fields| ==> '\n' !in fields[i]
    requires forall k, i :: 0 <= k < |table.columns| && 0 <= i < |fields| ==> '\n' !in FieldValue(table.columns[k], fields[i], tick, cross)
    ensures Split(RenderTable(table, fields, tick, cross, false, false), '\n') ==
      ["## `" + table.name + "`", "", PipeRow(fields), SeparatorRow(fields)] + BodyRows(table, fields, tick, cross)
  {
    var rows := BodyRows(table, fields, tick, cross);
    var h := "## `" + table.name + "`";
    var rest := [PipeRow(fields), SeparatorRow(fields)] + rows;
    RowsAvoidNewline(table, fields, tick, cross, rest);
    LinesOfText(h, rest, [h + "\n"] + rest);
    BareTableLines(table, fields, tick, cross, h, rest);
    Regroup(h, "", PipeRow(fields), SeparatorRow(fields), rows);
  }

  lemma Regroup(a: string, b: string, c: string, d: string, e: seq<string>)
    ensures [a, b, c, d] + e == [a, b] + ([c, d] + e)
  {
  }

  /** Without sections, the pieces of a table's text are the heading and
      the rows. */
  lemma BareTableLines(table: Table, fields: seq<string>, tick: string, cross: string, h: string, rest: seq<string>)
    requires h == "## `" + table.name + "`"
    requires rest == [PipeRow(fields), SeparatorRow(fields)] + BodyRows(table, fields, tick, cross)
    ensures RenderTable(table, fields, tick, cross, false, false) == RStripChar(Join([h + "\n"] + rest, "\n"), '\n')
  {
    var rows := BodyRows(table, fields, tick, cross);
    var none: seq<string> := [];
    assert TableLines(table, fields, tick, cross, false, false) ==
      [Heading(table.name), PipeRow(fields), SeparatorRow(fields)] + rows + none + none;
    DropEmpty(Heading(table.name), PipeRow(fields), SeparatorRow(fields), rows, none);
    assert Heading(table.name) == h + "\n";
  }

  lemma DropEmpty(a: string, b: string, c: string, d: seq<string>, none: seq<string>)
    requires none == []
    ensures [a, b, c] + d + none + none == [a] + ([b, c] + d)
  {
  }

  /** The rows of a table's text hold no newline, and the last one ends in
      a pipe. */
  lemma RowsAvoidNewline(table: Table, fields: seq<string>, tick: string, cross: string, rest: seq<string>)
    requires forall i :: 0 <= i < |fields| ==> '\n' !in fields[i]
    requires forall k, i :: 0 <= k < |table.columns| && 0 <= i < |fields| ==> '\n' !in FieldValue(table.columns[k], fields[i], tick, cross)
    requires rest == [PipeRow(fields), SeparatorRow(fields)] + BodyRows(table, fields, tick, cross)
    ensures forall i :: 0 <= i < |rest| ==> '\n' !in rest[i]
    ensures var last := rest[|rest| - 1]; last != [] && last[|last| - 1] == '|'
  {
    var rows := BodyRows(table, fields, tick, cross);
    NoNewlineRows(table, fields, tick, cross);
    JoinAvoids(fields, " | ", '\n');
    JoinAvoids(SeparatorCells(fields), "|", '\n');
    forall i | 0 <= i < |rest| ensures '\n' !in rest[i] {
      if i >= 2 {
        assert rest[i] == rows[i - 2];
      }
    }
    if rows != [] {
      assert rest[|rest| - 1] == rows[|rows| - 1];
    }
  }

  /** A heading line followed by newline-free lines, the last of which
      ends in something other than a newline, reads back line by line with
      the blank line the heading's own newline makes. */
  lemma LinesOfText(h: string, rest: seq<string>, lines: seq<string>)
    requires lines == [h + "\n"] + rest
    requires '\n' !in h && |rest| >= 1
    requires forall i :: 0 <= i < |rest| ==> '\n' !in rest[i]
    requires var last := rest[|rest| - 1]; last != [] && last[|last| - 1] != '\n'
    ensures Split(RStripChar(Join(lines, "\n"), '\n'), '\n') == [h, ""] + rest
  {
    var out := [h, ""] + rest;
    HeadingLine(h, rest);
    assert out[|out| - 1] == rest[|rest| - 1];
    NothingStripped(out);
    forall i | 0 <= i < |out| ensures '\n' !in out[i] {
      if i >= 2 {
        assert out[i] == rest[i - 2];
      }
    }
    SplitJoin(out, '\n');
  }

  /** The newline that ends the heading becomes an empty line. */
  lemma HeadingLine(h: string, rest: seq<string>)
    requires |rest| >= 1
    ensures Join([h + "\n"] + rest, "\n") == Join([h, ""] + rest, "\n")
  {
    var tail := Join(rest, "\n");
    JoinAppend([h + "\n"], rest, "\n");
    assert Join([h + "\n"] + rest, "\n") == h + "\n" + "\n" + tail;
    JoinAppend([h, ""], rest, "\n");
    assert [h, ""][1..] == [""];
    assert Join([h, ""], "\n") == h + "\n";
  }

  /** `rstrip` leaves a join alone when its last piece ends in another
      character. */
  lemma NothingStripped(out: seq<string>)
    requires |out| >= 2
    requires var last := out[|out| - 1]; last != [] && last[|last| - 1] != '\n'
    ensures RStripChar(Join(out, "\n"), '\n') == Join(out, "\n")
  {
    var last := out[|out| - 1];
    assert out == out[..|out| - 1] + [last];
    JoinAppend(out[..|out| - 1], [last], "\n");
    var j := Join(out, "\n");
    assert j[|j| - 1] == last[|last| - 1];
  }

  lemma NoNewlineRows(table: Table, fields: seq<string>, tick: string, cross: string)
    requires forall k, i :: 0 <= k < |table.columns| && 0 <= i < |fields| ==> '\n' !in FieldValue(table.columns[k], fields[i], tick, cross)
    ensures forall k :: 0 <= k < |table.columns| ==> '\n' !in BodyRows(table, fields, tick, cross)[k]
  {
    forall k | 0 <= k < |table.columns| ensures '\n' !in BodyRows(table, fields, tick, cross)[k] {
      JoinAvoids(ColumnValues(table.columns[k], fields, tick, cross), " | ", '\n');
    }
  }

  /** `generate_table`: the fields and flags default to the configuration's;
      a name that is not a table of the metadata raises `ValueError`. */
  function GenerateTable(ctx: Context, tablename: string, fields: Option<seq<string>>,
                         showIndexes: Option<bool>, showConstraints: Option<bool>): (r: Result<string>)
    ensures r.Err? <==> tablename !in Names(ctx.metadata)
    ensures r.Ok? ==> StartsWith(r.value, Heading(tablename) + "\n| ")
    ensures r.Ok? ==> r.value[|r.value| - 1] != '\n'
  {
    var style := ctx.pluginConfig.tableStyle;
    var fs := fields.GetOr(style.fields);
    var si := showIndexes.GetOr(ctx.pluginConfig.showIndexes);
    var sc := showConstraints.GetOr(ctx.pluginConfig.showConstraints);
    match Lookup(ctx.metadata, tablename)
    case None => Err("Table '" + tablename + "' not found in metadata")
    case Some(table) =>
      RenderTableStart(table, fs, style.tick, style.cross, si, sc);
      Ok(RenderTable(table, fs, style.tick, style.cross, si, sc))
  }

  /** With unique table names, `generate_table` on a table's own name
      renders that table with the settings it is given or the defaults. */
  lemma GenerateTableRenders(ctx: Context, k: nat, fields: Option<seq<string>>, showIndexes: Option<bool>, showConstraints: Option<bool>)
    requires UniqueNames(ctx.metadata) && k < |ctx.metadata|
    ensures GenerateTable(ctx, ctx.metadata[k].name, fields, showIndexes, showConstraints) ==
      Ok(RenderTable(ctx.metadata[k], fields.GetOr(ctx.pluginConfig.tableStyle.fields),
        ctx.pluginConfig.tableStyle.tick, ctx.pluginConfig.tableStyle.cross,
        showIndexes.GetOr(ctx.pluginConfig.showIndexes), showConstraints.GetOr(ctx.pluginConfig.showConstraints)))
  {
    LookupFindsTable(ctx.metadata, k);
  }

  // ---------------------------------------------------------------------
  // Many tables
  // ---------------------------------------------------------------------

  /** Tables in ascending order of name. */
  predicate SortedByName(ts: seq<Table>) {
    forall i, j :: 0 <= i < j < |ts| ==> LessEq(ts[i].name, ts[j].name)
  }

  /** Inserts `t` before the first table whose name is not smaller. */
  function Insert(t: Table, ts: seq<Table>): (r: seq<Table>)
    requires SortedByName(ts)
    ensures SortedByName(r)
    ensures multiset(r) == multiset(ts) + multiset{t}
  {
    if ts == [] then [t]
    else if LessEq(t.name, ts[0].name) then
      forall j | 0 <= j < |ts| ensures LessEq(t.name, ts[j].name) {
        if j > 0 {
          LessEqTransitive(t.name, ts[0].name, ts[j].name);
        }
      }
      [t] + ts
    else
      LessEqTotal(t.name, ts[0].name);
      var rest := Insert(t, ts[1..]);
      assert ts == [ts[0]] + ts[1..];
      assert forall x :: x in rest ==> x == t || x in ts[1..] by {
        assert forall x :: x in rest ==> x in multiset(rest);
      }
      InsertHead(ts[0], t, ts[1..], rest);
      [ts[0]] + rest
  }

  lemma InsertHead(h: Table, t: Table, tail: seq<Table>, rest: seq<Table>)
    requires SortedByName([h] + tail) && SortedByName(rest) && LessEq(h.name, t.name)
    requires forall x :: x in rest ==> x == t || x in tail
    ensures SortedByName([h] + rest)
  {
    var r := [h] + rest;
    forall i, j | 0 <= i < j < |r| ensures LessEq(r[i].name, r[j].name) {
      if i == 0 {
        assert r[0] == h;
        assert r[j] == rest[j - 1];
        assert r[j] in rest;
        if r[j] != t {
          var m :| 0 <= m < |tail| && tail[m] == r[j];
          var ht := [h] + tail;
          assert ht[0] == h && ht[m + 1] == tail[m];
          assert LessEq(ht[0].name, ht[m + 1].name);
        }
      } else {
        assert r[i] == rest[i - 1] && r[j] == rest[j - 1];
        assert LessEq(rest[i - 1].name, rest[j - 1].name);
      }
    }
  }

  /** `tables.sort(key=lambda t: t.name)`: a stable insertion sort. */
  function SortByName(ts: seq<Table>): (r: seq<Table>)
    ensures SortedByName(r)
    ensures multiset(r) == multiset(ts)
  {
    if ts == [] then []
    else
      assert ts == [ts[0]] + ts[1..];
      Insert(ts[0], SortByName(ts[1..]))
  }

  /** The three checks `generate_tables` applies to each table: the
      include and exclude lists it is given, then the context's filter. */
  predicate Selected(ctx: Context, includeTables: Option<seq<string>>, excludeTables: Option<seq<string>>, name: string) {
    Config.Admits(includeTables, name) && !Config.Bars(excludeTables, name) && ShouldIncludeTable(ctx, name)
  }

  /** The tables `generate_tables` documents, in the order it documents
      them: each table of the metadata that passes all three checks, once,
      sorted by name when `sort_by` is `name` and in metadata order
      otherwise. */
  function SelectedTables(ctx: Context, includeTables: Option<seq<string>>, excludeTables: Option<seq<string>>, sortBy: string): (r: seq<Table>)
    ensures multiset(r) == multiset(Filter(ctx.metadata, (t: Table) => Selected(ctx, includeTables, excludeTables, t.name)))
    ensures forall t :: t in r <==> t in ctx.metadata && Selected(ctx, includeTables, excludeTables, t.name)
    ensures sortBy == "name" ==> SortedByName(r)
    ensures sortBy != "name" ==> Subsequence(r, ctx.metadata)
  {
    var keep := (t: Table) => Selected(ctx, includeTables, excludeTables, t.name);
    var selected := Filter(ctx.metadata, keep);
    FilterSubsequence(ctx.metadata, keep);
    SubsequenceMembers(selected, ctx.metadata);
    forall t | t in ctx.metadata && keep(t) ensures t in selected {
      var i :| 0 <= i < |ctx.metadata| && ctx.metadata[i] == t;
    }
    var r := if sortBy == "name" then SortByName(selected) else selected;
    assert forall t :: t in r <==> t in multiset(r);
    r
  }

  /** The text of each table, as `generate_table` renders it by name with
      the configuration's settings. */
  function TableTexts(ctx: Context, ts: seq<Table>): (r: seq<string>)
    requires forall i :: 0 <= i < |ts| ==> ts[i] in ctx.metadata
    ensures |r| == |ts|
    ensures forall i :: 0 <= i < |ts| ==> Ok(r[i]) == GenerateTable(ctx, ts[i].name, None, None, None)
    ensures forall i :: 0 <= i < |ts| ==> r[i] != [] && r[i][0] == '#' && r[i][|r[i]| - 1] != '\n'
  {
    seq(|ts|, i requires 0 <= i < |ts| => TableText(ctx, ts[i]))
  }

  function TableText(ctx: Context, t: Table): (r: string)
    requires t in ctx.metadata
    ensures Ok(r) == GenerateTable(ctx, t.name, None, None, None)
    ensures r != [] && r[0] == '#' && r[|r| - 1] != '\n'
  {
    var i :| 0 <= i < |ctx.metadata| && ctx.metadata[i] == t;
    assert Names(ctx.metadata)[i] == t.name;
    var r := GenerateTable(ctx, t.name, None, None, None).value;
    assert r[..|Heading(t.name)|] == Heading(t.name);
    r
  }

  /** `generate_tables`: the selected tables rendered with the
      configuration's settings, joined by newlines, trailing newlines
      removed. It documents nothing, and yields the empty text, exactly when
      no table of the metadata passes the checks. */
  function GenerateTables(ctx: Context, includeTables: Option<seq<string>>, excludeTables: Option<seq<string>>, sortBy: string): (r: string)
    ensures r == "" <==> forall i :: 0 <= i < |ctx.metadata| ==> !Selected(ctx, includeTables, excludeTables, ctx.metadata[i].name)
    ensures r == Join(TableTexts(ctx, SelectedTables(ctx, includeTables, excludeTables, sortBy)), "\n")
  {
    var ts := SelectedTables(ctx, includeTables, excludeTables, sortBy);
    var texts := TableTexts(ctx, ts);
    var r := RStripChar(Join(texts, "\n"), '\n');
    GenerateTablesEmpty(ctx, includeTables, excludeTables, ts, texts, r);
    JoinedTextsKept(texts);
    r
  }

  /** No table text ends in a newline, so the `rstrip("\n")` after the join
      removes nothing. */
  lemma JoinedTextsKept(texts: seq<string>)
    requires forall i :: 0 <= i < |texts| ==> texts[i] != [] && texts[i][|texts[i]| - 1] != '\n'
    ensures RStripChar(Join(texts, "\n"), '\n') == Join(texts, "\n")
  {
    if |texts| > 0 {
      JoinLast(texts, "\n");
    }
  }

  lemma GenerateTablesEmpty(ctx: Context, includeTables: Option<seq<string>>, excludeTables: Option<seq<string>>,
                            ts: seq<Table>, texts: seq<string>, r: string)
    requires forall t :: t in ts <==> t in ctx.metadata && Selected(ctx, includeTables, excludeTables, t.name)
    requires |texts| == |ts| && forall i :: 0 <= i < |ts| ==> texts[i] != [] && texts[i][0] == '#'
    requires r == RStripChar(Join(texts, "\n"), '\n')
    ensures r == "" <==> forall i :: 0 <= i < |ctx.metadata| ==> !Selected(ctx, includeTables, excludeTables, ctx.metadata[i].name)
  {
    if ts == [] {
      forall i | 0 <= i < |ctx.metadata| ensures !Selected(ctx, includeTables, excludeTables, ctx.metadata[i].name) {
        assert ctx.metadata[i] !in ts;
      }
    } else {
      assert ts[0] in ts;
      var j := Join(texts, "\n");
      if |texts| > 1 {
        assert texts == [texts[0]] + texts[1..];
        JoinAppend([texts[0]], texts[1..], "\n");
      }
      assert j[0] == texts[0][0];
      assert j[..1] == "#";
      RStripKeepsPrefix(j, "#", '\n');
    }
  }

  /** `generate_single_table`: the tag's `fields` parsed without a fallback
      (so a list naming no valid field renders rows without cells), and the
      tag's flags by truthiness over the configuration's. */
  function GenerateSingleTable(ctx: Context, tableName: string, params: Params): (r: Result<string>)
    ensures r.Err? <==> tableName !in Names(ctx.metadata)
    ensures r.Ok? ==> StartsWith(r.value, Heading(tableName) + "\n| ")
  {
    GenerateTable(ctx, tableName,
      ParseFields(ParamText(params, "fields")),
      Some(Flag(params, "show_indexes", ctx.pluginConfig.showIndexes)),
      Some(Flag(params, "show_constraints", ctx.pluginConfig.showConstraints)))
  }

  /** With unique table names, a single-table tag renders its table with
      the fields its `fields` parameter parses to (the configured fields
      only when it gives none), and each section shown exactly when the
      tag's flag is truthy, or, without the flag, when the configuration
      shows it. */
  lemma SingleTableRenders(ctx: Context, k: nat, params: Params)
    requires UniqueNames(ctx.metadata) && k < |ctx.metadata|
    ensures GenerateSingleTable(ctx, ctx.metadata[k].name, params) ==
      Ok(RenderTable(ctx.metadata[k], ParseFields(ParamText(params, "fields")).GetOr(ctx.pluginConfig.tableStyle.fields),
        ctx.pluginConfig.tableStyle.tick, ctx.pluginConfig.tableStyle.cross,
        Flag(params, "show_indexes", ctx.pluginConfig.showIndexes),
        Flag(params, "show_constraints", ctx.pluginConfig.showConstraints)))
  {
    GenerateTableRenders(ctx, k, ParseFields(ParamText(params, "fields")),
      Some(Flag(params, "show_indexes", ctx.pluginConfig.showIndexes)),
      Some(Flag(params, "show_constraints", ctx.pluginConfig.showConstraints)));
  }

  /** A tag listing valid field names, comma-separated, renders exactly
      those columns of each row, in the order listed. */
  lemma SingleTableListedFields(ctx: Context, k: nat, params: Params, fields: seq<string>)
    requires UniqueNames(ctx.metadata) && k < |ctx.metadata|
    requires |fields| >= 1 && ValidFields(fields)
    requires "fields" in params && params["fields"] == Str(Join(fields, ","))
    ensures GenerateSingleTable(ctx, ctx.metadata[k].name, params) ==
      Ok(RenderTable(ctx.metadata[k], fields, ctx.pluginConfig.tableStyle.tick, ctx.pluginConfig.tableStyle.cross,
        Flag(params, "show_indexes", ctx.pluginConfig.showIndexes),
        Flag(params, "show_constraints", ctx.pluginConfig.showConstraints)))
  {
    ListedFieldsParse(params, fields);
    SingleTableFields(ctx, k, params, fields);
  }

  /** A tag whose `fields` parses to a list renders exactly that list. */
  lemma SingleTableFields(ctx: Context, k: nat, params: Params, fields: seq<string>)
    requires UniqueNames(ctx.metadata) && k < |ctx.metadata|
    requires ParseFields(ParamText(params, "fields")) == Some(fields)
    ensures GenerateSingleTable(ctx, ctx.metadata[k].name, params) ==
      Ok(RenderTable(ctx.metadata[k], fields, ctx.pluginConfig.tableStyle.tick, ctx.pluginConfig.tableStyle.cross,
        Flag(params, "show_indexes", ctx.pluginConfig.showIndexes),
        Flag(params, "show_constraints", ctx.pluginConfig.showConstraints)))
  {
    SingleTableRenders(ctx, k, params);
  }

  /** Unlike the options merge, a single-table tag whose `fields` names no
      valid field (such as `fields="name"`, see `NoValidField`) selects no
      fields rather than keeping the configured ones. */
  lemma SingleTableWithoutValidFields(ctx: Context, k: nat, params: Params)
    requires UniqueNames(ctx.metadata) && k < |ctx.metadata|
    requires ParseFields(ParamText(params, "fields")) == Some([])
    ensures GenerateSingleTable(ctx, ctx.metadata[k].name, params) ==
      Ok(RenderTable(ctx.metadata[k], [], ctx.pluginConfig.tableStyle.tick, ctx.pluginConfig.tableStyle.cross,
        Flag(params, "show_indexes", ctx.pluginConfig.showIndexes),
        Flag(params, "show_constraints", ctx.pluginConfig.showConstraints)))
  {
    SingleTableFields(ctx, k, params, []);
  }

  /** `name` is not a field, so `parse_fields("name")` is the empty list. */
  lemma NoValidField()
    ensures ParseFields(Some("name")) == Some([])
  {
    NameNotKept();
    ParseFieldsKeeps("name", []);
  }

  lemma NameNotKept()
    ensures KeepFieldNames(StrippedPieces("name")) == []
  {
    NoComma("name");
    StripUnchanged("name");
    assert StrippedPieces("name") == ["name"];
    assert !IsFieldName("name");
    FilterEmpty(["name"], IsFieldName);
  }

  /** A text without a comma splits into itself. */
  lemma NoComma(s: string)
    requires ',' !in s
    ensures Split(s, ',') == [s]
  {
    assert IndexOf(s, 0, ',').None?;
  }

  /** The exclude list of `generate_filtered_tables`: the tag's and the
      configuration's lists combined. A list built from a set has no defined
      order, and only membership is ever asked of it, so the combination is
      their concatenation. */
  function FinalExclude(tagExclude: Option<seq<string>>, globalExclude: Option<seq<string>>): (r: Option<seq<string>>)
    ensures forall name :: Config.Bars(r, name) <==> Config.Bars(tagExclude, name) || Config.Bars(globalExclude, name)
    ensures r.None? <==> !Config.Active(tagExclude) && !Config.Active(globalExclude)
  {
    if Config.Active(tagExclude) && Config.Active(globalExclude) then Some(tagExclude.value + globalExclude.value)
    else if Config.Active(tagExclude) then tagExclude
    else if Config.Active(globalExclude) then Some(globalExclude.value)
    else None
  }

  /** The include list of `generate_filtered_tables`: the tag's, if it
      gives one. */
  function FinalInclude(tagInclude: Option<seq<string>>): (r: Option<seq<string>>)
    ensures forall name :: Config.Admits(r, name) <==> Config.Admits(tagInclude, name)
  {
    if Config.Active(tagInclude) then tagInclude else None
  }

  /** The `sort_by` parameter, `name` by default. */
  function SortBy(params: Params): string {
    if "sort_by" in params then PyStr(params["sort_by"]) else "name"
  }

  /** A table passes a multi-table tag when the tag's include list admits
      it, neither the tag's nor the configuration's exclude list bars it,
      and the context's filter keeps it. */
  predicate PassesTag(ctx: Context, params: Params, name: string) {
    && Config.Admits(ParseTableList(ParamText(params, "include")), name)
    && !Config.Bars(ParseTableList(ParamText(params, "exclude")), name)
    && !Config.Bars(ctx.pluginConfig.excludeTables, name)
    && ShouldIncludeTable(ctx, name)
  }

  /** The tables a multi-table tag documents, in the order it documents
      them: exactly the tables of the metadata that pass the tag, each
      once, sorted by name for `sort_by="name"` and in metadata order
      otherwise. */
  function TagTables(ctx: Context, params: Params): (r: seq<Table>)
    ensures forall t :: t in r <==> t in ctx.metadata && PassesTag(ctx, params, t.name)
    ensures SortBy(params) == "name" ==> SortedByName(r)
    ensures SortBy(params) != "name" ==> Subsequence(r, ctx.metadata)
  {
    var incl := FinalInclude(ParseTableList(ParamText(params, "include")));
    var excl := FinalExclude(ParseTableList(ParamText(params, "exclude")), ctx.pluginConfig.excludeTables);
    TagSelection(ctx, params, incl, excl);
    SelectedTables(ctx, incl, excl, SortBy(params))
  }

  /** `generate_filtered_tables`: the tag's `include`, `exclude` and
      `sort_by` applied over the configuration. */
  function GenerateFilteredTables(ctx: Context, params: Params): (r: string)
    ensures r == "" <==> forall i :: 0 <= i < |ctx.metadata| ==> !PassesTag(ctx, params, ctx.metadata[i].name)
    ensures r == Join(TableTexts(ctx, TagTables(ctx, params)), "\n")
  {
    var tagInclude := ParseTableList(ParamText(params, "include"));
    var tagExclude := ParseTableList(ParamText(params, "exclude"));
    var incl := FinalInclude(tagInclude);
    var excl := FinalExclude(tagExclude, ctx.pluginConfig.excludeTables);
    var r := GenerateTables(ctx, incl, excl, SortBy(params));
    TagSelectionEmpty(ctx, params, incl, excl);
    r
  }

  lemma TagSelection(ctx: Context, params: Params, incl: Option<seq<string>>, excl: Option<seq<string>>)
    requires incl == FinalInclude(ParseTableList(ParamText(params, "include")))
    requires excl == FinalExclude(ParseTableList(ParamText(params, "exclude")), ctx.pluginConfig.excludeTables)
    ensures forall name :: Selected(ctx, incl, excl, name) <==> PassesTag(ctx, params, name)
  {
  }

  /** The merged lists select no table of the metadata exactly when no
      table passes the tag. */
  lemma TagSelectionEmpty(ctx: Context, params: Params, incl: Option<seq<string>>, excl: Option<seq<string>>)
    requires incl == FinalInclude(ParseTableList(ParamText(params, "include")))
    requires excl == FinalExclude(ParseTableList(ParamText(params, "exclude")), ctx.pluginConfig.excludeTables)
    ensures (forall i :: 0 <= i < |ctx.metadata| ==> !Selected(ctx, incl, excl, ctx.metadata[i].name))
        <==> (forall i :: 0 <= i < |ctx.metadata| ==> !PassesTag(ctx, params, ctx.metadata[i].name))
  {
    TagSelection(ctx, params, incl, excl);
  }

  /** `generate_content_from_params`: a `table` parameter selects
      single-table mode, which fails exactly when no table has that name;
      without one, the tag documents the filtered tables and never fails. */
  function GenerateContentFromParams(ctx: Context, params: Params): (r: Result<string>)
    ensures r.Err? <==> "table" in params && PyStr(params["table"]) !in Names(ctx.metadata)
    ensures "table" in params && r.Ok? ==> StartsWith(r.value, Heading(PyStr(params["table"])) + "\n| ")
    ensures "table" in params ==> r == GenerateSingleTable(ctx, PyStr(params["table"]), params)
    ensures "table" !in params ==> r == Ok(GenerateFilteredTables(ctx, params))
  {
    if "table" in params then GenerateSingleTable(ctx, PyStr(params["table"]), params)
    else Ok(GenerateFilteredTables(ctx, params))
  }
}
