/** The schema metadata the renderer reads, as plain datatypes standing for
    the SQLAlchemy tables, columns, indexes and constraints it inspects. */
module Schema {
  import opened Wrappers

  /** What a column default wraps: a callable, shown by its name, or a
      plain value, shown by its `str`. */
  datatype DefaultArg = Callable(name: string) | Value(repr: string)

  /** `column.default`: absent, an object with an `arg`, or any other
      object, shown by its `str`. */
  datatype ColumnDefault = NoDefault | Wrapped(arg: DefaultArg) | Raw(repr: string)

  /** A foreign key, by the table and the column it points to. */
  datatype ForeignKey = ForeignKey(table: string, column: string)

  /** A column; `typeName` is `str(column.type)`. */
  datatype Column = Column(
    name: string,
    typeName: string,
    nullable: bool,
    primaryKey: bool,
    unique: bool,
    default: ColumnDefault,
    foreignKeys: seq<ForeignKey>)

  /** An index and the names of its columns. An unnamed index is allowed;
      its name shows as `None`. */
  datatype Index = Index(name: Option<string>, columns: seq<string>)

  /** A constraint: its optional name and the name of its class, such as
      `PrimaryKeyConstraint`. */
  datatype Constraint = Constraint(name: Option<string>, kind: string)

  datatype Table = Table(name: string, columns: seq<Column>, indexes: seq<Index>, constraints: seq<Constraint>)

  /** `metadata.sorted_tables`. The model takes `metadata.tables` to hold
      the same tables keyed by their names. That is SQLAlchemy's key for a
      table without a schema; a table with one is keyed `schema.name`. */
  type Metadata = seq<Table>

  function Names(md: Metadata): (r: seq<string>)
    ensures |r| == |md| && forall i :: 0 <= i < |md| ==> r[i] == md[i].name
  {
    seq(|md|, i requires 0 <= i < |md| => md[i].name)
  }

  /** No two tables share a name. SQLAlchemy keeps the keys of one
      metadata distinct, and these are the names when no table has a
      schema. */
  predicate UniqueNames(md: Metadata) {
    forall i, j :: 0 <= i < j < |md| ==> md[i].name != md[j].name
  }

  /** `metadata.tables.get(name)`: the table of that name, if any. */
  function Lookup(md: Metadata, name: string): (r: Option<Table>)
    ensures r.Some? <==> name in Names(md)
    ensures r.Some? ==> r.value in md && r.value.name == name
  {
    if |md| == 0 then None
    else if md[0].name == name then Some(md[0])
    else
      var r := Lookup(md[1..], name);
      assert Names(md) == [md[0].name] + Names(md[1..]);
      r
  }

  /** With unique names, looking up a table's own name finds that table. */
  lemma {:induction false} LookupFindsTable(md: Metadata, k: nat)
    requires UniqueNames(md) && k < |md|
    ensures Lookup(md, md[k].name) == Some(md[k])
  {
    if k > 0 {
      assert md[0].name != md[k].name;
      assert md[1..][k - 1] == md[k];
      LookupFindsTable(md[1..], k - 1);
    }
  }
}
