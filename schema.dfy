/**
 * `get_database_schema` and the schema text handed to the language model.
 *
 * The catalog is given as data instead of a cursor: the rows of the
 * `sqlite_master` table listing, each with the rows `PRAGMA table_info(<name>)`
 * returned for it. A query that raised is `None`. The schema is Python's
 * insertion-ordered dict, kept as an association list.
 */
module Schema {
  import opened Wrappers
  import opened Strings

  /** A result row of a catalog query, field by field. */
  type Row = seq<string>

  /**
   * One row of the table listing, and the result of the `PRAGMA table_info`
   * query run for it (`None` when that query raised).
   */
  datatype CatalogEntry = CatalogEntry(table: Row, columns: Option<seq<Row>>)

  /** One key of the schema dict and its column list. */
  datatype TableColumns = TableColumns(name: string, columns: seq<string>)

  /** The schema dict, in insertion order. */
  type SchemaDict = seq<TableColumns>

  function Keys(s: SchemaDict): seq<string>
    decreases |s|
  {
    if s == [] then [] else [s[0].name] + Keys(s[1..])
  }

  predicate Distinct(xs: seq<string>) {
    forall i, j :: 0 <= i < j < |xs| ==> xs[i] != xs[j]
  }

  /** `d.get(k)`. */
  function Lookup(s: SchemaDict, k: string): (r: Option<seq<string>>)
    ensures r.Some? <==> k in Keys(s)
    decreases |s|
  {
    if s == [] then None
    else if s[0].name == k then Some(s[0].columns)
    else Lookup(s[1..], k)
  }

  /**
   * `d[k] = v`: a new key goes to the end, an existing key keeps its place
   * and gets the new value, every other key keeps its value.
   */
  function Assign(s: SchemaDict, k: string, v: seq<string>): (r: SchemaDict)
    ensures Keys(r) == if k in Keys(s) then Keys(s) else Keys(s) + [k]
    ensures Lookup(r, k) == Some(v)
    ensures forall k' :: k' != k ==> Lookup(r, k') == Lookup(s, k')
    decreases |s|
  {
    if s == [] then [TableColumns(k, v)]
    else if s[0].name == k then [TableColumns(k, v)] + s[1..]
    else [s[0]] + Assign(s[1..], k, v)
  }

  /** Assigning a key twice is assigning it once, with the second value. */
  lemma {:induction false} AssignTwice(s: SchemaDict, k: string, a: seq<string>, b: seq<string>)
    ensures Assign(Assign(s, k, a), k, b) == Assign(s, k, b)
    decreases |s|
  {
    if s != [] && s[0].name != k {
      AssignTwice(s[1..], k, a, b);
    }
  }

  predicate AllHaveField1(rows: seq<Row>) {
    forall j :: 0 <= j < |rows| ==> |rows[j]| >= 2
  }

  /** The listing row has field 0, the PRAGMA query ran and every PRAGMA row has field 1. */
  predicate Readable(e: CatalogEntry) {
    |e.table| >= 1 && e.columns.Some? && AllHaveField1(e.columns.value)
  }

  /** Every entry is `Readable`. */
  predicate AllReadable(es: seq<CatalogEntry>) {
    forall i :: 0 <= i < |es| ==> Readable(es[i])
  }

  /** Field 1 (the column name) of every PRAGMA row, in row order. */
  function Field1(rows: seq<Row>): seq<string>
    requires AllHaveField1(rows)
  {
    seq(|rows|, j requires 0 <= j < |rows| => rows[j][1])
  }

  /** The names in a table listing whose rows all have field 0. */
  function TableNames(es: seq<CatalogEntry>): seq<string>
    requires AllReadable(es)
  {
    seq(|es|, i requires 0 <= i < |es| => es[i].table[0])
  }

  /** One iteration of the outer loop on a copy of the dict; `None` when it raises. */
  function Step(s: SchemaDict, e: CatalogEntry): Option<SchemaDict> {
    if !Readable(e) then None
    else Some(Assign(s, e.table[0], Field1(e.columns.value)))
  }

  /** The outer loop run from dict `s` over the remaining listing rows `es`. */
  function BuildFrom(s: SchemaDict, es: seq<CatalogEntry>): Option<SchemaDict>
    decreases |es|
  {
    if es == [] then Some(s)
    else match Step(s, es[0])
      case None => None
      case Some(s') => BuildFrom(s', es[1..])
  }

  /** What `get_database_schema` returns for a catalog. */
  function BuildSchema(catalog: Option<seq<CatalogEntry>>): Option<SchemaDict> {
    match catalog
    case None => None
    case Some(es) => BuildFrom([], es)
  }

  /**
   * `get_database_schema`: the nested loops that fill the dict, with every
   * exception turned into `None`.
   */
  method GetDatabaseSchema(catalog: Option<seq<CatalogEntry>>) returns (schema: Option<SchemaDict>)
    ensures schema == BuildSchema(catalog)
  {
    if catalog.None? {
      return None;
    }
    var tables := catalog.value;
    var s: SchemaDict := [];
    var i := 0;
    while i < |tables|
      invariant 0 <= i <= |tables|
      invariant BuildFrom([], tables) == BuildFrom(s, tables[i..])
    {
      BuildFromAt(s, tables, i);
      var table := tables[i].table;
      if |table| == 0 {
        assert !Readable(tables[i]);
        return None;
      }
      var name := table[0];
      ghost var before := s;
      s := Assign(s, name, []);
      if tables[i].columns.None? {
        assert !Readable(tables[i]);
        return None;
      }
      var rows := tables[i].columns.value;
      var j := 0;
      assert Field1(rows[..0]) == [];
      while j < |rows|
        invariant 0 <= j <= |rows|
        invariant AllHaveField1(rows[..j])
        invariant s == Assign(before, name, Field1(rows[..j]))
      {
        if |rows[j]| < 2 {
          assert !AllHaveField1(rows);
          assert !Readable(tables[i]);
          return None;
        }
        var current := Lookup(s, name);
        AppendColumn(before, name, rows, j);
        s := Assign(s, name, current.value + [rows[j][1]]);
        j := j + 1;
      }
      assert rows[..j] == rows;
      i := i + 1;
    }
    return Some(s);
  }

  /** The outer loop from position `i`: one `Step`, then the rest. */
  lemma BuildFromAt(s: SchemaDict, es: seq<CatalogEntry>, i: nat)
    requires i < |es|
    ensures BuildFrom(s, es[i..]) ==
      if Step(s, es[i]).None? then None else BuildFrom(Step(s, es[i]).value, es[i + 1..])
  {
    assert es[i..][0] == es[i];
    assert es[i..][1..] == es[i + 1..];
  }

  /** One iteration of the inner loop: appending field 1 of row `j` to the columns gathered so far. */
  lemma AppendColumn(before: SchemaDict, name: string, rows: seq<Row>, j: nat)
    requires j < |rows| && |rows[j]| >= 2 && AllHaveField1(rows[..j])
    ensures AllHaveField1(rows[..j + 1])
    ensures Field1(rows[..j + 1]) == Field1(rows[..j]) + [rows[j][1]]
    ensures Assign(Assign(before, name, Field1(rows[..j])), name, Field1(rows[..j]) + [rows[j][1]])
         == Assign(before, name, Field1(rows[..j + 1]))
  {
    AssignTwice(before, name, Field1(rows[..j]), Field1(rows[..j]) + [rows[j][1]]);
    assert rows[..j + 1][..j] == rows[..j];
    assert Field1(rows[..j + 1]) == Field1(rows[..j]) + [rows[j][1]];
  }

  /** The schema is built exactly when every catalog query and every field access succeeds. */
  lemma {:induction false} BuildFromSucceeds(s: SchemaDict, es: seq<CatalogEntry>)
    ensures BuildFrom(s, es).Some? <==> AllReadable(es)
    decreases |es|
  {
    if es != [] {
      AllReadableCons(es);
      if Step(s, es[0]).Some? {
        BuildFromSucceeds(Step(s, es[0]).value, es[1..]);
      }
    }
  }

  lemma AllReadableCons(es: seq<CatalogEntry>)
    requires es != []
    ensures AllReadable(es) <==> Readable(es[0]) && AllReadable(es[1..])
  {
    if Readable(es[0]) && AllReadable(es[1..]) {
      forall i | 1 <= i < |es|
        ensures Readable(es[i])
      {
        assert es[i] == es[1..][i - 1];
      }
    }
  }

  /**
   * A failure anywhere in reading the catalog gives `None`, never a partial
   * dict; with no failure there is a dict.
   */
  lemma BuildSchemaSucceeds(catalog: Option<seq<CatalogEntry>>)
    ensures BuildSchema(catalog).Some? <==>
              catalog.Some? && AllReadable(catalog.value)
  {
    if catalog.Some? {
      BuildFromSucceeds([], catalog.value);
    }
  }

  /** The distinct elements of `xs` in order of first occurrence, appended to `acc`. */
  function DedupInto(acc: seq<string>, xs: seq<string>): seq<string>
    decreases |xs|
  {
    if xs == [] then acc
    else DedupInto(if xs[0] in acc then acc else acc + [xs[0]], xs[1..])
  }

  function Dedup(xs: seq<string>): seq<string> {
    DedupInto([], xs)
  }

  lemma {:induction false} DedupIntoSpec(acc: seq<string>, xs: seq<string>)
    requires Distinct(acc)
    ensures Distinct(DedupInto(acc, xs))
    ensures forall x :: x in DedupInto(acc, xs) <==> x in acc || x in xs
    decreases |xs|
  {
    if xs != [] {
      var acc' := if xs[0] in acc then acc else acc + [xs[0]];
      DedupIntoSpec(acc', xs[1..]);
      assert xs == [xs[0]] + xs[1..];
    }
  }

  /** `Dedup` has no repeats and holds exactly the elements of its input. */
  lemma DedupSpec(xs: seq<string>)
    ensures Distinct(Dedup(xs))
    ensures forall x :: x in Dedup(xs) <==> x in xs
  {
    DedupIntoSpec([], xs);
  }

  lemma {:induction false} BuildFromKeys(s: SchemaDict, es: seq<CatalogEntry>)
    requires AllReadable(es)
    ensures BuildFrom(s, es).Some?
    ensures Keys(BuildFrom(s, es).value) == DedupInto(Keys(s), TableNames(es))
    decreases |es|
  {
    if es != [] {
      var s' := Step(s, es[0]).value;
      BuildFromKeys(s', es[1..]);
      assert TableNames(es)[1..] == TableNames(es[1..]);
    }
  }

  /**
   * The keys of the schema are the table names of the listing in catalog
   * order, a repeated name keeping the place of its first occurrence; so the
   * keys are distinct and are exactly the listed names.
   */
  lemma BuildSchemaKeys(es: seq<CatalogEntry>)
    requires AllReadable(es)
    ensures BuildSchema(Some(es)).Some?
    ensures Keys(BuildSchema(Some(es)).value) == Dedup(TableNames(es))
    ensures Distinct(Keys(BuildSchema(Some(es)).value))
    ensures forall t :: t in Keys(BuildSchema(Some(es)).value) <==> t in TableNames(es)
  {
    BuildFromKeys([], es);
    DedupSpec(TableNames(es));
  }

  /** Tables the remaining listing does not name keep their columns. */
  lemma {:induction false} BuildFromKeepsOthers(s: SchemaDict, es: seq<CatalogEntry>, t: string)
    requires AllReadable(es)
    requires forall i :: 0 <= i < |es| ==> es[i].table[0] != t
    ensures BuildFrom(s, es).Some?
    ensures Lookup(BuildFrom(s, es).value, t) == Lookup(s, t)
    decreases |es|
  {
    if es != [] {
      BuildFromKeepsOthers(Step(s, es[0]).value, es[1..], t);
    }
  }

  lemma {:induction false} BuildFromColumns(s: SchemaDict, es: seq<CatalogEntry>, k: nat)
    requires AllReadable(es)
    requires k < |es|
    requires forall m :: k < m < |es| ==> es[m].table[0] != es[k].table[0]
    ensures BuildFrom(s, es).Some?
    ensures Lookup(BuildFrom(s, es).value, es[k].table[0]) == Some(Field1(es[k].columns.value))
    decreases |es|
  {
    var s' := Step(s, es[0]).value;
    if k == 0 {
      BuildFromKeepsOthers(s', es[1..], es[0].table[0]);
    } else {
      BuildFromColumns(s', es[1..], k - 1);
    }
  }

  /**
   * Each table's column list is field 1 of its PRAGMA rows in row order; when
   * a name is listed more than once, the list is reset and refilled, so the
   * last listing of the name decides it.
   */
  lemma BuildSchemaColumns(es: seq<CatalogEntry>, k: nat)
    requires AllReadable(es)
    requires k < |es|
    requires forall m :: k < m < |es| ==> es[m].table[0] != es[k].table[0]
    ensures BuildSchema(Some(es)).Some?
    ensures Lookup(BuildSchema(Some(es)).value, es[k].table[0]) == Some(Field1(es[k].columns.value))
    ensures |Field1(es[k].columns.value)| == |es[k].columns.value|
    ensures forall j :: 0 <= j < |es[k].columns.value| ==>
              Field1(es[k].columns.value)[j] == es[k].columns.value[j][1]
  {
    BuildFromColumns([], es, k);
  }

  /** One line of the schema text. */
  function TableLine(t: TableColumns): string {
    "Table: " + t.name + ", Columns: " + Join(", ", t.columns)
  }

  function TableLines(s: SchemaDict): seq<string> {
    seq(|s|, i requires 0 <= i < |s| => TableLine(s[i]))
  }

  /** The schema text given to the model: the table lines joined with "\n". */
  function Serialize(s: SchemaDict): string {
    Join("\n", TableLines(s))
  }

  /** No line break in any table or column name. */
  predicate SingleLineNames(s: SchemaDict) {
    forall i :: 0 <= i < |s| ==> '\n' !in s[i].name && forall j :: 0 <= j < |s[i].columns| ==> '\n' !in s[i].columns[j]
  }

  /**
   * The schema text has exactly one line per table, in dict order, with no
   * trailing line break: line i is "Table: <name>, Columns: " followed by
   * the column names joined with ", " (nothing for a table without columns).
   * An empty schema gives empty text.
   */
  lemma SerializeLines(s: SchemaDict)
    requires SingleLineNames(s)
    ensures s == [] ==> Serialize(s) == ""
    ensures s != [] ==> |Split(Serialize(s), "\n")| == |s|
    ensures s != [] ==> forall i :: 0 <= i < |s| ==>
              Split(Serialize(s), "\n")[i] == "Table: " + s[i].name + ", Columns: " + Join(", ", s[i].columns)
  {
    var lines := TableLines(s);
    forall i | 0 <= i < |s|
      ensures '\n' !in lines[i]
    {
      JoinAvoids(", ", s[i].columns, '\n');
    }
    if s != [] {
      SplitJoin(lines, '\n');
    }
  }
}
