/** The SQL text compiler of ecs-csv-to-sql.py: a `CREATE TABLE` statement
    with a fixed primary key and one `CHECK ... = ANY (ARRAY[...])`
    constraint per constrained column, the `ALTER TABLE ... OWNER`
    statement, and one multi-row `INSERT`. Everything is text built by
    appending fragments in loops. */
module SqlCompiler {
  import opened Wrappers
  import opened Records
  import opened Text
  import SchemaReader

  /** `f'"{x}"'`: a double-quoted identifier. */
  function Quoted(x: string): string
  {
    "\"" + x + "\""
  }

  function QuotedAll(xs: seq<string>): seq<string>
  {
    seq(|xs|, i requires 0 <= i < |xs| => Quoted(xs[i]))
  }

  // ---------------------------------------------------------------------
  // _add_constraint

  /** The text a constraint starts with: its name and the constrained column. */
  function ConstraintOpen(schema: string, table: string, varname: string): string
  {
    "CONSTRAINT \"" + schema + "_" + table + "_" + varname + "_oneof\"\n\t\tCHECK (\n\t\t\t\""
    + varname + "\" = ANY (ARRAY["
  }

  /** One accepted value of the array. */
  function Item(v: string): string
  {
    "\n\t\t\t'" + v + "'::bpchar"
  }

  const ItemSep: string := ","
  const ArrayClose: string := "\n\t\t]))"

  function Items(values: seq<string>): seq<string>
  {
    seq(|values|, i requires 0 <= i < |values| => Item(values[i]))
  }

  lemma ItemsSnoc(values: seq<string>, v: string)
    ensures Items(values + [v]) == Items(values) + [Item(v)]
  {
  }

  /** The fragments the loop of `_add_constraint` appends for the listed
      values: each value, then a comma, or the closing `]))` after the last. */
  function ConstraintTokens(values: seq<string>): seq<string>
  {
    Separated(Items(values), |values|, ItemSep, ArrayClose)
  }

  /** The distinct values of a column as the f-string renders them, in the
      order the model enumerates `set(...)`. */
  function Accepted(column: seq<Value>): seq<string>
  {
    var d := Distinct(column);
    seq(|d|, i requires 0 <= i < |d| => PyStr(d[i]))
  }

  /** What `_add_constraint(schema, table, varname, data)` returns. */
  function Constraint(schema: string, table: string, varname: string, data: seq<Record>): Result<string>
  {
    var column :- Column(data, varname);
    Ok(ConstraintOpen(schema, table, varname) + Concat(ConstraintTokens(Accepted(column))))
  }

  /** `_add_constraint`. */
  method AddConstraint(schema: string, table: string, varname: string, data: seq<Record>) returns (r: Result<string>)
    ensures r == Constraint(schema, table, varname, data)
  {
    var column := Column(data, varname);
    if column.Err? {
      return Err(column.error);
    }
    var values := Accepted(column.value);
    var text := ConstraintOpen(schema, table, varname);
    text := AppendItems(text, values);
    return Ok(text);
  }

  /** The loop of `_add_constraint` over the accepted values. */
  method AppendItems(head: string, values: seq<string>) returns (text: string)
    ensures text == head + Concat(ConstraintTokens(values))
  {
    text := head;
    var i := 0;
    while i < |values|
      invariant 0 <= i <= |values|
      invariant text == head + Concat(Separated(Items(values[..i]), |values|, ItemSep, ArrayClose))
    {
      ItemStep(values, i);
      AppendTwo(head, Concat(Separated(Items(values[..i]), |values|, ItemSep, ArrayClose)),
                Item(values[i]), if i < |values| - 1 then ItemSep else ArrayClose);
      text := text + Item(values[i]);
      if i < |values| - 1 {
        text := text + ItemSep;
      } else {
        text := text + ArrayClose;
      }
      i := i + 1;
    }
    assert values[..i] == values;
  }

  /** One iteration of `_add_constraint`'s loop appends the value and its
      separator. */
  lemma ItemStep(values: seq<string>, i: nat)
    requires i < |values|
    ensures Concat(Separated(Items(values[..i + 1]), |values|, ItemSep, ArrayClose))
         == Concat(Separated(Items(values[..i]), |values|, ItemSep, ArrayClose))
            + Item(values[i]) + (if i < |values| - 1 then ItemSep else ArrayClose)
  {
    assert values[..i + 1] == values[..i] + [values[i]];
    ItemsSnoc(values[..i], values[i]);
    SeparatedConcatSnoc(Items(values[..i]), Item(values[i]), |values|, ItemSep, ArrayClose);
  }

  lemma ItemInjective(a: string, b: string)
    ensures Item(a) == Item(b) ==> a == b
  {
    if Item(a) == Item(b) {
      assert |a| == |b|;
      assert a == Item(a)[5..5 + |a|] && b == Item(b)[5..5 + |b|];
    }
  }

  /** The constraint names the column it constrains, as
      `<schema>_<table>_<varname>_oneof`, and for `n >= 1` listed values it
      emits exactly `n - 1` commas between them, none before the first, and the
      closing `]))` exactly once, as the final fragment. */
  lemma ConstraintSeparators(values: seq<string>)
    requires |values| >= 1
    ensures ConstraintTokens(values)[0] == Item(values[0])
    ensures Count(ConstraintTokens(values), ItemSep) == |values| - 1
    ensures Count(ConstraintTokens(values), ArrayClose) == 1
    ensures ConstraintTokens(values)[2 * |values| - 1] == ArrayClose
  {
    var its := Items(values);
    assert forall i :: 0 <= i < |its| ==> its[i] != ItemSep && its[i] != ArrayClose by {
      forall i | 0 <= i < |its| ensures its[i] != ItemSep && its[i] != ArrayClose {
        assert its[i][3] == '\t';
      }
    }
    SeparatorCount(its, ItemSep, ArrayClose);
    LastCount(its, ItemSep, ArrayClose);
  }

  /** With no data the array is never closed: the constraint is its opening
      text alone, ending in `ARRAY[`. */
  lemma EmptyDataLeavesArrayOpen(schema: string, table: string, varname: string)
    ensures Constraint(schema, table, varname, []) == Ok(ConstraintOpen(schema, table, varname))
    ensures Constraint(schema, table, varname, []).value[|Constraint(schema, table, varname, []).value| - 6..] == "ARRAY["
  {
    var open := ConstraintOpen(schema, table, varname);
    assert Column([], varname) == Ok([]);
    assert Distinct<Value>([]) == [];
    assert Accepted([]) == [];
    assert ConstraintTokens([]) == [];
    assert Concat([]) == "";
    assert open + "" == open;
  }

  /** For a column of text values, every distinct value of the column is
      listed as `'<v>'::bpchar` exactly once, and nothing else is listed. */
  lemma ConstraintListsEachValueOnce(schema: string, table: string, varname: string, data: seq<Record>)
    requires Column(data, varname).Ok?
    requires forall i :: 0 <= i < |data| ==> Find(data[i], varname).value.Text?
    ensures var column := Column(data, varname).value;
      forall v :: v in column ==> Count(ConstraintTokens(Accepted(column)), Item(PyStr(v))) == 1
    ensures forall k :: 0 <= k < 2 * |Accepted(Column(data, varname).value)| && k % 2 == 0 ==>
      exists v :: v in Column(data, varname).value
        && ConstraintTokens(Accepted(Column(data, varname).value))[k] == Item(PyStr(v))
  {
    var column := Column(data, varname).value;
    var d := Distinct(column);
    var acc := Accepted(column);
    var its := Items(acc);
    assert forall j :: 0 <= j < |d| ==> d[j].Text? by {
      forall j | 0 <= j < |d| ensures d[j].Text? {
        assert d[j] in column;
        var i :| 0 <= i < |column| && column[i] == d[j];
        assert Find(data[i], varname) == Some(column[i]);
      }
    }
    forall v | v in column ensures Count(ConstraintTokens(acc), Item(PyStr(v))) == 1 {
      assert v in d;
      var p :| 0 <= p < |d| && d[p] == v;
      forall i | 0 <= i < |its| && i != p ensures its[i] != its[p] {
        assert d[i] != d[p];
        assert acc[i] == d[i].s && acc[p] == d[p].s;
        ItemInjective(acc[i], acc[p]);
      }
      assert its[p][3] == '\t' && its[p] != ItemSep && its[p] != ArrayClose;
      ItemCount(its, ItemSep, ArrayClose, p);
    }
    forall k | 0 <= k < 2 * |acc| && k % 2 == 0
      ensures exists v :: v in column && ConstraintTokens(acc)[k] == Item(PyStr(v))
    {
      var v := d[k / 2];
      assert v in column;
      assert ConstraintTokens(acc)[k] == its[k / 2] == Item(acc[k / 2]);
      assert ConstraintTokens(acc)[k] == Item(PyStr(v));
    }
    assert column == Column(data, varname).value && acc == Accepted(column);
  }

  // ---------------------------------------------------------------------
  // _make_primary_key and make_sql

  /** `_make_primary_key(fields)`. */
  function MakePrimaryKey(fields: seq<string>): string
  {
    "PRIMARY KEY (" + Join(QuotedAll(fields), ", ") + ")"
  }

  const PrimaryKeyColumns: seq<string> := ["ECS_Version", "Field_Set", "Field", "Type", "Level"]

  /** The primary key `make_sql` emits is the same text whatever the data. */
  lemma PrimaryKeyIsFixed()
    ensures MakePrimaryKey(PrimaryKeyColumns)
         == "PRIMARY KEY (" + (Quoted("ECS_Version") + ", " + Quoted("Field_Set") + ", " + Quoted("Field")
                               + ", " + Quoted("Type") + ", " + Quoted("Level")) + ")"
  {
    var q := QuotedAll(PrimaryKeyColumns);
    assert q == [Quoted("ECS_Version"), Quoted("Field_Set"), Quoted("Field"), Quoted("Type"), Quoted("Level")];
    JoinFive(Quoted("ECS_Version"), Quoted("Field_Set"), Quoted("Field"), Quoted("Type"), Quoted("Level"), ", ");
  }

  function TableOpen(schema: string, table: string): string
  {
    "CREATE TABLE IF NOT EXISTS \"" + schema + "\".\"" + table + "\" ("
  }

  /** The nine column declarations, verbatim. */
  const ColumnDecls: string :=
    "\n"
    + "        \"ECS_Version\" character(16) NOT NULL,\n"
    + "        \"Indexed\" boolean NOT NULL,\n"
    + "        \"Field_Set\" character(16) NOT NULL,\n"
    + "        \"Field\" character(96) NOT NULL,\n"
    + "        \"Type\" character(16) NOT NULL,\n"
    + "        \"Level\" character(16) NOT NULL,\n"
    + "        \"Normalization\" character(16),\n"
    + "        \"Example\" text,\n"
    + "        \"Description\" text,\n"
    + "        "

  const ConstrainedFields: seq<string> := ["Type", "Field_Set", "Level"]

  const TableClose: string := "\n\t);\n\n"

  function AlterOwner(schema: string, table: string, owner: string): string
  {
    "ALTER TABLE IF EXISTS \"" + schema + "\".\"" + table + "\"\n\tOWNER to " + owner + ";"
  }

  /** `_add_constraint` for one column, as a function of the column name. */
  function ConstraintOn(schema: string, table: string, data: seq<Record>): string -> Result<string>
  {
    varname => Constraint(schema, table, varname, data)
  }

  /** The constraints for `fields`, in order; the first that raises wins. */
  function ConstraintsFor(schema: string, table: string, data: seq<Record>, fields: seq<string>): Result<seq<string>>
  {
    Collect(ConstraintOn(schema, table, data), fields)
  }

  /** Each constraint indented on its own line. */
  function Indented(cs: seq<string>): seq<string>
  {
    seq(|cs|, i requires 0 <= i < |cs| => "\n\t" + cs[i])
  }

  /** Everything `make_sql` writes before its first constraint. */
  function TableHead(schema: string, table: string): string
  {
    TableOpen(schema, table) + ColumnDecls + MakePrimaryKey(PrimaryKeyColumns) + ","
  }

  /** The constraints, each indented on its own line and followed by `,\t`,
      the last one by `\t` only. */
  function ConstraintBlock(cs: seq<string>): string
  {
    Concat(Separated(Indented(cs), |cs|, ",\t", "\t"))
  }

  function TableText(schema: string, table: string, owner: string, cs: seq<string>): string
  {
    TableHead(schema, table) + ConstraintBlock(cs)
    + TableClose + AlterOwner(schema, table, owner)
  }

  /** What `make_sql(data, schema, table, owner)` returns. */
  function Table(data: seq<Record>, schema: string, table: string, owner: string): Result<string>
  {
    var cs :- ConstraintsFor(schema, table, data, ConstrainedFields);
    Ok(TableText(schema, table, owner, cs))
  }

  /** `make_sql`. */
  method MakeSql(data: seq<Record>, schema: string, table: string, owner: string) returns (r: Result<string>)
    ensures r == Table(data, schema, table, owner)
  {
    var text := TableOpen(schema, table);
    text := text + ColumnDecls;
    text := text + MakePrimaryKey(PrimaryKeyColumns);
    text := text + ",";
    var withConstraints := AppendConstraints(text, data, schema, table);
    if withConstraints.Err? {
      return Err(withConstraints.error);
    }
    text := withConstraints.value;
    text := text + TableClose;
    text := text + AlterOwner(schema, table, owner);
    return Ok(text);
  }

  /** The loop of `make_sql` over the constrained columns. */
  method AppendConstraints(head: string, data: seq<Record>, schema: string, table: string) returns (r: Result<string>)
    ensures var cs := ConstraintsFor(schema, table, data, ConstrainedFields);
      r == if cs.Err? then Err(cs.error) else Ok(head + ConstraintBlock(cs.value))
  {
    var text := head;
    ghost var cs: seq<string> := [];
    var fields := ConstrainedFields;
    var n := |fields|;
    for i := 0 to n
      invariant ConstraintsFor(schema, table, data, fields[..i]) == Ok(cs)
      invariant |cs| == i
      invariant text == head + Concat(Separated(Indented(cs), n, ",\t", "\t"))
    {
      var t := fields[i];
      LastConstrainedField(i);
      ghost var c0 := Concat(Separated(Indented(cs), n, ",\t", "\t"));
      AppendOne(head, c0, "\n\t");
      text := text + "\n\t";
      var con := AddConstraint(schema, table, t, data);
      if con.Err? {
        CollectFail(ConstraintOn(schema, table, data), fields, i, cs, con.error);
        return Err(con.error);
      }
      AppendOne(head, c0 + "\n\t", con.value);
      text := text + con.value;
      ghost var c1 := c0 + "\n\t" + con.value;
      if t != fields[n - 1] {
        AppendOne(head, c1, ",");
        text := text + ",";
      }
      AppendOne(head, if i < n - 1 then c1 + "," else c1, "\t");
      text := text + "\t";
      TableStep(cs, con.value, n);
      CollectSnoc(ConstraintOn(schema, table, data), fields, i, cs, con.value);
      cs := cs + [con.value];
    }
    assert fields[..n] == fields;
    return Ok(text);
  }

  /** `t != fields[-1]` in `make_sql`'s loop holds for all but the last
      iteration, since the three constrained columns are distinct. */
  lemma LastConstrainedField(i: nat)
    requires i < |ConstrainedFields|
    ensures ConstrainedFields[i] != ConstrainedFields[2] <==> i < 2
  {
  }

  /** One iteration of `make_sql`'s loop appends the indented constraint,
      then `,` unless it is the last, then a tab. */
  lemma TableStep(cs: seq<string>, c: string, n: nat)
    requires |cs| < n
    ensures var c0 := Concat(Separated(Indented(cs), n, ",\t", "\t"));
      Concat(Separated(Indented(cs + [c]), n, ",\t", "\t"))
        == if |cs| < n - 1 then c0 + "\n\t" + c + "," + "\t" else c0 + "\n\t" + c + "\t"
  {
    assert Indented(cs + [c]) == Indented(cs) + ["\n\t" + c];
    SeparatedConcatSnoc(Indented(cs), "\n\t" + c, n, ",\t", "\t");
  }

  /** The layout of the `CREATE TABLE` text: the fixed primary key, then the
      constraints on `Type`, `Field_Set` and `Level` in that order with a
      comma after each but the last, then the closing `);` and after it the
      `ALTER TABLE ... OWNER to <owner>;` statement. A row lacking one of the
      three columns raises `KeyError` for the first of them in that order. */
  lemma MakeSqlLayout(data: seq<Record>, schema: string, table: string, owner: string)
    ensures var ct, cf, cl := Constraint(schema, table, "Type", data), Constraint(schema, table, "Field_Set", data),
                              Constraint(schema, table, "Level", data);
      Table(data, schema, table, owner) ==
        if ct.Err? then Err(ct.error) else if cf.Err? then Err(cf.error) else if cl.Err? then Err(cl.error)
        else Ok(TableHead(schema, table)
                + (("\n\t" + ct.value) + ",\t" + ("\n\t" + cf.value) + ",\t" + ("\n\t" + cl.value) + "\t")
                + TableClose + AlterOwner(schema, table, owner))
  {
    var ct, cf, cl := Constraint(schema, table, "Type", data), Constraint(schema, table, "Field_Set", data),
                      Constraint(schema, table, "Level", data);
    assert ConstrainedFields[0] == "Type" && ConstrainedFields[1] == "Field_Set" && ConstrainedFields[2] == "Level";
    ConstraintsForThree(schema, table, data, ConstrainedFields);
    if ct.Ok? && cf.Ok? && cl.Ok? {
      TableTextThree(schema, table, owner, ct.value, cf.value, cl.value);
    }
  }

  lemma TableTextThree(schema: string, table: string, owner: string, a: string, b: string, c: string)
    ensures TableText(schema, table, owner, [a, b, c])
         == TableHead(schema, table) + (("\n\t" + a) + ",\t" + ("\n\t" + b) + ",\t" + ("\n\t" + c) + "\t")
            + TableClose + AlterOwner(schema, table, owner)
  {
    var sep := Separated(Indented([a, b, c]), 3, ",\t", "\t");
    assert sep == ["\n\t" + a, ",\t", "\n\t" + b, ",\t", "\n\t" + c, "\t"];
    ConcatSix("\n\t" + a, ",\t", "\n\t" + b, ",\t", "\n\t" + c, "\t");
  }

  lemma ConstraintsForThree(schema: string, table: string, data: seq<Record>, fields: seq<string>)
    requires |fields| == 3
    ensures var c0, c1, c2 := Constraint(schema, table, fields[0], data), Constraint(schema, table, fields[1], data),
                              Constraint(schema, table, fields[2], data);
      ConstraintsFor(schema, table, data, fields) ==
        if c0.Err? then Err(c0.error) else if c1.Err? then Err(c1.error) else if c2.Err? then Err(c2.error)
        else Ok([c0.value, c1.value, c2.value])
  {
    var c0, c1, c2 := Constraint(schema, table, fields[0], data), Constraint(schema, table, fields[1], data),
                      Constraint(schema, table, fields[2], data);
    var f := ConstraintOn(schema, table, data);
    assert fields[..0] == [] && fields[..3] == fields;
    if c0.Err? {
      CollectFail(f, fields, 0, [], c0.error);
    } else {
      CollectSnoc(f, fields, 0, [], c0.value);
      assert [] + [c0.value] == [c0.value];
      if c1.Err? {
        CollectFail(f, fields, 1, [c0.value], c1.error);
      } else {
        CollectSnoc(f, fields, 1, [c0.value], c1.value);
        assert [c0.value] + [c1.value] == [c0.value, c1.value];
        if c2.Err? {
          CollectFail(f, fields, 2, [c0.value, c1.value], c2.error);
        } else {
          CollectSnoc(f, fields, 2, [c0.value, c1.value], c2.value);
          assert [c0.value, c1.value] + [c2.value] == [c0.value, c1.value, c2.value];
        }
      }
    }
  }

  // ---------------------------------------------------------------------
  // make_sql_preload

  /** The columns of the `INSERT`, in order. */
  const Fields: seq<string> := SchemaReader.EcsColumns

  /** The literal `make_sql_preload` writes for one value: `NULL`, `'true'`,
      `'false'`, or the text in single quotes with every `'` taken out. */
  function Render(v: Value): string
  {
    match v
    case Absent => "NULL"
    case Flag(b) => if b then "'true'" else "'false'"
    case Text(s) => if '\'' in s then "'" + Without(s, '\'') + "'" else "'" + s + "'"
  }

  /** Every rendered value is `NULL` or one single-quoted literal with no
      quote inside, so no value can end the literal early; text loses exactly
      its quotes, and the boolean is written as `'true'` or `'false'`. */
  lemma RenderIsOneLiteral(v: Value)
    ensures v.Absent? <==> Render(v) == "NULL"
    ensures v.Flag? ==> Render(v) == if v.b then "'true'" else "'false'"
    ensures v.Text? ==> Render(v) == "'" + Without(v.s, '\'') + "'"
    ensures v.Text? && '\'' !in v.s ==> Render(v) == "'" + v.s + "'"
    ensures !v.Absent? ==>
      |Render(v)| >= 2 && Render(v)[0] == '\'' && Render(v)[|Render(v)| - 1] == '\''
      && '\'' !in Render(v)[1..|Render(v)| - 1]
  {
    if v.Text? {
      var t := Without(v.s, '\'');
      assert Render(v)[1..|Render(v)| - 1] == t;
    } else if v.Flag? {
      assert Render(v)[1..|Render(v)| - 1] == if v.b then "true" else "false";
    }
  }

  /** The `prepped` dict of one row, filled from its items in order. */
  function Prepare(d: Record): map<string, string>
  {
    if d == [] then map[]
    else Prepare(d[..|d| - 1])[d[|d| - 1].key := Render(d[|d| - 1].val)]
  }

  /** `prepped` has exactly the row's keys, each mapped to the rendering of
      its value. */
  lemma {:induction false} PrepareSpec(d: Record)
    requires UniqueKeys(d)
    ensures forall k :: k in Prepare(d) <==> Find(d, k).Some?
    ensures forall k :: k in Prepare(d) ==> Prepare(d)[k] == Render(Find(d, k).value)
  {
    if d != [] {
      var n := |d| - 1;
      var init := d[..n];
      var e := d[n];
      assert d == init + [e];
      PrepareSpec(init);
      FindAt(d, n);
      forall k | k != e.key ensures Find(d, k) == Find(init, k) {
        FindSnoc(init, e, k);
      }
    }
  }

  /** `[prepped[x] for x in fields]`, raising on the first missing key. */
  function Pick(m: map<string, string>, fs: seq<string>): (r: Result<seq<string>>)
    ensures r.Ok? <==> forall i :: 0 <= i < |fs| ==> fs[i] in m
    ensures r.Ok? ==> |r.value| == |fs| && forall i :: 0 <= i < |fs| ==> r.value[i] == m[fs[i]]
    ensures r.Err? ==> exists i :: 0 <= i < |fs| && fs[i] !in m && r.error == KeyError(fs[i])
                                 && forall j :: 0 <= j < i ==> fs[j] in m
  {
    if fs == [] then Ok([])
    else if fs[0] !in m then Err(KeyError(fs[0]))
    else
      var rest :- Pick(m, fs[1..]);
      assert forall i :: 1 <= i < |fs| ==> fs[i] == fs[1..][i - 1];
      Ok([m[fs[0]]] + rest)
  }

  /** The parenthesised tuple of one row. */
  function Tuple(d: Record): Result<string>
  {
    var parts :- Pick(Prepare(d), Fields);
    Ok("(" + Join(parts, ", ") + ")")
  }

  /** The tuple holds the row's nine values rendered in the fixed column
      order; a row lacking one of the nine columns raises `KeyError`. */
  lemma TupleInFieldOrder(d: Record)
    requires UniqueKeys(d)
    ensures Tuple(d).Ok? <==> forall i :: 0 <= i < |Fields| ==> Find(d, Fields[i]).Some?
    ensures Tuple(d).Ok? ==>
      Tuple(d).value == "(" + Join(seq(|Fields|, i requires 0 <= i < |Fields| => Render(Find(d, Fields[i]).value)), ", ") + ")"
    ensures Tuple(d).Err? ==> exists i :: 0 <= i < |Fields| && Find(d, Fields[i]).None? && Tuple(d).error == KeyError(Fields[i])
                                          && forall j :: 0 <= j < i ==> Find(d, Fields[j]).Some?
  {
    PrepareSpec(d);
    var p := Pick(Prepare(d), Fields);
    if p.Ok? {
      assert p.value == seq(|Fields|, i requires 0 <= i < |Fields| => Render(Find(d, Fields[i]).value));
    }
  }

  /** The tuples of all rows; the first row that raises wins. */
  function Tuples(data: seq<Record>): Result<seq<string>>
  {
    Collect(Tuple, data)
  }

  function InsertHead(schema: string, table: string): string
  {
    "\n\nINSERT INTO \"" + schema + "\".\"" + table + "\"\n\t(\n\t\t"
    + Join(QuotedAll(Fields), ", ") + "\n\t)\n\t\tVALUES\n\t\t"
  }

  const TupleSep: string := ",\n\t\t"
  const TupleEnd: string := "\n\t\t"

  /** The `INSERT` text around the given tuples: each tuple followed by a
      comma and a line break, the last one by the line break only, then `;`. */
  function InsertText(schema: string, table: string, tuples: seq<string>): string
  {
    InsertHead(schema, table) + Concat(Separated(tuples, |tuples|, TupleSep, TupleEnd)) + ";"
  }

  /** What `make_sql_preload(data, schema, table, owner)` returns. */
  function Preload(data: seq<Record>, schema: string, table: string): Result<string>
  {
    var ts :- Tuples(data);
    Ok(InsertText(schema, table, ts))
  }

  /** One iteration of `make_sql_preload`'s loop appends the tuple, then
      `,` unless it is the last, then a line break. */
  lemma TupleStep(ts: seq<string>, t: string, n: nat)
    requires |ts| < n
    ensures var c0 := Concat(Separated(ts, n, TupleSep, TupleEnd));
      Concat(Separated(ts + [t], n, TupleSep, TupleEnd))
        == if |ts| < n - 1 then c0 + t + "," + "\n\t\t" else c0 + t + "\n\t\t"
  {
    SeparatedConcatSnoc(ts, t, n, TupleSep, TupleEnd);
  }

  /** The `INSERT` statement holds one tuple per row, in row order, each
      starting with `(`; for at least one row, exactly `|data| - 1` commas
      separate them and the last is followed by the line break alone, and
      the statement ends with `;`. With no rows, `VALUES` is followed by the
      line break and `;` only. */
  lemma PreloadLayout(data: seq<Record>, schema: string, table: string)
    requires Tuples(data).Ok?
    ensures var ts := Tuples(data).value;
      |ts| == |data| && forall i :: 0 <= i < |data| ==> Tuple(data[i]) == Ok(ts[i]) && ts[i][0] == '('
    ensures var ts := Tuples(data).value;
      Preload(data, schema, table) == Ok(InsertHead(schema, table) + Concat(Separated(ts, |ts|, TupleSep, TupleEnd)) + ";")
    ensures var ts := Tuples(data).value;
      |ts| >= 1 ==>
        Count(Separated(ts, |ts|, TupleSep, TupleEnd), TupleSep) == |ts| - 1
        && Count(Separated(ts, |ts|, TupleSep, TupleEnd), TupleEnd) == 1
        && Separated(ts, |ts|, TupleSep, TupleEnd)[2 * |ts| - 1] == TupleEnd
    ensures var text := Preload(data, schema, table).value; text[|text| - 1] == ';'
    ensures data == [] ==> Preload(data, schema, table) == Ok(InsertHead(schema, table) + ";")
  {
    var ts := Tuples(data).value;
    CollectSpec(Tuple, data);
    forall i | 0 <= i < |data| ensures ts[i][0] == '(' {
      assert Tuple(data[i]) == Ok(ts[i]);
    }
    if |ts| >= 1 {
      assert TupleSep[0] == ',' && TupleEnd[0] == '\n';
      SeparatorCount(ts, TupleSep, TupleEnd);
      LastCount(ts, TupleSep, TupleEnd);
    }
    if data == [] {
      assert Separated(ts, 0, TupleSep, TupleEnd) == [];
      assert InsertHead(schema, table) + Concat([]) == InsertHead(schema, table);
    }
  }

  /** The inner loop of `make_sql_preload` for one row: fill `prepped` from
      the row's items, then join the values of the nine columns. */
  method PrepRow(d: Record) returns (r: Result<string>)
    ensures r == Tuple(d)
  {
    var prepped: map<string, string> := map[];
    for i := 0 to |d|
      invariant prepped == Prepare(d[..i])
    {
      assert d[..i + 1][..i] == d[..i] && d[..i + 1][i] == d[i];
      var v := d[i].val;
      if v.Absent? {
        prepped := prepped[d[i].key := "NULL"];
      } else if v == Flag(true) {
        prepped := prepped[d[i].key := "'true'"];
      } else if v == Flag(false) {
        prepped := prepped[d[i].key := "'false'"];
      } else if '\'' in v.s {
        prepped := prepped[d[i].key := "'" + Without(v.s, '\'') + "'"];
      } else {
        prepped := prepped[d[i].key := "'" + v.s + "'"];
      }
    }
    assert d[..|d|] == d;
    var parts :- Pick(prepped, Fields);
    var stmt := Join(parts, ", ");
    r := Ok("(" + stmt + ")");
  }

  /** `make_sql_preload`. */
  method MakeSqlPreload(data: seq<Record>, schema: string, table: string) returns (r: Result<string>)
    ensures r == Preload(data, schema, table)
  {
    var text := InsertHead(schema, table);
    ghost var head := text;
    ghost var ts: seq<string> := [];
    var n := |data|;
    for i := 0 to n
      invariant Tuples(data[..i]) == Ok(ts)
      invariant text == head + Concat(Separated(ts, n, TupleSep, TupleEnd))
    {
      var t := PrepRow(data[i]);
      if t.Err? {
        CollectFail(Tuple, data, i, ts, t.error);
        return Err(t.error);
      }
      ghost var c0 := Concat(Separated(ts, n, TupleSep, TupleEnd));
      AppendOne(head, c0, t.value);
      text := text + t.value;
      if i < n - 1 {
        AppendOne(head, c0 + t.value, ",");
        text := text + ",";
      }
      AppendOne(head, if i < n - 1 then c0 + t.value + "," else c0 + t.value, "\n\t\t");
      text := text + "\n\t\t";
      TupleStep(ts, t.value, n);
      CollectSnoc(Tuple, data, i, ts, t.value);
      ts := ts + [t.value];
    }
    assert data[..n] == data;
    text := text + ";";
    return Ok(text);
  }
}
