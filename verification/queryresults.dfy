/** query: the checks made before a query runs and the shape of the rows
    it hands back. Translating the query to SQL is not part of this
    model: the rows that SQL selects are a parameter. */
module QueryResults {
  import opened Wrappers
  import opened Text
  import opened OrderedMaps
  import opened Codec
  import opened Schema
  import opened Sessions

  /** The source of a query: one selector on a node type, or a join. */
  datatype Source = Selector(nodeTypeName: string, selectorName: Option<string>) | Join

  /** A requested column: a property name and the selector it is read from. */
  datatype Column = Column(propertyName: string, selectorName: Option<string>)

  datatype QomQuery = QomQuery(source: Source, columns: seq<Column>)

  /** A query object, or a JCR-SQL2 statement with what parsing it gives
      (None when it does not parse). */
  datatype Query = Qom(qom: QomQuery) | Sql2(statement: string, parsed: Option<QomQuery>)

  /** The value of one result cell. */
  datatype CellValue = PathText(s: string) | Score(n: int) | Field(e: Entry) | Absent

  /** One entry of a result row: dcr:name, dcr:value, dcr:selectorName. */
  datatype Cell = Cell(name: string, value: CellValue, selectorName: string)

  /** The query object: one given as such, else the parsed statement. */
  function Parse(q: Query): (r: Result<QomQuery>)
    ensures r.Err? <==> q.Sql2? && q.parsed.None?
    ensures r.Err? ==> r.error == InvalidQuery
    ensures r.Ok? ==> r.value == if q.Qom? then q.qom else q.parsed.value
  {
    match q
    case Qom(qom) => Ok(qom)
    case Sql2(_, parsed) => if parsed.Some? then Ok(parsed.value) else Err(InvalidQuery)
  }

  /** The name results are reported under: the selector name, else the
      node type name. */
  function SelectorOf(src: Source): string
    requires src.Selector?
  {
    if src.selectorName.Some? then src.selectorName.value else src.nodeTypeName
  }

  /** The requested columns keyed by property name, a later column of the
      same name replacing the selector of an earlier one. */
  function Requested(cols: seq<Column>): OMap<string, Option<string>>
    decreases |cols|
  {
    if |cols| == 0 then []
    else
      var last := cols[|cols| - 1];
      Put(Requested(cols[..|cols| - 1]), last.propertyName, last.selectorName)
  }

  /** The columns of every result row: the requested ones, or jcr:createdBy
      and jcr:created when none is, and always jcr:primaryType read from
      the selector. */
  function ResultColumns(cols: seq<Column>, selector: string): OMap<string, Option<string>>
  {
    var requested := Requested(cols);
    var chosen := if |requested| == 0 then [("jcr:createdBy", Some(selector)), ("jcr:created", Some(selector))] else requested;
    Put(chosen, "jcr:primaryType", Some(selector))
  }

  /** The cell of one column: named `selector.property` (just the property
      when the column has no selector), holding the property's field when
      the row has it. */
  function ColumnCell(column: (string, Option<string>), fields: Fields, selector: string): (r: Cell)
    ensures Get(fields, column.0).Some? ==> r.value == Field(Get(fields, column.0).value)
    ensures Get(fields, column.0).None? ==> r.value == Absent
    ensures column.1.None? ==> r.name == column.0 && r.selectorName == selector
    ensures column.1.Some? ==> r.name == column.1.value + "." + column.0
  {
    var (name, prefix) := column;
    Cell(if prefix.None? then name else prefix.value + "." + name,
         if name in Keys(fields) then Field(Get(fields, name).value) else Absent,
         if prefix.Some? && PhpTruthy(prefix.value) then prefix.value else selector)
  }

  function ColumnCells(columns: OMap<string, Option<string>>, fields: Fields, selector: string): (r: seq<Cell>)
    ensures |r| == |columns|
    ensures forall i :: 0 <= i < |columns| ==> r[i] == ColumnCell(columns[i], fields, selector)
  {
    if |columns| == 0 then []
    else [ColumnCell(columns[0], fields, selector)] + ColumnCells(columns[1..], fields, selector)
  }

  /** One result row: the path, a score of 0, then the columns, with only
      the properties named by a column decoded. */
  function FormatRow(row: NodeRow, columns: OMap<string, Option<string>>, selector: string): (r: Result<seq<Cell>>)
    ensures r.Err? <==> Decode(row.props, Some(set k | k in Keys(columns))).Err?
  {
    var fields :- Decode(row.props, Some(set k | k in Keys(columns)));
    Ok([Cell("jcr:path", PathText(row.path), row.nodeType), Cell("jcr:score", Score(0), row.nodeType)]
       + ColumnCells(columns, fields, selector))
  }

  function FormatRows(rows: seq<NodeRow>, columns: OMap<string, Option<string>>, selector: string): (r: Result<seq<seq<Cell>>>)
    ensures r.Ok? <==> forall i :: 0 <= i < |rows| ==> FormatRow(rows[i], columns, selector).Ok?
    ensures r.Ok? ==> |r.value| == |rows|
    ensures r.Ok? ==> forall i :: 0 <= i < |rows| ==> r.value[i] == FormatRow(rows[i], columns, selector).value
    decreases |rows|
  {
    if |rows| == 0 then Ok([])
    else
      var first :- FormatRow(rows[0], columns, selector);
      var rest :- FormatRows(rows[1..], columns, selector);
      assert forall i :: 1 <= i < |rows| ==> rows[i] == rows[1..][i - 1];
      Ok([first] + rest)
  }

  /** query. `knownTypes` are the node type names the type manager has;
      `rows` are the rows the translated SQL selects. The checks come in
      order: logged in, a parsable statement, a selector source, a known
      node type, rows that decode. The namespace cache is filled on the
      way, for the translation. */
  function RunQuery(s: Session, q: Query, knownTypes: set<string>, rows: seq<NodeRow>): (r: Result<(Session, seq<seq<Cell>>)>)
    ensures !s.loggedIn ==> r == Err(RepositoryError)
    ensures s.loggedIn && q.Sql2? && q.parsed.None? ==> r == Err(InvalidQuery)
    ensures s.loggedIn && Parse(q).Ok? && Parse(q).value.source.Join? ==> r == Err(NotImplemented)
    ensures (s.loggedIn && Parse(q).Ok? && Parse(q).value.source.Selector?
             && Parse(q).value.source.nodeTypeName !in knownTypes) ==> r == Err(InvalidQuery)
    ensures r.Ok? <==>
      (s.loggedIn && Parse(q).Ok? && Parse(q).value.source.Selector?
       && Parse(q).value.source.nodeTypeName in knownTypes
       && var src := Parse(q).value.source;
          forall i :: 0 <= i < |rows| ==> FormatRow(rows[i], ResultColumns(Parse(q).value.columns, SelectorOf(src)), SelectorOf(src)).Ok?)
    ensures r.Ok? ==> r.value.0 == LoadNamespaces(s) && |r.value.1| == |rows|
  {
    if !s.loggedIn then Err(RepositoryError)
    else
      var qom :- Parse(q);
      if qom.source.Join? then Err(NotImplemented)
      else if qom.source.nodeTypeName !in knownTypes then Err(InvalidQuery)
      else
        var selector := SelectorOf(qom.source);
        var results :- FormatRows(rows, ResultColumns(qom.columns, selector), selector);
        Ok((LoadNamespaces(s), results))
  }

  /* ---------------------------------------------------------------------
     Lemmas
     --------------------------------------------------------------------- */

  lemma {:induction false} RequestedUnique(cols: seq<Column>)
    ensures UniqueKeys(Requested(cols))
    decreases |cols|
  {
    if |cols| > 0 {
      var last := cols[|cols| - 1];
      RequestedUnique(cols[..|cols| - 1]);
      PutKeepsUnique(Requested(cols[..|cols| - 1]), last.propertyName, last.selectorName);
    }
  }

  /** Column `i` is the last one naming property `k`. */
  predicate LastNaming(cols: seq<Column>, i: nat, k: string)
  {
    i < |cols| && cols[i].propertyName == k && forall j :: i < j < |cols| ==> cols[j].propertyName != k
  }

  /** A property is among the requested columns exactly when some column
      names it. */
  lemma {:induction false} RequestedNames(cols: seq<Column>, k: string)
    ensures Get(Requested(cols), k).None? <==> forall i :: 0 <= i < |cols| ==> cols[i].propertyName != k
    decreases |cols|
  {
    if |cols| > 0 {
      var init := cols[..|cols| - 1];
      var last := cols[|cols| - 1];
      var named := forall i :: 0 <= i < |cols| ==> cols[i].propertyName != k;
      if last.propertyName == k {
        assert !named by { assert cols[|cols| - 1].propertyName == k; }
        assert Get(Requested(cols), k).Some?;
      } else {
        var before := forall i :: 0 <= i < |init| ==> init[i].propertyName != k;
        assert named == before by {
          assert forall i :: 0 <= i < |init| ==> init[i] == cols[i];
        }
        assert Get(Requested(cols), k) == Get(Requested(init), k);
        RequestedNames(init, k);
      }
    }
  }

  /** A requested property is read from the selector of the last column
      naming it. */
  lemma {:induction false} RequestedLast(cols: seq<Column>, i: nat, k: string)
    requires LastNaming(cols, i, k)
    ensures Get(Requested(cols), k) == Some(cols[i].selectorName)
    decreases |cols|
  {
    var init := cols[..|cols| - 1];
    var last := cols[|cols| - 1];
    if i < |cols| - 1 {
      assert last.propertyName != k;
      assert init[i] == cols[i];
      assert LastNaming(init, i, k);
      RequestedLast(init, i, k);
    }
  }

  /** The columns of the result rows: unique; jcr:primaryType always among
      them, read from the selector; with no column requested jcr:createdBy,
      jcr:created and jcr:primaryType, in that order; otherwise every other
      property as requested. */
  lemma {:induction false} ResultColumnsShape(cols: seq<Column>, selector: string, k: string)
    ensures var columns := ResultColumns(cols, selector);
      && UniqueKeys(columns)
      && Get(columns, "jcr:primaryType") == Some(Some(selector))
      && (|cols| == 0 ==> Keys(columns) == ["jcr:createdBy", "jcr:created", "jcr:primaryType"])
      && (k != "jcr:primaryType" && |cols| > 0 ==> Get(columns, k) == Get(Requested(cols), k))
  {
    RequestedUnique(cols);
    var requested := Requested(cols);
    var chosen := if |requested| == 0 then [("jcr:createdBy", Some(selector)), ("jcr:created", Some(selector))] else requested;
    if |cols| > 0 {
      var last := cols[|cols| - 1];
      assert Get(requested, last.propertyName).Some?;
    } else {
      assert Keys(chosen) == ["jcr:createdBy", "jcr:created"];
      assert "jcr:primaryType" !in Keys(chosen);
    }
    PutKeepsUnique(chosen, "jcr:primaryType", Some(selector));
    PutKeysOrder(chosen, "jcr:primaryType", Some(selector));
  }

  /** Every result row holds the path, a score of 0, then one cell per
      column, each holding the row's decoded field of that property. */
  lemma {:induction false} ResultShape(s: Session, q: Query, knownTypes: set<string>, rows: seq<NodeRow>, i: nat)
    requires RunQuery(s, q, knownTypes, rows).Ok? && i < |rows|
    ensures var qom := Parse(q).value;
      var selector := SelectorOf(qom.source);
      var columns := ResultColumns(qom.columns, selector);
      var cells := RunQuery(s, q, knownTypes, rows).value.1[i];
      var fields := Decode(rows[i].props, Some(set x | x in Keys(columns)));
      && fields.Ok?
      && |cells| == 2 + |columns|
      && cells[0] == Cell("jcr:path", PathText(rows[i].path), rows[i].nodeType)
      && cells[1] == Cell("jcr:score", Score(0), rows[i].nodeType)
      && (forall c :: 0 <= c < |columns| ==> cells[2 + c] == ColumnCell(columns[c], fields.value, selector))
  {
    var qom := Parse(q).value;
    var selector := SelectorOf(qom.source);
    var columns := ResultColumns(qom.columns, selector);
    assert FormatRow(rows[i], columns, selector).Ok?;
  }
}
