/** The sequential scan operator: a pull iterator over one table's heap
    file that reports the table's schema with every field name qualified
    by the scan's alias. The catalog is a parameter: a map from table id
    to the table's heap file and name. */
module SeqScans {
  import opened Util
  import opened Types
  import opened Schema
  import opened PageFormat
  import opened HeapFiles

  /** What the catalog holds for one table. */
  datatype TableEntry = TableEntry(file: HeapFile, name: string)

  /** `Database.getCatalog()`, seen read only. */
  type Catalog = map<int, TableEntry>

  /** The catalog's tables carry the ids they are filed under and a
      well-formed heap file. */
  ghost predicate CatalogValid(catalog: Catalog) {
    forall id :: id in catalog ==> catalog[id].file.id == id && catalog[id].file.Valid()
  }

  /** The name `getTupleDesc` gives a field: `alias.name`, with "null"
      standing for a missing alias or a missing name. */
  function QualifiedName(alias: Option<string>, name: Option<string>): string {
    alias.GetOr("null") + "." + name.GetOr("null")
  }

  /** A qualified name starts with the alias and a dot, and ends with the
      field's own name, so two fields whose names differ (a missing name
      counting as "null") keep different names under the same alias. */
  lemma QualifiedNameParts(alias: Option<string>, name: Option<string>)
    ensures var q := QualifiedName(alias, name);
      var p := |alias.GetOr("null")|;
      p < |q| && q[..p] == alias.GetOr("null") && q[p] == '.' && q[p + 1..] == name.GetOr("null")
  {
    var a := alias.GetOr("null");
    var q := QualifiedName(alias, name);
    assert q == a + ("." + name.GetOr("null"));
  }

  lemma QualifiedNameInjective(alias: Option<string>, n1: Option<string>, n2: Option<string>)
    requires QualifiedName(alias, n1) == QualifiedName(alias, n2)
    ensures n1.GetOr("null") == n2.GetOr("null")
  {
    QualifiedNameParts(alias, n1);
    QualifiedNameParts(alias, n2);
  }

  /** `SeqScan`: `tableid` and `tableAlias` say which table's schema it
      reports; `tupleIterator` was opened on the table given at
      construction, `scannedTable`, and stays on it. */
  class SeqScan {
    const catalog: Catalog
    var tableid: int
    var tableAlias: Option<string>
    const tupleIterator: HeapFileIterator
    ghost const scannedTable: int

    ghost predicate Valid()
      reads this, tupleIterator
    {
      CatalogValid(catalog) && scannedTable in catalog &&
      tupleIterator.file == catalog[scannedTable].file && tupleIterator.Valid()
    }

    /** `SeqScan(tid, tableid, tableAlias)`: a closed iterator over the
        table's heap file. */
    constructor(catalog: Catalog, pool: Pool, tableid: int, tableAlias: Option<string>)
      requires CatalogValid(catalog) && tableid in catalog
      ensures Valid() && fresh(tupleIterator)
      ensures this.catalog == catalog && this.tableid == tableid && this.tableAlias == tableAlias
      ensures scannedTable == tableid && tupleIterator.pool == pool
      ensures tupleIterator.State() == Cursor(0, None)
    {
      this.catalog := catalog;
      this.tableid := tableid;
      var it := catalog[tableid].file.Iterator(pool);
      this.tableAlias := tableAlias;
      scannedTable := tableid;
      tupleIterator := it;
    }

    /** `SeqScan(tid, tableId)`: the catalog's table name is the alias. */
    constructor Named(catalog: Catalog, pool: Pool, tableid: int)
      requires CatalogValid(catalog) && tableid in catalog
      ensures Valid() && fresh(tupleIterator)
      ensures this.catalog == catalog && this.tableid == tableid
      ensures tableAlias == Some(catalog[tableid].name)
      ensures scannedTable == tableid && tupleIterator.pool == pool
      ensures tupleIterator.State() == Cursor(0, None)
    {
      this.catalog := catalog;
      this.tableid := tableid;
      var it := catalog[tableid].file.Iterator(pool);
      this.tableAlias := Some(catalog[tableid].name);
      scannedTable := tableid;
      tupleIterator := it;
    }

    /** `getTableName()`: the catalog's name for the current table; an id
        the catalog does not know raises NoSuchElementException. */
    function GetTableName(): (r: Result<string>)
      reads this
      ensures r.Ok? <==> tableid in catalog
      ensures r.Ok? ==> r.value == catalog[tableid].name
      ensures r.Err? ==> r.error == NoSuchElement
    {
      if tableid in catalog then Ok(catalog[tableid].name) else Err(NoSuchElement)
    }

    /** `getAlias()`. */
    function GetAlias(): Option<string>
      reads this
    {
      tableAlias
    }

    /** `reset(tableid, tableAlias)`: only the reported table and alias
        change; the iterator, its position and the table it scans do not. */
    method Reset(tableid: int, tableAlias: Option<string>)
      requires Valid()
      modifies this`tableid, this`tableAlias
      ensures Valid() && GetAlias() == tableAlias && this.tableid == tableid
      ensures unchanged(tupleIterator) && tupleIterator.file == catalog[scannedTable].file
    {
      this.tableid := tableid;
      this.tableAlias := tableAlias;
    }

    /** `getTupleDesc()`: the current table's schema with every name
        qualified by the alias. The types and their order are the table's
        own. */
    method GetTupleDesc() returns (r: Result<TupleDesc>)
      ensures tableid !in catalog ==> r == Err(NoSuchElement)
      ensures tableid in catalog ==> (r.Ok? <==> |catalog[tableid].file.td.items| > 0)
      ensures r.Err? && tableid in catalog ==> r.error == IllegalArgument
      ensures r.Ok? ==> tableid in catalog && WellFormed(r.value)
      ensures r.Ok? ==> FieldTypes(r.value) == FieldTypes(catalog[tableid].file.td)
      ensures r.Ok? ==> Size(r.value) == Size(catalog[tableid].file.td)
      ensures r.Ok? ==> forall i :: 0 <= i < |r.value.items| ==>
        r.value.items[i].fieldName == Some(QualifiedName(tableAlias, catalog[tableid].file.td.items[i].fieldName))
    {
      if tableid !in catalog {
        return Err(NoSuchElement);
      }
      var tableTupleDesc := catalog[tableid].file.td;
      var numFields := NumFields(tableTupleDesc);
      var types: seq<Type> := [];
      var names: seq<Option<string>> := [];
      for i := 0 to numFields
        invariant |types| == |names| == i
        invariant types == FieldTypes(tableTupleDesc)[..i]
        invariant forall k :: 0 <= k < i ==>
          names[k] == Some(QualifiedName(tableAlias, tableTupleDesc.items[k].fieldName))
      {
        var fieldType := GetFieldType(tableTupleDesc, i).value;
        types := types + [fieldType];
        var prefix := if GetAlias().None? then "null." else GetAlias().value + ".";
        var fieldName := GetFieldName(tableTupleDesc, i).value;
        var name := if fieldName.None? then "null" else fieldName.value;
        assert prefix + name == QualifiedName(tableAlias, tableTupleDesc.items[i].fieldName) by {
          assert prefix == tableAlias.GetOr("null") + ".";
        }
        names := names + [Some(prefix + name)];
      }
      assert types == FieldTypes(tableTupleDesc);
      r := FromTypesAndNames(types, names);
      if r.Ok? {
        assert FieldTypes(r.value) == types;
      }
    }

    method Open()
      requires Valid()
      modifies tupleIterator
      ensures Valid() && tupleIterator.State() == Opened(tupleIterator.pool, scannedTable)
      ensures tupleIterator.requests == old(tupleIterator.requests) + [HeapPageId(scannedTable, 0)]
    {
      tupleIterator.Open();
    }

    method HasNext() returns (b: bool)
      requires Valid()
      modifies tupleIterator
      ensures Valid()
      ensures (b, tupleIterator.State()) == Advance(catalog[scannedTable].file.numberOfPages,
        scannedTable, tupleIterator.pool, old(tupleIterator.State()))
      ensures tupleIterator.pagePos == old(tupleIterator.pagePos) ==> tupleIterator.requests == old(tupleIterator.requests)
      ensures tupleIterator.pagePos != old(tupleIterator.pagePos) ==>
        tupleIterator.requests == old(tupleIterator.requests) + [HeapPageId(scannedTable, tupleIterator.pagePos)]
    {
      b := tupleIterator.HasNext();
    }

    method Next() returns (r: Result<Tuple>)
      requires Valid()
      modifies tupleIterator
      ensures Valid()
      ensures (r, tupleIterator.State()) == NextStep(catalog[scannedTable].file.numberOfPages,
        scannedTable, tupleIterator.pool, old(tupleIterator.State()))
      ensures tupleIterator.pagePos == old(tupleIterator.pagePos) ==> tupleIterator.requests == old(tupleIterator.requests)
      ensures tupleIterator.pagePos != old(tupleIterator.pagePos) ==>
        tupleIterator.requests == old(tupleIterator.requests) + [HeapPageId(scannedTable, tupleIterator.pagePos)]
    {
      r := tupleIterator.Next();
    }

    method Close()
      requires Valid()
      modifies tupleIterator
      ensures Valid() && tupleIterator.State() == Cursor(0, None)
      ensures tupleIterator.requests == old(tupleIterator.requests)
    {
      tupleIterator.Close();
    }

    method Rewind()
      requires Valid()
      modifies tupleIterator
      ensures Valid() && tupleIterator.State() == Opened(tupleIterator.pool, scannedTable)
      ensures tupleIterator.requests == old(tupleIterator.requests) + [HeapPageId(scannedTable, 0)]
    {
      tupleIterator.Rewind();
    }
  }
}
