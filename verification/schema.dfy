/** `TupleDesc`: the ordered schema of a tuple, a sequence of
    (type, optional name) items. A schema is never changed after it is built,
    so it is a value here; the operations the source writes as loops are
    methods proved against the functions that specify them. */
module Schema {
  import opened Util
  import opened Types

  /** One schema item: a field type and a possibly-null name. */
  datatype TDItem = TDItem(fieldType: Type, fieldName: Option<string>)

  /** The schema; `items` plays the part of the `tdAr` array. */
  datatype TupleDesc = TupleDesc(items: seq<TDItem>)

  /** The field types in schema order. */
  function FieldTypes(td: TupleDesc): (ts: seq<Type>)
    ensures |ts| == |td.items|
    ensures forall i :: 0 <= i < |ts| ==> ts[i] == td.items[i].fieldType
  {
    seq(|td.items|, i requires 0 <= i < |td.items| => td.items[i].fieldType)
  }

  /** Every schema built by a constructor has at least one field. */
  predicate WellFormed(td: TupleDesc) {
    |td.items| > 0
  }

  /** The summed byte length of a sequence of field types. */
  function TotalLen(ts: seq<Type>): nat {
    if ts == [] then 0 else TotalLen(ts[..|ts| - 1]) + ts[|ts| - 1].len
  }

  /** The byte length of one record of schema `td`. */
  function Size(td: TupleDesc): nat {
    TotalLen(FieldTypes(td))
  }

  lemma {:induction false} TotalLenAppend(a: seq<Type>, b: seq<Type>)
    ensures TotalLen(a + b) == TotalLen(a) + TotalLen(b)
    decreases |b|
  {
    if b != [] {
      var b' := b[..|b| - 1];
      assert (a + b)[..|a + b| - 1] == a + b';
      TotalLenAppend(a, b');
    } else {
      assert a + b == a;
    }
  }

  /** Every type has a positive length, so a schema with at least one field
      has a positive record size, and no prefix is longer than the whole. */
  lemma {:induction false} TotalLenPrefix(ts: seq<Type>, k: nat)
    requires k <= |ts|
    ensures TotalLen(ts[..k]) <= TotalLen(ts)
    ensures k < |ts| ==> TotalLen(ts[..k]) + ts[k].len <= TotalLen(ts)
    ensures |ts| > 0 ==> TotalLen(ts) >= |ts|
    decreases |ts|
  {
    if k < |ts| {
      TotalLenAppend(ts[..k], ts[k..]);
      assert ts[..k] + ts[k..] == ts;
      TotalLenAppend([ts[k]], ts[k + 1..]);
      assert [ts[k]] + ts[k + 1..] == ts[k..] by {
        assert ts[k..][0] == ts[k] && ts[k..][1..] == ts[k + 1..];
      }
      assert TotalLen([ts[k]]) == ts[k].len by {
        assert [ts[k]][..0] == [];
      }
    } else {
      assert ts[..k] == ts;
    }
    if |ts| > 0 {
      TotalLenPrefix(ts[..|ts| - 1], 0);
    }
  }

  /** `new TupleDesc(typeAr, fieldAr)`: rejects an empty type array and
      arrays of different lengths; otherwise item `i` is
      `(typeAr[i], fieldAr[i])`. */
  method FromTypesAndNames(typeAr: seq<Type>, fieldAr: seq<Option<string>>) returns (r: Result<TupleDesc>)
    ensures r.Err? <==> |typeAr| == 0 || |typeAr| != |fieldAr|
    ensures r.Err? ==> r.error == IllegalArgument
    ensures r.Ok? ==> WellFormed(r.value) && |r.value.items| == |typeAr|
    ensures r.Ok? ==> forall i :: 0 <= i < |typeAr| ==> r.value.items[i] == TDItem(typeAr[i], fieldAr[i])
  {
    if |typeAr| == 0 {
      return Err(IllegalArgument);
    }
    if |typeAr| != |fieldAr| {
      return Err(IllegalArgument);
    }
    var tdAr := new TDItem[|typeAr|](_ => TDItem(typeAr[0], None));
    for i := 0 to |typeAr|
      invariant forall k :: 0 <= k < i ==> tdAr[k] == TDItem(typeAr[k], fieldAr[k])
    {
      tdAr[i] := TDItem(typeAr[i], fieldAr[i]);
    }
    return Ok(TupleDesc(tdAr[..]));
  }

  /** `new TupleDesc(typeAr)`: the same schema with every name null. */
  method FromTypes(typeAr: seq<Type>) returns (r: Result<TupleDesc>)
    ensures r.Err? <==> |typeAr| == 0
    ensures r.Err? ==> r.error == IllegalArgument
    ensures r.Ok? ==> FieldTypes(r.value) == typeAr
    ensures r.Ok? ==> forall i :: 0 <= i < |typeAr| ==> r.value.items[i].fieldName == None
  {
    var names := seq(|typeAr|, _ => None);
    r := FromTypesAndNames(typeAr, names);
  }

  /** `new TupleDesc(tdItems)`: rejects a null or empty item array and keeps
      the items as given. */
  function FromItems(tdItems: Option<seq<TDItem>>): (r: Result<TupleDesc>)
    ensures r.Err? <==> tdItems == None || tdItems == Some([])
    ensures r.Err? ==> r.error == IllegalArgument
    ensures r.Ok? ==> WellFormed(r.value) && r.value.items == tdItems.value
  {
    match tdItems
    case None => Err(IllegalArgument)
    case Some(items) => if |items| == 0 then Err(IllegalArgument) else Ok(TupleDesc(items))
  }

  /** `numFields()`. */
  function NumFields(td: TupleDesc): nat {
    |td.items|
  }

  /** `getFieldName(i)`: an index outside `0..numFields-1` raises
      IllegalArgumentException; otherwise the (possibly null) name of item i. */
  function GetFieldName(td: TupleDesc, i: int): (r: Result<Option<string>>)
    ensures r.Err? <==> i < 0 || i >= NumFields(td)
    ensures r.Err? ==> r.error == IllegalArgument
    ensures r.Ok? ==> r.value == td.items[i].fieldName
  {
    if i < 0 || i >= |td.items| then Err(IllegalArgument) else Ok(td.items[i].fieldName)
  }

  /** `getFieldType(i)`: as `getFieldName`, for the type. */
  function GetFieldType(td: TupleDesc, i: int): (r: Result<Type>)
    ensures r.Err? <==> i < 0 || i >= NumFields(td)
    ensures r.Err? ==> r.error == IllegalArgument
    ensures r.Ok? ==> r.value == td.items[i].fieldType
  {
    if i < 0 || i >= |td.items| then Err(IllegalArgument) else Ok(td.items[i].fieldType)
  }

  /** `fieldNameToIndex(name)`: the smallest index whose non-null name equals
      `name`; NoSuchElementException for a null name or no match. */
  method FieldNameToIndex(td: TupleDesc, name: Option<string>) returns (r: Result<nat>)
    ensures r.Ok? ==> name.Some? && r.value < |td.items| && td.items[r.value].fieldName == name
    ensures r.Ok? ==> forall k :: 0 <= k < r.value ==> td.items[k].fieldName != name
    ensures r.Err? <==> name == None || forall k :: 0 <= k < |td.items| ==> td.items[k].fieldName != name
    ensures r.Err? ==> r.error == NoSuchElement
  {
    if name.None? {
      return Err(NoSuchElement);
    }
    for i := 0 to |td.items|
      invariant forall k :: 0 <= k < i ==> td.items[k].fieldName != name
    {
      var fieldName := td.items[i].fieldName;
      if fieldName.Some? && fieldName.value == name.value {
        return Ok(i);
      }
    }
    return Err(NoSuchElement);
  }

  /** `getSize()`: the record length, accumulated item by item. */
  method GetSize(td: TupleDesc) returns (totalSize: nat)
    ensures totalSize == Size(td)
    ensures |td.items| > 0 ==> totalSize >= |td.items|
  {
    totalSize := 0;
    ghost var ts := FieldTypes(td);
    for i := 0 to |td.items|
      invariant totalSize == TotalLen(ts[..i])
    {
      assert ts[..i + 1][..i] == ts[..i];
      totalSize := totalSize + td.items[i].fieldType.len;
    }
    assert ts[..|td.items|] == ts;
    TotalLenPrefix(ts, 0);
  }

  /** `merge(td1, td2)`: td1's items in order, then td2's. */
  method Merge(td1: TupleDesc, td2: TupleDesc) returns (r: TupleDesc)
    requires WellFormed(td1) && WellFormed(td2)
    ensures WellFormed(r)
    ensures r.items == td1.items + td2.items
    ensures NumFields(r) == NumFields(td1) + NumFields(td2)
    ensures Size(r) == Size(td1) + Size(td2)
  {
    var length1 := |td1.items|;
    var length2 := |td2.items|;
    var resultItems := new TDItem[length1 + length2](_ => td1.items[0]);
    for i := 0 to length1
      invariant forall k :: 0 <= k < i ==> resultItems[k] == td1.items[k]
    {
      resultItems[i] := td1.items[i];
    }
    for i := 0 to length2
      invariant forall k :: 0 <= k < length1 ==> resultItems[k] == td1.items[k]
      invariant forall k :: 0 <= k < i ==> resultItems[length1 + k] == td2.items[k]
    {
      resultItems[length1 + i] := td2.items[i];
    }
    assert resultItems[..] == td1.items + td2.items;
    var made := FromItems(Some(resultItems[..]));
    r := made.value;
    MergeSize(td1, td2);
  }

  /** The record length of a merged schema is the sum of the two lengths. */
  lemma MergeSize(td1: TupleDesc, td2: TupleDesc)
    ensures Size(TupleDesc(td1.items + td2.items)) == Size(td1) + Size(td2)
  {
    assert FieldTypes(TupleDesc(td1.items + td2.items)) == FieldTypes(td1) + FieldTypes(td2);
    TotalLenAppend(FieldTypes(td1), FieldTypes(td2));
  }

  /** `TDItem.equals`, called on `mine` with argument `theirs`: two null names
      match; a null name in `theirs` against a non-null name in `mine`
      dereferences null; otherwise names and types must both be equal. */
  function ItemEquals(mine: TDItem, theirs: TDItem): (r: Result<bool>)
    ensures r.Err? <==> theirs.fieldName.None? && mine.fieldName.Some?
    ensures r.Err? ==> r.error == NullPointer
    ensures r == Ok(true) <==> mine == theirs
  {
    if theirs.fieldName.None? && mine.fieldName.None? then Ok(theirs.fieldType == mine.fieldType)
    else if theirs.fieldName.None? then Err(NullPointer)
    else Ok(theirs.fieldName == mine.fieldName && theirs.fieldType == mine.fieldType)
  }

  /** The position-by-position comparison of `TupleDesc.equals`, stopping at
      the first item that differs or throws. */
  function CompareItems(mine: seq<TDItem>, theirs: seq<TDItem>): Result<bool>
    requires |mine| == |theirs|
  {
    if mine == [] then Ok(true)
    else match ItemEquals(mine[0], theirs[0])
      case Ok(true) => CompareItems(mine[1..], theirs[1..])
      case other => other
  }

  /** The comparison succeeds exactly on equal item sequences. */
  lemma {:induction false} CompareItemsTrue(mine: seq<TDItem>, theirs: seq<TDItem>)
    requires |mine| == |theirs|
    ensures CompareItems(mine, theirs) == Ok(true) <==> mine == theirs
  {
    if mine != [] {
      CompareItemsTrue(mine[1..], theirs[1..]);
      if mine == theirs {
        assert mine[1..] == theirs[1..];
      } else if mine[0] == theirs[0] {
        assert mine == [mine[0]] + mine[1..] && theirs == [theirs[0]] + theirs[1..];
      }
    }
  }

  /** The comparison throws exactly when the first differing position has a
      null name in the argument and a non-null name in the receiver. */
  lemma {:induction false} CompareItemsThrows(mine: seq<TDItem>, theirs: seq<TDItem>)
    requires |mine| == |theirs|
    ensures CompareItems(mine, theirs).Err? <==>
      exists k :: 0 <= k < |mine| && mine[..k] == theirs[..k]
        && theirs[k].fieldName.None? && mine[k].fieldName.Some?
  {
    if mine != [] {
      CompareItemsThrows(mine[1..], theirs[1..]);
      var r := ItemEquals(mine[0], theirs[0]);
      if r.Err? {
        assert mine[..0] == theirs[..0];
      } else if r == Ok(false) {
        assert mine[0] != theirs[0];
        forall k | 0 < k <= |mine|
          ensures mine[..k] != theirs[..k]
        {
          assert mine[..k][0] != theirs[..k][0];
        }
      } else {
        assert mine[0] == theirs[0];
        if CompareItems(mine, theirs).Err? {
          var k :| 0 <= k < |mine[1..]| && mine[1..][..k] == theirs[1..][..k]
            && theirs[1..][k].fieldName.None? && mine[1..][k].fieldName.Some?;
          assert mine[..k + 1] == [mine[0]] + mine[1..][..k];
          assert theirs[..k + 1] == [theirs[0]] + theirs[1..][..k];
        } else {
          forall k | 0 <= k < |mine| && mine[..k] == theirs[..k]
            ensures !(theirs[k].fieldName.None? && mine[k].fieldName.Some?)
          {
            if k > 0 {
              assert mine[1..][..k - 1] == mine[..k][1..];
              assert theirs[1..][..k - 1] == theirs[..k][1..];
              assert mine[1..][k - 1] == mine[k];
            }
          }
        }
      }
    }
  }

  /** `TupleDesc.equals(o)`: `o` is `None` when it is null or not a
      TupleDesc. False when the field counts differ; otherwise true exactly
      when every item has the same type and the same name, and
      NullPointerException when the scan reaches a null name in `o` facing a
      non-null name in the receiver. */
  method Equals(td: TupleDesc, o: Option<TupleDesc>) returns (r: Result<bool>)
    ensures o.None? ==> r == Ok(false)
    ensures o.Some? && |o.value.items| != |td.items| ==> r == Ok(false)
    ensures o.Some? ==> (r == Ok(true) <==> td == o.value)
    ensures r.Err? <==>
      && o.Some? && |o.value.items| == |td.items|
      && exists k :: 0 <= k < |td.items| && td.items[..k] == o.value.items[..k]
           && o.value.items[k].fieldName.None? && td.items[k].fieldName.Some?
    ensures r.Err? ==> r.error == NullPointer
  {
    if o.None? {
      return Ok(false);
    }
    var another := o.value;
    if |another.items| != |td.items| {
      return Ok(false);
    }
    CompareItemsTrue(td.items, another.items);
    CompareItemsThrows(td.items, another.items);
    for i := 0 to |td.items|
      invariant CompareItems(td.items, another.items) == CompareItems(td.items[i..], another.items[i..])
    {
      var same := ItemEquals(td.items[i], another.items[i]);
      if same != Ok(true) {
        return same;
      }
      assert td.items[i..][1..] == td.items[i + 1..];
      assert another.items[i..][1..] == another.items[i + 1..];
    }
    return Ok(true);
  }

  /** The iterator over a schema's items (`TupleDesc.iterator()`). */
  class TDItemIterator {
    const items: seq<TDItem>
    var pos: nat

    ghost predicate Valid()
      reads this
    {
      pos <= |items|
    }

    constructor (td: TupleDesc)
      ensures Valid() && items == td.items && pos == 0
    {
      items := td.items;
      pos := 0;
    }

    predicate HasNext()
      reads this
    {
      pos < |items|
    }

    /** Items in index order; NoSuchElementException once they are used up. */
    method Next() returns (r: Result<TDItem>)
      requires Valid()
      modifies this
      ensures Valid()
      ensures old(pos) < |items| ==> r == Ok(items[old(pos)]) && pos == old(pos) + 1
      ensures old(pos) >= |items| ==> r == Err(NoSuchElement) && pos == old(pos)
    {
      if !HasNext() {
        return Err(NoSuchElement);
      }
      r := Ok(items[pos]);
      pos := pos + 1;
    }
  }

  /** Pulling a fresh iterator dry yields exactly the schema's items, in
      index order, and then it has nothing more. */
  method IterateItems(td: TupleDesc) returns (out: seq<TDItem>)
    ensures out == td.items
  {
    var it := new TDItemIterator(td);
    out := [];
    while it.HasNext()
      invariant it.Valid() && it.items == td.items
      invariant out == td.items[..it.pos]
      decreases |it.items| - it.pos
    {
      var r := it.Next();
      out := out + [r.value];
    }
    assert td.items[..|td.items|] == td.items;
  }
}
