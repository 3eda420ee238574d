/** `HeapPage`: one page of a heap file held in memory, as the constructor
    builds it from the page's bytes, with the iterator over its occupied
    slots. The page's arrays are filled once by `Read` and never changed
    afterwards (the mutators are not part of this model); every method is
    proved against the page format functions of page_format.dfy. */
module HeapPages {
  import opened Util
  import opened Types
  import opened Schema
  import opened PageFormat

  class HeapPage {
    const pid: HeapPageId
    const td: TupleDesc
    /** `BufferPool.getPageSize()`, fixed for the page's lifetime. */
    const pageSize: nat
    const numSlots: nat
    const header: array<int8>
    const tuples: array<Option<Tuple>>
    /** The before-image: the page's bytes as `setBeforeImage` saved them. */
    var oldData: seq<int8>

    /** The page's state as a value. */
    ghost function Image(): PageImage
      reads this, header, tuples
    {
      PageImage(header[..], tuples[..])
    }

    /** The arrays have the sizes the layout fixes for the schema. */
    ghost predicate Sized()
      reads this, header, tuples
    {
      && numSlots == NumSlots(pageSize, Size(td))
      && header.Length == HeaderSize(numSlots)
      && tuples.Length == numSlots
    }

    /** Sized, and every occupied slot holds a tuple: what iterating needs. */
    ghost predicate Filled()
      reads this, header, tuples
    {
      Sized() && AllUsedPresent(td, pageSize, Image())
    }

    /** A page the constructor returned: the state decoding produces, and a
        before-image that is its encoding. */
    ghost predicate Valid()
      reads this, header, tuples
    {
      && Filled()
      && Canonical(pid, td, pageSize, Image())
      && oldData == Encode(td, pageSize, Image())
    }

    /** The first steps of the constructor: compute the slot count (while
        `numSlots` is still 0, so `getNumTuples` computes it) and allocate a
        zeroed header and an all-null tuple array. */
    constructor Alloc(pid: HeapPageId, td: TupleDesc, pageSize: nat)
      ensures this.pid == pid && this.td == td && this.pageSize == pageSize
      ensures Sized() && fresh(header) && fresh(tuples)
      ensures forall i :: 0 <= i < header.Length ==> header[i] == 0
      ensures forall i :: 0 <= i < tuples.Length ==> tuples[i] == None
    {
      this.pid := pid;
      this.td := td;
      this.pageSize := pageSize;
      var tupleSize := GetSize(td);
      var s := NumSlots(pageSize, tupleSize);
      numSlots := s;
      header := new int8[HeaderSize(s)](_ => 0);
      tuples := new Option<Tuple>[s](_ => None);
      oldData := [];
    }

    /** `getNumTuples()`: the cached slot count, or the layout's slot count
        while the cache still holds 0. Either way it is the layout's count. */
    function NumTuples(): (n: nat)
      reads this
      ensures numSlots == 0 || numSlots == NumSlots(pageSize, Size(td)) ==> n == NumSlots(pageSize, Size(td))
    {
      if numSlots != 0 then numSlots else NumSlots(pageSize, Size(td))
    }

    /** `readNextTuple(dis, slotId)` with the stream at `cursor` of `data`: a
        free slot skips `L` bytes and gives null; an occupied slot parses its
        fields in schema order and carries `RecordId(pid, slotId)`. Running
        out of bytes raises NoSuchElementException. */
    method ReadNextTuple(data: seq<int8>, cursor: nat, slotId: nat) returns (r: Result<(Option<Tuple>, nat)>)
      requires Sized() && slotId < numSlots && cursor <= |data|
      ensures r.Ok? <==> cursor + Size(td) <= |data|
      ensures r.Err? ==> r.error == NoSuchElement
      ensures r.Ok? ==> r.value.1 == cursor + Size(td)
      ensures r.Ok? ==> r.value.0 == if Used(header[..], slotId) then Some(SlotTuple(pid, td, slotId, data, cursor)) else None
    {
      var used := PageFormat.IsSlotUsed(header[..], slotId);
      if !used.value {
        var skipped := SkipBytes(td, data, cursor);
        if skipped.Err? {
          return Err(NoSuchElement);
        }
        return Ok((None, skipped.value));
      }
      var fields := ReadFields(td, data, cursor);
      if fields.Err? {
        return Err(NoSuchElement);
      }
      return Ok((Some(Tuple(td, fields.value.0, Some(RecordId(pid, slotId)))), fields.value.1));
    }

    /** The constructor's header loop: one `readByte` per header byte;
        EOFException (an IOException) when the data ends first. */
    method ReadHeader(data: seq<int8>) returns (complete: bool)
      requires Sized()
      modifies header
      ensures complete <==> header.Length <= |data|
      ensures complete ==> header[..] == data[..header.Length]
    {
      for i := 0 to header.Length
        invariant i <= |data|
        invariant header[..i] == data[..i]
      {
        if i >= |data| {
          return false;
        }
        header[i] := data[i];
      }
      assert header[..header.Length] == header[..];
      return true;
    }

    /** The constructor's slot loop: `readNextTuple` for each slot with the
        stream right after the header, stopping at the first slot that runs
        out of bytes; that slot and all later ones stay null. */
    method ReadSlots(data: seq<int8>)
      requires Sized() && header.Length <= |data| && header[..] == data[..header.Length]
      requires forall j :: 0 <= j < tuples.Length ==> tuples[j] == None
      modifies tuples
      ensures SlotsReadUpTo(pid, td, pageSize, data, tuples[..], tuples.Length)
    {
      ghost var l := Size(td);
      var h := header.Length;
      var cursor := h;
      var i := 0;
      while i < tuples.Length
        invariant 0 <= i <= numSlots
        invariant cursor == h + i * l <= |data|
        invariant SlotsReadUpTo(pid, td, pageSize, data, tuples[..], i)
      {
        var more, next := ReadSlot(data, cursor, i);
        if !more {
          break;
        }
        MulSucc(i, l);
        cursor := next;
        i := i + 1;
      }
    }

    /** One turn of the slot loop: `tuples[i] = readNextTuple(dis, i)`, or
        the NoSuchElementException that ends the loop. */
    method ReadSlot(data: seq<int8>, cursor: nat, i: nat) returns (more: bool, next: nat)
      requires Sized() && header.Length <= |data| && header[..] == data[..header.Length]
      requires i < tuples.Length && cursor == header.Length + i * Size(td) <= |data|
      requires SlotsReadUpTo(pid, td, pageSize, data, tuples[..], i)
      modifies tuples
      ensures more <==> cursor + Size(td) <= |data|
      ensures more ==> next == cursor + Size(td) && SlotsReadUpTo(pid, td, pageSize, data, tuples[..], i + 1)
      ensures !more ==> SlotsReadUpTo(pid, td, pageSize, data, tuples[..], tuples.Length)
    {
      var t := ReadNextTuple(data, cursor, i);
      if t.Err? {
        ReadStops(pid, td, pageSize, data, tuples[..], i);
        return false, cursor;
      }
      ReadMatchesDecode(pid, td, pageSize, data, header[..], i, cursor, t.value.0);
      ghost var before := tuples[..];
      tuples[i] := t.value.0;
      assert tuples[..] == before[i := t.value.0];
      ReadStep(pid, td, pageSize, data, before, i, t.value.0);
      return true, t.value.1;
    }

    /** `getPageData()`: the header bytes, then per slot `L` zero bytes when
        it is free or its tuple's fields when it is occupied, then zero
        padding. An occupied slot holding null throws NullPointerException. */
    method GetPageData() returns (r: Result<seq<int8>>)
      requires Sized() && TuplesMatchSchema(td, Image())
      ensures NullInUsedSlot(td, pageSize, Image()) ==> r == Err(NullPointer)
      ensures !NullInUsedSlot(td, pageSize, Image()) ==> r == Ok(Encode(td, pageSize, Image()))
    {
      var out := CopyHeader();
      var slots := WriteSlots();
      if slots.Err? {
        return Err(slots.error);
      }
      var tupleSize := GetSize(td);
      LayoutFits(pageSize, tupleSize);
      var zerolen := pageSize - (header.Length + tupleSize * tuples.Length);
      return Ok(out + slots.value + Zeros(zerolen));
    }

    /** The slot bytes of `getPageData()`, slot after slot; the first
        occupied slot left null throws. */
    method WriteSlots() returns (r: Result<seq<int8>>)
      requires Sized() && TuplesMatchSchema(td, Image())
      ensures NullInUsedSlot(td, pageSize, Image()) ==> r == Err(NullPointer)
      ensures !NullInUsedSlot(td, pageSize, Image()) ==> r == Ok(Concat(SlotChunks(td, pageSize, Image())))
    {
      ghost var img := Image();
      ghost var chunks := SlotChunks(td, pageSize, img);
      var out := [];
      for i := 0 to tuples.Length
        invariant out == Concat(chunks[..i])
        invariant |td.items| > 0 ==> !NullSlotBelow(img, i)
      {
        var chunk := WriteSlot(i);
        NullSlotBelowStep(img, i);
        if chunk.Err? {
          NullSlotBelowMonotone(img, i + 1, tuples.Length);
          return Err(NullPointer);
        }
        ConcatPrefix(chunks, i);
        out := out + chunk.value;
      }
      assert chunks[..tuples.Length] == chunks;
      return Ok(out);
    }

    /** The header bytes of `getPageData()`, written one by one. */
    method CopyHeader() returns (out: seq<int8>)
      ensures out == header[..]
    {
      out := [];
      for k := 0 to header.Length
        invariant out == header[..k]
      {
        assert header[..k + 1] == header[..k] + [header[k]];
        out := out + [header[k]];
      }
      assert header[..header.Length] == header[..];
    }

    /** One slot of `getPageData()`: zeros for a free slot, the tuple's
        fields for an occupied one; null in an occupied slot throws once
        there is a field to read from it. */
    method WriteSlot(i: nat) returns (r: Result<seq<int8>>)
      requires Sized() && TuplesMatchSchema(td, Image()) && i < numSlots
      ensures r.Err? <==> |td.items| > 0 && Used(header[..], i) && tuples[i].None?
      ensures r.Err? ==> r.error == NullPointer
      ensures r.Ok? ==> r.value == EncodeSlot(td, pageSize, Image(), i)
    {
      var tupleSize := GetSize(td);
      var out: seq<int8> := [];
      var used := PageFormat.IsSlotUsed(header[..], i);
      if !used.value {
        for j := 0 to tupleSize
          invariant out == Zeros(j)
        {
          assert Zeros(j + 1) == Zeros(j) + [0];
          out := out + [0];
        }
        return Ok(out);
      }
      for j := 0 to NumFields(td)
        invariant tuples[i].Some? ==> |tuples[i].value.fields| == |td.items|
        invariant tuples[i].Some? ==> out == SerializeFields(tuples[i].value.fields[..j])
        invariant tuples[i].None? ==> out == [] && j == 0
      {
        if tuples[i].None? {
          return Err(NullPointer);
        }
        var f := tuples[i].value.fields[j];
        assert tuples[i].value.fields[..j + 1][..j] == tuples[i].value.fields[..j];
        out := out + Serialize(f);
      }
      if tuples[i].Some? {
        assert tuples[i].value.fields[..|tuples[i].value.fields|] == tuples[i].value.fields;
      }
      return Ok(out);
    }

    /** `setBeforeImage()`: save the page's current bytes. */
    method SetBeforeImage() returns (r: Result<()>)
      requires Sized() && TuplesMatchSchema(td, Image())
      modifies this
      ensures r.Err? <==> NullInUsedSlot(td, pageSize, Image())
      ensures r.Err? ==> r.error == NullPointer && oldData == old(oldData)
      ensures r.Ok? ==> oldData == Encode(td, pageSize, Image())
    {
      var data := GetPageData();
      if data.Err? {
        return Err(data.error);
      }
      oldData := data.value;
      return Ok(());
    }

    /** `getNumEmptySlots()`: counts the free slots one by one. */
    method GetNumEmptySlots() returns (emptySlots: nat)
      requires Sized()
      ensures emptySlots == EmptySlots(header[..], numSlots)
      ensures emptySlots + CountUsed(header[..], numSlots) == numSlots
    {
      emptySlots := 0;
      var i := 0;
      while i < NumTuples()
        invariant i <= numSlots
        invariant emptySlots == EmptySlots(header[..], i)
      {
        var used := PageFormat.IsSlotUsed(header[..], i);
        if !used.value {
          emptySlots := emptySlots + 1;
        }
        i := i + 1;
      }
      EmptyPlusUsed(header[..], numSlots);
    }

    /** `iterator()`: a fresh iterator positioned before the first
        occupied slot. */
    method Iterator() returns (it: UsedTupleIterator)
      requires Valid()
      ensures fresh(it) && it.Valid() && it.page == this
      ensures it.Remaining() == UsedTuples(td, pageSize, Image(), numSlots)
    {
      it := new UsedTupleIterator(this);
    }
  }

  /** The free-slot branch of `readNextTuple`: `readByte` `L` times;
      NoSuchElementException when the data ends first. */
  method SkipBytes(td: TupleDesc, data: seq<int8>, cursor: nat) returns (r: Result<nat>)
    requires cursor <= |data|
    ensures r.Ok? <==> cursor + Size(td) <= |data|
    ensures r.Ok? ==> r.value == cursor + Size(td)
    ensures r.Err? ==> r.error == NoSuchElement
  {
    var tupleSize := GetSize(td);
    var pos := cursor;
    for i := 0 to tupleSize
      invariant pos == cursor + i <= |data|
    {
      if pos >= |data| {
        return Err(NoSuchElement);
      }
      pos := pos + 1;
    }
    return Ok(pos);
  }

  /** The occupied-slot branch of `readNextTuple`: parse each field in
      schema order; a field cut short by the end of the data raises a
      ParseException, which becomes NoSuchElementException. */
  method ReadFields(td: TupleDesc, data: seq<int8>, cursor: nat) returns (r: Result<(seq<Field>, nat)>)
    requires cursor <= |data|
    ensures r.Ok? <==> cursor + Size(td) <= |data|
    ensures r.Ok? ==> cursor + Size(td) <= |data| && r.value.0 == ParseFields(FieldTypes(td), data, cursor)
    ensures r.Ok? ==> r.value.1 == cursor + Size(td)
    ensures r.Err? ==> r.error == NoSuchElement
  {
    ghost var ts := FieldTypes(td);
    var pos := cursor;
    var fields: seq<Field> := [];
    for j := 0 to NumFields(td)
      invariant pos == cursor + TotalLen(ts[..j]) <= |data|
      invariant fields == ParseFields(ts[..j], data, cursor)
    {
      var ft := GetFieldType(td, j);
      var f := Parse(ft.value, data, pos);
      if f.Err? {
        TotalLenPrefix(ts, j);
        return Err(NoSuchElement);
      }
      ParseFieldsStep(ts, j, data, cursor);
      fields := fields + [f.value];
      pos := pos + ft.value.len;
    }
    assert ts[..|ts|] == ts;
    return Ok((fields, pos));
  }

  /** `new HeapPage(pid, data)`: read the header bytes (IOException when the
      data ends first), then read slot after slot until a slot runs out of
      bytes (that NoSuchElementException is swallowed and the remaining
      slots stay null), then save the before-image, which throws
      NullPointerException on an occupied slot left null. The outcome is
      exactly `Decode`. */
  method Read(pid: HeapPageId, td: TupleDesc, pageSize: nat, data: seq<int8>) returns (r: Result<HeapPage>)
    ensures r.Err? <==> Decode(pid, td, pageSize, data).Err?
    ensures r.Err? ==> Decode(pid, td, pageSize, data) == Err(r.error)
    ensures r.Ok? ==> fresh(r.value) && fresh(r.value.header) && fresh(r.value.tuples)
    ensures r.Ok? ==> r.value.Valid() && r.value.pid == pid && r.value.td == td && r.value.pageSize == pageSize
    ensures r.Ok? ==> Decode(pid, td, pageSize, data) == Ok(r.value.Image())
  {
    var page := new HeapPage.Alloc(pid, td, pageSize);
    var complete := page.ReadHeader(data);
    if !complete {
      return Err(IOError);
    }
    page.ReadSlots(data);
    DecodeOutcome(pid, td, pageSize, data, page.Image());
    var before := page.SetBeforeImage();
    if before.Err? {
      return Err(before.error);
    }
    CanonicalFilled(pid, td, pageSize, page.Image());
    return Ok(page);
  }

  /** The slot loop has read the first `k` slots as decoding does and left
      the others null. */
  ghost predicate SlotsReadUpTo(pid: HeapPageId, td: TupleDesc, pageSize: nat, data: seq<int8>,
                                slots: seq<Option<Tuple>>, k: nat)
  {
    var s := NumSlots(pageSize, Size(td));
    && k <= |slots| == s && HeaderSize(s) <= |data|
    && (forall j :: 0 <= j < k ==> slots[j] == DecodeSlot(pid, td, pageSize, data, j))
    && (forall j :: k <= j < s ==> slots[j] == None)
  }

  /** What `readNextTuple` gives for slot `i` with the stream at its
      offset is what decoding puts in slot `i`. */
  lemma ReadMatchesDecode(pid: HeapPageId, td: TupleDesc, pageSize: nat, data: seq<int8>,
                          hdr: seq<int8>, i: nat, cursor: nat, t: Option<Tuple>)
    requires i < NumSlots(pageSize, Size(td)) && |hdr| == HeaderSize(NumSlots(pageSize, Size(td)))
    requires |hdr| <= |data| && hdr == data[..|hdr|]
    requires cursor == |hdr| + i * Size(td) && cursor + Size(td) <= |data|
    requires t == if Used(hdr, i) then Some(SlotTuple(pid, td, i, data, cursor)) else None
    ensures t == DecodeSlot(pid, td, pageSize, data, i)
  {
  }

  /** Reading slot `k` as decoding does extends what has been read. */
  lemma ReadStep(pid: HeapPageId, td: TupleDesc, pageSize: nat, data: seq<int8>,
                 slots: seq<Option<Tuple>>, k: nat, t: Option<Tuple>)
    requires SlotsReadUpTo(pid, td, pageSize, data, slots, k) && k < |slots|
    requires t == DecodeSlot(pid, td, pageSize, data, k)
    ensures SlotsReadUpTo(pid, td, pageSize, data, slots[k := t], k + 1)
  {
  }

  /** Once slot `k` runs out of bytes, every slot from `k` on decodes to
      null, as the loop leaves them. */
  lemma ReadStops(pid: HeapPageId, td: TupleDesc, pageSize: nat, data: seq<int8>,
                  slots: seq<Option<Tuple>>, k: nat)
    requires SlotsReadUpTo(pid, td, pageSize, data, slots, k) && k < |slots|
    requires HeaderSize(|slots|) + k * Size(td) + Size(td) > |data|
    ensures SlotsReadUpTo(pid, td, pageSize, data, slots, |slots|)
  {
    forall j | k <= j < |slots|
      ensures DecodeSlot(pid, td, pageSize, data, j) == None
    {
      MulMonotone(k, j, Size(td));
    }
  }

  /** `UsedTupleIterator`: `index` walks the slots, `pos` counts the tuples
      returned so far, `usedTuplesNum` is the number of occupied slots. */
  class UsedTupleIterator {
    const page: HeapPage
    /** The page's state; the page is never modified while it is iterated. */
    ghost const image: PageImage
    var pos: int
    var index: int
    const usedTuplesNum: int

    /** The image is the page's current state, a filled page. */
    ghost predicate Tracks()
      reads page.header, page.tuples
    {
      && page.numSlots == NumSlots(page.pageSize, Size(page.td))
      && Shaped(page.td, page.pageSize, image)
      && AllUsedPresent(page.td, page.pageSize, image)
      && page.header[..] == image.header
      && page.tuples[..] == image.slots
    }

    ghost predicate Valid()
      reads this, page.header, page.tuples
    {
      && Tracks()
      && 0 <= index <= |image.slots|
      && pos == CountUsed(image.header, index)
      && usedTuplesNum == CountUsed(image.header, |image.slots|)
    }

    /** Everything the iterator yields, in order: the tuples of the occupied
        slots in slot order. */
    ghost function PageYield(): seq<Tuple>
      requires Shaped(page.td, page.pageSize, image) && AllUsedPresent(page.td, page.pageSize, image)
    {
      UsedTuples(page.td, page.pageSize, image, |image.slots|)
    }

    /** What is still to come. */
    ghost function Remaining(): seq<Tuple>
      requires Valid()
      reads this, page.header, page.tuples
    {
      CountUsedMonotone(image.header, index, |image.slots|);
      PageYield()[pos..]
    }

    /** The field initialisers: start at slot 0, having returned nothing,
        with `usedTuplesNum = getNumTuples() - getNumEmptySlots()`. */
    constructor (page: HeapPage)
      requires page.Valid()
      ensures Valid() && this.page == page && image == page.Image()
      ensures pos == 0 && index == 0
      ensures Remaining() == UsedTuples(page.td, page.pageSize, page.Image(), page.numSlots)
    {
      this.page := page;
      image := page.Image();
      pos := 0;
      index := 0;
      var n := page.NumTuples();
      var e := page.GetNumEmptySlots();
      usedTuplesNum := n - e;
    }

    /** `hasNext()`: true exactly while tuples remain. */
    predicate HasNext()
      reads this, page
    {
      index < page.NumTuples() && pos < usedTuplesNum
    }

    lemma HasNextRemaining()
      requires Valid()
      ensures HasNext() <==> Remaining() != []
    {
      var s := |image.slots|;
      CountUsedMonotone(image.header, index, s);
      assert |PageYield()| == usedTuplesNum;
      assert page.NumTuples() == s;
      assert |Remaining()| == usedTuplesNum - pos;
      if index == s {
        assert pos == usedTuplesNum;
      }
    }

    /** `next()`: skip free slots, return the next occupied slot's tuple;
        NoSuchElementException once none remain. */
    method Next() returns (r: Result<Tuple>)
      requires Valid()
      modifies this
      ensures Valid()
      ensures old(Remaining()) == [] ==> r == Err(NoSuchElement) && pos == old(pos) && index == old(index)
      ensures old(Remaining()) != [] ==> r == Ok(old(Remaining())[0]) && Remaining() == old(Remaining())[1..]
    {
      HasNextRemaining();
      if !HasNext() {
        return Err(NoSuchElement);
      }
      SkipFree();
      ghost var ys := PageYield();
      PageNextStep(page.td, page.pageSize, image, index, pos);
      pos := pos + 1;
      r := Ok(page.tuples[index].value);
      index := index + 1;
      assert Remaining() == ys[pos..];
    }

    /** The skip loop of `next()`: move `index` to the next occupied slot. */
    method SkipFree()
      requires Valid() && pos < usedTuplesNum
      modifies this
      ensures Valid() && pos == old(pos)
      ensures index < |image.slots| && Used(image.header, index)
    {
      ghost var hdr := image.header;
      ghost var s := |image.slots|;
      assert page.header[..] == hdr && s <= 8 * |hdr|;
      var i := index;
      while !PageFormat.IsSlotUsed(page.header[..], i).value
        invariant 0 <= i < s
        invariant pos == CountUsed(hdr, i) < CountUsed(hdr, s)
        decreases s - i
      {
        assert CountUsed(hdr, i + 1) == CountUsed(hdr, i) by {
          assert !Used(hdr, i);
        }
        i := i + 1;
      }
      index := i;
    }
  }

  /** Taking the tuple of the occupied slot `index`, the `pos`-th yielded
      one, leaves the yield from `pos + 1` and one more counted slot. */
  lemma PageNextStep(td: TupleDesc, pageSize: nat, img: PageImage, index: nat, pos: nat)
    requires Shaped(td, pageSize, img) && AllUsedPresent(td, pageSize, img)
    requires index < |img.slots| && Used(img.header, index) && pos == CountUsed(img.header, index)
    ensures pos < |UsedTuples(td, pageSize, img, |img.slots|)|
    ensures UsedTuples(td, pageSize, img, |img.slots|)[pos..]
         == [img.slots[index].value] + UsedTuples(td, pageSize, img, |img.slots|)[pos + 1..]
    ensures CountUsed(img.header, index + 1) == pos + 1
  {
    var ys := UsedTuples(td, pageSize, img, |img.slots|);
    UsedTuplesAt(td, pageSize, img, |img.slots|, index);
    assert ys[pos..][1..] == ys[pos + 1..];
    HeadTail(ys[pos..]);
  }

  /** Pulling a fresh page iterator dry yields exactly the occupied slots'
      tuples in slot order; a new `iterator()` starts over from slot 0. */
  method DrainPage(page: HeapPage) returns (out: seq<Tuple>)
    requires page.Valid()
    ensures out == UsedTuples(page.td, page.pageSize, page.Image(), page.numSlots)
  {
    var it := page.Iterator();
    ghost var all := it.Remaining();
    out := [];
    while it.HasNext()
      invariant it.Valid() && it.page == page && it.image == page.Image()
      invariant out + it.Remaining() == all
      decreases |it.Remaining()|
    {
      it.HasNextRemaining();
      ghost var rest := it.Remaining();
      assert rest != [];
      var t := it.Next();
      DrainStep(out, rest, t.value);
      out := out + [t.value];
    }
    it.HasNextRemaining();
  }

  /** Moving the head of what remains to the end of what was yielded
      keeps their concatenation. */
  lemma DrainStep<T>(out: seq<T>, rest: seq<T>, t: T)
    requires rest != [] && t == rest[0]
    ensures (out + [t]) + rest[1..] == out + rest
  {
    HeadTail(rest);
    AppendOne(out, t, rest[1..]);
  }
}
