/** The slotted-page binary format of a heap page, as pure functions.

    A page of `pageSize` bytes for records of `L` bytes holds
      - `S = floor(8 * pageSize / (8 * L + 1))` slots,
      - a header bitmap of `H = ceil(S / 8)` bytes, bit `i` in byte `i / 8`
        at position `i % 8` counted from the least-significant bit,
      - `S` slots of `L` bytes each, then zero padding up to `pageSize`.
    `Decode` and `Encode` specify the page constructor and `getPageData`;
    the class in heap_page.dfy is proved against them. */
module PageFormat {
  import opened Util
  import opened Types
  import opened Schema

  /** `HeapPageId`: a table id and a 0-based page number. */
  datatype HeapPageId = HeapPageId(tableId: int, pageNo: int)

  /** `RecordId`: a page and a slot number within it. */
  datatype RecordId = RecordId(pid: HeapPageId, slot: int)

  /** A record: its schema, one field per schema item, and where it lives. */
  datatype Tuple = Tuple(td: TupleDesc, fields: seq<Field>, rid: Option<RecordId>)

  // ---------------------------------------------------------------------
  // Layout arithmetic

  /** `getNumTuples()`: `floorDiv(pageSize * 8, tupleSize * 8 + 1)`, the
      largest slot count whose records plus one header bit each fit. */
  function NumSlots(pageSize: nat, tupleSize: nat): nat {
    MulNonneg(tupleSize, 8);
    DivOfNat(pageSize * 8, tupleSize * 8 + 1);
    (pageSize * 8) / (tupleSize * 8 + 1)
  }

  lemma DivOfNat(a: nat, d: nat)
    requires d > 0
    ensures a / d >= 0
  {
  }

  /** `S` slots and their `S` header bits fit in the page, and one more slot
      would not. */
  lemma NumSlotsBounds(pageSize: nat, tupleSize: nat)
    ensures var s := NumSlots(pageSize, tupleSize);
      s * (tupleSize * 8 + 1) <= pageSize * 8 < (s + 1) * (tupleSize * 8 + 1)
  {
  }

  /** `getHeaderSize()`: `(int) Math.ceil(numSlots / 8.0)`, the fewest bytes
      holding one bit per slot. */
  function HeaderSize(numSlots: nat): (h: nat)
    ensures numSlots <= 8 * h < numSlots + 8
  {
    (numSlots + 7) / 8
  }

  /** The header and the slots fit in the page, so the padding length that
      `getPageData` computes is never negative. */
  lemma LayoutFits(pageSize: nat, tupleSize: nat)
    ensures HeaderSize(NumSlots(pageSize, tupleSize)) + NumSlots(pageSize, tupleSize) * tupleSize <= pageSize
  {
    var s := NumSlots(pageSize, tupleSize);
    var h := HeaderSize(s);
    NumSlotsBounds(pageSize, tupleSize);
    assert s * (tupleSize * 8 + 1) == 8 * (s * tupleSize) + s;
    assert 8 * (h + s * tupleSize) < 8 * pageSize + 8;
  }

  /** Slot `i < S` ends inside the slot region. */
  lemma SlotInRegion(i: nat, s: nat, tupleSize: nat)
    requires i < s
    ensures i * tupleSize + tupleSize <= s * tupleSize
  {
    var d := s - i - 1;
    assert s * tupleSize == (i + 1 + d) * tupleSize;
    assert (i + 1 + d) * tupleSize == i * tupleSize + tupleSize + d * tupleSize;
  }

  // ---------------------------------------------------------------------
  // Header bits

  /** Bit `pos` (0 = least significant) of the bit pattern of `b`, the
      meaning of `(b >> pos) & 1 == 1`. */
  function BitAt(b: int8, pos: nat): bool
    requires pos < 8
  {
    (Unsigned(b) / Pow2(pos)) % 2 == 1
  }

  /** `isOne(target, posInByte)` as written: shift the sign-extended byte
      left by `7 - posInByte`, narrow it back to a byte, test the sign. The
      callers pass `i % 8` with Java's remainder, so `posInByte` is in
      `-7..7` and the shifted value cannot overflow an `int`. */
  function IsOne(target: int8, posInByte: int): bool
    requires -7 <= posInByte <= 7
  {
    ToByte(target as int * Pow2(7 - posInByte)) < 0
  }

  /** Shifting the unsigned byte `u` left by `k` puts its bit `7 - k` in
      the sign position of the low byte. */
  lemma ShiftedSign(u: int, k: nat)
    requires 0 <= u < 256 && k <= 7
    ensures ((u * Pow2(k)) % 256 >= 128) == ((u / Pow2(7 - k)) % 2 == 1)
  {
    assert Pow2(0) == 1 && Pow2(1) == 2 && Pow2(2) == 4 && Pow2(3) == 8 && Pow2(4) == 16;
    assert Pow2(5) == 32 && Pow2(6) == 64 && Pow2(7) == 128;
    if k == 0 { SignBitCase(u, 1, 128); }
    else if k == 1 { SignBitCase(u, 2, 64); }
    else if k == 2 { SignBitCase(u, 4, 32); }
    else if k == 3 { SignBitCase(u, 8, 16); }
    else if k == 4 { SignBitCase(u, 16, 8); }
    else if k == 5 { SignBitCase(u, 32, 4); }
    else if k == 6 { SignBitCase(u, 64, 2); }
    else { SignBitCase(u, 128, 1); }
  }

  lemma SignBitCase(u: int, p: nat, m: nat)
    requires 0 <= u < 256 && p >= 1 && m >= 1 && m * p == 128
    ensures ((u * p) % 256 >= 128) == ((u / m) % 2 == 1)
  {
    var q := u / m;
    var r := u % m;
    var b := q % 2;
    var a := q / 2;
    assert u == q * m + r;
    assert q == 2 * a + b;
    var rp := r * p;
    assert u * p == a * 256 + (b * 128 + rp) by {
      Distribute(q, m, r, p);
    }
    MulBelow(r, m, p);
    ModShift(a, b * 128 + rp);
  }

  lemma MulBelow(r: int, m: int, p: int)
    requires 0 <= r < m && p >= 1
    ensures 0 <= r * p < m * p
  {
  }

  lemma Distribute(q: int, m: int, r: int, p: int)
    ensures (q * m + r) * p == q * (m * p) + r * p
  {
  }

  lemma ModShift(a: int, x: int)
    requires 0 <= x < 256
    ensures (a * 256 + x) % 256 == x
  {
  }

  lemma {:induction false} Pow2Add(a: nat, b: nat)
    ensures Pow2(a + b) == Pow2(a) * Pow2(b)
  {
    if a > 0 {
      Pow2Add(a - 1, b);
      assert Pow2(a + b) == 2 * Pow2(a - 1 + b);
    }
  }

  /** The sign-bit test at line 366 reads bit `posInByte` of the byte,
      counted from the least-significant end. */
  lemma {:induction false} IsOneIsBitAt(target: int8, posInByte: nat)
    requires posInByte < 8
    ensures IsOne(target, posInByte) == BitAt(target, posInByte)
  {
    var k: nat := 7 - posInByte;
    var x := target as int * Pow2(k);
    var u := Unsigned(target);
    assert ToByte(x) < 0 <==> x % 256 >= 128;
    assert x % 256 == (u * Pow2(k)) % 256 by {
      if target < 0 {
        assert u * Pow2(k) == (target as int + 256) * Pow2(k);
        assert u * Pow2(k) == Pow2(k) * 256 + x;
        ModShift(Pow2(k), x % 256);
        assert x == (x / 256) * 256 + x % 256;
        assert u * Pow2(k) == (Pow2(k) + x / 256) * 256 + x % 256;
        ModShift(Pow2(k) + x / 256, x % 256);
      }
    }
    ShiftedSign(u, k);
  }

  /** A negative position (from a negative slot index) shifts every bit out
      of the low byte, so the test is false. */
  lemma {:induction false} IsOneNegativePosition(target: int8, posInByte: int)
    requires -7 <= posInByte < 0
    ensures !IsOne(target, posInByte)
  {
    var k: nat := 7 - posInByte;
    Pow2Add(8, k - 8);
    assert Pow2(8) == 256;
    var c := target as int * Pow2(k - 8);
    assert target as int * Pow2(k) == c * 256;
    ModShift(c, 0);
  }

  /** Whether slot `i` is occupied: bit `i % 8` of header byte `i / 8`. */
  function Used(header: seq<int8>, i: nat): bool
    requires i < 8 * |header|
  {
    BitAt(header[i / 8], i % 8)
  }

  /** `isSlotUsed(i)` as written, for any `int` index: Java's `/` and `%`
      truncate, so an index in `-7..-1` lands on byte 0 with a negative
      position, and an index outside the header throws
      ArrayIndexOutOfBoundsException. */
  function IsSlotUsed(header: seq<int8>, i: int): (r: Result<bool>)
    ensures 0 <= i < 8 * |header| ==> r == Ok(Used(header, i))
    ensures -8 < i < 0 && |header| > 0 ==> r == Ok(false)
    ensures r.Err? <==> i <= -8 || i >= 8 * |header| || (i < 0 && |header| == 0)
    ensures r.Err? ==> r.error == IndexOutOfBounds
  {
    var byteNum := JavaDiv(i, 8);
    var posInByte := JavaRem(i, 8);
    if byteNum < 0 || byteNum >= |header| then Err(IndexOutOfBounds)
    else
      if posInByte >= 0 then IsOneIsBitAt(header[byteNum], posInByte); Ok(IsOne(header[byteNum], posInByte))
      else IsOneNegativePosition(header[byteNum], posInByte); Ok(IsOne(header[byteNum], posInByte))
  }

  /** The number of occupied slots among the first `k`. */
  function CountUsed(header: seq<int8>, k: nat): (n: nat)
    requires k <= 8 * |header|
    ensures n <= k
  {
    if k == 0 then 0 else CountUsed(header, k - 1) + (if Used(header, k - 1) then 1 else 0)
  }

  /** The occupied slots among the first `k`. */
  ghost function UsedBelow(header: seq<int8>, k: nat): set<nat>
    requires k <= 8 * |header|
  {
    set i: nat | i < k && Used(header, i)
  }

  /** Widening the range by one slot adds that slot exactly when it is used. */
  lemma UsedBelowStep(header: seq<int8>, k: nat)
    requires 0 < k <= 8 * |header|
    ensures UsedBelow(header, k) == UsedBelow(header, k - 1) + (if Used(header, k - 1) then {k - 1} else {})
    ensures k - 1 !in UsedBelow(header, k - 1)
  {
  }

  /** `CountUsed` counts exactly the occupied slots among the first `k`. */
  lemma {:induction false} CountUsedCounts(header: seq<int8>, k: nat)
    requires k <= 8 * |header|
    ensures CountUsed(header, k) == |UsedBelow(header, k)|
  {
    if k > 0 {
      CountUsedCounts(header, k - 1);
      UsedBelowStep(header, k);
    }
  }

  /** The number of free slots among the first `k` (what `getNumEmptySlots`
      counts). */
  function EmptySlots(header: seq<int8>, k: nat): nat
    requires k <= 8 * |header|
  {
    if k == 0 then 0 else EmptySlots(header, k - 1) + (if Used(header, k - 1) then 0 else 1)
  }

  /** Every slot is either free or occupied. */
  lemma {:induction false} EmptyPlusUsed(header: seq<int8>, k: nat)
    requires k <= 8 * |header|
    ensures EmptySlots(header, k) + CountUsed(header, k) == k
  {
    if k > 0 {
      EmptyPlusUsed(header, k - 1);
    }
  }

  lemma {:induction false} CountUsedMonotone(header: seq<int8>, j: nat, k: nat)
    requires j <= k <= 8 * |header|
    ensures CountUsed(header, j) <= CountUsed(header, k)
    ensures j < k && Used(header, j) ==> CountUsed(header, j) < CountUsed(header, k)
    decreases k - j
  {
    if j < k {
      CountUsedMonotone(header, j, k - 1);
    }
  }

  // ---------------------------------------------------------------------
  // Page images

  /** The decoded state of a page: the header bytes and one optional tuple
      per slot (`null` is `None`). */
  datatype PageImage = PageImage(header: seq<int8>, slots: seq<Option<Tuple>>)

  /** The array sizes the layout fixes for schema `td` and `pageSize`. */
  predicate Shaped(td: TupleDesc, pageSize: nat, img: PageImage) {
    var s := NumSlots(pageSize, Size(td));
    |img.header| == HeaderSize(s) && |img.slots| == s
  }

  /** Field values that match a list of types one for one. */
  predicate FieldsMatch(ts: seq<Type>, fs: seq<Field>) {
    |fs| == |ts| && forall j :: 0 <= j < |fs| ==> fs[j].ftype == ts[j] && WellFormedField(fs[j])
  }

  /** Every tuple held in a slot has one well-formed field per schema item. */
  predicate TuplesMatchSchema(td: TupleDesc, img: PageImage) {
    forall i :: 0 <= i < |img.slots| && img.slots[i].Some? ==>
      FieldsMatch(FieldTypes(td), img.slots[i].value.fields)
  }

  /** Every occupied slot holds a tuple (otherwise encoding dereferences
      null). */
  predicate AllUsedPresent(td: TupleDesc, pageSize: nat, img: PageImage)
    requires Shaped(td, pageSize, img)
  {
    forall i :: 0 <= i < |img.slots| ==> Used(img.header, i) ==> img.slots[i].Some?
  }

  /** The state of a page that decoding produced: exactly the occupied slots
      hold tuples, each of schema `td`, with well-formed fields and the
      record id of its own slot. */
  predicate Canonical(pid: HeapPageId, td: TupleDesc, pageSize: nat, img: PageImage) {
    && Shaped(td, pageSize, img)
    && TuplesMatchSchema(td, img)
    && forall i :: 0 <= i < |img.slots| ==>
         && (img.slots[i].Some? <==> Used(img.header, i))
         && (img.slots[i].Some? ==> img.slots[i].value.td == td && img.slots[i].value.rid == Some(RecordId(pid, i)))
  }

  // ---------------------------------------------------------------------
  // Field sequences

  /** The fields of types `ts` parsed back to back from offset `off`. */
  function ParseFields(ts: seq<Type>, data: seq<int8>, off: nat): (fs: seq<Field>)
    requires off + TotalLen(ts) <= |data|
    ensures FieldsMatch(ts, fs)
  {
    if ts == [] then []
    else
      var init := ts[..|ts| - 1];
      TotalLenPrefix(ts, |ts| - 1);
      var f := Parse(ts[|ts| - 1], data, off + TotalLen(init));
      ParseFields(init, data, off) + [f.value]
  }

  /** Parsing one more field extends the parsed prefix by that field, read
      right after the bytes of the earlier ones. */
  lemma ParseFieldsStep(ts: seq<Type>, j: nat, data: seq<int8>, off: nat)
    requires j < |ts| && off + TotalLen(ts[..j]) + ts[j].len <= |data|
    ensures TotalLen(ts[..j + 1]) == TotalLen(ts[..j]) + ts[j].len
    ensures ParseFields(ts[..j + 1], data, off)
         == ParseFields(ts[..j], data, off) + [Parse(ts[j], data, off + TotalLen(ts[..j])).value]
  {
    assert ts[..j + 1][..j] == ts[..j];
  }

  /** The bytes of a tuple's fields, written back to back. */
  function SerializeFields(fs: seq<Field>): seq<int8> {
    if fs == [] then [] else SerializeFields(fs[..|fs| - 1]) + Serialize(fs[|fs| - 1])
  }

  /** Serialized fields of types `ts` take exactly the schema's length. */
  lemma {:induction false} SerializeFieldsLength(ts: seq<Type>, fs: seq<Field>)
    requires FieldsMatch(ts, fs)
    ensures |SerializeFields(fs)| == TotalLen(ts)
  {
    if fs != [] {
      SerializeFieldsLength(ts[..|ts| - 1], fs[..|fs| - 1]);
    }
  }

  /** Parsing only looks at the `TotalLen(ts)` bytes from `off`. */
  lemma {:induction false} ParseFieldsFrame(ts: seq<Type>, d1: seq<int8>, o1: nat, d2: seq<int8>, o2: nat)
    requires o1 + TotalLen(ts) <= |d1| && o2 + TotalLen(ts) <= |d2|
    requires d1[o1..o1 + TotalLen(ts)] == d2[o2..o2 + TotalLen(ts)]
    ensures ParseFields(ts, d1, o1) == ParseFields(ts, d2, o2)
  {
    if ts != [] {
      var init := ts[..|ts| - 1];
      var last := ts[|ts| - 1];
      var n := TotalLen(init);
      var t := TotalLen(ts);
      TotalLenPrefix(ts, |ts| - 1);
      assert ParseFields(init, d1, o1) == ParseFields(init, d2, o2) by {
        SliceOfSlice(d1, o1, t, 0, n);
        SliceOfSlice(d2, o2, t, 0, n);
        ParseFieldsFrame(init, d1, o1, d2, o2);
      }
      assert Parse(last, d1, o1 + n) == Parse(last, d2, o2 + n) by {
        SliceOfSlice(d1, o1, t, n, n + last.len);
        SliceOfSlice(d2, o2, t, n, n + last.len);
      }
    }
  }

  /** A slice of a slice is a slice of the whole. */
  lemma SliceOfSlice<T>(d: seq<T>, o: nat, t: nat, a: nat, b: nat)
    requires o + t <= |d| && a <= b <= t
    ensures d[o..o + t][a..b] == d[o + a..o + b]
  {
    var x := d[o..o + t];
    assert forall k :: 0 <= k < t ==> x[k] == d[o + k];
    assert forall k :: 0 <= k < b - a ==> x[a..b][k] == x[a + k];
  }

  /** Parsing serialized fields gives the same fields back. */
  lemma {:induction false} ParseSerializeFields(ts: seq<Type>, fs: seq<Field>)
    requires FieldsMatch(ts, fs)
    ensures |SerializeFields(fs)| == TotalLen(ts)
    ensures ParseFields(ts, SerializeFields(fs), 0) == fs
  {
    SerializeFieldsLength(ts, fs);
    if fs != [] {
      var init := ts[..|ts| - 1];
      var finit := fs[..|fs| - 1];
      var last := fs[|fs| - 1];
      var prefix := SerializeFields(finit);
      var bytes := SerializeFields(fs);
      assert FieldsMatch(init, finit);
      assert bytes == prefix + Serialize(last);
      assert |prefix| == TotalLen(init) by {
        SerializeFieldsLength(init, finit);
      }
      assert ParseFields(init, bytes, 0) == finit by {
        TotalLenPrefix(ts, |ts| - 1);
        assert bytes[0..TotalLen(init)] == prefix[0..TotalLen(init)];
        ParseFieldsFrame(init, bytes, 0, prefix, 0);
        ParseSerializeFields(init, finit);
      }
      assert Parse(ts[|ts| - 1], bytes, TotalLen(init)) == Ok(last) by {
        ParseSerialize(last, prefix, []);
        assert prefix + Serialize(last) + [] == bytes;
      }
      assert fs == finit + [last];
    }
  }

  // ---------------------------------------------------------------------
  // Decoding: the page constructor

  /** The tuple parsed from slot `i`, whose bytes start at `off`. */
  function SlotTuple(pid: HeapPageId, td: TupleDesc, i: nat, data: seq<int8>, off: nat): Tuple
    requires off + Size(td) <= |data|
  {
    Tuple(td, ParseFields(FieldTypes(td), data, off), Some(RecordId(pid, i)))
  }

  /** What the slot loop of the constructor leaves in `tuples[i]`: a free
      slot is null; an occupied slot holds its parsed tuple when all of its
      bytes are present, and stays null when the read of this or an earlier
      slot ran out of data (that NoSuchElementException is swallowed). */
  function DecodeSlot(pid: HeapPageId, td: TupleDesc, pageSize: nat, data: seq<int8>, i: nat): Option<Tuple>
    requires i < NumSlots(pageSize, Size(td))
    requires HeaderSize(NumSlots(pageSize, Size(td))) <= |data|
  {
    var l := Size(td);
    var h := HeaderSize(NumSlots(pageSize, l));
    if Used(data[..h], i) && h + i * l + l <= |data| then Some(SlotTuple(pid, td, i, data, h + i * l))
    else None
  }

  /** Decoding `data` as page `pid` of a table with schema `td`:
      IOException when the header is cut short; NullPointerException when
      an occupied slot could not be read, because the before-image step
      re-encodes the page and dereferences that slot's null tuple. */
  function Decode(pid: HeapPageId, td: TupleDesc, pageSize: nat, data: seq<int8>): (r: Result<PageImage>)
    ensures r == Err(IOError) <==> |data| < HeaderSize(NumSlots(pageSize, Size(td)))
    ensures r.Err? ==> r.error == IOError || r.error == NullPointer
    ensures r.Ok? ==> Canonical(pid, td, pageSize, r.value)
    ensures r.Ok? ==> r.value.header == data[..HeaderSize(NumSlots(pageSize, Size(td)))]
  {
    var l := Size(td);
    var s := NumSlots(pageSize, l);
    var h := HeaderSize(s);
    if |data| < h then Err(IOError)
    else
      var header := data[..h];
      if exists i | 0 <= i < s :: Used(header, i) && h + i * l + l > |data| then Err(NullPointer)
      else
        var img := PageImage(header, seq(s, i requires 0 <= i < s => DecodeSlot(pid, td, pageSize, data, i)));
        assert TuplesMatchSchema(td, img) by {
          forall i | 0 <= i < s && img.slots[i].Some?
            ensures FieldsMatch(FieldTypes(td), img.slots[i].value.fields)
          {
          }
        }
        Ok(img)
  }

  /** What the constructor's loops leave behind, when they fill the slots
      slot by slot as `DecodeSlot` says: `getPageData` then throws exactly
      when decoding reports NullPointerException, and otherwise the state is
      the decoded page. */
  lemma DecodeOutcome(pid: HeapPageId, td: TupleDesc, pageSize: nat, data: seq<int8>, img: PageImage)
    requires HeaderSize(NumSlots(pageSize, Size(td))) <= |data|
    requires img.header == data[..HeaderSize(NumSlots(pageSize, Size(td)))]
    requires |img.slots| == NumSlots(pageSize, Size(td))
    requires forall j :: 0 <= j < |img.slots| ==> img.slots[j] == DecodeSlot(pid, td, pageSize, data, j)
    ensures Shaped(td, pageSize, img) && TuplesMatchSchema(td, img)
    ensures NullInUsedSlot(td, pageSize, img) ==> Decode(pid, td, pageSize, data) == Err(NullPointer)
    ensures !NullInUsedSlot(td, pageSize, img) ==> Decode(pid, td, pageSize, data) == Ok(img)
  {
    var l := Size(td);
    var s := NumSlots(pageSize, l);
    var h := HeaderSize(s);
    if |td.items| == 0 {
      assert FieldTypes(td) == [];
    }
    assert TuplesMatchSchema(td, img) by {
      forall j | 0 <= j < s && img.slots[j].Some?
        ensures FieldsMatch(FieldTypes(td), img.slots[j].value.fields)
      {
        assert img.slots[j] == DecodeSlot(pid, td, pageSize, data, j);
      }
    }
    if NullInUsedSlot(td, pageSize, img) {
      var i :| 0 <= i < s && Used(img.header, i) && img.slots[i].None?;
      assert img.slots[i] == DecodeSlot(pid, td, pageSize, data, i);
      assert Used(data[..h], i) && h + i * l + l > |data|;
    } else {
      forall i | 0 <= i < s && Used(data[..h], i)
        ensures h + i * l + l <= |data|
      {
        assert img.slots[i] == DecodeSlot(pid, td, pageSize, data, i);
        if |td.items| == 0 {
          assert i * l == 0;
        }
      }
      var r := Decode(pid, td, pageSize, data);
      assert r.Ok?;
      assert r.value.slots == img.slots;
    }
  }

  /** In a decoded page every occupied slot holds a tuple. */
  lemma CanonicalFilled(pid: HeapPageId, td: TupleDesc, pageSize: nat, img: PageImage)
    requires Canonical(pid, td, pageSize, img)
    ensures AllUsedPresent(td, pageSize, img)
  {
  }

  /** Decoding succeeds exactly when the header is present and every
      occupied slot lies wholly inside the data. */
  lemma DecodeSucceeds(pid: HeapPageId, td: TupleDesc, pageSize: nat, data: seq<int8>)
    ensures var s := NumSlots(pageSize, Size(td));
      var h := HeaderSize(s);
      Decode(pid, td, pageSize, data).Ok? <==>
        h <= |data| && forall i :: 0 <= i < s && Used(data[..h], i) ==> h + i * Size(td) + Size(td) <= |data|
  {
  }

  // ---------------------------------------------------------------------
  // Encoding: getPageData

  /** The bytes written for slot `i`: `L` zero bytes when it is free, its
      tuple's fields otherwise. An occupied slot holding null writes nothing
      when the schema has no fields, since its field loop never runs;
      otherwise that slot throws, see `NullInUsedSlot`. */
  function EncodeSlot(td: TupleDesc, pageSize: nat, img: PageImage, i: nat): seq<int8>
    requires Shaped(td, pageSize, img) && i < |img.slots|
  {
    if !Used(img.header, i) then Zeros(Size(td))
    else if img.slots[i].None? then []
    else SerializeFields(img.slots[i].value.fields)
  }

  /** `getPageData()` dereferences null: some occupied slot holds no tuple
      and the schema has a field to read from it. */
  predicate NullInUsedSlot(td: TupleDesc, pageSize: nat, img: PageImage)
    requires Shaped(td, pageSize, img)
  {
    |td.items| > 0 && NullSlotBelow(img, |img.slots|)
  }

  /** Some occupied slot below `k` holds no tuple. */
  predicate NullSlotBelow(img: PageImage, k: nat)
    requires k <= |img.slots| && k <= 8 * |img.header|
  {
    exists i :: 0 <= i < k && Used(img.header, i) && img.slots[i].None?
  }

  lemma NullSlotBelowMonotone(img: PageImage, j: nat, k: nat)
    requires j <= k <= |img.slots| && k <= 8 * |img.header|
    requires NullSlotBelow(img, j)
    ensures NullSlotBelow(img, k)
  {
    var i :| 0 <= i < j && Used(img.header, i) && img.slots[i].None?;
    assert 0 <= i < k && Used(img.header, i) && img.slots[i].None?;
  }

  lemma NullSlotBelowStep(img: PageImage, k: nat)
    requires k < |img.slots| && k < 8 * |img.header|
    ensures NullSlotBelow(img, k + 1) <==> NullSlotBelow(img, k) || (Used(img.header, k) && img.slots[k].None?)
  {
    if NullSlotBelow(img, k + 1) && !(Used(img.header, k) && img.slots[k].None?) {
      var i :| 0 <= i < k + 1 && Used(img.header, i) && img.slots[i].None?;
      assert i < k;
    }
  }

  /** The byte strings of `chunks` written one after another. */
  function Concat(chunks: seq<seq<int8>>): seq<int8> {
    if chunks == [] then [] else Concat(chunks[..|chunks| - 1]) + chunks[|chunks| - 1]
  }

  /** Chunks of `l` bytes each concatenate to `|chunks| * l` bytes. */
  lemma {:induction false} ConcatLength(chunks: seq<seq<int8>>, l: nat)
    requires forall i :: 0 <= i < |chunks| ==> |chunks[i]| == l
    ensures |Concat(chunks)| == |chunks| * l
  {
    if chunks != [] {
      ConcatLength(chunks[..|chunks| - 1], l);
      assert |chunks| * l == (|chunks| - 1) * l + l;
    }
  }

  /** Chunk `i` of `l`-byte chunks sits at offset `i * l`. */
  lemma {:induction false} ConcatChunk(chunks: seq<seq<int8>>, l: nat, i: nat)
    requires forall j :: 0 <= j < |chunks| ==> |chunks[j]| == l
    requires i < |chunks|
    ensures i * l + l <= |Concat(chunks)|
    ensures Concat(chunks)[i * l..i * l + l] == chunks[i]
  {
    var n := |chunks|;
    var init := chunks[..n - 1];
    var p := Concat(init);
    ConcatLength(chunks, l);
    ConcatLength(init, l);
    SlotInRegion(i, n, l);
    if i < n - 1 {
      ConcatChunk(init, l, i);
      SliceOfAppend(p, chunks[n - 1], i * l, i * l + l);
    } else {
      SliceOfAppend(p, chunks[n - 1], |p|, |p| + l);
    }
  }

  /** Appending one more chunk to a prefix of `chunks`. */
  lemma ConcatPrefix(chunks: seq<seq<int8>>, k: nat)
    requires k < |chunks|
    ensures Concat(chunks[..k + 1]) == Concat(chunks[..k]) + chunks[k]
  {
    assert chunks[..k + 1][..k] == chunks[..k];
  }

  lemma SliceOfAppend<T>(p: seq<T>, q: seq<T>, a: nat, b: nat)
    requires a <= b
    requires b <= |p| || (a == |p| && b == |p| + |q|)
    ensures b <= |p| ==> (p + q)[a..b] == p[a..b]
    ensures a == |p| && b == |p| + |q| ==> (p + q)[a..b] == q
  {
  }

  lemma MulNonneg(x: nat, y: nat)
    ensures x * y >= 0
  {
  }

  lemma SliceShift<T>(p: seq<T>, q: seq<T>, a: nat, b: nat)
    requires a <= b <= |q|
    ensures (p + q)[|p| + a..|p| + b] == q[a..b]
  {
  }

  /** The bytes of every slot, in slot order. */
  function SlotChunks(td: TupleDesc, pageSize: nat, img: PageImage): (cs: seq<seq<int8>>)
    requires Shaped(td, pageSize, img)
    ensures |cs| == |img.slots|
  {
    seq(|img.slots|, i requires 0 <= i < |img.slots| => EncodeSlot(td, pageSize, img, i))
  }

  /** `getPageData()`: header, slots, then zero padding sized so that the
      header and slots plus padding make `pageSize` bytes. */
  function Encode(td: TupleDesc, pageSize: nat, img: PageImage): seq<int8>
    requires Shaped(td, pageSize, img)
  {
    var l := Size(td);
    var s := NumSlots(pageSize, l);
    LayoutFits(pageSize, l);
    img.header + Concat(SlotChunks(td, pageSize, img)) + Zeros(pageSize - (HeaderSize(s) + l * s))
  }

  /** Every slot is written as exactly `L` bytes. */
  lemma SlotChunkLengths(td: TupleDesc, pageSize: nat, img: PageImage)
    requires Shaped(td, pageSize, img) && AllUsedPresent(td, pageSize, img) && TuplesMatchSchema(td, img)
    ensures forall i :: 0 <= i < |img.slots| ==> |SlotChunks(td, pageSize, img)[i]| == Size(td)
  {
    forall i | 0 <= i < |img.slots|
      ensures |SlotChunks(td, pageSize, img)[i]| == Size(td)
    {
      if Used(img.header, i) {
        SerializeFieldsLength(FieldTypes(td), img.slots[i].value.fields);
      }
    }
  }

  /** Encoding always yields exactly `pageSize` bytes, starting with the
      header. */
  lemma EncodeLength(td: TupleDesc, pageSize: nat, img: PageImage)
    requires Shaped(td, pageSize, img) && AllUsedPresent(td, pageSize, img) && TuplesMatchSchema(td, img)
    ensures |Encode(td, pageSize, img)| == pageSize
    ensures Encode(td, pageSize, img)[..|img.header|] == img.header
  {
    var l := Size(td);
    SlotChunkLengths(td, pageSize, img);
    ConcatLength(SlotChunks(td, pageSize, img), l);
    LayoutFits(pageSize, l);
  }

  /** Slot `i` is written at offset `H + i * L` of the page. */
  lemma EncodeSlotAt(td: TupleDesc, pageSize: nat, img: PageImage, i: nat)
    requires Shaped(td, pageSize, img) && AllUsedPresent(td, pageSize, img) && TuplesMatchSchema(td, img)
    requires i < |img.slots|
    ensures |img.header| + i * Size(td) + Size(td) <= |Encode(td, pageSize, img)|
    ensures Encode(td, pageSize, img)[|img.header| + i * Size(td)..|img.header| + i * Size(td) + Size(td)]
         == EncodeSlot(td, pageSize, img, i)
  {
    var l := Size(td);
    var h := |img.header|;
    var cs := SlotChunks(td, pageSize, img);
    var body := Concat(cs);
    var data := Encode(td, pageSize, img);
    var a := i * l;
    MulNonneg(i, l);
    assert a + l <= |body| && body[a..a + l] == cs[i] by {
      SlotChunkLengths(td, pageSize, img);
      ConcatChunk(cs, l, i);
    }
    var pad := Zeros(pageSize - (HeaderSize(NumSlots(pageSize, l)) + l * NumSlots(pageSize, l)));
    assert data[h + a..h + a + l] == (body + pad)[a..a + l] by {
      assert data == img.header + (body + pad);
      SliceShift(img.header, body + pad, a, a + l);
    }
    assert (body + pad)[a..a + l] == body[a..a + l] by {
      SliceOfAppend(body, pad, a, a + l);
    }
    assert cs[i] == EncodeSlot(td, pageSize, img, i);
  }

  /** Decoding gives back what slot `i` held from any page bytes that
      start with the header and hold slot `i`'s encoding at `H + i * L`. */
  lemma DecodeSlotFrom(pid: HeapPageId, td: TupleDesc, pageSize: nat, img: PageImage, data: seq<int8>, i: nat)
    requires Shaped(td, pageSize, img) && i < |img.slots|
    requires img.slots[i].Some? <==> Used(img.header, i)
    requires img.slots[i].Some? ==> img.slots[i].value.td == td && img.slots[i].value.rid == Some(RecordId(pid, i))
    requires img.slots[i].Some? ==> FieldsMatch(FieldTypes(td), img.slots[i].value.fields)
    requires |img.header| <= |data| && data[..|img.header|] == img.header
    requires |img.header| + i * Size(td) + Size(td) <= |data|
    requires data[|img.header| + i * Size(td)..|img.header| + i * Size(td) + Size(td)] == EncodeSlot(td, pageSize, img, i)
    ensures DecodeSlot(pid, td, pageSize, data, i) == img.slots[i]
  {
    if Used(img.header, i) {
      var t := img.slots[i].value;
      assert EncodeSlot(td, pageSize, img, i) == SerializeFields(t.fields);
      MulMonotone(0, i, Size(td));
      ParseSerializedAt(FieldTypes(td), t.fields, data, |img.header| + i * Size(td));
      assert t == Tuple(td, t.fields, Some(RecordId(pid, i)));
    }
  }

  /** Serialized fields found at offset `off` of any byte string parse
      back to the same fields. */
  lemma ParseSerializedAt(ts: seq<Type>, fs: seq<Field>, data: seq<int8>, off: nat)
    requires FieldsMatch(ts, fs)
    requires off + TotalLen(ts) <= |data|
    requires data[off..off + TotalLen(ts)] == SerializeFields(fs)
    ensures ParseFields(ts, data, off) == fs
  {
    var bytes := SerializeFields(fs);
    ParseSerializeFields(ts, fs);
    assert bytes[0..TotalLen(ts)] == bytes;
    ParseFieldsFrame(ts, data, off, bytes, 0);
  }

  /** Round trip: decoding the bytes of a decoded page rebuilds the same
      header and the same tuples in the same slots. */
  lemma DecodeEncode(pid: HeapPageId, td: TupleDesc, pageSize: nat, img: PageImage)
    requires Canonical(pid, td, pageSize, img)
    ensures AllUsedPresent(td, pageSize, img)
    ensures Decode(pid, td, pageSize, Encode(td, pageSize, img)) == Ok(img)
  {
    var l := Size(td);
    var s := |img.slots|;
    var h := |img.header|;
    var data := Encode(td, pageSize, img);
    EncodeLength(td, pageSize, img);
    forall i | 0 <= i < s
      ensures h + i * l + l <= |data|
      ensures DecodeSlot(pid, td, pageSize, data, i) == img.slots[i]
    {
      EncodeSlotAt(td, pageSize, img, i);
      DecodeSlotFrom(pid, td, pageSize, img, data, i);
    }
    var r := Decode(pid, td, pageSize, data);
    assert r.Ok?;
    assert r.value.slots == img.slots;
  }

  /** `createEmptyPageData()`: `pageSize` zero bytes. */
  function EmptyPageData(pageSize: nat): seq<int8> {
    Zeros(pageSize)
  }

  /** An empty page decodes to a page with every slot free and absent. */
  lemma {:induction false} EmptyPageDecodes(pid: HeapPageId, td: TupleDesc, pageSize: nat)
    ensures var r := Decode(pid, td, pageSize, EmptyPageData(pageSize));
      var s := NumSlots(pageSize, Size(td));
      && r.Ok?
      && (forall i :: 0 <= i < s ==> !Used(r.value.header, i) && r.value.slots[i] == None)
      && EmptySlots(r.value.header, s) == s
  {
    var l := Size(td);
    var s := NumSlots(pageSize, l);
    var h := HeaderSize(s);
    LayoutFits(pageSize, l);
    var data := EmptyPageData(pageSize);
    var header := data[..h];
    forall i | 0 <= i < s
      ensures !Used(header, i)
    {
      assert header[i / 8] == 0;
    }
    var img := PageImage(header, seq(s, _ => None));
    forall j | 0 <= j < s
      ensures img.slots[j] == DecodeSlot(pid, td, pageSize, data, j)
    {
    }
    DecodeOutcome(pid, td, pageSize, data, img);
    assert !NullInUsedSlot(td, pageSize, img);
    EmptyPlusUsed(header, s);
    NoneUsed(header, s);
  }

  lemma {:induction false} NoneUsed(header: seq<int8>, k: nat)
    requires k <= 8 * |header|
    requires forall i :: 0 <= i < k ==> !Used(header, i)
    ensures CountUsed(header, k) == 0
  {
    if k > 0 {
      NoneUsed(header, k - 1);
    }
  }

  // ---------------------------------------------------------------------
  // Iteration order

  /** The tuples of the occupied slots among the first `k`, in slot order:
      what the page iterator yields. */
  function UsedTuples(td: TupleDesc, pageSize: nat, img: PageImage, k: nat): (ts: seq<Tuple>)
    requires Shaped(td, pageSize, img) && k <= |img.slots|
    requires AllUsedPresent(td, pageSize, img)
    ensures |ts| == CountUsed(img.header, k)
  {
    if k == 0 then []
    else UsedTuples(td, pageSize, img, k - 1) + (if Used(img.header, k - 1) then [img.slots[k - 1].value] else [])
  }

  /** The occupied slot `j` contributes the tuple at position
      `CountUsed(j)`: the number of occupied slots before it. */
  lemma {:induction false} UsedTuplesAt(td: TupleDesc, pageSize: nat, img: PageImage, k: nat, j: nat)
    requires Shaped(td, pageSize, img) && k <= |img.slots|
    requires AllUsedPresent(td, pageSize, img)
    requires j < k && Used(img.header, j)
    ensures CountUsed(img.header, j) < |UsedTuples(td, pageSize, img, k)|
    ensures UsedTuples(td, pageSize, img, k)[CountUsed(img.header, j)] == img.slots[j].value
  {
    CountUsedMonotone(img.header, j, k);
    if j < k - 1 {
      UsedTuplesAt(td, pageSize, img, k - 1, j);
      CountUsedMonotone(img.header, j, k - 1);
    }
  }

  /** Every yielded tuple comes from an occupied slot, and the yielded
      tuples' slot numbers strictly increase. */
  lemma {:induction false} UsedTuplesOrdered(pid: HeapPageId, td: TupleDesc, pageSize: nat, img: PageImage)
    requires Canonical(pid, td, pageSize, img)
    ensures AllUsedPresent(td, pageSize, img)
    ensures var ts := UsedTuples(td, pageSize, img, |img.slots|);
      && (forall a :: 0 <= a < |ts| ==>
            (ts[a].rid.Some? && 0 <= ts[a].rid.value.slot < |img.slots|
             && Used(img.header, ts[a].rid.value.slot) && img.slots[ts[a].rid.value.slot] == Some(ts[a])))
      && (forall a, b :: 0 <= a < b < |ts| ==> ts[a].rid.value.slot < ts[b].rid.value.slot)
  {
    var s := |img.slots|;
    var ts := UsedTuples(td, pageSize, img, s);
    UsedTuplesFrom(pid, td, pageSize, img, s);
    forall a, b | 0 <= a < b < |ts|
      ensures ts[a].rid.value.slot < ts[b].rid.value.slot
    {
      var i := ts[a].rid.value.slot;
      var j := ts[b].rid.value.slot;
      UsedTuplesAt(td, pageSize, img, s, i);
      UsedTuplesAt(td, pageSize, img, s, j);
      assert CountUsed(img.header, i) == a && CountUsed(img.header, j) == b by {
        UsedTuplesIndex(pid, td, pageSize, img, s, a);
        UsedTuplesIndex(pid, td, pageSize, img, s, b);
      }
      if j <= i {
        CountUsedMonotone(img.header, j, i);
      }
    }
  }

  /** `t` is the tuple held by an occupied slot numbered below `k`, and its
      record id names that slot. */
  predicate FromOccupiedSlot(img: PageImage, t: Tuple, k: nat) {
    && t.rid.Some?
    && 0 <= t.rid.value.slot < k
    && t.rid.value.slot < |img.slots|
    && t.rid.value.slot < 8 * |img.header|
    && Used(img.header, t.rid.value.slot)
    && img.slots[t.rid.value.slot] == Some(t)
  }

  /** Every tuple among the first `k` slots' yield comes from an occupied
      slot below `k`. */
  lemma {:induction false} UsedTuplesFrom(pid: HeapPageId, td: TupleDesc, pageSize: nat, img: PageImage, k: nat)
    requires Canonical(pid, td, pageSize, img) && k <= |img.slots|
    ensures AllUsedPresent(td, pageSize, img)
    ensures forall a :: 0 <= a < |UsedTuples(td, pageSize, img, k)| ==>
      FromOccupiedSlot(img, UsedTuples(td, pageSize, img, k)[a], k)
  {
    if k > 0 {
      UsedTuplesFrom(pid, td, pageSize, img, k - 1);
      var prev := UsedTuples(td, pageSize, img, k - 1);
      var ts := UsedTuples(td, pageSize, img, k);
      var tail := if Used(img.header, k - 1) then [img.slots[k - 1].value] else [];
      assert ts == prev + tail;
      forall a | 0 <= a < |ts|
        ensures FromOccupiedSlot(img, ts[a], k)
      {
        if a < |prev| {
          assert ts[a] == prev[a];
          assert FromOccupiedSlot(img, prev[a], k - 1);
        } else {
          assert Used(img.header, k - 1) && ts[a] == tail[0] == img.slots[k - 1].value;
          assert img.slots[k - 1].value.rid == Some(RecordId(pid, k - 1));
        }
      }
    }
  }

  lemma {:induction false} UsedTuplesIndex(pid: HeapPageId, td: TupleDesc, pageSize: nat, img: PageImage, k: nat, a: nat)
    requires Canonical(pid, td, pageSize, img) && k <= |img.slots|
    requires AllUsedPresent(td, pageSize, img)
    requires a < |UsedTuples(td, pageSize, img, k)|
    ensures var t := UsedTuples(td, pageSize, img, k)[a];
      t.rid.Some? && 0 <= t.rid.value.slot < k && CountUsed(img.header, t.rid.value.slot) == a
  {
    UsedTuplesFrom(pid, td, pageSize, img, k);
    var prev := UsedTuples(td, pageSize, img, k - 1);
    if a < |prev| {
      UsedTuplesIndex(pid, td, pageSize, img, k - 1, a);
    }
  }
}
