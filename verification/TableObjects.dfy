/** The table objects: the plain list of the decoder, and the encoder's list with its pointer index. */
module TableObjects {
  import opened Words
  import opened Outcomes
  import opened DynamicTables

  /** A stored entry; records are shared by reference and never change. */
  class Record {
    const name: seq<Byte>
    const value: seq<Byte>
    const initIndex: nat

    constructor (name: seq<Byte>, value: seq<Byte>, initIndex: nat)
      ensures this.name == name && this.value == value && this.initIndex == initIndex
    {
      this.name := name;
      this.value := value;
      this.initIndex := initIndex;
    }

    function ToEntry(): Entry {
      Entry(name, value)
    }
  }

  function Entries(rs: seq<Record>): (es: seq<Entry>)
    ensures |es| == |rs|
    ensures forall i :: 0 <= i < |rs| ==> es[i] == rs[i].ToEntry()
  {
    seq(|rs|, i requires 0 <= i < |rs| => rs[i].ToEntry())
  }

  /** Serial numbers, modulo 2^32, are consecutive from the back to the front. */
  ghost predicate Numbered(rs: seq<Record>) {
    && (forall i :: 0 <= i < |rs| ==> rs[i].initIndex < TWO_32)
    && (forall i :: 0 <= i < |rs| - 1 ==> rs[i].initIndex == Wrap32(rs[i + 1].initIndex + 1))
  }

  ghost predicate Distinct(rs: seq<Record>) {
    forall i, j :: 0 <= i < j < |rs| ==> rs[i] != rs[j]
  }

  /** The distance in serial numbers is the distance in the list, modulo 2^32. */
  lemma {:induction false} SerialDistance(rs: seq<Record>, i: nat, j: nat)
    requires Numbered(rs) && i <= j < |rs| && j - i < TWO_32
    ensures rs[i].initIndex == Wrap32(rs[j].initIndex + (j - i))
    decreases j - i
  {
    if i < j {
      SerialDistance(rs, i + 1, j);
    }
  }

  /** A 64-bit number stored into a signed 32-bit one. */
  function ToInt32(v: nat): int {
    var low := v % TWO_32;
    if low < TWO_32 / 2 then low else low - TWO_32
  }

  /** The truncation undoes the wrap-around of the serial numbers. */
  lemma TruncatedPosition(i: nat, position: nat)
    requires i < TWO_32 / 2 && (position == i || position == i + TWO_32)
    ensures ToInt32(position) == i
  {
  }

  class DynamicTable {
    var table: seq<Record>
    var tableSize: nat
    var hpackMaxSize: nat

    ghost predicate Valid()
      reads this
    {
      && tableSize == Total(Entries(table))
      && Numbered(table)
      && Distinct(table)
    }

    constructor (maxSize: nat)
      ensures Valid() && Entries(table) == [] && hpackMaxSize == maxSize
    {
      table := [];
      tableSize := 0;
      hpackMaxSize := maxSize;
    }

    /** The entry at a 1-based index. */
    method At(i: nat) returns (r: Outcome<Entry>)
      requires i > 0
      ensures r == if i <= |table| then Ok(Entries(table)[i - 1]) else Throws(RuntimeError)
    {
      if i <= |table| {
        return Ok(table[i - 1].ToEntry());
      }
      return Throws(RuntimeError);
    }

    /** Takes the sizes of the evicted entries off and returns how many entries stay. */
    method ShrinkTo(rqSize: nat) returns (keep: nat)
      requires Valid()
      modifies this`tableSize
      ensures keep == ShrinkKeep(Entries(table), rqSize)
      ensures tableSize == Total(Entries(table[..keep]))
    {
      ghost var es := Entries(table);
      keep := |table|;
      assert table[..keep] == table;
      if tableSize <= rqSize {
        return;
      }
      var evictionSize := tableSize - rqSize;
      ghost var goal := EvictLoop(es, evictionSize);
      assert es[..keep] == es;
      var more := true;
      while more
        invariant 0 <= keep <= |table| && 0 <= evictionSize
        invariant tableSize == Total(es[..keep])
        invariant more ==> keep > 0 && goal == EvictLoop(es[..keep], evictionSize)
        invariant !more ==> keep == goal
        decreases more, keep
      {
        EvictStep(es, keep, evictionSize);
        TotalStep(es, keep);
        keep := keep - 1;
        var sz := HpackSize(table[keep].ToEntry());
        evictionSize := Wrap64(evictionSize - sz);
        tableSize := tableSize - sz;
        more := keep != 0 && evictionSize > 0;
      }
      assert Entries(table[..keep]) == es[..keep];
    }

    /** Drops the evicted records. */
    method EraseFrom(keep: nat)
      requires keep <= |table| && tableSize == Total(Entries(table[..keep])) && Numbered(table) && Distinct(table)
      modifies this`table
      ensures Valid() && table == old(table)[..keep]
    {
      table := table[..keep];
    }

    /** Puts a record with the next serial number in front. */
    method InsertImpl(name: seq<Byte>, value: seq<Byte>)
      requires Valid()
      modifies this
      ensures Valid() && hpackMaxSize == old(hpackMaxSize)
      ensures |table| == |old(table)| + 1 && table[1..] == old(table) && fresh(table[0])
      ensures Entries(table) == [Entry(name, value)] + old(Entries(table))
    {
      var index := 0;
      if table != [] {
        index := Wrap32(table[0].initIndex + 1);
      }
      var r := new Record(name, value, index);
      EntriesCons(r, table);
      NumberedCons(r, table);
      table := [r] + table;
      tableSize := tableSize + HpackSize(r.ToEntry());
    }

    method Insert(name: seq<Byte>, value: seq<Byte>)
      requires Valid()
      modifies this
      ensures Valid() && hpackMaxSize == old(hpackMaxSize)
      ensures Entries(table) == DecoderInsert(old(Entries(table)), Entry(name, value), hpackMaxSize)
    {
      var hsize := HpackSize(Entry(name, value));
      var rqSize := if hsize + tableSize > hpackMaxSize then Wrap64(hpackMaxSize - hsize) else hsize + tableSize;
      ghost var goal := DecoderInsert(Entries(table), Entry(name, value), hpackMaxSize);
      assert goal == [Entry(name, value)] + Shrunk(Entries(table), rqSize);
      Evict(rqSize);
      InsertImpl(name, value);
    }

    /** Shrinks and erases. */
    method Evict(rqSize: nat)
      requires Valid()
      modifies this
      ensures Valid() && hpackMaxSize == old(hpackMaxSize)
      ensures Entries(table) == Shrunk(old(Entries(table)), rqSize)
    {
      var keep := ShrinkTo(rqSize);
      EntriesPrefix(table, keep);
      EraseFrom(keep);
    }

    method UpdateSize(size: nat)
      requires Valid()
      modifies this
      ensures Valid() && hpackMaxSize == size
      ensures Entries(table) == Shrunk(old(Entries(table)), size)
    {
      Evict(size);
      hpackMaxSize := size;
    }

    /** The position computed from serial numbers: right modulo 2^32. */
    method RecordIndex(ghost k: nat, r: Record) returns (i: nat)
      requires Numbered(table) && k < |table| < TWO_32 / 2 && table[k] == r
      ensures i == k + 1 || i == k + 1 + TWO_32
      ensures i == k + 1 <==> table[|table| - 1].initIndex + (|table| - 1 - k) < TWO_32
    {
      var back := table[|table| - 1].initIndex;
      SerialDistance(table, k, |table| - 1);
      i := Wrap64(|table| + back - r.initIndex);
    }
  }

  lemma EntriesCons(r: Record, rs: seq<Record>)
    ensures Entries([r] + rs) == [r.ToEntry()] + Entries(rs)
    ensures Total(Entries([r] + rs)) == HpackSize(r.ToEntry()) + Total(Entries(rs))
  {
    assert Entries([r] + rs) == [r.ToEntry()] + Entries(rs);
    TotalConcat([r.ToEntry()], Entries(rs));
    OneEntry(r.ToEntry());
  }

  lemma NumberedCons(r: Record, rs: seq<Record>)
    requires Numbered(rs) && Distinct(rs) && r !in rs
    requires r.initIndex == if rs == [] then 0 else Wrap32(rs[0].initIndex + 1)
    ensures Numbered([r] + rs) && Distinct([r] + rs)
  {
  }

  lemma TotalStep(es: seq<Entry>, n: nat)
    requires 0 < n <= |es|
    ensures Total(es[..n]) == Total(es[..n - 1]) + HpackSize(es[n - 1])
  {
    assert es[..n][..n - 1] == es[..n - 1];
  }

  lemma EntriesPrefix(rs: seq<Record>, k: nat)
    requires k <= |rs|
    ensures Entries(rs[..k]) == Entries(rs)[..k]
  {
  }

  // ---------------------------------------------------------------- the encoder's table

  /** Every pointer of the index is a live record, and no two have equal keys. */
  ghost predicate IndexedBy(rs: seq<Record>, index: set<Record>) {
    && (forall r :: r in index ==> r in rs)
    && (forall r, q :: r in index && q in index && r.ToEntry() == q.ToEntry() ==> r == q)
  }

  lemma IndexedCons(rs: seq<Record>, tail: seq<Record>, index: set<Record>)
    requires rs != [] && rs[1..] == tail && IndexedBy(tail, index)
    ensures IndexedBy(rs, index)
  {
    assert forall r :: r in tail ==> r in rs;
  }

  /** Some record has this name and value. */
  predicate HasKey(rs: seq<Record>, key: Entry) {
    exists i :: 0 <= i < |rs| && rs[i].ToEntry() == key
  }

  lemma MoreKeys(rs: seq<Record>, lo: nat, hi: nat)
    requires lo <= hi < |rs|
    ensures forall key :: HasKey(rs[lo..hi + 1], key) <==> HasKey(rs[lo..hi], key) || rs[hi].ToEntry() == key
  {
    var part := rs[lo..hi + 1];
    forall key
      ensures HasKey(part, key) <==> HasKey(rs[lo..hi], key) || rs[hi].ToEntry() == key
    {
      assert part == rs[lo..hi] + [rs[hi]];
      assert part[hi - lo] == rs[hi];
      if HasKey(rs[lo..hi], key) {
        var i :| 0 <= i < hi - lo && rs[lo..hi][i].ToEntry() == key;
        assert part[i].ToEntry() == key;
      }
    }
  }

  lemma KeysFrom(rs: seq<Record>, keep: nat)
    requires keep <= |rs|
    ensures forall k :: keep <= k < |rs| ==> HasKey(rs[keep..], rs[k].ToEntry())
  {
    forall k | keep <= k < |rs|
      ensures HasKey(rs[keep..], rs[k].ToEntry())
    {
      assert rs[keep..][k - keep] == rs[k];
    }
  }

  /** The order of octet vectors, by which the set keeps its elements. */
  predicate VectorLess(a: seq<Byte>, b: seq<Byte>) {
    b != [] && (a == [] || a[0] < b[0] || (a[0] == b[0] && VectorLess(a[1..], b[1..])))
  }

  /** The order of spans, by which the set is searched: shorter ones first. */
  predicate SpanLess(a: seq<Byte>, b: seq<Byte>) {
    |a| < |b| || (|a| == |b| && VectorLess(a, b))
  }

  predicate KeptBefore(a: Entry, b: Entry) {
    VectorLess(a.name, b.name) || (a.name == b.name && VectorLess(a.value, b.value))
  }

  predicate SoughtBefore(a: Entry, b: Entry) {
    SpanLess(a.name, b.name) || (a.name == b.name && SpanLess(a.value, b.value))
  }

  class IndexedDynamicTable {
    const base: DynamicTable
    var indexSet: set<Record>

    ghost predicate Valid()
      reads this, base
    {
      base.Valid() && IndexedBy(base.table, indexSet)
    }

    constructor (maxSize: nat)
      ensures Valid() && fresh(base) && Entries(base.table) == [] && base.hpackMaxSize == maxSize
    {
      base := new DynamicTable(maxSize);
      indexSet := {};
    }

    /** Removes the keys of the records from `keep` on, by key as the set does, not by address. */
    method Unindex(keep: nat)
      requires keep <= |base.table| && IndexedBy(base.table, indexSet)
      modifies this`indexSet
      ensures IndexedBy(base.table[..keep], indexSet)
      ensures indexSet == set q | q in old(indexSet) && !HasKey(base.table[keep..], q.ToEntry())
    {
      var i := keep;
      while i < |base.table|
        invariant keep <= i <= |base.table|
        invariant forall q :: q in indexSet <==> q in old(indexSet) && !HasKey(base.table[keep..i], q.ToEntry())
      {
        MoreKeys(base.table, keep, i);
        var key := base.table[i].ToEntry();
        indexSet := set q | q in indexSet && q.ToEntry() != key;
        i := i + 1;
      }
      assert base.table[keep..i] == base.table[keep..];
      KeysFrom(base.table, keep);
      forall r | r in indexSet
        ensures r in base.table[..keep]
      {
        var k :| 0 <= k < |base.table| && base.table[k] == r;
        assert k < keep;
        assert base.table[..keep][k] == r;
      }
    }

    /** Adds a record unless its key is present. */
    method Index(r: Record)
      requires IndexedBy(base.table, indexSet) && r in base.table
      modifies this`indexSet
      ensures IndexedBy(base.table, indexSet)
      ensures Indexes(r.ToEntry())
      ensures indexSet == old(indexSet) || indexSet == old(indexSet) + {r}
    {
      if q :| q in indexSet && q.ToEntry() == r.ToEntry() {
      } else {
        indexSet := indexSet + {r};
      }
    }

    method Insert(name: seq<Byte>, value: seq<Byte>)
      requires Valid()
      modifies this, base
      ensures Valid() && base.hpackMaxSize == old(base.hpackMaxSize)
      ensures Entries(base.table) == EncoderInsert(old(Entries(base.table)), Entry(name, value), base.hpackMaxSize)
      ensures Indexes(Entry(name, value))
    {
      var hsize := HpackSize(Entry(name, value));
      var rqSize := if hsize > base.hpackMaxSize then 0 else base.hpackMaxSize - hsize;
      ghost var goal := EncoderInsert(Entries(base.table), Entry(name, value), base.hpackMaxSize);
      assert goal == [Entry(name, value)] + Shrunk(Entries(base.table), rqSize);
      Evict(rqSize);
      PushFront(name, value);
    }

    method PushFront(name: seq<Byte>, value: seq<Byte>)
      requires Valid()
      modifies this, base
      ensures Valid() && base.hpackMaxSize == old(base.hpackMaxSize)
      ensures Entries(base.table) == [Entry(name, value)] + old(Entries(base.table))
      ensures indexSet == old(indexSet) || indexSet == old(indexSet) + {base.table[0]}
      ensures Indexes(Entry(name, value))
    {
      ghost var kept := base.table;
      base.InsertImpl(name, value);
      IndexedCons(base.table, kept, indexSet);
      Index(base.table[0]);
    }

    method Evict(rqSize: nat)
      requires Valid()
      modifies this, base
      ensures Valid() && base.hpackMaxSize == old(base.hpackMaxSize)
      ensures Entries(base.table) == Shrunk(old(Entries(base.table)), rqSize)
      ensures |base.table| <= |old(base.table)|
      ensures indexSet == set q | q in old(indexSet) && !HasKey(old(base.table)[|base.table|..], q.ToEntry())
    {
      var keep := base.ShrinkTo(rqSize);
      Unindex(keep);
      EntriesPrefix(base.table, keep);
      base.EraseFrom(keep);
    }

    method UpdateSize(size: nat)
      requires Valid()
      modifies this, base
      ensures Valid() && base.hpackMaxSize == size
      ensures Entries(base.table) == Shrunk(old(Entries(base.table)), size)
    {
      Evict(size);
      base.hpackMaxSize := size;
    }

    /** The key is in the set. */
    predicate Indexes(key: Entry)
      reads this
    {
      exists q :: q in indexSet && q.ToEntry() == key
    }

    /** Both orders agree about which elements come before the key. */
    predicate Consistent(key: Entry)
      reads this
    {
      forall q :: q in indexSet ==> (KeptBefore(q.ToEntry(), key) <==> SoughtBefore(q.ToEntry(), key))
    }

    /**
     * The set is searched with an order other than its own. If both agree about the key and it is there, then
     * it is the first element that is not before it; otherwise any element, or none, may come back.
     */
    method LowerBound(name: seq<Byte>, value: seq<Byte>) returns (it: Option<Record>)
      ensures it.Some? ==> it.value in indexSet
      ensures Indexes(Entry(name, value)) && Consistent(Entry(name, value)) ==>
        it.Some? && it.value.ToEntry() == Entry(name, value)
    {
      if Indexes(Entry(name, value)) && Consistent(Entry(name, value)) {
        var q :| q in indexSet && q.ToEntry() == Entry(name, value);
        return Some(q);
      } else if * {
        return None;
      } else if indexSet != {} {
        var r :| r in indexSet;
        return Some(r);
      }
      return None;
    }

    /** A hit is the true position of a record with this name; the flag tells whether the value is equal. */
    method FieldIndex(name: seq<Byte>, value: seq<Byte>) returns (i: int, hasValue: bool)
      requires Valid() && |base.table| + 1 < TWO_32 / 2
      ensures i == -1 ==> !hasValue
      ensures i != -1 ==>
                && 1 <= i <= |base.table|
                && base.table[i - 1].name == name
                && (hasValue <==> base.table[i - 1].value == value)
      ensures Indexes(Entry(name, value)) && Consistent(Entry(name, value)) ==> hasValue
    {
      var it := LowerBound(name, value);
      if it.None? {
        return -1, false;
      }
      i := -1;
      hasValue := false;
      var record := it.value;
      if record.name == name {
        ghost var k :| 0 <= k < |base.table| && base.table[k] == record;
        var position := base.RecordIndex(k, record);
        TruncatedPosition(k + 1, position);
        i := ToInt32(position);
        hasValue := record.value == value;
      }
    }
  }
}
