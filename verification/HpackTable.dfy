/** The combined index space over the static table and either dynamic table. */
module HpackTables {
  import opened Words
  import opened Outcomes
  import opened DynamicTables
  import opened StaticTable
  import opened TableObjects
  import opened Wire

  /** The decoder's table. */
  class DecoderTable {
    const st: seq<Entry>
    const dyn: DynamicTable

    ghost predicate Valid()
      reads this, dyn
    {
      dyn.Valid()
    }

    ghost function ToState(): State
      reads this, dyn
    {
      State(Entries(dyn.table), dyn.hpackMaxSize)
    }

    constructor (st: seq<Entry>, maxSize: nat)
      ensures Valid() && fresh(dyn) && this.st == st && ToState() == State([], maxSize)
    {
      this.st := st;
      dyn := new DynamicTable(maxSize);
    }

    method At(i: nat) returns (r: Outcome<Entry>)
      ensures r == TableAt(st, ToState().dyn, i)
    {
      if i == 0 {
        return Throws(RuntimeError);
      }
      if i <= |st| {
        return Ok(st[i - 1]);
      }
      r := dyn.At(i - |st|);
    }

    method Insert(name: seq<Byte>, value: seq<Byte>)
      requires Valid()
      modifies dyn
      ensures Valid()
      ensures ToState() == State(DecoderInsert(old(ToState()).dyn, Entry(name, value), old(ToState()).max),
        old(ToState()).max)
    {
      dyn.Insert(name, value);
    }

    method UpdateSize(size: nat)
      requires Valid()
      modifies dyn
      ensures Valid() && ToState() == State(Shrunk(old(ToState()).dyn, size), size)
    {
      dyn.UpdateSize(size);
    }
  }

  /** The encoder's table. */
  class EncoderTable {
    const st: seq<Entry>
    const dyn: IndexedDynamicTable

    ghost predicate Valid()
      reads this, dyn, dyn.base
    {
      dyn.Valid()
    }

    ghost function ToState(): State
      reads this, dyn, dyn.base
    {
      State(Entries(dyn.base.table), dyn.base.hpackMaxSize)
    }

    constructor (st: seq<Entry>, maxSize: nat)
      ensures Valid() && fresh(dyn) && fresh(dyn.base) && this.st == st && ToState() == State([], maxSize)
    {
      this.st := st;
      dyn := new IndexedDynamicTable(maxSize);
    }

    method Insert(name: seq<Byte>, value: seq<Byte>)
      requires Valid()
      modifies dyn, dyn.base
      ensures Valid()
      ensures ToState() == State(EncoderInsert(old(ToState()).dyn, Entry(name, value), old(ToState()).max),
        old(ToState()).max)
      ensures dyn.Indexes(Entry(name, value))
    {
      dyn.Insert(name, value);
    }

    /**
     * A pair of the static table is always found. A flagged index resolves to the pair; one without the
     * flag is the static index of the name, with another value, if the name is static; otherwise it is
     * the index within the dynamic table alone, without the offset of the static one.
     */
    method FieldIndex(name: seq<Byte>, value: seq<Byte>) returns (i: int, hasValue: bool)
      requires Valid() && |ToState().dyn| + 1 < TWO_32 / 2 && Grouped(st)
      ensures i == -1 || i > 0
      ensures Entry(name, value) in st ==> hasValue
      ensures hasValue ==> i > 0 && TableAt(st, ToState().dyn, i) == Ok(Entry(name, value))
      ensures dyn.Indexes(Entry(name, value)) && dyn.Consistent(Entry(name, value)) ==> hasValue
      ensures !hasValue && HasName(st, name) ==> 0 < i <= |st| && st[i - 1].name == name && st[i - 1].value != value
      ensures !hasValue && !HasName(st, name) && i != -1 ==> i <= |ToState().dyn| && ToState().dyn[i - 1].name == name
    {
      var found := StaticTable.FieldIndex(st, name, value);
      FieldIndexFinds(st, name, value);
      if found.1 {
        return found.0, true;
      }
      assert found.0 != -1 ==> st[found.0 - 1] in st;
      i, hasValue := dyn.FieldIndex(name, value);
      if hasValue {
        assert ToState().dyn[i - 1] == Entry(name, value);
        return i + |st|, true;
      } else if found.0 != -1 {
        return found.0, false;
      }
    }
  }
}
