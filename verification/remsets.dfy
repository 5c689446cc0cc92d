/**
 * Remembered sets and write barriers of the sgen collector (sgen-gc.c).
 *
 * A store of a reference into a slot outside the nursery is logged by the
 * write barrier in the storing thread's remembered set, so that a nursery
 * collection can find the old-generation slots that may point into the
 * nursery without scanning the old generation.  A remembered set is a chain
 * of fixed-size buffers of words, the newest at the head; an entry takes one
 * to four words and its kind sits in the two low bits of its first word:
 *
 *   LOCATION  [slot]                           one pointer slot
 *   RANGE     [slot|1, count]                  count consecutive slots
 *   OBJECT    [obj|2]                          every slot of an object
 *   OTHER     [dest|3, VTYPE, desc, count]     count value types after dest
 *             [slot|3, ROOT_LOCATION]          a slot inside a root
 *
 * At a nursery collection the global remembered set (slots that still point
 * into the nursery after the previous collection, usually at pinned objects)
 * is replayed and compacted in place, then every thread's set is replayed and
 * emptied, reporting to the global set the slots that still point into the
 * nursery.
 */
module GcRemsets {
  import opened GcDescriptors
  import opened GcHeap

  /** The kinds of an entry, in the two low bits of its first word. */
  const RemsetLocation: nat := 0
  const RemsetRange: nat := 1
  const RemsetObject: nat := 2
  const RemsetOther: nat := 3
  const RemsetTypeMask: nat := 3
  /** The subtypes of REMSET_OTHER, in its second word. */
  const RemsetVtype: Word := 0
  const RemsetRootLocation: Word := 1
  /** DEFAULT_REMSET_SIZE: the words of every remembered-set buffer. */
  const DefaultRemsetSize: nat := 1024

  /**
   * ptr_in_nursery.  The collector is built with ALIGN_NURSERY, so the test
   * masks off the low DEFAULT_NURSERY_BITS; the nursery is aligned to its
   * size, and then the mask test is this range test (GcHeap.PtrInNurseryIsRange).
   */
  predicate InNursery(ptr: nat, nurseryStart: nat)
  {
    nurseryStart <= ptr < nurseryStart + NurserySize
  }

  // ------------------------------------------------------------------ entries

  /** One entry of a remembered set. */
  datatype Entry =
    | Location(ptr: Word)
    | Range(ptr: Word, count: Word)
    | Object(ptr: Word)
    | Vtype(ptr: Word, desc: Word, count: Word)
    | RootLocation(ptr: Word)

  /** The two low bits of the address are free to carry the kind. */
  predicate Aligned(ptr: nat)
  {
    ptr % 4 == 0
  }

  /** A word slot (8-aligned) leaves room for the tag. */
  lemma SlotAligned(ptr: nat)
    requires ptr % 8 == 0
    ensures Aligned(ptr)
  {
    var k := ptr / 8;
    assert ptr == 4 * (2 * k);
  }

  predicate AllAligned(es: seq<Entry>)
  {
    forall i :: 0 <= i < |es| ==> Aligned(es[i].ptr)
  }

  /** The entries add_to_global_remset makes: the only ones a global remembered set holds. */
  predicate GlobalKind(e: Entry)
  {
    e.Location? || e.RootLocation?
  }

  predicate GlobalKinds(es: seq<Entry>)
  {
    forall i :: 0 <= i < |es| ==> GlobalKind(es[i]) && Aligned(es[i].ptr)
  }

  /** `(mword)ptr | tag` for an aligned ptr: the tag reads back from the low bits, the address from the rest. */
  function Tagged(ptr: Word, tag: nat): (r: Word)
    requires Aligned(ptr) && tag <= RemsetTypeMask
    ensures r % 4 == tag && r - r % 4 == ptr
  {
    ptr + tag
  }

  /** The words the write barriers store for an entry. */
  function Encode(e: Entry): (r: seq<Word>)
    requires Aligned(e.ptr)
  {
    match e
    case Location(ptr) => [ptr]
    case Range(ptr, count) => [Tagged(ptr, RemsetRange), count]
    case Object(ptr) => [Tagged(ptr, RemsetObject)]
    case Vtype(ptr, desc, count) => [Tagged(ptr, RemsetOther), RemsetVtype, desc, count]
    case RootLocation(ptr) => [Tagged(ptr, RemsetOther), RemsetRootLocation]
  }

  /** How far handle_remset moves past an entry: 1, 2, 1, 4 and 2 words. */
  function Size(e: Entry): nat
  {
    match e
    case Location(_) => 1
    case Range(_, _) => 2
    case Object(_) => 1
    case Vtype(_, _, _) => 4
    case RootLocation(_) => 2
  }

  /** `*p & ~REMSET_TYPE_MASK`: the address an entry's first word carries. */
  function Address(w: Word): Word
  {
    w - w % 4
  }

  /**
   * The entry at the start of ws as handle_remset reads it: the kind from the
   * low bits, the address with them cleared.  None where the words run out
   * or where the source asserts (an OTHER entry of an unknown subtype).
   */
  function EntryAt(ws: seq<Word>): (r: Option<Entry>)
    ensures r.Some? ==> 1 <= Size(r.value) <= |ws| && Aligned(r.value.ptr)
    ensures r.Some? ==> ws[..Size(r.value)] == Encode(r.value)
  {
    if |ws| == 0 then None
    else
      var tag := ws[0] % 4;
      var ptr := Address(ws[0]);
      if tag == RemsetLocation then Some(Location(ptr))
      else if tag == RemsetRange then (if |ws| < 2 then None else Some(Range(ptr, ws[1])))
      else if tag == RemsetObject then Some(Object(ptr))
      else if |ws| < 2 then None
      else if ws[1] == RemsetVtype then (if |ws| < 4 then None else Some(Vtype(ptr, ws[2], ws[3])))
      else if ws[1] == RemsetRootLocation then Some(RootLocation(ptr))
      else None
  }

  /** An entry read back from its own words, whatever follows them. */
  lemma EncodeDecodes(e: Entry, rest: seq<Word>)
    requires Aligned(e.ptr)
    ensures |Encode(e)| == Size(e)
    ensures EntryAt(Encode(e) + rest) == Some(e)
  {
    var ws := Encode(e) + rest;
    assert ws[0] == Encode(e)[0];
    if |Encode(e)| > 1 {
      assert ws[1] == Encode(e)[1];
    }
    if e.Vtype? {
      assert ws[2] == e.desc && ws[3] == e.count;
    }
  }

  /** The entries of a run of words, in order; None when the words do not split into entries. */
  function Parse(ws: seq<Word>): (r: Option<seq<Entry>>)
    decreases |ws|
  {
    if |ws| == 0 then Some([])
    else
      match EntryAt(ws)
      case None => None
      case Some(e) =>
        match Parse(ws[Size(e)..])
        case None => None
        case Some(es) => Some([e] + es)
  }

  /** The words of a run of entries. */
  function Flatten(es: seq<Entry>): (r: seq<Word>)
    requires AllAligned(es)
  {
    if |es| == 0 then [] else Encode(es[0]) + Flatten(es[1..])
  }

  lemma {:induction false} FlattenAppend(a: seq<Entry>, b: seq<Entry>)
    requires AllAligned(a) && AllAligned(b)
    ensures AllAligned(a + b) && Flatten(a + b) == Flatten(a) + Flatten(b)
  {
    if |a| > 0 {
      assert (a + b)[0] == a[0] && (a + b)[1..] == a[1..] + b;
      FlattenAppend(a[1..], b);
      assert Flatten(a + b) == Encode(a[0]) + Flatten(a[1..] + b);
    } else {
      assert a + b == b;
    }
  }

  /** Parsing the words of some entries gives those entries back. */
  lemma {:induction false} ParseFlatten(es: seq<Entry>)
    requires AllAligned(es)
    ensures Parse(Flatten(es)) == Some(es)
  {
    if |es| > 0 {
      var ws := Flatten(es);
      EncodeDecodes(es[0], Flatten(es[1..]));
      assert ws[Size(es[0])..] == Flatten(es[1..]);
      ParseFlatten(es[1..]);
      assert [es[0]] + es[1..] == es;
    }
  }

  /** Words that parse are the words of their entries. */
  lemma {:induction false} FlattenParse(ws: seq<Word>)
    requires Parse(ws).Some?
    ensures AllAligned(Parse(ws).value) && Flatten(Parse(ws).value) == ws
    decreases |ws|
  {
    if |ws| > 0 {
      var e := EntryAt(ws).value;
      FlattenParse(ws[Size(e)..]);
      assert ws == ws[..Size(e)] + ws[Size(e)..];
    }
  }

  /** Two runs of whole entries side by side are a run of whole entries. */
  lemma ParseAppend(a: seq<Word>, b: seq<Word>)
    requires Parse(a).Some? && Parse(b).Some?
    ensures Parse(a + b) == Some(Parse(a).value + Parse(b).value)
  {
    FlattenParse(a);
    FlattenParse(b);
    FlattenAppend(Parse(a).value, Parse(b).value);
    ParseFlatten(Parse(a).value + Parse(b).value);
  }

  /** One entry's words parse as that entry. */
  lemma ParseEncode(e: Entry)
    requires Aligned(e.ptr)
    ensures Parse(Encode(e)) == Some([e])
  {
    assert Flatten([e]) == Encode(e);
    ParseFlatten([e]);
  }

  // ------------------------------------------------------------------ buffers

  /**
   * A RememberedSet: the words data[0 .. end_set - data) filled up to
   * store_next.  Its `next` link is the order of the chain holding it.
   */
  class RememberedSet {
    const data: array<Word>
    var storeNext: nat

    ghost predicate Valid()
      reads this
    {
      storeNext <= data.Length
    }

    /** The words written so far. */
    ghost function Stored(): seq<Word>
      reads this, data
      requires Valid()
    {
      data[..storeNext]
    }

    /** alloc_remset: an empty buffer of `size` words. */
    constructor (size: nat)
      ensures Valid() && data.Length == size && storeNext == 0 && fresh(data)
    {
      data := new Word[size](_ => 0);
      storeNext := 0;
    }

    /** `*(rs->store_next++) = w` for each word w of ws, in order. */
    method Append(ws: seq<Word>)
      requires Valid() && storeNext + |ws| <= data.Length
      modifies this, data
      ensures Valid() && Stored() == old(Stored()) + ws
    {
      var i := 0;
      while i < |ws|
        invariant 0 <= i <= |ws| && storeNext == old(storeNext) + i
        invariant data[..storeNext] == old(data[..storeNext]) + ws[..i]
      {
        data[storeNext] := ws[i];
        assert data[..storeNext + 1] == data[..storeNext] + [ws[i]];
        assert ws[..i + 1] == ws[..i] + [ws[i]];
        storeNext := storeNext + 1;
        i := i + 1;
      }
      assert ws[..i] == ws;
    }
  }

  /** The word arrays of a chain's buffers. */
  ghost function Arrays(cs: seq<RememberedSet>): set<array<Word>>
    decreases |cs|
  {
    if |cs| == 0 then {} else {cs[0].data} + Arrays(cs[1..])
  }

  /** Every array of a chain is some buffer's words (so it is allocated whenever the buffers are). */
  lemma {:induction false} ArraysOf(cs: seq<RememberedSet>)
    ensures forall a :: a in Arrays(cs) ==> exists i :: 0 <= i < |cs| && a == cs[i].data
    decreases |cs|
  {
    if |cs| > 0 {
      ArraysOf(cs[1..]);
      assert forall i :: 0 <= i < |cs| - 1 ==> cs[1..][i] == cs[i + 1];
    }
  }

  /** Every buffer holds whole entries in DEFAULT_REMSET_SIZE words, and no two buffers share their words. */
  ghost predicate ChainOk(cs: seq<RememberedSet>)
    reads cs, Arrays(cs)
    decreases |cs|
  {
    |cs| == 0 ||
      (&& cs[0].Valid() && cs[0].data.Length == DefaultRemsetSize
       && Parse(cs[0].data[..cs[0].storeNext]).Some?
       && cs[0].data !in Arrays(cs[1..])
       && ChainOk(cs[1..]))
  }

  /** The entries of a chain in the order they were logged: the oldest buffer (the tail) first. */
  ghost function EntriesOf(cs: seq<RememberedSet>): seq<Entry>
    reads cs, Arrays(cs)
    requires ChainOk(cs)
    decreases |cs|
  {
    if |cs| == 0 then []
    else EntriesOf(cs[1..]) + Parse(cs[0].data[..cs[0].storeNext]).value
  }

  /** A chain is its head before the rest of the chain. */
  lemma ChainSplit(cs: seq<RememberedSet>)
    requires ChainOk(cs) && |cs| >= 1
    ensures cs == [cs[0]] + cs[1..] && ChainOk(cs[1..]) && cs[0] !in cs[1..] && cs[0].data !in Arrays(cs[1..])
    ensures EntriesOf(cs) == EntriesOf(cs[1..]) + Parse(cs[0].data[..cs[0].storeNext]).value
  {
    if cs[0] in cs[1..] {
      var j :| 0 <= j < |cs[1..]| && cs[1..][j] == cs[0];
      InArrays(cs[1..], j);
    }
  }

  lemma {:induction false} InArrays(cs: seq<RememberedSet>, j: nat)
    requires j < |cs|
    ensures cs[j].data in Arrays(cs)
    decreases j
  {
    if j > 0 {
      InArrays(cs[1..], j - 1);
    }
  }

  /** A chain none of whose buffers changed keeps its entries. */
  twostate lemma {:induction false} ChainKept(cs: seq<RememberedSet>)
    requires old(ChainOk(cs))
    requires forall i :: 0 <= i < |cs| ==> unchanged(cs[i]) && unchanged(cs[i].data)
    ensures ChainOk(cs) && EntriesOf(cs) == old(EntriesOf(cs))
    decreases |cs|
  {
    if |cs| > 0 {
      assert forall i :: 0 <= i < |cs| - 1 ==> cs[1..][i] == cs[i + 1];
      ChainKept(cs[1..]);
      assert cs[0].data[..cs[0].storeNext] == old(cs[0].data[..cs[0].storeNext]);
    }
  }

  /** A buffer put in front of a chain. */
  lemma ChainCons(rs: RememberedSet, cs: seq<RememberedSet>)
    requires ChainOk(cs) && rs.Valid() && rs.data.Length == DefaultRemsetSize
    requires Parse(rs.data[..rs.storeNext]).Some? && rs.data !in Arrays(cs)
    ensures ChainOk([rs] + cs)
    ensures EntriesOf([rs] + cs) == EntriesOf(cs) + Parse(rs.data[..rs.storeNext]).value
  {
    assert ([rs] + cs)[1..] == cs;
  }

  // ------------------------------------------------------------------ logs

  /**
   * A remembered set as a chain of buffers: a thread's REMEMBERED_SET, or
   * global_remset.  chain[0] is the head, the buffer the barriers fill; the
   * others follow along `next`.
   */
  class RemsetLog {
    var chain: seq<RememberedSet>

    ghost predicate Valid()
      reads this, chain, Arrays(chain)
    {
      |chain| >= 1 && ChainOk(chain)
    }

    /** Everything logged, oldest first. */
    ghost function Entries(): seq<Entry>
      reads this, chain, Arrays(chain)
      requires Valid()
    {
      EntriesOf(chain)
    }

    /** A set made by alloc_remset (DEFAULT_REMSET_SIZE, …): one empty buffer. */
    constructor ()
      ensures Valid() && |chain| == 1 && fresh(chain[0]) && fresh(chain[0].data)
      ensures Entries() == []
    {
      var rs := new RememberedSet(DefaultRemsetSize);
      chain := [rs];
      new;
      assert rs.data[..rs.storeNext] == [];
      assert chain[1..] == [];
      assert ChainOk(chain);
      assert EntriesOf(chain[1..]) == [];
      assert Parse(rs.data[..rs.storeNext]) == Some([]);
      assert EntriesOf(chain) == [];
    }

    /**
     * The set logged e: it went to the end of the head buffer when the room
     * test passed (`room` free words), else into a new buffer of the same
     * size pushed at the head.
     */
    twostate predicate Logged(e: Entry, room: nat)
      reads this, chain, Arrays(chain)
    {
      && old(Valid()) && Valid()
      && Entries() == old(Entries()) + [e]
      && if old(chain[0].storeNext) + room <= DefaultRemsetSize then
           && chain == old(chain)
           && chain[0].storeNext == old(chain[0].storeNext) + Size(e)
         else
           && |chain| == |old(chain)| + 1 && chain[1..] == old(chain)
           && fresh(chain[0]) && fresh(chain[0].data)
           && chain[0].storeNext == Size(e)
    }

    /** The set is as it was. */
    twostate predicate Untouched()
      reads this, chain, Arrays(chain)
    {
      chain == old(chain) && |chain| >= 1 && unchanged(chain[0]) && unchanged(chain[0].data)
    }

    /**
     * The logging step every barrier shares: when the head has `room` free
     * words (the source's `store_next + room - 1 < end_set`) the entry's
     * words go there; otherwise alloc_remset makes a buffer of the head's
     * size, it becomes the head, and the words go there.
     */
    method Record(e: Entry, room: nat)
      requires Valid() && Aligned(e.ptr) && Size(e) <= room <= DefaultRemsetSize
      modifies this, chain[0], chain[0].data
      ensures Logged(e, room)
    {
      if chain[0].storeNext + room > chain[0].data.Length {
        Grow();
      }
      Fill(e);
    }

    /** alloc_remset of the head's size, linked in front of the head. */
    method Grow()
      requires Valid()
      modifies this
      ensures Valid() && Entries() == old(Entries())
      ensures |chain| == |old(chain)| + 1 && chain[1..] == old(chain)
      ensures fresh(chain[0]) && fresh(chain[0].data) && chain[0].storeNext == 0
    {
      ArraysOf(chain);
      var rs := new RememberedSet(chain[0].data.Length);
      assert rs.data[..rs.storeNext] == [];
      ChainCons(rs, chain);
      chain := [rs] + chain;
    }

    /** The entry's words at the end of the head buffer, which has room for them. */
    method Fill(e: Entry)
      requires Valid() && Aligned(e.ptr) && chain[0].storeNext + Size(e) <= chain[0].data.Length
      modifies chain[0], chain[0].data
      ensures Valid() && Entries() == old(Entries()) + [e]
      ensures chain[0].storeNext == old(chain[0].storeNext) + Size(e)
    {
      EncodeDecodes(e, []);
      ParseEncode(e);
      var rs := chain[0];
      ghost var rest := chain[1..];
      ChainSplit(chain);
      ghost var before := rs.Stored();
      label Filled:
      rs.Append(Encode(e));
      ParseAppend(before, Encode(e));
      forall i | 0 <= i < |rest|
        ensures unchanged@Filled(rest[i]) && unchanged@Filled(rest[i].data)
      {
        InArrays(rest, i);
      }
      ChainKept@Filled(rest);
      ChainCons(rs, rest);
    }

    /** clear_remsets, and the end of a thread's replay: the head emptied, every other buffer freed. */
    method Reset()
      requires Valid()
      modifies this, chain[0]
      ensures Valid() && chain == [old(chain[0])] && chain[0].storeNext == 0
      ensures Entries() == []
    {
      var head := chain[0];
      head.storeNext := 0;
      chain := [head];
      assert head.data[..head.storeNext] == [];
      assert chain[1..] == [];
      assert Parse(head.data[..head.storeNext]) == Some([]);
      assert EntriesOf(chain[1..]) == [];
      assert EntriesOf(chain) == [];
    }

    // -------------------------------------------------------------- barriers

    /**
     * mono_gc_wbarrier_set_field and mono_gc_wbarrier_set_arrayref: a slot in
     * the nursery is only stored to; any other slot is logged as a LOCATION
     * entry (room test `store_next < end_set`) and then stored to.
     */
    method SetField(mem: Heap, fieldPtr: Word, value: Word, nurseryStart: nat) returns (mem': Heap)
      requires Valid() && Mapped(mem, fieldPtr, 1)
      modifies this, chain[0], chain[0].data
      ensures Valid() && mem' == mem[fieldPtr / 8 := value]
      ensures InNursery(fieldPtr, nurseryStart) ==> Untouched()
      ensures !InNursery(fieldPtr, nurseryStart) ==> Logged(Location(fieldPtr), 1)
    {
      SlotAligned(fieldPtr);
      if InNursery(fieldPtr, nurseryStart) {
        mem' := mem[fieldPtr / 8 := value];
        return;
      }
      Record(Location(fieldPtr), 1);
      mem' := mem[fieldPtr / 8 := value];
    }

    /**
     * mono_gc_wbarrier_arrayref_copy: after `count` slots from slotPtr were
     * copied, a RANGE entry covering them (room test `store_next + 1 <
     * end_set`), unless they are in the nursery.  The int count is stored as
     * a word, so a negative one wraps.
     */
    method ArrayrefCopy(slotPtr: Word, count: int, nurseryStart: nat)
      requires Valid() && Aligned(slotPtr) && -0x8000_0000 <= count < 0x8000_0000
      modifies this, chain[0], chain[0].data
      ensures Valid()
      ensures InNursery(slotPtr, nurseryStart) ==> Untouched()
      ensures !InNursery(slotPtr, nurseryStart) ==> Logged(Range(slotPtr, count % TwoTo64), 2)
    {
      if InNursery(slotPtr, nurseryStart) {
        return;
      }
      Record(Range(slotPtr, count % TwoTo64), 2);
    }

    /**
     * mono_gc_wbarrier_generic_nostore: a LOCATION entry for a slot outside
     * the nursery that lies in the managed heap (ptr_in_heap, given as inHeap).
     */
    method GenericNostore(ptr: Word, nurseryStart: nat, inHeap: nat -> bool)
      requires Valid() && Aligned(ptr)
      modifies this, chain[0], chain[0].data
      ensures Valid()
      ensures InNursery(ptr, nurseryStart) || !inHeap(ptr) ==> Untouched()
      ensures !InNursery(ptr, nurseryStart) && inHeap(ptr) ==> Logged(Location(ptr), 1)
    {
      if InNursery(ptr, nurseryStart) || !inHeap(ptr) {
        return;
      }
      Record(Location(ptr), 1);
    }

    /** mono_gc_wbarrier_generic_store: the store, then GenericNostore. */
    method GenericStore(mem: Heap, ptr: Word, value: Word, nurseryStart: nat, inHeap: nat -> bool) returns (mem': Heap)
      requires Valid() && Mapped(mem, ptr, 1)
      modifies this, chain[0], chain[0].data
      ensures Valid() && mem' == mem[ptr / 8 := value]
      ensures InNursery(ptr, nurseryStart) || !inHeap(ptr) ==> Untouched()
      ensures !InNursery(ptr, nurseryStart) && inHeap(ptr) ==> Logged(Location(ptr), 1)
    {
      SlotAligned(ptr);
      mem' := mem[ptr / 8 := value];
      GenericNostore(ptr, nurseryStart, inHeap);
    }

    /**
     * mono_gc_wbarrier_set_root as written: a root slot outside the nursery
     * is logged as a ROOT_LOCATION entry (room test `store_next + 2 <
     * end_set`, one word more than the entry needs) and stored to; a slot in
     * the nursery is left alone, the store included.
     */
    method SetRootAsWritten(mem: Heap, ptr: Word, value: Word, nurseryStart: nat) returns (mem': Heap)
      requires Valid() && Mapped(mem, ptr, 1)
      modifies this, chain[0], chain[0].data
      ensures Valid() && mem' == RootStoreAsWritten(mem, ptr, value, nurseryStart)
      ensures InNursery(ptr, nurseryStart) ==> Untouched()
      ensures !InNursery(ptr, nurseryStart) ==> Logged(RootLocation(ptr), 3)
    {
      SlotAligned(ptr);
      mem' := mem;
      if !InNursery(ptr, nurseryStart) {
        Record(RootLocation(ptr), 3);
        mem' := mem[ptr / 8 := value];
      }
    }

    /** mono_gc_wbarrier_set_root with the store made in every case. */
    method SetRoot(mem: Heap, ptr: Word, value: Word, nurseryStart: nat) returns (mem': Heap)
      requires Valid() && Mapped(mem, ptr, 1)
      modifies this, chain[0], chain[0].data
      ensures Valid() && mem' == mem[ptr / 8 := value]
      ensures InNursery(ptr, nurseryStart) ==> Untouched()
      ensures !InNursery(ptr, nurseryStart) ==> Logged(RootLocation(ptr), 3)
    {
      SlotAligned(ptr);
      if !InNursery(ptr, nurseryStart) {
        Record(RootLocation(ptr), 3);
      }
      mem' := mem[ptr / 8 := value];
    }

    /**
     * mono_gc_wbarrier_value_copy: after `count` value types were copied to
     * dest, a VTYPE entry with the class's GC descriptor (room test
     * `store_next + 3 < end_set`), unless dest is in the nursery or outside
     * the managed heap.
     */
    method ValueCopy(dest: Word, desc: Word, count: int, nurseryStart: nat, inHeap: nat -> bool)
      requires Valid() && Aligned(dest) && -0x8000_0000 <= count < 0x8000_0000
      modifies this, chain[0], chain[0].data
      ensures Valid()
      ensures InNursery(dest, nurseryStart) || !inHeap(dest) ==> Untouched()
      ensures !InNursery(dest, nurseryStart) && inHeap(dest) ==> Logged(Vtype(dest, desc, count % TwoTo64), 4)
    {
      if InNursery(dest, nurseryStart) || !inHeap(dest) {
        return;
      }
      Record(Vtype(dest, desc, count % TwoTo64), 4);
    }

    /** mono_gc_wbarrier_object: an OBJECT entry for a clone, wherever it is (room test `store_next < end_set`). */
    method ObjectBarrier(obj: Word)
      requires Valid() && Aligned(obj)
      modifies this, chain[0], chain[0].data
      ensures Logged(Object(obj), 1)
    {
      Record(Object(obj), 1);
    }

    /**
     * add_to_global_remset, on global_remset: a ROOT_LOCATION entry for a
     * root slot, else a LOCATION entry.  The room test `store_next + 3 <
     * end_set` asks for four free words whichever entry it is.
     */
    method AddToGlobal(ptr: Word, root: bool)
      requires Valid() && Aligned(ptr)
      modifies this, chain[0], chain[0].data
      ensures Logged(if root then RootLocation(ptr) else Location(ptr), 4)
    {
      Record(if root then RootLocation(ptr) else Location(ptr), 4);
    }
  }

  /** The heap after mono_gc_wbarrier_set_root as written: a slot in the nursery keeps its old value. */
  function RootStoreAsWritten(mem: Heap, ptr: Word, value: Word, nurseryStart: nat): (r: Heap)
    requires Mapped(mem, ptr, 1)
    ensures |r| == |mem|
  {
    if InNursery(ptr, nurseryStart) then mem else mem[ptr / 8 := value]
  }

  /** The value handed to set_root is lost whenever the root slot lies in the nursery. */
  lemma RootStoreAsWrittenLosesValue(mem: Heap, ptr: Word, value: Word, nurseryStart: nat)
    requires Mapped(mem, ptr, 1) && InNursery(ptr, nurseryStart) && mem[ptr / 8] != value
    ensures RootStoreAsWritten(mem, ptr, value, nurseryStart)[ptr / 8] != value
  {
  }

  // ------------------------------------------------------------------ replay

  /** The slots handle_remset reads or writes for e lie in a heap of `words` words. */
  predicate SlotsMapped(words: nat, e: Entry, s: nat, t: nat, inHeap: nat -> bool)
  {
    match e
    case Location(ptr) => ptr % 8 == 0 && ptr / 8 < words
    case Range(ptr, count) => (s <= ptr < t || !inHeap(ptr)) || (ptr % 8 == 0 && ptr / 8 + count <= words)
    case Object(_) => true
    case Vtype(_, _, _) => true
    case RootLocation(ptr) => ptr % 8 == 0 && ptr / 8 < words
  }

  predicate AllSlotsMapped(words: nat, es: seq<Entry>, s: nat, t: nat, inHeap: nat -> bool)
  {
    forall i :: 0 <= i < |es| ==> SlotsMapped(words, es[i], s, t, inHeap)
  }

  /** What handling entries leaves: the heap, and the slots reported to global_remset, in order. */
  datatype Handled = Handled(mem: Heap, adds: seq<Entry>)

  /**
   * `*ptr = copy_object (*ptr, start_nursery, end_nursery)` (copy_object is
   * the parameter `copy`); outside a global replay the slot is reported
   * when it still points into [s, t), as a root slot when `root`.
   */
  function CopySlot(mem: Heap, ptr: nat, s: nat, t: nat, global: bool, root: bool, copy: Word -> Word): (r: Handled)
    requires WellFormed(mem) && ptr % 8 == 0 && ptr / 8 < |mem|
    ensures GlobalKinds(r.adds)
  {
    SlotAligned(ptr);
    var v := copy(mem[ptr / 8]);
    Handled(mem[ptr / 8 := v], if !global && s <= v < t then [if root then RootLocation(ptr) else Location(ptr)] else [])
  }

  /** The `while (count-- > 0)` loop of a RANGE entry: count slots from ptr, in address order. */
  function CopyRange(mem: Heap, ptr: nat, count: nat, s: nat, t: nat, global: bool, copy: Word -> Word): (r: Handled)
    requires WellFormed(mem) && ptr % 8 == 0 && ptr / 8 + count <= |mem|
    ensures |r.mem| == |mem|
    ensures forall i :: 0 <= i < |mem| && !(ptr / 8 <= i < ptr / 8 + count) ==> r.mem[i] == mem[i]
    ensures forall i :: 0 <= i < |r.adds| ==>
              r.adds[i].Location? && r.adds[i].ptr % 8 == 0 && ptr / 8 <= r.adds[i].ptr / 8 < ptr / 8 + count
    ensures GlobalKinds(r.adds) && (global ==> r.adds == [])
    decreases count
  {
    if count == 0 then Handled(mem, [])
    else
      var h := CopySlot(mem, ptr, s, t, global, false, copy);
      var r := CopyRange(h.mem, ptr + 8, count - 1, s, t, global, copy);
      Handled(r.mem, h.adds + r.adds)
  }

  /**
   * handle_remset on one entry, with [s, t) the range being collected.  A
   * LOCATION or RANGE entry is replayed when its slot lies outside [s, t)
   * and in the managed heap; a ROOT_LOCATION entry always.  The object and
   * value-type scans of OBJECT and VTYPE entries are not part of this model.
   */
  function Handle(mem: Heap, e: Entry, s: nat, t: nat, global: bool, copy: Word -> Word, inHeap: nat -> bool): (r: Handled)
    requires WellFormed(mem) && SlotsMapped(|mem|, e, s, t, inHeap)
    ensures |r.mem| == |mem|
    ensures GlobalKinds(r.adds) && (global ==> r.adds == [])
  {
    match e
    case Location(ptr) =>
      if (ptr < s || ptr >= t) && inHeap(ptr) then CopySlot(mem, ptr, s, t, global, false, copy) else Handled(mem, [])
    case Range(ptr, count) =>
      if s <= ptr < t || !inHeap(ptr) then Handled(mem, []) else CopyRange(mem, ptr, count, s, t, global, copy)
    case Object(_) => Handled(mem, [])
    case Vtype(_, _, _) => Handled(mem, [])
    case RootLocation(ptr) => CopySlot(mem, ptr, s, t, global, true, copy)
  }

  /** handle_remset over a run of entries, in order. */
  function HandleAll(mem: Heap, es: seq<Entry>, s: nat, t: nat, global: bool, copy: Word -> Word, inHeap: nat -> bool): (r: Handled)
    requires WellFormed(mem) && AllSlotsMapped(|mem|, es, s, t, inHeap)
    ensures |r.mem| == |mem|
    ensures GlobalKinds(r.adds) && (global ==> r.adds == [])
    decreases |es|
  {
    if |es| == 0 then Handled(mem, [])
    else
      var h := Handle(mem, es[0], s, t, global, copy, inHeap);
      var r := HandleAll(h.mem, es[1..], s, t, global, copy, inHeap);
      Handled(r.mem, h.adds + r.adds)
  }

  /** The adds made before a run of entries, in front of what the run leaves. */
  function Join(adds: seq<Entry>, h: Handled): Handled
  {
    Handled(h.mem, adds + h.adds)
  }

  lemma SlotsMappedAppend(words: nat, a: seq<Entry>, b: seq<Entry>, s: nat, t: nat, inHeap: nat -> bool)
    requires AllSlotsMapped(words, a + b, s, t, inHeap)
    ensures AllSlotsMapped(words, a, s, t, inHeap) && AllSlotsMapped(words, b, s, t, inHeap)
  {
    assert forall i :: 0 <= i < |a| ==> a[i] == (a + b)[i];
    assert forall i :: 0 <= i < |b| ==> b[i] == (a + b)[|a| + i];
  }

  /** Handling a + b is handling a, then b from where a left the heap. */
  lemma {:induction false} HandleAllAppend(mem: Heap, a: seq<Entry>, b: seq<Entry>, s: nat, t: nat, global: bool, copy: Word -> Word, inHeap: nat -> bool)
    requires WellFormed(mem) && AllSlotsMapped(|mem|, a + b, s, t, inHeap)
    ensures AllSlotsMapped(|mem|, a, s, t, inHeap) && AllSlotsMapped(|mem|, b, s, t, inHeap)
    ensures HandleAll(mem, a + b, s, t, global, copy, inHeap)
         == Join(HandleAll(mem, a, s, t, global, copy, inHeap).adds,
                 HandleAll(HandleAll(mem, a, s, t, global, copy, inHeap).mem, b, s, t, global, copy, inHeap))
    decreases |a|
  {
    SlotsMappedAppend(|mem|, a, b, s, t, inHeap);
    if |a| > 0 {
      var h := HeadStep(mem, a, b, s, t, global, copy, inHeap);
      HandleAllAppend(h.mem, a[1..], b, s, t, global, copy, inHeap);
      HandleAllCons(mem, a, b, s, t, global, copy, inHeap, h);
    } else {
      assert a + b == b;
    }
  }

  /** The first entry of a, handled on its own: what the induction step of HandleAllAppend starts from. */
  lemma HeadStep(mem: Heap, a: seq<Entry>, b: seq<Entry>, s: nat, t: nat, global: bool, copy: Word -> Word, inHeap: nat -> bool)
    returns (h: Handled)
    requires WellFormed(mem) && |a| > 0 && AllSlotsMapped(|mem|, a + b, s, t, inHeap) && AllSlotsMapped(|mem|, a, s, t, inHeap)
    ensures h == Handle(mem, a[0], s, t, global, copy, inHeap)
    ensures WellFormed(h.mem) && |h.mem| == |mem| && AllSlotsMapped(|h.mem|, a[1..] + b, s, t, inHeap)
  {
    ConsAppend(a, b);
    h := Handle(mem, a[0], s, t, global, copy, inHeap);
    assert forall i :: 0 <= i < |a[1..] + b| ==> (a[1..] + b)[i] == (a + b)[i + 1];
  }

  /** The induction step of HandleAllAppend: from a[1..] + b to a + b. */
  lemma HandleAllCons(mem: Heap, a: seq<Entry>, b: seq<Entry>, s: nat, t: nat, global: bool, copy: Word -> Word, inHeap: nat -> bool, h: Handled)
    requires WellFormed(mem) && |a| > 0 && AllSlotsMapped(|mem|, a + b, s, t, inHeap)
    requires AllSlotsMapped(|mem|, a, s, t, inHeap) && AllSlotsMapped(|mem|, b, s, t, inHeap)
    requires h == Handle(mem, a[0], s, t, global, copy, inHeap)
    requires WellFormed(h.mem) && |h.mem| == |mem| && AllSlotsMapped(|h.mem|, a[1..] + b, s, t, inHeap)
    requires AllSlotsMapped(|h.mem|, a[1..], s, t, inHeap)
    requires HandleAll(h.mem, a[1..] + b, s, t, global, copy, inHeap)
          == Join(HandleAll(h.mem, a[1..], s, t, global, copy, inHeap).adds,
                  HandleAll(HandleAll(h.mem, a[1..], s, t, global, copy, inHeap).mem, b, s, t, global, copy, inHeap))
    ensures HandleAll(mem, a + b, s, t, global, copy, inHeap)
         == Join(HandleAll(mem, a, s, t, global, copy, inHeap).adds,
                 HandleAll(HandleAll(mem, a, s, t, global, copy, inHeap).mem, b, s, t, global, copy, inHeap))
  {
    ConsAppend(a, b);
    var ra := HandleAll(h.mem, a[1..], s, t, global, copy, inHeap);
    var rb := HandleAll(ra.mem, b, s, t, global, copy, inHeap);
    var whole := HandleAll(h.mem, a[1..] + b, s, t, global, copy, inHeap);
    assert whole == Handled(rb.mem, ra.adds + rb.adds);
    assert HandleAll(mem, a + b, s, t, global, copy, inHeap) == Handled(whole.mem, h.adds + whole.adds);
    assert HandleAll(mem, a, s, t, global, copy, inHeap) == Handled(ra.mem, h.adds + ra.adds);
    AppendAssoc(h.adds, ra.adds, rb.adds);
  }

  lemma ConsAppend<T>(a: seq<T>, b: seq<T>)
    requires |a| > 0
    ensures (a + b)[0] == a[0] && (a + b)[1..] == a[1..] + b
  {
  }

  lemma AppendAssoc<T>(x: seq<T>, y: seq<T>, z: seq<T>)
    ensures x + (y + z) == (x + y) + z
  {
  }

  /** Every slot reported points into [s, t) in the heap left behind. */
  predicate Reported(h: Handled, s: nat, t: nat)
  {
    forall i :: 0 <= i < |h.adds| ==> h.adds[i].ptr / 8 < |h.mem| && s <= h.mem[h.adds[i].ptr / 8] < t
  }

  /** Every slot a RANGE replay reports points into [s, t) once the replay is over. */
  lemma {:induction false} CopyRangeReports(mem: Heap, ptr: nat, count: nat, s: nat, t: nat, global: bool, copy: Word -> Word)
    requires WellFormed(mem) && ptr % 8 == 0 && ptr / 8 + count <= |mem|
    ensures Reported(CopyRange(mem, ptr, count, s, t, global, copy), s, t)
    decreases count
  {
    if count > 0 {
      var h := CopySlot(mem, ptr, s, t, global, false, copy);
      CopyRangeReports(h.mem, ptr + 8, count - 1, s, t, global, copy);
      var r := CopyRange(h.mem, ptr + 8, count - 1, s, t, global, copy);
      assert (ptr + 8) / 8 == ptr / 8 + 1;
      assert r.mem[ptr / 8] == h.mem[ptr / 8];
      var all := CopyRange(mem, ptr, count, s, t, global, copy);
      assert all.adds == h.adds + r.adds && all.mem == r.mem;
      forall i | 0 <= i < |all.adds|
        ensures all.adds[i].ptr / 8 < |all.mem| && s <= all.mem[all.adds[i].ptr / 8] < t
      {
        if i < |h.adds| {
          assert all.adds[i] == Location(ptr);
          assert h.mem[ptr / 8] == copy(mem[ptr / 8]);
          assert s <= h.mem[ptr / 8] < t;
          assert all.mem[ptr / 8] == h.mem[ptr / 8];
          assert s <= all.mem[all.adds[i].ptr / 8] < t;
        } else {
          assert r.adds[i - |h.adds|].ptr / 8 < |r.mem|;
          assert s <= r.mem[r.adds[i - |h.adds|].ptr / 8] < t;
          assert all.adds[i] == r.adds[i - |h.adds|];
          assert s <= all.mem[all.adds[i].ptr / 8] < t;
        }
      }
    }
  }

  /**
   * The slots handle_remset reports to global_remset point into [s, t) in
   * the heap it leaves: what add_to_global_remset is for.
   */
  lemma HandleReports(mem: Heap, e: Entry, s: nat, t: nat, global: bool, copy: Word -> Word, inHeap: nat -> bool)
    requires WellFormed(mem) && SlotsMapped(|mem|, e, s, t, inHeap)
    ensures Reported(Handle(mem, e, s, t, global, copy, inHeap), s, t)
  {
    if e.Range? && !(s <= e.ptr < t || !inHeap(e.ptr)) {
      CopyRangeReports(mem, e.ptr, e.count, s, t, global, copy);
    }
  }

  /** a is b with some of its entries left out, in b's order. */
  predicate Subseq(a: seq<Entry>, b: seq<Entry>)
    decreases |b|
  {
    if |b| == 0 then |a| == 0
    else (|a| > 0 && a[0] == b[0] && Subseq(a[1..], b[1..])) || Subseq(a, b[1..])
  }

  lemma {:induction false} SubseqIn(a: seq<Entry>, b: seq<Entry>, x: Entry)
    requires Subseq(a, b) && x in a
    ensures x in b
    decreases |b|
  {
    if |a| > 0 && a[0] == b[0] && Subseq(a[1..], b[1..]) {
      if x != a[0] {
        SubseqIn(a[1..], b[1..], x);
      }
    } else {
      SubseqIn(a, b[1..], x);
    }
  }

  /** Slots no two entries share. */
  predicate DistinctSlots(es: seq<Entry>)
  {
    forall i, j :: 0 <= i < j < |es| ==> es[i].ptr != es[j].ptr
  }

  /** The heap a global pass leaves, and the entries it keeps. */
  datatype Compacted = Compacted(mem: Heap, kept: seq<Entry>)

  /**
   * The global pass of scan_from_remsets over one buffer's entries: each is
   * handled with global set, and kept when its slot then points into the
   * nursery (ptr_in_nursery), dropped otherwise.
   */
  function Compact(mem: Heap, es: seq<Entry>, s: nat, t: nat, nurseryStart: nat, copy: Word -> Word, inHeap: nat -> bool): (r: Compacted)
    requires WellFormed(mem) && GlobalKinds(es) && AllSlotsMapped(|mem|, es, s, t, inHeap)
    ensures |r.mem| == |mem| && GlobalKinds(r.kept) && Subseq(r.kept, es)
    ensures forall j :: 0 <= j < |mem| && (forall k :: 0 <= k < |es| ==> es[k].ptr / 8 != j) ==> r.mem[j] == mem[j]
    decreases |es|
  {
    if |es| == 0 then Compacted(mem, [])
    else
      var h := Handle(mem, es[0], s, t, true, copy, inHeap);
      var r := Compact(h.mem, es[1..], s, t, nurseryStart, copy, inHeap);
      if InNursery(h.mem[es[0].ptr / 8], nurseryStart) then
        assert ([es[0]] + r.kept)[0] == es[0] && ([es[0]] + r.kept)[1..] == r.kept;
        Compacted(r.mem, [es[0]] + r.kept)
      else
        Compacted(r.mem, r.kept)
  }

  /** The compaction replays the entries exactly as a global handle_remset pass does. */
  lemma {:induction false} CompactReplays(mem: Heap, es: seq<Entry>, s: nat, t: nat, nurseryStart: nat, copy: Word -> Word, inHeap: nat -> bool)
    requires WellFormed(mem) && GlobalKinds(es) && AllSlotsMapped(|mem|, es, s, t, inHeap)
    ensures Compact(mem, es, s, t, nurseryStart, copy, inHeap).mem == HandleAll(mem, es, s, t, true, copy, inHeap).mem
    decreases |es|
  {
    if |es| > 0 {
      var h := Handle(mem, es[0], s, t, true, copy, inHeap);
      CompactReplays(h.mem, es[1..], s, t, nurseryStart, copy, inHeap);
    }
  }

  /**
   * With no slot logged twice, the compaction keeps exactly the entries
   * whose slots point into the nursery after the pass.
   */
  lemma {:induction false} CompactKeepsNurserySlots(mem: Heap, es: seq<Entry>, s: nat, t: nat, nurseryStart: nat, copy: Word -> Word, inHeap: nat -> bool)
    requires WellFormed(mem) && GlobalKinds(es) && AllSlotsMapped(|mem|, es, s, t, inHeap) && DistinctSlots(es)
    ensures var r := Compact(mem, es, s, t, nurseryStart, copy, inHeap);
            forall i :: 0 <= i < |es| ==> es[i].ptr / 8 < |r.mem| && (es[i] in r.kept <==> InNursery(r.mem[es[i].ptr / 8], nurseryStart))
    decreases |es|
  {
    if |es| > 0 {
      var h := Handle(mem, es[0], s, t, true, copy, inHeap);
      var rest := es[1..];
      CompactKeepsNurserySlots(h.mem, rest, s, t, nurseryStart, copy, inHeap);
      var r := Compact(h.mem, rest, s, t, nurseryStart, copy, inHeap);
      forall k | 0 <= k < |rest|
        ensures rest[k].ptr / 8 != es[0].ptr / 8
      {
        assert rest[k] == es[k + 1];
      }
      assert r.mem[es[0].ptr / 8] == h.mem[es[0].ptr / 8];
      if es[0] in r.kept {
        SubseqIn(r.kept, rest, es[0]);
        assert false;
      }
      forall i | 1 <= i < |es|
        ensures es[i] != es[0]
      {
        assert es[0].ptr != es[i].ptr;
      }
    }
  }

  /** The entries of es whose flag in keep is set, in es's order. */
  function Select(es: seq<Entry>, keep: seq<bool>): (r: seq<Entry>)
    requires |keep| == |es|
    decreases |es|
  {
    if |es| == 0 then [] else (if keep[0] then [es[0]] else []) + Select(es[1..], keep[1..])
  }

  /**
   * Whether the slot of entry i points into the nursery right after its own
   * replay, every entry before it having been replayed first.
   */
  ghost predicate NurseryAfterOwnReplay(mem: Heap, es: seq<Entry>, i: nat, s: nat, t: nat, nurseryStart: nat, copy: Word -> Word, inHeap: nat -> bool)
    requires WellFormed(mem) && GlobalKinds(es) && AllSlotsMapped(|mem|, es, s, t, inHeap) && i < |es|
  {
    var done := es[..i + 1];
    assert AllSlotsMapped(|mem|, done, s, t, inHeap) by {
      forall k | 0 <= k < |done| ensures SlotsMapped(|mem|, done[k], s, t, inHeap) {
        assert done[k] == es[k];
      }
    }
    var h := HandleAll(mem, done, s, t, true, copy, inHeap);
    InNursery(h.mem[es[i].ptr / 8], nurseryStart)
  }

  /**
   * The global pass keeps, in order, exactly the entries whose slot points
   * into the nursery right after their own replay.  Nothing is assumed of
   * the log: a slot add_to_global_remset logged twice is decided once per
   * entry.
   */
  lemma {:induction false} CompactKeepsByPosition(mem: Heap, es: seq<Entry>, s: nat, t: nat, nurseryStart: nat, copy: Word -> Word, inHeap: nat -> bool, keep: seq<bool>)
    requires WellFormed(mem) && GlobalKinds(es) && AllSlotsMapped(|mem|, es, s, t, inHeap)
    requires |keep| == |es| && forall i :: 0 <= i < |es| ==> keep[i] == NurseryAfterOwnReplay(mem, es, i, s, t, nurseryStart, copy, inHeap)
    ensures Compact(mem, es, s, t, nurseryStart, copy, inHeap).kept == Select(es, keep)
    decreases |es|
  {
    if |es| > 0 {
      var h := Handle(mem, es[0], s, t, true, copy, inHeap);
      var rest := es[1..];
      assert es[..1] == [es[0]] && es[..1][1..] == [];
      assert AllSlotsMapped(|mem|, es[..1], s, t, inHeap);
      assert HandleAll(mem, es[..1], s, t, true, copy, inHeap).mem == h.mem;
      assert keep[0] == InNursery(h.mem[es[0].ptr / 8], nurseryStart);
      forall i | 0 <= i < |rest|
        ensures keep[1..][i] == NurseryAfterOwnReplay(h.mem, rest, i, s, t, nurseryStart, copy, inHeap)
      {
        assert es[..i + 2][0] == es[0] && es[..i + 2][1..] == rest[..i + 1] && es[i + 1] == rest[i];
        assert keep[1..][i] == keep[i + 1];
      }
      CompactKeepsByPosition(h.mem, rest, s, t, nurseryStart, copy, inHeap, keep[1..]);
    }
  }

  // ------------------------------------------------------------------ replay, in place

  /** `*ptr = copy_object (*ptr, …)` and the report test, on one slot. */
  method ReplaySlot(mem: Heap, ptr: nat, s: nat, t: nat, global: bool, root: bool, copy: Word -> Word)
    returns (mem': Heap, adds: seq<Entry>)
    requires WellFormed(mem) && ptr % 8 == 0 && ptr / 8 < |mem|
    ensures Handled(mem', adds) == CopySlot(mem, ptr, s, t, global, root, copy)
  {
    var v := copy(mem[ptr / 8]);
    mem' := mem[ptr / 8 := v];
    adds := [];
    if !global && s <= v < t {
      adds := [if root then RootLocation(ptr) else Location(ptr)];
    }
  }

  /** The `while (count-- > 0)` loop of a RANGE entry, slot after slot. */
  method ReplayRange(mem: Heap, ptr: nat, count: nat, s: nat, t: nat, global: bool, copy: Word -> Word)
    returns (mem': Heap, adds: seq<Entry>)
    requires WellFormed(mem) && ptr % 8 == 0 && ptr / 8 + count <= |mem|
    ensures Handled(mem', adds) == CopyRange(mem, ptr, count, s, t, global, copy)
  {
    mem', adds := mem, [];
    var q: nat, left: nat := ptr, count;
    while left > 0
      invariant q % 8 == 0 && q / 8 + left <= |mem'| == |mem|
      invariant CopyRange(mem, ptr, count, s, t, global, copy) == Join(adds, CopyRange(mem', q, left, s, t, global, copy))
      decreases left
    {
      var m, a := ReplaySlot(mem', q, s, t, global, false, copy);
      mem', adds := m, adds + a;
      q, left := q + 8, left - 1;
    }
    assert adds + [] == adds;
  }

  /**
   * handle_remset: the entry at data[p] (the buffer's words end at n) is
   * replayed; the result says where the next entry starts, the heap left
   * behind, and the slots to report to global_remset.
   */
  method HandleRemset(data: array<Word>, p: nat, n: nat, mem: Heap, s: nat, t: nat, global: bool, copy: Word -> Word, inHeap: nat -> bool)
    returns (next: nat, mem': Heap, adds: seq<Entry>)
    requires p < n <= data.Length && WellFormed(mem)
    requires EntryAt(data[p..n]).Some? && SlotsMapped(|mem|, EntryAt(data[p..n]).value, s, t, inHeap)
    ensures next == p + Size(EntryAt(data[p..n]).value) <= n
    ensures Handled(mem', adds) == Handle(mem, EntryAt(data[p..n]).value, s, t, global, copy, inHeap)
  {
    var w := data[p];
    var tag := w % 4;
    var ptr := Address(w);
    assert data[p..n][0] == w;
    mem', adds := mem, [];
    if tag == RemsetLocation {
      if (ptr < s || ptr >= t) && inHeap(ptr) {
        mem', adds := ReplaySlot(mem, ptr, s, t, global, false, copy);
      }
      next := p + 1;
    } else if tag == RemsetRange {
      assert data[p..n][1] == data[p + 1];
      if !(s <= ptr < t || !inHeap(ptr)) {
        mem', adds := ReplayRange(mem, ptr, data[p + 1], s, t, global, copy);
      }
      next := p + 2;
    } else if tag == RemsetObject {
      next := p + 1;
    } else {
      assert data[p..n][1] == data[p + 1];
      if data[p + 1] == RemsetVtype {
        next := p + 4;
      } else {
        mem', adds := ReplaySlot(mem, ptr, s, t, global, true, copy);
        next := p + 2;
      }
    }
  }

  /** The entries kept before a run of entries, in front of what the run leaves. */
  function Prepend(kept: seq<Entry>, c: Compacted): Compacted
  {
    Compacted(c.mem, kept + c.kept)
  }

  /** The entry at the start of some words, and the entries after it. */
  lemma ParseStep(ws: seq<Word>, es: seq<Entry>)
    requires Parse(ws) == Some(es) && |ws| > 0
    ensures |es| > 0 && EntryAt(ws) == Some(es[0]) && Size(es[0]) <= |ws| && Parse(ws[Size(es[0])..]) == Some(es[1..])
  {
  }

  lemma PrependTwice(a: seq<Entry>, b: seq<Entry>, c: Compacted)
    ensures Prepend(a, Prepend(b, c)) == Prepend(a + b, c)
  {
    assert a + (b + c.kept) == (a + b) + c.kept;
  }

  lemma SuffixMapped(words: nat, es: seq<Entry>, k: nat, s: nat, t: nat, inHeap: nat -> bool)
    requires k <= |es| && GlobalKinds(es) && AllSlotsMapped(words, es, s, t, inHeap)
    ensures GlobalKinds(es[k..]) && AllSlotsMapped(words, es[k..], s, t, inHeap)
  {
    assert forall i :: 0 <= i < |es| - k ==> es[k..][i] == es[k + i];
  }

  /** One step of the compaction: the first entry handled, then kept or dropped. */
  lemma CompactStep(mem: Heap, es: seq<Entry>, s: nat, t: nat, nurseryStart: nat, copy: Word -> Word, inHeap: nat -> bool)
    requires WellFormed(mem) && GlobalKinds(es) && AllSlotsMapped(|mem|, es, s, t, inHeap) && |es| > 0
    ensures var h := Handle(mem, es[0], s, t, true, copy, inHeap);
            var r := Compact(h.mem, es[1..], s, t, nurseryStart, copy, inHeap);
            Compact(mem, es, s, t, nurseryStart, copy, inHeap)
              == if InNursery(h.mem[es[0].ptr / 8], nurseryStart) then Prepend([es[0]], r) else r
  {
  }

  /**
   * The global pass of scan_from_remsets over one buffer: every entry is
   * handled, those whose slots still point into the nursery are moved down
   * to store_pos, and store_next is cut back to store_pos.
   */
  method CompactBuffer(b: RememberedSet, mem: Heap, s: nat, t: nat, nurseryStart: nat, copy: Word -> Word, inHeap: nat -> bool)
    returns (mem': Heap)
    requires b.Valid() && WellFormed(mem) && Parse(b.Stored()).Some?
    requires GlobalKinds(Parse(b.Stored()).value) && AllSlotsMapped(|mem|, Parse(b.Stored()).value, s, t, inHeap)
    modifies b, b.data
    ensures b.Valid()
    ensures var r := Compact(mem, old(Parse(b.Stored()).value), s, t, nurseryStart, copy, inHeap);
            mem' == r.mem && Parse(b.Stored()) == Some(r.kept)
  {
    ghost var es := Parse(b.Stored()).value;
    var n := b.storeNext;
    var storePos: nat, p: nat := 0, 0;
    mem' := mem;
    ghost var kept: seq<Entry> := [];
    ghost var rest := es;
    assert b.data[0..n] == b.Stored();
    while p < n
      invariant n == b.storeNext && storePos <= p <= n <= b.data.Length
      invariant Parse(b.data[p..n]) == Some(rest) && GlobalKinds(rest)
      invariant WellFormed(mem') && AllSlotsMapped(|mem'|, rest, s, t, inHeap)
      invariant AllAligned(kept) && b.data[..storePos] == Flatten(kept)
      invariant Compact(mem, es, s, t, nurseryStart, copy, inHeap)
             == Prepend(kept, Compact(mem', rest, s, t, nurseryStart, copy, inHeap))
      decreases n - p
    {
      p, storePos, mem', kept, rest := CompactOne(b.data, p, n, storePos, mem', s, t, nurseryStart, copy, inHeap, kept, rest);
    }
    b.storeNext := storePos;
    assert rest == [] by {
      assert b.data[p..n] == [];
    }
    CompactDone(Compact(mem, es, s, t, nurseryStart, copy, inHeap), kept, mem', s, t, nurseryStart, copy, inHeap);
    ParseFlatten(kept);
  }

  /** A pass with no entries left to handle has kept what it has kept. */
  lemma CompactDone(r: Compacted, kept: seq<Entry>, mem: Heap, s: nat, t: nat, nurseryStart: nat,
                    copy: Word -> Word, inHeap: nat -> bool)
    requires WellFormed(mem) && r == Prepend(kept, Compact(mem, [], s, t, nurseryStart, copy, inHeap))
    ensures r.mem == mem && r.kept == kept
  {
    assert kept + [] == kept;
  }

  /** The address handle_remset reads from an entry's first word is the entry's own. */
  lemma EntryAddress(ws: seq<Word>, e: Entry)
    requires EntryAt(ws) == Some(e)
    ensures |ws| > 0 && Address(ws[0]) == e.ptr
  {
  }

  /** One turn of the global pass: the entry at p handled, and moved down to store_pos when it is kept. */
  method CompactOne(data: array<Word>, p: nat, n: nat, storePos: nat, mem: Heap, s: nat, t: nat, nurseryStart: nat,
                    copy: Word -> Word, inHeap: nat -> bool, ghost kept: seq<Entry>, ghost rest: seq<Entry>)
    returns (p': nat, storePos': nat, mem': Heap, ghost kept': seq<Entry>, ghost rest': seq<Entry>)
    requires storePos <= p < n <= data.Length && WellFormed(mem)
    requires Parse(data[p..n]) == Some(rest) && GlobalKinds(rest) && AllSlotsMapped(|mem|, rest, s, t, inHeap)
    requires AllAligned(kept) && data[..storePos] == Flatten(kept)
    modifies data
    ensures storePos' <= p' <= n && p < p'
    ensures Parse(data[p'..n]) == Some(rest') && GlobalKinds(rest') && |rest'| < |rest|
    ensures WellFormed(mem') && AllSlotsMapped(|mem'|, rest', s, t, inHeap)
    ensures AllAligned(kept') && data[..storePos'] == Flatten(kept')
    ensures Prepend(kept, Compact(mem, rest, s, t, nurseryStart, copy, inHeap))
         == Prepend(kept', Compact(mem', rest', s, t, nurseryStart, copy, inHeap))
  {
    ghost var ws := data[p..n];
    ParseStep(ws, rest);
    ghost var e := rest[0];
    rest' := rest[1..];
    var m: Heap, adds: seq<Entry>;
    p', m, adds := HandleRemset(data, p, n, mem, s, t, true, copy, inHeap);
    CompactTurn(mem, rest, m, kept, s, t, nurseryStart, copy, inHeap);
    var w := data[p];
    assert w == ws[0];
    EntryAddress(ws, e);
    var ptr := Address(w);
    mem' := m;
    storePos', kept' := KeepIf(InNursery(m[ptr / 8], nurseryStart), data, storePos, p, n, kept, e, ws);
    assert data[p'..n] == ws[Size(e)..];
  }

  /** The entry at p moved down to store_pos when `keep`, and nothing written otherwise. */
  method KeepIf(keep: bool, data: array<Word>, storePos: nat, p: nat, n: nat, ghost kept: seq<Entry>, ghost e: Entry,
                ghost ws: seq<Word>)
    returns (storePos': nat, ghost kept': seq<Entry>)
    requires storePos <= p < n <= data.Length && GlobalKind(e) && Aligned(e.ptr)
    requires AllAligned(kept) && data[..storePos] == Flatten(kept)
    requires ws == data[p..n] && EntryAt(ws) == Some(e)
    modifies data
    ensures kept' == if keep then kept + [e] else kept
    ensures storePos' <= p + Size(e) && AllAligned(kept') && data[..storePos'] == Flatten(kept')
    ensures data[p + Size(e)..n] == ws[Size(e)..]
  {
    storePos', kept' := storePos, kept;
    if keep {
      storePos' := Keep(data, storePos, p, n, kept, e);
      kept' := kept + [e];
    }
  }

  /**
   * The compaction after one entry: the entry handled, and kept in front of
   * the rest when its slot still points into the nursery.
   */
  lemma CompactTurn(mem: Heap, es: seq<Entry>, m: Heap, kept: seq<Entry>, s: nat, t: nat, nurseryStart: nat,
                    copy: Word -> Word, inHeap: nat -> bool)
    requires WellFormed(mem) && GlobalKinds(es) && AllSlotsMapped(|mem|, es, s, t, inHeap) && |es| > 0
    requires m == Handle(mem, es[0], s, t, true, copy, inHeap).mem
    ensures WellFormed(m) && GlobalKinds(es[1..]) && AllSlotsMapped(|m|, es[1..], s, t, inHeap) && es[0].ptr / 8 < |m|
    ensures Prepend(kept, Compact(mem, es, s, t, nurseryStart, copy, inHeap))
         == if InNursery(m[es[0].ptr / 8], nurseryStart)
            then Prepend(kept + [es[0]], Compact(m, es[1..], s, t, nurseryStart, copy, inHeap))
            else Prepend(kept, Compact(m, es[1..], s, t, nurseryStart, copy, inHeap))
  {
    SuffixMapped(|mem|, es, 1, s, t, inHeap);
    CompactStep(mem, es, s, t, nurseryStart, copy, inHeap);
    if InNursery(m[es[0].ptr / 8], nurseryStart) {
      PrependTwice(kept, [es[0]], Compact(m, es[1..], s, t, nurseryStart, copy, inHeap));
    }
  }

  /** `*store_pos++ = p [0]`, and `*store_pos++ = p [1]` for a ROOT_LOCATION entry. */
  method Keep(data: array<Word>, storePos: nat, p: nat, n: nat, ghost kept: seq<Entry>, ghost e: Entry)
    returns (storePos': nat)
    requires storePos <= p < n <= data.Length && GlobalKind(e) && Aligned(e.ptr)
    requires AllAligned(kept) && data[..storePos] == Flatten(kept)
    requires EntryAt(data[p..n]) == Some(e)
    modifies data
    ensures storePos' == storePos + Size(e) <= p + Size(e)
    ensures AllAligned(kept + [e]) && data[..storePos'] == Flatten(kept + [e])
    ensures data[p + Size(e)..n] == old(data[p + Size(e)..n])
  {
    assert data[p..n][..Size(e)] == Encode(e);
    assert Flatten([e]) == Encode(e);
    FlattenAppend(kept, [e]);
    var w := data[p];
    assert data[p..n][0] == w;
    if w % 4 == RemsetLocation {
      data[storePos] := w;
      storePos' := storePos + 1;
    } else {
      var w1 := data[p + 1];
      assert data[p..n][1] == w1;
      data[storePos] := w;
      data[storePos + 1] := w1;
      storePos' := storePos + 2;
    }
    assert data[..storePos'] == old(data[..storePos]) + Encode(e);
  }
}
