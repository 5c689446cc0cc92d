# A verified model of Mono's sgen collector core, thread-pool queue, CoreCLR security levels and Win64 unwind builder

This project models, in Dafny, four pieces of the Mono runtime shipped with
Unity 2018.2.8 and proves properties of the model.

- **sgen-gc.c**, the generational copying collector. It is modelled in ten
  modules:
  - `GcDescriptors` is the GC descriptor codec. It covers run-length,
    small-bitmap, vector and complex descriptors, the interned
    `complex_descriptors` table and the decoders behind the
    `OBJ_*_FOREACH_PTR` macros.
  - `GcHeap` is the object-header protocol (`FORWARDED_BIT`, `PINNED_BIT`,
    `LOAD_VTABLE`) and `copy_object`, over a heap of 64-bit words.
  - `PinQueue` is the comb sort and `optimize_pin_queue`.
  - `GcPinning` covers conservative pinning and resolving an address to its
    object through the scan-start index.
  - `GcNursery` covers nursery fragments, their rebuild after a collection
    and TLAB bump allocation in `mono_gc_alloc_obj`.
  - `GcSections` covers `alloc_section` and degraded allocation.
  - `GcFreelist` is the pinned-chunk slab allocator: size classes, free
    lists threaded through pages, marking and sweeping.
  - `GcPinnedAlloc` covers the chunk lists and internal memory.
  - `GcRemsets` covers the remembered-set logs. They hold tagged entries of
    1, 2 or 4 words in chained buffers. The module also has the write
    barriers, replay (`handle_remset`) and the compaction of the global log.
  - `GcTables` covers the chained hash tables of finalizable objects,
    disappearing links (`HIDE_POINTER`/`REVEAL_POINTER`) and registered
    roots.
- **threadpool.c** (`ThreadPool`). This covers:
  - the `TPQueue` array queue: append with slide or growth, dequeue with
    shrinking, clearing a domain's jobs and freeing;
  - the start-or-queue admission rule;
  - the thread limits and their setters;
  - the async-I/O operation-to-poll-event mapping;
  - the end-invoke-once check of `mono_thread_pool_finish`.
- **security-core-clr.c** (`CoreClrSecurity`). This is the CoreCLR level
  lattice (Transparent < SafeCritical < Critical) and the decisions made
  over it:
  - inheritance and override checks;
  - level resolution for classes and methods;
  - access to internals;
  - delegate creation and reflection access;
  - the default platform check.
- **exceptions-amd64.c** (`Win64Unwind`). This is the Windows x64
  `UNWIND_INFO` builder, which records the UWOP_PUSH_NONVOL,
  UWOP_SET_FPREG and UWOP_ALLOC_SMALL/LARGE codes backwards from the end of
  the code array. It also covers `get_size`, `install_unwind_info` and
  `setup_resume_sighandler_ctx`.

The model keeps the program's own form. Code that updates state in place is
a class with `modifies` clauses: the pin queue, the TPQueue array, the
unwind-code array, the nursery cursors, the chunk lists and the remset
buffers. Each such method is proved against specification functions on the
old state. Pure decisions are functions, with lemmas relating them. Machine
words are naturals below 2^64; 32-bit arithmetic is written out where the
source uses it.

Three of the C routines share code with ones listed below:
- `mono_gc_wbarrier_set_arrayref` has the same body as
  `mono_gc_wbarrier_set_field`.
- `rehash_dislink` (sgen-gc.c:4031-4053) and `rehash_roots`
  (sgen-gc.c:4205-4226) move buckets the same way `rehash_fin_table` does.

All three are covered by the members cited for their twins
(`GcRemsets.RemsetLog.SetField`, `GcTables.ChainTable.Rehash`).

Source paths below are relative to the repository root. In the table,
"the source" is the cited function.

## Model

| member | source | states |
|---|---|---|
| GcDescriptors.FirstSet | Unity-2018.2.8/mono/metadata/sgen-gc.c:977-984 | first_set is the lowest set bit below numbits, or -1 when none is set |
| GcDescriptors.LastSet | Unity-2018.2.8/mono/metadata/sgen-gc.c:977-984 | last_set is the highest set bit below numbits, or -1 when none is set |
| GcDescriptors.NumSet | Unity-2018.2.8/mono/metadata/sgen-gc.c:977-984 | num_set counts the set bits below numbits |
| GcDescriptors.ScanBitmap | Unity-2018.2.8/mono/metadata/sgen-gc.c:977-984 | the scan loop computes first_set, last_set and num_set |
| GcDescriptors.NoBitSet | Unity-2018.2.8/mono/metadata/sgen-gc.c:990-993 | num_set is 0 iff first_set is -1 iff last_set is -1 |
| GcDescriptors.ContiguousRun | Unity-2018.2.8/mono/metadata/sgen-gc.c:994 | `first_set + num_set == last_set + 1` holds exactly when the set bits are one contiguous run from first_set |
| GcDescriptors.BitPositions | Unity-2018.2.8/mono/metadata/sgen-gc.c:1124-1136 | the bitmap loop visits increasing word offsets from its base |
| GcDescriptors.BitPositionsMeaning | Unity-2018.2.8/mono/metadata/sgen-gc.c:1124-1136 | the bitmap loop visits exactly the offsets whose bit is set |
| GcDescriptors.BitmapForeach | Unity-2018.2.8/mono/metadata/sgen-gc.c:1124-1136 | the `while (_bmap)` loop visits BitPositions |
| GcDescriptors.Range | Unity-2018.2.8/mono/metadata/sgen-gc.c:1107-1119 | the offsets o..o+n-1 in order |
| GcDescriptors.StoredSize | Unity-2018.2.8/mono/metadata/sgen-gc.c:1115 | the size kept in a descriptor is a multiple of 8 below 0x10000 |
| GcDescriptors.RunWords | Unity-2018.2.8/mono/metadata/sgen-gc.c:1107-1119 | OBJ_RUN_LEN_FOREACH_PTR visits the num_set words from first_set, and nothing when bits 16-31 are clear |
| GcDescriptors.RunLenForeach | Unity-2018.2.8/mono/metadata/sgen-gc.c:1107-1119 | the run-length loop visits RunWords |
| GcDescriptors.RunFields | Unity-2018.2.8/mono/metadata/sgen-gc.c:995-996 | size, first_set << 16 and num_set << 24 read back as their fields |
| GcDescriptors.RunWord | Unity-2018.2.8/mono/metadata/sgen-gc.c:995-996 | a run-length descriptor has type 0, the size, first_set in bits 16-23 and num_set in bits 24-31 |
| GcDescriptors.SmallWord | Unity-2018.2.8/mono/metadata/sgen-gc.c:1002-1003 | a small-bitmap descriptor has type 1, the size and the bitmap from bit 16 |
| GcDescriptors.LowWord | Unity-2018.2.8/mono/metadata/sgen-gc.c:1008-1009 | a large-bitmap or complex descriptor holds its payload above the three type bits |
| GcDescriptors.VectorWord | Unity-2018.2.8/mono/metadata/sgen-gc.c:1034-1044 | a vector descriptor holds the type, element size, subtype and bitmap in their fields |
| GcDescriptors.AlignedSize | Unity-2018.2.8/mono/metadata/sgen-gc.c:974-976 | stored_size is obj_size rounded up to a multiple of ALLOC_ALIGN |
| GcDescriptors.ObjectEncodingOf | Unity-2018.2.8/mono/metadata/sgen-gc.c:985-1014 | the encoding mono_gc_make_descr_for_object picks: pointer-free exactly for small sizes with no bit set; run-length only for one run with first_set and num_set below 256; small bitmap for last_set < 50; large bitmap for last_set < 63; complex otherwise |
| GcDescriptors.ObjectDescr | Unity-2018.2.8/mono/metadata/sgen-gc.c:971-1016 | the descriptor's type tag is that of the chosen encoding |
| GcDescriptors.PtrFreeDescriptor | Unity-2018.2.8/mono/metadata/sgen-gc.c:990-993 | a pointer-free small object gets DESC_TYPE_RUN_LENGTH \| stored_size and its run-length loop visits nothing |
| GcDescriptors.RunLengthDescriptor | Unity-2018.2.8/mono/metadata/sgen-gc.c:994-998 | a single run is stored with first_set in bits 16-23 and num_set in bits 24-31, and the run-length loop visits exactly the words whose bit is set |
| GcDescriptors.RunLengthWord | Unity-2018.2.8/mono/metadata/sgen-gc.c:994-998 | the run-length descriptor's fields are size, first_set and num_set |
| GcDescriptors.SmallBitmapDescriptor | Unity-2018.2.8/mono/metadata/sgen-gc.c:1000-1005 | the small bitmap keeps the size, `(desc >> 16) << OBJECT_HEADER_WORDS` gives back word 0 when the header bits are clear, and the bitmap loop visits exactly the set bits beyond the header |
| GcDescriptors.SmallBitmapWord | Unity-2018.2.8/mono/metadata/sgen-gc.c:1001-1003 | the small-bitmap word is type 1, the size, and word 0 shifted right by 2 from bit 16 |
| GcDescriptors.LargeBitmapDescriptor | Unity-2018.2.8/mono/metadata/sgen-gc.c:1007-1012 | the large bitmap keeps bits 2..62 of word 0 from bit 3, and OBJ_LARGE_BITMAP_FOREACH_PTR visits exactly the set bits beyond the header |
| GcDescriptors.LargeBitmapWord | Unity-2018.2.8/mono/metadata/sgen-gc.c:1008-1009 | with bit 63 clear the large-bitmap word is word 0 shifted right by 2 above the type bits |
| GcDescriptors.ComplexDescriptor | Unity-2018.2.8/mono/metadata/sgen-gc.c:1013-1015 | a complex descriptor holds the table index above the type bits |
| GcDescriptors.ArrayEncodingWith | Unity-2018.2.8/mono/metadata/sgen-gc.c:1031-1050 | pointer-free elements need a small element size and no set bit; the inline element bitmap needs last_set below the bound; every inline form needs elem_size <= MAX_ELEMENT_SIZE |
| GcDescriptors.ArrayDescrWith | Unity-2018.2.8/mono/metadata/sgen-gc.c:1020-1051 | the array descriptor's type is COMPLEX_ARR exactly for the complex encoding, else ARRAY or VECTOR |
| GcDescriptors.ArrayDescrAsWritten | Unity-2018.2.8/mono/metadata/sgen-gc.c:1043-1044 | mono_gc_make_descr_for_array as written, with the inline element bitmap for last_set <= SMALL_BITMAP_SIZE |
| GcDescriptors.ArrayDescr | Unity-2018.2.8/mono/metadata/sgen-gc.c:1020-1051 | mono_gc_make_descr_for_array with the inline element bitmap for last_set < SMALL_BITMAP_SIZE |
| GcDescriptors.ElementWords | Unity-2018.2.8/mono/metadata/sgen-gc.c:1211-1245 | OBJ_VECTOR_FOREACH_PTR visits element-relative words only for the run-length and bitmap subtypes |
| GcDescriptors.ElementBitmapDescriptor | Unity-2018.2.8/mono/metadata/sgen-gc.c:1043-1044 | with the corrected bound an element-bitmap descriptor records the element size and subtype, and the vector loop visits exactly the element words whose bit is set |
| GcDescriptors.ElementBitmapWord | Unity-2018.2.8/mono/metadata/sgen-gc.c:1043-1044 | an element-bitmap descriptor keeps bitmap word 0 whole from bit 16 |
| GcDescriptors.ElementBitmapAsWrittenDropsWord48 | Unity-2018.2.8/mono/metadata/sgen-gc.c:1043-1044 | as written, an element whose only references are words 0 and 48 is kept inline and the vector loop never visits word 48 |
| GcDescriptors.GetBitmapForDescrAsWritten | Unity-2018.2.8/mono/metadata/sgen-gc.c:1055-1086 | mono_gc_get_bitmap_for_descr as written: a bitmap only for run-length and small-bitmap descriptors, with num_set read from bits 16-23 |
| GcDescriptors.GetBitmapForDescr | Unity-2018.2.8/mono/metadata/sgen-gc.c:1055-1086 | the corrected decoder: a bitmap only for run-length and small-bitmap descriptors, with num_set read from bits 24-31 |
| GcDescriptors.LayoutBits | Unity-2018.2.8/mono/metadata/sgen-gc.c:977-984 | the reference bits of a layout up to n |
| GcDescriptors.RunLengthBitmapRoundTrip | Unity-2018.2.8/mono/metadata/sgen-gc.c:1062-1066 | decoding a run-length descriptor gives back the layout's bitmap up to last_set + 1 |
| GcDescriptors.SmallBitmapRoundTrip | Unity-2018.2.8/mono/metadata/sgen-gc.c:1075-1082 | decoding a small-bitmap descriptor gives back the layout's bits 2..63 with clear header bits |
| GcDescriptors.RunLengthBitmapAsWrittenDoubles | Unity-2018.2.8/mono/metadata/sgen-gc.c:1062-1063 | as written, a single reference at word 2 decodes as references at words 2 and 3 |
| GcDescriptors.ComplexKey | Unity-2018.2.8/mono/metadata/sgen-gc.c:919-954 | the key alloc_complex_descriptor copies is numbits/64 + 1 bitmap words |
| GcDescriptors.Find | Unity-2018.2.8/mono/metadata/sgen-gc.c:929-945 | the first entry equal to the key, or none exactly when no entry equals it |
| GcDescriptors.InterningIsIdempotent | Unity-2018.2.8/mono/metadata/sgen-gc.c:917-959 | interning the same words again returns the same index and leaves the table unchanged; the first time the entry is appended as [nwords, words...] at the old complex_descriptors_next |
| GcDescriptors.WordsMatch | Unity-2018.2.8/mono/metadata/sgen-gc.c:931-937 | the inner comparison loop finds a match iff the stored words equal the key |
| GcDescriptors.CopyPrefix | Unity-2018.2.8/mono/metadata/sgen-gc.c:948 | g_realloc keeps the old contents at the front of the new table |
| GcDescriptors.StoreEntry | Unity-2018.2.8/mono/metadata/sgen-gc.c:951-955 | nwords and the key words are stored at the old end and nothing else changes |
| GcDescriptors.FindEntry | Unity-2018.2.8/mono/metadata/sgen-gc.c:929-945 | the linear search walks entry by entry and finds the key iff it is interned, at the index interning gives |
| GcDescriptors.ComplexPositionsMeaning | Unity-2018.2.8/mono/metadata/sgen-gc.c:1152-1177 | OBJ_COMPLEX_FOREACH_PTR visits exactly the set bits of the stored words |
| GcDescriptors.ComplexDescriptorVisitsSetBits | Unity-2018.2.8/mono/metadata/sgen-gc.c:1013-1015 | the words an interned complex descriptor makes the scan visit are exactly the layout's set bits |
| GcDescriptors.InlineObjectDescr | Unity-2018.2.8/mono/metadata/sgen-gc.c:985-1012 | the cases needing no table entry are exactly the non-complex encodings, and give ObjectDescr |
| GcDescriptors.InlineArrayDescr | Unity-2018.2.8/mono/metadata/sgen-gc.c:1031-1046 | the array cases needing no table entry are exactly the non-complex encodings, and give ArrayDescr |
| GcDescriptors.ComplexTable.constructor | Unity-2018.2.8/mono/metadata/sgen-gc.c:917-959 | an empty table |
| GcDescriptors.ComplexTable.AllocComplexDescriptor | Unity-2018.2.8/mono/metadata/sgen-gc.c:917-959 | the table becomes the interned table and the result is the index of the key's entry |
| GcDescriptors.ComplexTable.Reserve | Unity-2018.2.8/mono/metadata/sgen-gc.c:946-950 | a table too small for nwords more grows to size * 2 + nwords, keeping its contents |
| GcDescriptors.ComplexTable.MakeDescrForObject | Unity-2018.2.8/mono/metadata/sgen-gc.c:971-1016 | the inline cases return ObjectDescr and leave the table alone; the complex case interns last_set + 1 bits and returns their index with type COMPLEX |
| GcDescriptors.ComplexTable.MakeDescrForArray | Unity-2018.2.8/mono/metadata/sgen-gc.c:1020-1051 | the inline cases return ArrayDescr and leave the table alone; the complex case interns last_set + 1 bits and returns their index with type COMPLEX_ARR |
| GcDescriptors.ComplexTable.ComplexForeach | Unity-2018.2.8/mono/metadata/sgen-gc.c:1152-1177 | the scan of a complex descriptor visits exactly ComplexPositions of its entry |
| GcHeap.VtableOf | Unity-2018.2.8/mono/metadata/sgen-gc.c:441 | LOAD_VTABLE clears exactly the two low flag bits: the result is 4-aligned and within 3 below the header |
| GcHeap.WithForwarded | Unity-2018.2.8/mono/metadata/sgen-gc.c:418-421 | setting FORWARDED_BIT keeps the pinned bit and the vtable |
| GcHeap.WithPinned | Unity-2018.2.8/mono/metadata/sgen-gc.c:424-426 | setting PINNED_BIT keeps the forwarded bit and the vtable |
| GcHeap.WithoutPinned | Unity-2018.2.8/mono/metadata/sgen-gc.c:427-429 | clearing PINNED_BIT keeps the forwarded bit and the vtable |
| GcHeap.UnpinUndoesPin | Unity-2018.2.8/mono/metadata/sgen-gc.c:424-429 | unpin_object after pin_object restores a header that was not pinned |
| GcHeap.PtrInNurseryIsRange | Unity-2018.2.8/mono/metadata/sgen-gc.c:431-435 | for an aligned nursery the mask form of ptr_in_nursery is the range form |
| GcHeap.ObjIsFromPinnedAlloc | Unity-2018.2.8/mono/metadata/sgen-gc.c:616-624 | true iff the address lies in [start_data, end) of some pinned chunk |
| GcHeap.CopiedLoad | Unity-2018.2.8/mono/metadata/sgen-gc.c:1597 | after the copy the destination words read back as the source words |
| GcHeap.Relocated | Unity-2018.2.8/mono/metadata/sgen-gc.c:1600-1606 | the copy's words equal the object's except that an array with bounds has its bounds pointer rebased onto the copy |
| GcHeap.EvacuatedCopy | Unity-2018.2.8/mono/metadata/sgen-gc.c:1560-1606 | the moved object at dest holds the old words with the array bounds rebased |
| GcHeap.RebasedLoad | Unity-2018.2.8/mono/metadata/sgen-gc.c:1600-1606 | rebasing the bounds after the copy yields the relocated words |
| GcHeap.ForwardedLoad | Unity-2018.2.8/mono/metadata/sgen-gc.c:1608 | forwarding the old object leaves a non-overlapping copy intact |
| GcHeap.EvacuatedHeader | Unity-2018.2.8/mono/metadata/sgen-gc.c:1608 | the old object is forwarded to dest and keeps its vtable and pinned bit |
| GcHeap.EvacuatedFrame | Unity-2018.2.8/mono/metadata/sgen-gc.c:1560-1608 | no word outside the copy and the old object's two header words changes |
| GcHeap.Collector.ForwardingOf | Unity-2018.2.8/mono/metadata/sgen-gc.c:416 | object_is_forwarded is NULL when FORWARDED_BIT is clear |
| GcHeap.Collector.ForwardObject | Unity-2018.2.8/mono/metadata/sgen-gc.c:418-421 | the heap gets FORWARDED_BIT and the new address, and object_is_forwarded then gives that address |
| GcHeap.Collector.PinObject | Unity-2018.2.8/mono/metadata/sgen-gc.c:424-426 | only the header changes; the object is then pinned with its vtable kept |
| GcHeap.Collector.UnpinObject | Unity-2018.2.8/mono/metadata/sgen-gc.c:427-429 | only the header changes; the object is then unpinned with its vtable kept |
| GcHeap.Collector.MovedSize | Unity-2018.2.8/mono/metadata/sgen-gc.c:1544-1546 | the object size rounded up to ALLOC_ALIGN |
| GcHeap.Collector.MoveObject | Unity-2018.2.8/mono/metadata/sgen-gc.c:1560-1608 | the heap becomes the evacuated heap |
| GcHeap.Collector.RebaseBounds | Unity-2018.2.8/mono/metadata/sgen-gc.c:1600-1606 | the heap becomes the one with the copy's bounds rebased |
| GcHeap.Collector.CopyWords | Unity-2018.2.8/mono/metadata/sgen-gc.c:1597 | the heap becomes the one with the n words copied |
| GcHeap.Collector.Evacuate | Unity-2018.2.8/mono/metadata/sgen-gc.c:1560-1613 | the copy goes at gray_objects, which advances by the aligned size; the old object is forwarded and the scan start of the copy recorded |
| GcHeap.Collector.CopyObject | Unity-2018.2.8/mono/metadata/sgen-gc.c:1522-1617 | objects outside from-space or in to-space are returned unchanged; a forwarded object gives its copy; a pinned object stays; a large or pinned-chunk object is pinned in place; any other object is evacuated |
| PinQueue.NewGap | Unity-2018.2.8/mono/metadata/sgen-gc.c:1785-1793 | the new gap is at least 1, never 9 or 10, at least gap * 10 / 13, and smaller than any gap of 2 or more |
| PinQueue.SwapRaisesWeight | Unity-2018.2.8/mono/metadata/sgen-gc.c:1820-1824 | exchanging an out-of-order pair strictly raises the weight that bounds the number of passes |
| PinQueue.AdjacentSorted | Unity-2018.2.8/mono/metadata/sgen-gc.c:1827-1828 | a pass at gap 1 that exchanges nothing leaves the slice sorted |
| PinQueue.SwapPermutes | Unity-2018.2.8/mono/metadata/sgen-gc.c:1820-1824 | an exchange is a permutation |
| PinQueue.Exchange | Unity-2018.2.8/mono/metadata/sgen-gc.c:1820-1824 | the two slots are exchanged and nothing else changes |
| PinQueue.CompareExchange | Unity-2018.2.8/mono/metadata/sgen-gc.c:1819-1825 | an out-of-order pair is exchanged, raising the weight; an ordered pair is left alone |
| PinQueue.CombPass | Unity-2018.2.8/mono/metadata/sgen-gc.c:1816-1826 | a pass permutes the slice; a pass that exchanges nothing leaves every pair `gap` apart in order |
| PinQueue.SortAddresses | Unity-2018.2.8/mono/metadata/sgen-gc.c:1805-1831 | the slice ends sorted ascending, as a permutation of its old contents, and nothing outside it changes |
| PinQueue.Candidates | Unity-2018.2.8/mono/metadata/sgen-gc.c:1890-1932 | the queued values are aligned to ALLOC_ALIGN and no more than the scanned words |
| PinQueue.CandidatesExactly | Unity-2018.2.8/mono/metadata/sgen-gc.c:1893-1916 | a value is queued iff it is the aligned form of a scanned word in [start_nursery, end_nursery) |
| PinQueue.CandidatesInNursery | Unity-2018.2.8/mono/metadata/sgen-gc.c:1893-1916 | with an aligned nursery every queued value is a nursery address |
| PinQueue.PinQueue.Queued | Unity-2018.2.8/mono/metadata/sgen-gc.c:1850-1870 | the queued addresses are pin_queue[0..next_pin_slot) |
| PinQueue.PinQueue.Realloc | Unity-2018.2.8/mono/metadata/sgen-gc.c:1873-1882 | the queue grows to 1.5 times its size, or to 1024 slots the first time, keeping the queued addresses |
| PinQueue.PinQueue.ConservativelyPinObjectsFrom | Unity-2018.2.8/mono/metadata/sgen-gc.c:1890-1932 | the queue becomes the old queue followed by the candidates of the scanned range, in order |
| PinQueue.PinQueue.PinAddress | Unity-2018.2.8/mono/metadata/sgen-gc.c:1912-1914 | one address is appended at next_pin_slot, after growing a full queue |
| PinQueue.PinQueue.OptimizePinQueue | Unity-2018.2.8/mono/metadata/sgen-gc.c:1850-1870 | the slots before start_slot are kept; from start_slot the queue is strictly increasing and holds the same set of addresses, and next_pin_slot only shrinks |
| PinQueue.Uniq | Unity-2018.2.8/mono/metadata/sgen-gc.c:1858-1865 | the de-duplicating scan writes a strictly increasing run holding the same set of addresses |
| PinQueue.UniqStep | Unity-2018.2.8/mono/metadata/sgen-gc.c:1859-1864 | one round keeps one address and skips its copies |
| PinQueue.SkipRun | Unity-2018.2.8/mono/metadata/sgen-gc.c:1861-1862 | the inner scan steps over the copies of the kept address and stops at a larger one or at end: every slot it passes holds a copy, and the slot it stops at before end does not |
| PinQueue.SkipReadsAsWritten | Unity-2018.2.8/mono/metadata/sgen-gc.c:1861-1862 | the slots the inner scan reads as written, where `*start == *cur` is read before `cur < end` is checked |
| PinQueue.SkipReadsAsWrittenReachEnd | Unity-2018.2.8/mono/metadata/sgen-gc.c:1861-1862 | when the run of equal addresses reaches end, the scan as written reads slot end |
| PinQueue.SkipRunReadsPastEnd | Unity-2018.2.8/mono/metadata/sgen-gc.c:1861-1862 | with a full queue [a, a] the scan as written reads pin_queue[2], one past the buffer |
| PinQueue.SkipReads | Unity-2018.2.8/mono/metadata/sgen-gc.c:1861-1862 | the slots the inner scan reads with the bound checked first |
| PinQueue.SkipRunReads | Unity-2018.2.8/mono/metadata/sgen-gc.c:1861-1862 | where SkipRun stops fixes what the scan reads: SkipReads is exactly the copies stepped over, then the stopping slot when it is before end |
| PinQueue.SkipReadsInBounds | Unity-2018.2.8/mono/metadata/sgen-gc.c:1861-1862 | with the bound checked first every slot read lies in [r, end) |
| GcPinning.FindSearchStart | Unity-2018.2.8/mono/metadata/sgen-gc.c:1728-1738 | the search starts at the nearest set scan start at or below the address's slot that is not above the address, or at start_nursery when there is none |
| GcPinning.WalkLandsOnObject | Unity-2018.2.8/mono/metadata/sgen-gc.c:1744-1768 | the do-while walk ends on an aligned object at or below the address with its aligned size; a found object has a non-zero header and contains the address; a walk that finds nothing stopped on a zero word holding the address |
| GcPinning.WalkPastLast | Unity-2018.2.8/mono/metadata/sgen-gc.c:1739-1740 | a walk restarted at the end of the last object finds an object after it |
| GcPinning.WalkToAddress | Unity-2018.2.8/mono/metadata/sgen-gc.c:1744-1768 | the walk loop computes WalkFrom |
| GcPinning.WalkStep | Unity-2018.2.8/mono/metadata/sgen-gc.c:1745-1767 | one step of the walk skips a zero word or examines one object, keeping the walk's outcome |
| GcPinning.ResolveAddress | Unity-2018.2.8/mono/metadata/sgen-gc.c:1728-1768 | the object search for one address: the object found contains the address and lies after the last object found; when none is found the address is on a zero word past it |
| GcPinning.ZeroBefore | Unity-2018.2.8/mono/metadata/sgen-gc.c:1745 | pinning never makes a word zero, so a zero word now was zero before pinning |
| GcPinning.PinKeeps | Unity-2018.2.8/mono/metadata/sgen-gc.c:1759 | pin_object keeps the sizes and the recorded objects found so far |
| GcPinning.HitStep | Unity-2018.2.8/mono/metadata/sgen-gc.c:1758-1763 | an object found holding the address is pinned, recorded in the next definitely_pinned slot and settles the address |
| GcPinning.MissStep | Unity-2018.2.8/mono/metadata/sgen-gc.c:1769-1772 | an address on unused zeroed memory is passed over and settled on that zero word |
| GcPinning.InsideStep | Unity-2018.2.8/mono/metadata/sgen-gc.c:1724-1727 | an address inside the last object found is settled in that object |
| GcPinning.PassStep | Unity-2018.2.8/mono/metadata/sgen-gc.c:1720-1721 | a repeated address, or one outside the nursery, is passed over |
| GcPinning.PinAndRecord | Unity-2018.2.8/mono/metadata/sgen-gc.c:1759-1761 | the object's header gets PINNED_BIT and the object goes into the next slot of definitely_pinned |
| GcPinning.VisitAddress | Unity-2018.2.8/mono/metadata/sgen-gc.c:1722-1772 | one new nursery address is resolved, and its object pinned and recorded when found |
| GcPinning.PinStep | Unity-2018.2.8/mono/metadata/sgen-gc.c:1718-1775 | one loop turn keeps the pinning invariant |
| GcPinning.PinObjectsFromAddresses | Unity-2018.2.8/mono/metadata/sgen-gc.c:1708-1778 | the count of recorded objects is returned; the recorded objects are distinct, increasing, pinned nursery objects, each containing a queued address; only their headers gain PINNED_BIT; and every queued nursery address lies in a recorded object or on a word that was zero |
| GcPinning.ScanIndex | Unity-2018.2.8/mono/metadata/sgen-gc.c:1728 | every nursery address has a scan-start slot |
| GcNursery.Zeroed | Unity-2018.2.8/mono/metadata/sgen-gc.c:2230 | memset of [a, b): the same heap with the words of the range cleared |
| GcNursery.ObjectEnd | Unity-2018.2.8/mono/metadata/sgen-gc.c:2384-2387 | the end of a pinned object is at or after its start and aligned when its start is, its size being rounded up to ALLOC_ALIGN |
| GcNursery.PushedAreBigGaps | Unity-2018.2.8/mono/metadata/sgen-gc.c:2220-2226 | every fragment listed by the rebuild comes from a gap of at least FRAGMENT_MIN_SIZE bytes, with its limit at its start |
| GcNursery.BigGapsArePushed | Unity-2018.2.8/mono/metadata/sgen-gc.c:2220-2226 | every gap of at least FRAGMENT_MIN_SIZE bytes is listed as a fragment |
| GcNursery.GapsBeforeMissPins | Unity-2018.2.8/mono/metadata/sgen-gc.c:2376-2387 | the gaps in front of the pinned objects are non-empty, lie between nursery_start and the last pinned object and overlap no pinned object |
| GcNursery.PinsIncrease | Unity-2018.2.8/mono/metadata/sgen-gc.c:2376-2387 | pinned objects in queue order are aligned nursery addresses and each ends no later than the next begins |
| GcNursery.GapsMissPins | Unity-2018.2.8/mono/metadata/sgen-gc.c:2376-2417 | every gap offered to add_nursery_frag lies in [nursery_start, nursery_real_end), is non-empty and overlaps no pinned object |
| GcNursery.GapsBeforeCover | Unity-2018.2.8/mono/metadata/sgen-gc.c:2376-2387 | every address from nursery_start up to the end of the last pinned object lies in a gap before a pinned object or in a pinned object |
| GcNursery.GapsCover | Unity-2018.2.8/mono/metadata/sgen-gc.c:2376-2417 | every nursery address lies in an offered gap or in a pinned object: the gaps and the pinned objects tile the nursery |
| GcNursery.AfterPinsUnpins | Unity-2018.2.8/mono/metadata/sgen-gc.c:2379 | after the loop every pinned object's header has lost its PINNED bit and kept everything else |
| GcNursery.AfterPinsClears | Unity-2018.2.8/mono/metadata/sgen-gc.c:2217-2218 | after the loop every gap before a pinned object that the clear policy or its size selects is zero |
| GcNursery.AfterPinsKeeps | Unity-2018.2.8/mono/metadata/sgen-gc.c:2376-2412 | after the loop a word that is no pinned header and lies in no cleared gap is unchanged |
| GcNursery.RebuiltUnpins | Unity-2018.2.8/mono/metadata/sgen-gc.c:2376-2417 | after build_nursery_fragments no pinned object carries its PINNED bit, and the rest of its header is kept |
| GcNursery.RebuiltClears | Unity-2018.2.8/mono/metadata/sgen-gc.c:2217-2230 | after build_nursery_fragments every gap that is cleared (all of them under CLEAR_AT_GC, the small ones otherwise) holds only zero words |
| GcNursery.RebuiltKeeps | Unity-2018.2.8/mono/metadata/sgen-gc.c:2363-2430 | build_nursery_fragments changes no word outside the pinned headers and the cleared gaps |
| GcNursery.Zeros | Unity-2018.2.8/mono/metadata/sgen-gc.c:2375 | n cleared scan-start slots |
| GcNursery.RecordedScanStarts | Unity-2018.2.8/mono/metadata/sgen-gc.c:2375-2380 | after clearing and recording, each scan-start slot is clear or holds a pinned object of that slot, and every pinned object's slot holds the last pinned object in it |
| GcNursery.FragmentsInNursery | Unity-2018.2.8/mono/metadata/sgen-gc.c:2220-2226 | every listed fragment starts aligned and lies in [nursery_start, nursery_real_end) |
| GcNursery.FirstFit | Unity-2018.2.8/mono/metadata/sgen-gc.c:3377-3392 | the position of the first fragment with room for the request: all earlier ones are too small, and there is none exactly when no fragment has room |
| GcNursery.WithVtable | Unity-2018.2.8/mono/metadata/sgen-gc.c:3432-3607 | the vtable store of an allocation: the object's first word holds the vtable and no other word changes |
| GcNursery.Nursery.constructor | Unity-2018.2.8/mono/metadata/sgen-gc.c:2131-2153 | a nursery ready to allocate: nursery_next at nursery_start, the current fragment reaching nursery_real_end, cleared scan starts, no fragments, no TLAB, degraded mode off |
| GcNursery.Nursery.AllocFragment | Unity-2018.2.8/mono/metadata/sgen-gc.c:2079-2090 | the head of fragment_freelist is taken when there is one; otherwise the free list stays empty |
| GcNursery.Nursery.AddNurseryFrag | Unity-2018.2.8/mono/metadata/sgen-gc.c:2212-2232 | a gap of at least FRAGMENT_MIN_SIZE bytes is pushed on the fragment list and counted in fragment_total; a smaller one is zeroed; under CLEAR_AT_GC every gap is zeroed |
| GcNursery.Nursery.ClearTlabs | Unity-2018.2.8/mono/metadata/sgen-gc.c:4976-4990 | the allocating thread's four TLAB pointers are NULL |
| GcNursery.Nursery.SearchFragmentForSize | Unity-2018.2.8/mono/metadata/sgen-gc.c:3367-3395 | the result is true exactly when some fragment has room; the first such fragment is unlinked, becomes the current fragment and its record goes to the free list; on false the lists are unchanged |
| GcNursery.Nursery.AllocObj | Unity-2018.2.8/mono/metadata/sgen-gc.c:3432-3607 | the request is rounded to ALLOC_ALIGN; the fast path returns the old tlab_next when its word is zero; a request above MAX_SMALL_OBJ_SIZE goes to the large object space exactly when the TLAB cannot hold it; degraded allocations grow degraded_mode by the size; every nursery allocation lies in zeroed memory and only the vtable word and cleared words change |
| GcNursery.Nursery.AllocFast | Unity-2018.2.8/mono/metadata/sgen-gc.c:3477-3498 | the object takes the next bytes of the TLAB below tlab_temp_end, provided its first word is still zero |
| GcNursery.Nursery.AllocRetiringTlab | Unity-2018.2.8/mono/metadata/sgen-gc.c:3517-3589 | a small object that does not fit below tlab_temp_end of a used-up TLAB comes from alloc_degraded while degraded mode lasts, else from the current fragment or a new TLAB, in zeroed memory |
| GcNursery.Nursery.AllocDegraded | Unity-2018.2.8/mono/metadata/sgen-gc.c:3529-3532 | the object comes from an old-generation section with room, and degraded_mode grows by its size |
| GcNursery.Nursery.AllocDirect | Unity-2018.2.8/mono/metadata/sgen-gc.c:3535-3556 | an object bigger than a TLAB is taken from the current fragment when it fits, else from the first fragment with room; with no such fragment a collection is needed and the fragments are unchanged |
| GcNursery.Nursery.EnsureRoom | Unity-2018.2.8/mono/metadata/sgen-gc.c:3537-3546 | when the request does not fit the current fragment a fragment with room is searched for; afterwards either the request fits below nursery_frag_real_end or no fragment had room |
| GcNursery.Nursery.AllocInNewTlab | Unity-2018.2.8/mono/metadata/sgen-gc.c:3557-3588 | a new TLAB of tlab_size bytes is carved from the current fragment, or from the first fragment with room; with none a collection is needed |
| GcNursery.Nursery.StoreInTlab | Unity-2018.2.8/mono/metadata/sgen-gc.c:3584-3588 | the object is at the old tlab_next, tlab_next moves past it, it is its slot's scan start and its first word holds the vtable |
| GcNursery.Nursery.NewTlab | Unity-2018.2.8/mono/metadata/sgen-gc.c:3574-3581 | the TLAB is the next tlab_size bytes of the current fragment, zeroed under CLEAR_AT_TLAB_CREATION, with tlab_temp_end SCAN_START_SIZE into it or at its end |
| GcNursery.Nursery.BumpTempEnd | Unity-2018.2.8/mono/metadata/sgen-gc.c:3590-3597 | an object that crosses tlab_temp_end inside the TLAB becomes its slot's scan start, and tlab_temp_end moves SCAN_START_SIZE past tlab_next but not past tlab_real_end |
| GcNursery.Nursery.RebuildStep | Unity-2018.2.8/mono/metadata/sgen-gc.c:2376-2412 | one turn of the loop keeps the rebuild invariant for one more pinned object |
| GcNursery.Nursery.OfferGap | Unity-2018.2.8/mono/metadata/sgen-gc.c:2381-2383 | a non-empty gap is offered to add_nursery_frag and the listed fragments follow the gaps seen so far |
| GcNursery.Nursery.BuildNurseryFragments | Unity-2018.2.8/mono/metadata/sgen-gc.c:2363-2430 | the fragments are exactly the big gaps between the sorted pinned objects, fragment_total counts their bytes, the old records become the free list, pinned objects are unpinned and recorded as scan starts, cleared gaps are zero, degraded mode starts when nothing was listed, and no TLAB or current fragment remains |
| GcNursery.Nursery.StartRebuild | Unity-2018.2.8/mono/metadata/sgen-gc.c:2370-2375 | the old fragments go to the free list and the scan starts are cleared, with no pinned object done |
| GcNursery.Nursery.RebuildFragments | Unity-2018.2.8/mono/metadata/sgen-gc.c:2376-2417 | the loop and the last gap produce the rebuilt state; the result is the end of the last pinned object |
| GcNursery.Nursery.FinishRebuild | Unity-2018.2.8/mono/metadata/sgen-gc.c:2413-2429 | nursery_last_pinned_end is recorded, degraded mode starts when no fragment was listed, and there is no current fragment or TLAB |
| GcNursery.Nursery.AddLastGap | Unity-2018.2.8/mono/metadata/sgen-gc.c:2413-2417 | the gap from the end of the last pinned object to nursery_real_end is offered to add_nursery_frag |
| GcSections.PageAligned | Unity-2018.2.8/mono/metadata/sgen-gc.c:2817-2819 | the size rounded up to the least multiple of the given page size not below it |
| GcSections.SectionSize | Unity-2018.2.8/mono/metadata/sgen-gc.c:2814-2820 | a section is next_section_size bytes, or the request in whole pages when the request is larger |
| GcSections.RoomFor | Unity-2018.2.8/mono/metadata/sgen-gc.c:3405-3410 | the first non-nursery section with room for the object, or none exactly when no section has room |
| GcSections.SectionList.constructor | Unity-2018.2.8/mono/metadata/sgen-gc.c:512-514 | an empty section list with next_section_size at its initial value, and the page size the system reports (set from mono_pagesize() at sgen-gc.c:5926) |
| GcSections.SectionList.AllocSection | Unity-2018.2.8/mono/metadata/sgen-gc.c:2809-2848 | a GEN1 section of SectionSize bytes goes at the head of section_list and total_alloc grows by its size; every fourth call doubles next_section_size, capped at DEFAULT_MAX_SECTION |
| GcSections.SectionList.AllocDegraded | Unity-2018.2.8/mono/metadata/sgen-gc.c:3401-3421 | the object goes at next_data of the first section with room, or of a new section of four nursery sizes when none has room; that section's next_data moves past it and degraded_mode grows by its size; a new section is sized and counted as AllocSection says, and holds the object whenever the object is no bigger than four nursery sizes |
| GcFreelist.FreelistSizesAscending | Unity-2018.2.8/mono/metadata/sgen-gc.c:600-606 | the size classes are positive multiples of ALLOC_ALIGN, strictly ascending, and the last is MAX_FREELIST_SIZE |
| GcFreelist.FreelistSizesDistinct | Unity-2018.2.8/mono/metadata/sgen-gc.c:602-605 | two different slots have different size classes |
| GcFreelist.SlotForSize | Unity-2018.2.8/mono/metadata/sgen-gc.c:3091-3101 | the least slot whose class holds the size; there is none exactly when the size exceeds MAX_FREELIST_SIZE, where the source asserts |
| GcFreelist.SlotOfClass | Unity-2018.2.8/mono/metadata/sgen-gc.c:3095-3097 | the slot chosen for a class's own size is that class |
| GcFreelist.ChunkSize | Unity-2018.2.8/mono/metadata/sgen-gc.c:3132-3136 | the chunk is whole pages, at least one page more than the request, and at least twice PINNED_CHUNK_MIN_SIZE; it is larger only when the request needs it |
| GcFreelist.StartDataOffset | Unity-2018.2.8/mono/metadata/sgen-gc.c:3143-3152 | start_data follows the chunk record, page_sizes and free_list, each rounded up to ALLOC_ALIGN: an aligned offset less than 8 bytes past their sum |
| GcFreelist.SmallChunk | Unity-2018.2.8/mono/metadata/sgen-gc.c:3132-3152 | any request a size class holds gets a 16-page chunk whose objects start at offset 296 |
| GcFreelist.Head | Unity-2018.2.8/mono/metadata/sgen-gc.c:3116 | the head of a free list is NULL exactly when the list has no cells |
| GcFreelist.Link | Unity-2018.2.8/mono/metadata/sgen-gc.c:3119-3122 | each free cell links to the next cell, and the last to NULL |
| GcFreelist.FirstUnused | Unity-2018.2.8/mono/metadata/sgen-gc.c:3174-3177 | the first page whose page size is 0; there is none exactly when every page is in use |
| GcFreelist.ClearLowBytes | Unity-2018.2.8/mono/metadata/sgen-gc.c:3249 | the last word a memset covers in part loses its first bytes and keeps the others |
| GcFreelist.MemsetZero | Unity-2018.2.8/mono/metadata/sgen-gc.c:3249 | memset of n bytes from a word on little-endian words: every byte of the range reads zero and every other byte is kept |
| GcFreelist.PinnedChunk.PopFree | Unity-2018.2.8/mono/metadata/sgen-gc.c:3170-3172 | the head cell of the slot leaves its list, which keeps the rest, and the head becomes the link the cell held |
| GcFreelist.PinnedChunk.PushFree | Unity-2018.2.8/mono/metadata/sgen-gc.c:635-636 | the cell's first word takes the old head and the cell heads the list, ahead of the old cells |
| GcFreelist.PinnedChunk.FreePinnedObject | Unity-2018.2.8/mono/metadata/sgen-gc.c:629-637 | an allocated object goes back at the head of the list of the slot of its size, and the lists stay well formed |
| GcFreelist.PinnedChunk.ZeroObject | Unity-2018.2.8/mono/metadata/sgen-gc.c:3249 | the first size bytes of a handed-out cell read zero, every other byte of the chunk is kept, and the lists stay well formed |
| GcFreelist.PinnedChunk.ThreadPage | Unity-2018.2.8/mono/metadata/sgen-gc.c:3113-3122 | the cells of the page at stride size are each linked to the next that fits before the page end, the last to NULL |
| GcFreelist.PinnedChunk.BuildFreelist | Unity-2018.2.8/mono/metadata/sgen-gc.c:3108-3124 | the empty list of the slot becomes every cell of the page at the class's stride, in address order, threaded through their first words; nothing outside the page changes |
| GcFreelist.PinnedChunk.EmptyIffNull | Unity-2018.2.8/mono/metadata/sgen-gc.c:3169-3170 | in a well-formed chunk the list head of a slot is NULL exactly when the slot has no free cell |
| GcFreelist.PinnedChunk.ClaimPage | Unity-2018.2.8/mono/metadata/sgen-gc.c:3178-3181 | an unused page takes the slot's class and its cells become the slot's list; nothing outside the page changes |
| GcFreelist.PinnedChunk.FindUnusedPage | Unity-2018.2.8/mono/metadata/sgen-gc.c:3174-3182 | the first unused page, or num_pages when there is none |
| GcFreelist.PinnedChunk.GetChunkFreelist | Unity-2018.2.8/mono/metadata/sgen-gc.c:3165-3190 | the head cell of the slot when its list is non-empty; otherwise the first cell of the first unused page given to the slot; with no unused page NULL and nothing changes; a returned cell is of the slot and no longer free |
| GcFreelist.PinnedChunk.constructor | Unity-2018.2.8/mono/metadata/sgen-gc.c:3127-3161 | a chunk of ChunkSize bytes with its bookkeeping laid out after the record, page 0 given to the 32-byte class with its list built from start_data, every other page unused and every other list empty |
| GcFreelist.PinnedChunk.InitialValid | Unity-2018.2.8/mono/metadata/sgen-gc.c:3142-3155 | the layout alloc_pinned_chunk sets up, before page 0's list is built, is a well-formed chunk |
| GcFreelist.PinnedChunk.PinTarget | Unity-2018.2.8/mono/metadata/sgen-gc.c:2989-3012 | an address in the chunk maps to the cell of its page's class that contains it, and to none exactly when its page is unused |
| GcFreelist.PinnedChunk.MarkOne | Unity-2018.2.8/mono/metadata/sgen-gc.c:3013-3018 | only the first word of the target cell can change, and only by gaining PINNED_BIT; when that word holds a non-NULL vtable outside the chunk it does gain PINNED_BIT and keeps its vtable |
| GcFreelist.PinnedChunk.MarkAddress | Unity-2018.2.8/mono/metadata/sgen-gc.c:2988-3018 | one address is marked as MarkOne says and the chunk stays well formed |
| GcFreelist.PinnedChunk.MarkPinnedFromAddresses | Unity-2018.2.8/mono/metadata/sgen-gc.c:2985-3020 | every address is marked in turn, first to last, and the free lists are untouched |
| GcFreelist.PinnedChunk.MarkedKeepsPinned | Unity-2018.2.8/mono/metadata/sgen-gc.c:2985-3020 | a word that carries PINNED_BIT keeps it through any run of marks |
| GcFreelist.PinnedChunk.MarkedPins | Unity-2018.2.8/mono/metadata/sgen-gc.c:2985-3020 | after marking a run of addresses, the target word of each address is pinned whenever it held a non-NULL vtable outside the chunk before the run |
| GcFreelist.PinnedChunk.MarkedOnlyTargets | Unity-2018.2.8/mono/metadata/sgen-gc.c:2985-3020 | a word the run changes is the target word of one of the addresses, was non-NULL, and now carries PINNED_BIT with its vtable kept |
| GcFreelist.PinnedChunk.PageSizesBounded | Unity-2018.2.8/mono/metadata/sgen-gc.c:3155-3179 | every page size is 0 or a size class |
| GcFreelist.PinnedChunk.SweepObject | Unity-2018.2.8/mono/metadata/sgen-gc.c:3040-3062 | a cell whose first word is a vtable outside the chunk is unpinned when pinned and freed onto its slot's list otherwise; free cells and empty cells are left alone |
| GcFreelist.PinnedChunk.SweepPageObjects | Unity-2018.2.8/mono/metadata/sgen-gc.c:3034-3047 | every whole cell of a used page, from start_data on page 0, is swept in address order |
| GcFreelist.PinnedChunk.SweepChunk | Unity-2018.2.8/mono/metadata/sgen-gc.c:3030-3050 | every used page of the chunk is swept in page order and the lists stay well formed |
| GcPinnedAlloc.FirstWithFree | Unity-2018.2.8/mono/metadata/sgen-gc.c:3201-3208 | the first chunk whose list of the slot is non-NULL; none exactly when every list is empty |
| GcPinnedAlloc.FirstWithUnused | Unity-2018.2.8/mono/metadata/sgen-gc.c:3209-3213 | the first chunk with an unused page, where get_chunk_freelist succeeds; none exactly when no chunk has one |
| GcPinnedAlloc.FirstHolding | Unity-2018.2.8/mono/metadata/sgen-gc.c:3276-3278 | the first internal chunk whose pages hold the address; none exactly when no chunk holds it |
| GcPinnedAlloc.ObjIsFromPinnedAlloc | Unity-2018.2.8/mono/metadata/sgen-gc.c:616-624 | true exactly when the address lies in [start_data, end) of some chunk of the list |
| GcPinnedAlloc.ObjIsFromPinnedAllocSpans | Unity-2018.2.8/mono/metadata/sgen-gc.c:616-624 | the test on the chunks agrees with GcHeap.ObjIsFromPinnedAlloc's walk over the chunks' [start_data, end) spans |
| GcPinnedAlloc.HandedOutAllocated | Unity-2018.2.8/mono/metadata/sgen-gc.c:3276-3284 | a cell of a slot that is on no free list is an address free_internal_mem takes back |
| GcPinnedAlloc.FreshPagesUnused | Unity-2018.2.8/mono/metadata/sgen-gc.c:3155-3156 | in a fresh chunk page 1 is the first unused page |
| GcPinnedAlloc.FindWithFree | Unity-2018.2.8/mono/metadata/sgen-gc.c:3201-3208 | the index of the first chunk with a non-empty list of the slot, or the list length when there is none |
| GcPinnedAlloc.PopFirstFree | Unity-2018.2.8/mono/metadata/sgen-gc.c:3201-3207 | the first chunk with a free cell of the slot gives up its head cell, zeroed for clear bytes |
| GcPinnedAlloc.ClaimFromChunks | Unity-2018.2.8/mono/metadata/sgen-gc.c:3209-3213 | with every list of the slot empty, chunks without an unused page are left as they were and the first chunk with one hands out a cell of a freshly claimed page; with none the result is NULL and nothing changes |
| GcPinnedAlloc.PinnedAllocator.constructor | Unity-2018.2.8/mono/metadata/sgen-gc.c:608-613 | no chunks on either list, min_pinned_chunk_addr at (char*)-1 and max_pinned_chunk_addr at NULL |
| GcPinnedAlloc.PinnedAllocator.AllocPinnedChunk | Unity-2018.2.8/mono/metadata/sgen-gc.c:3127-3161 | a fresh chunk laid out at the given base, total_alloc grown by its size, and the pinned-chunk bounds widened to take it in |
| GcPinnedAlloc.PinnedAllocator.NewChunkCell | Unity-2018.2.8/mono/metadata/sgen-gc.c:3214-3218 | get_chunk_freelist on a new chunk never gives NULL: the cell is start_data for the 32-byte class and the start of page 1 otherwise |
| GcPinnedAlloc.PinnedAllocator.PushChunk | Unity-2018.2.8/mono/metadata/sgen-gc.c:3216-3217 | the new chunk heads its list and the other list is unchanged, all chunks staying valid, distinct and within the bounds |
| GcPinnedAlloc.PinnedAllocator.TakeCell | Unity-2018.2.8/mono/metadata/sgen-gc.c:3193-3220 | the three tries in order: a free cell of the first chunk with one, else a page of the first chunk with an unused page, else a new chunk at the head of the list; the cell is handed out and the other list is untouched |
| GcPinnedAlloc.PinnedAllocator.AllocFromFreelist | Unity-2018.2.8/mono/metadata/sgen-gc.c:3193-3220 | a cell of the slot of the size, taken from pinned_chunk_list as TakeCell says; the internal chunks are untouched |
| GcPinnedAlloc.PinnedAllocator.GetLargeInternalMem | Unity-2018.2.8/mono/metadata/sgen-gc.c:3233-3241 | a request above the largest class comes from the OS with a header carrying the magic and the whole size; the caller gets the bytes after the header |
| GcPinnedAlloc.PinnedAllocator.GetSmallInternalMem | Unity-2018.2.8/mono/metadata/sgen-gc.c:3243-3266 | a cell of the slot of the size from internal_chunk_list, as TakeCell says, zeroed for the requested size and later accepted by free_internal_mem |
| GcPinnedAlloc.PinnedAllocator.GetInternalMem | Unity-2018.2.8/mono/metadata/sgen-gc.c:3227-3267 | the large path above the largest class, the small path otherwise; the pinned chunks are untouched |
| GcPinnedAlloc.PinnedAllocator.FreeCell | Unity-2018.2.8/mono/metadata/sgen-gc.c:3279-3285 | the cell goes back on the list of its page's slot in that chunk, and no other chunk changes |
| GcPinnedAlloc.PinnedAllocator.FreeInternalMem | Unity-2018.2.8/mono/metadata/sgen-gc.c:3270-3291 | NULL is ignored; an address in an internal chunk goes back on the first such chunk's list; any other address drops its large header, and ok is false exactly when that header's magic is wrong |
| GcPinnedAlloc.PinnedAllocator.SweepPinnedObjects | Unity-2018.2.8/mono/metadata/sgen-gc.c:3065-3068 | every chunk of pinned_chunk_list is swept and the internal chunks are untouched |
| GcRemsets.Tagged | Unity-2018.2.8/mono/metadata/sgen-gc.c:5402 | `ptr \| tag` for an aligned address: the tag reads back from the two low bits and the address from the rest |
| GcRemsets.EntryAt | Unity-2018.2.8/mono/metadata/sgen-gc.c:4779-4849 | the entry handle_remset reads at the start of some words: when there is one, its own encoding is exactly the words it takes and its address is aligned |
| GcRemsets.EncodeDecodes | Unity-2018.2.8/mono/metadata/sgen-gc.c:4779-4849 | an entry's words read back as that entry whatever follows, and take Size(e) words, the distance handle_remset moves |
| GcRemsets.ParseFlatten | Unity-2018.2.8/mono/metadata/sgen-gc.c:4865-4887 | the words of a run of entries parse back to those entries |
| GcRemsets.FlattenParse | Unity-2018.2.8/mono/metadata/sgen-gc.c:4865-4887 | words that parse are exactly the words of their entries |
| GcRemsets.ParseAppend | Unity-2018.2.8/mono/metadata/sgen-gc.c:4898-4900 | two runs of whole entries side by side parse as the two runs of entries in order |
| GcRemsets.RememberedSet.constructor | Unity-2018.2.8/mono/metadata/sgen-gc.c:5407 | alloc_remset: an empty buffer of the requested number of words |
| GcRemsets.RememberedSet.Append | Unity-2018.2.8/mono/metadata/sgen-gc.c:5402-5403 | `*(store_next++) = w` for each word: the stored words are the old ones followed by the new |
| GcRemsets.ChainCons | Unity-2018.2.8/mono/metadata/sgen-gc.c:5407-5409 | a well-formed buffer linked in front of a chain: the entries are the chain's followed by the buffer's |
| GcRemsets.RemsetLog.constructor | Unity-2018.2.8/mono/metadata/sgen-gc.c:5407 | a remembered set with one empty buffer of DEFAULT_REMSET_SIZE words and no entries |
| GcRemsets.RemsetLog.Record | Unity-2018.2.8/mono/metadata/sgen-gc.c:5401-5416 | the entry is logged after all earlier ones: in the head buffer when it has the room the test asks for, otherwise in a new buffer of the same size linked in at the head |
| GcRemsets.RemsetLog.Grow | Unity-2018.2.8/mono/metadata/sgen-gc.c:5407-5409 | a new empty buffer of the head's size heads the chain and no entry changes |
| GcRemsets.RemsetLog.Fill | Unity-2018.2.8/mono/metadata/sgen-gc.c:5413-5414 | the entry's words go at the end of the head buffer and the entries gain it at the end |
| GcRemsets.RemsetLog.Reset | Unity-2018.2.8/mono/metadata/sgen-gc.c:4932-4947 | the head buffer is emptied, every other buffer is unlinked, and the set holds no entries |
| GcRemsets.RemsetLog.SetField | Unity-2018.2.8/mono/metadata/sgen-gc.c:5284-5333 | set_field and set_arrayref alike: the field always receives the value; a field outside the nursery is logged as a LOCATION entry and one in the nursery logs nothing |
| GcRemsets.RemsetLog.ArrayrefCopy | Unity-2018.2.8/mono/metadata/sgen-gc.c:5336-5357 | a copied range outside the nursery is logged as a RANGE entry with the count as a word; one in the nursery logs nothing |
| GcRemsets.RemsetLog.GenericNostore | Unity-2018.2.8/mono/metadata/sgen-gc.c:5360-5381 | a slot outside the nursery and in the managed heap is logged as a LOCATION entry; any other slot logs nothing |
| GcRemsets.RemsetLog.GenericStore | Unity-2018.2.8/mono/metadata/sgen-gc.c:5384-5389 | the slot receives the value, then is logged as GenericNostore says |
| GcRemsets.RemsetLog.SetRootAsWritten | Unity-2018.2.8/mono/metadata/sgen-gc.c:5392-5417 | as written: a root slot outside the nursery is logged as a ROOT_LOCATION entry and stored to; a slot in the nursery is neither logged nor stored to |
| GcRemsets.RemsetLog.SetRoot | Unity-2018.2.8/mono/metadata/sgen-gc.c:5392-5417 | the root slot always receives the value; a slot outside the nursery is logged as a ROOT_LOCATION entry and one in the nursery logs nothing |
| GcRemsets.RemsetLog.ValueCopy | Unity-2018.2.8/mono/metadata/sgen-gc.c:5420-5447 | copied value types outside the nursery and in the heap are logged as a VTYPE entry with the descriptor and count; otherwise nothing is logged |
| GcRemsets.RemsetLog.ObjectBarrier | Unity-2018.2.8/mono/metadata/sgen-gc.c:5455-5472 | the object is logged as an OBJECT entry wherever it is |
| GcRemsets.RemsetLog.AddToGlobal | Unity-2018.2.8/mono/metadata/sgen-gc.c:1462-1499 | global_remset logs a ROOT_LOCATION entry for a root slot and a LOCATION entry otherwise, asking for four free words in either case |
| GcRemsets.RootStoreAsWritten | Unity-2018.2.8/mono/metadata/sgen-gc.c:5397-5398 | the heap after set_root as written: a nursery root slot keeps its old value |
| GcRemsets.RootStoreAsWrittenLosesValue | Unity-2018.2.8/mono/metadata/sgen-gc.c:5397-5398 | a value handed to set_root for a root slot in the nursery is not in the slot afterwards |
| GcRemsets.CopySlot | Unity-2018.2.8/mono/metadata/sgen-gc.c:4784-4793 | the slot gets copy_object of its value; outside a global pass it is reported when the new value is in the collected range; only LOCATION or ROOT_LOCATION entries are reported |
| GcRemsets.CopyRange | Unity-2018.2.8/mono/metadata/sgen-gc.c:4802-4809 | the replay of a RANGE entry changes only its count slots and reports only LOCATION entries for those slots, none in a global pass |
| GcRemsets.Handle | Unity-2018.2.8/mono/metadata/sgen-gc.c:4772-4851 | handling one entry keeps the heap size and reports only global kinds, none in a global pass |
| GcRemsets.HandleAll | Unity-2018.2.8/mono/metadata/sgen-gc.c:4898-4900 | handling a run of entries in order keeps the heap size and reports only global kinds, none in a global pass |
| GcRemsets.HandleAllAppend | Unity-2018.2.8/mono/metadata/sgen-gc.c:4898-4900 | replaying two runs of entries back to back is replaying the first, then the second from the heap the first left, with the reports in order |
| GcRemsets.CopyRangeReports | Unity-2018.2.8/mono/metadata/sgen-gc.c:4806-4807 | every slot a RANGE replay reports points into the collected range once the replay is over |
| GcRemsets.HandleReports | Unity-2018.2.8/mono/metadata/sgen-gc.c:4786-4839 | every slot handle_remset reports to global_remset points into the collected range in the heap it leaves |
| GcRemsets.Compact | Unity-2018.2.8/mono/metadata/sgen-gc.c:4862-4891 | the global pass keeps a subsequence of the entries, all of global kinds, and changes no word that is no entry's slot |
| GcRemsets.CompactReplays | Unity-2018.2.8/mono/metadata/sgen-gc.c:4865-4868 | the global pass leaves the heap exactly as a global replay of the same entries does |
| GcRemsets.CompactKeepsNurserySlots | Unity-2018.2.8/mono/metadata/sgen-gc.c:4875-4886 | with no slot logged twice, an entry is kept exactly when its slot points into the nursery after the pass |
| GcRemsets.CompactKeepsByPosition | Unity-2018.2.8/mono/metadata/sgen-gc.c:4862-4891 | for any log, duplicates included, the global pass keeps in order exactly the entries whose slot points into the nursery right after that entry's own replay |
| GcRemsets.ReplaySlot | Unity-2018.2.8/mono/metadata/sgen-gc.c:4784-4793 | one slot replayed in place as CopySlot says |
| GcRemsets.ReplayRange | Unity-2018.2.8/mono/metadata/sgen-gc.c:4802-4809 | the count slots of a RANGE entry replayed one by one, as CopyRange says |
| GcRemsets.HandleRemset | Unity-2018.2.8/mono/metadata/sgen-gc.c:4772-4851 | the entry at p is replayed as Handle says, and the result is where the next entry starts, inside the buffer |
| GcRemsets.CompactBuffer | Unity-2018.2.8/mono/metadata/sgen-gc.c:4862-4891 | one buffer of global_remset replayed and compacted in place: the heap is as Compact leaves it and the buffer now holds exactly the kept entries |
| GcRemsets.CompactOne | Unity-2018.2.8/mono/metadata/sgen-gc.c:4865-4886 | one turn of the global pass: the entry is replayed and, when its slot still points into the nursery, moved down to store_pos, keeping the loop invariant |
| GcRemsets.KeepIf | Unity-2018.2.8/mono/metadata/sgen-gc.c:4876-4886 | the entry moves down to store_pos exactly when it is kept; the entries after it are not touched |
| GcRemsets.Keep | Unity-2018.2.8/mono/metadata/sgen-gc.c:4878-4885 | `*store_pos++ = p[0]`, and p[1] for a ROOT_LOCATION: the compacted words are the kept entries followed by this one |
| GcTables.Slot | Unity-2018.2.8/mono/metadata/sgen-gc.c:3988 | `hash % size` is a bucket of the table |
| GcTables.HoldsPush | Unity-2018.2.8/mono/metadata/sgen-gc.c:4012-4016 | linking a new key at the head of its chain gives buckets that hold the map with that key added |
| GcTables.HoldsRemove | Unity-2018.2.8/mono/metadata/sgen-gc.c:3994-3998 | unlinking the entry of a key from its chain gives buckets that hold the map without that key |
| GcTables.HoldsUpdate | Unity-2018.2.8/mono/metadata/sgen-gc.c:4263-4266 | giving a key's entry a new value in place gives buckets that hold the map with that key's value changed |
| GcTables.RehashStep | Unity-2018.2.8/mono/metadata/sgen-gc.c:3686-3693 | moving one more old bucket into the new table adds exactly that bucket's keys to what the new table holds |
| GcTables.ChainTable.constructor | Unity-2018.2.8/mono/metadata/sgen-gc.c:588-595 | a zero-initialised table: no buckets, no entries and a count of 0 |
| GcTables.ChainTable.Find | Unity-2018.2.8/mono/metadata/sgen-gc.c:3990-4006 | the walk along the key's chain finds an entry exactly when the key is in the table, and the entry it finds carries the key's value |
| GcTables.ChainTable.RemoveAt | Unity-2018.2.8/mono/metadata/sgen-gc.c:3994-3998 | the key leaves the table, the count drops by one and the number of buckets is kept |
| GcTables.ChainTable.Insert | Unity-2018.2.8/mono/metadata/sgen-gc.c:4012-4016 | the new key enters the table with its value and the count grows by one |
| GcTables.ChainTable.UpdateAt | Unity-2018.2.8/mono/metadata/sgen-gc.c:4262-4266 | the key's value changes in place and the count is kept |
| GcTables.ChainTable.Rehash | Unity-2018.2.8/mono/metadata/sgen-gc.c:3675-3697 | the table gets newSize buckets and still holds exactly the same keys and values, with the same count |
| GcTables.ChainTable.MoveBucket | Unity-2018.2.8/mono/metadata/sgen-gc.c:3687-3692 | every entry of one old bucket is linked at the head of its chain in the new table, which then holds them as well |
| GcTables.ChainTable.Refresh | Unity-2018.2.8/mono/metadata/sgen-gc.c:4229-4242 | find_root and the update: the key's old value is returned when present, and then replaced; absent keys leave the table as it was |
| GcTables.ChainTable.Remove | Unity-2018.2.8/mono/metadata/sgen-gc.c:4312-4330 | the key's entry, when present, is unlinked and its value returned; the count drops exactly when it was present |
| GcTables.ChainTable.RehashIfNecessary | Unity-2018.2.8/mono/metadata/sgen-gc.c:3701-3705 | a table with at least twice as many entries as buckets gets g_spaced_primes_closest(count) buckets, any other keeps its buckets; the contents are kept and the table has buckets afterwards |
| GcTables.RegisterForFinalization | Unity-2018.2.8/mono/metadata/sgen-gc.c:3973-4019 | nothing changes under no_finalize; otherwise a request with a finalizer adds the object and one without removes it, idempotently |
| GcTables.RegisterFinalizer | Unity-2018.2.8/mono/metadata/sgen-gc.c:4022-4028 | the request goes to the minor table for a nursery object and to the major table otherwise, and the other table is left alone |
| GcTables.Not | Unity-2018.2.8/mono/metadata/sgen-gc.c:578 | `~w` on a 64-bit word: w and ~w add up to all ones |
| GcTables.HideReveals | Unity-2018.2.8/mono/metadata/sgen-gc.c:578-582 | REVEAL_POINTER of HIDE_POINTER gives back a 4-aligned pointer, and DISLINK_TRACK gives back the tracking flag |
| GcTables.AddOrRemoveDisappearingLink | Unity-2018.2.8/mono/metadata/sgen-gc.c:4057-4103 | a NULL object removes the link and clears *link when the link was registered; any other object registers the link and stores it hidden in *link |
| GcTables.UnregisterLink | Unity-2018.2.8/mono/metadata/sgen-gc.c:4109-4110 | the link leaves both generations' tables, and *link is cleared when either held it |
| GcTables.RegisterDisappearingLink | Unity-2018.2.8/mono/metadata/sgen-gc.c:4107-4117 | the link leaves both tables; a non-NULL object then registers it in the minor table when in the nursery and the major table otherwise, and *link reveals the object and its tracking flag |
| GcTables.ReAdd | Unity-2018.2.8/mono/metadata/sgen-gc.c:4109-4115 | removing a link and adding it again is adding it |
| GcTables.RootRegistry.constructor | Unity-2018.2.8/mono/metadata/sgen-gc.c:650-653 | no roots, roots_size 0, and no buckets in any root type's table |
| GcTables.RootRegistry.RehashAll | Unity-2018.2.8/mono/metadata/sgen-gc.c:4254-4257 | every root type's table is rehashed if necessary, keeping its roots, and has buckets afterwards |
| GcTables.RootRegistry.RefreshFirst | Unity-2018.2.8/mono/metadata/sgen-gc.c:4258-4272 | the first root type, in order, that has the start gets the new record, and the old record is returned; the other tables are unchanged |
| GcTables.RootRegistry.RegisterInTables | Unity-2018.2.8/mono/metadata/sgen-gc.c:4248-4290 | a start already registered keeps its root type and gets the new record; a new start is added under the requested type |
| GcTables.RootRegistry.InsertNew | Unity-2018.2.8/mono/metadata/sgen-gc.c:4273-4282 | a new record for the start goes into the requested root type's table only |
| GcTables.RootRegistry.RegisterRootInner | Unity-2018.2.8/mono/metadata/sgen-gc.c:4248-4290 | the start ends up registered once with the new end and descriptor, under its old root type or the requested one, and roots_size grows by the new size less the size it replaces |
| GcTables.RootRegistry.RegisterRoot | Unity-2018.2.8/mono/metadata/sgen-gc.c:4293-4296 | a root with a descriptor registers as a normal root and one without as a pinned root, unless the start already had a type |
| GcTables.RootRegistry.RegisterRootWbarrier | Unity-2018.2.8/mono/metadata/sgen-gc.c:4299-4302 | a new start registers as a write-barrier root |
| GcTables.RootRegistry.DeregisterFromTables | Unity-2018.2.8/mono/metadata/sgen-gc.c:4312-4331 | the start leaves every root type's table, and the bytes freed are those of the records removed |
| GcTables.RootRegistry.DeregisterRoot | Unity-2018.2.8/mono/metadata/sgen-gc.c:4305-4333 | the start leaves every root type's table and roots_size drops by the sizes of the records removed |
| GcTables.RegisterFinds | Unity-2018.2.8/mono/metadata/sgen-gc.c:4258-4282 | after a registration the start is found under its old root type, or the requested one when it had none, with the new record |
| GcTables.RefreshUnless | Unity-2018.2.8/mono/metadata/sgen-gc.c:4258-4261 | a table is searched and updated only when no earlier root type had the start |
| GcTables.RegisterKeepsApart | Unity-2018.2.8/mono/metadata/sgen-gc.c:4248-4290 | registration keeps every start under at most one root type |
| GcTables.DeregisterKeepsApart | Unity-2018.2.8/mono/metadata/sgen-gc.c:4305-4333 | deregistration keeps every start under at most one root type |
| GcTables.FreedOnce | Unity-2018.2.8/mono/metadata/sgen-gc.c:4312-4331 | with every start under at most one root type, deregistering frees the bytes of the one record find_root would find |
| ThreadPool.Jobs | Unity-2018.2.8/mono/metadata/threadpool.c:1257-1298 | the jobs of a run of non-NULL slots, slot for slot |
| ThreadPool.JobsOfSlots | Unity-2018.2.8/mono/metadata/threadpool.c:1257-1298 | slots holding exactly the jobs q, in order, are a run whose jobs are q |
| ThreadPool.Survivors | Unity-2018.2.8/mono/metadata/threadpool.c:1317-1324 | the jobs clear_queue keeps are at most the queue |
| ThreadPool.SurvivorsFromOtherDomains | Unity-2018.2.8/mono/metadata/threadpool.c:1307-1316 | every kept job was queued and belongs to another domain |
| ThreadPool.SurvivorsKeepOtherDomains | Unity-2018.2.8/mono/metadata/threadpool.c:1307-1316 | every queued job of another domain is kept |
| ThreadPool.SurvivorsAllKept | Unity-2018.2.8/mono/metadata/threadpool.c:1315-1318 | when nothing is removed the queue is unchanged |
| ThreadPool.RemovedCount | Unity-2018.2.8/mono/metadata/threadpool.c:1307-1316 | the removed and the kept jobs add up to the queue |
| ThreadPool.TPQueue.constructor | Unity-2018.2.8/mono/metadata/threadpool.c:135 | an empty queue with no array |
| ThreadPool.TPQueue.AppendJob | Unity-2018.2.8/mono/metadata/threadpool.c:1257-1298 | nothing is queued while shutting down or while the job's domain unloads; otherwise the job is added at the tail in FIFO order, into a fresh INITIAL_QUEUE_LENGTH array, the free tail slot, the same array slid to index 0, or a new array twice as long |
| ThreadPool.TPQueue.PushTail | Unity-2018.2.8/mono/metadata/threadpool.c:1270-1275 | the job takes the slot at next_elem and the contents grow by it |
| ThreadPool.TPQueue.MakeRoom | Unity-2018.2.8/mono/metadata/threadpool.c:1276-1294 | a full queue gets room at the tail: a fresh array, a slide to index 0 when first_elem > 0, or a doubled array; the contents are unchanged |
| ThreadPool.TPQueue.SlideJobs | Unity-2018.2.8/mono/metadata/threadpool.c:1282-1285 | the jobs move to the front of the same array in order and the vacated slots are NULLed |
| ThreadPool.TPQueue.GrowArray | Unity-2018.2.8/mono/metadata/threadpool.c:1286-1291 | the jobs move in order into a new array twice as long and the old slots are NULLed |
| ThreadPool.TPQueue.DequeueJob | Unity-2018.2.8/mono/metadata/threadpool.c:1379-1406 | NULL on an empty queue; otherwise the head job, removed; the array is halved, keeping order, when it is longer than 128 and fewer than a third of its slots are used |
| ThreadPool.TPQueue.ShrinkArray | Unity-2018.2.8/mono/metadata/threadpool.c:1393-1401 | the jobs move in order into a new array half as long, starting at index 0 |
| ThreadPool.TPQueue.RemoveDomainJobs | Unity-2018.2.8/mono/metadata/threadpool.c:1302-1329 | the count of the domain's jobs is returned; with none, the array is untouched; otherwise the survivors are compacted to the front in order |
| ThreadPool.TPQueue.ClearQueue | Unity-2018.2.8/mono/metadata/threadpool.c:1302-1329 | the corrected clear_queue: the queue holds exactly the jobs of other domains, in order |
| ThreadPool.TPQueue.ClearQueueAsWritten | Unity-2018.2.8/mono/metadata/threadpool.c:1302-1329 | clear_queue as written: when jobs are removed, next_elem becomes the number removed rather than the number kept |
| ThreadPool.TPQueue.FreeQueue | Unity-2018.2.8/mono/metadata/threadpool.c:1409-1415 | the slots are NULLed, the array dropped and both indices reset to 0 |
| ThreadPool.NullRange | Unity-2018.2.8/mono/metadata/threadpool.c:1247-1254 | null_array NULLs exactly the slots [lo, hi) |
| ThreadPool.SlideToFront | Unity-2018.2.8/mono/metadata/threadpool.c:1283 | the count slots from `from` are copied to the front and the others are left alone |
| ThreadPool.CopyRange | Unity-2018.2.8/mono/metadata/threadpool.c:1288 | the count slots from `from` are copied to the front of the new array |
| ThreadPool.NullDomainJobs | Unity-2018.2.8/mono/metadata/threadpool.c:1307-1316 | the removal loop NULLs exactly the domain's jobs and counts them |
| ThreadPool.CompactSurvivors | Unity-2018.2.8/mono/metadata/threadpool.c:1317-1325 | the compaction loop leaves exactly the survivors, in order, at the front |
| ThreadPool.ClearQueueAsWrittenLosesJob | Unity-2018.2.8/mono/metadata/threadpool.c:1326 | with one job of the cleared domain followed by two others, two jobs survive but clear_queue as written sets next_elem to the one job removed, so the third job is lost |
| ThreadPool.ClearQueueAsWrittenCorrectIff | Unity-2018.2.8/mono/metadata/threadpool.c:1326 | the as-written clear is right exactly when half the jobs are removed |
| ThreadPool.StartThreadOrQueue | Unity-2018.2.8/mono/metadata/threadpool.c:1168-1187 | idle threads are started first; afterwards a worker starts iff worker <= busy + 1 and worker < max, else the job is queued |
| ThreadPool.NoWorkerBeyondMax | Unity-2018.2.8/mono/metadata/threadpool.c:1180-1186 | at the maximum pool size calls are only queued |
| ThreadPool.InitialLimits | Unity-2018.2.8/mono/metadata/threadpool.c:1108-1121 | max = 20 + threads_per_cpu * cpu_count, min = cpu_count, io max = max / 2 but at least 16 |
| ThreadPool.PoolLimits.constructor | Unity-2018.2.8/mono/metadata/threadpool.c:1095-1125 | the limits mono_thread_pool_init sets |
| ThreadPool.PoolLimits.GetMaxThreads | Unity-2018.2.8/mono/metadata/threadpool.c:1539-1545 | the current maxima |
| ThreadPool.PoolLimits.GetMinThreads | Unity-2018.2.8/mono/metadata/threadpool.c:1548-1559 | the current minima |
| ThreadPool.PoolLimits.SetMinThreads | Unity-2018.2.8/mono/metadata/threadpool.c:1562-1581 | values <= 0 or above the current maxima are refused and change nothing; otherwise the minima are set |
| ThreadPool.PoolLimits.SetMaxThreads | Unity-2018.2.8/mono/metadata/threadpool.c:1584-1605 | values below the current minima or below the processor count mono_cpu_count() reports at the call are refused and change nothing; otherwise the maxima are set |
| ThreadPool.AcceptedLimitsAreOrdered | Unity-2018.2.8/mono/metadata/threadpool.c:1562-1605 | accepted settings keep 1 <= min <= max and max >= cpu_count |
| ThreadPool.EventFromOp | Unity-2018.2.8/mono/metadata/threadpool.c:206-224 | accept, receive, recvfrom and readpipe give POLLIN, send, sendto and connect give POLLOUT, anything outside the op range 0 |
| ThreadPool.SocketIoFilter | Unity-2018.2.8/mono/metadata/threadpool.c:961-1002 | only operations in [AIO_OP_FIRST, AIO_OP_LAST) pass |
| ThreadPool.FilteredOpsHaveEvent | Unity-2018.2.8/mono/metadata/threadpool.c:997-999 | every operation the filter passes waits for POLLIN or POLLOUT |
| ThreadPool.LiveLength | Unity-2018.2.8/mono/metadata/threadpool.c:227-238 | the list is walked up to its first NULL entry |
| ThreadPool.GetEventsFromList | Unity-2018.2.8/mono/metadata/threadpool.c:227-238 | the loop computes the OR of the events of the live entries |
| ThreadPool.EventsOfMeaning | Unity-2018.2.8/mono/metadata/threadpool.c:227-238 | POLLIN is set iff a live entry is a read operation, POLLOUT iff one is a write operation |
| ThreadPool.AsyncResult.Finish | Unity-2018.2.8/mono/metadata/threadpool.c:1190-1229 | a second EndInvoke yields InvalidOperationException and changes nothing; the first marks endinvoke_called |
| ThreadPool.FinishTwice | Unity-2018.2.8/mono/metadata/threadpool.c:1200-1207 | calling finish twice on one result always refuses the second call |
| CoreClrSecurity.LevelFromCinfo | Unity-2018.2.8/mono/metadata/security-core-clr.c:452-462 | no custom-attribute info gives Transparent; Critical wins over SafeCritical; each level is returned exactly when its attributes say so |
| CoreClrSecurity.EnclosingChain | Unity-2018.2.8/mono/metadata/security-core-clr.c:474-493 | the walk of nested_in starts at the class itself |
| CoreClrSecurity.ClassLevelNoPlatformCheck | Unity-2018.2.8/mono/metadata/security-core-clr.c:474-493 | a non-Transparent result is the attribute level of the class or of one of its enclosing classes |
| CoreClrSecurity.ClassLevelTransparent | Unity-2018.2.8/mono/metadata/security-core-clr.c:474-493 | a class is Transparent iff neither it nor any enclosing class carries a security attribute |
| CoreClrSecurity.ClassLevelIsFirstDecorated | Unity-2018.2.8/mono/metadata/security-core-clr.c:474-493 | a non-Transparent level is that of the innermost decorated class of the chain, all classes before it being undecorated |
| CoreClrSecurity.ClassLevel | Unity-2018.2.8/mono/metadata/security-core-clr.c:501-508 | Transparent for a non-platform image outside test mode, otherwise the no-platform-check level |
| CoreClrSecurity.NestedTransparentInheritsEnclosing | Unity-2018.2.8/mono/metadata/security-core-clr.c:484-490 | a nested class with no attribute of its own takes its enclosing class's level |
| CoreClrSecurity.MethodLevel | Unity-2018.2.8/mono/metadata/security-core-clr.c:542-570 | NULL gives Transparent; a non-platform method outside test mode is Transparent; without with_class_level the level is the method's own attributes |
| CoreClrSecurity.MethodLevelWithClass | Unity-2018.2.8/mono/metadata/security-core-clr.c:566-567 | with with_class_level a method is never lower than without, and a Transparent method takes its class's level |
| CoreClrSecurity.CheckInheritance | Unity-2018.2.8/mono/metadata/security-core-clr.c:64-77 | a class with no parent passes; otherwise the result compares the class level with the parent level |
| CoreClrSecurity.InheritanceFailsIffLower | Unity-2018.2.8/mono/metadata/security-core-clr.c:64-77 | inheritance fails exactly when the class level is below the parent level under Transparent < SafeCritical < Critical |
| CoreClrSecurity.CheckOverride | Unity-2018.2.8/mono/metadata/security-core-clr.c:94-107 | an override passes iff its level is one the base method's level allows |
| CoreClrSecurity.OverrideFailsIffExactlyOneCritical | Unity-2018.2.8/mono/metadata/security-core-clr.c:94-107 | an override fails exactly when one of base and override is Critical and the other is not |
| CoreClrSecurity.CanAccessInternals | Unity-2018.2.8/mono/metadata/security-core-clr.c:422-441 | access is granted to non-platform targets and from platform code, and otherwise only when both base directories are set and equal |
| CoreClrSecurity.InternalsAccessOfPlatformNeedsSameDir | Unity-2018.2.8/mono/metadata/security-core-clr.c:422-441 | granted access to a platform image implies platform code or a shared base directory |
| CoreClrSecurity.EnsureDelegateCreation | Unity-2018.2.8/mono/metadata/security-core-clr.c:343-379 | a non-Transparent caller or a non-platform target is allowed; a Transparent caller binding to a Critical method is refused exactly when throwOnBindFailure is false and gets ArgumentException exactly when it is true; a Transparent caller binding to a non-Critical platform method gets MethodAccessException exactly when it cannot see the method |
| CoreClrSecurity.EnsureReflectionAccessMethod | Unity-2018.2.8/mono/metadata/security-core-clr.c:279-297 | non-Transparent callers and non-platform methods are allowed; a Transparent caller reaching a Critical or invisible platform method gets MethodAccessException |
| CoreClrSecurity.EnsureReflectionAccessField | Unity-2018.2.8/mono/metadata/security-core-clr.c:249-267 | the same rule for fields, with FieldAccessException |
| CoreClrSecurity.NoCallerCannotReachPlatformMethod | Unity-2018.2.8/mono/metadata/security-core-clr.c:279-297 | with no caller (level Transparent) reflection on a platform method is refused |
| CoreClrSecurity.DefaultPlatformCheck | Unity-2018.2.8/mono/metadata/security-core-clr.c:592-603 | after corlib is loaded an image is platform code iff its name is corlib's |
| CoreClrSecurity.DefaultPlatformCheckIsSuffixTest | Unity-2018.2.8/mono/metadata/security-core-clr.c:592-603 | before corlib is loaded an image is platform code iff its name ends in "mscorlib.dll" |
| Win64Unwind.Code | Unity-2018.2.8/mono/mini/exceptions-amd64.c:1412-1419 | an UNWIND_CODE slot is a 16-bit value whose CodeOffset, UnwindOp and OpInfo fields read back as the 8-, 4- and 4-bit truncations of the inputs |
| Win64Unwind.CodeFieldsDetermineSlot | Unity-2018.2.8/mono/mini/exceptions-amd64.c:1412-1419 | every 16-bit slot is rebuilt from its three fields |
| Win64Unwind.AllocCodesNeeded | Unity-2018.2.8/mono/mini/exceptions-amd64.c:1525-1533 | an allocation takes 1 to 3 slots: 1 exactly up to 0x80 bytes and 3 exactly above 0x7FFF8 |
| Win64Unwind.Slots | Unity-2018.2.8/mono/mini/exceptions-amd64.c:1466-1472 | each operation writes as many slots as it needs (1 push, 2 set-fpreg, 1-3 alloc) |
| Win64Unwind.LayoutAppend | Unity-2018.2.8/mono/mini/exceptions-amd64.c:1468-1471 | a new operation's slots go in front of the slots already used, filling UnwindCode backwards from the end |
| Win64Unwind.LayoutFront | Unity-2018.2.8/mono/mini/exceptions-amd64.c:1468-1471 | the newest operation's slots are the first used slots |
| Win64Unwind.PrologOffsetsIncrease | Unity-2018.2.8/mono/mini/exceptions-amd64.c:1477-1480 | along a prolog built by the adders the code offsets are in 1..255 and strictly increase |
| Win64Unwind.MonoUnwindInfo.constructor | Unity-2018.2.8/mono/mini/exceptions-amd64.c:1450-1455 | a zeroed record with Version 1 and no codes |
| Win64Unwind.MonoUnwindInfo.PlaceSlots | Unity-2018.2.8/mono/mini/exceptions-amd64.c:1466-1472 | CountOfCodes grows by the operation's slot count, the used tail is the new layout and the unused slots stay zero |
| Win64Unwind.MonoUnwindInfo.CommitOp | Unity-2018.2.8/mono/mini/exceptions-amd64.c:1477-1480 | after the order check SizeOfProlog becomes the operation's code offset and the operation is recorded |
| Win64Unwind.MonoUnwindInfo.AddPushNonvol | Unity-2018.2.8/mono/mini/exceptions-amd64.c:1458-1481 | one UWOP_PUSH_NONVOL slot with OpInfo = reg; TooManyCodes when the 22 slots are used; success iff the new offset exceeds SizeOfProlog, with SizeOfProlog set to it |
| Win64Unwind.MonoUnwindInfo.AddSetFpreg | Unity-2018.2.8/mono/mini/exceptions-amd64.c:1484-1511 | two slots, UWOP_SET_FPREG and FrameRegister = reg; the same capacity and order rules |
| Win64Unwind.MonoUnwindInfo.AddAllocStack | Unity-2018.2.8/mono/mini/exceptions-amd64.c:1514-1572 | sizes below 8 are refused; the small, large/0 and large/1 encodings of (size-8)/8, size/8 and the 32-bit size; the same capacity and order rules |
| Win64Unwind.WriteSlots | Unity-2018.2.8/mono/mini/exceptions-amd64.c:1541-1564 | the slots are stored at their index and no other slot changes |
| Win64Unwind.Obtain | Unity-2018.2.8/mono/mini/exceptions-amd64.c:1463-1464 | a NULL *monoui is replaced by a fresh zeroed record, otherwise the existing record is used |
| Win64Unwind.GetSize | Unity-2018.2.8/mono/mini/exceptions-amd64.c:1575-1584 | 0 for NULL, otherwise 8 plus the header plus 2 bytes per used slot |
| Win64Unwind.AlignTo8 | Unity-2018.2.8/mono/mini/exceptions-amd64.c:1620 | the least multiple of 8 not below x |
| Win64Unwind.InstalledRecordFits | Unity-2018.2.8/mono/mini/exceptions-amd64.c:1575-1584 | the record installed at ALIGN_TO(code + code_size, 8) ends within the space get_size reserved |
| Win64Unwind.InstallUnwindInfo | Unity-2018.2.8/mono/mini/exceptions-amd64.c:1610-1635 | the header and the used slots are copied to the front of the target's slots, the rest of the target is untouched, and *monoui is cleared |
| Win64Unwind.CopyRecord | Unity-2018.2.8/mono/mini/exceptions-amd64.c:1624-1632 | the target's header equals the source's and its first CountOfCodes slots are the source's used tail |
| Win64Unwind.Context.SetupResumeSighandlerCtx | Unity-2018.2.8/mono/mini/exceptions-amd64.c:1700-1709 | SP drops by 8 exactly when it is 16-aligned, IP becomes func, and the resulting SP is never 16-aligned |

## Left out

Contracts stated differently from the source:

- GcDescriptors.RunFields: `num_set << 24` (sgen-gc.c:996) is a shift of a 32-bit `int`. For num_set >= 128 it sets the sign bit, which sign-extends into the 64-bit descriptor. The model assembles the word as `size + first_set·2^16 + num_set·2^24`, always below 2^32. The run-length descriptors of the model are therefore exact only for num_set < 128.
- GcDescriptors.ComplexTable.AllocComplexDescriptor: alloc_complex_descriptor copies numbits/64+1 bitmap words (sgen-gc.c:919, 953-954). When numbits is a multiple of 64 that is one word more than the bitmap needs, so the source reads one word past the caller's bitmap. The model requires the caller's bitmap to hold that many words instead of modelling the over-read.
- GcDescriptors.ComplexTable.MakeDescrForObject: carries the same bitmap-length requires for its complex case, inherited from alloc_complex_descriptor.
- GcDescriptors.ComplexTable.MakeDescrForArray: carries the same bitmap-length requires for its complex case. It implements the corrected inline-bitmap bound `last_set < SMALL_BITMAP_SIZE`, not the `<=` of sgen-gc.c:1043; see "## Findings".
- CoreClrSecurity.EnsureDelegateCreation: with a NULL caller, the source dereferences `caller->klass` inside `mono_security_core_clr_enabled_for_method(caller)` (security-core-clr.c:354), before the level check at line 358. The model guards that test with `caller.Some?`, and CheckAccess refuses a missing caller. A NULL caller thus goes on as Transparent and gets a defined verdict where the source would crash. The early return for a caller excluded from CoreCLR is kept as a branch, but `mono_security_core_clr_enabled_for_image` always returns 1 in this source (security-core-clr.c:523-531), so that branch never decides.
- Win64Unwind.MonoUnwindInfo.AddPushNonvol: the `g_error` aborts (exceptions-amd64.c:1469, 1478) are the results TooManyCodes and WrongOrder. The process abort itself is not modelled.
- Win64Unwind.MonoUnwindInfo.AddSetFpreg: the `g_error` aborts (exceptions-amd64.c:1495, 1508) are the results TooManyCodes and WrongOrder.
- Win64Unwind.MonoUnwindInfo.AddAllocStack: the `g_error` aborts (exceptions-amd64.c:1526, 1536, 1569) are the results AllocTooSmall, TooManyCodes and WrongOrder.
- ThreadPool.TPQueue.AppendJob: `threadpool_jobs_inc` (threadpool.c:1262), which runs before the early return for an unloading domain, is not modelled. The per-domain job counter belongs to the domain-unloading handshake, which is concurrency.
- ThreadPool.PoolLimits.SetMinThreads: the `start_idle_threads` thread that an accepted call spawns (threadpool.c:1579) is not modelled. Only the new limits are.
- GcNursery.Nursery.BuildNurseryFragments: the scan that looks for half-constructed objects at the end of the nursery (sgen-gc.c:2394-2411) is not modelled.
- GcNursery.Nursery.AllocObj: where the source calls `minor_collect_or_expand_inner` and retries (sgen-gc.c:3539, 3564), the model stops with the result CollectionNeeded. A large object (`alloc_large_inner`, sgen-gc.c:3513-3515) stops with the result LargeObject. The `g_assert (*p == NULL)` of sgen-gc.c:3491 is the result NotZeroed. The `collect_before_allocs` debugging path is not modelled.
- GcNursery.Nursery.AllocDegraded: the store of the vtable into the new object (alloc_degraded, sgen-gc.c:3419) is not modelled. The sections carry no heap words, so the result names only where the object goes, and the vtable ensures of AllocObj cover the nursery paths only.
- GcSections.SectionList.AllocDegraded: does not store the vtable either, for the same reason. It places the object and moves next_data past it.
- GcSections.SectionList.AllocDegraded: alloc_degraded does not check that the object fits in the section it makes (sgen-gc.c:3411-3416). The callers pass only small objects, far below four nursery sizes. The model therefore promises `p + size <= data + n` only for an object no bigger than four nursery sizes.
- GcSections.PageAligned: rounds up by division. The source masks with `~(pagesize - 1)` (sgen-gc.c:2818-2819), which gives the same result for the power-of-two sizes that mono_pagesize returns. The model requires only a page size above 0.
- GcFreelist.ChunkSize: rounds alloc_pinned_chunk's request to FREELIST_PAGESIZE (4096) where the source uses the system `pagesize` (sgen-gc.c:3132-3134). The two agree on systems with 4096-byte pages. With larger system pages the source's chunks are larger than the model's.
- GcPinnedAlloc.PinnedAllocator.FreeInternalMem: the `g_assert` on a large block's magic (sgen-gc.c:3287) is the result ok == false. The requires forbids freeing an internal-chunk address that is not currently handed out, such as a double free. The source accepts such an address and corrupts that chunk's free list.
- GcPinning.PinObjectsFromAddresses: requires the object-size function to ignore the PINNED bit (SizeIgnoresPinned), as safe_object_get_size does through LOAD_VTABLE. Address 0 is never examined, because the search starts with a NULL `last` object. Its settlement is therefore stated only for addresses above 0.
- GcRemsets.Handle: REMSET_OBJECT and REMSET_VTYPE entries call scan_object and scan_vtype (sgen-gc.c:4815, 4827), which walk objects through their descriptors. Those scans are not part of this model. Handle only advances past such entries.

Left out of the model:

- The heap is a sequence of 64-bit words indexed by address / 8, not a map from addresses.
- `safe_object_get_size`, `mono_object_hash`, `g_spaced_primes_closest`, the vtable's rank and `get_os_memory` are parameters of the model. Fresh memory is an address argument.
- `get_internal_mem` never fails in the model. The out-of-memory path of get_os_memory is not modelled.
- Root sizes (`roots_size`) are unbounded integers.
- Tables are `seq`s of buckets rather than C arrays of entry pointers.
- Links in the disappearing-link table are 8-aligned words.
- Thread suspension, stop_world and restart_world, the GC lock, the thread-local remset and TLAB variables of other threads, and thread registration are concurrency and are not modelled. clear_tlabs clears the allocating thread's TLAB only. The per-thread passes of scan_from_remsets and clear_remsets over thread_table and freed_thread_remsets (sgen-gc.c:4893-4923) are not modelled. Those passes replay each thread's buffers newest first, while GcRemsets.HandleAll replays one log oldest first, in the order of RemsetLog.Entries; GcRemsets.RemsetLog.Reset clears a single log.
- Collection-time walks of the tables are not modelled: finalize_in_range, null_link_in_range, null_links_for_domain, finalizers_for_domain and mono_gc_finalizers_for_domain (sgen-gc.c:3709-3970). They move survivors with copy_object and queue finalizers, and the domain walks ask the runtime for each object's domain. is_critical_finalizer (sgen-gc.c:3648-3660) is a runtime class query.
- The collection driver is not modelled: scan_old_generation, scan_needed_big_objects, finish_gray_stack, scan_object_callback and scan_from_pinned_objects (sgen-gc.c:2174-2358, 3071-3084). These walk objects through scan_object, which is not part of this model.
- build_section_fragments (sgen-gc.c:2437-2469) is not modelled. It is the major-section counterpart of build_nursery_fragments, which is modelled.
- mono_gc_make_descr_for_string (sgen-gc.c:965-968) is not modelled; it returns the constant DESC_TYPE_STRING.
- The debug helpers compare_addr, print_nursery_gaps, generation_name and the get_*_hash_table selectors (sgen-gc.c:1797-1846, 2251-2278) are output or trivial and are not modelled.
- threadpool.c is not modelled outside the queue, the limits, the admission rule, the poll-event mapping and the finish check. Left out are:
  - the worker and I/O threads: async_invoke_thread, async_invoke_io_thread, start_idle_threads and start_tpthread;
  - the poll and epoll loops and socket_io_init, socket_io_add and socket_io_cleanup;
  - mono_async_invoke;
  - mono_thread_pool_add, which queues through the modelled start_thread_or_queue;
  - the job counters threadpool_jobs_inc and threadpool_jobs_dec;
  - mono_thread_pool_remove_domain_jobs, which calls the modelled clear_queue and then waits;
  - GetAvailableThreads, which reads the busy counters;
  - the hook installers.
  These are threads, I/O, semaphores and counters shared between threads.
- security-core-clr.c: several helpers are not modelled:
  - the attribute lookups security_critical_attribute and security_safe_critical_attribute; the model's class and method infos carry the attributes found;
  - the stack walks get_caller_no_reflection_related and get_reflection_caller; the caller is a parameter;
  - check_field_access and check_method_access, which ask the runtime's visibility rules; visibility is a parameter;
  - can_avoid_corlib_reflection_delegate_optimization, a name comparison against corlib types;
  - ensure_dynamic_method_resolved_object;
  - the configuration setters and mono_security_core_clr_determine_platform_image, which calls a host callback.
  mono_security_core_clr_enabled_for_image always returns 1 in this source. The model's EnabledForImage is the same constant, so the "caller excluded from CoreCLR" branches never decide.
- exceptions-amd64.c outside the unwind builder and setup_resume_sighandler_ctx is not modelled. This includes the runtime-function callback and mono_tasklets_arch_restore, which emits machine code.
- Floating point, signals and machine-code emission do not occur in the modelled code.

## Findings

| source | as written | input that shows it | evidently intended | confidence | as-written member | corrected member |
|---|---|---|---|---|---|---|
| Unity-2018.2.8/mono/metadata/threadpool.c:1326 | after compaction, clear_queue sets `next_elem = count`, the number of jobs removed | a queue [job of domain 0, job of domain 1, job of domain 1] cleared for domain 0: count is 1, so only the first survivor stays visible and the third job is lost | next_elem is the number of survivors | high, not executed | ThreadPool.TPQueue.ClearQueueAsWritten, ThreadPool.ClearQueueAsWrittenLosesJob, ThreadPool.ClearQueueAsWrittenCorrectIff | ThreadPool.TPQueue.ClearQueue |
| Unity-2018.2.8/mono/metadata/sgen-gc.c:1043 | a vector's element bitmap stays inline when `last_set <= SMALL_BITMAP_SIZE` (48), and is then shifted left by 16 | an element bitmap with bits 0 and 48 set (numbits 49, element size 400): bit 48 leaves the 64-bit word, and element word 48 is never scanned | inline only when last_set < 48 | high, not executed | GcDescriptors.ArrayDescrAsWritten, GcDescriptors.ElementBitmapAsWrittenDropsWord48 | GcDescriptors.ArrayDescr, GcDescriptors.ComplexTable.MakeDescrForArray |
| Unity-2018.2.8/mono/metadata/sgen-gc.c:1062-1063 | mono_gc_get_bitmap_for_descr reads both first_set and num_set from bits 16-23 of a run-length descriptor | one reference at word 2 (first_set 2, num_set 1) decodes as references at words 2 and 3 | num_set read from bits 24-31, where the encoder puts it | high, not executed | GcDescriptors.GetBitmapForDescrAsWritten, GcDescriptors.RunLengthBitmapAsWrittenDoubles | GcDescriptors.GetBitmapForDescr |
| Unity-2018.2.8/mono/metadata/sgen-gc.c:1861-1862 | the de-duplication loop of optimize_pin_queue reads `*cur` before testing `cur < end` | a full pin queue [a, a] (next_pin_slot == pin_queue_size == 2): the scan reads pin_queue[2], one slot past the buffer | test `cur < end` first | medium, not executed | PinQueue.SkipReadsAsWritten, PinQueue.SkipRunReadsPastEnd, PinQueue.SkipReadsAsWrittenReachEnd | PinQueue.SkipReads, PinQueue.SkipReadsInBounds |
| Unity-2018.2.8/mono/metadata/sgen-gc.c:5397-5398 | mono_gc_wbarrier_set_root returns for a slot in the nursery without storing the value, where set_field and set_arrayref store it first | a root slot in the nursery holding a value other than the one passed: after the barrier it still holds the old value | store the value, then return without logging | medium, not executed | GcRemsets.RemsetLog.SetRootAsWritten, GcRemsets.RootStoreAsWritten, GcRemsets.RootStoreAsWrittenLosesValue | GcRemsets.RemsetLog.SetRoot |
