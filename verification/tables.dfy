/**
 * The collector's three registries, all chained hash tables (sgen-gc.c):
 * the finalizable objects of each generation (keyed by the object), the
 * disappearing links of each generation (keyed by the link's address) and
 * the registered roots of each root type (keyed by the root's start).
 *
 * A table is an array of buckets, each bucket the chain of entries whose key
 * hashes to it, newest first; here the array is a sequence of chains that
 * the operations reassign.  A table starts with no buckets at all; every
 * registration first rehashes it when it holds at least twice as many
 * entries as it has buckets, so the first registration gives it its buckets.
 */
module GcTables {
  import opened GcDescriptors
  import opened GcHeap

  // ------------------------------------------------------------------ buckets

  /** One entry of a chain: the key and what the table keeps with it. */
  datatype Record<V> = Record(key: Word, value: V)

  /** `hash % size` for a table with buckets. */
  function Slot(h: nat, n: nat): (r: nat)
    requires n > 0
    ensures r < n
  {
    h % n
  }

  /** The keys on a chain. */
  ghost function Keys<V>(b: seq<Record<V>>): set<Word>
  {
    set j | 0 <= j < |b| :: b[j].key
  }

  /** No key twice on a chain. */
  ghost predicate DistinctKeys<V>(b: seq<Record<V>>)
  {
    forall i, j :: 0 <= i < j < |b| ==> b[i].key != b[j].key
  }

  /** An entry of bucket i of n agrees with m and sits where its key hashes. */
  ghost predicate Belongs<V>(e: Record<V>, hash: Word -> nat, m: map<Word, V>, n: nat, i: nat)
  {
    e.key in m && m[e.key] == e.value && n > 0 && Slot(hash(e.key), n) == i
  }

  /**
   * The buckets bs hold exactly the map m: every entry belongs to m and to
   * the bucket its key hashes to, every key of m is on its bucket, and no
   * bucket has a key twice.
   */
  ghost predicate Holds<V>(bs: seq<seq<Record<V>>>, hash: Word -> nat, m: map<Word, V>)
  {
    && (forall i, j :: 0 <= i < |bs| && 0 <= j < |bs[i]| ==> Belongs(bs[i][j], hash, m, |bs|, i))
    && (forall k :: k in m ==> |bs| > 0 && k in Keys(bs[Slot(hash(k), |bs|)]))
    && (forall i :: 0 <= i < |bs| ==> DistinctKeys(bs[i]))
  }

  /** The buckets after e is linked at the head of the chain its key hashes to. */
  function Pushed<V>(bs: seq<seq<Record<V>>>, hash: Word -> nat, e: Record<V>): (r: seq<seq<Record<V>>>)
    requires |bs| > 0
    ensures |r| == |bs|
  {
    var h := Slot(hash(e.key), |bs|);
    bs[h := [e] + bs[h]]
  }

  /** Empty buckets hold the empty map. */
  lemma HoldsEmpty<V>(bs: seq<seq<Record<V>>>, hash: Word -> nat)
    requires forall i :: 0 <= i < |bs| ==> bs[i] == []
    ensures Holds(bs, hash, map[])
  {
  }

  /** Linking a new key at the head of its chain adds it to the map. */
  lemma HoldsPush<V>(bs: seq<seq<Record<V>>>, hash: Word -> nat, m: map<Word, V>, e: Record<V>)
    requires Holds(bs, hash, m) && |bs| > 0 && e.key !in m
    ensures Holds(Pushed(bs, hash, e), hash, m[e.key := e.value])
  {
    var h := Slot(hash(e.key), |bs|);
    var r := Pushed(bs, hash, e);
    var m' := m[e.key := e.value];
    forall i, j | 0 <= i < |r| && 0 <= j < |r[i]|
      ensures Belongs(r[i][j], hash, m', |r|, i)
    {
      if i == h && j > 0 {
        assert r[i][j] == bs[i][j - 1];
      }
    }
    forall k | k in m'
      ensures k in Keys(r[Slot(hash(k), |r|)])
    {
      if k == e.key {
        assert r[h][0] == e;
      } else {
        var i := Slot(hash(k), |bs|);
        var j :| 0 <= j < |bs[i]| && bs[i][j].key == k;
        if i == h {
          assert r[i][j + 1] == bs[i][j];
        }
      }
    }
    forall i | 0 <= i < |r|
      ensures DistinctKeys(r[i])
    {
      if i == h {
        forall a, b | 0 <= a < b < |r[i]|
          ensures r[i][a].key != r[i][b].key
        {
          assert r[i][b] == bs[i][b - 1];
          if a > 0 {
            assert r[i][a] == bs[i][a - 1];
          } else {
            assert Belongs(bs[i][b - 1], hash, m, |bs|, i);
          }
        }
      }
    }
  }

  /** Unlinking entry j of the chain of key k removes k from the map. */
  lemma HoldsRemove<V>(bs: seq<seq<Record<V>>>, hash: Word -> nat, m: map<Word, V>, k: Word, j: nat)
    requires Holds(bs, hash, m) && |bs| > 0
    requires j < |bs[Slot(hash(k), |bs|)]| && bs[Slot(hash(k), |bs|)][j].key == k
    ensures var s := Slot(hash(k), |bs|);
            Holds(bs[s := bs[s][..j] + bs[s][j + 1..]], hash, m - {k})
  {
    var s := Slot(hash(k), |bs|);
    var r := bs[s := bs[s][..j] + bs[s][j + 1..]];
    forall i, j' | 0 <= i < |r| && 0 <= j' < |r[i]|
      ensures Belongs(r[i][j'], hash, m - {k}, |r|, i)
    {
      RemoveBelongs(bs, hash, m, s, j, i, j');
    }
    forall k' | k' in m - {k}
      ensures k' in Keys(r[Slot(hash(k'), |r|)])
    {
      RemoveCovers(bs, hash, m, s, j, k');
    }
    forall i | 0 <= i < |r|
      ensures DistinctKeys(r[i])
    {
      if i == s {
        RemoveDistinct(bs[s], j);
      }
    }
  }

  /** An entry left on the chains after unlinking entry j of bucket s still belongs, to m without that key. */
  lemma RemoveBelongs<V>(bs: seq<seq<Record<V>>>, hash: Word -> nat, m: map<Word, V>, s: nat, j: nat, i: nat, j': nat)
    requires Holds(bs, hash, m) && s < |bs| && j < |bs[s]|
    requires var r := bs[s := bs[s][..j] + bs[s][j + 1..]]; i < |r| && j' < |r[i]|
    ensures var r := bs[s := bs[s][..j] + bs[s][j + 1..]];
            Belongs(r[i][j'], hash, m - {bs[s][j].key}, |r|, i)
  {
    var b := bs[s];
    if i == s {
      var o := if j' < j then j' else j' + 1;
      assert (b[..j] + b[j + 1..])[j'] == b[o];
      assert b[o].key != b[j].key;
      assert Belongs(b[o], hash, m, |bs|, i);
    } else {
      assert Belongs(bs[i][j'], hash, m, |bs|, i);
    }
  }

  /** A key other than the one unlinked from bucket s is still on its chain. */
  lemma RemoveCovers<V>(bs: seq<seq<Record<V>>>, hash: Word -> nat, m: map<Word, V>, s: nat, j: nat, k': Word)
    requires Holds(bs, hash, m) && s < |bs| && j < |bs[s]| && Slot(hash(bs[s][j].key), |bs|) == s
    requires k' in m && k' != bs[s][j].key
    ensures var r := bs[s := bs[s][..j] + bs[s][j + 1..]];
            k' in Keys(r[Slot(hash(k'), |r|)])
  {
    var b := bs[s];
    var r := bs[s := b[..j] + b[j + 1..]];
    var i := Slot(hash(k'), |bs|);
    assert k' in Keys(bs[i]);
    var o :| 0 <= o < |bs[i]| && bs[i][o].key == k';
    if i == s {
      if o < j {
        assert r[i][o] == b[o];
      } else {
        assert r[i][o - 1] == b[o];
      }
    }
  }

  /** Unlinking an entry keeps a chain free of duplicate keys. */
  lemma RemoveDistinct<V>(b: seq<Record<V>>, j: nat)
    requires DistinctKeys(b) && j < |b|
    ensures DistinctKeys(b[..j] + b[j + 1..])
  {
    var r := b[..j] + b[j + 1..];
    forall a, c | 0 <= a < c < |r|
      ensures r[a].key != r[c].key
    {
      var oa := if a < j then a else a + 1;
      var oc := if c < j then c else c + 1;
      assert r[a] == b[oa] && r[c] == b[oc];
    }
  }

  /** Giving entry j of the chain of key k a new value changes that key's value. */
  lemma HoldsUpdate<V>(bs: seq<seq<Record<V>>>, hash: Word -> nat, m: map<Word, V>, k: Word, j: nat, v: V)
    requires Holds(bs, hash, m) && |bs| > 0
    requires j < |bs[Slot(hash(k), |bs|)]| && bs[Slot(hash(k), |bs|)][j].key == k
    ensures var s := Slot(hash(k), |bs|);
            Holds(bs[s := bs[s][j := Record(k, v)]], hash, m[k := v])
  {
    var s := Slot(hash(k), |bs|);
    var r := bs[s := bs[s][j := Record(k, v)]];
    forall k' | k' in m[k := v]
      ensures k' in Keys(r[Slot(hash(k'), |r|)])
    {
      var i := Slot(hash(k'), |bs|);
      var o :| 0 <= o < |bs[i]| && bs[i][o].key == k';
      assert r[i][o].key == k';
    }
    forall i | 0 <= i < |r|
      ensures DistinctKeys(r[i])
    {
      if i == s {
        assert forall a :: 0 <= a < |r[i]| ==> r[i][a].key == bs[i][a].key;
      }
    }
  }

  // ------------------------------------------------------------------ rehashing

  /** The map m with the entries of b written into it in chain order. */
  ghost function Added<V>(m: map<Word, V>, b: seq<Record<V>>): map<Word, V>
    decreases |b|
  {
    if |b| == 0 then m else Added(m, b[..|b| - 1])[b[|b| - 1].key := b[|b| - 1].value]
  }

  /** The entries of m whose key hashes to one of the first i of n buckets. */
  ghost function Below<V>(m: map<Word, V>, hash: Word -> nat, n: nat, i: nat): map<Word, V>
  {
    map k | k in m && n > 0 && Slot(hash(k), n) < i :: m[k]
  }

  /** What Added keeps and adds, for a chain without duplicate keys. */
  lemma {:induction false} AddedFacts<V>(m: map<Word, V>, b: seq<Record<V>>)
    requires DistinctKeys(b)
    ensures forall k :: k in Added(m, b) <==> k in m || k in Keys(b)
    ensures forall k :: k in m && k !in Keys(b) ==> Added(m, b)[k] == m[k]
    ensures forall j :: 0 <= j < |b| ==> b[j].key in Added(m, b) && Added(m, b)[b[j].key] == b[j].value
    decreases |b|
  {
    if |b| > 0 {
      var p := b[..|b| - 1];
      var e := b[|b| - 1];
      AddedFacts(m, p);
      assert forall j :: 0 <= j < |p| ==> p[j] == b[j];
      assert Keys(b) == Keys(p) + {e.key} by {
        forall k | k in Keys(b)
          ensures k in Keys(p) + {e.key}
        {
          var j :| 0 <= j < |b| && b[j].key == k;
          if j < |p| {
            assert p[j].key == k;
          }
        }
      }
      assert e.key !in Keys(p);
    }
  }

  /** Moving bucket i of a table that holds m adds the keys of bucket i to those below it. */
  lemma RehashStep<V>(bs: seq<seq<Record<V>>>, hash: Word -> nat, m: map<Word, V>, i: nat)
    requires Holds(bs, hash, m) && i < |bs|
    ensures Added(Below(m, hash, |bs|, i), bs[i]) == Below(m, hash, |bs|, i + 1)
  {
    var lo := Below(m, hash, |bs|, i);
    AddedFacts(lo, bs[i]);
    forall k | k in Keys(bs[i])
      ensures k in m && Slot(hash(k), |bs|) == i
    {
      var j :| 0 <= j < |bs[i]| && bs[i][j].key == k;
      assert Belongs(bs[i][j], hash, m, |bs|, i);
    }
    forall k | k in m && Slot(hash(k), |bs|) == i
      ensures k in Keys(bs[i])
    {
    }
    forall k | k in Keys(bs[i])
      ensures Added(lo, bs[i])[k] == m[k]
    {
      var j :| 0 <= j < |bs[i]| && bs[i][j].key == k;
      assert Belongs(bs[i][j], hash, m, |bs|, i);
    }
  }

  /** All buckets moved: every key is below the last bucket. */
  lemma BelowAll<V>(bs: seq<seq<Record<V>>>, hash: Word -> nat, m: map<Word, V>)
    requires Holds(bs, hash, m)
    ensures Below(m, hash, |bs|, |bs|) == m
  {
  }

  /** g_spaced_primes_closest never answers 0. */
  ghost predicate Spaced(spaced: nat -> nat)
  {
    forall n :: spaced(n) > 0
  }

  // ------------------------------------------------------------------ tables

  /**
   * A chained hash table: FinalizeEntryHashTable, DisappearingLinkHashTable,
   * or the roots_hash of one root type with its num_roots_entries.  `count`
   * is num_registered / num_links / num_roots_entries; `hash` is
   * mono_object_hash or mono_aligned_addr_hash.
   */
  class ChainTable<V(==)> {
    const hash: Word -> nat
    /** The chains, one per bucket. */
    var table: seq<seq<Record<V>>>
    var size: nat
    var count: nat
    /** What the table maps each key on its chains to. */
    ghost var contents: map<Word, V>

    ghost predicate Valid()
      reads this
    {
      |table| == size && count == |contents| && Holds(table, hash, contents)
    }

    /** A zero-initialised table: no buckets and no entries. */
    constructor (hash: Word -> nat)
      ensures Valid() && size == 0 && count == 0 && contents == map[]
    {
      this.hash := hash;
      table := [];
      size := 0;
      count := 0;
      contents := map[];
    }

    /**
     * The walk along the key's chain: the position of its entry, or -1 when
     * the key is not in the table.
     */
    method Find(k: Word) returns (j: int)
      requires Valid() && size > 0
      ensures (j >= 0) == (k in contents)
      ensures j >= 0 ==> j < |table[Slot(hash(k), size)]| && table[Slot(hash(k), size)][j] == Record(k, contents[k])
    {
      var s := Slot(hash(k), size);
      var b := table[s];
      j := 0;
      while j < |b|
        invariant 0 <= j <= |b| && forall i :: 0 <= i < j ==> b[i].key != k
      {
        if b[j].key == k {
          assert Belongs(table[s][j], hash, contents, size, s);
          return;
        }
        j := j + 1;
      }
      j := -1;
    }

    /** Unlinking the entry at position j of the key's chain (`prev->next = entry->next`), and one entry fewer. */
    method RemoveAt(k: Word, j: nat)
      requires Valid() && size > 0 && j < |table[Slot(hash(k), size)]| && table[Slot(hash(k), size)][j].key == k
      modifies this
      ensures Valid() && size == old(size)
      ensures contents == old(contents) - {k} && count == old(count) - 1
    {
      var s := Slot(hash(k), size);
      HoldsRemove(table, hash, contents, k, j);
      assert Belongs(table[s][j], hash, contents, size, s);
      table := table[s := table[s][..j] + table[s][j + 1..]];
      contents := contents - {k};
      count := count - 1;
    }

    /** A new entry at the head of its chain, and one entry more. */
    method Insert(k: Word, v: V)
      requires Valid() && size > 0 && k !in contents
      modifies this
      ensures Valid() && size == old(size)
      ensures contents == old(contents)[k := v] && count == old(count) + 1
    {
      var s := Slot(hash(k), size);
      HoldsPush(table, hash, contents, Record(k, v));
      table := table[s := [Record(k, v)] + table[s]];
      contents := contents[k := v];
      count := count + 1;
    }

    /** The entry at position j of the key's chain given a new value in place. */
    method UpdateAt(k: Word, j: nat, v: V)
      requires Valid() && size > 0 && j < |table[Slot(hash(k), size)]| && table[Slot(hash(k), size)][j].key == k
      modifies this
      ensures Valid() && size == old(size)
      ensures contents == old(contents)[k := v] && count == old(count)
    {
      var s := Slot(hash(k), size);
      HoldsUpdate(table, hash, contents, k, j, v);
      assert Belongs(table[s][j], hash, contents, size, s);
      table := table[s := table[s][j := Record(k, v)]];
      contents := contents[k := v];
    }

    /**
     * rehash_fin_table, rehash_dislink and rehash_roots: every entry moved to
     * the head of its chain in a new table of newSize buckets.
     */
    method Rehash(newSize: nat)
      requires Valid() && newSize > 0
      modifies this
      ensures Valid() && size == newSize && contents == old(contents) && count == old(count)
    {
      var newTable: seq<seq<Record<V>>> := seq(newSize, _ => []);
      HoldsEmpty(newTable, hash);
      assert Below(contents, hash, size, 0) == map[];
      var i := 0;
      while i < size
        invariant 0 <= i <= size && |newTable| == newSize && unchanged(this)
        invariant Holds(newTable, hash, Below(contents, hash, size, i))
      {
        RehashStep(table, hash, contents, i);
        newTable := MoveBucket(table[i], newTable, Below(contents, hash, size, i));
        i := i + 1;
      }
      BelowAll(table, hash, contents);
      table, size := newTable, newSize;
    }

    /**
     * The inner loop of a rehash: the entries of one old bucket, in chain
     * order, each linked at the head of its chain in the new table t.
     */
    method MoveBucket(b: seq<Record<V>>, t: seq<seq<Record<V>>>, ghost m: map<Word, V>) returns (t': seq<seq<Record<V>>>)
      requires |t| > 0 && Holds(t, hash, m)
      requires DistinctKeys(b) && forall j :: 0 <= j < |b| ==> b[j].key !in m
      ensures |t'| == |t| && Holds(t', hash, Added(m, b))
    {
      t' := t;
      var j := 0;
      while j < |b|
        invariant 0 <= j <= |b| && |t'| == |t| && Holds(t', hash, Added(m, b[..j]))
      {
        var e := b[j];
        assert e.key !in Added(m, b[..j]) by {
          AddedFacts(m, b[..j]);
        }
        HoldsPush(t', hash, Added(m, b[..j]), e);
        var h := Slot(hash(e.key), |t'|);
        t' := t'[h := [e] + t'[h]];
        assert b[..j + 1][..j] == b[..j];
        j := j + 1;
      }
      assert b[..j] == b;
    }

    /**
     * A walk along the key's chain that gives the entry it finds a new
     * value in place (find_root and the update in
     * mono_gc_register_root_inner); `prev` is the value it had.
     */
    method Refresh(k: Word, v: V) returns (prev: Option<V>)
      requires Valid() && size > 0
      modifies this
      ensures Valid() && size == old(size) && count == old(count)
      ensures prev == if k in old(contents) then Some(old(contents)[k]) else None
      ensures contents == if k in old(contents) then old(contents)[k := v] else old(contents)
    {
      var j := Find(k);
      prev := None;
      if j >= 0 {
        prev := Some(table[Slot(hash(k), size)][j].value);
        UpdateAt(k, j, v);
      }
    }

    /**
     * A walk along the key's chain that unlinks the entry it finds
     * (mono_gc_deregister_root); `prev` is the value it had.
     */
    method Remove(k: Word) returns (prev: Option<V>)
      requires Valid() && size > 0
      modifies this
      ensures Valid() && size == old(size)
      ensures prev == if k in old(contents) then Some(old(contents)[k]) else None
      ensures contents == old(contents) - {k}
      ensures count == if k in old(contents) then old(count) - 1 else old(count)
    {
      var j := Find(k);
      prev := None;
      if j >= 0 {
        prev := Some(table[Slot(hash(k), size)][j].value);
        RemoveAt(k, j);
      } else {
        assert contents - {k} == contents;
      }
    }

    /**
     * rehash_fin_table_if_necessary, and the same test in
     * add_or_remove_disappearing_link and mono_gc_register_root_inner: a
     * table holding at least twice as many entries as it has buckets gets
     * g_spaced_primes_closest(count) buckets.  Either way it has buckets
     * afterwards.
     */
    method RehashIfNecessary(spaced: nat -> nat)
      requires Valid() && Spaced(spaced)
      modifies this
      ensures Valid() && contents == old(contents) && count == old(count) && size > 0
      ensures old(count) >= 2 * old(size) ==> size == spaced(old(count))
      ensures old(count) < 2 * old(size) ==> size == old(size) && table == old(table)
    {
      if count >= size * 2 {
        Rehash(spaced(count));
      }
    }
  }

  // ------------------------------------------------------------------ finalizers

  /**
   * register_for_finalization on one generation's table: nothing at all
   * while no_finalize is set; otherwise, after the rehash test, a request
   * without a finalizer (user_data NULL) removes the object if it is there,
   * and a request with one (mono_gc_run_finalize) adds the object unless it
   * is there already.
   */
  method RegisterForFinalization(t: ChainTable<()>, obj: Word, userData: bool, noFinalize: bool, spaced: nat -> nat)
    requires t.Valid() && Spaced(spaced)
    modifies t
    ensures t.Valid()
    ensures noFinalize ==> t.contents == old(t.contents) && t.size == old(t.size)
    ensures !noFinalize ==> t.size > 0
    ensures !noFinalize && userData ==> t.contents == old(t.contents)[obj := ()]
    ensures !noFinalize && !userData ==> t.contents == old(t.contents) - {obj}
  {
    if noFinalize {
      return;
    }
    t.RehashIfNecessary(spaced);
    var j := t.Find(obj);
    if j >= 0 {
      if !userData {
        t.RemoveAt(obj, j);
      } else {
        assert t.contents[obj] == ();
        assert t.contents[obj := ()] == t.contents;
      }
      return;
    }
    if !userData {
      return;
    }
    t.Insert(obj, ());
  }

  /**
   * mono_gc_register_for_finalization: the minor table for an object in the
   * nursery, the major table otherwise.  The other table is left alone.
   */
  method RegisterFinalizer(minor: ChainTable<()>, major: ChainTable<()>, obj: Word, userData: bool, noFinalize: bool,
                           nurseryStart: nat, spaced: nat -> nat)
    requires minor.Valid() && major.Valid() && minor != major && Spaced(spaced)
    modifies minor, major
    ensures minor.Valid() && major.Valid()
    ensures var t := if PtrInNursery(obj, nurseryStart) then minor else major;
            var other := if PtrInNursery(obj, nurseryStart) then major else minor;
            && other.contents == old(other.contents) && other.table == old(other.table) && other.size == old(other.size)
            && (!noFinalize && userData ==> t.contents == old(t.contents)[obj := ()])
            && (!noFinalize && !userData ==> t.contents == old(t.contents) - {obj})
            && (noFinalize ==> t.contents == old(t.contents))
  {
    if PtrInNursery(obj, nurseryStart) {
      RegisterForFinalization(minor, obj, userData, noFinalize, spaced);
    } else {
      RegisterForFinalization(major, obj, userData, noFinalize, spaced);
    }
  }

  // ------------------------------------------------------------------ disappearing links

  /** `~w` on a 64-bit word. */
  function Not(w: Word): (r: Word)
    ensures w + r == TwoTo64 - 1
  {
    TwoTo64 - 1 - w
  }

  /** HIDE_POINTER(p, t): the address with its lowest bit set when tracking, every bit inverted. */
  function Hide(p: Word, track: bool): Word
  {
    Not(if track && p % 2 == 0 then p + 1 else p)
  }

  /** REVEAL_POINTER(h): the stored word inverted back, its two low bits cleared. */
  function Reveal(h: Word): Word
  {
    Not(h) - Not(h) % 4
  }

  /** DISLINK_TRACK: the lowest bit of the stored word inverted back. */
  function Track(h: Word): nat
  {
    Not(h) % 2
  }

  /** A hidden 4-aligned pointer reveals itself and its tracking flag again. */
  lemma HideReveals(p: Word, track: bool)
    requires p % 4 == 0
    ensures Reveal(Hide(p, track)) == p
    ensures Track(Hide(p, track)) == if track then 1 else 0
  {
    var d := if track then 1 else 0;
    assert Not(Hide(p, track)) == p + d;
    LowBits(p, d);
  }

  /** The two low bits of p + d, for 4-aligned p and d < 2. */
  lemma LowBits(p: nat, d: nat)
    requires p % 4 == 0 && d < 2
    ensures (p + d) % 4 == d && (p + d) % 2 == d
  {
    var q := p / 4;
    assert p + d == 4 * q + d;
    assert p + d == 2 * (2 * q) + d;
  }

  /**
   * add_or_remove_disappearing_link on one generation's table, keyed by the
   * link's address.  After the rehash test: a NULL obj unlinks the link's
   * entry and clears *link, but only when the entry is there; any other obj
   * is stored hidden in *link, and the link is added unless it is there
   * already.
   */
  method AddOrRemoveDisappearingLink(t: ChainTable<()>, obj: Word, link: Word, track: bool, mem: Heap, spaced: nat -> nat)
    returns (mem': Heap)
    requires t.Valid() && Spaced(spaced) && Mapped(mem, link, 1)
    modifies t
    ensures t.Valid() && t.size > 0
    ensures obj == 0 ==> t.contents == old(t.contents) - {link}
    ensures |mem'| == |mem|
    ensures obj == 0 ==> mem' == if link in old(t.contents) then mem[link / 8 := 0] else mem
    ensures obj != 0 ==> t.contents == old(t.contents)[link := ()]
    ensures obj != 0 ==> mem' == mem[link / 8 := Hide(obj, track)]
  {
    t.RehashIfNecessary(spaced);
    var j := t.Find(link);
    if j >= 0 {
      if obj == 0 {
        t.RemoveAt(link, j);
        mem' := mem[link / 8 := 0];
      } else {
        assert t.contents[link] == ();
        assert t.contents[link := ()] == t.contents;
        mem' := mem[link / 8 := Hide(obj, track)];
      }
      return;
    }
    if obj == 0 {
      mem' := mem;
      return;
    }
    mem' := mem[link / 8 := Hide(obj, track)];
    t.Insert(link, ());
  }

  /**
   * The first half of mono_gc_register_disappearing_link: the link removed
   * from both generations' tables, *link cleared when either held it.
   */
  method UnregisterLink(minor: ChainTable<()>, major: ChainTable<()>, link: Word, mem: Heap, spaced: nat -> nat)
    returns (mem': Heap)
    requires minor.Valid() && major.Valid() && minor != major
    requires Spaced(spaced) && Mapped(mem, link, 1)
    modifies minor, major
    ensures minor.Valid() && major.Valid()
    ensures minor.contents == old(minor.contents) - {link} && major.contents == old(major.contents) - {link}
    ensures |mem'| == |mem|
    ensures mem' == if link in old(minor.contents) || link in old(major.contents) then mem[link / 8 := 0] else mem
  {
    var m1 := AddOrRemoveDisappearingLink(minor, 0, link, false, mem, spaced);
    mem' := AddOrRemoveDisappearingLink(major, 0, link, false, m1, spaced);
    Overwrite(mem, link / 8, m1, 0);
  }

  /**
   * mono_gc_register_disappearing_link: the link is first removed from both
   * generations' tables, then, for a non-NULL obj, added to the minor table
   * when obj is in the nursery and to the major table otherwise.  A
   * 4-aligned obj can be read back from *link together with its tracking
   * flag.
   */
  method RegisterDisappearingLink(minor: ChainTable<()>, major: ChainTable<()>, obj: Word, link: Word, track: bool,
                                  mem: Heap, nurseryStart: nat, spaced: nat -> nat)
    returns (mem': Heap)
    requires minor.Valid() && major.Valid() && minor != major
    requires Spaced(spaced) && Mapped(mem, link, 1)
    modifies minor, major
    ensures minor.Valid() && major.Valid()
    ensures var young := obj != 0 && PtrInNursery(obj, nurseryStart);
            var old_ := obj != 0 && !PtrInNursery(obj, nurseryStart);
            && minor.contents == (if young then old(minor.contents)[link := ()] else old(minor.contents) - {link})
            && major.contents == (if old_ then old(major.contents)[link := ()] else old(major.contents) - {link})
    ensures |mem'| == |mem|
    ensures obj == 0 ==> mem' == if link in old(minor.contents) || link in old(major.contents) then mem[link / 8 := 0] else mem
    ensures obj != 0 ==> mem' == mem[link / 8 := Hide(obj, track)]
    ensures obj != 0 && obj % 4 == 0 ==> Reveal(mem'[link / 8]) == obj && Track(mem'[link / 8]) == if track then 1 else 0
  {
    ghost var young0, old0 := minor.contents, major.contents;
    mem' := UnregisterLink(minor, major, link, mem, spaced);
    if obj != 0 {
      var h := Hide(obj, track);
      Overwrite(mem, link / 8, mem', h);
      if PtrInNursery(obj, nurseryStart) {
        mem' := AddOrRemoveDisappearingLink(minor, obj, link, track, mem', spaced);
        ReAdd(young0, link, ());
      } else {
        mem' := AddOrRemoveDisappearingLink(major, obj, link, track, mem', spaced);
        ReAdd(old0, link, ());
      }
      StoredWord(mem, link / 8, h);
      if obj % 4 == 0 {
        HideReveals(obj, track);
      }
    }
  }

  /** The word just stored is the word read back. */
  lemma StoredWord(mem: Heap, i: nat, w: Word)
    requires i < |mem|
    ensures mem[i := w][i] == w
  {
  }

  /** Storing into a word that was stored into or left alone is storing into it once. */
  lemma Overwrite(mem: Heap, i: nat, mid: Heap, w: Word)
    requires i < |mem| && (mid == mem[i := 0] || mid == mem)
    ensures mid[i := w] == mem[i := w]
  {
  }

  /** Removing a key and adding it again is adding it. */
  lemma ReAdd<V>(m: map<Word, V>, k: Word, v: V)
    ensures (m - {k})[k := v] == m[k := v]
  {
    assert ((m - {k})[k := v]).Keys == m[k := v].Keys;
  }

  // ------------------------------------------------------------------ roots

  /** A RootRecord without its start (the key) and chain link: end_root and root_desc. */
  datatype RootInfo = RootInfo(endRoot: nat, desc: Word)

  /** ROOT_TYPE_NORMAL, ROOT_TYPE_PINNED and ROOT_TYPE_WBARRIER. */
  datatype RootType = Normal | Pinned | WBarrier

  /**
   * The registered roots: roots_hash, roots_hash_size and num_roots_entries
   * of each root type, and roots_size, the number of bytes they cover.  A
   * start address is registered under at most one root type.
   */
  class RootRegistry {
    const normal: ChainTable<RootInfo>
    const pinned: ChainTable<RootInfo>
    const wbarrier: ChainTable<RootInfo>
    var rootsSize: int

    function TableOf(rt: RootType): ChainTable<RootInfo>
    {
      match rt
      case Normal => normal
      case Pinned => pinned
      case WBarrier => wbarrier
    }

    ghost predicate Valid()
      reads this, normal, pinned, wbarrier
    {
      && normal.Valid() && pinned.Valid() && wbarrier.Valid()
      && normal != pinned && normal != wbarrier && pinned != wbarrier
    }

    /** No roots yet, each root type's table without buckets. */
    constructor (hash: Word -> nat)
      ensures Valid() && rootsSize == 0
      ensures normal.contents == map[] && pinned.contents == map[] && wbarrier.contents == map[]
      ensures normal.size == 0 && pinned.size == 0 && wbarrier.size == 0
    {
      normal := new ChainTable(hash);
      pinned := new ChainTable(hash);
      wbarrier := new ChainTable(hash);
      rootsSize := 0;
    }

    /** The first loop of mono_gc_register_root_inner: each root type's table rehashed if necessary. */
    method RehashAll(spaced: nat -> nat)
      requires Valid() && Spaced(spaced)
      modifies normal, pinned, wbarrier
      ensures Valid() && normal.size > 0 && pinned.size > 0 && wbarrier.size > 0
      ensures normal.contents == old(normal.contents) && pinned.contents == old(pinned.contents)
      ensures wbarrier.contents == old(wbarrier.contents)
    {
      normal.RehashIfNecessary(spaced);
      pinned.RehashIfNecessary(spaced);
      wbarrier.RehashIfNecessary(spaced);
    }

    /**
     * The second loop of mono_gc_register_root_inner: the first table, in
     * root type order, with a record for start gives it the new record.
     */
    method RefreshFirst(start: Word, info: RootInfo) returns (prev: Option<RootInfo>)
      requires Valid() && normal.size > 0 && pinned.size > 0 && wbarrier.size > 0
      modifies normal, pinned, wbarrier
      ensures Valid() && normal.size > 0 && pinned.size > 0 && wbarrier.size > 0
      ensures prev == FirstRecord(old(normal.contents), old(pinned.contents), old(wbarrier.contents), start)
      ensures normal.contents == if start in old(normal.contents) then old(normal.contents)[start := info] else old(normal.contents)
      ensures pinned.contents == if start !in old(normal.contents) && start in old(pinned.contents)
                                 then old(pinned.contents)[start := info] else old(pinned.contents)
      ensures wbarrier.contents == if start !in old(normal.contents) && start !in old(pinned.contents) && start in old(wbarrier.contents)
                                   then old(wbarrier.contents)[start := info] else old(wbarrier.contents)
    {
      var p1 := normal.Refresh(start, info);
      var p2 := RefreshUnless(pinned, p1.Some?, start, info);
      var p3 := RefreshUnless(wbarrier, p1.Some? || p2.Some?, start, info);
      prev := if p1.Some? then p1 else if p2.Some? then p2 else p3;
    }

    /**
     * mono_gc_register_root_inner on the tables: every table is rehashed if
     * necessary; a start already registered under some root type keeps
     * that type and gets the new record; a new start is added under
     * rootType.  `grown` is what roots_size grows by: the new size less the
     * size of the record replaced, if any.
     */
    method RegisterInTables(start: Word, size: nat, descr: Word, rootType: RootType, spaced: nat -> nat)
      returns (grown: int)
      requires Valid() && Spaced(spaced)
      modifies normal, pinned, wbarrier
      ensures Valid() && normal.size > 0 && pinned.size > 0 && wbarrier.size > 0
      ensures var target := Target(old(normal.contents), old(pinned.contents), old(wbarrier.contents), start, rootType);
              var info := RootInfo(start + size, descr);
              && normal.contents == (if target == Normal then old(normal.contents)[start := info] else old(normal.contents))
              && pinned.contents == (if target == Pinned then old(pinned.contents)[start := info] else old(pinned.contents))
              && wbarrier.contents == (if target == WBarrier then old(wbarrier.contents)[start := info] else old(wbarrier.contents))
      ensures var r := FirstRecord(old(normal.contents), old(pinned.contents), old(wbarrier.contents), start);
              grown == size - (if r.Some? then r.value.endRoot - start else 0)
    {
      var info := RootInfo(start + size, descr);
      RehashAll(spaced);
      var prev := RefreshFirst(start, info);
      if prev.Some? {
        return size - (prev.value.endRoot - start);
      }
      InsertNew(start, info, rootType);
      grown := size;
    }

    /** The end of mono_gc_register_root_inner for a new start: a record at the head of its chain in rootType's table. */
    method InsertNew(start: Word, info: RootInfo, rootType: RootType)
      requires Valid() && normal.size > 0 && pinned.size > 0 && wbarrier.size > 0
      requires start !in normal.contents && start !in pinned.contents && start !in wbarrier.contents
      modifies normal, pinned, wbarrier
      ensures Valid() && normal.size > 0 && pinned.size > 0 && wbarrier.size > 0
      ensures normal.contents == if rootType == Normal then old(normal.contents)[start := info] else old(normal.contents)
      ensures pinned.contents == if rootType == Pinned then old(pinned.contents)[start := info] else old(pinned.contents)
      ensures wbarrier.contents == if rootType == WBarrier then old(wbarrier.contents)[start := info] else old(wbarrier.contents)
    {
      if rootType == Normal {
        normal.Insert(start, info);
      } else if rootType == Pinned {
        pinned.Insert(start, info);
      } else {
        wbarrier.Insert(start, info);
      }
    }

    /**
     * mono_gc_register_root_inner.  The source asserts that a
     * re-registration does not turn a root with a descriptor into one
     * without, or back.
     */
    method RegisterRootInner(start: Word, size: nat, descr: Word, rootType: RootType, spaced: nat -> nat)
      requires Valid() && Spaced(spaced)
      requires var r := FirstRecord(normal.contents, pinned.contents, wbarrier.contents, start);
               r.Some? ==> (r.value.desc == 0) == (descr == 0)
      modifies this, normal, pinned, wbarrier
      ensures Valid() && normal.size > 0 && pinned.size > 0 && wbarrier.size > 0
      ensures var target := Target(old(normal.contents), old(pinned.contents), old(wbarrier.contents), start, rootType);
              var info := RootInfo(start + size, descr);
              && normal.contents == (if target == Normal then old(normal.contents)[start := info] else old(normal.contents))
              && pinned.contents == (if target == Pinned then old(pinned.contents)[start := info] else old(pinned.contents))
              && wbarrier.contents == (if target == WBarrier then old(wbarrier.contents)[start := info] else old(wbarrier.contents))
      ensures var r := FirstRecord(old(normal.contents), old(pinned.contents), old(wbarrier.contents), start);
              rootsSize == old(rootsSize) + size - (if r.Some? then r.value.endRoot - start else 0)
    {
      var grown := RegisterInTables(start, size, descr, rootType, spaced);
      rootsSize := rootsSize + grown;
    }

    /** mono_gc_register_root: a root with a descriptor is a normal root, one without is pinned. */
    method RegisterRoot(start: Word, size: nat, descr: Word, spaced: nat -> nat)
      requires Valid() && Spaced(spaced)
      requires var r := FirstRecord(normal.contents, pinned.contents, wbarrier.contents, start);
               r.Some? ==> (r.value.desc == 0) == (descr == 0)
      modifies this, normal, pinned, wbarrier
      ensures Valid()
      ensures FirstType(normal.contents, pinned.contents, wbarrier.contents, start) ==
              Some(Target(old(normal.contents), old(pinned.contents), old(wbarrier.contents), start, if descr != 0 then Normal else Pinned))
      ensures FirstRecord(normal.contents, pinned.contents, wbarrier.contents, start) == Some(RootInfo(start + size, descr))
    {
      ghost var n, p, w := normal.contents, pinned.contents, wbarrier.contents;
      RegisterRootInner(start, size, descr, if descr != 0 then Normal else Pinned, spaced);
      RegisterFinds(n, p, w, start, RootInfo(start + size, descr), if descr != 0 then Normal else Pinned);
    }

    /** mono_gc_register_root_wbarrier: a new root is a write-barrier root. */
    method RegisterRootWbarrier(start: Word, size: nat, descr: Word, spaced: nat -> nat)
      requires Valid() && Spaced(spaced)
      requires var r := FirstRecord(normal.contents, pinned.contents, wbarrier.contents, start);
               r.Some? ==> (r.value.desc == 0) == (descr == 0)
      modifies this, normal, pinned, wbarrier
      ensures Valid()
      ensures FirstType(normal.contents, pinned.contents, wbarrier.contents, start) ==
              Some(Target(old(normal.contents), old(pinned.contents), old(wbarrier.contents), start, WBarrier))
      ensures FirstRecord(normal.contents, pinned.contents, wbarrier.contents, start) == Some(RootInfo(start + size, descr))
    {
      ghost var n, p, w := normal.contents, pinned.contents, wbarrier.contents;
      RegisterRootInner(start, size, descr, WBarrier, spaced);
      RegisterFinds(n, p, w, start, RootInfo(start + size, descr), WBarrier);
    }

    /**
     * The loop of mono_gc_deregister_root: the record starting at addr is
     * unlinked from every table that holds it; `freed` is the size of the
     * records unlinked.  The source divides by each table's size, so every
     * table must have buckets.
     */
    method DeregisterFromTables(addr: Word) returns (freed: int)
      requires Valid() && normal.size > 0 && pinned.size > 0 && wbarrier.size > 0
      modifies normal, pinned, wbarrier
      ensures Valid() && normal.size > 0 && pinned.size > 0 && wbarrier.size > 0
      ensures normal.contents == old(normal.contents) - {addr}
      ensures pinned.contents == old(pinned.contents) - {addr}
      ensures wbarrier.contents == old(wbarrier.contents) - {addr}
      ensures freed == Freed(old(normal.contents), addr) + Freed(old(pinned.contents), addr) + Freed(old(wbarrier.contents), addr)
    {
      freed := 0;
      var prev := normal.Remove(addr);
      if prev.Some? {
        freed := freed + (prev.value.endRoot - addr);
      }
      prev := pinned.Remove(addr);
      if prev.Some? {
        freed := freed + (prev.value.endRoot - addr);
      }
      prev := wbarrier.Remove(addr);
      if prev.Some? {
        freed := freed + (prev.value.endRoot - addr);
      }
    }

    /** mono_gc_deregister_root: roots_size loses the size of every record unlinked. */
    method DeregisterRoot(addr: Word)
      requires Valid() && normal.size > 0 && pinned.size > 0 && wbarrier.size > 0
      modifies this, normal, pinned, wbarrier
      ensures Valid() && normal.size > 0 && pinned.size > 0 && wbarrier.size > 0
      ensures normal.contents == old(normal.contents) - {addr}
      ensures pinned.contents == old(pinned.contents) - {addr}
      ensures wbarrier.contents == old(wbarrier.contents) - {addr}
      ensures rootsSize == old(rootsSize) - Freed(old(normal.contents), addr) - Freed(old(pinned.contents), addr)
                                          - Freed(old(wbarrier.contents), addr)
    {
      var freed := DeregisterFromTables(addr);
      rootsSize := rootsSize - freed;
    }
  }

  /** The first of the three maps, in root type order, that has key k. */
  function FirstType(a: map<Word, RootInfo>, b: map<Word, RootInfo>, c: map<Word, RootInfo>, k: Word): Option<RootType>
  {
    if k in a then Some(Normal) else if k in b then Some(Pinned) else if k in c then Some(WBarrier) else None
  }

  /** The value of key k in the first of the three maps that has it. */
  function FirstRecord(a: map<Word, RootInfo>, b: map<Word, RootInfo>, c: map<Word, RootInfo>, k: Word): Option<RootInfo>
  {
    if k in a then Some(a[k]) else if k in b then Some(b[k]) else if k in c then Some(c[k]) else None
  }

  /** The root type whose table a registration of start updates: the first that has it, else rootType. */
  function Target(a: map<Word, RootInfo>, b: map<Word, RootInfo>, c: map<Word, RootInfo>, start: Word, rootType: RootType): RootType
  {
    if start in a then Normal else if start in b then Pinned else if start in c then WBarrier else rootType
  }

  /**
   * After a registration the start is found under the root type it had,
   * or under rootType when it had none, with the new record.
   */
  lemma RegisterFinds(a: map<Word, RootInfo>, b: map<Word, RootInfo>, c: map<Word, RootInfo>,
                      start: Word, info: RootInfo, rootType: RootType)
    ensures var target := Target(a, b, c, start, rootType);
            var a' := if target == Normal then a[start := info] else a;
            var b' := if target == Pinned then b[start := info] else b;
            var c' := if target == WBarrier then c[start := info] else c;
            && FirstType(a', b', c', start) == Some(target)
            && FirstRecord(a', b', c', start) == Some(info)
  {
  }

  /** One step of the second loop of mono_gc_register_root_inner: a table searched only while no earlier one matched. */
  method RefreshUnless(t: ChainTable<RootInfo>, found: bool, start: Word, info: RootInfo) returns (prev: Option<RootInfo>)
    requires t.Valid() && t.size > 0
    modifies t
    ensures t.Valid() && t.size == old(t.size)
    ensures prev == if !found && start in old(t.contents) then Some(old(t.contents)[start]) else None
    ensures t.contents == if !found && start in old(t.contents) then old(t.contents)[start := info] else old(t.contents)
  {
    prev := None;
    if !found {
      prev := t.Refresh(start, info);
    }
  }

  /** The bytes a record for addr in m covers, or nothing when there is none. */
  function Freed(m: map<Word, RootInfo>, addr: Word): int
  {
    if addr in m then m[addr].endRoot - addr else 0
  }

  /** No key in two of the three maps. */
  ghost predicate Apart(a: map<Word, RootInfo>, b: map<Word, RootInfo>, c: map<Word, RootInfo>)
  {
    a.Keys !! b.Keys && a.Keys !! c.Keys && b.Keys !! c.Keys
  }

  /**
   * The root tables after mono_gc_register_root_inner, as its contract
   * describes them, still register each start under at most one root type.
   */
  lemma RegisterKeepsApart(a: map<Word, RootInfo>, b: map<Word, RootInfo>, c: map<Word, RootInfo>,
                           start: Word, info: RootInfo, rootType: RootType)
    requires Apart(a, b, c)
    ensures var target := Target(a, b, c, start, rootType);
            Apart(if target == Normal then a[start := info] else a,
                  if target == Pinned then b[start := info] else b,
                  if target == WBarrier then c[start := info] else c)
  {
  }

  /** The root tables after mono_gc_deregister_root still register each start under at most one root type. */
  lemma DeregisterKeepsApart(a: map<Word, RootInfo>, b: map<Word, RootInfo>, c: map<Word, RootInfo>, addr: Word)
    requires Apart(a, b, c)
    ensures Apart(a - {addr}, b - {addr}, c - {addr})
  {
  }

  /** Under the invariant, deregistering frees the bytes of the one record find_root finds. */
  lemma FreedOnce(a: map<Word, RootInfo>, b: map<Word, RootInfo>, c: map<Word, RootInfo>, addr: Word)
    requires Apart(a, b, c)
    ensures Freed(a, addr) + Freed(b, addr) + Freed(c, addr) ==
            if addr in a then Freed(a, addr) else if addr in b then Freed(b, addr) else Freed(c, addr)
  {
  }
}
