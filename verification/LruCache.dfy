/**
 * One shard of the cache (util/cache.cc, LRUCache): a list of entries in order of use, a hash table of the
 * same entries, reference counts and charges.
 */
module LruCache {
  import opened Basics
  import opened Coding
  import opened HandleTable

  datatype Entry = Entry(handle: Handle, value: int, charge: nat, refs: nat)

  type Entries = map<nat, Entry>

  // ---------------------------------------------------------------------------------------
  // Charges

  function ChargeOf(entries: Entries, id: nat): (c: nat) {
    if id in entries then entries[id].charge else 0
  }

  /** The charges of all live entries with numbers below n. */
  function Total(entries: Entries, n: nat): (c: nat) {
    if n == 0 then 0 else Total(entries, n - 1) + ChargeOf(entries, n - 1)
  }

  lemma {:induction false} TotalChange(entries: Entries, entries': Entries, n: nat, id: nat)
    requires forall i :: i != id ==> ChargeOf(entries', i) == ChargeOf(entries, i)
    ensures Total(entries', n) == Total(entries, n) + if id < n then ChargeOf(entries', id) - ChargeOf(entries, id) else 0
  {
    if n > 0 {
      TotalChange(entries, entries', n - 1, id);
    }
  }

  // ---------------------------------------------------------------------------------------
  // The invariant

  function Open(handles: map<nat, nat>, id: nat): (n: nat) {
    if id in handles then handles[id] else 0
  }

  predicate Distinct(ids: seq<nat>) {
    forall i, j :: 0 <= i < j < |ids| ==> ids[i] != ids[j]
  }

  /** The list and the table hold the same entries. */
  ghost predicate Listed(entries: Entries, lru: seq<nat>, contents: set<Handle>) {
    && Distinct(lru) && (forall id :: id in lru ==> id in entries)
    && (forall id :: id in entries ==> entries[id].handle.id == id)
    && (forall h :: h in contents <==> h.id in lru && h.id in entries && h == entries[h.id].handle)
  }

  /** References are one for membership in the cache, or for a membership just given up, and one per open handle. */
  ghost predicate Counted(entries: Entries, lru: seq<nat>, extra: set<nat>, handles: map<nat, nat>) {
    && (forall id :: id in entries ==> entries[id].refs == (if id in lru || id in extra then 1 else 0) + Open(handles, id) && entries[id].refs > 0)
    && (forall id :: id in handles && handles[id] > 0 ==> id in entries)
  }

  /** Every entry ever made is live, or its deleter has run, once. */
  ghost predicate Fates(entries: Entries, deleted: seq<nat>, nextId: nat) {
    && (forall id :: id in entries ==> id < nextId) && Distinct(deleted)
    && (forall id :: id in deleted ==> id < nextId && id !in entries)
    && (forall id :: 0 <= id < nextId ==> id in entries || id in deleted)
  }

  ghost predicate Consistent(entries: Entries, lru: seq<nat>, extra: set<nat>, contents: set<Handle>, usage: nat, deleted: seq<nat>,
                             nextId: nat, handles: map<nat, nat>) {
    && Listed(entries, lru, contents) && Counted(entries, lru, extra, handles) && Fates(entries, deleted, nextId)
    && usage == Total(entries, nextId)
  }

  // ---------------------------------------------------------------------------------------
  // Giving up a reference

  function Unreffed(entries: Entries, id: nat): (entries': Entries)
    requires id in entries
  {
    if entries[id].refs <= 1 then entries - {id} else entries[id := entries[id].(refs := entries[id].refs - 1)]
  }

  lemma UnrefFates(entries: Entries, deleted: seq<nat>, nextId: nat, id: nat)
    requires Fates(entries, deleted, nextId) && id in entries
    ensures Fates(Unreffed(entries, id), if entries[id].refs <= 1 then deleted + [id] else deleted, nextId)
  {
  }

  lemma UnrefTotal(entries: Entries, nextId: nat, id: nat)
    requires id in entries && id < nextId
    ensures Total(Unreffed(entries, id), nextId) == Total(entries, nextId) - if entries[id].refs <= 1 then entries[id].charge else 0
  {
    TotalChange(entries, Unreffed(entries, id), nextId, id);
  }

  /** A reference of the cache that has left the list is given up. */
  lemma UnrefExtra(entries: Entries, lru: seq<nat>, extra: set<nat>, contents: set<Handle>, usage: nat, deleted: seq<nat>, nextId: nat,
                   handles: map<nat, nat>, id: nat)
    requires Consistent(entries, lru, extra, contents, usage, deleted, nextId, handles) && id in entries && id in extra && id !in lru
    ensures var gone := entries[id].refs <= 1;
            && usage >= (if gone then entries[id].charge else 0)
            && Consistent(Unreffed(entries, id), lru, extra - {id}, contents, usage - (if gone then entries[id].charge else 0),
                          if gone then deleted + [id] else deleted, nextId, handles)
  {
    hide Fates, Total;
    UnrefFates(entries, deleted, nextId, id);
    assert id < nextId by { FatesLive(entries, deleted, nextId); }
    UnrefTotal(entries, nextId, id);
  }

  lemma FatesLive(entries: Entries, deleted: seq<nat>, nextId: nat)
    requires Fates(entries, deleted, nextId)
    ensures forall id :: id in entries ==> id < nextId
  {
  }

  /** A handle is released. */
  lemma UnrefHandle(entries: Entries, lru: seq<nat>, contents: set<Handle>, usage: nat, deleted: seq<nat>, nextId: nat,
                    handles: map<nat, nat>, id: nat)
    requires Consistent(entries, lru, {}, contents, usage, deleted, nextId, handles) && Open(handles, id) > 0
    ensures id in entries
    ensures var gone := entries[id].refs <= 1;
            && usage >= (if gone then entries[id].charge else 0)
            && Consistent(Unreffed(entries, id), lru, {}, contents, usage - (if gone then entries[id].charge else 0),
                          if gone then deleted + [id] else deleted, nextId, handles[id := handles[id] - 1])
  {
    hide Fates, Total;
    UnrefFates(entries, deleted, nextId, id);
    FatesLive(entries, deleted, nextId);
    UnrefTotal(entries, nextId, id);
  }

  // ---------------------------------------------------------------------------------------
  // The list

  function Without(ids: seq<nat>, id: nat): (r: seq<nat>) {
    if |ids| == 0 then [] else if ids[0] == id then ids[1..] else [ids[0]] + Without(ids[1..], id)
  }

  lemma {:induction false} WithoutHas(ids: seq<nat>, id: nat)
    requires Distinct(ids)
    ensures forall x :: x in Without(ids, id) <==> x in ids && x != id
  {
    if |ids| > 0 {
      var rest := ids[1..];
      FirstApart(ids);
      WithoutHas(rest, id);
      forall x ensures x in Without(ids, id) <==> x in ids && x != id {
        assert x in ids <==> x == ids[0] || x in rest by { assert ids == [ids[0]] + rest; }
      }
    }
  }

  lemma FirstApart(ids: seq<nat>)
    requires Distinct(ids) && |ids| > 0
    ensures Distinct(ids[1..]) && ids[0] !in ids[1..]
  {
  }

  lemma {:induction false} WithoutIs(ids: seq<nat>, id: nat)
    requires Distinct(ids)
    ensures Distinct(Without(ids, id)) && forall x :: x in Without(ids, id) <==> x in ids && x != id
  {
    WithoutHas(ids, id);
    if |ids| > 0 && ids[0] != id {
      var rest := Without(ids[1..], id);
      FirstApart(ids);
      WithoutIs(ids[1..], id);
      assert forall j :: 0 <= j < |rest| ==> rest[j] in rest;
    }
  }

  /** An entry leaves the list and the table; the reference of the cache is not yet given up. */
  lemma LeavesList(entries: Entries, lru: seq<nat>, contents: set<Handle>, usage: nat, deleted: seq<nat>, nextId: nat,
                   handles: map<nat, nat>, extra: set<nat>, id: nat)
    requires Consistent(entries, lru, extra, contents, usage, deleted, nextId, handles) && id in lru
    ensures id in entries && id !in Without(lru, id)
    ensures Consistent(entries, Without(lru, id), extra + {id}, contents - {entries[id].handle}, usage, deleted, nextId, handles)
  {
    hide Fates, Total;
    WithoutIs(lru, id);
  }

  /** A new entry, in the list and in the table, with one reference of the cache and one handle. */
  lemma EntersList(entries: Entries, lru: seq<nat>, contents: set<Handle>, usage: nat, deleted: seq<nat>, nextId: nat,
                   handles: map<nat, nat>, e: Entry)
    requires Consistent(entries, lru, {}, contents, usage, deleted, nextId, handles) && e.handle.id == nextId && e.refs == 2
    ensures Consistent(entries[nextId := e], lru + [nextId], {}, contents + {e.handle}, usage + e.charge, deleted, nextId + 1, handles[nextId := 1])
  {
    var entries' := entries[nextId := e];
    assert nextId !in entries && nextId !in lru;
    TotalChange(entries, entries', nextId, nextId);
  }

  /** An entry of the list becomes the newest one. */
  lemma BecomesNewest(entries: Entries, lru: seq<nat>, contents: set<Handle>, usage: nat, deleted: seq<nat>, nextId: nat,
                      handles: map<nat, nat>, id: nat)
    requires Consistent(entries, lru, {}, contents, usage, deleted, nextId, handles) && id in lru
    ensures id in entries
    ensures Consistent(entries[id := entries[id].(refs := entries[id].refs + 1)], Without(lru, id) + [id], {}, contents, usage, deleted, nextId,
                       handles[id := Open(handles, id) + 1])
  {
    hide Total, Without, Distinct, Fates, Counted;
    NewestList(lru, id);
    var entries', lru' := entries[id := entries[id].(refs := entries[id].refs + 1)], Without(lru, id) + [id];
    SameListed(entries, entries', lru, lru', contents);
    OneMoreCounted(entries, lru, lru', handles, id);
    SameFates(entries, entries', deleted, nextId);
    TotalChange(entries, entries', nextId, id);
  }

  lemma SameListed(entries: Entries, entries': Entries, lru: seq<nat>, lru': seq<nat>, contents: set<Handle>)
    requires Listed(entries, lru, contents) && Distinct(lru') && (forall x :: x in lru' <==> x in lru)
    requires entries'.Keys == entries.Keys && forall x :: x in entries ==> entries'[x].handle == entries[x].handle
    ensures Listed(entries', lru', contents)
  {
    hide Distinct;
    forall h ensures h in contents <==> h.id in lru' && h.id in entries' && h == entries'[h.id].handle {
      assert h in contents <==> h.id in lru && h.id in entries && h == entries[h.id].handle;
    }
  }

  lemma OneMoreCounted(entries: Entries, lru: seq<nat>, lru': seq<nat>, handles: map<nat, nat>, id: nat)
    requires Counted(entries, lru, {}, handles) && id in entries && (forall x :: x in lru' <==> x in lru)
    ensures Counted(entries[id := entries[id].(refs := entries[id].refs + 1)], lru', {}, handles[id := Open(handles, id) + 1])
  {
    var entries', handles' := entries[id := entries[id].(refs := entries[id].refs + 1)], handles[id := Open(handles, id) + 1];
    forall x | x in entries' ensures entries'[x].refs == (if x in lru' then 1 else 0) + Open(handles', x) && entries'[x].refs > 0 {
      assert entries[x].refs == (if x in lru then 1 else 0) + Open(handles, x);
    }
  }

  lemma SameFates(entries: Entries, entries': Entries, deleted: seq<nat>, nextId: nat)
    requires Fates(entries, deleted, nextId) && entries'.Keys == entries.Keys
    ensures Fates(entries', deleted, nextId)
  {
  }

  lemma NewestList(lru: seq<nat>, id: nat)
    requires Distinct(lru) && id in lru
    ensures Distinct(Without(lru, id) + [id]) && forall x :: x in Without(lru, id) + [id] <==> x in lru
  {
    hide Without;
    WithoutIs(lru, id);
    var l := Without(lru, id);
    assert forall j :: 0 <= j < |l| ==> l[j] in l;
  }

  lemma {:induction false} WithoutAbsent(ids: seq<nat>, id: nat)
    requires id !in ids
    ensures Without(ids, id) == ids
  {
    if |ids| > 0 {
      WithoutAbsent(ids[1..], id);
      assert ids == [ids[0]] + ids[1..];
    }
  }

  /** Entries keep all but their reference counts, as long as they live. */
  ghost predicate Kept(entries: Entries, entries': Entries) {
    forall x :: x in entries' ==> x in entries && entries'[x].(refs := 0) == entries[x].(refs := 0)
  }

  /** The cache lists the entry id under this key. */
  ghost predicate Listing(entries: Entries, lru: seq<nat>, key: Bytes, hash: uint32, id: nat) {
    id in lru && id in entries && Matches(entries[id].handle, key, hash)
  }

  /** The entry listed under this key leaves the list; gone is no entry at all when there is none. */
  ghost predicate Replaces(entries: Entries, lru: seq<nat>, key: Bytes, hash: uint32, id: nat, gone: nat) {
    Listing(entries, lru, key, hash, gone) || (gone > id && forall x :: !Listing(entries, lru, key, hash, x))
  }

  /** The k oldest entries have left the list. */
  ghost predicate Evicts(lru: seq<nat>, lru': seq<nat>, k: int) {
    0 <= k <= |lru| && lru' == lru[k..]
  }

  class Cache {
    var capacity: nat
    var usage: nat
    /** Oldest entry first. */
    var lru: seq<nat>
    const table: Table
    var entries: Entries
    var nextId: nat
    /** The entries whose deleter has run, in order. */
    var deleted: seq<nat>
    /** The handles that callers hold. */
    ghost var handles: map<nat, nat>

    ghost predicate Inner(extra: set<nat>)
      reads this, table
    {
      table.Valid() && Consistent(entries, lru, extra, table.Contents(), usage, deleted, nextId, handles)
    }

    ghost predicate Valid()
      reads this, table
    {
      Inner({})
    }

    constructor (capacity: nat)
      ensures Valid() && fresh(table) && lru == [] && handles == map[] && deleted == [] && this.capacity == capacity
    {
      this.capacity, usage, lru, entries, nextId, deleted, handles := capacity, 0, [], map[], 0, [], map[];
      table := new Table();
    }

    /** Drop one reference; at zero the charge goes, the deleter runs and the entry is freed. */
    method Unref(id: nat)
      requires id in entries && entries[id].refs > 0 && (entries[id].refs == 1 ==> usage >= entries[id].charge)
      modifies this`entries, this`usage, this`deleted
      ensures entries == Unreffed(old(entries), id)
      ensures var gone := old(entries)[id].refs <= 1;
              && usage == old(usage) - (if gone then old(entries)[id].charge else 0)
              && deleted == if gone then old(deleted) + [id] else old(deleted)
    {
      var e := entries[id];
      entries := entries[id := e.(refs := e.refs - 1)];
      if entries[id].refs <= 0 {
        usage := usage - e.charge;
        deleted := deleted + [id];
        entries := entries - {id};
      }
    }

    /** A handle on the entry for the key, which becomes the newest. */
    method Lookup(key: Bytes, hash: uint32) returns (r: Option<nat>)
      requires Valid()
      modifies this
      ensures Valid() && usage == old(usage) && deleted == old(deleted) && nextId == old(nextId) && Kept(old(entries), entries)
      ensures r.Some? ==>
                && r.value in old(lru) && r.value in entries && Matches(entries[r.value].handle, key, hash)
                && lru == Without(old(lru), r.value) + [r.value] && handles == old(handles)[r.value := Open(old(handles), r.value) + 1]
      ensures r.None? ==>
                && lru == old(lru) && handles == old(handles) && entries == old(entries)
                && forall id :: id in lru && id in entries ==> !Matches(entries[id].handle, key, hash)
    {
      hide Total, Fates, HandlesIn, Without;
      var h := table.Lookup(key, hash);
      if h.None? {
        NotListed(entries, lru, table.Contents(), key, hash);
        return None;
      }
      var id := h.value.id;
      BecomesNewest(entries, lru, table.Contents(), usage, deleted, nextId, handles, id);
      entries := entries[id := entries[id].(refs := entries[id].refs + 1)];
      lru := Without(lru, id);
      lru := lru + [id];
      handles := handles[id := Open(handles, id) + 1];
      r := Some(id);
    }

    /** Give a handle back. */
    method Release(id: nat)
      requires Valid() && Open(handles, id) > 0
      modifies this
      ensures Valid() && lru == old(lru) && handles == old(handles)[id := old(handles)[id] - 1] && nextId == old(nextId)
      ensures Kept(old(entries), entries)
    {
      hide Consistent, HandlesIn;
      UnrefHandle(entries, lru, table.Contents(), usage, deleted, nextId, handles, id);
      RefsPositive(entries, lru, {}, table.Contents(), usage, deleted, nextId, handles, id);
      Unref(id);
      handles := handles[id := handles[id] - 1];
    }

    /** Remove the entry for the key; it lives on while it has open handles. */
    method Erase(key: Bytes, hash: uint32)
      requires Valid()
      modifies this, table
      ensures Valid() && handles == old(handles) && nextId == old(nextId) && Kept(old(entries), entries)
      ensures forall id :: id in lru && id in entries ==> !Matches(entries[id].handle, key, hash)
      ensures lru == old(lru) || exists id :: Listing(old(entries), old(lru), key, hash, id) && lru == Without(old(lru), id)
    {
      hide Total, Fates, HandlesIn, Without;
      ghost var before := table.Contents();
      ContentsUnique(table);
      var h := table.Remove(key, hash);
      if h.Some? {
        assert Listing(entries, lru, key, hash, h.value.id);
        DropListed(h.value.id, before);
      }
      NotListed(entries, lru, table.Contents(), key, hash);
    }

    /** Take an entry that has left the table off the list, and give up the reference of the cache. */
    method DropListed(id: nat, ghost before: set<Handle>)
      requires table.Valid() && Consistent(entries, lru, {}, before, usage, deleted, nextId, handles) && id in lru && id in entries
      requires table.Contents() == before - {entries[id].handle}
      modifies this
      ensures Valid() && lru == Without(old(lru), id) && handles == old(handles) && nextId == old(nextId) && capacity == old(capacity)
      ensures usage <= old(usage) && Kept(old(entries), entries)
    {
      hide Consistent, Without, HandlesIn;
      LeavesList(entries, lru, before, usage, deleted, nextId, handles, {}, id);
      assert {} + {id} - {id} == {};
      lru := Without(lru, id);
      UnrefExtra(entries, lru, {} + {id}, table.Contents(), usage, deleted, nextId, handles, id);
      RefsPositive(entries, lru, {} + {id}, table.Contents(), usage, deleted, nextId, handles, id);
      Unref(id);
    }

    /**
     * Insert an entry and hand out a handle on it.  An entry with the same key leaves the cache, and then the
     * oldest ones do until the usage is within capacity or the list is empty.
     */
    method Insert(key: Bytes, hash: uint32, value: int, charge: nat) returns (id: nat)
      requires Valid()
      modifies this, table
      ensures Valid() && id == old(nextId) && nextId == old(nextId) + 1 && handles == old(handles)[id := 1] && capacity == old(capacity)
      ensures id in entries && entries[id].handle == Handle(id, key, hash) && entries[id].value == value && entries[id].charge == charge
      ensures usage <= capacity || lru == []
      ensures forall x :: x in entries && x != id ==> x in old(entries) && entries[x].(refs := 0) == old(entries)[x].(refs := 0)
      ensures exists gone: nat, k: nat ::
                && Replaces(old(entries), old(lru), key, hash, id, gone) && Evicts(Without(old(lru) + [id], gone), lru, k)
                && (old(usage) + charge <= capacity ==> k == 0)
    {
      hide Consistent, HandlesIn, Without, Evicts, Replaces;
      id := nextId;
      ghost var before, lru0 := table.Contents(), lru;
      var h := Handle(id, key, hash);
      var e := Entry(h, value, charge, 2);
      NewHandle(entries, lru, before, usage, deleted, nextId, handles, h);
      EntersList(entries, lru, before, usage, deleted, nextId, handles, e);
      entries, nextId, handles := entries[id := e], nextId + 1, handles[id := 1];
      lru, usage := lru + [id], usage + charge;
      var replaced := table.Insert(h);
      ghost var usage1 := usage;
      ghost var gone := id + 1;
      ReplacesFound(old(entries), lru0, before, old(usage), old(deleted), id, old(handles), h, replaced);
      if replaced.Some? {
        gone := replaced.value.id;
        InTable(entries, lru, before + {h}, usage, deleted, nextId, handles, replaced.value);
        assert before - {replaced.value} + {h} == before + {h} - {replaced.value};
        DropListed(replaced.value.id, before + {h});
      } else {
        assert before - {} + {h} == before + {h};
        NotInList(entries, lru, before + {h}, usage, deleted, nextId, handles, gone);
        WithoutAbsent(lru0 + [id], gone);
      }
      assert lru == Without(lru0 + [id], gone) && usage <= usage1;
      Evict();
      ghost var k: nat :| Evicts(Without(lru0 + [id], gone), lru, k) && (usage1 <= capacity ==> k == 0);
      StillOpen(entries, lru, table.Contents(), usage, deleted, nextId, handles, id);
    }

    /** Drop the oldest entries until the usage is within capacity or the list is empty. */
    method Evict()
      requires Valid()
      modifies this, table
      ensures Valid() && handles == old(handles) && nextId == old(nextId) && capacity == old(capacity) && Kept(old(entries), entries)
      ensures usage <= capacity || lru == []
      ensures exists k: nat :: Evicts(old(lru), lru, k) && (old(usage) <= capacity ==> k == 0)
    {
      hide Total, Fates, HandlesIn, Without, Distinct;
      ghost var k: nat := 0;
      while usage > capacity && lru != []
        invariant Valid() && handles == old(handles) && nextId == old(nextId) && capacity == old(capacity) && Kept(old(entries), entries)
        invariant Evicts(old(lru), lru, k) && usage <= old(usage) && (old(usage) <= capacity ==> k == 0)
        decreases |lru|
      {
        var oldest := lru[0];
        ghost var before := table.Contents();
        ContentsUnique(table);
        assert oldest in lru && entries[oldest].handle in before;
        var h := table.Remove(entries[oldest].handle.key, entries[oldest].handle.hash);
        WithoutFirst(lru);
        DropListed(oldest, before);
        k := k + 1;
      }
    }
  }

  lemma WithoutFirst(ids: seq<nat>)
    requires |ids| > 0
    ensures Without(ids, ids[0]) == ids[1..]
  {
  }

  /** What the table says about the key is what the list says. */
  lemma ReplacesFound(entries: Entries, lru: seq<nat>, contents: set<Handle>, usage: nat, deleted: seq<nat>, nextId: nat, handles: map<nat, nat>,
                      h: Handle, found: Option<Handle>)
    requires Consistent(entries, lru, {}, contents, usage, deleted, nextId, handles)
    requires found.Some? ==> found.value in contents && Matches(found.value, h.key, h.hash)
    requires found.None? ==> forall g :: g in contents ==> !Matches(g, h.key, h.hash)
    ensures Replaces(entries, lru, h.key, h.hash, nextId, if found.Some? then found.value.id else nextId + 1)
  {
    if found.None? {
      NotListed(entries, lru, contents, h.key, h.hash);
    }
  }

  /** The handle of a new entry is not in the table yet. */
  lemma NewHandle(entries: Entries, lru: seq<nat>, contents: set<Handle>, usage: nat, deleted: seq<nat>, nextId: nat, handles: map<nat, nat>, h: Handle)
    requires Consistent(entries, lru, {}, contents, usage, deleted, nextId, handles) && h.id == nextId
    ensures h !in contents
  {
  }

  lemma InTable(entries: Entries, lru: seq<nat>, contents: set<Handle>, usage: nat, deleted: seq<nat>, nextId: nat, handles: map<nat, nat>, h: Handle)
    requires Consistent(entries, lru, {}, contents, usage, deleted, nextId, handles) && h in contents
    ensures h.id in lru && h.id in entries && entries[h.id].handle == h
  {
  }

  /** A number that has not been given out is not in the list. */
  lemma NotInList(entries: Entries, lru: seq<nat>, contents: set<Handle>, usage: nat, deleted: seq<nat>, nextId: nat, handles: map<nat, nat>, id: nat)
    requires Consistent(entries, lru, {}, contents, usage, deleted, nextId, handles) && id >= nextId
    ensures id !in lru
  {
  }

  /** An entry with an open handle is live. */
  lemma StillOpen(entries: Entries, lru: seq<nat>, contents: set<Handle>, usage: nat, deleted: seq<nat>, nextId: nat, handles: map<nat, nat>, id: nat)
    requires Consistent(entries, lru, {}, contents, usage, deleted, nextId, handles) && Open(handles, id) > 0
    ensures id in entries
  {
  }

  /** An entry that is not in the table is not in the list. */
  lemma NotListed(entries: Entries, lru: seq<nat>, contents: set<Handle>, key: Bytes, hash: uint32)
    requires Listed(entries, lru, contents) && forall h :: h in contents ==> !Matches(h, key, hash)
    ensures forall id :: id in lru && id in entries ==> !Matches(entries[id].handle, key, hash)
  {
    forall id | id in lru && id in entries ensures !Matches(entries[id].handle, key, hash) {
      assert entries[id].handle in contents;
    }
  }

  lemma ContentsUnique(t: Table)
    requires t.Valid()
    ensures UniqueKeys(t.Contents())
  {
    hide CountIn;
    ChainsUnique(t.list);
  }

  lemma RefsPositive(entries: Entries, lru: seq<nat>, extra: set<nat>, contents: set<Handle>, usage: nat, deleted: seq<nat>, nextId: nat,
                     handles: map<nat, nat>, id: nat)
    requires Consistent(entries, lru, extra, contents, usage, deleted, nextId, handles) && id in entries
    ensures entries[id].refs > 0
  {
  }

  /** With an empty list and no open handle, every entry ever inserted has been deleted, once each. */
  lemma AllDeleted(c: Cache)
    requires c.Valid() && c.lru == [] && forall id :: Open(c.handles, id) == 0
    ensures c.entries == map[] && c.usage == 0 && Distinct(c.deleted) && forall id :: 0 <= id < c.nextId ==> id in c.deleted
  {
    hide HandlesIn;
    assert forall id :: id !in c.entries;
    NoCharge(c.entries, c.nextId);
  }

  lemma {:induction false} NoCharge(entries: Entries, n: nat)
    requires entries == map[]
    ensures Total(entries, n) == 0
  {
    if n > 0 {
      NoCharge(entries, n - 1);
    }
  }
}
