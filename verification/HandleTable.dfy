/**
 * The hash table of the cache (util/cache.cc, HandleTable): chains of handles, and a table that grows.
 */
module HandleTable {
  import opened Basics
  import opened Coding

  /** What the table needs of a cache entry: who it is, and its key with the key's hash. */
  datatype Handle = Handle(id: nat, key: Bytes, hash: uint32)

  predicate Matches(h: Handle, key: Bytes, hash: uint32) {
    h.hash == hash && h.key == key
  }

  ghost predicate ChainOk(chain: seq<Handle>, i: nat, length: nat)
    requires length > 0
  {
    && (forall j :: 0 <= j < |chain| ==> chain[j].hash % length == i)
    && (forall j, k :: 0 <= j < k < |chain| ==> !Matches(chain[k], chain[j].key, chain[j].hash))
  }

  ghost predicate ChainsOk(list: seq<seq<Handle>>) {
    |list| > 0 && forall i :: 0 <= i < |list| ==> ChainOk(list[i], i, |list|)
  }

  ghost function HandlesIn(list: seq<seq<Handle>>): (s: set<Handle>) {
    set i, h | 0 <= i < |list| && h in list[i] :: h
  }

  function CountIn(list: seq<seq<Handle>>): (n: nat) {
    if |list| == 0 then 0 else CountIn(list[..|list| - 1]) + |list[|list| - 1]|
  }

  /** Keys are unique in the whole table. */
  ghost predicate UniqueKeys(s: set<Handle>) {
    forall g, h :: g in s && h in s && Matches(g, h.key, h.hash) ==> g == h
  }

  lemma ChainsUnique(list: seq<seq<Handle>>)
    requires ChainsOk(list)
    ensures UniqueKeys(HandlesIn(list))
  {
    forall g, h | g in HandlesIn(list) && h in HandlesIn(list) && Matches(g, h.key, h.hash) ensures g == h {
      var i :| 0 <= i < |list| && g in list[i];
      var j :| 0 <= j < |list| && h in list[j];
      assert ChainOk(list[i], i, |list|) && ChainOk(list[j], j, |list|);
      var m :| 0 <= m < |list[i]| && list[i][m] == g;
      var n :| 0 <= n < |list[j]| && list[j][n] == h;
      assert i == j;
    }
  }

  lemma {:induction false} CountUpdate(list: seq<seq<Handle>>, i: nat, chain: seq<Handle>)
    requires i < |list|
    ensures CountIn(list[i := chain]) == CountIn(list) - |list[i]| + |chain|
    decreases |list|
  {
    var n := |list| - 1;
    if i < n {
      CountUpdate(list[..n], i, chain);
      assert list[i := chain][..n] == list[..n][i := chain];
    } else {
      assert list[i := chain][..n] == list[..n];
    }
  }

  ghost predicate Elsewhere(list: seq<seq<Handle>>, i: nat, h: Handle) {
    exists j :: 0 <= j < |list| && j != i && h in list[j]
  }

  /** The handles of a table after one chain has changed. */
  lemma HandlesUpdate(list: seq<seq<Handle>>, i: nat, chain: seq<Handle>)
    requires i < |list|
    ensures forall h :: h in HandlesIn(list[i := chain]) <==> h in chain || Elsewhere(list, i, h)
  {
    var list' := list[i := chain];
    forall h | h in chain ensures h in HandlesIn(list') {
      assert h in list'[i];
    }
    forall h, j | 0 <= j < |list| && j != i && h in list[j] ensures h in HandlesIn(list') {
      assert h in list'[j];
    }
  }

  /** A handle of a bucket is in no other bucket. */
  lemma OwnBucket(list: seq<seq<Handle>>, h: Handle, j: nat)
    requires ChainsOk(list) && j < |list| && h in list[j]
    ensures h.hash % |list| == j && h in HandlesIn(list)
  {
    assert ChainOk(list[j], j, |list|);
  }

  lemma {:induction false} NoneCounted(n: nat)
    ensures CountIn(seq(n, i => [])) == 0
  {
    var list := seq<seq<Handle>>(n, i => []);
    if n > 0 {
      assert list[..n - 1] == seq(n - 1, i => []);
      NoneCounted(n - 1);
    }
  }

  /** A power of two, at least 4. */
  predicate TableSize(n: nat) {
    n == 4 || (n > 4 && n % 2 == 0 && TableSize(n / 2))
  }

  class Table {
    var length: nat
    var elems: nat
    var list: seq<seq<Handle>>

    ghost predicate Valid()
      reads this
    {
      |list| == length && TableSize(length) && ChainsOk(list) && elems == CountIn(list)
    }

    ghost function Contents(): (s: set<Handle>)
      reads this
    {
      HandlesIn(list)
    }

    constructor ()
      ensures Valid() && Contents() == {}
    {
      length, elems, list := 4, 0, seq(4, i => []);
      new;
      NoneCounted(4);
      assert forall i :: 0 <= i < 4 ==> list[i] == [];
    }

    /** Where in its bucket the key is, the end of the bucket when it is not there. */
    method FindPointer(key: Bytes, hash: uint32) returns (i: nat, j: nat)
      requires Valid()
      ensures i == hash % length && i < |list| && j <= |list[i]|
      ensures j < |list[i]| ==> Matches(list[i][j], key, hash)
      ensures forall k :: 0 <= k < j ==> !Matches(list[i][k], key, hash)
    {
      hide CountIn, ChainOk;
      i, j := hash % length, 0;
      while j < |list[i]| && (list[i][j].hash != hash || key != list[i][j].key)
        invariant j <= |list[i]| && forall k :: 0 <= k < j ==> !Matches(list[i][k], key, hash)
      {
        j := j + 1;
      }
    }

    method Lookup(key: Bytes, hash: uint32) returns (r: Option<Handle>)
      requires Valid()
      ensures r.Some? ==> r.value in Contents() && Matches(r.value, key, hash)
      ensures r.None? ==> forall h :: h in Contents() ==> !Matches(h, key, hash)
    {
      hide CountIn, ChainOk;
      var i, j := FindPointer(key, hash);
      if j < |list[i]| {
        r := Some(list[i][j]);
        assert list[i][j] in list[i];
      } else {
        r := None;
        forall h | h in Contents() ensures !Matches(h, key, hash) {
          NotHere(list, key, hash, h);
        }
      }
    }

    /** Put a handle in the table, in the place of the one with the same key if there is one. */
    method Insert(h: Handle) returns (before: Option<Handle>)
      requires Valid()
      modifies this
      ensures Valid()
      ensures before.Some? ==> before.value in old(Contents()) && Matches(before.value, h.key, h.hash)
      ensures before.None? ==> forall g :: g in old(Contents()) ==> !Matches(g, h.key, h.hash)
      ensures Contents() == old(Contents()) - (if before.Some? then {before.value} else {}) + {h}
      ensures elems == old(elems) + (if before.Some? then 0 else 1)
      ensures if before.Some? || elems <= old(length) then length == old(length) else elems <= length && (length == 4 || length / 2 < elems)
    {
      hide CountIn, ChainOk, HandlesIn;
      var i, j := FindPointer(h.key, h.hash);
      ghost var list0 := list;
      if j < |list[i]| {
        before := Some(list[i][j]);
        InList(list, i, j);
        Replaced(list, i, j, h);
        CountUpdate(list, i, list[i][j := h]);
        list := list[i := list[i][j := h]];
      } else {
        before := None;
        forall g | g in Contents() ensures !Matches(g, h.key, h.hash) {
          NotHere(list, h.key, h.hash, g);
        }
        Appended(list, i, h);
        CountUpdate(list, i, list[i] + [h]);
        list := list[i := list[i] + [h]];
        elems := elems + 1;
        if elems > length {
          Resize();
        }
      }
    }

    method Remove(key: Bytes, hash: uint32) returns (r: Option<Handle>)
      requires Valid()
      modifies this
      ensures Valid()
      ensures r.Some? ==> r.value in old(Contents()) && Matches(r.value, key, hash) && Contents() == old(Contents()) - {r.value}
      ensures r.None? ==> Contents() == old(Contents()) && forall h :: h in Contents() ==> !Matches(h, key, hash)
    {
      hide CountIn, ChainOk, HandlesIn;
      var i, j := FindPointer(key, hash);
      if j < |list[i]| {
        r := Some(list[i][j]);
        InList(list, i, j);
        Removed(list, i, j);
        CountUpdate(list, i, list[i][..j] + list[i][j + 1..]);
        list := list[i := list[i][..j] + list[i][j + 1..]];
        elems := elems - 1;
      } else {
        r := None;
        forall h | h in Contents() ensures !Matches(h, key, hash) {
          NotHere(list, key, hash, h);
        }
      }
    }

    /** Rehash everything into a table of at least as many buckets as there are elements. */
    method Resize()
      requires |list| == length > 0 && ChainsOk(list) && elems == CountIn(list)
      modifies this
      ensures Valid() && Contents() == old(Contents()) && elems == old(elems) && elems <= length && (length == 4 || length / 2 < elems)
    {
      hide CountIn, ChainOk, HandlesIn;
      var newLength := 4;
      while newLength < elems
        invariant TableSize(newLength) && (newLength == 4 || newLength / 2 < elems)
        decreases elems - newLength
      {
        newLength := newLength * 2;
      }
      var newList := seq<seq<Handle>>(newLength, i => []);
      NoneCounted(newLength);
      StartRehash(list, newList);
      var i := 0;
      while i < length
        invariant i <= length == |list| && list == old(list) && elems == old(elems) && |newList| == newLength
        invariant Rehashed(list, i, 0, newList)
      {
        var j := 0;
        while j < |list[i]|
          invariant i < length == |list| && j <= |list[i]| && list == old(list) && elems == old(elems) && |newList| == newLength
          invariant Rehashed(list, i, j, newList)
        {
          var h := list[i][j];
          var b := h.hash % newLength;
          RehashOne(list, i, j, newList);
          newList := newList[b := [h] + newList[b]];
          j := j + 1;
        }
        RehashNext(list, i, newList);
        i := i + 1;
      }
      EndRehash(list, newList);
      list, length := newList, newLength;
    }
  }

  // ---------------------------------------------------------------------------------------
  // Changing one chain

  lemma InList(list: seq<seq<Handle>>, i: nat, j: nat)
    requires i < |list| && j < |list[i]|
    ensures list[i][j] in HandlesIn(list)
  {
    assert list[i][j] in list[i];
  }

  lemma NotHere(list: seq<seq<Handle>>, key: Bytes, hash: uint32, h: Handle)
    requires ChainsOk(list) && h in HandlesIn(list)
    requires var i := hash % |list|; forall k :: 0 <= k < |list[i]| ==> !Matches(list[i][k], key, hash)
    ensures !Matches(h, key, hash)
  {
    var i :| 0 <= i < |list| && h in list[i];
    OwnBucket(list, h, i);
  }

  lemma Appended(list: seq<seq<Handle>>, i: nat, h: Handle)
    requires ChainsOk(list) && i < |list| && i == h.hash % |list|
    requires forall k :: 0 <= k < |list[i]| ==> !Matches(list[i][k], h.key, h.hash)
    ensures ChainsOk(list[i := list[i] + [h]]) && HandlesIn(list[i := list[i] + [h]]) == HandlesIn(list) + {h}
  {
    hide HandlesIn;
    var chain := list[i] + [h];
    assert ChainOk(list[i], i, |list|);
    assert ChainOk(chain, i, |list|);
    ChainsUpdate(list, i, chain);
    HandlesUpdate(list, i, chain);
    HandlesSplit(list, i);
    assert forall x :: x in chain <==> x in list[i] || x == h;
  }

  lemma Replaced(list: seq<seq<Handle>>, i: nat, j: nat, h: Handle)
    requires ChainsOk(list) && i < |list| && i == h.hash % |list| && j < |list[i]| && Matches(list[i][j], h.key, h.hash)
    ensures var list' := list[i := list[i][j := h]];
            ChainsOk(list') && HandlesIn(list') == HandlesIn(list) - {list[i][j]} + {h}
  {
    var chain, g := list[i][j := h], list[i][j];
    assert ChainOk(list[i], i, |list|);
    assert ChainOk(chain, i, |list|);
    ChainsUpdate(list, i, chain);
    HandlesUpdate(list, i, chain);
    HandlesSplit(list, i);
    ChainDistinct(list[i], i, |list|);
    assert forall x :: x in chain <==> x == h || (x in list[i] && x != g) by {
      forall x | x in list[i] && x != g ensures x in chain {
        var k :| 0 <= k < |list[i]| && list[i][k] == x;
        assert chain[k] == x;
      }
      assert chain[j] == h;
    }
    NotElsewhere(list, i, g);
  }

  lemma Removed(list: seq<seq<Handle>>, i: nat, j: nat)
    requires ChainsOk(list) && i < |list| && j < |list[i]|
    ensures var list' := list[i := list[i][..j] + list[i][j + 1..]];
            ChainsOk(list') && HandlesIn(list') == HandlesIn(list) - {list[i][j]}
  {
    var chain, g := list[i][..j] + list[i][j + 1..], list[i][j];
    assert ChainOk(list[i], i, |list|);
    assert forall k :: 0 <= k < |chain| ==> chain[k] == if k < j then list[i][k] else list[i][k + 1];
    assert ChainOk(chain, i, |list|);
    ChainsUpdate(list, i, chain);
    HandlesUpdate(list, i, chain);
    HandlesSplit(list, i);
    ChainDistinct(list[i], i, |list|);
    assert forall x :: x in chain <==> x in list[i] && x != g by {
      forall x | x in list[i] && x != g ensures x in chain {
        var k :| 0 <= k < |list[i]| && list[i][k] == x;
        assert chain[if k < j then k else k - 1] == x;
      }
    }
    NotElsewhere(list, i, g);
  }

  lemma ChainsUpdate(list: seq<seq<Handle>>, i: nat, chain: seq<Handle>)
    requires ChainsOk(list) && i < |list| && ChainOk(chain, i, |list|)
    ensures ChainsOk(list[i := chain])
  {
    hide ChainOk;
  }

  lemma HandlesSplit(list: seq<seq<Handle>>, i: nat)
    requires i < |list|
    ensures forall h :: h in HandlesIn(list) <==> h in list[i] || Elsewhere(list, i, h)
  {
  }

  lemma ChainDistinct(chain: seq<Handle>, i: nat, length: nat)
    requires length > 0 && ChainOk(chain, i, length)
    ensures forall j, k :: 0 <= j < k < |chain| ==> chain[j] != chain[k]
  {
  }

  lemma NotElsewhere(list: seq<seq<Handle>>, i: nat, h: Handle)
    requires ChainsOk(list) && i < |list| && h in list[i]
    ensures forall j :: 0 <= j < |list| && j != i ==> h !in list[j]
  {
    hide ChainOk, HandlesIn;
    OwnBucket(list, h, i);
    forall j | 0 <= j < |list| && j != i ensures h !in list[j] {
      if h in list[j] {
        OwnBucket(list, h, j);
      }
    }
  }

  // ---------------------------------------------------------------------------------------
  // Rehashing

  /** h is one of the handles met so far: in the first i buckets, or among the first j of bucket i. */
  ghost predicate Met(list: seq<seq<Handle>>, i: nat, j: nat, h: Handle) {
    (exists k :: 0 <= k < i && k < |list| && h in list[k]) || (i < |list| && j <= |list[i]| && h in list[i][..j])
  }

  function CountMet(list: seq<seq<Handle>>, i: nat, j: nat): (n: nat)
    requires i <= |list|
  {
    CountIn(list[..i]) + j
  }

  ghost predicate Rehashed(list: seq<seq<Handle>>, i: nat, j: nat, newList: seq<seq<Handle>>) {
    && ChainsOk(list) && ChainsOk(newList) && i <= |list| && (i < |list| ==> j <= |list[i]|) && (i == |list| ==> j == 0)
    && (forall h :: h in HandlesIn(newList) <==> Met(list, i, j, h))
    && CountIn(newList) == CountMet(list, i, j)
  }

  lemma StartRehash(list: seq<seq<Handle>>, newList: seq<seq<Handle>>)
    requires ChainsOk(list) && |newList| > 0 && (forall i :: 0 <= i < |newList| ==> newList[i] == []) && CountIn(newList) == 0
    ensures Rehashed(list, 0, 0, newList)
  {
    assert list[..0] == [];
  }

  lemma RehashOne(list: seq<seq<Handle>>, i: nat, j: nat, newList: seq<seq<Handle>>)
    requires Rehashed(list, i, j, newList) && i < |list| && j < |list[i]|
    ensures var h := list[i][j];
            var b := h.hash % |newList|;
            Rehashed(list, i, j + 1, newList[b := [h] + newList[b]])
  {
    hide CountIn, HandlesIn;
    var h := list[i][j];
    var b := h.hash % |newList|;
    var chain := [h] + newList[b];
    NotMet(list, i, j, newList);
    assert ChainOk(newList[b], b, |newList|);
    assert ChainOk(chain, b, |newList|);
    ChainsUpdate(newList, b, chain);
    HandlesUpdate(newList, b, chain);
    HandlesSplit(newList, b);
    CountUpdate(newList, b, chain);
    assert list[i][..j + 1] == list[i][..j] + [h];
    assert forall x :: x in chain <==> x in newList[b] || x == h;
    var newList' := newList[b := chain];
    forall x ensures x in HandlesIn(newList') <==> Met(list, i, j + 1, x) {
      assert x in list[i][..j + 1] <==> x in list[i][..j] || x == h;
      assert Met(list, i, j + 1, x) <==> Met(list, i, j, x) || x == h;
      assert x in HandlesIn(newList') <==> x in HandlesIn(newList) || x == h;
    }
  }

  /** The next handle has a key that is not in the new table yet. */
  lemma NotMet(list: seq<seq<Handle>>, i: nat, j: nat, newList: seq<seq<Handle>>)
    requires Rehashed(list, i, j, newList) && i < |list| && j < |list[i]|
    ensures var h := list[i][j];
            var b := h.hash % |newList|;
            forall k :: 0 <= k < |newList[b]| ==> !Matches(newList[b][k], h.key, h.hash)
  {
    hide CountIn;
    var h := list[i][j];
    var b := h.hash % |newList|;
    forall k | 0 <= k < |newList[b]| ensures !Matches(newList[b][k], h.key, h.hash) {
      var g := newList[b][k];
      assert g in newList[b] && g in HandlesIn(newList) && Met(list, i, j, g);
      assert ChainOk(list[i], i, |list|);
      if Matches(g, h.key, h.hash) {
        Earlier(list, i, j, g, h);
      }
    }
  }

  lemma Earlier(list: seq<seq<Handle>>, i: nat, j: nat, g: Handle, h: Handle)
    requires ChainsOk(list) && i < |list| && j < |list[i]| && h == list[i][j] && Met(list, i, j, g)
    ensures !Matches(g, h.key, h.hash)
  {
    assert ChainOk(list[i], i, |list|);
    if m :| 0 <= m < i && m < |list| && g in list[m] {
      assert ChainOk(list[m], m, |list|);
      var n :| 0 <= n < |list[m]| && list[m][n] == g;
      assert g.hash % |list| == m && h.hash % |list| == i;
    } else {
      var n :| 0 <= n < j && list[i][..j][n] == g;
      assert list[i][n] == g;
    }
  }

  lemma RehashNext(list: seq<seq<Handle>>, i: nat, newList: seq<seq<Handle>>)
    requires i < |list| && Rehashed(list, i, |list[i]|, newList)
    ensures Rehashed(list, i + 1, 0, newList)
  {
    hide ChainOk, HandlesIn;
    assert list[i][..|list[i]|] == list[i];
    assert list[..i + 1][..i] == list[..i];
    forall h ensures Met(list, i + 1, 0, h) <==> Met(list, i, |list[i]|, h) {
    }
  }

  lemma EndRehash(list: seq<seq<Handle>>, newList: seq<seq<Handle>>)
    requires Rehashed(list, |list|, 0, newList)
    ensures ChainsOk(newList) && HandlesIn(newList) == HandlesIn(list) && CountIn(newList) == CountIn(list)
  {
    assert list[..|list|] == list;
  }
}
