/**
 * The filter block of a table (table/filter_block.cc): one filter for every 2 KB of data block offsets.
 */
module FilterBlock {
  import opened Basics
  import opened Coding
  import opened Bloom

  const BASE_LG := 11

  /** Which filter covers the data block at this offset: a right shift by BASE_LG. */
  function FilterIndex(blockOffset: nat): (i: nat) {
    blockOffset / 2048
  }

  // ---------------------------------------------------------------------------------------
  // Keys waiting for their filter, stored one after the other

  function Flatten(keys: seq<Bytes>): (b: Bytes) {
    if |keys| == 0 then [] else Flatten(keys[..|keys| - 1]) + keys[|keys| - 1]
  }

  lemma {:induction false} FlattenTake(keys: seq<Bytes>, i: nat)
    requires i < |keys|
    ensures |Flatten(keys[..i])| <= |Flatten(keys[..i + 1])| <= |Flatten(keys)|
    ensures Flatten(keys)[|Flatten(keys[..i])|..|Flatten(keys[..i + 1])|] == keys[i]
    decreases |keys|
  {
    var n := |keys| - 1;
    assert keys[..i + 1][..i] == keys[..i];
    if i < n {
      FlattenTake(keys[..n], i);
      assert keys[..n][..i] == keys[..i] && keys[..n][..i + 1] == keys[..i + 1];
      assert Flatten(keys)[..|Flatten(keys[..n])|] == Flatten(keys[..n]);
    } else {
      assert keys[..i + 1] == keys;
    }
  }

  /** start holds where each key begins. */
  ghost predicate Pending(flat: Bytes, start: seq<nat>, keys: seq<Bytes>) {
    && flat == Flatten(keys) && |start| == |keys|
    && forall i :: 0 <= i < |keys| ==> start[i] == |Flatten(keys[..i])|
  }

  lemma PendingSnoc(flat: Bytes, start: seq<nat>, keys: seq<Bytes>, key: Bytes)
    requires Pending(flat, start, keys)
    ensures Pending(flat + key, start + [|flat|], keys + [key])
  {
    var keys' := keys + [key];
    assert keys'[..|keys|] == keys;
    assert forall i :: 0 <= i < |keys| ==> keys'[..i] == keys[..i];
  }

  // ---------------------------------------------------------------------------------------
  // The builder

  /** A key added while the data block at this offset was being filled. */
  datatype Added = Added(block: nat, key: Bytes)

  /** Filter i lies in result from offs[i] up to the next offset and is the filter of the keys groups[i]. */
  ghost predicate Filters(policy: Policy, result: Bytes, offs: seq<nat>, groups: seq<seq<Bytes>>) {
    |offs| == |groups| && forall i :: 0 <= i < |offs| ==> FilterAt(policy, result, offs, groups, i)
  }

  function LimitOf(result: Bytes, offs: seq<nat>, i: nat): (n: nat)
    requires i < |offs|
  {
    if i + 1 < |offs| then offs[i + 1] else |result|
  }

  ghost predicate FilterAt(policy: Policy, result: Bytes, offs: seq<nat>, groups: seq<seq<Bytes>>, i: nat)
    requires i < |offs| == |groups|
  {
    && offs[i] <= LimitOf(result, offs, i) <= |result|
    && if groups[i] == [] then offs[i] == LimitOf(result, offs, i) else IsFilter(policy, groups[i], result[offs[i]..LimitOf(result, offs, i)])
  }

  /** The keys of a filter are exactly those added for its blocks, and the waiting keys are those of the next filter. */
  ghost predicate Covered(added: set<Added>, groups: seq<seq<Bytes>>, pending: seq<Bytes>) {
    && (forall a :: a in added ==> InFilter(a, groups, pending))
    && (forall i, k :: 0 <= i < |groups| && k in groups[i] ==> ForFilter(added, i, k))
    && (forall k :: k in pending ==> ForFilter(added, |groups|, k))
  }

  ghost predicate InFilter(a: Added, groups: seq<seq<Bytes>>, pending: seq<Bytes>) {
    var i := FilterIndex(a.block);
    (i < |groups| && a.key in groups[i]) || (i == |groups| && a.key in pending)
  }

  /** The key was added for a block that filter i covers. */
  ghost predicate ForFilter(added: set<Added>, i: nat, k: Bytes) {
    exists a :: a in added && FilterIndex(a.block) == i && a.key == k
  }

  class FilterBlockBuilder {
    const policy: Policy
    var flat: Bytes
    var start: seq<nat>
    var result: Bytes
    var filterOffsets: seq<nat>
    ghost var pending: seq<Bytes>
    ghost var groups: seq<seq<Bytes>>
    ghost var added: set<Added>
    /** The offset of the data block being filled. */
    ghost var block: nat

    ghost predicate Inner()
      reads this
    {
      && PolicyOk(policy) && |groups| == |filterOffsets|
      && Pending(flat, start, pending) && Filters(policy, result, filterOffsets, groups) && Covered(added, groups, pending)
    }

    ghost predicate Valid()
      reads this
    {
      Inner() && |groups| == FilterIndex(block)
    }

    constructor (policy: Policy)
      requires PolicyOk(policy)
      ensures Valid() && added == {} && block == 0 && this.policy == policy
    {
      this.policy, flat, start, result, filterOffsets := policy, [], [], [], [];
      pending, groups, added, block := [], [], {}, 0;
    }

    method AddKey(key: Bytes)
      requires Valid()
      modifies this
      ensures Valid() && added == old(added) + {Added(block, key)} && block == old(block)
    {
      hide Pending, Filters, Covered;
      PendingSnoc(flat, start, pending, key);
      start := start + [|flat|];
      flat := flat + key;
      CoveredMore(added, groups, pending, block, key);
      pending, added := pending + [key], added + {Added(block, key)};
    }

    /** The next data block starts at this offset; offsets never go down. */
    method StartBlock(blockOffset: nat)
      requires Valid() && block <= blockOffset
      modifies this
      ensures Valid() && added == old(added) && block == blockOffset
    {
      hide Pending, Filters, Covered;
      var filterIndex := blockOffset / 2048;
      while filterIndex > |filterOffsets|
        invariant Inner() && |groups| <= filterIndex && added == old(added)
      {
        GenerateFilter();
      }
      block := blockOffset;
    }

    /** Make the filter of the waiting keys; without keys it is empty. */
    method GenerateFilter()
      requires Inner()
      modifies this
      ensures Inner() && groups == old(groups) + [old(pending)] && added == old(added) && block == old(block)
      ensures pending == [] && start == []
    {
      hide IsFilter;
      FiltersSnoc(policy, result, filterOffsets, groups, [], []);
      CoveredSnoc(added, groups, pending);
      if |start| == 0 {
        assert pending == [] && result + [] == result;
        filterOffsets := filterOffsets + [|result|];
        groups := groups + [[]];
        return;
      }
      var keys := SplitKeys();
      ghost var before := result;
      filterOffsets := filterOffsets + [|result|];
      result := CreateFilter(policy, keys, result);
      ghost var f := result[|before|..];
      assert result == before + f;
      FiltersSnoc(policy, before, old(filterOffsets), groups, f, keys);
      flat, start := [], [];
      groups, pending := groups + [keys], [];
    }

    /** The list of keys from their flattened form. */
    method SplitKeys() returns (keys: seq<Bytes>)
      requires Pending(flat, start, pending)
      ensures keys == pending
    {
      keys := [];
      var ends := start + [|flat|];
      assert pending[..|pending|] == pending;
      while |keys| < |start|
        invariant |keys| <= |start| && keys == pending[..|keys|]
      {
        var i := |keys|;
        FlattenTake(pending, i);
        keys := keys + [flat[ends[i]..ends[i + 1]]];
      }
    }

    /**
     * All filters, then their offsets, where the offsets start, and the base.  Offsets are cut to 32 bits, so
     * the promise holds for filter blocks below 4 GB: the filter of a block never excludes a key of the block.
     */
    method Finish() returns (contents: Bytes)
      requires Valid()
      modifies this
      ensures |contents| < 0x1_0000_0000 ==> forall a :: a in old(added) ==> FilterMayMatch(policy, contents, a.block, a.key)
      ensures |contents| < 0x1_0000_0000 ==> Decides(policy, contents, groups)
      ensures forall i, k :: 0 <= i < |groups| ==> (k in groups[i] <==> ForFilter(old(added), i, k))
    {
      hide Pending, Filters, Covered, IsFilter, FilterMayMatch, EncodeFixed32, Laid, ForFilter, Collides;
      if start != [] {
        GenerateFilter();
      } else {
        NonePending(flat, start, pending);
      }
      var data, offs := result, filterOffsets;
      var i := 0;
      contents := data;
      while i < |offs|
        invariant i <= |offs| && contents == data + Fixed32s(Cut(offs)[..i])
      {
        assert Cut(offs)[..i + 1][..i] == Cut(offs)[..i];
        contents := contents + EncodeFixed32(offs[i] % 0x1_0000_0000);
        i := i + 1;
      }
      assert Cut(offs)[..i] == Cut(offs);
      contents := contents + EncodeFixed32(|data| % 0x1_0000_0000);
      contents := contents + [BASE_LG];
      result := contents;
      GroupsAre(added, groups);
      if |contents| < 0x1_0000_0000 {
        ContentsAre(data, offs, contents);
        forall offset: nat, key ensures FilterMayMatch(policy, contents, offset, key) <==>
            (FilterIndex(offset) >= |groups| || (groups[FilterIndex(offset)] != [] && Collides(policy, groups[FilterIndex(offset)], key))) {
          FilterDecides(policy, data, offs, groups, contents, offset, key);
        }
        forall a | a in old(added) ensures FilterMayMatch(policy, contents, a.block, a.key) {
          NeverMisses(policy, data, offs, groups, added, contents, a);
        }
      }
    }
  }

  function Cut(ns: seq<nat>): (cs: seq<nat>)
    ensures |cs| == |ns| && forall i :: 0 <= i < |ns| ==> cs[i] == ns[i] % 0x1_0000_0000
  {
    seq(|ns|, i requires 0 <= i < |ns| => ns[i] % 0x1_0000_0000)
  }

  lemma GroupsAre(added: set<Added>, groups: seq<seq<Bytes>>)
    requires Covered(added, groups, [])
    ensures forall i, k :: 0 <= i < |groups| ==> (k in groups[i] <==> ForFilter(added, i, k))
  {
    forall i, k | 0 <= i < |groups| && ForFilter(added, i, k) ensures k in groups[i] {
      var a :| a in added && FilterIndex(a.block) == i && a.key == k;
      assert InFilter(a, groups, []);
    }
  }

  lemma NonePending(flat: Bytes, start: seq<nat>, keys: seq<Bytes>)
    requires Pending(flat, start, keys) && start == []
    ensures keys == []
  {
  }

  lemma FiltersSnoc(policy: Policy, result: Bytes, offs: seq<nat>, groups: seq<seq<Bytes>>, f: Bytes, keys: seq<Bytes>)
    requires Filters(policy, result, offs, groups) && (keys != [] ==> IsFilter(policy, keys, f)) && (keys == [] ==> f == [])
    ensures Filters(policy, result + f, offs + [|result|], groups + [keys])
  {
    hide IsFilter;
    var result', offs', groups' := result + f, offs + [|result|], groups + [keys];
    forall i | 0 <= i < |offs'| ensures FilterAt(policy, result', offs', groups', i) {
      if i < |offs| {
        assert FilterAt(policy, result, offs, groups, i);
        assert LimitOf(result', offs', i) == LimitOf(result, offs, i);
        assert result'[offs[i]..LimitOf(result, offs, i)] == result[offs[i]..LimitOf(result, offs, i)];
      } else {
        assert result'[offs'[i]..LimitOf(result', offs', i)] == f;
      }
    }
  }

  lemma CoveredMore(added: set<Added>, groups: seq<seq<Bytes>>, pending: seq<Bytes>, block: nat, key: Bytes)
    requires Covered(added, groups, pending) && |groups| == FilterIndex(block)
    ensures Covered(added + {Added(block, key)}, groups, pending + [key])
  {
    var added', pending' := added + {Added(block, key)}, pending + [key];
    forall a | a in added' ensures InFilter(a, groups, pending') {
      assert a in added ==> InFilter(a, groups, pending);
    }
    forall i, k | ForFilter(added, i, k) ensures ForFilter(added', i, k) {
      var a :| a in added && FilterIndex(a.block) == i && a.key == k;
      assert a in added';
    }
    assert ForFilter(added', |groups|, key) by { assert Added(block, key) in added'; }
  }

  lemma CoveredSnoc(added: set<Added>, groups: seq<seq<Bytes>>, pending: seq<Bytes>)
    requires Covered(added, groups, pending)
    ensures Covered(added, groups + [pending], [])
  {
    hide ForFilter;
    var groups' := groups + [pending];
    forall a | a in added ensures InFilter(a, groups', []) {
      assert InFilter(a, groups, pending);
    }
  }

  // ---------------------------------------------------------------------------------------
  // The reader

  /** The fixed32 number at this position; the reader only asks for numbers inside the contents. */
  function WordAt(contents: Bytes, at: nat): (w: uint32) {
    if at + 4 <= |contents| then DecodeFixed32(contents[at..]) else 0
  }

  /** FilterBlockReader::KeyMayMatch on any contents at all: errors count as matches. */
  predicate FilterMayMatch(policy: Policy, contents: Bytes, blockOffset: nat, key: Bytes) {
    var n := |contents|;
    n < 5 ||
    var lastWord := DecodeFixed32(contents[n - 5..]);
    lastWord > n - 5 ||
    var num, index := (n - 5 - lastWord) / 4, blockOffset / Pow2(contents[n - 1]);
    index >= num ||
    var start, limit := WordAt(contents, lastWord + 4 * index), WordAt(contents, lastWord + 4 * index + 4);
    if start <= limit <= lastWord then MayMatch(policy, key, contents[start..limit]) else start != limit
  }

  /** What Finish makes: filters, then all offsets with the end of the filters as the last one, then the base. */
  ghost predicate Laid(data: Bytes, offs: seq<nat>, contents: Bytes) {
    var n := |contents|;
    && n == |data| + 4 * |offs| + 5 && n < 0x1_0000_0000
    && contents[n - 1] == BASE_LG && contents[..|data|] == data
    && DecodeFixed32(contents[n - 5..]) == |data|
    && (forall i :: 0 <= i < |offs| && offs[i] < n ==> DecodeFixed32(contents[|data| + 4 * i..]) == offs[i])
  }

  lemma ContentsAre(data: Bytes, offs: seq<nat>, contents: Bytes)
    requires contents == data + Fixed32s(Cut(offs)) + EncodeFixed32(|data| % 0x1_0000_0000) + [BASE_LG] && |contents| < 0x1_0000_0000
    ensures Laid(data, offs, contents)
  {
    hide EncodeFixed32, DecodeFixed32, Fixed32s;
    var cs := Cut(offs);
    var last := EncodeFixed32(|data|);
    assert contents == data + Fixed32s(cs) + (last + [BASE_LG]);
    assert contents[..|data|] == data;
    assert contents[|data| + 4 * |offs|..] == last + [BASE_LG];
    Fixed32RoundTrip(|data|, [BASE_LG]);
    forall i | 0 <= i < |offs| && offs[i] < |contents| ensures DecodeFixed32(contents[|data| + 4 * i..]) == offs[i] {
      Fixed32At(cs, i, data, last + [BASE_LG]);
    }
  }

  lemma SliceOfPrefix(b: Bytes, prefix: Bytes, p: nat, q: nat)
    requires |prefix| <= |b| && b[..|prefix|] == prefix && p <= q <= |prefix|
    ensures b[p..q] == prefix[p..q]
  {
    assert forall i :: p <= i < q ==> b[i] == b[..|prefix|][i] == prefix[i];
  }

  lemma PowBase()
    ensures Pow2(BASE_LG) == 2048
  {
    assert Pow2(5) == 32 && Pow2(8) == 256;
  }

  /** What the finished contents answer: errors aside, the filter of the block's range decides. */
  ghost predicate Decides(policy: Policy, contents: Bytes, groups: seq<seq<Bytes>>) {
    forall offset: nat, key :: FilterMayMatch(policy, contents, offset, key) <==>
      var i := FilterIndex(offset);
      i >= |groups| || (groups[i] != [] && Collides(policy, groups[i], key))
  }

  lemma FilterDecides(policy: Policy, data: Bytes, offs: seq<nat>, groups: seq<seq<Bytes>>, contents: Bytes, offset: nat, key: Bytes)
    requires PolicyOk(policy) && Filters(policy, data, offs, groups) && Laid(data, offs, contents)
    ensures FilterMayMatch(policy, contents, offset, key) <==>
            var i := FilterIndex(offset);
            i >= |groups| || (groups[i] != [] && Collides(policy, groups[i], key))
  {
    hide IsFilter, MayMatch, DecodeFixed32, Pow2, Collides;
    PowBase();
    var i := FilterIndex(offset);
    if i < |groups| {
      var limit := LimitOf(data, offs, i);
      OffsetsRead(policy, data, offs, groups, contents, i);
      SliceOfPrefix(contents, data, offs[i], limit);
      if groups[i] == [] {
        assert contents[offs[i]..limit] == [];
        NoMatch(policy, key);
      } else {
        MatchExact(policy, groups[i], data[offs[i]..limit], key);
      }
    }
  }

  lemma NoMatch(policy: Policy, key: Bytes)
    ensures !MayMatch(policy, key, [])
  {
  }

  /** The offsets of filter i are read back. */
  lemma OffsetsRead(policy: Policy, data: Bytes, offs: seq<nat>, groups: seq<seq<Bytes>>, contents: Bytes, i: nat)
    requires Filters(policy, data, offs, groups) && Laid(data, offs, contents) && i < |groups|
    ensures FilterAt(policy, data, offs, groups, i)
    ensures |data| + 4 * i + 8 <= |contents|
    ensures DecodeFixed32(contents[|data| + 4 * i..]) == offs[i]
    ensures DecodeFixed32(contents[|data| + 4 * i + 4..]) == LimitOf(data, offs, i)
  {
    hide IsFilter, DecodeFixed32;
    assert FilterAt(policy, data, offs, groups, i);
    if i + 1 < |offs| {
      assert FilterAt(policy, data, offs, groups, i + 1);
      assert DecodeFixed32(contents[|data| + 4 * (i + 1)..]) == offs[i + 1];
    } else {
      assert |contents| - 5 == |data| + 4 * i + 4;
    }
  }

  /** The filter of a block never excludes a key that was added for the block. */
  lemma NeverMisses(policy: Policy, data: Bytes, offs: seq<nat>, groups: seq<seq<Bytes>>, added: set<Added>, contents: Bytes, a: Added)
    requires Filters(policy, data, offs, groups) && Covered(added, groups, []) && a in added && Laid(data, offs, contents)
    ensures FilterMayMatch(policy, contents, a.block, a.key)
  {
    hide IsFilter, MayMatch, DecodeFixed32, Pow2;
    PowBase();
    assert InFilter(a, groups, []);
    var i := FilterIndex(a.block);
    OffsetsRead(policy, data, offs, groups, contents, i);
    SliceOfPrefix(contents, data, offs[i], LimitOf(data, offs, i));
    var k :| 0 <= k < |groups[i]| && groups[i][k] == a.key;
    FilterMatches(policy, groups[i], data[offs[i]..LimitOf(data, offs, i)], k);
  }
}
