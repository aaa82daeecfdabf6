/**
 * Flushing with large values (db/builder.cc, BuildTable) and reading them back (db/version_set.cc, SaveValue
 * and Version::Get): a large value goes to the large space, and the table gets a delegate under the large type.
 */
module Redirect {
  import opened Basics
  import opened Coding
  import opened Keys
  import opened Block
  import opened Table
  import LS = LargeSpace

  /** A memtable entry: its key parses, holds a value or a deletion, and deletions have no value. */
  predicate MemEntry(e: KV) {
    && ParseKey(e.key).Some?
    && (ParseKey(e.key).value.t == TYPE_VALUE || (ParseKey(e.key).value.t == TYPE_DELETION && e.value == []))
    && |e.value| < 0x1_0000_0000
  }

  predicate MemEntries(es: seq<KV>) {
    forall i :: 0 <= i < |es| ==> MemEntry(es[i])
  }

  function LargeKey(key: Bytes): (k: Bytes)
    requires ParseKey(key).Some?
  {
    EncodeKey(ParseKey(key).value.(t := TYPE_LARGE))
  }

  /** The table entry for e: e itself, or a delegate for its value under the large type. */
  ghost predicate Stands(e: KV, o: KV, threshold: nat, issued: map<LS.Delegate, Bytes>)
    requires MemEntry(e)
  {
    if |e.value| >= threshold then
      o.key == LargeKey(e.key) && exists d :: d in issued && o.value == LS.EncodeDelegate(d) && issued[d] == e.value
    else o == e
  }

  ghost predicate Redirected(es: seq<KV>, out: seq<KV>, threshold: nat, issued: map<LS.Delegate, Bytes>) {
    |out| == |es| && MemEntries(es) && forall i :: 0 <= i < |es| ==> Stands(es[i], out[i], threshold, issued)
  }

  ghost predicate Extends(issued: map<LS.Delegate, Bytes>, issued': map<LS.Delegate, Bytes>) {
    forall d :: d in issued ==> d in issued' && issued'[d] == issued[d]
  }

  lemma RedirectedMore(es: seq<KV>, out: seq<KV>, threshold: nat, issued: map<LS.Delegate, Bytes>, issued': map<LS.Delegate, Bytes>)
    requires Redirected(es, out, threshold, issued) && Extends(issued, issued')
    ensures Redirected(es, out, threshold, issued')
  {
    hide LS.EncodeDelegate, EncodeKey, ParseKey;
    forall i | 0 <= i < |es| ensures Stands(es[i], out[i], threshold, issued') {
      assert Stands(es[i], out[i], threshold, issued);
    }
  }

  lemma RedirectedSnoc(es: seq<KV>, out: seq<KV>, threshold: nat, issued: map<LS.Delegate, Bytes>, e: KV, o: KV)
    requires Redirected(es, out, threshold, issued) && MemEntry(e) && Stands(e, o, threshold, issued)
    ensures Redirected(es + [e], out + [o], threshold, issued)
  {
    hide Stands, MemEntry;
  }

  /** The bytes that redirecting everything would add to the space. */
  function Volume(es: seq<KV>): (n: nat) {
    if |es| == 0 then 0 else |es[0].value| + 8 + Volume(es[1..])
  }

  // ---------------------------------------------------------------------------------------
  // Building

  lemma NothingRedirected(threshold: nat, issued: map<LS.Delegate, Bytes>)
    ensures Redirected([], [], threshold, issued)
  {
  }

  /** The entries handed to the table builder, in order, and the bounds recorded for the file. */
  method BuildTable(space: LS.Space, es: seq<KV>) returns (out: seq<KV>, smallest: Bytes, largest: Bytes)
    requires space.Valid() && MemEntries(es) && space.sizeThreshold > 0
    requires space.DataSize() + Volume(es) < 0x1_0000_0000_0000_0000
    modifies space, space.disk
    ensures space.Valid() && (old(space.Tidy()) ==> space.Tidy()) && Extends(old(space.issued), space.issued)
    ensures Redirected(es, out, old(space.sizeThreshold), space.issued)
    ensures es != [] ==> smallest == es[0].key && largest == es[|es| - 1].key
  {
    hide LS.Intact, LS.Lags, LS.Dumped, LS.Boundary, LS.SpaceEnd, LS.NoneEmpty, LS.AtItsEnd, LS.EncodeDelegate, EncodeKey, ParseKey, Stands, Redirected;
    NothingRedirected(space.sizeThreshold, space.issued);
    smallest, largest, out := [], [], [];
    if |es| > 0 {
      smallest := es[0].key;
    }
    ghost var threshold := space.sizeThreshold;
    var i := 0;
    while i < |es|
      invariant i <= |es| && space.Valid() && space.sizeThreshold == threshold && Extends(old(space.issued), space.issued)
      invariant (old(space.Tidy()) ==> space.Tidy()) && Redirected(es[..i], out, threshold, space.issued)
      invariant space.DataSize() + Volume(es[i..]) < 0x1_0000_0000_0000_0000
      invariant largest == if i == 0 then [] else es[i - 1].key
    {
      var e := es[i];
      largest := e.key;
      assert es[i..][0] == e && es[i..][1..] == es[i + 1..] && es[..i + 1] == es[..i] + [e];
      ghost var before := space.issued;
      var o := e;
      if |e.value| >= space.sizeThreshold {
        var r := space.Deposit(e.key, e.value);
        if r.Some? {
          o := KV(r.value.0, r.value.1);
        }
        StandsLarge(e, o, threshold, before, space.issued);
        RedirectedMore(es[..i], out, threshold, before, space.issued);
      } else {
        StandsSmall(e, threshold, space.issued);
      }
      RedirectedSnoc(es[..i], out, threshold, space.issued, e, o);
      out := out + [o];
      i := i + 1;
    }
    assert es[..i] == es;
  }

  lemma StandsSmall(e: KV, threshold: nat, issued: map<LS.Delegate, Bytes>)
    requires MemEntry(e) && |e.value| < threshold
    ensures Stands(e, e, threshold, issued)
  {
  }

  lemma StandsLarge(e: KV, o: KV, threshold: nat, before: map<LS.Delegate, Bytes>, issued: map<LS.Delegate, Bytes>)
    requires MemEntry(e) && |e.value| >= threshold && o.key == LargeKey(e.key)
    requires exists d :: d !in before && issued == before[d := e.value] && o.value == LS.EncodeDelegate(d)
    ensures Stands(e, o, threshold, issued) && Extends(before, issued)
  {
    hide LS.EncodeDelegate, EncodeKey, ParseKey;
  }

  // ---------------------------------------------------------------------------------------
  // Keys stay in order

  /** The large type changes the trailer by one, and the user key not at all. */
  lemma LargeKeyParts(key: Bytes)
    requires ParseKey(key).Some? && ParseKey(key).value.t == TYPE_VALUE
    ensures |key| >= 8 && |LargeKey(key)| >= 8 && UserOf(LargeKey(key)) == UserOf(key)
    ensures TagOf(LargeKey(key)) == TagOf(key) + 1 && TagOf(key) % 256 == 1
  {
    hide UserOf, TagOf, EncodeKey;
    var tag := TagOf(key);
    KeyParts(ParseKey(key).value.(t := TYPE_LARGE));
    assert tag == tag / 256 * 256 + tag % 256;
  }

  lemma StandsParts(e: KV, o: KV, threshold: nat, issued: map<LS.Delegate, Bytes>)
    requires MemEntry(e) && threshold > 0 && Stands(e, o, threshold, issued)
    ensures |e.key| >= 8 && |o.key| >= 8 && UserOf(o.key) == UserOf(e.key) && TagOf(e.key) % 256 <= 1
    ensures TagOf(o.key) == TagOf(e.key) || (TagOf(o.key) == TagOf(e.key) + 1 && TagOf(e.key) % 256 == 1)
  {
    hide UserOf, TagOf, EncodeKey, LS.EncodeDelegate;
    if |e.value| >= threshold {
      LargeKeyParts(e.key);
    }
  }

  lemma TagsApart(a: int, b: int, a': int, b': int)
    requires a > b >= 0 && a % 256 <= 1 && b % 256 <= 1
    requires (a' == a || (a' == a + 1 && a % 256 == 1)) && (b' == b || (b' == b + 1 && b % 256 == 1))
    ensures a' > b'
  {
  }

  /** The table's keys are strictly increasing when the memtable's are. */
  lemma KeysIncrease(es: seq<KV>, out: seq<KV>, threshold: nat, issued: map<LS.Delegate, Bytes>)
    requires Redirected(es, out, threshold, issued) && threshold > 0 && Sorted(KeyOrder(), es)
    ensures Sorted(KeyOrder(), out)
  {
    hide UserOf, TagOf, Stands, Less, MemEntry;
    var less := KeyOrder();
    forall i, j | 0 <= i < j < |out| ensures less(out[i].key, out[j].key) {
      StandsParts(es[i], out[i], threshold, issued);
      StandsParts(es[j], out[j], threshold, issued);
      assert less(es[i].key, es[j].key);
      if UserOf(es[i].key) == UserOf(es[j].key) {
        LessIrreflexive(UserOf(es[i].key));
        TagsApart(TagOf(es[i].key), TagOf(es[j].key), TagOf(out[i].key), TagOf(out[j].key));
      }
    }
  }

  // ---------------------------------------------------------------------------------------
  // Reading

  /** LookupKey: the user key at a snapshot, with the highest type. */
  function LookupKey(user: Bytes, s: SeqNum): (k: Internal) {
    EncodeKey(ParsedKey(user, s, SEEK_TYPE))
  }

  datatype Answer = Absent | Deleted | Found(value: Bytes)

  /** MemTable::Get: what the first entry at or after the lookup key says. */
  function MemGet(es: seq<KV>, user: Bytes, s: SeqNum): (r: Answer) {
    var i := SeekOf(KeyOrder(), es, LookupKey(user, s));
    if i == |es| || ParseKey(es[i].key).None? || ParseKey(es[i].key).value.user != user then Absent
    else if ParseKey(es[i].key).value.t == TYPE_VALUE then Found(es[i].value)
    else if ParseKey(es[i].key).value.t == TYPE_DELETION then Deleted
    else Absent
  }

  /** The entry is one of the user key, and no later than the snapshot. */
  predicate Seen(e: KV, user: Bytes, s: SeqNum) {
    ParseKey(e.key).Some? && ParseKey(e.key).value.user == user && ParseKey(e.key).value.sn <= s
  }

  /** Entry i is the newest one seen: none has a greater sequence number, nor the same one with a greater type. */
  predicate NewestSeen(es: seq<KV>, user: Bytes, s: SeqNum, i: nat) {
    && i < |es| && Seen(es[i], user, s)
    && forall j :: 0 <= j < |es| && Seen(es[j], user, s) ==>
         var p, q := ParseKey(es[j].key).value, ParseKey(es[i].key).value;
         p.sn < q.sn || (p.sn == q.sn && p.t <= q.t)
  }

  /** What a read of the user key at the snapshot means. */
  ghost predicate Answers(es: seq<KV>, user: Bytes, s: SeqNum, r: Answer) {
    match r
    case Absent => forall i :: 0 <= i < |es| ==> !Seen(es[i], user, s)
    case Deleted => exists i: nat :: NewestSeen(es, user, s, i) && ParseKey(es[i].key).value.t == TYPE_DELETION
    case Found(v) => exists i: nat :: NewestSeen(es, user, s, i) && ParseKey(es[i].key).value.t == TYPE_VALUE && es[i].value == v
  }

  /** An entry is before the lookup key when its user key is, or when it is too new for the snapshot. */
  lemma BeforeLookup(key: Bytes, user: Bytes, s: SeqNum)
    requires ParseKey(key).Some?
    ensures var p := ParseKey(key).value;
            KeyOrder()(key, LookupKey(user, s)) <==> Less(p.user, user) || (p.user == user && p.sn > s)
  {
    hide UserOf, TagOf, EncodeKey, Less;
    KeyParts(ParsedKey(user, s, SEEK_TYPE));
  }

  lemma EntriesInOrder(es: seq<KV>, i: nat, j: nat)
    requires MemEntries(es) && Sorted(KeyOrder(), es) && i < j < |es|
    ensures var p, q := ParseKey(es[i].key).value, ParseKey(es[j].key).value;
            Less(p.user, q.user) || (p.user == q.user && (p.sn > q.sn || (p.sn == q.sn && p.t > q.t)))
  {
    hide UserOf, TagOf, Less;
    assert MemEntry(es[i]) && MemEntry(es[j]);
    assert KeyOrder()(es[i].key, es[j].key);
  }

  /** An entry that is seen is at or after the place where the lookup stops, which then is the newest one seen. */
  lemma StopsAtNewest(es: seq<KV>, user: Bytes, s: SeqNum, j: nat)
    requires MemEntries(es) && Sorted(KeyOrder(), es) && j < |es| && Seen(es[j], user, s)
    ensures NewestSeen(es, user, s, SeekOf(KeyOrder(), es, LookupKey(user, s)))
  {
    hide ParseKey, LookupKey, SeekOf, Sorted, KeyOrder, Less;
    var i := SeekOf(KeyOrder(), es, LookupKey(user, s));
    forall j | 0 <= j < |es| && Seen(es[j], user, s)
      ensures i <= j && Seen(es[i], user, s)
      ensures i == j || ParseKey(es[j].key).value.sn < ParseKey(es[i].key).value.sn
              || (ParseKey(es[j].key).value.sn == ParseKey(es[i].key).value.sn && ParseKey(es[j].key).value.t <= ParseKey(es[i].key).value.t)
    {
      assert MemEntry(es[j]);
      BeforeLookup(es[j].key, user, s);
      LessIrreflexive(user);
      assert i <= j && MemEntry(es[i]);
      BeforeLookup(es[i].key, user, s);
      if i < j {
        EntriesInOrder(es, i, j);
      }
      LessTotal(ParseKey(es[i].key).value.user, user);
    }
  }

  /** The entry at which the lookup stops is seen if it is of the user key. */
  lemma StopsAtSeen(es: seq<KV>, user: Bytes, s: SeqNum)
    requires MemEntries(es)
    ensures var i := SeekOf(KeyOrder(), es, LookupKey(user, s));
            i < |es| && ParseKey(es[i].key).value.user == user ==> Seen(es[i], user, s)
  {
    hide ParseKey, LookupKey, SeekOf, KeyOrder, Less;
    var i := SeekOf(KeyOrder(), es, LookupKey(user, s));
    if i < |es| {
      assert MemEntry(es[i]);
      BeforeLookup(es[i].key, user, s);
    }
  }

  /** Only one entry is the newest one seen. */
  lemma OneNewest(es: seq<KV>, user: Bytes, s: SeqNum, i: nat, j: nat)
    requires MemEntries(es) && Sorted(KeyOrder(), es) && NewestSeen(es, user, s, i) && NewestSeen(es, user, s, j)
    ensures i == j
  {
    hide ParseKey, Sorted, KeyOrder, Less;
    LessIrreflexive(user);
    if i < j {
      EntriesInOrder(es, i, j);
    } else if j < i {
      EntriesInOrder(es, j, i);
    }
  }

  /** Reading a memtable gives the one right answer. */
  lemma MemGetAnswers(es: seq<KV>, user: Bytes, s: SeqNum, r: Answer)
    requires MemEntries(es) && Sorted(KeyOrder(), es)
    ensures MemGet(es, user, s) == r <==> Answers(es, user, s, r)
  {
    hide ParseKey, LookupKey, SeekOf, Sorted, KeyOrder, NewestSeen;
    var i := SeekOf(KeyOrder(), es, LookupKey(user, s));
    StopsAtSeen(es, user, s);
    if i < |es| && ParseKey(es[i].key).value.user == user {
      assert MemEntry(es[i]);
      StopsAtNewest(es, user, s, i);
      forall j: nat | NewestSeen(es, user, s, j) ensures j == i {
        OneNewest(es, user, s, i, j);
      }
    } else {
      NothingSeen(es, user, s);
    }
  }

  lemma NothingSeen(es: seq<KV>, user: Bytes, s: SeqNum)
    requires MemEntries(es) && Sorted(KeyOrder(), es)
    requires var i := SeekOf(KeyOrder(), es, LookupKey(user, s)); i < |es| ==> ParseKey(es[i].key).value.user != user
    ensures MemGet(es, user, s) == Absent
    ensures forall j :: 0 <= j < |es| ==> !Seen(es[j], user, s)
    ensures forall j: nat :: !NewestSeen(es, user, s, j)
  {
    hide ParseKey, LookupKey, SeekOf, Sorted, KeyOrder;
    forall j | 0 <= j < |es| ensures !Seen(es[j], user, s) {
      if Seen(es[j], user, s) {
        StopsAtNewest(es, user, s, j);
      }
    }
  }

  /** The entry at or after the lookup key is at the same place in the table. */
  lemma SamePlace(es: seq<KV>, out: seq<KV>, threshold: nat, issued: map<LS.Delegate, Bytes>, user: Bytes, s: SeqNum)
    requires Redirected(es, out, threshold, issued) && threshold > 0
    ensures SeekOf(KeyOrder(), out, LookupKey(user, s)) == SeekOf(KeyOrder(), es, LookupKey(user, s))
  {
    hide UserOf, TagOf, Stands, Less, MemEntry, EncodeKey;
    var less, k := KeyOrder(), LookupKey(user, s);
    KeyParts(ParsedKey(user, s, SEEK_TYPE));
    forall i | 0 <= i < |es| ensures less(out[i].key, k) == less(es[i].key, k) {
      StandsParts(es[i], out[i], threshold, issued);
      SameSide(TagOf(es[i].key), TagOf(out[i].key), s);
    }
    SeekUnique(less, es, out, k);
  }

  lemma SameSide(a: int, a': int, s: SeqNum)
    requires 0 <= a && a % 256 <= 1 && (a' == a || (a' == a + 1 && a % 256 == 1))
    ensures a > Tag(s, SEEK_TYPE) <==> a' > Tag(s, SEEK_TYPE)
  {
  }

  lemma SeekUnique(less: Order, es: seq<KV>, out: seq<KV>, k: Bytes)
    requires |es| == |out| && forall i :: 0 <= i < |es| ==> less(out[i].key, k) == less(es[i].key, k)
    ensures SeekOf(less, out, k) == SeekOf(less, es, k)
  {
    hide SeekOf;
  }

  predicate IsLarge(e: KV) {
    ParseKey(e.key).Some? && ParseKey(e.key).value.t == TYPE_LARGE
  }

  /** SaveValue, then Retrieve for a large value; None is an error. */
  method TableGet(space: LS.Space, out: seq<KV>, user: Bytes, s: SeqNum) returns (r: Option<Answer>)
    requires space.Valid() && (space.builder.Some? || space.blocks != [] || forall i :: 0 <= i < |out| ==> !IsLarge(out[i]))
    ensures space.Tidy() || space.AllFindable() ==>
              forall es, threshold: nat :: threshold > 0 && Redirected(es, out, threshold, space.issued) ==>
                r == Some(MemGet(es, user, s)) && (Sorted(KeyOrder(), es) ==> Answers(es, user, s, r.value))
  {
    hide LS.Intact, LS.EncodeDelegate, ParseKey, LookupKey, MemGet, Redirected, Sorted, Answers, LS.NoneEmpty, LS.Findable;
    var i := SeekOf(KeyOrder(), out, LookupKey(user, s));
    if i == |out| || ParseKey(out[i].key).None? || ParseKey(out[i].key).value.user != user {
      r := Some(Absent);
    } else if ParseKey(out[i].key).value.t == TYPE_VALUE {
      r := Some(Found(out[i].value));
    } else if ParseKey(out[i].key).value.t == TYPE_LARGE {
      assert IsLarge(out[i]);
      var v := space.Retrieve(out[i].value);
      r := if v.Some? then Some(Found(v.value)) else None;
    } else {
      r := Some(Deleted);
    }
    if space.Tidy() || space.AllFindable() {
      forall es, threshold: nat | threshold > 0 && Redirected(es, out, threshold, space.issued)
        ensures r == Some(MemGet(es, user, s)) && (Sorted(KeyOrder(), es) ==> Answers(es, user, s, r.value))
      {
        SameAnswer(es, out, threshold, space.issued, user, s, r);
        if Sorted(KeyOrder(), es) {
          RedirectedEntries(es, out, threshold, space.issued);
          MemGetAnswers(es, user, s, r.value);
        }
      }
    }
  }

  lemma RedirectedEntries(es: seq<KV>, out: seq<KV>, threshold: nat, issued: map<LS.Delegate, Bytes>)
    requires Redirected(es, out, threshold, issued)
    ensures MemEntries(es)
  {
  }

  /** The answer from the table, given what retrieving the value of the entry found would give. */
  lemma SameAnswer(es: seq<KV>, out: seq<KV>, threshold: nat, issued: map<LS.Delegate, Bytes>, user: Bytes, s: SeqNum, r: Option<Answer>)
    requires Redirected(es, out, threshold, issued) && threshold > 0
    requires var i := SeekOf(KeyOrder(), out, LookupKey(user, s));
             if i == |out| || ParseKey(out[i].key).None? || ParseKey(out[i].key).value.user != user then r == Some(Absent)
             else if ParseKey(out[i].key).value.t == TYPE_VALUE then r == Some(Found(out[i].value))
             else if ParseKey(out[i].key).value.t == TYPE_LARGE then
               forall d :: d in issued && out[i].value == LS.EncodeDelegate(d) ==> r == Some(Found(issued[d]))
             else r == Some(Deleted)
    ensures r == Some(MemGet(es, user, s))
  {
    hide ParseKey, EncodeKey, LS.EncodeDelegate, SeekOf;
    SamePlace(es, out, threshold, issued, user, s);
    var i := SeekOf(KeyOrder(), out, LookupKey(user, s));
    if i < |out| {
      assert Stands(es[i], out[i], threshold, issued) && MemEntry(es[i]);
      if |es[i].value| >= threshold {
        KeyRoundTrip(ParseKey(es[i].key).value.(t := TYPE_LARGE));
      }
    }
  }
}
