/**
 * The iterator that clients see (db/db_iter.cc): it walks a list of internal entries and shows one entry per
 * user key.
 *
 * User keys are ranks, as elsewhere.  Walking forward the source has no case for large values and passes over
 * them; walking backward it shows them with the value that is stored.  Both are modelled as they are.
 */
module DbIter {
  import opened Basics

  datatype Kind = Deletion | Value | Large

  datatype Item = Item(user: real, sn: nat, kind: Kind, value: Bytes)

  predicate ItemsSorted(es: seq<Item>) {
    forall i, j :: 0 <= i < j < |es| ==> es[i].user < es[j].user || (es[i].user == es[j].user && es[i].sn > es[j].sn)
  }

  /** The entry is visible at the snapshot; large says whether large values count. */
  predicate Seen(e: Item, s: nat, large: bool) {
    e.sn <= s && (large || e.kind != Large)
  }

  /** Entry i is the newest visible one of its user key, and not a deletion. */
  predicate Yields(es: seq<Item>, s: nat, large: bool, i: int) {
    && 0 <= i < |es| && Seen(es[i], s, large) && es[i].kind != Deletion
    && forall j :: 0 <= j < i && es[j].user == es[i].user ==> !Seen(es[j], s, large)
  }

  /** q is the first entry from position p on that is shown when walking forward and has a user key above after. */
  ghost predicate IsNext(es: seq<Item>, s: nat, p: nat, after: Option<real>, q: Option<nat>) {
    match q
    case None => forall i :: p <= i < |es| && Above(es[i], after) ==> !Yields(es, s, false, i)
    case Some(n) => p <= n && Yields(es, s, false, n) && Above(es[n], after) && forall i :: p <= i < n && Above(es[i], after) ==> !Yields(es, s, false, i)
  }

  predicate Above(e: Item, after: Option<real>) {
    after.None? || after.value < e.user
  }

  /** q is the last entry before position p that is shown when walking backward. */
  ghost predicate IsPrev(es: seq<Item>, s: nat, p: nat, q: Option<nat>) {
    match q
    case None => forall i :: 0 <= i < p ==> !Yields(es, s, true, i)
    case Some(n) => n < p && Yields(es, s, true, n) && forall i :: n < i < p ==> !Yields(es, s, true, i)
  }

  // ---------------------------------------------------------------------------------------
  // Forward

  /** What the forward scan keeps while it stands at q, having started at p with the key skip0 hidden. */
  ghost predicate Scanning(es: seq<Item>, s: nat, p: nat, skip0: Option<real>, q: nat, skip: Option<real>) {
    && p <= q <= |es|
    && (forall i :: q <= i < |es| && skip.Some? ==> skip.value <= es[i].user)
    && (forall i :: p <= i < q && Above(es[i], skip0) ==> !Yields(es, s, false, i))
    && (forall j, i :: 0 <= j < q <= i < |es| && es[j].user == es[i].user && Seen(es[j], s, false) ==> skip == Some(es[i].user))
    && (skip != skip0 ==> skip.Some? && (skip0.Some? ==> skip0.value < skip.value) && Deleted(es, s, q, skip.value))
  }

  /** Some visible entry of the user key before q is a deletion, so nothing of that key from q on is shown. */
  ghost predicate Deleted(es: seq<Item>, s: nat, q: nat, user: real) {
    exists j :: 0 <= j < q && j < |es| && es[j].user == user && Seen(es[j], s, false)
  }

  predicate Shown(e: Item, s: nat, skip: Option<real>) {
    Seen(e, s, false) && e.kind == Value && Above(e, skip)
  }

  function Skip(e: Item, s: nat, skip: Option<real>): (skip': Option<real>) {
    if Seen(e, s, false) && e.kind == Deletion then Some(e.user) else skip
  }

  lemma ScanShown(es: seq<Item>, s: nat, p: nat, skip0: Option<real>, q: nat, skip: Option<real>)
    requires ItemsSorted(es) && Scanning(es, s, p, skip0, q, skip) && q < |es| && Shown(es[q], s, skip)
    ensures Yields(es, s, false, q) && Above(es[q], skip0)
  {
  }

  lemma ScanHidden(es: seq<Item>, s: nat, p: nat, skip0: Option<real>, q: nat, skip: Option<real>)
    requires ItemsSorted(es) && Scanning(es, s, p, skip0, q, skip) && q < |es| && !Shown(es[q], s, skip)
    ensures Scanning(es, s, p, skip0, q + 1, Skip(es[q], s, skip))
  {
    var e, skip' := es[q], Skip(es[q], s, skip);
    assert !(Above(e, skip0) && Yields(es, s, false, q)) by {
      if skip != skip0 && !Above(e, skip) {
        var j :| 0 <= j < q && es[j].user == skip.value && Seen(es[j], s, false);
      }
    }
    if Seen(e, s, false) && e.kind == Deletion && skip' != skip0 {
      assert Deleted(es, s, q + 1, e.user);
    } else if skip != skip0 {
      var j :| 0 <= j < q && j < |es| && es[j].user == skip.value && Seen(es[j], s, false);
      assert Deleted(es, s, q + 1, skip.value);
    }
  }

  lemma ScanEnds(es: seq<Item>, s: nat, p: nat, skip0: Option<real>, q: nat, skip: Option<real>)
    requires Scanning(es, s, p, skip0, q, skip)
    ensures q == |es| ==> IsNext(es, s, p, skip0, None)
    ensures q < |es| && Yields(es, s, false, q) && Above(es[q], skip0) ==> IsNext(es, s, p, skip0, Some(q))
  {
  }

  class Iter {
    const es: seq<Item>
    const s: nat
    /** The internal iterator. */
    var pos: Option<nat>
    var forward: bool
    var valid: bool
    var savedKey: real
    var savedValue: Bytes
    /** The entry shown. */
    ghost var cur: nat

    ghost predicate Valid()
      reads this
    {
      && ItemsSorted(es) && (pos.Some? ==> pos.value < |es|)
      && (valid && forward ==> pos == Some(cur) && Yields(es, s, false, cur))
      && (valid && !forward ==>
            && Yields(es, s, true, cur) && savedKey == es[cur].user && savedValue == es[cur].value
            && Before(es, s, pos, cur))
    }

    constructor (es: seq<Item>, s: nat)
      requires ItemsSorted(es)
      ensures Valid() && !valid && this.es == es && this.s == s
    {
      this.es, this.s, pos, forward, valid, savedKey, savedValue, cur := es, s, None, true, false, 0.0, [], 0;
    }

    function Key(): (k: real)
      reads this
      requires Valid() && valid
      ensures k == es[cur].user
    {
      if forward then es[pos.value].user else savedKey
    }

    function Value(): (v: Bytes)
      reads this
      requires Valid() && valid
      ensures v == es[cur].value
    {
      if forward then es[pos.value].value else savedValue
    }

    /** Scan forward from the internal iterator for an entry to show. */
    method FindNextUserEntry(skip0: Option<real>)
      requires ItemsSorted(es) && forward && pos.Some? && pos.value < |es| && Scanning(es, s, pos.value, skip0, pos.value, skip0)
      modifies this
      ensures Valid() && forward && IsNext(es, s, old(pos).value, skip0, if valid then Some(cur) else None)
    {
      hide Scanning, Yields;
      ghost var p := pos.value;
      var skip, q := skip0, pos.value;
      while q < |es|
        invariant p <= q <= |es| && forward && Scanning(es, s, p, skip0, q, skip)
      {
        var e := es[q];
        if Seen(e, s, false) && e.kind == Deletion {
          ScanHidden(es, s, p, skip0, q, skip);
          skip := Some(e.user);
        } else if Shown(e, s, skip) {
          ScanShown(es, s, p, skip0, q, skip);
          ScanEnds(es, s, p, skip0, q, skip);
          pos, valid, cur := Some(q), true, q;
          return;
        } else {
          ScanHidden(es, s, p, skip0, q, skip);
        }
        q := q + 1;
      }
      ScanEnds(es, s, p, skip0, q, skip);
      pos, valid := None, false;
    }

    method SeekToFirst()
      requires Valid()
      modifies this
      ensures Valid() && forward && IsNext(es, s, 0, None, if valid then Some(cur) else None)
    {
      hide Yields;
      forward := true;
      pos := if |es| > 0 then Some(0) else None;
      if pos.Some? {
        FindNextUserEntry(None);
      } else {
        valid := false;
      }
    }

    /** Seek: the first entry shown whose user key is at or after the target. */
    method Seek(target: real)
      requires Valid()
      modifies this
      ensures Valid() && forward && (valid ==> es[cur].user >= target)
      ensures forall i :: Yields(es, s, false, i) && es[i].user >= target ==> valid && cur <= i
    {
      hide Yields, Scanning;
      forward := true;
      var p := 0;
      while p < |es| && (es[p].user < target || (es[p].user == target && es[p].sn > s))
        invariant p <= |es| && ItemsSorted(es) && forward
        invariant forall j :: 0 <= j < p ==> es[j].user < target || (es[j].user == target && es[j].sn > s)
      {
        p := p + 1;
      }
      PassedOver(es, s, target, p);
      if p < |es| {
        pos := Some(p);
        SeekStarts(es, s, target, p);
        FindNextUserEntry(None);
        SeekResult(es, s, target, p, if valid then Some(cur) else None);
      } else {
        SeekResult(es, s, target, p, None);
        pos, valid := None, false;
      }
    }

    /**
     * Next.  Right after moving backward it gives the next entry shown if and only if nothing is interposed before
     * the current key or walking forward does not show the key; otherwise it shows the current key again.
     */
    method Next()
      requires Valid() && valid
      modifies this
      ensures Valid() && forward
      ensures old(forward) ==> IsNext(es, s, 0, Some(es[old(cur)].user), if valid then Some(cur) else None)
      ensures !old(forward) ==>
                var key := es[old(cur)].user;
                && (IsNext(es, s, 0, Some(key), if valid then Some(cur) else None) <==> !Interposed(es, s, key) || !ShownForward(es, s, key))
                && (Interposed(es, s, key) && ShownForward(es, s, key) ==> valid && es[cur].user == key)
    {
      hide Scanning, Interposed, ShownForward;
      ghost var c := cur;
      if !forward {
        forward := true;
        pos := Some(if pos.None? then 0 else pos.value + 1);
      }
      ghost var m := pos.value;
      var skip := es[pos.value].user;
      NextStarts(es, s, pos.value);
      FindNextUserEntry(Some(skip));
      ghost var q := if valid then Some(cur) else None;
      if skip == es[c].user {
        FromStart(es, s, m, skip, q);
      }
      if !old(forward) {
        InterposedIs(es, s, old(pos), c);
        if skip != es[c].user {
          TurnedRound(es, s, m, c, q);
        }
      }
    }

    /** Scan backward from the internal iterator for an entry to show. */
    method FindPrevUserEntry()
      requires ItemsSorted(es) && !forward && (pos.Some? ==> pos.value < |es| && Handled(es, s, pos.value))
      modifies this
      ensures Valid() && IsPrev(es, s, if old(pos).Some? then old(pos).value + 1 else 0, if valid then Some(cur) else None)
      ensures forward <==> !valid
    {
      hide Yields, Back;
      var q: int := if pos.Some? then pos.value else -1;
      ghost var p := q;
      var found, c := false, 0;
      BackStarts(es, s, p);
      while q >= 0
        invariant -1 <= q <= p < |es| && !forward && Back(es, s, p, q, found, c) && (found ==> 0 <= c < |es| && savedKey == es[c].user && savedValue == es[c].value)
      {
        var e := es[q];
        if e.sn <= s {
          if found && e.user < savedKey {
            BackStops(es, s, p, q, c);
            pos, valid, cur := Some(q), true, c;
            return;
          }
          BackSeen(es, s, p, q, found, c);
          found, c := e.kind != Deletion, q;
          if found {
            savedKey, savedValue := e.user, e.value;
          }
        } else {
          BackUnseen(es, s, p, q, found, c);
        }
        q := q - 1;
      }
      BackEnds(es, s, p, found, c);
      pos, valid := None, found;
      if found {
        cur := c;
      } else {
        forward := true;
      }
    }

    method SeekToLast()
      requires Valid()
      modifies this
      ensures Valid() && IsPrev(es, s, |es|, if valid then Some(cur) else None) && (forward <==> !valid)
    {
      hide Yields;
      forward, valid := false, false;
      pos := if |es| > 0 then Some(|es| - 1) else None;
      FindPrevUserEntry();
    }

    /** Prev, also right after moving forward: the last entry shown below the current key. */
    method Prev()
      requires Valid() && valid
      modifies this
      ensures Valid() && (valid ==> !forward && Yields(es, s, true, cur) && es[cur].user < es[old(cur)].user)
      ensures forall i :: Yields(es, s, true, i) && es[i].user < es[old(cur)].user ==> valid && i <= cur
    {
      hide Before;
      ghost var c := cur;
      if forward {
        savedKey := es[pos.value].user;
        var q: int := pos.value;
        while q >= 0 && es[q].user >= savedKey
          invariant -1 <= q <= c && ItemsSorted(es) && forward && savedKey == es[c].user
          invariant forall i :: q < i <= c ==> es[i].user == savedKey
        {
          q := q - 1;
        }
        if q < 0 {
          Below(es, s, None, c, None);
          pos, valid, savedValue := None, false, [];
          return;
        }
        pos := Some(q);
        forward := false;
        HandledBelow(es, s, q, c);
      } else {
        HandledBefore(es, s, pos, c);
      }
      ghost var p := pos;
      FindPrevUserEntry();
      Below(es, s, p, c, if valid then Some(cur) else None);
    }
  }

  lemma PassedOver(es: seq<Item>, s: nat, target: real, p: nat)
    requires p <= |es| && forall j :: 0 <= j < p ==> es[j].user < target || (es[j].user == target && es[j].sn > s)
    ensures forall i :: Yields(es, s, false, i) && es[i].user >= target ==> p <= i
  {
  }

  lemma SeekStarts(es: seq<Item>, s: nat, target: real, p: nat)
    requires ItemsSorted(es) && p < |es| && !(es[p].user < target || (es[p].user == target && es[p].sn > s))
    requires forall j :: 0 <= j < p ==> es[j].user < target || (es[j].user == target && es[j].sn > s)
    ensures Scanning(es, s, p, None, p, None) && forall i :: p <= i < |es| ==> es[i].user >= target
  {
  }

  lemma SeekResult(es: seq<Item>, s: nat, target: real, p: nat, q: Option<nat>)
    requires IsNext(es, s, p, None, q) && (forall i :: Yields(es, s, false, i) && es[i].user >= target ==> p <= i)
    ensures forall i :: Yields(es, s, false, i) && es[i].user >= target ==> q.Some? && q.value <= i
  {
  }

  lemma NextStarts(es: seq<Item>, s: nat, p: nat)
    requires ItemsSorted(es) && p < |es|
    ensures Scanning(es, s, p, Some(es[p].user), p, Some(es[p].user))
  {
  }

  /** Nothing before the current entry has a user key above it. */
  lemma FromStart(es: seq<Item>, s: nat, m: nat, skip: real, q: Option<nat>)
    requires ItemsSorted(es) && m < |es| && es[m].user == skip && IsNext(es, s, m, Some(skip), q)
    ensures IsNext(es, s, 0, Some(skip), q)
  {
    hide Yields;
    assert forall i :: 0 <= i < m ==> es[i].user <= es[m].user;
  }

  /** Walking forward shows some entry of the user key. */
  ghost predicate ShownForward(es: seq<Item>, s: nat, key: real) {
    exists i :: Yields(es, s, false, i) && es[i].user == key
  }

  /** Entry i is too new for the snapshot, and its user key lies between the visible ones below key and key. */
  ghost predicate InterposedAt(es: seq<Item>, s: nat, key: real, i: int) {
    && 0 <= i < |es| && es[i].sn > s && es[i].user < key
    && forall j :: 0 <= j < |es| && es[j].sn <= s && es[j].user < key ==> es[j].user < es[i].user
  }

  ghost predicate Interposed(es: seq<Item>, s: nat, key: real) {
    exists i :: InterposedAt(es, s, key, i)
  }

  /** In reverse, the entry after the internal iterator has another user key exactly when something is interposed. */
  lemma InterposedIs(es: seq<Item>, s: nat, pos: Option<nat>, c: nat)
    requires ItemsSorted(es) && c < |es| && Before(es, s, pos, c)
    ensures es[if pos.Some? then pos.value + 1 else 0].user != es[c].user <==> Interposed(es, s, es[c].user)
  {
    var m := if pos.Some? then pos.value + 1 else 0;
    if es[m].user != es[c].user {
      assert !Seen(es[m], s, true);
      forall j | 0 <= j < |es| && es[j].sn <= s && es[j].user < es[c].user ensures es[j].user < es[m].user {
        assert m <= j < c ==> Seen(es[j], s, true);
      }
      assert InterposedAt(es, s, es[c].user, m);
    }
    if i :| InterposedAt(es, s, es[c].user, i) {
      assert m <= i < c;
    }
  }

  /** Turning round in front of entries of another key. */
  lemma TurnedRound(es: seq<Item>, s: nat, m: nat, c: nat, q: Option<nat>)
    requires ItemsSorted(es) && m <= c < |es| && es[m].user != es[c].user
    requires forall i :: m <= i < c && Seen(es[i], s, true) ==> es[i].user == es[c].user
    requires IsNext(es, s, m, Some(es[m].user), q)
    ensures IsNext(es, s, 0, Some(es[c].user), q) <==> !ShownForward(es, s, es[c].user)
    ensures ShownForward(es, s, es[c].user) ==> q.Some? && es[q.value].user == es[c].user
  {
    assert es[m].user < es[c].user;
    assert forall i :: Yields(es, s, false, i) && m <= i && es[i].user < es[c].user ==> Seen(es[i], s, true);
    if i :| Yields(es, s, false, i) && es[i].user == es[c].user {
      assert m <= i && Above(es[i], Some(es[m].user));
      assert q.Some? && es[q.value].user == es[c].user;
    } else {
      assert forall i :: Yields(es, s, false, i) && Above(es[i], Some(es[c].user)) ==> m <= i;
    }
  }

  /** Without entries newer than the snapshot nothing is interposed. */
  lemma NothingInterposed(es: seq<Item>, s: nat, key: real)
    requires forall i :: 0 <= i < |es| ==> es[i].sn <= s
    ensures !Interposed(es, s, key)
  {
  }

  // ---------------------------------------------------------------------------------------
  // Backward

  /** No visible entry of the key at p comes after p. */
  ghost predicate Handled(es: seq<Item>, s: nat, p: nat)
    requires p < |es|
  {
    forall i :: p < i < |es| && es[i].user == es[p].user ==> !Seen(es[i], s, true)
  }

  /** Entry i is hidden by a newer visible entry of its key between q and i. */
  ghost predicate Covered(es: seq<Item>, s: nat, q: int, i: int) {
    exists j :: q < j < i && 0 <= j < |es| && i < |es| && es[j].user == es[i].user && Seen(es[j], s, true)
  }

  /** What the backward scan keeps when q is next, having started at p; c is the entry saved last, if found. */
  ghost predicate Back(es: seq<Item>, s: nat, p: int, q: int, found: bool, c: int) {
    && -1 <= q <= p < |es|
    && (forall i :: q < i <= p && 0 <= i && Seen(es[i], s, true) && es[i].kind != Deletion && !(found && i == c) ==> Covered(es, s, q, i))
    && (found ==> q < c <= p && Seen(es[c], s, true) && es[c].kind != Deletion && forall i :: q < i < c && 0 <= i ==> !Seen(es[i], s, true))
  }

  lemma BackStarts(es: seq<Item>, s: nat, p: int)
    requires -1 <= p < |es|
    ensures Back(es, s, p, p, false, 0)
  {
  }

  lemma BackUnseen(es: seq<Item>, s: nat, p: int, q: int, found: bool, c: int)
    requires Back(es, s, p, q, found, c) && 0 <= q && es[q].sn > s
    ensures Back(es, s, p, q - 1, found, c)
  {
    forall i | q - 1 < i <= p && Seen(es[i], s, true) && es[i].kind != Deletion && !(found && i == c) ensures Covered(es, s, q - 1, i) {
      assert Covered(es, s, q, i);
    }
  }

  /** A visible entry of the saved key, or any visible entry when nothing is saved, takes over. */
  lemma BackSeen(es: seq<Item>, s: nat, p: int, q: int, found: bool, c: int)
    requires ItemsSorted(es) && Back(es, s, p, q, found, c) && 0 <= q && es[q].sn <= s && (found ==> 0 <= c < |es| && es[q].user >= es[c].user)
    ensures Back(es, s, p, q - 1, es[q].kind != Deletion, q)
  {
    forall i | q - 1 < i <= p && Seen(es[i], s, true) && es[i].kind != Deletion && i != q ensures Covered(es, s, q - 1, i) {
      if found && i == c {
        assert es[q].user == es[i].user && Seen(es[q], s, true);
      } else {
        assert Covered(es, s, q, i);
      }
    }
  }

  lemma CoveredHides(es: seq<Item>, s: nat, q: int, i: int)
    requires Covered(es, s, q, i) && -1 <= q
    ensures !Yields(es, s, true, i)
  {
  }

  lemma BackStops(es: seq<Item>, s: nat, p: int, q: int, c: int)
    requires ItemsSorted(es) && Back(es, s, p, q, true, c) && 0 <= q && es[q].sn <= s && es[q].user < es[c].user
    ensures Yields(es, s, true, c) && IsPrev(es, s, p + 1, Some(c)) && Before(es, s, Some(q), c)
  {
    NoneAfter(es, s, p, q, true, c);
  }

  lemma NoneAfter(es: seq<Item>, s: nat, p: int, q: int, found: bool, c: int)
    requires Back(es, s, p, q, found, c)
    ensures forall i :: q < i <= p && !(found && i == c) ==> !Yields(es, s, true, i)
  {
    forall i | q < i <= p && !(found && i == c) ensures !Yields(es, s, true, i) {
      if 0 <= i && Seen(es[i], s, true) && es[i].kind != Deletion {
        CoveredHides(es, s, q, i);
      }
    }
  }

  lemma BackEnds(es: seq<Item>, s: nat, p: int, found: bool, c: int)
    requires ItemsSorted(es) && Back(es, s, p, -1, found, c)
    ensures found ==> 0 <= c && Yields(es, s, true, c) && IsPrev(es, s, p + 1, Some(c)) && Before(es, s, None, c)
    ensures !found ==> IsPrev(es, s, p + 1, None)
  {
    NoneAfter(es, s, p, -1, found, c);
  }

  lemma HandledBelow(es: seq<Item>, s: nat, q: nat, c: nat)
    requires ItemsSorted(es) && q < c < |es| && es[q].user < es[c].user && forall i :: q < i <= c ==> es[i].user == es[c].user
    ensures Handled(es, s, q)
  {
  }

  lemma HandledBefore(es: seq<Item>, s: nat, pos: Option<nat>, c: nat)
    requires ItemsSorted(es) && c < |es| && Before(es, s, pos, c)
    ensures pos.Some? ==> pos.value < |es| && Handled(es, s, pos.value)
    ensures pos.Some? ==> pos.value < c && es[pos.value].user < es[c].user
    ensures var from := if pos.Some? then pos.value + 1 else 0;
            forall i :: from <= i < c && es[i].user < es[c].user ==> !Seen(es[i], s, true)
  {
  }

  /** What is found below the internal iterator is what is below the current key. */
  lemma Below(es: seq<Item>, s: nat, pos: Option<nat>, c: nat, q: Option<nat>)
    requires ItemsSorted(es) && c < |es| && IsPrev(es, s, if pos.Some? then pos.value + 1 else 0, q)
    requires pos.Some? ==> pos.value < c && es[pos.value].user < es[c].user
    requires var from := if pos.Some? then pos.value + 1 else 0;
             forall i :: from <= i < c && es[i].user < es[c].user ==> !Seen(es[i], s, true)
    ensures q.Some? ==> es[q.value].user < es[c].user
    ensures forall i :: Yields(es, s, true, i) && es[i].user < es[c].user ==> q.Some? && i <= q.value
  {
  }


  /** In reverse the internal iterator is before the entry shown, and only entries of its key are visible in between. */
  ghost predicate Before(es: seq<Item>, s: nat, pos: Option<nat>, cur: nat)
    requires cur < |es|
  {
    var from := if pos.Some? then pos.value + 1 else 0;
    && from <= cur
    && (forall i :: from <= i < cur && Seen(es[i], s, true) ==> es[i].user == es[cur].user)
    && (pos.Some? ==> pos.value < |es| && es[pos.value].user < es[cur].user && es[pos.value].sn <= s)
  }

  // ---------------------------------------------------------------------------------------
  // Whole traversals

  /** Entry i carries the greatest visible sequence number of its user key, and is not a deletion. */
  predicate Newest(es: seq<Item>, s: nat, i: int) {
    && 0 <= i < |es| && es[i].sn <= s && es[i].kind != Deletion
    && forall j :: 0 <= j < |es| && es[j].user == es[i].user && es[j].sn <= s ==> es[j].sn <= es[i].sn
  }

  /** Walking backward shows exactly the visible user map. */
  lemma BackwardIsVisible(es: seq<Item>, s: nat, i: int)
    requires ItemsSorted(es)
    ensures Yields(es, s, true, i) <==> Newest(es, s, i)
  {
  }

  /** Walking forward shows the visible user map if and only if no user key's newest visible entry is a large value. */
  lemma ForwardIsVisible(es: seq<Item>, s: nat)
    requires ItemsSorted(es)
    ensures (forall i :: Yields(es, s, false, i) <==> Newest(es, s, i)) <==> (forall i :: Newest(es, s, i) ==> es[i].kind != Large)
  {
    hide ItemsSorted;
    if forall i :: Newest(es, s, i) ==> es[i].kind != Large {
      forall i ensures Yields(es, s, false, i) <==> Newest(es, s, i) {
        BackwardIsVisible(es, s, i);
        if Yields(es, s, false, i) {
          NothingLargeBefore(es, s, i);
        }
      }
    } else {
      var i :| Newest(es, s, i) && es[i].kind == Large;
      assert !Yields(es, s, false, i);
    }
  }

  /** q is the first entry of the visible map above the key. */
  ghost predicate IsSuccessor(es: seq<Item>, s: nat, key: real, q: Option<nat>) {
    && (q.Some? ==> Newest(es, s, q.value) && es[q.value].user > key)
    && (forall i :: Newest(es, s, i) && es[i].user > key ==> q.Some? && es[q.value].user <= es[i].user)
  }

  /** Without large values the next entry shown is the true successor in the visible map. */
  lemma NextIsSuccessor(es: seq<Item>, s: nat, key: real, q: Option<nat>)
    requires ItemsSorted(es) && (forall i :: 0 <= i < |es| ==> es[i].kind != Large) && IsNext(es, s, 0, Some(key), q)
    ensures IsSuccessor(es, s, key, q)
  {
    hide Newest, Yields;
    NewestBounds(es, s);
    ForwardIsVisible(es, s);
  }

  lemma NewestBounds(es: seq<Item>, s: nat)
    ensures forall i :: Newest(es, s, i) ==> 0 <= i < |es|
  {
  }

  /** Next right after Prev or SeekToLast, when no entry is newer than the snapshot and none is a large value. */
  method NextAfterPrev(it: Iter) returns (found: bool)
    requires it.Valid() && it.valid && !it.forward
    requires forall i :: 0 <= i < |it.es| ==> it.es[i].sn <= it.s && it.es[i].kind != Large
    modifies it
    ensures it.Valid() && found == it.valid
    ensures IsSuccessor(it.es, it.s, it.es[old(it.cur)].user, if it.valid then Some(it.cur) else None)
  {
    hide Yields, IsNext, Interposed, ShownForward, IsSuccessor;
    YieldBounds(it.es, it.s, true, it.cur);
    ghost var key := it.es[it.cur].user;
    it.Next();
    NothingInterposed(it.es, it.s, key);
    NextIsSuccessor(it.es, it.s, key, if it.valid then Some(it.cur) else None);
    found := it.valid;
  }

  /**
   * Key 1 was written after the snapshot; key 2 has a large value and an older plain one.  SeekToLast shows key 2 with
   * its newest value, and Next shows key 2 again, with the older one.
   */
  method ShowsTwice() returns (first: (real, Bytes), second: (real, Bytes))
    ensures first == (2.0, [4]) && second == (2.0, [3])
  {
    var es := [Item(1.0, 9, Value, [9]), Item(2.0, 4, Large, [4]), Item(2.0, 3, Value, [3])];
    var it := new Iter(es, 5);
    it.SeekToLast();
    TwiceFacts(es);
    first := (it.Key(), it.Value());
    it.Next();
    second := (it.Key(), it.Value());
  }

  lemma TwiceFacts(es: seq<Item>)
    requires es == [Item(1.0, 9, Value, [9]), Item(2.0, 4, Large, [4]), Item(2.0, 3, Value, [3])]
    ensures Yields(es, 5, true, 1) && (forall i :: Yields(es, 5, true, i) ==> i == 1)
    ensures Yields(es, 5, false, 2) && (forall i :: Yields(es, 5, false, i) ==> i == 2)
    ensures Interposed(es, 5, 2.0) && ShownForward(es, 5, 2.0)
  {
    assert InterposedAt(es, 5, 2.0, 0);
  }

  lemma {:induction false} NothingLargeBefore(es: seq<Item>, s: nat, i: int)
    requires ItemsSorted(es) && Yields(es, s, false, i) && forall k :: Newest(es, s, k) ==> es[k].kind != Large
    ensures Yields(es, s, true, i)
  {
    hide ItemsSorted, Newest;
    if !Yields(es, s, true, i) {
      var j :| 0 <= j < i && es[j].user == es[i].user && Seen(es[j], s, true);
      var k := FirstSeen(es, s, j);
      assert !Seen(es[k], s, false);
      assert Yields(es, s, true, k);
      BackwardIsVisible(es, s, k);
    }
  }

  /** The first visible entry of the user key of entry j. */
  lemma {:induction false} FirstSeen(es: seq<Item>, s: nat, j: nat) returns (k: nat)
    requires j < |es| && Seen(es[j], s, true)
    ensures k <= j && es[k].user == es[j].user && Seen(es[k], s, true)
    ensures forall i :: 0 <= i < k && es[i].user == es[j].user ==> !Seen(es[i], s, true)
    decreases j
  {
    if i :| 0 <= i < j && es[i].user == es[j].user && Seen(es[i], s, true) {
      k := FirstSeen(es, s, i);
    } else {
      k := j;
    }
  }

  ghost predicate Ascending(es: seq<Item>, out: seq<nat>) {
    && (forall k :: 0 <= k < |out| ==> out[k] < |es|)
    && (forall j, k :: 0 <= j < k < |out| ==> es[out[j]].user < es[out[k]].user)
  }

  ghost predicate Descending(es: seq<Item>, out: seq<nat>) {
    && (forall k :: 0 <= k < |out| ==> out[k] < |es|)
    && (forall j, k :: 0 <= j < k < |out| ==> es[out[j]].user > es[out[k]].user)
  }

  /** Two entries shown in the same direction have different user keys. */
  lemma OnePerKey(es: seq<Item>, s: nat, large: bool, i: int, j: int)
    requires Yields(es, s, large, i) && Yields(es, s, large, j) && es[i].user == es[j].user
    ensures i == j
  {
  }

  /** SeekToFirst and Next until the end: every entry to be shown, once, in ascending order of user keys. */
  method Forward(it: Iter) returns (ghost out: seq<nat>, pairs: seq<(real, Bytes)>)
    requires it.Valid()
    modifies it
    ensures Ascending(it.es, out) && forall i :: i in out <==> Yields(it.es, it.s, false, i)
    ensures |pairs| == |out| && forall k :: 0 <= k < |out| ==> pairs[k] == (it.es[out[k]].user, it.es[out[k]].value)
  {
    hide Yields, ItemsSorted;
    out, pairs := [], [];
    it.SeekToFirst();
    ghost var es, s := it.es, it.s;
    FirstCollected(es, s, if it.valid then Some(it.cur) else None);
    while it.valid
      invariant it.Valid() && it.forward && Ascending(es, out) && Collected(es, s, out, if it.valid then Some(it.cur) else None)
      invariant |pairs| == |out| && forall k :: 0 <= k < |out| ==> pairs[k] == (es[out[k]].user, es[out[k]].value)
      decreases |es| - |out|, it.valid
    {
      ghost var c := it.cur;
      YieldBounds(es, s, false, c);
      Room(es, out, c, s);
      pairs := pairs + [(it.Key(), it.Value())];
      it.Next();
      CollectedMore(es, s, out, c, if it.valid then Some(it.cur) else None);
      out := out + [c];
    }
    AllCollected(es, s, out);
  }

  lemma YieldBounds(es: seq<Item>, s: nat, large: bool, i: int)
    requires Yields(es, s, large, i)
    ensures 0 <= i < |es|
  {
  }

  /** out holds the entries to be shown before next, and next is the one after them. */
  ghost predicate Collected(es: seq<Item>, s: nat, out: seq<nat>, next: Option<nat>) {
    && (forall k :: 0 <= k < |out| ==> Yields(es, s, false, out[k]))
    && (forall i :: Yields(es, s, false, i) ==> i in out || (next.Some? && next.value < |es| && es[next.value].user <= es[i].user))
    && (next.Some? ==> next.value < |es| && forall k :: 0 <= k < |out| ==> out[k] < |es| && es[out[k]].user < es[next.value].user)
  }

  lemma FirstCollected(es: seq<Item>, s: nat, next: Option<nat>)
    requires ItemsSorted(es) && IsNext(es, s, 0, None, next)
    ensures Collected(es, s, [], next)
  {
  }

  lemma CollectedMore(es: seq<Item>, s: nat, out: seq<nat>, c: nat, next: Option<nat>)
    requires ItemsSorted(es) && Ascending(es, out) && Collected(es, s, out, Some(c)) && Yields(es, s, false, c) && IsNext(es, s, 0, Some(es[c].user), next)
    ensures Ascending(es, out + [c]) && Collected(es, s, out + [c], next)
  {
    hide Yields;
    AllBounds(es, s);
    var out' := out + [c];
    forall i | Yields(es, s, false, i) ensures i in out' || (next.Some? && next.value < |es| && es[next.value].user <= es[i].user) {
      if i in out {
        assert i in out';
      } else if es[i].user == es[c].user {
        OnePerKey(es, s, false, i, c);
        assert out'[|out|] == c;
      }
    }
  }

  lemma AllBounds(es: seq<Item>, s: nat)
    ensures forall i :: Yields(es, s, false, i) ==> 0 <= i < |es|
  {
  }

  lemma AllCollected(es: seq<Item>, s: nat, out: seq<nat>)
    requires Collected(es, s, out, None)
    ensures forall i :: i in out <==> Yields(es, s, false, i)
  {
    hide Yields;
  }

  /** There are never more entries collected than there are entries. */
  lemma Room(es: seq<Item>, out: seq<nat>, c: nat, s: nat)
    requires ItemsSorted(es) && Ascending(es, out) && Collected(es, s, out, Some(c))
    ensures |out| < |es|
  {
    hide Yields;
    assert forall j, k :: 0 <= j < k < |out| ==> out[j] < out[k];
    IndexGrows(out, |out|, |es|);
    if |out| > 0 {
      assert out[|out| - 1] < c;
    }
  }

  lemma {:induction false} IndexGrows(out: seq<nat>, n: nat, bound: nat)
    requires n <= |out| && (forall j, k :: 0 <= j < k < |out| ==> out[j] < out[k])
    ensures n > 0 ==> out[n - 1] >= n - 1
  {
    if n > 1 {
      IndexGrows(out, n - 1, bound);
    }
  }

  /** SeekToLast and Prev until the end: every entry to be shown, once, in descending order of user keys. */
  method Backward(it: Iter) returns (ghost out: seq<nat>, pairs: seq<(real, Bytes)>)
    requires it.Valid()
    modifies it
    ensures Descending(it.es, out) && forall i :: i in out <==> Newest(it.es, it.s, i)
    ensures |pairs| == |out| && forall k :: 0 <= k < |out| ==> pairs[k] == (it.es[out[k]].user, it.es[out[k]].value)
  {
    hide Yields, ItemsSorted, Newest;
    out, pairs := [], [];
    it.SeekToLast();
    ghost var es, s := it.es, it.s;
    LastGathered(es, s, if it.valid then Some(it.cur) else None);
    while it.valid
      invariant it.Valid() && (it.valid ==> !it.forward) && Descending(es, out) && Gathered(es, s, out, if it.valid then Some(it.cur) else None)
      invariant |pairs| == |out| && forall k :: 0 <= k < |out| ==> pairs[k] == (es[out[k]].user, es[out[k]].value)
      decreases it.valid, if it.valid then it.cur else 0
    {
      ghost var c := it.cur;
      YieldBounds(es, s, true, c);
      pairs := pairs + [(it.Key(), it.Value())];
      it.Prev();
      if it.valid {
        YieldBounds(es, s, true, it.cur);
        Earlier(es, it.cur, c);
      }
      GatheredMore(es, s, out, c, if it.valid then Some(it.cur) else None);
      out := out + [c];
    }
    AllGathered(es, s, out);
  }

  lemma Earlier(es: seq<Item>, i: nat, j: nat)
    requires ItemsSorted(es) && i < |es| && j < |es| && es[i].user < es[j].user
    ensures i < j
  {
  }

  ghost predicate Gathered(es: seq<Item>, s: nat, out: seq<nat>, next: Option<nat>) {
    && (forall k :: 0 <= k < |out| ==> Yields(es, s, true, out[k]))
    && (forall i :: Yields(es, s, true, i) ==> i in out || (next.Some? && next.value < |es| && es[i].user <= es[next.value].user))
    && (next.Some? ==> next.value < |es| && forall k :: 0 <= k < |out| ==> out[k] < |es| && es[next.value].user < es[out[k]].user)
  }

  lemma LastGathered(es: seq<Item>, s: nat, next: Option<nat>)
    requires ItemsSorted(es) && IsPrev(es, s, |es|, next)
    ensures Gathered(es, s, [], next)
  {
  }

  lemma GatheredMore(es: seq<Item>, s: nat, out: seq<nat>, c: nat, next: Option<nat>)
    requires ItemsSorted(es) && Descending(es, out) && Gathered(es, s, out, Some(c)) && Yields(es, s, true, c)
    requires next.Some? ==> next.value < |es| && es[next.value].user < es[c].user
    requires forall i :: Yields(es, s, true, i) && es[i].user < es[c].user ==> next.Some? && i <= next.value
    ensures Descending(es, out + [c]) && Gathered(es, s, out + [c], next)
  {
    var out' := out + [c];
    forall i | Yields(es, s, true, i) ensures i in out' || (next.Some? && next.value < |es| && es[i].user <= es[next.value].user) {
      if i in out {
        assert i in out';
      } else if es[i].user == es[c].user {
        OnePerKey(es, s, true, i, c);
        assert out'[|out|] == c;
      }
    }
  }

  lemma AllGathered(es: seq<Item>, s: nat, out: seq<nat>)
    requires ItemsSorted(es) && Gathered(es, s, out, None)
    ensures forall i :: i in out <==> Newest(es, s, i)
  {
    hide Yields, ItemsSorted, Newest;
    forall i: int ensures i in out <==> Newest(es, s, i) {
      BackwardIsVisible(es, s, i);
    }
  }
}
