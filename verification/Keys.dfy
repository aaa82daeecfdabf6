/**
 * Key bytes (util/comparator.cc, db/dbformat.h, db/dbformat.cc): the bytewise order on user keys, internal
 * keys with their eight-byte trailer, and the shortened separators that index blocks use.
 */
module Keys {
  import opened Basics
  import opened Coding

  // ---------------------------------------------------------------------------------------
  // The bytewise comparator

  /** Compare(a, b) < 0. */
  predicate Less(a: Bytes, b: Bytes)
    decreases |a|
  {
    |b| > 0 && (|a| == 0 || a[0] < b[0] || (a[0] == b[0] && Less(a[1..], b[1..])))
  }

  predicate AtMost(a: Bytes, b: Bytes) {
    a == b || Less(a, b)
  }

  lemma {:induction false} LessIrreflexive(a: Bytes)
    ensures !Less(a, a)
  {
    if |a| > 0 {
      LessIrreflexive(a[1..]);
    }
  }

  lemma {:induction false} LessTransitive(a: Bytes, b: Bytes, c: Bytes)
    requires Less(a, b) && Less(b, c)
    ensures Less(a, c)
    decreases |a|
  {
    if |a| > 0 && a[0] == b[0] == c[0] {
      LessTransitive(a[1..], b[1..], c[1..]);
    }
  }

  lemma {:induction false} LessTotal(a: Bytes, b: Bytes)
    ensures a == b || Less(a, b) || Less(b, a)
    decreases |a|
  {
    if |a| > 0 && |b| > 0 && a[0] == b[0] {
      LessTotal(a[1..], b[1..]);
      assert a == [a[0]] + a[1..] && b == [b[0]] + b[1..];
    }
  }

  lemma LessAsymmetric(a: Bytes, b: Bytes)
    requires Less(a, b)
    ensures !Less(b, a) && a != b
  {
    LessIrreflexive(a);
    if Less(b, a) {
      LessTransitive(a, b, a);
    }
  }

  /** Strings that agree up to i are ordered by what comes at i. */
  lemma {:induction false} LessAt(a: Bytes, b: Bytes, i: nat)
    requires i <= |a| && i < |b| && a[..i] == b[..i]
    requires i == |a| || a[i] != b[i]
    ensures Less(a, b) <==> i == |a| || a[i] < b[i]
    decreases |a|
  {
    if i > 0 {
      assert a[0] == a[..i][0] == b[..i][0] == b[0];
      assert a[1..][..i - 1] == a[..i][1..] == b[..i][1..] == b[1..][..i - 1];
      LessAt(a[1..], b[1..], i - 1);
    }
  }

  /** Start can be shortened at i: the first byte in which it differs from limit leaves room for one in between. */
  predicate Shortens(start: Bytes, limit: Bytes, i: int) {
    0 <= i < |start| && i < |limit| && start[..i] == limit[..i] && start[i] as int + 1 < limit[i] as int
  }

  /**
   * BytewiseComparator::FindShortestSeparator: when the result differs from start it lies strictly between
   * start and limit, and it differs exactly when start can be shortened.
   */
  method FindShortestSeparator(start: Bytes, limit: Bytes) returns (r: Bytes)
    ensures r == start || (Less(start, r) && Less(r, limit) && |r| <= |start|)
    ensures forall i :: Shortens(start, limit, i) ==> r == start[..i] + [start[i] + 1]
    ensures r != start ==> Shortens(start, limit, |r| - 1)
  {
    var minLength := if |start| < |limit| then |start| else |limit|;
    var i := 0;
    while i < minLength && start[i] == limit[i]
      invariant i <= minLength && start[..i] == limit[..i]
    {
      i := i + 1;
    }
    assert forall j :: 0 <= j < i ==> start[j] == start[..i][j] == limit[..i][j] == limit[j];
    forall j | Shortens(start, limit, j) ensures j == i {
      assert forall m :: 0 <= m < j ==> start[m] == start[..j][m] == limit[..j][m] == limit[m];
    }
    r := start;
    if i < minLength && start[i] < 0xff && start[i] as int + 1 < limit[i] as int {
      r := start[..i] + [start[i] + 1];
      assert r[..i] == start[..i];
      LessAt(start, r, i);
      LessAt(r, limit, i);
    }
  }

  predicate AllFF(b: Bytes) {
    forall i :: 0 <= i < |b| ==> b[i] == 0xff
  }

  /** BytewiseComparator::FindShortSuccessor: the key after key that stops at its first byte below 0xff, if any. */
  method FindShortSuccessor(key: Bytes) returns (r: Bytes)
    ensures AtMost(key, r) && |r| <= |key|
    ensures if AllFF(key) then r == key
            else r != [] && AllFF(r[..|r| - 1]) && r[..|r| - 1] < key && r[|r| - 1] as int == key[|r| - 1] as int + 1
  {
    var i := 0;
    while i < |key|
      invariant i <= |key| && AllFF(key[..i])
    {
      if key[i] != 0xff {
        r := key[..i] + [key[i] + 1];
        assert r[..i] == key[..i];
        LessAt(key, r, i);
        return;
      }
      i := i + 1;
    }
    r := key;
  }

  // ---------------------------------------------------------------------------------------
  // Internal keys

  const TYPE_DELETION: byte := 0
  const TYPE_VALUE: byte := 1
  const TYPE_LARGE: byte := 2
  /** kValueTypeForSeek: the highest type, so that a lookup key comes before every entry it may match. */
  const SEEK_TYPE: byte := TYPE_LARGE

  const MAX_SN := 0xFF_FFFF_FFFF_FFFF
  type SeqNum = n: int | 0 <= n <= MAX_SN

  datatype ParsedKey = ParsedKey(user: Bytes, sn: SeqNum, t: byte)

  /** PackSequenceAndType. */
  function Tag(sn: SeqNum, t: byte): (tag: uint64) {
    sn * 256 + t
  }

  function EncodeKey(k: ParsedKey): (b: Bytes)
    ensures |b| == |k.user| + 8
  {
    k.user + EncodeFixed64(Tag(k.sn, k.t))
  }

  /** An internal key as bytes: ExtractUserKey asserts that the trailer is there. */
  type Internal = b: Bytes | |b| >= 8 witness [0, 0, 0, 0, 0, 0, 0, 0]

  function UserOf(b: Internal): (u: Bytes)
    ensures |u| == |b| - 8
  {
    b[..|b| - 8]
  }

  function TagOf(b: Internal): (tag: uint64) {
    DecodeFixed64(b[|b| - 8..])
  }

  /** ParseInternalKey: fails on short input and on unknown types. */
  function ParseKey(b: Bytes): (r: Option<ParsedKey>) {
    if |b| < 8 then None
    else
      var tag := TagOf(b);
      if tag % 256 > TYPE_LARGE as int then None else Some(ParsedKey(UserOf(b), tag / 256, tag % 256))
  }

  lemma KeyParts(k: ParsedKey)
    ensures UserOf(EncodeKey(k)) == k.user && TagOf(EncodeKey(k)) == Tag(k.sn, k.t)
  {
    hide EncodeFixed64, DecodeFixed64, Tag;
    var b, tag := EncodeKey(k), EncodeFixed64(Tag(k.sn, k.t));
    assert b[|b| - 8..] == tag && tag == tag + [];
    Fixed64RoundTrip(Tag(k.sn, k.t), []);
  }

  lemma KeyRoundTrip(k: ParsedKey)
    requires k.t <= TYPE_LARGE
    ensures ParseKey(EncodeKey(k)) == Some(k)
  {
    hide EncodeKey, UserOf, TagOf;
    KeyParts(k);
    assert Tag(k.sn, k.t) / 256 == k.sn && Tag(k.sn, k.t) % 256 == k.t;
  }

  /** On any bytes: a key parses exactly when it is an encoding with a known type. */
  lemma ParseExact(b: Bytes, k: ParsedKey)
    ensures ParseKey(b) == Some(k) <==> k.t <= TYPE_LARGE && b == EncodeKey(k)
  {
    hide EncodeFixed64, DecodeFixed64;
    if |b| >= 8 {
      Fixed64Inverse(b[|b| - 8..]);
      assert b[|b| - 8..][..8] == b[|b| - 8..] && b == UserOf(b) + b[|b| - 8..];
    }
    if k.t <= TYPE_LARGE {
      KeyRoundTrip(k);
    }
  }

  /** InternalKeyComparator::Compare(a, b) < 0: user key ascending, then trailer descending. */
  predicate InternalLess(a: Internal, b: Internal) {
    Less(UserOf(a), UserOf(b)) || (UserOf(a) == UserOf(b) && TagOf(a) > TagOf(b))
  }

  lemma InternalTransitive(a: Internal, b: Internal, c: Internal)
    requires InternalLess(a, b) && InternalLess(b, c)
    ensures InternalLess(a, c)
  {
    hide Less, UserOf, TagOf;
    if Less(UserOf(a), UserOf(b)) && Less(UserOf(b), UserOf(c)) {
      LessTransitive(UserOf(a), UserOf(b), UserOf(c));
    }
  }

  lemma InternalAsymmetric(a: Internal, b: Internal)
    requires InternalLess(a, b)
    ensures !InternalLess(b, a)
  {
    hide Less, UserOf, TagOf;
    if Less(UserOf(a), UserOf(b)) {
      LessAsymmetric(UserOf(a), UserOf(b));
    } else {
      LessIrreflexive(UserOf(a));
    }
  }

  /** Not before and not after: same user key and same trailer. */
  lemma InternalTotal(a: Internal, b: Internal)
    ensures InternalLess(a, b) || InternalLess(b, a) || (UserOf(a) == UserOf(b) && TagOf(a) == TagOf(b))
  {
    hide Less, UserOf, TagOf;
    LessTotal(UserOf(a), UserOf(b));
  }

  /** r is what shortening start towards limit gives: start itself unless its user key can be shortened. */
  ghost predicate SeparatorOf(start: Internal, limit: Internal, r: Internal) {
    && (forall i :: Shortens(UserOf(start), UserOf(limit), i) && i + 1 < |UserOf(start)| ==>
          r == EncodeKey(ParsedKey(UserOf(start)[..i] + [UserOf(start)[i] + 1], MAX_SN, SEEK_TYPE)))
    && (r != start ==> exists i :: Shortens(UserOf(start), UserOf(limit), i) && i + 1 < |UserOf(start)|)
  }

  /**
   * InternalKeyComparator::FindShortestSeparator: start itself, or a key strictly between whose user key is
   * strictly between the user keys of start and limit.
   */
  method InternalSeparator(start: Internal, limit: Internal) returns (r: Internal)
    ensures |r| <= |start|
    ensures r == start ||
            (&& InternalLess(start, r) && InternalLess(r, limit)
             && Less(UserOf(start), UserOf(r)) && Less(UserOf(r), UserOf(limit)))
    ensures SeparatorOf(start, limit, r)
  {
    hide Less, EncodeKey, UserOf, TagOf;
    var user := UserOf(start);
    var tmp := FindShortestSeparator(user, UserOf(limit));
    r := start;
    if |tmp| < |user| && Less(user, tmp) {
      LessIrreflexive(user);
      r := EncodeKey(ParsedKey(tmp, MAX_SN, SEEK_TYPE));
      KeyParts(ParsedKey(tmp, MAX_SN, SEEK_TYPE));
      assert Shortens(user, UserOf(limit), |tmp| - 1);
    }
  }

  /** The first byte of key below 0xff. */
  predicate FirstBelow(key: Bytes, i: int) {
    0 <= i < |key| && AllFF(key[..i]) && key[i] != 0xff
  }

  /** r is the short successor of key: key itself unless a byte before the last of its user key can be raised. */
  ghost predicate SuccessorOf(key: Internal, r: Internal) {
    && (forall i :: FirstBelow(UserOf(key), i) && i + 1 < |UserOf(key)| ==>
          r == EncodeKey(ParsedKey(UserOf(key)[..i] + [UserOf(key)[i] + 1], MAX_SN, SEEK_TYPE)))
    && (r != key ==> exists i :: FirstBelow(UserOf(key), i) && i + 1 < |UserOf(key)|)
  }

  lemma SuccessorAt(key: Bytes, r: Bytes, i: nat)
    requires FirstBelow(key, i) && r != [] && |r| <= |key| && AllFF(r[..|r| - 1]) && r[..|r| - 1] < key && r[|r| - 1] as int == key[|r| - 1] as int + 1
    ensures r == key[..i] + [key[i] + 1] && (|r| < |key| ==> Less(key, r))
  {
    hide Less;
    var n := |r| - 1;
    assert forall j :: 0 <= j < i ==> key[j] == key[..i][j] == 0xff;
    assert forall j :: 0 <= j < n ==> key[j] == r[..n][j] == 0xff;
    assert n == i;
    assert r[..n] == key[..n];
    LessAt(key, r, i);
  }

  /** What FindShortSuccessor promises determines its result. */
  lemma SuccessorIs(key: Bytes, r: Bytes)
    requires if AllFF(key) then r == key
             else r != [] && |r| <= |key| && AllFF(r[..|r| - 1]) && r[..|r| - 1] < key && r[|r| - 1] as int == key[|r| - 1] as int + 1
    ensures forall i :: FirstBelow(key, i) ==> r == key[..i] + [key[i] + 1] && (|r| < |key| ==> Less(key, r))
    ensures r != key ==> FirstBelow(key, |r| - 1)
  {
    forall i | FirstBelow(key, i) ensures r == key[..i] + [key[i] + 1] && (|r| < |key| ==> Less(key, r)) {
      SuccessorAt(key, r, i);
    }
    if r != key {
      assert r[..|r| - 1] == key[..|r| - 1];
    }
  }

  /** InternalKeyComparator::FindShortSuccessor. */
  method InternalSuccessor(key: Internal) returns (r: Internal)
    ensures |r| <= |key| && (r == key || (InternalLess(key, r) && Less(UserOf(key), UserOf(r))))
    ensures SuccessorOf(key, r)
  {
    hide Less, EncodeKey, UserOf, TagOf;
    var user := UserOf(key);
    var tmp := FindShortSuccessor(user);
    SuccessorIs(user, tmp);
    r := key;
    if |tmp| < |user| && Less(user, tmp) {
      r := EncodeKey(ParsedKey(tmp, MAX_SN, SEEK_TYPE));
      KeyParts(ParsedKey(tmp, MAX_SN, SEEK_TYPE));
    }
  }
}
