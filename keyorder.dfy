/**
 * Keys and the order in which a flush lays them out: Go compares strings
 * byte by byte, and a proper prefix sorts before every extension of it.
 */
module KeyOrder {
  import opened Bytes

  /** A Go string key, as the bytes it holds. */
  type Key = seq<Byte>

  /** Go's `a < b` on strings, which is what `sort.Strings` sorts by. */
  predicate Less(a: Key, b: Key)
    decreases |a|
  {
    if |a| == 0 then |b| > 0
    else if |b| == 0 then false
    else if a[0] != b[0] then a[0] < b[0]
    else Less(a[1..], b[1..])
  }

  lemma {:induction false} LessIrreflexive(a: Key)
    ensures !Less(a, a)
    decreases |a|
  {
    if |a| > 0 {
      LessIrreflexive(a[1..]);
    }
  }

  lemma {:induction false} LessTransitive(a: Key, b: Key, c: Key)
    requires Less(a, b) && Less(b, c)
    ensures Less(a, c)
    decreases |a|
  {
    if |a| > 0 && a[0] == b[0] && b[0] == c[0] {
      LessTransitive(a[1..], b[1..], c[1..]);
    }
  }

  lemma LessAsymmetric(a: Key, b: Key)
    requires Less(a, b)
    ensures !Less(b, a)
  {
    if Less(b, a) {
      LessTransitive(a, b, a);
      LessIrreflexive(a);
    }
  }

  lemma {:induction false} LessTotal(a: Key, b: Key)
    ensures a == b || Less(a, b) || Less(b, a)
    decreases |a|
  {
    if |a| > 0 && |b| > 0 && a[0] == b[0] {
      LessTotal(a[1..], b[1..]);
      if a[1..] == b[1..] {
        assert a == [a[0]] + a[1..] && b == [b[0]] + b[1..];
      }
    }
  }

  /** Extending a prefix of `s` by its next element. */
  lemma PrefixStep(s: seq<Key>, i: nat)
    requires i < |s|
    ensures s[..i + 1] == s[..i] + [s[i]]
  {
  }

  predicate Distinct(s: seq<Key>) {
    forall i, j :: 0 <= i < j < |s| ==> s[i] != s[j]
  }

  /** The order `sort.Strings` establishes: no later key is less than an earlier one. */
  predicate Sorted(s: seq<Key>) {
    forall i, j :: 0 <= i < j < |s| ==> !Less(s[j], s[i])
  }

  /** Sorted ascending with no repeated key. */
  predicate StrictlySorted(s: seq<Key>) {
    forall i, j :: 0 <= i < j < |s| ==> Less(s[i], s[j])
  }

  lemma StrictlySortedDistinct(s: seq<Key>)
    requires StrictlySorted(s)
    ensures Distinct(s)
  {
    forall i, j | 0 <= i < j < |s| ensures s[i] != s[j] {
      LessIrreflexive(s[i]);
    }
  }

  /** Inserting into a sorted sequence: the step of the sort below. */
  function Insert(s: seq<Key>, k: Key): (r: seq<Key>)
    requires Sorted(s)
    ensures Sorted(r)
    ensures multiset(r) == multiset(s) + multiset{k}
    ensures StrictlySorted(s) && k !in s ==> StrictlySorted(r)
    decreases |s|
  {
    if s == [] then [k]
    else if Less(s[0], k) then
      InsertAfterHead(s, k, Insert(s[1..], k));
      assert s == [s[0]] + s[1..];
      [s[0]] + Insert(s[1..], k)
    else
      InsertBeforeHead(s, k);
      [k] + s
  }

  lemma InsertBeforeHead(s: seq<Key>, k: Key)
    requires Sorted(s) && s != [] && !Less(s[0], k)
    ensures Sorted([k] + s)
    ensures StrictlySorted(s) && k !in s ==> StrictlySorted([k] + s)
  {
    forall j | 0 <= j < |s| ensures !Less(s[j], k) {
      LessTotal(s[0], s[j]);
      if Less(s[j], k) && Less(s[0], s[j]) {
        LessTransitive(s[0], s[j], k);
      }
    }
    if StrictlySorted(s) && k !in s {
      LessTotal(s[0], k);
      forall j | 0 <= j < |s| ensures Less(k, s[j]) {
        if j > 0 {
          LessTransitive(k, s[0], s[j]);
        }
      }
    }
  }

  lemma InsertAfterHead(s: seq<Key>, k: Key, t: seq<Key>)
    requires Sorted(s) && s != [] && Less(s[0], k)
    requires Sorted(t) && multiset(t) == multiset(s[1..]) + multiset{k}
    requires StrictlySorted(s) && k !in s ==> StrictlySorted(t)
    ensures Sorted([s[0]] + t)
    ensures StrictlySorted(s) && k !in s ==> StrictlySorted([s[0]] + t)
  {
    LessAsymmetric(s[0], k);
    forall j | 0 <= j < |t| ensures !Less(t[j], s[0]) && (StrictlySorted(s) ==> t[j] != k ==> Less(s[0], t[j])) {
      assert t[j] in multiset(t);
      if t[j] != k {
        assert t[j] in s[1..];
        var m :| 0 <= m < |s[1..]| && s[1..][m] == t[j];
        assert s[m + 1] == t[j];
      }
    }
    var r := [s[0]] + t;
    forall i, j | 0 <= i < j < |r| ensures !Less(r[j], r[i]) {
      if i > 0 {
        assert r[i] == t[i - 1] && r[j] == t[j - 1];
      }
    }
  }

  /**
   * `sort.Strings`: the keys rearranged into Go's string order. On keys that
   * are pairwise distinct, as a map's keys are, the order is strict.
   */
  method SortStrings(keys: seq<Key>) returns (sorted: seq<Key>)
    ensures Sorted(sorted)
    ensures multiset(sorted) == multiset(keys)
    ensures Distinct(keys) ==> StrictlySorted(sorted)
  {
    sorted := [];
    var i := 0;
    while i < |keys|
      invariant 0 <= i <= |keys|
      invariant Sorted(sorted)
      invariant multiset(sorted) == multiset(keys[..i])
      invariant Distinct(keys) ==> StrictlySorted(sorted)
    {
      if Distinct(keys) {
        assert forall m :: 0 <= m < i ==> keys[..i][m] != keys[i];
        assert keys[i] !in multiset(sorted);
      }
      sorted := Insert(sorted, keys[i]);
      assert keys[..i + 1] == keys[..i] + [keys[i]];
      i := i + 1;
    }
    assert keys[..i] == keys;
  }

  /** `k` is less than every other key of `s`. */
  ghost predicate IsLeast(k: Key, s: set<Key>) {
    k in s && forall x :: x in s && x != k ==> Less(k, x)
  }

  lemma {:induction false} LeastExists(s: set<Key>)
    requires s != {}
    ensures exists k :: IsLeast(k, s)
    decreases |s|
  {
    var x :| x in s;
    if s == {x} {
      assert IsLeast(x, s);
    } else {
      var rest := s - {x};
      assert rest != {} by {
        var y :| y in s && y != x;
        assert y in rest;
      }
      LeastExists(rest);
      var m :| IsLeast(m, rest);
      LessTotal(x, m);
      if Less(x, m) {
        forall y | y in s && y != x ensures Less(x, y) {
          if y != m {
            LessTransitive(x, m, y);
          }
        }
        assert IsLeast(x, s);
      } else {
        assert IsLeast(m, s);
      }
    }
  }

  lemma LeastFirst(m: Key, s: set<Key>, rest: seq<Key>)
    requires IsLeast(m, s) && StrictlySorted(rest)
    requires forall k :: k in rest <==> k in s - {m}
    ensures StrictlySorted([m] + rest)
  {
    var r := [m] + rest;
    forall i, j | 0 <= i < j < |r| ensures Less(r[i], r[j]) {
      assert r[j] == rest[j - 1];
      if i > 0 {
        assert r[i] == rest[i - 1];
      } else {
        assert rest[j - 1] in rest;
      }
    }
  }

  /** `r` lists the keys of `s` ascending, each once. */
  ghost predicate Listing(r: seq<Key>, s: set<Key>) {
    StrictlySorted(r) && forall k :: k in r <==> k in s
  }

  lemma {:induction false} ListingExists(s: set<Key>)
    ensures exists r :: Listing(r, s)
    decreases |s|
  {
    if s == {} {
      assert Listing([], s);
    } else {
      LeastExists(s);
      var m :| IsLeast(m, s);
      ListingExists(s - {m});
      var t :| Listing(t, s - {m});
      LeastFirst(m, s, t);
      assert Listing([m] + t, s);
    }
  }

  /** The keys of `s` in ascending order: the unique order a flush writes them in. */
  ghost function SortedKeys(s: set<Key>): seq<Key> {
    ListingExists(s);
    var r :| Listing(r, s);
    r
  }

  lemma SortedKeysListing(s: set<Key>)
    ensures Listing(SortedKeys(s), s)
  {
  }

  lemma HeadIsMember(s: seq<Key>)
    requires s != []
    ensures s[0] in s
  {
  }

  /** Two strictly sorted sequences that hold the same keys are the same sequence. */
  lemma {:induction false} StrictlySortedUnique(a: seq<Key>, b: seq<Key>)
    requires StrictlySorted(a) && StrictlySorted(b)
    requires forall k :: k in a <==> k in b
    ensures a == b
    decreases |a|
  {
    if a != [] {
      assert a[0] in b && b[0] in a;
      if a[0] != b[0] {
        var i :| 0 <= i < |a| && a[i] == b[0];
        var j :| 0 <= j < |b| && b[j] == a[0];
        LessAsymmetric(a[0], b[0]);
        assert false;
      }
      forall k | k in a[1..] ensures k in b[1..] {
        var i :| 1 <= i < |a| && a[i] == k;
        LessIrreflexive(a[0]);
        assert k in a && k in b;
        var j :| 0 <= j < |b| && b[j] == k;
        assert j != 0;
        assert b[1..][j - 1] == k;
      }
      forall k | k in b[1..] ensures k in a[1..] {
        var j :| 1 <= j < |b| && b[j] == k;
        LessIrreflexive(b[0]);
        assert k in b && k in a;
        var i :| 0 <= i < |a| && a[i] == k;
        assert i != 0;
        assert a[1..][i - 1] == k;
      }
      StrictlySortedUnique(a[1..], b[1..]);
      assert a == [a[0]] + a[1..] && b == [b[0]] + b[1..];
    } else if b != [] {
      HeadIsMember(b);
      assert false;
    }
  }

  /** A sort of a map's keys yields SortedKeys of that key set. */
  lemma SortedKeysOf(sorted: seq<Key>, s: set<Key>)
    requires Listing(sorted, s)
    ensures sorted == SortedKeys(s)
  {
    SortedKeysListing(s);
    StrictlySortedUnique(sorted, SortedKeys(s));
  }
}
