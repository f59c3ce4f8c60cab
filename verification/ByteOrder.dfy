/** Byte strings and the lexicographic order in which Rust compares `String` and `[u8]` keys.

    Every `BTreeMap` and `BTreeSet` of the modelled code that is keyed by an event id or by a
    database key iterates in this order. */
module ByteOrder {
  import opened Basics

  type Byte = b: int | 0 <= b < 256

  type Bytes = seq<Byte>

  /** Strict lexicographic order; a proper prefix comes first. */
  predicate Less(s: Bytes, t: Bytes) {
    t != [] && (s == [] || s[0] < t[0] || (s[0] == t[0] && Less(s[1..], t[1..])))
  }

  lemma {:induction false} LessTotal(s: Bytes, t: Bytes)
    ensures s == t || Less(s, t) || Less(t, s)
    ensures !(Less(s, t) && Less(t, s))
    ensures !Less(s, s)
  {
    if s != [] && t != [] {
      LessTotal(s[1..], t[1..]);
      if s[0] == t[0] && s[1..] == t[1..] {
        assert s == [s[0]] + s[1..] && t == [t[0]] + t[1..];
      }
    }
    if s != [] {
      LessTotal(s[1..], s[1..]);
    }
  }

  /** `s` and `t` agree before `k`, and there `s` has ended or has the smaller byte. */
  ghost predicate SmallerAt(k: int, s: Bytes, t: Bytes) {
    0 <= k <= |s| && k < |t| && s[..k] == t[..k] && (k == |s| || s[k] < t[k])
  }

  /** The order is decided at the first difference: the smaller byte, or the end, comes first. */
  lemma {:induction false} LessIff(s: Bytes, t: Bytes)
    ensures Less(s, t) <==> exists k :: SmallerAt(k, s, t)
  {
    if s == [] || t == [] || s[0] != t[0] {
      assert t != [] && (s == [] || s[0] < t[0]) ==> SmallerAt(0, s, t);
      forall k | SmallerAt(k, s, t) ensures k == 0 {
        if k > 0 {
          SharedFirst(k, s, t);
        }
      }
    } else {
      LessIff(s[1..], t[1..]);
      forall k: nat ensures SmallerAt(k + 1, s, t) <==> SmallerAt(k, s[1..], t[1..]) {
        SmallerAtTail(k, s, t);
      }
      if k :| SmallerAt(k, s, t) {
        assert k > 0 && SmallerAt(k - 1, s[1..], t[1..]);
      }
      if k :| SmallerAt(k, s[1..], t[1..]) {
        assert SmallerAt(k + 1, s, t);
      }
    }
  }

  lemma SharedFirst(k: nat, s: Bytes, t: Bytes)
    requires k > 0 && SmallerAt(k, s, t)
    ensures s[0] == t[0]
  {
    assert s[0] == s[..k][0] == t[..k][0] == t[0];
  }

  lemma SmallerAtTail(k: nat, s: Bytes, t: Bytes)
    requires s != [] && t != [] && s[0] == t[0]
    ensures SmallerAt(k + 1, s, t) <==> SmallerAt(k, s[1..], t[1..])
  {
    if k + 1 <= |s| && k + 1 <= |t| {
      assert s[..k + 1] == [s[0]] + s[1..][..k] && t[..k + 1] == [t[0]] + t[1..][..k];
      if s[..k + 1] == t[..k + 1] {
        assert s[1..][..k] == s[..k + 1][1..] == t[..k + 1][1..] == t[1..][..k];
      }
    }
  }

  lemma {:induction false} LessTransitive(s: Bytes, t: Bytes, u: Bytes)
    requires Less(s, t) && Less(t, u)
    ensures Less(s, u)
  {
    if s != [] && s[0] == t[0] == u[0] {
      LessTransitive(s[1..], t[1..], u[1..]);
    }
  }

  /** Keys that share a prefix are contiguous: nothing at or after the prefix and before a key
      carrying it can lack it. */
  lemma {:induction false} PrefixContiguous(prefix: Bytes, mid: Bytes, key: Bytes)
    requires !Less(mid, prefix)
    requires Less(mid, key)
    requires prefix <= key
    ensures prefix <= mid
  {
    if prefix != [] {
      assert mid != [];
      PrefixContiguous(prefix[1..], mid[1..], key[1..]);
      assert mid == [mid[0]] + mid[1..];
    }
  }

  lemma {:induction false} PrefixNotLess(prefix: Bytes, key: Bytes)
    requires prefix <= key
    ensures !Less(key, prefix)
  {
    if prefix != [] {
      PrefixNotLess(prefix[1..], key[1..]);
    }
  }

  predicate IsLeast(x: Bytes, s: set<Bytes>) {
    x in s && forall y | y in s :: y == x || Less(x, y)
  }

  lemma {:induction false} LeastExists(s: set<Bytes>)
    requires s != {}
    ensures exists x :: IsLeast(x, s)
  {
    var a :| a in s;
    if s == {a} {
      assert IsLeast(a, s);
    } else {
      LeastExists(s - {a});
      var b :| IsLeast(b, s - {a});
      LessTotal(a, b);
      if Less(a, b) {
        forall y | y in s ensures y == a || Less(a, y) {
          if y != a && y != b {
            LessTransitive(a, b, y);
          }
        }
        assert IsLeast(a, s);
      } else {
        assert IsLeast(b, s);
      }
    }
  }

  lemma LeastUnique(x: Bytes, y: Bytes, s: set<Bytes>)
    requires IsLeast(x, s) && IsLeast(y, s)
    ensures x == y
  {
    LessTotal(x, y);
  }

  function Least(s: set<Bytes>): (x: Bytes)
    requires s != {}
    ensures IsLeast(x, s)
  {
    LeastExists(s);
    assert forall x, y | IsLeast(x, s) && IsLeast(y, s) :: x == y by {
      forall x, y | IsLeast(x, s) && IsLeast(y, s) ensures x == y {
        LeastUnique(x, y, s);
      }
    }
    var x :| x in s && IsLeast(x, s);
    x
  }

  predicate Increasing(r: seq<Bytes>) {
    forall i, j | 0 <= i < j < |r| :: Less(r[i], r[j])
  }

  lemma IncreasingNext(r: seq<Bytes>, all: seq<Bytes>, i: nat)
    requires Increasing(all) && i < |all|
    requires Increasing(r) && forall x | x in r :: x in all[..i]
    ensures Increasing(r + [all[i]])
  {
    forall k | 0 <= k < |r| ensures Less(r[k], all[i]) {
      assert r[k] in all[..i];
    }
  }

  /** The elements of a set in iteration order. */
  function Ascending(s: set<Bytes>): (r: seq<Bytes>)
    ensures Increasing(r)
    ensures forall x :: x in r <==> x in s
  {
    if s == {} then []
    else
      var x := Least(s);
      [x] + Ascending(s - {x})
  }

  lemma IncreasingDistinct(r: seq<Bytes>)
    requires Increasing(r)
    ensures Distinct(r)
  {
    forall i, j | 0 <= i < j < |r| ensures r[i] != r[j] {
      LessTotal(r[i], r[j]);
    }
  }

  lemma AscendingIsArrangement(s: set<Bytes>)
    ensures Distinct(Ascending(s))
    ensures Elements(Ascending(s)) == s
    ensures multiset(Ascending(s)) == multiset(s)
  {
    IncreasingDistinct(Ascending(s));
    DistinctMultiset(Ascending(s));
  }
}
