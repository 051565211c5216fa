/**
 * Sequences of records that carry an integer key: the two catalog vectors.
 * The source keeps them as plain vectors and searches them linearly, so
 * nothing in the representation itself prevents two entries with one key.
 */
module Keyed {
  import opened Wrappers
  import opened Json

  /** The index of the first entry whose key is `k`, scanning from the front. */
  function FirstWithKey<T>(s: seq<T>, key: T -> Int32, k: Int32): (r: Option<nat>)
    ensures r.Some? ==> r.value < |s| && key(s[r.value]) == k
    ensures r.Some? ==> forall j :: 0 <= j < r.value ==> key(s[j]) != k
    ensures r.None? <==> forall j :: 0 <= j < |s| ==> key(s[j]) != k
  {
    if s == [] then None
    else if key(s[0]) == k then Some(0)
    else match FirstWithKey(s[1..], key, k)
      case None => None
      case Some(i) => Some(i + 1)
  }

  /** No two entries share a key. */
  ghost predicate Unique<T>(s: seq<T>, key: T -> Int32) {
    forall i, j :: 0 <= i < j < |s| ==> key(s[i]) != key(s[j])
  }

  /**
   * What `remove_if` followed by `erase` leaves: every entry whose key is `k`
   * is dropped and the others stay in their order.
   */
  function Without<T>(s: seq<T>, key: T -> Int32, k: Int32): (r: seq<T>)
    ensures |r| <= |s|
  {
    if s == [] then []
    else
      var init, last := s[..|s| - 1], s[|s| - 1];
      assert s == init + [last];
      Without(init, key, k) + if key(last) == k then [] else [last]
  }

  /** Removal keeps exactly the entries whose key is not `k`. */
  lemma {:induction false} WithoutMembers<T>(s: seq<T>, key: T -> Int32, k: Int32)
    ensures forall i :: 0 <= i < |Without(s, key, k)| ==>
      Without(s, key, k)[i] in s && key(Without(s, key, k)[i]) != k
    ensures forall i :: 0 <= i < |s| && key(s[i]) != k ==> s[i] in Without(s, key, k)
  {
    if s != [] {
      var init, last := s[..|s| - 1], s[|s| - 1];
      WithoutMembers(init, key, k);
      assert s == init + [last];
    }
  }

  /** Removal shortens the sequence exactly when some entry has key `k`: the emptiness test on `remove_if`'s result. */
  lemma {:induction false} WithoutShrinks<T>(s: seq<T>, key: T -> Int32, k: Int32)
    ensures |Without(s, key, k)| < |s| <==> FirstWithKey(s, key, k).Some?
  {
    if s != [] {
      var init, last := s[..|s| - 1], s[|s| - 1];
      WithoutShrinks(init, key, k);
      if key(last) != k && FirstWithKey(init, key, k).None? {
        assert FirstWithKey(s, key, k).None?;
      }
      if FirstWithKey(init, key, k).Some? {
        var i := FirstWithKey(init, key, k).value;
        assert key(s[i]) == k;
      }
    }
  }

  /**
   * Removal works entry by entry: on a concatenation it is the removal from
   * each part, in order. With `WithoutOne` this fixes the relative order and
   * the multiplicity of the kept entries, whatever number of entries have
   * key `k`.
   */
  lemma {:induction false} WithoutAppend<T>(a: seq<T>, b: seq<T>, key: T -> Int32, k: Int32)
    ensures Without(a + b, key, k) == Without(a, key, k) + Without(b, key, k)
    decreases |b|
  {
    if b == [] {
      assert a + b == a;
    } else {
      var init, last := b[..|b| - 1], b[|b| - 1];
      var tail := if key(last) == k then [] else [last];
      WithoutAppend(a, init, key, k);
      assert (a + b)[..|a + b| - 1] == a + init;
      assert (a + b)[|a + b| - 1] == last;
      assert Without(a + b, key, k) == Without(a + init, key, k) + tail;
      assert Without(b, key, k) == Without(init, key, k) + tail;
    }
  }

  /** A single entry is kept exactly when its key is not `k`. */
  lemma WithoutOne<T>(x: T, key: T -> Int32, k: Int32)
    ensures Without([x], key, k) == if key(x) == k then [] else [x]
  {
    assert [x][..0] == [];
  }

  /** The table a key-indexed store holds for `s`: a later entry wins over an earlier one with its key. */
  function TableOf<T>(s: seq<T>, key: T -> Int32): (m: map<Int32, T>)
    ensures forall i :: 0 <= i < |s| ==> key(s[i]) in m
  {
    if s == [] then map[]
    else
      var init, last := s[..|s| - 1], s[|s| - 1];
      assert s == init + [last];
      TableOf(init, key)[key(last) := last]
  }

  /** Every row of the table belongs to some entry. */
  lemma {:induction false} TableOfKeys<T>(s: seq<T>, key: T -> Int32)
    ensures forall k :: k in TableOf(s, key) ==> FirstWithKey(s, key, k).Some?
  {
    if s != [] {
      var init := s[..|s| - 1];
      TableOfKeys(init, key);
      forall k | k in TableOf(init, key) ensures FirstWithKey(s, key, k).Some? {
        var i := FirstWithKey(init, key, k).value;
        assert key(s[i]) == k;
      }
    }
  }

  /** Changing one entry without changing its key moves no first occurrence. */
  lemma FirstWithKeyUpdate<T>(s: seq<T>, key: T -> Int32, i: nat, x: T, k: Int32)
    requires i < |s| && key(x) == key(s[i])
    ensures FirstWithKey(s[i := x], key, k) == FirstWithKey(s, key, k)
  {
    var t := s[i := x];
    assert forall j :: 0 <= j < |s| ==> key(t[j]) == key(s[j]);
  }

  /** Removing entries keeps keys unique. */
  lemma {:induction false} UniqueWithout<T>(s: seq<T>, key: T -> Int32, k: Int32)
    requires Unique(s, key)
    ensures Unique(Without(s, key, k), key)
  {
    if s != [] {
      var init, last := s[..|s| - 1], s[|s| - 1];
      assert Unique(init, key);
      UniqueWithout(init, key, k);
      var w := Without(init, key, k);
      WithoutMembers(init, key, k);
      forall j | 0 <= j < |w| ensures key(w[j]) != key(last) {
        var i :| 0 <= i < |init| && init[i] == w[j];
      }
    }
  }

  /** When no entry has key `k`, removal changes nothing. */
  lemma {:induction false} WithoutAbsent<T>(s: seq<T>, key: T -> Int32, k: Int32)
    requires FirstWithKey(s, key, k).None?
    ensures Without(s, key, k) == s
  {
    if s != [] {
      var init := s[..|s| - 1];
      assert FirstWithKey(init, key, k).None?;
      WithoutAbsent(init, key, k);
      assert s == init + [s[|s| - 1]];
    }
  }

  /** When entry `i` is the only one with key `k`, removal drops exactly that entry, in place. */
  lemma {:induction false} WithoutSingle<T>(s: seq<T>, key: T -> Int32, k: Int32, i: nat)
    requires i < |s| && key(s[i]) == k
    requires forall j :: 0 <= j < |s| && j != i ==> key(s[j]) != k
    ensures Without(s, key, k) == s[..i] + s[i + 1..]
  {
    var n := |s|;
    var init, last := s[..n - 1], s[n - 1];
    if i == n - 1 {
      assert FirstWithKey(init, key, k).None?;
      WithoutAbsent(init, key, k);
      assert s[..i] + s[i + 1..] == init;
    } else {
      WithoutSingle(init, key, k, i);
      assert s[i + 1..] == init[i + 1..] + [last];
    }
  }

  /** With unique keys, removal drops exactly the one entry that has the key, in place. */
  lemma WithoutUnique<T>(s: seq<T>, key: T -> Int32, k: Int32, i: nat)
    requires Unique(s, key) && FirstWithKey(s, key, k) == Some(i)
    ensures Without(s, key, k) == s[..i] + s[i + 1..]
  {
    forall j | 0 <= j < |s| && j != i ensures key(s[j]) != k {
      if j < i {
        assert key(s[j]) != key(s[i]);
      } else {
        assert key(s[i]) != key(s[j]);
      }
    }
    WithoutSingle(s, key, k, i);
  }

  /** With unique keys, the table maps each entry's key to that entry. */
  lemma {:induction false} TableOfUnique<T>(s: seq<T>, key: T -> Int32)
    requires Unique(s, key)
    ensures forall i :: 0 <= i < |s| ==> TableOf(s, key)[key(s[i])] == s[i]
  {
    if s != [] {
      var n := |s|;
      var init, last := s[..n - 1], s[n - 1];
      assert Unique(init, key);
      TableOfUnique(init, key);
      forall i | 0 <= i < n - 1 ensures TableOf(s, key)[key(s[i])] == s[i] {
        assert key(s[i]) != key(last);
        assert init[i] == s[i];
      }
    }
  }

  /** Appending an entry stores it under its key. */
  lemma TableOfAppend<T>(s: seq<T>, key: T -> Int32, x: T)
    ensures TableOf(s + [x], key) == TableOf(s, key)[key(x) := x]
  {
    assert (s + [x])[..|s|] == s;
  }

  /** With unique keys, changing one entry without changing its key updates that one row. */
  lemma {:induction false} TableOfUpdate<T>(s: seq<T>, key: T -> Int32, i: nat, x: T)
    requires Unique(s, key) && i < |s| && key(x) == key(s[i])
    ensures TableOf(s[i := x], key) == TableOf(s, key)[key(x) := x]
  {
    var n := |s|;
    var init, last := s[..n - 1], s[n - 1];
    var t := s[i := x];
    assert t[..n - 1] == if i == n - 1 then init else init[i := x];
    if i < n - 1 {
      TableOfUpdate(init, key, i, x);
      assert key(x) != key(last) by { assert key(s[i]) != key(s[n - 1]); }
    }
  }

  /** Removing every entry with key `k` removes exactly row `k` from the table. */
  lemma {:induction false} TableOfWithout<T>(s: seq<T>, key: T -> Int32, k: Int32)
    ensures TableOf(Without(s, key, k), key) == TableOf(s, key) - {k}
  {
    if s != [] {
      var init, last := s[..|s| - 1], s[|s| - 1];
      TableOfWithout(init, key, k);
      var w := Without(init, key, k);
      assert TableOf(s, key) == TableOf(init, key)[key(last) := last];
      if key(last) == k {
        assert Without(s, key, k) == w;
      } else {
        assert Without(s, key, k) == w + [last];
        TableOfAppend(w, key, last);
      }
    }
  }

}
