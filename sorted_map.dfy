/**
 * `BTreeMap<String, String>`, the type of a constant's secondary descriptors,
 * as its ordered list of entries: keys strictly increasing in Rust's `String`
 * order, which compares code points lexicographically. The first entry is
 * the one `keys().next()` yields.
 */
module SortedMap {
  import opened Wrappers
  import opened Strings

  /** `String`'s `Ord`: lexicographic, a proper prefix before the longer string. */
  predicate Less(a: string, b: string)
    decreases |a|
  {
    if a == [] then b != []
    else if b == [] then false
    else a[0] < b[0] || (a[0] == b[0] && Less(a[1..], b[1..]))
  }

  lemma {:induction false} LessIrreflexive(a: string)
    ensures !Less(a, a)
    decreases |a|
  {
    if a != [] {
      LessIrreflexive(a[1..]);
    }
  }

  lemma {:induction false} LessTransitive(a: string, b: string, c: string)
    requires Less(a, b) && Less(b, c)
    ensures Less(a, c)
    decreases |a|
  {
    if a != [] && a[0] == b[0] && b[0] == c[0] {
      LessTransitive(a[1..], b[1..], c[1..]);
    }
  }

  lemma {:induction false} LessTotal(a: string, b: string)
    ensures a == b || Less(a, b) || Less(b, a)
    decreases |a|
  {
    if a != [] && b != [] && a[0] == b[0] {
      LessTotal(a[1..], b[1..]);
      if a[1..] == b[1..] {
        assert a == [a[0]] + a[1..] && b == [b[0]] + b[1..];
      }
    }
  }

  type Entries = seq<(string, string)>

  /** Every key of `m` is above `lo`. */
  predicate AllAbove(m: Entries, lo: string)
  {
    forall j :: 0 <= j < |m| ==> Less(lo, m[j].0)
  }

  /** Keys strictly increasing: the shape of a `BTreeMap`. */
  predicate Sorted(m: Entries)
  {
    forall i, j :: 0 <= i < j < |m| ==> Less(m[i].0, m[j].0)
  }

  /** `BTreeMap::get`. */
  function Get(m: Entries, k: string): Option<string>
  {
    if m == [] then None else if m[0].0 == k then Some(m[0].1) else Get(m[1..], k)
  }

  /** A key below every key of the map is absent. */
  lemma {:induction false} AboveMeansAbsent(m: Entries, k: string)
    requires AllAbove(m, k)
    ensures Get(m, k) == None
  {
    if m != [] {
      LessIrreflexive(k);
      assert AllAbove(m[1..], k) by {
        forall j | 0 <= j < |m[1..]| ensures Less(k, m[1..][j].0) {
          assert m[1..][j] == m[j + 1];
        }
      }
      AboveMeansAbsent(m[1..], k);
    }
  }

  /** The first entry of a sorted map holds its least key. */
  lemma FirstKeyIsLeast(m: Entries, k: string)
    requires Sorted(m) && m != [] && Get(m, k).Some?
    ensures m[0].0 == k || Less(m[0].0, k)
  {
    if m[0].0 != k {
      var j := FindKey(m, k);
      assert Less(m[0].0, m[j].0);
    }
  }

  /** The first key of a sorted map is below every other present key. */
  lemma LeastKey(m: Entries)
    requires Sorted(m) && m != []
    ensures Get(m, m[0].0) == Some(m[0].1)
    ensures forall k :: Get(m, k).Some? && k != m[0].0 ==> Less(m[0].0, k)
  {
    forall k | Get(m, k).Some? && k != m[0].0 ensures Less(m[0].0, k) {
      FirstKeyIsLeast(m, k);
    }
  }

  /** Dropping the first entry of a sorted map removes its key and keeps
      every other entry. */
  lemma RemoveFirst(m: Entries)
    requires Sorted(m) && m != []
    ensures forall k :: Get(m[1..], k) == if k == m[0].0 then None else Get(m, k)
  {
    SortedTail(m);
    AboveMeansAbsent(m[1..], m[0].0);
  }

  /** Where a present key sits. */
  lemma {:induction false} FindKey(m: Entries, k: string) returns (j: nat)
    requires Get(m, k).Some?
    ensures j < |m| && m[j].0 == k && Get(m, k) == Some(m[j].1)
  {
    if m[0].0 == k {
      j := 0;
    } else {
      var j' := FindKey(m[1..], k);
      j := j' + 1;
    }
  }

  /** `BTreeMap::insert`: sets `k` to `v`, replacing an old value, and keeps
      every other key and the order. */
  function Insert(m: Entries, k: string, v: string): (r: Entries)
    requires Sorted(m)
    ensures Sorted(r)
    ensures Get(r, k) == Some(v)
    ensures forall k' :: k' != k ==> Get(r, k') == Get(m, k')
    ensures forall lo :: AllAbove(m, lo) && Less(lo, k) ==> AllAbove(r, lo)
  {
    if m == [] then [(k, v)]
    else if m[0].0 == k then [(k, v)] + m[1..]
    else if Less(k, m[0].0) then
      assert AllAbove(m, k) by {
        forall j | 0 <= j < |m| ensures Less(k, m[j].0) {
          if j > 0 { LessTransitive(k, m[0].0, m[j].0); }
        }
      }
      [(k, v)] + m
    else
      var rest := Insert(m[1..], k, v);
      LessTotal(k, m[0].0);
      assert AllAbove(m[1..], m[0].0);
      var r := [m[0]] + rest;
      forall lo | AllAbove(m, lo) && Less(lo, k) ensures AllAbove(r, lo) {
        assert AllAbove(m[1..], lo) by {
          forall j | 0 <= j < |m[1..]| ensures Less(lo, m[1..][j].0) {
            assert m[1..][j] == m[j + 1];
          }
        }
      }
      assert Sorted(r) by {
        forall i, j | 0 <= i < j < |r| ensures Less(r[i].0, r[j].0) {
          if i > 0 {
            assert r[i] == rest[i - 1] && r[j] == rest[j - 1];
          } else {
            assert r[j] == rest[j - 1];
          }
        }
      }
      r
  }

  /** The tail of a sorted map is sorted and lies above its first key. */
  lemma SortedTail(m: Entries)
    requires Sorted(m) && m != []
    ensures Sorted(m[1..]) && AllAbove(m[1..], m[0].0)
  {
    forall i, j | 0 <= i < j < |m[1..]| ensures Less(m[1..][i].0, m[1..][j].0) {
      assert m[1..][i] == m[i + 1] && m[1..][j] == m[j + 1];
    }
    forall j | 0 <= j < |m[1..]| ensures Less(m[0].0, m[1..][j].0) {
      assert m[1..][j] == m[j + 1];
    }
  }

  /** A bound below every key is a bound below every key of the tail. */
  lemma AboveTail(m: Entries, lo: string)
    requires AllAbove(m, lo) && m != []
    ensures AllAbove(m[1..], lo)
  {
    forall j | 0 <= j < |m[1..]| ensures Less(lo, m[1..][j].0) {
      assert m[1..][j] == m[j + 1];
    }
  }

  /** What the filter keeps of a lookup: the value, unless key or value is blank. */
  function KeptValue(v: Option<string>, k: string): Option<string>
  {
    if v.Some? && !IsBlank(k) && !IsBlank(v.value) then v else None
  }

  /** The entries of a map as they are, with those whose key or value is
      blank (`trim().is_empty()`) left out: the `filter(...).collect()` step. */
  function FilterNonBlank(m: Entries): (r: Entries)
    ensures forall i :: 0 <= i < |r| ==> !IsBlank(r[i].0) && !IsBlank(r[i].1)
    ensures forall lo :: AllAbove(m, lo) ==> AllAbove(r, lo)
    ensures Sorted(m) ==> Sorted(r)
    ensures Sorted(m) ==> forall k :: Get(r, k) == KeptValue(Get(m, k), k)
  {
    if m == [] then []
    else
      var rest := FilterNonBlank(m[1..]);
      assert forall lo :: AllAbove(m, lo) ==> AllAbove(m[1..], lo) by {
        forall lo | AllAbove(m, lo) ensures AllAbove(m[1..], lo) {
          AboveTail(m, lo);
        }
      }
      assert Sorted(m) ==> AllAbove(rest, m[0].0) && Get(rest, m[0].0) == None by {
        if Sorted(m) {
          SortedTail(m);
          AboveMeansAbsent(rest, m[0].0);
        }
      }
      if !IsBlank(m[0].0) && !IsBlank(m[0].1) then
        var r := [m[0]] + rest;
        assert Sorted(m) ==> Sorted(r) by {
          if Sorted(m) {
            SortedTail(m);
            forall i, j | 0 <= i < j < |r| ensures Less(r[i].0, r[j].0) {
              assert r[j] == rest[j - 1];
              if i > 0 { assert r[i] == rest[i - 1]; }
            }
          }
        }
        r
      else
        assert Sorted(m) ==> Sorted(m[1..]) by {
          if Sorted(m) { SortedTail(m); }
        }
        rest
  }
}
