/** `Array.prototype.sort` with a comparator of the form
    `(a, b) => key(a).localeCompare(key(b))`: a stable sort by a string key, where the
    locale-aware comparison is modelled by plain lexicographic order (`Text.LexLeq`). */
module Sorting {
  import opened Text

  /** Every earlier element's key is at most every later element's key. */
  ghost predicate SortedBy<T>(s: seq<T>, key: T -> string) {
    forall i, j :: 0 <= i < j < |s| ==> LexLeq(key(s[i]), key(s[j]))
  }

  /** Places `x` after every element of `s` whose key is at most `x`'s, so that equal
      keys keep their arrival order. */
  function Insert<T>(x: T, s: seq<T>, key: T -> string): (r: seq<T>)
    requires SortedBy(s, key)
    ensures SortedBy(r, key)
    ensures multiset(r) == multiset(s) + multiset{x}
    ensures |r| == |s| + 1
  {
    if s == [] then [x]
    else if LexLeq(key(s[0]), key(x)) then
      var rest := Insert(x, s[1..], key);
      assert s == [s[0]] + s[1..];
      assert forall j :: 0 <= j < |rest| ==> LexLeq(key(s[0]), key(rest[j])) by {
        forall j | 0 <= j < |rest| ensures LexLeq(key(s[0]), key(rest[j])) {
          assert rest[j] in multiset(rest);
          if rest[j] != x {
            assert rest[j] in multiset(s[1..]);
            var k :| 0 <= k < |s[1..]| && s[1..][k] == rest[j];
            assert s[k + 1] == rest[j];
          }
        }
      }
      [s[0]] + rest
    else
      LexLeqTotal(key(s[0]), key(x));
      assert forall j :: 0 <= j < |s| ==> LexLeq(key(x), key(s[j])) by {
        forall j | 0 <= j < |s| ensures LexLeq(key(x), key(s[j])) {
          if j > 0 {
            LexLeqTransitive(key(x), key(s[0]), key(s[j]));
          }
        }
      }
      [x] + s
  }

  /** Insertion sort: a stable sort of `s` by `key`. */
  function SortBy<T>(s: seq<T>, key: T -> string): (r: seq<T>)
    ensures SortedBy(r, key)
    ensures multiset(r) == multiset(s)
    ensures |r| == |s|
  {
    if s == [] then []
    else
      var init := s[..|s| - 1];
      assert s == init + [s[|s| - 1]];
      Insert(s[|s| - 1], SortBy(init, key), key)
  }

  /** How many leading elements of `s` have a key at most `x`'s: where `Insert` puts `x`. */
  function InsertIndex<T>(x: T, s: seq<T>, key: T -> string): (i: nat)
    ensures i <= |s|
    ensures forall k :: 0 <= k < i ==> LexLeq(key(s[k]), key(x))
    ensures i < |s| ==> !LexLeq(key(s[i]), key(x))
  {
    if s == [] || !LexLeq(key(s[0]), key(x)) then 0
    else 1 + InsertIndex(x, s[1..], key)
  }

  lemma SortedTail<T>(s: seq<T>, key: T -> string)
    requires s != [] && SortedBy(s, key)
    ensures SortedBy(s[1..], key)
  {
    var tail := s[1..];
    forall i, j | 0 <= i < j < |tail| ensures LexLeq(key(tail[i]), key(tail[j])) {
      assert tail[i] == s[i + 1] && tail[j] == s[j + 1];
    }
  }

  /** `Insert` puts `x` at `InsertIndex` and leaves the rest of `s` in place. */
  lemma {:induction false} InsertSplits<T>(x: T, s: seq<T>, key: T -> string)
    requires SortedBy(s, key)
    ensures var i := InsertIndex(x, s, key); Insert(x, s, key) == s[..i] + [x] + s[i..]
  {
    if s == [] {
      assert Insert(x, s, key) == [x];
    } else if LexLeq(key(s[0]), key(x)) {
      SortedTail(s, key);
      InsertSplits(x, s[1..], key);
      InsertSplitsStep(x, s, key);
    } else {
      assert InsertIndex(x, s, key) == 0;
      assert Insert(x, s, key) == [x] + s;
    }
  }

  /** The step of `InsertSplits` past an element whose key is at most `x`'s. */
  lemma InsertSplitsStep<T>(x: T, s: seq<T>, key: T -> string)
    requires s != [] && SortedBy(s, key) && SortedBy(s[1..], key) && LexLeq(key(s[0]), key(x))
    requires var i := InsertIndex(x, s[1..], key); Insert(x, s[1..], key) == s[1..][..i] + [x] + s[1..][i..]
    ensures var i := InsertIndex(x, s, key); Insert(x, s, key) == s[..i] + [x] + s[i..]
  {
    var tail := s[1..];
    var i := InsertIndex(x, tail, key);
    assert InsertIndex(x, s, key) == i + 1;
    assert Insert(x, s, key) == [s[0]] + Insert(x, tail, key);
    SplitAfterHead(s, x, i, Insert(x, tail, key), Insert(x, s, key));
  }

  /** Putting `x` at position `i` of `s[1..]` and then the head in front puts it at `i + 1`. */
  lemma SplitAfterHead<T>(s: seq<T>, x: T, i: nat, r: seq<T>, t: seq<T>)
    requires i < |s| && r == s[1..][..i] + [x] + s[1..][i..] && t == [s[0]] + r
    ensures t == s[..i + 1] + [x] + s[i + 1..]
  {
    assert s[..i + 1] == [s[0]] + s[1..][..i];
    assert s[i + 1..] == s[1..][i..];
  }

  /** In a sorted sequence every element from `InsertIndex` on has a key greater than `x`'s. */
  lemma InsertIndexBeforeGreater<T>(x: T, s: seq<T>, key: T -> string)
    requires SortedBy(s, key)
    ensures forall k :: InsertIndex(x, s, key) <= k < |s| ==> !LexLeq(key(s[k]), key(x))
  {
    var i := InsertIndex(x, s, key);
    forall k | i <= k < |s| ensures !LexLeq(key(s[k]), key(x)) {
      if LexLeq(key(s[k]), key(x)) {
        LexLeqTransitive(key(s[i]), key(s[k]), key(x));
      }
    }
  }

  /** `Insert` lands `x` after every element whose key is at most its own and before every
      element whose key is greater, leaving the rest of `s` in place. */
  lemma InsertPlacesAfterEqualKeys<T>(x: T, s: seq<T>, key: T -> string)
    requires SortedBy(s, key)
    ensures var i := InsertIndex(x, s, key);
      && Insert(x, s, key) == s[..i] + [x] + s[i..]
      && (forall k :: 0 <= k < i ==> LexLeq(key(s[k]), key(x)))
      && (forall k :: i <= k < |s| ==> !LexLeq(key(s[k]), key(x)))
  {
    InsertSplits(x, s, key);
    InsertIndexBeforeGreater(x, s, key);
  }

  /** The elements of `s` whose key is `k`, in their order in `s`. */
  function WithKey<T>(s: seq<T>, key: T -> string, k: string): (r: seq<T>)
    ensures |r| <= |s|
    ensures forall j :: 0 <= j < |r| ==> key(r[j]) == k
  {
    if s == [] then []
    else
      assert s == [s[0]] + s[1..];
      (if key(s[0]) == k then [s[0]] else []) + WithKey(s[1..], key, k)
  }

  /** `WithKey` keeps every occurrence of the elements with key `k` and nothing else. */
  lemma {:induction false} WithKeyCounts<T>(s: seq<T>, key: T -> string, k: string)
    ensures forall x :: multiset(WithKey(s, key, k))[x] == if key(x) == k then multiset(s)[x] else 0
  {
    if s != [] {
      WithKeyCounts(s[1..], key, k);
      assert s == [s[0]] + s[1..];
      assert multiset(s) == multiset{s[0]} + multiset(s[1..]);
    }
  }

  lemma {:induction false} WithKeyConcat<T>(a: seq<T>, b: seq<T>, key: T -> string, k: string)
    ensures WithKey(a + b, key, k) == WithKey(a, key, k) + WithKey(b, key, k)
  {
    if a != [] {
      assert (a + b)[1..] == a[1..] + b;
      WithKeyConcat(a[1..], b, key, k);
    } else {
      assert a + b == b;
    }
  }

  lemma {:induction false} WithKeyNone<T>(s: seq<T>, key: T -> string, k: string)
    requires forall j :: 0 <= j < |s| ==> key(s[j]) != k
    ensures WithKey(s, key, k) == []
  {
    if s != [] {
      WithKeyNone(s[1..], key, k);
    }
  }

  /** Inserting `x` appends it to the elements of its key and leaves every other key's
      elements as they were. */
  lemma InsertKeepsKeyOrder<T>(x: T, s: seq<T>, key: T -> string, k: string)
    requires SortedBy(s, key)
    ensures WithKey(Insert(x, s, key), key, k) == WithKey(s, key, k) + (if key(x) == k then [x] else [])
  {
    InsertSplits(x, s, key);
    InsertIndexBeforeGreater(x, s, key);
    LexLeqReflexive(key(x));
    WithKeyAround(s, x, InsertIndex(x, s, key), Insert(x, s, key), key, k);
  }

  /** Putting `x` into `s` at `i`, ahead of no element with its key, appends it to its key's
      elements. */
  lemma WithKeyAround<T>(s: seq<T>, x: T, i: nat, t: seq<T>, key: T -> string, k: string)
    requires i <= |s| && t == s[..i] + [x] + s[i..]
    requires key(x) == k ==> forall j :: i <= j < |s| ==> key(s[j]) != k
    ensures WithKey(t, key, k) == WithKey(s, key, k) + (if key(x) == k then [x] else [])
  {
    assert s == s[..i] + s[i..];
    if key(x) == k {
      WithKeyNoneFrom(s, i, key, k);
    }
    WithKeyAroundParts(s[..i], x, s[i..], key, k);
  }

  /** `WithKeyAround` for a sequence given as its two parts. */
  lemma WithKeyAroundParts<T>(a: seq<T>, x: T, b: seq<T>, key: T -> string, k: string)
    requires key(x) == k ==> WithKey(b, key, k) == []
    ensures WithKey(a + [x] + b, key, k) == WithKey(a + b, key, k) + (if key(x) == k then [x] else [])
  {
    WithKeyConcat(a, b, key, k);
    WithKeyConcat(a + [x], b, key, k);
    WithKeyConcat(a, [x], key, k);
    WithKeySingle(x, key, k);
  }

  lemma WithKeySingle<T>(x: T, key: T -> string, k: string)
    ensures WithKey([x], key, k) == if key(x) == k then [x] else []
  {
    assert [x][1..] == [];
  }

  lemma WithKeyNoneFrom<T>(s: seq<T>, i: nat, key: T -> string, k: string)
    requires i <= |s| && forall j :: i <= j < |s| ==> key(s[j]) != k
    ensures WithKey(s[i..], key, k) == []
  {
    var rest := s[i..];
    forall j | 0 <= j < |rest| ensures key(rest[j]) != k {
      assert rest[j] == s[i + j];
    }
    WithKeyNone(rest, key, k);
  }

  /** Stability: for every key, `SortBy` keeps that key's elements in their input order. */
  lemma {:induction false} SortByIsStable<T>(s: seq<T>, key: T -> string, k: string)
    ensures WithKey(SortBy(s, key), key, k) == WithKey(s, key, k)
  {
    if s != [] {
      var init := s[..|s| - 1];
      var last := s[|s| - 1];
      assert s == init + [last];
      SortByIsStable(init, key, k);
      InsertKeepsKeyOrder(last, SortBy(init, key), key, k);
      WithKeyConcat(init, [last], key, k);
      assert WithKey([last], key, k) == (if key(last) == k then [last] else []) by {
        assert [last][1..] == [];
      }
    }
  }

  /** Dropping the last element keeps a sequence sorted, and that element is the greatest. */
  lemma SortedInit<T>(s: seq<T>, key: T -> string)
    requires SortedBy(s, key) && s != []
    ensures SortedBy(s[..|s| - 1], key)
    ensures forall k :: 0 <= k < |s| - 1 ==> LexLeq(key(s[k]), key(s[|s| - 1]))
  {
  }

  /** Strings are sorted by themselves (`groups.sort((a, b) => a.localeCompare(b))`). */
  function Identity(s: string): string { s }

  /** The first element of a sorted string sequence is its least. */
  lemma HeadIsLeast(a: seq<string>, x: string)
    requires SortedBy(a, Identity) && x in multiset(a)
    ensures LexLeq(a[0], x)
  {
    var i :| 0 <= i < |a| && a[i] == x;
    if i == 0 {
      LexLeqReflexive(x);
    }
  }

  /** Two sorted arrangements of the same strings are equal: sorting the group list has
      exactly one possible outcome. */
  lemma {:induction false} SortedStringsUnique(a: seq<string>, b: seq<string>)
    requires SortedBy(a, Identity) && SortedBy(b, Identity)
    requires multiset(a) == multiset(b)
    ensures a == b
  {
    if a != [] {
      assert a[0] in multiset(b);
      HeadIsLeast(b, a[0]);
      assert b[0] in multiset(a);
      HeadIsLeast(a, b[0]);
      LexLeqAntisymmetric(a[0], b[0]);
      assert a == [a[0]] + a[1..] && b == [b[0]] + b[1..];
      assert multiset(a[1..]) == multiset(b[1..]) by {
        assert multiset(a) == multiset{a[0]} + multiset(a[1..]);
        assert multiset(b) == multiset{b[0]} + multiset(b[1..]);
        forall x ensures multiset(a[1..])[x] == multiset(b[1..])[x] {
          assert multiset(a)[x] == multiset(b)[x];
        }
      }
      SortedStringsUnique(a[1..], b[1..]);
    } else {
      assert |b| == |multiset(b)| == 0;
    }
  }
}
