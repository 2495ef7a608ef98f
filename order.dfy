/** Go's byte-wise string order and the sorted listings the core relies on:
    `sort.Slice` by path in `HashDirectory`, and the sorted entries that
    `os.ReadDir`, `filepath.Walk` and `embed.FS.ReadDir` return. */
module Order {

  /** Go's `a < b` on strings: byte-wise lexicographic order. */
  predicate Less(a: string, b: string)
    decreases |a|
  {
    if |a| == 0 then |b| > 0
    else if |b| == 0 then false
    else a[0] < b[0] || (a[0] == b[0] && Less(a[1..], b[1..]))
  }

  lemma {:induction false} LessIrreflexive(a: string)
    ensures !Less(a, a)
    decreases |a|
  {
    if |a| > 0 { LessIrreflexive(a[1..]); }
  }

  lemma {:induction false} LessTransitive(a: string, b: string, c: string)
    requires Less(a, b) && Less(b, c)
    ensures Less(a, c)
    decreases |a|
  {
    if |a| > 0 && |b| > 0 && |c| > 0 && a[0] == b[0] == c[0] {
      LessTransitive(a[1..], b[1..], c[1..]);
    }
  }

  lemma {:induction false} LessTotal(a: string, b: string)
    requires a != b
    ensures Less(a, b) || Less(b, a)
    decreases |a|
  {
    if |a| > 0 && |b| > 0 && a[0] == b[0] {
      assert a == [a[0]] + a[1..] && b == [b[0]] + b[1..];
      LessTotal(a[1..], b[1..]);
    }
  }

  lemma LessAsymmetric(a: string, b: string)
    requires Less(a, b)
    ensures !Less(b, a)
  {
    if Less(b, a) {
      LessTransitive(a, b, a);
      LessIrreflexive(a);
    }
  }

  /** Strictly increasing by key: sorted, and no key twice. */
  ghost predicate SortedBy<T>(s: seq<T>, key: T -> string)
  {
    forall i, j :: 0 <= i < j < |s| ==> Less(key(s[i]), key(s[j]))
  }

  ghost predicate InjectiveOn<T>(s: set<T>, key: T -> string)
  {
    forall x, y :: x in s && y in s && key(x) == key(y) ==> x == y
  }

  ghost predicate DistinctKeys<T>(s: seq<T>, key: T -> string)
  {
    forall i, j :: 0 <= i < |s| && 0 <= j < |s| && i != j ==> key(s[i]) != key(s[j])
  }

  /** Two strictly sorted sequences holding the same elements are equal: the
      sorted listing of a collection does not depend on how it was found. */
  lemma {:induction false} SortedUnique<T>(a: seq<T>, b: seq<T>, key: T -> string)
    requires SortedBy(a, key) && SortedBy(b, key)
    requires multiset(a) == multiset(b)
    ensures a == b
    decreases |a|
  {
    if |a| > 0 {
      assert |b| > 0 by { assert a[0] in multiset(a); }
      if a[0] != b[0] {
        assert b[0] in multiset(a);
        var k :| 0 <= k < |a| && a[k] == b[0];
        assert a[0] in multiset(b);
        var m :| 0 <= m < |b| && b[m] == a[0];
        assert k > 0 && m > 0;
        LessAsymmetric(key(a[0]), key(a[k]));
        assert false;
      }
      assert a == [a[0]] + a[1..] && b == [b[0]] + b[1..];
      assert multiset(a[1..]) == multiset(b[1..]) by {
        assert multiset(a) == multiset([a[0]]) + multiset(a[1..]);
        assert multiset(b) == multiset([b[0]]) + multiset(b[1..]);
        assert multiset(a[1..]) == multiset(a) - multiset([a[0]]);
        assert multiset(b[1..]) == multiset(b) - multiset([b[0]]);
      }
      SortedUnique(a[1..], b[1..], key);
    }
  }

  /** Insert `x` before the first element whose key is larger. */
  function Insert<T>(x: T, s: seq<T>, key: T -> string): (r: seq<T>)
    ensures |r| == |s| + 1
  {
    if |s| == 0 then [x]
    else if Less(key(x), key(s[0])) then [x] + s
    else [s[0]] + Insert(x, s[1..], key)
  }

  lemma {:induction false} InsertMultiset<T>(x: T, s: seq<T>, key: T -> string)
    ensures multiset(Insert(x, s, key)) == multiset(s) + multiset{x}
  {
    if |s| > 0 && !Less(key(x), key(s[0])) {
      InsertMultiset(x, s[1..], key);
      assert s == [s[0]] + s[1..];
    }
  }

  lemma {:induction false} InsertSorted<T>(x: T, s: seq<T>, key: T -> string)
    requires SortedBy(s, key)
    requires forall k :: 0 <= k < |s| ==> key(s[k]) != key(x)
    ensures SortedBy(Insert(x, s, key), key)
  {
    if |s| == 0 {
    } else if Less(key(x), key(s[0])) {
      InsertFront(x, s, key);
    } else {
      LessTotal(key(x), key(s[0]));
      InsertSorted(x, s[1..], key);
      InsertMultiset(x, s[1..], key);
      InsertBehind(x, s, key);
    }
  }

  /** An element smaller than the head goes in front. */
  lemma InsertFront<T>(x: T, s: seq<T>, key: T -> string)
    requires SortedBy(s, key) && |s| > 0 && Less(key(x), key(s[0]))
    ensures SortedBy([x] + s, key)
  {
    forall k | 0 < k < |s| ensures Less(key(x), key(s[k])) {
      LessTransitive(key(x), key(s[0]), key(s[k]));
    }
    var r := [x] + s;
    forall i, j | 0 <= i < j < |r| ensures Less(key(r[i]), key(r[j])) {
      if i > 0 { assert r[i] == s[i - 1] && r[j] == s[j - 1]; }
    }
  }

  /** Behind a smaller head, the head followed by the sorted insertion into
      the tail is sorted. */
  lemma InsertBehind<T>(x: T, s: seq<T>, key: T -> string)
    requires SortedBy(s, key) && |s| > 0 && Less(key(s[0]), key(x))
    requires SortedBy(Insert(x, s[1..], key), key)
    requires multiset(Insert(x, s[1..], key)) == multiset(s[1..]) + multiset{x}
    ensures SortedBy([s[0]] + Insert(x, s[1..], key), key)
  {
    var t := Insert(x, s[1..], key);
    forall k | 0 <= k < |t| ensures Less(key(s[0]), key(t[k])) {
      assert t[k] in multiset(t);
      if t[k] != x {
        assert t[k] in multiset(s[1..]);
        var j :| 0 <= j < |s[1..]| && s[1..][j] == t[k];
        assert s[j + 1] == t[k];
      }
    }
    var r := [s[0]] + t;
    forall i, j | 0 <= i < j < |r| ensures Less(key(r[i]), key(r[j])) {
      if i > 0 { assert r[i] == t[i - 1] && r[j] == t[j - 1]; }
    }
  }

  /** Insertion sort by key; the model of Go's `sort.Slice` with the order
      `key(s[i]) < key(s[j])`. */
  function SortBy<T>(s: seq<T>, key: T -> string): (r: seq<T>)
    ensures |r| == |s|
  {
    if |s| == 0 then [] else Insert(s[0], SortBy(s[1..], key), key)
  }

  lemma {:induction false} SortByMultiset<T>(s: seq<T>, key: T -> string)
    ensures multiset(SortBy(s, key)) == multiset(s)
  {
    if |s| > 0 {
      SortByMultiset(s[1..], key);
      InsertMultiset(s[0], SortBy(s[1..], key), key);
      assert s == [s[0]] + s[1..];
    }
  }

  /** With distinct keys the sort is strictly increasing, so it is the unique
      sorted permutation and the non-stable Go sort gives the same. */
  lemma {:induction false} SortBySorted<T>(s: seq<T>, key: T -> string)
    requires DistinctKeys(s, key)
    ensures SortedBy(SortBy(s, key), key)
  {
    if |s| > 0 {
      var rest := SortBy(s[1..], key);
      assert DistinctKeys(s[1..], key) by {
        forall i, j | 0 <= i < |s[1..]| && 0 <= j < |s[1..]| && i != j
          ensures key(s[1..][i]) != key(s[1..][j])
        {
          assert s[1..][i] == s[i + 1] && s[1..][j] == s[j + 1];
        }
      }
      SortBySorted(s[1..], key);
      SortByMultiset(s[1..], key);
      forall k | 0 <= k < |rest| ensures key(rest[k]) != key(s[0]) {
        assert rest[k] in multiset(s[1..]);
        var j :| 0 <= j < |s[1..]| && s[1..][j] == rest[k];
        assert s[j + 1] == rest[k];
      }
      InsertSorted(s[0], rest, key);
    }
  }

  /** `m` is the element of `s` with the smallest key. */
  ghost predicate IsMin<T>(m: T, s: set<T>, key: T -> string)
  {
    m in s && forall x :: x in s && x != m ==> Less(key(m), key(x))
  }

  lemma {:induction false} MinExists<T>(s: set<T>, key: T -> string)
    requires s != {} && InjectiveOn(s, key)
    ensures exists m :: IsMin(m, s, key)
    decreases |s|
  {
    var y :| y in s;
    if s == {y} {
      assert IsMin(y, s, key);
    } else {
      var t := s - {y};
      MinExists(t, key);
      var m :| IsMin(m, t, key);
      assert key(m) != key(y);
      MinAdd(t, m, y, key);
      assert t + {y} == s;
    }
  }

  /** Adding an element to a set with a least element gives a least element. */
  lemma MinAdd<T>(t: set<T>, m: T, y: T, key: T -> string)
    requires IsMin(m, t, key) && y !in t && key(m) != key(y)
    ensures IsMin(m, t + {y}, key) || IsMin(y, t + {y}, key)
  {
    if !Less(key(m), key(y)) {
      LessTotal(key(m), key(y));
      forall x | x in t + {y} && x != y ensures Less(key(y), key(x)) {
        if x != m { LessTransitive(key(y), key(m), key(x)); }
      }
    }
  }

  /** The least element comes before everything that holds the rest. */
  lemma MinBeforeRest<T>(m: T, s: set<T>, rest: seq<T>, key: T -> string)
    requires IsMin(m, s, key) && multiset(rest) == multiset(s - {m})
    ensures forall k :: 0 <= k < |rest| ==> Less(key(m), key(rest[k]))
  {
    forall k | 0 <= k < |rest| ensures Less(key(m), key(rest[k])) {
      assert rest[k] in multiset(rest);
    }
  }

  lemma TakeOut<T>(s: set<T>, m: T)
    requires m in s
    ensures multiset(s) == multiset{m} + multiset(s - {m})
  {
    assert s == {m} + (s - {m});
  }

  /** The sorted listing of a finite set whose elements have distinct keys. */
  ghost function SortedSetBy<T>(s: set<T>, key: T -> string): (r: seq<T>)
    requires InjectiveOn(s, key)
    ensures SortedBy(r, key)
    ensures multiset(r) == multiset(s)
    decreases |s|
  {
    if s == {} then []
    else
      MinExists(s, key);
      var m :| IsMin(m, s, key);
      var rest := SortedSetBy(s - {m}, key);
      MinBeforeRest(m, s, rest, key);
      TakeOut(s, m);
      [m] + rest
  }

  /** Any order of collecting distinct-key elements, once sorted, gives the
      sorted listing of the set they form. */
  lemma SortByCanonical<T>(s: seq<T>, elems: set<T>, key: T -> string)
    requires DistinctKeys(s, key)
    requires InjectiveOn(elems, key)
    requires multiset(s) == multiset(elems)
    ensures SortBy(s, key) == SortedSetBy(elems, key)
  {
    SortBySorted(s, key);
    SortByMultiset(s, key);
    SortedUnique(SortBy(s, key), SortedSetBy(elems, key), key);
  }

  /** A sequence without two equal keys holds each of its elements once. */
  lemma {:induction false} DistinctMultiset<T>(s: seq<T>, key: T -> string)
    requires DistinctKeys(s, key)
    ensures multiset(s) == multiset(set x | x in s)
    decreases |s|
  {
    if |s| > 0 {
      var t := s[..|s| - 1];
      var x := s[|s| - 1];
      DropLast(s, key);
      DistinctMultiset(t, key);
      AddLast(t, x);
      assert s == t + [x];
    }
  }

  /** Dropping the last element keeps the keys distinct, and that element
      does not occur before it. */
  lemma DropLast<T>(s: seq<T>, key: T -> string)
    requires DistinctKeys(s, key) && |s| > 0
    ensures DistinctKeys(s[..|s| - 1], key)
    ensures s[|s| - 1] !in s[..|s| - 1]
  {
    var t := s[..|s| - 1];
    forall i, j | 0 <= i < |t| && 0 <= j < |t| && i != j ensures key(t[i]) != key(t[j]) {
      assert t[i] == s[i] && t[j] == s[j];
    }
    forall i | 0 <= i < |t| ensures t[i] != s[|s| - 1] {
      assert key(s[i]) != key(s[|s| - 1]);
    }
  }

  /** Appending a new element adds it once to both the sequence and its set. */
  lemma AddLast<T>(t: seq<T>, x: T)
    requires x !in t && multiset(t) == multiset(set y | y in t)
    ensures multiset(t + [x]) == multiset(set y | y in t + [x])
  {
    var st := set y | y in t;
    assert (set y | y in t + [x]) == st + {x};
    assert x !in st;
    assert multiset(st + {x}) == multiset(st) + multiset{x};
  }
}
