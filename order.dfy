/**
 * Python's ordering of strings and of tuples of strings, and the stable
 * descending sort that `list.sort(key=..., reverse=True)` performs.
 */
module Order {

  /** `a <= b` on Python strings: code-point lexicographic order. */
  predicate StrLe(a: string, b: string) {
    if a == [] then true
    else if b == [] then false
    else if a[0] != b[0] then a[0] < b[0]
    else StrLe(a[1..], b[1..])
  }

  /** `a <= b` on Python tuples of strings: the first differing component decides. */
  predicate KeyLe(a: seq<string>, b: seq<string>) {
    if a == [] then true
    else if b == [] then false
    else if a[0] != b[0] then StrLe(a[0], b[0])
    else KeyLe(a[1..], b[1..])
  }

  lemma {:induction false} StrLeTotal(a: string, b: string)
    ensures StrLe(a, b) || StrLe(b, a)
    decreases |a|
  {
    if a != [] && b != [] && a[0] == b[0] {
      StrLeTotal(a[1..], b[1..]);
    }
  }

  lemma {:induction false} StrLeTrans(a: string, b: string, c: string)
    requires StrLe(a, b) && StrLe(b, c)
    ensures StrLe(a, c)
    decreases |a|
  {
    if a != [] && b != [] && c != [] && a[0] == b[0] == c[0] {
      StrLeTrans(a[1..], b[1..], c[1..]);
    }
  }

  lemma {:induction false} StrLeAntisym(a: string, b: string)
    requires StrLe(a, b) && StrLe(b, a)
    ensures a == b
    decreases |a|
  {
    if a != [] {
      StrLeAntisym(a[1..], b[1..]);
      assert a == [a[0]] + a[1..] && b == [b[0]] + b[1..];
    }
  }

  lemma {:induction false} KeyLeTotal(a: seq<string>, b: seq<string>)
    ensures KeyLe(a, b) || KeyLe(b, a)
    decreases |a|
  {
    if a != [] && b != [] {
      if a[0] == b[0] {
        KeyLeTotal(a[1..], b[1..]);
      } else {
        StrLeTotal(a[0], b[0]);
      }
    }
  }

  lemma {:induction false} KeyLeTrans(a: seq<string>, b: seq<string>, c: seq<string>)
    requires KeyLe(a, b) && KeyLe(b, c)
    ensures KeyLe(a, c)
    decreases |a|
  {
    if a != [] && b != [] && c != [] {
      if a[0] == b[0] == c[0] {
        KeyLeTrans(a[1..], b[1..], c[1..]);
      } else if a[0] == b[0] {
        assert StrLe(b[0], c[0]);
      } else if b[0] == c[0] {
        assert StrLe(a[0], b[0]);
      } else {
        StrLeTrans(a[0], b[0], c[0]);
        if a[0] == c[0] {
          StrLeAntisym(a[0], b[0]);
        }
      }
    }
  }

  /** A one-component key orders exactly as its string does. */
  lemma SingletonKeyLe(a: string, b: string)
    ensures KeyLe([a], [b]) <==> StrLe(a, b)
  {
    if a == b {
      assert [a][1..] == [];
      StrLeTotal(a, a);
    }
  }

  /** Every key in `s` is at least the next one: non-increasing order. */
  ghost predicate SortedDesc<T>(s: seq<T>, key: T -> seq<string>) {
    forall i, j :: 0 <= i < j < |s| ==> KeyLe(key(s[j]), key(s[i]))
  }

  /**
   * Places `x` in front of the first element whose key is at most `x`'s, so
   * that `x` precedes the elements with an equal key that follow it.
   */
  function Insert<T>(x: T, s: seq<T>, key: T -> seq<string>): (r: seq<T>)
    ensures multiset(r) == multiset(s) + multiset{x}
    ensures |r| == |s| + 1
  {
    if s == [] then [x]
    else if KeyLe(key(s[0]), key(x)) then [x] + s
    else
      assert s == [s[0]] + s[1..];
      [s[0]] + Insert(x, s[1..], key)
  }

  /**
   * Stable descending sort: the order Python's `sort(key=key, reverse=True)`
   * produces, where elements with equal keys keep their original order.
   */
  function SortDesc<T>(s: seq<T>, key: T -> seq<string>): (r: seq<T>)
    ensures multiset(r) == multiset(s)
    ensures |r| == |s|
  {
    if s == [] then []
    else
      assert s == [s[0]] + s[1..];
      Insert(s[0], SortDesc(s[1..], key), key)
  }

  /** Two elements come out greater key first, and in their given order when that is not strictly smaller. */
  lemma SortPair<T>(a: T, b: T, key: T -> seq<string>)
    ensures !KeyLe(key(b), key(a)) ==> SortDesc([a, b], key) == [b, a]
    ensures KeyLe(key(b), key(a)) ==> SortDesc([a, b], key) == [a, b]
  {
    assert [a, b][1..] == [b];
    assert [b][1..] == [];
  }

  lemma {:induction false} InsertSorted<T>(x: T, s: seq<T>, key: T -> seq<string>)
    requires SortedDesc(s, key)
    ensures SortedDesc(Insert(x, s, key), key)
    decreases |s|
  {
    if s == [] {
    } else if KeyLe(key(s[0]), key(x)) {
      var r := [x] + s;
      forall i, j | 0 <= i < j < |r| ensures KeyLe(key(r[j]), key(r[i])) {
        if i == 0 {
          if j > 1 { KeyLeTrans(key(s[j - 1]), key(s[0]), key(x)); }
        }
      }
    } else {
      KeyLeTotal(key(s[0]), key(x));
      InsertSorted(x, s[1..], key);
      var tail := Insert(x, s[1..], key);
      var r := [s[0]] + tail;
      forall j | 0 <= j < |tail| ensures KeyLe(key(tail[j]), key(s[0])) {
        assert tail[j] in multiset(tail);
        if tail[j] != x {
          assert tail[j] in multiset(s[1..]);
          var k :| 0 <= k < |s[1..]| && s[1..][k] == tail[j];
          assert s[k + 1] == tail[j];
        }
      }
      forall i, j | 0 <= i < j < |r| ensures KeyLe(key(r[j]), key(r[i])) {
        if i == 0 {
          assert r[j] == tail[j - 1];
        } else {
          assert r[i] == tail[i - 1] && r[j] == tail[j - 1];
        }
      }
    }
  }

  lemma {:induction false} SortDescSorted<T>(s: seq<T>, key: T -> seq<string>)
    ensures SortedDesc(SortDesc(s, key), key)
    decreases |s|
  {
    if s != [] {
      SortDescSorted(s[1..], key);
      InsertSorted(s[0], SortDesc(s[1..], key), key);
    }
  }

  /** The elements of `s` whose key is `k`, in their order in `s`. */
  function WithKey<T>(s: seq<T>, key: T -> seq<string>, k: seq<string>): seq<T> {
    if s == [] then []
    else (if key(s[0]) == k then [s[0]] else []) + WithKey(s[1..], key, k)
  }

  lemma KeyLeReflexive(a: seq<string>)
    ensures KeyLe(a, a)
  {
    KeyLeTotal(a, a);
  }

  /** `Insert` puts `x` ahead of every element with the same key. */
  lemma {:induction false} InsertWithKey<T>(x: T, s: seq<T>, key: T -> seq<string>, k: seq<string>)
    ensures WithKey(Insert(x, s, key), key, k) == (if key(x) == k then [x] else []) + WithKey(s, key, k)
    decreases |s|
  {
    if s == [] {
      assert [x][1..] == [];
    } else if KeyLe(key(s[0]), key(x)) {
      assert ([x] + s)[1..] == s;
    } else {
      InsertWithKey(x, s[1..], key, k);
      InsertPastSmallerKey(x, s, key, k);
    }
  }

  /** An element whose key is above `x`'s stays ahead of it. */
  lemma InsertPast<T>(x: T, s: seq<T>, key: T -> seq<string>)
    requires s != [] && !KeyLe(key(s[0]), key(x))
    ensures Insert(x, s, key) == [s[0]] + Insert(x, s[1..], key)
  {
  }

  /** `WithKey` on a sequence with a known first element. */
  lemma WithKeyCons<T>(a: T, t: seq<T>, key: T -> seq<string>, k: seq<string>)
    ensures WithKey([a] + t, key, k) == (if key(a) == k then [a] else []) + WithKey(t, key, k)
  {
    assert ([a] + t)[0] == a && ([a] + t)[1..] == t;
  }

  /** Two heads, at least one of them empty, can be put in front in either order. */
  lemma SwapEmptyHead<T>(h: seq<T>, g: seq<T>, w: seq<T>)
    requires h == [] || g == []
    ensures h + (g + w) == g + (h + w)
  {
  }

  /** The step of `InsertWithKey` where `x` goes past the first element, whose key differs from its own. */
  lemma InsertPastSmallerKey<T>(x: T, s: seq<T>, key: T -> seq<string>, k: seq<string>)
    requires s != [] && !KeyLe(key(s[0]), key(x))
    requires WithKey(Insert(x, s[1..], key), key, k) == (if key(x) == k then [x] else []) + WithKey(s[1..], key, k)
    ensures WithKey(Insert(x, s, key), key, k) == (if key(x) == k then [x] else []) + WithKey(s, key, k)
  {
    var g := if key(x) == k then [x] else [];
    var h := if key(s[0]) == k then [s[0]] else [];
    var tail := Insert(x, s[1..], key);
    InsertPast(x, s, key);
    WithKeyCons(s[0], tail, key, k);
    assert WithKey(Insert(x, s, key), key, k) == h + (g + WithKey(s[1..], key, k));
    assert [s[0]] + s[1..] == s;
    WithKeyCons(s[0], s[1..], key, k);
    if key(x) == k {
      KeyLeReflexive(k);
      assert h == [];
    }
    SwapEmptyHead(h, g, WithKey(s[1..], key, k));
  }

  /**
   * The sort is stable: for every key, the elements carrying it come out in
   * the order they went in.
   */
  lemma {:induction false} SortDescStable<T>(s: seq<T>, key: T -> seq<string>, k: seq<string>)
    ensures WithKey(SortDesc(s, key), key, k) == WithKey(s, key, k)
    decreases |s|
  {
    if s != [] {
      SortDescStable(s[1..], key, k);
      InsertWithKey(s[0], SortDesc(s[1..], key), key, k);
    }
  }
}
