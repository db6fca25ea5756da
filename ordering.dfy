/**
 * The orders src/app.rs sorts by. Rust orders `&str` lexicographically by
 * code point. `sort_by_key` is stable and both of its inputs come from a
 * `BTreeMap<usize, _>` in ascending id order, so the sorted list is the unique
 * list ordered strictly by (key, id).
 */
module Ordering {

  /** Lexicographic order on strings: a proper prefix, or a smaller character at the first difference. */
  function LessName(a: string, b: string): bool
    decreases |a|
  {
    if a == [] then b != []
    else if b == [] then false
    else if a[0] != b[0] then a[0] < b[0]
    else LessName(a[1..], b[1..])
  }

  /** No string is less than itself. */
  lemma {:induction false} LessNameIrreflexive(a: string)
    ensures !LessName(a, a)
    decreases |a|
  {
    if a != [] {
      LessNameIrreflexive(a[1..]);
    }
  }

  /** The order is transitive. */
  lemma {:induction false} LessNameTransitive(a: string, b: string, c: string)
    requires LessName(a, b) && LessName(b, c)
    ensures LessName(a, c)
    decreases |a|
  {
    if a != [] && b != [] && c != [] && a[0] == b[0] && b[0] == c[0] {
      LessNameTransitive(a[1..], b[1..], c[1..]);
    }
  }

  /** Of two different strings one is less than the other, and never both. */
  lemma {:induction false} LessNameTotal(a: string, b: string)
    ensures a != b <==> LessName(a, b) || LessName(b, a)
    ensures !(LessName(a, b) && LessName(b, a))
    decreases |a|
  {
    if a != [] && b != [] && a[0] == b[0] {
      LessNameTotal(a[1..], b[1..]);
      assert a == [a[0]] + a[1..] && b == [b[0]] + b[1..];
    } else if a == [] {
      LessNameIrreflexive(b);
    }
  }

  /** A name starting with a character below `'~'` sorts before `"~"`, the key `value_tuples` gives `han_solo`. */
  lemma BelowTilde(name: string)
    requires name != [] && name[0] < '~'
    ensures LessName(name, "~")
  {
  }

  /** The sort order of ids: by key, ties broken by the smaller id. */
  predicate Before(key: nat -> string, x: nat, y: nat) {
    LessName(key(x), key(y)) || (key(x) == key(y) && x < y)
  }

  /** `Before` is a strict total order. */
  lemma BeforeTotal(key: nat -> string, x: nat, y: nat)
    ensures x != y <==> Before(key, x, y) || Before(key, y, x)
    ensures !(Before(key, x, y) && Before(key, y, x))
  {
    LessNameTotal(key(x), key(y));
    LessNameIrreflexive(key(x));
  }

  /** `Before` is transitive. */
  lemma BeforeTransitive(key: nat -> string, x: nat, y: nat, z: nat)
    requires Before(key, x, y) && Before(key, y, z)
    ensures Before(key, x, z)
  {
    if LessName(key(x), key(y)) && LessName(key(y), key(z)) {
      LessNameTransitive(key(x), key(y), key(z));
    }
  }

  /** Every earlier id comes strictly before every later one. */
  predicate StrictlySorted(xs: seq<nat>, key: nat -> string) {
    forall i, j :: 0 <= i < j < |xs| ==> Before(key, xs[i], xs[j])
  }

  /** `x` inserted into a sorted list at its place. */
  function Insert(xs: seq<nat>, x: nat, key: nat -> string): (r: seq<nat>)
    ensures |r| == |xs| + 1
    decreases |xs|
  {
    if xs == [] then [x]
    else if Before(key, x, xs[0]) then [x] + xs
    else [xs[0]] + Insert(xs[1..], x, key)
  }

  /** Inserting a new id keeps the list sorted and adds exactly that id. */
  lemma {:induction false} InsertSorted(xs: seq<nat>, x: nat, key: nat -> string)
    requires StrictlySorted(xs, key) && x !in xs
    ensures StrictlySorted(Insert(xs, x, key), key)
    ensures forall y :: y in Insert(xs, x, key) <==> y in xs || y == x
    decreases |xs|
  {
    if xs == [] {
    } else if Before(key, x, xs[0]) {
      forall j | 0 < j < |xs|
        ensures Before(key, x, xs[j])
      {
        BeforeTransitive(key, x, xs[0], xs[j]);
      }
    } else {
      var tail := xs[1..];
      assert StrictlySorted(tail, key);
      InsertSorted(tail, x, key);
      BeforeTotal(key, x, xs[0]);
      assert xs == [xs[0]] + tail;
      var rt := Insert(tail, x, key);
      forall j | 0 <= j < |rt|
        ensures Before(key, xs[0], rt[j])
      {
        assert rt[j] in rt;
        if rt[j] != x {
          var k :| 0 <= k < |tail| && tail[k] == rt[j];
          assert xs[k + 1] == tail[k];
        }
      }
      var r := [xs[0]] + rt;
      forall i, j | 0 <= i < j < |r|
        ensures Before(key, r[i], r[j])
      {
        if i == 0 {
          assert r[j] == rt[j - 1];
        } else {
          assert r[i] == rt[i - 1] && r[j] == rt[j - 1];
        }
      }
    }
  }

  /** The sort of an id set: the ids in `Before` order. */
  method SortIds(ids: set<nat>, key: nat -> string) returns (r: seq<nat>)
    ensures StrictlySorted(r, key)
    ensures forall x :: x in r <==> x in ids
  {
    r := [];
    var rest := ids;
    while rest != {}
      invariant rest <= ids
      invariant StrictlySorted(r, key)
      invariant forall x :: x in r <==> x in ids && x !in rest
      decreases rest
    {
      var x :| x in rest;
      InsertSorted(r, x, key);
      r := Insert(r, x, key);
      rest := rest - {x};
    }
  }

  /** A sorted list holds no id twice. */
  lemma SortedDistinct(xs: seq<nat>, key: nat -> string, i: nat, j: nat)
    requires StrictlySorted(xs, key) && i < j < |xs|
    ensures xs[i] != xs[j]
  {
    BeforeTotal(key, xs[i], xs[j]);
  }

  /** Two sorted lists of the same ids are equal: the sort result is determined by the set. */
  lemma {:induction false} SortedUnique(xs: seq<nat>, ys: seq<nat>, key: nat -> string)
    requires StrictlySorted(xs, key) && StrictlySorted(ys, key)
    requires forall x :: x in xs <==> x in ys
    ensures xs == ys
    decreases |xs|
  {
    assert xs != [] ==> xs[0] in ys;
    assert ys != [] ==> ys[0] in xs;
    if xs != [] && ys != [] {
      if xs[0] != ys[0] {
        assert xs[0] in xs && ys[0] in ys;
        var i :| 0 <= i < |ys| && ys[i] == xs[0];
        var j :| 0 <= j < |xs| && xs[j] == ys[0];
        assert Before(key, ys[0], ys[i]) && Before(key, xs[0], xs[j]);
        BeforeTotal(key, xs[0], ys[0]);
        assert false;
      }
      assert xs == [xs[0]] + xs[1..] && ys == [ys[0]] + ys[1..];
      forall x
        ensures x in xs[1..] <==> x in ys[1..]
      {
        if x in xs[1..] {
          var i :| 0 <= i < |xs[1..]| && xs[1..][i] == x;
          SortedDistinct(xs, key, 0, i + 1);
          assert xs[i + 1] == x && x in xs;
          var k :| 0 <= k < |ys| && ys[k] == x;
          assert ys[1..][k - 1] == x;
        }
        if x in ys[1..] {
          var i :| 0 <= i < |ys[1..]| && ys[1..][i] == x;
          SortedDistinct(ys, key, 0, i + 1);
          assert ys[i + 1] == x && x in ys;
          var k :| 0 <= k < |xs| && xs[k] == x;
          assert xs[1..][k - 1] == x;
        }
      }
      SortedUnique(xs[1..], ys[1..], key);
    }
  }
}
