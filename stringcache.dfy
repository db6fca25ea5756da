/**
 * The string interner of src/stringcache.rs: an insertion-ordered, deduplicating
 * set of strings (an `IndexSet`) whose positions are the dense author ids.
 */
module StringCache {
  import opened Wrappers

  /** No string occurs twice: what `IndexSet` guarantees about its entries. */
  ghost predicate NoDuplicates(entries: seq<string>) {
    forall i, j :: 0 <= i < j < |entries| ==> entries[i] != entries[j]
  }

  /** `IndexSet::get_index_of`: the position of `k`, if it is present. */
  function IndexOf(entries: seq<string>, k: string): (r: Option<nat>)
    ensures r.Some? <==> k in entries
    ensures r.Some? ==> r.value < |entries| && entries[r.value] == k
    ensures r.Some? ==> k !in entries[..r.value]
  {
    if entries == [] then None
    else if entries[0] == k then Some(0)
    else
      match IndexOf(entries[1..], k)
      case None => None
      case Some(i) => assert entries[1..][..i] == entries[1..i + 1]; Some(i + 1)
  }

  /** The entries and the id after `intern(k)`: the old id if `k` is present, else `k` appended. */
  function Interned(entries: seq<string>, k: string): (seq<string>, nat) {
    match IndexOf(entries, k)
    case Some(idx) => (entries, idx)
    case None => (entries + [k], |entries|)
  }

  /** `get`: the string with id `idx`, or None past the end. */
  function Get(entries: seq<string>, idx: nat): (r: Option<string>)
    ensures r.None? <==> idx >= |entries|
    ensures r.Some? ==> r.value == entries[idx]
  {
    if idx < |entries| then Some(entries[idx]) else None
  }

  /** In a set without duplicates a string has exactly one id. */
  lemma {:induction false} IndexOfUnique(entries: seq<string>, k: string, i: nat)
    requires NoDuplicates(entries)
    requires i < |entries| && entries[i] == k
    ensures IndexOf(entries, k) == Some(i)
  {
    var r := IndexOf(entries, k).value;
    assert k !in entries[..r];
    assert r <= i ==> entries[r] == entries[i];
  }

  /** Interning keeps the entries free of duplicates. */
  lemma InternPreservesNoDuplicates(entries: seq<string>, k: string)
    requires NoDuplicates(entries)
    ensures NoDuplicates(Interned(entries, k).0)
  {
  }

  /** resolve(intern(k)) == k, and the returned id is in range. */
  lemma InternThenGet(entries: seq<string>, k: string)
    ensures var (e, idx) := Interned(entries, k); Get(e, idx) == Some(k)
  {
  }

  /**
   * A present string keeps its id and the cache does not change; a new string
   * is appended at id = previous size.
   */
  lemma InternExistingOrAppend(entries: seq<string>, k: string)
    ensures var (e, idx) := Interned(entries, k);
      (k in entries ==> e == entries && entries[idx] == k) &&
      (k !in entries ==> e == entries + [k] && idx == |entries|)
  {
  }

  /** Interning the same string twice gives the same id and changes nothing the second time. */
  lemma InternIdempotent(entries: seq<string>, k: string)
    ensures var (e1, i1) := Interned(entries, k);
      var (e2, i2) := Interned(e1, k);
      e2 == e1 && i2 == i1
  {
    var (e1, i1) := Interned(entries, k);
    assert k in e1;
  }

  /** Interning never removes or reorders: every id valid before resolves to the same string. */
  lemma InternKeepsOldIds(entries: seq<string>, k: string, idx: nat)
    requires idx < |entries|
    ensures Get(Interned(entries, k).0, idx) == Get(entries, idx)
  {
  }

  /** Two distinct strings interned one after the other get distinct ids, both still resolving. */
  lemma {:induction false} DistinctStringsDistinctIds(entries: seq<string>, s1: string, s2: string)
    requires NoDuplicates(entries)
    requires s1 != s2
    ensures var (e1, i1) := Interned(entries, s1);
      var (e2, i2) := Interned(e1, s2);
      i1 != i2 && Get(e2, i1) == Some(s1) && Get(e2, i2) == Some(s2)
  {
    var (e1, i1) := Interned(entries, s1);
    var (e2, i2) := Interned(e1, s2);
    assert e1[i1] == s1;
    assert e2[i2] == s2;
    assert i1 < |e1| && e2[..|e1|] == e1;
  }

  /** The strings of `ks` interned in order into `entries`. */
  function InternAll(entries: seq<string>, ks: seq<string>): seq<string>
    decreases |ks|
  {
    if ks == [] then entries
    else Interned(InternAll(entries, ks[..|ks| - 1]), ks[|ks| - 1]).0
  }

  /** Interning `ks` into an empty cache holds every string of `ks`, each once. */
  lemma {:induction false} InternAllContents(ks: seq<string>)
    ensures NoDuplicates(InternAll([], ks))
    ensures forall k :: k in InternAll([], ks) <==> k in ks
    decreases |ks|
  {
    if ks != [] {
      var init := ks[..|ks| - 1];
      InternAllContents(init);
      InternPreservesNoDuplicates(InternAll([], init), ks[|ks| - 1]);
      assert ks == init + [ks[|ks| - 1]];
    }
  }

  /** The id of a string already interned does not move when one more string is interned. */
  lemma InternKeepsIndexOf(e: seq<string>, k: string, s: string)
    requires NoDuplicates(e) && s in e
    ensures IndexOf(Interned(e, k).0, s) == IndexOf(e, s)
  {
    var e' := Interned(e, k).0;
    InternPreservesNoDuplicates(e, k);
    assert e'[..|e|] == e;
    IndexOfUnique(e', s, IndexOf(e, s).value);
  }

  /**
   * Starting from an empty cache, ids are dense and assigned in first-seen
   * order: the cache holds every string of `ks`, each once, and a string seen
   * earlier has a smaller id than one first seen later.
   */
  lemma {:induction false} InternAllFirstSeenOrder(ks: seq<string>)
    ensures NoDuplicates(InternAll([], ks))
    ensures forall k :: k in InternAll([], ks) <==> k in ks
    ensures forall i, j :: 0 <= i < j < |ks| && ks[j] !in ks[..j] ==>
      IndexOf(InternAll([], ks), ks[i]).value < IndexOf(InternAll([], ks), ks[j]).value
    decreases |ks|
  {
    InternAllContents(ks);
    if ks != [] {
      var init := ks[..|ks| - 1];
      var last := ks[|ks| - 1];
      InternAllFirstSeenOrder(init);
      var e := InternAll([], init);
      var e' := InternAll([], ks);
      assert e' == Interned(e, last).0;
      forall i, j | 0 <= i < j < |ks| && ks[j] !in ks[..j]
        ensures IndexOf(e', ks[i]).value < IndexOf(e', ks[j]).value
      {
        assert ks[i] == init[i] && ks[i] in e;
        InternKeepsIndexOf(e, last, ks[i]);
        if j < |ks| - 1 {
          assert ks[..j] == init[..j] && ks[j] == init[j];
          InternKeepsIndexOf(e, last, ks[j]);
        } else {
          assert ks[..j] == init;
          InternPreservesNoDuplicates(e, last);
          IndexOfUnique(e', last, |e|);
        }
      }
    }
  }

  /** The interner object: `index_set` is the sequence of interned strings. */
  class StringCache {
    var indexSet: seq<string>

    ghost predicate Valid()
      reads this
    {
      NoDuplicates(indexSet)
    }

    /** `StringCache::new`: an empty cache. */
    constructor ()
      ensures Valid() && indexSet == []
    {
      indexSet := [];
    }

    /** `intern`: the existing id of `k`, or `k` appended with the next id. */
    method Intern(k: string) returns (idx: nat)
      requires Valid()
      modifies this
      ensures Valid()
      ensures (indexSet, idx) == Interned(old(indexSet), k)
      ensures idx < |indexSet| && indexSet[idx] == k
    {
      match IndexOf(indexSet, k)
      case Some(i) =>
        idx := i;
      case None =>
        idx := |indexSet|;
        indexSet := indexSet + [k];
    }

    /** `get`: None exactly for ids at or past the size. */
    function GetIndex(idx: nat): (r: Option<string>)
      reads this
      ensures r.None? <==> idx >= |indexSet|
      ensures r.Some? ==> r.value == indexSet[idx] && IndexOf(indexSet, r.value).Some?
    {
      Get(indexSet, idx)
    }

    /** `Index<usize>`: panics on an unknown id, hence the precondition. */
    function At(idx: nat): (s: string)
      reads this
      requires Valid()
      requires idx < |indexSet|
      ensures IndexOf(indexSet, s) == Some(idx)
    {
      IndexOfUnique(indexSet, indexSet[idx], idx);
      indexSet[idx]
    }
  }
}
