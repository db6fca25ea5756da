/**
 * The per-author line-change accumulators of src/author_path_counts.rs:
 * author id to the number of added and deleted lines.
 */
module AuthorPathCounts {

  /** `Modifications { additions, deletions }` of one author. */
  datatype Modifications = Modifications(additions: nat, deletions: nat) {
    /** `Modifications::add_additions`. */
    function AddAdditions(k: nat): (r: Modifications)
      ensures r.additions == additions + k && r.deletions == deletions
    {
      Modifications(additions + k, deletions)
    }

    /** `Modifications::add_deletions`. */
    function AddDeletions(k: nat): (r: Modifications)
      ensures r.deletions == deletions + k && r.additions == additions
    {
      Modifications(additions, deletions + k)
    }
  }

  /** `entry(author).or_default()`: an author's counters, both 0 before first touch. */
  function EntryOf(m: map<nat, Modifications>, author: nat): Modifications {
    if author in m then m[author] else Modifications(0, 0)
  }

  /** `AuthorPathCounts::add_additions` on the map. */
  function WithAdditions(m: map<nat, Modifications>, author: nat, k: nat): map<nat, Modifications> {
    m[author := EntryOf(m, author).AddAdditions(k)]
  }

  /** `AuthorPathCounts::add_deletions` on the map. */
  function WithDeletions(m: map<nat, Modifications>, author: nat, k: nat): map<nat, Modifications> {
    m[author := EntryOf(m, author).AddDeletions(k)]
  }

  /** `add_additions(author, k)` for each `k` of `ks`, in order. */
  function WithAllAdditions(m: map<nat, Modifications>, author: nat, ks: seq<nat>): map<nat, Modifications>
    decreases |ks|
  {
    if ks == [] then m else WithAllAdditions(WithAdditions(m, author, ks[0]), author, ks[1..])
  }

  function Sum(ks: seq<nat>): nat {
    if ks == [] then 0 else ks[0] + Sum(ks[1..])
  }

  /**
   * Repeated additions to one author accumulate as a sum; the author's
   * deletions and every other author's entry are untouched.
   */
  lemma {:induction false} AdditionsAccumulate(m: map<nat, Modifications>, author: nat, ks: seq<nat>)
    ensures var m' := WithAllAdditions(m, author, ks);
      && (ks != [] ==> author in m')
      && EntryOf(m', author).additions == EntryOf(m, author).additions + Sum(ks)
      && EntryOf(m', author).deletions == EntryOf(m, author).deletions
      && (forall a :: a != author ==> EntryOf(m', a) == EntryOf(m, a) && (a in m' <==> a in m))
    decreases |ks|
  {
    if ks != [] {
      AdditionsAccumulate(WithAdditions(m, author, ks[0]), author, ks[1..]);
    }
  }

  /**
   * An update to one author touches only that author: the counter not
   * updated keeps its value, and every other author's entry is unchanged.
   */
  lemma UpdatesAreLocal(m: map<nat, Modifications>, author: nat, k: nat)
    ensures WithAdditions(m, author, k).Keys == m.Keys + {author}
    ensures WithDeletions(m, author, k).Keys == m.Keys + {author}
    ensures WithAdditions(m, author, k)[author] == Modifications(EntryOf(m, author).additions + k, EntryOf(m, author).deletions)
    ensures WithDeletions(m, author, k)[author] == Modifications(EntryOf(m, author).additions, EntryOf(m, author).deletions + k)
    ensures forall a :: a in m && a != author ==>
      WithAdditions(m, author, k)[a] == m[a] && WithDeletions(m, author, k)[a] == m[a]
  {
  }

  /** The `add_additions` test: after adding 42 to author 0 and 84 to author 1, each keeps its own. */
  lemma AddAdditionsExample()
    ensures var m := WithAdditions(WithAdditions(map[], 0, 42), 1, 84);
      m[0].additions == 42 && m[1].additions == 84
  {
  }

  /** The `add_deletions` test: after deleting 42 for author 0 and 84 for author 1, each keeps its own. */
  lemma AddDeletionsExample()
    ensures var m := WithDeletions(WithDeletions(map[], 0, 42), 1, 84);
      m[0].deletions == 42 && m[1].deletions == 84
  {
  }

  /**
   * The `resolving_iterator` test's updates as written: Alice gets 42
   * additions and 23 deletions; Bob's two `add_additions` calls add up to
   * 116 and his deletions stay 0, where the test expects 84 and 32.
   */
  lemma ResolvingIteratorExample(alice: nat, bob: nat)
    requires alice != bob
    ensures var m := WithAdditions(WithAdditions(WithDeletions(WithAdditions(map[], alice, 42), alice, 23), bob, 84), bob, 32);
      m[alice] == Modifications(42, 23) && m[bob] == Modifications(116, 0) && m[bob] != Modifications(84, 32)
  {
    var m1 := WithAdditions(map[], alice, 42);
    assert m1 == map[alice := Modifications(42, 0)];
    var m2 := WithDeletions(m1, alice, 23);
    assert m2 == map[alice := Modifications(42, 23)];
    var m3 := WithAdditions(m2, bob, 84);
    assert m3 == map[alice := Modifications(42, 23), bob := Modifications(84, 0)];
    var m4 := WithAdditions(m3, bob, 32);
    assert m4[bob] == Modifications(116, 0);
  }

  /**
   * The `resolving_iterator` test with its fourth call made the deletion its
   * assertions expect: Bob then has 84 additions and 32 deletions.
   */
  lemma ResolvingIteratorIntended(alice: nat, bob: nat)
    requires alice != bob
    ensures var m := WithDeletions(WithAdditions(WithDeletions(WithAdditions(map[], alice, 42), alice, 23), bob, 84), bob, 32);
      m[alice] == Modifications(42, 23) && m[bob] == Modifications(84, 32)
  {
    var m1 := WithAdditions(map[], alice, 42);
    assert m1 == map[alice := Modifications(42, 0)];
    var m2 := WithDeletions(m1, alice, 23);
    assert m2 == map[alice := Modifications(42, 23)];
    var m3 := WithAdditions(m2, bob, 84);
    assert m3 == map[alice := Modifications(42, 23), bob := Modifications(84, 0)];
    var m4 := WithDeletions(m3, bob, 32);
    assert m4[bob] == Modifications(84, 32);
  }

  /** The accumulators: author id to their modifications. */
  class AuthorPathCounts {
    var counts: map<nat, Modifications>

    /** `AuthorPathCounts::default()`: no authors. */
    constructor ()
      ensures counts == map[]
    {
      counts := map[];
    }

    /** `add_additions`: the author's additions grow by `k`, created on first touch. */
    method AddAdditions(author: nat, k: nat)
      modifies this
      ensures counts == WithAdditions(old(counts), author, k)
    {
      var entry := EntryOf(counts, author);
      counts := counts[author := entry.AddAdditions(k)];
    }

    /** `add_deletions`: the author's deletions grow by `k`, created on first touch. */
    method AddDeletions(author: nat, k: nat)
      modifies this
      ensures counts == WithDeletions(old(counts), author, k)
    {
      var entry := EntryOf(counts, author);
      counts := counts[author := entry.AddDeletions(k)];
    }

    /** `Index<usize>`: panics when the author has no entry, hence the precondition. */
    function At(author: nat): (r: Modifications)
      reads this
      requires author in counts
      ensures r == EntryOf(counts, author)
    {
      counts[author]
    }
  }
}
