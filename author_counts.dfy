/**
 * The pairing aggregator of src/author_counts.rs: for every author (the
 * subject), the authors they were paired with and, per ordered edge, how
 * often they drove and how often they were paired at all.
 */
module AuthorCounts {

  /** `PairedWith { as_driver, total }` of one (subject, co-author) edge. */
  datatype PairedWith = PairedWith(asDriver: nat, total: nat) {
    /** `inc_driver`: the subject drove one more paired commit. */
    function IncDriver(): (r: PairedWith)
      ensures r.asDriver == asDriver + 1 && r.total == total + 1
    {
      PairedWith(asDriver + 1, total + 1)
    }

    /** `inc_navigator`: the subject navigated one more paired commit. */
    function IncNavigator(): (r: PairedWith)
      ensures r.asDriver == asDriver && r.total == total + 1
    {
      PairedWith(asDriver, total + 1)
    }
  }

  /** `PairingCounts`: co-author id to edge counts, for one subject. */
  type PairingCounts = map<nat, PairedWith>

  /** `entry(..).or_default()` on a pairing map: a missing edge reads as zero. */
  function EntryOf(pc: PairingCounts, coAuthor: nat): PairedWith {
    if coAuthor in pc then pc[coAuthor] else PairedWith(0, 0)
  }

  /** `entry(..).or_default()` on the outer map: a missing subject reads as no edges. */
  function PairingsOf(m: map<nat, PairingCounts>, author: nat): PairingCounts {
    if author in m then m[author] else map[]
  }

  /** `len`: the number of distinct co-authors recorded for the subject. */
  function Len(pc: PairingCounts): (n: nat)
    ensures n == |pc.Keys|
    ensures n == 0 <==> pc == map[]
  {
    if pc == map[] then 0
    else
      assert exists k :: k in pc;
      |pc|
  }

  /** `max_value`: the largest `total` of the subject's edges, or 0 when there are none. */
  ghost function MaxValue(pc: PairingCounts): (r: nat)
    ensures forall k :: k in pc ==> pc[k].total <= r
    ensures pc == map[] ==> r == 0
    ensures pc != map[] ==> exists k :: k in pc && pc[k].total == r
    decreases pc.Keys
  {
    if pc == map[] then 0
    else
      var k :| k in pc;
      var others := pc - {k};
      assert forall j :: j in pc ==> j == k || (j in others && others[j] == pc[j]);
      var rest := MaxValue(others);
      if pc[k].total > rest then pc[k].total else rest
  }

  /**
   * `add_pair(driver, navigator)` on the whole map: nothing for a self-pair,
   * otherwise `inc_driver` on the driver's edge to the navigator, then
   * `inc_navigator` on the navigator's edge to the driver, each created on
   * first touch.
   */
  function WithPair(m: map<nat, PairingCounts>, driver: nat, navigator: nat): map<nat, PairingCounts> {
    if driver == navigator then m
    else
      var d := PairingsOf(m, driver);
      var m1 := m[driver := d[navigator := EntryOf(d, navigator).IncDriver()]];
      var n := PairingsOf(m1, navigator);
      m1[navigator := n[driver := EntryOf(n, driver).IncNavigator()]]
  }

  /**
   * The bookkeeping invariant: no self-edges, every edge has its reverse, both
   * directions agree on `total`, and the two `as_driver` counts split it.
   */
  ghost predicate Consistent(m: map<nat, PairingCounts>) {
    forall a, b :: a in m && b in m[a] ==>
      && a != b
      && b in m && a in m[b]
      && m[a][b].total == m[b][a].total
      && m[a][b].asDriver + m[b][a].asDriver == m[a][b].total
  }

  /** `as_driver <= total` on every edge of a consistent map. */
  lemma ConsistentDriverAtMostTotal(m: map<nat, PairingCounts>, a: nat, b: nat)
    requires Consistent(m)
    requires a in m && b in m[a]
    ensures m[a][b].asDriver <= m[a][b].total
  {
    assert b in m && a in m[b];
    assert m[a][b].asDriver + m[b][a].asDriver == m[a][b].total;
  }

  /** `add_pair(a, a)` changes nothing. */
  lemma SelfPairIsNoop(m: map<nat, PairingCounts>, a: nat)
    ensures WithPair(m, a, a) == m
  {
  }

  /**
   * For a real pair, the driver's edge gains one drive and one pairing, the
   * navigator's edge gains one pairing and no drive, missing entries start at
   * zero, and every other edge and subject is unchanged.
   */
  lemma AddPairEffect(m: map<nat, PairingCounts>, driver: nat, navigator: nat)
    requires driver != navigator
    ensures var m' := WithPair(m, driver, navigator);
      && m'.Keys == m.Keys + {driver, navigator}
      && m'[driver].Keys == PairingsOf(m, driver).Keys + {navigator}
      && m'[navigator].Keys == PairingsOf(m, navigator).Keys + {driver}
      && m'[driver][navigator].asDriver == EntryOf(PairingsOf(m, driver), navigator).asDriver + 1
      && m'[driver][navigator].total == EntryOf(PairingsOf(m, driver), navigator).total + 1
      && m'[navigator][driver].asDriver == EntryOf(PairingsOf(m, navigator), driver).asDriver
      && m'[navigator][driver].total == EntryOf(PairingsOf(m, navigator), driver).total + 1
      && (forall a :: a in m && a != driver && a != navigator ==> m'[a] == m[a])
      && (forall b :: b in PairingsOf(m, driver) && b != navigator ==> m'[driver][b] == m[driver][b])
      && (forall b :: b in PairingsOf(m, navigator) && b != driver ==> m'[navigator][b] == m[navigator][b])
  {
  }

  /** `add_pair` keeps the bookkeeping invariant. */
  lemma {:induction false} AddPairPreservesConsistent(m: map<nat, PairingCounts>, driver: nat, navigator: nat)
    requires Consistent(m)
    ensures Consistent(WithPair(m, driver, navigator))
  {
    if driver != navigator {
      var m': map<nat, PairingCounts> := WithPair(m, driver, navigator);
      AddPairEffect(m, driver, navigator);
      forall a: nat, b: nat | a in m' && b in m'[a]
        ensures a != b && b in m' && a in m'[b]
        ensures m'[a][b].total == m'[b][a].total
        ensures m'[a][b].asDriver + m'[b][a].asDriver == m'[a][b].total
      {
        if (a == driver && b == navigator) || (a == navigator && b == driver) {
          if driver in m && navigator in m[driver] {
            assert m[driver][navigator].total == m[navigator][driver].total;
          } else {
            assert navigator !in PairingsOf(m, driver);
            assert driver !in PairingsOf(m, navigator);
          }
        } else if a == driver || a == navigator {
          assert b in m[a];
        } else if b == driver || b == navigator {
          assert a in m && b in m[a];
          assert a in m[b];
        } else {
          assert a in m && b in m[a];
        }
      }
    }
  }

  /** `add_pair` adds a co-author to the driver's `len` exactly when the edge is new. */
  lemma AddPairLen(m: map<nat, PairingCounts>, driver: nat, navigator: nat)
    requires driver != navigator
    ensures Len(WithPair(m, driver, navigator)[driver]) ==
      Len(PairingsOf(m, driver)) + (if navigator in PairingsOf(m, driver) then 0 else 1)
  {
    AddPairEffect(m, driver, navigator);
    var old' := PairingsOf(m, driver).Keys;
    if navigator in old' {
      assert old' + {navigator} == old';
    }
  }

  /** `max_value` of the driver never decreases under `add_pair`, and reaches the updated edge. */
  lemma AddPairMaxValue(m: map<nat, PairingCounts>, driver: nat, navigator: nat)
    requires driver != navigator
    ensures var m' := WithPair(m, driver, navigator);
      && MaxValue(m'[driver]) >= MaxValue(PairingsOf(m, driver))
      && MaxValue(m'[driver]) >= EntryOf(PairingsOf(m, driver), navigator).total + 1
  {
    var m': map<nat, PairingCounts> := WithPair(m, driver, navigator);
    AddPairEffect(m, driver, navigator);
    var pc := PairingsOf(m, driver);
    if pc != map[] {
      var k :| k in pc && pc[k].total == MaxValue(pc);
      assert k in m'[driver];
      assert m'[driver][k].total >= pc[k].total;
    }
    assert navigator in m'[driver];
  }

  /** `add_pair(driver, navigator)` applied `n` times. */
  function RepeatPair(m: map<nat, PairingCounts>, driver: nat, navigator: nat, n: nat): map<nat, PairingCounts> {
    if n == 0 then m else WithPair(RepeatPair(m, driver, navigator, n - 1), driver, navigator)
  }

  /** The counts of two authors who paired `n` times, always with the same driver. */
  function SamePairing(driver: nat, navigator: nat, n: nat): map<nat, PairingCounts> {
    map[driver := map[navigator := PairedWith(n, n)], navigator := map[driver := PairedWith(0, n)]]
  }

  /** One more pairing of the same two authors. */
  lemma SamePairingStep(driver: nat, navigator: nat, n: nat)
    requires driver != navigator
    ensures WithPair(SamePairing(driver, navigator, n), driver, navigator) == SamePairing(driver, navigator, n + 1)
  {
    var m := SamePairing(driver, navigator, n);
    var m1 := m[driver := map[navigator := PairedWith(n + 1, n + 1)]];
    assert m[driver][navigator := PairedWith(n + 1, n + 1)] == map[navigator := PairedWith(n + 1, n + 1)];
    assert m1[navigator][driver := PairedWith(0, n + 1)] == map[driver := PairedWith(0, n + 1)];
  }

  /**
   * From empty counts, `n` pairings of the same two authors leave
   * `as_driver == total == n` on the driver's side and `as_driver == 0,
   * total == n` on the navigator's side.
   */
  lemma {:induction false} RepeatPairCounts(driver: nat, navigator: nat, n: nat)
    requires driver != navigator && n > 0
    ensures var m := RepeatPair(map[], driver, navigator, n);
      && m.Keys == {driver, navigator}
      && m[driver] == map[navigator := PairedWith(n, n)]
      && m[navigator] == map[driver := PairedWith(0, n)]
  {
    RepeatPairIsSamePairing(driver, navigator, n);
  }

  /** `n` pairings from empty counts are `SamePairing(n)`. */
  lemma {:induction false} RepeatPairIsSamePairing(driver: nat, navigator: nat, n: nat)
    requires driver != navigator
    ensures RepeatPair(map[], driver, navigator, n) == if n == 0 then map[] else SamePairing(driver, navigator, n)
  {
    if n == 1 {
      assert map[driver := map[navigator := PairedWith(1, 1)]][navigator := map[driver := PairedWith(0, 1)]] ==
        SamePairing(driver, navigator, 1);
    } else if n > 1 {
      RepeatPairIsSamePairing(driver, navigator, n - 1);
      SamePairingStep(driver, navigator, n - 1);
    }
  }

  /** The aggregation result: subject id to its pairing counts. */
  class AuthorCounts {
    var counts: map<nat, PairingCounts>

    ghost predicate Valid()
      reads this
    {
      Consistent(counts)
    }

    /** `AuthorCounts::default()`: no subjects. */
    constructor ()
      ensures Valid() && counts == map[]
    {
      counts := map[];
    }

    /** `author`: the subject's pairing counts, created empty on first touch. */
    method Author(author: nat) returns (pc: PairingCounts)
      requires Valid()
      modifies this
      ensures Valid()
      ensures pc == PairingsOf(old(counts), author)
      ensures counts == old(counts)[author := pc]
    {
      pc := PairingsOf(counts, author);
      counts := counts[author := pc];
    }

    /** `add_pair`: both directional updates for a real pair, nothing for a self-pair. */
    method AddPair(driver: nat, navigator: nat)
      requires Valid()
      modifies this
      ensures Valid()
      ensures counts == WithPair(old(counts), driver, navigator)
    {
      ghost var m := counts;
      if driver != navigator {
        var d := Author(driver);
        counts := counts[driver := d[navigator := EntryOf(d, navigator).IncDriver()]];
        assert counts == m[driver := d[navigator := EntryOf(d, navigator).IncDriver()]];
        var n := PairingsOf(counts, navigator);
        counts := counts[navigator := n[driver := EntryOf(n, driver).IncNavigator()]];
        assert counts == WithPair(m, driver, navigator);
      }
      AddPairPreservesConsistent(m, driver, navigator);
    }

    /** `Index<usize>`: panics on an unknown subject, hence the precondition; every edge seen has its mirror. */
    function At(author: nat): (pc: PairingCounts)
      reads this
      requires Valid()
      requires author in counts
      ensures pc == PairingsOf(counts, author)
      ensures forall b :: b in pc ==>
        b != author && b in counts && author in counts[b] && counts[b][author].total == pc[b].total
    {
      counts[author]
    }
  }
}
