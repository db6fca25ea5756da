/**
 * The state of the terminal front end (src/app.rs) without rendering: the
 * selectable author list, the key handlers over the range-filter popup, the
 * search filter and the quit flag, and `apply_authors`, which gives both count
 * maps of an author the same keys before the author list is rebuilt.
 *
 * This revision of the front end works on interned ids: counts are keyed by
 * `usize` ids and names are resolved through the string cache, modelled as
 * the sequence `names` of interned strings.
 */
module App {
  import opened Wrappers
  import opened Ordering

  // ---------------------------------------------------------------------------
  // StatefulList

  /** `n.saturating_sub(1)` on `usize`. */
  function SaturatingPred(n: nat): nat {
    if n == 0 then 0 else n - 1
  }

  /** The selection `next` moves to in a list of `len` items. */
  function NextIndex(selected: Option<nat>, len: nat): nat {
    match selected
    case None => 0
    case Some(i) => if i >= SaturatingPred(len) then 0 else i + 1
  }

  /** The selection `previous` moves to in a list of `len` items. */
  function PreviousIndex(selected: Option<nat>, len: nat): nat {
    match selected
    case None => 0
    case Some(i) => if i == 0 then SaturatingPred(len) else i - 1
  }

  /** `current_items.get(selected.unwrap_or(0))`. */
  function CurrentOf<T>(items: seq<T>, selected: Option<nat>): (r: Option<T>)
    ensures r.Some? <==> selected.GetOr(0) < |items|
    ensures r.Some? ==> r.value == items[selected.GetOr(0)]
  {
    var i := selected.GetOr(0);
    if i < |items| then Some(items[i]) else None
  }

  /** `next` always lands on an item of a non-empty list, whatever the selection was. */
  lemma NextInRange(selected: Option<nat>, len: nat)
    requires len > 0
    ensures NextIndex(selected, len) < len
  {
  }

  /** `previous` lands on an item of a non-empty list when the selection was on one (or absent). */
  lemma PreviousInRange(selected: Option<nat>, len: nat)
    requires len > 0
    requires selected.None? || selected.value < len
    ensures PreviousIndex(selected, len) < len
  {
  }

  /** Within a non-empty list, `previous` undoes `next` and `next` undoes `previous`, wrapping at both ends. */
  lemma NextPreviousInverse(i: nat, len: nat)
    requires i < len
    ensures PreviousIndex(Some(NextIndex(Some(i), len)), len) == i
    ensures NextIndex(Some(PreviousIndex(Some(i), len)), len) == i
  {
  }

  /** The selection after `k` calls of `next` from `start`. */
  function NextTimes(start: Option<nat>, len: nat, k: nat): Option<nat>
    decreases k
  {
    if k == 0 then start else Some(NextIndex(NextTimes(start, len, k - 1), len))
  }

  /** From the first item, `k < len` calls of `next` select item `k`, and `len` calls come back to the first. */
  lemma {:induction false} NextCycles(len: nat, k: nat)
    requires 0 < len && k <= len
    ensures k < len ==> NextTimes(Some(0), len, k) == Some(k)
    ensures k == len ==> NextTimes(Some(0), len, k) == Some(0)
    decreases k
  {
    if k > 0 {
      NextCycles(len, k - 1);
    }
  }

  /** The selection `filter_down` evidently means to keep: moved onto the last item when past the end. */
  function Clamp(selected: Option<nat>, len: nat): Option<nat> {
    match selected
    case None => None
    case Some(i) => Some(if i >= len then SaturatingPred(len) else i)
  }

  /** After the clamp a non-empty list always has a current item, and a selection already in range is kept. */
  lemma ClampedSelectionIsCurrent<T>(items: seq<T>, selected: Option<nat>)
    requires items != []
    ensures CurrentOf(items, Clamp(selected, |items|)).Some?
    ensures selected.Some? && selected.value < |items| ==> Clamp(selected, |items|) == selected
  {
  }

  /**
   * `filter_down` as written clamps a copy of the selection, so a selection
   * past the end of the new items survives: with the selection on item 3 and
   * one new item there is no current item, and `previous` stays past the end.
   */
  lemma StaleSelectionAfterFilterDown(x: int)
    ensures CurrentOf([x], Some(3)) == None
    ensures PreviousIndex(Some(3), 1) == 2 && CurrentOf([x], Some(PreviousIndex(Some(3), 1))) == None
    ensures CurrentOf([x], Clamp(Some(3), 1)) == Some(x)
  {
  }

  /** `StatefulList<T>`: all items, the currently shown items and the `ListState` selection. */
  class StatefulList<T> {
    var selected: Option<nat>
    var items: seq<T>
    var currentItems: seq<T>

    /** `with_items`: selects the first item when there is one; nothing is shown yet. */
    constructor WithItems(items: seq<T>)
      ensures this.items == items && currentItems == []
      ensures selected == if items != [] then Some(0) else None
    {
      this.items := items;
      currentItems := [];
      selected := if items != [] then Some(0) else None;
    }

    /** `current`: the shown item at the selection (the first one without a selection). */
    function Current(): (r: Option<T>)
      reads this
      ensures r == CurrentOf(currentItems, selected)
    {
      CurrentOf(currentItems, selected)
    }

    /** `filter_down` as written: replaces the shown items and leaves the stored selection as it was. */
    method FilterDown(newItems: seq<T>)
      modifies this
      ensures currentItems == newItems
      ensures selected == old(selected) && items == old(items)
    {
      var copy := selected;
      if copy.Some? && copy.value >= |newItems| {
        copy := Some(SaturatingPred(|newItems|));
      }
      currentItems := newItems;
    }

    /** `filter_down` with the clamp applied to the stored selection. */
    method FilterDownClamped(newItems: seq<T>)
      modifies this
      ensures currentItems == newItems && items == old(items)
      ensures selected == Clamp(old(selected), |newItems|)
      ensures newItems != [] ==> Current().Some?
    {
      if selected.Some? && selected.value >= |newItems| {
        selected := Some(SaturatingPred(|newItems|));
      }
      currentItems := newItems;
      if newItems != [] {
        ClampedSelectionIsCurrent(newItems, old(selected));
      }
    }

    /** `next`: one item down, wrapping to the first. */
    method Next()
      modifies this
      ensures selected == Some(NextIndex(old(selected), |currentItems|))
      ensures items == old(items) && currentItems == old(currentItems)
      ensures currentItems != [] ==> Current().Some?
    {
      var i := match selected
        case Some(i) => if i >= SaturatingPred(|currentItems|) then 0 else i + 1
        case None => 0;
      selected := Some(i);
    }

    /** `previous`: one item up, wrapping to the last. */
    method Previous()
      modifies this
      ensures selected == Some(PreviousIndex(old(selected), |currentItems|))
      ensures items == old(items) && currentItems == old(currentItems)
    {
      var i := match selected
        case Some(i) => if i == 0 then SaturatingPred(|currentItems|) else i - 1
        case None => 0;
      selected := Some(i);
    }
  }

  // ---------------------------------------------------------------------------
  // Key handling

  /** `RangeFilter`: the text typed into the range popup and the error shown in it. */
  datatype RangeFilter = RangeFilter(filter: string, error: string)

  /** The fields the key handlers change: `should_quit`, `search_filter`, `range_filter_popup`. */
  datatype Ui = Ui(shouldQuit: bool, searchFilter: string, popup: Option<RangeFilter>)

  /** `pop` on a `String`: the last character removed, nothing when empty. */
  function Pop(s: string): string {
    if s == [] then s else s[..|s| - 1]
  }

  /**
   * `on_key`: with the popup open the character goes into its filter; else
   * `'Q'` quits, `'R'` opens an empty popup, and a character that is lower
   * case or white space extends the search filter. `lowerOrSpace` stands for
   * `c.is_lowercase() || c.is_whitespace()`.
   */
  function KeyStep(u: Ui, c: char, lowerOrSpace: bool): Ui {
    match u.popup
    case Some(rf) => u.(popup := Some(rf.(filter := rf.filter + [c])))
    case None =>
      if c == 'Q' then u.(shouldQuit := true)
      else if c == 'R' then u.(popup := Some(RangeFilter("", "")))
      else if lowerOrSpace then u.(searchFilter := u.searchFilter + [c])
      else u
  }

  /** `on_backspace`: removes the last character of the popup filter, or else of the search filter. */
  function BackspaceStep(u: Ui): Ui {
    match u.popup
    case Some(rf) => u.(popup := Some(rf.(filter := Pop(rf.filter))))
    case None => u.(searchFilter := Pop(u.searchFilter))
  }

  /** `on_escape`: closes the popup, or else clears the search filter. */
  function EscapeStep(u: Ui): Ui {
    if u.popup.Some? then u.(popup := None) else u.(searchFilter := "")
  }

  /** Whether `on_enter` asks the repository for counts: a popup is open and does not show an error with an empty filter. */
  predicate ReloadRequested(u: Ui) {
    u.popup.Some? && !(u.popup.value.filter == "" && u.popup.value.error != "")
  }

  /** The range handed to the repository: the popup filter, or none when it is empty. */
  function RangeArgument(filter: string): (r: Option<string>)
    ensures r.None? <==> filter == ""
    ensures r.Some? ==> r.value == filter
  {
    if filter == "" then None else Some(filter)
  }

  /**
   * `on_enter` on the key-handler fields, given what the repository returned
   * for `RangeArgument(filter)`: the popup closes on success and shows the
   * error with an empty filter on failure.
   */
  function EnterStep<C>(u: Ui, outcome: Result<C, string>): Ui {
    if !ReloadRequested(u) then u
    else if outcome.Ok? then u.(popup := None)
    else u.(popup := Some(RangeFilter("", outcome.error)))
  }

  /** A typed character is undone by backspace, in the popup and in the search filter. */
  lemma KeyThenBackspace(u: Ui, c: char, lowerOrSpace: bool)
    requires u.popup.Some? || (c != 'Q' && c != 'R' && lowerOrSpace)
    ensures BackspaceStep(KeyStep(u, c, lowerOrSpace)) == u
  {
    if u.popup.Some? {
      assert Pop(u.popup.value.filter + [c]) == u.popup.value.filter;
    } else {
      assert Pop(u.searchFilter + [c]) == u.searchFilter;
    }
  }

  /** While the popup is open, keys go to its filter only: they never quit or change the search filter. */
  lemma PopupCapturesKeys(u: Ui, c: char, lowerOrSpace: bool)
    requires u.popup.Some?
    ensures KeyStep(u, c, lowerOrSpace).shouldQuit == u.shouldQuit
    ensures KeyStep(u, c, lowerOrSpace).searchFilter == u.searchFilter
    ensures KeyStep(u, c, lowerOrSpace).popup == Some(u.popup.value.(filter := u.popup.value.filter + [c]))
  {
  }

  /** Quitting is requested exactly by `'Q'` with no popup open, and no handler withdraws it. */
  lemma QuitIsFinal<C>(u: Ui, c: char, lowerOrSpace: bool, outcome: Result<C, string>)
    ensures KeyStep(u, c, lowerOrSpace).shouldQuit <==> u.shouldQuit || (u.popup.None? && c == 'Q')
    ensures BackspaceStep(u).shouldQuit == u.shouldQuit
    ensures EscapeStep(u).shouldQuit == u.shouldQuit
    ensures EnterStep(u, outcome).shouldQuit == u.shouldQuit
  {
  }

  /** Two escapes close the popup and clear the search filter, whatever the state. */
  lemma EscapeTwice(u: Ui)
    ensures EscapeStep(EscapeStep(u)).popup.None?
    ensures EscapeStep(EscapeStep(u)).searchFilter == ""
    ensures EscapeStep(EscapeStep(u)).shouldQuit == u.shouldQuit
  {
  }

  /** A failed reload leaves a popup that `on_enter` keeps until something is typed, if the error text is not empty. */
  lemma FailedReloadWaitsForInput<C, D>(u: Ui, error: string, again: Result<D, string>)
    requires ReloadRequested(u) && error != ""
    ensures EnterStep(u, Result<C, string>.Err(error)).popup == Some(RangeFilter("", error))
    ensures EnterStep(EnterStep(u, Result<C, string>.Err(error)), again) == EnterStep(u, Result<C, string>.Err(error))
  {
  }

  // ---------------------------------------------------------------------------
  // apply_authors

  /** `AuthorCounts` of this revision: author id -> co-author id -> count. */
  type IdCounts = map<nat, map<nat, nat>>

  /** `m` with a zero entry (`or_default`) for every key of `keys` it lacks. */
  function Fill(m: map<nat, nat>, keys: set<nat>): (r: map<nat, nat>)
    ensures r.Keys == m.Keys + keys
  {
    map k | k in m.Keys + keys :: if k in m then m[k] else 0
  }

  /** Filling with keys the map already has changes nothing more. */
  lemma FillOwnKeys(m: map<nat, nat>, keys: set<nat>)
    ensures Fill(m, m.Keys + keys) == Fill(m, keys)
  {
  }

  /** An author's navigator row after `apply_authors`: zero entries added for the co-author keys. */
  function NavigatorRow(nav: IdCounts, co: IdCounts, a: nat): map<nat, nat>
    requires a in nav
  {
    if a in co then Fill(nav[a], co[a].Keys) else nav[a]
  }

  /** An author's co-author row after `apply_authors`: zero entries added for the navigator keys. */
  function CoAuthorRow(nav: IdCounts, co: IdCounts, a: nat): map<nat, nat>
    requires a in nav || a in co
  {
    if a in nav then Fill(if a in co then co[a] else map[], nav[a].Keys) else co[a]
  }

  /** The navigator counts after `apply_authors`. */
  function EqualisedNavigators(nav: IdCounts, co: IdCounts): (r: IdCounts)
    ensures r.Keys == nav.Keys
  {
    map a | a in nav :: NavigatorRow(nav, co, a)
  }

  /** The co-author counts after `apply_authors`; authors with co-author counts only keep their rows. */
  function EqualisedCoAuthors(nav: IdCounts, co: IdCounts): (r: IdCounts)
    ensures r.Keys == nav.Keys + co.Keys
  {
    map a | a in nav.Keys + co.Keys :: CoAuthorRow(nav, co, a)
  }

  /**
   * After equalising, every author with navigator counts has co-author counts
   * with the same keys; existing counts are kept, new entries are 0, and an
   * author with co-author counts only gains no navigator row.
   */
  lemma EqualiseSpec(nav: IdCounts, co: IdCounts)
    ensures EqualisedNavigators(nav, co).Keys == nav.Keys
    ensures EqualisedCoAuthors(nav, co).Keys == nav.Keys + co.Keys
    ensures forall a :: a in nav ==>
      EqualisedNavigators(nav, co)[a].Keys == EqualisedCoAuthors(nav, co)[a].Keys
    ensures forall a, k :: a in nav && k in nav[a] ==> EqualisedNavigators(nav, co)[a][k] == nav[a][k]
    ensures forall a, k :: a in co && k in co[a] ==> EqualisedCoAuthors(nav, co)[a][k] == co[a][k]
    ensures forall a, k :: a in nav && k in EqualisedNavigators(nav, co)[a] && k !in nav[a] ==>
      EqualisedNavigators(nav, co)[a][k] == 0
    ensures forall a, k :: a in nav && k in EqualisedCoAuthors(nav, co)[a] && (a !in co || k !in co[a]) ==>
      EqualisedCoAuthors(nav, co)[a][k] == 0
    ensures forall a :: a in co && a !in nav ==> EqualisedCoAuthors(nav, co)[a] == co[a]
  {
  }

  /** A `for key in keys { m.entry(key).or_default(); }` loop. */
  method FillZeros(m: map<nat, nat>, keys: set<nat>) returns (r: map<nat, nat>)
    ensures r == Fill(m, keys)
  {
    r := m;
    var rest := keys;
    while rest != {}
      invariant rest <= keys
      invariant r == Fill(m, keys - rest)
      decreases rest
    {
      var key :| key in rest;
      if key !in r {
        r := r[key := 0];
      }
      rest := rest - {key};
    }
  }

  /** The two loops for an author with both rows (src/app.rs:75-82). */
  method MergeRows(navRow: map<nat, nat>, coRow: map<nat, nat>) returns (navRow': map<nat, nat>, coRow': map<nat, nat>)
    ensures navRow' == Fill(navRow, coRow.Keys)
    ensures coRow' == Fill(coRow, navRow.Keys)
  {
    navRow' := FillZeros(navRow, coRow.Keys);
    coRow' := FillZeros(coRow, navRow'.Keys);
    FillOwnKeys(coRow, navRow.Keys);
  }

  /** The rows once the authors in `done` have been visited: theirs equalised, all others as given. */
  ghost predicate Visited(nav: IdCounts, co: IdCounts, done: set<nat>, nav': IdCounts, co': IdCounts) {
    && nav'.Keys == nav.Keys
    && (forall a :: a in nav' ==> nav'[a] == if a in done then NavigatorRow(nav, co, a) else nav[a])
    && co'.Keys == co.Keys + (nav.Keys * done)
    && (forall a :: a in co' ==> co'[a] == if a in done then CoAuthorRow(nav, co, a) else co[a])
  }

  /** Visiting an author with navigator counts only adds its zero co-author row. */
  lemma VisitNavigatorOnly(nav: IdCounts, co: IdCounts, done: set<nat>, nav': IdCounts, co': IdCounts, author: nat)
    requires Visited(nav, co, done, nav', co')
    requires author in nav && author !in co && author !in done
    ensures Visited(nav, co, done + {author}, nav', co'[author := Fill(map[], nav[author].Keys)])
  {
  }

  /** Visiting an author with both rows replaces both by their filled versions. */
  lemma VisitBoth(nav: IdCounts, co: IdCounts, done: set<nat>, nav': IdCounts, co': IdCounts, author: nat)
    requires Visited(nav, co, done, nav', co')
    requires author in nav && author in co && author !in done
    ensures Visited(nav, co, done + {author},
      nav'[author := Fill(nav[author], co[author].Keys)], co'[author := Fill(co[author], nav[author].Keys)])
  {
  }

  /** Visiting an author with co-author counts only changes nothing. */
  lemma VisitCoAuthorOnly(nav: IdCounts, co: IdCounts, done: set<nat>, nav': IdCounts, co': IdCounts, author: nat)
    requires Visited(nav, co, done, nav', co')
    requires author !in nav
    ensures Visited(nav, co, done + {author}, nav', co')
  {
  }

  /** With every author visited the rows are the equalised counts. */
  lemma VisitedAll(nav: IdCounts, co: IdCounts, done: set<nat>, nav': IdCounts, co': IdCounts)
    requires Visited(nav, co, done, nav', co') && nav.Keys + co.Keys <= done
    ensures nav' == EqualisedNavigators(nav, co) && co' == EqualisedCoAuthors(nav, co)
  {
  }

  /** The loop over all authors at src/app.rs:50-84. */
  method EqualiseCounts(nav: IdCounts, co: IdCounts) returns (nav': IdCounts, co': IdCounts)
    ensures nav' == EqualisedNavigators(nav, co)
    ensures co' == EqualisedCoAuthors(nav, co)
  {
    nav' := nav;
    co' := co;
    var rest := nav.Keys + co.Keys;
    ghost var done: set<nat> := {};
    while rest != {}
      invariant rest == (nav.Keys + co.Keys) - done
      invariant Visited(nav, co, done, nav', co')
      decreases rest
    {
      var author :| author in rest;
      if author in nav && author !in co {
        VisitNavigatorOnly(nav, co, done, nav', co', author);
        var inner := FillZeros(map[], nav[author].Keys);
        co' := co'[author := inner];
      } else if author in nav && author in co {
        VisitBoth(nav, co, done, nav', co', author);
        var navigators, coAuthors := MergeRows(nav[author], co[author]);
        nav' := nav'[author := navigators];
        co' := co'[author := coAuthors];
      } else {
        VisitCoAuthorOnly(nav, co, done, nav', co', author);
      }
      done := done + {author};
      rest := rest - {author};
    }
    VisitedAll(nav, co, done, nav', co');
  }

  /** `get(k).unwrap_or_default()` on the string cache: the interned name, or the empty string. */
  function NameKey(names: seq<string>): nat -> string {
    (k: nat) => if k < |names| then names[k] else ""
  }

  /** The sort key of `value_tuples`: the name, with `han_solo` sorted as `"~"`. */
  function TupleKey(names: seq<string>): nat -> string {
    (k: nat) => if k < |names| then (if names[k] == "han_solo" then "~" else names[k]) else ""
  }

  /** The (name, count) pairs of a row, listed in the order of `ids`. */
  function Tuples(ids: seq<nat>, row: map<nat, nat>, names: seq<string>): (r: seq<(string, nat)>)
    requires forall i :: 0 <= i < |ids| ==> ids[i] in row && ids[i] < |names|
    ensures |r| == |ids|
    ensures forall i :: 0 <= i < |ids| ==> r[i] == (names[ids[i]], row[ids[i]])
  {
    seq(|ids|, i requires 0 <= i < |ids| => (names[ids[i]], row[ids[i]]))
  }

  /** The key `value_tuples` sorts a name by: `han_solo` as `"~"`, every other name as itself. */
  function SortKey(name: string): string {
    if name == "han_solo" then "~" else name
  }

  /**
   * The tuples of ids sorted by `TupleKey` are sorted by name: no later
   * tuple's key sorts before an earlier one's, and the ids are distinct.
   */
  lemma TuplesSortedByName(ids: seq<nat>, row: map<nat, nat>, names: seq<string>)
    requires forall i :: 0 <= i < |ids| ==> ids[i] in row && ids[i] < |names|
    requires StrictlySorted(ids, TupleKey(names))
    ensures forall i, j :: 0 <= i < j < |ids| ==>
      !LessName(SortKey(Tuples(ids, row, names)[j].0), SortKey(Tuples(ids, row, names)[i].0))
    ensures forall i, j :: 0 <= i < j < |ids| ==> ids[i] != ids[j]
  {
    var r := Tuples(ids, row, names);
    forall i, j | 0 <= i < j < |ids|
      ensures !LessName(SortKey(r[j].0), SortKey(r[i].0)) && ids[i] != ids[j]
    {
      var key := TupleKey(names);
      assert SortKey(r[i].0) == key(ids[i]) && SortKey(r[j].0) == key(ids[j]);
      assert Before(key, ids[i], ids[j]);
      LessNameTotal(key(ids[i]), key(ids[j]));
      LessNameIrreflexive(key(ids[i]));
      SortedDistinct(ids, key, i, j);
    }
  }

  /** `App` without the repository handle and the widget width. */
  class App {
    var shouldQuit: bool
    var searchFilter: string
    var rangeFilterPopup: Option<RangeFilter>
    var authors: StatefulList<nat>
    var coAuthorCounts: IdCounts
    var navigatorCounts: IdCounts
    /** The string cache of the repository: `names[k]` is the name interned as `k`. */
    var names: seq<string>

    /** The key-handler fields as one value. */
    function UiState(): Ui
      reads this
    {
      Ui(shouldQuit, searchFilter, rangeFilterPopup)
    }

    /**
     * `App::new`: an open popup holding `range`, immediately confirmed;
     * `outcome` is what the repository returns for that range and `names`
     * its string cache after the call.
     */
    constructor(names: seq<string>, range: Option<string>, outcome: Result<(IdCounts, IdCounts), string>)
      ensures this.names == names && !shouldQuit && searchFilter == ""
      ensures outcome.Ok? ==> rangeFilterPopup.None?
      ensures outcome.Err? ==> rangeFilterPopup == Some(RangeFilter("", outcome.error))
      ensures outcome.Ok? ==>
        && navigatorCounts == EqualisedNavigators(outcome.value.0, outcome.value.1)
        && coAuthorCounts == EqualisedCoAuthors(outcome.value.0, outcome.value.1)
        && StrictlySorted(authors.items, NameKey(names))
        && (forall a :: a in authors.items <==> a in navigatorCounts && navigatorCounts[a] != map[])
        && authors.selected == (if authors.items != [] then Some(0) else None)
        && authors.currentItems == []
      ensures outcome.Err? ==>
        && navigatorCounts == map[] && coAuthorCounts == map[]
        && authors.items == [] && authors.currentItems == [] && authors.selected == None
    {
      this.names := [];
      shouldQuit := false;
      searchFilter := "";
      rangeFilterPopup := Some(RangeFilter(range.GetOr(""), ""));
      coAuthorCounts := map[];
      navigatorCounts := map[];
      authors := new StatefulList<nat>.WithItems([]);
      new;
      OnEnter(outcome, names);
    }

    /** `apply_authors`: equalises both count maps and lists the authors with navigator entries by name. */
    method ApplyAuthors(nav: IdCounts, co: IdCounts)
      modifies this
      ensures navigatorCounts == EqualisedNavigators(nav, co)
      ensures coAuthorCounts == EqualisedCoAuthors(nav, co)
      ensures fresh(authors) && authors.currentItems == []
      ensures StrictlySorted(authors.items, NameKey(names))
      ensures forall a :: a in authors.items <==> a in navigatorCounts && navigatorCounts[a] != map[]
      ensures authors.selected == if authors.items != [] then Some(0) else None
      ensures UiState() == old(UiState()) && names == old(names)
    {
      var nav', co' := EqualiseCounts(nav, co);
      var candidates := set a | a in nav' && nav'[a] != map[];
      var sorted := SortIds(candidates, NameKey(names));
      authors := new StatefulList<nat>.WithItems(sorted);
      coAuthorCounts := co';
      navigatorCounts := nav';
    }

    /** `value_tuples`: a row's (name, count) pairs by name, `han_solo` after the ASCII names; none without a row. */
    method ValueTuples(row: Option<map<nat, nat>>) returns (r: seq<(string, nat)>)
      requires row.Some? ==> forall k :: k in row.value ==> k < |names|
      ensures row.None? ==> r == []
      ensures row.Some? ==> exists ids: seq<nat> ::
        StrictlySorted(ids, TupleKey(names)) && (forall k :: k in ids <==> k in row.value) &&
        (forall i :: 0 <= i < |ids| ==> ids[i] in row.value && ids[i] < |names|) &&
        r == Tuples(ids, row.value, names)
    {
      match row
      case None =>
        r := [];
      case Some(counts) =>
        var ids := SortIds(counts.Keys, TupleKey(names));
        assert forall i :: 0 <= i < |ids| ==> ids[i] in ids;
        r := Tuples(ids, counts, names);
    }

    /** `on_up`: the previous author, unless the popup is open. */
    method OnUp()
      modifies authors
      ensures rangeFilterPopup.None? ==> authors.selected == Some(PreviousIndex(old(authors.selected), |authors.currentItems|))
      ensures rangeFilterPopup.Some? ==> authors.selected == old(authors.selected)
      ensures authors.items == old(authors.items) && authors.currentItems == old(authors.currentItems)
    {
      if rangeFilterPopup.None? {
        authors.Previous();
      }
    }

    /** `on_down`: the next author, unless the popup is open. */
    method OnDown()
      modifies authors
      ensures rangeFilterPopup.None? ==> authors.selected == Some(NextIndex(old(authors.selected), |authors.currentItems|))
      ensures rangeFilterPopup.Some? ==> authors.selected == old(authors.selected)
      ensures authors.items == old(authors.items) && authors.currentItems == old(authors.currentItems)
    {
      if rangeFilterPopup.None? {
        authors.Next();
      }
    }

    /** `on_key`; `lowerOrSpace` is `c.is_lowercase() || c.is_whitespace()`. */
    method OnKey(c: char, lowerOrSpace: bool)
      modifies this
      ensures UiState() == KeyStep(old(UiState()), c, lowerOrSpace)
      ensures authors == old(authors) && navigatorCounts == old(navigatorCounts)
      ensures coAuthorCounts == old(coAuthorCounts) && names == old(names)
    {
      match rangeFilterPopup
      case Some(rangeFilter) =>
        rangeFilterPopup := Some(rangeFilter.(filter := rangeFilter.filter + [c]));
      case None =>
        if c == 'Q' {
          shouldQuit := true;
        } else if c == 'R' {
          rangeFilterPopup := Some(RangeFilter("", ""));
        } else if lowerOrSpace {
          searchFilter := searchFilter + [c];
        }
    }

    /** `on_escape`. */
    method OnEscape()
      modifies this
      ensures UiState() == EscapeStep(old(UiState()))
      ensures authors == old(authors) && navigatorCounts == old(navigatorCounts)
      ensures coAuthorCounts == old(coAuthorCounts) && names == old(names)
    {
      var popup := rangeFilterPopup;
      rangeFilterPopup := None;
      if popup.None? {
        searchFilter := "";
      }
    }

    /** `on_backspace`. */
    method OnBackspace()
      modifies this
      ensures UiState() == BackspaceStep(old(UiState()))
      ensures authors == old(authors) && navigatorCounts == old(navigatorCounts)
      ensures coAuthorCounts == old(coAuthorCounts) && names == old(names)
    {
      match rangeFilterPopup
      case Some(rangeFilter) =>
        rangeFilterPopup := Some(rangeFilter.(filter := Pop(rangeFilter.filter)));
      case None =>
        searchFilter := Pop(searchFilter);
    }

    /**
     * `on_enter`; `outcome` is what the repository returns for
     * `RangeArgument` of the popup filter and `cache` is the repository's
     * string cache after that call. Counts and the author list are replaced
     * only when a reload was requested and succeeded.
     */
    method OnEnter(outcome: Result<(IdCounts, IdCounts), string>, cache: seq<string>)
      modifies this
      ensures UiState() == EnterStep(old(UiState()), outcome)
      ensures names == if ReloadRequested(old(UiState())) then cache else old(names)
      ensures ReloadRequested(old(UiState())) && outcome.Ok? ==>
        && navigatorCounts == EqualisedNavigators(outcome.value.0, outcome.value.1)
        && coAuthorCounts == EqualisedCoAuthors(outcome.value.0, outcome.value.1)
        && fresh(authors) && StrictlySorted(authors.items, NameKey(names))
        && (forall a :: a in authors.items <==> a in navigatorCounts && navigatorCounts[a] != map[])
        && authors.selected == (if authors.items != [] then Some(0) else None)
        && authors.currentItems == []
      ensures !(ReloadRequested(old(UiState())) && outcome.Ok?) ==>
        authors == old(authors) && navigatorCounts == old(navigatorCounts) && coAuthorCounts == old(coAuthorCounts)
    {
      var popup := rangeFilterPopup;
      rangeFilterPopup := None;
      if popup.Some? {
        var filter := popup.value.filter;
        var error := popup.value.error;
        if filter == "" && error != "" {
          rangeFilterPopup := Some(RangeFilter(filter, error));
          return;
        }
        names := cache;
        match outcome
        case Ok((nav, co)) =>
          ApplyAuthors(nav, co);
        case Err(e) =>
          rangeFilterPopup := Some(RangeFilter("", e));
      }
    }
  }
}
