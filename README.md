# git-stats pairing statistics, modelled in Dafny

git-stats walks the history of a git repository and reports who paired with whom.
The author of a commit is the *driver*. Every `Co-authored-by:` trailer in the
commit message names a *navigator*. A commit without trailers counts as a solo
commit, credited to the pseudo-navigator `han_solo`. The terminal front end
lists the authors and shows two tables per author:

- the drivers they navigated for;
- the co-authors they drove with.

Both tables can be narrowed with a revision range and a search filter.

This project models the part of the program that does not depend on git or on
the terminal. Each item below is one Dafny module:

- **CoAuthors** (`co_authors.dfy`): the trailer parser of `co-authors/src/lib.rs`.
  It accepts one or more case-insensitive `co-authored-by:` keys, each
  surrounded by white space. It then takes everything up to the first `<` and
  trims the trailing spaces; the result is the name. `src/main.rs` carries a
  verbatim copy of this parser (`mod coauthor`), which the same members model.
- **StringCache** (`stringcache.dfy`): the string interner that gives author
  names dense ids. It is a class over a sequence of distinct strings. Its
  operations are specified by pure functions.
- **AuthorCounts** (`author_counts.dfy`): the id-keyed pairing aggregator. It
  counts, for each (subject, co-author) edge, how often the subject drove and
  how often the two paired at all. It is a class over a map, plus the
  bookkeeping invariant that every edge has its mirror.
- **AuthorPathCounts** (`author_path_counts.dfy`): the per-author added and
  deleted line counters.
- **Repo** (`repo.dfy`): the history-independent part of `src/repo.rs`:
  - author-name normalisation: a first-match replacement table, then umlaut
    folding;
  - navigator extraction from a commit message, line by line;
  - the per-commit driver tally of `extract_coauthors`;
  - its merge into symmetric pair counts.

  The commits arrive as a sequence of (author, message, parent count) values
  in walk order.
- **MainBinary** (`main_binary.dfy`): the tally loop of `src/main.rs`. It
  applies only umlaut folding to author names, with no replacement table.
- **Ordering** (`ordering.dfy`): code-point order on strings. It also holds
  the sort used by `src/app.rs`: a stable sort of ids taken in ascending order
  by name, which is the strict order by (name, id).
- **App** (`app.dfy`):
  - the `StatefulList` selection logic;
  - the key handlers of `App`;
  - the equalisation of navigator and co-author rows in `apply_authors`;
  - `value_tuples`.

  Classes are used where the source mutates fields.

State that the source changes in place is modelled by classes with `modifies`
clauses. Loops are methods proved against functions. The properties the source
relies on are lemmas about those functions.

Where the source and its description disagree, the model follows the code:

- `get_co_author` returns only a name. It does not extract the mail address.
- An empty name before `<` is a match with the name `""`
  (`CoAuthors.KeyThenMailOnly`). It is not a failure.
- The binary in `src/main.rs` folds umlauts but does not apply the replacement
  table.
- The binary keeps merge commits out with the same parent-count filter.
- The binary's map, though named `pair_counts`, holds driver counts. No merge
  happens there.

## Model

| member | source | states |
|---|---|---|
| CoAuthors.SkipWs | co-authors/src/lib.rs:22-25 | `ws!`'s whitespace skip stays inside the line and never moves backwards |
| CoAuthors.SkipWsSpec | co-authors/src/lib.rs:22-25 | the skip consumes only whitespace and stops at the end or at a non-whitespace character |
| CoAuthors.SkipWsIdempotent | co-authors/src/lib.rs:22-25 | skipping whitespace twice is skipping it once |
| CoAuthors.KeyStepSpec | co-authors/src/lib.rs:22-25 | one `ws!(tag_no_case!(..))` step succeeds only where the key, in some ASCII case, follows the leading whitespace, and it ends at the end of the line or at a non-whitespace character |
| CoAuthors.MoreKeysStops | co-authors/src/lib.rs:22-25 | `many1!` stops where no further key follows |
| CoAuthors.MoreKeysNonWs | co-authors/src/lib.rs:22-25 | after the repeated keys, the remaining input starts with a non-whitespace character or is empty |
| CoAuthors.CoAuthoredByAt | co-authors/src/lib.rs:22-25 | `co_authored_by` fails exactly when the first key step fails; on success it has consumed at least one key |
| CoAuthors.CoAuthoredByShape | co-authors/src/lib.rs:22-25 | after `co_authored_by` the rest starts with no whitespace and with no further key |
| CoAuthors.CoAuthoredByAnyCase | co-authors/src/lib.rs:22-25 | a key in any case, followed by whitespace and then text that is not a key, leaves exactly that text |
| CoAuthors.CoAuthoredByStacked | co-authors/src/lib.rs:22-25 | a repeated key is consumed as well, as in the "florentin case" |
| CoAuthors.FindLt | co-authors/src/lib.rs:30 | `take_till!(c == '<')` succeeds only at a position holding `<` |
| CoAuthors.FindLtSpec | co-authors/src/lib.rs:30 | it succeeds exactly when a `<` follows, and no `<` lies before the stop |
| CoAuthors.FindLtFirst | co-authors/src/lib.rs:30 | it stops at the first `<` |
| CoAuthors.TrailingSpaces | co-authors/src/lib.rs:18-20 | counts exactly the run of spaces at the end |
| CoAuthors.ByteStringTrim | co-authors/src/lib.rs:18-20 | the result is a prefix of the input, does not end in a space, and only spaces were dropped |
| CoAuthors.TrimIdempotent | co-authors/src/lib.rs:18-20 | trimming twice is trimming once |
| CoAuthors.TrimIsLongest | co-authors/src/lib.rs:18-20 | the result is the longest prefix that does not end in a space |
| CoAuthors.TrimOneSpace | co-authors/src/lib.rs:18-20 | one trailing space is removed from a name that does not end in a space |
| CoAuthors.GetCoAuthorNoneIffNoMatch | co-authors/src/lib.rs:11-15 | `get_co_author` yields None exactly when the key is missing or no `<` follows it |
| CoAuthors.NameShape | co-authors/src/lib.rs:11-15 | the name holds no `<`, neither starts with whitespace nor ends with a space, and is the text right after the keys |
| CoAuthors.NotATrailer | co-authors/src/lib.rs:22-32 | a line whose first non-whitespace character cannot start the key yields None |
| CoAuthors.GetCoAuthorOfTrailer | co-authors/src/lib.rs:11-32 | key, whitespace, name, `<` and mail yield the trimmed name |
| CoAuthors.GetCoAuthorAfterKeys | co-authors/src/lib.rs:26-32 | whatever the keys consumed, the name is the trimmed text up to the first `<` |
| CoAuthors.KeyThenMailOnly | co-authors/src/lib.rs:26-32 | a key directly followed by ` <mail>` yields the empty name, not a failure |
| CoAuthors.StartsWithAIsNoKey | co-authors/src/lib.rs:22-25 | text starting with `A` is not a key |
| CoAuthors.TestKeysSpellKey | co-authors/src/lib.rs:40-43 | the four spellings of the tests are the key in some case |
| CoAuthors.CoAuthoredByTests | co-authors/src/lib.rs:40-48 | `test_co_authored_by`: every case and the stacked key leave `Alice <alice@wonderland.org>` |
| CoAuthors.GetCoAuthorTests | co-authors/src/lib.rs:50-62 | `test_co_author` and `test_get_co_author`: the names `Alice`, `Alice Bob` and `Alice Keys` |
| CoAuthors.OtherContentTest | co-authors/src/lib.rs:59 | `Some other content` yields None |
| CoAuthors.TrailerOfAliceName | co-authors/src/lib.rs:50-62 | a test trailer yields its trimmed name |
| StringCache.IndexOf | src/stringcache.rs:16-24 | the lookup finds `k` exactly when it is present, at its first position |
| StringCache.Get | src/stringcache.rs:26-28 | `get` is None exactly for ids past the end, and otherwise the string with that id |
| StringCache.IndexOfUnique | src/stringcache.rs:16-24 | without duplicates, the id of a present string is its position |
| StringCache.InternPreservesNoDuplicates | src/stringcache.rs:16-24 | `intern` never stores a string twice |
| StringCache.InternThenGet | src/stringcache.rs:16-28 | `get` of the id `intern` returned gives back the interned string |
| StringCache.InternExistingOrAppend | src/stringcache.rs:20-22 | a present string keeps its id and nothing changes; a new one is appended with the next id |
| StringCache.InternIdempotent | src/stringcache.rs:16-24 | interning the same string again changes nothing and returns the same id |
| StringCache.InternKeepsOldIds | src/stringcache.rs:16-28 | existing ids keep their strings |
| StringCache.DistinctStringsDistinctIds | src/stringcache.rs:16-28 | two different strings get different ids, and each id resolves to its own string |
| StringCache.InternAllContents | src/stringcache.rs:16-24 | interning a sequence stores exactly its strings, once each |
| StringCache.InternKeepsIndexOf | src/stringcache.rs:16-24 | interning does not move an existing string |
| StringCache.InternAllFirstSeenOrder | src/stringcache.rs:16-24 | ids follow the order of first appearance |
| StringCache.StringCache.constructor | src/stringcache.rs:10-14 | a new cache is empty |
| StringCache.StringCache.Intern | src/stringcache.rs:16-24 | the cache becomes `Interned(old, k)`, stays duplicate-free, and the returned id names `k` |
| StringCache.StringCache.GetIndex | src/stringcache.rs:26-28 | None exactly past the end, otherwise the stored string |
| StringCache.StringCache.At | src/stringcache.rs:31-39 | indexing a valid id returns the string whose id it is |
| AuthorCounts.PairedWith.IncDriver | src/author_counts.rs:130-133 | one more drive and one more pairing |
| AuthorCounts.PairedWith.IncNavigator | src/author_counts.rs:135-137 | one more pairing, drives unchanged |
| AuthorCounts.Len | src/author_counts.rs:72-74 | the number of co-authors; zero exactly for no edges |
| AuthorCounts.MaxValue | src/author_counts.rs:76-78 | an upper bound of every `total` that one edge reaches, 0 for no edges |
| AuthorCounts.ConsistentDriverAtMostTotal | src/author_counts.rs:9-14 | in consistent counts no edge has more drives than pairings |
| AuthorCounts.SelfPairIsNoop | src/author_counts.rs:9-14 | pairing an author with themselves changes nothing |
| AuthorCounts.AddPairEffect | src/author_counts.rs:9-14 | `add_pair` creates missing entries, gives the driver's edge one drive and one pairing, gives the navigator's edge one pairing, and leaves every other entry alone |
| AuthorCounts.AddPairPreservesConsistent | src/author_counts.rs:9-14 | `add_pair` keeps edges mirrored, with equal totals and drives that sum to the total |
| AuthorCounts.AddPairLen | src/author_counts.rs:9-14 | the driver's `len` grows by one exactly when the navigator is new to them |
| AuthorCounts.AddPairMaxValue | src/author_counts.rs:9-14 | `max_value` never decreases and covers the updated edge |
| AuthorCounts.SamePairingStep | src/author_counts.rs:9-14 | one more identical pairing moves the closed form from `n` to `n + 1` |
| AuthorCounts.RepeatPairIsSamePairing | src/author_counts.rs:9-14 | `n` identical pairings from empty counts give the closed form |
| AuthorCounts.RepeatPairCounts | src/author_counts.rs:9-14 | after `n` identical pairings the driver has drives = pairings = `n` and the navigator has 0 drives and `n` pairings |
| AuthorCounts.AuthorCounts.constructor | src/author_counts.rs:6 | new counts are empty and consistent |
| AuthorCounts.AuthorCounts.Author | src/author_counts.rs:16-18 | `author` returns the subject's edges, creating an empty entry on first use |
| AuthorCounts.AuthorCounts.AddPair | src/author_counts.rs:9-14 | the counts become `WithPair(old, driver, navigator)` and stay consistent |
| AuthorCounts.AuthorCounts.At | src/author_counts.rs:31-36 | indexing a present subject gives that subject's row, and every edge in it has a mirror with the same total |
| AuthorPathCounts.Modifications.AddAdditions | src/author_path_counts.rs:75-77 | additions grow by `k`, deletions unchanged |
| AuthorPathCounts.Modifications.AddDeletions | src/author_path_counts.rs:79-81 | deletions grow by `k`, additions unchanged |
| AuthorPathCounts.AdditionsAccumulate | src/author_path_counts.rs:12-14 | repeated additions for one author add up to their sum, and nothing else changes |
| AuthorPathCounts.UpdatesAreLocal | src/author_path_counts.rs:12-22 | an update creates the author's entry if missing, changes only the named counter, and leaves other authors alone |
| AuthorPathCounts.AddAdditionsExample | src/author_path_counts.rs:90-97 | the `add_additions` test: 42 for author 0 and 84 for author 1 |
| AuthorPathCounts.AddDeletionsExample | src/author_path_counts.rs:99-106 | the `add_deletions` test: 42 for author 0 and 84 for author 1 |
| AuthorPathCounts.ResolvingIteratorExample | src/author_path_counts.rs:108-130 | the updates of `resolving_iterator` as written: Alice (42, 23), Bob (116, 0), not the (84, 32) the test asserts |
| AuthorPathCounts.ResolvingIteratorIntended | src/author_path_counts.rs:108-130 | with the fourth call a deletion, Bob ends at the asserted (84, 32) and Alice at (42, 23) |
| AuthorPathCounts.AuthorPathCounts.constructor | src/author_path_counts.rs:9 | no authors |
| AuthorPathCounts.AuthorPathCounts.AddAdditions | src/author_path_counts.rs:12-14 | the map becomes `WithAdditions(old, author, k)` |
| AuthorPathCounts.AuthorPathCounts.AddDeletions | src/author_path_counts.rs:16-18 | the map becomes `WithDeletions(old, author, k)` |
| AuthorPathCounts.AuthorPathCounts.At | src/author_path_counts.rs:35-40 | indexing a present author gives their counters |
| Repo.Fold | src/repo.rs:127-137 | the table covers exactly `Ä ä Ö ö Ü ü ß`, each spelled as two ASCII letters |
| Repo.ReplaceUmlauts | src/repo.rs:126-150 | the loop builds `Folded(input)` |
| Repo.FoldedAppend | src/repo.rs:141-149 | folding works character by character, so it distributes over concatenation |
| Repo.FoldedIdentity | src/repo.rs:143-148 | a string without umlauts is unchanged |
| Repo.FoldedLength | src/repo.rs:143-148 | each folded character adds exactly one character to the length |
| Repo.FoldedHasNoUmlauts | src/repo.rs:126-150 | the result contains none of the seven characters |
| Repo.FoldedIdempotent | src/repo.rs:126-150 | folding twice is folding once |
| Repo.FirstReplacementSpec | src/repo.rs:102-113 | no rule applies exactly when no rule's source equals the name; otherwise the result is the target of the first rule whose source equals the name |
| Repo.NormalizeAuthorName | src/repo.rs:101-116 | the loop computes `Normalized`: the first matching replacement, or the name, then folded |
| Repo.NormalizedWithoutRules | src/repo.rs:101-116 | with no replacements, normalising is folding |
| Repo.NormalizedNoChaining | src/repo.rs:102-115 | the first matching rule's target is folded and never replaced again |
| Repo.LineEnd | src/repo.rs:118-124 | the end of a line lies between its start and the end of the text |
| Repo.LineEndSpec | src/repo.rs:118-124 | the end of a line is the first `\n` or the end of the text |
| Repo.LinesHaveNoNewline | src/repo.rs:118-124 | no piece of `lines()` contains `\n` |
| Repo.LinesOfLine | src/repo.rs:118-124 | text `l\nrest` splits into `l` without a final `\r`, followed by the lines of `rest` |
| Repo.LinesOfLastLine | src/repo.rs:118-124 | a non-empty text without `\n` is one line, and no empty last line follows |
| Repo.Navigators | src/repo.rs:118-124 | there are never more navigators than lines |
| Repo.NavigatorsAppend | src/repo.rs:118-124 | navigators of concatenated lines are concatenated, in order |
| Repo.NavigatorsMembers | src/repo.rs:118-124 | a name is a navigator exactly when some line parses to it |
| Repo.NavigatorsOfTrailerLine | src/repo.rs:118-124 | a message that is one trailer line has exactly that navigator |
| Repo.AddEffect | src/repo.rs:54-66 | `entry().or_insert(0) += c` adds `c` to one count and creates its entries |
| Repo.AddPositive | src/repo.rs:54-66 | adding at least 1 keeps every stored count positive |
| Repo.PositiveEntries | src/repo.rs:54-66 | in such counts, an entry exists exactly when its count is positive |
| Repo.BumpAllEffect | src/repo.rs:63-67 | the navigator loop adds, for each name, its multiplicity among the navigators |
| Repo.BumpAllPositive | src/repo.rs:63-67 | the navigator loop keeps counts positive |
| Repo.CommitUpdateEffect | src/repo.rs:54-67 | one commit creates the driver's row and adds 1 to `han_solo` when there are no navigators, otherwise the navigators' multiplicities |
| Repo.CommitUpdatePositive | src/repo.rs:54-67 | one commit keeps counts positive |
| Repo.NormalizedAll | src/repo.rs:63-64 | normalises each navigator, keeping their number |
| Repo.DriverCountsStep | src/repo.rs:45-67 | a commit with one parent adds its tally; any other commit adds nothing |
| Repo.DriverCountsPositive | src/repo.rs:45-67 | every stored driver count is positive |
| Repo.RecordCommit | src/repo.rs:47-67 | one commit's loop produces `CommitUpdate` with the normalised navigators |
| Repo.ExtractCoauthors | src/repo.rs:31-99 | the driver counts are the tally of the one-parent commits; each pair count is the sum of the two directed driver counts, and every stored pair count is positive |
| Repo.MergePairCounts | src/repo.rs:70-96 | the merge makes each pair count the sum of the two directed driver counts, and stores only positive counts |
| Repo.MergedShape | src/repo.rs:70-96 | the pair counts are symmetric, and an entry exists exactly when either direction was driven |
| MainBinary.FoldedAll | src/main.rs:80-81 | folds each navigator, keeping their number |
| MainBinary.TallyCommits | src/main.rs:57-88 | the binary's loop computes `Tallied` |
| MainBinary.RecordCommit | src/main.rs:69-87 | one commit's update: the folded author's row with `han_solo` or the folded navigators |
| MainBinary.FoldedAllIsNormalizedAll | src/main.rs:150-162 | folding alone is normalising with no replacement rules |
| MainBinary.TalliedIsDriverCountsWithoutRules | src/main.rs:57-88 | the binary tallies exactly what `extract_coauthors` tallies with no replacement rules |
| MainBinary.TalliedPositive | src/main.rs:57-88 | every stored count is positive |
| Ordering.LessNameIrreflexive | src/app.rs:92 | no name sorts before itself |
| Ordering.LessNameTransitive | src/app.rs:92 | the name order is transitive |
| Ordering.LessNameTotal | src/app.rs:92 | of two different names exactly one sorts first |
| Ordering.BelowTilde | src/app.rs:134 | a name whose first character is below `~` sorts before `han_solo`'s key `"~"` |
| Ordering.BeforeTotal | src/app.rs:92 | (key, id) order is total and asymmetric |
| Ordering.BeforeTransitive | src/app.rs:92 | (key, id) order is transitive |
| Ordering.Insert | src/app.rs:92 | inserting adds exactly one element |
| Ordering.InsertSorted | src/app.rs:92 | inserting keeps the list strictly sorted and adds exactly the new id |
| Ordering.SortIds | src/app.rs:86-92 | the result lists exactly the given ids, strictly in (key, id) order |
| Ordering.SortedDistinct | src/app.rs:86-92 | a sorted list has no repeats |
| Ordering.SortedUnique | src/app.rs:86-92 | two sorted lists of the same ids are equal, so the stable sort's output is determined |
| App.CurrentOf | src/app.rs:246-248 | `current` is the item at the selection (0 when none), or None past the end |
| App.NextInRange | src/app.rs:259-271 | `next` selects a valid index of a non-empty list |
| App.PreviousInRange | src/app.rs:273-285 | `previous` from a valid selection selects a valid index |
| App.NextPreviousInverse | src/app.rs:259-285 | `previous` undoes `next`, and `next` undoes `previous`, on valid selections |
| App.NextCycles | src/app.rs:259-271 | `k` presses of `next` from 0 reach `k`, and `len` presses wrap to 0 |
| App.ClampedSelectionIsCurrent | src/app.rs:250-257 | the intended clamp always leaves a current item in a non-empty list and keeps a valid selection |
| App.StaleSelectionAfterFilterDown | src/app.rs:250-257 | with the code as written, a selection of 3 over one item shows no current item, and `previous` does not recover it; the clamp would |
| App.StatefulList.WithItems | src/app.rs:233-244 | `with_items` selects 0 exactly for a non-empty list, and has no current items |
| App.StatefulList.Current | src/app.rs:246-248 | the current item of the list's state |
| App.StatefulList.FilterDown | src/app.rs:250-257 | as written: the current items are replaced and the selection is unchanged |
| App.StatefulList.FilterDownClamped | src/app.rs:250-257 | as intended: the selection is clamped to the new items, so a non-empty list has a current item |
| App.StatefulList.Next | src/app.rs:259-271 | selects `NextIndex`, and a non-empty list then has a current item |
| App.StatefulList.Previous | src/app.rs:273-285 | selects `PreviousIndex` |
| App.RangeArgument | src/app.rs:172 | an empty filter means no range; otherwise the filter is the range |
| App.KeyThenBackspace | src/app.rs:153-164 | a typed character, in the popup or in the search filter, is undone by backspace |
| App.PopupCapturesKeys | src/app.rs:153-156 | with the popup open every character, `Q` and `R` included, goes into the popup filter |
| App.QuitIsFinal | src/app.rs:153-199 | only `Q` outside the popup sets `should_quit`, and no handler clears it |
| App.EscapeTwice | src/app.rs:187-191 | two escapes close the popup and clear the search filter |
| App.FailedReloadWaitsForInput | src/app.rs:166-183 | after a failed reload the error is shown with an empty filter, and Enter does nothing until something is typed |
| App.Fill | src/app.rs:67-82 | adding zero entries makes the row's keys the union |
| App.FillOwnKeys | src/app.rs:76-81 | filling with keys the row already has adds nothing |
| App.EqualisedNavigators | src/app.rs:45-84 | navigator rows exist only for authors that had them |
| App.EqualisedCoAuthors | src/app.rs:45-84 | co-author rows exist for every author of either side |
| App.EqualiseSpec | src/app.rs:57-84 | an author with a navigator row ends with equal key sets on both sides; original counts are kept, added entries are zero, and co-author-only rows are untouched |
| App.FillZeros | src/app.rs:70-72 | the loop computes `Fill` |
| App.MergeRows | src/app.rs:75-82 | both rows are filled with each other's keys |
| App.VisitedAll | src/app.rs:57-84 | when every author is visited, the rows are the equalised ones |
| App.EqualiseCounts | src/app.rs:50-84 | the loop over all authors computes the equalised rows |
| App.Tuples | src/app.rs:128-133 | one (name, count) pair per id, in order |
| App.TuplesSortedByName | src/app.rs:128-135 | tuples of ids sorted by (key, id) are sorted by name, with `han_solo` keyed as `~`, and list no id twice |
| App.App.constructor | src/app.rs:26-43 | starts with the range popup, which `on_enter` immediately processes: on success the equalised counts, no popup, and the authors with a non-empty navigator row sorted by name with the first selected; on failure the error popup, empty counts and an empty author list |
| App.App.ApplyAuthors | src/app.rs:45-106 | the counts are equalised; the author list holds exactly the authors with a non-empty navigator row, sorted by name and id, with the first one selected |
| App.App.ValueTuples | src/app.rs:125-139 | None gives no tuples; otherwise the tuples are every id of the row, sorted by name with `han_solo` as `~` |
| App.App.OnUp | src/app.rs:141-145 | `previous` when no popup is open, else nothing |
| App.App.OnDown | src/app.rs:147-151 | `next` when no popup is open, else nothing |
| App.App.OnKey | src/app.rs:153-164 | the key step on the UI fields; the lists and counts are untouched |
| App.App.OnEscape | src/app.rs:187-191 | the escape step on the UI fields; nothing else changes |
| App.App.OnBackspace | src/app.rs:193-199 | the backspace step on the UI fields; nothing else changes |
| App.App.OnEnter | src/app.rs:166-185 | the enter step on the UI fields; a requested reload takes the repository's cache after the call; a successful one installs the equalised counts and a fresh author list holding exactly the authors with a non-empty navigator row, sorted by name, first one selected; anything else keeps counts and list |

## Left out

- Opening the repository and walking its history (`Repo::open`, `revwalk`, `find_commit`) are git I/O. The commits are a parameter.
- A commit whose author name or message is not valid UTF-8 reads as empty (`unwrap_or_default`). The model receives strings that are already decoded.
- `from_utf8` in `get_co_author` is not modelled. Strings are sequences of characters, so the trimmed name is always valid text.
- `into_resolving_iter` and the resolving iterators of `author_counts.rs` and `author_path_counts.rs` only pair ids with interned names, in hash order. Hash iteration order is not modelled.
- The `resolving_iterator` test asserts (84, 32) for Bob, while its calls give (116, 0); see "## Findings". The iteration over hash-ordered output in that test is not modelled.
- `AuthorCounts.MaxValue` is a ghost function; the source folds over the hash map's values.
- Repo.ExtractCoauthors: the merge groups the mirrored pairs into vectors (`into_group_map`) before summing them. The model sums in place, and proves the same totals.
- `u32` overflow of the counters is not modelled. Counts are unbounded naturals.
- `author_widget_width` uses Unicode display width, which is left out.
- `current_author`, `set_current_author`, `co_author_tuples`, `navigator_tuples` and the accessors of `App` only read fields, and are left out.
- App.App.OnKey: `c.is_lowercase() || c.is_whitespace()` is the parameter `lowerOrSpace`. Unicode character classes are not modelled.
- App.App.OnEnter: the repository call `extract_coauthors(range)` is the parameter `outcome`. The range it is given is `RangeArgument(filter)`.
- App.App.OnEnter: the repository's string cache after that call is the parameter `cache`. How the call grows the cache is not modelled: the `extract_coauthors` of `src/repo.rs` keys its counts by name and keeps no cache. The model does not promise that old ids keep their names across a reload; the interner itself does (`StringCache.InternKeepsOldIds`).
- App.App.constructor: the initial `on_enter` gets its repository outcome and the cache after the call (`names`) as parameters, like OnEnter.
- CoAuthors.GetCoAuthor: nom's streaming `Incomplete` results, where the input ends inside a key, are folded into "no match". `.ok()?` treats them the same way.
- The `ui` module and the terminal drawing code are left out.
- The copies in `src/main.rs` (`mod coauthor`, `get_navigators`, `replace_umlauts`, the `REPLACEMENTS` table) are identical to the library versions. They are modelled by the same members.

## Findings

| source | as written | input that shows it | evidently intended | confidence | as-written member | corrected member |
|---|---|---|---|---|---|---|
| src/app.rs:250-257 | `filter_down` clamps a copy of the selection (`&mut self.state.selected()`), so the stored selection is never changed | selection `Some(3)`, then `filter_down` to one item: `current()` is None, and `previous` moves to 2, still None | a selection past the new end is clamped to the last item | not executed | App.StatefulList.FilterDown (shown by App.StaleSelectionAfterFilterDown) | App.StatefulList.FilterDownClamped (proved by App.ClampedSelectionIsCurrent) |
| src/author_path_counts.rs:118 | the `resolving_iterator` test calls `add_additions(bob_idx, 32)` | the calls of lines 115-118: Bob ends at (116, 0), but lines 126-127 assert 84 additions and 32 deletions | `add_deletions(bob_idx, 32)` | not executed | AuthorPathCounts.ResolvingIteratorExample | AuthorPathCounts.ResolvingIteratorIntended |
