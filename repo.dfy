/**
 * The history-independent part of src/repo.rs: author-name normalisation
 * (`normalize_author_name`, `replace_umlauts`), navigator extraction
 * (`get_navigators`), the per-commit tally of `extract_coauthors` and its
 * symmetric merge into pair counts.
 *
 * The revision walk is not modelled: `extract_coauthors` receives the commits
 * as a sequence of (author name, message, parent count) values in walk order.
 */
module Repo {
  import opened Wrappers
  import CoAuthors

  // ---------------------------------------------------------------------------
  // replace_umlauts

  /** The seven characters of the `REPLACEMENTS` table. */
  const Umlauts: set<char> := {'Ä', 'ä', 'Ö', 'ö', 'Ü', 'ü', 'ß'}

  /** An ASCII letter. */
  predicate IsAsciiLetter(c: char) {
    'A' <= c <= 'Z' || 'a' <= c <= 'z'
  }

  /** `REPLACEMENTS.get(&c)`: the two-letter ASCII spelling of an umlaut or `ß`. */
  function Fold(c: char): (r: Option<string>)
    ensures r.Some? <==> c in Umlauts
    ensures r.Some? ==> |r.value| == 2 && IsAsciiLetter(r.value[0]) && IsAsciiLetter(r.value[1])
  {
    if c == 'Ä' then Some("Ae")
    else if c == 'ä' then Some("ae")
    else if c == 'Ö' then Some("Oe")
    else if c == 'ö' then Some("oe")
    else if c == 'Ü' then Some("Ue")
    else if c == 'ü' then Some("ue")
    else if c == 'ß' then Some("ss")
    else None
  }

  /** What one input character contributes to the output. */
  function Piece(c: char): string {
    match Fold(c)
    case Some(r) => r
    case None => [c]
  }

  /** The string `replace_umlauts` builds from `s`, one character at a time. */
  function Folded(s: string): string
    decreases |s|
  {
    if s == [] then [] else Folded(s[..|s| - 1]) + Piece(s[|s| - 1])
  }

  /** The number of characters of `s` that the table folds. */
  function FoldCount(s: string): nat
    decreases |s|
  {
    if s == [] then 0 else FoldCount(s[..|s| - 1]) + (if s[|s| - 1] in Umlauts then 1 else 0)
  }

  /** `replace_umlauts`: copies `input`, spelling out the seven characters of the table. */
  method ReplaceUmlauts(input: string) returns (out: string)
    ensures out == Folded(input)
  {
    out := "";
    for i := 0 to |input|
      invariant out == Folded(input[..i])
    {
      assert input[..i + 1][..i] == input[..i];
      match Fold(input[i])
      case Some(replacement) =>
        out := out + replacement;
      case None =>
        out := out + [input[i]];
    }
    assert input[..|input|] == input;
  }

  /** Folding distributes over concatenation. */
  lemma {:induction false} FoldedAppend(a: string, b: string)
    ensures Folded(a + b) == Folded(a) + Folded(b)
    decreases |b|
  {
    if b != [] {
      var b' := b[..|b| - 1];
      assert (a + b)[..|a + b| - 1] == a + b';
      FoldedAppend(a, b');
    } else {
      assert a + b == a;
    }
  }

  /** A string without any of the seven characters is copied unchanged. */
  lemma {:induction false} FoldedIdentity(s: string)
    requires forall i :: 0 <= i < |s| ==> s[i] !in Umlauts
    ensures Folded(s) == s
    decreases |s|
  {
    if s != [] {
      FoldedIdentity(s[..|s| - 1]);
      assert s[..|s| - 1] + [s[|s| - 1]] == s;
    }
  }

  /** Every folded character grows the string by one. */
  lemma {:induction false} FoldedLength(s: string)
    ensures |Folded(s)| == |s| + FoldCount(s)
    decreases |s|
  {
    if s != [] {
      FoldedLength(s[..|s| - 1]);
    }
  }

  /** The output contains none of the seven characters. */
  lemma {:induction false} FoldedHasNoUmlauts(s: string)
    ensures forall i :: 0 <= i < |Folded(s)| ==> Folded(s)[i] !in Umlauts
    decreases |s|
  {
    if s != [] {
      FoldedHasNoUmlauts(s[..|s| - 1]);
      var p := Piece(s[|s| - 1]);
      assert forall i :: 0 <= i < |p| ==> p[i] !in Umlauts;
    }
  }

  /** Folding twice is folding once. */
  lemma FoldedIdempotent(s: string)
    ensures Folded(Folded(s)) == Folded(s)
  {
    FoldedHasNoUmlauts(s);
    FoldedIdentity(Folded(s));
  }

  // ---------------------------------------------------------------------------
  // normalize_author_name

  /** The `to` of the first `(from, to)` pair whose `from` equals `name`. */
  function FirstReplacement(replacements: seq<(string, string)>, name: string): (r: Option<string>)
    decreases |replacements|
  {
    if replacements == [] then None
    else if replacements[0].0 == name then Some(replacements[0].1)
    else FirstReplacement(replacements[1..], name)
  }

  /** The first matching rule wins; without a matching rule there is no replacement. */
  lemma {:induction false} FirstReplacementSpec(replacements: seq<(string, string)>, name: string)
    ensures FirstReplacement(replacements, name).None? <==>
      forall i :: 0 <= i < |replacements| ==> replacements[i].0 != name
    ensures FirstReplacement(replacements, name).Some? ==>
      exists i :: 0 <= i < |replacements| && replacements[i].0 == name &&
        FirstReplacement(replacements, name).value == replacements[i].1 &&
        forall j :: 0 <= j < i ==> replacements[j].0 != name
    decreases |replacements|
  {
    if replacements != [] && replacements[0].0 != name {
      var tail := replacements[1..];
      FirstReplacementSpec(tail, name);
      assert forall i :: 1 <= i < |replacements| ==> replacements[i] == tail[i - 1];
      if FirstReplacement(tail, name).Some? {
        var i :| 0 <= i < |tail| && tail[i].0 == name &&
          FirstReplacement(tail, name).value == tail[i].1 &&
          forall j :: 0 <= j < i ==> tail[j].0 != name;
        assert replacements[i + 1] == tail[i];
      }
    }
  }

  /** The normalised author name: the replaced (or original) name with its umlauts folded. */
  function Normalized(replacements: seq<(string, string)>, name: string): string {
    Folded(FirstReplacement(replacements, name).GetOr(name))
  }

  /** `normalize_author_name`. */
  method NormalizeAuthorName(replacements: seq<(string, string)>, name: string) returns (out: string)
    ensures out == Normalized(replacements, name)
  {
    var replaced := name;
    var i := 0;
    while i < |replacements|
      invariant 0 <= i <= |replacements|
      invariant FirstReplacement(replacements, name) == FirstReplacement(replacements[i..], name)
    {
      if replacements[i].0 == name {
        replaced := replacements[i].1;
        break;
      }
      assert replacements[i..][1..] == replacements[i + 1..];
      i := i + 1;
    }
    out := ReplaceUmlauts(replaced);
  }

  /** With no replacement rules, normalisation is umlaut folding. */
  lemma NormalizedWithoutRules(name: string)
    ensures Normalized([], name) == Folded(name)
  {
  }

  /** A replaced name is not checked against the rules again: the first rule's `to` is folded as it is. */
  lemma NormalizedNoChaining(replacements: seq<(string, string)>, i: nat, name: string)
    requires i < |replacements| && replacements[i].0 == name
    requires forall j :: 0 <= j < i ==> replacements[j].0 != name
    ensures Normalized(replacements, name) == Folded(replacements[i].1)
  {
    FirstReplacementSpec(replacements, name);
    var k :| 0 <= k < |replacements| && replacements[k].0 == name &&
      FirstReplacement(replacements, name).value == replacements[k].1 &&
      forall j :: 0 <= j < k ==> replacements[j].0 != name;
    assert k == i;
  }

  // ---------------------------------------------------------------------------
  // get_navigators

  /** The end of the line that starts at `i`: the next `'\n'` or the end of `s`. */
  function LineEnd(s: string, i: nat): (j: nat)
    requires i <= |s|
    ensures i <= j <= |s|
    decreases |s| - i
  {
    if i == |s| || s[i] == '\n' then i else LineEnd(s, i + 1)
  }

  /** One `'\r'` before the line end is not part of the line. */
  function StripCr(l: string): string {
    if l != [] && l[|l| - 1] == '\r' then l[..|l| - 1] else l
  }

  /**
   * `str::lines`: the pieces between `'\n'` characters, each without one
   * trailing `'\r'`; a final line terminator does not start an empty line.
   */
  function Lines(s: string): seq<string>
    decreases |s|
  {
    if s == [] then []
    else
      var j := LineEnd(s, 0);
      [StripCr(s[..j])] + (if j == |s| then [] else Lines(s[j + 1..]))
  }

  /** `LineEnd` stops at the first line feed. */
  lemma {:induction false} LineEndSpec(s: string, i: nat)
    requires i <= |s|
    ensures forall k :: i <= k < LineEnd(s, i) ==> s[k] != '\n'
    ensures LineEnd(s, i) == |s| || s[LineEnd(s, i)] == '\n'
    decreases |s| - i
  {
    if i < |s| && s[i] != '\n' {
      LineEndSpec(s, i + 1);
    }
  }

  /** A line feed at `j`, none between `i` and `j`: the line ends there. */
  lemma {:induction false} LineEndAt(s: string, i: nat, j: nat)
    requires i <= j <= |s|
    requires forall k :: i <= k < j ==> s[k] != '\n'
    requires j == |s| || s[j] == '\n'
    ensures LineEnd(s, i) == j
    decreases j - i
  {
    if i < j {
      LineEndAt(s, i + 1, j);
    }
  }

  /** No line contains a line feed. */
  lemma {:induction false} LinesHaveNoNewline(s: string)
    ensures forall l :: l in Lines(s) ==> '\n' !in l
    decreases |s|
  {
    if s != [] {
      var j := LineEnd(s, 0);
      LineEndSpec(s, 0);
      var l := s[..j];
      assert '\n' !in StripCr(l) by {
        assert forall k :: 0 <= k < |StripCr(l)| ==> StripCr(l)[k] == s[k];
      }
      if j < |s| {
        LinesHaveNoNewline(s[j + 1..]);
      }
    }
  }

  /** A line feed splits the text: the piece before it is the first line, the rest are the lines after it. */
  lemma LinesOfLine(l: string, rest: string)
    requires '\n' !in l
    ensures Lines(l + "\n" + rest) == [StripCr(l)] + Lines(rest)
  {
    var s := l + "\n" + rest;
    assert forall k :: 0 <= k < |l| ==> s[k] == l[k];
    LineEndAt(s, 0, |l|);
    assert s[..|l|] == l;
    assert s[|l| + 1..] == rest;
  }

  /** A last line without a line feed is one line. */
  lemma LinesOfLastLine(l: string)
    requires l != [] && '\n' !in l
    ensures Lines(l) == [StripCr(l)]
  {
    LineEndAt(l, 0, |l|);
    assert l[..|l|] == l;
  }

  /** `filter_map(parse).map(name)`: the names `parse` finds, in line order. */
  function Navigators(parse: string -> Option<CoAuthors.CoAuthor>, lines: seq<string>): (names: seq<string>)
    ensures |names| <= |lines|
    decreases |lines|
  {
    if lines == [] then []
    else
      Navigators(parse, lines[..|lines| - 1]) +
      match parse(lines[|lines| - 1])
      case Some(c) => [c.name]
      case None => []
  }

  /** `get_navigators`: the co-author names on the lines of a commit message, in line order. */
  function GetNavigators(message: string): seq<string> {
    Navigators(CoAuthors.GetCoAuthor, Lines(message))
  }

  /** The navigators of two runs of lines are those of the first followed by those of the second. */
  lemma {:induction false} NavigatorsAppend(parse: string -> Option<CoAuthors.CoAuthor>, a: seq<string>, b: seq<string>)
    ensures Navigators(parse, a + b) == Navigators(parse, a) + Navigators(parse, b)
    decreases |b|
  {
    if b == [] {
      assert a + b == a;
    } else {
      var b' := b[..|b| - 1];
      assert (a + b)[..|a + b| - 1] == a + b';
      assert (a + b)[|a + b| - 1] == b[|b| - 1];
      NavigatorsAppend(parse, a, b');
    }
  }

  /** A name is a navigator exactly when some line parses to it. */
  lemma {:induction false} NavigatorsMembers(parse: string -> Option<CoAuthors.CoAuthor>, lines: seq<string>, n: string)
    ensures n in Navigators(parse, lines) <==> exists l :: l in lines && parse(l) == Some(CoAuthors.CoAuthor(n))
    decreases |lines|
  {
    if lines != [] {
      var init := lines[..|lines| - 1];
      var last := lines[|lines| - 1];
      NavigatorsMembers(parse, init, n);
      assert lines == init + [last];
      if exists l :: l in lines && parse(l) == Some(CoAuthors.CoAuthor(n)) {
        var l :| l in lines && parse(l) == Some(CoAuthors.CoAuthor(n));
        if l != last {
          assert l in init;
        }
      }
    }
  }

  /** A message whose only line is a trailer has that one navigator. */
  lemma NavigatorsOfTrailerLine(line: string, name: string)
    requires line != [] && '\n' !in line && line[|line| - 1] != '\r'
    requires CoAuthors.GetCoAuthor(line) == Some(CoAuthors.CoAuthor(name))
    ensures GetNavigators(line) == [name]
  {
    LinesOfLastLine(line);
    assert Lines(line) == [line];
    assert [line][..0] == [];
  }

  // ---------------------------------------------------------------------------
  // Counting: driver -> navigator -> number of commits

  /** `AuthorCounts`: for each driver, how often each navigator (or `han_solo`) paired with them. */
  type Counts = map<string, map<string, nat>>

  /** The navigator name recorded for a commit without co-authors. */
  const HanSolo: string := "han_solo"

  /** A driver's inner map, empty when the driver has no entry yet (`or_insert_with(BTreeMap::new)`). */
  function Inner(m: Counts, a: string): map<string, nat> {
    if a in m then m[a] else map[]
  }

  /** The count stored for `(a, b)`, a missing entry counting as 0. */
  function Count(m: Counts, a: string, b: string): nat {
    if a in m && b in m[a] then m[a][b] else 0
  }

  /** Every stored count is at least 1 and every driver has an entry: no entry is created without being counted. */
  ghost predicate Positive(m: Counts) {
    forall a :: a in m ==> m[a] != map[] && forall b :: b in m[a] ==> m[a][b] >= 1
  }

  /** `*inner.entry(b).or_insert(0) += c` in the inner map of `a`. */
  function Add(m: Counts, a: string, b: string, c: nat): Counts {
    m[a := Inner(m, a)[b := Count(m, a, b) + c]]
  }

  /** Adding touches exactly one count. */
  lemma AddEffect(m: Counts, a: string, b: string, c: nat)
    ensures a in Add(m, a, b, c) && b in Add(m, a, b, c)[a]
    ensures forall x, y :: Count(Add(m, a, b, c), x, y) == Count(m, x, y) + (if x == a && y == b then c else 0)
  {
  }

  /** Adding a positive amount keeps every entry positive. */
  lemma AddPositive(m: Counts, a: string, b: string, c: nat)
    requires Positive(m) && c >= 1
    ensures Positive(Add(m, a, b, c))
  {
    assert b in Add(m, a, b, c)[a];
  }

  /** A positive table has an entry exactly where the count is not 0. */
  lemma PositiveEntries(m: Counts, a: string, b: string)
    requires Positive(m)
    ensures (a in m && b in m[a]) <==> Count(m, a, b) > 0
  {
  }

  /** Each navigator occurrence of one commit increases the driver's count for it by one. */
  function BumpAll(m: Counts, driver: string, navigators: seq<string>): Counts
    decreases |navigators|
  {
    if navigators == [] then m
    else Add(BumpAll(m, driver, navigators[..|navigators| - 1]), driver, navigators[|navigators| - 1], 1)
  }

  /** The tally of one commit (src/repo.rs:54-67): `han_solo` without navigators, else every navigator occurrence. */
  function CommitUpdate(m: Counts, driver: string, navigators: seq<string>): Counts {
    if navigators == [] then Add(m, driver, HanSolo, 1) else BumpAll(m, driver, navigators)
  }

  /** `BumpAll` adds the number of occurrences of each navigator, to the driver's row only. */
  lemma {:induction false} BumpAllEffect(m: Counts, driver: string, navigators: seq<string>)
    ensures navigators != [] ==> driver in BumpAll(m, driver, navigators)
    ensures forall x, y ::
      Count(BumpAll(m, driver, navigators), x, y) == Count(m, x, y) + (if x == driver then multiset(navigators)[y] else 0)
    decreases |navigators|
  {
    if navigators != [] {
      var init := navigators[..|navigators| - 1];
      var last := navigators[|navigators| - 1];
      BumpAllEffect(m, driver, init);
      AddEffect(BumpAll(m, driver, init), driver, last, 1);
      assert navigators == init + [last];
      assert multiset(navigators) == multiset(init) + multiset{last};
    }
  }

  /** `BumpAll` keeps every entry positive. */
  lemma {:induction false} BumpAllPositive(m: Counts, driver: string, navigators: seq<string>)
    requires Positive(m)
    ensures Positive(BumpAll(m, driver, navigators))
    decreases |navigators|
  {
    if navigators != [] {
      BumpAllPositive(m, driver, navigators[..|navigators| - 1]);
      AddPositive(BumpAll(m, driver, navigators[..|navigators| - 1]), driver, navigators[|navigators| - 1], 1);
    }
  }

  /** What one commit adds to the count of `(x, y)`. */
  function Tally(driver: string, navigators: seq<string>, x: string, y: string): nat {
    if x != driver then 0
    else if navigators == [] then (if y == HanSolo then 1 else 0)
    else multiset(navigators)[y]
  }

  /**
   * One commit: the driver always has an entry afterwards; without navigators
   * only the driver's `han_solo` count grows, by one; otherwise each navigator
   * grows by its number of occurrences and `han_solo` is untouched unless it is
   * itself named as a navigator. Other drivers are untouched.
   */
  lemma CommitUpdateEffect(m: Counts, driver: string, navigators: seq<string>)
    ensures driver in CommitUpdate(m, driver, navigators)
    ensures forall x, y ::
      Count(CommitUpdate(m, driver, navigators), x, y) == Count(m, x, y) + Tally(driver, navigators, x, y)
  {
    if navigators == [] {
      AddEffect(m, driver, HanSolo, 1);
    } else {
      BumpAllEffect(m, driver, navigators);
    }
  }

  /** One commit keeps every entry positive. */
  lemma CommitUpdatePositive(m: Counts, driver: string, navigators: seq<string>)
    requires Positive(m)
    ensures Positive(CommitUpdate(m, driver, navigators))
  {
    if navigators == [] {
      AddPositive(m, driver, HanSolo, 1);
    } else {
      BumpAllPositive(m, driver, navigators);
    }
  }

  // ---------------------------------------------------------------------------
  // extract_coauthors

  /** A commit as the revision walk yields it: author name, message and number of parents. */
  datatype Commit = Commit(author: string, message: string, parents: nat)

  /** Each navigator normalised, in order. */
  function NormalizedAll(replacements: seq<(string, string)>, names: seq<string>): (r: seq<string>)
    ensures |r| == |names|
    decreases |names|
  {
    if names == [] then []
    else NormalizedAll(replacements, names[..|names| - 1]) + [Normalized(replacements, names[|names| - 1])]
  }

  /** The driver counts after the walk has visited `commits`; merge commits (parent count other than 1) are skipped. */
  function DriverCounts(replacements: seq<(string, string)>, commits: seq<Commit>): Counts
    decreases |commits|
  {
    if commits == [] then map[]
    else
      var m := DriverCounts(replacements, commits[..|commits| - 1]);
      var c := commits[|commits| - 1];
      if c.parents == 1
      then CommitUpdate(m, Normalized(replacements, c.author), NormalizedAll(replacements, GetNavigators(c.message)))
      else m
  }

  /** Each further commit adds its own tally; a merge commit adds nothing. */
  lemma DriverCountsStep(replacements: seq<(string, string)>, commits: seq<Commit>, c: Commit)
    ensures forall x, y ::
      Count(DriverCounts(replacements, commits + [c]), x, y) ==
      Count(DriverCounts(replacements, commits), x, y) +
      (if c.parents == 1
       then Tally(Normalized(replacements, c.author), NormalizedAll(replacements, GetNavigators(c.message)), x, y)
       else 0)
  {
    assert (commits + [c])[..|commits|] == commits;
    var m := DriverCounts(replacements, commits);
    CommitUpdateEffect(m, Normalized(replacements, c.author), NormalizedAll(replacements, GetNavigators(c.message)));
  }

  /** Every driver count is at least 1. */
  lemma {:induction false} DriverCountsPositive(replacements: seq<(string, string)>, commits: seq<Commit>)
    ensures Positive(DriverCounts(replacements, commits))
    decreases |commits|
  {
    if commits != [] {
      var m := DriverCounts(replacements, commits[..|commits| - 1]);
      var c := commits[|commits| - 1];
      DriverCountsPositive(replacements, commits[..|commits| - 1]);
      CommitUpdatePositive(m, Normalized(replacements, c.author), NormalizedAll(replacements, GetNavigators(c.message)));
    }
  }

  /**
   * `extract_coauthors` without the revision walk: the driver counts, returned
   * as tallied, and the symmetric pair counts merged from them.
   */
  method ExtractCoauthors(replacements: seq<(string, string)>, commits: seq<Commit>)
    returns (driverCounts: Counts, pairCounts: Counts)
    ensures driverCounts == DriverCounts(replacements, commits)
    ensures Positive(pairCounts)
    ensures forall a, b :: Count(pairCounts, a, b) == Count(driverCounts, a, b) + Count(driverCounts, b, a)
  {
    driverCounts := map[];
    for i := 0 to |commits|
      invariant driverCounts == DriverCounts(replacements, commits[..i])
    {
      assert commits[..i + 1][..i] == commits[..i];
      var commit := commits[i];
      if commit.parents == 1 {
        var author := NormalizeAuthorName(replacements, commit.author);
        var navigators := GetNavigators(commit.message);
        driverCounts := RecordCommit(driverCounts, replacements, author, navigators);
      }
    }
    assert commits[..|commits|] == commits;
    DriverCountsPositive(replacements, commits);
    pairCounts := MergePairCounts(driverCounts);
  }

  /** The body of the per-commit closure: the driver's entry, then `han_solo` or each navigator. */
  method RecordCommit(m: Counts, replacements: seq<(string, string)>, author: string, navigators: seq<string>)
    returns (m': Counts)
    ensures m' == CommitUpdate(m, author, NormalizedAll(replacements, navigators))
  {
    m' := m[author := Inner(m, author)];
    if navigators == [] {
      m' := Add(m', author, HanSolo, 1);
      assert m' == Add(m, author, HanSolo, 1);
    } else {
      for k := 0 to |navigators|
        invariant m' == BumpAll(m[author := Inner(m, author)], author, NormalizedAll(replacements, navigators[..k]))
      {
        assert navigators[..k + 1][..k] == navigators[..k];
        var navigator := NormalizeAuthorName(replacements, navigators[k]);
        m' := Add(m', author, navigator, 1);
      }
      assert navigators[..|navigators|] == navigators;
      BumpAllFrom(m, author, NormalizedAll(replacements, navigators));
    }
  }

  /** Creating the driver's empty inner map first makes no difference once a navigator is counted. */
  lemma {:induction false} BumpAllFrom(m: Counts, driver: string, navigators: seq<string>)
    requires navigators != []
    ensures BumpAll(m[driver := Inner(m, driver)], driver, navigators) == BumpAll(m, driver, navigators)
    decreases |navigators|
  {
    var init := navigators[..|navigators| - 1];
    if init != [] {
      BumpAllFrom(m, driver, init);
    } else {
      assert Inner(m[driver := Inner(m, driver)], driver) == Inner(m, driver);
    }
  }

  /** What the merge has added to `(x, y)` once the drivers in `pending` remain to be visited. */
  ghost function Credit(m: Counts, pending: set<string>, x: string, y: string): nat {
    if x in pending then 0 else Count(m, x, y)
  }

  /** As `Credit`, while the navigators `left` of `driver` remain to be visited. */
  ghost function CreditWithin(m: Counts, pending: set<string>, driver: string, left: set<string>, x: string, y: string): nat {
    if x == driver then (if y in left then 0 else Count(m, x, y)) else Credit(m, pending, x, y)
  }

  /** The merge invariant while the navigators `left` of `driver` remain and the drivers `pending` after it. */
  ghost predicate MergedSoFar(m: Counts, pending: set<string>, driver: string, left: set<string>, pc: Counts) {
    forall a, b :: Count(pc, a, b) == CreditWithin(m, pending, driver, left, a, b) + CreditWithin(m, pending, driver, left, b, a)
  }

  /** Emitting one entry in both directions moves it from `left` to the merged part. */
  lemma MergeEntry(m: Counts, pending: set<string>, driver: string, left: set<string>, pc: Counts, navigator: string)
    requires driver in pending && driver in m && navigator in left
    requires MergedSoFar(m, pending, driver, left, pc)
    ensures MergedSoFar(m, pending, driver, left - {navigator},
      Add(Add(pc, driver, navigator, Count(m, driver, navigator)), navigator, driver, Count(m, driver, navigator)))
  {
    var c := Count(m, driver, navigator);
    var once := Add(pc, driver, navigator, c);
    AddEffect(pc, driver, navigator, c);
    AddEffect(once, navigator, driver, c);
  }

  /** Visiting a driver starts with all of its navigators left. */
  lemma MergeDriverStart(m: Counts, pending: set<string>, driver: string, pc: Counts)
    requires driver in pending && driver in m
    requires forall a, b :: Count(pc, a, b) == Credit(m, pending, a, b) + Credit(m, pending, b, a)
    ensures MergedSoFar(m, pending, driver, m[driver].Keys, pc)
  {
    forall a, b ensures CreditWithin(m, pending, driver, m[driver].Keys, a, b) == Credit(m, pending, a, b) {
    }
  }

  /** A driver with no navigators left is merged. */
  lemma MergeDriverEnd(m: Counts, pending: set<string>, driver: string, pc: Counts)
    requires driver in pending
    requires MergedSoFar(m, pending, driver, {}, pc)
    ensures forall a, b :: Count(pc, a, b) == Credit(m, pending - {driver}, a, b) + Credit(m, pending - {driver}, b, a)
  {
    forall a, b ensures CreditWithin(m, pending, driver, {}, a, b) == Credit(m, pending - {driver}, a, b) {
    }
  }

  /**
   * The grouping at src/repo.rs:70-96: every entry `(driver, navigator, count)`
   * adds `count` to both `(driver, navigator)` and `(navigator, driver)`.
   */
  method MergePairCounts(driverCounts: Counts) returns (pairCounts: Counts)
    requires Positive(driverCounts)
    ensures Positive(pairCounts)
    ensures forall a, b :: Count(pairCounts, a, b) == Count(driverCounts, a, b) + Count(driverCounts, b, a)
  {
    pairCounts := map[];
    var drivers := driverCounts.Keys;
    while drivers != {}
      invariant drivers <= driverCounts.Keys
      invariant Positive(pairCounts)
      invariant forall a, b ::
        Count(pairCounts, a, b) == Credit(driverCounts, drivers, a, b) + Credit(driverCounts, drivers, b, a)
      decreases drivers
    {
      var driver :| driver in drivers;
      var navigators := driverCounts[driver].Keys;
      MergeDriverStart(driverCounts, drivers, driver, pairCounts);
      while navigators != {}
        invariant navigators <= driverCounts[driver].Keys
        invariant Positive(pairCounts)
        invariant MergedSoFar(driverCounts, drivers, driver, navigators, pairCounts)
        decreases navigators
      {
        var navigator :| navigator in navigators;
        var count := driverCounts[driver][navigator];
        MergeEntry(driverCounts, drivers, driver, navigators, pairCounts, navigator);
        AddPositive(pairCounts, driver, navigator, count);
        var once := Add(pairCounts, driver, navigator, count);
        AddPositive(once, navigator, driver, count);
        pairCounts := Add(once, navigator, driver, count);
        navigators := navigators - {navigator};
      }
      MergeDriverEnd(driverCounts, drivers, driver, pairCounts);
      drivers := drivers - {driver};
    }
  }

  /** The merged counts are symmetric, with an entry for `(a, b)` exactly when either direction was tallied. */
  lemma MergedShape(driverCounts: Counts, pairCounts: Counts, a: string, b: string)
    requires Positive(driverCounts) && Positive(pairCounts)
    requires forall a, b :: Count(pairCounts, a, b) == Count(driverCounts, a, b) + Count(driverCounts, b, a)
    ensures Count(pairCounts, a, b) == Count(pairCounts, b, a)
    ensures (a in pairCounts && b in pairCounts[a]) <==>
      (a in driverCounts && b in driverCounts[a]) || (b in driverCounts && a in driverCounts[b])
  {
    PositiveEntries(pairCounts, a, b);
    PositiveEntries(driverCounts, a, b);
    PositiveEntries(driverCounts, b, a);
  }
}
