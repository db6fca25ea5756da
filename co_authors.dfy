/**
 * The co-author trailer grammar of co-authors/src/lib.rs (and its verbatim
 * copy, `mod coauthor` in src/main.rs):
 *
 *   co_authored_by = many1(ws(tag_no_case("co-authored-by:")))
 *   co_author      = preceded(co_authored_by, map(take_till(c == '<'), byte_string_trim))
 *
 * `ws` skips space, tab, carriage return and line feed before and after the
 * key. The parser is streaming: where it would ask for more input, the line
 * has no `<` left, so `take_till` could not succeed either; those outcomes
 * are "no match" here, as `.ok()?` makes them in the source.
 *
 * The parsers are modelled over positions in the line: each returns where the
 * unconsumed input starts. Their contracts state only bounds; what they
 * recognise is stated by the lemmas after them.
 */
module CoAuthors {
  import opened Wrappers

  /** `CoAuthor { name }`: the only field the parser produces. */
  datatype CoAuthor = CoAuthor(name: string)

  /** The trailer key, in lower case. */
  const Key: string := "co-authored-by:"

  /** The characters `ws!` skips (nom's `sp`). */
  predicate IsWs(c: char) {
    c == ' ' || c == '\t' || c == '\r' || c == '\n'
  }

  /** ASCII lower-casing, as `tag_no_case` compares bytes. */
  function ToAsciiLower(c: char): char {
    if 'A' <= c <= 'Z' then (c as int + 32) as char else c
  }

  /** `k` spells the key in some ASCII case. */
  predicate IsKeyInSomeCase(k: string) {
    |k| == |Key| && forall i {:trigger k[i]} :: 0 <= i < |Key| ==> ToAsciiLower(k[i]) == Key[i]
  }

  /** The key, in some ASCII case, starts at position `i` of `s`. */
  predicate KeyAt(s: string, i: nat) {
    i + |Key| <= |s| && IsKeyInSomeCase(s[i..i + |Key|])
  }

  /** Every character of `ws` is whitespace. */
  predicate AllWs(ws: string) {
    forall i :: 0 <= i < |ws| ==> IsWs(ws[i])
  }

  /** nom's `sp`: the first position at or after `i` that is not whitespace. */
  function SkipWs(s: string, i: nat): (j: nat)
    requires i <= |s|
    ensures i <= j <= |s|
    decreases |s| - i
  {
    if i < |s| && IsWs(s[i]) then SkipWs(s, i + 1) else i
  }

  /** One `ws!(tag_no_case!("co-authored-by:"))` from position `i`: where the input after the key and its whitespace starts. */
  function KeyStep(s: string, i: nat): (r: Option<nat>)
    requires i <= |s|
    ensures r.Some? ==> i + |Key| <= r.value <= |s|
  {
    var t := SkipWs(s, i);
    if KeyAt(s, t) then Some(SkipWs(s, t + |Key|)) else None
  }

  /** The `many0` tail of `many1`: further stacked keys from `i`, until one fails to match. */
  function MoreKeys(s: string, i: nat): (j: nat)
    requires i <= |s|
    ensures i <= j <= |s|
    decreases |s| - i
  {
    match KeyStep(s, i)
    case None => i
    case Some(next) => MoreKeys(s, next)
  }

  /** `co_authored_by` as a position: where the remainder after one or more keys starts. */
  function CoAuthoredByAt(line: string): (r: Option<nat>)
    ensures r.Some? ==> |Key| <= r.value <= |line|
    ensures r.None? <==> KeyStep(line, 0).None?
  {
    match KeyStep(line, 0)
    case None => None
    case Some(next) => Some(MoreKeys(line, next))
  }

  /** `co_authored_by`: the remainder of the line after the keys. */
  function CoAuthoredBy(line: string): Option<string> {
    match CoAuthoredByAt(line)
    case None => None
    case Some(p) => Some(line[p..])
  }

  /** `take_till!(|c| c == '<')` from position `i`: the position of the first `<`, if any. */
  function FindLt(s: string, i: nat): (r: Option<nat>)
    requires i <= |s|
    ensures r.Some? ==> i <= r.value < |s| && s[r.value] == '<'
    decreases |s| - i
  {
    if i == |s| then None
    else if s[i] == '<' then Some(i)
    else FindLt(s, i + 1)
  }

  /** The number of trailing `' '` characters (the `take_while` count). */
  function TrailingSpaces(s: string): (n: nat)
    ensures n <= |s|
    ensures forall i :: |s| - n <= i < |s| ==> s[i] == ' '
    ensures n < |s| ==> s[|s| - n - 1] != ' '
  {
    if s != [] && s[|s| - 1] == ' ' then 1 + TrailingSpaces(s[..|s| - 1]) else 0
  }

  /**
   * `byte_string_trim`: the longest prefix of `s` that does not end in a
   * space. Only `' '` is removed, never a tab.
   */
  function ByteStringTrim(s: string): (r: string)
    ensures |r| <= |s| && r == s[..|r|]
    ensures r == [] || r[|r| - 1] != ' '
    ensures forall i :: |r| <= i < |s| ==> s[i] == ' '
  {
    s[..|s| - TrailingSpaces(s)]
  }

  /** `co_author`: the trimmed text between the last key and the first `<`. */
  function ParseCoAuthor(line: string): Option<string> {
    match CoAuthoredByAt(line)
    case None => None
    case Some(p) =>
      match FindLt(line, p)
      case None => None
      case Some(lt) => Some(ByteStringTrim(line[p..lt]))
  }

  /** `get_co_author`: the co-author named on `line`, if it is a trailer. */
  function GetCoAuthor(line: string): Option<CoAuthor> {
    match ParseCoAuthor(line)
    case None => None
    case Some(name) => Some(CoAuthor(name))
  }

  // ---------------------------------------------------------------------------
  // What each parser recognises.

  /** `sp` consumes whitespace only, and stops at the end or at a non-whitespace character. */
  lemma {:induction false} SkipWsSpec(s: string, i: nat)
    requires i <= |s|
    ensures forall k :: i <= k < SkipWs(s, i) ==> IsWs(s[k])
    ensures SkipWs(s, i) == |s| || !IsWs(s[SkipWs(s, i)])
    decreases |s| - i
  {
    if i < |s| && IsWs(s[i]) {
      SkipWsSpec(s, i + 1);
    }
  }

  /** Skipping a run of whitespace first does not change where `sp` stops. */
  lemma {:induction false} SkipWsOver(s: string, i: nat, j: nat)
    requires i <= j <= |s|
    requires forall k :: i <= k < j ==> IsWs(s[k])
    ensures SkipWs(s, i) == SkipWs(s, j)
    decreases j - i
  {
    if i < j {
      SkipWsOver(s, i + 1, j);
    }
  }

  /** Skipping whitespace twice is skipping it once. */
  lemma SkipWsIdempotent(s: string, i: nat)
    requires i <= |s|
    ensures SkipWs(s, SkipWs(s, i)) == SkipWs(s, i)
  {
    SkipWsSpec(s, i);
  }

  /** After a matched key the input continues at a non-whitespace character (or the end). */
  lemma KeyStepSpec(s: string, i: nat)
    requires i <= |s|
    requires KeyStep(s, i).Some?
    ensures KeyAt(s, SkipWs(s, i))
    ensures var j := KeyStep(s, i).value; j == |s| || !IsWs(s[j])
  {
    SkipWsSpec(s, SkipWs(s, i) + |Key|);
  }

  /** One unfolding of `many0`: a matched key continues from where it ended. */
  lemma MoreKeysAfterStep(s: string, i: nat, j: nat)
    requires i <= |s|
    requires KeyStep(s, i) == Some(j)
    ensures MoreKeys(s, i) == MoreKeys(s, j)
  {
  }

  /** `many0` stops where no key matches. */
  lemma MoreKeysAtStop(s: string, i: nat)
    requires i <= |s|
    requires KeyStep(s, i) == None
    ensures MoreKeys(s, i) == i
  {
  }

  /** `many0` is greedy: no key follows the position it stops at. */
  lemma {:induction false} MoreKeysStops(s: string, i: nat)
    requires i <= |s|
    ensures KeyStep(s, MoreKeys(s, i)) == None
    decreases |s| - i
  {
    match KeyStep(s, i)
    case None =>
      MoreKeysAtStop(s, i);
    case Some(next) =>
      MoreKeysAfterStep(s, i, next);
      MoreKeysStops(s, next);
  }

  /** Started at a non-whitespace character, `many0` stops at one (or at the end). */
  lemma {:induction false} MoreKeysNonWs(s: string, i: nat)
    requires i <= |s|
    requires i == |s| || !IsWs(s[i])
    ensures var j := MoreKeys(s, i); j == |s| || !IsWs(s[j])
    decreases |s| - i
  {
    match KeyStep(s, i)
    case None =>
      MoreKeysAtStop(s, i);
    case Some(next) =>
      KeyStepSpec(s, i);
      MoreKeysAfterStep(s, i, next);
      MoreKeysNonWs(s, next);
  }

  /**
   * `co_authored_by` consumes all stacked keys and the whitespace after them:
   * the remainder starts with neither whitespace nor another key.
   */
  lemma CoAuthoredByShape(line: string)
    requires CoAuthoredByAt(line).Some?
    ensures var p := CoAuthoredByAt(line).value;
      (p == |line| || !IsWs(line[p])) && KeyStep(line, p) == None
  {
    var next := KeyStep(line, 0).value;
    KeyStepSpec(line, 0);
    MoreKeysNonWs(line, next);
    MoreKeysStops(line, next);
  }

  /** `take_till` stops at the first `<`, and fails exactly when there is none. */
  lemma {:induction false} FindLtSpec(s: string, i: nat)
    requires i <= |s|
    ensures FindLt(s, i).Some? <==> exists k :: i <= k < |s| && s[k] == '<'
    ensures FindLt(s, i).Some? ==> forall k :: i <= k < FindLt(s, i).value ==> s[k] != '<'
    decreases |s| - i
  {
    if i < |s| && s[i] != '<' {
      FindLtSpec(s, i + 1);
    }
  }

  /** The first `<` at or after `i` is the one `take_till` finds. */
  lemma {:induction false} FindLtFirst(s: string, i: nat, j: nat)
    requires i <= j < |s| && s[j] == '<'
    requires forall k :: i <= k < j ==> s[k] != '<'
    ensures FindLt(s, i) == Some(j)
    decreases j - i
  {
    if i < j {
      FindLtFirst(s, i + 1, j);
    }
  }

  /** Trimming twice is trimming once. */
  lemma TrimIdempotent(s: string)
    ensures ByteStringTrim(ByteStringTrim(s)) == ByteStringTrim(s)
  {
  }

  /** Any prefix not ending in a space is no longer than the trimmed string: the trim is the longest such prefix. */
  lemma TrimIsLongest(s: string, p: string)
    requires |p| <= |s| && p == s[..|p|]
    requires p != [] && p[|p| - 1] != ' '
    ensures |p| <= |ByteStringTrim(s)|
  {
    assert s[|p| - 1] == p[|p| - 1];
  }

  /** One trailing space is removed from a name that does not end in one. */
  lemma TrimOneSpace(name: string)
    requires name == [] || name[|name| - 1] != ' '
    ensures ByteStringTrim(name + " ") == name
  {
    var s := name + " ";
    assert s[..|s| - 1] == name;
    assert TrailingSpaces(s) == 1 + TrailingSpaces(name);
    assert TrailingSpaces(name) == 0;
  }

  /** A line yields no co-author exactly when the keys do not match or no `<` follows them. */
  lemma GetCoAuthorNoneIffNoMatch(line: string)
    ensures GetCoAuthor(line).None? <==>
      (CoAuthoredBy(line).None? || '<' !in CoAuthoredBy(line).value)
  {
    match CoAuthoredByAt(line)
    case None =>
    case Some(p) =>
      var rest := line[p..];
      FindLtSpec(line, p);
      assert (exists k :: p <= k < |line| && line[k] == '<') <==> '<' in rest by {
        if '<' in rest {
          var j :| 0 <= j < |rest| && rest[j] == '<';
          assert line[p + j] == '<';
        }
        if exists k :: p <= k < |line| && line[k] == '<' {
          var k :| p <= k < |line| && line[k] == '<';
          assert rest[k - p] == '<';
        }
      }
  }

  /**
   * On success the name is the slice of the line that starts right after the
   * keys and their whitespace: it contains no `<`, does not end in a space,
   * and does not start with whitespace.
   */
  lemma NameShape(line: string)
    requires GetCoAuthor(line).Some?
    ensures var name := GetCoAuthor(line).value.name;
      var p := CoAuthoredByAt(line).value;
      && '<' !in name
      && (name == [] || (name[|name| - 1] != ' ' && !IsWs(name[0])))
      && p + |name| <= |line| && line[p..p + |name|] == name
  {
    var p := CoAuthoredByAt(line).value;
    var lt := FindLt(line, p).value;
    var name := ByteStringTrim(line[p..lt]);
    assert GetCoAuthor(line).value.name == name;
    CoAuthoredByShape(line);
    FindLtSpec(line, p);
    assert forall j :: 0 <= j < |name| ==> name[j] == line[p + j];
  }

  /** Positions shift with a prefix: whitespace skipping in a suffix `big[off..]` of a line. */
  lemma {:induction false} SkipWsShift(big: string, off: nat, s: string, i: nat)
    requires off <= |big| && big[off..] == s
    requires i <= |s|
    ensures SkipWs(big, off + i) == off + SkipWs(s, i)
    decreases |s| - i
  {
    if i < |s| {
      assert big[off + i] == s[i];
      if IsWs(s[i]) {
        SkipWsShift(big, off, s, i + 1);
      }
    }
  }

  /** Positions shift with a prefix: the key test. */
  lemma KeyAtShift(big: string, off: nat, s: string, t: nat)
    requires off <= |big| && big[off..] == s
    requires t <= |s|
    ensures KeyAt(big, off + t) <==> KeyAt(s, t)
  {
    if t + |Key| <= |s| {
      forall k | 0 <= k < |Key|
        ensures ToAsciiLower(big[off + t + k]) == Key[k] <==> ToAsciiLower(s[t + k]) == Key[k]
      {
        assert big[off + t + k] == s[t + k];
      }
    }
  }

  /** Positions shift with a prefix: one key step. */
  lemma KeyStepShift(big: string, off: nat, s: string, i: nat)
    requires off <= |big| && big[off..] == s
    requires i <= |s|
    ensures KeyStep(s, i).None? ==> KeyStep(big, off + i).None?
    ensures KeyStep(s, i).Some? ==> KeyStep(big, off + i) == Some(off + KeyStep(s, i).value)
  {
    var t := SkipWs(s, i);
    SkipWsShift(big, off, s, i);
    KeyAtShift(big, off, s, t);
    if KeyAt(s, t) {
      SkipWsShift(big, off, s, t + |Key|);
    }
  }

  /** Positions shift with a prefix: stacked keys. */
  lemma {:induction false} MoreKeysShift(big: string, off: nat, s: string, i: nat)
    requires off <= |big| && big[off..] == s
    requires i <= |s|
    ensures MoreKeys(big, off + i) == off + MoreKeys(s, i)
    decreases |s| - i
  {
    KeyStepShift(big, off, s, i);
    match KeyStep(s, i)
    case Some(j) =>
      MoreKeysShift(big, off, s, j);
      MoreKeysShiftStep(big, off, s, i, j);
    case None =>
      MoreKeysAtStop(big, off + i);
      MoreKeysAtStop(s, i);
  }

  /** The inductive step of `MoreKeysShift`: a key matched at the same place in both strings. */
  lemma MoreKeysShiftStep(big: string, off: nat, s: string, i: nat, j: nat)
    requires off + i <= |big| && i <= |s|
    requires KeyStep(s, i) == Some(j)
    requires KeyStep(big, off + i) == Some(off + j)
    requires MoreKeys(big, off + j) == off + MoreKeys(s, j)
    ensures MoreKeys(big, off + i) == off + MoreKeys(s, i)
  {
    MoreKeysAfterStep(big, off + i, off + j);
    MoreKeysAfterStep(s, i, j);
  }

  /** A line that starts with the key in some case has the key at position 0, with no whitespace before it. */
  lemma KeyAtStart(line: string, k: string)
    requires IsKeyInSomeCase(k)
    requires |k| <= |line| && line[..|k|] == k
    ensures SkipWs(line, 0) == 0 && KeyAt(line, 0)
  {
    assert line[0] == k[0];
    assert ToAsciiLower(k[0]) == Key[0];
    forall j | 0 <= j < |Key|
      ensures ToAsciiLower(line[j]) == Key[j]
    {
      assert line[j] == k[j];
    }
  }

  /** Whitespace `ws` at position `i`, then `s`: `sp` stops where it would in `s`, shifted. */
  lemma SkipWsThenSuffix(line: string, i: nat, ws: string, s: string)
    requires i <= |line| && line[i..] == ws + s
    requires AllWs(ws)
    ensures SkipWs(line, i) == i + |ws| + SkipWs(s, 0)
  {
    forall j | i <= j < i + |ws|
      ensures IsWs(line[j])
    {
      assert line[j] == (ws + s)[j - i];
    }
    SkipWsOver(line, i, i + |ws|);
    assert line[i + |ws|..] == s;
    SkipWsShift(line, i + |ws|, s, 0);
  }

  /** A line that starts with the key (in some case) and whitespace matches it at position 0. */
  lemma KeyStepOfKey(k: string, ws: string, s: string)
    requires IsKeyInSomeCase(k)
    requires AllWs(ws)
    ensures KeyStep(k + ws + s, 0) == Some(|k| + |ws| + SkipWs(s, 0))
  {
    var line := k + ws + s;
    assert line[..|k|] == k;
    KeyAtStart(line, k);
    assert line[|k|..] == ws + s;
    SkipWsThenSuffix(line, |k|, ws, s);
  }

  /** With a key in front, `co_authored_by` continues with `many0` on the rest, shifted. */
  lemma CoAuthoredByAtOfKey(k: string, ws: string, s: string)
    requires IsKeyInSomeCase(k)
    requires AllWs(ws)
    ensures CoAuthoredByAt(k + ws + s) == Some(|k| + |ws| + MoreKeys(s, SkipWs(s, 0)))
  {
    KeyStepOfKey(k, ws, s);
    assert (k + ws + s)[|k| + |ws|..] == s;
    CoAuthoredByAtAfterKey(k + ws + s, |k| + |ws|, s);
  }

  /** The first key step ends at `off + SkipWs(s, 0)` and `s` is the rest of the line from `off`. */
  lemma CoAuthoredByAtAfterKey(line: string, off: nat, s: string)
    requires off <= |line| && line[off..] == s
    requires KeyStep(line, 0) == Some(off + SkipWs(s, 0))
    ensures CoAuthoredByAt(line) == Some(off + MoreKeys(s, SkipWs(s, 0)))
  {
    CoAuthoredByAtFromStep(line, off + SkipWs(s, 0));
    MoreKeysShift(line, off, s, SkipWs(s, 0));
  }

  /** `many1` is one key step followed by `many0`. */
  lemma CoAuthoredByAtFromStep(line: string, next: nat)
    requires KeyStep(line, 0) == Some(next)
    ensures CoAuthoredByAt(line) == Some(MoreKeys(line, next))
  {
  }

  /** Leading whitespace does not change what `co_authored_by` consumes. */
  lemma MoreKeysFromFirstNonWs(line: string)
    requires KeyStep(line, 0).Some?
    ensures MoreKeys(line, SkipWs(line, 0)) == CoAuthoredByAt(line).value
  {
    var t := SkipWs(line, 0);
    SkipWsIdempotent(line, 0);
    assert KeyStep(line, t) == KeyStep(line, 0);
    MoreKeysAfterStep(line, t, KeyStep(line, 0).value);
  }

  /**
   * Case-insensitive key: whatever the case of the key, a key, whitespace and
   * then text that is not itself a key leave that text as the remainder.
   */
  lemma CoAuthoredByAtAnyCase(k: string, ws: string, s: string)
    requires IsKeyInSomeCase(k)
    requires AllWs(ws)
    requires s == [] || !IsWs(s[0])
    requires KeyStep(s, 0) == None
    ensures CoAuthoredByAt(k + ws + s) == Some(|k| + |ws|)
  {
    CoAuthoredByAtOfKey(k, ws, s);
    assert SkipWs(s, 0) == 0;
    MoreKeysAtStop(s, 0);
  }

  /** The same as a remainder string: `co_authored_by` of key, whitespace and `s` is `s`. */
  lemma CoAuthoredByAnyCase(k: string, ws: string, s: string)
    requires IsKeyInSomeCase(k)
    requires AllWs(ws)
    requires s == [] || !IsWs(s[0])
    requires KeyStep(s, 0) == None
    ensures CoAuthoredBy(k + ws + s) == Some(s)
  {
    CoAuthoredByAtAnyCase(k, ws, s);
    assert (k + ws + s)[|k| + |ws|..] == s;
  }

  /**
   * Stacked keys collapse: putting one more key (and whitespace) in front of a
   * trailer leaves the same remainder as the trailer alone.
   */
  lemma CoAuthoredByStacked(k: string, ws: string, line: string)
    requires IsKeyInSomeCase(k)
    requires AllWs(ws)
    requires CoAuthoredBy(line).Some?
    ensures CoAuthoredBy(k + ws + line) == CoAuthoredBy(line)
  {
    CoAuthoredByAtOfKey(k, ws, line);
    MoreKeysFromFirstNonWs(line);
    assert (k + ws + line)[|k| + |ws| + MoreKeys(line, SkipWs(line, 0))..] ==
      line[MoreKeys(line, SkipWs(line, 0))..];
  }

  /** A line whose first non-whitespace character cannot begin the key is not a trailer. */
  lemma NotATrailer(line: string)
    requires var t := SkipWs(line, 0); t == |line| || ToAsciiLower(line[t]) != Key[0]
    ensures GetCoAuthor(line) == None
  {
  }

  /** `take_till` on a name free of `<` followed by `<`: it stops right after the name. */
  lemma FindLtAfterName(line: string, p: nat, name: string)
    requires p + |name| < |line|
    requires line[p..p + |name|] == name && line[p + |name|] == '<'
    requires '<' !in name
    ensures FindLt(line, p) == Some(p + |name|)
  {
    forall j | p <= j < p + |name|
      ensures line[j] != '<'
    {
      assert line[j] == name[j - p];
    }
    FindLtFirst(line, p, p + |name|);
  }

  /**
   * A key followed by a name (free of `<`) and a mail part yields that name
   * with its trailing spaces removed; there is no check that the name is
   * non-empty.
   */
  lemma GetCoAuthorOfTrailer(k: string, ws: string, name: string, mail: string)
    requires IsKeyInSomeCase(k)
    requires AllWs(ws)
    requires name == [] || !IsWs(name[0])
    requires KeyStep(name + "<" + mail, 0) == None
    requires '<' !in name
    ensures GetCoAuthor(k + ws + (name + "<" + mail)) == Some(CoAuthor(ByteStringTrim(name)))
  {
    var s := name + "<" + mail;
    assert s[0] == if name == [] then '<' else name[0];
    CoAuthoredByAtAnyCase(k, ws, s);
    assert (k + ws + s)[|k| + |ws|..] == s;
    GetCoAuthorAfterKeys(k + ws + s, |k| + |ws|, name, mail);
  }

  /** Once the keys end at `p`, a name free of `<` followed by `<` is what `co_author` returns, trimmed. */
  lemma GetCoAuthorAfterKeys(line: string, p: nat, name: string, mail: string)
    requires CoAuthoredByAt(line) == Some(p)
    requires line[p..] == name + "<" + mail
    requires '<' !in name
    ensures GetCoAuthor(line) == Some(CoAuthor(ByteStringTrim(name)))
  {
    assert line[p..p + |name|] == name;
    assert line[p + |name|] == '<';
    FindLtAfterName(line, p, name);
  }

  /** A key directly followed by `<` yields an empty name rather than no match. */
  lemma KeyThenMailOnly(k: string, mail: string)
    requires IsKeyInSomeCase(k)
    ensures GetCoAuthor(k + " " + ("" + "<" + mail)) == Some(CoAuthor(""))
  {
    var s := "" + "<" + mail;
    assert s[0] == '<';
    assert KeyStep(s, 0) == None by {
      assert SkipWs(s, 0) == 0;
      assert ToAsciiLower(s[0]) != Key[0];
    }
    assert AllWs(" ");
    GetCoAuthorOfTrailer(k, " ", "", mail);
  }

  // ---------------------------------------------------------------------------
  // The unit tests of co-authors/src/lib.rs, as lemmas.

  /** A remainder that starts with `A` is not a key. */
  lemma StartsWithAIsNoKey(s: string)
    requires s != [] && s[0] == 'A'
    ensures KeyStep(s, 0) == None
  {
    assert SkipWs(s, 0) == 0;
    assert ToAsciiLower(s[0]) != Key[0];
  }

  const Alice: string := "Alice <alice@wonderland.org>"

  /** The spellings of the key in `test_co_authored_by`. */
  const TestKeys: set<string> := {"co-authored-by:", "Co-Authored-By:", "CO-AUTHORED-BY:", "Co-authored-by:"}

  /** Each test spelling is the key in some case. */
  lemma TestKeySpellsKey(k: string)
    requires k in TestKeys
    ensures IsKeyInSomeCase(k)
  {
    TestKeysSpellKey();
  }

  lemma TestKeysSpellKey()
    ensures IsKeyInSomeCase("co-authored-by:")
    ensures IsKeyInSomeCase("Co-Authored-By:")
    ensures IsKeyInSomeCase("CO-AUTHORED-BY:")
    ensures IsKeyInSomeCase("Co-authored-by:")
  {
  }

  /** `test_co_authored_by`: every case of the key, and a stacked key, leave `Alice <alice@wonderland.org>`. */
  lemma CoAuthoredByTests(k: string)
    requires k in TestKeys
    ensures CoAuthoredBy(k + " " + Alice) == Some(Alice)
    ensures CoAuthoredBy(k + " " + (k + " " + Alice)) == Some(Alice)
  {
    assert Alice[0] == 'A';
    StartsWithAIsNoKey(Alice);
    assert AllWs(" ");
    TestKeySpellsKey(k);
    CoAuthoredByAnyCase(k, " ", Alice);
    CoAuthoredByStacked(k, " ", k + " " + Alice);
  }

  /** `test_co_author` and `test_get_co_author`: the names are `Alice`, `Alice Bob` and `Alice Keys`. */
  lemma GetCoAuthorTests(name: string)
    requires name in {"Alice", "Alice Bob", "Alice Keys"}
    ensures GetCoAuthor(Key + " " + (name + " " + "<" + "alice@wonderland.org>")) == Some(CoAuthor(name))
  {
    TrailerOfAliceName(name + " ");
    TrimOneSpace(name);
  }

  /** `test_get_co_author`: other content is no match. */
  lemma OtherContentTest()
    ensures GetCoAuthor("Some other content") == None
  {
    assert SkipWs("Some other content", 0) == 0;
  }

  /** A test trailer: the lower-case key, one space, a name starting with `A` and Alice's mail. */
  lemma TrailerOfAliceName(name: string)
    requires name != [] && name[0] == 'A' && '<' !in name
    ensures GetCoAuthor(Key + " " + (name + "<" + "alice@wonderland.org>")) ==
      Some(CoAuthor(ByteStringTrim(name)))
  {
    var s := name + "<" + "alice@wonderland.org>";
    assert s[0] == 'A';
    StartsWithAIsNoKey(s);
    assert IsKeyInSomeCase(Key);
    assert AllWs(" ");
    GetCoAuthorOfTrailer(Key, " ", name, "alice@wonderland.org>");
  }
}
