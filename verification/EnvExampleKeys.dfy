/** The names an example env file documents (src/lib/env-example-keys.ts): a dotenv reader whose search
    for a closing quote remembers the quotes that never close. */
module EnvExampleKeys {
  import opened Wrappers
  import opened Text

  const ENV_KEY_MAX_LENGTH := 255
  const QUOTES := {'"', '\'', '`'}

  datatype EnvExampleKey = EnvExampleKey(key: string, hasDefault: bool)

  // ---------------------------------------------------------------- lines

  function WithoutBom(content: string): string {
    if content != "" && content[0] == '\U{FEFF}' then content[1..] else content
  }

  /** `content.split(/\r\n|\r|\n/)` */
  function SplitLines(s: string): (lines: seq<string>)
    ensures lines != []
    ensures forall i | 0 <= i < |lines| :: '\r' !in lines[i] && '\n' !in lines[i]
    decreases |s|
  {
    if s == "" then [""]
    else if |s| > 1 && s[0] == '\r' && s[1] == '\n' then [""] + SplitLines(s[2..])
    else if s[0] == '\r' || s[0] == '\n' then [""] + SplitLines(s[1..])
    else
      var rest := SplitLines(s[1..]);
      [[s[0]] + rest[0]] + rest[1..]
  }

  /** The longest stretch at the start without `=` or white space. */
  function Word(s: string): (w: string)
    ensures w <= s
  {
    if s == "" || s[0] == '=' || IsSpace(s[0]) then "" else [s[0]] + Word(s[1..])
  }

  datatype Assignment = Assignment(key: string, rawValue: string)

  predicate OneLine(s: string) { forall c | c in s :: c !in {'\n', '\r', '\U{2028}', '\U{2029}'} }

  /** `([^=\s]+)\s*=\s*(.*)$`; the dot does not match a line terminator. */
  function MatchAssignment(s: string): Option<Assignment> {
    var key := Word(s);
    var rest := TrimStart(s[|key|..]);
    if key == "" || rest == "" || rest[0] != '=' then None
    else
      var raw := TrimStart(rest[1..]);
      if OneLine(raw) then Some(Assignment(key, raw)) else None
  }

  predicate AllSpace(s: string) { forall i | 0 <= i < |s| :: IsSpace(s[i]) }

  /** A line written as a name, white space, `=`, white space and a value. */
  predicate IsWritten(s: string, a: Assignment, before: string, after: string) {
    && s == a.key + before + "=" + after + a.rawValue
    && a.key != "" && (forall i | 0 <= i < |a.key| :: a.key[i] != '=' && !IsSpace(a.key[i]))
    && AllSpace(before) && AllSpace(after)
    && (a.rawValue == "" || !IsSpace(a.rawValue[0])) && OneLine(a.rawValue)
  }

  lemma {:induction false} WordStops(w: string, rest: string)
    requires forall i | 0 <= i < |w| :: w[i] != '=' && !IsSpace(w[i])
    requires rest == "" || rest[0] == '=' || IsSpace(rest[0])
    ensures Word(w + rest) == w
  {
    if w == "" {
      assert w + rest == rest;
    } else {
      assert (w + rest)[1..] == w[1..] + rest;
      WordStops(w[1..], rest);
    }
  }

  lemma {:induction false} WordIsPlain(s: string)
    ensures forall i | 0 <= i < |Word(s)| :: Word(s)[i] != '=' && !IsSpace(Word(s)[i])
  {
    if s != "" && s[0] != '=' && !IsSpace(s[0]) {
      WordIsPlain(s[1..]);
    }
  }

  lemma {:induction false} TrimStartStops(space: string, rest: string)
    requires AllSpace(space) && (rest == "" || !IsSpace(rest[0]))
    ensures TrimStart(space + rest) == rest
  {
    if space == "" {
      assert space + rest == rest;
    } else {
      assert (space + rest)[1..] == space[1..] + rest;
      TrimStartStops(space[1..], rest);
    }
  }

  lemma WrittenIsMatched(s: string, a: Assignment, before: string, after: string)
    requires IsWritten(s, a, before, after)
    ensures MatchAssignment(s) == Some(a)
  {
    EqualsIsNoSpace();
    hide IsSpace, Word, TrimStart, OneLine;
    var tail := after + a.rawValue;
    var rest := before + ("=" + tail);
    assert s == a.key + rest;
    WordStops(a.key, rest);
    assert s[|a.key|..] == rest;
    TrimStartStops(before, "=" + tail);
    assert ("=" + tail)[1..] == tail;
    TrimStartStops(after, a.rawValue);
  }

  lemma TrimStartSplits(t: string) returns (space: string)
    ensures t == space + TrimStart(t) && AllSpace(space)
    ensures TrimStart(t) == "" || !IsSpace(TrimStart(t)[0])
  {
    hide IsSpace, TrimStart;
    space := t[..|t| - |TrimStart(t)|];
  }

  lemma Regroup(a: string, b: string, c: string, d: string, e: string)
    ensures a + (b + (c + (d + e))) == a + b + c + d + e
  {
  }

  lemma MatchParts(s: string, a: Assignment)
    requires MatchAssignment(s) == Some(a)
    ensures a.key == Word(s) != "" && s == a.key + s[|a.key|..]
    ensures var rest := TrimStart(s[|a.key|..]);
            rest != "" && rest == "=" + rest[1..] && a.rawValue == TrimStart(rest[1..]) && OneLine(a.rawValue)
  {
    hide IsSpace, OneLine, Word, TrimStart;
    PrefixAndRest(Word(s), s);
    var rest := TrimStart(s[|Word(s)|..]);
    PrefixAndRest("=", rest);
  }

  lemma PrefixAndRest(w: string, s: string)
    ensures w <= s ==> s == w + s[|w|..]
    ensures |w| == 1 && s != "" && s[0] == w[0] ==> w <= s && s == w + s[1..]
  {
  }

  lemma MatchedIsWritten(s: string, a: Assignment) returns (before: string, after: string)
    requires MatchAssignment(s) == Some(a)
    ensures IsWritten(s, a, before, after)
  {
    hide *;
    MatchParts(s, a);
    WordIsPlain(s);
    var tail := s[|a.key|..];
    var rest := TrimStart(tail);
    before := TrimStartSplits(tail);
    after := TrimStartSplits(rest[1..]);
    Regroup(a.key, before, "=", after, a.rawValue);
    Written(s, a, before, after);
  }

  lemma Written(s: string, a: Assignment, before: string, after: string)
    requires s == a.key + before + "=" + after + a.rawValue
    requires a.key != "" && forall i | 0 <= i < |a.key| :: a.key[i] != '=' && !IsSpace(a.key[i])
    requires AllSpace(before) && AllSpace(after)
    requires (a.rawValue == "" || !IsSpace(a.rawValue[0])) && OneLine(a.rawValue)
    ensures IsWritten(s, a, before, after)
  {
    hide IsSpace, OneLine, AllSpace;
  }

  /** The pattern matches exactly the lines written as an assignment, and finds its name and value. */
  lemma AssignmentsAreMatched(s: string, a: Assignment)
    ensures MatchAssignment(s) == Some(a) <==> exists before, after :: IsWritten(s, a, before, after)
  {
    hide MatchAssignment, IsWritten;
    if exists before, after :: IsWritten(s, a, before, after) {
      var before, after :| IsWritten(s, a, before, after);
      WrittenIsMatched(s, a, before, after);
    }
    if MatchAssignment(s) == Some(a) {
      var before, after := MatchedIsWritten(s, a);
    }
  }

  lemma EqualsIsNoSpace()
    ensures !IsSpace('=')
  {
  }

  /** `LINE_RE`: an assignment, after an optional `export`. */
  function MatchLine(line: string): Option<Assignment> {
    if |line| > 6 && line[..6] == "export" && IsSpace(line[6]) && MatchAssignment(TrimStart(line[6..])).Some?
    then MatchAssignment(TrimStart(line[6..]))
    else MatchAssignment(line)
  }

  predicate ValidKey(key: string) {
    && 0 < |key| <= ENV_KEY_MAX_LENGTH && 'A' <= key[0] <= 'Z'
    && forall i | 0 <= i < |key| :: 'A' <= key[i] <= 'Z' || IsDigit(key[i]) || key[i] == '_'
  }

  // ---------------------------------------------------------------- closing quotes

  /** Where the scan from `i` finds the quote, or the length of the text when it does not. */
  function ClosingFrom(value: string, quote: char, i: nat): (close: nat)
    requires i <= |value|
    ensures i <= close <= |value|
    decreases |value| - i
  {
    if i == |value| then |value|
    else if value[i] == '\\' then (if i + 2 <= |value| then ClosingFrom(value, quote, i + 2) else |value|)
    else if value[i] == quote then i
    else ClosingFrom(value, quote, i + 1)
  }

  function ClosingQuoteIndex(value: string, quote: char): (index: int)
    ensures -1 <= index < |value|
  {
    var close := ClosingFrom(value, quote, 0);
    if close < |value| then close else -1
  }

  method FindClosingQuote(value: string, quote: char) returns (index: int)
    ensures index == ClosingQuoteIndex(value, quote)
  {
    var i := 0;
    while i < |value|
      invariant 0 <= i <= |value| + 1
      invariant ClosingFrom(value, quote, 0) == if i <= |value| then ClosingFrom(value, quote, i) else |value|
    {
      if value[i] == '\\' {
        i := i + 2;
        continue;
      }
      if value[i] == quote {
        return i;
      }
      i := i + 1;
    }
    return -1;
  }

  /** How many backslashes stand right before position `i`. */
  function BackslashesBefore(value: string, i: nat): nat
    requires i <= |value|
  {
    if i == 0 || value[i - 1] != '\\' then 0 else 1 + BackslashesBefore(value, i - 1)
  }

  predicate Closes(value: string, quote: char, i: nat)
    requires i < |value|
  {
    value[i] == quote && BackslashesBefore(value, i) % 2 == 0
  }

  lemma {:induction false} ScanFindsFirst(value: string, quote: char, i: nat)
    requires quote != '\\' && i <= |value| && BackslashesBefore(value, i) % 2 == 0
    ensures var close := ClosingFrom(value, quote, i);
            (close < |value| ==> Closes(value, quote, close)) && (forall j | i <= j < close :: !Closes(value, quote, j))
    decreases |value| - i
  {
    if i < |value| && value[i] != quote {
      if value[i] == '\\' {
        if i + 2 <= |value| {
          assert BackslashesBefore(value, i + 1) == 1 + BackslashesBefore(value, i);
          ScanFindsFirst(value, quote, i + 2);
        }
      } else {
        ScanFindsFirst(value, quote, i + 1);
      }
    }
  }

  /** The quote found is the first one that an even number of backslashes precede; -1 when there is none. */
  lemma ClosingQuoteIsFirstUnescaped(value: string, quote: char)
    requires quote in QUOTES
    ensures var close := ClosingQuoteIndex(value, quote);
            if close == -1 then forall j | 0 <= j < |value| :: !Closes(value, quote, j)
            else 0 <= close < |value| && Closes(value, quote, close) &&
                 forall j | 0 <= j < close :: !Closes(value, quote, j)
  {
    ScanFindsFirst(value, quote, 0);
  }

  // ---------------------------------------------------------------- one assignment, always looking ahead

  /** The first line from `j` on with a closing quote; the number of lines when there is none. */
  function LookAhead(lines: seq<string>, quote: char, j: nat): (end: nat)
    requires j <= |lines|
    ensures j <= end <= |lines|
    ensures end < |lines| ==> ClosingQuoteIndex(lines[end], quote) != -1
    ensures forall k | j <= k < end :: ClosingQuoteIndex(lines[k], quote) == -1
    decreases |lines| - j
  {
    if j == |lines| || ClosingQuoteIndex(lines[j], quote) != -1 then j else LookAhead(lines, quote, j + 1)
  }

  /** What stands before the first `#`. */
  function BeforeHash(s: string): (r: string)
    ensures r <= s
  {
    if s == "" || s[0] == '#' then "" else [s[0]] + BeforeHash(s[1..])
  }

  /** What reading at a line gives: an entry, unless the line is no assignment or its name is not valid,
      and the line to go on from. */
  datatype Reading = Reading(entry: Option<EnvExampleKey>, next: nat)

  function EntryOf(key: string, value: string): Option<EnvExampleKey> {
    if ValidKey(key) then Some(EnvExampleKey(key, Trim(value) != "")) else None
  }

  function AssignmentAt(line: string): Option<Assignment> {
    var trimmed := Trim(line);
    if trimmed == "" || trimmed[0] == '#' then None else MatchLine(trimmed)
  }

  function MultiLineValue(lines: seq<string>, i: nat, firstLine: string, end: nat, closeAt: nat): string
    requires i < end < |lines| && closeAt <= |lines[end]|
  {
    Join([firstLine] + lines[i + 1..end] + [lines[end][..closeAt]], "\n")
  }

  function ReadAssignment(lines: seq<string>, i: nat, a: Assignment): (r: Reading)
    requires i < |lines|
    ensures i < r.next <= |lines|
  {
    if a.rawValue == "" || a.rawValue[0] !in QUOTES then Reading(EntryOf(a.key, BeforeHash(a.rawValue)), i + 1)
    else
      var quote, firstLine := a.rawValue[0], a.rawValue[1..];
      var close := ClosingQuoteIndex(firstLine, quote);
      if close != -1 then Reading(EntryOf(a.key, firstLine[..close]), i + 1)
      else
        var end := LookAhead(lines, quote, i + 1);
        if end == |lines| then Reading(EntryOf(a.key, BeforeHash(a.rawValue)), i + 1)
        else Reading(EntryOf(a.key, MultiLineValue(lines, i, firstLine, end, ClosingQuoteIndex(lines[end], quote))), end + 1)
  }

  function ReadAt(lines: seq<string>, i: nat): (r: Reading)
    requires i < |lines|
    ensures i < r.next <= |lines|
  {
    match AssignmentAt(lines[i])
    case None => Reading(None, i + 1)
    case Some(a) => ReadAssignment(lines, i, a)
  }

  /** The entries from line `i` on, in the order of the file. */
  function Entries(lines: seq<string>, i: nat): seq<EnvExampleKey>
    requires i <= |lines|
    decreases |lines| - i
  {
    if i == |lines| then []
    else
      var r := ReadAt(lines, i);
      (if r.entry.Some? then [r.entry.value] else []) + Entries(lines, r.next)
  }

  // ---------------------------------------------------------------- a map in insertion order

  /** `Map.set`: a name already there keeps its place and takes the new value. */
  function MapSet(found: seq<EnvExampleKey>, entry: EnvExampleKey): seq<EnvExampleKey> {
    if found == [] then [entry]
    else if found[0].key == entry.key then [entry] + found[1..]
    else [found[0]] + MapSet(found[1..], entry)
  }

  function SetAll(found: seq<EnvExampleKey>, entries: seq<EnvExampleKey>): seq<EnvExampleKey>
    decreases |entries|
  {
    if entries == [] then found else SetAll(MapSet(found, entries[0]), entries[1..])
  }

  // ---------------------------------------------------------------- the parser

  /** The quotes remembered never close after the line they are remembered with. */
  ghost predicate MemoHolds(memo: map<char, nat>, lines: seq<string>, i: nat) {
    && memo.Keys <= QUOTES
    && forall q | q in memo :: memo[q] < i && memo[q] < |lines| && LookAhead(lines, q, memo[q] + 1) == |lines|
  }

  lemma {:induction false} LookAheadFromLater(lines: seq<string>, quote: char, j: nat, k: nat)
    requires j <= k <= |lines| && LookAhead(lines, quote, j) == |lines|
    ensures LookAhead(lines, quote, k) == |lines|
  {
  }

  lemma AtMostThree(memo: map<char, nat>, lines: seq<string>, i: nat)
    requires MemoHolds(memo, lines, i)
    ensures |memo| <= 3
  {
    var three := {'"', '\'', '`'};
    assert |three| == 3;
    Subset(memo.Keys, three);
    assert |memo.Keys| == |memo|;
  }

  lemma {:induction false} Subset(a: set<char>, b: set<char>)
    requires a <= b
    ensures |a| <= |b|
  {
    assert b == a + (b - a);
  }

  lemma MemoHoldsLater(memo: map<char, nat>, lines: seq<string>, i: nat, j: nat)
    requires MemoHolds(memo, lines, i) && i <= j
    ensures MemoHolds(memo, lines, j)
  {
  }

  /** A quote remembered does not close after any later line. */
  lemma MemoAnswers(memo: map<char, nat>, lines: seq<string>, i: nat, quote: char)
    requires MemoHolds(memo, lines, i) && i < |lines| && quote in memo
    ensures memo[quote] < i && LookAhead(lines, quote, i + 1) == |lines|
  {
    LookAheadFromLater(lines, quote, memo[quote] + 1, i + 1);
  }

  lemma MemoExtends(memo: map<char, nat>, lines: seq<string>, i: nat, quote: char)
    requires MemoHolds(memo, lines, i) && quote in QUOTES && quote !in memo
    requires i < |lines| && LookAhead(lines, quote, i + 1) == |lines|
    ensures MemoHolds(memo[quote := i], lines, i + 1)
    ensures |memo[quote := i]| == |memo| + 1
  {
    assert memo[quote := i].Keys == memo.Keys + {quote};
    assert |memo| == |memo.Keys| && |memo[quote := i]| == |memo[quote := i].Keys|;
  }

  /** The line where the quote closes after line `i`, or none, asking the memo first; `scanned` counts the
      lines looked at. */
  method SearchClose(lines: seq<string>, i: nat, quote: char, memo: map<char, nat>)
    returns (end: int, closeAt: int, memo': map<char, nat>, ghost scanned: nat)
    requires i < |lines| && quote in QUOTES && MemoHolds(memo, lines, i)
    ensures var ahead := LookAhead(lines, quote, i + 1);
            if ahead == |lines| then end == -1 else end == ahead && closeAt == ClosingQuoteIndex(lines[ahead], quote)
    ensures MemoHolds(memo', lines, i + 1)
    ensures end != -1 ==> memo' == memo && scanned == end - i
    ensures end == -1 ==> (memo' == memo && scanned == 0) || (|memo'| == |memo| + 1 && scanned <= |lines|)
  {
    hide ClosingQuoteIndex, MemoHolds;
    MemoHoldsLater(memo, lines, i, i + 1);
    end, closeAt, memo', scanned := -1, -1, memo, 0;
    if quote in memo { MemoAnswers(memo, lines, i, quote); }
    if quote !in memo || memo[quote] > i {
      var j := i + 1;
      while j < |lines| && end == -1
        invariant i + 1 <= j <= |lines|
        invariant scanned == j - i - 1
        invariant end == -1 ==> LookAhead(lines, quote, i + 1) == LookAhead(lines, quote, j)
        invariant end != -1 ==> end == j - 1 && end == LookAhead(lines, quote, i + 1) < |lines| &&
                                closeAt == ClosingQuoteIndex(lines[end], quote)
      {
        closeAt := FindClosingQuote(lines[j], quote);
        scanned := scanned + 1;
        if closeAt != -1 {
          end := j;
        }
        j := j + 1;
      }
      if end == -1 {
        MemoExtends(memo, lines, i, quote);
        memo' := memo[quote := i];
      }
    }
  }

  /** The value of one assignment and the last line it takes, with the memo's help. */
  method ReadValue(lines: seq<string>, i: nat, a: Assignment, memo: map<char, nat>)
    returns (value: string, last: nat, memo': map<char, nat>, ghost scanned: nat)
    requires i < |lines| && MemoHolds(memo, lines, i)
    ensures i <= last < |lines|
    ensures ReadAssignment(lines, i, a) == Reading(EntryOf(a.key, value), last + 1)
    ensures MemoHolds(memo', lines, last + 1)
    ensures if |memo'| == |memo| then scanned <= last - i else |memo'| == |memo| + 1 && scanned <= |lines|
  {
    hide ClosingQuoteIndex, MultiLineValue, BeforeHash, LookAhead, EntryOf;
    last, memo', scanned := i, memo, 0;
    if a.rawValue != "" && a.rawValue[0] in QUOTES {
      var quote, firstLine := a.rawValue[0], a.rawValue[1..];
      var close := FindClosingQuote(firstLine, quote);
      if close != -1 {
        value := firstLine[..close];
      } else {
        var end, closeAt;
        end, closeAt, memo', scanned := SearchClose(lines, i, quote, memo);
        if end == -1 {
          value := BeforeHash(a.rawValue);
        } else {
          value := MultiLineValue(lines, i, firstLine, end, closeAt);
          last := end;
        }
      }
    } else {
      value := BeforeHash(a.rawValue);
    }
  }

  /** The lines that may have been looked ahead at, by the line `i` and with so many quotes remembered. */
  ghost function Budget(i: nat, remembered: nat, lines: nat): nat { i + remembered * lines }

  lemma BudgetGrows(i: nat, last: nat, a: nat, b: nat, lines: nat, looked: nat)
    requires i <= last && (if a == b then looked <= last - i else b == a + 1 && looked <= lines)
    ensures Budget(i, a, lines) + looked <= Budget(last + 1, b, lines)
  {
    assert b == a + 1 ==> b * lines == a * lines + lines;
  }

  lemma BudgetIsFourTimes(remembered: nat, lines: nat)
    requires remembered <= 3
    ensures Budget(lines, remembered, lines) <= 4 * lines
  {
    assert remembered * lines <= 3 * lines;
  }

  /** Reads exactly what a parser without the memo reads, and looks ahead over at most four lines for each
      line of the file: one pass for the values that close, one for each kind of quote that does not. */
  method ParseEnvExampleKeys(content: string) returns (keys: seq<EnvExampleKey>, ghost scanned: nat)
    ensures keys == SetAll([], Entries(SplitLines(WithoutBom(content)), 0))
    ensures scanned <= 4 * |SplitLines(WithoutBom(content))|
  {
    hide SplitLines, MatchLine, ValidKey, ReadAssignment, MapSet, MemoHolds, Budget, Entries, SetAll;
    var found: seq<EnvExampleKey> := [];
    var lines := SplitLines(WithoutBom(content));
    var neverClosesAfter: map<char, nat> := map[];
    scanned := 0;
    var i := 0;
    NothingRemembered(lines);
    while i < |lines|
      invariant 0 <= i <= |lines|
      invariant SetAll(found, Entries(lines, i)) == SetAll([], Entries(lines, 0))
      invariant MemoHolds(neverClosesAfter, lines, i)
      invariant scanned <= Budget(i, |neverClosesAfter|, |lines|)
    {
      ghost var memo := neverClosesAfter;
      var line := Trim(lines[i]);
      var match_ := if line == "" || line[0] == '#' then None else MatchLine(line);
      if match_.None? {
        MemoHoldsLater(memo, lines, i, i + 1);
        BudgetGrows(i, i, |memo|, |memo|, |lines|, 0);
        NoEntry(lines, i);
        i := i + 1;
        continue;
      }
      var value, last;
      ghost var looked;
      value, last, neverClosesAfter, looked := ReadValue(lines, i, match_.value, neverClosesAfter);
      BudgetGrows(i, last, |memo|, |neverClosesAfter|, |lines|, looked);
      scanned := scanned + looked;
      var key := match_.value.key;
      if ValidKey(key) {
        var entry := EnvExampleKey(key, Trim(value) != "");
        OneEntry(lines, i, found);
        found := MapSet(found, entry);
      } else {
        NoEntry(lines, i);
      }
      i := last + 1;
    }
    AtMostThree(neverClosesAfter, lines, i);
    BudgetIsFourTimes(|neverClosesAfter|, |lines|);
    NoMoreEntries(lines, found);
    keys := found;
  }

  lemma NothingRemembered(lines: seq<string>)
    ensures MemoHolds(map[], lines, 0) && Budget(0, 0, |lines|) == 0
  {
  }

  lemma OneEntry(lines: seq<string>, i: nat, found: seq<EnvExampleKey>)
    requires i < |lines| && ReadAt(lines, i).entry.Some?
    ensures SetAll(found, Entries(lines, i)) ==
            SetAll(MapSet(found, ReadAt(lines, i).entry.value), Entries(lines, ReadAt(lines, i).next))
  {
    hide ReadAt, MapSet;
    var rest := Entries(lines, ReadAt(lines, i).next);
    assert ([ReadAt(lines, i).entry.value] + rest)[1..] == rest;
  }

  lemma NoMoreEntries(lines: seq<string>, found: seq<EnvExampleKey>)
    ensures SetAll(found, Entries(lines, |lines|)) == found
  {
  }

  lemma NoEntry(lines: seq<string>, i: nat)
    requires i < |lines| && ReadAt(lines, i).entry.None?
    ensures Entries(lines, i) == Entries(lines, ReadAt(lines, i).next)
  {
    hide ReadAt;
  }

  // ---------------------------------------------------------------- what the keys are

  predicate HasKey(entries: seq<EnvExampleKey>, key: string) {
    exists i | 0 <= i < |entries| :: entries[i].key == key
  }

  /** The place of the first entry of a name. */
  function FirstIndex(entries: seq<EnvExampleKey>, key: string): (i: nat)
    requires HasKey(entries, key)
    ensures i < |entries| && entries[i].key == key
    ensures forall j | 0 <= j < i :: entries[j].key != key
  {
    if entries[0].key == key then 0
    else
      assert forall i | 0 < i < |entries| :: entries[i] == entries[1..][i - 1];
      1 + FirstIndex(entries[1..], key)
  }

  /** The value of the last entry of a name. */
  function LastValue(entries: seq<EnvExampleKey>, key: string): bool
    requires HasKey(entries, key)
  {
    var last := entries[|entries| - 1];
    if last.key == key then last.hasDefault
    else
      assert HasKey(entries[..|entries| - 1], key) by {
        var i :| 0 <= i < |entries| && entries[i].key == key;
        assert entries[..|entries| - 1][i] == entries[i];
      }
      LastValue(entries[..|entries| - 1], key)
  }

  /** A list with one place for each name of `entries`, in the order the names first appear there, each
      with the last value it was given. */
  ghost predicate Summarises(found: seq<EnvExampleKey>, entries: seq<EnvExampleKey>) {
    && (forall key :: HasKey(found, key) <==> HasKey(entries, key))
    && (forall i | 0 <= i < |found| ::
          HasKey(entries, found[i].key) && found[i].hasDefault == LastValue(entries, found[i].key))
    && (forall i, j | 0 <= i < j < |found| ::
          FirstIndex(entries, found[i].key) < FirstIndex(entries, found[j].key))
  }

  lemma {:induction false} MapSetShape(found: seq<EnvExampleKey>, entry: EnvExampleKey)
    ensures var set' := MapSet(found, entry);
            if HasKey(found, entry.key)
            then set' == found[FirstIndex(found, entry.key) := entry]
            else set' == found + [entry]
  {
    if found != [] && found[0].key != entry.key {
      MapSetShape(found[1..], entry);
      assert forall i | 0 < i < |found| :: found[i] == found[1..][i - 1];
      assert HasKey(found, entry.key) <==> HasKey(found[1..], entry.key) by {
        if HasKey(found[1..], entry.key) {
          var i :| 0 <= i < |found[1..]| && found[1..][i].key == entry.key;
          assert found[i + 1].key == entry.key;
        }
      }
      if HasKey(found, entry.key) {
        var k := FirstIndex(found[1..], entry.key);
        assert FirstIndex(found, entry.key) == k + 1;
        assert found[k + 1 := entry] == [found[0]] + found[1..][k := entry];
      } else {
        assert found + [entry] == [found[0]] + (found[1..] + [entry]);
      }
    }
  }

  lemma SnocFacts(entries: seq<EnvExampleKey>, entry: EnvExampleKey, key: string)
    ensures HasKey(entries + [entry], key) <==> HasKey(entries, key) || key == entry.key
    ensures HasKey(entries, key) ==> FirstIndex(entries + [entry], key) == FirstIndex(entries, key)
    ensures HasKey(entries + [entry], key) && !HasKey(entries, key) ==> FirstIndex(entries + [entry], key) == |entries|
    ensures HasKey(entries, key) && key != entry.key ==> LastValue(entries + [entry], key) == LastValue(entries, key)
    ensures HasKey(entries + [entry], entry.key) && LastValue(entries + [entry], entry.key) == entry.hasDefault
  {
    hide FirstIndex;
    var all := entries + [entry];
    assert all[|entries|] == entry;
    assert forall i | 0 <= i < |entries| :: all[i] == entries[i];
    if HasKey(entries, key) {
      var i :| 0 <= i < |entries| && entries[i].key == key;
      assert all[i].key == key;
      assert all[..|all| - 1] == entries;
    }
  }

  lemma SetKeepsSummary(found: seq<EnvExampleKey>, entries: seq<EnvExampleKey>, entry: EnvExampleKey)
    requires Summarises(found, entries)
    ensures Summarises(MapSet(found, entry), entries + [entry])
  {
    hide FirstIndex, LastValue, HasKey, MapSet;
    var set', all := MapSet(found, entry), entries + [entry];
    MapSetShape(found, entry);
    SnocFacts(entries, entry, entry.key);
    forall i | 0 <= i < |found| ensures HasKey(found, found[i].key) { KeyAt(found, i); }
    forall i | 0 <= i < |set'| ensures HasKey(set', set'[i].key) { KeyAt(set', i); }
    forall i | 0 <= i < |found| {
      SnocFacts(entries, entry, found[i].key);
    }
    forall key ensures HasKey(set', key) <==> HasKey(all, key) {
      SnocFacts(entries, entry, key);
      SameKeys(found, entry, key);
    }
    if HasKey(found, entry.key) {
      var k := FirstIndex(found, entry.key);
      forall i | 0 <= i < |found| && i != k ensures found[i].key != entry.key {
      }
    }
  }

  lemma KeyAt(found: seq<EnvExampleKey>, i: nat)
    requires i < |found|
    ensures HasKey(found, found[i].key)
  {
  }

  lemma SameKeys(found: seq<EnvExampleKey>, entry: EnvExampleKey, key: string)
    ensures HasKey(MapSet(found, entry), key) <==> HasKey(found, key) || key == entry.key
  {
    hide MapSet;
    MapSetShape(found, entry);
    var set' := MapSet(found, entry);
    if HasKey(found, key) {
      var i :| 0 <= i < |found| && found[i].key == key;
      assert set'[i].key == key;
    }
    if HasKey(set', key) {
      var i :| 0 <= i < |set'| && set'[i].key == key;
      assert i < |found| ==> found[i].key == key || key == entry.key;
    }
    if key == entry.key {
      assert set'[if HasKey(found, key) then FirstIndex(found, key) else |found|] == entry;
    }
  }

  lemma {:induction false} SetAllSummarises(found: seq<EnvExampleKey>, done: seq<EnvExampleKey>, entries: seq<EnvExampleKey>)
    requires Summarises(found, done)
    ensures Summarises(SetAll(found, entries), done + entries)
    decreases |entries|
  {
    hide Summarises, MapSet;
    if entries == [] {
      assert done + entries == done;
    } else {
      SetKeepsSummary(found, done, entries[0]);
      SetAllSummarises(MapSet(found, entries[0]), done + [entries[0]], entries[1..]);
      assert done + entries == done + [entries[0]] + entries[1..];
    }
  }

  /** The result names each key once, where it first stood in the file, with the last value it had. */
  lemma KeysAreFirstPlaceLastValue(lines: seq<string>)
    ensures Summarises(SetAll([], Entries(lines, 0)), Entries(lines, 0))
  {
    SetAllSummarises([], [], Entries(lines, 0));
    assert [] + Entries(lines, 0) == Entries(lines, 0);
  }

  lemma ReadingIsValid(lines: seq<string>, i: nat)
    requires i < |lines|
    ensures var e := ReadAt(lines, i).entry; e.Some? ==> ValidKey(e.value.key)
  {
    hide ValidKey, ClosingQuoteIndex, LookAhead, MultiLineValue, BeforeHash, AssignmentAt;
  }

  lemma {:induction false} EntriesAreValid(lines: seq<string>, i: nat)
    requires i <= |lines|
    ensures forall e | e in Entries(lines, i) :: ValidKey(e.key)
    decreases |lines| - i
  {
    hide ValidKey, ReadAt;
    if i < |lines| {
      ReadingIsValid(lines, i);
      EntriesAreValid(lines, ReadAt(lines, i).next);
    }
  }

  // ---------------------------------------------------------------- lines inside a value

  /** The lines the parser reads as the start of something, from line `i` on. */
  function Starts(lines: seq<string>, i: nat): seq<nat>
    requires i <= |lines|
    decreases |lines| - i
  {
    if i == |lines| then [] else [i] + Starts(lines, ReadAt(lines, i).next)
  }

  /** A value opened on line `i` by a quote that does not close there and closes on line `end`. */
  predicate SpansLines(lines: seq<string>, i: nat, end: nat)
    requires i < |lines|
  {
    match AssignmentAt(lines[i])
    case None => false
    case Some(a) =>
      && a.rawValue != "" && a.rawValue[0] in QUOTES
      && ClosingQuoteIndex(a.rawValue[1..], a.rawValue[0]) == -1
      && i < end < |lines|
      && ClosingQuoteIndex(lines[end], a.rawValue[0]) != -1
      && forall k | i < k < end :: ClosingQuoteIndex(lines[k], a.rawValue[0]) == -1
  }

  /** Every start leads to the next one: the line after it, or the line after the value it opened. No line
      up to the closing quote is read as a start, and no line after it is skipped. */
  lemma {:induction false} LinesInsideAValueAreNotRead(lines: seq<string>, i: nat, n: nat)
    requires i <= |lines| && n < |Starts(lines, i)|
    ensures var s := Starts(lines, i);
            && i <= s[n] < |lines|
            && var next := if n + 1 < |s| then s[n + 1] else |lines|;
               && (forall end: nat | SpansLines(lines, s[n], end) :: next == end + 1)
               && ((forall end: nat :: !SpansLines(lines, s[n], end)) ==> next == s[n] + 1)
    decreases |lines| - i
  {
    hide ClosingQuoteIndex, AssignmentAt, EntryOf, MultiLineValue, BeforeHash, LookAhead;
    var s := Starts(lines, i);
    var r := ReadAt(lines, i);
    assert s[1..] == Starts(lines, r.next);
    if n > 0 {
      LinesInsideAValueAreNotRead(lines, r.next, n - 1);
    } else {
      assert |s| > 1 ==> s[1] == r.next;
      SpanIsUnique(lines, i);
    }
  }

  lemma SpanIsUnique(lines: seq<string>, i: nat)
    requires i < |lines|
    ensures forall end: nat | SpansLines(lines, i, end) :: ReadAt(lines, i).next == end + 1
    ensures (forall end: nat :: !SpansLines(lines, i, end)) ==> ReadAt(lines, i).next == i + 1
  {
    hide ClosingQuoteIndex, AssignmentAt, EntryOf, MultiLineValue, BeforeHash, LookAhead;
    var a := AssignmentAt(lines[i]);
    if a.Some? && a.value.rawValue != "" && a.value.rawValue[0] in QUOTES {
      var ahead := LookAhead(lines, a.value.rawValue[0], i + 1);
      forall end: nat | SpansLines(lines, i, end) ensures end == ahead {
      }
      if ahead < |lines| && ClosingQuoteIndex(a.value.rawValue[1..], a.value.rawValue[0]) == -1 {
        assert SpansLines(lines, i, ahead);
      }
    }
  }
}
