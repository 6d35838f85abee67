/** What each line of an example env file reports (src/lib/env-example-keys.ts): where lines end, which of them
    are assignments, which names are reported, and when a name counts as having a default. */
module EnvExampleLines {
  import opened Wrappers
  import opened Text
  import opened EnvExampleKeys

  // ---------------------------------------------------------------- where lines end

  /** Text without a line end is one line. */
  lemma {:induction false} OneLineOfText(s: string)
    requires '\r' !in s && '\n' !in s
    ensures SplitLines(s) == [s]
  {
    if s != "" {
      OneLineOfText(s[1..]);
      assert s == [s[0]] + s[1..];
    }
  }

  /** The text is a line end, or begins with one that no LF belongs to. */
  predicate EndsLine(end: string, after: string) {
    end == "\r\n" || end == "\n" || (end == "\r" && (after == "" || after[0] != '\n'))
  }

  lemma EndSplits(end: string, b: string)
    requires EndsLine(end, b)
    ensures SplitLines(end + b) == [""] + SplitLines(b)
  {
    assert (end + b)[|end|..] == b;
  }

  /** How a split goes on past a character that ends no line, and past a CRLF. */
  lemma SplitStep(c: char, s: string)
    ensures c != '\r' && c != '\n' ==> SplitLines([c] + s) == [[c] + SplitLines(s)[0]] + SplitLines(s)[1..]
    ensures c == '\n' || (c == '\r' && (s == "" || s[0] != '\n')) ==> SplitLines([c] + s) == [""] + SplitLines(s)
  {
    assert ([c] + s)[1..] == s;
  }

  lemma CrLfStep(s: string)
    ensures SplitLines(['\r', '\n'] + s) == [""] + SplitLines(s)
  {
    assert (['\r', '\n'] + s)[2..] == s;
  }

  lemma Prefixed(c: char, x: seq<string>, y: seq<string>)
    requires x != []
    ensures [[c] + (x + y)[0]] + (x + y)[1..] == ([[c] + x[0]] + x[1..]) + y
    ensures [""] + (x + y) == ([""] + x) + y
  {
    assert (x + y)[1..] == x[1..] + y;
  }

  lemma EndStarts(end: string, after: string)
    requires EndsLine(end, after)
    ensures end != "" && (end[0] == '\n' ==> end == "\n")
  {
  }

  /** CRLF, CR and LF each end a line; a CR before an LF belongs to it. */
  lemma {:induction false} LineEndsSplit(a: string, end: string, b: string)
    requires EndsLine(end, b) && (end == "\n" && a != "" ==> a[|a| - 1] != '\r')
    ensures SplitLines(a + end + b) == SplitLines(a) + SplitLines(b)
    decreases |a|
  {
    EndStarts(end, b);
    hide EndsLine, SplitLines;
    if a == "" {
      EndSplits(end, b);
      EmptyText();
      assert a + end + b == end + b;
    } else if a[0] == '\r' && |a| > 1 && a[1] == '\n' {
      LineEndsSplit(a[2..], end, b);
      SplitPastCrLf(a[2..], end, b);
      assert a == ['\r', '\n'] + a[2..];
    } else {
      LineEndsSplit(a[1..], end, b);
      SplitPastChar(a[0], a[1..], end, b);
      assert a == [a[0]] + a[1..];
    }
  }

  lemma SplitPastCrLf(tail: string, end: string, b: string)
    requires SplitLines(tail + end + b) == SplitLines(tail) + SplitLines(b)
    ensures SplitLines(['\r', '\n'] + tail + end + b) == SplitLines(['\r', '\n'] + tail) + SplitLines(b)
  {
    hide SplitLines;
    CrLfStep(tail);
    CrLfStep(tail + end + b);
    assert ['\r', '\n'] + tail + end + b == ['\r', '\n'] + (tail + end + b);
    Prefixed('\r', SplitLines(tail), SplitLines(b));
  }

  lemma SplitPastChar(c: char, rest: string, end: string, b: string)
    requires end != "" && (end[0] == '\n' && rest == "" ==> c != '\r') && (c == '\r' && rest != "" ==> rest[0] != '\n')
    requires SplitLines(rest + end + b) == SplitLines(rest) + SplitLines(b)
    ensures SplitLines([c] + rest + end + b) == SplitLines([c] + rest) + SplitLines(b)
  {
    hide SplitLines;
    assert [c] + rest + end + b == [c] + (rest + end + b);
    assert (rest + end + b)[0] == if rest == "" then end[0] else rest[0];
    SplitStep(c, rest);
    SplitStep(c, rest + end + b);
    Prefixed(c, SplitLines(rest), SplitLines(b));
  }

  lemma EmptyText()
    ensures SplitLines("") == [""]
  {
  }

  /** A mark at the very start is no part of the first line. */
  lemma MarkIsDropped(content: string)
    ensures WithoutBom("\U{FEFF}" + content) == content
    ensures content == "" || content[0] != '\U{FEFF}' ==> WithoutBom(content) == content
  {
    assert ("\U{FEFF}" + content)[1..] == content;
  }

  // ---------------------------------------------------------------- which lines are assignments

  ghost predicate IsExported(line: string, rest: string) {
    exists gap :: gap != "" && AllSpace(gap) && line == "export" + gap + rest
  }

  /** The pattern matches a line exactly when it is written as an assignment, or as `export`, white space and an
      assignment. */
  lemma LinesAreMatched(line: string, a: Assignment)
    ensures MatchLine(line) == Some(a) <==>
            MatchAssignment(line) == Some(a) || exists rest :: IsExported(line, rest) && MatchAssignment(rest) == Some(a)
  {
    hide MatchAssignment, TrimStart, IsSpace;
    if rest :| IsExported(line, rest) && MatchAssignment(rest) == Some(a) {
      ExportedIsTrimmed(line, rest, a);
    }
    if IsExport(line) && MatchAssignment(TrimStart(line[6..])).Some? {
      TrimmedIsExported(line);
      ExportIsNoName(line);
    }
  }

  /** `export` and a white space stand in front. */
  predicate IsExport(line: string) {
    |line| > 6 && line[..6] == "export" && IsSpace(line[6])
  }

  lemma MatchedStartsPlain(s: string)
    requires MatchAssignment(s).Some?
    ensures s != "" && !IsSpace(s[0]) && s[0] != '='
  {
    hide IsSpace, TrimStart, OneLine;
  }

  lemma ExportIsPlain()
    ensures forall c | c in "export" :: c != '=' && !IsSpace(c)
  {
  }

  lemma ExportedIsTrimmed(line: string, rest: string, a: Assignment)
    requires IsExported(line, rest) && MatchAssignment(rest) == Some(a)
    ensures IsExport(line) && TrimStart(line[6..]) == rest
  {
    hide IsSpace, MatchAssignment, Word, TrimStart, AllSpace;
    var gap :| gap != "" && AllSpace(gap) && line == "export" + gap + rest;
    MatchedStartsPlain(rest);
    BehindWord("export", gap, rest);
  }

  lemma BehindWord(word: string, gap: string, rest: string)
    requires gap != "" && AllSpace(gap) && rest != "" && !IsSpace(rest[0])
    ensures var line := word + gap + rest;
            && |line| > |word| && line[..|word|] == word && IsSpace(line[|word|]) && TrimStart(line[|word|..]) == rest
  {
    hide IsSpace, TrimStart;
    var line := word + gap + rest;
    assert line[|word|..] == gap + rest && line[|word|] == gap[0];
    TrimStartStops(gap, rest);
  }

  lemma TrimmedIsExported(line: string)
    requires IsExport(line)
    ensures IsExported(line, TrimStart(line[6..]))
  {
    hide IsSpace, TrimStart;
    var gap := TrimStartSplits(line[6..]);
    var rest := TrimStart(line[6..]);
    assert gap == "" ==> gap + rest == rest;
    assert line == "export" + gap + rest;
  }

  /** A line with a name behind `export` has not `export` for its own name. */
  lemma ExportIsNoName(line: string)
    requires IsExport(line) && MatchAssignment(TrimStart(line[6..])).Some?
    ensures MatchAssignment(line) == None
  {
    ExportIsPlain();
    hide IsSpace, TrimStart, MatchAssignment;
    assert line == "export" + line[6..];
    NoNameOfItsOwn("export", line[6..]);
  }

  lemma NoNameOfItsOwn(word: string, tail: string)
    requires (forall c | c in word :: c != '=' && !IsSpace(c)) && tail != "" && IsSpace(tail[0])
    requires MatchAssignment(TrimStart(tail)).Some?
    ensures MatchAssignment(word + tail) == None
  {
    hide IsSpace, TrimStart, Word, OneLine;
    MatchedStartsPlain(TrimStart(tail));
    WordStops(word, tail);
    assert (word + tail)[|word|..] == tail;
  }

  /** Blank lines and comments are no assignments; any other line is when the pattern matches it, without the
      white space around it. */
  lemma CommentsAreSkipped(line: string, a: Assignment)
    ensures AssignmentAt(line) == Some(a) ==> MatchLine(Trim(line)) == Some(a)
    ensures MatchLine(Trim(line)) == Some(a) ==> (AssignmentAt(line) == Some(a) <==> Trim(line)[0] != '#')
    ensures AllSpace(line) ==> AssignmentAt(line) == None
  {
    hide IsSpace, MatchLine, TrimStart, TrimEnd;
    assert MatchLine("") == None by { EmptyLine(); }
    if AllSpace(line) { SpaceTrimsAway(line); }
  }

  lemma EmptyLine()
    ensures MatchLine("") == None
  {
  }

  lemma SpaceTrimsAway(s: string)
    requires AllSpace(s)
    ensures Trim(s) == ""
  {
    hide IsSpace;
    TrimStartStops(s, "");
    assert s + "" == s;
  }

  // ---------------------------------------------------------------- what is reported

  /** Something in the text is no white space. */
  ghost predicate Says(s: string) {
    exists i | 0 <= i < |s| :: !IsSpace(s[i])
  }

  /** A name counts as having a default exactly when its value says something. */
  lemma BlankIsNoDefault(value: string)
    ensures Trim(value) != "" <==> Says(value)
  {
    hide IsSpace, TrimEnd, TrimStart;
    if !Says(value) {
      SpaceTrimsAway(value);
    } else {
      var i :| 0 <= i < |value| && !IsSpace(value[i]);
      var start := TrimStart(value);
      assert start[i - (|value| - |start|)] == value[i];
    }
  }

  lemma {:induction false} BeforeHashIs(s: string)
    ensures '#' !in BeforeHash(s) && (BeforeHash(s) == s || s[|BeforeHash(s)|] == '#')
  {
    if s != "" && s[0] != '#' { BeforeHashIs(s[1..]); }
  }

  /** Something but white space stands before any `#`. */
  ghost predicate SaysBeforeHash(raw: string) {
    exists k | 0 <= k < |raw| :: !IsSpace(raw[k]) && '#' !in raw[..k + 1]
  }

  lemma UnquotedValue(raw: string)
    ensures Trim(BeforeHash(raw)) != "" <==> SaysBeforeHash(raw)
  {
    hide IsSpace, Trim, BeforeHash;
    var value := BeforeHash(raw);
    BlankIsNoDefault(value);
    BeforeHashIs(raw);
    if Says(value) {
      var k :| 0 <= k < |value| && !IsSpace(value[k]);
      assert raw[k] == value[k] && raw[..k + 1] == value[..k + 1];
    }
    if SaysBeforeHash(raw) {
      var k :| 0 <= k < |raw| && !IsSpace(raw[k]) && '#' !in raw[..k + 1];
      NoHashYet(raw, |value|, k);
      assert value[k] == raw[k];
    }
  }

  lemma NoHashYet(raw: string, n: nat, k: nat)
    requires n <= |raw| && k < |raw| && '#' !in raw[..k + 1] && (n == |raw| || raw[n] == '#')
    ensures k < n
  {
    assert forall j | 0 <= j <= k :: raw[..k + 1][j] == raw[j];
  }

  /** An assignment is reported exactly when its name is one Pushify accepts. Without a quote that closes, it has a
      default when something stands before the first `#`; in quotes, when something stands between them, over
      however many lines. */
  lemma AssignmentsAreReported(lines: seq<string>, i: nat, a: Assignment)
    requires i < |lines| && AssignmentAt(lines[i]) == Some(a)
    ensures var raw, entry := a.rawValue, ReadAt(lines, i).entry;
            && (entry.Some? <==> IsEnvName(a.key)) && (entry.Some? ==> entry.value.key == a.key)
            && (entry.Some? && (raw == "" || raw[0] !in {'"', '\'', '`'}) ==> (entry.value.hasDefault <==> SaysBeforeHash(raw)))
            && (entry.Some? && NeverCloses(lines, i, raw) ==> (entry.value.hasDefault <==> SaysBeforeHash(raw)))
            && (entry.Some? && raw != "" && raw[0] in {'"', '\'', '`'} && ClosingQuoteIndex(raw[1..], raw[0]) != -1 ==>
                  (entry.value.hasDefault <==> Says(raw[1..][..ClosingQuoteIndex(raw[1..], raw[0])])))
            && forall end: nat | entry.Some? && SpansLines(lines, i, end) ::
                 entry.value.hasDefault <==>
                 || Says(raw[1..]) || (exists k | i < k < end :: Says(lines[k]))
                 || Says(lines[end][..ClosingQuoteIndex(lines[end], raw[0])])
  {
    NamesAreChecked(a.key);
    hide IsSpace, Trim, ClosingQuoteIndex, AssignmentAt, ValidKey, MultiLineValue, BeforeHash, SaysBeforeHash, IsEnvName, Says;
    UnquotedValue(a.rawValue);
    if a.rawValue != "" && a.rawValue[0] in QUOTES {
      var quote, firstLine := a.rawValue[0], a.rawValue[1..];
      var close := ClosingQuoteIndex(firstLine, quote);
      if close != -1 {
        BlankIsNoDefault(firstLine[..close]);
      } else {
        forall end: nat | SpansLines(lines, i, end)
          ensures LookAhead(lines, quote, i + 1) == end
          ensures Trim(MultiLineValue(lines, i, firstLine, end, ClosingQuoteIndex(lines[end], quote))) != "" <==>
                  || Says(firstLine) || (exists k | i < k < end :: Says(lines[k]))
                  || Says(lines[end][..ClosingQuoteIndex(lines[end], quote)])
        {
          ManyLines(lines, i, firstLine, end, ClosingQuoteIndex(lines[end], quote));
        }
      }
    }
  }

  /** `[A-Z][A-Z0-9_]*`, at most 255 characters. */
  predicate IsEnvName(key: string) {
    && 1 <= |key| <= 255 && 'A' <= key[0] <= 'Z'
    && forall c | c in key :: ('A' <= c <= 'Z') || ('0' <= c <= '9') || c == '_'
  }

  lemma NamesAreChecked(key: string)
    ensures ValidKey(key) <==> IsEnvName(key)
  {
    assert forall i | 0 <= i < |key| :: key[i] in key;
  }

  /** The value opens with a quote that no line closes. */
  predicate NeverCloses(lines: seq<string>, i: nat, raw: string)
    requires i < |lines|
  {
    && raw != "" && raw[0] in {'"', '\'', '`'} && ClosingQuoteIndex(raw[1..], raw[0]) == -1
    && forall k | i < k < |lines| :: ClosingQuoteIndex(lines[k], raw[0]) == -1
  }

  lemma ManyLines(lines: seq<string>, i: nat, firstLine: string, end: nat, closeAt: nat)
    requires i < end < |lines| && closeAt <= |lines[end]|
    ensures Trim(MultiLineValue(lines, i, firstLine, end, closeAt)) != "" <==>
            Says(firstLine) || (exists k | i < k < end :: Says(lines[k])) || Says(lines[end][..closeAt])
  {
    hide Says, Trim, Join;
    var between, last := lines[i + 1..end], lines[end][..closeAt];
    BlankIsNoDefault(MultiLineValue(lines, i, firstLine, end, closeAt));
    JoinSays([firstLine] + between + [last]);
    PartsSay(firstLine, between, last);
    assert forall k | i < k < end :: between[k - i - 1] == lines[k];
    if k :| i < k < end && Says(lines[k]) {
      assert lines[k] in between;
    }
    if p :| p in between && Says(p) {
      var j :| 0 <= j < |between| && between[j] == p;
      assert Says(lines[i + 1 + j]);
    }
  }

  lemma PartsSay(first: string, between: seq<string>, last: string)
    ensures (exists p | p in [first] + between + [last] :: Says(p)) <==>
            Says(first) || (exists p | p in between :: Says(p)) || Says(last)
  {
    hide Says;
    assert forall p :: p in [first] + between + [last] <==> p == first || p in between || p == last;
  }

  lemma {:induction false} JoinSays(parts: seq<string>)
    ensures Says(Join(parts, "\n")) <==> exists p | p in parts :: Says(p)
  {
    if |parts| > 1 {
      JoinSays(parts[1..]);
      assert parts == [parts[0]] + parts[1..];
      assert IsSpace('\n');
      hide IsSpace;
      SaysEither(parts[0], "\n");
      SaysEither(parts[0] + "\n", Join(parts[1..], "\n"));
    }
  }

  lemma SaysEither(a: string, b: string)
    ensures Says(a + b) <==> Says(a) || Says(b)
  {
    hide IsSpace;
    assert forall i | 0 <= i < |a| :: (a + b)[i] == a[i];
    assert forall i | 0 <= i < |b| :: (a + b)[|a| + i] == b[i];
    if Says(a + b) {
      var i :| 0 <= i < |a + b| && !IsSpace((a + b)[i]);
      assert i >= |a| ==> b[i - |a|] == (a + b)[i];
    }
  }

  /** The entries are what the lines read as a start report. */
  lemma {:induction false} EntriesAreReported(lines: seq<string>, i: nat, e: EnvExampleKey)
    requires i <= |lines|
    ensures e in Entries(lines, i) <==> exists n | n in Starts(lines, i) :: n < |lines| && ReadAt(lines, n).entry == Some(e)
    decreases |lines| - i
  {
    if i < |lines| {
      var next := ReadAt(lines, i).next;
      EntriesAreReported(lines, next, e);
      hide ReadAt;
      assert Starts(lines, i) == [i] + Starts(lines, next);
      assert forall n :: n in Starts(lines, i) <==> n == i || n in Starts(lines, next);
    }
  }
}
