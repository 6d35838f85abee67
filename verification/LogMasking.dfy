/** Secret masking for logs (src/lib/log-masking.ts): which values become secrets, the masker with its
    lazily rebuilt pattern, and what a masked text can still contain. */
module LogMasking {
  import opened Wrappers
  import opened Text

  const MASK_CHAR := '\U{2022}'
  const MASK := [MASK_CHAR, MASK_CHAR, MASK_CHAR, MASK_CHAR, MASK_CHAR, MASK_CHAR]
  const MIN_SECRET_LENGTH := 4
  const LONG_VALUE_THRESHOLD := 16

  // ---------------------------------------------------------------- which values are secrets

  /** Words and small numbers that would garble a log if they were masked. */
  predicate TrivialValue(value: string) {
    || Lower(value) in {"true", "false", "null", "undefined", "yes", "no", "on", "off", "production",
                        "development", "staging", "test", "localhost", "utf8", "utf-8"}
    || (AllDigits(value) && |value| <= 5)
  }

  predicate IsWordChar(c: char) {
    'a' <= c <= 'z' || 'A' <= c <= 'Z' || IsDigit(c) || c == '_'
  }

  const TELLING_WORDS := {"secret", "token", "password", "passwd", "apikey", "api_key", "api-key", "private", "credential",
                          "auth", "dsn", "database_url", "connectionstring", "connection_string", "connection-string", "webhook"}

  predicate SensitiveKey(key: string) {
    var k := Lower(key);
    || (exists word | word in TELLING_WORDS :: Contains(k, word))
    || (exists i | 0 <= i <= |k| - 4 :: OccursAt(k, "pass", i) && (i + 4 < |k| ==> !IsWordChar(k[i + 4])))
  }

  /** A word that tells a secret by its name. */
  predicate Telling(word: string) {
    || word in {"secret", "token", "password", "passwd", "private", "credential", "auth", "dsn", "database_url", "webhook"}
    || exists gap | gap in {"", "_", "-"} :: word == "api" + gap + "key" || word == "connection" + gap + "string"
  }

  /** A name tells a secret exactly when, in any case of letters, a telling word stands in it, or `pass` where a word
      ends. */
  lemma NamesThatTell(key: string)
    ensures SensitiveKey(key) <==>
            exists before, word, after | Lower(key) == before + word + after ::
              Telling(word) || (word == "pass" && (after == "" || !IsWordChar(after[0])))
  {
    hide Lower, SensitiveKey, Telling;
    if SensitiveKey(key) { var before, word, after := TellingPart(key); }
    if before, word, after :| Lower(key) == before + word + after &&
                              (Telling(word) || (word == "pass" && (after == "" || !IsWordChar(after[0])))) {
      PartTells(key, before, word, after);
    }
  }

  lemma TellingPart(key: string) returns (before: string, word: string, after: string)
    requires SensitiveKey(key)
    ensures Lower(key) == before + word + after
    ensures Telling(word) || (word == "pass" && (after == "" || !IsWordChar(after[0])))
  {
    hide Lower, Telling;
    var k := Lower(key);
    var i;
    if telling :| telling in TELLING_WORDS && Contains(k, telling) {
      TellingWords();
      word := telling;
      i :| OccursAt(k, word, i);
    } else {
      word := "pass";
      i :| 0 <= i <= |k| - 4 && OccursAt(k, "pass", i) && (i + 4 < |k| ==> !IsWordChar(k[i + 4]));
    }
    Around(k, word, i);
    before, after := k[..i], k[i + |word|..];
  }

  lemma PartTells(key: string, before: string, word: string, after: string)
    requires Lower(key) == before + word + after
    requires Telling(word) || (word == "pass" && (after == "" || !IsWordChar(after[0])))
    ensures SensitiveKey(key)
  {
    hide Lower;
    var k := Lower(key);
    TellingWords();
    hide Telling;
    assert k[|before|..|before| + |word|] == word;
    assert OccursAt(k, word, |before|);
    if Telling(word) {
      assert Contains(k, word);
    } else if after != "" {
      assert k[|before| + 4] == after[0];
    }
  }

  lemma TellingWords()
    ensures forall word :: word in TELLING_WORDS <==> Telling(word)
  {
    forall word ensures word in TELLING_WORDS <==> Telling(word) {
      assert "api" + "" + "key" == "apikey" && "api" + "_" + "key" == "api_key" && "api" + "-" + "key" == "api-key";
      assert "connection" + "" + "string" == "connectionstring" && "connection" + "_" + "string" == "connection_string" &&
             "connection" + "-" + "string" == "connection-string";
    }
  }

  lemma Around(k: string, word: string, i: int)
    requires OccursAt(k, word, i)
    ensures 0 <= i <= i + |word| <= |k| && k == k[..i] + word + k[i + |word|..]
  {
  }

  predicate SecretLine(trimmed: string) {
    |trimmed| >= MIN_SECRET_LENGTH && !TrivialValue(trimmed)
  }

  /** The lines of a value that are masked, trimmed. */
  function SecretLines(lines: seq<string>): seq<string> {
    if lines == [] then []
    else (if SecretLine(Trim(lines[0])) then [Trim(lines[0])] else []) + SecretLines(lines[1..])
  }

  /** The heuristic of `collectEnvSecrets`: a telling key, or a long value. */
  predicate WatchedVariable(key: string, value: string) {
    && value != "" && !TrivialValue(Trim(value))
    && (if SensitiveKey(key) then |value| >= MIN_SECRET_LENGTH else |value| >= LONG_VALUE_THRESHOLD)
  }

  type EnvVars = seq<(string, string)>

  function EnvSecrets(envVars: EnvVars): seq<string> {
    if envVars == [] then []
    else
      var (key, value) := envVars[0];
      (if WatchedVariable(key, value) then SecretLines(SplitOn(value, '\n')) else []) + EnvSecrets(envVars[1..])
  }

  lemma {:induction false} SecretLinesSnoc(lines: seq<string>, line: string)
    ensures SecretLines(lines + [line]) ==
            SecretLines(lines) + (if SecretLine(Trim(line)) then [Trim(line)] else [])
  {
    hide SecretLine, Trim;
    if lines == [] {
      assert lines + [line] == [line];
      assert [line][1..] == [];
    } else {
      assert (lines + [line])[1..] == lines[1..] + [line];
      SecretLinesSnoc(lines[1..], line);
    }
  }

  lemma {:induction false} EnvSecretsSnoc(envVars: EnvVars, key: string, value: string)
    ensures EnvSecrets(envVars + [(key, value)]) ==
            EnvSecrets(envVars) + (if WatchedVariable(key, value) then SecretLines(SplitOn(value, '\n')) else [])
  {
    hide WatchedVariable, SecretLines, SplitOn;
    if envVars == [] {
      assert envVars + [(key, value)] == [(key, value)];
      assert [(key, value)][1..] == [];
    } else {
      assert (envVars + [(key, value)])[1..] == envVars[1..] + [(key, value)];
      EnvSecretsSnoc(envVars[1..], key, value);
    }
  }

  method CollectEnvSecrets(envVars: EnvVars) returns (secrets: seq<string>)
    ensures secrets == EnvSecrets(envVars)
  {
    hide WatchedVariable, SecretLine, Trim, SplitOn;
    secrets := [];
    for i := 0 to |envVars|
      invariant secrets == EnvSecrets(envVars[..i])
    {
      var (key, value) := envVars[i];
      assert envVars[..i + 1] == envVars[..i] + [(key, value)];
      EnvSecretsSnoc(envVars[..i], key, value);
      if WatchedVariable(key, value) {
        var lines := SplitOn(value, '\n');
        var before := secrets;
        for j := 0 to |lines|
          invariant secrets == before + SecretLines(lines[..j])
        {
          assert lines[..j + 1] == lines[..j] + [lines[j]];
          SecretLinesSnoc(lines[..j], lines[j]);
          var trimmed := Trim(lines[j]);
          if SecretLine(trimmed) {
            secrets := secrets + [trimmed];
          }
        }
        assert lines[..|lines|] == lines;
      }
    }
    assert envVars[..|envVars|] == envVars;
  }

  /** What can be registered: a trimmed line of at least four characters. */
  predicate Registrable(secret: string) {
    SecretLine(secret) && Trimmed(secret) && '\n' !in secret
  }

  /** Exactly the secret lines, trimmed, of the values given are collected. */
  lemma {:induction false} SecretLinesAre(lines: seq<string>, secret: string)
    ensures secret in SecretLines(lines) <==>
            |secret| >= 4 && !TrivialValue(secret) && exists i | 0 <= i < |lines| :: Trim(lines[i]) == secret
  {
    hide TrivialValue, Trim;
    if lines != [] {
      SecretLinesAre(lines[1..], secret);
      if exists i | 0 <= i < |lines[1..]| :: Trim(lines[1..][i]) == secret {
        var i :| 0 <= i < |lines[1..]| && Trim(lines[1..][i]) == secret;
        assert Trim(lines[i + 1]) == secret;
      }
      if exists i | 0 <= i < |lines| :: Trim(lines[i]) == secret {
        var i :| 0 <= i < |lines| && Trim(lines[i]) == secret;
        assert i > 0 ==> lines[1..][i - 1] == lines[i];
      }
    }
  }

  lemma LineIsCollected(lines: seq<string>, i: nat)
    requires i < |lines| && SecretLine(Trim(lines[i]))
    ensures Trim(lines[i]) in SecretLines(lines)
  {
    hide Trim, TrivialValue, SecretLines;
    SecretLinesAre(lines, Trim(lines[i]));
  }

  predicate LineTrimsTo(value: string, secret: string) {
    var lines := SplitOn(value, '\n');
    exists i | 0 <= i < |lines| :: Trim(lines[i]) == secret
  }

  /** Whether a variable is watched: one with a telling name from four characters on, any other from sixteen, and
      none whose value is trivial. */
  lemma WatchedWhen(key: string, value: string)
    ensures WatchedVariable(key, value) <==>
            !TrivialValue(Trim(value)) && (|value| >= 16 || (|value| >= 4 && SensitiveKey(key)))
  {
    hide TrivialValue, SensitiveKey, Trim;
  }

  /** The variable at a place is watched and has a line that is the text, trimmed. */
  predicate HoldsSecret(envVars: EnvVars, i: nat, secret: string)
    requires i < |envVars|
  {
    var (key, value) := envVars[i];
    && !TrivialValue(Trim(value)) && (|value| >= 16 || (|value| >= 4 && SensitiveKey(key)))
    && LineTrimsTo(value, secret)
  }

  /** A text is collected exactly when it is at least four characters long, not trivial, and a line of some watched
      variable, trimmed. */
  lemma {:induction false} CollectedSecretsAre(envVars: EnvVars, secret: string)
    ensures secret in EnvSecrets(envVars) <==>
            |secret| >= 4 && !TrivialValue(secret) && exists i | 0 <= i < |envVars| :: HoldsSecret(envVars, i, secret)
  {
    hide WatchedVariable, TrivialValue, SensitiveKey, SecretLines, SplitOn, Trim, LineTrimsTo;
    if envVars != [] {
      var (key, value) := envVars[0];
      CollectedSecretsAre(envVars[1..], secret);
      LinesTrimTo(value, secret);
      WatchedWhen(key, value);
      assert forall i | 0 < i < |envVars| :: HoldsSecret(envVars[1..], i - 1, secret) == HoldsSecret(envVars, i, secret);
      assert HoldsSecret(envVars, 0, secret) <==>
             !TrivialValue(Trim(value)) && (|value| >= 16 || (|value| >= 4 && SensitiveKey(key))) && LineTrimsTo(value, secret);
      if i :| 0 <= i < |envVars[1..]| && HoldsSecret(envVars[1..], i, secret) {
        assert HoldsSecret(envVars, i + 1, secret);
      }
      if i :| 0 < i < |envVars| && HoldsSecret(envVars, i, secret) {
        assert HoldsSecret(envVars[1..], i - 1, secret);
      }
      hide HoldsSecret;
    }
  }

  lemma LinesTrimTo(value: string, secret: string)
    ensures secret in SecretLines(SplitOn(value, '\n')) <==> |secret| >= 4 && !TrivialValue(secret) && LineTrimsTo(value, secret)
  {
    SecretLinesAre(SplitOn(value, '\n'), secret);
  }

  /** Which values are trivial does not depend on the case of their letters; a number is from six digits on not. */
  lemma TrivialIgnoresCase(value: string)
    ensures TrivialValue(Lower(value)) <==> TrivialValue(value)
    ensures AllDigits(value) ==> (TrivialValue(value) <==> |value| <= 5)
  {
    var lower := Lower(value);
    assert Lower(lower) == lower;
    assert AllDigits(lower) <==> AllDigits(value) by {
      assert forall i | 0 <= i < |value| :: IsDigit(lower[i]) <==> IsDigit(value[i]);
    }
    if AllDigits(value) { assert IsDigit(lower[0]); }
  }

  lemma SecretLinesAreRegistrable(value: string, secret: string)
    requires secret in SecretLines(SplitOn(value, '\n'))
    ensures Registrable(secret)
  {
    hide TrivialValue, Trim, SecretLines, Contains;
    LinesTrimTo(value, secret);
    var lines := SplitOn(value, '\n');
    hide SplitOn;
    var i :| 0 <= i < |lines| && Trim(lines[i]) == secret;
    TrimKeepsTheMiddle(lines[i]);
    assert '\n' !in lines[i];
  }

  // ---------------------------------------------------------------- the pattern

  /** `sort((a, b) => b.length - a.length)`, which keeps the order of secrets of one length. */
  function LongestFirst(secrets: seq<string>): seq<string> {
    if secrets == [] then [] else InsertByLength(secrets[0], LongestFirst(secrets[1..]))
  }

  function InsertByLength(secret: string, sorted: seq<string>): seq<string> {
    if sorted == [] || |sorted[0]| <= |secret| then [secret] + sorted
    else [sorted[0]] + InsertByLength(secret, sorted[1..])
  }

  /** The alternation of the regular expression; absent when there is no secret. */
  function BuildPattern(secrets: seq<string>): Option<seq<string>> {
    if secrets == [] then None else Some(LongestFirst(secrets))
  }

  /** How much of `text` the alternation matches at its start: the first alternative that fits. */
  function FirstMatch(alternatives: seq<string>, text: string): (n: Option<nat>)
    ensures n.Some? ==> n.value <= |text| && text[..n.value] in alternatives
  {
    if alternatives == [] then None
    else if alternatives[0] <= text then
      assert text[..|alternatives[0]|] == alternatives[0];
      Some(|alternatives[0]|)
    else FirstMatch(alternatives[1..], text)
  }

  /** `text.replace(pattern, MASK)` with the global flag. */
  function ReplaceAll(alternatives: seq<string>, text: string): string
    requires "" !in alternatives
    decreases |text|
  {
    if text == "" then ""
    else
      match FirstMatch(alternatives, text)
      case Some(n) => MASK + ReplaceAll(alternatives, text[n..])
      case None => [text[0]] + ReplaceAll(alternatives, text[1..])
  }

  // ---------------------------------------------------------------- what masking means

  /** The longest secret of the set that `text` starts with, up to length `n`. */
  function LongestSecret(secrets: set<string>, text: string, n: nat): Option<nat>
    requires n <= |text|
  {
    if n == 0 then None
    else if text[..n] in secrets then Some(n)
    else LongestSecret(secrets, text, n - 1)
  }

  lemma {:induction false} LongestSecretIsLongest(secrets: set<string>, text: string, n: nat)
    requires n <= |text|
    ensures var k := LongestSecret(secrets, text, n);
            && (k.Some? ==> 0 < k.value <= n && text[..k.value] in secrets)
            && (forall m | (if k.Some? then k.value else 0) < m <= n :: text[..m] !in secrets)
  {
    if n > 0 && text[..n] !in secrets {
      LongestSecretIsLongest(secrets, text, n - 1);
    }
  }

  /** From left to right, the longest secret that starts at a place gives way to the mask. */
  function Masked(secrets: set<string>, text: string): string
    decreases |text|
  {
    if text == "" then ""
    else
      match LongestSecret(secrets, text, |text|)
      case Some(n) =>
        LongestSecretIsLongest(secrets, text, |text|);
        MASK + Masked(secrets, text[n..])
      case None => [text[0]] + Masked(secrets, text[1..])
  }

  function SetOf(secrets: seq<string>): set<string> {
    set s | s in secrets
  }

  lemma SetOfSnoc(secrets: seq<string>, secret: string)
    ensures SetOf([]) == {}
    ensures SetOf(secrets + [secret]) == SetOf(secrets) + {secret}
  {
  }

  predicate LengthsDescend(sorted: seq<string>) {
    forall i, j | 0 <= i < j < |sorted| :: |sorted[j]| <= |sorted[i]|
  }

  lemma {:induction false} InsertKeepsOrder(secret: string, sorted: seq<string>)
    requires LengthsDescend(sorted)
    ensures LengthsDescend(InsertByLength(secret, sorted))
    ensures forall s :: s in InsertByLength(secret, sorted) <==> s == secret || s in sorted
  {
    if sorted != [] && |sorted[0]| > |secret| {
      InsertKeepsOrder(secret, sorted[1..]);
      assert forall s :: s in sorted <==> s == sorted[0] || s in sorted[1..];
      var rest := InsertByLength(secret, sorted[1..]);
      forall j | 0 <= j < |rest| ensures |rest[j]| <= |sorted[0]| {
        assert rest[j] in rest;
      }
    }
  }

  /** The alternation holds the same secrets, longest first. */
  lemma {:induction false} SortsByLength(secrets: seq<string>)
    ensures LengthsDescend(LongestFirst(secrets))
    ensures SetOf(LongestFirst(secrets)) == SetOf(secrets)
  {
    if secrets != [] {
      SortsByLength(secrets[1..]);
      InsertKeepsOrder(secrets[0], LongestFirst(secrets[1..]));
      forall s ensures s in LongestFirst(secrets) <==> s in secrets {
        assert s in secrets <==> s == secrets[0] || s in secrets[1..];
        assert s in LongestFirst(secrets[1..]) <==> s in SetOf(secrets[1..]);
      }
    }
  }

  lemma {:induction false} FirstIsLongest(sorted: seq<string>, text: string)
    requires LengthsDescend(sorted) && "" !in sorted
    ensures FirstMatch(sorted, text) == LongestSecret(SetOf(sorted), text, |text|)
  {
    LongestSecretIsLongest(SetOf(sorted), text, |text|);
    FirstMatchIsFirst(sorted, text);
    var n, k := FirstMatch(sorted, text), LongestSecret(SetOf(sorted), text, |text|);
    if k.Some? {
      assert text[..k.value] <= text;
    }
  }

  lemma {:induction false} FirstMatchIsFirst(sorted: seq<string>, text: string)
    requires LengthsDescend(sorted)
    ensures forall s | s in sorted && s <= text :: FirstMatch(sorted, text).Some? && |s| <= FirstMatch(sorted, text).value
  {
    if sorted != [] {
      assert sorted == [sorted[0]] + sorted[1..];
      if !(sorted[0] <= text) {
        FirstMatchIsFirst(sorted[1..], text);
      }
    }
  }

  /** The regular expression with its alternatives sorted masks the longest secret at each place, and so
      depends on the set of secrets only. */
  lemma {:induction false} PatternMasks(secrets: seq<string>, text: string)
    requires "" !in secrets
    ensures "" !in LongestFirst(secrets)
    ensures ReplaceAll(LongestFirst(secrets), text) == Masked(SetOf(secrets), text)
    decreases |text|
  {
    SortsByLength(secrets);
    assert "" !in SetOf(secrets);
    if text != "" {
      hide LongestFirst, FirstMatch, LongestSecret;
      FirstIsLongest(LongestFirst(secrets), text);
      match FirstMatch(LongestFirst(secrets), text)
      case Some(n) => PatternMasks(secrets, text[n..]);
      case None => PatternMasks(secrets, text[1..]);
    }
  }

  lemma {:induction false} NothingToMask(text: string)
    ensures Masked({}, text) == text
  {
    if text != "" {
      LongestSecretIsLongest({}, text, |text|);
      NothingToMask(text[1..]);
    }
  }

  // ---------------------------------------------------------------- the masker

  class LogMasker {
    var secrets: seq<string>
    var pattern: Option<seq<string>>
    var dirty: bool

    /** The secrets are registrable, no secret is held twice, and a pattern not marked dirty is the one
        that rebuilding would give. */
    ghost predicate Valid()
      reads this
    {
      && (forall s | s in secrets :: Registrable(s))
      && (forall i, j | 0 <= i < j < |secrets| :: secrets[i] != secrets[j])
      && (!dirty ==> pattern == BuildPattern(secrets))
    }

    ghost function Secrets(): set<string>
      reads this
    {
      SetOf(secrets)
    }

    constructor (envVars: EnvVars)
      ensures Valid() && Secrets() == SetOf(EnvSecrets(envVars))
    {
      secrets := [];
      pattern := None;
      dirty := true;
      new;
      AddEnvVars(envVars);
      dirty := true;
    }

    method Rebuild()
      requires Valid()
      modifies this`pattern, this`dirty
      ensures Valid() && !dirty
    {
      if |secrets| == 0 {
        pattern := None;
      } else {
        pattern := Some(LongestFirst(secrets));
      }
      dirty := false;
    }

    /** Whatever was registered and masked before, the result is what the set of secrets says. */
    method Mask(text: string) returns (masked: string)
      requires Valid()
      modifies this`pattern, this`dirty
      ensures Valid()
      ensures masked == Masked(Secrets(), text)
    {
      hide Registrable, LongestFirst, Masked;
      if dirty {
        Rebuild();
      }
      assert "" !in secrets by { NoEmptySecret(secrets); }
      PatternMasks(secrets, text);
      if pattern.None? {
        NothingToMask(text);
        assert Secrets() == {};
        return text;
      }
      if text == "" {
        EmptyText(Secrets());
        return text;
      }
      return ReplaceAll(pattern.value, text);
    }

    method Register(secret: string)
      requires Valid() && Registrable(secret)
      modifies this`secrets, this`dirty
      ensures Valid() && Secrets() == old(Secrets()) + {secret}
    {
      hide Registrable, BuildPattern;
      if secret !in secrets {
        secrets := secrets + [secret];
        dirty := true;
      }
    }

    method AddSecrets(values: seq<Option<string>>)
      requires Valid()
      modifies this`secrets, this`dirty
      ensures Valid()
      ensures Secrets() == old(Secrets()) + AlwaysSecrets(values)
    {
      hide SecretLine, Registrable, Trim, SplitOn, BuildPattern, AlwaysSecrets;
      assert AlwaysSecrets(values[..0]) == {} by { NoValues(values[..0]); }
      for i := 0 to |values|
        invariant Valid()
        invariant Secrets() == old(Secrets()) + AlwaysSecrets(values[..i])
      {
        assert values[..i + 1] == values[..i] + [values[i]];
        AlwaysSecretsSnoc(values[..i], values[i]);
        if values[i].Some? && values[i].value != "" {
          var lines := SplitOn(values[i].value, '\n');
          var before := secrets;
          for j := 0 to |lines|
            invariant Valid()
            invariant Secrets() == SetOf(before) + SetOf(SecretLines(lines[..j]))
          {
            assert lines[..j + 1] == lines[..j] + [lines[j]];
            SecretLinesSnoc(lines[..j], lines[j]);
            var trimmed := Trim(lines[j]);
            if SecretLine(trimmed) {
              LineIsCollected(lines, j);
              SecretLinesAreRegistrable(values[i].value, trimmed);
              Register(trimmed);
            }
          }
          assert lines[..|lines|] == lines;
        } else {
          assert values[i].Some? ==> SecretLines(SplitOn("", '\n')) == [] by { EmptyValue(); }
        }
      }
      assert values[..|values|] == values;
    }

    method AddEnvVars(envVars: EnvVars)
      requires Valid()
      modifies this`secrets, this`dirty
      ensures Valid()
      ensures Secrets() == old(Secrets()) + SetOf(EnvSecrets(envVars))
    {
      hide Registrable, BuildPattern, EnvSecrets, SetOf;
      var found := CollectEnvSecrets(envVars);
      SetOfSnoc([], "");
      for i := 0 to |found|
        invariant Valid()
        invariant Secrets() == old(Secrets()) + SetOf(found[..i])
      {
        EnvSecretsAreRegistrable(envVars, found[i]);
        Register(found[i]);
        assert found[..i + 1] == found[..i] + [found[i]];
        SetOfSnoc(found[..i], found[i]);
      }
      assert found[..|found|] == found;
    }

    method Size() returns (n: nat)
      requires Valid()
      ensures n == |Secrets()|
    {
      n := |secrets|;
      DistinctCount(secrets);
    }
  }

  /** The secrets that values registered by hand stand for: their lines, whatever the key. */
  function AlwaysSecrets(values: seq<Option<string>>): set<string> {
    set i, s | 0 <= i < |values| && values[i].Some? && s in SecretLines(SplitOn(values[i].value, '\n')) :: s
  }

  /** Registered by hand, every line of a value is masked, trimmed, that is at least four characters long and not
      trivial, whatever the key. */
  lemma AlwaysSecretsAre(values: seq<Option<string>>, secret: string)
    ensures secret in AlwaysSecrets(values) <==>
            |secret| >= 4 && !TrivialValue(secret) &&
            exists i | 0 <= i < |values| :: values[i].Some? && LineTrimsTo(values[i].value, secret)
  {
    hide TrivialValue, SecretLines, SplitOn, LineTrimsTo;
    forall i | 0 <= i < |values| && values[i].Some?
      ensures secret in SecretLines(SplitOn(values[i].value, '\n')) <==>
              |secret| >= 4 && !TrivialValue(secret) && LineTrimsTo(values[i].value, secret)
    {
      LinesTrimTo(values[i].value, secret);
    }
  }

  lemma NoValues(values: seq<Option<string>>)
    requires values == []
    ensures AlwaysSecrets(values) == {}
  {
  }

  lemma AlwaysSecretsSnoc(values: seq<Option<string>>, value: Option<string>)
    ensures AlwaysSecrets(values + [value]) ==
            AlwaysSecrets(values) +
            (if value.Some? then SetOf(SecretLines(SplitOn(value.value, '\n'))) else {})
  {
    hide SecretLines, SplitOn;
    var all := values + [value];
    forall s ensures s in AlwaysSecrets(all) <==>
                     s in AlwaysSecrets(values) || (value.Some? && s in SecretLines(SplitOn(value.value, '\n')))
    {
      if s in AlwaysSecrets(values) {
        var i :| 0 <= i < |values| && values[i].Some? && s in SecretLines(SplitOn(values[i].value, '\n'));
        assert all[i] == values[i];
      }
      if value.Some? && s in SecretLines(SplitOn(value.value, '\n')) {
        assert all[|values|] == value;
      }
    }
  }

  lemma EmptyValue()
    ensures SecretLines(SplitOn("", '\n')) == []
  {
    assert SplitOn("", '\n') == [""];
    assert !SecretLine(Trim(""));
  }

  lemma {:induction false} EnvSecretsAreRegistrable(envVars: EnvVars, secret: string)
    requires secret in EnvSecrets(envVars)
    ensures Registrable(secret)
  {
    hide Registrable, WatchedVariable;
    if secret in EnvSecrets(envVars[1..]) {
      EnvSecretsAreRegistrable(envVars[1..], secret);
    } else {
      SecretLinesAreRegistrable(envVars[0].1, secret);
    }
  }

  lemma NoEmptySecret(secrets: seq<string>)
    requires forall s | s in secrets :: Registrable(s)
    ensures "" !in secrets
  {
    assert !Registrable("");
  }

  lemma EmptyText(secrets: set<string>)
    ensures Masked(secrets, "") == ""
  {
  }

  lemma {:induction false} DistinctCount(secrets: seq<string>)
    requires forall i, j | 0 <= i < j < |secrets| :: secrets[i] != secrets[j]
    ensures |SetOf(secrets)| == |secrets|
  {
    if secrets != [] {
      DistinctCount(secrets[1..]);
      assert SetOf(secrets) == SetOf(secrets[1..]) + {secrets[0]};
      assert secrets[0] !in secrets[1..];
    }
  }

  // ---------------------------------------------------------------- what a masked text contains

  lemma {:induction false} PrefixWasThere(secrets: set<string>, text: string, part: string)
    requires MASK_CHAR !in part && part <= Masked(secrets, text)
    ensures part <= text && text[..|part|] == part
    decreases |text|
  {
    if part != "" {
      LongestSecretIsLongest(secrets, text, |text|);
      var n := LongestSecret(secrets, text, |text|);
      assert part[0] in part && part[0] == Masked(secrets, text)[0];
      if n.None? {
        assert Masked(secrets, text)[1..] == Masked(secrets, text[1..]);
        assert part[1..] <= Masked(secrets, text[1..]);
        PrefixWasThere(secrets, text[1..], part[1..]);
        assert part == [text[0]] + part[1..];
      }
    }
  }

  lemma {:induction false} NoSecretAt(secrets: set<string>, text: string, secret: string, i: int)
    requires secret in secrets && secret != "" && MASK_CHAR !in secret
    ensures !OccursAt(Masked(secrets, text), secret, i)
    decreases |text|
  {
    var out := Masked(secrets, text);
    if text != "" && OccursAt(out, secret, i) {
      assert secret[0] == out[i] && secret[0] in secret;
      LongestSecretIsLongest(secrets, text, |text|);
      match LongestSecret(secrets, text, |text|)
      case Some(n) =>
        var rest := Masked(secrets, text[n..]);
        assert out == MASK + rest;
        OccurrenceInTail(MASK, rest, secret, i);
        NoSecretAt(secrets, text[n..], secret, i - 6);
      case None =>
        var rest := Masked(secrets, text[1..]);
        if i > 0 {
          OccurrenceInTail([text[0]], rest, secret, i);
          NoSecretAt(secrets, text[1..], secret, i - 1);
        } else {
          assert secret <= out;
          PrefixWasThere(secrets, text, secret);
        }
    }
  }

  /** No registered secret that is free of the mask character survives masking, anywhere in the text. */
  lemma NoSecretSurvives(secrets: set<string>, text: string, secret: string)
    requires secret in secrets && secret != "" && MASK_CHAR !in secret
    ensures !Contains(Masked(secrets, text), secret)
  {
    forall i ensures !OccursAt(Masked(secrets, text), secret, i) {
      NoSecretAt(secrets, text, secret, i);
    }
  }

  lemma {:induction false} CleanTextStays(secrets: set<string>, text: string)
    requires forall s | s in secrets && s != "" :: !Contains(text, s)
    ensures Masked(secrets, text) == text
    decreases |text|
  {
    if text != "" {
      LongestSecretIsLongest(secrets, text, |text|);
      var n := LongestSecret(secrets, text, |text|);
      if n.Some? {
        assert OccursAt(text, text[..n.value], 0);
        assert false;
      }
      forall s | s in secrets && s != "" ensures !Contains(text[1..], s) {
        forall i | 0 <= i <= |text[1..]| - |s| ensures !OccursAt(text[1..], s, i) {
          assert text[1..][i..i + |s|] == text[i + 1..i + 1 + |s|];
          assert !OccursAt(text, s, i + 1);
        }
      }
      CleanTextStays(secrets, text[1..]);
    }
  }

  /** When no secret holds the mask character, masking a masked text changes nothing. */
  lemma MaskingIsIdempotent(secrets: set<string>, text: string)
    requires forall s | s in secrets :: s != "" && MASK_CHAR !in s
    ensures Masked(secrets, Masked(secrets, text)) == Masked(secrets, text)
  {
    forall s | s in secrets ensures !Contains(Masked(secrets, text), s) {
      NoSecretSurvives(secrets, text, s);
    }
    CleanTextStays(secrets, Masked(secrets, text));
  }

  /** With a secret of mask characters it can: six of them hide four, and leave two behind. */
  lemma MaskLikeSecretIsMaskedAgain()
    ensures var secret := MASK[..4];
            Masked({secret}, secret) == MASK && Masked({secret}, MASK) == MASK + MASK[4..]
  {
    var secret := MASK[..4];
    assert secret[..4] == secret;
    assert LongestSecret({secret}, secret, 4) == Some(4);
    assert Masked({secret}, secret[4..]) == "";
    assert MASK[..6] == MASK && MASK[..5] != secret && MASK != secret;
    assert LongestSecret({secret}, MASK, 5) == LongestSecret({secret}, MASK, 4) == Some(4);
    assert LongestSecret({secret}, MASK, 6) == Some(4);
    var rest := MASK[4..];
    assert rest[..2] != secret && rest[..1] != secret;
    assert LongestSecret({secret}, rest, 1) == None;
    assert LongestSecret({secret}, rest, 2) == None;
    assert LongestSecret({secret}, rest[1..], 1) == None;
    assert Masked({secret}, rest[1..][1..]) == "";
    assert Masked({secret}, rest[1..]) == rest[1..];
  }

  // ---------------------------------------------------------------- masking hides nothing else

  datatype Piece = Kept(c: char) | Hidden(secret: string)

  function Pieces(secrets: set<string>, text: string): seq<Piece>
    decreases |text|
  {
    if text == "" then []
    else
      LongestSecretIsLongest(secrets, text, |text|);
      match LongestSecret(secrets, text, |text|)
      case Some(n) => [Hidden(text[..n])] + Pieces(secrets, text[n..])
      case None => [Kept(text[0])] + Pieces(secrets, text[1..])
  }

  function Original(pieces: seq<Piece>): string {
    if pieces == [] then ""
    else (match pieces[0] case Kept(c) => [c] case Hidden(s) => s) + Original(pieces[1..])
  }

  function Shown(pieces: seq<Piece>): string {
    if pieces == [] then ""
    else (match pieces[0] case Kept(c) => [c] case Hidden(_) => MASK) + Shown(pieces[1..])
  }

  /** The text is a row of kept characters and whole secrets; the masked text is the same row with every
      secret, and nothing else, replaced. */
  lemma {:induction false} OnlySecretsAreHidden(secrets: set<string>, text: string)
    ensures var pieces := Pieces(secrets, text);
            && Original(pieces) == text && Shown(pieces) == Masked(secrets, text)
            && (forall p | p in pieces && p.Hidden? :: p.secret in secrets)
    decreases |text|
  {
    if text != "" {
      LongestSecretIsLongest(secrets, text, |text|);
      match LongestSecret(secrets, text, |text|)
      case Some(n) =>
        OnlySecretsAreHidden(secrets, text[n..]);
        assert Pieces(secrets, text)[1..] == Pieces(secrets, text[n..]);
        assert text == text[..n] + text[n..];
      case None =>
        OnlySecretsAreHidden(secrets, text[1..]);
        assert Pieces(secrets, text)[1..] == Pieces(secrets, text[1..]);
    }
  }
}
