/** Whether a compose redeploy builds its images again (src/lib/compose-build-cache.ts): the hash of what a
    build reads, made from trees whose object keys are sorted, and the decision to skip. YAML documents are
    parsed trees; a digest keeps its key and its message, which is the reading of a keyed hash as injective. */
module ComposeBuildCache {
  import opened Wrappers
  import opened Text
  import opened JsTree

  // ---------------------------------------------------------------- the order of keys

  /** How `sort()` compares texts. */
  predicate Lex(a: string, b: string) {
    b != "" && (a == "" || a[0] < b[0] || (a[0] == b[0] && Lex(a[1..], b[1..])))
  }

  /** A key that JavaScript lists by its number, before all others. */
  predicate IsArrayIndex(key: string) {
    AllDigits(key) && (key[0] != '0' || |key| == 1) && DecimalValue(key) < 4294967295
  }

  /** The order in which an object lists keys that were put in sorted. */
  predicate ListedBefore(a: string, b: string) {
    if IsArrayIndex(a) && IsArrayIndex(b) then DecimalValue(a) < DecimalValue(b)
    else if IsArrayIndex(a) || IsArrayIndex(b) then IsArrayIndex(a)
    else Lex(a, b)
  }

  ghost predicate StrictOrder(before: (string, string) -> bool) {
    && (forall a, b | before(a, b) :: !before(b, a))
    && (forall a, b | a != b :: before(a, b) || before(b, a))
    && (forall a, b, c | before(a, b) && before(b, c) :: before(a, c))
  }

  lemma {:induction false} LexCompares(a: string, b: string)
    ensures Lex(a, b) ==> !Lex(b, a)
    ensures a != b ==> Lex(a, b) || Lex(b, a)
  {
    if a != "" && b != "" {
      LexCompares(a[1..], b[1..]);
      assert a == [a[0]] + a[1..] && b == [b[0]] + b[1..];
    }
  }

  lemma {:induction false} LexIsTransitive(a: string, b: string, c: string)
    requires Lex(a, b) && Lex(b, c)
    ensures Lex(a, c)
  {
    if a != "" && a[0] == b[0] == c[0] { LexIsTransitive(a[1..], b[1..], c[1..]); }
  }

  lemma LexIsStrict()
    ensures StrictOrder(Lex)
  {
    forall a, b ensures Lex(a, b) ==> !Lex(b, a) ensures a != b ==> Lex(a, b) || Lex(b, a) { LexCompares(a, b); }
    forall a, b, c | Lex(a, b) && Lex(b, c) ensures Lex(a, c) { LexIsTransitive(a, b, c); }
  }

  lemma ListedBeforeIsStrict()
    ensures StrictOrder(ListedBefore)
  {
    forall a, b
      ensures ListedBefore(a, b) ==> !ListedBefore(b, a)
      ensures a != b ==> ListedBefore(a, b) || ListedBefore(b, a)
    {
      LexCompares(a, b);
      if IsArrayIndex(a) && IsArrayIndex(b) {
        CanonicalDigits(a);
        CanonicalDigits(b);
      }
    }
    forall a, b, c | ListedBefore(a, b) && ListedBefore(b, c)
      ensures ListedBefore(a, c)
    {
      if Lex(a, b) && Lex(b, c) { LexIsTransitive(a, b, c); }
    }
  }

  // ---------------------------------------------------------------- sorting

  function Inserted(f: Field, fields: seq<Field>, before: (string, string) -> bool): (r: seq<Field>)
    ensures |r| == |fields| + 1
    ensures forall x :: x in r <==> x == f || x in fields
  {
    if fields == [] || before(f.key, fields[0].key) then [f] + fields
    else [fields[0]] + Inserted(f, fields[1..], before)
  }

  function Sorted(fields: seq<Field>, before: (string, string) -> bool): (r: seq<Field>)
    ensures |r| == |fields|
    ensures forall x :: x in r <==> x in fields
  {
    if fields == [] then [] else Inserted(fields[0], Sorted(fields[1..], before), before)
  }

  predicate Ascending(fields: seq<Field>, before: (string, string) -> bool) {
    forall i, j | 0 <= i < j < |fields| :: before(fields[i].key, fields[j].key)
  }

  lemma {:induction false} InsertedAscends(f: Field, fields: seq<Field>, before: (string, string) -> bool)
    requires StrictOrder(before) && Ascending(fields, before) && f.key !in Keys(fields)
    ensures Ascending(Inserted(f, fields, before), before)
  {
    if fields == [] || before(f.key, fields[0].key) {
      assert forall i | 0 < i < |fields| :: before(fields[0].key, fields[i].key);
    } else {
      var rest := Inserted(f, fields[1..], before);
      InsertedAscends(f, fields[1..], before);
      assert fields[0] in fields;
      forall x | x in rest ensures before(fields[0].key, x.key) {
        if x != f {
          var i :| 0 <= i < |fields[1..]| && fields[1..][i] == x;
          assert fields[i + 1] == x;
        }
      }
    }
  }

  lemma {:induction false} SortedAscends(fields: seq<Field>, before: (string, string) -> bool)
    requires StrictOrder(before) && DistinctKeys(fields)
    ensures Ascending(Sorted(fields, before), before)
  {
    if fields != [] {
      SortedAscends(fields[1..], before);
      forall f | f in fields[1..] ensures f.key != fields[0].key {
        var i :| 0 <= i < |fields[1..]| && fields[1..][i] == f;
        assert fields[i + 1] == f;
      }
      InsertedAscends(fields[0], Sorted(fields[1..], before), before);
    }
  }

  lemma FirstIsBefore(a: seq<Field>, i: nat, before: (string, string) -> bool)
    requires Ascending(a, before) && i < |a|
    ensures i > 0 ==> before(a[0].key, a[i].key)
  {
  }

  /** Two ascending lists with the same fields are the same list. */
  lemma {:induction false} AscendingIsUnique(a: seq<Field>, b: seq<Field>, before: (string, string) -> bool)
    requires StrictOrder(before) && Ascending(a, before) && Ascending(b, before)
    requires forall x :: x in a <==> x in b
    ensures a == b
  {
    assert a != [] ==> a[0] in a;
    assert b != [] ==> b[0] in b;
    if a != [] && b != [] {
      var i :| 0 <= i < |b| && b[i] == a[0];
      var j :| 0 <= j < |a| && a[j] == b[0];
      FirstIsBefore(b, i, before);
      FirstIsBefore(a, j, before);
      forall x ensures x in a[1..] <==> x in b[1..] {
        TailHas(a, x, before);
        TailHas(b, x, before);
      }
      AscendingIsUnique(a[1..], b[1..], before);
    }
  }

  lemma TailHas(a: seq<Field>, x: Field, before: (string, string) -> bool)
    requires StrictOrder(before) && Ascending(a, before) && a != []
    ensures x in a[1..] <==> x in a && x != a[0]
  {
    if x in a[1..] {
      var i :| 0 <= i < |a[1..]| && a[1..][i] == x;
      assert a[i + 1] == x && before(a[0].key, a[i + 1].key);
    }
  }

  // ---------------------------------------------------------------- canonical trees

  /** The same tree with the keys of every object sorted. */
  function Canonical(j: Json): (r: Json)
    ensures r.Obj? == j.Obj? && r.Arr? == j.Arr?
    decreases j, 1
  {
    match j
    case Arr(items) => Arr(seq(|items|, i requires 0 <= i < |items| => Canonical(items[i])))
    case Obj(fields) => Obj(Sorted(CanonicalValues(fields), ListedBefore))
    case _ => j
  }

  function CanonicalValues(fields: seq<Field>): (r: seq<Field>)
    ensures |r| == |fields|
    ensures forall i | 0 <= i < |r| :: r[i] == Field(fields[i].key, Canonical(fields[i].value))
    decreases fields, 0
  {
    seq(|fields|, i requires 0 <= i < |fields| => Field(fields[i].key, Canonical(fields[i].value)))
  }

  /** Two trees that differ only in the order of keys. */
  ghost predicate SameUpToKeyOrder(a: Json, b: Json)
    decreases a
  {
    match (a, b)
    case (Arr(xs), Arr(ys)) => |xs| == |ys| && forall i | 0 <= i < |xs| :: SameUpToKeyOrder(xs[i], ys[i])
    case (Obj(fs), Obj(gs)) =>
      && Keys(fs) == Keys(gs)
      && forall f, g | f in fs && g in gs && f.key == g.key :: SameUpToKeyOrder(f.value, g.value)
    case _ => a == b
  }

  lemma {:induction false} CanonicalIsWellFormed(j: Json)
    requires WellFormed(j)
    ensures WellFormed(Canonical(j))
  {
    match j
    case Arr(items) => {
      forall i | 0 <= i < |items| ensures WellFormed(Canonical(items[i])) { CanonicalIsWellFormed(items[i]); }
    }
    case Obj(fields) => {
      var values := CanonicalValues(fields);
      forall i | 0 <= i < |fields| ensures WellFormed(Canonical(fields[i].value)) {
        assert fields[i] in fields;
        CanonicalIsWellFormed(fields[i].value);
      }
      SortedKeepsKeysApart(values);
    }
    case _ =>
  }

  lemma SortedKeepsKeysApart(fields: seq<Field>)
    requires DistinctKeys(fields)
    ensures Ascending(Sorted(fields, ListedBefore), ListedBefore) && DistinctKeys(Sorted(fields, ListedBefore))
  {
    ListedBeforeIsStrict();
    SortedAscends(fields, ListedBefore);
    forall a | true ensures !ListedBefore(a, a) { LexCompares(a, a); }
  }

  /** Sorting the keys again changes nothing. */
  lemma {:induction false} CanonicalIsIdempotent(j: Json)
    requires WellFormed(j)
    ensures Canonical(Canonical(j)) == Canonical(j)
  {
    match j
    case Arr(items) => {
      forall i | 0 <= i < |items| ensures Canonical(Canonical(items[i])) == Canonical(items[i]) { CanonicalIsIdempotent(items[i]); }
    }
    case Obj(fields) => {
      var once := Canonical(j).fields;
      var values := CanonicalValues(fields);
      SortedKeepsKeysApart(values);
      forall x | x in once ensures Canonical(x.value) == x.value {
        var i :| 0 <= i < |values| && values[i] == x;
        assert fields[i] in fields;
        CanonicalIsIdempotent(fields[i].value);
      }
      assert CanonicalValues(once) == once;
      SortedKeepsKeysApart(once);
      ListedBeforeIsStrict();
      AscendingIsUnique(Sorted(once, ListedBefore), once, ListedBefore);
    }
    case _ =>
  }

  /** Two objects have the same canonical fields exactly when they have the same keys with the same canonical
      values. */
  lemma CanonicalFieldsAgree(fs: seq<Field>, gs: seq<Field>)
    requires DistinctKeys(fs) && DistinctKeys(gs)
    ensures Sorted(CanonicalValues(fs), ListedBefore) == Sorted(CanonicalValues(gs), ListedBefore) <==>
            Keys(fs) == Keys(gs) &&
            forall f, g | f in fs && g in gs && f.key == g.key :: Canonical(f.value) == Canonical(g.value)
  {
    hide Canonical, CanonicalValues, Sorted;
    var a, b := CanonicalValues(fs), CanonicalValues(gs);
    if Sorted(a, ListedBefore) == Sorted(b, ListedBefore) {
      assert forall x :: x in a <==> x in b by {
        assert forall x :: x in a <==> x in Sorted(a, ListedBefore);
        assert forall x :: x in b <==> x in Sorted(b, ListedBefore);
      }
      SameMembersAgree(fs, gs);
    }
    if Keys(fs) == Keys(gs) && forall f, g | f in fs && g in gs && f.key == g.key :: Canonical(f.value) == Canonical(g.value) {
      forall x ensures x in a <==> x in b {
        if x in a { MembersCarryOver(fs, gs, x); }
        if x in b { MembersCarryOver(gs, fs, x); }
      }
      SortedKeepsKeysApart(a);
      SortedKeepsKeysApart(b);
      ListedBeforeIsStrict();
      AscendingIsUnique(Sorted(a, ListedBefore), Sorted(b, ListedBefore), ListedBefore);
    }
  }

  lemma CanonicalValueIsThere(fs: seq<Field>, f: Field)
    requires f in fs
    ensures Field(f.key, Canonical(f.value)) in CanonicalValues(fs)
  {
    var i :| 0 <= i < |fs| && fs[i] == f;
    assert CanonicalValues(fs)[i] == Field(f.key, Canonical(f.value));
  }

  lemma SameMembersAgree(fs: seq<Field>, gs: seq<Field>)
    requires DistinctKeys(fs) && DistinctKeys(gs)
    requires forall x :: x in CanonicalValues(fs) <==> x in CanonicalValues(gs)
    ensures Keys(fs) == Keys(gs)
    ensures forall f, g | f in fs && g in gs && f.key == g.key :: Canonical(f.value) == Canonical(g.value)
  {
    forall f | f in fs ensures exists g | g in gs :: g.key == f.key && Canonical(f.value) == Canonical(g.value) {
      CanonicalValueIsThere(fs, f);
      var i :| 0 <= i < |gs| && CanonicalValues(gs)[i] == Field(f.key, Canonical(f.value));
      assert gs[i] in gs;
    }
    forall g | g in gs ensures g.key in Keys(fs) {
      CanonicalValueIsThere(gs, g);
      var i :| 0 <= i < |fs| && CanonicalValues(fs)[i] == Field(g.key, Canonical(g.value));
      assert fs[i] in fs;
    }
    forall f, g | f in fs && g in gs && f.key == g.key ensures Canonical(f.value) == Canonical(g.value) {
      var g' :| g' in gs && g'.key == f.key && Canonical(f.value) == Canonical(g'.value);
      OneFieldPerKey(gs, g, g');
    }
  }

  lemma OneFieldPerKey(fs: seq<Field>, f: Field, g: Field)
    requires DistinctKeys(fs) && f in fs && g in fs && f.key == g.key
    ensures f == g
  {
  }

  lemma MembersCarryOver(fs: seq<Field>, gs: seq<Field>, x: Field)
    requires Keys(fs) <= Keys(gs) && x in CanonicalValues(fs)
    requires forall f, g | f in fs && g in gs && f.key == g.key :: Canonical(f.value) == Canonical(g.value)
    ensures x in CanonicalValues(gs)
  {
    hide Canonical, CanonicalValues;
    var i :| 0 <= i < |fs| && CanonicalValues(fs)[i] == x;
    assert fs[i] in fs && fs[i].key in Keys(gs);
    var g :| g in gs && g.key == fs[i].key;
    CanonicalValueIsThere(gs, g);
  }

  /** Sorting keys identifies two trees exactly when they differ only in the order of keys. */
  lemma {:induction false} CanonicalIdentifies(a: Json, b: Json)
    requires WellFormed(a) && WellFormed(b)
    ensures Canonical(a) == Canonical(b) <==> SameUpToKeyOrder(a, b)
    decreases a
  {
    match (a, b)
    case (Arr(xs), Arr(ys)) => {
      if |xs| == |ys| {
        forall i | 0 <= i < |xs| ensures Canonical(xs[i]) == Canonical(ys[i]) <==> SameUpToKeyOrder(xs[i], ys[i]) {
          CanonicalIdentifies(xs[i], ys[i]);
        }
      }
      CanonicalItemsAgree(xs, ys);
    }
    case (Obj(fs), Obj(gs)) => {
      forall f, g | f in fs && g in gs ensures Canonical(f.value) == Canonical(g.value) <==> SameUpToKeyOrder(f.value, g.value) {
        CanonicalIdentifies(f.value, g.value);
      }
      CanonicalFieldsAgree(fs, gs);
    }
    case _ =>
  }

  lemma CanonicalItemsAgree(xs: seq<Json>, ys: seq<Json>)
    ensures Canonical(Arr(xs)) == Canonical(Arr(ys)) <==>
            |xs| == |ys| && forall i | 0 <= i < |xs| :: Canonical(xs[i]) == Canonical(ys[i])
  {
    if Canonical(Arr(xs)) == Canonical(Arr(ys)) {
      assert |Canonical(Arr(xs)).items| == |xs| && |Canonical(Arr(ys)).items| == |ys|;
      forall i | 0 <= i < |xs| ensures Canonical(xs[i]) == Canonical(ys[i]) {
        assert Canonical(Arr(xs)).items[i] == Canonical(Arr(ys)).items[i];
      }
    }
  }

  // ---------------------------------------------------------------- the hash of the inputs

  /** A keyed hash: no two messages or keys share one. */
  datatype Digest = Hmac(key: string, message: Json)

  /** The checkout's commit, the compose file, and the resolved configuration unless it is not valid YAML. */
  datatype BuildInput = BuildInput(head: string, composeYaml: string, resolved: Option<Json>)

  /** What of a service decides its image. */
  datatype Section = Section(build: Json, image: Json, platform: Json)

  predicate IsHex(c: char) { '0' <= c <= '9' || 'a' <= c <= 'f' || 'A' <= c <= 'F' }

  predicate IsCommit(head: string) {
    (|head| == 40 || |head| == 64) && forall c | c in head :: IsHex(c)
  }

  /** The section of a service that builds its image; none when it does not. */
  function SectionOf(services: Json, name: string): Option<Section> {
    var service := OrNull(Get(services, name));
    var build := OrNull(Get(service, "build"));
    if build == Null then None
    else Some(Section(build, OrNull(Get(service, "image")), OrNull(Get(service, "platform"))))
  }

  predicate NamesSecrets(section: Section) {
    Truthy(OrNull(Get(section.build, "secrets")))
  }

  function SortedNames(fields: seq<Field>): seq<string> {
    seq(|fields|, i requires 0 <= i < |fields| => Sorted(fields, Lex)[i].key)
  }

  function Building(services: Json, names: seq<string>): (r: seq<string>)
    ensures forall name :: name in r <==> name in names && SectionOf(services, name).Some?
  {
    if names == [] then []
    else
      Building(services, names[..|names| - 1]) +
      (if SectionOf(services, names[|names| - 1]).Some? then [names[|names| - 1]] else [])
  }

  function Entry(name: string, section: Section): Json {
    Obj([Field("name", Str(name)), Field("build", section.build), Field("image", section.image),
         Field("platform", section.platform)])
  }

  function Builds(services: Json, names: seq<string>): seq<Json> {
    var building := Building(services, names);
    seq(|building|, i requires 0 <= i < |building| => Entry(building[i], SectionOf(services, building[i]).value))
  }

  function Message(head: string, composeYaml: string, builds: seq<Json>): Json {
    Obj([Field("v", Num(1.0)), Field("head", Str(head)), Field("composeYaml", Str(composeYaml)), Field("builds", Arr(builds))])
  }

  predicate AnySecrets(services: Json, names: seq<string>) {
    exists name | name in names :: SectionOf(services, name).Some? && NamesSecrets(SectionOf(services, name).value)
  }

  /** What is hashed, when it can be worked out and no build names secrets. */
  function InputsMessage(input: BuildInput): (message: Option<Json>)
    ensures message.Some? ==> Services(input.resolved).Some?
  {
    var services := Services(input.resolved);
    if !IsCommit(Trim(input.head)) || services.None? then None
    else
      var names := SortedNames(services.value.fields);
      if AnySecrets(services.value, names) then None
      else Some(Message(Trim(input.head), input.composeYaml, Builds(services.value, names)))
  }

  function InputsHash(input: BuildInput, key: string): (hash: Option<Digest>)
    ensures hash.Some? <==> InputsMessage(input).Some?
    ensures hash.Some? ==> Services(input.resolved).Some?
  {
    if InputsMessage(input).None? then None else Some(Hmac(key, Canonical(InputsMessage(input).value)))
  }

  method ComposeBuildInputsHash(input: BuildInput, key: string) returns (hash: Option<Digest>)
    ensures hash == InputsHash(input, key)
  {
    hide Canonical, Trim, IsCommit, SortedNames, Message, Builds, Truthy, Get;
    var head := Trim(input.head);
    if !IsCommit(head) { return None; }
    if input.resolved.None? { return None; }
    var services := Get(input.resolved.value, "services");
    if services.None? || !services.value.Obj? { return None; }

    var builds: seq<Json> := [];
    var names := SortedNames(services.value.fields);
    NoBuilds(services.value, names);
    for i := 0 to |names|
      invariant builds == Builds(services.value, names[..i])
      invariant !AnySecrets(services.value, names[..i])
    {
      BuildsGrow(services.value, names, i);
      assert forall name :: name in names[..i + 1] <==> name in names[..i] || name == names[i];
      var service := OrNull(Get(services.value, names[i]));
      var build := OrNull(Get(service, "build"));
      if build == Null { continue; }
      if build.Obj? && Truthy(OrNull(Get(build, "secrets"))) {
        assert names[i] in names;
        return None;
      }
      OnlyObjectsNameSecrets(build);
      builds := builds + [Entry(names[i], Section(build, OrNull(Get(service, "image")), OrNull(Get(service, "platform"))))];
    }
    assert names[..|names|] == names;
    return Some(Hmac(key, Canonical(Message(head, input.composeYaml, builds))));
  }

  lemma OnlyObjectsNameSecrets(build: Json)
    ensures Truthy(OrNull(Get(build, "secrets"))) ==> build.Obj?
  {
  }

  lemma NoBuilds(services: Json, names: seq<string>)
    ensures Builds(services, names[..0]) == []
  {
  }

  lemma BuildsGrow(services: Json, names: seq<string>, i: nat)
    requires i < |names|
    ensures Builds(services, names[..i + 1]) ==
            Builds(services, names[..i]) +
            (if SectionOf(services, names[i]).Some? then [Entry(names[i], SectionOf(services, names[i]).value)] else [])
  {
    assert names[..i + 1][..i] == names[..i];
  }

  // ---------------------------------------------------------------- what is read, and when it is known

  lemma {:induction false} OneValuePerKey(fields: seq<Field>, key: string, value: Json)
    requires DistinctKeys(fields)
    ensures Field(key, value) in fields <==> Lookup(fields, key) == Some(value)
  {
    if fields != [] {
      OneValuePerKey(fields[1..], key, value);
      assert fields == [fields[0]] + fields[1..];
      assert forall i | 0 <= i < |fields[1..]| :: fields[1..][i] == fields[i + 1];
    }
  }

  /** Of a service that has a build, the build, the image and the platform are read, the last two as null when
      they are missing. */
  lemma SectionIsRead(services: Json, name: string, fields: seq<Field>, section: Section)
    requires services.Obj? && DistinctKeys(services.fields) && Field(name, Obj(fields)) in services.fields && DistinctKeys(fields)
    ensures SectionOf(services, name) == Some(section) <==>
            && section.build != Null && Field("build", section.build) in fields
            && (if "image" in Keys(fields) then Field("image", section.image) in fields else section.image == Null)
            && (if "platform" in Keys(fields) then Field("platform", section.platform) in fields else section.platform == Null)
  {
    OneValuePerKey(services.fields, name, Obj(fields));
    OneValuePerKey(fields, "build", section.build);
    OneValuePerKey(fields, "image", section.image);
    OneValuePerKey(fields, "platform", section.platform);
    hide Lookup;
    assert forall key | Lookup(fields, key).Some? :: key in Keys(fields);
  }

  /** The hash can be worked out exactly for a commit of 40 or 64 hexadecimal digits and a configuration whose
      services are an object and whose builds name no secrets. */
  lemma HashIsKnownWhen(input: BuildInput, key: string)
    ensures InputsHash(input, key).Some? <==>
            && (|Trim(input.head)| == 40 || |Trim(input.head)| == 64)
            && (forall c | c in Trim(input.head) :: c in "0123456789abcdefABCDEF")
            && Services(input.resolved).Some?
            && !exists name, section | SectionOf(Services(input.resolved).value, name) == Some(section) ::
                  Get(section.build, "secrets").Some? && Truthy(Get(section.build, "secrets").value)
  {
    hide IsCommit, AnySecrets, SectionOf, Get, Truthy, Services, Trim, SortedNames, Builds, Message;
    CommitIsHex(Trim(input.head));
    if Services(input.resolved).Some? { SecretsAreAny(Services(input.resolved).value); }
  }

  lemma CommitIsHex(head: string)
    ensures IsCommit(head) <==> (|head| == 40 || |head| == 64) && forall c | c in head :: c in "0123456789abcdefABCDEF"
  {
    forall c | c in head ensures IsHex(c) <==> c in "0123456789abcdefABCDEF" { HexDigits(c); }
    hide IsHex;
  }

  lemma SecretsAreAny(services: Json)
    requires services.Obj?
    ensures AnySecrets(services, SortedNames(services.fields)) <==>
            exists name, section | SectionOf(services, name) == Some(section) ::
              Get(section.build, "secrets").Some? && Truthy(Get(section.build, "secrets").value)
  {
    hide SectionOf, Get, SortedNames;
    if name, section :| SectionOf(services, name) == Some(section) && NamesSecrets(section) {
      SecretsAreFound(services, name);
    }
  }

  lemma HexDigits(c: char)
    ensures IsHex(c) <==> c in "0123456789abcdefABCDEF"
  {
    var digits := "0123456789abcdefABCDEF";
    if '0' <= c <= '9' { assert digits[(c - '0') as int] == c; }
    if 'a' <= c <= 'f' { assert digits[10 + (c - 'a') as int] == c; }
    if 'A' <= c <= 'F' { assert digits[16 + (c - 'A') as int] == c; }
  }

  // ---------------------------------------------------------------- when two hashes agree

  ghost predicate SameSection(a: Section, b: Section) {
    && SameUpToKeyOrder(a.build, b.build) && SameUpToKeyOrder(a.image, b.image)
    && SameUpToKeyOrder(a.platform, b.platform)
  }

  /** The same services build, from sections that differ only in the order of keys. */
  ghost predicate SameSections(a: Json, b: Json) {
    forall name ::
      && SectionOf(a, name).Some? == SectionOf(b, name).Some?
      && (SectionOf(a, name).Some? ==> SameSection(SectionOf(a, name).value, SectionOf(b, name).value))
  }

  lemma SameFieldByField(fs: seq<Field>, gs: seq<Field>)
    requires DistinctKeys(fs) && |fs| == |gs| && forall i | 0 <= i < |fs| :: fs[i].key == gs[i].key
    ensures SameUpToKeyOrder(Obj(fs), Obj(gs)) <==> forall i | 0 <= i < |fs| :: SameUpToKeyOrder(fs[i].value, gs[i].value)
  {
    assert Keys(fs) == Keys(gs) by {
      forall i | 0 <= i < |fs| ensures fs[i].key in Keys(gs) && gs[i].key in Keys(fs) {
        assert fs[i] in fs && gs[i] in gs;
      }
    }
    if SameUpToKeyOrder(Obj(fs), Obj(gs)) {
      forall i | 0 <= i < |fs| ensures SameUpToKeyOrder(fs[i].value, gs[i].value) { assert fs[i] in fs && gs[i] in gs; }
    }
  }

  lemma SameTexts(a: string, b: string)
    ensures SameUpToKeyOrder(Str(a), Str(b)) <==> a == b
  {
  }

  lemma SameFourFields(fs: seq<Field>, gs: seq<Field>)
    requires |fs| == |gs| == 4 && DistinctKeys(fs) && forall i | 0 <= i < 4 :: fs[i].key == gs[i].key
    ensures SameUpToKeyOrder(Obj(fs), Obj(gs)) <==>
            && SameUpToKeyOrder(fs[0].value, gs[0].value) && SameUpToKeyOrder(fs[1].value, gs[1].value)
            && SameUpToKeyOrder(fs[2].value, gs[2].value) && SameUpToKeyOrder(fs[3].value, gs[3].value)
  {
    hide SameUpToKeyOrder;
    SameFieldByField(fs, gs);
  }

  lemma SameEntries(name: string, a: Section, other: string, b: Section)
    ensures SameUpToKeyOrder(Entry(name, a), Entry(other, b)) <==> name == other && SameSection(a, b)
  {
    hide SameUpToKeyOrder;
    SameFourFields(Entry(name, a).fields, Entry(other, b).fields);
    SameTexts(name, other);
  }

  lemma SameMessages(head: string, composeYaml: string, builds: seq<Json>, head': string, composeYaml': string, builds': seq<Json>)
    ensures SameUpToKeyOrder(Message(head, composeYaml, builds), Message(head', composeYaml', builds')) <==>
            head == head' && composeYaml == composeYaml' && SameUpToKeyOrder(Arr(builds), Arr(builds'))
  {
    assert SameUpToKeyOrder(Num(1.0), Num(1.0));
    hide SameUpToKeyOrder;
    SameFourFields(Message(head, composeYaml, builds).fields, Message(head', composeYaml', builds').fields);
    SameTexts(head, head');
    SameTexts(composeYaml, composeYaml');
  }

  predicate NamesAscend(names: seq<string>) {
    forall i, j | 0 <= i < j < |names| :: Lex(names[i], names[j])
  }

  lemma AscendingNamesAreUnique(a: seq<string>, b: seq<string>)
    requires NamesAscend(a) && NamesAscend(b) && forall name :: name in a <==> name in b
    ensures a == b
  {
    var fs := seq(|a|, i requires 0 <= i < |a| => Field(a[i], Null));
    var gs := seq(|b|, i requires 0 <= i < |b| => Field(b[i], Null));
    LexIsStrict();
    forall x ensures x in fs <==> x in gs {
      if x in fs {
        assert x.key in b;
        var i :| 0 <= i < |b| && b[i] == x.key;
        assert gs[i] == x;
      }
      if x in gs {
        assert x.key in a;
        var i :| 0 <= i < |a| && a[i] == x.key;
        assert fs[i] == x;
      }
    }
    AscendingIsUnique(fs, gs, Lex);
    forall i | 0 <= i < |a| ensures a[i] == b[i] { assert fs[i].key == gs[i].key; }
  }

  lemma {:induction false} BuildingAscends(services: Json, names: seq<string>)
    requires NamesAscend(names)
    ensures NamesAscend(Building(services, names))
  {
    if names != [] {
      var n := |names| - 1;
      BuildingAscends(services, names[..n]);
      var before := Building(services, names[..n]);
      forall i | 0 <= i < |before| ensures Lex(before[i], names[n]) {
        assert before[i] in names[..n];
        var k :| 0 <= k < n && names[k] == before[i];
      }
    }
  }

  lemma SortedNamesAscend(services: Json)
    requires WellFormed(services) && services.Obj?
    ensures NamesAscend(SortedNames(services.fields))
    ensures forall name :: SectionOf(services, name).Some? ==> name in SortedNames(services.fields)
  {
    LexIsStrict();
    SortedAscends(services.fields, Lex);
    forall name | SectionOf(services, name).Some? ensures name in SortedNames(services.fields) {
      var f := Field(name, Get(services, name).value);
      assert f in Sorted(services.fields, Lex);
      var i :| 0 <= i < |services.fields| && Sorted(services.fields, Lex)[i] == f;
      assert SortedNames(services.fields)[i] == name;
    }
  }

  lemma SameBuilds(a: Json, b: Json)
    requires WellFormed(a) && WellFormed(b) && a.Obj? && b.Obj?
    ensures SameUpToKeyOrder(Arr(Builds(a, SortedNames(a.fields))), Arr(Builds(b, SortedNames(b.fields)))) <==> SameSections(a, b)
  {
    SortedNamesAscend(a);
    SortedNamesAscend(b);
    var xs, ys := Building(a, SortedNames(a.fields)), Building(b, SortedNames(b.fields));
    var es, fs := Builds(a, SortedNames(a.fields)), Builds(b, SortedNames(b.fields));
    BuildingAscends(a, SortedNames(a.fields));
    BuildingAscends(b, SortedNames(b.fields));
    assert forall name :: name in xs <==> SectionOf(a, name).Some?;
    assert forall name :: name in ys <==> SectionOf(b, name).Some?;
    assert |es| == |xs| && forall i | 0 <= i < |xs| :: es[i] == Entry(xs[i], SectionOf(a, xs[i]).value);
    assert |fs| == |ys| && forall i | 0 <= i < |ys| :: fs[i] == Entry(ys[i], SectionOf(b, ys[i]).value);
    SameListsOfEntries(a, b, xs, ys, es, fs);
  }

  lemma SameItems(xs: seq<Json>, ys: seq<Json>)
    ensures SameUpToKeyOrder(Arr(xs), Arr(ys)) <==> |xs| == |ys| && forall i | 0 <= i < |xs| :: SameUpToKeyOrder(xs[i], ys[i])
  {
  }

  lemma SameListsOfEntries(a: Json, b: Json, xs: seq<string>, ys: seq<string>, es: seq<Json>, fs: seq<Json>)
    requires NamesAscend(xs) && NamesAscend(ys) && |es| == |xs| && |fs| == |ys|
    requires forall name :: name in xs <==> SectionOf(a, name).Some?
    requires forall name :: name in ys <==> SectionOf(b, name).Some?
    requires forall i | 0 <= i < |xs| :: es[i] == Entry(xs[i], SectionOf(a, xs[i]).value)
    requires forall i | 0 <= i < |ys| :: fs[i] == Entry(ys[i], SectionOf(b, ys[i]).value)
    ensures SameUpToKeyOrder(Arr(es), Arr(fs)) <==> SameSections(a, b)
  {
    hide SameUpToKeyOrder, SectionOf, Entry, SameSection, Lex, NamesAscend;
    SameItems(es, fs);
    forall i | 0 <= i < |xs| && i < |ys|
      ensures SameUpToKeyOrder(es[i], fs[i]) <==> xs[i] == ys[i] && SameSection(SectionOf(a, xs[i]).value, SectionOf(b, ys[i]).value)
    {
      SameEntries(xs[i], SectionOf(a, xs[i]).value, ys[i], SectionOf(b, ys[i]).value);
    }
    if SameUpToKeyOrder(Arr(es), Arr(fs)) {
      assert xs == ys;
      forall name
        ensures SectionOf(a, name).Some? == SectionOf(b, name).Some?
        ensures SectionOf(a, name).Some? ==> SameSection(SectionOf(a, name).value, SectionOf(b, name).value)
      {
        if name in xs { var i :| 0 <= i < |xs| && xs[i] == name; }
      }
    }
    if SameSections(a, b) {
      forall name ensures name in xs <==> name in ys {
        assert SectionOf(a, name).Some? == SectionOf(b, name).Some?;
      }
      AscendingNamesAreUnique(xs, ys);
      forall i | 0 <= i < |xs| ensures SameUpToKeyOrder(es[i], fs[i]) {
        assert xs[i] in xs;
      }
    }
  }

  lemma MessagesAreWellFormed(head: string, composeYaml: string, services: Json, names: seq<string>)
    requires WellFormed(services)
    ensures WellFormed(Message(head, composeYaml, Builds(services, names)))
  {
    forall e | e in Builds(services, names) ensures WellFormed(e) {
      var i :| 0 <= i < |Building(services, names)| && Builds(services, names)[i] == e;
      SectionsAreWellFormed(services, Building(services, names)[i]);
    }
  }

  lemma SectionsAreWellFormed(services: Json, name: string)
    requires WellFormed(services) && SectionOf(services, name).Some?
    ensures WellFormed(Entry(name, SectionOf(services, name).value))
  {
  }

  ghost predicate SameInputs(a: BuildInput, b: BuildInput)
    requires Services(a.resolved).Some? && Services(b.resolved).Some?
  {
    && Trim(a.head) == Trim(b.head) && a.composeYaml == b.composeYaml
    && SameSections(Services(a.resolved).value, Services(b.resolved).value)
  }

  /** Two hashes are the same exactly when the key, the commit, the compose text and every service's build,
      image and platform are, up to the order of keys. */
  lemma HashesAgree(a: BuildInput, b: BuildInput, key: string, other: string)
    requires InputsHash(a, key).Some? && InputsHash(b, other).Some?
    requires WellFormed(a.resolved.value) && WellFormed(b.resolved.value)
    ensures InputsHash(a, key) == InputsHash(b, other) <==> key == other && SameInputs(a, b)
  {
    var s, t := Services(a.resolved).value, Services(b.resolved).value;
    var xs, ys := SortedNames(s.fields), SortedNames(t.fields);
    var m := Message(Trim(a.head), a.composeYaml, Builds(s, xs));
    var n := Message(Trim(b.head), b.composeYaml, Builds(t, ys));
    ServicesAreWellFormed(a.resolved);
    ServicesAreWellFormed(b.resolved);
    assert InputsMessage(a) == Some(m) && InputsMessage(b) == Some(n);
    hide InputsMessage, Services, SameUpToKeyOrder, Canonical, WellFormed, Message, Builds, SortedNames, SameSections, Trim;
    MessagesAreWellFormed(Trim(a.head), a.composeYaml, s, xs);
    MessagesAreWellFormed(Trim(b.head), b.composeYaml, t, ys);
    CanonicalIdentifies(m, n);
    SameMessages(Trim(a.head), a.composeYaml, Builds(s, xs), Trim(b.head), b.composeYaml, Builds(t, ys));
    SameBuilds(s, t);
  }

  lemma ServicesAreWellFormed(resolved: Option<Json>)
    requires Services(resolved).Some? && WellFormed(resolved.value)
    ensures WellFormed(Services(resolved).value)
  {
  }

  // ---------------------------------------------------------------- the decision

  datatype Metadata = Metadata(composeInputsHash: Option<Digest>, composeImages: Option<map<string, string>>)

  datatype Baseline = Baseline(status: string, commitHash: Option<string>, buildMetadata: Option<Metadata>)

  datatype Decision = Build(reason: string) | Skip

  predicate Succeeded(status: string) { status == "running" || status == "stopped" }

  predicate SameImages(now: map<string, string>, before: map<string, string>) {
    |now| == |before| && forall name | name in now :: name in before && before[name] == now[name]
  }

  /** Comparing one way and the counts is comparing the maps. */
  lemma SameImagesIsEquality(now: map<string, string>, before: map<string, string>)
    ensures SameImages(now, before) <==> now == before
  {
    if SameImages(now, before) {
      assert now.Keys <= before.Keys && |now.Keys| == |before.Keys|;
      SubsetOfSameSize(now.Keys, before.Keys);
      assert forall name | name in before :: name in now.Keys;
    }
  }

  lemma SubsetOfSameSize(a: set<string>, b: set<string>)
    requires a <= b && |a| == |b|
    ensures a == b
  {
    assert |b - a| == |b| - |a|;
    assert b == a + (b - a);
  }

  function DecideComposeBuild(forceBuild: bool, commitHash: Option<string>, inputsHash: Option<Digest>,
                              images: Option<map<string, string>>, previous: Option<Baseline>): Decision
  {
    if forceBuild then Build("a forced build was requested")
    else if previous.None? then Build("no previous deploy of this stack")
    else if !Succeeded(previous.value.status) then Build("the previous deploy did not succeed")
    else if commitHash.None? || commitHash.value == "" || commitHash != previous.value.commitHash then Build("a new commit")
    else
      var before := previous.value.buildMetadata;
      if before.None? || before.value.composeInputsHash.None? || before.value.composeImages.None?
      then Build("the previous deploy recorded no build inputs")
      else if inputsHash.None? || inputsHash != before.value.composeInputsHash
      then Build("the compose file or build settings changed")
      else if images.None? || |images.value| == 0 then Build("an image of the stack is not on the server")
      else if !SameImages(images.value, before.value.composeImages.value)
      then Build("the images on the server are not the ones the previous deploy ran")
      else Skip
  }

  /** The build is skipped exactly when nobody forces it, there is a previous deploy that succeeded and recorded
      its inputs and images, and the commit, the inputs and the images, all of them known, are the same. */
  lemma SkipsExactlyWhen(forceBuild: bool, commitHash: Option<string>, inputsHash: Option<Digest>,
                         images: Option<map<string, string>>, previous: Option<Baseline>)
    ensures DecideComposeBuild(forceBuild, commitHash, inputsHash, images, previous) == Skip <==>
            && !forceBuild
            && previous.Some? && (previous.value.status == "running" || previous.value.status == "stopped")
            && commitHash.Some? && commitHash.value != "" && previous.value.commitHash == commitHash
            && inputsHash.Some? && images.Some? && images.value != map[]
            && previous.value.buildMetadata == Some(Metadata(inputsHash, images))
  {
    hide SameImages;
    assert images.Some? ==> (|images.value| == 0 <==> images.value == map[]);
    if previous.Some? && previous.value.buildMetadata.Some? {
      var then' := previous.value.buildMetadata.value.composeImages;
      if images.Some? && then'.Some? { SameImagesIsEquality(images.value, then'.value); }
    }
  }

  /** Against a deploy that recorded the hash of its inputs and its images, the build is skipped exactly when
      nobody forces it, that deploy succeeded, and the commit, everything a build reads and the images on the
      server are what they were then. */
  lemma SkipsExactlyWhenUnchanged(forceBuild: bool, commitHash: Option<string>, now: BuildInput, then': BuildInput, key: string,
                                  images: Option<map<string, string>>, previous: Baseline, imagesThen: map<string, string>)
    requires now.resolved.Some? ==> WellFormed(now.resolved.value)
    requires then'.resolved.Some? ==> WellFormed(then'.resolved.value)
    requires previous.buildMetadata == Some(Metadata(InputsHash(then', key), Some(imagesThen)))
    ensures DecideComposeBuild(forceBuild, commitHash, InputsHash(now, key), images, Some(previous)) == Skip <==>
            && !forceBuild && (previous.status == "running" || previous.status == "stopped")
            && commitHash.Some? && commitHash.value != "" && previous.commitHash == commitHash
            && InputsHash(now, key).Some? && InputsHash(then', key).Some? && SameInputs(now, then')
            && images == Some(imagesThen) && imagesThen != map[]
  {
    hide *;
    SkipsExactlyWhen(forceBuild, commitHash, InputsHash(now, key), images, Some(previous));
    if InputsHash(now, key).Some? && InputsHash(then', key).Some? {
      HashesAgree(now, then', key, key);
    }
  }

  lemma SecretsAreFound(services: Json, name: string)
    requires services.Obj? && SectionOf(services, name).Some? && NamesSecrets(SectionOf(services, name).value)
    ensures AnySecrets(services, SortedNames(services.fields))
  {
    var f := Field(name, Get(services, name).value);
    var sorted := Sorted(services.fields, Lex);
    hide SectionOf, NamesSecrets, Get, Sorted, Lex;
    var i :| 0 <= i < |sorted| && sorted[i] == f;
    assert SortedNames(services.fields)[i] == name;
  }

  /** A configuration whose build names secrets has no hash, so its build always runs. */
  lemma SecretsAlwaysBuild(forceBuild: bool, commitHash: Option<string>, now: BuildInput, key: string, name: string,
                           images: Option<map<string, string>>, previous: Option<Baseline>)
    requires Services(now.resolved).Some?
    requires var section := SectionOf(Services(now.resolved).value, name); section.Some? && NamesSecrets(section.value)
    ensures DecideComposeBuild(forceBuild, commitHash, InputsHash(now, key), images, previous).Build?
  {
    hide *;
    SecretsAreFound(Services(now.resolved).value, name);
    SecretsHaveNoHash(now, key);
    NoHashBuilds(forceBuild, commitHash, images, previous);
  }

  lemma SecretsHaveNoHash(input: BuildInput, key: string)
    requires Services(input.resolved).Some?
    requires AnySecrets(Services(input.resolved).value, SortedNames(Services(input.resolved).value.fields))
    ensures InputsHash(input, key) == None
  {
  }

  lemma NoHashBuilds(forceBuild: bool, commitHash: Option<string>, images: Option<map<string, string>>, previous: Option<Baseline>)
    ensures DecideComposeBuild(forceBuild, commitHash, None, images, previous).Build?
  {
  }
}