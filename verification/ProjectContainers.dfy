/** Which container names belong to a project (the string part of src/lib/project-containers.ts), and which
    two slugs can name the same container. */
module ProjectContainers {
  import opened Wrappers
  import opened Text
  import RunSpec

  // ---------------------------------------------------------------- regular expressions

  datatype Pattern =
    | Lit(text: string)
    | Digits
    | Cat(first: Pattern, second: Pattern)
    | Alt(left: Pattern, right: Pattern)
    | Opt(inner: Pattern)

  /** The whole of `s` is in the language of the pattern (the sources anchor theirs at both ends). */
  ghost predicate Matches(p: Pattern, s: string) {
    match p
    case Lit(text) => s == text
    case Digits => AllDigits(s)
    case Cat(first, second) => exists k | 0 <= k <= |s| :: Matches(first, s[..k]) && Matches(second, s[k..])
    case Alt(left, right) => Matches(left, s) || Matches(right, s)
    case Opt(inner) => s == "" || Matches(inner, s)
  }

  predicate SafeSlug(slug: string) {
    slug != "" && forall i | 0 <= i < |slug| :: 'a' <= slug[i] <= 'z' || IsDigit(slug[i]) || slug[i] == '-'
  }

  const PULL_REQUEST := Cat(Lit("-pr-"), Digits)
  const STAGE := Opt(Alt(Lit("-staging"), PULL_REQUEST))
  const COLOUR := Alt(Lit("-blue"), Lit("-green"))
  const REPLICA := Cat(Lit("-"), Digits)
  const SLOT := Opt(Cat(COLOUR, Opt(REPLICA)))

  /** `^pushify-<slug>(-staging|-pr-[0-9]+)?(-(blue|green)(-[0-9]+)?)?$` */
  function AppPattern(slug: string): Pattern {
    Cat(Lit("pushify-" + slug), Cat(STAGE, SLOT))
  }

  function AppContainerPattern(slug: string): Result<Pattern, string> {
    if SafeSlug(slug) then Success(AppPattern(slug)) else Failure("Unsafe project slug: " + slug)
  }

  /** Only small letters, digits and dashes make a slug; anything else is refused. */
  lemma UnsafeSlugsAreRefused(slug: string)
    ensures AppContainerPattern(slug).Success? <==>
            slug != "" && forall c | c in slug :: ('a' <= c <= 'z') || ('0' <= c <= '9') || c == '-'
  {
    assert forall i | 0 <= i < |slug| :: slug[i] in slug;
  }

  /** The alternatives for the workers whose names are plain; none when there is no such worker. */
  function WorkerNames(workerNames: seq<string>): seq<string> {
    if workerNames == [] then []
    else (if SafeSlug(workerNames[0]) then [workerNames[0]] else []) + WorkerNames(workerNames[1..])
  }

  function AnyOf(names: seq<string>): Pattern
    requires names != []
  {
    if |names| == 1 then Lit(names[0]) else Alt(Lit(names[0]), AnyOf(names[1..]))
  }

  function ProjectContainerPattern(slug: string, workerNames: seq<string>): Result<Pattern, string> {
    match AppContainerPattern(slug)
    case Failure(error) => Failure(error)
    case Success(app) =>
      var own := Alt(app, Alt(Cat(Lit("pushify-preview-" + slug + "-pr-"), Digits), Lit("pushify-" + slug + "-db")));
      var workers := WorkerNames(workerNames);
      Success(if workers == [] then own
              else Alt(own, Cat(Lit("pushify-" + slug), Cat(Opt(Lit("-staging")), Cat(Lit("-worker-"), AnyOf(workers))))))
  }

  ghost predicate Belongs(slug: string, name: string) {
    match ProjectContainerPattern(slug, [])
    case Failure(_) => false
    case Success(p) => Matches(p, name)
  }

  /** `/^-(staging|db|pr-[0-9]+|worker-.+)$/` */
  predicate ConflictSuffix(x: string) {
    || x == "-staging" || x == "-db"
    || ("-pr-" <= x && AllDigits(x[4..]))
    || ("-worker-" <= x && |x| > 8 && forall c | c in x[8..] :: c !in {'\n', '\r', '\U{2028}', '\U{2029}'})
  }

  predicate SlugsConflict(a: string, b: string) {
    || a == b
    || (a + "-" <= b && ConflictSuffix(b[|a|..]))
    || (b + "-" <= a && ConflictSuffix(a[|b|..]))
  }

  // ---------------------------------------------------------------- the parts of a name

  type Number = s: string | AllDigits(s) witness "0"

  datatype Stage = NoStage | Staging | PullRequest(number: Number) {
    function Text(): string {
      match this
      case NoStage => ""
      case Staging => "-staging"
      case PullRequest(number) => "-pr" + "-" + number
    }
  }

  datatype Colour = Blue | Green {
    function Text(): string { if this == Blue then "-blue" else "-green" }
  }

  datatype Slot = NoSlot | Primary(colour: Colour) | Replica(colour: Colour, number: Number) {
    function Text(): string {
      match this
      case NoSlot => ""
      case Primary(colour) => colour.Text()
      case Replica(colour, number) => colour.Text() + "-" + number
    }
  }

  /** What follows `pushify-` in a name of the project: a container of the app, a preview or a database. */
  datatype Part = App(stage: Stage, slot: Slot) | Preview(number: Number) | Database {
    function Text(slug: string): string {
      match this
      case App(stage, slot) => slug + (stage.Text() + slot.Text())
      case Preview(number) => "preview-" + slug + "-pr" + "-" + number
      case Database => slug + "-db"
    }
  }

  lemma CatOf(p: Pattern, q: Pattern, s: string, t: string)
    requires Matches(p, s) && Matches(q, t)
    ensures Matches(Cat(p, q), s + t)
  {
    assert (s + t)[..|s|] == s && (s + t)[|s|..] == t;
  }

  lemma CatSplits(p: Pattern, q: Pattern, s: string) returns (t: string, u: string)
    requires Matches(Cat(p, q), s)
    ensures s == t + u && Matches(p, t) && Matches(q, u)
  {
    var k :| 0 <= k <= |s| && Matches(p, s[..k]) && Matches(q, s[k..]);
    t, u := s[..k], s[k..];
  }

  lemma OptMatches(p: Pattern, s: string)
    ensures Matches(Opt(p), s) <==> s == "" || Matches(p, s)
  {
  }

  lemma AltMatches(p: Pattern, q: Pattern, s: string)
    ensures Matches(Alt(p, q), s) <==> Matches(p, s) || Matches(q, s)
  {
  }

  lemma LitMatches(text: string, s: string)
    ensures Matches(Lit(text), s) <==> s == text
  {
  }

  /** A literal and then digits. */
  lemma NumberOf(text: string, s: string) returns (number: Number)
    requires Matches(Cat(Lit(text), Digits), s)
    ensures s == text + number
  {
    var t, u := CatSplits(Lit(text), Digits, s);
    number := u;
  }

  lemma NumberText(text: string, number: Number)
    ensures Matches(Cat(Lit(text), Digits), text + number)
  {
    CatOf(Lit(text), Digits, text, number);
  }

  lemma StageOf(s: string) returns (stage: Stage)
    requires Matches(STAGE, s)
    ensures stage.Text() == s
  {
    hide Matches;
    OptMatches(Alt(Lit("-staging"), PULL_REQUEST), s);
    AltMatches(Lit("-staging"), PULL_REQUEST, s);
    LitMatches("-staging", s);
    if s == "" {
      stage := NoStage;
    } else if s == "-staging" {
      stage := Staging;
    } else {
      var number := NumberOf("-pr-", s);
      stage := PullRequest(number);
    }
  }

  lemma StageText(stage: Stage)
    ensures Matches(STAGE, stage.Text())
  {
    hide Matches;
    var s := stage.Text();
    OptMatches(Alt(Lit("-staging"), PULL_REQUEST), s);
    AltMatches(Lit("-staging"), PULL_REQUEST, s);
    LitMatches("-staging", s);
    if stage.PullRequest? {
      NumberText("-pr-", stage.number);
      assert s == "-pr-" + stage.number;
    }
  }

  lemma ColourOf(s: string) returns (c: Colour)
    requires Matches(COLOUR, s)
    ensures c.Text() == s
  {
    hide Matches;
    AltMatches(Lit("-blue"), Lit("-green"), s);
    LitMatches("-blue", s);
    LitMatches("-green", s);
    c := if s == "-blue" then Blue else Green;
  }

  lemma ColourText(c: Colour)
    ensures Matches(COLOUR, c.Text())
  {
    hide Matches;
    AltMatches(Lit("-blue"), Lit("-green"), c.Text());
    LitMatches("-blue", c.Text());
    LitMatches("-green", c.Text());
  }

  lemma SlotOf(s: string) returns (slot: Slot)
    requires Matches(SLOT, s)
    ensures slot.Text() == s
  {
    hide Matches, Colour.Text;
    OptMatches(Cat(COLOUR, Opt(REPLICA)), s);
    if s == "" {
      slot := NoSlot;
    } else {
      var t, u := CatSplits(COLOUR, Opt(REPLICA), s);
      var c := ColourOf(t);
      OptMatches(REPLICA, u);
      if u == "" {
        slot := Primary(c);
      } else {
        var number := NumberOf("-", u);
        slot := Replica(c, number);
      }
    }
  }

  lemma SlotText(slot: Slot)
    ensures Matches(SLOT, slot.Text())
  {
    hide Matches, Colour.Text;
    OptMatches(Cat(COLOUR, Opt(REPLICA)), slot.Text());
    if slot != NoSlot {
      var u := if slot.Primary? then "" else "-" + slot.number;
      if slot.Replica? { NumberText("-", slot.number); }
      OptMatches(REPLICA, u);
      ColourText(slot.colour);
      CatOf(COLOUR, Opt(REPLICA), slot.colour.Text(), u);
      assert slot.Text() == slot.colour.Text() + u;
    }
  }

  lemma AppOf(slug: string, name: string) returns (part: Part)
    requires Matches(AppPattern(slug), name)
    ensures name == "pushify-" + part.Text(slug)
  {
    hide Matches, Stage.Text, Slot.Text;
    var t, u := CatSplits(Lit("pushify-" + slug), Cat(STAGE, SLOT), name);
    LitMatches("pushify-" + slug, t);
    var v, w := CatSplits(STAGE, SLOT, u);
    var stage := StageOf(v);
    var slot := SlotOf(w);
    part := App(stage, slot);
    Regroup("pushify-", slug, v + w);
  }

  lemma Regroup(a: string, b: string, c: string)
    ensures a + b + c == a + (b + c)
  {
  }

  lemma AppText(slug: string, stage: Stage, slot: Slot)
    ensures Matches(AppPattern(slug), "pushify-" + App(stage, slot).Text(slug))
  {
    hide Matches, Stage.Text, Slot.Text;
    StageText(stage);
    SlotText(slot);
    LitMatches("pushify-" + slug, "pushify-" + slug);
    CatOf(STAGE, SLOT, stage.Text(), slot.Text());
    CatOf(Lit("pushify-" + slug), Cat(STAGE, SLOT), "pushify-" + slug, stage.Text() + slot.Text());
    Regroup("pushify-", slug, stage.Text() + slot.Text());
  }

  lemma BelongsTo(slug: string, name: string)
    requires SafeSlug(slug)
    ensures Belongs(slug, name) <==>
            || Matches(AppPattern(slug), name)
            || Matches(Cat(Lit("pushify-preview-" + slug + "-pr-"), Digits), name)
            || name == "pushify-" + slug + "-db"
  {
    hide Matches, SafeSlug;
    var preview, database := Cat(Lit("pushify-preview-" + slug + "-pr-"), Digits), Lit("pushify-" + slug + "-db");
    AltMatches(AppPattern(slug), Alt(preview, database), name);
    AltMatches(preview, database, name);
    LitMatches("pushify-" + slug + "-db", name);
  }

  lemma PreviewName(slug: string, number: Number)
    ensures "pushify-" + Preview(number).Text(slug) == "pushify-preview-" + slug + "-pr-" + number
  {
  }

  lemma PartOf(slug: string, name: string) returns (part: Part)
    requires Belongs(slug, name)
    ensures name == "pushify-" + part.Text(slug)
  {
    hide Matches, AppPattern;
    BelongsTo(slug, name);
    if Matches(AppPattern(slug), name) {
      part := AppOf(slug, name);
    } else if name == "pushify-" + slug + "-db" {
      part := Database;
      Regroup("pushify-", slug, "-db");
    } else {
      var number := NumberOf("pushify-preview-" + slug + "-pr-", name);
      part := Preview(number);
      PreviewName(slug, number);
    }
  }

  lemma PartText(slug: string, part: Part)
    requires SafeSlug(slug)
    ensures Belongs(slug, "pushify-" + part.Text(slug))
  {
    hide Matches, AppPattern, SafeSlug, Stage.Text, Slot.Text;
    BelongsTo(slug, "pushify-" + part.Text(slug));
    match part
    case App(stage, slot) => AppText(slug, stage, slot);
    case Preview(number) =>
      PreviewName(slug, number);
      NumberText("pushify-preview-" + slug + "-pr-", number);
    case Database => Regroup("pushify-", slug, "-db");
  }

  /** The pattern of a project without workers describes exactly the names made of `pushify-` and a part. */
  lemma NamesOfAProject(slug: string, name: string)
    requires SafeSlug(slug)
    ensures Belongs(slug, name) <==> exists part: Part :: name == "pushify-" + part.Text(slug)
  {
    hide Belongs, SafeSlug, Part.Text;
    if Belongs(slug, name) {
      var part := PartOf(slug, name);
    }
    if exists part: Part :: name == "pushify-" + part.Text(slug) {
      var part: Part :| name == "pushify-" + part.Text(slug);
      PartText(slug, part);
    }
  }

  // ---------------------------------------------------------------- two projects, one name

  ghost predicate SharedName(a: string, b: string) {
    exists name :: Belongs(a, name) && Belongs(b, name)
  }

  /** `b` is `a` with what the deployer puts after a slug: a stage, a slot, or `-db`. */
  ghost predicate ExtendsSlug(a: string, b: string) {
    b == a + "-db" || exists stage: Stage, slot: Slot :: b == a + (stage.Text() + slot.Text())
  }

  /** `b` is `a` with what the deployer puts around a slug for a preview, or only before it. */
  ghost predicate PreviewsSlug(a: string, b: string) {
    b == "preview-" + a || exists number: Number :: b == "preview-" + a + "-pr" + "-" + number
  }

  predicate EndsWith(s: string, c: char) { s != "" && s[|s| - 1] == c }

  predicate EndsInDigit(s: string) { s != "" && IsDigit(s[|s| - 1]) }

  lemma SameNumber(x: string, d: Number, y: string, e: Number)
    requires x + "-" + d == y + "-" + e
    ensures x == y && d == e
  {
    var s := x + "-" + d;
    assert s[|x|] == '-' && s[|y|] == '-';
    assert forall i | |x| < i < |s| :: s[i] == d[i - |x| - 1];
    assert forall i | |y| < i < |s| :: s[i] == e[i - |y| - 1];
    assert |x| == |y|;
    assert x == s[..|x|] && d == s[|x| + 1..];
    assert y == s[..|y|] && e == s[|y| + 1..];
  }

  lemma StageEnds(stage: Stage)
    ensures match stage
            case NoStage => stage.Text() == ""
            case Staging => |stage.Text()| == 8 && EndsWith(stage.Text(), 'g')
            case PullRequest(_) => EndsInDigit(stage.Text())
  {
  }

  lemma SlotEnds(slot: Slot)
    ensures match slot
            case NoSlot => slot.Text() == ""
            case Primary(c) => EndsWith(slot.Text(), if c == Blue then 'e' else 'n')
            case Replica(_, _) => EndsInDigit(slot.Text())
  {
  }

  lemma LastOf(s: string, t: string)
    ensures t != "" ==> s + t != "" && (s + t)[|s + t| - 1] == t[|t| - 1]
    ensures t == "" ==> s + t == s
  {
  }

  lemma Cancel(s: string, t: string, u: string)
    requires s + u == t + u
    ensures s == t
  {
    assert |s| == |t|;
    assert s == (s + u)[..|s|] && t == (t + u)[..|t|];
  }

  /** A stage has no proper ending that is a stage. */
  lemma StageCancels(x: string, inner: Stage, outer: Stage)
    requires x + inner.Text() == outer.Text()
    ensures x == "" || (inner == NoStage && x == outer.Text())
  {
    hide Stage.Text;
    StageEnds(inner);
    StageEnds(outer);
    LastOf(x, inner.Text());
    if inner.Staging? && outer.Staging? {
      assert |x| == 0;
    }
    if inner.PullRequest? && outer.PullRequest? {
      PullRequestText(inner.number);
      PullRequestText(outer.number);
      Regroup(x, "-pr", "-" + inner.number);
      Regroup(x + "-pr", "-", inner.number);
      Regroup("-pr", "-", inner.number);
      SameNumber(x + "-pr", inner.number, "-pr", outer.number);
      assert |x| == 0;
    }
  }

  lemma PullRequestText(number: Number)
    ensures PullRequest(number).Text() == "-pr" + "-" + number
  {
  }

  /** A slot at the end of a name is the slot of the name. */
  lemma PrimaryCancels(x: string, inner: Stage, colour: Colour, outer: Stage, slot: Slot)
    requires x + inner.Text() + colour.Text() == outer.Text() + slot.Text()
    ensures slot == Primary(colour) && x + inner.Text() == outer.Text()
  {
    hide Stage.Text, Slot.Text, Colour.Text;
    PrimaryText(colour);
    SlotEnds(Primary(colour));
    SlotEnds(slot);
    StageEnds(outer);
    LastOf(x + inner.Text(), colour.Text());
    LastOf(outer.Text(), slot.Text());
    assert slot.Primary?;
    assert slot.colour == colour;
    Cancel(x + inner.Text(), outer.Text(), colour.Text());
  }

  lemma PrimaryText(colour: Colour)
    ensures Primary(colour).Text() == colour.Text() && 5 <= |colour.Text()| <= 6
    ensures EndsWith(colour.Text(), 'e') || EndsWith(colour.Text(), 'n')
  {
  }

  lemma ReplicaCancels(x: string, inner: Stage, colour: Colour, number: Number, outer: Stage, slot: Slot)
    requires x + inner.Text() + colour.Text() + "-" + number == outer.Text() + slot.Text()
    ensures slot == Replica(colour, number) && x + inner.Text() == outer.Text()
  {
    hide Stage.Text, Colour.Text;
    var s := x + inner.Text() + colour.Text();
    SlotEnds(slot);
    StageEnds(outer);
    LastOf(s + "-", number);
    LastOf(outer.Text(), slot.Text());
    PrimaryText(colour);
    match slot
    case NoSlot =>
      PullRequestText(outer.number);
      SameNumber(s, number, "-pr", outer.number);
    case Primary(_) =>
    case Replica(c, n) =>
      Regroup(outer.Text(), c.Text(), "-" + n);
      Regroup(outer.Text() + c.Text(), "-", n);
      Regroup(c.Text(), "-", n);
      SameNumber(s, number, outer.Text() + c.Text(), n);
      PrimaryCancels(x, inner, colour, outer, Primary(c));
  }

  /** A pull request at the end of a name is the stage of the name. */
  lemma PullRequestCancels(x: string, number: Number, outer: Stage, slot: Slot)
    requires x + "-pr" + "-" + number == outer.Text() + slot.Text()
    ensures slot == NoSlot && x == "" && outer == PullRequest(number)
  {
    hide Stage.Text, Colour.Text;
    SlotEnds(slot);
    StageEnds(outer);
    LastOf(x + "-pr" + "-", number);
    LastOf(outer.Text(), slot.Text());
    match slot
    case NoSlot =>
      PullRequestText(outer.number);
      SameNumber(x + "-pr", number, "-pr", outer.number);
      assert |x| == 0;
    case Primary(_) =>
    case Replica(c, n) =>
      Regroup(outer.Text(), c.Text(), "-" + n);
      Regroup(outer.Text() + c.Text(), "-", n);
      Regroup(c.Text(), "-", n);
      SameNumber(x + "-pr", number, outer.Text() + c.Text(), n);
      PrimaryText(c);
      LastOf(outer.Text(), c.Text());
      LastOf(x, "-pr");
  }

  /** When two apps share a name, the longer slug is the shorter one with a stage and a slot. */
  lemma AppsShare(a: string, stage: Stage, slot: Slot, b: string, stage': Stage, slot': Slot)
    requires App(stage, slot).Text(a) == App(stage', slot').Text(b) && |a| <= |b|
    ensures a == b || ExtendsSlug(a, b)
  {
    hide Stage.Text, Slot.Text;
    var u, u' := stage.Text() + slot.Text(), stage'.Text() + slot'.Text();
    var x := b[|a|..];
    assert b == a + x by {
      assert a == (a + u)[..|a|] == (b + u')[..|a|];
    }
    Regroup(a, x, u');
    assert x + u' == (a + (x + u'))[|a|..];
    assert u == (a + u)[|a|..];
    assert x + u' == u;
    SuffixOfSuffix(x, stage', slot', stage, slot);
  }

  lemma SuffixOfSuffix(x: string, inner: Stage, slot': Slot, outer: Stage, slot: Slot)
    requires x + (inner.Text() + slot'.Text()) == outer.Text() + slot.Text()
    ensures exists s: Stage, c: Slot :: x == s.Text() + c.Text()
  {
    hide Stage.Text, Colour.Text;
    Regroup(x, inner.Text(), slot'.Text());
    StageEnds(NoStage);
    match slot'
    case Primary(c) =>
      PrimaryCancels(x, inner, c, outer, slot);
      StageCancels(x, inner, outer);
      Witness(x, if x == "" then NoStage else outer, NoSlot);
    case Replica(c, n) =>
      Regroup(x + inner.Text(), c.Text(), "-" + n);
      Regroup(x + inner.Text() + c.Text(), "-", n);
      Regroup(c.Text(), "-", n);
      ReplicaCancels(x, inner, c, n, outer, slot);
      StageCancels(x, inner, outer);
      Witness(x, if x == "" then NoStage else outer, NoSlot);
    case NoSlot =>
      match inner
      case NoStage => Witness(x, outer, slot);
      case Staging =>
        SlotEnds(slot);
        StageEnds(outer);
        StageEnds(inner);
        LastOf(x, inner.Text());
        LastOf(outer.Text(), slot.Text());
        assert slot == NoSlot && outer == Staging && |x| == 0;
        Witness(x, NoStage, NoSlot);
      case PullRequest(n) =>
        PullRequestText(n);
        Regroup(x, "-pr", "-" + n);
        Regroup(x + "-pr", "-", n);
        Regroup("-pr", "-", n);
        PullRequestCancels(x, n, outer, slot);
        Witness(x, NoStage, NoSlot);
  }

  lemma Witness(x: string, s: Stage, c: Slot)
    requires x == s.Text() + c.Text()
    ensures exists s: Stage, c: Slot :: x == s.Text() + c.Text()
  {
  }

  lemma AppAndDatabaseShare(a: string, stage: Stage, slot: Slot, b: string)
    requires App(stage, slot).Text(a) == Database.Text(b)
    ensures ExtendsSlug(b, a)
  {
    hide Stage.Text, Slot.Text;
    StageEnds(stage);
    SlotEnds(slot);
    Regroup(a, stage.Text(), slot.Text());
    LastOf(a + stage.Text(), slot.Text());
    LastOf(a, stage.Text());
    LastOf(b, "-db");
    assert slot == NoSlot && stage == NoStage;
    assert a == b + "-db";
  }

  lemma AppAndPreviewShare(a: string, stage: Stage, slot: Slot, b: string, number: Number)
    requires App(stage, slot).Text(a) == Preview(number).Text(b)
    ensures PreviewsSlug(b, a)
  {
    hide Stage.Text, Colour.Text;
    var y := "preview-" + b + "-pr";
    StageEnds(stage);
    SlotEnds(slot);
    Regroup(a, stage.Text(), slot.Text());
    LastOf(a + stage.Text(), slot.Text());
    LastOf(a, stage.Text());
    LastOf(y + "-", number);
    match slot
    case Primary(_) =>
    case Replica(c, n) =>
      Regroup(a + stage.Text(), c.Text(), "-" + n);
      Regroup(a + stage.Text() + c.Text(), "-", n);
      Regroup(c.Text(), "-", n);
      SameNumber(a + stage.Text() + c.Text(), n, y, number);
      PrimaryText(c);
      LastOf(a + stage.Text(), c.Text());
      LastOf("preview-" + b, "-pr");
    case NoSlot =>
      if stage.PullRequest? {
        PullRequestText(stage.number);
        Regroup(a, "-pr", "-" + stage.number);
        Regroup(a + "-pr", "-", stage.number);
        Regroup("-pr", "-", stage.number);
        SameNumber(a + "-pr", stage.number, y, number);
        Cancel(a, "preview-" + b, "-pr");
      } else {
        assert stage == NoStage;
        assert a == y + "-" + number;
      }
  }

  lemma PreviewsShare(a: string, number: Number, b: string, number': Number)
    requires Preview(number).Text(a) == Preview(number').Text(b)
    ensures a == b
  {
    SameNumber("preview-" + a + "-pr", number, "preview-" + b + "-pr", number');
    Cancel("preview-" + a, "preview-" + b, "-pr");
    assert a == ("preview-" + a)[8..] && b == ("preview-" + b)[8..];
  }

  lemma PartsShare(a: string, part: Part, b: string, part': Part)
    requires part.Text(a) == part'.Text(b)
    ensures a == b || ExtendsSlug(a, b) || ExtendsSlug(b, a) || PreviewsSlug(a, b) || PreviewsSlug(b, a)
  {
    match (part, part')
    case (App(s, c), App(s', c')) =>
      if |a| <= |b| { AppsShare(a, s, c, b, s', c'); } else { AppsShare(b, s', c', a, s, c); }
    case (App(s, c), Database) => AppAndDatabaseShare(a, s, c, b);
    case (Database, App(s, c)) => AppAndDatabaseShare(b, s, c, a);
    case (App(s, c), Preview(n)) => AppAndPreviewShare(a, s, c, b, n);
    case (Preview(n), App(s, c)) => AppAndPreviewShare(b, s, c, a, n);
    case (Preview(n), Preview(n')) => PreviewsShare(a, n, b, n');
    case (Preview(n), Database) =>
      LastOf("preview-" + a + "-pr" + "-", n);
      LastOf(b, "-db");
    case (Database, Preview(n)) =>
      LastOf("preview-" + b + "-pr" + "-", n);
      LastOf(a, "-db");
    case (Database, Database) => Cancel(a, b, "-db");
  }

  lemma SharedBy(a: string, part: Part, b: string, part': Part)
    requires SafeSlug(a) && SafeSlug(b) && part.Text(a) == part'.Text(b)
    ensures SharedName(a, b)
  {
    hide SafeSlug, Belongs, Part.Text;
    PartText(a, part);
    PartText(b, part');
    assert Belongs(a, "pushify-" + part.Text(a)) && Belongs(b, "pushify-" + part.Text(a));
  }

  lemma ExtendedSlugShares(a: string, b: string)
    requires SafeSlug(a) && SafeSlug(b) && ExtendsSlug(a, b)
    ensures SharedName(a, b)
  {
    hide SafeSlug, SharedName, Stage.Text, Slot.Text;
    StageEnds(NoStage);
    SlotEnds(NoSlot);
    assert App(NoStage, NoSlot).Text(b) == b;
    if b == a + "-db" {
      SharedBy(a, Database, b, App(NoStage, NoSlot));
    } else {
      var stage: Stage, slot: Slot :| b == a + (stage.Text() + slot.Text());
      SharedBy(a, App(stage, slot), b, App(NoStage, NoSlot));
    }
  }

  lemma PreviewedSlugShares(a: string, b: string)
    requires SafeSlug(a) && SafeSlug(b) && PreviewsSlug(a, b)
    ensures SharedName(a, b)
  {
    hide SafeSlug, SharedName, Stage.Text, Slot.Text;
    StageEnds(NoStage);
    SlotEnds(NoSlot);
    if b == "preview-" + a {
      PullRequestText("1");
      var stage := PullRequest("1");
      assert App(stage, NoSlot).Text(b) == b + stage.Text();
      Regroup(b, "-pr", "-" + "1");
      Regroup(b + "-pr", "-", "1");
      Regroup("-pr", "-", "1");
      SharedBy(a, Preview("1"), b, App(stage, NoSlot));
    } else {
      var number: Number :| b == "preview-" + a + "-pr" + "-" + number;
      assert App(NoStage, NoSlot).Text(b) == b;
      SharedBy(a, Preview(number), b, App(NoStage, NoSlot));
    }
  }

  /** Two projects without workers can have a container of the same name exactly when their slugs are the
      same, or one is the other with what the deployer puts after or around it. */
  lemma WhenNamesAreShared(a: string, b: string)
    requires SafeSlug(a) && SafeSlug(b)
    ensures SharedName(a, b) <==>
            a == b || ExtendsSlug(a, b) || ExtendsSlug(b, a) || PreviewsSlug(a, b) || PreviewsSlug(b, a)
  {
    hide SafeSlug, ExtendsSlug, PreviewsSlug, Belongs, Part.Text;
    if SharedName(a, b) {
      var name :| Belongs(a, name) && Belongs(b, name);
      var part := PartOf(a, name);
      var part' := PartOf(b, name);
      assert part.Text(a) == name[8..] && part'.Text(b) == name[8..];
      PartsShare(a, part, b, part');
    }
    if a == b { SharedBy(a, Database, b, Database); }
    if ExtendsSlug(a, b) { ExtendedSlugShares(a, b); }
    if ExtendsSlug(b, a) { ExtendedSlugShares(b, a); }
    if PreviewsSlug(a, b) { PreviewedSlugShares(a, b); }
    if PreviewsSlug(b, a) { PreviewedSlugShares(b, a); }
  }

  // ---------------------------------------------------------------- what slugsConflict sees

  /** `b` is `a` with a slot, behind a stage or not: `shop-blue` to `shop`. */
  ghost predicate AddsSlot(a: string, b: string) {
    exists stage: Stage, slot: Slot | slot != NoSlot :: b == a + (stage.Text() + slot.Text())
  }

  lemma ConflictOfSuffix(a: string, x: string)
    requires x != "" && x[0] == '-'
    ensures SlugsConflict(a, a + x) <==> ConflictSuffix(x)
  {
    hide ConflictSuffix;
    var b := a + x;
    assert b[|a|..] == x;
    assert a + "-" <= b by {
      assert b[..|a| + 1] == a + "-";
    }
    assert !(b + "-" <= a) && a != b;
  }

  lemma SlotIsNoConflict(stage: Stage, slot: Slot)
    requires slot != NoSlot
    ensures var x := stage.Text() + slot.Text(); x != "" && x[0] == '-' && !ConflictSuffix(x)
  {
    hide Stage.Text, Slot.Text;
    var x := stage.Text() + slot.Text();
    SecondLetter(stage, slot);
    SlotEnds(slot);
    LastOf(stage.Text(), slot.Text());
    if "-pr-" <= x && AllDigits(x[4..]) {
      assert EndsInDigit(x);
      var number := x[4..];
      assert x == "" + "-pr" + "-" + number;
      PullRequestCancels("", number, stage, slot);
    }
  }

  lemma SecondLetter(stage: Stage, slot: Slot)
    requires slot != NoSlot
    ensures var x := stage.Text() + slot.Text(); |x| > 1 && x[0] == '-' && x[1] in {'s', 'p', 'b', 'g'}
  {
    match stage
    case NoStage => assert stage.Text() + slot.Text() == slot.Text();
    case _ =>
      var x := stage.Text() + slot.Text();
      assert x[0] == stage.Text()[0] && x[1] == stage.Text()[1];
  }

  lemma StageIsConflict(stage: Stage)
    requires stage != NoStage
    ensures stage.Text() != "" && stage.Text()[0] == '-' && ConflictSuffix(stage.Text())
  {
    if stage.PullRequest? {
      assert stage.Text()[4..] == stage.number && "-pr-" <= stage.Text();
    }
  }

  lemma ExtensionsSeen(a: string, b: string)
    requires a != b
    ensures AddsSlot(a, b) ==> ExtendsSlug(a, b) && !SlugsConflict(a, b)
    ensures ExtendsSlug(a, b) && !AddsSlot(a, b) ==> SlugsConflict(a, b)
  {
    hide SlugsConflict, ConflictSuffix, Stage.Text, Slot.Text;
    if AddsSlot(a, b) {
      var stage: Stage, slot: Slot :| slot != NoSlot && b == a + (stage.Text() + slot.Text());
      SlotIsNoConflict(stage, slot);
      ConflictOfSuffix(a, stage.Text() + slot.Text());
    }
    if ExtendsSlug(a, b) && !AddsSlot(a, b) {
      if b == a + "-db" {
        DatabaseIsConflict();
        ConflictOfSuffix(a, "-db");
      } else {
        var stage: Stage, slot: Slot :| b == a + (stage.Text() + slot.Text());
        assert slot == NoSlot;
        SlotEnds(slot);
        StageEnds(stage);
        assert stage != NoStage;
        StageIsConflict(stage);
        assert stage.Text() + slot.Text() == stage.Text();
        ConflictOfSuffix(a, stage.Text());
      }
    }
  }

  lemma DatabaseIsConflict()
    ensures ConflictSuffix("-db")
  {
  }

  const PREVIEW := "preview-"

  /** A text that also starts the same text behind eight letters repeats those letters. */
  lemma {:induction false} Repeats(letters: string, a: string, t: string, j: nat)
    requires |letters| == 8 && a <= letters + a + t && j < 8 + |a|
    ensures (letters + a + t)[j] == letters[j % 8]
    decreases j
  {
    var w := letters + a + t;
    if j >= 8 {
      Repeats(letters, a, t, j - 8);
      assert w[j] == a[j - 8] && w[j - 8] == a[j - 8];
      assert (j - 8) % 8 == j % 8;
    }
  }

  lemma LettersOfPreview(k: nat)
    requires k < 8
    ensures PREVIEW[k] == '-' ==> k == 7
    ensures PREVIEW[0] == 'p' && PREVIEW[2] == 'e'
  {
  }

  lemma AfterTheDash(letters: string, a: string, t: string, b: string)
    requires |letters| == 8 && b == letters + a + t
    requires a <= b && b[|a|] == '-' && forall k | 0 <= k < 7 :: letters[k] != '-'
    ensures b[|a| + 1] == letters[0] && b[|a| + 3] == letters[2]
  {
    var n, r := |a|, |a| % 8;
    Repeats(letters, a, t, n);
    Repeats(letters, a, t, n + 1);
    Repeats(letters, a, t, n + 3);
    assert letters[r] == '-';
    assert r == 7;
    RemaindersAfterSeven(n);
  }

  lemma RemaindersAfterSeven(n: nat)
    requires n % 8 == 7
    ensures (n + 1) % 8 == 0 && (n + 3) % 8 == 2
  {
  }

  lemma DashFollows(a: string, b: string)
    requires a + "-" <= b
    ensures |a| < |b| && a <= b && b[|a|] == '-'
  {
    assert b[..|a|] == (a + "-")[..|a|];
    assert (a + "-")[|a|] == '-';
  }

  lemma PreviewIsNoConflict(a: string, t: string)
    ensures !SlugsConflict(a, PREVIEW + a + t)
  {
    hide ConflictSuffix;
    var b := PREVIEW + a + t;
    assert |b| == 8 + |a| + |t|;
    if a + "-" <= b {
      forall k | 0 <= k < 7 ensures PREVIEW[k] != '-' { LettersOfPreview(k); }
      LettersOfPreview(0);
      DashFollows(a, b);
      AfterTheDash(PREVIEW, a, t, b);
      LettersOfConflicts(b[|a|..]);
    }
  }

  lemma LettersOfConflicts(x: string)
    requires |x| >= 8 && x[1] == 'p' && x[3] == 'e'
    ensures !ConflictSuffix(x)
  {
  }

  lemma PreviewsUnseen(a: string, b: string)
    requires PreviewsSlug(a, b)
    ensures a != b && !SlugsConflict(a, b)
  {
    hide SlugsConflict;
    if b == "preview-" + a {
      assert PREVIEW + a + "" == b;
      PreviewIsNoConflict(a, "");
    } else {
      var number: Number :| b == "preview-" + a + "-pr" + "-" + number;
      assert b == PREVIEW + a + ("-pr" + "-" + number);
      PreviewIsNoConflict(a, "-pr" + "-" + number);
    }
  }

  lemma ConflictIsSymmetric(a: string, b: string)
    ensures SlugsConflict(a, b) == SlugsConflict(b, a)
  {
  }

  /** `slugsConflict` misses a shared name exactly when one slug adds a slot to the other, or what the
      deployer puts around or before a slug for a preview. */
  lemma WhenConflictMissesAName(a: string, b: string)
    requires SafeSlug(a) && SafeSlug(b) && a != b
    ensures SharedName(a, b) && !SlugsConflict(a, b) <==>
            AddsSlot(a, b) || AddsSlot(b, a) || PreviewsSlug(a, b) || PreviewsSlug(b, a)
  {
    hide SafeSlug, SharedName, SlugsConflict, ExtendsSlug, AddsSlot, PreviewsSlug;
    WhenNamesAreShared(a, b);
    ExtensionsSeen(a, b);
    ExtensionsSeen(b, a);
    if PreviewsSlug(a, b) { PreviewsUnseen(a, b); }
    if PreviewsSlug(b, a) { PreviewsUnseen(b, a); }
    ConflictIsSymmetric(a, b);
  }

  // ---------------------------------------------------------------- what slugsConflict reports without need

  /** `b` is `a` with `-worker-` and a name. */
  predicate SpellsWorker(a: string, b: string) {
    a + "-worker-" <= b && |a| + 8 < |b|
  }

  lemma NoWInNumber(number: Number)
    ensures 'w' !in number
  {
    assert forall i | 0 <= i < |number| :: IsDigit(number[i]);
  }

  lemma NoWInStage(stage: Stage)
    ensures 'w' !in stage.Text()
  {
    if stage.PullRequest? { NoWInNumber(stage.number); }
  }

  lemma NoWInSlot(slot: Slot)
    ensures 'w' !in slot.Text()
  {
    if slot.Replica? { NoWInNumber(slot.number); }
  }

  lemma ExtensionHasNoW(a: string, b: string)
    requires ExtendsSlug(a, b)
    ensures a <= b && 'w' !in b[|a|..]
  {
    hide Stage.Text, Slot.Text;
    if b != a + "-db" {
      var stage: Stage, slot: Slot :| b == a + (stage.Text() + slot.Text());
      NoWInStage(stage);
      NoWInSlot(slot);
      assert b[|a|..] == stage.Text() + slot.Text();
    } else {
      assert b[|a|..] == "-db";
    }
  }

  /** A slug that spells a worker is not the other slug with what the deployer puts after or around it. */
  lemma SpelledIsUnrelated(a: string, b: string)
    requires SpellsWorker(a, b)
    ensures a != b && !ExtendsSlug(a, b) && !ExtendsSlug(b, a) && !PreviewsSlug(a, b) && !PreviewsSlug(b, a)
  {
    assert (a + "-worker-")[|a|] == '-' && (a + "-worker-")[|a| + 1] == 'w';
    assert b[|a|] == '-' && b[|a| + 1] == 'w' && a <= b by { assert b[..|a|] == (a + "-worker-")[..|a|]; }
    assert b[|a|..][1] == 'w';
    if ExtendsSlug(a, b) { ExtensionHasNoW(a, b); }
    if PreviewsSlug(a, b) { PreviewedGoesOn(a, b); }
  }

  /** Where a previewed slug goes on from the slug itself, it goes on with the letters of `preview-`. */
  lemma PreviewedGoesOn(a: string, b: string)
    requires PreviewsSlug(a, b) && a <= b && |b| > |a| + 1 && b[|a|] == '-'
    ensures b[|a| + 1] == 'p'
  {
    if b == "preview-" + a {
      assert PREVIEW + a + "" == b;
      GoesOnWithP(a, "", b);
    } else {
      var number: Number :| b == "preview-" + a + "-pr" + "-" + number;
      assert b == PREVIEW + a + ("-pr" + "-" + number);
      GoesOnWithP(a, "-pr" + "-" + number, b);
    }
  }

  lemma GoesOnWithP(a: string, t: string, b: string)
    requires b == PREVIEW + a + t && a <= b && b[|a|] == '-'
    ensures b[|a| + 1] == 'p'
  {
    forall k | 0 <= k < 7 ensures PREVIEW[k] != '-' { LettersOfPreview(k); }
    LettersOfPreview(0);
    AfterTheDash(PREVIEW, a, t, b);
  }

  /** `slugsConflict` reports two slugs that share no name exactly when one spells a worker of the other. Every
      other conflict it reports, `-staging`, `-db` and `-pr-N` among them, does have a shared name. */
  lemma WhenConflictHasNoName(a: string, b: string)
    requires SafeSlug(a) && SafeSlug(b)
    ensures SlugsConflict(a, b) && !SharedName(a, b) <==> SpellsWorker(a, b) || SpellsWorker(b, a)
  {
    hide SafeSlug, SharedName, ExtendsSlug, PreviewsSlug;
    WhenNamesAreShared(a, b);
    if SpellsWorker(a, b) {
      SpelledIsUnrelated(a, b);
      SpelledIsConflict(a, b);
    }
    if SpellsWorker(b, a) {
      SpelledIsUnrelated(b, a);
      SpelledIsConflict(b, a);
      ConflictIsSymmetric(a, b);
    }
    if a != b && SlugsConflict(a, b) {
      if a + "-" <= b && ConflictSuffix(b[|a|..]) { ConflictExtends(a, b); } else { ConflictExtends(b, a); }
    }
  }

  lemma SpelledIsConflict(a: string, b: string)
    requires SafeSlug(b) && SpellsWorker(a, b)
    ensures SlugsConflict(a, b)
  {
    var x := b[|a|..];
    assert a == b[..|a|] by { assert a == (a + "-worker-")[..|a|]; }
    assert x[..8] == "-worker-" by { assert b[|a|..|a| + 8] == (a + "-worker-")[|a|..]; }
    assert b[..|a| + 1] == a + "-";
    forall c | c in x[8..] ensures c in b { }
  }

  lemma ConflictExtends(a: string, b: string)
    requires a + "-" <= b && ConflictSuffix(b[|a|..])
    ensures ExtendsSlug(a, b) || SpellsWorker(a, b)
  {
    var x := b[|a|..];
    assert b == a + x by { assert a == (a + "-")[..|a|] == b[..|a|]; }
    if x == "-staging" {
      assert x == Staging.Text() + NoSlot.Text();
    } else if "-pr-" <= x && AllDigits(x[4..]) {
      var number: Number := x[4..];
      assert x == "-pr" + "-" + number;
      assert x == PullRequest(number).Text() + NoSlot.Text();
    } else if x != "-db" {
      assert x == "-worker-" + x[8..];
      assert a + "-worker-" <= b by { assert b[..|a| + 8] == a + "-worker-"; }
    }
  }

  ghost predicate EndsInSlot(s: string) {
    exists slot: Slot | slot != NoSlot :: |slot.Text()| <= |s| && s[|s| - |slot.Text()|..] == slot.Text()
  }

  lemma AddedSlotEnds(a: string, b: string)
    requires AddsSlot(a, b)
    ensures EndsInSlot(b)
  {
    hide Stage.Text, Slot.Text;
    var stage: Stage, slot: Slot :| slot != NoSlot && b == a + (stage.Text() + slot.Text());
    Regroup(a, stage.Text(), slot.Text());
    assert b[|b| - |slot.Text()|..] == slot.Text();
  }

  /** Slugs that neither start with `preview-` nor end in a slot share a name only if they conflict. */
  lemma PlainSlugsShareOnlyWhenInConflict(a: string, b: string)
    requires SafeSlug(a) && SafeSlug(b) && a != b && SharedName(a, b)
    requires !(PREVIEW <= a) && !(PREVIEW <= b) && !EndsInSlot(a) && !EndsInSlot(b)
    ensures SlugsConflict(a, b)
  {
    hide SafeSlug, SharedName, SlugsConflict, AddsSlot, EndsInSlot;
    WhenConflictMissesAName(a, b);
    if AddsSlot(a, b) { AddedSlotEnds(a, b); }
    if AddsSlot(b, a) { AddedSlotEnds(b, a); }
    if PreviewsSlug(a, b) { PreviewedStarts(a, b); }
    if PreviewsSlug(b, a) { PreviewedStarts(b, a); }
  }

  lemma PreviewedStarts(a: string, b: string)
    requires PreviewsSlug(a, b)
    ensures PREVIEW <= b
  {
  }

  lemma PlainText(slug: string)
    ensures App(NoStage, NoSlot).Text(slug) == slug
  {
    assert slug + ("" + "") == slug;
  }

  // ---------------------------------------------------------------- replicas

  /** Every replica the deployer names for a slug in a slot is matched by the slug's own pattern. */
  lemma ReplicasBelong(slug: string, colour: Colour, index: int)
    requires SafeSlug(slug)
    ensures Belongs(slug, RunSpec.ReplicaName("pushify-" + slug, if colour == Blue then "blue" else "green", index))
  {
    hide SafeSlug, Belongs, Part.Text;
    var slot := if index <= 1 then Primary(colour) else Replica(colour, Decimal(index));
    PartText(slug, App(NoStage, slot));
    ReplicaText(slug, colour, index);
  }

  lemma ReplicaText(slug: string, colour: Colour, index: int)
    ensures "pushify-" + App(NoStage, if index <= 1 then Primary(colour) else Replica(colour, Decimal(index))).Text(slug) ==
            RunSpec.ReplicaName("pushify-" + slug, if colour == Blue then "blue" else "green", index)
  {
    hide Decimal;
    var name := if colour == Blue then "blue" else "green";
    assert colour.Text() == "-" + name;
    var slot := if index <= 1 then Primary(colour) else Replica(colour, Decimal(index));
    assert NoStage.Text() + slot.Text() == slot.Text();
    Regroup("pushify-", slug, slot.Text());
    Regroup("pushify-" + slug, "-", name);
    if index > 1 {
      Regroup("pushify-" + slug, colour.Text(), "-" + Decimal(index));
      Regroup("pushify-" + slug + colour.Text(), "-", Decimal(index));
      Regroup(colour.Text(), "-", Decimal(index));
    }
  }
}
