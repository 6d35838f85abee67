/** The names of a project's workers (the last alternative of `projectContainerPattern` in
    src/lib/project-containers.ts), and when two projects with workers can name the same container. */
module WorkerContainers {
  import opened Wrappers
  import opened Text
  import opened ProjectContainers

  ghost predicate BelongsWith(slug: string, workers: seq<string>, name: string) {
    var p := ProjectContainerPattern(slug, workers);
    p.Success? && Matches(p.value, name)
  }

  ghost predicate SharedNameWith(a: string, ws: seq<string>, b: string, vs: seq<string>) {
    exists name :: BelongsWith(a, ws, name) && BelongsWith(b, vs, name)
  }

  function Stag(staging: bool): string { if staging then "-staging" else "" }

  /** What follows the slug in the name of a worker. */
  function WorkerTail(staging: bool, worker: string): string {
    Stag(staging) + ("-worker-" + worker)
  }

  // ---------------------------------------------------------------- the pattern

  lemma {:induction false} AnyOfMatches(names: seq<string>, s: string)
    requires names != []
    ensures Matches(AnyOf(names), s) <==> s in names
  {
    if |names| > 1 { AnyOfMatches(names[1..], s); }
  }

  lemma {:induction false} WorkerNamesAre(workers: seq<string>, worker: string)
    ensures worker in WorkerNames(workers) <==> worker in workers && SafeSlug(worker)
  {
    hide SafeSlug;
    if workers != [] { WorkerNamesAre(workers[1..], worker); }
  }

  /** The pattern of the workers matches exactly their names. */
  lemma WorkerPatternMatches(slug: string, workers: seq<string>, name: string)
    requires workers != []
    ensures Matches(Cat(Lit("pushify-" + slug), Cat(Opt(Lit("-staging")), Cat(Lit("-worker-"), AnyOf(workers)))), name) <==>
            exists staging, worker | worker in workers :: name == "pushify-" + slug + WorkerTail(staging, worker)
  {
    hide Matches, AnyOf;
    var last := Cat(Lit("-worker-"), AnyOf(workers));
    var tail := Cat(Opt(Lit("-staging")), last);
    var all := Cat(Lit("pushify-" + slug), tail);
    if Matches(all, name) {
      var t, u := CatSplits(Lit("pushify-" + slug), tail, name);
      LitMatches("pushify-" + slug, t);
      var v, w := CatSplits(Opt(Lit("-staging")), last, u);
      OptMatches(Lit("-staging"), v);
      LitMatches("-staging", v);
      var x, worker := CatSplits(Lit("-worker-"), AnyOf(workers), w);
      LitMatches("-worker-", x);
      AnyOfMatches(workers, worker);
      assert u == WorkerTail(v == "-staging", worker);
    }
    if exists staging, worker | worker in workers :: name == "pushify-" + slug + WorkerTail(staging, worker) {
      var staging, worker :| worker in workers && name == "pushify-" + slug + WorkerTail(staging, worker);
      AnyOfMatches(workers, worker);
      LitMatches("-worker-", "-worker-");
      CatOf(Lit("-worker-"), AnyOf(workers), "-worker-", worker);
      OptMatches(Lit("-staging"), Stag(staging));
      LitMatches("-staging", Stag(staging));
      CatOf(Opt(Lit("-staging")), last, Stag(staging), "-worker-" + worker);
      LitMatches("pushify-" + slug, "pushify-" + slug);
      CatOf(Lit("pushify-" + slug), tail, "pushify-" + slug, WorkerTail(staging, worker));
    }
  }

  /** With workers a project has the names it has without them and, for each worker whose name is plain, that
      worker's name in production and in staging. */
  lemma NamesWithWorkers(slug: string, workers: seq<string>, name: string)
    requires SafeSlug(slug)
    ensures BelongsWith(slug, workers, name) <==>
            || Belongs(slug, name)
            || exists staging, worker | worker in workers && SafeSlug(worker) :: name == "pushify-" + slug + WorkerTail(staging, worker)
  {
    hide SafeSlug, Matches, WorkerTail, AppPattern, AnyOf;
    var own := Alt(AppPattern(slug),
                   Alt(Cat(Lit("pushify-preview-" + slug + "-pr-"), Digits), Lit("pushify-" + slug + "-db")));
    var plain := WorkerNames(workers);
    forall worker ensures worker in plain <==> worker in workers && SafeSlug(worker) { WorkerNamesAre(workers, worker); }
    assert Belongs(slug, name) <==> Matches(own, name);
    if plain != [] {
      WorkerPatternMatches(slug, plain, name);
      AltMatches(own, Cat(Lit("pushify-" + slug), Cat(Opt(Lit("-staging")), Cat(Lit("-worker-"), AnyOf(plain)))), name);
    }
  }

  // ---------------------------------------------------------------- names by what surrounds the slug

  /** What may follow the slug in a name: a stage and a slot, `-db`, or a worker. */
  ghost predicate Tail(t: string, workers: seq<string>) {
    || t == "-db"
    || (exists stage: Stage, slot: Slot :: t == stage.Text() + slot.Text())
    || exists staging, worker | worker in workers && SafeSlug(worker) :: t == WorkerTail(staging, worker)
  }

  /** What may follow the slug in the name of a preview, behind `preview-`. */
  ghost predicate PreviewTail(t: string) {
    exists number: Number :: t == "-pr" + "-" + number
  }

  ghost predicate InFull(slug: string, workers: seq<string>, text: string) {
    || (exists t :: Tail(t, workers) && text == slug + t)
    || (exists t :: PreviewTail(t) && text == PREVIEW + slug + t)
  }

  lemma PartInFull(slug: string, workers: seq<string>, part: Part)
    ensures InFull(slug, workers, part.Text(slug))
  {
    match part
    case App(stage, slot) => assert Tail(stage.Text() + slot.Text(), workers);
    case Preview(number) =>
      assert PreviewTail("-pr" + "-" + number);
      assert part.Text(slug) == PREVIEW + slug + ("-pr" + "-" + number);
    case Database => assert Tail("-db", workers);
  }

  lemma PlainPart(slug: string, workers: seq<string>, text: string) returns (part: Part)
    requires InFull(slug, workers, text)
    requires forall staging, worker | worker in workers && SafeSlug(worker) :: text != slug + WorkerTail(staging, worker)
    ensures text == part.Text(slug)
  {
    hide Stage.Text, Slot.Text, WorkerTail, SafeSlug;
    if exists t :: PreviewTail(t) && text == PREVIEW + slug + t {
      var t :| PreviewTail(t) && text == PREVIEW + slug + t;
      var number: Number :| t == "-pr" + "-" + number;
      part := Preview(number);
      assert PREVIEW + slug + t == "preview-" + slug + "-pr" + "-" + number;
    } else {
      var t :| Tail(t, workers) && text == slug + t;
      if t == "-db" {
        part := Database;
      } else {
        var stage: Stage, slot: Slot :| t == stage.Text() + slot.Text();
        part := App(stage, slot);
      }
    }
  }

  /** The names of a project are `pushify-` and the slug with such a text behind it, or around it. */
  lemma NamesInFull(slug: string, workers: seq<string>, text: string)
    requires SafeSlug(slug)
    ensures BelongsWith(slug, workers, "pushify-" + text) <==> InFull(slug, workers, text)
  {
    hide SafeSlug, Belongs, BelongsWith, InFull, WorkerTail, Part.Text;
    NamesWithWorkers(slug, workers, "pushify-" + text);
    forall staging, worker | worker in workers && SafeSlug(worker)
      ensures "pushify-" + text == "pushify-" + slug + WorkerTail(staging, worker) <==> text == slug + WorkerTail(staging, worker)
      ensures text == slug + WorkerTail(staging, worker) ==> InFull(slug, workers, text)
    {
      Regroup("pushify-", slug, WorkerTail(staging, worker));
      SameRest("pushify-", text, slug + WorkerTail(staging, worker));
      WorkerInFull(slug, workers, staging, worker);
    }
    if Belongs(slug, "pushify-" + text) {
      var part := PartOf(slug, "pushify-" + text);
      SameRest("pushify-", text, part.Text(slug));
      PartInFull(slug, workers, part);
    }
    if InFull(slug, workers, text) &&
       forall staging, worker | worker in workers && SafeSlug(worker) :: text != slug + WorkerTail(staging, worker)
    {
      var part := PlainPart(slug, workers, text);
      PartText(slug, part);
    }
  }

  lemma SameRest(before: string, x: string, y: string)
    ensures before + x == before + y <==> x == y
  {
    assert (before + x)[|before|..] == x && (before + y)[|before|..] == y;
  }

  lemma WorkerInFull(slug: string, workers: seq<string>, staging: bool, worker: string)
    requires worker in workers && SafeSlug(worker)
    ensures InFull(slug, workers, slug + WorkerTail(staging, worker))
  {
    assert Tail(WorkerTail(staging, worker), workers);
  }

  // ---------------------------------------------------------------- where a worker's name can be cut

  /** A worker's name cut in two, its hyphen in front: `head + tail` is `-` and the worker. */
  datatype Cut = Cut(worker: string, staging: bool, head: string, tail: string) {
    predicate Of(workers: seq<string>) {
      worker in workers && SafeSlug(worker) && "-" + worker == head + tail
    }

    /** The slug and what stands before the cut. */
    function Text(slug: string): string { slug + Stag(staging) + "-worker" + head }
  }

  lemma CutRejoins(c: Cut, slug: string)
    requires "-" + c.worker == c.head + c.tail
    ensures c.Text(slug) + c.tail == slug + WorkerTail(c.staging, c.worker)
  {
    assert "-worker-" + c.worker == "-worker" + ("-" + c.worker);
    Regroup(slug + Stag(c.staging) + "-worker", c.head, c.tail);
    Regroup(slug + Stag(c.staging), "-worker", c.head + c.tail);
    Regroup(slug, Stag(c.staging), "-worker" + (c.head + c.tail));
  }

  /** Where the hyphens of a worker's tail are, before the worker's own name. */
  lemma HyphensOfTail(staging: bool, worker: string, k: nat)
    requires k < |Stag(staging)| + 7 && WorkerTail(staging, worker)[k] == '-'
    ensures k == 0 || (staging && k == 8)
  {
    var t := WorkerTail(staging, worker);
    assert |Stag(staging)| == if staging then 8 else 0;
    assert t[..|Stag(staging)| + 7] == Stag(staging) + "-worker";
  }

  lemma CutAfterWorker(a: string, staging: bool, worker: string, k: nat) returns (c: Cut)
    requires |Stag(staging)| + 7 <= k <= |WorkerTail(staging, worker)|
    ensures c.worker == worker && c.staging == staging && c.tail == WorkerTail(staging, worker)[k..]
    ensures "-" + worker == c.head + c.tail && a + WorkerTail(staging, worker)[..k] == c.Text(a)
  {
    var x, n := WorkerTail(staging, worker), |Stag(staging)| + 7;
    var front := Stag(staging) + "-worker";
    assert x == front + ("-" + worker) && |front| == n;
    assert x[..n] == front && x[n..] == "-" + worker;
    hide WorkerTail, Stag;
    c := Cut(worker, staging, x[n..k], x[k..]);
    assert x[..k] == x[..n] + x[n..k] && x[n..] == x[n..k] + x[k..];
    Regroup(a, front, c.head);
    Regroup(a, Stag(staging), "-worker");
  }

  /** A name of a worker that is another text with something behind that starts with a hyphen, or nothing: the
      other text is the slug, the slug in staging, or reaches up to a cut. */
  lemma WhereTheTailStarts(a: string, staging: bool, worker: string, p: string, t: string) returns (c: Cut)
    requires a + WorkerTail(staging, worker) == p + t && |a| <= |p| && (t == "" || t[0] == '-')
    ensures || (p == a && t == WorkerTail(staging, worker))
            || (staging && p == a + "-staging" && t == WorkerTail(false, worker))
            || (c.worker == worker && c.staging == staging && c.tail == t && "-" + worker == c.head + c.tail && p == c.Text(a))
  {
    var x := WorkerTail(staging, worker);
    var k := |p| - |a|;
    SplitAt(a, x, p, t);
    if k >= |Stag(staging)| + 7 {
      c := CutAfterWorker(a, staging, worker, k);
    } else {
      c := Cut(worker, staging, "", "");
      TailIsLong(staging, worker);
      assert x[k] == t[0];
      HyphensOfTail(staging, worker, k);
      if k == 0 {
        assert p == a + "" == a;
      } else {
        assert x[..8] == "-staging" && x[8..] == WorkerTail(false, worker);
      }
    }
  }

  lemma TailIsLong(staging: bool, worker: string)
    ensures |WorkerTail(staging, worker)| == |Stag(staging)| + 8 + |worker|
  {
  }

  lemma SplitAt(a: string, x: string, p: string, t: string)
    requires a + x == p + t && |a| <= |p|
    ensures |p| - |a| <= |x| && p == a + x[..|p| - |a|] && t == x[|p| - |a|..]
  {
    assert p == (p + t)[..|p|] && t == (p + t)[|p|..];
    assert (a + x)[..|p|] == a + x[..|p| - |a|];
  }

  // ---------------------------------------------------------------- when names are shared

  /** The other slug is this one up to a cut in a worker's name, and the rest is what may follow it; or so with
      `preview-` in front of it. */
  ghost predicate WorkerReaches(a: string, ws: seq<string>, b: string, vs: seq<string>) {
    exists c: Cut :: c.Of(ws) && ((b == c.Text(a) && Tail(c.tail, vs)) || (PREVIEW + b == c.Text(a) && PreviewTail(c.tail)))
  }

  lemma PlainTailHasNoW(t: string, workers: seq<string>)
    requires Tail(t, workers) && 'w' in t
    ensures exists staging, worker | worker in workers && SafeSlug(worker) :: t == WorkerTail(staging, worker)
  {
    hide Stage.Text, Slot.Text, SafeSlug, WorkerTail;
    if exists stage: Stage, slot: Slot :: t == stage.Text() + slot.Text() {
      var stage: Stage, slot: Slot :| t == stage.Text() + slot.Text();
      NoWInStage(stage);
      NoWInSlot(slot);
    }
  }

  lemma PreviewTailHasNoW(t: string)
    requires PreviewTail(t)
    ensures 'w' !in t && t != "" && t[0] == '-'
  {
    var number: Number :| t == "-pr" + "-" + number;
    NoWInNumber(number);
  }

  lemma WorkerTailHasW(staging: bool, worker: string)
    ensures 'w' in WorkerTail(staging, worker) && WorkerTail(staging, worker)[0] == '-'
  {
    assert WorkerTail(staging, worker)[if staging then 9 else 1] == 'w';
  }

  lemma TailStartsWithHyphen(t: string, workers: seq<string>)
    requires Tail(t, workers)
    ensures t == "" || t[0] == '-'
  {
  }

  /** A text that ends in a worker's tail holds a `w` there. */
  lemma LateTailHasW(a: string, x: string, p: string, t: string)
    requires a + x == p + t && |p| <= |a| && 'w' in x
    ensures 'w' in t
  {
    SplitAt(p, t, a, x);
    assert forall c | c in x :: c in t;
  }

  /** A worker's name of the one that is a name of the other, the other slug not the shorter. */
  lemma LongerSlugReached(a: string, ws: seq<string>, staging: bool, w: string, b: string, t: string, vs: seq<string>)
    requires SafeSlug(a) && SafeSlug(b) && w in ws && SafeSlug(w) && Tail(t, vs) && |a| <= |b|
    requires a + WorkerTail(staging, w) == b + t
    ensures SharedName(a, b) || WorkerReaches(a, ws, b, vs)
  {
    hide SafeSlug, SharedName, Tail, PreviewTail, WorkerTail;
    TailStartsWithHyphen(t, vs);
    var c := WhereTheTailStarts(a, staging, w, b, t);
    WhenNamesAreShared(a, b);
    if staging && b == a + "-staging" {
      assert b == a + (Staging.Text() + NoSlot.Text());
    } else if b != a {
      assert c.Of(ws);
    }
  }

  lemma PreviewReached(a: string, ws: seq<string>, staging: bool, w: string, b: string, t: string, vs: seq<string>)
    requires w in ws && SafeSlug(w) && PreviewTail(t)
    requires a + WorkerTail(staging, w) == PREVIEW + b + t
    ensures WorkerReaches(a, ws, b, vs)
  {
    hide SafeSlug, Tail, PreviewTail, WorkerTail;
    PreviewTailHasNoW(t);
    WorkerTailHasW(staging, w);
    WorkerTailHasW(false, w);
    if |a| > |PREVIEW + b| {
      LateTailHasW(a, WorkerTail(staging, w), PREVIEW + b, t);
    } else {
      var c := WhereTheTailStarts(a, staging, w, PREVIEW + b, t);
      assert c.Of(ws);
    }
  }

  lemma SharedIsReached(a: string, ws: seq<string>, staging: bool, w: string, b: string, vs: seq<string>, text: string)
    requires SafeSlug(a) && SafeSlug(b) && w in ws && SafeSlug(w)
    requires text == a + WorkerTail(staging, w) && InFull(b, vs, text)
    ensures SharedName(a, b) || WorkerReaches(a, ws, b, vs) || WorkerReaches(b, vs, a, ws)
  {
    hide SafeSlug, SharedName, Tail, PreviewTail, WorkerTail, WorkerReaches;
    if exists t :: PreviewTail(t) && text == PREVIEW + b + t {
      var t :| PreviewTail(t) && text == PREVIEW + b + t;
      PreviewReached(a, ws, staging, w, b, t, vs);
    } else {
      var t :| Tail(t, vs) && text == b + t;
      if |a| <= |b| {
        LongerSlugReached(a, ws, staging, w, b, t, vs);
      } else {
        WorkerTailHasW(staging, w);
        LateTailHasW(a, WorkerTail(staging, w), b, t);
        PlainTailHasNoW(t, vs);
        var st, v :| v in vs && SafeSlug(v) && t == WorkerTail(st, v);
        assert Tail(WorkerTail(staging, w), ws) by { WorkerIsTail(staging, w, ws); }
        LongerSlugReached(b, vs, st, v, a, WorkerTail(staging, w), ws);
        WhenNamesAreShared(a, b);
        WhenNamesAreShared(b, a);
      }
    }
  }

  lemma WorkerIsTail(staging: bool, w: string, ws: seq<string>)
    requires w in ws && SafeSlug(w)
    ensures Tail(WorkerTail(staging, w), ws)
  {
  }

  lemma ReachedIsShared(a: string, ws: seq<string>, b: string, vs: seq<string>)
    requires SafeSlug(a) && SafeSlug(b) && WorkerReaches(a, ws, b, vs)
    ensures SharedNameWith(a, ws, b, vs)
  {
    hide SafeSlug, BelongsWith, WorkerTail, Tail, PreviewTail, Cut.Text;
    var c: Cut :| c.Of(ws) && ((b == c.Text(a) && Tail(c.tail, vs)) || (PREVIEW + b == c.Text(a) && PreviewTail(c.tail)));
    var text := a + WorkerTail(c.staging, c.worker);
    CutRejoins(c, a);
    WorkerInFull(a, ws, c.staging, c.worker);
    assert InFull(b, vs, text);
    NamesInFull(a, ws, text);
    NamesInFull(b, vs, text);
    assert BelongsWith(a, ws, "pushify-" + text) && BelongsWith(b, vs, "pushify-" + text);
  }

  lemma SharedStaysShared(a: string, ws: seq<string>, b: string, vs: seq<string>)
    requires SafeSlug(a) && SafeSlug(b) && SharedName(a, b)
    ensures SharedNameWith(a, ws, b, vs)
  {
    hide SafeSlug, Belongs, BelongsWith;
    var name :| Belongs(a, name) && Belongs(b, name);
    NamesWithWorkers(a, ws, name);
    NamesWithWorkers(b, vs, name);
  }

  /** Two projects with any workers can have a container of the same name exactly when they can without them, or
      one slug reaches into a name of a worker of the other. */
  lemma WhenNamesAreSharedWithWorkers(a: string, ws: seq<string>, b: string, vs: seq<string>)
    requires SafeSlug(a) && SafeSlug(b)
    ensures SharedNameWith(a, ws, b, vs) <==> SharedName(a, b) || WorkerReaches(a, ws, b, vs) || WorkerReaches(b, vs, a, ws)
  {
    hide SafeSlug, Belongs, BelongsWith, WorkerTail, WorkerReaches, InFull;
    if SharedName(a, b) { SharedStaysShared(a, ws, b, vs); }
    if WorkerReaches(a, ws, b, vs) { ReachedIsShared(a, ws, b, vs); }
    if WorkerReaches(b, vs, a, ws) { ReachedIsShared(b, vs, a, ws); }
    if SharedNameWith(a, ws, b, vs) {
      var name :| BelongsWith(a, ws, name) && BelongsWith(b, vs, name);
      NamesWithWorkers(a, ws, name);
      NamesWithWorkers(b, vs, name);
      if !(Belongs(a, name) && Belongs(b, name)) {
        if !Belongs(a, name) {
          WorkerNameIsShared(a, ws, b, vs, name);
        } else {
          WorkerNameIsShared(b, vs, a, ws, name);
          WhenNamesAreShared(a, b);
          WhenNamesAreShared(b, a);
        }
      }
    }
  }

  lemma WorkerNameIsShared(a: string, ws: seq<string>, b: string, vs: seq<string>, name: string)
    requires SafeSlug(a) && SafeSlug(b) && BelongsWith(b, vs, name)
    requires exists staging, worker | worker in ws && SafeSlug(worker) :: name == "pushify-" + a + WorkerTail(staging, worker)
    ensures SharedName(a, b) || WorkerReaches(a, ws, b, vs) || WorkerReaches(b, vs, a, ws)
  {
    hide SafeSlug, SharedName, BelongsWith, WorkerTail, WorkerReaches, InFull;
    var staging, worker :| worker in ws && SafeSlug(worker) && name == "pushify-" + a + WorkerTail(staging, worker);
    var text := a + WorkerTail(staging, worker);
    Regroup("pushify-", a, WorkerTail(staging, worker));
    NamesInFull(b, vs, text);
    SharedIsReached(a, ws, staging, worker, b, vs, text);
  }

  // ---------------------------------------------------------------- what slugsConflict sees of workers

  /** As `WorkerReaches`, but without a slug that spells a worker in production: the other slug is this one with
      `-staging-worker` and what comes before the cut, or with no more than `-worker` or `-worker-`; or
      `preview-` stands in front of it. */
  ghost predicate WorkerSlips(a: string, ws: seq<string>, b: string, vs: seq<string>) {
    exists c: Cut ::
      && c.Of(ws)
      && ((b == c.Text(a) && Tail(c.tail, vs) && (c.staging || c.head == "" || c.head == "-")) ||
          (PREVIEW + b == c.Text(a) && PreviewTail(c.tail)))
  }

  lemma HeadIsPlain(c: Cut, workers: seq<string>)
    requires c.Of(workers)
    ensures c.head == "" || c.head[0] == '-'
    ensures forall i | 0 < i < |c.head| :: c.head[i] in c.worker
  {
    assert forall i | 0 <= i < |c.head| :: c.head[i] == ("-" + c.worker)[i];
  }

  lemma CutSuffix(c: Cut, workers: seq<string>)
    requires c.Of(workers)
    ensures ConflictSuffix(Stag(c.staging) + "-worker" + c.head) <==> !(c.staging || c.head == "" || c.head == "-")
  {
    var y := Stag(c.staging) + "-worker" + c.head;
    HeadIsPlain(c, workers);
    if c.staging {
      assert y[1] == 's' && |y| > 8;
    } else {
      assert y == "-worker" + c.head && y[1] == 'w';
      if |c.head| > 1 {
        assert y[..8] == "-worker-" && y[8..] == c.head[1..];
        forall x | x in y[8..] ensures x in c.worker { }
        PlainLetters(c.worker);
      }
    }
  }

  lemma PlainLetters(worker: string)
    requires SafeSlug(worker)
    ensures forall x | x in worker :: x !in {'\n', '\r', '\U{2028}', '\U{2029}'}
  {
  }

  /** A slug that reaches up to a cut is in conflict exactly when it spells part of a worker in production. */
  lemma CutConflict(a: string, c: Cut, workers: seq<string>)
    requires c.Of(workers)
    ensures SlugsConflict(a, c.Text(a)) <==> !(c.staging || c.head == "" || c.head == "-")
  {
    hide SlugsConflict, ConflictSuffix;
    var y := Stag(c.staging) + "-worker" + c.head;
    CutSuffix(c, workers);
    assert y != "" && y[0] == '-';
    Regroup(a + Stag(c.staging), "-worker", c.head);
    Regroup(a, Stag(c.staging), "-worker" + c.head);
    Regroup(Stag(c.staging), "-worker", c.head);
    ConflictOfSuffix(a, y);
  }

  lemma BehindTheSlug(a: string, c: Cut)
    ensures var t := c.Text(a);
            a <= t && |t| >= |a| + 7 && t[|a|] == '-' && t[|a| + 1] in {'s', 'w'}
  {
    var y := Stag(c.staging) + "-worker" + c.head;
    Regroup(a + Stag(c.staging), "-worker", c.head);
    Regroup(a, Stag(c.staging), "-worker" + c.head);
    Regroup(Stag(c.staging), "-worker", c.head);
    assert c.Text(a) == a + y;
    assert y[0] == '-' && y[1] in {'s', 'w'};
  }

  /** With `preview-` in front there is never a conflict. */
  lemma PreviewCutIsNoConflict(a: string, b: string, c: Cut)
    requires PREVIEW + b == c.Text(a)
    ensures !SlugsConflict(a, b)
  {
    hide ConflictSuffix, Cut.Text;
    BehindTheSlug(a, c);
    var t := c.Text(a);
    if a == b {
      assert PREVIEW + a + "" == t;
      GoesOnWithP(a, "", t);
    } else if a + "-" <= b {
      var u := b[|a|..];
      assert b == a + u by { assert a == (a + "-")[..|a|] == b[..|a|]; }
      Regroup(PREVIEW, a, u);
      GoesOnWithP(a, u, t);
    }
    if b + "-" <= a && ConflictSuffix(a[|b|..]) { ConflictsAreLong(a[|b|..]); }
  }

  lemma ConflictsAreLong(x: string)
    requires ConflictSuffix(x)
    ensures |x| >= 3
  {
  }

  lemma SlippingIsReaching(a: string, ws: seq<string>, b: string, vs: seq<string>)
    ensures WorkerSlips(a, ws, b, vs) <==> WorkerReaches(a, ws, b, vs) && !SlugsConflict(a, b)
  {
    hide SlugsConflict, Tail, PreviewTail, Cut.Of, Cut.Text;
    forall c: Cut | c.Of(ws) && b == c.Text(a) ensures SlugsConflict(a, b) <==> !(c.staging || c.head == "" || c.head == "-") {
      CutConflict(a, c, ws);
    }
    forall c: Cut | PREVIEW + b == c.Text(a) ensures !SlugsConflict(a, b) {
      PreviewCutIsNoConflict(a, b, c);
    }
  }

  lemma MissedSlugsDiffer(a: string, b: string)
    ensures AddsSlot(a, b) || PreviewsSlug(a, b) ==> a != b
  {
    if PreviewsSlug(a, b) { PreviewsUnseen(a, b); }
    if AddsSlot(a, b) {
      var stage: Stage, slot: Slot :| slot != NoSlot && b == a + (stage.Text() + slot.Text());
      SlotIsNoConflict(stage, slot);
    }
  }

  /** With any workers on either side, `slugsConflict` misses a shared name exactly when it does without workers
      (a slot or a preview makes the name), or a slug slips into a name of a worker of the other. */
  lemma WhenConflictMissesANameWithWorkers(a: string, ws: seq<string>, b: string, vs: seq<string>)
    requires SafeSlug(a) && SafeSlug(b)
    ensures SharedNameWith(a, ws, b, vs) && !SlugsConflict(a, b) <==>
            || AddsSlot(a, b) || AddsSlot(b, a) || PreviewsSlug(a, b) || PreviewsSlug(b, a)
            || WorkerSlips(a, ws, b, vs) || WorkerSlips(b, vs, a, ws)
  {
    hide SafeSlug, SharedName, SharedNameWith, SlugsConflict, WorkerReaches, WorkerSlips, AddsSlot, PreviewsSlug;
    WhenNamesAreSharedWithWorkers(a, ws, b, vs);
    SlippingIsReaching(a, ws, b, vs);
    SlippingIsReaching(b, vs, a, ws);
    ConflictIsSymmetric(a, b);
    MissedSlugsDiffer(a, b);
    MissedSlugsDiffer(b, a);
    if a != b { WhenConflictMissesAName(a, b); } else { SameSlugConflicts(a); }
  }

  lemma SameSlugConflicts(a: string)
    ensures SlugsConflict(a, a)
  {
  }

  // Each way happens, whatever the slug.

  lemma SlotNameSlips(slug: string)
    ensures WorkerSlips(slug, ["blue"], slug + "-worker", [])
  {
    hide Tail, PreviewTail, SafeSlug;
    BlueIsATail();
    var c := Cut("blue", false, "", "-blue");
    assert "-" + "blue" == "" + "-blue";
    assert c.Of(["blue"]);
    Nothing(slug, "-worker");
  }

  lemma Nothing(slug: string, text: string)
    ensures slug + "" + text + "" == slug + text
  {
  }

  lemma BlueIsATail()
    ensures Tail("-blue", []) && SafeSlug("blue")
  {
    assert "-blue" == NoStage.Text() + Primary(Blue).Text();
  }

  lemma StagingNameSlips(slug: string, x: string)
    requires SafeSlug(x + "-blue")
    ensures WorkerSlips(slug, [x + "-blue"], slug + ("-staging" + "-worker" + ("-" + x)), [])
  {
    BlueIsATail();
    hide Tail, PreviewTail, SafeSlug;
    var c := Cut(x + "-blue", true, "-" + x, "-blue");
    Regroup("-", x, "-blue");
    assert c.Of([x + "-blue"]);
    Regroup(slug, "-staging", "-worker");
    Regroup(slug, "-staging" + "-worker", "-" + x);
    assert c.Text(slug) == slug + ("-staging" + "-worker" + ("-" + x));
  }

  lemma PreviewNameSlips(slug: string, x: string)
    requires SafeSlug(x + "-pr-1")
    ensures WorkerSlips(PREVIEW + slug, [x + "-pr-1"], slug + ("-worker" + ("-" + x)), [])
  {
    assert PreviewTail("-pr-1") by { assert "-pr-1" == "-pr" + "-" + "1"; }
    hide Tail, PreviewTail, SafeSlug;
    var c := Cut(x + "-pr-1", false, "-" + x, "-pr-1");
    Regroup("-", x, "-pr-1");
    assert c.Of([x + "-pr-1"]);
    assert PREVIEW + slug + "" == PREVIEW + slug;
    Regroup(PREVIEW + slug, "-worker", "-" + x);
    Regroup(PREVIEW, slug, "-worker" + ("-" + x));
  }

  lemma SpelledIsNotReachedBack(a: string, b: string, ws: seq<string>, vs: seq<string>)
    requires SpellsWorker(a, b)
    ensures !WorkerReaches(b, vs, a, ws) && !SpellsWorker(b, a)
  {
    forall c: Cut ensures a != c.Text(b) && PREVIEW + a != c.Text(b) {
      BehindTheSlug(b, c);
    }
  }

  /** And it reports a conflict without a shared name exactly when one slug spells a worker of the other that the
      other does not have, nor any that the slug reaches into. */
  lemma WhenConflictHasNoNameWithWorkers(a: string, ws: seq<string>, b: string, vs: seq<string>)
    requires SafeSlug(a) && SafeSlug(b)
    ensures SlugsConflict(a, b) && !SharedNameWith(a, ws, b, vs) <==>
            || (SpellsWorker(a, b) && !WorkerReaches(a, ws, b, vs))
            || (SpellsWorker(b, a) && !WorkerReaches(b, vs, a, ws))
  {
    hide SafeSlug, SharedName, SharedNameWith, SlugsConflict, WorkerReaches, SpellsWorker;
    WhenNamesAreSharedWithWorkers(a, ws, b, vs);
    WhenConflictHasNoName(a, b);
    if SpellsWorker(a, b) { SpelledIsNotReachedBack(a, b, ws, vs); }
    if SpellsWorker(b, a) { SpelledIsNotReachedBack(b, a, vs, ws); }
  }

  /** A worker's own name is shared with the slug that spells it out, and the two conflict; its name in
      staging is shared too, and there they do not. */
  lemma WorkersAndConflicts(slug: string, worker: string, stage: string)
    requires SafeSlug(slug) && SafeSlug(worker) && (stage == "" || stage == "-staging")
    ensures var other := slug + (stage + ("-worker-" + worker));
            && BelongsWith(slug, [worker], "pushify-" + other)
            && (SafeSlug(other) ==> Belongs(other, "pushify-" + other))
            && (SlugsConflict(slug, other) <==> stage == "")
  {
    hide SafeSlug, Belongs, BelongsWith, SlugsConflict, ConflictSuffix, Part.Text, InFull;
    var staging := stage != "";
    var other := slug + WorkerTail(staging, worker);
    WorkerInFull(slug, [worker], staging, worker);
    NamesInFull(slug, [worker], other);
    if SafeSlug(other) {
      PartText(other, App(NoStage, NoSlot));
      PlainText(other);
    }
    var c := Cut(worker, staging, "-" + worker, "");
    assert c.head + c.tail == c.head && c.Of([worker]);
    CutRejoins(c, slug);
    assert c.Text(slug) + "" == c.Text(slug);
    WorkerIsNotEmpty(worker);
    CutConflict(slug, c, [worker]);
  }

  lemma WorkerIsNotEmpty(worker: string)
    requires SafeSlug(worker)
    ensures worker != ""
  {
  }
}
