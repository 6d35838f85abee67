/** What the calls of src/lib/cloudflare-org-dns.ts make of the records of a zone that other people's records share:
    what no prefix of them touches, what becomes of each record, and what a finished sync, a second one, and a
    delete after a create leave. */
module ManagedRecords {
  import opened Wrappers
  import opened Text
  import opened CloudflareOrgDns

  // ---------------------------------------------------------------- only managed records are touched

  /** An address record of the name that carries Pushify's comment. */
  predicate Managed(r: Record, zone: nat, name: string) {
    r.zone == zone && r.name == name && r.kind != Other && IsOurs(r)
  }

  function Others(list: seq<Record>, zone: nat, name: string): (r: seq<Record>)
    ensures forall x :: x in r <==> x in list && !Managed(x, zone, name)
  {
    if list == [] then []
    else if Managed(list[0], zone, name) then Others(list[1..], zone, name)
    else [list[0]] + Others(list[1..], zone, name)
  }

  /** The edit makes a managed record, or names one. */
  ghost predicate OnManaged(s: Records, e: Edit, zone: nat, name: string) {
    match e
    case Post(record) => Managed(record, zone, name)
    case Patch(id, _) => id < s.nextId && forall r | r in s.list && r.id == id :: Managed(r, zone, name)
    case Delete(id) => id < s.nextId && forall r | r in s.list && r.id == id :: Managed(r, zone, name)
  }

  lemma {:induction false} ValidAfter(s: Records, edits: seq<Edit>)
    requires Valid(s)
    ensures Valid(ApplyAll(s, edits)) && s.nextId <= ApplyAll(s, edits).nextId
  {
    if edits != [] {
      var t := ApplyAll(s, edits[..|edits| - 1]);
      ValidAfter(s, edits[..|edits| - 1]);
      if edits[|edits| - 1].Delete? { WithoutKeepsIds(t.list, edits[|edits| - 1].id); }
    }
  }

  lemma {:induction false} WithoutKeepsIds(list: seq<Record>, id: nat)
    requires forall i, j | 0 <= i < j < |list| :: list[i].id != list[j].id
    ensures forall i, j | 0 <= i < j < |Without(list, id)| :: Without(list, id)[i].id != Without(list, id)[j].id
  {
    if list != [] { WithoutKeepsIds(list[1..], id); }
  }

  lemma OthersStep(r: Record, list: seq<Record>, zone: nat, name: string)
    ensures Others([r] + list, zone, name) == (if Managed(r, zone, name) then [] else [r]) + Others(list, zone, name)
  {
    assert ([r] + list)[1..] == list;
  }

  lemma {:induction false} OthersAppend(list: seq<Record>, r: Record, zone: nat, name: string)
    ensures Others(list + [r], zone, name) == Others(list, zone, name) + (if Managed(r, zone, name) then [] else [r])
  {
    OthersStep(r, [], zone, name);
    assert Others([], zone, name) == [] && [r] + [] == [r];
    hide Others, Managed;
    if list == [] {
      assert list + [r] == [r];
    } else {
      var x, rest := list[0], list[1..];
      OthersAppend(rest, r, zone, name);
      OthersStep(x, rest, zone, name);
      OthersStep(x, rest + [r], zone, name);
      Regroup([x], rest, [r]);
      assert list == [x] + rest;
      Regroup(if Managed(x, zone, name) then [] else [x], Others(rest, zone, name), if Managed(r, zone, name) then [] else [r]);
    }
  }

  lemma Regroup<T>(a: seq<T>, b: seq<T>, c: seq<T>)
    ensures a + b + c == a + (b + c)
  {
  }

  lemma {:induction false} OthersWithout(list: seq<Record>, id: nat, zone: nat, name: string)
    requires forall r | r in list && r.id == id :: Managed(r, zone, name)
    ensures Others(Without(list, id), zone, name) == Others(list, zone, name)
  {
    if list != [] {
      OthersWithout(list[1..], id, zone, name);
      assert ([list[0]] + Without(list[1..], id))[1..] == Without(list[1..], id);
    }
  }

  lemma {:induction false} OthersRepointed(list: seq<Record>, id: nat, content: string, zone: nat, name: string)
    requires forall r | r in list && r.id == id :: Managed(r, zone, name)
    ensures Others(Repointed(list, id, content), zone, name) == Others(list, zone, name)
  {
    if list != [] {
      OthersRepointed(list[1..], id, content, zone, name);
      assert Repointed(list, id, content)[1..] == Repointed(list[1..], id, content);
    }
  }

  lemma EditKeepsOthers(s: Records, e: Edit, zone: nat, name: string)
    requires OnManaged(s, e, zone, name)
    ensures Others(Apply(s, e).list, zone, name) == Others(s.list, zone, name)
  {
    match e
    case Post(record) => OthersAppend(s.list, record.(id := s.nextId), zone, name);
    case Patch(id, content) => OthersRepointed(s.list, id, content, zone, name);
    case Delete(id) => OthersWithout(s.list, id, zone, name);
  }

  lemma OnManagedStays(s: Records, e: Edit, f: Edit, zone: nat, name: string)
    requires OnManaged(s, e, zone, name) && OnManaged(s, f, zone, name)
    ensures OnManaged(Apply(s, e), f, zone, name)
  {
  }

  lemma {:induction false} EditsKeepOthers(s: Records, edits: seq<Edit>, k: nat, zone: nat, name: string)
    requires forall e | e in edits :: OnManaged(s, e, zone, name)
    requires k <= |edits|
    ensures Others(ApplyAll(s, edits[..k]).list, zone, name) == Others(s.list, zone, name)
    ensures forall e | e in edits :: OnManaged(ApplyAll(s, edits[..k]), e, zone, name)
  {
    if k > 0 {
      EditsKeepOthers(s, edits, k - 1, zone, name);
      AppliedOneMore(s, edits, k - 1);
      var t := ApplyAll(s, edits[..k - 1]);
      EditKeepsOthers(t, edits[k - 1], zone, name);
      forall e | e in edits
        ensures OnManaged(Apply(t, edits[k - 1]), e, zone, name)
      {
        OnManagedStays(t, edits[k - 1], e, zone, name);
      }
    }
  }

  predicate Names(e: Edit, id: nat) { (e.Patch? || e.Delete?) && e.id == id }

  lemma {:induction false} PatchesOf(rs: seq<Record>, wanted: string, e: Edit)
    ensures e in Patches(rs, wanted) <==> (e.Patch? && e.content == wanted && exists x | x in rs :: x.id == e.id && x.content != wanted)
  {
    if rs != [] {
      var n := |rs| - 1;
      PatchesOf(rs[..n], wanted, e);
      assert forall x :: x in rs <==> x in rs[..n] || x == rs[n];
    }
  }

  lemma DeletesOf(rs: seq<Record>, e: Edit)
    ensures e in Deletes(rs) <==> (e.Delete? && exists x | x in rs :: x.id == e.id)
  {
    if e.Delete? && exists x | x in rs :: x.id == e.id {
      var i :| 0 <= i < |rs| && rs[i].id == e.id;
      assert Deletes(rs)[i] == e;
    }
  }

  /** The record is Pushify's and among the first twenty of its kind and name. */
  predicate OnPage(list: seq<Record>, r: Record, zone: nat, name: string) {
    Managed(r, zone, name) && r in Page(list, zone, r.kind, name, 20)
  }

  /** Which calls of one round name a record: only for those of Pushify's on the page. */
  lemma KindPlanOf(page: seq<Record>, zone: nat, kind: Kind, name: string, wanted: Option<string>, proxied: bool, e: Edit)
    ensures e in KindPlan(page, zone, kind, name, wanted, proxied) <==>
            (match e
             case Post(record) => wanted.Some? && page == [] && record == NewRecord(zone, kind, name, wanted.value, proxied)
             case Patch(id, content) => wanted == Some(content) && exists x | x in page && IsOurs(x) :: x.id == id && x.content != content
             case Delete(id) => wanted.None? && exists x | x in page && IsOurs(x) :: x.id == id)
  {
    match wanted
    case None => DeletesOf(Ours(page), e);
    case Some(content) => PatchesOf(Ours(page), content, e);
  }

  lemma SyncPlanOnManaged(s: Records, zone: nat, name: string, ipv4: string, ipv6: Option<string>, e: Edit)
    requires Valid(s) && e in SyncPlan(s.list, zone, name, ipv4, ipv6)
    ensures OnManaged(s, e, zone, name)
  {
    var a, aaaa := Page(s.list, zone, A, name, 20), Page(s.list, zone, AAAA, name, 20);
    var proxied := (Ours(a) + Ours(aaaa))[0].proxied;
    KindPlanOf(a, zone, A, name, Some(ipv4), proxied, e);
    KindPlanOf(aaaa, zone, AAAA, name, ipv6, proxied, e);
    if !e.Post? {
      var x :| (x in a || x in aaaa) && IsOurs(x) && x.id == e.id;
      assert Managed(x, zone, name) && x in s.list;
      forall r | r in s.list && r.id == e.id
        ensures Managed(r, zone, name)
      {
        IdsTellRecordsApart(s, r, x);
      }
    }
  }

  lemma DeletePlanOnManaged(s: Records, zone: nat, name: string, e: Edit)
    requires Valid(s) && e in DeletePlan(s.list, zone, name)
    ensures OnManaged(s, e, zone, name)
  {
    var a, aaaa := Page(s.list, zone, A, name, 20), Page(s.list, zone, AAAA, name, 20);
    DeletesOf(Ours(a), e);
    DeletesOf(Ours(aaaa), e);
    var x :| (x in a || x in aaaa) && IsOurs(x) && x.id == e.id;
    assert Managed(x, zone, name) && x in s.list;
    forall r | r in s.list && r.id == e.id
      ensures Managed(r, zone, name)
    {
      IdsTellRecordsApart(s, r, x);
    }
  }

  /** However far a sync got, every record that is not Pushify's for this name is still there, unchanged and in
      the same order. */
  lemma SyncTouchesOnlyManaged(s: Records, zone: nat, name: string, ipv4: string, ipv6: Option<string>, after: Records)
    requires Valid(s) && PartlyApplied(s, SyncPlan(s.list, zone, name, ipv4, ipv6), after)
    ensures Others(after.list, zone, name) == Others(s.list, zone, name) && Valid(after)
  {
    var plan := SyncPlan(s.list, zone, name, ipv4, ipv6);
    var k :| 0 <= k <= |plan| && after == ApplyAll(s, plan[..k]);
    forall e | e in plan ensures OnManaged(s, e, zone, name) { SyncPlanOnManaged(s, zone, name, ipv4, ipv6, e); }
    EditsKeepOthers(s, plan, k, zone, name);
    ValidAfter(s, plan[..k]);
  }

  lemma DeleteTouchesOnlyManaged(s: Records, zone: nat, name: string, after: Records)
    requires Valid(s) && PartlyApplied(s, DeletePlan(s.list, zone, name), after)
    ensures Others(after.list, zone, name) == Others(s.list, zone, name) && Valid(after)
  {
    var plan := DeletePlan(s.list, zone, name);
    var k :| 0 <= k <= |plan| && after == ApplyAll(s, plan[..k]);
    forall e | e in plan ensures OnManaged(s, e, zone, name) { DeletePlanOnManaged(s, zone, name, e); }
    EditsKeepOthers(s, plan, k, zone, name);
    ValidAfter(s, plan[..k]);
  }

  /** However far a create got, what was there before still is, and only Pushify's records are added. */
  lemma {:induction false} CreateOnlyAdds(s: Records, wanted: seq<(Kind, string)>, zone: nat, name: string, proxied: bool, k: nat)
    requires k <= |wanted|
    ensures var after := ApplyAll(s, Posts(wanted, zone, name, proxied)[..k]);
            && |after.list| == |s.list| + k && s.list <= after.list && after.nextId == s.nextId + k
            && forall i | 0 <= i < k ::
                 after.list[|s.list| + i] == NewRecord(zone, wanted[i].0, name, wanted[i].1, proxied).(id := s.nextId + i)
  {
    if k > 0 {
      CreateOnlyAdds(s, wanted, zone, name, proxied, k - 1);
      AppliedOneMore(s, Posts(wanted, zone, name, proxied), k - 1);
    }
  }

  // ---------------------------------------------------------------- what becomes of each record

  function FateOf(r: Record, e: Edit): Option<Record> {
    match e
    case Post(_) => Some(r)
    case Patch(id, content) => if id == r.id then Some(r.(content := content)) else Some(r)
    case Delete(id) => if id == r.id then None else Some(r)
  }

  /** What the edits make of one record. */
  function Fate(r: Record, edits: seq<Edit>): (end: Option<Record>)
    ensures end.Some? ==> end.value == r.(content := end.value.content)
  {
    if edits == [] then Some(r)
    else
      var before := Fate(r, edits[..|edits| - 1]);
      if before.None? then None else FateOf(before.value, edits[|edits| - 1])
  }

  lemma {:induction false} FateUnnamed(r: Record, edits: seq<Edit>)
    requires forall e | e in edits :: !Names(e, r.id)
    ensures Fate(r, edits) == Some(r)
  {
    if edits != [] {
      FateUnnamed(r, edits[..|edits| - 1]);
      assert edits[|edits| - 1] in edits;
    }
  }

  lemma {:induction false} FateDeleted(r: Record, edits: seq<Edit>)
    requires Delete(r.id) in edits
    ensures Fate(r, edits) == None
  {
    var n := |edits| - 1;
    if edits[n] != Delete(r.id) { FateDeleted(r, edits[..n]); }
  }

  lemma {:induction false} FatePatched(r: Record, edits: seq<Edit>, content: string)
    requires Patch(r.id, content) in edits && forall e | e in edits && Names(e, r.id) :: e == Patch(r.id, content)
    ensures Fate(r, edits) == Some(r.(content := content))
  {
    var n := |edits| - 1;
    assert edits[n] in edits;
    if Patch(r.id, content) in edits[..n] {
      FatePatched(r, edits[..n], content);
    } else {
      forall e | e in edits[..n] ensures !Names(e, r.id) { assert e in edits; }
      FateUnnamed(r, edits[..n]);
      assert edits[n] == Patch(r.id, content);
    }
  }

  ghost predicate OldNames(s: Records, edits: seq<Edit>) {
    forall e | e in edits && !e.Post? :: e.id < s.nextId
  }

  /** After the edits there are the old records that survived and the posted ones. */
  lemma {:induction false} AfterEdits(s: Records, edits: seq<Edit>, x: Record)
    requires Valid(s) && OldNames(s, edits)
    ensures x.id < s.nextId ==> (x in ApplyAll(s, edits).list <==> exists r | r in s.list :: Fate(r, edits) == Some(x))
    ensures x in ApplyAll(s, edits).list && x.id >= s.nextId ==> exists e | e in edits && e.Post? :: x == e.record.(id := x.id)
    ensures s.nextId <= ApplyAll(s, edits).nextId
    decreases |edits|
  {
    if edits != [] {
      var n := |edits| - 1;
      var t := ApplyAll(s, edits[..n]);
      forall y ensures y in t.list && y.id < s.nextId <==> (y.id < s.nextId && exists r | r in s.list :: Fate(r, edits[..n]) == Some(y)) {
        AfterEdits(s, edits[..n], y);
      }
      forall y ensures y in t.list && y.id >= s.nextId ==> exists e | e in edits[..n] && e.Post? :: y == e.record.(id := y.id) {
        AfterEdits(s, edits[..n], y);
      }
      AfterEdits(s, edits[..n], x);
      match edits[n]
      case Post(record) =>
      case Patch(id, content) => RepointedHas(t.list, id, content, x);
      case Delete(id) =>
    }
  }

  lemma RepointedHas(list: seq<Record>, id: nat, content: string, x: Record)
    ensures x in Repointed(list, id, content) <==>
            exists y | y in list :: x == if y.id == id then y.(content := content) else y
  {
    if exists y | y in list :: x == if y.id == id then y.(content := content) else y {
      var y :| y in list && x == if y.id == id then y.(content := content) else y;
      var i :| 0 <= i < |list| && list[i] == y;
      assert Repointed(list, id, content)[i] == x;
    }
  }

  lemma {:induction false} PostedIsThere(s: Records, edits: seq<Edit>, record: Record) returns (x: Record)
    requires Valid(s) && OldNames(s, edits) && Post(record) in edits
    ensures x in ApplyAll(s, edits).list && x == record.(id := x.id) && x.id >= s.nextId
  {
    var n := |edits| - 1;
    var t := ApplyAll(s, edits[..n]);
    if Post(record) in edits[..n] {
      x := PostedIsThere(s, edits[..n], record);
      if edits[n].Patch? { RepointedHas(t.list, edits[n].id, edits[n].content, x); }
    } else {
      AfterEdits(s, edits[..n], record);
      x := record.(id := t.nextId);
      assert ApplyAll(s, edits).list[|t.list|] == x;
    }
  }

  /** What one round of a sync wants for the addresses of a kind. */
  function AddressFor(kind: Kind, ipv4: string, ipv6: Option<string>): Option<string> {
    if kind == A then Some(ipv4) else ipv6
  }

  /** A sync gives each of Pushify's records on the page the wanted address, or removes it when there is none;
      every other record stays as it is. */
  lemma SyncFate(s: Records, zone: nat, name: string, ipv4: string, ipv6: Option<string>, r: Record)
    requires Valid(s) && r in s.list
    ensures Fate(r, SyncPlan(s.list, zone, name, ipv4, ipv6)) ==
            if !OnPage(s.list, r, zone, name) then Some(r)
            else match AddressFor(r.kind, ipv4, ipv6) case None => None case Some(c) => Some(r.(content := c))
  {
    var a, aaaa := Page(s.list, zone, A, name, 20), Page(s.list, zone, AAAA, name, 20);
    var plan := SyncPlan(s.list, zone, name, ipv4, ipv6);
    var managed := Ours(a) + Ours(aaaa);
    if managed == [] {
      assert plan == [];
      assert OnPage(s.list, r, zone, name) ==> r in managed;
    } else {
      var proxied := managed[0].proxied;
      assert OnPage(s.list, r, zone, name) ==> (r.kind == A && r in a) || (r.kind == AAAA && r in aaaa);
      forall e | Names(e, r.id)
        ensures e in plan <==>
                (OnPage(s.list, r, zone, name) &&
                 match AddressFor(r.kind, ipv4, ipv6)
                 case None => e == Delete(r.id)
                 case Some(c) => r.content != c && e == Patch(r.id, c))
      {
        NamingEdits(s, zone, name, ipv4, ipv6, r, e);
      }
      FateByNames(s, zone, name, ipv4, ipv6, r, plan);
    }
  }

  lemma FateByNames(s: Records, zone: nat, name: string, ipv4: string, ipv6: Option<string>, r: Record, plan: seq<Edit>)
    requires forall e | Names(e, r.id) ::
               e in plan <==>
               (OnPage(s.list, r, zone, name) &&
                match AddressFor(r.kind, ipv4, ipv6)
                case None => e == Delete(r.id)
                case Some(c) => r.content != c && e == Patch(r.id, c))
    ensures Fate(r, plan) ==
            if !OnPage(s.list, r, zone, name) then Some(r)
            else match AddressFor(r.kind, ipv4, ipv6) case None => None case Some(c) => Some(r.(content := c))
  {
    hide OnPage, Fate;
    if OnPage(s.list, r, zone, name) {
      match AddressFor(r.kind, ipv4, ipv6)
      case None =>
        assert Names(Delete(r.id), r.id);
        FateDeleted(r, plan);
      case Some(c) =>
        if r.content != c {
          assert Names(Patch(r.id, c), r.id);
          FatePatched(r, plan, c);
        } else {
          FateUnnamed(r, plan);
        }
    } else {
      FateUnnamed(r, plan);
    }
  }

  /** The calls that name a record: at most the one that its kind calls for. */
  lemma NamingEdits(s: Records, zone: nat, name: string, ipv4: string, ipv6: Option<string>, r: Record, e: Edit)
    requires Valid(s) && r in s.list && Names(e, r.id)
    requires Ours(Page(s.list, zone, A, name, 20)) + Ours(Page(s.list, zone, AAAA, name, 20)) != []
    ensures e in SyncPlan(s.list, zone, name, ipv4, ipv6) <==>
            (OnPage(s.list, r, zone, name) &&
             match AddressFor(r.kind, ipv4, ipv6)
             case None => e == Delete(r.id)
             case Some(c) => r.content != c && e == Patch(r.id, c))
  {
    var a, aaaa := Page(s.list, zone, A, name, 20), Page(s.list, zone, AAAA, name, 20);
    var proxied := (Ours(a) + Ours(aaaa))[0].proxied;
    KindPlanOf(a, zone, A, name, Some(ipv4), proxied, e);
    KindPlanOf(aaaa, zone, AAAA, name, ipv6, proxied, e);
    forall x | (x in a || x in aaaa) && x.id == r.id ensures x == r { IdsTellRecordsApart(s, x, r); }
    var plan := SyncPlan(s.list, zone, name, ipv4, ipv6);
    assert e in plan <==> e in KindPlan(a, zone, A, name, Some(ipv4), proxied) || e in KindPlan(aaaa, zone, AAAA, name, ipv6, proxied);
    hide SyncPlan, KindPlan, Listed, Page, Valid, Ours;
  }

  /** A finished delete removes exactly Pushify's records on the page. */
  lemma DeleteFate(s: Records, zone: nat, name: string, r: Record)
    requires Valid(s) && r in s.list
    ensures Fate(r, DeletePlan(s.list, zone, name)) == if OnPage(s.list, r, zone, name) then None else Some(r)
  {
    var a, aaaa := Page(s.list, zone, A, name, 20), Page(s.list, zone, AAAA, name, 20);
    var plan := DeletePlan(s.list, zone, name);
    DeletesOf(Ours(a), Delete(r.id));
    DeletesOf(Ours(aaaa), Delete(r.id));
    forall x | (x in a || x in aaaa) && x.id == r.id ensures x == r { IdsTellRecordsApart(s, x, r); }
    assert Delete(r.id) in plan <==> OnPage(s.list, r, zone, name);
    hide OnPage, Page, Ours, Valid;
    assert forall e | e in plan && Names(e, r.id) :: e == Delete(r.id);
    if Delete(r.id) in plan { FateDeleted(r, plan); } else { FateUnnamed(r, plan); }
  }

  // ---------------------------------------------------------------- what a finished sync leaves

  /** The record holds the wanted address; a wanted absence is held by no record. */
  predicate Right(r: Record, ipv4: string, ipv6: Option<string>) {
    AddressFor(r.kind, ipv4, ipv6) == Some(r.content)
  }

  ghost predicate AllRight(list: seq<Record>, zone: nat, name: string, ipv4: string, ipv6: Option<string>) {
    forall r | r in list && Managed(r, zone, name) :: Right(r, ipv4, ipv6)
  }

  lemma PostedIsRight(s: Records, zone: nat, name: string, ipv4: string, ipv6: Option<string>, record: Record)
    requires Post(record) in SyncPlan(s.list, zone, name, ipv4, ipv6)
    ensures Managed(record, zone, name) && Right(record, ipv4, ipv6)
  {
    var a, aaaa := Page(s.list, zone, A, name, 20), Page(s.list, zone, AAAA, name, 20);
    var proxied := (Ours(a) + Ours(aaaa))[0].proxied;
    KindPlanOf(a, zone, A, name, Some(ipv4), proxied, Post(record));
    KindPlanOf(aaaa, zone, AAAA, name, ipv6, proxied, Post(record));
  }

  /** The first of Pushify's records on the pages, A before AAAA. */
  ghost predicate FirstManaged(list: seq<Record>, zone: nat, name: string, r: Record) {
    var a, aaaa := Ours(Page(list, zone, A, name, 20)), Ours(Page(list, zone, AAAA, name, 20));
    if a != [] then r == a[0] else aaaa != [] && r == aaaa[0]
  }

  lemma NonePaged(list: seq<Record>, zone: nat, kind: Kind, name: string)
    ensures Page(list, zone, kind, name, 20) == [] <==> forall r | r in list :: !Matches(r, zone, kind, name)
  {
    var listed := Listed(list, zone, kind, name);
    assert forall r :: r in listed <==> r in list && Matches(r, zone, kind, name);
    if listed != [] { assert listed[0] in listed; }
  }

  /** A sync makes a record exactly for a kind that has none at the name although its address is wanted, where the
      name is managed; the record is proxied as the first managed one. */
  lemma SyncCreates(s: Records, zone: nat, name: string, ipv4: string, ipv6: Option<string>, record: Record)
    ensures Post(record) in SyncPlan(s.list, zone, name, ipv4, ipv6) <==>
            && (record.kind == A || record.kind == AAAA) && record.zone == zone && record.name == name
            && record.id == 0 && record.comment == Some("pushify:custom-domain")
            && (forall r | r in s.list :: !Matches(r, zone, record.kind, name))
            && (if record.kind == A then record.content == ipv4 else ipv6 == Some(record.content))
            && exists first :: FirstManaged(s.list, zone, name, first) && record.proxied == first.proxied
  {
    var a, aaaa := Page(s.list, zone, A, name, 20), Page(s.list, zone, AAAA, name, 20);
    var managed := Ours(a) + Ours(aaaa);
    NonePaged(s.list, zone, record.kind, name);
    if managed == [] {
      assert forall first :: !FirstManaged(s.list, zone, name, first);
    } else {
      assert forall first :: FirstManaged(s.list, zone, name, first) <==> first == managed[0];
      hide FirstManaged, Listed, Page, Ours;
      KindPlanOf(a, zone, A, name, Some(ipv4), managed[0].proxied, Post(record));
      KindPlanOf(aaaa, zone, AAAA, name, ipv6, managed[0].proxied, Post(record));
    }
  }

  lemma SyncNamesOld(s: Records, zone: nat, name: string, ipv4: string, ipv6: Option<string>)
    requires Valid(s)
    ensures OldNames(s, SyncPlan(s.list, zone, name, ipv4, ipv6))
  {
    forall e | e in SyncPlan(s.list, zone, name, ipv4, ipv6) ensures OnManaged(s, e, zone, name) {
      SyncPlanOnManaged(s, zone, name, ipv4, ipv6, e);
    }
  }

  /** A finished sync leaves every managed record at the wanted addresses exactly when those past the first
      twenty of their kind had them already. */
  lemma SyncedIffOffPageRight(s: Records, zone: nat, name: string, ipv4: string, ipv6: Option<string>)
    requires Valid(s)
    ensures AllRight(ApplyAll(s, SyncPlan(s.list, zone, name, ipv4, ipv6)).list, zone, name, ipv4, ipv6) <==>
            forall r | r in s.list && Managed(r, zone, name) && !OnPage(s.list, r, zone, name) :: Right(r, ipv4, ipv6)
  {
    var plan := SyncPlan(s.list, zone, name, ipv4, ipv6);
    var after := ApplyAll(s, plan).list;
    SyncNamesOld(s, zone, name, ipv4, ipv6);
    hide SyncPlan, ApplyAll, OnPage, Fate, Valid, OldNames;
    forall r | r in s.list && Managed(r, zone, name) && !OnPage(s.list, r, zone, name)
      ensures r in after
    {
      IdsAreOld(s, r);
      AfterEdits(s, plan, r);
      SyncFate(s, zone, name, ipv4, ipv6, r);
    }
    forall x | x in after && Managed(x, zone, name)
      ensures Right(x, ipv4, ipv6) || (x in s.list && !OnPage(s.list, x, zone, name))
    {
      AfterEdits(s, plan, x);
      if x.id < s.nextId {
        var r :| r in s.list && Fate(r, plan) == Some(x);
        SyncFate(s, zone, name, ipv4, ipv6, r);
      } else {
        var e :| e in plan && e.Post? && x == e.record.(id := x.id);
        PostedIsRight(s, zone, name, ipv4, ipv6, e.record);
      }
    }
  }

  lemma IdsAreOld(s: Records, r: Record)
    requires Valid(s) && r in s.list
    ensures r.id < s.nextId
  {
  }

  /** A kind has at most one page of records at the name. */
  predicate OnePage(list: seq<Record>, zone: nat, name: string) {
    |Listed(list, zone, A, name)| <= 20 && |Listed(list, zone, AAAA, name)| <= 20
  }

  lemma SyncedOnOnePage(s: Records, zone: nat, name: string, ipv4: string, ipv6: Option<string>)
    requires Valid(s) && OnePage(s.list, zone, name)
    ensures AllRight(ApplyAll(s, SyncPlan(s.list, zone, name, ipv4, ipv6)).list, zone, name, ipv4, ipv6)
  {
    SyncedIffOffPageRight(s, zone, name, ipv4, ipv6);
  }

  /** After a sync that found something of Pushify's, a kind with a wanted address has a record. */
  lemma SomeRecordAfter(s: Records, zone: nat, kind: Kind, name: string, ipv4: string, ipv6: Option<string>)
    requires Valid(s) && kind != Other && AddressFor(kind, ipv4, ipv6).Some?
    requires Ours(Page(s.list, zone, A, name, 20)) + Ours(Page(s.list, zone, AAAA, name, 20)) != []
    ensures Listed(ApplyAll(s, SyncPlan(s.list, zone, name, ipv4, ipv6)).list, zone, kind, name) != []
  {
    var plan := SyncPlan(s.list, zone, name, ipv4, ipv6);
    var page := Page(s.list, zone, kind, name, 20);
    SyncNamesOld(s, zone, name, ipv4, ipv6);
    if page != [] {
      var r := page[0];
      assert r in s.list && Matches(r, zone, kind, name);
      SyncFate(s, zone, name, ipv4, ipv6, r);
      hide SyncPlan, ApplyAll, Listed, Page, Valid, OldNames;
      IdsAreOld(s, r);
      AfterEdits(s, plan, Fate(r, plan).value);
      assert Fate(r, plan).value in Listed(ApplyAll(s, plan).list, zone, kind, name);
    } else {
      var a, aaaa := Page(s.list, zone, A, name, 20), Page(s.list, zone, AAAA, name, 20);
      var proxied := (Ours(a) + Ours(aaaa))[0].proxied;
      var record := NewRecord(zone, kind, name, AddressFor(kind, ipv4, ipv6).value, proxied);
      KindPlanOf(page, zone, kind, name, AddressFor(kind, ipv4, ipv6), proxied, Post(record));
      assert Post(record) in plan;
      var x := PostedIsThere(s, plan, record);
      assert x in Listed(ApplyAll(s, plan).list, zone, kind, name);
    }
  }

  // ---------------------------------------------------------------- a second sync

  lemma {:induction false} ListedRepointed(list: seq<Record>, id: nat, content: string, zone: nat, kind: Kind, name: string)
    ensures Listed(Repointed(list, id, content), zone, kind, name) == Repointed(Listed(list, zone, kind, name), id, content)
  {
    if list != [] {
      ListedRepointed(list[1..], id, content, zone, kind, name);
      assert Repointed(list, id, content)[1..] == Repointed(list[1..], id, content);
    }
  }

  /** Calls that make no record of a listing, and delete none of it, keep every place of it. */
  lemma {:induction false} ListingKeepsPlaces(s: Records, edits: seq<Edit>, zone: nat, kind: Kind, name: string)
    requires forall e | e in edits && e.Post? :: !Matches(e.record, zone, kind, name)
    requires forall e, r | e in edits && e.Delete? && r in Listed(s.list, zone, kind, name) :: e.id != r.id
    ensures var before, after := Listed(s.list, zone, kind, name), Listed(ApplyAll(s, edits).list, zone, kind, name);
            |after| == |before| && forall i | 0 <= i < |before| :: Fate(before[i], edits) == Some(after[i])
  {
    if edits != [] {
      var n := |edits| - 1;
      var t := ApplyAll(s, edits[..n]);
      assert edits[n] in edits;
      ListingKeepsPlaces(s, edits[..n], zone, kind, name);
      PlacesKept(s, t, edits[..n], edits[n], zone, kind, name);
    }
  }

  lemma PlacesKept(s: Records, t: Records, edits: seq<Edit>, e: Edit, zone: nat, kind: Kind, name: string)
    requires e.Post? ==> !Matches(e.record, zone, kind, name)
    requires e.Delete? ==> forall r | r in Listed(s.list, zone, kind, name) :: e.id != r.id
    requires var before, now := Listed(s.list, zone, kind, name), Listed(t.list, zone, kind, name);
             |now| == |before| && forall i | 0 <= i < |before| :: Fate(before[i], edits) == Some(now[i])
    ensures var before, after := Listed(s.list, zone, kind, name), Listed(Apply(t, e).list, zone, kind, name);
            |after| == |before| && forall i | 0 <= i < |before| :: FateOf(Fate(before[i], edits).value, e) == Some(after[i])
  {
    hide Listed, Fate;
    var before, now := Listed(s.list, zone, kind, name), Listed(t.list, zone, kind, name);
    match e
    case Post(record) =>
      var r := record.(id := t.nextId);
      ListedAppend(t.list, [r], zone, kind, name);
      ListedStep(r, [], zone, kind, name);
      NothingListed(zone, kind, name);
      assert [r] + [] == [r] && now + ([] + []) == now;
    case Patch(id, content) => ListedRepointed(t.list, id, content, zone, kind, name);
    case Delete(id) =>
      ListedWithout(t.list, id, zone, kind, name);
      forall x | x in now ensures x.id != id {
        var i :| 0 <= i < |now| && now[i] == x;
        assert before[i] in before && Fate(before[i], edits).value.id == before[i].id;
      }
      WithoutAbsent(now, id);
  }

  lemma NothingListed(zone: nat, kind: Kind, name: string)
    ensures Listed([], zone, kind, name) == []
  {
  }

  /** Two calls of a sync: what its round for the one kind does to the listing of the other. */
  lemma OtherRoundSpares(s: Records, zone: nat, kind: Kind, other: Kind, name: string, wanted: Option<string>, proxied: bool, e: Edit)
    requires Valid(s) && kind != other
    requires e in KindPlan(Page(s.list, zone, other, name, 20), zone, other, name, wanted, proxied)
    ensures e.Post? ==> !Matches(e.record, zone, kind, name)
    ensures !e.Post? ==> forall r | r in Listed(s.list, zone, kind, name) :: e.id != r.id
  {
    var page := Page(s.list, zone, other, name, 20);
    KindPlanOf(page, zone, other, name, wanted, proxied, e);
    if !e.Post? {
      var x :| x in page && x.id == e.id;
      forall r | r in Listed(s.list, zone, kind, name) ensures e.id != r.id {
        if r.id == x.id { IdsTellRecordsApart(s, r, x); }
      }
    }
  }

  /** A kind with a wanted address and records of its own keeps their places in a sync. */
  lemma WantedKeepsPlaces(s: Records, zone: nat, kind: Kind, name: string, ipv4: string, ipv6: Option<string>)
    requires Valid(s) && kind != Other && AddressFor(kind, ipv4, ipv6).Some? && Listed(s.list, zone, kind, name) != []
    ensures var plan := SyncPlan(s.list, zone, name, ipv4, ipv6);
            var before, after := Listed(s.list, zone, kind, name), Listed(ApplyAll(s, plan).list, zone, kind, name);
            |after| == |before| && forall i | 0 <= i < |before| :: Fate(before[i], plan) == Some(after[i])
  {
    var plan := SyncPlan(s.list, zone, name, ipv4, ipv6);
    var a, aaaa := Page(s.list, zone, A, name, 20), Page(s.list, zone, AAAA, name, 20);
    forall e | e in plan
      ensures e.Post? ==> !Matches(e.record, zone, kind, name)
      ensures e.Delete? ==> forall r | r in Listed(s.list, zone, kind, name) :: e.id != r.id
    {
      var proxied := (Ours(a) + Ours(aaaa))[0].proxied;
      KindPlanOf(a, zone, A, name, Some(ipv4), proxied, e);
      KindPlanOf(aaaa, zone, AAAA, name, ipv6, proxied, e);
      if e in KindPlan(a, zone, A, name, Some(ipv4), proxied) {
        if kind == AAAA { OtherRoundSpares(s, zone, AAAA, A, name, Some(ipv4), proxied, e); }
      } else {
        if kind == A { OtherRoundSpares(s, zone, A, AAAA, name, ipv6, proxied, e); }
      }
    }
    hide SyncPlan, ApplyAll, Listed, Fate;
    ListingKeepsPlaces(s, plan, zone, kind, name);
  }

  /** After a sync that had something to do, every managed record on the page of a kind with a wanted address is
      right, and there is one record at least. */
  lemma PageIsRightAfter(s: Records, zone: nat, kind: Kind, name: string, ipv4: string, ipv6: Option<string>, x: Record)
    requires Valid(s) && kind != Other && AddressFor(kind, ipv4, ipv6).Some?
    requires x in Page(ApplyAll(s, SyncPlan(s.list, zone, name, ipv4, ipv6)).list, zone, kind, name, 20) && IsOurs(x)
    ensures Right(x, ipv4, ipv6)
  {
    var plan := SyncPlan(s.list, zone, name, ipv4, ipv6);
    var after := ApplyAll(s, plan);
    var before, now := Listed(s.list, zone, kind, name), Listed(after.list, zone, kind, name);
    var i :| 0 <= i < |now| && i < 20 && now[i] == x;
    if before != [] {
      WantedKeepsPlaces(s, zone, kind, name, ipv4, ipv6);
      assert before[i] in before && before[i] in Page(s.list, zone, kind, name, 20);
      assert OnPage(s.list, before[i], zone, name);
      SyncFate(s, zone, name, ipv4, ipv6, before[i]);
    } else {
      SyncNamesOld(s, zone, name, ipv4, ipv6);
      assert x in now;
      hide SyncPlan, ApplyAll, Fate, Valid, OldNames;
      AfterEdits(s, plan, x);
      if x.id < s.nextId {
        SurvivorWasListed(s, plan, zone, kind, name, x);
      } else {
        var e :| e in plan && e.Post? && x == e.record.(id := x.id);
        PostedIsRight(s, zone, name, ipv4, ipv6, e.record);
      }
    }
  }

  lemma SurvivorWasListed(s: Records, edits: seq<Edit>, zone: nat, kind: Kind, name: string, x: Record)
    requires Valid(s) && OldNames(s, edits) && x.id < s.nextId
    requires x in ApplyAll(s, edits).list && Matches(x, zone, kind, name)
    ensures Listed(s.list, zone, kind, name) != []
  {
    hide ApplyAll, Fate, Valid, OldNames, Listed;
    AfterEdits(s, edits, x);
    var r :| r in s.list && Fate(r, edits) == Some(x);
    assert r in Listed(s.list, zone, kind, name);
  }

  /** The round for a kind with a wanted address makes no call in a second sync. */
  lemma WantedIsIdle(s: Records, zone: nat, kind: Kind, name: string, ipv4: string, ipv6: Option<string>, proxied: bool)
    requires Valid(s) && kind != Other && AddressFor(kind, ipv4, ipv6).Some?
    requires Ours(Page(s.list, zone, A, name, 20)) + Ours(Page(s.list, zone, AAAA, name, 20)) != []
    ensures var after := ApplyAll(s, SyncPlan(s.list, zone, name, ipv4, ipv6));
            KindPlan(Page(after.list, zone, kind, name, 20), zone, kind, name, AddressFor(kind, ipv4, ipv6), proxied) == []
  {
    var after := ApplyAll(s, SyncPlan(s.list, zone, name, ipv4, ipv6));
    var page := Page(after.list, zone, kind, name, 20);
    var wanted := AddressFor(kind, ipv4, ipv6);
    var plan := KindPlan(page, zone, kind, name, wanted, proxied);
    SomeRecordAfter(s, zone, kind, name, ipv4, ipv6);
    forall x | x in page && IsOurs(x) ensures Right(x, ipv4, ipv6) && x.kind == kind {
      PageIsRightAfter(s, zone, kind, name, ipv4, ipv6, x);
    }
    assert page != [];
    hide SyncPlan, ApplyAll, Page, KindPlan;
    if plan != [] { KindPlanOf(page, zone, kind, name, wanted, proxied, plan[0]); }
  }

  // ---------------------------------------------------------------- after a lost IPv6

  function Foreign(page: seq<Record>): (r: seq<Record>)
    ensures forall x :: x in r <==> x in page && !IsOurs(x)
  {
    if page == [] then [] else if IsOurs(page[0]) then Foreign(page[1..]) else [page[0]] + Foreign(page[1..])
  }

  lemma {:induction false} OursAndForeign(page: seq<Record>)
    ensures |Ours(page)| + |Foreign(page)| == |page|
  {
    if page != [] { OursAndForeign(page[1..]); }
  }

  /** The records whose identifiers are not among some. */
  function Sparing(list: seq<Record>, gone: seq<Record>): (r: seq<Record>)
    ensures forall x :: x in r <==> x in list && !HasId(gone, x.id)
  {
    if list == [] then []
    else if HasId(gone, list[0].id) then Sparing(list[1..], gone)
    else [list[0]] + Sparing(list[1..], gone)
  }

  lemma {:induction false} SparingOneMore(list: seq<Record>, gone: seq<Record>, r: Record)
    ensures Sparing(list, gone + [r]) == Without(Sparing(list, gone), r.id)
  {
    assert forall id :: HasId(gone + [r], id) <==> HasId(gone, id) || id == r.id by {
      assert forall x :: x in gone + [r] <==> x in gone || x == r;
    }
    if list != [] {
      SparingOneMore(list[1..], gone, r);
      var rest := Sparing(list[1..], gone);
      assert ([list[0]] + rest)[1..] == rest;
    }
  }

  lemma {:induction false} SparingNone(list: seq<Record>)
    ensures Sparing(list, []) == list
  {
    if list != [] { SparingNone(list[1..]); }
  }

  lemma {:induction false} ListingAfterDeletes(s: Records, gone: seq<Record>, zone: nat, kind: Kind, name: string)
    ensures Listed(ApplyAll(s, Deletes(gone)).list, zone, kind, name) == Sparing(Listed(s.list, zone, kind, name), gone)
    decreases |gone|
  {
    hide Listed, ApplyAll, Without, Sparing, Deletes;
    DeletesGrow(s, gone);
    if gone == [] {
      SparingNone(Listed(s.list, zone, kind, name));
    } else {
      var n := |gone| - 1;
      ListingAfterDeletes(s, gone[..n], zone, kind, name);
      AppliedAndOne(s, Deletes(gone[..n]), Delete(gone[n].id));
      ListedWithout(ApplyAll(s, Deletes(gone[..n])).list, gone[n].id, zone, kind, name);
      SparingOneMore(Listed(s.list, zone, kind, name), gone[..n], gone[n]);
    }
  }

  lemma DeletesGrow(s: Records, gone: seq<Record>)
    ensures gone == [] ==> ApplyAll(s, Deletes(gone)) == s
    ensures gone != [] ==>
              var n := |gone| - 1;
              gone == gone[..n] + [gone[n]] && Deletes(gone) == Deletes(gone[..n]) + [Delete(gone[n].id)]
  {
  }

  lemma {:induction false} SparingOurs(page: seq<Record>, rest: seq<Record>, gone: seq<Record>)
    requires forall x | x in page :: HasId(gone, x.id) <==> IsOurs(x)
    requires forall x | x in rest :: !HasId(gone, x.id)
    ensures Sparing(page + rest, gone) == Foreign(page) + rest
  {
    if page == [] {
      assert page + rest == rest;
      SparingAll(rest, gone);
    } else {
      assert (page + rest)[1..] == page[1..] + rest;
      SparingOurs(page[1..], rest, gone);
      var x := page[0];
      assert x in page;
      Regroup([x], Foreign(page[1..]), rest);
    }
  }

  lemma {:induction false} SparingAll(list: seq<Record>, gone: seq<Record>)
    requires forall x | x in list :: !HasId(gone, x.id)
    ensures Sparing(list, gone) == list
  {
    if list != [] {
      SparingAll(list[1..], gone);
      assert list[0] in list;
    }
  }

  /** The AAAA listing after a sync without an IPv6: the managed records on the page are gone, the rest stands. */
  lemma ListingAfterLostIPv6(s: Records, zone: nat, name: string, ipv4: string)
    requires Valid(s) && Ours(Page(s.list, zone, A, name, 20)) + Ours(Page(s.list, zone, AAAA, name, 20)) != []
    ensures var list, page := Listed(s.list, zone, AAAA, name), Page(s.list, zone, AAAA, name, 20);
            Listed(ApplyAll(s, SyncPlan(s.list, zone, name, ipv4, None)).list, zone, AAAA, name) == Foreign(page) + list[|page|..]
  {
    var a, aaaa := Page(s.list, zone, A, name, 20), Page(s.list, zone, AAAA, name, 20);
    var list := Listed(s.list, zone, AAAA, name);
    var proxied := (Ours(a) + Ours(aaaa))[0].proxied;
    var first := KindPlan(a, zone, A, name, Some(ipv4), proxied);
    assert SyncPlan(s.list, zone, name, ipv4, None) == first + Deletes(Ours(aaaa));
    assert list == aaaa + list[|aaaa|..];
    forall e | e in first
      ensures e.Post? ==> !Matches(e.record, zone, AAAA, name)
      ensures !e.Post? ==> forall r | r in list :: e.id != r.id
    {
      OtherRoundSpares(s, zone, AAAA, A, name, Some(ipv4), proxied, e);
    }
    ListedDistinct(s.list, zone, AAAA, name);
    hide SyncPlan, KindPlan, ApplyAll, Listed, Page, Deletes, Ours, Valid;
    AppliedInTurn(s, first, Deletes(Ours(aaaa)));
    UntouchedListing(s, first, zone, AAAA, name);
    ListingAfterDeletes(ApplyAll(s, first), Ours(aaaa), zone, AAAA, name);
    OursHaveIds(list, |aaaa|);
    SparingOurs(aaaa, list[|aaaa|..], Ours(aaaa));
  }

  lemma OursHaveIds(list: seq<Record>, n: nat)
    requires DistinctIds(list) && n <= |list|
    ensures forall x | x in list[..n] :: HasId(Ours(list[..n]), x.id) <==> IsOurs(x)
    ensures forall x | x in list[n..] :: !HasId(Ours(list[..n]), x.id)
  {
    forall x, y | x in list && y in list && x.id == y.id ensures x == y { }
    forall x | x in list[n..] ensures !HasId(Ours(list[..n]), x.id) {
      var i :| 0 <= i < |list[n..]| && list[n..][i] == x;
      assert list[n + i] == x;
      forall y | y in list[..n] ensures y.id != x.id { }
    }
  }

  lemma UntouchedListing(s: Records, edits: seq<Edit>, zone: nat, kind: Kind, name: string)
    requires forall e | e in edits && e.Post? :: !Matches(e.record, zone, kind, name)
    requires forall e, r | e in edits && !e.Post? && r in Listed(s.list, zone, kind, name) :: e.id != r.id
    ensures Listed(ApplyAll(s, edits).list, zone, kind, name) == Listed(s.list, zone, kind, name)
  {
    hide Listed, ApplyAll, Fate;
    ListingKeepsPlaces(s, edits, zone, kind, name);
    var list := Listed(s.list, zone, kind, name);
    forall i | 0 <= i < |list| ensures Fate(list[i], edits) == Some(list[i]) {
      assert list[i] in list;
      FateUnnamed(list[i], edits);
    }
  }

  /** Behind a first page there is one of Pushify's among as many AAAA records as it has on that page: they move up
      into the places of the deleted ones. */
  predicate MoreBehindThePage(list: seq<Record>, zone: nat, name: string) {
    var listed := Listed(list, zone, AAAA, name);
    exists i | 20 <= i < 20 + |Ours(Page(list, zone, AAAA, name, 20))| && i < |listed| :: IsOurs(listed[i])
  }

  lemma MovedUp(list: seq<Record>, n: nat)
    requires n == Min(|list|, 20)
    ensures var after := Foreign(list[..n]) + list[n..];
            Ours(after[..Min(|after|, 20)]) == [] <==>
            forall i | 20 <= i < 20 + |Ours(list[..n])| && i < |list| :: !IsOurs(list[i])
  {
    var page, rest := list[..n], list[n..];
    var after := Foreign(page) + rest;
    var m := Min(|after|, 20);
    var k := |Ours(page)|;
    OursAndForeign(page);
    assert |Foreign(page)| == n - k;
    forall j | 0 <= j < n - k ensures !IsOurs(Foreign(page)[j]) { assert Foreign(page)[j] in Foreign(page); }
    forall j | 0 <= j < m ensures after[j] == if j < n - k then Foreign(page)[j] else list[j + k] { }
    if Ours(after[..m]) == [] {
      forall i | 20 <= i < 20 + k && i < |list| ensures !IsOurs(list[i]) {
        assert after[i - k] == list[i] && after[i - k] in after[..m];
      }
    } else {
      var x := Ours(after[..m])[0];
      assert x in Ours(after[..m]);
      var j :| 0 <= j < m && after[j] == x;
      assert IsOurs(list[j + k]) && 20 <= j + k < 20 + k;
    }
  }

  /** A second sync to the same addresses makes no call that changes anything, exactly unless there is no IPv6 and
      managed AAAA records behind the first page moved up into it. */
  lemma SecondSyncIsIdleExactly(s: Records, zone: nat, name: string, ipv4: string, ipv6: Option<string>)
    requires Valid(s)
    ensures var after := ApplyAll(s, SyncPlan(s.list, zone, name, ipv4, ipv6));
            SyncPlan(after.list, zone, name, ipv4, ipv6) == [] <==> ipv6.Some? || !MoreBehindThePage(s.list, zone, name)
  {
    var a, aaaa := Page(s.list, zone, A, name, 20), Page(s.list, zone, AAAA, name, 20);
    if Ours(a) + Ours(aaaa) == [] {
      assert SyncPlan(s.list, zone, name, ipv4, ipv6) == [];
      assert |Ours(aaaa)| == 0;
    } else {
      SecondPlan(s, zone, name, ipv4, ipv6);
      if ipv6.None? {
        ListingAfterLostIPv6(s, zone, name, ipv4);
        MovedUp(Listed(s.list, zone, AAAA, name), |aaaa|);
      }
    }
  }

  lemma SecondPlan(s: Records, zone: nat, name: string, ipv4: string, ipv6: Option<string>)
    requires Valid(s) && Ours(Page(s.list, zone, A, name, 20)) + Ours(Page(s.list, zone, AAAA, name, 20)) != []
    ensures var after := ApplyAll(s, SyncPlan(s.list, zone, name, ipv4, ipv6)).list;
            SyncPlan(after, zone, name, ipv4, ipv6) == [] <==> ipv6.Some? || Ours(Page(after, zone, AAAA, name, 20)) == []
  {
    var after := ApplyAll(s, SyncPlan(s.list, zone, name, ipv4, ipv6)).list;
    var managed := Ours(Page(after, zone, A, name, 20)) + Ours(Page(after, zone, AAAA, name, 20));
    if managed != [] {
      WantedIsIdle(s, zone, A, name, ipv4, ipv6, managed[0].proxied);
      if ipv6.Some? { WantedIsIdle(s, zone, AAAA, name, ipv4, ipv6, managed[0].proxied); }
      PlanWhenAIsIdle(after, zone, name, ipv4, ipv6);
    }
  }

  lemma PlanWhenAIsIdle(list: seq<Record>, zone: nat, name: string, ipv4: string, ipv6: Option<string>)
    requires var managed := Ours(Page(list, zone, A, name, 20)) + Ours(Page(list, zone, AAAA, name, 20));
             managed != [] && KindPlan(Page(list, zone, A, name, 20), zone, A, name, Some(ipv4), managed[0].proxied) == []
    ensures var managed := Ours(Page(list, zone, A, name, 20)) + Ours(Page(list, zone, AAAA, name, 20));
            SyncPlan(list, zone, name, ipv4, ipv6) ==
            KindPlan(Page(list, zone, AAAA, name, 20), zone, AAAA, name, ipv6, managed[0].proxied)
    ensures ipv6.None? ==>
              (SyncPlan(list, zone, name, ipv4, ipv6) == [] <==> Ours(Page(list, zone, AAAA, name, 20)) == [])
  {
    hide Page, Ours;
    var aaaa := Ours(Page(list, zone, AAAA, name, 20));
    assert |Deletes(aaaa)| == |aaaa|;
  }

  /** With at most one page of records of each kind it always is. */
  lemma SecondSyncIsIdle(s: Records, zone: nat, name: string, ipv4: string, ipv6: Option<string>)
    requires Valid(s) && OnePage(s.list, zone, name)
    ensures var after := ApplyAll(s, SyncPlan(s.list, zone, name, ipv4, ipv6));
            SyncPlan(after.list, zone, name, ipv4, ipv6) == []
  {
    SecondSyncIsIdleExactly(s, zone, name, ipv4, ipv6);
  }

  // ---------------------------------------------------------------- the counters

  predicate DistinctIds(list: seq<Record>) {
    forall i, j | 0 <= i < j < |list| :: list[i].id != list[j].id
  }

  predicate NamesOnce(edits: seq<Edit>) {
    forall i, j | 0 <= i < j < |edits| && !edits[i].Post? && !edits[j].Post? :: edits[i].id != edits[j].id
  }

  lemma {:induction false} ListedDistinct(list: seq<Record>, zone: nat, kind: Kind, name: string)
    requires DistinctIds(list)
    ensures DistinctIds(Listed(list, zone, kind, name))
  {
    if list != [] {
      ListedDistinct(list[1..], zone, kind, name);
      var rest := Listed(list[1..], zone, kind, name);
      forall x | x in rest ensures x.id != list[0].id { assert x in list[1..]; }
    }
  }

  lemma {:induction false} OursDistinct(page: seq<Record>)
    requires DistinctIds(page)
    ensures DistinctIds(Ours(page))
  {
    if page != [] {
      OursDistinct(page[1..]);
      forall x | x in Ours(page[1..]) ensures x.id != page[0].id { assert x in page[1..]; }
    }
  }

  lemma {:induction false} PatchesNameOnce(rs: seq<Record>, wanted: string)
    requires DistinctIds(rs)
    ensures NamesOnce(Patches(rs, wanted))
  {
    if rs != [] {
      var n := |rs| - 1;
      PatchesNameOnce(rs[..n], wanted);
      forall e | e in Patches(rs[..n], wanted) ensures e.Patch? && e.id != rs[n].id { PatchesOf(rs[..n], wanted, e); }
    }
  }

  lemma KindPlanNamesOnce(s: Records, zone: nat, kind: Kind, name: string, wanted: Option<string>, proxied: bool)
    requires Valid(s)
    ensures NamesOnce(KindPlan(Page(s.list, zone, kind, name, 20), zone, kind, name, wanted, proxied))
  {
    var page := Page(s.list, zone, kind, name, 20);
    ListedDistinct(s.list, zone, kind, name);
    OursDistinct(page);
    if wanted.Some? { PatchesNameOnce(Ours(page), wanted.value); }
  }

  lemma RoundsNameOnce(s: Records, zone: nat, name: string, ipv4: Option<string>, ipv6: Option<string>, proxied: bool)
    requires Valid(s)
    ensures NamesOnce(KindPlan(Page(s.list, zone, A, name, 20), zone, A, name, ipv4, proxied) +
                      KindPlan(Page(s.list, zone, AAAA, name, 20), zone, AAAA, name, ipv6, proxied))
  {
    var a, aaaa := Page(s.list, zone, A, name, 20), Page(s.list, zone, AAAA, name, 20);
    var first, second := KindPlan(a, zone, A, name, ipv4, proxied), KindPlan(aaaa, zone, AAAA, name, ipv6, proxied);
    KindPlanNamesOnce(s, zone, A, name, ipv4, proxied);
    KindPlanNamesOnce(s, zone, AAAA, name, ipv6, proxied);
    forall e, f | e in first && f in second && !e.Post? && !f.Post?
      ensures e.id != f.id
    {
      KindPlanOf(a, zone, A, name, ipv4, proxied, e);
      KindPlanOf(aaaa, zone, AAAA, name, ipv6, proxied, f);
      var x :| x in a && x.id == e.id;
      var y :| y in aaaa && y.id == f.id;
      if x.id == y.id { IdsTellRecordsApart(s, x, y); }
    }
  }

  lemma SyncPlanNamesOnce(s: Records, zone: nat, name: string, ipv4: string, ipv6: Option<string>)
    requires Valid(s)
    ensures NamesOnce(SyncPlan(s.list, zone, name, ipv4, ipv6))
  {
    var managed := Ours(Page(s.list, zone, A, name, 20)) + Ours(Page(s.list, zone, AAAA, name, 20));
    if managed != [] { RoundsNameOnce(s, zone, name, Some(ipv4), ipv6, managed[0].proxied); }
  }

  function NamedBy(edits: seq<Edit>, kind: Edit -> bool): set<nat> {
    set e | e in edits && !e.Post? && kind(e) :: e.id
  }

  lemma {:induction false} CountsAreSizes(edits: seq<Edit>, kind: Edit -> bool)
    requires NamesOnce(edits) && forall e | kind(e) :: !e.Post?
    ensures Count(edits, kind) == |NamedBy(edits, kind)|
  {
    if edits == [] {
      assert NamedBy(edits, kind) == {};
    } else {
      var n := |edits| - 1;
      CountsAreSizes(edits[..n], kind);
      assert forall e :: e in edits <==> e in edits[..n] || e == edits[n];
      if kind(edits[n]) {
        assert NamedBy(edits, kind) == NamedBy(edits[..n], kind) + {edits[n].id};
        assert edits[n].id !in NamedBy(edits[..n], kind);
      } else {
        assert NamedBy(edits, kind) == NamedBy(edits[..n], kind);
      }
    }
  }

  lemma {:induction false} PostsAreCounted(s: Records, edits: seq<Edit>)
    ensures ApplyAll(s, edits).nextId == s.nextId + Count(edits, IsPost)
  {
    if edits != [] { PostsAreCounted(s, edits[..|edits| - 1]); }
  }

  /** The records that are gone, and those that are still there but not as they were. */
  function Gone(before: seq<Record>, after: seq<Record>): set<nat> {
    set r | r in before && !HasId(after, r.id) :: r.id
  }

  function Changed(before: seq<Record>, after: seq<Record>): set<nat> {
    set r | r in before && r !in after && HasId(after, r.id) :: r.id
  }

  predicate HasId(list: seq<Record>, id: nat) {
    exists x | x in list :: x.id == id
  }

  predicate PatchedIn(edits: seq<Edit>, id: nat) {
    exists e | e in edits :: e.Patch? && e.id == id
  }

  /** What is there after the edits tells the fate of a record. */
  lemma FateShows(s: Records, edits: seq<Edit>, r: Record)
    requires Valid(s) && OldNames(s, edits) && r in s.list
    ensures HasId(ApplyAll(s, edits).list, r.id) <==> Fate(r, edits).Some?
    ensures r in ApplyAll(s, edits).list <==> Fate(r, edits) == Some(r)
  {
    var after := ApplyAll(s, edits).list;
    IdsAreOld(s, r);
    forall x | x in after && x.id == r.id
      ensures Fate(r, edits) == Some(x)
    {
      AfterEdits(s, edits, x);
      var r' :| r' in s.list && Fate(r', edits) == Some(x);
      IdsTellRecordsApart(s, r, r');
    }
    if Fate(r, edits).Some? { AfterEdits(s, edits, Fate(r, edits).value); }
  }

  /** The calls of a sync tell the fate of a record. */
  lemma PlanShowsFate(s: Records, zone: nat, name: string, ipv4: string, ipv6: Option<string>, r: Record)
    requires Valid(s) && r in s.list
    ensures var plan := SyncPlan(s.list, zone, name, ipv4, ipv6);
            && (Delete(r.id) in plan <==> Fate(r, plan).None?)
            && (PatchedIn(plan, r.id) <==> (Fate(r, plan).Some? && Fate(r, plan) != Some(r)))
  {
    var plan := SyncPlan(s.list, zone, name, ipv4, ipv6);
    SyncFate(s, zone, name, ipv4, ipv6, r);
    if Ours(Page(s.list, zone, A, name, 20)) + Ours(Page(s.list, zone, AAAA, name, 20)) == [] {
      assert plan == [] && Fate(r, plan) == Some(r);
    } else {
      forall e | Names(e, r.id)
        ensures e in plan <==>
                (OnPage(s.list, r, zone, name) &&
                 match AddressFor(r.kind, ipv4, ipv6)
                 case None => e == Delete(r.id)
                 case Some(c) => r.content != c && e == Patch(r.id, c))
      {
        NamingEdits(s, zone, name, ipv4, ipv6, r, e);
      }
      hide SyncPlan, OnPage, Fate, Valid, Page, Ours;
      assert Names(Delete(r.id), r.id);
      if AddressFor(r.kind, ipv4, ipv6).Some? { assert Names(Patch(r.id, AddressFor(r.kind, ipv4, ipv6).value), r.id); }
      assert forall e | e in plan && e.Patch? && e.id == r.id :: Names(e, r.id);
    }
  }

  lemma NamedIsThere(s: Records, zone: nat, name: string, ipv4: string, ipv6: Option<string>, e: Edit)
    requires e in SyncPlan(s.list, zone, name, ipv4, ipv6) && !e.Post?
    ensures HasId(s.list, e.id)
  {
    var a, aaaa := Page(s.list, zone, A, name, 20), Page(s.list, zone, AAAA, name, 20);
    var proxied := (Ours(a) + Ours(aaaa))[0].proxied;
    KindPlanOf(a, zone, A, name, Some(ipv4), proxied, e);
    KindPlanOf(aaaa, zone, AAAA, name, ipv6, proxied, e);
  }

  lemma GoneAreDeleted(s: Records, zone: nat, name: string, ipv4: string, ipv6: Option<string>)
    requires Valid(s)
    ensures var plan := SyncPlan(s.list, zone, name, ipv4, ipv6);
            && Gone(s.list, ApplyAll(s, plan).list) == NamedBy(plan, IsDelete)
            && Changed(s.list, ApplyAll(s, plan).list) == NamedBy(plan, IsPatch)
  {
    var plan := SyncPlan(s.list, zone, name, ipv4, ipv6);
    var after := ApplyAll(s, plan).list;
    hide SyncPlan, ApplyAll, Valid, OldNames, Fate;
    SyncNamesOld(s, zone, name, ipv4, ipv6);
    forall r | r in s.list
      ensures Delete(r.id) in plan <==> !HasId(after, r.id)
      ensures PatchedIn(plan, r.id) <==> (HasId(after, r.id) && r !in after)
    {
      FateShows(s, plan, r);
      PlanShowsFate(s, zone, name, ipv4, ipv6, r);
    }
    forall e | e in plan && !e.Post?
      ensures HasId(s.list, e.id)
    {
      NamedIsThere(s, zone, name, ipv4, ipv6, e);
    }
    assert forall id | PatchedIn(plan, id) :: HasId(s.list, id);
    assert forall e | e in plan && e.Delete? :: e == Delete(e.id);
    assert Gone(s.list, after) == NamedBy(plan, IsDelete);
    assert Changed(s.list, after) == NamedBy(plan, IsPatch);
  }

  /** The counters of a finished sync are the numbers of records really changed, made and removed. */
  lemma CountersAreReal(s: Records, zone: nat, name: string, ipv4: string, ipv6: Option<string>)
    requires Valid(s)
    ensures var plan := SyncPlan(s.list, zone, name, ipv4, ipv6);
            var after := ApplyAll(s, plan);
            && Report(plan).updated == |Changed(s.list, after.list)|
            && s.nextId + Report(plan).created == after.nextId
            && Report(plan).deleted == |Gone(s.list, after.list)|
  {
    var plan := SyncPlan(s.list, zone, name, ipv4, ipv6);
    SyncPlanNamesOnce(s, zone, name, ipv4, ipv6);
    hide SyncPlan, ApplyAll, Valid, NamesOnce, NamedBy, Gone, Changed, Count;
    CountsAreSizes(plan, IsPatch);
    CountsAreSizes(plan, IsDelete);
    PostsAreCounted(s, plan);
    GoneAreDeleted(s, zone, name, ipv4, ipv6);
  }

  lemma DeletePlanNamesOnce(s: Records, zone: nat, name: string)
    requires Valid(s)
    ensures NamesOnce(DeletePlan(s.list, zone, name))
  {
    RoundsNameOnce(s, zone, name, None, None, false);
  }

  lemma CountOfDeletes(list: seq<Record>, zone: nat, name: string)
    ensures Count(DeletePlan(list, zone, name), IsDelete) == |DeletePlan(list, zone, name)|
  {
    var a, aaaa := Ours(Page(list, zone, A, name, 20)), Ours(Page(list, zone, AAAA, name, 20));
    ReportsAdd(Deletes(a), Deletes(aaaa));
    ReportOfDeletes(a);
    ReportOfDeletes(aaaa);
  }

  lemma GoneByDelete(s: Records, plan: seq<Edit>, r: Record)
    requires Valid(s) && OldNames(s, plan) && r in s.list && forall e | e in plan :: e.Delete?
    ensures Delete(r.id) in plan <==> !HasId(ApplyAll(s, plan).list, r.id)
  {
    hide ApplyAll, Valid, OldNames, Fate, HasId;
    FateShows(s, plan, r);
    assert forall e | e in plan && Names(e, r.id) :: e == Delete(r.id);
    if Delete(r.id) in plan { FateDeleted(r, plan); } else { FateUnnamed(r, plan); }
  }

  /** The number a finished delete returns is the number of records that are gone. */
  lemma DeletedAreGone(s: Records, zone: nat, name: string)
    requires Valid(s)
    ensures |DeletePlan(s.list, zone, name)| == |Gone(s.list, ApplyAll(s, DeletePlan(s.list, zone, name)).list)|
  {
    hide DeletePlan, ApplyAll, Valid, OldNames, NamesOnce, Count, Others, HasId;
    var plan := DeletePlan(s.list, zone, name);
    var after := ApplyAll(s, plan).list;
    FinishedDelete(s, zone, name);
    DeletePlanNamesOnce(s, zone, name);
    CountOfDeletes(s.list, zone, name);
    CountsAreSizes(plan, IsDelete);
    forall r | r in s.list ensures Delete(r.id) in plan <==> !HasId(after, r.id) { GoneByDelete(s, plan, r); }
    forall e | e in plan ensures HasId(s.list, e.id) { DeletedIsThere(s, zone, name, e); }
    GoneAreNamed(s.list, after, plan);
  }

  lemma GoneAreNamed(before: seq<Record>, after: seq<Record>, plan: seq<Edit>)
    requires forall e | e in plan :: e.Delete? && HasId(before, e.id)
    requires forall r | r in before :: Delete(r.id) in plan <==> !HasId(after, r.id)
    ensures Gone(before, after) == NamedBy(plan, IsDelete)
  {
    assert forall e | e in plan :: e == Delete(e.id);
  }

  lemma DeletedIsThere(s: Records, zone: nat, name: string, e: Edit)
    requires e in DeletePlan(s.list, zone, name)
    ensures e.Delete? && HasId(s.list, e.id)
  {
    DeletesOf(Ours(Page(s.list, zone, A, name, 20)), e);
    DeletesOf(Ours(Page(s.list, zone, AAAA, name, 20)), e);
  }

  // ---------------------------------------------------------------- create, then delete

  lemma {:induction false} OthersOfUnmanaged(list: seq<Record>, zone: nat, name: string)
    requires forall r | r in list :: !Managed(r, zone, name)
    ensures Others(list, zone, name) == list
  {
    if list != [] { OthersOfUnmanaged(list[1..], zone, name); }
  }

  lemma ListedStep(r: Record, list: seq<Record>, zone: nat, kind: Kind, name: string)
    ensures Listed([r] + list, zone, kind, name) ==
            (if Matches(r, zone, kind, name) then [r] else []) + Listed(list, zone, kind, name)
  {
    assert ([r] + list)[1..] == list;
  }

  lemma {:induction false} ListedAppend(first: seq<Record>, second: seq<Record>, zone: nat, kind: Kind, name: string)
    ensures Listed(first + second, zone, kind, name) == Listed(first, zone, kind, name) + Listed(second, zone, kind, name)
  {
    if first == [] {
      assert first + second == second;
    } else {
      hide Listed, Matches;
      var r, rest := first[0], first[1..];
      ListedAppend(rest, second, zone, kind, name);
      ListedStep(r, rest, zone, kind, name);
      ListedStep(r, rest + second, zone, kind, name);
      Regroup([r], rest, second);
      assert first == [r] + rest;
      Regroup(if Matches(r, zone, kind, name) then [r] else [], Listed(rest, zone, kind, name), Listed(second, zone, kind, name));
    }
  }

  /** A delete of Pushify's records that all are on the page leaves the others, and none of Pushify's. */
  lemma DeleteLeavesOthers(s: Records, zone: nat, name: string)
    requires Valid(s) && forall r | r in s.list && Managed(r, zone, name) :: OnPage(s.list, r, zone, name)
    ensures ApplyAll(s, DeletePlan(s.list, zone, name)).list == Others(s.list, zone, name)
  {
    hide DeletePlan, ApplyAll, Valid, OnPage, OldNames, Fate, Others;
    var plan := DeletePlan(s.list, zone, name);
    var after := ApplyAll(s, plan).list;
    FinishedDelete(s, zone, name);
    forall x | x in after
      ensures !Managed(x, zone, name)
    {
      AfterEdits(s, plan, x);
      var r :| r in s.list && Fate(r, plan) == Some(x);
      if Managed(r, zone, name) {
        OnPageIsDeleted(s, zone, name, r);
        FateDeleted(r, plan);
      }
    }
    OthersOfUnmanaged(after, zone, name);
  }

  lemma FinishedDelete(s: Records, zone: nat, name: string)
    requires Valid(s)
    ensures var plan := DeletePlan(s.list, zone, name);
            && OldNames(s, plan) && (forall e | e in plan :: e.Delete?)
            && Others(ApplyAll(s, plan).list, zone, name) == Others(s.list, zone, name)
  {
    hide Valid, ApplyAll, Others;
    var plan := DeletePlan(s.list, zone, name);
    assert plan[..|plan|] == plan;
    assert PartlyApplied(s, plan, ApplyAll(s, plan));
    DeleteTouchesOnlyManaged(s, zone, name, ApplyAll(s, plan));
    forall e | e in plan ensures OnManaged(s, e, zone, name) { DeletePlanOnManaged(s, zone, name, e); }
  }

  lemma OnPageIsDeleted(s: Records, zone: nat, name: string, r: Record)
    requires OnPage(s.list, r, zone, name)
    ensures Delete(r.id) in DeletePlan(s.list, zone, name)
  {
    DeletesOf(Ours(Page(s.list, zone, r.kind, name, 20)), Delete(r.id));
  }

  lemma PostedOnPage(s: Records, wanted: seq<(Kind, string)>, zone: nat, name: string, posted: seq<Record>, r: Record)
    requires forall i | 0 <= i < |wanted| :: wanted[i].0 != Other
    requires forall i, j | 0 <= i < j < |wanted| :: wanted[i].0 != wanted[j].0
    requires |posted| == |wanted| && forall i | 0 <= i < |wanted| :: Matches(posted[i], zone, wanted[i].0, name)
    requires !Taken(s.list, zone, wanted, name)
    requires r in posted && Managed(r, zone, name)
    ensures OnPage(s.list + posted, r, zone, name)
  {
    var i :| 0 <= i < |posted| && posted[i] == r;
    assert Listed(s.list, zone, wanted[i].0, name) == [];
    hide Listed, Taken;
    ListedAppend(s.list, posted, zone, r.kind, name);
    ListedAlone(posted, i, zone, r.kind, name);
    assert [] + [r] == [r];
  }

  lemma ListedAlone(list: seq<Record>, i: nat, zone: nat, kind: Kind, name: string)
    requires i < |list| && Matches(list[i], zone, kind, name)
    requires forall k | 0 <= k < |list| && k != i :: list[k].kind != kind
    ensures Listed(list, zone, kind, name) == [list[i]]
  {
    var before, after := list[..i], list[i + 1..];
    assert [list[i]][1..] == [] && Listed([], zone, kind, name) == [];
    assert Listed([list[i]], zone, kind, name) == [list[i]];
    hide Listed;
    assert list == before + ([list[i]] + after);
    ListedAppend(before, [list[i]] + after, zone, kind, name);
    ListedAppend([list[i]], after, zone, kind, name);
    NoneOfKind(before, zone, kind, name);
    NoneOfKind(after, zone, kind, name);
  }

  lemma {:induction false} NoneOfKind(list: seq<Record>, zone: nat, kind: Kind, name: string)
    requires forall r | r in list :: r.kind != kind
    ensures Listed(list, zone, kind, name) == []
  {
    if list != [] { NoneOfKind(list[1..], zone, kind, name); }
  }

  /** Where a name had no managed records, a create followed by a delete of the same domain restores the zone,
      provided the domain has no trailing dot: create keeps the dot in the record's name, delete looks the name
      up without it. */
  lemma CreateThenDeleteRestores(s: Records, zones: seq<Zone>, domain: string, ipv4: Option<string>, ipv6: Option<string>, proxied: bool)
    requires Valid(s) && Wanted(ipv4, ipv6) != []
    requires ZoneFor(zones, Candidates(Lower(domain))).Some?
    requires var zone := ZoneFor(zones, Candidates(Lower(domain))).value.id; !Taken(s.list, zone, Wanted(ipv4, ipv6), Lower(domain))
    requires var zone := ZoneFor(zones, Candidates(Lower(domain))).value.id; forall r | r in s.list :: !Managed(r, zone, Lower(domain))
    ensures var zone := ZoneFor(zones, Candidates(Lower(domain))).value.id;
            var created := ApplyAll(s, Posts(Wanted(ipv4, ipv6), zone, Lower(domain), proxied));
            var found := ZoneFor(zones, Candidates(Undotted(Lower(domain))));
            var plan := if found.None? then [] else DeletePlan(created.list, found.value.id, Undotted(Lower(domain)));
            ApplyAll(created, plan).list == s.list <==> Undotted(Lower(domain)) == Lower(domain)
  {
    hide *;
    var name, bare, wanted := Lower(domain), Undotted(Lower(domain)), Wanted(ipv4, ipv6);
    var zone := ZoneFor(zones, Candidates(name)).value.id;
    var created := ApplyAll(s, Posts(wanted, zone, name, proxied));
    WantedKinds(ipv4, ipv6);
    AllPosted(s, wanted, zone, name, proxied);
    var found := ZoneFor(zones, Candidates(bare));
    if bare == name {
      RestoredAtOneName(s, created, wanted, zone, name, proxied);
    } else {
      LeftAtOtherName(s, created, wanted, zone, name, proxied, bare, if found.Some? then found.value.id else 0);
    }
  }

  lemma WantedKinds(ipv4: Option<string>, ipv6: Option<string>)
    ensures |Wanted(ipv4, ipv6)| <= 2
    ensures forall i | 0 <= i < |Wanted(ipv4, ipv6)| :: Wanted(ipv4, ipv6)[i].0 != Other
    ensures forall i, j | 0 <= i < j < |Wanted(ipv4, ipv6)| :: Wanted(ipv4, ipv6)[i].0 != Wanted(ipv4, ipv6)[j].0
  {
  }

  lemma AllPosted(s: Records, wanted: seq<(Kind, string)>, zone: nat, name: string, proxied: bool)
    requires Valid(s)
    ensures var created := ApplyAll(s, Posts(wanted, zone, name, proxied));
            && Valid(created) && s.list <= created.list && |created.list| == |s.list| + |wanted|
            && forall i | 0 <= i < |wanted| ::
                 created.list[|s.list| + i] == NewRecord(zone, wanted[i].0, name, wanted[i].1, proxied).(id := s.nextId + i)
  {
    var posts := Posts(wanted, zone, name, proxied);
    assert posts[..|wanted|] == posts;
    hide Posts, ApplyAll, Valid;
    CreateOnlyAdds(s, wanted, zone, name, proxied, |wanted|);
    ValidAfter(s, posts);
  }

  /** What was created under one name stays when another is deleted, and when nothing is. */
  lemma LeftAtOtherName(s: Records, created: Records, wanted: seq<(Kind, string)>, zone: nat, name: string, proxied: bool,
                        other: string, otherZone: nat)
    requires Valid(s) && Valid(created) && wanted != [] && other != name
    requires s.list <= created.list && |created.list| == |s.list| + |wanted|
    requires forall i | 0 <= i < |wanted| ::
               created.list[|s.list| + i] == NewRecord(zone, wanted[i].0, name, wanted[i].1, proxied).(id := s.nextId + i)
    ensures ApplyAll(created, []).list != s.list
    ensures ApplyAll(created, DeletePlan(created.list, otherZone, other)).list != s.list
  {
    assert ApplyAll(created, []) == created;
    hide ApplyAll, DeletePlan, Valid;
    var p := created.list[|s.list|];
    assert p == NewRecord(zone, wanted[0].0, name, wanted[0].1, proxied).(id := s.nextId);
    assert p in created.list && p.name == name && p.id == s.nextId;
    NewIsNotThere(s, p);
    DeleteSparesOtherNames(created, otherZone, other, p);
  }

  /** So the domain of any zone, written with a trailing dot, leaves its record behind. */
  lemma DottedDomainLeavesRecord(name: string, ipv4: string)
    requires '.' in name && Lower(name) == name && Undotted(name) == name && ipv4 != ""
    ensures var domain, zones, s := name + ".", [Zone(0, name)], Records([], 0);
            && ZoneFor(zones, Candidates(Lower(domain))) == ZoneFor(zones, Candidates(Undotted(Lower(domain)))) == Some(Zone(0, name))
            && var created := ApplyAll(s, Posts(Wanted(Some(ipv4), None), 0, Lower(domain), false));
               ApplyAll(created, DeletePlan(created.list, 0, Undotted(Lower(domain)))).list != []
  {
    hide *;
    var domain, zones, s := name + ".", [Zone(0, name)], Records([], 0);
    DottedName(name);
    OneZoneIsFound(domain, name);
    OneZoneIsFound(name, name);
    NothingYet(ipv4, domain);
    CreateThenDeleteRestores(s, zones, domain, Some(ipv4), None, false);
  }

  lemma DottedName(name: string)
    requires Lower(name) == name
    ensures Lower(name + ".") == name + "." && Undotted(name + ".") == name && name + "." != name
    ensures Encloses(name, name)
  {
    var d := name + ".";
    assert forall i | 0 <= i < |name| :: Lower(d)[i] == Lower(name)[i];
    assert LabelStart(name, 0) && name[0..] == name;
  }

  lemma NothingYet(ipv4: string, name: string)
    requires ipv4 != ""
    ensures Wanted(Some(ipv4), None) != [] && Valid(Records([], 0)) && !Taken([], 0, Wanted(Some(ipv4), None), name)
  {
  }

  lemma OneZoneIsFound(domain: string, name: string)
    requires Encloses(name, Undotted(Lower(domain))) && '.' in name
    ensures ZoneFor([Zone(0, name)], Candidates(domain)) == Some(Zone(0, name))
  {
    hide ZoneFor, Candidates, Encloses;
    var zones := [Zone(0, name)];
    MostSpecificZone(zones, domain);
    assert Zone(0, name) in zones;
  }

  lemma NewIsNotThere(s: Records, r: Record)
    requires Valid(s) && r.id == s.nextId
    ensures r !in s.list
  {
  }

  lemma DeleteSparesOtherNames(s: Records, zone: nat, name: string, r: Record)
    requires Valid(s) && r in s.list && r.name != name
    ensures r in ApplyAll(s, DeletePlan(s.list, zone, name)).list
  {
    var plan := DeletePlan(s.list, zone, name);
    assert plan[..|plan|] == plan;
    assert PartlyApplied(s, plan, ApplyAll(s, plan));
    DeleteTouchesOnlyManaged(s, zone, name, ApplyAll(s, plan));
    assert r in Others(s.list, zone, name);
  }

  lemma RestoredAtOneName(s: Records, created: Records, wanted: seq<(Kind, string)>, zone: nat, name: string, proxied: bool)
    requires Valid(s) && Valid(created) && |wanted| <= 2 && !Taken(s.list, zone, wanted, name)
    requires forall i | 0 <= i < |wanted| :: wanted[i].0 != Other
    requires forall i, j | 0 <= i < j < |wanted| :: wanted[i].0 != wanted[j].0
    requires forall r | r in s.list :: !Managed(r, zone, name)
    requires s.list <= created.list && |created.list| == |s.list| + |wanted|
    requires forall i | 0 <= i < |wanted| ::
               created.list[|s.list| + i] == NewRecord(zone, wanted[i].0, name, wanted[i].1, proxied).(id := s.nextId + i)
    ensures ApplyAll(created, DeletePlan(created.list, zone, name)).list == s.list
  {
    hide DeletePlan, ApplyAll, OnPage, Taken, Valid, Others;
    var posted := created.list[|s.list|..];
    assert created.list == s.list + posted;
    forall i | 0 <= i < |wanted|
      ensures Managed(posted[i], zone, name) && Matches(posted[i], zone, wanted[i].0, name)
    {
      var record := NewRecord(zone, wanted[i].0, name, wanted[i].1, proxied);
      assert posted[i] == created.list[|s.list| + i] == record.(id := s.nextId + i);
      assert wanted[i].0 != Other && IsOurs(posted[i]);
    }
    hide Managed, Matches, NewRecord;
    forall r | r in created.list && Managed(r, zone, name)
      ensures OnPage(created.list, r, zone, name)
    {
      assert r in s.list || r in posted;
      PostedOnPage(s, wanted, zone, name, posted, r);
    }
    DeleteLeavesOthers(created, zone, name);
    OthersOfPosted(s.list, posted, zone, name);
    OthersOfUnmanaged(s.list, zone, name);
  }

  lemma {:induction false} OthersOfPosted(list: seq<Record>, posted: seq<Record>, zone: nat, name: string)
    requires forall r | r in posted :: Managed(r, zone, name)
    ensures Others(list + posted, zone, name) == Others(list, zone, name)
  {
    if posted == [] {
      assert list + posted == list;
    } else {
      var n := |posted| - 1;
      OthersOfPosted(list, posted[..n], zone, name);
      OthersAppend(list + posted[..n], posted[n], zone, name);
      assert list + posted == (list + posted[..n]) + [posted[n]];
    }
  }
}