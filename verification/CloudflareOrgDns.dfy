/** DNS records of an organization's custom domain in its own Cloudflare zone (src/lib/cloudflare-org-dns.ts).
    The account is state that every API call reads or changes; any call may fail, before or after it took
    effect, and the functions stop there. Records with Pushify's comment share the zone with everybody else's. */
module CloudflareOrgDns {
  import opened Wrappers
  import opened Text

  const ORG_RECORD_COMMENT := "pushify:custom-domain"

  datatype ErrorCode = InvalidToken | ZoneNotFound | Conflict | ApiError

  datatype Kind = A | AAAA | Other

  datatype Zone = Zone(id: nat, name: string)

  datatype Record = Record(id: nat, zone: nat, kind: Kind, name: string, content: string, proxied: bool, comment: Option<string>)

  /** All records the account has, in the order a listing gives them, and the next identifier to give out. */
  datatype Records = Records(list: seq<Record>, nextId: nat)

  datatype Edit = Post(record: Record) | Patch(id: nat, content: string) | Delete(id: nat)

  predicate Valid(s: Records) {
    && (forall i | 0 <= i < |s.list| :: s.list[i].id < s.nextId)
    && (forall i, j | 0 <= i < j < |s.list| :: s.list[i].id != s.list[j].id)
  }

  function Without(list: seq<Record>, id: nat): (r: seq<Record>)
    ensures forall x :: x in r <==> x in list && x.id != id
  {
    if list == [] then []
    else if list[0].id == id then Without(list[1..], id)
    else [list[0]] + Without(list[1..], id)
  }

  function Repointed(list: seq<Record>, id: nat, content: string): seq<Record> {
    seq(|list|, i requires 0 <= i < |list| => if list[i].id == id then list[i].(content := content) else list[i])
  }

  function Apply(s: Records, e: Edit): Records {
    match e
    case Post(record) => Records(s.list + [record.(id := s.nextId)], s.nextId + 1)
    case Patch(id, content) => s.(list := Repointed(s.list, id, content))
    case Delete(id) => s.(list := Without(s.list, id))
  }

  function ApplyAll(s: Records, edits: seq<Edit>): Records {
    if edits == [] then s else Apply(ApplyAll(s, edits[..|edits| - 1]), edits[|edits| - 1])
  }

  /** Some of the edits took place, from the first on: what a crash or a failing call leaves. */
  ghost predicate PartlyApplied(before: Records, edits: seq<Edit>, after: Records) {
    exists k | 0 <= k <= |edits| :: after == ApplyAll(before, edits[..k])
  }

  predicate Matches(r: Record, zone: nat, kind: Kind, name: string) {
    r.zone == zone && r.kind == kind && r.name == name
  }

  /** `dns_records?type=…&name=…` without a limit. */
  function Listed(list: seq<Record>, zone: nat, kind: Kind, name: string): (r: seq<Record>)
    ensures forall x :: x in r <==> x in list && Matches(x, zone, kind, name)
  {
    if list == [] then []
    else if Matches(list[0], zone, kind, name) then [list[0]] + Listed(list[1..], zone, kind, name)
    else Listed(list[1..], zone, kind, name)
  }

  function Page(list: seq<Record>, zone: nat, kind: Kind, name: string, perPage: nat): (r: seq<Record>)
    ensures forall x | x in r :: x in list && Matches(x, zone, kind, name)
  {
    Listed(list, zone, kind, name)[..Min(|Listed(list, zone, kind, name)|, perPage)]
  }

  function FirstNamed(zones: seq<Zone>, name: string): (r: Option<Zone>)
    ensures r.Some? ==> r.value in zones && r.value.name == name
    ensures r.None? ==> forall z | z in zones :: z.name != name
  {
    if zones == [] then None else if zones[0].name == name then Some(zones[0]) else FirstNamed(zones[1..], name)
  }

  /** What the token of an organization reaches. */
  class Account {
    var zones: seq<Zone>
    var records: Records
    /** How many more calls are answered; the one after them fails. */
    var answered: nat
    var rejects: bool
    /** Whether the failing call took effect although its answer was lost. */
    var late: bool

    function CallError(): ErrorCode
      reads this`rejects
    {
      if rejects then InvalidToken else ApiError
    }

    /** The calls of a plan were made up to one that failed. */
    ghost predicate Stopped(before: Records, plan: seq<Edit>)
      reads this`answered, this`records
    {
      answered == 0 && PartlyApplied(before, plan, records)
    }

    method FindNamed(name: string) returns (r: Result<Option<Zone>, ErrorCode>)
      modifies this`answered
      ensures r == if old(answered) == 0 then Failure(CallError()) else Success(FirstNamed(zones, name))
      ensures answered == if old(answered) == 0 then 0 else old(answered) - 1
    {
      if answered == 0 { return Failure(CallError()); }
      answered := answered - 1;
      return Success(FirstNamed(zones, name));
    }

    method List(zone: nat, kind: Kind, name: string, perPage: nat) returns (r: Result<seq<Record>, ErrorCode>)
      modifies this`answered
      ensures r == if old(answered) == 0 then Failure(CallError()) else Success(Page(records.list, zone, kind, name, perPage))
      ensures answered == if old(answered) == 0 then 0 else old(answered) - 1
    {
      if answered == 0 { return Failure(CallError()); }
      answered := answered - 1;
      return Success(Page(records.list, zone, kind, name, perPage));
    }

    method Send(e: Edit) returns (error: Option<ErrorCode>)
      modifies this`answered, this`records
      ensures error == if old(answered) == 0 then Some(CallError()) else None
      ensures answered == if old(answered) == 0 then 0 else old(answered) - 1
      ensures records == if old(answered) == 0 && !late then old(records) else Apply(old(records), e)
    {
      if answered == 0 {
        if late { records := Apply(records, e); }
        return Some(CallError());
      }
      answered := answered - 1;
      records := Apply(records, e);
      return None;
    }
  }

  // ---------------------------------------------------------------- the zone of a domain

  /** `replace(/\.$/, '')` */
  function Undotted(s: string): string {
    if s != "" && s[|s| - 1] == '.' then s[..|s| - 1] else s
  }

  function Candidates(domain: string): (names: seq<string>)
  {
    var labels := SplitOn(Undotted(Lower(domain)), '.');
    seq(|labels| - 1, i requires 0 <= i < |labels| - 1 => Join(labels[i..], "."))
  }

  method ZoneCandidates(domain: string) returns (out: seq<string>)
    ensures out == Candidates(domain)
  {
    var labels := SplitOn(Undotted(Lower(domain)), '.');
    out := [];
    for i := 0 to |labels| - 1
      invariant out == Candidates(domain)[..i]
    {
      out := out + [Join(labels[i..], ".")];
    }
  }

  function ZoneFor(zones: seq<Zone>, names: seq<string>): Option<Zone> {
    if names == [] then None
    else if FirstNamed(zones, names[0]).Some? then FirstNamed(zones, names[0])
    else ZoneFor(zones, names[1..])
  }

  method FindZone(account: Account, domain: string) returns (r: Result<Option<Zone>, ErrorCode>)
    modifies account`answered
    ensures r.Success? ==> r.value == ZoneFor(account.zones, Candidates(domain))
    ensures r.Failure? ==> r.error == account.CallError() && account.answered == 0
  {
    var names := ZoneCandidates(domain);
    for i := 0 to |names|
      invariant ZoneFor(account.zones, names) == ZoneFor(account.zones, names[i..])
    {
      var answer := account.FindNamed(names[i]);
      if answer.Failure? { return Failure(answer.error); }
      if answer.value.Some? { return Success(answer.value); }
      assert names[i..][1..] == names[i + 1..];
    }
    return Success(None);
  }

  /** A label of the name starts here. */
  predicate LabelStart(s: string, j: int) {
    0 <= j <= |s| && (j == 0 || s[j - 1] == '.')
  }

  /** The zone is the domain itself or one of its parents. */
  ghost predicate Encloses(zone: string, domain: string) {
    exists j | LabelStart(domain, j) :: domain[j..] == zone
  }

  lemma {:induction false} JoinSplit(s: string)
    ensures Join(SplitOn(s, '.'), ".") == s
    ensures |SplitOn(s, '.')| > 1 <==> '.' in s
  {
    if s != "" {
      JoinSplit(s[1..]);
      var rest := SplitOn(s[1..], '.');
      if s[0] == '.' {
        assert ([""] + rest)[1..] == rest;
      } else {
        assert ([[s[0]] + rest[0]] + rest[1..])[1..] == rest[1..];
      }
      assert s == [s[0]] + s[1..];
    }
  }

  lemma SplitStep(s: string)
    requires s != ""
    ensures var rest := SplitOn(s[1..], '.');
            SplitOn(s, '.') == if s[0] == '.' then [""] + rest else [[s[0]] + rest[0]] + rest[1..]
  {
  }

  lemma PastFirst(first: string, rest: seq<string>, i: nat)
    requires 0 < i <= 1 + |rest|
    ensures ([first] + rest)[i..] == rest[i - 1..]
  {
  }

  /** Where the label with a given number starts. */
  lemma {:induction false} LabelAt(s: string, i: nat) returns (j: nat)
    requires i < |SplitOn(s, '.')|
    ensures LabelStart(s, j) && SplitOn(s[j..], '.') == SplitOn(s, '.')[i..]
    ensures i > 0 ==> j > 0
  {
    assert s == "" ==> |SplitOn(s, '.')| == 1;
    hide SplitOn;
    if i == 0 {
      j := 0;
      assert s[0..] == s;
    } else {
      SplitStep(s);
      if s[0] == '.' {
        j := LabelAt(s[1..], i - 1);
        LabelAfterDot(s, i - 1);
      } else {
        j := LabelAt(s[1..], i);
        LabelAfterLetter(s, i);
      }
      assert s[j + 1..] == s[1..][j..];
      j := j + 1;
    }
  }

  /** A label that starts later is not the first. */
  lemma {:induction false} LabelsShrink(s: string, j: nat)
    requires 0 < j && LabelStart(s, j)
    ensures |SplitOn(s[j..], '.')| < |SplitOn(s, '.')|
  {
    SplitStep(s);
    hide SplitOn;
    assert s[j..] == s[1..][j - 1..];
    if j > 1 {
      LabelsShrink(s[1..], j - 1);
    } else {
      assert s[1..][0..] == s[1..];
    }
  }

  /** From the labels of the rest to those of the whole, when the whole starts a label, or does not. */
  lemma LabelAfterDot(s: string, i: nat)
    requires s != "" && s[0] == '.' && i < |SplitOn(s[1..], '.')|
    ensures i + 1 < |SplitOn(s, '.')| && SplitOn(s, '.')[i + 1..] == SplitOn(s[1..], '.')[i..]
  {
    SplitStep(s);
    hide SplitOn;
    PastFirst("", SplitOn(s[1..], '.'), i + 1);
  }

  lemma LabelAfterLetter(s: string, i: nat)
    requires s != "" && s[0] != '.' && 0 < i < |SplitOn(s[1..], '.')|
    ensures i < |SplitOn(s, '.')| && SplitOn(s, '.')[i..] == SplitOn(s[1..], '.')[i..]
  {
    SplitStep(s);
    hide SplitOn;
    var rest := SplitOn(s[1..], '.');
    PastFirst([s[0]] + rest[0], rest[1..], i);
    assert rest[1..][i - 1..] == rest[i..];
  }

  /** The number of the label that starts here. */
  lemma {:induction false} LabelNumber(s: string, j: nat) returns (i: nat)
    requires LabelStart(s, j)
    ensures i < |SplitOn(s, '.')| && SplitOn(s[j..], '.') == SplitOn(s, '.')[i..]
  {
    hide SplitOn;
    if j == 0 {
      i := 0;
      assert s[0..] == s;
    } else {
      assert s[j..] == s[1..][j - 1..];
      i := LabelNumber(s[1..], j - 1);
      if s[0] == '.' {
        LabelAfterDot(s, i);
        i := i + 1;
      } else {
        LabelsShrink(s[1..], j - 1);
        LabelAfterLetter(s, i);
      }
    }
  }

  /** The candidates are the domain and its parents that still have a dot. */
  lemma CandidatesAreParents(domain: string, zone: string)
    ensures zone in Candidates(domain) <==> (Encloses(zone, Undotted(Lower(domain))) && '.' in zone)
  {
    var d := Undotted(Lower(domain));
    var labels := SplitOn(d, '.');
    if zone in Candidates(domain) {
      var i :| 0 <= i < |labels| - 1 && Candidates(domain)[i] == zone;
      var j := LabelAt(d, i);
      JoinSplit(d[j..]);
    }
    if Encloses(zone, d) && '.' in zone {
      var j :| LabelStart(d, j) && d[j..] == zone;
      var i := LabelNumber(d, j);
      JoinSplit(zone);
      assert Candidates(domain)[i] == zone;
    }
  }

  lemma {:induction false} JoinShrinks(labels: seq<string>, i: nat)
    requires i < |labels|
    ensures |Join(labels[i..], ".")| <= |Join(labels, ".")|
  {
    if i > 0 {
      JoinShrinks(labels[1..], i - 1);
      assert labels[1..][i - 1..] == labels[i..];
    } else {
      assert labels[0..] == labels;
    }
  }

  /** No zone has a name before this one. */
  ghost predicate FirstIn(zones: seq<Zone>, names: seq<string>, i: nat) {
    forall o, k | o in zones && 0 <= k < i && k < |names| :: o.name != names[k]
  }

  lemma {:induction false} ZoneForIsFirst(zones: seq<Zone>, names: seq<string>)
    ensures ZoneFor(zones, names).None? ==> forall z | z in zones :: z.name !in names
    ensures ZoneFor(zones, names).Some? ==>
              var z := ZoneFor(zones, names).value;
              && z in zones
              && exists i | 0 <= i < |names| :: FirstIn(zones, names, i) && names[i] == z.name
  {
    if names != [] {
      if FirstNamed(zones, names[0]).Some? {
        assert FirstIn(zones, names, 0) && names[0] == ZoneFor(zones, names).value.name;
      } else {
        ZoneForIsFirst(zones, names[1..]);
        if ZoneFor(zones, names).Some? {
          var i :| 0 <= i < |names[1..]| && FirstIn(zones, names[1..], i) &&
                   names[1..][i] == ZoneFor(zones, names).value.name;
          forall o, k | o in zones && 0 <= k < i + 1 && k < |names|
            ensures o.name != names[k]
          {
            assert k > 0 ==> names[k] == names[1..][k - 1];
          }
          assert FirstIn(zones, names, i + 1) && names[i + 1] == ZoneFor(zones, names).value.name;
        }
      }
    }
  }

  /** The zone found is the most specific one the token can see that contains the domain. */
  lemma MostSpecificZone(zones: seq<Zone>, domain: string)
    ensures var d := Undotted(Lower(domain));
            match ZoneFor(zones, Candidates(domain))
            case None => forall z | z in zones :: !(Encloses(z.name, d) && '.' in z.name)
            case Some(found) =>
              && found in zones && Encloses(found.name, d) && '.' in found.name
              && forall z | z in zones && Encloses(z.name, d) && '.' in z.name :: |z.name| <= |found.name|
  {
    hide Lower, Undotted, Candidates, ZoneFor, Encloses;
    var d := Undotted(Lower(domain));
    var names := Candidates(domain);
    ZoneForIsFirst(zones, names);
    forall z | z in zones
      ensures z.name in names <==> (Encloses(z.name, d) && '.' in z.name)
    {
      CandidatesAreParents(domain, z.name);
    }
    if ZoneFor(zones, names).Some? {
      var found := ZoneFor(zones, names).value;
      var i :| 0 <= i < |names| && FirstIn(zones, names, i) && names[i] == found.name;
      forall z | z in zones && z.name in names
        ensures |z.name| <= |found.name|
      {
        var k :| 0 <= k < |names| && names[k] == z.name;
        CandidatesShrink(domain, i, k);
      }
    }
  }

  lemma CandidatesShrink(domain: string, i: nat, k: nat)
    requires i <= k < |Candidates(domain)|
    ensures |Candidates(domain)[k]| <= |Candidates(domain)[i]|
  {
    var labels := SplitOn(Undotted(Lower(domain)), '.');
    JoinShrinks(labels[i..], k - i);
    assert labels[i..][k - i..] == labels[k..];
  }

  // ---------------------------------------------------------------- create, delete, sync

  /** Both an absent address and an empty one count as none. */
  function Given(address: Option<string>): Option<string> {
    if address == Some("") then None else address
  }

  predicate IsOurs(r: Record) { r.comment == Some(ORG_RECORD_COMMENT) }

  function Ours(page: seq<Record>): (r: seq<Record>)
    ensures forall x :: x in r <==> x in page && IsOurs(x)
  {
    if page == [] then [] else if IsOurs(page[0]) then [page[0]] + Ours(page[1..]) else Ours(page[1..])
  }

  function NewRecord(zone: nat, kind: Kind, name: string, content: string, proxied: bool): Record {
    Record(0, zone, kind, name, content, proxied, Some(ORG_RECORD_COMMENT))
  }

  function Deletes(rs: seq<Record>): seq<Edit> {
    seq(|rs|, i requires 0 <= i < |rs| => Delete(rs[i].id))
  }

  function Patches(rs: seq<Record>, wanted: string): seq<Edit> {
    if rs == [] then []
    else
      var before := Patches(rs[..|rs| - 1], wanted);
      var last := rs[|rs| - 1];
      if last.content == wanted then before else before + [Patch(last.id, wanted)]
  }

  function Posts(wanted: seq<(Kind, string)>, zone: nat, name: string, proxied: bool): seq<Edit> {
    seq(|wanted|, i requires 0 <= i < |wanted| => Post(NewRecord(zone, wanted[i].0, name, wanted[i].1, proxied)))
  }

  /** The calls a delete makes. */
  function DeletePlan(list: seq<Record>, zone: nat, name: string): seq<Edit> {
    Deletes(Ours(Page(list, zone, A, name, 20))) + Deletes(Ours(Page(list, zone, AAAA, name, 20)))
  }

  function KindPlan(page: seq<Record>, zone: nat, kind: Kind, name: string, wanted: Option<string>, proxied: bool): seq<Edit> {
    match wanted
    case None => Deletes(Ours(page))
    case Some(content) =>
      if page == [] then [Post(NewRecord(zone, kind, name, content, proxied))] else Patches(Ours(page), content)
  }

  /** The calls a sync makes. */
  function SyncPlan(list: seq<Record>, zone: nat, name: string, ipv4: string, ipv6: Option<string>): seq<Edit> {
    var a, aaaa := Page(list, zone, A, name, 20), Page(list, zone, AAAA, name, 20);
    var managed := Ours(a) + Ours(aaaa);
    if managed == [] then []
    else KindPlan(a, zone, A, name, Some(ipv4), managed[0].proxied) + KindPlan(aaaa, zone, AAAA, name, ipv6, managed[0].proxied)
  }

  function Wanted(ipv4: Option<string>, ipv6: Option<string>): seq<(Kind, string)> {
    (if Given(ipv4).Some? then [(A, Given(ipv4).value)] else []) +
    (if Given(ipv6).Some? then [(AAAA, Given(ipv6).value)] else [])
  }

  predicate Taken(list: seq<Record>, zone: nat, wanted: seq<(Kind, string)>, name: string) {
    exists i | 0 <= i < |wanted| :: Listed(list, zone, wanted[i].0, name) != []
  }

  /** The address counts and is this one. */
  predicate Is(address: Option<string>, content: string) {
    address == Some(content) && content != ""
  }

  /** Exactly the records asked for: an A record for the IPv4, an AAAA record for the IPv6. */
  ghost predicate PointAt(records: seq<Record>, zone: nat, name: string, ipv4: Option<string>, ipv6: Option<string>, proxied: bool) {
    && (forall r | r in records ::
          r.zone == zone && r.name == name && r.proxied == proxied && IsOurs(r) && (r.kind == A || r.kind == AAAA))
    && (forall c :: Is(ipv4, c) <==> exists r | r in records :: r.kind == A && r.content == c)
    && (forall c :: Is(ipv6, c) <==> exists r | r in records :: r.kind == AAAA && r.content == c)
    && (forall i, j | 0 <= i < j < |records| :: records[i].kind != records[j].kind)
  }

  /** A record stands at the name that is of a kind whose address is given. */
  ghost predicate InTheWay(list: seq<Record>, zone: nat, name: string, ipv4: Option<string>, ipv6: Option<string>) {
    exists r | r in list ::
      && r.zone == zone && r.name == name
      && ((r.kind == A && exists c :: Is(ipv4, c)) || (r.kind == AAAA && exists c :: Is(ipv6, c)))
  }

  lemma GivenIs(address: Option<string>)
    ensures forall c :: Given(address) == Some(c) <==> Is(address, c)
    ensures Given(address).Some? <==> exists c :: Is(address, c)
  {
    if Given(address).Some? { assert Is(address, Given(address).value); }
  }

  lemma WantedIs(ipv4: Option<string>, ipv6: Option<string>)
    ensures forall c :: (A, c) in Wanted(ipv4, ipv6) <==> Is(ipv4, c)
    ensures forall c :: (AAAA, c) in Wanted(ipv4, ipv6) <==> Is(ipv6, c)
    ensures forall c :: (Other, c) !in Wanted(ipv4, ipv6)
    ensures forall i, j | 0 <= i < j < |Wanted(ipv4, ipv6)| :: Wanted(ipv4, ipv6)[i].0 != Wanted(ipv4, ipv6)[j].0
    ensures Wanted(ipv4, ipv6) == [] <==> forall c :: !Is(ipv4, c) && !Is(ipv6, c)
  {
    GivenIs(ipv4);
    GivenIs(ipv6);
  }

  /** A name is taken exactly when a record is in the way. */
  lemma TakenIsInTheWay(list: seq<Record>, zone: nat, ipv4: Option<string>, ipv6: Option<string>, name: string)
    ensures Taken(list, zone, Wanted(ipv4, ipv6), name) <==> InTheWay(list, zone, name, ipv4, ipv6)
  {
    var wanted := Wanted(ipv4, ipv6);
    WantedIs(ipv4, ipv6);
    hide Wanted, Listed, Is;
    if Taken(list, zone, wanted, name) {
      var i :| 0 <= i < |wanted| && Listed(list, zone, wanted[i].0, name) != [];
      var r := Listed(list, zone, wanted[i].0, name)[0];
      assert r in list && Matches(r, zone, wanted[i].0, name);
      assert wanted[i] in wanted && wanted[i] == (wanted[i].0, wanted[i].1);
    }
    if InTheWay(list, zone, name, ipv4, ipv6) {
      var r :| r in list && r.zone == zone && r.name == name &&
               ((r.kind == A && exists c :: Is(ipv4, c)) || (r.kind == AAAA && exists c :: Is(ipv6, c)));
      var c :| (r.kind, c) in wanted;
      var i :| 0 <= i < |wanted| && wanted[i] == (r.kind, c);
      assert r in Listed(list, zone, wanted[i].0, name);
    }
  }

  lemma PostedPointAt(posted: seq<Record>, zone: nat, name: string, ipv4: Option<string>, ipv6: Option<string>, proxied: bool)
    requires var wanted := Wanted(ipv4, ipv6);
             |posted| == |wanted| && forall i | 0 <= i < |posted| ::
               posted[i] == NewRecord(zone, wanted[i].0, name, wanted[i].1, proxied).(id := posted[i].id)
    ensures PointAt(posted, zone, name, ipv4, ipv6, proxied)
  {
    var wanted := Wanted(ipv4, ipv6);
    WantedIs(ipv4, ipv6);
    hide Wanted, Is;
    forall r | r in posted
      ensures (r.kind, r.content) in wanted && r.zone == zone && r.name == name && r.proxied == proxied && IsOurs(r)
    {
      var i :| 0 <= i < |posted| && posted[i] == r;
      assert wanted[i] in wanted && wanted[i] == (r.kind, r.content);
    }
    forall kind, c | (kind, c) in wanted
      ensures exists r | r in posted :: r.kind == kind && r.content == c
    {
      var i :| 0 <= i < |wanted| && wanted[i] == (kind, c);
      assert posted[i] in posted && posted[i].kind == kind && posted[i].content == c;
    }
  }

  lemma AppliedOneMore(s: Records, edits: seq<Edit>, k: nat)
    requires k < |edits|
    ensures ApplyAll(s, edits[..k + 1]) == Apply(ApplyAll(s, edits[..k]), edits[k])
  {
    assert edits[..k + 1][..k] == edits[..k];
  }

  lemma AppliedAndOne(s: Records, edits: seq<Edit>, e: Edit)
    ensures ApplyAll(s, edits + [e]) == Apply(ApplyAll(s, edits), e)
  {
    assert (edits + [e])[..|edits|] == edits;
    hide Apply;
  }

  lemma Rejoined(first: seq<Edit>, second: seq<Edit>)
    requires second != []
    ensures var n := |second| - 1;
            second == second[..n] + [second[n]] && first + second == (first + second[..n]) + [second[n]]
  {
  }

  lemma {:induction false} AppliedInTurn(s: Records, first: seq<Edit>, second: seq<Edit>)
    ensures ApplyAll(s, first + second) == ApplyAll(ApplyAll(s, first), second)
  {
    if second == [] {
      assert first + second == first;
    } else {
      hide ApplyAll, Apply;
      var n := |second| - 1;
      AppliedInTurn(s, first, second[..n]);
      AppliedAndOne(s, first + second[..n], second[n]);
      AppliedAndOne(ApplyAll(s, first), second[..n], second[n]);
      Rejoined(first, second);
    }
  }

  /** A plan of two stages stopped in the first, or in the second. */
  lemma StoppedInFirst(s: Records, first: seq<Edit>, second: seq<Edit>, after: Records)
    requires PartlyApplied(s, first, after)
    ensures PartlyApplied(s, first + second, after)
  {
    var k :| 0 <= k <= |first| && after == ApplyAll(s, first[..k]);
    assert (first + second)[..k] == first[..k];
  }

  lemma StoppedInSecond(s: Records, first: seq<Edit>, second: seq<Edit>, after: Records)
    requires PartlyApplied(ApplyAll(s, first), second, after)
    ensures PartlyApplied(s, first + second, after)
  {
    var k :| 0 <= k <= |second| && after == ApplyAll(ApplyAll(s, first), second[..k]);
    AppliedInTurn(s, first, second[..k]);
    assert (first + second)[..|first| + k] == first + second[..k];
  }

  lemma NothingApplied(s: Records, edits: seq<Edit>)
    ensures PartlyApplied(s, edits, s)
  {
    assert s == ApplyAll(s, edits[..0]);
  }

  /** Sends the calls of one loop of the source, which stops at the first that fails. */
  method SendDeletes(account: Account, rs: seq<Record>) returns (count: nat, error: Option<ErrorCode>)
    modifies account`answered, account`records
    ensures error.None? ==> account.records == ApplyAll(old(account.records), Deletes(rs)) && count == |Deletes(rs)|
    ensures error.Some? ==> error == Some(account.CallError()) && account.Stopped(old(account.records), Deletes(rs))
  {
    count, error := 0, None;
    for i := 0 to |rs|
      invariant count == i && error.None?
      invariant account.records == ApplyAll(old(account.records), Deletes(rs)[..i])
    {
      AppliedOneMore(old(account.records), Deletes(rs), i);
      error := account.Send(Delete(rs[i].id));
      if error.Some? { return; }
      count := count + 1;
    }
    assert Deletes(rs)[..|rs|] == Deletes(rs);
  }

  method SendPatches(account: Account, rs: seq<Record>, wanted: string) returns (count: nat, error: Option<ErrorCode>)
    modifies account`answered, account`records
    ensures error.None? ==> account.records == ApplyAll(old(account.records), Patches(rs, wanted)) && count == |Patches(rs, wanted)|
    ensures error.Some? ==>
              error == Some(account.CallError()) && account.Stopped(old(account.records), Patches(rs, wanted))
  {
    count, error := 0, None;
    ghost var all := Patches(rs, wanted);
    for i := 0 to |rs|
      invariant error.None?
      invariant count == |Patches(rs[..i], wanted)| && Patches(rs[..i], wanted) <= all
      invariant account.records == ApplyAll(old(account.records), all[..count])
    {
      PatchesGrow(rs, wanted, i);
      if rs[i].content == wanted { continue; }
      AppliedOneMore(old(account.records), all, count);
      error := account.Send(Patch(rs[i].id, wanted));
      if error.Some? { return; }
      count := count + 1;
    }
    assert rs[..|rs|] == rs && all[..|all|] == all;
  }

  lemma {:induction false} PatchesGrow(rs: seq<Record>, wanted: string, i: nat)
    requires i < |rs|
    ensures Patches(rs[..i + 1], wanted) <= Patches(rs, wanted)
    ensures Patches(rs[..i + 1], wanted) ==
            Patches(rs[..i], wanted) + (if rs[i].content == wanted then [] else [Patch(rs[i].id, wanted)])
    decreases |rs|
  {
    assert rs[..i + 1][..i] == rs[..i];
    if i + 1 < |rs| {
      PatchesGrow(rs[..|rs| - 1], wanted, i);
      assert rs[..|rs| - 1][..i + 1] == rs[..i + 1];
      assert rs[..|rs| - 1][..i] == rs[..i];
    } else {
      assert rs[..i + 1] == rs;
    }
  }

  method SendPosts(account: Account, wanted: seq<(Kind, string)>, zone: nat, name: string, proxied: bool)
    returns (posted: seq<Record>, error: Option<ErrorCode>)
    modifies account`answered, account`records
    ensures error.None? ==>
              && account.records == ApplyAll(old(account.records), Posts(wanted, zone, name, proxied))
              && account.records.list == old(account.records.list) + posted && |posted| == |wanted|
              && forall i | 0 <= i < |posted| ::
                   posted[i] == NewRecord(zone, wanted[i].0, name, wanted[i].1, proxied).(id := old(account.records.nextId) + i)
    ensures error.Some? ==>
              error == Some(account.CallError()) && account.Stopped(old(account.records), Posts(wanted, zone, name, proxied))
  {
    posted, error := [], None;
    ghost var all := Posts(wanted, zone, name, proxied);
    for i := 0 to |wanted|
      invariant error.None? && |posted| == i
      invariant account.records == ApplyAll(old(account.records), all[..i])
      invariant account.records.list == old(account.records.list) + posted
      invariant account.records.nextId == old(account.records.nextId) + i
      invariant forall k | 0 <= k < i ::
                  posted[k] == NewRecord(zone, wanted[k].0, name, wanted[k].1, proxied).(id := old(account.records.nextId) + k)
    {
      AppliedOneMore(old(account.records), all, i);
      var id := account.records.nextId;
      error := account.Send(Post(NewRecord(zone, wanted[i].0, name, wanted[i].1, proxied)));
      if error.Some? { return; }
      posted := posted + [NewRecord(zone, wanted[i].0, name, wanted[i].1, proxied).(id := id)];
    }
    assert all[..|wanted|] == all;
  }

  /** Creates the records in a zone or, when one is in the way, none. */
  method CreateInZone(account: Account, zone: nat, name: string, wanted: seq<(Kind, string)>, ipv4: Option<string>,
                      ipv6: Option<string>, proxied: bool)
    returns (r: Result<seq<Record>, ErrorCode>)
    requires wanted == Wanted(ipv4, ipv6)
    modifies account`answered, account`records
    ensures r.Success? || r.error == Conflict || r.error == account.CallError()
    ensures r.Success? ==>
              && PointAt(r.value, zone, name, ipv4, ipv6, proxied)
              && account.records.list == old(account.records.list) + r.value
              && account.records == ApplyAll(old(account.records), Posts(wanted, zone, name, proxied))
    ensures r == Failure(Conflict) ==> account.records == old(account.records)
    ensures r.Success? || account.records != old(account.records) ==> !InTheWay(old(account.records.list), zone, name, ipv4, ipv6)
    ensures r == Failure(Conflict) ==> InTheWay(old(account.records.list), zone, name, ipv4, ipv6)
    ensures r.Failure? && r.error != Conflict ==> account.Stopped(old(account.records), Posts(wanted, zone, name, proxied))
  {
    TakenIsInTheWay(account.records.list, zone, ipv4, ipv6, name);
    NothingApplied(account.records, Posts(wanted, zone, name, proxied));
    hide Wanted, Is, InTheWay, PointAt, PartlyApplied, ApplyAll, Posts;
    for i := 0 to |wanted|
      invariant account.records == old(account.records)
      invariant forall k | 0 <= k < i :: Listed(account.records.list, zone, wanted[k].0, name) == []
    {
      var existing := account.List(zone, wanted[i].0, name, 5);
      if existing.Failure? { return Failure(existing.error); }
      if |existing.value| > 0 { return Failure(Conflict); }
    }

    var posted, error := SendPosts(account, wanted, zone, name, proxied);
    if error.Some? { return Failure(error.value); }
    PostedPointAt(posted, zone, name, ipv4, ipv6, proxied);
    return Success(posted);
  }

  /** Creates the records for the addresses given or, when a record is in the way, none. An error other than a
      failing call leaves all records as they were; a failing call ends it where it was. */
  method CreateCustomDomainRecords(account: Account, domain: string, ipv4: Option<string>, ipv6: Option<string>, proxied: bool)
    returns (r: Result<(string, seq<Record>), ErrorCode>)
    modifies account`answered, account`records
    ensures (forall c :: !Is(ipv4, c) && !Is(ipv6, c)) ==>
              r == Failure(ApiError) && account.records == old(account.records) && account.answered == old(account.answered)
    ensures (exists c :: Is(ipv4, c) || Is(ipv6, c)) ==>
              var name := Lower(domain);
              var zone := ZoneFor(account.zones, Candidates(name));
              var posts := if zone.None? then [] else Posts(Wanted(ipv4, ipv6), zone.value.id, name, proxied);
              match r
              case Success((zoneName, posted)) =>
                && zone.Some? && zoneName == zone.value.name
                && !InTheWay(old(account.records.list), zone.value.id, name, ipv4, ipv6)
                && PointAt(posted, zone.value.id, name, ipv4, ipv6, proxied)
                && account.records.list == old(account.records.list) + posted
                && account.records == ApplyAll(old(account.records), posts)
              case Failure(Conflict) =>
                && account.records == old(account.records)
                && zone.Some? && InTheWay(old(account.records.list), zone.value.id, name, ipv4, ipv6)
              case Failure(ZoneNotFound) => account.records == old(account.records) && zone.None?
              case Failure(error) =>
                && error == account.CallError() && account.Stopped(old(account.records), posts)
                && (account.records == old(account.records) ||
                    !InTheWay(old(account.records.list), zone.value.id, name, ipv4, ipv6))
  {
    var name := Lower(domain);
    var wanted := [];
    if Given(ipv4).Some? { wanted := wanted + [(A, Given(ipv4).value)]; }
    if Given(ipv6).Some? { wanted := wanted + [(AAAA, Given(ipv6).value)]; }
    assert wanted == Wanted(ipv4, ipv6);
    WantedIs(ipv4, ipv6);
    hide Wanted, Is, InTheWay, PointAt, Candidates, ZoneFor, Lower, PartlyApplied, ApplyAll, Posts;
    if |wanted| == 0 { return Failure(ApiError); }

    ghost var found := ZoneFor(account.zones, Candidates(name));
    NothingApplied(account.records, []);
    if found.Some? { NothingApplied(account.records, Posts(wanted, found.value.id, name, proxied)); }
    var zone := FindZone(account, name);
    if zone.Failure? { return Failure(zone.error); }
    if zone.value.None? { return Failure(ZoneNotFound); }
    var posted := CreateInZone(account, zone.value.value.id, name, wanted, ipv4, ipv6, proxied);
    if posted.Failure? { return Failure(posted.error); }
    return Success((zone.value.value.name, posted.value));
  }

  lemma IdsTellRecordsApart(s: Records, x: Record, y: Record)
    requires Valid(s) && x in s.list && y in s.list && x.id == y.id
    ensures x == y
  {
  }

  lemma {:induction false} WithoutAbsent(list: seq<Record>, id: nat)
    requires forall x | x in list :: x.id != id
    ensures Without(list, id) == list
  {
    if list != [] { WithoutAbsent(list[1..], id); }
  }

  lemma {:induction false} ListedWithout(list: seq<Record>, id: nat, zone: nat, kind: Kind, name: string)
    ensures Listed(Without(list, id), zone, kind, name) == Without(Listed(list, zone, kind, name), id)
  {
    if list != [] {
      ListedWithout(list[1..], id, zone, kind, name);
      var rest := Without(list[1..], id);
      assert ([list[0]] + rest)[1..] == rest;
      var listed := Listed(list[1..], zone, kind, name);
      assert ([list[0]] + listed)[1..] == listed;
    }
  }

  /** Deleting records of other kinds leaves a listing as it was. */
  lemma {:induction false} OtherKindStays(s: Records, rs: seq<Record>, zone: nat, kind: Kind, name: string)
    requires Valid(s) && forall r | r in rs :: r in s.list && r.kind != kind
    ensures Listed(ApplyAll(s, Deletes(rs)).list, zone, kind, name) == Listed(s.list, zone, kind, name)
    decreases |rs|
  {
    if rs != [] {
      var n := |rs| - 1;
      OtherKindStays(s, rs[..n], zone, kind, name);
      assert Deletes(rs)[..n] == Deletes(rs[..n]) && Deletes(rs)[..n + 1] == Deletes(rs) && Deletes(rs)[n] == Delete(rs[n].id);
      AppliedOneMore(s, Deletes(rs), n);
      hide ApplyAll, Listed, Without, Valid, Deletes;
      var t := ApplyAll(s, Deletes(rs[..n]));
      ListedWithout(t.list, rs[n].id, zone, kind, name);
      forall x | x in Listed(s.list, zone, kind, name)
        ensures x.id != rs[n].id
      {
        if x.id == rs[n].id { IdsTellRecordsApart(s, x, rs[n]); }
      }
      WithoutAbsent(Listed(s.list, zone, kind, name), rs[n].id);
    }
  }

  method DeleteInZone(account: Account, zone: nat, name: string) returns (r: Result<nat, ErrorCode>)
    requires Valid(account.records)
    modifies account`answered, account`records
    ensures var plan := DeletePlan(old(account.records.list), zone, name);
            match r
            case Success(deleted) => account.records == ApplyAll(old(account.records), plan) && deleted == |plan|
            case Failure(error) => error == account.CallError() && account.Stopped(old(account.records), plan)
  {
    ghost var before := account.records;
    NothingApplied(before, DeletePlan(before.list, zone, name));
    var a := account.List(zone, A, name, 20);
    if a.Failure? { return Failure(a.error); }
    ghost var first, second := Deletes(Ours(a.value)), Deletes(Ours(Page(before.list, zone, AAAA, name, 20)));
    OtherKindStays(before, Ours(a.value), zone, AAAA, name);
    hide Deletes, Ours, Listed, ApplyAll, Valid, PartlyApplied;
    var deleted, error := SendDeletes(account, Ours(a.value));
    if error.Some? {
      StoppedInFirst(before, first, second, account.records);
      return Failure(error.value);
    }
    AppliedInTurn(before, first, second);
    NothingApplied(ApplyAll(before, first), second);
    var aaaa := account.List(zone, AAAA, name, 20);
    if aaaa.Failure? {
      StoppedInSecond(before, first, second, account.records);
      return Failure(aaaa.error);
    }
    var deletedToo;
    deletedToo, error := SendDeletes(account, Ours(aaaa.value));
    if error.Some? {
      StoppedInSecond(before, first, second, account.records);
      return Failure(error.value);
    }
    return Success(deleted + deletedToo);
  }

  /** Deletes Pushify's address records among the first twenty of each kind, counting them. */
  method DeleteCustomDomainRecords(account: Account, domain: string) returns (r: Result<nat, ErrorCode>)
    requires Valid(account.records)
    modifies account`answered, account`records
    ensures var name := Undotted(Lower(domain));
            var zone := ZoneFor(account.zones, Candidates(name));
            var plan := if zone.None? then [] else DeletePlan(old(account.records.list), zone.value.id, name);
            match r
            case Success(deleted) => account.records == ApplyAll(old(account.records), plan) && deleted == |plan|
            case Failure(error) => error == account.CallError() && account.Stopped(old(account.records), plan)
  {
    var name := Undotted(Lower(domain));
    ghost var before := account.records;
    assert before == ApplyAll(before, []);
    hide Lower, Undotted, Candidates, ZoneFor, DeletePlan, ApplyAll, PartlyApplied, Valid;
    var zone := FindZone(account, name);
    if zone.Failure? {
      NothingApplied(before, []);
      ghost var found := ZoneFor(account.zones, Candidates(name));
      if found.Some? { NothingApplied(before, DeletePlan(before.list, found.value.id, name)); }
      return Failure(zone.error);
    }
    if zone.value.None? { return Success(0); }
    r := DeleteInZone(account, zone.value.value.id, name);
  }

  datatype SyncResult = SyncResult(updated: nat, created: nat, deleted: nat)

  predicate IsPost(e: Edit) { e.Post? }
  predicate IsPatch(e: Edit) { e.Patch? }
  predicate IsDelete(e: Edit) { e.Delete? }

  function Count(edits: seq<Edit>, kind: Edit -> bool): nat {
    if edits == [] then 0 else Count(edits[..|edits| - 1], kind) + (if kind(edits[|edits| - 1]) then 1 else 0)
  }

  /** What a sync reports for the calls it made. */
  function Report(edits: seq<Edit>): SyncResult {
    SyncResult(Count(edits, IsPatch), Count(edits, IsPost), Count(edits, IsDelete))
  }

  lemma {:induction false} ReportsAdd(first: seq<Edit>, second: seq<Edit>)
    ensures Report(first + second) ==
            SyncResult(Report(first).updated + Report(second).updated, Report(first).created + Report(second).created,
                       Report(first).deleted + Report(second).deleted)
  {
    if second == [] {
      assert first + second == first;
    } else {
      var n := |second| - 1;
      ReportsAdd(first, second[..n]);
      assert (first + second)[..|first| + n] == first + second[..n];
    }
  }

  lemma {:induction false} ReportOfDeletes(rs: seq<Record>)
    ensures Report(Deletes(rs)) == SyncResult(0, 0, |rs|)
  {
    if rs != [] {
      ReportOfDeletes(rs[..|rs| - 1]);
      assert Deletes(rs)[..|rs| - 1] == Deletes(rs[..|rs| - 1]);
    }
  }

  lemma {:induction false} ReportOfPatches(rs: seq<Record>, wanted: string)
    ensures Report(Patches(rs, wanted)) == SyncResult(|Patches(rs, wanted)|, 0, 0)
  {
    if rs != [] {
      ReportOfPatches(rs[..|rs| - 1], wanted);
      var before := Patches(rs[..|rs| - 1], wanted);
      var last := Patch(rs[|rs| - 1].id, wanted);
      assert (before + [last])[..|before|] == before;
    }
  }

  /** One round of the loop over the kinds. */
  method SyncKind(account: Account, page: seq<Record>, zone: nat, kind: Kind, name: string, wanted: Option<string>, proxied: bool)
    returns (result: SyncResult, error: Option<ErrorCode>)
    modifies account`answered, account`records
    ensures var plan := KindPlan(page, zone, kind, name, wanted, proxied);
            && (error.None? ==> account.records == ApplyAll(old(account.records), plan) && result == Report(plan))
            && (error.Some? ==> error == Some(account.CallError()) && account.Stopped(old(account.records), plan))
  {
    result, error := SyncResult(0, 0, 0), None;
    if wanted.None? {
      var deleted;
      deleted, error := SendDeletes(account, Ours(page));
      ReportOfDeletes(Ours(page));
      result := result.(deleted := deleted);
    } else if page == [] {
      ghost var plan := [Post(NewRecord(zone, kind, name, wanted.value, proxied))];
      assert plan[..0] == [] && plan[..1] == plan;
      NothingApplied(account.records, plan);
      AppliedOneMore(account.records, plan, 0);
      error := account.Send(Post(NewRecord(zone, kind, name, wanted.value, proxied)));
      result := result.(created := 1);
      assert Count([], IsPost) == 0 && Count([], IsPatch) == 0 && Count([], IsDelete) == 0;
    } else {
      var updated;
      updated, error := SendPatches(account, Ours(page), wanted.value);
      ReportOfPatches(Ours(page), wanted.value);
      result := result.(updated := updated);
    }
  }

  method SyncInZone(account: Account, zone: nat, name: string, ipv4: string, ipv6: Option<string>)
    returns (r: Result<SyncResult, ErrorCode>)
    modifies account`answered, account`records
    ensures var plan := SyncPlan(old(account.records.list), zone, name, ipv4, ipv6);
            match r
            case Success(result) => account.records == ApplyAll(old(account.records), plan) && result == Report(plan)
            case Failure(error) => error == account.CallError() && account.Stopped(old(account.records), plan)
  {
    ghost var before := account.records;
    NothingApplied(before, SyncPlan(before.list, zone, name, ipv4, ipv6));
    assert before == ApplyAll(before, []) && Report([]) == SyncResult(0, 0, 0);
    hide KindPlan, Ours, Listed, ApplyAll, Count, PartlyApplied;
    var a := account.List(zone, A, name, 20);
    if a.Failure? { return Failure(a.error); }
    var aaaa := account.List(zone, AAAA, name, 20);
    if aaaa.Failure? { return Failure(aaaa.error); }
    var managed := Ours(a.value) + Ours(aaaa.value);
    if |managed| == 0 { return Success(SyncResult(0, 0, 0)); }
    var proxied := managed[0].proxied;

    ghost var first := KindPlan(a.value, zone, A, name, Some(ipv4), proxied);
    ghost var second := KindPlan(aaaa.value, zone, AAAA, name, ipv6, proxied);
    ReportsAdd(first, second);
    AppliedInTurn(before, first, second);
    var resultA, error := SyncKind(account, a.value, zone, A, name, Some(ipv4), proxied);
    if error.Some? {
      StoppedInFirst(before, first, second, account.records);
      return Failure(error.value);
    }
    var resultAAAA;
    resultAAAA, error := SyncKind(account, aaaa.value, zone, AAAA, name, ipv6, proxied);
    if error.Some? {
      StoppedInSecond(before, first, second, account.records);
      return Failure(error.value);
    }
    return Success(SyncResult(resultA.updated + resultAAAA.updated, resultA.created + resultAAAA.created,
                              resultA.deleted + resultAAAA.deleted));
  }

  /** Without an IPv4 or a zone nothing is touched; otherwise the calls are those of the plan, in order, up to
      the first that fails. */
  method SyncCustomDomainRecords(account: Account, domain: string, ipv4: Option<string>, ipv6: Option<string>)
    returns (r: Result<SyncResult, ErrorCode>)
    modifies account`answered, account`records
    ensures var name := Undotted(Lower(domain));
            var zone := ZoneFor(account.zones, Candidates(name));
            var plan := if Given(ipv4).None? || zone.None? then []
                        else SyncPlan(old(account.records.list), zone.value.id, name, Given(ipv4).value, Given(ipv6));
            match r
            case Success(result) => account.records == ApplyAll(old(account.records), plan) && result == Report(plan)
            case Failure(error) => error == account.CallError() && account.Stopped(old(account.records), plan)
  {
    var result := SyncResult(0, 0, 0);
    ghost var before := account.records;
    assert before == ApplyAll(before, []) && Report([]) == result;
    if Given(ipv4).None? { return Success(result); }
    var name := Undotted(Lower(domain));
    hide Lower, Undotted, Candidates, ZoneFor, SyncPlan, ApplyAll, PartlyApplied, Report;
    var zone := FindZone(account, name);
    if zone.Failure? {
      NothingApplied(before, []);
      ghost var found := ZoneFor(account.zones, Candidates(name));
      if found.Some? {
        NothingApplied(before, SyncPlan(before.list, found.value.id, name, Given(ipv4).value, Given(ipv6)));
      }
      return Failure(zone.error);
    }
    if zone.value.None? { return Success(result); }
    r := SyncInZone(account, zone.value.value.id, name, Given(ipv4).value, Given(ipv6));
  }
}
