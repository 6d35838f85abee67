/** Which service of a customer's compose file the world reaches, and the file that is deployed
    (src/lib/compose-project.ts). Documents are parsed trees. */
module ComposeProject {
  import opened Wrappers
  import opened Text
  import opened JsTree

  // ---------------------------------------------------------------- ports

  function LeadingDigits(s: string): (d: string)
    ensures d <= s && forall i | 0 <= i < |d| :: IsDigit(d[i])
    ensures |d| < |s| ==> !IsDigit(s[|d|])
  {
    if s == "" || !IsDigit(s[0]) then "" else [s[0]] + LeadingDigits(s[1..])
  }

  /** `parseInt(s, 10)`; none for NaN. */
  function ParseInt(s: string): Option<int> {
    var t := TrimStart(s);
    var signed := t != "" && (t[0] == '-' || t[0] == '+');
    var digits := LeadingDigits(if signed then t[1..] else t);
    if digits == "" then None
    else
      var n: int := DecimalValue(digits);
      if signed && t[0] == '-' then Some(-n) else Some(n)
  }

  /** How a whole number is printed. */
  function Show(n: int): string {
    if n < 0 then "-" + Decimal(-n) else Decimal(n)
  }

  function WholeNumber(number: real): Option<int> {
    if number == number.Floor as real then Some(number.Floor) else None
  }

  /** `String(target)`, up to the digits after a decimal point, which `parseInt` never reads. */
  function Printed(j: Json): string
    decreases j, 1
  {
    match j
    case Null => "null"
    case Bool(truth) => if truth then "true" else "false"
    case Num(number) =>
      if WholeNumber(number).Some? then Show(WholeNumber(number).value)
      else if number < 0.0 then "-" + Decimal((-number).Floor) + "."
      else Decimal(number.Floor) + "."
    case Str(text) => text
    case Arr(items) => PrintedItems(items)
    case Obj(_) => "[object Object]"
  }

  function PrintedItems(items: seq<Json>): string
    decreases items, 0
  {
    if items == [] then ""
    else
      (if items[0] == Null then "" else Printed(items[0])) + (if |items| == 1 then "" else "," + PrintedItems(items[1..]))
  }

  /** The container side of a port given as text: past the last colon and before the protocol. */
  function ContainerSide(entry: string): string {
    var parts := SplitOn(SplitOn(Trim(entry), '/')[0], ':');
    parts[|parts| - 1]
  }

  function ContainerPortOf(entry: Json): Option<int> {
    match entry
    case Num(number) => WholeNumber(number)
    case Obj(_) =>
      (var target := OrNull(Get(entry, "target"));
       if target.Num? then WholeNumber(target.number) else ParseInt(if target == Null then "" else Printed(target)))
    case Arr(_) => ParseInt("")
    case Str(text) =>
      (var last := ContainerSide(text);
       if '-' in last then None
       else if ParseInt(last).Some? && 0 < ParseInt(last).value < 65536 then ParseInt(last)
       else None)
    case _ => None
  }

  /** The list of ports of a service; empty when there is none. */
  function PortsOf(service: Json): seq<Json> {
    var ports := OrNull(Get(service, "ports"));
    if ports.Arr? then ports.items else []
  }

  function FirstPortIn(ports: seq<Json>): Option<int> {
    if ports == [] then None
    else if ContainerPortOf(ports[0]).Some? then ContainerPortOf(ports[0])
    else FirstPortIn(ports[1..])
  }

  method FirstPort(service: Json) returns (port: Option<int>)
    ensures port == FirstPortIn(PortsOf(service))
  {
    var ports := PortsOf(service);
    for i := 0 to |ports|
      invariant FirstPortIn(ports) == FirstPortIn(ports[i..])
    {
      var port := ContainerPortOf(ports[i]);
      if port.Some? { return port; }
      assert ports[i..][1..] == ports[i + 1..];
    }
    return None;
  }

  // ---------------------------------------------------------------- the plan

  datatype Plan = Plan(service: string, containerPort: int, services: Json)

  datatype PlanError =
    | InvalidYaml
    | NoServices
    | UnknownService(service: string, names: seq<string>)
    | PublishesNoPort(service: string)
    | NothingPublishes(names: seq<string>)
    | SeveralPublish(publishing: seq<string>)

  function NamesOf(fields: seq<Field>): seq<string> {
    seq(|fields|, i requires 0 <= i < |fields| => fields[i].key)
  }

  predicate Publishes(service: Json) { FirstPortIn(PortsOf(service)).Some? }

  function Publishing(fields: seq<Field>): (r: seq<Field>)
    ensures forall f :: f in r <==> f in fields && Publishes(f.value)
  {
    if fields == [] then []
    else if Publishes(fields[0].value) then [fields[0]] + Publishing(fields[1..])
    else Publishing(fields[1..])
  }

  function PlanCompose(document: Option<Json>, service: Option<string>, port: Option<int>): Result<Plan, PlanError> {
    var services := Services(document);
    if document.None? then Failure(InvalidYaml)
    else if services.None? || services.value.fields == [] then Failure(NoServices)
    else
      var entries := services.value;
      if service.Some? && service.value != "" then
        var chosen := OrNull(Get(entries, service.value));
        if !Truthy(chosen) then Failure(UnknownService(service.value, NamesOf(entries.fields)))
        else
          var found := if port.Some? then port else FirstPortIn(PortsOf(chosen));
          if found.None? || found.value == 0 then Failure(PublishesNoPort(service.value))
          else Success(Plan(service.value, found.value, entries))
      else
        var publishing := Publishing(entries.fields);
        if |publishing| == 1 then
          var found := if port.Some? then port else FirstPortIn(PortsOf(publishing[0].value));
          Success(Plan(publishing[0].key, found.value, entries))
        else if publishing == [] then Failure(NothingPublishes(NamesOf(entries.fields)))
        else Failure(SeveralPublish(NamesOf(publishing)))
  }

  // ---------------------------------------------------------------- the file that is deployed

  /** `hostPort:containerPort`, bound to one address when one is given. */
  function PublishedPort(bindAddress: Option<string>, hostPort: nat, containerPort: int): string {
    (if bindAddress.Some? && bindAddress.value != "" then bindAddress.value + ":" else "") + Show(hostPort) + ":" + Show(containerPort)
  }

  /** `object[key] = value`, in place when the key is there and last when it is not. */
  function Put(fields: seq<Field>, key: string, value: Json): seq<Field> {
    if fields == [] then [Field(key, value)]
    else if fields[0].key == key then [Field(key, value)] + fields[1..]
    else [fields[0]] + Put(fields[1..], key, value)
  }

  /** `delete object[key]` */
  function Without(fields: seq<Field>, key: string): (r: seq<Field>)
    ensures forall f :: f in r <==> f in fields && f.key != key
  {
    if fields == [] then []
    else if fields[0].key == key then Without(fields[1..], key)
    else [fields[0]] + Without(fields[1..], key)
  }

  /** What a service becomes: the chosen one publishes the port, any other no list of ports. A list standing for
      a service loses the property that is set on it when it is written out. */
  function RewrittenService(f: Field, chosen: string, port: string): Field {
    if f.key == chosen then
      if f.value.Obj? then Field(f.key, Obj(Put(f.value.fields, "ports", Arr([Str(port)])))) else f
    else if PortsOf(f.value) != [] then Field(f.key, Obj(Without(f.value.fields, "ports")))
    else f
  }

  function Rewritten(fields: seq<Field>, chosen: string, port: string): (r: seq<Field>)
    ensures |r| == |fields| && forall i | 0 <= i < |r| :: r[i] == RewrittenService(fields[i], chosen, port)
  {
    seq(|fields|, i requires 0 <= i < |fields| => RewrittenService(fields[i], chosen, port))
  }

  /** The document with its services rewritten and nothing else. */
  function RewrittenDocument(document: Json, plan: Plan, hostPort: nat, bindAddress: Option<string>): Json
    requires Services(Some(document)).Some?
  {
    Obj(Put(document.fields, "services",
            Obj(Rewritten(Services(Some(document)).value.fields, plan.service,
                          PublishedPort(bindAddress, hostPort, plan.containerPort)))))
  }

  function Dropped(fields: seq<Field>, chosen: string): (names: seq<string>)
  {
    if fields == [] then []
    else
      var f := fields[|fields| - 1];
      Dropped(fields[..|fields| - 1], chosen) + (if f.key != chosen && PortsOf(f.value) != [] then [f.key] else [])
  }

  datatype Rendered = Rendered(document: Json, dropped: seq<string>)

  datatype TypeError = TypeError

  /** The loop over the services, with the text of the published port. A property can be set on an object or a list;
      setting one on anything else throws. */
  method RewriteServices(before: seq<Field>, chosen: string, port: string)
    returns (r: Result<(seq<Field>, seq<string>), TypeError>)
    ensures if exists f | f in before :: f.key == chosen && !(f.value.Obj? || f.value.Arr?) then r == Failure(TypeError)
            else r == Success((Rewritten(before, chosen, port), Dropped(before, chosen)))
  {
    var dropped := [];
    var services := before;
    assert Dropped(before[..0], chosen) == [];
    hide Put, Without, PortsOf, Dropped, Rewritten;
    for i := 0 to |before|
      invariant services == Rewritten(before[..i], chosen, port) + before[i..]
      invariant dropped == Dropped(before[..i], chosen)
      invariant forall f | f in before[..i] && f.key == chosen :: f.value.Obj? || f.value.Arr?
    {
      var f := before[i];
      RewriteStep(before, i, chosen, port);
      if f.key == chosen {
        if !f.value.Obj? && !f.value.Arr? {
          assert f in before;
          return Failure(TypeError);
        }
        if f.value.Obj? { services := services[i := Field(f.key, Obj(Put(f.value.fields, "ports", Arr([Str(port)]))))]; }
        continue;
      }
      if PortsOf(f.value) != [] {
        services := services[i := Field(f.key, Obj(Without(f.value.fields, "ports")))];
        dropped := dropped + [f.key];
      }
    }
    assert before[..|before|] == before && services == Rewritten(before, chosen, port);
    return Success((services, dropped));
  }

  method RenderDeployableCompose(document: Json, plan: Plan, hostPort: nat, bindAddress: Option<string>)
    returns (r: Result<Rendered, TypeError>)
    requires Services(Some(document)).Some?
    ensures var fields := Services(Some(document)).value.fields;
            if exists f | f in fields :: f.key == plan.service && !(f.value.Obj? || f.value.Arr?) then r == Failure(TypeError)
            else r == Success(Rendered(RewrittenDocument(document, plan, hostPort, bindAddress), Dropped(fields, plan.service)))
  {
    var bind := if bindAddress.Some? && bindAddress.value != "" then bindAddress.value + ":" else "";
    var port := bind + Show(hostPort) + ":" + Show(plan.containerPort);
    assert port == PublishedPort(bindAddress, hostPort, plan.containerPort);
    hide Show, PublishedPort, Rewritten, Dropped, Put, Services;
    var rewritten := RewriteServices(Services(Some(document)).value.fields, plan.service, port);
    if rewritten.Failure? { return Failure(rewritten.error); }
    return Success(Rendered(Obj(Put(document.fields, "services", Obj(rewritten.value.0))), rewritten.value.1));
  }

  lemma RewriteStep(fields: seq<Field>, i: nat, chosen: string, port: string)
    requires i < |fields|
    ensures var before := Rewritten(fields[..i], chosen, port) + fields[i..];
            && before[i] == fields[i]
            && Rewritten(fields[..i + 1], chosen, port) + fields[i + 1..] == before[i := RewrittenService(fields[i], chosen, port)]
            && (RewrittenService(fields[i], chosen, port) == fields[i] ==> before[i := fields[i]] == before)
    ensures Dropped(fields[..i + 1], chosen) ==
            Dropped(fields[..i], chosen) + (if fields[i].key != chosen && PortsOf(fields[i].value) != [] then [fields[i].key] else [])
    ensures forall f :: f in fields[..i + 1] <==> f in fields[..i] || f == fields[i]
  {
    assert fields[..i + 1][..i] == fields[..i];
    hide RewrittenService, PortsOf;
  }

  // ---------------------------------------------------------------- printing and reading ports

  lemma {:induction false} AllAreLeading(s: string)
    requires forall i | 0 <= i < |s| :: IsDigit(s[i])
    ensures LeadingDigits(s) == s
  {
    if s != "" { AllAreLeading(s[1..]); }
  }

  lemma ShowIsPlain(n: int)
    ensures forall c | c in Show(n) :: IsDigit(c) || c == '-'
    ensures '-' in Show(n) <==> n < 0
    ensures Show(n) != ""
  {
    var digits := Decimal(if n < 0 then -n else n);
    assert forall i | 0 <= i < |digits| :: IsDigit(digits[i]);
    assert n < 0 ==> Show(n)[0] == '-';
  }

  lemma NothingToTrim(s: string)
    requires s != "" && !IsSpace(s[0])
    ensures TrimStart(s) == s
  {
  }

  lemma PlainIsNoSpace(c: char)
    requires IsDigit(c) || c == '-' || c == ':'
    ensures !IsSpace(c)
  {
  }

  lemma DigitsParse(digits: string)
    requires AllDigits(digits)
    ensures ParseInt(digits) == Some(DecimalValue(digits)) && ParseInt("-" + digits) == Some(-(DecimalValue(digits) as int))
  {
    AllAreLeading(digits);
    hide ParseInt, LeadingDigits;
    UnsignedParse(digits, digits);
    SignedParse('-', digits, digits);
    assert "-" + digits == ['-'] + digits;
  }

  /** A printed number is read back. */
  lemma ShowReadsBack(n: int)
    ensures ParseInt(Show(n)) == Some(n)
  {
    hide ParseInt, Decimal, DecimalValue, AllDigits;
    DecimalRoundTrip(if n < 0 then -n else n);
    DigitsParse(Decimal(if n < 0 then -n else n));
  }

  lemma {:induction false} SplitWithout(s: string, separator: char)
    requires separator !in s
    ensures SplitOn(s, separator) == [s]
  {
    if s != "" {
      SplitWithout(s[1..], separator);
      assert s == [s[0]] + s[1..];
    }
  }

  lemma {:induction false} LastPart(before: string, separator: char, last: string)
    requires separator !in last
    ensures var parts := SplitOn(before + [separator] + last, separator); parts[|parts| - 1] == last
  {
    var s := before + [separator] + last;
    if before == "" {
      SplitWithout(last, separator);
      assert s[1..] == last;
    } else {
      LastPart(before[1..], separator, last);
      assert s[1..] == before[1..] + [separator] + last;
      SplitHasParts(before[1..], separator, last);
    }
  }

  lemma {:induction false} SplitHasParts(before: string, separator: char, last: string)
    ensures |SplitOn(before + [separator] + last, separator)| > 1
  {
    var s := before + [separator] + last;
    if before == "" {
      assert s[1..] == last;
    } else {
      SplitHasParts(before[1..], separator, last);
      assert s[1..] == before[1..] + [separator] + last;
    }
  }

  /** Trimming reaches neither the colon nor the number after it. */
  lemma TrimmedPort(before: string, number: string) returns (rest: string)
    requires number != "" && !IsSpace(number[|number| - 1])
    ensures Trim(before + ":" + number) == rest + ":" + number
    ensures forall c | c in rest :: c in before
  {
    hide TrimStart, TrimEnd;
    var s := before + ":" + number;
    var start := TrimStart(s);
    var cut := |s| - |start|;
    assert s[|before|] == ':';
    rest := before[cut..];
    assert start == rest + ":" + number;
    assert start[|start| - 1] == number[|number| - 1];
    assert TrimEnd(start) == start;
  }

  lemma {:induction false} FirstPart(first: string, separator: char, rest: string)
    requires separator !in first
    ensures SplitOn(first + [separator] + rest, separator)[0] == first
  {
    var s := first + [separator] + rest;
    if first != "" {
      FirstPart(first[1..], separator, rest);
      assert s[1..] == first[1..] + [separator] + rest;
      assert first == [first[0]] + first[1..];
    }
  }

  /** Past the last colon, and before a protocol when there is one. */
  lemma ContainerSideOfText(before: string, side: string, protocol: string)
    requires '/' !in before && '/' !in side && ':' !in side
    requires side != "" && !IsSpace(side[|side| - 1])
    requires protocol == "" || (protocol[0] == '/' && !IsSpace(protocol[|protocol| - 1]))
    ensures ContainerSide(before + ":" + side + protocol) == side
  {
    hide Trim, SplitOn, IsSpace;
    var number := side + protocol;
    assert before + ":" + side + protocol == before + ":" + number;
    assert number[|number| - 1] == if protocol == "" then side[|side| - 1] else protocol[|protocol| - 1];
    var rest := TrimmedPort(before, number);
    var front := rest + ":" + side;
    assert '/' !in front;
    if protocol == "" {
      assert rest + ":" + number == front;
      SplitWithout(front, '/');
    } else {
      assert rest + ":" + number == front + ['/'] + protocol[1..];
      FirstPart(front, '/', protocol[1..]);
    }
    LastPart(rest, ':', side);
  }

  /** Past the last colon of a published port is the container's port. */
  lemma ContainerSideOfPublished(bindAddress: Option<string>, hostPort: nat, port: int)
    requires bindAddress.Some? ==> '/' !in bindAddress.value
    ensures ContainerSide(PublishedPort(bindAddress, hostPort, port)) == Show(port)
  {
    hide ContainerSide, IsSpace, Decimal, IsDigit;
    var before := (if bindAddress.Some? && bindAddress.value != "" then bindAddress.value + ":" else "") + Show(hostPort);
    ShowIsPlain(hostPort);
    ShowIsPlain(port);
    var last := Show(port)[|Show(port)| - 1];
    assert last in Show(port);
    PlainIsNoSpace(last);
    forall c | c in Show(hostPort) || c in Show(port) ensures c != '/' && c != ':' { PlainIsNoMark(c); }
    hide Show;
    ContainerSideOfText(before, Show(port), "");
    assert PublishedPort(bindAddress, hostPort, port) == before + ":" + Show(port) + "";
  }

  lemma PlainIsNoMark(c: char)
    requires IsDigit(c) || c == '-'
    ensures c != '/' && c != ':'
  {
  }

  /** What is read from a published port: its container port, when it is one at all. */
  lemma PublishedPortReadsBack(bindAddress: Option<string>, hostPort: nat, port: int)
    requires bindAddress.Some? ==> '/' !in bindAddress.value
    ensures ContainerPortOf(Str(PublishedPort(bindAddress, hostPort, port))) == if 0 < port < 65536 then Some(port) else None
  {
    ContainerSideOfPublished(bindAddress, hostPort, port);
    ShowReadsBack(port);
    ShowIsPlain(port);
    hide ContainerSide, Show, ParseInt, PublishedPort;
  }

  /** `8080:80`, `127.0.0.1:8080:80/tcp` and the like: the number past the last colon, when it is a port. */
  lemma PortTextIsRead(before: string, port: nat, protocol: string)
    requires '/' !in before && (protocol == "" || (protocol[0] == '/' && !IsSpace(protocol[|protocol| - 1])))
    ensures ContainerPortOf(Str(before + ":" + Show(port) + protocol)) == if 0 < port < 65536 then Some(port) else None
  {
    hide IsSpace, ContainerSide, ParseInt, Show;
    ShowIsPlain(port);
    var side := Show(port);
    assert side[|side| - 1] in side;
    PlainIsNoSpace(side[|side| - 1]);
    forall c | c in side ensures c != '/' && c != ':' { PlainIsNoMark(c); }
    ContainerSideOfText(before, side, protocol);
    ShowReadsBack(port);
  }

  /** A range of ports is none. */
  lemma RangeIsNoPort(before: string, range: string, protocol: string)
    requires '/' !in before && '/' !in range && ':' !in range && '-' in range
    requires !IsSpace(range[|range| - 1])
    requires protocol == "" || (protocol[0] == '/' && !IsSpace(protocol[|protocol| - 1]))
    ensures ContainerPortOf(Str(before + ":" + range + protocol)) == None
  {
    ContainerSideOfText(before, range, protocol);
    hide IsSpace, ContainerSide, ParseInt;
  }

  /** A target given as a number or as its text is read as that number, in range or not. */
  lemma TargetIsRead(entry: Json, port: int)
    requires Get(entry, "target") == Some(Num(port as real)) || Get(entry, "target") == Some(Str(Show(port)))
    ensures ContainerPortOf(entry) == Some(port)
  {
    hide ParseInt, Show;
    ShowReadsBack(port);
  }

  /** `parseInt` reads the digits at the front, behind a sign when there is one, and ignores the rest. */
  lemma DigitsInFrontAreRead(digits: string, rest: string)
    requires AllDigits(digits) && (rest == "" || !IsDigit(rest[0]))
    ensures var s := digits + rest;
            && ParseInt(s) == ParseInt("+" + s) == Some(DecimalValue(digits))
            && ParseInt("-" + s) == Some(-(DecimalValue(digits) as int))
  {
    var s := digits + rest;
    LeadingAre(digits, rest);
    assert s[0] == digits[0];
    UnsignedParse(s, digits);
    SignedParse('+', s, digits);
    SignedParse('-', s, digits);
  }

  lemma UnsignedParse(s: string, digits: string)
    requires s != "" && IsDigit(s[0]) && digits != "" && LeadingDigits(s) == digits
    ensures ParseInt(s) == Some(DecimalValue(digits))
  {
    PlainIsNoSpace(s[0]);
    hide IsSpace, TrimStart, LeadingDigits, DecimalValue;
    NothingToTrim(s);
  }

  lemma SignedParse(sign: char, s: string, digits: string)
    requires sign == '+' || sign == '-'
    requires digits != "" && LeadingDigits(s) == digits
    ensures ParseInt([sign] + s) == Some(if sign == '-' then -(DecimalValue(digits) as int) else DecimalValue(digits))
  {
    PlainIsNoSpace('-');
    assert !IsSpace('+');
    hide IsSpace, TrimStart, LeadingDigits, DecimalValue;
    NothingToTrim([sign] + s);
    assert ([sign] + s)[1..] == s;
  }

  lemma {:induction false} LeadingAre(digits: string, rest: string)
    requires (forall i | 0 <= i < |digits| :: IsDigit(digits[i])) && (rest == "" || !IsDigit(rest[0]))
    ensures LeadingDigits(digits + rest) == digits
  {
    if digits != "" {
      LeadingAre(digits[1..], rest);
      assert (digits + rest)[1..] == digits[1..] + rest;
    } else {
      assert digits + rest == rest;
    }
  }

  /** `80` and `80/tcp`: without a colon the whole text is the container side. */
  lemma BarePortIsRead(port: nat, protocol: string)
    requires protocol == "" || (protocol[0] == '/' && !IsSpace(protocol[|protocol| - 1]))
    ensures ContainerPortOf(Str(Show(port) + protocol)) == if 0 < port < 65536 then Some(port) else None
  {
    ShowIsPlain(port);
    ShowHasNoMark(port);
    hide IsSpace, ParseInt, ContainerSide, Show;
    ContainerSideOfBare(Show(port), protocol);
    ShowReadsBack(port);
  }

  lemma ShowHasNoMark(n: nat)
    ensures Show(n) != "" && forall c | c in Show(n) :: !IsSpace(c) && c != '/' && c != ':'
  {
    ShowIsPlain(n);
    hide Show, IsSpace;
    forall c | c in Show(n) ensures !IsSpace(c) && c != '/' && c != ':' {
      PlainIsNoMark(c);
      PlainIsNoSpace(c);
    }
  }

  lemma ContainerSideOfBare(side: string, protocol: string)
    requires side != "" && forall c | c in side :: !IsSpace(c) && c != '/' && c != ':'
    requires protocol == "" || (protocol[0] == '/' && !IsSpace(protocol[|protocol| - 1]))
    ensures ContainerSide(side + protocol) == side
  {
    hide IsSpace, SplitOn, Trim;
    BareIsTrimmed(side, protocol);
    if protocol == "" {
      assert side + protocol == side;
      SplitWithout(side, '/');
    } else {
      assert side + protocol == side + ['/'] + protocol[1..];
      FirstPart(side, '/', protocol[1..]);
    }
    SplitWithout(side, ':');
  }

  lemma BareIsTrimmed(side: string, protocol: string)
    requires side != "" && forall c | c in side :: !IsSpace(c)
    requires protocol == "" || !IsSpace(protocol[|protocol| - 1])
    ensures Trim(side + protocol) == side + protocol
  {
    hide IsSpace, Trim, Contains;
    var text := side + protocol;
    assert text[0] == side[0] && side[0] in side && side[|side| - 1] in side;
    assert text[|text| - 1] == if protocol == "" then side[|side| - 1] else protocol[|protocol| - 1];
    TrimKeepsTheMiddle(text);
  }

  /** A number is a port when it is whole, and a list, a truth value or nothing is none. */
  lemma OtherEntriesAreRead(entry: Json, port: int)
    ensures entry == Num(port as real) ==> ContainerPortOf(entry) == Some(port)
    ensures entry.Num? && ContainerPortOf(entry).Some? ==> entry == Num(ContainerPortOf(entry).value as real)
    ensures entry.Null? || entry.Bool? || entry.Arr? ==> ContainerPortOf(entry) == None
    ensures entry.Obj? && Get(entry, "target").None? ==> ContainerPortOf(entry) == None
  {
    hide ParseInt;
    WordsAreNoNumber("");
  }

  lemma ShownInFrontIsRead(n: int, rest: string)
    requires rest == "" || !IsDigit(rest[0])
    ensures ParseInt(Show(n) + rest) == Some(n)
  {
    hide ParseInt, Decimal, DecimalValue, AllDigits;
    var size: nat := if n < 0 then -n else n;
    DecimalRoundTrip(size);
    DigitsInFrontAreRead(Decimal(size), rest);
    if n < 0 { BehindSign(Decimal(size), rest); }
  }

  lemma BehindSign(digits: string, rest: string)
    ensures "-" + digits + rest == "-" + (digits + rest)
  {
  }

  /** Text that begins with no digit, sign or white space is no number. */
  lemma WordsAreNoNumber(s: string)
    requires s == "" || (!IsSpace(s[0]) && !IsDigit(s[0]) && s[0] != '-' && s[0] != '+')
    ensures ParseInt(s) == None
  {
    hide IsSpace, TrimStart;
    if s != "" { NothingToTrim(s); }
  }

  /** How far from zero a number goes is cut off. */
  function Truncated(number: real): int {
    if number < 0.0 then -((-number).Floor) else number.Floor
  }

  lemma FractionIsCutOff(number: real, rest: string)
    requires rest == "" || !IsDigit(rest[0])
    ensures ParseInt(Printed(Num(number)) + rest) == Some(Truncated(number))
  {
    hide ParseInt, Decimal;
    if WholeNumber(number).Some? {
      ShownInFrontIsRead(number.Floor, rest);
    } else {
      var digits := Decimal(if number < 0.0 then (-number).Floor else number.Floor);
      DecimalRoundTrip(if number < 0.0 then (-number).Floor else number.Floor);
      DigitsInFrontAreRead(digits, "." + rest);
      assert number < 0.0 ==> Printed(Num(number)) + rest == "-" + (digits + ("." + rest));
      assert number >= 0.0 ==> Printed(Num(number)) + rest == digits + ("." + rest);
    }
  }

  /** What stands behind the first item of a printed list. */
  function RestOfList(items: seq<Json>): string
    requires items != []
  {
    if |items| == 1 then "" else "," + PrintedItems(items[1..])
  }

  /** A target that is a fraction, a truth value, an object or an empty list is none. */
  lemma OtherTargetsAreNone(entry: Json, target: Json)
    requires Get(entry, "target") == Some(target)
    requires (target.Num? && WholeNumber(target.number).None?) || target.Bool? || target.Obj? || target.Null? || target == Arr([])
    ensures ContainerPortOf(entry) == None
  {
    hide ParseInt;
    assert !IsSpace('t') && !IsSpace('f') && !IsSpace('[');
    hide IsSpace;
    if target.Null? { WordsAreNoNumber(""); } else if !target.Num? { WordsAreNoNumber(Printed(target)); }
  }

  /** A target that is a list is read as its first item: a number cut off at the decimal point, and none for a truth
      value, an object or nothing. */
  lemma ListTargetsAreRead(entry: Json, items: seq<Json>)
    requires Get(entry, "target") == Some(Arr(items)) && items != []
    ensures items[0].Num? ==> ContainerPortOf(entry) == Some(Truncated(items[0].number))
    ensures items[0].Bool? || items[0].Obj? || items[0].Null? ==> ContainerPortOf(entry) == None
  {
    hide ContainerPortOf, ParseInt, Printed, RestOfList, IsSpace;
    PrintedList(items);
    ListTargetIsParsed(entry, items);
    if items[0].Num? {
      FractionIsCutOff(items[0].number, RestOfList(items));
    } else if items[0].Bool? || items[0].Obj? || items[0].Null? {
      WordsAreNoNumber(Printed(Arr(items)));
    }
  }

  lemma PrintedList(items: seq<Json>)
    requires items != []
    ensures Printed(Arr(items)) == (if items[0] == Null then "" else Printed(items[0])) + RestOfList(items)
    ensures RestOfList(items) == "" || RestOfList(items)[0] == ','
    ensures items[0].Bool? || items[0].Obj? || items[0].Null? ==>
              var text := Printed(Arr(items));
              text == "" || (!IsSpace(text[0]) && !IsDigit(text[0]) && text[0] != '-' && text[0] != '+')
  {
    assert !IsSpace('t') && !IsSpace('f') && !IsSpace('[') && !IsSpace(',');
    hide IsSpace;
  }

  lemma ListTargetIsParsed(entry: Json, items: seq<Json>)
    requires Get(entry, "target") == Some(Arr(items))
    ensures ContainerPortOf(entry) == ParseInt(Printed(Arr(items)))
  {
    hide ParseInt, Printed;
  }

  /** The first entry that has a container port decides. */
  lemma {:induction false} FirstPortIsFirst(ports: seq<Json>, i: nat)
    requires i <= |ports| && forall k | 0 <= k < i :: ContainerPortOf(ports[k]) == None
    ensures i < |ports| && ContainerPortOf(ports[i]).Some? ==> FirstPortIn(ports) == ContainerPortOf(ports[i])
    ensures i == |ports| ==> FirstPortIn(ports) == None
  {
    hide ContainerPortOf;
    if i > 0 { FirstPortIsFirst(ports[1..], i - 1); }
  }

  /** The published port, taken apart: the address when one is given, the host's port and the container's. */
  lemma PublishedPortParts(bindAddress: Option<string>, hostPort: nat, port: nat)
    requires bindAddress.Some? ==> ':' !in bindAddress.value
    ensures SplitOn(PublishedPort(bindAddress, hostPort, port), ':') ==
            (if bindAddress.Some? && bindAddress.value != "" then [bindAddress.value] else []) + [Show(hostPort)] + [Show(port)]
  {
    ShowHasNoMark(hostPort);
    ShowHasNoMark(port);
    hide Show, SplitOn, IsSpace;
    SplitWithout(Show(port), ':');
    SplitAtFirst(Show(hostPort), ':', Show(port));
    var ports := Show(hostPort) + [':'] + Show(port);
    assert [] + [Show(hostPort)] + [Show(port)] == SplitOn(ports, ':');
    if bindAddress.Some? && bindAddress.value != "" {
      var bind := bindAddress.value;
      assert PublishedPort(bindAddress, hostPort, port) == bind + [':'] + ports;
      SplitAtFirst(bind, ':', ports);
      assert [bind] + SplitOn(ports, ':') == [bind] + [Show(hostPort)] + [Show(port)];
    } else {
      assert PublishedPort(bindAddress, hostPort, port) == ports;
    }
  }

  lemma {:induction false} SplitAtFirst(first: string, separator: char, rest: string)
    requires separator !in first
    ensures SplitOn(first + [separator] + rest, separator) == [first] + SplitOn(rest, separator)
  {
    var s := first + [separator] + rest;
    if first == "" {
      assert s[1..] == rest;
    } else {
      SplitAtFirst(first[1..], separator, rest);
      assert s[1..] == first[1..] + [separator] + rest;
      assert first == [first[0]] + first[1..];
    }
  }

  // ---------------------------------------------------------------- what the rewriting changes

  lemma {:induction false} PutLookup(fields: seq<Field>, key: string, value: Json, k: string)
    ensures Lookup(Put(fields, key, value), k) == if k == key then Some(value) else Lookup(fields, k)
  {
    if fields == [] {
      assert [Field(key, value)][1..] == [];
    } else if fields[0].key == key {
      assert ([Field(key, value)] + fields[1..])[1..] == fields[1..];
    } else {
      PutLookup(fields[1..], key, value, k);
      var rest := Put(fields[1..], key, value);
      assert ([fields[0]] + rest)[1..] == rest;
    }
  }

  lemma {:induction false} PutKeepsOthers(fields: seq<Field>, key: string, value: Json)
    ensures Without(Put(fields, key, value), key) == Without(fields, key)
  {
    if fields == [] {
      assert [Field(key, value)][1..] == [];
    } else if fields[0].key == key {
      assert ([Field(key, value)] + fields[1..])[1..] == fields[1..];
    } else {
      PutKeepsOthers(fields[1..], key, value);
      var rest := Put(fields[1..], key, value);
      assert ([fields[0]] + rest)[1..] == rest;
    }
  }

  lemma {:induction false} WithoutTwice(fields: seq<Field>, key: string)
    ensures Without(Without(fields, key), key) == Without(fields, key)
    ensures Lookup(Without(fields, key), key) == None
  {
    if fields != [] {
      WithoutTwice(fields[1..], key);
      var rest := Without(fields[1..], key);
      assert ([fields[0]] + rest)[1..] == rest;
    }
  }

  /** The fields of a service other than its ports, in order. */
  function OtherFields(service: Json): seq<Field> {
    if service.Obj? then Without(service.fields, "ports") else []
  }

  /** Every service keeps its place, its name and all its other fields. The chosen one, when it is an object, ends
      up with just the published port; every other one ends up with no list of ports, and is as it was when it
      had none. */
  lemma RewritingChangesOnlyPorts(fields: seq<Field>, chosen: string, port: string, i: nat)
    requires i < |fields|
    ensures var before, after := fields[i], Rewritten(fields, chosen, port)[i];
            && after.key == before.key && OtherFields(after.value) == OtherFields(before.value)
            && (before.key == chosen && before.value.Obj? ==> PortsOf(after.value) == [Str(port)])
            && (before.key != chosen ==> PortsOf(after.value) == [])
            && (before.key != chosen && PortsOf(before.value) == [] ==> after == before)
  {
    var before := fields[i];
    if before.value.Obj? {
      PutLookup(before.value.fields, "ports", Arr([Str(port)]), "ports");
      PutKeepsOthers(before.value.fields, "ports", Arr([Str(port)]));
      WithoutTwice(before.value.fields, "ports");
    }
    hide Put, Without, Lookup;
  }

  /** A name is dropped exactly when its service had a list of ports and has none now. */
  lemma {:induction false} DroppedLostTheirPorts(fields: seq<Field>, chosen: string, port: string, name: string)
    requires DistinctKeys(fields)
    ensures name in Dropped(fields, chosen) <==>
            exists i | 0 <= i < |fields| ::
              && fields[i].key == name && PortsOf(fields[i].value) != []
              && PortsOf(Rewritten(fields, chosen, port)[i].value) == []
  {
    hide PortsOf;
    forall i | 0 <= i < |fields| ensures PortsOf(fields[i].value) != [] ==>
        (PortsOf(Rewritten(fields, chosen, port)[i].value) == [] <==> fields[i].key != chosen) {
      RewritingChangesOnlyPorts(fields, chosen, port, i);
      if fields[i].key == chosen { OnlyObjectsHavePorts(fields[i].value); }
    }
    DroppedAre(fields, chosen, name);
  }

  lemma OnlyObjectsHavePorts(service: Json)
    ensures PortsOf(service) != [] ==> service.Obj?
  {
  }

  lemma {:induction false} DroppedAre(fields: seq<Field>, chosen: string, name: string)
    ensures name in Dropped(fields, chosen) <==> name != chosen && exists f | f in fields :: f.key == name && PortsOf(f.value) != []
  {
    if fields != [] {
      hide PortsOf;
      var n := |fields| - 1;
      DroppedAre(fields[..n], chosen, name);
      assert forall f :: f in fields <==> f in fields[..n] || f == fields[n];
    }
  }

  // ---------------------------------------------------------------- planning again

  lemma {:induction false} PublishingNone(fields: seq<Field>)
    requires forall f | f in fields :: !Publishes(f.value)
    ensures Publishing(fields) == []
  {
    if fields != [] { PublishingNone(fields[1..]); }
  }

  lemma {:induction false} PublishingOne(fields: seq<Field>, i: nat)
    requires i < |fields| && Publishes(fields[i].value)
    requires forall k | 0 <= k < |fields| && k != i :: !Publishes(fields[k].value)
    ensures Publishing(fields) == [fields[i]]
  {
    if i == 0 {
      PublishingNone(fields[1..]);
    } else {
      PublishingOne(fields[1..], i - 1);
    }
  }

  /** The one service of the file that publishes a port. */
  ghost predicate OnlyPublisher(fields: seq<Field>, i: int) {
    0 <= i < |fields| && forall k | 0 <= k < |fields| :: Publishes(fields[k].value) <==> k == i
  }

  lemma {:induction false} PublisherIsFound(fields: seq<Field>) returns (i: nat)
    requires |Publishing(fields)| == 1
    ensures OnlyPublisher(fields, i)
  {
    hide Publishes;
    if Publishes(fields[0].value) {
      i := 0;
      forall k | 0 < k < |fields| ensures !Publishes(fields[k].value) {
        assert fields[1..][k - 1] in fields[1..];
        assert Publishing(fields[1..]) == [];
      }
    } else {
      i := PublisherIsFound(fields[1..]);
      i := i + 1;
      assert forall k | 0 < k < |fields| :: fields[1..][k - 1] == fields[k];
    }
  }

  /** With no service named there is a plan exactly when one service alone publishes a port, and it is that one,
      at the port set or its own. */
  lemma PlanFindsThePublisher(document: Json, port: Option<int>)
    requires Services(Some(document)).Some?
    ensures var fields := Services(Some(document)).value.fields;
            var plan := PlanCompose(Some(document), None, port);
            && (plan.Success? <==> exists i :: OnlyPublisher(fields, i))
            && forall i | OnlyPublisher(fields, i) ::
                 && plan.Success? && plan.value.service == fields[i].key
                 && Some(plan.value.containerPort) == if port.Some? then port else FirstPortIn(PortsOf(fields[i].value))
  {
    var fields := Services(Some(document)).value.fields;
    hide Services, FirstPortIn, PortsOf, Publishing;
    if |Publishing(fields)| == 1 {
      var i := PublisherIsFound(fields);
    }
    forall i | OnlyPublisher(fields, i)
      ensures Publishing(fields) == [fields[i]] && Publishes(fields[i].value)
    {
      PublishingOne(fields, i);
    }
  }

  /** A service that is named is planned when it is there and something says its port: the one set, or else its
      first. A port of 0 counts as none. */
  lemma NamedServiceIsPlanned(document: Json, name: string, service: Json, port: Option<int>)
    requires Services(Some(document)).Some? && name != "" && DistinctKeys(Services(Some(document)).value.fields)
    requires Field(name, service) in Services(Some(document)).value.fields && Truthy(service)
    ensures var wanted := if port.Some? then port else FirstPortIn(PortsOf(service));
            PlanCompose(Some(document), Some(name), port) ==
            if wanted.Some? && wanted != Some(0) then Success(Plan(name, wanted.value, Services(Some(document)).value))
            else Failure(PublishesNoPort(name))
  {
    var fields := Services(Some(document)).value.fields;
    var i :| 0 <= i < |fields| && fields[i] == Field(name, service);
    FieldIsFound(fields, i);
    hide Services, FirstPortIn, PortsOf, Lookup;
  }

  /** What is refused before a plan is made; a service that is not there comes with the names that are. */
  lemma RefusedPlans(document: Option<Json>, service: Option<string>, port: Option<int>)
    ensures document.None? ==> PlanCompose(document, service, port) == Failure(InvalidYaml)
    ensures document.Some? && (Services(document).None? || Services(document).value.fields == []) ==>
              PlanCompose(document, service, port) == Failure(NoServices)
    ensures Services(document).Some? && Services(document).value.fields != [] && service.Some? && service.value != "" ==>
              var fields, plan := Services(document).value.fields, PlanCompose(document, service, port);
              (forall f | f in fields && f.key == service.value :: !Truthy(f.value)) ==>
                && plan.Failure? && plan.error.UnknownService? && plan.error.service == service.value
                && |plan.error.names| == |fields| && forall i | 0 <= i < |fields| :: plan.error.names[i] == fields[i].key
  {
    hide FirstPortIn, PortsOf, Publishing;
  }

  /** Without a named service a file in which none publishes is refused with the names of all. */
  lemma NonePublishes(document: Json, port: Option<int>)
    requires Services(Some(document)).Some? && Services(Some(document)).value.fields != []
    requires forall f | f in Services(Some(document)).value.fields :: !Publishes(f.value)
    ensures var fields, plan := Services(Some(document)).value.fields, PlanCompose(Some(document), None, port);
            && plan.Failure? && plan.error.NothingPublishes?
            && |plan.error.names| == |fields| && forall i | 0 <= i < |fields| :: plan.error.names[i] == fields[i].key
  {
    hide Services, Publishes, FirstPortIn, PortsOf;
    PublishingNone(Services(Some(document)).value.fields);
  }

  /** And one in which several do, with the names of those. */
  lemma SeveralServicesPublish(document: Json, port: Option<int>, i: nat, j: nat)
    requires Services(Some(document)).Some? && i < j < |Services(Some(document)).value.fields|
    requires var fields := Services(Some(document)).value.fields; Publishes(fields[i].value) && Publishes(fields[j].value)
    ensures var fields, plan := Services(Some(document)).value.fields, PlanCompose(Some(document), None, port);
            && plan.Failure? && plan.error.SeveralPublish?
            && forall name :: name in plan.error.publishing <==> exists f | f in fields :: f.key == name && Publishes(f.value)
  {
    var fields := Services(Some(document)).value.fields;
    hide Publishing, PlanCompose, Services, Publishes;
    PublishingTwo(fields, i, j);
    SeveralAreRefused(document, port);
    NamesAreKeys(Publishing(fields));
  }

  lemma SeveralAreRefused(document: Json, port: Option<int>)
    requires Services(Some(document)).Some? && |Publishing(Services(Some(document)).value.fields)| > 1
    ensures PlanCompose(Some(document), None, port) ==
            Failure(SeveralPublish(NamesOf(Publishing(Services(Some(document)).value.fields))))
  {
    hide Services, FirstPortIn, PortsOf;
  }

  lemma NamesAreKeys(fields: seq<Field>)
    ensures forall name :: name in NamesOf(fields) <==> exists f | f in fields :: f.key == name
  {
    forall f | f in fields ensures f.key in NamesOf(fields) {
      var i :| 0 <= i < |fields| && fields[i] == f;
      assert NamesOf(fields)[i] == f.key;
    }
  }

  lemma {:induction false} PublishingTwo(fields: seq<Field>, i: nat, j: nat)
    requires i < j < |fields| && Publishes(fields[i].value) && Publishes(fields[j].value)
    ensures |Publishing(fields)| > 1
  {
    hide Publishes;
    if i == 0 {
      assert fields[1..][j - 1] in Publishing(fields[1..]);
    } else {
      PublishingTwo(fields[1..], i - 1, j - 1);
    }
  }

  lemma OnePortPublishes(service: Json, port: Json)
    requires PortsOf(service) == [port]
    ensures FirstPortIn(PortsOf(service)) == ContainerPortOf(port)
  {
    assert [port][1..] == [];
  }

  /** The services that publish after the rewriting: the chosen one alone, when it is an object and the port is
      one, and otherwise none. */
  lemma PublishingAfter(fields: seq<Field>, i: nat, bindAddress: Option<string>, hostPort: nat, port: int)
    requires DistinctKeys(fields) && i < |fields| && (bindAddress.Some? ==> '/' !in bindAddress.value)
    ensures var published := PublishedPort(bindAddress, hostPort, port);
            var after := Rewritten(fields, fields[i].key, published);
            if fields[i].value.Obj? && 0 < port < 65536
            then Publishing(after) == [after[i]] && FirstPortIn(PortsOf(after[i].value)) == Some(port)
            else Publishing(after) == []
  {
    var published := PublishedPort(bindAddress, hostPort, port);
    var after := Rewritten(fields, fields[i].key, published);
    hide *;
    PublishedPortReadsBack(bindAddress, hostPort, port);
    OnlyChosenHasPorts(fields, i, published);
    PublishesByPorts(after, i, Str(published));
  }

  /** After the rewriting the chosen service has just the port, when it is an object; the others have none. */
  lemma OnlyChosenHasPorts(fields: seq<Field>, i: nat, port: string)
    requires DistinctKeys(fields) && i < |fields|
    ensures var after := Rewritten(fields, fields[i].key, port);
            && (forall k | 0 <= k < |after| && k != i :: PortsOf(after[k].value) == [])
            && PortsOf(after[i].value) == if fields[i].value.Obj? then [Str(port)] else []
  {
    hide PortsOf, RewrittenService, OtherFields;
    OnlyObjectsHavePorts(Rewritten(fields, fields[i].key, port)[i].value);
    ListStays(fields, i, port);
    forall k | 0 <= k < |fields|
      ensures k != i ==> PortsOf(Rewritten(fields, fields[i].key, port)[k].value) == []
      ensures k == i && fields[i].value.Obj? ==> PortsOf(Rewritten(fields, fields[i].key, port)[k].value) == [Str(port)]
    {
      RewritingChangesOnlyPorts(fields, fields[i].key, port, k);
    }
  }

  /** When at most one service has a port, that one publishes if the port is one. */
  lemma PublishesByPorts(fields: seq<Field>, i: nat, port: Json)
    requires i < |fields| && (PortsOf(fields[i].value) == [port] || PortsOf(fields[i].value) == [])
    requires forall k | 0 <= k < |fields| && k != i :: PortsOf(fields[k].value) == []
    ensures if PortsOf(fields[i].value) == [port] && ContainerPortOf(port).Some?
            then Publishing(fields) == [fields[i]] && FirstPortIn(PortsOf(fields[i].value)) == ContainerPortOf(port)
            else Publishing(fields) == []
  {
    hide PortsOf, ContainerPortOf, FirstPortIn;
    NoPortsPublishNothing();
    if PortsOf(fields[i].value) == [port] { OnePortPublishes(fields[i].value, port); }
    if Publishes(fields[i].value) { PublishingOne(fields, i); } else { PublishingNone(fields); }
  }

  lemma NoPortsPublishNothing()
    ensures FirstPortIn([]) == None
  {
  }

  lemma ListStays(fields: seq<Field>, i: nat, port: string)
    requires i < |fields|
    ensures !fields[i].value.Obj? ==> PortsOf(Rewritten(fields, fields[i].key, port)[i].value) == []
  {
  }

  lemma ServicesAfter(document: Json, plan: Plan, hostPort: nat, bindAddress: Option<string>)
    requires Services(Some(document)).Some?
    ensures var published := PublishedPort(bindAddress, hostPort, plan.containerPort);
            Services(Some(RewrittenDocument(document, plan, hostPort, bindAddress))) ==
            Some(Obj(Rewritten(Services(Some(document)).value.fields, plan.service, published)))
    ensures Without(RewrittenDocument(document, plan, hostPort, bindAddress).fields, "services") ==
            Without(document.fields, "services")
  {
    var services := Obj(Rewritten(Services(Some(document)).value.fields, plan.service,
                                  PublishedPort(bindAddress, hostPort, plan.containerPort)));
    PutLookup(document.fields, "services", services, "services");
    PutKeepsOthers(document.fields, "services", services);
  }

  /** Where the chosen service of a plan stands. */
  lemma PlannedService(document: Option<Json>, service: Option<string>, port: Option<int>) returns (i: nat)
    requires PlanCompose(document, service, port).Success?
    ensures Services(document).Some? && PlanCompose(document, service, port).value.services == Services(document).value
    ensures var fields := Services(document).value.fields;
            i < |fields| && fields[i].key == PlanCompose(document, service, port).value.service
  {
    var plan := PlanCompose(document, service, port).value;
    var entries := Services(document).value;
    hide PortsOf, FirstPortIn;
    if service.Some? && service.value != "" {
      var f := Field(service.value, Get(entries, service.value).value);
      i :| 0 <= i < |entries.fields| && entries.fields[i] == f;
    } else {
      var f := Publishing(entries.fields)[0];
      assert f in Publishing(entries.fields);
      i :| 0 <= i < |entries.fields| && entries.fields[i] == f;
    }
  }

  /** Planning the rewritten file, with nothing set, gives the same service and port exactly when the port is one
      of 1 to 65535 and the service is an object; otherwise nothing in it publishes. */
  lemma ReplanningIsStable(document: Json, service: Option<string>, port: Option<int>, hostPort: nat, bindAddress: Option<string>)
    requires PlanCompose(Some(document), service, port).Success?
    requires DistinctKeys(Services(Some(document)).value.fields) && (bindAddress.Some? ==> '/' !in bindAddress.value)
    ensures var plan := PlanCompose(Some(document), service, port).value;
            var again := PlanCompose(Some(RewrittenDocument(document, plan, hostPort, bindAddress)), None, None);
            var isObject := OrNull(Get(plan.services, plan.service)).Obj?;
            if 0 < plan.containerPort < 65536 && isObject
            then again.Success? && again.value.service == plan.service && again.value.containerPort == plan.containerPort
            else again.Failure? && again.error.NothingPublishes?
  {
    var plan := PlanCompose(Some(document), service, port).value;
    var i := PlannedService(Some(document), service, port);
    var fields := Services(Some(document)).value.fields;
    ServicesAfter(document, plan, hostPort, bindAddress);
    PublishingAfter(fields, i, bindAddress, hostPort, plan.containerPort);
    FieldIsFound(fields, i);
    hide Services, Publishing, PublishedPort, RewrittenDocument, FirstPortIn, PortsOf, Lookup, RewrittenService;
    assert OrNull(Get(plan.services, plan.service)) == fields[i].value;
  }

  lemma FieldIsFound(fields: seq<Field>, i: nat)
    requires DistinctKeys(fields) && i < |fields|
    ensures Lookup(fields, fields[i].key) == Some(fields[i].value)
  {
    assert fields[i] in fields;
    assert fields[i].key in Keys(fields);
  }
}
