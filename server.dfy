/**
 * The decisions of the Docker server manager (server.ts): option defaults,
 * the containers that `scanServer` reports and `stopServer` stops, the
 * conflict checks of `scanContainer`, the start/resume/reuse choice of
 * `startServer`, the gate of `autoStartServer`, and the classification of
 * container log output. Every `docker` command's output is an input: the
 * lines of `docker ps` / `docker ps -a` and the `inspect` text per name.
 * What the source then runs (`docker stop`, `docker start`, `docker run`)
 * is returned as a value.
 */
module Server {
  import opened Wrappers
  import opened Text
  import opened DockerPs
  import Defaults

  /** What a caller may pass; every field is optional. */
  datatype ServerOptions = ServerOptions(port: Option<int>, image: Option<string>, debug: Option<bool>, container: Option<string>)

  /** The options with every field filled in (`Required<ServerOptions>`). */
  datatype Settings = Settings(port: int, image: string, debug: bool, container: string)

  /** `value || fallback` for a number: 0 and `undefined` are falsy. */
  function NumberOr(value: Option<int>, fallback: int): int {
    if value.Some? && value.value != 0 then value.value else fallback
  }

  /** `value || fallback` for a string: the empty string and `undefined` are falsy. */
  function TextOr(value: Option<string>, fallback: string): string {
    if value.Some? && value.value != [] then value.value else fallback
  }

  /** `expandOptions`: each field the caller gave a truthy value keeps it,
      every other field takes its default. */
  function ExpandOptions(options: Option<ServerOptions>): (s: Settings)
    ensures s.port != 0 && s.image != [] && s.container != []
    ensures options.None? ==> s == Settings(Defaults.Port, Defaults.Image, false, Defaults.Container)
    ensures options.Some? && options.value.port.Some? && options.value.port.value != 0 ==> s.port == options.value.port.value
    ensures options.Some? && options.value.image.Some? && options.value.image.value != [] ==> s.image == options.value.image.value
    ensures options.Some? && options.value.container.Some? && options.value.container.value != [] ==>
              s.container == options.value.container.value
    ensures s.debug <==> options.Some? && options.value.debug == Some(true)
    ensures options.Some? && (options.value.port.None? || options.value.port == Some(0)) ==> s.port == Defaults.Port
    ensures options.Some? && (options.value.image.None? || options.value.image == Some([])) ==> s.image == Defaults.Image
    ensures options.Some? && (options.value.container.None? || options.value.container == Some([])) ==>
              s.container == Defaults.Container
  {
    var given := if options.Some? then options.value else ServerOptions(None, None, None, None);
    Settings(
      NumberOr(given.port, Defaults.Port),
      TextOr(given.image, Defaults.Image),
      given.debug == Some(true),
      TextOr(given.container, Defaults.Container))
  }

  /** Settings passed back in as options. */
  function AsOptions(s: Settings): ServerOptions {
    ServerOptions(Some(s.port), Some(s.image), Some(s.debug), Some(s.container))
  }

  /** Expanding already expanded options changes nothing. */
  lemma ExpandOptionsIdempotent(options: Option<ServerOptions>)
    ensures ExpandOptions(Some(AsOptions(ExpandOptions(options)))) == ExpandOptions(options)
  {
  }

  /** The ids of the containers of `lines` that `keep` accepts, in listing order. */
  function MatchingIds(lines: seq<string>, inspect: string -> string, keep: Container -> bool): (ids: seq<string>)
    ensures |ids| <= |lines|
    ensures forall i :: 0 <= i < |lines| && ParseLine(lines[i], inspect).Some? && keep(ParseLine(lines[i], inspect).value) ==>
      ParseLine(lines[i], inspect).value.id in ids
    ensures forall id :: id in ids ==>
      exists i :: 0 <= i < |lines| && ParseLine(lines[i], inspect).Some? &&
                  keep(ParseLine(lines[i], inspect).value) && ParseLine(lines[i], inspect).value.id == id
    decreases |lines|
  {
    if lines == [] then []
    else
      var rest := MatchingIds(lines[1..], inspect, keep);
      assert forall i :: 1 <= i < |lines| ==> lines[i] == lines[1..][i - 1];
      match ParseLine(lines[0], inspect)
      case Some(c) => if keep(c) then [c.id] + rest else rest
      case None => rest
  }

  /** The ids of a listing are those of its first part followed by those of
      the rest: one id per accepted line, in listing order. */
  lemma {:induction false} MatchingIdsAppend(xs: seq<string>, ys: seq<string>, inspect: string -> string, keep: Container -> bool)
    ensures MatchingIds(xs + ys, inspect, keep) == MatchingIds(xs, inspect, keep) + MatchingIds(ys, inspect, keep)
    decreases |xs|
  {
    if xs == [] {
      assert xs + ys == ys;
    } else {
      assert (xs + ys)[0] == xs[0];
      assert (xs + ys)[1..] == xs[1..] + ys;
      MatchingIdsAppend(xs[1..], ys, inspect, keep);
    }
  }

  /** A single line gives its container's id when `keep` accepts it, and nothing otherwise. */
  lemma MatchingIdsOfLine(line: string, inspect: string -> string, keep: Container -> bool)
    ensures MatchingIds([line], inspect, keep) ==
      if ParseLine(line, inspect).Some? && keep(ParseLine(line, inspect).value) then [ParseLine(line, inspect).value.id] else []
  {
    assert [line][1..] == [];
  }

  /** `scanServer`: the ids of the listed containers that publish the
      requested port or run the requested image. */
  function ScanServer(options: Option<ServerOptions>, lines: seq<string>, inspect: string -> string): (ids: seq<string>)
    ensures var s := ExpandOptions(options);
      forall i :: 0 <= i < |lines| && ParseLine(lines[i], inspect).Some? &&
                  (HasPort(ParseLine(lines[i], inspect).value, s.port) || ParseLine(lines[i], inspect).value.image == s.image) ==>
        ParseLine(lines[i], inspect).value.id in ids
    ensures var s := ExpandOptions(options);
      forall id :: id in ids ==>
        exists i :: 0 <= i < |lines| && ParseLine(lines[i], inspect).Some? &&
                    ParseLine(lines[i], inspect).value.id == id &&
                    (HasPort(ParseLine(lines[i], inspect).value, s.port) || ParseLine(lines[i], inspect).value.image == s.image)
  {
    var s := ExpandOptions(options);
    MatchingIds(lines, inspect, (c: Container) => HasPort(c, s.port) || c.image == s.image)
  }

  /** `stopServer`: the ids given to `docker stop`, those of the listed
      containers with the requested image, name or port; None when there are
      none, in which case no command is run. */
  function StopServer(options: Option<ServerOptions>, lines: seq<string>, inspect: string -> string): (stop: Option<seq<string>>)
    ensures stop.Some? ==> |stop.value| > 0
    ensures var s := ExpandOptions(options);
      forall i :: 0 <= i < |lines| && ParseLine(lines[i], inspect).Some? &&
                  (ParseLine(lines[i], inspect).value.image == s.image ||
                   ParseLine(lines[i], inspect).value.name == s.container ||
                   HasPort(ParseLine(lines[i], inspect).value, s.port)) ==>
        stop.Some? && ParseLine(lines[i], inspect).value.id in stop.value
    ensures var s := ExpandOptions(options);
      forall id :: stop.Some? && id in stop.value ==>
        exists i :: 0 <= i < |lines| && ParseLine(lines[i], inspect).Some? &&
                    ParseLine(lines[i], inspect).value.id == id &&
                    (ParseLine(lines[i], inspect).value.image == s.image ||
                     ParseLine(lines[i], inspect).value.name == s.container ||
                     HasPort(ParseLine(lines[i], inspect).value, s.port))
  {
    var s := ExpandOptions(options);
    var ids := MatchingIds(lines, inspect, (c: Container) => c.image == s.image || c.name == s.container || HasPort(c, s.port));
    if |ids| > 0 then Some(ids) else None
  }

  /** On one listing, every container `scanServer` reports is one that
      `stopServer` stops. */
  lemma ScannedAreStopped(options: Option<ServerOptions>, lines: seq<string>, inspect: string -> string)
    ensures forall id :: id in ScanServer(options, lines, inspect) ==>
      StopServer(options, lines, inspect).Some? && id in StopServer(options, lines, inspect).value
  {
  }

  /** The four conflicts `scanContainer` raises, in the order it checks them. */
  datatype Conflict =
    | PortUsedByContainer(port: int, other: string)
    | PortUsedByImage(port: int, other: string)
    | NameUsedByImage(name: string, otherImage: string)
    | NameOnOtherPort(name: string, otherPort: Option<nat>)

  /** A text in double quotes. */
  function Quoted(s: string): string {
    "\"" + s + "\""
  }

  /** The message of the error `scanContainer` throws: it opens with the
      requested port or name and closes with the offending container, image
      or port, in double quotes. */
  function ConflictMessage(conflict: Conflict): (m: string)
    ensures (conflict.PortUsedByContainer? || conflict.PortUsedByImage?) ==>
      StartsWith(m, "port " + IntToString(conflict.port) + " is used by another ") && EndsWith(m, Quoted(conflict.other))
    ensures conflict.NameUsedByImage? ==>
      StartsWith(m, "container name " + Quoted(conflict.name)) && EndsWith(m, Quoted(conflict.otherImage))
    ensures conflict.NameOnOtherPort? ==>
      StartsWith(m, "container " + Quoted(conflict.name)) &&
      EndsWith(m, Quoted(if conflict.otherPort.Some? then NatToString(conflict.otherPort.value) else "undefined"))
  {
    match conflict
    case PortUsedByContainer(port, other) =>
      "port " + IntToString(port) + " is used by another " + "container " + Quoted(other)
    case PortUsedByImage(port, other) =>
      "port " + IntToString(port) + " is used by another " + "image " + Quoted(other)
    case NameUsedByImage(name, otherImage) =>
      "container name " + Quoted(name) + " is used by another image " + Quoted(otherImage)
    case NameOnOtherPort(name, otherPort) =>
      "container " + Quoted(name) + " is using another port " +
      Quoted(if otherPort.Some? then NatToString(otherPort.value) else "undefined")
  }

  /** How a scan of the container listing ends. */
  datatype Scan = Found(container: Container) | NotFound | Clash(conflict: Conflict)

  /** What one listed container decides for a request of `image`, `name` and
      `port`: a conflict, the match, or None to go on to the next line. */
  function Verdict(c: Container, image: string, name: string, port: int): (v: Option<Scan>)
    ensures v.None? <==> c.name != name && !(HasPort(c, port) && (c.running || c.image == image))
    ensures v.Some? ==> !v.value.NotFound?
    ensures v.Some? && v.value.Found? ==>
      v.value.container == c && c.image == image && HasPort(c, port) && (c.running ==> c.name == name)
    ensures c.image == image && HasPort(c, port) && (c.running ==> c.name == name) ==> v == Some(Found(c))
    // Each conflict, under exactly the conditions in which it is the first check that fails.
    ensures HasPort(c, port) && c.running && c.name != name ==>
      v == Some(Clash(PortUsedByContainer(port, c.name)))
    ensures HasPort(c, port) && c.running && c.name == name && c.image != image ==>
      v == Some(Clash(PortUsedByImage(port, c.name)))
    ensures c.name == name && c.image != image && !(HasPort(c, port) && c.running) ==>
      v == Some(Clash(NameUsedByImage(name, c.image)))
    ensures c.name == name && c.image == image && !HasPort(c, port) ==>
      v == Some(Clash(NameOnOtherPort(name, c.port)))
  {
    if HasPort(c, port) && c.name != name && c.running then Some(Clash(PortUsedByContainer(port, c.name)))
    else if HasPort(c, port) && c.image != image && c.running then Some(Clash(PortUsedByImage(port, c.name)))
    else if c.name == name && c.image != image then Some(Clash(NameUsedByImage(name, c.image)))
    else if c.name == name && !HasPort(c, port) then Some(Clash(NameOnOtherPort(name, c.port)))
    else if c.image == image && HasPort(c, port) then Some(Found(c))
    else None
  }

  /** The verdict of one line; lines that describe no container decide nothing. */
  function LineVerdict(line: string, inspect: string -> string, image: string, name: string, port: int): Option<Scan> {
    match ParseLine(line, inspect)
    case None => None
    case Some(c) => Verdict(c, image, name, port)
  }

  /** The verdict of each line, in order. */
  function LineVerdicts(lines: seq<string>, inspect: string -> string, image: string, name: string, port: int)
    : seq<Option<Scan>>
    decreases |lines|
  {
    if lines == [] then []
    else [LineVerdict(lines[0], inspect, image, name, port)] + LineVerdicts(lines[1..], inspect, image, name, port)
  }

  /** There is one verdict per line, and the verdict at `i` is that of line `i`. */
  lemma {:induction false} LineVerdictsAt(lines: seq<string>, inspect: string -> string, image: string, name: string, port: int, i: nat)
    requires i < |lines|
    ensures |LineVerdicts(lines, inspect, image, name, port)| == |lines|
    ensures LineVerdicts(lines, inspect, image, name, port)[i] == LineVerdict(lines[i], inspect, image, name, port)
    decreases |lines|
  {
    if i > 0 {
      LineVerdictsAt(lines[1..], inspect, image, name, port, i - 1);
    } else if |lines| > 1 {
      LineVerdictsAt(lines[1..], inspect, image, name, port, 0);
    }
  }

  /** The outcome of `scanContainer`: the verdict of the first line that
      decides anything, or NotFound when none does. */
  function ScanSpec(lines: seq<string>, inspect: string -> string, image: string, name: string, port: int): Scan {
    match FirstFound(LineVerdicts(lines, inspect, image, name, port))
    case Some(v) => v
    case None => NotFound
  }

  /** The scan finds nothing iff no line decides, and otherwise ends with the
      verdict of the first line that decides. */
  lemma ScanSpecIsFirst(lines: seq<string>, inspect: string -> string, image: string, name: string, port: int)
    ensures var scan := ScanSpec(lines, inspect, image, name, port);
      && (scan.NotFound? <==> forall i :: 0 <= i < |lines| ==> LineVerdict(lines[i], inspect, image, name, port).None?)
      && (!scan.NotFound? ==>
            exists i :: 0 <= i < |lines| && LineVerdict(lines[i], inspect, image, name, port) == Some(scan) &&
                        (forall j :: 0 <= j < i ==> LineVerdict(lines[j], inspect, image, name, port).None?))
  {
    var vs := LineVerdicts(lines, inspect, image, name, port);
    if lines == [] {
      assert vs == [];
    } else {
      LineVerdictsAt(lines, inspect, image, name, port, 0);
      forall i | 0 <= i < |lines| ensures vs[i] == LineVerdict(lines[i], inspect, image, name, port) {
        LineVerdictsAt(lines, inspect, image, name, port, i);
      }
    }
  }

  /** `scanContainer`: walks the `docker ps -a` lines in order, throws on the
      first conflict and returns the first container of the requested image
      and port. */
  method ScanContainer(lines: seq<string>, inspect: string -> string, image: string, name: string, port: int)
    returns (scan: Scan)
    ensures scan == ScanSpec(lines, inspect, image, name, port)
  {
    ghost var verdicts := LineVerdicts(lines, inspect, image, name, port);
    if lines == [] {
      assert verdicts == [];
    } else {
      LineVerdictsAt(lines, inspect, image, name, port, 0);
    }
    for i := 0 to |lines|
      invariant |verdicts| == |lines|
      invariant forall j :: 0 <= j < i ==> verdicts[j].None?
    {
      LineVerdictsAt(lines, inspect, image, name, port, i);
      var parsed := ParseLine(lines[i], inspect);
      if parsed.None? {
        continue;
      }
      var container := parsed.value;
      assert verdicts[i] == Verdict(container, image, name, port);
      if verdicts[i].Some? {
        FirstFoundAt(verdicts, i);
      }
      if HasPort(container, port) && container.name != name && container.running {
        return Clash(PortUsedByContainer(port, container.name));
      }
      if HasPort(container, port) && container.image != image && container.running {
        return Clash(PortUsedByImage(port, container.name));
      }
      if container.name == name && container.image != image {
        return Clash(NameUsedByImage(name, container.image));
      }
      if container.name == name && !HasPort(container, port) {
        return Clash(NameOnOtherPort(name, container.port));
      }
      if container.image == image && HasPort(container, port) {
        return Found(container);
      }
    }
    return NotFound;
  }

  /** A container the scan returns has the requested image and port, comes
      from the listing, and if it is running it also has the requested name:
      a running match under another name would have raised the port conflict. */
  lemma ScanFoundIsRequested(lines: seq<string>, inspect: string -> string, image: string, name: string, port: int)
    requires ScanSpec(lines, inspect, image, name, port).Found?
    ensures var c := ScanSpec(lines, inspect, image, name, port).container;
      c.image == image && HasPort(c, port) && (c.running ==> c.name == name) &&
      exists i :: 0 <= i < |lines| && ParseLine(lines[i], inspect) == Some(c)
  {
    ScanSpecIsFirst(lines, inspect, image, name, port);
    var scan := ScanSpec(lines, inspect, image, name, port);
    var i :| 0 <= i < |lines| && LineVerdict(lines[i], inspect, image, name, port) == Some(scan);
    assert ParseLine(lines[i], inspect) == Some(scan.container);
  }

  /** When the scan finds nothing, no listed container uses the requested
      name, and none publishes the requested port while running. */
  lemma ScanNotFoundIsFree(lines: seq<string>, inspect: string -> string, image: string, name: string, port: int)
    requires ScanSpec(lines, inspect, image, name, port).NotFound?
    ensures forall i :: 0 <= i < |lines| && ParseLine(lines[i], inspect).Some? ==>
      ParseLine(lines[i], inspect).value.name != name &&
      !(HasPort(ParseLine(lines[i], inspect).value, port) && ParseLine(lines[i], inspect).value.running)
  {
    ScanSpecIsFirst(lines, inspect, image, name, port);
    forall i | 0 <= i < |lines| && ParseLine(lines[i], inspect).Some?
      ensures ParseLine(lines[i], inspect).value.name != name &&
              !(HasPort(ParseLine(lines[i], inspect).value, port) && ParseLine(lines[i], inspect).value.running)
    {
      assert LineVerdict(lines[i], inspect, image, name, port).None?;
    }
  }

  /** What `startServer` does. */
  datatype StartPlan =
    | AlreadyRunning                                                 // ready at once
    | Resume(name: string, debug: bool)                              // `docker start <name>`, then follow its logs
    | Launch(image: string, name: string, port: int, debug: bool)    // `docker run --name <name> -p <port>:80 <image>`
    | Refused(conflict: Conflict)                                    // `scanContainer` threw

  /** `startServer` as written: reuse a running match, resume a stopped one
      (by the requested container name), or launch a new container. */
  function StartServer(options: Option<ServerOptions>, lines: seq<string>, inspect: string -> string): (plan: StartPlan)
    ensures var s := ExpandOptions(options);
      var scan := ScanSpec(lines, inspect, s.image, s.container, s.port);
      && (plan.AlreadyRunning? <==> scan.Found? && scan.container.running)
      && (plan.Resume? <==> scan.Found? && !scan.container.running)
      && (plan.Launch? <==> scan.NotFound?)
      && (plan.Refused? <==> scan.Clash?)
      && (plan.Refused? ==> scan == Clash(plan.conflict))
      && (plan.Resume? ==> plan == Resume(s.container, s.debug))
      && (plan.Launch? ==> plan == Launch(s.image, s.container, s.port, s.debug))
  {
    var s := ExpandOptions(options);
    match ScanSpec(lines, inspect, s.image, s.container, s.port)
    case Clash(conflict) => Refused(conflict)
    case Found(c) => if c.running then AlreadyRunning else Resume(s.container, s.debug)
    case NotFound => Launch(s.image, s.container, s.port, s.debug)
  }

  /** Reusing happens only when a container with the requested name, image
      and port is running. */
  lemma AlreadyRunningIsRequested(options: Option<ServerOptions>, lines: seq<string>, inspect: string -> string)
    requires StartServer(options, lines, inspect).AlreadyRunning?
    ensures var s := ExpandOptions(options);
      exists i :: 0 <= i < |lines| && ParseLine(lines[i], inspect).Some? &&
        var c := ParseLine(lines[i], inspect).value;
        c.running && c.name == s.container && c.image == s.image && HasPort(c, s.port)
  {
    var s := ExpandOptions(options);
    ScanFoundIsRequested(lines, inspect, s.image, s.container, s.port);
  }

  /** A launched container takes the requested settings, and its name and
      port are free: no listed container has the name, and no running one
      publishes the port. */
  lemma LaunchIsFree(options: Option<ServerOptions>, lines: seq<string>, inspect: string -> string)
    requires StartServer(options, lines, inspect).Launch?
    ensures var s := ExpandOptions(options);
      StartServer(options, lines, inspect) == Launch(s.image, s.container, s.port, s.debug)
    ensures var p := StartServer(options, lines, inspect);
      forall i :: 0 <= i < |lines| && ParseLine(lines[i], inspect).Some? ==>
        ParseLine(lines[i], inspect).value.name != p.name &&
        !(HasPort(ParseLine(lines[i], inspect).value, p.port) && ParseLine(lines[i], inspect).value.running)
  {
    var s := ExpandOptions(options);
    ScanNotFoundIsFree(lines, inspect, s.image, s.container, s.port);
  }

  /** The line of a stopped container `x` of the default image whose inspect
      text publishes port 24080. */
  lemma StoppedOtherContainerLine(line: string, inspect: string -> string)
    requires line == Join(["a", Defaults.Image, "Exited", "x"], " ")
    requires inspect("x") == "{24080}"
    ensures ParseLine(line, inspect) == Some(Container("a", Defaults.Image, "x", Some(24080), false))
  {
    var words := ["a", Defaults.Image, "Exited", "x"];
    assert forall w :: w in words ==> w != [] && ' ' !in w;
    WordsOfJoin(words);
    assert line[0] == 'a';
    assert !IsHeader(line);
    assert "Exited" in Words(line);
    assert Last(Words(line)) == "x";
    InspectPortOfDefault();
  }

  /** The requested container name resumed by `startServer` need not be the
      name of the stopped container the scan found: a stopped container `x`
      of the default image on the default port makes it resume
      `docker-easynmt`, a name nothing in the listing carries. */
  lemma ResumeMayTargetUnlistedName(line: string, inspect: string -> string)
    requires line == Join(["a", Defaults.Image, "Exited", "x"], " ")
    requires inspect("x") == "{24080}"
    ensures StartServer(None, [line], inspect) == Resume(Defaults.Container, false)
    ensures ParseLine(line, inspect).Some? && ParseLine(line, inspect).value.name != Defaults.Container
  {
    StoppedOtherContainerLine(line, inspect);
    var c := Container("a", Defaults.Image, "x", Some(24080), false);
    assert Verdict(c, Defaults.Image, Defaults.Container, Defaults.Port) == Some(Found(c));
    assert LineVerdict(line, inspect, Defaults.Image, Defaults.Container, Defaults.Port) == Some(Found(c));
    LineVerdictsAt([line], inspect, Defaults.Image, Defaults.Container, Defaults.Port, 0);
    FirstFoundAt(LineVerdicts([line], inspect, Defaults.Image, Defaults.Container, Defaults.Port), 0);
    assert ScanSpec([line], inspect, Defaults.Image, Defaults.Container, Defaults.Port) == Found(c);
  }

  /** The inspect text `{24080}` gives port 24080. */
  lemma InspectPortOfDefault()
    ensures InspectPort("{24080}") == Some(24080)
  {
    var text := "{24080}";
    assert SkipSpaces(text, 1) == 1;
    assert SkipDigits(text, 1) == 6;
    assert text[1..6] == "24080";
    assert NatToString(2) == "2";
    assert NatToString(24) == "24";
    assert NatToString(240) == "240";
    assert NatToString(2408) == "2408";
    assert NatToString(24080) == "24080";
    ParseNatToString(24080);
    assert BraceNumbers(text)[0] == Some(24080);
  }

  /** `startServer` as evidently intended: a stopped match is resumed by its
      own name. */
  function StartServerCorrected(options: Option<ServerOptions>, lines: seq<string>, inspect: string -> string): (plan: StartPlan)
    ensures var s := ExpandOptions(options);
      var scan := ScanSpec(lines, inspect, s.image, s.container, s.port);
      && (plan.Resume? <==> scan.Found? && !scan.container.running)
      && (plan.Resume? ==> plan == Resume(scan.container.name, s.debug))
      && (!plan.Resume? ==> plan == StartServer(options, lines, inspect))
  {
    var s := ExpandOptions(options);
    match ScanSpec(lines, inspect, s.image, s.container, s.port)
    case Clash(conflict) => Refused(conflict)
    case Found(c) => if c.running then AlreadyRunning else Resume(c.name, s.debug)
    case NotFound => Launch(s.image, s.container, s.port, s.debug)
  }

  /** The corrected start resumes a listed, stopped container of the
      requested image and port. */
  lemma ResumeTargetsFoundContainer(options: Option<ServerOptions>, lines: seq<string>, inspect: string -> string)
    requires StartServerCorrected(options, lines, inspect).Resume?
    ensures var s := ExpandOptions(options);
      var n := StartServerCorrected(options, lines, inspect).name;
      exists i :: 0 <= i < |lines| && ParseLine(lines[i], inspect).Some? &&
        var c := ParseLine(lines[i], inspect).value;
        c.name == n && !c.running && c.image == s.image && HasPort(c, s.port)
  {
    var s := ExpandOptions(options);
    ScanFoundIsRequested(lines, inspect, s.image, s.container, s.port);
  }

  /** `autoStartServer` as written: when `scanServer` reports nothing, start
      with `startServer()`, that is with the default options. */
  function AutoStartServer(options: Option<ServerOptions>, psLines: seq<string>, psAllLines: seq<string>,
                           inspect: string -> string): (plan: Option<StartPlan>)
    ensures plan.Some? <==> ScanServer(options, psLines, inspect) == []
    ensures plan.Some? ==> plan.value == StartServer(None, psAllLines, inspect)
  {
    if |ScanServer(options, psLines, inspect)| == 0 then Some(StartServer(None, psAllLines, inspect)) else None
  }

  /** Asked for port 8100 with nothing listed, `autoStartServer` launches the
      default image on port 24080 instead. */
  lemma AutoStartIgnoresOptions()
    ensures var options := Some(ServerOptions(Some(8100), None, None, None));
      && ExpandOptions(options).port == 8100
      && AutoStartServer(options, [], [], (n: string) => "") ==
         Some(Launch(Defaults.Image, Defaults.Container, Defaults.Port, false))
  {
  }

  /** `autoStartServer` as evidently intended: start with the caller's options. */
  function AutoStartServerCorrected(options: Option<ServerOptions>, psLines: seq<string>, psAllLines: seq<string>,
                                    inspect: string -> string): (plan: Option<StartPlan>)
    ensures plan.Some? <==> ScanServer(options, psLines, inspect) == []
    ensures plan.Some? ==> plan.value == StartServerCorrected(options, psAllLines, inspect)
  {
    if |ScanServer(options, psLines, inspect)| == 0 then Some(StartServerCorrected(options, psAllLines, inspect)) else None
  }

  /** The corrected automatic start launches exactly the requested settings,
      and only when nothing listed publishes the port or runs the image. */
  lemma AutoStartHonoursOptions(options: Option<ServerOptions>, psLines: seq<string>, psAllLines: seq<string>,
                                inspect: string -> string)
    requires AutoStartServerCorrected(options, psLines, psAllLines, inspect).Some?
    requires AutoStartServerCorrected(options, psLines, psAllLines, inspect).value.Launch?
    ensures var p := AutoStartServerCorrected(options, psLines, psAllLines, inspect).value;
      ExpandOptions(options) == Settings(p.port, p.image, p.debug, p.name)
    ensures var s := ExpandOptions(options);
      forall i :: 0 <= i < |psLines| && ParseLine(psLines[i], inspect).Some? ==>
        !HasPort(ParseLine(psLines[i], inspect).value, s.port) && ParseLine(psLines[i], inspect).value.image != s.image
  {
    var s := ExpandOptions(options);
    forall i | 0 <= i < |psLines| && ParseLine(psLines[i], inspect).Some?
      ensures !HasPort(ParseLine(psLines[i], inspect).value, s.port) && ParseLine(psLines[i], inspect).value.image != s.image
    {
    }
  }

  /** How a chunk of container log output is read while waiting for the service. */
  datatype LogSignal = Failed | Ready | Waiting

  /** The line the service prints once it accepts requests. */
  const StartupComplete: string := "Application startup complete"

  /** A log chunk of a freshly run container: any `error` in any case fails,
      otherwise the startup line means ready. */
  function LaunchLogSignal(data: string): (signal: LogSignal)
    ensures signal == Failed <==> Contains(ToLower(data), "error")
    ensures signal == Ready <==> !Contains(ToLower(data), "error") && Contains(data, StartupComplete)
  {
    if Contains(ToLower(data), "error") then Failed
    else if Contains(data, StartupComplete) then Ready
    else Waiting
  }

  /** A log chunk of a resumed container: as for a fresh one, except that
      each `errorlog` (in any case) is removed before looking for `error`. */
  function ResumeLogSignal(data: string): (signal: LogSignal)
    ensures signal == Failed <==> Contains(RemoveAll(ToLower(data), "errorlog"), "error")
    ensures signal == Ready <==>
      !Contains(RemoveAll(ToLower(data), "errorlog"), "error") && Contains(data, StartupComplete)
    ensures signal == Failed ==> Contains(ToLower(data), "error")
    ensures signal == Ready ==> Contains(data, StartupComplete)
  {
    var lower := ToLower(data);
    if Contains(RemoveAll(lower, "errorlog"), "error") then
      assert Contains(lower, "error") by {
        if Contains(lower, "errorlog") {
          assert "error" + "log" == "errorlog";
          ContainsPrefixOf(lower, "error", "log");
        }
      }
      Failed
    else if Contains(data, StartupComplete) then Ready
    else Waiting
  }

  /** The resumed container's reading is the more lenient one: a chunk that
      fails it fails a fresh container too, and a chunk that means ready for
      a fresh container means ready for a resumed one. */
  lemma ResumeSignalIsLenient(data: string)
    ensures ResumeLogSignal(data) == Failed ==> LaunchLogSignal(data) == Failed
    ensures LaunchLogSignal(data) == Ready ==> ResumeLogSignal(data) == Ready
  {
    var lower := ToLower(data);
    if Contains(lower, "errorlog") {
      assert "error" + "log" == "errorlog";
      ContainsPrefixOf(lower, "error", "log");
    }
  }

  /** Without `errorlog` in any case, a resumed container reads a chunk
      exactly as a fresh one does. */
  lemma ResumeAgreesWithoutErrorlog(data: string)
    requires !Contains(ToLower(data), "errorlog")
    ensures ResumeLogSignal(data) == LaunchLogSignal(data)
  {
    assert RemoveAll(ToLower(data), "errorlog") == ToLower(data);
  }

  /** The chunk `errorlog` fails a fresh container but not a resumed one. */
  lemma ErrorlogFailsOnlyLaunch()
    ensures LaunchLogSignal("errorlog") == Failed
    ensures ResumeLogSignal("errorlog") == Waiting
  {
    var data := "errorlog";
    assert ToLower(data) == data;
    assert "error" + "log" == data;
    assert StartsWith(data, "errorlog");
    assert RemoveAll(data, "errorlog") == [];
    assert StartsWith(data, "error");
    assert !Contains(data, StartupComplete) by {
      assert forall s: string :: |s| < |StartupComplete| ==> !Contains(s, StartupComplete) by {
        forall s: string | |s| < |StartupComplete| ensures !Contains(s, StartupComplete) {
          ShortTextContainsNothingLonger(s, StartupComplete);
        }
      }
    }
  }

  /** A text shorter than `sub` does not contain it. */
  lemma {:induction false} ShortTextContainsNothingLonger(s: string, sub: string)
    requires |s| < |sub|
    ensures !Contains(s, sub)
    decreases |s|
  {
    if s != [] {
      ShortTextContainsNothingLonger(s[1..], sub);
    }
  }
}
