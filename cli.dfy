/**
 * The command line of `easynmt-server` (cli.ts): the loop over
 * `process.argv` from index 2 that fills in the configuration, or ends with
 * an error, the version or the help text. What the program then does with
 * the configuration (stop/start the server, preload a model) and what it
 * prints are not part of this module.
 */
module Cli {
  import opened Wrappers
  import opened Text
  import Defaults

  /** The configuration the command line fills in. */
  datatype Config = Config(debug: bool, port: int, image: string)

  /** The configuration before any argument is read. */
  const Initial: Config := Config(false, Defaults.Port, Defaults.Image)

  const InvalidPort: string := "Invalid port"
  const MissingImage: string := "missing docker image name"

  /** How reading the arguments ends. */
  datatype Outcome =
    | Run(config: Config)      // the loop reached the end of the arguments
    | Fail(message: string)    // `console.error('Error: ' + message)`, exit code 1
    | ShowVersion              // prints the package version, exit code 0
    | ShowHelp                 // prints the usage text, exit code 0

  /** The arguments the loop looks at. */
  predicate IsOption(arg: string) {
    arg in {"--port", "--debug", "--image", "--version", "-v", "--help", "-h"}
  }

  /** `+value` followed by the `!port` test: the port a `--port` value
      gives, None when it is missing, not a number, or 0. */
  function PortValue(value: Option<string>): (port: Option<nat>)
    ensures port.Some? <==> value.Some? && ParseDecimal(value.value).Some? && ParseDecimal(value.value).value > 0
    ensures port.Some? ==> ParseDecimal(value.value) == Some(port.value)
  {
    if value.Some? && ParseDecimal(value.value).Some? && ParseDecimal(value.value).value != 0
    then ParseDecimal(value.value) else None
  }

  /** Reading the arguments `args` starting from `config`. */
  function ParseFrom(args: seq<string>, config: Config): Outcome
    decreases |args|
  {
    if args == [] then Run(config)
    else if args[0] == "--port" then
      match PortValue(if |args| > 1 then Some(args[1]) else None)
      case None => Fail(InvalidPort)
      case Some(port) => ParseFrom(args[2..], config.(port := port))
    else if args[0] == "--debug" then ParseFrom(args[1..], config.(debug := true))
    else if args[0] == "--image" then
      if |args| < 2 || args[1] == [] then Fail(MissingImage)
      else ParseFrom(args[2..], config.(image := args[1]))
    else if args[0] == "--version" || args[0] == "-v" then ShowVersion
    else if args[0] == "--help" || args[0] == "-h" then ShowHelp
    else ParseFrom(args[1..], config)
  }

  /** Reading fails only with one of the two messages, and a run takes its
      image from the starting configuration or from an argument, and its
      port from the starting configuration or a positive `--port` value. */
  lemma {:induction false} ParseFromOutcomes(args: seq<string>, config: Config)
    ensures ParseFrom(args, config).Fail? ==>
      ParseFrom(args, config).message == InvalidPort || ParseFrom(args, config).message == MissingImage
    ensures ParseFrom(args, config).Run? ==>
      ParseFrom(args, config).config.image == config.image || ParseFrom(args, config).config.image in args
    ensures ParseFrom(args, config).Run? ==>
      ParseFrom(args, config).config.port == config.port || ParseFrom(args, config).config.port > 0
    decreases |args|
  {
    if args != [] {
      if args[0] == "--port" && PortValue(if |args| > 1 then Some(args[1]) else None).Some? {
        assert forall a :: a in args[2..] ==> a in args;
        ParseFromOutcomes(args[2..], config.(port := PortValue(Some(args[1])).value));
      } else if args[0] == "--image" && |args| >= 2 && args[1] != [] {
        assert args[1] in args;
        assert forall a :: a in args[2..] ==> a in args;
        ParseFromOutcomes(args[2..], config.(image := args[1]));
      } else if args[0] == "--debug" || !IsOption(args[0]) {
        assert forall a :: a in args[1..] ==> a in args;
        ParseFromOutcomes(args[1..], if args[0] == "--debug" then config.(debug := true) else config);
      }
    }
  }

  /** The arguments after the program and script paths. */
  function UserArgs(argv: seq<string>): seq<string> {
    if |argv| <= 2 then [] else argv[2..]
  }

  /** What the command line makes of `process.argv`. */
  function Parse(argv: seq<string>): Outcome {
    ParseFrom(UserArgs(argv), Initial)
  }

  /** The `config` object, whose fields the loop updates in place. */
  class CliConfig {
    var debug: bool
    var port: int
    var image: string

    constructor ()
      ensures Value() == Initial
    {
      debug := false;
      port := Defaults.Port;
      image := Defaults.Image;
    }

    function Value(): Config
      reads this
    {
      Config(debug, port, image)
    }
  }

  /** The `for`/`switch` loop of cli.ts. */
  method ParseArgs(argv: seq<string>) returns (outcome: Outcome)
    ensures outcome == Parse(argv)
  {
    var config := new CliConfig();
    var i := 2;
    while i < |argv|
      invariant 2 <= i && (i <= |argv| || i == 2)
      invariant Parse(argv) == ParseFrom(if i < |argv| then argv[i..] else [], config.Value())
      decreases |argv| - i
    {
      var arg := argv[i];
      ghost var rest, before := argv[i..], config.Value();
      assert rest[0] == arg;
      if arg == "--port" {
        i := i + 1;
        var port := PortValue(if i < |argv| then Some(argv[i]) else None);
        assert i < |argv| ==> rest[1] == argv[i];
        if port.None? {
          assert ParseFrom(rest, before) == Fail(InvalidPort);
          return Fail(InvalidPort);
        }
        config.port := port.value;
        assert ParseFrom(rest, before) == ParseFrom(rest[2..], config.Value());
        assert rest[2..] == if i + 1 < |argv| then argv[i + 1..] else [];
      } else if arg == "--debug" {
        config.debug := true;
        assert ParseFrom(rest, before) == ParseFrom(rest[1..], config.Value());
        assert rest[1..] == if i + 1 < |argv| then argv[i + 1..] else [];
      } else if arg == "--image" {
        i := i + 1;
        var image := if i < |argv| then argv[i] else [];
        assert i < |argv| ==> rest[1] == argv[i];
        if image == [] {
          assert ParseFrom(rest, before) == Fail(MissingImage);
          return Fail(MissingImage);
        }
        config.image := image;
        assert ParseFrom(rest, before) == ParseFrom(rest[2..], config.Value());
        assert rest[2..] == if i + 1 < |argv| then argv[i + 1..] else [];
      } else if arg == "--version" || arg == "-v" {
        assert ParseFrom(rest, before) == ShowVersion;
        return ShowVersion;
      } else if arg == "--help" || arg == "-h" {
        assert ParseFrom(rest, before) == ShowHelp;
        return ShowHelp;
      } else {
        assert ParseFrom(rest, before) == ParseFrom(rest[1..], config.Value());
        assert rest[1..] == if i + 1 < |argv| then argv[i + 1..] else [];
      }
      i := i + 1;
    }
    return Run(config.Value());
  }

  /** Arguments that run to the end leave the rest to be read from the
      configuration they produced. */
  lemma {:induction false} ParseAppend(xs: seq<string>, ys: seq<string>, config: Config)
    requires ParseFrom(xs, config).Run?
    ensures ParseFrom(xs + ys, config) == ParseFrom(ys, ParseFrom(xs, config).config)
    decreases |xs|
  {
    if xs != [] {
      var s := xs + ys;
      assert s[0] == xs[0];
      if xs[0] == "--port" || xs[0] == "--image" {
        assert |xs| > 1 && s[1] == xs[1];
        assert s[2..] == xs[2..] + ys;
        var next := if xs[0] == "--port" then config.(port := PortValue(Some(xs[1])).value) else config.(image := xs[1]);
        ParseAppend(xs[2..], ys, next);
      } else {
        assert s[1..] == xs[1..] + ys;
        var next := if xs[0] == "--debug" then config.(debug := true) else config;
        ParseAppend(xs[1..], ys, next);
      }
    } else {
      assert xs + ys == ys;
    }
  }

  /** `-v`/`--version` and `-h`/`--help` end the reading: whatever follows
      is not looked at. */
  lemma {:induction false} VersionAndHelpStop(xs: seq<string>, ys: seq<string>, config: Config)
    requires ParseFrom(xs, config) == ShowVersion || ParseFrom(xs, config) == ShowHelp
    ensures ParseFrom(xs + ys, config) == ParseFrom(xs, config)
    decreases |xs|
  {
    var s := xs + ys;
    assert s[0] == xs[0];
    if xs[0] == "--port" || xs[0] == "--image" {
      assert |xs| > 1 && s[1] == xs[1];
      assert s[2..] == xs[2..] + ys;
      var next := if xs[0] == "--port" then config.(port := PortValue(Some(xs[1])).value) else config.(image := xs[1]);
      VersionAndHelpStop(xs[2..], ys, next);
    } else if xs[0] == "--version" || xs[0] == "-v" || xs[0] == "--help" || xs[0] == "-h" {
    } else {
      assert s[1..] == xs[1..] + ys;
      var next := if xs[0] == "--debug" then config.(debug := true) else config;
      VersionAndHelpStop(xs[1..], ys, next);
    }
  }

  /** `-v`/`--version` or `-h`/`--help` after complete options ends the
      reading with the version or the help, whatever follows. */
  lemma VersionOrHelpEndsReading(xs: seq<string>, arg: string, ys: seq<string>, config: Config)
    requires ParseFrom(xs, config).Run?
    requires arg in {"--version", "-v", "--help", "-h"}
    ensures ParseFrom(xs + [arg] + ys, config) == if arg == "--version" || arg == "-v" then ShowVersion else ShowHelp
  {
    assert xs + [arg] + ys == xs + ([arg] + ys);
    ParseAppend(xs, [arg] + ys, config);
    assert ([arg] + ys)[0] == arg;
  }

  /** `--image` as the last argument, or followed by an empty value, is an
      error after complete options, whatever follows. */
  lemma MissingImageFails(xs: seq<string>, ys: seq<string>, config: Config)
    requires ParseFrom(xs, config).Run?
    ensures ParseFrom(xs + ["--image"], config) == Fail(MissingImage)
    ensures ParseFrom(xs + ["--image", ""] + ys, config) == Fail(MissingImage)
  {
    ParseAppend(xs, ["--image"], config);
    assert xs + ["--image", ""] + ys == xs + (["--image", ""] + ys);
    ParseAppend(xs, ["--image", ""] + ys, config);
    assert (["--image", ""] + ys)[0] == "--image" && (["--image", ""] + ys)[1] == "";
  }

  /** Once debug is on, a run leaves it on. */
  lemma {:induction false} DebugStaysOn(args: seq<string>, config: Config)
    requires config.debug
    requires ParseFrom(args, config).Run?
    ensures ParseFrom(args, config).config.debug
    decreases |args|
  {
    if args != [] {
      if args[0] == "--port" {
        DebugStaysOn(args[2..], config.(port := PortValue(Some(args[1])).value));
      } else if args[0] == "--image" {
        DebugStaysOn(args[2..], config.(image := args[1]));
      } else {
        DebugStaysOn(args[1..], if args[0] == "--debug" then config.(debug := true) else config);
      }
    }
  }

  /** A `--debug` after complete options turns debug on in the run. */
  lemma DebugSetsDebug(xs: seq<string>, ys: seq<string>, config: Config)
    requires ParseFrom(xs, config).Run?
    requires ParseFrom(xs + ["--debug"] + ys, config).Run?
    ensures ParseFrom(xs + ["--debug"] + ys, config).config.debug
  {
    var before := ParseFrom(xs, config).config;
    assert xs + ["--debug"] + ys == xs + (["--debug"] + ys);
    ParseAppend(xs, ["--debug"] + ys, config);
    assert (["--debug"] + ys)[0] == "--debug" && (["--debug"] + ys)[1..] == ys;
    DebugStaysOn(ys, before.(debug := true));
  }

  /** An argument the loop does not know is skipped, wherever it stands
      between complete options. */
  lemma UnknownArgumentIgnored(xs: seq<string>, arg: string, ys: seq<string>, config: Config)
    requires !IsOption(arg)
    requires ParseFrom(xs, config).Run?
    ensures ParseFrom(xs + [arg] + ys, config) == ParseFrom(xs + ys, config)
  {
    assert xs + [arg] + ys == xs + ([arg] + ys);
    ParseAppend(xs, [arg] + ys, config);
    ParseAppend(xs, ys, config);
    assert ([arg] + ys)[1..] == ys;
  }

  /** The last `--port` wins. */
  lemma LastPortWins(xs: seq<string>, value: string, config: Config)
    requires ParseFrom(xs, config).Run?
    requires PortValue(Some(value)).Some?
    ensures ParseFrom(xs + ["--port", value], config) ==
      Run(ParseFrom(xs, config).config.(port := PortValue(Some(value)).value))
  {
    ParseAppend(xs, ["--port", value], config);
    assert ["--port", value][2..] == [];
  }

  /** The last `--image` wins, and the value it consumes is taken as the
      image even when it looks like an option. */
  lemma LastImageWins(xs: seq<string>, value: string, config: Config)
    requires ParseFrom(xs, config).Run?
    requires value != []
    ensures ParseFrom(xs + ["--image", value], config) == Run(ParseFrom(xs, config).config.(image := value))
  {
    ParseAppend(xs, ["--image", value], config);
    assert ["--image", value][2..] == [];
  }

  /** `--image --debug` sets the image to `--debug` and leaves debug off. */
  lemma ImageValueIsNotAnOption()
    ensures Parse(["node", "cli.js", "--image", "--debug"]) == Run(Config(false, Defaults.Port, "--debug"))
  {
    assert UserArgs(["node", "cli.js", "--image", "--debug"]) == ["--image", "--debug"];
    assert ["--image", "--debug"][2..] == [];
  }

  /** A run keeps a usable configuration: a positive port and a non-empty image. */
  lemma {:induction false} RunConfigIsUsable(args: seq<string>, config: Config)
    requires config.port > 0 && config.image != []
    requires ParseFrom(args, config).Run?
    ensures ParseFrom(args, config).config.port > 0 && ParseFrom(args, config).config.image != []
    decreases |args|
  {
    if args != [] {
      if args[0] == "--port" {
        RunConfigIsUsable(args[2..], config.(port := PortValue(Some(args[1])).value));
      } else if args[0] == "--image" {
        RunConfigIsUsable(args[2..], config.(image := args[1]));
      } else if args[0] == "--debug" {
        RunConfigIsUsable(args[1..], config.(debug := true));
      } else {
        RunConfigIsUsable(args[1..], config);
      }
    }
  }

  /** Without a `--debug` argument debug keeps its value; without a `--port`
      argument the port does. */
  lemma {:induction false} SettingsNeedTheirOption(args: seq<string>, config: Config)
    requires ParseFrom(args, config).Run?
    ensures "--debug" !in args ==> ParseFrom(args, config).config.debug == config.debug
    ensures "--port" !in args ==> ParseFrom(args, config).config.port == config.port
    decreases |args|
  {
    if args != [] {
      assert forall a :: a in args[1..] ==> a in args;
      if args[0] == "--port" {
        assert forall a :: a in args[2..] ==> a in args;
        SettingsNeedTheirOption(args[2..], config.(port := PortValue(Some(args[1])).value));
      } else if args[0] == "--image" {
        assert forall a :: a in args[2..] ==> a in args;
        SettingsNeedTheirOption(args[2..], config.(image := args[1]));
      } else if args[0] == "--debug" {
        SettingsNeedTheirOption(args[1..], config.(debug := true));
      } else {
        SettingsNeedTheirOption(args[1..], config);
      }
    }
  }

  /** A `--port` whose value is missing, not a number, or 0 is an error,
      whatever follows it. */
  lemma BadPortFails(value: Option<string>, ys: seq<string>, config: Config)
    requires PortValue(value).None?
    requires value.None? ==> ys == []
    ensures ParseFrom(["--port"] + (if value.Some? then [value.value] else []) + ys, config) == Fail(InvalidPort)
  {
    var s := ["--port"] + (if value.Some? then [value.value] else []) + ys;
    assert s[0] == "--port";
    if value.Some? {
      assert s[1] == value.value;
    }
  }
}
