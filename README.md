# node-EasyNMT: the decision and parsing core, in Dafny

node-EasyNMT runs the EasyNMT machine-translation service in a Docker container
and calls its HTTP API. This project models the logic that decides and parses.
Everything that talks to Docker, the network or the terminal is turned into
inputs and returned values.

- **`DockerPs`** (docker_ps.dfy) reads one line of `docker ps` output into a
  container record (`parse_docker_ps_line`).
  - The header line and lines of fewer than two words yield nothing.
  - id, image and name are the first, second and last words.
  - `running` means an `Up` word and no `Exited` word.
  - A running container's host port comes from the first `left->right` word.
  - A stopped container's port is the first `{ *\d+}` number of its
    `docker inspect` text, which is an input (a function from container name to text).
- **`Server`** (server.dfy):
  - `expandOptions` defaulting;
  - the containers `scanServer` reports and `stopServer` stops;
  - the ordered conflict checks of `scanContainer`, an imperative loop with
    early exits, proved against a specification function;
  - the reuse/resume/launch choice of `startServer` and the gate of `autoStartServer`;
  - the two classifiers of container log output.

  The `docker ps` / `docker ps -a` listings are sequences of lines. What the
  source would run (`docker stop`, `docker start`, `docker run`) or throw is
  returned as a value.
- **`Cli`** (cli.dfy): the argument loop over `process.argv`.
  - It is a method that updates a `CliConfig` object in place and ends with the
    configuration, an error message, the version or the help.
  - It is proved equal to a recursive specification, and the lemmas state the
    command line's behaviour.
- **`Client`** (client.dfy):
  - `translate`: host/port defaults, the ordered query parameters with
    `URLSearchParams.set`, the URL, and the shape check of the JSON reply
    followed by `translated[0]`;
  - `preloadModel`'s forwarding.

  The HTTP exchange is an input: a function from URL to JSON reply. So is the
  percent-encoding of a name or value.
- **`Text`** (text.dfy) holds the JavaScript string operations these rely on,
  over `seq<char>`: `split`, `join`, `includes`, `replaceAll`, ASCII
  `toLowerCase`, and decimal conversion. **`Defaults`** holds the constants of
  config.ts and the default host. **`Wrappers`** holds `Option` and `Result`.

Two behaviours of client.ts that the model keeps as written:

- client.ts:45 returns `translated[0]`, which is `undefined` when the reply's
  `translated` array is empty. `Client.Translate` answers `Success(None)`
  there, not an error.
- client.ts:27-30 sets `target_lang` before `text`, so the query starts with
  `target_lang=…`, and the model's query does too.

The messages `scanContainer` throws are `Server.ConflictMessage`, with the
texts of server.ts:189-210.

## Model

| member | source | states |
|---|---|---|
| DockerPs.ParseLine | server.ts:28-76 | The header line yields nothing. Any other line yields a container exactly when it has at least two words. id, image and name are the first, second and last words, so they are non-empty and contain no space. `running` holds iff some word is `Up` and none is `Exited`. |
| DockerPs.FirstPort | server.ts:44-56 | The port of a running container is None iff no word yields a port; otherwise it is the port of the first word that yields one. |
| DockerPs.TokenPortShape | server.ts:46-54 | A word that yields a port has the form `left->right`, and `left` ends with the port's decimal digits, either alone or after a `:`. |
| DockerPs.TokenPortOfShape | server.ts:46-54 | Conversely, a word `left->right` yields the port whose digits end `left` (alone or after a `:`), when `left` holds no `-` and `right` no `->`. |
| DockerPs.BraceNumberAtMatches | server.ts:62-69 | A number is read at a position exactly when `{ *\d+}` matches there, and it is the value of the matched digits. |
| Wrappers.FirstFound | server.ts:55 | `.find` over mapped candidates: None iff every candidate is absent, otherwise the first present one. |
| DockerPs.InspectPortIsFirstMatch | server.ts:57-72 | The inspect text gives a port iff `{ *\d+}` matches somewhere, and the port is the digits' value of the leftmost match. |
| DockerPs.RunningPortFromLine | server.ts:73 | A running container's port is `FirstPort` of the line's words. When present, it comes from a `left->right` word whose `left` ends with the port. |
| DockerPs.StoppedPortFromInspect | server.ts:73 | A stopped container's port is read from the inspect text of its name, and it is absent iff `{ *\d+}` matches nowhere in that text. |
| Text.Words | server.ts:35 | The words of a line are non-empty and contain no space. |
| Text.WordsFront | server.ts:35 | A word followed by a run of spaces is the line's first word, and the words of the rest follow it in order. |
| Text.WordsAfterSpaces | server.ts:35 | Spaces in front of a line add no words. |
| Text.WordsOfJoin | server.ts:35 | Words joined by single spaces are read back as the same words. |
| Text.Split | server.ts:35 | A split has at least one piece, and with a one-character separator no piece contains it. |
| Text.JoinSplit | server.ts:49-51 | Joining the pieces of a split with the same separator gives back the text. |
| Text.SplitJoin | server.ts:35 | Splitting a join at a one-character separator that no piece contains gives back the pieces. |
| Text.SplitLastPiece | server.ts:51 | The last piece of a split at a one-character separator is the text after its last occurrence. |
| Text.ParseDecimal | cli.ts:17 | A number is read iff the text is non-empty and all decimal digits, and it is the value those digits denote. |
| Text.ParseNatToString | client.ts:35 | The decimal text of a port, as interpolated into the URL and the messages, reads back as the same number. |
| Text.RemoveAll | server.ts:131 | Removing every `errorlog` never lengthens the text, and leaves a text without `errorlog` unchanged. |
| Text.RemoveAllIsJoinOfSplit | server.ts:131 | Removing every occurrence equals splitting at the occurrences and joining the pieces with nothing between them. |
| Text.ToLower | server.ts:131 | Lower-casing keeps the length, maps each ASCII capital to its small letter, and keeps every other character. |
| Server.ExpandOptions | server.ts:15-26 | A truthy port, image or container is kept. An absent or falsy one (0, empty) takes 24080, `easynmt/api:2.0-cpu` or `docker-easynmt`. debug holds iff it was given as true. No options means all defaults. |
| Server.ExpandOptionsIdempotent | server.ts:15-26 | Expanding already expanded options changes nothing. |
| Server.MatchingIds | server.ts:84-89 | The ids kept are exactly those of the parsed lines whose container passes the filter, and there are no more of them than lines. |
| Server.MatchingIdsAppend | server.ts:84-89 | The ids of a listing are those of its first lines followed by those of the rest, so they come in listing order. |
| Server.MatchingIdsOfLine | server.ts:84-89 | One line gives its container's id when the filter accepts it, and nothing otherwise. |
| Server.ScanServer | server.ts:79-91 | The ids reported are exactly those of the listed containers that publish the requested port or run the requested image. |
| Server.StopServer | server.ts:94-114 | The ids stopped are exactly those of the listed containers with the requested image, name or port. The result is None, and nothing is stopped, iff there are none. |
| Server.ScannedAreStopped | server.ts:85-107 | On the same listing, every id `scanServer` reports is among those `stopServer` stops. |
| Server.Verdict | server.ts:186-214 | A container decides nothing iff its name differs and it does not publish the port while running or of the requested image. It is the match iff it has the requested image and port, and the requested name if it is running. Each conflict is the verdict exactly when its check is the first to fail: port taken by a running container of another name, then port taken by a running container of another image, then the name on another image, then the name on another port. |
| Server.ConflictMessage | server.ts:189-210 | Each message opens with the requested port or name and ends with the offending container, image or port (`undefined` when unknown) in double quotes. |
| Server.ScanSpecIsFirst | server.ts:185-216 | The scan ends NotFound iff no line decides. Otherwise it ends with the verdict of the first line that decides. |
| Server.ScanContainer | server.ts:182-216 | The loop, with its early throws and return, ends exactly as `ScanSpec` of the lines: the first deciding line's verdict, or NotFound. |
| Server.ScanFoundIsRequested | server.ts:188-214 | A found container comes from the listing and has the requested image and port. If it is running it also has the requested name. |
| Server.ScanNotFoundIsFree | server.ts:188-211 | When nothing is found, no listed container has the requested name, and none publishes the requested port while running. |
| Server.StartServer | server.ts:219-235 | It reuses iff the scan found a running container. It resumes iff the scan found a stopped one, and then resumes the requested container name with the requested debug flag. It launches iff the scan found nothing, with the expanded image, name, port and debug flag. It refuses iff the scan raised a conflict, and then with that conflict. |
| Server.AlreadyRunningIsRequested | server.ts:224-228 | Reuse happens only when a listed, running container has the requested name, image and port. |
| Server.LaunchIsFree | server.ts:233-234 | A launch uses the expanded options. Its name is on no listed container, and no running listed container publishes its port. |
| Server.StoppedOtherContainerLine | server.ts:33-42 | A stopped line `a easynmt/api:2.0-cpu Exited x`, whose inspect text is `{24080}`, parses to container `x` on port 24080. |
| Server.InspectPortOfDefault | server.ts:57-72 | The inspect text `{24080}` gives port 24080. |
| Server.ResumeMayTargetUnlistedName | server.ts:229-231 | With that listing and no options, `startServer` resumes `docker-easynmt`, which is not the found container's name. |
| Server.StartServerCorrected | server.ts:229-231 | The corrected start resumes iff the scan found a stopped container, and then resumes that container by its own name with the requested debug flag. In every other case it decides as `startServer`. |
| Server.ResumeTargetsFoundContainer | server.ts:229-231 | The corrected start resumes a listed, stopped container of the requested image and port, by that container's own name. |
| Server.AutoStartServer | server.ts:238-244 | It starts iff `scanServer` reports nothing. As written, it then does what `startServer` with no options does. |
| Server.AutoStartIgnoresOptions | server.ts:239-241 | Asked for port 8100 with nothing listed, the automatic start launches the default image on port 24080. |
| Server.AutoStartServerCorrected | server.ts:238-244 | The corrected automatic start starts iff `scanServer` reports nothing, and then decides as the corrected `startServer` with the caller's options. |
| Server.AutoStartHonoursOptions | server.ts:239-241 | A corrected automatic launch uses exactly the expanded options. No container in the running listing publishes that port or runs that image. |
| Server.LaunchLogSignal | server.ts:164-168 | A fresh container's log chunk fails iff it contains `error` in any case. It means ready iff it does not and it contains `Application startup complete`. |
| Server.ResumeLogSignal | server.ts:131-135 | A resumed container's chunk fails iff `error` remains after lower-casing it and removing every `errorlog`. It means ready iff it does not fail and contains the startup line. A failing chunk contains `error` in any case. |
| Server.ResumeAgreesWithoutErrorlog | server.ts:131-168 | A chunk without `errorlog` in any case is read the same way for a resumed and a fresh container. |
| Server.ResumeSignalIsLenient | server.ts:131-168 | A chunk that fails a resumed container fails a fresh one. A chunk that means ready for a fresh container means ready for a resumed one. |
| Server.ErrorlogFailsOnlyLaunch | server.ts:131-168 | The chunk `errorlog` fails a fresh container and leaves a resumed one waiting. |
| Cli.PortValue | cli.ts:15-23 | A `--port` value is accepted iff it is present, decimal and positive, and then it is that number. |
| Cli.ParseFromOutcomes | cli.ts:12-67 | Reading fails only with `Invalid port` or `missing docker image name`. A run's image is the starting one or an argument, and its port the starting one or a positive value. |
| Cli.CliConfig.constructor | cli.ts:6-10 | The configuration starts as debug off, port 24080 and image `easynmt/api:2.0-cpu`. |
| Cli.ParseArgs | cli.ts:12-67 | The in-place loop from index 2, with its cursor advanced by `--port` and `--image`, ends exactly as the recursive reading of the arguments. |
| Cli.ParseAppend | cli.ts:12-67 | Arguments that read to the end leave what follows to be read from the configuration they produced. |
| Cli.VersionAndHelpStop | cli.ts:39-65 | `-v`/`--version` and `-h`/`--help` end the reading, and nothing after them is looked at. |
| Cli.VersionOrHelpEndsReading | cli.ts:39-65 | After complete options, `-v`/`--version` gives the version and `-h`/`--help` the help, whatever follows. |
| Cli.MissingImageFails | cli.ts:29-37 | After complete options, `--image` at the end, or followed by an empty value, fails with `missing docker image name`, whatever follows. |
| Cli.DebugStaysOn | cli.ts:25-27 | Once debug is on, a reading that runs to the end leaves it on. |
| Cli.DebugSetsDebug | cli.ts:25-27 | A `--debug` after complete options turns debug on in any run. |
| Cli.UnknownArgumentIgnored | cli.ts:14-66 | An argument that is not an option is skipped, wherever it stands between complete options. |
| Cli.LastPortWins | cli.ts:15-23 | A valid `--port` at the end sets the port, whatever the earlier arguments set. |
| Cli.LastImageWins | cli.ts:29-37 | A non-empty `--image` at the end sets the image, whatever it looks like. |
| Cli.ImageValueIsNotAnOption | cli.ts:29-37 | `--image --debug` sets the image to `--debug` and leaves debug off. |
| Cli.RunConfigIsUsable | cli.ts:15-37 | A reading that runs to the end keeps a positive port and a non-empty image. |
| Cli.SettingsNeedTheirOption | cli.ts:12-67 | Without a `--debug` argument debug keeps its value. Without a `--port` argument the port does. |
| Cli.BadPortFails | cli.ts:15-21 | A `--port` with a missing, non-numeric or zero value ends with `Invalid port`, whatever follows. |
| Client.SetParamSpec | client.ts:31-33 | After `set`, the name has the new value and occurs once. The other parameters stay, in order. On an absent name, `set` appends. |
| Client.BuildRequest | client.ts:24-33 | Host and port are the given ones when truthy, else `localhost` and 24080. The query is `target_lang` then `text`, followed by `source_lang` iff one was given non-empty. |
| Client.RequestUrlReadsBack | client.ts:35 | The URL starts with `http://`. For a host without `:` or `/`, the part before the next `/` splits at `:` into the host and the decimal port, which reads back as the port. |
| Client.QueryStringSplits | client.ts:35 | When encoding never yields `&` or `=`, the query splits back into one `name=value` piece per parameter, in order. |
| Client.Strings | client.ts:7-8 | A JSON value gives strings iff it is an array of strings, and then they are its elements in order. |
| Client.ReadResponseExact | client.ts:4-10 | The shape check yields a result iff the reply is an object carrying every field of that result with the right type. `detected_langs` may be missing, and `source_lang` may be null. |
| Client.ReadRender | client.ts:44 | Reading a reply built from a result gives that result back. |
| Client.Translate | client.ts:13-46 | It fails iff the reply to the request's URL fails the shape check. Otherwise it returns `translated[0]`, or None when `translated` is empty. |
| Client.TranslateReturnsFirst | client.ts:44-45 | A reply carrying a result with a non-empty `translated` makes `translate` return its first string. |
| Client.PreloadTranslateOptions | client.ts:59-63 | `preloadModel` passes the text `preload model` with its target and source languages. Host, port and debug are not passed on. |
| Client.Preload | client.ts:48-64 | `preloadModel` fails iff its `translate` call fails. |
| Client.PreloadRequest | client.ts:59-63 | The preload request goes to `localhost:24080` with `target_lang`, then `text`, then `source_lang` iff that is non-empty. |

## Left out

- Running Docker (`execSync`/`exec`), `docker logs --follow`, the stream listeners, the one-second debounce timer and the readiness promises are I/O and asynchrony. Command output is an input, and the decision is returned as a value.
- `fetch`, `res.json()` and every console or stderr output (debug logging, `[DEV]` lines, the help and version texts) are I/O. The HTTP exchange is a function parameter.
- The `main` function of cli.ts (stop/start or auto-start, then preload `zh`→`en`) is orchestration of I/O calls and is not part of this model.
- The version text comes from `package.json`, which is not part of this model. `ShowVersion` carries no text.
- The internals of the `cast.ts` parser belong to a foreign library. Only the reply's shape is modelled, with `translation_time` as an opaque `real` and JSON numbers as reals.
- The byte-level percent-encoding of names and values is a parameter of `Client.QueryString`.
- Cli.PortValue: JavaScript's unary `+` also accepts signs, surrounding whitespace, hexadecimal, exponents and fractions. The model reads decimal digits only, so `--port -5` or `--port 0x10` is an error here, while the source would set that port.
- DockerPs.TokenPort: a port is read only from decimal digits. JavaScript's `+` followed by `Number.isInteger` also accepts `0x50`, `1e3`, `1.0`, `-5` and digits padded with tabs, and these are not modelled. A fraction such as `1.5` is rejected by both.
- Text.ToLower: `toLowerCase` is modelled on ASCII letters only. There is no Unicode case folding.
- Numbers are unbounded integers. Ports beyond 2^53 and NaN ports (`+"abc"` in a caller's options) are not modelled.
- `patchedTranslate`, `clearCache` and the cache and queue they would need are re-exported by index.ts, but nothing in client.ts defines them, so they are not part of this model. test.ts and patch-test.ts only exercise a live service.

## Findings

| source | as written | input that shows it | evidently intended | confidence | as-written member | corrected member |
|---|---|---|---|---|---|---|
| server.ts:229-231 | A stopped container that matches image and port is resumed with `docker start <requested name>`. | No options, and `docker ps -a` lists only `a easynmt/api:2.0-cpu … Exited … x`, whose inspect text is `{24080}`. The scan finds `x`, but `docker start docker-easynmt` is issued. | Resume the container the scan found, by its own name. | medium, not executed | Server.ResumeMayTargetUnlistedName | Server.ResumeTargetsFoundContainer |
| server.ts:239-241 | When the scan is empty, `autoStartServer(options)` calls `startServer()` without the options. | Options with port 8100 and empty listings. The scan checks port 8100, but the launch is the default image on 24080. | Start with the caller's options. | medium, not executed | Server.AutoStartIgnoresOptions | Server.AutoStartHonoursOptions |
