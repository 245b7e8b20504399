/**
 * Reading one line of `docker ps` output into a container record
 * (`parse_docker_ps_line` in server.ts). The output of
 * `docker inspect <name> --format '{{ .HostConfig.PortBindings }}'`, which the
 * source runs for a stopped container, is an input: `inspect` maps a
 * container name to that text.
 */
module DockerPs {
  import opened Wrappers
  import opened Text

  /** One container as listed by `docker ps`. The port is the host port it
      publishes, when one could be read. */
  datatype Container = Container(id: string, image: string, name: string, port: Option<nat>, running: bool)

  /** `container.port == port` in the source: an unknown port equals no number. */
  predicate HasPort(c: Container, port: int) {
    c.port.Some? && c.port.value == port
  }

  /** The column header line of `docker ps`. */
  predicate IsHeader(line: string) {
    StartsWith(line, "CONTAINER ID") && EndsWith(line, "NAMES")
  }

  /** `left` ends with the digits `d` of port `p`, either alone or after a `:`. */
  ghost predicate EndsWithPort(left: string, p: nat) {
    exists d :: ParseDecimal(d) == Some(p) && ':' !in d &&
      (left == d || exists pre :: left == pre + ":" + d)
  }

  /** The host port of one token of a running container's line, as in
      `0.0.0.0:24080->80/tcp,`: the token must split on `->` into exactly two
      parts, and the port is the last `:`-separated segment of the left one. */
  function TokenPort(token: string): (p: Option<nat>)
  {
    var sides := Split(token, "->");
    if |sides| != 2 then None
    else
      var host := Last(Split(sides[0], ":"));
      if host == [] then None else ParseDecimal(host)
  }

  /** A token that yields a port reads `left->right`, and `left` ends with
      the port's digits, after a `:` unless it is nothing but the digits. */
  lemma TokenPortShape(token: string)
    requires TokenPort(token).Some?
    ensures exists left, right :: token == left + "->" + right && EndsWithPort(left, TokenPort(token).value)
  {
    var sides := Split(token, "->");
    JoinSplit(token, "->");
    assert token == sides[0] + "->" + sides[1];
    var segs := Split(sides[0], ":");
    var d := Last(segs);
    JoinSplit(sides[0], ":");
    assert d in segs;
    if |segs| >= 2 {
      JoinLast(segs, ":");
      assert sides[0] == Join(segs[..|segs| - 1], ":") + ":" + d;
    }
    assert EndsWithPort(sides[0], TokenPort(token).value);
  }

  /** Conversely, a token `left->right` whose `left` ends with the digits of
      a port yields that port, when `left` holds no `-` and `right` no `->`. */
  lemma TokenPortOfShape(left: string, right: string, p: nat)
    requires EndsWithPort(left, p)
    requires '-' !in left && !Contains(right, "->")
    ensures TokenPort(left + "->" + right) == Some(p)
  {
    var d :| ParseDecimal(d) == Some(p) && ':' !in d && (left == d || exists pre :: left == pre + ":" + d);
    assert "->"[0] == '-';
    SplitBefore(left, "->", right);
    SplitAbsent(right, "->");
    assert Split(left + "->" + right, "->") == [left, right];
    if left == d {
      SplitWhole(d, ':');
      assert Split(left, ":") == [d];
    } else {
      var pre :| left == pre + ":" + d;
      SplitLastPiece(pre, ':', d);
      assert Last(Split(left, ":")) == d;
    }
  }

  /** The port each token yields. */
  function TokenPorts(tokens: seq<string>): (hits: seq<Option<nat>>)
    ensures |hits| == |tokens| && forall k :: 0 <= k < |tokens| ==> hits[k] == TokenPort(tokens[k])
  {
    seq(|tokens|, k requires 0 <= k < |tokens| => TokenPort(tokens[k]))
  }

  /** The port of a running container: the first token that yields one
      (`parsePortFromLine`). */
  function FirstPort(tokens: seq<string>): (p: Option<nat>)
    ensures p.None? <==> forall k :: 0 <= k < |tokens| ==> TokenPort(tokens[k]).None?
    ensures p.Some? ==> exists k :: 0 <= k < |tokens| && TokenPort(tokens[k]) == p &&
                                (forall j :: 0 <= j < k ==> TokenPort(tokens[j]).None?)
  {
    FirstFound(TokenPorts(tokens))
  }

  /** The regular expression `{ *\d+}` matches `text` from position `i`,
      with its digits in `text[j..k]` and its closing brace at `k`. */
  ghost predicate BraceMatch(text: string, i: int, j: int, k: int) {
    0 <= i < j < k < |text| && text[i] == '{' && text[k] == '}' &&
    (forall m :: i < m < j ==> text[m] == ' ') &&
    (forall m :: j <= m < k ==> IsDigit(text[m]))
  }

  /** The first position at or after `j` that does not hold a space. */
  function SkipSpaces(text: string, j: nat): (e: nat)
    requires j <= |text|
    ensures j <= e <= |text| && (e < |text| ==> text[e] != ' ')
    ensures forall m :: j <= m < e ==> text[m] == ' '
    decreases |text| - j
  {
    if j < |text| && text[j] == ' ' then SkipSpaces(text, j + 1) else j
  }

  /** The first position at or after `j` that does not hold a digit. */
  function SkipDigits(text: string, j: nat): (e: nat)
    requires j <= |text|
    ensures j <= e <= |text| && (e < |text| ==> !IsDigit(text[e]))
    ensures forall m :: j <= m < e ==> IsDigit(text[m])
    decreases |text| - j
  {
    if j < |text| && IsDigit(text[j]) then SkipDigits(text, j + 1) else j
  }

  /** The number matched by `{ *\d+}` at position `i` of `text`, if it matches there. */
  function BraceNumberAt(text: string, i: nat): Option<nat>
  {
    if i < |text| && text[i] == '{' then
      var j := SkipSpaces(text, i + 1);
      var k := SkipDigits(text, j);
      if j < k && k < |text| && text[k] == '}' then Some(DigitsValue(text[j..k])) else None
    else None
  }

  /** `BraceNumberAt` finds a number exactly where the regular expression
      matches, and the number is the one its digits denote. */
  lemma BraceNumberAtMatches(text: string, i: nat)
    ensures BraceNumberAt(text, i).Some? ==>
      exists j, k :: BraceMatch(text, i, j, k) && AllDigits(text[j..k]) &&
                     BraceNumberAt(text, i).value == DigitsValue(text[j..k])
    ensures BraceNumberAt(text, i).None? ==> forall j, k :: !BraceMatch(text, i, j, k)
  {
    if i < |text| && text[i] == '{' {
      var j := SkipSpaces(text, i + 1);
      var k := SkipDigits(text, j);
      if j < k && k < |text| && text[k] == '}' {
        assert BraceMatch(text, i, j, k);
      } else {
        forall j', k' | BraceMatch(text, i, j', k') ensures j' == j && k' == k {
          assert text[j'] != ' ';
          assert !(j' < j) && !(j < j');
          assert text[k'] == '}' && !IsDigit(text[k']);
          assert !(k' < k) && !(k < k');
        }
      }
    }
  }

  /** The number matched by `{ *\d+}` at each position of `text`. */
  function BraceNumbers(text: string): (hits: seq<Option<nat>>)
    ensures |hits| == |text| && forall m :: 0 <= m < |text| ==> hits[m] == BraceNumberAt(text, m)
  {
    seq(|text|, m requires 0 <= m < |text| => BraceNumberAt(text, m))
  }

  /** The port of a stopped container, read from its `docker inspect` text
      such as `map[80/tcp:[{ 24080}]]` (`parsePortFromInspect`): the number
      of the first match. Matches of `{ *\d+}` cannot overlap, so the first
      match position is the first of the global match list. */
  function InspectPort(text: string): Option<nat>
  {
    FirstFound(BraceNumbers(text))
  }

  /** The inspect text yields a port exactly when `{ *\d+}` matches somewhere
      in it, and the port is the number of the leftmost match. */
  lemma InspectPortIsFirstMatch(text: string)
    ensures InspectPort(text).None? <==> forall i, j, k :: !BraceMatch(text, i, j, k)
    ensures InspectPort(text).Some? ==>
      exists i, j, k :: BraceMatch(text, i, j, k) && AllDigits(text[j..k]) &&
                        InspectPort(text).value == DigitsValue(text[j..k]) &&
                        (forall i', j', k' :: 0 <= i' < i ==> !BraceMatch(text, i', j', k'))
  {
    var p := InspectPort(text);
    if p.Some? {
      var m :| 0 <= m < |text| && BraceNumberAt(text, m) == p &&
               (forall m' :: 0 <= m' < m ==> BraceNumberAt(text, m').None?);
      BraceNumberAtMatches(text, m);
      forall i', j', k' | 0 <= i' < m ensures !BraceMatch(text, i', j', k') {
        BraceNumberAtMatches(text, i');
      }
    } else {
      forall i, j, k ensures !BraceMatch(text, i, j, k) {
        if 0 <= i < |text| {
          BraceNumberAtMatches(text, i);
        }
      }
    }
  }

  /** `parse_docker_ps_line`: the container a line describes, or None for the
      header line and for a line with fewer than two words. */
  function ParseLine(line: string, inspect: string -> string): (c: Option<Container>)
    ensures IsHeader(line) ==> c.None?
    ensures !IsHeader(line) ==> (c.Some? <==> |Words(line)| >= 2)
    ensures c.Some? ==> |Words(line)| >= 2 && c.value.id == Words(line)[0] &&
                        c.value.image == Words(line)[1] && c.value.name == Last(Words(line))
    ensures c.Some? ==> c.value.id != [] && c.value.image != [] && c.value.name != []
    ensures c.Some? ==> ' ' !in c.value.id && ' ' !in c.value.image && ' ' !in c.value.name
    ensures c.Some? ==> (c.value.running <==> "Up" in Words(line) && "Exited" !in Words(line))
  {
    if IsHeader(line) then None
    else
      var parts := Words(line);
      if |parts| < 2 then None
      else
        var id, image, name := parts[0], parts[1], Last(parts);
        assert id in parts && image in parts && name in parts;
        var running := "Exited" !in parts && "Up" in parts;
        var port := if running then FirstPort(parts) else InspectPort(inspect(name));
        Some(Container(id, image, name, port, running))
  }

  /** A running container's port comes from the first word that yields one,
      and then that word has the `left->right` form with the port ending `left`. */
  lemma RunningPortFromLine(line: string, inspect: string -> string)
    requires ParseLine(line, inspect).Some? && ParseLine(line, inspect).value.running
    ensures ParseLine(line, inspect).value.port == FirstPort(Words(line))
    ensures ParseLine(line, inspect).value.port.Some? ==>
      exists k :: 0 <= k < |Words(line)| && TokenPort(Words(line)[k]) == ParseLine(line, inspect).value.port &&
        exists left, right :: Words(line)[k] == left + "->" + right && EndsWithPort(left, ParseLine(line, inspect).value.port.value)
  {
    var ws := Words(line);
    var p := FirstPort(ws);
    if p.Some? {
      var k :| 0 <= k < |ws| && TokenPort(ws[k]) == p;
      TokenPortShape(ws[k]);
    }
  }

  /** A stopped container's port is the first number of the inspect text of
      its name, and there is none exactly when `{ *\d+}` matches nowhere in it. */
  lemma StoppedPortFromInspect(line: string, inspect: string -> string)
    requires ParseLine(line, inspect).Some? && !ParseLine(line, inspect).value.running
    ensures var c := ParseLine(line, inspect).value;
      && c.port == InspectPort(inspect(c.name))
      && (c.port.None? <==> forall i, j, k :: !BraceMatch(inspect(c.name), i, j, k))
  {
    InspectPortIsFirstMatch(inspect(ParseLine(line, inspect).value.name));
  }
}
