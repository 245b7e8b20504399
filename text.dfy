/**
 * The JavaScript string operations the source relies on, over `seq<char>`:
 * `split` with a string separator, `join`, `startsWith`, `endsWith`,
 * `includes`, `replaceAll(pattern, '')`, ASCII `toLowerCase`, and the
 * conversions between decimal digit strings and numbers.
 */
module Text {
  import opened Wrappers

  /** `s.split(sep)`: the pieces between the non-overlapping occurrences of
      `sep`, found from left to right. */
  function Split(s: string, sep: string): (parts: seq<string>)
    requires sep != []
    ensures |parts| >= 1
    ensures |sep| == 1 ==> forall p :: p in parts ==> sep[0] !in p
    decreases |s|
  {
    if |s| < |sep| then [s]
    else if s[..|sep|] == sep then [[]] + Split(s[|sep|..], sep)
    else
      var rest := Split(s[1..], sep);
      [[s[0]] + rest[0]] + rest[1..]
  }

  /** `parts.join(sep)`. */
  function Join(parts: seq<string>, sep: string): string
    decreases |parts|
  {
    if |parts| == 0 then []
    else if |parts| == 1 then parts[0]
    else parts[0] + sep + Join(parts[1..], sep)
  }

  /** Joining the pieces of a split with the same separator gives back the text. */
  lemma {:induction false} JoinSplit(s: string, sep: string)
    requires sep != []
    ensures Join(Split(s, sep), sep) == s
    decreases |s|
  {
    if |s| < |sep| {
    } else if s[..|sep|] == sep {
      var rest := Split(s[|sep|..], sep);
      JoinSplit(s[|sep|..], sep);
      assert Split(s, sep) == [[]] + rest;
      assert Join([[]] + rest, sep) == [] + sep + Join(rest, sep) by {
        assert ([[]] + rest)[1..] == rest;
      }
      assert s == sep + s[|sep|..];
    } else {
      JoinSplit(s[1..], sep);
      JoinOntoFirst(s[0], Split(s[1..], sep), sep);
      assert s == [s[0]] + s[1..];
    }
  }

  /** Putting a character in front of the first piece puts it in front of the join. */
  lemma JoinOntoFirst(c: char, parts: seq<string>, sep: string)
    requires |parts| >= 1
    ensures Join([[c] + parts[0]] + parts[1..], sep) == [c] + Join(parts, sep)
  {
    var joined := [[c] + parts[0]] + parts[1..];
    if |parts| > 1 {
      assert joined[1..] == parts[1..];
      assert Join(joined, sep) == ([c] + parts[0]) + sep + Join(parts[1..], sep);
    }
  }

  /** Joining pieces of length at least two splits off the last piece. */
  lemma {:induction false} JoinLast(parts: seq<string>, sep: string)
    requires |parts| >= 2
    ensures Join(parts, sep) == Join(parts[..|parts| - 1], sep) + sep + parts[|parts| - 1]
    decreases |parts|
  {
    if |parts| > 2 {
      JoinLast(parts[1..], sep);
      assert parts[1..][..|parts| - 2] == parts[..|parts| - 1][1..];
    }
  }

  /** A piece free of a one-character separator splits off whole at the front. */
  lemma {:induction false} SplitFront(a: string, c: char, rest: string)
    requires c !in a
    ensures Split(a + [c] + rest, [c]) == [a] + Split(rest, [c])
    decreases |a|
  {
    var s := a + [c] + rest;
    if a == [] {
      assert s[..1] == [c] && s[1..] == rest;
    } else {
      assert a[0] in a && s[0] == a[0];
      assert s[..1] != [c];
      assert s[1..] == a[1..] + [c] + rest;
      SplitFront(a[1..], c, rest);
      assert [a[0]] + a[1..] == a;
    }
  }

  /** A text free of a one-character separator is a single piece. */
  lemma {:induction false} SplitWhole(a: string, c: char)
    requires c !in a
    ensures Split(a, [c]) == [a]
    decreases |a|
  {
    if a != [] {
      assert a[0] in a;
      assert a[..1] != [c];
      SplitWhole(a[1..], c);
      assert [a[0]] + a[1..] == a;
    }
  }

  /** Splitting a join over a one-character separator that no piece contains
      gives back the pieces. */
  lemma {:induction false} SplitJoin(parts: seq<string>, c: char)
    requires |parts| >= 1
    requires forall p :: p in parts ==> c !in p
    ensures Split(Join(parts, [c]), [c]) == parts
    decreases |parts|
  {
    if |parts| == 1 {
      SplitWhole(parts[0], c);
    } else {
      SplitJoin(parts[1..], c);
      SplitFront(parts[0], c, Join(parts[1..], [c]));
    }
  }

  /** A piece free of the first character of a longer separator splits off
      whole at the front. */
  lemma {:induction false} SplitBefore(a: string, sep: string, rest: string)
    requires sep != [] && sep[0] !in a
    ensures Split(a + sep + rest, sep) == [a] + Split(rest, sep)
    decreases |a|
  {
    var s := a + sep + rest;
    if a == [] {
      assert s[..|sep|] == sep && s[|sep|..] == rest;
    } else {
      assert a[0] in a && s[0] == a[0];
      assert s[..|sep|] != sep by {
        assert s[..|sep|][0] == a[0];
      }
      assert s[1..] == a[1..] + sep + rest;
      SplitBefore(a[1..], sep, rest);
      assert [a[0]] + a[1..] == a;
    }
  }

  /** A text in which the separator does not occur is a single piece. */
  lemma {:induction false} SplitAbsent(s: string, sep: string)
    requires sep != [] && !Contains(s, sep)
    ensures Split(s, sep) == [s]
    decreases |s|
  {
    if |s| >= |sep| {
      assert s[..|sep|] != sep;
      SplitAbsent(s[1..], sep);
      assert [s[0]] + s[1..] == s;
    }
  }

  /** The piece after the last occurrence of a one-character separator is
      the last piece, and there are at least two. */
  lemma {:induction false} SplitLastPiece(x: string, c: char, d: string)
    requires c !in d
    ensures |Split(x + [c] + d, [c])| >= 2
    ensures Last(Split(x + [c] + d, [c])) == d
    decreases |x|
  {
    var s := x + [c] + d;
    if x == [] {
      SplitFront([], c, d);
      SplitWhole(d, c);
      assert s == [] + [c] + d;
    } else {
      assert s[1..] == x[1..] + [c] + d;
      SplitLastPiece(x[1..], c, d);
      if x[0] == c {
        assert s[..1] == [c];
      } else {
        assert s[..1] != [c] by {
          assert s[..1][0] == x[0];
        }
      }
    }
  }

  /** The last element of a non-empty sequence (`Array.prototype.pop`'s result). */
  function Last<T>(s: seq<T>): T
    requires |s| > 0
  {
    s[|s| - 1]
  }

  /** The non-empty pieces, in order (`.filter(part => part.length > 0)`). */
  function NonEmpty(parts: seq<string>): (r: seq<string>)
    ensures forall p :: p in r ==> p != [] && p in parts
    ensures forall p :: p in parts && p != [] ==> p in r
    decreases |parts|
  {
    if parts == [] then []
    else if parts[0] == [] then NonEmpty(parts[1..])
    else [parts[0]] + NonEmpty(parts[1..])
  }

  /** `line.split(' ').filter(part => part.length > 0)`: the space-separated words. */
  function Words(line: string): (ws: seq<string>)
    ensures forall w :: w in ws ==> w != [] && ' ' !in w
  {
    NonEmpty(Split(line, " "))
  }

  /** Spaces in front of a line add no words. */
  lemma {:induction false} WordsAfterSpaces(spaces: string, rest: string)
    requires forall i :: 0 <= i < |spaces| ==> spaces[i] == ' '
    ensures Words(spaces + rest) == Words(rest)
    decreases |spaces|
  {
    if spaces != [] {
      var tail := spaces[1..] + rest;
      assert spaces + rest == [] + [' '] + tail;
      SplitFront([], ' ', tail);
      assert Split(spaces + rest, " ") == [[]] + Split(tail, " ");
      assert ([[]] + Split(tail, " "))[1..] == Split(tail, " ");
      assert Words(spaces + rest) == Words(tail);
      WordsAfterSpaces(spaces[1..], rest);
    } else {
      assert spaces + rest == rest;
    }
  }

  /** A word followed by a run of spaces is the first word of the line, and
      the words of the rest follow it in order. */
  lemma WordsFront(w: string, spaces: string, rest: string)
    requires w != [] && ' ' !in w
    requires spaces != [] && forall i :: 0 <= i < |spaces| ==> spaces[i] == ' '
    ensures Words(w + spaces + rest) == [w] + Words(rest)
  {
    var tail := spaces[1..] + rest;
    assert w + spaces + rest == w + [' '] + tail;
    SplitFront(w, ' ', tail);
    assert ([w] + Split(tail, " "))[1..] == Split(tail, " ");
    WordsAfterSpaces(spaces[1..], rest);
  }

  /** Keeping the non-empty pieces of pieces that are all non-empty keeps them all. */
  lemma {:induction false} NonEmptyKeepsAll(parts: seq<string>)
    requires forall p :: p in parts ==> p != []
    ensures NonEmpty(parts) == parts
    decreases |parts|
  {
    if parts != [] {
      assert parts[0] in parts;
      assert forall p :: p in parts[1..] ==> p in parts;
      NonEmptyKeepsAll(parts[1..]);
      assert [parts[0]] + parts[1..] == parts;
    }
  }

  /** Words joined by single spaces are read back as the same words. */
  lemma WordsOfJoin(ws: seq<string>)
    requires |ws| >= 1
    requires forall w :: w in ws ==> w != [] && ' ' !in w
    ensures Words(Join(ws, " ")) == ws
  {
    SplitJoin(ws, ' ');
    NonEmptyKeepsAll(ws);
  }

  /** `s.startsWith(p)`. */
  predicate StartsWith(s: string, p: string) {
    |p| <= |s| && s[..|p|] == p
  }

  /** `s.endsWith(p)`. */
  predicate EndsWith(s: string, p: string) {
    |p| <= |s| && s[|s| - |p|..] == p
  }

  /** `s.includes(sub)`: `sub` occurs at some position of `s`. */
  predicate Contains(s: string, sub: string)
    decreases |s|
  {
    StartsWith(s, sub) || (s != [] && Contains(s[1..], sub))
  }

  /** A text that contains `p + q` contains `p`. */
  lemma {:induction false} ContainsPrefixOf(s: string, p: string, q: string)
    requires Contains(s, p + q)
    ensures Contains(s, p)
    decreases |s|
  {
    if StartsWith(s, p + q) {
      assert s[..|p|] == (p + q)[..|p|];
    } else {
      ContainsPrefixOf(s[1..], p, q);
    }
  }

  /** `s.replaceAll(pattern, '')`: every non-overlapping occurrence of
      `pattern`, found from left to right, is removed. */
  function RemoveAll(s: string, pattern: string): (r: string)
    requires pattern != []
    ensures |r| <= |s|
    ensures !Contains(s, pattern) ==> r == s
    decreases |s|
  {
    if s == [] then []
    else if StartsWith(s, pattern) then RemoveAll(s[|pattern|..], pattern)
    else [s[0]] + RemoveAll(s[1..], pattern)
  }

  /** Removing every occurrence is the same as splitting at the occurrences
      and gluing the pieces back together with nothing between them. */
  lemma {:induction false} RemoveAllIsJoinOfSplit(s: string, pattern: string)
    requires pattern != []
    ensures RemoveAll(s, pattern) == Join(Split(s, pattern), [])
    decreases |s|
  {
    if s == [] {
    } else if StartsWith(s, pattern) {
      var rest := Split(s[|pattern|..], pattern);
      RemoveAllIsJoinOfSplit(s[|pattern|..], pattern);
      assert Split(s, pattern) == [[]] + rest;
      assert Join([[]] + rest, []) == Join(rest, []) by {
        assert ([[]] + rest)[1..] == rest;
      }
    } else {
      RemoveAllIsJoinOfSplit(s[1..], pattern);
      if |s| < |pattern| {
        assert Split(s[1..], pattern) == [s[1..]];
        assert [s[0]] + s[1..] == s;
      } else {
        JoinOntoFirst(s[0], Split(s[1..], pattern), []);
      }
    }
  }

  /** ASCII case folding of one character. */
  function LowerChar(c: char): char {
    if 'A' <= c <= 'Z' then (c as int - 'A' as int + 'a' as int) as char else c
  }

  /** `s.toLowerCase()` restricted to ASCII letters. */
  function ToLower(s: string): (r: string)
    ensures |r| == |s|
    ensures forall i :: 0 <= i < |r| ==> !('A' <= r[i] <= 'Z')
    ensures forall i :: 0 <= i < |r| && !('A' <= s[i] <= 'Z') ==> r[i] == s[i]
    ensures forall i :: 0 <= i < |r| && 'A' <= s[i] <= 'Z' ==> r[i] == (s[i] as int + 32) as char
  {
    seq(|s|, i requires 0 <= i < |s| => LowerChar(s[i]))
  }

  predicate IsDigit(c: char) {
    '0' <= c <= '9'
  }

  predicate AllDigits(s: string) {
    forall i :: 0 <= i < |s| ==> IsDigit(s[i])
  }

  /** The number written by a string of decimal digits, most significant first. */
  function DigitsValue(s: string): nat
    requires AllDigits(s)
    decreases |s|
  {
    if s == [] then 0
    else DigitsValue(s[..|s| - 1]) * 10 + (s[|s| - 1] as int - '0' as int)
  }

  /** Unary `+s` on a string of decimal digits: the number it denotes, or
      None (NaN) when `s` is empty or holds anything but digits. */
  function ParseDecimal(s: string): (r: Option<nat>)
    ensures r.Some? <==> s != [] && AllDigits(s)
    ensures s != [] && AllDigits(s) ==> r == Some(DigitsValue(s))
  {
    if s != [] && AllDigits(s) then Some(DigitsValue(s)) else None
  }

  /** The decimal text of a natural number, without leading zeros. */
  function NatToString(n: nat): (s: string)
    ensures s != [] && AllDigits(s)
    ensures |s| > 1 ==> s[0] != '0'
    decreases n
  {
    if n < 10 then [('0' as int + n) as char]
    else NatToString(n / 10) + [('0' as int + n % 10) as char]
  }

  /** `${i}` for an integer. */
  function IntToString(i: int): (s: string)
    ensures s != []
  {
    if i < 0 then "-" + NatToString(-i) else NatToString(i)
  }

  /** Reading back the decimal text of a number gives the number. */
  lemma {:induction false} ParseNatToString(n: nat)
    ensures ParseDecimal(NatToString(n)) == Some(n)
    decreases n
  {
    var s := NatToString(n);
    if n < 10 {
      assert s[..|s| - 1] == [];
    } else {
      ParseNatToString(n / 10);
      assert s[..|s| - 1] == NatToString(n / 10);
      assert DigitsValue(s) == (n / 10) * 10 + n % 10;
    }
  }
}
