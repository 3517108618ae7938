/**
 * What `demoLib.http` computes besides the request itself: the error value it
 * reports for a non-2xx response, and the dictionary it builds from the block
 * returned by `getAllResponseHeaders()`.
 */
module Http {
  import Utils

  /** `{ xhr, message }`: the status of the failed request and its response text. */
  datatype HttpError = HttpError(status: int, message: string)

  /** JavaScript's `\s`: white space and line terminators. */
  predicate IsSpace(c: char)
  {
    || c == ' ' || c == '\t' || c == '\n' || c == '\U{000B}' || c == '\U{000C}' || c == '\r'
    || c == '\U{00A0}' || c == '\U{1680}' || ('\U{2000}' <= c <= '\U{200A}')
    || c == '\U{2028}' || c == '\U{2029}' || c == '\U{202F}' || c == '\U{205F}'
    || c == '\U{3000}' || c == '\U{FEFF}'
  }

  /** Removes one carriage return ending `s` (the `\r?` before a line feed). */
  function DropCR(s: string): string
  {
    if |s| > 0 && s[|s| - 1] == '\r' then s[..|s| - 1] else s
  }

  /** `s.split(/\r?\n/)`: the pieces between line breaks, a break being LF or CRLF. */
  function Lines(s: string): (r: seq<string>)
    ensures |r| >= 1
    ensures forall i :: 0 <= i < |r| ==> '\n' !in r[i]
    decreases |s|
  {
    if '\n' !in s then [s]
    else
      var i := Utils.IndexOf(s, '\n');
      [DropCR(s[..i])] + Lines(s[i + 1..])
  }

  /** The lines joined with LF; the inverse of `Lines` on text without CR. */
  function JoinLines(ls: seq<string>): string
  {
    if ls == [] then "" else if |ls| == 1 then ls[0] else ls[0] + "\n" + JoinLines(ls[1..])
  }

  /** The first line feed of `first + "\n" + rest`, for `first` without one, is the
      one after `first`: the text splits into `first`, less a closing CR, and the
      lines of `rest`. */
  lemma LinesCons(first: string, rest: string)
    requires '\n' !in first
    ensures Lines(first + "\n" + rest) == [DropCR(first)] + Lines(rest)
  {
    var s := first + "\n" + rest;
    assert s[..|first|] == first;
    Utils.IndexOfAt(s, '\n', |first|);
    assert s[|first| + 1..] == rest;
  }

  /** Text holding a line feed is the text before the first one, the line feed, and
      the text after it. */
  lemma SplitAtFirst(s: string) returns (first: string, rest: string)
    requires '\n' in s
    ensures s == first + "\n" + rest && '\n' !in first
  {
    var i := Utils.IndexOf(s, '\n');
    first, rest := s[..i], s[i + 1..];
    assert first + "\n" + rest == s by {
      assert [s[i]] == "\n";
      assert s == s[..i] + [s[i]] + s[i + 1..];
    }
  }

  lemma JoinLinesCons(a: string, ls: seq<string>)
    requires |ls| >= 1
    ensures JoinLines([a] + ls) == a + "\n" + JoinLines(ls)
  {
    assert ([a] + ls)[1..] == ls;
  }

  /** Splitting text without CR at its line feeds and joining the pieces again gives
      back the text. */
  lemma {:induction false} JoinLinesOfLines(s: string)
    requires '\r' !in s
    ensures JoinLines(Lines(s)) == s
    decreases |s|
  {
    if '\n' in s {
      var first, rest := SplitAtFirst(s);
      assert '\r' !in first && '\r' !in rest by {
        assert forall c :: c in first || c in rest ==> c in s;
      }
      LinesCons(first, rest);
      assert DropCR(first) == first;
      JoinLinesOfLines(rest);
      JoinLinesCons(first, Lines(rest));
    }
  }

  /** The lines joined with CRLF, the separator `getAllResponseHeaders()` uses. */
  function JoinCRLF(ls: seq<string>): string
  {
    if ls == [] then "" else if |ls| == 1 then ls[0] else ls[0] + "\r\n" + JoinCRLF(ls[1..])
  }

  /** Splitting CRLF-separated lines gives back the lines: the CR before each LF is
      dropped, everything else is kept. */
  lemma {:induction false} LinesOfJoinCRLF(ls: seq<string>)
    requires |ls| >= 1
    requires forall i :: 0 <= i < |ls| ==> '\n' !in ls[i]
    ensures Lines(JoinCRLF(ls)) == ls
    decreases |ls|
  {
    if |ls| > 1 {
      var first, rest := ls[0] + "\r", JoinCRLF(ls[1..]);
      assert '\n' !in first by { assert '\n' !in ls[0]; }
      assert JoinCRLF(ls) == first + "\n" + rest;
      LinesCons(first, rest);
      assert DropCR(first) == ls[0];
      LinesOfJoinCRLF(ls[1..]);
      assert ls == [ls[0]] + ls[1..];
    }
  }

  /** The line break after a line: CRLF or a bare LF. */
  function Break(crlf: bool): string
  {
    if crlf then "\r\n" else "\n"
  }

  /** Lines joined with a break chosen per line: `crlf[i]` says whether line `i` is
      followed by CRLF or by a bare LF. */
  function JoinBreaks(ls: seq<string>, crlf: seq<bool>): string
    requires |ls| >= 1 && |crlf| == |ls| - 1
  {
    if |ls| == 1 then ls[0] else ls[0] + Break(crlf[0]) + JoinBreaks(ls[1..], crlf[1..])
  }

  /** The lines may be joined by LF or CRLF breaks: no line holds a line feed, and a
      line followed by a bare LF does not end in CR (that CR would be read as part
      of the break). */
  predicate Splittable(ls: seq<string>, crlf: seq<bool>)
  {
    && |ls| >= 1 && |crlf| == |ls| - 1
    && (forall i :: 0 <= i < |ls| ==> '\n' !in ls[i])
    && (forall i :: 0 <= i < |crlf| && !crlf[i] ==> DropCR(ls[i]) == ls[i])
  }

  lemma SplittableTail(ls: seq<string>, crlf: seq<bool>)
    requires Splittable(ls, crlf) && |ls| > 1
    ensures Splittable(ls[1..], crlf[1..])
  {
    forall i | 0 <= i < |crlf| - 1 && !crlf[1..][i] ensures DropCR(ls[1..][i]) == ls[1..][i] {
      assert crlf[1..][i] == crlf[i + 1] && ls[1..][i] == ls[i + 1];
    }
    forall i | 0 <= i < |ls| - 1 ensures '\n' !in ls[1..][i] {
      assert ls[1..][i] == ls[i + 1];
    }
  }

  /** The first line and its break: the line, with the CR of a CRLF, then the LF. */
  lemma BreakHead(ls: seq<string>, crlf: seq<bool>) returns (first: string)
    requires Splittable(ls, crlf) && |ls| > 1
    ensures JoinBreaks(ls, crlf) == first + "\n" + JoinBreaks(ls[1..], crlf[1..])
    ensures '\n' !in first && DropCR(first) == ls[0]
  {
    first := ls[0] + (if crlf[0] then "\r" else "");
    assert '\n' !in ls[0];
    assert ls[0] + Break(crlf[0]) == first + "\n";
    if crlf[0] { assert first[..|first| - 1] == ls[0]; }
  }

  /** Text mixing LF and CRLF breaks splits back into its lines. */
  lemma {:induction false} LinesOfJoinBreaks(ls: seq<string>, crlf: seq<bool>)
    requires Splittable(ls, crlf)
    ensures Lines(JoinBreaks(ls, crlf)) == ls
    decreases |ls|
  {
    if |ls| > 1 {
      var first := BreakHead(ls, crlf);
      LinesCons(first, JoinBreaks(ls[1..], crlf[1..]));
      SplittableTail(ls, crlf);
      LinesOfJoinBreaks(ls[1..], crlf[1..]);
      assert ls == [ls[0]] + ls[1..];
    }
  }

  /** A block mixing both breaks: `"a\nb\r\nc"` splits into `a`, `b` and `c`. */
  lemma MixedBreaksExample()
    ensures Lines("a\nb\r\nc") == ["a", "b", "c"]
  {
    var ls, crlf := ["a", "b", "c"], [false, true];
    assert JoinBreaks(ls, crlf) == "a\nb\r\nc" by {
      assert JoinBreaks(ls[2..], crlf[2..]) == "c";
      assert JoinBreaks(ls[1..], crlf[1..]) == "b\r\nc";
    }
    assert Splittable(ls, crlf);
    LinesOfJoinBreaks(ls, crlf);
  }

  /** The length of the white space that starts `s` (what `\s*` matches there). */
  function SpaceCount(s: string): (n: nat)
    ensures n <= |s|
    ensures forall i :: 0 <= i < n ==> IsSpace(s[i])
    ensures n == |s| || !IsSpace(s[n])
  {
    if s != [] && IsSpace(s[0]) then 1 + SpaceCount(s[1..]) else 0
  }

  /** The text of `s` before its first colon, all of `s` if it has none. */
  function UpToColon(s: string): (r: string)
    ensures r <= s && ':' !in r
    ensures ':' in s ==> |r| < |s| && s[|r|] == ':'
  {
    if ':' in s then s[..Utils.IndexOf(s, ':')] else s
  }

  lemma UpToColonSplit(s: string) returns (tail: string)
    ensures s == UpToColon(s) + tail
    ensures ':' !in UpToColon(s)
    ensures tail == [] || tail[0] == ':'
  {
    if ':' in s {
      var d := Utils.IndexOf(s, ':');
      tail := s[d..];
      assert s == s[..d] + s[d..];
    } else {
      tail := [];
    }
  }

  /** Every character of `s` is white space. */
  predicate AllSpace(s: string)
  {
    forall i :: 0 <= i < |s| ==> IsSpace(s[i])
  }

  /** The first piece of the split at a colon and its following white space: the
      text before the first colon, the longest prefix of the line without one. */
  function HeaderName(line: string): (name: string)
    ensures name <= line && ':' !in name
    ensures ':' in line ==> |name| < |line| && line[|name|] == ':'
  {
    UpToColon(line)
  }

  /** The second piece of the split at a colon and its following white space: the
      text after the first colon and the white space following it, up to the next
      colon. Empty when the line has no colon (the filter drops such lines before
      this is used). */
  function HeaderValue(line: string): (value: string)
    ensures ':' !in value
    ensures value == [] || !IsSpace(value[0])
    ensures ':' !in line ==> value == []
  {
    if ':' in line then
      var after := line[Utils.IndexOf(line, ':') + 1..];
      UpToColon(after[SpaceCount(after)..])
    else ""
  }

  /** How a header line falls apart: name, colon, white space, value, and a tail that
      is empty or starts at the next colon. */
  lemma HeaderLineParts(line: string) returns (space: string, tail: string)
    requires ':' in line
    ensures line == HeaderName(line) + ":" + space + HeaderValue(line) + tail
    ensures ':' !in HeaderName(line) && ':' !in HeaderValue(line)
    ensures AllSpace(space)
    ensures HeaderValue(line) == [] || !IsSpace(HeaderValue(line)[0])
    ensures tail == [] || tail[0] == ':'
  {
    var after := NameColonAfter(line);
    space, tail := ValueParts(after);
    Assemble(line, HeaderName(line), after, space, HeaderValue(line), tail);
  }

  /** A line with a colon is its name, the colon, and the text after the colon. */
  lemma NameColonAfter(line: string) returns (after: string)
    requires ':' in line
    ensures after == line[Utils.IndexOf(line, ':') + 1..]
    ensures line == HeaderName(line) + ":" + after
    ensures HeaderValue(line) == UpToColon(after[SpaceCount(after)..])
  {
    var d := Utils.IndexOf(line, ':');
    after := line[d + 1..];
    assert HeaderName(line) == line[..d];
    assert line == line[..d] + [line[d]] + line[d + 1..];
  }

  /** The text after a header's colon: white space, the value, and the tail. */
  lemma ValueParts(after: string) returns (space: string, tail: string)
    ensures after == space + (UpToColon(after[SpaceCount(after)..]) + tail)
    ensures ':' !in UpToColon(after[SpaceCount(after)..])
    ensures AllSpace(space)
    ensures var v := UpToColon(after[SpaceCount(after)..]); v == [] || !IsSpace(v[0])
    ensures tail == [] || tail[0] == ':'
  {
    var n := SpaceCount(after);
    space := after[..n];
    var rest := after[n..];
    assert after == space + rest;
    tail := UpToColonSplit(rest);
  }

  lemma Assemble(line: string, name: string, after: string, space: string, value: string, tail: string)
    requires line == name + ":" + after && after == space + (value + tail)
    ensures line == name + ":" + space + value + tail
  {
    Associate(name, ":", space, value, tail);
  }

  lemma Associate(a: string, b: string, c: string, d: string, e: string)
    ensures (a + b) + (c + (d + e)) == a + b + c + d + e
  {
  }

  predicate HasColon(line: string) { ':' in line }

  /** `getAllResponseHeaders().split(/\r?\n/).filter(x => /:/.test(x))`. */
  function HeaderLines(block: string): (r: seq<string>)
    ensures forall i :: 0 <= i < |r| ==> ':' in r[i] && '\n' !in r[i]
  {
    Utils.Filter(Lines(block), HasColon)
  }

  /** The header dictionary of `demoLib.http`'s success response: every header line
      maps its name to its value, a repeated name keeping its last value. */
  method ParseHeaders(block: string) returns (headers: map<string, string>)
    ensures headers == Utils.Assign(HeaderLines(block), HeaderName, HeaderValue)
  {
    var lines := HeaderLines(block);
    headers := map[];
    for n := 0 to |lines|
      invariant headers == Utils.Assign(lines[..n], HeaderName, HeaderValue)
    {
      assert lines[..n + 1][..n] == lines[..n];
      headers := headers[HeaderName(lines[n]) := HeaderValue(lines[n])];
    }
    assert lines[..|lines|] == lines;
  }

  /** A header name that occurs on several lines keeps the value of the last one. */
  lemma HeaderLastWins(block: string, i: int)
    requires Utils.LastWithKey(HeaderLines(block), HeaderName, i)
    ensures var line := HeaderLines(block)[i];
      Utils.Assign(HeaderLines(block), HeaderName, HeaderValue)[HeaderName(line)] == HeaderValue(line)
  {
    Utils.AssignLastWins(HeaderLines(block), HeaderName, HeaderValue, i);
  }

  /** The converse of `HeaderLineParts`: a line assembled from a name, white space, a
      value and a tail at the next colon parses back to that name and value. */
  lemma HeaderOfParts(name: string, space: string, value: string, tail: string)
    requires ':' !in name && ':' !in value
    requires AllSpace(space)
    requires value == [] || !IsSpace(value[0])
    requires tail == [] || tail[0] == ':'
    ensures HeaderName(name + ":" + space + value + tail) == name
    ensures HeaderValue(name + ":" + space + value + tail) == value
  {
    var after := space + (value + tail);
    Associate(name, ":", space, value, tail);
    NameOf(name, after);
    ValueOf(space, value, tail);
  }

  lemma NameOf(name: string, after: string)
    requires ':' !in name
    ensures Utils.IndexOf(name + ":" + after, ':') == |name|
    ensures HeaderName(name + ":" + after) == name
    ensures HeaderValue(name + ":" + after) == UpToColon(after[SpaceCount(after)..])
  {
    var line := name + ":" + after;
    assert line[..|name|] == name;
    Utils.IndexOfAt(line, ':', |name|);
    assert line[|name| + 1..] == after;
  }

  lemma ValueOf(space: string, value: string, tail: string)
    requires ':' !in value
    requires AllSpace(space)
    requires value == [] || !IsSpace(value[0])
    requires tail == [] || tail[0] == ':'
    ensures var after := space + (value + tail); UpToColon(after[SpaceCount(after)..]) == value
  {
    var after := space + (value + tail);
    SpaceCountAt(after, |space|);
    assert after[|space|..] == value + tail;
    if tail != [] {
      assert (value + tail)[..|value|] == value;
      Utils.IndexOfAt(value + tail, ':', |value|);
    }
  }

  /** `SpaceCount` is determined by its contract. */
  lemma {:induction false} SpaceCountAt(s: string, n: nat)
    requires n <= |s|
    requires forall i :: 0 <= i < n ==> IsSpace(s[i])
    requires n == |s| || !IsSpace(s[n])
    ensures SpaceCount(s) == n
  {
    if n > 0 {
      SpaceCountAt(s[1..], n - 1);
    }
  }

  /** A time of day in a header value is cut at its first colon, so
      `Date: Tue 08:12:31` yields `Tue 08`. */
  lemma DateHeaderCut()
    ensures HeaderValue("Date: Tue 08:12:31") == "Tue 08"
  {
    assert "Date: Tue 08:12:31" == "Date" + ":" + " " + "Tue 08" + ":12:31";
    HeaderOfParts("Date", " ", "Tue 08", ":12:31");
  }
}
