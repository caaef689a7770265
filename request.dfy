/**
 * The request-line parser `parse_request` and the two `str` iterators it is built on,
 * `lines` and `split_whitespace`.
 */
module Request {
  import opened Wrappers

  /** The two error values `parse_request` returns, as the `&'static str` literals of the source. */
  const EmptyRequest: string := "Empty request"
  const InvalidRequestLine: string := "Invalid request line"

  /** `char::is_whitespace`: the Unicode White_Space property. */
  predicate IsWhitespace(c: char)
  {
    var n := c as int;
    (0x09 <= n <= 0x0D) || n == 0x20 || n == 0x85 || n == 0xA0 || n == 0x1680
    || (0x2000 <= n <= 0x200A) || n == 0x2028 || n == 0x2029 || n == 0x202F
    || n == 0x205F || n == 0x3000
  }

  /** A non-empty run of non-whitespace characters: what `split_whitespace` yields. */
  predicate IsToken(t: string)
  {
    |t| > 0 && forall i :: 0 <= i < |t| ==> !IsWhitespace(t[i])
  }

  // ---------------------------------------------------------------- lines

  /** Index of the first line feed in `s`, or `|s|` when there is none. */
  function LineEnd(s: string): (n: nat)
    ensures n <= |s|
    ensures n < |s| ==> s[n] == '\n'
    ensures forall i :: 0 <= i < n ==> s[i] != '\n'
    decreases |s|
  {
    if s == [] || s[0] == '\n' then 0 else 1 + LineEnd(s[1..])
  }

  /** The first line of `s` as it stands in the text, without its terminator. */
  function FirstLine(s: string): string
  {
    s[..LineEnd(s)]
  }

  /** A line that was ended by `\n` loses one trailing `\r` (a `\r\n` terminator). */
  function StripCarriageReturn(line: string): (r: string)
    ensures r == line || (r + ['\r'] == line)
  {
    if |line| > 0 && line[|line| - 1] == '\r' then line[..|line| - 1] else line
  }

  /**
   * `str::lines`: split at each `\n`, dropping a `\r` just before it; the last line
   * needs no terminator, a final terminator does not start an empty line, and the
   * empty string has no lines.
   */
  function Lines(s: string): (ls: seq<string>)
    ensures |ls| == 0 <==> s == []
    ensures forall i :: 0 <= i < |ls| ==> '\n' !in ls[i]
    decreases |s|
  {
    if s == [] then []
    else
      var n := LineEnd(s);
      if n == |s| then [s]
      else [StripCarriageReturn(s[..n])] + Lines(s[n + 1..])
  }

  /** Lines written out with `\r\n` terminators, as an HTTP head is. */
  function CrlfTerminated(ls: seq<string>): string
  {
    if ls == [] then [] else ls[0] + "\r\n" + CrlfTerminated(ls[1..])
  }

  // ---------------------------------------------------------------- split_whitespace

  /** Length of the token at the front of `s`: up to the first whitespace or the end. */
  function TokenLength(s: string): (n: nat)
    requires s != [] && !IsWhitespace(s[0])
    ensures 1 <= n <= |s|
    ensures forall i :: 0 <= i < n ==> !IsWhitespace(s[i])
    ensures n < |s| ==> IsWhitespace(s[n])
    decreases |s|
  {
    if |s| == 1 || IsWhitespace(s[1]) then 1 else 1 + TokenLength(s[1..])
  }

  /** `str::split_whitespace`: the maximal runs of non-whitespace, in order. */
  function SplitWhitespace(s: string): (parts: seq<string>)
    ensures forall i :: 0 <= i < |parts| ==> IsToken(parts[i])
    decreases |s|
  {
    if s == [] then []
    else if IsWhitespace(s[0]) then SplitWhitespace(s[1..])
    else
      var n := TokenLength(s);
      [s[..n]] + SplitWhitespace(s[n..])
  }

  /** Tokens joined by single spaces: a request line such as `GET / HTTP/1.1`. */
  function Unwords(ts: seq<string>): string
  {
    if |ts| == 0 then [] else if |ts| == 1 then ts[0] else ts[0] + " " + Unwords(ts[1..])
  }

  // ---------------------------------------------------------------- parse_request

  /**
   * `parse_request`: the first of the request's lines, split on whitespace, must have at
   * least three parts; the first two are returned as (method, path).
   */
  function ParseRequest(request: string): (r: Result<(string, string), string>)
    ensures r.Err? ==> r.error == EmptyRequest || r.error == InvalidRequestLine
    ensures r.Ok? ==> IsToken(r.value.0) && IsToken(r.value.1)
  {
    var lines := Lines(request);
    if |lines| == 0 then Err(EmptyRequest)
    else
      var parts := SplitWhitespace(lines[0]);
      if |parts| < 3 then Err(InvalidRequestLine)
      else Ok((parts[0], parts[1]))
  }

  // ---------------------------------------------------------------- lemmas: split_whitespace

  /** The token length is the position of the first whitespace, whatever follows it. */
  lemma TokenLengthUnique(s: string, n: nat)
    requires s != [] && !IsWhitespace(s[0])
    requires 1 <= n <= |s|
    requires forall i :: 0 <= i < n ==> !IsWhitespace(s[i])
    requires n < |s| ==> IsWhitespace(s[n])
    ensures TokenLength(s) == n
  {
  }

  /** A whitespace character separates: the parts on each side are split independently. */
  lemma {:induction false} SplitWhitespaceSeparator(t: string, c: char, u: string)
    requires IsWhitespace(c)
    ensures SplitWhitespace(t + [c] + u) == SplitWhitespace(t) + SplitWhitespace(u)
    decreases |t|
  {
    var s := t + [c] + u;
    if t == [] {
      assert s[1..] == u;
    } else if IsWhitespace(t[0]) {
      assert s[1..] == t[1..] + [c] + u;
      SplitWhitespaceSeparator(t[1..], c, u);
    } else {
      var n := TokenLength(t);
      TokenLengthUnique(s, n);
      assert s[..n] == t[..n];
      assert s[n..] == t[n..] + [c] + u;
      SplitWhitespaceSeparator(t[n..], c, u);
    }
  }

  /** Trailing whitespace contributes no part. */
  lemma SplitWhitespaceTrailing(t: string, c: char)
    requires IsWhitespace(c)
    ensures SplitWhitespace(t + [c]) == SplitWhitespace(t)
  {
    SplitWhitespaceSeparator(t, c, []);
    assert t + [c] + [] == t + [c];
  }

  /** A token splits into itself. */
  lemma SplitWhitespaceToken(t: string)
    requires IsToken(t)
    ensures SplitWhitespace(t) == [t]
  {
    TokenLengthUnique(t, |t|);
    assert t[..|t|] == t && t[|t|..] == [];
  }

  /** Round trip: splitting tokens joined by single spaces gives the tokens back. */
  lemma {:induction false} SplitUnwords(ts: seq<string>)
    requires forall i :: 0 <= i < |ts| ==> IsToken(ts[i])
    ensures SplitWhitespace(Unwords(ts)) == ts
  {
    if |ts| == 1 {
      SplitWhitespaceToken(ts[0]);
    } else if |ts| > 1 {
      SplitWhitespaceToken(ts[0]);
      SplitUnwords(ts[1..]);
      SplitWhitespaceSeparator(ts[0], ' ', Unwords(ts[1..]));
      assert ts == [ts[0]] + ts[1..];
    }
  }

  /** Tokens contain no line feed, so neither does a line made of them. */
  lemma {:induction false} UnwordsHasNoLineFeed(ts: seq<string>)
    requires forall i :: 0 <= i < |ts| ==> IsToken(ts[i])
    ensures '\n' !in Unwords(ts)
  {
    if |ts| > 1 {
      UnwordsHasNoLineFeed(ts[1..]);
      assert IsWhitespace('\n');
      assert '\n' !in ts[0];
    } else if |ts| == 1 {
      assert IsWhitespace('\n');
    }
  }

  // ---------------------------------------------------------------- lemmas: lines

  /** The line end is the position of the first line feed, whatever follows it. */
  lemma LineEndUnique(s: string, n: nat)
    requires n <= |s|
    requires n < |s| ==> s[n] == '\n'
    requires forall i :: 0 <= i < n ==> s[i] != '\n'
    ensures LineEnd(s) == n
  {
  }

  /** The line feed that ends a line-feed-free prefix is the first one. */
  lemma LineEndAfter(line: string, rest: string)
    requires '\n' !in line
    requires rest == [] || rest[0] == '\n'
    ensures LineEnd(line + rest) == |line|
  {
    var s := line + rest;
    assert forall i :: 0 <= i < |line| ==> s[i] == line[i] && s[i] != '\n';
    LineEndUnique(s, |line|);
  }

  /** The first of `str::lines` splits into the same parts as the text before the first `\n`. */
  lemma FirstLineParts(s: string)
    requires s != []
    ensures SplitWhitespace(Lines(s)[0]) == SplitWhitespace(FirstLine(s))
  {
    var n := LineEnd(s);
    if n < |s| {
      var line := s[..n];
      assert Lines(s)[0] == StripCarriageReturn(line);
      if |line| > 0 && line[|line| - 1] == '\r' {
        SplitWhitespaceTrailing(line[..|line| - 1], '\r');
        assert line[..|line| - 1] + ['\r'] == line;
      }
    } else {
      assert s[..n] == s;
    }
  }

  /** One `\r\n`-terminated line comes off the front as that line. */
  lemma LinesCrlfStep(line: string, tail: string)
    requires '\n' !in line
    ensures Lines(line + "\r\n" + tail) == [line] + Lines(tail)
  {
    var l2 := line + "\r";
    var s := line + "\r\n" + tail;
    assert s == l2 + ("\n" + tail);
    assert '\n' !in l2 by {
      assert forall i :: 0 <= i < |l2| ==> l2[i] == if i < |line| then line[i] else '\r';
    }
    LineEndAfter(l2, "\n" + tail);
    assert s[..|l2|] == l2;
    assert s[|l2| + 1..] == tail;
    assert l2[..|line|] == line;
  }

  /** Round trip: `str::lines` recovers lines written with `\r\n` terminators. */
  lemma {:induction false} LinesCrlfTerminated(ls: seq<string>)
    requires forall i :: 0 <= i < |ls| ==> '\n' !in ls[i]
    ensures Lines(CrlfTerminated(ls)) == ls
  {
    if ls != [] {
      LinesCrlfStep(ls[0], CrlfTerminated(ls[1..]));
      LinesCrlfTerminated(ls[1..]);
      assert ls == [ls[0]] + ls[1..];
    }
  }

  // ---------------------------------------------------------------- lemmas: parse_request

  /**
   * What `parse_request` decides, stated on the raw text before the first line feed:
   * the empty string is the empty request; otherwise the request is accepted exactly when
   * that text has at least three whitespace-separated parts, and then yields the first two.
   */
  lemma ParseRequestSpec(request: string)
    ensures ParseRequest(request) == Err(EmptyRequest) <==> request == []
    ensures request != [] ==>
      (ParseRequest(request).Ok? <==> |SplitWhitespace(FirstLine(request))| >= 3)
    ensures ParseRequest(request).Ok? ==>
      var parts := SplitWhitespace(FirstLine(request));
      ParseRequest(request).value == (parts[0], parts[1])
  {
    if request != [] {
      FirstLineParts(request);
    }
  }

  /** How `parse_request` decides on a request whose first line ends in a line feed. */
  lemma ParseRequestFirstLine(line: string, rest: string)
    requires '\n' !in line
    ensures var parts := SplitWhitespace(line);
      ParseRequest(line + "\n" + rest)
      == if |parts| < 3 then Err(InvalidRequestLine) else Ok((parts[0], parts[1]))
  {
    var s := line + "\n" + rest;
    assert s == line + ("\n" + rest);
    LineEndAfter(line, "\n" + rest);
    assert s[..|line|] == line;
    assert Lines(s)[0] == StripCarriageReturn(line);
    if |line| > 0 && line[|line| - 1] == '\r' {
      SplitWhitespaceTrailing(line[..|line| - 1], '\r');
      assert line[..|line| - 1] + ['\r'] == line;
    }
  }

  /** Only the first line is read: whatever follows its line feed does not change the result. */
  lemma ParseRequestFirstLineOnly(line: string, x: string, y: string)
    requires '\n' !in line
    ensures ParseRequest(line + "\n" + x) == ParseRequest(line + "\n" + y)
    ensures line != [] ==> ParseRequest(line + "\n" + x) == ParseRequest(line)
  {
    ParseRequestFirstLine(line, x);
    ParseRequestFirstLine(line, y);
    LineEndAfter(line, []);
    assert line + [] == line;
  }

  /** A request without any line feed is a single line, decided on its own parts. */
  lemma ParseRequestSingleLine(line: string)
    requires '\n' !in line && line != []
    ensures var parts := SplitWhitespace(line);
      ParseRequest(line)
      == if |parts| < 3 then Err(InvalidRequestLine) else Ok((parts[0], parts[1]))
  {
    ParseRequestFirstLineOnly(line, [], []);
    ParseRequestFirstLine(line, []);
  }

  /** Splitting ignores the `\r` of a `\r\n` terminator. */
  lemma ParseRequestCarriageReturn(line: string, rest: string)
    requires '\n' !in line
    ensures ParseRequest(line + "\r\n" + rest) == ParseRequest(line + "\n" + rest)
  {
    var l2 := line + "\r";
    assert line + "\r\n" + rest == l2 + "\n" + rest;
    assert '\n' !in l2 by {
      assert forall i :: 0 <= i < |l2| ==> l2[i] == if i < |line| then line[i] else '\r';
    }
    ParseRequestFirstLine(l2, rest);
    ParseRequestFirstLine(line, rest);
    SplitWhitespaceTrailing(line, '\r');
  }

  /**
   * A request line of three or more tokens, ended by `\r\n` or a bare `\n`, parses to its
   * first two tokens whatever the later lines are.
   */
  lemma ParseRequestLine(ts: seq<string>, eol: string, rest: string)
    requires |ts| >= 3 && forall i :: 0 <= i < |ts| ==> IsToken(ts[i])
    requires eol == "\r\n" || eol == "\n"
    ensures ParseRequest(Unwords(ts) + eol + rest) == Ok((ts[0], ts[1]))
  {
    var line := Unwords(ts);
    UnwordsHasNoLineFeed(ts);
    SplitUnwords(ts);
    ParseRequestFirstLine(line, rest);
    if eol == "\r\n" {
      ParseRequestCarriageReturn(line, rest);
    }
  }

  /**
   * The request-line round trip: `method SP path SP version` followed by `\r\n` or `\n`
   * and anything at all parses to (method, path).
   */
  lemma RequestRoundTrip(m: string, p: string, v: string, rest: string)
    requires IsToken(m) && IsToken(p) && IsToken(v)
    ensures ParseRequest(m + " " + p + " " + v + "\r\n" + rest) == Ok((m, p))
    ensures ParseRequest(m + " " + p + " " + v + "\n" + rest) == Ok((m, p))
  {
    var ts := [m, p, v];
    assert Unwords(ts) == m + " " + p + " " + v by {
      assert ts[1..] == [p, v] && [p, v][1..] == [v];
      assert Unwords([p, v]) == p + " " + v;
    }
    ParseRequestLine(ts, "\r\n", rest);
    ParseRequestLine(ts, "\n", rest);
  }
}
