/**
 * The responses of `send_ok_response` and `send_bad_request_response`: a status line, the
 * headers `Content-Type`, `Connection` and `Content-Length`, an empty line and the HTML body,
 * laid out as an HTTP/1.1 message (sections 2.1 and 4 of RFC 9112; `Content-Length` as in
 * section 8.6 of RFC 9110). A reader that takes such a message apart states what the bytes mean.
 */
module Response {
  import opened Wrappers
  import opened Utf8

  const OkStatusLine: string := "HTTP/1.1 200 OK"
  const BadRequestStatusLine: string := "HTTP/1.1 400 Bad Request"
  const ContentTypeHeader: string := "Content-Type: text/html; charset=utf-8"
  const ConnectionHeader: string := "Connection: close"
  const ContentLengthName: string := "Content-Length: "

  /** The raw-string body of the 200 response: unindented tags, four spaces before inner ones. */
  const OkBody: string :=
    "<!DOCTYPE html>\n" + "<html>\n" + "<head>\n" + "    <title>Hello World</title>\n"
    + "</head>\n" + "<body>\n" + "    <h1>Hello, World!</h1>\n" + "</body>\n" + "</html>"

  /** The raw-string body of the 400 response. */
  const BadRequestBody: string :=
    "<!DOCTYPE html>\n" + "<html>\n" + "<head>\n" + "    <title>Bad Request</title>\n"
    + "</head>\n" + "<body>\n" + "    <h1>400 Bad Request</h1>\n" + "</body>\n" + "</html>"

  // ---------------------------------------------------------------- composing

  function DigitChar(d: nat): (c: char)
    requires d < 10
    ensures '0' <= c <= '9'
  {
    (0x30 + d) as char
  }

  /** `{}` applied to a `usize`: the decimal digits of `n`, without leading zeros. */
  function Decimal(n: nat): (s: string)
    ensures |s| >= 1
    ensures forall i :: 0 <= i < |s| ==> '0' <= s[i] <= '9'
    decreases n
  {
    if n < 10 then [DigitChar(n)] else Decimal(n / 10) + [DigitChar(n % 10)]
  }

  /**
   * The `format!` both senders use, with the status line as a parameter; the length is
   * `html_body.len()`, the number of bytes of the body's encoding.
   */
  function FormatResponse(statusLine: string, body: string): string
  {
    statusLine + "\r\n" + ContentTypeHeader + "\r\n" + ConnectionHeader + "\r\n"
    + ContentLengthName + Decimal(|Encode(body)|) + "\r\n\r\n" + body
  }

  /** `response.as_bytes()` of `send_ok_response`. */
  function OkResponse(): seq<byte>
  {
    Encode(FormatResponse(OkStatusLine, OkBody))
  }

  /** `response.as_bytes()` of `send_bad_request_response`. */
  function BadRequestResponse(): seq<byte>
  {
    Encode(FormatResponse(BadRequestStatusLine, BadRequestBody))
  }

  // ---------------------------------------------------------------- reading

  const CR: byte := 0x0D
  const LF: byte := 0x0A

  /** Lines joined by CR LF separators. */
  function JoinCrlf(ls: seq<seq<byte>>): seq<byte>
    requires |ls| >= 1
  {
    if |ls| == 1 then ls[0] else ls[0] + [CR, LF] + JoinCrlf(ls[1..])
  }

  predicate CrlfAt(m: seq<byte>, j: nat)
  {
    j + 2 <= |m| && m[j] == CR && m[j + 1] == LF
  }

  /** An empty line ends the head here: CR LF CR LF. */
  predicate BlankLineAt(m: seq<byte>, j: nat)
  {
    CrlfAt(m, j) && CrlfAt(m, j + 2)
  }

  /** The first CR LF at or after `from`. */
  function FindCrlf(m: seq<byte>, from: nat): (r: Option<nat>)
    ensures r.Some? ==> from <= r.value && CrlfAt(m, r.value)
    ensures r.Some? ==> forall j :: from <= j < r.value ==> !CrlfAt(m, j)
    ensures r.None? ==> forall j :: from <= j ==> !CrlfAt(m, j)
    decreases |m| - from
  {
    if from + 2 > |m| then None
    else if CrlfAt(m, from) then Some(from)
    else FindCrlf(m, from + 1)
  }

  /** The first empty line (CR LF CR LF) at or after `from`. */
  function FindBlankLine(m: seq<byte>, from: nat): (r: Option<nat>)
    ensures r.Some? ==> from <= r.value && BlankLineAt(m, r.value)
    ensures r.Some? ==> forall j :: from <= j < r.value ==> !BlankLineAt(m, j)
    ensures r.None? ==> forall j :: from <= j ==> !BlankLineAt(m, j)
    decreases |m| - from
  {
    if from + 4 > |m| then None
    else if BlankLineAt(m, from) then Some(from)
    else FindBlankLine(m, from + 1)
  }

  /** The lines of a head, split at every CR LF. */
  function SplitCrlf(h: seq<byte>): (ls: seq<seq<byte>>)
    ensures |ls| >= 1
    decreases |h|
  {
    match FindCrlf(h, 0)
    case None => [h]
    case Some(k) => [h[..k]] + SplitCrlf(h[k + 2..])
  }

  datatype Message = Message(statusLine: seq<byte>, headers: seq<seq<byte>>, body: seq<byte>)

  /** A message read back: the head up to the first empty line, split into lines, then the body. */
  function ReadMessage(m: seq<byte>): Option<Message>
  {
    match FindBlankLine(m, 0)
    case None => None
    case Some(k) =>
      var lines := SplitCrlf(m[..k]);
      Some(Message(lines[0], lines[1..], m[k + 4..]))
  }

  predicate IsDigits(v: seq<byte>)
  {
    |v| >= 1 && forall i :: 0 <= i < |v| ==> 0x30 <= v[i] <= 0x39
  }

  /** The number a run of decimal digits denotes. */
  function DigitsValue(v: seq<byte>): nat
    requires forall i :: 0 <= i < |v| ==> 0x30 <= v[i] <= 0x39
  {
    if v == [] then 0 else 10 * DigitsValue(v[..|v| - 1]) + (v[|v| - 1] as int - 0x30)
  }

  /** The value of the first `Content-Length` header, when it is a run of digits. */
  function ContentLength(headers: seq<seq<byte>>): Option<nat>
  {
    if headers == [] then None
    else
      var h := headers[0];
      if NamesContentLength(h) then
        var v := h[|Encode(ContentLengthName)|..];
        if IsDigits(v) then Some(DigitsValue(v)) else None
      else ContentLength(headers[1..])
  }

  // ---------------------------------------------------------------- lemmas

  /** The digits written for `Content-Length` read back as the number written. */
  lemma {:induction false} DecimalRoundTrip(n: nat)
    ensures IsDigits(Encode(Decimal(n)))
    ensures DigitsValue(Encode(Decimal(n))) == n
    decreases n
  {
    var d := Decimal(n);
    EncodeAscii(d);
    if n >= 10 {
      var c := DigitChar(n % 10);
      EncodeAppend(Decimal(n / 10), [c]);
      DecimalRoundTrip(n / 10);
      var e := Encode(d);
      assert e[..|e| - 1] == Encode(Decimal(n / 10));
    }
  }

  lemma FindCrlfFirst(m: seq<byte>, k: nat)
    requires CrlfAt(m, k) && forall j :: 0 <= j < k ==> !CrlfAt(m, j)
    ensures FindCrlf(m, 0) == Some(k)
  {
  }

  lemma FindBlankLineFirst(m: seq<byte>, k: nat)
    requires BlankLineAt(m, k) && forall j :: 0 <= j < k ==> !BlankLineAt(m, j)
    ensures FindBlankLine(m, 0) == Some(k)
  {
  }

  /** Unfolding the join one line at a time. */
  lemma JoinCrlfCons(ls: seq<seq<byte>>)
    requires |ls| >= 2
    ensures JoinCrlf(ls) == ls[0] + [CR, LF] + JoinCrlf(ls[1..])
    ensures |JoinCrlf(ls)| == |ls[0]| + 2 + |JoinCrlf(ls[1..])|
    ensures forall k :: 0 <= k < |ls[0]| ==> JoinCrlf(ls)[k] == ls[0][k]
    ensures JoinCrlf(ls)[|ls[0]|] == CR && JoinCrlf(ls)[|ls[0]| + 1] == LF
  {
  }

  /** The join starts with the first line. */
  lemma JoinCrlfStart(ls: seq<seq<byte>>)
    requires |ls| >= 1 && ls[0] != []
    ensures JoinCrlf(ls) != [] && JoinCrlf(ls)[0] == ls[0][0]
  {
  }

  /** Round trip: lines free of CR, joined by CR LF, split back into the same lines. */
  lemma {:induction false} SplitCrlfJoin(ls: seq<seq<byte>>)
    requires |ls| >= 1
    requires forall i :: 0 <= i < |ls| ==> CR !in ls[i]
    ensures SplitCrlf(JoinCrlf(ls)) == ls
  {
    var h := JoinCrlf(ls);
    if |ls| == 1 {
      assert forall j :: 0 <= j < |h| ==> h[j] in ls[0];
    } else {
      var a := |ls[0]|;
      JoinCrlfCons(ls);
      assert FindCrlf(h, 0) == Some(a) by {
        assert forall j :: 0 <= j < a ==> h[j] == ls[0][j] && h[j] in ls[0];
        FindCrlfFirst(h, a);
      }
      assert h[..a] == ls[0];
      assert h[a + 2..] == JoinCrlf(ls[1..]);
      SplitCrlfJoin(ls[1..]);
      assert ls == [ls[0]] + ls[1..];
    }
  }

  /**
   * A head whose lines are free of CR and, after the first, non-empty, holds no empty line:
   * the first CR LF CR LF after it is the one that ends it.
   */
  lemma {:induction false} JoinCrlfNoBlankLine(ls: seq<seq<byte>>, tail: seq<byte>)
    requires |ls| >= 1
    requires forall i :: 0 <= i < |ls| ==> CR !in ls[i]
    requires forall i :: 1 <= i < |ls| ==> ls[i] != []
    ensures forall j :: 0 <= j < |JoinCrlf(ls)| ==> !BlankLineAt(JoinCrlf(ls) + tail, j)
  {
    var m := JoinCrlf(ls) + tail;
    var a := |ls[0]|;
    if |ls| == 1 {
      assert forall j :: 0 <= j < a ==> m[j] == ls[0][j] && m[j] in ls[0];
    } else {
      var join := JoinCrlf(ls[1..]);
      var rest := join + tail;
      JoinCrlfNoBlankLine(ls[1..], tail);
      JoinCrlfCons(ls);
      JoinCrlfStart(ls[1..]);
      assert |m| == a + 2 + |rest|;
      assert forall k :: 0 <= k < |rest| ==> m[a + 2 + k] == rest[k];
      assert m[a + 2] != CR by {
        assert m[a + 2] == ls[1][0] && ls[1][0] in ls[1];
      }
      forall j | 0 <= j < |JoinCrlf(ls)|
        ensures !BlankLineAt(m, j)
      {
        if j < a {
          assert m[j] == ls[0][j] && m[j] in ls[0];
        } else if j >= a + 2 {
          var i := j - a - 2;
          assert i < |join|;
          assert !BlankLineAt(rest, i);
        }
      }
    }
  }

  lemma EncodeCrlf()
    ensures Encode("\r\n") == [CR, LF]
    ensures Encode("\r\n\r\n") == [CR, LF, CR, LF]
  {
    assert "\r\n"[1..] == "\n";
    assert "\r\n\r\n"[1..] == "\n\r\n";
    assert "\n\r\n"[1..] == "\r\n";
  }

  /** The head lines of a response as bytes: status line and the three header lines. */
  function HeadLines(statusLine: string, body: string): seq<seq<byte>>
  {
    [Encode(statusLine), Encode(ContentTypeHeader), Encode(ConnectionHeader),
     Encode(ContentLengthName + Decimal(|Encode(body)|))]
  }

  lemma JoinCrlfFour(a: seq<byte>, b: seq<byte>, c: seq<byte>, d: seq<byte>)
    ensures JoinCrlf([a, b, c, d]) == a + [CR, LF] + b + [CR, LF] + c + [CR, LF] + d
  {
    assert [a, b, c, d][1..] == [b, c, d];
    assert [b, c, d][1..] == [c, d];
    assert [c, d][1..] == [d];
    assert JoinCrlf([c, d]) == c + [CR, LF] + d;
    assert JoinCrlf([b, c, d]) == b + [CR, LF] + (c + [CR, LF] + d);
  }

  /** The response bytes are the head lines joined by CR LF, an empty line, then the body. */
  lemma FormatResponseBytes(statusLine: string, body: string)
    ensures Encode(FormatResponse(statusLine, body))
         == JoinCrlf(HeadLines(statusLine, body)) + [CR, LF, CR, LF] + Encode(body)
  {
    var cl := ContentLengthName + Decimal(|Encode(body)|);
    var crlf := "\r\n";
    var h1 := statusLine + crlf;
    var h2 := h1 + ContentTypeHeader;
    var h3 := h2 + crlf;
    var h4 := h3 + ConnectionHeader;
    var h5 := h4 + crlf;
    var h6 := h5 + cl;
    var h7 := h6 + "\r\n\r\n";
    assert FormatResponse(statusLine, body) == h7 + body;
    EncodeCrlf();
    EncodeAppend(h7, body);
    EncodeAppend(h6, "\r\n\r\n");
    EncodeAppend(h5, cl);
    EncodeAppend(h4, crlf);
    EncodeAppend(h3, ConnectionHeader);
    EncodeAppend(h2, crlf);
    EncodeAppend(h1, ContentTypeHeader);
    EncodeAppend(statusLine, crlf);
    JoinCrlfFour(Encode(statusLine), Encode(ContentTypeHeader), Encode(ConnectionHeader), Encode(cl));
  }

  /** A message made of CR-free head lines, an empty line and a body reads back as those parts. */
  lemma ReadMessageOfHead(ls: seq<seq<byte>>, body: seq<byte>)
    requires |ls| >= 1
    requires forall i :: 0 <= i < |ls| ==> CR !in ls[i]
    requires forall i :: 1 <= i < |ls| ==> ls[i] != []
    ensures ReadMessage(JoinCrlf(ls) + [CR, LF, CR, LF] + body) == Some(Message(ls[0], ls[1..], body))
  {
    var head := JoinCrlf(ls);
    var tail := [CR, LF, CR, LF] + body;
    var m := head + tail;
    assert m == JoinCrlf(ls) + [CR, LF, CR, LF] + body;
    JoinCrlfNoBlankLine(ls, tail);
    assert BlankLineAt(m, |head|);
    FindBlankLineFirst(m, |head|);
    assert m[..|head|] == head;
    assert m[|head| + 4..] == body;
    SplitCrlfJoin(ls);
  }

  lemma ReadMessageOfFourLines(a: seq<byte>, b: seq<byte>, c: seq<byte>, d: seq<byte>, body: seq<byte>)
    requires CR !in a && CR !in b && CR !in c && CR !in d
    requires b != [] && c != [] && d != []
    ensures ReadMessage(JoinCrlf([a, b, c, d]) + [CR, LF, CR, LF] + body)
         == Some(Message(a, [b, c, d], body))
  {
    var ls := [a, b, c, d];
    assert ls[1..] == [b, c, d];
    ReadMessageOfHead(ls, body);
  }

  /** Facts about the header literals, read off the text. */
  lemma ContentTypeText()
    ensures IsAscii(ContentTypeHeader) && '\r' !in ContentTypeHeader
    ensures |ContentTypeHeader| > 16 && ContentTypeHeader[8] == 'T'
  {
  }

  lemma ConnectionText()
    ensures IsAscii(ConnectionHeader) && '\r' !in ConnectionHeader
    ensures |ConnectionHeader| > 16 && ConnectionHeader[3] == 'n'
  {
  }

  lemma ContentLengthText()
    ensures IsAscii(ContentLengthName) && '\r' !in ContentLengthName
    ensures |ContentLengthName| == 16 && ContentLengthName[3] == 't' && ContentLengthName[8] == 'L'
  {
  }

  /** The fixed header lines hold no CR and none is empty. */
  lemma HeaderLinesWellFormed(body: string)
    ensures CR !in Encode(ContentTypeHeader) && Encode(ContentTypeHeader) != []
    ensures CR !in Encode(ConnectionHeader) && Encode(ConnectionHeader) != []
    ensures var cl := ContentLengthName + Decimal(|Encode(body)|);
      CR !in Encode(cl) && Encode(cl) != []
  {
    var cl := ContentLengthName + Decimal(|Encode(body)|);
    ContentTypeText();
    ConnectionText();
    ContentLengthText();
    EncodeAsciiByte(ContentTypeHeader, CR);
    EncodeAsciiByte(ConnectionHeader, CR);
    EncodeAsciiByte(cl, CR);
    assert '\r' !in Decimal(|Encode(body)|);
  }

  /**
   * Reading a response back: for any status line free of CR and any body, the message
   * splits into exactly that status line, the headers `Content-Type`, `Connection` and
   * `Content-Length` in that order, and, after the first empty line, exactly the body's bytes.
   */
  lemma ResponseReadBack(statusLine: string, body: string)
    requires '\r' !in statusLine
    ensures ReadMessage(Encode(FormatResponse(statusLine, body)))
         == Some(Message(Encode(statusLine), HeadLines(statusLine, body)[1..], Encode(body)))
  {
    FormatResponseBytes(statusLine, body);
    EncodeAsciiByte(statusLine, CR);
    HeaderLinesWellFormed(body);
    var ls := HeadLines(statusLine, body);
    ReadMessageOfFourLines(ls[0], ls[1], ls[2], ls[3], Encode(body));
  }

  /** Regrouping short lists, stated once for any element type. */
  lemma ListShapes<T>(a: T, b: T, c: T, d: T, rest: seq<T>)
    ensures [a, b] + rest == [a] + ([b] + rest)
    ensures [a, b, c, d][1..] == [b, c] + [d]
  {
  }

  /** Whether a header line starts with the `Content-Length` name. */
  predicate NamesContentLength(h: seq<byte>)
  {
    var name := Encode(ContentLengthName);
    |name| <= |h| && h[..|name|] == name
  }

  /** A header that does not start with the `Content-Length` name is passed over. */
  lemma ContentLengthSkips(h: seq<byte>, rest: seq<seq<byte>>)
    requires !NamesContentLength(h)
    ensures ContentLength([h] + rest) == ContentLength(rest)
  {
    assert ([h] + rest)[1..] == rest;
  }

  /** An ASCII line that differs from the `Content-Length` name within its length is another header. */
  lemma DiffersFromContentLength(a: string, k: nat)
    requires IsAscii(a) && k < |ContentLengthName| <= |a| && a[k] != ContentLengthName[k]
    ensures !NamesContentLength(Encode(a))
  {
    ContentLengthText();
    EncodeAscii(a);
    EncodeAscii(ContentLengthName);
    assert Encode(a)[k] != Encode(ContentLengthName)[k];
  }

  lemma ContentTypeIsNotContentLength()
    ensures !NamesContentLength(Encode(ContentTypeHeader))
  {
    ContentTypeText();
    ContentLengthText();
    DiffersFromContentLength(ContentTypeHeader, 8);
  }

  lemma ConnectionIsNotContentLength()
    ensures !NamesContentLength(Encode(ConnectionHeader))
  {
    ConnectionText();
    ContentLengthText();
    DiffersFromContentLength(ConnectionHeader, 3);
  }

  /** Neither `Content-Type` nor `Connection` is taken for `Content-Length`. */
  lemma OtherHeadersSkipped(rest: seq<seq<byte>>)
    ensures ContentLength([Encode(ContentTypeHeader), Encode(ConnectionHeader)] + rest)
         == ContentLength(rest)
  {
    var ct := Encode(ContentTypeHeader);
    var conn := Encode(ConnectionHeader);
    ContentTypeIsNotContentLength();
    ConnectionIsNotContentLength();
    ContentLengthSkips(conn, rest);
    ContentLengthSkips(ct, [conn] + rest);
    ListShapes(ct, conn, ct, ct, rest);
  }

  /** The `Content-Length` line written for `n` reads back as `n`. */
  lemma ContentLengthLine(n: nat)
    ensures ContentLength([Encode(ContentLengthName + Decimal(n))]) == Some(n)
  {
    var name := Encode(ContentLengthName);
    var h := Encode(ContentLengthName + Decimal(n));
    EncodeAppend(ContentLengthName, Decimal(n));
    DecimalRoundTrip(n);
    assert h[..|name|] == name;
    assert h[|name|..] == Encode(Decimal(n));
  }

  /** `Content-Length` is read past the other headers: a run of digits with its value. */
  lemma ContentLengthOfHead(body: string)
    ensures ContentLength(HeadLines([], body)[1..]) == Some(|Encode(body)|)
  {
    var n := |Encode(body)|;
    var cl := Encode(ContentLengthName + Decimal(n));
    ListShapes(Encode([]), Encode(ContentTypeHeader), Encode(ConnectionHeader), cl, []);
    OtherHeadersSkipped([cl]);
    ContentLengthLine(n);
  }

  /** `Content-Length` states the number of bytes that follow the empty line. */
  lemma ResponseContentLength(statusLine: string, body: string)
    requires '\r' !in statusLine
    ensures var msg := ReadMessage(Encode(FormatResponse(statusLine, body)));
      msg.Some? && ContentLength(msg.value.headers) == Some(|msg.value.body|)
  {
    ResponseReadBack(statusLine, body);
    ContentLengthOfHead(body);
    assert HeadLines(statusLine, body)[1..] == HeadLines([], body)[1..];
  }

  // ---------------------------------------------------------------- the two responses

  lemma StatusLineTexts()
    ensures '\r' !in OkStatusLine && '\r' !in BadRequestStatusLine
  {
  }

  lemma AsciiAppend(a: string, b: string)
    requires IsAscii(a) && IsAscii(b)
    ensures IsAscii(a + b)
  {
  }

  /** The 200 page is ASCII text of 118 characters. */
  lemma OkBodyText()
    ensures IsAscii(OkBody) && |OkBody| == 118
  {
    var page := "<!DOCTYPE html>\n";
    assert IsAscii(page);
    assert IsAscii("<html>\n");
    AsciiAppend(page, "<html>\n");
    page := page + "<html>\n";
    assert IsAscii("<head>\n");
    AsciiAppend(page, "<head>\n");
    page := page + "<head>\n";
    assert IsAscii("    <title>Hello World</title>\n");
    AsciiAppend(page, "    <title>Hello World</title>\n");
    page := page + "    <title>Hello World</title>\n";
    assert IsAscii("</head>\n");
    AsciiAppend(page, "</head>\n");
    page := page + "</head>\n";
    assert IsAscii("<body>\n");
    AsciiAppend(page, "<body>\n");
    page := page + "<body>\n";
    assert IsAscii("    <h1>Hello, World!</h1>\n");
    AsciiAppend(page, "    <h1>Hello, World!</h1>\n");
    page := page + "    <h1>Hello, World!</h1>\n";
    assert IsAscii("</body>\n");
    AsciiAppend(page, "</body>\n");
    page := page + "</body>\n";
    assert IsAscii("</html>");
    AsciiAppend(page, "</html>");
    page := page + "</html>";
    assert page == OkBody;
  }

  /** The 400 page is ASCII text of 120 characters. */
  lemma BadRequestBodyText()
    ensures IsAscii(BadRequestBody) && |BadRequestBody| == 120
  {
    var page := "<!DOCTYPE html>\n";
    assert IsAscii(page);
    assert IsAscii("<html>\n");
    AsciiAppend(page, "<html>\n");
    page := page + "<html>\n";
    assert IsAscii("<head>\n");
    AsciiAppend(page, "<head>\n");
    page := page + "<head>\n";
    assert IsAscii("    <title>Bad Request</title>\n");
    AsciiAppend(page, "    <title>Bad Request</title>\n");
    page := page + "    <title>Bad Request</title>\n";
    assert IsAscii("</head>\n");
    AsciiAppend(page, "</head>\n");
    page := page + "</head>\n";
    assert IsAscii("<body>\n");
    AsciiAppend(page, "<body>\n");
    page := page + "<body>\n";
    assert IsAscii("    <h1>400 Bad Request</h1>\n");
    AsciiAppend(page, "    <h1>400 Bad Request</h1>\n");
    page := page + "    <h1>400 Bad Request</h1>\n";
    assert IsAscii("</body>\n");
    AsciiAppend(page, "</body>\n");
    page := page + "</body>\n";
    assert IsAscii("</html>");
    AsciiAppend(page, "</html>");
    page := page + "</html>";
    assert page == BadRequestBody;
  }

  /** The decimal digits of 118 and 120, as `format!` writes them. */
  lemma BodyLengthDigits()
    ensures Decimal(118) == "118" && Decimal(120) == "120"
  {
  }

  /**
   * The 200 response reads back as `HTTP/1.1 200 OK`, the three headers with
   * `Content-Length: 118`, and the 118 bytes of the hello-world page.
   */
  lemma OkResponseMessage()
    ensures ReadMessage(OkResponse()) == Some(Message(Encode(OkStatusLine),
      [Encode(ContentTypeHeader), Encode(ConnectionHeader), Encode(ContentLengthName + "118")],
      Encode(OkBody)))
    ensures |Encode(OkBody)| == 118
    ensures ContentLength(ReadMessage(OkResponse()).value.headers) == Some(118)
  {
    StatusLineTexts();
    OkBodyText();
    EncodeAscii(OkBody);
    BodyLengthDigits();
    ResponseReadBack(OkStatusLine, OkBody);
    ResponseContentLength(OkStatusLine, OkBody);
  }

  /**
   * The 400 response reads back as `HTTP/1.1 400 Bad Request`, the three headers with
   * `Content-Length: 120`, and the 120 bytes of the bad-request page.
   */
  lemma BadRequestResponseMessage()
    ensures ReadMessage(BadRequestResponse()) == Some(Message(Encode(BadRequestStatusLine),
      [Encode(ContentTypeHeader), Encode(ConnectionHeader), Encode(ContentLengthName + "120")],
      Encode(BadRequestBody)))
    ensures |Encode(BadRequestBody)| == 120
    ensures ContentLength(ReadMessage(BadRequestResponse()).value.headers) == Some(120)
  {
    StatusLineTexts();
    BadRequestBodyText();
    EncodeAscii(BadRequestBody);
    BodyLengthDigits();
    ResponseReadBack(BadRequestStatusLine, BadRequestBody);
    ResponseContentLength(BadRequestStatusLine, BadRequestBody);
  }

  /** The two responses differ, first in their status lines. */
  lemma ResponsesDiffer()
    ensures OkResponse() != BadRequestResponse()
  {
    OkResponseMessage();
    BadRequestResponseMessage();
    assert OkStatusLine != BadRequestStatusLine;
    DecodeEncodeRoundTrip(OkStatusLine);
    DecodeEncodeRoundTrip(BadRequestStatusLine);
  }
}
