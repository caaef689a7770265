/**
 * `handle_connection` and the two senders: one read into a zero-initialised 1024-byte
 * buffer, the whole buffer decoded and parsed, then the 200 or the 400 response written.
 * The socket is a `Connection` object: the outcome its one read yields, and the bytes
 * written to it so far.
 */
module Server {
  import opened Wrappers
  import opened Utf8
  import opened Request
  import opened Response

  /** `let mut buffer = [0; 1024]`. */
  const BufferSize: nat := 1024

  /** What a `read` on the socket comes to: an I/O error, or the bytes the peer has sent. */
  datatype ReadOutcome = ReadFailed | Arrived(data: seq<byte>)

  datatype IoError = IoError

  /** The number of bytes one read moves into a buffer of `capacity` bytes. */
  function ReadCount(data: seq<byte>, capacity: nat): (k: nat)
    ensures k <= |data| && k <= capacity
    ensures k == |data| || k == capacity
  {
    if |data| < capacity then |data| else capacity
  }

  /** The buffer after one successful read: the bytes read, then the untouched zeros. */
  function Received(data: seq<byte>): (buffer: seq<byte>)
    ensures |buffer| == BufferSize
  {
    var k := ReadCount(data, BufferSize);
    data[..k] + Zeros(BufferSize - k)
  }

  /** What `handle_connection` writes back for one read outcome. */
  function Reply(incoming: ReadOutcome): seq<byte>
  {
    match incoming
    case ReadFailed => []
    case Arrived(data) =>
      if ParseRequest(DecodeLossy(Received(data))).Ok? then OkResponse() else BadRequestResponse()
  }

  /** An accepted `TcpStream`. */
  class Connection {
    /** The outcome of the read `handle_connection` issues. */
    const incoming: ReadOutcome
    /** Every byte handed to `write_all` on this stream, in order. */
    var written: seq<byte>

    constructor (incoming: ReadOutcome)
      ensures this.incoming == incoming && written == []
    {
      this.incoming := incoming;
      written := [];
    }

    /**
     * `stream.read(&mut buffer)`: on success the first `k` bytes of the buffer are
     * overwritten with the first `k` bytes sent, where `k` is as many as fit, and `k` is
     * returned; the rest of the buffer is left as it was. On error nothing changes.
     */
    method Read(buffer: array<byte>) returns (r: Result<nat, IoError>)
      modifies buffer
      ensures incoming.ReadFailed? ==> r.Err? && buffer[..] == old(buffer[..])
      ensures incoming.Arrived? ==>
        var k := ReadCount(incoming.data, buffer.Length);
        r == Ok(k) && buffer[..] == incoming.data[..k] + old(buffer[..])[k..]
    {
      match incoming
      case ReadFailed =>
        r := Err(IoError);
      case Arrived(data) =>
        var k := ReadCount(data, buffer.Length);
        forall i | 0 <= i < k {
          buffer[i] := data[i];
        }
        r := Ok(k);
    }

    /** `stream.write_all(bytes)`: the bytes follow what was written before. */
    method WriteAll(bytes: seq<byte>)
      modifies this`written
      ensures written == old(written) + bytes
    {
      written := written + bytes;
    }
  }

  /** `send_ok_response`: format the 200 response and write its bytes. */
  method SendOkResponse(stream: Connection)
    modifies stream`written
    ensures stream.written == old(stream.written) + OkResponse()
  {
    var response := FormatResponse(OkStatusLine, OkBody);
    stream.WriteAll(Encode(response));
  }

  /** `send_bad_request_response`: format the 400 response and write its bytes. */
  method SendBadRequestResponse(stream: Connection)
    modifies stream`written
    ensures stream.written == old(stream.written) + BadRequestResponse()
  {
    var response := FormatResponse(BadRequestStatusLine, BadRequestBody);
    stream.WriteAll(Encode(response));
  }

  /**
   * `handle_connection`: a read error writes nothing; otherwise the whole buffer, zero tail
   * included, is decoded and parsed, and the 200 or the 400 response is written.
   */
  method HandleConnection(stream: Connection)
    modifies stream`written
    ensures stream.written == old(stream.written) + Reply(stream.incoming)
  {
    var buffer := new byte[BufferSize](_ => 0);
    assert buffer[..] == Zeros(BufferSize);
    var r := stream.Read(buffer);
    match r {
      case Ok(_) =>
        assert buffer[..] == Received(stream.incoming.data);
        var request := DecodeLossy(buffer[..]);
        match ParseRequest(request) {
          case Ok(_) =>
            SendOkResponse(stream);
          case Err(_) =>
            SendBadRequestResponse(stream);
        }
      case Err(_) =>
    }
  }

  // ---------------------------------------------------------------- lemmas: dispatch

  /** Text whose encoding fits in the buffer comes back first when the buffer is decoded. */
  lemma DecodeReceived(s: string, tail: seq<byte>)
    requires |Encode(s)| <= BufferSize
    ensures var b := Received(Encode(s) + tail);
      DecodeLossy(b) == s + DecodeLossy(b[|Encode(s)|..])
  {
    var e := Encode(s);
    var b := Received(e + tail);
    assert b == e + b[|e|..] by {
      assert b[..|e|] == e;
    }
    DecodeEncode(s, b[|e|..]);
  }

  /** A peer that sends nothing still gets a reply: the 1024 NULs are one part, hence the 400. */
  lemma ReplyToEmptyRead()
    ensures Reply(Arrived([])) == BadRequestResponse()
  {
    var d := Nuls(BufferSize);
    assert Received([]) == Zeros(BufferSize);
    DecodeZeros(BufferSize);
    assert '\n' !in d by {
      assert forall i :: 0 <= i < |d| ==> d[i] == 0 as char;
    }
    assert IsToken(d);
    SplitWhitespaceToken(d);
    ParseRequestSingleLine(d);
  }

  /** The decoded buffer is never empty, so the "Empty request" error cannot arise here. */
  lemma EmptyRequestUnreachable(data: seq<byte>)
    ensures ParseRequest(DecodeLossy(Received(data))) != Err(EmptyRequest)
  {
    ParseRequestSpec(DecodeLossy(Received(data)));
  }

  /**
   * A first line that is terminated by a line feed inside the buffer decides the reply:
   * three or more parts get the 200 response, fewer get the 400, whatever follows.
   */
  lemma ReplyToFirstLine(line: string, tail: seq<byte>)
    requires '\n' !in line
    requires |Encode(line + "\n")| <= BufferSize
    ensures Reply(Arrived(Encode(line + "\n") + tail))
      == if |SplitWhitespace(line)| >= 3 then OkResponse() else BadRequestResponse()
  {
    var b := Received(Encode(line + "\n") + tail);
    DecodeReceived(line + "\n", tail);
    ParseRequestFirstLine(line, DecodeLossy(b[|Encode(line + "\n")|..]));
  }

  /**
   * `method SP path SP version` and a `\r\n` or `\n` that arrive within the buffer get the
   * 200 response, whatever bytes come after.
   */
  lemma ReplyToRequestLine(m: string, p: string, v: string, eol: string, tail: seq<byte>)
    requires IsToken(m) && IsToken(p) && IsToken(v)
    requires eol == "\r\n" || eol == "\n"
    requires |Encode(m + " " + p + " " + v + eol)| <= BufferSize
    ensures Reply(Arrived(Encode(m + " " + p + " " + v + eol) + tail)) == OkResponse()
  {
    var s := m + " " + p + " " + v + eol;
    var b := Received(Encode(s) + tail);
    DecodeReceived(s, tail);
    RequestRoundTrip(m, p, v, DecodeLossy(b[|Encode(s)|..]));
  }

  /** The buffer when the text arrived whole and left at least one zero byte. */
  lemma DecodePadded(text: string)
    requires |Encode(text)| < BufferSize
    ensures DecodeLossy(Received(Encode(text))) == text + Nuls(BufferSize - |Encode(text)|)
  {
    var e := Encode(text);
    assert Received(e) == e + Zeros(BufferSize - |e|) by {
      assert e[..|e|] == e;
    }
    DecodeEncode(text, Zeros(BufferSize - |e|));
    DecodeZeros(BufferSize - |e|);
  }

  /** A run of NULs is one part: NUL is not whitespace. */
  lemma NulsToken(n: nat)
    requires n > 0
    ensures IsToken(Nuls(n)) && '\n' !in Nuls(n)
  {
    assert Nuls(n)[0] == 0 as char;
  }

  /**
   * Because the zero tail of the buffer is decoded too, two parts and a trailing space,
   * without any line feed, are accepted: the NUL padding becomes the third part.
   */
  lemma ReplyToPaddedTwoParts(m: string, p: string)
    requires IsToken(m) && IsToken(p)
    requires |Encode(m + " " + p + " ")| < BufferSize
    ensures Reply(Arrived(Encode(m + " " + p + " "))) == OkResponse()
  {
    var text := m + " " + p + " ";
    var pad := Nuls(BufferSize - |Encode(text)|);
    DecodePadded(text);
    NulsToken(BufferSize - |Encode(text)|);
    var ts := [m, p, pad];
    assert Unwords(ts) == text + pad by {
      assert ts[1..] == [p, pad] && [p, pad][1..] == [pad];
      assert Unwords([pad]) == pad;
      assert Unwords([p, pad]) == p + " " + pad;
      assert Unwords(ts) == m + " " + (p + " " + pad);
    }
    UnwordsHasNoLineFeed(ts);
    SplitUnwords(ts);
    ParseRequestSingleLine(text + pad);
  }

  /** Without the trailing space the padding sticks to the path: two parts, the 400. */
  lemma ReplyToPaddedPath(m: string, p: string)
    requires IsToken(m) && IsToken(p)
    requires |Encode(m + " " + p)| < BufferSize
    ensures Reply(Arrived(Encode(m + " " + p))) == BadRequestResponse()
  {
    var text := m + " " + p;
    var pad := Nuls(BufferSize - |Encode(text)|);
    DecodePadded(text);
    NulsToken(BufferSize - |Encode(text)|);
    var path := p + pad;
    assert IsToken(path) by {
      assert forall i :: 0 <= i < |path| ==> path[i] == if i < |p| then p[i] else pad[i - |p|];
    }
    var ts := [m, path];
    assert Unwords(ts) == text + pad by {
      assert ts[1..] == [path] && Unwords([path]) == path;
      assert Unwords(ts) == m + " " + Unwords(ts[1..]);
      assert m + " " + (p + pad) == m + " " + p + pad;
    }
    UnwordsHasNoLineFeed(ts);
    SplitUnwords(ts);
    ParseRequestSingleLine(text + pad);
  }

  // ---------------------------------------------------------------- lemmas: instances

  /** An ASCII request whose request line fits in the buffer gets the 200 response. */
  lemma ReplyToAsciiRequest(m: string, p: string, v: string, eol: string, rest: string)
    requires IsToken(m) && IsToken(p) && IsToken(v)
    requires eol == "\r\n" || eol == "\n"
    requires IsAscii(m + " " + p + " " + v + eol)
    requires |m + " " + p + " " + v + eol| <= BufferSize
    ensures Reply(Arrived(Encode(m + " " + p + " " + v + eol + rest))) == OkResponse()
  {
    var line := m + " " + p + " " + v + eol;
    EncodeAppend(line, rest);
    EncodeAscii(line);
    ReplyToRequestLine(m, p, v, eol, Encode(rest));
  }

  /** A browser-style request for `/` gets the 200 response. */
  lemma ReplyToGetRoot()
    ensures Reply(Arrived(Encode("GET" + " " + "/" + " " + "HTTP/1.1" + "\r\n" + "Host: x\r\n\r\n")))
      == OkResponse()
  {
    assert IsAscii("GET / HTTP/1.1\r\n");
    assert "GET" + " " + "/" + " " + "HTTP/1.1" + "\r\n" == "GET / HTTP/1.1\r\n";
    ReplyToAsciiRequest("GET", "/", "HTTP/1.1", "\r\n", "Host: x\r\n\r\n");
  }

  /** A request line holding only a method gets the 400 response. */
  lemma ReplyToMethodOnly()
    ensures Reply(Arrived(Encode("GET\r\n\r\n"))) == BadRequestResponse()
  {
    var line := "GET\r";
    assert "GET\r\n\r\n" == (line + "\n") + "\r\n";
    EncodeAppend(line + "\n", "\r\n");
    assert IsAscii(line + "\n");
    EncodeAscii(line + "\n");
    assert line == "GET" + ['\r'];
    SplitWhitespaceTrailing("GET", '\r');
    SplitWhitespaceToken("GET");
    ReplyToFirstLine(line, Encode("\r\n"));
  }

  /** `GET / ` with no line terminator is accepted, because of the NUL padding. */
  lemma ReplyToUnterminatedGet()
    ensures Reply(Arrived(Encode("GET / "))) == OkResponse()
  {
    assert IsAscii("GET / ");
    EncodeAscii("GET / ");
    assert "GET / " == "GET" + " " + "/" + " ";
    ReplyToPaddedTwoParts("GET", "/");
  }
}
