# hyperport request handling, in Dafny

hyperport is a small HTTP server: each accepted connection is read once into a 1024-byte
buffer, the buffer is decoded as UTF-8 text, the request line is parsed, and a fixed HTML
page is written back, `200 OK` for a request line of at least three parts and
`400 Bad Request` otherwise. This project models that per-connection core of `src/main.rs`:

- `Utf8`: the bytes of a Rust string (`as_bytes`) and `String::from_utf8_lossy`, which
  replaces each maximal invalid subsequence with U+FFFD, as the standard library's UTF-8
  validation table defines it.
- `Request`: `parse_request`, over `str::lines` (split at `\n`, one `\r` dropped before
  it, no empty last line) and `str::split_whitespace` (Unicode `White_Space`).
- `Response`: the exact bytes `send_ok_response` and `send_bad_request_response` format,
  and a reader for an HTTP/1.1 message head that shows what a client gets from them.
- `Server`: `handle_connection` over a `Connection` object, a stream with one read outcome
  and the bytes written to it. The method zero-fills a 1024-byte array, reads into it,
  decodes the whole array and dispatches. It is proved against the function `Reply`.

The model follows the code as written:

- a request line needs three parts, but only the first two are used;
- lines are split at a bare `\n`;
- there is exactly one read, and its byte count is ignored;
- the whole buffer is decoded, NUL padding included.

That last point makes the padding part of the request line when no line feed arrived:
`GET / ` followed by nothing is accepted, and `GET /` is refused.

## Model

| member | source | states |
|---|---|---|
| Utf8.EncodeChar | src/main.rs:82 | a scalar value takes 1 to 4 bytes, one byte exactly for ASCII, and that byte is the code point |
| Utf8.Encode | src/main.rs:82 | a string's bytes are at least as many as its characters; EncodeAppend and DecodeEncode give their meaning |
| Utf8.EncodeAppend | src/main.rs:82 | the bytes of a concatenation are the concatenation of the bytes |
| Utf8.DecodeLossy | src/main.rs:28 | lossy decoding yields at most one character per byte, and nothing only for no bytes |
| Utf8.DecodeStep | src/main.rs:28 | one step of lossy decoding consumes between one byte and all of them; DecodeStepEncodeChar shows it reads back each encoded scalar value |
| Utf8.DecodeStepEncodeChar | src/main.rs:28 | the decoder consumes the full encoding of a scalar value and returns it, whatever follows |
| Utf8.DecodeEncode | src/main.rs:28 | decoding well-formed bytes followed by anything yields that text first |
| Utf8.DecodeEncodeRoundTrip | src/main.rs:28 | `from_utf8_lossy` of a string's own bytes gives back the string |
| Utf8.DecodeZeros | src/main.rs:24-28 | zero bytes decode to as many NUL characters |
| Utf8.EncodeAscii | src/main.rs:82 | ASCII text is its own byte encoding |
| Request.LineEnd | src/main.rs:47 | the first line ends at the first line feed, or at the end of the text |
| Request.IsWhitespace | src/main.rs:53 | Unicode `White_Space`, the set `split_whitespace` splits at; SplitWhitespaceSeparator states its effect |
| Request.StripCarriageReturn | src/main.rs:47 | a line loses at most one trailing `\r` |
| Request.Lines | src/main.rs:47 | the empty text has no lines, any other text has at least one, and no line contains a line feed |
| Request.LinesCrlfStep | src/main.rs:47 | a `\r\n`-terminated line comes off the front as that line |
| Request.LinesCrlfTerminated | src/main.rs:47 | lines written with `\r\n` terminators are split back into exactly those lines |
| Request.TokenLength | src/main.rs:53 | a part runs up to the first whitespace character |
| Request.SplitWhitespace | src/main.rs:53 | every part is non-empty and free of whitespace |
| Request.SplitWhitespaceSeparator | src/main.rs:53 | a whitespace character separates the parts before it from the parts after it |
| Request.SplitUnwords | src/main.rs:53 | whitespace-free parts joined by spaces split back into exactly those parts |
| Request.ParseRequest | src/main.rs:46-63 | an error is "Empty request" or "Invalid request line"; a success gives two non-empty whitespace-free strings |
| Request.ParseRequestSpec | src/main.rs:46-63 | "Empty request" exactly for the empty text; otherwise success exactly when the first line has three or more parts, giving the first two |
| Request.ParseRequestFirstLine | src/main.rs:47-62 | for a line ended by `\n`, fewer than three parts is "Invalid request line", else the first two parts |
| Request.ParseRequestFirstLineOnly | src/main.rs:47-52 | what follows the first line feed never changes the result |
| Request.ParseRequestSingleLine | src/main.rs:47-62 | a text without a line feed is decided on its own parts |
| Request.ParseRequestCarriageReturn | src/main.rs:47-53 | a `\r\n` terminator parses as a bare `\n` does |
| Request.ParseRequestLine | src/main.rs:46-62 | three or more parts joined by spaces, then `\r\n` or `\n` and anything, give the first two parts |
| Request.RequestRoundTrip | src/main.rs:46-62 | `method SP path SP version` then `\r\n` or `\n` and anything parses to (method, path) |
| Response.Decimal | src/main.rs:77-78 | a length is written as a non-empty run of decimal digits |
| Response.DecimalRoundTrip | src/main.rs:77-78 | the digits written read back as the number written |
| Response.FormatResponse | src/main.rs:76-80 | the `format!` of both senders; ResponseReadBack and ResponseContentLength state what a reader recovers from it |
| Response.OkResponse | src/main.rs:82 | the bytes `send_ok_response` writes; OkResponseMessage states their content |
| Response.BadRequestResponse | src/main.rs:104 | the bytes `send_bad_request_response` writes; BadRequestResponseMessage states their content |
| Response.FormatResponseBytes | src/main.rs:76-82 | the bytes are four CRLF-joined head lines, an empty line, then the body's bytes |
| Response.ResponseReadBack | src/main.rs:76-80 | a response reads back as its status line, then `Content-Type`, `Connection` and `Content-Length` in order, then exactly the body after the first empty line |
| Response.ResponseContentLength | src/main.rs:76-80 | `Content-Length` equals the number of bytes after the empty line |
| Response.OkBodyText | src/main.rs:66-74 | the hello-world page is 118 ASCII characters |
| Response.BadRequestBodyText | src/main.rs:88-96 | the bad-request page is 120 ASCII characters |
| Response.OkResponseMessage | src/main.rs:65-80 | the 200 response is `HTTP/1.1 200 OK`, the three headers with `Content-Length: 118`, then the 118-byte page |
| Response.BadRequestResponseMessage | src/main.rs:87-102 | the 400 response is `HTTP/1.1 400 Bad Request`, the three headers with `Content-Length: 120`, then the 120-byte page |
| Response.ResponsesDiffer | src/main.rs:76-102 | the two responses are different byte strings |
| Server.ReadCount | src/main.rs:26 | a read moves no more bytes than were sent or than fit, and stops only at one of the two |
| Server.Received | src/main.rs:24-26 | after a read the buffer still holds 1024 bytes |
| Server.Reply | src/main.rs:26-38 | the bytes `handle_connection` writes for a read outcome; ReplyToEmptyRead, ReplyToFirstLine, ReplyToRequestLine and ReplyToPaddedTwoParts state its outcomes |
| Server.Connection.Read | src/main.rs:26 | an error leaves the buffer alone; a success copies as many leading bytes as fit, returns their number and leaves the rest unchanged |
| Server.Connection.WriteAll | src/main.rs:82 | the bytes written follow what was written before |
| Server.SendOkResponse | src/main.rs:65-85 | the 200 response's bytes are appended to the stream |
| Server.SendBadRequestResponse | src/main.rs:87-107 | the 400 response's bytes are appended to the stream |
| Server.HandleConnection | src/main.rs:23-44 | the stream gains exactly `Reply` of its read outcome: nothing on a read error, else the 200 or the 400 response as the zero-padded buffer parses |
| Server.DecodeReceived | src/main.rs:24-28 | text whose bytes fit in the buffer comes first in the decoded buffer |
| Server.DecodePadded | src/main.rs:24-28 | text that leaves room decodes as itself followed by NULs up to the buffer size |
| Server.EmptyRequestUnreachable | src/main.rs:28-30 | the decoded buffer is never empty, so "Empty request" is never the reason for a 400 |
| Server.ReplyToEmptyRead | src/main.rs:24-36 | a peer that sends nothing gets the 400 response |
| Server.ReplyToFirstLine | src/main.rs:23-38 | a first line that ends in `\n` within the buffer gets the 200 response exactly when it has three or more parts |
| Server.ReplyToRequestLine | src/main.rs:23-34 | `method SP path SP version` then `\r\n` or `\n` within the buffer gets the 200 response, whatever bytes follow |
| Server.ReplyToAsciiRequest | src/main.rs:23-34 | an ASCII request line that fits in the buffer gets the 200 response |
| Server.ReplyToPaddedTwoParts | src/main.rs:24-34 | two parts and a trailing space with no line feed get the 200 response, the NUL padding being the third part |
| Server.ReplyToPaddedPath | src/main.rs:24-38 | two parts with no trailing space and no line feed get the 400 response |
| Server.ReplyToGetRoot | src/main.rs:23-34 | `GET / HTTP/1.1`, CRLF and a `Host` header get the 200 response |
| Server.ReplyToMethodOnly | src/main.rs:23-38 | `GET`, CRLF, CRLF gets the 400 response |
| Server.ReplyToUnterminatedGet | src/main.rs:24-34 | `GET / ` with no terminator gets the 200 response |

## Left out

- `main` (src/main.rs:5-21): binding the listener, the accept loop and the thread per connection are not modelled. Each connection is handled independently and shares nothing.
- Logging with `println!` and `eprintln!` (src/main.rs:7, 17, 32, 41, 83, 105) is not modelled. The parsed method and path are only printed, so the model keeps only whether parsing succeeded.
- Server.Connection.WriteAll: a failed or interrupted `write_all` is not modelled. The source only logs that error, so the model has every write succeed.
- Server.Connection.Read: a real `read` may return fewer bytes than were sent and fit. The model delivers as many as fit, so a request split over several TCP segments is not captured.
- Real sockets and the error values of `std::io` are not modelled. A read outcome is a value of the connection, and an I/O error is a single constant.
