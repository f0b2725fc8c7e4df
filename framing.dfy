/** The socket side of server.js: the protocol sniff on each chunk of data, the
    TCP handler that strips the `AJX` marker and frames the JSON answer, the
    chunked sender, and the HTTP handler. Parsing and rendering HTTP are outside
    the model: the request body and the renderer are parameters. */
module Framing {
  import opened JsString
  import Syntax
  import Parser
  import Dispatcher

  /** Where a chunk of data goes. */
  datatype Route = Http | Ajx | Ignored

  const EndOfResponse := "END_OF_RESPONSE"

  /** The marker a TCP client puts in front of its command. */
  const Marker := "AJX\r\n\r\n"

  /** The sniff: any occurrence of `HTTP` wins; otherwise any occurrence of `AJX`;
      otherwise the data is dropped. */
  function Sniff(data: string): (r: Route)
    ensures r == Http <==> Contains(data, "HTTP")
    ensures r == Ajx <==> !Contains(data, "HTTP") && Contains(data, "AJX")
    ensures r == Ignored <==> !Contains(data, "HTTP") && !Contains(data, "AJX")
  {
    if Contains(data, "HTTP") then Http
    else if Contains(data, "AJX") then Ajx
    else Ignored
  }

  // ---------------------------------------------------------------- chunks

  /** The pieces `response.slice(i, i + size)` for `i` from `from` in steps of `size`. */
  function ChunksFrom(response: string, from: nat, size: nat): (cs: seq<string>)
    requires size > 0
    decreases |response| - from
  {
    if from >= |response| then [] else [Slice(response, from, from + size)] + ChunksFrom(response, from + size, size)
  }

  function Concat(pieces: seq<string>): string {
    if pieces == [] then "" else pieces[0] + Concat(pieces[1..])
  }

  /** Put together, the pieces from `from` on are the rest of the response. */
  lemma {:induction false} ChunksFromJoin(response: string, from: nat, size: nat)
    requires size > 0 && from <= |response|
    ensures Concat(ChunksFrom(response, from, size)) == response[from..]
    decreases |response| - from
  {
    if from < |response| {
      var cs := ChunksFrom(response, from, size);
      if from + size <= |response| {
        ChunksFromJoin(response, from + size, size);
        assert cs[1..] == ChunksFrom(response, from + size, size);
        assert response[from..] == response[from..from + size] + response[from + size..];
      } else {
        assert ChunksFrom(response, from + size, size) == [];
        assert cs == [response[from..]];
      }
    }
  }

  /** Every piece is non-empty and at most `size` long; all but the last are exactly `size` long. */
  predicate PiecesFit(cs: seq<string>, size: nat) {
    forall k :: 0 <= k < |cs| ==> 0 < |cs[k]| <= size && (k + 1 < |cs| ==> |cs[k]| == size)
  }

  lemma {:induction false} ChunksFromBounded(response: string, from: nat, size: nat)
    requires size > 0 && from <= |response|
    ensures PiecesFit(ChunksFrom(response, from, size), size)
    decreases |response| - from
  {
    if from < |response| {
      var cs := ChunksFrom(response, from, size);
      if from + size <= |response| {
        ChunksFromBounded(response, from + size, size);
        var rest := ChunksFrom(response, from + size, size);
        assert cs == [cs[0]] + rest && |cs[0]| == size;
        forall k | 1 <= k < |cs|
          ensures 0 < |cs[k]| <= size && (k + 1 < |cs| ==> |cs[k]| == size)
        {
          assert cs[k] == rest[k - 1];
        }
      } else {
        assert ChunksFrom(response, from + size, size) == [];
        assert cs == [response[from..]];
      }
    }
  }

  /** There are `ceil(|response| / size)` pieces. */
  lemma {:induction false} ChunksFromCount(response: string, from: nat, size: nat)
    requires size > 0 && from <= |response|
    ensures |ChunksFrom(response, from, size)| == (|response| - from + size - 1) / size
    decreases |response| - from
  {
    var n := |response| - from;
    if from < |response| {
      if from + size <= |response| {
        ChunksFromCount(response, from + size, size);
        DivStep(n - size + size - 1, size);
      } else {
        assert ChunksFrom(response, from + size, size) == [];
        DivOne(n + size - 1, size);
      }
    } else {
      DivZero(size - 1, size);
    }
  }

  lemma DivStep(a: nat, size: nat)
    requires size > 0
    ensures (a + size) / size == a / size + 1
  {
    var q, r := a / size, a % size;
    assert a + size == (q + 1) * size + r;
    DivUnique(a + size, size, q + 1, r);
  }

  lemma DivOne(a: nat, size: nat)
    requires size <= a < 2 * size
    ensures a / size == 1
  {
    DivUnique(a, size, 1, a - size);
  }

  lemma DivZero(a: nat, size: nat)
    requires a < size
    ensures a / size == 0
  {
    DivUnique(a, size, 0, a);
  }

  /** Division is the unique quotient with a remainder below the divisor. */
  lemma DivUnique(a: nat, size: nat, q: nat, r: nat)
    requires size > 0 && r < size && a == q * size + r
    ensures a / size == q
  {
    var q', r' := a / size, a % size;
    if q' < q {
      var d := q - q';
      assert q * size == q' * size + d * size;
      MulAtLeast(d, size);
    } else if q' > q {
      var d := q' - q;
      assert q' * size == q * size + d * size;
      MulAtLeast(d, size);
    }
  }

  lemma {:induction false} MulAtLeast(k: nat, size: nat)
    requires k >= 1
    ensures k * size >= size
  {
    if k > 1 {
      MulAtLeast(k - 1, size);
      assert k * size == (k - 1) * size + size;
    }
  }

  /** Where the socket's writes go, in order. Flushing and back-pressure are not modelled. */
  class Socket {
    var writes: seq<string>

    constructor()
      ensures writes == []
    {
      writes := [];
    }

    method Write(chunk: string)
      modifies this
      ensures writes == old(writes) + [chunk]
    {
      writes := writes + [chunk];
    }
  }

  /** `sendLargeResponse`: the response in pieces of `size`, then the end mark. */
  method SendLargeResponse(socket: Socket, response: string, size: nat)
    requires size > 0
    modifies socket
    ensures socket.writes == old(socket.writes) + ChunksFrom(response, 0, size) + [EndOfResponse]
  {
    var i := 0;
    while i < |response|
      invariant socket.writes + ChunksFrom(response, i, size) == old(socket.writes) + ChunksFrom(response, 0, size)
      decreases |response| - i
    {
      var chunk := Slice(response, i, i + size);
      socket.Write(chunk);
      assert ChunksFrom(response, i, size) == [chunk] + ChunksFrom(response, i + size, size);
      i := i + size;
    }
    socket.Write(EndOfResponse);
  }

  // ---------------------------------------------------------------- JSON

  const Backspace: char := 8 as char
  const FormFeed: char := 12 as char

  /** The hexadecimal digit of a value below 16, lower case as `JSON.stringify` writes it. */
  function HexDigit(v: nat): (c: char)
    requires v < 16
    ensures IsHexDigit(c)
  {
    if v < 10 then (48 + v) as char else (87 + v) as char
  }

  function HexValue(c: char): nat {
    if '0' <= c <= '9' then c as nat - 48
    else if 'a' <= c <= 'f' then c as nat - 87
    else if 'A' <= c <= 'F' then c as nat - 55
    else 0
  }

  /** How `JSON.stringify` writes one character inside a string. */
  function EscapeChar(c: char): (t: string)
    ensures t != []
  {
    if c == '"' then "\\\""
    else if c == '\\' then "\\\\"
    else if c == Backspace then "\\b"
    else if c == FormFeed then "\\f"
    else if c == '\n' then "\\n"
    else if c == '\r' then "\\r"
    else if c == '\t' then "\\t"
    else if c < ' ' then "\\u00" + [HexDigit(c as nat / 16), HexDigit(c as nat % 16)]
    else [c]
  }

  function Escape(s: string): string {
    if s == [] then "" else EscapeChar(s[0]) + Escape(s[1..])
  }

  /** `JSON.stringify` of a string. */
  function JsonQuote(s: string): (t: string)
    ensures |t| >= |s| + 2 && t[0] == '"' && t[|t| - 1] == '"'
  {
    EscapeLength(s);
    "\"" + Escape(s) + "\""
  }

  lemma {:induction false} EscapeLength(s: string)
    ensures |Escape(s)| >= |s|
  {
    if s != [] {
      EscapeLength(s[1..]);
    }
  }

  /** Reading an escaped text back, as `JSON.parse` does for the escapes above. */
  function Unescape(t: string): string
    decreases |t|
  {
    if |t| >= 2 && t[0] == '\\' then
      if t[1] == 'u' && |t| >= 6 then [(HexValue(t[4]) * 16 + HexValue(t[5])) as char] + Unescape(t[6..])
      else [UnescapeShort(t[1])] + Unescape(t[2..])
    else if t == [] then []
    else [t[0]] + Unescape(t[1..])
  }

  function UnescapeShort(c: char): char {
    if c == 'b' then Backspace
    else if c == 'f' then FormFeed
    else if c == 'n' then '\n'
    else if c == 'r' then '\r'
    else if c == 't' then '\t'
    else c
  }

  lemma HexRoundTrip(v: nat)
    requires v < 16
    ensures HexValue(HexDigit(v)) == v
  {
  }

  /** One escaped character reads back as that character. */
  lemma UnescapeChar(c: char, rest: string)
    ensures Unescape(EscapeChar(c) + rest) == [c] + Unescape(rest)
  {
    var t := EscapeChar(c) + rest;
    if c < ' ' && c != Backspace && c != FormFeed && c != '\n' && c != '\r' && c != '\t' {
      HexRoundTrip(c as nat / 16);
      HexRoundTrip(c as nat % 16);
      assert t[0] == '\\' && t[1] == 'u' && t[6..] == rest;
      assert (HexValue(t[4]) * 16 + HexValue(t[5])) == c as nat;
    } else if c == '"' || c == '\\' || c == Backspace || c == FormFeed || c == '\n' || c == '\r' || c == '\t' {
      assert t[0] == '\\' && t[2..] == rest;
    } else {
      assert t[0] == c && t[1..] == rest;
    }
  }

  /** Reading an escaped text back gives the text: the escaping loses nothing. */
  lemma {:induction false} UnescapeEscape(s: string)
    ensures Unescape(Escape(s)) == s
  {
    if s != [] {
      UnescapeChar(s[0], Escape(s[1..]));
      UnescapeEscape(s[1..]);
      assert s == [s[0]] + s[1..];
    }
  }

  /** `JSON.stringify({ error: message })`. */
  function ErrorJson(message: string): (t: string)
    ensures |t| > |message|
  {
    "{\"error\":" + JsonQuote(message) + "}"
  }

  // ---------------------------------------------------------------- TCP

  /** `data.toString().trim()`, then every marker removed. */
  function TcpCommand(data: string): (command: string)
    ensures |command| <= |data|
  {
    RemoveAll(Trim(data), Marker)
  }

  /** A client's frame, the marker and then a command without one, reads back
      as that command. */
  lemma MarkedCommand(data: string, command: string)
    requires Trim(data) == Marker + command && IndexOf(command, Marker) == -1
    ensures TcpCommand(data) == command
  {
    var framed := Marker + command;
    assert LiteralAt(framed, 0, Marker);
    assert framed[|Marker|..] == command;
    RemoveAllAbsent(command, Marker);
  }

  /** The JSON text a result is sent as. A throw is sent as `{"error": ...}`;
      so are undefined and null, since reading their `length` throws first. */
  function ResponseText(result: Dispatcher.Result): string {
    match result
    case Threw(m) => ErrorJson(m)
    case Returned(Undefined) => ErrorJson(Parser.CannotRead("undefined", "length"))
    case Returned(Null) => ErrorJson(Parser.CannotRead("null", "length"))
    case Returned(Text(t)) => JsonQuote(t)
    case Returned(Structured(json, _)) => json
  }

  /** Whether a result goes out in one write. Errors never do. As written, a
      value does when its own `length` is at most the chunk size (a string's
      characters, an array's elements); corrected, when its JSON text is. */
  predicate SentWhole(result: Dispatcher.Result, size: nat, reading: Syntax.Reading) {
    match result
    case Threw(_) => false
    case Returned(Undefined) => false
    case Returned(Null) => false
    case Returned(Text(t)) =>
      if reading == Syntax.AsWritten then |t| <= size else |JsonQuote(t)| <= size
    case Returned(Structured(json, length)) =>
      if reading == Syntax.AsWritten then length.Some? && length.value <= size else |json| <= size
  }

  /** What `handleTCP` writes for a result: the JSON text in one write or in
      pieces, then the end mark. Whatever the reading, the writes before the
      end mark together are the JSON text. */
  function TcpWrites(result: Dispatcher.Result, size: nat, reading: Syntax.Reading): (ws: seq<string>)
    requires size > 0
    ensures ws != [] && ws[|ws| - 1] == EndOfResponse
    ensures Concat(ws[..|ws| - 1]) == ResponseText(result)
  {
    var text := ResponseText(result);
    var ws := if SentWhole(result, size, reading) then [text, EndOfResponse] else ChunksFrom(text, 0, size) + [EndOfResponse];
    FramedCarries(text, size, ws);
    ws
  }

  /** A text sent whole or in pieces, then the end mark, arrives whole. */
  lemma FramedCarries(text: string, size: nat, ws: seq<string>)
    requires size > 0
    requires ws == [text, EndOfResponse] || ws == ChunksFrom(text, 0, size) + [EndOfResponse]
    ensures Concat(ws[..|ws| - 1]) == text
  {
    if ws == [text, EndOfResponse] {
      assert ws[..1] == [text];
      assert Concat([text]) == text + Concat([]);
    } else {
      ChunksFromJoin(text, 0, size);
      assert ws[..|ws| - 1] == ChunksFrom(text, 0, size);
    }
  }

  /** Corrected, the writes before the end mark are the response text in pieces
      of at most the chunk size. */
  lemma CorrectedWritesFit(result: Dispatcher.Result, size: nat)
    requires size > 0
    ensures var ws := TcpWrites(result, size, Syntax.Corrected);
            Concat(ws[..|ws| - 1]) == ResponseText(result) &&
            forall k :: 0 <= k < |ws| - 1 ==> |ws[k]| <= size
  {
    CorrectedWrites(result, size);
    var ws := TcpWrites(result, size, Syntax.Corrected);
    if ws != [ResponseText(result), EndOfResponse] {
      ChunksFromBounded(ResponseText(result), 0, size);
      assert ws[..|ws| - 1] == ChunksFrom(ResponseText(result), 0, size);
    }
  }

  /** As written, a four-character string with a chunk size of four goes out in
      one write of six characters, over the chunk size. */
  lemma AsWrittenWriteOverflows()
    ensures var ws := TcpWrites(Dispatcher.Returned(Dispatcher.Text("abcd")), 4, Syntax.AsWritten);
            ws == [JsonQuote("abcd"), EndOfResponse] && |ws[0]| == 6
  {
    assert Escape("abcd") == "abcd" by {
      assert Escape("d") == "d";
      assert Escape("cd") == "cd";
      assert Escape("bcd") == "bcd";
    }
  }

  /** Corrected, a value result whose JSON text fits goes out in one write;
      everything else goes out in pieces. */
  lemma CorrectedWrites(result: Dispatcher.Result, size: nat)
    requires size > 0
    ensures var text := ResponseText(result);
            TcpWrites(result, size, Syntax.Corrected) ==
              if result.Returned? && !result.payload.Undefined? && !result.payload.Null? && |text| <= size
              then [text, EndOfResponse] else ChunksFrom(text, 0, size) + [EndOfResponse]
  {
  }

  /** The framing half of `handleTCP`: the result written as JSON, in one piece
      when it is sent whole, else through `sendLargeResponse`. */
  method Respond(socket: Socket, result: Dispatcher.Result, size: nat, reading: Syntax.Reading)
    requires size > 0
    modifies socket
    ensures socket.writes == old(socket.writes) + TcpWrites(result, size, reading)
  {
    var text := ResponseText(result);
    if SentWhole(result, size, reading) {
      socket.Write(text);
      socket.Write(EndOfResponse);
    } else {
      SendLargeResponse(socket, text, size);
    }
  }

  /** `handleTCP`: the command, trimmed and stripped of markers, runs against
      the gateway and its result is framed. */
  method HandleTcp(socket: Socket, gateway: Dispatcher.Gateway, data: string, answer: Dispatcher.Answer, size: nat,
                   reading: Syntax.Reading)
    requires size > 0
    modifies socket, gateway
    ensures var o := Dispatcher.Execute(old(gateway.session), TcpCommand(data), answer, reading);
            gateway.session == o.session && gateway.calls == old(gateway.calls) + Dispatcher.Logged(o.call) &&
            socket.writes == old(socket.writes) + TcpWrites(o.result, size, reading)
  {
    var command := Trim(data);
    command := RemoveAll(command, Marker);
    var result := gateway.ExecuteCommand(command, answer, reading);
    Respond(socket, result, size, reading);
  }

  // ---------------------------------------------------------------- HTTP

  /** `handleHTTP`: the request body runs against the gateway and the rendered
      response is written; a thrown result is not caught, so nothing is written. */
  method HandleHttp(socket: Socket, gateway: Dispatcher.Gateway, body: string, answer: Dispatcher.Answer,
                    render: Dispatcher.Payload -> string, reading: Syntax.Reading)
    modifies socket, gateway
    ensures var o := Dispatcher.Execute(old(gateway.session), body, answer, reading);
            gateway.session == o.session && gateway.calls == old(gateway.calls) + Dispatcher.Logged(o.call) &&
            socket.writes == old(socket.writes) + if o.result.Returned? then [render(o.result.payload)] else []
  {
    var result := gateway.ExecuteCommand(body, answer, reading);
    if result.Returned? {
      socket.Write(render(result.payload));
    }
  }

  /** One `data` event: sniffed, then handed to the HTTP or the TCP handler. */
  method HandleData(socket: Socket, gateway: Dispatcher.Gateway, data: string, body: string,
                    answer: Dispatcher.Answer, render: Dispatcher.Payload -> string, size: nat, reading: Syntax.Reading)
    requires size > 0
    modifies socket, gateway
    ensures Sniff(data) == Ignored ==>
              socket.writes == old(socket.writes) && gateway.session == old(gateway.session) && gateway.calls == old(gateway.calls)
    ensures Sniff(data) == Ajx ==>
              var o := Dispatcher.Execute(old(gateway.session), TcpCommand(data), answer, reading);
              gateway.session == o.session && gateway.calls == old(gateway.calls) + Dispatcher.Logged(o.call) &&
              socket.writes == old(socket.writes) + TcpWrites(o.result, size, reading)
    ensures Sniff(data) == Http ==>
              var o := Dispatcher.Execute(old(gateway.session), body, answer, reading);
              gateway.session == o.session && gateway.calls == old(gateway.calls) + Dispatcher.Logged(o.call) &&
              socket.writes == old(socket.writes) + if o.result.Returned? then [render(o.result.payload)] else []
  {
    var route := Sniff(data);
    if route == Http {
      HandleHttp(socket, gateway, body, answer, render, reading);
    } else if route == Ajx {
      HandleTcp(socket, gateway, data, answer, size, reading);
    }
  }
}
