/**
 * Both ends of the opening handshake: for every request a client can build, what the server reads
 * back, what it answers, and what the client makes of the answer, over streams that deliver text in
 * arbitrary pieces.
 */
module HandshakeAgreement {
  import opened Bytes
  import opened Boundary
  import opened HttpText
  import opened Headers
  import opened Handshake

  /** Accept values have no line ends and do not begin with white space. */
  ghost predicate GoodHash(accept: string -> string)
  {
    forall k :: Clean(accept(k)) && TrimStart(accept(k)) == accept(k)
  }

  function Request(host: string, port: string, path: string, key: string, deflate: bool): (s: string)
  {
    Text(RequestLine(path), RequestFields(host, port, key, ExtensionsFor(deflate)))
  }

  function Response(acceptKey: string, deflate: bool): (s: string)
  {
    Text(STATUS, ResponseFields(acceptKey, ExtensionsFor(deflate)))
  }

  /**
   * The server parses the request back as sent and accepts it, whatever it has read beyond the request;
   * it answers for the key without leading white space and keeps the flag the client asked for.
   */
  lemma ServerAccepts(accept: string -> string, host: string, port: string, path: string, key: string, deflate: bool,
                      extra: string)
    requires CleanFields(host, port, path, key)
    ensures var raw := Request(host, port, path, key, deflate) + extra;
            && Lines(raw)[0] == RequestLine(path)
            && Parsed(raw) == Store(RequestFields(host, port, key, ExtensionsFor(deflate)), map[], TrimStart)
            && ServerDecision(accept, Parsed(raw)) == Some((Response(accept(TrimStart(key)), deflate), deflate))
  {
    hide Text, Store, RequestFields, Lines, Collect, TrimStart, ValidRequest, OffersDeflate, ResponseFields,
         RequestLine;
    RequestPlain(host, port, path, key, deflate);
    ParsesBack(RequestLine(path), RequestFields(host, port, key, ExtensionsFor(deflate)), extra);
    OfferStripped();
    ValuesStripped();
    RequestLookup(host, port, key, deflate, TrimStart);
  }

  /** The C++ server does the same; it answers for the key without leading spaces. */
  lemma CppServerAccepts(accept: string -> string, host: string, port: string, path: string, key: string,
                         deflate: bool, extra: string)
    requires CleanFields(host, port, path, key)
    ensures var ls := GetLines(Request(host, port, path, key, deflate) + extra);
            && ls != [] && ChopCr(ls[0]) == RequestLine(path)
            && ServerDecision(accept, CppCollect(ls[1..], map[])) ==
               Some((Response(accept(TrimSpaces(key)), deflate), deflate))
  {
    hide Text, Store, RequestFields, GetLines, CppCollect, TrimSpaces, ValidRequest, OffersDeflate, ResponseFields,
         RequestLine;
    RequestPlain(host, port, path, key, deflate);
    CppParsesBack(RequestLine(path), RequestFields(host, port, key, ExtensionsFor(deflate)), extra);
    OfferStripped();
    ValuesStripped();
    RequestLookup(host, port, key, deflate, TrimSpaces);
  }

  lemma StartsSwitching(acceptKey: string, deflate: bool, extra: string)
    ensures SWITCHING <= Response(acceptKey, deflate) + extra
  {
    var ls := [STATUS] + FieldLines(ResponseFields(acceptKey, ExtensionsFor(deflate)));
    BlockCons(ls, extra);
    hide *;
    assert SWITCHING <= STATUS;
  }

  /** The client keeps its flag on an answer with the accept value it expects, and refuses any other. */
  lemma ClientAccepts(accept: string -> string, key: string, answer: string, deflate: bool, extra: string)
    requires Clean(answer) && TrimStart(answer) == answer
    ensures ClientDecision(accept, key, deflate, Response(answer, deflate) + extra) ==
            if answer == accept(key) then Some(deflate) else None
  {
    ResponsePlain(answer, deflate);
    ParsesBack(STATUS, ResponseFields(answer, ExtensionsFor(deflate)), extra);
    ResponseLookup(answer, deflate);
    StartsSwitching(answer, deflate, extra);
    hide Text, Store, ResponseFields, Lines, Collect, TrimStart, OffersDeflate;
  }

  /**
   * Agreement: both ends keep the same flag, the one the client asked for. Exactly: the server always
   * accepts, and the client accepts its answer if and only if the key and the key without its leading
   * white space have the same accept value.
   */
  lemma AgreementExact(accept: string -> string, host: string, port: string, path: string, key: string, deflate: bool,
                       extra: string, more: string)
    requires GoodHash(accept) && CleanFields(host, port, path, key)
    ensures var server := ServerDecision(accept, Parsed(Request(host, port, path, key, deflate) + extra));
            && server.Some? && server.value.1 == deflate
            && ClientDecision(accept, key, deflate, server.value.0 + more)
               == if accept(TrimStart(key)) == accept(key) then Some(deflate) else None
  {
    ServerAccepts(accept, host, port, path, key, deflate, extra);
    ClientAccepts(accept, key, accept(TrimStart(key)), deflate, more);
  }

  /**
   * A key that fails: the server accepts the request with key " k", answers for "k", and the client
   * refuses the answer, if the two keys have different accept values.
   */
  lemma SpacedKeyRefused(accept: string -> string, host: string, port: string, path: string, deflate: bool)
    requires GoodHash(accept) && Clean(host) && Clean(port) && Clean(path) && accept(" k") != accept("k")
    ensures var server := ServerDecision(accept, Parsed(Request(host, port, path, " k", deflate) + ""));
            server.Some? && ClientDecision(accept, " k", deflate, server.value.0 + "") == None
  {
    var key := " k";
    assert key[1..] == "k" && TrimStart("k") == "k";
    assert TrimStart(key) == "k";
    AgreementExact(accept, host, port, path, key, deflate, "", "");
  }

  /** A key that begins with white space is not the key the server answers for. */
  lemma KeyReadBack(key: string)
    ensures TrimStart(key) == key <==> key == "" || !IsSpace(key[0])
  {
  }

  // ---- Over a stream -------------------------------------------------------------------

  lemma FirstEndPrefix(s: string, p: string, delim: string)
    requires p <= s
    ensures var n := FirstEnd(s, delim);
            FirstEnd(p, delim) == if n.Some? && n.value <= |p| then n else None
  {
    var n := FirstEnd(s, delim);
    forall k | 0 <= k <= |p| ensures p[..k] == s[..k] {}
    if n.Some? && n.value <= |p| {
      FirstEndIs(p, delim, n.value);
    } else {
      FirstEndNone(p, delim);
    }
  }

  class TextStream {
    var input: string
    var output: string

    constructor (input: string)
      ensures this.input == input && output == ""
    {
      this.input, output := input, "";
    }

    /** Any non-empty piece of at most `max` characters; empty at the end of the stream. */
    method Read(max: nat) returns (piece: string)
      requires max > 0
      modifies this`input
      ensures |piece| <= max && old(input) == piece + input && (piece == "" <==> old(input) == "")
    {
      if input == "" {
        return "";
      }
      var n :| 1 <= n <= max && n <= |input|;
      piece, input := input[..n], input[n..];
    }

    method WriteAll(s: string)
      modifies this`output
      ensures output == old(output) + s
    {
      output := output + s;
    }

    /**
     * `read_until_headers_end`: a text that contains the first blank line of the stream and at most a
     * read's worth beyond it; it gives up only if there is none within the limit.
     */
    method ReadUntilHeadersEnd() returns (r: Option<string>)
      modifies this`input
      ensures r.Some? ==> old(input) == r.value + input
      ensures var n := FirstEnd(old(input), BLANK);
              && (r.Some? ==> n.Some? && n.value <= |r.value| < n.value + 1024)
              && (n.Some? && n.value <= 64 * 1024 ==> r.Some?)
    {
      var buf := "";
      ghost var s := input;
      FirstEndPrefix(s, "", BLANK);
      while true
        invariant s == buf + input && FirstEnd(buf, BLANK) == None
        decreases |input|
      {
        ghost var before := buf;
        var piece := Read(1024);
        if piece == "" {
          assert buf == s;
          return None;
        }
        buf := buf + piece;
        FirstEndPrefix(s, before, BLANK);
        FirstEndPrefix(s, buf, BLANK);
        if FirstEnd(buf, BLANK).Some? {
          return Some(buf);
        }
        if |buf| > 64 * 1024 {
          return None;
        }
      }
    }
  }

  /** What a stream of this text lets `read_until_headers_end` return. */
  ghost predicate MayRead(input: string, raw: Option<string>, left: string)
  {
    var n := FirstEnd(input, BLANK);
    match raw
    case Some(text) => n.Some? && n.value <= |text| < n.value + 1024 && input == text + left
    case None => n.None? || n.value > 64 * 1024
  }

  /**
   * `server_upgrade`: reads a request, answers it, and keeps the flag; `None` when it reports an error,
   * which includes that no blank line came within the limit. `raw` is what it read.
   */
  method ServerUpgrade(accept: string -> string, stream: TextStream)
    returns (flag: Option<bool>, ghost raw: Option<string>)
    modifies stream
    ensures MayRead(old(stream.input), raw, stream.input)
    ensures var decision := if raw.Some? then ServerDecision(accept, Parsed(raw.value)) else None;
            match decision
            case Some((response, deflate)) => flag == Some(deflate) && stream.output == old(stream.output) + response
            case None => flag == None && stream.output == old(stream.output)
  {
    var request := stream.ReadUntilHeadersEnd();
    raw := request;
    if request.None? {
      return None, raw;
    }
    var first, headers := ParseHttpHeaders(request.value);
    if !ValidRequest(headers) {
      return None, raw;
    }
    var deflate := OffersDeflate(headers);
    var response := BuildServerResponse(accept(headers["sec-websocket-key"]), ExtensionsFor(deflate));
    stream.WriteAll(response);
    return Some(deflate), raw;
  }

  /** The second half of `client_upgrade`: reads the response and keeps the flag; `None` when it reports an error. */
  method ClientFinish(accept: string -> string, key: string, deflate: bool, stream: TextStream)
    returns (flag: Option<bool>, ghost raw: Option<string>)
    modifies stream`input
    ensures MayRead(old(stream.input), raw, stream.input)
    ensures flag == if raw.Some? then ClientDecision(accept, key, deflate, raw.value) else None
  {
    var response := stream.ReadUntilHeadersEnd();
    raw := response;
    if response.None? || !(SWITCHING <= response.value) {
      return None, raw;
    }
    var first, headers := ParseHttpHeaders(response.value);
    if "sec-websocket-accept" !in headers || accept(key) != headers["sec-websocket-accept"] {
      return None, raw;
    }
    return Some(deflate && OffersDeflate(headers)), raw;
  }

  /** Each message is its own first blank-line-terminated text, and each side decides as the other needs. */
  lemma BothDecide(accept: string -> string, host: string, port: string, path: string, key: string, deflate: bool)
    requires GoodHash(accept) && CleanFields(host, port, path, key) && (key == "" || !IsSpace(key[0]))
    ensures var request, response := Request(host, port, path, key, deflate), Response(accept(key), deflate);
            && FirstEnd(request, BLANK) == Some(|request|) && FirstEnd(response, BLANK) == Some(|response|)
            && ServerDecision(accept, Parsed(request)) == Some((response, deflate))
            && ClientDecision(accept, key, deflate, response) == Some(deflate)
  {
    hide Text, ServerDecision, ClientDecision, Parsed, FirstEnd, RequestFields, ResponseFields, CleanFields, Clean;
    var request, response := Request(host, port, path, key, deflate), Response(accept(key), deflate);
    RequestPlain(host, port, path, key, deflate);
    ResponsePlain(accept(key), deflate);
    MessageBoundary(RequestLine(path), RequestFields(host, port, key, ExtensionsFor(deflate)));
    MessageBoundary(STATUS, ResponseFields(accept(key), ExtensionsFor(deflate)));
    KeyReadBack(key);
    ServerAccepts(accept, host, port, path, key, deflate, "");
    ClientAccepts(accept, key, accept(key), deflate, "");
    assert request + "" == request && response + "" == response;
  }

  lemma MessageBoundary(first: string, fs: seq<Field>)
    requires Clean(first) && first != "" && AllPlain(fs)
    ensures FirstEnd(Text(first, fs), BLANK) == Some(|Text(first, fs)|)
  {
    FieldLinesSolid(fs);
    BlockBoundary([first] + FieldLines(fs), "");
    assert Text(first, fs) + "" == Text(first, fs);
  }

  /**
   * Both halves over streams: with line-clean fields, a key that does not begin with white space and
   * messages within the size limit, client and server finish with the flag the client asked for,
   * whatever pieces the texts arrive in.
   */
  method OpeningHandshake(accept: string -> string, host: string, port: string, path: string, key: string,
                          deflate: bool)
    returns (client: Option<bool>, server: Option<bool>)
    requires GoodHash(accept) && CleanFields(host, port, path, key) && (key == "" || !IsSpace(key[0]))
    requires |Request(host, port, path, key, deflate)| <= 64 * 1024 && |Response(accept(key), deflate)| <= 64 * 1024
    ensures client == Some(deflate) && server == Some(deflate)
  {
    hide *;
    BothDecide(accept, host, port, path, key, deflate);
    ghost var raw;
    var request := BuildClientRequest(host, port, path, key, ExtensionsFor(deflate));
    assert request == Request(host, port, path, key, deflate) by { RequestIs(host, port, path, key, deflate); }
    var toServer := new TextStream(request);
    server, raw := ServerUpgrade(accept, toServer);
    MessageRead(request, raw, toServer.input);
    var response := toServer.output;
    assert response == "" + Response(accept(key), deflate) == Response(accept(key), deflate);
    var toClient := new TextStream(response);
    client, raw := ClientFinish(accept, key, deflate, toClient);
    MessageRead(response, raw, toClient.input);
  }

  /** A message that is the whole input, and within the limit, is what is read. */
  lemma MessageRead(text: string, raw: Option<string>, left: string)
    requires FirstEnd(text, BLANK) == Some(|text|) && |text| <= 64 * 1024 && MayRead(text, raw, left)
    ensures raw == Some(text)
  {
    hide FirstEnd;
    assert |raw.value + left| == |raw.value| + |left| && raw.value + [] == raw.value;
  }

  lemma RequestIs(host: string, port: string, path: string, key: string, deflate: bool)
    ensures Request(host, port, path, key, deflate) ==
            Text(RequestLine(path), RequestFields(host, port, key, ExtensionsFor(deflate)))
  {
  }
}
