/**
 * The opening handshake: requests and responses as built, and the server's and the client's decisions on
 * the headers they parse. `accept` stands for the hash that turns a key into an accept value.
 */
module Handshake {
  import opened Bytes
  import opened HttpText
  import opened Headers

  const DEFLATE: string := "permessage-deflate"

  const CLIENT_ALONE: string := "; client_no_context_takeover"
  const SERVER_ALONE: string := "; server_no_context_takeover"

  /** The extension offer and the matching answer. */
  const OFFER: string := DEFLATE + CLIENT_ALONE + SERVER_ALONE

  predicate Contains(s: string, part: string)
  {
    exists i {:trigger s[i..]} | 0 <= i <= |s| :: part <= s[i..]
  }

  // ---- Building ------------------------------------------------------------------------

  function HostValue(host: string, port: string): (v: string)
  {
    if port != "" && port != "80" && port != "443" then host + ":" + port else host
  }

  function ExtensionField(ext: Option<string>): (fs: seq<Field>)
  {
    if ext.Some? then [Field("Sec-WebSocket-Extensions", ext.value)] else []
  }

  function RequestLine(path: string): (s: string)
  {
    "GET " + path + " HTTP/1.1"
  }

  function RequestFields(host: string, port: string, key: string, ext: Option<string>): (fs: seq<Field>)
  {
    [Field("Host", HostValue(host, port)), Field("Upgrade", "websocket"), Field("Connection", "Upgrade"),
     Field("Sec-WebSocket-Key", key), Field("Sec-WebSocket-Version", "13")] + ExtensionField(ext)
  }

  const SWITCHING: string := "HTTP/1.1 101"
  const STATUS: string := SWITCHING + " Switching Protocols"

  function ResponseFields(acceptKey: string, ext: Option<string>): (fs: seq<Field>)
  {
    [Field("Upgrade", "websocket"), Field("Connection", "Upgrade"), Field("Sec-WebSocket-Accept", acceptKey)]
    + ExtensionField(ext)
  }

  /** Appends a line and its CR LF. */
  function Put(s: string, line: string): (r: string)
  {
    s + line + CRLF
  }

  lemma {:induction false} PutJoined(ls: seq<string>, line: string)
    ensures Put(Joined(ls), line) == Joined(ls + [line])
  {
    if ls == [] {
      assert ls + [line] == [line] && [line][1..] == [];
      assert Joined([]) == "" && Joined([line]) == line + CRLF + "";
    } else {
      assert (ls + [line])[1..] == ls[1..] + [line];
      PutJoined(ls[1..], line);
      assert Joined(ls) + line + CRLF == ls[0] + CRLF + (Joined(ls[1..]) + line + CRLF);
    }
  }

  /** `build_client_request`: exactly the block of the request line and these fields. */
  method BuildClientRequest(host: string, port: string, path: string, key: string, ext: Option<string>)
    returns (req: string)
    ensures req == Text(RequestLine(path), RequestFields(host, port, key, ext))
  {
    hide Joined, Put, Upto, Text, RequestLine;
    ghost var fs: seq<Field> := [];
    req := Put("", RequestLine(path));
    Begun(RequestLine(path));
    var hostValue := host;
    if port != "" && port != "80" && port != "443" {
      hostValue := hostValue + ":";
      hostValue := hostValue + port;
    }
    req := PutField(RequestLine(path), fs, req, "Host", hostValue);
    fs := fs + [Field("Host", hostValue)];
    req := PutField(RequestLine(path), fs, req, "Upgrade", "websocket");
    fs := fs + [Field("Upgrade", "websocket")];
    req := PutField(RequestLine(path), fs, req, "Connection", "Upgrade");
    fs := fs + [Field("Connection", "Upgrade")];
    req := PutField(RequestLine(path), fs, req, "Sec-WebSocket-Key", key);
    fs := fs + [Field("Sec-WebSocket-Key", key)];
    req := PutField(RequestLine(path), fs, req, "Sec-WebSocket-Version", "13");
    fs := fs + [Field("Sec-WebSocket-Version", "13")];
    if ext.Some? {
      req := PutField(RequestLine(path), fs, req, "Sec-WebSocket-Extensions", ext.value);
      fs := fs + [Field("Sec-WebSocket-Extensions", ext.value)];
    }
    assert fs == RequestFields(host, port, key, ext);
    hide RequestFields;
    Ended(RequestLine(path), fs);
    req := req + CRLF;
  }

  /** `build_server_response` */
  method BuildServerResponse(acceptKey: string, ext: Option<string>) returns (resp: string)
    ensures resp == Text(STATUS, ResponseFields(acceptKey, ext))
  {
    hide Joined, Put, Upto, Text;
    ghost var fs: seq<Field> := [];
    resp := Put("", STATUS);
    Begun(STATUS);
    resp := PutField(STATUS, fs, resp, "Upgrade", "websocket");
    fs := fs + [Field("Upgrade", "websocket")];
    resp := PutField(STATUS, fs, resp, "Connection", "Upgrade");
    fs := fs + [Field("Connection", "Upgrade")];
    resp := PutField(STATUS, fs, resp, "Sec-WebSocket-Accept", acceptKey);
    fs := fs + [Field("Sec-WebSocket-Accept", acceptKey)];
    if ext.Some? {
      resp := PutField(STATUS, fs, resp, "Sec-WebSocket-Extensions", ext.value);
      fs := fs + [Field("Sec-WebSocket-Extensions", ext.value)];
    }
    assert fs == ResponseFields(acceptKey, ext);
    Ended(STATUS, fs);
    resp := resp + CRLF;
  }

  /** The text before its blank line. */
  ghost function Upto(first: string, fs: seq<Field>): (s: string)
  {
    Joined([first] + FieldLines(fs))
  }

  lemma Ended(first: string, fs: seq<Field>)
    ensures Upto(first, fs) + CRLF == Text(first, fs)
  {
  }

  lemma Begun(first: string)
    ensures Put("", first) == Upto(first, [])
  {
    PutJoined([], first);
    assert [first] + FieldLines([]) == [] + [first];
  }

  /** Appends one header line; `fs` are the fields written so far. */
  method PutField(ghost first: string, ghost fs: seq<Field>, text: string, name: string, value: string)
    returns (longer: string)
    requires text == Upto(first, fs)
    ensures longer == Upto(first, fs + [Field(name, value)])
  {
    longer := Put(text, name + ": " + value);
    ghost var gs := fs + [Field(name, value)];
    PutJoined([first] + FieldLines(fs), FieldLine(Field(name, value)));
    FieldLinesAppend(fs, Field(name, value));
    assert [first] + FieldLines(gs) == [first] + FieldLines(fs) + [FieldLine(Field(name, value))];
  }

  lemma {:induction false} FieldLinesAppend(fs: seq<Field>, f: Field)
    ensures FieldLines(fs + [f]) == FieldLines(fs) + [FieldLine(f)]
  {
    if fs == [] {
      assert fs + [f] == [f] && [f][1..] == [];
    } else {
      assert (fs + [f])[1..] == fs[1..] + [f];
      FieldLinesAppend(fs[1..], f);
    }
  }

  // ---- Deciding ------------------------------------------------------------------------

  /** `validate_client_request`, which both implementations share. */
  predicate ValidRequest(h: Headers)
  {
    && "upgrade" in h && Lower(h["upgrade"]) == "websocket"
    && "connection" in h && Contains(Lower(h["connection"]), "upgrade")
    && "sec-websocket-version" in h && h["sec-websocket-version"] == "13"
    && "sec-websocket-key" in h
  }

  predicate OffersDeflate(h: Headers)
  {
    "sec-websocket-extensions" in h && Contains(h["sec-websocket-extensions"], DEFLATE)
  }

  function ExtensionsFor(deflate: bool): (ext: Option<string>)
  {
    if deflate then Some(OFFER) else None
  }

  function Parsed(raw: string): (h: Headers)
  {
    Collect(Lines(raw)[1..], map[])
  }

  /** What `server_upgrade` answers to a request, and the flag it keeps; `None` if it refuses. */
  function ServerDecision(accept: string -> string, h: Headers): (r: Option<(string, bool)>)
  {
    if !ValidRequest(h) then None
    else
      var deflate := OffersDeflate(h);
      Some((Text(STATUS, ResponseFields(accept(h["sec-websocket-key"]), ExtensionsFor(deflate))), deflate))
  }

  /** The flag `client_upgrade` keeps; `None` if it refuses the response. */
  function ClientDecision(accept: string -> string, key: string, offered: bool, raw: string): (r: Option<bool>)
  {
    if !(SWITCHING <= raw) then None
    else
      var h := Parsed(raw);
      if "sec-websocket-accept" !in h || accept(key) != h["sec-websocket-accept"] then None
      else Some(offered && OffersDeflate(h))
  }

  // ---- Agreement -----------------------------------------------------------------------

  /** A header name: letters and hyphens. */
  predicate Token(name: string)
  {
    name != "" && forall i | 0 <= i < |name| :: 'A' <= name[i] <= 'Z' || 'a' <= name[i] <= 'z' || name[i] == '-'
  }

  lemma TokenPlain(name: string, value: string)
    requires Token(name) && Clean(value)
    ensures Plain(Field(name, value))
  {
    assert !IsSpace(name[0]) && !IsSpace(name[|name| - 1]);
    assert TrimStart(name) == name;
  }

  lemma HostName()
    ensures Token("Host") && Lower("Host") == "host"
  {
  }

  lemma UpgradeName()
    ensures Token("Upgrade") && Lower("Upgrade") == "upgrade"
  {
  }

  lemma ConnectionName()
    ensures Token("Connection") && Lower("Connection") == "connection"
  {
  }

  lemma KeyName()
    ensures Token("Sec-WebSocket-Key") && Lower("Sec-WebSocket-Key") == "sec-websocket-key"
  {
  }

  lemma VersionName()
    ensures Token("Sec-WebSocket-Version") && Lower("Sec-WebSocket-Version") == "sec-websocket-version"
  {
  }

  lemma AcceptName()
    ensures Token("Sec-WebSocket-Accept") && Lower("Sec-WebSocket-Accept") == "sec-websocket-accept"
  {
  }

  lemma ExtensionsName()
    ensures Token("Sec-WebSocket-Extensions") && Lower("Sec-WebSocket-Extensions") == "sec-websocket-extensions"
  {
  }

  lemma OfferClean()
    ensures Clean(OFFER)
  {
    assert forall i | 0 <= i < |DEFLATE| :: DEFLATE[i] != '\r' && DEFLATE[i] != '\n';
    assert forall i | 0 <= i < |CLIENT_ALONE| :: CLIENT_ALONE[i] != '\r' && CLIENT_ALONE[i] != '\n';
    assert forall i | 0 <= i < |SERVER_ALONE| :: SERVER_ALONE[i] != '\r' && SERVER_ALONE[i] != '\n';
  }

  lemma OfferOffers()
    ensures Contains(OFFER, DEFLATE) && !IsSpace(OFFER[0])
  {
    assert OFFER[0..] == OFFER && DEFLATE <= OFFER;
  }

  lemma OfferStripped()
    ensures TrimStart(OFFER) == OFFER && TrimSpaces(OFFER) == OFFER
  {
  }

  lemma ValuesStripped()
    ensures TrimStart("websocket") == "websocket" && TrimStart("Upgrade") == "Upgrade" && TrimStart("13") == "13"
    ensures TrimSpaces("websocket") == "websocket" && TrimSpaces("Upgrade") == "Upgrade" && TrimSpaces("13") == "13"
  {
  }

  lemma Fixed()
    ensures Lower("websocket") == "websocket" && Lower("Upgrade") == "upgrade" && Contains("upgrade", "upgrade")
  {
    UpgradeName();
    assert "upgrade"[0..] == "upgrade";
  }

  /** What a parser finds in a request: the fields as sent, with the key stripped by the parser's rule. */
  lemma RequestLookup(host: string, port: string, key: string, deflate: bool, strip: string -> string)
    requires strip("websocket") == "websocket" && strip("Upgrade") == "Upgrade" && strip("13") == "13"
    requires strip(OFFER) == OFFER
    ensures var h := Store(RequestFields(host, port, key, ExtensionsFor(deflate)), map[], strip);
            ValidRequest(h) && h["sec-websocket-key"] == strip(key) && OffersDeflate(h) == deflate
  {
    hide Lower, Contains, Token, IsSpace, HostValue, ExtensionField, OffersDeflate;
    var fs := RequestFields(host, port, key, ExtensionsFor(deflate));
    UpgradeName();
    ConnectionName();
    KeyName();
    VersionName();
    Fixed();
    ExtensionLength(ExtensionsFor(deflate));
    StoreGet(fs, map[], strip, 1);
    StoreGet(fs, map[], strip, 2);
    StoreGet(fs, map[], strip, 3);
    StoreGet(fs, map[], strip, 4);
    RequestExtensions(host, port, key, deflate, strip);
  }

  lemma ExtensionLength(ext: Option<string>)
    ensures |ExtensionField(ext)| <= 1 && forall f | f in ExtensionField(ext) :: |f.name| == 24
  {
  }

  lemma RequestExtensions(host: string, port: string, key: string, deflate: bool, strip: string -> string)
    requires strip(OFFER) == OFFER
    ensures OffersDeflate(Store(RequestFields(host, port, key, ExtensionsFor(deflate)), map[], strip)) == deflate
  {
    hide Lower, Contains, Token, IsSpace, HostValue;
    var fs := RequestFields(host, port, key, ExtensionsFor(deflate));
    ExtensionsName();
    OfferOffers();
    if deflate {
      StoreGet(fs, map[], strip, 5);
    } else {
      StoreKeeps(fs, map[], strip, "sec-websocket-extensions");
    }
  }

  lemma ResponseLookup(acceptKey: string, deflate: bool)
    requires TrimStart(acceptKey) == acceptKey
    ensures var h := Store(ResponseFields(acceptKey, ExtensionsFor(deflate)), map[], TrimStart);
            "sec-websocket-accept" in h && h["sec-websocket-accept"] == acceptKey && OffersDeflate(h) == deflate
  {
    hide Lower, Contains, Token, TrimStart, IsSpace;
    var fs := ResponseFields(acceptKey, ExtensionsFor(deflate));
    AcceptName();
    ExtensionsName();
    OfferOffers();
    OfferStripped();
    StoreGet(fs, map[], TrimStart, 2);
    if deflate {
      StoreGet(fs, map[], TrimStart, 3);
    } else {
      StoreKeeps(fs, map[], TrimStart, "sec-websocket-extensions");
    }
  }

  /** Fields the caller supplies must not break the lines. */
  predicate CleanFields(host: string, port: string, path: string, key: string)
  {
    Clean(host) && Clean(port) && Clean(path) && Clean(key)
  }

  lemma ValuesClean()
    ensures Clean("websocket") && Clean("Upgrade") && Clean("13")
  {
  }

  lemma RequestLineClean(path: string)
    requires Clean(path)
    ensures Clean(RequestLine(path))
  {
    assert Clean("GET ");
    assert Clean(" HTTP/1.1");
  }

  lemma StatusClean()
    ensures Clean(STATUS)
  {
    assert forall i | 0 <= i < |SWITCHING| :: SWITCHING[i] != '\r' && SWITCHING[i] != '\n';
    assert Clean(" Switching Protocols");
  }

  lemma HostClean(host: string, port: string)
    requires Clean(host) && Clean(port)
    ensures Clean(HostValue(host, port))
  {
  }

  /** The fields both messages have. */
  lemma SharedPlain(deflate: bool)
    ensures Plain(Field("Upgrade", "websocket")) && Plain(Field("Connection", "Upgrade"))
    ensures AllPlain(ExtensionField(ExtensionsFor(deflate)))
  {
    hide Token, Plain, Lower, Clean;
    UpgradeName();
    ConnectionName();
    ExtensionsName();
    OfferClean();
    ValuesClean();
    TokenPlain("Upgrade", "websocket");
    TokenPlain("Connection", "Upgrade");
    TokenPlain("Sec-WebSocket-Extensions", OFFER);
  }

  lemma RequestPlain(host: string, port: string, path: string, key: string, deflate: bool)
    requires CleanFields(host, port, path, key)
    ensures Clean(RequestLine(path)) && AllPlain(RequestFields(host, port, key, ExtensionsFor(deflate)))
  {
    hide Token, Plain, Lower, Clean, HostValue, RequestLine, ExtensionField;
    RequestLineClean(path);
    HostName();
    KeyName();
    VersionName();
    ValuesClean();
    HostClean(host, port);
    SharedPlain(deflate);
    TokenPlain("Host", HostValue(host, port));
    TokenPlain("Sec-WebSocket-Key", key);
    TokenPlain("Sec-WebSocket-Version", "13");
  }

  lemma ResponsePlain(acceptKey: string, deflate: bool)
    requires Clean(acceptKey)
    ensures Clean(STATUS) && AllPlain(ResponseFields(acceptKey, ExtensionsFor(deflate)))
  {
    hide Token, Plain, Lower, Clean, ExtensionField;
    StatusClean();
    AcceptName();
    SharedPlain(deflate);
    TokenPlain("Sec-WebSocket-Accept", acceptKey);
  }

  // ---- What is accepted, and what is written, in full ----------------------------------

  lemma FoundAt(pre: string, part: string, post: string)
    ensures Contains(pre + part + post, part)
  {
    var s := pre + part + post;
    assert s[|pre|..] == part + post;
  }

  lemma CutAround(s: string, part: string, i: nat)
    requires i <= |s| && part <= s[i..]
    ensures s == s[..i] + part + s[i + |part|..]
  {
  }

  /** `contains`: the part stands somewhere in the text. */
  lemma ContainsMeaning(s: string, part: string)
    ensures Contains(s, part) <==> exists pre, post :: s == pre + part + post
  {
    if Contains(s, part) {
      var i :| 0 <= i <= |s| && part <= s[i..];
      CutAround(s, part, i);
    }
    if exists pre, post :: s == pre + part + post {
      var pre, post :| s == pre + part + post;
      FoundAt(pre, part, post);
    }
  }

  /** ASCII lower case, character by character. */
  lemma LowerMeaning(s: string, i: nat)
    requires i < |s|
    ensures |Lower(s)| == |s|
    ensures Lower(s)[i] == if 'A' <= s[i] <= 'Z' then s[i] - 'A' + 'a' else s[i]
  {
  }

  /** Looking up a header. */
  predicate Has(h: Headers, name: string, value: string)
  {
    name in h && h[name] == value
  }

  /**
   * Exactly the requests a server accepts, whatever else they contain: the upgrade header is "websocket" in
   * any case, the connection header has "upgrade" in it in any case, the version is "13", and there is a key.
   * The answer is for that key, and the extension is granted exactly if its name stands in the offer.
   */
  lemma ServerDecisionExact(accept: string -> string, h: Headers)
    ensures ServerDecision(accept, h).Some? <==>
            && (exists v :: Has(h, "upgrade", v) && Lower(v) == "websocket")
            && (exists v, pre, post :: Has(h, "connection", v) && Lower(v) == pre + "upgrade" + post)
            && Has(h, "sec-websocket-version", "13") && "sec-websocket-key" in h
    ensures var d := ServerDecision(accept, h);
            d.Some? ==>
              && (d.value.1 <==>
                    exists pre, post :: Has(h, "sec-websocket-extensions", pre + "permessage-deflate" + post))
              && d.value.0 == Text(STATUS, ResponseFields(accept(h["sec-websocket-key"]), ExtensionsFor(d.value.1)))
  {
    hide Contains, Lower, Text, ResponseFields;
    if "connection" in h {
      ContainsMeaning(Lower(h["connection"]), "upgrade");
    }
    if "sec-websocket-extensions" in h {
      ContainsMeaning(h["sec-websocket-extensions"], "permessage-deflate");
    }
  }

  /** Exactly the responses a client accepts, and the flag it keeps. */
  lemma ClientDecisionExact(accept: string -> string, key: string, offered: bool, raw: string)
    ensures var (d, h) := (ClientDecision(accept, key, offered, raw), Parsed(raw));
            && (d.Some? <==> "HTTP/1.1 101" <= raw && Has(h, "sec-websocket-accept", accept(key)))
            && (d.Some? ==>
                  (d.value <==>
                     && offered
                     && exists pre, post :: Has(h, "sec-websocket-extensions", pre + "permessage-deflate" + post)))
  {
    hide Contains, Parsed;
    var h := Parsed(raw);
    if "sec-websocket-extensions" in h {
      ContainsMeaning(h["sec-websocket-extensions"], "permessage-deflate");
    }
  }

  // ---- The messages as they are written ------------------------------------------------

  lemma HostLine(value: string)
    ensures FieldLine(Field("Host", value)) == "Host: " + value
  {
    assert "Host" + ": " == "Host: ";
  }

  lemma UpgradeLine(value: string)
    ensures FieldLine(Field("Upgrade", value)) == "Upgrade: " + value
  {
    assert "Upgrade" + ": " == "Upgrade: ";
  }

  lemma ConnectionLine(value: string)
    ensures FieldLine(Field("Connection", value)) == "Connection: " + value
  {
    assert "Connection" + ": " == "Connection: ";
  }

  lemma KeyLine(value: string)
    ensures FieldLine(Field("Sec-WebSocket-Key", value)) == "Sec-WebSocket-Key: " + value
  {
    assert "Sec-WebSocket-Key" + ": " == "Sec-WebSocket-Key: ";
  }

  lemma VersionLine(value: string)
    ensures FieldLine(Field("Sec-WebSocket-Version", value)) == "Sec-WebSocket-Version: " + value
  {
    assert "Sec-WebSocket-Version" + ": " == "Sec-WebSocket-Version: ";
  }

  lemma AcceptLine(value: string)
    ensures FieldLine(Field("Sec-WebSocket-Accept", value)) == "Sec-WebSocket-Accept: " + value
  {
    assert "Sec-WebSocket-Accept" + ": " == "Sec-WebSocket-Accept: ";
  }

  lemma ExtensionsLine(value: string)
    ensures FieldLine(Field("Sec-WebSocket-Extensions", value)) == "Sec-WebSocket-Extensions: " + value
  {
    assert "Sec-WebSocket-Extensions" + ": " == "Sec-WebSocket-Extensions: ";
  }

  lemma {:induction false} FieldLinesConcat(fs: seq<Field>, gs: seq<Field>)
    ensures FieldLines(fs + gs) == FieldLines(fs) + FieldLines(gs)
  {
    if fs == [] {
      assert fs + gs == gs;
    } else {
      assert (fs + gs)[1..] == fs[1..] + gs;
      FieldLinesConcat(fs[1..], gs);
    }
  }

  /** The line for the extension, if it is offered or granted. */
  function ExtensionLine(ext: Option<string>): (ls: seq<string>)
  {
    if ext.Some? then ["Sec-WebSocket-Extensions: " + ext.value] else []
  }

  lemma ExtensionLineIs(ext: Option<string>)
    ensures FieldLines(ExtensionField(ext)) == ExtensionLine(ext)
  {
    if ext.Some? {
      ExtensionsLine(ext.value);
      var f := Field("Sec-WebSocket-Extensions", ext.value);
      hide FieldLine;
      assert FieldLines([f]) == [FieldLine(f)];
    }
  }

  lemma OneLine(f: Field)
    ensures FieldLines([f]) == [FieldLine(f)]
  {
    hide FieldLine;
  }

  lemma ThreeLines(a: Field, b: Field, c: Field)
    ensures FieldLines([a, b, c]) == [FieldLine(a), FieldLine(b), FieldLine(c)]
  {
    hide FieldLine;
    OneLine(a);
    OneLine(b);
    OneLine(c);
    FieldLinesConcat([a], [b]);
    FieldLinesConcat([a] + [b], [c]);
    assert [a] + [b] + [c] == [a, b, c];
  }

  lemma FiveLines(a: Field, b: Field, c: Field, d: Field, e: Field)
    ensures FieldLines([a, b, c, d, e]) == [FieldLine(a), FieldLine(b), FieldLine(c), FieldLine(d), FieldLine(e)]
  {
    hide FieldLine;
    ThreeLines(a, b, c);
    OneLine(d);
    OneLine(e);
    FieldLinesConcat([a, b, c], [d]);
    FieldLinesConcat([a, b, c] + [d], [e]);
    assert [a, b, c] + [d] + [e] == [a, b, c, d, e];
  }

  /** The lines of the request's fields. */
  lemma RequestFieldLines(host: string, port: string, key: string, ext: Option<string>)
    ensures FieldLines(RequestFields(host, port, key, ext)) ==
            ["Host: " + HostValue(host, port), "Upgrade: websocket", "Connection: Upgrade",
             "Sec-WebSocket-Key: " + key, "Sec-WebSocket-Version: 13"] + ExtensionLine(ext)
  {
    hide FieldLine, FieldLines, HostValue, ExtensionField, ExtensionLine;
    var a, b, c := Field("Host", HostValue(host, port)), Field("Upgrade", "websocket"), Field("Connection", "Upgrade");
    var d, e := Field("Sec-WebSocket-Key", key), Field("Sec-WebSocket-Version", "13");
    FiveLines(a, b, c, d, e);
    FieldLinesConcat([a, b, c, d, e], ExtensionField(ext));
    assert RequestFields(host, port, key, ext) == [a, b, c, d, e] + ExtensionField(ext);
    hide RequestFields;
    HostLine(HostValue(host, port));
    UpgradeLine("websocket");
    ConnectionLine("Upgrade");
    KeyLine(key);
    VersionLine("13");
    UpgradeText();
    ExtensionLineIs(ext);
  }

  /** The request as it is written: these lines, with path, host, port and key in their places, and a blank one. */
  lemma RequestWritten(host: string, port: string, path: string, key: string, ext: Option<string>)
    ensures Text(RequestLine(path), RequestFields(host, port, key, ext)) ==
            Block(["GET " + path + " HTTP/1.1",
                   "Host: " + (if port == "" || port == "80" || port == "443" then host else host + ":" + port),
                   "Upgrade: websocket", "Connection: Upgrade",
                   "Sec-WebSocket-Key: " + key, "Sec-WebSocket-Version: 13"]
                  + ExtensionLine(ext))
  {
    hide FieldLines, Block, RequestFields, ExtensionLine;
    RequestFieldLines(host, port, key, ext);
    var five := ["Host: " + HostValue(host, port), "Upgrade: websocket", "Connection: Upgrade",
                 "Sec-WebSocket-Key: " + key, "Sec-WebSocket-Version: 13"];
    assert [RequestLine(path)] + (five + ExtensionLine(ext)) == [RequestLine(path)] + five + ExtensionLine(ext);
    assert [RequestLine(path)] + five == [RequestLine(path), five[0], five[1], five[2], five[3], five[4]];
    hide HostValue, RequestLine;
    assert Text(RequestLine(path), RequestFields(host, port, key, ext)) ==
           Block([RequestLine(path), five[0], five[1], five[2], five[3], five[4]] + ExtensionLine(ext));
  }

  lemma UpgradeText()
    ensures "Upgrade: " + "websocket" == "Upgrade: websocket" && "Connection: " + "Upgrade" == "Connection: Upgrade"
    ensures "Sec-WebSocket-Version: " + "13" == "Sec-WebSocket-Version: 13"
  {
  }

  /** The response as it is written. */
  lemma ResponseWritten(acceptKey: string, ext: Option<string>)
    ensures Text(STATUS, ResponseFields(acceptKey, ext)) ==
            Block(["HTTP/1.1 101 Switching Protocols", "Upgrade: websocket", "Connection: Upgrade",
                   "Sec-WebSocket-Accept: " + acceptKey] + ExtensionLine(ext))
  {
    hide FieldLines, FieldLine, Block, ExtensionField, ExtensionLine;
    var a, b := Field("Upgrade", "websocket"), Field("Connection", "Upgrade");
    var c := Field("Sec-WebSocket-Accept", acceptKey);
    ThreeLines(a, b, c);
    FieldLinesConcat([a, b, c], ExtensionField(ext));
    assert ResponseFields(acceptKey, ext) == [a, b, c] + ExtensionField(ext);
    hide ResponseFields;
    UpgradeLine("websocket");
    ConnectionLine("Upgrade");
    AcceptLine(acceptKey);
    UpgradeText();
    StatusIs();
    ExtensionLineIs(ext);
    var three := ["Upgrade: websocket", "Connection: Upgrade", "Sec-WebSocket-Accept: " + acceptKey];
    assert [STATUS] + (three + ExtensionLine(ext)) == [STATUS] + three + ExtensionLine(ext);
    assert [STATUS] + three == [STATUS, three[0], three[1], three[2]];
  }

  lemma StatusIs()
    ensures STATUS == "HTTP/1.1 101 Switching Protocols"
  {
  }

  /** The offer names the extension and its two parameters. */
  lemma OfferIs()
    ensures OFFER == "permessage-deflate" + "; client_no_context_takeover" + "; server_no_context_takeover"
  {
  }
}
