/**
 * Which frames an endpoint refuses. Both implementations are held to the same list, written on the octets
 * themselves: a frame of the wrong maskedness, a reserved bit that no extension explains, an opcode that is
 * not defined. Nothing of such a frame is ever delivered.
 */
module Validation {
  import opened Bytes
  import opened Frames
  import opened Session
  import opened WireFormat
  import opened Senders
  import opened Reassembly
  import opened CppReassembly
  import C = CppReader

  // ---- The Rust endpoint ---------------------------------------------------------------

  /** Exactly the headers an endpoint accepts: masked by the client, no reserved bit but RSV1 on compressed data. */
  lemma AcceptableExact(h: Header, role: Role, deflate: bool)
    ensures Acceptable(h, role, deflate) <==>
            && (h.key.Some? <==> role.Server?) && !h.rsv2 && !h.rsv3
            && (h.rsv1 ==> deflate && (h.opcode.Text? || h.opcode.Binary?))
  {
  }

  /** What makes a header bad for the endpoint that receives it. */
  predicate Bad(h: Header, role: Role, deflate: bool)
  {
    || (role.Server? && h.key.None?) || (role.Client? && h.key.Some?) || h.rsv2 || h.rsv3
    || (h.rsv1 && (!deflate || !(h.opcode.Text? || h.opcode.Binary?)))
  }

  /** A frame with a bad header is read, reported as a protocol error, and has no other effect. */
  lemma BadFrameRefused(cfg: Config, c: Conn, input: seq<byte>, eof: bool)
    requires c.open && Visible(input).Whole? && Bad(Visible(input).frame.header, cfg.role, cfg.deflate)
    ensures ReadMessageStep(cfg, c, input, eof) == (Failed(ProtocolError), c, input[Visible(input).size..])
    ensures ReadAll(cfg, c, input, eof).messages == []
  {
    hide Visible;
  }

  /** For instance: a server that gets the unmasked frame 82 01 07. */
  lemma UnmaskedRefused(cfg: Config, c: Conn, eof: bool)
    requires c.open && cfg.role.Server?
    ensures ReadMessageStep(cfg, c, [0x82, 0x01, 0x07], eof) == (Failed(ProtocolError), c, [])
  {
    var s: seq<byte> := [0x82, 0x01, 0x07];
    var f := Frame(Header(true, false, false, false, Binary, None), [7]);
    assert s[2..3] == [7];
    assert Decode(s) == Whole(f, 3);
    hide Decode;
    BadFrameRefused(cfg, c, s, eof);
  }

  /** A closed connection reads nothing. */
  lemma ClosedReadsNothing(cfg: Config, c: Conn, input: seq<byte>, eof: bool)
    requires !c.open
    ensures ReadMessageStep(cfg, c, input, eof) == (Ended, c, input)
  {
  }

  // ---- On the wire ---------------------------------------------------------------------

  /** The first two octets of a header that the receiver must refuse. */
  predicate BadOctets(s: seq<byte>, role: Role, deflate: bool)
    requires |s| >= 2
  {
    || s[0] % 16 !in {0x0, 0x1, 0x2, 0x8, 0x9, 0xA}
    || (role.Server? && s[1] < 0x80) || (role.Client? && s[1] >= 0x80)
    || s[0] / 32 % 2 == 1 || s[0] / 16 % 2 == 1
    || (s[0] / 64 % 2 == 1 && !(deflate && s[0] % 16 in {0x1, 0x2}))
  }

  /** The C++ reader finds a problem with exactly the headers that must be refused. */
  lemma HeaderProblemExact(cfg: Config, s: seq<byte>)
    requires C.ParseRaw(s).Some?
    ensures C.HeaderProblem(cfg, C.ParseRaw(s).value.0).Some? <==> BadOctets(s, cfg.role, Negotiated(cfg))
  {
    hide DeclaredLength;
  }

  /** So does the Rust endpoint, once the frame is complete. */
  lemma BadFrameExact(s: seq<byte>, role: Role, deflate: bool)
    requires Decode(s).Whole?
    ensures |s| >= 2 && (Acceptable(Decode(s).frame.header, role, deflate) <==> !BadOctets(s, role, deflate))
  {
    hide DeclaredLength, OnWire;
  }

  /** The reasons fit a control frame. */
  lemma ProblemText(cfg: Config, h: C.RawHeader)
    ensures C.HeaderProblem(cfg, h).Some? ==> |C.HeaderProblem(cfg, h).value| <= 123
  {
  }

  /** A reason is its text, one octet for each character; those the endpoints use are ASCII. */
  lemma ReasonMeaning(why: string)
    ensures |Reason(why)| == |why|
    ensures forall i | 0 <= i < |why| && why[i] < 128 as char :: Reason(why)[i] == why[i] as int
  {
  }

  /**
   * The C++ reader stops at such a header, before its payload has arrived: one CLOSE with 1002 is written and
   * reported, and nothing is delivered.
   */
  lemma BadHeaderRefused(cfg: Config, r: C.Reader, input: seq<byte>)
    requires Ready(cfg, r) && r.out.capacity.None?
    requires C.ParseRaw(input).Some? && BadOctets(input, cfg.role, Negotiated(cfg))
    ensures var r' := C.ReadLoop(cfg, r, input);
            && r'.delivered == r.delivered && !r'.open && r'.closing
            && exists why ::
                 && r'.closes == r.closes + [(1002, Reason(why))]
                 && Wrote(r.out, r'.out, CloseFrame(cfg, r.out.drawn, 1002, Reason(why)))
  {
    hide C.ParseRaw, C.HeaderProblem, BadOctets, Wrote, SendFrame, Reason;
    HeaderProblemExact(cfg, input);
    ProblemText(cfg, C.ParseRaw(input).value.0);
    var why := C.HeaderProblem(cfg, C.ParseRaw(input).value.0).value;
    ReasonMeaning(why);
    CloseFrameWrites(cfg, r.out, 1002, Reason(why));
    assert C.ReadLoop(cfg, r, input) == C.FailWith(cfg, r, 1002, why);
  }

  /** For instance: a server that gets the unmasked frame 82 01 07. */
  lemma UnmaskedClosed(cfg: Config, r: C.Reader)
    requires Ready(cfg, r) && cfg.role.Server?
    ensures C.ReadLoop(cfg, r, [0x82, 0x01, 0x07]) == C.FailWith(cfg, r, 1002, "Client frame must be masked")
  {
    var s: seq<byte> := [0x82, 0x01, 0x07];
    var h := C.RawHeader(true, false, false, false, 0x2, None, 1);
    assert C.ParseRaw(s) == Some((h, 2));
    hide C.ParseRaw;
    assert C.HeaderProblem(cfg, h) == Some("Client frame must be masked");
    hide C.HeaderProblem, SendFrame;
  }
}
