/**
 * Two Rust connections, end to end: one sends a script of calls, the bytes are cut into pieces in any way,
 * and the other reads until nothing more comes.
 */
module Delivery {
  import opened Bytes
  import opened Masking
  import opened Session
  import opened EndToEnd
  import opened EchoServer
  import R = RustConnection

  /** The calls of a script on one connection. */
  method SendScript(conn: R.Connection, calls: seq<Call>)
    modifies conn.stream`out, conn.outbound
    ensures conn.stream.out == SendAll(conn.cfg, old(conn.stream.out), calls)
  {
    hide Perform;
    for i := 0 to |calls|
      invariant SendAll(conn.cfg, conn.stream.out, calls[i..]) == SendAll(conn.cfg, old(conn.stream.out), calls)
    {
      assert calls[i..][1..] == calls[i + 1..];
      var _ := conn.Send(calls[i]);
    }
  }

  const NOTHING := Output([], None, 0)

  /** A new connection over a transport whose writes do not fail. */
  const START := Conn(true, false, NO_FRAGMENT, None, NOTHING)

  /** A new connection reads everything that arrives in the given pieces. */
  method ReadPieces(cfg: Config, order: ByteOrder, pieces: seq<seq<byte>>)
    returns (messages: seq<Message>, last: Outcome, written: seq<byte>)
    requires forall i | 0 <= i < |pieces| :: pieces[i] != []
    ensures var t := ReadAll(cfg, START, Concat(pieces), true);
            messages == t.messages && last == t.last && written == t.conn.out.bytes
  {
    hide Concat, ReadAll;
    var stream := new R.Stream(pieces, true, None);
    var conn := new R.Connection(cfg, order, stream);
    messages, last := conn.ReadMessages();
    written := stream.out.bytes;
  }

  /** A new connection echoes what arrives in the given pieces. */
  method EchoPieces(cfg: Config, order: ByteOrder, pieces: seq<seq<byte>>)
    returns (failure: Option<Failure>, written: seq<byte>)
    requires forall i | 0 <= i < |pieces| :: pieces[i] != []
    ensures var (e, c, rest) := Echo(cfg, START, Concat(pieces), true); failure == e && written == c.out.bytes
  {
    hide Concat, Echo;
    var stream := new R.Stream(pieces, true, None);
    var conn := new R.Connection(cfg, order, stream);
    failure := conn.EchoSession();
    written := stream.out.bytes;
  }

  /**
   * Whatever the script, its fragmentation, the pings and pongs between fragments, the masking keys and the
   * pieces in which the bytes arrive: the receiver reads exactly the messages sent, in order, then the end
   * of the stream, and has written exactly the pongs that answer the pings.
   */
  method Transfer(s: Config, r: Config, order: ByteOrder, calls: seq<Call>, chunks: seq<seq<byte>>)
    returns (sent: seq<byte>, messages: seq<Message>, last: Outcome, answers: seq<byte>)
    requires Peers(s, r) && Script(s, r, calls) && LastVisible(s, calls, [])
    requires Concat(chunks) == Wire(s, NOTHING, calls) && forall i | 0 <= i < |chunks| :: chunks[i] != []
    ensures sent == Concat(chunks)
    ensures messages == Messages(calls, Idle) && last == Ended
    ensures answers == SendAll(r, NOTHING, Answers(calls)).bytes
  {
    hide Concat, Wire, SendAll, ReadAll, Script, Peers, LastVisible;
    assert Fresh(START);
    MessagesDelivered(s, NOTHING, r, START, calls);
    var toReceiver := new R.Stream([], true, None);
    var sender := new R.Connection(s, order, toReceiver);
    SendScript(sender, calls);
    sent := toReceiver.out.bytes;
    assert sent == [] + Wire(s, NOTHING, calls) == Wire(s, NOTHING, calls);
    messages, last, answers := ReadPieces(r, order, chunks);
  }

  /**
   * With an echo server at the other end, and the bytes cut into any pieces both ways: the server sends
   * exactly the bytes of the replies, and the client reads back exactly the messages it sent, in order.
   */
  method EchoTransfer(client: Config, server: Config, order: ByteOrder, calls: seq<Call>, there: seq<seq<byte>>,
                      back: seq<seq<byte>>)
    returns (failure: Option<Failure>, sent: seq<byte>, messages: seq<Message>)
    requires Peers(client, server) && Peers(server, client) && Script(client, server, calls)
    requires AllSound(server, client, Replies(calls, Idle))
    requires LastVisible(client, calls, []) && LastVisible(server, Replies(calls, Idle), [])
    requires Concat(there) == Wire(client, NOTHING, calls) && forall i | 0 <= i < |there| :: there[i] != []
    requires Concat(back) == Wire(server, NOTHING, Replies(calls, Idle)) && forall i | 0 <= i < |back| :: back[i] != []
    ensures failure == None && sent == Concat(back)
    ensures messages == Messages(calls, Idle)
  {
    hide Concat, Wire, SendAll, ReadAll, Echo, Script, Peers, LastVisible, AllSound;
    assert Fresh(START);
    EchoRoundTrip(client, NOTHING, START, server, START, calls);
    failure, sent := EchoPieces(server, order, there);
    assert sent == [] + Concat(back) == Concat(back);
    var last, written;
    messages, last, written := ReadPieces(client, order, back);
  }
}
