/** Clients of the connection model: what a caller can conclude from the
    contracts of RepConn alone, for the begin-replication exchange and for
    a connection that has failed. */
module Scenarios {
  import opened Base
  import opened Wire
  import opened Messages
  import opened RepConnection

  const Request: Message := BeginReplicationRequest("sdb1", "42", true)
  const Response: Message := BeginReplicationResponse(map["0" := "abc123"])

  /** The begin-replication exchange over two connected ends: the client
      sends the request, the server receives an equal request and answers,
      and the client receives an equal response. Both ends stay
      Established. */
  method BeginReplicationExchange(c: Codec) returns (atServer: Result<Message, Error>, atClient: Result<Message, Error>, clientUp: bool, serverUp: bool)
    requires RoundTrips(c)
    requires c.marshal(Request).Some? && |c.marshal(Request).value| < TwoTo32
    requires c.marshal(Response).Some? && |c.marshal(Response).value| < TwoTo32
    ensures atServer == Ok(Request)
    ensures atClient == Ok(Response)
    ensures clientUp && serverUp
  {
    var reqFrame := EncodeFrame(c.marshal(Request).value);
    var respFrame := EncodeFrame(c.marshal(Response).value);
    var client := new RepConn(|reqFrame|);
    var server := new RepConn(|respFrame|);

    var e1 := client.SendMessage(c, Request);
    assert client.sent == reqFrame;
    server.Deliver(client.sent);
    ReceiveOfSentMessage(c, Request, [], []);
    assert server.input == [] + reqFrame + [];
    atServer := server.RecvMessage(c, KindOf(Request));

    var e2 := server.SendMessage(c, Response);
    assert server.sent == respFrame;
    client.Deliver(server.sent);
    ReceiveOfSentMessage(c, Response, [], []);
    assert client.input == [] + respFrame + [];
    atClient := client.RecvMessage(c, KindOf(Response));

    clientUp, serverUp := !client.Disconnected, !server.Disconnected;
  }

  /** A connection that failed stays failed, as far as the peer can see:
      a receive on an empty stream fails with io.EOF and closes the
      connection; a raw write that fits in the writer's buffer is still
      accepted afterwards, but the flush that would deliver it fails on
      the closed transport, and so does every send that follows, however
      many. Nothing ever reaches the peer. */
  method FailedConnectionStaysDown(c: Codec, k: Kind, data: Bytes, ms: seq<Message>)
    returns (received: Result<Message, Error>, written: Option<Error>, flushed: Option<Error>, sendErrs: seq<Option<Error>>, delivered: Bytes, down: bool)
    requires 0 < |data| <= WriterBufferSize
    ensures received == Err(EOF)
    ensures written == None
    ensures flushed == Some(ClosedConnection)
    ensures |sendErrs| == |ms| && forall i :: 0 <= i < |ms| ==> sendErrs[i].Some?
    ensures delivered == [] && down
  {
    var conn := new RepConn(|data|);
    received := conn.RecvMessage(c, k);
    var l;
    l, written := conn.Write(data);
    flushed := conn.Flush();
    sendErrs := [];
    while |sendErrs| < |ms|
      invariant |sendErrs| <= |ms|
      invariant forall i :: 0 <= i < |sendErrs| ==> sendErrs[i].Some?
      invariant conn.Valid() && conn.Disconnected && conn.writeErr.Some? && conn.sent == []
    {
      var e := conn.SendMessage(c, ms[|sendErrs|]);
      sendErrs := sendErrs + [e];
    }
    delivered, down := conn.sent, conn.Disconnected;
  }

  /** Closing a connection a second time leaves it as the first close did:
      Disconnected, its transport closed, and its buffers, the bytes sent
      and the bytes received untouched. */
  method CloseTwice(conn: RepConn)
    requires conn.Valid()
    modifies conn
    ensures conn.Valid() && conn.Disconnected && !conn.open
    ensures conn.pending == old(conn.pending) && conn.writeErr == old(conn.writeErr)
    ensures conn.sent == old(conn.sent) && conn.input == old(conn.input) && conn.pos == old(conn.pos)
  {
    conn.Close();
    conn.Close();
  }
}
