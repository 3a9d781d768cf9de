/** replica_server.py: the threaded replica. Each connection is read with one recv(1024) and
    handled against the counter that every handler of this server run shares. */
module ReplicaServer {
  import opened Wire
  import opened ReplicaCore

  /** One server run and its shared state dict. */
  class Replica {
    var counter: nat

    /** run_server starts the run with the counter at zero. */
    constructor ()
      ensures counter == 0
    {
      counter := 0;
    }

    /** handle_client: the counter and the connection end up as Serve says for the first chunk
        read, and the connection is closed on every path. */
    method HandleClient(conn: Connection, crash: bool)
      requires !conn.closed
      modifies this, conn
      ensures conn.closed
      ensures var h := Serve(old(counter), RecvChunk(conn.incoming), crash);
              counter == h.counter && conn.sent == old(conn.sent) + Written(h.reply)
    {
      var data := RecvChunk(conn.incoming);
      if data == [] {
        conn.Close();
        return;
      }
      var message := Strip(data);
      if crash {
        // the crash branch closes the socket itself, and the finally clause closes it again
        conn.Close();
        conn.Close();
        return;
      }
      var response;
      if message == GetCounter {
        counter := counter + 1;
        response := OkReply(counter);
      } else {
        response := UnknownCommandReply;
      }
      conn.Send(response);
      conn.Close();
    }
  }

  /** run_server's accept loop over the connections that arrive, handled one at a time: each
      connection receives what the fold over the arrivals says, from a counter starting at 0. */
  method RunServer(arrivals: seq<Arrival>) returns (responses: seq<seq<string>>, counter: nat)
    ensures responses == Responses(Chunk, 0, arrivals)
    ensures counter == CounterAfter(Chunk, 0, arrivals)
  {
    var replica := new Replica();
    responses := [];
    var j := 0;
    while j < |arrivals|
      invariant j <= |arrivals|
      invariant replica.counter == CounterAfter(Chunk, 0, arrivals[..j])
      invariant responses == Responses(Chunk, 0, arrivals[..j])
    {
      ArrivalStep(Chunk, 0, arrivals, j);
      ghost var h := Handle(Chunk, replica.counter, arrivals[j]);
      assert h == Serve(replica.counter, RecvChunk(arrivals[j].incoming), arrivals[j].crash);
      var conn := new Connection(arrivals[j].incoming);
      replica.HandleClient(conn, arrivals[j].crash);
      assert conn.sent == Written(h.reply);
      responses := responses + [conn.sent];
      j := j + 1;
    }
    assert arrivals[..j] == arrivals;
    counter := replica.counter;
  }
}
