/** async_replica_server.py: the asyncio replica. Each connection is read with one readline()
    and handled against the counter that every handler of this server run shares. */
module AsyncReplicaServer {
  import opened Wire
  import opened ReplicaCore

  /** One server run and its shared state dict. */
  class Replica {
    var counter: nat

    /** main starts the run with the counter at zero. */
    constructor ()
      ensures counter == 0
    {
      counter := 0;
    }

    /** handle_client: the counter and the connection end up as Serve says for the first line
        read, and the writer is closed on every path. */
    method HandleClient(conn: Connection, crash: bool)
      requires !conn.closed
      modifies this, conn
      ensures conn.closed
      ensures var h := Serve(old(counter), ReadLine(conn.incoming), crash);
              counter == h.counter && conn.sent == old(conn.sent) + Written(h.reply)
    {
      var data := ReadLine(conn.incoming);
      if data == [] {
        conn.Close();
        return;
      }
      var message := Strip(data);
      if crash {
        conn.Close();
        return;
      }
      var response;
      if message == GetCounter {
        counter := counter + 1;
        response := OkReply(counter);
      } else {
        response := UnknownCommandReply;
      }
      conn.Send(response);
      // the finally clause closes the writer unless it is already closing
      if !conn.closed {
        conn.Close();
      }
    }
  }

  /** main's server handling the connections that arrive one at a time: each receives what the
      fold over the arrivals says, from a counter starting at 0. */
  method RunServer(arrivals: seq<Arrival>) returns (responses: seq<seq<string>>, counter: nat)
    ensures responses == Responses(Line, 0, arrivals)
    ensures counter == CounterAfter(Line, 0, arrivals)
  {
    var replica := new Replica();
    responses := [];
    var j := 0;
    while j < |arrivals|
      invariant j <= |arrivals|
      invariant replica.counter == CounterAfter(Line, 0, arrivals[..j])
      invariant responses == Responses(Line, 0, arrivals[..j])
    {
      ArrivalStep(Line, 0, arrivals, j);
      ghost var h := Handle(Line, replica.counter, arrivals[j]);
      assert h == Serve(replica.counter, ReadLine(arrivals[j].incoming), arrivals[j].crash);
      var conn := new Connection(arrivals[j].incoming);
      replica.HandleClient(conn, arrivals[j].crash);
      assert conn.sent == Written(h.reply);
      responses := responses + [conn.sent];
      j := j + 1;
    }
    assert arrivals[..j] == arrivals;
    counter := replica.counter;
  }
}
