/** async_client_concurrent.py: the asyncio client that sends TOTAL_REQUESTS logical requests,
    returns the serving replica with each reply, keeps a per-replica success tally and sums
    up the successes and failures. The gathered requests are taken one after the other. */
module AsyncClientConcurrent {
  import opened Wire
  import opened Failover

  /** TOTAL_REQUESTS: the logical requests main() creates, with ids 1 to 50. */
  const TotalRequests: nat := 50

  /** What one logical request of this client amounts to: MAX_REPLICA_ROUNDS rounds of line reads. */
  function Request(net: Transport, message: string): Dispatched
  {
    Dispatch(Replicas, MaxReplicaRounds, ExecutorOf(Line, net, message))
  }

  /** send_request_with_retries(message, req_id): the reply and the replica of the first try
      that answers with a line, or the RuntimeError after MAX_REPLICA_ROUNDS rounds; req_id
      only labels a log line and is left out. */
  method SendRequestWithRetries(net: Transport, message: string)
    returns (answer: Answer<(string, Replica)>)
    ensures answer == AnsweredWithReplica(Request(net, message))
  {
    var d, _ := RunRounds(Replicas, MaxReplicaRounds, ExecutorOf(Line, net, message));
    answer := AnsweredWithReplica(d);
  }

  /** The returned replica is one of REPLICAS and is the one that produced the reply; the
      reply text is returned whatever it says. */
  lemma ServedByListedReplica(net: Transport, message: string)
    requires Request(net, message).Served?
    ensures var d := Request(net, message);
            && AnsweredWithReplica(d) == Returned((d.reply, d.servedBy))
            && d.servedBy in Replicas
            && ExecutorOf(Line, net, message)(d.attempts, d.servedBy) == Success(d.reply)
  {
    ServedAttempt(Replicas, MaxReplicaRounds, ExecutorOf(Line, net, message));
  }

  /** replica_success_counts before any request: every replica at zero. */
  const InitialCounts: map<Replica, nat> := map[
    Replica("127.0.0.1", 5000) := 0,
    Replica("127.0.0.1", 5001) := 0,
    Replica("127.0.0.1", 5002) := 0
  ]

  /** The replicas of the list are pairwise different, and they are the keys of the tally. */
  lemma ReplicasDistinct()
    ensures forall i, j :: 0 <= i < j < |Replicas| ==> Replicas[i] != Replicas[j]
    ensures forall rep :: rep in InitialCounts <==> rep in Replicas
  {
  }

  /** The tally after one logical request: one more for the serving replica on success,
      nothing on failure. */
  function Record(counts: map<Replica, nat>, d: Dispatched): (after: map<Replica, nat>)
    requires d.Served? ==> d.servedBy in counts
    ensures after.Keys == counts.Keys
    ensures forall rep :: rep in counts ==>
              after[rep] == if d.Served? && rep == d.servedBy then counts[rep] + 1 else counts[rep]
  {
    if d.Served? then counts[d.servedBy := counts[d.servedBy] + 1] else counts
  }

  /** Tallying the answer a request gives its caller is recording the request's outcome. */
  lemma RecordAnswered(counts: map<Replica, nat>, d: Dispatched, answer: Answer<(string, Replica)>,
                       after: map<Replica, nat>)
    requires d.Served? ==> d.servedBy in counts
    requires answer == AnsweredWithReplica(d)
    requires answer.Returned? ==> after == counts[answer.value.1 := counts[answer.value.1] + 1]
    requires !answer.Returned? ==> after == counts
    ensures after == Record(counts, d)
  {
  }

  /** The sum of the counts of the replicas in rs. */
  function Total(counts: map<Replica, nat>, rs: seq<Replica>): nat
    requires forall rep :: rep in rs ==> rep in counts
  {
    if rs == [] then 0 else Total(counts, rs[..|rs| - 1]) + counts[rs[|rs| - 1]]
  }

  /** Adding one to the count of a replica that appears once in rs adds one to the total;
      changing a replica that does not appear changes nothing. */
  lemma {:induction false} TotalIncrement(counts: map<Replica, nat>, rs: seq<Replica>, rep: Replica)
    requires forall x :: x in rs ==> x in counts
    requires rep in counts
    requires forall i, j :: 0 <= i < j < |rs| ==> rs[i] != rs[j]
    ensures Total(counts[rep := counts[rep] + 1], rs) == Total(counts, rs) + (if rep in rs then 1 else 0)
  {
    if rs != [] {
      var init := rs[..|rs| - 1];
      assert forall x :: x in init ==> x in rs;
      TotalIncrement(counts, init, rep);
      if rep == rs[|rs| - 1] {
        assert rep !in init by {
          forall i | 0 <= i < |init|
            ensures init[i] != rep
          {
            assert init[i] == rs[i];
          }
        }
      }
      assert rep in rs <==> rep in init || rep == rs[|rs| - 1];
    }
  }

  /** Recording an outcome adds one to the sum over a list of distinct replicas exactly when
      the outcome was served by one of them. */
  lemma TotalRecord(counts: map<Replica, nat>, rs: seq<Replica>, d: Dispatched)
    requires forall x :: x in rs ==> x in counts
    requires forall i, j :: 0 <= i < j < |rs| ==> rs[i] != rs[j]
    requires d.Served? ==> d.servedBy in rs
    ensures Total(Record(counts, d), rs) == Total(counts, rs) + if d.Served? then 1 else 0
  {
    if d.Served? {
      TotalIncrement(counts, rs, d.servedBy);
    }
  }

  /** A tally whose counts are all zero adds up to zero. */
  lemma {:induction false} TotalOfZeros(counts: map<Replica, nat>, rs: seq<Replica>)
    requires forall x :: x in rs ==> x in counts && counts[x] == 0
    ensures Total(counts, rs) == 0
  {
    if rs != [] {
      TotalOfZeros(counts, rs[..|rs| - 1]);
    }
  }

  /** sum(results) over booleans: the number of true entries. */
  function CountTrue(results: seq<bool>): (ok: nat)
    ensures ok <= |results|
  {
    if results == [] then 0 else CountTrue(results[..|results| - 1]) + (if results[|results| - 1] then 1 else 0)
  }

  /** The number of false entries. */
  function CountFalse(results: seq<bool>): nat
  {
    if results == [] then 0 else CountFalse(results[..|results| - 1]) + (if results[|results| - 1] then 0 else 1)
  }

  /** fail = len(results) - ok counts exactly the failed requests. */
  lemma {:induction false} FailIsCountOfFailures(results: seq<bool>)
    ensures |results| - CountTrue(results) == CountFalse(results)
  {
    if results != [] {
      FailIsCountOfFailures(results[..|results| - 1]);
    }
  }

  /** The outcomes of requests 1 to m in order, request id going over network nets(id). */
  function Outcomes(nets: nat -> Transport, m: nat): (ds: seq<Dispatched>)
    ensures |ds| == m
  {
    if m == 0 then [] else Outcomes(nets, m - 1) + [Request(nets(m), GetCounter)]
  }

  /** Entry j of the outcomes is request j + 1. */
  lemma {:induction false} OutcomeAt(nets: nat -> Transport, m: nat, j: nat)
    requires j < m
    ensures Outcomes(nets, m)[j] == Request(nets(j + 1), GetCounter)
  {
    if j < m - 1 {
      OutcomeAt(nets, m - 1, j);
    }
  }

  /** Every request of this client that is served names a replica of the list. */
  lemma OutcomesServedByReplicas(nets: nat -> Transport, m: nat)
    ensures ServedByReplicas(Outcomes(nets, m))
  {
    var ds := Outcomes(nets, m);
    forall j | 0 <= j < m && ds[j].Served?
      ensures ds[j].servedBy in Replicas
    {
      OutcomeAt(nets, m, j);
      ServedByListed(Replicas, MaxReplicaRounds, ExecutorOf(Line, nets(j + 1), GetCounter));
    }
  }

  /** The booleans one_logical_request returns: success or failure of each request. */
  function Results(ds: seq<Dispatched>): (results: seq<bool>)
    ensures |results| == |ds|
    ensures forall j :: 0 <= j < |ds| ==> results[j] == ds[j].Served?
  {
    seq(|ds|, j requires 0 <= j < |ds| => ds[j].Served?)
  }

  /** Every served outcome names a replica of the list. */
  predicate ServedByReplicas(ds: seq<Dispatched>)
  {
    forall j :: 0 <= j < |ds| ==> ds[j].Served? ==> ds[j].servedBy in Replicas
  }

  /** The tally after the outcomes ds, recorded in order from all zeros. */
  function Tally(ds: seq<Dispatched>): (counts: map<Replica, nat>)
    requires ServedByReplicas(ds)
    ensures counts.Keys == InitialCounts.Keys
  {
    if ds == [] then InitialCounts
    else
      ReplicasDistinct();
      Record(Tally(ds[..|ds| - 1]), ds[|ds| - 1])
  }

  /** Appending one outcome appends its boolean and records it in the tally. */
  lemma FoldStep(ds: seq<Dispatched>, d: Dispatched)
    requires ServedByReplicas(ds) && (d.Served? ==> d.servedBy in Replicas)
    ensures ServedByReplicas(ds + [d])
    ensures Results(ds + [d]) == Results(ds) + [d.Served?]
    ensures Tally(ds + [d]) == Record(Tally(ds), d)
  {
    assert (ds + [d])[..|ds|] == ds;
  }

  /** Recording one more outcome adds one to the sum of the counts exactly when that
      outcome was served. */
  lemma TallyTotalStep(ds: seq<Dispatched>)
    requires ServedByReplicas(ds) && ds != []
    ensures ServedByReplicas(ds[..|ds| - 1])
    ensures Total(Tally(ds), Replicas)
            == Total(Tally(ds[..|ds| - 1]), Replicas) + if ds[|ds| - 1].Served? then 1 else 0
  {
    ReplicasDistinct();
    var init := ds[..|ds| - 1];
    var d := ds[|ds| - 1];
    assert Tally(ds) == Record(Tally(init), d);
    TotalRecord(Tally(init), Replicas, d);
  }

  /** One more outcome adds one to the number of successes exactly when it was served. */
  lemma CountTrueStep(ds: seq<Dispatched>)
    requires ds != []
    ensures CountTrue(Results(ds)) == CountTrue(Results(ds[..|ds| - 1])) + if ds[|ds| - 1].Served? then 1 else 0
  {
    assert Results(ds)[..|ds| - 1] == Results(ds[..|ds| - 1]);
  }

  /** The tally-sum invariant: the counts of all replicas add up to the number of successes. */
  lemma {:induction false} TallyTotal(ds: seq<Dispatched>)
    requires ServedByReplicas(ds)
    ensures Total(Tally(ds), Replicas) == CountTrue(Results(ds))
  {
    if ds == [] {
      ReplicasDistinct();
      TotalOfZeros(InitialCounts, Replicas);
    } else {
      TallyTotalStep(ds);
      CountTrueStep(ds);
      TallyTotal(ds[..|ds| - 1]);
    }
  }

  /** replica_success_counts, updated in place by every logical request. */
  class ReplicaStats {
    var counts: map<Replica, nat>

    /** The tally has exactly the replicas of the list as keys. */
    predicate Valid()
      reads this
    {
      counts.Keys == InitialCounts.Keys
    }

    constructor ()
      ensures Valid() && counts == InitialCounts
    {
      counts := InitialCounts;
    }

    /** The tally update of one_logical_request: one more for the replica that served the
        request and true, or no change and false when it raised RuntimeError. */
    method RecordAnswer(answer: Answer<(string, Replica)>) returns (ok: bool)
      requires Valid()
      requires answer.Returned? ==> answer.value.1 in Replicas
      modifies this
      ensures Valid()
      ensures ok == answer.Returned?
      ensures ok ==> counts == old(counts)[answer.value.1 := old(counts)[answer.value.1] + 1]
      ensures !ok ==> counts == old(counts)
    {
      ReplicasDistinct();
      match answer {
        case Returned(result) =>
          var (_, replica) := result;
          counts := counts[replica := counts[replica] + 1];
          return true;
        case RuntimeError(_, _) =>
          return false;
      }
    }

    /** one_logical_request(req_id, sem): one GET_COUNTER request and its tally update. */
    method OneLogicalRequest(net: Transport) returns (ok: bool, ghost d: Dispatched)
      requires Valid()
      modifies this
      ensures Valid()
      ensures d == Request(net, GetCounter)
      ensures ok == d.Served?
      ensures ok ==> d.servedBy in Replicas
      ensures (ok ==> d.servedBy in old(counts)) && counts == Record(old(counts), d)
    {
      d := Request(net, GetCounter);
      var answer := SendRequestWithRetries(net, GetCounter);
      ServedByListed(Replicas, MaxReplicaRounds, ExecutorOf(Line, net, GetCounter));
      ok := RecordAnswer(answer);
      RecordAnswered(old(counts), d, answer, counts);
    }
  }

  /** main(): requests 1 to TOTAL_REQUESTS, then ok = sum(results) and fail = len(results) - ok.
      The final tally is the in-order fold of the outcomes, its counts add up to ok, and ok and
      fail add up to the number of requests. */
  method RunAll(nets: nat -> Transport) returns (ok: nat, fail: nat, counts: map<Replica, nat>)
    ensures ok == CountTrue(Results(Outcomes(nets, TotalRequests)))
    ensures fail == CountFalse(Results(Outcomes(nets, TotalRequests)))
    ensures ok + fail == TotalRequests
    ensures ServedByReplicas(Outcomes(nets, TotalRequests)) && counts == Tally(Outcomes(nets, TotalRequests))
    ensures counts.Keys == InitialCounts.Keys && Total(counts, Replicas) == ok
  {
    var stats := new ReplicaStats();
    var results: seq<bool> := [];
    ghost var ds: seq<Dispatched> := [];
    for id := 1 to TotalRequests + 1
      invariant stats.Valid()
      invariant ds == Outcomes(nets, id - 1)
      invariant ServedByReplicas(ds) && stats.counts == Tally(ds)
      invariant results == Results(ds)
    {
      var success;
      ghost var d;
      success, d := stats.OneLogicalRequest(nets(id));
      FoldStep(ds, d);
      ds := ds + [d];
      results := results + [success];
    }
    ok := CountTrue(results);
    fail := |results| - ok;
    FailIsCountOfFailures(results);
    counts := stats.counts;
    TallyTotal(Outcomes(nets, TotalRequests));
  }
}
