/** The bookkeeping of background processes: a dictionary of running
    processes under indexed names, and a first-in first-out list of
    requests to start one. Starting an operating system process is not part
    of this model; `RunStep` is given the function that makes a process
    from a request. */
module Processes {
  import opened Results
  import opened PyStrings

  /** A value in the process dictionary. `append` looks the candidate name
      up among the dictionary's values with Python's `==`, which only a
      stored string can satisfy; a process object never equals a name. */
  datatype Stored<P> = Text(text: string) | Handle(process: P)

  /** `["Process", execution_statement, data_nexus]`. */
  datatype Request<N> = Request(kind: string, statement: string, nexus: N)

  /** `''.join([name, str(i)])`. */
  function Candidate(name: string, i: nat): (r: string)
    ensures |r| > |name| && r[..|name|] == name
  {
    name + IntToString(i)
  }

  /** The first index from `i` below 100 whose candidate name is not among
      the stored values, if there is one. */
  function FirstFree<P(==)>(procs: map<string, Stored<P>>, name: string, i: nat): (r: Option<nat>)
    ensures r.Some? ==> i <= r.value < 100 && Text(Candidate(name, r.value)) !in procs.Values
    ensures r.Some? ==> forall j :: i <= j < r.value ==> Text(Candidate(name, j)) in procs.Values
    ensures r.None? ==> forall j :: i <= j < 100 ==> Text(Candidate(name, j)) in procs.Values
    decreases 100 - i
  {
    if i >= 100 then None
    else if Text(Candidate(name, i)) !in procs.Values then Some(i)
    else FirstFree(procs, name, i + 1)
  }

  /** The dictionary after `append(name, process)`: `v` under the first
      free candidate name, or no change when all hundred are taken. */
  function Appended<P(==)>(procs: map<string, Stored<P>>, name: string, v: Stored<P>): (r: map<string, Stored<P>>)
    ensures FirstFree(procs, name, 0).None? ==> r == procs
    ensures FirstFree(procs, name, 0).Some? ==>
      var key := Candidate(name, FirstFree(procs, name, 0).value);
      key in r && r[key] == v &&
      forall k :: k != key ==> (k in r <==> k in procs) && (k in procs ==> r[k] == procs[k])
  {
    match FirstFree(procs, name, 0)
    case None => procs
    case Some(i) => procs[Candidate(name, i) := v]
  }

  /** No stored value is a string. */
  predicate OnlyProcesses<P(==)>(procs: map<string, Stored<P>>)
  {
    forall k :: k in procs ==> procs[k].Handle?
  }

  /** With only processes stored, no candidate name is ever found among the
      values, so `append` always uses the name with `0` appended and
      replaces whatever was stored there before. */
  lemma AppendOverwrites<P>(procs: map<string, Stored<P>>, name: string, v: Stored<P>)
    requires OnlyProcesses(procs)
    ensures Appended(procs, name, v) == procs[name + "0" := v]
    ensures v.Handle? ==> OnlyProcesses(Appended(procs, name, v))
  {
    assert IntToString(0) == "0";
    forall x | x in procs.Values
      ensures x.Handle?
    {
      var k :| k in procs && procs[k] == x;
    }
    assert Text(Candidate(name, 0)) !in procs.Values;
  }

  /** `ProcessList`: `processes` is `self.processes`, `requests` is
      `self.process_starting_request`. */
  class ProcessList<P(==), N> {
    var processes: map<string, Stored<P>>
    var requests: seq<Request<N>>

    /** `__init__()`. */
    constructor()
      ensures processes == map[] && requests == []
    {
      processes := map[];
      requests := [];
    }

    /** `append(name, process)`: tries `name + "0"` up to `name + "99"` and
        stores `v` under the first one not found among the stored values. */
    method Append(name: string, v: Stored<P>)
      modifies this`processes
      ensures processes == Appended(old(processes), name, v)
    {
      for i := 0 to 100
        invariant processes == old(processes)
        invariant FirstFree(processes, name, 0) == FirstFree(processes, name, i)
      {
        var indexed := name + IntToString(i);
        if Text(indexed) !in processes.Values {
          processes := processes[indexed := v];
          return;
        }
      }
    }

    /** `start_process(execution_statement, data_nexus)`: queues a request
        at the end. */
    method StartProcess(statement: string, nexus: N)
      modifies this`requests
      ensures requests == old(requests) + [Request("Process", statement, nexus)]
    {
      requests := requests + [Request("Process", statement, nexus)];
    }

    /** One pass of `run`'s loop after its sleep: when a request is waiting,
        the oldest is taken off the front and its process is appended
        under the request's name. */
    method RunStep(spawn: (string, N) -> P)
      modifies this`processes, this`requests
      ensures old(requests) == [] ==> requests == [] && processes == old(processes)
      ensures old(requests) != [] ==>
        var req := old(requests)[0];
        requests == old(requests)[1..] &&
        processes == Appended(old(processes), req.kind, Handle(spawn(req.statement, req.nexus)))
    {
      if |requests| != 0 {
        var req := requests[0];
        requests := requests[1..];
        Append(req.kind, Handle(spawn(req.statement, req.nexus)));
      }
    }
  }
}
