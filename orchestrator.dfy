/**
 * The `run` function: start the downloads and the pi generator in one pool,
 * poll the pool until the generator is its only member, then kill the
 * generator and report the last record it set.
 *
 * There is no scheduler here.  What the other greenlets do while the polling
 * loop sleeps is a parameter: `departures[q]` is the set of jobs that leave
 * the pool during the sleep after poll `q`, and `writes[q]` the records the
 * generator sets during that sleep.  `pool.killone` joins the greenlet it
 * kills, which is a yield point too: `killWrites` are the records the
 * generator sets between the kill request and its exit.
 */
module Orchestrator {
  import opened Wrappers

  /** A greenlet in the pool: download number `pid`, or the pi generator. */
  datatype Job = Download(pid: nat) | PiJob

  /** gevent's `Pool`, reduced to the set of greenlets it holds. */
  class Pool {
    var members: set<Job>

    constructor ()
      ensures members == {}
    {
      members := {};
    }

    /** `len(pool)`. */
    function Len(): nat
      reads this
    {
      |members|
    }

    /** `job in pool`. */
    predicate Contains(job: Job)
      reads this
    {
      job in members
    }

    /** `pool.start(job)`: the job joins the pool. */
    method Start(job: Job)
      modifies this
      ensures members == old(members) + {job}
    {
      members := members + {job};
    }

    /** A job that has finished is discarded from the pool. */
    method Discard(job: Job)
      modifies this
      ensures members == old(members) - {job}
    {
      members := members - {job};
    }

    /** `pool.killone(job)`: a member is killed and leaves; anything else is left alone. */
    method KillOne(job: Job)
      modifies this
      ensures members == old(members) - {job}
    {
      if job in members {
        Discard(job);
      }
    }
  }

  /** gevent's `AsyncResult` as the program uses it: `set` overwrites, `get` returns the latest value. */
  class ResultCell<R> {
    var value: Option<R>

    constructor ()
      ensures value == None
    {
      value := None;
    }

    /** `evt.set(v)`. */
    method Set(v: R)
      modifies this
      ensures value == Some(v)
    {
      value := Some(v);
    }

    /** `evt.get()`; `None` stands for a call that would block forever, no value ever having been set. */
    method Get() returns (r: Option<R>)
      ensures r == value
    {
      r := value;
    }
  }

  /** The condition `len(pool) == 1 and pijob in pool`. */
  predicate Finished(members: set<Job>)
  {
    |members| == 1 && PiJob in members
  }

  /** `dldjobs` after starting `copies` downloads: `[Download(0), ..., Download(copies - 1)]`. */
  function Downloads(copies: nat): seq<Job>
  {
    if copies == 0 then [] else Downloads(copies - 1) + [Download(copies - 1)]
  }

  /** Every job `run` starts. */
  function Submitted(copies: nat): set<Job>
  {
    (set p: nat | p < copies :: Download(p)) + {PiJob}
  }

  /** Every job that has left the pool in the given sleeps. */
  function Departed(departures: seq<set<Job>>): set<Job>
  {
    if departures == [] then {} else Departed(departures[..|departures| - 1]) + departures[|departures| - 1]
  }

  /** The pool's membership at poll `q`. */
  function MembersAt(copies: nat, departures: seq<set<Job>>, q: nat): set<Job>
    requires q <= |departures|
  {
    Submitted(copies) - Departed(departures[..q])
  }

  /** All values set, in the order they were set. */
  function Flatten<R>(writes: seq<seq<R>>): seq<R>
  {
    if writes == [] then [] else Flatten(writes[..|writes| - 1]) + writes[|writes| - 1]
  }

  /** What a cell holds after the given values were set into an empty one. */
  function Latest<R>(values: seq<R>): Option<R>
  {
    if values == [] then None else Some(values[|values| - 1])
  }

  /** How `run` ends: it returns at poll `poll`, or the scheduler script ran out while it was still polling. */
  datatype Outcome<R> =
    | Done(poll: nat, report: Option<R>, dldjobs: seq<Job>, left: set<Job>)
    | StillPolling(members: set<Job>)

  /** The first poll at or after `from` that sees the stop condition, if any. */
  function FirstStop(copies: nat, departures: seq<set<Job>>, from: nat): Option<nat>
    requires from <= |departures|
    decreases |departures| - from
  {
    if Finished(MembersAt(copies, departures, from)) then Some(from)
    else if from == |departures| then None
    else FirstStop(copies, departures, from + 1)
  }

  /**
   * `FirstStop` finds the first poll that sees the stop condition: at the
   * poll it returns the condition holds, at every poll before it (from
   * `from` on) it does not, and when it returns `None` no poll sees it.
   */
  lemma {:induction false} FirstStopIsFirst(copies: nat, departures: seq<set<Job>>, from: nat)
    requires from <= |departures|
    ensures FirstStop(copies, departures, from).Some? ==>
      var p := FirstStop(copies, departures, from).value;
      && from <= p <= |departures|
      && Finished(MembersAt(copies, departures, p))
      && forall q :: from <= q < p ==> !Finished(MembersAt(copies, departures, q))
    ensures FirstStop(copies, departures, from).None? ==>
      forall q :: from <= q <= |departures| ==> !Finished(MembersAt(copies, departures, q))
    decreases |departures| - from
  {
    if !Finished(MembersAt(copies, departures, from)) && from < |departures| {
      FirstStopIsFirst(copies, departures, from + 1);
    }
  }

  /**
   * `run`: start `copies` downloads and the pi generator, then poll.  Polls
   * happen at `q = 0, ..., |departures|`; between poll `q` and poll `q + 1`
   * the generator sets `writes[q]` and the jobs in `departures[q]` leave.
   * `run` returns at the first poll that sees the pi job as the pool's only
   * member (see `FirstStopIsFirst`), with the pi job killed, the pool empty
   * and the report the last record set before that poll or while the kill
   * was joining the generator.  With no downloads the first poll already
   * stops, before the generator has run: the report is `None`, the call
   * `evt.get()` that would block forever.
   */
  method Run<R>(copies: nat, departures: seq<set<Job>>, writes: seq<seq<R>>, killWrites: seq<R>)
    returns (out: Outcome<R>)
    requires |writes| == |departures|
    // Killing a greenlet that has not started yet cancels its start: it sets nothing.
    requires copies == 0 ==> killWrites == []
    ensures copies == 0 ==> out.Done? && out.poll == 0 && out.report == None
    ensures out.Done? ==>
      && FirstStop(copies, departures, 0) == Some(out.poll)
      && out.poll <= |departures|
      && Finished(MembersAt(copies, departures, out.poll))
      && out.report == Latest(Flatten(writes[..out.poll]) + killWrites)
      && out.dldjobs == Downloads(copies)
      && out.left == MembersAt(copies, departures, out.poll) - {PiJob} == {}
    ensures out.StillPolling? ==>
      && FirstStop(copies, departures, 0) == None
      && out.members == MembersAt(copies, departures, |departures|)
  {
    var cell := new ResultCell<R>();
    var pool := new Pool();
    var dldjobs := StartDownloads(pool, copies);
    pool.Start(PiJob);
    PollZero(copies, departures, writes);

    var q := 0;
    while true
      invariant q <= |departures|
      invariant pool.members == MembersAt(copies, departures, q)
      invariant cell.value == Latest(Flatten(writes[..q]))
      invariant FirstStop(copies, departures, 0) == FirstStop(copies, departures, q)
      invariant copies == 0 ==> q == 0
      decreases |departures| - q
    {
      if pool.Len() == 1 && pool.Contains(PiJob) {
        KillAndJoin(pool, cell, killWrites);
        LatestAppend(Flatten(writes[..q]), killWrites);
        OnlyPiWhenFinished(MembersAt(copies, departures, q));
        var report := cell.Get();
        return Done(q, report, dldjobs, pool.members);
      }
      if q == |departures| {
        return StillPolling(pool.members);
      }
      LetOthersRun(pool, cell, departures[q], writes[q]);
      PollNext(copies, departures, writes, q);
      q := q + 1;
    }
  }

  /** Before the first sleep every started job is a member and nothing has been set. */
  lemma PollZero<R>(copies: nat, departures: seq<set<Job>>, writes: seq<seq<R>>)
    ensures MembersAt(copies, departures, 0) == (set p: nat | p < copies :: Download(p)) + {PiJob}
    ensures Latest(Flatten(writes[..0])) == None
  {
    assert departures[..0] == [];
    assert writes[..0] == [];
  }

  /** What one sleep does to the membership and to the latest value set. */
  lemma PollNext<R>(copies: nat, departures: seq<set<Job>>, writes: seq<seq<R>>, q: nat)
    requires q < |departures| && q < |writes|
    ensures MembersAt(copies, departures, q + 1) == MembersAt(copies, departures, q) - departures[q]
    ensures Latest(Flatten(writes[..q + 1])) ==
      (if writes[q] == [] then Latest(Flatten(writes[..q])) else Some(writes[q][|writes[q]| - 1]))
  {
    assert departures[..q + 1][..q] == departures[..q];
    assert writes[..q + 1][..q] == writes[..q];
    assert Flatten(writes[..q + 1]) == Flatten(writes[..q]) + writes[q];
    LatestAppend(Flatten(writes[..q]), writes[q]);
  }

  /** The loop `for i in xrange(copies)`: start each download and record it in `dldjobs`. */
  method StartDownloads(pool: Pool, copies: nat) returns (dldjobs: seq<Job>)
    modifies pool
    ensures pool.members == old(pool.members) + set p: nat | p < copies :: Download(p)
    ensures dldjobs == Downloads(copies)
  {
    dldjobs := [];
    for p := 0 to copies
      invariant dldjobs == Downloads(p)
      invariant pool.members == old(pool.members) + set j: nat | j < p :: Download(j)
    {
      var job := Download(p);
      pool.Start(job);
      dldjobs := dldjobs + [job];
    }
  }

  /**
   * `gevent.sleep(0)` in the polling loop: the generator sets each record of
   * `written` in turn and the jobs in `gone` finish and leave the pool.
   */
  method LetOthersRun<R>(pool: Pool, cell: ResultCell<R>, gone: set<Job>, written: seq<R>)
    modifies pool, cell
    ensures pool.members == old(pool.members) - gone
    ensures cell.value == (if written == [] then old(cell.value) else Some(written[|written| - 1]))
  {
    SetAll(cell, written);
    var left := gone;
    while left != {}
      invariant left <= gone
      invariant pool.members == old(pool.members) - (gone - left)
      invariant cell.value == (if written == [] then old(cell.value) else Some(written[|written| - 1]))
      decreases left
    {
      var job :| job in left;
      pool.Discard(job);
      left := left - {job};
    }
  }

  /**
   * `pool.killone(pijob)`: the kill is queued and the caller joins the
   * generator, which runs on until the kill reaches it and sets each record
   * of `written` in the meantime; then it leaves the pool.
   */
  method KillAndJoin<R>(pool: Pool, cell: ResultCell<R>, written: seq<R>)
    modifies pool, cell
    ensures pool.members == old(pool.members) - {PiJob}
    ensures cell.value == (if written == [] then old(cell.value) else Some(written[|written| - 1]))
  {
    SetAll(cell, written);
    pool.KillOne(PiJob);
  }

  /** The generator calls `evt.set` with each record of `written` in turn. */
  method SetAll<R>(cell: ResultCell<R>, written: seq<R>)
    modifies cell
    ensures cell.value == (if written == [] then old(cell.value) else Some(written[|written| - 1]))
  {
    for t := 0 to |written|
      invariant cell.value == (if t == 0 then old(cell.value) else Some(written[t - 1]))
    {
      cell.Set(written[t]);
    }
  }

  /** Setting `b` after `a` leaves the cell holding `b`'s last value, or `a`'s when `b` is empty. */
  lemma LatestAppend<R>(a: seq<R>, b: seq<R>)
    ensures Latest(a + b) == (if b == [] then Latest(a) else Latest(b))
  {
    if b == [] {
      assert a + b == a;
    }
  }

  /** The stop condition holds exactly when the pi generator is the pool's only member. */
  lemma OnlyPiWhenFinished(members: set<Job>)
    ensures Finished(members) <==> members == {PiJob}
  {
    if Finished(members) {
      var rest := members - {PiJob};
      assert |rest| == 0;
      assert members == rest + {PiJob};
    }
  }

  /** A job that left in some sleep before poll `q` is counted as departed at poll `q`. */
  lemma {:induction false} DepartedIncludes(departures: seq<set<Job>>, j: nat)
    requires j < |departures|
    ensures departures[j] <= Departed(departures)
  {
    var last := |departures| - 1;
    if j < last {
      DepartedIncludes(departures[..last], j);
    }
  }

  /**
   * Once every download has left and the generator has not, the next poll
   * sees the stop condition; with the generator's postcondition `Run` then
   * ends in `Done`, so the program terminates whenever all downloads do.
   */
  lemma {:induction false} AllDownloadsDoneFinishes(copies: nat, departures: seq<set<Job>>)
    requires forall p: nat :: p < copies ==> Download(p) in Departed(departures)
    requires PiJob !in Departed(departures)
    ensures Finished(MembersAt(copies, departures, |departures|))
  {
    assert departures[..|departures|] == departures;
    var m := MembersAt(copies, departures, |departures|);
    assert m == {PiJob};
    OnlyPiWhenFinished(m);
  }

  /**
   * A generator that dies (ZeroDivisionError when `piswitch == 0`) leaves
   * the pool, and from then on no poll sees the stop condition: `run` keeps
   * polling for ever.
   */
  lemma PiCrashNeverFinishes(copies: nat, departures: seq<set<Job>>, j: nat, q: nat)
    requires j < q <= |departures|
    requires PiJob in departures[j]
    ensures !Finished(MembersAt(copies, departures, q))
  {
    DepartedIncludes(departures[..q], j);
  }
}
