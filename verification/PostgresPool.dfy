/** `scripts/run_postgres_pool.py`: one shard in a disposable database container, and the
    bounded dispatch loop over a frozen plan. What containers, processes and the clock do is
    given per shard as an `Attempt`; when futures complete is given per round of the loop. */
module PostgresPool {
  import opened Wrappers
  import opened TestBudget

  /** How the guarded part of a shard ended: the test process finished, or something raised an
      error that `_run_shard` catches, or one that it does not. */
  datatype Trouble = Finished | Caught(message: string) | Uncaught

  /** Everything the outside world decides about one shard. `container` is the id Docker
      printed, if the run command succeeded; `hung` says the leftover process survived its
      final kill; `removed` says the container removal succeeded. */
  datatype Attempt = Attempt(container: Option<string>, trouble: Trouble, returncode: int,
                             testElapsed: real, hung: bool, removed: bool, elapsed: real)

  datatype Status = Success | Failed

  datatype ShardResult = ShardResult(shard: nat, status: Status, headroom: bool, containerRemoved: bool,
                                     returncode: Option<int>, elapsed: real)

  predicate IsContainerId(id: string) {
    |id| == 64 && forall i | 0 <= i < 64 :: '0' <= id[i] <= '9' || 'a' <= id[i] <= 'f'
  }

  predicate Contained(a: Attempt) {
    a.container.Some? && IsContainerId(a.container.value)
  }

  /** The test process ran to its end inside an identified container. */
  predicate Completed(a: Attempt) {
    Contained(a) && a.trouble.Finished?
  }

  /** A clean shard: the tests passed with headroom, its container is gone, and the headroom
      still holds with the cleanup time included. */
  predicate Clean(a: Attempt) {
    && Completed(a) && a.returncode == 0 && MeasuredHeadroom(a.testElapsed)
    && a.removed && MeasuredHeadroom(RoundMillis(a.elapsed))
  }

  /** The future of a shard: a result, or `None` when the worker raises. */
  function Outcome(shard: nat, a: Attempt): Option<ShardResult> {
    if a.hung || a.trouble.Uncaught? then None
    else Some(ShardResult(shard, if Clean(a) then Success else Failed,
                          MeasuredHeadroom(RoundMillis(a.elapsed)), Contained(a) && a.removed,
                          if Completed(a) then Some(a.returncode) else None, RoundMillis(a.elapsed)))
  }

  /** `_run_shard`: a result updated through try, except and finally. */
  method RunShard(index: nat, a: Attempt) returns (future: Option<ShardResult>)
    ensures future == Outcome(index, a)
  {
    var result := ShardResult(index, Failed, false, false, None, 0.0);
    var raising := false;
    // The guarded part: start, identify, wait for the tests, judge them.
    if a.trouble.Uncaught? {
      raising := true;
    } else if a.container.Some? && IsContainerId(a.container.value) && a.trouble.Finished? {
      result := result.(returncode := Some(a.returncode), elapsed := RoundMillis(a.testElapsed),
                        headroom := MeasuredHeadroom(a.testElapsed));
      if a.returncode == 0 && result.headroom {
        result := result.(status := Success);
      }
    }
    // The finally block.
    if a.hung {
      return None;
    }
    if a.container.Some? && IsContainerId(a.container.value) {
      if a.removed {
        result := result.(containerRemoved := true);
      } else {
        result := result.(status := Failed);
      }
    }
    result := result.(elapsed := RoundMillis(a.elapsed));
    result := result.(headroom := MeasuredHeadroom(result.elapsed));
    if !result.headroom {
      result := result.(status := Failed);
    }
    future := if raising then None else Some(result);
  }

  /** Shard `shard` finished as `attempt` says. */
  datatype Completion = Completion(shard: nat, attempt: Attempt)

  /** One turn of the loop: whether the cancel file was seen, and what `wait` returned. */
  datatype Round = Round(cancelled: bool, completed: seq<Completion>)

  /** `next` is the shard the pending iterator yields next. */
  datatype State = State(next: nat, active: set<nat>, results: seq<ShardResult>, stop: bool, raised: bool)

  /** The shards 1..n. */
  function UpTo(n: nat): (r: set<nat>)
    ensures forall i: nat :: i in r <==> 1 <= i <= n
  {
    if n == 0 then {} else UpTo(n - 1) + {n}
  }

  lemma {:induction false} UpToSize(n: nat)
    ensures |UpTo(n)| == n
  {
    if n > 0 { UpToSize(n - 1); }
  }

  function Started(total: nat, workers: nat): State {
    var k := Min(workers, total);
    State(k + 1, UpTo(k), [], false, false)
  }

  /** Taking the future of an active shard: keep its result, then refill unless stopped. */
  function Absorb(total: nat, s: State, shard: nat, future: Option<ShardResult>): State {
    var active := s.active - {shard};
    match future
    case None => s.(active := active, stop := true, raised := true)
    case Some(result) =>
      var stop := s.stop || result.status != Success;
      if !stop && s.next <= total
      then State(s.next + 1, active + {s.next}, s.results + [result], stop, false)
      else State(s.next, active, s.results + [result], stop, false)
  }

  /** The body of the loop over completed futures; completions of idle shards cannot occur. */
  function Collect(total: nat, s: State, c: Completion): State {
    if s.raised || c.shard !in s.active then s else Absorb(total, s, c.shard, Outcome(c.shard, c.attempt))
  }

  function CollectAll(total: nat, s: State, cs: seq<Completion>): State {
    if cs == [] then s else Collect(total, CollectAll(total, s, cs[..|cs| - 1]), cs[|cs| - 1])
  }

  function Turn(total: nat, s: State, r: Round): State {
    if s.raised || s.active == {} then s
    else CollectAll(total, s.(stop := s.stop || r.cancelled), r.completed)
  }

  function Turns(total: nat, s: State, rs: seq<Round>): State {
    if rs == [] then s else Turn(total, Turns(total, s, rs[..|rs| - 1]), rs[|rs| - 1])
  }

  function ShardsOf(results: seq<ShardResult>): set<nat> {
    if results == [] then {} else ShardsOf(results[..|results| - 1]) + {results[|results| - 1].shard}
  }

  lemma {:induction false} ShardsOfMeans(results: seq<ShardResult>, k: nat)
    ensures k in ShardsOf(results) <==> exists i :: 0 <= i < |results| && results[i].shard == k
  {
    if results != [] {
      var n := |results| - 1;
      ShardsOfMeans(results[..n], k);
      if i :| 0 <= i < n && results[i].shard == k {
        assert results[..n][i].shard == k;
      }
    }
  }

  /** Started shards are a prefix of the plan, split into active and finished ones; every
      result is of a different shard; a failure has stopped the pool; and until it stops the
      pool keeps as many shards running as workers and plan allow. */
  ghost predicate Safe(total: nat, workers: nat, s: State) {
    && 1 <= s.next <= total + 1
    && (if s.raised then Apart(s.active, s.results) else Split(s.next, s.active, s.results))
    && |s.active| <= workers && Flow(total, workers, s)
  }

  ghost predicate Apart(active: set<nat>, results: seq<ShardResult>) {
    && active !! ShardsOf(results)
    && forall i, j | 0 <= i < j < |results| :: results[i].shard != results[j].shard
  }

  ghost predicate Split(next: nat, active: set<nat>, results: seq<ShardResult>) {
    && next >= 1 && Apart(active, results)
    && active + ShardsOf(results) == UpTo(next - 1)
    && |active| + |results| == next - 1
  }

  ghost predicate Flow(total: nat, workers: nat, s: State) {
    && (s.raised ==> s.stop)
    && (!s.stop ==> AllSuccess(s.results) && |s.active| == Min(workers, total - |s.results|))
    && AllGenuine(s.results)
  }

  ghost predicate AllSuccess(results: seq<ShardResult>) {
    forall i | 0 <= i < |results| :: results[i].status == Success
  }

  ghost predicate AllGenuine(results: seq<ShardResult>) {
    forall i | 0 <= i < |results| :: Genuine(results[i])
  }

  /** A result of status success reports a removed container and headroom kept to the end. */
  ghost predicate Genuine(r: ShardResult) {
    r.status == Success ==> r.containerRemoved && r.headroom && MeasuredHeadroom(r.elapsed) && r.returncode == Some(0)
  }

  lemma StartedIsSafe(total: nat, workers: nat)
    ensures Safe(total, workers, Started(total, workers))
  {
    UpToSize(Min(workers, total));
  }

  lemma AppendResult(results: seq<ShardResult>, r: ShardResult)
    ensures ShardsOf(results + [r]) == ShardsOf(results) + {r.shard}
  {
    assert (results + [r])[..|results|] == results;
  }

  /** A result replaces its active shard in the split of the started ones. */
  lemma ResultMovesShard(next: nat, active: set<nat>, results: seq<ShardResult>, result: ShardResult)
    requires Split(next, active, results) && result.shard in active
    ensures Split(next, active - {result.shard}, results + [result])
  {
    AppendResult(results, result);
    assert |active - {result.shard}| == |active| - 1;
    forall i | 0 <= i < |results| ensures results[i].shard != result.shard {
      ShardsOfMeans(results, results[i].shard);
    }
  }

  lemma StartNext(next: nat, active: set<nat>, results: seq<ShardResult>)
    requires Split(next, active, results)
    ensures Split(next + 1, active + {next}, results)
    ensures |active + {next}| == |active| + 1
  {
    assert next !in UpTo(next - 1);
  }

  lemma AbsorbKeepsFlow(total: nat, workers: nat, s: State, result: ShardResult)
    requires Flow(total, workers, s) && !s.raised && result.shard in s.active && Genuine(result)
    requires |s.active| + |s.results| == s.next - 1 && s.next <= total + 1 && s.next !in s.active
    ensures Flow(total, workers, Absorb(total, s, result.shard, Some(result)))
  {
    assert |s.active - {result.shard}| == |s.active| - 1;
    assert AllGenuine(s.results + [result]);
  }

  lemma NextIsIdle(next: nat, active: set<nat>, results: seq<ShardResult>)
    requires Split(next, active, results)
    ensures next !in active
  {
    assert next !in active + ShardsOf(results);
  }

  lemma AbsorbAndHold(total: nat, s: State, result: ShardResult)
    requires Split(s.next, s.active, s.results) && !s.raised && result.shard in s.active
    ensures var t := Absorb(total, s, result.shard, Some(result));
            t.next == s.next ==> Split(t.next, t.active, t.results) && |t.active| < |s.active|
  {
    assert |s.active - {result.shard}| == |s.active| - 1;
    ResultMovesShard(s.next, s.active, s.results, result);
  }

  lemma AbsorbAndRefill(total: nat, s: State, result: ShardResult)
    requires Split(s.next, s.active, s.results) && !s.raised && result.shard in s.active
    ensures var t := Absorb(total, s, result.shard, Some(result));
            t.next != s.next ==> t.next <= total + 1 && Split(t.next, t.active, t.results) && |t.active| == |s.active|
  {
    assert |s.active - {result.shard}| == |s.active| - 1;
    ResultMovesShard(s.next, s.active, s.results, result);
    StartNext(s.next, s.active - {result.shard}, s.results + [result]);
  }

  lemma AbsorbResult(total: nat, workers: nat, s: State, result: ShardResult)
    requires Safe(total, workers, s) && !s.raised && result.shard in s.active && Genuine(result)
    ensures Safe(total, workers, Absorb(total, s, result.shard, Some(result)))
  {
    NextIsIdle(s.next, s.active, s.results);
    AbsorbKeepsFlow(total, workers, s, result);
    AbsorbAndHold(total, s, result);
    AbsorbAndRefill(total, s, result);
  }

  lemma AbsorbIsSafe(total: nat, workers: nat, s: State, shard: nat, future: Option<ShardResult>)
    requires Safe(total, workers, s) && !s.raised && shard in s.active
    requires future.Some? ==> future.value.shard == shard && Genuine(future.value)
    ensures Safe(total, workers, Absorb(total, s, shard, future))
  {
    if future.Some? {
      AbsorbResult(total, workers, s, future.value);
    } else {
      assert |s.active - {shard}| == |s.active| - 1;
    }
  }

  /** A success of a worker is genuine: the container is gone and headroom held to the end. */
  lemma OutcomeIsGenuine(shard: nat, a: Attempt)
    ensures Outcome(shard, a).Some? ==> Outcome(shard, a).value.shard == shard && Genuine(Outcome(shard, a).value)
  {
  }

  /** Headroom is kept by up to 3200 measured seconds. */
  lemma HeadroomInSeconds(elapsed: real)
    ensures MeasuredHeadroom(elapsed) <==> 0.0 < elapsed <= 3200.0
  {
  }

  /** Exactly which attempts raise, which succeed, and what is reported of the others. */
  lemma OutcomeIsExact(shard: nat, a: Attempt)
    ensures Outcome(shard, a).None? <==> a.hung || a.trouble.Uncaught?
    ensures Outcome(shard, a).Some? ==>
              var r := Outcome(shard, a).value;
              var named := a.container.Some? && |a.container.value| == 64
                           && forall i | 0 <= i < 64 :: a.container.value[i] in "0123456789abcdef";
              && r.shard == shard && r.elapsed == RoundMillis(a.elapsed)
              && (r.status == Success <==>
                    && named && a.trouble.Finished? && a.returncode == 0 && 0.0 < a.testElapsed <= 3200.0
                    && a.removed && 0.0 < r.elapsed <= 3200.0)
              && (r.containerRemoved <==> named && a.removed) && (r.headroom <==> 0.0 < r.elapsed <= 3200.0)
              && r.returncode == if named && a.trouble.Finished? then Some(a.returncode) else None
  {
    HeadroomInSeconds(a.testElapsed);
    HeadroomInSeconds(RoundMillis(a.elapsed));
    if a.container.Some? {
      HexDigits(a.container.value);
    }
  }

  lemma HexDigits(id: string)
    ensures IsContainerId(id) <==> |id| == 64 && forall i | 0 <= i < 64 :: id[i] in "0123456789abcdef"
  {
    forall c: char ensures c in "0123456789abcdef" <==> '0' <= c <= '9' || 'a' <= c <= 'f' {
      HexDigit(c);
    }
  }

  lemma HexDigit(c: char)
    ensures c in "0123456789abcdef" <==> '0' <= c <= '9' || 'a' <= c <= 'f'
  {
    var digits := "0123456789abcdef";
    assert digits[0] == '0' && digits[1] == '1' && digits[2] == '2' && digits[3] == '3' && digits[4] == '4' && digits[5] == '5';
    assert digits[6] == '6' && digits[7] == '7' && digits[8] == '8' && digits[9] == '9' && digits[10] == 'a' && digits[11] == 'b';
    assert digits[12] == 'c' && digits[13] == 'd' && digits[14] == 'e' && digits[15] == 'f';
  }

  lemma CollectIsSafe(total: nat, workers: nat, s: State, c: Completion)
    requires Safe(total, workers, s)
    ensures Safe(total, workers, Collect(total, s, c))
  {
    if !s.raised && c.shard in s.active {
      OutcomeIsGenuine(c.shard, c.attempt);
      AbsorbIsSafe(total, workers, s, c.shard, Outcome(c.shard, c.attempt));
    }
  }

  lemma {:induction false} CollectAllIsSafe(total: nat, workers: nat, s: State, cs: seq<Completion>)
    requires Safe(total, workers, s)
    ensures Safe(total, workers, CollectAll(total, s, cs))
  {
    if cs != [] {
      CollectAllIsSafe(total, workers, s, cs[..|cs| - 1]);
      CollectIsSafe(total, workers, CollectAll(total, s, cs[..|cs| - 1]), cs[|cs| - 1]);
    }
  }

  /** Safety of every run, whatever completes when. */
  lemma {:induction false} PoolIsSafe(total: nat, workers: nat, rs: seq<Round>)
    ensures Safe(total, workers, Turns(total, Started(total, workers), rs))
  {
    if rs == [] {
      StartedIsSafe(total, workers);
    } else {
      PoolIsSafe(total, workers, rs[..|rs| - 1]);
      var s, r := Turns(total, Started(total, workers), rs[..|rs| - 1]), rs[|rs| - 1];
      if !s.raised && s.active != {} {
        CollectAllIsSafe(total, workers, s.(stop := s.stop || r.cancelled), r.completed);
      }
    }
  }

  /** Nothing starts once the pool has stopped, and it never resumes. */
  lemma {:induction false} StoppedStartsNothing(total: nat, s: State, cs: seq<Completion>)
    requires s.stop
    ensures var t := CollectAll(total, s, cs); t.stop && t.next == s.next && t.active <= s.active
  {
    if cs != [] {
      StoppedStartsNothing(total, s, cs[..|cs| - 1]);
    }
  }

  /** After a failed result, a raising worker or an observed cancellation, no later round
      starts a shard. */
  lemma {:induction false} NothingStartsAfterStop(total: nat, s: State, rs: seq<Round>)
    requires s.stop || (rs != [] && rs[0].cancelled && !s.raised && s.active != {})
    ensures Turns(total, s, rs).next == s.next && (s.stop || rs != [] ==> Turns(total, s, rs).stop)
  {
    if rs != [] {
      var n := |rs| - 1;
      var m := Turns(total, s, rs[..n]);
      if n == 0 {
        assert m == s;
        assert rs[n] == rs[0];
      } else {
        NothingStartsAfterStop(total, s, rs[..n]);
      }
      if !m.raised && m.active != {} {
        StoppedStartsNothing(total, m.(stop := m.stop || rs[n].cancelled), rs[n].completed);
      }
    }
  }

  // ---- Why the pool stops.

  /** Round `n` found the loop still running and saw the cancel file. */
  ghost predicate CancelledAt(total: nat, start: State, rs: seq<Round>, n: nat) {
    n < |rs| && rs[n].cancelled && var s := Turns(total, start, rs[..n]); !s.raised && s.active != {}
  }

  ghost predicate FailedResult(results: seq<ShardResult>) {
    exists i :: 0 <= i < |results| && results[i].status != Success
  }

  /** A worker of some completed future raised. */
  ghost predicate WorkerRaised(cs: seq<Completion>) {
    exists c :: c in cs && Outcome(c.shard, c.attempt).None?
  }

  /** What stops or raises while futures are collected was collected. */
  lemma {:induction false} CollectedReasons(total: nat, s: State, cs: seq<Completion>)
    requires !s.raised
    ensures var t := CollectAll(total, s, cs);
            && s.results <= t.results && (s.stop ==> t.stop)
            && (t.stop ==> s.stop || t.raised || FailedResult(t.results))
            && (t.raised ==> WorkerRaised(cs))
  {
    if cs != [] {
      var n := |cs| - 1;
      CollectedReasons(total, s, cs[..n]);
      CollectOneReason(total, CollectAll(total, s, cs[..n]), cs[n]);
    }
  }

  lemma CollectOneReason(total: nat, s: State, c: Completion)
    ensures var t := Collect(total, s, c);
            && s.results <= t.results && (s.stop ==> t.stop) && (s.raised ==> t.raised)
            && (t.stop ==> s.stop || t.raised || FailedResult(t.results))
            && (t.raised ==> s.raised || Outcome(c.shard, c.attempt).None?)
            && (FailedResult(s.results) ==> FailedResult(t.results))
  {
    var t := Collect(total, s, c);
    if t.stop && !s.stop && !t.raised {
      assert t.results[|s.results|].status != Success;
    }
  }

  /** The pool is stopped exactly when a worker raised, a result is not a success, or a round
      that was run saw the cancel file; and it has raised only if a worker did. */
  lemma {:induction false} StopsExactly(total: nat, workers: nat, rs: seq<Round>)
    ensures var s0 := Started(total, workers); var s := Turns(total, s0, rs);
            && (s.stop <==> s.raised || FailedResult(s.results) || exists n :: CancelledAt(total, s0, rs, n))
            && (s.raised ==> exists n :: 0 <= n < |rs| && WorkerRaised(rs[n].completed))
  {
    var s0 := Started(total, workers);
    var s := Turns(total, s0, rs);
    PoolIsSafe(total, workers, rs);
    if n :| CancelledAt(total, s0, rs, n) {
      CancelStops(total, s0, rs, n);
    }
    if rs != [] {
      StopsExactly(total, workers, rs[..|rs| - 1]);
      LastRoundReasons(total, s0, rs);
    }
  }

  lemma CancelStops(total: nat, s: State, rs: seq<Round>, n: nat)
    requires CancelledAt(total, s, rs, n)
    ensures Turns(total, s, rs).stop
  {
    var m := Turns(total, s, rs[..n]);
    TurnsConcat(total, s, rs[..n], rs[n..]);
    assert rs == rs[..n] + rs[n..];
    NothingStartsAfterStop(total, m, rs[n..]);
  }

  lemma {:induction false} TurnsConcat(total: nat, s: State, a: seq<Round>, b: seq<Round>)
    ensures Turns(total, s, a + b) == Turns(total, Turns(total, s, a), b)
  {
    if b == [] {
      assert a + b == a;
    } else {
      assert (a + b)[..|a + b| - 1] == a + b[..|b| - 1];
      TurnsConcat(total, s, a, b[..|b| - 1]);
    }
  }

  lemma LastRoundReasons(total: nat, s0: State, rs: seq<Round>)
    requires rs != []
    ensures var n := |rs| - 1; var m, s := Turns(total, s0, rs[..n]), Turns(total, s0, rs);
            && (s.stop ==> m.stop || s.raised || FailedResult(s.results) || CancelledAt(total, s0, rs, n))
            && (m.raised ==> s.raised) && (FailedResult(m.results) ==> FailedResult(s.results))
            && (s.raised ==> m.raised || WorkerRaised(rs[n].completed))
            && (forall k | 0 <= k < n && CancelledAt(total, s0, rs[..n], k) :: CancelledAt(total, s0, rs, k))
  {
    var n := |rs| - 1;
    var m, s := Turns(total, s0, rs[..n]), Turns(total, s0, rs);
    if !m.raised && m.active != {} {
      CollectedReasons(total, m.(stop := m.stop || rs[n].cancelled), rs[n].completed);
      if FailedResult(m.results) {
        var i :| 0 <= i < |m.results| && m.results[i].status != Success;
        assert s.results[i] == m.results[i];
      }
    }
    forall k | 0 <= k < n && CancelledAt(total, s0, rs[..n], k) ensures CancelledAt(total, s0, rs, k) {
      assert rs[..n][..k] == rs[..k];
    }
  }

  /** A round is productive when the loop had ended or something active completed in it. */
  ghost predicate Productive(s: State, r: Round) {
    s.raised || s.active == {} || exists c | c in r.completed :: c.shard in s.active
  }

  ghost predicate AllProductive(total: nat, s: State, rs: seq<Round>) {
    forall n | 0 <= n < |rs| :: Productive(Turns(total, s, rs[..n]), rs[n])
  }

  /** What a run still has to collect; each collected future lowers it. */
  function Remaining(total: nat, s: State): int {
    2 * (total + 1 - s.next) + |s.active|
  }

  lemma CollectLowers(total: nat, s: State, c: Completion)
    requires s.next <= total + 1
    ensures Collect(total, s, c).next <= total + 1
    ensures !s.raised && c.shard in s.active ==> Remaining(total, Collect(total, s, c)) < Remaining(total, s)
    ensures Remaining(total, Collect(total, s, c)) <= Remaining(total, s)
    ensures forall x | x in s.active && x != c.shard :: x in Collect(total, s, c).active
  {
  }

  lemma {:induction false} CollectAllLowers(total: nat, s: State, cs: seq<Completion>)
    requires s.next <= total + 1 && !s.raised
    ensures var t := CollectAll(total, s, cs);
            && t.next <= total + 1 && Remaining(total, t) <= Remaining(total, s)
            && (t == s || t.raised || Remaining(total, t) < Remaining(total, s))
            && ((exists c | c in cs :: c.shard in s.active) ==> t != s)
  {
    if cs != [] {
      var n := |cs| - 1;
      CollectAllLowers(total, s, cs[..n]);
      var m := CollectAll(total, s, cs[..n]);
      CollectLowers(total, m, cs[n]);
      if m == s {
        assert forall c | c in cs[..n] :: c.shard !in s.active;
        assert forall c | c in cs :: c in cs[..n] || c == cs[n];
      }
    }
  }

  /** The dispatch loop ends: when every round completes something, after at most
      `Remaining` rounds nothing is active or a worker has raised. */
  lemma {:induction false} PoolTerminates(total: nat, workers: nat, rs: seq<Round>)
    requires AllProductive(total, Started(total, workers), rs)
    requires |rs| >= Remaining(total, Started(total, workers))
    ensures var s := Turns(total, Started(total, workers), rs); s.raised || s.active == {}
  {
    var s0 := Started(total, workers);
    RoundsLower(total, workers, rs);
    var s := Turns(total, s0, rs);
    if !s.raised && s.active != {} {
      PoolIsSafe(total, workers, rs);
    }
  }

  lemma {:induction false} RoundsLower(total: nat, workers: nat, rs: seq<Round>)
    requires AllProductive(total, Started(total, workers), rs)
    ensures var s0 := Started(total, workers); var s := Turns(total, s0, rs);
            s.raised || s.active == {} || Remaining(total, s) + |rs| <= Remaining(total, s0)
  {
    if rs != [] {
      var n := |rs| - 1;
      var s0 := Started(total, workers);
      assert forall k | 0 <= k < n :: rs[..n][..k] == rs[..k];
      RoundsLower(total, workers, rs[..n]);
      var m := Turns(total, s0, rs[..n]);
      assert Productive(m, rs[n]);
      if !m.raised && m.active != {} {
        PoolIsSafe(total, workers, rs[..n]);
        var q := m.(stop := m.stop || rs[n].cancelled);
        CollectAllLowers(total, q, rs[n].completed);
      }
    }
  }

  function ExitCode(total: nat, s: State): int {
    if !s.raised && |s.results| == total && forall i | 0 <= i < |s.results| :: s.results[i].status == Success
    then 0 else 1
  }

  ghost predicate Certified(results: seq<ShardResult>, k: nat) {
    exists i :: 0 <= i < |results| && results[i].shard == k && results[i].status == Success
                && results[i].containerRemoved && MeasuredHeadroom(results[i].elapsed)
  }

  /** Exit code zero certifies the plan: every shard 1..total has exactly one result, that
      result is a success, its container was removed and headroom held with the cleanup. */
  lemma ExitZeroCertifiesThePlan(total: nat, workers: nat, rs: seq<Round>)
    requires var s := Turns(total, Started(total, workers), rs); s.active == {} && ExitCode(total, s) == 0
    ensures var s := Turns(total, Started(total, workers), rs);
            && ShardsOf(s.results) == UpTo(total)
            && (forall k | k in UpTo(total) :: Certified(s.results, k))
            && (forall i, j | 0 <= i < j < |s.results| :: s.results[i].shard != s.results[j].shard)
  {
    PoolIsSafe(total, workers, rs);
    var s := Turns(total, Started(total, workers), rs);
    assert ShardsOf(s.results) == UpTo(s.next - 1);
    forall k | k in UpTo(total) ensures Certified(s.results, k) {
      ShardsOfMeans(s.results, k);
      var i :| 0 <= i < |s.results| && s.results[i].shard == k;
      assert Genuine(s.results[i]);
    }
  }

  /** Exit code zero is exactly: no worker raised and every planned shard has a success. */
  lemma ExitZeroExactly(total: nat, workers: nat, rs: seq<Round>)
    requires Turns(total, Started(total, workers), rs).active == {}
    ensures var s := Turns(total, Started(total, workers), rs);
            ExitCode(total, s) == 0 <==> !s.raised && ShardsOf(s.results) == UpTo(total) && !FailedResult(s.results)
  {
    PoolIsSafe(total, workers, rs);
    var s := Turns(total, Started(total, workers), rs);
    if !s.raised {
      UpToSize(total);
      UpToSize(s.next - 1);
    }
  }

  /** Nothing goes wrong: no cancel file is seen and every attempt is clean. */
  ghost predicate AllGoesWell(rs: seq<Round>) {
    forall n | 0 <= n < |rs| :: !rs[n].cancelled && forall c | c in rs[n].completed :: Clean(c.attempt) && !c.attempt.hung
  }

  /** When no round is cancelled, every attempt is clean and every round completes something,
      the whole plan is run and the exit code is zero. */
  lemma CleanPlanExitsZero(total: nat, workers: nat, rs: seq<Round>)
    requires workers >= 1 && AllProductive(total, Started(total, workers), rs)
    requires |rs| >= Remaining(total, Started(total, workers))
    requires AllGoesWell(rs)
    ensures var s := Turns(total, Started(total, workers), rs);
            s.active == {} && !s.stop && ShardsOf(s.results) == UpTo(total) && ExitCode(total, s) == 0
  {
    var s := Turns(total, Started(total, workers), rs);
    PoolTerminates(total, workers, rs);
    PoolIsSafe(total, workers, rs);
    NeverStops(total, workers, rs);
    ExitZeroExactly(total, workers, rs);
  }

  lemma {:induction false} NeverStops(total: nat, workers: nat, rs: seq<Round>)
    requires AllGoesWell(rs)
    ensures !Turns(total, Started(total, workers), rs).stop && !Turns(total, Started(total, workers), rs).raised
  {
    if rs != [] {
      var n := |rs| - 1;
      NeverStops(total, workers, rs[..n]);
      CollectsOn(total, Turns(total, Started(total, workers), rs[..n]), rs[n].completed);
    }
  }

  lemma {:induction false} CollectsOn(total: nat, s: State, cs: seq<Completion>)
    requires !s.stop && !s.raised && forall c | c in cs :: Clean(c.attempt) && !c.attempt.hung
    ensures !CollectAll(total, s, cs).stop && !CollectAll(total, s, cs).raised
  {
    if cs != [] {
      CollectsOn(total, s, cs[..|cs| - 1]);
      assert cs[|cs| - 1] in cs;
    }
  }

  /** The dispatcher of `main`, with the state its loop updates. */
  class Dispatcher {
    const total: nat
    const workers: nat
    var next: nat
    var active: set<nat>
    var results: seq<ShardResult>
    var stop: bool
    var raised: bool

    ghost function View(): State reads this { State(next, active, results, stop, raised) }

    /** Submit the first `min(workers, total)` shards. */
    constructor (total: nat, workers: nat)
      requires 1 <= workers <= MAX_WORKERS
      ensures this.total == total && this.workers == workers
      ensures View() == Started(total, workers)
    {
      this.total, this.workers := total, workers;
      next, active, results, stop, raised := 1, {}, [], false, false;
      new;
      for k := 0 to Min(workers, total)
        invariant this.total == total && this.workers == workers
        invariant View() == State(k + 1, UpTo(k), [], false, false)
      {
        active := active + {next};
        next := next + 1;
      }
    }

    /** One completed future: collect its result, then refill unless stopped. */
    method CollectOne(c: Completion)
      modifies this
      ensures View() == Collect(total, old(View()), c)
    {
      if raised || c.shard !in active {
        return;
      }
      active := active - {c.shard};
      var future := RunShard(c.shard, c.attempt);
      if future.None? {
        stop, raised := true, true;
        return;
      }
      results := results + [future.value];
      if future.value.status != Success {
        stop := true;
      }
      if !stop && next <= total {
        active := active + {next};
        next := next + 1;
      }
    }

    /** The dispatch loop over the rounds the outside world provides. */
    method Dispatch(rounds: seq<Round>) returns (exit: int)
      modifies this
      ensures View() == Turns(total, old(View()), rounds)
      ensures exit == ExitCode(total, View())
    {
      for n := 0 to |rounds|
        invariant View() == Turns(total, old(View()), rounds[..n])
      {
        assert rounds[..n + 1][..n] == rounds[..n];
        if !raised && active != {} {
          ghost var before := View();
          if rounds[n].cancelled {
            stop := true;
          }
          var completed := rounds[n].completed;
          ghost var seen := before.(stop := before.stop || rounds[n].cancelled);
          for k := 0 to |completed|
            invariant View() == CollectAll(total, seen, completed[..k])
          {
            assert completed[..k + 1][..k] == completed[..k];
            CollectOne(completed[k]);
          }
          assert completed[..|completed|] == completed;
        }
      }
      assert rounds[..|rounds|] == rounds;
      exit := if !raised && |results| == total && forall i | 0 <= i < |results| :: results[i].status == Success
              then 0 else 1;
    }
  }
}
