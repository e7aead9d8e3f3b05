/**
 * `monitor_and_order`: the polling loop that watches the pinned meals and
 * orders one the moment it is offered. A tick takes one listing snapshot
 * (None when the page could not be fetched); the server's answers to order
 * posts come from `server`, where `server(n)` answers the n-th post of the
 * run. A successful order ends the whole run at once.
 */
module Monitoring {
  import opened Optional
  import opened Meals
  import opened Orders

  /** A pinned meal and whether it has been ordered. */
  datatype TargetMeal = TargetMeal(meal: MealRecord, ordered: bool)

  /** One order post the monitor made for a target. */
  datatype Attempt = Attempt(target: nat, request: Submission, response: Response)

  /** An available record that matches an unordered target: an order the tick tries. */
  datatype Candidate = Candidate(target: nat, record: MealRecord)

  /** How one tick ends: fetch failed (retry at once), nothing ordered (sleep, retry), ordered (exit), all ordered. */
  datatype TickOutcome = FetchFailed | Waiting | OrderPlaced(placed: nat) | Finished

  /** How the monitoring ends: exit after an order, completion, or the operator's interrupt. */
  datatype RunOutcome = Exited(target: nat) | Completed | Cancelled

  /** Seconds slept after a tick that ordered nothing. */
  const CheckInterval: nat := 3

  /** The selected meals, pinned and not yet ordered. */
  function Pinned(selected: seq<MealRecord>): (targets: seq<TargetMeal>)
    ensures |targets| == |selected|
    ensures forall i :: 0 <= i < |selected| ==> targets[i] == TargetMeal(selected[i], false)
  {
    seq(|selected|, i requires 0 <= i < |selected| => TargetMeal(selected[i], false))
  }

  predicate AllOrdered(targets: seq<TargetMeal>)
  {
    forall i :: 0 <= i < |targets| ==> targets[i].ordered
  }

  /** Target `i` marked as ordered. */
  function MarkOrdered(targets: seq<TargetMeal>, i: nat): seq<TargetMeal>
  {
    if i < |targets| then targets[i := targets[i].(ordered := true)] else targets
  }

  /** The available records of the snapshot that match target `i`, in snapshot order. */
  function Block(i: nat, target: MealRecord, records: seq<MealRecord>): seq<Candidate>
  {
    if records == [] then []
    else
      (if Matches(records[0], target) && records[0].available then [Candidate(i, records[0])] else [])
      + Block(i, target, records[1..])
  }

  /** The orders a tick would try for targets `i..`, in the order it tries them. */
  function CandidatesFrom(targets: seq<TargetMeal>, i: nat, records: seq<MealRecord>): seq<Candidate>
    decreases |targets| - i
  {
    if i >= |targets| then []
    else
      (if targets[i].ordered then [] else Block(i, targets[i].meal, records))
      + CandidatesFrom(targets, i + 1, records)
  }

  function Candidates(targets: seq<TargetMeal>, records: seq<MealRecord>): seq<Candidate>
  {
    CandidatesFrom(targets, 0, records)
  }

  /** The posts made while trying candidates, and the target of the accepted one if any. */
  datatype Submitted = Submitted(attempts: seq<Attempt>, winner: Option<nat>)

  function Prepend(done: seq<Attempt>, s: Submitted): Submitted
  {
    Submitted(done + s.attempts, s.winner)
  }

  /**
   * Trying the candidates in order: a candidate without an order id makes no
   * post; otherwise the post numbered `posted` is answered by the server,
   * and the first accepted one stops everything.
   */
  function Submit(cs: seq<Candidate>, server: nat -> Response, posted: nat, canteenId: int, date: string)
    : Submitted
    decreases |cs|
  {
    if cs == [] then Submitted([], None)
    else match OrderRequest(cs[0].record, canteenId, date)
      case None => Submit(cs[1..], server, posted, canteenId, date)
      case Some(request) =>
        var a := Attempt(cs[0].target, request, server(posted));
        if Accepted(a.response) then Submitted([a], Some(cs[0].target))
        else Prepend([a], Submit(cs[1..], server, posted + 1, canteenId, date))
  }

  /** An order post: the target it is for and the request sent. */
  datatype Post = Post(target: nat, request: Submission)

  /** The posts the candidates call for, in order: those whose record has an order id. */
  function Posts(cs: seq<Candidate>, canteenId: int, date: string): seq<Post>
  {
    if cs == [] then []
    else
      (match OrderRequest(cs[0].record, canteenId, date)
       case None => []
       case Some(request) => [Post(cs[0].target, request)])
      + Posts(cs[1..], canteenId, date)
  }

  /** The posts `attempts` made are the first posts of `ps`, answered in turn from post number `posted`. */
  predicate Answered(attempts: seq<Attempt>, ps: seq<Post>, server: nat -> Response, posted: nat)
  {
    && |attempts| <= |ps|
    && forall k :: 0 <= k < |attempts| ==> attempts[k] == Attempt(ps[k].target, ps[k].request, server(posted + k))
  }

  /**
   * The posts made while trying candidates are a prefix of the posts they
   * call for, the k-th answered by the server's answer number `posted + k`.
   */
  lemma {:induction false} SubmitPosts(cs: seq<Candidate>, server: nat -> Response, posted: nat, canteenId: int, date: string)
    ensures Answered(Submit(cs, server, posted, canteenId, date).attempts, Posts(cs, canteenId, date), server, posted)
    decreases |cs|
  {
    if cs != [] {
      match OrderRequest(cs[0].record, canteenId, date)
      case None =>
        SubmitPosts(cs[1..], server, posted, canteenId, date);
      case Some(request) =>
        var p := Post(cs[0].target, request);
        var a := Attempt(cs[0].target, request, server(posted));
        assert Posts(cs, canteenId, date) == [p] + Posts(cs[1..], canteenId, date);
        if !Accepted(a.response) {
          var r := Submit(cs[1..], server, posted + 1, canteenId, date);
          SubmitPosts(cs[1..], server, posted + 1, canteenId, date);
          assert Submit(cs, server, posted, canteenId, date).attempts == [a] + r.attempts;
          AnsweredCons(a, r.attempts, p, Posts(cs[1..], canteenId, date), server, posted);
        }
    }
  }

  lemma AnsweredCons(a: Attempt, rest: seq<Attempt>, p: Post, ps: seq<Post>, server: nat -> Response, posted: nat)
    requires a == Attempt(p.target, p.request, server(posted))
    requires Answered(rest, ps, server, posted + 1)
    ensures Answered([a] + rest, [p] + ps, server, posted)
  {
    forall k | 0 <= k < |[a] + rest|
      ensures ([a] + rest)[k] == Attempt(([p] + ps)[k].target, ([p] + ps)[k].request, server(posted + k))
    {
      if k > 0 {
        assert ([a] + rest)[k] == rest[k - 1];
        assert ([p] + ps)[k] == ps[k - 1];
      }
    }
  }

  /**
   * Trying candidates stops at the first accepted post, whose target is the
   * winner; with no winner every post called for was made and refused.
   */
  lemma SubmitWinner(cs: seq<Candidate>, server: nat -> Response, posted: nat, canteenId: int, date: string)
    ensures var s := Submit(cs, server, posted, canteenId, date);
      && (s.winner.None? ==>
           |s.attempts| == |Posts(cs, canteenId, date)| &&
           forall k :: 0 <= k < |s.attempts| ==> !Accepted(s.attempts[k].response))
      && (s.winner.Some? ==>
           s.attempts != [] && s.attempts[|s.attempts| - 1].target == s.winner.value &&
           Accepted(s.attempts[|s.attempts| - 1].response) &&
           forall k :: 0 <= k < |s.attempts| - 1 ==> !Accepted(s.attempts[k].response))
  {
    SubmitRefused(cs, server, posted, canteenId, date);
    SubmitAccepted(cs, server, posted, canteenId, date);
  }

  /** No post is accepted before the last one. */
  predicate RefusedBefore(attempts: seq<Attempt>, n: int)
  {
    forall k :: 0 <= k < n && k < |attempts| ==> !Accepted(attempts[k].response)
  }

  lemma RefusedCons(a: Attempt, rest: seq<Attempt>, n: int)
    requires !Accepted(a.response) && RefusedBefore(rest, n - 1)
    ensures RefusedBefore([a] + rest, n)
  {
    forall k | 0 <= k < n && k < |[a] + rest|
      ensures !Accepted(([a] + rest)[k].response)
    {
      if k > 0 {
        assert ([a] + rest)[k] == rest[k - 1];
      }
    }
  }

  lemma {:induction false} SubmitRefused(cs: seq<Candidate>, server: nat -> Response, posted: nat, canteenId: int, date: string)
    ensures var s := Submit(cs, server, posted, canteenId, date);
      s.winner.None? ==> |s.attempts| == |Posts(cs, canteenId, date)| && RefusedBefore(s.attempts, |s.attempts|)
    decreases |cs|
  {
    if cs != [] {
      match OrderRequest(cs[0].record, canteenId, date)
      case None =>
        SubmitRefused(cs[1..], server, posted, canteenId, date);
      case Some(request) =>
        var a := Attempt(cs[0].target, request, server(posted));
        if !Accepted(a.response) {
          var r := Submit(cs[1..], server, posted + 1, canteenId, date);
          SubmitRefused(cs[1..], server, posted + 1, canteenId, date);
          assert Submit(cs, server, posted, canteenId, date) == Submitted([a] + r.attempts, r.winner);
          if r.winner.None? {
            assert Posts(cs, canteenId, date) == [Post(cs[0].target, request)] + Posts(cs[1..], canteenId, date);
            RefusedCons(a, r.attempts, |r.attempts| + 1);
          }
        }
    }
  }

  lemma {:induction false} SubmitAccepted(cs: seq<Candidate>, server: nat -> Response, posted: nat, canteenId: int, date: string)
    ensures var s := Submit(cs, server, posted, canteenId, date);
      s.winner.Some? ==>
        s.attempts != [] && s.attempts[|s.attempts| - 1].target == s.winner.value &&
        Accepted(s.attempts[|s.attempts| - 1].response) && RefusedBefore(s.attempts, |s.attempts| - 1)
    decreases |cs|
  {
    if cs != [] {
      match OrderRequest(cs[0].record, canteenId, date)
      case None =>
        SubmitAccepted(cs[1..], server, posted, canteenId, date);
      case Some(request) =>
        var a := Attempt(cs[0].target, request, server(posted));
        if !Accepted(a.response) {
          var r := Submit(cs[1..], server, posted + 1, canteenId, date);
          SubmitAccepted(cs[1..], server, posted + 1, canteenId, date);
          assert Submit(cs, server, posted, canteenId, date) == Submitted([a] + r.attempts, r.winner);
          if r.winner.Some? {
            RefusedCons(a, r.attempts, |r.attempts|);
            assert ([a] + r.attempts)[|r.attempts|] == r.attempts[|r.attempts| - 1];
          }
        }
    }
  }

  /** Every post called for is the order request of one of the candidates, for its target. */
  lemma {:induction false} PostsFrom(cs: seq<Candidate>, canteenId: int, date: string, k: nat)
    returns (c: Candidate)
    requires k < |Posts(cs, canteenId, date)|
    ensures c in cs && c.target == Posts(cs, canteenId, date)[k].target
    ensures OrderRequest(c.record, canteenId, date) == Some(Posts(cs, canteenId, date)[k].request)
    decreases |cs|
  {
    var head := match OrderRequest(cs[0].record, canteenId, date)
      case None => []
      case Some(request) => [Post(cs[0].target, request)];
    assert Posts(cs, canteenId, date) == head + Posts(cs[1..], canteenId, date);
    if k < |head| {
      c := cs[0];
    } else {
      c := PostsFrom(cs[1..], canteenId, date, k - |head|);
    }
  }

  /** Every candidate with an order id calls for a post. */
  lemma {:induction false} PostsComplete(cs: seq<Candidate>, canteenId: int, date: string, c: Candidate)
    returns (k: nat)
    requires c in cs && OrderRequest(c.record, canteenId, date).Some?
    ensures k < |Posts(cs, canteenId, date)|
    ensures Posts(cs, canteenId, date)[k] == Post(c.target, OrderRequest(c.record, canteenId, date).value)
    decreases |cs|
  {
    var head := match OrderRequest(cs[0].record, canteenId, date)
      case None => []
      case Some(request) => [Post(cs[0].target, request)];
    assert Posts(cs, canteenId, date) == head + Posts(cs[1..], canteenId, date);
    if cs[0] == c {
      k := 0;
    } else {
      assert c in cs[1..];
      var k' := PostsComplete(cs[1..], canteenId, date, c);
      k := |head| + k';
    }
  }

  /** The records of a snapshot that a target's block holds: exactly the available matching ones. */
  lemma {:induction false} BlockMembers(i: nat, target: MealRecord, records: seq<MealRecord>, c: Candidate)
    ensures c in Block(i, target, records) <==>
      c.target == i && c.record in records && Matches(c.record, target) && c.record.available
    decreases |records|
  {
    if records != [] {
      BlockMembers(i, target, records[1..], c);
      assert records == [records[0]] + records[1..];
    }
  }

  lemma CandidatesFromCons(targets: seq<TargetMeal>, i: nat, records: seq<MealRecord>, c: Candidate)
    requires i < |targets|
    ensures c in CandidatesFrom(targets, i, records) <==>
      (!targets[i].ordered && c in Block(i, targets[i].meal, records)) || c in CandidatesFrom(targets, i + 1, records)
  {
    var head := if targets[i].ordered then [] else Block(i, targets[i].meal, records);
    var rest := CandidatesFrom(targets, i + 1, records);
    assert CandidatesFrom(targets, i, records) == head + rest;
    assert c in head + rest <==> c in head || c in rest;
  }

  /** A tick tries this pair: an unordered target and an available record of the snapshot matching it. */
  predicate Tried(targets: seq<TargetMeal>, records: seq<MealRecord>, c: Candidate)
  {
    c.target < |targets| && !targets[c.target].ordered &&
    c.record in records && Matches(c.record, targets[c.target].meal) && c.record.available
  }

  lemma BlockTried(targets: seq<TargetMeal>, i: nat, records: seq<MealRecord>, c: Candidate)
    requires i < |targets|
    ensures (!targets[i].ordered && c in Block(i, targets[i].meal, records)) <==> c.target == i && Tried(targets, records, c)
  {
    BlockMembers(i, targets[i].meal, records, c);
  }

  lemma {:induction false} CandidatesFromMembers(targets: seq<TargetMeal>, i: nat, records: seq<MealRecord>, c: Candidate)
    ensures c in CandidatesFrom(targets, i, records) <==> i <= c.target && Tried(targets, records, c)
    decreases |targets| - i
  {
    if i < |targets| {
      CandidatesFromCons(targets, i, records, c);
      CandidatesFromMembers(targets, i + 1, records, c);
      BlockTried(targets, i, records, c);
    }
  }

  /**
   * The orders a tick tries are exactly the pairs of an unordered target and
   * an available record of the snapshot with the same menu id, section and
   * number: ordered targets are skipped and every matching record is visited.
   */
  lemma CandidatesMembers(targets: seq<TargetMeal>, records: seq<MealRecord>, c: Candidate)
    ensures c in Candidates(targets, records) <==>
      c.target < |targets| && !targets[c.target].ordered &&
      c.record in records && Matches(c.record, targets[c.target].meal) && c.record.available
  {
    CandidatesFromMembers(targets, 0, records, c);
  }

  /** Which orders a tick tries does not depend on the order of the snapshot's records. */
  lemma CandidatesOrderFree(targets: seq<TargetMeal>, records: seq<MealRecord>, shuffled: seq<MealRecord>)
    requires multiset(records) == multiset(shuffled)
    ensures forall c :: c in Candidates(targets, records) <==> c in Candidates(targets, shuffled)
  {
    forall c
      ensures c in Candidates(targets, records) <==> c in Candidates(targets, shuffled)
    {
      CandidatesMembers(targets, records, c);
      CandidatesMembers(targets, shuffled, c);
      assert c.record in records <==> c.record in multiset(records);
      assert c.record in shuffled <==> c.record in multiset(shuffled);
    }
  }

  /** With every target ordered there is nothing to try. */
  lemma AllOrderedNoCandidates(targets: seq<TargetMeal>, records: seq<MealRecord>)
    requires AllOrdered(targets)
    ensures Candidates(targets, records) == []
  {
    if Candidates(targets, records) != [] {
      CandidatesMembers(targets, records, Candidates(targets, records)[0]);
    }
  }

  /** The outcome of one tick and the targets and post log after it. */
  datatype TickResult = TickResult(outcome: TickOutcome, targets: seq<TargetMeal>, log: seq<Attempt>)

  /** One tick of the monitoring loop, given the targets and the posts made so far. */
  function TickSpec(targets: seq<TargetMeal>, log: seq<Attempt>, snapshot: Option<seq<MealRecord>>,
                    server: nat -> Response, canteenId: int, date: string): TickResult
  {
    match snapshot
    case None => TickResult(FetchFailed, targets, log)
    case Some(records) =>
      var s := Submit(Candidates(targets, records), server, |log|, canteenId, date);
      match s.winner
      case Some(i) => TickResult(OrderPlaced(i), MarkOrdered(targets, i), log + s.attempts)
      case None => TickResult(if AllOrdered(targets) then Finished else Waiting, targets, log + s.attempts)
  }

  /** The outcome of the whole monitoring and the state it leaves. */
  datatype RunResult = RunResult(outcome: RunOutcome, targets: seq<TargetMeal>, log: seq<Attempt>, slept: nat)

  /**
   * The monitoring loop over a sequence of snapshots, one per tick; running
   * out of snapshots stands for the operator's interrupt.
   */
  function RunSpec(targets: seq<TargetMeal>, log: seq<Attempt>, slept: nat,
                   snapshots: seq<Option<seq<MealRecord>>>, server: nat -> Response,
                   canteenId: int, date: string): RunResult
    decreases |snapshots|
  {
    if snapshots == [] then RunResult(Cancelled, targets, log, slept)
    else
      var t := TickSpec(targets, log, snapshots[0], server, canteenId, date);
      match t.outcome
      case OrderPlaced(i) => RunResult(Exited(i), t.targets, t.log, slept)
      case Finished => RunResult(Completed, t.targets, t.log, slept)
      case FetchFailed => RunSpec(t.targets, t.log, slept, snapshots[1..], server, canteenId, date)
      case Waiting => RunSpec(t.targets, t.log, slept + CheckInterval, snapshots[1..], server, canteenId, date)
  }

  lemma BlockStep(i: nat, target: MealRecord, records: seq<MealRecord>, j: nat)
    requires j < |records|
    ensures Block(i, target, records[j..]) ==
      (if Matches(records[j], target) && records[j].available then [Candidate(i, records[j])] else [])
      + Block(i, target, records[j + 1..])
  {
    assert records[j..][0] == records[j];
    assert records[j..][1..] == records[j + 1..];
  }

  lemma SubmitSkip(c: Candidate, rest: seq<Candidate>, server: nat -> Response, posted: nat, canteenId: int, date: string)
    requires OrderRequest(c.record, canteenId, date).None?
    ensures Submit([c] + rest, server, posted, canteenId, date) == Submit(rest, server, posted, canteenId, date)
  {
    assert ([c] + rest)[1..] == rest;
  }

  lemma SubmitPost(c: Candidate, rest: seq<Candidate>, server: nat -> Response, posted: nat, canteenId: int, date: string)
    requires OrderRequest(c.record, canteenId, date).Some?
    ensures Submit([c] + rest, server, posted, canteenId, date) ==
      var a := Attempt(c.target, OrderRequest(c.record, canteenId, date).value, server(posted));
      if Accepted(a.response) then Submitted([a], Some(c.target))
      else Prepend([a], Submit(rest, server, posted + 1, canteenId, date))
  {
    assert ([c] + rest)[0] == c;
    assert ([c] + rest)[1..] == rest;
  }

  lemma PrependPrepend(d1: seq<Attempt>, d2: seq<Attempt>, s: Submitted)
    ensures Prepend(d1, Prepend(d2, s)) == Prepend(d1 + d2, s)
  {
    assert d1 + (d2 + s.attempts) == d1 + d2 + s.attempts;
  }

  /** Trying `a + b` tries `a`, then, unless one was accepted, `b` with the posts numbered on. */
  lemma {:induction false} SubmitAppend(a: seq<Candidate>, b: seq<Candidate>, server: nat -> Response, posted: nat,
                                        canteenId: int, date: string)
    ensures Submit(a + b, server, posted, canteenId, date) ==
      var s := Submit(a, server, posted, canteenId, date);
      if s.winner.Some? then s
      else Prepend(s.attempts, Submit(b, server, posted + |s.attempts|, canteenId, date))
    decreases |a|
  {
    if a == [] {
      assert a + b == b;
    } else {
      assert (a + b)[0] == a[0];
      assert (a + b)[1..] == a[1..] + b;
      match OrderRequest(a[0].record, canteenId, date)
      case None =>
        SubmitAppend(a[1..], b, server, posted, canteenId, date);
      case Some(request) =>
        SubmitAppend(a[1..], b, server, posted + 1, canteenId, date);
        var r := Submit(a[1..], server, posted + 1, canteenId, date);
        var x := Attempt(a[0].target, request, server(posted));
        PrependPrepend([x], r.attempts, Submit(b, server, posted + 1 + |r.attempts|, canteenId, date));
    }
  }

  /** `whole` is what is already posted, `done`, followed by trying the candidates of targets `i..`. */
  ghost predicate SweepPending(whole: Submitted, done: seq<Attempt>, targets: seq<TargetMeal>, i: nat,
                               records: seq<MealRecord>, server: nat -> Response, posted: nat, canteenId: int, date: string)
  {
    whole == Prepend(done, Submit(CandidatesFrom(targets, i, records), server, posted, canteenId, date))
  }

  lemma SweepStart(targets: seq<TargetMeal>, records: seq<MealRecord>, server: nat -> Response, posted: nat,
                   canteenId: int, date: string)
    ensures SweepPending(Submit(Candidates(targets, records), server, posted, canteenId, date), [], targets, 0,
                         records, server, posted, canteenId, date)
  {
    assert [] + Submit(Candidates(targets, records), server, posted, canteenId, date).attempts
      == Submit(Candidates(targets, records), server, posted, canteenId, date).attempts;
  }

  /** Trying the candidates from target `i` on: target `i`'s block first, then the rest unless it won. */
  lemma SweepStep(targets: seq<TargetMeal>, i: nat, records: seq<MealRecord>, server: nat -> Response, posted: nat,
                  canteenId: int, date: string, done: seq<Attempt>, whole: Submitted)
    requires i < |targets| && !targets[i].ordered
    requires SweepPending(whole, done, targets, i, records, server, posted, canteenId, date)
    ensures var s := Submit(Block(i, targets[i].meal, records), server, posted, canteenId, date);
      && (s.winner.Some? ==> whole == Submitted(done + s.attempts, s.winner))
      && (s.winner.None? ==> SweepPending(whole, done + s.attempts, targets, i + 1, records, server,
                                          posted + |s.attempts|, canteenId, date))
  {
    var block := Block(i, targets[i].meal, records);
    var next := CandidatesFrom(targets, i + 1, records);
    var s := Submit(block, server, posted, canteenId, date);
    SubmitAppend(block, next, server, posted, canteenId, date);
    PrependPrepend(done, s.attempts, Submit(next, server, posted + |s.attempts|, canteenId, date));
  }

  lemma AppendAssoc<T>(a: seq<T>, b: seq<T>, c: seq<T>)
    ensures a + b + c == a + (b + c)
  {
  }

  /**
   * After the inner loop for an unordered target `i`, which posted `after[|before|..]`:
   * either that target won and the sweep is over, or the sweep goes on with target `i + 1`.
   */
  lemma SweepAfter(whole: Submitted, start: seq<Attempt>, done: seq<Attempt>, t0: seq<TargetMeal>, i: nat,
                   records: seq<MealRecord>, server: nat -> Response, canteenId: int, date: string,
                   before: seq<Attempt>, after: seq<Attempt>, accepted: bool, t1: seq<TargetMeal>)
    requires i < |t0| && !t0[i].ordered && before == start + done
    requires SweepPending(whole, done, t0, i, records, server, |before|, canteenId, date)
    requires var s := Submit(Block(i, t0[i].meal, records), server, |before|, canteenId, date);
      && after == before + s.attempts
      && accepted == s.winner.Some?
      && (accepted ==> s.winner.value == i)
      && t1 == (if accepted then MarkOrdered(t0, i) else t0)
    ensures after == start + (done + after[|before|..])
    ensures accepted ==> whole == Submitted(done + after[|before|..], Some(i)) && t1 == MarkOrdered(t0, i)
    ensures !accepted ==>
      t1 == t0 && SweepPending(whole, done + after[|before|..], t1, i + 1, records, server, |after|, canteenId, date)
  {
    var s := Submit(Block(i, t0[i].meal, records), server, |before|, canteenId, date);
    assert after[|before|..] == s.attempts;
    AppendAssoc(start, done, s.attempts);
    SweepStep(t0, i, records, server, |before|, canteenId, date, done, whole);
  }

  /** A target already ordered contributes no candidates. */
  lemma SweepSkip(targets: seq<TargetMeal>, i: nat, records: seq<MealRecord>, server: nat -> Response, posted: nat,
                  canteenId: int, date: string, done: seq<Attempt>, whole: Submitted)
    requires i < |targets| && targets[i].ordered
    requires SweepPending(whole, done, targets, i, records, server, posted, canteenId, date)
    ensures SweepPending(whole, done, targets, i + 1, records, server, posted, canteenId, date)
  {
    assert [] + CandidatesFrom(targets, i + 1, records) == CandidatesFrom(targets, i + 1, records);
  }

  /** Past the last target nothing is left to try. */
  lemma SweepEnd(targets: seq<TargetMeal>, records: seq<MealRecord>, server: nat -> Response, posted: nat,
                 canteenId: int, date: string, done: seq<Attempt>, whole: Submitted)
    requires SweepPending(whole, done, targets, |targets|, records, server, posted, canteenId, date)
    ensures whole == Submitted(done, None)
  {
    assert done + [] == done;
  }

  /** `whole` is what is already posted, `done`, followed by trying the rest of target `i`'s records. */
  ghost predicate TryPending(whole: Submitted, done: seq<Attempt>, i: nat, target: MealRecord, rest: seq<MealRecord>,
                             server: nat -> Response, posted: nat, canteenId: int, date: string)
  {
    whole == Prepend(done, Submit(Block(i, target, rest), server, posted, canteenId, date))
  }

  /** Trying the records of a snapshot from `j` on, for target `i`: a record that makes no post is passed over. */
  lemma TrySkip(i: nat, target: MealRecord, records: seq<MealRecord>, j: nat, server: nat -> Response, posted: nat,
                canteenId: int, date: string, done: seq<Attempt>, whole: Submitted)
    requires j < |records|
    requires !(Matches(records[j], target) && records[j].available) || OrderRequest(records[j], canteenId, date).None?
    requires TryPending(whole, done, i, target, records[j..], server, posted, canteenId, date)
    ensures TryPending(whole, done, i, target, records[j + 1..], server, posted, canteenId, date)
  {
    BlockStep(i, target, records, j);
    var rest := Block(i, target, records[j + 1..]);
    if Matches(records[j], target) && records[j].available {
      SubmitSkip(Candidate(i, records[j]), rest, server, posted, canteenId, date);
    } else {
      assert [] + rest == rest;
    }
  }

  /** Trying the records of a snapshot from `j` on, for target `i`: a record with an order id is posted. */
  lemma TryPost(i: nat, target: MealRecord, records: seq<MealRecord>, j: nat, server: nat -> Response,
                canteenId: int, date: string, start: seq<Attempt>, done: seq<Attempt>, before: seq<Attempt>,
                whole: Submitted, request: Submission)
    requires j < |records| && before == start + done
    requires Matches(records[j], target) && records[j].available
    requires OrderRequest(records[j], canteenId, date) == Some(request)
    requires TryPending(whole, done, i, target, records[j..], server, |before|, canteenId, date)
    ensures var a := Attempt(i, request, server(|before|));
      && before + [a] == start + (done + [a])
      && (Accepted(a.response) ==> whole == Submitted(done + [a], Some(i)))
      && (!Accepted(a.response) ==>
            TryPending(whole, done + [a], i, target, records[j + 1..], server, |before + [a]|, canteenId, date))
  {
    var posted := |before|;
    var a := Attempt(i, request, server(posted));
    BlockStep(i, target, records, j);
    var rest := Block(i, target, records[j + 1..]);
    SubmitPost(Candidate(i, records[j]), rest, server, posted, canteenId, date);
    PrependPrepend(done, [a], Submit(rest, server, posted + 1, canteenId, date));
    AppendAssoc(start, done, [a]);
  }

  /** The posts of a tick that fetched `records`: the posts its candidates call for, tried in order. */
  function TickPosts(targets: seq<TargetMeal>, log: seq<Attempt>, records: seq<MealRecord>,
                     server: nat -> Response, canteenId: int, date: string): Submitted
  {
    Submit(Candidates(targets, records), server, |log|, canteenId, date)
  }

  /**
   * A tick only appends to the post log, and every post it makes is the order
   * request of an available record of the snapshot that matches a target
   * still unordered at the start of the tick, answered by the server's
   * answer for that post's number: an ordered target is never ordered again.
   */
  lemma TickNeverResubmits(targets: seq<TargetMeal>, log: seq<Attempt>, snapshot: Option<seq<MealRecord>>,
                           server: nat -> Response, canteenId: int, date: string, k: nat)
    returns (record: MealRecord)
    requires |log| <= k < |TickSpec(targets, log, snapshot, server, canteenId, date).log|
    ensures var t := TickSpec(targets, log, snapshot, server, canteenId, date);
      && snapshot.Some? && record in snapshot.value
      && t.log[k].target < |targets| && !targets[t.log[k].target].ordered
      && Matches(record, targets[t.log[k].target].meal) && record.available
      && OrderRequest(record, canteenId, date) == Some(t.log[k].request)
      && t.log[k].response == server(k)
  {
    var t := TickSpec(targets, log, snapshot, server, canteenId, date);
    var records := snapshot.value;
    var cs := Candidates(targets, records);
    var s := TickPosts(targets, log, records, server, canteenId, date);
    assert t.log == log + s.attempts;
    SubmitPosts(cs, server, |log|, canteenId, date);
    assert t.log[k] == s.attempts[k - |log|];
    var c := PostsFrom(cs, canteenId, date, k - |log|);
    CandidatesMembers(targets, records, c);
    record := c.record;
  }

  /** A tick always keeps the posts made before it. */
  lemma TickKeepsLog(targets: seq<TargetMeal>, log: seq<Attempt>, snapshot: Option<seq<MealRecord>>,
                     server: nat -> Response, canteenId: int, date: string)
    ensures var t := TickSpec(targets, log, snapshot, server, canteenId, date);
      |log| <= |t.log| && t.log[..|log|] == log
  {
    var t := TickSpec(targets, log, snapshot, server, canteenId, date);
    if snapshot.Some? {
      assert t.log == log + TickPosts(targets, log, snapshot.value, server, canteenId, date).attempts;
    }
  }

  /**
   * The state after an order for target `i` was accepted, given the targets
   * and the posts before and after: `i` was unordered and is now the only
   * change, the accepted post is the last one and every new post before it
   * was refused.
   */
  predicate ExitedWith(before: seq<TargetMeal>, log: seq<Attempt>, after: seq<TargetMeal>, posts: seq<Attempt>, i: nat)
  {
    && i < |before| && !before[i].ordered
    && after == before[i := before[i].(ordered := true)]
    && |log| < |posts| && posts[|posts| - 1].target == i && Accepted(posts[|posts| - 1].response)
    && forall k :: |log| <= k < |posts| - 1 ==> !Accepted(posts[k].response)
  }

  lemma ExitedAppend(targets: seq<TargetMeal>, log: seq<Attempt>, attempts: seq<Attempt>, i: nat)
    requires i < |targets| && !targets[i].ordered
    requires attempts != [] && attempts[|attempts| - 1].target == i && Accepted(attempts[|attempts| - 1].response)
    requires forall k :: 0 <= k < |attempts| - 1 ==> !Accepted(attempts[k].response)
    ensures ExitedWith(targets, log, targets[i := targets[i].(ordered := true)], log + attempts, i)
  {
    var posts := log + attempts;
    assert posts[|posts| - 1] == attempts[|attempts| - 1];
    forall k | |log| <= k < |posts| - 1
      ensures !Accepted(posts[k].response)
    {
      assert posts[k] == attempts[k - |log|];
    }
  }

  /** A tick that places an order for `i`: its posts are the winning submission's, appended to the log. */
  lemma TickWinner(targets: seq<TargetMeal>, log: seq<Attempt>, snapshot: Option<seq<MealRecord>>,
                   server: nat -> Response, canteenId: int, date: string, i: nat)
    requires TickSpec(targets, log, snapshot, server, canteenId, date).outcome == OrderPlaced(i)
    ensures snapshot.Some?
    ensures var t := TickSpec(targets, log, snapshot, server, canteenId, date);
      var s := TickPosts(targets, log, snapshot.value, server, canteenId, date);
      && s.winner == Some(i) && t.log == log + s.attempts && t.targets == MarkOrdered(targets, i)
  {
  }

  /** The target a winning post is for was unordered. */
  lemma WinnerUnordered(targets: seq<TargetMeal>, log: seq<Attempt>, snapshot: Option<seq<MealRecord>>,
                        server: nat -> Response, canteenId: int, date: string, i: nat)
    requires snapshot.Some?
    requires var s := TickPosts(targets, log, snapshot.value, server, canteenId, date);
      && s.winner == Some(i) && s.attempts != [] && s.attempts[|s.attempts| - 1].target == i
      && TickSpec(targets, log, snapshot, server, canteenId, date).log == log + s.attempts
    ensures i < |targets| && !targets[i].ordered
  {
    var t := TickSpec(targets, log, snapshot, server, canteenId, date);
    var s := TickPosts(targets, log, snapshot.value, server, canteenId, date);
    assert t.log[|t.log| - 1] == s.attempts[|s.attempts| - 1];
    var _ := TickNeverResubmits(targets, log, snapshot, server, canteenId, date, |t.log| - 1);
  }

  /**
   * When a tick places an order it is for an unordered target, the target is
   * marked ordered and nothing else changes, and the accepted post is the
   * tick's last: every post before it in the tick was refused.
   */
  lemma TickOrderPlaced(targets: seq<TargetMeal>, log: seq<Attempt>, snapshot: Option<seq<MealRecord>>,
                        server: nat -> Response, canteenId: int, date: string, i: nat)
    requires TickSpec(targets, log, snapshot, server, canteenId, date).outcome == OrderPlaced(i)
    ensures var t := TickSpec(targets, log, snapshot, server, canteenId, date);
      ExitedWith(targets, log, t.targets, t.log, i)
  {
    TickWinner(targets, log, snapshot, server, canteenId, date, i);
    var s := TickPosts(targets, log, snapshot.value, server, canteenId, date);
    SubmitWinner(Candidates(targets, snapshot.value), server, |log|, canteenId, date);
    WinnerUnordered(targets, log, snapshot, server, canteenId, date, i);
    ExitedAppend(targets, log, s.attempts, i);
  }

  /**
   * A tick that places no order changes no target, and every post it made
   * was refused, so each of those targets is tried again on the next tick.
   */
  lemma TickNoOrder(targets: seq<TargetMeal>, log: seq<Attempt>, snapshot: Option<seq<MealRecord>>,
                    server: nat -> Response, canteenId: int, date: string)
    requires !TickSpec(targets, log, snapshot, server, canteenId, date).outcome.OrderPlaced?
    ensures var t := TickSpec(targets, log, snapshot, server, canteenId, date);
      && t.targets == targets
      && forall k :: |log| <= k < |t.log| ==> !Accepted(t.log[k].response)
  {
    if snapshot.Some? {
      var t := TickSpec(targets, log, snapshot, server, canteenId, date);
      var s := TickPosts(targets, log, snapshot.value, server, canteenId, date);
      SubmitWinner(Candidates(targets, snapshot.value), server, |log|, canteenId, date);
      assert t.log == log + s.attempts;
      assert forall k :: |log| <= k < |t.log| ==> t.log[k] == s.attempts[k - |log|];
    }
  }

  /**
   * A tick that places no order has tried every available record matching
   * every unordered target: there is no early exit from the record scan.
   */
  lemma TickTriesEveryMatch(targets: seq<TargetMeal>, log: seq<Attempt>, records: seq<MealRecord>,
                            server: nat -> Response, canteenId: int, date: string,
                            i: nat, record: MealRecord) returns (k: nat)
    requires !TickSpec(targets, log, Some(records), server, canteenId, date).outcome.OrderPlaced?
    requires i < |targets| && !targets[i].ordered
    requires record in records && Matches(record, targets[i].meal) && record.available
    requires OrderRequest(record, canteenId, date).Some?
    ensures var t := TickSpec(targets, log, Some(records), server, canteenId, date);
      && |log| <= k < |t.log| && t.log[k].target == i
      && Some(t.log[k].request) == OrderRequest(record, canteenId, date)
  {
    var t := TickSpec(targets, log, Some(records), server, canteenId, date);
    var cs := Candidates(targets, records);
    var s := TickPosts(targets, log, records, server, canteenId, date);
    CandidatesMembers(targets, records, Candidate(i, record));
    var p := PostsComplete(cs, canteenId, date, Candidate(i, record));
    SubmitWinner(cs, server, |log|, canteenId, date);
    SubmitPosts(cs, server, |log|, canteenId, date);
    assert t.log == log + s.attempts;
    k := |log| + p;
    assert t.log[k] == s.attempts[p];
  }

  /** A tick fails exactly when its fetch failed, and finishes exactly when every target is already ordered. */
  lemma TickFinishedIff(targets: seq<TargetMeal>, log: seq<Attempt>, snapshot: Option<seq<MealRecord>>,
                        server: nat -> Response, canteenId: int, date: string)
    ensures var t := TickSpec(targets, log, snapshot, server, canteenId, date);
      && (t.outcome == FetchFailed <==> snapshot.None?)
      && (t.outcome == Finished <==> snapshot.Some? && AllOrdered(targets))
  {
    if snapshot.Some? && AllOrdered(targets) {
      AllOrderedNoCandidates(targets, snapshot.value);
    }
  }

  /**
   * A target pinned while sold out (no menu id) never gets a post when the
   * snapshot's records are built by the extractor: any record it matches is
   * sold out too.
   */
  lemma SoldOutNeverTried(targets: seq<TargetMeal>, records: seq<MealRecord>, i: nat)
    requires i < |targets| && !Truthy(targets[i].meal.menuId)
    requires forall r :: r in records ==> WellFormed(r)
    ensures forall c :: c in Candidates(targets, records) ==> c.target != i
  {
    forall c | c in Candidates(targets, records)
      ensures c.target != i
    {
      CandidatesMembers(targets, records, c);
    }
  }

  /** A tick's posts for a sold-out target: none, so it is never the one ordered. */
  lemma TickSoldOut(targets: seq<TargetMeal>, log: seq<Attempt>, snapshot: Option<seq<MealRecord>>,
                    server: nat -> Response, canteenId: int, date: string, i: nat)
    requires i < |targets| && !Truthy(targets[i].meal.menuId)
    requires snapshot.Some? ==> forall r :: r in snapshot.value ==> WellFormed(r)
    ensures var t := TickSpec(targets, log, snapshot, server, canteenId, date);
      && t.outcome != OrderPlaced(i)
      && |t.targets| == |targets| && t.targets[i] == targets[i]
      && forall k :: |log| <= k < |t.log| ==> t.log[k].target != i
  {
    var t := TickSpec(targets, log, snapshot, server, canteenId, date);
    if snapshot.Some? {
      var records := snapshot.value;
      var cs := Candidates(targets, records);
      var s := TickPosts(targets, log, records, server, canteenId, date);
      SoldOutNeverTried(targets, records, i);
      SubmitPosts(cs, server, |log|, canteenId, date);
      assert t.log == log + s.attempts;
      forall k | |log| <= k < |t.log|
        ensures t.log[k].target != i
      {
        assert t.log[k] == s.attempts[k - |log|];
        var c := PostsFrom(cs, canteenId, date, k - |log|);
      }
      if t.outcome.OrderPlaced? {
        TickOrderPlaced(targets, log, snapshot, server, canteenId, date, t.outcome.placed);
      }
    }
  }

  /** The snapshots' records are all built by the extractor. */
  predicate SnapshotsWellFormed(snapshots: seq<Option<seq<MealRecord>>>)
  {
    forall j, r :: 0 <= j < |snapshots| && snapshots[j].Some? && r in snapshots[j].value ==> WellFormed(r)
  }

  /** How many of the ticks fetched the listing. */
  function Fetched(snapshots: seq<Option<seq<MealRecord>>>): nat
  {
    if snapshots == [] then 0 else (if snapshots[0].Some? then 1 else 0) + Fetched(snapshots[1..])
  }

  /**
   * The posts appended to `log` to make `after`: `log` is kept, each new post
   * is for a target that was not ordered, and post number k gets the
   * server's answer number k.
   */
  predicate NewPostsFor(targets: seq<TargetMeal>, log: seq<Attempt>, after: seq<Attempt>, server: nat -> Response)
  {
    && |log| <= |after| && after[..|log|] == log
    && forall k :: |log| <= k < |after| ==>
         after[k].target < |targets| && !targets[after[k].target].ordered && after[k].response == server(k)
  }

  lemma TickNewPosts(targets: seq<TargetMeal>, log: seq<Attempt>, snapshot: Option<seq<MealRecord>>,
                     server: nat -> Response, canteenId: int, date: string)
    ensures NewPostsFor(targets, log, TickSpec(targets, log, snapshot, server, canteenId, date).log, server)
  {
    var t := TickSpec(targets, log, snapshot, server, canteenId, date);
    TickKeepsLog(targets, log, snapshot, server, canteenId, date);
    forall k | |log| <= k < |t.log|
      ensures t.log[k].target < |targets| && !targets[t.log[k].target].ordered && t.log[k].response == server(k)
    {
      var _ := TickNeverResubmits(targets, log, snapshot, server, canteenId, date, k);
    }
  }

  lemma NewPostsTrans(targets: seq<TargetMeal>, log: seq<Attempt>, mid: seq<Attempt>, after: seq<Attempt>,
                      server: nat -> Response)
    requires NewPostsFor(targets, log, mid, server) && NewPostsFor(targets, mid, after, server)
    ensures NewPostsFor(targets, log, after, server)
  {
    assert after[..|log|] == after[..|mid|][..|log|];
    forall k | |log| <= k < |after|
      ensures after[k].target < |targets| && !targets[after[k].target].ordered && after[k].response == server(k)
    {
      if k < |mid| {
        assert after[k] == after[..|mid|][k];
      }
    }
  }

  /**
   * Over the whole monitoring no order is posted for a target that was
   * already ordered, the earlier posts are kept, and the n-th post of the
   * run gets the server's n-th answer.
   */
  lemma {:induction false} RunNeverResubmits(targets: seq<TargetMeal>, log: seq<Attempt>, slept: nat,
                                             snapshots: seq<Option<seq<MealRecord>>>, server: nat -> Response,
                                             canteenId: int, date: string)
    ensures NewPostsFor(targets, log, RunSpec(targets, log, slept, snapshots, server, canteenId, date).log, server)
    decreases |snapshots|
  {
    if snapshots != [] {
      var t := TickSpec(targets, log, snapshots[0], server, canteenId, date);
      TickNewPosts(targets, log, snapshots[0], server, canteenId, date);
      if t.outcome == FetchFailed || t.outcome == Waiting {
        TickNoOrder(targets, log, snapshots[0], server, canteenId, date);
        var slept' := if t.outcome == Waiting then slept + CheckInterval else slept;
        RunNeverResubmits(targets, t.log, slept', snapshots[1..], server, canteenId, date);
        NewPostsTrans(targets, log, t.log, RunSpec(targets, t.log, slept', snapshots[1..], server, canteenId, date).log, server);
      }
    }
  }

  /**
   * When the monitoring exits after an order, the order is for a target that
   * was not ordered, that target alone is now ordered, its post is the last
   * of the run and every earlier post of the run was refused.
   */
  lemma {:induction false} RunExited(targets: seq<TargetMeal>, log: seq<Attempt>, slept: nat,
                                     snapshots: seq<Option<seq<MealRecord>>>, server: nat -> Response,
                                     canteenId: int, date: string, i: nat)
    requires RunSpec(targets, log, slept, snapshots, server, canteenId, date).outcome == Exited(i)
    ensures var r := RunSpec(targets, log, slept, snapshots, server, canteenId, date);
      ExitedWith(targets, log, r.targets, r.log, i)
    decreases |snapshots|
  {
    var t := TickSpec(targets, log, snapshots[0], server, canteenId, date);
    if t.outcome.OrderPlaced? {
      TickOrderPlaced(targets, log, snapshots[0], server, canteenId, date, i);
    } else {
      TickNoOrder(targets, log, snapshots[0], server, canteenId, date);
      TickKeepsLog(targets, log, snapshots[0], server, canteenId, date);
      var slept' := if t.outcome == Waiting then slept + CheckInterval else slept;
      RunExited(targets, t.log, slept', snapshots[1..], server, canteenId, date, i);
      var r := RunSpec(targets, t.log, slept', snapshots[1..], server, canteenId, date);
      RunNeverResubmits(targets, t.log, slept', snapshots[1..], server, canteenId, date);
      ExitedLater(targets, log, t.log, r.targets, r.log, i);
    }
  }

  /** Refused posts before an exit do not change what the exit says. */
  lemma ExitedLater(targets: seq<TargetMeal>, log: seq<Attempt>, mid: seq<Attempt>, after: seq<TargetMeal>,
                    posts: seq<Attempt>, i: nat)
    requires ExitedWith(targets, mid, after, posts, i)
    requires |log| <= |mid| && posts[..|mid|] == mid
    requires forall k :: |log| <= k < |mid| ==> !Accepted(mid[k].response)
    ensures ExitedWith(targets, log, after, posts, i)
  {
    forall k | |log| <= k < |posts| - 1
      ensures !Accepted(posts[k].response)
    {
      if k < |mid| {
        assert posts[k] == posts[..|mid|][k];
      }
    }
  }

  /**
   * When the monitoring ends without an order (completed or interrupted), no
   * target changed and every post of the run was refused.
   */
  lemma {:induction false} RunNoOrder(targets: seq<TargetMeal>, log: seq<Attempt>, slept: nat,
                                      snapshots: seq<Option<seq<MealRecord>>>, server: nat -> Response,
                                      canteenId: int, date: string)
    requires !RunSpec(targets, log, slept, snapshots, server, canteenId, date).outcome.Exited?
    ensures var r := RunSpec(targets, log, slept, snapshots, server, canteenId, date);
      && r.targets == targets
      && forall k :: |log| <= k < |r.log| ==> !Accepted(r.log[k].response)
    decreases |snapshots|
  {
    if snapshots != [] {
      var t := TickSpec(targets, log, snapshots[0], server, canteenId, date);
      TickNoOrder(targets, log, snapshots[0], server, canteenId, date);
      if t.outcome != Finished {
        TickKeepsLog(targets, log, snapshots[0], server, canteenId, date);
        var slept' := if t.outcome == Waiting then slept + CheckInterval else slept;
        RunNoOrder(targets, t.log, slept', snapshots[1..], server, canteenId, date);
        var r := RunSpec(targets, t.log, slept', snapshots[1..], server, canteenId, date);
        RunNeverResubmits(targets, t.log, slept', snapshots[1..], server, canteenId, date);
        forall k | |log| <= k < |r.log|
          ensures !Accepted(r.log[k].response)
        {
          if k < |t.log| {
            assert r.log[k] == r.log[..|t.log|][k];
          }
        }
      }
    }
  }

  /**
   * The monitoring completes exactly when every target was already ordered
   * and some tick fetched the listing; an unordered target keeps it going.
   */
  lemma {:induction false} RunCompletedIff(targets: seq<TargetMeal>, log: seq<Attempt>, slept: nat,
                                           snapshots: seq<Option<seq<MealRecord>>>, server: nat -> Response,
                                           canteenId: int, date: string)
    ensures RunSpec(targets, log, slept, snapshots, server, canteenId, date).outcome == Completed <==>
      AllOrdered(targets) && Fetched(snapshots) > 0
    decreases |snapshots|
  {
    if snapshots != [] {
      var t := TickSpec(targets, log, snapshots[0], server, canteenId, date);
      TickFinishedIff(targets, log, snapshots[0], server, canteenId, date);
      if t.outcome == FetchFailed || t.outcome == Waiting {
        TickNoOrder(targets, log, snapshots[0], server, canteenId, date);
        var slept' := if t.outcome == Waiting then slept + CheckInterval else slept;
        RunCompletedIff(targets, t.log, slept', snapshots[1..], server, canteenId, date);
      }
    }
  }

  /** Monitoring freshly pinned meals never reports completion; it ends by an order or the interrupt. */
  lemma PinnedNeverCompletes(selected: seq<MealRecord>, snapshots: seq<Option<seq<MealRecord>>>,
                             server: nat -> Response, canteenId: int, date: string)
    requires selected != []
    ensures RunSpec(Pinned(selected), [], 0, snapshots, server, canteenId, date).outcome != Completed
  {
    RunCompletedIff(Pinned(selected), [], 0, snapshots, server, canteenId, date);
    assert !Pinned(selected)[0].ordered;
  }

  /**
   * An interrupted monitoring slept once per fetched listing (each such tick
   * ordered nothing) and never after a failed fetch.
   */
  lemma {:induction false} RunCancelledSleeps(targets: seq<TargetMeal>, log: seq<Attempt>, slept: nat,
                                              snapshots: seq<Option<seq<MealRecord>>>, server: nat -> Response,
                                              canteenId: int, date: string)
    requires RunSpec(targets, log, slept, snapshots, server, canteenId, date).outcome == Cancelled
    ensures RunSpec(targets, log, slept, snapshots, server, canteenId, date).slept ==
      slept + CheckInterval * Fetched(snapshots)
    decreases |snapshots|
  {
    if snapshots != [] {
      var t := TickSpec(targets, log, snapshots[0], server, canteenId, date);
      TickFinishedIff(targets, log, snapshots[0], server, canteenId, date);
      var slept' := if t.outcome == Waiting then slept + CheckInterval else slept;
      RunCancelledSleeps(t.targets, t.log, slept', snapshots[1..], server, canteenId, date);
    }
  }

  /** A failed fetch changes nothing: the monitoring goes on as if that tick had not happened. */
  lemma {:induction false} RunSkipsFailedFetch(targets: seq<TargetMeal>, log: seq<Attempt>, slept: nat,
                                               before: seq<Option<seq<MealRecord>>>, after: seq<Option<seq<MealRecord>>>,
                                               server: nat -> Response, canteenId: int, date: string)
    ensures RunSpec(targets, log, slept, before + [None] + after, server, canteenId, date) ==
      RunSpec(targets, log, slept, before + after, server, canteenId, date)
    decreases |before|
  {
    if before == [] {
      assert before + [None] + after == [None] + after;
      assert ([None] + after)[1..] == after;
      assert before + after == after;
    } else {
      assert (before + [None] + after)[0] == before[0];
      assert (before + [None] + after)[1..] == before[1..] + [None] + after;
      assert (before + after)[0] == before[0];
      assert (before + after)[1..] == before[1..] + after;
      var t := TickSpec(targets, log, before[0], server, canteenId, date);
      var slept' := if t.outcome == Waiting then slept + CheckInterval else slept;
      RunSkipsFailedFetch(t.targets, t.log, slept', before[1..], after, server, canteenId, date);
    }
  }

  /**
   * A target pinned while sold out gets no post in the whole monitoring, is
   * never the one ordered and stays unordered, whatever the server answers.
   */
  lemma {:induction false} RunSoldOut(targets: seq<TargetMeal>, log: seq<Attempt>, slept: nat,
                                      snapshots: seq<Option<seq<MealRecord>>>, server: nat -> Response,
                                      canteenId: int, date: string, i: nat)
    requires i < |targets| && !Truthy(targets[i].meal.menuId)
    requires SnapshotsWellFormed(snapshots)
    ensures var r := RunSpec(targets, log, slept, snapshots, server, canteenId, date);
      && r.outcome != Exited(i)
      && |r.targets| == |targets| && r.targets[i] == targets[i]
      && forall k :: |log| <= k < |r.log| ==> r.log[k].target != i
    decreases |snapshots|
  {
    if snapshots != [] {
      var t := TickSpec(targets, log, snapshots[0], server, canteenId, date);
      TickSoldOut(targets, log, snapshots[0], server, canteenId, date, i);
      if t.outcome == FetchFailed || t.outcome == Waiting {
        TickNoOrder(targets, log, snapshots[0], server, canteenId, date);
        TickKeepsLog(targets, log, snapshots[0], server, canteenId, date);
        var slept' := if t.outcome == Waiting then slept + CheckInterval else slept;
        assert SnapshotsWellFormed(snapshots[1..]) by {
          forall j, r | 0 <= j < |snapshots[1..]| && snapshots[1..][j].Some? && r in snapshots[1..][j].value
            ensures WellFormed(r)
          {
            assert snapshots[1..][j] == snapshots[j + 1];
          }
        }
        RunSoldOut(targets, t.log, slept', snapshots[1..], server, canteenId, date, i);
        var r := RunSpec(targets, t.log, slept', snapshots[1..], server, canteenId, date);
        RunNeverResubmits(targets, t.log, slept', snapshots[1..], server, canteenId, date);
        forall k | |log| <= k < |r.log|
          ensures r.log[k].target != i
        {
          if k < |t.log| {
            assert r.log[k] == r.log[..|t.log|][k];
          }
        }
      }
    }
  }

  /** The tick's state, as the pinned-meal dictionaries and the record of posts. */
  class Monitor {
    var targets: seq<TargetMeal>
    var log: seq<Attempt>
    var slept: nat
    const canteenId: int
    const date: string

    /** Pins the selected meals, none ordered yet. */
    constructor (selected: seq<MealRecord>, canteenId: int, date: string)
      ensures targets == Pinned(selected) && log == [] && slept == 0
      ensures this.canteenId == canteenId && this.date == date
    {
      targets := Pinned(selected);
      log := [];
      slept := 0;
      this.canteenId := canteenId;
      this.date := date;
    }

    /**
     * The inner loop for one target: tries every available matching record
     * of the snapshot, in order, until the server accepts one.
     */
    method TryTarget(i: nat, records: seq<MealRecord>, server: nat -> Response) returns (accepted: bool)
      requires i < |targets|
      modifies this
      ensures var s := Submit(Block(i, old(targets)[i].meal, records), server, |old(log)|, canteenId, date);
        && log == old(log) + s.attempts
        && accepted == s.winner.Some?
        && (accepted ==> s.winner.value == i)
        && targets == (if accepted then MarkOrdered(old(targets), i) else old(targets))
        && slept == old(slept)
    {
      var target := targets[i].meal;
      ghost var whole := Submit(Block(i, target, records), server, |log|, canteenId, date);
      ghost var done: seq<Attempt> := [];
      assert records[0..] == records;
      var j := 0;
      while j < |records|
        invariant 0 <= j <= |records|
        invariant targets == old(targets) && slept == old(slept)
        invariant log == old(log) + done
        invariant TryPending(whole, done, i, target, records[j..], server, |log|, canteenId, date)
      {
        var current := records[j];
        if Matches(current, target) && current.available {
          var request := OrderRequest(current, canteenId, date);
          if request.Some? {
            var response := server(|log|);
            var a := Attempt(i, request.value, response);
            TryPost(i, target, records, j, server, canteenId, date, old(log), done, log, whole, request.value);
            log := log + [a];
            done := done + [a];
            if Accepted(response) {
              targets := targets[i := targets[i].(ordered := true)];
              return true;
            }
          } else {
            TrySkip(i, target, records, j, server, |log|, canteenId, date, done, whole);
          }
        } else {
          TrySkip(i, target, records, j, server, |log|, canteenId, date, done, whole);
        }
        j := j + 1;
      }
      assert records[|records|..] == [];
      assert whole == Prepend(done, Submitted([], None));
      return false;
    }

    /**
     * The nested `for` loops of one pass over a fetched snapshot: every
     * unordered target in turn, until an order is accepted.
     */
    method Sweep(records: seq<MealRecord>, server: nat -> Response) returns (placed: Option<nat>, allOrdered: bool)
      modifies this
      ensures var s := Submit(Candidates(old(targets), records), server, |old(log)|, canteenId, date);
        && placed == s.winner
        && log == old(log) + s.attempts
        && targets == (if placed.Some? then MarkOrdered(old(targets), placed.value) else old(targets))
        && (placed.None? ==> (allOrdered <==> AllOrdered(old(targets))))
        && slept == old(slept)
    {
      allOrdered := true;
      ghost var whole := Submit(Candidates(targets, records), server, |log|, canteenId, date);
      ghost var done: seq<Attempt> := [];
      SweepStart(targets, records, server, |log|, canteenId, date);
      assert log == old(log) + done;
      var i := 0;
      while i < |targets|
        invariant 0 <= i <= |targets|
        invariant targets == old(targets) && slept == old(slept)
        invariant log == old(log) + done
        invariant allOrdered <==> forall k :: 0 <= k < i ==> targets[k].ordered
        invariant SweepPending(whole, done, targets, i, records, server, |log|, canteenId, date)
      {
        if !targets[i].ordered {
          allOrdered := false;
          ghost var before := log;
          ghost var t0 := targets;
          var accepted := TryTarget(i, records, server);
          SweepAfter(whole, old(log), done, t0, i, records, server, canteenId, date, before, log, accepted, targets);
          done := done + log[|before|..];
          if accepted {
            return Some(i), allOrdered;
          }
        } else {
          SweepSkip(targets, i, records, server, |log|, canteenId, date, done, whole);
        }
        i := i + 1;
      }
      SweepEnd(targets, records, server, |log|, canteenId, date, done, whole);
      return None, allOrdered;
    }

    /** One pass of the `while True` body, up to (not including) the sleep. */
    method Tick(snapshot: Option<seq<MealRecord>>, server: nat -> Response) returns (outcome: TickOutcome)
      modifies this
      ensures TickResult(outcome, targets, log) == TickSpec(old(targets), old(log), snapshot, server, canteenId, date)
      ensures slept == old(slept)
    {
      if snapshot.None? {
        return FetchFailed;
      }
      var placed, allOrdered := Sweep(snapshot.value, server);
      match placed {
        case Some(i) => outcome := OrderPlaced(i);
        case None => outcome := if allOrdered then Finished else Waiting;
      }
    }

    /**
     * `monitor_and_order`: ticks over the snapshots until an order is placed,
     * everything is ordered, or the snapshots run out (the interrupt).
     */
    method Run(snapshots: seq<Option<seq<MealRecord>>>, server: nat -> Response) returns (outcome: RunOutcome)
      modifies this
      ensures RunResult(outcome, targets, log, slept) ==
        RunSpec(old(targets), old(log), old(slept), snapshots, server, canteenId, date)
    {
      var t := 0;
      while t < |snapshots|
        invariant 0 <= t <= |snapshots|
        invariant RunSpec(targets, log, slept, snapshots[t..], server, canteenId, date) ==
          RunSpec(old(targets), old(log), old(slept), snapshots, server, canteenId, date)
      {
        assert snapshots[t..][0] == snapshots[t];
        assert snapshots[t..][1..] == snapshots[t + 1..];
        var tick := Tick(snapshots[t], server);
        match tick {
          case OrderPlaced(i) => return Exited(i);
          case Finished => return Completed;
          case FetchFailed =>
          case Waiting => slept := slept + CheckInterval;
        }
        t := t + 1;
      }
      return Cancelled;
    }
  }
}
