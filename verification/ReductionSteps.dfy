/**
The step counters of the reduction and the agreement component of one node. Every method is one
atomic step at the granularity of locks: the reduction goroutine, the broker that takes round
updates, and the agreement component run side by side, with at most one live goroutine. Any
sequence of enabled steps is a run.
*/
module ReductionSteps {
  import opened Outcome
  import opened Accumulator
  import opened Sequences

  // ---------- Steps in eight bits ----------

  function Inc(x: nat): (r: nat)
    requires x < 256
    ensures r < 256
  {
    if x == 255 then 0 else x + 1
  }

  function Dec(x: nat): (r: nat)
    requires x < 256
    ensures r < 256 && Inc(r) == x
  {
    if x == 0 then 255 else x - 1
  }

  // (2 a - 1) mod 256, the reduction step that belongs to agreement step a
  function FirstStepOf(a: nat): (r: nat)
    requires a < 256
    ensures r == (2 * a + 255) % 256
  {
    if a == 0 then 255 else if a <= 128 then 2 * a - 1 else 2 * a - 257
  }

  lemma NextCycle(a: nat)
    requires a < 256
    ensures FirstStepOf(Inc(a)) == Inc(Inc(FirstStepOf(a)))
  {
  }

  lemma NeverAgain(a: nat)
    requires a < 256
    ensures FirstStepOf(Dec(a)) != FirstStepOf(a)
  {
  }

  // ---------- The node ----------

  type Hash = seq<int>

  const ZERO: Hash := Repeat(0, 32)

  // What a fetch brings: a batch of votes, or nothing after a timeout or a stop.
  type Events = Option<seq<Vote>>

  function ExtractHash(events: Events): Hash
    requires events.Some? ==> |events.value| > 0
  {
    if events.None? then ZERO else events.value[0].hash
  }

  predicate IsReductionSuccessful(hash1: Hash, hash2: Hash) {
    hash1 != ZERO && hash2 != ZERO && hash1 == hash2
  }

  // Where the goroutine is: waiting for the first or second result, or sending its results to
  // the agreement component, which has found its round to match or not, or done with that.
  datatype Phase = Idle | First | Second(events: Events, hash: Hash) | Sending(matched: bool) | Sent

  // A message to the agreement component: the round, and the votes of a successful reduction.
  datatype Results = Results(round: nat, votes: Events)

  // A sequence of growing rounds that leads from one to another.
  ghost predicate Leads(from: nat, rounds: seq<nat>, to: nat)
    decreases |rounds|
  {
    if |rounds| == 0 then from == to else from < rounds[0] && Leads(rounds[0], rounds[1..], to)
  }

  lemma {:induction false} LeadsOn(from: nat, rounds: seq<nat>, to: nat, next: nat)
    requires Leads(from, rounds, to) && to < next
    ensures Leads(from, rounds + [next], next)
    decreases |rounds|
  {
    if |rounds| == 0 {
      assert [next][1..] == [];
    } else {
      LeadsOn(rounds[0], rounds[1..], to, next);
      assert (rounds + [next])[1..] == rounds[1..] + [next];
    }
  }

  lemma {:induction false} LeadsUp(from: nat, rounds: seq<nat>, to: nat)
    requires Leads(from, rounds, to)
    ensures from <= to && (from == to <==> |rounds| == 0)
    decreases |rounds|
  {
    if |rounds| > 0 {
      LeadsUp(rounds[0], rounds[1..], to);
    }
  }

  // The votes that go with the results: those of both batches after a successful reduction.
  function ResultVotes(events1: Events, events2: Events, hash1: Hash, hash2: Hash): Events {
    if IsReductionSuccessful(hash1, hash2)
    then Some((if events1.Some? then events1.value else []) + (if events2.Some? then events2.value else []))
    else None
  }

  class Node {
    // agreement
    var aRound: nat
    var aStep: nat
    // reduction
    var rRound: nat
    var rStep: nat
    var stale: bool
    var phase: Phase
    // round updates on their way to the reduction broker, and the one it has taken
    var updates: seq<nat>
    var taken: Option<nat>
    // the round of the agreement component changed between its check of the results and its step
    ghost var crossed: bool
    // all results that were sent, with the two hashes they are for
    ghost var sent: seq<(Results, Hash, Hash)>

    // The agreement step without the one that came in from the round before.
    ghost function Base(): nat
      requires aStep < 256
      reads this
    {
      if crossed then Dec(aStep) else aStep
    }

    // The rounds that reduction has still to go through.
    ghost function Ahead(): seq<nat>
      reads this
    {
      (if taken.Some? then [taken.value] else []) + updates
    }

    ghost predicate Rounds()
      reads this
    {
      Leads(rRound, Ahead(), aRound) && (taken.Some? ==> stale)
    }

    // The steps while both components are in the same round.
    ghost predicate Steps()
      requires aStep < 256 && rStep < 256
      reads this
    {
      match phase
      case Idle => rStep == FirstStepOf(Base())
      case First => rStep == FirstStepOf(Base())
      case Second(_, _) => rStep == (if stale then FirstStepOf(Base()) else Inc(FirstStepOf(Base())))
      case Sending(_) => rStep == Inc(FirstStepOf(Base()))
      case Sent => Inc(rStep) == FirstStepOf(Base())
    }

    ghost predicate Valid()
      reads this
    {
      && aStep < 256 && rStep < 256 && Rounds()
      && (aRound == rRound ==> Steps())
      && (aRound != rRound ==> aStep == (if crossed then 2 else 1))
      && (phase.Sending? || phase.Sent? ==> !stale)
      && (phase.Sending? && aRound == rRound ==> phase.matched)
      && (phase.Sending? && phase.matched && aRound != rRound ==> !crossed)
      && (phase.Second? && phase.events.Some? ==> |phase.events.value| > 0)
      && (forall s :: s in sent ==> (s.0.votes.Some? <==> IsReductionSuccessful(s.1, s.2)))
    }

    constructor ()
      ensures Valid() && aRound == rRound == 0 && aStep == rStep == 1
      ensures phase.Idle? && !stale && taken.None? && updates == [] && !crossed && sent == []
    {
      aRound, aStep, rRound, rStep := 0, 1, 0, 1;
      stale, phase, updates, taken := false, Idle, [], None;
      crossed, sent := false, [];
    }

    // ---------- The agreement component ----------

    // updateRound: a new round, which is also published.
    method UpdateAgreementRound(round: nat)
      requires Valid() && round > aRound
      modifies this`aRound, this`aStep, this`updates, this`crossed
      ensures Valid() && aRound == round && aStep == 1 && !crossed && updates == old(updates) + [round]
    {
      LeadsOn(rRound, Ahead(), aRound, round);
      LeadsUp(rRound, Ahead(), aRound);
      ghost var ahead := Ahead();
      aRound, aStep := round, 1;
      updates := updates + [round];
      crossed := false;
      assert Ahead() == ahead + [round];
    }

    // sendAgreement takes its step after the votes have been looked at, whatever has become of
    // the round since the results were checked against it.
    method TakeAgreementStep()
      requires Valid() && phase.Sending?
      modifies this`aStep, this`phase, this`crossed
      ensures Valid() && phase == Sent
      ensures aStep == if old(phase).matched then Inc(old(aStep)) else old(aStep)
      ensures crossed <==> old(crossed) || (old(phase).matched && aRound != rRound)
    {
      NextCycle(Base());
      if phase.matched {
        aStep := Inc(aStep);
        if aRound != rRound {
          crossed := true;
        }
      }
      phase := Sent;
    }

    // ---------- The reduction broker ----------

    // A round update is taken, and the goroutine is told that it is stale. This waits for the
    // lock that the goroutine holds while it handles a result.
    method End()
      requires Valid() && taken.None? && |updates| > 0 && !phase.Sending? && !phase.Sent?
      modifies this`stale, this`taken, this`updates
      ensures Valid() && stale && taken == Some(old(updates)[0]) && updates == old(updates)[1..]
    {
      ghost var ahead := Ahead();
      assert ahead == updates;
      LeadsUp(rRound, ahead, aRound);
      taken := Some(updates[0]);
      updates := updates[1..];
      stale := true;
      assert Ahead() == ahead;
    }

    method UpdateReductionRound()
      requires Valid() && taken.Some? && !phase.Sending? && !phase.Sent?
      modifies this`rRound, this`rStep, this`taken
      ensures Valid() && rRound == old(taken).value && rStep == 1 && taken.None?
    {
      ghost var ahead := Ahead();
      assert ahead == [taken.value] + updates;
      assert ahead[0] == taken.value && ahead[1..] == updates;
      LeadsUp(rRound, ahead, aRound);
      rRound, rStep := taken.value, 1;
      taken := None;
      assert Ahead() == updates;
    }

    // A selection message starts a cycle; the goroutine before it is gone.
    method StartReduction()
      requires Valid() && phase.Idle? && taken.None?
      modifies this`stale, this`phase
      ensures Valid() && phase == First && !stale
    {
      stale := false;
      phase := First;
    }

    // ---------- The reduction goroutine ----------

    method HandleFirstResult(events: Events)
      requires Valid() && phase.First? && (events.Some? ==> |events.value| > 0)
      modifies this`rStep, this`phase
      ensures Valid()
      ensures phase == Second(events, if stale then [] else ExtractHash(events))
      ensures rStep == if stale then old(rStep) else Inc(old(rStep))
    {
      if !stale {
        rStep := Inc(rStep);
        phase := Second(events, ExtractHash(events));
      } else {
        phase := Second(events, []);
      }
    }

    // The second result: the results are sent and reach the check of the agreement component.
    method HandleSecondResult(events: Events)
      requires Valid() && phase.Second? && (events.Some? ==> |events.value| > 0)
      modifies this`phase, this`sent
      ensures Valid()
      ensures phase == if stale then Idle else Sending(rRound == aRound)
      ensures sent == old(sent) + if stale then [] else
        [(Results(rRound, ResultVotes(old(phase).events, events, old(phase).hash, ExtractHash(events))),
          old(phase).hash, ExtractHash(events))]
    {
      if stale {
        phase := Idle;
        return;
      }
      var hash1, hash2 := phase.hash, ExtractHash(events);
      var votes := ResultVotes(phase.events, events, hash1, hash2);
      sent := sent + [(Results(rRound, votes), hash1, hash2)];
      phase := Sending(rRound == aRound);
    }

    // The deferred step that ends a cycle.
    method FinishCycle()
      requires Valid() && phase.Sent?
      modifies this`rStep, this`phase
      ensures Valid() && phase.Idle? && rStep == Inc(old(rStep))
    {
      rStep := Inc(rStep);
      phase := Idle;
    }

    // The steps are coupled whenever both components are in the same round and no cycle is in
    // progress, exactly if no step of the round before came in late.
    lemma Coupled()
      requires Valid() && aRound == rRound && phase.Idle?
      ensures rStep == (2 * aStep + 255) % 256 <==> !crossed
    {
      NeverAgain(aStep);
    }
  }

  // A first cycle up to its results, which have passed the check of the agreement component.
  method FirstCycle() returns (n: Node)
    ensures fresh(n) && n.Valid() && n.phase == Sending(true) && n.taken.None? && n.updates == []
    ensures n.aRound == n.rRound == 0 && n.aStep == 1 && n.rStep == 2 && !n.crossed
  {
    n := new Node();
    n.StartReduction();
    n.HandleFirstResult(None);
    n.HandleSecondResult(None);
  }

  // A run in which the agreement component changes its round in the middle of taking a step: the
  // steps stay apart in the new round.
  method LateStep() returns (n: Node)
    ensures n.Valid() && n.aRound == n.rRound == 1 && n.phase.Idle?
    ensures n.rStep == 1 && n.aStep == 2 && n.crossed
  {
    n := FirstCycle();
    n.UpdateAgreementRound(1);
    n.TakeAgreementStep();
    n.FinishCycle();
    n.End();
    n.UpdateReductionRound();
  }
}
