/**
Vote collection for one consensus component: the filter that sorts events into early, relevant
and obsolete ones, the accumulator behind it with its verification workers and store, and the
quorums that it emits. Each method is one atomic step, between two uses of a lock or a channel;
any sequence of calls is a run.
*/
module Accumulator {
  import opened Counting

  // A reduction vote.
  datatype Vote = Vote(sender: nat, round: nat, step: nat, hash: seq<int>, signed: seq<int>)

  // Equal, as the store uses it to drop duplicates.
  predicate SameVote(v: Vote, w: Vote) {
    v.sender == w.sender && v.round == w.round && v.step == w.step
  }

  // What the handler provides: the committees, the signature check and the size of committees.
  datatype Handler = Handler(members: ((nat, nat)) -> set<nat>, verify: Vote -> bool, size: nat -> nat) {
    function Members(round: nat, step: nat): set<nat> {
      members((round, step))
    }

    function Quorum(round: nat): nat {
      size(round) * 3 / 4
    }

    predicate IsMember(v: Vote) {
      v.sender in Members(v.round, v.step)
    }
  }

  // A vote of a committee member at a given round and step.
  predicate Current(h: Handler, round: nat, step: nat, v: Vote) {
    v.round == round && v.step == step && h.IsMember(v)
  }

  // A list as the store keeps it under one hash: verified votes of different senders.
  ghost predicate IsStored(h: Handler, round: nat, step: nat, hash: seq<int>, vs: seq<Vote>) {
    && (forall i :: 0 <= i < |vs| ==> Current(h, round, step, vs[i]) && vs[i].hash == hash && h.verify(vs[i]))
    && (forall i, j :: 0 <= i < j < |vs| ==> vs[i].sender != vs[j].sender)
  }

  // ... and as it is handed on.
  ghost predicate IsBatch(h: Handler, round: nat, step: nat, vs: seq<Vote>) {
    |vs| > 0 && IsStored(h, round, step, vs[0].hash, vs) && |vs| >= h.Quorum(round)
  }

  // The votes of committee members among some votes.
  function OfMembers(h: Handler, vs: seq<Vote>): seq<Vote> {
    if |vs| == 0 then []
    else OfMembers(h, vs[..|vs| - 1]) + if h.IsMember(vs[|vs| - 1]) then [vs[|vs| - 1]] else []
  }

  function Queued(queue: map<(nat, nat), seq<Vote>>, v: Vote): map<(nat, nat), seq<Vote>> {
    var k := (v.round, v.step);
    queue[k := (if k in queue then queue[k] else []) + [v]]
  }

  function ListOf(m: map<seq<int>, seq<Vote>>, hash: seq<int>): seq<Vote> {
    if hash in m then m[hash] else []
  }

  // A list with one more vote, unless it has one of the same sender.
  function Stored(vs: seq<Vote>, v: Vote): (r: seq<Vote>)
    ensures |r| > 0
  {
    if exists i :: 0 <= i < |vs| && SameVote(v, vs[i]) then vs else vs + [v]
  }

  // A batch with the state it was emitted in.
  datatype Emitted = Emitted(round: nat, step: nat, votes: seq<Vote>)

  class EventFilter {
    const handler: Handler
    var round: nat
    var step: nat
    // early events
    var queue: map<(nat, nat), seq<Vote>>
    // the accumulator: events for the workers, verified events, and the store
    var pending: seq<Vote>
    var ready: seq<Vote>
    var evMap: map<seq<int>, seq<Vote>>
    // true while the state has not moved since the accumulator was made
    ghost var stable: bool
    // the batches emitted while stable
    ghost var emitted: seq<Emitted>

    ghost predicate Valid()
      reads this
    {
      && (forall e :: e in emitted ==> IsBatch(handler, e.round, e.step, e.votes))
      && (stable ==>
            && (forall v :: v in pending ==> Current(handler, round, step, v))
            && (forall v :: v in ready ==> Current(handler, round, step, v) && handler.verify(v))
            && (forall hash :: hash in evMap ==> IsStored(handler, round, step, hash, evMap[hash])))
      && (forall k :: k in queue ==> forall v :: v in queue[k] ==> v.round == k.0 && v.step == k.1)
    }

    constructor (handler: Handler)
      ensures Valid() && round == 0 && step == 1 && emitted == []
    {
      this.handler := handler;
      round, step, queue := 0, 1, map[];
      pending, ready, evMap := [], [], map[];
      stable, emitted := true, [];
    }

    // Hand the event to the workers if its sender is in the committee.
    method Process(v: Vote)
      requires Valid() && v.round == round && v.step == step
      modifies this`pending
      ensures Valid()
      ensures pending == old(pending) + if handler.IsMember(v) then [v] else []
    {
      if !handler.IsMember(v) {
        return;
      }
      pending := pending + [v];
    }

    predicate IsEarly(roundDiff: int, stepDiff: int) {
      roundDiff < 0 || (roundDiff == 0 && stepDiff < 0)
    }

    predicate IsRelevant(roundDiff: int, stepDiff: int) {
      roundDiff == 0 && stepDiff == 0
    }

    method Collect(v: Vote)
      requires Valid()
      modifies this`pending, this`queue
      ensures Valid()
      ensures pending == old(pending) + if v.round == round && v.step == step && handler.IsMember(v) then [v] else []
      ensures var early := v.round > round || (v.round == round && v.step > step);
              queue == if early then Queued(old(queue), v) else old(queue)
    {
      var roundDiff, stepDiff := round - v.round, step - v.step;
      if IsEarly(roundDiff, stepDiff) {
        PutEvent(v);
      } else if IsRelevant(roundDiff, stepDiff) {
        Process(v);
      }
    }

    method PutEvent(v: Vote)
      requires Valid()
      modifies this`queue
      ensures Valid() && queue == Queued(old(queue), v)
    {
      var k := (v.round, v.step);
      if k !in queue {
        queue := queue[k := []];
      }
      queue := queue[k := queue[k] + [v]];
    }

    method ProcessAll(events: seq<Vote>)
      requires Valid() && forall v :: v in events ==> v.round == round && v.step == step
      modifies this`pending
      ensures Valid() && pending == old(pending) + OfMembers(handler, events)
    {
      for i := 0 to |events|
        invariant Valid() && pending == old(pending) + OfMembers(handler, events[..i])
      {
        assert events[..i + 1][..i] == events[..i];
        Process(events[i]);
      }
      assert events[..|events|] == events;
    }

    // The queued events of the current round and step are processed.
    method FlushQueue()
      requires Valid()
      modifies this`pending, this`queue
      ensures Valid()
      ensures if (round, step) in old(queue)
              then && queue == old(queue)[(round, step) := []]
                   && pending == old(pending) + OfMembers(handler, old(queue)[(round, step)])
              else queue == old(queue) && pending == old(pending)
    {
      var k := (round, step);
      if k in queue {
        var events := queue[k];
        queue := queue[k := []];
        ProcessAll(events);
      }
    }

    // A worker takes event i; room says whether the channel behind it has room.
    method Work(i: nat, room: bool)
      requires Valid() && i < |pending|
      modifies this`pending, this`ready
      ensures Valid() && pending == old(pending)[..i] + old(pending)[i + 1..]
      ensures ready == old(ready) + if handler.verify(old(pending)[i]) && room then [old(pending)[i]] else []
    {
      var v := pending[i];
      assert v in pending;
      pending := pending[..i] + pending[i + 1..];
      if handler.verify(v) && room {
        ready := ready + [v];
      }
    }

    predicate IsObsolete(v: Vote)
      reads this
    {
      v.step < step || v.round < round
    }

    // Store a vote, unless there is one of its sender already; the length of its list.
    method Insert(v: Vote) returns (count: nat)
      requires Valid() && (stable ==> Current(handler, round, step, v) && handler.verify(v))
      modifies this`evMap
      ensures Valid() && evMap == old(evMap)[v.hash := Stored(ListOf(old(evMap), v.hash), v)]
      ensures count == |evMap[v.hash]|
    {
      var list := ListOf(evMap, v.hash);
      for i := 0 to |list|
        invariant forall j :: 0 <= j < i ==> !SameVote(v, list[j])
      {
        if SameVote(v, list[i]) {
          assert evMap == evMap[v.hash := list];
          return |list|;
        }
      }
      evMap := evMap[v.hash := list + [v]];
      count := |list| + 1;
    }

    // A list has reached the quorum: it is handed on, and the accumulator starts afresh.
    method Deliver(hash: seq<int>) returns (votes: seq<Vote>)
      requires Valid() && hash in evMap && |evMap[hash]| > 0
      requires stable ==> |evMap[hash]| >= handler.Quorum(round)
      modifies this`evMap, this`emitted
      ensures Valid() && evMap == map[] && votes == old(evMap)[hash]
      ensures emitted == old(emitted) + if stable then [Emitted(round, step, votes)] else []
    {
      votes := evMap[hash];
      if stable {
        emitted := emitted + [Emitted(round, step, votes)];
      }
      evMap := map[];
    }

    // The accumulator takes the next verified event.
    method Accumulate() returns (votes: seq<Vote>)
      requires Valid() && |ready| > 0
      modifies this`ready, this`evMap, this`emitted
      ensures Valid()
      ensures emitted == old(emitted) + if stable && |votes| > 0 then [Emitted(round, step, votes)] else []
      ensures var v := old(ready)[0];
              var list := Stored(ListOf(old(evMap), v.hash), v);
              if IsObsolete(v) then votes == [] && evMap == old(evMap)
              else if |list| >= handler.Quorum(v.round) then votes == list && evMap == map[]
              else votes == [] && evMap == old(evMap)[v.hash := list]
    {
      var v := ready[0];
      assert v in ready;
      ready := ready[1..];
      votes := [];
      if IsObsolete(v) {
        return;
      }
      var count := Insert(v);
      if count >= handler.Quorum(v.round) {
        votes := Deliver(v.hash);
      }
    }

    method ResetAccumulator()
      requires Valid()
      modifies this`pending, this`ready, this`evMap, this`stable
      ensures Valid() && stable && pending == ready == [] && evMap == map[]
    {
      pending, ready, evMap := [], [], map[];
      stable := true;
    }

    method UpdateRound(round: nat)
      requires Valid()
      modifies this
      ensures Valid() && stable && this.round == round && step == 1 && emitted == old(emitted)
      ensures pending == ready == [] && evMap == map[]
      ensures queue == map k | k in old(queue) && k.0 != round - 1 :: old(queue)[k]
    {
      this.round, step := round, 1;
      pending, ready, evMap := [], [], map[];
      stable := true;
      queue := map k | k in queue && k.0 != round - 1 :: queue[k];
    }

    // The step counter has eight bits.
    method IncrementStep()
      requires Valid()
      modifies this`step, this`stable
      ensures Valid() && step == (old(step) + 1) % 256 && !stable
    {
      step := (step + 1) % 256;
      stable := false;
    }
  }

  // ---------- Quorums ----------

  function Senders(vs: seq<Vote>): (r: set<nat>)
    ensures forall x :: x in r <==> exists i :: 0 <= i < |vs| && vs[i].sender == x
  {
    set i | 0 <= i < |vs| :: vs[i].sender
  }

  // A batch has as many senders as votes.
  lemma {:induction false} SendersCount(vs: seq<Vote>)
    requires forall i, j :: 0 <= i < j < |vs| ==> vs[i].sender != vs[j].sender
    ensures |Senders(vs)| == |vs|
  {
    if |vs| == 0 {
      assert Senders(vs) == {};
    } else {
      var n := |vs| - 1;
      SendersCount(vs[..n]);
      assert Senders(vs) == Senders(vs[..n]) + {vs[n].sender};
      assert vs[n].sender !in Senders(vs[..n]);
    }
  }

  // Two parts of a set overlap by what their sizes exceed it.
  lemma Overlap<T>(a: set<T>, b: set<T>, c: set<T>)
    requires a <= c && b <= c
    ensures |a * b| >= |a| + |b| - |c|
  {
    SubsetCount(a + b, c);
  }

  // Two batches of the same round and step share at least 2 floor(3n/4) - n senders, whichever
  // nodes they were emitted by.
  lemma BatchesOverlap(h: Handler, round: nat, step: nat, b1: seq<Vote>, b2: seq<Vote>)
    requires |h.Members(round, step)| == h.size(round)
    requires IsBatch(h, round, step, b1) && IsBatch(h, round, step, b2)
    ensures |Senders(b1) * Senders(b2)| >= 2 * h.Quorum(round) - h.size(round)
    ensures h.size(round) != 2 ==> Senders(b1) * Senders(b2) != {}
  {
    var c, n := h.Members(round, step), h.size(round);
    SendersCount(b1);
    SendersCount(b2);
    assert Senders(b1) <= c && Senders(b2) <= c;
    Overlap(Senders(b1), Senders(b2), c);
    Majority(n, |b1|, |b2|);
  }

  // Two quorums, neither of them empty, have more than n votes, save for n == 2.
  lemma Majority(n: nat, a: nat, b: nat)
    requires a > 0 && b > 0 && a >= n * 3 / 4 && b >= n * 3 / 4
    ensures n != 2 ==> a + b > n
  {
  }

  // Conflicting batches need a member that signed both hashes.
  lemma Equivocation(h: Handler, round: nat, step: nat, b1: seq<Vote>, b2: seq<Vote>) returns (i: nat, j: nat)
    requires |h.Members(round, step)| == h.size(round) != 2
    requires IsBatch(h, round, step, b1) && IsBatch(h, round, step, b2) && b1[0].hash != b2[0].hash
    ensures i < |b1| && j < |b2| && b1[i].sender == b2[j].sender && b1[i].hash != b2[j].hash
    ensures h.verify(b1[i]) && h.verify(b2[j])
  {
    BatchesOverlap(h, round, step, b1, b2);
    var x :| x in Senders(b1) * Senders(b2);
    i :| 0 <= i < |b1| && b1[i].sender == x;
    j :| 0 <= j < |b2| && b2[j].sender == x;
  }

  // In a committee of two, one vote is a quorum, and two batches need not meet.
  lemma TwoMembersDisagree() returns (h: Handler, b1: seq<Vote>, b2: seq<Vote>)
    ensures |h.Members(1, 1)| == h.size(1) == 2
    ensures IsBatch(h, 1, 1, b1) && IsBatch(h, 1, 1, b2) && b1[0].hash != b2[0].hash
    ensures Senders(b1) * Senders(b2) == {}
  {
    h := Handler(_ => {1, 2}, _ => true, _ => 2);
    b1, b2 := [Vote(1, 1, 1, [7], [])], [Vote(2, 1, 1, [8], [])];
  }
}
