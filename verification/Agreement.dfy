/**
From reduction votes to a block certificate: Aggregate folds the votes of two steps into one
signature and one bitset each, and Verify and CheckBlockCertificate rebuild the aggregated
keys from the bitsets.
*/
module Agreement {
  import opened Algebra
  import opened Bls
  import opened Outcome
  import opened Sequences
  import Set = SortedSet

  // A vote with its signature, unless the bytes of that are not a point.
  datatype Vote<A> = Vote(sender: nat, round: nat, step: nat, hash: seq<int>, signed: Result<A>) {
    function Message(): Signable {
      Signable(round, step, hash)
    }
  }

  // ---------- The votes of one step ----------

  // The sums so far. There is no signature before the first vote, and none after one that does
  // not decode.
  datatype Tally<A, B> = Tally(step: nat, apk: B, sig: Option<A>) {
    predicate Usable() {
      step != 0 ==> sig.Some?
    }
  }

  // Whether a vote is added, and what becomes of the tally. A tally with step 0 counts as empty,
  // and the key is added before the signature is looked at.
  function Added<F, A, B, T>(e: Scheme<F, A, B, T>, t: Tally<A, B>, sender: nat, step: nat,
                             sig: Result<A>): (bool, Tally<A, B>)
    requires t.Usable()
  {
    var pk := e.pkOf(sender);
    if pk.Err? || (t.step != 0 && t.step != step) then (false, t)
    else
      var w := e.Weighted(pk.value);
      if t.step == 0 then (sig.Ok?, Tally(step, w, if sig.Ok? then Some(sig.value) else None))
      else if sig.Err? then (false, t.(apk := e.g2.Add(t.apk, w)))
      else (true, Tally(step, e.g2.Add(t.apk, w), Some(e.g1.Add(t.sig.value, sig.value))))
  }

  class StepVotes<A(!new), B(!new)> {
    var apk: B
    var bitSet: nat
    var sig: Option<A>
    var step: nat

    constructor (t: Tally<A, B>)
      ensures View() == t && bitSet == 0
    {
      apk, sig, bitSet, step := t.apk, t.sig, 0, t.step;
    }

    function View(): Tally<A, B>
      reads this
    {
      Tally(step, apk, sig)
    }

    method Add<F, T>(e: Scheme<F, A, B, T>, signature: Result<A>, sender: nat, step: nat) returns (ok: bool)
      requires View().Usable()
      modifies this
      ensures (ok, View()) == Added(e, old(View()), sender, step, signature)
      ensures bitSet == old(bitSet)
    {
      if this.step == 0 {
        var pk := e.pkOf(sender);
        if pk.Err? {
          return false;
        }
        this.step := step;
        apk := e.Weighted(pk.value);
        if signature.Err? {
          sig := None;
          return false;
        }
        sig := Some(signature.value);
        return true;
      }
      if step != this.step {
        return false;
      }
      var pk := e.pkOf(sender);
      if pk.Err? {
        return false;
      }
      apk := e.g2.Add(apk, e.Weighted(pk.value));
      if signature.Err? {
        return false;
      }
      sig := Some(e.g1.Add(sig.value, signature.value));
      return true;
    }
  }

  // What the first n votes add up to at one step.
  function TallyTo<F, A, B, T>(e: Scheme<F, A, B, T>, votes: seq<Vote<A>>, step: nat, n: nat): (t: Tally<A, B>)
    requires n <= |votes|
    ensures t.Usable()
  {
    if n == 0 then Tally(0, e.g2.zero, None)
    else
      var t, v := TallyTo(e, votes, step, n - 1), votes[n - 1];
      if v.step != step then t
      else
        var (ok, next) := Added(e, t, v.sender, step, v.signed);
        if ok then next else t
  }

  // Both the key of the sender and the signature decode.
  predicate Readable<F, A, B, T>(e: Scheme<F, A, B, T>, v: Vote<A>) {
    e.pkOf(v.sender).Ok? && v.signed.Ok?
  }

  ghost predicate AllReadable<F, A, B, T>(e: Scheme<F, A, B, T>, votes: seq<Vote<A>>) {
    forall i :: 0 <= i < |votes| ==> Readable(e, votes[i])
  }

  // The senders of the votes of one step, in the order they came.
  function SendersTo<A>(votes: seq<Vote<A>>, step: nat, n: nat): seq<nat>
    requires n <= |votes|
  {
    if n == 0 then []
    else if votes[n - 1].step == step then SendersTo(votes, step, n - 1) + [votes[n - 1].sender]
    else SendersTo(votes, step, n - 1)
  }

  // All votes of the step are correctly signed.
  ghost predicate Signed<F, A, B, T>(e: Scheme<F, A, B, T>, votes: seq<Vote<A>>) {
    forall i :: 0 <= i < |votes| ==>
      Readable(e, votes[i])
      && Verifies(e, e.Weighted(e.pkOf(votes[i].sender).value), votes[i].Message(), votes[i].signed.value)
  }

  ghost predicate VotesFor<A>(votes: seq<Vote<A>>, round: nat, hash: seq<int>) {
    forall i :: 0 <= i < |votes| ==> votes[i].round == round && votes[i].hash == hash
  }

  // The tally of the first n votes is a correct signature of the sum of the keys of their senders.
  ghost predicate TallyGood<F, A, B, T>(e: Scheme<F, A, B, T>, votes: seq<Vote<A>>, round: nat, step: nat,
                                        hash: seq<int>, n: nat)
    requires n <= |votes|
  {
    var t, s := TallyTo(e, votes, step, n), SendersTo(votes, step, n);
    && Decodes(e, s) && (|s| > 0 <==> t.step == step) && (|s| == 0 <==> t.step == 0)
    && (|s| > 0 ==> t.apk == Apk(e, s) && Verifies(e, t.apk, Signable(round, step, hash), t.sig.value))
  }

  // Away from step 0, the sum of correct signatures is a correct signature of the sum of keys.
  lemma {:induction false} TallyVerifies<F(!new), A(!new), B(!new), T(!new)>(
      e: Scheme<F, A, B, T>, votes: seq<Vote<A>>, round: nat, step: nat, hash: seq<int>, n: nat)
    requires IsScheme(e) && Signed(e, votes) && VotesFor(votes, round, hash) && n <= |votes| && step != 0
    ensures TallyGood(e, votes, round, step, hash, n)
    decreases n
  {
    if n > 0 {
      TallyVerifies(e, votes, round, step, hash, n - 1);
      var v := votes[n - 1];
      if v.step == step {
        assert v.Message() == Signable(round, step, hash);
        GoodNext(e, votes, round, step, hash, n, v);
      }
    }
  }

  lemma GoodNext<F(!new), A(!new), B(!new), T(!new)>(e: Scheme<F, A, B, T>, votes: seq<Vote<A>>, round: nat, step: nat,
                                                    hash: seq<int>, n: nat, v: Vote<A>)
    requires IsScheme(e) && 0 < n <= |votes| && v == votes[n - 1] && v.step == step != 0 && Readable(e, v)
    requires Verifies(e, e.Weighted(e.pkOf(v.sender).value), Signable(round, step, hash), v.signed.value)
    requires TallyGood(e, votes, round, step, hash, n - 1)
    ensures TallyGood(e, votes, round, step, hash, n)
  {
    var t, s := TallyTo(e, votes, step, n - 1), SendersTo(votes, step, n - 1);
    var w := e.Weighted(e.pkOf(v.sender).value);
    ApkLocal(e, s, s + [v.sender], |s|);
    assert Apk(e, s + [v.sender]) == e.g2.Add(Apk(e, s), w);
    if |s| == 0 {
      ZeroFirst(e.f, e.g2, w);
    } else {
      SumVerifies(e, Signable(round, step, hash), t.apk, w, t.sig.value, v.signed.value);
    }
  }

  lemma SumVerifies<F(!new), A(!new), B(!new), T(!new)>(e: Scheme<F, A, B, T>, msg: Signable, x: B, y: B, s: A, t: A)
    requires IsScheme(e) && Verifies(e, x, msg, s) && Verifies(e, y, msg, t)
    ensures Verifies(e, e.g2.Add(x, y), msg, e.g1.Add(s, t))
  {
    PairRight(e, e.hashToG1(msg), x, y);
    PairLeft(e, s, t, e.base);
  }

  // ---------- Aggregate ----------

  // An entry of the map: what its StepVotes hold, and the set of voters.
  datatype Entry<A, B> = Entry(t: Tally<A, B>, voters: seq<nat>)

  // The entry of one step after n votes.
  ghost predicate Holds<F, A, B, T>(e: Scheme<F, A, B, T>, votes: seq<Vote<A>>, n: nat, step: nat, en: Entry<A, B>)
    requires n <= |votes|
  {
    && en.t == TallyTo(e, votes, step, n)
    && Set.Sorted(en.voters) && SameKeys(en.voters, SendersTo(votes, step, n))
  }

  ghost predicate HasVote<A>(votes: seq<Vote<A>>, step: nat, n: nat)
    requires n <= |votes|
  {
    exists i :: 0 <= i < n && votes[i].step == step
  }

  lemma {:induction false} TallyStep<F, A, B, T>(e: Scheme<F, A, B, T>, votes: seq<Vote<A>>, step: nat, n: nat)
    requires n <= |votes|
    ensures var t := TallyTo(e, votes, step, n); t.step == 0 || t.step == step
    decreases n
  {
    if n > 0 {
      TallyStep(e, votes, step, n - 1);
    }
  }

  // Vote i is added to the entry of its step.
  method AddVote<F, A(!new), B(!new), T>(e: Scheme<F, A, B, T>, votes: seq<Vote<A>>, i: nat, en: Entry<A, B>)
    returns (ok: bool, en1: Entry<A, B>)
    requires i < |votes| && Holds(e, votes, i, votes[i].step, en)
    ensures ok <==> Readable(e, votes[i])
    ensures ok ==> Holds(e, votes, i + 1, votes[i].step, en1)
  {
    var v := votes[i];
    TallyStep(e, votes, v.step, i);
    var sv := new StepVotes<A, B>(en.t);
    ok := sv.Add(e, v.signed, v.sender, v.step);
    var inserted, voters := Set.InsertInto(en.voters, v.sender);
    en1 := Entry(sv.View(), voters);
  }

  // One entry for each step with votes.
  ghost predicate Entries<F, A, B, T>(e: Scheme<F, A, B, T>, votes: seq<Vote<A>>, n: nat, m: map<nat, Entry<A, B>>)
    requires n <= |votes|
  {
    && (forall k :: k in m <==> HasVote(votes, k, n))
    && (forall k :: k in m ==> Holds(e, votes, n, k, m[k]))
  }

  // The entry of the step of vote i, which is a new one if it is the first there.
  method EntryFor<F, A, B, T>(e: Scheme<F, A, B, T>, votes: seq<Vote<A>>, i: nat, m: map<nat, Entry<A, B>>)
    returns (en: Entry<A, B>)
    requires i < |votes| && Entries(e, votes, i, m)
    ensures Holds(e, votes, i, votes[i].step, en)
  {
    if votes[i].step in m {
      en := m[votes[i].step];
    } else {
      NoVotes(e, votes, votes[i].step, i);
      en := Entry(Tally(0, e.g2.zero, None), []);
    }
  }

  method TakeVote<F, A(!new), B(!new), T>(e: Scheme<F, A, B, T>, votes: seq<Vote<A>>, i: nat, m: map<nat, Entry<A, B>>)
    returns (ok: bool, m1: map<nat, Entry<A, B>>)
    requires i < |votes| && Entries(e, votes, i, m)
    ensures ok <==> Readable(e, votes[i])
    ensures ok ==> Entries(e, votes, i + 1, m1)
  {
    var en := EntryFor(e, votes, i, m);
    var en1;
    ok, en1 := AddVote(e, votes, i, en);
    m1 := m[votes[i].step := en1];
    if ok {
      EntriesNext(e, votes, i, m, en1);
    }
  }

  method CollectVotes<F, A(!new), B(!new), T>(e: Scheme<F, A, B, T>, votes: seq<Vote<A>>)
    returns (ok: bool, m: map<nat, Entry<A, B>>)
    ensures ok <==> AllReadable(e, votes)
    ensures ok ==> Entries(e, votes, |votes|, m)
  {
    m := map[];
    for i := 0 to |votes|
      invariant forall j :: 0 <= j < i ==> Readable(e, votes[j])
      invariant Entries(e, votes, i, m)
    {
      ok, m := TakeVote(e, votes, i, m);
      if !ok {
        return;
      }
    }
    ok := true;
  }

  lemma EntriesNext<F, A, B, T>(e: Scheme<F, A, B, T>, votes: seq<Vote<A>>, i: nat, m: map<nat, Entry<A, B>>,
                                en: Entry<A, B>)
    requires i < |votes| && Entries(e, votes, i, m) && Holds(e, votes, i + 1, votes[i].step, en)
    ensures Entries(e, votes, i + 1, m[votes[i].step := en])
  {
    HasVoteNext(votes, i);
    forall k | k in m && k != votes[i].step ensures Holds(e, votes, i + 1, k, m[k]) {
      HoldsOn(e, votes, i, k, m[k]);
    }
  }

  // The votes of other steps do not matter.
  lemma HoldsOn<F, A, B, T>(e: Scheme<F, A, B, T>, votes: seq<Vote<A>>, i: nat, step: nat, en: Entry<A, B>)
    requires i < |votes| && votes[i].step != step && Holds(e, votes, i, step, en)
    ensures Holds(e, votes, i + 1, step, en)
  {
  }

  lemma HasVoteNext<A>(votes: seq<Vote<A>>, i: nat)
    requires i < |votes|
    ensures forall k :: HasVote(votes, k, i + 1) <==> HasVote(votes, k, i) || k == votes[i].step
  {
    forall k: nat ensures HasVote(votes, k, i + 1) <==> HasVote(votes, k, i) || k == votes[i].step {
      if k == votes[i].step {
        assert votes[i].step == k;
      }
    }
  }

  lemma {:induction false} NoVotes<F, A, B, T>(e: Scheme<F, A, B, T>, votes: seq<Vote<A>>, step: nat, n: nat)
    requires n <= |votes| && !HasVote(votes, step, n)
    ensures TallyTo(e, votes, step, n) == Tally(0, e.g2.zero, None) && SendersTo(votes, step, n) == []
    decreases n
  {
    if n > 0 {
      assert votes[n - 1].step != step;
      NoVotes(e, votes, step, n - 1);
    }
  }

  // The committees that take part: the members for a round and step, and their number.
  datatype Committee = Committee(members: ((nat, nat)) -> seq<nat>, size: nat -> nat) {
    function At(round: nat, step: nat): seq<nat> {
      members((round, step))
    }

    function Quorum(round: nat): nat {
      size(round) * 3 / 4
    }

    ghost predicate Valid() {
      forall round: nat, step: nat :: Set.Sorted(At(round, step)) && |At(round, step)| == size(round) <= Set.WORD_SIZE
    }
  }

  // One step of an agreement event: the bitset of its voters and the sum of their signatures.
  datatype Batch<A> = Batch(bitSet: nat, sig: A)

  datatype Event<A> = Event(round: nat, step: nat, hash: seq<int>, votesPerStep: (Option<Batch<A>>, Option<Batch<A>>))

  // The batch is what the votes of the step add up to.
  ghost predicate IsBatch<F, A, B, T>(e: Scheme<F, A, B, T>, c: Committee, round: nat, votes: seq<Vote<A>>, step: nat,
                                      b: Option<Batch<A>>)
  {
    var t := TallyTo(e, votes, step, |votes|);
    && b.Some? && Some(b.value.sig) == t.sig
    && exists voters: seq<nat> ::
         && Set.Sorted(voters) && SameKeys(voters, SendersTo(votes, step, |votes|))
         && var v := c.At(round, t.step);
            Set.Marks(v, voters[..Set.Known(v, voters)], |v|, b.value.bitSet)
  }

  ghost predicate SomeBatch<F, A, B, T>(e: Scheme<F, A, B, T>, c: Committee, round: nat, votes: seq<Vote<A>>,
                                        parity: nat, b: Option<Batch<A>>)
  {
    if exists step: nat :: step % 2 == parity && HasVote(votes, step, |votes|)
    then exists step: nat :: step % 2 == parity && HasVote(votes, step, |votes|) && IsBatch(e, c, round, votes, step, b)
    else b.None?
  }

  method Aggregate<F, A(!new), B(!new), T>(e: Scheme<F, A, B, T>, c: Committee, round: nat, step: nat, hash: seq<int>,
                                           votes: seq<Vote<A>>)
    returns (r: Result<Event<A>>)
    requires c.Valid()
    ensures r.Ok? <==> AllReadable(e, votes)
    ensures r.Ok? ==> r.value.round == round && r.value.step == step && r.value.hash == hash
    ensures r.Ok? ==> SomeBatch(e, c, round, votes, 1, r.value.votesPerStep.0)
    ensures r.Ok? ==> SomeBatch(e, c, round, votes, 0, r.value.votesPerStep.1)
  {
    var ok, m := CollectVotes(e, votes);
    if !ok {
      return Err;
    }
    var first, second := ChooseBatches(e, c, round, votes, m);
    ChosenAll(e, c, round, votes, m.Keys, 1, first);
    ChosenAll(e, c, round, votes, m.Keys, 0, second);
    r := Ok(Event(round, step, hash, (first, second)));
  }

  // The entries are looked at in any order.
  method ChooseBatches<F, A, B, T>(ghost e: Scheme<F, A, B, T>, c: Committee, round: nat, ghost votes: seq<Vote<A>>,
                                   m: map<nat, Entry<A, B>>)
    returns (first: Option<Batch<A>>, second: Option<Batch<A>>)
    requires c.Valid() && AllReadable(e, votes) && Entries(e, votes, |votes|, m)
    ensures Chosen(e, c, round, votes, m.Keys, 1, first) && Chosen(e, c, round, votes, m.Keys, 0, second)
  {
    first, second := None, None;
    var todo := m.Keys;
    ghost var done: set<nat> := {};
    while todo != {}
      invariant forall k :: k in m <==> k in done || k in todo
      invariant Chosen(e, c, round, votes, done, 1, first) && Chosen(e, c, round, votes, done, 0, second)
    {
      var k :| k in todo;
      var b := PackVotes(e, c, round, votes, k, m[k]);
      first, second := ChooseOne(e, c, round, votes, done, k, b, first, second);
      todo, done := todo - {k}, done + {k};
    }
    assert done == m.Keys;
  }

  method ChooseOne<F, A, B, T>(ghost e: Scheme<F, A, B, T>, ghost c: Committee, ghost round: nat,
                               ghost votes: seq<Vote<A>>, ghost done: set<nat>, k: nat, b: Batch<A>,
                               first: Option<Batch<A>>, second: Option<Batch<A>>)
    returns (first1: Option<Batch<A>>, second1: Option<Batch<A>>)
    requires Chosen(e, c, round, votes, done, 1, first) && Chosen(e, c, round, votes, done, 0, second)
    requires IsBatch(e, c, round, votes, k, Some(b))
    ensures Chosen(e, c, round, votes, done + {k}, 1, first1) && Chosen(e, c, round, votes, done + {k}, 0, second1)
  {
    ChosenNext(e, c, round, votes, done, k, 1, first, b);
    ChosenNext(e, c, round, votes, done, k, 0, second, b);
    first1, second1 := first, second;
    if k % 2 == 0 {
      second1 := Some(b);
    } else {
      first1 := Some(b);
    }
  }

  // The batch comes from one of the steps of its parity that were looked at.
  ghost predicate Chosen<F, A, B, T>(e: Scheme<F, A, B, T>, c: Committee, round: nat, votes: seq<Vote<A>>,
                                     done: set<nat>, parity: nat, b: Option<Batch<A>>)
  {
    if b.None? then forall k :: k in done ==> k % 2 != parity
    else exists k :: k in done && k % 2 == parity && IsBatch(e, c, round, votes, k, b)
  }

  lemma ChosenNext<F, A, B, T>(e: Scheme<F, A, B, T>, c: Committee, round: nat, votes: seq<Vote<A>>, done: set<nat>,
                               k: nat, parity: nat, was: Option<Batch<A>>, b: Batch<A>)
    requires Chosen(e, c, round, votes, done, parity, was) && IsBatch(e, c, round, votes, k, Some(b))
    ensures Chosen(e, c, round, votes, done + {k}, parity, if k % 2 == parity then Some(b) else was)
  {
    if k % 2 != parity && was.Some? {
      var j :| j in done && j % 2 == parity && IsBatch(e, c, round, votes, j, was);
      assert j in done + {k};
    } else {
      assert k in done + {k};
    }
  }

  lemma ChosenAll<F, A, B, T>(e: Scheme<F, A, B, T>, c: Committee, round: nat, votes: seq<Vote<A>>, steps: set<nat>,
                              parity: nat, b: Option<Batch<A>>)
    requires Chosen(e, c, round, votes, steps, parity, b) && forall k: nat :: k in steps <==> HasVote(votes, k, |votes|)
    ensures SomeBatch(e, c, round, votes, parity, b)
  {
    if b.Some? {
      var j: nat :| j in steps && j % 2 == parity && IsBatch(e, c, round, votes, j, b);
      assert j % 2 == parity && HasVote(votes, j, |votes|);
    }
  }

  method PackVotes<F, A, B, T>(ghost e: Scheme<F, A, B, T>, c: Committee, round: nat, ghost votes: seq<Vote<A>>,
                               ghost step: nat, en: Entry<A, B>)
    returns (b: Batch<A>)
    requires c.Valid() && AllReadable(e, votes) && HasVote(votes, step, |votes|) && Holds(e, votes, |votes|, step, en)
    ensures IsBatch(e, c, round, votes, step, Some(b))
  {
    SomeSigned(e, votes, step, |votes|);
    var bits := Set.BitsOf(c.At(round, en.t.step), en.voters);
    b := Batch(bits, en.t.sig.value);
  }

  lemma {:induction false} SomeSigned<F, A, B, T>(e: Scheme<F, A, B, T>, votes: seq<Vote<A>>, step: nat, n: nat)
    requires n <= |votes| && AllReadable(e, votes) && HasVote(votes, step, n)
    ensures TallyTo(e, votes, step, n).sig.Some?
    decreases n
  {
    TallyStep(e, votes, step, n - 1);
    assert Readable(e, votes[n - 1]);
    if votes[n - 1].step != step {
      var i :| 0 <= i < n && votes[i].step == step;
      assert i < n - 1;
      SomeSigned(e, votes, step, n - 1);
    }
  }

  // ---------- Verify ----------

  // The reduction steps that belong to agreement step s, in eight bits.
  function StepOne(s: nat): nat {
    (2 * s % 256 + 255) % 256
  }

  function StepTwo(s: nat): nat {
    2 * s % 256
  }

  // A batch is in order at a step: it names voters, and their keys match the signature.
  ghost predicate BatchHolds<F, A, B, T>(e: Scheme<F, A, B, T>, c: Committee, msg: Signable, b: Batch<A>) {
    var voters := Set.Selected(c.At(msg.round, msg.step), b.bitSet);
    |voters| > 0 && Decodes(e, voters) && Verifies(e, Apk(e, voters), msg, b.sig)
  }

  method VerifyBatch<F(!new), A(!new), B(!new), T(==, !new)>(
      e: Scheme<F, A, B, T>, c: Committee, msg: Signable, b: Batch<A>)
    returns (ok: bool, voters: nat)
    requires IsScheme(e) && b.bitSet <= Set.ALL
    ensures ok <==> BatchHolds(e, c, msg, b)
    ensures voters == |Set.Selected(c.At(msg.round, msg.step), b.bitSet)|
  {
    var subcommittee := Set.Intersect(c.At(msg.round, msg.step), b.bitSet);
    var apk := ReconstructApk(e, subcommittee);
    voters := |subcommittee|;
    ok := apk.Ok? && Verifies(e, apk.value, msg, b.sig);
  }

  // The batch of an event at one of its two steps, and what it signs.
  function StepAt(s: nat, i: nat): nat {
    if i == 0 then StepOne(s) else StepTwo(s)
  }

  function BatchAt<A>(ev: Event<A>, i: nat): Option<Batch<A>> {
    if i == 0 then ev.votesPerStep.0 else ev.votesPerStep.1
  }

  function MessageAt<A>(ev: Event<A>, i: nat): Signable {
    Signable(ev.round, StepAt(ev.step, i), ev.hash)
  }

  function VotersAt<A>(c: Committee, ev: Event<A>, i: nat): nat
    requires BatchAt(ev, i).Some?
  {
    |Set.Selected(c.At(ev.round, StepAt(ev.step, i)), BatchAt(ev, i).value.bitSet)|
  }

  // Both batches are there, as 64-bit words.
  ghost predicate Complete<A>(ev: Event<A>) {
    && BatchAt(ev, 0).Some? && BatchAt(ev, 0).value.bitSet <= Set.ALL
    && BatchAt(ev, 1).Some? && BatchAt(ev, 1).value.bitSet <= Set.ALL
  }

  method Verify<F(!new), A(!new), B(!new), T(==, !new)>(e: Scheme<F, A, B, T>, c: Committee, ev: Event<A>)
    returns (ok: bool)
    requires IsScheme(e) && Complete(ev)
    ensures ok <==>
      BatchHolds(e, c, MessageAt(ev, 0), BatchAt(ev, 0).value)
      && BatchHolds(e, c, MessageAt(ev, 1), BatchAt(ev, 1).value)
                    && VotersAt(c, ev, 0) + VotersAt(c, ev, 1) >= c.Quorum(ev.round)
  {
    var allVoters := 0;
    for i := 0 to 2
      invariant i > 0 ==> BatchHolds(e, c, MessageAt(ev, 0), BatchAt(ev, 0).value)
      invariant i > 1 ==> BatchHolds(e, c, MessageAt(ev, 1), BatchAt(ev, 1).value)
      invariant allVoters == (if i > 0 then VotersAt(c, ev, 0) else 0) + if i > 1 then VotersAt(c, ev, 1) else 0
    {
      var step := StepInLoop(ev.step, i);
      var votes := BatchAt(ev, i).value;
      var good, voters := VerifyBatch(e, c, Signable(ev.round, step, ev.hash), votes);
      if !good {
        return false;
      }
      allVoters := allVoters + voters;
    }
    ok := allVoters >= c.Quorum(ev.round);
  }

  // uint8(int(s*2) + (i - 1))
  method StepInLoop(s: nat, i: nat) returns (step: nat)
    requires i < 2
    ensures step == StepAt(s, i)
  {
    step := (2 * s % 256 + i + 255) % 256;
  }

  // ---------- The certificate ----------

  // The signatures are kept as bytes, which may not decode.
  datatype Certificate<A> = Certificate(stepOneSig: Result<A>, stepTwoSig: Result<A>, step: nat, stepOneCommittee: nat,
                                        stepTwoCommittee: nat)

  function GenerateCertificate<A>(ev: Event<A>): Certificate<A>
    requires ev.votesPerStep.0.Some? && ev.votesPerStep.1.Some?
  {
    var b0, b1 := ev.votesPerStep.0.value, ev.votesPerStep.1.value;
    Certificate(Ok(b0.sig), Ok(b1.sig), ev.step, b0.bitSet, b1.bitSet)
  }

  // One half of a certificate is in order: its signature decodes, and the batch holds.
  ghost predicate PartHolds<F, A, B, T>(e: Scheme<F, A, B, T>, c: Committee, msg: Signable, bitSet: nat, sig: Result<A>)
  {
    sig.Ok? && BatchHolds(e, c, msg, Batch(bitSet, sig.value))
  }

  method CheckBlockCertificate<F(!new), A(!new), B(!new), T(==, !new)>(
      e: Scheme<F, A, B, T>, c: Committee, height: nat, hash: seq<int>, cert: Certificate<A>)
    returns (ok: bool)
    requires IsScheme(e) && cert.stepOneCommittee <= Set.ALL && cert.stepTwoCommittee <= Set.ALL
    ensures ok <==>
      height < 2
      || (PartHolds(e, c, Signable(height, StepOne(cert.step), hash), cert.stepOneCommittee, cert.stepOneSig)
          && PartHolds(e, c, Signable(height, StepTwo(cert.step), hash), cert.stepTwoCommittee, cert.stepTwoSig))
  {
    if height < 2 {
      return true;
    }
    var stepOne, stepTwo := StepOne(cert.step), StepTwo(cert.step);
    if cert.stepOneSig.Err? {
      return false;
    }
    if cert.stepTwoSig.Err? {
      return false;
    }
    var voters;
    ok, voters := VerifyBatch(e, c, Signable(height, stepOne, hash),
                              Batch(cert.stepOneCommittee, cert.stepOneSig.value));
    if !ok {
      return false;
    }
    ok, voters := VerifyBatch(e, c, Signable(height, stepTwo, hash),
                              Batch(cert.stepTwoCommittee, cert.stepTwoSig.value));
  }

  // ---------- From votes to a certificate ----------

  // The votes of a step come from different members of its committee.
  ghost predicate FromCommittee<A>(c: Committee, votes: seq<Vote<A>>, round: nat, step: nat) {
    var senders := SendersTo(votes, step, |votes|);
    Distinct(senders) && Set.Subset(senders, c.At(round, step))
  }

  lemma SameLength(a: seq<nat>, b: seq<nat>)
    requires Distinct(a) && Distinct(b) && SameKeys(a, b)
    ensures |a| == |b|
    decreases |a|
  {
    assert |b| > 0 ==> b[0] in b;
    if |a| > 0 {
      assert a[|a| - 1] in a;
      var j :| 0 <= j < |b| && b[j] == a[|a| - 1];
      SameButOne(a, b, j, a[..|a| - 1], b[..j] + b[j + 1..]);
      SameLength(a[..|a| - 1], b[..j] + b[j + 1..]);
    }
  }

  // The bitset of a batch names the senders of its votes.
  lemma BatchVoters<F, A, B, T>(e: Scheme<F, A, B, T>, c: Committee, votes: seq<Vote<A>>, round: nat, step: nat,
                                b: Option<Batch<A>>)
    returns (voters: seq<nat>)
    requires c.Valid() && FromCommittee(c, votes, round, step) && IsBatch(e, c, round, votes, step, b)
    requires TallyTo(e, votes, step, |votes|).step == step
    ensures Set.Selected(c.At(round, step), b.value.bitSet) == voters && b.value.bitSet <= Set.ALL
    ensures Distinct(voters) && SameKeys(voters, SendersTo(votes, step, |votes|))
    ensures |voters| == |SendersTo(votes, step, |votes|)|
  {
    var v := c.At(round, step);
    var s: seq<nat> :| Set.Sorted(s) && SameKeys(s, SendersTo(votes, step, |votes|))
                       && Set.Marks(v, s[..Set.Known(v, s)], |v|, b.value.bitSet);
    voters := s;
    Set.KnownIs(v, s, |s|);
    assert s[..|s|] == s;
    Set.PackUnpack(v, s, b.value.bitSet);
    Set.MarksBelow(v, s, b.value.bitSet);
    SameLength(s, SendersTo(votes, step, |votes|));
  }

  // Their aggregated key does not depend on the order: it is that of the senders.
  lemma VotersKey<F(!new), A(!new), B(!new), T(!new)>(e: Scheme<F, A, B, T>, c: Committee, votes: seq<Vote<A>>,
                                                      round: nat, step: nat, b: Option<Batch<A>>)
    returns (voters: seq<nat>)
    requires IsScheme(e) && c.Valid() && FromCommittee(c, votes, round, step) && IsBatch(e, c, round, votes, step, b)
    requires TallyTo(e, votes, step, |votes|).step == step && Decodes(e, SendersTo(votes, step, |votes|))
    ensures Set.Selected(c.At(round, step), b.value.bitSet) == voters && b.value.bitSet <= Set.ALL
    ensures |voters| == |SendersTo(votes, step, |votes|)|
    ensures Decodes(e, voters) && Apk(e, voters) == Apk(e, SendersTo(votes, step, |votes|))
  {
    var senders := SendersTo(votes, step, |votes|);
    voters := BatchVoters(e, c, votes, round, step, b);
    forall i | 0 <= i < |voters| ensures e.pkOf(voters[i]).Ok? {
      assert voters[i] in senders;
    }
    ApkReordered(e, senders, voters);
  }

  // Correctly signed votes make a batch that is in order.
  lemma BatchInOrder<F(!new), A(!new), B(!new), T(!new)>(e: Scheme<F, A, B, T>, c: Committee, votes: seq<Vote<A>>,
                                                         round: nat, step: nat, hash: seq<int>, b: Option<Batch<A>>)
    requires IsScheme(e) && c.Valid() && step != 0
    requires Signed(e, votes) && VotesFor(votes, round, hash) && FromCommittee(c, votes, round, step)
    requires HasVote(votes, step, |votes|)
    requires IsBatch(e, c, round, votes, step, b)
    ensures b.value.bitSet <= Set.ALL && BatchHolds(e, c, Signable(round, step, hash), b.value)
    ensures |Set.Selected(c.At(round, step), b.value.bitSet)| == |SendersTo(votes, step, |votes|)|
  {
    var senders := SendersTo(votes, step, |votes|);
    TallyVerifies(e, votes, round, step, hash, |votes|);
    SomeSenders(votes, step, |votes|);
    var voters := VotersKey(e, c, votes, round, step, b);
  }

  lemma {:induction false} SomeSenders<A>(votes: seq<Vote<A>>, step: nat, n: nat)
    requires n <= |votes| && HasVote(votes, step, n)
    ensures |SendersTo(votes, step, n)| > 0
    decreases n
  {
    if votes[n - 1].step != step {
      var i :| 0 <= i < n && votes[i].step == step;
      assert i < n - 1;
      SomeSenders(votes, step, n - 1);
    }
  }

  // ---------- Step 0 ----------

  // The position of the last vote of a step.
  function LastVote<A>(votes: seq<Vote<A>>, step: nat, n: nat): (i: nat)
    requires n <= |votes| && HasVote(votes, step, n)
    ensures i < n && votes[i].step == step
    ensures |SendersTo(votes, step, n)| > 0
    ensures SendersTo(votes, step, n)[|SendersTo(votes, step, n)| - 1] == votes[i].sender
    decreases n
  {
    if votes[n - 1].step == step then n - 1
    else
      var i :| 0 <= i < n && votes[i].step == step;
      assert i < n - 1;
      LastVote(votes, step, n - 1)
  }

  // A tally at step 0 starts again with every vote.
  lemma {:induction false} TallyAtZero<F, A, B, T>(e: Scheme<F, A, B, T>, votes: seq<Vote<A>>, n: nat)
    requires n <= |votes| && HasVote(votes, 0, n) && AllReadable(e, votes)
    ensures var t := TallyTo(e, votes, 0, n); t.step == 0 && t.sig == Some(votes[LastVote(votes, 0, n)].signed.value)
    decreases n
  {
    assert Readable(e, votes[n - 1]);
    if votes[n - 1].step == 0 {
      TallyStep(e, votes, 0, n - 1);
    } else {
      var i :| 0 <= i < n && votes[i].step == 0;
      assert i < n - 1;
      TallyAtZero(e, votes, n - 1);
    }
  }

  // The senders of the votes of a step before its last one.
  function Earlier<A>(votes: seq<Vote<A>>, step: nat): seq<nat> {
    var s := SendersTo(votes, step, |votes|);
    if |s| == 0 then [] else s[..|s| - 1]
  }

  // The message paired with the keys of some voters gives nothing.
  predicate PairsToZero<F, A, B, T(==)>(e: Scheme<F, A, B, T>, msg: Signable, keys: seq<nat>) {
    e.Pair(e.hashToG1(msg), Apk(e, keys)) == e.gt.zero
  }

  // A correct signature of the last key alone is one of all keys exactly if the others pair to
  // zero.
  lemma LastOfAll<F(!new), A(!new), B(!new), T(!new)>(e: Scheme<F, A, B, T>, msg: Signable, keys: seq<nat>, sig: A)
    requires IsScheme(e) && |keys| > 0 && Decodes(e, keys)
    requires Verifies(e, e.Weighted(e.pkOf(keys[|keys| - 1]).value), msg, sig)
    ensures Verifies(e, Apk(e, keys), msg, sig) <==> PairsToZero(e, msg, keys[..|keys| - 1])
  {
    var n, h := |keys| - 1, e.hashToG1(msg);
    var rest, w := Apk(e, keys[..n]), e.Weighted(e.pkOf(keys[n]).value);
    ApkLocal(e, keys, keys[..n], n);
    assert Apk(e, keys) == e.g2.Add(rest, w);
    PairRight(e, h, rest, w);
    ZeroFirst(e.f, e.gt, e.Pair(h, w));
    if Verifies(e, Apk(e, keys), msg, sig) {
      Cancel(e.f, e.gt, e.Pair(h, rest), e.gt.zero, e.Pair(h, w));
    }
  }

  // So the batch of step 0 is in order exactly when the keys of all voters but the last pair to
  // zero with the message.
  lemma BatchAtZero<F(!new), A(!new), B(!new), T(!new)>(e: Scheme<F, A, B, T>, c: Committee, votes: seq<Vote<A>>,
                                                        round: nat, hash: seq<int>, b: Option<Batch<A>>)
    requires IsScheme(e) && c.Valid()
    requires Signed(e, votes) && VotesFor(votes, round, hash) && FromCommittee(c, votes, round, 0)
    requires HasVote(votes, 0, |votes|)
    requires IsBatch(e, c, round, votes, 0, b)
    ensures b.value.bitSet <= Set.ALL
    ensures BatchHolds(e, c, Signable(round, 0, hash), b.value)
       <==> PairsToZero(e, Signable(round, 0, hash), Earlier(votes, 0))
    ensures |Set.Selected(c.At(round, 0), b.value.bitSet)| == |SendersTo(votes, 0, |votes|)|
  {
    var senders := SendersTo(votes, 0, |votes|);
    TallyAtZero(e, votes, |votes|);
    SendersDecode(e, votes, 0, |votes|);
    var last := votes[LastVote(votes, 0, |votes|)];
    assert last.Message() == Signable(round, 0, hash);
    LastOfAll(e, last.Message(), senders, last.signed.value);
    var voters := VotersKey(e, c, votes, round, 0, b);
  }

  lemma {:induction false} SendersDecode<F, A, B, T>(e: Scheme<F, A, B, T>, votes: seq<Vote<A>>, step: nat, n: nat)
    requires n <= |votes| && AllReadable(e, votes)
    ensures Decodes(e, SendersTo(votes, step, n))
    decreases n
  {
    if n > 0 {
      assert Readable(e, votes[n - 1]);
      SendersDecode(e, votes, step, n - 1);
    }
  }

  // ---------- The main result ----------

  // Correctly signed votes for one hash at two steps, at least one at each, from different members
  // of the committees, in any order.
  ghost predicate ProperAt<F, A, B, T>(e: Scheme<F, A, B, T>, c: Committee, votes: seq<Vote<A>>, round: nat, one: nat,
                                       two: nat, hash: seq<int>)
  {
    && Signed(e, votes) && VotesFor(votes, round, hash)
    && (forall i :: 0 <= i < |votes| ==> votes[i].step == one || votes[i].step == two)
    && HasVote(votes, one, |votes|) && FromCommittee(c, votes, round, one)
    && HasVote(votes, two, |votes|) && FromCommittee(c, votes, round, two)
  }

  // ... at the two steps of s.
  ghost predicate Proper<F, A, B, T>(e: Scheme<F, A, B, T>, c: Committee, votes: seq<Vote<A>>, round: nat, s: nat,
                                     hash: seq<int>)
  {
    s < 256 && ProperAt(e, c, votes, round, StepOne(s), StepTwo(s), hash)
  }

  // The second step does not wrap round to 0, or all its voters but the last pair to zero.
  ghost predicate NotAtZero<F, A, B, T>(e: Scheme<F, A, B, T>, votes: seq<Vote<A>>, round: nat, s: nat, hash: seq<int>)
  {
    s % 128 == 0 ==> PairsToZero(e, Signable(round, 0, hash), Earlier(votes, 0))
  }

  // A single vote at step 0 does no harm.
  lemma OneVoteAtZero<F(!new), A(!new), B(!new), T(!new)>(e: Scheme<F, A, B, T>, votes: seq<Vote<A>>, round: nat,
                                                          s: nat, hash: seq<int>)
    requires IsScheme(e) && |SendersTo(votes, 0, |votes|)| <= 1
    ensures NotAtZero(e, votes, round, s, hash)
  {
    var h, z := e.hashToG1(Signable(round, 0, hash)), e.g2.zero;
    AddZero(e.f, e.g2, z);
    PairRight(e, h, z, z);
    ZeroFirst(e.f, e.gt, e.Pair(h, z));
    Cancel(e.f, e.gt, e.Pair(h, z), e.gt.zero, e.Pair(h, z));
    assert Earlier(votes, 0) == [];
  }

  lemma Parity(s: nat)
    requires s < 256
    ensures StepOne(s) % 2 == 1 && StepTwo(s) % 2 == 0 && (StepTwo(s) == 0 <==> s % 128 == 0)
  {
    assert StepTwo(s) == if s < 128 then 2 * s else 2 * s - 256;
    assert StepOne(s) == if StepTwo(s) == 0 then 255 else StepTwo(s) - 1;
  }

  // The batch of a parity is that of the only step with this parity.
  lemma TheBatch<F, A, B, T>(e: Scheme<F, A, B, T>, c: Committee, votes: seq<Vote<A>>, round: nat, step: nat,
                             other: nat, parity: nat, b: Option<Batch<A>>)
    requires step % 2 == parity != other % 2
    requires forall j :: 0 <= j < |votes| ==> votes[j].step == step || votes[j].step == other
    requires HasVote(votes, step, |votes|) && SomeBatch(e, c, round, votes, parity, b)
    ensures IsBatch(e, c, round, votes, step, b)
  {
    assert step % 2 == parity && HasVote(votes, step, |votes|);
    var k: nat :| k % 2 == parity && HasVote(votes, k, |votes|) && IsBatch(e, c, round, votes, k, b);
  }

  lemma FirstInOrder<F(!new), A(!new), B(!new), T(!new)>(e: Scheme<F, A, B, T>, c: Committee, votes: seq<Vote<A>>,
                                                         round: nat, one: nat, two: nat, hash: seq<int>,
                                                         b: Option<Batch<A>>)
    requires IsScheme(e) && c.Valid() && ProperAt(e, c, votes, round, one, two, hash)
    requires SomeBatch(e, c, round, votes, 1, b)
    requires one % 2 == 1 && two % 2 == 0
    ensures b.Some? && b.value.bitSet <= Set.ALL && BatchHolds(e, c, Signable(round, one, hash), b.value)
    ensures |Set.Selected(c.At(round, one), b.value.bitSet)| == |SendersTo(votes, one, |votes|)|
  {
    TheBatch(e, c, votes, round, one, two, 1, b);
    BatchInOrder(e, c, votes, round, one, hash, b);
  }

  lemma SecondInOrder<F(!new), A(!new), B(!new), T(!new)>(e: Scheme<F, A, B, T>, c: Committee, votes: seq<Vote<A>>,
                                                          round: nat, one: nat, two: nat, hash: seq<int>,
                                                          b: Option<Batch<A>>)
    requires IsScheme(e) && c.Valid() && ProperAt(e, c, votes, round, one, two, hash)
    requires SomeBatch(e, c, round, votes, 0, b)
    requires one % 2 == 1 && two % 2 == 0
    ensures b.Some? && b.value.bitSet <= Set.ALL
    ensures BatchHolds(e, c, Signable(round, two, hash), b.value)
       <==> (two == 0 ==> PairsToZero(e, Signable(round, 0, hash), Earlier(votes, 0)))
    ensures |Set.Selected(c.At(round, two), b.value.bitSet)| == |SendersTo(votes, two, |votes|)|
  {
    TheBatch(e, c, votes, round, two, one, 0, b);
    if two == 0 {
      BatchAtZero(e, c, votes, round, hash, b);
    } else {
      BatchInOrder(e, c, votes, round, two, hash, b);
    }
  }

  // Votes are aggregated, the event is verified, and a certificate is made from it and checked
  // at the height of the round.
  method VoteAndCertify<F(!new), A(!new), B(!new), T(==, !new)>(
      e: Scheme<F, A, B, T>, c: Committee, round: nat, s: nat, hash: seq<int>, votes: seq<Vote<A>>)
    returns (verified: bool, certified: bool)
    requires IsScheme(e) && c.Valid() && Proper(e, c, votes, round, s, hash)
    ensures verified <==>
      NotAtZero(e, votes, round, s, hash)
      && |SendersTo(votes, StepOne(s), |votes|)| + |SendersTo(votes, StepTwo(s), |votes|)| >= c.Quorum(round)
    ensures certified <==> round < 2 || NotAtZero(e, votes, round, s, hash)
  {
    var r := Aggregate(e, c, round, s, hash, votes);
    var ev := r.value;
    Parity(s);
    FirstInOrder(e, c, votes, round, StepOne(s), StepTwo(s), hash, BatchAt(ev, 0));
    SecondInOrder(e, c, votes, round, StepOne(s), StepTwo(s), hash, BatchAt(ev, 1));
    verified := Verify(e, c, ev);
    certified := CheckBlockCertificate(e, c, round, hash, GenerateCertificate(ev));
  }

  // ---------- An example at step 0 ----------

  // The field of two elements, taken as every group, with the product as pairing.
  function Gf2(): Field<bool> {
    Field(false, true, (p: (bool, bool)) => p.0 != p.1, (p: (bool, bool)) => p.0 != p.1,
          (p: (bool, bool)) => p.0 && p.1, (p: (bool, bool)) => p.0 && p.1)
  }

  function TinyScheme(): Scheme<bool, bool, bool, bool> {
    Scheme(Gf2(), Self(Gf2()), Self(Gf2()), Self(Gf2()), (p: (bool, bool)) => p.0 && p.1, _ => true, _ => true,
           _ => Ok(true), true)
  }

  function TinyVotes(): seq<Vote<bool>> {
    [Vote(1, 5, 255, [], Ok(true)), Vote(1, 5, 0, [], Ok(true)), Vote(2, 5, 0, [], Ok(true))]
  }

  function TinyCommittee(): Committee {
    Committee(_ => [1, 2], _ => 2)
  }

  lemma TinyIsScheme()
    ensures IsScheme(TinyScheme())
  {
    var f, e := Gf2(), TinyScheme();
    assert forall x: bool, y: bool :: f.Add(x, y) == (x != y);
    assert forall x: bool :: f.Neg(x) == x && f.Inv(x) == x;
    assert forall x: bool, y: bool :: f.Mul(x, y) == (x && y);
    assert IsField(f);
    SelfIsModule(f);
    assert forall x: bool, y: bool :: e.g1.Add(x, y) == (x != y) && e.g1.Scale(x, y) == (x && y);
    assert forall x: bool, y: bool :: e.Pair(x, y) == (x && y);
  }

  lemma TinySenders()
    ensures SendersTo(TinyVotes(), 0, 3) == [1, 2] && SendersTo(TinyVotes(), 255, 3) == [1]
  {
    var votes := TinyVotes();
    assert SendersTo(votes, 0, 1) == [];
    assert SendersTo(votes, 0, 2) == [1];
    assert SendersTo(votes, 255, 1) == [1];
    assert SendersTo(votes, 255, 2) == [1];
  }

  lemma TinyIsProper()
    ensures TinyCommittee().Valid() && Proper(TinyScheme(), TinyCommittee(), TinyVotes(), 5, 128, [])
  {
    TinySenders();
    var votes := TinyVotes();
    assert votes[0].step == StepOne(128) && votes[1].step == StepTwo(128);
  }

  // Two correct votes at step 0 are not aggregated into a correct batch.
  lemma StepZeroFails()
    ensures IsScheme(TinyScheme()) && TinyCommittee().Valid()
    ensures Proper(TinyScheme(), TinyCommittee(), TinyVotes(), 5, 128, [])
    ensures !NotAtZero(TinyScheme(), TinyVotes(), 5, 128, [])
  {
    TinyIsScheme();
    TinyIsProper();
    TinySenders();
    var e, votes := TinyScheme(), TinyVotes();
    assert Earlier(votes, 0) == [1] && ApkTo(e, [1], 0) == false;
    assert ApkTo(e, [1], 1) == true;
  }

  method StepZeroRejected() returns (verified: bool, certified: bool)
    ensures !verified && !certified
  {
    StepZeroFails();
    verified, certified := VoteAndCertify(TinyScheme(), TinyCommittee(), 5, 128, [], TinyVotes());
  }
}
