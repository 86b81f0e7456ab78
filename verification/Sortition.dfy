/**
The weighted sortition of voting committees. The scores, which the code derives from hashes,
are a parameter: everything holds for every outcome of the hashes.
*/
module Sortition {
  import opened Counting
  import P = Provisioners
  import Set = SortedSet

  // Names a member for the law below; it is always true.
  ghost predicate Nth(i: nat) {
    true
  }

  // The stakes of the first members, in the order of their keys.
  ghost predicate AreStakes(keys: seq<nat>, members: P.Members, stakes: seq<nat>) {
    && |stakes| <= |keys|
    && forall i: nat {:trigger Nth(i)} :: i < |stakes| ==>
         keys[i] in members && stakes[i] == P.Wrap(P.Amount(members[keys[i]]))
  }

  method StakeAt(p: P.Provisioners, i: nat, ghost stakes: seq<nat>) returns (key: nat, stake: nat)
    requires p.Valid() && AreStakes(p.keys, p.members, stakes) && i < |stakes|
    ensures key == p.keys[i] && stake == stakes[i]
  {
    key := p.keys[i];
    assert Nth(i);
    var r := p.GetStake(129, key);
    stake := r.value;
  }

  // ---------- Walking round the members ----------

  function Next(i: nat, n: nat): nat {
    if i + 1 >= n then 0 else i + 1
  }

  // The member at a position, where positions go on for lap after lap.
  function Index(pos: nat, n: nat): (i: nat)
    ensures n > 0 ==> i < n
  {
    if pos == 0 then 0 else Next(Index(pos - 1, n), n)
  }

  lemma {:induction false} IndexIsRemainder(pos: nat, n: nat)
    requires n > 0
    ensures exists lap: nat :: pos == lap * n + Index(pos, n)
  {
    if pos == 0 {
      assert 0 == 0 * n + Index(0, n);
    } else {
      IndexIsRemainder(pos - 1, n);
      var lap: nat :| pos - 1 == lap * n + Index(pos - 1, n);
      if Index(pos - 1, n) + 1 >= n {
        assert (lap + 1) * n == lap * n + n;
        assert pos == (lap + 1) * n + Index(pos, n);
      } else {
        assert pos == lap * n + Index(pos, n);
      }
    }
  }

  // The stake that has been walked before a position.
  function Walked(stakes: seq<nat>, pos: nat): nat
    requires |stakes| > 0
  {
    if pos == 0 then 0 else Walked(stakes, pos - 1) + stakes[Index(pos - 1, |stakes|)]
  }

  // The first position with which the walked stake reaches the score.
  ghost predicate IsFirst(stakes: seq<nat>, score: nat, pos: nat)
    requires |stakes| > 0
  {
    Walked(stakes, pos + 1) >= score && forall q :: 0 < q <= pos ==> Walked(stakes, q) < score
  }

  // How many steps it is from i to j.
  function Distance(i: nat, j: nat, n: nat): nat
    requires j < n && i < n
  {
    if i <= j then j - i else j - i + n
  }

  // The walk has come to a position, where the counter i may stand behind the last member, and
  // has rest to go.
  ghost predicate OnTheWay(stakes: seq<nat>, score: nat, i: nat, pos: nat, rest: nat)
    requires |stakes| > 0
  {
    && i <= |stakes| && Index(pos, |stakes|) == (if i == |stakes| then 0 else i)
    && (pos > 0 ==> rest > 0)
    && Walked(stakes, pos) + rest == score
    && forall q :: 0 < q <= pos ==> Walked(stakes, q) < score
  }

  lemma OnwardStep(stakes: seq<nat>, score: nat, i: nat, pos: nat, rest: nat, rich: nat)
    requires rich < |stakes| && stakes[rich] > 0 && i < |stakes|
    requires OnTheWay(stakes, score, i, pos, rest) && stakes[i] < rest
    ensures OnTheWay(stakes, score, i + 1, pos + 1, rest - stakes[i])
    ensures stakes[i] > 0 || Distance(Index(pos + 1, |stakes|), rich, |stakes|) < Distance(i, rich, |stakes|)
  {
    assert Walked(stakes, pos + 1) == Walked(stakes, pos) + stakes[i];
  }

  method ExtractCommitteeMember(p: P.Provisioners, score: nat, round: nat, ghost stakes: seq<nat>, ghost rich: nat)
    returns (i: nat, key: nat, ghost pos: nat)
    requires p.Valid() && AreStakes(p.keys, p.members, stakes) && |stakes| == p.SizeAt(round)
    requires rich < |stakes| && stakes[rich] > 0
    modifies p`sizeCache
    ensures p.Valid() && p.SizeAt(round) == old(p.SizeAt(round))
    ensures i < |stakes| && key == p.keys[i]
    ensures IsFirst(stakes, score, pos) && i == Index(pos, |stakes|)
  {
    ghost var n := |stakes|;
    var rest := score;
    i, pos := 0, 0;
    while true
      invariant p.Valid() && AreStakes(p.keys, p.members, stakes) && p.SizeAt(round) == n
      invariant OnTheWay(stakes, score, i, pos, rest)
      decreases rest, Distance(Index(pos, n), rich, n)
    {
      var size := p.Size(round);
      if i >= size {
        i := 0;
      }
      var stake;
      key, stake := StakeAt(p, i, stakes);
      if stake >= rest {
        return;
      }
      OnwardStep(stakes, score, i, pos, rest, rich);
      rest := rest - stake;
      i, pos := i + 1, pos + 1;
    }
  }

  // ---------- Drawing a committee ----------

  // The first index from start on, round the members, that has not been drawn.
  ghost predicate FirstFree(n: nat, drawn: seq<nat>, start: nat, d: nat) {
    && start < n && d < n && d !in drawn
    && forall x :: 0 <= x < n && Distance(start, x, n) < Distance(start, d, n) ==> x in drawn
  }

  // Each draw takes the member that its score leads to, or the next one that is still free.
  ghost predicate AreDraws(stakes: seq<nat>, hashes: nat -> nat, weight: nat, draws: seq<nat>)
    requires weight > 0 && |stakes| > 0
  {
    forall j :: 0 <= j < |draws| ==> IsDraw(stakes, hashes(j) % weight, draws[..j], draws[j])
  }

  ghost predicate IsDraw(stakes: seq<nat>, score: nat, drawn: seq<nat>, d: nat)
    requires |stakes| > 0
  {
    exists pos: nat :: IsFirst(stakes, score, pos) && FirstFree(|stakes|, drawn, Index(pos, |stakes|), d)
  }

  // The committee holds the keys of the drawn members.
  ghost predicate Holds(keys: seq<nat>, n: nat, draws: seq<nat>, committee: seq<nat>)
    requires n <= |keys|
  {
    && Set.Sorted(committee) && |committee| == |draws|
    && (forall j :: 0 <= j < |draws| ==> draws[j] < n)
    && (forall i :: 0 <= i < n ==> (keys[i] in committee <==> i in draws))
    && (forall k :: k in committee ==> k in keys[..n])
  }

  // Fewer draws than members leave a member that has not been drawn.
  lemma {:induction false} SomeFree(n: nat, draws: seq<nat>) returns (x: nat)
    requires |draws| < n
    ensures x < n && x !in draws
    decreases n
  {
    if n - 1 !in draws {
      return n - 1;
    }
    var j :| 0 <= j < |draws| && draws[j] == n - 1;
    var rest := draws[..j] + draws[j + 1..];
    x := SomeFree(n - 1, rest);
    forall i | 0 <= i < |draws| ensures draws[i] != x {
      if i != j {
        assert draws[i] == rest[if i < j then i else i - 1];
      }
    }
  }

  lemma HoldsMore(keys: seq<nat>, n: nat, draws: seq<nat>, committee: seq<nat>, d: nat, next: seq<nat>)
    requires Set.Sorted(keys) && n <= |keys| && Holds(keys, n, draws, committee) && d < n && d !in draws
    requires Set.IsInserted(committee, keys[d], next) && |next| == |committee| + 1
    ensures Holds(keys, n, draws + [d], next)
  {
  }

  // The member k steps after start.
  function Past(start: nat, k: nat, n: nat): (i: nat)
    requires start < n && k <= n
    ensures i < n && (k < n ==> Distance(start, i, n) == k)
  {
    if start + k < n then start + k else start + k - n
  }

  // All members up to so many steps after start have been drawn.
  ghost predicate Tried(n: nat, draws: seq<nat>, start: nat, steps: nat)
    requires start < n
  {
    forall x :: 0 <= x < n && Distance(start, x, n) <= steps ==> x in draws
  }

  lemma TriedNext(n: nat, draws: seq<nat>, start: nat, steps: nat, i: nat)
    requires start < n && steps + 1 < n && Tried(n, draws, start, steps) && i == Past(start, steps + 1, n)
    ensures if i in draws then Tried(n, draws, start, steps + 1) else FirstFree(n, draws, start, i)
  {
    forall x | 0 <= x < n && Distance(start, x, n) == steps + 1 ensures x == i {
    }
  }

  // The next member of the walk, put in if it is not in yet.
  method TryNext(p: P.Provisioners, round: nat, committee: seq<nat>, start: nat, i: nat, ghost n: nat,
                 ghost draws: seq<nat>, ghost steps: nat)
    returns (i1: nat, ok: bool, next: seq<nat>)
    requires p.Valid() && n == p.SizeAt(round) <= |p.keys| && start < n && steps + 1 < n && i == Past(start, steps, n)
    requires Holds(p.keys, n, draws, committee) && Tried(n, draws, start, steps)
    modifies p`sizeCache
    ensures p.Valid() && p.SizeAt(round) == n && i1 == Past(start, steps + 1, n)
    ensures if ok then FirstFree(n, draws, start, i1) && Holds(p.keys, n, draws + [i1], next)
            else Tried(n, draws, start, steps + 1)
  {
    i1 := i + 1;
    var size := p.Size(round);
    if i1 >= size {
      i1 := 0;
    }
    TriedNext(n, draws, start, steps, i1);
    ok, next := Set.InsertInto(committee, p.keys[i1]);
    if ok {
      HoldsMore(p.keys, n, draws, committee, i1, next);
    }
  }

  // The walk from a member that is already in to one that is not.
  method TakeNextFree(p: P.Provisioners, round: nat, committee: seq<nat>, start: nat, ghost n: nat,
                      ghost draws: seq<nat>)
    returns (i: nat, next: seq<nat>)
    requires p.Valid() && n == p.SizeAt(round) <= |p.keys| && start < n && |draws| < n
    requires Holds(p.keys, n, draws, committee) && start in draws
    modifies p`sizeCache
    ensures p.Valid() && p.SizeAt(round) == n
    ensures FirstFree(n, draws, start, i) && Holds(p.keys, n, draws + [i], next)
  {
    ghost var free := SomeFree(n, draws);
    i := start;
    ghost var steps := 0;
    while true
      invariant p.Valid() && p.SizeAt(round) == n
      invariant steps < n && i == Past(start, steps, n) && Tried(n, draws, start, steps)
      decreases n - steps
    {
      assert steps < Distance(start, free, n);
      var ok;
      i, ok, next := TryNext(p, round, committee, start, i, n, draws, steps);
      if ok {
        return;
      }
      steps := steps + 1;
    }
  }

  method CreateVotingCommittee(p: P.Provisioners, round: nat, totalWeight: nat, hashes: nat -> nat, size: nat,
                               ghost stakes: seq<nat>, ghost rich: nat)
    returns (committee: seq<nat>, ghost draws: seq<nat>)
    requires p.Valid() && AreStakes(p.keys, p.members, stakes) && |stakes| == p.SizeAt(round)
    requires totalWeight > 0 && size <= |stakes| && rich < |stakes| && stakes[rich] > 0
    modifies p`sizeCache
    ensures p.Valid() && |draws| == |committee| == size
    ensures AreDraws(stakes, hashes, totalWeight, draws) && Holds(p.keys, |stakes|, draws, committee)
  {
    committee, draws := [], [];
    ghost var n := |stakes|;
    var j := 0;
    while |committee| < size
      invariant p.Valid() && p.SizeAt(round) == n
      invariant j == |draws| <= size && Holds(p.keys, n, draws, committee)
      invariant AreDraws(stakes, hashes, totalWeight, draws)
      decreases size - |draws|
    {
      var score := hashes(j) % totalWeight;
      var i, key;
      ghost var pos;
      i, key, pos := ExtractCommitteeMember(p, score, round, stakes, rich);
      ghost var start := i;
      var ok, next := Set.InsertInto(committee, key);
      if ok {
        HoldsMore(p.keys, n, draws, committee, i, next);
      } else {
        i, next := TakeNextFree(p, round, committee, i, n, draws);
      }
      assert FirstFree(n, draws, Index(pos, n), i);
      assert IsDraw(stakes, score, draws, i);
      DrawMore(stakes, hashes, totalWeight, draws, i);
      committee, draws := next, draws + [i];
      j := j + 1;
    }
  }

  lemma DrawMore(stakes: seq<nat>, hashes: nat -> nat, weight: nat, draws: seq<nat>, d: nat)
    requires weight > 0 && |stakes| > 0 && AreDraws(stakes, hashes, weight, draws)
    requires IsDraw(stakes, hashes(|draws|) % weight, draws, d)
    ensures AreDraws(stakes, hashes, weight, draws + [d])
  {
    var next := draws + [d];
    forall j | 0 <= j < |next| ensures IsDraw(stakes, hashes(j) % weight, next[..j], next[j]) {
      if j < |draws| {
        assert next[..j] == draws[..j];
      } else {
        assert next[..j] == draws;
      }
    }
  }

  // ---------- Who can be drawn ----------

  lemma {:induction false} IndexBelow(pos: nat, n: nat)
    requires pos < n
    ensures Index(pos, n) == pos
  {
    if pos > 0 {
      IndexBelow(pos - 1, n);
    }
  }

  lemma {:induction false} IndexAtMost(pos: nat, n: nat)
    ensures Index(pos, n) <= pos
  {
    if pos > 0 {
      IndexAtMost(pos - 1, n);
    }
  }

  lemma {:induction false} WalkedGrows(stakes: seq<nat>, p: nat, q: nat)
    requires |stakes| > 0 && p <= q
    ensures Walked(stakes, p) <= Walked(stakes, q)
    decreases q
  {
    if p < q {
      WalkedGrows(stakes, p, q - 1);
    }
  }

  // Some score below the weight leads to this member: score 0 to the first one, and the score
  // just above the stakes before it to one with a stake.
  predicate Direct(stakes: seq<nat>, weight: nat, s: nat)
    requires s < |stakes|
  {
    s == 0 || (stakes[s] > 0 && Walked(stakes, s) + 1 < weight)
  }

  lemma DirectScore(stakes: seq<nat>, weight: nat, s: nat) returns (score: nat)
    requires weight > 0 && s < |stakes| && Direct(stakes, weight, s)
    ensures score < weight && IsFirst(stakes, score, s) && Index(s, |stakes|) == s
  {
    IndexBelow(s, |stakes|);
    score := if s == 0 then 0 else Walked(stakes, s) + 1;
    forall q | 0 < q <= s ensures Walked(stakes, q) < score {
      WalkedGrows(stakes, q, s);
    }
  }

  lemma OnlyDirect(stakes: seq<nat>, weight: nat, score: nat, pos: nat)
    requires |stakes| > 0 && score < weight && IsFirst(stakes, score, pos)
    ensures Direct(stakes, weight, Index(pos, |stakes|))
  {
    IndexAtMost(pos, |stakes|);
    WalkedGrows(stakes, Index(pos, |stakes|), pos);
    assert pos > 0 ==> Walked(stakes, pos) < score;
  }

  // A member can be drawn if it is less than size steps behind one that a score leads to.
  ghost predicate Reachable(stakes: seq<nat>, weight: nat, size: nat, x: nat)
    requires x < |stakes|
  {
    exists s :: 0 <= s < |stakes| && Direct(stakes, weight, s) && Distance(s, x, |stakes|) < size
  }

  // The k members from start on, round the members.
  function From(start: nat, k: nat, n: nat): (r: seq<nat>)
    requires start < n && k <= n
    ensures |r| == k && forall j :: 0 <= j < k ==> r[j] == Past(start, j, n)
  {
    if k == 0 then [] else From(start, k - 1, n) + [Past(start, k - 1, n)]
  }

  // If all of these have been drawn, there were at least k draws.
  lemma {:induction false} DrawnCount(start: nat, k: nat, n: nat, draws: seq<nat>)
    requires start < n && k <= n && forall j :: 0 <= j < k ==> From(start, k, n)[j] in draws
    ensures k <= |draws|
    decreases k
  {
    if k > 0 {
      var run, shorter := From(start, k, n), From(start, k - 1, n);
      var last := run[k - 1];
      var i :| 0 <= i < |draws| && draws[i] == last;
      var rest := draws[..i] + draws[i + 1..];
      forall j | 0 <= j < k - 1 ensures shorter[j] in rest {
        var x := run[j];
        assert x == shorter[j] && x in draws && x != last;
        var l :| 0 <= l < |draws| && draws[l] == x;
        assert rest[if l < i then l else l - 1] == x;
      }
      DrawnCount(start, k - 1, n, rest);
    }
  }

  lemma DrawnIsReachable(stakes: seq<nat>, hashes: nat -> nat, weight: nat, draws: seq<nat>, j: nat)
    requires weight > 0 && |stakes| > 0 && AreDraws(stakes, hashes, weight, draws) && j < |draws|
    ensures draws[j] < |stakes| && Reachable(stakes, weight, |draws|, draws[j])
  {
    var n, score, d := |stakes|, hashes(j) % weight, draws[j];
    assert IsDraw(stakes, score, draws[..j], d);
    var pos: nat :| IsFirst(stakes, score, pos) && FirstFree(n, draws[..j], Index(pos, n), d);
    OnlyDirect(stakes, weight, score, pos);
    var start := Index(pos, n);
    var far := Distance(start, d, n);
    forall i | 0 <= i < far ensures From(start, far, n)[i] in draws[..j] {
      assert Distance(start, From(start, far, n)[i], n) == i;
    }
    DrawnCount(start, far, n, draws[..j]);
  }

  // The same score again and again draws the members behind one another.
  lemma SameScore(stakes: seq<nat>, weight: nat, score: nat, start: nat, size: nat)
    requires start < |stakes| && size <= |stakes| && score < weight
    requires IsFirst(stakes, score, start) && Index(start, |stakes|) == start
    ensures AreDraws(stakes, _ => score, weight, From(start, size, |stakes|))
  {
    var n, draws := |stakes|, From(start, size, |stakes|);
    forall j | 0 <= j < size ensures IsDraw(stakes, score, draws[..j], draws[j]) {
      forall x | 0 <= x < n && Distance(start, x, n) < Distance(start, draws[j], n) ensures x in draws[..j] {
        assert draws[..j][Distance(start, x, n)] == x;
      }
      assert FirstFree(n, draws[..j], Index(start, n), draws[j]);
    }
    SmallScore(score, weight);
  }

  lemma SmallScore(score: nat, weight: nat)
    requires score < weight
    ensures score % weight == score
  {
  }

  lemma ReachableIsDrawn(stakes: seq<nat>, weight: nat, size: nat, x: nat) returns (hashes: nat -> nat, draws: seq<nat>)
    requires weight > 0 && size <= |stakes| && x < |stakes| && Reachable(stakes, weight, size, x)
    ensures AreDraws(stakes, hashes, weight, draws) && |draws| == size && x in draws
  {
    var n := |stakes|;
    var s :| 0 <= s < n && Direct(stakes, weight, s) && Distance(s, x, n) < size;
    var score := DirectScore(stakes, weight, s);
    SameScore(stakes, weight, score, s, size);
    hashes, draws := _ => score, From(s, size, n);
    assert draws[Distance(s, x, n)] == x;
  }

  // Every draw of every outcome of the hashes is good.
  ghost predicate AlwaysDraws(stakes: seq<nat>, weight: nat, size: nat, good: nat -> bool)
    requires weight > 0 && |stakes| > 0
  {
    forall hashes: nat -> nat, draws: seq<nat> ::
      AreDraws(stakes, hashes, weight, draws) && |draws| == size ==> forall d :: d in draws ==> good(d)
  }

  // That is so exactly if the members that can be drawn are good.
  lemma DrawsAre(stakes: seq<nat>, weight: nat, size: nat, good: nat -> bool)
    requires weight > 0 && |stakes| > 0 && size <= |stakes|
    ensures AlwaysDraws(stakes, weight, size, good)
       <==> forall x :: 0 <= x < |stakes| && Reachable(stakes, weight, size, x) ==> good(x)
  {
    if AlwaysDraws(stakes, weight, size, good) {
      forall x | 0 <= x < |stakes| && Reachable(stakes, weight, size, x) ensures good(x) {
        var hashes, draws := ReachableIsDrawn(stakes, weight, size, x);
      }
    }
    if forall x :: 0 <= x < |stakes| && Reachable(stakes, weight, size, x) ==> good(x) {
      forall hashes: nat -> nat, draws: seq<nat>, d
        | AreDraws(stakes, hashes, weight, draws) && |draws| == size && d in draws
        ensures good(d)
      {
        var j :| 0 <= j < |draws| && draws[j] == d;
        DrawnIsReachable(stakes, hashes, weight, draws, j);
      }
    }
  }

  // ---------- Active members ----------

  // The member at this position has a stake that has started.
  predicate Active(keys: seq<nat>, members: P.Members, round: nat, x: nat) {
    x < |keys| && keys[x] in members && P.ActiveAt(members[keys[x]], round)
  }

  function ActiveTest(keys: seq<nat>, members: P.Members, round: nat): nat -> bool {
    (x: nat) => Active(keys, members, round, x)
  }

  // All draws of all outcomes are active exactly if the members that can be drawn are.
  lemma ActiveCommittees(keys: seq<nat>, members: P.Members, round: nat, stakes: seq<nat>, weight: nat, size: nat)
    requires weight > 0 && |stakes| > 0 && size <= |stakes|
    ensures AlwaysDraws(stakes, weight, size, ActiveTest(keys, members, round))
       <==> forall x :: 0 <= x < |stakes| && Reachable(stakes, weight, size, x) ==> Active(keys, members, round, x)
  {
    DrawsAre(stakes, weight, size, ActiveTest(keys, members, round));
  }

  // When all seats are taken, all of the first members are drawn.
  lemma AllSeats(stakes: seq<nat>, weight: nat, x: nat)
    requires weight > 0 && x < |stakes|
    ensures Reachable(stakes, weight, |stakes|, x)
  {
    assert Direct(stakes, weight, 0) && Distance(0, x, |stakes|) < |stakes|;
  }

  // A committee with as many seats as there are active members is made of active members,
  // whatever the hashes, exactly if the active members have the first keys.
  lemma FullCommittee(keys: seq<nat>, members: P.Members, round: nat, stakes: seq<nat>, weight: nat)
    requires weight > 0 && |stakes| > 0 && Set.Sorted(keys) && forall k :: k in keys <==> k in members
    requires |stakes| == |P.ActiveKeys(members, round)| <= |keys|
    ensures AlwaysDraws(stakes, weight, |stakes|, ActiveTest(keys, members, round))
       <==> forall k :: k in keys[..|stakes|] <==> k in P.ActiveKeys(members, round)
  {
    ActiveCommittees(keys, members, round, stakes, weight, |stakes|);
    forall x | 0 <= x < |stakes| ensures Reachable(stakes, weight, |stakes|, x) {
      AllSeats(stakes, weight, x);
    }
    FirstAreActive(keys, members, round, |stakes|);
  }

  lemma FirstAreActive(keys: seq<nat>, members: P.Members, round: nat, n: nat)
    requires Set.Sorted(keys) && (forall k :: k in keys <==> k in members)
    requires n == |P.ActiveKeys(members, round)| <= |keys|
    ensures (forall x :: 0 <= x < n ==> Active(keys, members, round, x))
       <==> forall k :: k in keys[..n] <==> k in P.ActiveKeys(members, round)
  {
    var active := P.ActiveKeys(members, round);
    if forall x :: 0 <= x < n ==> Active(keys, members, round, x) {
      var first := set k | k in keys[..n];
      P.KeyCount(keys[..n], first);
      forall k | k in first ensures k in active {
        var x :| 0 <= x < n && keys[x] == k;
        assert Active(keys, members, round, x);
      }
      SameSize(first, active);
    }
    if forall k :: k in keys[..n] <==> k in active {
      forall x | 0 <= x < n ensures Active(keys, members, round, x) {
        assert keys[..n][x] in keys[..n];
      }
    }
  }

  // A member whose stake starts in round 100, and one whose stake has started.
  function TwoMembers(): P.Members {
    map[1 := [P.Stake(10, 100, 200)], 2 := [P.Stake(10, 0, 200)]]
  }

  lemma TwoMembersAt5(keys: seq<nat>)
    requires Set.Sorted(keys) && forall k :: k in keys <==> k in TwoMembers()
    ensures keys == [1, 2] && P.ActiveKeys(TwoMembers(), 5) == {2}
  {
    Set.SortedUnique(keys, [1, 2]);
    assert TwoMembers()[2][0].startHeight == 0;
  }

  lemma FirstStake()
    ensures AreStakes([1, 2], TwoMembers(), [10])
  {
    var late, stakes: seq<nat> := TwoMembers()[1], [10];
    assert late[..0] == [] && P.Amount(late) == 10 && P.Wrap(10) == 10;
    forall i: nat | i < |stakes| ensures [1, 2][i] == 1 && stakes[i] == 10 {
      assert i == 0;
    }
  }

  // Whatever the hashes, the only seat goes to the member with the lower key, which is not active
  // yet, and not to the one that is.
  method InactiveDrawn(hashes: nat -> nat) returns (p: P.Provisioners, size: nat, committee: seq<nat>)
    ensures p.Valid() && p.members == TwoMembers() && P.ActiveKeys(p.members, 5) == {2}
    ensures size == 1 && committee == [1]
  {
    p := NewTwoMembers();
    TwoMembersAt5(p.keys);
    FirstStake();
    size := p.Size(5);
    ghost var draws;
    committee, draws := CreateVotingCommittee(p, 5, 20, hashes, size, [10], 0);
    assert committee[0] in committee && p.keys[..1] == [1];
  }

  method NewTwoMembers() returns (p: P.Provisioners)
    ensures fresh(p) && p.Valid() && p.members == TwoMembers() && p.sizeCache == map[]
  {
    p := new P.Provisioners();
    var late, early := P.Stake(10, 100, 200), P.Stake(10, 0, 200);
    assert [] + [late] == [late] && [] + [early] == [early];
    var ok := p.AddMember(32, 129, 1, true, late);
    ok := p.AddMember(32, 129, 2, true, early);
  }
}
