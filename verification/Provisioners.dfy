/**
The provisioners with their stakes, and the store that keeps their total weight. A BLS key is
the number its bytes stand for; whether the bytes are a point of the curve is a parameter.
Amounts and weights are 64-bit words.
*/
module Provisioners {
  import opened Counting
  import opened Outcome
  import Set = SortedSet

  const U64: nat := 0x1_0000_0000_0000_0000

  // A number in 64 bits.
  function Wrap(x: nat): (r: nat)
    ensures r < U64
  {
    if x < U64 then x else Wrap(x - U64)
  }

  lemma {:induction false} WrapAdd(a: nat, b: nat)
    ensures Wrap(Wrap(a) + b) == Wrap(a + b)
    decreases a
  {
    if a >= U64 {
      WrapAdd(a - U64, b);
    }
  }

  // The difference in 64 bits.
  function Minus(x: nat, y: nat): nat
    requires x < U64 && y < U64
  {
    if y <= x then x - y else x + U64 - y
  }

  lemma {:induction false} WrapMinus(a: nat, b: nat)
    requires b <= a
    ensures Minus(Wrap(a), Wrap(b)) == Wrap(a - b)
    decreases a
  {
    if b >= U64 {
      WrapMinus(a - U64, b - U64);
    } else if a >= U64 {
      WrapDown(a, b);
    }
  }

  lemma {:induction false} WrapDown(a: nat, b: nat)
    requires b < U64 <= a
    ensures Minus(Wrap(a), b) == Wrap(a - b)
    decreases a
  {
    if a - U64 >= U64 {
      WrapDown(a - U64, b);
    }
  }

  datatype Stake = Stake(amount: nat, startHeight: nat, endHeight: nat)

  type Members = map<nat, seq<Stake>>

  // ---------- Sums of stakes ----------

  function Amount(stakes: seq<Stake>): nat {
    if |stakes| == 0 then 0 else Amount(stakes[..|stakes| - 1]) + stakes[|stakes| - 1].amount
  }

  // The amount of the stakes that end before the round.
  function Expired(stakes: seq<Stake>, round: nat): nat {
    if |stakes| == 0 then 0
    else
      var s := stakes[|stakes| - 1];
      Expired(stakes[..|stakes| - 1], round) + if s.endHeight < round then s.amount else 0
  }

  ghost function Pick(m: map<nat, nat>): nat
    requires m != map[]
  {
    var k :| k in m;
    k
  }

  ghost function Sum(m: map<nat, nat>): nat
    decreases |m|
  {
    if m == map[] then 0 else m[Pick(m)] + Sum(m - {Pick(m)})
  }

  lemma {:induction false} SumWithout(m: map<nat, nat>, k: nat)
    requires k in m
    ensures Sum(m) == m[k] + Sum(m - {k})
    decreases |m|
  {
    var p := Pick(m);
    if p != k {
      SumWithout(m - {p}, k);
      SumWithout(m - {k}, p);
      assert m - {p} - {k} == m - {k} - {p};
    }
  }

  // Replacing the value of one key.
  lemma SumUpdate(m: map<nat, nat>, k: nat, v: nat)
    ensures Sum(m[k := v]) == Sum(m - {k}) + v
    ensures k !in m ==> Sum(m[k := v]) == Sum(m) + v
  {
    SumWithout(m[k := v], k);
    assert m[k := v] - {k} == m - {k};
    if k !in m {
      assert m - {k} == m;
    }
  }

  function Amounts(m: Members): map<nat, nat> {
    map k | k in m :: Amount(m[k])
  }

  function Expireds(m: Members, round: nat): map<nat, nat> {
    map k | k in m :: Expired(m[k], round)
  }

  ghost function Total(m: Members): nat {
    Sum(Amounts(m))
  }

  ghost function TotalExpired(m: Members, round: nat): nat {
    Sum(Expireds(m, round))
  }

  lemma TotalWithout(m: Members, k: nat)
    requires k in m
    ensures Total(m) == Amount(m[k]) + Total(m - {k})
  {
    SumWithout(Amounts(m), k);
    assert Amounts(m) - {k} == Amounts(m - {k});
  }

  lemma TotalUpdate(m: Members, k: nat, v: seq<Stake>)
    ensures Total(m[k := v]) == Total(m - {k}) + Amount(v)
    ensures k !in m ==> Total(m[k := v]) == Total(m) + Amount(v)
  {
    SumUpdate(Amounts(m), k, Amount(v));
    assert Amounts(m)[k := Amount(v)] == Amounts(m[k := v]);
    assert Amounts(m) - {k} == Amounts(m - {k});
  }

  // ---------- The stakes of one member ----------

  // removeStake: the last stake takes the place of the one that goes.
  function SwapRemoved(stakes: seq<Stake>, i: nat): (r: seq<Stake>)
    requires i < |stakes|
    ensures |r| == |stakes| - 1
  {
    stakes[i := stakes[|stakes| - 1]][..|stakes| - 1]
  }

  lemma {:induction false} AmountUpdate(stakes: seq<Stake>, i: nat, s: Stake)
    requires i < |stakes|
    ensures Amount(stakes[i := s]) + stakes[i].amount == Amount(stakes) + s.amount
    decreases |stakes|
  {
    var n := |stakes| - 1;
    if i < n {
      AmountUpdate(stakes[..n], i, s);
      assert stakes[i := s][..n] == stakes[..n][i := s];
    } else {
      assert stakes[i := s][..n] == stakes[..n];
    }
  }

  lemma {:induction false} ExpiredUpdate(stakes: seq<Stake>, i: nat, s: Stake, round: nat)
    requires i < |stakes|
    ensures Expired(stakes[i := s], round) + (if stakes[i].endHeight < round then stakes[i].amount else 0)
         == Expired(stakes, round) + if s.endHeight < round then s.amount else 0
    decreases |stakes|
  {
    var n := |stakes| - 1;
    if i < n {
      ExpiredUpdate(stakes[..n], i, s, round);
      assert stakes[i := s][..n] == stakes[..n][i := s];
    } else {
      assert stakes[i := s][..n] == stakes[..n];
    }
  }

  lemma SwapRemoveSums(stakes: seq<Stake>, i: nat, round: nat)
    requires i < |stakes| && stakes[i].endHeight < round
    ensures Amount(SwapRemoved(stakes, i)) + stakes[i].amount == Amount(stakes)
    ensures Expired(SwapRemoved(stakes, i), round) + stakes[i].amount == Expired(stakes, round)
  {
    var last := stakes[|stakes| - 1];
    AmountUpdate(stakes, i, last);
    ExpiredUpdate(stakes, i, last, round);
    var moved := stakes[i := last];
    assert moved[|moved| - 1] == last;
  }

  // The stakes that have not ended are the same, as often as before.
  ghost predicate SameLive(a: seq<Stake>, b: seq<Stake>, round: nat) {
    forall s: Stake :: s.endHeight >= round ==> multiset(a)[s] == multiset(b)[s]
  }

  lemma SwapRemoveLive(stakes: seq<Stake>, i: nat, round: nat)
    requires i < |stakes| && stakes[i].endHeight < round
    ensures SameLive(SwapRemoved(stakes, i), stakes, round)
  {
    var last, r := stakes[|stakes| - 1], SwapRemoved(stakes, i);
    var moved := stakes[i := last];
    assert moved == r + [last];
    forall s: Stake | s.endHeight >= round ensures multiset(r)[s] == multiset(stakes)[s] {
      assert multiset(moved)[s] == multiset(r)[s] + multiset{last}[s];
      assert multiset(moved) == multiset(stakes) - multiset{stakes[i]} + multiset{last};
    }
  }

  ghost predicate Live(stakes: seq<Stake>, round: nat) {
    forall i :: 0 <= i < |stakes| ==> stakes[i].endHeight >= round
  }

  lemma {:induction false} NoneExpired(stakes: seq<Stake>, round: nat)
    requires forall i :: 0 <= i < |stakes| ==> stakes[i].endHeight >= round
    ensures Expired(stakes, round) == 0
  {
    if |stakes| > 0 {
      NoneExpired(stakes[..|stakes| - 1], round);
    }
  }

  // The stakes that are left, and the amount of those that are gone.
  ghost predicate Removing(stakes: seq<Stake>, round: nat, kept: seq<Stake>, gone: nat) {
    && |kept| <= |stakes| && (|kept| == |stakes| ==> kept == stakes)
    && SameLive(kept, stakes, round)
    && Amount(kept) + gone == Amount(stakes) && Expired(kept, round) + gone == Expired(stakes, round)
  }

  lemma RemoveOne(stakes: seq<Stake>, round: nat, kept: seq<Stake>, gone: nat, i: nat)
    requires Removing(stakes, round, kept, gone) && i < |kept| && kept[i].endHeight < round
    ensures Removing(stakes, round, SwapRemoved(kept, i), gone + kept[i].amount)
  {
    SwapRemoveSums(kept, i, round);
    SwapRemoveLive(kept, i, round);
  }

  // removed is the 64-bit sum of the total and of what is gone.
  ghost predicate Removed(stakes: seq<Stake>, round: nat, kept: seq<Stake>, total: nat, removed: nat) {
    exists gone: nat :: Removing(stakes, round, kept, gone) && removed == Wrap(total + gone)
  }

  method RemoveStake(stakes: seq<Stake>, round: nat, kept: seq<Stake>, i: nat, ghost total: nat, removed: nat)
    returns (kept1: seq<Stake>, removed1: nat)
    requires Removed(stakes, round, kept, total, removed) && i < |kept| && kept[i].endHeight < round
    ensures Removed(stakes, round, kept1, total, removed1) && |kept1| == |kept| - 1
  {
    ghost var gone: nat :| Removing(stakes, round, kept, gone) && removed == Wrap(total + gone);
    RemoveOne(stakes, round, kept, gone, i);
    WrapAdd(total + gone, kept[i].amount);
    removed1 := Wrap(removed + kept[i].amount);
    kept1 := SwapRemoved(kept, i);
  }

  lemma AllRemoved(stakes: seq<Stake>, round: nat, kept: seq<Stake>, total: nat, removed: nat)
    requires Removed(stakes, round, kept, total, removed) && Live(kept, round)
    ensures Removing(stakes, round, kept, Expired(stakes, round)) && removed == Wrap(total + Expired(stakes, round))
  {
    var gone: nat :| Removing(stakes, round, kept, gone) && removed == Wrap(total + gone);
    NoneExpired(kept, round);
  }

  // Take out the stakes that have ended and add their amounts to the total, in 64 bits. The
  // search starts again after each of them.
  method RemoveExpiredStakes(stakes: seq<Stake>, round: nat, total: nat, ghost exact: nat)
    returns (kept: seq<Stake>, removed: nat, ghost sum: nat)
    requires total == Wrap(exact)
    ensures Live(kept, round)
    ensures Removing(stakes, round, kept, Expired(stakes, round))
    ensures sum == exact + Expired(stakes, round) && removed == Wrap(sum)
  {
    kept, removed := stakes, total;
    assert Removing(stakes, round, kept, 0) && removed == Wrap(exact + 0);
    var i := 0;
    while i < |kept|
      invariant 0 <= i <= |kept| && Removed(stakes, round, kept, exact, removed)
      invariant forall j :: 0 <= j < i ==> kept[j].endHeight >= round
      decreases |kept|, |kept| - i
    {
      if kept[i].endHeight < round {
        kept, removed := RemoveStake(stakes, round, kept, i, exact, removed);
        i := -1;
      }
      i := i + 1;
    }
    AllRemoved(stakes, round, kept, exact, removed);
    sum := exact + Expired(stakes, round);
  }

  // ---------- The provisioners ----------

  lemma {:induction false} KeyCount(keys: seq<nat>, ks: set<nat>)
    requires Set.Sorted(keys) && forall k :: k in keys <==> k in ks
    ensures |keys| == |ks|
    decreases |keys|
  {
    if |keys| == 0 {
      assert ks == {};
    } else {
      var n := |keys| - 1;
      assert forall k :: k in keys <==> k in keys[..n] || k == keys[n];
      assert keys[n] in ks && keys[n] !in keys[..n];
      KeyCount(keys[..n], ks - {keys[n]});
    }
  }

  // A member counts from the round on in which one of its stakes starts.
  predicate ActiveAt(stakes: seq<Stake>, round: nat) {
    exists i :: 0 <= i < |stakes| && stakes[i].startHeight <= round
  }

  function ActiveKeys(m: Members, round: nat): set<nat> {
    set k | k in m && ActiveAt(m[k], round)
  }

  ghost predicate AllLive(m: Members, round: nat) {
    forall k :: k in m ==> Live(m[k], round)
  }

  // The live stakes are as before, and the members are those that have one.
  ghost predicate OnlyExpiredGone(was: Members, now: Members, round: nat) {
    && (forall k :: k in now ==> k in was && SameLive(now[k], was[k], round))
    && (forall k :: k in was && k !in now ==> SameLive([], was[k], round))
  }

  // The members that are still to be looked at are as they were, the others have been swept.
  ghost predicate Sweeping(was: Members, now: Members, todo: set<nat>, round: nat) {
    && (forall k :: k in todo ==> k in was && k in now && now[k] == was[k])
    && (forall k :: k in now && k !in todo ==> Live(now[k], round))
    && OnlyExpiredGone(was, now, round)
  }

  ghost function Swept(now: Members, k: nat, kept: seq<Stake>): Members {
    if |kept| == 0 then now - {k} else now[k := kept]
  }

  lemma SweepOne(was: Members, now: Members, todo: set<nat>, round: nat, k: nat, kept: seq<Stake>)
    requires k in todo && Sweeping(was, now, todo, round) && SameLive(kept, now[k], round) && Live(kept, round)
    ensures Sweeping(was, Swept(now, k, kept), todo - {k}, round)
  {
    if |kept| == 0 {
      assert kept == [];
    }
  }

  ghost function Part(m: Members, ks: set<nat>): Members {
    map k | k in m && k in ks :: m[k]
  }

  lemma PartExpired(was: Members, todo: set<nat>, round: nat, k: nat)
    requires k in todo && k in was
    ensures TotalExpired(Part(was, todo), round) == Expired(was[k], round) + TotalExpired(Part(was, todo - {k}), round)
  {
    var e := Expireds(Part(was, todo), round);
    SumWithout(e, k);
    assert e - {k} == Expireds(Part(was, todo - {k}), round);
  }

  // The amounts: gone has been taken out, and the members in todo have the rest.
  ghost predicate Balanced(was: Members, now: Members, todo: set<nat>, round: nat, gone: nat) {
    && Total(now) + gone == Total(was)
    && gone + TotalExpired(Part(was, todo), round) == TotalExpired(was, round)
  }

  lemma BalanceOne(was: Members, now: Members, todo: set<nat>, round: nat, gone: nat, k: nat, kept: seq<Stake>)
    requires Balanced(was, now, todo, round, gone) && k in todo && k in was && k in now && now[k] == was[k]
    requires Amount(kept) + Expired(now[k], round) == Amount(now[k])
    ensures Balanced(was, Swept(now, k, kept), todo - {k}, round, gone + Expired(now[k], round))
  {
    TotalWithout(now, k);
    TotalUpdate(now, k, kept);
    PartExpired(was, todo, round, k);
    assert |kept| == 0 ==> Amount(kept) == 0;
  }

  lemma AllBalanced(was: Members, now: Members, round: nat, gone: nat)
    requires Balanced(was, now, {}, round, gone)
    ensures gone == TotalExpired(was, round) && Total(now) + gone == Total(was)
  {
    assert Part(was, {}) == map[];
  }

  class Provisioners {
    var keys: seq<nat>
    var members: Members
    var sizeCache: map<nat, nat>

    ghost predicate Valid()
      reads this
    {
      && Set.Sorted(keys) && (forall k :: k in keys <==> k in members)
      && (forall k :: k in members ==> |members[k]| > 0)
      && (forall r :: r in sizeCache ==> sizeCache[r] <= |keys|)
    }

    constructor ()
      ensures Valid() && members == map[] && sizeCache == map[]
    {
      keys, members, sizeCache := [], map[], map[];
    }

    // What Size returns: the cached number, or that of the active members.
    ghost function SizeAt(round: nat): nat
      reads this
    {
      if round in sizeCache then sizeCache[round] else |ActiveKeys(members, round)|
    }

    // The number of members that are active at a round, kept in a cache for one round.
    method Size(round: nat) returns (size: nat)
      requires Valid()
      modifies this`sizeCache
      ensures Valid() && round in sizeCache
      ensures size == old(SizeAt(round)) == SizeAt(round) <= |keys|
    {
      if round in sizeCache {
        return sizeCache[round];
      }
      sizeCache := map[];
      size := MembersAt(round);
      sizeCache := sizeCache[round := size];
    }

    method MembersAt(round: nat) returns (size: nat)
      requires Valid()
      ensures size == |ActiveKeys(members, round)| <= |keys|
    {
      size := 0;
      var todo := members.Keys;
      ghost var counted: set<nat> := {};
      while todo != {}
        invariant todo <= members.Keys
        invariant counted == set k | k in members && k !in todo && ActiveAt(members[k], round)
        invariant size == |counted|
      {
        var k :| k in todo;
        todo := todo - {k};
        if ActiveAt(members[k], round) {
          size := size + 1;
          counted := counted + {k};
        }
      }
      assert counted == ActiveKeys(members, round);
      KeyCount(keys, members.Keys);
      SubsetCount(counted, members.Keys);
    }

    // Add a stake of a new or of a known member. decodes says whether the key is a point.
    method AddMember(edLength: nat, blsLength: nat, key: nat, decodes: bool, stake: Stake) returns (ok: bool)
      requires Valid()
      modifies this`keys, this`members
      ensures ok <==> edLength == 32 && blsLength == 129 && (key in old(members) || decodes)
      ensures var was := if key in old(members) then old(members)[key] else [];
              members == if ok then old(members)[key := was + [stake]] else old(members)
      ensures if edLength == 32 && blsLength == 129 then Set.IsInserted(old(keys), key, keys) else keys == old(keys)
      ensures Valid() <==> ok || edLength != 32 || blsLength != 129
    {
      if edLength != 32 {
        return false;
      }
      if blsLength != 129 {
        return false;
      }
      var inserted, keys1 := Set.InsertInto(keys, key);
      keys := keys1;
      if !inserted {
        members := members[key := members[key] + [stake]];
        return true;
      }
      if !decodes {
        assert key in keys && key !in members;
        return false;
      }
      assert [] + [stake] == [stake];
      members := members[key := [stake]];
      return true;
    }

    method Remove(key: nat) returns (ok: bool)
      requires Valid()
      modifies this
      ensures Valid() && members == old(members) - {key} && sizeCache == map[] && (ok <==> key in old(members))
    {
      members := members - {key};
      sizeCache := map[];
      ok, keys := Set.RemoveFrom(keys, key);
    }

    // Take out every stake that has ended, and members without a stake; the amount taken out.
    method RemoveExpired(round: nat) returns (removed: nat)
      requires Valid()
      modifies this
      ensures Valid() && AllLive(members, round) && OnlyExpiredGone(old(members), members, round)
      ensures removed == Wrap(TotalExpired(old(members), round))
      ensures Total(members) + TotalExpired(old(members), round) == Total(old(members))
    {
      removed := 0;
      var todo := members.Keys;
      ghost var was, gone: nat := members, 0;
      assert Part(was, todo) == was;
      while todo != {}
        invariant Valid() && removed == Wrap(gone)
        invariant Sweeping(was, members, todo, round) && Balanced(was, members, todo, round, gone)
      {
        var k :| k in todo;
        var stakes := members[k];
        ghost var before := gone;
        var kept;
        kept, removed, gone := RemoveExpiredStakes(stakes, round, removed, gone);
        SweepOne(was, members, todo, round, k, kept);
        BalanceOne(was, members, todo, round, before, k, kept);
        SetStakes(k, kept);
        todo := todo - {k};
      }
      AllBalanced(was, members, round, gone);
    }

    // A member without stakes is removed.
    method SetStakes(k: nat, stakes: seq<Stake>)
      requires Valid() && k in members
      modifies this
      ensures Valid() && members == Swept(old(members), k, stakes)
    {
      if |stakes| == 0 {
        var ok := Remove(k);
      } else {
        members := members[k := stakes];
      }
    }

    method GetStake(blsLength: nat, key: nat) returns (r: Result<nat>)
      requires Valid()
      ensures r == if blsLength == 129 && key in members then Ok(Wrap(Amount(members[key]))) else Err
    {
      if blsLength != 129 || key !in members {
        return Err;
      }
      var total := 0;
      var stakes := members[key];
      for i := 0 to |stakes|
        invariant total == Wrap(Amount(stakes[..i]))
      {
        assert stakes[..i + 1][..i] == stakes[..i];
        WrapAdd(Amount(stakes[..i]), stakes[i].amount);
        total := Wrap(total + stakes[i].amount);
      }
      assert stakes[..|stakes|] == stakes;
      r := Ok(total);
    }
  }

  // ---------- The store ----------

  // Sums and differences in 64 bits, beside the exact ones.
  method Plus64(x: nat, y: nat, ghost exact: nat, ghost sum: nat) returns (r: nat)
    requires x == Wrap(exact) && sum == exact + y
    ensures r == Wrap(sum)
  {
    WrapAdd(exact, y);
    r := Wrap(x + y);
  }

  method Minus64(x: nat, y: nat, ghost exact: nat, ghost less: nat, ghost rest: nat) returns (r: nat)
    requires x == Wrap(exact) && y == Wrap(less) && rest + less == exact
    ensures r == Wrap(rest)
  {
    WrapMinus(exact, less);
    r := Minus(x, y);
  }

  class Store {
    const provisioners: Provisioners
    var totalWeight: nat

    // The total weight is the sum of all live stakes.
    ghost predicate Valid()
      reads this, provisioners
    {
      provisioners.Valid() && totalWeight == Wrap(Total(provisioners.members))
    }

    constructor ()
      ensures Valid() && fresh(provisioners) && provisioners.members == map[]
    {
      provisioners := new Provisioners();
      totalWeight := 0;
      new;
      assert Amounts(provisioners.members) == map[];
    }

    method AddProvisioner(edLength: nat, blsLength: nat, key: nat, decodes: bool, stake: Stake) returns (ok: bool)
      requires Valid()
      modifies this, provisioners
      ensures ok <==> edLength == 32 && blsLength == 129 && (key in old(provisioners.members) || decodes)
      ensures Valid() <==> ok || edLength != 32 || blsLength != 129
      ensures ok ==> Total(provisioners.members) == old(Total(provisioners.members)) + stake.amount
    {
      ghost var was := provisioners.members;
      ok := provisioners.AddMember(edLength, blsLength, key, decodes, stake);
      if ok {
        StakeAdded(was, key, stake);
        totalWeight := Plus64(totalWeight, stake.amount, Total(was), Total(provisioners.members));
      }
    }

    method RemoveProvisioner(blsLength: nat, key: nat) returns (ok: bool)
      requires Valid()
      modifies this, provisioners
      ensures Valid() && (ok <==> blsLength == 129 && key in old(provisioners.members))
      ensures provisioners.members == if ok then old(provisioners.members) - {key} else old(provisioners.members)
    {
      var stake := provisioners.GetStake(blsLength, key);
      if stake.Err? {
        return false;
      }
      ghost var was := provisioners.members;
      TotalWithout(was, key);
      ok := provisioners.Remove(key);
      totalWeight := Minus64(totalWeight, stake.value, Total(was), Amount(was[key]), Total(provisioners.members));
    }

    method RemoveExpiredProvisioners(round: nat)
      requires Valid()
      modifies this, provisioners
      ensures Valid() && AllLive(provisioners.members, round)
      ensures OnlyExpiredGone(old(provisioners.members), provisioners.members, round)
    {
      ghost var was := provisioners.members;
      var removed := provisioners.RemoveExpired(round);
      totalWeight := Minus64(totalWeight, removed, Total(was), TotalExpired(was, round), Total(provisioners.members));
    }
  }

  lemma StakeAdded(m: Members, key: nat, stake: Stake)
    ensures Total(m[key := (if key in m then m[key] else []) + [stake]]) == Total(m) + stake.amount
  {
    var stakes := if key in m then m[key] else [];
    TotalUpdate(m, key, stakes + [stake]);
    assert (stakes + [stake])[..|stakes|] == stakes;
    if key in m {
      TotalWithout(m, key);
    }
  }

  // A new key that does not decode stays in the set without a member.
  method DecodeFailureBreaksKeys() returns (p: Provisioners)
    ensures !p.Valid() && 5 in p.keys && p.members == map[]
  {
    p := new Provisioners();
    var ok := p.AddMember(32, 129, 5, false, Stake(10, 0, 100));
  }
}
