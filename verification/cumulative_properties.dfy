/**
 The command's cumulative duplicate counter over an all-users run.
 */
module CumulativeProperties {
  import opened Entries
  import opened CleanDuplicatesCommand

  /** Reference total: the per-user counts summed from the first user on. */
  function SumCounts(users: seq<seq<Entry>>): nat
    decreases |users|
  {
    if users == [] then 0 else CleanDuplicates(users[0]).count + SumCounts(users[1..])
  }

  lemma {:induction false} SumCountsAppend(users: seq<seq<Entry>>, u: seq<Entry>)
    ensures SumCounts(users + [u]) == SumCounts(users) + CleanDuplicates(u).count
    decreases |users|
  {
    if users != [] {
      assert (users + [u])[1..] == users[1..] + [u];
      SumCountsAppend(users[1..], u);
    }
  }

  /** The counter ends at its starting value plus the sum of the per-user counts. */
  lemma {:induction false} AccumulateIsSum(duplicates: nat, users: seq<seq<Entry>>)
    ensures Accumulate(duplicates, users) == duplicates + SumCounts(users)
    decreases |users|
  {
    if users != [] {
      var init := users[..|users| - 1];
      AccumulateIsSum(duplicates, init);
      assert users == init + [users[|users| - 1]];
      SumCountsAppend(init, users[|users| - 1]);
    }
  }

  /** The counter never decreases: after any prefix of the users it is at most its final value. */
  lemma {:induction false} AccumulateMonotone(duplicates: nat, users: seq<seq<Entry>>, i: nat)
    requires i <= |users|
    ensures duplicates <= Accumulate(duplicates, users[..i]) <= Accumulate(duplicates, users)
    decreases |users|
  {
    if i == |users| {
      assert users[..i] == users;
    } else {
      var init := users[..|users| - 1];
      assert init[..i] == users[..i];
      AccumulateMonotone(duplicates, init, i);
    }
  }

  /** The all-users run reports the sum of the per-user counts. */
  lemma CleanAllUsersTotal(users: seq<seq<Entry>>)
    ensures Accumulate(0, users) == SumCounts(users)
  {
    AccumulateIsSum(0, users);
  }
}
