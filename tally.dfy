/**
 * The `Vote` table: at most one row per candidate id, holding that
 * candidate's running count. A candidate without a row has zero votes.
 */
module TallyStore {
  type Tally = map<int, nat>

  /** The votes recorded for `c`; zero when the table has no row for it. */
  function Votes(t: Tally, c: int): nat {
    if c in t then t[c] else 0
  }

  /** One selection of `c`: the existing row goes up by one, or a new row starts at 1. */
  function Inc(t: Tally, c: int): (r: Tally)
    ensures r.Keys == t.Keys + {c}
    ensures Votes(r, c) == Votes(t, c) + 1
    ensures forall k :: k != c ==> Votes(r, k) == Votes(t, k)
  {
    if c in t then t[c := t[c] + 1] else t[c := 1]
  }

  /** The table after the selections `ids` have been counted one after another. */
  function Apply(t: Tally, ids: seq<int>): Tally {
    if ids == [] then t else Inc(Apply(t, ids[..|ids| - 1]), ids[|ids| - 1])
  }

  /** Each candidate gains exactly as many votes as it was selected. */
  lemma {:induction false} ApplyVotes(t: Tally, ids: seq<int>, c: int)
    ensures Votes(Apply(t, ids), c) == Votes(t, c) + multiset(ids)[c]
  {
    if ids != [] {
      var init := ids[..|ids| - 1];
      ApplyVotes(t, init, c);
      assert ids == init + [ids[|ids| - 1]];
    }
  }

  /** Rows are only ever added, one for each newly selected candidate. */
  lemma {:induction false} ApplyKeys(t: Tally, ids: seq<int>)
    ensures Apply(t, ids).Keys == t.Keys + set k | k in ids
  {
    if ids != [] {
      var init := ids[..|ids| - 1];
      ApplyKeys(t, init);
      assert ids == init + [ids[|ids| - 1]];
      assert (set k | k in ids) == (set k | k in init) + {ids[|ids| - 1]};
    }
  }

  // ---------------------------------------------------------------- the sum of all counts

  ghost function SumOver(t: Tally, keys: set<int>): nat
    requires keys <= t.Keys
    decreases keys
  {
    if exists k :: k in keys then
      var k :| k in keys;
      t[k] + SumOver(t, keys - {k})
    else 0
  }

  /** The number of selections the tally holds altogether. */
  ghost function Total(t: Tally): nat {
    SumOver(t, t.Keys)
  }

  lemma {:induction false} SumOverRemove(t: Tally, keys: set<int>, x: int)
    requires keys <= t.Keys && x in keys
    ensures SumOver(t, keys) == t[x] + SumOver(t, keys - {x})
    decreases keys
  {
    var y :| y in keys && SumOver(t, keys) == t[y] + SumOver(t, keys - {y});
    if y != x {
      SumOverRemove(t, keys - {y}, x);
      SumOverRemove(t, keys - {x}, y);
      assert keys - {y} - {x} == keys - {x} - {y};
    }
  }

  lemma {:induction false} SumOverAgree(t: Tally, u: Tally, keys: set<int>)
    requires keys <= t.Keys && keys <= u.Keys
    requires forall k :: k in keys ==> t[k] == u[k]
    ensures SumOver(t, keys) == SumOver(u, keys)
    decreases keys
  {
    if exists x :: x in keys {
      var x :| x in keys;
      SumOverRemove(t, keys, x);
      SumOverRemove(u, keys, x);
      SumOverAgree(t, u, keys - {x});
    }
  }

  /** Summing over fewer rows never gives more. */
  lemma {:induction false} SumOverSubset(t: Tally, keys: set<int>, more: set<int>)
    requires keys <= more <= t.Keys
    ensures SumOver(t, keys) <= SumOver(t, more)
    decreases more
  {
    if exists x :: x in more && x !in keys {
      var x :| x in more && x !in keys;
      SumOverRemove(t, more, x);
      SumOverSubset(t, keys, more - {x});
    } else {
      assert keys == more;
    }
  }

  /** A single selection adds exactly one to the total. */
  lemma TotalInc(t: Tally, c: int)
    ensures Total(Inc(t, c)) == Total(t) + 1
  {
    var r := Inc(t, c);
    forall k | k in t.Keys - {c} ensures r[k] == t[k] {
      assert Votes(r, k) == Votes(t, k);
    }
    if c in t {
      assert r.Keys == t.Keys;
      SumOverRemove(r, r.Keys, c);
      SumOverRemove(t, t.Keys, c);
      SumOverAgree(r, t, t.Keys - {c});
    } else {
      assert r.Keys - {c} == t.Keys;
      SumOverRemove(r, r.Keys, c);
      SumOverAgree(r, t, t.Keys);
    }
  }

  /** Counting `ids` adds exactly `|ids|` to the total. */
  lemma {:induction false} TotalApply(t: Tally, ids: seq<int>)
    ensures Total(Apply(t, ids)) == Total(t) + |ids|
  {
    if ids != [] {
      TotalApply(t, ids[..|ids| - 1]);
      TotalInc(Apply(t, ids[..|ids| - 1]), ids[|ids| - 1]);
    }
  }
}
