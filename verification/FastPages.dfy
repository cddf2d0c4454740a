/** The three-way round-robin page cache of one access kind, as keys and a victim pointer. */
module FastPages {
  import opened Words

  const WAYS: int := 3

  datatype Ways = Ways(keys: seq<nat>, victim: nat)

  predicate Ok(w: Ways) {
    |w.keys| == 3 && w.victim < 3
  }

  /** A probe: a hit changes nothing, a miss refills the victim way and advances it. */
  function Touch(w: Ways, key: nat): (w': Ways)
    requires Ok(w)
    ensures Ok(w')
  {
    if key in w.keys then w else Ways(w.keys[w.victim := key], (w.victim + 1) % 3)
  }

  /** How many probes of a run miss. */
  function Misses(w: Ways, ks: seq<nat>): nat
    requires Ok(w)
    decreases |ks|
  {
    if ks == [] then 0
    else (if ks[0] in w.keys then 0 else 1) + Misses(Touch(w, ks[0]), ks[1..])
  }

  /** The key of the j-th last refill. */
  function Back(w: Ways, j: nat): nat
    requires Ok(w) && 1 <= j <= 3
  {
    w.keys[(w.victim + 3 - j) % 3]
  }

  lemma TouchShifts(w: Ways, key: nat)
    requires Ok(w) && key !in w.keys
    ensures var w' := Touch(w, key);
      Back(w', 1) == key && Back(w', 2) == Back(w, 1) && Back(w', 3) == Back(w, 2)
  {
  }

  lemma BackIsAll(w: Ways, key: nat)
    requires Ok(w)
    ensures key in w.keys <==> key == Back(w, 1) || key == Back(w, 2) || key == Back(w, 3)
  {
    assert w.keys == [w.keys[0], w.keys[1], w.keys[2]];
  }

  /** The keys of the last `m` refills. */
  function Recent(w: Ways, m: nat): set<nat>
    requires Ok(w) && m <= 3
  {
    if m == 0 then {} else if m == 1 then {Back(w, 1)}
    else if m == 2 then {Back(w, 1), Back(w, 2)} else {Back(w, 1), Back(w, 2), Back(w, 3)}
  }

  lemma {:induction false} MissesFrom(w: Ways, ks: seq<nat>, all: set<nat>, m: nat)
    requires Ok(w) && m <= |all| <= 3
    requires Recent(w, m) <= all && |Recent(w, m)| == m
    requires forall k :: k in ks ==> k in all
    ensures Misses(w, ks) <= |all| - m
    decreases |ks|
  {
    if ks != [] {
      var key, w' := ks[0], Touch(w, ks[0]);
      if key in w.keys {
        MissesFrom(w, ks[1..], all, m);
      } else {
        BackIsAll(w, key);
        var more := Recent(w, m) + {key};
        assert key !in Recent(w, m);
        SubsetSize(more, all);
        TouchShifts(w, key);
        hide Touch, Back;
        assert Recent(w', m + 1) == more;
        MissesFrom(w', ks[1..], all, m + 1);
      }
    }
  }

  function Distinct(ks: seq<nat>): set<nat> {
    set k | k in ks
  }

  /** Whatever the cache held, a run over at most three distinct keys misses at most once per key. */
  lemma MissBound(w: Ways, ks: seq<nat>)
    requires Ok(w) && |Distinct(ks)| <= 3
    ensures Misses(w, ks) <= |Distinct(ks)|
  {
    MissesFrom(w, ks, Distinct(ks), 0);
  }

  // ---- three is the limit ------------------------------------------------------------------------

  /** `n` probes of four keys in rotation. */
  function Rotation(a: nat, b: nat, c: nat, d: nat, n: nat): seq<nat>
    decreases n
  {
    if n == 0 then [] else [a] + Rotation(b, c, d, a, n - 1)
  }

  lemma {:induction false} ThrashFrom(w: Ways, a: nat, b: nat, c: nat, d: nat, n: nat)
    requires Ok(w) && |{a, b, c, d}| == 4 && 0 !in {a, b, c, d}
    requires Back(w, 1) in {0, d} && Back(w, 2) in {0, c} && Back(w, 3) in {0, b}
    ensures Misses(w, Rotation(a, b, c, d, n)) == n
    decreases n
  {
    if n > 0 {
      BackIsAll(w, a);
      assert a !in {b, c, d};
      TouchShifts(w, a);
      assert {b, c, d, a} == {a, b, c, d};
      hide Back;
      ThrashFrom(Touch(w, a), b, c, d, a, n - 1);
    }
  }

  /** Four distinct keys in rotation miss every single time from a flushed cache. */
  lemma FourPagesThrash(victim: nat, a: nat, b: nat, c: nat, d: nat, n: nat)
    requires victim < 3 && |{a, b, c, d}| == 4 && 0 !in {a, b, c, d}
    ensures Misses(Ways([0, 0, 0], victim), Rotation(a, b, c, d, n)) == n
  {
    ThrashFrom(Ways([0, 0, 0], victim), a, b, c, d, n);
  }
}
