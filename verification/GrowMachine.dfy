/**
 The greedy growth loop (tce/explorer/GrowMachine.cc:94-256 and 282-292). What the database and the
 evaluation answer in each round is a parameter.
 */
module GrowMachine {

  import opened Wrappers

  type Id = nat

  /**
   Answers of one round: no room in the database, failed evaluation, an exception of the environment, or
   cycle counts. An empty list of counts makes the access to its first element throw std::out_of_range.
   */
  datatype Reply = DatabaseFull | EvaluationFails | Raises | Counts(id: Id, cycles: seq<nat>)

  function Min(s: seq<nat>): (m: nat)
    requires s != []
    ensures m in s && forall x :: x in s ==> m <= x
  {
    if |s| == 1 then s[0]
    else
      var n := |s| - 1;
      assert s == s[..n] + [s[n]];
      var m := Min(s[..n]);
      if s[n] < m then s[n] else m
  }

  /** checkSuperiority: more than s percent fewer cycles. */
  predicate Superior(s: nat, now: nat, before: nat) {
    now < before && s * before < 100 * (before - now)
  }

  /** A configuration taken by the loop, and its cycle count. */
  datatype Accepted = Accepted(cycles: nat, id: Id)

  /**
   The configurations accepted before the loop is left, or an exception: one that the loop catches, or
   std::out_of_range, which is none of its kind and leaves the plugin.
   */
  datatype Run = Failed | Escaped | Stopped(accepted: seq<Accepted>)

  function After(a: seq<Accepted>, r: Run): Run {
    match r
    case Failed => Failed
    case Escaped => Escaped
    case Stopped(rest) => Stopped(a + rest)
  }

  /** What is accepted from round k on, with so many cycles before it. */
  function RunFrom(s: nat, before: nat, rounds: nat -> Reply, k: nat): Run
    decreases before
  {
    match rounds(k)
    case DatabaseFull => Stopped([])
    case EvaluationFails => Stopped([])
    case Raises => Failed
    case Counts(id, cycles) =>
      if cycles == [] then Escaped
      else if !Superior(s, Min(cycles), before) then Stopped([])
      else After([Accepted(Min(cycles), id)], RunFrom(s, Min(cycles), rounds, k + 1))
  }

  /** The map of results: later configurations replace earlier ones of the same cycle count. */
  function ResultMap(a: seq<Accepted>): map<nat, Id> {
    if a == [] then map[] else ResultMap(a[..|a| - 1])[a[|a| - 1].cycles := a[|a| - 1].id]
  }

  /** Iteration over the results with keys below n, by ascending key. */
  function InKeyOrder(m: map<nat, Id>, n: nat): seq<Id> {
    if n == 0 then []
    else InKeyOrder(m, n - 1) + if n - 1 in m then [m[n - 1]] else []
  }

  /** The result of the plugin; None where it ends with std::out_of_range. */
  function Best(s: nat, start: nat, id: Id, rounds: nat -> Reply): Option<seq<Id>> {
    match RunFrom(s, start, rounds, 0)
    case Failed => Some([id])
    case Escaped => None
    case Stopped(a) => Some(if a == [] then [id] else InKeyOrder(ResultMap(a), start))
  }

  // ---------------------------------------------------------------------------------------
  // Cycle counts of a run
  // ---------------------------------------------------------------------------------------

  /** Cycle count after k accepted rounds. */
  function CyclesAt(start: nat, a: seq<Accepted>, k: nat): nat
    requires k <= |a|
  {
    if k == 0 then start else a[k - 1].cycles
  }

  ghost predicate EachSuperior(s: nat, start: nat, a: seq<Accepted>) {
    forall k :: 0 <= k < |a| ==> Superior(s, CyclesAt(start, a, k + 1), CyclesAt(start, a, k))
  }

  /** A round that leaves the loop without an exception. */
  predicate Leaves(s: nat, before: nat, r: Reply) {
    match r
    case DatabaseFull => true
    case EvaluationFails => true
    case Raises => false
    case Counts(_, cycles) => cycles != [] && !Superior(s, Min(cycles), before)
  }

  predicate Accepts(s: nat, before: nat, r: Reply, c: Accepted) {
    r.Counts? && r.cycles != [] && c == Accepted(Min(r.cycles), r.id) && Superior(s, Min(r.cycles), before)
  }

  /** Each configuration is what its round, counted from k, offers, and superior to the one before. */
  ghost predicate Greedy(s: nat, start: nat, rounds: nat -> Reply, k: nat, a: seq<Accepted>) {
    forall i :: 0 <= i < |a| ==> Accepts(s, CyclesAt(start, a, i), rounds(k + i), a[i])
  }

  lemma GreedyAt(s: nat, start: nat, rounds: nat -> Reply, k: nat, c: Accepted, rest: seq<Accepted>, i: nat, at: nat)
    requires Accepts(s, start, rounds(k), c) && Greedy(s, c.cycles, rounds, k + 1, rest) && i <= |rest| && at == k + i
    ensures Accepts(s, CyclesAt(start, [c] + rest, i), rounds(at), ([c] + rest)[i])
  {
    if i > 0 {
      var j := i - 1;
      assert Accepts(s, CyclesAt(c.cycles, rest, j), rounds(k + 1 + j), rest[j]);
      assert k + 1 + j == at;
      assert CyclesAt(start, [c] + rest, i) == CyclesAt(c.cycles, rest, j) && ([c] + rest)[i] == rest[j];
    }
  }

  lemma GreedyCons(s: nat, start: nat, rounds: nat -> Reply, k: nat, c: Accepted, rest: seq<Accepted>)
    requires Accepts(s, start, rounds(k), c) && Greedy(s, c.cycles, rounds, k + 1, rest)
    ensures Greedy(s, start, rounds, k, [c] + rest)
  {
    forall i | 0 <= i < |rest| + 1
      ensures Accepts(s, CyclesAt(start, [c] + rest, i), rounds(k + i), ([c] + rest)[i])
    {
      GreedyAt(s, start, rounds, k, c, rest, i, k + i);
    }
  }

  lemma {:induction false} RunAccepts(s: nat, start: nat, rounds: nat -> Reply, k: nat)
    requires RunFrom(s, start, rounds, k).Stopped?
    ensures Greedy(s, start, rounds, k, RunFrom(s, start, rounds, k).accepted)
    decreases start
  {
    if RunFrom(s, start, rounds, k).accepted != [] {
      var r := rounds(k);
      var c := Accepted(Min(r.cycles), r.id);
      RunAccepts(s, c.cycles, rounds, k + 1);
      GreedyCons(s, start, rounds, k, c, RunFrom(s, c.cycles, rounds, k + 1).accepted);
    }
  }

  lemma {:induction false} RunLeaves(s: nat, start: nat, rounds: nat -> Reply, k: nat)
    requires RunFrom(s, start, rounds, k).Stopped?
    ensures var a := RunFrom(s, start, rounds, k).accepted;
            Leaves(s, CyclesAt(start, a, |a|), rounds(k + |a|))
    decreases start
  {
    var a := RunFrom(s, start, rounds, k).accepted;
    if a != [] {
      var next := Min(rounds(k).cycles);
      RunLeaves(s, next, rounds, k + 1);
      var rest := RunFrom(s, next, rounds, k + 1).accepted;
      assert CyclesAt(start, a, |a|) == CyclesAt(next, rest, |rest|);
      assert k + 1 + |rest| == k + |a|;
    }
  }

  /** Less than 100 - s percent of the cycles before. */
  predicate Improves(s: nat, now: nat, before: nat) {
    100 * now < (100 - s) * before
  }

  /** The percentage test of the code, for every percentage. */
  lemma SuperiorIff(s: nat, now: nat, before: nat)
    ensures Superior(s, now, before) <==> Improves(s, now, before)
  {
    assert (100 - s) * before == 100 * before - s * before;
    assert s * before >= 0;
  }

  /** The cycle count that round i has to improve on. */
  function CountBefore(start: nat, a: seq<Accepted>, i: nat): nat
    requires i <= |a|
  {
    if i == 0 then start else a[i - 1].cycles
  }

  /** The round offers this configuration, with the least of its cycle counts, which is an improvement. */
  ghost predicate Offers(s: nat, before: nat, r: Reply, c: Accepted) {
    && r.Counts? && c.id == r.id && c.cycles in r.cycles && (forall x :: x in r.cycles ==> c.cycles <= x)
    && Improves(s, c.cycles, before)
  }

  /** The round has no configuration to evaluate, a failed evaluation, or no count that is an improvement. */
  ghost predicate OffersNone(s: nat, before: nat, r: Reply) {
    || r.DatabaseFull? || r.EvaluationFails?
    || (r.Counts? && r.cycles != [] && forall x :: x in r.cycles ==> !Improves(s, x, before))
  }

  lemma MoreIsWorse(s: nat, x: nat, y: nat, before: nat)
    requires x <= y && !Improves(s, x, before)
    ensures !Improves(s, y, before)
  {
  }

  /** Every accepted configuration is what its round, counted from k, offers. */
  ghost predicate AllOffered(s: nat, start: nat, rounds: nat -> Reply, k: nat, a: seq<Accepted>) {
    forall i :: 0 <= i < |a| ==> Offers(s, CountBefore(start, a, i), rounds(k + i), a[i])
  }

  lemma GreedyOffers(s: nat, start: nat, rounds: nat -> Reply, k: nat, a: seq<Accepted>)
    requires Greedy(s, start, rounds, k, a)
    ensures AllOffered(s, start, rounds, k, a)
  {
    forall i | 0 <= i < |a|
      ensures Offers(s, CountBefore(start, a, i), rounds(k + i), a[i])
    {
      AcceptsOffer(s, CyclesAt(start, a, i), rounds(k + i), a[i]);
    }
  }

  /**
   A run without exceptions takes the configurations of its first rounds, each with less than
   100 - s percent of the cycles of the one before, up to the first round that offers none.
   */
  lemma {:induction false} RunIsGreedy(s: nat, start: nat, rounds: nat -> Reply, k: nat, a: seq<Accepted>)
    requires RunFrom(s, start, rounds, k) == Stopped(a)
    ensures AllOffered(s, start, rounds, k, a)
    ensures OffersNone(s, CountBefore(start, a, |a|), rounds(k + |a|))
  {
    StoppedIsGreedy(s, start, rounds, k, a);
    GreedyOffers(s, start, rounds, k, a);
    LeavesWithoutOffer(s, CyclesAt(start, a, |a|), rounds(k + |a|));
  }

  lemma {:induction false} StoppedIsGreedy(s: nat, start: nat, rounds: nat -> Reply, k: nat, a: seq<Accepted>)
    requires RunFrom(s, start, rounds, k) == Stopped(a)
    ensures Greedy(s, start, rounds, k, a) && Leaves(s, CyclesAt(start, a, |a|), rounds(k + |a|))
  {
    RunAccepts(s, start, rounds, k);
    RunLeaves(s, start, rounds, k);
  }

  lemma AcceptsOffer(s: nat, before: nat, r: Reply, c: Accepted)
    requires Accepts(s, before, r, c)
    ensures Offers(s, before, r, c)
  {
    SuperiorIff(s, c.cycles, before);
  }

  lemma LeavesWithoutOffer(s: nat, before: nat, r: Reply)
    requires Leaves(s, before, r)
    ensures OffersNone(s, before, r)
  {
    if r.Counts? {
      SuperiorIff(s, Min(r.cycles), before);
      forall x | x in r.cycles
        ensures !Improves(s, x, before)
      {
        MoreIsWorse(s, Min(r.cycles), x, before);
      }
    }
  }

  lemma GreedyIsSuperior(s: nat, start: nat, rounds: nat -> Reply, k: nat, a: seq<Accepted>)
    requires Greedy(s, start, rounds, k, a)
    ensures EachSuperior(s, start, a)
  {
    forall i | 0 <= i < |a|
      ensures Superior(s, CyclesAt(start, a, i + 1), CyclesAt(start, a, i))
    {
      assert Accepts(s, CyclesAt(start, a, i), rounds(k + i), a[i]);
    }
  }

  /** Rounds k to m - 1 are accepted one after the other. */
  predicate AcceptedUntil(s: nat, before: nat, rounds: nat -> Reply, k: nat, m: nat)
    requires k <= m
    decreases m - k
  {
    k == m ||
    var r := rounds(k);
    r.Counts? && r.cycles != [] && Improves(s, Min(r.cycles), before) && AcceptedUntil(s, Min(r.cycles), rounds, k + 1, m)
  }

  lemma {:induction false} EndedRun(s: nat, before: nat, rounds: nat -> Reply, k: nat) returns (m: nat)
    requires !RunFrom(s, before, rounds, k).Stopped?
    ensures k <= m && AcceptedUntil(s, before, rounds, k, m)
    ensures RunFrom(s, before, rounds, k).Escaped? ==> rounds(m).Counts? && rounds(m).cycles == []
    ensures RunFrom(s, before, rounds, k).Failed? ==> rounds(m).Raises?
    decreases before
  {
    var r := rounds(k);
    m := k;
    if r.Counts? && r.cycles != [] {
      SuperiorIff(s, Min(r.cycles), before);
      m := EndedRun(s, Min(r.cycles), rounds, k + 1);
    }
  }

  lemma {:induction false} RunEnds(s: nat, before: nat, rounds: nat -> Reply, k: nat, m: nat)
    requires k <= m && AcceptedUntil(s, before, rounds, k, m)
    ensures rounds(m).Counts? && rounds(m).cycles == [] ==> RunFrom(s, before, rounds, k).Escaped?
    ensures rounds(m).Raises? ==> RunFrom(s, before, rounds, k).Failed?
    decreases m - k
  {
    if k < m {
      SuperiorIff(s, Min(rounds(k).cycles), before);
      RunEnds(s, Min(rounds(k).cycles), rounds, k + 1, m);
    }
  }

  ghost predicate Escapes(s: nat, start: nat, rounds: nat -> Reply) {
    exists m: nat :: AcceptedUntil(s, start, rounds, 0, m) && rounds(m).Counts? && rounds(m).cycles == []
  }

  ghost predicate IsInterrupted(s: nat, start: nat, rounds: nat -> Reply) {
    exists m: nat :: AcceptedUntil(s, start, rounds, 0, m) && rounds(m).Raises?
  }

  /**
   The plugin ends without a result exactly if, after accepted rounds only, an evaluation succeeds that
   leaves no cycle counts.
   */
  lemma NoResultIff(s: nat, start: nat, id: Id, rounds: nat -> Reply)
    ensures Best(s, start, id, rounds).None? <==> Escapes(s, start, rounds)
  {
    if Best(s, start, id, rounds).None? {
      var m := EndedRun(s, start, rounds, 0);
      assert AcceptedUntil(s, start, rounds, 0, m);
    }
    if Escapes(s, start, rounds) {
      var m: nat :| AcceptedUntil(s, start, rounds, 0, m) && rounds(m).Counts? && rounds(m).cycles == [];
      RunEnds(s, start, rounds, 0, m);
    }
  }

  /** An exception after accepted rounds throws their configurations away: only the original one is returned. */
  lemma InterruptedReturnsOriginal(s: nat, start: nat, id: Id, rounds: nat -> Reply)
    requires IsInterrupted(s, start, rounds)
    ensures Best(s, start, id, rounds) == Some([id])
  {
    var m: nat :| AcceptedUntil(s, start, rounds, 0, m) && rounds(m).Raises?;
    RunEnds(s, start, rounds, 0, m);
  }

  /** Every other run stops at a round that offers nothing. */
  lemma StoppedIff(s: nat, start: nat, rounds: nat -> Reply)
    ensures RunFrom(s, start, rounds, 0).Stopped? <==> !Escapes(s, start, rounds) && !IsInterrupted(s, start, rounds)
  {
    if !RunFrom(s, start, rounds, 0).Stopped? {
      var m := EndedRun(s, start, rounds, 0);
      assert AcceptedUntil(s, start, rounds, 0, m);
    }
    if Escapes(s, start, rounds) {
      var m: nat :| AcceptedUntil(s, start, rounds, 0, m) && rounds(m).Counts? && rounds(m).cycles == [];
      RunEnds(s, start, rounds, 0, m);
    }
    if IsInterrupted(s, start, rounds) {
      var m: nat :| AcceptedUntil(s, start, rounds, 0, m) && rounds(m).Raises?;
      RunEnds(s, start, rounds, 0, m);
    }
  }

  lemma RunIsSuperior(s: nat, start: nat, rounds: nat -> Reply)
    requires RunFrom(s, start, rounds, 0).Stopped?
    ensures EachSuperior(s, start, RunFrom(s, start, rounds, 0).accepted)
  {
    RunAccepts(s, start, rounds, 0);
    GreedyIsSuperior(s, start, rounds, 0, RunFrom(s, start, rounds, 0).accepted);
  }

  function Power(b: nat, n: nat): nat {
    if n == 0 then 1 else b * Power(b, n - 1)
  }

  /** One superior round multiplies the count by less than (100 - s) / 100, so s is below 100. */
  lemma SuperiorShrinks(s: nat, now: nat, before: nat)
    requires Superior(s, now, before)
    ensures s < 100 && 100 * now < (100 - s) * before
  {
    SuperiorIff(s, now, before);
    NotPositive(100 - s, before);
  }

  lemma NotPositive(a: int, b: nat)
    ensures a <= 0 ==> a * b <= 0
  {
  }

  lemma MultiplyBound(a: nat, x: nat, b: nat, y: nat, p: nat, q: nat)
    requires a * x <= b * y && p * y <= q
    ensures p * (a * x) <= b * q
  {
    assert p * (a * x) <= p * (b * y);
    assert p * (b * y) == b * (p * y);
    assert b * (p * y) <= b * q;
  }

  lemma Exchange(a: nat, p: nat, x: nat)
    ensures a * p * x == p * (a * x)
  {
  }

  lemma PowerStep(a: nat, b: nat, x: nat, y: nat, p: nat, q: nat, start: nat)
    requires a * x <= b * y && p * y <= q * start
    ensures a * p * x <= b * q * start
  {
    MultiplyBound(a, x, b, y, p, q * start);
    Exchange(a, p, x);
    Exchange(b, q, start);
    assert q * (b * start) == b * (q * start);
  }

  /** After k accepted rounds, 100^k times the cycle count is at most (100 - s)^k times the first one. */
  lemma {:induction false} CyclesShrink(s: nat, start: nat, a: seq<Accepted>, k: nat)
    requires s <= 100 && EachSuperior(s, start, a) && k <= |a|
    ensures Power(100, k) * CyclesAt(start, a, k) <= Power(100 - s, k) * start
    decreases k
  {
    if k > 0 {
      CyclesShrink(s, start, a, k - 1);
      var x, y := CyclesAt(start, a, k), CyclesAt(start, a, k - 1);
      assert Superior(s, CyclesAt(start, a, (k - 1) + 1), CyclesAt(start, a, k - 1));
      SuperiorShrinks(s, x, y);
      PowerStep(100, 100 - s, x, y, Power(100, k - 1), Power(100 - s, k - 1), start);
    }
  }

  /** Cycle counts fall strictly, so there are no more rounds than cycles at the start. */
  lemma {:induction false} CyclesFall(s: nat, start: nat, a: seq<Accepted>, i: nat, k: nat)
    requires EachSuperior(s, start, a) && i <= k <= |a|
    ensures CyclesAt(start, a, k) + (k - i) <= CyclesAt(start, a, i)
    decreases k
  {
    if i < k {
      CyclesFall(s, start, a, i, k - 1);
      assert Superior(s, CyclesAt(start, a, (k - 1) + 1), CyclesAt(start, a, k - 1));
    }
  }

  // ---------------------------------------------------------------------------------------
  // Results
  // ---------------------------------------------------------------------------------------

  predicate Falling(a: seq<Accepted>) {
    forall i, j :: 0 <= i < j < |a| ==> a[j].cycles < a[i].cycles
  }

  lemma SuperiorIsFalling(s: nat, start: nat, a: seq<Accepted>)
    requires EachSuperior(s, start, a)
    ensures Falling(a) && forall i :: 0 <= i < |a| ==> a[i].cycles < start
  {
    forall i, j | 0 <= i < j < |a|
      ensures a[j].cycles < a[i].cycles
    {
      CyclesFall(s, start, a, i + 1, j + 1);
    }
    forall i | 0 <= i < |a|
      ensures a[i].cycles < start
    {
      CyclesFall(s, start, a, 0, i + 1);
    }
  }

  function Reversed(a: seq<Accepted>): seq<Id> {
    if a == [] then [] else [a[|a| - 1].id] + Reversed(a[..|a| - 1])
  }

  lemma {:induction false} MapBelow(a: seq<Accepted>, n: nat)
    requires forall i :: 0 <= i < |a| ==> a[i].cycles >= n
    ensures InKeyOrder(ResultMap(a), n) == []
    decreases n
  {
    if n > 0 {
      MapBelow(a, n - 1);
      KeysOfMap(a, n - 1);
    }
  }

  lemma {:induction false} KeysOfMap(a: seq<Accepted>, key: nat)
    ensures key in ResultMap(a) <==> exists i :: 0 <= i < |a| && a[i].cycles == key
    decreases |a|
  {
    if a != [] {
      KeysOfMap(a[..|a| - 1], key);
      if i :| 0 <= i < |a| - 1 && a[i].cycles == key {
        assert a[..|a| - 1][i] == a[i];
      }
    }
  }

  /** Adding a new smallest key puts its value in front. */
  lemma {:induction false} SmallestFirst(m: map<nat, Id>, key: nat, id: Id, n: nat)
    requires (forall x :: x in m ==> x > key) && key < n
    ensures InKeyOrder(m[key := id], n) == [id] + InKeyOrder(m, n)
    decreases n
  {
    if key < n - 1 {
      SmallestFirst(m, key, id, n - 1);
    } else {
      NothingBelow(m, key, n - 1);
      NothingBelow(m[key := id], key, n - 1);
    }
  }

  lemma {:induction false} NothingBelow(m: map<nat, Id>, key: nat, n: nat)
    requires (forall x :: x in m ==> x >= key) && n <= key
    ensures InKeyOrder(m, n) == []
    decreases n
  {
    if n > 0 {
      NothingBelow(m, key, n - 1);
    }
  }

  /** No result is lost to an equal key, and the results come out in the reverse order of acceptance. */
  lemma {:induction false} ResultsAreReversed(a: seq<Accepted>, n: nat)
    requires Falling(a) && forall i :: 0 <= i < |a| ==> a[i].cycles < n
    ensures InKeyOrder(ResultMap(a), n) == Reversed(a)
    decreases |a|
  {
    if a == [] {
      NothingBelow(map[], n, n);
    } else {
      var k := |a| - 1;
      ResultsAreReversed(a[..k], n);
      forall x | x in ResultMap(a[..k])
        ensures x > a[k].cycles
      {
        KeysOfMap(a[..k], x);
        var i :| 0 <= i < k && a[..k][i].cycles == x;
        assert a[i] == a[..k][i];
      }
      SmallestFirst(ResultMap(a[..k]), a[k].cycles, a[k].id, n);
    }
  }

  lemma {:induction false} ReversedAt(a: seq<Accepted>, i: nat)
    requires i < |a|
    ensures |Reversed(a)| == |a| && Reversed(a)[i] == a[|a| - 1 - i].id
    decreases |a|
  {
    if |a| > 1 {
      ReversedAt(a[..|a| - 1], if i == 0 then 0 else i - 1);
    }
  }

  /** On a run without exceptions all accepted configurations are returned, the best one first. */
  lemma AllReturnedBestFirst(s: nat, start: nat, id: Id, rounds: nat -> Reply)
    requires RunFrom(s, start, rounds, 0).Stopped?
    ensures var a, r := RunFrom(s, start, rounds, 0).accepted, Best(s, start, id, rounds);
            if a == [] then r == Some([id])
            else
              && r.Some? && |r.value| == |a| <= start
              && (forall i :: 0 <= i < |a| ==> r.value[i] == a[|a| - 1 - i].id)
              && Falling(a)
  {
    var a := RunFrom(s, start, rounds, 0).accepted;
    RunIsSuperior(s, start, rounds);
    SuperiorIsFalling(s, start, a);
    ResultsAreReversed(a, start);
    CyclesFall(s, start, a, 0, |a|);
    if a != [] {
      ReversedAt(a, 0);
    }
    forall i | 0 <= i < |a|
      ensures |Reversed(a)| == |a| && Reversed(a)[i] == a[|a| - 1 - i].id
    {
      ReversedAt(a, i);
    }
  }

  /** The list of results is empty only if no configuration was accepted. */
  lemma EmptyIffNoneAccepted(s: nat, start: nat, id: Id, rounds: nat -> Reply)
    requires RunFrom(s, start, rounds, 0).Stopped?
    ensures var list := InKeyOrder(ResultMap(RunFrom(s, start, rounds, 0).accepted), start);
            Best(s, start, id, rounds) == Some(if list == [] then [id] else list)
  {
    if RunFrom(s, start, rounds, 0).accepted == [] {
      NothingBelow(map[], start, start);
    } else {
      AllReturnedBestFirst(s, start, id, rounds);
    }
  }

  // ---------------------------------------------------------------------------------------
  // The loops
  // ---------------------------------------------------------------------------------------

  method MinCycles(cycles: seq<nat>) returns (m: nat)
    requires cycles != []
    ensures m == Min(cycles)
  {
    m := cycles[0];
    var i := 1;
    assert cycles[..1] == [cycles[0]];
    while i < |cycles|
      invariant 1 <= i <= |cycles| && m == Min(cycles[..i])
    {
      assert cycles[..i + 1][..i] == cycles[..i];
      if cycles[i] < m {
        m := cycles[i];
      }
      i := i + 1;
    }
    assert cycles[..i] == cycles;
  }

  /**
   explore, from the first successful evaluation on; None where it ends with std::out_of_range. Every run
   of the loop ends.
   */
  method Explore(s: nat, id: Id, first: seq<nat>, rounds: nat -> Reply) returns (result: Option<seq<Id>>)
    ensures first == [] ==> result == Some([id])
    ensures first != [] ==> result == Best(s, Min(first), id, rounds)
  {
    if |first| < 1 {
      return Some([id]);
    }
    var current := MinCycles(first);
    var bound := current;
    ghost var start := current;
    var results: map<nat, Id> := map[];
    ghost var a: seq<Accepted> := [];
    var k := 0;
    var more := true;
    while more
      invariant results == ResultMap(a)
      invariant more ==> RunFrom(s, start, rounds, 0) == After(a, RunFrom(s, current, rounds, k))
      invariant !more ==> RunFrom(s, start, rounds, 0) == Stopped(a)
      decreases more, current
    {
      var previous := current;
      var reply := rounds(k);
      match reply {
        case DatabaseFull =>
          more := false;
        case EvaluationFails =>
          more := false;
        case Raises =>
          return Some([id]);
        case Counts(new_, cycles) =>
          if cycles == [] {
            return None;
          }
          current := MinCycles(cycles);
          if Superior(s, current, previous) {
            results := results[current := new_];
            RunStep(a, s, previous, rounds, k, Accepted(current, new_));
            a := a + [Accepted(current, new_)];
            k := k + 1;
          } else {
            more := false;
          }
      }
      assert a + [] == a;
    }
    EmptyIffNoneAccepted(s, start, id, rounds);
    var list := ListResults(results, bound);
    if |list| == 0 {
      list := [id];
    }
    result := Some(list);
  }

  /** Iteration over the map of results, whose keys are below the bound. */
  method ListResults(results: map<nat, Id>, bound: nat) returns (list: seq<Id>)
    ensures list == InKeyOrder(results, bound)
  {
    list := [];
    var key := 0;
    while key < bound
      invariant 0 <= key <= bound && list == InKeyOrder(results, key)
    {
      if key in results {
        list := list + [results[key]];
      }
      key := key + 1;
    }
  }

  lemma RunStep(a: seq<Accepted>, s: nat, before: nat, rounds: nat -> Reply, k: nat, c: Accepted)
    requires Accepts(s, before, rounds(k), c)
    ensures After(a, RunFrom(s, before, rounds, k)) == After(a + [c], RunFrom(s, c.cycles, rounds, k + 1))
  {
    AfterStep(a, c, RunFrom(s, c.cycles, rounds, k + 1));
  }

  lemma AfterStep(a: seq<Accepted>, c: Accepted, r: Run)
    ensures After(a, After([c], r)) == After(a + [c], r)
  {
    if r.Stopped? {
      assert a + ([c] + r.accepted) == a + [c] + r.accepted;
    }
  }
}
