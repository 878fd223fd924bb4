/** The campaign's stopping test and its doubling of the training prefix, against the learner. */
module TrainingCampaign {
  import opened Arithmetic
  import opened ClosedCycles
  import opened Common

  const MAX_TRAINING_EPISODES := 168
  const MIN_TRAINING_EPISODES := 12

  /** A positive position becomes exactly flat later on. */
  ghost predicate HasCycle(positions: seq<int>) {
    exists i, j :: 0 <= i < j < |positions| && positions[i] > 0 && positions[j] == 0
  }

  predicate Bad(position: Option<int>) {
    position.None? || position.value < 0
  }

  /** The first bad position, with no cycle before it. */
  ghost predicate BadBeforeCycle(positions: seq<Option<int>>, k: nat)
    requires k < |positions|
  {
    Bad(positions[k]) && (forall i :: 0 <= i < k ==> !Bad(positions[i])) && !HasCycle(Values(positions)[..k])
  }

  /** `_has_closed_position_cycle`: positions as the constructor reads them, `None` when it refuses
      the text or the number is not finite. It raises exactly when a bad position comes before any
      cycle; it does not look past the first flat after a position. */
  method HasClosedPositionCycle(positions: seq<Option<int>>) returns (r: Result<bool>)
    ensures r.Refused? <==> exists k :: 0 <= k < |positions| && BadBeforeCycle(positions, k)
    ensures r.Ok? ==> (r.value <==> HasCycle(Values(positions)))
  {
    var positionSeen := false;
    for k := 0 to |positions|
      invariant forall i :: 0 <= i < k ==> !Bad(positions[i])
      invariant positionSeen <==> exists i :: 0 <= i < k && Values(positions)[i] > 0
      invariant !HasCycle(Values(positions)[..k])
    {
      if Bad(positions[k]) {
        assert BadBeforeCycle(positions, k);
        return Refused;
      }
      ghost var values := Values(positions);
      if positions[k].value > 0 {
        positionSeen := true;
        assert values[k] > 0;
      } else if positionSeen {
        assert values[k] == 0;
        CycleBefore(positions, k);
        return Ok(true);
      }
      assert values[..k + 1] == values[..k] + [values[k]];
      NoCycleYet(values[..k], values[k]);
    }
    assert Values(positions)[..|positions|] == Values(positions);
    return Ok(false);
  }

  /** A cycle closed at `k` comes before every later bad position. */
  lemma CycleBefore(positions: seq<Option<int>>, k: nat)
    requires k < |positions| && forall i :: 0 <= i <= k ==> !Bad(positions[i])
    requires Values(positions)[k] == 0 && exists i :: 0 <= i < k && Values(positions)[i] > 0
    ensures HasCycle(Values(positions))
    ensures forall n :: 0 <= n < |positions| ==> !BadBeforeCycle(positions, n)
  {
    var values := Values(positions);
    var i :| 0 <= i < k && values[i] > 0;
    forall n | 0 <= n < |positions| ensures !BadBeforeCycle(positions, n) {
      if n > k {
        assert values[..n][i] > 0 && values[..n][k] == 0;
      }
    }
  }

  lemma NoCycleYet(s: seq<int>, x: int)
    requires !HasCycle(s) && (x != 0 || forall i :: 0 <= i < |s| ==> s[i] <= 0)
    ensures !HasCycle(s + [x])
  {
  }

  function Values(positions: seq<Option<int>>): (s: seq<int>)
    ensures |s| == |positions|
    ensures forall i :: 0 <= i < |s| ==> s[i] == if positions[i].Some? then positions[i].value else 0
  {
    seq(|positions|, i requires 0 <= i < |positions| => if positions[i].Some? then positions[i].value else 0)
  }

  function Positions(ds: seq<Decision>): (s: seq<int>)
    ensures |s| == |ds| && forall i :: 0 <= i < |s| ==> s[i] == Position(ds, i + 1)
  {
    seq(|ds|, i requires 0 <= i < |ds| => Position(ds, i + 1))
  }

  lemma {:induction false} PositionsNonNegative(t: Terms, ds: seq<Decision>, i: nat)
    requires t.Valid() && Walked(t, ds).Ok? && i < |ds|
    ensures ds[i].position.Some? && ds[i].position.value >= 0
    decreases |ds|
  {
    var n := |ds| - 1;
    if i < n {
      PositionsNonNegative(t, ds[..n], i);
    } else {
      assert Advance(t, Walked(t, ds[..n]).value, ds[n], n + 1).Ok?;
    }
  }

  /** The last flat before a later positive position is where that position was opened; after a
      position, the first flat is a closing. */
  lemma {:induction false} FlatAfterPositionCloses(ds: seq<Decision>, i: nat, j: nat) returns (e: nat)
    requires 1 <= i < j <= |ds| && Position(ds, i) > 0 && Position(ds, j) == 0
    requires forall k :: 1 <= k <= |ds| ==> Position(ds, k) >= 0
    ensures Closes(ds, e)
    decreases j - i
  {
    if Position(ds, i + 1) == 0 {
      e := i + 1;
    } else {
      e := FlatAfterPositionCloses(ds, i + 1, j);
    }
  }

  /** The campaign stops exactly on the simulations from which the learner gets a cycle. */
  lemma StoppingTestAgreesWithLearner(t: Terms, s: Simulation)
    requires t.Valid() && Accepted(t, s)
    ensures HasCycle(Positions(s.decisions)) <==> Walked(t, s.decisions).value.cycles != []
  {
    hide Walked, Advance, RoundSignificant, Cash, CashBefore;
    var ds := s.decisions;
    var cycles := Walked(t, ds).value.cycles;
    WalkedIsOk(t, ds);
    forall k | 1 <= k <= |ds| ensures Position(ds, k) >= 0 {
      PositionsNonNegative(t, ds, k - 1);
    }
    if HasCycle(Positions(ds)) {
      var i, j :| 0 <= i < j < |ds| && Positions(ds)[i] > 0 && Positions(ds)[j] == 0;
      var e := FlatAfterPositionCloses(ds, i + 1, j + 1);
      assert exists m :: 0 <= m < |cycles| && cycles[m].closeEpisode == e;
    }
    if cycles != [] {
      assert CycleOk(t, ds, cycles, 0);
      var c := cycles[0].closeEpisode;
      assert Positions(ds)[c - 2] > 0 && Positions(ds)[c - 1] == 0;
    }
  }

  /** The positions as the stopping test reads them from decisions the learner can read: it takes
      strings only. */
  function CampaignReads(ds: seq<Decision>): (s: seq<Option<int>>)
    ensures |s| == |ds|
    ensures forall i :: 0 <= i < |s| ==>
              s[i] == if ds[i].positionIsText && ds[i].position.Some? then Some(ds[i].position.value) else None
  {
    seq(|ds|, i requires 0 <= i < |ds| =>
      if ds[i].positionIsText && ds[i].position.Some? then Some(ds[i].position.value) else None)
  }

  /** The stopping test on a simulation the learner accepts: when it answers, its answer is whether
      the learner gets a cycle, and it answers when every position is a string. */
  method StoppingTest(ghost t: Terms, s: Simulation) returns (r: Result<bool>)
    requires t.Valid() && Accepted(t, s)
    ensures r.Ok? ==> (r.value <==> Walked(t, s.decisions).value.cycles != [])
    ensures (forall i :: 0 <= i < |s.decisions| ==> s.decisions[i].positionIsText) ==> r.Ok?
  {
    var positions := CampaignReads(s.decisions);
    r := HasClosedPositionCycle(positions);
    AcceptedReads(t, s.decisions);
    StoppingTestAgreesWithLearner(t, s);
    if r.Ok? {
      AnswerIsCycle(positions, Positions(s.decisions));
    }
  }

  lemma AcceptedReads(t: Terms, ds: seq<Decision>)
    requires t.Valid() && Walked(t, ds).Ok?
    ensures forall i :: 0 <= i < |ds| ==>
              (Bad(CampaignReads(ds)[i]) <==> !ds[i].positionIsText) &&
              (ds[i].positionIsText ==> CampaignReads(ds)[i] == Some(Positions(ds)[i]))
  {
    hide Walked;
    forall i | 0 <= i < |ds| ensures ds[i].position.Some? && ds[i].position.value >= 0 {
      PositionsNonNegative(t, ds, i);
    }
  }

  /** An answer given is right even if bad positions come later. */
  lemma AnswerIsCycle(read: seq<Option<int>>, positions: seq<int>)
    requires |read| == |positions|
    requires forall i :: 0 <= i < |read| && !Bad(read[i]) ==> read[i] == Some(positions[i])
    requires !exists k :: 0 <= k < |read| && BadBeforeCycle(read, k)
    ensures HasCycle(Values(read)) <==> HasCycle(positions)
  {
    if k :| 0 <= k < |read| && Bad(read[k]) && forall i :: 0 <= i < k ==> !Bad(read[i]) {
      assert !BadBeforeCycle(read, k);
      var i, j :| 0 <= i < j < k && Values(read)[..k][i] > 0 && Values(read)[..k][j] == 0;
      assert Values(read)[i] > 0 && Values(read)[j] == 0;
      assert positions[i] > 0 && positions[j] == 0;
    } else {
      forall i | 0 <= i < |read| ensures !Bad(read[i]) {
        FirstBad(read, i);
      }
      assert Values(read) == positions;
    }
  }

  lemma {:induction false} FirstBad(read: seq<Option<int>>, i: nat)
    requires i < |read|
    requires !exists k :: 0 <= k < |read| && Bad(read[k]) && forall j :: 0 <= j < k ==> !Bad(read[j])
    ensures forall j :: 0 <= j <= i ==> !Bad(read[j])
    decreases i
  {
    if i > 0 {
      FirstBad(read, i - 1);
    }
  }

  /** The prefix the first simulation is given. */
  function FirstLimit(episodeLimit: Option<int>): (limit: nat)
    ensures 12 <= limit <= 168
    ensures episodeLimit == None ==> limit == 168
    ensures episodeLimit.Some? ==> (limit > episodeLimit.value ==> limit == 12)
    ensures episodeLimit.Some? ==> (limit < episodeLimit.value ==> limit == 168)
  {
    Max(MIN_TRAINING_EPISODES, Min(MAX_TRAINING_EPISODES, if episodeLimit.Some? then episodeLimit.value else MAX_TRAINING_EPISODES))
  }

  function Doubled(first: nat, times: nat): nat {
    if times == 0 then first else 2 * Doubled(first, times - 1)
  }

  lemma {:induction false} DoubledIs(first: nat, times: nat)
    ensures Doubled(first, times) == first * Pow(2, times)
  {
    if times > 0 {
      DoubledIs(first, times - 1);
      MulAssoc(first, Pow(2, times - 1), 2);
    }
  }

  /** The doubling loop: `closes(n)` says whether the simulation of the first `n` episodes has a
      closed cycle. At most five simulations run; the last one closed a cycle, unless even the
      longest admitted prefix does not. */
  method TrainingLimit(episodeLimit: Option<int>, closes: nat -> bool) returns (limit: nat, runs: nat)
    requires episodeLimit.Some? ==> episodeLimit.value >= 1
    ensures MIN_TRAINING_EPISODES <= limit <= MAX_TRAINING_EPISODES && 1 <= runs <= 5
    ensures closes(limit) || limit == MAX_TRAINING_EPISODES
    ensures limit == Min(168, Doubled(FirstLimit(episodeLimit), runs - 1))
    ensures forall k: nat :: k < runs - 1 ==>
              var tried := Doubled(FirstLimit(episodeLimit), k);
              tried < 168 && !closes(tried)
    ensures (forall m: nat, n: nat :: m <= n && closes(m) ==> closes(n)) ==>
              (closes(limit) <==> closes(MAX_TRAINING_EPISODES))
  {
    var asked := if episodeLimit.Some? then episodeLimit.value else MAX_TRAINING_EPISODES;
    limit := Max(MIN_TRAINING_EPISODES, Min(MAX_TRAINING_EPISODES, asked));
    runs := 1;
    while !(closes(limit) || limit == MAX_TRAINING_EPISODES)
      invariant FirstLimit(episodeLimit) <= limit <= MAX_TRAINING_EPISODES && runs >= 1
      invariant limit == Min(168, Doubled(FirstLimit(episodeLimit), runs - 1))
      invariant forall k: nat :: k < runs - 1 ==>
                  var tried := Doubled(FirstLimit(episodeLimit), k);
                  tried < 168 && !closes(tried)
      invariant runs == 1 || (runs == 2 && limit >= 24) || (runs == 3 && limit >= 48) ||
                (runs == 4 && limit >= 96) || (runs == 5 && limit == 168)
      decreases MAX_TRAINING_EPISODES - limit
    {
      limit := Min(MAX_TRAINING_EPISODES, limit * 2);
      runs := runs + 1;
    }
  }

  /** Cycles persist: a longer accepted simulation of the same decisions still has the cycle, which
      is what makes the limit of 168 decide for every shorter prefix. */
  lemma CyclesPersist(t: Terms, ds: seq<Decision>, m: nat, n: nat)
    requires t.Valid() && m <= n <= |ds| && Walked(t, ds).Ok?
    ensures Walked(t, ds[..m]).Ok? && Walked(t, ds[..n]).Ok?
    ensures Walked(t, ds[..m]).value.cycles != [] ==> Walked(t, ds[..n]).value.cycles != []
  {
    WalkedPrefix(t, ds, n);
    assert ds[..n][..m] == ds[..m];
    WalkedPrefix(t, ds[..n], m);
  }
}
