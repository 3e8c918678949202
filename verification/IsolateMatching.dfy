/** BD13: the look-ahead that joins level runs follows the matching of isolate initiators
    with their PDIs. */
module IsolateMatching {
  import opened Wrappers
  import opened BidiTypes
  import opened LevelStacks
  import opened ExplicitLevels
  import opened IsolateNesting
  import opened LevelRuns
  import opened IsolatingRuns

  /** A paragraph of classes `orig` after rules X1 to X9, with its level runs. */
  datatype Paragraph = Paragraph(
    orig: seq<BidiClass>, base: Level, cap: nat, types: seq<BidiClass>, levels: seq<Level>, runs: seq<Run>)

  predicate ResolvedAt(p: Paragraph, k: nat)
    requires 0 <= p.base <= 1 && k < |p.orig| && |p.types| == |p.levels| == |p.orig|
  {
    && StateAt(p.orig, p.base, p.cap, k + 1).Some?
    && p.types[k] == ExplicitClass(p.orig, p.base, p.cap, k)
    && p.levels[k] == ExplicitLevel(p.orig, p.base, p.cap, k)
  }

  /** The hypotheses: no push dropped, no isolate overflowed, and a paragraph separator, if
      any, comes last. */
  ghost predicate WellNested(p: Paragraph) {
    && KeepsPushes(p.orig, p.base, p.cap)
    && |p.types| == |p.levels| == |p.orig|
    && (forall k {:trigger ResolvedAt(p, k)} :: 0 <= k < |p.orig| ==> ResolvedAt(p, k))
    && AreLevelRuns(p.types, p.levels, 0, p.runs)
    && (forall k :: 0 <= k < |p.orig| - 1 ==> !p.orig[k].B?)
    && (forall k :: 0 <= k <= |p.orig| ==>
          StateAt(p.orig, p.base, p.cap, k).Some? && StateAt(p.orig, p.base, p.cap, k).value.overflowIsolate == 0)
  }

  /** The first character of run s that is not removed is j. */
  predicate Begins(p: Paragraph, s: nat, j: nat)
    requires |p.types| == |p.levels| && s < |p.runs|
  {
    && p.runs[s].start <= j < p.runs[s].end <= |p.types|
    && p.levels[j] != NO_LEVEL
    && forall q :: p.runs[s].start <= q < j ==> p.levels[q] == NO_LEVEL
  }

  // ----- BD9 facts -----

  lemma {:induction false} NestingAdds(types: seq<BidiClass>, i: nat, m: nat, k: nat)
    requires i <= m <= k <= |types|
    ensures Nesting(types, i, k) == Nesting(types, i, m) + Nesting(types, m, k)
    decreases k
  {
    if m < k {
      NestingAdds(types, i, m, k - 1);
    }
  }

  /** BD9 matching is one-to-one: a PDI matches one initiator. */
  lemma MatchesInjective(types: seq<BidiClass>, i: nat, i': nat, j: nat)
    requires Matches(types, i, j) && Matches(types, i', j)
    ensures i == i'
  {
    if i < i' {
      OpenUntilPrefix(types, i, i', j);
      NestingAdds(types, i, i', j);
    } else if i' < i {
      OpenUntilPrefix(types, i', i, j);
      NestingAdds(types, i', i, j);
    }
  }

  /** An isolate that is no longer open has been closed by its matching PDI. */
  lemma {:induction false} Closed(types: seq<BidiClass>, i: nat, k: nat) returns (j: nat)
    requires i < k <= |types| && IsIsoInit(types[i]) && !OpenUntil(types, i, k)
    ensures i < j < k && Matches(types, i, j)
    decreases k
  {
    if k == i + 1 {
      NestingStart(types, i);
    }
    if OpenUntil(types, i, k - 1) {
      j := k - 1;
    } else {
      j := Closed(types, i, k - 1);
    }
  }

  // ----- one initiator -----

  /** A character that kept its initiator class was met with a neutral override, and
      without overflow it pushed its isolate. */
  lemma InitiatorOpens(p: Paragraph, i: nat)
    requires WellNested(p) && i < |p.orig| && IsIsoInit(p.types[i])
    ensures p.orig[i] == p.types[i] && p.levels[i] != NO_LEVEL
    ensures StateAt(p.orig, p.base, p.cap, i).Some?
    ensures Governing(p.orig, p.base, p.cap, i).over == Neutral
    ensures Opens(StateAt(p.orig, p.base, p.cap, i).value, OpensOdd(p.orig, i))
  {
    assert ResolvedAt(p, i);
    ExplicitLevelBounds(p.orig, p.base, p.cap, i);
    var s, s' := StateAt(p.orig, p.base, p.cap, i), StateAt(p.orig, p.base, p.cap, i + 1);
    assert s.value.overflowIsolate == 0 && s'.value.overflowIsolate == 0;
    assert s' == Step(s.value, p.orig[i], OpensOdd(p.orig, i), p.cap);
  }

  /** While the isolate is open every character that is not removed has a greater level,
      except a paragraph separator. */
  lemma InnerLevel(p: Paragraph, i: nat, q: nat)
    requires WellNested(p) && i < q < |p.orig| && IsIsoInit(p.types[i])
    requires OpenUntil(p.orig, i, q + 1) && p.levels[q] != NO_LEVEL && !p.orig[q].B?
    ensures p.levels[q] > p.levels[i]
  {
    InitiatorOpens(p, i);
    assert ResolvedAt(p, i);
    assert ResolvedAt(p, q);
    IsolateContents(p.orig, p.base, p.cap, i, q);
  }

  lemma MatchedEnds(p: Paragraph, i: nat, j: nat)
    requires WellNested(p) && Matches(p.orig, i, j) && IsIsoInit(p.types[i])
    ensures p.types[j].PDI? && p.levels[j] == p.levels[i] != NO_LEVEL
  {
    InitiatorOpens(p, i);
    assert ResolvedAt(p, i);
    assert ResolvedAt(p, j);
    IsolateEndsAgree(p.orig, p.base, p.cap, i, j);
  }

  /** The run of the matching PDI begins with it and is a candidate of the look-ahead. */
  lemma MatchingRun(p: Paragraph, r: nat, j: nat) returns (s: nat)
    requires WellNested(p) && r < |p.runs| && InText(p.types, p.levels, p.runs)
    requires EndsInInitiator(p.types, p.runs[r]) && Matches(p.orig, p.runs[r].end - 1, j)
    ensures r < s < |p.runs| && Begins(p, s, j)
    ensures Candidate(p.types, p.levels, p.runs, s, p.runs[r].level)
  {
    var i := p.runs[r].end - 1;
    MatchedEnds(p, i, j);
    s := RunContaining(p.types, p.levels, 0, p.runs, j);
    assert RunAt(p.types, p.levels, 0, p.runs, r);
    assert RunAt(p.types, p.levels, 0, p.runs, s);
    if s < r {
      RunsAscend(p.types, p.levels, 0, p.runs, s, r);
    }
    RunsAscend(p.types, p.levels, 0, p.runs, r, s);
    forall q | p.runs[s].start <= q < j ensures p.levels[q] == NO_LEVEL {
      if p.levels[q] != NO_LEVEL {
        OpenUntilPrefix(p.orig, i, q + 1, j);
        InnerLevel(p, i, q);
      }
    }
    SignificantIs(p, s, j, p.runs[s].start);
  }

  lemma {:induction false} SignificantIs(p: Paragraph, s: nat, j: nat, start: nat)
    requires |p.types| == |p.levels| && s < |p.runs| && Begins(p, s, j) && p.runs[s].start <= start <= j
    ensures FirstSignificant(p.types, p.levels, start, p.runs[s].end) == Some(p.types[j])
    decreases j - start
  {
    if start < j {
      SignificantIs(p, s, j, start + 1);
    }
  }

  lemma {:induction false} SignificantAt(p: Paragraph, start: nat, end: nat) returns (j: nat)
    requires |p.types| == |p.levels| && start <= end <= |p.types|
    requires FirstSignificant(p.types, p.levels, start, end).Some?
    ensures start <= j < end && p.levels[j] != NO_LEVEL
    ensures p.types[j] == FirstSignificant(p.types, p.levels, start, end).value
    ensures forall q :: start <= q < j ==> p.levels[q] == NO_LEVEL
    decreases end - start
  {
    if p.levels[start] != NO_LEVEL {
      j := start;
    } else {
      j := SignificantAt(p, start + 1, end);
    }
  }

  /** Every candidate after an initiator lies at or behind the run of its matching PDI; so
      there is none if no PDI matches. */
  lemma CandidateBehind(p: Paragraph, r: nat, t: nat) returns (j: nat)
    requires WellNested(p) && r < t < |p.runs| && InText(p.types, p.levels, p.runs)
    requires EndsInInitiator(p.types, p.runs[r])
    requires Candidate(p.types, p.levels, p.runs, t, p.runs[r].level)
    ensures Matches(p.orig, p.runs[r].end - 1, j)
    ensures forall s :: r < s < |p.runs| && Begins(p, s, j) ==> s <= t
  {
    var i := p.runs[r].end - 1;
    var q := SignificantAt(p, p.runs[t].start, p.runs[t].end);
    assert RunAt(p.types, p.levels, 0, p.runs, r);
    assert RunAt(p.types, p.levels, 0, p.runs, t);
    RunsAscend(p.types, p.levels, 0, p.runs, r, t);
    InitiatorOpens(p, i);
    assert p.levels[i] == p.levels[q];
    assert ResolvedAt(p, q);
    if OpenUntil(p.orig, i, q + 1) {
      InnerLevel(p, i, q);
    }
    j := Closed(p.orig, i, q + 1);
    forall s | r < s < |p.runs| && Begins(p, s, j) ensures s <= t {
      if t < s {
        RunsAscend(p.types, p.levels, 0, p.runs, t, s);
      }
    }
  }

  // ----- all sequences -----

  /** Run s is the one BD13 joins to run r: it begins with the PDI that matches the
      initiator r ends in. */
  ghost predicate Joined(p: Paragraph, r: nat, s: nat)
    requires |p.types| == |p.levels|
  {
    && r < s < |p.runs| && 0 < p.runs[r].end <= |p.types|
    && EndsInInitiator(p.types, p.runs[r])
    && exists j :: Begins(p, s, j) && Matches(p.orig, p.runs[r].end - 1, j)
  }

  lemma JoinedUnique(p: Paragraph, r: nat, r': nat, s: nat)
    requires WellNested(p) && Joined(p, r, s) && Joined(p, r', s)
    ensures r == r'
  {
    var j :| Begins(p, s, j) && Matches(p.orig, p.runs[r].end - 1, j);
    var j' :| Begins(p, s, j') && Matches(p.orig, p.runs[r'].end - 1, j');
    assert j == j';
    MatchesInjective(p.orig, p.runs[r].end - 1, p.runs[r'].end - 1, j);
    assert RunAt(p.types, p.levels, 0, p.runs, r);
    assert RunAt(p.types, p.levels, 0, p.runs, r');
    SameRun(p.types, p.levels, p.runs, r, r', p.runs[r].end - 1);
  }

  /** A sequence continues after run r with `rest` as BD13 says: with the run that begins
      with the matching PDI if r ends in a matched initiator, and not at all otherwise. */
  ghost predicate FollowsBD13(p: Paragraph, r: nat, rest: seq<nat>)
    requires |p.types| == |p.levels|
    decreases |rest|
  {
    if rest == [] then NoneJoinedBefore(p, r, |p.runs|)
    else Joined(p, r, rest[0]) && FollowsBD13(p, rest[0], rest[1..])
  }

  ghost predicate NoneJoinedBefore(p: Paragraph, r: nat, from: nat)
    requires |p.types| == |p.levels|
  {
    forall s: nat | s < from :: !Joined(p, r, s)
  }

  /** Every taken run from k on was joined to a run that is taken as well. */
  ghost predicate TakenByJoin(p: Paragraph, taken: set<nat>, k: nat)
    requires |p.types| == |p.levels|
  {
    forall t :: t in taken && t >= k ==> exists u :: u in taken && Joined(p, u, t)
  }

  lemma {:induction false} FollowBD13(p: Paragraph, taken: set<nat>, k: nat, r: nat, from: nat)
    requires WellNested(p) && InText(p.types, p.levels, p.runs) && k <= r < from <= |p.runs|
    requires TakenByJoin(p, taken, k) && r !in taken && EndsInInitiator(p.types, p.runs[r])
    requires NoneJoinedBefore(p, r, from)
    ensures FollowsBD13(p, r, Follow(p.types, p.levels, p.runs, taken, from, p.runs[r].level))
    decreases |p.runs| - from
  {
    if from < |p.runs| {
      var level := p.runs[r].level;
      if Candidate(p.types, p.levels, p.runs, from, level) {
        CandidateIsJoined(p, r, from);
        if from in taken {
          var u :| u in taken && Joined(p, u, from);
          JoinedUnique(p, r, u, from);
        }
        if EndsInInitiator(p.types, p.runs[from]) {
          FollowBD13(p, taken, k, from, from + 1);
        }
        FollowStep(p, r, from, if EndsInInitiator(p.types, p.runs[from])
                               then Follow(p.types, p.levels, p.runs, taken, from + 1, level) else []);
      } else {
        if Joined(p, r, from) {
          JoinedIsCandidate(p, r, from);
        }
        FollowBD13(p, taken, k, r, from + 1);
      }
    }
  }

  lemma FollowStep(p: Paragraph, r: nat, s: nat, rest: seq<nat>)
    requires |p.types| == |p.levels| && Joined(p, r, s)
    requires FollowsBD13(p, s, rest) || (rest == [] && !EndsInInitiator(p.types, p.runs[s]))
    ensures FollowsBD13(p, r, [s] + rest)
  {
    assert ([s] + rest)[1..] == rest;
  }

  lemma JoinedIsCandidate(p: Paragraph, r: nat, s: nat)
    requires WellNested(p) && InText(p.types, p.levels, p.runs) && Joined(p, r, s)
    ensures Candidate(p.types, p.levels, p.runs, s, p.runs[r].level)
  {
    var j :| Begins(p, s, j) && Matches(p.orig, p.runs[r].end - 1, j);
    var s' := MatchingRun(p, r, j);
    SameRun(p.types, p.levels, p.runs, s, s', j);
  }

  /** With no joined run before it, the first candidate is the joined run. */
  lemma CandidateIsJoined(p: Paragraph, r: nat, t: nat)
    requires WellNested(p) && InText(p.types, p.levels, p.runs) && r < t < |p.runs|
    requires EndsInInitiator(p.types, p.runs[r])
    requires Candidate(p.types, p.levels, p.runs, t, p.runs[r].level)
    requires NoneJoinedBefore(p, r, t)
    ensures Joined(p, r, t)
  {
    var j := CandidateBehind(p, r, t);
    var s := MatchingRun(p, r, j);
    assert Joined(p, r, s);
  }

  ghost predicate AllFollowBD13(p: Paragraph, chains: seq<seq<nat>>)
    requires |p.types| == |p.levels|
  {
    forall c :: 0 <= c < |chains| ==> chains[c] != [] && FollowsBD13(p, chains[c][0], chains[c][1..])
  }

  lemma ChainFromBD13(p: Paragraph, taken: set<nat>, k: nat)
    requires WellNested(p) && InText(p.types, p.levels, p.runs) && k < |p.runs|
    requires TakenByJoin(p, taken, k) && k !in taken
    ensures FollowsBD13(p, k, ChainFrom(p.types, p.levels, p.runs, taken, k)[1..])
  {
    if EndsInInitiator(p.types, p.runs[k]) {
      FollowBD13(p, taken, k, k, k + 1);
    }
    var chain := ChainFrom(p.types, p.levels, p.runs, taken, k);
    assert chain[1..] == if EndsInInitiator(p.types, p.runs[k])
                         then Follow(p.types, p.levels, p.runs, taken, k + 1, p.runs[k].level) else [];
  }

  /** BD13 holds of every sequence the code forms. */
  lemma {:induction false} ChainsFollowBD13(p: Paragraph, taken: set<nat>, k: nat)
    requires WellNested(p) && InText(p.types, p.levels, p.runs) && k <= |p.runs|
    requires TakenByJoin(p, taken, k)
    ensures AllFollowBD13(p, Chains(p.types, p.levels, p.runs, taken, k))
    decreases |p.runs| - k
  {
    if k < |p.runs| {
      if k in taken {
        ChainsFollowBD13(p, taken, k + 1);
      } else {
        var chain := ChainFrom(p.types, p.levels, p.runs, taken, k);
        ChainFromBD13(p, taken, k);
        ChainTaken(p, taken, k, chain, k + 1);
        ChainsFollowBD13(p, taken + Elements(chain), k + 1);
        AddFollowing(p, chain, Chains(p.types, p.levels, p.runs, taken + Elements(chain), k + 1));
      }
    }
  }

  lemma AddFollowing(p: Paragraph, chain: seq<nat>, rest: seq<seq<nat>>)
    requires |p.types| == |p.levels| && AllFollowBD13(p, rest)
    requires chain != [] && FollowsBD13(p, chain[0], chain[1..])
    ensures AllFollowBD13(p, [chain] + rest)
  {
  }

  lemma ChainTaken(p: Paragraph, taken: set<nat>, k: nat, chain: seq<nat>, k': nat)
    requires |p.types| == |p.levels| && TakenByJoin(p, taken, k) && k' == k + 1
    requires chain != [] && chain[0] == k && FollowsBD13(p, k, chain[1..])
    ensures TakenByJoin(p, taken + Elements(chain), k')
  {
    var taken' := taken + Elements(chain);
    forall t | t in taken' && t >= k' ensures exists u :: u in taken' && Joined(p, u, t) {
      if t in taken {
        var u :| u in taken && Joined(p, u, t);
        assert u in taken';
      } else {
        var x :| 0 <= x < |chain| && chain[x] == t;
        Predecessor(p, k, chain[1..], x - 1);
        var u := chain[x - 1];
        assert u in taken';
      }
    }
  }

  lemma {:induction false} Predecessor(p: Paragraph, r: nat, rest: seq<nat>, x: nat)
    requires |p.types| == |p.levels| && FollowsBD13(p, r, rest) && x < |rest|
    ensures Joined(p, if x == 0 then r else rest[x - 1], rest[x])
    decreases |rest|
  {
    if x > 0 {
      Predecessor(p, rest[0], rest[1..], x - 1);
    }
  }

  /** The sequences of a well-nested paragraph are those of BD13: each run that ends in a
      matched isolate initiator is followed by the run that begins with the matching PDI,
      and a sequence ends in an initiator only if no PDI matches it. */
  lemma SequencesAreBD13(p: Paragraph)
    requires WellNested(p) && InText(p.types, p.levels, p.runs)
    ensures AllFollowBD13(p, Chains(p.types, p.levels, p.runs, {}, 0))
  {
    ChainsFollowBD13(p, {}, 0);
  }

  lemma UnmatchedInitiatorEndsSequence(p: Paragraph, r: nat, j: nat)
    requires WellNested(p) && InText(p.types, p.levels, p.runs) && r < |p.runs|
    requires FollowsBD13(p, r, []) && EndsInInitiator(p.types, p.runs[r])
    ensures !Matches(p.orig, p.runs[r].end - 1, j)
  {
    if Matches(p.orig, p.runs[r].end - 1, j) {
      var s := MatchingRun(p, r, j);
      assert Joined(p, r, s);
    }
  }
}
