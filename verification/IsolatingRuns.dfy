/** Rule X10: how level runs are joined into isolating run sequences. */
module IsolatingRuns {
  import opened Wrappers
  import opened BidiTypes
  import opened LevelRuns

  datatype IsolatingRunSequence = IsolatingRunSequence(
    runs: seq<nat>, len: nat, level: Level, sos: BidiClass, eos: BidiClass, indices: seq<nat>)

  predicate InText(types: seq<BidiClass>, levels: seq<Level>, runs: seq<Run>) {
    && |types| == |levels|
    && forall k :: 0 <= k < |runs| ==> runs[k].start < runs[k].end <= |types|
  }

  function FirstSignificant(types: seq<BidiClass>, levels: seq<Level>, start: nat, end: nat): Option<BidiClass>
    requires |types| == |levels| && start <= end <= |types|
    decreases end - start
  {
    if start == end then None
    else if levels[start] != NO_LEVEL then Some(types[start])
    else FirstSignificant(types, levels, start + 1, end)
  }

  predicate EndsInInitiator(types: seq<BidiClass>, r: Run)
    requires 0 < r.end <= |types|
  {
    IsIsoInit(types[r.end - 1])
  }

  /** Run k has the wanted level and begins with a PDI. */
  predicate Candidate(types: seq<BidiClass>, levels: seq<Level>, runs: seq<Run>, k: nat, level: Level)
    requires InText(types, levels, runs) && k < |runs|
  {
    && runs[k].level == level
    && FirstSignificant(types, levels, runs[k].start, runs[k].end) == Some(PDI)
  }

  /** The runs the look-ahead of the code joins, scanning on from run `from`. */
  function Follow(types: seq<BidiClass>, levels: seq<Level>, runs: seq<Run>, taken: set<nat>, from: nat, level: Level): seq<nat>
    requires InText(types, levels, runs) && from <= |runs|
    decreases |runs| - from
  {
    if from == |runs| then []
    else if from !in taken && Candidate(types, levels, runs, from, level) then
      [from] + if EndsInInitiator(types, runs[from]) then Follow(types, levels, runs, taken, from + 1, level) else []
    else Follow(types, levels, runs, taken, from + 1, level)
  }

  function ChainFrom(types: seq<BidiClass>, levels: seq<Level>, runs: seq<Run>, taken: set<nat>, k: nat): (c: seq<nat>)
    requires InText(types, levels, runs) && k < |runs|
    ensures c != [] && c[0] == k
  {
    [k] + if EndsInInitiator(types, runs[k]) then Follow(types, levels, runs, taken, k + 1, runs[k].level) else []
  }

  function Elements(c: seq<nat>): set<nat> {
    set x | x in c
  }

  /** The sequences, as lists of run numbers, that start at run k or later. */
  function Chains(types: seq<BidiClass>, levels: seq<Level>, runs: seq<Run>, taken: set<nat>, k: nat): seq<seq<nat>>
    requires InText(types, levels, runs) && k <= |runs|
    decreases |runs| - k
  {
    if k == |runs| then []
    else if k in taken then Chains(types, levels, runs, taken, k + 1)
    else
      var c := ChainFrom(types, levels, runs, taken, k);
      [c] + Chains(types, levels, runs, taken + Elements(c), k + 1)
  }

  function Range(start: nat, end: nat): (r: seq<nat>)
    requires start <= end
    ensures |r| == end - start && forall k :: 0 <= k < |r| ==> r[k] == start + k
  {
    seq(end - start, k requires 0 <= k => start + k)
  }

  predicate Refers(runs: seq<Run>, chain: seq<nat>) {
    && (forall x :: 0 <= x < |chain| ==> chain[x] < |runs|)
    && (forall k :: 0 <= k < |runs| ==> runs[k].start <= runs[k].end)
  }

  /** The text positions of a sequence. */
  function Indices(runs: seq<Run>, chain: seq<nat>): seq<nat>
    requires Refers(runs, chain)
  {
    if chain == [] then []
    else
      var last := |chain| - 1;
      Indices(runs, chain[..last]) + Range(runs[chain[last]].start, runs[chain[last]].end)
  }

  function TotalLen(runs: seq<Run>, chain: seq<nat>): nat
    requires Refers(runs, chain)
  {
    if chain == [] then 0
    else TotalLen(runs, chain[..|chain| - 1]) + runs[chain[|chain| - 1]].len
  }

  // ----- every run is in exactly one sequence -----

  predicate Ascending(s: seq<nat>) {
    forall x, y :: 0 <= x < y < |s| ==> s[x] < s[y]
  }

  predicate FollowAt(runs: seq<Run>, taken: set<nat>, from: nat, level: Level, f: seq<nat>) {
    && Ascending(f)
    && forall x :: 0 <= x < |f| ==> from <= f[x] < |runs| && f[x] !in taken && runs[f[x]].level == level
  }

  lemma {:induction false} FollowIs(types: seq<BidiClass>, levels: seq<Level>, runs: seq<Run>, taken: set<nat>, from: nat, level: Level)
    requires InText(types, levels, runs) && from <= |runs|
    ensures FollowAt(runs, taken, from, level, Follow(types, levels, runs, taken, from, level))
    decreases |runs| - from
  {
    if from < |runs| {
      FollowIs(types, levels, runs, taken, from + 1, level);
      var rest := Follow(types, levels, runs, taken, from + 1, level);
      assert FollowAt(runs, taken, from, level, rest);
      if from !in taken && Candidate(types, levels, runs, from, level) {
        assert FollowAt(runs, taken, from, level, [from] + rest);
        assert FollowAt(runs, taken, from, level, [from] + []);
      }
    }
  }

  lemma ChainIs(types: seq<BidiClass>, levels: seq<Level>, runs: seq<Run>, taken: set<nat>, k: nat)
    requires InText(types, levels, runs) && k < |runs| && k !in taken
    ensures var c := ChainFrom(types, levels, runs, taken, k);
            && Ascending(c)
            && forall x :: 0 <= x < |c| ==> k <= c[x] < |runs| && c[x] !in taken && runs[c[x]].level == runs[k].level
  {
    FollowIs(types, levels, runs, taken, k + 1, runs[k].level);
  }

  /** What is true of sequence c: it is not empty, its runs ascend, are not taken, share one
      level, and every later sequence is disjoint from it. */
  predicate ChainAt(runs: seq<Run>, taken: set<nat>, lo: nat, chains: seq<seq<nat>>, c: nat)
    requires c < |chains|
  {
    && chains[c] != [] && Ascending(chains[c])
    && (forall x :: 0 <= x < |chains[c]| ==>
          lo <= chains[c][x] < |runs| && chains[c][x] !in taken && runs[chains[c][x]].level == runs[chains[c][0]].level)
    && (forall d, r :: c < d < |chains| && r in chains[d] ==> r !in chains[c])
  }

  predicate Owned(chains: seq<seq<nat>>, r: nat) {
    exists c :: 0 <= c < |chains| && r in chains[c]
  }

  /** The sequences contain every run from `lo` on that is not taken, each exactly once. */
  ghost predicate Partition(runs: seq<Run>, taken: set<nat>, lo: nat, chains: seq<seq<nat>>) {
    && (forall c {:trigger ChainAt(runs, taken, lo, chains, c)} :: 0 <= c < |chains| ==> ChainAt(runs, taken, lo, chains, c))
    && (forall r {:trigger Owned(chains, r)} :: lo <= r < |runs| && r !in taken ==> Owned(chains, r))
  }

  lemma {:induction false} ChainsPartition(types: seq<BidiClass>, levels: seq<Level>, runs: seq<Run>, taken: set<nat>, k: nat)
    requires InText(types, levels, runs) && k <= |runs|
    ensures Partition(runs, taken, k, Chains(types, levels, runs, taken, k))
    decreases |runs| - k
  {
    if k < |runs| {
      if k in taken {
        ChainsPartition(types, levels, runs, taken, k + 1);
        SkipTaken(runs, taken, k, Chains(types, levels, runs, taken, k + 1));
      } else {
        var chain := ChainFrom(types, levels, runs, taken, k);
        var taken' := taken + Elements(chain);
        ChainIs(types, levels, runs, taken, k);
        ChainsPartition(types, levels, runs, taken', k + 1);
        PrependChain(runs, taken, k, chain, Chains(types, levels, runs, taken', k + 1), taken', k + 1);
      }
    }
  }

  lemma SkipTaken(runs: seq<Run>, taken: set<nat>, k: nat, chains: seq<seq<nat>>)
    requires k in taken && Partition(runs, taken, k + 1, chains)
    ensures Partition(runs, taken, k, chains)
  {
    forall c | 0 <= c < |chains| ensures ChainAt(runs, taken, k, chains, c) {
      assert ChainAt(runs, taken, k + 1, chains, c);
    }
  }

  lemma PrependChain(runs: seq<Run>, taken: set<nat>, k: nat, chain: seq<nat>, rest: seq<seq<nat>>, taken': set<nat>, k': nat)
    requires chain != [] && chain[0] == k && Ascending(chain) && k' == k + 1 && taken' == taken + Elements(chain)
    requires forall x :: 0 <= x < |chain| ==> k <= chain[x] < |runs| && chain[x] !in taken && runs[chain[x]].level == runs[k].level
    requires Partition(runs, taken', k', rest)
    ensures Partition(runs, taken, k, [chain] + rest)
  {
    var chains := [chain] + rest;
    forall c | 0 <= c < |chains| ensures ChainAt(runs, taken, k, chains, c) {
      if c > 0 {
        assert ChainAt(runs, taken', k', rest, c - 1);
        assert chains[c] == rest[c - 1];
      }
      forall d, r | c < d < |chains| && r in chains[d] ensures r !in chains[c] {
        assert ChainAt(runs, taken', k', rest, d - 1);
        assert chains[d] == rest[d - 1];
      }
    }
    forall r | k <= r < |runs| && r !in taken ensures Owned(chains, r) {
      if r in chain {
        assert r in chains[0];
      } else {
        assert Owned(rest, r);
        var c :| 0 <= c < |rest| && r in rest[c];
        assert r in chains[c + 1];
      }
    }
  }

  // ----- every character is in exactly one sequence -----

  lemma {:induction false} RunOfIndex(runs: seq<Run>, chain: seq<nat>, p: nat) returns (x: nat)
    requires Refers(runs, chain) && p in Indices(runs, chain)
    ensures x < |chain| && runs[chain[x]].start <= p < runs[chain[x]].end
  {
    var last := |chain| - 1;
    var front := chain[..last];
    if p in Indices(runs, front) {
      x := RunOfIndex(runs, front, p);
      assert front[x] == chain[x];
    } else {
      x := last;
      RangeHas(runs[chain[last]].start, runs[chain[last]].end, p);
    }
  }

  lemma {:induction false} IndexOfRun(runs: seq<Run>, chain: seq<nat>, p: nat, x: nat)
    requires Refers(runs, chain) && x < |chain| && runs[chain[x]].start <= p < runs[chain[x]].end
    ensures p in Indices(runs, chain)
  {
    var last := |chain| - 1;
    var front := chain[..last];
    if x == last {
      RangeHas(runs[chain[last]].start, runs[chain[last]].end, p);
    } else {
      assert front[x] == chain[x];
      IndexOfRun(runs, front, p, x);
    }
  }

  lemma RangeHas(start: nat, end: nat, p: nat)
    requires start <= end
    ensures p in Range(start, end) <==> start <= p < end
  {
    if start <= p < end {
      assert Range(start, end)[p - start] == p;
    }
  }

  /** The positions of a sequence whose runs ascend are strictly increasing and in the text,
      and carry NO_LEVEL or the level of the sequence. */
  lemma {:induction false} IndicesAscend(types: seq<BidiClass>, levels: seq<Level>, runs: seq<Run>, chain: seq<nat>, level: Level)
    requires AreLevelRuns(types, levels, 0, runs) && Refers(runs, chain) && Ascending(chain)
    requires forall x :: 0 <= x < |chain| ==> runs[chain[x]].level == level
    ensures IndicesAt(levels, Indices(runs, chain), level)
    ensures chain != [] ==> EndsAt(Indices(runs, chain), runs[chain[|chain| - 1]].end)
  {
    if chain != [] {
      var last := |chain| - 1;
      var front, r := chain[..last], runs[chain[last]];
      IndicesAscend(types, levels, runs, front, level);
      assert RunAt(types, levels, 0, runs, chain[last]);
      if front != [] {
        assert chain[last - 1] < chain[last];
        RunsAscend(types, levels, 0, runs, chain[last - 1], chain[last]);
        assert front[last - 1] == chain[last - 1];
      }
      IndicesAppend(types, levels, r, Indices(runs, front), level);
    }
  }

  predicate IndicesAt(levels: seq<Level>, s: seq<nat>, level: Level) {
    && Ascending(s)
    && forall x :: 0 <= x < |s| ==> s[x] < |levels| && (levels[s[x]] == NO_LEVEL || levels[s[x]] == level)
  }

  predicate EndsAt(s: seq<nat>, end: nat) {
    s != [] && s[|s| - 1] + 1 == end
  }

  lemma IndicesAppend(types: seq<BidiClass>, levels: seq<Level>, r: Run, s: seq<nat>, level: Level)
    requires IsRun(types, levels, r) && r.level == level && IndicesAt(levels, s, level)
    requires s != [] ==> s[|s| - 1] < r.start
    ensures IndicesAt(levels, s + Range(r.start, r.end), level)
    ensures EndsAt(s + Range(r.start, r.end), r.end)
  {
  }

  /** The lists of positions are strictly increasing and disjoint, and every character that
      is not removed is in one of them. */
  ghost predicate CoversText(levels: seq<Level>, chains: seq<seq<nat>>) {
    && (forall c :: 0 <= c < |chains| ==> Ascending(chains[c]) && forall x :: 0 <= x < |chains[c]| ==> chains[c][x] < |levels|)
    && (forall c, d, p :: 0 <= c < d < |chains| && p in chains[c] ==> p !in chains[d])
    && (forall p {:trigger Owned(chains, p)} :: 0 <= p < |levels| && levels[p] != NO_LEVEL ==> Owned(chains, p))
  }

  function IndexLists(runs: seq<Run>, chains: seq<seq<nat>>): (r: seq<seq<nat>>)
    requires forall c :: 0 <= c < |chains| ==> Refers(runs, chains[c])
    ensures |r| == |chains|
  {
    seq(|chains|, c requires 0 <= c < |chains| => Indices(runs, chains[c]))
  }

  lemma LevelRunsInText(types: seq<BidiClass>, levels: seq<Level>, runs: seq<Run>)
    requires AreLevelRuns(types, levels, 0, runs)
    ensures InText(types, levels, runs)
  {
    forall k | 0 <= k < |runs| ensures runs[k].start < runs[k].end <= |types| {
      assert RunAt(types, levels, 0, runs, k);
    }
  }

  lemma PartitionRefers(runs: seq<Run>, taken: set<nat>, chains: seq<seq<nat>>)
    requires Partition(runs, taken, 0, chains)
    requires forall k :: 0 <= k < |runs| ==> runs[k].start <= runs[k].end
    ensures forall c :: 0 <= c < |chains| ==> Refers(runs, chains[c])
  {
    forall c | 0 <= c < |chains| ensures Refers(runs, chains[c]) {
      assert ChainAt(runs, taken, 0, chains, c);
    }
  }

  /** The isolating run sequences partition the text. */
  lemma SequencesCoverText(types: seq<BidiClass>, levels: seq<Level>, runs: seq<Run>)
    requires AreLevelRuns(types, levels, 0, runs) && InText(types, levels, runs)
    ensures var chains := Chains(types, levels, runs, {}, 0);
            && (forall c :: 0 <= c < |chains| ==> Refers(runs, chains[c]))
            && CoversText(levels, IndexLists(runs, chains))
  {
    var chains := Chains(types, levels, runs, {}, 0);
    ChainsPartition(types, levels, runs, {}, 0);
    PartitionRefers(runs, {}, chains);
    var lists := IndexLists(runs, chains);
    forall c | 0 <= c < |lists|
      ensures Ascending(lists[c]) && forall x :: 0 <= x < |lists[c]| ==> lists[c][x] < |levels|
    {
      assert ChainAt(runs, {}, 0, chains, c);
      IndicesAscend(types, levels, runs, chains[c], runs[chains[c][0]].level);
    }
    forall c, d, p | 0 <= c < d < |lists| && p in lists[c] ensures p !in lists[d] {
      IndicesDisjoint(types, levels, runs, chains, c, d, p);
    }
    forall p | 0 <= p < |levels| && levels[p] != NO_LEVEL ensures Owned(lists, p) {
      var k := RunContaining(types, levels, 0, runs, p);
      assert Owned(chains, k);
      var c :| 0 <= c < |chains| && k in chains[c];
      var x :| 0 <= x < |chains[c]| && chains[c][x] == k;
      IndexOfRun(runs, chains[c], p, x);
      assert p in lists[c];
    }
  }

  lemma SameRun(types: seq<BidiClass>, levels: seq<Level>, runs: seq<Run>, a: nat, b: nat, p: nat)
    requires AreLevelRuns(types, levels, 0, runs) && a < |runs| && b < |runs|
    requires runs[a].start <= p < runs[a].end && runs[b].start <= p < runs[b].end
    ensures a == b
  {
    if a < b {
      RunsAscend(types, levels, 0, runs, a, b);
    } else if b < a {
      RunsAscend(types, levels, 0, runs, b, a);
    }
  }

  lemma IndicesDisjoint(types: seq<BidiClass>, levels: seq<Level>, runs: seq<Run>, chains: seq<seq<nat>>, c: nat, d: nat, p: nat)
    requires AreLevelRuns(types, levels, 0, runs) && Partition(runs, {}, 0, chains) && c < d < |chains|
    requires Refers(runs, chains[c]) && Refers(runs, chains[d]) && p in Indices(runs, chains[c])
    ensures p !in Indices(runs, chains[d])
  {
    assert ChainAt(runs, {}, 0, chains, c);
    var x := RunOfIndex(runs, chains[c], p);
    if p in Indices(runs, chains[d]) {
      var y := RunOfIndex(runs, chains[d], p);
      assert chains[d][y] in chains[d] && chains[c][x] in chains[c];
      SameRun(types, levels, runs, chains[c][x], chains[d][y], p);
      assert false;
    }
  }

  // ----- where a sequence goes on -----

  /** The x-th run of a sequence follows a run that ends in an initiator, and begins with a PDI. */
  predicate LinkAt(types: seq<BidiClass>, levels: seq<Level>, runs: seq<Run>, chain: seq<nat>, x: nat)
    requires InText(types, levels, runs) && 0 < x < |chain|
  {
    && chain[x - 1] < |runs| && chain[x] < |runs|
    && EndsInInitiator(types, runs[chain[x - 1]])
    && FirstSignificant(types, levels, runs[chain[x]].start, runs[chain[x]].end) == Some(PDI)
  }

  ghost predicate RunsLinked(types: seq<BidiClass>, levels: seq<Level>, runs: seq<Run>, chain: seq<nat>)
    requires InText(types, levels, runs)
  {
    forall x {:trigger LinkAt(types, levels, runs, chain, x)} :: 0 < x < |chain| ==> LinkAt(types, levels, runs, chain, x)
  }

  lemma LinkFront(types: seq<BidiClass>, levels: seq<Level>, runs: seq<Run>, k: nat, rest: seq<nat>)
    requires InText(types, levels, runs) && RunsLinked(types, levels, runs, rest) && k < |runs|
    requires rest != [] ==> LinkAt(types, levels, runs, [k] + rest, 1)
    ensures RunsLinked(types, levels, runs, [k] + rest)
  {
    var chain := [k] + rest;
    forall x | 0 < x < |chain| ensures LinkAt(types, levels, runs, chain, x) {
      if x > 1 {
        assert LinkAt(types, levels, runs, rest, x - 1);
      }
    }
  }

  lemma {:induction false} FollowLinked(types: seq<BidiClass>, levels: seq<Level>, runs: seq<Run>, taken: set<nat>, from: nat, level: Level)
    requires InText(types, levels, runs) && from <= |runs|
    ensures var f := Follow(types, levels, runs, taken, from, level);
            && RunsLinked(types, levels, runs, f)
            && (f != [] ==> f[0] < |runs| && Candidate(types, levels, runs, f[0], level))
    decreases |runs| - from
  {
    if from < |runs| {
      FollowLinked(types, levels, runs, taken, from + 1, level);
      if from !in taken && Candidate(types, levels, runs, from, level) {
        LinkFront(types, levels, runs, from,
                  if EndsInInitiator(types, runs[from]) then Follow(types, levels, runs, taken, from + 1, level) else []);
      }
    }
  }

  lemma ChainLinked(types: seq<BidiClass>, levels: seq<Level>, runs: seq<Run>, taken: set<nat>, k: nat)
    requires InText(types, levels, runs) && k < |runs|
    ensures RunsLinked(types, levels, runs, ChainFrom(types, levels, runs, taken, k))
  {
    FollowLinked(types, levels, runs, taken, k + 1, runs[k].level);
    LinkFront(types, levels, runs, k,
              if EndsInInitiator(types, runs[k]) then Follow(types, levels, runs, taken, k + 1, runs[k].level) else []);
  }

  ghost predicate AllLinked(types: seq<BidiClass>, levels: seq<Level>, runs: seq<Run>, chains: seq<seq<nat>>)
    requires InText(types, levels, runs)
  {
    forall chain :: chain in chains ==> RunsLinked(types, levels, runs, chain)
  }

  lemma {:induction false} ChainsLinked(types: seq<BidiClass>, levels: seq<Level>, runs: seq<Run>, taken: set<nat>, k: nat)
    requires InText(types, levels, runs) && k <= |runs|
    ensures AllLinked(types, levels, runs, Chains(types, levels, runs, taken, k))
    decreases |runs| - k
  {
    if k < |runs| {
      if k in taken {
        ChainsLinked(types, levels, runs, taken, k + 1);
      } else {
        ChainLinked(types, levels, runs, taken, k);
        ChainsLinked(types, levels, runs, taken + Elements(ChainFrom(types, levels, runs, taken, k)), k + 1);
      }
    }
  }

  // ----- how the code chooses the next run -----

  /** Run r is in one of the first c sequences, or was taken before. */
  ghost predicate Used(taken: set<nat>, chains: seq<seq<nat>>, c: nat, r: nat)
    requires c <= |chains|
  {
    r in taken || exists d: nat :: d < c && r in chains[d]
  }

  /** A run that may follow run r: behind it, free, of its level, and beginning with a PDI. */
  ghost predicate MayFollow(types: seq<BidiClass>, levels: seq<Level>, runs: seq<Run>, taken: set<nat>, chains: seq<seq<nat>>,
                            c: nat, r: nat, s: nat)
    requires InText(types, levels, runs) && c <= |chains| && r < |runs|
  {
    && r < s < |runs| && !Used(taken, chains, c, s) && runs[s].level == runs[r].level
    && FirstSignificant(types, levels, runs[s].start, runs[s].end) == Some(PDI)
  }

  /** A sequence goes on from a run exactly if the run ends in an isolate initiator and some run may
      follow it, and then with the first such run. */
  ghost predicate GoesOn(types: seq<BidiClass>, levels: seq<Level>, runs: seq<Run>, taken: set<nat>, chains: seq<seq<nat>>,
                         c: nat, chain: seq<nat>, x: nat)
    requires InText(types, levels, runs) && c <= |chains| && x < |chain| && chain[x] < |runs|
  {
    if x + 1 < |chain| then
      && EndsInInitiator(types, runs[chain[x]])
      && MayFollow(types, levels, runs, taken, chains, c, chain[x], chain[x + 1])
      && forall s: nat :: s < chain[x + 1] ==> !MayFollow(types, levels, runs, taken, chains, c, chain[x], s)
    else
      EndsInInitiator(types, runs[chain[x]]) ==>
        forall s: nat :: !MayFollow(types, levels, runs, taken, chains, c, chain[x], s)
  }

  ghost predicate GreedyFrom(types: seq<BidiClass>, levels: seq<Level>, runs: seq<Run>, taken: set<nat>, chain: seq<nat>)
    requires InText(types, levels, runs)
  {
    forall x: nat :: x < |chain| ==> chain[x] < |runs| && GoesOn(types, levels, runs, taken, [], 0, chain, x)
  }

  lemma FreeCandidate(types: seq<BidiClass>, levels: seq<Level>, runs: seq<Run>, taken: set<nat>, r: nat, s: nat)
    requires InText(types, levels, runs) && r < s < |runs|
    ensures MayFollow(types, levels, runs, taken, [], 0, r, s)
       <==> s !in taken && Candidate(types, levels, runs, s, runs[r].level)
  {
  }

  /** What follows a run that has been joined. */
  function AfterRun(types: seq<BidiClass>, levels: seq<Level>, runs: seq<Run>, taken: set<nat>, k: nat, next: nat): seq<nat>
    requires InText(types, levels, runs) && k < |runs| && next == k + 1
  {
    if EndsInInitiator(types, runs[k]) then Follow(types, levels, runs, taken, next, runs[k].level) else []
  }

  lemma FollowTakes(types: seq<BidiClass>, levels: seq<Level>, runs: seq<Run>, taken: set<nat>, r: nat, k: nat, next: nat)
    requires InText(types, levels, runs) && r < k < |runs| && next == k + 1
    requires k !in taken && Candidate(types, levels, runs, k, runs[r].level)
    ensures [r] + Follow(types, levels, runs, taken, k, runs[r].level) == [r, k] + AfterRun(types, levels, runs, taken, k, next)
  {
    var rest := AfterRun(types, levels, runs, taken, k, next);
    assert Follow(types, levels, runs, taken, k, runs[r].level) == [k] + rest;
    assert [r] + ([k] + rest) == [r, k] + rest;
  }

  lemma {:induction false} FollowGreedy(types: seq<BidiClass>, levels: seq<Level>, runs: seq<Run>, taken: set<nat>, r: nat, from: nat)
    requires InText(types, levels, runs) && r < from <= |runs| && EndsInInitiator(types, runs[r])
    requires forall s: nat :: s < from ==> !MayFollow(types, levels, runs, taken, [], 0, r, s)
    ensures GreedyFrom(types, levels, runs, taken, [r] + Follow(types, levels, runs, taken, from, runs[r].level))
    decreases |runs| - from
  {
    if from == |runs| {
      assert [r] + [] == [r];
    } else {
      var next := from + 1;
      FreeCandidate(types, levels, runs, taken, r, from);
      if from !in taken && Candidate(types, levels, runs, from, runs[r].level) {
        var rest := AfterRun(types, levels, runs, taken, from, next);
        if EndsInInitiator(types, runs[from]) {
          FollowGreedy(types, levels, runs, taken, from, next);
        }
        GreedyFront(types, levels, runs, taken, r, from, rest);
        FollowTakes(types, levels, runs, taken, r, from, next);
      } else {
        FollowGreedy(types, levels, runs, taken, r, next);
      }
    }
  }

  lemma GreedyFront(types: seq<BidiClass>, levels: seq<Level>, runs: seq<Run>, taken: set<nat>, r: nat, from: nat, rest: seq<nat>)
    requires InText(types, levels, runs) && r < |runs| && EndsInInitiator(types, runs[r])
    requires MayFollow(types, levels, runs, taken, [], 0, r, from)
    requires forall s: nat :: s < from ==> !MayFollow(types, levels, runs, taken, [], 0, r, s)
    requires if EndsInInitiator(types, runs[from]) then GreedyFrom(types, levels, runs, taken, [from] + rest) else rest == []
    ensures GreedyFrom(types, levels, runs, taken, [r, from] + rest)
  {
    var chain, tail := [r, from] + rest, [from] + rest;
    forall x: nat | x < |chain| ensures chain[x] < |runs| && GoesOn(types, levels, runs, taken, [], 0, chain, x) {
      if x > 0 && EndsInInitiator(types, runs[from]) {
        assert chain[x] == tail[x - 1] && GoesOn(types, levels, runs, taken, [], 0, tail, x - 1);
        assert x + 1 < |chain| ==> chain[x + 1] == tail[x];
      }
    }
  }

  lemma ChainGreedy(types: seq<BidiClass>, levels: seq<Level>, runs: seq<Run>, taken: set<nat>, k: nat)
    requires InText(types, levels, runs) && k < |runs|
    ensures GreedyFrom(types, levels, runs, taken, ChainFrom(types, levels, runs, taken, k))
  {
    if EndsInInitiator(types, runs[k]) {
      FollowGreedy(types, levels, runs, taken, k, k + 1);
    }
  }

  /** The first run of sequence c is the first that is in none before, and the sequence goes on as the
      three criteria of the look-ahead say. */
  ghost predicate ChosenAt(types: seq<BidiClass>, levels: seq<Level>, runs: seq<Run>, taken: set<nat>, chains: seq<seq<nat>>, c: nat)
    requires InText(types, levels, runs) && c < |chains|
  {
    && chains[c] != [] && !Used(taken, chains, c, chains[c][0])
    && (forall x: nat :: x < |chains[c]| ==>
          chains[c][x] < |runs| && GoesOn(types, levels, runs, taken, chains, c, chains[c], x))
  }

  lemma GoesOnSame(types: seq<BidiClass>, levels: seq<Level>, runs: seq<Run>, taken: set<nat>, chains: seq<seq<nat>>, c: nat,
                   taken': set<nat>, chains': seq<seq<nat>>, c': nat, chain: seq<nat>, x: nat)
    requires InText(types, levels, runs) && c <= |chains| && c' <= |chains'| && x < |chain| && chain[x] < |runs|
    requires forall r: nat :: Used(taken, chains, c, r) <==> Used(taken', chains', c', r)
    requires GoesOn(types, levels, runs, taken, chains, c, chain, x)
    ensures GoesOn(types, levels, runs, taken', chains', c', chain, x)
  {
    forall s: nat ensures MayFollow(types, levels, runs, taken, chains, c, chain[x], s)
                     <==> MayFollow(types, levels, runs, taken', chains', c', chain[x], s) {
    }
  }

  lemma ChosenFirst(types: seq<BidiClass>, levels: seq<Level>, runs: seq<Run>, taken: set<nat>, chain: seq<nat>, rest: seq<seq<nat>>)
    requires InText(types, levels, runs) && chain != [] && chain[0] !in taken && GreedyFrom(types, levels, runs, taken, chain)
    ensures ChosenAt(types, levels, runs, taken, [chain] + rest, 0)
  {
    var chains := [chain] + rest;
    forall x: nat | x < |chain| ensures chain[x] < |runs| && GoesOn(types, levels, runs, taken, chains, 0, chain, x) {
      GoesOnSame(types, levels, runs, taken, [], 0, taken, chains, 0, chain, x);
    }
  }

  lemma UsedLater(taken: set<nat>, chain: seq<nat>, rest: seq<seq<nat>>, taken': set<nat>, c: nat, next: nat, r: nat)
    requires taken' == taken + Elements(chain) && c <= |rest| && next == c + 1
    ensures Used(taken, [chain] + rest, next, r) <==> Used(taken', rest, c, r)
  {
    var chains := [chain] + rest;
    if Used(taken, chains, next, r) && r !in taken {
      var d: nat :| d < next && r in chains[d];
      if d > 0 {
        assert r in rest[d - 1];
      }
    }
    if d: nat :| d < c && r in rest[d] {
      assert r in chains[d + 1];
    }
    if r in chain {
      assert r in chains[0];
    }
  }

  lemma ChosenLater(types: seq<BidiClass>, levels: seq<Level>, runs: seq<Run>, taken: set<nat>, chain: seq<nat>, rest: seq<seq<nat>>,
                    taken': set<nat>, c: nat, next: nat)
    requires InText(types, levels, runs) && taken' == taken + Elements(chain) && c < |rest| && next == c + 1
    requires ChosenAt(types, levels, runs, taken', rest, c)
    ensures ChosenAt(types, levels, runs, taken, [chain] + rest, next)
  {
    var chains, own := [chain] + rest, rest[c];
    assert chains[next] == own;
    forall r: nat ensures Used(taken', rest, c, r) <==> Used(taken, chains, next, r) {
      UsedLater(taken, chain, rest, taken', c, next, r);
    }
    forall x: nat | x < |own| ensures own[x] < |runs| && GoesOn(types, levels, runs, taken, chains, next, own, x) {
      GoesOnSame(types, levels, runs, taken', rest, c, taken, chains, next, own, x);
    }
  }

  /** The sequences are chosen so, whatever the text. */
  lemma {:induction false} ChainsChosen(types: seq<BidiClass>, levels: seq<Level>, runs: seq<Run>, taken: set<nat>, k: nat, c: nat)
    requires InText(types, levels, runs) && k <= |runs| && c < |Chains(types, levels, runs, taken, k)|
    ensures ChosenAt(types, levels, runs, taken, Chains(types, levels, runs, taken, k), c)
    decreases |runs| - k
  {
    if k in taken {
      ChainsChosen(types, levels, runs, taken, k + 1, c);
    } else {
      var chain := ChainFrom(types, levels, runs, taken, k);
      var taken' := taken + Elements(chain);
      var rest := Chains(types, levels, runs, taken', k + 1);
      if c == 0 {
        ChainGreedy(types, levels, runs, taken, k);
        ChosenFirst(types, levels, runs, taken, chain, rest);
      } else {
        ChainsChosen(types, levels, runs, taken', k + 1, c - 1);
        ChosenLater(types, levels, runs, taken, chain, rest, taken', c - 1, c);
      }
    }
  }

  // ----- the sequence records -----

  /** sos and eos: those of the first and last run, except that a sequence that ends in an
      isolate initiator takes its eos from the paragraph level. */
  function SequenceOf(types: seq<BidiClass>, base: Level, runs: seq<Run>, chain: seq<nat>): IsolatingRunSequence
    requires Refers(runs, chain) && chain != []
    requires 0 < runs[chain[|chain| - 1]].end <= |types|
  {
    var first, last := runs[chain[0]], runs[chain[|chain| - 1]];
    IsolatingRunSequence(chain, TotalLen(runs, chain), first.level, first.sor,
                         if EndsInInitiator(types, last) then ClassOfLevel(MaxLevel(base, first.level)) else last.eor,
                         Indices(runs, chain))
  }
}
