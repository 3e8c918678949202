/** Rules W1 to W7, N1, N2, I1 and I2 as UAX #9 words them: over positions, with every class named.
    A character looks at the nearest one before or behind it that its rule does not pass over. */
module RuleStatements {
  import opened Wrappers
  import opened BidiTypes
  import opened IsolatingRuns
  import opened WeakRules
  import opened NeutralRules
  import opened Pipeline

  // ----- classes -----

  /** X9: the characters every later rule passes over. */
  predicate Deleted(bc: BidiClass) {
    match bc
    case RLE | LRE | RLO | LRO | PDF | BN => true
    case _ => false
  }

  /** NI: the neutrals and isolate formatting characters. */
  predicate NeutralOrIsolate(bc: BidiClass) {
    match bc
    case B | S | WS | ON | FSI | LRI | RLI | PDI => true
    case _ => false
  }

  /** What a scan stops at: strong classes, L and R, anything not deleted, and anything not deleted
      other than marks, terminators or neutrals. */
  datatype Stop = AtStrong | AtDirection | AtKept | AtBase | AtNonTerminator | AtSide

  predicate Ends(stop: Stop, bc: BidiClass) {
    match stop
    case AtStrong => bc.L? || bc.R? || bc.AL?
    case AtDirection => bc.L? || bc.R?
    case AtKept => !Deleted(bc)
    case AtBase => !Deleted(bc) && !bc.NSM?
    case AtNonTerminator => !Deleted(bc) && !bc.ET?
    case AtSide => !Deleted(bc) && !NeutralOrIsolate(bc)
  }

  // ----- the nearest character a scan stops at -----

  /** Position j is the last before k that the scan stops at; -1 if there is none. */
  predicate Last(stop: Stop, v: Classes, k: nat, j: int) {
    && -1 <= j < k <= |v|
    && (j >= 0 ==> Ends(stop, v[j]))
    && forall x :: j < x < k ==> !Ends(stop, v[x])
  }

  /** Position j is the first from k on that the scan stops at; |v| if there is none. */
  predicate First(stop: Stop, v: Classes, k: nat, j: int) {
    && k <= j <= |v|
    && (j < |v| ==> Ends(stop, v[j]))
    && forall x :: k <= x < j ==> !Ends(stop, v[x])
  }

  lemma {:induction false} LastExists(stop: Stop, v: Classes, k: nat) returns (j: int)
    requires k <= |v|
    ensures Last(stop, v, k, j) && forall i :: Last(stop, v, k, i) ==> i == j
    decreases k
  {
    if k == 0 {
      j := -1;
    } else if Ends(stop, v[k - 1]) {
      j := k - 1;
    } else {
      j := LastExists(stop, v, k - 1);
    }
  }

  lemma {:induction false} FirstExists(stop: Stop, v: Classes, k: nat) returns (j: int)
    requires k <= |v|
    ensures First(stop, v, k, j) && forall i :: First(stop, v, k, i) ==> i == j
    decreases |v| - k
  {
    if k == |v| || Ends(stop, v[k]) {
      j := k;
    } else {
      j := FirstExists(stop, v, k + 1);
    }
  }

  function ClassAt(v: Classes, j: int, outside: BidiClass): BidiClass {
    if 0 <= j < |v| then v[j] else outside
  }

  // ----- the scans of the rules -----

  lemma {:induction false} BaseIsLast(v: Classes, k: nat, sos: BidiClass, j: int)
    requires k <= |v| && Last(AtBase, v, k, j)
    ensures BaseClass(v, k, sos) == ClassAt(v, j, sos)
    decreases k
  {
    if j + 1 < k {
      BaseIsLast(v, k - 1, sos, j);
    }
  }

  lemma {:induction false} StrongIsLast(v: Classes, k: nat, sos: BidiClass, j: int)
    requires k <= |v| && Last(AtStrong, v, k, j)
    ensures LastStrong(v, k, sos) == ClassAt(v, j, sos)
    decreases k
  {
    if j + 1 < k {
      StrongIsLast(v, k - 1, sos, j);
    }
  }

  lemma {:induction false} DirectionIsLast(v: Classes, k: nat, sos: BidiClass, j: int)
    requires k <= |v| && Last(AtDirection, v, k, j)
    ensures LastDirection(v, k, sos) == ClassAt(v, j, sos)
    decreases k
  {
    if j + 1 < k {
      DirectionIsLast(v, k - 1, sos, j);
    }
  }

  lemma {:induction false} PrevSigIsLast(v: Classes, k: nat, j: int)
    requires k <= |v| && Last(AtKept, v, k, j)
    ensures PrevSig(v, k) == if j < 0 then None else Some(v[j])
    decreases k
  {
    if j + 1 < k {
      PrevSigIsLast(v, k - 1, j);
    }
  }

  lemma {:induction false} NextSigIsFirst(v: Classes, k: nat, j: int)
    requires k <= |v| && First(AtKept, v, k, j)
    ensures NextSig(v, k) == if j == |v| then None else Some(v[j])
    decreases |v| - k
  {
    if k < j {
      NextSigIsFirst(v, k + 1, j);
    }
  }

  /** The direction a character shows to neutrals: numbers count as R. */
  function Shows(bc: BidiClass): BidiClass {
    match bc
    case L => L
    case R | EN | AN => R
    case _ => ON
  }

  lemma {:induction false} PrevSideIsLast(v: Classes, k: nat, sos: BidiClass, j: int)
    requires k <= |v| && Last(AtSide, v, k, j) && (sos.L? || sos.R?)
    ensures PrevSide(v, k, sos) == Shows(ClassAt(v, j, sos))
    decreases k
  {
    if j + 1 < k {
      PrevSideIsLast(v, k - 1, sos, j);
    }
  }

  lemma {:induction false} NextSideIsFirst(v: Classes, k: nat, eos: BidiClass, j: int)
    requires k <= |v| && First(AtSide, v, k, j) && (eos.L? || eos.R?)
    ensures NextSide(v, k, eos) == Shows(ClassAt(v, j, eos))
    decreases |v| - k
  {
    if k < j {
      NextSideIsFirst(v, k + 1, eos, j);
    }
  }

  // ----- W1 to W7 -----

  /** W1: a mark takes the class of the last character that is neither a mark nor deleted, or sos. */
  lemma W1States(v: Classes, sos: BidiClass, k: nat, j: int)
    requires k < |v| && Last(AtBase, v, k, j)
    ensures W1(v, sos)[k] == if v[k].NSM? then ClassAt(v, j, sos) else v[k]
  {
    BaseIsLast(v, k, sos, j);
  }

  /** W2: a European number becomes AN exactly if the last strong character is AL. */
  lemma W2States(v: Classes, sos: BidiClass, k: nat, j: int)
    requires k < |v| && Last(AtStrong, v, k, j) && (sos.L? || sos.R?)
    ensures W2(v, sos)[k] == if v[k].EN? && j >= 0 && v[j].AL? then AN else v[k]
  {
    StrongIsLast(v, k, sos, j);
  }

  lemma W3States(v: Classes, k: nat)
    requires k < |v|
    ensures W3(v)[k] == if v[k].AL? then R else v[k]
  {
  }

  /** W4: a single separator between two European numbers becomes EN, a common separator between two
      Arabic numbers AN. */
  lemma W4States(v: Classes, k: nat, a: int, b: int)
    requires k < |v| && Last(AtKept, v, k, a) && First(AtKept, v, k + 1, b)
    ensures W4(v)[k]
         == if a < 0 || b == |v| then v[k]
            else if (v[k].ES? || v[k].CS?) && v[a].EN? && v[b].EN? then EN
            else if v[k].CS? && v[a].AN? && v[b].AN? then AN
            else v[k]
  {
    PrevSigIsLast(v, k, a);
    NextSigIsFirst(v, k + 1, b);
  }

  /** W5: a terminator becomes EN exactly if the stretch of terminators around it touches a European
      number. */
  lemma W5States(v: Classes, k: nat, a: int, b: int)
    requires k < |v| && Last(AtNonTerminator, v, k, a) && First(AtNonTerminator, v, k + 1, b)
    ensures W5(v)[k] == if v[k].ET? && ((a >= 0 && v[a].EN?) || (b < |v| && v[b].EN?)) then EN else v[k]
  {
    if v[k].ET? {
      if a >= 0 && v[a].EN? {
        assert Bridge(v, a, k) && Bridge(v, k, a);
        assert Touched(v, k, |v|);
      }
      if b < |v| && v[b].EN? {
        assert Bridge(v, b, k) && Bridge(v, k, b);
        assert Touched(v, k, |v|);
      }
      if m: nat :| m < |v| && v[m].EN? && Bridge(v, m, k) && Bridge(v, k, m) {
        assert m == a || m == b;
      }
    }
  }

  /** W6: remaining separators and terminators become ON. */
  lemma W6States(v: Classes, k: nat)
    requires k < |v|
    ensures W6(v)[k] == if v[k].ES? || v[k].CS? || v[k].ET? then ON else v[k]
  {
  }

  /** W7: a European number becomes L exactly if the last L or R is an L, or there is none and sos is
      L. */
  lemma W7States(v: Classes, sos: BidiClass, k: nat, j: int)
    requires k < |v| && Last(AtDirection, v, k, j)
    ensures W7(v, sos)[k] == if v[k].EN? && (if j >= 0 then v[j].L? else sos.L?) then L else v[k]
  {
    DirectionIsLast(v, k, sos, j);
  }

  // ----- N1, N2 -----

  lemma N1Outcome(v: Classes, sos: BidiClass, eos: BidiClass, k: nat, before: BidiClass, behind: BidiClass)
    requires k < |v| && before == PrevSide(v, k, sos) && behind == NextSide(v, k + 1, eos)
    requires before in {L, R, ON} && behind in {L, R, ON}
    ensures N1(v, sos, eos)[k] == if NeutralOrIsolate(v[k]) && before == behind && before != ON then before else v[k]
  {
    assert IsNeutral(v[k]) <==> NeutralOrIsolate(v[k]);
  }

  /** N1: a neutral takes the direction that the text on both sides of its stretch shows, if it is
      the same; numbers show R, and sos and eos stand in at the ends. */
  lemma N1States(v: Classes, sos: BidiClass, eos: BidiClass, k: nat, a: int, b: int)
    requires k < |v| && (sos.L? || sos.R?) && (eos.L? || eos.R?)
    requires Last(AtSide, v, k, a) && First(AtSide, v, k + 1, b)
    ensures var before, behind := Shows(ClassAt(v, a, sos)), Shows(ClassAt(v, b, eos));
            N1(v, sos, eos)[k]
            == if NeutralOrIsolate(v[k]) && before == behind && before != ON then before else v[k]
  {
    PrevSideIsLast(v, k, sos, a);
    NextSideIsFirst(v, k + 1, eos, b);
    N1Outcome(v, sos, eos, k, Shows(ClassAt(v, a, sos)), Shows(ClassAt(v, b, eos)));
  }

  /** N2: what is left takes the embedding direction. */
  lemma N2States(v: Classes, level: Level, k: nat)
    requires k < |v| && 0 <= level
    ensures N2(v, level)[k] == if !NeutralOrIsolate(v[k]) then v[k] else if level % 2 == 1 then R else L
  {
  }

  /** The order of the rules on one sequence. */
  lemma RulesInOrder(chain: IsolatingRunSequence, v: Classes)
    ensures RewriteAll(WEAK_PASSES, chain, v, |WEAK_PASSES|)
         == W7(W6(W5(W4(W3(W2(W1(v, chain.sos), chain.sos))))), chain.sos)
    ensures RewriteAll(NEUTRAL_PASSES, chain, v, |NEUTRAL_PASSES|) == N2(N1(v, chain.sos, chain.eos), chain.level)
  {
    var w1 := W1(v, chain.sos);
    assert RewriteAll(WEAK_PASSES, chain, v, 1) == w1;
    var w2 := W2(w1, chain.sos);
    assert RewriteAll(WEAK_PASSES, chain, v, 2) == w2;
    var w4 := W4(W3(w2));
    assert RewriteAll(WEAK_PASSES, chain, v, 3) == W3(w2);
    assert RewriteAll(WEAK_PASSES, chain, v, 4) == w4;
    var w6 := W6(W5(w4));
    assert RewriteAll(WEAK_PASSES, chain, v, 5) == W5(w4);
    assert RewriteAll(WEAK_PASSES, chain, v, 6) == w6;
    assert RewriteAll(NEUTRAL_PASSES, chain, v, 1) == N1(v, chain.sos, chain.eos);
  }

  // ----- I1, I2 -----

  /** n is the least number from `from` on with the parity of `odd`. */
  predicate LeastOfParity(n: int, from: int, odd: bool) {
    from <= n && (n % 2 == 1 <==> odd) && forall m :: from <= m < n ==> m % 2 != n % 2
  }

  /** I1 and I2: R goes to the least odd level from its own on, L to the least even one, and a number
      to the least even one above its own, or at an odd level above it. */
  lemma ImplicitStates(level: Level, bc: BidiClass)
    requires 0 <= level
    ensures bc.R? ==> LeastOfParity(ImplicitLevel(level, bc), level, true)
    ensures bc.L? ==> LeastOfParity(ImplicitLevel(level, bc), level, false)
    ensures bc.EN? || bc.AN? ==> LeastOfParity(ImplicitLevel(level, bc), level + 1, false)
  {
  }
}
