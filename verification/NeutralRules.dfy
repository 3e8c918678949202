/** Rules N1 and N2 of UAX #9 as simultaneous rules over one text chain. */
module NeutralRules {
  import opened BidiTypes
  import opened WeakRules

  /** The direction a class shows its neighbours: numbers count as R. */
  function Side(bc: BidiClass): BidiClass {
    if bc.L? then L
    else if bc.R? || bc.EN? || bc.AN? then R
    else ON
  }

  predicate Transparent(bc: BidiClass) {
    IsNeutral(bc) || IsRemovedClass(bc)
  }

  /** The side shown by the nearest earlier character that is neither neutral nor removed. */
  function PrevSide(t: Classes, k: nat, sos: BidiClass): BidiClass
    requires k <= |t|
  {
    if k == 0 then sos
    else if Transparent(t[k - 1]) then PrevSide(t, k - 1, sos)
    else Side(t[k - 1])
  }

  /** The side shown by the nearest such character from k on. */
  function NextSide(t: Classes, k: nat, eos: BidiClass): BidiClass
    requires k <= |t|
    decreases |t| - k
  {
    if k == |t| then eos
    else if Transparent(t[k]) then NextSide(t, k + 1, eos)
    else Side(t[k])
  }

  function N1At(t: Classes, k: nat, sos: BidiClass, eos: BidiClass): BidiClass
    requires k < |t|
  {
    if IsNeutral(t[k]) && PrevSide(t, k, sos).L? && NextSide(t, k + 1, eos).L? then L
    else if IsNeutral(t[k]) && PrevSide(t, k, sos).R? && NextSide(t, k + 1, eos).R? then R
    else t[k]
  }

  function N2At(t: Classes, k: nat, level: Level): BidiClass
    requires k < |t|
  {
    if IsNeutral(t[k]) then ClassOfLevel(level) else t[k]
  }

  function N1(t: Classes, sos: BidiClass, eos: BidiClass): Classes {
    seq(|t|, k requires 0 <= k < |t| => N1At(t, k, sos, eos))
  }

  function N2(t: Classes, level: Level): Classes {
    seq(|t|, k requires 0 <= k < |t| => N2At(t, k, level))
  }

  /** Resolving the neutrals from k on does not change what an earlier neutral sees ahead,
      which is why the backward in-place pass computes the simultaneous rule. */
  lemma {:induction false} N1KeepsNextSide(t: Classes, v: Classes, k: nat, sos: BidiClass, eos: BidiClass)
    requires |v| == |t| && k <= |t|
    requires forall j :: k <= j < |t| ==> v[j] == N1At(t, j, sos, eos)
    ensures NextSide(v, k, eos) == NextSide(t, k, eos)
    decreases |t| - k
  {
    if k < |t| {
      N1KeepsNextSide(t, v, k + 1, sos, eos);
    }
  }

  lemma {:induction false} PrevSideLocal(t: Classes, v: Classes, k: nat, sos: BidiClass)
    requires |v| == |t| && k <= |t| && t[..k] == v[..k]
    ensures PrevSide(v, k, sos) == PrevSide(t, k, sos)
  {
    if k > 0 {
      assert t[k - 1] == t[..k][k - 1] == v[k - 1];
      assert t[..k - 1] == t[..k][..k - 1] == v[..k - 1];
      PrevSideLocal(t, v, k - 1, sos);
    }
  }

  lemma N1InPlace(t: Classes, v: Classes, k: nat, sos: BidiClass, eos: BidiClass)
    requires |v| == |t| && k < |t|
    requires forall j :: 0 <= j <= k ==> v[j] == t[j]
    requires forall j :: k < j < |t| ==> v[j] == N1At(t, j, sos, eos)
    ensures N1At(v, k, sos, eos) == N1At(t, k, sos, eos)
  {
    assert v[..k] == t[..k];
    PrevSideLocal(t, v, k, sos);
    N1KeepsNextSide(t, v, k + 1, sos, eos);
  }

  /** N1 gives all neutrals of one maximal run the same answer: both ends of a stretch of
      neutral and removed characters see the same sides. */
  lemma {:induction false} N1RunUniform(t: Classes, a: nat, b: nat, sos: BidiClass, eos: BidiClass)
    requires a <= b < |t| && IsNeutral(t[a]) && IsNeutral(t[b])
    requires forall k :: a <= k <= b ==> Transparent(t[k])
    ensures PrevSide(t, a, sos) == PrevSide(t, b, sos)
    ensures NextSide(t, a + 1, eos) == NextSide(t, b + 1, eos)
    ensures var da, db := N1At(t, a, sos, eos), N1At(t, b, sos, eos);
            (da == db && (da.L? || da.R?)) || (da == t[a] && db == t[b])
  {
    SidesAcross(t, a, b, sos, eos);
  }

  lemma {:induction false} SidesAcross(t: Classes, a: nat, b: nat, sos: BidiClass, eos: BidiClass)
    requires a <= b < |t| && forall k :: a <= k <= b ==> Transparent(t[k])
    ensures PrevSide(t, a, sos) == PrevSide(t, b, sos)
    ensures NextSide(t, a + 1, eos) == NextSide(t, b + 1, eos)
    decreases b - a
  {
    if a < b {
      SidesAcross(t, a, b - 1, sos, eos);
    }
  }
}
