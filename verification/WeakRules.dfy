/** Rules W1 to W7 of UAX #9 as simultaneous rules over one text chain: every result is
    computed from the classes before the rule. Removed characters are skipped throughout. */
module WeakRules {
  import opened Wrappers
  import opened BidiTypes

  type Classes = seq<BidiClass>

  // ----- looking around a position -----

  /** The class of the nearest earlier character that is not removed. */
  function PrevSig(t: Classes, k: nat): Option<BidiClass>
    requires k <= |t|
  {
    if k == 0 then None
    else if IsRemovedClass(t[k - 1]) then PrevSig(t, k - 1)
    else Some(t[k - 1])
  }

  /** The class of the nearest character from k on that is not removed. */
  function NextSig(t: Classes, k: nat): Option<BidiClass>
    requires k <= |t|
    decreases |t| - k
  {
    if k == |t| then None
    else if IsRemovedClass(t[k]) then NextSig(t, k + 1)
    else Some(t[k])
  }

  /** The nearest earlier strong class, or sos. */
  function LastStrong(t: Classes, k: nat, sos: BidiClass): BidiClass
    requires k <= |t|
  {
    if k == 0 then sos
    else if IsStrong(t[k - 1]) then t[k - 1]
    else LastStrong(t, k - 1, sos)
  }

  /** The nearest earlier L or R, or sos. */
  function LastDirection(t: Classes, k: nat, sos: BidiClass): BidiClass
    requires k <= |t|
  {
    if k == 0 then sos
    else if t[k - 1].L? || t[k - 1].R? then t[k - 1]
    else LastDirection(t, k - 1, sos)
  }

  /** The class a nonspacing mark at k attaches to: that of the nearest earlier character
      that is neither a mark nor removed, or sos. */
  function BaseClass(t: Classes, k: nat, sos: BidiClass): BidiClass
    requires k <= |t|
  {
    if k == 0 then sos
    else if t[k - 1].NSM? || IsRemovedClass(t[k - 1]) then BaseClass(t, k - 1, sos)
    else t[k - 1]
  }

  /** Only European terminators and removed characters lie strictly between a and b. */
  predicate Bridge(t: Classes, a: nat, b: nat) {
    forall x :: a < x < b && x < |t| ==> t[x].ET? || IsRemovedClass(t[x])
  }

  /** A European number among the first n characters touches the run of terminators of k. */
  ghost predicate Touched(t: Classes, k: nat, n: nat)
    requires k < |t| && n <= |t|
  {
    exists m :: 0 <= m < n && t[m].EN? && Bridge(t, m, k) && Bridge(t, k, m)
  }

  // ----- the rules -----

  function W1At(t: Classes, k: nat, sos: BidiClass): BidiClass
    requires k < |t|
  {
    if t[k].NSM? then BaseClass(t, k, sos) else t[k]
  }

  /** W1 as UAX #9 has it: next to an isolate initiator or a PDI a mark becomes ON. The code has
      no such case. */
  function UaxW1At(t: Classes, k: nat, sos: BidiClass): BidiClass
    requires k < |t|
  {
    if t[k].NSM? && IsIsoControl(BaseClass(t, k, sos)) then ON else W1At(t, k, sos)
  }

  function W2At(t: Classes, k: nat, sos: BidiClass): BidiClass
    requires k < |t|
  {
    if t[k].EN? && LastStrong(t, k, sos).AL? then AN else t[k]
  }

  function W3At(t: Classes, k: nat): BidiClass
    requires k < |t|
  {
    if t[k].AL? then R else t[k]
  }

  predicate Between(t: Classes, k: nat, bc: BidiClass)
    requires k < |t|
  {
    PrevSig(t, k) == Some(bc) && NextSig(t, k + 1) == Some(bc)
  }

  function W4At(t: Classes, k: nat): BidiClass
    requires k < |t|
  {
    if (t[k].ES? || t[k].CS?) && Between(t, k, EN) then EN
    else if t[k].CS? && Between(t, k, AN) then AN
    else t[k]
  }

  ghost function W5At(t: Classes, k: nat): BidiClass
    requires k < |t|
  {
    if t[k].ET? && Touched(t, k, |t|) then EN else t[k]
  }

  function W6At(t: Classes, k: nat): BidiClass
    requires k < |t|
  {
    if t[k].ES? || t[k].CS? || t[k].ET? then ON else t[k]
  }

  function W7At(t: Classes, k: nat, sos: BidiClass): BidiClass
    requires k < |t|
  {
    if t[k].EN? && LastDirection(t, k, sos).L? then L else t[k]
  }

  function W1(t: Classes, sos: BidiClass): Classes {
    seq(|t|, k requires 0 <= k < |t| => W1At(t, k, sos))
  }

  function UaxW1(t: Classes, sos: BidiClass): Classes {
    seq(|t|, k requires 0 <= k < |t| => UaxW1At(t, k, sos))
  }

  function W2(t: Classes, sos: BidiClass): Classes {
    seq(|t|, k requires 0 <= k < |t| => W2At(t, k, sos))
  }

  function W3(t: Classes): Classes {
    seq(|t|, k requires 0 <= k < |t| => W3At(t, k))
  }

  function W4(t: Classes): Classes {
    seq(|t|, k requires 0 <= k < |t| => W4At(t, k))
  }

  ghost function W5(t: Classes): Classes {
    seq(|t|, k requires 0 <= k < |t| => W5At(t, k))
  }

  function W6(t: Classes): Classes {
    seq(|t|, k requires 0 <= k < |t| => W6At(t, k))
  }

  function W7(t: Classes, sos: BidiClass): Classes {
    seq(|t|, k requires 0 <= k < |t| => W7At(t, k, sos))
  }

  // ----- why the in-place passes compute them -----

  /** The nearest strong class depends only on the strong classes before k. */
  lemma {:induction false} LastStrongSame(t: Classes, v: Classes, k: nat, sos: BidiClass)
    requires |v| == |t| && k <= |t|
    requires forall j :: 0 <= j < k ==> v[j] == t[j] || (!IsStrong(v[j]) && !IsStrong(t[j]))
    ensures LastStrong(v, k, sos) == LastStrong(t, k, sos)
  {
    if k > 0 && !IsStrong(t[k - 1]) {
      LastStrongSame(t, v, k - 1, sos);
    }
  }

  lemma {:induction false} LastDirectionSame(t: Classes, v: Classes, k: nat, sos: BidiClass)
    requires |v| == |t| && k <= |t| && forall j :: 0 <= j < k ==> v[j] == t[j]
    ensures LastDirection(v, k, sos) == LastDirection(t, k, sos)
  {
    if k > 0 {
      LastDirectionSame(t, v, k - 1, sos);
    }
  }

  lemma {:induction false} NextSigSame(t: Classes, v: Classes, k: nat)
    requires |v| == |t| && k <= |t| && forall j :: k <= j < |t| ==> v[j] == t[j]
    ensures NextSig(v, k) == NextSig(t, k)
    decreases |t| - k
  {
    if k < |t| {
      NextSigSame(t, v, k + 1);
    }
  }

  /** Only removed characters lie between a position and the next significant one. */
  lemma {:induction false} NextSigIs(t: Classes, j: nat, k: nat)
    requires j <= k < |t| && !IsRemovedClass(t[k]) && forall x :: j <= x < k ==> IsRemovedClass(t[x])
    ensures NextSig(t, j) == Some(t[k])
    decreases k - j
  {
    if j < k {
      NextSigIs(t, j + 1, k);
    }
  }

  /** W4 never cascades: the character before a separator is never itself a separator that
      W4 has changed, so the forward in-place pass sees the original classes. */
  lemma {:induction false} W4NoCascade(t: Classes, v: Classes, j: nat, k: nat)
    requires |v| == |t| && j <= k < |t| && (t[k].ES? || t[k].CS?)
    requires forall x :: 0 <= x < k ==> v[x] == W4At(t, x)
    requires forall x :: j <= x < k ==> IsRemovedClass(t[x])
    ensures PrevSig(v, j) == PrevSig(t, j)
  {
    if j > 0 {
      if IsRemovedClass(t[j - 1]) {
        W4NoCascade(t, v, j - 1, k);
      } else {
        NextSigIs(t, j, k);
      }
    }
  }

  lemma W4InPlace(t: Classes, v: Classes, k: nat)
    requires |v| == |t| && k < |t|
    requires forall x :: 0 <= x < k ==> v[x] == W4At(t, x)
    requires forall x :: k <= x < |t| ==> v[x] == t[x]
    ensures W4At(v, k) == W4At(t, k)
  {
    if t[k].ES? || t[k].CS? {
      W4NoCascade(t, v, k, k);
      NextSigSame(t, v, k + 1);
    }
  }

  lemma W2InPlace(t: Classes, v: Classes, k: nat, sos: BidiClass)
    requires |v| == |t| && k < |t| && v[k] == t[k]
    requires forall x :: 0 <= x < k ==> v[x] == W2At(t, x, sos)
    ensures W2At(v, k, sos) == W2At(t, k, sos)
  {
    LastStrongSame(t, v, k, sos);
  }

  lemma W7InPlace(t: Classes, v: Classes, k: nat, sos: BidiClass)
    requires |v| == |t| && k < |t| && forall x :: 0 <= x <= k ==> v[x] == t[x]
    ensures W7At(v, k, sos) == W7At(t, k, sos)
  {
    LastDirectionSame(t, v, k, sos);
  }

  /** The terminators of one run are touched by the same numbers: W5 treats them alike. */
  lemma TouchedAlike(t: Classes, j: nat, k: nat, n: nat)
    requires j < |t| && k < |t| && n <= |t| && t[j].ET? && t[k].ET?
    requires Bridge(t, j, k) && Bridge(t, k, j)
    ensures Touched(t, j, n) <==> Touched(t, k, n)
  {
    if Touched(t, j, n) {
      var m :| 0 <= m < n && t[m].EN? && Bridge(t, m, j) && Bridge(t, j, m);
      assert Bridge(t, m, k) && Bridge(t, k, m);
    }
    if Touched(t, k, n) {
      var m :| 0 <= m < n && t[m].EN? && Bridge(t, m, k) && Bridge(t, k, m);
      assert Bridge(t, m, j) && Bridge(t, j, m);
    }
  }

  /** The in-place pass of W5 after the first n positions. */
  ghost predicate W5UpTo(t: Classes, v: Classes, n: nat)
    requires n <= |t|
  {
    && |v| == |t|
    && forall j :: 0 <= j < |t| ==> v[j] == if t[j].ET? && Touched(t, j, n) then EN else t[j]
  }

  /** The terminators next to position k, reached over terminators and removed characters. */
  predicate Reached(v: Classes, j: nat, k: nat)
    requires j < |v|
  {
    j != k && v[j].ET? && Bridge(v, j, k) && Bridge(v, k, j)
  }

  /** What the two scans from an EN at k do: the terminators reached become EN. */
  predicate Spread(v: Classes, k: nat, v': Classes) {
    && |v'| == |v|
    && forall j :: 0 <= j < |v| ==> v'[j] == if Reached(v, j, k) then EN else v[j]
  }

  lemma W5Reaches(t: Classes, v: Classes, k: nat, j: nat)
    requires k < |t| && j < |t| && W5UpTo(t, v, k) && v[k].EN? && t[j].ET? && j != k
    ensures Touched(t, j, k + 1) <==> Touched(t, j, k) || Reached(v, j, k)
  {
    if Reached(v, j, k) {
      assert Bridge(t, j, k) && Bridge(t, k, j);
      if t[k].ET? {
        TouchedAlike(t, j, k, k);
      }
    }
    if Touched(t, j, k + 1) && !Touched(t, j, k) {
      assert t[k].EN? && Bridge(t, k, j) && Bridge(t, j, k);
      forall x | (j < x < k || k < x < j) && x < |t| ensures v[x].ET? || IsRemovedClass(v[x]) {
        if t[x].ET? {
          TouchedAlike(t, j, x, k);
        }
      }
    }
  }

  lemma W5Step(t: Classes, v: Classes, k: nat, v': Classes)
    requires k < |t| && W5UpTo(t, v, k)
    requires if v[k].EN? then Spread(v, k, v') else v' == v
    ensures W5UpTo(t, v', k + 1)
  {
    forall j | 0 <= j < |t| ensures v'[j] == if t[j].ET? && Touched(t, j, k + 1) then EN else t[j] {
      if t[j].ET? {
        if v[k].EN? && j != k {
          W5Reaches(t, v, k, j);
        }
        if t[k].ET? || !v[k].EN? {
          assert !t[k].EN?;
          assert Touched(t, j, k + 1) ==> Touched(t, j, k);
        }
      }
    }
  }
}
