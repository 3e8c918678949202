/** The scans the rules make from one position of a text chain, over the paragraph's own
    vectors. They change nothing. */
module ChainScans {
  import opened Wrappers
  import opened BidiTypes
  import opened LevelRuns
  import opened WeakRules
  import opened NeutralRules
  import opened TextChains

  /** Looks back for class bc, over removed characters only. */
  method IsPriorContext(types: Classes, levels: seq<Level>, indices: seq<nat>, k: nat, bc: BidiClass)
    returns (found: Option<nat>)
    requires Marked(types, levels) && InRange(indices, |types|) && k <= |indices| && !IsRemovedClass(bc)
    ensures found.Some? <==> PrevSig(View(types, indices), k) == Some(bc)
  {
    ghost var t := View(types, indices);
    var i := k;
    while i > 0
      invariant 0 <= i <= k && PrevSig(t, i) == PrevSig(t, k)
    {
      i := i - 1;
      var idx := indices[i];
      assert t[i] == types[idx];
      if types[idx] == bc {
        return Some(idx);
      }
      if levels[idx] != NO_LEVEL {
        return None;
      }
    }
    return None;
  }

  /** Looks ahead for class bc, over removed characters only. */
  method IsFollowingContext(types: Classes, levels: seq<Level>, indices: seq<nat>, k: nat, bc: BidiClass)
    returns (found: Option<nat>)
    requires Marked(types, levels) && InRange(indices, |types|) && k < |indices| && !IsRemovedClass(bc)
    ensures found.Some? <==> NextSig(View(types, indices), k + 1) == Some(bc)
  {
    ghost var t := View(types, indices);
    for i := k + 1 to |indices|
      invariant NextSig(t, i) == NextSig(t, k + 1)
    {
      var idx := indices[i];
      assert t[i] == types[idx];
      if types[idx] == bc {
        return Some(idx);
      }
      if levels[idx] != NO_LEVEL {
        return None;
      }
    }
    return None;
  }

  method IsInContext(types: Classes, levels: seq<Level>, indices: seq<nat>, k: nat, bc: BidiClass)
    returns (inContext: bool)
    requires Marked(types, levels) && InRange(indices, |types|) && k < |indices| && !IsRemovedClass(bc)
    ensures inContext <==> Between(View(types, indices), k, bc)
  {
    var prior := IsPriorContext(types, levels, indices, k, bc);
    var following := IsFollowingContext(types, levels, indices, k, bc);
    inContext := prior.Some? && following.Some?;
  }

  /** W2's backward scan for a strong class. */
  method FirstStrongBefore(types: Classes, indices: seq<nat>, k: nat, sos: BidiClass) returns (bc: BidiClass)
    requires InRange(indices, |types|) && k <= |indices|
    ensures bc == LastStrong(View(types, indices), k, sos)
  {
    ghost var t := View(types, indices);
    var i := k;
    while i > 0
      invariant 0 <= i <= k && LastStrong(t, i, sos) == LastStrong(t, k, sos)
    {
      i := i - 1;
      assert t[i] == types[indices[i]];
      if IsStrong(types[indices[i]]) {
        return types[indices[i]];
      }
    }
    return sos;
  }

  /** W7's backward scan for L or R. */
  method FirstDirectionBefore(types: Classes, indices: seq<nat>, k: nat, sos: BidiClass) returns (bc: BidiClass)
    requires InRange(indices, |types|) && k <= |indices|
    ensures bc == LastDirection(View(types, indices), k, sos)
  {
    ghost var t := View(types, indices);
    var i := k;
    while i > 0
      invariant 0 <= i <= k && LastDirection(t, i, sos) == LastDirection(t, k, sos)
    {
      i := i - 1;
      assert t[i] == types[indices[i]];
      if types[indices[i]].L? || types[indices[i]].R? {
        return types[indices[i]];
      }
    }
    return sos;
  }

  method IsPriorContextLeft(types: Classes, levels: seq<Level>, indices: seq<nat>, k: nat, sos: BidiClass)
    returns (left: bool)
    requires Marked(types, levels) && InRange(indices, |types|) && k <= |indices|
    ensures left <==> PrevSide(View(types, indices), k, sos).L?
  {
    ghost var t := View(types, indices);
    var i := k;
    while i > 0
      invariant 0 <= i <= k && PrevSide(t, i, sos) == PrevSide(t, k, sos)
    {
      i := i - 1;
      var idx := indices[i];
      assert t[i] == types[idx];
      if types[idx].L? {
        return true;
      }
      if levels[idx] != NO_LEVEL && !IsNeutral(types[idx]) {
        return false;
      }
    }
    return sos.L?;
  }

  method IsPriorContextRight(types: Classes, levels: seq<Level>, indices: seq<nat>, k: nat, sos: BidiClass)
    returns (right: bool)
    requires Marked(types, levels) && InRange(indices, |types|) && k <= |indices|
    ensures right <==> PrevSide(View(types, indices), k, sos).R?
  {
    ghost var t := View(types, indices);
    var i := k;
    while i > 0
      invariant 0 <= i <= k && PrevSide(t, i, sos) == PrevSide(t, k, sos)
    {
      i := i - 1;
      var idx := indices[i];
      assert t[i] == types[idx];
      if types[idx].R? || types[idx].AN? || types[idx].EN? {
        return true;
      }
      if levels[idx] != NO_LEVEL && !IsNeutral(types[idx]) {
        return false;
      }
    }
    return sos.R?;
  }

  method IsFollowingContextLeft(types: Classes, levels: seq<Level>, indices: seq<nat>, k: nat, eos: BidiClass)
    returns (left: bool)
    requires Marked(types, levels) && InRange(indices, |types|) && k < |indices|
    ensures left <==> NextSide(View(types, indices), k + 1, eos).L?
  {
    ghost var t := View(types, indices);
    for i := k + 1 to |indices|
      invariant NextSide(t, i, eos) == NextSide(t, k + 1, eos)
    {
      var idx := indices[i];
      assert t[i] == types[idx];
      if types[idx].L? {
        return true;
      }
      if levels[idx] != NO_LEVEL && !IsNeutral(types[idx]) {
        return false;
      }
    }
    return eos.L?;
  }

  method IsFollowingContextRight(types: Classes, levels: seq<Level>, indices: seq<nat>, k: nat, eos: BidiClass)
    returns (right: bool)
    requires Marked(types, levels) && InRange(indices, |types|) && k < |indices|
    ensures right <==> NextSide(View(types, indices), k + 1, eos).R?
  {
    ghost var t := View(types, indices);
    for i := k + 1 to |indices|
      invariant NextSide(t, i, eos) == NextSide(t, k + 1, eos)
    {
      var idx := indices[i];
      assert t[i] == types[idx];
      if types[idx].R? || types[idx].AN? || types[idx].EN? {
        return true;
      }
      if levels[idx] != NO_LEVEL && !IsNeutral(types[idx]) {
        return false;
      }
    }
    return eos.R?;
  }
}
