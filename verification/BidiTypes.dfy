/** Bidi classes, directions and embedding levels: the values every pass of the
    Unicode Bidirectional Algorithm (UAX #9) works on. */
module BidiTypes {

  import opened Wrappers

  /** The bidirectional character types of UAX #9, table 4, under their standard short names. */
  datatype BidiClass =
    | AL | AN | BN | CS | EN | ES | ET | FSI | L | LRE | LRI | LRO | NSM | ON | B
    | PDF | PDI | R | RLE | RLI | RLO | S | WS

  datatype Direction = LTR | RTL {
    function Opposite(): Direction {
      if this == LTR then RTL else LTR
    }

    function AsBidiClass(): BidiClass {
      if this == LTR then L else R
    }
  }

  datatype ParagraphDirectionHint = LeftToRight | RightToLeft | AutoLeftToRight | AutoRightToLeft

  /** A level is the source's `i8`; every level the model produces stays within -1..126. */
  type Level = int

  const MAX_DEPTH := 125

  /** The level of a character removed by rule X9. */
  const NO_LEVEL: Level := -1

  /** The source's `level % 2 == 1`: its remainder truncates, so -1 is not odd. */
  predicate IsOdd(level: Level) {
    level >= 0 && level % 2 == 1
  }

  function DirectionOf(level: Level): Direction {
    if IsOdd(level) then RTL else LTR
  }

  function ClassOfLevel(level: Level): BidiClass {
    if IsOdd(level) then R else L
  }

  function MaxLevel(a: Level, b: Level): Level {
    if a >= b then a else b
  }

  /** The next level of the given parity, unless it would exceed MAX_DEPTH. */
  function LeastGreater(level: Level, odd: bool): (next: Option<Level>)
    requires 0 <= level <= MAX_DEPTH
    ensures next.Some? ==> level < next.value <= MAX_DEPTH && IsOdd(next.value) == odd
  {
    var candidate := if IsOdd(level) == odd then level + 2 else level + 1;
    if candidate > MAX_DEPTH then None else Some(candidate)
  }

  /** It is the least such level, and absent only if there is none. */
  lemma LeastGreaterIsLeast(level: Level, odd: bool, m: Level)
    requires 0 <= level < m <= MAX_DEPTH && IsOdd(m) == odd
    ensures LeastGreater(level, odd).Some? && LeastGreater(level, odd).value <= m
  {
  }

  predicate IsIsoInit(bc: BidiClass) {
    bc.RLI? || bc.LRI? || bc.FSI?
  }

  predicate IsIsoControl(bc: BidiClass) {
    IsIsoInit(bc) || bc.PDI?
  }

  predicate IsNeutral(bc: BidiClass) {
    bc.ON? || bc.WS? || bc.S? || bc.B? || IsIsoControl(bc)
  }

  /** The classes rule X9 removes from the text. */
  predicate IsRemovedClass(bc: BidiClass) {
    bc.RLE? || bc.LRE? || bc.RLO? || bc.LRO? || bc.PDF? || bc.BN?
  }

  /** The strong classes, the ones rules P2 and W2 look for. */
  predicate IsStrong(bc: BidiClass) {
    bc.L? || bc.R? || bc.AL?
  }
}
