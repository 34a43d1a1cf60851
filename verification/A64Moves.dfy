// Constants on AArch64: sequences of MOVZ, MOVN and MOVK.
module A64Moves {
  import opened Words
  import opened A64Instr
  import opened A64Machine

  const ONES := 0xffff

  /** Lanes from `lane` on whose chunk differs from c. */
  function Differing(uv: U64, lane: nat, lanes: nat, c: int): nat
    decreases lanes - lane
  {
    if lane >= lanes then 0 else (if Lane(uv, lane) != c then 1 else 0) + Differing(uv, lane + 1, lanes, c)
  }

  /** Later lanes of a sequence, when the register holds the filler c in every lane not
      written yet. */
  function Keeps(x: bool, rd: RegNo, uv: U64, lane: nat, lanes: nat, c: int): seq<Instr>
    decreases lanes - lane
  {
    if lane >= lanes then []
    else if Lane(uv, lane) == c then Keeps(x, rd, uv, lane + 1, lanes, c)
    else [MoveWide(x, MovK, lane, Lane(uv, lane), rd)] + Keeps(x, rd, uv, lane + 1, lanes, c)
  }

  /** The inverted strategy, before the first lane has been written. */
  function Inverted(x: bool, rd: RegNo, uv: U64, lane: nat, lanes: nat): seq<Instr>
    decreases lanes - lane
  {
    if lane >= lanes then [MoveWide(x, MovN, 0, 0, rd)]
    else if Lane(uv, lane) == ONES then Inverted(x, rd, uv, lane + 1, lanes)
    else [MoveWide(x, MovN, lane, ONES - Lane(uv, lane), rd)] + Keeps(x, rd, uv, lane + 1, lanes, ONES)
  }

  function Direct(x: bool, rd: RegNo, uv: U64, lanes: nat): seq<Instr> {
    [MoveWide(x, MovZ, 0, Lane(uv, 0), rd)] + Keeps(x, rd, uv, 1, lanes, 0)
  }

  /** A negative or large constant is always moved at 64 bits. */
  predicate NeedsX(wide: bool, value: int) { wide || value >= P32 || value < 0 }

  function MovCode(wide: bool, rd: RegNo, value: int): seq<Instr> {
    var x := NeedsX(wide, value);
    var (uv, lanes) := (value % P64, if x then 4 else 2);
    if Differing(uv, 0, lanes, ONES) < Differing(uv, 0, lanes, 0) then Inverted(x, rd, uv, 0, lanes)
    else Direct(x, rd, uv, lanes)
  }

  // ---- Numbers as four lanes ----

  function Of4(a: nat, b: nat, c: nat, d: nat): nat { a + P16 * b + P32 * c + P48 * d }

  predicate IsLane(a: nat) { a < P16 }

  lemma LanesOf4(a: nat, b: nat, c: nat, d: nat)
    requires IsLane(a) && IsLane(b) && IsLane(c) && IsLane(d)
    ensures var v := Of4(a, b, c, d); v < P64 && Lane(v, 0) == a && Lane(v, 1) == b && Lane(v, 2) == c && Lane(v, 3) == d
  {
    var v := Of4(a, b, c, d);
    assert v / P16 == b + P16 * c + P32 * d;
    assert v / P32 == c + P16 * d;
  }

  lemma FourLanes(v: U64)
    ensures v == Of4(Lane(v, 0), Lane(v, 1), Lane(v, 2), Lane(v, 3))
  {
    var q := v / P16;
    assert v / P32 == q / P16 && v / P48 == q / P16 / P16;
  }

  function FillLane(uv: U64, k: nat, lanes: nat, c: nat, j: nat): nat {
    if j < k then Lane(uv, j) else if j < lanes then c else 0
  }

  /** The first k lanes of uv, then the filler up to `lanes`. */
  function Filled(uv: U64, k: nat, lanes: nat, c: nat): nat {
    Of4(FillLane(uv, k, lanes, c, 0), FillLane(uv, k, lanes, c, 1), FillLane(uv, k, lanes, c, 2), FillLane(uv, k, lanes, c, 3))
  }

  lemma FilledLanes(uv: U64, k: nat, lanes: nat, c: nat)
    requires IsLane(c)
    ensures var v := Filled(uv, k, lanes, c); v < P64 && forall j :: 0 <= j < 4 ==> Lane(v, j) == FillLane(uv, k, lanes, c, j)
    ensures lanes == 2 >= k ==> Filled(uv, k, lanes, c) < P32
  {
    LanesOf4(FillLane(uv, k, lanes, c, 0), FillLane(uv, k, lanes, c, 1), FillLane(uv, k, lanes, c, 2), FillLane(uv, k, lanes, c, 3));
  }

  ghost function Holding(s: State, rd: RegNo, v: U64): State
    requires rd != 31
  {
    s.(regs := s.regs[rd := v])
  }

  predicate Lanes(x: bool, lanes: nat) { lanes == if x then 4 else 2 }

  lemma KeepNumber(uv: U64, k: nat, lanes: nat, c: nat)
    requires k < lanes <= 4 && IsLane(c)
    ensures Moved(MovK, k, Lane(uv, k), Filled(uv, k, lanes, c)) == Filled(uv, k + 1, lanes, c)
  {
    hide Lane;
    FilledLanes(uv, k, lanes, c);
    assert Lane(Filled(uv, k, lanes, c), k) == c;
  }

  /** One MOVK puts the next chunk over the filler. */
  lemma KeepStep(x: bool, rd: RegNo, uv: U64, k: nat, lanes: nat, c: nat, s: State)
    requires rd != 31 && Lanes(x, lanes) && k < lanes && IsLane(c) && s.regs[rd] == Filled(uv, k, lanes, c)
    ensures var i := MoveWide(x, MovK, k, Lane(uv, k), rd);
      && Filled(uv, k + 1, lanes, c) < P64
      && Straight(i) && Exec(i, s) == Holding(s, rd, Filled(uv, k + 1, lanes, c))
  {
    hide Filled, Lane, Moved;
    FilledLanes(uv, k, lanes, c);
    FilledLanes(uv, k + 1, lanes, c);
    KeepNumber(uv, k, lanes, c);
  }

  lemma SkipStep(uv: U64, k: nat, lanes: nat, c: nat)
    requires k < lanes && Lane(uv, k) == c
    ensures Filled(uv, k + 1, lanes, c) == Filled(uv, k, lanes, c)
  {
  }

  lemma {:induction false} KeepsMeaning(x: bool, rd: RegNo, uv: U64, k: nat, lanes: nat, c: nat, s: State)
    requires rd != 31 && Lanes(x, lanes) && k <= lanes && IsLane(c) && s.regs[rd] == Filled(uv, k, lanes, c)
    ensures var code := Keeps(x, rd, uv, k, lanes, c);
      && StraightCode(code) && Filled(uv, lanes, lanes, c) < P64
      && Run(code, s) == Holding(s, rd, Filled(uv, lanes, lanes, c))
    decreases lanes - k
  {
    hide Filled, Exec;
    FilledLanes(uv, lanes, lanes, c);
    if k == lanes {
      assert s.regs[rd := s.regs[rd]] == s.regs;
    } else if Lane(uv, k) == c {
      SkipStep(uv, k, lanes, c);
      KeepsMeaning(x, rd, uv, k + 1, lanes, c, s);
    } else {
      var i := MoveWide(x, MovK, k, Lane(uv, k), rd);
      KeepStep(x, rd, uv, k, lanes, c, s);
      KeepsMeaning(x, rd, uv, k + 1, lanes, c, Exec(i, s));
      RunCons(i, Keeps(x, rd, uv, k + 1, lanes, c), s);
    }
  }

  lemma MovNNumber(uv: U64, k: nat, lanes: nat)
    requires k < lanes && (lanes == 4 || lanes == 2) && Filled(uv, k, lanes, ONES) == Filled(uv, 0, lanes, ONES)
    ensures Filled(uv, k + 1, lanes, ONES)
      == (if lanes == 4 then P64 - 1 else P32 - 1) - (ONES - Lane(uv, k)) * LaneUnit(k)
  {
    hide Lane;
    FilledLanes(uv, k, lanes, ONES);
    FilledLanes(uv, 0, lanes, ONES);
    assert forall j :: 0 <= j < k ==> FillLane(uv, k, lanes, ONES, j) == FillLane(uv, 0, lanes, ONES, j);
  }

  lemma MovNStep(x: bool, rd: RegNo, uv: U64, k: nat, lanes: nat, s: State)
    requires rd != 31 && Lanes(x, lanes) && k < lanes && Filled(uv, k, lanes, ONES) == Filled(uv, 0, lanes, ONES)
    ensures var i := MoveWide(x, MovN, k, ONES - Lane(uv, k), rd);
      && Filled(uv, k + 1, lanes, ONES) < P64
      && Straight(i) && Exec(i, s) == Holding(s, rd, Filled(uv, k + 1, lanes, ONES))
  {
    hide Filled, Lane, LaneUnit;
    MovNNumber(uv, k, lanes);
    FilledLanes(uv, k + 1, lanes, ONES);
  }

  lemma MovZStep(x: bool, rd: RegNo, uv: U64, lanes: nat, s: State)
    requires rd != 31 && Lanes(x, lanes)
    ensures var i := MoveWide(x, MovZ, 0, Lane(uv, 0), rd);
      && Filled(uv, 1, lanes, 0) < P64
      && Straight(i) && Exec(i, s) == Holding(s, rd, Filled(uv, 1, lanes, 0))
  {
    FilledLanes(uv, 1, lanes, 0);
  }

  lemma {:induction false} InvertedMeaning(x: bool, rd: RegNo, uv: U64, k: nat, lanes: nat, s: State)
    requires rd != 31 && Lanes(x, lanes) && k <= lanes && Filled(uv, k, lanes, ONES) == Filled(uv, 0, lanes, ONES)
    ensures var code := Inverted(x, rd, uv, k, lanes);
      && StraightCode(code) && Filled(uv, lanes, lanes, ONES) < P64
      && Run(code, s) == Holding(s, rd, Filled(uv, lanes, lanes, ONES))
    decreases lanes - k
  {
    hide Filled, Exec, Lane;
    FilledLanes(uv, lanes, lanes, ONES);
    if k == lanes {
      AllOnes(x, rd, uv, lanes, s);
      Run1(MoveWide(x, MovN, 0, 0, rd), s);
    } else if Lane(uv, k) == ONES {
      SkipStep(uv, k, lanes, ONES);
      InvertedMeaning(x, rd, uv, k + 1, lanes, s);
    } else {
      var i := MoveWide(x, MovN, k, ONES - Lane(uv, k), rd);
      MovNStep(x, rd, uv, k, lanes, s);
      KeepsMeaning(x, rd, uv, k + 1, lanes, ONES, Exec(i, s));
      RunCons(i, Keeps(x, rd, uv, k + 1, lanes, ONES), s);
    }
  }

  lemma AllOnes(x: bool, rd: RegNo, uv: U64, lanes: nat, s: State)
    requires rd != 31 && Lanes(x, lanes) && Filled(uv, lanes, lanes, ONES) == Filled(uv, 0, lanes, ONES)
    ensures var i := MoveWide(x, MovN, 0, 0, rd);
      && Filled(uv, lanes, lanes, ONES) < P64
      && Straight(i) && Exec(i, s) == Holding(s, rd, Filled(uv, lanes, lanes, ONES))
  {
    FilledLanes(uv, lanes, lanes, ONES);
  }

  lemma FullyFilled(uv: U64, x: bool, lanes: nat, c: nat)
    requires Lanes(x, lanes) && (!x ==> uv < P32)
    ensures Filled(uv, lanes, lanes, c) == uv
  {
    FourLanes(uv);
  }

  /** Whichever strategy the lane counts select, and whatever the operand width, the register
      ends up holding the value modulo 2^64. */
  lemma MovMeaning(wide: bool, rd: RegNo, value: int, s: State)
    requires rd != 31
    ensures StraightCode(MovCode(wide, rd, value))
    ensures Run(MovCode(wide, rd, value), s) == Holding(s, rd, value % P64)
  {
    hide Filled, Exec, Run, Keeps, Inverted, Lane;
    var x := NeedsX(wide, value);
    var (uv, lanes) := (value % P64, if x then 4 else 2);
    if Differing(uv, 0, lanes, ONES) < Differing(uv, 0, lanes, 0) {
      FullyFilled(uv, x, lanes, ONES);
      InvertedMeaning(x, rd, uv, 0, lanes, s);
    } else {
      FullyFilled(uv, x, lanes, 0);
      MovZStep(x, rd, uv, lanes, s);
      var i := MoveWide(x, MovZ, 0, Lane(uv, 0), rd);
      KeepsMeaning(x, rd, uv, 1, lanes, 0, Exec(i, s));
      RunCons(i, Keeps(x, rd, uv, 1, lanes, 0), s);
    }
  }

  lemma {:induction false} KeepsCount(x: bool, rd: RegNo, uv: U64, k: nat, lanes: nat, c: int)
    requires k <= lanes
    ensures |Keeps(x, rd, uv, k, lanes, c)| == Differing(uv, k, lanes, c) <= lanes - k
    decreases lanes - k
  {
    if k < lanes {
      KeepsCount(x, rd, uv, k + 1, lanes, c);
    }
  }

  lemma {:induction false} InvertedCount(x: bool, rd: RegNo, uv: U64, k: nat, lanes: nat)
    requires k <= lanes
    ensures |Inverted(x, rd, uv, k, lanes)| == Max(1, Differing(uv, k, lanes, ONES)) <= Max(1, lanes - k)
    decreases lanes - k
  {
    if k < lanes {
      InvertedCount(x, rd, uv, k + 1, lanes);
      KeepsCount(x, rd, uv, k + 1, lanes, ONES);
    }
  }

  function Max(a: int, b: int): int { if a > b then a else b }
  /** From one to four instructions; the direct strategy spends one more than its count when
      the lowest lane is zero and another is not. */
  lemma MovLength(wide: bool, rd: RegNo, value: int)
    ensures
      var lanes := if NeedsX(wide, value) then 4 else 2;
      var (ones, zeros) := (Differing(value % P64, 0, lanes, ONES), Differing(value % P64, 0, lanes, 0));
      var n := |MovCode(wide, rd, value)|;
      && 1 <= n <= lanes
      && (ones < zeros ==> n == Max(1, ones))
      && (ones >= zeros ==> n == zeros + if Lane(value % P64, 0) == 0 then 1 else 0)
  {
    hide Lane;
    var x := NeedsX(wide, value);
    var (uv, lanes) := (value % P64, if x then 4 else 2);
    InvertedCount(x, rd, uv, 0, lanes);
    KeepsCount(x, rd, uv, 1, lanes, 0);
  }
}
