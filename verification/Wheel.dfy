/** The mod-210 wheel of gmp_nextprime: 48 gaps that lead from 11 to 221 through
    exactly the numbers prime to 2, 3, 5 and 7. */
module Wheel {
  import opened Arithmetic

  predicate PrimeTo210(x: nat) {
    x % 2 != 0 && x % 3 != 0 && x % 5 != 0 && x % 7 != 0
  }

  /** Row r of addtab, eight gaps a row. */
  function GapRow(r: nat): seq<nat>
    requires r < 6
  {
    match r
    case 0 => [2, 4, 2, 4, 6, 2, 6, 4]
    case 1 => [2, 4, 6, 6, 2, 6, 4, 2]
    case 2 => [6, 4, 6, 8, 4, 2, 4, 2]
    case 3 => [4, 8, 6, 4, 6, 2, 4, 6]
    case 4 => [2, 6, 6, 4, 2, 4, 6, 2]
    case _ => [6, 4, 2, 4, 2, 10, 2, 10]
  }

  /** addtab[ai] */
  function Gap(ai: nat): nat
    requires ai < 48
  {
    GapRow(ai / 8)[ai % 8]
  }

  /** Where the wheel stands before each gap of row r, and after the last one. */
  ghost function StopRow(r: nat): seq<nat>
    requires r < 6
  {
    match r
    case 0 => [11, 13, 17, 19, 23, 29, 31, 37, 41]
    case 1 => [41, 43, 47, 53, 59, 61, 67, 71, 73]
    case 2 => [73, 79, 83, 89, 97, 101, 103, 107, 109]
    case 3 => [109, 113, 121, 127, 131, 137, 139, 143, 149]
    case 4 => [149, 151, 157, 163, 167, 169, 173, 179, 181]
    case _ => [181, 187, 191, 193, 197, 199, 209, 211, 221]
  }

  ghost function Stop(ai: nat): nat
    requires ai < 48
  {
    StopRow(ai / 8)[ai % 8]
  }

  /** From stop x the gap g leads to stop y, past nothing prime to 210. */
  ghost predicate GapCorrect(x: nat, g: nat, y: nat) {
    && 0 < g <= 10 && x + g == y && PrimeTo210(x) && PrimeTo210(y)
    && (1 < g ==> !PrimeTo210(x + 1)) && (2 < g ==> !PrimeTo210(x + 2)) && (3 < g ==> !PrimeTo210(x + 3))
    && (4 < g ==> !PrimeTo210(x + 4)) && (5 < g ==> !PrimeTo210(x + 5)) && (6 < g ==> !PrimeTo210(x + 6))
    && (7 < g ==> !PrimeTo210(x + 7)) && (8 < g ==> !PrimeTo210(x + 8)) && (9 < g ==> !PrimeTo210(x + 9))
  }

  ghost predicate RowCorrect(stops: seq<nat>, gaps: seq<nat>) {
    && |gaps| == 8 && |stops| == 9
    && GapCorrect(stops[0], gaps[0], stops[1]) && GapCorrect(stops[1], gaps[1], stops[2])
    && GapCorrect(stops[2], gaps[2], stops[3]) && GapCorrect(stops[3], gaps[3], stops[4])
    && GapCorrect(stops[4], gaps[4], stops[5]) && GapCorrect(stops[5], gaps[5], stops[6])
    && GapCorrect(stops[6], gaps[6], stops[7]) && GapCorrect(stops[7], gaps[7], stops[8])
  }

  lemma Row0()
    ensures RowCorrect(StopRow(0), GapRow(0))
  {
  }

  lemma Row1()
    ensures RowCorrect(StopRow(1), GapRow(1))
  {
  }

  lemma Row2()
    ensures RowCorrect(StopRow(2), GapRow(2))
  {
  }

  lemma Row3()
    ensures RowCorrect(StopRow(3), GapRow(3))
  {
  }

  lemma Row4()
    ensures RowCorrect(StopRow(4), GapRow(4))
  {
  }

  lemma Row5()
    ensures RowCorrect(StopRow(5), GapRow(5))
  {
  }

  lemma AnyRow(r: nat)
    requires r < 6
    ensures RowCorrect(StopRow(r), GapRow(r))
    ensures r < 5 ==> |StopRow(r + 1)| == 9 && StopRow(r)[8] == StopRow(r + 1)[0]
    ensures r == 5 ==> StopRow(r)[8] == StopRow(0)[0] + 210
  {
    hide RowCorrect;
    Row0();
    Row1();
    Row2();
    Row3();
    Row4();
    Row5();
    assert r in {0, 1, 2, 3, 4, 5};
  }

  lemma RowStep(stops: seq<nat>, gaps: seq<nat>, k: nat)
    requires k < 8 && RowCorrect(stops, gaps)
    ensures GapCorrect(stops[k], gaps[k], stops[k + 1])
  {
    hide GapCorrect;
    assert k in {0, 1, 2, 3, 4, 5, 6, 7};
  }

  /** The entry after the one in row ai / 8 and column ai % 8. */
  lemma NextEntry(ai: nat)
    requires ai < 48
    ensures ai / 8 < 6 && ai % 8 < 8 && (ai + 1) % 48 == if ai == 47 then 0 else ai + 1
    ensures ai % 8 < 7 ==> (ai + 1) / 8 == ai / 8 && (ai + 1) % 8 == ai % 8 + 1
    ensures ai % 8 == 7 ==> (ai + 1) / 8 == ai / 8 + 1 && (ai + 1) % 8 == 0
    ensures ai == 47 <==> ai % 8 == 7 && ai / 8 == 5
  {
    var r, k := ai / 8, ai % 8;
    DivModIdentity(ai, 8);
    if k < 7 { DivModUnique(ai + 1, 8, r, k + 1); } else { DivModUnique(ai + 1, 8, r + 1, 0); }
    if ai < 47 { ModSmall(ai + 1, 48); }
  }

  lemma TableStep(ai: nat)
    requires ai < 48
    ensures Gap(ai) > 0
    ensures GapCorrect(Stop(ai), Gap(ai), Stop((ai + 1) % 48) + if ai == 47 then 210 else 0)
  {
    hide StopRow, GapRow, RowCorrect;
    var r, k := ai / 8, ai % 8;
    AnyRow(r);
    RowStep(StopRow(r), GapRow(r), k);
    RowShape(StopRow(r), GapRow(r));
    NextEntry(ai);
    if k == 7 && r < 5 { AnyRow(r + 1); }
  }

  lemma RowShape(stops: seq<nat>, gaps: seq<nat>)
    requires RowCorrect(stops, gaps)
    ensures |gaps| == 8 && |stops| == 9
  {
  }

  lemma TurnKeepsCoprimality(x: nat, t: nat)
    ensures PrimeTo210(x + 210 * t) == PrimeTo210(x)
  {
    ModAddMultiple(x, 105 * t, 2);
    ModAddMultiple(x, 70 * t, 3);
    ModAddMultiple(x, 42 * t, 5);
    ModAddMultiple(x, 30 * t, 7);
  }

  /** The state (p, ai) of the walk: some number of whole turns past a stop. */
  ghost predicate OnWheel(p: nat, ai: nat) {
    ai < 48 && exists t: nat :: p == Turn(ai, t)
  }

  ghost function Turn(ai: nat, t: nat): nat
    requires ai < 48
  {
    Stop(ai) + 210 * t
  }

  lemma WheelStarts()
    ensures OnWheel(11, 0)
  {
    assert Turn(0, 0) == 11;
  }

  /** One step of the walk: the next number prime to 210, and none in between. */
  lemma WheelStep(p: nat, ai: nat)
    requires OnWheel(p, ai)
    ensures PrimeTo210(p) && 0 < Gap(ai) <= 10
    ensures OnWheel(p + Gap(ai), (ai + 1) % 48)
    ensures forall x :: p < x < p + Gap(ai) ==> !PrimeTo210(x)
  {
    hide PrimeTo210, Gap, Stop;
    var t: nat :| p == Turn(ai, t);
    var x0, g := Stop(ai), Gap(ai);
    TableStep(ai);
    TurnKeepsCoprimality(x0, t);
    var t' := if ai == 47 then t + 1 else t;
    assert p + g == Turn((ai + 1) % 48, t');
    forall x | p < x < p + g
      ensures !PrimeTo210(x)
    {
      TurnKeepsCoprimality(x - 210 * t, t);
      GapInside(x0, g, x0 + g, x - p);
    }
  }

  lemma GapInside(x: nat, g: nat, y: nat, k: nat)
    requires GapCorrect(x, g, y) && 0 < k < g
    ensures !PrimeTo210(x + k)
  {
    hide PrimeTo210;
    assert k in {1, 2, 3, 4, 5, 6, 7, 8, 9};
  }
}
