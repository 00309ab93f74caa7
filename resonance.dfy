/** The resonance shift shared by random7.py and server.py: every cell value
    `v` becomes `(v + frequency) % 10`. Python's `%` with a positive modulus
    never returns a negative number, and neither does Dafny's. */
module Resonance {
  import Arith
  import Grids

  /** The grid of values after one resonance step with `frequency`. */
  function Shifted(vals: seq<seq<int>>, frequency: int): (r: seq<seq<int>>)
    ensures Grids.SameShape(r, vals)
  {
    seq(|vals|, i requires 0 <= i < |vals| =>
      seq(|vals[i]|, j requires 0 <= j < |vals[i]| => (vals[i][j] + frequency) % 10))
  }

  predicate InDomain(vals: seq<seq<int>>) {
    forall i, j :: 0 <= i < |vals| && 0 <= j < |vals[i]| ==> 0 <= vals[i][j] < 10
  }

  /** Whatever the values before, every value afterwards is a digit 0..9. */
  lemma ShiftedInDomain(vals: seq<seq<int>>, frequency: int)
    ensures InDomain(Shifted(vals, frequency))
  {
  }

  /** Two resonance steps with `f1` then `f2` equal one step with `f1 + f2`. */
  lemma ShiftedCompose(vals: seq<seq<int>>, f1: int, f2: int)
    ensures Shifted(Shifted(vals, f1), f2) == Shifted(vals, f1 + f2)
  {
    var twice, once := Shifted(Shifted(vals, f1), f2), Shifted(vals, f1 + f2);
    forall i | 0 <= i < |vals|
      ensures twice[i] == once[i]
    {
      forall j | 0 <= j < |vals[i]|
        ensures twice[i][j] == once[i][j]
      {
        Arith.ModOfSum(vals[i][j] + f1, f2, 10);
      }
    }
  }

  /** A frequency acts only through its remainder modulo 10: shifting by 10
      restores every digit. */
  lemma ShiftedPeriodic(vals: seq<seq<int>>, frequency: int)
    requires InDomain(vals)
    ensures Shifted(vals, frequency + 10) == Shifted(vals, frequency)
    ensures Shifted(vals, 10) == vals
  {
    var a, b, c := Shifted(vals, frequency + 10), Shifted(vals, frequency), Shifted(vals, 10);
    forall i | 0 <= i < |vals|
      ensures a[i] == b[i] && c[i] == vals[i]
    {
      forall j | 0 <= j < |vals[i]|
        ensures a[i][j] == b[i][j] && c[i][j] == vals[i][j]
      {
        Arith.ModAddMultiple(vals[i][j] + frequency, 1, 10);
        Arith.ModAddMultiple(vals[i][j], 1, 10);
      }
    }
  }

  /** The values part way through a resonance sweep: the cells before row
      `i`, column `j` in row-major order are shifted, the rest are not. */
  function ShiftedBefore(vals: seq<seq<int>>, frequency: int, i: int, j: int): (r: seq<seq<int>>)
    ensures Grids.SameShape(r, vals)
  {
    seq(|vals|, r requires 0 <= r < |vals| =>
      seq(|vals[r]|, c requires 0 <= c < |vals[r]| =>
        if r < i || (r == i && c < j) then (vals[r][c] + frequency) % 10 else vals[r][c]))
  }

  /** Before the sweep nothing is shifted. */
  lemma ShiftedBeforeStart(vals: seq<seq<int>>, frequency: int)
    ensures ShiftedBefore(vals, frequency, 0, 0) == vals
  {
    var r := ShiftedBefore(vals, frequency, 0, 0);
    forall i | 0 <= i < |vals| ensures r[i] == vals[i] {
      assert |r[i]| == |vals[i]|;
    }
  }

  /** Shifting cell `(i, j)` advances the sweep by one cell. */
  lemma ShiftedBeforeStep(vals: seq<seq<int>>, frequency: int, i: nat, j: nat)
    requires i < |vals| && j < |vals[i]|
    ensures
      var before := ShiftedBefore(vals, frequency, i, j);
      before[i][j] == vals[i][j] &&
      ShiftedBefore(vals, frequency, i, j + 1) == before[i := before[i][j := (before[i][j] + frequency) % 10]]
  {
    var before, after := ShiftedBefore(vals, frequency, i, j), ShiftedBefore(vals, frequency, i, j + 1);
    var expected := before[i := before[i][j := (before[i][j] + frequency) % 10]];
    forall r | 0 <= r < |vals| ensures after[r] == expected[r] {
      assert |after[r]| == |expected[r]|;
    }
  }

  /** Finishing row `i` is starting row `i + 1`. */
  lemma ShiftedBeforeRow(vals: seq<seq<int>>, frequency: int, i: nat)
    requires i < |vals|
    ensures ShiftedBefore(vals, frequency, i, |vals[i]|) == ShiftedBefore(vals, frequency, i + 1, 0)
  {
    var a, b := ShiftedBefore(vals, frequency, i, |vals[i]|), ShiftedBefore(vals, frequency, i + 1, 0);
    forall r | 0 <= r < |vals| ensures a[r] == b[r] {
      assert |a[r]| == |b[r]|;
    }
  }

  /** After the last row every cell is shifted. */
  lemma ShiftedBeforeEnd(vals: seq<seq<int>>, frequency: int)
    ensures ShiftedBefore(vals, frequency, |vals|, 0) == Shifted(vals, frequency)
  {
    var a, b := ShiftedBefore(vals, frequency, |vals|, 0), Shifted(vals, frequency);
    forall r | 0 <= r < |vals| ensures a[r] == b[r] {
      assert |a[r]| == |b[r]|;
    }
  }
}
