/** The penalty transformers: in-place adjustments of a weight matrix before
    it becomes a graph. Zero cells and sentinel cells are never touched. */
module Penalties {
  import opened Globals

  /** How a call ended: normally, or by the exception the source raises when
      it meets an adjustable cell under a mode it does not know. */
  datatype Status = Done | InvalidMode

  predicate KnownMode(mode: string)
  {
    mode == "add" || mode == "multiply"
  }

  /** What `apply_penalty` leaves in a cell that held `v`. An unknown mode
      writes nothing (it raises instead, see ApplyPenalty). */
  function Penalized(mode: string, penalty: real, v: real): (r: real)
    ensures !Eligible(v) ==> r == v
    ensures !KnownMode(mode) ==> r == v
    ensures penalty == 0.0 ==> r == v
    ensures Eligible(v) && mode == "add" ==> r - v == penalty
    ensures Eligible(v) && mode == "multiply" ==> r == v + v * penalty
    ensures v >= 0.0 && penalty >= 0.0 ==> r >= 0.0
  {
    if !Eligible(v) then v
    else if mode == "add" then v + penalty
    else if mode == "multiply" then v * (penalty + 1.0)
    else v
  }

  /** A multiplicative penalty keeps a nonnegative weight nonnegative exactly
      when the penalty is at least -1; the source itself does not check this. */
  lemma {:induction false} MultiplyKeepsNonnegative(penalty: real, v: real)
    requires Eligible(v) && v > 0.0
    ensures Penalized("multiply", penalty, v) >= 0.0 <==> penalty >= -1.0
  {
    if penalty >= -1.0 {
      assert v * (penalty + 1.0) >= 0.0 by { NonnegativeProduct(v, penalty + 1.0); }
    } else {
      assert v * (penalty + 1.0) < 0.0 by { NegativeProduct(v, penalty + 1.0); }
    }
  }

  lemma NonnegativeProduct(x: real, y: real)
    requires x >= 0.0 && y >= 0.0
    ensures x * y >= 0.0
  {
  }

  lemma NegativeProduct(x: real, y: real)
    requires x > 0.0 && y < 0.0
    ensures x * y < 0.0
  {
  }

  /** An additive penalty keeps a cell adjustable unless the sum hits 0 or
      999999; in the latter case the edge is dropped later on as "no edge". */
  lemma AddKeepsEligible(penalty: real, v: real)
    requires Eligible(v)
    ensures Eligible(Penalized("add", penalty, v)) <==> v + penalty != 0.0 && v + penalty != Infinite
  {
  }

  /** Some cell of `a` would be adjusted. */
  ghost predicate HasEligibleCell(a: array2<real>)
    reads a
  {
    exists i, j :: 0 <= i < a.Length0 && 0 <= j < a.Length1 && Eligible(a[i, j])
  }

  /** `apply_penalty`: visits every cell in row-major order; each adjustable
      cell gets `+ penalty` in mode "add" and `* (penalty + 1)` in mode
      "multiply". Any other mode raises at the first adjustable cell, so it
      fails exactly when there is one, and then no cell has been changed;
      with no adjustable cell it returns normally. */
  method ApplyPenalty(a: array2<real>, penalty: real, mode: string) returns (status: Status)
    modifies a
    ensures status == InvalidMode <==> !KnownMode(mode) && old(HasEligibleCell(a))
    ensures forall i, j :: 0 <= i < a.Length0 && 0 <= j < a.Length1 ==>
              a[i, j] == Penalized(mode, penalty, old(a[i, j]))
  {
    var x := 0;
    while x < a.Length0
      invariant 0 <= x <= a.Length0
      invariant forall i, j :: 0 <= i < a.Length0 && 0 <= j < a.Length1 ==>
                  a[i, j] == if i < x then Penalized(mode, penalty, old(a[i, j])) else old(a[i, j])
      invariant !KnownMode(mode) ==>
                  forall i, j :: 0 <= i < x && 0 <= j < a.Length1 ==> !Eligible(old(a[i, j]))
    {
      var y := 0;
      while y < a.Length1
        invariant 0 <= y <= a.Length1
        invariant forall i, j :: 0 <= i < a.Length0 && 0 <= j < a.Length1 ==>
                    a[i, j] == if i < x || (i == x && j < y) then Penalized(mode, penalty, old(a[i, j])) else old(a[i, j])
        invariant !KnownMode(mode) ==>
                    forall i, j :: 0 <= i < a.Length0 && 0 <= j < a.Length1 && (i < x || (i == x && j < y)) ==>
                      !Eligible(old(a[i, j]))
      {
        var v := a[x, y];
        if v != 0.0 && v != Infinite {
          if mode == "add" {
            a[x, y] := v + penalty;
          } else if mode == "multiply" {
            a[x, y] := v * (penalty + 1.0);
          } else {
            assert Eligible(old(a[x, y]));
            return InvalidMode;
          }
        }
        y := y + 1;
      }
      x := x + 1;
    }
    status := Done;
  }

  /** What `apply_outdoor_penalty` leaves in a cell that held `v` and whose
      outdoor flag is `flag`. Only a flag equal to 1 selects the cell; any
      other flag value counts as indoor. */
  function OutdoorPenalized(v: real, flag: real, penalty: real): (r: real)
    ensures !Eligible(v) || flag != 1.0 ==> r == v
    ensures penalty == 0.0 ==> r == v
    ensures Eligible(v) && flag == 1.0 ==> r == v + v * penalty
    ensures v >= 0.0 && penalty >= -1.0 ==> r >= 0.0
  {
    if Eligible(v) && flag == 1.0 then
      assert v >= 0.0 && penalty >= -1.0 ==> v * (1.0 + penalty) >= 0.0 by {
        if v >= 0.0 && penalty >= -1.0 { NonnegativeProduct(v, 1.0 + penalty); }
      }
      v * (1.0 + penalty)
    else
      v
  }

  /** On a cell flagged outdoor the outdoor penalty is the "multiply" mode of
      apply_penalty; on any other cell it is the identity. */
  lemma OutdoorIsMultiplyWhereFlagged(v: real, flag: real, penalty: real)
    ensures OutdoorPenalized(v, flag, penalty) == if flag == 1.0 then Penalized("multiply", penalty, v) else v
  {
  }

  /** `apply_outdoor_penalty`: multiplies by `1 + penalty`, in place, exactly
      the adjustable cells whose flag at the same position is 1. Each cell's
      flag is read before that cell is written, so the result is the same
      even when the flag array is the weight array itself; otherwise the
      flag array is left as it was. The flag of a cell is read only when the
      cell is neither 0 nor 999999, so the flag array need only reach those
      cells; cells it does not reach are kept. */
  method ApplyOutdoorPenalty(a: array2<real>, flags: array2<real>, penalty: real)
    requires forall i, j :: 0 <= i < a.Length0 && 0 <= j < a.Length1 && Eligible(a[i, j]) ==>
               i < flags.Length0 && j < flags.Length1
    modifies a
    ensures forall i, j :: 0 <= i < a.Length0 && 0 <= j < a.Length1 ==>
              a[i, j] == (if Eligible(old(a[i, j])) then OutdoorPenalized(old(a[i, j]), old(flags[i, j]), penalty) else old(a[i, j]))
    ensures flags != a ==> unchanged(flags)
  {
    var x := 0;
    while x < a.Length0
      invariant 0 <= x <= a.Length0
      invariant forall i, j :: 0 <= i < a.Length0 && 0 <= j < a.Length1 ==>
                  a[i, j] == if i < x then (if Eligible(old(a[i, j])) then OutdoorPenalized(old(a[i, j]), old(flags[i, j]), penalty) else old(a[i, j])) else old(a[i, j])
      invariant flags != a ==> unchanged(flags)
    {
      var y := 0;
      while y < a.Length1
        invariant 0 <= y <= a.Length1
        invariant forall i, j :: 0 <= i < a.Length0 && 0 <= j < a.Length1 ==>
                    a[i, j] == if i < x || (i == x && j < y) then (if Eligible(old(a[i, j])) then OutdoorPenalized(old(a[i, j]), old(flags[i, j]), penalty) else old(a[i, j])) else old(a[i, j])
        invariant flags != a ==> unchanged(flags)
      {
        var v := a[x, y];
        if v != 0.0 && v != Infinite && flags[x, y] == 1.0 {
          a[x, y] := v * (1.0 + penalty);
        }
        y := y + 1;
      }
      x := x + 1;
    }
  }
}
