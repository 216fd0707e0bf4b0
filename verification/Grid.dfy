/** Row-major addressing: byte `i` of a surface `pitch` bytes across. */
module Grid {
  import opened Common

  /** Where row y starts. */
  function At(y: nat, pitch: nat): nat {
    y * pitch
  }

  lemma AtStep(y: nat, pitch: nat)
    ensures At(0, pitch) == 0 && At(y + 1, pitch) == At(y, pitch) + pitch
  {
  }

  lemma AtSum(a: nat, b: nat, pitch: nat)
    ensures At(a + b, pitch) == At(a, pitch) + At(b, pitch)
  {
  }

  lemma AtMonotone(y: nat, rows: nat, pitch: nat)
    requires y <= rows
    ensures At(y, pitch) <= At(rows, pitch)
  {
    Scale(y, rows, pitch);
  }

  function Row(i: nat, pitch: nat): nat
    requires pitch > 0
  {
    i / pitch
  }

  function Col(i: nat, pitch: nat): nat
    requires pitch > 0
  {
    i % pitch
  }

  lemma RowCol(y: nat, x: nat, pitch: nat)
    requires x < pitch
    ensures Row(At(y, pitch) + x, pitch) == y && Col(At(y, pitch) + x, pitch) == x
  {
    var i := y * pitch + x;
    Recompose(i, pitch);
    var d := Row(i, pitch) - y;
    assert d * pitch == x - Col(i, pitch);
    if d >= 1 {
      Scale(1, d, pitch);
    } else if d <= -1 {
      Scale(d, -1, pitch);
    }
  }

  lemma Recompose(i: nat, pitch: nat)
    requires pitch > 0
    ensures i == At(Row(i, pitch), pitch) + Col(i, pitch) && Col(i, pitch) < pitch
  {
  }

  /** Row y of `rows` rows lies inside the surface. */
  lemma RowInside(y: nat, rows: nat, pitch: nat)
    requires y < rows
    ensures At(y, pitch) + pitch <= At(rows, pitch)
  {
    Scale(y + 1, rows, pitch);
    assert (y + 1) * pitch == y * pitch + pitch;
  }

  lemma RowOfIndex(i: nat, rows: nat, pitch: nat)
    requires pitch > 0 && i < At(rows, pitch)
    ensures Row(i, pitch) < rows
  {
    Recompose(i, pitch);
    if Row(i, pitch) >= rows {
      Scale(rows, Row(i, pitch), pitch);
    }
  }
}
