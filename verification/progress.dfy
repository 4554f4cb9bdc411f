/**
  The progress percentage shown during a batch:
  `Math.round((completedFiles / totalFiles) * 100)`, computed here in exact
  integer arithmetic as round-half-up of `100 * completed / total`.
 */
module Progress {

  /** Round-half-up of `100 * completed / total`. */
  function Percent(completed: nat, total: nat): (p: nat)
    requires 0 < total && completed <= total
    ensures 2 * total * p <= 200 * completed + total < 2 * total * (p + 1)
    ensures p <= 100
  {
    var p := (200 * completed + total) / (2 * total);
    DivBounds(200 * completed + total, 2 * total);
    assert 200 * completed + total < 2 * total * 101;
    assert p < 101 by {
      if p >= 101 {
        MulMono(2 * total, 101, p);
      }
    }
    p
  }

  lemma DivBounds(a: nat, b: nat)
    requires 0 < b
    ensures b * (a / b) <= a < b * (a / b + 1)
  {
  }

  lemma MulMono(b: nat, x: nat, y: nat)
    requires x <= y
    ensures b * x <= b * y
  {
  }

  /** The rounded value is determined by the two bounds of `Percent`. */
  lemma PercentUnique(completed: nat, total: nat, p: nat)
    requires 0 < total && completed <= total
    requires 2 * total * p <= 200 * completed + total < 2 * total * (p + 1)
    ensures Percent(completed, total) == p
  {
    var q := Percent(completed, total);
    if q < p {
      MulMono(2 * total, q + 1, p);
    } else if p < q {
      MulMono(2 * total, p + 1, q);
    }
  }

  /** No file done shows 0%, every file done shows 100%. */
  lemma PercentEnds(total: nat)
    requires 0 < total
    ensures Percent(0, total) == 0
    ensures Percent(total, total) == 100
  {
    PercentUnique(0, total, 0);
    PercentUnique(total, total, 100);
  }

  /** More completed files never show a smaller percentage. */
  lemma PercentMonotone(c1: nat, c2: nat, total: nat)
    requires 0 < total && c1 <= c2 <= total
    ensures Percent(c1, total) <= Percent(c2, total)
  {
    var p1 := Percent(c1, total);
    var p2 := Percent(c2, total);
    if p2 < p1 {
      MulMono(2 * total, p2 + 1, p1);
    }
  }

  /** The display reaches 100% exactly when at least 99.5% of the files are done. */
  lemma PercentFullIff(completed: nat, total: nat)
    requires 0 < total && completed <= total
    ensures Percent(completed, total) == 100 <==> 200 * completed >= 199 * total
  {
    var p := Percent(completed, total);
    if p == 100 {
      assert 2 * total * 100 <= 200 * completed + total;
    }
    if 200 * completed >= 199 * total {
      assert p >= 100 by {
        if p < 100 {
          MulMono(2 * total, p + 1, 100);
        }
      }
    }
  }

  /** For batches under 200 files, 100% is shown exactly when every file is done. */
  lemma PercentFullSmallBatch(completed: nat, total: nat)
    requires 0 < total < 200 && completed <= total
    ensures Percent(completed, total) == 100 <==> completed == total
  {
    PercentFullIff(completed, total);
  }

  /** From 200 files on, one failure can still show 100%: 199 of 200 rounds up. */
  lemma PercentFullWithFailure()
    ensures Percent(199, 200) == 100
  {
    PercentFullIff(199, 200);
  }
}
