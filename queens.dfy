/**
 * The eight-queens constraint of chapter 3. Columns are the variables,
 * numbered 1..n, and a queen's row is the value of its column. One
 * constraint covers all columns: no two placed queens may share a row or a
 * diagonal (two queens never share a column, since each column holds one).
 *
 * The diagonal test of the program compares the row distance with the
 * distance between the first queen's column and the second queen's row,
 * which mixes a column with a row. `SatisfiedAsWritten` models it as it
 * stands; `Satisfied` compares the two column numbers, as the diagonal
 * test intends, and is the one the constraint uses.
 */
module Queens {
  import opened Csp

  function Abs(x: int): nat
  {
    if x < 0 then -x else x
  }

  /**
   * Queens in two different columns attack along their common row, or along
   * a diagonal: a line on which the row rises, or falls, by one per column.
   */
  predicate Attacks(c1: int, r1: int, c2: int, r2: int)
  {
    c1 != c2 && (r1 == r2 || r2 - r1 == c2 - c1 || r2 - r1 == c1 - c2)
  }

  /** The pair test of the inner loop, as the program writes it. */
  predicate ClashAsWritten(q1c: int, q1r: int, q2c: int, q2r: int)
  {
    q1r == q2r || Abs(q1r - q2r) == Abs(q1c - q2r)
  }

  /** The pair test with the diagonal comparing the two columns. */
  predicate Clash(q1c: int, q1r: int, q2c: int, q2r: int)
  {
    q1r == q2r || Abs(q1r - q2r) == Abs(q1c - q2c)
  }

  /**
   * `satisfied` of a constraint over n columns, as written: every placed
   * queen q1c is compared with the placed queens of columns q1c+1..n.
   */
  function SatisfiedAsWritten(n: int, a: map<int, int>): (r: bool)
    ensures r ==> forall q1c, q2c | q1c in a && q2c in a && q1c < q2c <= n :: a[q1c] != a[q2c]
  {
    forall q1c, q2c | q1c in a && q2c in a && q1c < q2c <= n :: !ClashAsWritten(q1c, a[q1c], q2c, a[q2c])
  }

  /** `satisfied` with the diagonal test corrected. */
  function Satisfied(n: int, a: map<int, int>): (r: bool)
    ensures r <==> forall q1c, q2c | q1c in a && q2c in a && q1c < q2c <= n :: !Attacks(q1c, a[q1c], q2c, a[q2c])
  {
    forall q1c, q2c | q1c in a && q2c in a && q1c < q2c <= n :: !Clash(q1c, a[q1c], q2c, a[q2c])
  }

  /** `QueensConstraint(columns)`: its scope is every column. */
  function QueensConstraint(columns: seq<int>): (c: Constraint<int, int>)
    ensures c.variables == columns
    ensures forall a :: c.satisfied(a) == Satisfied(|columns|, a)
  {
    Constraint(columns, a => Satisfied(|columns|, a))
  }

  // ---------------------------------------------------------------------
  // The finding: the diagonal test as written

  /** Queens at column 2, row 1 and column 3, row 2 share a diagonal, yet pass. */
  lemma AsWrittenMissesDiagonal()
    ensures Attacks(2, 1, 3, 2)
    ensures SatisfiedAsWritten(8, map[2 := 1, 3 := 2])
    ensures !Satisfied(8, map[2 := 1, 3 := 2])
  {
    var a := map[2 := 1, 3 := 2];
    assert 2 in a && 3 in a && a[2] == 1 && a[3] == 2;
    assert Clash(2, a[2], 3, a[3]);
  }

  /** Queens at column 1, row 1 and column 3, row 4 do not attack, yet fail. */
  lemma AsWrittenRejectsSafe()
    ensures !Attacks(1, 1, 3, 4)
    ensures !SatisfiedAsWritten(8, map[1 := 1, 3 := 4])
    ensures Satisfied(8, map[1 := 1, 3 := 4])
  {
    var a := map[1 := 1, 3 := 4];
    assert 1 in a && 3 in a && a[1] == 1 && a[3] == 4;
    assert ClashAsWritten(1, a[1], 3, a[3]);
    forall q1c, q2c | q1c in a && q2c in a && q1c < q2c <= 8 ensures !Clash(q1c, a[q1c], q2c, a[q2c]) {
      assert q1c == 1 && q2c == 3;
    }
  }

  // ---------------------------------------------------------------------
  // The corrected test

  /** For a queen in a later column, the corrected pair test is exactly an attack. */
  lemma ClashIffAttacks(q1c: int, q1r: int, q2c: int, q2r: int)
    requires q1c < q2c
    ensures Clash(q1c, q1r, q2c, q2r) <==> Attacks(q1c, q1r, q2c, q2r)
  {
  }

  /** Attacking is symmetric. */
  lemma AttacksSymmetric(c1: int, r1: int, c2: int, r2: int)
    ensures Attacks(c1, r1, c2, r2) <==> Attacks(c2, r2, c1, r1)
  {
  }

  /**
   * With the columns numbered 1..n, the corrected constraint holds exactly
   * when no two placed queens attack each other.
   */
  lemma SatisfiedIffNoAttack(n: int, a: map<int, int>)
    requires forall c :: c in a ==> 1 <= c <= n
    ensures Satisfied(n, a) <==> forall c1, c2 :: c1 in a && c2 in a ==> !Attacks(c1, a[c1], c2, a[c2])
  {
    if Satisfied(n, a) {
      forall c1, c2 | c1 in a && c2 in a ensures !Attacks(c1, a[c1], c2, a[c2]) {
        if c1 < c2 {
          ClashIffAttacks(c1, a[c1], c2, a[c2]);
        } else if c2 < c1 {
          ClashIffAttacks(c2, a[c2], c1, a[c1]);
          AttacksSymmetric(c1, a[c1], c2, a[c2]);
        }
      }
    }
    if forall c1, c2 :: c1 in a && c2 in a ==> !Attacks(c1, a[c1], c2, a[c2]) {
      forall q1c, q2c | q1c in a && q2c in a && q1c < q2c <= n ensures !Clash(q1c, a[q1c], q2c, a[q2c]) {
        ClashIffAttacks(q1c, a[q1c], q2c, a[q2c]);
      }
    }
  }

  /** Two queens in one row are always rejected, by either test. */
  lemma SameRowRejected(n: int, a: map<int, int>, q1c: int, q2c: int)
    requires q1c in a && q2c in a && q1c < q2c <= n && a[q1c] == a[q2c]
    ensures !Satisfied(n, a) && !SatisfiedAsWritten(n, a)
  {
    assert Clash(q1c, a[q1c], q2c, a[q2c]) && ClashAsWritten(q1c, a[q1c], q2c, a[q2c]);
  }

  /** With at most one queen placed there is nothing to compare. */
  lemma AtMostOneQueen(n: int, a: map<int, int>)
    requires |a| <= 1
    ensures Satisfied(n, a) && SatisfiedAsWritten(n, a)
  {
    forall q1c, q2c | q1c in a && q2c in a ensures q1c == q2c {
      if q1c != q2c {
        assert |a.Keys| == |a|;
        assert {q1c, q2c} <= a.Keys;
        SubsetCard({q1c, q2c}, a.Keys);
      }
    }
  }

  lemma SubsetCard(s: set<int>, t: set<int>)
    requires s <= t
    ensures |s| <= |t|
  {
    assert t == s + (t - s);
  }

  /**
   * Once a pair fails, it fails in every extension of the assignment:
   * removing queens never breaks either test.
   */
  lemma RemovingQueensKeepsSatisfied(n: int, a: map<int, int>, b: map<int, int>)
    requires SubMap(a, b)
    ensures Satisfied(n, b) ==> Satisfied(n, a)
    ensures SatisfiedAsWritten(n, b) ==> SatisfiedAsWritten(n, a)
  {
  }

  /**
   * On a problem whose variables are the constraint's columns, the queens
   * constraint meets the conditions under which backtracking search is
   * sound and complete.
   */
  lemma QueensConstraintFits(columns: seq<int>)
    ensures LocalIn(QueensConstraint(columns), set c | c in columns)
    ensures DownClosedIn(QueensConstraint(columns), set c | c in columns)
  {
    var c := QueensConstraint(columns);
    var vs := set c | c in columns;
    forall a: map<int, int>, b: map<int, int> | a.Keys <= vs && b.Keys <= vs && Agree(c.variables, a, b)
      ensures c.satisfied(a) == c.satisfied(b)
    {
      assert a == b;
    }
    forall a: map<int, int>, b: map<int, int> | b.Keys <= vs && SubMap(a, b) && c.satisfied(b)
      ensures c.satisfied(a)
    {
      RemovingQueensKeepsSatisfied(|columns|, a, b);
    }
  }
}
