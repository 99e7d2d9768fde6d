/** `bestGrid`: the divisor pair (cols, rows) of an exact piece count whose shape is
    closest to the image's aspect ratio.

    The source scores a pair by |ln((cols / rows) / target)|. With x = (cols / rows) / target,
    |ln x| = ln(max(x, 1 / x)) and ln is increasing, so the pairs are ranked by max(x, 1 / x).
    For an aspect w / h that is the exact fraction max(a, b) / min(a, b) with a = cols * h and
    b = rows * w, and two fractions are compared by cross-multiplication. */
module Grid {
  import opened Wrappers

  /** A grid of `cols` by `rows` pieces. */
  datatype Dims = Dims(cols: nat, rows: nat)

  /** A non-negative fraction num / den; den == 0 stands for +Infinity. */
  datatype Ratio = Ratio(num: nat, den: nat)

  /** `x < y` for fractions, by cross-multiplication. An infinite value is never below another. */
  predicate Less(x: Ratio, y: Ratio)
  {
    x.num * y.den < y.num * x.den
  }

  /** The target aspect for an image of `w` by `h` pixels: `aspect > 0 ? aspect : 1` with
      `aspect = w / h`. A zero width (aspect 0) or 0 / 0 (NaN) gives 1; a zero height
      with a positive width gives +Infinity. */
  function Target(w: nat, h: nat): (t: Ratio)
    ensures t.num >= 1
    ensures w >= 1 && h >= 1 ==> t.num * h == w * t.den && t.den >= 1
    ensures w == 0 ==> t == Ratio(1, 1)
    ensures w >= 1 && h == 0 ==> t.den == 0
  {
    if w > 0 && h > 0 then Ratio(w, h)
    else if w > 0 then Ratio(1, 0)
    else Ratio(1, 1)
  }

  /** The deviation max(x, 1 / x) of a cols-by-rows grid from the target, as a fraction. */
  function Score(cols: nat, rows: nat, t: Ratio): (s: Ratio)
    ensures s.den <= s.num
    ensures s.den == s.num <==> cols * t.den == rows * t.num
  {
    var a := cols * t.den;
    var b := rows * t.num;
    if a <= b then Ratio(b, a) else Ratio(a, b)
  }

  predicate IsDivisor(n: int, c: int)
  {
    1 <= c <= n && n % c == 0
  }

  function GridScore(g: Dims, t: Ratio): Ratio
  {
    Score(g.cols, g.rows, t)
  }

  /** `g` is a divisor pair of `n` with cols below `bound`, no divisor pair with cols below
      `bound` scores strictly better, and every pair with fewer columns scores strictly worse. */
  ghost predicate BestBelow(n: int, t: Ratio, g: Dims, bound: int)
  {
    && IsDivisor(n, g.cols) && g.cols < bound && g.rows == n / g.cols
    && (forall c :: IsDivisor(n, c) && c < bound ==> !Less(Score(c, n / c, t), GridScore(g, t)))
    && (forall c :: IsDivisor(n, c) && c < g.cols ==> Less(GridScore(g, t), Score(c, n / c, t)))
  }

  /** What `bestGrid` promises: a divisor pair of minimal score, ties going to the fewest columns. */
  ghost predicate IsBestGrid(n: int, t: Ratio, g: Dims)
  {
    BestBelow(n, t, g, n + 1)
  }

  datatype Candidate = Candidate(cols: nat, rows: nat, score: Ratio)

  /** `bestGrid(totalPieces, aspect)` with the aspect given as the image's width and height.
      `None` stands for the source's fallback branch, which the loop reaches only when
      it finds no divisor, that is for a count below 1. */
  method BestGrid(n: int, w: nat, h: nat) returns (r: Option<Dims>)
    ensures r.Some? <==> n >= 1
    ensures r.Some? ==> IsBestGrid(n, Target(w, h), r.value)
    ensures r.Some? ==> r.value.cols >= 1 && r.value.rows >= 1 && r.value.cols * r.value.rows == n
  {
    var t := Target(w, h);
    var best: Option<Candidate> := None;
    var cols := 1;
    while cols <= n
      invariant 1 <= cols && (n >= 1 ==> cols <= n + 1)
      invariant best.None? <==> cols == 1
      invariant best.Some? ==> best.value.score == Score(best.value.cols, best.value.rows, t)
      invariant best.Some? ==> BestBelow(n, t, Dims(best.value.cols, best.value.rows), cols)
      decreases n - cols
    {
      if n % cols == 0 {
        var rows := n / cols;
        var score := Score(cols, rows, t);
        if best.None? || Less(score, best.value.score) {
          if best.Some? {
            KeepsBest(n, t, Dims(best.value.cols, best.value.rows), cols);
          }
          best := Some(Candidate(cols, rows, score));
        }
      }
      cols := cols + 1;
    }
    if best.None? {
      r := None;
    } else {
      r := Some(Dims(best.value.cols, best.value.rows));
      DivisorProduct(n, best.value.cols);
    }
  }

  lemma DivisorProduct(n: int, c: int)
    requires IsDivisor(n, c)
    ensures n / c >= 1 && c * (n / c) == n
  {
  }

  lemma ScoreDenPositive(c: nat, r: nat, t: Ratio)
    requires c >= 1 && r >= 1 && t.num >= 1 && t.den >= 1
    ensures Score(c, r, t).den >= 1
  {
    assert c * t.den >= 1 && r * t.num >= 1;
  }

  lemma MulLess(a: nat, b: nat, k: nat)
    requires a < b && k >= 1
    ensures a * k < b * k
  {
  }

  lemma MulLe(a: nat, b: nat, k: nat)
    requires a <= b
    ensures a * k <= b * k
  {
  }

  lemma CancelLess(a: nat, b: nat, k: nat)
    requires a * k < b * k
    ensures a < b
  {
  }

  /** x < y and y <= z give x < z, when y and z are finite. */
  lemma LessLeTrans(x: Ratio, y: Ratio, z: Ratio)
    requires Less(x, y) && !Less(z, y)
    requires y.den >= 1 && z.den >= 1
    ensures Less(x, z)
  {
    MulLess(x.num * y.den, y.num * x.den, z.den);
    MulLe(y.num * z.den, z.num * y.den, x.den);
    assert x.num * z.den * y.den == x.num * y.den * z.den;
    assert y.num * x.den * z.den == y.num * z.den * x.den;
    assert z.num * y.den * x.den == z.num * x.den * y.den;
    CancelLess(x.num * z.den, z.num * x.den, y.den);
  }

  /** A divisor pair `c` that beats the best pair so far beats every earlier pair too. */
  lemma KeepsBest(n: int, t: Ratio, g: Dims, c: int)
    requires t.num >= 1
    requires BestBelow(n, t, g, c) && IsDivisor(n, c)
    requires Less(Score(c, n / c, t), GridScore(g, t))
    ensures BestBelow(n, t, Dims(c, n / c), c + 1)
  {
    var sc := Score(c, n / c, t);
    DivisorProduct(n, c);
    DivisorProduct(n, g.cols);
    assert t.den >= 1;
    ScoreDenPositive(g.cols, g.rows, t);
    forall d | IsDivisor(n, d) && d < c + 1
      ensures !Less(Score(d, n / d, t), sc)
      ensures d < c ==> Less(sc, Score(d, n / d, t))
    {
      if d < c {
        DivisorProduct(n, d);
        ScoreDenPositive(d, n / d, t);
        LessLeTrans(sc, GridScore(g, t), Score(d, n / d, t));
      }
    }
  }

  /** The choice is determined by its inputs: at most one pair meets the promise. */
  lemma BestGridUnique(n: int, t: Ratio, g1: Dims, g2: Dims)
    requires IsBestGrid(n, t, g1) && IsBestGrid(n, t, g2)
    ensures g1 == g2
  {
    if g1.cols < g2.cols {
      assert false;
    } else if g2.cols < g1.cols {
      assert false;
    }
  }

  /** A pair whose shape matches a finite target exactly is the one chosen. */
  lemma ExactAspectWins(n: int, t: Ratio, g: Dims)
    requires t.num >= 1 && t.den >= 1
    requires IsDivisor(n, g.cols) && g.rows == n / g.cols
    requires g.cols * t.den == g.rows * t.num
    ensures IsBestGrid(n, t, g)
  {
    var sg := GridScore(g, t);
    assert sg.num == sg.den;
    DivisorProduct(n, g.cols);
    ScoreDenPositive(g.cols, g.rows, t);
    forall c | IsDivisor(n, c) && c < g.cols
      ensures Less(sg, Score(c, n / c, t))
    {
      DivisorProduct(n, c);
      FewerColumnsMoreRows(n, c, g.cols);
      MulLess(c, g.cols, t.den);
      MulLess(g.rows, n / c, t.num);
      var sc := Score(c, n / c, t);
      assert sc.den < sc.num;
      MulLess(sc.den, sc.num, sg.num);
    }
    forall c | IsDivisor(n, c)
      ensures !Less(Score(c, n / c, t), sg)
    {
      var sc := Score(c, n / c, t);
      MulLe(sc.den, sc.num, sg.num);
    }
  }

  lemma FewerColumnsMoreRows(n: int, c: int, d: int)
    requires IsDivisor(n, c) && IsDivisor(n, d) && c < d
    ensures n / c > n / d
  {
    DivisorProduct(n, c);
    DivisorProduct(n, d);
    if n / c <= n / d {
      MulLe(n / c, n / d, c);
      MulLess(c, d, n / d);
    }
  }

  /** For a square image, 64 pieces give an 8 by 8 grid. */
  lemma SquareSixtyFour()
    ensures IsBestGrid(64, Target(1, 1), Dims(8, 8))
  {
    ExactAspectWins(64, Target(1, 1), Dims(8, 8));
  }

  /** For an image twice as wide as tall, 10 pieces give 5 columns by 2 rows,
      not 2 by 5. */
  lemma WideTen()
    ensures IsBestGrid(10, Target(2, 1), Dims(5, 2))
  {
    var t := Target(2, 1);
    var s5 := Score(5, 2, t);
    assert s5 == Ratio(5, 4);
    forall c | IsDivisor(10, c)
      ensures !Less(Score(c, 10 / c, t), s5)
      ensures c < 5 ==> Less(s5, Score(c, 10 / c, t))
    {
      if c == 1 {
        assert Score(1, 10, t) == Ratio(20, 1);
      } else if c == 2 {
        assert Score(2, 5, t) == Ratio(10, 2);
      } else if c == 5 {
      } else if c == 10 {
        assert Score(10, 1, t) == Ratio(10, 2);
      }
    }
  }

  /** For a square image, 12 pieces give 3 by 4: in exact arithmetic it ties with 4 by 3,
      and the strict comparison keeps the pair found first, the one with fewer columns.
      The source compares rounded logarithms, and there 4 by 3 scores lower. */
  lemma SquareTwelveTie()
    ensures IsBestGrid(12, Target(1, 1), Dims(3, 4))
    ensures GridScore(Dims(3, 4), Target(1, 1)) == GridScore(Dims(4, 3), Target(1, 1))
  {
    var t := Target(1, 1);
    var s3 := Score(3, 4, t);
    assert s3 == Ratio(4, 3);
    forall c | IsDivisor(12, c)
      ensures !Less(Score(c, 12 / c, t), s3)
      ensures c < 3 ==> Less(s3, Score(c, 12 / c, t))
    {
      if c == 1 {
        assert Score(1, 12, t) == Ratio(12, 1);
      } else if c == 2 {
        assert Score(2, 6, t) == Ratio(6, 2);
      } else if c == 4 {
        assert Score(4, 3, t) == Ratio(4, 3);
      } else if c == 6 {
        assert Score(6, 2, t) == Ratio(6, 2);
      } else if c == 12 {
        assert Score(12, 1, t) == Ratio(12, 1);
      }
    }
  }
}
