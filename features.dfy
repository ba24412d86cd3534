/**
 * The landmark feature computation that the training script, the Python runner and the
 * browser code each implement: coordinates relative to landmark 0, flattened to
 * x0, y0, x1, y1, ..., divided by the largest absolute value. The three implementations
 * differ only in their failure behaviour, which their own modules model; the shared
 * arithmetic (exact, on integers and reals) is defined once here.
 */
module Features {
  import opened Landmark

  /** Every point made relative to the base point `ps[0]` (the wrist). */
  function Relative(ps: seq<Landmark2d>): (r: seq<Landmark2d>)
    ensures |r| == |ps|
  {
    if |ps| == 0 then [] else seq(|ps|, i requires 0 <= i < |ps| => Shift(ps[i], -ps[0].x, -ps[0].y))
  }

  /** The points laid out as one list x0, y0, x1, y1, ... */
  function Flatten(ps: seq<Landmark2d>): (r: seq<int>)
    ensures |r| == 2 * |ps|
    ensures forall i :: 0 <= i < |ps| ==> r[2 * i] == ps[i].x && r[2 * i + 1] == ps[i].y
  {
    if |ps| == 0 then [] else [ps[0].x, ps[0].y] + Flatten(ps[1..])
  }

  /** Appending a point appends its two coordinates. */
  lemma {:induction false} FlattenSnoc(ps: seq<Landmark2d>, p: Landmark2d)
    ensures Flatten(ps + [p]) == Flatten(ps) + [p.x, p.y]
  {
    if |ps| > 0 {
      assert (ps + [p])[1..] == ps[1..] + [p];
      FlattenSnoc(ps[1..], p);
    } else {
      assert (ps + [p])[1..] == [];
    }
  }

  function Abs(n: int): (r: nat)
    ensures r == n || r == -n
  {
    if n < 0 then -n else n
  }

  /** The largest absolute value in a non-empty list (`max(map(abs, l))`). */
  function MaxAbs(s: seq<int>): (m: nat)
    requires |s| > 0
    ensures forall i :: 0 <= i < |s| ==> Abs(s[i]) <= m
    ensures exists j :: 0 <= j < |s| && Abs(s[j]) == m
  {
    if |s| == 1 then Abs(s[0])
    else
      var rest := MaxAbs(s[1..]);
      assert forall i :: 1 <= i < |s| ==> s[i] == s[1..][i - 1];
      if Abs(s[0]) >= rest then Abs(s[0]) else rest
  }

  /** Every entry divided by `m`, in exact real arithmetic. */
  function Divide(s: seq<int>, m: int): (r: seq<real>)
    requires m != 0
    ensures |r| == |s|
  {
    seq(|s|, i requires 0 <= i < |s| => s[i] as real / m as real)
  }

  /** Entry `k` of a division is the numerator `a` at `k` over the divisor. */
  lemma DivideAt(s: seq<int>, m: int, k: int, a: int)
    requires m != 0 && 0 <= k < |s| && s[k] == a
    ensures Divide(s, m)[k] == a as real / m as real
  {
  }

  /** The flattened relative coordinates of a hand: the numerator of every feature. */
  function Deltas(ps: seq<Landmark2d>): (r: seq<int>)
    ensures |r| == 2 * |ps|
  {
    Flatten(Relative(ps))
  }

  /** Every point shifted by the same pixel offset. */
  function Translate(ps: seq<Landmark2d>, dx: int, dy: int): (r: seq<Landmark2d>)
    ensures |r| == |ps|
  {
    seq(|ps|, i requires 0 <= i < |ps| => Shift(ps[i], dx, dy))
  }

  /** Every point moved `k` times as far from the base point. */
  function ScaleAboutBase(ps: seq<Landmark2d>, k: int): (r: seq<Landmark2d>)
    ensures |r| == |ps|
  {
    if |ps| == 0 then [] else
      seq(|ps|, i requires 0 <= i < |ps| =>
        Landmark2d(ps[0].x + k * (ps[i].x - ps[0].x), ps[0].y + k * (ps[i].y - ps[0].y)))
  }

  /** The base point contributes (0, 0): the first two deltas are zero. */
  lemma DeltasStartWithZero(ps: seq<Landmark2d>)
    requires |ps| > 0
    ensures Deltas(ps)[0] == 0 && Deltas(ps)[1] == 0
  {
    assert Relative(ps)[0] == Landmark2d(0, 0);
  }

  /** Delta `2i` is the x distance of point `i` from the base point, delta `2i+1` the y distance. */
  lemma DeltasLayout(ps: seq<Landmark2d>, i: int)
    requires 0 <= i < |ps|
    ensures Deltas(ps)[2 * i] == ps[i].x - ps[0].x
    ensures Deltas(ps)[2 * i + 1] == ps[i].y - ps[0].y
  {
    assert Relative(ps)[i] == Shift(ps[i], -ps[0].x, -ps[0].y);
  }

  /** The relative points do not change when every point is shifted by the same offset. */
  lemma RelativeTranslationInvariant(ps: seq<Landmark2d>, dx: int, dy: int)
    ensures Relative(Translate(ps, dx, dy)) == Relative(ps)
  {
    var t := Translate(ps, dx, dy);
    if |ps| > 0 {
      forall i | 0 <= i < |ps| ensures Relative(t)[i] == Relative(ps)[i] {
        assert t[i] == Shift(ps[i], dx, dy) && t[0] == Shift(ps[0], dx, dy);
      }
    }
  }

  /** Dividing the deltas by any `m` puts point `i`'s x and y distances over `m` at `2i` and `2i+1`. */
  lemma DeltasDividedAt(ps: seq<Landmark2d>, m: int, i: int)
    requires m != 0 && 0 <= i < |ps|
    ensures Divide(Deltas(ps), m)[2 * i] == (ps[i].x - ps[0].x) as real / m as real
    ensures Divide(Deltas(ps), m)[2 * i + 1] == (ps[i].y - ps[0].y) as real / m as real
  {
    DeltasLayout(ps, i);
    DivideAt(Deltas(ps), m, 2 * i, ps[i].x - ps[0].x);
    DivideAt(Deltas(ps), m, 2 * i + 1, ps[i].y - ps[0].y);
  }

  /** The deltas do not change when every point is shifted by the same offset. */
  lemma DeltasTranslationInvariant(ps: seq<Landmark2d>, dx: int, dy: int)
    ensures Deltas(Translate(ps, dx, dy)) == Deltas(ps)
  {
    RelativeTranslationInvariant(ps, dx, dy);
  }

  /** The largest absolute value is zero exactly when every entry is zero. */
  lemma MaxAbsZeroIff(s: seq<int>)
    requires |s| > 0
    ensures MaxAbs(s) == 0 <==> forall j :: 0 <= j < |s| ==> s[j] == 0
  {
    if MaxAbs(s) == 0 {
      forall j | 0 <= j < |s| ensures s[j] == 0 {
        assert Abs(s[j]) <= 0;
      }
    } else {
      var j :| 0 <= j < |s| && Abs(s[j]) == MaxAbs(s);
      assert s[j] != 0;
    }
  }

  /** A flattened list is all zeros exactly when every point is at the origin. */
  lemma FlattenZeroIff(qs: seq<Landmark2d>)
    ensures (forall j :: 0 <= j < |Flatten(qs)| ==> Flatten(qs)[j] == 0)
        <==> forall i :: 0 <= i < |qs| ==> qs[i] == Landmark2d(0, 0)
  {
    var f := Flatten(qs);
    if forall j :: 0 <= j < |f| ==> f[j] == 0 {
      forall i | 0 <= i < |qs| ensures qs[i] == Landmark2d(0, 0) {
        assert f[2 * i] == qs[i].x && f[2 * i + 1] == qs[i].y;
      }
    } else {
      var j :| 0 <= j < |f| && f[j] != 0;
      var p := j / 2;
      assert j == 2 * p || j == 2 * p + 1;
      assert f[2 * p] == qs[p].x && f[2 * p + 1] == qs[p].y;
    }
  }

  /** Every relative point is the origin exactly when every point coincides with the base point. */
  lemma RelativeZeroIff(ps: seq<Landmark2d>)
    requires |ps| > 0
    ensures (forall i :: 0 <= i < |ps| ==> Relative(ps)[i] == Landmark2d(0, 0))
        <==> forall i :: 0 <= i < |ps| ==> ps[i] == ps[0]
  {
    var r := Relative(ps);
    forall i | 0 <= i < |ps| ensures r[i] == Landmark2d(0, 0) <==> ps[i] == ps[0] {
      assert r[i] == Shift(ps[i], -ps[0].x, -ps[0].y);
    }
  }

  /** The largest absolute delta is zero exactly when every point coincides with the base point. */
  lemma DegenerateIffAllAtBase(ps: seq<Landmark2d>)
    requires |ps| > 0
    ensures MaxAbs(Deltas(ps)) == 0 <==> forall i :: 0 <= i < |ps| ==> ps[i] == ps[0]
  {
    var d := Deltas(ps);
    assert d == Flatten(Relative(ps));
    MaxAbsZeroIff(d);
    FlattenZeroIff(Relative(ps));
    RelativeZeroIff(ps);
  }

  /**
   * Dividing by the largest absolute value puts every entry in [-1, 1] and makes at least
   * one entry exactly 1 or -1.
   */
  lemma DivideByMaxAbsBounds(s: seq<int>)
    requires |s| > 0 && MaxAbs(s) != 0
    ensures forall i :: 0 <= i < |s| ==> -1.0 <= Divide(s, MaxAbs(s))[i] <= 1.0
    ensures exists j :: 0 <= j < |s| && (Divide(s, MaxAbs(s))[j] == 1.0 || Divide(s, MaxAbs(s))[j] == -1.0)
  {
    var m := MaxAbs(s);
    var r := Divide(s, m);
    forall i | 0 <= i < |s| ensures -1.0 <= r[i] <= 1.0 {
      assert Abs(s[i]) <= m;
      UnitQuotient(s[i], m);
      DivideAt(s, m, i, s[i]);
    }
    var j :| 0 <= j < |s| && Abs(s[j]) == m;
    SelfQuotient(m);
    if s[j] == m {
      DivideAt(s, m, j, m);
    } else {
      DivideAt(s, m, j, -(m as int));
    }
  }

  lemma SelfQuotient(m: int)
    requires m != 0
    ensures m as real / m as real == 1.0 && (-m) as real / m as real == -1.0
  {
  }

  /** `a / m` lies in [-1, 1] when `|a| <= m`. */
  lemma UnitQuotient(a: int, m: int)
    requires m > 0 && -m <= a <= m
    ensures -1.0 <= a as real / m as real <= 1.0
  {
  }

  /** Scaling every offset from the base point by `k` scales every delta by `k`. */
  lemma DeltasScale(ps: seq<Landmark2d>, k: int)
    ensures |Deltas(ScaleAboutBase(ps, k))| == |Deltas(ps)|
    ensures forall i :: 0 <= i < |Deltas(ps)| ==> Deltas(ScaleAboutBase(ps, k))[i] == k * Deltas(ps)[i]
  {
    var q := ScaleAboutBase(ps, k);
    if |ps| > 0 {
      ScaleFixesBase(ps, k);
    }
    forall i | 0 <= i < |Deltas(ps)| ensures Deltas(q)[i] == k * Deltas(ps)[i] {
      var p := i / 2;
      ScaledPoint(ps, k, p);
      DeltaScaleAt(ps, q, k, p);
      assert i == 2 * p || i == 2 * p + 1;
    }
  }

  /** When point `p` of `q` is `k` times as far from the shared base point, so are its deltas. */
  lemma DeltaScaleAt(ps: seq<Landmark2d>, q: seq<Landmark2d>, k: int, p: int)
    requires 0 <= p < |ps| == |q| && q[0] == ps[0]
    requires q[p].x - ps[0].x == k * (ps[p].x - ps[0].x)
    requires q[p].y - ps[0].y == k * (ps[p].y - ps[0].y)
    ensures Deltas(q)[2 * p] == k * Deltas(ps)[2 * p]
    ensures Deltas(q)[2 * p + 1] == k * Deltas(ps)[2 * p + 1]
  {
    DeltasLayout(ps, p);
    DeltasLayout(q, p);
    assert q[0].x == ps[0].x && q[0].y == ps[0].y;
    MulCongruence(k, Deltas(ps)[2 * p], ps[p].x - ps[0].x);
    MulCongruence(k, Deltas(ps)[2 * p + 1], ps[p].y - ps[0].y);
  }

  /** Equal factors give equal products; kept apart so that the solver need not find it in a larger context. */
  lemma MulCongruence(k: int, a: int, b: int)
    requires a == b
    ensures k * a == k * b
  {
  }

  /** Point `p` of the scaled list is `k` times as far from the base point on each axis. */
  lemma ScaledPoint(ps: seq<Landmark2d>, k: int, p: int)
    requires 0 <= p < |ps|
    ensures ScaleAboutBase(ps, k)[p].x - ps[0].x == k * (ps[p].x - ps[0].x)
    ensures ScaleAboutBase(ps, k)[p].y - ps[0].y == k * (ps[p].y - ps[0].y)
  {
    var dx, dy := ps[p].x - ps[0].x, ps[p].y - ps[0].y;
    assert ScaleAboutBase(ps, k)[p] == Landmark2d(ps[0].x + k * dx, ps[0].y + k * dy);
  }

  lemma ScaleFixesBase(ps: seq<Landmark2d>, k: int)
    requires |ps| > 0
    ensures ScaleAboutBase(ps, k)[0] == ps[0]
  {
    var b := ps[0];
    assert b.x - b.x == 0 && b.y - b.y == 0;
    MulZero(k);
    assert ScaleAboutBase(ps, k)[0] == Landmark2d(b.x + k * 0, b.y + k * 0);
  }

  lemma MulZero(k: int)
    ensures k * 0 == 0
  {
  }

  /** Scaling every entry by a positive `k` scales the largest absolute value by `k`. */
  lemma MaxAbsScale(s: seq<int>, t: seq<int>, k: int)
    requires |s| > 0 && |t| == |s| && k > 0
    requires forall i :: 0 <= i < |s| ==> t[i] == k * s[i]
    ensures MaxAbs(t) == k * MaxAbs(s)
  {
    var m := MaxAbs(s);
    var mt := MaxAbs(t);
    var jt :| 0 <= jt < |t| && Abs(t[jt]) == mt;
    AbsScale(s[jt], k);
    MulMonotone(k, Abs(s[jt]), m);
    var j :| 0 <= j < |s| && Abs(s[j]) == m;
    AbsScale(s[j], k);
    assert Abs(t[j]) <= mt;
  }

  lemma AbsScale(a: int, k: int)
    requires k > 0
    ensures Abs(k * a) == k * Abs(a)
  {
  }

  lemma MulMonotone(k: int, a: int, b: int)
    requires k > 0 && a <= b
    ensures k * a <= k * b
  {
  }

  lemma MulPositive(k: int, m: int)
    requires k > 0 && m > 0
    ensures k * m > 0
  {
  }

  /** Dividing `k * s` by `k * m` gives the same list as dividing `s` by `m`. */
  lemma DivideScale(s: seq<int>, t: seq<int>, m: int, k: int)
    requires |t| == |s| && k > 0 && m != 0
    requires forall i :: 0 <= i < |s| ==> t[i] == k * s[i]
    ensures Divide(t, k * m) == Divide(s, m)
  {
    forall i | 0 <= i < |s| ensures Divide(t, k * m)[i] == Divide(s, m)[i] {
      CancelFactor(s[i], m, k);
    }
  }

  lemma CancelFactor(a: int, m: int, k: int)
    requires k > 0 && m != 0
    ensures (k * a) as real / (k * m) as real == a as real / m as real
  {
  }
}
