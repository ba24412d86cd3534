/**
 * The dataset feature extractor (python_recognition/dataset/BasicImageProcessor.py): label
 * table, pixel conversion, landmark normalisation, the first-hand-only rule and the layout
 * of one CSV row.
 */
module BasicImageProcessor {
  import opened Wrappers
  import opened Landmark
  import opened Detection
  import opened Features

  /** The fixed label order; a label's position is the numeric class written to the CSV. */
  const LABELS: seq<string> := ["a", "b", "c", "d", "e", "f", "g", "h", "ch", "i", "j", "k", "l",
    "m", "n", "o", "p", "q", "r", "s", "t", "u", "v", "w", "x", "y", "z", "none"]

  /** The exceptions `pre_process_landmark` can raise. */
  datatype FeatureError =
    | EmptyMax       // `max()` of an empty list raises ValueError
    | ZeroDivision   // every landmark equals landmark 0, so `n / max_value` divides by zero

  /** The table has 28 distinct entries with the two reserved labels at 8 and 27. */
  lemma LabelTable()
    ensures |LABELS| == 28
    ensures forall i, j :: 0 <= i < j < |LABELS| ==> LABELS[i] != LABELS[j]
    ensures LABELS[8] == "ch" && LABELS[27] == "none"
  {
  }

  /** The class index of a label directory: its position in `LABELS`, or None when it is not a label. */
  function ClassIndex(name: string): (r: Option<nat>)
    ensures r.Some? ==> r.value < |LABELS| && LABELS[r.value] == name
    ensures r.None? <==> name !in LABELS
  {
    IndexFrom(name, 0)
  }

  function IndexFrom(name: string, i: nat): (r: Option<nat>)
    requires i <= |LABELS|
    ensures r.Some? ==> i <= r.value < |LABELS| && LABELS[r.value] == name
    ensures r.None? <==> forall k :: i <= k < |LABELS| ==> LABELS[k] != name
    decreases |LABELS| - i
  {
    if i == |LABELS| then None
    else if LABELS[i] == name then Some(i)
    else IndexFrom(name, i + 1)
  }

  /** Position and label agree both ways: the index of the `k`-th label is `k`. */
  lemma ClassIndexRoundTrip(k: nat)
    requires k < |LABELS|
    ensures ClassIndex(LABELS[k]) == Some(k)
  {
    LabelTable();
  }

  /** A label directory that `run` visits, with the class index it writes for its images. */
  datatype LabelDirectory = LabelDirectory(index: nat, name: string)

  /**
   * The label directories of one dataset in the order `run` visits them: `enumerate(LABELS)`,
   * skipping each label whose directory `offset + label` does not exist.
   */
  function LabelDirectories(offset: string, dirExists: string -> bool): (r: seq<LabelDirectory>)
    ensures forall e :: e in r ==> e.index < |LABELS| && e.name == LABELS[e.index]
    ensures forall k :: 0 <= k < |LABELS| ==> (LabelDirectory(k, LABELS[k]) in r <==> dirExists(offset + LABELS[k]))
    ensures forall a, b :: 0 <= a < b < |r| ==> r[a].index < r[b].index
  {
    DirectoriesFrom(offset, dirExists, 0)
  }

  function DirectoriesFrom(offset: string, dirExists: string -> bool, i: nat): (r: seq<LabelDirectory>)
    requires i <= |LABELS|
    ensures forall e :: e in r ==> i <= e.index < |LABELS| && e.name == LABELS[e.index]
    ensures forall k :: i <= k < |LABELS| ==> (LabelDirectory(k, LABELS[k]) in r <==> dirExists(offset + LABELS[k]))
    ensures forall a, b :: 0 <= a < b < |r| ==> r[a].index < r[b].index
    decreases |LABELS| - i
  {
    if i == |LABELS| then []
    else
      var rest := DirectoriesFrom(offset, dirExists, i + 1);
      if dirExists(offset + LABELS[i]) then [LabelDirectory(i, LABELS[i])] + rest else rest
  }

  /** `calc_landmark_list`: one `[x, y]` pixel pair per landmark, appended in landmark order. */
  method CalcLandmarkList(landmarks: seq<Landmark3d>, width: int, height: int) returns (points: seq<Landmark2d>)
    ensures |points| == |landmarks|
    ensures forall i :: 0 <= i < |points| ==> points[i] == PixelOf(landmarks[i], width, height)
    ensures forall i :: 0 <= i < |points| ==> points[i].x <= width - 1 && points[i].y <= height - 1
  {
    points := [];
    var i := 0;
    while i < |landmarks|
      invariant 0 <= i <= |landmarks|
      invariant |points| == i
      invariant forall k :: 0 <= k < i ==> points[k] == PixelOf(landmarks[k], width, height)
    {
      points := points + [PixelOf(landmarks[i], width, height)];
      i := i + 1;
    }
  }

  /** What `pre_process_landmark` returns or raises for a list of pixel points. */
  function Normalize(ps: seq<Landmark2d>): (r: Result<seq<real>, FeatureError>)
  {
    if |ps| == 0 then Failure(EmptyMax)
    else if MaxAbs(Deltas(ps)) == 0 then Failure(ZeroDivision)
    else Success(Divide(Deltas(ps), MaxAbs(Deltas(ps))))
  }

  /**
   * `pre_process_landmark`: works on a copy of the list, rewrites each point in place relative to
   * landmark 0, flattens, and divides by the largest absolute value.
   */
  method PreProcessLandmark(landmarkList: seq<Landmark2d>) returns (r: Result<seq<real>, FeatureError>)
    ensures r == Normalize(landmarkList)
  {
    var n := |landmarkList|;
    var temp := new Landmark2d[n](i requires 0 <= i < n => landmarkList[i]);
    var baseX, baseY := 0, 0;
    var index := 0;
    while index < n
      invariant 0 <= index <= n
      invariant index > 0 ==> baseX == landmarkList[0].x && baseY == landmarkList[0].y
      invariant forall k :: 0 <= k < index ==> temp[k] == Relative(landmarkList)[k]
      invariant forall k :: index <= k < n ==> temp[k] == landmarkList[k]
    {
      if index == 0 {
        baseX, baseY := temp[index].x, temp[index].y;
      }
      temp[index] := Landmark2d(temp[index].x - baseX, temp[index].y - baseY);
      index := index + 1;
    }
    assert temp[..] == Relative(landmarkList);
    var flat := Flatten(temp[..]);
    if |flat| == 0 {
      return Failure(EmptyMax);
    }
    var maxValue := MaxAbs(flat);
    if maxValue == 0 {
      return Failure(ZeroDivision);
    }
    r := Success(Divide(flat, maxValue));
  }

  /**
   * Normalisation succeeds exactly for a non-empty list with a point away from landmark 0; the
   * empty list fails at `max()` and a list collapsed onto landmark 0 fails at the division.
   */
  lemma NormalizeFailures(ps: seq<Landmark2d>)
    ensures Normalize(ps) == Failure(EmptyMax) <==> |ps| == 0
    ensures Normalize(ps) == Failure(ZeroDivision) <==> |ps| > 0 && forall i :: 0 <= i < |ps| ==> ps[i] == ps[0]
    ensures Normalize(ps).Success? <==> exists i :: 0 <= i < |ps| && ps[i] != ps[0]
  {
    if |ps| > 0 {
      DegenerateIffAllAtBase(ps);
    }
  }

  /**
   * A successful feature vector has two entries per landmark in the order x0, y0, x1, y1, ...: entry
   * `2i` is point `i`'s x distance from landmark 0 over the divisor, entry `2i+1` its y distance.
   */
  lemma NormalizeLayout(ps: seq<Landmark2d>, i: int)
    requires Normalize(ps).Success? && 0 <= i < |ps|
    ensures |Normalize(ps).value| == 2 * |ps|
    ensures Normalize(ps).value[2 * i] == (ps[i].x - ps[0].x) as real / MaxAbs(Deltas(ps)) as real
    ensures Normalize(ps).value[2 * i + 1] == (ps[i].y - ps[0].y) as real / MaxAbs(Deltas(ps)) as real
  {
    var m := MaxAbs(Deltas(ps));
    assert Normalize(ps).value == Divide(Deltas(ps), m);
    DeltasDividedAt(ps, m, i);
  }

  /**
   * A successful feature vector starts with (0, 0), lies in [-1, 1] and reaches 1 or -1 somewhere.
   */
  lemma NormalizeBounds(ps: seq<Landmark2d>)
    requires Normalize(ps).Success?
    ensures Normalize(ps).value[0] == 0.0 && Normalize(ps).value[1] == 0.0
    ensures forall i :: 0 <= i < |Normalize(ps).value| ==> -1.0 <= Normalize(ps).value[i] <= 1.0
    ensures exists j :: 0 <= j < |Normalize(ps).value| && (Normalize(ps).value[j] == 1.0 || Normalize(ps).value[j] == -1.0)
  {
    var d := Deltas(ps);
    var m := MaxAbs(d);
    var r := Divide(d, m);
    assert Normalize(ps).value == r;
    DeltasStartWithZero(ps);
    DivideAt(d, m, 0, 0);
    DivideAt(d, m, 1, 0);
    assert 0 as real / m as real == 0.0;
    DivideByMaxAbsBounds(d);
  }

  /** Shifting every point by the same pixel offset leaves the result unchanged, failures included. */
  lemma NormalizeTranslationInvariant(ps: seq<Landmark2d>, dx: int, dy: int)
    ensures Normalize(Translate(ps, dx, dy)) == Normalize(ps)
  {
    DeltasTranslationInvariant(ps, dx, dy);
  }

  /** Moving every point `k > 0` times as far from landmark 0 leaves the result unchanged. */
  lemma NormalizeScaleInvariant(ps: seq<Landmark2d>, k: int)
    requires k > 0
    ensures Normalize(ScaleAboutBase(ps, k)) == Normalize(ps)
  {
    var qs := ScaleAboutBase(ps, k);
    if |ps| > 0 {
      var d, e := Deltas(ps), Deltas(qs);
      DeltasScale(ps, k);
      MaxAbsScale(d, e, k);
      var m := MaxAbs(d);
      if m == 0 {
        assert MaxAbs(e) == k * 0 == 0;
        assert Normalize(qs) == Failure(ZeroDivision) == Normalize(ps);
      } else {
        MulPositive(k, m);
        DivideScale(d, e, m, k);
        assert Normalize(qs) == Success(Divide(e, k * m));
        assert Normalize(ps) == Success(Divide(d, m));
      }
    }
  }

  /** The features of the first detected hand, or None when no hand is detected. */
  function ImageFeatures<F>(detector: Detector<F>, img: F): (r: Result<Option<seq<real>>, FeatureError>)
  {
    var hands := detector.process(img);
    if |hands| == 0 then Success(None)
    else match Normalize(Pixels(hands[0], detector.width(img), detector.height(img)))
      case Success(v) => Success(Some(v))
      case Failure(e) => Failure(e)
  }

  /**
   * `process_image` on an already loaded, flipped and colour-converted image: None when no hand is
   * detected, otherwise the features of the FIRST detected hand; later hands are ignored.
   */
  method ProcessImage<F>(detector: Detector<F>, img: F) returns (r: Result<Option<seq<real>>, FeatureError>)
    ensures |detector.process(img)| == 0 ==> r == Success(None)
    ensures |detector.process(img)| > 0 ==>
      var pts := Pixels(detector.process(img)[0], detector.width(img), detector.height(img));
      (r.Success? ==> r.value.Some? && Normalize(pts) == Success(r.value.value)) &&
      (r.Failure? ==> Normalize(pts) == Failure(r.error))
  {
    var hands := detector.process(img);
    if |hands| == 0 {
      return Success(None);
    }
    var landmarkList := CalcLandmarkList(hands[0], detector.width(img), detector.height(img));
    assert landmarkList == Pixels(hands[0], detector.width(img), detector.height(img));
    var data := PreProcessLandmark(landmarkList);
    match data
    case Success(v) => r := Success(Some(v));
    case Failure(e) => r := Failure(e);
  }

  /** The decimal digits of a natural number (`f"{i}"`). */
  function Decimal(n: nat): (s: string)
    ensures |s| > 0
    ensures forall i :: 0 <= i < |s| ==> '0' <= s[i] <= '9'
    ensures forall c :: c in s ==> '0' <= c <= '9'
  {
    if n < 10 then [Digit(n)] else Decimal(n / 10) + [Digit(n % 10)]
  }

  function Digit(d: nat): (c: char)
    requires d < 10
    ensures '0' <= c <= '9'
  {
    ('0' as int + d) as char
  }

  /** The number a string of decimal digits denotes, read left to right (Python's `int(s)`). */
  function DecimalValue(s: string): nat
    requires forall i :: 0 <= i < |s| ==> '0' <= s[i] <= '9'
  {
    if |s| == 0 then 0
    else DecimalValue(s[..|s| - 1]) * 10 + (s[|s| - 1] as int - '0' as int)
  }

  /**
   * `f"{i}"` is the decimal numeral of `i`: it reads back as `i`, and it has no leading zero
   * (zero itself is "0").
   */
  lemma {:induction false} DecimalRoundTrip(n: nat)
    ensures DecimalValue(Decimal(n)) == n
    ensures n == 0 ==> Decimal(n) == "0"
    ensures n > 0 ==> Decimal(n)[0] != '0'
  {
    if n >= 10 {
      DecimalRoundTrip(n / 10);
      var s := Decimal(n);
      var prefix := Decimal(n / 10);
      assert s == prefix + [Digit(n % 10)];
      assert s[..|s| - 1] == prefix;
      assert s[0] == prefix[0];
    }
  }

  /** `fields` separated by `sep`, with no separator after the last one. */
  function Join(fields: seq<string>, sep: char): string
  {
    if |fields| == 0 then ""
    else if |fields| == 1 then fields[0]
    else fields[0] + [sep] + Join(fields[1..], sep)
  }

  /** The fields of a line cut at every `sep`. */
  function Split(s: string, sep: char): (r: seq<string>)
    ensures |r| > 0
    decreases |s|
  {
    if sep !in s then [s]
    else
      var k := FirstIndex(s, sep);
      [s[..k]] + Split(s[k + 1..], sep)
  }

  function FirstIndex(s: string, c: char): (k: nat)
    requires c in s
    ensures k < |s| && s[k] == c && c !in s[..k]
  {
    if s[0] == c then 0
    else
      var k := FirstIndex(s[1..], c);
      assert s[1..][..k] == s[1..k + 1];
      k + 1
  }

  /** The first separator of `head + [sep] + tail` is the one right after `head`, when `head` has none. */
  lemma {:induction false} FirstIndexAfter(head: string, sep: char, tail: string)
    requires sep !in head
    ensures sep in head + [sep] + tail
    ensures FirstIndex(head + [sep] + tail, sep) == |head|
    decreases |head|
  {
    var s := head + [sep] + tail;
    assert s[|head|] == sep;
    if |head| > 0 {
      assert s[0] == head[0] != sep;
      assert s[1..] == head[1..] + [sep] + tail;
      FirstIndexAfter(head[1..], sep, tail);
    }
  }

  /** Cutting a joined line at its separators gives back the fields when no field holds a separator. */
  lemma {:induction false} SplitJoin(fields: seq<string>, sep: char)
    requires |fields| > 0
    requires forall f :: f in fields ==> sep !in f
    ensures Split(Join(fields, sep), sep) == fields
  {
    if |fields| > 1 {
      var head, tail := fields[0], Join(fields[1..], sep);
      var s := head + [sep] + tail;
      assert s[..|head|] == head;
      assert s[|head|] == sep;
      assert s[|head| + 1..] == tail;
      FirstIndexAfter(head, sep, tail);
      SplitJoin(fields[1..], sep);
      assert [head] + fields[1..] == fields;
    }
  }

  /** The text of every feature value as Python writes it (`f"{num}"`). */
  function Texts(data: seq<real>, formatReal: real -> string): (r: seq<string>)
    ensures |r| == |data|
  {
    seq(|data|, i requires 0 <= i < |data| => formatReal(data[i]))
  }

  /**
   * One CSV row as `run` writes it: the class index, a comma, then each feature followed by a comma
   * except the last, then a newline.
   */
  method WriteRow(index: nat, data: seq<real>, formatReal: real -> string) returns (row: string)
    requires |data| > 0
    ensures row == Join([Decimal(index)] + Texts(data, formatReal), ',') + "\n"
  {
    ghost var texts := Texts(data, formatReal);
    row := Decimal(index) + ",";
    var i := 0;
    while i < |data|
      invariant 0 <= i <= |data|
      invariant row == Decimal(index) + "," + Written(texts, i, ',')
    {
      if i == |data| - 1 {
        row := row + formatReal(data[i]);
      } else {
        row := row + formatReal(data[i]) + ",";
      }
      i := i + 1;
    }
    row := row + "\n";
    WrittenIsJoin(texts, ',');
    JoinCons(Decimal(index), texts, ',');
  }

  /** The text written for the first `i` fields: each followed by `sep` except the last field. */
  function Written(fields: seq<string>, i: nat, sep: char): string
    requires i <= |fields|
  {
    if i == 0 then ""
    else Written(fields, i - 1, sep) + fields[i - 1] + (if i < |fields| then [sep] else "")
  }

  lemma WrittenIsJoin(fields: seq<string>, sep: char)
    ensures Written(fields, |fields|, sep) == Join(fields, sep)
  {
    if |fields| > 1 {
      WrittenShift(fields, |fields|, sep);
      WrittenIsJoin(fields[1..], sep);
    }
  }

  /** Writing the fields after the first is writing the first field, `sep`, then the rest. */
  lemma {:induction false} WrittenShift(fields: seq<string>, i: nat, sep: char)
    requires 1 <= i <= |fields| && |fields| > 1
    ensures Written(fields, i, sep) == fields[0] + [sep] + Written(fields[1..], i - 1, sep)
  {
    if i > 1 {
      WrittenShift(fields, i - 1, sep);
    }
  }

  lemma JoinCons(head: string, fields: seq<string>, sep: char)
    requires |fields| > 0
    ensures Join([head] + fields, sep) == head + [sep] + Join(fields, sep)
  {
    assert ([head] + fields)[1..] == fields;
  }

  /**
   * A row read back by cutting it at its commas yields the class index and then every feature, in
   * order, provided no feature text contains a comma (Python's float texts never do); the first
   * field reads back as the index.
   */
  lemma RowFields(index: nat, data: seq<real>, formatReal: real -> string)
    requires |data| > 0
    requires forall i :: 0 <= i < |data| ==> ',' !in formatReal(data[i])
    ensures Split(Join([Decimal(index)] + Texts(data, formatReal), ','), ',') == [Decimal(index)] + Texts(data, formatReal)
    ensures |Split(Join([Decimal(index)] + Texts(data, formatReal), ','), ',')| == |data| + 1
    ensures DecimalValue(Split(Join([Decimal(index)] + Texts(data, formatReal), ','), ',')[0]) == index
  {
    DecimalRoundTrip(index);
    var fields := [Decimal(index)] + Texts(data, formatReal);
    forall f | f in fields ensures ',' !in f {
      if f != Decimal(index) {
        var i :| 0 <= i < |data| && f == formatReal(data[i]);
      }
    }
    SplitJoin(fields, ',');
  }
}
