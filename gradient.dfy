/**
 * The gradient table and its lookup: a clock offset is mapped to the colour
 * of the keyframe pair that surrounds it, blended at the offset's position
 * within that pair.
 */
module Gradient {
  import opened Options
  import opened Clock

  /** A `colorful.Color`: red, green and blue channels. */
  datatype Color = Color(r: real, g: real, b: real)

  /** The colour a "#rrggbb" literal parses to: each byte scaled into [0, 1]. */
  function FromHex(r: nat, g: nat, b: nat): (c: Color)
    requires r < 256 && g < 256 && b < 256
    ensures 0.0 <= c.r <= 1.0 && 0.0 <= c.g <= 1.0 && 0.0 <= c.b <= 1.0
    ensures (c.r == 0.0 <==> r == 0) && (c.r == 1.0 <==> r == 255)
    ensures (c.g == 0.0 <==> g == 0) && (c.g == 1.0 <==> g == 255)
    ensures (c.b == 0.0 <==> b == 0) && (c.b == 1.0 <==> b == 255)
  {
    Color(r as real / 255.0, g as real / 255.0, b as real / 255.0)
  }

  /**
   * `c1.BlendLab(c2, f).Clamped()` with the fraction `f` given as a
   * numerator and a denominator of nanoseconds. Blending happens in the Lab
   * colour space of an external library, so the model takes it as a
   * parameter and assumes nothing about it beyond what a lemma names.
   */
  type BlendFn = (Color, Color, Duration, Duration) -> Color

  /** One row of `gradientTable`: a colour and its offset from midnight. */
  datatype Keyframe = Keyframe(c: Color, time: Duration)

  type GradientTable = seq<Keyframe>

  /** The pair of keyframes at `i` and `i + 1` surrounds `t`, both ends included. */
  predicate Covers(gt: GradientTable, i: int, t: Duration)
    requires 0 <= i < |gt| - 1
  {
    gt[i].time <= t <= gt[i + 1].time
  }

  /** `i` is the lowest index of a pair that surrounds `t`. */
  ghost predicate FirstCover(gt: GradientTable, t: Duration, i: int) {
    0 <= i < |gt| - 1 && Covers(gt, i, t) && forall j | 0 <= j < i :: !Covers(gt, j, t)
  }

  /** No pair of the table surrounds `t`. */
  ghost predicate NoCover(gt: GradientTable, t: Duration) {
    forall j | 0 <= j < |gt| - 1 :: !Covers(gt, j, t)
  }

  /** Offsets never decrease along the table. */
  ghost predicate Ascending(gt: GradientTable) {
    forall i, j | 0 <= i <= j < |gt| :: gt[i].time <= gt[j].time
  }

  /** Offsets strictly increase along the table. */
  ghost predicate StrictlyAscending(gt: GradientTable) {
    forall i, j | 0 <= i < j < |gt| :: gt[i].time < gt[j].time
  }

  lemma FirstCoverUnique(gt: GradientTable, t: Duration, i: int, k: int)
    requires FirstCover(gt, t, i) && FirstCover(gt, t, k)
    ensures i == k
  {
  }

  /**
   * The scan of adjacent pairs from index `from` on: the first pair that
   * surrounds `t`, or None when no remaining pair does.
   */
  function FindSegment(gt: GradientTable, t: Duration, from: nat): (r: Option<nat>)
    decreases |gt| - from
    ensures r.Some? ==> from <= r.value < |gt| - 1 && Covers(gt, r.value, t)
    ensures r.Some? ==> forall j | from <= j < r.value :: !Covers(gt, j, t)
    ensures r.None? ==> forall j | from <= j < |gt| - 1 :: !Covers(gt, j, t)
  {
    if from + 1 >= |gt| then None
    else if Covers(gt, from, t) then Some(from)
    else FindSegment(gt, t, from + 1)
  }

  /** Which of the three branches of the lookup applies. */
  datatype Pick = BeforeFirst | Segment(i: nat) | AfterLast

  /**
   * The branch the lookup takes for `t`: before the first keyframe, the first
   * surrounding pair, or after the last keyframe when no pair surrounds `t`.
   */
  function Lookup(gt: GradientTable, t: Duration): (p: Pick)
    requires |gt| >= 1
    ensures p.BeforeFirst? <==> t < gt[0].time
    ensures p.Segment? ==> t >= gt[0].time && FirstCover(gt, t, p.i)
    ensures p.AfterLast? <==> t >= gt[0].time && NoCover(gt, t)
  {
    if t < gt[0].time then BeforeFirst
    else
      match FindSegment(gt, t, 0)
      case Some(i) => Segment(i)
      case None => AfterLast
  }

  /**
   * The fraction of the way `t` has travelled through pair `i`, as
   * (elapsed, length) in nanoseconds.
   */
  function Fraction(gt: GradientTable, i: int, t: Duration): (f: (Duration, Duration))
    requires 0 <= i < |gt| - 1 && Covers(gt, i, t)
    ensures 0 <= f.0 <= f.1
    ensures f.0 == 0 <==> t == gt[i].time
    ensures f.0 == f.1 <==> t == gt[i + 1].time
    ensures f.1 == 0 <==> gt[i].time == gt[i + 1].time
  {
    (t - gt[i].time, gt[i + 1].time - gt[i].time)
  }

  /** The blend returns its first colour at fraction 0 and its second at fraction 1. */
  ghost predicate ExactAtEnds(blend: BlendFn) {
    && (forall a, b, d | d > 0 :: blend(a, b, 0, d) == a)
    && (forall a, b, d | d > 0 :: blend(a, b, d, d) == b)
  }

  /** The colour of pair `i` blended at the fraction `t` gives. */
  function SegmentColor(gt: GradientTable, i: int, t: Duration, blend: BlendFn): (c: Color)
    requires 0 <= i < |gt| - 1 && Covers(gt, i, t)
    ensures ExactAtEnds(blend) && gt[i].time < gt[i + 1].time && t == gt[i].time ==> c == gt[i].c
    ensures ExactAtEnds(blend) && gt[i].time < gt[i + 1].time && t == gt[i + 1].time ==> c == gt[i + 1].c
  {
    var f := Fraction(gt, i, t);
    blend(gt[i].c, gt[i + 1].c, f.0, f.1)
  }

  /**
   * `getColor`: the first keyframe's colour before the table starts, the
   * blend of the first surrounding pair inside it, the last keyframe's
   * colour when no pair surrounds `t`.
   */
  function GetColor(gt: GradientTable, t: Duration, blend: BlendFn): (c: Color)
    requires |gt| >= 1
    ensures t < gt[0].time ==> c == gt[0].c
    ensures forall i | t >= gt[0].time && FirstCover(gt, t, i) :: c == SegmentColor(gt, i, t, blend)
    ensures t >= gt[0].time && NoCover(gt, t) ==> c == gt[|gt| - 1].c
  {
    match Lookup(gt, t)
    case BeforeFirst => gt[0].c
    case Segment(i) => SegmentColor(gt, i, t, blend)
    case AfterLast => gt[|gt| - 1].c
  }

  /** `getColor` as the source runs it: a guard, a scan with an early return, a fallback. */
  method GetColorLoop(gt: GradientTable, t: Duration, blend: BlendFn) returns (c: Color)
    requires |gt| >= 1
    ensures c == GetColor(gt, t, blend)
  {
    if t < gt[0].time {
      return gt[0].c;
    }
    var i := 0;
    while i < |gt| - 1
      invariant 0 <= i <= |gt| - 1
      invariant forall j | 0 <= j < i :: !Covers(gt, j, t)
    {
      var c1, c2 := gt[i], gt[i + 1];
      if c1.time <= t && t <= c2.time {
        assert FirstCover(gt, t, i);
        return blend(c1.c, c2.c, t - c1.time, c2.time - c1.time);
      }
      i := i + 1;
    }
    return gt[|gt| - 1].c;
  }

  /** A table of one keyframe gives that keyframe's colour at every offset. */
  lemma SingleKeyframe(gt: GradientTable, t: Duration, blend: BlendFn)
    requires |gt| == 1
    ensures GetColor(gt, t, blend) == gt[0].c
  {
  }

  /** Pairs are ascending when each keyframe is no later than the next. */
  lemma {:induction false} AdjacentAscending(gt: GradientTable)
    requires forall i | 0 <= i < |gt| - 1 :: gt[i].time <= gt[i + 1].time
    ensures Ascending(gt)
    decreases |gt|
  {
    if |gt| > 1 {
      var rest := gt[1..];
      assert forall i | 0 <= i < |rest| - 1 :: rest[i].time <= rest[i + 1].time by {
        forall i | 0 <= i < |rest| - 1 ensures rest[i].time <= rest[i + 1].time {
          assert rest[i] == gt[i + 1] && rest[i + 1] == gt[i + 2];
        }
      }
      AdjacentAscending(rest);
      forall i, j | 0 <= i <= j < |gt| ensures gt[i].time <= gt[j].time {
        if 0 < i {
          assert gt[i] == rest[i - 1] && gt[j] == rest[j - 1];
        } else if 0 < j {
          assert gt[1] == rest[0] && gt[j] == rest[j - 1];
        }
      }
    }
  }

  /** Pairs are strictly ascending when each keyframe is earlier than the next. */
  lemma {:induction false} AdjacentStrictlyAscending(gt: GradientTable)
    requires forall i | 0 <= i < |gt| - 1 :: gt[i].time < gt[i + 1].time
    ensures StrictlyAscending(gt)
    decreases |gt|
  {
    if |gt| > 1 {
      var rest := gt[1..];
      assert forall i | 0 <= i < |rest| - 1 :: rest[i].time < rest[i + 1].time by {
        forall i | 0 <= i < |rest| - 1 ensures rest[i].time < rest[i + 1].time {
          assert rest[i] == gt[i + 1] && rest[i + 1] == gt[i + 2];
        }
      }
      AdjacentStrictlyAscending(rest);
      forall i, j | 0 <= i < j < |gt| ensures gt[i].time < gt[j].time {
        if 0 < i {
          assert gt[i] == rest[i - 1] && gt[j] == rest[j - 1];
        } else if 1 < j {
          assert gt[1] == rest[0] && gt[j] == rest[j - 1];
        }
      }
    }
  }

  /** In an ascending table a pair from `from` on surrounds any `t` between keyframe `from` and the last. */
  lemma {:induction false} ScanFindsSegment(gt: GradientTable, t: Duration, from: nat)
    requires Ascending(gt) && from < |gt| - 1
    requires gt[from].time <= t <= gt[|gt| - 1].time
    ensures FindSegment(gt, t, from).Some?
    decreases |gt| - from
  {
    if !Covers(gt, from, t) {
      ScanFindsSegment(gt, t, from + 1);
    }
  }

  /**
   * In an ascending table of two or more keyframes, the lookup blends a pair
   * exactly when `t` lies between the first and the last offsets, and falls
   * back to the last colour exactly when `t` is later than the last offset.
   */
  lemma InRangeFindsSegment(gt: GradientTable, t: Duration)
    requires |gt| >= 2 && Ascending(gt)
    ensures Lookup(gt, t).Segment? <==> gt[0].time <= t <= gt[|gt| - 1].time
    ensures Lookup(gt, t).AfterLast? <==> t > gt[|gt| - 1].time
  {
    if gt[0].time <= t <= gt[|gt| - 1].time {
      ScanFindsSegment(gt, t, 0);
    }
  }

  /** Past the last keyframe of an ascending table the lookup gives the last colour, unblended. */
  lemma AfterLastGivesLastColor(gt: GradientTable, t: Duration, blend: BlendFn)
    requires |gt| >= 1 && Ascending(gt) && t > gt[|gt| - 1].time
    ensures Lookup(gt, t).AfterLast?
    ensures GetColor(gt, t, blend) == gt[|gt| - 1].c
  {
    if |gt| >= 2 {
      InRangeFindsSegment(gt, t);
    }
  }

  /**
   * A chosen pair of zero length (both keyframes at `t`) is either the first
   * pair or follows a keyframe later than `t`: the pair before it would
   * otherwise have surrounded `t` first.
   */
  lemma ZeroLengthNeedsDescent(gt: GradientTable, t: Duration)
    requires |gt| >= 1 && Lookup(gt, t).Segment?
    requires Fraction(gt, Lookup(gt, t).i, t).1 == 0
    ensures var i := Lookup(gt, t).i; i == 0 || gt[i - 1].time > gt[i].time
  {
    var i := Lookup(gt, t).i;
    if i > 0 && gt[i - 1].time <= gt[i].time {
      assert Covers(gt, i - 1, t);
      assert false;
    }
  }

  /**
   * In an ascending table whose first pair has positive length, the chosen
   * pair always has positive length: the fraction is never 0/0 and lies in [0, 1].
   */
  lemma AscendingNeverZeroLength(gt: GradientTable, t: Duration)
    requires |gt| >= 2 && Ascending(gt) && gt[0].time < gt[1].time
    requires Lookup(gt, t).Segment?
    ensures var f := Fraction(gt, Lookup(gt, t).i, t); 0 <= f.0 <= f.1 && f.1 > 0
  {
    var i := Lookup(gt, t).i;
    if Fraction(gt, i, t).1 == 0 {
      ZeroLengthNeedsDescent(gt, t);
      assert false;
    }
  }

  /**
   * At exactly a keyframe's offset in a strictly ascending table, the lookup
   * chooses the pair that ends at that keyframe, at the fraction (d, d) with
   * d > 0; for the first keyframe it chooses pair 0 at the fraction (0, d).
   */
  lemma KeyframeOffsetPick(gt: GradientTable, k: int)
    requires StrictlyAscending(gt) && |gt| >= 2 && 0 <= k < |gt|
    ensures Lookup(gt, gt[k].time) == Segment(if k == 0 then 0 else k - 1)
    ensures k == 0 ==> var f := Fraction(gt, 0, gt[k].time); f.0 == 0 && f.1 > 0
    ensures k > 0 ==> var f := Fraction(gt, k - 1, gt[k].time); f.0 == f.1 && f.1 > 0
  {
    var t := gt[k].time;
    if k == 0 {
      assert FirstCover(gt, t, 0);
    } else {
      assert forall j | 0 <= j < k - 1 :: !Covers(gt, j, t) by {
        forall j | 0 <= j < k - 1 ensures !Covers(gt, j, t) {
          assert gt[j + 1].time < gt[k].time;
        }
      }
      assert FirstCover(gt, t, k - 1);
    }
    FirstCoverUnique(gt, t, Lookup(gt, t).i, if k == 0 then 0 else k - 1);
  }

  /**
   * At exactly a keyframe's offset the lookup gives that keyframe's colour,
   * for a strictly ascending table and a blend that is exact at the ends of
   * its range; so the colour is the same whichever adjacent pair is used.
   */
  lemma KeyframeColorAtItsOffset(gt: GradientTable, k: int, blend: BlendFn)
    requires StrictlyAscending(gt) && ExactAtEnds(blend) && 0 <= k < |gt|
    ensures GetColor(gt, gt[k].time, blend) == gt[k].c
  {
    if |gt| >= 2 {
      KeyframeOffsetPick(gt, k);
    }
  }
}
