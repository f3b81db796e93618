/**
 * The daily schedule and the seven-keyframe table built from it: black
 * overnight until wake, red at sunrise, yellow at solar noon, cyan at sunset,
 * blue at sleep, black again at midnight.
 */
module Schedule {
  import opened Clock
  import opened Gradient

  const Black: Color := FromHex(0x00, 0x00, 0x00)
  const Red: Color := FromHex(0xff, 0x00, 0x00)
  const Yellow: Color := FromHex(0xff, 0xff, 0x00)
  const Cyan: Color := FromHex(0x00, 0xff, 0xff)
  const Blue: Color := FromHex(0x00, 0x00, 0xff)

  /** `getSchedule`: the fixed wake and sleep offsets, in that order. */
  function GetSchedule(): (r: (Duration, Duration))
    ensures 0 < r.0 < r.1 < Day
    ensures r.0 == 7 * Hour && r.1 == 23 * Hour
  {
    (7 * Hour, 23 * Hour)
  }

  /**
   * The table literal of `main`, from the three solar offsets returned by
   * `getSolarTimes`. Nothing checks their order.
   */
  function BuildTable(sunrise: Duration, noon: Duration, sunset: Duration): (gt: GradientTable)
    ensures |gt| == 7
    ensures gt[0].time == 0 && gt[|gt| - 1].time == Day
    ensures gt[0].c == Black && gt[|gt| - 1].c == Black
  {
    var (wake, sleep) := GetSchedule();
    [ Keyframe(Black, 0),
      Keyframe(Black, wake),
      Keyframe(Red, sunrise),
      Keyframe(Yellow, noon),
      Keyframe(Cyan, sunset),
      Keyframe(Blue, sleep),
      Keyframe(Black, 24 * Hour) ]
  }

  /** The solar offsets lie, in order, between wake and sleep (ties allowed). */
  predicate InOrder(sunrise: Duration, noon: Duration, sunset: Duration) {
    7 * Hour <= sunrise <= noon <= sunset <= 23 * Hour
  }

  /** The solar offsets lie, in order, strictly between wake and sleep. */
  predicate StrictlyInOrder(sunrise: Duration, noon: Duration, sunset: Duration) {
    7 * Hour < sunrise < noon < sunset < 23 * Hour
  }

  /** The table is ascending exactly when the solar offsets are in order between wake and sleep. */
  lemma TableAscendingIff(sunrise: Duration, noon: Duration, sunset: Duration)
    ensures Ascending(BuildTable(sunrise, noon, sunset)) <==> InOrder(sunrise, noon, sunset)
  {
    var gt := BuildTable(sunrise, noon, sunset);
    if InOrder(sunrise, noon, sunset) {
      AdjacentAscending(gt);
    } else {
      assert !(gt[1].time <= gt[2].time && gt[2].time <= gt[3].time
               && gt[3].time <= gt[4].time && gt[4].time <= gt[5].time);
    }
  }

  /**
   * The table is strictly ascending, so that no pair has zero length,
   * exactly when 0h < 7h < sunrise < noon < sunset < 23h < 24h.
   */
  lemma TableStrictlyAscendingIff(sunrise: Duration, noon: Duration, sunset: Duration)
    ensures StrictlyAscending(BuildTable(sunrise, noon, sunset)) <==> StrictlyInOrder(sunrise, noon, sunset)
  {
    var gt := BuildTable(sunrise, noon, sunset);
    if StrictlyInOrder(sunrise, noon, sunset) {
      AdjacentStrictlyAscending(gt);
    } else {
      assert !(gt[1].time < gt[2].time && gt[2].time < gt[3].time
               && gt[3].time < gt[4].time && gt[4].time < gt[5].time);
    }
  }

  /** No two neighbouring keyframes share an offset, so no pair has zero length. */
  predicate NoZeroLengthPair(gt: GradientTable) {
    forall i | 0 <= i < |gt| - 1 :: gt[i].time != gt[i + 1].time
  }

  /**
   * The table has no pair of zero length exactly when each solar offset
   * differs from its neighbours in the table: wake, sunrise, noon, sunset,
   * sleep. Order is not needed; a sunrise before wake is allowed.
   */
  lemma TableNoZeroLengthIff(sunrise: Duration, noon: Duration, sunset: Duration)
    ensures NoZeroLengthPair(BuildTable(sunrise, noon, sunset))
       <==> 7 * Hour != sunrise && sunrise != noon && noon != sunset && sunset != 23 * Hour
  {
    var gt := BuildTable(sunrise, noon, sunset);
    assert gt[1].time == 7 * Hour && gt[2].time == sunrise && gt[3].time == noon;
    assert gt[4].time == sunset && gt[5].time == 23 * Hour;
  }

  /**
   * When the solar offsets are in order (ties allowed), every offset of the
   * day is blended within a pair of positive length: the lookup never takes
   * a boundary branch and never forms the fraction 0/0.
   */
  lemma DayAlwaysBlends(sunrise: Duration, noon: Duration, sunset: Duration, t: Duration)
    requires InOrder(sunrise, noon, sunset) && 0 <= t <= Day
    ensures var gt := BuildTable(sunrise, noon, sunset);
      && Lookup(gt, t).Segment?
      && var f := Fraction(gt, Lookup(gt, t).i, t); 0 <= f.0 <= f.1 && f.1 > 0
  {
    var gt := BuildTable(sunrise, noon, sunset);
    TableAscendingIff(sunrise, noon, sunset);
    InRangeFindsSegment(gt, t);
    AscendingNeverZeroLength(gt, t);
  }
}
