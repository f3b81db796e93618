/**
 * The tick pipeline: every tick's clock reading is mapped to a colour, a
 * colour whose hex key equals the previous colour's key is dropped, and every
 * other colour is handed to the lighting device in order.
 */
module Pipeline {
  import opened Options
  import opened Clock
  import opened Gradient

  /** `c.Hex()`: the colour's canonical "#rrggbb" key, from an external library. */
  type KeyFn = Color -> string

  /**
   * What `DistinctUntilChanged` passes on from `cs`, given the key of the last
   * item it passed on before them (None before the first item).
   */
  function DedupFrom(prev: Option<string>, cs: seq<Color>, key: KeyFn): (d: seq<Color>)
    decreases |cs|
    ensures |d| <= |cs|
    ensures cs != [] && prev != Some(key(cs[0])) ==> d != [] && d[0] == cs[0]
  {
    if cs == [] then []
    else if prev == Some(key(cs[0])) then DedupFrom(prev, cs[1..], key)
    else [cs[0]] + DedupFrom(Some(key(cs[0])), cs[1..], key)
  }

  /** The colours the pipeline forwards when the Map stage produced `cs`. */
  function Distinct(cs: seq<Color>, key: KeyFn): (d: seq<Color>)
    ensures |d| <= |cs|
    ensures cs != [] ==> d != [] && d[0] == cs[0]
  {
    DedupFrom(None, cs, key)
  }

  /** The key the filter compares the next colour against. */
  function LastKey(prev: Option<string>, cs: seq<Color>, key: KeyFn): Option<string> {
    if cs == [] then prev else Some(key(cs[|cs| - 1]))
  }

  /** `xs` is `ys` with some items left out, the rest in their order. */
  ghost predicate IsSubsequence(xs: seq<Color>, ys: seq<Color>)
    decreases |ys|
  {
    if xs == [] then true
    else if ys == [] then false
    else (xs[0] == ys[0] && IsSubsequence(xs[1..], ys[1..])) || IsSubsequence(xs, ys[1..])
  }

  /** No two neighbours in `xs` share a key, and the first differs from `prev`. */
  ghost predicate NoRepeats(prev: Option<string>, xs: seq<Color>, key: KeyFn) {
    && (xs != [] ==> prev != Some(key(xs[0])))
    && forall i | 0 <= i < |xs| - 1 :: key(xs[i]) != key(xs[i + 1])
  }

  /**
   * One more colour is forwarded exactly when its key differs from the key
   * of the colour before it (or it is the first colour).
   */
  lemma {:induction false} DedupFromSnoc(prev: Option<string>, cs: seq<Color>, c: Color, key: KeyFn)
    ensures DedupFrom(prev, cs + [c], key)
         == if LastKey(prev, cs, key) == Some(key(c)) then DedupFrom(prev, cs, key)
            else DedupFrom(prev, cs, key) + [c]
    decreases |cs|
  {
    if cs == [] {
      assert [c][1..] == [];
    } else {
      assert (cs + [c])[0] == cs[0] && (cs + [c])[1..] == cs[1..] + [c];
      var next := if prev == Some(key(cs[0])) then prev else Some(key(cs[0]));
      DedupFromSnoc(next, cs[1..], c, key);
      assert LastKey(next, cs[1..], key) == LastKey(prev, cs, key);
    }
  }

  /** The forwarded stream keeps the colours' order and invents none. */
  lemma {:induction false} DedupFromIsSubsequence(prev: Option<string>, cs: seq<Color>, key: KeyFn)
    ensures IsSubsequence(DedupFrom(prev, cs, key), cs)
    decreases |cs|
  {
    if cs != [] {
      var d := DedupFrom(prev, cs, key);
      if prev == Some(key(cs[0])) {
        DedupFromIsSubsequence(prev, cs[1..], key);
      } else {
        DedupFromIsSubsequence(Some(key(cs[0])), cs[1..], key);
        assert d[0] == cs[0] && d[1..] == DedupFrom(Some(key(cs[0])), cs[1..], key);
      }
    }
  }

  /** No two consecutive forwarded colours share a key. */
  lemma {:induction false} DedupFromNoRepeats(prev: Option<string>, cs: seq<Color>, key: KeyFn)
    ensures NoRepeats(prev, DedupFrom(prev, cs, key), key)
    decreases |cs|
  {
    if cs != [] {
      if prev == Some(key(cs[0])) {
        DedupFromNoRepeats(prev, cs[1..], key);
      } else {
        var rest := DedupFrom(Some(key(cs[0])), cs[1..], key);
        DedupFromNoRepeats(Some(key(cs[0])), cs[1..], key);
        var d := [cs[0]] + rest;
        forall i | 0 <= i < |d| - 1 ensures key(d[i]) != key(d[i + 1]) {
          if i > 0 {
            assert d[i] == rest[i - 1] && d[i + 1] == rest[i];
          }
        }
      }
    }
  }

  /** A stream with no repeats passes the filter unchanged. */
  lemma {:induction false} DedupFromKeepsNoRepeats(prev: Option<string>, xs: seq<Color>, key: KeyFn)
    requires NoRepeats(prev, xs, key)
    ensures DedupFrom(prev, xs, key) == xs
    decreases |xs|
  {
    if xs != [] {
      var rest := xs[1..];
      assert NoRepeats(Some(key(xs[0])), rest, key) by {
        forall i | 0 <= i < |rest| - 1 ensures key(rest[i]) != key(rest[i + 1]) {
          assert rest[i] == xs[i + 1] && rest[i + 1] == xs[i + 2];
        }
      }
      DedupFromKeepsNoRepeats(Some(key(xs[0])), rest, key);
    }
  }

  /**
   * The properties of the filter over a whole run: order-preserving
   * subsequence, first colour always forwarded, no neighbours with one key,
   * and filtering twice is filtering once.
   */
  lemma DistinctProperties(cs: seq<Color>, key: KeyFn)
    ensures IsSubsequence(Distinct(cs, key), cs)
    ensures cs != [] ==> Distinct(cs, key) != [] && Distinct(cs, key)[0] == cs[0]
    ensures var d := Distinct(cs, key);
      forall i | 0 <= i < |d| - 1 :: key(d[i]) != key(d[i + 1])
    ensures Distinct(Distinct(cs, key), key) == Distinct(cs, key)
  {
    DedupFromIsSubsequence(None, cs, key);
    DedupFromNoRepeats(None, cs, key);
    DedupFromKeepsNoRepeats(None, Distinct(cs, key), key);
  }

  /**
   * Two ticks whose colours share a key produce one forward; two ticks
   * whose colours differ in key produce two, in tick order.
   */
  lemma TwoTicks(c1: Color, c2: Color, key: KeyFn)
    ensures Distinct([c1, c2], key) == if key(c1) == key(c2) then [c1] else [c1, c2]
  {
    DedupFromSnoc(None, [c1], c2, key);
    assert [c1] + [c2] == [c1, c2];
  }

  /**
   * The running pipeline: the fixed table it reads, the filter's last key,
   * the colours handed to the device, and whether a failed push stopped the
   * process.
   */
  class ColorPump {
    const table: GradientTable
    const blend: BlendFn
    const key: KeyFn
    var lastKey: Option<string>
    var forwarded: seq<Color>
    var halted: bool
    /** Every colour the Map stage has produced so far. */
    ghost var colors: seq<Color>

    ghost predicate Valid()
      reads this
    {
      && |table| >= 1
      && lastKey == LastKey(None, colors, key)
      && forwarded == Distinct(colors, key)
      && (halted ==> forwarded != [])
    }

    constructor (table: GradientTable, blend: BlendFn, key: KeyFn)
      requires |table| >= 1
      ensures Valid()
      ensures this.table == table && this.blend == blend && this.key == key
      ensures colors == [] && forwarded == [] && !halted
    {
      this.table, this.blend, this.key := table, blend, key;
      lastKey, forwarded, halted := None, [], false;
      colors := [];
    }

    /**
     * The `DistinctUntilChanged` and `ForEach` steps for one colour: drop it
     * when its key equals the last key, otherwise hand it to the device;
     * `synced` is whether the device push succeeds, and a failed push stops
     * the process. A stopped pipeline takes no more colours.
     */
    method Offer(c: Color, synced: bool)
      requires Valid()
      modifies this
      ensures Valid()
      ensures old(halted) ==> halted && colors == old(colors) && forwarded == old(forwarded)
      ensures !old(halted) ==> colors == old(colors) + [c]
      ensures !old(halted) ==>
        forwarded == if old(lastKey) == Some(key(c)) then old(forwarded) else old(forwarded) + [c]
      ensures !old(halted) ==> (halted <==> old(lastKey) != Some(key(c)) && !synced)
    {
      if halted {
        return;
      }
      DedupFromSnoc(None, colors, c, key);
      var k := key(c);
      if lastKey != Some(k) {
        lastKey := Some(k);
        forwarded := forwarded + [c];
        if !synced {
          halted := true;
        }
      }
      colors := colors + [c];
    }

    /**
     * One timer tick at instant `now`, with `dayStart` the start of the day
     * the wall clock reads at that moment: map the reading to a colour, then
     * offer it to the filter.
     */
    method Tick(now: int, dayStart: int, synced: bool)
      requires Valid()
      modifies this
      ensures Valid()
      ensures old(halted) ==> halted && colors == old(colors) && forwarded == old(forwarded)
      ensures !old(halted) ==>
        colors == old(colors) + [GetColor(table, SinceMidnight(now, dayStart), blend)]
      ensures !old(halted) ==>
        var c := GetColor(table, SinceMidnight(now, dayStart), blend);
        forwarded == if old(lastKey) == Some(key(c)) then old(forwarded) else old(forwarded) + [c]
      ensures !old(halted) ==>
        var c := GetColor(table, SinceMidnight(now, dayStart), blend);
        (halted <==> old(lastKey) != Some(key(c)) && !synced)
    {
      var d := SinceMidnight(now, dayStart);
      var c := GetColorLoop(table, d, blend);
      Offer(c, synced);
    }
  }
}
