# rgbshift, modelled in Dafny

rgbshift sets a lighting device to a colour that follows the time of day.
Once a second it reads the clock and takes the offset since local midnight.
It looks that offset up in a gradient table of seven (colour, offset)
keyframes: black overnight, black at wake (7h), red at sunrise, yellow at
solar noon, cyan at sunset, blue at sleep (23h), black at 24h. The colour of
the surrounding pair is blended at the offset's position within the pair. A
colour whose hex key equals the previous colour's key is dropped. Every
other colour is pushed to the device, and a failed push ends the process.

The model has five modules:

- `Options` (options.dfy): the optional value used for "no key yet".
- `Clock` (clock.dfy): durations in nanoseconds, Go's saturating `Time.Sub`,
  and `sinceMidnight` with the day start as a parameter.
- `Gradient` (gradient.dfy): colours, keyframes and the lookup. There is a
  recursive scan `FindSegment`, the branch choice `Lookup`, the colour
  `GetColor`, and `GetColorLoop`, a method with the source's loop and early
  return that is proved equal to `GetColor`.
- `Schedule` (schedule.dfy): `getSchedule` and the seven-entry table literal.
- `Pipeline` (pipeline.dfy): `Distinct`, a pure specification of
  `DistinctUntilChanged`, and the class `ColorPump`. The class holds the
  filter's last key, the log of colours handed to the device, and the
  stopped flag. `Offer` and `Tick` update them one tick at a time, and
  `Valid()` ties the log to `Distinct` of all colours produced so far.

Blending and hex keys come from an external colour library. The model takes
them as function-valued parameters: `BlendFn` stands for
`c1.BlendLab(c2, f).Clamped()` and `KeyFn` stands for `c.Hex()`. The blend
fraction is passed as an integer numerator and denominator in nanoseconds,
so the model proves which branch is taken, which pair is chosen and where
the fraction lies without floating point. Only the end-point ensures of
`SegmentColor` and the lemma `KeyframeColorAtItsOffset` assume anything of
the blend. They assume `ExactAtEnds`: fraction 0 gives
the first colour and fraction 1 gives the second.

The source never checks that the table is sorted or that adjacent offsets
differ. Keeping to the code, the model defines the lookup for every
non-empty table. Sortedness appears only as a hypothesis of the lemmas.
A pair of zero length hit at its offset passes the fraction 0/0 to the
blend. In Go this is a NaN, not a crash, so it is not excluded by a
precondition. `AscendingNeverZeroLength` and `DayAlwaysBlends` show that
this cannot happen for an ascending table whose first pair has positive
length, and so never for the built table when the solar offsets are in
order, ties included. The code never rejects degenerate solar offsets
(sunrise equal to noon, say), so the model does not either.
`TableStrictlyAscendingIff` gives the condition under which the table is
strictly ascending, which rules out a pair of zero length.
`TableNoZeroLengthIff` gives the exact condition for that: wake, sunrise,
noon, sunset and sleep each differ from their neighbours, in any order.

## Model

| member | source | states |
|---|---|---|
| Clock.Sub | main.go:47 | `Time.Sub` gives the exact difference when it fits in a 64-bit duration, otherwise the nearest bound, and keeps the sign |
| Clock.SinceMidnight | main.go:44-48 | the offset is non-negative exactly when the reading is not before the day start, and adds back to the reading whenever the difference fits a duration; `SinceMidnightWithinDay` bounds it to [0h, 24h) within the day |
| Clock.SinceMidnightWithinDay | main.go:44-48 | a reading within the day gives an offset in [0h, 24h), and day start plus offset is the reading |
| Gradient.FirstCoverUnique | main.go:130-133 | at most one index is the first pair surrounding `t`, so the `FirstCover` quantifier in `GetColor`'s contract ranges over exactly the pair the scan picks |
| Gradient.FromHex | main.go:22-28 | a "#rrggbb" literal gives channels in [0, 1]; 0x00 gives 0 and 0xff gives 1 |
| Gradient.FindSegment | main.go:130-140 | the scan returns the lowest pair index from `from` on whose keyframes surround `t`, or None when no pair does |
| Gradient.Lookup | main.go:122-145 | the branch is "before first" exactly when `t` precedes the first offset; otherwise it is the first surrounding pair, or "after last" exactly when no pair surrounds `t` |
| Gradient.SegmentColor | main.go:134-138 | the pair's colours are blended at the fraction `Fraction` gives; with a blend exact at its ends and a pair of positive length, the result is the first colour at the pair's start and the second at its end |
| Gradient.Fraction | main.go:134 | the fraction's numerator lies between 0 and its denominator; it is 0 exactly at the pair's first offset and equals the denominator exactly at its second |
| Gradient.GetColor | main.go:122-145 | before the first keyframe the result is the first colour, unblended; inside, it is the blend of the first surrounding pair at (t - start, end - start); with no surrounding pair it is the last colour |
| Gradient.GetColorLoop | main.go:122-145 | the guarded scan with an early return computes exactly `GetColor`, for any table of length at least 1, without indexing out of bounds |
| Gradient.SingleKeyframe | main.go:124-144 | a one-keyframe table gives its colour at every offset |
| Gradient.ScanFindsSegment | main.go:130-140 | in an ascending table the scan from `from` finds a pair for every `t` between keyframe `from` and the last keyframe |
| Gradient.InRangeFindsSegment | main.go:129-144 | for an ascending table of two or more keyframes, a pair is blended exactly when `t` is within [first, last], and the after-last fallback is taken exactly when `t` is later than the last offset |
| Gradient.AfterLastGivesLastColor | main.go:142-144 | past the last offset of an ascending table the result is exactly the last colour |
| Gradient.KeyframeOffsetPick | main.go:129-138 | in a strictly ascending table, at a keyframe's exact offset the chosen pair is the one ending at it, at fraction (d, d) with d > 0, or pair 0 at (0, d) for the first keyframe |
| Gradient.ZeroLengthNeedsDescent | main.go:130-134 | a chosen pair of zero length is the first pair or follows a keyframe later than it |
| Gradient.AscendingNeverZeroLength | main.go:133-134 | in an ascending table whose first pair has positive length, the chosen pair has positive length, so the fraction is in [0, 1] and never 0/0 |
| Gradient.KeyframeColorAtItsOffset | main.go:129-138 | in a strictly ascending table, with a blend exact at fractions 0 and 1, the colour at a keyframe's offset is that keyframe's colour |
| Schedule.GetSchedule | main.go:117-119 | wake is 7h and sleep is 23h, with 0 < wake < sleep < 24h |
| Schedule.BuildTable | main.go:66-76 | the table has seven keyframes, starting black at 0h and ending black at 24h |
| Schedule.TableAscendingIff | main.go:68-76 | the table is ascending exactly when 7h <= sunrise <= noon <= sunset <= 23h |
| Schedule.TableStrictlyAscendingIff | main.go:68-76 | the table is strictly ascending exactly when 7h < sunrise < noon < sunset < 23h |
| Schedule.TableNoZeroLengthIff | main.go:68-76 | the table has no pair of zero length exactly when 7h != sunrise, sunrise != noon, noon != sunset and sunset != 23h, whatever their order |
| Schedule.DayAlwaysBlends | main.go:66-88 | with the solar offsets in order, every offset in [0h, 24h] is blended within a pair of positive length |
| Pipeline.DedupFrom | main.go:91 | the filter's output is no longer than its input, and a first colour whose key differs from the previous key is passed on first |
| Pipeline.Distinct | main.go:91 | the colours forwarded over a whole run are no more than the ticks, and start with the first tick's colour; `DistinctProperties` proves it is an order-preserving subsequence starting with the first colour, without neighbouring repeated keys, and idempotent |
| Pipeline.DedupFromSnoc | main.go:91 | one more colour is passed on exactly when its key differs from the key of the colour before it, or when it is the first colour |
| Pipeline.DedupFromIsSubsequence | main.go:91 | the filtered stream is an order-preserving subsequence of its input |
| Pipeline.DedupFromNoRepeats | main.go:91 | no two neighbours in the filtered stream share a key, and its first key differs from the previous key |
| Pipeline.DedupFromKeepsNoRepeats | main.go:91 | a stream without neighbouring equal keys passes the filter unchanged |
| Pipeline.DistinctProperties | main.go:91-101 | the forwarded colours are a subsequence of the tick colours, start with the first tick's colour, never repeat a key in neighbours, and filtering twice equals filtering once |
| Pipeline.TwoTicks | main.go:91-101 | two ticks with one key give one forward; two ticks with different keys give two, in order |
| Pipeline.ColorPump.constructor | main.go:78-91 | the pipeline starts with no last key, nothing forwarded, and not stopped |
| Pipeline.ColorPump.Offer | main.go:91-101 | a colour is appended to the device log exactly when its key differs from the last key; a failed push stops the pipeline; the log stays equal to `Distinct` of all colours offered |
| Pipeline.ColorPump.Tick | main.go:85-101 | a tick offers `GetColor` of the offset since midnight, forwards it exactly when its key differs from the last key, and stops the pipeline exactly when that forward's push fails |

## Left out

- The blend (`BlendLab` and `Clamped`) and the hex key (`Hex`) are floating-point colour maths in an external library. They are the parameters `BlendFn` and `KeyFn`. `toHexCtx` (main.go:112-115) is the `KeyFn` parameter itself.
- The device client (`NewModel`, `SetColor`, `Thither`) does network I/O. The device is the `forwarded` log. A push's outcome is the `synced` parameter, and a failed push sets `halted`, which stands for `os.Exit`.
- The reactive-stream runtime, the one-second ticker and its channel are concurrency and timer plumbing. They are the sequence of `Tick` calls.
- `getSolarTimes` is an astronomical computation in a file that is not part of this model. Sunrise, noon and sunset are parameters of `BuildTable`.
- `time.Now`, time zones and daylight saving are left out. The start of the current day is the `dayStart` parameter of `SinceMidnight` and `Tick`.
- Logging and tracing have no effect on results and are left out.
- `mustParseTime` and `mustParseDuration` are left out: the durations are integer constants. `mustParseHex` is modelled only on the five literals the table uses (`FromHex`), which always parse.
- Gradient.GetColor: the fraction's integer subtraction is unbounded here. In Go it is 64-bit. It cannot overflow for offsets within one day (the built table's, and `SinceMidnight`'s result within the day).
- The table is not rebuilt when local midnight passes: the source notes this as a known gap, and `ColorPump.table` is a constant.
- Gradient.KeyframeColorAtItsOffset: its hypothesis `ExactAtEnds` is an idealisation. `BlendLab(c2, 0).Clamped()` sends the colour through float64 Lab and XYZ and back, so it returns `c1` only up to rounding (the hex key is unaffected). `KeyframeOffsetPick` states the part that needs no hypothesis: which pair is chosen and its end fraction.
- Gradient.SegmentColor: its two end-point ensures rest on the same `ExactAtEnds` idealisation. The real blend returns the pair's end colours only up to float rounding.
