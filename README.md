# DPM SCN analysis core in Dafny

DPM SCN reads the descriptor (`.mds`) of a disc image and the DPM table
stored in it. DPM is Data Position Measurement: one cumulative timestamp
per group of `itv` sectors. From the differences of those timestamps it
finds:

- the layer break of a dual-layer DVD, and its track path;
- the timing spikes, as increases and decreases;
- their amplitudes;
- the regions that the spikes cluster into;
- a verdict on whether the layout is consistent;
- per-slot statistics of the spike lengths.

This project models that core: the decoder of `parse.c` and the analysis
functions of `scan.c`. The source's own data is kept:

- the file is a sequence of bytes;
- the `MDS` record is a datatype;
- the `DPM` table is an array that the decoder fills in place;
- `DISC` is a class with the four fixed-capacity arrays of the source (200, 200, 10, 10) and its counters.

Every `exit (EXIT_FAILURE)` becomes an error value.

Each state-changing function of the source is a method of that class. The
method is proved against a pure function of the old state. For example, the
`seek_spk` method, `DiscRecord.Disc.SeekSpk`, ensures
`State() == SpikeEffect(...)(old(State()))`. The properties the program
relies on are then proved about those functions:

- sortedness and capacity of the event lists;
- soundness and completeness of the detectors;
- the subsequence structure of the regions;
- the meaning of the layout verdict;
- the statistics.

Modules, in dependency order:

| module | file | source |
|---|---|---|
| `Failures` | failures.dfy | the fatal conditions, as `Result` and `Outcome` |
| `Bytes` | bytes.dfy | little-endian reads of width 1 to 4, and their inverse |
| `Parse` | parse.dfy | `read_mds` |
| `HeaderFacts`, `HeaderRoundTrip` | header_facts.dfy | acceptance and rejection of headers; building a header and decoding it back |
| `SampleTable` | samples.dfy | `read_dpm` |
| `DiscModel` | disc_model.dfy | `DISC` as a value, and shared helpers |
| `LayerBreak` | layer_break.dfy | `seek_brk` |
| `Spikes` | spikes.dfy | `seek_spk` |
| `Precision` | precision.dfy | `seek_spk_high_precision` |
| `Amplitude` | amplitude.dfy | `calc_inc_amp`, `calc_dec_amp` |
| `Regions` | regions.dfy | `seek_reg` |
| `RegionLayout` | layout.dfy | `eval_reg` |
| `SpikeStats` | stats.dfy | `eval_spk` |
| `Pipeline` | pipeline.dfy | `eval_dpm` |
| `DiscRecord` | disc.dfy | the `DISC` class and its methods |

`scan.c` carries its own copy of `read_mds` and `read_dpm` (scan.c:83-241).
That copy is identical to parse.c, so it is modelled once, from parse.c.

## Model

| member | source | states |
|---|---|---|
| Bytes.DecodeEncode | parse.c:63 | Reading back a value that was written as `width` little-endian bytes gives the value. |
| Bytes.EncodeDecode | parse.c:166 | Re-encoding what was read gives the bytes that were read. |
| Bytes.FieldReads | parse.c:128-133 | A field whose bytes are the encoding of `v` reads as `v`. |
| Parse.DecodeHeader | parse.c:22-154 | The error is `NoMds` exactly when the first 16 bytes are present and are not "MEDIA DESCRIPTOR". An accepted descriptor has a known interval, a nonzero pointer, location code 1 or 2, and the layer count of its pointer. |
| Parse.DecodePointer | parse.c:62-107 | It fails only with `Truncated`, `NoDpm`, `UnknownHeaderStructure` or `UnknownInterval`. An accepted descriptor keeps the format, has a nonzero pointer and that pointer's layer count, and on a DVD the mode names the layer count. |
| Parse.DecodeTable | parse.c:109-151 | It fails only with `Truncated`, `UnknownHeaderStructure` or `UnknownInterval`. An accepted descriptor keeps the format, pointer, layer count and mode it was given, has location code 1 or 2 and a known interval, and its sample and sector counts fit 2 and 3 bytes. |
| Parse.ReadMds | parse.c:22-154 | The field-by-field reader returns exactly the descriptor `DecodeHeader` specifies, or the same error. |
| Parse.ReadTable | parse.c:109-151 | The table part gives `DecodeTable`'s result. An accepted result has a known interval and location code 1 or 2. |
| HeaderFacts.DecodeHeaderAccepts | parse.c:22-154 | A header is accepted exactly when it is well formed: signature, version 5, format 0x00 or 0x10, nonzero pointer, location 1 or 2, interval 50/256/500/2048, every field inside the file. Each decoded field is the bytes at its offset: CD or DVD from the format byte, layer count from the pointer, mode from the low nibble of 0x168 (CD) or the layer count (DVD), interval at ptr+16 or ptr+20, samples 4 bytes later, sector count at 100 or ptr-128. |
| HeaderFacts.DecodeHeaderRejects | parse.c:29-125 | Each fatal condition is reported by its own error: wrong signature, wrong version, unknown format byte, zero pointer, unknown location code. |
| HeaderFacts.UnknownIntervalIsFatal | parse.c:135-148 | An interval other than 50, 256, 500 and 2048 stops decoding with `UnknownInterval`. |
| HeaderFacts.TableAccepts | parse.c:109-151 | The sample table description at the pointer is accepted exactly when the location byte is 1 or 2, the interval is one of the four known ones and the interval, sample and sector fields lie inside the file; the decoded fields are the bytes at those offsets. |
| HeaderFacts.PointerAccepts | parse.c:62-151 | From the pointer on, a header is accepted exactly when the pointer is inside the file and nonzero, a CD header holds the mode byte, and the table at the pointer is accepted; the layer count and mode follow from the pointer and the format. |
| HeaderRoundTrip.DecodeHolds | parse.c:62-151 | A file holding given field values at the source's offsets decodes to a descriptor carrying exactly those values. |
| HeaderRoundTrip.BuildHeaderHolds | parse.c:62-151 | The header built from field values holds every one of them at its offset. |
| HeaderRoundTrip.BuildThenDecode | parse.c:22-154 | Decoding a header built from field values returns those values. |
| SampleTable.Int32 | parse.c:176 | The variation is a `signed int`: the 32-bit pattern reinterpreted, always in [-2^31, 2^31). |
| SampleTable.Next | parse.c:171-177 | A sample keeps its raw value. Its timing is an `unsigned int`, below 2^32, and its variation a `signed int`. When the raw value grows by less than 2^32, the timing is the plain difference. |
| SampleTable.ReadDpm | parse.c:156-180 | The method fills the array in place, starting at ptr+24 (location 1) or ptr+28 (location 2). Each raw value is the 4-byte field at its offset. Timing and variation follow from the record before with the 32-bit wrap-around. A table that does not fit in the file is `Truncated`, and nothing is written. |
| SampleTable.RawsRoundTrip | parse.c:165-173 | The raw values read back are the timestamps stored. |
| SampleTable.ExactDifferences | parse.c:168-177 | On a table with non-decreasing raw values and small steps: `tim[0] = raw[0]`, `var[0] = 0`, and for `i > 0`, `tim[i] = raw[i] - raw[i-1]` and `var[i] = tim[i] - tim[i-1]` exactly. |
| SampleTable.RunningSums | parse.c:171-177 | Timing inverts the running sum: each raw value is the sum of the timings so far, and each timing the first one plus the sum of the variations. |
| DiscModel.SampleOfPosition | scan.c:469 | `sector / itv - 1` recovers the sample whose sector the detectors recorded. |
| LayerBreak.LastMinIndex | scan.c:254-263 | The chosen break sample lies inside the window. |
| LayerBreak.LastMinIndexIsLastMin | scan.c:254-263 | The chosen sample has the least timing in the window, and every later sample in the window is strictly higher, so the last minimum wins. |
| LayerBreak.BreakWithinWindow | scan.c:251-265 | The break sector lies between half the sector count (within one interval) and the sectors of one layer (2294922). The break sample is the window minimum. |
| LayerBreak.PathOf | scan.c:267-269 | The track path is always decided, opposite or parallel. Equal timings at both ends give opposite. |
| LayerBreak.PathOfPlain | scan.c:267-269 | For timings that fit a `signed int`, the path is opposite exactly when the two timings differ by less than 100. |
| LayerBreak.BreakEffect | scan.c:243-272 | Only `brk_smp`, `brk_lba` and `trk_pth` can change, and a CD or single-layer disc is left as it was. On a dual-layer DVD, `brk_lba = (brk_smp + 1) * itv`, the path is decided, and the break lies in the window when the window is not empty. |
| LayerBreak.BreakEffectAt | scan.c:245-269 | On a dual-layer DVD the record gets the break sample, `brk_lba = (brk_smp + 1) * itv` and the track path. Nothing else changes. |
| DiscRecord.Disc.FindBreak | scan.c:254-263 | The running minimum updated on `>=` ends at the last index of the minimum. An empty window keeps the old break sample. |
| DiscRecord.Disc.SeekBrk | scan.c:243-272 | The new `DISC` state is `BreakEffect` of the old one. CD and single-layer discs are left unchanged. |
| Spikes.UnsignedBandTest | scan.c:316-333 | The mixed signed/unsigned comparisons with `var_min`, `var_max`, `-var_min` and `-var_max` amount to the plain bands (min, max) and (-max, -min). |
| Spikes.SegmentLast | scan.c:292-305 | The last sample a layer's scan reads lies inside the table. |
| Spikes.ThresholdScan | scan.c:310-349 | The scan fails only with an overflow error. Otherwise each list only grows at its end and the sum never decreases. Lists that start within 200 entries end within 200 entries. |
| Spikes.SegmentEffect | scan.c:276-349 | A layer's scan fails only with an overflow error. Otherwise the lists only grow at their end, and nothing but the lists and `var_sum` changes. |
| Spikes.SpikeEffect | scan.c:274-366 | `seek_spk` fails only with an overflow error. Otherwise the lists only grow at their end, and layer 0 or layer 1 keeps the segment's sum. Nothing but the lists and the three sums changes. |
| Spikes.SpikeByEvents | scan.c:274-363 | The scan fails exactly when either list would pass 200 entries, and then only with an overflow error. Otherwise the increase and decrease lists grow by the sectors of the segment's events of that kind, in order. `var_sum` restarts and equals the \|variation\| of the segment minus the recorded and skipped samples. It is copied to `lay_0_sum` or `lay_1_sum` by layer. Nothing else changes. |
| Spikes.EventsSpaced | scan.c:324-328 | Consecutive events are at least two samples apart: the sample after an event is skipped. |
| Spikes.EventsComplete | scan.c:310-346 | Every sample in a band is either an event or the sample skipped after one. |
| Spikes.SpikeSorted | scan.c:307-346 | The lists stay strictly increasing and below the end of the segment. |
| Spikes.SpikeSoundComplete | scan.c:310-349 | Every new entry of a list is the sector of a sample in its band inside the segment. Every in-band sample of the segment that does not directly follow an event is recorded. |
| DiscRecord.Disc.ScanLoop | scan.c:310-349 | The loop over the arrays gives `ThresholdScan`'s lists and sum, or its overflow error. |
| DiscRecord.Disc.ScanSegment | scan.c:276-308 | The band and the segment are applied to the record as `SegmentEffect` states. |
| DiscRecord.Disc.SeekSpk | scan.c:274-366 | The new `DISC` state is `SpikeEffect` of the old one, or the method fails with its error. |
| Precision.Classify | scan.c:376-457 | An accepted increase has a variation of 4 to 32, and an accepted decrease one of -32 to -4. A sample is quiet exactly when it is no candidate. A variation within +-3 is always quiet. |
| Precision.PrecisionScan | scan.c:372-460 | The loop fails only with an overflow error. Otherwise each list only grows at its end, and the sum and the error count never decrease. Lists that start within 200 entries end within 200 entries. |
| Precision.PrecisionEffect | scan.c:368-465 | The detector fails only with an overflow error. Otherwise the lists only grow at their end, `var_sum` and `err_cnt` never decrease, and nothing else changes. |
| Precision.PrecisionIncStep | scan.c:401-411 | An accepted increase appends `(i+1)*itv`, or is a fatal overflow at 200 entries, and moves three samples on. |
| Precision.PrecisionDecStep | scan.c:439-456 | An accepted decrease appends its aligned sector, or is a fatal overflow at 200 entries, and moves three samples on. |
| Precision.PrecisionQuietStep | scan.c:382-459 | A rejected candidate adds 1 to `err_cnt` and \|var\| to `var_sum`. A quiet sample adds only \|var\|. Both move one sample on. |
| Precision.DecPositionSteps | scan.c:445-451 | A decrease is recorded one interval later when `var[i+1] < -3`, and one more when `var[i+2] < -3` as well. |
| Precision.VisitsComplete | scan.c:372-457 | Every sample is either looked at or one of the two skipped after an accepted spike. |
| Precision.PrecisionState | scan.c:368-460 | Overflow happens exactly when either list would pass 200 entries. Otherwise the lists grow by the accepted increases and aligned decreases in order. `err_cnt` grows by the rejected candidates, and `var_sum` by the \|var\| of every sample not accepted. Nothing else changes. |
| Precision.PrecisionSorted | scan.c:372-457 | Starting from empty lists, both lists are strictly increasing and within the disc. |
| Precision.PrecisionSoundComplete | scan.c:376-457 | Every entry comes from an accepted candidate at its sector. Every accepted candidate is recorded. |
| DiscRecord.Disc.PrecisionLoop | scan.c:372-460 | The loop over the arrays gives `PrecisionScan`'s lists, sum and error count, or its overflow error. |
| DiscRecord.Disc.RecordIncrease | scan.c:407-408 | The sector is appended to the increase array. |
| DiscRecord.Disc.RecordDecrease | scan.c:445-451 | The aligned sector is appended to the decrease array. |
| DiscRecord.Disc.SeekSpkHighPrecision | scan.c:368-465 | The new `DISC` state is `PrecisionEffect` of the old one, or the method fails with its error. |
| Amplitude.IncAmplitude | scan.c:469-473 | A sector past the table reads only padding, so its amplitude is 0. |
| Amplitude.DecAmplitude | scan.c:480-484 | A sector more than two samples past the table has amplitude 0. |
| Amplitude.IncAmpEffect | scan.c:467-476 | Only the increase amplitudes change. |
| Amplitude.DecAmpEffect | scan.c:478-487 | Only the decrease amplitudes change. |
| Amplitude.IncAmplitudeTelescopes | scan.c:469-473 | On a regular table an increase amplitude is the timing two samples after the spike minus the timing just before it. |
| Amplitude.DecAmplitudeTelescopes | scan.c:480-484 | On a regular table a decrease amplitude is the timing at the spike minus the timing three samples before. |
| DiscRecord.Disc.CalcIncAmp | scan.c:467-476 | The new state is `IncAmpEffect` of the old one. |
| DiscRecord.Disc.CalcDecAmp | scan.c:478-487 | The new state is `DecAmpEffect` of the old one. |
| DiscRecord.Disc.CalcAmps | scan.c:570-574 | Each amplitude pair is computed only when its list is non-empty. |
| Regions.Gap | scan.c:508 | The gap is an `unsigned long`, below 2^64. A decreasing pair wraps round to `2^64` minus its distance, so a small step backwards counts as a gap. |
| Regions.GapOnSorted | scan.c:508 | On increasing 64-bit sectors the unsigned gap is the plain difference. |
| Regions.RegionStarts | scan.c:500-519 | There are no more starts than increases, and some exactly when there is an increase. The first start is the first increase. |
| Regions.RegionStops | scan.c:523-542 | There are no more stops than decreases, and some exactly when there is a decrease. The last stop is the last decrease. |
| Regions.StartsAreIncreases | scan.c:500-519 | The starts are a subsequence of the increases. The first start is the first increase. Increasing increases give increasing starts. |
| Regions.StopsAreDecreases | scan.c:523-542 | The stops are a subsequence of the decreases. The last stop is the last decrease. Increasing decreases give increasing stops. |
| Regions.StartExactly | scan.c:500-519 | An increase opens a region exactly when it is the first one or follows its predecessor by more than the threshold. |
| Regions.StopExactly | scan.c:523-542 | A decrease closes a region exactly when it is the last one or its successor follows it by more than the threshold. |
| Regions.RegionEffect | scan.c:489-545 | `seek_reg` fails only with a start or stop overflow, and never when there are at most 10 increases and the stops fit. Otherwise only the region lists change, each within 10 entries. There is a start exactly when there is an increase, and the first start is the first increase. The stops only grow at their end, and the last one is the last decrease. |
| Regions.RegionEffectFits | scan.c:489-545 | When the starts fit in 10 entries and the stops fit beside those already stored, `seek_reg` stores exactly the starts and appends exactly the stops. |
| Regions.RegionBounds | scan.c:489-545 | `seek_reg` succeeds exactly when there are at most 10 starts and at most 10 stops. It then leaves everything but the two lists unchanged, and the first start is the first increase. |
| DiscRecord.Disc.FindStarts | scan.c:500-519 | The start array holds exactly `RegionStarts` of the increases, or the method reports an 11th start. |
| DiscRecord.Disc.FindStops | scan.c:523-542 | The stop array grows by exactly `RegionStops` of the decreases, or the method reports the overflow. |
| DiscRecord.Disc.SeekReg | scan.c:489-545 | The new state is `RegionEffect` of the old one, with threshold 4000 for CD and 40000 for DVD, or the method fails with its error. |
| RegionLayout.IncRunSpec | scan.c:698-703 | The increase count of a region is the longest run, from the cursor, of increases in [start, stop). |
| RegionLayout.DecRunSpec | scan.c:707-712 | The decrease count is the longest run of decreases in (start, stop]. |
| RegionLayout.IncRunIsBlock | scan.c:698-703 | The run has length `n` exactly when `n` increases in range are followed by one out of range or by the end. |
| RegionLayout.DecRunIsBlock | scan.c:707-712 | The same for decreases. |
| RegionLayout.RegionsAgree | scan.c:693-721 | When the regions from `r` on agree with a positive share, both cursors still point at an entry. |
| RegionLayout.RegionsAgreeExactly | scan.c:693-721 | The cursor loop succeeds exactly when region `q` holds the increases and decreases `q*spr .. q*spr+spr-1`, and only those, in its bounds. |
| RegionLayout.Layout | scan.c:664-724 | The verdict is Normal exactly when there are no starts and no stops. A Consistent verdict implies equal event counts, equal region counts (at least one), and a share that divides evenly. |
| RegionLayout.LayoutMeaning | scan.c:664-724 | The verdict is Normal exactly when there are no starts and no stops. It is Consistent exactly when the counts match, `spr = dec_cnt / stp_cnt` divides evenly, and every region holds its own `spr` spikes. Otherwise it is Unreliable. |
| DiscRecord.Disc.CountIncreases | scan.c:698-705 | The inner loop counts the increase run from the cursor. |
| DiscRecord.Disc.CountDecreases | scan.c:707-714 | The inner loop counts the decrease run from the cursor. |
| DiscRecord.Disc.EvalReg | scan.c:664-724 | The verdict of the nested cursor loops is `Layout` of the record. |
| SpikeStats.ConsistentIsReady | scan.c:764-765 | A consistent layout has a stop to divide by and every spike index `eval_spk` reads. |
| SpikeStats.SlotIndex | scan.c:774-776 | `i + j * spr` indexes both lists for every slot and region. |
| SpikeStats.SlotPairsInRegion | scan.c:774-776 | On a consistent layout the increase and the decrease that make up slot `i` of region `j` both lie inside region `j`. |
| SpikeStats.SpikeLength | scan.c:774-776 | The length is an `unsigned long`. Its index `i + j * spr` lies inside both lists, and when the decrease does not precede the increase the length is their plain difference. |
| SpikeStats.SlotLengths | scan.c:772-777 | One length per region, as a sequence and not a four-entry array. |
| SpikeStats.SpikeTable | scan.c:770-789 | One statistic per slot, `dec_cnt / stp_cnt` of them. |
| SpikeStats.Mean | scan.c:777-780 | The mean is never negative, and the mean times the region count is the total length. |
| SpikeStats.PopVariance | scan.c:782-788 | The variance is never negative. |
| SpikeStats.SquaredDeviationNonNegative | scan.c:782-786 | The sum of squared deviations is never negative. |
| SpikeStats.MeanWithin | scan.c:777-780 | The mean length lies between the least and the greatest length. |
| SpikeStats.VarianceScaled | scan.c:782-788 | The population variance equals an integer spread divided by `n^3`. |
| SpikeStats.VarianceZeroIffEqual | scan.c:782-788 | The population variance (divided by the region count) is never negative. It is zero exactly when all lengths are equal. |
| SpikeStats.FiveRegionsFound | scan.c:489-545 | Five DVD spikes 50000 sectors apart, each 150 sectors long, make five regions. |
| SpikeStats.FiveRegionsConsistent | scan.c:664-724 | `eval_reg` finds those five regions consistent. |
| SpikeStats.GappedRegions | scan.c:489-545 | When every step between consecutive increases and between consecutive decreases exceeds the threshold, every increase is a region start and every decrease a region stop. |
| SpikeStats.GappedList | scan.c:500-542 | A list whose every step exceeds the threshold is its own list of starts and its own list of stops. |
| SpikeStats.AllGaps | scan.c:500-542 | From any position on, a list whose every step is a gap keeps every later entry as a start and every earlier one as a stop. |
| SpikeStats.FiveGaps | scan.c:508 | Five sectors 50000 apart below 250000 are separated by more than the DVD threshold. |
| SpikeStats.LenOverflowWitness | scan.c:776 | A record that `seek_reg` and `eval_reg` accept has five regions, so `eval_spk` writes `len[4]` past the four-entry SPIKE record (scan.c:77). |
| DiscRecord.Disc.GatherLengths | scan.c:772-778 | The first inner loop gathers the slot's lengths and their sum. |
| DiscRecord.SquaredDeviations | scan.c:782-786 | The second inner loop adds up the squared deviations from the mean, in order. |
| DiscRecord.Disc.EvalSpk | scan.c:760-792 | The array of slot records is exactly `SpikeTable` of the record: lengths, mean and population variance. |
| Pipeline.Detect | scan.c:551-568 | The detector dispatch leaves the region lists and the break sample alone. |
| Pipeline.Amplitudes | scan.c:570-574 | Only the amplitudes change, and only for non-empty lists. |
| Pipeline.SpikeCapacity | scan.c:318-339 | After `seek_spk` both lists are within 200 entries. The break and the regions are untouched. |
| Pipeline.PrecisionCapacity | scan.c:401-443 | After the high-precision detector both lists are within 200 entries. |
| Pipeline.LayerBoundsMeet | scan.c:297-303 | The layer 0 sectors end where layer 1 begins, so the two scans concatenate in order. |
| Pipeline.DetectSorted | scan.c:549-568 | From empty lists, whichever detector runs leaves strictly increasing lists within capacity, or an overflow. Scanning layer 0 then layer 1 included. |
| Pipeline.RegionsWellFormed | scan.c:489-545 | On sorted lists `seek_reg` yields a well-formed record, or a start or stop overflow. |
| Pipeline.RegionListsWellFormed | scan.c:489-545 | On sorted event lists, the starts and stops `seek_reg` picks, when they fit, form a well-formed record: the starts are a sorted subsequence of the increases beginning with the first one, the stops a sorted subsequence of the decreases ending with the last one, all within capacity. |
| Pipeline.Analysis | scan.c:547-579 | `eval_dpm` fails only with one of the four overflows. Otherwise the event lists only grow at their end, and there is a region start exactly when there is an increase. |
| Pipeline.AnalysisInvariants | scan.c:547-579 | From a zeroed `DISC`, `eval_dpm` ends in a well-formed record or one of the four overflows. Well-formed means: sorted lists within capacity, starts a subsequence of the increases beginning with the first, stops a subsequence of the decreases ending with the last. |
| DiscRecord.Disc.DetectSpikes | scan.c:551-568 | The new state is `Detect` of the old one, or the method fails with its error. |
| DiscRecord.Disc.EvalDpm | scan.c:547-579 | The new state is `Analysis` of the old one: break, detector, amplitudes, regions. Otherwise the method fails with the first error. |
| DiscRecord.Disc.constructor | scan.c:830 | A new record is the zeroed `DISC`, with fresh arrays of 200, 200, 10 and 10 entries. |

## Left out

- Showing and logging are not modelled: `show_dpm`, `show_dsc`, `show_reg` and `show_spk` (scan.c:581-662, 726-758, 794-804), log.c, and the SDL drawing in draw.c. They only print.
- `main` (scan.c:806-856, main.c) is left out: argument handling, `fopen`, `calloc`, `fork` and process exit. The model's file is a byte sequence, and the `exit` calls are error values.
- `read_mds` and `read_dpm` read with no length check. A read past the end of the file is the error `Truncated` here: the source's short `fread` would leave the field as it was.
- SampleTable.ReadDpm: a table of 0 samples writes nothing. The source reads its first record into an empty allocation.
- The floating-point ratios are not modelled: `var_rat`, `lay_0_rat` and `lay_1_rat` (scan.c:351, 357, 361, 462).
- SpikeStats.SpikeTable: `sqrtf` is not modelled. The mean and variance are exact reals; the source rounds in `float` and reports the square root.
- `var_sum`, `lay_0_sum`, `lay_1_sum` and `err_cnt` are unbounded naturals. The source's `unsigned int` would wrap past 2^32.
- Amplitude.IncAmpEffect: the three-sample sums are unbounded integers. The source's `signed int` sum could overflow.
- Amplitude.DecAmpEffect: the same unbounded sum as for increases.
- Precision.IncCandidate: the two-sample sum `var[i] + var[i+1]` is an unbounded integer. In the source it is a `signed int` addition that overflows, which is undefined behaviour, when both variations are near 2^31.
- Precision.IncArtifact: the same for the sums `var[i-2] + var[i-1]` and `var[i+2] + var[i+3]`.
- Precision.DecCandidate: the same unbounded two-sample sum as for increases.
- Precision.DecArtifact: the same unbounded sums as for increases.
- LayerBreak.PathOf: when the timing difference reinterprets as `INT_MIN`, `abs` is undefined behaviour in the source (glibc returns `INT_MIN`, which gives opposite). The model takes the magnitude 2^31, which gives parallel.
- Amplitude.IncAmplitude: its own contract states only the padded read past the table. Its value on a regular table is stated by `Amplitude.IncAmplitudeTelescopes`.
- Amplitude.DecAmplitude: likewise, its value on a regular table is stated by `Amplitude.DecAmplitudeTelescopes`.
- Reads outside the sample table read a variation of 0. The source reads past both ends of its array there: `var[i-2]`, `var[i-1]`, `var[i+1..i+3]` in the high-precision detector, and `fds-2` and `lds-2` in `calc_dec_amp`.
- DiscRecord.Disc.SeekBrk requires the samples it reads without a check to exist: the first of the window and the one after it (`BreakReadable`).
- Spikes.SegmentLast: the layer-0 segment is cut at the last sample when `brk_smp` lies past the table. A table of 0 samples scans nothing. In the source, `smp - 1` wraps to `UINT_MAX` and the loop reads past the array.
- Regions.RegionEffect requires an empty start list and fewer than 10 stops on entry. `seek_reg` writes the first start at index 0 whatever `stt_cnt` is; `eval_dpm` calls it exactly once, on a zeroed record.
- `unsigned long` sectors are taken as 64 bits (`LongWord`). `unsigned char` counters never pass 200, so they do not wrap.
- The `trk_pth` string is the three-valued `TrackPath`, and the mode string is a Dafny `string`.
- The `tim_avg`, `lay_0_avg`, `lay_1_avg` and `dpm_cat` fields of type.h are used by none of the modelled functions.
- The header-only declarations `get_name`, `seek_spk_50`, `save_reg`, `save_spk`, `save_log` and `draw_dpm` have no bodies in the source and are not modelled.

## Findings

| source | as written | input that shows it | evidently intended | confidence | as-written member | corrected member |
|---|---|---|---|---|---|---|
| scan.c:776 | `spk[i].len[j]` is written for every region `j < stp_cnt`, but SPIKE holds `len[4]` (scan.c:77). `seek_reg` accepts up to 10 regions, and `eval_reg` can call 5 or more consistent. | A DVD with interval 50 and five spikes: increases at sectors 10000, 60000, 110000, 160000 and 210000, each with a decrease 150 sectors later. 150 sectors is the shortest spike the high-precision detector records, as it skips two samples after an increase. The record gives five regions and a consistent layout, so `len[4]` is written out of bounds. | One length per region, for every region count `seek_reg` allows. | not executed | SpikeStats.LenOverflowWitness | SpikeStats.SlotLengths |
