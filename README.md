# AutoCut silence detection and timeline cuts, in Dafny

This project models the two host-independent pieces of AutoCut, a Premiere Pro
panel that finds silences in a sequence's audio and cuts them out of the timeline.

- **Silence detection** (`autocut-cep/python/whisper_service.py`, module
  `SilenceDetection` in `silence_detection.dfy`) covers three algorithms:
  - the amplitude scan of `detect_silence`. It turns the per-sample
    "level below threshold" flags into the maximal silent runs that last at
    least `min_duration` seconds, including a run that reaches the end of the
    audio.
  - the speech-gap loop of `enhanced_silence_detection`. It turns each gap
    between two consecutive transcription segments into a silence segment
    when the gap is at least `min_duration` seconds long.
  - `_merge_overlapping_segments`. It sorts segments by start and coalesces
    the ones that overlap or touch.

  Each loop is a `method` proved equal to a reference function. Lemmas state
  what that function means: maximal runs, exact membership, ordering,
  disjointness, enclosure, coverage and idempotence.
- **Timeline cuts** (`autocut-cep/jsx/hostscript.jsx`, module `HostScript` in
  `host_script.dfy`) covers `applyCutsToTimeline`,
  `removeClipsInSilenceRanges`, `removeClipsInRange` and `applyCutToTrack`.
  - A `Sequence` class holds the audio tracks. Each track is a list of
    `(start, end)` clips.
  - The methods change the tracks in place, exactly as the script's loops do.
  - Each method's new state is tied to a function of the old state, such as
    `Outside`, `RazorAll`, `RemoveAll`, `CutTrack` and `CutTimeline`. Lemmas
    say what those functions do to the audio that plays.
- `sorting.dfy` (module `Sorting`) holds the stable sort both files use.
  `option.dfy` holds `Option`.

The host's `track.razor(time)` and `clip.remove(false, false)` are not defined
by the script. The model **assumes** the following of them:
- a razor at `time` splits the one clip with `start < time < end` into
  `(start, time)` and `(time, end)`;
- a removal deletes the clip from its track's list and moves no other clip.

These assumptions live in `Sequence.Razor`, `Sequence.RemoveClip`, `RazorAt`
and `Split`.

Times are exact reals. Sample `i` sits at `i / 16000`, because
`librosa.load(..., sr=16000)` fixes the sample rate.

## Model

| member | source | states |
|---|---|---|
| SilenceDetection.IsSilent | autocut-cep/python/whisper_service.py:67 | one flag per sample, set exactly when the level is below the threshold |
| SilenceDetection.RunsAreMaximal | autocut-cep/python/whisper_service.py:71-98 | every run the scan tracks is a maximal silent run; runs are separated by a non-silent sample; every silent sample lies in one of them |
| SilenceDetection.RunIsListed | autocut-cep/python/whisper_service.py:71-98 | every maximal silent run of the flags is one of the scanned runs |
| SilenceDetection.MaximalRunsShareNoSample | autocut-cep/python/whisper_service.py:71-98 | two maximal runs that share a sample are the same run |
| SilenceDetection.DetectSilence | autocut-cep/python/whisper_service.py:66-98 | the scan loop, including the trailing run at lines 90-98, returns exactly the reference list of long-enough maximal runs |
| SilenceDetection.SegmentsOfMembers | autocut-cep/python/whisper_service.py:77-98 | a segment is emitted iff it comes from a run that lasts at least `min_duration`; a shorter run leaves nothing |
| SilenceDetection.AmplitudeSegmentsExact | autocut-cep/python/whisper_service.py:71-98 | a maximal silent run yields a segment iff it is long enough; every segment comes from a long-enough maximal run, from the time of its first silent sample to the time of the next non-silent sample or the end of the audio |
| SilenceDetection.AmplitudeSegmentsOrdered | autocut-cep/python/whisper_service.py:78-98 | each segment has `start < end`, `end - start >= min_duration`, `duration == end - start` and confidence 0.9; each segment ends strictly before the next one starts |
| SilenceDetection.SpeechGaps | autocut-cep/python/whisper_service.py:123-136 | the gap loop returns exactly the reference list of gaps |
| SilenceDetection.GapsExact | autocut-cep/python/whisper_service.py:124-136 | a segment is a gap iff it joins a consecutive transcription pair whose gap is at least `min_duration`; each gap has `duration == end - start`, confidence 0.8 and type `speech_gap`; there is exactly one gap per qualifying pair, in pair order, so at most `n - 1` gaps for `n` segments and none for fewer than two |
| SilenceDetection.QualifyingPairsExact | autocut-cep/python/whisper_service.py:124-131 | the positions the loop emits a gap at are exactly the indices `k` whose pair `k`, `k + 1` has a long enough gap, each once and in increasing order |
| SilenceDetection.GapsFromPositions | autocut-cep/python/whisper_service.py:124-136 | the loop started at pair `i` emits as many gaps as there are qualifying pairs from `i` on, and its `j`-th gap spans the `j`-th such pair |
| SilenceDetection.Max | autocut-cep/python/whisper_service.py:184-186 | `max` is at least both arguments and equals one of them |
| SilenceDetection.Combine | autocut-cep/python/whisper_service.py:182-187 | a merged entry keeps the earlier start, ends at the larger end, takes the larger confidence, has `duration == end - start` and has no `type` key |
| SilenceDetection.MergeStep | autocut-cep/python/whisper_service.py:176-189 | one loop iteration leaves a non-empty list at most one entry longer than before |
| SilenceDetection.CoalesceUpTo | autocut-cep/python/whisper_service.py:175-189 | the loop over a non-empty prefix yields a non-empty list no longer than the prefix |
| SilenceDetection.MergeOverlappingSegments | autocut-cep/python/whisper_service.py:167-191 | the sort-and-merge loop returns exactly the reference merge of its input |
| SilenceDetection.CoalesceIdentity | autocut-cep/python/whisper_service.py:176-189 | a list whose entries each start after the previous one ends comes back unchanged |
| SilenceDetection.MergedSegmentsShape | autocut-cep/python/whisper_service.py:169-191 | the output is empty iff the input is, is no longer than the input, is sorted by start, and each entry starts strictly after the previous one ends |
| SilenceDetection.MergedSegmentsEnclose | autocut-cep/python/whisper_service.py:173-191 | every input interval lies inside some output interval |
| SilenceDetection.MergedSegmentsCovered | autocut-cep/python/whisper_service.py:173-191 | every point of an output interval lies in some input interval |
| SilenceDetection.MergedSegmentsAttained | autocut-cep/python/whisper_service.py:182-189 | every output start and every output confidence is that of some input |
| SilenceDetection.MergedSegmentsConfidence | autocut-cep/python/whisper_service.py:173-189 | every output has the confidence of an input it encloses; with `MergedSegmentsEnclose` and `MergedSegmentsDisjoint`, that is the largest confidence among the inputs merged into it |
| SilenceDetection.MergedSegmentsDisjoint | autocut-cep/python/whisper_service.py:173-191 | when every input has `start <= end`, so does every output, and the outputs are pairwise disjoint in order |
| SilenceDetection.MergedSegmentsDurations | autocut-cep/python/whisper_service.py:182-189 | when every input has `duration == end - start`, so does every output |
| SilenceDetection.MergeIdempotent | autocut-cep/python/whisper_service.py:167-191 | merging an already merged list changes nothing |
| SilenceDetection.MergeKeepsSeparated | autocut-cep/python/whisper_service.py:167-191 | a sorted list of separated segments is its own merge |
| SilenceDetection.EnhancedSilenceDetection | autocut-cep/python/whisper_service.py:107-158 | the report is the scan's segments, merged with the speech gaps when a transcription is available and left as they are when it failed, with their total duration as both `totalSilenceDuration` and `timeSaved` |
| SilenceDetection.TotalDuration | autocut-cep/python/whisper_service.py:149 | the sum of the segments' durations is not negative when no duration is |
| SilenceDetection.TotalDurationNonNegative | autocut-cep/python/whisper_service.py:149 | the summed duration of well-formed segments is not negative |
| SilenceDetection.CandidatesWellFormed | autocut-cep/python/whisper_service.py:114-139 | when `min_duration >= 0`, every amplitude segment and every gap has `start <= end` and `duration == end - start` |
| SilenceDetection.DetectedSegmentsSound | autocut-cep/python/whisper_service.py:114-146 | when `min_duration >= 0`, the reported segments are well formed, sorted, pairwise disjoint, enclose every candidate and cover no point that no candidate covers |
| SilenceDetection.EnhancedReportTotals | autocut-cep/python/whisper_service.py:148-157 | when `min_duration >= 0`, `totalSilenceDuration` is not negative; `timeSaved` equals it |
| Sorting.SortBy | autocut-cep/python/whisper_service.py:173 | the sorted list is a permutation of the input, of the same length |
| Sorting.SortByStable | autocut-cep/python/whisper_service.py:173 | the sort is stable: the entries with any one key come out in their input order |
| Sorting.SortBySorted | autocut-cep/python/whisper_service.py:173 | the sort yields a sorted permutation of its input |
| Sorting.SortByIdentity | autocut-cep/python/whisper_service.py:173 | sorting a sorted list leaves it unchanged |
| HostScript.ResolveScope | autocut-cep/jsx/hostscript.jsx:154-168 | -1 selects all tracks; `0 <= k < numTracks` selects track `k`; an index at or past `numTracks` selects none; an index below -1 cannot be resolved |
| HostScript.LatestFirstOrder | autocut-cep/jsx/hostscript.jsx:142 | the segments are processed in non-increasing order of `start`, as a permutation of the input |
| HostScript.CutCountPerTrack | autocut-cep/jsx/hostscript.jsx:137-167 | `cutsApplied` ends at the number of segments times the number of tracks the index selects |
| HostScript.TracksInScopeCount | autocut-cep/jsx/hostscript.jsx:154-168 | -1 selects every track, an existing index one track, and any other index none |
| HostScript.Outside | autocut-cep/jsx/hostscript.jsx:207-222 | a removal pass keeps no more clips than the track had, and keeps only clips of the track that are not wholly inside the range |
| HostScript.OutsideExact | autocut-cep/jsx/hostscript.jsx:207-222 | after one removal pass a clip remains iff it was on the track and is not wholly inside the range; the remaining clips keep their order |
| HostScript.OutsideCount | autocut-cep/jsx/hostscript.jsx:207-222 | a removal pass drops every copy of a clip wholly inside the range and keeps every copy of any other clip |
| HostScript.Split | autocut-cep/jsx/hostscript.jsx:158-159 | the assumed razor on one clip plays exactly the instants the clip played and leaves no piece straddling the cut time |
| HostScript.RazorAtExact | autocut-cep/jsx/hostscript.jsx:158-159 | a razor does not change what plays at any instant; afterwards no clip straddles the cut time, and a time no clip straddled is still not straddled |
| HostScript.RazorAllExact | autocut-cep/jsx/hostscript.jsx:144-169 | after the razors of the first `i` segments the same audio plays, and no clip straddles any of their boundaries |
| HostScript.RemoveAllExact | autocut-cep/jsx/hostscript.jsx:188-200 | after the removals of the first `i` segments a clip remains iff it was on the track and lies wholly inside none of them |
| HostScript.RemoveAllCount | autocut-cep/jsx/hostscript.jsx:188-200 | after the removals of the first `i` segments a clip keeps all its copies when it lies wholly inside none of them, and has none left otherwise |
| HostScript.CutTrackExact | autocut-cep/jsx/hostscript.jsx:144-172 | after all razors and removals nothing new plays; an instant outside every segment that played still plays; no instant inside a segment plays |
| HostScript.CutTimeline | autocut-cep/jsx/hostscript.jsx:154-168 | the cut leaves every track outside the scope as it was, and leaves all tracks unchanged when no track is selected |
| HostScript.LastInside | autocut-cep/jsx/hostscript.jsx:238-248 | the backward walk stops at the highest-indexed clip wholly inside the range, and finds none exactly when no clip lies inside |
| HostScript.RemoveLastInside | autocut-cep/jsx/hostscript.jsx:238-250 | `applyCutToTrack` removes at most one clip and adds none |
| HostScript.RemoveLastInsideExact | autocut-cep/jsx/hostscript.jsx:238-250 | `applyCutToTrack` removes one clip when some clip lies inside the range, and none otherwise; the removed clip is the highest-indexed such clip, and the rest keep their order |
| HostScript.Sequence.Razor | autocut-cep/jsx/hostscript.jsx:158 | the assumed effect of `track.razor`, on one track only |
| HostScript.Sequence.RemoveClip | autocut-cep/jsx/hostscript.jsx:216 | the assumed effect of `clip.remove(false, false)`: one clip leaves the list, and the clips before it keep their indices |
| HostScript.Sequence.RemoveClipsInRange | autocut-cep/jsx/hostscript.jsx:207-222 | the backward loop leaves exactly the clips of that track not wholly inside the range, and changes no other track |
| HostScript.Sequence.ApplyCutToTrack | autocut-cep/jsx/hostscript.jsx:225-255 | two razors, then removal of the last clip wholly inside the range; the result is true |
| HostScript.Sequence.RazorSegment | autocut-cep/jsx/hostscript.jsx:145-168 | one segment's razors, at its start then its end, on each track in scope; one cut counted per track razored |
| HostScript.Sequence.RazorSilenceRanges | autocut-cep/jsx/hostscript.jsx:144-169 | the razor loop razors each track in scope at every boundary and counts `m * numTracks`, `m` or 0 cuts; with an index below -1 it fails before changing anything |
| HostScript.Sequence.RemoveClipsInSilenceRanges | autocut-cep/jsx/hostscript.jsx:184-204 | each track in scope loses exactly the clips wholly inside some segment; other tracks stay as they were |
| HostScript.ApplyCutsToTimeline | autocut-cep/jsx/hostscript.jsx:128-181 | no active sequence gives false with no change; an index below -1 with at least one segment gives false with no change; otherwise the result is true, the count is as the status message reports it, and every track equals `CutTimeline` of its old contents under the resolved scope; `padding` affects nothing |

## Left out

- Audio loading, `librosa.amplitude_to_db`, `librosa.get_duration` and the Whisper transcription are foreign libraries. The decibel levels, the transcription segments and the file duration are inputs.
- A failed transcription is the input `None`. A failure of the amplitude scan, which re-raises and makes the outer handler return `{'success': False}`, is not modelled.
- The `'success'` and `'method'` keys of the report are constant and are not part of `Report`.
- The Flask routes, CORS, the argument parsing and the global detector are HTTP and process plumbing.
- Floating point is not modelled. Times, levels and durations are exact reals, and `i / sr` is exact division.
- Python's `list.sort` and the script's `Array.prototype.sort` are modelled as one stable sort that returns a new list. Both sorts work in place. Afterwards only the sorted order of the list is read, and the model hands its sorted copy to every later step: `MergedSegments` merges the sorted list, and `ApplyCutsToTimeline` razors and removes over it. For segments with equal starts, ExtendScript's tie order is unspecified, while the model keeps input order (`Sorting.SortByStable`).
- `JSON.parse` of the segment argument and its failure are not modelled. The segments arrive already parsed, with numeric `start` and `end`.
- The string results `"true"` and `"false"` are booleans here. `updateStatus` and its messages are left out; `cutsApplied` is the count the final message would show.
- The sequence is an input (`null` when there is no active sequence). Tracks are addressed by their index in the sequence's list.
- A non-integer `trackIndex` is not modelled.
- SilenceDetection.CandidatesWellFormed, SilenceDetection.DetectedSegmentsSound and SilenceDetection.EnhancedReportTotals hold only when `min_duration >= 0`. The `/analyze` route accepts any value. With a negative one, the gap test also accepts two overlapping transcription segments. The gap it emits then has `start > end` and a negative `duration`, and the model computes that gap as the service does.
- An index below -1 takes the `trackIndex < numTracks` branch of the code, where `audioTracks[trackIndex]` is undefined and `razor` on it throws. So the model returns false for such an index whenever there is at least one segment, and true when there are none. So an index below -1 is not the same as an index past the last track.
- HostScript.Sequence.ApplyCutToTrack: always returns true, because the model's host razor and remove never throw. The `catch` branch that returns false is not modelled.
- HostScript.Sequence.RemoveClipsInRange: the host cannot throw here, so a pass stopped part-way by a caught error is not modelled.
- HostScript.ApplyCutsToTimeline: a host error in the middle of the razor loop, which would return false after some tracks were already razored, is not modelled. The only modelled throw is the one on an index below -1.
- The exporter, sequence cloning and muting, markers and the project-path helper of `hostscript.jsx` are host automation with no logic to verify. So are all of `js/main.js`, `js/CSInterface.js` and `create_icons.py`.
- `padding` is never read, so nothing models applying padding.
