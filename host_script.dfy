/** The timeline edits of the host script (autocut-cep/jsx/hostscript.jsx):
    `applyCutsToTimeline`, `removeClipsInSilenceRanges`, `removeClipsInRange`
    and `applyCutToTrack`.

    The host's objects are abstract here: a sequence is a list of audio
    tracks, a track a list of clips, a clip its `(start, end)` in seconds.
    What the host's `track.razor(time)` and `clip.remove(false, false)` do is
    not part of the script; this model ASSUMES that a razor at `time` splits
    the one clip with `start < time < end` into `(start, time)` and
    `(time, end)`, and that removing a clip deletes it from the track's list
    without moving any other clip (no ripple). */
module HostScript {
  import opened Optional
  import opened Sorting

  /** A clip of an audio track, by its start and end in seconds. */
  datatype Clip = Clip(start: real, end: real)

  /** A silence segment as parsed from the JSON argument; only `start` and
      `end` are read. */
  datatype SilenceRange = SilenceRange(start: real, end: real)

  /** Which audio tracks a `trackIndex` argument selects. `Unresolvable` is
      an index below -1: `sequence.audioTracks[trackIndex]` is then
      undefined, and calling `razor` on it throws. */
  datatype Scope = AllTracks | OneTrack(index: nat) | NoTrack | Unresolvable

  // ---------------------------------------------------------------------
  // Track scope

  /** The branches `trackIndex === -1` and `trackIndex < numTracks`. */
  function ResolveScope(trackIndex: int, numTracks: nat): (scope: Scope)
    ensures scope == AllTracks <==> trackIndex == -1
    ensures scope.OneTrack? <==> 0 <= trackIndex < numTracks
    ensures scope.OneTrack? ==> scope.index == trackIndex
    ensures scope == NoTrack <==> trackIndex >= numTracks && trackIndex != -1
    ensures scope == Unresolvable <==> trackIndex < -1
  {
    if trackIndex == -1 then AllTracks
    else if trackIndex < numTracks then
      if trackIndex >= 0 then OneTrack(trackIndex) else Unresolvable
    else NoTrack
  }

  /** Track `u` is one of the tracks the scope edits. */
  predicate InScope(scope: Scope, u: nat)
  {
    match scope
    case AllTracks => true
    case OneTrack(k) => u == k
    case NoTrack => false
    case Unresolvable => false
  }

  /** The number of tracks among the first `n` that the scope selects. */
  function TracksInScope(scope: Scope, n: nat): nat
    decreases n
  {
    if n == 0 then 0 else TracksInScope(scope, n - 1) + (if InScope(scope, n - 1) then 1 else 0)
  }

  /** All tracks, or one when the index names one of them, or none. */
  lemma {:induction false} TracksInScopeCount(scope: Scope, n: nat)
    ensures TracksInScope(scope, n) == match scope
      case AllTracks => n
      case OneTrack(k) => if k < n then 1 else 0
      case NoTrack => 0
      case Unresolvable => 0
    decreases n
  {
    if n > 0 {
      TracksInScopeCount(scope, n - 1);
    }
  }

  /** The cuts one segment adds to `cutsApplied`: one per track razored. */
  function CutsPerSegment(scope: Scope, numTracks: nat): nat
  {
    match scope
    case AllTracks => numTracks
    case OneTrack(_) => 1
    case NoTrack => 0
    case Unresolvable => 0
  }

  /** The final value of `cutsApplied` for `m` segments over `numTracks` tracks. */
  function CutCount(scope: Scope, numTracks: nat, m: nat): nat
    decreases m
  {
    if m == 0 then 0 else CutCount(scope, numTracks, m - 1) + CutsPerSegment(scope, numTracks)
  }

  /** `cutsApplied` counts one cut per segment and per track razored: `m`
      times the number of tracks the scope selects, when a single index
      names an existing track. */
  lemma {:induction false} CutCountPerTrack(scope: Scope, numTracks: nat, m: nat)
    requires !scope.OneTrack? || scope.index < numTracks
    ensures CutCount(scope, numTracks, m) == m * TracksInScope(scope, numTracks)
    decreases m
  {
    TracksInScopeCount(scope, numTracks);
    if m > 0 {
      CutCountPerTrack(scope, numTracks, m - 1);
    }
  }

  // ---------------------------------------------------------------------
  // Segment order

  /** The comparator `b.start - a.start` puts larger starts first; sorting
      by the negated start in ascending order is the same order. */
  function NegStart(x: SilenceRange): real
  {
    -x.start
  }

  /** The segments in the order `applyCutsToTimeline` processes them. */
  function LatestFirst(segments: seq<SilenceRange>): seq<SilenceRange>
  {
    SortBy(segments, NegStart)
  }

  /** The segments are processed latest first: the sorted list is a
      permutation of the input in non-increasing order of `start`. */
  lemma LatestFirstOrder(segments: seq<SilenceRange>)
    ensures multiset(LatestFirst(segments)) == multiset(segments)
    ensures forall i, j :: 0 <= i < j < |LatestFirst(segments)| ==>
              LatestFirst(segments)[i].start >= LatestFirst(segments)[j].start
  {
    SortBySorted(segments, NegStart);
    var s := LatestFirst(segments);
    forall i, j | 0 <= i < j < |s| ensures s[i].start >= s[j].start {
      assert NegStart(s[i]) <= NegStart(s[j]);
    }
  }

  // ---------------------------------------------------------------------
  // The assumed host operations, on values

  /** The clip lies wholly inside `[startSeconds, endSeconds]`, the test
      `clipStart >= startSeconds && clipEnd <= endSeconds`. */
  predicate Inside(c: Clip, startSeconds: real, endSeconds: real)
  {
    c.start >= startSeconds && c.end <= endSeconds
  }

  /** The clip has `time` strictly inside it, so a razor at `time` splits it. */
  predicate Straddles(c: Clip, time: real)
  {
    c.start < time < c.end
  }

  /** Some clip of the track plays at instant `p` (clips are half-open). */
  predicate Covered(cs: seq<Clip>, p: real)
  {
    exists c :: c in cs && c.start <= p < c.end
  }

  /** The assumed effect of a razor at `time` on one clip. */
  function Split(c: Clip, time: real): (r: seq<Clip>)
    ensures forall p :: Covered(r, p) <==> c.start <= p < c.end
    ensures forall d :: d in r ==> !Straddles(d, time)
  {
    if Straddles(c, time) then [Clip(c.start, time), Clip(time, c.end)] else [c]
  }

  /** The assumed effect of `track.razor(time)`. */
  function RazorAt(cs: seq<Clip>, time: real): (r: seq<Clip>)
    decreases |cs|
  {
    if cs == [] then [] else Split(cs[0], time) + RazorAt(cs[1..], time)
  }

  /** The clips that are not wholly inside the range, in their order. */
  function Outside(cs: seq<Clip>, startSeconds: real, endSeconds: real): (r: seq<Clip>)
    ensures |r| <= |cs|
    ensures forall c :: c in r ==> c in cs && !Inside(c, startSeconds, endSeconds)
    decreases |cs|
  {
    if cs == [] then []
    else (if Inside(cs[0], startSeconds, endSeconds) then [] else [cs[0]]) + Outside(cs[1..], startSeconds, endSeconds)
  }

  /** `a` is `b` with some elements left out, the rest in their order. */
  predicate Subsequence(a: seq<Clip>, b: seq<Clip>)
    decreases |b|
  {
    if a == [] then true
    else if b == [] then false
    else if a[0] == b[0] then Subsequence(a[1..], b[1..])
    else Subsequence(a, b[1..])
  }

  /** `removeClipsInRange` removes exactly the clips wholly inside the range:
      every other clip stays, in its original order, and afterwards no clip
      lies wholly inside the range. */
  lemma {:induction false} OutsideExact(cs: seq<Clip>, startSeconds: real, endSeconds: real)
    ensures forall c :: c in Outside(cs, startSeconds, endSeconds) <==> c in cs && !Inside(c, startSeconds, endSeconds)
    ensures Subsequence(Outside(cs, startSeconds, endSeconds), cs)
    decreases |cs|
  {
    if cs != [] {
      OutsideExact(cs[1..], startSeconds, endSeconds);
      assert cs == [cs[0]] + cs[1..];
      var rest := Outside(cs[1..], startSeconds, endSeconds);
      if Inside(cs[0], startSeconds, endSeconds) {
        assert Outside(cs, startSeconds, endSeconds) == rest;
        SubsequenceSkip(rest, cs);
      } else {
        assert ([cs[0]] + rest)[1..] == rest;
      }
    }
  }

  /** `removeClipsInRange` removes every copy of a clip wholly inside the
      range and no copy of any other clip. */
  lemma {:induction false} OutsideCount(cs: seq<Clip>, startSeconds: real, endSeconds: real, c: Clip)
    ensures multiset(Outside(cs, startSeconds, endSeconds))[c] ==
              if Inside(c, startSeconds, endSeconds) then 0 else multiset(cs)[c]
    decreases |cs|
  {
    if cs != [] {
      OutsideCount(cs[1..], startSeconds, endSeconds, c);
      assert cs == [cs[0]] + cs[1..];
      var head := if Inside(cs[0], startSeconds, endSeconds) then [] else [cs[0]];
      var rest := Outside(cs[1..], startSeconds, endSeconds);
      assert Outside(cs, startSeconds, endSeconds) == head + rest;
      assert multiset(head + rest) == multiset(head) + multiset(rest);
      assert multiset(cs) == multiset{cs[0]} + multiset(cs[1..]);
    }
  }

  /** A subsequence of the tail of `b` is a subsequence of `b`. */
  lemma {:induction false} SubsequenceSkip(a: seq<Clip>, b: seq<Clip>)
    requires b != [] && Subsequence(a, b[1..])
    ensures Subsequence(a, b)
    decreases |b|, 0
  {
    if a != [] && a[0] == b[0] {
      SubsequenceTail(a, b[1..]);
    }
  }

  /** Dropping the head of a subsequence leaves a subsequence. */
  lemma {:induction false} SubsequenceTail(a: seq<Clip>, b: seq<Clip>)
    requires a != [] && Subsequence(a, b)
    ensures Subsequence(a[1..], b)
    decreases |b|, 1
  {
    if a[0] != b[0] {
      SubsequenceTail(a, b[1..]);
    }
    SubsequenceSkip(a[1..], b);
  }

  /** A razor at `time` leaves the played instants as they are, and
      afterwards no clip has `time` strictly inside it; a clip that does not
      straddle some other instant `u` is split into parts that do not
      straddle `u` either. */
  lemma {:induction false} RazorAtExact(cs: seq<Clip>, time: real, u: real)
    ensures forall p :: Covered(RazorAt(cs, time), p) <==> Covered(cs, p)
    ensures forall c :: c in RazorAt(cs, time) ==> !Straddles(c, time)
    ensures (forall c :: c in cs ==> !Straddles(c, u)) ==> forall c :: c in RazorAt(cs, time) ==> !Straddles(c, u)
    decreases |cs|
  {
    if cs != [] {
      RazorAtExact(cs[1..], time, u);
      var split := Split(cs[0], time);
      var rest := RazorAt(cs[1..], time);
      assert cs == [cs[0]] + cs[1..];
      CoveredAppend(split, rest);
      CoveredAppend([cs[0]], cs[1..]);
      assert forall p :: Covered([cs[0]], p) <==> cs[0].start <= p < cs[0].end;
      forall c | c in split + rest ensures c in split || c in rest {
      }
      if forall c :: c in cs ==> !Straddles(c, u) {
        assert !Straddles(cs[0], u);
        assert forall c :: c in cs[1..] ==> c in cs;
        forall c | c in split ensures !Straddles(c, u) {
        }
      }
    }
  }

  /** An instant plays on a concatenation when it plays on either part. */
  lemma CoveredAppend(a: seq<Clip>, b: seq<Clip>)
    ensures forall p :: Covered(a + b, p) <==> Covered(a, p) || Covered(b, p)
  {
    forall p ensures Covered(a + b, p) <==> Covered(a, p) || Covered(b, p) {
      if Covered(a + b, p) {
        var c :| c in a + b && c.start <= p < c.end;
        assert c in a || c in b;
      }
      if Covered(a, p) {
        var c :| c in a && c.start <= p < c.end;
        assert c in a + b;
      }
      if Covered(b, p) {
        var c :| c in b && c.start <= p < c.end;
        assert c in a + b;
      }
    }
  }

  // ---------------------------------------------------------------------
  // Whole-track effects of the cut phases

  /** The track after the razors of the first `i` segments, at each
      segment's start and then its end. */
  function RazorAll(cs: seq<Clip>, segments: seq<SilenceRange>, i: nat): seq<Clip>
    requires i <= |segments|
    decreases i
  {
    if i == 0 then cs
    else RazorAt(RazorAt(RazorAll(cs, segments, i - 1), segments[i - 1].start), segments[i - 1].end)
  }

  /** The track after the removals of the first `i` segments. */
  function RemoveAll(cs: seq<Clip>, segments: seq<SilenceRange>, i: nat): seq<Clip>
    requires i <= |segments|
    decreases i
  {
    if i == 0 then cs
    else Outside(RemoveAll(cs, segments, i - 1), segments[i - 1].start, segments[i - 1].end)
  }

  /** `c` lies wholly inside none of the first `i` segments. */
  predicate InsideNone(c: Clip, segments: seq<SilenceRange>, i: nat)
    requires i <= |segments|
  {
    forall k :: 0 <= k < i ==> !Inside(c, segments[k].start, segments[k].end)
  }

  lemma InsideNoneStep(c: Clip, segments: seq<SilenceRange>, i: nat)
    requires 0 < i <= |segments|
    ensures InsideNone(c, segments, i) <==>
              InsideNone(c, segments, i - 1) && !Inside(c, segments[i - 1].start, segments[i - 1].end)
  {
  }

  /** After the removals of the first `i` segments a clip keeps all its
      copies when it lies wholly inside none of them, and none otherwise. */
  lemma {:induction false} RemoveAllCount(cs: seq<Clip>, segments: seq<SilenceRange>, i: nat, c: Clip)
    requires i <= |segments|
    ensures InsideNone(c, segments, i) ==> multiset(RemoveAll(cs, segments, i))[c] == multiset(cs)[c]
    ensures !InsideNone(c, segments, i) ==> multiset(RemoveAll(cs, segments, i))[c] == 0
    decreases i
  {
    if i > 0 {
      RemoveAllCount(cs, segments, i - 1, c);
      RemoveRoundCount(cs, RemoveAll(cs, segments, i - 1), segments, i, c);
    }
  }

  /** One removal round keeps the copies of `c` exactly when `c` lies
      inside none of the first `i` segments. */
  lemma RemoveRoundCount(cs: seq<Clip>, prev: seq<Clip>, segments: seq<SilenceRange>, i: nat, c: Clip)
    requires 0 < i <= |segments|
    requires InsideNone(c, segments, i - 1) ==> multiset(prev)[c] == multiset(cs)[c]
    requires !InsideNone(c, segments, i - 1) ==> multiset(prev)[c] == 0
    ensures InsideNone(c, segments, i) ==> multiset(Outside(prev, segments[i - 1].start, segments[i - 1].end))[c] == multiset(cs)[c]
    ensures !InsideNone(c, segments, i) ==> multiset(Outside(prev, segments[i - 1].start, segments[i - 1].end))[c] == 0
  {
    OutsideCount(prev, segments[i - 1].start, segments[i - 1].end, c);
    InsideNoneStep(c, segments, i);
  }

  /** A track after every razor and then every removal. */
  function CutTrack(cs: seq<Clip>, segments: seq<SilenceRange>): seq<Clip>
  {
    RemoveAll(RazorAll(cs, segments, |segments|), segments, |segments|)
  }

  /** The razors keep the played instants, and leave no clip straddling the
      start or the end of any of the segments. */
  lemma {:induction false} RazorAllExact(cs: seq<Clip>, segments: seq<SilenceRange>, i: nat)
    requires i <= |segments|
    ensures forall p :: Covered(RazorAll(cs, segments, i), p) <==> Covered(cs, p)
    ensures forall c, k :: c in RazorAll(cs, segments, i) && 0 <= k < i ==>
              !Straddles(c, segments[k].start) && !Straddles(c, segments[k].end)
    decreases i
  {
    if i > 0 {
      RazorAllExact(cs, segments, i - 1);
      var prev := RazorAll(cs, segments, i - 1);
      var seg := segments[i - 1];
      var mid := RazorAt(prev, seg.start);
      var r := RazorAll(cs, segments, i);
      RazorAtExact(prev, seg.start, seg.end);
      RazorAtExact(mid, seg.end, seg.start);
      forall k | 0 <= k < i - 1
        ensures forall c :: c in r ==> !Straddles(c, segments[k].start) && !Straddles(c, segments[k].end)
      {
        RazorAtKeeps(prev, seg.start, segments[k].start);
        RazorAtKeeps(mid, seg.end, segments[k].start);
        RazorAtKeeps(prev, seg.start, segments[k].end);
        RazorAtKeeps(mid, seg.end, segments[k].end);
      }
    }
  }

  lemma RazorAtKeeps(cs: seq<Clip>, time: real, u: real)
    requires forall c :: c in cs ==> !Straddles(c, u)
    ensures forall c :: c in RazorAt(cs, time) ==> !Straddles(c, u)
  {
    RazorAtExact(cs, time, u);
  }

  /** A clip stays through the removals of the first `i` segments exactly
      when it is not wholly inside any of them. */
  lemma {:induction false} RemoveAllExact(cs: seq<Clip>, segments: seq<SilenceRange>, i: nat)
    requires i <= |segments|
    ensures forall c :: c in RemoveAll(cs, segments, i) <==>
              c in cs && forall k :: 0 <= k < i ==> !Inside(c, segments[k].start, segments[k].end)
    decreases i
  {
    if i > 0 {
      var prev := RemoveAll(cs, segments, i - 1);
      var seg := segments[i - 1];
      RemoveAllExact(cs, segments, i - 1);
      OutsideMembers(prev, seg.start, seg.end);
      forall c ensures c in RemoveAll(cs, segments, i) <==>
                       c in cs && forall k :: 0 <= k < i ==> !Inside(c, segments[k].start, segments[k].end)
      {
        assert (forall k :: 0 <= k < i ==> !Inside(c, segments[k].start, segments[k].end)) <==>
               (forall k :: 0 <= k < i - 1 ==> !Inside(c, segments[k].start, segments[k].end)) && !Inside(c, seg.start, seg.end);
      }
    }
  }

  lemma OutsideMembers(cs: seq<Clip>, startSeconds: real, endSeconds: real)
    ensures forall c :: c in Outside(cs, startSeconds, endSeconds) <==> c in cs && !Inside(c, startSeconds, endSeconds)
  {
    OutsideExact(cs, startSeconds, endSeconds);
  }

  /** Under the assumed razor and remove, cutting a track removes exactly the
      material inside the silence segments: no instant is played that was not
      played before, every instant played before and outside every segment
      `[start, end)` is still played, and no instant inside a segment is. */
  lemma CutTrackExact(cs: seq<Clip>, segments: seq<SilenceRange>)
    ensures forall p :: Covered(CutTrack(cs, segments), p) ==> Covered(cs, p)
    ensures forall p :: Covered(cs, p) && (forall k :: 0 <= k < |segments| ==> !(segments[k].start <= p < segments[k].end)) ==>
              Covered(CutTrack(cs, segments), p)
    ensures forall p, k :: 0 <= k < |segments| && segments[k].start <= p < segments[k].end ==>
              !Covered(CutTrack(cs, segments), p)
  {
    var n := |segments|;
    var razored := RazorAll(cs, segments, n);
    var final := CutTrack(cs, segments);
    RazorAllExact(cs, segments, n);
    RemoveAllExact(razored, segments, n);
    forall p | Covered(final, p) ensures Covered(cs, p) {
      var c :| c in final && c.start <= p < c.end;
      assert Covered(razored, p);
    }
    forall p | Covered(cs, p) && (forall k :: 0 <= k < n ==> !(segments[k].start <= p < segments[k].end))
      ensures Covered(final, p)
    {
      assert Covered(razored, p);
      var c :| c in razored && c.start <= p < c.end;
      forall k | 0 <= k < n ensures !Inside(c, segments[k].start, segments[k].end) {
        assert !(segments[k].start <= p < segments[k].end);
      }
      assert c in final;
    }

  }

  /** The tracks after the razors of the first `i` segments, on the tracks in scope. */
  function RazorPhase(tracks: seq<seq<Clip>>, segments: seq<SilenceRange>, i: nat, scope: Scope): (r: seq<seq<Clip>>)
    requires i <= |segments|
    ensures |r| == |tracks|
  {
    seq(|tracks|, u requires 0 <= u < |tracks| => if InScope(scope, u) then RazorAll(tracks[u], segments, i) else tracks[u])
  }

  /** The tracks after the removals of the first `i` segments, on the tracks in scope. */
  function RemovePhase(tracks: seq<seq<Clip>>, segments: seq<SilenceRange>, i: nat, scope: Scope): (r: seq<seq<Clip>>)
    requires i <= |segments|
    ensures |r| == |tracks|
  {
    seq(|tracks|, u requires 0 <= u < |tracks| => if InScope(scope, u) then RemoveAll(tracks[u], segments, i) else tracks[u])
  }

  /** The tracks part-way through the removals of segment `i` on all tracks:
      the first `t` tracks have had them. */
  function RemoveRound(tracks: seq<seq<Clip>>, segments: seq<SilenceRange>, i: nat, t: nat): (r: seq<seq<Clip>>)
    requires i < |segments|
    ensures |r| == |tracks|
  {
    seq(|tracks|, u requires 0 <= u < |tracks| => RemoveAll(tracks[u], segments, if u < t then i + 1 else i))
  }

  lemma RemoveRoundStarts(tracks: seq<seq<Clip>>, segments: seq<SilenceRange>, i: nat)
    requires i < |segments|
    ensures RemoveRound(tracks, segments, i, 0) == RemovePhase(tracks, segments, i, AllTracks)
  {
  }

  lemma RemoveRoundEnds(tracks: seq<seq<Clip>>, segments: seq<SilenceRange>, i: nat)
    requires i < |segments|
    ensures RemoveRound(tracks, segments, i, |tracks|) == RemovePhase(tracks, segments, i + 1, AllTracks)
  {
  }

  lemma RemoveRoundStep(tracks: seq<seq<Clip>>, segments: seq<SilenceRange>, i: nat, t: nat)
    requires i < |segments| && t < |tracks|
    ensures var r := RemoveRound(tracks, segments, i, t);
      r[t := Outside(r[t], segments[i].start, segments[i].end)] == RemoveRound(tracks, segments, i, t + 1)
  {
  }

  lemma RemovePhaseOneTrack(tracks: seq<seq<Clip>>, segments: seq<SilenceRange>, i: nat, k: nat)
    requires i < |segments| && k < |tracks|
    ensures var r := RemovePhase(tracks, segments, i, OneTrack(k));
      r[k := Outside(r[k], segments[i].start, segments[i].end)] == RemovePhase(tracks, segments, i + 1, OneTrack(k))
  {
  }

  lemma RemovePhaseNoTrack(tracks: seq<seq<Clip>>, segments: seq<SilenceRange>, i: nat, scope: Scope)
    requires i < |segments| && (scope == NoTrack || scope == Unresolvable)
    ensures RemovePhase(tracks, segments, i, scope) == RemovePhase(tracks, segments, i + 1, scope)
  {
  }

  /** Razoring every track in scope and then removing from it is the cut timeline. */
  lemma PhasesCutTimeline(tracks: seq<seq<Clip>>, segments: seq<SilenceRange>, scope: Scope)
    ensures RemovePhase(RazorPhase(tracks, segments, |segments|, scope), segments, |segments|, scope)
            == CutTimeline(tracks, segments, scope)
  {
  }

  lemma RazorPhaseUnresolvable(tracks: seq<seq<Clip>>, segments: seq<SilenceRange>)
    ensures RazorPhase(tracks, segments, 0, Unresolvable) == tracks
  {
  }

  /** The razors of one segment, at its start and then at its end, on the tracks in scope. */
  function RazorEach(tracks: seq<seq<Clip>>, segment: SilenceRange, scope: Scope): (r: seq<seq<Clip>>)
    ensures |r| == |tracks|
  {
    seq(|tracks|, u requires 0 <= u < |tracks| =>
      if InScope(scope, u) then RazorAt(RazorAt(tracks[u], segment.start), segment.end) else tracks[u])
  }

  /** The tracks part-way through the razors of one segment on all tracks:
      the first `t` tracks have had them. */
  function RazorFirst(tracks: seq<seq<Clip>>, segment: SilenceRange, t: nat): (r: seq<seq<Clip>>)
    ensures |r| == |tracks|
  {
    seq(|tracks|, u requires 0 <= u < |tracks| =>
      if u < t then RazorAt(RazorAt(tracks[u], segment.start), segment.end) else tracks[u])
  }

  /** One more segment's razors take the razor phase one segment further. */
  lemma RazorPhaseStep(tracks: seq<seq<Clip>>, segments: seq<SilenceRange>, i: nat, scope: Scope)
    requires i < |segments|
    ensures RazorEach(RazorPhase(tracks, segments, i, scope), segments[i], scope) == RazorPhase(tracks, segments, i + 1, scope)
  {
  }

  lemma CutCountStep(scope: Scope, numTracks: nat, i: nat)
    ensures CutCount(scope, numTracks, i) + CutCount(scope, numTracks, 1) == CutCount(scope, numTracks, i + 1)
  {
  }

  /** Every track of the sequence after `applyCutsToTimeline`: the tracks in
      scope are cut, the others are as they were. */
  function CutTimeline(tracks: seq<seq<Clip>>, segments: seq<SilenceRange>, scope: Scope): (r: seq<seq<Clip>>)
    ensures |r| == |tracks|
    ensures forall u :: 0 <= u < |tracks| && !InScope(scope, u) ==> r[u] == tracks[u]
    ensures (scope == NoTrack || scope == Unresolvable) ==> r == tracks
  {
    seq(|tracks|, u requires 0 <= u < |tracks| => if InScope(scope, u) then CutTrack(tracks[u], segments) else tracks[u])
  }

  // ---------------------------------------------------------------------
  // `applyCutToTrack`

  /** The highest index below `n` of a clip wholly inside the range, if any. */
  function LastInside(cs: seq<Clip>, n: nat, startSeconds: real, endSeconds: real): (r: Option<nat>)
    requires n <= |cs|
    ensures r.Some? ==> r.value < n && Inside(cs[r.value], startSeconds, endSeconds)
    ensures r.Some? ==> forall j :: r.value < j < n ==> !Inside(cs[j], startSeconds, endSeconds)
    ensures r.None? <==> forall j :: 0 <= j < n ==> !Inside(cs[j], startSeconds, endSeconds)
    decreases n
  {
    if n == 0 then None
    else if Inside(cs[n - 1], startSeconds, endSeconds) then Some(n - 1)
    else LastInside(cs, n - 1, startSeconds, endSeconds)
  }

  /** The track with its highest-indexed clip wholly inside the range
      removed, if there is one. */
  function RemoveLastInside(cs: seq<Clip>, startSeconds: real, endSeconds: real): (r: seq<Clip>)
    ensures |cs| - 1 <= |r| <= |cs|
    ensures forall c :: c in r ==> c in cs
  {
    match LastInside(cs, |cs|, startSeconds, endSeconds)
    case None => cs
    case Some(i) => cs[..i] + cs[i + 1..]
  }

  /** `applyCutToTrack` removes at most one clip, the highest-indexed one
      wholly inside the range: the track loses one clip when some clip lies
      inside the range and none otherwise, and every clip but the removed
      one stays, in its order. */
  lemma RemoveLastInsideExact(cs: seq<Clip>, startSeconds: real, endSeconds: real)
    ensures (exists j :: 0 <= j < |cs| && Inside(cs[j], startSeconds, endSeconds)) ==>
              |RemoveLastInside(cs, startSeconds, endSeconds)| == |cs| - 1
    ensures (forall j :: 0 <= j < |cs| ==> !Inside(cs[j], startSeconds, endSeconds)) ==>
              RemoveLastInside(cs, startSeconds, endSeconds) == cs
    ensures forall j :: (0 <= j < |cs| && Inside(cs[j], startSeconds, endSeconds)
                         && forall j' :: j < j' < |cs| ==> !Inside(cs[j'], startSeconds, endSeconds)) ==>
              RemoveLastInside(cs, startSeconds, endSeconds) == cs[..j] + cs[j + 1..]
  {
    forall j | 0 <= j < |cs| && Inside(cs[j], startSeconds, endSeconds)
               && (forall j' :: j < j' < |cs| ==> !Inside(cs[j'], startSeconds, endSeconds))
      ensures LastInside(cs, |cs|, startSeconds, endSeconds) == Some(j)
    {
      var r := LastInside(cs, |cs|, startSeconds, endSeconds);
      assert r.Some?;
    }
  }

  lemma RemoveLastAt(cs: seq<Clip>, i: nat, startSeconds: real, endSeconds: real)
    requires i < |cs| && Inside(cs[i], startSeconds, endSeconds)
    requires forall j :: i < j < |cs| ==> !Inside(cs[j], startSeconds, endSeconds)
    ensures RemoveLastInside(cs, startSeconds, endSeconds) == cs[..i] + cs[i + 1..]
  {
    RemoveLastInsideExact(cs, startSeconds, endSeconds);
  }

  lemma RemoveLastNone(cs: seq<Clip>, startSeconds: real, endSeconds: real)
    requires forall j :: 0 <= j < |cs| ==> !Inside(cs[j], startSeconds, endSeconds)
    ensures RemoveLastInside(cs, startSeconds, endSeconds) == cs
  {
    RemoveLastInsideExact(cs, startSeconds, endSeconds);
  }

  /** One step of the backward walk of `removeClipsInRange`: with the clips
      from `i + 1` on already filtered, testing clip `i` either removes it
      (clip `i` leaves the list, the earlier clips keep their indices) or
      keeps it. */
  lemma OutsideFrom(clips: seq<Clip>, i: nat, startSeconds: real, endSeconds: real)
    requires i < |clips|
    ensures var before := clips[..i + 1] + Outside(clips[i + 1..], startSeconds, endSeconds);
      && before[i] == clips[i]
      && (Inside(clips[i], startSeconds, endSeconds) ==>
            before[..i] + before[i + 1..] == clips[..i] + Outside(clips[i..], startSeconds, endSeconds))
      && (!Inside(clips[i], startSeconds, endSeconds) ==>
            before == clips[..i] + Outside(clips[i..], startSeconds, endSeconds))
  {
    var rest := Outside(clips[i + 1..], startSeconds, endSeconds);
    var before := clips[..i + 1] + rest;
    assert clips[i..] == [clips[i]] + clips[i + 1..];
    assert clips[i..][1..] == clips[i + 1..];
    assert before[..i] == clips[..i];
    assert before[i + 1..] == rest;
    assert clips[..i + 1] == clips[..i] + [clips[i]];
    var out := Outside(clips[i..], startSeconds, endSeconds);
    if Inside(clips[i], startSeconds, endSeconds) {
      assert out == rest;
    } else {
      assert out == [clips[i]] + rest;
      assert before == clips[..i] + ([clips[i]] + rest);
    }
  }

  // ---------------------------------------------------------------------
  // The active sequence

  /** The host's sequence, with its audio tracks. */
  class Sequence {
    var audioTracks: seq<seq<Clip>>

    constructor (tracks: seq<seq<Clip>>)
      ensures audioTracks == tracks
    {
      audioTracks := tracks;
    }

    /** `track.razor(time)` on track `t`, with the assumed effect. */
    method Razor(t: nat, time: real)
      requires t < |audioTracks|
      modifies this
      ensures audioTracks == old(audioTracks)[t := RazorAt(old(audioTracks)[t], time)]
    {
      audioTracks := audioTracks[t := RazorAt(audioTracks[t], time)];
    }

    /** `track.clips[i].remove(false, false)`, with the assumed effect:
        the clip leaves the list and no other clip moves. */
    method RemoveClip(t: nat, i: nat)
      requires t < |audioTracks| && i < |audioTracks[t]|
      modifies this
      ensures audioTracks == old(audioTracks)[t := old(audioTracks)[t][..i] + old(audioTracks)[t][i + 1..]]
    {
      audioTracks := audioTracks[t := audioTracks[t][..i] + audioTracks[t][i + 1..]];
    }

    /** The razors of one segment in `applyCutsToTimeline`: at the segment's
        start and end on every track when `trackIndex` is -1, on track
        `trackIndex` when it names one, on none otherwise; `cuts` is what
        the status message counts. */
    method RazorSegment(segment: SilenceRange, trackIndex: int, ghost scope: Scope) returns (cuts: nat)
      requires scope == ResolveScope(trackIndex, |audioTracks|) && scope != Unresolvable
      modifies this
      ensures audioTracks == RazorEach(old(audioTracks), segment, scope)
      ensures cuts == CutCount(scope, |old(audioTracks)|, 1)
    {
      var numTracks := |audioTracks|;
      cuts := 0;
      if trackIndex == -1 {
        var t := 0;
        while t < numTracks
          invariant 0 <= t <= numTracks
          invariant audioTracks == RazorFirst(old(audioTracks), segment, t)
          invariant cuts == t
        {
          Razor(t, segment.start);
          Razor(t, segment.end);
          cuts := cuts + 1;
          t := t + 1;
        }
        assert audioTracks == RazorEach(old(audioTracks), segment, AllTracks);
      } else if trackIndex < numTracks {
        Razor(trackIndex, segment.start);
        Razor(trackIndex, segment.end);
        cuts := 1;
        assert audioTracks == RazorEach(old(audioTracks), segment, OneTrack(trackIndex));
      } else {
        assert audioTracks == RazorEach(old(audioTracks), segment, NoTrack);
      }
    }

    /** `removeClipsInRange`: visit the clips from the last to the first and
        remove each one wholly inside the range. A removal only shifts clips
        already visited, so every clip is tested once. */
    method RemoveClipsInRange(t: nat, startSeconds: real, endSeconds: real)
      requires t < |audioTracks|
      modifies this
      ensures audioTracks == old(audioTracks)[t := Outside(old(audioTracks)[t], startSeconds, endSeconds)]
    {
      ghost var clips := audioTracks[t];
      var i := |audioTracks[t]|;
      assert clips[..i] == clips && clips[i..] == [];
      assert Outside(clips[i..], startSeconds, endSeconds) == [];
      assert clips[..i] + Outside(clips[i..], startSeconds, endSeconds) == clips;
      assert audioTracks == old(audioTracks);
      assert audioTracks == audioTracks[t := clips];
      while i > 0
        invariant 0 <= i <= |clips|
        invariant audioTracks == old(audioTracks)[t := clips[..i] + Outside(clips[i..], startSeconds, endSeconds)]
      {
        i := i - 1;
        OutsideFrom(clips, i, startSeconds, endSeconds);
        var clip := audioTracks[t][i];
        if clip.start >= startSeconds && clip.end <= endSeconds {
          RemoveClip(t, i);
        }
      }
      assert clips[..0] == [] && clips[0..] == clips;
      assert clips[..i] + Outside(clips[i..], startSeconds, endSeconds) == Outside(clips, startSeconds, endSeconds);
    }

    /** `applyCutToTrack`: razor at the start and the end of the range, then
        remove the first clip found wholly inside it, walking from the last
        clip down, and stop there. */
    method ApplyCutToTrack(t: nat, startTime: real, endTime: real) returns (ok: bool)
      requires t < |audioTracks|
      modifies this
      ensures ok
      ensures audioTracks == old(audioTracks)[t := RemoveLastInside(RazorAt(RazorAt(old(audioTracks)[t], startTime), endTime), startTime, endTime)]
    {
      Razor(t, startTime);
      Razor(t, endTime);
      ghost var cut := audioTracks[t];
      assert cut == RazorAt(RazorAt(old(audioTracks)[t], startTime), endTime);
      var i := |audioTracks[t]|;
      while i > 0
        invariant 0 <= i <= |cut|
        invariant audioTracks == old(audioTracks)[t := cut]
        invariant forall j :: i <= j < |cut| ==> !Inside(cut[j], startTime, endTime)
      {
        i := i - 1;
        var clip := audioTracks[t][i];
        if clip.start >= startTime && clip.end <= endTime {
          RemoveLastAt(cut, i, startTime, endTime);
          RemoveClip(t, i);
          assert audioTracks[t] == RemoveLastInside(cut, startTime, endTime);
          return true;
        }
      }
      RemoveLastNone(cut, startTime, endTime);
      return true;
    }

    /** The razor loop of `applyCutsToTimeline`: the razors of each
        segment in turn. On an index below -1 the first `razor` call throws
        before anything changed. */
    method RazorSilenceRanges(segments: seq<SilenceRange>, trackIndex: int) returns (ok: bool, cuts: nat)
      modifies this
      ensures ResolveScope(trackIndex, |old(audioTracks)|) == Unresolvable && segments != [] ==>
                !ok && cuts == 0 && audioTracks == old(audioTracks)
      ensures ResolveScope(trackIndex, |old(audioTracks)|) != Unresolvable || segments == [] ==>
                var scope := ResolveScope(trackIndex, |old(audioTracks)|);
                ok && cuts == CutCount(scope, |old(audioTracks)|, |segments|)
                && audioTracks == RazorPhase(old(audioTracks), segments, |segments|, scope)
    {
      ghost var tracks := audioTracks;
      ghost var scope := ResolveScope(trackIndex, |tracks|);
      var numTracks := |audioTracks|;
      cuts := 0;
      var i := 0;
      while i < |segments|
        invariant 0 <= i <= |segments|
        invariant audioTracks == RazorPhase(tracks, segments, i, scope)
        invariant cuts == CutCount(scope, numTracks, i)
        invariant scope == Unresolvable ==> i == 0
      {
        if trackIndex != -1 && trackIndex < numTracks && trackIndex < 0 {
          // `sequence.audioTracks[trackIndex]` is undefined.
          RazorPhaseUnresolvable(tracks, segments);
          return false, 0;
        }
        RazorPhaseStep(tracks, segments, i, scope);
        CutCountStep(scope, numTracks, i);
        var n := RazorSegment(segments[i], trackIndex, scope);
        cuts := cuts + n;
        i := i + 1;
      }
      ok := true;
    }

    /** `removeClipsInSilenceRanges`: for each segment in turn, remove the
        clips wholly inside it from every track in scope. On an index below
        -1 each `removeClipsInRange` call throws and swallows its error. */
    method RemoveClipsInSilenceRanges(segments: seq<SilenceRange>, trackIndex: int)
      modifies this
      ensures audioTracks == RemovePhase(old(audioTracks), segments, |segments|, ResolveScope(trackIndex, |old(audioTracks)|))
    {
      ghost var tracks := audioTracks;
      ghost var scope := ResolveScope(trackIndex, |audioTracks|);
      var numTracks := |audioTracks|;
      var i := 0;
      while i < |segments|
        invariant 0 <= i <= |segments|
        invariant audioTracks == RemovePhase(tracks, segments, i, scope)
      {
        var segment := segments[i];
        if trackIndex == -1 {
          var t := 0;
          RemoveRoundStarts(tracks, segments, i);
          while t < numTracks
            invariant 0 <= t <= numTracks
            invariant audioTracks == RemoveRound(tracks, segments, i, t)
          {
            RemoveRoundStep(tracks, segments, i, t);
            RemoveClipsInRange(t, segment.start, segment.end);
            t := t + 1;
          }
          RemoveRoundEnds(tracks, segments, i);
        } else if 0 <= trackIndex < numTracks {
          RemovePhaseOneTrack(tracks, segments, i, trackIndex);
          RemoveClipsInRange(trackIndex, segment.start, segment.end);
        } else {
          RemovePhaseNoTrack(tracks, segments, i, scope);
        }
        i := i + 1;
      }
    }
  }

  // ---------------------------------------------------------------------
  // `applyCutsToTimeline`

  /** `applyCutsToTimeline`. `active` is `app.project.activeSequence`; the
      result stands for the strings "true" and "false", and `cutsApplied`
      is the count the status line reports. `padding` is never read. */
  method ApplyCutsToTimeline(active: Sequence?, segments: seq<SilenceRange>, trackIndex: int, padding: real)
    returns (ok: bool, cutsApplied: nat)
    modifies active
    ensures active == null ==> !ok && cutsApplied == 0
    ensures active != null && ResolveScope(trackIndex, |old(active.audioTracks)|) == Unresolvable && segments != [] ==>
              !ok && cutsApplied == 0 && active.audioTracks == old(active.audioTracks)
    ensures active != null && (ResolveScope(trackIndex, |old(active.audioTracks)|) != Unresolvable || segments == []) ==>
              var scope := ResolveScope(trackIndex, |old(active.audioTracks)|);
              && ok
              && cutsApplied == CutCount(scope, |old(active.audioTracks)|, |segments|)
              && active.audioTracks == CutTimeline(old(active.audioTracks), LatestFirst(segments), scope)
  {
    if active == null {
      return false, 0;
    }
    var sorted := LatestFirst(segments);
    ghost var tracks := active.audioTracks;
    ghost var scope := ResolveScope(trackIndex, |tracks|);
    ok, cutsApplied := active.RazorSilenceRanges(sorted, trackIndex);
    if !ok {
      return false, 0;
    }
    active.RemoveClipsInSilenceRanges(sorted, trackIndex);
    PhasesCutTimeline(tracks, sorted, scope);
  }
}
