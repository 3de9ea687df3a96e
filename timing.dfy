/**
 * Alignment and timing repair: the test stub of `align_lyrics` (start = 4i,
 * end = 4i + 1) and `correct_lyrics_timing`, which overwrites each record's
 * text with the authoritative line and pads its end by one second without
 * letting it pass the next record's start.
 */
module Timing {
  import opened Wrappers
  import opened Text
  import opened LyricData

  /** The padding added to every end time but the last. */
  const Padding: real := 1.0

  /** What `correct_lyrics_timing` raises at loop index `at`. */
  datatype TimingError =
    | TooFewLines(at: nat)    // IndexError: fewer original lines than records to correct
    | MalformedTime(at: nat)  // KeyError/TypeError: `end` of record `at` or `start` of record `at + 1` is no number

  /** The records after the loop ran, and what it raised, if anything. */
  datatype TimingRun = TimingRun(timeline: seq<Lyric>, failure: Option<TimingError>)

  /** Python's `min(x, y)`: `y` when `y < x`, otherwise `x`. */
  function Min(x: real, y: real): real {
    if y < x then y else x
  }

  /** `range(len(aligned) - 1)` runs this many times. */
  function Steps(recs: seq<Lyric>): nat {
    if |recs| == 0 then 0 else |recs| - 1
  }

  /** Loop step `k` raises instead of correcting record `k`. */
  predicate StepFails(originals: seq<string>, recs: seq<Lyric>, k: nat)
    requires k + 1 < |recs|
  {
    k >= |originals| || !TimesReadable(recs, k)
  }

  /** Loop step `k` finds a number under record `k`'s `end` and under record `k + 1`'s `start`. */
  predicate TimesReadable(recs: seq<Lyric>, k: nat)
    requires k + 1 < |recs|
  {
    recs[k].end.Seconds? && recs[k + 1].start.Seconds?
  }

  /** The first loop step at or after `from` that raises, or `Steps(recs)` when none does. */
  function FirstFailure(originals: seq<string>, recs: seq<Lyric>, from: nat): (k: nat)
    requires from <= Steps(recs)
    ensures from <= k <= Steps(recs)
    ensures forall j :: from <= j < k ==> !StepFails(originals, recs, j)
    ensures k < Steps(recs) ==> StepFails(originals, recs, k)
    decreases Steps(recs) - from
  {
    if from == Steps(recs) then from
    else if StepFails(originals, recs, from) then from
    else FirstFailure(originals, recs, from + 1)
  }

  /** Record `k` after a loop step that did not raise. */
  function Repaired(originals: seq<string>, recs: seq<Lyric>, k: nat): Lyric
    requires k + 1 < |recs| && !StepFails(originals, recs, k)
  {
    recs[k].(text := Some(originals[k]),
             end := Seconds(Min(recs[k].end.t + Padding, recs[k + 1].start.t)))
  }

  /** The records once the steps before `k` have repaired theirs. */
  function RepairedBefore(originals: seq<string>, recs: seq<Lyric>, k: nat): (out: seq<Lyric>)
    requires k <= Steps(recs)
    requires forall j :: 0 <= j < k ==> !StepFails(originals, recs, j)
    ensures |out| == |recs|
  {
    seq(|recs|, j requires 0 <= j < |recs| => if j < k then Repaired(originals, recs, j) else recs[j])
  }

  lemma RepairedBeforeStep(originals: seq<string>, recs: seq<Lyric>, k: nat)
    requires k < Steps(recs)
    requires forall j :: 0 <= j <= k ==> !StepFails(originals, recs, j)
    ensures RepairedBefore(originals, recs, k + 1)
      == RepairedBefore(originals, recs, k)[k := Repaired(originals, recs, k)]
  {
  }

  /** Pins down FirstFailure from the steps before `k` succeeding and step `k` failing (or being the end). */
  lemma FirstFailureIs(originals: seq<string>, recs: seq<Lyric>, k: nat)
    requires k <= Steps(recs)
    requires forall j :: 0 <= j < k ==> !StepFails(originals, recs, j)
    requires k < Steps(recs) ==> StepFails(originals, recs, k)
    ensures FirstFailure(originals, recs, 0) == k
  {
  }

  /**
   * What `correct_lyrics_timing` leaves in the list, given the original lines:
   * the records before the first failing step are repaired, and a step that
   * fails on a time has already replaced its record's text.
   */
  function CorrectTiming(originals: seq<string>, recs: seq<Lyric>): (run: TimingRun)
    ensures |run.timeline| == |recs|
    ensures forall j :: 0 <= j < |recs| ==> run.timeline[j].start == recs[j].start
    ensures |recs| > 0 ==> run.timeline[|recs| - 1] == recs[|recs| - 1]
  {
    var k := FirstFailure(originals, recs, 0);
    var done := RepairedBefore(originals, recs, k);
    if k == Steps(recs) then TimingRun(done, None)
    else if k >= |originals| then TimingRun(done, Some(TooFewLines(k)))
    else TimingRun(done[k := recs[k].(text := Some(originals[k]))], Some(MalformedTime(k)))
  }

  /**
   * `correct_lyrics_timing(original_lyrics, aligned_lyrics)`: the records of
   * `a` are corrected in place; a raised error is returned, with `a` left as
   * the loop had it at that moment.
   */
  method CorrectLyricsTiming(originalLyrics: string, a: array<Lyric>) returns (failure: Option<TimingError>)
    modifies a
    ensures var run := CorrectTiming(NonBlankLines(originalLyrics), old(a[..]));
      a[..] == run.timeline && failure == run.failure
  {
    var originalJson := ConvertLyricsToJson(originalLyrics);
    ghost var originals := NonBlankLines(originalLyrics);
    ghost var recs := a[..];
    var i := 0;
    assert a[..] == RepairedBefore(originals, recs, 0);
    while i < a.Length - 1
      invariant 0 <= i <= Steps(recs)
      invariant forall j :: 0 <= j < i ==> !StepFails(originals, recs, j)
      invariant a[..] == RepairedBefore(originals, recs, i)
    {
      if i >= |originalJson| {
        CorrectTimingStopsAt(originals, recs, i);
        failure := Some(TooFewLines(i));
        return;
      }
      assert originalJson[i].text == Some(originals[i]);
      a[i] := a[i].(text := originalJson[i].text);
      if !a[i].end.Seconds? || !a[i + 1].start.Seconds? {
        CorrectTimingStopsAt(originals, recs, i);
        assert a[..] == RepairedBefore(originals, recs, i)[i := recs[i].(text := Some(originals[i]))];
        failure := Some(MalformedTime(i));
        return;
      }
      assert !StepFails(originals, recs, i);
      a[i] := a[i].(end := Seconds(Min(a[i].end.t + Padding, a[i + 1].start.t)));
      RepairedBeforeStep(originals, recs, i);
      i := i + 1;
    }
    CorrectTimingStopsAt(originals, recs, i);
    failure := None;
  }

  /** The run ends at step `k`: what CorrectTiming gives once the first failing step is known. */
  lemma CorrectTimingStopsAt(originals: seq<string>, recs: seq<Lyric>, k: nat)
    requires k <= Steps(recs)
    requires forall j :: 0 <= j < k ==> !StepFails(originals, recs, j)
    requires k < Steps(recs) ==> StepFails(originals, recs, k)
    ensures CorrectTiming(originals, recs) ==
      if k == Steps(recs) then TimingRun(RepairedBefore(originals, recs, k), None)
      else if k >= |originals| then TimingRun(RepairedBefore(originals, recs, k), Some(TooFewLines(k)))
      else TimingRun(RepairedBefore(originals, recs, k)[k := recs[k].(text := Some(originals[k]))],
                     Some(MalformedTime(k)))
  {
    FirstFailureIs(originals, recs, k);
  }

  /** The correction succeeds exactly when there are enough original lines and every time it reads is a number. */
  lemma CorrectTimingSucceeds(originals: seq<string>, recs: seq<Lyric>)
    ensures CorrectTiming(originals, recs).failure == None <==>
      && |originals| >= Steps(recs)
      && forall j :: 0 <= j < Steps(recs) ==> TimesReadable(recs, j)
  {
    var k := FirstFailure(originals, recs, 0);
    CorrectTimingStopsAt(originals, recs, k);
    if k < Steps(recs) {
      assert StepFails(originals, recs, k);
    } else {
      forall j | 0 <= j < Steps(recs) ensures j < |originals| && TimesReadable(recs, j) {
        assert !StepFails(originals, recs, j);
      }
      if Steps(recs) > 0 {
        assert TimesReadable(recs, Steps(recs) - 1);
      }
    }
  }

  /** With numeric times but too few original lines, the loop raises an index error at the first missing line. */
  lemma TooFewOriginalLines(originals: seq<string>, recs: seq<Lyric>)
    requires |originals| < Steps(recs)
    requires forall j :: 0 <= j < Steps(recs) ==> TimesReadable(recs, j)
    ensures CorrectTiming(originals, recs).failure == Some(TooFewLines(|originals|))
  {
    CorrectTimingStopsAt(originals, recs, |originals|);
  }

  /**
   * After a successful correction every record but the last carries the
   * original line and ends at min(end + 1.0, next start): never past the next
   * start, never later than the padded end, and exactly the padded end when
   * that already fits.
   */
  lemma CorrectedRecord(originals: seq<string>, recs: seq<Lyric>, i: nat)
    requires CorrectTiming(originals, recs).failure == None
    requires i < Steps(recs)
    ensures var out := CorrectTiming(originals, recs).timeline;
      && i < |originals| && recs[i].end.Seconds? && recs[i + 1].start.Seconds?
      && out[i].text == Some(originals[i])
      && out[i].start == recs[i].start
      && out[i].translations == recs[i].translations && out[i].language == recs[i].language
      && out[i].end.Seconds?
      && out[i].end.t <= recs[i + 1].start.t
      && out[i].end.t <= recs[i].end.t + Padding
      && (recs[i].end.t + Padding <= recs[i + 1].start.t ==> out[i].end.t == recs[i].end.t + Padding)
      && (recs[i].end.t + Padding > recs[i + 1].start.t ==> out[i].end.t == recs[i + 1].start.t)
  {
    CorrectTimingSucceeds(originals, recs);
    assert !StepFails(originals, recs, i);
    CorrectTimingStopsAt(originals, recs, Steps(recs));
  }

  /** After a successful correction no record overlaps its successor. */
  lemma CorrectedTimelineDoesNotOverlap(originals: seq<string>, recs: seq<Lyric>, i: nat)
    requires CorrectTiming(originals, recs).failure == None
    requires i + 1 < |recs|
    ensures var out := CorrectTiming(originals, recs).timeline;
      out[i].end.Seconds? && out[i + 1].start.Seconds? && out[i].end.t <= out[i + 1].start.t
  {
    CorrectedRecord(originals, recs, i);
  }

  /** Lists of zero or one record come back unchanged. */
  lemma ShortTimelineUnchanged(originals: seq<string>, recs: seq<Lyric>)
    requires |recs| <= 1
    ensures CorrectTiming(originals, recs) == TimingRun(recs, None)
  {
    assert CorrectTiming(originals, recs).timeline == recs;
  }

  /**
   * The usage example of the translation command: lines "こんにちは世界" and "ありがとう" aligned at
   * [0, 2] and [2.5, 4]: the first line's end is clamped to 2.5, the second is untouched.
   */
  lemma GreetingExample(t0: string, t1: string)
    ensures var recs := [Lyric(Some(t0), Seconds(0.0), Seconds(2.0), None, None),
                         Lyric(Some(t1), Seconds(2.5), Seconds(4.0), None, None)];
      CorrectTiming(["こんにちは世界", "ありがとう"], recs)
        == TimingRun([Lyric(Some("こんにちは世界"), Seconds(0.0), Seconds(2.5), None, None), recs[1]], None)
  {
    var recs := [Lyric(Some(t0), Seconds(0.0), Seconds(2.0), None, None),
                 Lyric(Some(t1), Seconds(2.5), Seconds(4.0), None, None)];
    assert FirstFailure(["こんにちは世界", "ありがとう"], recs, 0) == 1;
  }

  /** Record `i` as the alignment stub times it: from 4i to 4i + 1. */
  function StubTimed(rec: Lyric, i: nat): Lyric {
    rec.(start := Seconds((4 * i) as real), end := Seconds((4 * i + 1) as real))
  }

  /** The records of the alignment stub: the line records, record `i` timed [4i, 4i + 1]. */
  predicate IsStubAlignment(lyrics: string, aligned: seq<Lyric>) {
    var lines := ConvertLyricsToJson(lyrics);
    && |aligned| == |lines|
    && forall i :: 0 <= i < |aligned| ==> aligned[i] == StubTimed(lines[i], i)
  }

  /**
   * The test stub that `align_lyrics` currently returns before reaching the
   * alignment service: the line records with record `i` timed from 4i to 4i + 1.
   */
  method AlignLyricsStub(lyrics: string) returns (aligned: seq<Lyric>)
    ensures IsStubAlignment(lyrics, aligned)
  {
    aligned := ConvertLyricsToJson(lyrics);
    ghost var lines := aligned;
    for i := 0 to |aligned|
      invariant |aligned| == |lines|
      invariant forall j :: 0 <= j < i ==> aligned[j] == StubTimed(lines[j], j)
      invariant forall j :: i <= j < |aligned| ==> aligned[j] == lines[j]
    {
      aligned := aligned[i := StubTimed(aligned[i], i)];
    }
  }

  /** Aligning with the stub and then correcting against the same lyrics always succeeds. */
  lemma StubThenCorrectSucceeds(lyrics: string, aligned: seq<Lyric>)
    requires IsStubAlignment(lyrics, aligned)
    ensures CorrectTiming(NonBlankLines(lyrics), aligned).failure == None
  {
    CorrectTimingSucceeds(NonBlankLines(lyrics), aligned);
  }

  /**
   * After the stub and the correction, every record but the last keeps its
   * line and now ends at 4i + 2, strictly before the next start 4i + 4.
   */
  lemma StubThenCorrect(lyrics: string, aligned: seq<Lyric>, i: nat)
    requires IsStubAlignment(lyrics, aligned)
    requires i + 1 < |aligned|
    ensures var out := CorrectTiming(NonBlankLines(lyrics), aligned).timeline;
      && out[i].text == Some(NonBlankLines(lyrics)[i])
      && out[i].start == Seconds((4 * i) as real)
      && out[i].end == Seconds((4 * i + 2) as real)
      && (4 * i + 2) as real < (4 * (i + 1)) as real
  {
    StubThenCorrectSucceeds(lyrics, aligned);
    CorrectedRecord(NonBlankLines(lyrics), aligned, i);
  }
}
