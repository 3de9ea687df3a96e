/**
 * The subtitle plan of `create_lyric_video`: which records become captions
 * and, for each, the pair of text clips it produces (the lyric line and its
 * English translation below it), with font size, vertical position, start,
 * duration and fades. Rendering the clips and writing the video are not part
 * of this model; the rendered height of a caption is a parameter.
 */
module Subtitles {
  import opened Wrappers
  import opened Text
  import opened LyricData
  import opened Timing
  import opened Translation

  /** Which of the two lines of a record's subtitle a clip shows. */
  datatype Track = Lyrics | Translated

  /**
   * One text clip: its text, font size, top edge (pixels from the top of the
   * frame; clips are centred horizontally), start time, duration, and the
   * fade-in/fade-out length when fades are on.
   */
  datatype Caption = Caption(
    track: Track,
    text: string,
    fontSize: int,
    y: int,
    start: real,
    duration: real,
    fade: Option<real>)

  /** The settings the plan depends on. */
  datatype Layout = Layout(videoHeight: int, fontSize: int, marginBottom: int, enableFade: bool)

  /** `vfx.FadeIn(0.5)` and `vfx.FadeOut(0.5)`. */
  const FadeSeconds: real := 0.5

  /** The gap in pixels between the bottom margin line and the top of the translation. */
  const TranslationOffset: int := 10

  /** `lyric.get("text", "")`. */
  function RawText(l: Lyric): string {
    if l.text.Some? then l.text.value else ""
  }

  /** `lyric.get("text", "").strip()`. */
  function CaptionText(l: Lyric): string {
    Strip(RawText(l))
  }

  /**
   * The record passes both validity checks: start and end are present and
   * numeric, the stripped text is not empty, the start is not negative and the
   * end is after the start.
   */
  predicate IsKept(l: Lyric) {
    && l.start.Seconds? && l.end.Seconds?
    && !AllSpace(RawText(l))
    && 0.0 <= l.start.t && l.start.t < l.end.t
  }

  /** `lyric["translations"]["en"]` succeeds. */
  predicate HasEnglish(l: Lyric) {
    l.translations.Some? && English in l.translations.value
  }

  /** The records that become subtitles, in their original order. */
  function Kept(lyrics: seq<Lyric>): (kept: seq<Lyric>)
    ensures |kept| <= |lyrics|
    ensures forall k :: 0 <= k < |kept| ==> IsKept(kept[k])
    decreases |lyrics|
  {
    if lyrics == [] then []
    else
      var init := lyrics[..|lyrics| - 1];
      var last := lyrics[|lyrics| - 1];
      if IsKept(last) then Kept(init) + [last] else Kept(init)
  }

  /** Every kept record is one of the input records. */
  lemma {:induction false} KeptFromInput(lyrics: seq<Lyric>)
    ensures forall k :: 0 <= k < |Kept(lyrics)| ==> Kept(lyrics)[k] in lyrics
    decreases |lyrics|
  {
    if lyrics != [] {
      var init := lyrics[..|lyrics| - 1];
      KeptFromInput(init);
      assert forall x :: x in init ==> x in lyrics;
    }
  }

  /** Nothing is kept exactly when no record passes the checks. */
  lemma {:induction false} KeptEmpty(lyrics: seq<Lyric>)
    ensures Kept(lyrics) == [] <==> forall i :: 0 <= i < |lyrics| ==> !IsKept(lyrics[i])
    decreases |lyrics|
  {
    if lyrics != [] {
      var init := lyrics[..|lyrics| - 1];
      KeptEmpty(init);
      assert forall i :: 0 <= i < |init| ==> init[i] == lyrics[i];
    }
  }

  /** The last record of `a + b` is the last of `b`, the rest is `a` and the rest of `b`. */
  lemma InitOfConcat(a: seq<Lyric>, b: seq<Lyric>)
    requires b != []
    ensures (a + b)[..|a + b| - 1] == a + b[..|b| - 1]
    ensures (a + b)[|a + b| - 1] == b[|b| - 1]
  {
  }

  lemma AppendAssociative(a: seq<Lyric>, b: seq<Lyric>, c: seq<Lyric>)
    ensures (a + b) + c == a + (b + c)
  {
  }

  /** Keeping splits over concatenation, so the kept records keep their input order. */
  lemma {:induction false} KeptConcat(a: seq<Lyric>, b: seq<Lyric>)
    ensures Kept(a + b) == Kept(a) + Kept(b)
    decreases |b|
  {
    if b == [] {
      assert a + b == a;
    } else {
      var b' := b[..|b| - 1];
      var last := b[|b| - 1];
      InitOfConcat(a, b);
      KeptConcat(a, b');
      if IsKept(last) {
        AppendAssociative(Kept(a), Kept(b'), [last]);
      }
    }
  }

  /** A single record is kept exactly when it passes the checks. */
  lemma KeptSingle(l: Lyric)
    ensures Kept([l]) == if IsKept(l) then [l] else []
  {
    assert [l][..0] == [];
  }

  /**
   * Every record that passes the checks is kept, in its place: what is kept
   * before it comes from the records before it, what is kept after it from
   * those after it.
   */
  lemma KeptComplete(lyrics: seq<Lyric>, i: int)
    requires 0 <= i < |lyrics| && IsKept(lyrics[i])
    ensures Kept(lyrics) == Kept(lyrics[..i]) + [lyrics[i]] + Kept(lyrics[i + 1..])
    ensures lyrics[i] in Kept(lyrics)
  {
    var before, here, after := lyrics[..i], [lyrics[i]], lyrics[i + 1..];
    SplitAround(lyrics, i);
    KeptConcat(before, here + after);
    KeptConcat(here, after);
    KeptSingle(lyrics[i]);
    AppendAssociative(Kept(before), here, Kept(after));
    InMiddle(Kept(before), lyrics[i], Kept(after));
  }

  lemma SplitAround(s: seq<Lyric>, i: int)
    requires 0 <= i < |s|
    ensures s == s[..i] + ([s[i]] + s[i + 1..])
  {
  }

  lemma InMiddle(a: seq<Lyric>, x: Lyric, b: seq<Lyric>)
    ensures x in a + [x] + b
  {
    assert (a + [x] + b)[|a|] == x;
  }

  /** `min(end, video_duration) - start`. */
  function Duration(l: Lyric, mediaDuration: real): real
    requires IsKept(l)
  {
    Min(l.end.t, mediaDuration) - l.start.t
  }

  function Fade(layout: Layout): Option<real> {
    if layout.enableFade then Some(FadeSeconds) else None
  }

  /** The lyric clip: full font size, its bottom edge on the bottom margin. */
  function LyricCaption(l: Lyric, layout: Layout, mediaDuration: real, height: string -> int): Caption
    requires IsKept(l)
  {
    var text := CaptionText(l);
    Caption(Lyrics, text, layout.fontSize, layout.videoHeight - height(text) - layout.marginBottom,
            l.start.t, Duration(l, mediaDuration), Fade(layout))
  }

  /** The translation clip: half the font size (rounded down), just below the bottom margin. */
  function TranslationCaption(l: Lyric, layout: Layout, mediaDuration: real): Caption
    requires IsKept(l) && HasEnglish(l)
  {
    Caption(Translated, l.translations.value[English], layout.fontSize / 2,
            layout.videoHeight - layout.marginBottom + TranslationOffset,
            l.start.t, Duration(l, mediaDuration), Fade(layout))
  }

  /** Every record of `kept` passes the checks and has an English translation. */
  predicate Plannable(kept: seq<Lyric>) {
    forall k :: 0 <= k < |kept| ==> IsKept(kept[k]) && HasEnglish(kept[k])
  }

  /**
   * The clips of the kept records, in closed form: clip `2k` is the lyric
   * clip of record `k` and clip `2k + 1` its translation clip.
   */
  function PlanOf(kept: seq<Lyric>, layout: Layout, mediaDuration: real, height: string -> int): (clips: seq<Caption>)
    requires Plannable(kept)
    ensures |clips| == 2 * |kept|
  {
    seq(2 * |kept|, j requires 0 <= j < 2 * |kept| => ClipOf(kept, j, layout, mediaDuration, height))
  }

  /** Clip `j` of the plan: a lyric clip at even positions, a translation clip at odd ones. */
  function ClipOf(kept: seq<Lyric>, j: int, layout: Layout, mediaDuration: real, height: string -> int): Caption
    requires Plannable(kept)
    requires 0 <= j < 2 * |kept|
  {
    if j % 2 == 0 then LyricCaption(kept[j / 2], layout, mediaDuration, height)
    else TranslationCaption(kept[j / 2], layout, mediaDuration)
  }

  /** Two clips per kept record, the lyric first and its translation second. */
  lemma PlanOfAt(kept: seq<Lyric>, layout: Layout, mediaDuration: real, height: string -> int, k: int)
    requires Plannable(kept)
    requires 0 <= k < |kept|
    ensures PlanOf(kept, layout, mediaDuration, height)[2 * k] == LyricCaption(kept[k], layout, mediaDuration, height)
    ensures PlanOf(kept, layout, mediaDuration, height)[2 * k + 1] == TranslationCaption(kept[k], layout, mediaDuration)
  {
    PlanOfLyric(kept, layout, mediaDuration, height, k);
    PlanOfTranslation(kept, layout, mediaDuration, height, k);
  }

  lemma PlanOfLyric(kept: seq<Lyric>, layout: Layout, mediaDuration: real, height: string -> int, k: int)
    requires Plannable(kept)
    requires 0 <= k < |kept|
    ensures PlanOf(kept, layout, mediaDuration, height)[2 * k] == LyricCaption(kept[k], layout, mediaDuration, height)
  {
    PlanOfIndex(kept, layout, mediaDuration, height, 2 * k);
    Halves(k);
  }

  lemma PlanOfTranslation(kept: seq<Lyric>, layout: Layout, mediaDuration: real, height: string -> int, k: int)
    requires Plannable(kept)
    requires 0 <= k < |kept|
    ensures PlanOf(kept, layout, mediaDuration, height)[2 * k + 1] == TranslationCaption(kept[k], layout, mediaDuration)
  {
    PlanOfIndex(kept, layout, mediaDuration, height, 2 * k + 1);
    Halves(k);
  }

  lemma PlanOfIndex(kept: seq<Lyric>, layout: Layout, mediaDuration: real, height: string -> int, j: int)
    requires Plannable(kept)
    requires 0 <= j < 2 * |kept|
    ensures PlanOf(kept, layout, mediaDuration, height)[j] == ClipOf(kept, j, layout, mediaDuration, height)
  {
  }

  lemma Halves(k: int)
    ensures (2 * k) / 2 == k && (2 * k) % 2 == 0
    ensures (2 * k + 1) / 2 == k && (2 * k + 1) % 2 == 1
  {
  }

  /** Every clip of a plan carries the fades the layout asks for. */
  lemma PlanOfFades(kept: seq<Lyric>, layout: Layout, mediaDuration: real, height: string -> int)
    requires Plannable(kept)
    ensures forall j :: 0 <= j < |PlanOf(kept, layout, mediaDuration, height)| ==>
      PlanOf(kept, layout, mediaDuration, height)[j].fade == Fade(layout)
  {
  }

  /** Planning one more kept record appends its two clips. */
  lemma PlanSnoc(kept: seq<Lyric>, l: Lyric, layout: Layout, mediaDuration: real, height: string -> int)
    requires Plannable(kept)
    requires IsKept(l) && HasEnglish(l)
    ensures PlanOf(kept + [l], layout, mediaDuration, height)
      == PlanOf(kept, layout, mediaDuration, height)
         + [LyricCaption(l, layout, mediaDuration, height), TranslationCaption(l, layout, mediaDuration)]
  {
    var longer := kept + [l];
    var p := PlanOf(longer, layout, mediaDuration, height);
    var q := PlanOf(kept, layout, mediaDuration, height)
      + [LyricCaption(l, layout, mediaDuration, height), TranslationCaption(l, layout, mediaDuration)];
    forall j | 0 <= j < |p| ensures p[j] == q[j] {
      if j < 2 * |kept| {
        assert longer[j / 2] == kept[j / 2];
      } else {
        assert j / 2 == |kept| && longer[j / 2] == l;
      }
    }
  }

  /** Why building the clips aborts: a kept record has no English translation (0-based index). */
  datatype PlanError = MissingTranslation(line: nat)

  /** Every kept record among `lyrics` has an English translation. */
  predicate AllTranslated(lyrics: seq<Lyric>) {
    forall i :: 0 <= i < |lyrics| ==> IsKept(lyrics[i]) ==> HasEnglish(lyrics[i])
  }

  lemma KeptAreTranslated(lyrics: seq<Lyric>)
    requires AllTranslated(lyrics)
    ensures Plannable(Kept(lyrics))
  {
    KeptFromInput(lyrics);
    forall k | 0 <= k < |Kept(lyrics)| ensures HasEnglish(Kept(lyrics)[k]) {
      var i :| 0 <= i < |lyrics| && lyrics[i] == Kept(lyrics)[k];
    }
  }

  /** With one more record, every kept record is translated exactly when the last one is not a kept record without one. */
  lemma AllTranslatedLast(lyrics: seq<Lyric>)
    requires lyrics != []
    ensures var n := |lyrics| - 1;
      AllTranslated(lyrics) <==> AllTranslated(lyrics[..n]) && (IsKept(lyrics[n]) ==> HasEnglish(lyrics[n]))
  {
    var n := |lyrics| - 1;
    assert forall j :: 0 <= j < n ==> lyrics[..n][j] == lyrics[j];
  }

  /**
   * The outcome of building the clips of `lyrics` record by record: skip a
   * record that fails the checks, abort at a kept record without an English
   * translation, else append its lyric clip and its translation clip.
   */
  function SubtitlePlan(lyrics: seq<Lyric>, layout: Layout, mediaDuration: real, height: string -> int)
    : (result: Result<seq<Caption>, PlanError>)
    decreases |lyrics|
  {
    if lyrics == [] then Ok([])
    else
      var n := |lyrics| - 1;
      var l := lyrics[n];
      var before := SubtitlePlan(lyrics[..n], layout, mediaDuration, height);
      if before.Err? || !IsKept(l) then before
      else if !HasEnglish(l) then Err(MissingTranslation(n))
      else Ok(before.value + [LyricCaption(l, layout, mediaDuration, height), TranslationCaption(l, layout, mediaDuration)])
  }

  /** Building succeeds exactly when every kept record has an English translation. */
  lemma {:induction false} PlanOkIff(lyrics: seq<Lyric>, layout: Layout, mediaDuration: real, height: string -> int)
    ensures SubtitlePlan(lyrics, layout, mediaDuration, height).Ok? <==> AllTranslated(lyrics)
    decreases |lyrics|
  {
    if lyrics != [] {
      PlanOkIff(lyrics[..|lyrics| - 1], layout, mediaDuration, height);
      AllTranslatedLast(lyrics);
    }
  }

  /** A successful build yields the two clips of each kept record, in order. */
  lemma {:induction false} PlanValue(lyrics: seq<Lyric>, layout: Layout, mediaDuration: real, height: string -> int)
    requires AllTranslated(lyrics)
    ensures SubtitlePlan(lyrics, layout, mediaDuration, height).Ok?
    ensures (KeptAreTranslated(lyrics);
      SubtitlePlan(lyrics, layout, mediaDuration, height).value == PlanOf(Kept(lyrics), layout, mediaDuration, height))
    decreases |lyrics|
  {
    PlanOkIff(lyrics, layout, mediaDuration, height);
    KeptAreTranslated(lyrics);
    if lyrics != [] {
      var n := |lyrics| - 1;
      AllTranslatedLast(lyrics);
      PlanValue(lyrics[..n], layout, mediaDuration, height);
      KeptAreTranslated(lyrics[..n]);
      if IsKept(lyrics[n]) {
        PlanSnoc(Kept(lyrics[..n]), lyrics[n], layout, mediaDuration, height);
      }
    }
  }

  /**
   * Building succeeds exactly when every kept record has an English
   * translation, and then yields the two clips of each kept record in order.
   */
  lemma PlanSucceeds(lyrics: seq<Lyric>, layout: Layout, mediaDuration: real, height: string -> int)
    ensures SubtitlePlan(lyrics, layout, mediaDuration, height).Ok? <==> AllTranslated(lyrics)
    ensures AllTranslated(lyrics) ==>
      && (KeptAreTranslated(lyrics);
          SubtitlePlan(lyrics, layout, mediaDuration, height).value == PlanOf(Kept(lyrics), layout, mediaDuration, height))
  {
    PlanOkIff(lyrics, layout, mediaDuration, height);
    if AllTranslated(lyrics) {
      PlanValue(lyrics, layout, mediaDuration, height);
    }
  }

  /** Building fails at the first kept record without an English translation. */
  lemma {:induction false} PlanFails(lyrics: seq<Lyric>, layout: Layout, mediaDuration: real, height: string -> int)
    ensures SubtitlePlan(lyrics, layout, mediaDuration, height).Err? ==>
      var i := SubtitlePlan(lyrics, layout, mediaDuration, height).error.line;
      && i < |lyrics| && IsKept(lyrics[i]) && !HasEnglish(lyrics[i])
      && AllTranslated(lyrics[..i])
    decreases |lyrics|
  {
    if lyrics != [] {
      var n := |lyrics| - 1;
      var init := lyrics[..n];
      PlanFails(init, layout, mediaDuration, height);
      if SubtitlePlan(init, layout, mediaDuration, height).Err? {
        var i := SubtitlePlan(init, layout, mediaDuration, height).error.line;
        assert init[..i] == lyrics[..i] && init[i] == lyrics[i];
      } else {
        PlanSucceeds(init, layout, mediaDuration, height);
        assert lyrics[..n] == init;
      }
    }
  }

  /**
   * The clip-building loop: invalid records are skipped, each kept record adds
   * its lyric clip and then its translation clip, and a kept record without an
   * English translation aborts the whole run.
   */
  method BuildSubtitles(lyrics: seq<Lyric>, layout: Layout, mediaDuration: real, height: string -> int)
    returns (result: Result<seq<Caption>, PlanError>)
    ensures result == SubtitlePlan(lyrics, layout, mediaDuration, height)
  {
    var clips: seq<Caption> := [];
    for i := 0 to |lyrics|
      invariant SubtitlePlan(lyrics[..i], layout, mediaDuration, height) == Ok(clips)
    {
      assert lyrics[..i + 1][..i] == lyrics[..i];
      var lyric := lyrics[i];
      if !IsKept(lyric) {
        continue;
      }
      if !HasEnglish(lyric) {
        PlanAborts(lyrics, i, layout, mediaDuration, height);
        return Err(MissingTranslation(i));
      }
      clips := clips + [LyricCaption(lyric, layout, mediaDuration, height), TranslationCaption(lyric, layout, mediaDuration)];
    }
    assert lyrics[..|lyrics|] == lyrics;
    return Ok(clips);
  }

  /** Once building has failed at some record, the records after it change nothing. */
  lemma {:induction false} PlanAborts(lyrics: seq<Lyric>, i: int, layout: Layout, mediaDuration: real, height: string -> int)
    requires 0 <= i < |lyrics|
    requires SubtitlePlan(lyrics[..i + 1], layout, mediaDuration, height).Err?
    ensures SubtitlePlan(lyrics, layout, mediaDuration, height) == SubtitlePlan(lyrics[..i + 1], layout, mediaDuration, height)
    decreases |lyrics| - i
  {
    if i + 1 < |lyrics| {
      var n := |lyrics| - 1;
      var init := lyrics[..n];
      assert init[..i + 1] == lyrics[..i + 1];
      PlanAborts(init, i, layout, mediaDuration, height);
      PlanAfterError(lyrics, layout, mediaDuration, height);
    } else {
      assert lyrics[..i + 1] == lyrics;
    }
  }

  /** A failed prefix makes the whole run fail the same way. */
  lemma PlanAfterError(lyrics: seq<Lyric>, layout: Layout, mediaDuration: real, height: string -> int)
    requires lyrics != [] && SubtitlePlan(lyrics[..|lyrics| - 1], layout, mediaDuration, height).Err?
    ensures SubtitlePlan(lyrics, layout, mediaDuration, height) == SubtitlePlan(lyrics[..|lyrics| - 1], layout, mediaDuration, height)
  {
  }

  /** The text of a kept record's lyric clip is its trimmed text, never empty. */
  lemma LyricCaptionText(l: Lyric, layout: Layout, mediaDuration: real, height: string -> int)
    requires IsKept(l)
    ensures var c := LyricCaption(l, layout, mediaDuration, height);
      c.text != [] && IsStripped(c.text) && c.text == Strip(RawText(l))
  {
    StripEmpty(RawText(l));
  }

  /**
   * A clip starts at the record's start and ends at its end, clamped to the
   * length of the media; it is empty or negative exactly when the record
   * starts at or after the end of the media.
   */
  lemma CaptionTiming(l: Lyric, layout: Layout, mediaDuration: real, height: string -> int)
    requires IsKept(l)
    ensures var c := LyricCaption(l, layout, mediaDuration, height);
      && 0.0 <= c.start == l.start.t
      && c.start + c.duration <= mediaDuration
      && c.start + c.duration <= l.end.t
      && (c.start + c.duration == mediaDuration || c.start + c.duration == l.end.t)
      && (l.end.t <= mediaDuration ==> c.duration == l.end.t - l.start.t)
      && (c.duration > 0.0 <==> l.start.t < mediaDuration)
  {
  }

  /**
   * The translation clip shares the lyric clip's start, duration and fades,
   * sits `TranslationOffset` pixels below the lyric clip's bottom edge, and
   * uses half its font size, rounded down.
   */
  lemma CaptionPair(l: Lyric, layout: Layout, mediaDuration: real, height: string -> int)
    requires IsKept(l) && HasEnglish(l)
    ensures var c := LyricCaption(l, layout, mediaDuration, height);
      var t := TranslationCaption(l, layout, mediaDuration);
      && c.track == Lyrics && t.track == Translated
      && t.text == l.translations.value[English]
      && t.start == c.start && t.duration == c.duration && t.fade == c.fade
      && c.y + height(c.text) + layout.marginBottom == layout.videoHeight
      && t.y == c.y + height(c.text) + TranslationOffset
      && c.fontSize == layout.fontSize
      && 2 * t.fontSize <= c.fontSize <= 2 * t.fontSize + 1
      && (c.fade.Some? <==> layout.enableFade)
      && (c.fade.Some? ==> c.fade.value == FadeSeconds)
  {
  }

  /**
   * A fully translated run yields two clips per kept record, in record
   * order: the record's lyric clip, then its translation clip.
   */
  lemma PlanEntries(lyrics: seq<Lyric>, layout: Layout, mediaDuration: real, height: string -> int)
    requires AllTranslated(lyrics)
    ensures var kept := Kept(lyrics);
      var r := SubtitlePlan(lyrics, layout, mediaDuration, height);
      && r.Ok? && |r.value| == 2 * |kept|
      && (KeptAreTranslated(lyrics);
          forall k :: 0 <= k < |kept| ==>
            && r.value[2 * k] == LyricCaption(kept[k], layout, mediaDuration, height)
            && r.value[2 * k + 1] == TranslationCaption(kept[k], layout, mediaDuration))
  {
    PlanSucceeds(lyrics, layout, mediaDuration, height);
    KeptAreTranslated(lyrics);
    forall k | 0 <= k < |Kept(lyrics)|
      ensures SubtitlePlan(lyrics, layout, mediaDuration, height).value[2 * k]
                == LyricCaption(Kept(lyrics)[k], layout, mediaDuration, height)
      ensures SubtitlePlan(lyrics, layout, mediaDuration, height).value[2 * k + 1]
                == TranslationCaption(Kept(lyrics)[k], layout, mediaDuration)
    {
      PlanOfAt(Kept(lyrics), layout, mediaDuration, height, k);
    }
  }

  /** Every clip of a fully translated run carries the fades the layout asks for. */
  lemma PlanFades(lyrics: seq<Lyric>, layout: Layout, mediaDuration: real, height: string -> int)
    requires AllTranslated(lyrics)
    ensures var r := SubtitlePlan(lyrics, layout, mediaDuration, height);
      r.Ok? && forall j :: 0 <= j < |r.value| ==> r.value[j].fade == Fade(layout)
  {
    PlanSucceeds(lyrics, layout, mediaDuration, height);
    KeptAreTranslated(lyrics);
    PlanOfFades(Kept(lyrics), layout, mediaDuration, height);
  }

  /** When no record passes the checks there are no clips, and nothing can be missing a translation. */
  lemma NothingKept(lyrics: seq<Lyric>, layout: Layout, mediaDuration: real, height: string -> int)
    requires forall i :: 0 <= i < |lyrics| ==> !IsKept(lyrics[i])
    ensures SubtitlePlan(lyrics, layout, mediaDuration, height) == Ok([])
  {
    KeptEmpty(lyrics);
    PlanSucceeds(lyrics, layout, mediaDuration, height);
  }

  /** A line sung from 8 s to 15 s over a 10 s track is shown for its first 2 seconds only. */
  lemma ClampedAtMediaEnd(layout: Layout, height: string -> int)
    ensures var l := Lyric(Some("歌"), Seconds(8.0), Seconds(15.0), Some(map[English := "song"]), Some(Japanese));
      && IsKept(l)
      && LyricCaption(l, layout, 10.0, height).start == 8.0
      && LyricCaption(l, layout, 10.0, height).duration == 2.0
  {
    var l := Lyric(Some("歌"), Seconds(8.0), Seconds(15.0), Some(map[English := "song"]), Some(Japanese));
    assert !IsSpace(RawText(l)[0]);
  }
}
