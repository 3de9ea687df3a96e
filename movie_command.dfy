/**
 * The stand-alone movie script: the same per-record subtitle plan as the
 * library, with fades always on, composited over the background image, and
 * written next to the music file (its suffix replaced by `.mp4`) when no
 * output path is given.
 */
module MovieCommand {
  import opened Wrappers
  import opened LyricData
  import opened OutputPaths
  import opened Subtitles

  /** One layer of the composite video, bottom first. */
  datatype Layer = Background | Clip(caption: Caption)

  /** The script's settings: fades cannot be switched off. */
  function MovieLayout(videoHeight: int, fontSize: int, marginBottom: int): (layout: Layout)
    ensures layout.enableFade
    ensures layout.videoHeight == videoHeight && layout.fontSize == fontSize && layout.marginBottom == marginBottom
  {
    Layout(videoHeight, fontSize, marginBottom, true)
  }

  /** `[background_clip] + subtitle_clips`: the background at the bottom, then the clips in order. */
  function Composite(clips: seq<Caption>): (layers: seq<Layer>)
    ensures |layers| == 1 + |clips| && layers[0] == Background
    ensures forall j :: 0 <= j < |clips| ==> layers[1 + j] == Clip(clips[j])
  {
    [Background] + seq(|clips|, j requires 0 <= j < |clips| => Clip(clips[j]))
  }

  /**
   * The layers of a fully translated run: the background, then the lyric
   * clip and the translation clip of each kept record, in record order.
   */
  lemma CompositeOrder(lyrics: seq<Lyric>, layout: Layout, mediaDuration: real, height: string -> int)
    requires AllTranslated(lyrics)
    ensures (PlanEntries(lyrics, layout, mediaDuration, height);
      var layers := Composite(SubtitlePlan(lyrics, layout, mediaDuration, height).value);
      var kept := Kept(lyrics);
      && |layers| == 1 + 2 * |kept|
      && layers[0] == Background
      && (KeptAreTranslated(lyrics);
          forall k :: 0 <= k < |kept| ==>
            && layers[1 + 2 * k] == Clip(LyricCaption(kept[k], layout, mediaDuration, height))
            && layers[2 + 2 * k] == Clip(TranslationCaption(kept[k], layout, mediaDuration))))
  {
    PlanEntries(lyrics, layout, mediaDuration, height);
    KeptAreTranslated(lyrics);
    var clips := SubtitlePlan(lyrics, layout, mediaDuration, height).value;
    forall k | 0 <= k < |Kept(lyrics)|
      ensures Composite(clips)[1 + 2 * k] == Clip(clips[2 * k])
      ensures Composite(clips)[2 + 2 * k] == Clip(clips[2 * k + 1])
    {
    }
  }

  /**
   * The movie script's clip building and compositing: the run aborts with
   * the plan's error, or yields the composite of the plan's clips, built
   * with fades on.
   */
  method CreateLyricVideo(lyrics: seq<Lyric>, videoHeight: int, fontSize: int, marginBottom: int,
                          mediaDuration: real, height: string -> int)
    returns (r: Result<seq<Layer>, PlanError>)
    ensures r.Ok? <==> AllTranslated(lyrics)
    ensures var plan := SubtitlePlan(lyrics, MovieLayout(videoHeight, fontSize, marginBottom), mediaDuration, height);
      && (r.Err? ==> plan == Err(r.error))
      && (r.Ok? ==> plan.Ok? && r.value == Composite(plan.value))
  {
    var layout := MovieLayout(videoHeight, fontSize, marginBottom);
    var clips := BuildSubtitles(lyrics, layout, mediaDuration, height);
    PlanSucceeds(lyrics, layout, mediaDuration, height);
    if clips.Err? {
      return Err(clips.error);
    }
    return Ok(Composite(clips.value));
  }

  /** Every clip of the movie script fades in and out over half a second. */
  lemma MovieClipsFade(lyrics: seq<Lyric>, videoHeight: int, fontSize: int, marginBottom: int,
                       mediaDuration: real, height: string -> int)
    requires AllTranslated(lyrics)
    ensures (PlanFades(lyrics, MovieLayout(videoHeight, fontSize, marginBottom), mediaDuration, height);
      var layers := Composite(SubtitlePlan(lyrics, MovieLayout(videoHeight, fontSize, marginBottom), mediaDuration, height).value);
      forall j :: 1 <= j < |layers| ==> layers[j].Clip? && layers[j].caption.fade == Some(FadeSeconds))
  {
    var layout := MovieLayout(videoHeight, fontSize, marginBottom);
    PlanFades(lyrics, layout, mediaDuration, height);
    var clips := SubtitlePlan(lyrics, layout, mediaDuration, height).value;
    forall j | 1 <= j < |Composite(clips)|
      ensures Composite(clips)[j].Clip? && Composite(clips)[j].caption.fade == Some(FadeSeconds)
    {
      assert Composite(clips)[1 + (j - 1)] == Clip(clips[j - 1]);
    }
  }

  /** `args.output_file`, or `Path(music_file).with_suffix(".mp4")` when none is given. */
  function MovieOutputFor(musicFile: string, outputFile: Option<string>, seps: set<char>): (r: Result<string, PathError>)
    ensures outputFile.Some? ==> r == Ok(outputFile.value)
    ensures outputFile.None? ==> r == MovieOutputPath(musicFile, seps)
  {
    if outputFile.Some? then Ok(outputFile.value) else MovieOutputPath(musicFile, seps)
  }
}
