/**
 * The stand-alone translation command: the same checks, retry loop and
 * attachment as the library's `translate_lyrics`, but a record without the
 * required keys is reported and the command stops without raising, and the
 * result is written to the given output path or, when none is given, next to
 * the input file.
 */
module TranslateCommand {
  import opened Wrappers
  import opened LyricData
  import opened Translation
  import opened OutputPaths

  /** How a run of the command ends. */
  datatype CommandOutcome =
    | Rejected                // a record lacks `text`, `start` or `end`: message, no file
    | Raised                  // the translation failed: `RuntimeError`
    | Saved(path: string)     // the translated records are written to `path`

  /** Where the result goes: the path given, else the input path with its extension replaced. */
  function OutputPathFor(inputPath: string, outputPath: Option<string>, seps: set<char>): (p: string)
    ensures outputPath.Some? ==> p == outputPath.value
    ensures outputPath.None? ==> p == SplitExt(inputPath, seps).0 + "_translated.json"
  {
    if outputPath.Some? then outputPath.value else TranslatedOutputPath(inputPath, seps)
  }

  method TranslateLyricsFile(a: array<Lyric>, inputPath: string, outputPath: Option<string>,
                             seps: set<char>, oracle: Oracle)
    returns (outcome: CommandOutcome, tried: seq<real>)
    modifies a
    ensures !WellShaped(old(a[..])) ==> outcome == Rejected && tried == []
    ensures WellShaped(old(a[..])) ==>
      && RetryTrace(LyricsBlock(old(a[..])), a.Length, oracle, ParseResponse, tried)
      && var accepted := Accepted(LyricsBlock(old(a[..])), a.Length, oracle, ParseResponse, tried);
      && (accepted == [] ==> outcome == Raised)
      && (accepted != [] ==>
            && outcome == Saved(OutputPathFor(inputPath, outputPath, seps))
            && forall i :: 0 <= i < a.Length ==> a[i] == WithTranslation(old(a[i]), accepted[i]))
    ensures !outcome.Saved? ==> a[..] == old(a[..])
  {
    var failure;
    failure, tried := TranslateLyrics(a, oracle);
    if failure == Some(MissingKeys) {
      outcome := Rejected;
    } else if failure == Some(TranslationFailed) {
      outcome := Raised;
    } else {
      outcome := Saved(OutputPathFor(inputPath, outputPath, seps));
    }
  }
}
