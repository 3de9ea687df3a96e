/**
 * The lyric record that flows through the pipeline (a JSON object with the keys
 * `text`, `language`, `start`, `end` and `translations`) and
 * `convert_lyrics_to_json`, which turns raw lyrics into the first records.
 */
module LyricData {
  import opened Wrappers
  import opened Text

  /**
   * The value under `start` or `end`: the key missing, JSON `null`, a number of
   * seconds, or some other JSON value (a string, a list, ...).
   */
  datatype Stamp = Absent | Null | Seconds(t: real) | NotNumeric

  /** One lyric record; keys other than these five are never read or written. */
  datatype Lyric = Lyric(
    text: Option<string>,
    start: Stamp,
    end: Stamp,
    translations: Option<map<string, string>>,
    language: Option<string>)

  const Japanese: string := "japanese"

  /**
   * The text split at every line-break character, each piece stripped, blank
   * pieces dropped: the lines `lyrics.splitlines()` yields, stripped, blank ones
   * dropped, since the pieces this splitting adds to `splitlines()` (a last empty
   * piece, an empty one inside `\r\n`) are all blank.
   */
  function NonBlankLines(lyrics: string): (lines: seq<string>)
    ensures forall i :: 0 <= i < |lines| ==>
      lines[i] != [] && IsStripped(lines[i]) && Avoids(lines[i], LineBreaks)
  {
    var pieces := SplitOn(lyrics, LineBreaks);
    SplitOnAvoids(lyrics, LineBreaks);
    var stripped := StripEach(pieces);
    var lines := DropEmpty(stripped);
    forall i | 0 <= i < |lines|
      ensures IsStripped(lines[i]) && Avoids(lines[i], LineBreaks)
    {
      var k :| 0 <= k < |stripped| && stripped[k] == lines[i];
      StripKeepsAvoiding(pieces[k], LineBreaks);
    }
    lines
  }

  lemma StripKeepsAvoiding(s: string, cs: set<char>)
    requires Avoids(s, cs)
    ensures Avoids(Strip(s), cs)
  {
    var t := TrimStart(s);
    TrimStartShape(s);
    TrimEndShape(t);
    AvoidsSlice(s, cs, |s| - |t|, |s|);
    AvoidsSlice(t, cs, 0, |TrimEnd(t)|);
  }

  function LineRecord(line: string): Lyric {
    Lyric(Some(line), Absent, Absent, None, Some(Japanese))
  }

  /** `convert_lyrics_to_json`: one record per non-blank line, in order. */
  function ConvertLyricsToJson(lyrics: string): (records: seq<Lyric>)
    ensures |records| == |NonBlankLines(lyrics)|
    ensures forall i :: 0 <= i < |records| ==>
      && records[i].text == Some(NonBlankLines(lyrics)[i])
      && records[i].language == Some(Japanese)
  {
    var lines := NonBlankLines(lyrics);
    seq(|lines|, i requires 0 <= i < |lines| => LineRecord(lines[i]))
  }

  /** Every record carries a trimmed, non-empty line, tagged Japanese, with no times yet. */
  lemma RecordsAreTrimmedLines(lyrics: string, i: int)
    requires 0 <= i < |ConvertLyricsToJson(lyrics)|
    ensures var r := ConvertLyricsToJson(lyrics)[i];
      && r.text.Some? && r.text.value != [] && IsStripped(r.text.value)
      && r.language == Some(Japanese) && r.start == Absent && r.end == Absent
      && r.translations == None
  {
  }

  /** The records of two blocks of lyrics separated by a line break are those of each block. */
  lemma {:induction false} NonBlankLinesAt(a: string, c: char, b: string)
    requires c in LineBreaks
    ensures NonBlankLines(a + [c] + b) == NonBlankLines(a) + NonBlankLines(b)
  {
    var pa, pb := SplitOn(a, LineBreaks), SplitOn(b, LineBreaks);
    SplitAt(a, c, b, LineBreaks);
    StripEachConcat(pa, pb);
    DropEmptyConcat(StripEach(pa), StripEach(pb));
  }

  /** A single line yields its stripped text, or nothing when it is blank. */
  lemma {:induction false} NonBlankLinesOfLine(line: string)
    requires Avoids(line, LineBreaks)
    ensures NonBlankLines(line) == if Strip(line) == [] then [] else [Strip(line)]
  {
    SplitAvoiding(line, LineBreaks);
    var r := Strip(line);
    assert StripEach([line]) == [r];
    assert DropEmpty([r]) == (if r == [] then [] else [r]) + DropEmpty([]);
  }

  /**
   * Lyrics written one trimmed line per row come back line for line: each
   * non-blank line becomes exactly one record, in order.
   */
  lemma {:induction false} NonBlankLinesOfJoin(lines: seq<string>)
    requires |lines| >= 1
    requires forall i :: 0 <= i < |lines| ==>
      lines[i] != [] && IsStripped(lines[i]) && Avoids(lines[i], LineBreaks)
    ensures NonBlankLines(Join("\n", lines)) == lines
  {
    SplitJoin(lines, '\n', LineBreaks);
    var stripped := StripEach(lines);
    assert stripped == lines;
    DropEmptyKeepsAll(lines);
  }
}
