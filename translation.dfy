/**
 * `translate_lyrics`: the lyric lines are sent to a chat model as one block,
 * the answer is parsed into one translation per line, the request is retried at
 * rising temperatures until the number of lines matches, and the accepted
 * translations are stored under `translations["en"]` of each record, in place.
 */
module Translation {
  import opened Wrappers
  import opened Text
  import opened LyricData

  // ---------------------------------------------------------------------------
  // Parsing the model's answer

  const Fence: string := "```"

  /** `s.replace("```", "")`: every fence, found left to right without overlaps, is deleted. */
  function RemoveFences(s: string): (r: string)
    ensures |r| <= |s|
    decreases |s|
  {
    if |s| < 3 then s
    else if s[0] == '`' && s[1] == '`' && s[2] == '`' then RemoveFences(s[3..])
    else [s[0]] + RemoveFences(s[1..])
  }

  /** Text without a backtick passes through untouched, whatever follows it. */
  lemma {:induction false} RemoveFencesAfterPlain(a: string, b: string)
    requires Avoids(a, {'`'})
    ensures RemoveFences(a + b) == a + RemoveFences(b)
    decreases |a|
  {
    if a != [] {
      RemoveFencesAfterPlain(a[1..], b);
      RemoveFencesPlainStep(a, b);
    } else {
      assert a + b == b;
    }
  }

  /** The inductive step of RemoveFencesAfterPlain: one more plain character in front. */
  lemma RemoveFencesPlainStep(a: string, b: string)
    requires a != [] && a[0] != '`'
    requires RemoveFences(a[1..] + b) == a[1..] + RemoveFences(b)
    ensures RemoveFences(a + b) == a + RemoveFences(b)
  {
    var s := a + b;
    assert s[0] == a[0] && s[1..] == a[1..] + b;
    RemoveFencesPlainHead(s);
    ConsRest(a, RemoveFences(b));
  }

  lemma ConsRest(a: string, u: string)
    requires a != []
    ensures [a[0]] + (a[1..] + u) == a + u
  {
    assert a == [a[0]] + a[1..];
  }

  /** A leading character other than a backtick is kept and the rest is scanned on. */
  lemma RemoveFencesPlainHead(s: string)
    requires s != [] && s[0] != '`'
    ensures RemoveFences(s) == [s[0]] + RemoveFences(s[1..])
  {
    if |s| < 3 {
      assert s == [s[0]] + s[1..];
    }
  }

  lemma {:induction false} RemoveFencesAfterFence(b: string)
    ensures RemoveFences(Fence + b) == RemoveFences(b)
  {
    var s := Fence + b;
    assert s[0] == s[1] == s[2] == '`' && s[3..] == b;
  }

  /** A run of `k` backticks. */
  function Ticks(k: nat): (t: string)
    ensures |t| == k && forall i :: 0 <= i < k ==> t[i] == '`'
  {
    seq(k, _ => '`')
  }

  /** A leading backtick that does not open a fence is kept and the rest is scanned on. */
  lemma RemoveFencesTickHead(s: string)
    requires s != [] && s[0] == '`'
    requires |s| < 3 || s[1] != '`' || s[2] != '`'
    ensures RemoveFences(s) == [s[0]] + RemoveFences(s[1..])
  {
    if |s| < 3 {
      assert s == [s[0]] + s[1..];
    }
  }

  /** One or two backticks before another character are kept, as inline code in an answer. */
  lemma RemoveFencesShortRun(k: nat, c: char, b: string)
    requires 1 <= k <= 2 && c != '`'
    ensures RemoveFences(Ticks(k) + [c] + b) == Ticks(k) + [c] + RemoveFences(b)
  {
    var s := Ticks(k) + [c] + b;
    var rest := [c] + b;
    assert rest[0] == c && rest[1..] == b;
    RemoveFencesPlainHead(rest);
    if k == 1 {
      assert s[0] == '`' && s[1..] == rest;
      RemoveFencesTickHead(s);
      assert Ticks(1) == [s[0]];
    } else {
      var s' := Ticks(1) + [c] + b;
      assert s'[0] == '`' && s'[1..] == rest;
      RemoveFencesTickHead(s');
      assert s[0] == '`' && s[1..] == s';
      RemoveFencesTickHead(s);
      assert Ticks(2) == [s[0]] + Ticks(1);
    }
  }

  /** One or two backticks ending the text are kept. */
  lemma RemoveFencesShortTail(a: string, k: nat)
    requires Avoids(a, {'`'}) && k <= 2
    ensures RemoveFences(a + Ticks(k)) == a + Ticks(k)
  {
    RemoveFencesAfterPlain(a, Ticks(k));
  }

  /** `",".join(line.split(",")[1:]).strip()`: everything after the first comma, stripped. */
  function TranslationPart(line: string): (t: string)
    ensures IsStripped(t)
  {
    Strip(Join(",", SplitOn(line, {','})[1..]))
  }

  /** A line `original,translation` whose original has no comma yields the stripped translation. */
  lemma {:induction false} TranslationPartOfRow(original: string, translation: string)
    requires Avoids(original, {','})
    ensures TranslationPart(original + "," + translation) == Strip(translation)
  {
    SplitAt(original, ',', translation, {','});
    SplitAvoiding(original, {','});
    assert original + "," + translation == original + [','] + translation;
    var pieces := SplitOn(original + "," + translation, {','});
    assert pieces[1..] == SplitOn(translation, {','});
    JoinSplit(translation, ',');
  }

  /** A line without a comma has an empty translation part (and still counts as a line). */
  lemma {:induction false} TranslationPartWithoutComma(line: string)
    requires Avoids(line, {','})
    ensures TranslationPart(line) == ""
  {
    SplitAvoiding(line, {','});
    assert SplitOn(line, {','})[1..] == [];
  }

  /** The non-blank lines of a response once its fences are gone, each stripped. */
  function ResponseLines(response: string): (lines: seq<string>)
    ensures forall i :: 0 <= i < |lines| ==> lines[i] != []
  {
    DropEmpty(StripEach(SplitOn(Strip(RemoveFences(response)), {'\n'})))
  }

  /** The candidate translations in a response: one per non-blank line, in order. */
  function ParseResponse(response: string): (translations: seq<string>)
    ensures |translations| == |ResponseLines(response)|
    ensures forall i :: 0 <= i < |translations| ==> IsStripped(translations[i])
  {
    var lines := ResponseLines(response);
    seq(|lines|, i requires 0 <= i < |lines| => TranslationPart(lines[i]))
  }

  /** The rows `original,translation` of the answer format the prompt asks for. */
  function Rows(originals: seq<string>, translations: seq<string>): (rows: seq<string>)
    requires |originals| == |translations|
    ensures |rows| == |originals|
  {
    seq(|originals|, i requires 0 <= i < |originals| => originals[i] + "," + translations[i])
  }

  /** An answer in exactly the format the prompt asks for, fenced by ``` lines. */
  function FencedResponse(originals: seq<string>, translations: seq<string>): string
    requires |originals| == |translations|
  {
    Fence + "\n" + Join("\n", Rows(originals, translations)) + "\n" + Fence
  }

  /** The characters the prompt's format reserves: a row may not hold them inside one field. */
  predicate IsCleanOriginal(s: string) {
    s != [] && IsStripped(s) && Avoids(s, {',', '\n', '`'})
  }

  predicate IsCleanTranslation(s: string) {
    IsStripped(s) && Avoids(s, {'\n', '`'})
  }

  /** A row of two clean fields is non-blank, stripped and free of line breaks and backticks. */
  lemma RowIsClean(o: string, t: string)
    requires IsCleanOriginal(o) && IsCleanTranslation(t)
    ensures var row := o + "," + t;
      row != [] && IsStripped(row) && Avoids(row, {'\n', '`'})
  {
    var row := o + "," + t;
    assert row[0] == o[0];
    if t != [] {
      assert row[|row| - 1] == t[|t| - 1];
    }
    forall i | 0 <= i < |row| ensures row[i] !in {'\n', '`'} {
      if i < |o| {
        assert row[i] == o[i];
      } else if i > |o| {
        assert row[i] == t[i - |o| - 1];
      }
    }
  }

  /** Removing the fences of a fenced block leaves the block between its two line breaks. */
  lemma RemoveFencesOfFenced(body: string)
    requires Avoids(body, {'`'})
    ensures RemoveFences(Fence + "\n" + body + "\n" + Fence) == "\n" + body + "\n"
  {
    var inner := "\n" + body + "\n";
    assert Avoids(inner, {'`'}) by {
      forall i | 0 <= i < |inner| ensures inner[i] != '`' {
        if 0 < i < |inner| - 1 { assert inner[i] == body[i - 1]; }
      }
    }
    assert Fence + "\n" + body + "\n" + Fence == Fence + (inner + Fence);
    RemoveFencesAfterFence(inner + Fence);
    RemoveFencesAfterPlain(inner, Fence);
    RemoveFencesAfterFence("");
    assert Fence + "" == Fence;
  }

  /** Stripping the unfenced block leaves the rows' join. */
  lemma StripUnfenced(rows: seq<string>)
    requires forall i :: 0 <= i < |rows| ==> rows[i] != [] && IsStripped(rows[i])
    ensures Strip("\n" + Join("\n", rows) + "\n") == Join("\n", rows)
  {
    var body := Join("\n", rows);
    if rows != [] {
      JoinStripped("\n", rows);
    }
    StripPadded(body, '\n');
    assert "\n" + body + "\n" == ['\n'] + body + ['\n'];
  }

  /** The non-blank stripped lines of a join of clean rows are the rows. */
  lemma LinesOfJoin(rows: seq<string>)
    requires forall i :: 0 <= i < |rows| ==> rows[i] != [] && IsStripped(rows[i]) && Avoids(rows[i], {'\n'})
    ensures DropEmpty(StripEach(SplitOn(Join("\n", rows), {'\n'}))) == rows
  {
    if rows == [] {
      NoLinesOfEmpty();
    } else {
      SplitJoin(rows, '\n', {'\n'});
      StripEachStripped(rows);
      DropEmptyKeepsAll(rows);
    }
  }

  /** An empty text has no non-blank lines. */
  lemma NoLinesOfEmpty()
    ensures DropEmpty(StripEach(SplitOn("", {'\n'}))) == []
  {
    assert StripEach([""]) == [""];
  }

  /** The lines of a fenced answer are its rows. */
  lemma ResponseLinesOfFenced(rows: seq<string>)
    requires forall i :: 0 <= i < |rows| ==> rows[i] != [] && IsStripped(rows[i]) && Avoids(rows[i], {'\n', '`'})
    ensures ResponseLines(Fence + "\n" + Join("\n", rows) + "\n" + Fence) == rows
  {
    var body := Join("\n", rows);
    UnfencedBody(rows);
    ResponseLinesOfBody(Fence + "\n" + body + "\n" + Fence, body);
    LinesOfJoin(rows);
  }

  lemma UnfencedBody(rows: seq<string>)
    requires forall i :: 0 <= i < |rows| ==> rows[i] != [] && IsStripped(rows[i]) && Avoids(rows[i], {'\n', '`'})
    ensures Strip(RemoveFences(Fence + "\n" + Join("\n", rows) + "\n" + Fence)) == Join("\n", rows)
  {
    JoinAvoids("\n", rows, {'`'});
    RemoveFencesOfFenced(Join("\n", rows));
    StripUnfenced(rows);
  }

  lemma ResponseLinesOfBody(response: string, body: string)
    requires Strip(RemoveFences(response)) == body
    ensures ResponseLines(response) == DropEmpty(StripEach(SplitOn(body, {'\n'})))
  {
  }

  /**
   * Round trip: an answer in the requested format parses back to exactly the
   * translations it carries, one per original line, as long as no original line
   * holds a comma and no field holds a line break or backtick.
   */
  lemma ParseFencedResponse(originals: seq<string>, translations: seq<string>)
    requires |originals| == |translations|
    requires forall i :: 0 <= i < |originals| ==> IsCleanOriginal(originals[i])
    requires forall i :: 0 <= i < |translations| ==> IsCleanTranslation(translations[i])
    ensures ParseResponse(FencedResponse(originals, translations)) == translations
  {
    var rows := Rows(originals, translations);
    forall i | 0 <= i < |rows|
      ensures rows[i] != [] && IsStripped(rows[i]) && Avoids(rows[i], {'\n', '`'})
    {
      RowIsClean(originals[i], translations[i]);
    }
    ResponseLinesOfFenced(rows);
    forall i | 0 <= i < |rows| ensures TranslationPart(rows[i]) == translations[i] {
      TranslationPartOfRow(originals[i], translations[i]);
    }
  }

  // ---------------------------------------------------------------------------
  // Retrying at rising temperatures

  /**
   * The chat model seen from here: the answer it gives for a lyrics block at a
   * temperature (the prompt around the block is fixed, the seed is fixed).
   */
  type Oracle = (string, real) -> string

  /** Temperatures 0.0, 0.2, ..., 1.0: six attempts at most. */
  const Attempts: nat := 6

  /** The temperature of attempt `step` (`0.0 + 0.2 + ...`, without float rounding). */
  function Temperature(step: nat): (t: real)
    ensures step < Attempts ==> 0.0 <= t <= 1.0
  {
    step as real * 0.2
  }

  /**
   * How an answer is read into candidate lines; `translate_lyrics` uses
   * `ParseResponse`. The retry loop below is stated for any such reader, which
   * keeps its proof apart from the details of parsing.
   */
  type Reader = string -> seq<string>

  function Candidates(block: string, oracle: Oracle, read: Reader, step: nat): seq<string> {
    read(oracle(block, Temperature(step)))
  }

  /** An attempt succeeds when it yields exactly as many lines as there are lyric records. */
  predicate Fits(block: string, expected: nat, oracle: Oracle, read: Reader, step: nat) {
    |Candidates(block, oracle, read, step)| == expected
  }

  /**
   * The temperatures the retry loop `tried`, in order: 0.0, 0.2, ... up to the
   * first answer with `expected` lines, or all six when no answer has them.
   */
  predicate RetryTrace(block: string, expected: nat, oracle: Oracle, read: Reader, tried: seq<real>) {
    && 1 <= |tried| <= Attempts
    && (forall j :: 0 <= j < |tried| ==> tried[j] == Temperature(j))
    && (forall j :: 0 <= j < |tried| - 1 ==> !Fits(block, expected, oracle, read, j))
    && (!Fits(block, expected, oracle, read, |tried| - 1) ==> |tried| == Attempts)
  }

  /** The lines the loop returns after that trace: the last answer when it fits, else none. */
  function Accepted(block: string, expected: nat, oracle: Oracle, read: Reader, tried: seq<real>): seq<string>
    requires |tried| >= 1
  {
    if Fits(block, expected, oracle, read, |tried| - 1) then Candidates(block, oracle, read, |tried| - 1) else []
  }

  /** The retry loop of `translate_lyrics`. */
  method RequestTranslation(block: string, expected: nat, oracle: Oracle, read: Reader)
    returns (translated: seq<string>, tried: seq<real>)
    ensures RetryTrace(block, expected, oracle, read, tried) && translated == Accepted(block, expected, oracle, read, tried)
  {
    var step: nat := 0;
    translated := [];
    tried := [];
    while step < Attempts
      invariant step <= Attempts
      invariant |tried| == step
      invariant forall j :: 0 <= j < step ==> tried[j] == Temperature(j)
      invariant forall j :: 0 <= j < step ==> !Fits(block, expected, oracle, read, j)
    {
      var temperature := Temperature(step);
      tried := tried + [temperature];
      var potential := read(oracle(block, temperature));
      if |potential| == expected {
        translated := potential;
        break;
      }
      step := step + 1;
    }
  }

  /** The outcome is determined by the answers: two runs against the same model agree. */
  lemma RetryTraceUnique(block: string, expected: nat, oracle: Oracle, read: Reader, tried1: seq<real>, tried2: seq<real>)
    requires RetryTrace(block, expected, oracle, read, tried1)
    requires RetryTrace(block, expected, oracle, read, tried2)
    ensures tried1 == tried2
  {
  }

  /**
   * Whatever is returned is either nothing or exactly one line per record, and
   * the temperatures tried rise strictly within [0.0, 1.0], none tried twice.
   */
  lemma RetryOutcomeLength(block: string, expected: nat, oracle: Oracle, read: Reader, translated: seq<string>, tried: seq<real>)
    requires RetryTrace(block, expected, oracle, read, tried) && translated == Accepted(block, expected, oracle, read, tried)
    ensures translated == [] || |translated| == expected
    ensures forall j :: 0 <= j < |tried| ==> 0.0 <= tried[j] <= 1.0
    ensures forall j, k :: 0 <= j < k < |tried| ==> tried[j] < tried[k]
  {
  }

  /** An answer that fits at temperature 0.0 ends the loop after one request. */
  lemma FirstAnswerFits(block: string, expected: nat, oracle: Oracle, read: Reader, translated: seq<string>, tried: seq<real>)
    requires RetryTrace(block, expected, oracle, read, tried) && translated == Accepted(block, expected, oracle, read, tried)
    requires Fits(block, expected, oracle, read, 0)
    ensures tried == [0.0]
    ensures translated == Candidates(block, oracle, read, 0)
  {
  }

  /** When no answer fits, all six temperatures are tried and nothing is returned. */
  lemma NoAnswerFits(block: string, expected: nat, oracle: Oracle, read: Reader, translated: seq<string>, tried: seq<real>)
    requires RetryTrace(block, expected, oracle, read, tried) && translated == Accepted(block, expected, oracle, read, tried)
    requires forall j :: 0 <= j < Attempts ==> !Fits(block, expected, oracle, read, j)
    ensures tried == [0.0, 0.2, 0.4, 0.6, 0.8, 1.0]
    ensures translated == []
  {
  }

  // ---------------------------------------------------------------------------
  // Attaching the translations

  const English: string := "en"

  /** The key check made before translating: `text`, `start` and `end` are all present. */
  predicate HasRequiredKeys(item: Lyric) {
    item.text.Some? && item.start != Absent && item.end != Absent
  }

  predicate WellShaped(records: seq<Lyric>) {
    forall i :: 0 <= i < |records| ==> HasRequiredKeys(records[i])
  }

  /** The `text` of every record, in order. */
  function Texts(records: seq<Lyric>): (texts: seq<string>)
    requires WellShaped(records)
    ensures |texts| == |records|
    ensures forall i :: 0 <= i < |records| ==> Some(texts[i]) == records[i].text
  {
    seq(|records|, i requires 0 <= i < |records| && WellShaped(records) => records[i].text.value)
  }

  /** The block sent to the model: the texts joined by newlines. */
  function LyricsBlock(records: seq<Lyric>): string
    requires WellShaped(records)
  {
    Join("\n", Texts(records))
  }

  /**
   * `item["translations"]["en"] = t`, creating the `translations` object when
   * the key is missing: the English entry is set, other languages are kept and
   * nothing else in the record changes.
   */
  function WithTranslation(item: Lyric, t: string): (r: Lyric)
    ensures r.translations.Some? && English in r.translations.value && r.translations.value[English] == t
    ensures item.translations.Some? ==>
      forall lang :: lang in item.translations.value && lang != English ==>
        lang in r.translations.value && r.translations.value[lang] == item.translations.value[lang]
    ensures item.translations.None? ==> r.translations.value.Keys == {English}
    ensures item.translations.Some? ==> r.translations.value.Keys == item.translations.value.Keys + {English}
    ensures r.(translations := item.translations) == item
  {
    var existing := if item.translations.Some? then item.translations.value else map[];
    item.(translations := Some(existing[English := t]))
  }

  /** Translations never touch what the subtitle plan reads besides them: text and times. */
  lemma WithTranslationKeepsTiming(item: Lyric, t: string)
    ensures WithTranslation(item, t).text == item.text
    ensures WithTranslation(item, t).start == item.start && WithTranslation(item, t).end == item.end
    ensures HasRequiredKeys(WithTranslation(item, t)) == HasRequiredKeys(item)
  {
    var r := WithTranslation(item, t);
    assert r.(translations := item.translations) == item;
  }

  /** The attaching loop: record `i` gets translation `i`, in place. */
  method AttachTranslations(a: array<Lyric>, translated: seq<string>)
    requires |translated| >= a.Length
    modifies a
    ensures forall i :: 0 <= i < a.Length ==> a[i] == WithTranslation(old(a[i]), translated[i])
  {
    for i := 0 to a.Length
      invariant forall j :: 0 <= j < i ==> a[j] == WithTranslation(old(a[j]), translated[j])
      invariant forall j :: i <= j < a.Length ==> a[j] == old(a[j])
    {
      a[i] := WithTranslation(a[i], translated[i]);
    }
  }

  /** Why `translate_lyrics` raises. */
  datatype TranslationError =
    | MissingKeys        // some record lacks `text`, `start` or `end`
    | TranslationFailed  // no attempt gave a non-empty list with one line per record

  /**
   * The library's `translate_lyrics`. The records are changed in place (the
   * list is copied shallowly, so the caller's records receive the
   * translations); on an error nothing changes.
   */
  method TranslateLyrics(a: array<Lyric>, oracle: Oracle) returns (failure: Option<TranslationError>, tried: seq<real>)
    modifies a
    ensures !WellShaped(old(a[..])) ==> failure == Some(MissingKeys) && tried == []
    ensures WellShaped(old(a[..])) ==>
      && RetryTrace(LyricsBlock(old(a[..])), a.Length, oracle, ParseResponse, tried)
      && var accepted := Accepted(LyricsBlock(old(a[..])), a.Length, oracle, ParseResponse, tried);
      && (failure == None <==> accepted != [])
      && (failure != None ==> failure == Some(TranslationFailed))
      && (failure == None ==> forall i :: 0 <= i < a.Length ==> a[i] == WithTranslation(old(a[i]), accepted[i]))
    ensures failure != None ==> a[..] == old(a[..])
    ensures a.Length == 0 ==> failure != None
  {
    if !WellShaped(a[..]) {
      return Some(MissingKeys), [];
    }
    var block := LyricsBlock(a[..]);
    var translated;
    translated, tried := RequestTranslation(block, a.Length, oracle, ParseResponse);
    if translated == [] {
      return Some(TranslationFailed), tried;
    }
    AttachTranslations(a, translated);
    failure := None;
  }

  /**
   * A successful run: when the model answers in the requested format at
   * temperature 0.0, one request is made and every record gets its own line's
   * translation.
   */
  lemma TranslatedInOneRequest(records: seq<Lyric>, translations: seq<string>, oracle: Oracle, tried: seq<real>)
    requires WellShaped(records) && |translations| == |records|
    requires forall i :: 0 <= i < |records| ==> IsCleanOriginal(records[i].text.value)
    requires forall i :: 0 <= i < |translations| ==> IsCleanTranslation(translations[i])
    requires oracle(LyricsBlock(records), 0.0) == FencedResponse(Texts(records), translations)
    requires RetryTrace(LyricsBlock(records), |records|, oracle, ParseResponse, tried)
    ensures tried == [0.0]
    ensures Accepted(LyricsBlock(records), |records|, oracle, ParseResponse, tried) == translations
  {
    var block := LyricsBlock(records);
    var texts := Texts(records);
    forall i | 0 <= i < |texts| ensures IsCleanOriginal(texts[i]) {
      assert Some(texts[i]) == records[i].text;
    }
    ParseFencedResponse(texts, translations);
    assert Temperature(0) == 0.0;
    assert Candidates(block, oracle, ParseResponse, 0) == translations;
    FirstAnswerFits(block, |records|, oracle, ParseResponse, Accepted(block, |records|, oracle, ParseResponse, tried), tried);
  }
}
