/**
 * The default output paths of the command-line scripts: the translation
 * script writes `os.path.splitext(input)[0] + "_translated.json"`, the movie
 * script writes `Path(music_file).with_suffix(".mp4")`. `seps` is the set of
 * path separators of the platform: `{'/'}` on POSIX, `{'\\', '/'}` on Windows.
 */
module OutputPaths {
  import opened Wrappers
  import opened Text

  /** The index of the last character of `p` that is in `cs`, or -1 when there is none (`str.rfind`). */
  function LastIndexIn(p: string, cs: set<char>): (i: int)
    ensures -1 <= i < |p|
    ensures i >= 0 ==> p[i] in cs
    ensures forall j :: i < j < |p| ==> p[j] !in cs
    decreases |p|
  {
    if |p| == 0 then -1
    else if p[|p| - 1] in cs then |p| - 1
    else LastIndexIn(p[..|p| - 1], cs)
  }

  /**
   * `os.path.splitext(p)`: the extension is the text from the last dot of the
   * last path component, provided that component has something other than
   * dots before it; otherwise the extension is empty.
   */
  function SplitExt(p: string, seps: set<char>): (r: (string, string))
    ensures r.0 + r.1 == p
    ensures r.1 != [] ==> r.1[0] == '.' && Avoids(r.1[1..], seps + {'.'})
    ensures r.1 != [] <==> exists k, d :: LastIndexIn(p, seps) < k < d < |p| && p[k] != '.' && p[d] == '.'
  {
    var sepIndex := LastIndexIn(p, seps);
    var dotIndex := LastIndexIn(p, {'.'});
    if dotIndex > sepIndex && exists k :: sepIndex + 1 <= k < dotIndex && p[k] != '.' then
      (p[..dotIndex], p[dotIndex..])
    else
      (p, [])
  }

  /** The translation script's default output path. */
  function TranslatedOutputPath(inputPath: string, seps: set<char>): string {
    SplitExt(inputPath, seps).0 + "_translated.json"
  }

  /** Characters after the last one in `cs` do not move it. */
  lemma {:induction false} LastIndexAfter(a: string, b: string, cs: set<char>)
    requires Avoids(b, cs)
    ensures LastIndexIn(a + b, cs) == LastIndexIn(a, cs)
    decreases |b|
  {
    if b == [] {
      assert a + b == a;
    } else {
      var b' := b[..|b| - 1];
      assert (a + b)[..|a + b| - 1] == a + b';
      LastIndexAfter(a, b', cs);
    }
  }

  /** The last separator of `dir + tail`, when `dir` is empty or ends in one and `tail` has none. */
  lemma LastSeparatorOfDir(dir: string, tail: string, seps: set<char>)
    requires dir == [] || dir[|dir| - 1] in seps
    requires Avoids(tail, seps)
    ensures LastIndexIn(dir + tail, seps) == |dir| - 1
  {
    LastIndexAfter(dir, tail, seps);
  }

  /**
   * A file `stem.ext` inside `dir` gets its extension replaced:
   * `dir/lyrics.json` becomes `dir/lyrics_translated.json`.
   */
  lemma TranslatedOutputPathOfFile(dir: string, stem: string, ext: string, seps: set<char>)
    requires dir == [] || dir[|dir| - 1] in seps
    requires stem != [] && stem[0] != '.' && Avoids(stem, seps)
    requires '.' !in seps && Avoids(ext, seps + {'.'})
    ensures TranslatedOutputPath(dir + stem + "." + ext, seps) == dir + stem + "_translated.json"
  {
    var tail := stem + "." + ext;
    var p := dir + tail;
    assert p == dir + stem + "." + ext;
    assert Avoids(tail, seps) by {
      forall j | 0 <= j < |tail| ensures tail[j] !in seps {
        if j < |stem| { assert tail[j] == stem[j]; }
        else if j > |stem| { assert tail[j] == ext[j - |stem| - 1]; }
      }
    }
    LastSeparatorOfDir(dir, tail, seps);
    assert p == (dir + stem + ".") + ext;
    LastIndexAfter(dir + stem + ".", ext, {'.'});
    var dotIndex := LastIndexIn(p, {'.'});
    assert dotIndex == |dir| + |stem|;
    assert p[|dir|] == stem[0];
    assert p[..dotIndex] == dir + stem;
  }

  /** What `with_suffix` raises: the path has no last component to put a suffix on. */
  datatype PathError = EmptyName

  /** The path without trailing separators, as `pathlib` normalises it. */
  function DropTrailingSeparators(p: string, seps: set<char>): (r: string)
    ensures |r| <= |p| && r == p[..|r|]
    ensures r == [] || r[|r| - 1] !in seps
    ensures forall j :: |r| <= j < |p| ==> p[j] in seps
    decreases |p|
  {
    if |p| > 0 && p[|p| - 1] in seps then DropTrailingSeparators(p[..|p| - 1], seps) else p
  }

  /**
   * `Path(p).with_suffix(suffix)`: the last component's suffix (from its last
   * dot, when that dot is neither its first nor its last character) is
   * replaced by `suffix`, or `suffix` is appended when it has none.
   */
  function WithSuffix(p: string, seps: set<char>, suffix: string): (r: Result<string, PathError>)
    ensures r.Err? <==> LastIndexIn(DropTrailingSeparators(p, seps), seps) + 1 == |DropTrailingSeparators(p, seps)|
    ensures r.Ok? ==> |r.value| >= |suffix| && r.value[|r.value| - |suffix|..] == suffix
    // A composition, not a specification of its own: the contracts of
    // DropTrailingSeparators, LastIndexIn and Stem determine each of its parts.
    ensures r.Ok? ==>
      var q := DropTrailingSeparators(p, seps);
      var cut := LastIndexIn(q, seps) + 1;
      r.value == q[..cut] + Stem(q[cut..]) + suffix
  {
    var q := DropTrailingSeparators(p, seps);
    var cut := LastIndexIn(q, seps) + 1;
    var dir, name := q[..cut], q[cut..];
    if name == [] then Err(EmptyName) else Ok(dir + Stem(name) + suffix)
  }

  /** `PurePath.stem`: the name without its suffix, a suffix starting at the last dot that is neither first nor last. */
  function Stem(name: string): (stem: string)
    ensures stem == name || (0 < |stem| < |name| - 1 && name[..|stem|] == stem && name[|stem|] == '.' && Avoids(name[|stem| + 1..], {'.'}))
    ensures stem != name <==> 0 < LastIndexIn(name, {'.'}) < |name| - 1
  {
    var dot := LastIndexIn(name, {'.'});
    if 0 < dot < |name| - 1 then name[..dot] else name
  }

  /** The movie script's default output path. */
  function MovieOutputPath(musicFile: string, seps: set<char>): Result<string, PathError> {
    WithSuffix(musicFile, seps, ".mp4")
  }

  /** `dir/song.mp3` becomes `dir/song.mp4`; the stem may itself hold dots. */
  lemma MovieOutputPathOfFile(dir: string, stem: string, ext: string, seps: set<char>)
    requires dir == [] || dir[|dir| - 1] in seps
    requires stem != [] && Avoids(stem, seps)
    requires ext != [] && '.' !in seps && Avoids(ext, seps + {'.'})
    ensures MovieOutputPath(dir + stem + "." + ext, seps) == Ok(dir + stem + ".mp4")
  {
    var tail := stem + "." + ext;
    var p := dir + tail;
    assert p == dir + stem + "." + ext;
    assert Avoids(tail, seps) by {
      forall j | 0 <= j < |tail| ensures tail[j] !in seps {
        if j < |stem| { assert tail[j] == stem[j]; }
        else if j > |stem| { assert tail[j] == ext[j - |stem| - 1]; }
      }
    }
    assert DropTrailingSeparators(p, seps) == p by {
      assert p[|p| - 1] == tail[|tail| - 1];
    }
    LastSeparatorOfDir(dir, tail, seps);
    assert p[..|dir|] == dir && p[|dir|..] == tail;
    StemOfFile(stem, ext);
  }

  lemma StemOfFile(stem: string, ext: string)
    requires stem != [] && ext != [] && Avoids(ext, {'.'})
    ensures Stem(stem + "." + ext) == stem
  {
    var name := stem + "." + ext;
    assert name == (stem + ".") + ext;
    LastIndexAfter(stem + ".", ext, {'.'});
    assert LastIndexIn(name, {'.'}) == |stem|;
    assert name[..|stem|] == stem;
  }

  /** A last component with no dot after its first non-dot character has no extension. */
  predicate WithoutExtension(name: string) {
    forall k, d :: 0 <= k < d < |name| && name[k] != '.' ==> name[d] != '.'
  }

  /**
   * A file without an extension gets `_translated.json` appended:
   * `dir/lyrics` becomes `dir/lyrics_translated.json`, and a leading dot is
   * not an extension, so `dir/.bashrc` becomes `dir/.bashrc_translated.json`.
   */
  lemma TranslatedOutputPathWithoutExtension(dir: string, name: string, seps: set<char>)
    requires dir == [] || dir[|dir| - 1] in seps
    requires Avoids(name, seps) && WithoutExtension(name)
    ensures TranslatedOutputPath(dir + name, seps) == dir + name + "_translated.json"
  {
    var p := dir + name;
    LastSeparatorOfDir(dir, name, seps);
  }

  /**
   * A file whose name has no dot other than a first or a last character gets
   * `.mp4` appended: `dir/song` becomes `dir/song.mp4`, `dir/.bashrc` becomes
   * `dir/.bashrc.mp4`.
   */
  lemma MovieOutputPathWithoutSuffix(dir: string, name: string, seps: set<char>)
    requires dir == [] || dir[|dir| - 1] in seps
    requires name != [] && Avoids(name, seps)
    requires forall d :: 0 < d < |name| - 1 ==> name[d] != '.'
    ensures MovieOutputPath(dir + name, seps) == Ok(dir + name + ".mp4")
  {
    var p := dir + name;
    LastOfConcat(dir, name);
    KeepsUnseparatedEnd(p, seps);
    LastSeparatorOfDir(dir, name, seps);
    assert p[..|dir|] == dir && p[|dir|..] == name;
    StemWithoutInnerDot(name);
  }

  lemma LastOfConcat(a: string, b: string)
    requires b != []
    ensures (a + b)[|a + b| - 1] == b[|b| - 1]
  {
  }

  /** A path not ending in a separator is already normalised. */
  lemma KeepsUnseparatedEnd(p: string, seps: set<char>)
    requires p == [] || p[|p| - 1] !in seps
    ensures DropTrailingSeparators(p, seps) == p
  {
  }

  /** A name with no dot except at its ends is its own stem. */
  lemma StemWithoutInnerDot(name: string)
    requires forall d :: 0 < d < |name| - 1 ==> name[d] != '.'
    ensures Stem(name) == name
  {
  }
}
