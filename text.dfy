/**
 * The pieces of Python's string library the pipeline relies on: `str.strip()`,
 * `str.split(sep)` (generalised to a set of separator characters; splitting at
 * every line-break character stands in for `str.splitlines()`, which it matches
 * only once blank lines are dropped) and `sep.join(parts)`.
 */
module Text {

  /** Python's `str.isspace` for one character: exactly the characters `str.strip()` removes. */
  predicate IsSpace(c: char) {
    var n := c as int;
    || (0x09 <= n <= 0x0D) || (0x1C <= n <= 0x20) || n == 0x85 || n == 0xA0 || n == 0x1680
    || (0x2000 <= n <= 0x200A) || n == 0x2028 || n == 0x2029 || n == 0x202F || n == 0x205F
    || n == 0x3000
  }

  /** The characters at which Python's `str.splitlines()` breaks a line. */
  const LineBreaks: set<char> :=
    {'\n', '\r', '\U{0B}', '\U{0C}', '\U{1C}', '\U{1D}', '\U{1E}', '\U{85}', '\U{2028}', '\U{2029}'}

  predicate AllSpace(s: string) {
    forall i :: 0 <= i < |s| ==> IsSpace(s[i])
  }

  /** A string `strip()` leaves alone: empty, or neither end is whitespace. */
  predicate IsStripped(s: string) {
    s == [] || (!IsSpace(s[0]) && !IsSpace(s[|s| - 1]))
  }

  predicate Avoids(s: string, cs: set<char>) {
    forall i :: 0 <= i < |s| ==> s[i] !in cs
  }

  /** A slice of a text free of some characters is free of them too. */
  lemma AvoidsSlice(s: string, cs: set<char>, i: int, j: int)
    requires Avoids(s, cs) && 0 <= i <= j <= |s|
    ensures Avoids(s[i..j], cs)
  {
    assert forall k :: 0 <= k < j - i ==> s[i..j][k] == s[i + k];
  }

  /** `s.lstrip()`: the suffix left after dropping the leading whitespace. */
  function TrimStart(s: string): string
    decreases |s|
  {
    if |s| > 0 && IsSpace(s[0]) then TrimStart(s[1..]) else s
  }

  /** What `lstrip()` leaves is a suffix that does not start with whitespace. */
  lemma {:induction false} TrimStartShape(s: string)
    ensures |TrimStart(s)| <= |s| && TrimStart(s) == s[|s| - |TrimStart(s)|..]
    ensures TrimStart(s) == [] || !IsSpace(TrimStart(s)[0])
    decreases |s|
  {
    if |s| > 0 && IsSpace(s[0]) {
      TrimStartShape(s[1..]);
      assert s[1..][|s| - 1 - |TrimStart(s)|..] == s[|s| - |TrimStart(s)|..];
    }
  }

  /** What `lstrip()` removes is whitespace. */
  lemma {:induction false} TrimStartRemovesSpace(s: string)
    ensures forall i :: 0 <= i < |s| - |TrimStart(s)| ==> IsSpace(s[i])
    decreases |s|
  {
    if |s| > 0 && IsSpace(s[0]) {
      TrimStartRemovesSpace(s[1..]);
      assert forall i :: 1 <= i < |s| ==> s[i] == s[1..][i - 1];
    }
  }

  /** `s.rstrip()`: the prefix left after dropping the trailing whitespace. */
  function TrimEnd(s: string): string
    decreases |s|
  {
    if |s| > 0 && IsSpace(s[|s| - 1]) then TrimEnd(s[..|s| - 1]) else s
  }

  /** What `rstrip()` leaves is a prefix that does not end with whitespace. */
  lemma {:induction false} TrimEndShape(s: string)
    ensures |TrimEnd(s)| <= |s| && TrimEnd(s) == s[..|TrimEnd(s)|]
    ensures TrimEnd(s) == [] || !IsSpace(TrimEnd(s)[|TrimEnd(s)| - 1])
    decreases |s|
  {
    if |s| > 0 && IsSpace(s[|s| - 1]) {
      TrimEndShape(s[..|s| - 1]);
      assert s[..|s| - 1][..|TrimEnd(s)|] == s[..|TrimEnd(s)|];
    }
  }

  /** What `rstrip()` removes is whitespace. */
  lemma {:induction false} TrimEndRemovesSpace(s: string)
    ensures forall i :: |TrimEnd(s)| <= i < |s| ==> IsSpace(s[i])
    decreases |s|
  {
    if |s| > 0 && IsSpace(s[|s| - 1]) {
      TrimEndRemovesSpace(s[..|s| - 1]);
    }
  }

  /** `s.strip()`. */
  function Strip(s: string): (r: string)
    ensures IsStripped(r)
    ensures IsStripped(s) ==> r == s
  {
    TrimStartShape(s);
    TrimEndShape(TrimStart(s));
    TrimEnd(TrimStart(s))
  }

  /** `strip()` leaves nothing exactly when the text is all whitespace. */
  lemma StripEmpty(s: string)
    ensures Strip(s) == [] <==> AllSpace(s)
  {
    var t := TrimStart(s);
    TrimStartShape(s);
    TrimEndShape(t);
    TrimStartRemovesSpace(s);
    TrimEndRemovesSpace(t);
    if Strip(s) != [] {
      assert !IsSpace(Strip(s)[0]) && Strip(s)[0] == s[|s| - |t|];
    }
  }

  /**
   * `s.split(sep)` for a one-character separator, generalised to any character of `seps`:
   * the maximal separator-free pieces, always at least one (Python returns `[""]` for `""`).
   */
  function SplitOn(s: string, seps: set<char>): (parts: seq<string>)
    ensures |parts| >= 1
    decreases |s|
  {
    if |s| == 0 then [""]
    else
      var rest := SplitOn(s[1..], seps);
      if s[0] in seps then [""] + rest
      else [[s[0]] + rest[0]] + rest[1..]
  }

  /** No piece of a split holds a separator. */
  lemma {:induction false} SplitOnAvoids(s: string, seps: set<char>)
    ensures forall k :: 0 <= k < |SplitOn(s, seps)| ==> Avoids(SplitOn(s, seps)[k], seps)
    decreases |s|
  {
    if |s| > 0 {
      SplitOnAvoids(s[1..], seps);
      var rest := SplitOn(s[1..], seps);
      if s[0] !in seps {
        var first := [s[0]] + rest[0];
        assert forall i :: 1 <= i < |first| ==> first[i] == rest[0][i - 1];
      }
    }
  }

  /** `sep.join(parts)`. */
  function Join(sep: string, parts: seq<string>): string
    decreases |parts|
  {
    if |parts| == 0 then ""
    else if |parts| == 1 then parts[0]
    else parts[0] + sep + Join(sep, parts[1..])
  }

  lemma {:induction false} JoinCons(sep: string, p: string, parts: seq<string>)
    requires |parts| >= 1
    ensures Join(sep, [p] + parts) == p + sep + Join(sep, parts)
  {
    assert ([p] + parts)[1..] == parts;
  }

  /** Joining the pieces of a split with the separator gives the string back. */
  lemma {:induction false} JoinSplit(s: string, c: char)
    ensures Join([c], SplitOn(s, {c})) == s
    decreases |s|
  {
    if |s| > 0 {
      var rest := SplitOn(s[1..], {c});
      JoinSplit(s[1..], c);
      if s[0] == c {
        JoinCons([c], "", rest);
        assert s == [c] + s[1..];
      } else if |rest| == 1 {
        assert s == [s[0]] + s[1..];
      } else {
        assert rest == [rest[0]] + rest[1..];
        JoinCons([c], rest[0], rest[1..]);
        JoinCons([c], [s[0]] + rest[0], rest[1..]);
        assert s == [s[0]] + s[1..];
      }
    }
  }

  /** A string with no separator in it is a single piece. */
  lemma {:induction false} SplitAvoiding(s: string, seps: set<char>)
    requires Avoids(s, seps)
    ensures SplitOn(s, seps) == [s]
    decreases |s|
  {
    if |s| > 0 {
      SplitAvoiding(s[1..], seps);
      assert s == [s[0]] + s[1..];
    }
  }

  /** Splitting distributes over a separator: the pieces of `a` followed by the pieces of `b`. */
  lemma {:induction false} SplitAt(a: string, c: char, b: string, seps: set<char>)
    requires c in seps
    ensures SplitOn(a + [c] + b, seps) == SplitOn(a, seps) + SplitOn(b, seps)
    decreases |a|
  {
    if |a| == 0 {
      var s := a + [c] + b;
      assert s[0] == c && s[1..] == b;
    } else {
      SplitAt(a[1..], c, b, seps);
      SplitAtStep(a, c, b, seps);
    }
  }

  /** The inductive step of SplitAt: one more character in front of the separator. */
  lemma SplitAtStep(a: string, c: char, b: string, seps: set<char>)
    requires |a| > 0
    requires SplitOn(a[1..] + [c] + b, seps) == SplitOn(a[1..], seps) + SplitOn(b, seps)
    ensures SplitOn(a + [c] + b, seps) == SplitOn(a, seps) + SplitOn(b, seps)
  {
    var s := a + [c] + b;
    HeadAndTail(a, c, b);
    SplitOnHead(s, seps);
    SplitOnHead(a, seps);
    var ra := SplitOn(a[1..], seps);
    var rb := SplitOn(b, seps);
    if a[0] in seps {
      Associative([""], ra, rb);
    } else {
      ConsFirst(a[0], ra, rb);
    }
  }

  /** One unfolding of SplitOn on a non-empty string. */
  lemma SplitOnHead(s: string, seps: set<char>)
    requires s != []
    ensures var rest := SplitOn(s[1..], seps);
      SplitOn(s, seps) == if s[0] in seps then [""] + rest else [[s[0]] + rest[0]] + rest[1..]
  {
  }

  lemma HeadAndTail(a: string, c: char, b: string)
    requires a != []
    ensures (a + [c] + b)[0] == a[0] && (a + [c] + b)[1..] == a[1..] + [c] + b
  {
  }

  lemma Associative<T>(x: seq<T>, y: seq<T>, z: seq<T>)
    ensures x + (y + z) == (x + y) + z
  {
  }

  /** Gluing a character to the first piece of a concatenation of splits. */
  lemma ConsFirst(x: char, ra: seq<string>, rb: seq<string>)
    requires |ra| >= 1
    ensures [[x] + (ra + rb)[0]] + (ra + rb)[1..] == ([[x] + ra[0]] + ra[1..]) + rb
  {
    assert (ra + rb)[0] == ra[0] && (ra + rb)[1..] == ra[1..] + rb;
  }

  /** Splitting a join of separator-free pieces gives the pieces back. */
  lemma {:induction false} SplitJoin(parts: seq<string>, c: char, seps: set<char>)
    requires c in seps && |parts| >= 1
    requires forall k :: 0 <= k < |parts| ==> Avoids(parts[k], seps)
    ensures SplitOn(Join([c], parts), seps) == parts
    decreases |parts|
  {
    SplitAvoiding(parts[0], seps);
    if |parts| > 1 {
      SplitJoin(parts[1..], c, seps);
      SplitAt(parts[0], c, Join([c], parts[1..]), seps);
      assert parts == [parts[0]] + parts[1..];
    }
  }

  /** `[line.strip() for line in lines]`. */
  function StripEach(lines: seq<string>): (r: seq<string>)
    ensures |r| == |lines|
  {
    seq(|lines|, i requires 0 <= i < |lines| => Strip(lines[i]))
  }

  lemma StripEachConcat(a: seq<string>, b: seq<string>)
    ensures StripEach(a + b) == StripEach(a) + StripEach(b)
  {
    assert forall i :: 0 <= i < |a| ==> (a + b)[i] == a[i];
    assert forall i :: |a| <= i < |a| + |b| ==> (a + b)[i] == b[i - |a|];
  }

  lemma StripEachStripped(lines: seq<string>)
    requires forall i :: 0 <= i < |lines| ==> IsStripped(lines[i])
    ensures StripEach(lines) == lines
  {
  }

  /** `[line for line in lines if line]`. */
  function DropEmpty(lines: seq<string>): (r: seq<string>)
    ensures |r| <= |lines|
    ensures forall i :: 0 <= i < |r| ==> r[i] != [] && r[i] in lines
    decreases |lines|
  {
    if lines == [] then []
    else (if lines[0] == [] then [] else [lines[0]]) + DropEmpty(lines[1..])
  }

  lemma {:induction false} DropEmptyConcat(a: seq<string>, b: seq<string>)
    ensures DropEmpty(a + b) == DropEmpty(a) + DropEmpty(b)
    decreases |a|
  {
    if a != [] {
      assert (a + b)[1..] == a[1..] + b;
      DropEmptyConcat(a[1..], b);
    } else {
      assert a + b == b;
    }
  }

  lemma {:induction false} DropEmptyKeepsAll(lines: seq<string>)
    requires forall i :: 0 <= i < |lines| ==> lines[i] != []
    ensures DropEmpty(lines) == lines
    decreases |lines|
  {
    if lines != [] {
      DropEmptyKeepsAll(lines[1..]);
      assert lines == [lines[0]] + lines[1..];
    }
  }

  /** A join of pieces and separators free of some characters is free of them too. */
  lemma {:induction false} JoinAvoids(sep: string, parts: seq<string>, cs: set<char>)
    requires Avoids(sep, cs)
    requires forall k :: 0 <= k < |parts| ==> Avoids(parts[k], cs)
    ensures Avoids(Join(sep, parts), cs)
    decreases |parts|
  {
    if |parts| > 1 {
      JoinAvoids(sep, parts[1..], cs);
      var rest := Join(sep, parts[1..]);
      assert Join(sep, parts) == parts[0] + sep + rest;
      forall i | 0 <= i < |Join(sep, parts)| ensures Join(sep, parts)[i] !in cs {
        if i < |parts[0]| {
          assert Join(sep, parts)[i] == parts[0][i];
        } else if i < |parts[0]| + |sep| {
          assert Join(sep, parts)[i] == sep[i - |parts[0]|];
        } else {
          assert Join(sep, parts)[i] == rest[i - |parts[0]| - |sep|];
        }
      }
    }
  }

  /** A join begins with its first piece and ends with its last. */
  lemma {:induction false} JoinEnds(sep: string, parts: seq<string>)
    requires |parts| >= 1
    ensures |Join(sep, parts)| >= |parts[0]| && |Join(sep, parts)| >= |parts[|parts| - 1]|
    ensures Join(sep, parts)[..|parts[0]|] == parts[0]
    ensures Join(sep, parts)[|Join(sep, parts)| - |parts[|parts| - 1]|..] == parts[|parts| - 1]
    decreases |parts|
  {
    if |parts| > 1 {
      JoinEnds(sep, parts[1..]);
      var rest := Join(sep, parts[1..]);
      assert Join(sep, parts) == parts[0] + (sep + rest);
      assert Join(sep, parts) == (parts[0] + sep) + rest;
    }
  }

  /** Joining with a non-blank separator keeps the ends of the first and last piece, so a join of stripped non-empty pieces is stripped. */
  lemma JoinStripped(sep: string, parts: seq<string>)
    requires |parts| >= 1
    requires forall k :: 0 <= k < |parts| ==> parts[k] != [] && IsStripped(parts[k])
    ensures IsStripped(Join(sep, parts))
  {
    JoinEnds(sep, parts);
    var j := Join(sep, parts);
    var first, last := parts[0], parts[|parts| - 1];
    assert j[0] == j[..|first|][0] == first[0];
    assert j[|j| - 1] == j[|j| - |last|..][|last| - 1] == last[|last| - 1];
  }

  /** Stripping a stripped text padded by one whitespace character on each side gives the text back. */
  lemma StripPadded(body: string, c: char)
    requires IsSpace(c) && IsStripped(body)
    ensures Strip([c] + body + [c]) == body
  {
    var s := [c] + body + [c];
    assert s[1..] == body + [c];
    if body == [] {
      assert TrimStart(s) == TrimStart(s[1..]) == TrimStart([c][1..]);
    } else {
      assert TrimStart(s) == TrimStart(body + [c]) == body + [c];
      var u := body + [c];
      assert u[..|u| - 1] == body;
      assert TrimEnd(u) == TrimEnd(body) == body;
    }
  }
}
