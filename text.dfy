/** The string operations of Rust's `str` that the front-matter code uses:
    substring search, `lines()`, `split(", ")` and joining. */
module Text {
  import opened Wrappers

  /** `pat` occurs in `s` starting at index `i`. */
  predicate OccursAt(s: string, pat: string, i: nat) {
    i + |pat| <= |s| && s[i..i + |pat|] == pat
  }

  predicate Contains(s: string, pat: string) {
    exists i: nat :: i <= |s| && OccursAt(s, pat, i)
  }

  /** The leftmost occurrence of `pat` in `s` at or after index `from`. */
  function FindFrom(s: string, pat: string, from: nat): (r: Option<nat>)
    decreases |s| - from
    ensures r.Some? ==> from <= r.value && OccursAt(s, pat, r.value)
    ensures forall j: nat :: from <= j && OccursAt(s, pat, j) ==> r.Some? && r.value <= j
  {
    if from + |pat| > |s| then None
    else if OccursAt(s, pat, from) then Some(from)
    else FindFrom(s, pat, from + 1)
  }

  /** The length of the longest run of characters other than a line feed
      starting at `i`: what the regex `.` (which excludes `\n`) can consume. */
  function LineRun(s: string, i: nat): (n: nat)
    requires i <= |s|
    decreases |s| - i
    ensures i + n <= |s|
    ensures forall k :: i <= k < i + n ==> s[k] != '\n'
    ensures i + n == |s| || s[i + n] == '\n'
  {
    if i == |s| || s[i] == '\n' then 0 else 1 + LineRun(s, i + 1)
  }

  /** Any stretch of `s` from `i` that holds no line feed lies inside the run. */
  lemma LineRunCovers(s: string, i: nat, v: string)
    requires i + |v| <= |s| && s[i..i + |v|] == v
    requires forall k :: 0 <= k < |v| ==> v[k] != '\n'
    ensures |v| <= LineRun(s, i)
  {
  }

  /** Drops one trailing carriage return. */
  function StripCR(s: string): string {
    if |s| > 0 && s[|s| - 1] == '\r' then s[..|s| - 1] else s
  }

  /** `str::lines()`: the text cut at each `\n`; a line ended by `\r\n` loses
      the `\r` too; a final line ending is optional and adds no empty line. */
  function Lines(text: string): (ls: seq<string>)
    decreases |text|
    ensures forall k :: 0 <= k < |ls| ==> '\n' !in ls[k]
    ensures |ls| == 0 <==> |text| == 0
  {
    if text == [] then []
    else
      var n := LineRun(text, 0);
      if n == |text| then [text]
      else [StripCR(text[..n])] + Lines(text[n + 1..])
  }

  /** `slice.join(sep)`. */
  function Join(parts: seq<string>, sep: string): string {
    if |parts| == 0 then ""
    else if |parts| == 1 then parts[0]
    else parts[0] + sep + Join(parts[1..], sep)
  }

  /** Joining one more part in front. */
  lemma JoinCons(head: string, parts: seq<string>, sep: string)
    requires |parts| >= 1
    ensures Join([head] + parts, sep) == head + sep + Join(parts, sep)
  {
    assert ([head] + parts)[1..] == parts;
  }

  /** The first line of a text holding a line feed, and the text after it. */
  lemma LinesCons(text: string, n: nat)
    requires '\r' !in text && n == LineRun(text, 0) && n < |text|
    ensures Lines(text) == [text[..n]] + Lines(text[n + 1..])
    ensures text == text[..n] + "\n" + text[n + 1..]
    ensures '\r' !in text[n + 1..]
  {
    NoCR(text, n);
  }

  /** In a text without carriage returns, the stretch before a position has
      no `\r` to strip, and the stretch after it has none either. */
  lemma NoCR(text: string, n: nat)
    requires '\r' !in text && n < |text|
    ensures StripCR(text[..n]) == text[..n] && '\r' !in text[n + 1..]
    ensures text == text[..n] + [text[n]] + text[n + 1..]
  {
    if n > 0 {
      assert text[..n][n - 1] == text[n - 1];
    }
  }

  /** A line ended by `\r\n` loses both characters. */
  lemma LinesCRLF(a: string, b: string)
    requires '\n' !in a
    ensures Lines(a + "\r\n" + b) == [a] + Lines(b)
  {
    var text := a + "\r\n" + b;
    var n := LineRun(text, 0);
    assert text[|a| + 1] == '\n';
    assert text[..|a| + 1] == a + "\r";
    LineRunCovers(text, 0, a + "\r");
    assert n == |a| + 1;
    assert StripCR(text[..n]) == a;
    assert text[n + 1..] == b;
  }

  /** A line ended by a `\n` that no `\r` precedes keeps all it holds. */
  lemma LinesLF(a: string, b: string)
    requires '\n' !in a && (|a| == 0 || a[|a| - 1] != '\r')
    ensures Lines(a + "\n" + b) == [a] + Lines(b)
  {
    var text := a + "\n" + b;
    var n := LineRun(text, 0);
    assert text[|a|] == '\n';
    assert text[..|a|] == a;
    LineRunCovers(text, 0, a);
    assert n == |a|;
    assert StripCR(text[..n]) == a;
    assert text[n + 1..] == b;
  }

  /** A last line without a line ending keeps all it holds, `\r` included. */
  lemma LinesLast(a: string)
    requires '\n' !in a && |a| > 0
    ensures Lines(a) == [a]
  {
    assert a[0..|a|] == a;
    LineRunCovers(a, 0, a);
  }

  /** `\n` and `\r\n` endings mixed in one text. */
  lemma LinesMixedEndings()
    ensures Lines("x\ny\r\nz") == ["x", "y", "z"]
  {
    var rest := "y\r\nz";
    assert rest == "y" + "\r\n" + "z";
    LinesCRLF("y", "z");
    LinesLast("z");
    assert Lines(rest) == ["y", "z"];
    assert "x\ny\r\nz" == "x" + "\n" + rest;
    LinesLF("x", rest);
  }

  /** A bare `\r` at the very end is not a line ending and stays in the line. */
  lemma LinesFinalCR(a: string)
    requires '\n' !in a
    ensures Lines(a + "\r") == [a + "\r"]
  {
    var text := a + "\r";
    assert text[0..|text|] == text;
    LineRunCovers(text, 0, text);
  }

  /** Without carriage returns, joining the lines with `\n` gives the text
      back, less a final line ending. */
  lemma {:induction false} LinesJoin(text: string)
    requires '\r' !in text
    ensures Join(Lines(text), "\n") + (if |text| > 0 && text[|text| - 1] == '\n' then "\n" else "") == text
  {
    if text != [] {
      var n := LineRun(text, 0);
      if n == |text| {
        assert text[|text| - 1] != '\n';
      } else {
        var head, rest := text[..n], text[n + 1..];
        LinesCons(text, n);
        if rest == [] {
          assert text[|text| - 1] == '\n';
        } else {
          LinesJoin(rest);
          JoinCons(head, Lines(rest), "\n");
          assert text[|text| - 1] == rest[|rest| - 1];
        }
      }
    }
  }

  /** `s.split(sep)` for a non-empty separator: the pieces between the
      non-overlapping occurrences of `sep`, found from the left. */
  function Split(s: string, sep: string): (parts: seq<string>)
    requires |sep| > 0
    decreases |s|
    ensures |parts| >= 1
    ensures forall k :: 0 <= k < |parts| ==> !Contains(parts[k], sep)
  {
    match FindFrom(s, sep, 0)
    case None => [s]
    case Some(i) =>
      var head := s[..i];
      assert !Contains(head, sep) by {
        forall j: nat | OccursAt(head, sep, j) ensures false {
          assert head[j..j + |sep|] == s[j..j + |sep|];
          assert OccursAt(s, sep, j);
        }
      }
      [head] + Split(s[i + |sep|..], sep)
  }

  /** Joining the pieces with the separator gives the string back. */
  lemma {:induction false} JoinSplit(s: string, sep: string)
    requires |sep| > 0
    decreases |s|
    ensures Join(Split(s, sep), sep) == s
  {
    var r := FindFrom(s, sep, 0);
    if r.Some? {
      var i := r.value;
      var rest := s[i + |sep|..];
      var tail := Split(rest, sep);
      JoinSplit(rest, sep);
      var parts := [s[..i]] + tail;
      assert Split(s, sep) == parts;
      assert parts[1..] == tail;
      assert Join(parts, sep) == s[..i] + sep + rest;
      assert s == s[..i] + sep + rest;
    }
  }

  /** A string without the separator is one piece. */
  lemma SplitWithoutSeparator(s: string, sep: string)
    requires |sep| > 0 && !Contains(s, sep)
    ensures Split(s, sep) == [s]
  {
  }

  /** `", "` cannot straddle the end of a piece that holds no `", "` and the
      separator after it, so the first occurrence is that separator. */
  lemma FirstCommaSpace(p: string, rest: string)
    requires !Contains(p, ", ")
    ensures FindFrom(p + ", " + rest, ", ", 0) == Some(|p|)
  {
    var s := p + ", " + rest;
    assert OccursAt(s, ", ", |p|);
    var r := FindFrom(s, ", ", 0);
    var j := r.value;
    assert s[|p|] == ',' && s[j + 1] == ' ';
    if j < |p| {
      if j + 2 <= |p| {
        assert p[j..j + 2] == s[j..j + 2];
        assert OccursAt(p, ", ", j);
      }
    }
  }

  /** For the separator `", "`, splitting a join of separator-free pieces
      gives the pieces back. */
  lemma {:induction false} SplitJoin(parts: seq<string>)
    requires |parts| >= 1
    requires forall k :: 0 <= k < |parts| ==> !Contains(parts[k], ", ")
    decreases |parts|
    ensures Split(Join(parts, ", "), ", ") == parts
  {
    if |parts| == 1 {
      SplitWithoutSeparator(parts[0], ", ");
    } else {
      var p, tail := parts[0], parts[1..];
      var s := Join(parts, ", ");
      assert s == p + ", " + Join(tail, ", ");
      FirstCommaSpace(p, Join(tail, ", "));
      assert s[..|p|] == p;
      assert s[|p| + 2..] == Join(tail, ", ");
      SplitJoin(tail);
      assert parts == [p] + tail;
    }
  }
}
