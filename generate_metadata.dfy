/** The older front-matter extractor: three independent unanchored regexes
    `% id: (.*)`, `% title: (.*)` and `% date: (.*)` tried on every line read
    from the file, the id parsed as an `i16` with `unwrap`, and no
    completeness gate. */
module GenerateMetadata {
  import opened Wrappers
  import opened Text
  import opened Numbers
  import opened Seqs

  datatype Metadata = Metadata(id: Option<I16>, title: Option<string>, date: Option<string>)

  const EmptyMetadata := Metadata(None, None, None)

  /** The three patterns, one per field. */
  datatype Key = IdKey | TitleKey | DateKey

  /** The literal text each pattern starts with. */
  function Marker(k: Key): string {
    match k
    case IdKey => "% id: "
    case TitleKey => "% title: "
    case DateKey => "% date: "
  }

  /** A match of `<marker>(.*)` from index `p`, the group capturing `value`. */
  ghost predicate IsMatch(line: string, marker: string, p: nat, value: string) {
    var q := p + |marker|;
    && q + |value| <= |line|
    && line[p..q] == marker
    && line[q..q + |value|] == value
    && (forall k :: 0 <= k < |value| ==> value[k] != '\n')
  }

  datatype Capture = Capture(start: nat, value: string)

  /** `Regex::new("<marker>(.*)").captures(line)`: the leftmost occurrence of
      the marker, and after it the longest run without a line feed, which may
      be empty. */
  function MarkerMatch(line: string, marker: string): (r: Option<Capture>)
    ensures r.Some? ==> IsMatch(line, marker, r.value.start, r.value.value)
    ensures forall p: nat, value :: IsMatch(line, marker, p, value) ==>
              r.Some? && r.value.start <= p && (p == r.value.start ==> |value| <= |r.value.value|)
  {
    match FindFrom(line, marker, 0)
    case None =>
      assert forall p: nat, value :: !IsMatch(line, marker, p, value) by {
        forall p: nat, value | IsMatch(line, marker, p, value) ensures false {
          assert OccursAt(line, marker, p);
        }
      }
      None
    case Some(p) =>
      var q := p + |marker|;
      assert forall p': nat, value :: IsMatch(line, marker, p', value) ==>
               p <= p' && (p' == p ==> |value| <= LineRun(line, q)) by {
        forall p': nat, value | IsMatch(line, marker, p', value)
          ensures p <= p' && (p' == p ==> |value| <= LineRun(line, q))
        {
          assert OccursAt(line, marker, p');
          if p' == p {
            LineRunCovers(line, q, value);
          }
        }
      }
      Some(Capture(p, line[q..q + LineRun(line, q)]))
  }

  /** A line that starts with a marker captures all that follows it, which
      may be empty. */
  lemma MarkerLine(k: Key, value: string)
    requires '\n' !in value
    ensures CaptureText(Marker(k) + value, k) == Some(value)
  {
    var marker, line := Marker(k), Marker(k) + value;
    assert line[..|marker|] == marker && line[|marker|..] == value;
    assert IsMatch(line, marker, 0, value);
    var c := MarkerMatch(line, marker).value;
    assert line[|marker|..|marker| + |c.value|] == c.value;
  }

  /** `captures.get(1)` for the pattern of `k` on a line that was read. */
  function CaptureText(text: string, k: Key): Option<string> {
    match MarkerMatch(text, Marker(k))
    case None => None
    case Some(c) => Some(c.value)
  }

  /** What the pattern for `k` captures on a line of the file; nothing on a
      line that failed to read. */
  function Captured(line: Option<string>, k: Key): Option<string> {
    match line
    case None => None
    case Some(text) => CaptureText(text, k)
  }

  /** A field's value, the id as a number, the others as text. */
  datatype Value = Number(n: I16) | Text(s: string)

  function Get(m: Metadata, k: Key): Option<Value> {
    match k
    case IdKey => if m.id.Some? then Some(Number(m.id.value)) else None
    case TitleKey => if m.title.Some? then Some(Text(m.title.value)) else None
    case DateKey => if m.date.Some? then Some(Text(m.date.value)) else None
  }

  /** What a captured text is stored as; `None` where `unwrap` panics. */
  function Decode(k: Key, captured: string): Option<Value> {
    if k == IdKey then
      match ParseI16(captured)
      case None => None
      case Some(n) => Some(Number(n))
    else Some(Text(captured))
  }

  /** The line's id capture is not an `i16`. */
  predicate BadId(line: Option<string>) {
    var c := Captured(line, IdKey);
    c.Some? && ParseI16(c.value).None?
  }

  /** What the three patterns capture on one line. */
  datatype Captures = Captures(id: Option<string>, title: Option<string>, date: Option<string>)

  function Pick(c: Captures, k: Key): Option<string> {
    match k
    case IdKey => c.id
    case TitleKey => c.title
    case DateKey => c.date
  }

  /** The three patterns tried on one line whose text was read. */
  function CapturesOf(text: string): (c: Captures)
    ensures forall k :: Pick(c, k) == CaptureText(text, k)
  {
    var c := Captures(CaptureText(text, IdKey), CaptureText(text, TitleKey), CaptureText(text, DateKey));
    assert forall k :: Pick(c, k) == CaptureText(text, k) by {
      forall k ensures Pick(c, k) == CaptureText(text, k) {
        if k == IdKey {
        } else if k == TitleKey {
        }
      }
    }
    c
  }

  /** The body of the loop for one line that was read: each pattern that
      matched sets its own field, and an id that is not an `i16` panics. */
  function Apply(m: Metadata, c: Captures): (r: Completion<Metadata>)
    ensures r.Panicked? <==> c.id.Some? && ParseI16(c.id.value).None?
    ensures r.Returned? ==>
              forall k :: Get(r.value, k) ==
                if Pick(c, k).Some? then Decode(k, Pick(c, k).value) else Get(m, k)
  {
    if c.id.Some? && ParseI16(c.id.value).None? then Panicked
    else
      var next := Metadata(
        if c.id.Some? then Some(ParseI16(c.id.value).value) else m.id,
        if c.title.Some? then c.title else m.title,
        if c.date.Some? then c.date else m.date);
      assert forall k :: Get(next, k) ==
               if Pick(c, k).Some? then Decode(k, Pick(c, k).value) else Get(m, k) by {
        forall k
          ensures Get(next, k) == if Pick(c, k).Some? then Decode(k, Pick(c, k).value) else Get(m, k)
        {
          if k == IdKey {
          } else if k == TitleKey {
          }
        }
      }
      Returned(next)
  }

  /** One iteration of the loop: a line that failed to read is skipped;
      otherwise the three patterns are tried one after the other, each
      setting its own field, and an id that is not an `i16` panics. */
  function Step(m: Metadata, line: Option<string>): (r: Completion<Metadata>)
    ensures r.Panicked? <==> BadId(line)
    ensures r.Returned? ==>
              forall k :: Get(r.value, k) ==
                if Captured(line, k).Some? then Decode(k, Captured(line, k).value) else Get(m, k)
    ensures line.None? ==> r == Returned(m)
  {
    match line
    case None => Returned(m)
    case Some(text) =>
      var c := CapturesOf(text);
      assert Pick(c, IdKey) == c.id;
      Apply(m, c)
  }

  /** The patterns are not anchored and are tried one after the other, so
      one line can set two fields: on `% title: <t>% date: <d>` the title
      pattern takes the rest of the line, the date marker included, and the
      date pattern finds that marker on its own. */
  lemma TwoFieldsOneLine(m: Metadata, t: string, d: string)
    requires '\n' !in t && '\n' !in d && '%' !in t && '%' !in d
    ensures Step(m, Some(Marker(TitleKey) + t + Marker(DateKey) + d))
         == Returned(m.(title := Some(t + Marker(DateKey) + d), date := Some(d)))
  {
    var line := Marker(TitleKey) + t + Marker(DateKey) + d;
    assert line == Marker(TitleKey) + (t + Marker(DateKey) + d);
    MarkerLine(TitleKey, t + Marker(DateKey) + d);
    NoIdInTwoFields(t, d);
    DateInTwoFields(t, d);
    var c := CapturesOf(line);
    assert c == Captures(None, Some(t + Marker(DateKey) + d), Some(d));
    assert Step(m, Some(line)) == Apply(m, c);
  }

  /** `% title: <t>% date: <d>` holds no `% id: `. */
  lemma NoIdInTwoFields(t: string, d: string)
    requires '%' !in t && '%' !in d
    ensures CaptureText(Marker(TitleKey) + t + Marker(DateKey) + d, IdKey).None?
  {
    var line := Marker(TitleKey) + t + Marker(DateKey) + d;
    var q := |Marker(TitleKey)| + |t|;
    PercentSigns(t, d);
    assert line[2] == 't' && line[q + 2] == 'd';
    forall p: nat | OccursAt(line, Marker(IdKey), p)
      ensures line[p] == '%' && line[p + 2] == 'i'
    {
      MarkerChars(line, Marker(IdKey), p);
    }
  }

  /** In `% title: <t>% date: <d>` the date pattern captures `d`. */
  lemma DateInTwoFields(t: string, d: string)
    requires '\n' !in d && '%' !in t && '%' !in d
    ensures CaptureText(Marker(TitleKey) + t + Marker(DateKey) + d, DateKey) == Some(d)
  {
    var date := Marker(DateKey);
    var line := Marker(TitleKey) + t + date + d;
    var q := |Marker(TitleKey)| + |t|;
    assert line[q..q + |date|] == date && line[q + |date|..] == d;
    assert IsMatch(line, date, q, d);
    var c := MarkerMatch(line, date).value;
    assert c.start == q by {
      PercentSigns(t, d);
      MarkerChars(line, date, c.start);
      assert line[2] == 't';
    }
    assert c.value == line[q + |date|..q + |date| + |c.value|];
  }

  /** Where a marker occurs, the line shows its first and third characters. */
  lemma MarkerChars(line: string, marker: string, p: nat)
    requires |marker| >= 3 && OccursAt(line, marker, p)
    ensures line[p] == marker[0] && line[p + 2] == marker[2]
  {
    assert line[p..p + |marker|][0] == line[p] && line[p..p + |marker|][2] == line[p + 2];
  }

  /** On `% title: <t>% date: <d>` with no `%` in `t` or `d`, a `%` stands
      only at the start of one of the two markers. */
  lemma PercentSigns(t: string, d: string)
    requires '%' !in t && '%' !in d
    ensures var line := Marker(TitleKey) + t + Marker(DateKey) + d;
            forall p :: 0 < p < |line| && p != |Marker(TitleKey)| + |t| ==> line[p] != '%'
  {
    var title, date := Marker(TitleKey), Marker(DateKey);
    var line := title + t + date + d;
    var q := |title| + |t|;
    forall p | 0 < p < |line| && p != q
      ensures line[p] != '%'
    {
      if p < |title| {
        assert line[p] == title[1..][p - 1];
      } else if p < q {
        assert line[p] == t[p - |title|];
      } else if p < q + |date| {
        assert line[p] == date[1..][p - q - 1];
      } else {
        assert line[p] == d[p - q - |date|];
      }
    }
  }

  /** The outcome of the loop over `lines`; a panic ends it. */
  function Scan(m: Metadata, lines: seq<Option<string>>): Completion<Metadata>
    decreases |lines|
  {
    if lines == [] then Returned(m)
    else
      match Scan(m, lines[..|lines| - 1])
      case Panicked => Panicked
      case Returned(m') => Step(m', lines[|lines| - 1])
  }

  /** Once the loop has panicked, the rest of the file does not matter. */
  lemma {:induction false} PanicPersists(m: Metadata, lines: seq<Option<string>>, i: nat)
    requires i <= |lines| && Scan(m, lines[..i]) == Panicked
    decreases |lines|
    ensures Scan(m, lines) == Panicked
  {
    if i < |lines| {
      var front := lines[..|lines| - 1];
      assert front[..i] == lines[..i];
      PanicPersists(m, front, i);
    } else {
      assert lines[..i] == lines;
    }
  }

  /** The line-matching loop of `get_metadata` over the results of
      `reader.lines()` (`None` for a line that failed to read). It returns
      the record whether or not all three fields were found. */
  method GetMetadata(lines: seq<Option<string>>) returns (r: Completion<Metadata>)
    ensures r == Scan(EmptyMetadata, lines)
  {
    var metadata := Metadata(None, None, None);
    var i := 0;
    while i < |lines|
      invariant i <= |lines|
      invariant Scan(EmptyMetadata, lines[..i]) == Returned(metadata)
    {
      assert lines[..i + 1][..i] == lines[..i];
      ghost var before := metadata;
      if lines[i].Some? {
        var lineContent := lines[i].value;
        ghost var c := CapturesOf(lineContent);
        assert Step(before, lines[i]) == Apply(before, c);
        var idCapture := CaptureText(lineContent, IdKey);
        if idCapture.Some? {
          var id := ParseI16(idCapture.value);
          if id.None? {
            assert Scan(EmptyMetadata, lines[..i + 1]) == Panicked;
            PanicPersists(EmptyMetadata, lines, i + 1);
            return Panicked;
          }
          metadata := metadata.(id := Some(id.value));
        }
        var titleCapture := CaptureText(lineContent, TitleKey);
        if titleCapture.Some? {
          metadata := metadata.(title := titleCapture);
        }
        var dateCapture := CaptureText(lineContent, DateKey);
        if dateCapture.Some? {
          metadata := metadata.(date := dateCapture);
        }
        assert c == Captures(idCapture, titleCapture, dateCapture);
        assert Apply(before, c) == Returned(metadata);
      }
      assert Step(before, lines[i]) == Returned(metadata);
      i := i + 1;
    }
    assert lines[..i] == lines;
    r := Returned(metadata);
  }

  /** Some line of `lines` has the id marker followed by a non-`i16`. */
  predicate HasBadId(lines: seq<Option<string>>) {
    AnyOf(lines, BadId)
  }

  /** The loop panics exactly when some line read carries an id that is not
      an `i16`; nothing else stops it, in particular not a missing field. */
  lemma {:induction false} ScanPanicsIff(m: Metadata, lines: seq<Option<string>>)
    decreases |lines|
    ensures Scan(m, lines).Panicked? <==> HasBadId(lines)
  {
    if lines != [] {
      ScanPanicsIff(m, lines[..|lines| - 1]);
      AnyOfSnoc(lines, BadId);
    }
  }

  /** A field whose pattern matches no line keeps its value; from the empty
      record, it stays `None`. */
  lemma {:induction false} ScanUntouched(m: Metadata, lines: seq<Option<string>>, k: Key, r: Metadata)
    requires Scan(m, lines) == Returned(r)
    requires forall j :: 0 <= j < |lines| ==> Captured(lines[j], k).None?
    decreases |lines|
    ensures Get(r, k) == Get(m, k)
  {
    if lines != [] {
      var front := lines[..|lines| - 1];
      var r' := Scan(m, front).value;
      ScanUntouched(m, front, k, r');
    }
  }

  /** A field whose pattern matches several lines holds what the last of
      them captured. */
  lemma {:induction false} ScanLastWins(m: Metadata, lines: seq<Option<string>>, k: Key, j: nat, r: Metadata)
    requires Scan(m, lines) == Returned(r)
    requires j < |lines| && Captured(lines[j], k).Some?
    requires forall i :: j < i < |lines| ==> Captured(lines[i], k).None?
    decreases |lines|
    ensures Get(r, k) == Decode(k, Captured(lines[j], k).value)
  {
    var front, last := lines[..|lines| - 1], lines[|lines| - 1];
    assert Scan(m, front).Returned?;
    var r' := Scan(m, front).value;
    assert Step(r', last) == Returned(r);
    if j < |lines| - 1 {
      assert Captured(last, k).None?;
      assert Get(r, k) == Get(r', k);
      ScanLastWins(m, front, k, j, r');
    }
  }
}
