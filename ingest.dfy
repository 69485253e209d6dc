/** The current front-matter extractor: one regex `% (\w+): (.+)` applied to
    every line, four recognised keys, a completeness gate, and the
    conversion of the raw strings into a `Blog`. */
module Ingest {
  import opened Wrappers
  import opened Text
  import opened Numbers
  import Calendar
  import opened BlogRecord
  import opened Seqs

  /** The raw front-matter values found so far. */
  datatype Metadata = Metadata(id: Option<string>, title: Option<string>, date: Option<string>, tags: Option<string>)
  {
    /** `Metadata::is_complete`. */
    predicate IsComplete() {
      id.Some? && title.Some? && date.Some? && tags.Some?
    }
  }

  /** The four recognised keys, one constructor each. */
  datatype Key = IdKey | TitleKey | DateKey | TagsKey

  function Get(m: Metadata, k: Key): Option<string> {
    match k
    case IdKey => m.id
    case TitleKey => m.title
    case DateKey => m.date
    case TagsKey => m.tags
  }

  /** The key a front-matter name selects, if it is one of the four. */
  function KeyOf(name: string): (r: Option<Key>)
    ensures r.Some? <==> name in {"id", "title", "date", "tags"}
  {
    if name == "id" then Some(IdKey)
    else if name == "title" then Some(TitleKey)
    else if name == "date" then Some(DateKey)
    else if name == "tags" then Some(TagsKey)
    else None
  }

  /** Complete means that every key has a value. */
  lemma CompleteIffAllKeys(m: Metadata)
    ensures m.IsComplete() <==> forall k :: Get(m, k).Some?
  {
    assert Get(m, IdKey) == m.id && Get(m, TitleKey) == m.title;
    assert Get(m, DateKey) == m.date && Get(m, TagsKey) == m.tags;
  }

  const EmptyMetadata := Metadata(None, None, None, None)

  // ---------------------------------------------------------------------
  // The regex `% (\w+): (.+)`

  /** `\w`, restricted to ASCII. */
  predicate IsWordChar(c: char) {
    'a' <= c <= 'z' || 'A' <= c <= 'Z' || '0' <= c <= '9' || c == '_'
  }

  /** The length of the longest run of word characters starting at `i`. */
  function WordRun(s: string, i: nat): (n: nat)
    requires i <= |s|
    decreases |s| - i
    ensures i + n <= |s|
    ensures forall k :: i <= k < i + n ==> IsWordChar(s[k])
    ensures i + n == |s| || !IsWordChar(s[i + n])
  {
    if i == |s| || !IsWordChar(s[i]) then 0 else 1 + WordRun(s, i + 1)
  }

  /** A match of the regex: the pattern matches `line` from index `p` with
      the first group capturing `key` and the second `value`. */
  ghost predicate IsMatch(line: string, p: nat, key: string, value: string) {
    var q := p + 2 + |key|;
    && q + 2 + |value| <= |line|
    && line[p..p + 2] == "% "
    && |key| > 0 && line[p + 2..q] == key
    && (forall k :: 0 <= k < |key| ==> IsWordChar(key[k]))
    && line[q..q + 2] == ": "
    && |value| > 0 && line[q + 2..q + 2 + |value|] == value
    && (forall k :: 0 <= k < |value| ==> value[k] != '\n')
  }

  /** What `captures` reports: where the match starts and the two groups. */
  datatype Capture = Capture(start: nat, key: string, value: string)

  /** The match the regex engine takes when it tries position `p`: `\w+` and
      `.+` are greedy, and backing off `\w+` never helps because `:` is not
      a word character. */
  function MatchAt(line: string, p: nat): (r: Option<Capture>)
    ensures r.Some? ==> r.value.start == p && IsMatch(line, p, r.value.key, r.value.value)
  {
    if p + 2 > |line| || line[p..p + 2] != "% " then None
    else
      var n := WordRun(line, p + 2);
      var q := p + 2 + n;
      if n == 0 || q + 2 > |line| || line[q..q + 2] != ": " then None
      else
        var v := LineRun(line, q + 2);
        if v == 0 then None else Some(Capture(p, line[p + 2..q], line[q + 2..q + 2 + v]))
  }

  /** At a given position the key is determined (it is the whole word run)
      and the value the engine takes is the longest one. */
  lemma MatchAtComplete(line: string, p: nat, key: string, value: string)
    requires IsMatch(line, p, key, value)
    ensures MatchAt(line, p).Some?
    ensures MatchAt(line, p).value.key == key && |value| <= |MatchAt(line, p).value.value|
  {
    var q := p + 2 + |key|;
    assert forall i :: p + 2 <= i < q ==> IsWordChar(line[i]) by {
      forall i | p + 2 <= i < q ensures IsWordChar(line[i]) {
        assert line[i] == key[i - p - 2];
      }
    }
    assert line[q] == line[q..q + 2][0] == ':';
    assert WordRun(line, p + 2) == |key|;
    LineRunCovers(line, q + 2, value);
  }

  /** `re.captures(line)` searching from index `from`: the leftmost position
      where the pattern matches. */
  function FirstMatch(line: string, from: nat): (r: Option<Capture>)
    decreases |line| - from
    ensures r.Some? ==> from <= r.value.start && IsMatch(line, r.value.start, r.value.key, r.value.value)
    ensures forall p: nat, key, value :: from <= p && IsMatch(line, p, key, value) ==>
              r.Some? && r.value.start <= p
              && (p == r.value.start ==> key == r.value.key && |value| <= |r.value.value|)
  {
    if from >= |line| then None
    else
      var here := MatchAt(line, from);
      assert forall key, value :: IsMatch(line, from, key, value) ==>
               here.Some? && here.value.key == key && |value| <= |here.value.value| by {
        forall key, value | IsMatch(line, from, key, value)
          ensures here.Some? && here.value.key == key && |value| <= |here.value.value|
        {
          MatchAtComplete(line, from, key, value);
        }
      }
      if here.Some? then here else FirstMatch(line, from + 1)
  }

  /** `re.captures(line)` for `% (\w+): (.+)`. */
  function FrontMatterMatch(line: string): (r: Option<Capture>)
    ensures r.Some? ==> IsMatch(line, r.value.start, r.value.key, r.value.value)
    ensures r.None? <==> forall p: nat, key, value :: !IsMatch(line, p, key, value)
    ensures forall p: nat, key, value :: IsMatch(line, p, key, value) ==>
              r.Some? && r.value.start <= p
              && (p == r.value.start ==> key == r.value.key && |value| <= |r.value.value|)
  {
    FirstMatch(line, 0)
  }

  /** On a line with no line feed (every line `lines()` yields) the value is
      everything after the `: ` that ends the key, further `: ` included. */
  lemma ValueRunsToEndOfLine(line: string)
    requires '\n' !in line
    requires FrontMatterMatch(line).Some?
    ensures var c := FrontMatterMatch(line).value;
            c.value == line[c.start + 4 + |c.key|..]
  {
    var c := FrontMatterMatch(line).value;
    var q := c.start + 2 + |c.key|;
    var whole := line[q + 2..];
    assert line[q + 2..q + 2 + |whole|] == whole;
    assert IsMatch(line, c.start, c.key, whole);
    assert line[q + 2..q + 2 + |c.value|] == c.value;
  }

  /** A match at the start that runs to the end of the line is the one taken. */
  lemma WholeLineMatch(line: string, key: string, value: string)
    requires IsMatch(line, 0, key, value) && |line| == 4 + |key| + |value|
    ensures FrontMatterMatch(line) == Some(Capture(0, key, value))
  {
    var c := FrontMatterMatch(line).value;
    assert c.start == 0 && c.key == key;
    assert line[4 + |key|..4 + |key| + |c.value|] == c.value;
  }

  /** A line written as `% key: value` yields that key and that value. */
  lemma WellFormedLine(key: string, value: string)
    requires |key| > 0 && forall k :: 0 <= k < |key| ==> IsWordChar(key[k])
    requires |value| > 0 && '\n' !in value
    ensures FrontMatterMatch("% " + key + ": " + value) == Some(Capture(0, key, value))
  {
    var line := "% " + key + ": " + value;
    var q := 2 + |key|;
    assert line[..2] == "% " && line[2..q] == key && line[q..q + 2] == ": ";
    assert line[q + 2..q + 2 + |value|] == value;
    WholeLineMatch(line, key, value);
  }

  // ---------------------------------------------------------------------
  // The scan of `get_metadata`

  /** The line matches and its key is `k`. */
  predicate Names(line: string, k: Key) {
    var c := FrontMatterMatch(line);
    c.Some? && KeyOf(c.value.key) == Some(k)
  }

  /** One iteration of the loop in `get_metadata`: the value of a matching
      line goes to the field its key names; other lines change nothing. */
  function ApplyLine(m: Metadata, line: string): (r: Metadata)
    ensures forall k :: Get(r, k) == if Names(line, k) then Some(FrontMatterMatch(line).value.value) else Get(m, k)
    ensures FrontMatterMatch(line).None? || KeyOf(FrontMatterMatch(line).value.key).None? ==> r == m
  {
    match FrontMatterMatch(line)
    case None => m
    case Some(c) =>
      match c.key
      case "id" => m.(id := Some(c.value))
      case "title" => m.(title := Some(c.value))
      case "date" => m.(date := Some(c.value))
      case "tags" => m.(tags := Some(c.value))
      case _ => m
  }

  /** The record after the loop has gone over `lines`. */
  function Scan(m: Metadata, lines: seq<string>): Metadata
    decreases |lines|
  {
    if lines == [] then m else ApplyLine(Scan(m, lines[..|lines| - 1]), lines[|lines| - 1])
  }

  /** `get_metadata`: scans every line of `text`, and returns the record
      only when all four keys were found. */
  method GetMetadata(text: string) returns (r: Option<Metadata>)
    ensures r.Some? <==> Scan(EmptyMetadata, Lines(text)).IsComplete()
    ensures r.Some? ==> r.value == Scan(EmptyMetadata, Lines(text)) && r.value.IsComplete()
  {
    var metadata := Metadata(None, None, None, None);
    var lines := Lines(text);
    var i := 0;
    while i < |lines|
      invariant i <= |lines|
      invariant metadata == Scan(EmptyMetadata, lines[..i])
    {
      var line := lines[i];
      match FrontMatterMatch(line) {
        case Some(capture) =>
          match capture.key {
            case "id" => metadata := metadata.(id := Some(capture.value));
            case "title" => metadata := metadata.(title := Some(capture.value));
            case "date" => metadata := metadata.(date := Some(capture.value));
            case "tags" => metadata := metadata.(tags := Some(capture.value));
            case _ =>
          }
        case None =>
      }
      assert lines[..i + 1][..i] == lines[..i];
      i := i + 1;
    }
    assert lines[..i] == lines;
    if metadata.IsComplete() {
      r := Some(metadata);
    } else {
      r := None;
    }
  }

  /** A field no line names keeps its value. */
  lemma {:induction false} ScanUntouched(m: Metadata, lines: seq<string>, k: Key)
    requires forall j :: 0 <= j < |lines| ==> !Names(lines[j], k)
    decreases |lines|
    ensures Get(Scan(m, lines), k) == Get(m, k)
  {
    if lines != [] {
      ScanUntouched(m, lines[..|lines| - 1], k);
    }
  }

  /** For a repeated key the last line that names it wins. */
  lemma {:induction false} ScanLastWins(m: Metadata, lines: seq<string>, k: Key, j: nat)
    requires j < |lines| && Names(lines[j], k)
    requires forall i :: j < i < |lines| ==> !Names(lines[i], k)
    decreases |lines|
    ensures Get(Scan(m, lines), k) == Some(FrontMatterMatch(lines[j]).value.value)
  {
    if j < |lines| - 1 {
      ScanLastWins(m, lines[..|lines| - 1], k, j);
    }
  }

  /** `Names` for one key, as a predicate on lines. */
  function NamesKey(k: Key): string -> bool {
    line => Names(line, k)
  }

  /** Some line of `lines` names `k`. */
  predicate NamedIn(lines: seq<string>, k: Key) {
    AnyOf(lines, NamesKey(k))
  }

  /** A field ends up set exactly when it started set or some line names it. */
  lemma {:induction false} ScanFound(m: Metadata, lines: seq<string>, k: Key)
    decreases |lines|
    ensures Get(Scan(m, lines), k).Some? <==> Get(m, k).Some? || NamedIn(lines, k)
  {
    if lines != [] {
      ScanFound(m, lines[..|lines| - 1], k);
      AnyOfSnoc(lines, NamesKey(k));
    }
  }

  /** `get_metadata` gives a record exactly when each of the four keys is
      named by some line of the text. */
  lemma MetadataFoundIff(text: string)
    ensures Scan(EmptyMetadata, Lines(text)).IsComplete() <==> forall k :: NamedIn(Lines(text), k)
  {
    CompleteIffAllKeys(Scan(EmptyMetadata, Lines(text)));
    forall k {
      ScanFound(EmptyMetadata, Lines(text), k);
    }
  }

  // ---------------------------------------------------------------------
  // `metadata_to_blog`

  /** The id string is what `.parse::<i32>()` accepts. */
  predicate IsI32Literal(s: string) {
    IsDecimalLiteral(s) && I32_MIN <= LiteralValue(s) <= I32_MAX
  }

  /** `metadata_to_blog`: `None` for an incomplete record or an id that is
      not an `i32`; a panic (the `unwrap` of `Date::parse`) for a date that
      is not a real `YYYY-MM-DD` date; otherwise the `Blog`. */
  function MetadataToBlog(m: Metadata): (r: Completion<Option<Blog>>)
    ensures r == Returned(None) <==> !m.IsComplete() || !IsI32Literal(m.id.value)
    ensures r.Panicked? <==>
              m.IsComplete() && IsI32Literal(m.id.value) && Calendar.ParseDate(m.date.value).None?
    ensures r.Returned? && r.value.Some? ==>
              var b := r.value.value;
              && m.IsComplete()
              && b.id == LiteralValue(m.id.value)
              && b.title == m.title.value
              && b.summary == "" && b.body == ""
              && Calendar.IsValidDate(b.date) && Calendar.ParseDate(m.date.value) == Some(b.date)
              && |b.tags| >= 1 && Join(b.tags, ", ") == m.tags.value
              && (forall t :: 0 <= t < |b.tags| ==> !Contains(b.tags[t], ", "))
  {
    if m.IsComplete() then
      match ParseI32(m.id.value)
      case None => Returned(None)
      case Some(id) =>
        var title := m.title.value;
        match Calendar.ParseDate(m.date.value)
        case None => Panicked
        case Some(date) =>
          var tags := Split(m.tags.value, ", ");
          JoinSplit(m.tags.value, ", ");
          Returned(Some(Blog(id, title, "", "", date, tags)))
    else
      Returned(None)
  }

  /** A tags value without `", "` becomes a single tag. */
  lemma SingleTag(m: Metadata)
    requires m.IsComplete() && IsI32Literal(m.id.value) && Calendar.ParseDate(m.date.value).Some?
    requires !Contains(m.tags.value, ", ")
    ensures MetadataToBlog(m).Returned? && MetadataToBlog(m).value.Some?
    ensures MetadataToBlog(m).value.value.tags == [m.tags.value]
  {
    SplitWithoutSeparator(m.tags.value, ", ");
  }

  lemma ExampleId()
    ensures ParseI32("420") == Some(420)
  {
    assert DigitsValue("420") == 420 by {
      assert "420"[..2] == "42" && "42"[..1] == "4";
    }
    assert IsDecimalLiteral("420");
  }

  lemma ExampleDate()
    ensures Calendar.ParseDate("2024-01-01") == Some(Calendar.Date(2024, 1, 1))
  {
    var d := Calendar.Date(2024, 1, 1);
    Calendar.ParseFormatDate(d);
    assert Calendar.FormatFields(2024, 1, 1) == "2024-01-01";
    assert Calendar.FormatDate(d) == "2024-01-01";
  }

  lemma ExampleTags()
    ensures Split("a, b, c", ", ") == ["a", "b", "c"]
  {
    var tags := ["a", "b", "c"];
    assert Join(tags, ", ") == "a, b, c";
    SplitJoin(tags);
  }

  /** The conversion of the record `% id: 420`, `% title: T`,
      `% date: 2024-01-01`, `% tags: a, b, c`. */
  lemma ExampleConversion()
    ensures MetadataToBlog(Metadata(Some("420"), Some("T"), Some("2024-01-01"), Some("a, b, c")))
         == Returned(Some(Blog(420, "T", "", "", Calendar.Date(2024, 1, 1), ["a", "b", "c"])))
  {
    ExampleId();
    ExampleDate();
    ExampleTags();
  }
}
