/** A tags file loaded into memory. The reader hands over the file line by
    line; every line that reads and is not a `!_` header becomes one parsed
    tag, in line order. */
module TagFiles {
  import opened Prelude
  import opened Text
  import opened TagDefinitions

  /** One item from the line reader: a line's text, or a read error. */
  datatype LineRead = Line(text: string) | ReadError

  datatype TagFile = TagFile(filePath: string, tags: seq<TagDefinition>)

  /** Pseudo-tag lines such as `!_TAG_FILE_FORMAT` describe the file itself. */
  predicate IsHeader(text: string) {
    StartsWith(text, "!_")
  }

  /** What the loader keeps of one line: nothing for a read error or a
      header, the text otherwise. */
  function Kept(item: LineRead): (r: seq<string>)
    ensures |r| <= 1
    ensures r != [] <==> item.Line? && !IsHeader(item.text)
    ensures r != [] ==> r == [item.text]
  {
    match item
    case ReadError => []
    case Line(v) => if IsHeader(v) then [] else [v]
  }

  /** The texts handed to the parser, in line order. */
  function TagTexts(lines: seq<LineRead>): (r: seq<string>)
    ensures |r| <= |lines|
    ensures forall k :: 0 <= k < |r| ==> !IsHeader(r[k])
  {
    if |lines| == 0 then []
    else TagTexts(lines[..|lines| - 1]) + Kept(lines[|lines| - 1])
  }

  /** Reading two runs of lines one after the other keeps what each keeps. */
  lemma {:induction false} TagTextsAppend(a: seq<LineRead>, b: seq<LineRead>)
    ensures TagTexts(a + b) == TagTexts(a) + TagTexts(b)
  {
    if |b| == 0 {
      assert a + b == a;
    } else {
      assert (a + b)[..|a + b| - 1] == a + b[..|b| - 1];
      TagTextsAppend(a, b[..|b| - 1]);
    }
  }

  lemma TagTextsStep(lines: seq<LineRead>, num: nat)
    requires num < |lines|
    ensures Kept(lines[num]) == [] ==> TagTexts(lines[..num + 1]) == TagTexts(lines[..num])
    ensures Kept(lines[num]) != [] ==> TagTexts(lines[..num + 1]) == TagTexts(lines[..num]) + [lines[num].text]
  {
    assert lines[..num + 1][..num] == lines[..num];
  }

  lemma TagTextsRest(lines: seq<LineRead>, num: nat)
    requires num <= |lines|
    ensures TagTexts(lines) == TagTexts(lines[..num]) + TagTexts(lines[num..])
  {
    assert lines == lines[..num] + lines[num..];
    TagTextsAppend(lines[..num], lines[num..]);
  }

  /** Every line that reads and is not a header is handed to the parser. */
  lemma {:induction false} TagTextsComplete(lines: seq<LineRead>, k: nat)
    requires k < |lines| && lines[k].Line? && !IsHeader(lines[k].text)
    ensures lines[k].text in TagTexts(lines)
  {
    if k < |lines| - 1 {
      TagTextsComplete(lines[..|lines| - 1], k);
    } else {
      assert TagTexts(lines) == TagTexts(lines[..k]) + [lines[k].text];
    }
  }

  /** Parses the texts in order with `parse`; the first text it panics on
      aborts the whole load. The loader uses `FromString`. */
  function ParseEach(texts: seq<string>, parse: string -> Result<TagDefinition>): (r: Result<seq<TagDefinition>>)
    ensures r.Ok? ==> |r.value| == |texts|
  {
    if |texts| == 0 then Ok([])
    else
      var last := |texts| - 1;
      match ParseEach(texts[..last], parse)
      case Panic(f) => Panic(f)
      case Ok(ts) =>
        match parse(texts[last])
        case Panic(f) => Panic(f)
        case Ok(t) => Ok(ts + [t])
  }

  /** Tag `k` of a successful load is what the parser makes of text `k`. */
  lemma {:induction false} ParseEachParsed(texts: seq<string>, parse: string -> Result<TagDefinition>, k: nat)
    requires ParseEach(texts, parse).Ok? && k < |texts|
    ensures parse(texts[k]) == Ok(ParseEach(texts, parse).value[k])
  {
    var last := |texts| - 1;
    if k < last {
      ParseEachParsed(texts[..last], parse, k);
      assert texts[..last][k] == texts[k];
    }
  }

  /** A failed load fails with the fault of the first text the parser
      panics on. */
  lemma {:induction false} ParseEachAborts(texts: seq<string>, parse: string -> Result<TagDefinition>) returns (k: nat)
    requires ParseEach(texts, parse).Panic?
    ensures k < |texts| && parse(texts[k]) == Panic(ParseEach(texts, parse).fault)
    ensures forall j :: 0 <= j < k ==> parse(texts[j]).Ok?
  {
    var last := |texts| - 1;
    if ParseEach(texts[..last], parse).Panic? {
      k := ParseEachAborts(texts[..last], parse);
      assert texts[..last][k] == texts[k];
      assert forall j :: 0 <= j < k ==> texts[..last][j] == texts[j];
    } else {
      k := last;
      forall j | 0 <= j < k ensures parse(texts[j]).Ok? {
        ParseEachParsed(texts[..last], parse, j);
        assert texts[..last][j] == texts[j];
      }
    }
  }

  /** The load succeeds exactly when the parser succeeds on every text. */
  lemma {:induction false} ParseEachOkIff(texts: seq<string>, parse: string -> Result<TagDefinition>)
    ensures ParseEach(texts, parse).Ok? <==> forall k :: 0 <= k < |texts| ==> parse(texts[k]).Ok?
  {
    if ParseEach(texts, parse).Ok? {
      forall k | 0 <= k < |texts| ensures parse(texts[k]).Ok? {
        ParseEachParsed(texts, parse, k);
      }
    } else {
      var k := ParseEachAborts(texts, parse);
    }
  }

  /** Parsing one more text extends the tags or aborts with its fault. */
  lemma ParseEachStep(texts: seq<string>, parse: string -> Result<TagDefinition>, tags: seq<TagDefinition>, v: string)
    requires ParseEach(texts, parse) == Ok(tags)
    ensures ParseEach(texts + [v], parse) == match parse(v)
      case Ok(t) => Ok(tags + [t])
      case Panic(f) => Panic(f)
  {
    assert (texts + [v])[..|texts|] == texts;
  }

  /** Once the load has aborted, later texts change nothing. */
  lemma {:induction false} ParseEachAborted(a: seq<string>, b: seq<string>, parse: string -> Result<TagDefinition>)
    requires ParseEach(a, parse).Panic?
    ensures ParseEach(a + b, parse) == ParseEach(a, parse)
  {
    if |b| > 0 {
      assert (a + b)[..|a + b| - 1] == a + b[..|b| - 1];
      ParseEachAborted(a, b[..|b| - 1], parse);
    } else {
      assert a + b == a;
    }
  }

  /** Loading with the tag-line parser succeeds exactly when every text is a
      well-formed tag line: one malformed line aborts the load. */
  lemma LoadOkIffWellFormed(texts: seq<string>)
    ensures ParseEach(texts, FromString).Ok? <==> forall k :: 0 <= k < |texts| ==> WellFormedLine(texts[k])
  {
    ParseEachOkIff(texts, FromString);
    forall k | 0 <= k < |texts| ensures FromString(texts[k]).Ok? <==> WellFormedLine(texts[k]) {
      FromStringOkIffWellFormed(texts[k]);
    }
  }

  /** The tag file loaded from `path` of a file system given as a map from
      paths to the items its line reader yields. A missing file panics like
      the `unwrap` on `File::open`. */
  function LoadedFile(files: map<string, seq<LineRead>>, path: string): Result<TagFile> {
    if path !in files then Panic(FileNotFound)
    else
      match ParseEach(TagTexts(files[path]), FromString)
      case Ok(tags) => Ok(TagFile(path, tags))
      case Panic(f) => Panic(f)
  }

  /** A loaded file keeps its path, holds one tag per kept line, in line
      order, and every tag is a valid record of its own line. */
  lemma LoadedFileTags(files: map<string, seq<LineRead>>, path: string, k: nat)
    requires LoadedFile(files, path).Ok?
    requires k < |TagTexts(files[path])|
    ensures LoadedFile(files, path).value.filePath == path
    ensures |LoadedFile(files, path).value.tags| == |TagTexts(files[path])|
    ensures var t := LoadedFile(files, path).value.tags[k];
      FromString(TagTexts(files[path])[k]) == Ok(t) && t.Valid() && t.originalLine == TagTexts(files[path])[k]
  {
    ParseEachParsed(TagTexts(files[path]), FromString, k);
  }

  /** `TagFile::from_file`: a read error is reported and skipped. */
  method FromFile(files: map<string, seq<LineRead>>, path: string) returns (r: Result<TagFile>)
    ensures r == LoadedFile(files, path)
  {
    if path !in files {
      return Panic(FileNotFound);
    }
    var lines := files[path];
    var tags: seq<TagDefinition> := [];
    var num := 0;
    while num < |lines|
      invariant num <= |lines|
      invariant ParseEach(TagTexts(lines[..num]), FromString) == Ok(tags)
    {
      TagTextsStep(lines, num);
      match lines[num] {
        case ReadError =>
          assert ParseEach(TagTexts(lines[..num + 1]), FromString) == Ok(tags);
        case Line(v) =>
          if !StartsWith(v, "!_") {
            var t := FromString(v);
            ParseEachStep(TagTexts(lines[..num]), FromString, tags, v);
            if t.Panic? {
              TagTextsRest(lines, num + 1);
              ParseEachAborted(TagTexts(lines[..num + 1]), TagTexts(lines[num + 1..]), FromString);
              return Panic(t.fault);
            }
            tags := tags + [t.value];
            assert ParseEach(TagTexts(lines[..num + 1]), FromString) == Ok(tags);
          } else {
            assert ParseEach(TagTexts(lines[..num + 1]), FromString) == Ok(tags);
          }
      }
      num := num + 1;
    }
    assert lines[..num] == lines;
    return Ok(TagFile(path, tags));
  }
}
