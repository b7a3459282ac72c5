/** One parsed line of an extended ctags file. The record owns the line
    and stores every piece of it as a `(start, end)` pair of offsets into
    that line; the accessors slice the line on demand. */
module TagDefinitions {
  import opened Prelude
  import opened Text
  import opened TagKinds

  /** A half-open range `[start, end)` of offsets into the owned line. */
  datatype Span = Span(start: nat, end: nat)

  datatype TagDefinition = TagDefinition(
    originalLine: string,
    name: Span,
    declaration: Span,
    location: (Span, nat),   // source-file range and source line number
    kind: TagKind,
    fieldsStart: nat)         // where the extension fields begin
  {
    predicate InBounds(r: Span) {
      r.start <= r.end <= |originalLine|
    }

    /** The ranges the parser guarantees to be slices of the line. The
        declaration range is not among them: it can come out inverted, and
        then only `Declaration()` fails. */
    predicate Valid() {
      InBounds(name) && InBounds(location.0) && fieldsStart <= |originalLine|
    }

    /** `name()`: the text of the owned line at the name range. */
    function Name(): (r: string)
      requires Valid()
      ensures OccursAt(originalLine, r, name.start) && name.start + |r| == name.end
    {
      originalLine[name.start..name.end]
    }

    /** `source_file()`: the text of the owned line at the file range. */
    function SourceFile(): (r: string)
      requires Valid()
      ensures OccursAt(originalLine, r, location.0.start) && location.0.start + |r| == location.0.end
    {
      originalLine[location.0.start..location.0.end]
    }

    function SourceLine(): nat {
      location.1
    }

    function Kind(): TagKind {
      kind
    }

    /** `declaration()`: the text at the declaration range; slicing panics
        exactly when that range is not a slice of the line. */
    function Declaration(): (r: Result<string>)
      ensures r.Ok? <==> InBounds(declaration)
      ensures r.Panic? ==> r.fault == DeclarationOutOfRange
      ensures r.Ok? ==> OccursAt(originalLine, r.value, declaration.start) && declaration.start + |r.value| == declaration.end
    {
      if InBounds(declaration) then Ok(originalLine[declaration.start..declaration.end])
      else Panic(DeclarationOutOfRange)
    }

    /** The extension-field ranges: the tab-split ranges of the line after
        `fieldsStart`. */
    function Fields(): (r: seq<Span>)
      requires Valid()
      ensures forall k :: 0 <= k < |r| ==> InBounds(r[k])
    {
      FieldSpans(originalLine, fieldsStart)
    }

    /** The raw text of extension field `i`. */
    function Field(i: nat): string
      requires Valid() && i < |Fields()|
    {
      originalLine[Fields()[i].start..Fields()[i].end]
    }

    /** `to_elisp`, the rendering the commands reply with. When neither the
        name nor the source file holds a double quote, they are exactly the
        two quoted strings of the rendering, between the fixed texts of the
        format, and the line number and kind follow them. */
    function ToElisp(): (r: string)
      requires Valid()
      ensures '"' !in Name() && '"' !in SourceFile() ==>
        |Split(r, '"')| == 5 && Split(r, '"')[1] == Name() && Split(r, '"')[3] == SourceFile()
      ensures '"' !in Name() && '"' !in SourceFile() ==>
        Split(r, '"')[0] == "(tag :name " && Split(r, '"')[2] == " :source "
      ensures '"' !in Name() && '"' !in SourceFile() ==>
        Split(r, '"')[4] == " line: " + Decimal(SourceLine()) + " :kind '" + DebugName(kind) + "))"
    {
      var tail := " line: " + Decimal(SourceLine()) + " :kind '" + DebugName(kind) + "))";
      DecimalNoQuote(SourceLine());
      DebugNameNoQuote(kind);
      assert '"' !in tail;
      var r := "(tag :name " + ['"'] + (Name() + ['"'] + (" :source " + ['"'] + (SourceFile() + ['"'] + tail)));
      if '"' !in Name() && '"' !in SourceFile() then
        ElispPieces("(tag :name ", Name(), " :source ", SourceFile(), tail);
        r
      else r
    }
  }

  /** The pieces of a `to_elisp` layout between its double quotes. */
  lemma ElispPieces(a: string, name: string, c: string, file: string, e: string)
    requires '"' !in a && '"' !in name && '"' !in c && '"' !in file && '"' !in e
    ensures var r := Split(a + ['"'] + (name + ['"'] + (c + ['"'] + (file + ['"'] + e))), '"');
      |r| == 5 && r[0] == a && r[1] == name && r[2] == c && r[3] == file && r[4] == e
  {
    var r := SplitFive(a, name, c, file, e, '"');
  }

  /** `TagDefinition::new`: an empty file record. */
  function Blank(): (t: TagDefinition)
    ensures t.Valid() && t.Name() == "" && t.SourceFile() == "" && t.Declaration() == Ok("")
    ensures t.kind == File && t.SourceLine() == 0 && t.Fields() == []
  {
    SplitRangesTile("", '\t');
    TagDefinition("", Span(0, 0), Span(0, 0), (Span(0, 0), 0), File, 0)
  }

  /** `TagDefinition::new_file`: a file record whose name is the whole path;
      unlike a parsed record, its line number is 0. */
  function NewFile(filePath: string): (t: TagDefinition)
    ensures t.Valid() && t.Name() == filePath && t.SourceFile() == "" && t.Declaration() == Ok("")
    ensures t.kind == File && t.SourceLine() == 0 && t.Fields() == []
  {
    SplitRangesTile(filePath[|filePath|..], '\t');
    TagDefinition(filePath, Span(0, |filePath|), Span(0, 0), (Span(0, 0), 0), File, |filePath|)
  }

  /** The declaration range and the offset of the kind character. The whole
      line is searched: for a `/^…$/` address the range runs from just after
      `/^` to two characters before the first `;"`; otherwise it is empty.
      Either way the kind character is three past the first `;"`. */
  function ParseDeclaration(line: string): (r: Result<(Span, nat)>)
    ensures r.Ok? ==> Find(line, ";\"").Some? && r.value.1 == Find(line, ";\"").value + 3
  {
    match Find(line, "/^")
    case None =>
      (match Find(line, ";\"")
       case None => Panic(NoAddressEnd)
       case Some(end) => Ok((Span(0, 0), end + 3)))
    case Some(v) =>
      match Find(line, ";\"")
      case None => Panic(NoAddressEnd)
      case Some(end) =>
        if end < 2 then Panic(DeclarationEndUnderflow)
        else Ok((Span(v + 2, end - 2), end + 3))
  }

  /** Offsets of every occurrence of `sep`, in increasing order (what
      `match_indices` collects for a one-character separator). */
  function SeparatorIndices(s: string, sep: char): (r: seq<nat>)
    ensures forall k :: 0 <= k < |r| ==> r[k] < |s| && s[r[k]] == sep
  {
    if |s| == 0 then []
    else SeparatorIndices(s[..|s| - 1], sep) + (if s[|s| - 1] == sep then [|s| - 1] else [])
  }

  /** The offsets are listed in increasing order. */
  lemma {:induction false} SeparatorIndicesSorted(s: string, sep: char)
    ensures forall k, l :: 0 <= k < l < |SeparatorIndices(s, sep)| ==>
      SeparatorIndices(s, sep)[k] < SeparatorIndices(s, sep)[l]
  {
    if |s| > 0 {
      var p := SeparatorIndices(s[..|s| - 1], sep);
      var r := SeparatorIndices(s, sep);
      SeparatorIndicesSorted(s[..|s| - 1], sep);
      assert r == p + (if s[|s| - 1] == sep then [|s| - 1] else []);
      forall k, l | 0 <= k < l < |r| ensures r[k] < r[l] {
        assert r[k] == p[k] && p[k] < |s| - 1;
        if l < |p| {
          assert r[l] == p[l] && p[k] < p[l];
        } else {
          assert r[l] == |s| - 1;
        }
      }
    }
  }

  /** Every separator is listed. */
  lemma {:induction false} SeparatorIndicesComplete(s: string, sep: char, i: nat)
    requires i < |s| && s[i] == sep
    ensures i in SeparatorIndices(s, sep)
  {
    if i < |s| - 1 {
      SeparatorIndicesComplete(s[..|s| - 1], sep, i);
    }
  }

  /** The ranges `tuples_from_split` returns: none for an empty value;
      otherwise range `k` runs from separator `k - 1` (or 0 for the first)
      to separator `k` (or the end of the value for the last). */
  function SplitRanges(value: string, sep: char): seq<Span> {
    var idx := SeparatorIndices(value, sep);
    if |value| == 0 then []
    else seq(|idx| + 1, k requires 0 <= k <= |idx| =>
               Span(if k == 0 then 0 else idx[k - 1], if k == |idx| then |value| else idx[k]))
  }

  /** Range `k` runs from separator `k - 1` (or 0) to separator `k` (or the end). */
  lemma SplitRangesAt(value: string, sep: char, k: nat)
    requires |value| > 0 && k <= |SeparatorIndices(value, sep)|
    ensures var idx := SeparatorIndices(value, sep);
      |SplitRanges(value, sep)| == |idx| + 1
      && SplitRanges(value, sep)[k] == Span(if k == 0 then 0 else idx[k - 1], if k == |idx| then |value| else idx[k])
  {
  }

  /** The ranges cover the value: none for an empty value; otherwise one
      more range than there are separators, from 0 to the end, each one a
      slice of the value. */
  lemma SplitRangesTile(value: string, sep: char)
    ensures |value| == 0 ==> SplitRanges(value, sep) == []
    ensures |value| > 0 ==> |SplitRanges(value, sep)| == |SeparatorIndices(value, sep)| + 1
    ensures var r := SplitRanges(value, sep);
      |r| > 0 ==> r[0].start == 0 && r[|r| - 1].end == |value|
    ensures var r := SplitRanges(value, sep);
      forall k :: 0 <= k < |r| ==> r[k].start <= r[k].end <= |value|
  {
    if |value| > 0 {
      var idx := SeparatorIndices(value, sep);
      SeparatorIndicesSorted(value, sep);
      var r := SplitRanges(value, sep);
      forall k | 0 <= k < |r| ensures r[k].start <= r[k].end <= |value| {
        SplitRangesAt(value, sep, k);
        if 0 < k < |idx| {
          var j := k - 1;
          assert idx[j] < idx[k];
        }
      }
    }
  }

  /** Each range starts where the previous one ends, and every range after
      the first starts at a separator. */
  lemma SplitRangesContiguous(value: string, sep: char)
    ensures var r := SplitRanges(value, sep);
      && (forall k :: 0 < k < |r| ==> value[r[k].start] == sep)
      && (forall j, k :: 0 <= j && k == j + 1 && k < |r| ==> r[k].start == r[j].end)
  {
  }

  /** A separator only ever sits at the start of a range after the first. */
  lemma SplitRangesSeparators(value: string, sep: char, k: nat, i: nat)
    requires k < |SplitRanges(value, sep)|
    requires SplitRanges(value, sep)[k].start <= i < SplitRanges(value, sep)[k].end
    requires value[i] == sep
    ensures k > 0 && i == SplitRanges(value, sep)[k].start
  {
    var idx := SeparatorIndices(value, sep);
    var n := |idx|;
    SeparatorIndicesSorted(value, sep);
    SplitRangesTile(value, sep);
    SplitRangesAt(value, sep, k);
    SeparatorIndicesComplete(value, sep, i);
    var m :| 0 <= m < n && idx[m] == i;
    assert forall a, b :: 0 <= a <= b < n ==> idx[a] <= idx[b];
  }

  /** `tuples_from_split`: builds the ranges with a loop that pushes one
      range per gap between consecutive separators. */
  method TuplesFromSplit(value: string, sep: char) returns (slices: seq<Span>)
    ensures slices == SplitRanges(value, sep)
  {
    var separatorIndices := SeparatorIndices(value, sep);
    if |separatorIndices| == 0 {
      if |value| == 0 {
        return [];
      }
      return [Span(0, |value|)];
    }
    slices := [Span(0, separatorIndices[0])];
    var n := |separatorIndices|;
    for i := 0 to n - 1
      invariant |slices| == i + 1 && slices[0] == Span(0, separatorIndices[0])
      invariant forall k :: 1 <= k <= i ==> slices[k] == Span(separatorIndices[k - 1], separatorIndices[k])
    {
      slices := slices + [Span(separatorIndices[i], separatorIndices[i + 1])];
    }
    slices := slices + [Span(separatorIndices[n - 1], |value|)];
  }

  /** The extension-field ranges of a line whose fields start at `start`:
      the tab-split ranges of the rest of the line, moved to line offsets. */
  function FieldSpans(line: string, start: nat): (r: seq<Span>)
    requires start <= |line|
    ensures forall k :: 0 <= k < |r| ==> r[k].start <= r[k].end <= |line|
  {
    var ranges := SplitRanges(line[start..], '\t');
    SplitRangesTile(line[start..], '\t');
    seq(|ranges|, k requires 0 <= k < |ranges| => Span(ranges[k].start + start, ranges[k].end + start))
  }

  /** A field whose text starts with `line:`. */
  predicate IsLineField(line: string, f: Span) {
    f.start <= f.end <= |line| && StartsWith(line[f.start..f.end], "line:")
  }

  /** The source line: the number after the colon of the first `line:`
      field, or 1 when there is none; a value that is not a usize panics. */
  function LocationLine(line: string, fields: seq<Span>): Result<nat> {
    match FirstWhere(fields, f => IsLineField(line, f))
    case None => Ok(1)
    case Some(i) =>
      var slice := line[fields[i].start..fields[i].end];
      assert OccursAt(slice, ":", 4) by { assert slice[4..5] == slice[..5][4..5]; }
      match Find(slice, ":")
      case None => assert false; Panic(BadLineNumber)
      case Some(colon) =>
        match ParseUsize(slice[colon + 1..])
        case None => Panic(BadLineNumber)
        case Some(n) => Ok(n)
  }

  /** `TagDefinition::from_string`: parses `NAME\tFILE\tADDRESS;"\tKIND\tFIELDS`,
      panicking wherever the source unwraps or slices past the end. The name
      runs up to the first tab and the source file up to the next one. */
  function FromString(line: string): (r: Result<TagDefinition>)
    ensures r.Ok? ==> r.value.originalLine == line && r.value.Valid()
  {
    match Find(line, "\t")
    case None => Panic(NoNameTab)
    case Some(nameEnd) => FromFileTab(line, nameEnd)
  }

  /** The rest of `from_string` once the first tab is found at `nameEnd`:
      the source file runs from after it to the next tab. */
  function FromFileTab(line: string, nameEnd: nat): (r: Result<TagDefinition>)
    requires nameEnd < |line|
    ensures r.Ok? ==> r.value.originalLine == line && r.value.Valid()
  {
    match Find(line[nameEnd + 1..], "\t")
    case None => Panic(NoFileTab)
    case Some(offset) => FromAddress(line, Span(0, nameEnd), Span(nameEnd + 1, offset + (nameEnd + 1)))
  }

  /** The rest of `from_string` once the name and file ranges are known: the
      address, then the kind character and the character after it. */
  function FromAddress(line: string, name: Span, file: Span): (r: Result<TagDefinition>)
    requires name.start <= name.end <= |line| && file.start <= file.end <= |line|
    ensures r.Ok? ==> r.value.originalLine == line && r.value.Valid()
    ensures r.Ok? ==> r.value.name == name && r.value.location.0 == file
    ensures r.Ok? ==> ParseDeclaration(line).Ok? && ParseDeclaration(line).value.1 + 2 <= |line|
    ensures r.Ok? ==> r == FromFields(line, name, file, ParseDeclaration(line).value.0, ParseDeclaration(line).value.1)
  {
    match ParseDeclaration(line)
    case Panic(f) => Panic(f)
    case Ok(parsed) =>
      var kindAt := parsed.1;
      if kindAt >= |line| then Panic(NoKindChar)
      else
        var cursor := kindAt + 1;
        if cursor + 1 > |line| then Panic(NoFieldsStart)
        else FromFields(line, name, file, parsed.0, kindAt)
  }

  /** The last step of `from_string`: the fields after the kind character
      and the source line read from them. */
  function FromFields(line: string, name: Span, file: Span, declaration: Span, kindAt: nat): (r: Result<TagDefinition>)
    requires name.start <= name.end <= |line| && file.start <= file.end <= |line|
    requires kindAt + 2 <= |line|
    ensures r.Ok? ==> r.value.originalLine == line && r.value.Valid()
    ensures r.Ok? <==> LocationLine(line, FieldSpans(line, kindAt + 2)).Ok?
    ensures r.Ok? ==> && r.value.name == name && r.value.location.0 == file
                      && r.value.declaration == declaration
                      && r.value.kind == KindFromChar(line[kindAt])
                      && r.value.fieldsStart == kindAt + 2
                      && Ok(r.value.location.1) == LocationLine(line, FieldSpans(line, kindAt + 2))
  {
    match LocationLine(line, FieldSpans(line, kindAt + 2))
    case Panic(f) => Panic(f)
    case Ok(sourceLine) =>
      Ok(TagDefinition(line, name, declaration, (file, sourceLine), KindFromChar(line[kindAt]), kindAt + 2))
  }

  /** The text before the first tab, or all of it when there is none. */
  function UpToTab(s: string): (r: string)
    ensures r <= s && '\t' !in r
    ensures |r| < |s| ==> s[|r|] == '\t'
  {
    FindChar(s, '\t');
    match Find(s, "\t")
    case None => s
    case Some(i) => s[..i]
  }

  /** Field range `k` is range `k` of the rest of the line, moved by `start`. */
  lemma FieldSpansAt(line: string, start: nat)
    requires start <= |line|
    ensures var r := SplitRanges(line[start..], '\t');
      var fs := FieldSpans(line, start);
      |fs| == |r| && forall k :: 0 <= k < |fs| ==> fs[k] == Span(r[k].start + start, r[k].end + start)
  {
  }

  /** The field ranges of a line whose fields start at `start` tile the rest
      of the line: none when nothing follows `start`; otherwise the first
      starts at `start`, the last ends at the end of the line, each later one
      starts at a tab, where the previous one ends. */
  lemma FieldSpansTile(line: string, start: nat)
    requires start <= |line|
    ensures var fs := FieldSpans(line, start);
      && (start == |line| ==> fs == [])
      && (start < |line| ==> |fs| >= 1 && fs[0].start == start && fs[|fs| - 1].end == |line|)
      && (forall k :: 0 < k < |fs| ==> line[fs[k].start] == '\t')
      && (forall j, k :: 0 <= j && k == j + 1 && k < |fs| ==> fs[k].start == fs[j].end)
  {
    var value := line[start..];
    var r := SplitRanges(value, '\t');
    SplitRangesTile(value, '\t');
    SplitRangesContiguous(value, '\t');
    FieldSpansAt(line, start);
    var fs := FieldSpans(line, start);
    forall k | 0 < k < |fs| ensures line[fs[k].start] == '\t' {
      assert value[r[k].start] == line[fs[k].start];
    }
  }

  /** A tab inside a field range can only be the first character of a range
      after the first. */
  lemma FieldSpansTabs(line: string, start: nat)
    requires start <= |line|
    ensures var fs := FieldSpans(line, start);
      forall k, i :: 0 <= k < |fs| && fs[k].start <= i < fs[k].end && line[i] == '\t' ==> k > 0 && i == fs[k].start
  {
    var value := line[start..];
    FieldSpansAt(line, start);
    var fs := FieldSpans(line, start);
    forall k, i | 0 <= k < |fs| && fs[k].start <= i < fs[k].end && line[i] == '\t'
      ensures k > 0 && i == fs[k].start
    {
      assert value[i - start] == line[i];
      SplitRangesSeparators(value, '\t', k, i - start);
    }
  }

  /** `UpToTab` stops at the first tab: any tab-free prefix followed by a
      tab or by the end is the result. */
  lemma UpToTabLength(s: string, n: nat)
    requires n <= |s| && '\t' !in s[..n] && (n == |s| || s[n] == '\t')
    ensures UpToTab(s) == s[..n]
  {
    var r := UpToTab(s);
    assert forall j :: 0 <= j < n ==> s[j] != '\t' by {
      forall j | 0 <= j < n ensures s[j] != '\t' {
        assert s[..n][j] == s[j];
      }
    }
    assert forall j :: 0 <= j < |r| ==> s[j] != '\t' by {
      forall j | 0 <= j < |r| ensures s[j] != '\t' {
        assert r[j] == s[j];
      }
    }
  }

  /** No separator comes before the first listed one. */
  lemma BeforeFirstSeparator(value: string, sep: char, j: nat)
    requires j < |value|
    requires var idx := SeparatorIndices(value, sep); |idx| == 0 || j < idx[0]
    ensures value[j] != sep
  {
    if value[j] == sep {
      SeparatorIndicesComplete(value, sep, j);
      SeparatorIndicesSorted(value, sep);
      assert false;
    }
  }

  /** The first tab-split range of a non-empty value is its text up to the
      first tab. */
  lemma FirstRangeUpToTab(value: string)
    requires |value| > 0
    ensures |SplitRanges(value, '\t')| >= 1
    ensures SplitRanges(value, '\t')[0] == Span(0, |UpToTab(value)|)
  {
    SplitRangesAt(value, '\t', 0);
    FirstSeparatorUpToTab(value, '\t');
  }

  /** `UpToTab` stops at the first listed tab, or at the end without one. */
  lemma FirstSeparatorUpToTab(value: string, tab: char)
    requires tab == '\t'
    ensures |SeparatorIndices(value, tab)| == 0 ==> UpToTab(value) == value
    ensures |SeparatorIndices(value, tab)| > 0 ==> UpToTab(value) == value[..SeparatorIndices(value, tab)[0]]
  {
    var idx := SeparatorIndices(value, tab);
    var n := if |idx| == 0 then |value| else idx[0];
    forall j | 0 <= j < n ensures value[..n][j] != tab {
      BeforeFirstSeparator(value, tab, j);
    }
    assert tab !in value[..n];
    UpToTabLength(value, n);
    assert value[..|value|] == value;
  }

  /** The first field range is exactly the text from `start` up to the next
      tab. */
  lemma FirstFieldSpan(line: string, start: nat)
    requires start < |line|
    ensures |FieldSpans(line, start)| >= 1
    ensures FieldSpans(line, start)[0] == Span(start, start + |UpToTab(line[start..])|)
  {
    FieldSpansAt(line, start);
    FirstRangeUpToTab(line[start..]);
  }

  /** Past the first tab, `from_string` is `FromFileTab`. */
  lemma FromStringTab(line: string, nameEnd: nat)
    requires Find(line, "\t") == Some(nameEnd)
    ensures nameEnd < |line| && FromString(line) == FromFileTab(line, nameEnd)
  {
  }

  /** Past the second tab, `FromFileTab` succeeds exactly when `FromAddress`
      does on the two ranges. */
  lemma FromFileTabOk(line: string, nameEnd: nat, fileLength: nat)
    requires nameEnd < |line|
    requires Find(line[nameEnd + 1..], "\t") == Some(fileLength)
    ensures fileLength + (nameEnd + 1) <= |line|
    ensures FromFileTab(line, nameEnd).Ok? == FromAddress(line, Span(0, nameEnd), Span(nameEnd + 1, fileLength + (nameEnd + 1))).Ok?
  {
  }

  /** Past the second tab, every part of the record `FromFileTab` returns is
      the one `FromAddress` builds from the two ranges. */
  lemma FromFileTabParts(line: string, nameEnd: nat, fileLength: nat)
    requires nameEnd < |line|
    requires Find(line[nameEnd + 1..], "\t") == Some(fileLength)
    requires fileLength + (nameEnd + 1) <= |line|
    ensures FromFileTab(line, nameEnd).Ok? ==>
      FromFileTab(line, nameEnd).value.name == FromAddress(line, Span(0, nameEnd), Span(nameEnd + 1, fileLength + (nameEnd + 1))).value.name
    ensures FromFileTab(line, nameEnd).Ok? ==>
      FromFileTab(line, nameEnd).value.declaration == FromAddress(line, Span(0, nameEnd), Span(nameEnd + 1, fileLength + (nameEnd + 1))).value.declaration
    ensures FromFileTab(line, nameEnd).Ok? ==>
      FromFileTab(line, nameEnd).value.location.0 == FromAddress(line, Span(0, nameEnd), Span(nameEnd + 1, fileLength + (nameEnd + 1))).value.location.0
    ensures FromFileTab(line, nameEnd).Ok? ==>
      FromFileTab(line, nameEnd).value.location.1 == FromAddress(line, Span(0, nameEnd), Span(nameEnd + 1, fileLength + (nameEnd + 1))).value.location.1
    ensures FromFileTab(line, nameEnd).Ok? ==>
      FromFileTab(line, nameEnd).value.kind == FromAddress(line, Span(0, nameEnd), Span(nameEnd + 1, fileLength + (nameEnd + 1))).value.kind
    ensures FromFileTab(line, nameEnd).Ok? ==>
      FromFileTab(line, nameEnd).value.fieldsStart == FromAddress(line, Span(0, nameEnd), Span(nameEnd + 1, fileLength + (nameEnd + 1))).value.fieldsStart
  {
  }

  /** A line `from_string` accepts has a first tab and a later second one. */
  lemma FromStringSplit(line: string) returns (nameEnd: nat, fileLength: nat)
    requires FromString(line).Ok?
    ensures Find(line, "\t") == Some(nameEnd)
    ensures Find(line[nameEnd + 1..], "\t") == Some(fileLength)
    ensures nameEnd < |line| && fileLength + (nameEnd + 1) <= |line|
  {
    nameEnd := Find(line, "\t").value;
    FromStringTab(line, nameEnd);
    fileLength := Find(line[nameEnd + 1..], "\t").value;
    FromFileTabOk(line, nameEnd, fileLength);
  }

  /** With both tabs found, `from_string` succeeds exactly when
      `FromAddress` does with the name range ending at the first tab and the
      source-file range ending at the second. */
  lemma FromStringOk(line: string, nameEnd: nat, fileLength: nat)
    requires Find(line, "\t") == Some(nameEnd)
    requires nameEnd < |line|
    requires Find(line[nameEnd + 1..], "\t") == Some(fileLength)
    requires fileLength + (nameEnd + 1) <= |line|
    ensures FromString(line).Ok? == FromAddress(line, Span(0, nameEnd), Span(nameEnd + 1, fileLength + (nameEnd + 1))).Ok?
  {
    FromStringTab(line, nameEnd);
    FromFileTabOk(line, nameEnd, fileLength);
  }

  /** With both tabs found, the record `from_string` returns is, part by
      part, the one `FromAddress` builds from those ranges. */
  lemma FromStringParts(line: string, nameEnd: nat, fileLength: nat)
    requires Find(line, "\t") == Some(nameEnd)
    requires nameEnd < |line|
    requires Find(line[nameEnd + 1..], "\t") == Some(fileLength)
    requires fileLength + (nameEnd + 1) <= |line|
    ensures FromString(line).Ok? ==>
      FromString(line).value.name == FromAddress(line, Span(0, nameEnd), Span(nameEnd + 1, fileLength + (nameEnd + 1))).value.name
    ensures FromString(line).Ok? ==>
      FromString(line).value.declaration == FromAddress(line, Span(0, nameEnd), Span(nameEnd + 1, fileLength + (nameEnd + 1))).value.declaration
    ensures FromString(line).Ok? ==>
      FromString(line).value.location.0 == FromAddress(line, Span(0, nameEnd), Span(nameEnd + 1, fileLength + (nameEnd + 1))).value.location.0
    ensures FromString(line).Ok? ==>
      FromString(line).value.location.1 == FromAddress(line, Span(0, nameEnd), Span(nameEnd + 1, fileLength + (nameEnd + 1))).value.location.1
    ensures FromString(line).Ok? ==>
      FromString(line).value.kind == FromAddress(line, Span(0, nameEnd), Span(nameEnd + 1, fileLength + (nameEnd + 1))).value.kind
    ensures FromString(line).Ok? ==>
      FromString(line).value.fieldsStart == FromAddress(line, Span(0, nameEnd), Span(nameEnd + 1, fileLength + (nameEnd + 1))).value.fieldsStart
  {
    FromStringTab(line, nameEnd);
    FromFileTabParts(line, nameEnd, fileLength);
  }

  lemma FromStringRanges(line: string)
    requires FromString(line).Ok?
    ensures Find(line, "\t").Some?
    ensures Find(line[Find(line, "\t").value + 1..], "\t").Some?
    ensures FromString(line).value.name == Span(0, Find(line, "\t").value)
    ensures FromString(line).value.location.0
      == Span(Find(line, "\t").value + 1, Find(line[Find(line, "\t").value + 1..], "\t").value + (Find(line, "\t").value + 1))
  {
    var nameEnd, fileLength := FromStringSplit(line);
    FromStringSpans(line, nameEnd, fileLength);
  }

  /** The name and file ranges of a parsed line, given its two tabs. */
  lemma FromStringSpans(line: string, nameEnd: nat, fileLength: nat)
    requires FromString(line).Ok?
    requires Find(line, "\t") == Some(nameEnd) && nameEnd < |line|
    requires Find(line[nameEnd + 1..], "\t") == Some(fileLength)
    requires fileLength + (nameEnd + 1) <= |line|
    ensures FromString(line).value.name == Span(0, nameEnd)
    ensures FromString(line).value.location.0 == Span(nameEnd + 1, fileLength + (nameEnd + 1))
  {
    FromStringParts(line, nameEnd, fileLength);
  }

  lemma FromStringAddress(line: string)
    requires FromString(line).Ok?
    ensures ParseDeclaration(line).Ok? && Find(line, ";\"").Some?
    ensures Find(line, ";\"").value + 5 <= |line|
    ensures FromString(line).value.declaration == ParseDeclaration(line).value.0
  {
    var nameEnd, fileLength := FromStringSplit(line);
    FromStringOk(line, nameEnd, fileLength);
    FromStringParts(line, nameEnd, fileLength);
  }

  lemma FromStringKindAndFields(line: string)
    requires FromString(line).Ok?
    ensures ParseDeclaration(line).Ok? && Find(line, ";\"").Some?
    ensures Find(line, ";\"").value + 5 <= |line|
    ensures FromString(line).value.kind == KindFromChar(line[Find(line, ";\"").value + 3])
    ensures FromString(line).value.fieldsStart == Find(line, ";\"").value + 5
  {
    var nameEnd, fileLength := FromStringSplit(line);
    FromStringOk(line, nameEnd, fileLength);
    FromStringParts(line, nameEnd, fileLength);
  }

  lemma FromStringLocation(line: string)
    requires FromString(line).Ok?
    ensures LocationLine(line, FromString(line).value.Fields()) == Ok(FromString(line).value.location.1)
  {
    var nameEnd, fileLength := FromStringSplit(line);
    FromStringOk(line, nameEnd, fileLength);
    FromStringParts(line, nameEnd, fileLength);
  }

  /** Two tabs at `i < j` split the line's prefix up to `j` into the text
      before `i`, a tab, the text between, and a tab. */
  lemma TabbedPrefix(line: string, i: nat, j: nat)
    requires i < j < |line| && line[i] == '\t' && line[j] == '\t'
    ensures line[..i] + "\t" + line[i + 1..j] + "\t" == line[..j + 1]
  {
    assert line[..j + 1] == line[..i] + line[i..i + 1] + line[i + 1..j] + line[j..j + 1];
  }

  /** The name is exactly the text before the first tab. */
  lemma FromStringName(line: string)
    requires FromString(line).Ok?
    ensures var t := FromString(line).value;
      '\t' !in t.Name() && t.Name() + "\t" <= line
  {
    FromStringRanges(line);
    NameBeforeTab(line, FromString(line).value, Find(line, "\t").value);
  }

  lemma NameBeforeTab(line: string, t: TagDefinition, nameEnd: nat)
    requires Find(line, "\t") == Some(nameEnd)
    requires t.originalLine == line && t.Valid() && t.name == Span(0, nameEnd)
    ensures '\t' !in t.Name() && t.Name() + "\t" <= line
  {
    FindChar(line, '\t');
    assert line[..nameEnd] + "\t" == line[..nameEnd + 1];
  }

  /** The source file is exactly the text between the first and second tabs. */
  lemma FromStringSourceFile(line: string)
    requires FromString(line).Ok?
    ensures var t := FromString(line).value;
      '\t' !in t.SourceFile() && t.Name() + "\t" + t.SourceFile() + "\t" <= line
  {
    FromStringRanges(line);
    var nameEnd := Find(line, "\t").value;
    var rest := line[nameEnd + 1..];
    var off := Find(rest, "\t").value;
    FindChar(line, '\t');
    FindChar(rest, '\t');
    SourceFileBetweenTabs(line, FromString(line).value, nameEnd, off + (nameEnd + 1));
  }

  lemma SourceFileBetweenTabs(line: string, t: TagDefinition, nameEnd: nat, fileEnd: nat)
    requires nameEnd < fileEnd < |line| && line[nameEnd] == '\t' && line[fileEnd] == '\t'
    requires '\t' !in line[..nameEnd] && '\t' !in line[nameEnd + 1..][..fileEnd - nameEnd - 1]
    requires t.originalLine == line && t.Valid()
    requires t.name == Span(0, nameEnd) && t.location.0 == Span(nameEnd + 1, fileEnd)
    ensures '\t' !in t.SourceFile() && t.Name() + "\t" + t.SourceFile() + "\t" <= line
  {
    assert t.SourceFile() == line[nameEnd + 1..][..fileEnd - nameEnd - 1];
    TabbedPrefix(line, nameEnd, fileEnd);
  }

  /** In both address forms the kind character sits three past the first
      `;"`, with at least one more character after it. */
  lemma FromStringKind(line: string)
    requires FromString(line).Ok?
    ensures Find(line, ";\"").Some?
    ensures var q := Find(line, ";\"").value;
      q + 5 <= |line| && FromString(line).value.kind == KindFromChar(line[q + 3])
  {
    FromStringKindAndFields(line);
  }

  /** Without `/^` the declaration is empty; with it, the declaration runs
      from just after `/^` to two characters before the first `;"` (dropping
      the `$/` that normally sits there), and when those two offsets cross
      reading the declaration panics. */
  lemma FromStringDeclaration(line: string)
    requires FromString(line).Ok?
    ensures Find(line, "/^").None? ==> FromString(line).value.Declaration() == Ok("")
    ensures Find(line, "/^").Some? ==>
      var v := Find(line, "/^").value;
      var q := Find(line, ";\"").value;
      && q >= 2
      && (v + 4 <= q ==> FromString(line).value.Declaration() == Ok(line[v + 2..q - 2]))
      && (q < v + 4 ==> FromString(line).value.Declaration() == Panic(DeclarationOutOfRange))
  {
    FromStringAddress(line);
    AddressDeclaration(line, FromString(line).value);
  }

  lemma AddressDeclaration(line: string, t: TagDefinition)
    requires ParseDeclaration(line).Ok?
    requires t.originalLine == line && t.declaration == ParseDeclaration(line).value.0
    ensures Find(line, "/^").None? ==> t.Declaration() == Ok("")
    ensures Find(line, "/^").Some? ==>
      var v := Find(line, "/^").value;
      var q := Find(line, ";\"").value;
      && q >= 2
      && (v + 4 <= q ==> t.Declaration() == Ok(line[v + 2..q - 2]))
      && (q < v + 4 ==> t.Declaration() == Panic(DeclarationOutOfRange))
  {
  }

  /** Every field range after the first starts at a tab. */
  lemma FieldStartsAtTab(line: string, start: nat, k: nat)
    requires start <= |line| && 0 < k < |FieldSpans(line, start)|
    ensures FieldSpans(line, start)[k].start < |line| && line[FieldSpans(line, start)[k].start] == '\t'
  {
    var value := line[start..];
    var r := SplitRanges(value, '\t');
    FieldSpansAt(line, start);
    SplitRangesContiguous(value, '\t');
    assert value[r[k].start] == '\t';
  }

  /** A field after the first starts with its tab, so it is never a
      `line:` field. */
  lemma OnlyFirstFieldIsLineField(line: string, start: nat)
    requires start <= |line|
    ensures var fs := FieldSpans(line, start);
      forall k :: 0 < k < |fs| ==> !IsLineField(line, fs[k])
  {
    var fs := FieldSpans(line, start);
    forall k | 0 < k < |fs| ensures !IsLineField(line, fs[k]) {
      FieldStartsAtTab(line, start, k);
      TabFirstNotLineField(line, fs[k]);
    }
  }

  /** A range whose first character is a tab is not a `line:` field. */
  lemma TabFirstNotLineField(line: string, f: Span)
    requires f.start <= f.end <= |line| && f.start < |line| && line[f.start] == '\t'
    ensures !IsLineField(line, f)
  {
    if f.start < f.end {
      assert line[f.start..f.end][0] == '\t';
    }
  }

  /** The source line is the number after `line:` when the first field is a
      `line:` field, and 1 otherwise. */
  lemma FromStringSourceLine(line: string)
    requires FromString(line).Ok?
    ensures var q := Find(line, ";\"").value;
      var first := UpToTab(line[q + 5..]);
      && (StartsWith(first, "line:") ==> ParseUsize(first[5..]) == Some(FromString(line).value.SourceLine()))
      && (!StartsWith(first, "line:") ==> FromString(line).value.SourceLine() == 1)
  {
    FromStringKindAndFields(line);
    FromStringLocation(line);
    LocationFromFirstField(line, Find(line, ";\"").value + 5);
  }

  /** The line number read from the fields starting at `start` depends only
      on the text from `start` to the next tab. */
  lemma LocationFromFirstField(line: string, start: nat)
    requires start <= |line|
    ensures var first := UpToTab(line[start..]);
      && (StartsWith(first, "line:") ==>
            LocationLine(line, FieldSpans(line, start)) == (match ParseUsize(first[5..])
                                                            case None => Panic(BadLineNumber)
                                                            case Some(n) => Ok(n)))
      && (!StartsWith(first, "line:") ==> LocationLine(line, FieldSpans(line, start)) == Ok(1))
  {
    var fs := FieldSpans(line, start);
    var first := UpToTab(line[start..]);
    OnlyFirstFieldIsLineField(line, start);
    if start < |line| {
      FirstFieldSpan(line, start);
      assert line[fs[0].start..fs[0].end] == first;
      LineFieldValue(line, fs);
    } else {
      FieldSpansTile(line, start);
    }
  }

  /** When the first field is the only candidate, the line number is parsed
      from the text after its colon. */
  lemma LineFieldValue(line: string, fields: seq<Span>)
    requires |fields| >= 1 && fields[0].start <= fields[0].end <= |line|
    requires forall k :: 0 < k < |fields| ==> !IsLineField(line, fields[k])
    ensures var first := line[fields[0].start..fields[0].end];
      && (StartsWith(first, "line:") ==>
            LocationLine(line, fields) == (match ParseUsize(first[5..])
                                           case None => Panic(BadLineNumber)
                                           case Some(n) => Ok(n)))
      && (!StartsWith(first, "line:") ==> LocationLine(line, fields) == Ok(1))
  {
    var first := line[fields[0].start..fields[0].end];
    if StartsWith(first, "line:") {
      assert first[4..5] == ":";
      assert forall j :: 0 <= j < 4 ==> !OccursAt(first, ":", j) by {
        forall j | 0 <= j < 4 ensures !OccursAt(first, ":", j) {
          assert first[j] == "line:"[j];
        }
      }
      assert Find(first, ":") == Some(4) by {
        assert OccursAt(first, ":", 4);
      }
    }
  }

  /** The lines `from_string` accepts: two tabs, a `;"` (at offset 2 or
      later when the address is a `/^` pattern) followed by at least five
      characters counting itself, and, when the first extension field is a
      `line:` field, a usize after its colon. */
  predicate WellFormedLine(line: string) {
    && |SeparatorIndices(line, '\t')| >= 2
    && Find(line, ";\"").Some?
    && var q := Find(line, ";\"").value;
    && (Find(line, "/^").Some? ==> q >= 2)
    && q + 5 <= |line|
    && var first := UpToTab(line[q + 5..]);
    && (StartsWith(first, "line:") ==> ParseUsize(first[5..]).Some?)
  }

  /** Two different members make a sequence of at least two elements. */
  lemma TwoMembers(s: seq<nat>, a: nat, b: nat)
    requires a in s && b in s && a != b
    ensures |s| >= 2
  {
    var i :| 0 <= i < |s| && s[i] == a;
    var j :| 0 <= j < |s| && s[j] == b;
    assert i != j;
  }

  /** A line with two tabs has a tab after its first one. */
  lemma SecondTab(line: string)
    requires |SeparatorIndices(line, '\t')| >= 2
    ensures Find(line, "\t").Some?
    ensures var nameEnd := Find(line, "\t").value;
      nameEnd < |line| && '\t' in line[nameEnd + 1..]
  {
    var idx := SeparatorIndices(line, '\t');
    SeparatorIndicesSorted(line, '\t');
    FindChar(line, '\t');
    assert line[idx[0]] == '\t';
    var nameEnd := Find(line, "\t").value;
    assert forall j :: 0 <= j < nameEnd ==> line[j] != '\t' by {
      forall j | 0 <= j < nameEnd ensures line[j] != '\t' {
        assert line[..nameEnd][j] == line[j];
      }
    }
    assert line[nameEnd + 1..][idx[1] - nameEnd - 1] == '\t';
  }

  lemma FromFieldsOk(line: string, name: Span, file: Span, declaration: Span, kindAt: nat)
    requires name.start <= name.end <= |line| && file.start <= file.end <= |line|
    requires kindAt + 2 <= |line|
    requires LocationLine(line, FieldSpans(line, kindAt + 2)).Ok?
    ensures FromFields(line, name, file, declaration, kindAt).Ok?
  {
  }

  lemma FromAddressOk(line: string, name: Span, file: Span, q: nat)
    requires name.start <= name.end <= |line| && file.start <= file.end <= |line|
    requires ParseDeclaration(line).Ok?
    requires Find(line, ";\"") == Some(q) && q + 5 <= |line|
    requires LocationLine(line, FieldSpans(line, q + 5)).Ok?
    ensures FromAddress(line, name, file).Ok?
  {
    assert Find(line, ";\"").value + 3 == q + 3;
    FromFieldsOk(line, name, file, ParseDeclaration(line).value.0, q + 3);
  }

  /** `from_string` returns exactly on well-formed lines and panics on all
      others. */
  lemma FromStringOkIffWellFormed(line: string)
    ensures FromString(line).Ok? <==> WellFormedLine(line)
  {
    if FromString(line).Ok? {
      ParsedWellFormed(line);
    }
    if WellFormedLine(line) {
      WellFormedParses(line);
    }
  }

  /** A line `from_string` returns on has two tabs. */
  lemma ParsedTwoTabs(line: string)
    requires FromString(line).Ok?
    ensures |SeparatorIndices(line, '\t')| >= 2
  {
    FromStringRanges(line);
    var nameEnd := Find(line, "\t").value;
    var rest := line[nameEnd + 1..];
    var fileEnd := Find(rest, "\t").value + (nameEnd + 1);
    FindChar(line, '\t');
    FindChar(rest, '\t');
    assert line[fileEnd] == rest[fileEnd - nameEnd - 1];
    SeparatorIndicesComplete(line, '\t', nameEnd);
    SeparatorIndicesComplete(line, '\t', fileEnd);
    TwoMembers(SeparatorIndices(line, '\t'), nameEnd, fileEnd);
  }

  /** A line `from_string` returns on is well formed. */
  lemma ParsedWellFormed(line: string)
    requires FromString(line).Ok?
    ensures WellFormedLine(line)
  {
    ParsedTwoTabs(line);
    FromStringAddress(line);
    FromStringKindAndFields(line);
    FromStringLocation(line);
    LocationFromFirstField(line, Find(line, ";\"").value + 5);
  }

  /** `from_string` returns on a well-formed line. */
  lemma WellFormedParses(line: string)
    requires WellFormedLine(line)
    ensures FromString(line).Ok?
  {
    SecondTab(line);
    var nameEnd := Find(line, "\t").value;
    var rest := line[nameEnd + 1..];
    FindChar(rest, '\t');
    var fileEnd := Find(rest, "\t").value + (nameEnd + 1);
    var q := Find(line, ";\"").value;
    LocationFromFirstField(line, q + 5);
    FromAddressOk(line, Span(0, nameEnd), Span(nameEnd + 1, fileEnd), q);
    FromStringOk(line, nameEnd, Find(rest, "\t").value);
  }
}
