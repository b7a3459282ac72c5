/** Tag lines assembled from their parts, and what `FromString` reads back
    from them. The parser's unit-test lines are such lines:
    `TagLine("Test.h", "/d/tmp/Test.h", "1", 'F', "line:1")` and
    `TagLine("Test", "Test.h", "/^class Test {$/", 'c', "line:13")`. */
module TagLines {
  import opened Prelude
  import opened Text
  import opened TagKinds
  import opened TagDefinitions

  /** `NAME\tFILE\tADDRESS;"\tKIND\tFIELDS`, the layout ctags writes. */
  function TagLine(name: string, file: string, address: string, kind: char, fields: string): string {
    name + "\t" + file + "\t" + address + ";\"\t" + [kind] + "\t" + fields
  }

  /** The two tabs of a line `name\tfile\t...` are found where its name and
      file end. */
  lemma TagLineTabs(name: string, file: string, rest: string, line: string)
    requires line == name + "\t" + file + "\t" + rest
    requires '\t' !in name && '\t' !in file
    ensures Find(line, "\t") == Some(|name|)
    ensures Find(line[|name| + 1..], "\t") == Some(|file|)
    ensures line[..|name|] == name && line[|name| + 1..][..|file|] == file
  {
    assert line[..|name|] == name;
    FindCharAt(line, '\t', |name|);
    assert line[|name| + 1..] == file + "\t" + rest;
    assert line[|name| + 1..][..|file|] == file;
    FindCharAt(line[|name| + 1..], '\t', |file|);
  }

  /** The first `;"` of a line `head;"\tK\tfields` is the one after `head`
      when `head` holds no `;`; the kind character sits three past it and the
      fields begin five past it. */
  lemma TagLineTail(head: string, kind: char, fields: string, line: string)
    requires line == head + ";\"\t" + [kind] + "\t" + fields
    requires ';' !in head
    ensures Find(line, ";\"") == Some(|head|)
    ensures |line| == |head| + 5 + |fields|
    ensures line[|head| + 3] == kind && line[|head| + 5..] == fields
  {
    assert line[..|head|] == head;
    FindPairAt(line, ';', '"', |head|);
  }

  /** Parsing an assembled line gives back its name, source file, kind and
      line number, provided the name and file hold no tab and nothing before
      the address terminator holds a `;`. The line number is read from a
      leading `line:` field, and is 1 without one. */
  lemma FromStringTagLine(name: string, file: string, address: string, kind: char, fields: string, line: string)
    requires line == TagLine(name, file, address, kind, fields)
    requires '\t' !in name && '\t' !in file
    requires ';' !in name && ';' !in file && ';' !in address
    requires StartsWith(UpToTab(fields), "line:") ==> ParseUsize(UpToTab(fields)[5..]).Some?
    ensures FromString(line).Ok?
    ensures FromString(line).value.Name() == name
    ensures FromString(line).value.SourceFile() == file
    ensures FromString(line).value.Kind() == KindFromChar(kind)
    ensures FromString(line).value.SourceLine() ==
      (if StartsWith(UpToTab(fields), "line:") then ParseUsize(UpToTab(fields)[5..]).value else 1)
  {
    var q := |name| + |file| + |address| + 2;
    TagLineRegrouped(name, file, address, kind, fields, line);
    TagLineTabs(name, file, address + ";\"\t" + [kind] + "\t" + fields, line);
    TagLineHead(name, file, address);
    TagLineTail(name + "\t" + file + "\t" + address, kind, fields, line);
    TagLineReadBack(line, name, file, kind, fields, q);
  }

  /** The text before an assembled line's address terminator holds no `;`
      when none of its parts does. */
  lemma TagLineHead(name: string, file: string, address: string)
    requires ';' !in name && ';' !in file && ';' !in address
    ensures ';' !in name + "\t" + file + "\t" + address
  {
  }

  /** The two groupings of an assembled line the layout lemmas read. */
  lemma TagLineRegrouped(name: string, file: string, address: string, kind: char, fields: string, line: string)
    requires line == TagLine(name, file, address, kind, fields)
    ensures line == name + "\t" + file + "\t" + (address + ";\"\t" + [kind] + "\t" + fields)
    ensures line == (name + "\t" + file + "\t" + address) + ";\"\t" + [kind] + "\t" + fields
  {
  }

  /** What `FromString` reads back from a line laid out as an assembled
      one. */
  lemma TagLineReadBack(line: string, name: string, file: string, kind: char, fields: string, q: nat)
    requires |name| + |file| + 2 <= q
    requires Find(line, "\t") == Some(|name|)
    requires Find(line[|name| + 1..], "\t") == Some(|file|)
    requires Find(line, ";\"") == Some(q)
    requires |line| == q + 5 + |fields|
    requires line[..|name|] == name && line[|name| + 1..][..|file|] == file
    requires line[q + 3] == kind && line[q + 5..] == fields
    requires StartsWith(UpToTab(fields), "line:") ==> ParseUsize(UpToTab(fields)[5..]).Some?
    ensures FromString(line).Ok?
    ensures FromString(line).value.Name() == name
    ensures FromString(line).value.SourceFile() == file
    ensures FromString(line).value.Kind() == KindFromChar(kind)
    ensures FromString(line).value.SourceLine() ==
      (if StartsWith(UpToTab(fields), "line:") then ParseUsize(UpToTab(fields)[5..]).value else 1)
  {
    FieldsLocationOk(line, fields, q);
    TagLineOk(line, |name|, |file|, q);
    TagLineRanges(line, |name|, |file|);
    RecordNameAndFile(line, FromString(line).value, name, file);
    ReadBackKindAndLine(line, kind, fields, q);
  }

  lemma ReadBackKindAndLine(line: string, kind: char, fields: string, q: nat)
    requires FromString(line).Ok?
    requires Find(line, ";\"") == Some(q)
    requires q + 5 <= |line| && line[q + 3] == kind && line[q + 5..] == fields
    requires StartsWith(UpToTab(fields), "line:") ==> ParseUsize(UpToTab(fields)[5..]).Some?
    ensures FromString(line).value.Kind() == KindFromChar(kind)
    ensures FromString(line).value.SourceLine() ==
      (if StartsWith(UpToTab(fields), "line:") then ParseUsize(UpToTab(fields)[5..]).value else 1)
  {
    TagLineKindAndLocation(line, q);
    RecordSourceLine(line, FromString(line).value, fields, q);
  }

  lemma RecordNameAndFile(line: string, t: TagDefinition, name: string, file: string)
    requires t.originalLine == line && t.Valid()
    requires t.name == Span(0, |name|) && t.location.0 == Span(|name| + 1, |file| + (|name| + 1))
    requires line[..|name|] == name && line[|name| + 1..][..|file|] == file
    ensures t.Name() == name && t.SourceFile() == file
  {
    SliceOfSuffix(line, |name| + 1, |file|);
  }

  lemma FieldsLocationOk(line: string, fields: string, q: nat)
    requires q + 5 <= |line| && line[q + 5..] == fields
    requires StartsWith(UpToTab(fields), "line:") ==> ParseUsize(UpToTab(fields)[5..]).Some?
    ensures LocationLine(line, FieldSpans(line, q + 5)).Ok?
  {
    LocationFromFirstField(line, q + 5);
  }

  lemma RecordSourceLine(line: string, t: TagDefinition, fields: string, q: nat)
    requires q + 5 <= |line| && line[q + 5..] == fields
    requires Ok(t.location.1) == LocationLine(line, FieldSpans(line, q + 5))
    requires StartsWith(UpToTab(fields), "line:") ==> ParseUsize(UpToTab(fields)[5..]).Some?
    ensures t.SourceLine() == (if StartsWith(UpToTab(fields), "line:") then ParseUsize(UpToTab(fields)[5..]).value else 1)
  {
    LocationFromFirstField(line, q + 5);
  }

  lemma SliceOfSuffix(s: string, a: nat, n: nat)
    requires n + a <= |s|
    ensures s[a..][..n] == s[a..n + a]
  {
  }

  /** A line whose two tabs and address terminator are located, and whose
      line number reads, parses. */
  lemma TagLineOk(line: string, nameEnd: nat, fileLength: nat, q: nat)
    requires Find(line, "\t") == Some(nameEnd) && nameEnd < |line|
    requires Find(line[nameEnd + 1..], "\t") == Some(fileLength)
    requires fileLength + (nameEnd + 1) < q && q + 5 <= |line|
    requires Find(line, ";\"") == Some(q)
    requires LocationLine(line, FieldSpans(line, q + 5)).Ok?
    ensures FromString(line).Ok?
  {
    DeclarationOk(line, q);
    FromAddressOk(line, Span(0, nameEnd), Span(nameEnd + 1, fileLength + (nameEnd + 1)), q);
    FromStringOk(line, nameEnd, fileLength);
  }

  lemma TagLineRanges(line: string, nameEnd: nat, fileLength: nat)
    requires FromString(line).Ok?
    requires Find(line, "\t") == Some(nameEnd) && nameEnd < |line|
    requires Find(line[nameEnd + 1..], "\t") == Some(fileLength)
    requires fileLength + (nameEnd + 1) <= |line|
    ensures FromString(line).value.name == Span(0, nameEnd)
    ensures FromString(line).value.location.0 == Span(nameEnd + 1, fileLength + (nameEnd + 1))
  {
    FromStringParts(line, nameEnd, fileLength);
  }

  lemma TagLineKindAndLocation(line: string, q: nat)
    requires FromString(line).Ok?
    requires Find(line, ";\"") == Some(q)
    ensures q + 5 <= |line|
    ensures FromString(line).value.kind == KindFromChar(line[q + 3])
    ensures Ok(FromString(line).value.location.1) == LocationLine(line, FieldSpans(line, q + 5))
  {
    FromStringKindAndFields(line);
    FromStringLocation(line);
    assert Find(line, ";\"").value + 3 == q + 3;
    assert Find(line, ";\"").value + 5 == q + 5;
  }

  lemma DeclarationOk(line: string, q: nat)
    requires Find(line, ";\"") == Some(q) && 2 <= q
    ensures ParseDeclaration(line).Ok?
  {
  }

  /** An assembled line in which no `^` occurs has an empty declaration. */
  lemma FromStringTagLineNoPattern(name: string, file: string, address: string, kind: char, fields: string, line: string)
    requires line == TagLine(name, file, address, kind, fields)
    requires '\t' !in name && '\t' !in file
    requires ';' !in name && ';' !in file && ';' !in address
    requires StartsWith(UpToTab(fields), "line:") ==> ParseUsize(UpToTab(fields)[5..]).Some?
    requires '^' !in line
    ensures FromString(line).Ok? && FromString(line).value.Declaration() == Ok("")
  {
    FromStringTagLine(name, file, address, kind, fields, line);
    FindPairAbsent(line, '/', '^');
    FromStringDeclaration(line);
  }
}
