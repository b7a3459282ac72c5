/** The server's commands. Each one accepts the requests that start with
    its own prefix and answers with a string; all but `load-tags-file`
    only read the tag database, and every search returns the first match in
    the order of `all_tags`. */
module Commands {
  import opened Prelude
  import opened Text
  import opened TagKinds
  import opened TagDefinitions
  import opened TagFiles
  import opened TagDatabases
  import opened Args
  import opened Paths

  datatype Command = Echo | FindOtherFile | LoadTagsFile | DescribeTag | FindTags

  /** What the option parser makes of the argument list: a failure, whose
      message becomes the reply, or whether the `kind` option was given,
      with its value. */
  datatype Getopts = Failed(message: string) | Parsed(kind: Option<string>)

  /** The prefix each command's `can_execute` tests for. */
  function Prefix(c: Command): (r: string)
    ensures |r| >= 5 && r[|r| - 1] == ' '
  {
    match c
    case Echo => "echo "
    case FindOtherFile => "find-other-file "
    case LoadTagsFile => "load-tags-file "
    case DescribeTag => "describe "
    case FindTags => "find "
  }

  predicate CanExecute(c: Command, request: string) {
    StartsWith(request, Prefix(c))
  }

  /** No request is accepted by two different commands; in particular
      `find ` does not accept a `find-other-file ` request. */
  lemma PrefixesExclusive(a: Command, b: Command, request: string)
    requires CanExecute(a, request) && CanExecute(b, request)
    ensures a == b
  {
    assert request[0] == Prefix(a)[0] == Prefix(b)[0];
    assert request[4] == Prefix(a)[4] == Prefix(b)[4];
  }

  /** `echo`: everything after the first space, or nothing without one. */
  function EchoReply(request: string): (r: string)
    ensures ' ' !in request ==> r == ""
    ensures ' ' in request ==> |r| < |request| && r == request[|request| - |r|..]
    ensures ' ' in request ==> request[|request| - |r| - 1] == ' ' && ' ' !in request[..|request| - |r| - 1]
  {
    FindChar(request, ' ');
    match Find(request, [' '])
    case None => ""
    case Some(v) => request[v + 1..]
  }

  /** A request `echo` accepts is answered with what follows its prefix. */
  lemma EchoAfterPrefix(request: string)
    requires CanExecute(Echo, request)
    ensures EchoReply(request) == request[5..]
  {
    assert request[..4] == "echo";
    FindCharAt(request, ' ', 4);
  }

  /** `command.lines().nth(0).unwrap().split(" ")`, then `tokens[1].trim()`:
      a request without a first line, or with no space on it, panics. */
  function SecondToken(request: string): (r: Result<string>)
    ensures r == Panic(NoFirstLine) <==> request == []
    ensures r == Panic(MissingArgument) <==> request != [] && ' ' !in FirstLine(request).value
    ensures r.Panic? ==> r.fault == NoFirstLine || r.fault == MissingArgument
  {
    match FirstLine(request)
    case None => Panic(NoFirstLine)
    case Some(line) =>
      var tokens := Split(line, ' ');
      SplitHasSecond(line, ' ');
      if |tokens| < 2 then Panic(MissingArgument) else Ok(Trim(tokens[1]))
  }

  /** The argument is the trimmed text of the first line between its first
      space and the next space, or the end of the line. */
  lemma SecondTokenValue(request: string) returns (v: nat, w: nat)
    requires SecondToken(request).Ok?
    ensures request != [] && v < w <= |FirstLine(request).value|
    ensures FirstLine(request).value[v] == ' ' && ' ' !in FirstLine(request).value[..v]
    ensures ' ' !in FirstLine(request).value[v + 1..w]
    ensures w == |FirstLine(request).value| || FirstLine(request).value[w] == ' '
    ensures SecondToken(request).value == Trim(FirstLine(request).value[v + 1..w])
  {
    var line := FirstLine(request).value;
    v, w := SplitFirstTwo(line, ' ');
  }

  /** Two spaces after the command word give an empty argument, whatever
      follows them on the line. */
  lemma EmptyArgument(cmd: string, rest: string)
    requires ' ' !in cmd && '\n' !in cmd && '\n' !in rest
    ensures SecondToken(cmd + "  " + rest) == Ok("")
  {
    var s := cmd + "  " + rest;
    assert '\n' !in s by {
      forall i | 0 <= i < |s| ensures s[i] != '\n' {
        if i < |cmd| { assert s[i] == cmd[i]; }
        else if i >= |cmd| + 2 { assert s[i] == rest[i - |cmd| - 2]; }
      }
    }
    FindChar(s, '\n');
    assert FirstLine(s) == Some(s);
    assert s[..|cmd|] == cmd;
    FindCharAt(s, ' ', |cmd|);
    var tail := s[|cmd| + 1..];
    assert tail == " " + rest;
    FindCharAt(tail, ' ', 0);
    assert Split(s, ' ')[1] == Split(tail, ' ')[0] == "";
    assert Trim([]) == [];
  }

  /** Only the first line of a request is split: what follows the first
      line feed never changes the argument. */
  lemma FirstLineOnly(line: string, rest: string)
    requires line != [] && '\n' !in line && line[|line| - 1] != '\r'
    ensures SecondToken(line + "\n" + rest) == SecondToken(line)
  {
    FirstLineOf(line, rest);
  }

  /** A word without whitespace, after a command word and a space, is the
      argument. */
  lemma ArgumentOf(cmd: string, arg: string)
    requires ' ' !in cmd && '\n' !in cmd
    requires |arg| > 0 && forall j :: 0 <= j < |arg| ==> !IsWhitespace(arg[j])
    ensures SecondToken(cmd + " " + arg) == Ok(arg)
  {
    var s := cmd + " " + arg;
    assert '\n' !in arg by {
      forall j | 0 <= j < |arg| ensures arg[j] != '\n' { assert !IsWhitespace(arg[j]); }
    }
    assert ' ' !in arg by {
      forall j | 0 <= j < |arg| ensures arg[j] != ' ' { assert !IsWhitespace(arg[j]); }
    }
    FindChar(s, '\n');
    assert FirstLine(s) == Some(s);
    assert s[..|cmd|] == cmd;
    FindCharAt(s, ' ', |cmd|);
    assert s[|cmd| + 1..] == arg;
    SplitAbsent(arg, ' ');
    assert Split(s, ' ') == [cmd, arg];
    assert [] + arg + [] == arg;
    TrimPadded([], arg, []);
  }

  /** The request as `find-other-file` and `load-tags-file` receive it. */
  lemma ArgumentOfCommand(c: Command, arg: string)
    requires c == FindOtherFile || c == LoadTagsFile
    requires |arg| > 0 && forall j :: 0 <= j < |arg| ==> !IsWhitespace(arg[j])
    ensures SecondToken(Prefix(c) + arg) == Ok(arg)
  {
    var p := Prefix(c);
    var cmd := p[..|p| - 1];
    assert p == cmd + " ";
    assert p + arg == cmd + " " + arg;
    ArgumentOf(cmd, arg);
  }

  /** The companion extensions of `find-other-file`: sources map to
      headers and headers to sources. */
  function Companions(ext: string): Option<seq<string>> {
    if ext == "cpp" || ext == "c" then Some(["h", "hpp"])
    else if ext == "h" || ext == "hpp" then Some(["c", "cpp"])
    else None
  }

  /** Each companion of an extension has that extension among its own
      companions, and no extension is its own companion. */
  lemma CompanionsSymmetric(a: string, b: string)
    requires Companions(a).Some? && b in Companions(a).value
    ensures Companions(b).Some? && a in Companions(b).value
    ensures a != b
  {
  }

  /** `match_other_file`: the name has an extension from the list and its
      stem is the given one. */
  predicate MatchOtherFile(otherFileName: string, fileStem: string, extensions: seq<string>) {
    var ext := Extension(otherFileName);
    var stem := FileStem(otherFileName);
    (stem.Some? && stem.value == fileStem) && (ext.Some? && ext.value in extensions)
  }

  /** For a name `dir/stem.ext`, the match compares the stem exactly and
      looks the extension up; directories play no part. */
  lemma MatchOtherFileNamed(dir: string, stem: string, ext: string, fileStem: string, extensions: seq<string>)
    requires stem != "" && stem != "." && '/' !in stem && '/' !in ext && '.' !in ext
    ensures MatchOtherFile(stem + "." + ext, fileStem, extensions) <==> stem == fileStem && ext in extensions
    ensures MatchOtherFile(dir + "/" + stem + "." + ext, fileStem, extensions) <==> stem == fileStem && ext in extensions
  {
    StemAndExtension(stem, ext);
    var name := stem + "." + ext;
    assert dir + "/" + stem + "." + ext == dir + "/" + name;
    DirectoryIgnored(dir, name);
  }

  /** The tags `find-other-file` looks for. */
  predicate OtherOf(t: TagDefinition, fileStem: string, extensions: seq<string>) {
    t.Valid() && MatchOtherFile(t.Name(), fileStem, extensions)
  }

  /** `find-other-file`'s `execute` over the tags in `all_tags` order. */
  function FindOtherReply(request: string, tags: seq<TagDefinition>): (r: Result<string>)
    ensures r == Panic(NoFirstLine) <==> request == []
    ensures r == Panic(MissingArgument) <==> request != [] && ' ' !in FirstLine(request).value
    ensures r.Panic? ==> r.fault in {NoFirstLine, MissingArgument, UnmappedExtension}
  {
    match SecondToken(request)
    case Panic(f) => Panic(f)
    case Ok(arg) =>
      match Extension(arg)
      case None => Ok("")
      case Some(ext) =>
        var stem := FileStem(arg).value;
        match Companions(ext)
        case None => Panic(UnmappedExtension)
        case Some(exts) =>
          match FirstWhere(tags, (t: TagDefinition) => OtherOf(t, stem, exts))
          case None => Ok("Other file not found.")
          case Some(i) => Ok(tags[i].SourceFile())
  }

  /** What `find-other-file` answers for the argument `arg`: nothing for an
      argument without extension, a panic for an extension outside the
      map, otherwise the source file of the first tag named like a
      companion of `arg`, or "Other file not found." when there is none. */
  ghost predicate AnswersOtherFile(r: Result<string>, arg: string, tags: seq<TagDefinition>) {
    match Extension(arg)
    case None => r == Ok("")
    case Some(ext) =>
      match Companions(ext)
      case None => r == Panic(UnmappedExtension)
      case Some(exts) =>
        var stem := FileStem(arg).value;
        && ((forall j :: 0 <= j < |tags| ==> !OtherOf(tags[j], stem, exts)) ==> r == Ok("Other file not found."))
        && (forall i :: 0 <= i < |tags| && OtherOf(tags[i], stem, exts) && (forall j :: 0 <= j < i ==> !OtherOf(tags[j], stem, exts))
              ==> r == Ok(tags[i].SourceFile()))
  }

  lemma FindOtherOnArgument(request: string, arg: string, tags: seq<TagDefinition>)
    requires SecondToken(request) == Ok(arg)
    ensures AnswersOtherFile(FindOtherReply(request, tags), arg, tags)
  {
    var r := FindOtherReply(request, tags);
    match Extension(arg) {
      case None =>
      case Some(ext) =>
        var stem := FileStem(arg).value;
        match Companions(ext) {
          case None =>
          case Some(exts) =>
            var p := (t: TagDefinition) => OtherOf(t, stem, exts);
            var found := FirstWhere(tags, p);
            assert r == if found.None? then Ok("Other file not found.") else Ok(tags[found.value].SourceFile());
            FirstOtherFile(r, tags, stem, exts, found);
        }
    }
  }

  /** The reply built from `found`, the index of the first tag that is
      `OtherOf` for `stem` and `exts`, if any. */
  lemma FirstOtherFile(r: Result<string>, tags: seq<TagDefinition>, stem: string, exts: seq<string>, found: Option<nat>)
    requires found.Some? ==> found.value < |tags| && OtherOf(tags[found.value], stem, exts)
    requires found.Some? ==> forall j :: 0 <= j < found.value ==> !OtherOf(tags[j], stem, exts)
    requires found.None? ==> forall j :: 0 <= j < |tags| ==> !OtherOf(tags[j], stem, exts)
    requires r == if found.None? then Ok("Other file not found.") else Ok(tags[found.value].SourceFile())
    ensures (forall j :: 0 <= j < |tags| ==> !OtherOf(tags[j], stem, exts)) ==> r == Ok("Other file not found.")
    ensures forall i :: 0 <= i < |tags| && OtherOf(tags[i], stem, exts) && (forall j :: 0 <= j < i ==> !OtherOf(tags[j], stem, exts))
              ==> r == Ok(tags[i].SourceFile())
  {
  }

  /** `find-other-file arg` answers as `AnswersOtherFile` says. */
  lemma FindOtherFileReply(arg: string, tags: seq<TagDefinition>)
    requires |arg| > 0 && forall j :: 0 <= j < |arg| ==> !IsWhitespace(arg[j])
    ensures AnswersOtherFile(FindOtherReply("find-other-file " + arg, tags), arg, tags)
  {
    ArgumentOfCommand(FindOtherFile, arg);
    FindOtherOnArgument("find-other-file " + arg, arg, tags);
  }

  const DescribeUsage := "describe -k <tag_kind> <tag_name>"

  /** The tags `describe` looks for: the kind named by `kind` and exactly
      the name `name`. */
  predicate Describes(t: TagDefinition, name: string, kind: string) {
    t.Valid() && t.Kind() == KindFromStr(kind) && t.Name() == name
  }

  /** `describe`'s `do_execute`: the rendering of the first tag it looks
      for, or the empty string when there is none. */
  function DoDescribe(name: string, kind: string, tags: seq<TagDefinition>): (r: string)
    ensures r == "" <==> forall j :: 0 <= j < |tags| ==> !Describes(tags[j], name, kind)
    ensures r != "" ==> exists i :: (0 <= i < |tags| && Describes(tags[i], name, kind) && r == tags[i].ToElisp()
      && forall j :: 0 <= j < i ==> !Describes(tags[j], name, kind))
  {
    match FirstWhere(tags, (t: TagDefinition) => Describes(t, name, kind))
    case None => ""
    case Some(i) => tags[i].ToElisp()
  }

  /** `describe`'s `execute`: the tag name is the last argument; the option
      parser sees the whole argument list. */
  function DescribeReply(request: string, tags: seq<TagDefinition>, options: seq<string> -> Getopts): (r: Result<string>)
    ensures request == [] ==> r == Panic(NoFirstLine)
  {
    match FirstLine(request)
    case None => Panic(NoFirstLine)
    case Some(_) =>
      match SplitTrimmed(Trim(request))
      case Panic(f) => Panic(f)
      case Ok(args) =>
        match options(args)
        case Failed(message) => Ok(message)
        case Parsed(None) => Ok(DescribeUsage)
        case Parsed(Some(kind)) => Ok(DoDescribe(Last(args), kind, tags))
  }

  /** A quote-free `describe` request ending in a word looks that word up,
      with the kind the option parser found, and answers with the usage
      line when it found none. */
  lemma DescribeLastWord(head: string, name: string, tags: seq<TagDefinition>, options: seq<string> -> Getopts)
      returns (args: seq<string>)
    requires StartsWith(head, "describe") && '"' !in head
    requires |name| > 0 && '"' !in name && forall j :: 0 <= j < |name| ==> !IsWhitespace(name[j])
    ensures SplitTrimmed(Trim(head + " " + name)) == Ok(args)
    ensures options(args).Parsed? && options(args).kind.Some? ==>
      DescribeReply(head + " " + name, tags, options) == Ok(DoDescribe(name, options(args).kind.value, tags))
    ensures options(args) == Parsed(None) ==> DescribeReply(head + " " + name, tags, options) == Ok(DescribeUsage)
  {
    assert head[0] == 'd';
    args := LastWord(head, name);
  }

  /** The tags `find` looks for: names that start with the query. */
  predicate NamePrefixed(t: TagDefinition, query: string) {
    t.Valid() && StartsWith(t.Name(), query)
  }

  /** `find`'s `do_execute`: the rendering of the first tag whose name
      starts with the query, or `nil`. */
  function DoFindTags(query: string, tags: seq<TagDefinition>): (r: string)
    ensures r == "nil" <==> forall j :: 0 <= j < |tags| ==> !NamePrefixed(tags[j], query)
    ensures r != "nil" ==> exists i :: (0 <= i < |tags| && NamePrefixed(tags[i], query) && r == tags[i].ToElisp()
      && forall j :: 0 <= j < i ==> !NamePrefixed(tags[j], query))
  {
    match FirstWhere(tags, (t: TagDefinition) => NamePrefixed(t, query))
    case None => "nil"
    case Some(i) => tags[i].ToElisp()
  }

  /** `find`'s `execute`: the query is the last argument. */
  function FindTagsReply(request: string, tags: seq<TagDefinition>): (r: Result<string>)
    ensures request == [] ==> r == Panic(NoFirstLine)
  {
    match FirstLine(request)
    case None => Panic(NoFirstLine)
    case Some(_) =>
      match SplitTrimmed(Trim(request))
      case Panic(f) => Panic(f)
      case Ok(args) => Ok(DoFindTags(Last(args), tags))
  }

  /** A quote-free `find` request ending in a word looks that word up. */
  lemma FindTagsLastWord(head: string, query: string, tags: seq<TagDefinition>)
    requires StartsWith(head, "find") && '"' !in head
    requires |query| > 0 && '"' !in query && forall j :: 0 <= j < |query| ==> !IsWhitespace(query[j])
    ensures FindTagsReply(head + " " + query, tags) == Ok(DoFindTags(query, tags))
  {
    assert head[0] == 'f';
    var args := LastWord(head, query);
  }

  /** A command's reply and the tag files after it ran. */
  datatype Outcome = Outcome(reply: Result<string>, tagFiles: seq<TagFile>)

  /** `load-tags-file`: the file named by the argument is loaded and
      appended; a panic leaves nothing appended. */
  function LoadReply(request: string, files: map<string, seq<LineRead>>, tagFiles: seq<TagFile>): (r: Outcome)
  {
    match SecondToken(request)
    case Panic(f) => Outcome(Panic(f), tagFiles)
    case Ok(path) =>
      match LoadedFile(files, path)
      case Panic(f) => Outcome(Panic(f), tagFiles)
      case Ok(file) => Outcome(Ok("Done"), tagFiles + [file])
  }

  /** Every tag is a valid record of its line. */
  ghost predicate AllValid(tags: seq<TagDefinition>) {
    forall k :: 0 <= k < |tags| ==> tags[k].Valid()
  }

  /** A load that returns appends one file, loaded from the argument path,
      whose tags follow all earlier tags; a load that panics changes
      nothing; either way, the tags stay valid. */
  lemma LoadAppends(request: string, files: map<string, seq<LineRead>>, tagFiles: seq<TagFile>)
    ensures var r := LoadReply(request, files, tagFiles);
      r.reply.Ok? ==> (r.reply.value == "Done" && |r.tagFiles| == |tagFiles| + 1 && r.tagFiles[..|tagFiles|] == tagFiles
        && Last(r.tagFiles).filePath == SecondToken(request).value
        && Flatten(r.tagFiles) == Flatten(tagFiles) + Last(r.tagFiles).tags)
    ensures var r := LoadReply(request, files, tagFiles); r.reply.Panic? ==> r.tagFiles == tagFiles
    ensures AllValid(Flatten(tagFiles)) ==> AllValid(Flatten(LoadReply(request, files, tagFiles).tagFiles))
  {
    var r := LoadReply(request, files, tagFiles);
    if r.reply.Ok? {
      var path := SecondToken(request).value;
      var file := LoadedFile(files, path).value;
      assert r.tagFiles == tagFiles + [file];
      assert (tagFiles + [file])[..|tagFiles|] == tagFiles;
      forall k | 0 <= k < |file.tags| ensures file.tags[k].Valid() {
        LoadedFileTags(files, path, k);
      }
    }
  }

  /** The server's `execute` on one command: its reply, and the tag files
      after it ran. */
  function Run(c: Command, request: string, tagFiles: seq<TagFile>, files: map<string, seq<LineRead>>,
               options: seq<string> -> Getopts): (r: Outcome)
    ensures c != LoadTagsFile ==> r.tagFiles == tagFiles
  {
    var tags := Flatten(tagFiles);
    match c
    case Echo => Outcome(Ok(EchoReply(request)), tagFiles)
    case FindOtherFile => Outcome(FindOtherReply(request, tags), tagFiles)
    case LoadTagsFile => LoadReply(request, files, tagFiles)
    case DescribeTag => Outcome(DescribeReply(request, tags, options), tagFiles)
    case FindTags => Outcome(FindTagsReply(request, tags), tagFiles)
  }

  /** Whatever command runs, the tags stay valid records. */
  lemma RunKeepsValid(c: Command, request: string, tagFiles: seq<TagFile>, files: map<string, seq<LineRead>>,
                      options: seq<string> -> Getopts)
    requires AllValid(Flatten(tagFiles))
    ensures AllValid(Flatten(Run(c, request, tagFiles, files, options).tagFiles))
  {
    if c == LoadTagsFile {
      LoadAppends(request, files, tagFiles);
    }
  }

  /** `load-tags-file`'s `execute`, appending to the database in place. */
  method LoadTagsFileInto(request: string, files: map<string, seq<LineRead>>, db: TagDatabase)
      returns (r: Result<string>)
    modifies db
    ensures Outcome(r, db.tagFiles) == LoadReply(request, files, old(db.tagFiles))
  {
    var path := SecondToken(request);
    if path.Panic? {
      return Panic(path.fault);
    }
    var file := FromFile(files, path.value);
    if file.Panic? {
      return Panic(file.fault);
    }
    db.tagFiles := db.tagFiles + [file.value];
    return Ok("Done");
  }

  /** A command's `execute`, given the database it may change. */
  method Execute(c: Command, request: string, files: map<string, seq<LineRead>>,
                 options: seq<string> -> Getopts, db: TagDatabase) returns (r: Result<string>)
    modifies db
    ensures Outcome(r, db.tagFiles) == Run(c, request, old(db.tagFiles), files, options)
  {
    match c {
      case LoadTagsFile =>
        r := LoadTagsFileInto(request, files, db);
      case Echo =>
        r := Ok(EchoReply(request));
      case FindOtherFile =>
        r := FindOtherReply(request, db.AllTags());
      case DescribeTag =>
        r := DescribeReply(request, db.AllTags(), options);
      case FindTags =>
        r := FindTagsReply(request, db.AllTags());
    }
  }
}
