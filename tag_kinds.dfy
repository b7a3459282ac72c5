/** The tag kinds of the extended ctags format and the two lookup tables
    that produce them: from the one-character code of a tag line, and from
    the kind name a client passes to `describe`. */
module TagKinds {
  import opened Text

  datatype TagKind =
    | MacroDefinitions
    | EnumValue
    | FunctionDefinition
    | Enum
    | HeaderInclude
    | LocalVariable
    | ClassMember
    | FunctionPrototype
    | Struct
    | Typedef
    | Union
    | Variable
    | ForwardDeclaration
    | FunctionParameter
    | GotoLabel
    | Class
    | Namespace
    | NamespaceAlias
    | NamespaceUsingStatement
    | File
    | Unknown

  /** The 21 kind characters the table recognises. */
  const KindCodes: string := "defghlmpstuvxzLcnANUF"

  /** The character-to-kind table. */
  function KindFromChar(c: char): (r: TagKind)
    ensures r != Unknown <==> c in KindCodes
  {
    match c
    case 'd' => MacroDefinitions
    case 'e' => EnumValue
    case 'f' => FunctionDefinition
    case 'g' => Enum
    case 'h' => HeaderInclude
    case 'l' => LocalVariable
    case 'm' => ClassMember
    case 'p' => FunctionPrototype
    case 's' => Struct
    case 't' => Typedef
    case 'u' => Union
    case 'v' => Variable
    case 'x' => ForwardDeclaration
    case 'z' => FunctionParameter
    case 'L' => GotoLabel
    case 'c' => Class
    case 'n' => Namespace
    case 'A' => NamespaceAlias
    case 'N' => NamespaceUsingStatement
    case 'U' => NamespaceUsingStatement
    case 'F' => File
    case _ => Unknown
  }

  /** 21 characters give a known kind, two of them (`N` and `U`) the same
      one; every other character gives Unknown. */
  lemma KindFromCharTable(c: char)
    ensures KindFromChar(c) != Unknown <==> c in KindCodes
    ensures KindFromChar(c) == NamespaceUsingStatement <==> c == 'N' || c == 'U'
    ensures KindFromChar(c) == File <==> c == 'F'
  {
  }

  /** A code for each known kind: the table reaches all 20 known kinds. */
  function KindCode(k: TagKind): (c: char)
    requires k != Unknown
    ensures KindFromChar(c) == k
  {
    match k
    case MacroDefinitions => 'd'
    case EnumValue => 'e'
    case FunctionDefinition => 'f'
    case Enum => 'g'
    case HeaderInclude => 'h'
    case LocalVariable => 'l'
    case ClassMember => 'm'
    case FunctionPrototype => 'p'
    case Struct => 's'
    case Typedef => 't'
    case Union => 'u'
    case Variable => 'v'
    case ForwardDeclaration => 'x'
    case FunctionParameter => 'z'
    case GotoLabel => 'L'
    case Class => 'c'
    case Namespace => 'n'
    case NamespaceAlias => 'A'
    case NamespaceUsingStatement => 'N'
    case File => 'F'
  }

  /** Two characters of the table give the same kind only when they are
      `N` and `U`: 21 characters, 20 distinct known kinds. */
  lemma KindFromCharCollisions(c: char, d: char)
    requires c != d && KindFromChar(c) == KindFromChar(d) != Unknown
    ensures {c, d} == {'N', 'U'}
  {
    if KindFromChar(c) == NamespaceUsingStatement {
      UsingCodes(c);
      UsingCodes(d);
    } else {
      KindCodeUnique(c);
      KindCodeUnique(d);
    }
  }

  /** Only `N` and `U` give NamespaceUsingStatement. */
  lemma UsingCodes(c: char)
    requires KindFromChar(c) == NamespaceUsingStatement
    ensures c == 'N' || c == 'U'
  {
    match c
    case 'N' =>
    case 'U' =>
    case _ =>
  }

  /** Apart from `U`, a character that gives a known kind is that kind's
      code. */
  lemma KindCodeUnique(c: char)
    requires KindFromChar(c) != Unknown && c != 'U'
    ensures KindCode(KindFromChar(c)) == c
  {
    match c
    case 'd' =>
    case 'e' =>
    case 'f' =>
    case 'g' =>
    case 'h' =>
    case 'l' =>
    case 'm' =>
    case 'p' =>
    case 's' =>
    case 't' =>
    case 'u' =>
    case 'v' =>
    case 'x' =>
    case 'z' =>
    case 'L' =>
    case 'c' =>
    case 'n' =>
    case 'A' =>
    case 'N' =>
    case 'F' =>
    case _ =>
  }

  /** The lower-case name under which `describe -k` accepts each known kind. */
  function KindName(k: TagKind): string
    requires k != Unknown
  {
    match k
    case MacroDefinitions => "macro"
    case EnumValue => "enum_value"
    case FunctionDefinition => "function"
    case Enum => "enum"
    case HeaderInclude => "header_include"
    case LocalVariable => "local_variable"
    case ClassMember => "member"
    case FunctionPrototype => "function_prototype"
    case Struct => "struct"
    case Typedef => "typedef"
    case Union => "union"
    case Variable => "variable"
    case ForwardDeclaration => "forward_declaration"
    case FunctionParameter => "function_parameter"
    case GotoLabel => "goto_label"
    case Class => "class"
    case Namespace => "namespace"
    case NamespaceAlias => "namespace_alias"
    case NamespaceUsingStatement => "namespace_using_statement"
    case File => "file"
  }

  /** The string-to-kind table. The input is lower-cased first; a known kind
      is returned exactly when the lower-cased input is that kind's name,
      and Unknown when it is no kind's name. */
  function KindFromStr(s: string): (k: TagKind)
    ensures k != Unknown ==> ToLower(s) == KindName(k)
    ensures k == Unknown ==> forall other :: other != Unknown ==> ToLower(s) != KindName(other)
  {
    var name := ToLower(s);
    if name == "macro" then MacroDefinitions
    else if name == "enum_value" then EnumValue
    else if name == "function" then FunctionDefinition
    else if name == "enum" then Enum
    else if name == "header_include" then HeaderInclude
    else if name == "local_variable" then LocalVariable
    else if name == "member" then ClassMember
    else if name == "function_prototype" then FunctionPrototype
    else if name == "struct" then Struct
    else if name == "typedef" then Typedef
    else if name == "union" then Union
    else if name == "variable" then Variable
    else if name == "forward_declaration" then ForwardDeclaration
    else if name == "function_parameter" then FunctionParameter
    else if name == "goto_label" then GotoLabel
    else if name == "class" then Class
    else if name == "namespace" then Namespace
    else if name == "namespace_alias" then NamespaceAlias
    else if name == "namespace_using_statement" then NamespaceUsingStatement
    else if name == "file" then File
    else Unknown
  }

  /** Each known kind is found again from its name, whatever the case of
      its letters: "CLASS", "Class" and "class" all give Class. */
  lemma KindFromStrName(k: TagKind, s: string)
    requires k != Unknown && ToLower(s) == KindName(k)
    ensures KindFromStr(s) == k
  {
  }

  lemma KindFromStrClassExamples()
    ensures KindFromStr("CLASS") == KindFromStr("Class") == KindFromStr("class") == Class
  {
    assert ToLower("CLASS") == "class";
    assert ToLower("Class") == "class";
    assert ToLower("class") == "class";
    KindFromStrName(Class, "CLASS");
    KindFromStrName(Class, "Class");
    KindFromStrName(Class, "class");
  }

  lemma KindFromStrUnknownExample()
    ensures KindFromStr("unknown") == Unknown
  {
    assert ToLower("unknown") == "unknown";
  }

  /** Only the lower-cased text decides the kind. */
  lemma KindFromStrCaseInsensitive(s: string)
    ensures KindFromStr(s) == KindFromStr(ToLower(s))
  {
    ToLowerIdempotent(s);
    var k := KindFromStr(s);
    if k != Unknown {
      KindFromStrName(k, ToLower(s));
    }
  }

  /** The variant name Rust's derived `Debug` prints for a kind. */
  function DebugName(k: TagKind): string {
    match k
    case MacroDefinitions => "MacroDefinitions"
    case EnumValue => "EnumValue"
    case FunctionDefinition => "FunctionDefinition"
    case Enum => "Enum"
    case HeaderInclude => "HeaderInclude"
    case LocalVariable => "LocalVariable"
    case ClassMember => "ClassMember"
    case FunctionPrototype => "FunctionPrototype"
    case Struct => "Struct"
    case Typedef => "Typedef"
    case Union => "Union"
    case Variable => "Variable"
    case ForwardDeclaration => "ForwardDeclaration"
    case FunctionParameter => "FunctionParameter"
    case GotoLabel => "GotoLabel"
    case Class => "Class"
    case Namespace => "Namespace"
    case NamespaceAlias => "NamespaceAlias"
    case NamespaceUsingStatement => "NamespaceUsingStatement"
    case File => "File"
    case Unknown => "Unknown"
  }
  /** No kind name holds a double quote. */
  lemma DebugNameNoQuote(k: TagKind)
    ensures '"' !in DebugName(k)
  {
    if k.MacroDefinitions? || k.EnumValue? || k.FunctionDefinition? || k.Enum? || k.HeaderInclude? || k.LocalVariable? || k.ClassMember? || k.FunctionPrototype? || k.Struct? || k.Typedef? {
      DebugNameNoQuoteLow(k);
    } else {
      DebugNameNoQuoteHigh(k);
    }
  }

  lemma DebugNameNoQuoteLow(k: TagKind)
    requires k.MacroDefinitions? || k.EnumValue? || k.FunctionDefinition? || k.Enum? || k.HeaderInclude? || k.LocalVariable? || k.ClassMember? || k.FunctionPrototype? || k.Struct? || k.Typedef?
    ensures '"' !in DebugName(k)
  {
  }

  lemma DebugNameNoQuoteHigh(k: TagKind)
    requires !(k.MacroDefinitions? || k.EnumValue? || k.FunctionDefinition? || k.Enum? || k.HeaderInclude? || k.LocalVariable? || k.ClassMember? || k.FunctionPrototype? || k.Struct? || k.Typedef?)
    ensures '"' !in DebugName(k)
  {
  }


  /** Distinct kinds print distinctly. */
  lemma DebugNameInjective(a: TagKind, b: TagKind)
    requires DebugName(a) == DebugName(b)
    ensures a == b
  {
  }
}
