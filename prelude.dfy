/** Shared wrappers: optional values, the outcome of an operation that may
    panic, and the first-match search that every command performs. */
module Prelude {

  datatype Option<+T> = None | Some(value: T)

  /** Each place where the program unwraps, slices or subtracts in a way
      that aborts the process when the input is not as expected. */
  datatype Fault =
    | NoNameTab                 // tag line has no tab after the name
    | NoFileTab                 // tag line has no tab after the source file
    | NoAddressEnd              // tag line has no `;"` address terminator
    | DeclarationEndUnderflow   // `;"` sits before offset 2, so `end - 2` underflows
    | NoKindChar                // nothing after the address terminator
    | NoFieldsStart             // the kind character is the last character
    | BadLineNumber             // a `line:` field whose value is not a usize
    | DeclarationOutOfRange     // declaration slice with start after end
    | FileNotFound              // opening a tags file failed
    | QuotedSegmentTooShort     // a quoted argument too short to strip its quotes
    | NoFirstLine               // request with no first line
    | MissingArgument           // request with no second space-separated token
    | UnmappedExtension         // find-other-file on an extension outside the map

  /** The outcome of an operation that either returns or aborts the process. */
  datatype Result<+T> = Ok(value: T) | Panic(fault: Fault)

  /** `slice::last` on a non-empty sequence. */
  function Last<T>(s: seq<T>): T
    requires |s| > 0
  {
    s[|s| - 1]
  }

  /** Index of the first element satisfying `p`, as a `for` loop with an
      early `return` finds it. */
  function FirstWhere<T>(s: seq<T>, p: T -> bool): (r: Option<nat>)
    ensures r.Some? ==> r.value < |s| && p(s[r.value])
    ensures r.Some? ==> forall j :: 0 <= j < r.value ==> !p(s[j])
    ensures r.None? ==> forall j :: 0 <= j < |s| ==> !p(s[j])
  {
    if |s| == 0 then None
    else if p(s[0]) then Some(0)
    else match FirstWhere(s[1..], p)
      case None => None
      case Some(k) => Some(k + 1)
  }

  /** The first match is the match with no match before it. */
  lemma FirstWhereIs<T>(s: seq<T>, p: T -> bool, i: nat)
    requires i < |s| && p(s[i])
    requires forall j :: 0 <= j < i ==> !p(s[j])
    ensures FirstWhere(s, p) == Some(i)
  {
  }
}
