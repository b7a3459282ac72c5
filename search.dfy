/** The abbreviation matcher: a query matches a value either as a
    case-insensitive prefix, or when its camel-case parts occur in the value
    in order, each at or after where the previous one was found. */
module Search {
  import opened Prelude
  import opened Text

  /** The parts split off so far and the part being built, after the
      characters of `q`: an uppercase character closes the current part
      (when it is not empty) and starts a new one. */
  function Camel(q: string): (r: (seq<string>, string))
    ensures forall k :: 0 <= k < |r.0| ==> r.0[k] != []
    ensures |q| > 0 ==> r.1 != []
  {
    if |q| == 0 then ([], [])
    else
      var (parts, part) := Camel(q[..|q| - 1]);
      var c := q[|q| - 1];
      if IsUpper(c) then ((if part != [] then parts + [part] else parts), [c])
      else (parts, part + [c])
  }

  /** One more character of the query, as the loop sees it. */
  lemma CamelStep(q: string, i: nat)
    requires i < |q|
    ensures var (parts, part) := Camel(q[..i]);
      Camel(q[..i + 1]) ==
        if IsUpper(q[i]) then ((if part != [] then parts + [part] else parts), [q[i]])
        else (parts, part + [q[i]])
  {
    assert q[..i + 1][..i] == q[..i];
  }

  /** The parts of the query, the last one included when it is not empty. */
  function CamelParts(q: string): seq<string> {
    var (parts, part) := Camel(q);
    if part != [] then parts + [part] else parts
  }

  function Concat(parts: seq<string>): string {
    if |parts| == 0 then [] else Concat(parts[..|parts| - 1]) + parts[|parts| - 1]
  }

  /** No uppercase character after the first one. */
  predicate LowerTail(part: string) {
    forall i :: 0 < i < |part| ==> !IsUpper(part[i])
  }

  /** What `Camel` maintains: together with the part being built, the parts
      spell the query; no part is empty; only a part's first character may
      be uppercase, and every part after the first starts with one. */
  lemma {:induction false} CamelShape(q: string)
    ensures Concat(Camel(q).0) + Camel(q).1 == q
    ensures LowerTail(Camel(q).1)
    ensures forall k :: 0 <= k < |Camel(q).0| ==> LowerTail(Camel(q).0[k])
    ensures forall k :: 0 < k < |Camel(q).0| ==> IsUpper(Camel(q).0[k][0])
    ensures |Camel(q).0| > 0 && Camel(q).1 != [] ==> IsUpper(Camel(q).1[0])
  {
    if |q| > 0 {
      var init := q[..|q| - 1];
      CamelShape(init);
      var (parts, part) := Camel(init);
      var c := q[|q| - 1];
      assert q == init + [c];
      if IsUpper(c) {
        if part != [] {
          var ps := parts + [part];
          assert ps[..|ps| - 1] == parts;
          assert Concat(ps) == Concat(parts) + part;
        }
      } else {
        assert Concat(parts) + (part + [c]) == (Concat(parts) + part) + [c];
      }
    }
  }

  /** The parts spell the query back, none is empty, only a part's first
      character may be uppercase, and every part but the first starts with
      an uppercase character. */
  lemma CamelPartsShape(q: string)
    ensures Concat(CamelParts(q)) == q
    ensures forall k :: 0 <= k < |CamelParts(q)| ==> CamelParts(q)[k] != [] && LowerTail(CamelParts(q)[k])
    ensures forall k :: 0 < k < |CamelParts(q)| ==> IsUpper(CamelParts(q)[k][0])
  {
    CamelShape(q);
    var (parts, part) := Camel(q);
    if part != [] {
      var ps := parts + [part];
      assert ps[..|ps| - 1] == parts;
    }
  }

  /** The parts occur in `value` in order: the first at or after `from`,
      each later one at or after the start of the one before it. */
  ghost predicate InOrder(value: string, parts: seq<string>, from: nat)
    decreases |parts|
  {
    |parts| == 0 ||
    exists p: nat :: from <= p && OccursAt(value, parts[0], p) && InOrder(value, parts[1..], p)
  }

  /** An occurrence at `p` is an occurrence at `p - from` in the suffix
      from `from` on. */
  lemma OccursInSuffix(value: string, part: string, from: nat, p: nat)
    requires from <= p && from <= |value|
    ensures OccursAt(value, part, p) <==> OccursAt(value[from..], part, p - from)
  {
    if p + |part| <= |value| {
      assert value[from..][p - from..p - from + |part|] == value[p..p + |part|];
    }
  }

  /** Taking the first occurrence of the first part at or after `from` loses
      nothing: the rest fits after it exactly when the parts fit at all. */
  lemma FirstOccurrence(value: string, parts: seq<string>, from: nat, v: nat)
    requires |parts| > 0 && from <= |value|
    requires Find(value[from..], parts[0]) == Some(v)
    ensures InOrder(value, parts, from) <==> InOrder(value, parts[1..], from + v)
  {
    var part := parts[0];
    OccursInSuffix(value, part, from, from + v);
    if InOrder(value, parts, from) {
      var p: nat :| from <= p && OccursAt(value, part, p) && InOrder(value, parts[1..], p);
      OccursInSuffix(value, part, from, p);
      LaterStart(value, parts[1..], from + v, p);
    }
  }

  /** Parts that fit from a later cursor also fit from an earlier one. */
  lemma LaterStart(value: string, parts: seq<string>, a: nat, b: nat)
    requires a <= b && InOrder(value, parts, b)
    ensures InOrder(value, parts, a)
  {
    if |parts| > 0 {
      var p: nat :| b <= p && OccursAt(value, parts[0], p) && InOrder(value, parts[1..], p);
      assert a <= p;
    }
  }

  /** With no occurrence of the first part at or after `from`, the parts do
      not fit. */
  lemma NoOccurrence(value: string, parts: seq<string>, from: nat)
    requires |parts| > 0 && from <= |value|
    requires Find(value[from..], parts[0]).None?
    ensures !InOrder(value, parts, from)
  {
    if InOrder(value, parts, from) {
      var p: nat :| from <= p && OccursAt(value, parts[0], p) && InOrder(value, parts[1..], p);
      OccursInSuffix(value, parts[0], from, p);
    }
  }

  /** The matcher's verdict: a case-insensitive prefix, or the camel-case
      parts of the query in order in the value (case-sensitively). */
  ghost predicate Abbreviates(value: string, query: string): (r: bool)
    ensures query == [] || query == value ==> r
  {
    StartsWith(ToLower(value), ToLower(query)) || InOrder(value, CamelParts(query), 0)
  }

  /** `match_abbrev`: first the prefix test, then the query is cut into
      parts, then each part is looked up from the cursor, which moves to the
      start of each match. */
  method MatchAbbrev(value: string, query: string) returns (b: bool)
    ensures b <==> Abbreviates(value, query)
  {
    if StartsWith(ToLower(value), ToLower(query)) {
      return true;
    }
    var parts: seq<string> := [];
    var part: string := "";
    for i := 0 to |query|
      invariant Camel(query[..i]) == (parts, part)
    {
      CamelStep(query, i);
      var c := query[i];
      if IsUpper(c) {
        if part != [] {
          parts := parts + [part];
        }
        part := "";
        assert part + [c] == [c];
      }
      part := part + [c];
      assert Camel(query[..i + 1]) == (parts, part);
    }
    assert query[..|query|] == query;
    if part != [] {
      parts := parts + [part];
    }
    var index: nat := 0;
    for k := 0 to |parts|
      invariant index <= |value|
      invariant InOrder(value, parts, 0) <==> InOrder(value, parts[k..], index)
    {
      assert parts[k..][1..] == parts[k + 1..];
      match Find(value[index..], parts[k])
      case None =>
        NoOccurrence(value, parts[k..], index);
        return false;
      case Some(v) =>
        FirstOccurrence(value, parts[k..], index, v);
        index := index + v;
    }
    return true;
  }

  /** The prefix test alone accepts, whatever the parts: in particular the
      empty query matches every value. */
  lemma PrefixAbbreviates(value: string, query: string)
    requires StartsWith(ToLower(value), ToLower(query))
    ensures Abbreviates(value, query)
  {
  }
}
