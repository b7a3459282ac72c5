/** The parts of Rust's `str` and integer-parsing behaviour that the tag
    server relies on, over ASCII strings. Offsets are character offsets,
    which for ASCII coincide with the byte offsets Rust uses. */
module Text {
  import opened Prelude

  /** Largest `usize` on a 64-bit target. */
  const UsizeMax: nat := 0xFFFF_FFFF_FFFF_FFFF

  /** `char::is_whitespace` restricted to ASCII: tab, line feed, vertical
      tab, form feed, carriage return and space. */
  predicate IsWhitespace(c: char) {
    c == ' ' || ('\t' <= c <= '\r')
  }

  /** `char::is_uppercase` restricted to ASCII. */
  predicate IsUpper(c: char) {
    'A' <= c <= 'Z'
  }

  predicate IsDigit(c: char) {
    '0' <= c <= '9'
  }

  function LowerChar(c: char): char {
    if IsUpper(c) then (c as int + 32) as char else c
  }

  /** `str::to_lowercase` restricted to ASCII. */
  function ToLower(s: string): (r: string)
    ensures |r| == |s|
    ensures forall i :: 0 <= i < |s| ==> r[i] == LowerChar(s[i])
  {
    if |s| == 0 then [] else [LowerChar(s[0])] + ToLower(s[1..])
  }

  lemma {:induction false} ToLowerIdempotent(s: string)
    ensures ToLower(ToLower(s)) == ToLower(s)
  {
    var once := ToLower(s);
    var twice := ToLower(once);
    assert forall i :: 0 <= i < |s| ==> twice[i] == LowerChar(LowerChar(s[i]));
  }

  /** `str::starts_with` for a string pattern. */
  predicate StartsWith(s: string, prefix: string) {
    |prefix| <= |s| && s[..|prefix|] == prefix
  }

  /** `pattern` occurs in `s` starting at offset `i`. */
  predicate OccursAt(s: string, pattern: string, i: int) {
    0 <= i && i + |pattern| <= |s| && s[i..i + |pattern|] == pattern
  }

  /** `str::find`: the offset of the first occurrence of `pattern`. An empty
      pattern is found at offset 0. */
  function Find(s: string, pattern: string): (r: Option<nat>)
    ensures r.Some? ==> OccursAt(s, pattern, r.value)
    ensures r.Some? ==> forall j :: 0 <= j < r.value ==> !OccursAt(s, pattern, j)
    ensures r.None? ==> forall j :: !OccursAt(s, pattern, j)
    decreases |s|
  {
    if |pattern| > |s| then None
    else if s[..|pattern|] == pattern then Some(0)
    else
      var rest := Find(s[1..], pattern);
      assert !OccursAt(s, pattern, 0);
      assert forall j :: 1 <= j ==> (OccursAt(s, pattern, j) <==> OccursAt(s[1..], pattern, j - 1)) by {
        forall j | 1 <= j ensures OccursAt(s, pattern, j) <==> OccursAt(s[1..], pattern, j - 1) {
          if j + |pattern| <= |s| {
            assert s[1..][j - 1..j - 1 + |pattern|] == s[j..j + |pattern|];
          }
        }
      }
      match rest
      case None => None
      case Some(k) => Some(k + 1)
  }

  /** Finding a one-character pattern finds the first occurrence of that
      character. */
  lemma FindChar(s: string, c: char)
    ensures Find(s, [c]).None? <==> c !in s
    ensures Find(s, [c]).Some? ==> var i := Find(s, [c]).value;
      i < |s| && s[i] == c && c !in s[..i] && forall j :: 0 <= j < i ==> s[j] != c
  {
    var r := Find(s, [c]);
    forall j | 0 <= j < |s| ensures OccursAt(s, [c], j) <==> s[j] == c {
      assert s[j..j + 1] == [s[j]];
    }
    if r.Some? {
      var i := r.value;
      assert forall j :: 0 <= j < i ==> s[..i][j] == s[j];
    }
  }

  /** A character found at `i` with none before it is what `Find` returns. */
  lemma FindCharAt(s: string, c: char, i: nat)
    requires i < |s| && s[i] == c && c !in s[..i]
    ensures Find(s, [c]) == Some(i)
  {
    FindChar(s, c);
    assert forall j :: 0 <= j < i ==> s[j] != c by {
      forall j | 0 <= j < i ensures s[j] != c {
        assert s[..i][j] == s[j];
      }
    }
  }

  /** A two-character pattern whose first character first appears at `i`,
      followed there by its second, is found at `i`. */
  lemma FindPairAt(s: string, a: char, b: char, i: nat)
    requires i + 1 < |s| && s[i] == a && s[i + 1] == b && a !in s[..i]
    ensures Find(s, [a, b]) == Some(i)
  {
    assert OccursAt(s, [a, b], i) by {
      assert s[i..i + 2] == [a, b];
    }
    forall j | 0 <= j < i ensures !OccursAt(s, [a, b], j) {
      assert s[j] != a by {
        assert s[..i][j] == s[j];
      }
      if j + 2 <= |s| {
        assert s[j..j + 2][0] == s[j];
      }
    }
  }

  /** A two-character pattern whose second character does not occur is not
      found. */
  lemma FindPairAbsent(s: string, a: char, b: char)
    requires b !in s
    ensures Find(s, [a, b]).None?
  {
    forall j ensures !OccursAt(s, [a, b], j) {
      if 0 <= j && j + 2 <= |s| {
        assert s[j..j + 2][1] == s[j + 1];
      }
    }
  }

  /** `str::split` on a single-character separator: every piece, empty ones
      included. */
  function Split(s: string, sep: char): (r: seq<string>)
    ensures |r| >= 1
    ensures forall k :: 0 <= k < |r| ==> sep !in r[k]
    decreases |s|
  {
    match Find(s, [sep])
    case None =>
      assert forall i :: 0 <= i < |s| ==> s[i] != sep by {
        forall i | 0 <= i < |s| ensures s[i] != sep { assert !OccursAt(s, [sep], i); }
      }
      [s]
    case Some(i) =>
      assert forall j :: 0 <= j < i ==> s[j] != sep by {
        forall j | 0 <= j < i ensures s[j] != sep { assert !OccursAt(s, [sep], j); }
      }
      [s[..i]] + Split(s[i + 1..], sep)
  }

  /** A string without the separator is one piece. */
  lemma SplitAbsent(s: string, sep: char)
    requires sep !in s
    ensures Split(s, sep) == [s]
  {
    FindChar(s, sep);
  }

  /** The first two pieces: the text before the first separator, then the
      text from after it to the next separator or the end. */
  lemma SplitFirstTwo(s: string, sep: char) returns (v: nat, w: nat)
    requires sep in s
    ensures v < w <= |s| && s[v] == sep && sep !in s[..v]
    ensures sep !in s[v + 1..w] && (w == |s| || s[w] == sep)
    ensures |Split(s, sep)| >= 2 && Split(s, sep)[0] == s[..v] && Split(s, sep)[1] == s[v + 1..w]
  {
    FindChar(s, sep);
    v := Find(s, [sep]).value;
    var tail := s[v + 1..];
    assert Split(s, sep)[0] == s[..v] && Split(s, sep)[1] == Split(tail, sep)[0];
    var i := SplitFirstPiece(tail, sep);
    w := i + (v + 1);
    assert s[v + 1..w] == tail[..i];
  }

  /** The first piece runs up to the first separator, or the end. */
  lemma SplitFirstPiece(s: string, sep: char) returns (i: nat)
    ensures i <= |s| && Split(s, sep)[0] == s[..i] && sep !in s[..i]
    ensures i == |s| || s[i] == sep
  {
    FindChar(s, sep);
    if sep in s {
      i := Find(s, [sep]).value;
    } else {
      SplitAbsent(s, sep);
      i := |s|;
    }
  }

  /** A head without the separator is the first piece, and the pieces of
      the rest follow. */
  lemma SplitAfter(a: string, sep: char, b: string)
    requires sep !in a
    ensures Split(a + [sep] + b, sep) == [a] + Split(b, sep)
  {
    var s := a + [sep] + b;
    assert s[..|a|] == a && s[|a|] == sep;
    FindCharAt(s, sep, |a|);
    assert s[|a| + 1..] == b;
  }

  /** Splitting `a sep b` gives the pieces of `a`, then those of `b`. */
  lemma {:induction false} SplitConcat(a: string, sep: char, b: string)
    ensures Split(a + [sep] + b, sep) == Split(a, sep) + Split(b, sep)
    decreases |a|
  {
    FindChar(a, sep);
    if sep in a {
      var i := Find(a, [sep]).value;
      var s := a + [sep] + b;
      assert s[..i] == a[..i];
      FindCharAt(s, sep, i);
      assert s[i + 1..] == a[i + 1..] + [sep] + b;
      SplitConcat(a[i + 1..], sep, b);
    } else {
      SplitAfter(a, sep, b);
      SplitAbsent(a, sep);
    }
  }

  /** Five separator-free strings joined by the separator split back into
      themselves. */
  lemma SplitFive(a: string, b: string, c: string, d: string, e: string, sep: char) returns (r: seq<string>)
    requires sep !in a && sep !in b && sep !in c && sep !in d && sep !in e
    ensures r == Split(a + [sep] + (b + [sep] + (c + [sep] + (d + [sep] + e))), sep)
    ensures |r| == 5 && r[0] == a && r[1] == b && r[2] == c && r[3] == d && r[4] == e
  {
    var t4 := d + [sep] + e;
    var t3 := c + [sep] + t4;
    var t2 := b + [sep] + t3;
    SplitAbsent(e, sep);
    SplitAfter(d, sep, e);
    SplitAfter(c, sep, t4);
    SplitAfter(b, sep, t3);
    SplitAfter(a, sep, t2);
    r := Split(a + [sep] + t2, sep);
    assert r[1..][1..][1..][1..] == [e];
  }

  /** A rendered number holds no double quote. */
  lemma DecimalNoQuote(n: nat)
    ensures '"' !in Decimal(n)
  {
    var r := Decimal(n);
    forall i | 0 <= i < |r| ensures r[i] != '"' {
      assert IsDigit(r[i]);
    }
  }

  /** There is a second piece exactly when the separator occurs. */
  lemma SplitHasSecond(s: string, sep: char)
    ensures |Split(s, sep)| >= 2 <==> sep in s
  {
    if sep in s {
      var v, w := SplitFirstTwo(s, sep);
    } else {
      SplitAbsent(s, sep);
    }
  }

  /** Joins pieces with the separator between them. */
  function Join(pieces: seq<string>, sep: char): string {
    if |pieces| == 0 then []
    else if |pieces| == 1 then pieces[0]
    else pieces[0] + [sep] + Join(pieces[1..], sep)
  }

  /** Splitting loses nothing: joining the pieces back gives the input. */
  lemma {:induction false} JoinSplit(s: string, sep: char)
    ensures Join(Split(s, sep), sep) == s
    decreases |s|
  {
    match Find(s, [sep])
    case None =>
    case Some(i) =>
      var tail := s[i + 1..];
      var pieces := Split(s, sep);
      assert pieces[1..] == Split(tail, sep);
      assert Join(pieces, sep) == s[..i] + [sep] + Join(Split(tail, sep), sep);
      JoinSplit(tail, sep);
      assert s[i..i + 1] == [sep];
      assert s == s[..i] + [sep] + tail;
  }

  /** `str::trim_start` for ASCII whitespace. */
  function TrimStart(s: string): (r: string)
    ensures |r| <= |s| && r == s[|s| - |r|..]
    ensures |r| > 0 ==> !IsWhitespace(r[0])
    ensures forall i :: 0 <= i < |s| - |r| ==> IsWhitespace(s[i])
  {
    if |s| > 0 && IsWhitespace(s[0]) then TrimStart(s[1..]) else s
  }

  /** `str::trim_end` for ASCII whitespace. */
  function TrimEnd(s: string): (r: string)
    ensures |r| <= |s| && r == s[..|r|]
    ensures |r| > 0 ==> !IsWhitespace(r[|r| - 1])
    ensures forall i :: |r| <= i < |s| ==> IsWhitespace(s[i])
  {
    if |s| > 0 && IsWhitespace(s[|s| - 1]) then TrimEnd(s[..|s| - 1]) else s
  }

  /** `str::trim`: neither end of the result is whitespace, and the result
      is empty exactly when the input is all whitespace. */
  function Trim(s: string): (r: string)
    ensures |r| > 0 ==> !IsWhitespace(r[0]) && !IsWhitespace(r[|r| - 1])
    ensures r == [] <==> forall i :: 0 <= i < |s| ==> IsWhitespace(s[i])
    ensures OccursAt(s, r, |s| - |TrimStart(s)|)
  {
    var front := TrimStart(s);
    var r := TrimEnd(front);
    TrimBothEnds(s, front, r);
    r
  }

  lemma TrimBothEnds(s: string, front: string, r: string)
    requires front == TrimStart(s) && r == TrimEnd(front)
    ensures |r| > 0 ==> !IsWhitespace(r[0]) && !IsWhitespace(r[|r| - 1])
    ensures r == [] <==> forall i :: 0 <= i < |s| ==> IsWhitespace(s[i])
    ensures OccursAt(s, r, |s| - |front|)
  {
    if |r| > 0 {
      assert r[0] == front[0] == s[|s| - |front|];
    }
    TrimmedSlice(s, front, r);
  }

  /** Whitespace around a trimmed string is what `str::trim` removes. */
  lemma TrimPadded(front: string, s: string, back: string)
    requires forall i :: 0 <= i < |front| ==> IsWhitespace(front[i])
    requires forall i :: 0 <= i < |back| ==> IsWhitespace(back[i])
    requires |s| > 0 && !IsWhitespace(s[0]) && !IsWhitespace(s[|s| - 1])
    ensures Trim(front + s + back) == s
  {
    TrimStartPadded(front, s + back);
    assert front + s + back == front + (s + back);
    TrimEndPadded(s, back);
  }

  lemma {:induction false} TrimStartPadded(front: string, s: string)
    requires forall i :: 0 <= i < |front| ==> IsWhitespace(front[i])
    requires |s| > 0 && !IsWhitespace(s[0])
    ensures TrimStart(front + s) == s
  {
    if |front| > 0 {
      assert (front + s)[1..] == front[1..] + s;
      TrimStartPadded(front[1..], s);
    }
  }

  lemma {:induction false} TrimEndPadded(s: string, back: string)
    requires forall i :: 0 <= i < |back| ==> IsWhitespace(back[i])
    requires |s| > 0 && !IsWhitespace(s[|s| - 1])
    ensures TrimEnd(s + back) == s
  {
    if |back| > 0 {
      assert (s + back)[..|s + back| - 1] == s + back[..|back| - 1];
      TrimEndPadded(s, back[..|back| - 1]);
    } else {
      assert s + back == s;
    }
  }

  lemma TrimmedSlice(s: string, front: string, r: string)
    requires |front| <= |s| && front == s[|s| - |front|..]
    requires |r| <= |front| && r == front[..|r|]
    ensures OccursAt(s, r, |s| - |front|)
  {
    var a := |s| - |front|;
    assert s[a..a + |r|] == front[..|r|];
  }

  /** `str::lines().nth(0)`: the text before the first line feed, with a
      carriage return that precedes that line feed removed; an empty string
      has no lines. */
  function FirstLine(s: string): (r: Option<string>)
    ensures r.None? <==> s == []
    ensures r.Some? ==> '\n' !in r.value && r.value <= s
    ensures r.Some? && '\n' !in s ==> r.value == s
  {
    if |s| == 0 then None
    else match Find(s, "\n")
      case None =>
        assert forall i :: 0 <= i < |s| ==> s[i] != '\n' by {
          forall i | 0 <= i < |s| ensures s[i] != '\n' { assert !OccursAt(s, "\n", i); }
        }
        Some(s)
      case Some(i) =>
        assert forall j :: 0 <= j < i ==> s[j] != '\n' by {
          forall j | 0 <= j < i ensures s[j] != '\n' { assert !OccursAt(s, "\n", j); }
        }
        assert s[i] == s[i..i + 1][0] == '\n';
        Some(if i > 0 && s[i - 1] == '\r' then s[..i - 1] else s[..i])
  }

  /** The first line of `a\nb` is `a`, when `a` holds no line feed and does
      not end in a carriage return. */
  lemma FirstLineOf(a: string, b: string)
    requires '\n' !in a && (a == [] || a[|a| - 1] != '\r')
    ensures FirstLine(a + "\n" + b) == Some(a)
  {
    var s := a + "\n" + b;
    assert s[..|a|] == a;
    FindCharAt(s, '\n', |a|);
  }

  /** The first line of `a\r\nb` is `a`: the carriage return before the
      line feed is dropped. */
  lemma FirstLineOfCrLf(a: string, b: string)
    requires '\n' !in a
    ensures FirstLine(a + "\r\n" + b) == Some(a)
  {
    var s := a + "\r\n" + b;
    assert s[..|a| + 1] == a + "\r";
    FindCharAt(s, '\n', |a| + 1);
    assert s[..|a|] == a;
  }

  /** Value of a string of decimal digits, most significant first. */
  function DigitsValue(d: string): nat
    requires forall i :: 0 <= i < |d| ==> IsDigit(d[i])
  {
    if |d| == 0 then 0
    else
      assert IsDigit(d[|d| - 1]);
      DigitsValue(d[..|d| - 1]) * 10 + (d[|d| - 1] as int - '0' as int)
  }

  /** `str::parse::<usize>`: an optional `+`, then one or more decimal
      digits whose value fits in a usize. */
  function ParseUsize(s: string): (r: Option<nat>)
    ensures r.Some? ==> r.value <= UsizeMax && |s| > 0 && (IsDigit(s[0]) || (s[0] == '+' && |s| > 1))
    ensures r.Some? ==> forall i :: 0 < i < |s| ==> IsDigit(s[i])
    ensures r.Some? ==> r.value == DigitsValue(s[if s[0] == '+' then 1 else 0..])
    ensures |s| > 0 && (forall i :: 0 <= i < |s| ==> IsDigit(s[i])) && DigitsValue(s) <= UsizeMax ==>
      r == Some(DigitsValue(s))
    ensures |s| > 0 && (forall i :: 0 <= i < |s| ==> IsDigit(s[i])) && DigitsValue(s) > UsizeMax ==>
      r == None
    ensures |s| > 1 && s[0] == '+' && (forall i :: 0 < i < |s| ==> IsDigit(s[i])) && DigitsValue(s[1..]) <= UsizeMax ==>
      r == Some(DigitsValue(s[1..]))
  {
    var digits := if |s| > 0 && s[0] == '+' then s[1..] else s;
    if |digits| == 0 || exists i :: 0 <= i < |digits| && !IsDigit(digits[i]) then None
    else if DigitsValue(digits) > UsizeMax then None
    else Some(DigitsValue(digits))
  }

  /** Rust's `{}` rendering of an unsigned integer: decimal, no leading zeros. */
  function Decimal(n: nat): (r: string)
    ensures |r| > 0
    ensures forall i :: 0 <= i < |r| ==> IsDigit(r[i])
    ensures |r| == 1 <==> n < 10
    ensures |r| > 1 ==> r[0] != '0'
  {
    var last := ('0' as int + n % 10) as char;
    if n < 10 then [last] else Decimal(n / 10) + [last]
  }

  lemma {:induction false} DigitsValueDecimal(n: nat)
    ensures DigitsValue(Decimal(n)) == n
  {
    var d := Decimal(n);
    if n >= 10 {
      DigitsValueDecimal(n / 10);
      assert d[..|d| - 1] == Decimal(n / 10);
    }
  }

  /** Rendering a usize and parsing it back gives the same number. */
  lemma ParseUsizeDecimal(n: nat)
    requires n <= UsizeMax
    ensures ParseUsize(Decimal(n)) == Some(n)
  {
    DigitsValueDecimal(n);
  }

  /** Different numbers render differently. */
  lemma DecimalInjective(m: nat, n: nat)
    requires Decimal(m) == Decimal(n)
    ensures m == n
  {
    DigitsValueDecimal(m);
    DigitsValueDecimal(n);
  }

  /** When a delimiter appears in neither head, the first delimiter splits
      two equal strings at the same place. */
  lemma {:induction false} DelimitedPrefix(a: string, b: string, d: char, x: string, y: string)
    requires d !in a && d !in b
    requires a + [d] + x == b + [d] + y
    ensures a == b && x == y
  {
    var s := a + [d] + x;
    assert forall i :: 0 <= i < |a| ==> s[i] == a[i];
    assert forall i :: 0 <= i < |b| ==> s[i] == b[i];
    assert s[|a|] == d && s[|b|] == d;
    assert |a| == |b|;
    assert a == s[..|a|] == b;
    assert x == s[|a| + 1..] == y;
  }
}
