/** The argument tokenizer of the server commands. The request is trimmed,
    then cut at whitespace outside double quotes; a segment that ends at a
    whitespace character is kept only when it is at least two characters
    long, and the segment after the last cut is always kept. A segment that
    contained a quote loses its first and last characters. */
module Args {
  import opened Prelude
  import opened Text

  /** `get_split`: the segment `[from, to)`, or with a quote seen, the
      segment without its first and last characters, which panics when
      the segment is shorter than two characters. */
  function GetSplit(val: string, from: nat, to: nat, wasQuote: bool): (r: Result<string>)
    requires from <= to <= |val|
    ensures r.Panic? <==> wasQuote && to < from + 2
    ensures r.Ok? && !wasQuote ==> OccursAt(val, r.value, from) && from + |r.value| == to
    ensures r.Ok? && wasQuote ==> OccursAt(val, r.value, from + 1) && from + |r.value| + 2 == to
  {
    if wasQuote then
      if from + 2 <= to then Ok(val[from + 1..to - 1]) else Panic(QuotedSegmentTooShort)
    else Ok(val[from..to])
  }

  /** The loop state: the tokens so far, where the current segment starts,
      whether a quote is open, and whether the current segment saw one. */
  datatype Scan = Scan(splits: seq<string>, prevSplit: nat, quoted: bool, wasQuote: bool)

  /** The input the loop runs on: `str::trim` leaves no whitespace in front. */
  predicate NoLeadingSpace(t: string) {
    |t| > 0 ==> !IsWhitespace(t[0])
  }

  /** `token` is a slice of `t`. */
  ghost predicate IsPiece(t: string, token: string) {
    exists a :: OccursAt(t, token, a)
  }

  /** Every token is a slice of `t`. */
  ghost predicate Pieces(t: string, tokens: seq<string>) {
    forall k :: 0 <= k < |tokens| ==> IsPiece(t, tokens[k])
  }

  lemma PiecesAppend(t: string, tokens: seq<string>, token: string, at: nat)
    requires Pieces(t, tokens) && OccursAt(t, token, at)
    ensures Pieces(t, tokens + [token])
  {
    assert IsPiece(t, token);
    var r := tokens + [token];
    assert forall k :: 0 <= k < |tokens| ==> r[k] == tokens[k];
  }

  /** One iteration of the loop at offset `i`. The test `prev_split < i - 1`
      cannot underflow, because a whitespace character is never at offset 0
      of a trimmed input; and a segment it lets through has at least two
      characters, so stripping its quotes cannot fail. */
  function Step(t: string, i: nat, s: Scan): (r: Scan)
    requires i < |t| && s.prevSplit <= i && NoLeadingSpace(t)
    ensures r.prevSplit <= i + 1
  {
    var c := t[i];
    if IsWhitespace(c) && !s.quoted then
      assert i >= 1;
      if s.prevSplit < i - 1 then
        var token := GetSplit(t, s.prevSplit, i, s.wasQuote).value;
        Scan(s.splits + [token], i + 1, s.quoted, false)
      else s.(prevSplit := i + 1)
    else if c == '"' then s.(quoted := !s.quoted, wasQuote := true)
    else s
  }

  /** The loop state after the first `n` characters. */
  function ScanPrefix(t: string, n: nat): (r: Scan)
    requires n <= |t| && NoLeadingSpace(t)
    ensures r.prevSplit <= n
  {
    if n == 0 then Scan([], 0, false, false)
    else Step(t, n - 1, ScanPrefix(t, n - 1))
  }

  /** Every token cut so far is a piece of the input. */
  lemma {:induction false} ScanPieces(t: string, n: nat)
    requires n <= |t| && NoLeadingSpace(t)
    ensures Pieces(t, ScanPrefix(t, n).splits)
  {
    if n > 0 {
      ScanPieces(t, n - 1);
      var s := ScanPrefix(t, n - 1);
      var i := n - 1;
      if IsWhitespace(t[i]) && !s.quoted && s.prevSplit < i - 1 {
        var token := GetSplit(t, s.prevSplit, i, s.wasQuote).value;
        PiecesAppend(t, s.splits, token, if s.wasQuote then s.prevSplit + 1 else s.prevSplit);
      }
    }
  }

  /** `split_args` on an already trimmed input: the loop, then the final
      segment, which is pushed whatever its length; only this last push can
      panic. */
  function SplitTrimmed(t: string): (r: Result<seq<string>>)
    requires NoLeadingSpace(t)
    ensures r.Ok? ==> |r.value| >= 1 && Pieces(t, r.value)
  {
    var s := ScanPrefix(t, |t|);
    ScanPieces(t, |t|);
    match GetSplit(t, s.prevSplit, |t|, s.wasQuote)
    case Panic(f) => Panic(f)
    case Ok(token) =>
      PiecesAppend(t, s.splits, token, if s.wasQuote then s.prevSplit + 1 else s.prevSplit);
      Ok(s.splits + [token])
  }

  /** `split_args`. */
  method SplitArgs(v: string) returns (r: Result<seq<string>>)
    ensures r == SplitTrimmed(Trim(v))
  {
    var trimmed := Trim(v);
    var splits: seq<string> := [];
    var prevSplit: nat := 0;
    var quoted := false;
    var wasQuote := false;
    for i := 0 to |trimmed|
      invariant ScanPrefix(trimmed, i) == Scan(splits, prevSplit, quoted, wasQuote)
    {
      var c := trimmed[i];
      if IsWhitespace(c) && !quoted {
        if prevSplit < i - 1 {
          var token := GetSplit(trimmed, prevSplit, i, wasQuote).value;
          splits := splits + [token];
          wasQuote := false;
        }
        prevSplit := i + 1;
      } else if c == '"' {
        quoted := !quoted;
        wasQuote := true;
      }
    }
    var token := GetSplit(trimmed, prevSplit, |trimmed|, wasQuote);
    if token.Panic? {
      return Panic(token.fault);
    }
    return Ok(splits + [token.value]);
  }

  /** Empty or all-whitespace input gives one empty token. */
  lemma BlankInput(v: string)
    requires forall i :: 0 <= i < |v| ==> IsWhitespace(v[i])
    ensures SplitTrimmed(Trim(v)) == Ok([""])
  {
    assert Trim(v) == [];
    EmptyInput();
  }

  lemma EmptyInput()
    ensures SplitTrimmed([]) == Ok([""])
  {
    var t: string := [];
    assert ScanPrefix(t, 0) == Scan([], 0, false, false);
    assert t[0..0] == "";
    assert GetSplit(t, 0, 0, false) == Ok("");
    var empty: seq<string> := [];
    assert empty + [""] == [""];
  }

  /** The input cut at every whitespace character; a run of whitespace
      leaves empty pieces between its characters. */
  function WsSplit(t: string): (r: seq<string>)
    ensures |r| >= 1
    ensures forall k, j :: 0 <= k < |r| && 0 <= j < |r[k]| ==> !IsWhitespace(r[k][j])
  {
    if |t| == 0 then [[]]
    else
      var ps := WsSplit(t[..|t| - 1]);
      var c := t[|t| - 1];
      if IsWhitespace(c) then ps + [[]]
      else
        var last := ps[|ps| - 1] + [c];
        assert forall j :: 0 <= j < |last| - 1 ==> last[j] == ps[|ps| - 1][j];
        ps[..|ps| - 1] + [last]
  }

  /** The pieces of at least two characters, in order. */
  function LongPieces(ps: seq<string>): (r: seq<string>)
    ensures forall k :: 0 <= k < |r| ==> |r[k]| >= 2 && r[k] in ps
  {
    if |ps| == 0 then []
    else
      var init := LongPieces(ps[..|ps| - 1]);
      assert forall k :: 0 <= k < |init| ==> init[k] in ps;
      init + (if |ps[|ps| - 1]| >= 2 then [ps[|ps| - 1]] else [])
  }

  /** Without quotes the loop cuts at every whitespace character: it has
      kept the long pieces before the current one, and the current segment
      is the last piece. */
  lemma {:induction false} ScanUnquoted(t: string, n: nat)
    requires n <= |t| && NoLeadingSpace(t) && '"' !in t
    ensures UnquotedState(t, n)
  {
    if n == 0 {
      assert t[..0] == [];
    } else {
      ScanUnquoted(t, n - 1);
      assert t[n - 1] in t;
      if IsWhitespace(t[n - 1]) {
        UnquotedSpace(t, n - 1);
      } else {
        UnquotedOther(t, n - 1);
      }
    }
  }

  /** What the loop has done after `n` characters of an input without
      quotes. */
  ghost predicate UnquotedState(t: string, n: nat)
    requires n <= |t| && NoLeadingSpace(t)
  {
    var ps := WsSplit(t[..n]); var s := ScanPrefix(t, n);
    && s.splits == LongPieces(ps[..|ps| - 1])
    && !s.quoted && !s.wasQuote
    && ps[|ps| - 1] == t[s.prevSplit..n]
  }

  lemma WsSplitStep(t: string, i: nat)
    requires i < |t|
    ensures var ps := WsSplit(t[..i]);
      WsSplit(t[..i + 1]) ==
        if IsWhitespace(t[i]) then ps + [[]]
        else ps[..|ps| - 1] + [ps[|ps| - 1] + [t[i]]]
  {
    assert t[..i + 1][..i] == t[..i];
  }

  lemma UnquotedSpace(t: string, i: nat)
    requires i < |t| && NoLeadingSpace(t) && UnquotedState(t, i)
    requires IsWhitespace(t[i])
    ensures UnquotedState(t, i + 1)
  {
    WsSplitStep(t, i);
    var ps := WsSplit(t[..i]);
    var ps' := ps + [[]];
    assert ps'[..|ps'| - 1] == ps;
    assert ps[..|ps| - 1] + [ps[|ps| - 1]] == ps;
  }

  lemma UnquotedOther(t: string, i: nat)
    requires i < |t| && NoLeadingSpace(t) && UnquotedState(t, i)
    requires !IsWhitespace(t[i]) && t[i] != '"'
    ensures UnquotedState(t, i + 1)
  {
    WsSplitStep(t, i);
    var ps := WsSplit(t[..i]);
    var ps' := ps[..|ps| - 1] + [ps[|ps| - 1] + [t[i]]];
    assert ps'[..|ps'| - 1] == ps[..|ps| - 1];
    var s := ScanPrefix(t, i);
    assert t[s.prevSplit..i + 1] == t[s.prevSplit..i] + [t[i]];
  }

  /** Input without quotes: the tokens are the pieces between whitespace
      characters, except that pieces of fewer than two characters are
      dropped unless they come last; the last piece is always kept. */
  lemma UnquotedSplit(t: string)
    requires NoLeadingSpace(t) && '"' !in t
    ensures var ps := WsSplit(t);
      SplitTrimmed(t) == Ok(LongPieces(ps[..|ps| - 1]) + [ps[|ps| - 1]])
  {
    ScanUnquoted(t, |t|);
    assert t[..|t|] == t;
  }

  /** Input without quotes never panics, and no token holds whitespace. */
  lemma UnquotedTokens(v: string)
    requires '"' !in v
    ensures SplitTrimmed(Trim(v)).Ok?
    ensures var r := SplitTrimmed(Trim(v)).value;
      forall k, j :: 0 <= k < |r| && 0 <= j < |r[k]| ==> !IsWhitespace(r[k][j])
  {
    UnquotedSplit(Trim(v));
  }

  /** The non-empty pieces, in order. */
  function NonEmptyPieces(ps: seq<string>): (r: seq<string>)
    ensures forall k :: 0 <= k < |r| ==> r[k] != [] && r[k] in ps
  {
    if |ps| == 0 then []
    else
      var init := NonEmptyPieces(ps[..|ps| - 1]);
      assert forall k :: 0 <= k < |init| ==> init[k] in ps;
      init + (if ps[|ps| - 1] != [] then [ps[|ps| - 1]] else [])
  }

  /** With no one-character piece, keeping the long pieces keeps exactly
      the non-empty ones. */
  lemma {:induction false} LongPiecesNonEmpty(ps: seq<string>)
    requires forall k :: 0 <= k < |ps| ==> |ps[k]| != 1
    ensures LongPieces(ps) == NonEmptyPieces(ps)
  {
    if |ps| > 0 {
      LongPiecesNonEmpty(ps[..|ps| - 1]);
    }
  }

  /** A trimmed input ends in a non-whitespace character, so its last piece
      is not empty. */
  lemma LastPieceNonEmpty(t: string)
    requires |t| > 0 && !IsWhitespace(t[|t| - 1])
    ensures WsSplit(t)[|WsSplit(t)| - 1] != []
  {
  }

  /** Input without quotes and without one-character words is split on
      runs of whitespace: the tokens are its words, in order. */
  lemma SplitOnWhitespaceRuns(v: string)
    requires '"' !in v && Trim(v) != []
    requires forall k :: 0 <= k < |WsSplit(Trim(v))| ==> |WsSplit(Trim(v))[k]| != 1
    ensures SplitTrimmed(Trim(v)) == Ok(NonEmptyPieces(WsSplit(Trim(v))))
  {
    var t := Trim(v);
    var ps := WsSplit(t);
    UnquotedSplit(t);
    var init := ps[..|ps| - 1];
    assert forall k :: 0 <= k < |init| ==> init[k] == ps[k];
    LongPiecesNonEmpty(init);
    LastPieceNonEmpty(t);
  }

  /** A whitespace character adds an empty piece. */
  lemma WsSplitSpace(t: string)
    ensures WsSplit(t + " ") == WsSplit(t) + [[]]
  {
    assert (t + " ")[..|t|] == t;
  }

  /** Any other character extends the last piece. */
  lemma WsSplitChar(t: string, c: char)
    requires !IsWhitespace(c)
    ensures WsSplit(t + [c]) == WsSplit(t)[..|WsSplit(t)| - 1] + [Last(WsSplit(t)) + [c]]
  {
    assert (t + [c])[..|t|] == t;
  }

  /** A whitespace character and a word add that word as a piece. */
  lemma {:induction false} WsSplitWord(head: string, word: string)
    requires forall j :: 0 <= j < |word| ==> !IsWhitespace(word[j])
    ensures WsSplit(head + " " + word) == WsSplit(head) + [word]
    decreases |word|
  {
    if |word| == 0 {
      assert head + " " + word == head + " ";
      WsSplitSpace(head);
    } else {
      var w := word[..|word| - 1];
      var c := word[|word| - 1];
      assert !IsWhitespace(c);
      WsSplitWord(head, w);
      assert head + " " + word == (head + " " + w) + [c];
      WsSplitChar(head + " " + w, c);
      var ps := WsSplit(head) + [w];
      assert ps[..|ps| - 1] == WsSplit(head);
      assert w + [c] == word;
    }
  }

  /** A one-character word followed by whitespace is dropped: `"a bc"`
      gives the single token `"bc"`. */
  lemma OneLetterWordDropped(c: char, word: string)
    requires !IsWhitespace(c) && c != '"'
    requires |word| > 0 && '"' !in word && forall j :: 0 <= j < |word| ==> !IsWhitespace(word[j])
    ensures SplitTrimmed(Trim([c] + " " + word)) == Ok([word])
  {
    TrimmedWords([c], word);
    WsSplitOneChar(c);
    WsSplitWord([c], word);
    ShortFirstPiece([c] + " " + word, [c], word);
  }

  lemma WsSplitOneChar(c: char)
    requires !IsWhitespace(c)
    ensures WsSplit([c]) == [[c]]
  {
    var t: string := [c];
    assert t[..0] == [];
    var e: string := [];
    assert WsSplit(t[..0]) == [e];
    assert e + [c] == [c];
  }

  lemma ShortFirstPiece(t: string, a: string, b: string)
    requires NoLeadingSpace(t) && '"' !in t
    requires WsSplit(t) == [a, b] && |a| < 2
    ensures SplitTrimmed(t) == Ok([b])
  {
    UnquotedSplit(t);
    var ps := WsSplit(t);
    assert ps[..|ps| - 1] == [a];
    assert [a][..0] == [];
    assert LongPieces([a]) == [];
    assert ps[|ps| - 1] == b;
    var none: seq<string> := [];
    assert none + [b] == [b];
    assert LongPieces(ps[..|ps| - 1]) + [ps[|ps| - 1]] == [b];
  }

  /** A request of words and a last word, without quotes: the last token is
      that word, whatever the lengths of the words before it. */
  lemma LastWord(head: string, word: string) returns (tokens: seq<string>)
    requires |head| > 0 && !IsWhitespace(head[0]) && '"' !in head
    requires |word| > 0 && '"' !in word && forall j :: 0 <= j < |word| ==> !IsWhitespace(word[j])
    ensures SplitTrimmed(Trim(head + " " + word)) == Ok(tokens)
    ensures |tokens| > 0 && tokens[|tokens| - 1] == word
  {
    var s := head + " " + word;
    TrimmedWords(head, word);
    WsSplitWord(head, word);
    tokens := LastTokenIsLastPiece(s, word);
  }

  lemma TrimmedWords(head: string, word: string)
    requires |head| > 0 && !IsWhitespace(head[0]) && '"' !in head
    requires |word| > 0 && '"' !in word && forall j :: 0 <= j < |word| ==> !IsWhitespace(word[j])
    ensures Trim(head + " " + word) == head + " " + word
    ensures NoLeadingSpace(head + " " + word) && '"' !in head + " " + word
  {
    var s := head + " " + word;
    assert s[0] == head[0] && s[|s| - 1] == word[|word| - 1];
    assert [] + s + [] == s;
    TrimPadded([], s, []);
  }

  /** Without quotes the last token is the last whitespace-separated piece. */
  lemma LastTokenIsLastPiece(t: string, word: string) returns (tokens: seq<string>)
    requires NoLeadingSpace(t) && '"' !in t
    requires Last(WsSplit(t)) == word
    ensures SplitTrimmed(t) == Ok(tokens)
    ensures |tokens| > 0 && tokens[|tokens| - 1] == word
  {
    UnquotedSplit(t);
    tokens := SplitTrimmed(t).value;
  }

  // Quoted phrases

  /** Every character of `s` is whitespace. */
  predicate Blank(s: string) {
    forall j :: 0 <= j < |s| ==> IsWhitespace(s[j])
  }

  /** A character that is not a quote leaves the loop state alone inside
      open quotes, and so does one that is neither whitespace nor a quote
      outside them. */
  lemma {:induction false} InertRun(t: string, a: nat, b: nat)
    requires a <= b <= |t| && NoLeadingSpace(t)
    requires forall i :: a <= i < b ==> t[i] != '"'
    requires ScanPrefix(t, a).quoted || forall i :: a <= i < b ==> !IsWhitespace(t[i])
    ensures ScanPrefix(t, b) == ScanPrefix(t, a)
    decreases b - a
  {
    if a < b {
      InertRun(t, a, b - 1);
    }
  }

  /** A run of whitespace outside quotes, with no segment pending, only
      moves the segment start past it. */
  lemma {:induction false} SpaceRun(t: string, a: nat, b: nat)
    requires a < b <= |t| && NoLeadingSpace(t)
    requires forall i :: a <= i < b ==> IsWhitespace(t[i])
    requires !ScanPrefix(t, a).quoted && a <= ScanPrefix(t, a).prevSplit + 1
    ensures ScanPrefix(t, b) == ScanPrefix(t, a).(prevSplit := b)
    decreases b - a
  {
    if a + 1 < b {
      SpaceRun(t, a, b - 1);
    }
  }

  /** A phrase `"q"` at the start of a segment: the quote opens, nothing
      inside it cuts, and the closing quote leaves the segment marked as
      quoted. */
  lemma QuotedPhrase(t: string, n: nat, q: string)
    requires NoLeadingSpace(t) && n + |q| + 2 <= |t|
    requires t[n] == '"' && t[n + 1..n + |q| + 1] == q && t[n + |q| + 1] == '"' && '"' !in q
    requires !ScanPrefix(t, n).quoted
    ensures ScanPrefix(t, n + |q| + 2) == ScanPrefix(t, n).(wasQuote := true)
  {
    var s := ScanPrefix(t, n);
    assert ScanPrefix(t, n + 1) == s.(quoted := true, wasQuote := true);
    forall i | n + 1 <= i < n + |q| + 1
      ensures t[i] != '"'
    {
      assert t[i] == q[i - (n + 1)];
    }
    InertRun(t, n + 1, n + |q| + 1);
  }

  /** A segment `"q"` followed by a run of whitespace is pushed as `q`,
      without its quotes, and the next segment starts after the run. */
  lemma QuotedPhraseCut(t: string, n: nat, q: string, m: nat)
    requires NoLeadingSpace(t) && n + |q| + 2 < m <= |t|
    requires t[n] == '"' && t[n + 1..n + |q| + 1] == q && t[n + |q| + 1] == '"' && '"' !in q
    requires forall i :: n + |q| + 2 <= i < m ==> IsWhitespace(t[i])
    requires !ScanPrefix(t, n).quoted && ScanPrefix(t, n).prevSplit == n
    ensures ScanPrefix(t, m) == Scan(ScanPrefix(t, n).splits + [q], m, false, false)
  {
    var e := n + |q| + 2;
    QuotedPhrase(t, n, q);
    assert GetSplit(t, n, e, true) == Ok(q);
    if e + 1 < m {
      SpaceRun(t, e + 1, m);
    }
  }

  /** A final segment `"q"` is pushed as `q`. */
  lemma QuotedPhraseLast(t: string, n: nat, q: string)
    requires NoLeadingSpace(t) && n + |q| + 2 == |t|
    requires t[n] == '"' && t[n + 1..n + |q| + 1] == q && t[n + |q| + 1] == '"' && '"' !in q
    requires !ScanPrefix(t, n).quoted && ScanPrefix(t, n).prevSplit == n
    ensures SplitTrimmed(t) == Ok(ScanPrefix(t, n).splits + [q])
  {
    QuotedPhrase(t, n, q);
    assert GetSplit(t, n, |t|, true) == Ok(q);
  }

  /** A word of two or more characters, whitespace, then a quoted phrase,
      with any padding: the tokens are the word and the phrase without its
      quotes, as for `foo   "bar is quoted"  `. */
  lemma WordThenQuoted(front: string, w: string, gap: string, q: string, back: string)
    requires Blank(front) && Blank(gap) && Blank(back) && |gap| > 0
    requires |w| >= 2 && forall j :: 0 <= j < |w| ==> !IsWhitespace(w[j]) && w[j] != '"'
    requires '"' !in q
    ensures SplitTrimmed(Trim(front + (w + gap + "\"" + q + "\"") + back)) == Ok([w, q])
  {
    var t := w + gap + "\"" + q + "\"";
    WordThenQuotedLayout(t, w, gap, q);
    WordThenQuotedSplit(t, w, |w| + |gap|, q);
    PaddedSplit(front, t, back, [w, q]);
  }

  /** Padding around an already trimmed input changes no token. */
  lemma PaddedSplit(front: string, t: string, back: string, tokens: seq<string>)
    requires Blank(front) && Blank(back)
    requires |t| > 0 && !IsWhitespace(t[0]) && !IsWhitespace(t[|t| - 1])
    requires SplitTrimmed(t) == Ok(tokens)
    ensures SplitTrimmed(Trim(front + t + back)) == Ok(tokens)
  {
    TrimPadded(front, t, back);
  }

  lemma WordThenQuotedLayout(t: string, w: string, gap: string, q: string)
    requires t == w + gap + "\"" + q + "\""
    ensures |t| == |w| + |gap| + |q| + 2 && t[..|w|] == w
    ensures forall i :: |w| <= i < |w| + |gap| ==> t[i] == gap[i - |w|]
    ensures t[|w| + |gap|] == '"' && t[|w| + |gap| + |q| + 1] == '"'
    ensures t[|w| + |gap| + 1..|w| + |gap| + |q| + 1] == q
  {
  }

  lemma WordThenQuotedSplit(t: string, w: string, n: nat, q: string)
    requires |w| >= 2 && forall j :: 0 <= j < |w| ==> !IsWhitespace(w[j]) && w[j] != '"'
    requires |t| == n + |q| + 2 && |w| < n && t[..|w|] == w
    requires forall i :: |w| <= i < n ==> IsWhitespace(t[i])
    requires t[n] == '"' && t[n + 1..n + |q| + 1] == q && t[n + |q| + 1] == '"' && '"' !in q
    ensures NoLeadingSpace(t) && SplitTrimmed(t) == Ok([w, q])
  {
    assert t[0] == w[0];
    forall i | 0 <= i < |w|
      ensures !IsWhitespace(t[i]) && t[i] != '"'
    {
      assert t[i] == w[i];
    }
    InertRun(t, 0, |w|);
    assert GetSplit(t, 0, |w|, false) == Ok(w);
    assert ScanPrefix(t, |w| + 1) == Scan([w], |w| + 1, false, false);
    if |w| + 1 < n {
      SpaceRun(t, |w| + 1, n);
    }
    assert ScanPrefix(t, n) == Scan([w], n, false, false);
    QuotedPhraseLast(t, n, q);
    assert [w] + [q] == [w, q];
  }

  /** Two quoted phrases separated by whitespace, with any padding: the
      tokens are the two phrases without their quotes, as for
      `"foo is quoted"   "bar is quoted"  `. */
  lemma QuotedThenQuoted(front: string, p: string, gap: string, q: string, back: string)
    requires Blank(front) && Blank(gap) && Blank(back) && |gap| > 0
    requires '"' !in p && '"' !in q
    ensures SplitTrimmed(Trim(front + ("\"" + p + "\"" + gap + "\"" + q + "\"") + back)) == Ok([p, q])
  {
    var t := "\"" + p + "\"" + gap + "\"" + q + "\"";
    QuotedThenQuotedLayout(t, p, gap, q);
    QuotedThenQuotedSplit(t, p, |p| + 2 + |gap|, q);
    PaddedSplit(front, t, back, [p, q]);
  }

  lemma QuotedThenQuotedLayout(t: string, p: string, gap: string, q: string)
    requires t == "\"" + p + "\"" + gap + "\"" + q + "\""
    ensures |t| == |p| + |gap| + |q| + 4
    ensures t[0] == '"' && t[1..|p| + 1] == p && t[|p| + 1] == '"'
    ensures forall i :: |p| + 2 <= i < |p| + 2 + |gap| ==> t[i] == gap[i - (|p| + 2)]
    ensures t[|p| + 2 + |gap|] == '"' && t[|p| + |gap| + |q| + 3] == '"'
    ensures t[|p| + 2 + |gap| + 1..|p| + 2 + |gap| + |q| + 1] == q
  {
  }

  lemma QuotedThenQuotedSplit(t: string, p: string, n: nat, q: string)
    requires |t| == n + |q| + 2 && |p| + 2 < n
    requires t[0] == '"' && t[1..|p| + 1] == p && t[|p| + 1] == '"' && '"' !in p
    requires forall i :: |p| + 2 <= i < n ==> IsWhitespace(t[i])
    requires t[n] == '"' && t[n + 1..n + |q| + 1] == q && t[n + |q| + 1] == '"' && '"' !in q
    ensures NoLeadingSpace(t) && SplitTrimmed(t) == Ok([p, q])
  {
    assert ScanPrefix(t, 0) == Scan([], 0, false, false);
    QuotedPhraseCut(t, 0, p, n);
    assert ScanPrefix(t, n) == Scan([p], n, false, false);
    QuotedPhraseLast(t, n, q);
    assert [p] + [q] == [p, q];
  }
}
