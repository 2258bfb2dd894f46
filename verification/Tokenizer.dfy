// The in-place tokenizer of src/ncftool.c: nexttoken, and the token loop of parseline.
module Tokenizer {
  import opened Text

  const NUL := '\0'

  predicate IsBlank(c: char) {
    c == ' ' || c == '\t'
  }

  predicate IsQuote(c: char) {
    c == '\'' || c == '"'
  }

  ghost predicate Blanks(s: string) {
    forall c | c in s :: IsBlank(c)
  }

  // ---- on strings ----

  function SkipBlanks(s: string): (n: nat)
    ensures n <= |s|
    ensures forall i | 0 <= i < n :: IsBlank(s[i])
    ensures n < |s| ==> !IsBlank(s[n])
  {
    if s == "" || !IsBlank(s[0]) then 0 else 1 + SkipBlanks(s[1..])
  }

  /** Where a token starting at s ends: at its quote, or at a blank, or at the end. */
  predicate Ends(c: char, quot: char) {
    if quot == NUL then IsBlank(c) else c == quot
  }

  function TokenLength(s: string, quot: char): (n: nat)
    ensures n <= |s|
    ensures forall i | 0 <= i < n :: !Ends(s[i], quot)
    ensures n < |s| ==> Ends(s[n], quot)
  {
    if s == "" || Ends(s[0], quot) then 0 else 1 + TokenLength(s[1..], quot)
  }

  /** A token, and what is left of the line once the character that ended the token is gone. */
  datatype Cut = Cut(token: string, rest: string)

  function CutAt(s: string, quot: char): Cut {
    var n := TokenLength(s, quot);
    Cut(s[..n], if n < |s| then s[n + 1..] else "")
  }

  /** nexttoken on a line without leading blanks. */
  function CutHead(s: string): Cut {
    if s != "" && IsQuote(s[0]) then CutAt(s[1..], s[0]) else CutAt(s, NUL)
  }

  function TokenOf(line: string): string {
    CutHead(line[SkipBlanks(line)..]).token
  }

  function RestOf(line: string): (r: string)
    ensures line != "" ==> |r| < |line|
    ensures line == "" ==> r == ""
  {
    CutHead(line[SkipBlanks(line)..]).rest
  }

  /** The tokens parseline sees: one at least, then until the line is empty. */
  function Tokens(line: string): seq<string>
    decreases |line|
  {
    [TokenOf(line)] + if RestOf(line) == "" then [] else Tokens(RestOf(line))
  }

  // ---- printing ----

  /** A token as it is typed: bare, or between quotes. */
  datatype Item = Bare(text: string) | Quoted(quot: char, text: string)

  /** A bare token has no blank and does not start like a quoted one; a quoted one lacks its quote. */
  ghost predicate Printable(item: Item) {
    NUL !in item.text &&
    match item
    case Bare(text) => text != "" && !IsQuote(text[0]) && forall c | c in text :: !IsBlank(c)
    case Quoted(quot, text) => IsQuote(quot) && quot !in text
  }

  function Print(item: Item): string {
    match item
    case Bare(text) => text
    case Quoted(quot, text) => [quot] + text + [quot]
  }

  /** gaps[i] stands before item i; the last gap ends the line. */
  function PrintLine(items: seq<Item>, gaps: seq<string>): string
    requires |gaps| == |items| + 1
  {
    if items == [] then gaps[0] else gaps[0] + (Print(items[0]) + PrintLine(items[1..], gaps[1..]))
  }

  function Texts(items: seq<Item>): seq<string> {
    if items == [] then [] else [items[0].text] + Texts(items[1..])
  }

  ghost predicate GapsOk(gaps: seq<string>) {
    (forall g | g in gaps :: Blanks(g)) && forall i | 0 < i < |gaps| - 1 :: gaps[i] != ""
  }

  lemma {:induction false} SkipGap(gap: string, s: string)
    requires Blanks(gap) && (s == "" || !IsBlank(s[0]))
    ensures SkipBlanks(gap + s) == |gap|
  {
    if gap != "" {
      assert gap[0] in gap;
      assert (gap + s)[1..] == gap[1..] + s;
      SkipGap(gap[1..], s);
    } else {
      assert gap + s == s;
    }
  }

  lemma {:induction false} MeasureToken(text: string, quot: char, s: string)
    requires forall c | c in text :: !Ends(c, quot)
    requires s == "" || Ends(s[0], quot)
    ensures TokenLength(text + s, quot) == |text|
  {
    if text != "" {
      assert text[0] in text;
      assert (text + s)[1..] == text[1..] + s;
      MeasureToken(text[1..], quot, s);
    } else {
      assert text + s == s;
    }
  }

  /** What follows an item after the blank or quote that ended it. */
  function After(item: Item, s: string): string {
    if item.Quoted? then s else if s == "" then "" else s[1..]
  }

  lemma CutBare(text: string, s: string)
    requires forall c | c in text :: !IsBlank(c)
    requires s == "" || IsBlank(s[0])
    ensures CutAt(text + s, NUL) == Cut(text, if s == "" then "" else s[1..])
  {
    MeasureToken(text, NUL, s);
    assert (text + s)[..|text|] == text;
    if s != "" {
      assert (text + s)[|text| + 1..] == s[1..];
    }
  }

  lemma CutQuoted(text: string, quot: char, s: string)
    requires quot !in text && quot != NUL
    ensures CutAt(text + ([quot] + s), quot) == Cut(text, s)
  {
    MeasureToken(text, quot, [quot] + s);
    assert (text + ([quot] + s))[..|text|] == text;
    assert (text + ([quot] + s))[|text| + 1..] == s;
  }

  lemma CutItem(item: Item, s: string)
    requires Printable(item) && (item.Bare? ==> s == "" || IsBlank(s[0]))
    ensures CutHead(Print(item) + s) == Cut(item.text, After(item, s))
    ensures !IsBlank((Print(item) + s)[0])
  {
    var p := Print(item) + s;
    match item {
      case Bare(text) =>
        assert text[0] in text && p[0] == text[0];
        CutBare(text, s);
      case Quoted(quot, text) =>
        assert p[0] == quot && p[1..] == text + ([quot] + s);
        CutQuoted(text, quot, s);
    }
  }

  /** nexttoken returns the first item of the line. */
  lemma ScanItem(gap: string, item: Item, s: string)
    requires Blanks(gap) && Printable(item) && (item.Bare? ==> s == "" || IsBlank(s[0]))
    ensures TokenOf(gap + (Print(item) + s)) == item.text
    ensures RestOf(gap + (Print(item) + s)) == After(item, s)
  {
    var p := Print(item) + s;
    CutItem(item, s);
    SkipGap(gap, p);
    assert (gap + p)[|gap|..] == p;
  }

  /** A word runs to the next space or tab, which goes with it, or to the end of the line. */
  lemma WordToken(gap: string, word: string, c: char, rest: string)
    requires (forall c | c in gap :: c == ' ' || c == '\t') && word != "" && word[0] != '\'' && word[0] != '"'
    requires ' ' !in word && '\t' !in word && (c == ' ' || c == '\t')
    ensures TokenOf(gap + (word + ([c] + rest))) == word && RestOf(gap + (word + ([c] + rest))) == rest
    ensures TokenOf(gap + word) == word && RestOf(gap + word) == ""
  {
    CutBare(word, [c] + rest);
    CutBare(word, "");
    assert word + "" == word;
    GapSkipped(gap, word + ([c] + rest));
    GapSkipped(gap, word);
  }

  /** A quoted token runs to the next quote of its kind, which goes with it, or to the end of the line. */
  lemma QuotedToken(gap: string, quot: char, text: string, rest: string)
    requires (forall c | c in gap :: c == ' ' || c == '\t') && (quot == '\'' || quot == '"') && quot !in text
    ensures TokenOf(gap + ([quot] + (text + ([quot] + rest)))) == text
    ensures RestOf(gap + ([quot] + (text + ([quot] + rest)))) == rest
    ensures TokenOf(gap + ([quot] + text)) == text && RestOf(gap + ([quot] + text)) == ""
  {
    GapSkipped(gap, [quot] + (text + ([quot] + rest)));
    GapSkipped(gap, [quot] + text);
    CutQuoted(text, quot, rest);
    MeasureToken(text, quot, "");
    assert text + "" == text && text[..|text|] == text;
    assert ([quot] + text)[1..] == text && ([quot] + (text + ([quot] + rest)))[1..] == text + ([quot] + rest);
  }

  lemma GapSkipped(gap: string, s: string)
    requires (forall c | c in gap :: c == ' ' || c == '\t') && s != "" && s[0] != ' ' && s[0] != '\t'
    ensures (gap + s)[SkipBlanks(gap + s)..] == s
  {
    SkipGap(gap, s);
  }

  /** A line of blanks has one token, the empty one; otherwise tokens follow until the line is used up. */
  lemma TokensOfLine(gap: string, line: string)
    requires forall c | c in gap :: c == ' ' || c == '\t'
    ensures Tokens(gap) == [""]
    ensures Tokens(line)[0] == TokenOf(line)
    ensures RestOf(line) == "" ==> Tokens(line) == [TokenOf(line)]
    ensures RestOf(line) != "" ==> Tokens(line)[1..] == Tokens(RestOf(line))
  {
    TokensOfBlanks(gap);
  }

  lemma TokensOfBlanks(s: string)
    requires Blanks(s)
    ensures Tokens(s) == [""]
  {
    SkipGap(s, "");
    assert s + "" == s;
  }

  /** Blanks after the last item that its terminator does not use up. */
  predicate Surplus(items: seq<Item>, trail: string)
    requires items != []
  {
    |trail| > if items[|items| - 1].Bare? then 1 else 0
  }

  lemma PrintLineStart(items: seq<Item>, gaps: seq<string>)
    requires items != [] && |gaps| == |items| + 1 && (forall i | i in items :: Printable(i))
    ensures PrintLine(items, gaps) != ""
  {
    assert items[0] in items;
  }

  /**
   * Tokenizing a printed line gives the printed texts; an empty token follows exactly when there are
   * more trailing blanks than the last token uses up: one after a bare token, none after a quoted one.
   */
  lemma {:induction false} TokensOfPrinted(items: seq<Item>, gaps: seq<string>)
    requires items != [] && |gaps| == |items| + 1 && (forall i | i in items :: Printable(i))
    requires forall g | g in gaps :: forall c | c in g :: c == ' ' || c == '\t'
    requires forall i | 0 < i < |items| :: gaps[i] != ""
    ensures Tokens(PrintLine(items, gaps))
         == Texts(items) + if Surplus(items, gaps[|gaps| - 1]) then [""] else []
    decreases |items|
  {
    TokensStep(items, gaps);
    var line := PrintLine(items, gaps);
    var extra := if Surplus(items, gaps[|gaps| - 1]) then [""] else [];
    Unfold(line, items[0].text, RestOf(line));
    if |items| == 1 {
      LastRest(items[0], gaps[1]);
      assert Texts(items) == [items[0].text] && items == [items[0]];
    } else {
      var gaps' := RestGaps(items[0], gaps);
      RestGapsOk(items[0], gaps);
      assert forall i | i in items[1..] :: i in items;
      TokensOfPrinted(items[1..], gaps');
      SurplusRest(items, gaps[|gaps| - 1]);
      Assoc([items[0].text], Texts(items[1..]), extra);
    }
  }

  lemma Unfold(line: string, token: string, rest: string)
    requires TokenOf(line) == token && RestOf(line) == rest
    ensures Tokens(line) == [token] + if rest == "" then [] else Tokens(rest)
  {
  }

  lemma SurplusRest(items: seq<Item>, trail: string)
    requires |items| > 1
    ensures Surplus(items[1..], trail) <==> Surplus(items, trail)
  {
    assert items[1..][|items| - 2] == items[|items| - 1];
  }

  /** The first token of a printed line, and the line that is left. */
  lemma TokensStep(items: seq<Item>, gaps: seq<string>)
    requires items != [] && |gaps| == |items| + 1
    requires (forall i | i in items :: Printable(i)) && GapsOk(gaps)
    ensures TokenOf(PrintLine(items, gaps)) == items[0].text
    ensures |items| == 1 ==> RestOf(PrintLine(items, gaps)) == After(items[0], gaps[1])
    ensures |items| > 1 ==> gaps[1] != ""
    ensures |items| > 1 ==> RestOf(PrintLine(items, gaps)) == PrintLine(items[1..], RestGaps(items[0], gaps)) != ""
  {
    var item, s := items[0], PrintLine(items[1..], gaps[1..]);
    assert item in items && gaps[0] in gaps && gaps[1] in gaps;
    StartsBlank(items[1..], gaps[1..]);
    ScanItem(gaps[0], item, s);
    if |items| > 1 {
      RestGapsOk(item, gaps);
      DropGap(items[1..], gaps[1..], RestGaps(item, gaps)[0], item);
      assert gaps[1..][1..] == gaps[2..];
      assert forall i | i in items[1..] :: i in items;
      PrintLineStart(items[1..], RestGaps(item, gaps));
    }
  }

  lemma LastRest(item: Item, trail: string)
    requires Blanks(trail)
    ensures Surplus([item], trail) <==> After(item, trail) != ""
    ensures After(item, trail) != "" ==> Tokens(After(item, trail)) == [""]
  {
    var rest := After(item, trail);
    assert Blanks(rest);
    TokensOfBlanks(rest);
  }

  /** The gaps of the remaining line: a bare token takes a blank of the next gap with it. */
  function RestGaps(item: Item, gaps: seq<string>): seq<string>
    requires |gaps| > 2 && gaps[1] != ""
  {
    [if item.Quoted? then gaps[1] else gaps[1][1..]] + gaps[2..]
  }

  lemma RestGapsOk(item: Item, gaps: seq<string>)
    requires |gaps| > 2 && GapsOk(gaps)
    ensures gaps[1] != "" && GapsOk(RestGaps(item, gaps))
    ensures var r := RestGaps(item, gaps); r[|r| - 1] == gaps[|gaps| - 1]
  {
    var r := RestGaps(item, gaps);
    assert gaps[1] in gaps;
    assert forall i | 0 < i < |r| :: r[i] == gaps[i + 1];
    forall g | g in r
      ensures Blanks(g)
    {
      if g != r[0] {
        assert g in gaps[2..];
      }
    }
  }

  lemma StartsBlank(items: seq<Item>, gaps: seq<string>)
    requires |gaps| == |items| + 1 && Blanks(gaps[0]) && (items != [] ==> gaps[0] != "")
    ensures PrintLine(items, gaps) == "" || IsBlank(PrintLine(items, gaps)[0])
  {
    if gaps[0] != "" {
      assert gaps[0][0] in gaps[0];
    }
  }

  lemma DropFirst(gap: string, s: string)
    requires gap != ""
    ensures (gap + s)[1..] == gap[1..] + s
  {
  }

  lemma DropGap(items: seq<Item>, gaps: seq<string>, gap: string, item: Item)
    requires items != [] && |gaps| == |items| + 1 && gaps[0] != ""
    requires gap == if item.Quoted? then gaps[0] else gaps[0][1..]
    ensures PrintLine(items, [gap] + gaps[1..]) == After(item, PrintLine(items, gaps))
  {
    var rest := Print(items[0]) + PrintLine(items[1..], gaps[1..]);
    var gaps' := [gap] + gaps[1..];
    assert gaps'[0] == gap && gaps'[1..] == gaps[1..];
    DropFirst(gaps[0], rest);
  }

  // ---- in place ----

  predicate Terminated(buf: seq<char>) {
    buf != [] && buf[|buf| - 1] == NUL
  }

  /** Where the C string that starts at p ends. */
  function EndOf(buf: seq<char>, p: nat): (e: nat)
    requires p <= |buf|
    ensures p <= e <= |buf|
    ensures forall i | p <= i < e :: buf[i] != NUL
    ensures e < |buf| ==> buf[e] == NUL
    decreases |buf| - p
  {
    if p == |buf| || buf[p] == NUL then p else EndOf(buf, p + 1)
  }

  /** The C string that starts at p. */
  function TextAt(buf: seq<char>, p: nat): string
    requires p <= |buf|
  {
    buf[p..EndOf(buf, p)]
  }

  lemma EndUnique(buf: seq<char>, p: nat, e: nat)
    requires p <= e < |buf| && buf[e] == NUL && forall i | p <= i < e :: buf[i] != NUL
    ensures EndOf(buf, p) == e && TextAt(buf, p) == buf[p..e]
  {
    var n := EndOf(buf, p);
    assert n <= e;
  }

  /** The C string from line to end. */
  predicate Spans(was: seq<char>, line: nat, end: nat) {
    line <= end < |was| && was[end] == NUL && forall i | line <= i < end :: was[i] != NUL
  }

  lemma PassBlank(was: seq<char>, s: nat, end: nat)
    requires s < end <= |was|
    ensures IsBlank(was[s]) ==> SkipBlanks(was[s..end]) == 1 + SkipBlanks(was[s + 1..end])
    ensures !IsBlank(was[s]) ==> SkipBlanks(was[s..end]) == 0
  {
    assert was[s..end][1..] == was[s + 1..end];
  }

  method PassBlanks(buf: array<char>, line: nat, ghost was: seq<char>, ghost end: nat) returns (s: nat)
    requires was == buf[..] && Spans(was, line, end)
    ensures s == line + SkipBlanks(was[line..end]) <= end
  {
    s := line;
    while buf[s] != NUL && IsBlank(buf[s])
      invariant line <= s <= end
      invariant s + SkipBlanks(was[s..end]) == line + SkipBlanks(was[line..end])
      decreases buf.Length - s
    {
      PassBlank(was, s, end);
      s := s + 1;
    }
    if s < end {
      PassBlank(was, s, end);
    }
  }

  lemma PassChar(was: seq<char>, s: nat, end: nat, quot: char)
    requires s < end <= |was|
    ensures !Ends(was[s], quot) ==> TokenLength(was[s..end], quot) == 1 + TokenLength(was[s + 1..end], quot)
    ensures Ends(was[s], quot) ==> TokenLength(was[s..end], quot) == 0
  {
    assert was[s..end][1..] == was[s + 1..end];
  }

  method PassToken(buf: array<char>, r: nat, quot: char, ghost was: seq<char>, ghost end: nat) returns (s: nat)
    requires was == buf[..] && Spans(was, r, end)
    ensures s == r + TokenLength(was[r..end], quot) <= end
  {
    s := r;
    while buf[s] != NUL && !Ends(buf[s], quot)
      invariant r <= s <= end
      invariant s + TokenLength(was[s..end], quot) == r + TokenLength(was[r..end], quot)
      decreases buf.Length - s
    {
      PassChar(was, s, end, quot);
      s := s + 1;
    }
    if s < end {
      PassChar(was, s, end, quot);
    }
  }

  /** Where the next token starts, and the character that ends it. */
  method FindToken(buf: array<char>, line: nat, ghost was: seq<char>, ghost end: nat) returns (r: nat, s: nat)
    requires was == buf[..] && Spans(was, line, end)
    ensures line <= r <= s <= end
    ensures TokenOf(was[line..end]) == was[r..s]
    ensures RestOf(was[line..end]) == if s < end then was[s + 1..end] else ""
  {
    r := PassBlanks(buf, line, was, end);
    ghost var first := r;
    DropSlice(was, line, first, end);
    var quot := NUL;
    if IsQuote(buf[r]) {
      quot := buf[r];
      r := r + 1;
    }
    s := PassToken(buf, r, quot, was, end);
    CutInPlace(was, was[line..end], first, r, s, end, quot);
  }

  lemma DropSlice(was: seq<char>, line: nat, first: nat, end: nat)
    requires line <= first <= end <= |was|
    ensures was[line..end][first - line..] == was[first..end]
  {
  }

  /** *s = '\0' unless it is already. */
  method PutNul(buf: array<char>, s: nat) returns (line': nat)
    requires s < buf.Length
    modifies buf
    ensures buf[..] == Terminate(old(buf[..]), s)
    ensures line' == if old(buf[s]) != NUL then s + 1 else s
  {
    line' := s;
    if buf[s] != NUL {
      buf[s] := NUL;
      line' := s + 1;
    }
  }

  /** now is was up to the line. */
  ghost predicate SameBefore(was: seq<char>, now: seq<char>, line: nat) {
    |now| == |was| && line <= |was| && forall i | 0 <= i < line :: now[i] == was[i]
  }

  /** The buffer after one token was taken: it starts at r, and the line at line'. */
  ghost predicate Took(was: seq<char>, now: seq<char>, line: nat, r: nat, line': nat) {
    Terminated(now) && SameBefore(was, now, line)
    && line <= r <= line' < |now| && EndOf(now, r) <= line'
    && TextAt(now, r) == TokenOf(TextAt(was, line))
    && TextAt(now, line') == RestOf(TextAt(was, line))
    && (TextAt(now, line') != "" ==> EndOf(now, r) < line')
  }

  /**
   * nexttoken: the token is terminated in the buffer and starts at r; line moves behind it. Nothing
   * before the line is touched.
   */
  method NextToken(buf: array<char>, line: nat) returns (r: nat, line': nat)
    requires line < buf.Length && Terminated(buf[..])
    modifies buf
    ensures Took(old(buf[..]), buf[..], line, r, line')
  {
    ghost var was := buf[..];
    ghost var end := EndOf(was, line);
    var s;
    r, s := FindToken(buf, line, was, end);
    line' := PutNul(buf, s);
    TookByTerminating(was, line, r, s, end);
  }

  lemma TookByTerminating(was: seq<char>, line: nat, r: nat, s: nat, end: nat)
    requires Terminated(was) && Spans(was, line, end) && line <= r <= s <= end
    requires TokenOf(was[line..end]) == was[r..s]
    requires RestOf(was[line..end]) == if s < end then was[s + 1..end] else ""
    ensures Took(was, Terminate(was, s), line, r, if was[s] != NUL then s + 1 else s)
  {
    EndUnique(was, line, end);
    TerminatePlaces(was, r, s, end);
  }

  /** The buffer with the character at s overwritten, unless the line ends there. */
  function Terminate(was: seq<char>, s: nat): seq<char>
    requires s < |was|
  {
    if was[s] != NUL then was[s := NUL] else was
  }

  lemma TerminatePlaces(was: seq<char>, r: nat, s: nat, end: nat)
    requires r <= s <= end < |was| && was[end] == NUL && forall i | r <= i < end :: was[i] != NUL
    ensures var now := Terminate(was, s);
      var line := if was[s] != NUL then s + 1 else s;
      EndOf(now, r) == s && TextAt(now, r) == was[r..s]
      && EndOf(now, line) == end && TextAt(now, line) == (if s < end then was[s + 1..end] else "")
  {
    var now := Terminate(was, s);
    EndUnique(now, r, s);
    assert now[r..s] == was[r..s];
    if s < end {
      EndUnique(now, s + 1, end);
      assert now[s + 1..end] == was[s + 1..end];
    }
  }

  lemma CutHeadAt(was: seq<char>, first: nat, r: nat, s: nat, end: nat, quot: char)
    requires first <= r <= s <= end < |was| && was[end] == NUL
    requires if IsQuote(was[first]) then r == first + 1 && quot == was[first] else r == first && quot == NUL
    requires s == r + TokenLength(was[r..end], quot)
    ensures CutHead(was[first..end]) == Cut(was[r..s], if s < end then was[s + 1..end] else "")
  {
    CutAtPlace(was, r, s, end, quot);
    if IsQuote(was[first]) {
      assert was[first..end][1..] == was[r..end];
    }
  }

  lemma CutAtPlace(was: seq<char>, r: nat, s: nat, end: nat, quot: char)
    requires r <= s <= end <= |was| && s == r + TokenLength(was[r..end], quot)
    ensures CutAt(was[r..end], quot) == Cut(was[r..s], if s < end then was[s + 1..end] else "")
  {
  }

  lemma CutInPlace(was: seq<char>, text: string, first: nat, r: nat, s: nat, end: nat, quot: char)
    requires first <= r <= s <= end < |was| && was[end] == NUL
    requires text[SkipBlanks(text)..] == was[first..end]
    requires if IsQuote(was[first]) then r == first + 1 && quot == was[first] else r == first && quot == NUL
    requires s == r + TokenLength(was[r..end], quot)
    ensures TokenOf(text) == was[r..s]
    ensures RestOf(text) == if s < end then was[s + 1..end] else ""
  {
    CutHeadAt(was, first, r, s, end, quot);
  }

  // ---- the token loop of parseline ----

  predicate Inside(buf: seq<char>, toks: seq<nat>) {
    forall i | 0 <= i < |toks| :: toks[i] <= |buf|
  }

  function TextsAt(buf: seq<char>, toks: seq<nat>): seq<string>
    requires Inside(buf, toks)
  {
    if toks == [] then [] else TextsAt(buf, toks[..|toks| - 1]) + [TextAt(buf, toks[|toks| - 1])]
  }

  /** Every token found so far is terminated before the line. */
  ghost predicate Before(buf: seq<char>, toks: seq<nat>, line: nat) {
    Inside(buf, toks) &&
    forall i | 0 <= i < |toks| :: EndOf(buf, toks[i]) < line
  }

  lemma SameText(was: seq<char>, now: seq<char>, t: nat, line: nat)
    requires SameBefore(was, now, line) && t <= |was| && EndOf(was, t) < line
    ensures EndOf(now, t) == EndOf(was, t) && TextAt(now, t) == TextAt(was, t)
  {
    var e := EndOf(was, t);
    EndUnique(now, t, e);
    assert now[t..e] == was[t..e];
  }

  /** Later calls of nexttoken do not disturb the tokens already found. */
  lemma {:induction false} TokensUntouched(was: seq<char>, now: seq<char>, toks: seq<nat>, line: nat)
    requires SameBefore(was, now, line) && Before(was, toks, line)
    ensures Before(now, toks, line) && TextsAt(now, toks) == TextsAt(was, toks)
  {
    forall i | 0 <= i < |toks|
      ensures EndOf(now, toks[i]) < line
    {
      SameText(was, now, toks[i], line);
    }
    if toks != [] {
      TokensUntouched(was, now, toks[..|toks| - 1], line);
      SameText(was, now, toks[|toks| - 1], line);
    }
  }

  /** A token taken after the tokens found so far adds its text to theirs. */
  lemma TookNext(was: seq<char>, now: seq<char>, toks: seq<nat>, line: nat, r: nat, line': nat)
    requires Took(was, now, line, r, line') && Before(was, toks, line)
    ensures Inside(now, toks + [r])
    ensures TextsAt(now, toks + [r]) == TextsAt(was, toks) + [TokenOf(TextAt(was, line))]
    ensures TextAt(now, line') != "" ==> Before(now, toks + [r], line')
  {
    TokensUntouched(was, now, toks, line);
    assert (toks + [r])[..|toks|] == toks;
  }

  lemma EmptyAt(buf: seq<char>, line: nat)
    requires line < |buf|
    ensures TextAt(buf, line) == "" <==> buf[line] == NUL
  {
    assert buf[line..][0] == buf[line];
  }

  /** The tokens still to come: none from an empty line. */
  function Left(rest: string): seq<string> {
    if rest == "" then [] else Tokens(rest)
  }

  lemma MoveToken(found: seq<string>, rest: string)
    requires rest != ""
    ensures (found + [TokenOf(rest)]) + Left(RestOf(rest)) == found + Left(rest)
  {
    Unfold(rest, TokenOf(rest), RestOf(rest));
    Assoc(found, [TokenOf(rest)], Left(RestOf(rest)));
  }

  /** What the loop of parseline keeps: the tokens found and those to come are the tokens of the text. */
  ghost predicate Splitting(buf: seq<char>, toks: seq<nat>, line: nat, tokens: seq<string>) {
    Terminated(buf) && line < |buf|
    && Inside(buf, toks)
    && (TextAt(buf, line) != "" ==> Before(buf, toks, line))
    && TextsAt(buf, toks) + Left(TextAt(buf, line)) == tokens
  }

  lemma SplitNext(was: seq<char>, now: seq<char>, toks: seq<nat>, line: nat, r: nat, line': nat, tokens: seq<string>)
    requires Splitting(was, toks, line, tokens) && was[line] != NUL && Took(was, now, line, r, line')
    ensures Splitting(now, toks + [r], line', tokens)
    ensures |TextAt(now, line')| < |TextAt(was, line)|
  {
    EmptyAt(was, line);
    MoveToken(TextsAt(was, toks), TextAt(was, line));
    TookNext(was, now, toks, line, r, line');
  }

  lemma SplitFirst(was: seq<char>, now: seq<char>, r: nat, line': nat)
    requires was != [] && Took(was, now, 0, r, line')
    ensures Splitting(now, [r], line', Tokens(TextAt(was, 0)))
  {
    var text := TextAt(was, 0);
    Unfold(text, TokenOf(text), RestOf(text));
    TookNext(was, now, [], 0, r, line');
    assert [] + [r] == [r];
    assert TextsAt(was, []) + [TokenOf(text)] == [TokenOf(text)];
  }

  lemma SplitDone(buf: seq<char>, toks: seq<nat>, line: nat, tokens: seq<string>)
    requires Splitting(buf, toks, line, tokens) && buf[line] == NUL
    ensures TextsAt(buf, toks) == tokens
  {
    EmptyAt(buf, line);
  }

  /** parseline: one token, then tokens until the line is empty; it ends because every call shortens the line. */
  method SplitLine(buf: array<char>) returns (toks: seq<nat>)
    requires Terminated(buf[..])
    modifies buf
    ensures Inside(buf[..], toks)
    ensures TextsAt(buf[..], toks) == Tokens(TextAt(old(buf[..]), 0))
  {
    ghost var tokens := Tokens(TextAt(buf[..], 0));
    var tok, line := NextToken(buf, 0);
    SplitFirst(old(buf[..]), buf[..], tok, line);
    toks := [tok];
    while buf[line] != NUL
      invariant Splitting(buf[..], toks, line, tokens)
      decreases |TextAt(buf[..], line)|
    {
      ghost var was, at := buf[..], line;
      tok, line := NextToken(buf, line);
      SplitNext(was, buf[..], toks, at, tok, line, tokens);
      toks := toks + [tok];
    }
    SplitDone(buf[..], toks, line, tokens);
  }
}
