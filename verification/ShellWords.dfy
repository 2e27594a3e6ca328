/** The quote-aware word splitter for command templates
    (crates/apollo-core/src/runtime_registry.rs, shell_words). */
module ShellWords {
  import opened Chars

  /** The splitter's variables: finished words, the word being read, and the open quote mark if any. */
  datatype Scan = Scan(words: seq<string>, current: string, inQuote: bool, quoteChar: char)

  const START := Scan([], [], false, '"')

  predicate IsQuote(c: char) { c == '"' || c == '\'' }

  function Feed(s: Scan, c: char): Scan {
    if s.inQuote then
      if c == s.quoteChar then s.(inQuote := false) else s.(current := s.current + [c])
    else if IsQuote(c) then s.(inQuote := true, quoteChar := c)
    else if IsWhitespace(c) then
      if s.current != [] then s.(words := s.words + [s.current], current := []) else s
    else s.(current := s.current + [c])
  }

  function FeedAll(s: Scan, text: string): Scan {
    if text == [] then s else Feed(FeedAll(s, text[..|text| - 1]), text[|text| - 1])
  }

  /** End of input: a word still being read counts; an unclosed quote is closed silently. */
  function Finish(s: Scan): seq<string> {
    if s.current != [] then s.words + [s.current] else s.words
  }

  function WordsOf(text: string): seq<string> {
    Finish(FeedAll(START, text))
  }

  method SplitWords(s: string) returns (words: seq<string>)
    ensures words == WordsOf(s)
  {
    words := [];
    var current: string := [];
    var inQuote := false;
    var quoteChar := '"';
    for k := 0 to |s|
      invariant Scan(words, current, inQuote, quoteChar) == FeedAll(START, s[..k])
    {
      var c := s[k];
      assert s[..k + 1][..k] == s[..k];
      if inQuote {
        if c == quoteChar { inQuote := false; } else { current := current + [c]; }
      } else if c == '"' || c == '\'' {
        inQuote := true;
        quoteChar := c;
      } else if IsWhitespace(c) {
        if current != [] {
          words := words + [current];
          current := [];
        }
      } else {
        current := current + [c];
      }
    }
    assert s[..|s|] == s;
    if current != [] { words := words + [current]; }
  }

  lemma {:induction false} FeedConcat(s: Scan, a: string, b: string)
    ensures FeedAll(s, a + b) == FeedAll(FeedAll(s, a), b)
  {
    if b == [] {
      assert a + b == a;
    } else {
      var m := |b| - 1;
      FeedConcat(s, a, b[..m]);
      assert (a + b)[..|a + b| - 1] == a + b[..m];
    }
  }

  /** No word is ever empty. */
  lemma {:induction false} WordsAreNonEmpty(s: Scan, text: string)
    requires [] !in s.words
    ensures [] !in FeedAll(s, text).words && [] !in Finish(FeedAll(s, text))
  {
    if text != [] { WordsAreNonEmpty(s, text[..|text| - 1]); }
  }

  // ---- a quoting that any text survives ----

  /** A character inside the quote mark that it is not. */
  function QuoteChar(c: char): string {
    if c == '"' then ['\'', c, '\''] else ['"', c, '"']
  }

  function QuoteWord(w: string): string {
    if w == [] then [] else QuoteWord(w[..|w| - 1]) + QuoteChar(w[|w| - 1])
  }

  /** Quoted words, one space between neighbours. */
  function QuoteAll(words: seq<string>): string {
    if words == [] then []
    else if |words| == 1 then QuoteWord(words[0])
    else QuoteAll(words[..|words| - 1]) + [' '] + QuoteWord(words[|words| - 1])
  }

  lemma QuotedCharIsRead(s: Scan, c: char)
    requires !s.inQuote
    ensures var r := FeedAll(s, QuoteChar(c)); !r.inQuote && r.words == s.words && r.current == s.current + [c]
  {
    var q := QuoteChar(c);
    assert q[..2][..1][..0] == [] && q[..2][..1] == [q[0]] && q[..2] == [q[0], q[1]];
    assert FeedAll(s, q[..2][..1]) == Feed(s, q[0]);
    assert FeedAll(s, q[..2]) == Feed(Feed(s, q[0]), q[1]);
    assert FeedAll(s, q) == Feed(Feed(Feed(s, q[0]), q[1]), q[2]);
  }

  lemma {:induction false} QuotedWordIsRead(s: Scan, w: string)
    requires !s.inQuote
    ensures var r := FeedAll(s, QuoteWord(w)); !r.inQuote && r.words == s.words && r.current == s.current + w
  {
    if w != [] {
      var m := |w| - 1;
      QuotedWordIsRead(s, w[..m]);
      QuotedCharIsRead(FeedAll(s, QuoteWord(w[..m])), w[m]);
      FeedConcat(s, QuoteWord(w[..m]), QuoteChar(w[m]));
      assert s.current + w == s.current + w[..m] + [w[m]];
    }
  }

  function NonEmpty(words: seq<string>): seq<string> {
    if words == [] then []
    else
      var init := NonEmpty(words[..|words| - 1]);
      if words[|words| - 1] == [] then init else init + [words[|words| - 1]]
  }

  /** After a space, a quoted word adds itself to the finished ones. */
  lemma QuotedWordFollows(s: Scan, w: string)
    requires !s.inQuote
    ensures var r := FeedAll(s, [' '] + QuoteWord(w));
            !r.inQuote && Finish(r) == Finish(s) + (if w == [] then [] else [w])
  {
    FeedConcat(s, [' '], QuoteWord(w));
    assert [' '][..0] == [];
    assert FeedAll(s, [' ']) == Feed(s, ' ');
    var t := Feed(s, ' ');
    assert t.words == Finish(s) && t.current == [];
    QuotedWordIsRead(t, w);
    assert t.current + w == w && Finish(s) + [] == Finish(s);
  }

  lemma {:induction false} QuotedWordsAreRead(words: seq<string>)
    ensures var r := FeedAll(START, QuoteAll(words)); !r.inQuote && Finish(r) == NonEmpty(words)
  {
    if |words| == 1 {
      QuotedWordIsRead(START, words[0]);
      assert words[..0] == [] && NonEmpty(words[..0]) == [];
      assert START.current + words[0] == words[0];
    } else if words != [] {
      var m := |words| - 1;
      QuotedWordsAreRead(words[..m]);
      var before := QuoteAll(words[..m]);
      FeedConcat(START, before, [' '] + QuoteWord(words[m]));
      assert QuoteAll(words) == before + ([' '] + QuoteWord(words[m]));
      hide FeedAll, QuoteWord, QuoteAll;
      QuotedWordFollows(FeedAll(START, before), words[m]);
    }
  }

  lemma {:induction false} NonEmptyIsIdentity(words: seq<string>)
    ensures NonEmpty(words) == words <==> [] !in words
  {
    if words != [] {
      var init := words[..|words| - 1];
      NonEmptyIsIdentity(init);
      NonEmptyShrinks(init);
      assert words == init + [words[|words| - 1]];
    }
  }

  lemma {:induction false} NonEmptyShrinks(words: seq<string>)
    ensures |NonEmpty(words)| <= |words|
  {
    if words != [] { NonEmptyShrinks(words[..|words| - 1]); }
  }

  /** Splitting the quoted text gives back the words, over arbitrary characters: exactly the empty words are lost. */
  lemma QuotedRoundTrip(words: seq<string>)
    ensures WordsOf(QuoteAll(words)) == NonEmpty(words)
    ensures WordsOf(QuoteAll(words)) == words <==> [] !in words
  {
    QuotedWordsAreRead(words);
    NonEmptyIsIdentity(words);
  }

  // ---- words of bare and quoted segments, any white space between ----

  /** Part of a word: bare text, or any text inside a quote mark that does not occur in it. */
  datatype Segment = Bare(text: string) | Quoted(text: string, mark: char)

  ghost predicate IsSegment(g: Segment) {
    match g
    case Bare(text) => forall c :: c in text ==> !IsWhitespace(c) && c != '"' && c != '\''
    case Quoted(text, mark) => (mark == '"' || mark == '\'') && mark !in text
  }

  function Render(g: Segment): string {
    match g
    case Bare(text) => text
    case Quoted(text, mark) => [mark] + text + [mark]
  }

  function RenderWord(w: seq<Segment>): string {
    if w == [] then [] else RenderWord(w[..|w| - 1]) + Render(w[|w| - 1])
  }

  function TextOf(w: seq<Segment>): string {
    if w == [] then [] else TextOf(w[..|w| - 1]) + w[|w| - 1].text
  }

  ghost predicate IsGap(gap: string) {
    gap != [] && forall c :: c in gap ==> IsWhitespace(c)
  }

  /** Each word and the gap after it. */
  function Spread(words: seq<seq<Segment>>, gaps: seq<string>): string
    requires |words| == |gaps|
  {
    if words == [] then []
    else
      var m := |words| - 1;
      Spread(words[..m], gaps[..m]) + RenderWord(words[m]) + gaps[m]
  }

  function TextsOf(words: seq<seq<Segment>>): seq<string> {
    if words == [] then [] else TextsOf(words[..|words| - 1]) + [TextOf(words[|words| - 1])]
  }

  lemma {:induction false} BareIsRead(s: Scan, text: string)
    requires !s.inQuote && forall c :: c in text ==> !IsWhitespace(c) && c != '"' && c != '\''
    ensures FeedAll(s, text) == s.(current := s.current + text)
  {
    if text == [] {
      assert s.current + text == s.current;
    } else {
      var m := |text| - 1;
      assert text[m] in text && forall c :: c in text[..m] ==> c in text;
      hide IsWhitespace;
      BareIsRead(s, text[..m]);
      var t := FeedAll(s, text[..m]);
      assert Feed(t, text[m]) == t.(current := t.current + [text[m]]);
      assert s.current + text == s.current + text[..m] + [text[m]];
    }
  }

  lemma {:induction false} InQuoteIsRead(s: Scan, text: string)
    requires s.inQuote && s.quoteChar !in text
    ensures FeedAll(s, text) == s.(current := s.current + text)
  {
    if text == [] {
      assert s.current + text == s.current;
    } else {
      var m := |text| - 1;
      InQuoteIsRead(s, text[..m]);
      assert text[m] in text && s.current + text == s.current + text[..m] + [text[m]];
    }
  }

  lemma FeedOne(s: Scan, c: char)
    ensures FeedAll(s, [c]) == Feed(s, c)
  {
    assert [c][..0] == [];
  }

  lemma SegmentIsRead(s: Scan, g: Segment)
    requires !s.inQuote && IsSegment(g)
    ensures var r := FeedAll(s, Render(g)); !r.inQuote && r.words == s.words && r.current == s.current + g.text
  {
    match g
    case Bare(text) => BareIsRead(s, text);
    case Quoted(text, mark) =>
      FeedOne(s, mark);
      FeedConcat(s, [mark], text);
      InQuoteIsRead(Feed(s, mark), text);
      var t := FeedAll(s, [mark] + text);
      FeedOne(t, mark);
      FeedConcat(s, [mark] + text, [mark]);
  }

  ghost predicate IsWord(w: seq<Segment>) {
    forall k :: 0 <= k < |w| ==> IsSegment(w[k])
  }

  /** What a word does to a scan outside quotes. */
  ghost predicate Adds(before: Scan, after: Scan, text: string) {
    !before.inQuote && !after.inQuote && after.words == before.words && after.current == before.current + text
  }

  lemma AddsMore(a: Scan, b: Scan, c: Scan, x: string, y: string)
    requires Adds(a, b, x) && Adds(b, c, y)
    ensures Adds(a, c, x + y)
  {
    assert a.current + (x + y) == a.current + x + y;
  }

  lemma SegmentAdds(s: Scan, g: Segment)
    requires !s.inQuote && IsSegment(g)
    ensures Adds(s, FeedAll(s, Render(g)), g.text)
  {
    SegmentIsRead(s, g);
    hide FeedAll, IsSegment, Render;
  }

  lemma {:induction false} WordAdds(s: Scan, w: seq<Segment>)
    requires !s.inQuote && IsWord(w)
    ensures Adds(s, FeedAll(s, RenderWord(w)), TextOf(w))
  {
    if w == [] {
      assert s.current + [] == s.current;
    } else {
      var m := |w| - 1;
      assert IsWord(w[..m]) && IsSegment(w[m]);
      assert RenderWord(w) == RenderWord(w[..m]) + Render(w[m]) && TextOf(w) == TextOf(w[..m]) + w[m].text;
      WordAdds(s, w[..m]);
      var t := FeedAll(s, RenderWord(w[..m]));
      assert !t.inQuote;
      hide *;
      FeedConcat(s, RenderWord(w[..m]), Render(w[m]));
      SegmentAdds(t, w[m]);
      AddsMore(s, t, FeedAll(t, Render(w[m])), TextOf(w[..m]), w[m].text);
    }
  }

  lemma {:induction false} GapIsRead(s: Scan, gap: string)
    requires !s.inQuote && forall c :: c in gap ==> IsWhitespace(c)
    ensures var r := FeedAll(s, gap);
            !r.inQuote && if gap == [] then r == s else r.words == Finish(s) && r.current == []
  {
    if gap != [] {
      var m := |gap| - 1;
      GapIsRead(s, gap[..m]);
      assert gap[m] in gap;
      SpacesAreNoQuotes(gap[m]);
      hide IsWhitespace;
    }
  }

  lemma SpacesAreNoQuotes(c: char)
    requires IsWhitespace(c)
    ensures c != '"' && c != '\''
  {
  }

  ghost predicate AreSpread(words: seq<seq<Segment>>, gaps: seq<string>) {
    |words| == |gaps| && forall j :: 0 <= j < |words| ==> IsGap(gaps[j]) && IsWord(words[j])
  }

  /** Outside quotes and between words, with these words read since. */
  ghost predicate Between(before: Scan, after: Scan, words: seq<string>) {
    !after.inQuote && after.current == [] && after.words == before.words + words
  }

  lemma BetweenMore(a: Scan, b: Scan, c: Scan, x: seq<string>, y: seq<string>)
    requires Between(a, b, x) && Between(b, c, y)
    ensures Between(a, c, x + y)
  {
    assert a.words + (x + y) == a.words + x + y;
  }

  lemma {:induction false} SpreadIsRead(s: Scan, words: seq<seq<Segment>>, gaps: seq<string>)
    requires !s.inQuote && s.current == [] && AreSpread(words, gaps)
    ensures Between(s, FeedAll(s, Spread(words, gaps)), NonEmpty(TextsOf(words)))
  {
    if words == [] {
      assert s.words + [] == s.words;
    } else {
      var m := |words| - 1;
      assert AreSpread(words[..m], gaps[..m]) && IsWord(words[m]) && IsGap(gaps[m]);
      var before, word := Spread(words[..m], gaps[..m]), RenderWord(words[m]);
      assert TextsOf(words) == TextsOf(words[..m]) + [TextOf(words[m])];
      assert Spread(words, gaps) == before + word + gaps[m];
      SpreadIsRead(s, words[..m], gaps[..m]);
      var t := FeedAll(s, before);
      assert !t.inQuote && t.current == [];
      hide *;
      FeedConcat(s, before, word);
      FeedConcat(s, before + word, gaps[m]);
      NonEmptyLast(TextsOf(words[..m]), TextOf(words[m]));
      WordAndGap(t, words[m], gaps[m]);
      BetweenMore(s, t, FeedAll(FeedAll(t, word), gaps[m]), NonEmpty(TextsOf(words[..m])),
                  if TextOf(words[m]) == [] then [] else [TextOf(words[m])]);
    }
  }

  lemma WordAndGap(s: Scan, w: seq<Segment>, gap: string)
    requires !s.inQuote && s.current == [] && IsWord(w) && IsGap(gap)
    ensures Between(s, FeedAll(FeedAll(s, RenderWord(w)), gap), if TextOf(w) == [] then [] else [TextOf(w)])
  {
    assert gap != [] && forall c :: c in gap ==> IsWhitespace(c);
    hide FeedAll, IsSegment, RenderWord, TextOf, IsWord, IsWhitespace, IsGap;
    WordAdds(s, w);
    var t, text := FeedAll(s, RenderWord(w)), TextOf(w);
    assert [] + text == text && t.words == s.words && t.current == text;
    GapIsRead(t, gap);
    hide Adds;
    assert Finish(t) == s.words + if text == [] then [] else [text];
  }

  lemma NonEmptyLast(texts: seq<string>, w: string)
    ensures NonEmpty(texts + [w]) == NonEmpty(texts) + if w == [] then [] else [w]
  {
    assert (texts + [w])[..|texts|] == texts;
    assert NonEmpty(texts) + [] == NonEmpty(texts);
  }

  /** Words of bare and quoted segments come back, whatever white space is before, between and after them: a quote
      mark neither starts nor ends a word, white space outside quotes does, and exactly the empty words are lost. */
  lemma SegmentsRoundTrip(lead: string, words: seq<seq<Segment>>, gaps: seq<string>, last: seq<Segment>)
    requires AreSpread(words, gaps) && IsWord(last) && forall c :: c in lead ==> IsWhitespace(c)
    ensures WordsOf(lead + Spread(words, gaps) + RenderWord(last)) == NonEmpty(TextsOf(words) + [TextOf(last)])
  {
    var spread := Spread(words, gaps);
    GapIsRead(START, lead);
    var t := FeedAll(START, lead);
    assert !t.inQuote && t.current == [] && t.words == [];
    hide FeedAll, IsWord, AreSpread, RenderWord, Spread, TextOf, TextsOf, IsWhitespace;
    SpreadIsRead(t, words, gaps);
    var u := FeedAll(t, spread);
    assert u.current == [] && u.words == NonEmpty(TextsOf(words));
    FeedConcat(START, lead, spread);
    FeedConcat(START, lead + spread, RenderWord(last));
    WordAdds(u, last);
    NonEmptyLast(TextsOf(words), TextOf(last));
    hide NonEmpty;
    assert [] + TextOf(last) == TextOf(last) && NonEmpty(TextsOf(words)) + [] == NonEmpty(TextsOf(words));
  }
}
