/** The tokenizer and the scans of src/framing_vocabulary.rs. */
module Framing {
  import opened Wrappers
  import opened Text

  const ESC: char := '\U{1B}'
  const TERMINATOR: char := 'm'

  predicate AlphaNumeric(c: char) {
    '0' <= c <= '9' || 'a' <= c <= 'z' || 'A' <= c <= 'Z'
  }

  /** The letters and digits of US-ASCII (ANSI X3.4), one by one. */
  lemma AlphaNumericExactlyWhen(c: char)
    ensures AlphaNumeric(c) <==> c as int in {
              48, 49, 50, 51, 52, 53, 54, 55, 56, 57,
              65, 66, 67, 68, 69, 70, 71, 72, 73, 74, 75, 76, 77, 78, 79, 80, 81, 82, 83, 84, 85, 86, 87, 88, 89, 90,
              97, 98, 99, 100, 101, 102, 103, 104, 105, 106, 107, 108, 109,
              110, 111, 112, 113, 114, 115, 116, 117, 118, 119, 120, 121, 122}
  {
  }

  function Lower(c: char): char {
    if 'A' <= c <= 'Z' then (c as int + 32) as char else c
  }

  // --- escape runs ---

  /** What is left once an open escape run has been dropped: everything after its
      terminator, or nothing when it is never terminated. */
  function AfterRun(s: string): (r: string)
    ensures |r| <= |s|
  {
    if s == "" then "" else if s[0] == TERMINATOR then s[1..] else AfterRun(s[1..])
  }

  /** The text without its escape runs. */
  function Plain(text: string): string
    decreases |text|
  {
    if text == "" then ""
    else if text[0] == ESC then Plain(AfterRun(text[1..]))
    else [text[0]] + Plain(text[1..])
  }

  /** Whether the text ends inside an escape run. */
  predicate OpenRun(text: string)
    decreases |text|
  {
    text != "" &&
    if text[0] == ESC then TERMINATOR !in text[1..] || OpenRun(AfterRun(text[1..]))
    else OpenRun(text[1..])
  }

  // --- words ---

  predicate Separates(c: char) {
    !AlphaNumeric(c)
  }

  function NonEmpty(pieces: seq<string>): seq<string> {
    if pieces == [] then []
    else (if pieces[0] == "" then [] else [pieces[0]]) + NonEmpty(pieces[1..])
  }

  function Lowered(s: string): (r: string)
    ensures |r| == |s| && forall i :: 0 <= i < |s| ==> r[i] == Lower(s[i])
  {
    seq(|s|, i requires 0 <= i < |s| => Lower(s[i]))
  }

  function LoweredAll(words: seq<string>): (r: seq<string>)
    ensures |r| == |words| && forall i :: 0 <= i < |words| ==> r[i] == Lowered(words[i])
  {
    seq(|words|, i requires 0 <= i < |words| => Lowered(words[i]))
  }

  /** The words of text that carries no escape run. */
  function PlainWords(plain: string): seq<string> {
    LoweredAll(NonEmpty(Split(plain, Separates)))
  }

  function Words(text: string): seq<string> {
    PlainWords(Plain(text))
  }

  /** `words_of`: one iterator, consumed by the outer loop and by the loop that skips a run. */
  method WordsOf(text: string) returns (words: seq<string>)
    ensures words == Words(text)
  {
    var plain := "";
    var at := 0;
    assert text[at..] == text && plain + Plain(text) == Plain(text);
    while at < |text|
      invariant 0 <= at <= |text|
      invariant plain + Plain(text[at..]) == Plain(text)
    {
      var c := text[at];
      ghost var rest := text[at + 1..];
      assert text[at..][1..] == rest;
      at := at + 1;
      if c == ESC {
        var open := true;
        assert text[at..] == rest;
        while open && at < |text|
          invariant 0 < at <= |text|
          invariant AfterRun(rest) == if open then AfterRun(text[at..]) else text[at..]
          decreases |text| - at
        {
          assert text[at..][1..] == text[at + 1..];
          open := text[at] != TERMINATOR;
          at := at + 1;
        }
        if open { assert text[at..] == ""; }
      } else {
        plain := plain + [c];
      }
    }
    assert plain + "" == plain;
    return PlainWords(plain);
  }

  // --- scans ---

  function Kept(items: seq<string>, keep: string -> bool): seq<string> {
    if items == [] then []
    else (if keep(items[0]) then [items[0]] else []) + Kept(items[1..], keep)
  }

  function NotIn(exempt: seq<string>): string -> bool {
    t => t !in exempt
  }

  /** `banned_tokens_except`: the one derivation rule of every audience's list. */
  function Except(tokens: seq<string>, exempt: seq<string>): seq<string> {
    Kept(tokens, NotIn(exempt))
  }

  function Spent(words: seq<string>): string -> bool {
    t => t in words
  }

  /** Whether the parts of the phrase are adjacent words. */
  predicate PhrasePresent(words: seq<string>, phrase: string) {
    var parts := Split(phrase, Is(' '));
    exists i :: 0 <= i <= |words| - |parts| && words[i..][..|parts|] == parts
  }

  function Adjacent(words: seq<string>): string -> bool {
    phrase => PhrasePresent(words, phrase)
  }

  /** Every hit: the tokens in list order, then the phrases. */
  function ScanAll(text: string, tokens: seq<string>, phrases: seq<string>): seq<string> {
    var words := Words(text);
    Kept(tokens, Spent(words)) + Kept(phrases, Adjacent(words))
  }

  /** The first hit. */
  function ScanFirst(text: string, tokens: seq<string>, phrases: seq<string>): Option<string> {
    var hits := ScanAll(text, tokens, phrases);
    if hits == [] then None else Some(hits[0])
  }

  const BANNED_PHRASES: seq<string> := ["top up", "get more"]
  const HELP_EXEMPT_TOKENS: seq<string> := ["add", "disable", "enable", "remove"]
  const ADVISORY_EXEMPT_TOKENS: seq<string> := ["enable"]
  const USAGE_EXEMPT_TOKENS: seq<string> := ["disable", "enable", "remove"]

  // --- laws of escape runs ---

  lemma {:induction false} AfterRunAppend(a: string, b: string)
    ensures AfterRun(a + b) == if TERMINATOR in a then AfterRun(a) + b else AfterRun(b)
  {
    if a == "" {
      assert a + b == b;
    } else {
      assert (a + b)[1..] == a[1..] + b;
      if a[0] != TERMINATOR { AfterRunAppend(a[1..], b); }
    }
  }

  /** Dropping runs from a concatenation: the second part keeps everything, unless the
      first part ends inside a run, which then swallows up to the next terminator. */
  lemma {:induction false} PlainAppend(a: string, b: string)
    ensures Plain(a + b) == Plain(a) + (if OpenRun(a) then Plain(AfterRun(b)) else Plain(b))
    decreases |a|
  {
    if a == "" {
      assert a + b == b;
    } else {
      assert (a + b)[1..] == a[1..] + b;
      if a[0] == ESC {
        AfterRunAppend(a[1..], b);
        if TERMINATOR in a[1..] {
          PlainAppend(AfterRun(a[1..]), b);
        } else {
          UnterminatedRunDropsAll(a[1..]);
          assert Plain(a) == "" && OpenRun(a);
        }
      } else {
        PlainAppend(a[1..], b);
        Regroup([a[0]], Plain(a[1..]), if OpenRun(a[1..]) then Plain(AfterRun(b)) else Plain(b));
      }
    }
  }

  lemma {:induction false} UnterminatedRunDropsAll(s: string)
    requires TERMINATOR !in s
    ensures AfterRun(s) == ""
  {
    if s != "" { UnterminatedRunDropsAll(s[1..]); }
  }

  /** A terminated run inserted outside any other run changes no word, even mid-word. */
  lemma InsertedRunChangesNothing(a: string, run: string, b: string)
    requires !OpenRun(a) && TERMINATOR !in run
    ensures Words(a + ([ESC] + run + [TERMINATOR] + b)) == Words(a + b)
  {
    var escape := [ESC] + run + [TERMINATOR] + b;
    assert escape[1..] == run + ([TERMINATOR] + b);
    AfterRunAppend(run, [TERMINATOR] + b);
    assert ([TERMINATOR] + b)[1..] == b;
    PlainAppend(a, escape);
    PlainAppend(a, b);
  }

  // --- laws of words ---

  lemma {:induction false} NonEmptyAppend(a: seq<string>, b: seq<string>)
    ensures NonEmpty(a + b) == NonEmpty(a) + NonEmpty(b)
  {
    if a == [] {
      assert a + b == b;
    } else {
      assert (a + b)[0] == a[0] && (a + b)[1..] == a[1..] + b;
      NonEmptyAppend(a[1..], b);
      Regroup(if a[0] == "" then [] else [a[0]], NonEmpty(a[1..]), NonEmpty(b));
    }
  }

  /** A separator is a word boundary. */
  lemma PlainWordsAcrossSeparator(a: string, c: char, b: string)
    requires Separates(c)
    ensures PlainWords(a + [c] + b) == PlainWords(a) + PlainWords(b)
  {
    SplitAtSeparator(a, c, b, Separates);
    NonEmptyAppend(Split(a, Separates), Split(b, Separates));
  }

  /** The words of two texts with a space between are the words of the one and then of the
      other, when the first does not end inside an escape run. */
  lemma WordsAcrossSpace(a: string, b: string)
    requires !OpenRun(a)
    ensures Words(a + " " + b) == Words(a) + Words(b)
  {
    assert a + " " + b == a + ([' '] + b);
    PlainAppend(a, [' '] + b);
    assert ([' '] + b)[1..] == b;
    assert Plain(a + " " + b) == Plain(a) + [' '] + Plain(b);
    PlainWordsAcrossSeparator(Plain(a), ' ', Plain(b));
  }

  ghost predicate Word(w: string) {
    w != "" && forall c :: c in w ==> '0' <= c <= '9' || 'a' <= c <= 'z'
  }

  /** Lowering takes each capital letter to the small letter at the same place in the
      alphabet, and changes nothing else. */
  lemma LoweringFoldsCase(c: char)
    ensures 'A' <= c <= 'Z' ==> 'a' <= Lower(c) <= 'z' && Lower(c) as int - 'a' as int == c as int - 'A' as int
    ensures !('A' <= c <= 'Z') ==> Lower(c) == c
  {
  }

  lemma {:induction false} NonEmptyMembers(pieces: seq<string>, w: string)
    ensures w in NonEmpty(pieces) <==> w in pieces && w != ""
  {
    if pieces != [] { NonEmptyMembers(pieces[1..], w); }
  }

  /** Every word is a non-empty run of lowercase ASCII letters and digits. */
  lemma WordsAreWords(text: string, w: string)
    requires w in Words(text)
    ensures Word(w)
  {
    var pieces := Split(Plain(text), Separates);
    var i :| 0 <= i < |Words(text)| && Words(text)[i] == w;
    var raw := NonEmpty(pieces)[i];
    assert raw in NonEmpty(pieces);
    NonEmptyMembers(pieces, raw);
    forall k | 0 <= k < |w| ensures '0' <= w[k] <= '9' || 'a' <= w[k] <= 'z' {
      assert raw[k] in raw;
      PiecesHaveNoSeparator(Plain(text), Separates, raw, raw[k]);
    }
  }

  lemma {:induction false} PlainOfPlainText(s: string)
    requires ESC !in s
    ensures Plain(s) == s
  {
    if s != "" {
      PlainOfPlainText(s[1..]);
      assert s == [s[0]] + s[1..];
    }
  }

  lemma PlainWordsOfOneWord(w: string)
    requires Word(w)
    ensures PlainWords(w) == [w]
  {
    SplitWithoutSeparator(w, Separates);
    assert NonEmpty([w]) == [w] by { assert [w][1..] == []; }
    assert Lowered(w) == w by {
      forall k | 0 <= k < |w| ensures Lower(w[k]) == w[k] { assert w[k] in w; }
    }
    assert LoweredAll([w]) == [w];
  }

  lemma {:induction false} PlainWordsOfJoin(words: seq<string>)
    requires words != [] && forall w :: w in words ==> Word(w)
    ensures PlainWords(Join(words, ' ')) == words
    ensures ESC !in Join(words, ' ')
  {
    PlainWordsOfOneWord(words[0]);
    if |words| > 1 {
      PlainWordsOfJoin(words[1..]);
      PlainWordsAcrossSeparator(words[0], ' ', Join(words[1..], ' '));
    }
  }

  /** The words with a space between. */
  function Joined(words: seq<string>): string {
    if words == [] then "" else Join(words, ' ')
  }

  /** Tokenizing the joined words again gives the same words. */
  lemma WordsAreAFixedPoint(text: string)
    ensures Words(Joined(Words(text))) == Words(text)
  {
    if Words(text) != [] {
      forall w | w in Words(text) ensures Word(w) {
        WordsAreWords(text, w);
      }
      PlainWordsOfJoin(Words(text));
      PlainOfPlainText(Join(Words(text), ' '));
    } else {
      LoneRun("");
    }
  }

  /** A maximal run of letters and digits, at positions `i..j`. */
  ghost predicate MaximalRun(s: string, i: nat, j: nat) {
    && i < j <= |s|
    && (forall k :: i <= k < j ==> AlphaNumeric(s[k]))
    && (i == 0 || Separates(s[i - 1]))
    && (j == |s| || Separates(s[j]))
  }

  function LeadingRun(s: string): (n: nat)
    ensures n <= |s|
    ensures forall k :: 0 <= k < n ==> AlphaNumeric(s[k])
    ensures n < |s| ==> Separates(s[n])
  {
    if s == "" || Separates(s[0]) then 0 else 1 + LeadingRun(s[1..])
  }

  lemma CutAt(s: string, n: nat)
    requires n < |s|
    ensures s[..n] + [s[n]] + s[n + 1..] == s
  {
  }

  lemma RunOfSuffix(s: string, from: nat, i: nat, j: nat)
    requires 0 < from <= |s| && Separates(s[from - 1]) && MaximalRun(s[from..], i, j)
    ensures MaximalRun(s, from + i, from + j) && s[from + i..from + j] == s[from..][i..j]
  {
    var rest := s[from..];
    forall k | from + i <= k < from + j ensures AlphaNumeric(s[k]) { assert s[k] == rest[k - from]; }
    assert i > 0 ==> s[from + i - 1] == rest[i - 1];
    assert j < |rest| ==> s[from + j] == rest[j];
  }

  // --- reading order ---

  datatype Span = Span(start: nat, end: nat)

  /** The spans are maximal runs, one before the other. */
  ghost predicate RunsInOrder(s: string, spans: seq<Span>) {
    && (forall k :: 0 <= k < |spans| ==> MaximalRun(s, spans[k].start, spans[k].end))
    && (forall k, l :: 0 <= k < l < |spans| ==> spans[k].end < spans[l].start)
  }

  ghost predicate EveryRunListed(s: string, spans: seq<Span>) {
    forall i: nat, j: nat :: MaximalRun(s, i, j) ==> Span(i, j) in spans
  }

  ghost predicate Spells(s: string, spans: seq<Span>, words: seq<string>) {
    && |words| == |spans|
    && forall k :: 0 <= k < |spans| ==>
         spans[k].start <= spans[k].end <= |s| && words[k] == Lowered(s[spans[k].start..spans[k].end])
  }

  ghost function Shifted(spans: seq<Span>, offset: nat): (r: seq<Span>)
    ensures |r| == |spans|
    ensures forall k :: 0 <= k < |spans| ==> r[k] == Span(spans[k].start + offset, spans[k].end + offset)
  {
    seq(|spans|, k requires 0 <= k < |spans| => Span(spans[k].start + offset, spans[k].end + offset))
  }

  /** The words of text that goes on after its leading run. */
  lemma PlainWordsAfterRun(s: string, n: nat)
    requires n < |s| && Separates(s[n]) && forall k :: 0 <= k < n ==> AlphaNumeric(s[k])
    ensures PlainWords(s) == (if n == 0 then [] else [Lowered(s[..n])]) + PlainWords(s[n + 1..])
  {
    CutAt(s, n);
    PlainWordsAcrossSeparator(s[..n], s[n], s[n + 1..]);
    LoneRun(s[..n]);
  }

  lemma LoneRun(s: string)
    requires forall k :: 0 <= k < |s| ==> AlphaNumeric(s[k])
    ensures PlainWords(s) == if s == "" then [] else [Lowered(s)]
  {
    SplitWithoutSeparator(s, Separates);
    assert [s][1..] == [];
    assert NonEmpty([s]) == if s == "" then [] else [s];
  }

  /** A maximal run of the text is its leading run or lies past the separator after it. */
  lemma RunPastTheFirst(s: string, n: nat, i: nat, j: nat)
    requires n < |s| && Separates(s[n]) && forall k :: 0 <= k < n ==> AlphaNumeric(s[k])
    requires MaximalRun(s, i, j)
    ensures (i == 0 && j == n) || (n < i && MaximalRun(s[n + 1..], i - (n + 1), j - (n + 1)))
  {
    var rest := s[n + 1..];
    if i <= n {
      assert i == 0 && j == n;
    } else {
      forall k | i - (n + 1) <= k < j - (n + 1) ensures AlphaNumeric(rest[k]) { assert rest[k] == s[k + n + 1]; }
      assert i - (n + 1) > 0 ==> rest[i - (n + 1) - 1] == s[i - 1];
      assert j < |s| ==> rest[j - (n + 1)] == s[j];
    }
  }

  ghost function First(n: nat): seq<Span> {
    if n == 0 then [] else [Span(0, n)]
  }

  ghost predicate StartsWithRun(s: string, n: nat) {
    n < |s| && Separates(s[n]) && forall k :: 0 <= k < n ==> AlphaNumeric(s[k])
  }

  /** Where each span of the whole comes from. */
  lemma SpanAt(n: nat, later: seq<Span>, k: nat)
    requires k < |First(n) + Shifted(later, n + 1)|
    ensures var m := |First(n)|;
            (First(n) + Shifted(later, n + 1))[k] ==
              if k < m then Span(0, n) else Span(later[k - m].start + n + 1, later[k - m].end + n + 1)
  {
  }

  lemma RunsGoOn(s: string, n: nat, later: seq<Span>, k: nat)
    requires StartsWithRun(s, n) && RunsInOrder(s[n + 1..], later) && k < |First(n) + Shifted(later, n + 1)|
    ensures var span := (First(n) + Shifted(later, n + 1))[k];
            MaximalRun(s, span.start, span.end)
  {
    var m := |First(n)|;
    SpanAt(n, later, k);
    if k >= m { RunOfSuffix(s, n + 1, later[k - m].start, later[k - m].end); }
  }

  lemma RunsGoOnInOrder(s: string, n: nat, later: seq<Span>)
    requires StartsWithRun(s, n) && RunsInOrder(s[n + 1..], later)
    ensures RunsInOrder(s, First(n) + Shifted(later, n + 1))
  {
    var spans, m := First(n) + Shifted(later, n + 1), |First(n)|;
    forall k | 0 <= k < |spans| ensures MaximalRun(s, spans[k].start, spans[k].end) {
      RunsGoOn(s, n, later, k);
    }
    forall k, l | 0 <= k < l < |spans| ensures spans[k].end < spans[l].start {
      SpanAt(n, later, k);
      SpanAt(n, later, l);
      if k >= m { assert later[k - m].end < later[l - m].start; }
    }
  }

  lemma EveryRunStillListed(s: string, n: nat, later: seq<Span>)
    requires StartsWithRun(s, n) && EveryRunListed(s[n + 1..], later)
    ensures EveryRunListed(s, First(n) + Shifted(later, n + 1))
  {
    var spans, shifted := First(n) + Shifted(later, n + 1), Shifted(later, n + 1);
    forall i: nat, j: nat | MaximalRun(s, i, j) ensures Span(i, j) in spans {
      RunPastTheFirst(s, n, i, j);
      if i == 0 && j == n {
        assert spans[0] == Span(0, n);
      } else {
        var k :| 0 <= k < |later| && later[k] == Span(i - (n + 1), j - (n + 1));
        assert shifted[k] == Span(i, j);
      }
    }
  }

  lemma SpellingGoesOnAt(s: string, n: nat, later: seq<Span>, k: nat)
    requires StartsWithRun(s, n) && Spells(s[n + 1..], later, PlainWords(s[n + 1..]))
    requires k < |First(n) + Shifted(later, n + 1)| == |PlainWords(s)|
    requires PlainWords(s) == (if n == 0 then [] else [Lowered(s[..n])]) + PlainWords(s[n + 1..])
    ensures var span := (First(n) + Shifted(later, n + 1))[k];
            span.start <= span.end <= |s| && PlainWords(s)[k] == Lowered(s[span.start..span.end])
  {
    var m := |First(n)|;
    SpanAt(n, later, k);
    if k < m {
      assert s[0..n] == s[..n];
    } else {
      var span := later[k - m];
      assert PlainWords(s)[k] == PlainWords(s[n + 1..])[k - m];
      assert s[span.start + n + 1..span.end + n + 1] == s[n + 1..][span.start..span.end];
    }
  }

  lemma SpellingGoesOn(s: string, n: nat, later: seq<Span>)
    requires StartsWithRun(s, n) && Spells(s[n + 1..], later, PlainWords(s[n + 1..]))
    ensures Spells(s, First(n) + Shifted(later, n + 1), PlainWords(s))
  {
    PlainWordsAfterRun(s, n);
    forall k: nat | k < |First(n) + Shifted(later, n + 1)|
      ensures var span := (First(n) + Shifted(later, n + 1))[k];
              span.start <= span.end <= |s| && PlainWords(s)[k] == Lowered(s[span.start..span.end])
    {
      SpellingGoesOnAt(s, n, later, k);
    }
  }

  lemma {:induction false} PlainWordsInReadingOrder(s: string) returns (spans: seq<Span>)
    ensures RunsInOrder(s, spans) && EveryRunListed(s, spans) && Spells(s, spans, PlainWords(s))
    decreases |s|
  {
    var n := LeadingRun(s);
    if n == |s| {
      LoneRun(s);
      assert s[0..n] == s;
      spans := First(n);
    } else {
      var later := PlainWordsInReadingOrder(s[n + 1..]);
      RunsGoOnInOrder(s, n, later);
      EveryRunStillListed(s, n, later);
      SpellingGoesOn(s, n, later);
      spans := First(n) + Shifted(later, n + 1);
    }
  }

  /** The words are the maximal runs of letters and digits, lowercased, each once, in the
      order in which they stand. */
  lemma WordsInReadingOrder(text: string) returns (spans: seq<Span>)
    ensures RunsInOrder(Plain(text), spans) && EveryRunListed(Plain(text), spans)
    ensures Spells(Plain(text), spans, Words(text))
  {
    spans := PlainWordsInReadingOrder(Plain(text));
  }

  /** Some maximal run of the text spells the word, in any case. */
  ghost predicate Spelled(plain: string, w: string) {
    exists i: nat, j: nat :: MaximalRun(plain, i, j) && Lowered(plain[i..j]) == w
  }

  lemma WordsAreTheMaximalRuns(text: string, w: string)
    ensures w in Words(text) <==> Spelled(Plain(text), w)
  {
    var plain := Plain(text);
    var spans := WordsInReadingOrder(text);
    if i: nat, j: nat :| MaximalRun(plain, i, j) && Lowered(plain[i..j]) == w {
      var k :| 0 <= k < |spans| && spans[k] == Span(i, j);
      assert Words(text)[k] == w;
    }
    if w in Words(text) {
      var k :| 0 <= k < |Words(text)| && Words(text)[k] == w;
      assert MaximalRun(plain, spans[k].start, spans[k].end);
    }
  }

  // --- laws of the scans ---

  lemma {:induction false} KeptMembers(items: seq<string>, keep: string -> bool, t: string)
    ensures t in Kept(items, keep) <==> t in items && keep(t)
  {
    if items != [] { KeptMembers(items[1..], keep, t); }
  }

  lemma {:induction false} KeptCommutes(items: seq<string>, keep: string -> bool, also: string -> bool)
    ensures Kept(Kept(items, keep), also) == Kept(Kept(items, also), keep)
  {
    if items != [] {
      var item, rest := items[0], items[1..];
      KeptCommutes(rest, keep, also);
      KeptCons(item, Kept(rest, keep), also);
      KeptCons(item, Kept(rest, also), keep);
      assert Kept(items, keep) == if keep(item) then [item] + Kept(rest, keep) else Kept(rest, keep);
      assert Kept(items, also) == if also(item) then [item] + Kept(rest, also) else Kept(rest, also);
    }
  }

  lemma KeptCons(item: string, rest: seq<string>, keep: string -> bool)
    ensures Kept([item] + rest, keep) == (if keep(item) then [item] else []) + Kept(rest, keep)
  {
    assert ([item] + rest)[1..] == rest;
  }

  lemma {:induction false} KeptAppend(a: seq<string>, b: seq<string>, keep: string -> bool)
    ensures Kept(a + b, keep) == Kept(a, keep) + Kept(b, keep)
  {
    if a == [] {
      assert a + b == b;
    } else {
      assert (a + b)[0] == a[0] && (a + b)[1..] == a[1..] + b;
      KeptAppend(a[1..], b, keep);
      Regroup(if keep(a[0]) then [a[0]] else [], Kept(a[1..], keep), Kept(b, keep));
    }
  }

  lemma {:induction false} KeptAll(items: seq<string>, keep: string -> bool)
    requires forall t :: t in items ==> keep(t)
    ensures Kept(items, keep) == items
  {
    if items != [] {
      KeptAll(items[1..], keep);
      assert items == [items[0]] + items[1..];
    }
  }

  ghost predicate InARow(words: seq<string>, parts: seq<string>) {
    exists before, after :: words == before + parts + after
  }

  /** The phrase, cut at its spaces. */
  ghost predicate PartsOf(phrase: string, parts: seq<string>) {
    parts != [] && Join(parts, ' ') == phrase && forall part :: part in parts ==> ' ' !in part
  }

  /** A phrase is present exactly when its parts, cut at its spaces, stand in a row. */
  lemma PhrasePresentExactlyWhen(words: seq<string>, phrase: string, parts: seq<string>)
    requires PartsOf(phrase, parts)
    ensures PhrasePresent(words, phrase) <==> InARow(words, parts)
  {
    SplitOfJoin(parts, ' ');
    if PhrasePresent(words, phrase) {
      var i :| 0 <= i <= |words| - |parts| && words[i..][..|parts|] == parts;
      assert words == words[..i] + parts + words[i + |parts|..];
    }
    if before, after :| words == before + parts + after {
      assert words[|before|..][..|parts|] == parts;
    }
  }

  /** And every phrase has its parts. */
  lemma EveryPhraseHasParts(phrase: string)
    ensures PartsOf(phrase, Split(phrase, Is(' ')))
  {
    JoinOfSplit(phrase, ' ');
    forall part | part in Split(phrase, Is(' ')) ensures ' ' !in part {
      if ' ' in part { PiecesHaveNoSeparator(phrase, Is(' '), part, ' '); }
    }
  }

  /** What a scan reports: the listed tokens that are words of the text, and the listed
      phrases whose parts are adjacent words of it. */
  lemma ScanReports(text: string, tokens: seq<string>, phrases: seq<string>, hit: string)
    ensures hit in ScanAll(text, tokens, phrases) <==>
            || (hit in tokens && hit in Words(text))
            || (hit in phrases && PhrasePresent(Words(text), hit))
  {
    var words := Words(text);
    KeptMembers(tokens, Spent(words), hit);
    KeptMembers(phrases, Adjacent(words), hit);
  }

  /** Scanning a derived list is scanning the whole list and then dropping the exempt
      hits, in the same order, as long as no phrase is exempt. */
  lemma ScanOfDerivedList(text: string, tokens: seq<string>, phrases: seq<string>, exempt: seq<string>)
    requires forall phrase :: phrase in phrases ==> phrase !in exempt
    ensures ScanAll(text, Except(tokens, exempt), phrases) == Except(ScanAll(text, tokens, phrases), exempt)
  {
    var words := Words(text);
    KeptCommutes(tokens, NotIn(exempt), Spent(words));
    var phraseHits := Kept(phrases, Adjacent(words));
    KeptAppend(Kept(tokens, Spent(words)), phraseHits, NotIn(exempt));
    forall t | t in phraseHits ensures NotIn(exempt)(t) {
      KeptMembers(phrases, Adjacent(words), t);
    }
    KeptAll(phraseHits, NotIn(exempt));
  }

  /** Every audience's list is derived that way: an exempt token is excused and nothing
      else is, and the first hit is the first hit of the whole scan that is not exempt. */
  lemma AudiencesDifferOnlyInExemptions(text: string, tokens: seq<string>, exempt: seq<string>)
    requires exempt in {HELP_EXEMPT_TOKENS, ADVISORY_EXEMPT_TOKENS, USAGE_EXEMPT_TOKENS}
    ensures var whole := Except(ScanAll(text, tokens, BANNED_PHRASES), exempt);
            ScanFirst(text, Except(tokens, exempt), BANNED_PHRASES) == if whole == [] then None else Some(whole[0])
  {
    assert BANNED_PHRASES[0][3] == ' ' && BANNED_PHRASES[1][3] == ' ';
    forall phrase | phrase in BANNED_PHRASES ensures phrase !in exempt {
      assert phrase[3] == ' ';
    }
    ScanOfDerivedList(text, tokens, BANNED_PHRASES, exempt);
  }
}
