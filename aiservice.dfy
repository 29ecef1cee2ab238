/**
 * The document-aware chat of `AiService`: composing the prompt that puts the
 * documents in front of the conversation, and attributing an answer back to
 * the paragraphs of those documents by word overlap.
 */
module AiService {
  import opened Wrappers
  import opened JsString
  import opened ChatTypes

  // ===========================================================================
  // Word overlap (calculateOverlap)
  // ===========================================================================

  /** `text.toLowerCase().split(/\W+/).filter(Boolean)`: the lower-cased
      words of `text`. */
  function Words(text: string): (r: seq<string>)
    ensures Concat(r) == Strip(ToLower(text), IsNonWordChar)
  {
    var pieces := SplitRuns(ToLower(text), IsNonWordChar);
    SplitRunsKeepsText(ToLower(text), IsNonWordChar);
    ConcatNonEmpty(pieces);
    NonEmpty(pieces)
  }

  /** Every word is a non-empty run of `\w` characters. */
  lemma WordsAreWordRuns(text: string)
    ensures forall w :: w in Words(text) ==> w != [] && FreeOf(w, IsNonWordChar)
  {
  }

  /** `new Set(words)`. */
  function WordSet(words: seq<string>): set<string> {
    set w | w in words
  }

  /** `words1.filter(word => set2.has(word)).length`: how many entries of
      `words1`, repetitions included, are in `set2`. */
  function SharedCount(words1: seq<string>, set2: set<string>): (n: nat)
    ensures n <= |words1|
  {
    if words1 == [] then 0
    else (if words1[0] in set2 then 1 else 0) + SharedCount(words1[1..], set2)
  }

  /** Every entry is counted on its own, repetitions included: the count of
      a concatenation is the sum of the counts of its parts. */
  lemma {:induction false} SharedCountAppend(a: seq<string>, b: seq<string>, set2: set<string>)
    ensures SharedCount(a + b, set2) == SharedCount(a, set2) + SharedCount(b, set2)
  {
    if a == [] {
      assert a + b == b;
    } else {
      SharedCountAppend(a[1..], b, set2);
      assert (a + b)[0] == a[0];
      assert (a + b)[1..] == a[1..] + b;
    }
  }

  /** Every word is shared exactly when the count is the full length, and
      none is exactly when the count is 0. */
  lemma {:induction false} SharedCountExtremes(words1: seq<string>, set2: set<string>)
    ensures SharedCount(words1, set2) == |words1| <==> forall i :: 0 <= i < |words1| ==> words1[i] in set2
    ensures SharedCount(words1, set2) == 0 <==> forall i :: 0 <= i < |words1| ==> words1[i] !in set2
  {
    if words1 != [] {
      SharedCountExtremes(words1[1..], set2);
      assert forall i :: 1 <= i < |words1| ==> words1[i] == words1[1..][i - 1];
    }
  }

  /** The JavaScript number `sharedWords / Math.min(words1.length,
      words2.length)`, kept as its numerator and denominator; `base` is 0 when
      one of the texts has no word, and the number is then 0. */
  datatype Overlap = Overlap(shared: nat, base: nat)

  /** The number an overlap stands for. */
  function Score(o: Overlap): real {
    if o.base == 0 then 0.0 else o.shared as real / o.base as real
  }

  /** `calculateOverlap(...) > 0.7`, on integers. */
  predicate AboveThreshold(o: Overlap) {
    10 * o.shared > 7 * o.base
  }

  /** `calculateOverlap(text1, text2)`: how many words of `text1` occur in
      `text2`, over the length of the shorter word list; nothing when either
      text has no word. */
  function CalculateOverlap(text1: string, text2: string): (o: Overlap)
    ensures o.base == 0 <==> |Words(text1)| == 0 || |Words(text2)| == 0
    ensures o.base == 0 ==> o.shared == 0
    ensures o.base > 0 ==> o.base <= |Words(text1)| && o.base <= |Words(text2)|
    ensures o.shared <= |Words(text1)|
  {
    var words1 := Words(text1);
    var words2 := Words(text2);
    if |words1| == 0 || |words2| == 0 then Overlap(0, 0)
    else Overlap(SharedCount(words1, WordSet(words2)), Min(|words1|, |words2|))
  }

  lemma ProductPositive(x: real, y: real)
    requires x > 0.0 && y > 0.0
    ensures x * y > 0.0
  {
  }

  lemma ProductNonNegative(x: real, y: real)
    requires x >= 0.0 && y > 0.0
    ensures x * y >= 0.0
  {
  }

  /** For a positive denominator, `n / m > 0.7` is `10 * n > 7 * m`. */
  lemma QuotientAbove(n: nat, m: nat)
    requires m > 0
    ensures n as real / m as real > 0.7 <==> 10 * n > 7 * m
  {
    var q, mr := n as real / m as real, m as real;
    assert q * mr == n as real;
    if q > 0.7 {
      ProductPositive(q - 0.7, mr);
      assert (q - 0.7) * mr == q * mr - 0.7 * mr;
    } else {
      ProductNonNegative(0.7 - q, mr);
      assert (0.7 - q) * mr == 0.7 * mr - q * mr;
    }
  }

  /** For a positive denominator, `n / m >= 1` is `n >= m`. */
  lemma QuotientAtLeastOne(n: nat, m: nat)
    requires m > 0
    ensures n as real / m as real >= 1.0 <==> n >= m
  {
    var q, mr := n as real / m as real, m as real;
    assert q * mr == n as real;
    if q >= 1.0 {
      ProductNonNegative(q - 1.0, mr);
      assert (q - 1.0) * mr == q * mr - mr;
    } else {
      ProductPositive(1.0 - q, mr);
      assert (1.0 - q) * mr == mr - q * mr;
    }
  }

  /** The integer threshold is the comparison `score > 0.7` of the source,
      and it holds exactly when both texts have words and
      `10 * shared > 7 * min(|words1|, |words2|)`. */
  lemma OverlapAboveThreshold(text1: string, text2: string)
    ensures var words1, words2, o := Words(text1), Words(text2), CalculateOverlap(text1, text2);
      && (AboveThreshold(o) <==> Score(o) > 0.7)
      && (AboveThreshold(o) <==>
            |words1| > 0 && |words2| > 0 &&
            10 * SharedCount(words1, WordSet(words2)) > 7 * Min(|words1|, |words2|))
  {
    var o := CalculateOverlap(text1, text2);
    if o.base > 0 {
      QuotientAbove(o.shared, o.base);
    }
  }

  /** The score is 0 exactly when one text has no word or no word of the
      first text occurs in the second. */
  lemma OverlapZero(text1: string, text2: string)
    ensures var words1, words2 := Words(text1), Words(text2);
      Score(CalculateOverlap(text1, text2)) == 0.0 <==>
        |words1| == 0 || |words2| == 0 ||
        forall i :: 0 <= i < |words1| ==> words1[i] !in WordSet(words2)
  {
    var o := CalculateOverlap(text1, text2);
    SharedCountExtremes(Words(text1), WordSet(Words(text2)));
    if o.base > 0 {
      assert (o.shared as real / o.base as real) * o.base as real == o.shared as real;
    }
  }

  /** When every word of the first text occurs in the second, the score is
      at least 1, so the pair clears the citation threshold. */
  lemma OverlapAllShared(text1: string, text2: string)
    requires |Words(text1)| > 0 && |Words(text2)| > 0
    requires forall i :: 0 <= i < |Words(text1)| ==> Words(text1)[i] in WordSet(Words(text2))
    ensures Score(CalculateOverlap(text1, text2)) >= 1.0
    ensures AboveThreshold(CalculateOverlap(text1, text2))
  {
    var o := CalculateOverlap(text1, text2);
    SharedCountExtremes(Words(text1), WordSet(Words(text2)));
    assert o.shared == |Words(text1)| && o.shared >= o.base;
    QuotientAtLeastOne(o.shared, o.base);
  }

  /** Lower-casing a text first changes neither its words nor any score:
      the comparison ignores ASCII case. */
  lemma OverlapIgnoresCase(text1: string, text2: string)
    ensures Words(ToLower(text1)) == Words(text1)
    ensures CalculateOverlap(ToLower(text1), ToLower(text2)) == CalculateOverlap(text1, text2)
  {
    ToLowerIdempotent(text1);
    ToLowerIdempotent(text2);
    assert Words(ToLower(text2)) == Words(text2);
  }

  /** Repeated words count each time, so the score is not bounded by 1:
      "a a" against "a" scores 2. */
  lemma OverlapCanExceedOne()
    ensures Score(CalculateOverlap("a a", "a")) == 2.0
  {
    assert ToLower("a a") == "a a";
    assert ToLower("a") == "a";
    assert SplitRuns("a", IsNonWordChar) == ["a"];
    assert SplitRuns(" a", IsNonWordChar) == ["", "a"];
    assert SplitRuns("a a", IsNonWordChar) == ["a", "a"];
    assert NonEmpty(["a"]) == ["a"];
    assert NonEmpty(["a", "a"]) == ["a", "a"];
    assert Words("a a") == ["a", "a"];
    assert Words("a") == ["a"];
    assert SharedCount(["a", "a"], WordSet(["a"])) == 2;
  }

  // ===========================================================================
  // Citation extraction (extractCitations)
  // ===========================================================================

  /** The separator of `doc.split('\n\n')`. */
  const ParagraphBreak: string := "\n\n"

  /** How many characters of a paragraph a citation keeps. */
  const SnippetLength: nat := 100

  /** The marker appended to a shortened paragraph. */
  const Ellipsis: string := "..."

  /** A character of the class `[.!?]`. */
  predicate IsSentenceEnd(c: char) {
    c == '.' || c == '!' || c == '?'
  }

  /** `doc.split('\n\n').filter(p => p.trim().length > 0)`. */
  function DocParagraphs(doc: string): seq<string> {
    NonBlank(SplitOn(doc, ParagraphBreak))
  }

  /** `documentContents.flatMap(...)`: the non-blank paragraphs of every
      document, document after document, each in its own order. */
  function Paragraphs(docs: seq<string>): (ps: seq<string>)
    ensures forall p :: p in ps <==> exists j :: 0 <= j < |docs| && p in DocParagraphs(docs[j])
  {
    if docs == [] then []
    else
      var rest := Paragraphs(docs[1..]);
      assert forall j :: 1 <= j < |docs| ==> docs[j] == docs[1..][j - 1];
      DocParagraphs(docs[0]) + rest
  }

  /** `flatMap` over one document gives that document's paragraphs, ... */
  lemma ParagraphsSingle(d: string)
    ensures Paragraphs([d]) == DocParagraphs(d)
  {
    assert [d][1..] == [];
  }

  /** ... and over a concatenation the paragraphs of the first documents come
      before those of the later ones, repetitions included. */
  lemma {:induction false} ParagraphsAppend(a: seq<string>, b: seq<string>)
    ensures Paragraphs(a + b) == Paragraphs(a) + Paragraphs(b)
  {
    if a == [] {
      assert a + b == b;
    } else {
      var d, rest := a[0], a[1..];
      ParagraphsAppend(rest, b);
      HeadTail(a, b);
      ParagraphsCons(d, rest + b);
      ParagraphsCons(d, rest);
      AppendAssoc(DocParagraphs(d), Paragraphs(rest), Paragraphs(b));
    }
  }

  lemma ParagraphsCons(d: string, docs: seq<string>)
    ensures Paragraphs([d] + docs) == DocParagraphs(d) + Paragraphs(docs)
  {
    assert ([d] + docs)[1..] == docs;
  }

  /** A paragraph is a piece of one document between two paragraph breaks
      that has a character `trim` keeps. */
  lemma ParagraphIsPieceOfDocument(docs: seq<string>, p: string)
    ensures p in Paragraphs(docs) <==>
      exists j :: 0 <= j < |docs| && p in SplitOn(docs[j], ParagraphBreak) && |Trim(p)| > 0
  {
    TrimEmptyIffBlank(p);
  }

  /** `answer.split(/[.!?]+/).filter(s => s.trim().length > 0)`. */
  function Sentences(answer: string): (ss: seq<string>)
    ensures forall s :: s in ss <==> s in SplitRuns(answer, IsSentenceEnd) && !IsBlank(s)
    ensures forall s :: s in ss ==> FreeOf(s, IsSentenceEnd)
  {
    NonBlank(SplitRuns(answer, IsSentenceEnd))
  }

  /** A sentence is a piece of the answer between two runs of `.`, `!` and
      `?` that has a character `trim` keeps. */
  lemma SentenceIsPieceOfAnswer(answer: string, s: string)
    ensures s in Sentences(answer) <==> s in SplitRuns(answer, IsSentenceEnd) && |Trim(s)| > 0
  {
    TrimEmptyIffBlank(s);
  }

  /** `paragraph.substring(0, 100) + (paragraph.length > 100 ? '...' : '')`:
      a paragraph of at most 100 characters is kept whole, a longer one is
      cut to its first 100 characters followed by the ellipsis. */
  function Snippet(paragraph: string): (snippet: string)
    ensures |paragraph| <= SnippetLength ==> snippet == paragraph
    ensures |paragraph| > SnippetLength ==>
      |snippet| == SnippetLength + |Ellipsis| &&
      snippet[..SnippetLength] == paragraph[..SnippetLength] &&
      snippet[SnippetLength..] == Ellipsis
  {
    paragraph[..Min(|paragraph|, SnippetLength)] + (if |paragraph| > SnippetLength then Ellipsis else "")
  }

  /** `calculateOverlap(sentence, paragraph) > 0.7`. */
  predicate Matches(sentence: string, paragraph: string) {
    AboveThreshold(CalculateOverlap(sentence, paragraph))
  }

  /** The index of the first paragraph the sentence matches, if any. */
  function FirstMatch(sentence: string, ps: seq<string>): (r: Option<nat>)
    ensures r.Some? ==>
      r.value < |ps| && Matches(sentence, ps[r.value]) &&
      forall k :: 0 <= k < r.value ==> !Matches(sentence, ps[k])
    ensures r.None? ==> forall k :: 0 <= k < |ps| ==> !Matches(sentence, ps[k])
  {
    if ps == [] then None
    else if Matches(sentence, ps[0]) then Some(0)
    else
      match FirstMatch(sentence, ps[1..])
      case Some(i) => Some(i + 1)
      case None => None
  }

  /** What one sentence contributes: the snippet of the first paragraph it
      matches, or nothing. */
  function Contribution(sentence: string, ps: seq<string>): (r: Option<string>)
    ensures r.None? <==> forall k :: 0 <= k < |ps| ==> !Matches(sentence, ps[k])
    ensures r.Some? ==>
      exists i :: && 0 <= i < |ps| && Matches(sentence, ps[i])
                  && (forall k :: 0 <= k < i ==> !Matches(sentence, ps[k]))
                  && r.value == Snippet(ps[i])
  {
    match FirstMatch(sentence, ps)
    case Some(i) => Some(Snippet(ps[i]))
    case None => None
  }

  /** The contribution of each sentence, in sentence order. */
  function Contributions(ss: seq<string>, ps: seq<string>): (cs: seq<Option<string>>)
    ensures |cs| == |ss|
  {
    if ss == [] then [] else [Contribution(ss[0], ps)] + Contributions(ss[1..], ps)
  }

  /** Entry `j` of the contributions is what sentence `j` contributes. */
  lemma {:induction false} ContributionsAt(ss: seq<string>, ps: seq<string>, j: nat)
    requires j < |ss|
    ensures Contributions(ss, ps)[j] == Contribution(ss[j], ps)
  {
    if j > 0 {
      ContributionsAt(ss[1..], ps, j - 1);
    }
  }

  /** No value occurs twice. */
  predicate NoDup<T(==)>(xs: seq<T>) {
    forall i, j :: 0 <= i < j < |xs| ==> xs[i] != xs[j]
  }

  /** The contributed snippets in order, each one kept only the first time
      (`if (!citations.includes(snippet)) citations.push(snippet)`). */
  function Collect(cs: seq<Option<string>>): (r: seq<string>)
    ensures NoDup(r)
    ensures |r| <= |cs|
    ensures forall x :: x in r <==> Some(x) in cs
  {
    if cs == [] then []
    else
      var init := cs[..|cs| - 1];
      var acc := Collect(init);
      var last := cs[|cs| - 1];
      assert cs == init + [last];
      if last.Some? && last.value !in acc then acc + [last.value] else acc
  }

  /** `extractCitations(answer, documentContents)`, as a function of its
      inputs. */
  function Citations(answer: string, docs: seq<string>): (r: seq<string>)
    ensures NoDup(r)
    ensures |r| <= |Sentences(answer)|
  {
    Collect(Contributions(Sentences(answer), Paragraphs(docs)))
  }

  /** `extractCitations`: for each sentence in order, scan the paragraphs in
      order; the first one whose overlap exceeds 0.7 gives a snippet, which is
      appended unless already present, and ends the scan. */
  method ExtractCitations(answer: string, documentContents: seq<string>) returns (citations: seq<string>)
    ensures citations == Citations(answer, documentContents)
    ensures NoDup(citations)
  {
    citations := [];
    var paragraphs := Paragraphs(documentContents);
    var sentences := Sentences(answer);
    ghost var cs := Contributions(sentences, paragraphs);
    var i := 0;
    while i < |sentences|
      invariant 0 <= i <= |sentences|
      invariant citations == Collect(cs[..i])
    {
      var sentence := sentences[i];
      CollectSnoc(cs, i);
      ContributionsAt(sentences, paragraphs, i);
      var j := 0;
      while j < |paragraphs|
        invariant 0 <= j <= |paragraphs|
        invariant forall k :: 0 <= k < j ==> !Matches(sentence, paragraphs[k])
        invariant citations == Collect(cs[..i])
      {
        var paragraph := paragraphs[j];
        var overlap := CalculateOverlap(sentence, paragraph);
        if AboveThreshold(overlap) {
          var snippet := Snippet(paragraph);
          FirstMatchAt(sentence, paragraphs, j);
          assert cs[i] == Some(snippet);
          if snippet !in citations {
            citations := citations + [snippet];
          }
          assert citations == Collect(cs[..i + 1]);
          break;
        }
        NoMatchBefore(sentence, paragraphs, j);
        j := j + 1;
      }
      if j == |paragraphs| {
        FirstMatchNone(sentence, paragraphs);
        assert cs[i] == None;
        assert citations == Collect(cs[..i + 1]);
      }
      i := i + 1;
    }
    assert cs[..|sentences|] == cs;
  }

  /** The first paragraph a sentence matches is the one it contributes. */
  lemma FirstMatchAt(sentence: string, ps: seq<string>, j: nat)
    requires j < |ps| && Matches(sentence, ps[j])
    requires forall k :: 0 <= k < j ==> !Matches(sentence, ps[k])
    ensures FirstMatch(sentence, ps) == Some(j)
    ensures Contribution(sentence, ps) == Some(Snippet(ps[j]))
  {
  }

  /** A paragraph the sentence does not clear extends the prefix of
      paragraphs it matches none of. */
  lemma NoMatchBefore(sentence: string, ps: seq<string>, j: nat)
    requires j < |ps|
    requires forall k :: 0 <= k < j ==> !Matches(sentence, ps[k])
    requires !AboveThreshold(CalculateOverlap(sentence, ps[j]))
    ensures forall k :: 0 <= k < j + 1 ==> !Matches(sentence, ps[k])
  {
  }

  /** A sentence that matches no paragraph contributes nothing. */
  lemma FirstMatchNone(sentence: string, ps: seq<string>)
    requires forall k :: 0 <= k < |ps| ==> !Matches(sentence, ps[k])
    ensures FirstMatch(sentence, ps) == None
    ensures Contribution(sentence, ps) == None
  {
  }

  /** One more contribution extends the collected snippets by at most that
      snippet. */
  lemma CollectSnoc(cs: seq<Option<string>>, i: nat)
    requires i < |cs|
    ensures Collect(cs[..i + 1]) ==
      if cs[i].Some? && cs[i].value !in Collect(cs[..i]) then Collect(cs[..i]) + [cs[i].value]
      else Collect(cs[..i])
  {
    assert cs[..i + 1][..i] == cs[..i];
  }

  // ---------------------------------------------------------------------------
  // Properties of the citations
  // ---------------------------------------------------------------------------

  /** The first position of `x` in `xs`. */
  function FirstIndex<T(==)>(xs: seq<T>, x: T): (i: nat)
    requires x in xs
    ensures i < |xs| && xs[i] == x
    ensures forall k :: 0 <= k < i ==> xs[k] != x
  {
    if xs[0] == x then 0 else 1 + FirstIndex(xs[1..], x)
  }

  /** A value found in a prefix is first found at the same place in the
      whole sequence. */
  lemma {:induction false} FirstIndexInPrefix<T>(xs: seq<T>, m: nat, x: T)
    requires m <= |xs| && x in xs[..m]
    ensures FirstIndex(xs, x) == FirstIndex(xs[..m], x)
  {
    if xs[0] != x {
      assert xs[..m][1..] == xs[1..][..m - 1];
      FirstIndexInPrefix(xs[1..], m - 1, x);
    }
  }

  /** The collected snippets appear in the order in which the contributions
      first mention them. */
  lemma {:induction false} CollectOrder(cs: seq<Option<string>>)
    ensures forall a, b :: 0 <= a < b < |Collect(cs)| ==>
      FirstIndex(cs, Some(Collect(cs)[a])) < FirstIndex(cs, Some(Collect(cs)[b]))
  {
    if cs != [] {
      var n := |cs| - 1;
      var init := cs[..n];
      var acc := Collect(init);
      assert cs[..n] == init;
      CollectOrder(init);
      forall x | x in acc
        ensures FirstIndex(cs, Some(x)) == FirstIndex(init, Some(x)) < n
      {
        FirstIndexInPrefix(cs, n, Some(x));
      }
      var r := Collect(cs);
      if r != acc {
        assert r == acc + [cs[n].value];
        assert Some(cs[n].value) !in init;
        assert FirstIndex(cs, Some(cs[n].value)) == n;
      }
      forall a, b | 0 <= a < b < |r|
        ensures FirstIndex(cs, Some(r[a])) < FirstIndex(cs, Some(r[b]))
      {
        assert r[a] == acc[a];
        if b < |acc| {
          assert r[b] == acc[b];
        }
      }
    }
  }

  /** Citations appear in the order of the first sentence that produced
      each of them, and a snippet is cited exactly when some sentence
      produces it. */
  lemma CitationsOrder(answer: string, docs: seq<string>)
    ensures var ss, ps := Sentences(answer), Paragraphs(docs);
      var cs, cits := Contributions(ss, ps), Citations(answer, docs);
      && (forall c :: c in cits <==> exists j :: 0 <= j < |ss| && Contribution(ss[j], ps) == Some(c))
      && (forall a, b :: 0 <= a < b < |cits| ==>
            FirstIndex(cs, Some(cits[a])) < FirstIndex(cs, Some(cits[b])))
  {
    var ss, ps := Sentences(answer), Paragraphs(docs);
    var cs := Contributions(ss, ps);
    CollectOrder(cs);
    forall j | 0 <= j < |ss| {
      ContributionsAt(ss, ps, j);
    }
  }

  /** Every citation is the snippet of a paragraph of the documents: the
      paragraph itself when it has at most 100 characters, otherwise its
      first 100 characters and the ellipsis; so no citation is longer than
      103 characters. */
  lemma CitationsAreSnippets(answer: string, docs: seq<string>)
    ensures forall c :: c in Citations(answer, docs) ==>
      exists p :: p in Paragraphs(docs) && c == Snippet(p)
    ensures forall c :: c in Citations(answer, docs) ==> |c| <= SnippetLength + |Ellipsis|
  {
    var ss, ps := Sentences(answer), Paragraphs(docs);
    var cs := Contributions(ss, ps);
    forall c | c in Citations(answer, docs)
      ensures exists p :: p in ps && c == Snippet(p)
    {
      var j :| 0 <= j < |cs| && cs[j] == Some(c);
      ContributionsAt(ss, ps, j);
      var i := FirstMatch(ss[j], ps).value;
      assert ps[i] in ps && c == Snippet(ps[i]);
    }
  }

  /** Contributions that are all empty collect nothing. */
  lemma {:induction false} CollectNone(cs: seq<Option<string>>)
    requires forall j :: 0 <= j < |cs| ==> cs[j] == None
    ensures Collect(cs) == []
  {
    if cs != [] {
      var n := |cs| - 1;
      CollectNone(cs[..n]);
    }
  }

  /** Without documents, without a non-blank paragraph, or without a
      non-blank sentence there is nothing to cite; an empty answer has no
      sentence. */
  lemma CitationsEmpty(answer: string, docs: seq<string>)
    ensures Sentences("") == []
    ensures Paragraphs([]) == []
    ensures Paragraphs(docs) == [] || Sentences(answer) == [] ==> Citations(answer, docs) == []
  {
    assert SplitRuns("", IsSentenceEnd) == [""];
    assert IsBlank("");
    var ss, ps := Sentences(answer), Paragraphs(docs);
    var cs := Contributions(ss, ps);
    if ps == [] || ss == [] {
      forall j | 0 <= j < |ss| ensures cs[j] == None {
        ContributionsAt(ss, ps, j);
      }
      CollectNone(cs);
    }
  }

  /** Distinct entries of a sequence are as many as its length. */
  lemma {:induction false} NoDupCard<T>(xs: seq<T>)
    requires NoDup(xs)
    ensures |set x | x in xs| == |xs|
  {
    if xs != [] {
      var tail := xs[1..];
      NoDupCard(tail);
      assert (set x | x in xs) == {xs[0]} + (set x | x in tail);
      assert xs[0] !in tail;
    }
  }

  /** There are no more snippets of paragraphs than paragraphs. */
  lemma {:induction false} SnippetSetCard(ps: seq<string>)
    ensures |set p | p in ps :: Snippet(p)| <= |ps|
  {
    if ps != [] {
      var tail := ps[1..];
      SnippetSetCard(tail);
      assert (set p | p in ps :: Snippet(p)) == {Snippet(ps[0])} + (set p | p in tail :: Snippet(p));
    }
  }

  lemma SubsetCard<T>(a: set<T>, b: set<T>)
    requires a <= b
    ensures |a| <= |b|
  {
    assert b == a + (b - a);
  }

  /** Each sentence contributes at most one citation and each citation comes
      from a distinct paragraph, so there are no more citations than
      sentences and no more than paragraphs. */
  lemma CitationsCount(answer: string, docs: seq<string>)
    ensures |Citations(answer, docs)| <= |Sentences(answer)|
    ensures |Citations(answer, docs)| <= |Paragraphs(docs)|
  {
    var ps := Paragraphs(docs);
    var cits := Citations(answer, docs);
    CitationsAreSnippets(answer, docs);
    NoDupCard(cits);
    SnippetSetCard(ps);
    SubsetCard(set c | c in cits, set p | p in ps :: Snippet(p));
  }

  // ===========================================================================
  // Contextual chat (contextualChat)
  // ===========================================================================

  /** The instruction the documents follow in the system message: the text of
      the template literal, with its line breaks and indentation. */
  const ContextPreamble: string :=
    "You are an AI assistant with access to the following documents. \n" +
    "        Use this context to answer the user's questions accurately.\n" +
    "        \n" +
    "        Document contents:\n" +
    "        "

  /** The separator of `documentContents.join('\n\n---\n\n')`. */
  const DocumentSeparator: string := "\n\n---\n\n"

  /** The message of the error thrown when no document has content. */
  const NoDocumentContent: string := "No document content available"

  /** `contextMessage`: a system message with the instruction followed by
      the documents. */
  function ContextMessage(documentContents: seq<string>): (m: ChatMessage)
    ensures m.role == System
    ensures ContextPreamble <= m.content
  {
    ChatMessage(System, ContextPreamble + Join(documentContents, DocumentSeparator))
  }

  /** The context message is a system message that starts with the
      instruction and contains every document. */
  lemma ContextMessageHoldsDocuments(documentContents: seq<string>)
    ensures forall i :: 0 <= i < |documentContents| ==>
      Contains(ContextMessage(documentContents).content, documentContents[i])
  {
    var joined := Join(documentContents, DocumentSeparator);
    forall i | 0 <= i < |documentContents|
      ensures Contains(ContextPreamble + joined, documentContents[i])
    {
      JoinContainsEach(documentContents, DocumentSeparator, i);
      var k: nat :| k <= |joined| && ContainsAt(joined, documentContents[i], k);
      ContainsAfter(ContextPreamble, joined, documentContents[i], k);
    }
  }

  /** The messages sent to the model by `contextualChat`: an error when there
      is no document, otherwise the context message followed by the whole
      history. */
  function ContextualPrompt(messages: seq<ChatMessage>, documentContents: seq<string>)
    : (r: Result<seq<ChatMessage>, string>)
    ensures r.Failure? <==> |documentContents| == 0
    ensures r.Failure? ==> r.error == NoDocumentContent
    ensures r.Success? ==>
      |r.value| == |messages| + 1 &&
      r.value[0] == ContextMessage(documentContents) &&
      r.value[1..] == messages
  {
    if |documentContents| == 0 then Failure(NoDocumentContent)
    else Success([ContextMessage(documentContents)] + messages)
  }

  /** `response.choices[0].message.content || ''`. */
  function AnswerText(content: Option<string>): (answer: string)
    ensures content.Some? ==> answer == content.value
    ensures content.None? ==> answer == ""
  {
    content.GetOr("")
  }

  /** `contextualChat` on the retrieved document contents, with the language
      model as a function from messages to the content of its reply. With no
      document it fails, whatever the model would answer; otherwise the model
      sees the context message and the history, and its answer comes back with
      the citations extracted from it. */
  method ContextualChat(messages: seq<ChatMessage>, documentContents: seq<string>,
                        model: seq<ChatMessage> -> Option<string>)
    returns (r: Result<ChatResponse, string>)
    ensures ContextualPrompt(messages, documentContents).Failure? ==>
      r == Failure(ContextualPrompt(messages, documentContents).error)
    ensures ContextualPrompt(messages, documentContents).Success? ==>
      var answer := AnswerText(model(ContextualPrompt(messages, documentContents).value));
      r == Success(ChatResponse(answer, Some(Citations(answer, documentContents))))
  {
    if |documentContents| == 0 {
      return Failure(NoDocumentContent);
    }
    var contextMessage := ContextMessage(documentContents);
    var messagesWithContext := [contextMessage] + messages;
    var content := AnswerText(model(messagesWithContext));
    var citations := ExtractCitations(content, documentContents);
    r := Success(ChatResponse(content, Some(citations)));
  }
}
