/** The review sentiment classifier: text preparation, the two threshold
    rules over library scores, the two batch operations and the label
    distribution. The scoring libraries (TextBlob and VADER) are not modelled:
    every operation that needs a score takes the scorer as a function
    parameter, so each result is stated for whatever the scorer returns. */
module SentimentAnalyzer {
  import opened Builtins

  datatype Label = Positive | Negative | Neutral

  /** The label as the analyser spells it in its result dictionaries. */
  function LabelName(l: Label): string {
    match l
    case Positive => "positive"
    case Negative => "negative"
    case Neutral => "neutral"
  }

  // =====================================================================
  // prepare_text

  predicate IsAsciiAlnum(c: char) { 'a' <= c <= 'z' || 'A' <= c <= 'Z' || '0' <= c <= '9' }

  /** A character that prepared text may hold inside a word. */
  predicate IsWordChar(c: char) { 'a' <= c <= 'z' || '0' <= c <= '9' }

  /** `re.sub(r'[^a-zA-Z0-9\s]', '', s)`: deletes every character that is
      neither an ASCII letter or digit nor whitespace. */
  function StripSpecial(s: string): (r: string)
    ensures forall c :: c in r ==> c in s && (IsAsciiAlnum(c) || IsSpace(c))
  {
    if s == [] then []
    else (if IsAsciiAlnum(s[0]) || IsSpace(s[0]) then [s[0]] else []) + StripSpecial(s[1..])
  }

  /** The filter deletes nothing from a string it would keep whole. */
  lemma {:induction false} StripSpecialUnchanged(s: string)
    requires forall i :: 0 <= i < |s| ==> IsAsciiAlnum(s[i]) || IsSpace(s[i])
    ensures StripSpecial(s) == s
  {
    if s != [] {
      assert forall i :: 0 <= i < |s[1..]| ==> s[1..][i] == s[i + 1];
      StripSpecialUnchanged(s[1..]);
    }
  }

  /** The filter works character by character: filtering a concatenation is
      concatenating the filtered parts. With `StripSpecialChar` this fixes
      `StripSpecial` on every string: each kept character stays, in order. */
  lemma {:induction false} StripSpecialAppend(a: string, b: string)
    ensures StripSpecial(a + b) == StripSpecial(a) + StripSpecial(b)
    decreases |a|
  {
    if a == [] {
      assert a + b == b;
    } else {
      assert (a + b)[0] == a[0];
      assert (a + b)[1..] == a[1..] + b;
      StripSpecialAppend(a[1..], b);
    }
  }

  /** A single character survives the filter exactly when it is an ASCII
      letter or digit or whitespace, and otherwise disappears. */
  lemma StripSpecialChar(c: char)
    ensures StripSpecial([c]) == [c] <==> IsAsciiAlnum(c) || IsSpace(c)
    ensures StripSpecial([c]) == [] <==> !(IsAsciiAlnum(c) || IsSpace(c))
  {
    assert [c][1..] == [];
  }

  /** The shape of what `prepare_text` returns for a string: lower-case ASCII
      letters, digits and single spaces between words, nothing else. */
  ghost predicate IsPrepared(t: string) {
    && (forall i :: 0 <= i < |t| ==> IsWordChar(t[i]) || t[i] == ' ')
    && Collapsed(t)
  }

  /** The string half of `prepare_text`: lower-case, filter, then
      `" ".join(text.split())`. */
  function Clean(s: string): string {
    StripSpecial(Lower(s))
  }

  lemma CleanChars(s: string)
    ensures forall i :: 0 <= i < |Clean(s)| ==> IsWordChar(Clean(s)[i]) || IsSpace(Clean(s)[i])
  {
    forall i | 0 <= i < |Clean(s)| ensures IsWordChar(Clean(s)[i]) || IsSpace(Clean(s)[i]) {
      var c := Clean(s)[i];
      assert c in Clean(s);
      assert c in Lower(s);
    }
  }

  lemma {:induction false} JoinSplitPrepared(cleaned: string)
    requires forall i :: 0 <= i < |cleaned| ==> IsWordChar(cleaned[i]) || IsSpace(cleaned[i])
    ensures IsPrepared(JoinSpace(Split(cleaned)))
  {
    SplitKeepsChars(cleaned, IsWordChar);
    JoinSpaceKeepsChars(Split(cleaned), IsWordChar);
    JoinSpaceCollapsed(Split(cleaned));
  }

  /** `prepare_text(text)`: a string is lower-cased, stripped of every
      character that is not an ASCII letter, digit or whitespace, and has its
      whitespace collapsed; any other value is returned as `str(text)`,
      without any cleaning. */
  function PrepareText(text: Value): (r: string)
    ensures text.Str? ==> IsPrepared(r)
    ensures text.Str? ==> Split(r) == Split(Clean(text.s))
    ensures !text.Str? ==> r == ToStr(text)
  {
    match text
    case Str(s) =>
      CleanChars(s);
      JoinSplitPrepared(Clean(s));
      SplitJoinSpace(Split(Clean(s)));
      JoinSpace(Split(Clean(s)))
    case _ => ToStr(text)
  }

  /** Prepared text goes through `prepare_text` unchanged. */
  lemma PreparedUnchanged(t: string)
    requires IsPrepared(t)
    ensures PrepareText(Str(t)) == t
  {
    LowerUnchanged(t);
    StripSpecialUnchanged(t);
    JoinSplitCollapsed(t);
  }

  /** `prepare_text` is idempotent on strings. */
  lemma PrepareTextIdempotent(s: string)
    ensures PrepareText(Str(PrepareText(Str(s)))) == PrepareText(Str(s))
  {
    PreparedUnchanged(PrepareText(Str(s)));
  }

  /** The strings `prepare_text` leaves alone are exactly the prepared ones. */
  lemma PrepareTextFixedPoints(t: string)
    ensures PrepareText(Str(t)) == t <==> IsPrepared(t)
  {
    if IsPrepared(t) {
      PreparedUnchanged(t);
    }
  }

  /** On text that is already lower-case letters, digits and whitespace,
      preparation only collapses the whitespace. */
  lemma {:induction false} PrepareTextOfClean(s: string)
    requires forall i :: 0 <= i < |s| ==> IsWordChar(s[i]) || IsSpace(s[i])
    ensures PrepareText(Str(s)) == JoinSpace(Split(s))
  {
    forall i | 0 <= i < |s| ensures LowerFixed(s[i]) {
    }
    LowerUnchanged(s);
    forall i | 0 <= i < |s| ensures IsAsciiAlnum(s[i]) || IsSpace(s[i]) {
    }
    StripSpecialUnchanged(s);
    assert Clean(s) == s;
  }

  /** Two words with whitespace between them split into those two words. */
  lemma {:induction false} SplitTwoWords(w1: string, gap: string, w2: string)
    requires IsWord(w1) && IsWord(w2)
    requires gap != [] && AllSpace(gap)
    ensures Split(w1 + gap + w2) == [w1, w2]
  {
    assert w1 + gap + w2 == w1 + [gap[0]] + (gap[1..] + w2);
    SplitAtSpace(w1, gap[0], gap[1..] + w2);
    SplitWord(w1);
    assert AllSpace(gap[1..]) by {
      forall i | 0 <= i < |gap[1..]| ensures IsSpace(gap[1..][i]) {
        assert gap[1..][i] == gap[i + 1];
      }
    }
    SplitSpaces(gap[1..], w2);
    SplitWord(w2);
  }

  /** Between two lower-case words, any run of whitespace becomes a single
      space: `prepare_text("a \t\n b")` is "a b". */
  lemma {:induction false} PrepareTextCollapsesGap(w1: string, gap: string, w2: string)
    requires w1 != [] && forall i :: 0 <= i < |w1| ==> IsWordChar(w1[i])
    requires w2 != [] && forall i :: 0 <= i < |w2| ==> IsWordChar(w2[i])
    requires gap != [] && AllSpace(gap)
    ensures PrepareText(Str(w1 + gap + w2)) == w1 + " " + w2
  {
    var s := w1 + gap + w2;
    forall i | 0 <= i < |s| ensures IsWordChar(s[i]) || IsSpace(s[i]) {
      if i < |w1| {
        assert s[i] == w1[i];
      } else if i < |w1| + |gap| {
        assert s[i] == gap[i - |w1|];
      } else {
        assert s[i] == w2[i - |w1| - |gap|];
      }
    }
    PrepareTextOfClean(s);
    SplitTwoWords(w1, gap, w2);
  }

  /** Text of whitespace only prepares to the empty string. */
  lemma BlankPreparesEmpty(s: string)
    requires AllSpace(s)
    ensures PrepareText(Str(s)) == ""
  {
    LowerUnchanged(s);
    StripSpecialUnchanged(s);
    SplitAllSpace(s);
  }

  // =====================================================================
  // round(x, 3)

  /** Python's `round` to an integer: the nearest integer, and of two
      equally near ones the even one. */
  function RoundHalfEven(y: real): (n: int)
    ensures y - 0.5 <= n as real <= y + 0.5
    ensures n as real == y - 0.5 || n as real == y + 0.5 ==> n % 2 == 0
  {
    var f := y.Floor;
    var d := y - f as real;
    if d < 0.5 then f
    else if d > 0.5 then f + 1
    else if f % 2 == 0 then f
    else f + 1
  }

  /** The two conditions above pick exactly one integer. */
  lemma RoundHalfEvenUnique(y: real, n: int)
    requires y - 0.5 <= n as real <= y + 0.5
    requires n as real == y - 0.5 || n as real == y + 0.5 ==> n % 2 == 0
    ensures RoundHalfEven(y) == n
  {
    var m := RoundHalfEven(y);
    if m != n {
      assert false;
    }
  }

  /** `round(x, 3)` for a binary64 `x`, read as the exact real it denotes: a
      multiple of 1/1000 nearest to `x`, and of two equally near ones the one
      with an even numerator (0.0625 rounds to 0.062). The result is the
      exact decimal, not the binary64 Python stores for it. */
  function Round3(x: real): (r: real)
    ensures x - 0.0005 <= r <= x + 0.0005
    ensures (r * 1000.0).Floor as real == r * 1000.0
    ensures r == x - 0.0005 || r == x + 0.0005 ==> (r * 1000.0).Floor % 2 == 0
  {
    var n := RoundHalfEven(x * 1000.0);
    assert (n as real / 1000.0) * 1000.0 == n as real;
    n as real / 1000.0
  }

  /** Exact ties go to the even neighbour, in both directions of sign. */
  lemma Round3Ties()
    ensures Round3(0.0625) == 0.062
    ensures Round3(0.3125) == 0.312
    ensures Round3(-0.1875) == -0.188
  {
    RoundHalfEvenUnique(62.5, 62);
    RoundHalfEvenUnique(312.5, 312);
    RoundHalfEvenUnique(-187.5, -188);
  }

  /** Rounding to thousandths never carries a value across a multiple of a
      thousandth. */
  lemma Round3Between(x: real, n: int)
    ensures x >= n as real / 1000.0 ==> Round3(x) >= n as real / 1000.0
    ensures x <= n as real / 1000.0 ==> Round3(x) <= n as real / 1000.0
  {
    var m := RoundHalfEven(x * 1000.0);
    assert Round3(x) == m as real / 1000.0;
    if x >= n as real / 1000.0 {
      assert x * 1000.0 >= n as real;
      assert m > n - 1;
    }
    if x <= n as real / 1000.0 {
      assert x * 1000.0 <= n as real;
      assert m < n + 1;
    }
  }

  // =====================================================================
  // analyze_sentiment

  /** What the polarity library reports for a text. */
  datatype BlobSentiment = BlobSentiment(polarity: real, subjectivity: real)

  /** The dictionary `analyze_sentiment` returns. */
  datatype Analysis = Analysis(sentiment: Label, polarity: real, subjectivity: real)

  /** The polarity rule: a single boundary point at 0. */
  function PolarityLabel(polarity: real): (l: Label)
    ensures l == Positive <==> polarity > 0.0
    ensures l == Negative <==> polarity < 0.0
    ensures l == Neutral <==> polarity == 0.0
  {
    if polarity > 0.0 then Positive
    else if polarity < 0.0 then Negative
    else Neutral
  }

  /** `analyze_sentiment(text)` with `blob` standing for TextBlob's sentiment
      of a text. The label is decided by the polarity of the PREPARED text
      alone, and the reported, rounded polarity never contradicts it. */
  function AnalyzeSentiment(text: Value, blob: string -> BlobSentiment): (a: Analysis)
    ensures a.sentiment == PolarityLabel(blob(PrepareText(text)).polarity)
    ensures a.sentiment == Positive ==> a.polarity >= 0.0
    ensures a.sentiment == Negative ==> a.polarity <= 0.0
    ensures a.sentiment == Neutral ==> a.polarity == 0.0
    ensures -0.0005 <= a.polarity - blob(PrepareText(text)).polarity <= 0.0005
    ensures -0.0005 <= a.subjectivity - blob(PrepareText(text)).subjectivity <= 0.0005
    ensures a.polarity == Round3(blob(PrepareText(text)).polarity)
    ensures a.subjectivity == Round3(blob(PrepareText(text)).subjectivity)
  {
    var prepared := PrepareText(text);
    var scores := blob(prepared);
    Round3Between(scores.polarity, 0);
    var sentiment :=
      if scores.polarity > 0.0 then Positive
      else if scores.polarity < 0.0 then Negative
      else Neutral;
    Analysis(sentiment, Round3(scores.polarity), Round3(scores.subjectivity))
  }

  /** Raw or already prepared, a string gets the same analysis. */
  lemma AnalyzeSentimentRawOrPrepared(s: string, blob: string -> BlobSentiment)
    ensures AnalyzeSentiment(Str(PrepareText(Str(s))), blob) == AnalyzeSentiment(Str(s), blob)
  {
    PrepareTextIdempotent(s);
  }

  /** Blank text is scored as the empty text; when that scores 0 it is
      neutral with polarity 0. */
  lemma BlankTextNeutral(s: string, blob: string -> BlobSentiment)
    requires AllSpace(s)
    requires blob("").polarity == 0.0
    ensures AnalyzeSentiment(Str(s), blob).sentiment == Neutral
    ensures AnalyzeSentiment(Str(s), blob).polarity == 0.0
  {
    BlankPreparesEmpty(s);
  }

  // =====================================================================
  // analyze_review_vader

  /** What VADER's `polarity_scores` reports for a text. */
  datatype VaderScores = VaderScores(neg: real, neu: real, pos: real, compound: real)

  /** The dictionary `analyze_review_vader` returns. */
  datatype VaderAnalysis = VaderAnalysis(sentiment: Label, compoundScore: real, pos: real, neg: real, neu: real)

  /** The compound rule: a dead zone between -0.05 and 0.05, both edges
      belonging to the outer labels. For a binary64 compound score the
      comparison with the exact real 0.05 decides as the comparison with the
      binary64 constant 0.05 does: no binary64 value lies between the two. */
  function CompoundLabel(compound: real): (l: Label)
    ensures l == Positive <==> compound >= 0.05
    ensures l == Negative <==> compound <= -0.05
    ensures l == Neutral <==> -0.05 < compound < 0.05
  {
    if compound >= 0.05 then Positive
    else if compound <= -0.05 then Negative
    else Neutral
  }

  /** `analyze_review_vader(text)` with `vader` standing for VADER's scores
      of a text. VADER sees the RAW text (`str(text)`, or "" for a false
      value); the label follows the compound rule, and the reported, rounded
      compound score agrees with it. */
  function AnalyzeReviewVader(text: Value, vader: string -> VaderScores): (a: VaderAnalysis)
    ensures a.sentiment == CompoundLabel(vader(if Truthy(text) then ToStr(text) else "").compound)
    ensures a.sentiment == Positive ==> a.compoundScore >= 0.05
    ensures a.sentiment == Negative ==> a.compoundScore <= -0.05
    ensures a.sentiment == Neutral ==> -0.05 <= a.compoundScore <= 0.05
    ensures var scores := vader(if Truthy(text) then ToStr(text) else "");
      && -0.0005 <= a.compoundScore - scores.compound <= 0.0005
      && a.compoundScore == Round3(scores.compound)
      && a.pos == scores.pos && a.neg == scores.neg && a.neu == scores.neu
  {
    var raw := if Truthy(text) then ToStr(text) else "";
    var scores := vader(raw);
    Round3Between(scores.compound, 50);
    Round3Between(scores.compound, -50);
    var sentiment :=
      if scores.compound >= 0.05 then Positive
      else if scores.compound <= -0.05 then Negative
      else Neutral;
    VaderAnalysis(sentiment, Round3(scores.compound), scores.pos, scores.neg, scores.neu)
  }

  /** Outside the dead zone the two rules agree: whenever the compound rule
      commits to a label, the polarity rule on the same score gives it too. */
  lemma CompoundRuleRefinesPolarityRule(score: real)
    ensures CompoundLabel(score) != Neutral ==> CompoundLabel(score) == PolarityLabel(score)
    ensures PolarityLabel(score) == Neutral ==> CompoundLabel(score) == Neutral
  {
  }

  function Rank(l: Label): int {
    match l
    case Negative => -1
    case Neutral => 0
    case Positive => 1
  }

  /** Both rules are monotone: a higher score never gets a lower label. */
  lemma LabelsMonotone(x: real, y: real)
    requires x <= y
    ensures Rank(PolarityLabel(x)) <= Rank(PolarityLabel(y))
    ensures Rank(CompoundLabel(x)) <= Rank(CompoundLabel(y))
  {
  }

  // =====================================================================
  // predict_sentiment_ml

  /** The label `predict_sentiment_ml` gives one review: the compound rule on
      VADER's score of `str(review)`. For a string or a true value that is the
      label `analyze_review_vader` gives; for `None` the two differ in what
      VADER is shown, the text "None" here and the empty text there. */
  function PredictLabel(review: Value, vader: string -> VaderScores): (l: Label)
    ensures review.Str? || Truthy(review) ==> l == AnalyzeReviewVader(review, vader).sentiment
    ensures review.Null? ==>
      && l == CompoundLabel(vader("None").compound)
      && AnalyzeReviewVader(review, vader).sentiment == CompoundLabel(vader("").compound)
  {
    CompoundLabel(vader(ToStr(review)).compound)
  }

  /** `predict_sentiment_ml(reviews)`: one label per review, in order,
      nothing skipped. */
  method PredictSentimentMl(reviews: seq<Value>, vader: string -> VaderScores) returns (labels: seq<Label>)
    ensures |labels| == |reviews|
    ensures forall i :: 0 <= i < |reviews| ==> labels[i] == PredictLabel(reviews[i], vader)
  {
    labels := [];
    for i := 0 to |reviews|
      invariant |labels| == i
      invariant forall j :: 0 <= j < i ==> labels[j] == PredictLabel(reviews[j], vader)
    {
      var scores := vader(ToStr(reviews[i]));
      if scores.compound >= 0.05 {
        labels := labels + [Positive];
      } else if scores.compound <= -0.05 {
        labels := labels + [Negative];
      } else {
        labels := labels + [Neutral];
      }
    }
  }

  // =====================================================================
  // analyze_batch

  /** The test `analyze_batch` applies to each entry: true, and not blank
      once stripped. */
  predicate Retained(review: Value)
    ensures Retained(review) <==> Truthy(review) && !AllSpace(ToStr(review))
  {
    Truthy(review) && Strip(ToStr(review)) != ""
  }

  /** For a string the truth test adds nothing: a string is kept exactly when
      it is not all whitespace, since the empty string is all whitespace. */
  lemma RetainedString(s: string)
    ensures Retained(Str(s)) <==> !AllSpace(s)
  {
    if s == [] {
      assert AllSpace(s);
    }
  }

  lemma RetainedStep(reviews: seq<Value>)
    requires reviews != []
    ensures RetainedReviews(reviews) ==
      RetainedReviews(reviews[..|reviews| - 1]) +
      if Retained(reviews[|reviews| - 1]) then [reviews[|reviews| - 1]] else []
  {
  }

  /** The entries `analyze_batch` keeps, in input order. */
  function RetainedReviews(reviews: seq<Value>): (kept: seq<Value>)
    ensures |kept| <= |reviews|
    ensures forall i :: 0 <= i < |kept| ==> Retained(kept[i])
  {
    if reviews == [] then []
    else
      var last := reviews[|reviews| - 1];
      RetainedReviews(reviews[..|reviews| - 1]) + if Retained(last) then [last] else []
  }

  /** `a` is `b` with some elements left out, the rest in their order. */
  predicate IsSubsequence(a: seq<Value>, b: seq<Value>)
    decreases |b|
  {
    if a == [] then true
    else if b == [] then false
    else if a[|a| - 1] == b[|b| - 1] then IsSubsequence(a[..|a| - 1], b[..|b| - 1])
    else IsSubsequence(a, b[..|b| - 1])
  }

  /** The kept entries are a subsequence of the input. */
  lemma {:induction false} RetainedIsSubsequence(reviews: seq<Value>)
    ensures IsSubsequence(RetainedReviews(reviews), reviews)
  {
    if reviews != [] {
      var init, last := reviews[..|reviews| - 1], reviews[|reviews| - 1];
      RetainedIsSubsequence(init);
      var kept := RetainedReviews(reviews);
      if Retained(last) {
        assert kept[..|kept| - 1] == RetainedReviews(init);
      } else {
        assert kept == RetainedReviews(init);
        if kept != [] {
          assert Retained(kept[|kept| - 1]);
        }
      }
    }
  }

  lemma {:induction false} RetainedCount(reviews: seq<Value>, v: Value)
    ensures multiset(RetainedReviews(reviews))[v] == if Retained(v) then multiset(reviews)[v] else 0
  {
    if reviews != [] {
      var init, last := reviews[..|reviews| - 1], reviews[|reviews| - 1];
      assert reviews == init + [last];
      assert multiset(reviews) == multiset(init) + multiset{last};
      RetainedCount(init, v);
      RetainedStep(reviews);
      var kept, added := RetainedReviews(init), if Retained(last) then [last] else [];
      assert multiset(kept + added) == multiset(kept) + multiset(added);
    }
  }

  /** One entry of `analyze_batch`'s result: the analysis, tagged with the
      original, unprepared entry. */
  datatype BatchEntry = BatchEntry(analysis: Analysis, review: Value)

  /** The analysis of each kept entry, in order, each tagged with the entry
      as given. */
  function Tagged(kept: seq<Value>, blob: string -> BlobSentiment): seq<BatchEntry> {
    seq(|kept|, i requires 0 <= i < |kept| => BatchEntry(AnalyzeSentiment(kept[i], blob), kept[i]))
  }

  lemma TaggedAt(kept: seq<Value>, blob: string -> BlobSentiment)
    ensures |Tagged(kept, blob)| == |kept|
    ensures forall i :: 0 <= i < |kept| ==>
      && Tagged(kept, blob)[i].review == kept[i]
      && Tagged(kept, blob)[i].analysis == AnalyzeSentiment(kept[i], blob)
  {
  }

  lemma TaggedAppend(kept: seq<Value>, review: Value, blob: string -> BlobSentiment)
    ensures Tagged(kept + [review], blob) == Tagged(kept, blob) + [BatchEntry(AnalyzeSentiment(review, blob), review)]
  {
  }

  /** `analyze_batch(reviews)`: the analysis of each kept entry, in input
      order, each tagged with the entry as given. */
  method AnalyzeBatch(reviews: seq<Value>, blob: string -> BlobSentiment) returns (results: seq<BatchEntry>)
    ensures |results| == |RetainedReviews(reviews)| <= |reviews|
    ensures forall i :: 0 <= i < |results| ==>
      && results[i].review == RetainedReviews(reviews)[i]
      && results[i].analysis == AnalyzeSentiment(results[i].review, blob)
  {
    results := [];
    for i := 0 to |reviews|
      invariant results == Tagged(RetainedReviews(reviews[..i]), blob)
    {
      var review := reviews[i];
      ghost var kept := RetainedReviews(reviews[..i]);
      assert reviews[..i + 1][..i] == reviews[..i];
      RetainedStep(reviews[..i + 1]);
      if Retained(review) {
        var result := AnalyzeSentiment(review, blob);
        results := results + [BatchEntry(result, review)];
        TaggedAppend(kept, review, blob);
      }
    }
    assert reviews[..|reviews|] == reviews;
    TaggedAt(RetainedReviews(reviews), blob);
  }

  // =====================================================================
  // get_sentiment_distribution

  /** `analysis.get('sentiment', 'neutral')`, where `entry` is the
      analysis's 'sentiment' value if it has one. */
  function SentimentOf(entry: Option<string>): string {
    match entry
    case Some(s) => s
    case None => "neutral"
  }

  const BaseKeys: set<string> := {"positive", "negative", "neutral"}

  /** `distribution[k] = distribution.get(k, 0) + 1` */
  function Increment(m: map<string, nat>, k: string): map<string, nat> {
    m[k := (if k in m then m[k] else 0) + 1]
  }

  /** The dictionary `get_sentiment_distribution` builds, as a fold over the
      entries in order. */
  function Distribution(entries: seq<Option<string>>): (m: map<string, nat>)
    ensures BaseKeys <= m.Keys
    ensures entries != [] ==>
      var k := SentimentOf(entries[|entries| - 1]);
      k in m && m[k] > 0
  {
    if entries == [] then map["positive" := 0, "negative" := 0, "neutral" := 0]
    else Increment(Distribution(entries[..|entries| - 1]), SentimentOf(entries[|entries| - 1]))
  }

  /** How many entries count towards label `k`. */
  function CountOf(entries: seq<Option<string>>, k: string): nat {
    if entries == [] then 0
    else CountOf(entries[..|entries| - 1], k) + if SentimentOf(entries[|entries| - 1]) == k then 1 else 0
  }

  /** The sum of all values of a dictionary. */
  ghost function Total(m: map<string, nat>): nat
    decreases |m|
  {
    if m == map[] then 0
    else
      var k :| k in m;
      m[k] + Total(m - {k})
  }

  lemma {:induction false} TotalRemove(m: map<string, nat>, k: string)
    requires k in m
    ensures Total(m) == m[k] + Total(m - {k})
    decreases |m|
  {
    var j :| j in m && Total(m) == m[j] + Total(m - {j});
    if j != k {
      TotalRemove(m - {j}, k);
      TotalRemove(m - {k}, j);
      assert m - {j} - {k} == m - {k} - {j};
    }
  }

  lemma TotalIncrement(m: map<string, nat>, k: string)
    ensures Total(Increment(m, k)) == Total(m) + 1
  {
    var m' := Increment(m, k);
    TotalRemove(m', k);
    assert m' - {k} == m - {k};
    if k in m {
      TotalRemove(m, k);
    } else {
      assert m - {k} == m;
    }
  }

  /** The keys are the three labels plus every other label that occurs, and
      each key maps to the number of entries that count towards it; an entry
      without a label counts as neutral. */
  lemma {:induction false} DistributionCounts(entries: seq<Option<string>>)
    ensures forall k :: k in Distribution(entries) <==> k in BaseKeys || CountOf(entries, k) > 0
    ensures forall k :: k in Distribution(entries) ==> Distribution(entries)[k] == CountOf(entries, k)
  {
    if entries != [] {
      DistributionCounts(entries[..|entries| - 1]);
    }
  }

  /** Every entry is counted exactly once. */
  lemma {:induction false} DistributionTotal(entries: seq<Option<string>>)
    ensures Total(Distribution(entries)) == |entries|
  {
    if entries == [] {
      var m := Distribution(entries);
      TotalRemove(m, "positive");
      TotalRemove(m - {"positive"}, "negative");
      TotalRemove(m - {"positive"} - {"negative"}, "neutral");
      assert m - {"positive"} - {"negative"} - {"neutral"} == map[];
    } else {
      var init := entries[..|entries| - 1];
      DistributionTotal(init);
      TotalIncrement(Distribution(init), SentimentOf(entries[|entries| - 1]));
    }
  }

  /** N entries all labelled positive give {positive: N, negative: 0, neutral: 0}. */
  lemma {:induction false} DistributionAllPositive(entries: seq<Option<string>>)
    requires forall i :: 0 <= i < |entries| ==> entries[i] == Some("positive")
    ensures Distribution(entries) == map["positive" := |entries|, "negative" := 0, "neutral" := 0]
  {
    if entries != [] {
      DistributionAllPositive(entries[..|entries| - 1]);
    }
  }

  /** The 'sentiment' entries of `analyze_batch`'s results. */
  function SentimentEntries(results: seq<BatchEntry>): seq<Option<string>> {
    seq(|results|, i requires 0 <= i < |results| => Some(LabelName(results[i].analysis.sentiment)))
  }

  /** Fed the analyser's own results, the distribution has exactly the three
      label keys. */
  lemma {:induction false} DistributionOfResults(results: seq<BatchEntry>)
    ensures Distribution(SentimentEntries(results)).Keys == BaseKeys
  {
    var entries := SentimentEntries(results);
    DistributionCounts(entries);
    forall k | CountOf(entries, k) > 0 ensures k in BaseKeys {
      CountOfLabels(entries, k);
    }
  }

  lemma {:induction false} CountOfLabels(entries: seq<Option<string>>, k: string)
    requires forall i :: 0 <= i < |entries| ==> entries[i].Some? && entries[i].value in BaseKeys
    requires CountOf(entries, k) > 0
    ensures k in BaseKeys
  {
    var init := entries[..|entries| - 1];
    if CountOf(init, k) > 0 {
      CountOfLabels(init, k);
    }
  }

  /** `get_sentiment_distribution(analyses)`, where each element of
      `analyses` is that analysis's 'sentiment' value, if any. */
  method GetSentimentDistribution(analyses: seq<Option<string>>) returns (distribution: map<string, nat>)
    ensures distribution == Distribution(analyses)
    ensures forall k :: k in distribution <==> k in BaseKeys || CountOf(analyses, k) > 0
    ensures forall k :: k in distribution ==> distribution[k] == CountOf(analyses, k)
    ensures Total(distribution) == |analyses|
  {
    distribution := map["positive" := 0, "negative" := 0, "neutral" := 0];
    for i := 0 to |analyses|
      invariant distribution == Distribution(analyses[..i])
    {
      var sentiment := match analyses[i] case Some(s) => s case None => "neutral";
      distribution := distribution[sentiment := (if sentiment in distribution then distribution[sentiment] else 0) + 1];
      assert analyses[..i + 1][..i] == analyses[..i];
    }
    assert analyses[..|analyses|] == analyses;
    DistributionCounts(analyses);
    DistributionTotal(analyses);
  }
}
