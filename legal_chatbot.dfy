/**
 * The decision part of `EnhancedMultilingualLegalArticleChatbot.enhanced_generate_response`:
 * canned replies for greeting, closing and thanks; for a legal query, a
 * refusal when the top similarity score is below the threshold, and
 * otherwise the texts of all returned articles joined by a blank line.
 *
 * The embedding model and the nearest-neighbour index are outside the
 * model: their result, the `(score, index)` pairs in the order the index
 * returns them, is a parameter.
 */
module LegalChatbot {
  import opened IntentHandler

  /** One row of the index's answer: a similarity score and the article's row index. */
  datatype Hit = Hit(score: real, index: int)

  /** What makes the source raise instead of returning: `scores[0]` on an empty answer, or a row index missing from the article table. */
  datatype Failure = NoSearchResults | MissingArticle(index: int)

  datatype Result<T> = Ok(value: T) | Err(error: Failure)

  /** `legal_similarity_threshold`. */
  const Threshold: real := 0.35

  const GreetingReply: string := "Hello!  I'm your Rwanda Law Assistant. How can I help you today?"
  const ClosingReply: string := "Goodbye!  Have a great day!"
  const ThanksReply: string := "You're welcome!  Always happy to help."
  const RefusalReply: string := "I\U{2019}m sorry, I can only assist with questions related to Rwandan laws and regulations."

  /** The separator between article texts: a blank line. */
  const ParagraphBreak: string := "\n\n"

  /** Python's `sep.join(parts)`. */
  function Join(sep: string, parts: seq<string>): string
    decreases |parts|
  {
    if |parts| == 0 then ""
    else if |parts| == 1 then parts[0]
    else parts[0] + sep + Join(sep, parts[1..])
  }

  /** Where `parts[k]` starts in `Join(sep, parts)`: every earlier part followed by one separator. */
  function Offset(sep: string, parts: seq<string>, k: nat): nat
    requires k <= |parts|
    decreases k
  {
    if k == 0 then 0 else Offset(sep, parts, k - 1) + |parts[k - 1]| + |sep|
  }

  /** Dropping the first part moves every later offset back by that part and one separator. */
  lemma {:induction false} OffsetOfRest(sep: string, parts: seq<string>, k: nat)
    requires 0 < k <= |parts|
    ensures Offset(sep, parts, k) == |parts[0]| + |sep| + Offset(sep, parts[1..], k - 1)
    decreases k
  {
    if k > 1 {
      OffsetOfRest(sep, parts, k - 1);
      assert parts[1..][k - 2] == parts[k - 1];
    }
  }

  /** `text` holds `part` at position `at`. */
  predicate PartAt(text: string, part: string, at: nat) {
    at + |part| <= |text| && text[at..at + |part|] == part
  }

  /** Part `k` of a joined string sits at `Offset(sep, parts, k)`. */
  lemma {:induction false} JoinPartAt(sep: string, parts: seq<string>, k: nat)
    requires k < |parts|
    ensures PartAt(Join(sep, parts), parts[k], Offset(sep, parts, k))
    decreases k
  {
    if |parts| > 1 {
      var lead := parts[0] + sep;
      var rest := parts[1..];
      var tail := Join(sep, rest);
      assert Join(sep, parts) == lead + tail;
      if k == 0 {
        SliceOfLeft(lead, tail, 0, |parts[0]|);
        assert lead[0..|parts[0]|] == parts[0];
      } else {
        JoinPartAt(sep, rest, k - 1);
        OffsetOfRest(sep, parts, k);
        assert rest[k - 1] == parts[k];
        var at := |lead| + Offset(sep, rest, k - 1);
        SliceOfRight(lead, tail, at, at + |parts[k]|);
      }
    }
  }

  /** A separator follows every part of a joined string but the last. */
  lemma {:induction false} JoinSeparatorAfter(sep: string, parts: seq<string>, k: nat)
    requires k + 1 < |parts|
    ensures PartAt(Join(sep, parts), sep, Offset(sep, parts, k) + |parts[k]|)
    decreases k
  {
    var lead := parts[0] + sep;
    var rest := parts[1..];
    var tail := Join(sep, rest);
    assert Join(sep, parts) == lead + tail;
    if k == 0 {
      SliceOfLeft(lead, tail, |parts[0]|, |lead|);
      assert lead[|parts[0]|..|lead|] == sep;
    } else {
      JoinSeparatorAfter(sep, rest, k - 1);
      OffsetOfRest(sep, parts, k);
      assert rest[k - 1] == parts[k];
      var at := |lead| + Offset(sep, rest, k - 1) + |parts[k]|;
      SliceOfRight(lead, tail, at, at + |sep|);
    }
  }

  /** The last part of a joined string ends it. */
  lemma {:induction false} JoinLastPartEnds(sep: string, parts: seq<string>)
    requires |parts| > 0
    ensures Offset(sep, parts, |parts| - 1) + |parts[|parts| - 1]| == |Join(sep, parts)|
    decreases |parts|
  {
    if |parts| > 1 {
      var rest := parts[1..];
      JoinLastPartEnds(sep, rest);
      OffsetOfRest(sep, parts, |parts| - 1);
      assert rest[|rest| - 1] == parts[|parts| - 1];
    }
  }

  /**
   * The layout of a joined string: part `k` sits at `Offset(sep, parts, k)`,
   * a separator follows each part but the last, and the last part ends the string.
   */
  lemma JoinLayout(sep: string, parts: seq<string>, k: nat)
    requires k < |parts|
    ensures PartAt(Join(sep, parts), parts[k], Offset(sep, parts, k))
    ensures k + 1 < |parts| ==> PartAt(Join(sep, parts), sep, Offset(sep, parts, k) + |parts[k]|)
    ensures k + 1 == |parts| ==> Offset(sep, parts, k) + |parts[k]| == |Join(sep, parts)|
  {
    JoinPartAt(sep, parts, k);
    if k + 1 < |parts| {
      JoinSeparatorAfter(sep, parts, k);
    } else {
      JoinLastPartEnds(sep, parts);
    }
  }

  lemma SliceOfLeft(a: string, b: string, i: nat, j: nat)
    requires i <= j <= |a|
    ensures (a + b)[i..j] == a[i..j]
  {
  }

  lemma SliceOfRight(a: string, b: string, i: nat, j: nat)
    requires |a| <= i <= j <= |a| + |b|
    ensures (a + b)[i..j] == b[i - |a|..j - |a|]
  {
  }

  /** Every row index of the answer has an article. */
  predicate AllFound(hits: seq<Hit>, info: map<int, string>) {
    forall i :: 0 <= i < |hits| ==> hits[i].index in info
  }

  /** Hit `k` is the first whose row index has no article. */
  predicate FirstMissing(hits: seq<Hit>, info: map<int, string>, k: int) {
    0 <= k < |hits| && hits[k].index !in info && forall j :: 0 <= j < k ==> hits[j].index in info
  }

  /**
   * `[self.article_info[i] for i in indices]`: the article texts in the
   * order of the hits, or the first row index that has no article.
   */
  function ArticleTexts(hits: seq<Hit>, info: map<int, string>): (r: Result<seq<string>>)
    ensures r.Ok? <==> AllFound(hits, info)
    ensures r.Ok? ==> |r.value| == |hits| && forall i :: 0 <= i < |hits| ==> r.value[i] == info[hits[i].index]
    ensures r.Err? ==> exists k :: FirstMissing(hits, info, k) && r.error == MissingArticle(hits[k].index)
    decreases |hits|
  {
    if hits == [] then Ok([])
    else if hits[0].index !in info then Err(MissingArticle(hits[0].index))
    else
      var rest := ArticleTexts(hits[1..], info);
      match rest
      case Ok(ts) => Ok([info[hits[0].index]] + ts)
      case Err(f) =>
        assert exists k :: FirstMissing(hits, info, k) && f == MissingArticle(hits[k].index) by {
          var k :| FirstMissing(hits[1..], info, k) && f == MissingArticle(hits[1..][k].index);
          forall j | 0 <= j < k + 1 ensures hits[j].index in info {
            if j > 0 { assert hits[j] == hits[1..][j - 1]; }
          }
          assert FirstMissing(hits, info, k + 1);
        }
        Err(f)
  }

  /** The article texts of a search answer whose every row index has an article, in the order returned. */
  function TextsOf(hits: seq<Hit>, info: map<int, string>): (ts: seq<string>)
    requires AllFound(hits, info)
    ensures |ts| == |hits|
  {
    seq(|hits|, i requires 0 <= i < |hits| => info[hits[i].index])
  }

  /**
   * `enhanced_generate_response(query)` once the search answer `hits` is
   * known; `hits` is consulted only for a legal query.
   */
  function GenerateResponse(query: string, hits: seq<Hit>, info: map<int, string>): (r: Result<string>)
    ensures Classify(query) == Greeting ==> r == Ok(GreetingReply)
    ensures Classify(query) == Closing ==> r == Ok(ClosingReply)
    ensures Classify(query) == Thanks ==> r == Ok(ThanksReply)
    ensures Classify(query) == LegalQuery && |hits| == 0 ==> r == Err(NoSearchResults)
    ensures Classify(query) == LegalQuery && |hits| > 0 && hits[0].score < Threshold ==> r == Ok(RefusalReply)
    ensures Classify(query) == LegalQuery && |hits| > 0 && hits[0].score >= Threshold ==>
      (r.Ok? <==> AllFound(hits, info))
    ensures Classify(query) == LegalQuery && |hits| > 0 && hits[0].score >= Threshold && AllFound(hits, info) ==>
      r == Ok(Join(ParagraphBreak, TextsOf(hits, info)))
    ensures Classify(query) == LegalQuery && |hits| > 0 && hits[0].score >= Threshold && r.Err? ==>
      exists k :: FirstMissing(hits, info, k) && r.error == MissingArticle(hits[k].index)
  {
    match Classify(query)
    case Greeting => Ok(GreetingReply)
    case Closing => Ok(ClosingReply)
    case Thanks => Ok(ThanksReply)
    case LegalQuery =>
      if |hits| == 0 then Err(NoSearchResults)
      else if hits[0].score < Threshold then Ok(RefusalReply)
      else
        match ArticleTexts(hits, info)
        case Ok(ts) =>
          assert ts == TextsOf(hits, info);
          Ok(Join(ParagraphBreak, ts))
        case Err(f) => Err(f)
  }

  /** Greeting, closing and thanks get their canned reply whatever the search answer and the article table hold. */
  lemma CannedReplyIgnoresSearch(query: string, hits: seq<Hit>, info: map<int, string>, hits': seq<Hit>, info': map<int, string>)
    requires Classify(query) != LegalQuery
    ensures GenerateResponse(query, hits, info) == GenerateResponse(query, hits', info')
    ensures GenerateResponse(query, hits, info).Ok?
  {
  }

  /**
   * Only the top score is compared with the threshold: two answers with the
   * same row indices whose top scores fall on the same side of the threshold
   * give the same response, whatever the other scores are.
   */
  lemma OnlyTopScoreIsCompared(query: string, hits: seq<Hit>, hits': seq<Hit>, info: map<int, string>)
    requires |hits| == |hits'| > 0
    requires forall i :: 0 <= i < |hits| ==> hits[i].index == hits'[i].index
    requires (hits[0].score < Threshold) == (hits'[0].score < Threshold)
    ensures GenerateResponse(query, hits, info) == GenerateResponse(query, hits', info)
  {
    if Classify(query) == LegalQuery && hits[0].score >= Threshold {
      if AllFound(hits, info) {
        assert AllFound(hits', info);
        assert TextsOf(hits, info) == TextsOf(hits', info);
      } else {
        var r, r' := GenerateResponse(query, hits, info), GenerateResponse(query, hits', info);
        var k :| FirstMissing(hits, info, k) && r.error == MissingArticle(hits[k].index);
        var k' :| FirstMissing(hits', info, k') && r'.error == MissingArticle(hits'[k'].index);
        assert FirstMissing(hits, info, k');
        FirstMissingUnique(hits, info, k, k');
      }
    }
  }

  /** There is only one first missing row index. */
  lemma FirstMissingUnique(hits: seq<Hit>, info: map<int, string>, k: int, k': int)
    requires FirstMissing(hits, info, k) && FirstMissing(hits, info, k')
    ensures k == k'
  {
  }

  /** The threshold is inclusive: a top score of exactly 0.35 returns the articles, not the refusal. */
  lemma ThresholdIsInclusive(query: string, hits: seq<Hit>, info: map<int, string>)
    requires Classify(query) == LegalQuery
    requires |hits| > 0 && hits[0].score == 35.0 / 100.0
    requires AllFound(hits, info)
    ensures GenerateResponse(query, hits, info) == Ok(Join(ParagraphBreak, TextsOf(hits, info)))
  {
  }

  /**
   * When the top score clears the threshold, the response holds the article
   * of every returned row index, in the order returned, each followed by a
   * blank line except the last, which ends the response.
   */
  lemma AcceptedResponseLayout(query: string, hits: seq<Hit>, info: map<int, string>, text: string, k: nat)
    requires Classify(query) == LegalQuery
    requires |hits| > 0 && hits[0].score >= Threshold
    requires GenerateResponse(query, hits, info) == Ok(text)
    requires k < |hits|
    ensures AllFound(hits, info)
    ensures PartAt(text, info[hits[k].index], Offset(ParagraphBreak, TextsOf(hits, info), k))
    ensures k + 1 < |hits| ==>
      PartAt(text, ParagraphBreak, Offset(ParagraphBreak, TextsOf(hits, info), k) + |info[hits[k].index]|)
    ensures k + 1 == |hits| ==> Offset(ParagraphBreak, TextsOf(hits, info), k) + |info[hits[k].index]| == |text|
  {
    AcceptedResponseIsJoin(query, hits, info, text);
    ArticleAt(hits, info, text, k);
    if k + 1 < |hits| {
      BlankLineAfter(hits, info, text, k);
    } else {
      LastArticleEnds(hits, info, text, k);
    }
  }

  /** An accepted response is the join of the article texts. */
  lemma AcceptedResponseIsJoin(query: string, hits: seq<Hit>, info: map<int, string>, text: string)
    requires Classify(query) == LegalQuery
    requires |hits| > 0 && hits[0].score >= Threshold
    requires GenerateResponse(query, hits, info) == Ok(text)
    ensures AllFound(hits, info) && text == Join(ParagraphBreak, TextsOf(hits, info))
  {
  }

  /** The article of hit `k` sits at its offset in the joined article texts. */
  lemma ArticleAt(hits: seq<Hit>, info: map<int, string>, text: string, k: nat)
    requires AllFound(hits, info) && text == Join(ParagraphBreak, TextsOf(hits, info))
    requires k < |hits|
    ensures PartAt(text, info[hits[k].index], Offset(ParagraphBreak, TextsOf(hits, info), k))
  {
    var ts := TextsOf(hits, info);
    assert ts[k] == info[hits[k].index];
    JoinPartAt(ParagraphBreak, ts, k);
  }

  /** A blank line follows the article of every hit but the last in the joined article texts. */
  lemma BlankLineAfter(hits: seq<Hit>, info: map<int, string>, text: string, k: nat)
    requires AllFound(hits, info) && text == Join(ParagraphBreak, TextsOf(hits, info))
    requires k + 1 < |hits|
    ensures PartAt(text, ParagraphBreak, Offset(ParagraphBreak, TextsOf(hits, info), k) + |info[hits[k].index]|)
  {
    var ts := TextsOf(hits, info);
    assert ts[k] == info[hits[k].index];
    JoinSeparatorAfter(ParagraphBreak, ts, k);
  }

  /** The article of the last hit ends the joined article texts. */
  lemma LastArticleEnds(hits: seq<Hit>, info: map<int, string>, text: string, k: nat)
    requires AllFound(hits, info) && text == Join(ParagraphBreak, TextsOf(hits, info))
    requires k + 1 == |hits|
    ensures Offset(ParagraphBreak, TextsOf(hits, info), k) + |info[hits[k].index]| == |text|
  {
    var ts := TextsOf(hits, info);
    assert ts[k] == info[hits[k].index];
    JoinLastPartEnds(ParagraphBreak, ts);
  }
}
