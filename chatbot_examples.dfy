/**
 * Concrete responses: the canned reply to "thank you", and a refused and an
 * accepted legal query over a three-row search answer.
 */
module ChatbotExamples {
  import opened IntentHandler
  import opened IntentExamples
  import opened LegalChatbot

  /** Three articles at row indices 0, 1 and 2. */
  function SampleArticles(): (info: map<int, string>)
    ensures info.Keys == {0, 1, 2}
  {
    map[0 := "A", 1 := "B", 2 := "C"]
  }

  /** "thank you" gets the thanks reply, with no search consulted. */
  lemma ThankYouGetsWelcome(hits: seq<Hit>, info: map<int, string>)
    ensures GenerateResponse("thank you", hits, info) == Ok(ThanksReply)
  {
    ThankYouIsThanks();
  }

  /** A top score of 0.10 is refused, although every row index has an article. */
  lemma LowTopScoreIsRefused(query: string)
    requires Classify(query) == LegalQuery
    ensures GenerateResponse(query, [Hit(0.10, 0), Hit(0.05, 1), Hit(0.01, 2)], SampleArticles()) == Ok(RefusalReply)
  {
  }

  /** A top score of 0.90 returns all three articles, though the other two scores are far below the threshold. */
  lemma HighTopScoreJoinsAll(query: string)
    requires Classify(query) == LegalQuery
    ensures GenerateResponse(query, [Hit(0.90, 0), Hit(0.02, 1), Hit(0.01, 2)], SampleArticles()) == Ok("A\n\nB\n\nC")
  {
    var hits := [Hit(0.90, 0), Hit(0.02, 1), Hit(0.01, 2)];
    assert TextsOf(hits, SampleArticles()) == ["A", "B", "C"];
    assert Join(ParagraphBreak, ["A", "B", "C"]) == "A\n\nB\n\nC" by {
      assert ["A", "B", "C"][1..] == ["B", "C"];
      assert ["B", "C"][1..] == ["C"];
    }
  }

  /** The empty query is a legal query, so its answer depends on the search. */
  lemma EmptyQueryIsSearched()
    ensures GenerateResponse("", [Hit(0.35, 2)], SampleArticles()) == Ok("C")
    ensures GenerateResponse("", [], SampleArticles()) == Err(NoSearchResults)
    ensures GenerateResponse("", [Hit(0.50, 1), Hit(0.40, 7)], SampleArticles()) == Err(MissingArticle(7))
  {
    EmptyQueryIsLegal();
    var hits := [Hit(0.50, 1), Hit(0.40, 7)];
    assert FirstMissing(hits, SampleArticles(), 1);
    var r := GenerateResponse("", hits, SampleArticles());
    var k :| FirstMissing(hits, SampleArticles(), k) && r.error == MissingArticle(hits[k].index);
    FirstMissingUnique(hits, SampleArticles(), k, 1);
  }
}
