/**
 * The fixed test-sentence corpus and how a request index picks its sentence
 * (benchmark.py, TEST_SENTENCES and the `i % len(TEST_SENTENCES)` lookups of
 * the single-shot and fixed-concurrency drivers).
 */
module Corpus {
  const TestSentences: seq<string> := [
    "I cant beleive how much this extention has helped me with my writting.",
    "Its been a lifesaver for my dayly work and comunication.",
    "I use to make alot of mistakes but now im more confidant.",
    "Thier going to be suprised when they see the improvment.",
    "This sentance has a few erors that need to be fixed.",
    "The wether is beautifull today and I want to go outsde.",
    "Please recieve this messge and respond as soon as posible.",
    "I definitly recomend this tool to anyone who writes alot.",
    "Your absolutly right about that, I totaly agree with you.",
    "Lets schedul a meeting for tommorow afternoon if your availible."
  ]

  /** The sentence sent by request number i. */
  function SentenceFor(i: nat): (s: string)
    ensures s in TestSentences
  {
    TestSentences[i % |TestSentences|]
  }

  /** No sentence occurs twice in the corpus: their third and fourth characters already differ. */
  lemma SentencesDistinct()
    ensures forall a, b :: 0 <= a < b < |TestSentences| ==> TestSentences[a] != TestSentences[b]
  {
    forall a, b | 0 <= a < b < |TestSentences|
      ensures TestSentences[a] != TestSentences[b]
    {
      assert a == 0 || a == 1 || a == 2 || a == 3 || a == 4 || a == 5 || a == 6 || a == 7 || a == 8;
      assert b == 1 || b == 2 || b == 3 || b == 4 || b == 5 || b == 6 || b == 7 || b == 8 || b == 9;
    }
  }

  /** Two requests get the same sentence exactly when their indices agree modulo the corpus size. */
  lemma SameSentenceIff(i: nat, j: nat)
    ensures SentenceFor(i) == SentenceFor(j) <==> i % |TestSentences| == j % |TestSentences|
  {
    SentencesDistinct();
    var a, b := i % |TestSentences|, j % |TestSentences|;
    if a < b {
      assert TestSentences[a] != TestSentences[b];
    } else if b < a {
      assert TestSentences[b] != TestSentences[a];
    }
  }

  /**
   * Request i is sent sentence k exactly when i is k modulo the corpus size;
   * in particular requests 0 .. |TestSentences|-1 go through the whole corpus in order.
   */
  lemma SentenceForIndex(i: nat, k: nat)
    requires k < |TestSentences|
    ensures SentenceFor(i) == TestSentences[k] <==> i % |TestSentences| == k
  {
    SentencesDistinct();
    var a := i % |TestSentences|;
    if a < k {
      assert TestSentences[a] != TestSentences[k];
    } else if k < a {
      assert TestSentences[k] != TestSentences[a];
    }
  }

  /**
   * The sentences handed to requests 0 .. total-1, as the task-creation loop
   * of the fixed-concurrency driver (and the loop of the single-shot driver)
   * assigns them.
   */
  method PlanRequests(total: nat) returns (sentences: seq<string>)
    ensures |sentences| == total
    ensures forall i :: 0 <= i < total ==> sentences[i] == SentenceFor(i)
    ensures forall i :: 0 <= i < total ==> sentences[i] in TestSentences
  {
    sentences := [];
    var i := 0;
    while i < total
      invariant 0 <= i <= total
      invariant |sentences| == i
      invariant forall k :: 0 <= k < i ==> sentences[k] == SentenceFor(k)
    {
      sentences := sentences + [TestSentences[i % |TestSentences|]];
      i := i + 1;
    }
    forall k | 0 <= k < total
      ensures sentences[k] in TestSentences
    {
      assert sentences[k] == SentenceFor(k);
    }
  }
}
