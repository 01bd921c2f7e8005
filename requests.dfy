/** Request kinds, the texts shown for them, the user's yes/no answer, and the
    random choice of the next request kind. */
module Requests {

  // Request kinds, numbered as in the source.
  const Feed := 0
  const Walk := 1
  const Sleep := 2
  const Heal := 3
  const Play := 4

  /** Number of request kinds: `random.Next(0, 5)` draws from 0..KindCount-1. */
  const KindCount := 5

  /** Text of the forced Heal request of a sick pet (not the Heal entry of RequestMessage). */
  const SickPrompt := "I feel sick! Treat me!"

  /** Text shown for an unknown request kind. */
  const FallbackRequest := "Pay attention to me!"

  /** Acknowledgment for Heal and unknown kinds. */
  const FallbackResponse := "Thank you! "

  predicate IsKind(k: int) {
    0 <= k < KindCount
  }

  /** The prompt text for a request kind; every integer gets a text. */
  function RequestMessage(kind: int): (m: string)
    ensures m == FallbackRequest <==> !IsKind(kind)
    ensures m != SickPrompt
  {
    if kind == Feed then "I'm hungry! Feed me!"
    else if kind == Walk then "I want to go for a walk!"
    else if kind == Sleep then "I'm tired! Put me to sleep!"
    else if kind == Play then "I'm bored! Play with me!"
    else if kind == Heal then "I feel sick! Heal me!"
    else FallbackRequest
  }

  /** Different kinds are announced with different texts. */
  lemma RequestMessageInjective(a: int, b: int)
    requires IsKind(a) && IsKind(b) && a != b
    ensures RequestMessage(a) != RequestMessage(b)
  {
  }

  /** The acknowledgment written when a healthy pet's request is satisfied. */
  function ResponseMessage(kind: int): (m: string)
    ensures m == FallbackResponse <==> kind !in {Feed, Walk, Sleep, Play}
  {
    if kind == Feed then "Very tasty! Thank you! "
    else if kind == Walk then "How wonderful! Thank you! "
    else if kind == Sleep then "Thank you for putting me to bed"
    else if kind == Play then "Fun! Thank you! "
    else FallbackResponse
  }

  /** An answer satisfies the request exactly when it is one of the two
      affirmative tokens; everything else, the empty line included, is an ignore. */
  function IsSatisfied(answer: string): bool {
    answer == "y" || answer == "так"
  }

  /** The tokens are compared exactly: no case folding, no trimming. */
  lemma AnswersAreExact()
    ensures IsSatisfied("y") && IsSatisfied("так")
    ensures !IsSatisfied("Y") && !IsSatisfied("y ") && !IsSatisfied("yes")
    ensures !IsSatisfied("n") && !IsSatisfied("")
  {
  }

  /** A drawn kind ends the resampling loop unless it repeats the previous request. */
  predicate Acceptable(hasPrevious: bool, previous: int, k: int) {
    !(hasPrevious && k == previous)
  }

  /** A finite prefix of the random stream: every draw lies in 0..4, and the
      stream contains a draw that the resampling loop accepts. */
  predicate CanDraw(draws: seq<int>, hasPrevious: bool, previous: int) {
    (forall i :: 0 <= i < |draws| ==> IsKind(draws[i])) &&
    exists i :: 0 <= i < |draws| && Acceptable(hasPrevious, previous, draws[i])
  }

  /** Index of the draw at which the resampling loop stops: the first acceptable one. */
  function FirstAcceptable(draws: seq<int>, hasPrevious: bool, previous: int): (n: nat)
    requires exists i :: 0 <= i < |draws| && Acceptable(hasPrevious, previous, draws[i])
    ensures n < |draws| && Acceptable(hasPrevious, previous, draws[n])
    ensures forall j :: 0 <= j < n ==> !Acceptable(hasPrevious, previous, draws[j])
    decreases |draws|
  {
    if Acceptable(hasPrevious, previous, draws[0]) then 0
    else
      var i :| 0 <= i < |draws| && Acceptable(hasPrevious, previous, draws[i]);
      assert draws[1..][i - 1] == draws[i];
      1 + FirstAcceptable(draws[1..], hasPrevious, previous)
  }

  /** The do-while loop of the request timer: draw until the kind differs from
      the previous request (when there is one). */
  method DrawRequest(draws: seq<int>, hasPrevious: bool, previous: int) returns (k: int)
    requires CanDraw(draws, hasPrevious, previous)
    ensures k == draws[FirstAcceptable(draws, hasPrevious, previous)]
    ensures IsKind(k) && Acceptable(hasPrevious, previous, k)
  {
    ghost var stop := FirstAcceptable(draws, hasPrevious, previous);
    var i := 0;
    k := draws[i];
    while hasPrevious && k == previous
      invariant 0 <= i <= stop && k == draws[i]
      decreases stop - i
    {
      i := i + 1;
      k := draws[i];
    }
  }
}
