/**
 * `handle_userinput`: ask the conversation chain, trim the returned chat
 * history from the oldest end until its word count fits the budget, and answer
 * with the messages at odd positions (the assistant's replies).
 *
 * The chain itself is a parameter: a function from the question to either the
 * chat history it returns (each message given by its content) or the text of
 * the exception it raised.
 */
module Conversation {
  import opened Seqs
  import opened Words

  const NotInitializedReply: string := "Error: Conversation chain is not initialized."

  /** The default of `max_history_tokens`. */
  const DefaultMaxHistoryTokens: nat := 2048

  /** The text of the IndexError that `list.pop(0)` raises on an empty list. */
  const PopFromEmptyList: string := "pop from empty list"

  datatype ChainResponse =
    | Answered(chatHistory: seq<string>)
    | Raised(error: string)

  /** `sum(len(m.content.split()) for m in history)`. */
  function HistoryTokens(history: seq<string>): nat
    decreases |history|
  {
    if |history| == 0 then 0 else WordCount(history[0]) + HistoryTokens(history[1..])
  }

  /** Dropping messages from the front never raises the token count. */
  lemma {:induction false} SuffixTokensShrink(history: seq<string>, i: nat, j: nat)
    requires i <= j <= |history|
    ensures HistoryTokens(history[j..]) <= HistoryTokens(history[i..])
    decreases j - i
  {
    if i < j {
      SuffixTokensShrink(history, i + 1, j);
      assert history[i..][1..] == history[i + 1..];
    }
  }

  /** How many of the oldest messages the trimming loop removes under a
      non-negative budget: the fewest whose removal brings the rest within
      budget. */
  function EvictionCount(history: seq<string>, maxHistoryTokens: nat): (k: nat)
    ensures k <= |history|
    ensures HistoryTokens(history[k..]) <= maxHistoryTokens
    ensures forall j :: 0 <= j < k ==> HistoryTokens(history[j..]) > maxHistoryTokens
    decreases |history|
  {
    if HistoryTokens(history) <= maxHistoryTokens then 0
    else
      var k := 1 + EvictionCount(history[1..], maxHistoryTokens);
      assert forall j :: 1 <= j <= |history| ==> history[1..][j - 1..] == history[j..];
      k
  }

  /** The retained history is the longest suffix within budget: a suffix fits
      exactly when it starts at or after the first retained message. */
  lemma SuffixFitsIff(history: seq<string>, maxHistoryTokens: nat, j: nat)
    requires j <= |history|
    ensures HistoryTokens(history[j..]) <= maxHistoryTokens <==> EvictionCount(history, maxHistoryTokens) <= j
  {
    var k := EvictionCount(history, maxHistoryTokens);
    if k <= j {
      SuffixTokensShrink(history, k, j);
    }
  }

  /** The trimming loop: while the total exceeds the budget, pop the oldest
      message and recount. Popping from an empty history raises IndexError,
      which happens exactly when the budget is negative. */
  method TrimHistory(chatHistory: seq<string>, maxHistoryTokens: int) returns (r: Result<seq<string>>)
    ensures maxHistoryTokens < 0 <==> r == Err(PopFromEmptyList)
    ensures maxHistoryTokens >= 0 ==>
              r == Ok(chatHistory[EvictionCount(chatHistory, maxHistoryTokens)..])
  {
    var history := chatHistory;
    var currentTokens := HistoryTokens(history);
    ghost var dropped: nat := 0;
    while currentTokens > maxHistoryTokens
      invariant dropped <= |chatHistory| && history == chatHistory[dropped..]
      invariant currentTokens == HistoryTokens(history)
      invariant maxHistoryTokens >= 0 ==> dropped <= EvictionCount(chatHistory, maxHistoryTokens)
      decreases |history|
    {
      if |history| == 0 {
        return Err(PopFromEmptyList);
      }
      if maxHistoryTokens >= 0 {
        assert dropped != EvictionCount(chatHistory, maxHistoryTokens);
      }
      history := history[1..];
      dropped := dropped + 1;
      assert history == chatHistory[dropped..];
      currentTokens := HistoryTokens(history);
    }
    return Ok(history);
  }

  /** The messages at odd positions 1, 3, 5, ...: the assistant's replies. */
  function OddPositions(history: seq<string>): (replies: seq<string>)
    ensures |replies| == |history| / 2
    ensures forall k :: 0 <= k < |replies| ==> replies[k] == history[2 * k + 1]
    decreases |history|
  {
    if |history| < 2 then [] else [history[1]] + OddPositions(history[2..])
  }

  /** The whole of `handle_userinput`. */
  method HandleUserInput(userQuestion: string, conversation: Option<string -> ChainResponse>, maxHistoryTokens: int)
    returns (replies: seq<string>)
    ensures conversation.None? ==> replies == [NotInitializedReply]
    ensures conversation.Some? && conversation.value(userQuestion).Raised? ==>
              replies == ["Error: " + conversation.value(userQuestion).error]
    ensures conversation.Some? && conversation.value(userQuestion).Answered? && maxHistoryTokens < 0 ==>
              replies == ["Error: " + PopFromEmptyList]
    ensures conversation.Some? && conversation.value(userQuestion).Answered? && maxHistoryTokens >= 0 ==>
              var history := conversation.value(userQuestion).chatHistory;
              replies == OddPositions(history[EvictionCount(history, maxHistoryTokens)..])
  {
    if conversation.None? {
      return [NotInitializedReply];
    }
    var response := conversation.value(userQuestion);
    match response
    case Raised(e) =>
      replies := ["Error: " + e];
    case Answered(chatHistory) =>
      var trimmed := TrimHistory(chatHistory, maxHistoryTokens);
      match trimmed
      case Err(e) =>
        replies := ["Error: " + e];
      case Ok(history) =>
        replies := OddPositions(history);
  }

  /** A history of n messages of at most w words each costs at most n * w. */
  lemma {:induction false} HistoryTokensBound(history: seq<string>, w: nat)
    requires forall k :: 0 <= k < |history| ==> WordCount(history[k]) <= w
    ensures HistoryTokens(history) <= |history| * w
    decreases |history|
  {
    if |history| > 0 {
      HistoryTokensBound(history[1..], w);
    }
  }

  /** Under the default budget of 2048 words, a history of n messages of at
      most w words each with n * w <= 2048 is kept whole, and the reply list is
      every answer in it. */
  lemma DefaultBudgetKeepsHistory(history: seq<string>, w: nat)
    requires forall k :: 0 <= k < |history| ==> WordCount(history[k]) <= w
    requires |history| * w <= DefaultMaxHistoryTokens
    ensures EvictionCount(history, DefaultMaxHistoryTokens) == 0
    ensures OddPositions(history[EvictionCount(history, DefaultMaxHistoryTokens)..]) == OddPositions(history)
  {
    HistoryTokensBound(history, w);
  }

  /** A first exchange of 1 + 3 words under a budget of 5 is kept whole, and
      the answer is the only reply. */
  lemma FirstExchangeKept(history: seq<string>)
    requires |history| == 2
    requires WordCount(history[0]) == 1 && WordCount(history[1]) == 3
    ensures EvictionCount(history, 5) == 0
    ensures OddPositions(history[EvictionCount(history, 5)..]) == [history[1]]
  {
  }

  /** A second exchange bringing the total to 7 words under a budget of 5
      evicts the oldest two messages; the reply list then holds only the
      newest answer. */
  lemma SecondExchangeEvictsFirst(history: seq<string>)
    requires |history| == 4
    requires WordCount(history[0]) == 1 && WordCount(history[1]) == 3
    requires WordCount(history[2]) == 1 && WordCount(history[3]) == 2
    ensures HistoryTokens(history) == 7
    ensures EvictionCount(history, 5) == 2
    ensures OddPositions(history[EvictionCount(history, 5)..]) == [history[3]]
  {
    assert history[3..][1..] == history[4..] == [];
    assert history[2..][1..] == history[3..];
    assert history[1..][1..] == history[2..];
    assert HistoryTokens(history[3..]) == 2;
    assert HistoryTokens(history[2..]) == 3;
    assert HistoryTokens(history[1..]) == 6;
  }
}
