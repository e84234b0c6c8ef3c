# Utilities of a document chat backend, modelled in Dafny

This project models the self-contained logic of `backend/common/utils.py`.
That file backs a document question-and-answer chat application. Most of it
wraps LangChain, OpenAI, FAISS, joblib, the YouTube transcript API and an
HTML scraper. What is left, and modelled here, is this:

- **`text_to_chunk`** (module `Chunking`). The text is cut into 50-character
  pieces, `text[i:i+50]` for `i = 0, 50, ...`. The pieces are joined with the
  two-character string `"/n"`, a slash followed by the letter `n`. This is not
  a newline, and the model keeps it as written.
- **The batching loop of `create_vectorstore`** (module `VectorStore`). The
  chunks are handed to the store ten at a time, as `text_chunks[i:i+10]`.
  Embedding a batch and merging it into the running store is one abstract
  step, the function parameter `mergeBatch`. The loaded store is a parameter
  too.
- **`handle_userinput`** (module `Conversation`). The conversation chain is a
  parameter. It is a function from the question to either the chat history it
  returns (each message given by its content) or the text of the exception it
  raised. A missing chain gives the fixed reply
  `["Error: Conversation chain is not initialized."]`. Otherwise the trimming
  loop pops the oldest message while the history's word count exceeds
  `max_history_tokens`. The reply is every message at an odd position of what
  is left. A word count is `len(content.split())`: the number of maximal runs
  of non-whitespace, with whitespace as Python's `str.isspace` defines it
  (module `Words`). With a negative budget the loop empties the history and
  then pops from the empty list. The `IndexError` ("pop from empty list") is
  caught and becomes the reply `["Error: pop from empty list"]`.
- **Video-id extraction in `get_video_transcript`** (module `Transcript`).
  If the URL contains `"v="`, the id is `url.split("v=")[1]`: the text
  between the first `"v="` and the next one, or the end of the URL. Any later
  query parameters (`&t=5`) stay part of the id. Otherwise the id is the
  group of the leftmost match of `/([^/?]+)\?`. With no match, `.group`
  raises and the function returns `None`. The transcript fetch is a function
  parameter.
- **`extract_text`** (module `Transcript`). The items' `text` fields are
  joined with `" \n"`.

Module `Seqs` holds the Python operations these share: `str.join`, fixed-width
slicing, `in` on strings, `str.split(sep)`, and the length of a leading run of
characters.

Each operation has a partner: an inverse, or an independent reference
definition, tied to it by a lemma.

- `Unchunk` undoes `TextToChunk`.
- `Join` undoes `SplitOn`, and `SplitOn` undoes `Join`.
- Joining words with single spaces is undone by `SplitWhitespace`.
- `WordStarts` counts words independently of `SplitWhitespace`.
- `EvictionCount` is the reference for the trimming loop. It is the fewest
  messages whose removal brings the history within budget.
- The batches are checked against a store that only records what it is given.

## Model

| member | source | states |
|---|---|---|
| `Seqs.SlicesPartition` | backend/common/utils.py:16 | The slices `s[i:i+w]` cover the input exactly and in order. Each slice has 1 to `w` elements, and all but the last have exactly `w`. |
| `Seqs.SlicesCount` | backend/common/utils.py:16 | The number of slices `n` satisfies `(n-1)*w < len(s) <= n*w`, so `n = ceil(len(s)/w)`. Empty input gives no slices. |
| `Seqs.SlicesAt` | backend/common/utils.py:53 | Element `t` of slice `k` is element `k*w + t` of the input. |
| `Seqs.JoinLength` | backend/common/utils.py:136 | `sep.join` of `n > 0` parts has the parts' total length plus `n - 1` separators. |
| `Seqs.IndexOf` | backend/common/utils.py:122 | Python's `str.find`: the result is the leftmost occurrence of the pattern, or `None` exactly when the pattern occurs nowhere. `url.split("v=")[1]` starts right after this occurrence; the test `"v=" in url` is `Seqs.Contains`. |
| `Seqs.SplitOn` | backend/common/utils.py:122 | `s.split(sep)` always yields at least one piece. |
| `Seqs.SplitOnFirst` | backend/common/utils.py:122 | The first piece of `s.split(sep)` is everything before the first separator, or all of `s` if there is none. |
| `Seqs.JoinSplitOn` | backend/common/utils.py:122 | `sep.join(s.split(sep)) == s`. |
| `Seqs.SplitOnJoin` | backend/common/utils.py:136 | `sep.join(parts).split(sep) == parts`. This needs at least one part, and no part may contain the separator, not even when followed by the separator's first characters. |
| `Seqs.RunLength` | backend/common/utils.py:124 | The result is the length of the longest prefix whose elements all satisfy the predicate. This is what the greedy class `[^/?]+` takes. |
| `Words.SplitWhitespaceWords` | backend/common/utils.py:108 | Every word of `s.split()` is non-empty and free of whitespace. Put together, the words are exactly the non-whitespace characters of `s`. |
| `Words.WordCountIsWordStarts` | backend/common/utils.py:108 | `len(s.split())` equals the number of positions that start a word: a non-whitespace character at the start or after whitespace. |
| `Words.SplitWhitespaceJoin` | backend/common/utils.py:108 | Non-empty, whitespace-free words joined by single spaces split back into the same words. Their count is the number of words. |
| `Chunking.ChunkPiecesPartition` | backend/common/utils.py:16 | `text_to_chunk` makes `ceil(len/50)` pieces. Each has 1 to 50 characters, all but the last have exactly 50, and together they are the text in order. |
| `Chunking.ChunkPieceAt` | backend/common/utils.py:16 | Character `t` of piece `k` is character `50*k + t` of the text. |
| `Chunking.TextToChunkLength` | backend/common/utils.py:15-17 | Empty text gives `""`. Text of at most 50 characters is returned unchanged. Otherwise the output is the text's length plus two characters for each of the `n - 1` `"/n"` separators. |
| `Chunking.UnchunkTextToChunk` | backend/common/utils.py:15-17 | Dropping the two separator characters after every 50 characters of the output gives back the text. |
| `VectorStore.CreateVectorstore` | backend/common/utils.py:52-57 | The loop merges exactly the batches `text_chunks[i:i+10]`, `i = 0, 10, ...`, in order (a ghost out-parameter records them; only the store is returned). The final store is the loaded store with those batches merged one after another. |
| `VectorStore.BatchesPartitionChunks` | backend/common/utils.py:52-53 | There are `ceil(N/10)` batches. Each holds 1 to 10 chunks and all but the last exactly 10. Together the batches give back the chunk list. |
| `VectorStore.BatchAt` | backend/common/utils.py:52-53 | Chunk `t` of batch `k` is chunk `10*k + t`, so every chunk lands in exactly one batch, at a known place. |
| `VectorStore.MergeAllRecords` | backend/common/utils.py:56-57 | Merging batches into a store that records what it receives appends their concatenation. |
| `VectorStore.CreateVectorstoreRecordsEveryChunk` | backend/common/utils.py:52-57 | With such a recording store, the loop leaves the loaded contents followed by every chunk exactly once, in order. |
| `Conversation.SuffixTokensShrink` | backend/common/utils.py:108-110 | Removing messages from the front never raises the word total. |
| `Conversation.EvictionCount` | backend/common/utils.py:108-111 | For a budget of at least 0: the count is at most the history's length. What is left after removing that many of the oldest messages fits the budget. Removing fewer does not fit. |
| `Conversation.SuffixFitsIff` | backend/common/utils.py:108-111 | A suffix of the history fits the budget exactly when it starts at or after the first retained message. So the retained history is the longest suffix within budget, and a history already within budget loses nothing. |
| `Conversation.TrimHistory` | backend/common/utils.py:108-111 | The trimming loop with `pop(0)`. With a budget of at least 0 it returns the suffix that starts at `EvictionCount`, in the original order. With a negative budget, and only then, it fails with "pop from empty list". |
| `Conversation.OddPositions` | backend/common/utils.py:113 | The replies are the messages at positions `1, 3, 5, ...` in order. There are `floor(len/2)` of them. |
| `Conversation.HandleUserInput` | backend/common/utils.py:99-117 | No chain gives exactly `["Error: Conversation chain is not initialized."]`. A chain exception `e` gives `["Error: " + e]`. A negative budget gives `["Error: pop from empty list"]`. Otherwise the reply is the odd-position messages of the trimmed history. |
| `Conversation.HistoryTokensBound` | backend/common/utils.py:108 | A history of `n` messages with at most `w` words each has a word total of at most `n * w`. |
| `Conversation.DefaultBudgetKeepsHistory` | backend/common/utils.py:99-113 | Under the default `max_history_tokens=2048`, a history of `n` messages of at most `w` words each with `n * w <= 2048` loses no message, and the replies are all its odd-position messages. |
| `Conversation.FirstExchangeKept` | backend/common/utils.py:108-113 | A first exchange of 1 + 3 words under a budget of 5 is kept whole. The answer is the only reply. |
| `Conversation.SecondExchangeEvictsFirst` | backend/common/utils.py:108-113 | Messages of 1, 3, 1 and 2 words (7 in all) under a budget of 5: the two oldest are evicted, and the reply list is the newest answer only. |
| `Transcript.PathMatchGroup` | backend/common/utils.py:124 | A match of `/([^/?]+)\?` at a slash has exactly one possible group: the run of characters other than `/` and `?` after it. |
| `Transcript.SearchPath` | backend/common/utils.py:124 | `re.search` from a position returns the leftmost match, as its position and group length. It returns `None` exactly when no match starts at or after the position. |
| `Transcript.VideoId` | backend/common/utils.py:120-125 | With `"v="` in the URL, the id is the text between the first `"v="` and the next one, or the end. Without it, the result is `None` exactly when `/([^/?]+)\?` matches nowhere. Otherwise the id is the group of the leftmost match. |
| `Transcript.GetVideoTranscript` | backend/common/utils.py:119-131 | A URL without an id gives `None`. Otherwise the result is whatever the fetch returns for the id, where `None` stands for a failed fetch. |
| `Transcript.Texts` | backend/common/utils.py:134 | `[item['text'] for item in transcript]`: same length, with item `k`'s text at position `k`. |
| `Transcript.ExtractTextShape` | backend/common/utils.py:133-138 | No items give `""`. One item gives its text unchanged. For at least one item, `n` items give their texts plus `n - 1` two-character separators, and adding an item appends `" \n"` and its text. (Adding an item to an empty transcript gives just its text.) |
| `Transcript.ExtractTextSplits` | backend/common/utils.py:133-138 | For at least one item: if no item's text contains `" \n"`, splitting the result at `" \n"` gives back every item's text in order. (An empty transcript gives `""`, which splits into `[""]`, not `[]`.) |

## Left out

- `get_pdf_text` (lines 19-30) is file and PDF parsing. `PdfReader` is never imported, so every PDF ends in a caught `NameError` and the function returns `""`.
- `get_text_chunks` (lines 32-40) is a call into LangChain's `CharacterTextSplitter`, whose algorithm is not part of this model. No overlap or reconstruction property is claimed for it.
- `create_vectorstore` apart from its batching loop is left out. That covers the OpenAI embeddings, `FAISS.from_texts` and `merge_from`, the joblib load and dump, and the fallback to `vectorstore.joblib`. These are foreign calls and file I/O; one embed-and-merge step is the parameter `mergeBatch`. `FAISS` is not imported in the file, so at run time the first batch raises `NameError`. The model does not capture that either.
- `load_vectorstore`, `load_vector` and `get_conversation_chain` (lines 63-97) are joblib deserialisation and LangChain object construction.
- HandleUserInput: the chain call (line 105) is a parameter. Messages are given by their content only. Exceptions other than the chain's own and the `IndexError` of popping an empty list are not modelled: a response without `chat_history`, or a message without `content`.
- TrimHistory: the history is a value, so the model does not capture whether popping from the list the chain returned also shortens the chain's own memory object. That depends on LangChain's memory implementation.
- HandleUserInput: `max_history_tokens` is an integer. Other Python values (floats, `None`) are not modelled.
- GetVideoTranscript: `YouTubeTranscriptApi.get_transcript` (line 127) is the parameter `fetch`. Any failure of it is `None`.
- Transcript.TranscriptItem: only the `text` field is modelled. The `start` and `duration` numbers, and the uncaught `KeyError` for an item without `text`, are not.
- `scrape_website` (lines 140-153) is HTTP, HTML parsing and Flask `jsonify`, including its whitespace normalisation.
- All `print` logging and the unused Flask and CORS imports are left out.
