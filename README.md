# codebase_rag core, modelled in Dafny

This project models the logic in the two scripts of the `codebase_rag`
repository. It leaves out their GUI, network and file plumbing.

From `codebase_rag.py` it models four pieces:

- **Fixed-size chunker** (`chunk_text`). A file's text is cut into
  consecutive 512-character pieces with a Python list comprehension over
  `range(0, len(text), max_length)`.
  - The model is `Chunking.Chunks`.
  - `Chunking.ChunksComprehension` is the comprehension written out with
    Python's clamping slices. It is proved equal to `Chunks`.
  - `Chunking.ChunkText` covers every integer `max_length`. A step of 0 is
    the error `range` raises. A negative step gives an empty range, so the
    result is `[]`.
- **Recent-repository list** (`add_repo_to_recent`). The stored list becomes
  the field `saved` of the class `RecentRepos.RecentRepoStore`.
  - `AddRepoToRecent` does the source's three steps: remove the first
    occurrence of the URL, insert the URL at the front, keep the first ten.
  - The pure function `RecentRepos.AddToRecent` specifies it. The lemmas beside
    it prove what the update promises.
- **Repository name** (line 64 of `clone_or_update_repo`). This is
  `rstrip("/")` followed by the last `/`-separated segment.
- **Build loop** (`process_repo`). The nested loop walks the files and their
  chunks, and appends a record for each chunk whose embedding is truthy.
  - The file list is an input sequence. `read_file` and `embed_chunk` are
    function parameters.
  - The method `BuildIndex.ProcessRepo` is proved equal to the recursive
    specification `BuildIndex.RepoRecords`. Order, filtering and soundness
    are proved about that specification.

From `chat-with-local-llm.py` it models two pieces:

- **`<think>` segmenter** (`update_conversation`).
  - `ThinkTags.SplitThink` models `re.split(r'(<think>|</think>)', reply)`.
    Its result alternates text and marker pieces, starting and ending with
    text. Written back in order, markers included, the pieces give the reply
    again, and no text piece contains a marker.
  - The method `ThinkTags.UpdateConversation` runs the source's flag loop.
    It appends `(text, tag)` entries to a log instead of inserting into a
    widget.
  - The recursive function `ThinkTags.Rendered` specifies the loop. Lemmas
    about it state which tag each piece gets.
- **Elapsed-time formatter** (the same rule in `update_waiting_label` and
  `send_request`). It works on whole seconds `s = int(elapsed)`.
  - `Elapsed.BreakDown` chooses between the seconds form and the
    minutes-and-seconds form.
  - `Elapsed.WaitingLabel` and `Elapsed.ReasoningNote` build the two labels.
    Both are proved injective, so different times always give different
    texts.
- **Reply extraction** (line 49 of `send_request`). `ChatReply.BotReply`
  models `data.get("message", {}).get("content", "<No response received>")`
  and the error text for a failed request.

An edge case of the chunker:

- `chunk_text("")` is `[]`, not `[""]`, because `range(0, 0, m)` is empty.
  `Chunking.ChunksShape` proves it.

## Model

| member | source | states |
|---|---|---|
| Chunking.Slice | codebase_rag.py:99 | Python's `text[lo:hi]` for non-negative bounds: both bounds clamped to the length, empty when they cross |
| Chunking.RangeLength | codebase_rag.py:99 | `len(range(0, n, m))` for a positive step m |
| Chunking.Chunks | codebase_rag.py:97-99 | `chunk_text(text, m)` for m > 0: no chunks for empty text, the whole text when it fits in m, otherwise the first m characters followed by the chunks of the rest |
| Chunking.ChunksComprehension | codebase_rag.py:99 | the comprehension `[text[i:i+m] for i in range(0, len(text), m)]`: element k is the clamped slice from k*m to k*m+m |
| Chunking.ChunkText | codebase_rag.py:97-99 | fails exactly when `max_length` is 0 (the error `range` raises); a negative length gives `[]`; for a positive length, the chunks concatenate back to the text |
| Chunking.ChunksConcat | codebase_rag.py:97-99 | concatenating the chunks in order gives back the text exactly |
| Chunking.ChunksShape | codebase_rag.py:99 | no chunks exactly when the text is empty (never `[""]`); a non-empty text of length at most m is the single chunk `[text]`; every chunk but the last has length m; the last has length in 1..m |
| Chunking.ChunkAt | codebase_rag.py:99 | the number of chunks is the length of `range(0, len, m)`; chunk k starts at k*m inside the text and equals `text[k*m .. min(k*m+m, len)]` |
| Chunking.RangeLengthIsCeiling | codebase_rag.py:99 | the length of `range(0, n, m)` is ceil(n/m): enough steps to cover n, no step beyond it |
| Chunking.ChunksMatchComprehension | codebase_rag.py:99 | the recursive chunker equals the list comprehension over `range` with clamped slices |
| RecentRepos.FirstIndex | codebase_rag.py:50 | the index `list.remove` acts on: holds the URL, with no earlier occurrence |
| RecentRepos.RemoveFirst | codebase_rag.py:49-50 | removes only the first occurrence of the URL; a list without it is unchanged |
| RecentRepos.AddToRecent | codebase_rag.py:49-53 | the list `add_repo_to_recent` returns and saves: the first occurrence of the URL removed if present, the URL put in front, the first ten kept |
| RecentRepos.AddToRecentFront | codebase_rag.py:49-53 | the URL comes first; the length is the grown length capped at 10, so it is between 1 and 10 |
| RecentRepos.AddToRecentOrder | codebase_rag.py:49-53 | after the URL come the old entries in their old order, minus the first occurrence of the URL, cut to fit |
| RecentRepos.AddToRecentEntries | codebase_rag.py:49-53 | every entry is the URL or was in the stored list |
| RecentRepos.RemoveFirstNoDuplicates | codebase_rag.py:49-50 | on a duplicate-free list, removing the URL leaves it duplicate-free and without the URL |
| RecentRepos.AddToRecentNoDuplicates | codebase_rag.py:49-53 | a duplicate-free stored list stays duplicate-free, and the URL occurs exactly once |
| RecentRepos.AddToRecentIdempotent | codebase_rag.py:47-55 | adding the same URL twice in a row gives the same list as adding it once |
| RecentRepos.RecentRepoStore.AddRepoToRecent | codebase_rag.py:47-55 | returns and stores the updated list: remove the first occurrence, insert at the front, keep the first ten |
| RepoName.StripTrailingSlashes | codebase_rag.py:64 | `rstrip("/")`: the longest prefix not ending in `/`, with only slashes cut off |
| RepoName.LastSegment | codebase_rag.py:64 | `split("/")[-1]`: the slash-free suffix that starts after the last `/` or at the start |
| RepoName.RepoName | codebase_rag.py:64 | `repo_url.rstrip("/").split("/")[-1]`: the last segment once trailing slashes are gone |
| RepoName.RepoNameSpec | codebase_rag.py:64 | the name has no `/`; it occurs in the URL right after a `/` or at the start, followed only by slashes; it is empty exactly when the URL is empty or all slashes |
| RepoName.RepoNameIdempotent | codebase_rag.py:64 | the name of a name is the name itself |
| BuildIndex.ProcessRepo | codebase_rag.py:112-135 | the nested loop returns exactly the records of the specification: files in list order, each file's kept chunks in order |
| BuildIndex.Truthy | codebase_rag.py:128 | `if embedding:`: true exactly for a present, non-empty embedding |
| BuildIndex.FileRecords | codebase_rag.py:126-134 | the inner loop's records for one file: for each chunk in order, a record of file, index, chunk and embedding when the embedding is truthy |
| BuildIndex.RecordsOf | codebase_rag.py:122-134 | one file's records: none when its content is empty, otherwise the inner loop's records over `chunk_text(content)` |
| BuildIndex.RepoRecords | codebase_rag.py:121-135 | the whole pass's records: each file's records, files in list order |
| BuildIndex.TotalChunks | codebase_rag.py:121-126 | the number of chunks `chunk_text` makes of all files together |
| BuildIndex.FileRecordsSnoc | codebase_rag.py:126-134 | one more chunk adds one record exactly when its embedding is truthy, and that record holds the file, the index, the chunk and the embedding |
| BuildIndex.FileRecordsSound | codebase_rag.py:126-134 | each record of a file holds the chunk at its `chunk_index` and that chunk's non-empty embedding; there are no more records than chunks |
| BuildIndex.FileRecordsAscending | codebase_rag.py:126 | a file's records come in strictly ascending `chunk_index` |
| BuildIndex.FileRecordsComplete | codebase_rag.py:127-134 | every chunk with a truthy embedding has a record |
| BuildIndex.AllTruthyKeepsAll | codebase_rag.py:128 | when every embedding is truthy, a file gets one record per chunk |
| BuildIndex.RepoRecordsAppend | codebase_rag.py:121 | the records of two file lists in a row are the first list's records followed by the second's |
| BuildIndex.EmptyFileSkipped | codebase_rag.py:122-124 | a file with empty content contributes no records |
| BuildIndex.RepoRecordsSound | codebase_rag.py:121-135 | every record names a listed file, holds `chunk_text(content)[chunk_index]`, and carries that chunk's non-empty embedding |
| BuildIndex.RepoRecordsCount | codebase_rag.py:121-135 | there are at most as many records as chunks, and exactly as many when every embedding is truthy |
| ThinkTags.PartString | chat-with-local-llm.py:76 | the characters of the reply a piece stands for: its text, or the marker `re.split` captured |
| ThinkTags.Unsplit | chat-with-local-llm.py:76 | the pieces written back one after another, markers included |
| ThinkTags.RemoveMarkers | chat-with-local-llm.py:76-85 | the reply with every `<think>` and `</think>` taken out, scanning left to right |
| ThinkTags.LastMarkerOpens | chat-with-local-llm.py:77-82 | the flag after a prefix of the pieces: false at the start, set by `<think>`, cleared by `</think>`, untouched by text |
| ThinkTags.Rendered | chat-with-local-llm.py:77-85 | the entries the loop logs: each text piece in order, tagged think when the flag before it is set, regular otherwise; markers log nothing |
| ThinkTags.Texts | chat-with-local-llm.py:78-85 | the text pieces in order, markers dropped |
| ThinkTags.SplitThink | chat-with-local-llm.py:76 | the split alternates text and marker pieces, starting and ending with text |
| ThinkTags.UpdateConversation | chat-with-local-llm.py:65-88 | the log is the note line, `"Bot: "`, the pieces rendered by the flag machine, then a blank line |
| ThinkTags.RenderedAlternating | chat-with-local-llm.py:77-85 | one entry per text piece: entry j is piece 2j, tagged think exactly when the marker just before it is `<think>`; the first piece is regular |
| ThinkTags.RenderedTexts | chat-with-local-llm.py:78-85 | the logged texts are exactly the text pieces: markers are never logged |
| ThinkTags.SplitTextsJoin | chat-with-local-llm.py:76-85 | the text pieces concatenate to the reply with every marker removed |
| ThinkTags.SplitRoundTrip | chat-with-local-llm.py:76 | writing the pieces back in order, markers included, gives the reply exactly |
| ThinkTags.SplitHead | chat-with-local-llm.py:76 | the first piece is a prefix of the reply in which no marker begins |
| ThinkTags.SplitTextsHaveNoMarker | chat-with-local-llm.py:76 | no text piece contains a marker |
| ThinkTags.NoMarkerSingleRegular | chat-with-local-llm.py:76-85 | a reply without markers is one piece, logged as one regular entry |
| ThinkTags.RepeatedOpenExample | chat-with-local-llm.py:78-84 | `<think><think>x` tags x as think: markers set the flag, they do not toggle it |
| ThinkTags.RepeatedCloseExample | chat-with-local-llm.py:78-84 | `</think></think>` leaves the flag off |
| Elapsed.BreakDown | chat-with-local-llm.py:20-24 | seconds form exactly when s < 60; otherwise minutes at least 1, seconds below 60, and minutes*60 + seconds == s |
| Elapsed.Decimal | chat-with-local-llm.py:21 | the f-string rendering of a whole number: at least one decimal digit, no leading zero |
| Elapsed.ElapsedText | chat-with-local-llm.py:20-25 | `"{s}s"` for the seconds form, `"{m}m {sec}s"` for the minutes-and-seconds form |
| Elapsed.WaitingLabel | chat-with-local-llm.py:20-25 | `"Waiting: "` followed by the elapsed text of s |
| Elapsed.ReasoningNote | chat-with-local-llm.py:55-60 | `"Reasoned for "`, the elapsed text of s, then `"."` |
| Elapsed.DecimalRoundTrip | chat-with-local-llm.py:21 | the decimal text of a whole number reads back as that number |
| Elapsed.ElapsedTextInjective | chat-with-local-llm.py:20-25 | different seconds never render the same elapsed text |
| Elapsed.WaitingLabelInjective | chat-with-local-llm.py:20-25 | different seconds never give the same waiting label |
| Elapsed.ReasoningNoteInjective | chat-with-local-llm.py:55-60 | different seconds never give the same reasoning note |
| ChatReply.Get | chat-with-local-llm.py:49 | `dict.get(key, default)`: the value under the key, or the default when the key is absent |
| ChatReply.BotReply | chat-with-local-llm.py:49-51 | a failed request gives `"Error: "` and the error; a missing message or content gives `"<No response received>"`; otherwise the content |

## Left out

- The Tkinter GUI is not modelled: widget setup, the combobox, fonts,
  scrolling, and the text inserts other than those of `update_conversation`.
- The git subprocess calls in `clone_or_update_repo` and the `os.path.join`
  of the local path are not modelled; only the name expression is.
- The HTTP calls to the embedding and chat services are not modelled.
  `embed_chunk` is a function parameter, so the model treats the service as
  deterministic in the chunk text.
- File and JSON I/O are not modelled: `load_recent_repos`,
  `save_recent_repos`, `read_file` and writing the output file.
  - The stored list is the field `saved`.
  - `read_file` is a function parameter, and an unreadable file is one
    whose text is `""`.
  - A failed or non-list load, which gives `[]`, is not distinguished from
    an empty store.
  - Stored entries are assumed to be strings.
- The ordering of `glob` in `list_code_files` is library-defined. The file
  list is a given sequence.
- Threading, `root.after` rescheduling, and the globals `waiting` and
  `start_time` are concurrency and scheduling and are not modelled. So is the
  empty waiting label shown when the timer has stopped.
- Float time from `time.time()` is not modelled. The formatter works on
  `int(elapsed)`, and for non-negative elapsed time `elapsed < 60` holds
  exactly when `int(elapsed) < 60`.
- The regex engine is not modelled. `ThinkTags.SplitThink` is a direct
  left-to-right scan for the two markers. Neither marker is a prefix of the
  other, so the alternation in the pattern is never ambiguous.
- ChatReply.BotReply: the JSON values are strings; a non-string `content`
  and a `message` that is not an object are not modelled.
- Fingerprinting, cosine-similarity ranking, prompt assembly and caching
  have no code in these scripts, so they are not modelled.
