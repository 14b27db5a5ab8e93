# Duplicate finder and multi-hop retrieval pipeline, modelled in Dafny

This project models two small programs and proves properties of the models.

**`find_and_move_duplicates`** (`deduplicate.py`) walks a directory tree. It considers the
`.pdf` and `.epub` files, skipping the script itself, and groups them by the SHA-256
digest of their content in a dictionary of lists. It then sorts every group of two or
more files newest first and moves all files but the first into a destination
directory, each under its own base name.

- `paths.dfy` (module `Paths`) models the POSIX `os.path.join`, `os.path.basename` and
  `str.endswith` that the script relies on.
- `dedup.dfy` (module `Dedup`) holds two layers:
  - a specification in functions: `Considered`, `Digests`, `GroupOf`, `NewestFirst`,
    `RestOf` and `PlanMoves`, with lemmas about them;
  - the script's own loops as methods proved equal to that specification:
    - `CollectByDigest`, the walk loop that fills the `hashes` map;
    - `SortNewestFirst`, an in-place stable sort of a group held in an array;
    - `MoveGroup` and `FindAndMoveDuplicates`, the loop over the groups that emits the moves.

**`multi_hop_rag`** and **`retrieve_docs`** (`RAG_vs_DeepAgents/classic_Multi-Hop_RAG.py`)
work in three steps:

1. Ask a language model to decompose a question into sub-questions, one per line.
2. For every line, retrieve up to five fragments from a vector store and ask the model to
   summarise them.
3. Join the (sub-question, summary) pairs into one text and make a single synthesis
   call, whose reply is the answer.

- `text.dfy` (module `Text`) models `sep.join(parts)` and `str.splitlines()`, and says
  where each part sits in a joined string.
- `multihop.dfy` (module `MultiHop`) models the pipeline:
  - the prompts are the source's f-strings, character for character;
  - the model and the store are the function parameters `complete` and `search`;
  - the external calls are logged, in order, as `Call` values;
  - the method `MultiHopRag` is the source's loop, proved equal to the functions
    `Answer` and `Trace`, about which the lemmas speak.

What the code does, and so what the model does:
- blank lines of the decomposition reply become sub-questions;
- there is no retry and no error path;
- an empty retrieval gives an empty context that is summarised like any other;
- a decomposition with no lines still leads to one synthesis call, over an empty text.

## Model

| member | source | states |
|---|---|---|
| Paths.EndsWith | deduplicate.py:21 | `str.endswith`: the last characters of the string are the suffix |
| Paths.Join | deduplicate.py:23 | POSIX `os.path.join(a, b)`: an absolute `b` replaces `a`; otherwise `b` follows `a`, with a '/' between them unless `a` is empty or already ends with one |
| Paths.Basename | deduplicate.py:41 | POSIX `os.path.basename`: everything after the last '/' |
| Paths.JoinEndsWithName | deduplicate.py:23 | `os.path.join(dir, name)` ends with `name`, either as the whole path or right after a '/' |
| Paths.BasenameHasNoSlash | deduplicate.py:41 | a base name never holds a '/' |
| Paths.BasenameIsLastComponent | deduplicate.py:41 | the base name is the suffix of the path after its last '/', or the whole path when it has none |
| Paths.BasenameAfterSlash | deduplicate.py:41 | a slash-free name placed after an empty prefix or one ending in '/' is its own base name |
| Paths.BasenameOfJoin | deduplicate.py:41-42 | `basename(join(d, n)) == n` for every slash-free name `n`: the destination path keeps the moved file's base name, and a walked path's base name is its file name |
| Paths.EndsWithJoin | deduplicate.py:21-23 | a path built from a name with a book extension ends with that extension |
| Dedup.IsBook | deduplicate.py:21-22 | the extension filter: the name ends with `.pdf` or `.epub` |
| Dedup.PathOf | deduplicate.py:23 | the path of a walked file: its directory joined with its name |
| Dedup.Kept | deduplicate.py:21-26 | an entry passes both filters: a book extension, and an absolute path other than the script's |
| Dedup.ToFound | deduplicate.py:28-29 | the digest, path and modification time recorded for a file that passed the filters |
| Dedup.Considered | deduplicate.py:19-26 | the files that pass both filters, in walk order |
| Dedup.GroupOf | deduplicate.py:31-34 | the list `hashes[h]`: the considered files with digest `h`, in walk order |
| Dedup.ConcatGroups | deduplicate.py:36 | the groups of a sequence of keys, one after another |
| Dedup.Files | deduplicate.py:32-34 | the `(path, mtime)` records of the considered files, in walk order |
| Dedup.ConsideredExactly | deduplicate.py:19-26 | a file reaches the grouping step if and only if some walk entry has a `.pdf` or `.epub` name, has an absolute path different from the script's, and yields that file |
| Dedup.Digests | deduplicate.py:31-34 | the keys of `hashes` are distinct and are exactly the digests of the considered files |
| Dedup.DigestsFirstSeen | deduplicate.py:31-34 | the keys of `hashes` are in first-seen order: a key listed before another first occurs in the walk before every occurrence of the other |
| Dedup.GroupIndices | deduplicate.py:31-34 | the positions of the files with a given digest, strictly ascending, covering every such file |
| Dedup.GroupInWalkOrder | deduplicate.py:31-34 | group `h` lists exactly the considered files with digest `h`, in walk order |
| Dedup.GroupOfAbsent | deduplicate.py:33-34 | a digest no file has has an empty group |
| Dedup.GroupOfPresent | deduplicate.py:31-34 | every key of `hashes` has a non-empty group |
| Dedup.ConcatGroupsSnocOther | deduplicate.py:31-34 | a file whose digest is not among the keys joins none of their groups |
| Dedup.ConcatGroupsSnoc | deduplicate.py:31-34 | a file whose digest is one of the distinct keys joins exactly one of their groups |
| Dedup.GroupsPartitionFiles | deduplicate.py:31-34 | the groups of the keys, put together, are a permutation of the considered files: each considered file lands in exactly one group |
| Dedup.AddToGroups | deduplicate.py:31-34 | one `append` (line 32) or new list (line 34) grows only the file's own group, and a new list starts from no files |
| Dedup.CollectByDigest | deduplicate.py:18-34 | the walk loop builds a map whose keys are exactly the digests of the considered files, in first-seen order, each mapped to its group in walk order |
| Dedup.Insert | deduplicate.py:38 | one step of a stable sort by modification time, descending: the new file goes behind every file at least as new |
| Dedup.NewestFirst | deduplicate.py:38 | the group after the sort: stable, newest first |
| Dedup.SortedNewestFirst | deduplicate.py:38 | a list is ordered by modification time, descending |
| Dedup.InsertPermutes | deduplicate.py:38 | one insertion step adds the inserted file and keeps every other file |
| Dedup.InsertAtLeast | deduplicate.py:38 | an insertion step keeps any lower bound on modification times |
| Dedup.InsertSorted | deduplicate.py:38 | inserting into a newest-first list keeps it newest first |
| Dedup.NewestFirstSortsAndPermutes | deduplicate.py:38 | the sort returns a permutation of the group ordered by modification time, descending |
| Dedup.FirstNewest | deduplicate.py:38-39 | the index of the first file in walk order with the latest modification time of the group |
| Dedup.InsertKeepsHead | deduplicate.py:38 | a file no newer than the head never goes in front of it |
| Dedup.InsertInFront | deduplicate.py:38 | a file strictly newer than all others goes first |
| Dedup.HeadIsFirstNewest | deduplicate.py:38-39 | stability: the file sorted first is the newest file met first in walk order |
| Dedup.Tied | deduplicate.py:38 | the files of a list modified at one given time, in list order (the order stability speaks of) |
| Dedup.InsertTied | deduplicate.py:38 | an insertion step into a sorted list puts the new file behind every file it ties with |
| Dedup.NewestFirstStable | deduplicate.py:38 | stability everywhere: for every modification time, the files with that time appear in the sorted group in their walk order |
| Dedup.InsertPosition | deduplicate.py:38 | an insertion puts the file after every file at least as new and before the strictly older ones |
| Dedup.InsertShifted | deduplicate.py:38 | the array after the shifting loop holds exactly the result of one insertion step |
| Dedup.InsertAt | deduplicate.py:38 | one in-place insertion step on the array prefix; the rest of the array is unchanged |
| Dedup.SortNewestFirst | deduplicate.py:38 | sorting the group in place yields `NewestFirst` of its former contents, a permutation sorted newest first (`NewestFirstSortsAndPermutes`) in which tied files keep their walk order (`NewestFirstStable`) |
| Dedup.KeptOf | deduplicate.py:39 | the file a group keeps: the first after sorting |
| Dedup.RestOf | deduplicate.py:37-40 | the files a group gives up: none for a single file, otherwise all but the first after sorting |
| Dedup.MoveOf | deduplicate.py:41-44 | the move of one file: from its path to the destination directory joined with its base name |
| Dedup.MovesOf | deduplicate.py:40-44 | the moves of a list of files, in list order |
| Dedup.Moved | deduplicate.py:36-40 | the files given up, group after group in the order of the given keys |
| Dedup.KeptFiles | deduplicate.py:36-39 | the file kept by each group, in the order of the given keys |
| Dedup.PlanMoves | deduplicate.py:36-44 | every move of a run, group by group in dictionary insertion order |
| Dedup.GroupSplit | deduplicate.py:37-40 | a group of n files keeps one and moves n - 1 (none for a single file), and kept plus moved is the group |
| Dedup.KeptIsNewest | deduplicate.py:38-40 | the kept file has the latest modification time of its group, and no earlier file of the group is as new |
| Dedup.MovesOfAppend | deduplicate.py:36-44 | the moves of two lists of files are the moves of the first followed by those of the second |
| Dedup.MovesDestination | deduplicate.py:40-42 | one move per file, in order; move i takes file i to `join(dest_dir, basename(path))` |
| Dedup.KeptAndMovedSplitGroups | deduplicate.py:36-40 | for keys with non-empty groups: one kept file per key, and kept plus moved files are a permutation of the groups' files |
| Dedup.KeptOrMoved | deduplicate.py:36-40 | every considered file is either kept, with one kept file per distinct digest, or moved, and never both |
| Dedup.MoveCount | deduplicate.py:36-44 | the number of moves is the number of considered files minus the number of distinct digests |
| Dedup.MovedFromDuplicateGroup | deduplicate.py:37-40 | every moved file comes from a group of two or more files, so a file with a unique digest is never moved |
| Dedup.MovedIsConsidered | deduplicate.py:36-40 | every moved file is one of the considered files |
| Dedup.MovesTakeConsideredBooks | deduplicate.py:19-44 | every move takes a `.pdf` or `.epub` file from the walk, never the script itself, and sends it to `dest_dir` under its own base name |
| Dedup.MoveGroup | deduplicate.py:37-44 | for one group, the moves are those of all files after the first once the group is sorted newest first, and none for a single file |
| Dedup.FindAndMoveDuplicates | deduplicate.py:13-44 | the whole run emits exactly the planned moves, group by group in key order and within a group in sorted order |
| Text.Join | RAG_vs_DeepAgents/classic_Multi-Hop_RAG.py:13 | `sep.join(parts)`: the parts with the separator between each two neighbours |
| Text.Offset | RAG_vs_DeepAgents/classic_Multi-Hop_RAG.py:13 | where part i starts in the join |
| Text.At | RAG_vs_DeepAgents/classic_Multi-Hop_RAG.py:44-46 | a string occurs in another at a given index |
| Text.OffsetOfPrefix | RAG_vs_DeepAgents/classic_Multi-Hop_RAG.py:13 | the offset of a part depends only on the parts before it |
| Text.JoinLength | RAG_vs_DeepAgents/classic_Multi-Hop_RAG.py:13 | a join is exactly the parts plus one separator between each two neighbours, with nothing before the first or after the last |
| Text.JoinPartAt | RAG_vs_DeepAgents/classic_Multi-Hop_RAG.py:13 | part i appears verbatim at its offset in the join |
| Text.JoinSepAt | RAG_vs_DeepAgents/classic_Multi-Hop_RAG.py:13 | exactly one separator follows every part but the last |
| Text.JoinAt | RAG_vs_DeepAgents/classic_Multi-Hop_RAG.py:44-46 | the layout of a join around part i: the part, then a separator unless it is the last |
| Text.JoinInner | RAG_vs_DeepAgents/classic_Multi-Hop_RAG.py:44-46 | whatever occurs inside part i of a join occurs in the join, shifted by the part's offset |
| Text.AtWithin | RAG_vs_DeepAgents/classic_Multi-Hop_RAG.py:44-46 | a string found inside a part of a join is found in the join at the summed offset |
| Text.FirstNewline | RAG_vs_DeepAgents/classic_Multi-Hop_RAG.py:25 | the position of the first line break, or the length when there is none |
| Text.SplitLines | RAG_vs_DeepAgents/classic_Multi-Hop_RAG.py:25 | `str.splitlines()` for '\n': the lines without their breaks, blank lines kept, no extra line after a final break |
| Text.Terminated | RAG_vs_DeepAgents/classic_Multi-Hop_RAG.py:25 | the lines written out again, each followed by a line break (the inverse that `SplitTerminated` and `TerminatedSplit` relate to `SplitLines`) |
| Text.LinesHaveNoBreak | RAG_vs_DeepAgents/classic_Multi-Hop_RAG.py:25 | no line produced by `splitlines` holds a line break |
| Text.SplitTerminated | RAG_vs_DeepAgents/classic_Multi-Hop_RAG.py:25 | splitting lines written one per line gives them back, blank ones included |
| Text.TerminatedSplit | RAG_vs_DeepAgents/classic_Multi-Hop_RAG.py:25 | writing the lines back out restores the text, plus a final line break if it lacked one: nothing is dropped, blank lines included |
| MultiHop.DecomposePrompt | RAG_vs_DeepAgents/classic_Multi-Hop_RAG.py:17-24 | the decomposition prompt, with the question in its place |
| MultiHop.SummaryPrompt | RAG_vs_DeepAgents/classic_Multi-Hop_RAG.py:31-39 | the summary prompt, with the sub-question and its context in their places |
| MultiHop.SynthesisPrompt | RAG_vs_DeepAgents/classic_Multi-Hop_RAG.py:47-57 | the synthesis prompt, with the question and the combined summaries in their places |
| MultiHop.PromptsCarryInputs | RAG_vs_DeepAgents/classic_Multi-Hop_RAG.py:17-58 | each of the three prompts holds its inputs verbatim at fixed places |
| MultiHop.RetrieveDocs | RAG_vs_DeepAgents/classic_Multi-Hop_RAG.py:9-13 | `retrieve_docs`: the page contents of the fragments the store returns for the query with k = 5, in its order, joined by blank lines |
| MultiHop.EmptyRetrieval | RAG_vs_DeepAgents/classic_Multi-Hop_RAG.py:12-13 | an empty search result gives the empty context |
| MultiHop.RetrievalContext | RAG_vs_DeepAgents/classic_Multi-Hop_RAG.py:12-13 | fragment i of the search result appears verbatim, in search order, in the context, and a blank line separates it from fragment i + 1 |
| MultiHop.SubQuestions | RAG_vs_DeepAgents/classic_Multi-Hop_RAG.py:17-25 | the sub-questions: the lines of the reply to the decomposition prompt |
| MultiHop.SummaryOf | RAG_vs_DeepAgents/classic_Multi-Hop_RAG.py:30-40 | the reply to the summary prompt built from a sub-question and its own retrieval context |
| MultiHop.PartialSummaries | RAG_vs_DeepAgents/classic_Multi-Hop_RAG.py:28-41 | one pair per sub-question, in order; pair i holds sub-question i and the summary written for its own retrieval |
| MultiHop.Entry | RAG_vs_DeepAgents/classic_Multi-Hop_RAG.py:45 | one entry of `combined`: the sub-question and the summary under their fixed labels |
| MultiHop.SummaryAt | RAG_vs_DeepAgents/classic_Multi-Hop_RAG.py:45 | where the summary starts inside its entry |
| MultiHop.Entries | RAG_vs_DeepAgents/classic_Multi-Hop_RAG.py:44-46 | the entries of all pairs, in order |
| MultiHop.Combined | RAG_vs_DeepAgents/classic_Multi-Hop_RAG.py:44-46 | `combined`: the entries joined by blank lines |
| MultiHop.EntryLayout | RAG_vs_DeepAgents/classic_Multi-Hop_RAG.py:45 | an entry is `Sub-question: `, the sub-question, `\nSummary:\n`, the summary, and nothing else |
| MultiHop.CombinedEntries | RAG_vs_DeepAgents/classic_Multi-Hop_RAG.py:44-46 | entry i of `combined` sits at its offset and is followed by a blank line unless it is the last |
| MultiHop.CombinedFields | RAG_vs_DeepAgents/classic_Multi-Hop_RAG.py:44-46 | sub-question i and summary i appear verbatim in `combined`, at fixed places within entry i |
| MultiHop.CombinedEmpty | RAG_vs_DeepAgents/classic_Multi-Hop_RAG.py:44-46 | no pairs give an empty `combined` |
| MultiHop.HopCalls | RAG_vs_DeepAgents/classic_Multi-Hop_RAG.py:29-40 | two calls per sub-question: a retrieval asking for K = 5 fragments for it, then a summary of exactly that context |
| MultiHop.Trace | RAG_vs_DeepAgents/classic_Multi-Hop_RAG.py:15-60 | the external calls of one run, in order: decomposition, the hops, synthesis |
| MultiHop.Answer | RAG_vs_DeepAgents/classic_Multi-Hop_RAG.py:15-60 | the answer of one run: the reply to the synthesis prompt |
| MultiHop.HopCallsAreHops | RAG_vs_DeepAgents/classic_Multi-Hop_RAG.py:29-40 | the loop makes only retrievals and summaries |
| MultiHop.TraceShape | RAG_vs_DeepAgents/classic_Multi-Hop_RAG.py:17-60 | a run makes 2n + 2 calls for n lines: the decomposition first, then one retrieval and one summary per line in line order, and last the synthesis over the question and the combined (sub-question, summary) pairs, whose reply is the answer returned |
| MultiHop.TraceEnds | RAG_vs_DeepAgents/classic_Multi-Hop_RAG.py:17-58 | a run decomposes exactly once, as its first call, and synthesises exactly once, as its last |
| MultiHop.NoSubQuestions | RAG_vs_DeepAgents/classic_Multi-Hop_RAG.py:25-60 | a reply with no lines still gives exactly one synthesis call, over an empty summary text, and its reply is the answer |
| MultiHop.SubQuestionsAreLines | RAG_vs_DeepAgents/classic_Multi-Hop_RAG.py:17-25 | the sub-questions are the reply's lines, blank ones included, none holding a line break |
| MultiHop.MultiHopRag | RAG_vs_DeepAgents/classic_Multi-Hop_RAG.py:15-60 | the loop returns the synthesis reply and makes exactly the calls of `Trace`, in order |

## Left out

- `get_file_hash` (deduplicate.py:5-11): reading a file and computing SHA-256 is I/O plus a foreign library. Each walk entry carries its digest as a string.
- `os.walk` (deduplicate.py:19): the walk is a flat sequence of entries in the order the walk reports files. Directory traversal, the `dirnames` list and walk errors are not modelled.
- `os.path.getmtime` (deduplicate.py:29): modification times are integers, not floating-point seconds.
- `os.makedirs` (deduplicate.py:15-16), `print` and `shutil.move` (deduplicate.py:43-44) are file-system I/O. A move is an output `Move(src, dst)` record, in the order the script would move.
- What the file system does when two moved files share a base name and so the same destination (overwrite or error) is not modelled.
- `os.path.abspath` and `__file__`: the absolute-path function and the script's path are parameters of the model.
- Path functions follow POSIX `posixpath`. The Windows semantics that the `__main__` block's drive-letter paths would need are not modelled.
- The `__main__` block of deduplicate.py (lines 46-49) is not modelled.
- The language model (`llm.invoke(...).content`) is the function parameter `complete`, and the vector store's `similarity_search(...)` is the function parameter `search`, returning the fragments' page contents. Both are external services. Both are modelled as deterministic functions, so the same prompt always gets the same reply: two identical (or two blank) sub-questions get identical summaries in the model, although the language model may answer them differently.
- RetrievalContext: holds for search results of any length. The bound of at most five fragments is the store's promise for `k=5`, not something the code enforces, so the model does not assume it. The requested `k` is recorded in every `Retrieve` call.
- The `@tool` wrapper and `.invoke({"query": sq})` around `retrieve_docs` are library plumbing. The model calls the retrieval function directly.
- SubQuestionsAreLines: `splitlines()` is modelled for '\n' line breaks only. Python's other separators ('\r', "\r\n", '\v', '\f', '\x1c'-'\x1e', '\x85', '\u2028', '\u2029') are not split on.
- Exceptions raised by the services or the file system: the code handles none, and the model has no failure path.
- `RAG_vs_DeepAgents/Multi-Hop_RAG_using_deepagents.py` is not part of this model. It configures an agent with a natural-language prompt, and its behaviour comes from the model, not from code.
