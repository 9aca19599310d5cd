# Word ladder over the edit-distance-one graph, modelled in Dafny

The repository finds shortest word ladders: chains of dictionary words in
which each word is one edit away from the next. An edit deletes one letter,
substitutes one letter a–z, or inserts one letter a–z.

- `loader.py` builds the graph offline. It normalises the dictionary, gives
  every word an index and collects the sorted neighbour ids of every word. It
  then writes `words.txt` (one word per line) and `graph.bin`. `graph.bin`
  holds a little-endian uint32 node count, then for each node its neighbour
  count and that many neighbour ids.
- `finder.cpp` reads the two files back and answers a query with a
  breadth-first search over node ids. It translates the ids of the path back
  to words.
- `finder.py` is an older generator. It returns the neighbouring words
  themselves, in the order it tries them.

The model has one module per concern:

| module | file | models |
|---|---|---|
| `Graphs` | graphs.dfy | adjacency lists, paths, reachability, shortest paths |
| `Search` | search.dfy | `BFS`: the visited/parent arrays, the FIFO frontier, the parent walk |
| `LittleEndian` | little_endian.dfy | 4-byte little-endian uint32 values |
| `GraphFile` | graph_file.dfy | the `graph.bin` layout: `Encode` (`save_graph`), `Decode`, and `LoadAdjacencyList` |
| `Words` | words.dfy | `LoadWords` (whitespace tokens) and the `words.txt` layout |
| `IndexMaps` | index_map.dfy | the word→index map built by `FindPath` and `construct_dictionary_index` |
| `Finder` | finder.dfy | `FindPath` |
| `Edits` | edits.dfy | the candidate words of one deletion, substitution or insertion |
| `Loader` | loader.dfy | `construct_dictionary_index`, `get_edit_distance_one_words`, `construct_adjacency_list`, `save_graph` |
| `Normalize` | normalize.dfy | the normalisation in `get_dictionary` |
| `Suggestions` | suggestions.dfy | finder.py's `get_edit_distance_one_words` |

The imperative code stays imperative in the model:

- `Bfs` works on `array<bool>` and `array<int>` with a sequence as the queue.
- The loaders and generators are methods with loops.
- Each method is proved against a specification function, and the lemmas
  state what those functions guarantee.

The central results are these:

- `Search.Bfs` returns a shortest path exactly when the end node is reachable
  and differs from the start node.
- `GraphFile.DecodeEncode` / `GraphFile.EncodeDecode`: the bytes written by
  `save_graph` decode to the lists written, and every decodable file is an
  encoding followed by ignored trailing bytes.
- `Loader.NeighboursSpec`: every neighbour list is strictly increasing and
  holds exactly the ids of the words one edit away.
- `Loader.AdjacencySymmetric`: for a duplicate-free dictionary of a–z words
  the graph is undirected.
- `Loader.SavedFilesAgree`: the files `save_graph` writes for a dictionary
  satisfy what `FindPath` needs.

`BFS(s, s)` returns the empty path, as the code does. `parent[start]` is never
assigned, so the check at finder.cpp:111 sees the sentinel. The doc comment at
finder.h:4-7 promises the shortest path, which for two equal words would be
the one-word path. The model follows the code:

- the contract of `Search.Bfs` says the result is empty when `start == end`;
- `Finder.SameWordIsEmpty` carries this through to `FindPath`.

On the size bound of finder.py's generator:

- The bound `|w| + 26 (|w| + 1) + 25 |w|` holds for a–z words only.
- For a word with other characters, substitution tries all 26 letters at
  those positions.
- `Suggestions.SuggestSize` proves both the a–z bound and the general bound
  `|w| + 26 (|w| + 1) + 26 |w|`.
- `Suggestions.OtherLetterExceedsBound` shows that the a–z bound fails for
  every word with a letter outside a–z, and `Suggestions.UpperCaseExceedsBound`
  instantiates it for "A".

A blank or whitespace-only line of the dictionary file becomes the empty word
after `strip`. It sorts first, `save_graph` writes it as an empty line, and
`LoadWords` skips that line, so finder.cpp gives every word the node number
of the word before it. `Words.BlankWordIsSkipped` exhibits the lost word;
`Loader.SavedFilesAgree` states the numbering agreement for dictionaries
without such words.

## Model

| member | source | states |
|---|---|---|
| Search.Bfs | finder.cpp:85-124 | for node ids of the graph: the result is non-empty exactly when start != end and end is reachable, and a non-empty result is a shortest path from start to end |
| Search.Explore | finder.cpp:86-108 | after the FIFO loop the parent entries form a tree rooted at start; a visited end node's level is below the length of every path to it; an unvisited end node is unreachable |
| Search.StartExpanding | finder.cpp:94-95 | dequeuing the front node keeps the search invariant, with that node now being expanded |
| Search.DiscoverStep | finder.cpp:102-105 | marking an unvisited neighbour visited, giving it the current node as parent and enqueuing it keeps the invariant |
| Search.SkipStep | finder.cpp:102 | skipping an already visited neighbour keeps the invariant |
| Search.FinishExpanding | finder.cpp:101-107 | once all neighbours of the dequeued node are handled, the search invariant holds again |
| Search.ParentStep | finder.cpp:117 | following a parent entry: the root has none, and every other visited node has a visited parent one level closer to the root that lists it as a neighbour |
| Search.UnvisitedShrinks | finder.cpp:103 | marking a node visited shrinks the set of unvisited nodes by one, which bounds the loop |
| Search.LevelIsMinimal | finder.cpp:93-107 | the level of a visited node is less than the number of nodes of any path from the root to it |
| Search.MinimalLevel | finder.cpp:93-107 | the same for all paths from the root to a visited node at once |
| Search.ExhaustedCoversReachable | finder.cpp:93-108 | with an empty queue every node reachable from the root is visited |
| Search.ExhaustedSearch | finder.cpp:93-113 | with an empty queue a node is either visited at its shortest distance or unreachable |
| Search.FrontierCrossing | finder.cpp:93-107 | a path from the root to an unvisited node crosses the frontier |
| Search.Reverse | finder.cpp:121 | the reversed walk has the same length and holds the walk's nodes in the opposite order |
| Search.BackWalkExtend | finder.cpp:117-118 | appending the parent of the last node keeps the walk a chain of reversed edges |
| Search.ReversedWalkIsPath | finder.cpp:116-121 | the parent walk from end back to start, once reversed, is a path from start to end |
| LittleEndian.U32Bytes | loader.py:127 | a value below 2^32 is written as exactly four bytes |
| LittleEndian.U32At | finder.cpp:64 | four bytes read as a value below 2^32 |
| LittleEndian.U32BytesOfRead | finder.cpp:64 | re-encoding the value read from four bytes gives those four bytes back |
| LittleEndian.U32RoundTrip | finder.cpp:64 | the four bytes written for a value below 2^32 read back as that value, whatever follows them |
| GraphFile.EncodeIds | loader.py:133 | the neighbour ids take four bytes each |
| GraphFile.EncodeList | loader.py:132-133 | one node takes four bytes for its count plus four per id |
| GraphFile.EncodeLists | loader.py:130-133 | all nodes take 4·(n + Σ\|adj[i]\|) bytes |
| GraphFile.Encode | loader.py:125-133 | definition: the node count followed by every node's record; its partners are GraphFile.DecodeEncode and GraphFile.EncodedSize |
| GraphFile.DecodeIds | finder.cpp:72-76 | reading k ids gives k values |
| GraphFile.DecodeList | finder.cpp:69-78 | reading one node leaves fewer bytes than it was given |
| GraphFile.DecodeLists | finder.cpp:68-79 | reading count nodes gives count lists and leaves no more bytes than it was given |
| GraphFile.DecodeListRest | finder.cpp:69-78 | the bytes left after reading one node are the end of the input |
| GraphFile.DecodeListsRest | finder.cpp:68-79 | the bytes left after reading count nodes are the end of the input |
| GraphFile.Decode | finder.cpp:59-82 | definition: the lists a file declares, or Malformed when it ends early; its partners are GraphFile.EncodeDecode and GraphFile.MalformedExactly |
| GraphFile.DecodeIdsAt | finder.cpp:74-75 | id j of a node is the little-endian value at byte offset 4j |
| GraphFile.DecodeEncodedIds | finder.cpp:74-75 | reading back written ids gives those ids, whatever follows them |
| GraphFile.EncodeDecodedIds | loader.py:133 | writing read ids reproduces the bytes they were read from |
| GraphFile.DecodeEncodedList | finder.cpp:69-78 | reading back a written node gives its list and the bytes after it |
| GraphFile.EncodeDecodedList | finder.cpp:69-78 | a node that can be read is the encoding of its list followed by the rest |
| GraphFile.DecodeEncodedLists | finder.cpp:68-79 | reading back written nodes gives the lists and the bytes after them |
| GraphFile.EncodeDecodedLists | finder.cpp:68-79 | nodes that can be read are the encoding of the lists followed by the rest |
| GraphFile.ConsLists | loader.py:130-133 | one node's bytes followed by the other nodes' bytes are the bytes of all the nodes |
| GraphFile.EncodeListsSnoc | loader.py:130-133 | writing one more node appends exactly that node's bytes |
| GraphFile.DecodeEncode | loader.py:125-133 | what save_graph writes decodes to the lists written, even with trailing bytes |
| GraphFile.EncodeDecode | finder.cpp:63-81 | whatever decodes is an encoding of the decoded lists followed by ignored bytes |
| GraphFile.TrailingBytesIgnored | finder.cpp:63-81 | bytes after the declared structure do not change the result |
| GraphFile.MalformedExactly | finder.cpp:64-75 | decoding fails exactly when no encoding of any lists is a prefix of the input |
| GraphFile.EncodedSize | loader.py:127-133 | the file is 4·(1 + n + Σ\|adj[i]\|) bytes long |
| GraphFile.PrependNothing | finder.cpp:66 | with no lists decoded yet, the pending result is the decoder's result |
| GraphFile.PrependList | finder.cpp:68-79 | decoding one node moves its list from the decoder's result to the lists already read |
| GraphFile.LoadAdjacencyList | finder.cpp:59-82 | the loop's result is the decoded file, or Malformed for a file that ends early |
| Words.IsSpace | finder.cpp:51 | definition: the six characters `isspace` accepts in the C locale, which `>>` skips and stops at |
| Words.Tokens | finder.cpp:51-53 | definition: the whitespace-separated runs of the text, in order; its partners are Words.LoadWords and Words.WordsFileRoundTrip |
| Words.RunLength | finder.cpp:51 | the length of the longest whitespace-free prefix |
| Words.RunLengthIs | finder.cpp:51 | any maximal whitespace-free prefix has that length |
| Words.TokensAreWords | finder.cpp:51-53 | every token is non-empty and contains no whitespace |
| Words.TokensSplit | finder.cpp:51-53 | text cut after whitespace tokenises as its two parts |
| Words.SkipSpace | finder.cpp:51 | a whitespace character before the next word contributes no token |
| Words.TakeWord | finder.cpp:51-52 | a maximal run of non-whitespace is the next token |
| Words.LoadWords | finder.cpp:43-56 | the words read are the whitespace-separated tokens of the text, in order |
| Words.WordsFile | loader.py:120-122 | the words file is empty or ends with a newline |
| Words.WordLine | loader.py:122 | one line holding a word reads back as that word |
| Words.WordsFileRoundTrip | loader.py:120-122 | the words file of non-empty, whitespace-free words reads back as those words |
| Words.BlankWordIsSkipped | loader.py:121-122 | an empty dictionary word is lost on reading, so word and node numbering drift apart |
| IndexMaps.IndexOf | finder.cpp:16-19 | the keys are the words; each maps to a position holding that word, and no later position holds it |
| IndexMaps.IndexOfInjective | finder.cpp:17-19 | two words with the same index are the same word |
| IndexMaps.IndexOfDistinct | loader.py:51-52 | without duplicates every word maps to its own position |
| IndexMaps.IndexOfStep | finder.cpp:18 | one loop round assigns the current word its position |
| Finder.PathBetween | finder.cpp:15-39 | the words of a shortest ladder between two listed words (empty when they are equal or unconnected), or empty for an unlisted word |
| Finder.FindPath | finder.cpp:8-40 | fails exactly when the graph file is malformed; otherwise returns the answer of PathBetween over the decoded files |
| Finder.AnswerIsLadder | finder.cpp:31-37 | a non-empty answer starts with the start word, ends with the end word, and follows edges |
| Finder.SameWordIsEmpty | finder.cpp:27-31 | asking for a ladder from a word to itself gives the empty answer |
| Edits.Deletion | loader.py:73 | definition: `word[:i] + word[i+1:]`, also finder.py:45 |
| Edits.Substitution | loader.py:79 | definition: `word[:i] + c + word[i+1:]`, also finder.py:56 |
| Edits.Insertion | loader.py:84 | definition: `word[:i] + c + word[i:]`, also finder.py:50 |
| Edits.DeletionLetters | loader.py:73 | the result is one letter shorter; letters before i stay, later ones move one place left |
| Edits.SubstitutionLetters | loader.py:79 | the result has the same length, c at i, and every other letter unchanged |
| Edits.InsertionLetters | loader.py:84 | the result is one letter longer, c at i, letters before i stay, later ones move one place right |
| Edits.DeletionsUpTo | loader.py:72-73 | definition: the deletions at positions 0..n-1 in loop order, also finder.py:44-45; its partners are Edits.DeletionsUpToMembers and Edits.DeletionsUpToSize |
| Edits.SubstitutionsAt | loader.py:77-79 | definition: the substitutions at position i by the first j letters, skipping the letter already there, in loop order, also finder.py:54-56; its partners are Edits.SubstitutionsAtMembers and Edits.SubstitutionsAtSize |
| Edits.SubstitutionsUpTo | loader.py:76-79 | definition: the substitutions at positions 0..n-1, position by position, also finder.py:53-56; its partners are Edits.SubstitutionsUpToMembers and Edits.SubstitutionsUpToSize |
| Edits.InsertionsAt | loader.py:83-84 | definition: the insertions of the first j letters at position i, in loop order, also finder.py:49-50; its partners are Edits.InsertionsAtMembers and Edits.InsertionsAtSize |
| Edits.InsertionsUpTo | loader.py:82-84 | definition: the insertions at positions 0..n-1, position by position, also finder.py:48-50; its partners are Edits.InsertionsUpToMembers and Edits.InsertionsUpToSize |
| Edits.Deletions | loader.py:72-73 | definition: all deletion candidates of a word, also finder.py:44-45; its partner is Edits.InDeletions |
| Edits.Substitutions | loader.py:76-79 | definition: all substitution candidates of a word, also finder.py:53-56; its partner is Edits.InSubstitutions |
| Edits.Insertions | loader.py:82-84 | definition: all insertion candidates of a word, over len(word) + 1 positions, also finder.py:48-50; its partner is Edits.InInsertions |
| Edits.DeletionsUpToMembers | loader.py:72-73 | the first n deletion candidates are the words without letter i, i < n |
| Edits.SubstitutionsAtMembers | loader.py:77-79 | the candidates for position i are its substitutions by the first j letters other than the one there |
| Edits.SubstitutionsUpToMembers | loader.py:76-79 | the substitution candidates of the first n positions |
| Edits.InsertionsAtMembers | loader.py:83-84 | the candidates for position i are its insertions of the first j letters |
| Edits.InsertionsUpToMembers | loader.py:82-84 | the insertion candidates of the first n positions |
| Edits.InDeletions | loader.py:72-73 | a word is a deletion candidate exactly when it is the word with one letter removed |
| Edits.InSubstitutions | loader.py:76-79 | a word is a substitution candidate exactly when one letter is replaced by a different letter a–z |
| Edits.InInsertions | loader.py:82-84 | a word is an insertion candidate exactly when one letter a–z is inserted |
| Edits.InCandidates | loader.py:72-84 | a word is tried exactly when it is one edit away |
| Edits.OneEditChanges | loader.py:72-84 | a word one edit away differs from the word, and its length differs by at most one |
| Edits.DeletionUndone | loader.py:73 | inserting the deleted letter back restores the word |
| Edits.InsertionUndone | loader.py:84 | deleting the inserted letter restores the word |
| Edits.SubstitutionUndone | loader.py:79 | substituting the old letter back restores the word |
| Edits.OneEditSymmetric | loader.py:72-84 | for an a–z word, a word one edit away has the first one edit away in turn |
| Edits.OneWaySubstitution | loader.py:77-79 | outside a–z the relation is one-way: "é" is one edit from "a" in one direction only |
| Edits.AlphabetCodes | loader.py:77 | the constant `Edits.Alphabet`, the string `'abcdefghijklmnopqrstuvwxyz'` of loader.py:77 and finder.py:49/54, has 26 letters with consecutive codes starting at 'a' |
| Edits.InAlphabet | loader.py:77 | a character is one of the letters exactly when its code lies in 'a'..'z' |
| Edits.DeletionsUpToSize | finder.py:44-45 | n positions give n deletion candidates |
| Edits.InsertionsAtSize | finder.py:49-50 | j letters give j insertion candidates |
| Edits.InsertionsUpToSize | finder.py:48-50 | n positions give 26n insertion candidates |
| Edits.SubstitutionsAtSize | finder.py:54-56 | j letters give j substitution candidates, one fewer when the letter at i is among them |
| Edits.SubstitutionsUpToSize | finder.py:53-56 | at most 26n substitution candidates, exactly 25n for an a–z word |
| Edits.SubstitutionsUpToAtLeast | finder.py:53-56 | at least 25n substitution candidates, and more than 25n when one of the n positions holds a letter outside a–z |
| Edits.CandidateCounts | finder.py:43-56 | \|w\| deletions, 26(\|w\|+1) insertions, at most 26\|w\| substitutions, and 25\|w\| for an a–z word |
| Suggestions.Suggest | finder.py:37-58 | definition: the dictionary words among the deletions, then the insertions, then the substitutions; its partner is Suggestions.SuggestMembers |
| Suggestions.Filter | finder.py:39-41 | definition: the list `try_and_add` builds from a run of candidates, the dictionary words among them in order; its partners are Suggestions.FilterMembers and Suggestions.FilterSize |
| Suggestions.FilterSnoc | finder.py:39-41 | trying one more candidate appends it exactly when it is a dictionary word |
| Suggestions.FilterAppend | finder.py:43-56 | trying two runs of candidates gives the results of the first followed by those of the second |
| Suggestions.FilterMembers | finder.py:39-41 | a word is kept exactly when it is a candidate and a dictionary word |
| Suggestions.FilterSize | finder.py:39-41 | at most one result per candidate |
| Suggestions.FilterAll | finder.py:39-41 | a dictionary holding every candidate keeps them all, in order |
| Suggestions.SuggestMembers | finder.py:37-58 | a word is returned exactly when it is a dictionary word one edit away |
| Suggestions.SuggestChanges | finder.py:44-56 | the input word is never returned, and every result's length differs from it by at most one |
| Suggestions.SuggestSize | finder.py:38-56 | at most \|w\| + 26(\|w\|+1) + 25\|w\| results for an a–z word and \|w\| + 26(\|w\|+1) + 26\|w\| otherwise |
| Suggestions.OtherLetterExceedsBound | finder.py:38-56 | for a word with a letter outside a–z and a dictionary holding every candidate, there are more than \|w\| + 26(\|w\|+1) + 25\|w\| results |
| Suggestions.UpperCaseExceedsBound | finder.py:38-56 | the word "A" with all its candidates in the dictionary gives more than 78 results |
| Suggestions.TryStep | finder.py:39-41 | one call of the closure appends the candidate exactly when it is a dictionary word |
| Suggestions.JoinRounds | finder.py:48-56 | the inner loop's results join those of the earlier positions |
| Suggestions.SubstitutionStep | finder.py:54-56 | one letter of the substitution loop, skipped when it is the letter already there |
| Suggestions.InsertionStep | finder.py:49-50 | one letter of the insertion loop |
| Suggestions.TryAndAdd | finder.py:39-41 | appends the candidate exactly when it is a dictionary word |
| Suggestions.TryDeletions | finder.py:44-45 | appends the dictionary words among the deletions, in position order |
| Suggestions.TryInsertions | finder.py:48-50 | appends the dictionary words among the insertions, by position then letter |
| Suggestions.TrySubstitutions | finder.py:53-56 | appends the dictionary words among the substitutions, by position then letter |
| Suggestions.GetEditDistanceOneWords | finder.py:37-58 | the deletion results, then the insertion results, then the substitution results, duplicates kept |
| Normalize.IsWhite | loader.py:39 | definition: the characters `str.isspace` accepts, Unicode spaces included |
| Normalize.Strip | loader.py:39 | definition: `str.strip()`, leading then trailing whitespace removed; its partners are Normalize.StripIsStripped and Normalize.StripClean |
| Normalize.StripLeft | loader.py:39 | drops exactly the leading whitespace |
| Normalize.StripRight | loader.py:39 | drops exactly the trailing whitespace |
| Normalize.LowerChar | loader.py:39 | definition: `lower()` on one character, for A–Z only; its partner is Normalize.Lower |
| Normalize.Lower | loader.py:39 | keeps the length and lower-cases each letter A–Z in place |
| Normalize.Less | loader.py:40 | definition: Python's `<` on str, comparing code points and putting a proper prefix first; its partners are the three lemmas below |
| Normalize.LessIrreflexive | loader.py:40 | no word sorts before itself |
| Normalize.LessTransitive | loader.py:40 | the string order is transitive |
| Normalize.LessTotal | loader.py:40 | of two different words one sorts first |
| Normalize.LessTransitiveFrom | loader.py:40 | a word below the least element of a set is below all of it |
| Normalize.Least | loader.py:40 | the first word of a set in sorted order |
| Normalize.Sorted | loader.py:40 | sorted(set) is strictly increasing and holds exactly the set's words |
| Normalize.LowerKeepsWhite | loader.py:39 | lower-casing neither creates nor removes whitespace |
| Normalize.StripIsStripped | loader.py:39 | stripped text has no whitespace at either end |
| Normalize.Clean | loader.py:39 | definition: `word.strip().lower()`; its partners are Normalize.CleanIsClean and Normalize.CleanIdempotent |
| Normalize.Normalize | loader.py:39-40 | definition: sorted set of the normalised lines; its partners are Normalize.NormalizeSpec and Normalize.NormalizeIdempotent |
| Normalize.CleanIsClean | loader.py:39 | a normalised word has no whitespace at either end and no letter A–Z |
| Normalize.StripClean | loader.py:39 | stripping text without surrounding whitespace changes nothing |
| Normalize.CleanIdempotent | loader.py:39 | normalising a word twice is normalising it once |
| Normalize.NormalizeSpec | loader.py:39-40 | the dictionary is strictly sorted and holds exactly the normalised lines |
| Normalize.SortedIsDistinct | loader.py:40 | the dictionary has no duplicates |
| Normalize.CleanFixesDictionary | loader.py:39-40 | every dictionary word is already normalised |
| Normalize.CleanSetOfFixed | loader.py:39 | normalising already normalised words gives the same set |
| Normalize.MembersOfSorted | loader.py:40 | the words of sorted(s) form s again |
| Normalize.NormalizeIdempotent | loader.py:39-40 | normalising the dictionary again gives the same dictionary |
| Loader.ConstructDictionaryIndex | loader.py:50-53 | the map's keys are the words; each maps to a position holding it, the last one for a repeated word |
| Loader.Least | loader.py:86 | the smallest id of a non-empty set |
| Loader.LeastUnique | loader.py:86 | a set has only one smallest id |
| Loader.SortedIds | loader.py:86 | sorted(set) is strictly increasing, holds exactly the set's ids and has the set's size |
| Loader.ConsIncreasing | loader.py:86 | an id below all entries of an increasing list can go in front of it |
| Loader.Ids | loader.py:67-69 | definition: the set `check_and_add` builds from a run of candidates, the ids of those that are keys; its partner is Loader.IdsMembers |
| Loader.IdsSnoc | loader.py:67-69 | one more candidate adds its id exactly when it is a key |
| Loader.IdsMembers | loader.py:67-69 | an id is collected exactly when it belongs to a candidate that is a key |
| Loader.IdStep | loader.py:67-69 | one call of the closure adds the candidate's id exactly when it is a key |
| Loader.IdsAppend | loader.py:72-84 | the ids of two runs of candidates are the union of their ids |
| Loader.CheckAndAdd | loader.py:67-69 | adds the candidate's id exactly when the candidate is a key |
| Loader.AddDeletions | loader.py:72-73 | adds the ids of the deletions that are keys |
| Loader.SubstitutionStep | loader.py:77-79 | one letter of the substitution loop, skipped when it is the letter already there |
| Loader.InsertionStep | loader.py:83-84 | one letter of the insertion loop |
| Loader.AddSubstitutions | loader.py:76-79 | adds the ids of the substitutions that are keys |
| Loader.AddInsertions | loader.py:82-84 | adds the ids of the insertions that are keys |
| Loader.GetEditDistanceOneWords | loader.py:56-86 | returns the sorted ids of all candidates that are keys |
| Loader.Neighbours | loader.py:56-86 | definition: the sorted ids of the deletion, substitution and insertion candidates that are keys; its partner is Loader.NeighboursSpec |
| Loader.NeighboursSpec | loader.py:65-86 | the result is strictly increasing and holds exactly the ids of the words one edit away |
| Loader.NeighboursOfDictionaryWord | loader.py:72-84 | with the dictionary's own map every id is a node, and neither the word's id nor its position is among its neighbours |
| Loader.IncreasingBounded | loader.py:86 | a strictly increasing list of ids below n has at most n entries |
| Loader.AdjacencyGraph | loader.py:98-103 | one neighbour list per dictionary word |
| Loader.AdjacencyStep | loader.py:100-101 | filling entry i after entries 0..i-1 gives keys 0..i and the right lists |
| Loader.ConstructAdjacencyList | loader.py:98-103 | the keys are exactly 0..len(dictionary)-1, and entry i is the neighbour list of word i |
| Loader.AdjacencyValid | loader.py:98-103 | every neighbour id is a node, every list is strictly increasing, and no node is its own neighbour |
| Loader.EdgeReversed | loader.py:72-84 | for distinct a–z words an edge u→v comes with the edge v→u |
| Loader.AdjacencySymmetric | loader.py:72-84 | for distinct a–z words, v is a neighbour of u exactly when u is a neighbour of v |
| Loader.ListsOf | loader.py:130-131 | the lists save_graph writes: entry i of the map, or the empty list for a missing key |
| Loader.ListsOfAdjacency | loader.py:130-131 | for the map construct_adjacency_list builds, these are the dictionary's neighbour lists |
| Loader.SaveWords | loader.py:120-122 | words.txt is the words file of the dictionary |
| Loader.SaveStep | loader.py:130-133 | one round of the node loop appends that node's count and ids |
| Loader.SaveAdjacency | loader.py:125-133 | graph.bin is the encoding of the lists |
| Loader.SaveGraph | loader.py:106-133 | the two files are the words file and the encoding of the adjacency lists |
| Loader.AdjacencyFits | loader.py:127-133 | for fewer than 2^32 words every node count, neighbour count and id of the dictionary's graph fits a uint32 field |
| Loader.SavedFilesAgree | loader.py:118-133 | for fewer than 2^32 words, each non-empty and free of whitespace, the saved files decode to the dictionary's graph, read back as the dictionary, and meet what FindPath requires |

## Left out

- Network download (`download_dictionary` in loader.py and finder.py): network I/O.
- File handling (`os.path.exists`, `open`, `os.makedirs`, `std::ifstream`, the `runtime_error` throws): I/O. The loaders take the file contents, and `save_graph` returns them.
- `str.splitlines` in `get_dictionary`: `Normalize.Normalize` takes the lines already split.
- finder.py's `get_dictionary` (`set(words)` over the lines): file reading. `Suggestions` takes the set.
- `print` calls and the `__main__` blocks of loader.py and finder.py, `input`, and main.cpp with its argument check: presentation.
- finder.h: it declares a `find_path` that nothing defines. There is nothing to model.
- numpy (`np.array(..., dtype='<u4').tofile`) is modelled as explicit 4-byte little-endian values. finder.cpp's native-endian `reinterpret_cast` reads are modelled as little-endian too.
- Text: the strings of both sides, Python's `str` and C++'s `std::string`, are modelled as sequences of code points. `words.txt` is assumed to be UTF-8, where no multi-byte character contains one of the six whitespace bytes `>>` stops at, so the bytes finder.cpp reads split into the same tokens. `Words.Tokens`, `Words.LoadWords`, `Loader.SaveWords` and `Loader.SavedFilesAgree` rest on this. An encoding error raised by `open(word_file, 'w')` at loader.py:120 for a character the locale cannot encode, and newline translation in text mode (`"\r\n"` on Windows), are not modelled. The lookup of the query words at finder.cpp:22 compares bytes, which under UTF-8 is the code-point equality the model uses.
- Hash maps (`unordered_map`, `dict`, `defaultdict`) are modelled as Dafny maps. Hashing and iteration order are left out.
- Normalize.LowerChar: maps A–Z to a–z and leaves every other character unchanged, which is where Python's Unicode case mapping differs.
- Normalize.Lower: lower-cases A–Z only. Python's Unicode case mapping is not modelled. `Normalize.IsWhite` does follow `str.isspace`, Unicode spaces included.
- GraphFile.LoadAdjacencyList: a file that ends early gives `Err(Malformed)`. In the source, `ifstream::read` leaves unspecified values there.
- Search.Bfs: ids are unbounded naturals. The ids being below the node count is a precondition (`ValidGraph`), because the source leaves it unchecked. `NoParent` = -1 stands for the `UINT32_MAX` sentinel. The real sentinel collides with a node numbered 2^32-1, and the model does not capture that.
- Finder.FindPath: `FilesAgree` is a precondition. It requires that the decoded ids index the graph and that the word list has one word per node, because `words[index]` and `adjacencyList[current]` are unchecked in the source. The 32-bit counter `uint32_t i` over `words.size()` is modelled as unbounded.
- Loader.SaveGraph: `Fits` is a precondition. It requires every count and id to be below 2^32, where numpy's `'<u4'` conversion fails or wraps.
- Loader.SavedFilesAgree: requires every word to be non-empty and free of whitespace. This is what `LoadWords` needs to number the words as `save_graph` did. `Words.BlankWordIsSkipped` shows how an empty word shifts the numbering.
- In-place mutation through closures: the closures `check_and_add` and `try_and_add`, which mutate the enclosing set or list, are modelled as methods that return the extended collection.
- Loop structure: `get_edit_distance_one_words` is split in both versions, with each loop nest (deletions, substitutions, insertions) as a method of its own that the top-level method calls in the source's order.
- Loader.ConstructAdjacencyList: the `defaultdict` factory is modelled only where `save_graph` reads a key (`Loader.ListsOf`). No other read of a missing key occurs.
- Loader.AdjacencyGraph and IndexMaps.IndexOf are value-level definitions. The methods that build them are proved equal to them.
