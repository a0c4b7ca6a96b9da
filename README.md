# Bioinformatics algorithms, modelled in Dafny

This project models the algorithmic core of a Python teaching repository on
bioinformatics algorithms and proves properties of that model. It covers:

- **Pattern search:**
  - the finite automaton built from a simplified transition table;
  - Boyer-Moore with its bad-character and good-suffix tables;
  - the word trie, with insertion, lookup and deletion;
  - the suffix tree kept as nested dictionaries, with lookup and repeat finding.
- **The Burrows-Wheeler transform (`BWT`):**
  - the forward transform through the rotation matrix;
  - the inverse through ranked columns and the class's occurrence dictionary;
  - the suffix array;
  - the FM-index backward search.
- **Graphs:**
  - `MyGraph` with its queries, breadth-first and depth-first reachability, distances, shortest paths and cycle tests;
  - the weighted graph with Dijkstra's algorithm.
- **Metabolic networks:**
  - the reaction dictionary queries and the activation closures `r_ativ` and `m_ativ`;
  - the reaction graph, including the parser of reaction lines.
- **Motif finding:**
  - the deterministic parts of the evolutionary motif finder;
  - the deterministic parts of the Gibbs sampler: alphabet, position weight matrix, windows and score.

Each core file keeps its form. Classes whose methods update fields become
Dafny classes: `Automata`, `BoyerMoore`, `BWT`, `Trees`, `SuffixTree`,
`MyGraph` and `WeightedGraph`. Their methods are proved against
specification functions, and the properties the repository promises are
proved about those functions as lemmas. Loops become `while`/`for` loops
with invariants. Values that are never changed after construction are
datatypes, and the queries over them are functions. This holds for the
metabolic network and for the settings of the motif finders.

Shared modules:

- `Lex`: Python's string order.
- `Sorting`: `sorted` as an insertion sort, and its uniqueness.
- `Counting`: `count` and `index`.
- `PyStr`: ASCII `upper`, Python indexing and slices, and `zip` columns.
- `Optional`: `Option` and `Result`, where `Fail` carries the message of
  the exception or assertion the source raises.

## Model

| member | source | states |
|---|---|---|
| FiniteAutomata.Automata.constructor | ProcuraPadroes/automatos_finitos.py:37-42 | The automaton stores its alphabet and pattern and its table is the transition table of that pattern. |
| FiniteAutomata.Automata.TabelaTransicoes | ProcuraPadroes/automatos_finitos.py:45-69 | The table gains exactly the entries of the transition table, later alphabet duplicates overwriting earlier ones, and keeps any other entry. |
| FiniteAutomata.TableKeys | ProcuraPadroes/automatos_finitos.py:60-62 | The table has an entry exactly for each state below the pattern length and each symbol of the alphabet. |
| FiniteAutomata.TableTargets | ProcuraPadroes/automatos_finitos.py:63-69 | From state `e` the target is `e + 1` exactly when the symbol is `padrao[e]`; otherwise it is 1 if the symbol starts the pattern, else 0; every target is a state. |
| FiniteAutomata.Automata.AplicaAutomato | ProcuraPadroes/automatos_finitos.py:72-95 | The run records one state per symbol, resetting to 0 after the final state, or stops with the `KeyError` of the first missing transition. |
| FiniteAutomata.OneStatePerSymbol | ProcuraPadroes/automatos_finitos.py:90-92 | A run that does not raise records exactly one state per symbol read. |
| FiniteAutomata.KeyErrorIffForeign | ProcuraPadroes/automatos_finitos.py:91 | With the automaton's own table and a non-empty pattern, a run raises `KeyError` exactly when the sequence holds a symbol outside the alphabet. |
| FiniteAutomata.EmptyPatternFails | ProcuraPadroes/automatos_finitos.py:60-91 | With an empty pattern the table is empty, so a non-empty sequence raises on its first symbol. |
| FiniteAutomata.StateSpells | ProcuraPadroes/automatos_finitos.py:88-94 | After reading `w[..i+1]` in state `k`, the last `k` symbols read spell the first `k` symbols of the pattern. |
| FiniteAutomata.Automata.PosicoesMatch | ProcuraPadroes/automatos_finitos.py:98-121 | The positions are `i - len(padrao) + 1` for every index whose state is final, or the run's `KeyError`. |
| FiniteAutomata.MatchesAreOccurrences | ProcuraPadroes/automatos_finitos.py:98-121 | Every position `posicoesMatch` reports starts an occurrence of the pattern inside the sequence. |
| FiniteAutomata.MissedOccurrence | ProcuraPadroes/automatos_finitos.py:60-69 | For "aab" over "ab" the run on "aaab" is 1, 2, 1, 0, so no position is reported although "aab" starts at 1: the simplified table is not complete. |
| FiniteAutomata.MatchesAscending | ProcuraPadroes/automatos_finitos.py:117-120 | The reported positions are strictly increasing. |
| FiniteAutomata.ExampleRun | ProcuraPadroes/automatos_finitos.py:72-121 | For "aca" over "ac", the sequence "cacaacaa" runs through 0,1,2,3,1,2,3,1 and reports 1 and 4. |
| BoyerMooreSearch.BoyerMoore.constructor | ProcuraPadroes/BoyerMoore.py:2-6 | The object keeps its pattern, and both tables are those of the pattern. |
| BoyerMooreSearch.BoyerMoore.CreateBadCharacterTable | ProcuraPadroes/BoyerMoore.py:8-12 | The loop builds the bad-character table of the pattern. |
| BoyerMooreSearch.BadCharLast | ProcuraPadroes/BoyerMoore.py:8-12 | The table's keys are exactly the symbols of the pattern, and each maps to the last index holding that symbol. |
| BoyerMooreSearch.BoyerMoore.IsPrefix | ProcuraPadroes/BoyerMoore.py:31-35 | `is_prefix(p)` answers whether `pattern[k] == pattern[m-1-k+p]` for every `k` from `p` on. |
| BoyerMooreSearch.MirrorsIsPalindrome | ProcuraPadroes/BoyerMoore.py:31-35 | `is_prefix(p)` holds exactly when `pattern[p:]` is a palindrome. |
| BoyerMooreSearch.BoyerMoore.LengthOfSuffix | ProcuraPadroes/BoyerMoore.py:37-45 | `length_of_suffix(p)` returns the backwards run of agreeing symbols from `pattern[p]` and the last symbol. |
| BoyerMooreSearch.SuffixRunCommon | ProcuraPadroes/BoyerMoore.py:41-44 | The counted run is a common stretch ending at both indices, and it is maximal. |
| BoyerMooreSearch.MinPrefixMeaning | ProcuraPadroes/BoyerMoore.py:18-21 | The prefix position the first loop carries is the nearest start at or after `p` for which `is_prefix` holds. |
| BoyerMooreSearch.FirstPassEntry | ProcuraPadroes/BoyerMoore.py:18-22 | After the first loop each entry `x` holds `MinPrefix(x + 1) - x + m - 1`, and entry `m` stays 0. |
| BoyerMooreSearch.BoyerMoore.CreateGoodSuffixTable | ProcuraPadroes/BoyerMoore.py:14-29 | Both loops together build the good-suffix table, with Python's negative-index reads in the second loop. |
| BoyerMooreSearch.GoodSuffixShape | ProcuraPadroes/BoyerMoore.py:14-29 | The good-suffix table has `m + 1` entries: the last is 0 and every other is at least 1, so a search always advances. |
| BoyerMooreSearch.BadCharExample | ProcuraPadroes/BoyerMoore.py:8-12 | The bad-character table of "ana" is {'a': 2, 'n': 1}: the last index of each symbol. |
| BoyerMooreSearch.MirrorsAna | ProcuraPadroes/BoyerMoore.py:31-35 | For "ana", `is_prefix` holds from 0, 2 and 3 and fails from 1. |
| BoyerMooreSearch.FirstPassAna | ProcuraPadroes/BoyerMoore.py:15-22 | The first loop of the good-suffix table leaves [4, 3, 3, 0] for "ana". |
| BoyerMooreSearch.SuffixLengthAna | ProcuraPadroes/BoyerMoore.py:37-45 | `length_of_suffix` of "ana" is 1 at 0, 0 at 1 and 3 at 2. |
| BoyerMooreSearch.GoodSuffixAna | ProcuraPadroes/BoyerMoore.py:14-29 | The good-suffix table of "ana" is [4, 3, 1, 0]. |
| BoyerMooreSearch.BoyerMoore.Search | ProcuraPadroes/BoyerMoore.py:47-61 | `search` returns the positions the alignment loop appends, shifting by the largest of 1, the bad-character shift and the good-suffix shift. |
| BoyerMooreSearch.MismatchMeaning | ProcuraPadroes/BoyerMoore.py:52-54 | The right-to-left comparison stops at a mismatching index, and every index compared above it agrees with the text. |
| BoyerMooreSearch.FullMatch | ProcuraPadroes/BoyerMoore.py:55-56 | The comparison runs off the front exactly when the pattern occurs at that alignment. |
| BoyerMooreSearch.BmSearchSound | ProcuraPadroes/BoyerMoore.py:47-61 | Every reported position is an occurrence of the pattern that fits in the text. |
| BoyerMooreSearch.BmSearchIncreasing | ProcuraPadroes/BoyerMoore.py:47-61 | The reported positions are strictly increasing. |
| BoyerMooreSearch.SearchAna | ProcuraPadroes/BoyerMoore.py:47-61 | "ana" in "bananarama" gives [1]; the overlapping occurrence at 3 is jumped over by the shift after the match. |
| BoyerMooreSearch.EmptyPatternTable | ProcuraPadroes/BoyerMoore.py:14-29 | The empty pattern's good-suffix table is [0], so `search` would never leave alignment 0. |
| Bwt.CriarMatriz | BWT/BWT.py:8-16 | Row `k` of the matrix is the text rotated right `k` times. |
| BwtInverse.MatrixRowIsRotation | BWT/BWT.py:8-16 | Every row of the matrix is a rotation of the text, starting at `n - k` (at 0 for row 0). |
| BwtInverse.MatrixHasRotations | BWT/BWT.py:8-16 | Every rotation of the text is a row of the matrix. |
| BwtInverse.SortRows | BWT/BWT.py:18-20 | `ordenarMatriz` returns a rearrangement of the rows. |
| Bwt.ConstruirBWT | BWT/BWT.py:29-37 | The transform is the last symbol of every row, in row order. |
| BwtInverse.ConstructionRoutes | BWT/BWT.py:18-37 | For a sentinel-terminated text, the last column of the sorted matrix is `s[SA[i] - 1]`, row by row: the transform read off the suffix array. |
| Bwt.Transformar | BWT/BWT.py:158 | `construirBWT(ordenarMatriz(criarMatriz(s)))` is the transform of the text. |
| BwtSpec.SuffixArray | BWT/BWT.py:107-109 | The suffix array has one entry per position of the text. |
| BwtSpec.SortedSuffixes | BWT/BWT.py:107-109 | The suffix array holds every start position exactly once, in strictly increasing order of the suffixes. |
| BwtSpec.SuffixArrayIsSA | BWT/BWT.py:107-109 | `sorted(range(n), key=lambda i: s[i:])` is the suffix array, characterised by its contents and order. |
| Bwt.CriarPrimeiraColuna | BWT/BWT.py:39-41 | The first column holds the symbols of the transform, with their multiplicities. |
| Bwt.PrimeiraColunaSorted | BWT/BWT.py:39-41 | The first column is sorted. |
| BwtTheory.SortedBwtIsFirst | BWT/BWT.py:39-41 | Sorting the transform gives the first column of the sorted rotation matrix. |
| BwtTheory.ColumnsPermutation | BWT/BWT.py:39-51 | The first and last columns of the sorted matrix hold the same symbols. |
| Bwt.CriarUltimaColuna | BWT/BWT.py:43-51 | The last column, symbol by symbol, is the transform. |
| Bwt.BWT.constructor | BWT/BWT.py:4-6 | A new object has no recovered symbols and an empty occurrence dictionary. |
| Bwt.Dedup | BWT/BWT.py:53-55 | The dictionary's keys in insertion order hold each symbol of the transform once. |
| Bwt.BWT.CriarDicionarioOcorrencias | BWT/BWT.py:53-55 | The dictionary holds a counter at -1 for exactly the symbols of the transform; the recovered symbols are untouched. |
| Bwt.BWT.DecidirCaracter | BWT/BWT.py:57-62 | When the symbol is the key, its counter goes up by one and the label `symbol + counter` is appended; otherwise nothing changes. |
| Bwt.BWT.ContarItem | BWT/BWT.py:68-72 | Checking a symbol against every key labels and counts it once when it is a key, and does nothing otherwise. |
| Bwt.BWT.ReporContadores | BWT/BWT.py:74-76 | Every counter is set back to -1 and the keys stay. |
| Bwt.BWT.PreencherLista | BWT/BWT.py:66-76 | The list gains the labels of the symbols that are keys, numbered from their counters, and every counter ends at -1. |
| Bwt.TaggedFresh | BWT/BWT.py:66-76 | With every counter at -1 and every symbol a key, the labels are the ranks: the k-th occurrence of `c` is labelled `c` and `k`. |
| BwtInverse.LabelledDistinct | BWT/BWT.py:66-76 | Rank labels never repeat within a column, and a label's symbol is the column's symbol. |
| Bwt.BWT.ObterSequenciaOriginal | BWT/BWT.py:79-97 | Exactly `n` symbols are recorded in all; when the last column has no repeated label they are the walk from `letra` through the columns. |
| BwtInverse.PassMatch | BWT/BWT.py:86-95 | Meeting the current label at row `k` of the last column records its symbol and moves to the first-column label of row `k`. |
| BwtTheory.LastFirst | BWT/BWT.py:79-97 | The LF mapping: the k-th occurrence of a symbol in the last column and the k-th in the first column stand for the same text position. |
| BwtInverse.WalkRecovers | BWT/BWT.py:79-97 | Starting from `'$0'`, `len(s)` steps over the ranked columns of the transform collect the sentinel and then the text before it. |
| Bwt.PassOverfull | BWT/BWT.py:79-97 | A pass of `obterSequenciaOriginal` that starts with more than `n` recorded symbols never reaches its `return`, and it hands on a list still longer than `n`. |
| Bwt.StaleListNeverReturns | BWT/BWT.py:79-97 | Since only `__init__` empties the list, an inverse on a used object for a shorter text never returns, however many passes it makes. |
| Bwt.StaleListReturnsAtOnce | BWT/BWT.py:79-97 | With exactly `n` symbols already recorded and the label not on the first row, the call returns at once and keeps the previous text's symbols. |
| Bwt.BWT.InverterDeNovo | BWT/BWT.py:161-181 | With the recorded symbols cleared first, the inverse gives back any sentinel-terminated text on any object. |
| Bwt.BWT.SequenciaOriginalEmString | BWT/BWT.py:99-105 | The string is the recorded symbols with the first moved to the end. |
| Bwt.BWT.Inverter | BWT/BWT.py:161-181 | The script's inverse recovers a sentinel-terminated text from its transform. |
| Bwt.BWT.LabelledColumns | BWT/BWT.py:165-177 | The columns `preencherLista` labels from a fresh dictionary are the ranked first and last columns, and every first-column label occurs in the last column. |
| Bwt.BWT.TransformarEInverter | BWT/BWT.py:145-181 | The script's round trip: the transform of a sentinel-terminated text, then its inverse, gives the text back. |
| Bwt.CountTable | BWT/BWT.py:115-119 | `count[c][i]` is the number of `c` in `bwt[0:i]`, for every symbol of the transform and every `i` up to its length. |
| Bwt.FirstOccurrence | BWT/BWT.py:122-125 | `first_occurrence[c]` is the first index of `c` in the sorted transform. |
| BwtTheory.LFIndex | BWT/BWT.py:134-137 | The row a backward step lands on is the first row starting with `c` plus the number of `c`s above, in the last column. |
| BwtSearch.BackwardStep | BWT/BWT.py:128-142 | One backward step takes the rows starting with `w` to exactly the rows starting with `c` followed by `w`. |
| Bwt.FmSearch | BWT/BWT.py:128-142 | The loop ends as the recursive backward search says, and its outcome follows from that end. |
| Bwt.ProcuraPadraoBWT | BWT/BWT.py:112-142 | The method builds both tables and runs the backward search, giving the search's outcome. |
| BwtSearch.SearchCorrect | BWT/BWT.py:112-142 | For a sentinel-terminated text, the search raises `KeyError` exactly when Python would. Otherwise it lists, strictly increasing, exactly the positions where the pattern matches the text read cyclically. |
| BwtSearch.CyclicIsLinear | BWT/BWT.py:112-142 | For a pattern with no sentinel before its last symbol, a cyclic match is an occurrence and conversely. |
| BwtSearch.WrapAroundMatch | BWT/BWT.py:112-142 | As written, the search reports "$a" at 2 in "ab$", where it does not occur. |
| BwtSearch.LinearSearchCorrect | BWT/BWT.py:112-142 | The search's positions, filtered to matches inside the text, are exactly the occurrences of the pattern, in increasing order. |
| WordTrie.Trees.constructor | ProcuraPadroes/Tries.py:25-28 | A new object holds the word list and an empty trie. |
| WordTrie.Trees.Inserir | ProcuraPadroes/Tries.py:31-57 | The trie becomes the old one with every word inserted in order. The node returned is the one reached by the last word and is marked as a word end. |
| WordTrie.InsertFound | ProcuraPadroes/Tries.py:46-55 | After inserting a word, exactly the words stored before and the new word are stored. |
| WordTrie.InsertAllContains | ProcuraPadroes/Tries.py:31-57 | After `inserir`, a word is stored exactly when it was stored before or is in the list. |
| WordTrie.InsertAllTwice | ProcuraPadroes/Tries.py:31-57 | Inserting the same list twice gives the same trie as inserting it once. |
| WordTrie.Trees.Procurar | ProcuraPadroes/Tries.py:59-92 | `procurar` answers whether the word is stored. |
| WordTrie.Trees.Apagar | ProcuraPadroes/Tries.py:94-147 | The trie becomes the one `_apagar` leaves from the root, and it stays free of '$' letters. |
| WordTrie.DeleteFound | ProcuraPadroes/Tries.py:109-145 | A suffix stays stored below a node exactly when it was stored and does not start with the deleted rest, except at the word's end. |
| WordTrie.DeleteContains | ProcuraPadroes/Tries.py:94-147 | After `apagar(w)` a word stays stored exactly when it was stored and does not start with `w`; `w` itself is always gone. |
| WordTrie.DeleteAbsent | ProcuraPadroes/Tries.py:137-145 | Deleting a word whose path leaves the trie changes nothing. |
| WordTrie.DeleteAmorLosesAmora | ProcuraPadroes/Tries.py:129-135 | As written, deleting "amor" from the trie of ["amor", "amora"] also deletes "amora". |
| WordTrie.DeleteOnlyContains | ProcuraPadroes/Tries.py:109-147 | The corrected deletion removes the word and keeps every other stored word. |
| SuffixTrie.SuffixTree.constructor | ProcuraPadroes/Suffix_tree.py:18-24 | A new tree is an empty dictionary with end marker '$' and index 0. |
| SuffixTrie.AddSuffixCrash | ProcuraPadroes/Suffix_tree.py:38-54 | `_add_suffix` raises `TypeError` exactly when some prefix of the suffix already leads to a stored index. |
| SuffixTrie.AddSuffixKind | ProcuraPadroes/Suffix_tree.py:38-54 | After one insertion the suffix's end holds its index and every prefix is a dictionary path; every other path keeps its kind. |
| SuffixTrie.SuffixTree.BuildSuffixTree | ProcuraPadroes/Suffix_tree.py:26-36 | The tree becomes the one the loop builds by inserting every suffix followed by '$', in order. |
| SuffixTrie.BuildKind | ProcuraPadroes/Suffix_tree.py:26-54 | Building a text with '$' at most at its end never raises, and every path has the kind the suffixes predict. |
| SuffixTrie.StoredIndex | ProcuraPadroes/Suffix_tree.py:35-54 | Every start position of the text is stored under '$' at the end of its suffix followed by '$'. |
| SuffixTrie.SuffixTree.FindPattern | ProcuraPadroes/Suffix_tree.py:56-76 | `find_pattern` walks the pattern and collects below it, giving `None` off the tree, or the `TypeError` of walking into a stored index. |
| SuffixTrie.FindPatternAbsent | ProcuraPadroes/Suffix_tree.py:56-76 | On a built tree, `find_pattern` gives `None` exactly when the pattern is non-empty and starts at no position of the text. |
| SuffixTrie.FindPatternOccurs | ProcuraPadroes/Suffix_tree.py:56-98 | On a built tree, everything `find_pattern` returns hangs under '$' at the end of an extension of the pattern, and that extension starts at a position of the text. |
| SuffixTrie.CollectSound | ProcuraPadroes/Suffix_tree.py:78-98 | Every value `_collect_leaves` returns hangs under '$' at the end of a path without '$' below the node. |
| SuffixTrie.TreeOfAa | ProcuraPadroes/Suffix_tree.py:26-54 | The tree of "aa" holds the path "aa$" ending in `{'$': 0}` and the path "a$" ending in `{'$': 1}`. |
| SuffixTrie.FindPatternMissesStart | ProcuraPadroes/Suffix_tree.py:56-98 | In the tree of "aa" the pattern "a" starts at 0 and at 1, yet `find_pattern` returns only the dictionary `{'$': 1}`: it returns the '$' entries, not indices, and it misses 0. |
| SuffixTrie.IndicesSound | ProcuraPadroes/Suffix_tree.py:78-98 | Every index the corrected collection returns is stored at the end of some path below the node. |
| SuffixTrie.IndicesComplete | ProcuraPadroes/Suffix_tree.py:78-98 | Every index stored at the end of a path below the node is returned by the corrected collection. |
| SuffixTrie.FindStartsCorrect | ProcuraPadroes/Suffix_tree.py:56-76 | With the corrected collection, a pattern without '$' never raises. It gives `None` exactly when it is non-empty and starts nowhere in the text. Otherwise it gives exactly the positions where it starts, as the docstring promises. |
| SuffixTrie.SuffixTree.GetRepeats | ProcuraPadroes/Suffix_tree.py:124-142 | `get_repeats` returns the repeats found from the root with an empty prefix. |
| SuffixTrie.RepeatsSound | ProcuraPadroes/Suffix_tree.py:144-170 | Every reported repeat is a non-empty path without '$', at least `min_length` long, whose node collects at least `min_repeats` values. |
| SuffixTrie.RepeatsComplete | ProcuraPadroes/Suffix_tree.py:144-170 | Every such path is reported. |
| GraphModel.AddVertex | Grafos/Grafos.py:64-67 | A new vertex is added with an empty list; an existing vertex is left as it is. |
| GraphModel.AddEdgeSpec | Grafos/Grafos.py:69-77 | Adding an edge adds its endpoints, appends exactly one entry for `d` to `o`'s list, and leaves the other lists alone. The entry is plain exactly when the label is 'bin' and `d` is not listed plainly yet. |
| GraphModel.AddEdgeWellFormed | Grafos/Grafos.py:69-77 | Adding an edge keeps the key list and the dictionary in agreement, with every entry naming a vertex. |
| Graphs.MyGraph.constructor | Grafos/Grafos.py:19-22 | `MyGraph()` is the empty graph. |
| Graphs.MyGraph.AddVertexTo | Grafos/Grafos.py:64-67 | The object's graph becomes `AddVertex` of the old graph, and it stays well formed. |
| Graphs.MyGraph.AddEdgeTo | Grafos/Grafos.py:69-77 | The object's graph becomes `AddEdge` of the old graph, and it stays well formed. |
| Graphs.MyGraph.GetNodes | Grafos/Grafos.py:45-47 | The nodes are the dictionary's keys in insertion order. |
| Graphs.MyGraph.GetEdges | Grafos/Grafos.py:49-56 | `get_edges` lists every adjacency entry with its origin, in dictionary order. |
| GraphModel.EdgesCount | Grafos/Grafos.py:49-60 | There is one edge per stored entry. |
| GraphModel.EdgesMember | Grafos/Grafos.py:49-60 | An edge is listed exactly when the entry it reads is stored under its origin: `(o, d)` for the plain name `d`, `(o, d, p)` for the tuple `(d, p)`. |
| Graphs.MyGraph.Size | Grafos/Grafos.py:58-60 | The size is the number of vertices and the number of adjacency entries. |
| Graphs.MyGraph.GetSuccessors | Grafos/Grafos.py:81-87 | With `id` None, the successors are `n[0]` of each entry of `v`, in order. |
| GraphModel.SuccessorsFirstChar | Grafos/Grafos.py:84-87 | As written, after `add_edge("ab", "cd")` the successors of "ab" are ["c"]. |
| GraphModel.TargetsAreArcs | Grafos/Grafos.py:81-87 | The corrected successors of `v` are exactly the vertices `v` has an edge to, and each is a vertex. |
| GraphModel.SuccessorsShortNames | Grafos/Grafos.py:81-87 | On one-character names the successors as written and the corrected ones agree. |
| Graphs.MyGraph.GetPredecessors | Grafos/Grafos.py:90-99 | With `id` None, the predecessors list each vertex once per entry whose `n[0]` is `v`, in dictionary order. |
| GraphModel.PredecessorsMember | Grafos/Grafos.py:90-99 | `u` is a predecessor of `v` exactly when `u` is a vertex with an entry whose head is `v`. |
| Graphs.MyGraph.GetAdjacents | Grafos/Grafos.py:101-107 | The adjacents are the predecessors, followed by the successors not listed yet. |
| GraphModel.AddMissingSpec | Grafos/Grafos.py:104-107 | The adjacent list starts with the predecessors, holds exactly the items of both lists, and adds no successor twice. |
| Graphs.MyGraph.OutDegree | Grafos/Grafos.py:111-112 | The out-degree is the length of `v`'s adjacency list. |
| Graphs.MyGraph.InDegree | Grafos/Grafos.py:114-115 | The in-degree is the number of predecessors. |
| Graphs.MyGraph.Degree | Grafos/Grafos.py:117-118 | The degree is the number of adjacents. |
| Graphs.MyGraph.ReachableBfs | Grafos/Grafos.py:122-131 | The result is the discovery order of a first-in first-out search from `v` (`SearchOrder`). It lists each vertex reachable from `v` by at least one edge, other than `v`, exactly once, and in order of distance from `v`. |
| GraphSearch.SearchRound | Grafos/Grafos.py:125-131 | One round (pop the head, report it unless it is `v`, queue its unseen successors at the back or the front) keeps the search invariant. It reports a new vertex, or queues nothing when it pops `v` again. |
| GraphSearch.SearchOrder | Grafos/Grafos.py:122-144 | The discovery order of either search, round by round, extends what is already reported. |
| GraphSearch.SearchDone | Grafos/Grafos.py:125-131 | When the queue empties, the reported vertices are exactly those reachable from `v`, other than `v`. |
| GraphSearch.BfsOrderExample | Grafos/unittest_grafos.py:55-64 | On the unit test's graph (A -> B, B -> C, A -> D) the breadth-first order from A is B, D, C. |
| GraphSearch.DfsOrderExample | Grafos/Grafos.py:133-144 | On the same graph the depth-first order from A is B, C, D: C is queued in front of D. |
| GraphBfs.BfsByDistance | Grafos/Grafos.py:122-131 | The breadth-first order lists every vertex at distance `n` from `v` before any vertex at a greater distance. |
| GraphBfs.BfsExpand | Grafos/Grafos.py:125-131 | A round of `reachable_bfs` that expands a vertex does what `distance` does to its layered queue: the new successors other than `v` join one layer further, and the popped vertex is reported at the head's distance. |
| GraphBfs.FreshWithout | Grafos/Grafos.py:128-131 | Without `v`, the successors `reachable_bfs` queues are those `distance` would queue from the same seen vertices. |
| Graphs.MyGraph.ReachableDfs | Grafos/Grafos.py:133-144 | The result is the discovery order of the search that queues new successors in front (`SearchOrder`). It lists each vertex reachable from `v` by at least one edge, other than `v`, exactly once. |
| GraphSearch.SearchInvSwap | Grafos/Grafos.py:139-143 | Queueing at the front keeps the search invariant, just as queueing at the back does. |
| Graphs.MyGraph.Distance | Grafos/Grafos.py:146-157 | The result is defined exactly when a walk from `s` to `d` exists, and is then the length of the shortest walk (0 when `s` is `d`). |
| GraphDistance.LayerDone | Grafos/Grafos.py:150-157 | When the queue empties without meeting `d`, no walk leads from `s` to `d`. |
| Graphs.MyGraph.ShortestPath | Grafos/Grafos.py:159-171 | The result is [] when `s` is `d`. Otherwise it is defined exactly when `d` can be reached, and is a walk from `s` to `d` of shortest length. |
| Graphs.MyGraph.ReachableWithDist | Grafos/Grafos.py:173-182 | Each vertex reachable from `s` by at least one edge, other than `s`, is listed once, with the length of the shortest walk that reaches it. |
| GraphReach.ReachLayerStep | Grafos/Grafos.py:175-181 | One round keeps the queue's distances ordered and at most one apart. Recorded and queued vertices keep their shortest distances; a start vertex queued again through a cycle is the one exception. Every vertex closer than the head of the queue has been expanded. |
| GraphReach.ReachBelow | Grafos/Grafos.py:175-181 | Once the whole queue lies one layer beyond `n`, every vertex at most `n` edges from `s` has been expanded. |
| GraphReach.OneFurther | Grafos/Grafos.py:179-181 | A successor that was not seen when every closer vertex had been expanded is exactly one edge further than the vertex that queues it. |
| Graphs.MyGraph.NodeHasCycle | Grafos/Grafos.py:185-196 | The answer is true exactly when some walk of at least one edge leads from `v` back to `v`. |
| GraphSearch.CycleDone | Grafos/Grafos.py:189-196 | When the queue empties, the visited vertices are closed under edges and none has an edge back to `v`. |
| Graphs.MyGraph.HasCycle | Grafos/Grafos.py:198-202 | The answer is true exactly when some vertex lies on a cycle. |
| Graphs.IsInTupleList | Grafos/Grafos.py:205-209 | The answer is true exactly when some pair starts with `val`. |
| Weighted.WeightedGraph.constructor | Grafos/grafos_pesados.py:27-37 | `WeightedGraph()` is the empty graph. |
| Weighted.WeightedGraph.AddVertexTo | Grafos/grafos_pesados.py:47-57 | The graph becomes `AddVertexW` of the old graph, and it stays well formed. |
| WeightedModel.AddVertexWSpec | Grafos/grafos_pesados.py:56-57 | A vertex is added once, with no entries, and nothing else changes. |
| Weighted.WeightedGraph.AddEdgeTo | Grafos/grafos_pesados.py:59-76 | The graph becomes `AddEdgeW` of the old graph, and it stays well formed. |
| WeightedModel.AddEdgeWSpec | Grafos/grafos_pesados.py:72-76 | An edge adds its ends as vertices, appends exactly one entry `(d, w)` to `o`'s list (duplicates included), and leaves the other lists alone. |
| Weighted.WeightedGraph.GetEdges | Grafos/grafos_pesados.py:78-91 | `get_edges` lists every entry with its origin, in dictionary order. |
| WeightedModel.EdgesWMember | Grafos/grafos_pesados.py:87-91 | A triple `(o, d, w)` is listed exactly when `(d, w)` is an entry of `o`. |
| WeightedModel.EdgesWCount | Grafos/grafos_pesados.py:87-91 | There is one edge per stored entry, duplicates included. |
| Weighted.PopMin | Grafos/grafos_pesados.py:127 | `heappop` takes a least `(distance, vertex)` pair, in Python's tuple order. |
| Weighted.RelaxEdges | Grafos/grafos_pesados.py:134-139 | Each shorter distance through the entries of the current vertex is recorded and pushed, in order. |
| Weighted.WeightedGraph.Dijkstra | Grafos/grafos_pesados.py:105-141 | The distances cover exactly the vertices, with the start at 0. A finite distance is the least weight of a walk from the start, and an infinite one means no walk gets there. Every entry of a reached vertex ends relaxed. |
| DijkstraTheory.WalkBound | Grafos/grafos_pesados.py:126-132 | The least heap pair bounds the weight of every walk from the start that ends outside the expanded vertices. |
| DijkstraTheory.PopFresh | Grafos/grafos_pesados.py:127-132 | The least pair of a vertex not yet expanded carries its final distance. |
| DijkstraTheory.PopStale | Grafos/grafos_pesados.py:129-130 | Popping the pair of an already expanded vertex changes nothing else. |
| DijkstraTheory.RelaxCore | Grafos/grafos_pesados.py:134-139 | Relaxing one entry keeps the invariant, only lowers distances, changes no expanded vertex, and leaves the entry relaxed. |
| DijkstraTheory.DijkstraDone | Grafos/grafos_pesados.py:126-141 | When the heap is empty the distances are final: least walk weights where a walk exists, infinity exactly where none does. |
| Sorting.SortedFromSet | RedesMetabolicas/ReactionGraph.py:40 | `sorted(list(S))` lists the set `S` in order, each member once. |
| Metabolic.Metabolitos | RedesMetabolicas/ReactionGraph.py:26-40 | The result lists, sorted and once each, exactly the metabolites some reaction consumes or produces. |
| Metabolic.Consome | RedesMetabolicas/ReactionGraph.py:42-56 | Defined exactly for known reactions, where it is the consumed list; otherwise it is the `KeyError`. |
| Metabolic.Produz | RedesMetabolicas/ReactionGraph.py:58-72 | Defined exactly for known reactions, where it is the produced list; otherwise it is the `KeyError`. |
| Metabolic.Consomem | RedesMetabolicas/ReactionGraph.py:74-88 | The result lists exactly the reactions consuming `met`, in dictionary order. |
| Metabolic.Produzem | RedesMetabolicas/ReactionGraph.py:90-104 | The result lists exactly the reactions producing `met`, in dictionary order. |
| Metabolic.QueriesDistinct | RedesMetabolicas/ReactionGraph.py:42-162 | Each query lists each reaction once. A reaction consumes (produces) `met` exactly when `consome` (`produz`) of it holds `met`. |
| Metabolic.Mlig | RedesMetabolicas/ReactionGraph.py:106-124 | The result lists, sorted and once each, exactly the products of the reactions consuming `met`. |
| Metabolic.Rlig | RedesMetabolicas/ReactionGraph.py:126-144 | For a known reaction, the result lists, sorted and once each, exactly the reactions consuming one of its products. For an unknown reaction it is the `KeyError`. |
| Metabolic.AtivadasPor | RedesMetabolicas/ReactionGraph.py:146-162 | The result lists exactly the reactions all of whose reactants are given, in dictionary order. |
| Metabolic.ProduzidosPor | RedesMetabolicas/ReactionGraph.py:164-181 | When every reaction is known, the result lists, sorted and once each, exactly their products. Otherwise it is the `KeyError`. |
| Activation.RAtiv | RedesMetabolicas/ReactionGraph.py:212-238 | No metabolites give []. Otherwise the result is the sorted least set of reactions closed under activation from them. |
| Activation.LeastClosedUnique | RedesMetabolicas/ReactionGraph.py:212-238 | There is only one least closed set of reactions. |
| Activation.MAtiv | RedesMetabolicas/ReactionGraph.py:183-210 | No metabolites give []. Otherwise the result is the given metabolites plus the products of the activated reactions, which is the least set holding them that is closed under the products of enabled reactions. |
| Activation.LeastProducts | RedesMetabolicas/ReactionGraph.py:183-210 | The metabolites `m_ativ` ends with are the least set holding the initial ones and the products of every reaction they enable. |
| ReactionGraphs.NewReactionGraph | Grafos/RedesMetabol.py:8-11 | `ReactionGraph(reactions)` is the empty graph, filled from the text when one is given. |
| ReactionGraphs.AddReaction | Grafos/RedesMetabol.py:13-28 | The graph becomes the one the two loops of `add_reaction` build. |
| ReactionGraphs.ReactantEdgesSpec | Grafos/RedesMetabol.py:16-21 | The reactant loop adds the reactants as vertices and exactly the edges from each to the reaction, plus the edges back for a reversible reaction. |
| ReactionGraphs.ProductEdgesSpec | Grafos/RedesMetabol.py:23-28 | The product loop adds the products as vertices and exactly the edges from the reaction to each, plus the edges back for a reversible reaction. |
| ReactionGraphs.AddReactionSpec | Grafos/RedesMetabol.py:13-28 | `add_reaction` keeps the graph well formed and only appends to it. Its new vertices are the reaction and its metabolites, and its new edges are exactly the intended ones. |
| ReactionGraphs.ParseReactions | Grafos/RedesMetabol.py:31-47 | The graph becomes the one obtained by applying every line of the text, read by the pattern and split on `+`, in order. |
| ReactionGraphs.AddReadSpec | Grafos/RedesMetabol.py:41-47 | One matched line adds the intended reaction, or with `split_reactions` the two halves `_f` and `_b` of a reversible one, and nothing else. |
| ReactionGraphs.ApplyAllArcs | Grafos/RedesMetabol.py:31-47 | The edges `parse_reactions` adds are exactly those its matched lines are meant to add. |
| ReactionGraphs.ApplyAllVertices | Grafos/RedesMetabol.py:31-47 | The vertices `parse_reactions` adds are exactly those its matched lines name. |
| ReactionGraphs.ParseWritten | Grafos/RedesMetabol.py:31-47 | Parsing a text written for some reactions adds exactly their vertices and edges. |
| ReactionParse.SplitLines | Grafos/RedesMetabol.py:32 | `splitlines()` gives lines that hold no line break, and no lines exactly for the empty text. |
| ReactionParse.SplitJoinLines | Grafos/RedesMetabol.py:32 | Lines written one per `\n` are read back as they were. |
| ReactionParse.ParseLine | Grafos/RedesMetabol.py:33-36 | A line of whitespace only, or one without an arrow, does not match. |
| ReactionParse.ParseLineSound | Grafos/RedesMetabol.py:33-36 | In a matched line the name is a word and the reactants hold no arrow. Neither side starts with whitespace, and the reactants do not end with it. |
| ReactionParse.ParseRender | Grafos/RedesMetabol.py:33-36 | A line rendered from a name, an arrow and two sides of that form is matched with exactly those groups. |
| ReactionParse.SplitPlus | Grafos/RedesMetabol.py:38-39 | `re.split(r'\s*\+\s*', s)` always gives at least one piece. |
| ReactionParse.SplitJoinPlus | Grafos/RedesMetabol.py:38-39 | Items joined with `" + "` are split back into the same items. |
| ReactionParse.ReadLineSound | Grafos/RedesMetabol.py:33-41 | A reaction read from a line has a word as its name and at least one piece on each side. |
| ReactionParse.ReadWriteLine | Grafos/RedesMetabol.py:33-41 | A line written for a reaction has no line break and reads back as that reaction. |
| ReactionParse.ReadWriteLines | Grafos/RedesMetabol.py:32-41 | A text written for some reactions reads back, line by line, as those reactions. |
| EvolMotifs.NewFinder | EA/ea.py:5-13 | The finder exists exactly when the sequences pass validation and the motif fits every sequence. The type is stored upper-cased. |
| EvolMotifs.ValidateSequences | EA/ea.py:15-26 | Validation passes exactly when every DNA (protein) sequence, upper-cased, uses only its alphabet. Any other type passes. The failure carries the type's message. |
| EvolMotifs.ValidateIgnoresCase | EA/ea.py:23-26 | Validation accepts lower-case letters exactly where it accepts their capitals. |
| EvolMotifs.ValidateMotifLength | EA/ea.py:28-30 | The check passes exactly when no sequence is shorter than the motif. |
| EvolMotifs.InitializePopulation | EA/ea.py:32-38 | The population has `population_size` individuals, each with one start per sequence that leaves room for a whole motif. |
| EvolMotifs.Windows | EA/ea.py:54 | One window per sequence and start; for a valid individual each window is the motif-length slice at its start. |
| EvolMotifs.MostFrequent | EA/ea.py:45 | The chosen symbol occurs in the column, and no symbol occurs more often. |
| EvolMotifs.BuildConsensus | EA/ea.py:41-46 | The consensus is defined exactly when every motif is long enough and there is at least one motif (or the length is 0). It has the motif length, and each of its symbols is a most frequent one of its column. |
| EvolMotifs.MatchScore | EA/ea.py:49-50 | The score is at most the length of either string. |
| EvolMotifs.MatchScoreSelf | EA/ea.py:49-50 | Two strings of equal length score their full length exactly when they are equal. |
| EvolMotifs.MatchScoreSymmetric | EA/ea.py:49-50 | The score does not depend on the order of its arguments. |
| EvolMotifs.FitnessBounds | EA/ea.py:53-57 | The fitness of a valid individual is defined and at most one point per position of every window. |
| EvolMotifs.FitnessOfEqualWindows | EA/ea.py:53-57 | When every window is the same, the fitness is the highest possible. |
| EvolMotifs.Crossover | EA/ea.py:67-70 | The child keeps the first parent before the cut point and the second parent from it on. |
| EvolMotifs.CrossoverValid | EA/ea.py:67-70 | The child of two valid parents is valid. |
| EvolMotifs.Mutate | EA/ea.py:73-77 | Below the rate, exactly the chosen gene gets the new start; otherwise nothing changes. A valid individual stays valid. |
| GibbsMotifs.Alphabet | Motifs/Gibbs_sampling.py:44-54 | The alphabet is defined exactly when the upper-cased type is DNA, RNA or PROTEIN, and is then "ACGT", "ACGU" or the 22 protein symbols. Otherwise it is the assertion's message. |
| GibbsMotifs.AlphabetDistinct | Motifs/Gibbs_sampling.py:49-54 | Every alphabet is non-empty and repeats no symbol. |
| GibbsMotifs.AlphabetIgnoresCase | Motifs/Gibbs_sampling.py:47-54 | The alphabet depends on the type's name only up to case. |
| GibbsMotifs.CheckSymbols | Motifs/Gibbs_sampling.py:80-82 | The symbol checks pass exactly when every symbol of every sequence is in the alphabet. The failure reports the first stray symbol. |
| GibbsMotifs.Probabilities | Motifs/Gibbs_sampling.py:89 | The column has a key for exactly the alphabet. Each value is count plus pseudocount over sequences plus pseudocounts, and all are positive when the pseudocount is. |
| GibbsMotifs.Matrix | Motifs/Gibbs_sampling.py:88-90 | There is one column per position of the sequences, none when there are no sequences, and each column's keys are the alphabet. |
| GibbsMotifs.Pwm | Motifs/Gibbs_sampling.py:56-91 | The matrix exists exactly when the lengths agree, the type is known and every symbol is in its alphabet. The failures come in that order, with their messages. |
| GibbsMotifs.GeneratePwm | Motifs/Gibbs_sampling.py:56-91 | The loops of `generate_pwm` give the matrix or the failure `Pwm` describes. |
| GibbsMotifs.Columns | Motifs/Gibbs_sampling.py:85-91 | The column loop builds the whole matrix. |
| GibbsMotifs.MatrixSumsToOne | Motifs/Gibbs_sampling.py:89 | Over an alphabet without repeats that holds every symbol, each column sums to 1. |
| GibbsMotifs.ColumnSumsToOne | Motifs/Gibbs_sampling.py:89 | A non-empty column over an alphabet without repeats has probabilities summing to 1. |
| GibbsMotifs.ColumnsSumToOne | Motifs/Gibbs_sampling.py:56-91 | Every column of a matrix `generate_pwm` returns is a probability distribution over the alphabet. |
| GibbsMotifs.Snips | Motifs/Gibbs_sampling.py:295 | There is one window per offset; window `k` is `seqs[k][p:p + w]` and never longer than `w`. |
| GibbsMotifs.NewSeqs | Motifs/Gibbs_sampling.py:210-229 | The result is defined exactly when the index names a sequence and the offsets fit the sequences. It is the windows of every other offset in order, and the named sequence. |
| GibbsMotifs.NewSeqsRestore | Motifs/Gibbs_sampling.py:228-229 | Putting the excluded window back in its place gives the windows of all the offsets. |
| GibbsMotifs.MaxCountFull | Motifs/Gibbs_sampling.py:296 | A column's best count reaches the number of windows exactly when the column is one symbol of the alphabet. |
| GibbsMotifs.Score | Motifs/Gibbs_sampling.py:293-296 | The score is defined exactly when the type is known and the offsets fit the sequences. Otherwise it is the assertion's message or the `IndexError`. |
| GibbsMotifs.ScoreBound | Motifs/Gibbs_sampling.py:293-296 | The score of `n` offsets with windows of width `w` is at most `n * w`. |
| GibbsMotifs.ScoreFull | Motifs/Gibbs_sampling.py:293-296 | The score reaches `n * w` exactly when the windows are one and the same string of length `w` over the alphabet (or `n * w` is 0). |

## Left out

- Printing, plotting and drawing are not modelled: `imprimirMatriz`, `vistaGrafica`, `print_tree`, `print_graph`, `visualize`, `visualize_network`, the scripts' `print` calls and the `input()` of the Boyer-Moore script. None of them changes state.
- Randomness becomes parameters. `InitializePopulation` takes the drawn starts, `Crossover` the cut point and `Mutate` the roll, index and new start.
- `select_parents` and `run` of the evolutionary finder are left out: they are a random loop over these operations. For the same reason the sampling parts of the Gibbs sampler are left out: `random_init_pos`, `random_seq`, `prob`, `prob_seq`, `roulette_wheel` and `gibbs_sampling`.
- Floating point is replaced by exact reals in `GibbsMotifs.Probabilities`. Python's rounding means its columns sum to 1 only up to rounding.
- Case folding is ASCII only (`PyStr.Upper`), and `\w` is ASCII letters, digits and `_` (`ReactionParse.IsWord`). Python's Unicode tables are not modelled.
- The `isinstance` assertions are left out, because the typed model cannot violate them. These are the list checks of `generate_pwm`, `new_seqs` and `validate_sequences`, and the string check of `alfabeto`.
- Motif lengths, widths, pseudocounts and edge weights are natural numbers. Negative values, which Python accepts, are not modelled.
- The fields of the `pwm` and `Gibbs` objects become parameters of the functions, because none of their methods changes them.
- `GibbsMotifs.NewSeqs`: the `IndexError` from the comprehension and the one from `seqs[seq_idx]` are one failure outcome.
- `Weighted.WeightedGraph.Dijkstra`: the heap is modelled by its contract (pop a least pair), not by `heapq`'s array layout. The start must be a vertex (Python raises `KeyError` after setting its distance).
- `Weighted.WeightedGraph.constructor` models `WeightedGraph()` only. The default dictionary shared between instances is not modelled.
- `Graphs.MyGraph.constructor` models `MyGraph()` only. Building from a dictionary and `id_graph` are left out, so `id` is None and successors and predecessors read `n[0]`.
- Graphs.MyGraph.ReachableBfs, ReachableDfs, Distance, ShortestPath, NodeHasCycle, HasCycle and ReachableWithDist require every adjacency entry to be a plain vertex name. A tuple entry would be looked up as a key and raise `KeyError`.
- Graphs.MyGraph.GetSuccessors, GetAdjacents, OutDegree, Degree, ReachableBfs, ReachableDfs, NodeHasCycle and ReachableWithDist require the vertex to be a key of the graph, and Distance and ShortestPath require it unless the two ends are equal. On any other vertex Python raises `KeyError` at `self.graph[v]`, and that failure is not modelled.
- Graphs.MyGraph.ReachableDfs and ReachableWithDist require no loop at the start vertex. With one, the source queues the start forever.
- Graphs.MyGraph.GetSuccessors, GetPredecessors, GetAdjacents, InDegree and Degree require the names they read `n[0]` of to be non-empty. On an empty name Python raises `IndexError`.
- `construct_metabolite_graph` of the reaction graph is not part of this model.
- The `ReactionGraph` subclass is modelled as module-level methods over `Graphs.MyGraph` (`ReactionGraphs.AddReaction`, `ParseReactions`, `NewReactionGraph`), since Dafny classes here do not inherit.
- ReactionParse.ParseLine models `re.match` on lines without line breaks, which are the only lines `splitlines` produces. Products keep trailing whitespace, because the greedy `(.*)` takes it before the final `\s*`.
- BoyerMooreSearch.BoyerMoore.Search requires a non-empty pattern: with the empty one the source never leaves alignment 0 (`EmptyPatternTable`). It is proved sound and increasing, not complete: it misses overlapping occurrences (`SearchAna`).
- FiniteAutomata.MatchesAreOccurrences states soundness only. The simplified table is not complete: "aab" over "aaab" falls back to state 1 on the third 'a' and misses the occurrence at 1 (`FiniteAutomata.MissedOccurrence`).
- SuffixTrie.SuffixTree.BuildSuffixTree requires the build not to raise. `BuildKind` shows that it does not raise for texts with '$' at most at the end, and `AddSuffixCrash` characterises when it does. The theorems about lookups and repeats are for a tree built from one such text into an empty root.
- SuffixTrie.SuffixTree.FindPattern models `find_pattern` as written, so it returns the '$' entries below the pattern and not the start indices its docstring promises, and it misses starts (see Findings). `SuffixTrie.FindStarts` is the lookup as documented.
- WordTrie.Trees.constructor, Procurar and Apagar require words without the letter '$', which would collide with the end-of-word key.
- WordTrie.Trees.Inserir with an empty word list returns `None` as its last node, where Python raises `UnboundLocalError`.
- Bwt.BWT.ObterSequenciaOriginal, Bwt.ProcuraPadraoBWT and Bwt.BWT.constructor leave out failure paths of the source. Every call the script makes avoids them.
  - `ObterSequenciaOriginal` requires the label and every first-column label to occur in the last column, the first column to be at least as long as the last, and fewer than `n` symbols to be recorded. On a label missing from the last column Python recurses until `RecursionError`. On a shorter first column it raises `IndexError` at `primeiraColuna[indice]`. With `n` or more symbols already recorded it returns at once or recurses forever (`Bwt.StaleListNeverReturns`, see Findings).
  - `ProcuraPadraoBWT` requires the sorted transform to hold the transform's symbols and the suffix array to have one entry per symbol. Otherwise Python can raise `KeyError` at `first_occurrence[symbol]` or `IndexError` at `suffix_array[i]`.
  - The constructor gives an empty occurrence dictionary. Python has no `dicionarioOcorrencias` until `criarDicionarioOcorrencias` runs, so `preencherLista` and `reporContadores` raise `AttributeError` before it, where the model does nothing.
- Bwt.BWT.ObterSequenciaOriginal states the recorded symbols as the walk only when the last column has no repeated label, which `preencherLista` guarantees.
- EvolMotifs.Crossover and EvolMotifs.Mutate take the drawn cut point and index as parameters that lie in range. `random.randint` raises `ValueError` when the range is empty: in `crossover` for parents with fewer than two genes (one sequence is enough for `run` to get there), and in `mutate` for an empty individual once the roll is below the rate. Those failures are not modelled.
- `EvolMotifs.BuildConsensus` breaks ties by taking the first most frequent symbol in column order. Python's choice depends on set iteration order. The fitness lemmas hold for any most frequent symbol.

## Findings

| source | as written | input that shows it | evidently intended | confidence | as-written member | corrected member |
|---|---|---|---|---|---|---|
| BWT/BWT.py:112-142 | The backward search reports positions where the pattern matches the text read cyclically, across the sentinel | "$a" in "ab$" is reported at 2, where it does not occur | only positions where the pattern occurs inside the text | not executed | BwtSearch.WrapAroundMatch | BwtSearch.LinearSearchCorrect |
| ProcuraPadroes/Tries.py:129-135 | `_apagar` answers "drop this node" at the end of the word even when the node has children | deleting "amor" from the trie of ["amor", "amora"] also deletes "amora" | drop the node only when nothing is left in it | not executed | WordTrie.DeleteAmorLosesAmora | WordTrie.DeleteOnlyContains |
| Grafos/Grafos.py:84-87 | With `id` None, `get_successors` returns `n[0]` of each entry, the first character of a plain name | after `add_edge("ab", "cd")` the successors of "ab" are ["c"] | the vertex each entry names | not executed | GraphModel.SuccessorsFirstChar | GraphModel.TargetsAreArcs |
| ProcuraPadroes/Suffix_tree.py:78-98 | `_collect_leaves` returns the value under '$' and stops at the first node that holds '$'. That value is a dictionary one level above a stored index, and the nodes below are not visited | `find_pattern("a")` on the tree of "aa" gives `[{'$': 1}]`, and the start 0 is missing | the start index of every suffix below the node | not executed | SuffixTrie.FindPatternMissesStart | SuffixTrie.FindStartsCorrect |
| BWT/BWT.py:79-97 | `listaSequenciaOriginal` is emptied only by `__init__`, and the pass stops only when the list holds exactly `n` symbols | inverting the transform of "ab$" (`n` = 3) on the object that has already recovered "TAGACAGAGA$" (11 symbols) recurses without end | the inverse starts from an empty list on every call | not executed | Bwt.StaleListNeverReturns | Bwt.BWT.InverterDeNovo |
