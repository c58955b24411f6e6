# classic_algs in Dafny

A verified model of the first four chapters of *classic_algs*, a Python
collection of textbook computer-science problems:

- **Chapter 1**:
  - the Fibonacci recursion and generator;
  - the 2-bit nucleotide compressor `CompressedGene`;
  - one-time-pad encryption with XOR.
- **Chapter 2**:
  - codon parsing and binary search over a gene;
  - the generic search library: linear and binary membership, the `Stack` and `Queue` frontiers, search nodes, `node_to_path`, depth-first and breadth-first search;
  - the grid maze;
  - the missionaries-and-cannibals puzzle.
- **Chapter 3**:
  - the constraint-satisfaction framework, with its backtracking search;
  - the map-colouring constraint;
  - the eight-queens constraint.
- **Chapter 4**: the `Edge` record and the undirected `Graph` class.

Each Python source file becomes one Dafny module:

| file | module |
|---|---|
| `fib.dfy` | `Fib` |
| `trivial_compress.dfy` | `TrivialCompress` |
| `unbreakable_encryption.dfy` | `UnbreakableEncryption` |
| `dna_search.dfy` | `DnaSearch` |
| `generic_search.dfy` | `GenericSearch` |
| `maze.dfy` | `Mazes` |
| `missionaries.dfy` | `Missionaries` |
| `csp.dfy` | `Csp` |
| `map_coloring.dfy` | `MapColoring` |
| `queens.dfy` | `Queens` |
| `edge.dfy` | `Edges` |
| `graph.dfy` | `Graphs` |

Two modules are shared by the others:

- `wrappers.dfy` holds the `Option` and `Result` types.
- `bitmath.dfy` holds powers of two and bit lengths.

The program's forms are kept:

- **Classes.** Objects whose fields the program updates in place are Dafny classes. Their methods state their whole new state. These are `CompressedGene`, `Stack`, `Queue`, `Maze`, `CSP` and `Graph`.
- **Loops.** The loops of the core that update state are methods with a loop, proved against a specification function: `fib_gen`, `_compress`, `decompress`, `string_to_gene`, `linear_contains`, both `binary_contains`, `node_to_path`, `dfs`, `bfs`, the loop shared by `mark` and `clear` (`Maze.Paint`), and the `CSP` methods `__init__`, `add_constraint`, `consistent` and `backtracking_search`.
- **Loops stated without a loop.** The nested loops of the queens test (ch3/queens.py:12-20) only decide a condition and return early; they are the quantified predicate `Queens.Satisfied` over all pairs of placed columns, and the map-colouring test is the predicate `MapColoring.Satisfied`. List comprehensions are functions. The loops of `_randomly_fill` and of the printing code are left out, as listed below.
- **Values.** Pure computations are functions over datatypes.
- **Exceptions.** Each Python exception the core can raise is an error result: `ValueError`, `KeyError`, `LookupError` and `IndexError`.

## Model

| member | source | states |
|---|---|---|
| `Fib.Fib` | ch1/fib.py:5-8 | fib(n) is at least 1 for n >= 1, and at least n - 1 for n >= 2 |
| `Fib.FibNonNegativeMonotone` | ch1/fib.py:5-8 | for natural n, `fib` is non-negative and never decreases by one step |
| `Fib.FibMonotone` | ch1/fib.py:5-8 | `fib` is monotone on the naturals: i <= j implies fib(i) <= fib(j) |
| `Fib.FibGen` | ch1/fib_generator.py:4-12 | the generator yields exactly n+1 values (one value when n <= 0), and the k-th of them is `fib(k)` |
| `Fib.YieldedNonDecreasing` | ch1/fib_generator.py:4-12 | the yielded sequence is non-negative and sorted ascending |
| `TrivialCompress.UpperString` | ch1/trivial_compress.py:8 | `gene.upper()` maps every character to its upper case and keeps the length |
| `TrivialCompress.Letter` | ch1/trivial_compress.py:24-32 | each 2-bit code decodes to a nucleotide letter whose code it is |
| `TrivialCompress.LetterOfCode` | ch1/trivial_compress.py:10-17 | decoding a letter's code gives back the letter |
| `TrivialCompress.PackedIsSentinelPlusCodes` | ch1/trivial_compress.py:7-17 | the packed integer is a leading sentinel bit above 2 bits per nucleotide, the first nucleotide highest |
| `TrivialCompress.PackedBitLength` | ch1/trivial_compress.py:7-17 | the packed integer of n nucleotides has bit length 2n+1 |
| `TrivialCompress.PackedPair` | ch1/trivial_compress.py:23-24 | `bit_string >> 2k & 0b11` is the code of the k-th nucleotide from the end |
| `TrivialCompress.DecompressPacked` | ch1/trivial_compress.py:21-35 | decompressing a packed gene gives the gene back |
| `TrivialCompress.FirstInvalid` | ch1/trivial_compress.py:8-19 | the index of the first character that is not A, C, G or T, or the length when there is none |
| `TrivialCompress.CompressedGene.Create` | ch1/trivial_compress.py:3-4 | construction succeeds exactly when the upper-cased gene has no invalid character. On success the bit string is the packed gene. Otherwise it fails with the first invalid character (`ValueError`). |
| `TrivialCompress.CompressedGene.Compress` | ch1/trivial_compress.py:6-19 | on success the bit string is the packed gene. On failure the error names the first invalid character, and the bit string holds the valid prefix shifted once more, as the loop leaves it. |
| `TrivialCompress.CompressedGene.Decompress` | ch1/trivial_compress.py:21-35 | the loop over the bit pairs, followed by the reversal, computes the decompressed string |
| `TrivialCompress.CompressedGene.ToString` | ch1/trivial_compress.py:37-38 | `str(gene)` is the decompressed gene |
| `TrivialCompress.CompressRoundTrip` | ch1/trivial_compress.py:3-35 | every valid gene compresses without error, and decompresses to its upper-cased form; the empty gene packs to 1 |
| `UnbreakableEncryption.RandomKey` | ch1/unbreakable_encryption.py:5-7 | a key made of n random bytes is below 2^(8n) |
| `UnbreakableEncryption.Encrypt` | ch1/unbreakable_encryption.py:10-15 | the first half is the random key, the second is the text read as a big-endian integer XOR that key; both fit in the text's byte width, and their XOR is the text |
| `UnbreakableEncryption.Decrypt` | ch1/unbreakable_encryption.py:18-21 | the output bytes read back to `key1 ^ key2`, have no leading zero byte, and number ceil(bit_length / 8) |
| `UnbreakableEncryption.FromBytes` | ch1/unbreakable_encryption.py:13 | `int.from_bytes(bs, "big")` of n bytes is below 2^(8n) |
| `UnbreakableEncryption.ToBytes` | ch1/unbreakable_encryption.py:20 | `x.to_bytes(n, "big")` has n bytes |
| `UnbreakableEncryption.Xor` | ch1/unbreakable_encryption.py:14 | XOR with 0 is the identity, and a number XOR itself is 0 |
| `UnbreakableEncryption.XorCancel` | ch1/unbreakable_encryption.py:14 | XOR with the same key twice is the identity |
| `UnbreakableEncryption.XorBound` | ch1/unbreakable_encryption.py:14 | XOR of two k-bit numbers is a k-bit number |
| `UnbreakableEncryption.ToBytesFromBytes` | ch1/unbreakable_encryption.py:13 | `int.to_bytes(int.from_bytes(bs), len(bs))` gives bs back |
| `UnbreakableEncryption.FromBytesToBytes` | ch1/unbreakable_encryption.py:20 | `int.from_bytes(x.to_bytes(n))` gives x back when x fits in n bytes |
| `UnbreakableEncryption.DecryptFacts` | ch1/unbreakable_encryption.py:19-20 | converting to ceil(bit_length / 8) bytes loses nothing and gives no leading zero byte |
| `UnbreakableEncryption.RoundTrip` | ch1/unbreakable_encryption.py:10-21 | decrypting an encryption gives back the original bytes whatever the key, when they do not start with a zero byte |
| `UnbreakableEncryption.LeadingZeroLost` | ch1/unbreakable_encryption.py:20 | a text that starts with a zero byte comes back without it |
| `DnaSearch.Value` | ch2/dna_search.py:4 | the enum values of A, C, G and T lie in 1..4 |
| `DnaSearch.ValueInjective` | ch2/dna_search.py:4 | distinct nucleotides have distinct enum values |
| `DnaSearch.Lookup` | ch2/dna_search.py:18-19 | `Nucleotide[ch]` succeeds exactly for the four letter names |
| `DnaSearch.LookupName` | ch2/dna_search.py:4 | looking up a nucleotide's name gives the nucleotide |
| `DnaSearch.CodonOf` | ch2/dna_search.py:18-19 | a codon is built exactly when all three characters are nucleotide names, and otherwise it fails at the first one that is not (`KeyError`) |
| `DnaSearch.StringToGene` | ch2/dna_search.py:13-21 | the loop over the string in steps of three computes the gene function |
| `DnaSearch.GeneOfSpells` | ch2/dna_search.py:13-21 | a parsed gene has one codon per full triple, and spells exactly the string without its trailing partial codon |
| `DnaSearch.SpellRoundTrip` | ch2/dna_search.py:13-21 | parsing a gene's spelling gives the gene back |
| `DnaSearch.GeneOfError` | ch2/dna_search.py:13-21 | parsing fails exactly when some character within the full triples is not a nucleotide, and it reports the first such character |
| `DnaSearch.GeneOf` | ch2/dna_search.py:13-21 | a parsed gene has one codon per full triple of the string, and a failure names a character of the string |
| `DnaSearch.CodonLess` | ch2/dna_search.py:29-31 | tuple comparison `<` of codons never holds between a codon and itself |
| `DnaSearch.CodonOrder` | ch2/dna_search.py:29-31 | tuple comparison of codons is a strict total order |
| `DnaSearch.BinaryContains` | ch2/dna_search.py:24-35 | on a sorted gene, the search answers true exactly when the codon occurs in it |
| `GenericSearch.LinearContains` | ch2/generic_search.py:7-11 | the answer is true exactly when the key occurs in the sequence |
| `GenericSearch.BinaryContains` | ch2/generic_search.py:34-45 | on a sequence sorted by a strict total order, the answer is true exactly when the key occurs in it |
| `GenericSearch.Stack.constructor` | ch2/generic_search.py:49-50 | a new stack is empty |
| `GenericSearch.Stack.Empty` | ch2/generic_search.py:52-54 | `empty` holds exactly when the container has no element |
| `GenericSearch.Stack.Push` | ch2/generic_search.py:56-57 | push appends the item at the top |
| `GenericSearch.Stack.Pop` | ch2/generic_search.py:59-60 | pop removes and returns the most recently pushed item |
| `GenericSearch.Queue.constructor` | ch2/generic_search.py:88-89 | a new queue is empty |
| `GenericSearch.Queue.Empty` | ch2/generic_search.py:91-93 | `empty` holds exactly when the container has no element |
| `GenericSearch.Queue.Push` | ch2/generic_search.py:95-96 | push appends the item at the back |
| `GenericSearch.Queue.Pop` | ch2/generic_search.py:98-99 | pop removes and returns the oldest item |
| `GenericSearch.PathShape` | ch2/generic_search.py:66-72 | a node's path has depth+1 states, from the root's state to the node's own state |
| `GenericSearch.NodeToPath` | ch2/generic_search.py:78-84 | walking the parent links and reversing gives the path from the root to the node |
| `GenericSearch.ValidNodePath` | ch2/generic_search.py:115-119 | a node built by expanding successors from the initial state has a path that starts at the initial state and follows successor steps |
| `GenericSearch.Dfs` | ch2/generic_search.py:105-120 | dfs returns a goal node whose path is a successor path from the initial state. `None` means that no such path ends in a goal. The states pushed are distinct and all reachable from the initial state; they include the state of the returned node, and after `None` they include every reachable state. |
| `GenericSearch.Bfs` | ch2/generic_search.py:123-138 | bfs returns a goal node whose path is a successor path from the initial state, and no goal is reachable by a shorter path. `None` means that no such path ends in a goal. The states pushed are distinct and all reachable from the initial state; they include the state of the returned node, and after `None` they include every reachable state. |
| `GenericSearch.Shortest` | ch2/generic_search.py:128-132 | once every state within the current level has been popped and none was a goal, the node being popped has a path no longer than any path to a goal |
| `GenericSearch.Exhausted` | ch2/generic_search.py:128-138 | when the frontier runs empty, no path from the initial state reaches a goal, and every state at the end of such a path has been pushed |
| `Mazes.Layout` | ch2/maze.py:29-31 | the grid has the given shape, with the blocked cells where the blocked set says and empty cells elsewhere |
| `Mazes.Maze.constructor` | ch2/maze.py:22-33 | the fields are the arguments; the goal cell is `GOAL`, the start cell is `START` unless it is the goal, and every other cell is blocked or empty as given |
| `Mazes.Maze.GoalTest` | ch2/maze.py:47-48 | a location passes the goal test exactly when it is the goal |
| `Mazes.NeighboursSpec` | ch2/maze.py:50-60 | the candidates kept are exactly the in-grid, non-blocked locations one step from ml, each once |
| `Mazes.Maze.Successors` | ch2/maze.py:50-60 | the successors are exactly the in-grid, non-blocked locations one step away, without repetition |
| `Mazes.PaintedAt` | ch2/maze.py:62-72 | after painting, the goal cell is `GOAL`, the start cell is `START`, the path cells carry the paint, and every other cell is unchanged |
| `Mazes.Maze.Mark` | ch2/maze.py:62-66 | the new grid is the old one with the path painted `PATH` and then start and goal restored |
| `Mazes.Maze.Clear` | ch2/maze.py:68-72 | the new grid is the old one with the path painted `EMPTY` and then start and goal restored |
| `Mazes.MarkThenClear` | ch2/maze.py:62-72 | clearing a path after marking it restores the grid, when the path ran over empty cells only |
| `Mazes.ManhattanDistance` | ch2/maze.py:83-88 | the Manhattan distance to the goal is zero exactly at the goal |
| `Mazes.ManhattanMetric` | ch2/maze.py:83-88 | the Manhattan distance is symmetric and obeys the triangle inequality |
| `Mazes.ManhattanStep` | ch2/maze.py:83-88 | one step to a neighbouring location changes the distance to the goal by exactly one |
| `Missionaries.NewState` | ch2/missionaries.py:10-15 | the west bank gets the given counts and the east bank holds the rest of the three and three |
| `Missionaries.IsLegal` | ch2/missionaries.py:23-28 | a state is legal exactly when, on each bank, the missionaries are absent or not outnumbered by cannibals |
| `Missionaries.GoalTest` | ch2/missionaries.py:30-31 | for a state whose banks hold everyone, the goal holds exactly when the west bank is empty |
| `Missionaries.Gather` | ch2/missionaries.py:35-56 | the candidate states are exactly the moves allowed by the boat's bank, applied to the state |
| `Missionaries.FilterLegal` | ch2/missionaries.py:57 | the filter keeps exactly the legal candidates |
| `Missionaries.Successors` | ch2/missionaries.py:33-57 | the successors are exactly the legal candidates, at most five of them |
| `Missionaries.SuccessorsAreCrossings` | ch2/missionaries.py:23-57 | every successor is legal and is a crossing that carries one or two people from the boat's bank |
| `Missionaries.SuccessorsInRange` | ch2/missionaries.py:33-57 | from a state in range, every successor stays in range |
| `Missionaries.CrossingsAreSuccessors` | ch2/missionaries.py:33-57 | every legal in-range crossing from an in-range state is offered as a successor |
| `Missionaries.StatesClosed` | ch2/missionaries.py:33-57 | the 32 balanced in-range states contain the start and are closed under successors |
| `Missionaries.SolutionExists` | ch2/missionaries.py:74-77 | an eleven-trip crossing plan exists from the start |
| `Missionaries.Solve` | ch2/missionaries.py:74-81 | bfs from the start finds a plan that ends in the goal, is a chain of successors, and is shortest |
| `Csp.Attach` | ch3/csp.py:31-35 | attaching a constraint keeps the keys of the constraint table |
| `Csp.AttachAt` | ch3/csp.py:31-35 | each variable's list gains the constraint once per occurrence of the variable in the scope |
| `Csp.CSP.Create` | ch3/csp.py:19-28 | construction succeeds exactly when every variable has a domain, and otherwise raises `LookupError`. On success every variable has an empty constraint list. |
| `Csp.CSP.AddConstraint` | ch3/csp.py:30-35 | it fails with `LookupError` exactly when a scope variable is not a variable of the problem. The constraint is appended to the lists of the scope variables before the first missing one. |
| `Csp.CSP.AddConstraintAttached` | ch3/csp.py:30-35 | after a successful add, the constraint is on the list of each of its variables, and every stored constraint is on the list of each of its variables |
| `Csp.CSP.Consistent` | ch3/csp.py:37-41 | it fails with `KeyError` exactly when the variable has no constraint list; otherwise it answers true exactly when every constraint on the variable's list is satisfied |
| `Csp.CSP.Unassigned` | ch3/csp.py:47-48 | the unassigned list holds exactly the variables without a value, and its head is one |
| `Csp.CSP.BacktrackingSearch` | ch3/csp.py:43-60 | a result extends the given assignment. On a proper assignment (distinct variables, keys among them), the search does not fail, a result assigns every variable, and a result satisfies every constraint when the constraints are local and the start was consistent. `None` means no solution extends the assignment, when constraints stay satisfied as values are removed. The only error is `IndexError`. |
| `Csp.CSP.TryDomain` | ch3/csp.py:52-60 | the loop over the first unassigned variable's domain gives the same guarantees as the search |
| `Csp.CSP.TryValue` | ch3/csp.py:53-59 | one value either leads to a result with those guarantees, or leaves no solution with that value assigned |
| `Csp.CSP.FullWhenSameSize` | ch3/csp.py:44-45 | for a proper assignment, having as many entries as variables means assigning every variable |
| `Csp.CSP.CheckedStep` | ch3/csp.py:55 | checking only the new variable's constraints keeps every constraint of every assigned variable satisfied |
| `Csp.CSP.RejectedHasNoSolution` | ch3/csp.py:55 | a value rejected by a constraint of its variable extends to no solution |
| `Csp.CSP.AllValuesFail` | ch3/csp.py:52-60 | when no value of the first unassigned variable extends to a solution, no solution extends the assignment |
| `MapColoring.MapColoringConstraint` | ch3/map_coloring.py:6-9 | the constraint's scope is the two regions, and its test is `satisfied` |
| `MapColoring.Satisfied` | ch3/map_coloring.py:11-14 | the constraint fails exactly when both regions are coloured and their colours are equal |
| `MapColoring.Symmetric` | ch3/map_coloring.py:11-14 | swapping the two regions does not change the test |
| `MapColoring.ConstraintLocal` | ch3/map_coloring.py:11-14 | the test reads only the two regions of its scope |
| `MapColoring.ConstraintDownClosed` | ch3/map_coloring.py:11-14 | uncolouring regions never breaks the constraint |
| `MapColoring.OnlyMapColoring` | ch3/map_coloring.py:11-14 | a problem built from map-colouring constraints meets the conditions under which the search is sound and complete |
| `Queens.SatisfiedAsWritten` | ch3/queens.py:10-21 | the test as written still rejects two placed queens in one row |
| `Queens.Satisfied` | ch3/queens.py:10-21 | the corrected test holds exactly when no placed queen attacks a queen in a later column up to n |
| `Queens.QueensConstraint` | ch3/queens.py:5-8 | the constraint's scope is the column list, and its test is the corrected `satisfied` |
| `Queens.AsWrittenMissesDiagonal` | ch3/queens.py:19 | the diagonal test as written accepts two queens on one diagonal |
| `Queens.AsWrittenRejectsSafe` | ch3/queens.py:19 | the diagonal test as written rejects two queens that do not attack each other |
| `Queens.ClashIffAttacks` | ch3/queens.py:17-20 | with the columns compared, a pair fails exactly when the two queens attack each other |
| `Queens.AttacksSymmetric` | ch3/queens.py:17-20 | attacking is symmetric |
| `Queens.SatisfiedIffNoAttack` | ch3/queens.py:10-21 | with columns in 1..n, the corrected test holds exactly when no two placed queens attack each other |
| `Queens.SameRowRejected` | ch3/queens.py:17-18 | two queens in one row are rejected, both as written and corrected |
| `Queens.AtMostOneQueen` | ch3/queens.py:10-21 | with at most one queen placed, both tests hold |
| `Queens.RemovingQueensKeepsSatisfied` | ch3/queens.py:10-21 | removing queens never breaks either test |
| `Queens.QueensConstraintFits` | ch3/queens.py:10-21 | the corrected constraint is local to its columns and survives removing queens, so backtracking search over it is sound and complete |
| `Edges.Reversed` | ch4/edge.py:10-11 | the reversed edge swaps the two ends |
| `Edges.ReversedTwice` | ch4/edge.py:10-11 | reversing twice gives the edge back |
| `Edges.ReversedFixed` | ch4/edge.py:10-11 | an edge is its own reverse exactly when it is a loop |
| `Edges.ToString` | ch4/edge.py:13-14 | `str(edge)` has at least four characters, starts with a minus sign exactly when the first end is negative, and ends with a digit |
| `Edges.IntRoundTrip` | ch4/edge.py:13-14 | reading back the decimal text of an int gives the int |
| `Edges.ToStringRoundTrip` | ch4/edge.py:13-14 | the text `u->v` reads back to the edge |
| `Edges.ToStringInjective` | ch4/edge.py:13-14 | distinct edges print differently |
| `Graphs.Graph.constructor` | ch4/graph.py:12-14 | the graph holds the given vertices, each with an empty edge list, and no edges |
| `Graphs.Graph.VertexCount` | ch4/graph.py:16-18 | the vertex count is the number of vertices, and in a consistent graph the number of edge lists |
| `Graphs.Graph.EdgeCount` | ch4/graph.py:20-22 | the edge count is zero exactly when every edge list is empty |
| `Graphs.TotalLengthUpdate` | ch4/graph.py:20-22 | replacing one edge list changes the edge count by the difference in its length |
| `Graphs.Graph.AddVertex` | ch4/graph.py:25-28 | the vertex and an empty edge list are appended, and the returned index is the new vertex's index; the edge count does not change |
| `Graphs.Graph.AddEdge` | ch4/graph.py:31-33 | the edge is appended to its first end's list, then its reverse to its second end's list, with Python's negative indexing. An end out of range raises `IndexError`, after the first append when only the second end is out of range. |
| `Graphs.Graph.AddEdgeByIndices` | ch4/graph.py:35-37 | it succeeds exactly when both indices are in range, and then adds two edge entries. With non-negative indices, u's neighbours gain v (twice over for a loop), and each end becomes a neighbour of the other. |
| `Graphs.AppendAtCount` | ch4/graph.py:32-33 | each append adds one to the edge count |
| `Graphs.AddEdgeNeighbors` | ch4/graph.py:31-33 | after the edge (u, v) is added, u's neighbours are its old ones followed by v, and by u again for a loop |
| `Graphs.BothNeighbors` | ch4/graph.py:31-33 | after the edge (u, v) is added, each end is a neighbour of the other |
| `Graphs.Graph.AddEdgeByVertices` | ch4/graph.py:39-42 | it fails with `ValueError` and no change when either vertex is missing. Otherwise the edge between their first indices is added, and each vertex becomes a neighbour of the other. |
| `Graphs.Graph.VertexAt` | ch4/graph.py:45-46 | it returns the vertex at the Python index, and raises `IndexError` exactly when the index is out of range |
| `Graphs.Graph.IndexOf` | ch4/graph.py:49-50 | it returns the index of the first occurrence of the vertex, and raises `ValueError` exactly when the vertex is absent |
| `Graphs.Graph.EdgesForIndex` | ch4/graph.py:58-59 | it returns the edge list at the Python index, and raises `IndexError` exactly when the index is out of range |
| `Graphs.Graph.EdgesForVertex` | ch4/graph.py:61-62 | it returns the edge list of the vertex's first index, and raises `ValueError` when the vertex is absent |
| `Graphs.Graph.NeighborsForIndex` | ch4/graph.py:52-53 | the k-th neighbour is the vertex at the far end of the k-th edge. The index being out of range raises `IndexError`. On a graph whose edges all start at their own list's index and end in range, the call succeeds. |
| `Graphs.Graph.NeighborsForVertex` | ch4/graph.py:55-56 | it raises `ValueError` for a missing vertex; otherwise it gives the neighbours of the vertex's first index |

## Left out

- A* search, its priority queue and `Node.__lt__`: they rest on floating-point costs and heuristics. So do the floating-point `cost` and `heuristic` fields of `Node` and `euclidian_distance`. `manhattan_distance` is modelled over integers.
- Randomness becomes a parameter:
  - `secrets.token_bytes` is the `tokenBytes` argument of `RandomKey` and `Encrypt`.
  - The random blocking of `Maze._randomly_fill` is the `blocked` set given to the maze constructor.
- Text encoding is not modelled. `str.encode` and `bytes.decode` (UTF-8) are outside the model: encryption works on byte sequences.
- `TrivialCompress.UpperString`: upper-cases ASCII letters only. Python's `str.upper` also maps other Unicode letters, some to more than one character.
- `UnbreakableEncryption.RoundTrip`: requires that the bytes do not start with a zero byte. `decrypt` sizes its output by the bit length of the number, so a leading zero byte is dropped; `LeadingZeroLost` exhibits it.
- The memoizing `lru_cache` on `fib` is not modelled, since it changes no result.
- Printing is not modelled:
  - all `__main__` demonstrations;
  - `display_solution`;
  - `__repr__` of the frontiers;
  - `__str__` of `Maze`, `MCState` and `Graph`.
  - The eight-queens and map-colouring demo problems are not built either.
- `word_search.py` is not part of this model.
- The default comparison methods of the `Comparable` protocol are not modelled. `GenericSearch.BinaryContains` takes the element order as a strict total order `less`, and reads `a > b` as `less(b, a)`.
- `GenericSearch.BinaryContains` and `DnaSearch.BinaryContains`: require a sorted input. On unsorted input the answer is not specified.
  - The demo of ch2/dna_search.py:42 sorts the gene before searching it.
  - The demo of ch2/generic_search.py:143 does not: its list `["a", "d", "ะต", "f", "z"]` has a non-Latin third element that sorts after `"f"`. The search then narrows to the first two elements and answers false, although `"f"` is in the list and the comment there expects true. The demo lines are not part of the model.
- `GenericSearch.Stack.Pop` and `GenericSearch.Queue.Pop`: require a non-empty container. Popping an empty Python list or deque raises `IndexError`, but `dfs` and `bfs` pop only after testing `empty`.
- `GenericSearch.Dfs` and `GenericSearch.Bfs`:
  - They take a ghost finite set of states that holds the initial state and is closed under successors.
  - With it, termination can be proved. The Python loops run forever on an infinite state space without a goal.
  - The goal test and the successor function are total functions without side effects.
- `Missionaries.Solve`:
  - `MCState` defines no `__eq__` or `__hash__`, so Python's `explored` set compares states by identity. The Python `bfs` therefore never recognises a repeated state, and searches a tree.
  - The model compares states by value, which prunes repeats. The length of the shortest plan is the same either way.
- `Mazes.Maze.constructor`: requires the start and the goal inside the grid. Python would raise `IndexError`, or wrap a negative index to the other side.
- `Mazes.Maze.Successors`: requires the location inside the grid.
- `Mazes.Maze.Successors`: states the successors as a set without repetition. The order in which they are listed is not stated: down, up, right, left, as `Mazes.Around` lists them.
- `Mazes.Maze.Mark` and `Mazes.Maze.Clear`: require every path location inside the grid.
- The graph's aliasing is not modelled:
  - `Graph.__init__` stores the caller's vertex list itself, so later `add_vertex` calls also grow the caller's list.
  - The mutable default argument `[]` is shared by every graph built without vertices.
  - The model copies values.
- Graph edges with negative or out-of-range ends: `add_edge` stores such an edge, and a later `neighbors_for_index` may then raise `IndexError` or wrap around. `Graphs.Graph.NeighborsForIndex` states the far ends for any stored edges. The stronger guarantees of `AddEdgeByIndices` are stated for non-negative indices only.
- `Csp.Constraint`: a constraint is its scope together with a total, side-effect-free test, standing for the abstract `satisfied` method. Constraint objects are compared by value rather than identity.
- `Csp.CSP.BacktrackingSearch`: its guarantees are implications. They hold when the variables are listed once each and the assignment only uses them, because otherwise `len(assignment) == len(self.variables)` does not mean complete.
  - Soundness further needs constraints that read only their own scope.
  - Completeness further needs constraints that stay satisfied when values are removed.
  - `MapColoring.OnlyMapColoring` and `Queens.QueensConstraintFits` show that both constraint kinds of the program meet these conditions.
  - The default argument `{}` is the caller passing an empty map.

## Findings

| source | as written | input that shows it | evidently intended | confidence | as-written member | corrected member |
|---|---|---|---|---|---|---|
| ch3/queens.py:19 | the diagonal test compares `abs(q1r - q2r)` with `abs(q1c - q2r)`, mixing the first queen's column with the second queen's row | `{2: 1, 3: 2}` (a shared diagonal) is accepted; `{1: 1, 3: 4}` (no attack) is rejected | compare with `abs(q1c - q2c)`, the distance between the two columns | not executed | `Queens.AsWrittenMissesDiagonal`, `Queens.AsWrittenRejectsSafe` (over `Queens.SatisfiedAsWritten`) | `Queens.SatisfiedIffNoAttack` (over `Queens.Satisfied`, which `Queens.QueensConstraint` uses) |
