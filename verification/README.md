# Word search with a trie and an AVL tree — a Dafny model

The program is a word-search game written in C. It reads a square board of
letters and a word list. The words go into a 26-way trie, the dictionary.
The board is then scanned along rows, columns and both diagonals, in both
directions. Every dictionary word of two or more letters that the board
spells goes into an AVL tree. The tree maps the word to the span
`(linha_inicio, coluna_inicio) -> (linha_fim, coluna_fim)` where it was
first seen. The AVL tree also supports removal and lookup.

This project models the three pieces of logic and proves their properties:

- `lex.dfy` (module `Lex`): the `strcmp` order on strings.
- `avl.dfy` (module `Avl`): `avl.c`. The tree is an immutable datatype with a
  cached height per node. Rotations, insertion, removal with the in-order
  successor, the leftmost-node helper and lookup are pure functions. Each
  contract states the invariants the operation keeps (BST order, cached
  heights, AVL balance), the word-to-span map it produces and its height change.
- `avl_props.dfy` (module `AvlProps`): whole-tree consequences. The in-order
  listing is strictly ascending and lists exactly the stored words. Lookup
  after insert and after remove is characterised. Insert and remove are
  idempotent. Removing every inserted word empties the tree.
- `trie.dfy` (module `Trie`): `trie.c`. Insertion skips characters that are
  not letters. Lookup rejects them. Both fold upper case to lower case.
- `wordsearch.dfy` (module `WordSearch`): `jogo.c`. `inverter_string` is a
  method with loop invariants. Each scanning pass is the list of
  (row, column, length) segments its loops visit. Each segment is expanded
  into its forward word and its reversal. A left fold offers every candidate
  to the tree: it is inserted when the dictionary holds it and the tree does
  not.
- `scan_props.dfy` (module `ScanProps`): what `buscar_palavras` returns. Every
  entry is a dictionary word spelled along a straight line of the board by
  its span. Every such word is found. The span kept is that of the first
  occurrence in scan order. A palindrome keeps its forward span. An empty
  dictionary finds nothing.
- `examples.dfy` (module `Examples`): concrete consequences.
  - A hyphenated dictionary word.
  - Prefixes and extensions of a stored word.
  - The board `cat / abc / txx` with the dictionary {cat, tac}. It yields
    exactly `cat -> (0,0,0,2)` and `tac -> (0,2,0,0)`. The vertical "cat" in
    column 0 comes later and is skipped.

Strings compare with `Lex.Strcmp`, which returns -1, 0 or 1. The C `strcmp`
promises only the sign, and every call site uses only the sign.

## Model

| member | source | states |
|---|---|---|
| Lex.Strcmp | avl.c:84 | the comparison yields -1, 0 or 1 and is 0 exactly when the strings are equal |
| Lex.StrcmpAntisymmetric | avl.c:84 | swapping the operands negates the comparison, so `cmp < 0` and `cmp > 0` are mirror cases |
| Lex.LessTrichotomy | avl.c:84-97 | of two strings one is smaller or they are equal, never both smaller, and no string is smaller than itself: the three branches of `inserir_avl` are exhaustive and exclusive |
| Lex.LessTransitive | avl.c:84-93 | the `strcmp` order is transitive, which the BST order needs |
| Avl.Content | avl.h:12-19 | the word-to-span map of a tree has exactly the tree's words as keys |
| Avl.InOrder | avl.c:220-230 | the (word, span) list of the left-node-right walk of `imprimir_avl_recursivo`; AvlProps.InOrderKeys, KeysListed, InOrderSpans and InOrderAscending state that it lists exactly the stored words, each with its span, in strictly ascending `strcmp` order |
| Avl.UpdateHeight | avl.c:25-31 | refreshing the root height leaves the words, spans and order untouched; it makes the cached heights correct when the children's already are, and changes nothing on a tree whose heights are correct |
| Avl.HeightIsDepth | avl.c:13-16 | when cached heights are correct, `altura` equals the true depth of the subtree, 0 for an absent one |
| Avl.Height | avl.c:13-16 | `altura`: the cached height of a node, 0 for NULL; Avl.HeightIsDepth states that on a tree with correct cached heights it is the true depth |
| Avl.BalanceFactor | avl.c:19-22 | `fator_balanceamento`: left height minus right height, 0 for NULL; Avl.Balanced bounds it by ±1 at every node, and the rebalancing lemmas state that a node at ±2 is brought back within the bound |
| Avl.RotateRight | avl.c:34-46 | the right rotation regroups the three subtrees around the two nodes, keeps the in-order (word, span) list, word set and map, and yields correct heights when the subtrees had them |
| Avl.RotateLeft | avl.c:49-61 | the mirror statement for the left rotation |
| Avl.RotateRightOrdered | avl.c:34-46 | a right rotation of a BST is a BST |
| Avl.RotateLeftOrdered | avl.c:49-61 | a left rotation of a BST is a BST |
| Avl.Reassociate | avl.c:34-61 | moving the middle subtree across the two rotated nodes leaves the in-order list, word set and map unchanged |
| Avl.OrderedDisjoint | avl.h:12-19 | in a BST the root word is in neither subtree and the subtrees share no word |
| Avl.SingleRightSound | avl.c:102-105 | left-left case: one right rotation restores balance, and the height is that of the old left child, plus one when that child was even |
| Avl.SingleLeftSound | avl.c:107-110 | right-right case: the mirror statement for one left rotation |
| Avl.EvenGrandchildren | avl.c:112-122 | after a double rotation the four grandchildren differ in height by at most one, so the new root is balanced and two above them |
| Avl.DoubleRightSound | avl.c:112-116 | left-right case: left rotation of the left child, then right rotation, gives a balanced tree as tall as the old left child |
| Avl.DoubleLeftSound | avl.c:118-122 | right-left case: the mirror statement |
| Avl.LeftHeavySound | avl.c:194-203 | a node two taller on the left is rebalanced by the single or double rotation the balance of its left child selects; order, contents and heights stay valid |
| Avl.RightHeavySound | avl.c:205-214 | the mirror statement for a node two taller on the right |
| Avl.RebalanceRemoveSound | avl.c:191-216 | the four rotation cases of `remover_avl` turn a node whose children are valid and differ by at most two into a valid tree with the same in-order list; a node already in balance is returned unchanged |
| Avl.RebalanceRemove | avl.c:191-216 | the four balance-factor cases of `remover_avl`, selected by the balance of the taller child; Avl.RebalanceRemoveSound states that the result is valid with the same in-order list and contents, that a node within ±1 is returned unchanged, and the resulting height |
| Avl.GrownInner | avl.c:112-122 | when a double rotation applies, the grandchild it rotates exists, so the C pointer dereference is safe |
| Avl.RebalanceInsertSound | avl.c:99-124 | after an insertion the word-based case choice of `inserir_avl` makes the same rotation as the balance-based choice of `remover_avl`; the result is valid, has the same contents, and is no taller than before the insertion |
| Avl.RebalanceInsert | avl.c:99-124 | the four word-selected cases of `inserir_avl`; Avl.RebalanceInsertSound states that after an insertion they make the same rotation as Avl.RebalanceRemove, and that the result is valid, has the same contents and the stated height |
| Avl.NewNode | avl.c:64-74 | a new node is a valid one-entry tree of height 1 |
| Avl.Insert | avl.c:77-125 | on a valid tree insertion returns a valid tree (order, heights, balance) whose map adds `k -> c` when `k` was absent; a present `k` returns the tree unchanged and keeps its old span; the height grows by at most one |
| Avl.InsertLeftStep | avl.c:86-89 | descending left and rebalancing re-establishes the insertion contract at the parent |
| Avl.InsertRightStep | avl.c:90-93 | the mirror statement for descending right |
| Avl.InsertLeftNode | avl.c:86-100 | after a left insertion the parent is a BST with correct heights, balanced children and a balance factor within ±2 |
| Avl.InsertRightNode | avl.c:90-100 | the mirror statement |
| Avl.InsertLeftContent | avl.c:86-89 | a left insertion adds `k -> c` to the parent's map exactly when `k` was absent |
| Avl.InsertRightContent | avl.c:90-93 | the mirror statement |
| Avl.InsertStepHeight | avl.c:99-124 | after one insertion step, the parent grows by at most one and, when it grew, the new word lies on its taller side |
| Avl.Min | avl.c:128-136 | the leftmost node of a non-empty tree exists, has no left child and holds one of the tree's words |
| Avl.MinIsSmallest | avl.c:128-136 | in a BST the leftmost word is smaller than every other word, and its span is the one the tree maps it to |
| Avl.Remove | avl.c:139-217 | on a valid tree removal returns a valid tree whose map is the old one without `k`; every other word keeps its span; an absent `k` returns the tree unchanged; the height drops by at most one |
| Avl.RemoveLeftStep | avl.c:148-151 | descending left and rebalancing re-establishes the removal contract at the parent |
| Avl.RemoveRightStep | avl.c:152-155 | the mirror statement |
| Avl.RemoveLeftNode | avl.c:148-151 | after a left removal the parent is a BST with correct heights and balanced children, and its map lost exactly `k` |
| Avl.RemoveRightNode | avl.c:152-155 | the mirror statement |
| Avl.RemoveStepHeight | avl.c:186-216 | after one removal step the parent's balance factor is within ±2 and the rebalanced result is at most one shorter |
| Avl.RemoveOneChildStep | avl.c:158-174 | removing a word whose node has at most one child leaves that child, or nothing, and meets the removal contract |
| Avl.OneChildRemains | avl.c:158-170 | the only child of a removed node is a valid tree holding everything else, one shorter than the node |
| Avl.RemoveTwoChildNode | avl.c:175-183 | when the node has two children, copying in the successor's word and span and removing the successor from the right subtree gives a BST node with correct heights and balanced children whose map lost exactly the removed word |
| Avl.RemoveTwoChildStep | avl.c:175-216 | the two-child case followed by rebalancing meets the removal contract |
| Avl.RemoveTwoChildContent | avl.c:175-183 | on maps: putting the successor's entry at the root and deleting it from the right side equals deleting the root's word |
| Avl.Contains | avl.c:248-269 | on a BST lookup answers true exactly when the word is stored |
| AvlProps.InOrderKeys | avl.c:220-230 | every word the in-order walk lists is stored in the tree |
| AvlProps.KeysListed | avl.c:220-230 | every stored word is listed by the in-order walk |
| AvlProps.InOrderSpans | avl.c:220-230 | each listed span is the span the tree maps its word to |
| AvlProps.InOrderAscending | avl.c:220-230 | in a BST the in-order walk lists words in strictly increasing `strcmp` order, so no word is listed twice |
| AvlProps.ContainsAfterInsert | avl.c:77-125 | after inserting `k`, lookup finds `k` and everything found before, and nothing else |
| AvlProps.ContainsAfterRemove | avl.c:139-217 | after removing `k`, lookup finds everything found before except `k` |
| AvlProps.InsertTwice | avl.c:94-97 | inserting a word again, with any span, changes nothing: the first span wins |
| AvlProps.RemoveTwice | avl.c:141-144 | removing a word twice is the same as removing it once |
| AvlProps.InsertAll | avl.c:77-125 | a sequence of insertions keeps the tree valid and adds exactly the inserted words |
| AvlProps.RemoveAll | avl.c:139-217 | a sequence of removals keeps the tree valid and removes exactly the listed words |
| AvlProps.NoKeysIsLeaf | avl.c:141-144 | a tree holds no word exactly when it is the NULL tree |
| AvlProps.InsertRemoveAllEmpty | avl.c:139-217 | removing every inserted word, in any order, gives back the NULL tree |
| Trie.NewNode | trie.c:8-19 | a new node has no children, is not a word end, and finds no string |
| Trie.ToLower | trie.c:28 | ASCII `tolower`: upper-case letters move to the matching lower-case letter, every other character stays |
| Trie.LowerWord | trie.c:54 | case-folding a string folds each character and keeps the length |
| Trie.Filter | trie.c:28-34 | the letters insertion keeps are lower-case a..z and never more than the word has |
| Trie.Insert | trie.c:22-45 | insertion only adds children, and marks the root as a word end exactly when it already was one or the word has no letters |
| Trie.ContainsInsert | trie.c:22-66 | after inserting `w`, a query is found exactly when it was found before, or it is made only of letters and case-folds to the letters of `w` |
| Trie.Contains | trie.c:48-66 | `buscar_trie`; Trie.NewNode states that a new trie finds nothing, Trie.ContainsInsert that after inserting `w` exactly the letter-only queries folding to the letters of `w` are added, Trie.NonLetterNotFound that any non-letter fails (trie.c:57-60), Trie.LookupFoldsCase that case does not matter, and Examples.PrefixAndExtension that the end-of-word flag decides (trie.c:65) |
| Trie.EmptyFindsNothing | trie.c:57-60 | a node with no children and no word-end flag, the stand-in for a NULL slot, finds no string |
| Trie.InsertedIsFound | trie.c:22-66 | the letters of an inserted word are found afterwards |
| Trie.InsertMonotone | trie.c:36-44 | every string found before an insertion is still found after it |
| Trie.InsertIdempotent | trie.c:36-44 | inserting the same word twice gives the same trie as inserting it once |
| Trie.InsertFiltered | trie.c:28-34 | inserting a word is the same as inserting its lower-cased letters alone |
| Trie.FilterIsLetters | trie.c:31-34 | the kept characters all select a slot |
| Trie.NonLetterNotFound | trie.c:57-60 | a query holding any non-letter is never found |
| Trie.LookupFoldsCase | trie.c:54-55 | lookup gives the same answer for a query and for its lower-cased form |
| Trie.ContainsInsertAll | trie.c:22-66 | a trie built from a word list finds exactly the letter-only queries that case-fold to the letters of some listed word |
| Trie.InsertAll | jogo.c:53-63 | the dictionary `ler_palavras` builds by inserting each word of the file in turn into a new trie; Trie.ContainsInsertAll states that it finds exactly the letter-only queries that case-fold to the letters of some listed word |
| WordSearch.InvertString | jogo.c:70-79 | the in-place swap loop leaves the string read backwards: character `i` of the result is character `n-1-i` of the input |
| WordSearch.ReverseTwice | jogo.c:70-79 | reversing twice gives back the original string |
| WordSearch.Segments | jogo.c:84-88 | every segment a pass visits lies on the pass's axis, starts inside the board, is at least 2 long and ends inside the board |
| WordSearch.SegmentsComplete | jogo.c:84-227 | a pass visits exactly the segments of its axis that fit the board |
| WordSearch.SegmentsInVisitOrder | jogo.c:121-123 | a pass visits its segments in loop-nest order: by row, column and length, except the vertical pass, which goes by column, row and length |
| WordSearch.LengthsMembers | jogo.c:88 | the `tam` loop visits exactly the lengths from its start up to the bound where the run still fits |
| WordSearch.InnerMembers | jogo.c:86 | the middle loop visits exactly the segments of its outer index with middle index from `p` on |
| WordSearch.OuterMembers | jogo.c:84 | the outer loop visits exactly the segments with outer index from `o` on |
| WordSearch.AllSegments | jogo.c:230-240 | every segment of the four passes fits the board |
| WordSearch.Spell | jogo.c:91-95 | the run read from a segment has the segment's length |
| WordSearch.Expand | jogo.c:97-111 | each segment gives exactly two candidates |
| WordSearch.ExpandIndex | jogo.c:97-111 | candidate `2m` is the forward run of segment `m` with its span first cell to last, candidate `2m+1` its reversal with the span last cell to first |
| WordSearch.Candidates | jogo.c:84-240 | every (word, span) pair the four passes offer, in offering order; ScanProps.CandidatesAreSpans states that a pair is a candidate exactly when the span is a straight line of at least two cells that spells the word, and ScanProps.CandidatesByPass that the passes come in the order of `buscar_palavras` |
| WordSearch.Offer | jogo.c:97-101 | offering a candidate adds `word -> span` exactly when the dictionary holds the word and the tree does not; otherwise the tree's map is unchanged; the tree stays valid |
| WordSearch.Scan | jogo.c:84-116 | offering a list of candidates keeps the tree valid |
| WordSearch.SearchHorizontal | jogo.c:82-116 | `buscar_horizontal`: keeps the tree valid; it is the fold over the row segments' candidates, so ScanProps.ScanEntries states that an entry of the incoming tree keeps its span and a new entry is a dictionary word at its first candidate along the rows, and ScanProps.HorizontalWins that its entries survive the later passes |
| WordSearch.SearchVertical | jogo.c:119-153 | `buscar_vertical`: keeps the tree valid; the fold over the column segments' candidates in column-major order (WordSearch.SegmentsInVisitOrder), with entries as ScanProps.ScanEntries states |
| WordSearch.SearchPrincipal | jogo.c:156-190 | `buscar_diagonal_principal`: keeps the tree valid; the fold over the down-right diagonal segments' candidates, with entries as ScanProps.ScanEntries states |
| WordSearch.SearchSecondary | jogo.c:193-227 | `buscar_diagonal_secundaria`: keeps the tree valid; the fold over the down-left diagonal segments' candidates, with entries as ScanProps.ScanEntries states |
| WordSearch.FindWords | jogo.c:230-240 | the four passes from the NULL tree give a valid AVL tree |
| ScanProps.ScanEntries | jogo.c:97-111 | after a fold from a tree, a word maps to a span exactly when it was already there with that span, or the dictionary holds it, the tree did not, and the span is that of its first candidate |
| ScanProps.ScanKeeps | jogo.c:97 | a word already in the tree keeps its span through any number of offers |
| ScanProps.ScanKeys | jogo.c:97-111 | after a fold the tree holds exactly its old words plus the dictionary words among the candidates |
| ScanProps.ScanFindsNothing | jogo.c:97-111 | when no candidate is a dictionary word the tree is returned unchanged |
| ScanProps.ScanAppend | jogo.c:230-240 | folding over two lists in a row equals folding over their concatenation |
| ScanProps.CandidatesByPass | jogo.c:230-240 | the candidate list is the horizontal, vertical, principal and secondary lists in that order |
| ScanProps.FindWordsIsScan | jogo.c:230-240 | `buscar_palavras` is one fold over all candidates from the NULL tree |
| ScanProps.FirstOccurrenceStep | jogo.c:97-111 | the first candidate with a word is the head when the head has it, otherwise the first in the rest |
| ScanProps.SpanLength | jogo.c:88 | a span that spells a word is between 1 and N cells long |
| ScanProps.SegmentGeometry | jogo.c:99-220 | the last cell of a segment that fits lies inside the board, on a straight line of unit steps `len-1` long |
| ScanProps.ForwardSpells | jogo.c:84-227 | the forward candidate's span starts and ends inside the board on one line, and reading from its first cell spells the word; it points down or right |
| ScanProps.BackwardSpells | jogo.c:84-227 | the reversed candidate's span, read from its first cell, spells the reversed word; it points up or left |
| ScanProps.ForwardMatches | jogo.c:91-99 | any spelled span that starts at a segment's first cell and points along its axis is that segment's forward candidate |
| ScanProps.BackwardMatches | jogo.c:103-109 | any spelled span that starts at a segment's last cell and points against its axis is that segment's reversed candidate |
| ScanProps.ExpandSpells | jogo.c:97-111 | every candidate is spelled by its span and has at least two letters; exactly the even-numbered ones point forward |
| ScanProps.CandidateSpells | jogo.c:84-227 | every candidate of the board is spelled by its span and has at least two letters |
| ScanProps.SpanSegment | jogo.c:84-227 | every straight spelled span of two or more cells is the forward or reversed candidate of some fitting segment |
| ScanProps.SpanIsCandidate | jogo.c:84-227 | every straight spelled span of two or more cells, with its word, is among the board's candidates |
| ScanProps.CandidatesAreSpans | jogo.c:84-227 | a (word, span) pair is a candidate exactly when the span spells the word and is at least two cells long |
| ScanProps.FindWordsEntries | jogo.c:97-240 | the result maps `w` to `c` exactly when the dictionary holds `w` and `(w, c)` is the first candidate with word `w` |
| ScanProps.RecordedFrom | jogo.c:97-240 | every result entry is a dictionary word and comes from a candidate that no earlier candidate shares its word with |
| ScanProps.FindWordsSound | jogo.c:97-220 | every found word is in the dictionary, is between 2 and N letters long, and is spelled by its recorded span |
| ScanProps.FindWordsComplete | jogo.c:84-240 | every dictionary word of two or more letters that the board spells along a line is found |
| ScanProps.FindWordsKeys | jogo.c:84-240 | the found words are exactly the dictionary words of two or more letters spelled along some line |
| ScanProps.CandidatePair | jogo.c:103-105 | the second candidate of each segment is the first one read backwards |
| ScanProps.FirstPalindromeIsForward | jogo.c:97-111 | the first candidate with a palindromic word is a forward one |
| ScanProps.PalindromeForward | jogo.c:97-111 | a palindrome found on the board keeps its forward span |
| ScanProps.HorizontalWins | jogo.c:234-237 | a word the horizontal pass finds keeps its horizontal span in the final result |
| ScanProps.EmptyDictionaryFindsNothing | jogo.c:230-240 | with a dictionary that has no children the result is the NULL tree |
| Examples.HyphenatedWord | trie.c:28-34 | "ab-c" is stored as "abc": found as "abc" and "ABC", never as "ab-c" |
| Examples.PrefixAndExtension | trie.c:65 | after inserting "gato", neither the prefix "gat" nor the extension "gatos" is found |
| Examples.DictWords | trie.c:22-66 | the dictionary built from "cat" and "tac" finds exactly the letter strings that case-fold to one of them |
| Examples.FirstCandidates | jogo.c:84-111 | on a 3x3 board with row 0 "cat" the first four candidates are "ca", "ac", "cat" (0,0)->(0,2) and "tac" (0,2)->(0,0) |
| Examples.OnlyCatAndTac | jogo.c:97-220 | with the dictionary {cat, tac}, only "cat" and "tac" can be found on a lower-case board |
| Examples.CatAndTacFound | jogo.c:97-111 | "cat" and "tac" are recorded with the spans of their row-0 candidates |
| Examples.CatOutcome | jogo.c:230-240 | the result maps exactly "cat" and "tac" to their row-0 spans |
| Examples.CatExample | jogo.c:230-240 | the board `cat / abc / txx` with a dictionary of exactly {cat, tac} gives `{cat -> (0,0,0,2), tac -> (0,2,0,0)}`; the vertical "cat" is skipped |
| Examples.CatExampleBuilt | jogo.c:230-240 | the same outcome with the dictionary built by inserting "cat" and "tac" into a new trie |

## Left out

- `ler_tabuleiro` and `ler_palavras` (jogo.c:10-67) read files with
  `fopen`/`fscanf`. The board is a parameter. The word list is modelled by
  `Trie.InsertAll` over a sequence of strings.
- `ler_tabuleiro` lower-cases the cells it reads. The scanner does not need
  that, so no lower-case precondition is imposed. Only the concrete example
  assumes a lower-case board.
- The board must be square. `ler_tabuleiro` reads both counts but keeps only
  the row count as the board size (jogo.c:21-22). The scanning passes use that
  size as the column count too. It must also be smaller than 100, because each scanning pass
  copies a run into a 100-byte buffer with its terminating NUL. A larger board
  overflows in C, and the model rules it out as a precondition rather than
  modelling the overflow.
- `imprimir_avl`, `imprimir_avl_recursivo` and `imprimir_tabuleiro` are console
  output. Only the in-order listing (`Avl.InOrder`) is kept.
- `liberar_avl`, `liberar_trie` and `liberar_tabuleiro` are manual freeing.
  Immutable data has no counterpart for them.
- main.c is the interactive menu. main.c is not part of this model.
- Avl.Remove: models the intended one-child case, not the memory behaviour of
  the C. When the removed node has exactly one child, `remover_avl` copies the
  child's struct over the node with `*raiz = *temp` (avl.c:169). It then frees
  `temp->palavra` and `temp` (avl.c:172-173). After the copy, `raiz->palavra`
  is the same pointer as `temp->palavra`, so the surviving node points at a
  freed word. Every later `strcmp` on that node reads freed memory: in
  `buscar_avl`, `inserir_avl`, `remover_avl` or the printing. The removed
  node's own word is never freed, so it leaks. Insert "b" then "a", remove "b",
  then look up "a" to reach the freed word. The model returns the child with
  its word intact, as the code evidently intends. It then refreshes the
  child's height and rebalances it, which is what the C's copied node goes
  through. Both steps are proved to change nothing on a valid child. The other
  `free` calls in `remover_avl` (avl.c:178, avl.c:172-173 in the no-child
  case) release memory nothing uses again. The model leaves them out.
- `tolower` is locale-dependent in C. The model uses ASCII case folding.
- The C reads board cells and dictionary words as bytes (`char`). Each
  character of the model stands for one byte, with its value 0..255 as its
  code point. `strcmp` compares bytes as `unsigned char`, and `Lex.Strcmp`
  compares code points, so the two orders agree. ASCII `tolower` moves only
  'A'..'Z', so it agrees as well.
- C strings end at NUL. The model's strings are sequences, and `strcmp` is
  modelled on them without a NUL character. The model assumes that no board
  cell is NUL. `fscanf(f, " %c", &c)` (jogo.c:33) does accept a 0x00 byte,
  though. The scanner copies such a run whole (jogo.c:93-95), but
  `buscar_trie` and `strcmp` stop at the NUL, so the C looks up and records
  only the part of the run before it. That part can be shorter than 2 letters,
  even `""`. For example, a row starting with a NUL cell followed by `a`, with
  a dictionary token that holds no letter (say `123`, which sets the root's
  word-end flag through trie.c:44), makes the C record `""` with the span of
  that two-cell run.
- ScanProps.FindWordsSound and ScanProps.FindWordsKeys describe boards with no
  NUL cell only. On a board with a NUL cell, the C can record a word shorter
  than 2 letters, or a word that its recorded span does not spell, as the
  previous item shows.
- `int` in C is 32 bits. Heights, indices and lengths are unbounded here. They
  stay far below the 32-bit range for boards smaller than 100.
- Lex.Strcmp: C promises only the sign of the result. The model fixes it to
  -1, 0 or 1, and every call site uses only the sign.
- The trie's 26 child pointers are a map from slot index to child. A missing
  entry stands for a NULL pointer.
- Avl.Insert and Avl.Remove require a valid tree. The C functions accept any
  pointer, but every tree the program builds starts empty and passes only
  through these two functions.
