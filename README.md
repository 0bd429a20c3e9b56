# honey: a verified model of its SGF core

honey is a small web application for storing and commenting games of Go and
Hex. Its core is a hand-written reader, tree, cursor and writer for a subset of
the Smart Game Format (SGF, file format FF[4]): collections of games, each a
sequence of nodes; a node is a set of `KEY[value]` properties; variations are
parenthesised branches. There are no `\]` escapes and no multi-value properties.
The repository holds two generations of this code. In the newer one
(honey/sgf.py) a fork is a list of branches placed as the last element of a
line; in the older one (sgf.py) the branches hang from a node under its
`"variants"` key. Around the parser sit some database-side logic and other
small pieces:

- the merge of a submitted line of moves into a stored game (db.py);
- the writing of user comments into the nodes they were made on (honey/db.py);
- the decisions `create_game` takes on a game's root (honey/db.py, db.py);
- the page strip of the listings (pagination.py);
- the browser-side lexer `sgfParse` (static/js/hsgf.js).

The model is written in Dafny, one module per concern:

| file | module | what it models |
|---|---|---|
| base.dfy | SgfBase | option/result types, the exceptions, property dicts, Python's `str` order |
| sgf_lexer.dfy | SgfLexer | the character state machine of `_runParser`, shared by both generations |
| honey_tree.dfy | HoneyTree | the newer tree: lines of nodes and forks, addresses, replacing a line |
| honey_parse.dfy | HoneyParse | honey/sgf.py `SgfHandler` (as functions and as a class) and `parseSgf` |
| honey_cursor.dfy | HoneyCursor | honey/sgf.py `Cursor` (a class over the tree) and `nodes_are_same_moves` |
| honey_serial.dfy | HoneySerial | honey/sgf.py `node_to_sgf`, `makeSgf`, `_makeSgfFromCursor` (the unroll corrected, and as written) |
| honey_roundtrip.dfy | HoneyRoundTrip | `parseSgf(makeSgf(coll)) == coll` and `makeSgf(parseSgf(s)) == s`, `makeSgf` with the corrected unroll |
| honey_sgf_tests.dfy | HoneySgfTests | the root node of the branch tests of honey/sgf.py and its text |
| old_tree.dfy | OldTree | the older tree: nodes with branches, addresses, growth, node count |
| old_parse.dfy | OldParse | sgf.py `SgfHandler` (as functions and as a class), `_runParser`, `parseSgf` |
| old_cursor.dfy | OldCursor | sgf.py `Cursor` (a class), `_get_children`, `Node.is_same_move` |
| db_variant.dfy | DbVariant | db.py `patch_game_with_variant` |
| old_db.dfy | OldDb | db.py `create_game` |
| game_root.dfy | GameRoot | the `RE` fix and `Game.resolve_type` |
| honey_db.dfy | HoneyDb | honey/db.py `create_game`, `create_new_game`, `patch_game_with_comments` |
| pagination.dfy | Paging | pagination.py `Pagination` |
| hsgf_lexer.dfy | HsgfLexer | static/js/hsgf.js `sgfParse` |

Python objects that the source changes in place are Dafny classes:
- the handlers (`OldParse.OldHandler`, `HoneyParse.Handler`);
- the cursors (`HoneyCursor.Cursor`, `OldCursor.OCursor`).

The lexer loops are methods with loop invariants, and so are the merge and
comment loops. Each method is proved against a specification function, and the
properties are proved as lemmas about those functions.

Some modelling choices:
- A Python exception becomes an `Err`. The source's own exceptions keep their
  message: `SgfParseError`, `CursorError`. Any other exception is a `Crash` with
  its Python class name: IndexError, TypeError, ValueError, AttributeError,
  AssertionError.
- Python truthiness of a node dict: a node dict is falsy exactly when the map is empty.
- A list the caller shares with a cursor or handler is the tree value in the
  object's field. The object replaces that value on every change, and the
  caller reads it back from the field.

Behaviour of the code that the model keeps as written:
- An annotation path that runs past the end of a line is not skipped. `next`
  returns `None` there and the cursor stays, so the note goes to the node
  where the cursor stopped.
- The note is written after every `(branch, jump)` pair, not once at the end
  of the path, although the docstring at honey/db.py:347 says the comments go
  "to their corresponding nodes" (see Findings).
- The cursor of a comment starts at the root. So the route `[(0, 2)]` lands
  two nodes below the root.
- `on_branch_stop` checks the branch it returns to, after the pop, for being
  empty, not the branch it closes. In honey/sgf.py that check cannot fail. In
  sgf.py it can: `(;((;)` is "Empty branch.".

## Model

| member | source | states |
|---|---|---|
| SgfBase.Get | honey/sgf.py:148-149 | `d.get(key, None)`: `Some` exactly when the key is present, with its value |
| SgfBase.LessIrreflexive | honey/sgf.py:155 | Python's `<` on strings, which `sorted` uses, is irreflexive |
| SgfBase.LessTransitive | honey/sgf.py:155 | the string order is transitive |
| SgfBase.LessTotal | honey/sgf.py:155 | of two different strings one is smaller |
| SgfBase.LessAsymmetric | honey/sgf.py:155 | the string order is asymmetric |
| SgfLexer.LexIgnores | honey/sgf.py:251-284 | a character no rule of the state machine takes fires no callback; it is kept in the accumulator inside a node or a value and dropped elsewhere |
| SgfLexer.LexStep | honey/sgf.py:247-284 | a callback fires only for a character some rule takes; the depth goes up by one exactly on a branch start and down by one exactly on a branch stop; a game starts exactly on `(` outside a game and stops exactly on `)` at depth 0 between or inside nodes; the lexer is outside a game after exactly those `)` and after a skipped character outside a game |
| HoneyTree.WFAt | honey/sgf.py:4-18 | every line inside a walkable tree is walkable |
| HoneyTree.GetPut | honey/sgf.py:117-143 | after replacing the line at an address, that address leads to the new line |
| HoneyTree.PutAbove | honey/sgf.py:117-143 | replacing a deeper line leaves each line above it as it was, except the fork on the way down, which keeps its branch count |
| HoneyTree.PutAside | honey/sgf.py:117-143 | replacing a line leaves every line off its path unchanged |
| HoneyTree.PutWF | honey/sgf.py:117-143 | replacing a line by a walkable one keeps the tree walkable |
| HoneyTree.LineAtAppend | honey/sgf.py:55-63 | following an address made of two parts is following the first, then the second |
| HoneyParse.GameStartOp | honey/sgf.py:174-177 | `on_game_start` appends an empty game and keeps the handler invariant |
| HoneyParse.GameStopOp | honey/sgf.py:179-185 | `on_game_stop` succeeds exactly when a game is open, only its trunk is on the stack and the current node is truthy; the games are unchanged |
| HoneyParse.NodeOp | honey/sgf.py:187-190 | `on_node` succeeds exactly when a game is open and appends a fresh empty node, which becomes current |
| HoneyParse.PropertyOp | honey/sgf.py:192-196 | "No current node." exactly when there is no current node; at a node ending the branch being filled, "Duplicate property." exactly when the name is already set, otherwise that node gains the property; the finished games and the open branches are kept |
| HoneyParse.BranchStartOp | honey/sgf.py:198-210 | succeeds exactly when the branch being filled has an element; the new branch is empty and open on top of the others, and the finished games are kept |
| HoneyParse.BranchStopOp | honey/sgf.py:212-219 | succeeds exactly when a branch is open below the one being filled, so "Empty branch." cannot happen here; the games are unchanged and one branch fewer is open |
| HoneyParse.Handle | honey/sgf.py:158-232 | every callback keeps the handler invariant |
| HoneyParse.ResultOf | honey/sgf.py:169-172 | `get_result` is "Empty collection." exactly when there are no games, otherwise the games |
| HoneyParse.Step | honey/sgf.py:247-284 | one loop turn keeps the lexer's state tied to the handler's (collection state outside a game, depth counts open branches) |
| HoneyParse.Run | honey/sgf.py:240-284 | the whole loop keeps that tie |
| HoneyParse.ParseSpec | honey/sgf.py:234-238 | `parseSgf`: a successful parse has at least one game |
| HoneyParse.RunAppend | honey/sgf.py:247-284 | reading `s + t` is reading `s`, then `t` from where `s` left off; an error in `s` ends the run |
| HoneyParse.CollectionSkips | honey/sgf.py:247-251 | outside a game every character but `(` is skipped |
| HoneyParse.SeqSkips | honey/sgf.py:252-275 | between nodes every character but `;`, `(` and `)` is skipped |
| HoneyParse.SkippedTextIgnored | honey/sgf.py:247-275 | text without `;`, `(` and `)` read outside a game or between nodes changes nothing: the text parses as it does without it |
| HoneyParse.SkippedAfterClose | honey/sgf.py:267-275 | such text may follow any `)` read outside a value without changing the parse |
| HoneyParse.NoGameIsEmptyCollection | honey/sgf.py:347-355 | a text without `(` fails with "Empty collection." |
| HoneyParse.GameWithoutNodes | honey/sgf.py:357-365 | `()` and any game without a node fail with "Empty game." |
| HoneyParse.NodeGathers | honey/sgf.py:283-284 | inside a node the characters of a name are only gathered |
| HoneyParse.ValueGathers | honey/sgf.py:276-284 | inside `[...]` every character but `]` is kept verbatim |
| HoneyParse.ReadProperty | honey/sgf.py:258-282 | reading `name[value]`: an empty name is dropped; any other name is handed to `on_property` |
| HoneyParse.DuplicateProperty | honey/sgf.py:192-196 | a second value for the same name in one node fails with "Duplicate property." |
| HoneyParse.SgfHandler.OnGameStart | honey/sgf.py:174-177 | the handler's fields become `GameStartOp` of the old fields |
| HoneyParse.SgfHandler.OnGameStop | honey/sgf.py:179-185 | the fields follow `GameStopOp`; on an error they are left unchanged and the error is returned |
| HoneyParse.SgfHandler.OnNode | honey/sgf.py:187-190 | the fields follow `NodeOp`, or the error is returned |
| HoneyParse.SgfHandler.OnProperty | honey/sgf.py:192-196 | the fields follow `PropertyOp`, or the error is returned |
| HoneyParse.SgfHandler.OnBranchStart | honey/sgf.py:198-210 | the fields follow `BranchStartOp`, or the error is returned |
| HoneyParse.SgfHandler.OnBranchStop | honey/sgf.py:212-219 | the fields follow `BranchStopOp`, or the error is returned |
| HoneyParse.SgfHandler.GetResult | honey/sgf.py:169-172 | returns `ResultOf` the fields |
| HoneyParse.Feed | honey/sgf.py:248-284 | one pass of the loop runs the rule `Step` gives for the character: the same next lexer variables and handler state, or the error of the callback that raised |
| HoneyParse.RunParser | honey/sgf.py:240-284 | the loop over the characters ends in the state `Run` gives, or with its first error |
| HoneyParse.ParseSgf | honey/sgf.py:234-238 | equals `ParseSpec` |
| HoneyCursor.VariantsNum | honey/sgf.py:65-69 | `get_variants_num` is at least 1, and is the branch count when there is a fork |
| HoneyCursor.PyIndex | honey/sgf.py:81-86 | Python's `xs[v]` refers to index `v`, or `n + v` for negative `v` |
| HoneyCursor.NextFrame | honey/sgf.py:71-97 | on a well-formed game (every branch non-empty, so the assertion at line 83 holds), `next(v)` raises only "Invalid variant.", "No variant." or an IndexError; it stays, with `None`, exactly at the end of a line with no fork and `v == 0`; otherwise the new frame is the next node of the line when no fork follows, or the first node of one of the fork's branches |
| HoneyCursor.NextNode | honey/sgf.py:71-97 | the error, the `None` or the node of the frame `NextFrame` gives, each exactly when `NextFrame` gives it |
| HoneyCursor.AddToLine | honey/sgf.py:117-143 | on the line of the cursor's node: the only refusal is "Node already exists.", and only when something follows the node; otherwise the line keeps everything up to the node and something follows it |
| HoneyCursor.AddNodeTree | honey/sgf.py:117-143 | fails exactly when `AddToLine` does, with "Node already exists."; otherwise the cursor's address leads to the line `AddToLine` gives |
| HoneyCursor.SetNodeTree | honey/db.py:360-365 | after writing into the dict of the node at a frame, the frame's address leads to the old line with that node's properties replaced |
| HoneyCursor.NodesAreSameMoves | honey/sgf.py:145-151 | holds iff both are node dicts and each of `W` and `B` is in both with the same value or in neither |
| HoneyCursor.Cursor.GetNode | honey/sgf.py:43-49 | `get_node` is the node the top frame is at; with only the root frame, the game's first node |
| HoneyCursor.Cursor.GetVariants | honey/sgf.py:54-62 | the branches of the fork that follows the current node, or `[]` at the end of the line or before a node |
| HoneyCursor.Cursor.GetVariantsNum | honey/sgf.py:65-69 | at least 1: the fork's branch count when a fork follows the current node, else 1 |
| HoneyCursor.NextLands | honey/sgf.py:71-97 | the frame `next` pushes is at a node, one step further on |
| HoneyCursor.NextOutcome | honey/sgf.py:71-97 | `next(v)`: "Invalid variant." iff there is a fork and `v` is too large; "No variant." iff there is no fork and `v != 0`; `None` iff at the end of a line with `v == 0`; otherwise the frame it moves to |
| HoneyCursor.NextKeepsStack | honey/sgf.py:71-97 | pushing that frame keeps a stack the cursor can have |
| HoneyCursor.AddNodeCases | honey/sgf.py:117-143 | the three cases of `add_node` (end of line, new branch of an existing fork, forking mid-line), each with its "Node already exists." refusal |
| HoneyCursor.AddToLineKeepsPrefix | honey/sgf.py:117-143 | the new line keeps everything up to the current node and stays walkable |
| HoneyCursor.AddNodeKeepsStack | honey/sgf.py:117-143 | `add_node` never moves the cursor: every frame stays at the same node |
| HoneyCursor.AddNodeElsewhere | honey/sgf.py:117-143 | only the line at the cursor changes; every line off its path is as it was |
| HoneyCursor.AddThenNext | honey/sgf.py:117-143 | after `add_node`, the last way on from the cursor leads to the new node |
| HoneyCursor.SetNodeElsewhere | honey/db.py:360-365 | a write into the dict of one node keeps the tree walkable, keeps every frame with its branch count, and changes only that node's properties |
| HoneyCursor.SetNodeKeepsStack | honey/db.py:360-365 | the write keeps the cursor's stack valid |
| HoneyCursor.SameMovesMeaning | honey/sgf.py:145-151 | `nodes_are_same_moves` holds iff both are node dicts with the same `W` and `B`, absent counting as `None`; it is an equivalence on nodes |
| HoneyCursor.NewCursor | honey/sgf.py:35-41 | `Cursor(nodes)` raises "Empty game." iff the game is empty, else stands at the root |
| HoneyCursor.Cursor.Next | honey/sgf.py:71-97 | returns `NextNode`, pushes exactly the frame `NextFrame` gives, and leaves the stack alone otherwise |
| HoneyCursor.Cursor.Previous | honey/sgf.py:106-115 | at the root returns `None` and changes nothing; otherwise pops exactly one frame and returns the new current node |
| HoneyCursor.Cursor.GetNext | honey/sgf.py:99-104 | returns what `next` returns; the stack is unchanged unless the node reached is empty, in which case the step stays |
| HoneyCursor.Cursor.WriteNode | honey/db.py:360-365 | the game becomes `SetNodeTree` of the old one; the current node has the new properties and the nodes below it on the stack keep theirs |
| HoneyCursor.Cursor.AddNode | honey/sgf.py:117-143 | the game becomes `AddNodeTree` of the old one, or the error is returned and nothing changes; the stack's nodes keep their properties |
| HoneyCursor.AddToFrameLine | honey/sgf.py:124-142 | the loops of `add_node` (the search of the fork for a branch starting with the node, the truncation of the line before forking) compute exactly the line `AddToLine` gives, or its refusal |
| HoneySerial.SortedKeys | honey/sgf.py:153-156 | the names of a node's properties, each once, in the order `sorted` puts the rendered properties in |
| HoneySerial.SortedKeysOrder | honey/sgf.py:153-156 | that order is the one `sorted` uses, so the text of a node does not depend on insertion order |
| HoneySerial.NodeToSgf | honey/sgf.py:153-156 | the text of a node starts with `;`; `HoneyRoundTrip.ReadNode` shows it is read back as the very same node |
| HoneySerial.LeastFirst | honey/sgf.py:153-156 | the property whose rendered item `sorted` puts first is written first, then the others in their order |
| HoneySerial.ThreeKeys | honey/sgf.py:153-156 | a node with three properties is written in the order of their rendered items |
| HoneySerial.MakeSgf | honey/sgf.py:286-291 | `makeSgf` with the corrected unroll fails with "Empty game." exactly when a game is empty; as written it can also raise "No variant." (`UnrollStopsEarly`) |
| HoneySerial.MakeSgfGames | honey/sgf.py:286-291 | with no empty game, `makeSgf` with the corrected unroll is the games' texts one after another |
| HoneySerial.WalkOn | honey/sgf.py:300-304 | at a node with one way on, `next(0)` succeeds; the walk writes the node, then goes on from the node reached, and stops there if that node is empty |
| HoneySerial.WalkFork | honey/sgf.py:305-311 | at a fork the walk writes each branch in turn, entering branch `k` with `next(k)` |
| HoneySerial.MakeSgfFromCursor | honey/sgf.py:293-315 | `_makeSgfFromCursor` writes `SerFrom` of the cursor's position and puts the cursor back where it was (corrected unrolling) |
| HoneySerial.Walk | honey/sgf.py:298-311 | the `while not finished` loop, with the corrected unroll after each branch, writes the walk from the cursor and only pushes frames |
| HoneySerial.WalkStep | honey/sgf.py:299-311 | one turn of that loop, with the corrected unroll, writes a piece of the walk; when not finished, the rest of the walk goes on from the new position |
| HoneySerial.WriteVariants | honey/sgf.py:307-310 | the `for index in xrange(variants_num)` loop writes every branch; with the corrected unroll the cursor is back at the fork after each |
| HoneySerial.WriteGame | honey/sgf.py:289-290 | with the corrected unroll, one game's text is its walk from the root, or "Empty game." exactly when the game is empty |
| HoneySerial.SerGamesSnoc | honey/sgf.py:288-291 | the corrected writer's text of the first `i + 1` games is that of the first `i`, then that of game `i` |
| HoneySerial.WriteCollection | honey/sgf.py:286-291 | the loop over the games, with the corrected unroll, writes `MakeSgf` of the collection |
| HoneySerial.UnrollByValue | honey/sgf.py:312-314 | the unrolling as written keeps the frames up to the topmost one whose node is equal to the first node, and no frame it pops holds an equal node; that frame may lie deeper than the one the walk began at |
| HoneySerial.UnrollStopsEarly | honey/sgf.py:312-314 | on `(;GM[1](;B[tt];W[tt];B[tt])(;B[aa]))` the unrolling as written stops at once, and the caller's `next(1)` raises "No variant.", although `MakeSgf` succeeds |
| HoneyRoundTrip.ReadNode | honey/sgf.py:187-196 | reading a node's text appends that very node to the branch being filled |
| HoneyRoundTrip.ReadLine | honey/sgf.py:240-284 | reading the walk of a canonical line appends the rest of the line |
| HoneyRoundTrip.ReadBranch | honey/sgf.py:198-219 | one written branch `(...)` is read back and closed into its fork, after the branches before it |
| HoneyRoundTrip.ReadBranches | honey/sgf.py:198-219 | reading the branches of a fork closes each into the fork in turn |
| HoneyRoundTrip.ReadGame | honey/sgf.py:174-185 | reading a canonical game's text adds the game to the finished ones |
| HoneyRoundTrip.ParseGames | honey/sgf.py:286-334 | parsing canonical games written one after another by the corrected writer gives exactly those games back |
| HoneyRoundTrip.RoundTrip | honey/sgf.py:326-394 | `parseSgf(makeSgf(coll)) == coll`, `makeSgf` with the corrected unroll, for every non-empty collection of canonical games |
| HoneyRoundTrip.WritingIsInjective | honey/sgf.py:286-315 | `makeSgf` with the corrected unroll tells different canonical collections apart |
| HoneyRoundTrip.TextRoundTrip | honey/sgf.py:326-394 | the text direction: a text the corrected writer made of canonical games parses, and `makeSgf(parseSgf(s)) == s` |
| HoneyRoundTrip.SpacedRoundTrip | honey/sgf.py:336-345 | text without `(`, white space in particular, before, between and after the written games leaves their parse unchanged, as around the games of `test_more_games` |
| HoneyRoundTrip.SpaceAfterCloseRoundTrip | honey/sgf.py:378-394 | text without `;`, `(` and `)` after a `)` that closes a game or a branch, as the line breaks of `test_multi_branches`, still parses to the written games, and writing them gives the text without it |
| HoneyRoundTrip.EmptyBranchParses | honey/sgf.py:198-219 | `(;A[1]())` parses to a game ending in a fork with one empty branch, which is not well-formed: the cursor's `assert` at line 83 fails on it |
| HoneySgfTests.RootOrder | honey/sgf.py:153-156 | `sorted` puts `FF[4]` before `GM[1]` before `SZ[19]` |
| HoneySgfTests.RootText | honey/sgf.py:367-394 | the root `{'SZ': '19', 'GM': '1', 'FF': '4'}` of `test_simple_branches` and `test_multi_branches` is written `;FF[4]GM[1]SZ[19]` |
| OldTree.GetPut | sgf.py:92-118 | after replacing a line, its address leads to the new line |
| OldTree.PutGrows | sgf.py:175-199 | replacing a line by one that only grew makes the whole tree only grow |
| OldTree.GrowsAt | sgf.py:175-199 | growth keeps every address leading somewhere, to a line that grew |
| OldTree.PutAbove | sgf.py:92-118 | replacing a deeper line keeps each line above it the same length, changing only the branches of the node on the way down |
| OldTree.PutAside | sgf.py:92-118 | lines off the path are unchanged |
| OldTree.PutPlain | sgf.py:92-118 | replacing a line by one without a text `variants` property keeps the tree free of one |
| OldTree.CountAppend | sgf.py:92-118 | the node count of two lines joined is the sum of their counts |
| OldTree.CountPut | sgf.py:92-118 | replacing a line changes the node count by the difference of the two lines |
| OldTree.Truthy | sgf.py:167-173 | a `Node` dict is truthy exactly when it has a key, `variants` included |
| OldParse.GameStartOp | sgf.py:162-165 | `on_game_start` appends an empty game and pushes it |
| OldParse.GameStopOp | sgf.py:167-173 | "Invalid end of the game." unless only the trunk is open, "Empty game." for a falsy current node, otherwise the game is closed |
| OldParse.NodeOp | sgf.py:175-178 | "No current game." without a game; otherwise a fresh empty `Node` at the end of the top list, which becomes current |
| OldParse.PropertyOp | sgf.py:180-184 | "No current node." or "Duplicate property."; otherwise the property is added |
| OldParse.BranchStartOp | sgf.py:186-190 | "No current node." without one; otherwise a new branch at the end of the node's `"variants"` list (created if missing), pushed |
| OldParse.BranchStopOp | sgf.py:192-199 | "No current branch." with only the trunk open; "Empty branch." if the list below is empty; otherwise the current node is the last node of that list |
| OldParse.Handle | sgf.py:146-212 | every callback keeps the handler invariant: each list on the branch stack and the current node are in the games |
| OldParse.ResultOf | sgf.py:157-160 | "Empty collection." exactly when there are no games |
| OldParse.ParseSpec | sgf.py:214-218 | a successful parse has at least one game |
| OldParse.RunAppend | sgf.py:227-262 | reading `s + t` is reading `s`, then `t`; an error in `s` ends the run |
| OldParse.Step | sgf.py:227-262 | one loop turn keeps the handler invariant |
| OldParse.Run | sgf.py:220-262 | the whole loop keeps the handler invariant |
| OldParse.CollectionSkips | sgf.py:227-231 | outside a game every character but `(` is skipped |
| OldParse.SeqSkips | sgf.py:232-255 | between nodes every character but `;`, `(` and `)` is skipped |
| OldParse.NodeGathers | sgf.py:261-262 | inside a node the characters of a name are only gathered |
| OldParse.ValueGathers | sgf.py:256-262 | inside `[...]` every character but `]` is kept verbatim |
| OldCursor.FirstNodes | sgf.py:127-130 | the first nodes of the non-empty branches, and no other node |
| OldCursor.PyIndex | sgf.py:58-63 | Python's `xs[v]` refers to index `v`, or `n + v` for negative `v` |
| OldCursor.NextLands | sgf.py:48-72 | the frame `next` pushes is at a node further on |
| OldCursor.NextFrame | sgf.py:48-72 | `next(v)` raises only "Invalid variant.", "No variant.", an IndexError or an AssertionError; it stays, with `None`, exactly at the end of a line at a node without variants and `v == 0`; otherwise the new frame is the next node of the line for a node without variants, or the first node of one of its non-empty branches |
| OldCursor.NextNode | sgf.py:48-72 | the error, the `None` or the node of the frame `NextFrame` gives, each exactly when `NextFrame` gives it |
| OldCursor.AddToLine | sgf.py:92-118 | the only refusal is "Node already exists."; otherwise the line keeps the nodes before the cursor's node and that node's properties other than `variants` |
| OldCursor.AddNodeTree | sgf.py:92-118 | fails exactly when `AddToLine` does, with "Node already exists."; otherwise the cursor's address leads to the line `AddToLine` gives |
| OldCursor.IsSameMove | sgf.py:137-144 | `None` is never the same move; otherwise it holds iff each of `W` and `B` is in both with the same value or in neither |
| DbVariant.Advance | db.py:197-203 | a successful `next` keeps a valid stack |
| DbVariant.Walk | db.py:193-203 | the merge keeps the game free of a text `variants` property |
| DbVariant.FirstMatch | db.py:195-198 | the variant the `for` loop breaks at: the lowest one whose peek matches the move, every peek before it being clean and different |
| DbVariant.PatchSpec | db.py:190-204 | `patch_game_with_variant` as written: "Empty game." for an empty game, the game itself for an empty path, and otherwise a non-empty game still free of a text `variants` property |
| DbVariant.PatchFixed | db.py:190-204 | the same merge with the peek that always undoes its step, with the same guarantees |
| HoneyDb.Noted | honey/db.py:360-365 | noting keeps the game walkable |
| HoneyDb.NotedKeepsStack | honey/db.py:360-365 | noting keeps the cursor's stack valid |
| HoneyDb.Walk | honey/db.py:355-359 | walking the path keeps a valid stack |
| HoneyDb.AddComment | honey/db.py:354-365 | one comment keeps the game walkable |
| HoneyDb.RootOnlyWalk | honey/db.py:355-359 | on a blank game every path stays at the root or fails with "No variant." |
| HoneyDb.RootOnlyJump | honey/db.py:356-359 | on a blank game each pair stays at the root or fails with "No variant." |
| OldParse.NoGameIsEmptyCollection | sgf.py:288-296 | a text without `(` fails with "Empty collection." |
| OldParse.GameWithoutNodes | sgf.py:298-306 | a game without a node fails with "Empty game." |
| OldParse.BranchBeforeNode | sgf.py:186-190 | a branch opened before the first node fails with "No current node." |
| OldParse.ReadProperty | sgf.py:238-260 | reading `name[value]` hands the property to `on_property`, an empty name included |
| OldParse.DuplicateProperty | sgf.py:180-184 | a second value for the same name fails with "Duplicate property." |
| OldParse.NestedBranchesAfterNode | sgf.py:186-199 | on `(;((;)` and whatever follows: the second `(` opens another branch of the first node, so the `)` returns to an empty branch and fails with "Empty branch." |
| OldParse.OldHandler.OnGameStart | sgf.py:162-165 | the fields become `GameStartOp` of the old ones |
| OldParse.OldHandler.OnGameStop | sgf.py:167-173 | the fields follow `GameStopOp`, or the error with the fields unchanged |
| OldParse.OldHandler.OnNode | sgf.py:175-178 | the fields follow `NodeOp`, or the error |
| OldParse.OldHandler.OnProperty | sgf.py:180-184 | the fields follow `PropertyOp`, or the error |
| OldParse.OldHandler.OnBranchStart | sgf.py:186-190 | the fields follow `BranchStartOp`, or the error |
| OldParse.OldHandler.OnBranchStop | sgf.py:192-199 | the fields follow `BranchStopOp`; on "Empty branch." the stack has already been popped, as in the source |
| OldParse.OldHandler.GetResult | sgf.py:157-160 | returns `ResultOf` the fields |
| OldParse.Feed | sgf.py:227-262 | one loop turn: the lexer's move and the callback it fires, as `Step` says |
| OldParse.FeedClose | sgf.py:247-255 | the `)` rule: `on_game_stop` at depth 0, else `on_branch_stop` one level up, with the lexer state and handler state (or error) that `Step` gives |
| OldParse.FeedValue | sgf.py:256-260 | the `]` rule: `on_property` with the name and the accumulated value, back in the node, as `Step` gives |
| OldParse.RunParser | sgf.py:220-262 | the loop ends in the state `Run` gives, or with its first error |
| OldParse.ParseSgf | sgf.py:214-218 | equals `ParseSpec` |
| OldCursor.VariantsNum | sgf.py:42-46 | at least 1; the branch count for a node with forks |
| OldCursor.NextOutcome | sgf.py:48-72 | `next(v)`: "Invalid variant." iff a node with forks gets too large a `v`; "No variant." iff a node without forks gets `v != 0`; `None` iff at the end of a line; otherwise the frame it moves to |
| OldCursor.NextKeepsStack | sgf.py:48-72 | pushing that frame keeps a valid stack |
| OldCursor.Children | sgf.py:120-130 | `_get_children`: the next node of the line for a node without branches; for a node with branches, exactly the first nodes of its non-empty branches |
| OldCursor.AddNodeCases | sgf.py:92-118 | the three cases of `add_node`, each with its "Node already exists." refusal |
| OldCursor.AddToLineKeepsPrefix | sgf.py:92-118 | the new line keeps everything up to the current node and its properties |
| OldCursor.AddNodeKeepsStack | sgf.py:92-118 | `add_node` never moves the cursor and keeps every frame's node properties |
| OldCursor.AddNodeElsewhere | sgf.py:92-118 | only the line at the cursor changes |
| OldCursor.AddNodeCount | sgf.py:92-118 | `add_node` adds exactly one node when the cursor is at the end of its line or its node has no branches |
| OldCursor.AddThenNext | sgf.py:92-118 | after `add_node`, the last variant leads to the new node |
| OldCursor.SameMoveMeaning | sgf.py:137-144 | `is_same_move` holds iff the other is a node with the same `W` and `B`, absent counting as `None`; `None` is never the same move |
| OldCursor.NewCursor | sgf.py:26-32 | "Empty game." iff the game is empty, else at the root |
| OldCursor.OCursor.GetNode | sgf.py:34-36 | the node at the top frame of the stack; the game's first node while the cursor is at the root |
| OldCursor.OCursor.GetVariantsNum | sgf.py:42-46 | 1 for a node without `variants`, else the length of its `variants` list; so at least 1 unless that list is empty, which the source never builds |
| OldCursor.OCursor.Next | sgf.py:48-72 | returns `NextNode` and pushes exactly the frame `NextFrame` gives |
| OldCursor.OCursor.GetNext | sgf.py:74-79 | returns what `next` returns and undoes the step only for a truthy node |
| OldCursor.OCursor.Previous | sgf.py:81-90 | at the root `None` and unchanged; otherwise one frame popped |
| OldCursor.GrowLine | sgf.py:98-118 | the list holding the cursor's node becomes what `AddToLine` says: the node appended, added as a new variant, or the rest of the line and the node made into two variants; or "Node already exists." |
| OldCursor.OCursor.AddNode | sgf.py:92-118 | the game becomes `AddNodeTree` of the old one, or the error and nothing changes |
| DbVariant.Peek | sgf.py:74-79 | `get_next` as used by the merge: returns what `next` returns, and leaves the stack one frame longer exactly when the node reached is empty, unless the peek is the corrected one |
| DbVariant.Follow | db.py:195-203 | the inner loop keeps a valid stack on a growing game |
| DbVariant.AddThenFollow | db.py:199-203 | after the node is added, the cursor is on it, in the game with the node added; or the error of `add_node` or `next` |
| DbVariant.TryVariant | db.py:195-198 | one pass over variant `v` ends the merge where `Follow` says when the peeked node is the same move or the peek fails, and otherwise leaves `Follow` from `v + 1` to do |
| DbVariant.AddAndFollow | db.py:199-203 | the `else` branch: `add_node`, then `next` into the last variant, as `Follow` says |
| DbVariant.MergeMove | db.py:194-203 | one move of the merge ends where `Follow` says |
| DbVariant.MergeAt | db.py:193-203 | one turn of `for node_dict in full_path`: the rest of the merge is the walk over the moves after this one, or the move's error |
| DbVariant.PatchGameWithVariant | db.py:190-204 | the merge equals `PatchSpec` |
| DbVariant.LowestMatch | db.py:195-198 | the lowest variant with the same move is followed and the game is left as it was, so the matched node is untouched and the move's other properties are dropped |
| DbVariant.PresentKeepsGame | db.py:192-198 | merging a path already in the game adds no node and no variant |
| DbVariant.EmptyPath | db.py:192-204 | an empty path leaves the game unchanged |
| DbVariant.AlongTrunk | db.py:192-198 | a path made of the moves after the cursor on a game without forks leaves it unchanged |
| DbVariant.NoMatchAddsOne | db.py:199-203 | with no match, exactly one node is added and the cursor ends on it |
| DbVariant.FollowAddsAt | db.py:195-203 | with no same move among the clean peeks, the inner loop ends in its `else` branch: the node is added and the cursor enters its last variant |
| DbVariant.PeekOntoEmptyNode | sgf.py:74-79 | merging `B[aa]` into `;GM[1];;B[aa]` as written fails with "Node already exists." |
| DbVariant.FixedPeekForks | sgf.py:74-79 | with the peek always undone, the same merge forks the game at the root |
| DbVariant.FixedPeekStays | sgf.py:74-79 | the peek that always undoes never moves the cursor |
| OldDb.CreateGame | db.py:141-163 | a parse error is refused; another error escapes; an empty first game is an IndexError; otherwise the first game with its root's `RE` fixed |
| OldDb.StoredGame | db.py:150-160 | the stored game has the node count of the parsed one, no bare `B`/`W` result, and has a text `variants` property only if the parsed one has |
| GameRoot.FixResult | db.py:155-160 | `RE` of `B` or `W` becomes `B+` or `W+`; any other value, a missing `RE` and every other key stay |
| GameRoot.FixResultIdempotent | honey/db.py:271-276 | the fix applied twice is the fix applied once |
| GameRoot.PyInt | honey/db.py:63 | Python 2 `int()` of a str: white space, an optional sign, white space, at least one decimal digit and white space give the value; anything else is a ValueError; a value needs a digit of the input, and a negative one its `-` |
| GameRoot.PyIntSpaceAfterSign | honey/db.py:63 | white space between the sign and the digits is skipped: `int("- 1")` is -1 and `int("+ 1")` is 1 |
| GameRoot.PyIntReadsNumerals | honey/db.py:63 | `int()` reads back every decimal numeral |
| GameRoot.PyIntReadsDigits | honey/db.py:63 | `int()` of a non-empty string of decimal digits, leading zeros included, is its decimal value |
| GameRoot.PyIntRefusesBlank | honey/db.py:63 | `int()` of an empty or all-white-space string raises ValueError |
| GameRoot.TypePrefix | honey/db.py:69-71 | `re.match(r"^%s[0-9\.]" % game_type, event)` holds iff the event is the type name followed by a digit or `.`, then anything |
| GameRoot.FromLittleGolem | honey/db.py:156-157 | `is_from_little_golem` iff the root's `SO` is `http://www.littlegolem.com` |
| GameRoot.Event | honey/db.py:130-132 | `event` is the root's `EV`, or `?` without one |
| GameRoot.TypePrefixesExclusive | honey/db.py:69-71 | the patterns `^go[0-9.]` and `^hex[0-9.]` never both match |
| GameRoot.TypeFromGM | honey/db.py:51-66 | with `GM`: a ValueError when `int()` refuses it, `go` iff it is 1, `hex` iff it is 11, else nothing |
| GameRoot.ResolveType | honey/db.py:54-74 | the `GM` type when there is one; otherwise a Little Golem game whose event starts with a type name and a digit or `.`; otherwise False |
| GameRoot.GMNumbers | honey/db.py:51-66 | `GM[1]` is go and `GM[11]` is hex, whatever else the root holds |
| GameRoot.SpacedSignIsGo | honey/db.py:61-64 | a root with `GM[+ 1]` resolves to go |
| GameRoot.FixKeepsType | honey/db.py:271-278 | the result fix does not change the type guessed |
| HoneyDb.CreateGame | honey/db.py:259-282 | "cannot parse sgf" exactly on a parse error; a stored game is the parsed first game with its root fixed, of type go or hex, the one expected if any |
| HoneyDb.MismatchRefused | honey/db.py:279-280 | the mismatch refusal happens exactly when a type was found and differs from the expected one |
| HoneyDb.StoredRootIsFixed | honey/db.py:271-276 | a stored root has no bare `B` or `W` result, and fixing it again changes nothing |
| HoneyDb.NewGame | honey/db.py:284-294 | a blank game is one empty root node, and a cursor can walk it |
| HoneyDb.Annotate | honey/db.py:362-365 | the `C` property becomes its old value (or `""`) followed by `On <date> <user> said:\n<text>\n\n`; other properties are kept |
| HoneyDb.Note | honey/db.py:363-364 | the note starts with `On <date>` and ends with the comment's text and two line breaks |
| HoneyDb.AnnotateTwice | honey/db.py:353-365 | notes on the same node pile up in the order they are written |
| HoneyDb.NotedEffect | honey/db.py:360-365 | noting a node changes that node only, and an empty node not at all |
| HoneyDb.Jump | honey/db.py:356-359 | the hops of one pair keep a valid stack, only push, and push at most `jump` frames |
| HoneyDb.WalkNoting | honey/db.py:355-365 | the loop over the pairs keeps a valid stack on the noted tree |
| HoneyDb.Patch | honey/db.py:346-366 | the patched game stays walkable |
| HoneyDb.PatchAppend | honey/db.py:353-354 | comments are applied in list order: patching with `cs + ds` is patching with `cs`, then `ds` |
| HoneyDb.CommentLandsOnce | honey/db.py:355-365 | noted once, a comment changes only the node its path leads to |
| HoneyDb.EmptyPathNotesNothing | honey/db.py:355-365 | as written, a comment with an empty path notes no node |
| HoneyDb.JumpAlongTrunk | honey/db.py:356-359 | on a line without forks, `jump` steps from node `i` reach node `i + jump`, or the last node when the line ends first |
| HoneyDb.NewGameDropsComments | honey/db.py:289-361 | on a blank game every comment is dropped (its root is empty), or the walk fails with "No variant." |
| HoneyDb.NotesEveryPair | honey/db.py:355-365 | as written, the path `[(0,1),(0,1)]` on a three-node line notes both the second and the third node |
| HoneyDb.NotesOnlyTheEnd | honey/db.py:355-365 | noted once, the same comment lands only on the third node |
| HoneyDb.NextHop | honey/db.py:357-359 | one `cursor.next(branch)` either fails with the error `Jump` gives or leaves the rest of the pair's walk to do from the new stack, with branch 0 |
| HoneyDb.NoteHere | honey/db.py:360-365 | the cursor's node gets the note, unless it is empty; the stack is not moved |
| HoneyDb.NotePair | honey/db.py:356-365 | one pair's hops, then the note, either fail with the error `WalkNoting` gives or leave the remaining pairs to walk in the noted tree |
| HoneyDb.JumpCursor | honey/db.py:356-359 | the hop loop leaves the stack `Jump` gives, or returns its error |
| HoneyDb.NoteAlong | honey/db.py:355-365 | the loop over the pairs leaves the game and stack `WalkNoting` gives, or its error |
| HoneyDb.PatchGameWithComments | honey/db.py:346-366 | equals `Patch` as written |
| Paging.RangeAt | pagination.py:24-30 | `range(lo, hi)` has `max(0, hi - lo)` numbers, `lo + i` at index `i` |
| Paging.Pagination.Pages | pagination.py:51-53 | `pages` is at least 1 and `(pages - 1) * per_page <= max(0, count - 1) < pages * per_page` |
| Paging.Pagination.HasPrevious | pagination.py:37-38 | iff some page comes before the current one |
| Paging.Pagination.HasNext | pagination.py:40-41 | for a page of at least 1, iff entries are left after the current page: `page * per_page < count` |
| Paging.Pagination.Before | pagination.py:19-25 | the numbers before the page are empty iff there is no previous page, and otherwise run from 1 to `page - 1` |
| Paging.Pagination.After | pagination.py:29-35 | the numbers after the page are empty iff there is no next page, and otherwise run from `page + 1` to `pages` |
| Paging.Pagination.Iter | pagination.py:18-35 | `__iter__` yields the numbers before, the page once, then the numbers after, with `page - 1` and `page + 1` right beside it when those exist |
| Paging.PagesIsCeiling | pagination.py:51-53 | `pages` is at least 1, and is the ceiling of `count / per_page` for `count >= 1` |
| Paging.BeforeIsBelow | pagination.py:19-25 | the numbers before the current page are at least 1, below it and increasing, with a gap marker right after 1 exactly when `batch_lo > 2` |
| Paging.AfterIsAbove | pagination.py:28-35 | the numbers after it are above it, at most `pages` and increasing, with a gap marker before the last exactly when `batch_hi < pages` |
| Paging.AfterAt | pagination.py:28-35 | with a next page, the numbers after the current page are `page + 1` up to `batch_hi`, a gap marker exactly when `batch_hi < pages`, then `pages`, element by element |
| Paging.CurrentPageOnce | pagination.py:18-35 | the current page is yielded exactly once, with smaller numbers before and larger after |
| Paging.FirstAndLast | pagination.py:18-41 | the strip starts with 1 iff `has_previous`, else with the page, and ends with `pages` iff `has_next`, else with the page |
| Paging.IncreasingWithinBounds | pagination.py:18-35 | for a page within the listing, the numbers shown increase strictly and lie in `[1, pages]` |
| Paging.GapMarkers | pagination.py:21-34 | where the gap markers appear, and nowhere else |
| Paging.WindowWidth | pagination.py:13-30 | apart from the first and last page, only pages at most 5 away are shown, whatever `neighbours` was passed |
| HsgfLexer.Feed | static/js/hsgf.js:66-130 | one pass of the loop body emits the events, sets the lexer variables and returns exactly as `Step` says for that character |
| HsgfLexer.Step | static/js/hsgf.js:66-130 | the loop returns exactly on `)` in a node at depth 0; at most one event per character; a property is emitted only on `]` after a value, with the name and the value read; a game property only in the first node |
| HsgfLexer.Exec | static/js/hsgf.js:59-132 | no more events than characters, and a return only if the text holds a `)` |
| HsgfLexer.StepBalance | static/js/hsgf.js:94-114 | one character moves the depth by its branch starts minus its branch stops and never below zero |
| HsgfLexer.SgfParse | static/js/hsgf.js:59-132 | the loop emits the events `Exec` gives |
| HsgfLexer.ExecAppend | static/js/hsgf.js:59-132 | running over `a + b` runs over `a`, then, unless it returned, over `b` |
| HsgfLexer.OnlyFirstGame | static/js/hsgf.js:103-108 | once the lexer has returned at the `)` of the first game, nothing after it is read |
| HsgfLexer.DepthBalance | static/js/hsgf.js:94-114 | the depth counts branch starts minus branch stops and never goes negative |
| HsgfLexer.AfterFirstNodeOnlyMoves | static/js/hsgf.js:81-127 | after the first node every property goes to `onMove` |
| HsgfLexer.WithinFirstNodeOnlyGameProperties | static/js/hsgf.js:116-127 | while the lexer is in the first node every property goes to `onGameProperty` |
| HsgfLexer.Accumulates | static/js/hsgf.js:130 | characters no rule takes only grow `accum` |
| HsgfLexer.ReadProperty | static/js/hsgf.js:87-128 | `name[value]` makes `accum` the name, then emits the property with the value |
| HsgfLexer.LeadingTextJoinsFirstName | static/js/hsgf.js:71-79 | text before `(;` becomes a prefix of the first property name |
| HsgfLexer.ClosingAfterVariationsDoesNotEnd | static/js/hsgf.js:103-130 | in the sequence state a `)` closes nothing and does not end the game, so `)(` opens a branch one level deeper |

## Left out

- I/O, the web layer, the database and its documents are not modelled. That covers
  views, forms, sessions, `save`, `find`, players, users, comment records,
  `order`, `sync_game_update` and `export`. The calls into them are left out.
- The user id, the upload date, `strftime` and the user name are parameters: a
  comment carries its date as an already formatted string.
- Handler events: the lexers are modelled with the events they fire. A
  callback that raises ends the run, as the exception does in the source.
- `Game.komi`, `size`, `handicap` and the other root accessors are not modelled.
  Only `source` and `event` are, because `resolve_type` uses them.
- static/js/honey.js, `sgfOutput` and `String.prototype.format` are not
  modelled. They are DOM code, or depend on code outside the file.
- honey/sgf.py and sgf.py `has_variants` are folded into
  `VariantsAt`/`VariantsNum`; `get_variants` is the function `VariantsAt`
  (honey) or `FirstNodes` (sgf.py), with `HoneyCursor.Cursor.GetVariants` a
  thin wrapper on the cursor's top frame; `__str__` methods are not modelled.
- OldCursor, DbVariant: the old cursor is modelled on trees with no text
  property named `variants` (`Plain`). In the source such a property is the same
  dict entry as the node's branches. Calls on a node with such a text property
  (a Python crash in the source) are not modelled.
- HoneyCursor.NewCursor, HoneySerial.MakeSgf, HoneySerial.WriteGame,
  HoneySerial.WriteCollection, HoneyDb.PatchGameWithComments: they require
  well-formed games: a game starts with a node, and every fork has at least
  one branch, each a non-empty well-formed line. Games with an empty
  branch, which the parser does produce (`HoneyRoundTrip.EmptyBranchParses`:
  `(;A[1]())`), are excluded. The source raises an AssertionError at
  honey/sgf.py:83 when `next` steps into an empty branch; `makeSgf` reaches it
  through lines 304 and 308. Games whose walks never reach their empty branch
  are excluded too, although the source handles them: `(;A[1];())` is written
  as `(;A[1])`, because the walk stops at the empty node before the branch, and
  a comment whose path avoids the empty branch is noted.
  A game stored by `sync_game_update` with another shape is not modelled either.
- HoneyDb.PatchGameWithComments: when a comment's walk raises, the source has
  already written the notes of the earlier comments and pairs into the game
  object. The model returns only the error, not that partly written game.
- HoneyDb.CreateGame, OldDb.CreateGame: do not model `save`. That means the
  player records and the `str(type)` conversion.
- Paging.Pagination.Pages, Paging.Pagination.HasNext, Paging.Pagination.After,
  Paging.Pagination.Iter and the lemmas about them (PagesIsCeiling, AfterIsAbove,
  AfterAt, CurrentPageOnce, FirstAndLast, IncreasingWithinBounds, GapMarkers,
  WindowWidth): require `per_page > 0`. With zero, `pages` raises
  ZeroDivisionError; that case is not modelled.
- GameRoot.ResolveType: `assert(not self.type)` at honey/db.py:60 is not
  modelled: `create_game` calls `resolve_type` once, on a new `Game()` whose
  type has not been set, so the assertion cannot fail from there.
- GameRoot.TypeFromGM: `int()` is modelled on the characters of a str:
  ASCII white space, an optional sign, more white space and decimal digits.
  Two cases are not modelled. Unicode digits in a unicode value are not
  read. A literal too large for a machine int goes to the long reader,
  which also accepts a trailing `L`; the model refuses that `L`.
- A lemma about reading back `makeSgf` is stated for canonical games:
  - non-empty nodes;
  - property names that the lexer reads back as they are written;
  - values without `]`;
  - forks with at least two branches.

  The writer does not preserve the other games, so nothing is claimed about them.
- HoneySerial.MakeSgf, HoneySerial.MakeSgfGames, HoneySerial.Walk,
  HoneySerial.WalkStep, HoneySerial.WriteVariants, HoneySerial.WriteGame,
  HoneySerial.SerGamesSnoc, HoneySerial.WriteCollection,
  HoneyRoundTrip.ParseGames, HoneyRoundTrip.RoundTrip,
  HoneyRoundTrip.WritingIsInjective: these state the writer with the corrected
  unroll (see Findings). `makeSgf` as written raises "No variant." on some
  canonical games (`HoneySerial.UnrollStopsEarly`), so they are not claims about
  it; `HoneySerial.UnrollByValue` models the unroll as written.
- HoneySerial.MakeSgfGames: states the writer with the corrected unroll.
- HoneySerial.Walk: its fork case uses the corrected unroll.
- HoneySerial.WalkStep: its fork case uses the corrected unroll.
- HoneySerial.WriteVariants: returns the cursor to the fork only with the corrected unroll.
- HoneySerial.SerGamesSnoc: is the text of the writer with the corrected unroll.
- HoneyRoundTrip.ParseGames: reads back the text of the writer with the corrected unroll.
- HoneyRoundTrip.WritingIsInjective: is a property of the writer with the corrected unroll.
- HoneySgfTests.RootText: the whole texts of `test_simple_branches` and
  `test_multi_branches` are not proved as instances. Only their root node is;
  the rest is covered by the general lemmas `HoneyRoundTrip.TextRoundTrip`,
  `HoneyRoundTrip.SpacedRoundTrip` and `HoneyRoundTrip.SpaceAfterCloseRoundTrip`.
  Reading a literal text of that length is beyond the verifier's resource limit.

## Findings

| source | as written | input that shows it | evidently intended | confidence | as-written member | corrected member |
|---|---|---|---|---|---|---|
| honey/sgf.py:312-314 | after writing a variation, `_makeSgfFromCursor` pops until the current node is *equal* to the node it began at | `(;GM[1](;B[tt];W[tt];B[tt])(;B[aa]))`: the unroll stops on the last `B[tt]`, and writing the second variation raises "No variant." | pop back to the depth the call started at, so any game can be written | high, not executed | HoneySerial.UnrollStopsEarly | HoneySerial.MakeSgfFromCursor |
| sgf.py:74-79 | `get_next` undoes its step only when the node it reached is truthy, so a peek at an empty node moves the cursor | merging the path `[{B: aa}]` into `;GM[1];;B[aa]` raises "Node already exists." | a peek that leaves the cursor where it was, as its docstring says | medium, not executed | DbVariant.PeekOntoEmptyNode | DbVariant.FixedPeekForks |
| honey/db.py:360-365 | the note is written inside the loop over the `(branch, jump)` pairs, into the node reached after each pair | the path `[(0,1),(0,1)]` on `;GM[1];B[aa];W[bb]` writes the comment into both `B[aa]` and `W[bb]` | write the comment once, into the node the whole path leads to | medium, not executed | HoneyDb.NotesEveryPair | HoneyDb.NotesOnlyTheEnd |
