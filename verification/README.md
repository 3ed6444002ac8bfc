# Verified model of the butai client, bridge and capture tools

butai is a terminal workbench: a daemon owns the panes, a Rust client draws them, a
web bridge relays them to a browser, and Python tools exercise and photograph them.  This
project models the algorithms of the client, the bridge and the tools whose results are
determined by what is in the repository, and proves what they promise.

| modules | program part |
|---|---|
| CommitGraph, CommitGraphProofs | lanes of the commit graph |
| Glob | the wildcard matcher of ssh host patterns |
| Layout, LayoutTree, Window | split-tree geometry, its edits, and the window over it |
| Msgpack, MsgpackCodec, MsgpackProofs, MsgpackLaws, Singles, Bytes | the MessagePack codec of the test suite's client |
| Streams, EventStream, Bridge | the event-stream reader, the length-prefix bridge and its framed peer |
| TerminalTokens, Terminal, TerminalLaws, Frames | the terminal emulator of the frame capture, and its run-length encoder |
| Syntax, Colouring, TokenLaws, Highlighter | the source highlighter and the automaton it refines |
| Links, SingleLinks, ScreenCells, LinkList, ListOrder, ScreenLinks | the URL scanner, the map from cells to URLs and the order of their list |
| Roster, Routing | daemons, their keys, and the routing of qualified ids |
| Views, Selection | the table of remembered views, and linear text selection |
| Base, Strings | definitions they share |

Code that changes state is modelled by classes and loops, each proved against a
specification function or state transition; the theorems are about those, for every input,
every chunking or every run.  What a specification function answers is in turn fixed by laws
that do not mention it.  A few things the proofs brought out:

* The wildcard loop compares characters before it looks for a star, so a star in the name
  can use up the star of the pattern.  It is always sound; `Glob.ExactlyWhenComplete` says
  exactly when it is complete.
* The codec prints tuples as lists and reads only lists: a value comes back as it was exactly
  when there is no tuple in it, a tuple elsewhere comes back as a list, and a dictionary keyed
  by a tuple is printed and cannot be read (`MsgpackProofs.DecodeUndoesEncode`).
* A terminal sequence longer than 32 characters is recognized or not depending on where a
  read stopped (`TerminalTokens.ExactlyWhenStopsAreInvisible`); without one, nothing depends
  on it.
* The bridge's framing keeps the low 32 bits of a length, so as a function it is undone
  exactly on payloads below 4 GiB (`Bridge.DeframingUndoesFraming`); whether its web socket
  would ever hand it a longer one is outside the model.
* A bare host in capitals is taken for a link and offered without a scheme
  (`Links.OpenedHasScheme`).
* The list of URLs on screen is said to be in reading order; the code reads the stage first.
  Cell by cell that is reading order if and only if no stage is showing or nothing of the
  screen comes before it or between its rows (`ScreenCells.ReadInOrderExactly`).  The list is
  in reading order for all contents if and only if what comes before is too narrow for a link,
  which is five columns (`ListOrder.ListedInOrderExactly`); otherwise, as on the screen of
  `ListOrder.StageComesBeforeTheRowAbove`, a link above or beside the stage is listed behind
  one on it.
* Resizing toward the left or the top with a positive step never gives the target's side
  cells, though the comment above it can be read the other way: it takes the step, or one
  cell less, or as far as a minimum lets it (`LayoutTree.ResizeMovesOneWay`).  One cell less
  than a step of one is none.  The model follows the code.
* The refusal to remove a last daemon cannot be reached while the head of the roster is
  configured in the environment (`Roster.RemoveRefusesExactly`).

`dafny verify dfyconfig.toml` checks the whole project.

## Model

| member | source | states |
|---|---|---|
| CommitGraphProofs.Drawn | crates/butai-client/src/graph.rs:63-189 | For every page and limit: each edge from a commit to the next listing of a parent is one unbroken column in the rows, and in the printed text where the limit admits the column; every passing or merging column was sent down by a commit above that names a parent not listed since, so there are no phantom lines; the columns out of a row are the columns into the next; nodes and forks are as far left as they can be; and the text shows, cell by cell, the node as a merge exactly when the commit has more than one parent, a closing corner on each merged column, an opening one on each other forked column, a line on each other passing one, a run between two of these exactly on the columns crossed on the way to one, and nothing anywhere else; it ends in an ellipsis exactly when some column is cut |
| CommitGraphProofs.EdgeIsUnbroken | crates/butai-client/src/graph.rs:71-126 | Every parent edge starts at the child's node or fork, passes every row between, and ends at the parent's node or a merge, all in one column; ids may repeat and order is arbitrary |
| CommitGraphProofs.RowsArePacked | crates/butai-client/src/graph.rs:72-113 | No line runs further right than it has to: every column left of a commit that none above is pending on holds a line, and a further parent joins a column of the row exactly when it is awaited already, and otherwise opens the leftmost column that nothing leaves the row in |
| CommitGraphProofs.DrawnEdgeIsUnbroken | crates/butai-client/src/graph.rs:149-189 | In the drawing, that column holds only nodes, corners and vertical lines from end to end: no horizontal run and no blank interrupts it |
| CommitGraphProofs.FirstParentNeverDriftsRight | crates/butai-client/src/graph.rs:95-97 | A first parent is reached in the child's own column, and its node is never further right |
| CommitGraphProofs.EveryLineWasSent | crates/butai-client/src/graph.rs:83-113 | The converse of the unbroken edge: a column that passes a row or merges in it runs unbroken up to a row that starts it and names a parent not listed in between, which for a merging column is the row's own commit |
| CommitGraphProofs.LaneIsSent | crates/butai-client/src/graph.rs:67-127 | A lane that awaits an id below row n was sent down by a commit above that names it, and passed every row since |
| CommitGraphProofs.StepOrigin | crates/butai-client/src/graph.rs:71-120 | A lane that awaits an id below a row awaited it above, or was given to that parent here |
| CommitGraphProofs.ForksAreParents | crates/butai-client/src/graph.rs:99-113 | As many columns fork as the commit has parents after the first |
| CommitGraphProofs.FrontierIsPending | crates/butai-client/src/graph.rs:67-127 | Below row n the awaited ids are exactly those named by a commit above and not listed since |
| CommitGraphProofs.TopologicalFrontier | crates/butai-client/src/graph.rs:67-127 | On a topologically ordered page the awaited ids are exactly the parents seen and not yet listed |
| CommitGraphProofs.NoLaneOutlivesAClosedHistory | crates/butai-client/src/graph.rs:115-120 | No lane is left at the bottom of a page if and only if every named parent is listed further down |
| CommitGraphProofs.ColumnsAreContinuous | crates/butai-client/src/graph.rs:82-126 | The columns drawn out of the bottom of row i are exactly those drawn into the top of row i+1; a line meets the next node exactly when a commit above is pending on it |
| CommitGraphProofs.RowColumnsAreDistinct | crates/butai-client/src/graph.rs:75-93 | Within a row the node, the passing and the merging columns are distinct and ascending, and the node is left of all that merge; nothing of the kind is claimed of forks, which may reuse a merged column or join a passing one |
| CommitGraphProofs.MarksAreColumns | crates/butai-client/src/graph.rs:149-189 | A drawn cell is a node, corner or line exactly on the columns the row draws in, and the horizontal run lies strictly between two of them |
| CommitGraphProofs.OverflowIsReported | crates/butai-client/src/graph.rs:122-124 | No drawing exceeds the limit, and overflow is set exactly when some column was cut |
| CommitGraphProofs.StepAwaits | crates/butai-client/src/graph.rs:71-120 | One row replaces its own id by its parents in the awaited ids and touches no other |
| CommitGraphProofs.Survives | crates/butai-client/src/graph.rs:82-93 | A lane waiting for another commit passes the row and still waits below it, in the same column |
| CommitGraphProofs.Arrives | crates/butai-client/src/graph.rs:71-93 | A lane waiting for this commit ends at it, at or right of the node |
| CommitGraphProofs.Departs | crates/butai-client/src/graph.rs:95-113 | Each parent is awaited below the row in the node's column or in one forked there |
| CommitGraph.GraphRows | crates/butai-client/src/graph.rs:63-128 | The loop yields, for each commit, the row drawn from the lanes the rows above left open: the rows every theorem above is about |
| CommitGraph.PlaceNode | crates/butai-client/src/graph.rs:71-97 | The node takes the leftmost lane awaiting it or the first free one; every other such lane closes; the node's lane goes to the first parent |
| CommitGraph.CloseLanes | crates/butai-client/src/graph.rs:91-93 | The loop closes exactly the lanes at the merging columns |
| CommitGraph.OpenForks | crates/butai-client/src/graph.rs:99-113 | Each further parent is drawn in a lane that awaits it, opened only when there is none |
| CommitGraph.ForksOpen | crates/butai-client/src/graph.rs:99-113 | Every fork column awaits its parent once all are open, and nothing else was opened |
| CommitGraph.FreeLane | crates/butai-client/src/graph.rs:131-139 | A closed lane with none closed to its left; one is added at the right edge only when every lane is open |
| CommitGraph.Trim | crates/butai-client/src/graph.rs:118-120 | Trimming closed lanes at the right edge changes no open lane and leaves no closed one at the edge |
| CommitGraph.NodeLane | crates/butai-client/src/graph.rs:72-80 | The node is in the leftmost lane awaiting it, or in one that is not open |
| CommitGraph.MergedColumns | crates/butai-client/src/graph.rs:90-93 | The merged columns are, in ascending order, the awaiting ones other than the node's |
| CommitGraph.Width | crates/butai-client/src/graph.rs:42-50 | Every column drawn in is below the width, and the last column is drawn in |
| CommitGraph.WidthOf | crates/butai-client/src/graph.rs:42-50 | The loop over the three column lists finds that least sufficient width |
| CommitGraph.Glyphs | crates/butai-client/src/graph.rs:149-189 | The printed row shows in each cell what its columns ask for: node or merge node, closing corner, opening corner, line, crossing run or nothing; and an ellipsis follows exactly on overflow |
| CommitGraphProofs.TextShows | crates/butai-client/src/graph.rs:149-189 | The same of the row of a commit, told as a merge by its number of parents |
| Glob.GlobMatch | crates/butai-client/src/ssh_config.rs:192-215 | The two-cursor loop terminates; a yes is always right; with no star in the pattern or none in the name it answers exactly the relation "star is any run, question mark one character, all else itself" |
| Glob.FoundIsMatch | crates/butai-client/src/ssh_config.rs:192-215 | The loop's answer against the declarative relation: sound on every input, equal to it when either side holds no star |
| Glob.ExactlyWhenComplete | crates/butai-client/src/ssh_config.rs:199-209 | A pattern is answered rightly for every name if and only if it holds no star; a name for every pattern if and only if it holds none (the equality test comes before the star test) |
| Glob.SearchSound | crates/butai-client/src/ssh_config.rs:197-214 | From any state of the loop, success means a match from the cursors or from the last star |
| Glob.SearchComplete | crates/butai-client/src/ssh_config.rs:197-214 | From any state of the loop, failure rules out the cursors and every later start after the last star: earlier stars need no second visit |
| Glob.OnlyEarlier | crates/butai-client/src/ssh_config.rs:202-210 | If nothing matches at a further star or at the end of the name, no later start after the last star matches either |
| Glob.MissedName | crates/butai-client/src/ssh_config.rs:199-209 | Any pattern with a star misses a name it should match: the name that repeats the pattern with one more character behind its last star |
| Glob.MissedPattern | crates/butai-client/src/ssh_config.rs:199-209 | A name that goes on after its first star is missed by the pattern that ends in a star there |
| Glob.MissedTail | crates/butai-client/src/ssh_config.rs:199-209 | A name that ends in a star is missed by the same text ending in star and question mark |
| Layout.ExactTiling | crates/butai-client/src/layout.rs:122-137 | For every tree, ratio and area each cell of the area is in exactly one pane or exactly one separator, and no cell outside is in any |
| Layout.RectsStayInside | crates/butai-client/src/layout.rs:122-137 | No pane or separator, empty ones included, reaches outside the area |
| Layout.SplitCovers | crates/butai-client/src/layout.rs:254-285 | One split covers each cell of its area once |
| Layout.SidesKeepTheMinimum | crates/butai-client/src/layout.rs:254-297 | The sides of a split add up to its inner extent, and both get the minimum whenever twice the minimum is exceeded |
| Layout.Share | crates/butai-client/src/layout.rs:287-297 | The first side stays inside the inner extent, and inside the minimums where there is room |
| Layout.Round | crates/butai-client/src/layout.rs:287-297 | Rounding is to the nearest whole number, a half up, inside the 16-bit range |
| Layout.ShareIsNearest | crates/butai-client/src/layout.rs:287-297 | Of the sides the minimums allow, the one the ratio is given is the nearest to it, the larger of two equally near |
| Layout.ClampsAgree | crates/butai-client/src/layout.rs:232-235 | The clamp on the stored ratio never changes the rendered share, on every ratio and every extent the resize guard admits |
| Layout.ClampsAgreeExactly | crates/butai-client/src/layout.rs:232-297 | The two clamps agree on every ratio if and only if the extent is at most one or above five |
| LayoutTree.HasPane | crates/butai-client/src/layout.rs:67-73 | A tree holds a pane exactly when it is among its panes in order |
| LayoutTree.FirstPane | crates/butai-client/src/layout.rs:74-79 | The first pane is the head of the panes in order |
| LayoutTree.SplitRewritesOneLeaf | crates/butai-client/src/layout.rs:84-100 | A split succeeds exactly on a present target, and rewrites the first leaf that holds it and nothing else |
| LayoutTree.SplitInserts | crates/butai-client/src/layout.rs:84-100 | The new pane comes right behind the target in the order of panes, and nothing moves |
| LayoutTree.RemovePromotesTheSibling | crates/butai-client/src/layout.rs:105-118 | A removal replaces one split by the sibling of a leaf that holds the target; it fails, changing nothing, exactly on a lone leaf or an absent target |
| LayoutTree.RemoveDrops | crates/butai-client/src/layout.rs:105-118 | A removal takes one occurrence of the pane out of the order and moves nothing |
| LayoutTree.RemoveUndoesSplit | crates/butai-client/src/layout.rs:84-118 | Splitting off a fresh pane and removing it gives back the exact tree, ratios included |
| LayoutTree.ResizeAdjustsDeepest | crates/butai-client/src/layout.rs:143-197 | A resize changes one ratio, that of the deepest eligible split above the target, and fails, changing nothing, exactly when there is none |
| LayoutTree.ResizeMovesOneWay | crates/butai-client/src/layout.rs:151-197 | A resize by any step moves the target's side the way it was asked, never by more cells, and by at most one cell less unless a minimum held the side before or stops it now; left and up ask it to shrink (the code; the comment above it reads as if they enlarged it) |
| LayoutTree.ShareMoves | crates/butai-client/src/layout.rs:192-297 | Adding a step over the extent to a ratio moves the rounded and clamped share by the step, or one cell less, or as far as a minimum lets it |
| LayoutTree.ResizeMovesTheBorder | crates/butai-client/src/layout.rs:143-197 | The whole resize: success exactly when some split above the target is eligible, and then the deepest one's border moves as asked, to within a cell or as far as a minimum lets it |
| LayoutTree.ResizeKeepsPanes | crates/butai-client/src/layout.rs:143-197 | A resize keeps the panes and their order |
| LayoutTree.ResizeKeepsTheOtherAxis | crates/butai-client/src/layout.rs:143-197 | A resize moves and stretches panes along its own axis only |
| Window.NeighborIsNearest | crates/butai-client/src/layout.rs:201-229 | The neighbour is another pane beside this one, none nearer (by gap, then by shared edge); there is none exactly when no pane lies on that side |
| Window.OverlapIsShared | crates/butai-client/src/layout.rs:237-249 | Two rectangles overlap by as many rows, or columns, as lie in both |
| Window.SecondIsRightOrBelow | crates/butai-client/src/layout.rs:254-285 | The second side of a split lies right of the first, or below it, one cell away, along the whole edge |
| Window.NeighborLeadsBack | crates/butai-client/src/layout.rs:201-229 | Whoever has a neighbour on one side is found when moving back from it: there is always a way back |
| Window.Best | crates/butai-client/src/layout.rs:206-228 | The first of the nearest candidates is chosen, and one is chosen whenever there is a candidate |
| Window.RunsStaySafe | crates/butai-client/src/layout.rs:308-371 | Over any run of splits with fresh panes, removals, focus moves and zoom toggles pane ids stay distinct and the focused and zoomed panes stay in the tree |
| Window.NewWindowStaysSafe | crates/butai-client/src/layout.rs:308-371 | The same over any run from a new window of one pane |
| Window.SplitIsSafe | crates/butai-client/src/layout.rs:324-331 | Splitting succeeds, focuses the new pane, and adds just it |
| Window.RemoveIsSafe | crates/butai-client/src/layout.rs:335-350 | Removal deletes only that pane from the order; it reports an empty window exactly on the lone pane and not found exactly on an absent one, and then keeps the tree |
| Window.SplitThenRemove | crates/butai-client/src/layout.rs:324-350 | Splitting off a fresh pane and removing it restores the exact tree, unzoomed and focused on its first pane |
| Window.Window.VisibleRects | crates/butai-client/src/layout.rs:315-322 | The zoomed pane alone on the whole area; otherwise every pane, in order, inside the area, each cell of which is in exactly one pane or one separator |
| Window.Window.Split | crates/butai-client/src/layout.rs:324-331 | Succeeds exactly when the focus is in the tree; then the focused leaf is an even split of itself and the new pane, and the new pane has the focus; nothing is zoomed either way |
| Window.Window.Remove | crates/butai-client/src/layout.rs:335-350 | Says whether it removed the pane, found a lone one or none; puts its sibling in its parent's place; the focus stays, or goes to the first pane if it was there; a zoom on it ends, and any other stays |
| Window.Window.FocusDir | crates/butai-client/src/layout.rs:352-362 | On an unzoomed window, succeeds exactly when some other pane lies on that side; the focus is then on such a pane with none nearer, the first of equals; tree and zoom never change, nor the focus otherwise |
| Window.Window.ToggleZoom | crates/butai-client/src/layout.rs:364-370 | Zooms the focused pane when there are several and none is zoomed, and otherwise leaves none zoomed; nothing else changes |
| MsgpackProofs.DecodeUndoesEncode | testsuite/suite/msgpack.py:26-242 | What is printed parses back to the value if and only if there is no tuple in it, and to its list form if and only if no dictionary in it has a tuple for a key; otherwise parsing raises |
| MsgpackProofs.ReadsBackAt | testsuite/suite/msgpack.py:149-242 | The same in place: wherever an encoding lies in a buffer, parsing gives the list form and stops at its end, or raises on a tuple key |
| MsgpackProofs.HeadReadsBack | testsuite/suite/msgpack.py:149-207 | Every format of every type is read back by its tag: value, or length and position |
| MsgpackProofs.EncodeUndoesDecode | testsuite/suite/msgpack.py:26-242 | Whatever parses is a value without tuples that can be printed, and what is printed of it parses to it again |
| MsgpackProofs.EncodesExactlyWhatFits | testsuite/suite/msgpack.py:33-129 | Printing succeeds exactly on integers in [-2^63, 2^64) and lengths below 2^32, all the way down |
| MsgpackProofs.DecodeIsLocal | testsuite/suite/msgpack.py:149-242 | A parse that succeeds depends on no byte behind where it stops |
| MsgpackProofs.ParseIsPrefixFree | testsuite/suite/msgpack.py:137-146 | Of any byte string and its extensions at most one parses |
| MsgpackProofs.OnlyTheWholeEncodingParses | testsuite/suite/msgpack.py:137-146 | Every strict prefix and every extension of an encoding is rejected |
| MsgpackLaws.WholeOrRaises | testsuite/suite/msgpack.py:137-146 | Of a string that parses every strict prefix raises for want of bytes, and every extension for trailing ones |
| MsgpackLaws.HeadIsShortest | testsuite/suite/msgpack.py:33-129 | No bytes that read as a value, or as the head of a container, are fewer than those it is printed in, floats aside |
| MsgpackLaws.PrintsInFormat | testsuite/suite/msgpack.py:33-129 | The first byte printed is that of one of the value's formats in the specification's overview |
| MsgpackLaws.RefusesExtensions | testsuite/suite/msgpack.py:149-207 | A tag is refused exactly when it is one of the extension formats, or the one never used |
| MsgpackLaws.DoubleIs | testsuite/suite/msgpack.py:180-181 | A double word stands for the number IEEE 754 gives its sign, exponent and fraction, infinities and not-a-numbers included |
| MsgpackLaws.SingleIs | testsuite/suite/msgpack.py:178-179 | So does a single word |
| MsgpackLaws.StorePuts | testsuite/suite/msgpack.py:236-242 | A key that is there takes the new value where it stands, keeping its spelling; any other goes last; no other entry changes |
| MsgpackLaws.KeysAlike | testsuite/suite/msgpack.py:236-242 | An integer and a float are one key exactly when they are one number, and so are a truth value and one or zero; nil, strings and byte strings are the same key as themselves only |
| MsgpackLaws.SameKeyTransitive | testsuite/suite/msgpack.py:236-242 | Keys equal to one key are equal to each other |
| MsgpackLaws.SameKeyReflexive | testsuite/suite/msgpack.py:236-242 | A key is equal to itself exactly when it holds no not-a-number |
| MsgpackProofs.EncodingsArePrefixFree | testsuite/suite/msgpack.py:26-30 | For any two printable values, one's encoding begins the other's if and only if they are the same but for tuples and lists; without tuples, if and only if they are equal |
| MsgpackProofs.PrintedAlike | testsuite/suite/msgpack.py:33-129 | Two values printed at one place are the same but for tuples and lists, and equally long |
| MsgpackProofs.ListedPrintsAlike | testsuite/suite/msgpack.py:107-116 | A value and its list form print alike, or fail alike |
| MsgpackProofs.ListedIsSame | testsuite/suite/msgpack.py:228-233 | Listing changes a value exactly when it holds a tuple |
| MsgpackProofs.TupleComesBackListed | testsuite/suite/msgpack.py:228-233 | The pair (1, 2) comes back as the list of the same |
| MsgpackProofs.TupleKeyIsNotRead | testsuite/suite/msgpack.py:236-242 | A dictionary with the key (1,) is printed and cannot be read |
| MsgpackProofs.StoreFresh | testsuite/suite/msgpack.py:236-242 | Storing under a key that is not there yet appends |
| MsgpackProofs.StoreKeeps | testsuite/suite/msgpack.py:236-242 | Storing keeps the keys of a dictionary apart and adds one entry at most |
| MsgpackCodec.EncodeValue | testsuite/suite/msgpack.py:26-30 | The run over the shared buffer returns the whole encoding `DecodeUndoesEncode` is about, or the first failure |
| MsgpackCodec.Enc | testsuite/suite/msgpack.py:33-54 | Appends the value's whole encoding to the buffer, or raises the first failure |
| MsgpackCodec.EncArray | testsuite/suite/msgpack.py:107-116 | The loop appends the head and every item, in order |
| MsgpackCodec.EncMap | testsuite/suite/msgpack.py:119-129 | The loop appends the head and every key and value, in order |
| MsgpackCodec.DecodeValue | testsuite/suite/msgpack.py:137-146 | The whole input as one value; trailing bytes raise |
| MsgpackCodec.Dec | testsuite/suite/msgpack.py:149-207 | The value at a position and where it ends, or the first failure |
| MsgpackCodec.DecArray | testsuite/suite/msgpack.py:228-233 | The loop reads n items one behind the other |
| MsgpackCodec.DecMap | testsuite/suite/msgpack.py:236-242 | The loop reads n pairs; a later equal key replaces the value in place |
| Bytes.UnsignedOfBigEndian | testsuite/suite/msgpack.py:210-214 | A big-endian field reads back as the number written to it |
| Bytes.BigEndianOfUnsigned | testsuite/suite/msgpack.py:210-214 | Any bytes are the field their number is written to |
| Bytes.FirstCountsMost | testsuite/suite/msgpack.py:210-214 | The first byte of a field counts for the most |
| Singles.WidenKeepsTheNumber | testsuite/suite/msgpack.py:178-179 | A single-precision word is widened to the double of the same number: normal, subnormal, zero, infinite or not a number |
| Streams.ChunkingIsInvisible | crates/butai-client/src/daemon.rs:288-306 | For any cutter whose first record survives extension: after any chunking what was delivered and what is held are the records and the tail of the whole stream |
| Streams.DrainEarly | crates/butai-client/src/daemon.rs:288-306 | Draining before more arrives loses nothing and changes nothing |
| Streams.SameStreamSameRecords | crates/butai-client/src/daemon.rs:288-306 | Two chunkings of one stream deliver the same |
| EventStream.FindRecordEnd | crates/butai-client/src/daemon.rs:311-323 | The first place either blank line is spelled, and which; none when there is none |
| EventStream.RecordsAndBreaks | crates/butai-client/src/daemon.rs:288-323 | Nothing of a stream is lost: it is its records, each ended by the first blank line behind it in either spelling, and a tail that holds none |
| EventStream.FirstSeparatorStays | crates/butai-client/src/daemon.rs:311-323 | A separator found in a prefix stays the first after any extension, the two spellings mixed |
| EventStream.RecordsAreStable | crates/butai-client/src/daemon.rs:311-323 | So records are a stable cut, and nothing is cut from an empty buffer |
| EventStream.Drain | crates/butai-client/src/daemon.rs:297-305 | The drain loop takes every whole record and leaves the tail |
| EventStream.Reader.OnChunk | crates/butai-client/src/daemon.rs:288-306 | One chunk appended, refused when more than `MAX_SSE_RECORD` is held, else drained |
| EventStream.DeliveryIsChunkIndependent | crates/butai-client/src/daemon.rs:288-306 | Over any chunking: the reader fails exactly when some chunk overruns the limit on top of what was held; the records delivered are those of the stream before the first such chunk, or of all of it |
| Bridge.DeframingUndoesFraming | web/server/ws.ts:85-118 | Cutting undoes framing, whatever follows, if and only if every length fits the 32-bit header; then nothing is left over |
| Bridge.FramingUndoesDeframing | web/server/ws.ts:85-118 | Any bytes at all are the frames of the records in them, and the tail |
| Bridge.OpenBridgeIsFaithful | web/server/ws.ts:47-118 | A run that has not closed has written the frames of all browser messages in order, those before the dial included, and sent the complete payloads received under any chunking, holding the incomplete tail |
| Bridge.EveryRunKeepsInbound | web/server/ws.ts:93-118 | In every run the payloads sent and what is still buffered are what the daemon said, and beside them the browser is sent one notice for each failed dial |
| Bridge.EveryRunKeepsOutbound | web/server/ws.ts:47-90 | In every run the bytes written are the frames of a prefix of the browser's messages: none before the dial, all while open after it |
| Bridge.ClosedExactlyWhenBroken | web/server/ws.ts:47-133 | A run is closed if and only if some event closed it: a close, a failed dial, or more whole frames than the browser took |
| Bridge.ClosedBridgeInventsNothing | web/server/ws.ts:47-133 | Even a closed run has written and relayed only prefixes of what was said |
| Bridge.WrittenUntilClosed | web/server/ws.ts:47-133 | What a run that closes has written is exactly the frames of everything said until then, if it was dialed by then, and otherwise nothing |
| Bridge.RelaysWhatIsTaken | web/server/ws.ts:93-118 | Of the whole frames in hand when bytes arrive, exactly as many are relayed as the browser takes |
| Bridge.PeerHearsTheBrowser | web/server/ws.ts:47-118 | The bytes an open, dialed bridge wrote hold the browser's messages and nothing else |
| Bridge.Bridge.OnDaemon | web/server/ws.ts:93-118 | The loop cuts and sends every whole frame until none is left or a send throws, which closes the bridge with that frame still held |
| Bridge.Bridge.OnBrowser | web/server/ws.ts:76-83 | Queued before the dial, framed and written after it |
| Bridge.Bridge.OnDialed | web/server/ws.ts:61-72 | The queue is written in order and emptied, unless the bridge closed meanwhile |
| Bridge.Bridge.OnDialFailed | web/server/ws.ts:57-65 | The browser is told, then the bridge closes |
| Bridge.Bridge.WriteFrame | web/server/ws.ts:85-90 | One framed payload goes out; none to an ended socket |
| Bridge.Bridge.Close | web/server/ws.ts:120-133 | Closing is final and changes nothing else |
| Bridge.FramesAreStable | web/server/ws.ts:105-117 | A whole frame at the front stays the first frame however the buffer grows |
| Bridge.Framed.ReadFrame | testsuite/suite/butai.py:200-215 | Returns the first frame of everything held and read, keeps the rest, reads no more than it must, and times out only when no whole frame arrived |
| Bridge.ReadAll | testsuite/suite/butai.py:200-249 | A peer that reads frame after frame until none is left of what arrives gets exactly the records of everything held and read, under any chunking, and holds the tail |
| Bridge.PeerReads | testsuite/suite/butai.py:200-249 | End to end: such a peer, reading in any chunks what an open and dialed bridge wrote, returns the browser's messages, every one and in order |
| Bridge.PeersAgree | testsuite/suite/butai.py:184-186 | The peer frames exactly the lengths that fit, as the bridge does, and its frame is cut off whole whatever follows |
| TerminalTokens.ExactlyWhenStopsAreInvisible | scripts/capture-frames.py:161-185 | Where reads stop changes nothing about what is recognized if and only if no sequence in the stream is longer than 32 characters |
| TerminalTokens.StoppingChangesNothing | scripts/capture-frames.py:161-185 | With no long sequence, any stop leaves the tokens and the held escape as they are |
| TerminalTokens.LongSequenceShows | scripts/capture-frames.py:179-184 | With a long sequence there is a stop that changes what is recognized |
| TerminalTokens.MatchIsLocal | scripts/capture-frames.py:136-175 | A sequence matched in a prefix is matched in the whole, and one of the whole that fits the prefix is matched there |
| Terminal.Screen.Feed | scripts/capture-frames.py:161-204 | One read: the held escape and the new characters are recognized and applied in order; the incomplete escape is held; a sequence that raises, raises |
| Terminal.FeedIsChunkIndependent | scripts/capture-frames.py:161-204 | With no sequence longer than 32 characters, any chunking gives the grid, cursor, pen and held tail of feeding whole, or raises as it does; in every run the grid keeps its size and the cursor its row range |
| TerminalLaws.PaintLands | scripts/capture-frames.py:161-217 | Fed a move to row r and column c and then a text of single-width characters, the screen holds that text from row r - 1 and column c - 1 on, with the pen, as far as the row reaches; the cursor is right behind it and nothing else changes |
| TerminalLaws.MoveLands | scripts/capture-frames.py:209-217 | H and f put the cursor in the row and column they name, counted from one; beyond the edge it is the edge, and a missing number is one |
| TerminalLaws.ColumnLands | scripts/capture-frames.py:209-227 | G puts it in the column named |
| TerminalLaws.StepsMove | scripts/capture-frames.py:218-225 | A, B, C and D move it up, down, right and left by the count, one if none is given, as far as the edge |
| TerminalLaws.TextLands | scripts/capture-frames.py:195-203 | A text lands from the cursor on, a character a column, with the pen; nothing is wrapped and no other cell changes |
| TerminalLaws.WideCharLands | scripts/capture-frames.py:195-203 | A character of two columns takes the cursor's cell and the next, which is its other half |
| TerminalLaws.ControlsMove | scripts/capture-frames.py:186-194 | A carriage return goes to the first column, a line feed to the first column of the next row, or of the last, a backspace one column back; other controls change nothing |
| TerminalLaws.ErasureBlanks | scripts/capture-frames.py:228-239 | K blanks the cursor's row from the cursor on, or all of it; J the whole screen, or what is behind the cursor; nothing else |
| TerminalLaws.OthersAreIgnored | scripts/capture-frames.py:206-239 | A sequence with any other final character changes nothing |
| TerminalLaws.CommandsAreIgnored | scripts/capture-frames.py:137-179 | An operating system command changes nothing, ended either way |
| TerminalLaws.ControlSequences | scripts/capture-frames.py:136-173 | Parameters, intermediates and a final character behind an introducer are one token, of any length |
| TerminalLaws.OnlyControlSequences | scripts/capture-frames.py:136-173 | And every such token is spelled so |
| TerminalLaws.OtherEscapes | scripts/capture-frames.py:167-185 | An escape that starts nothing known is held below 32 characters and passed over alone from there on |
| TerminalLaws.TypedWithPen | scripts/capture-frames.py:186-290 | Renditions fed one after another and then a character leave it with the pen they add up to |
| TerminalLaws.RenditionsInTurn | scripts/capture-frames.py:241-288 | Several in one sequence do what they do in a sequence each |
| TerminalLaws.ResetIsPlain | scripts/capture-frames.py:241-248 | 0, or none, gives the plain pen |
| TerminalLaws.PutsOn | scripts/capture-frames.py:249-258 | 1, 2, 3, 4 and 7 put on one attribute each and change nothing else |
| TerminalLaws.TakesOff | scripts/capture-frames.py:259-266 | 22 takes off bold and dim, 23, 24 and 27 one attribute each, and nothing else changes |
| TerminalLaws.TrueColour | scripts/capture-frames.py:271-276 | 38;2 and 48;2 with a triple set exactly the colour of the characters or behind them |
| TerminalLaws.SixteenAlike | scripts/capture-frames.py:277-287 | The first sixteen indexed colours are those of 30, 40, 90 and 100 on |
| TerminalLaws.CubeAndGreys | scripts/capture-frames.py:332-340 | The others are six levels of each of three colours, and greys by ten from eight |
| TerminalLaws.IndexIsNeeded | scripts/capture-frames.py:277-279 | An indexed colour without an index raises |
| Terminal.OthersKeepTheGrid | scripts/capture-frames.py:206-288 | Only J and K change a cell, and only m the pen, which moves nothing |
| Terminal.GridsAlike | scripts/capture-frames.py:153-154 | Two grids of one size with the same cell at every position are the same, so what is said of cells is said of the grid |
| Terminal.MovingBackReturns | scripts/capture-frames.py:219-227 | Moving any of the four ways and back by the same count returns if and only if the edge was not in the way or the cursor began at the far one |
| Terminal.Control | scripts/capture-frames.py:206-239 | A control sequence keeps the grid's size and the cursor's row inside it |
| Terminal.TypeChar | scripts/capture-frames.py:186-204 | A character keeps the grid's size and the cursor's row inside it |
| Frames.Encode | scripts/capture-frames.py:360-381 | Each row's runs paint, through the palette, the character and resolved style of every column but a tail of blanks on the ground colour; neighbouring runs differ in style; ids already given keep their meaning and no style has two |
| Frames.Reversal | scripts/capture-frames.py:104-116 | A style is the pen's own colours, or the defaults; with reverse it is that of the same pen without it, its two colours in each other's place |
| Frames.ColumnsAreCells | scripts/capture-frames.py:360-371 | Each cell but the second half of a wide glyph has one column, with its character and style, in order, and there are no others |
| Frames.Palette.Id | scripts/capture-frames.py:353-357 | The id names the style, earlier ids keep theirs, and a known style adds nothing |
| Frames.MergeRow | scripts/capture-frames.py:363-375 | Before the tail is dropped the runs paint the row exactly |
| Frames.DropTail | scripts/capture-frames.py:376-379 | Only blanks on the ground colour go, and none is left at the end |
| Frames.MergedRunsAreUnique | scripts/capture-frames.py:360-381 | A painted row has one encoding under one palette |
| Frames.OnlyBlankTailsAreLost | scripts/capture-frames.py:376-379 | Two rows with the same runs show the same, up to blanks on the ground colour at the end |
| Frames.EncodesStays | scripts/capture-frames.py:346-357 | Frames encoded earlier still paint the same under the grown palette |
| Highlighter.Lines | crates/butai-client/src/syntax.rs:168-171 | For every language and buffer: each line's tokens concatenate back to the line, none is empty or implausible for its kind, and after the lines above each character has the colour `Colouring.Colour` gives it and tokens begin just where they should: at the start of the line, where the colour changes, and where a comment or a string follows another.  And of the tokens' texts alone, in every language: no whole word in plain text is a keyword, or is capitalized with a lower-case letter in it; no plain text or word holds a quote, a comment's mark or a digit at the head of a word; no word is cut in two; a string ends at the first quote like its own that is not escaped, or with the line; a block comment at its first closing mark, or with the line, and then goes on with the next one |
| Highlighter.HighlightingIsUnique | crates/butai-client/src/syntax.rs:168-171 | So there is one way to highlight a line: no other tokens meet what `Lines` promises |
| Highlighter.Highlighter.Line | crates/butai-client/src/syntax.rs:174-282 | The same for one line from either state: a character is a comment exactly where the automaton reads one, marks included, a string exactly between quotes, a number on a digit no word runs into and what follows it, and otherwise coloured by the whole word around it; a comment, a string, a number, a coloured word and the plain text between coloured tokens are one token each; the flag carried on is the automaton's |
| Highlighter.Highlighter.Rest | crates/butai-client/src/syntax.rs:214-282 | The same from any index in code to the end of the line |
| Highlighter.Highlighter.FlushText | crates/butai-client/src/syntax.rs:285-336 | Flushed text is coloured by its own words, and its tokens begin where that colour changes |
| Highlighter.Highlighter.PushLexeme | crates/butai-client/src/syntax.rs:218-276 | A pushed lexeme is one token with the colour of every character in it |
| Highlighter.TextGoesOn | crates/butai-client/src/syntax.rs:262-280 | Where no lexeme starts, the character is text, and the next is read afresh |
| Highlighter.LexemeGoesBy | crates/butai-client/src/syntax.rs:218-276 | Every character of a lexeme has the lexeme's colour, a token should begin at its first character and at no other, the text before it is whole, and no text begins behind it |
| Colouring.CommentStartsOnce | crates/butai-client/src/syntax.rs:218-234 | From its mark to its end a comment is one: nothing starts within it, and none of its mark is another |
| Colouring.StringStartsOnce | crates/butai-client/src/syntax.rs:241-262 | From quote to quote a string is one: nothing starts within it |
| Colouring.TextShades | crates/butai-client/src/syntax.rs:294-336 | A stretch of text between lexemes is coloured by its own words, and tokens begin in it where that colour changes |
| Colouring.WholeWord | crates/butai-client/src/syntax.rs:294-336 | The characters of one whole word all get its kind; a token begins with the word, or nowhere in it when it is plain and goes on from plain text |
| Highlighter.FlushRun | crates/butai-client/src/syntax.rs:294-336 | Plain text is split without loss, each character is coloured by the whole word around it, and what is plain between two coloured words is one token; of text that holds no lexeme the tokens keep the laws `Lines` states |
| Highlighter.FlushWord | crates/butai-client/src/syntax.rs:299-321 | A finished word is plain or a token of its own behind the plain text before it |
| Highlighter.PlainIsUnremarkable | crates/butai-client/src/syntax.rs:303-311 | What is left plain is no keyword, and not capitalized with a lower-case letter in it |
| TokenLaws.WordStaysPlain | crates/butai-client/src/syntax.rs:312-321 | Plain text with a plain word behind it holds no word to colour |
| Highlighter.Push | crates/butai-client/src/syntax.rs:285-290 | Appends the text unless it is empty |
| Highlighter.Lex | crates/butai-client/src/syntax.rs:218-276 | The lexeme at an index is what the automaton reads there, one comment, string or number to its end; where none starts, the character is code and the next is read afresh |
| Highlighter.ScanBlock | crates/butai-client/src/syntax.rs:195-234 | Everything up to the end it finds is comment, and that is where the automaton leaves the comment, or the end of the line; it is the first closing mark there is |
| Highlighter.ScanString | crates/butai-client/src/syntax.rs:241-262 | Everything up to the end it finds is read in the string, escapes included, and there the automaton is back in code; it is the first quote like its own with an even number of backslashes right before it, or the end of the line |
| Highlighter.ScanNumber | crates/butai-client/src/syntax.rs:263-276 | As far as a number's characters go, all of them code |
| Syntax.BlockOpens | crates/butai-client/src/syntax.rs:217-222 | A mark that opens a block comment, found at an index, is what the automaton reads there, one character at a time |
| Syntax.LineOpens | crates/butai-client/src/syntax.rs:236-239 | The mark of a line comment likewise, and nothing ends it |
| Syntax.QuoteOpens | crates/butai-client/src/syntax.rs:241-243 | A quote that begins no comment opens a string |
| Syntax.NoMarkNoComment | crates/butai-client/src/syntax.rs:217-239 | Where no mark stands the automaton reads none, across the index either |
| Syntax.MarkRead | crates/butai-client/src/syntax.rs:92-99 | Where the automaton opens a comment its mark stands, read in code one character after another |
| Syntax.CloseRead | crates/butai-client/src/syntax.rs:92-99 | Where it leaves a block comment the closing mark stands |
| Syntax.BlockCloses | crates/butai-client/src/syntax.rs:199-204 | A closing mark found at an index ends the comment and is the last of it |
| Syntax.StaysInBlock | crates/butai-client/src/syntax.rs:199-206 | A character that begins no closing mark stays in the comment |
| Syntax.StaysInCode | crates/butai-client/src/syntax.rs:217-280 | A character that begins no comment and no string is code, and the next is read afresh |
| Links.Scan | crates/butai-client/src/links.rs:82-114 | The loop finds the spans the four lemmas below describe |
| Links.SpansAreOrdered | crates/butai-client/src/links.rs:82-114 | Spans are not empty, run left to right and do not overlap |
| Links.SpansAreTheLinks | crates/butai-client/src/links.rs:82-114 | Every span is a usable link at its own start |
| Links.NoLinkIsMissed | crates/butai-client/src/links.rs:82-114 | A link that starts anywhere is offered, unless it starts inside a candidate met before it |
| Links.SpansRescan | crates/butai-client/src/links.rs:82-114 | Each span's own text rescans to exactly itself |
| Links.LinkRescansToItself | crates/butai-client/src/links.rs:122-245 | A link keeps its scheme, extent, trimming and usability when taken out of its line |
| Links.OpenedHasScheme | crates/butai-client/src/links.rs:82-114 | What is offered begins with a scheme, in any case, if and only if the link is not a bare host written in capitals |
| Links.CapitalHostIsOffered | crates/butai-client/src/links.rs:82-114 | Such a link is offered: WWW.example.com, with no scheme |
| Links.Trim | crates/butai-client/src/links.rs:207-222 | The loop drops sentence punctuation and unopened brackets until none is at the end |
| Links.TrimTail | crates/butai-client/src/links.rs:207-222 | What is left is a prefix with nothing more to trim |
| Links.TrimsJustEnough | crates/butai-client/src/links.rs:207-222 | What is left ends in no sentence punctuation, no opening parenthesis and no closing bracket with fewer opened before it; and every longer prefix does |
| Links.LinksLook | crates/butai-client/src/links.rs:82-245 | A link is exactly this: at a boundary, a known scheme or www. in any case, then as many URL characters as there are but for an end that a sentence would have; not too many, a letter or digit among them, and a dot behind www. |
| ScreenLinks.EveryCellShowsItsReading | crates/butai-client/src/links.rs:281-369 | On a read screen every cell has exactly one place in one line, and shows the URL that line reads there, or none |
| ScreenLinks.ReadingIs | crates/butai-client/src/links.rs:281-369 | A cell reads as the URL of a link of its line that reaches over it; it reads as none only if every such link starts inside a candidate met before |
| ScreenLinks.ScreenMap.Of | crates/butai-client/src/links.rs:281-309 | The stage and what lies beside it are all read, each line's links are drawn on its cells and nowhere else, every row's runs are sorted and apart, and the URLs are exactly those the lines read, each once, in the order read, the stage ahead of all that is beside it; where too little comes before the stage to hold a link, that is the order of the first cells of their first links |
| ScreenLinks.ScreenMap.Block | crates/butai-client/src/links.rs:312-369 | The lines of one rectangle are shown, nothing outside it changes, and their new URLs come last in order |
| ScreenLinks.ScreenMap.PlaceLine | crates/butai-client/src/links.rs:343-366 | One line's cells show what its scan reads, no other cell changes, and its new URLs come last in order |
| ScreenLinks.ScreenMap.PlaceSpan | crates/butai-client/src/links.rs:352-366 | One link is drawn on exactly its cells, broken at every change of row |
| ScreenLinks.ScreenMap.Intern | crates/butai-client/src/links.rs:344-351 | The number of a URL; a new one comes last, no other number changes, and nothing shows differently |
| LinkList.PartLinksIncrease | crates/butai-client/src/links.rs:312-351 | The links of one part start in reading order, each with cells enough for a link from there to the end of the part |
| LinkList.InternedIs | crates/butai-client/src/links.rs:344-351 | The list holds exactly what was interned, each once, in the order in which each came first, and nothing in it moves |
| SingleLinks.LinkIsLong | crates/butai-client/src/links.rs:122-245 | No link is shorter than five characters |
| SingleLinks.HostInCapitals | crates/butai-client/src/links.rs:122-245 | A character behind WWW. in capitals is a link of five, opened as it stands |
| SingleLinks.LinkAndBlanks | crates/butai-client/src/links.rs:82-114 | A line that holds a link and then blanks holds just that link |
| ScreenLinks.ScreenMap.SortRows | crates/butai-client/src/links.rs:305-307 | Sorting a row's runs shows nothing differently |
| ScreenLinks.ScreenMap.At | crates/butai-client/src/links.rs:379-384 | The URL shown at a cell |
| ScreenLinks.GatherLine | crates/butai-client/src/links.rs:315-342 | Row after row while a row is filled and the next begins no link of its own |
| ScreenCells.RowsAreJoinedWhere | crates/butai-client/src/links.rs:312-342 | Two rows are read as one line exactly when rows are to be joined, the last cell of the upper is not blank, and the lower does not begin with a scheme or www., in any case, within its first eight cells |
| ScreenCells.StageAloneIsJoined | crates/butai-client/src/links.rs:281-304 | Rows are joined in the stage only, which is read first; every other part is of one row |
| ScreenCells.ReadInOrderExactly | crates/butai-client/src/links.rs:284-304 | The cells of the screen are scanned in reading order if and only if no stage is showing, or it starts in the first cell and either spans the width or is one row high |
| LinkList.UrlsAreInReadingOrder | crates/butai-client/src/links.rs:284-351 | Whatever is on the screen, the list of URLs is in the order of the first cells of their first links if nothing five columns wide comes before the last row of the stage on which a link can start: for a stage of five columns or more, if it starts on the first row with fewer than five columns to its left and, unless it is one row high, fewer than five to its right |
| ListOrder.ListedInOrderExactly | crates/butai-client/src/links.rs:386-389 | For every screen and stage, the list of URLs is in reading order for all contents of the screen if and only if that condition holds |
| ListOrder.TwoLinksListed | crates/butai-client/src/links.rs:284-351 | With one link on the stage and one in a part beside it, the list is in reading order exactly if the two cells they start in are |
| ListOrder.StageComesBeforeTheRowAbove | crates/butai-client/src/links.rs:284-304 | On a screen six columns by two rows with `ws://a` above a stage that holds `ws://b` the list is `ws://b`, `ws://a` |
| ScreenCells.EveryCellIsReadOnce | crates/butai-client/src/links.rs:281-304 | Every cell of the screen is in exactly one part, stage or beside it |
| ScreenCells.EveryCellIsInOneLine | crates/butai-client/src/links.rs:312-342 | Within a part every cell is in exactly one place of one line, joined rows included |
| Roster.ParsedListSurvives | web/server/roster.ts:223-386 | From a parsed list, over any additions and removals: keys stay distinct and id-safe, the parsed entries all stay in order, the primary is the same |
| Roster.RunsKeep | web/server/roster.ts:333-386 | The same from any sound list |
| Roster.StepKeeps | web/server/roster.ts:333-386 | One request keeps the roster sound, the configured entries in place and the head |
| Roster.ParseDaemons | web/server/roster.ts:223-249 | One daemon for each entry, in order, only the first primary, each under the first suffixed key free before it; no two share a key |
| Roster.FreshKey | web/server/roster.ts:240-245 | The loop ends, on the base if it is not taken, and otherwise on the first of base-2, base-3, ... that is not |
| Roster.NamesAreKept | web/server/roster.ts:223-249 | A daemon named by what is a key already, and no earlier one's, goes by it; one with no name by its path |
| Roster.SafeKey | web/server/roster.ts:103-106 | A key of at most 24 characters that no path segment and no colon can break |
| Roster.SafeKeyIs | web/server/roster.ts:103-106 | It is the piece of the name between the outermost characters that can bound a key, cut at 24, with dashes for what no key holds; so a safe name of at most 24 characters with no outer dash or dot is kept |
| Roster.NoKeyInIt | web/server/roster.ts:103-106 | A name without such a character goes by the fixed word |
| Roster.NoCollision | web/server/roster.ts:333-355 | An addition is refused exactly when a key or a resolved socket is taken |
| Roster.RemoveRefusesExactly | web/server/roster.ts:370-386 | A removal succeeds exactly on a known run-time entry; the refusal for a last daemon is never reached |
| Roster.AddKeeps | web/server/roster.ts:333-358 | An addition keeps distinct keys, the configured entries and the head |
| Roster.RemoveKeeps | web/server/roster.ts:370-386 | A removal keeps distinct keys, the configured entries and the head |
| Roster.Roster.Add | web/server/roster.ts:333-358 | Appends the daemon exactly when no entry has its key or its resolved socket; otherwise changes nothing and names the first that has, and which of the two it is |
| Roster.Roster.Remove | web/server/roster.ts:370-386 | Refuses an unknown key, a configured entry and a last daemon, in this order, changing nothing; otherwise takes the first entry of that key out and no other |
| Routing.QualifyingRoutesBack | web/server/routing.ts:20-127 | Naming a rostered daemon, by qualifying any of the integer segments with its key, by a daemon parameter anywhere among the others, or both, routes to that daemon and no other, under the original path and the other parameters in their order |
| Routing.UnnamedIsThePrimarys | web/server/routing.ts:62-127 | A path that names no daemon, and holds no bare id if there are several, is routed to the primary and no other, as it stands |
| Routing.LastAsks | web/server/routing.ts:68-77 | Of several daemon parameters the last one asks, and none is passed on |
| Routing.ResolveApiPath | web/server/routing.ts:62-127 | Succeeds exactly when one daemon is everything the path and query name (or nothing is named, it is the primary, and no bare id could mean another), and forwards the bare path and the other parameters; a refusal gives the reason `Routing.Refuses` states |
| Routing.PickBySegments | web/server/routing.ts:79-99 | The loop names the one daemon all qualified segments name, none if none does, and refuses at the first segment that names no daemon in view or disagrees with those before it, and only when no daemon can be it |
| Routing.PickDaemon | web/server/routing.ts:79-122 | Path and query together name the daemon returned; a refusal gives its reason, segments before the parameter and the parameter before bare ids, and means no daemon fits |
| Routing.RefusalIsOne | web/server/routing.ts:79-122 | There is at most one reason to refuse a request |
| Routing.FindBare | web/server/routing.ts:113-120 | The first bare id among the segments |
| Routing.ReadQuery | web/server/routing.ts:68-77 | The last daemon parameter, and every other parameter in order |
| Routing.ParseQid | web/server/routing.ts:79-88 | A segment taken apart is that key and id joined, the key id-safe and the id digits |
| Routing.QualifiedParses | web/server/routing.ts:20-22 | A key and id joined come apart into themselves |
| Routing.PathParts | web/server/routing.ts:62-79 | A path assembled from segments and parameters comes apart into them |
| Routing.SplitUndoesJoin | web/server/routing.ts:79-79 | Splitting undoes joining where no part holds the separator |
| Views.TableIsLastWrites | crates/butai-client/src/config.rs:605-619 | After any save, on any table, one over the cap included, it holds, oldest first, the last 64 distinct keys by most recent write, each with its latest page |
| Views.Table.Save | crates/butai-client/src/config.rs:605-619 | The key's line is taken out, appended with its new page, and the oldest lines go until the cap fits |
| Views.LastWritesStep | crates/butai-client/src/config.rs:605-619 | One more write moves its key to the end of the last writes |
| Views.NewestStep | crates/butai-client/src/config.rs:605-619 | Evicting early loses nothing that a later eviction would have kept |
| Selection.SpanIsTheInterval | crates/butai-client/src/selection.rs:91-102 | The columns visited row by row are exactly the cells of the region between the endpoints in reading order |
| Selection.Extract | crates/butai-client/src/selection.rs:124-145 | The text of the cells between the endpoints in reading order, each row without its trailing blanks, joined by line feeds, for endpoints inside the region; an endpoint outside counts as the cell nearest to it; nothing for an empty region |
| Selection.TextLines | crates/butai-client/src/selection.rs:124-145 | Taken apart at its line feeds the text is the selected rows, each without its trailing blanks |
| Selection.RowOfCharacters | crates/butai-client/src/selection.rs:124-145 | A row of single characters reads as them |
| Selection.Marks.Highlight | crates/butai-client/src/selection.rs:148-163 | Reverses exactly the cells `Extract` reads, and no other |
| Selection.EndsMayBeSwapped | crates/butai-client/src/selection.rs:124-163 | Swapping the endpoints selects the same cells |
| Selection.TextSymmetric | crates/butai-client/src/selection.rs:124-145 | Swapping the endpoints extracts the same text |
| Selection.Clamp | crates/butai-client/src/selection.rs:114-119 | A clamped endpoint is the cell of the region nearest to it on either axis, so one inside stays |
| Selection.NearestIsOne | crates/butai-client/src/selection.rs:114-119 | There is one nearest cell |
| Selection.AreaIs | crates/butai-client/src/selection.rs:114-163 | What can be selected is on the screen and, for a drag with a region, in that region |
| Selection.IntersectionIs | crates/butai-client/src/selection.rs:114-163 | The cells in both rectangles, and no others |

## Left out

- Layout: trees are values, since the source's boxes are owned and never shared; ratios and rounding are real arithmetic, not `f32`, so NaN ratios and the rounding of single precision are not modelled, nor is the overflow of negating the least 16-bit delta.
- Msgpack: `bytes` and `bytearray` are one kind of byte string; strings are their UTF-8 bytes, so the replacement of invalid UTF-8 is not modelled; floats are eight-byte words, so the quieting of a signalling NaN on widening is not; Python's several exception types are values of one error type; Python's recursion limit, by which values nested about a thousand deep raise in both directions, is not modelled.
- EventStream: what a record says (`parse_record`), reconnection and a receiver that has gone away.
- Bridge: socket writes are taken whole; text coding of payloads (byte-order marks, replacement characters) and the wording of the dial failure are left as bytes; `dial` is the event of its completion or failure; a web socket's `send` may drop a message and say so in its result, which the source ignores, and the model knows only a send that throws.
- Bridge.Framed.ReadFrame: the deadline and the closed connection are one outcome, no frame among what arrived.
- Terminal: bytes are already decoded to characters, and display width is a parameter; a grid has at least one row and column; Python's limit on the digits of a number and the hexadecimal spelling of colour components above 255 are not modelled; after a sequence raises the screen is not fed again; `snapshot`, `crop` and `text` only read.
- Frames: which characters count as blank is a parameter; writing the frames to a page is left out.
- Highlighter: Unicode letter classes are parameters; choosing a language by file name is a table.
- ScreenLinks: flattening a cell to one character is a parameter; the identifier hashed from a URL and opening one are left out.
- ScreenLinks.ScreenMap.At: indexes rows by number as the source does, so it takes a row of the screen only for a buffer that starts at row zero, which is what the specification's offset says.
- Roster: the telling component of an unnamed socket's path, and path resolution, are parameters; the splitting of the environment string and the directories a run-time socket may lie in are left out; characters are UTF-16 units.
- Routing: percent decoding is a parameter, and the wording of refusals is reduced to which refusal it is; `daemonFromQuery` is left out.
- Views: the TOML document is the ordered list of its `[views]` lines; comments and formatting are left out.
- Selection: which region a press belongs to rests on page geometry that is not part of this model.
- Pointer resolution, `~/.ssh/config` parsing, key tables, the git menu, themes, static serving, sockets, ssh, HTTP, clipboards, capture scripting and the test runner: input and output, finite tables or user interface.
