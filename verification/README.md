# Verified model of the Haiku port's algorithmic cores

This project models, in Dafny 4.11, the parts of the Chromium port to Haiku that decide something: the scripts that
patch the Chromium sources, the loop written into libevent's `poll.c`, the native window code that puts Chromium's
frames and bounds on the screen, the bookmark store and icon filter beside it, and three checking scripts.
`dafny verify dfyconfig.toml` checks everything.

| file | what it models |
|---|---|
| Text, PatchEngine, PatchRerun, PatchOrder | Python's substring search and `replace`; the three generations of the patch loop; what a second run does, of one edit and of whole scripts |
| AssertRewriter, GateExpressions, GateRewriting | the lazy pattern and substitution over gn files; conditions and what an insertion does to their value; the asserts of a whole text |
| PollSlots | the swap-remove over three parallel arrays and an index by descriptor; delivery of dead descriptors |
| Images, Presenter, ScreenSync | rows of bytes and pixels; the damage copy; runs of presents and the two threads |
| Decimal, Bookmarks, BookmarkList | numbers, the bookmark file, adding; the search, the date labels, the rebuilt list |
| Seqs, Words, Arithmetic, IconFilter, IconBitmap | sequences and 32-bit words; the box filter; the boxes and the bitmap |
| ContentBounds | the content bounds between the UI thread, the user and the looper |
| ZeroPages, BlobRepair, Reachability | the zero-page scan; repair and check of the V8 blob; the dependency worklist |

Code that changes things step by step is a class or a method with loops, proved against functions on values; what
the source promises is then proved of those functions, for all inputs and all runs.

## Main results

* **Rerunning the patch scripts.** An unmarked edit is not idempotent in general. `SubstitutionRerun` and
  `RemovalRerun` say of every edit and every file, from the original text alone, whether a rerun is silent;
  `FreshSymbolRerun` is the simple case of one new symbol. `ForgedAnchorRewrites`, `StraddlingInsertRewrites`,
  `RemovalNeedsTwoRuns` and `FirstOnlyNeverSettles` are edits that are applied again, the last one without end. Marked
  edits need no condition at all. `TreeRerunSilent` carries this over to a whole script with any number of edits a
  file, as long as the anchors and replacements of two edits of one file neither contain nor border each other, which
  `NeverMeetExactly` shows to be the same as never overlapping; `FileRerunSilent` does it file by file.
* **Rewriting asserts.** `RewriteIsIdempotent` holds for every text. `RewriteTradesConditions` says what becomes of a
  text whose matches are asserts with well-formed conditions, and `TradedValue` what each condition is then worth. The
  script's own description says that only asserts are touched; the code does not keep to that (`EditLeavesAssert`,
  `EditWithoutAssert`), and `EditStaysInCall` and `EditElsewhere` say exactly when it does. Nor does an edit only let
  more asserts pass: under a negation it can stop one (`NegatedGateFails`); `StopsExactly` says when.
* **Poll slots.** The loop keeps exactly the live slots and restores the inverse index; what poll() reports as gone
  then always reaches an owner. Going upwards instead it would miss a moved slot (`UpwardsMissesMoved`).
* **Presenting.** Copying and redrawing only the damage agrees with copying and redrawing everything, over whole runs
  and all interleavings of the two threads; from any state, one report and one draw show the frame.
* **Bookmarks.** The file round trip for every text, runs of additions, and the grouped list read back.
* **Icon filter.** The boxes partition the source; the bound under which no 32-bit sum wraps, and that it is exact.
* **Content bounds.** Sizes agree after every interleaving once messages are delivered; origins need not
  (`DragGoesStale`, `OriginCanGoStale`), and `PlaceExactly` says of every run whether they do.
* **Scripts.** The zero-page runs are exact, a repaired image verifies, reachability is exact.

## Assumptions

* A text is a sequence of characters and a file is read and written as a whole. `localtime_r`, `strftime` and
  `tolower` are parameters; `Sound` says what is asked of the calendar (every time has a day, days follow times, dates
  are written apart). `std::sort` is any permutation with the newest first.
* A number too large for `atoll` gives some time, nothing more is said of it (`Clamps`); time_t has 64 bits.
* A present is the two steps copy and invalidate on the UI thread. The drawing of the window system is a step that
  shows the bitmap in a rectangle; uncovering a region makes it invalid. `Covers` is the honesty of the reported damage.
* A view is sent a FrameResized when its size changes, in order; posted tasks are delivered in order; the window can be
  locked while it exists.
* A slot of poll.c that asks for a direction has an owner for it; descriptors and slots start out mutually inverse.
* Segment mapping is that of Program Header, chapter 5 of the System V ABI.

## Model

| member | source | states |
|---|---|---|
| Text.Find | chromium114_port/port/port-target-guards.py:850-865 | the offset found is a match and no earlier one is; none is found exactly when the text does not occur |
| Text.Pieces | chromium114_port/port/port-target-guards.py:862-869 | joining the pieces with the pattern gives the text back; one piece exactly when the pattern does not occur |
| Text.PiecesAreLeftmost | chromium114_port/port/port-target-guards.py:862-869 | no match begins inside a piece, whether it ends there or runs into the separator after it |
| Text.LeftmostIsPieces | chromium114_port/port/port-target-guards.py:862-869 | any cutting without a match beginning inside a piece is the one `replace` makes, so leftmost and non-overlapping describe it completely |
| Text.EraseJoined | chromium114_port/port/port-target-guards.py:862 | erasing the replacement from pieces joined by it gives the pieces with their own copies erased, when nothing straddles |
| Text.FreshWordNeverStraddles | chromium114_port/port/port-target-guards.py:856-862 | a replacement with an unbordered word in it cannot straddle after a text in which that word does not occur |
| Text.UnborderedNeverStraddles | chromium114_port/port/port-target-guards.py:856-862 | an unbordered replacement straddles after no text at all |
| PatchEngine.CutsExact | chromium114_port/port/port-haiku-platform.py:1996 | what a replacement keeps: the pieces between all leftmost matches, or what is around the first match alone; of an empty anchor, the characters |
| PatchEngine.SourceTree.FixCompile | chromium114_port/port/port-compile-fixes.py:120-136 | the tree, the verdict of each edit in order and the count of the naive script are those of the specification run |
| PatchEngine.SourceTree.PortPlatform | chromium114_port/port/port-haiku-platform.py:1968-1998 | the same for the erase-then-look script with first-only and all replacement |
| PatchEngine.SourceTree.GuardTargets | chromium114_port/port/port-target-guards.py:814-872 | the same for the script with markers |
| PatchRerun.MarkedVerdict | chromium114_port/port/port-target-guards.py:831-869 | a marked edit is written exactly into files with its anchor and neither replacement nor marker; stale exactly with the marker and not the replacement; applied otherwise |
| PatchRerun.EveryReplaced | chromium114_port/port/port-haiku-platform.py:1996 | with the all flag, and in port-target-guards.py always, every leftmost anchor becomes the text and everything between stays |
| PatchRerun.FirstReplaced | chromium114_port/port/port-haiku-platform.py:1996 | without the flag, and in port-compile-fixes.py always, the first anchor alone does |
| PatchRerun.LogExact | chromium114_port/port/port-target-guards.py:814-871 | each edit is judged on the file the edits before it have left, or logged as missing |
| PatchRerun.CountExact | chromium114_port/port/port-target-guards.py:871-872 | the count printed is the number of writes |
| Text.RemainsOfJoined | chromium114_port/port/port-target-guards.py:862 | what erasing leaves of pieces joined by what is erased, read off the pieces, also where a match straddles a join |
| PatchRerun.RerunVerdict | chromium114_port/port/port-target-guards.py:855-869 | once an addition or substitution has been written, the verdict of the next run is decided by the residue of the original file and whether the rewritten one holds the anchor |
| PatchRerun.SubstitutionRerun | chromium114_port/port/port-target-guards.py:855-869 | for every one of them and every file: reruns are silent if and only if the residue of the original file has no anchor or none survives the replacement |
| PatchRerun.CleanInsertion | chromium114_port/port/port-target-guards.py:856-862 | where nothing straddles, the residue is the kept pieces without copies of their own |
| PatchRerun.StraddlingInsertRewrites | chromium114_port/port/port-target-guards.py:855-869 | where something does it is not: an addition that is applied a second time although the kept pieces have no anchor |
| PatchRerun.SilentIffSecondSilent | chromium114_port/port/port-target-guards.py:838-871 | no later run writes if and only if the second does not |
| PatchRerun.AdditionRerun | chromium114_port/port/port-target-guards.py:845-862 | reruns of an addition are silent if and only if the residue has no anchor |
| PatchRerun.UnborderedInsertsCleanly | chromium114_port/port/port-target-guards.py:856-862 | an unbordered replacement inserts cleanly into every file |
| PatchRerun.FreshWordInsertsCleanly | chromium114_port/port/port-target-guards.py:856-862 | a replacement with an unbordered word that occurs in no kept piece inserts cleanly |
| PatchRerun.FreshSymbolRerun | chromium114_port/port/port-target-guards.py:850-869 | a replacement with one symbol the file does not have: reruns are silent if and only if cutting the anchors out forms no further anchor, or none survives the replacement |
| Text.OccursInPieces | chromium114_port/port/port-target-guards.py:855-869 | a pattern is in a joined text if and only if it is in a piece, or found at a join with less than its length to either side |
| PatchRerun.SurvivesExact | chromium114_port/port/port-target-guards.py:865-869 | for every edit, the rewritten file holds the anchor if and only if a kept piece does or a place where a replacement was put in does |
| PatchRerun.NoSilentSkip | chromium114_port/port/port-target-guards.py:855-869 | an anchor lying wholly between the replacements already in a file is always found and written |
| PatchRerun.NaiveSkipsRemovals | chromium114_port/port/port-compile-fixes.py:128-133 | the naive test never writes a removal, on any file |
| PatchRerun.NaiveIsIdempotent | chromium114_port/port/port-compile-fixes.py:128-133 | the naive script never writes one edit twice, whatever the file |
| PatchRerun.NaiveSkipsWhatErasingSees | chromium114_port/port/port-target-guards.py:856-862 | with one replacement already there and an anchor left over, the naive test skips the file and the newer one writes it |
| PatchRerun.RemovalShrinks | chromium114_port/port/port-target-guards.py:850-854 | a removal that writes makes the file shorter |
| PatchRerun.RemovalRerun | chromium114_port/port/port-target-guards.py:850-869 | reruns of a removal are silent if and only if no cut forms another anchor and, for a first-only one, none follows the first |
| PatchRerun.RemovalNeedsTwoRuns | chromium114_port/port/port-target-guards.py:850-869 | a removal that is applied a second time |
| PatchRerun.RemovalConverges | chromium114_port/port/port-target-guards.py:850-869 | after as many runs as the file has characters no anchor of a removal is left |
| PatchRerun.MarkedIsIdempotent | chromium114_port/port/port-target-guards.py:831-837 | a marked edit is never written twice, with no condition on the file |
| PatchRerun.MarkedRemovalNeverWrites | chromium114_port/port/port-target-guards.py:831-854 | a marked removal is skipped on every file |
| PatchRerun.MarkedVersionsWriteOnce | chromium114_port/port/port-target-guards.py:817-837 | versions of an edit sharing a marker write at most once between them, in any order over any number of runs, and once if and only if one of them is due on the first file |
| PatchRerun.ForgedAnchorRewrites | chromium114_port/port/port-target-guards.py:855-869 | an addition that is applied a second time, because erasing it forges an anchor |
| PatchRerun.FirstOnlyNeverSettles | chromium114_port/port/port-haiku-platform.py:1978-1998 | a first-only addition over a file with a second bare anchor writes on every run; the file after n runs is given exactly |
| PatchRerun.RunIsPerFile | chromium114_port/port/port-target-guards.py:815-871 | a run keeps the set of files and each file sees only its own edits, in order |
| PatchRerun.SilentRun | chromium114_port/port/port-target-guards.py:814-872 | a run counts no write if and only if every edit is settled on the tree it starts from, and then changes nothing |
| PatchOrder.NeverMeetExactly | chromium114_port/port/port-target-guards.py:855-869 | two patterns neither of which contains or borders the other are exactly those whose matches share no character in any text |
| PatchOrder.ReplaceSpread | chromium114_port/port/port-target-guards.py:862-869 | replacing a pattern in pieces joined by one it never meets replaces it in the pieces and leaves the joins |
| PatchOrder.VerdictKept | chromium114_port/port/port-target-guards.py:815-871 | an edit does not change the verdict on one that keeps clear of it, in any of the three scripts |
| PatchOrder.PatchesCommute | chromium114_port/port/port-target-guards.py:815-871 | two edits that keep clear of each other can be made in either order, first-only or all |
| PatchOrder.VerdictsAreFirst | chromium114_port/port/port-target-guards.py:815-871 | on the first run such an edit is judged as on the untouched tree |
| PatchOrder.FileRerunSilent | chromium114_port/port/port-target-guards.py:815-871 | several edits of one file that keep clear of each other: the second run leaves the file alone if and only if each edit alone is silent on its original text |
| PatchOrder.TreeRerunSilent | chromium114_port/port/port-target-guards.py:814-872 | the same for a whole script: its second run writes nothing if and only if each edit alone is silent, and then changes nothing |
| AssertRewriter.MatchHere | chromium114_port/port/port-os-asserts.py:24 | the match found is the lexicographically least of all candidates, as two lazy groups prefer; none is found exactly when there is no candidate |
| AssertRewriter.NextMatchIsLeftmost | chromium114_port/port/port-os-asserts.py:53 | no offset before the one taken has a match |
| AssertRewriter.Rstrip | chromium114_port/port/port-os-asserts.py:51 | only trailing white space, in Python's sense, goes, and all of it |
| AssertRewriter.RstripBlanks | chromium114_port/port/port-os-asserts.py:51 | blanks, tabs and ends of line put behind a text go again |
| AssertRewriter.FixDeclinesExactly | chromium114_port/port/port-os-asserts.py:38-51 | a match is left as it is if and only if it names is_haiku, is over 400 characters, spans a blank line or compares two things |
| AssertRewriter.FixTwice | chromium114_port/port/port-os-asserts.py:38-51 | what `fix` writes it leaves alone the next time |
| AssertRewriter.FixedMatchesAgain | chromium114_port/port/port-os-asserts.py:24-53 | a rewritten match is matched again, at the same place and over its whole length, whatever follows |
| AssertRewriter.GapStaysUnmatched | chromium114_port/port/port-os-asserts.py:24-53 | an offset before a match that had no match still has none once that match is rewritten |
| AssertRewriter.RewriteIsIdempotent | chromium114_port/port/port-os-asserts.py:24-53 | rewriting a rewritten text changes nothing, for every text |
| AssertRewriter.EditStaysInCall | chromium114_port/port/port-os-asserts.py:13-16 | the edit of a match falls between the parentheses of an assert call where the match begins if and only if one does begin there, outside strings, comments and longer names, and its parentheses hold an is_linux |
| AssertRewriter.EditFollowsName | chromium114_port/port/port-os-asserts.py:24-51 | in any assert call of the text the edit falls exactly where the is_linux that the match found does |
| AssertRewriter.EditElsewhere | chromium114_port/port/port-os-asserts.py:13-16 | where no such call begins, the edit falls in an assert call if and only if that is_linux stands in one elsewhere |
| AssertRewriter.AnyStretchRewritten | chromium114_port/port/port-os-asserts.py:24-53 | whatever stands between an opening and the first is_linux, short and without what makes `fix` decline, is rewritten with it |
| AssertRewriter.EditLeavesAssert | chromium114_port/port/port-os-asserts.py:13-16 | an assert call that names no is_linux, behind which a condition that selects is changed |
| AssertRewriter.EditWithoutAssert | chromium114_port/port/port-os-asserts.py:13-16 | a text without any assert call, the opening standing in a string, in which a condition is changed |
| AssertRewriter.GnTree.Relax | chromium114_port/port/port-os-asserts.py:26-56 | exactly the .gn and .gni files walked over are rewritten, and the list names exactly the files that changed, once each |
| AssertRewriter.IsGnExactly | chromium114_port/port/port-os-asserts.py:30-31 | the files walked over are those named .gn or .gni |
| AssertRewriter.GnTree.RelaxTwice | chromium114_port/port/port-os-asserts.py:26-56 | a second walk over the same tree changes no file |
| GateExpressions.WidenOr | chromium114_port/port/port-os-asserts.py:51 | inserting the name before a closing parenthesis or at the end keeps how the condition is read, and turns the value of every group round exactly where is_haiku holds and the value hangs on the insertion |
| GateExpressions.WidenedValue | chromium114_port/port/port-os-asserts.py:51 | the same of the whole condition; at its end is_haiku is added to the value |
| GateExpressions.StopsExactly | chromium114_port/port/port-os-asserts.py:15-18 | a condition that held still does if and only if not both is_haiku holds and its value hangs on the insertion; and likewise for one that did not hold |
| GateExpressions.UnnegatedPasses | chromium114_port/port/port-os-asserts.py:15-18 | under no negation a condition that held still does |
| GateExpressions.WellFormedAnywhere | chromium114_port/port/port-os-asserts.py:51 | whether tokens are a condition does not depend on what their names stand for |
| GateExpressions.NegatedGateFails | chromium114_port/port/port-os-asserts.py:15-18 | under a negation it need not: !(is_linux) holds on Haiku and its rewritten form does not |
| GateRewriting.ClosingOfCondition | chromium114_port/port/port-os-asserts.py:23 | the closing parenthesis found for an assert whose condition is well formed is the one behind the condition |
| GateExpressions.LexAppend | chromium114_port/port/port-os-asserts.py:51 | a text cut where no token can continue reads as its two halves |
| GateRewriting.MatchInCondition | chromium114_port/port/port-os-asserts.py:23-24 | in an assert whose condition reads as one the match ends at the first closing parenthesis behind the first is_linux, or right after the condition |
| GateRewriting.TradedValue | chromium114_port/port/port-os-asserts.py:38-51 | what the rewriter makes of a condition is again one; its value is turned round exactly where is_haiku holds and the old one hangs on the place of the edit; without parentheses `or is_haiku` is added |
| GateRewriting.RewriteKeepsMeaning | chromium114_port/port/port-os-asserts.py:38-51 | of an assert at the start of a text the rewriter changes the condition, to that value, and nothing else |
| GateRewriting.ConditionCallsNothing | chromium114_port/port/port-os-asserts.py:24 | no match begins inside a well-formed condition |
| GateRewriting.RewriteTradesConditions | chromium114_port/port/port-os-asserts.py:24-53 | in a text whose matches all begin at asserts with well-formed conditions exactly those conditions are traded, and all between and behind them is left |
| PollSlots.CompactKeepsLive | chromium114_port/port/port-libevent.py:107-125 | from the top down exactly the live slots stay, each with its own two owners, and all that is left is live |
| PollSlots.LiveSlotsExactly | chromium114_port/port/port-libevent.py:113-114 | live are the slots that ask for POLLIN or POLLOUT, each as often as it stands there |
| PollSlots.DropKeepsIndex | chromium114_port/port/port-libevent.py:116-123 | clearing one index, moving the last slot and setting its index keeps the index the inverse of the slots |
| PollSlots.IndexedExactly | chromium114_port/port/port-libevent.py:116-123 | a descriptor's index is zero if and only if no slot carries it |
| PollSlots.PollOp.TakeLast | chromium114_port/port/port-libevent.py:117-122 | the three arrays lose one slot and the last one takes its place in all of them |
| PollSlots.PollOp.DropDead | chromium114_port/port/port-libevent.py:112-125 | the loop leaves exactly the slots that ask for POLLIN or POLLOUT and restores the inverse index |
| PollSlots.GoneReachesOwner | chromium114_port/port/port-libevent.py:131-136 | after the loop, a descriptor reported gone always wakes an owner that asked for it |
| Images.HoldsExactly | chromium108_port/files/haiku_port/ozone/haiku_beapi_views.cc:215-219 | reading the first n bytes of every row stays inside a buffer if and only if the last row has n; the padding behind it need not be there |
| Presenter.Bitmap.CopyRows | chromium108_port/files/haiku_port/ozone/haiku_beapi_views.cc:215-227 | each row copy stays inside both buffers and changes just its bytes of its row, for any strides that hold the pixels |
| Presenter.Bitmap.CopyWhole | chromium108_port/files/haiku_port/ozone/haiku_beapi_views.cc:215-219 | after a full copy the bitmap holds the source on all its pixels, whatever the two strides |
| Presenter.Bitmap.CopyPart | chromium108_port/files/haiku_port/ozone/haiku_beapi_views.cc:220-227 | after a partial copy the bitmap holds the source inside the rectangle and its old pixels outside |
| Presenter.ContentView.Present | chromium108_port/files/haiku_port/ozone/haiku_beapi_views.cc:184-241 | the bitmap and the redraw request on every path, with failed allocation and an unlockable window |
| ScreenSync.BitmapHoldsLatest | chromium108_port/files/haiku_port/ozone/haiku_beapi_views.cc:184-228 | over any run with honest damage, any bitmap left holds the latest frame: copying only the damage agrees with copying everything |
| ScreenSync.CoveredPresent | chromium108_port/files/haiku_port/ozone/haiku_beapi_views.cc:192-227 | over the frame before, a present gives the new frame if and only if its damage covers every change or is empty inside the frame |
| ScreenSync.PartialPresentExact | chromium108_port/files/haiku_port/ozone/haiku_beapi_views.cc:220-227 | a partial present gives the frame if and only if the bitmap already agrees with it outside the damage |
| ScreenSync.LostFrameStaysStale | chromium108_port/files/haiku_port/ozone/haiku_surface_factory.cc:49-63 | a frame dropped while there is a bitmap leaves a wrong pixel wherever the next honest damage does not cover its change |
| ScreenSync.StepKeepsSync | chromium108_port/files/haiku_port/ozone/haiku_beapi_views.cc:155-241 | copying, invalidating, drawing and exposing each keep every bitmap pixel on the screen, invalid, or among the damage about to be reported |
| ScreenSync.DrawShows | chromium108_port/files/haiku_port/ozone/haiku_beapi_views.cc:155-160 | a draw shows the bitmap in its rectangle, which is no longer to be redrawn, and changes nothing outside it |
| ScreenSync.RunKeepsSync | chromium108_port/files/haiku_port/ozone/haiku_beapi_views.cc:155-241 | so does every interleaving of them |
| ScreenSync.SettledScreenShowsBitmap | chromium108_port/files/haiku_port/ozone/haiku_beapi_views.cc:155-241 | once nothing is left to report or redraw the screen shows the bitmap |
| ScreenSync.SettledScreenShowsLatest | chromium108_port/files/haiku_port/ozone/haiku_beapi_views.cc:155-241 | with honest damage it shows the latest frame |
| ScreenSync.FlushedScreenShowsBitmap | chromium108_port/files/haiku_port/ozone/haiku_beapi_views.cc:155-241 | from whatever a run has left, reporting the damage that is pending and drawing over the frame shows the bitmap and leaves none of it to redraw |
| ScreenSync.FlushedScreenShowsLatest | chromium108_port/files/haiku_port/ozone/haiku_beapi_views.cc:155-241 | with honest damage and the last bitmap granted it shows the latest frame |
| Decimal.ReadPrinted | chromium108_port/files/haiku_port/ozone/haiku_beapi_views.cc:826-843 | reading a printed number gives it back, for negative ones too |
| Decimal.BlanksRead | chromium108_port/files/haiku_port/ozone/haiku_beapi_views.cc:826 | blanks in front of a number are passed over |
| Decimal.AtollReads | chromium108_port/files/haiku_port/ozone/haiku_beapi_views.cc:826 | a sign is taken, and what follows the digits is ignored |
| Bookmarks.LineFields | chromium108_port/files/haiku_port/ozone/haiku_beapi_views.cc:818-831 | of a line the first two tabs alone are structural: time, URL and title come out of their places, and a line without URL is dropped |
| Bookmarks.FewTabs | chromium108_port/files/haiku_port/ozone/haiku_beapi_views.cc:818-825 | a line with fewer than two tabs is dropped |
| Bookmarks.ParseLines | chromium108_port/files/haiku_port/ozone/haiku_beapi_views.cc:808-817 | a text is read line by line, the last one with or without its newline |
| Bookmarks.ParsePrinted | chromium108_port/files/haiku_port/ozone/haiku_beapi_views.cc:808-847 | loading what was saved gives the same list, for every list of storable entries |
| Bookmarks.ParsedStorable | chromium108_port/files/haiku_port/ozone/haiku_beapi_views.cc:808-831 | whatever the text, everything read from it is storable |
| Bookmarks.ParsePrintParse | chromium108_port/files/haiku_port/ozone/haiku_beapi_views.cc:808-847 | for every text, saving what was read and reading that changes nothing more |
| Bookmarks.HeaderFits | chromium108_port/files/haiku_port/ozone/haiku_beapi_views.cc:841-843 | a printed time and its tab always fit the header buffer |
| Bookmarks.AddedKeepsOthers | chromium108_port/files/haiku_port/ozone/haiku_beapi_views.cc:752-759 | adding puts the entry last, keeps the entries of other pages in order, and leaves a page as often as it was, or once |
| Bookmarks.AddAllKeepsLatest | chromium108_port/files/haiku_port/ozone/haiku_beapi_views.cc:742-761 | over any run from distinct pages the list is the latest entry of each page in the order of those entries, and stays distinct |
| Bookmarks.LastOfEachIsLatest | chromium108_port/files/haiku_port/ozone/haiku_beapi_views.cc:752-759 | an entry missing from that list has a later one of its page |
| Bookmarks.BookmarkStore.EnsureLoaded | chromium108_port/files/haiku_port/ozone/haiku_beapi_views.cc:790-816 | the store holds what the file reads as, once |
| Bookmarks.BookmarkStore.Save | chromium108_port/files/haiku_port/ozone/haiku_beapi_views.cc:833-847 | the file is the printed list |
| Bookmarks.BookmarkStore.Add | chromium108_port/files/haiku_port/ozone/haiku_beapi_views.cc:742-761 | an empty URL changes nothing; otherwise list and file both become the list with a last entry of the given time, the sanitised URL and the sanitised title or URL, and the file reads back as it |
| Bookmarks.SanitisedExactly | chromium108_port/files/haiku_port/ozone/haiku_beapi_views.cc:772-779 | tabs, newlines and carriage returns become blanks, and nothing else changes |
| Bookmarks.RemoveAt | chromium108_port/files/haiku_port/ozone/haiku_beapi_views.cc:752-758 | of several entries of a page the first is the one that goes |
| BookmarkList.ContainsNoCase | chromium108_port/files/haiku_port/ozone/haiku_beapi_views.cc:876-892 | found if and only if some stretch of the text equals the query once both are lower-cased |
| BookmarkList.MatchesExactly | chromium108_port/files/haiku_port/ozone/haiku_beapi_views.cc:876-994 | an entry is shown when its title or its URL, lower-cased, has the lower-cased query in it |
| BookmarkList.LabelIsDay | chromium108_port/files/haiku_port/ozone/haiku_beapi_views.cc:856-874 | two times have the same label if and only if they are on the same day |
| BookmarkList.LabelWords | chromium108_port/files/haiku_port/ozone/haiku_beapi_views.cc:867-870 | Today is exactly the day of the clock, Yesterday the day of 24 hours before it unless that is the same day |
| BookmarkList.DayUnbroken | chromium108_port/files/haiku_port/ozone/haiku_beapi_views.cc:856-874 | a time between two times of one label has that label |
| BookmarkList.BookmarksWindow.Rebuild | chromium108_port/files/haiku_port/ozone/haiku_beapi_views.cc:977-1009 | the list view holds the rows of the entries that match |
| BookmarkList.RowsRead | chromium108_port/files/haiku_port/ozone/haiku_beapi_views.cc:990-1008 | read back, the list is exactly the given entries in order, each under the label of its own day |
| BookmarkList.LabelsAppearOnce | chromium108_port/files/haiku_port/ozone/haiku_beapi_views.cc:997-1004 | newest first, no label appears twice |
| BookmarkList.RebuiltList | chromium108_port/files/haiku_port/ozone/haiku_beapi_views.cc:977-1009 | whatever order std::sort leaves equal times in: the stored entries that match, newest first, each under its day, no label twice, none empty |
| Words.OrApart | chromium108_port/files/haiku_port/ozone/haiku_beapi_views.cc:1366 | bits that do not meet are added by or |
| Words.PackUnpack | chromium108_port/files/haiku_port/ozone/haiku_beapi_views.cc:1366-1387 | packing four bytes and taking them apart loses nothing |
| Words.ChannelsExactly | chromium108_port/files/haiku_port/ozone/haiku_beapi_views.cc:1346-1366 | a word is its four channels, alpha highest and blue lowest |
| IconFilter.AveragePixels | chromium108_port/files/haiku_port/ozone/haiku_beapi_views.cc:1328-1367 | the result is the average of the clamped box, with every 32-bit sum wrapping as its exact value does |
| IconFilter.PixelSums | chromium108_port/files/haiku_port/ozone/haiku_beapi_views.cc:1346-1356 | the sums of one pixel are its alpha, its colours times its alpha, and one |
| IconFilter.BoxSplits | chromium108_port/files/haiku_port/ozone/haiku_beapi_views.cc:1344-1357 | the sums of a box are those of two boxes it is cut into side by side |
| IconFilter.BoxStacks | chromium108_port/files/haiku_port/ozone/haiku_beapi_views.cc:1344-1357 | or one above the other |
| IconFilter.AverageExactly | chromium108_port/files/haiku_port/ozone/haiku_beapi_views.cc:1358-1366 | the average is alpha over the pixels and each colour's sum over the alpha, rounded down |
| IconFilter.BoxLimited | chromium108_port/files/haiku_port/ozone/haiku_beapi_views.cc:1344-1357 | the count of a box is its area and bounds its sums |
| IconFilter.BoxFits | chromium108_port/files/haiku_port/ozone/haiku_beapi_views.cc:1344-1357 | no sum wraps in a box of at most 66051 pixels |
| IconFilter.WhiteBoxWraps | chromium108_port/files/haiku_port/ozone/haiku_beapi_views.cc:1344-1357 | the sums of an opaque white box, anywhere in any source, fit if and only if it has at most that many pixels |
| IconFilter.AverageBetween | chromium108_port/files/haiku_port/ozone/haiku_beapi_views.cc:1344-1366 | each channel lies between the least and the greatest value it has among pixels that are not fully transparent |
| IconFilter.UniformAverage | chromium108_port/files/haiku_port/ozone/haiku_beapi_views.cc:1344-1366 | a box of one colour averages to exactly that colour |
| IconBitmap.BoxSpan | chromium108_port/files/haiku_port/ozone/haiku_beapi_views.cc:1335-1386 | every destination box is non-empty and inside the source, and at most k wide for a source of at most k times the side |
| IconBitmap.EdgeExactly | chromium108_port/files/haiku_port/ozone/haiku_beapi_views.cc:1384-1386 | boxes start at even distances, rounded down |
| IconBitmap.PixelInOneBox | chromium108_port/files/haiku_port/ozone/haiku_beapi_views.cc:1384-1386 | when the source is at least the side both ways, each pixel is in exactly one box of the grid |
| IconBitmap.CountsCover | chromium108_port/files/haiku_port/ozone/haiku_beapi_views.cc:1384-1386 | and the counts of all boxes add up to every pixel of the source |
| IconBitmap.Scaled | chromium108_port/files/haiku_port/ozone/haiku_beapi_views.cc:1388-1390 | a premultiplied channel is at most its alpha, and full alpha leaves it as it is |
| IconBitmap.ScaledExactly | chromium108_port/files/haiku_port/ozone/haiku_beapi_views.cc:1388-1390 | it is the product with alpha over 255, rounded down |
| IconBitmap.AverageOfBox | chromium108_port/files/haiku_port/ozone/haiku_beapi_views.cc:1384-1386 | the pixel at column x and row y is averaged over the box in column x and row y |
| IconBitmap.FillIconBitmap | chromium108_port/files/haiku_port/ozone/haiku_beapi_views.cc:1371-1395 | every row of the bitmap holds its icon pixels and keeps its padding; false exactly without memory |
| IconBitmap.IconRowPixel | chromium108_port/files/haiku_port/ozone/haiku_beapi_views.cc:1382-1391 | the four bytes at each place are those of the pixel averaged for it, blue first |
| IconBitmap.IconNeverWraps | chromium108_port/files/haiku_port/ozone/haiku_beapi_views.cc:1335-1357 | up to 257 source pixels for one of icon both ways (4112 for a side of 16) no sum of any box wraps |
| IconBitmap.LargeWhiteSourceWraps | chromium108_port/files/haiku_port/ozone/haiku_beapi_views.cc:1335-1386 | in any larger square source, all white, the sums of some box wrap |
| IconBitmap.UniformIcon | chromium108_port/files/haiku_port/ozone/haiku_beapi_views.cc:1371-1395 | an opaque source of one colour comes out as that colour in every pixel |
| ContentBounds.StepKeepsAgreement | chromium108_port/files/haiku_port/ozone/haiku_window.cc:93-238 | every request, user action and message keeps the last reported size equal to the view's and the window higher by the inset |
| ContentBounds.BoundsAsked | chromium108_port/files/haiku_port/ozone/haiku_window.cc:169-180 | a request gives the bounds, the window's place and the view's size asked for, at least a pixel, and reports the size if it is new |
| ContentBounds.ContentKeepsItsSize | chromium108_port/files/haiku_port/ozone/haiku_window.cc:93-238 | over every interleaving from the constructor; with nothing left to deliver the bounds have the view's size |
| ContentBounds.DrainedAgrees | chromium108_port/files/haiku_port/ozone/haiku_window.cc:93-104 | delivering all messages of any reachable state, in any order, ends with bounds of the view's size |
| ContentBounds.InsetIsInvisible | chromium108_port/files/haiku_port/ozone/haiku_window.cc:194-238 | with nothing left to deliver, setting the inset changes the view's size at no intermediate step and reports nothing |
| ContentBounds.UnpinnedInsetIsVisible | chromium108_port/files/haiku_port/ozone/haiku_window.cc:210-226 | left to follow, the view takes a wrong size on the way and reports two |
| ContentBounds.InsetRoundTrip | chromium108_port/files/haiku_port/ozone/haiku_window.cc:194-238 | setting the inset back restores everything it changed |
| ContentBounds.InsetInvisibleExactly | chromium108_port/files/haiku_port/ozone/haiku_window.cc:194-238 | with anything on its way, setting the inset keeps the view's size if and only if the bounds have it |
| ContentBounds.InsetUndoesResize | chromium108_port/files/haiku_port/ozone/haiku_window.cc:194-238 | a user's resize whose report has not arrived is undone by a change of the inset |
| ContentBounds.StepPlace | chromium108_port/files/haiku_port/ozone/haiku_window.cc:93-238 | from any state, a step leaves the last reported place the window's if and only if it regains it, or had it and does not lose it |
| ContentBounds.PlaceExactly | chromium108_port/files/haiku_port/ozone/haiku_window.cc:93-238 | over every interleaving from the constructor, with nothing left to deliver, bounds and window have the same origin if and only if every step that lost it was followed by one that regained it |
| ContentBounds.ReportRestoresPlace | chromium108_port/files/haiku_port/ozone/haiku_beapi_views.cc:419-437 | handling one FrameResized gives the place back, whatever was lost before; taking posted bounds neither loses nor regains it |
| ContentBounds.DragGoesStale | chromium108_port/files/haiku_port/ozone/haiku_window.cc:93-104 | a user's drag alone leaves the bounds at the old origin, since only sizes are reported |
| ContentBounds.OriginCanGoStale | chromium108_port/files/haiku_port/ozone/haiku_window.cc:93-180 | so do bounds still on their way when the origin is set without a change of size |
| ContentBounds.HaikuWindow.constructor | chromium108_port/files/haiku_port/ozone/haiku_window.cc:48-73 | a new window agrees with its view |
| ContentBounds.HaikuWindow.SetBoundsInPixels | chromium108_port/files/haiku_port/ozone/haiku_window.cc:169-180 | bounds, window and view after a request, and what the delegate is told |
| ContentBounds.HaikuWindow.SetInset | chromium108_port/files/haiku_port/ozone/haiku_window.cc:194-238 | the state after an inset is set; from a quiescent one the view's size, the bounds and the empty queues stay |
| ContentBounds.HaikuWindow.FrameResized | chromium108_port/files/haiku_port/ozone/haiku_beapi_views.cc:419-437 | the oldest size is posted at the place the window has by then |
| ContentBounds.HaikuWindow.OnBoundsFromLooper | chromium108_port/files/haiku_port/ozone/haiku_window.cc:93-104 | the oldest posted bounds are taken, and the delegate is told nothing when they are the same |
| ZeroPages.FirstPageLeast | scripts/scan_zero_pages.py:66-67 | the scan starts at the least multiple of 4096 not below the section's start |
| ZeroPages.OpensRun | scripts/scan_zero_pages.py:70-74 | a zero page not following a run opens one, and the list stays exact |
| ZeroPages.ExtendsRun | scripts/scan_zero_pages.py:70-72 | a zero page following a run extends it, and the list stays exact |
| ZeroPages.ScanSection | scripts/scan_zero_pages.py:66-75 | the runs are all the maximal runs of page-aligned zero pages of the section, in order |
| ZeroPages.ZeroPageInRun | scripts/scan_zero_pages.py:66-75 | every whole zero page of a section is in a run |
| ZeroPages.LongStretchIsSeen | scripts/scan_zero_pages.py:4-15 | zeros over two pages less a byte always show up as a run |
| ZeroPages.ScanBinary | scripts/scan_zero_pages.py:55-94 | accepted if and only if every maximal run is below its section's limit or ends on the section's own alignment of at least a page |
| BlobRepair.FindOffset | scripts/verify_embedded_blob.py:39-44 | the search loop gives the specified place, or says the image is too short or the address unmapped |
| BlobRepair.SegmentRead | scripts/verify_embedded_blob.py:42-43 | a program header laid out field by field, little-endian, reads back as its type, offset, address and file size |
| BlobRepair.TableRead | scripts/verify_embedded_blob.py:40 | the ELF header fields at 0x1c, 0x2a and 0x2c say where the program headers are, how large and how many |
| BlobRepair.LocateLaidOut | scripts/verify_embedded_blob.py:39-43 | of an image laid out from a header and program headers the first loadable segment with the address gives its offset |
| BlobRepair.LocateNowhere | scripts/verify_embedded_blob.py:41-44 | the address is unmapped if and only if no loadable segment has it |
| BlobRepair.SearchIsFirst | scripts/verify_embedded_blob.py:41-43 | the first loadable header that holds the address decides, and gives the offset |
| BlobRepair.Verify | scripts/verify_embedded_blob.py:46-54 | intact, or exactly the offsets that differ, or unreadable |
| BlobRepair.VerifiedExactly | scripts/verify_embedded_blob.py:46-54 | intact exactly when the bytes at the address are the blob's, unreadable exactly when they are not all there |
| BlobRepair.CorruptExactly | scripts/verify_embedded_blob.py:50-54 | otherwise the offsets of the bytes that differ, each once, in order |
| BlobRepair.Repair | scripts/repair_embedded_blob.py:29-41 | the image with the blob spliced in and nothing else changed, with the number of wrong bytes; it fails exactly where the verifier cannot read |
| BlobRepair.LocateUnchanged | scripts/repair_embedded_blob.py:32-40 | writing clear of the headers leaves every address where it was |
| BlobRepair.RepairedVerifies | scripts/repair_embedded_blob.py:32-40 | a repaired image verifies at the same place, and a second repair changes nothing |
| BlobRepair.IntactIffRepairIdle | scripts/verify_embedded_blob.py:46-52 | the verifier accepts exactly the images a repair would leave as they are |
| BlobRepair.RepairTwice | scripts/repair_embedded_blob.py:29-41 | a second repair finds no wrong byte and the check after it succeeds |
| Reachability.WalkStaysInside | scan_reachable.py:15-24 | a closed set with the root in it holds every target on every walk from the root |
| Reachability.Scan | scan_reachable.py:12-24 | the worklist ends on every graph, with exactly the known targets reachable from the root over either dependency list |

## Left out

- The tables of edits in the port scripts: data. The fourth field of an edit in port-haiku-platform.py that is not
  "all" is ignored by its loop, as in the model.
- PatchOrder.TreeRerunSilent: does not cover files with edits that build on one another or are removals to nothing;
  FileRerunSilent still covers the other files of their script.
- The second loop of port-haiku-platform.py (including OS.h): a marked first-only edit with a fixed marker.
- File and directory access, `nm`, printed messages (each edit's verdict stands for its message).
- text_of_object and the section header parsing of the three ELF scripts: lookups by name; the sections and the blob
  are parameters.
- The second half of scan_reachable.py: which sources of reachable targets exist.
- poll_add, poll_del and poll_dispatch around the loop in poll.c, and the reallocation of its arrays.
- Keyboard, mouse, cursor, clipboard, toolbar and startup code, the other port scripts, and diagnostics.
- PollSlots.GoneReachesOwner: does not follow the event into libevent's queue, which is not part of this model.
- IconFilter.AveragePixels: does not model overflow of the signed products that compute box ends and offsets; sources
  of up to 4112 pixels both ways are far below it.
- ScreenSync.StepKeepsSync: does not model a window that cannot be locked after a copy, whose damage is lost with the
  window; Presenter.ContentView.Present states that path.
- BookmarkList.RebuiltList: does not cover calendars in which localtime_r fails; DateGroupLabel models that branch.
- Bookmarks.BookmarkStore.EnsureLoaded: does not model a file that exists and cannot be read, which the store treats
  as empty.
- Scrolling, selection and drawing of the list view, and the widths in which it is shown.
