# Gwenhywfar: verified models

Dafny models of the parts of Gwenhywfar whose behaviour is an algorithm rather than a
chain of toolkit calls, with proofs about every input, every tree or every run. Toolkit and
I/O calls become logs of effects: bands drawn, words painted, cells attached, modules set
up, dialog events.

| file | component |
|---|---|
| `Basics.dfy` | integer and sequence facts and tree paths that several components share |
| `CText.dfy`, `CBuffer.dfy` | C character classes and string searches, `fgets` |
| `MacroSpec.dfy`, `MacroGrammar.dfy`, `MacroScanner.dfy`, `MacroFile.dfy`, `MacroDocument.dfy`, `MacroTable.dfy` | the list-macro scanner of `admin/mklistdoc.c` |
| `TemplateExpander.dfy` | its `@VAR@` template expander |
| `Gradient.dfy` | the fixed-point gradient fill of the FOX theme |
| `HtmlPaint.dfy` | full and culled painting of HTML object trees |
| `WidthSearch.dfy` | the bitwise width search of HTML labels |
| `WidgetTree.dfy`, `GridLayout.dfy`, `DialogSetup.dfy` | widget trees, grid cursors, set-up of a dialog with its radio groups and grids |
| `HtmlSplit.dfy`, `ListBox.dfy` | plain/rich text splitting, tab-separated list boxes |
| `GwenInit.dfy`, `DialogLifecycle.dfy` | reference-counted library set-up, life of a GTK dialog |
| `BinReloc.dfy` | path functions and prefix lookup of binreloc |

## Main results

- **Macro scanner.** scanLine accepts exactly the printed invocations, in any layout, that are
  not definitions; its verdicts other than "need more data" are final; every request for more
  data can be met by three characters; and an invocation broken over lines is recorded as if it
  stood on one line, so that whole documents, with definitions and continued lines in them, are
  read to exactly the first invocations of each macro and type that they hold, newest first. The names in the scanner's own table never overlap.
- **Template expander.** The loop with its temporary NULs and its jumps back is plain
  search-and-replace from the left without rescanning, of three variables by their three values.
- **Gradient.** The bands tile the height exactly in spite of the truncated step; their number is
  the least of three; edges and colours are the rounded interpolation.
- **Painting.** Both ways of painting draw exactly the words and pictures of the tree, by paths.
  Culled painting is filtered full painting through every viewport if and only if
  every drawing lies inside all its ancestors.
- **Dialog set-up.** GetBelow walks in preorder; after any successful set-up two radio buttons
  share a group if and only if their ids are equal; every child of a grid has the cell that the
  closed form gives to its rank; and for all extents it is decided when Qt gives it the same.
- **Lifecycles.** Which error Init and Fini return, use counting, a conservation law for module set-ups over all call sequences, with partial
  failures and counter wraps, and the order of events over all series of calls to a dialog.
- **Paths.** When dirname and build_path undo each other, as exact conditions.

Some promises hold under a condition only, and the condition is proved to be exact:

- In a grid with exactly one positive extent GTK and Qt agree about a child's cell if and only if
  no dialog widget stands before it among its siblings, and the columns are not negative. GTK does
  not add dialogs to their parent, Qt does (`gui/gtk3/w_dialog.c:182-206`,
  `gui/qt4/w_dialog.cpp:51-52`); GTK lets positive rows rule, Qt any columns but 0. Under negative
  columns the first child agrees, and in a single row those up to the columns' absolute value.
- Set-ups and teardowns of the library's modules balance if and only if the counter never wraps.
- GTK and Qt split a list-box text alike if and only if no field before the last is empty; an
  empty last field is dropped by both.
- A title reads back unchanged if and only if it has at most 256 columns and no tab at its end.
- A radio button as the root of a tree makes the set-up use a null pointer, and nothing else does.
- The prefix of an installed program is found if and only if the prefix is the root or a
  non-empty path without a separator at its end; the program directory is found again from it
  if and only if the prefix is not empty and does not end in two separators.
- A grid without a positive extent attaches its children outside its table.
- An empty replacement text makes the template expander fail, because `fprintf` then returns 0.

## Model

| member | source | states |
|---|---|---|
| `CText.StrStrFirst` | admin/mklistdoc.c:168 | the search for the macro name finds its first occurrence, or none if there is none |
| `CText.SameCaseIff` | admin/mklistdoc.c:226 | two strings are the same ignoring case iff they differ at most by letters in their other case |
| `CText.SpaceIs` | admin/mklistdoc.c:173-174 | white space is blank, tab, newline, vertical tab, form feed and carriage return |
| `CBuffer.InputFile.Gets` | admin/mklistdoc.c:345-362 | a read stores one line or as much as fits behind the given position, ends it with a NUL, and flags the end of the file only when the input ran out first |
| `CBuffer.ChunkEnds` | admin/mklistdoc.c:345-362 | what one read takes ends at the first newline, at the limit or at the end of the file, and nowhere before |
| `MacroSpec.VerdictStable` | admin/mklistdoc.c:161-306 | once the name occurs, a verdict of 0 or -1 and both names read are the same after appending any text |
| `MacroSpec.IncompleteBefore` | admin/mklistdoc.c:274-304 | cut anywhere between the name and the closing character, an accepted text asks for more data |
| `MacroSpec.NeedMoreResolves` | admin/mklistdoc.c:274-304 | every text that asks for more data is decided after three more characters |
| `MacroGrammar.PrintThenScan` | admin/mklistdoc.c:168-273 | any layout of NAME ( T , P ) that does not define NAME is found, with exactly T and P, up to its closing character |
| `MacroGrammar.DefinitionIff` | admin/mklistdoc.c:217-239 | the check for a definition succeeds iff the text before the name is white space, #, white space, "define " in any case, white space |
| `MacroGrammar.ScanThenPrint` | admin/mklistdoc.c:168-273 | whatever is found is the print of an invocation with the names that were read |
| `MacroGrammar.AcceptsExactly` | admin/mklistdoc.c:161-306 | the scanner reads (T, P) out of a text iff the text prints an invocation of T and P |
| `MacroScanner.Scanner.ReadWord` | admin/mklistdoc.c:194-285 | the loops up to the comma and up to the closing character: the word, where it ends and where it stops, or its rejection |
| `MacroScanner.Scanner.ReadArguments` | admin/mklistdoc.c:170-302 | the nested loops behind the macro name deliver the verdict and the four positions of the two names |
| `MacroScanner.Scanner.IsDefined` | admin/mklistdoc.c:217-239 | the definition check on the buffer |
| `MacroScanner.Scanner.Store` | admin/mklistdoc.c:241-270 | both names are cut in place; a new type becomes an entry at the head of the list and the buffer is restored, a known type leaves the list alone and the buffer cut at the type name |
| `MacroScanner.Scanner.ScanLine` | admin/mklistdoc.c:161-306 | the verdict, the list and the text left in the buffer, as functions of the text and the list before |
| `MacroScanner.Scanner.ScanLineForAllMacros` | admin/mklistdoc.c:310-324 | the macros in their order on the text that the ones before left, stopping at the first that needs more data |
| `MacroScanner.Scanner.ReadLine` | admin/mklistdoc.c:356-374 | a line is read into the empty buffer or, behind a blank, to its end, within the room left |
| `MacroScanner.Scanner.ProcessLine` | admin/mklistdoc.c:384-399 | newline and trailing backslash are dropped; without a backslash the text is scanned, and kept only if more data is needed |
| `MacroScanner.Scanner.ScanForMacros` | admin/mklistdoc.c:328-404 | for every file, the list of macros found, or failure when a joined line outgrows the buffer |
| `MacroFile.ReadInvocation` | admin/mklistdoc.c:348-401 | an invocation broken over lines, by backslashes up to its name and anywhere behind it, leaves an empty buffer and the list it would leave on one line |
| `MacroFile.BrokenInvocation` | admin/mklistdoc.c:348-401 | the same for the print of (T, P): the list gains exactly that entry, unless the type is known, and reading goes on with the rest of the file |
| `MacroFile.ReadContinued` | admin/mklistdoc.c:384-399 | lines joined by backslashes are scanned as the one text they spell, and the buffer is cleared when that asks for no more data |
| `MacroFile.IdleIsRejected` | admin/mklistdoc.c:168-239 | a macro whose first occurrence is a mention without a bracket, or its definition, is rejected |
| `MacroFile.SeveralInvocations` | admin/mklistdoc.c:310-324 | of several macros invoked in one text, with types that are not known, each is recorded, in the order of the table |
| `MacroFile.UnterminatedLine` | admin/mklistdoc.c:348-401 | a last line without a newline counts like one with it |
| `MacroFile.OutgrownLine` | admin/mklistdoc.c:350-362 | a line that fills the buffer and still asks for more data makes the reader fail |
| `MacroDocument.DocumentRead` | admin/mklistdoc.c:328-404 | a file made of any number of texts and invocations is read to exactly the list of its invocations, newest first and each type once per macro; a text is a line, or lines continued by backslashes, in which every macro is absent, mentioned without a bracket, or being defined; an invocation is spaced and broken in any way, and other macros may be mentioned or defined before it |
| `MacroDocument.DocumentHolds` | admin/mklistdoc.c:243-404 | in terms of the document alone: the list read holds exactly the first invocations of each macro with each type that the old list does not know, with their prefixes, in reverse order, in front of the old list |
| `MacroTable.NamesLieApart` | admin/mklistdoc.c:45-88 | two occurrences of names from the table are the same occurrence or do not overlap |
| `MacroTable.OthersAround` | admin/mklistdoc.c:45-88 | where one name of the table stands, another one occurs in the text iff it occurs before or behind it |
| `MacroTable.TableCall` | admin/mklistdoc.c:45-88 | so every layout of an invocation is covered by the document theorem, if no name of the table stands before it and no other one behind |
| `MacroTable.OneLineFile` | admin/mklistdoc.c:328-404 | the file NAME(T,P) of one line is read to the one entry with NAME, T and P, for every name in the table and all words T and P in which no other name occurs |
| `MacroTable.ScanDocument` | admin/mklistdoc.c:328-404 | the scanner with the table of macros and the buffer of 8192 characters reads every such document to exactly its first invocations of each macro and type, in reverse order |
| `MacroFile.ReadMacrosKeeps` | admin/mklistdoc.c:243-270 | no file makes the list hold a type twice for one macro, a name with white space or commas in it, or a prefix with a closing bracket |
| `TemplateExpander.PiecesAreTheLine` | admin/mklistdoc.c:438-503 | the plain pieces and variables that the line is cut into spell the line |
| `TemplateExpander.CopiesPlain` | admin/mklistdoc.c:441-503 | text in which no known variable begins is copied, also behind an unknown or open @, which gives up one character only |
| `TemplateExpander.ExpandReplaces` | admin/mklistdoc.c:438-503 | the scan fails iff one of the variables replaced has an empty value, and otherwise yields the line with its variables replaced from the left |
| `TemplateExpander.LineMeaning` | admin/mklistdoc.c:438-503 | the line by its first @: TYPENAME, FN_PREFIX and FILENAME become the type name, the prefix and the file name, each failing if that is empty; any other name keeps its @ and is looked at again; without a second @ the line is copied |
| `TemplateExpander.LineExpander.ValueBetween` | admin/mklistdoc.c:456-476 | the name between two @ is read by a NUL that is taken back; TYPENAME gives the type name, FN_PREFIX the prefix, FILENAME the file name, anything else nothing |
| `TemplateExpander.LineExpander.TransformLine` | admin/mklistdoc.c:436-503 | the loop ends, leaves the buffer as it was, and writes what the scan yields |
| `TemplateExpander.ExpandLine` | admin/mklistdoc.c:436-503 | the text is the one that LineMeaning describes, which is the line with every variable replaced once; result 0 iff no replaced variable is empty, otherwise 2 |
| `Gradient.BandsTile` | gui/fox16/theme.cpp:37-62 | no band is empty, each begins where the one before ends, from 0 to the height exactly |
| `Gradient.StepCount` | gui/fox16/theme.cpp:36-42 | the number of bands is the least of the largest channel difference plus one, the height, and 128 |
| `Gradient.BandsInterpolate` | gui/fox16/theme.cpp:42-62 | edge and colour channels of the k-th of n bands are k n-ths of the way, plus 32767/65536 and rounded down, up to the k/65536 that truncated steps lose |
| `Gradient.RowsPaintedOnce` | gui/fox16/theme.cpp:52-62 | each row of the rectangle is covered by one band and no other row by any |
| `Gradient.BandColours` | gui/fox16/theme.cpp:42-60 | the first band has the lower colour, every band lies between the two colours in each channel |
| `Gradient.BandsMoveOneWay` | gui/fox16/theme.cpp:57-61 | from band to band no channel moves away from its end value |
| `Gradient.UnclippedIsSmooth` | gui/fox16/theme.cpp:36-41 | when every channel difference plus one is at most the height and 128, neighbouring bands differ by at most one per channel and the last one misses the upper colour by at most one |
| `Gradient.ShadeEnd` | gui/fox16/theme.cpp:47-60 | for every number of steps the last shade misses its end value by at most the difference divided by the steps, plus one |
| `Gradient.Canvas.DrawRectangle` | gui/fox16/theme.cpp:19-64 | the loop runs once per step and logs exactly these bands; an empty rectangle draws nothing |
| `HtmlPaint.NestedAgreement` | gui/fox16/fox16_htmlctx.cpp:345-428 | with every child box inside its parent's box, painting through a viewport is the full painting, translated and filtered by the viewport test, in the same order |
| `HtmlPaint.CullingIsFiltering` | gui/fox16/fox16_htmlctx.cpp:432-539 | the same when drawings stay inside the boxes of their ancestors |
| `HtmlPaint.CullingIsShorter` | gui/fox16/fox16_htmlctx.cpp:432-539 | in any tree culling never draws more than the filter shows |
| `HtmlPaint.AgreementIff` | gui/fox16/fox16_htmlctx.cpp:432-539 | culled and filtered painting agree through all viewports iff every drawing lies inside all its ancestors |
| `HtmlPaint.OverhangIsLost` | gui/fox16/fox16_htmlctx.cpp:452-453 | a tree and a viewport in which culling loses a visible word |
| `HtmlPaint.PaintsEachPath` | gui/fox16/fox16_htmlctx.cpp:345-539 | in any tree one drawing for each path to a word or to an image with a picture, and no other, in document order, at the sum of the offsets along the path; through a viewport only for paths whose objects are all in it, moved by its offset |
| `HtmlPaint.VisibleIffMeets` | gui/fox16/fox16_htmlctx.cpp:452-453 | the viewport test holds iff a point of the box, its far edges included, lies in the viewport |
| `HtmlPaint.DeviceContext.PaintTree` | gui/fox16/fox16_htmlctx.cpp:345-428 | the recursion with its sibling loop appends the full painting to the log |
| `HtmlPaint.DeviceContext.PaintTreeAt` | gui/fox16/fox16_htmlctx.cpp:432-539 | the culled recursion appends the culled painting to the log |
| `WidthSearch.SearchWidth` | gui/fox16/fox16_htmllabel.cpp:133-156 | for any layout the result is in 1..2047 and fits the target ratio, or one less is zero or not too wide while one more is too wide or 2048 |
| `WidthSearch.RatioMeaning` | gui/fox16/fox16_htmllabel.cpp:146-151 | too wide is a width of more than 4 heights; fitting is from 3.5 heights to below 4 |
| `WidthSearch.EdgeIsThreshold` | gui/fox16/fox16_htmllabel.cpp:146-151 | with a monotone layout all widths below such a result are not too wide and all above are |
| `WidthSearch.HtmlLabel.CalcDefaultDims` | gui/fox16/fox16_htmllabel.cpp:126-164 | which width is chosen for each setting of the label, and that the extents cached are those of the layout at that width |
| `WidgetTree.BelowIsSuccessor` | src/base/tree.c:349-367 | GetBelow goes from every widget to its successor in the preorder and from the last one to nothing |
| `WidgetTree.PreorderSorted` | gui/gtk3/gtk3_gui_dialog.c:466-482 | the order of set-up is document order, so every widget comes once and before its children |
| `WidgetTree.PreorderComplete` | gui/gtk3/gtk3_gui_dialog.c:466-482 | no widget is left out |
| `DialogSetup.Toolkit.FindLeader` | gui/gtk3/w_radiobutton.c:187-198 | climbing to the root and walking down finds the first radio button of the group in preorder |
| `DialogSetup.Toolkit.SetupRadio` | gui/gtk3/w_radiobutton.c:167-204 | the button's own group, or the group of the leader if that is another button |
| `DialogSetup.Toolkit.SetupWidget` | gui/gtk3/gtk3_gui_dialog.c:374-464 | the set-up of one widget by its type, and its addition to its parent unless it is a dialog |
| `DialogSetup.Toolkit.SetupTree` | gui/gtk3/gtk3_gui_dialog.c:374-486 | the recursion sets up the subtree in preorder and stops at the first error |
| `DialogSetup.Toolkit.SetupDialog` | gui/gtk3/gtk3_gui_dialog.c:184-212 | the set-up of the whole tree, to which the results below apply |
| `DialogSetup.LeaderIsReady` | gui/gtk3/w_radiobutton.c:193-204 | a leader that is not the button itself has been set up already |
| `DialogSetup.GroupsInvariant` | gui/gtk3/w_radiobutton.c:187-204 | in every state of the set-up of a tree whose root is no radio button no null pointer is used, and among the widgets visited sharing a group is having the same id |
| `DialogSetup.RadioGroups` | gui/gtk3/w_radiobutton.c:187-204 | after a successful set-up two radio buttons share a toolkit group iff their group ids are equal |
| `DialogSetup.RootButtonCrashes` | gui/gtk3/w_radiobutton.c:187-190 | a radio button as the root ends the set-up by a null pointer |
| `DialogSetup.SetupSucceedsIff` | gui/gtk3/gtk3_gui_dialog.c:374-486 | the set-up of a tree succeeds iff its root is no radio button and no widget has a type that is not handled |
| `DialogSetup.AllSetUp` | gui/gtk3/gtk3_gui_dialog.c:466-482 | a successful set-up has made a toolkit widget for every widget of the tree, in document order |
| `DialogSetup.GridCells` | gui/gtk3/w_gridlayout.c:130-180 | after a successful set-up of any tree each non-dialog child of a grid has the cell of its rank among the children that are no dialogs |
| `DialogSetup.GridsAlike` | gui/qt4/w_gridlayout.cpp:76-97 | for all extents GTK and Qt give a child the same cell iff its rank without dialogs and its index are alike in the sense of `GridLayout.Alike` |
| `DialogSetup.GridAgreement` | gui/qt4/w_gridlayout.cpp:76-97 | with exactly one extent positive GTK and Qt give a child the same cell iff no dialog stands before it among its siblings and the columns are not negative, or negative but beyond the index of a child in the only row, or the child is the first |
| `DialogSetup.DialogShiftsCells` | gui/gtk3/w_dialog.c:182-206 | a tree with a dialog in a grid whose set-up succeeds and gives the next child another cell than Qt does |
| `GridLayout.CursorIsClosedForm` | gui/gtk3/w_gridlayout.c:150-177 | for all extents the cursor puts the k-th child at (k mod c, k div c), or the transpose of it for rows, or (0, k+1) without a positive extent |
| `GridLayout.CellsAlike` | gui/qt4/w_gridlayout.cpp:87-96 | for all extents, also both positive, neither or negative: when GTK's cell of one index is Qt's cell of another; with both positive that is multiplication by the columns modulo the number of cells less one |
| `GridLayout.TruncatedDivision` | gui/qt4/w_gridlayout.cpp:87-96 | the quotient and remainder that Qt's cells are made of, for divisors of either sign |
| `GridLayout.CursorIsQt` | gui/qt4/w_gridlayout.cpp:83-97 | with exactly one extent positive the cursor's cell is the one Qt computes, in truncating C arithmetic, iff the columns are not negative, or k is 0, or there is one row and k is less than the columns' absolute value |
| `GridLayout.CellsDistinct` | gui/gtk2/w_gridlayout.c:153-180 | no two children share a cell |
| `GridLayout.GrowingExtent` | gui/gtk2/w_gridlayout.c:153-180 | after k children the growing extent is k divided by the fixed one, rounded up, and at least 1 |
| `GridLayout.Gtk2Grid.AddChild` | gui/gtk2/w_gridlayout.c:132-192 | the child is attached at its closed form, and inside the table as last resized iff an extent is positive |
| `GridLayout.QtAddChild` | gui/qt4/w_gridlayout.cpp:76-97 | for all extents the counting loop finds the child's index and the cell that belongs to it, which is GTK's cell for exactly the indices alike; a child that is not there gets none |
| `HtmlSplit.PiecesReassemble` | gui/gtk3/gtk3_gui_dialog.c:551-571 | plain text is before and after, rich text the middle, and with the two tags they spell the text; without a complete pair both are the whole text |
| `HtmlSplit.JoinThenSplit` | gui/gtk3/gtk3_gui_dialog.c:491-573 | for a without an opening tag and h without a closing one, a&lt;html&gt;h&lt;/html&gt;b splits into a+b and h, in any case of the tags |
| `HtmlSplit.HtmlInAllBackends` | gui/qt4/qt4_gui.cpp:64-131 | a&lt;html&gt;h&lt;/html&gt;b gives a+b in GTK, h in FOX and &lt;qt&gt;h&lt;/qt&gt; in Qt |
| `HtmlSplit.TagsAre` | gui/gtk3/gtk3_gui_dialog.c:499-548 | the tags looked for are &lt;html&gt; and &lt;/html&gt; in any case |
| `HtmlSplit.ScanTag` | gui/gtk3/gtk3_gui_dialog.c:499-548 | hopping from one &lt; to the next finds the first tag in any case, or none |
| `HtmlSplit.GetRawText` | gui/gtk3/gtk3_gui_dialog.c:491-573 | the plain text is appended to the buffer, nothing for a null pointer |
| `HtmlSplit.GetHtmlText` | gui/fox16/fox16_gui.cpp:284-351 | the rich text, or an empty string for a null pointer |
| `HtmlSplit.ExtractHtml` | gui/qt4/qt4_gui.cpp:64-131 | the rich text in Qt's tags, or the text itself without a complete pair |
| `ListBox.JoinFields` | gui/gtk3/w_listbox.c:405-417 | joining the tab-separated fields of a text gives the text |
| `ListBox.FieldsJoin` | gui/gtk3/w_listbox.c:277-304 | splitting joined fields gives the fields, if none holds a tab |
| `ListBox.GtkSplitIs` | gui/gtk3/w_listbox.c:277-304 | the GTK loop yields the fields short of an empty last one, up to the column limit |
| `ListBox.QtSplitIs` | gui/qt4/w_listbox.cpp:252-257 | Qt's loop yields the longest run of non-empty fields |
| `ListBox.SplitsAgreeIff` | gui/qt4/w_listbox.cpp:234-239 | within the column limit both splits are equal iff no field before the last is empty |
| `ListBox.BackendsAgreeIff` | gui/qt4/w_listbox.cpp:223-257 | the same for the texts given to the backends, when they hold no HTML section |
| `ListBox.QtSplit` | gui/qt4/w_listbox.cpp:252-257 | the section loop |
| `ListBox.NormalIsFixed` | gui/gtk3/w_listbox.c:427-463 | a row read back and added again reads back the same |
| `ListBox.RowIsNormal` | gui/gtk3/w_listbox.c:323-366 | the row stored for a value reads back as the value's fields, cut or padded to the column count |
| `ListBox.GtkListBox.SetTitle` | gui/gtk3/w_listbox.c:240-313 | columns, headers and an empty store from a title; an empty title changes nothing and is an error |
| `ListBox.GtkListBox.AddValue` | gui/gtk3/w_listbox.c:325-366 | a row is added behind the others if there is a store |
| `ListBox.GtkListBox.GetTitle` | gui/gtk3/w_listbox.c:393-423 | the headers joined by tabs, or the default without headers |
| `ListBox.GtkListBox.GetValue` | gui/gtk3/w_listbox.c:426-473 | the row joined over the header columns, or the default |
| `ListBox.TitleRoundTrip` | gui/gtk3/w_listbox.c:240-423 | a title set and read back is unchanged, and its fields are the columns of the box, iff it has at most 256 columns and does not end in a tab |
| `ListBox.RowRoundTrip` | gui/gtk3/w_listbox.c:325-473 | a row added to a box with such a title, behind any rows, reads back in normal form, and the rows before it stay |
| `GwenInit.TeardownReverses` | src/gwenhywfar.c:97-397 | the order of set-up; teardown is the set-up reversed, except that gnutls outlives the Logger |
| `GwenInit.Conservation` | src/gwenhywfar.c:92-412 | for every call sequence, set-ups minus teardowns of a module are 1 while the library is in use, plus one per failed Init that had reached it, plus one per wrap of the 32-bit counter |
| `GwenInit.ConservedIff` | src/gwenhywfar.c:92-412 | the law holds without the last term iff the counter never wraps |
| `GwenInit.WrapReached` | src/gwenhywfar.c:295 | 2^32 calls of Init wrap the counter to 0 with every module still set up |
| `GwenInit.CounterIsUses` | src/gwenhywfar.c:92-412 | for every call sequence the counter is the number of open uses: a first Init counts unless one of the thirteen modules looked at fails, Fini takes one off, a forced Fini all |
| `GwenInit.InUseNothingHappens` | src/gwenhywfar.c:92-412 | as long as the library stays in use no module is set up or torn down |
| `GwenInit.RegularRuns` | src/gwenhywfar.c:92-412 | without failures and wraps the events are complete periods of set-up and teardown, and an open one while in use |
| `GwenInit.RegularIff` | src/gwenhywfar.c:92-412 | without failures the events have that form iff the counter never wraps |
| `GwenInit.Library.SetUpAll` | src/gwenhywfar.c:97-291 | the chain of set-up calls stops at the first error, returns it, and leaves set up what came before |
| `GwenInit.Library.TearDownAll` | src/gwenhywfar.c:316-399 | the chain of teardown calls goes through to the end and returns the last error |
| `GwenInit.Library.InitLibrary` | src/gwenhywfar.c:92-299 | of an unused library: the modules before the first one, other than gnutls and the errors, that returns a code are set up, that code is returned and the counter stays 0; without one all are set up and the counter is 1; of a library in use: only the counter moves |
| `GwenInit.Library.FiniLibrary` | src/gwenhywfar.c:303-403 | the last use tears all modules down and returns the last code among those other than gnutls, the errors and the gui; any other use only counts down |
| `GwenInit.Library.FiniForcedLibrary` | src/gwenhywfar.c:407-412 | one call ends all uses and tears all modules down |
| `DialogLifecycle.Dialog.Extend` | gui/gtk3/gtk3_gui_dialog.c:75-88 | the four property functions are replaced and the old ones kept |
| `DialogLifecycle.Dialog.Unextend` | gui/gtk3/gtk3_gui_dialog.c:92-107 | all four are restored and the extension is gone |
| `DialogLifecycle.Dialog.Open` | gui/gtk3/gtk3_gui.c:96-130 | for every outcome of set-up and init handlers: the code returned, the events, no init signal after a failed set-up, and an extension only on success |
| `DialogLifecycle.Dialog.RunDialog` | gui/gtk3/gtk3_gui_dialog.c:317-370 | the response of the run, or of an earlier run if this one was not left; the removal of the extension when there is no window |
| `DialogLifecycle.Dialog.Close` | gui/gtk3/gtk3_gui.c:134-160 | the extension is removed for every result of the fini handlers |
| `DialogLifecycle.Dialog.Exec` | gui/gtk3/gtk3_gui.c:71-93 | for every scenario the dialog is left with its own functions and without an extension, and the effects are those of the calls it makes |
| `DialogLifecycle.LivesAreOrderly` | gui/gtk3/gtk3_gui.c:71-160 | over every legal series of Open, Run and Close and every outcome: the effects follow the order of a dialog's life, in which only runs repeat; each extension is taken off once; the branch for a missing window is never taken; the dialog is closed with its own functions or shown with those of GTK; and the response is the one last given since it was opened |
| `BinReloc.DirnameMeaning` | src/binreloc.c:756-778 | every path with a separator is a directory, separators and a last component, and its dirname is the directory or the root; other paths give "." |
| `BinReloc.DirnamesEnd` | src/binreloc.c:756-778 | repeated dirname reaches the root or "." within the length of the path plus one, and stays there |
| `BinReloc.BuildPathMeaning` | src/binreloc.c:700-719 | the directory, then the file, with one / between them iff the directory is not empty and does not end in one |
| `BinReloc.LookupsMean` | src/binreloc.c:387-466 | without an executable every lookup gives the default; with one, the directory one or two steps up, and bin below that |
| `BinReloc.DirnameOfBuild` | src/binreloc.c:700-719 | dirname undoes build_path on a directory without a separator at its end and on the root, and shortens any other |
| `BinReloc.PrefixFound` | src/binreloc.c:415-433 | the prefix of an executable at p/d/f is p iff p is the root or not empty and without a separator at its end |
| `BinReloc.BinDirIsExeDir` | src/binreloc.c:387-465 | for d = bin the bin directory found is the directory of the executable iff p is not empty and does not end in two separators |
| `BinReloc.StrCat` | src/binreloc.c:677-697 | a new buffer with both strings and the NUL |
| `BinReloc.StrNDup` | src/binreloc.c:722-742 | a copy of at most the given number of characters |
| `BinReloc.DirnameOf` | src/binreloc.c:756-778 | the backward loop computes dirname, and its branch for an empty result is never taken |
| `BinReloc.FindBinDirOf` | src/binreloc.c:448-466 | the bin directory below the prefix, or the default without an executable |

## Reading the model

- Strings are Dafny strings without their NUL; where the source writes NULs into a buffer the
  buffer is an array. Texts that are read from files hold no NUL. Only the C locale and the
  Unix path separator are modelled.
- Where a line is empty after its newline is removed, scanForMacros looks at the character in
  front of the buffer (admin/mklistdoc.c:388); the model takes it as "no continuation".
- The results about broken invocations are about one invocation at a time; other macros may be
  mentioned or defined before it, but do not occur behind it.
- The gradient is modelled for heights below 32768, where the C int arithmetic cannot overflow,
  and its bands are given relative to the rectangle.
- The layout engine of the HTML label is a function from widths to extents; the ratio is a real
  number, and a zero height is handled as the C division would.
- GetBelow is modelled for a tree with one root; the search for a radio button ends at the button itself at the latest.
- A run-time use of a null pointer in the dialog set-up is the state `Crashed`.

## Left out

- Gradient.Canvas.DrawRectangle: does not model heights of 32768 and more, because the C int arithmetic overflows there.
- MacroFile.BrokenInvocation: does not cover texts in which other macros are invoked, or named behind the invocation, before the buffer is cleared, because a known type leaves the buffer cut short there; for unknown types `MacroFile.SeveralInvocations` covers continued lines.
- CBuffer.InputFile.Gets: does not model read errors or files that hold NULs.
- Path registration in GWEN_Init and the initialisation of binreloc: I/O plumbing.
- The file loop of transformF, processFile and the command line of mklistdoc: one expansion per line, and I/O.
- Writing errors of the template output (EOF from fputc): only the failure on an empty replacement is modelled.
- `FOX16_Gui::getRawText`: its last step depends on a library call that is not part of this model.
- Gtk3Gui_Dialog_Leave and the GLib main loop: the response of a run is a parameter of the call.
- Handlers that change a dialog's property functions or extension themselves.
- Sort directions, list-box selection, and the property switches of all widgets: toolkit forwarding.
- Fonts, colours and the baseline shift of painted words: they are the same in both ways of painting.
- The GTK2 set-up of dialogs: the same recursion as GTK3.
- `/proc` parsing of binreloc and the lookups for other directories: I/O, or the same as the bin directory.
