# BambooTracker edit engine — a Dafny model

This project models the core of BambooTracker's edit engine, a tracker for
YM2608 (OPNA) music, and proves properties of that model.

**The song.** Tracks own arenas of patterns. Each order row names one pattern
per track. A pattern is a list of steps. A step has 11 columns:

- note;
- instrument;
- volume;
- four (effect id, effect value) pairs.

Cells are addressed in the arena as (track, pattern, step, column). So two
order rows that share a pattern also share its cells.

**Pattern range commands.** These all walk cells the same way: the column
advances by one modulo 11 and carries into the next track.

- *Shrink* takes a snapshot of a rectangle. Redo packs every other captured
  row upward and clears the rest of the block to the empty values. Undo
  writes the snapshot back.
- *Paste-overwrite* writes only the non-empty cells of the pasted block. It
  rolls into step 0 of the next order row when a pattern ends, and stops
  silently after the last order row.
- *Set-pattern-to-order* and *deep-clone-instrument* are modelled with their
  redo and undo. *Change-values* and *set-key-cut* are modelled through the
  state they capture. Change-values reads the block's previous numbers from
  the song when it is built.

**Order list panel.** The `ORDER_COPY:w,h,…` clipboard text, wrap-around
cursor movement, selection normalisation, the two-digit entry counter, and
the guard against deleting the last order.

**Instrument macro editor.** Sorted, disjoint loops `[begin, end] × times`
and a release point. The model covers:

- column removal;
- sorted insertion;
- edge dragging with neighbour clamps;
- loop-row and release-row clicks.

**WOPN loader.** Bit-field decoding of a WOPN (OPN2/OPNA bank) FM instrument
into envelope, LFO and arpeggio parameters.

**Main window.** Undo and redo step the core history and the GUI history
together. The history-clearing points clear both. The clone guards do nothing
when no instrument number is free. MIDI 1.0 channel messages are classified,
and a key event becomes jam key-off/key-on actions.

The modules follow the program's files:

- `steps`, `songs`, `grids`, `cell_walk` and `regions` hold the shared song
  model and walk;
- `wrappers`, `arith` and `bytes` are small helper modules;
- one module per command, plus `history`, `main_window`, `order_clipboard`,
  `order_list_panel`, `decimal`, `macro_editor` and `opni`.

Two points about the commands:

- Shrink's redo walks the captured rows with a stride of 2, so the block is
  halved: captured row 2k goes to step beginStep + k and the rows below the
  kept ones are emptied. `ShrinkPattern.ShrinkRedoKeepsEvenRows` and
  `ShrinkPattern.ShrinkRedoClearsTail` state exactly this.
- The body of `SetPatternToOrderCommand::mergeWith` is not part of this
  model. The model assumes two commands merge when they target the same
  order cell, the second is the second digit of a two-digit entry and the
  first is not.

## Model

| member | source | states |
|---|---|---|
| Steps.SetCell | BambooTracker/command/pattern/paste_overwrite_copied_data_to_pattern_command.cpp:80-91 | column c ≥ 3 writes effect slot (c-3)/2, the id when c-3 is even and the value when it is odd; every other column of the step is unchanged |
| Steps.EffectSlot | BambooTracker/command/pattern/paste_overwrite_copied_data_to_pattern_command.cpp:82-83 | each column from 3 to 10 belongs to one of the four effect slots, as its id or its value column |
| Steps.EmptyCell | BambooTracker/command/pattern/shrink_pattern_command.cpp:159-203 | the empty sentinel of each column is a value of that column's kind and is empty: -1 for numbers, "--" for an effect id |
| Steps.EmptyCellUnique | BambooTracker/command/pattern/shrink_pattern_command.cpp:159-203 | a value of a column's kind that is empty is that column's sentinel, so -1 and "--" are the only empty values |
| CellWalk.Walk | BambooTracker/command/pattern/shrink_pattern_command.cpp:87-89 | cell k of a walk is exactly k cells past the start in track-major order, with the column below 11 |
| CellWalk.WalkCell | BambooTracker/command/pattern/paste_overwrite_copied_data_to_pattern_command.cpp:95-96 | cell k of a walk from column c is in column (c+k) mod 11 of the track (c+k)/11 places on |
| CellWalk.WalkDistinct | BambooTracker/command/pattern/shrink_pattern_command.cpp:87-89 | a walk never visits the same (track, column) twice |
| CellWalk.ComputeBlockWidth | BambooTracker/command/pattern/shrink_pattern_command.cpp:19-32 | the width loop yields 11·(endTrack−beginTrack) + endColumn − beginColumn + 1, at least 1, and reaches the end cell exactly |
| CellWalk.WalkEndsAtBlockEnd | BambooTracker/command/pattern/shrink_pattern_command.cpp:20-33 | the last cell of a block's walk is the block's end cell |
| ShrinkPattern.NewShrink | BambooTracker/command/pattern/shrink_pattern_command.cpp:15-92 | the snapshot has endStep − beginStep + 1 rows of the block width, each cell read from the pattern at beginOrder along the walk |
| ShrinkPattern.KeptRowsExact | BambooTracker/command/pattern/shrink_pattern_command.cpp:100 | redo keeps row k exactly when captured row 2k exists |
| ShrinkPattern.ShrinkTouchesOnlyBlock | BambooTracker/command/pattern/shrink_pattern_command.cpp:106-107 | every cell redo or undo writes is in the pattern at the command's order, between beginStep and endStep |
| ShrinkPattern.ShrinkRedoFrame | BambooTracker/command/pattern/shrink_pattern_command.cpp:95-204 | redo leaves every cell outside the walked block unchanged |
| ShrinkPattern.RedoCell | BambooTracker/command/pattern/shrink_pattern_command.cpp:99-157 | after redo, cell j of block row k holds the compacted row's value |
| ShrinkPattern.ShrinkRedoKeepsEvenRows | BambooTracker/command/pattern/shrink_pattern_command.cpp:99-157 | redo writes captured row 2k into step beginStep + k, for every 2k below the height |
| ShrinkPattern.ShrinkRedoClearsTail | BambooTracker/command/pattern/shrink_pattern_command.cpp:159-203 | every walked cell from the first uncompacted step through endStep holds its column's empty value after redo |
| ShrinkPattern.ShrinkRedoIdempotent | BambooTracker/command/pattern/shrink_pattern_command.cpp:95-157 | redo reads only the snapshot, so redo twice equals redo once |
| ShrinkPattern.ShrinkUndoWritesSnapshot | BambooTracker/command/pattern/shrink_pattern_command.cpp:206-269 | undo puts captured row i back into step beginStep + i, whatever the song holds |
| ShrinkPattern.ShrinkUndoAfterRedo | BambooTracker/command/pattern/shrink_pattern_command.cpp:206-269 | undo right after redo of a freshly built command gives back the song exactly |
| PasteOverwrite.WalkRow | BambooTracker/command/pattern/paste_overwrite_copied_data_to_pattern_command.cpp:52-97 | one row's walk visits valid cells k places along the cell walk, and is shorter than the row only when the paste stops |
| PasteOverwrite.WalkBlock | BambooTracker/command/pattern/paste_overwrite_copied_data_to_pattern_command.cpp:50-100 | the block's walk has one full row per source row unless it stops, and then only its last row is cut short |
| PasteOverwrite.NewPaste | BambooTracker/command/pattern/paste_overwrite_copied_data_to_pattern_command.cpp:41-43 | the snapshot holds, row by row, the song's cells along the paste's own walk, taken before any write |
| PasteOverwrite.NewPasteSnapshot | BambooTracker/command/pattern/paste_overwrite_copied_data_to_pattern_command.cpp:41-43 | the flattened snapshot is the walk's cells read in visiting order |
| PasteOverwrite.PasteAllRead | BambooTracker/command/pattern/paste_overwrite_copied_data_to_pattern_command.cpp:64-91 | after the writes, each cell holds the last non-empty value written to it, or its old value |
| PasteOverwrite.LastPastedUntouched | BambooTracker/command/pattern/paste_overwrite_copied_data_to_pattern_command.cpp:64-91 | a cell that receives only empty values keeps its value |
| PasteOverwrite.LastPastedOverrides | BambooTracker/command/pattern/paste_overwrite_copied_data_to_pattern_command.cpp:64-91 | a cell that receives a non-empty value forgets what it held before |
| PasteOverwrite.PasteAllDistinct | BambooTracker/command/pattern/paste_overwrite_copied_data_to_pattern_command.cpp:64-91 | with distinct targets, cell i holds vs[i] unless vs[i] is empty, in which case it is unchanged |
| PasteOverwrite.PasteAllIdempotent | BambooTracker/command/pattern/paste_overwrite_copied_data_to_pattern_command.cpp:46-101 | writing the same values twice is writing them once |
| PasteOverwrite.PasteCellPosition | BambooTracker/command/pattern/paste_overwrite_copied_data_to_pattern_command.cpp:95-96 | cell j of each walked row is in column (column+j) mod 11 of track track + (column+j)/11 |
| PasteOverwrite.PasteRedoFrame | BambooTracker/command/pattern/paste_overwrite_copied_data_to_pattern_command.cpp:46-101 | redo changes no cell off the walk |
| PasteOverwrite.PasteRedoCell | BambooTracker/command/pattern/paste_overwrite_copied_data_to_pattern_command.cpp:60-91 | with distinct targets, each walked cell takes the block's value there unless that value is empty |
| PasteOverwrite.PasteRedoIdempotent | BambooTracker/command/pattern/paste_overwrite_copied_data_to_pattern_command.cpp:46-101 | pasting twice equals pasting once, even when shared patterns make the walk meet a cell twice |
| PasteOverwrite.PasteRollsOver | BambooTracker/command/pattern/paste_overwrite_copied_data_to_pattern_command.cpp:56-57 | when the step has passed the end of the current track's pattern and a later order row exists, the walk continues at step 0 of the next order row |
| PasteOverwrite.PasteStopsAtSongEnd | BambooTracker/command/pattern/paste_overwrite_copied_data_to_pattern_command.cpp:58 | past the end of the last order row's pattern the walk stops and visits no further cell |
| PasteOverwrite.PasteVisitCount | BambooTracker/command/pattern/paste_overwrite_copied_data_to_pattern_command.cpp:52-58 | a paste that does not stop visits exactly h·w cells, and one that stops visits fewer |
| PasteOverwrite.PasteInsideOneOrder | BambooTracker/command/pattern/paste_overwrite_copied_data_to_pattern_command.cpp:50-100 | when the block fits in the origin order row, the walk is exactly the rectangular region there |
| PasteOverwrite.PasteInsideOneOrderCell | BambooTracker/command/pattern/paste_overwrite_copied_data_to_pattern_command.cpp:60-91 | in that case, cell (i, j) of the region gets the block's value (i, j) unless it is empty |
| PasteOverwrite.PasteUndoAfterRedo | BambooTracker/command/pattern/paste_overwrite_copied_data_to_pattern_command.cpp:103-106 | undo after redo of a freshly built paste restores the song exactly |
| PasteOverwrite.UndoRestores | BambooTracker/command/pattern/paste_overwrite_copied_data_to_pattern_command.cpp:103-106 | undo restores any song whose walked cells match the snapshot, after redo |
| ChangeValues.NewChangeValues | BambooTracker/command/pattern/change_values_in_pattern_command.hpp:36-38 | a command built on a block of the song is well-formed: its previous-value grid has one row per step and one value per walked cell, each the number the song holds there |
| ChangeValues.NewSnapshotReadsBlock | BambooTracker/command/pattern/change_values_in_pattern_command.hpp:36-49 | previous value (i, j) belongs to step bStep + i, walked column j, of the pattern at the command's order; a number column keeps the cell's number |
| ChangeValues.CommandCoversOneOrder | BambooTracker/command/pattern/change_values_in_pattern_command.hpp:45-49 | every snapshot value belongs to a cell of the block in the pattern at the command's single order, and there is one per cell |
| ChangeValues.CommandRowEndsAtEnd | BambooTracker/command/pattern/change_values_in_pattern_command.hpp:45-46 | the last value of every snapshot row belongs to the block's end track and column |
| SetKeyCut.NewSetKeyCut | BambooTracker/command/pattern/set_key_cut_to_step_command.hpp:16-25 | the command targets one (song, track, order, step), and its note, instrument, volume and effect snapshot describe that step |
| SetKeyCut.SnapshotIsComplete | BambooTracker/command/pattern/set_key_cut_to_step_command.hpp:24-25 | two songs yield the same command exactly when their target steps agree, so no field of the step is missed |
| SetKeyCut.RestoreStepUndoes | BambooTracker/command/pattern/set_key_cut_to_step_command.hpp:18-25 | writing the snapshot back restores the original song after any change confined to that step |
| SetPatternToOrder.SetOrderCell | BambooTracker/command/order/set_pattern_to_order_command.hpp:43-44 | only the target order cell changes, and it takes the new pattern number |
| SetPatternToOrder.NewSetPatternToOrder | BambooTracker/command/order/set_pattern_to_order_command.hpp:35-46 | the previous pattern number is read from the target cell when the command is built; target, pattern and second-entry flag are kept |
| SetPatternToOrder.Redo | BambooTracker/command/order/set_pattern_to_order_command.hpp:37 | after redo the target cell holds the new pattern number; the patterns, the number of orders and every other order cell are unchanged |
| SetPatternToOrder.Undo | BambooTracker/command/order/set_pattern_to_order_command.hpp:38 | after undo the target cell holds the captured previous number; the patterns, the number of orders and every other order cell are unchanged |
| SetPatternToOrder.MergeWith | BambooTracker/command/order/set_pattern_to_order_command.hpp:39-46 | two commands merge exactly when they target the same cell and the second is the second digit and the first is not; the merged command keeps the first's previous number and takes the second's new one |
| SetPatternToOrder.UndoAfterRedo | BambooTracker/command/order/set_pattern_to_order_command.hpp:45 | undo after redo of a freshly built command restores the song |
| SetPatternToOrder.MergeLaw | BambooTracker/command/order/set_pattern_to_order_command.hpp:44-45 | after two digits merge, one undo goes back to the value before the first digit |
| SetPatternToOrder.MergedTakesNoMore | BambooTracker/command/order/set_pattern_to_order_command.hpp:46 | a merged command refuses a further merge |
| DeepCloneInstrument.Redo | BambooTracker/command/instrument/deep_clone_instrument_command.hpp:16 | redo succeeds exactly when the source slot is used and the target is free; the target then gets a copy and nothing else changes |
| DeepCloneInstrument.Undo | BambooTracker/command/instrument/deep_clone_instrument_command.hpp:17 | undo succeeds exactly when the cloned slot is used, and frees only that slot |
| DeepCloneInstrument.UndoAfterRedo | BambooTracker/command/instrument/deep_clone_instrument_command.hpp:16-21 | a successful clone is undone exactly, whatever the instruments hold |
| DeepCloneInstrument.RedoAfterUndo | BambooTracker/command/instrument/deep_clone_instrument_command.hpp:16-21 | redo after undo gives back the cloned table |
| History.Push | BambooTracker/gui/mainwindow.cpp:846-847 | a push clears the redo side; it replaces the last entry with the merge result when the merge rule accepts, and otherwise appends |
| History.Undo | BambooTracker/gui/mainwindow.cpp:1028-1032 | undo moves one command from done to undone, and does nothing when nothing is done |
| History.Redo | BambooTracker/gui/mainwindow.cpp:1034-1038 | redo moves one command back, and does nothing when nothing is undone |
| History.UndoRedoKeepTimeline | BambooTracker/gui/mainwindow.cpp:1028-1038 | undo and redo move through the timeline of commands without changing it |
| History.RedoAfterUndo | BambooTracker/gui/mainwindow.cpp:1028-1038 | redo right after undo gives back the history |
| History.UndoAfterRedo | BambooTracker/gui/mainwindow.cpp:1028-1038 | undo right after redo gives back the history |
| History.UndoAfterPush | BambooTracker/gui/mainwindow.cpp:846-847 | undoing an unmerged push leaves the old done list and only the pushed command to redo |
| History.UndoAfterMergingPush | BambooTracker/gui/mainwindow.cpp:846-847 | undoing a merged push takes off the merged entry as a whole |
| MainWindowHistory.UndoBoth | BambooTracker/gui/mainwindow.cpp:1028-1032 | undo acts on the core history and the GUI history together |
| MainWindowHistory.RedoBoth | BambooTracker/gui/mainwindow.cpp:1034-1038 | redo acts on both histories together |
| MainWindowHistory.ClearBoth | BambooTracker/gui/mainwindow.cpp:1117-1120 | after a module load both histories are empty |
| MainWindowHistory.NothingToUndoAfterClear | BambooTracker/gui/mainwindow.cpp:2283-2284 | after removing unused instruments, undo and redo have nothing to act on |
| MainWindowHistory.Clone | BambooTracker/gui/mainwindow.cpp:838-849 | with no free number nothing changes; otherwise the clone and its GUI partner go on top of their histories and redo is lost |
| MainWindowHistory.DeepCloneBoth | BambooTracker/gui/mainwindow.cpp:851-862 | the same guard and pair of pushes, for deep clones |
| MainWindowHistory.OperationsKeepInStep | BambooTracker/gui/mainwindow.cpp:1028-1038 | undo, redo, clone, deep clone and clear keep the two histories at the same point |
| MainWindowHistory.UndoClone | BambooTracker/gui/mainwindow.cpp:838-849 | undoing a clone right after it takes both clone commands off together |
| MainWindowHistory.RedoBothAfterUndoBoth | BambooTracker/gui/mainwindow.cpp:1028-1038 | with both histories in step, redo after undo gives back both |
| MidiInput.Classify | BambooTracker/gui/mainwindow.cpp:726-741 | a 3-byte message with status 80–9F is a key event, a 2-byte message with status C0–CF is a program event, anything else is ignored |
| MidiInput.NoteOffRange | BambooTracker/gui/mainwindow.cpp:746 | the note-off test on the high nibble holds exactly for statuses 80–8F |
| MidiInput.KeyEventResponse | BambooTracker/gui/mainwindow.cpp:744-752 | key-off of key−12 always comes first; key-on follows exactly when the status is not note-off and the velocity is non-zero; the octave is (key−12)/12 rounded toward zero |
| MidiInput.TruncDiv | BambooTracker/gui/mainwindow.cpp:749 | division rounds toward zero for negative dividends, as C++ int division does |
| MidiInput.HandleMessage | BambooTracker/gui/mainwindow.cpp:719-752 | only key events produce jam actions, and they produce their key response |
| MidiInput.ZeroVelocityIsRelease | BambooTracker/gui/mainwindow.cpp:746 | a note-on of velocity 0 acts exactly like a note-off of the same key on the same channel |
| MidiInput.NoteOnSounds | BambooTracker/gui/mainwindow.cpp:747-751 | a note-on of non-zero velocity stops and restarts the key an octave lower |
| MidiInput.OnlyKeyEventsSound | BambooTracker/gui/mainwindow.cpp:735-741 | a program change or any other message sends no jam action |
| Opni.DecodeOperator | BambooTracker/io/opni_io.cpp:67-78 | ML, DT, TL, KS, AR, DR, SR, RR and SL land in their register ranges, and SSG-EG is -1 or 0..7 |
| Opni.DecodeOperatorMasks | BambooTracker/io/opni_io.cpp:67-78 | each field is the mask and shift of its register byte, and SSG-EG is the low three bits when bit 3 is set, else -1 |
| Opni.AmBitMask | BambooTracker/io/opni_io.cpp:79 | the AM switch is bit 7 of the first decay byte |
| Opni.OperatorOrderInvolution | BambooTracker/io/opni_io.cpp:59-64 | the operator order 0, 2, 1, 3 is its own inverse |
| Opni.LoadWopnInstrument | BambooTracker/io/opni_io.cpp:45-111 | the load fails exactly when a needed envelope, LFO or arpeggio slot is missing; operators come in order 0, 2, 1, 3; the LFO is there exactly when lfosens ≠ 0, and the arpeggio exactly when the note offset ≠ 0, with value offset + 48 |
| Opni.LoadMasks | BambooTracker/io/opni_io.cpp:56-57 | AL is fbalg & 7, FB is (fbalg >> 3) & 7, PMS is lfosens & 7 and AMS is (lfosens >> 4) & 3 |
| Opni.DecodeEncodeOperator | BambooTracker/io/opni_io.cpp:67-79 | decoding inverts packing for every in-range operator and AM switch |
| Opni.DecodeIgnoresUnusedBits | BambooTracker/io/opni_io.cpp:67-78 | bytes that agree on the masked bits decode alike |
| Opni.EncodeInstrument | BambooTracker/io/opni_io.cpp:56-64 | the packed record has fbalg = FB·8 + AL and puts operator n at WOPN index 0, 2, 1, 3 |
| Opni.LoadEncodedInstrument | BambooTracker/io/opni_io.cpp:45-111 | loading a packed instrument with free slots succeeds and gives back its operators, AL and FB, the LFO iff lfosens ≠ 0 with its AM switches, and the arpeggio iff the note offset ≠ 0 |
| Decimal.ValueOfShow | BambooTracker/gui/order_list_editor/order_list_panel.cpp:999 | reading back a written number gives the number |
| Decimal.ToUInt | BambooTracker/gui/order_list_editor/order_list_panel.cpp:1017-1018 | a digit string reads as its value when it fits in 32 bits, and as 0 otherwise |
| Decimal.ToInt | BambooTracker/gui/order_list_editor/order_list_panel.cpp:1033-1034 | a field reads only when it is an optional sign and digits whose value fits in a signed 32-bit int |
| Decimal.ToIntShowInt | BambooTracker/gui/order_list_editor/order_list_panel.cpp:999 | every 32-bit integer survives writing and reading back |
| Decimal.ToUIntShow | BambooTracker/gui/order_list_editor/order_list_panel.cpp:994-995 | every size below 2^32 survives writing and reading back as unsigned |
| OrderClipboard.SplitJoin | BambooTracker/gui/order_list_editor/order_list_panel.cpp:1021 | cutting comma-joined, comma-free fields at the commas gives the fields back |
| OrderClipboard.MatchCommand | BambooTracker/gui/order_list_editor/order_list_panel.cpp:1011-1015 | a match captures two digit groups and non-empty line-free data, and the text is exactly header, groups and data, with at most one final line break |
| OrderClipboard.MatchBuilt | BambooTracker/gui/order_list_editor/order_list_panel.cpp:1011-1015 | a text built from two digit groups and line-free data matches with exactly those groups |
| OrderClipboard.ParseFields | BambooTracker/gui/order_list_editor/order_list_panel.cpp:1017-1036 | a zero size, a field count other than w·h or any empty field, and a non-integer field each fail, and only they do; success gives cells[i][j] = field i·w + j |
| OrderClipboard.Parse | BambooTracker/gui/order_list_editor/order_list_panel.cpp:1009-1036 | a text that does not match fails with no match; a matching text gets the field checks on its sizes and data |
| OrderClipboard.ParseSerialize | BambooTracker/gui/order_list_editor/order_list_panel.cpp:994-1036 | parsing the copy of a w×h grid of 32-bit numbers gives the grid back |
| OrderListPanel.SetSelectedRectangle | BambooTracker/gui/order_list_editor/order_list_panel.cpp:1069-1090 | the left-above corner takes the smaller track and row, the right-below corner the larger |
| OrderListPanel.SelectionIsSpannedBox | BambooTracker/gui/order_list_editor/order_list_panel.cpp:1098-1102 | a cell is selected exactly when it lies between the two dragged corners in both coordinates, borders included |
| OrderListPanel.SelectionSymmetric | BambooTracker/gui/order_list_editor/order_list_panel.cpp:1069-1090 | dragging either way gives the same selection, and both corners are selected |
| OrderListPanel.MoveCursorToDown | BambooTracker/gui/order_list_editor/order_list_panel.cpp:786-815 | the cursor moves to (row + n) mod orderSize, stays in [0, orderSize), and the entry counter resets |
| OrderListPanel.SetCellOrderNum | BambooTracker/gui/order_list_editor/order_list_panel.cpp:961-968 | the second-entry flag is set exactly on the second digit, the counter alternates, and the cursor moves down only after the second digit unless playback follows the song |
| OrderListPanel.TwoDigitsMerge | BambooTracker/gui/order_list_editor/order_list_panel.cpp:961-966 | two digits typed in a row give commands that merge, and a third digit starts a new one |
| OrderListPanel.DeleteOrder | BambooTracker/gui/order_list_editor/order_list_panel.cpp:978-984 | deletion removes one order only when more than one exists |
| OrderListPanel.DeletionsKeepAnOrder | BambooTracker/gui/order_list_editor/order_list_panel.cpp:978-984 | any run of deletions leaves max(size − n, 1) orders, never none |
| OrderListPanel.SelectedGrid | BambooTracker/gui/order_list_editor/order_list_panel.cpp:990-1002 | the copied grid spans the real tracks from the left corner's to the right corner's, hidden ones included, and the selected rows |
| OrderListPanel.CopySelectedCells | BambooTracker/gui/order_list_editor/order_list_panel.cpp:986-1005 | a copy happens exactly when there is a selection |
| OrderListPanel.PasteCopiedCells | BambooTracker/gui/order_list_editor/order_list_panel.cpp:1007-1047 | a paste is recorded exactly when the text parses and the core accepts the grid, and then with the parsed grid |
| OrderListPanel.CopyThenPaste | BambooTracker/gui/order_list_editor/order_list_panel.cpp:986-1042 | pasting what was copied hands the core exactly the selected grid |
| MacroEditor.CheckLoopRegion | BambooTracker/gui/instrument_editor/visualized_instrument_macro_editor.cpp:391-407 | the result is a loop covering the column or -1; over loops sorted by begin, -1 exactly when no loop covers it |
| MacroEditor.AddLoop | BambooTracker/gui/instrument_editor/visualized_instrument_macro_editor.cpp:189-203 | the loop goes in after every loop beginning at or before it and before the first that begins later, so sorting by begin is kept |
| MacroEditor.TrimLoops | BambooTracker/gui/instrument_editor/visualized_instrument_macro_editor.cpp:166-175 | the result holds each loop beginning inside the new size, cut to end at the last column, and nothing else |
| MacroEditor.TrimLoopsLength | BambooTracker/gui/instrument_editor/visualized_instrument_macro_editor.cpp:166-175 | no loop is dropped exactly when every loop begins inside the new size |
| MacroEditor.TrimLoopsDisjoint | BambooTracker/gui/instrument_editor/visualized_instrument_macro_editor.cpp:166-175 | trimming keeps the loops in order and disjoint |
| MacroEditor.RemoveSequenceCommand | BambooTracker/gui/instrument_editor/visualized_instrument_macro_editor.cpp:159-179 | a lone column is never removed; otherwise the last column goes, the loops are cut back to the columns that remain, and a release point at or past the new size is cleared |
| MacroEditor.RemoveKeepsWellFormed | BambooTracker/gui/instrument_editor/visualized_instrument_macro_editor.cpp:159-179 | after removal at least one column remains and loops and release still lie inside the sequence, sorted and disjoint |
| MacroEditor.PressLoopRow | BambooTracker/gui/instrument_editor/visualized_instrument_macro_editor.cpp:574-605 | a left click off every loop inserts a one-column loop after the loops beginning at or before it, keeping all the others in order; a left click on a loop raises its count; a right click on a loop lowers its count, or erases it at count 1 |
| MacroEditor.PressLoopRowWellFormed | BambooTracker/gui/instrument_editor/visualized_instrument_macro_editor.cpp:574-605 | the loops `PressLoopRow` returns for a click inside the sequence stay sorted, disjoint, inside the sequence and repeated at least once |
| MacroEditor.MoveLoop | BambooTracker/gui/instrument_editor/visualized_instrument_macro_editor.cpp:409-449 | only the grabbed loop changes; a head dragged left begins at the larger of the column and the previous loop's end + 1, and a tail dragged right ends at the smaller of the column and the next loop's begin − 1; an edge dragged inside the loop moves to the column; an edge dragged past the opposite edge erases the loop; a column of -1 or the edge's own column changes nothing |
| MacroEditor.EraseKeepsWellFormed | BambooTracker/gui/instrument_editor/visualized_instrument_macro_editor.cpp:424 | erasing one loop keeps the rest well-formed |
| MacroEditor.ReplaceKeepsWellFormed | BambooTracker/gui/instrument_editor/visualized_instrument_macro_editor.cpp:413-447 | a loop moved between its neighbours keeps the list well-formed |
| MacroEditor.MoveLoopKeepsWellFormed | BambooTracker/gui/instrument_editor/visualized_instrument_macro_editor.cpp:409-449 | dragging an edge to any column of the sequence keeps the loops well-formed |
| MacroEditor.NextReleaseType | BambooTracker/gui/instrument_editor/visualized_instrument_macro_editor.cpp:618-631 | the next type is never "no release" and always differs from the current one |
| MacroEditor.ReleaseTypesCycle | BambooTracker/gui/instrument_editor/visualized_instrument_macro_editor.cpp:618-631 | in multi-release mode the type goes fixed → absolute → relative → fixed, coming back after three clicks, and "no release" becomes fixed |
| MacroEditor.PressReleaseRow | BambooTracker/gui/instrument_editor/visualized_instrument_macro_editor.cpp:607-646 | a left click before the release or with none places it there, turning "no release" into fixed; later it cycles the type in multi-release mode; a right click at or after it erases it |
| MacroEditor.ReleaseClickKeepsWellFormed | BambooTracker/gui/instrument_editor/visualized_instrument_macro_editor.cpp:607-646 | release-row clicks keep the release point inside the sequence or none |

## Left out

- Painting, layout and hover tracking in the order list panel and the macro editor, and their floating-point column widths: presentation only.
- `midi.cpp`: RtMidi port plumbing and a mutex-guarded handler list; it is concurrency and a foreign library.
- The queued Qt signal between the MIDI thread and the GUI thread: a key event is modelled as handled at once.
- `midiProgramEvent`: a lookup in the instrument list widget, which is not part of this model.
- The file history (QSettings persistence), the Qt-side clone command wrapper, `effect_iterator.hpp`, `instrument_editor_utils.hpp` and `pattern_editor_panel.hpp`: persistence, widgets, or declarations without bodies.
- The bodies of `command_utils::getPreviousCells`, `restorePattern` and `getStep`: they are not part of this model. Paste's snapshot and undo use the paste's own walk.
- The redo and undo bodies of the change-values and set-key-cut commands are not part of this model. Only their captured state is modelled, plus the restore a snapshot allows.
- `SetPatternToOrder.MergeWith`: the body of `mergeWith` is not part of this model. The model assumes two commands merge when they target the same cell, the second is the second digit and the first is not.
- `DeepCloneInstrument.Redo`: InstrumentsManager is not part of this model. Instruments are whole values in numbered slots, so the separate copying of envelope, LFO and sequence properties is not modelled. The success rule (the source slot is used and the target slot is free) is assumed, since `redo`'s body is not part of this model.
- `DeepCloneInstrument.Undo`: the body of `undo` is not part of this model. Its success rule (the cloned slot is used, and only it is freed) is assumed.
- `ChangeValues.NewChangeValues`: the constructor's body is not part of this model. The model assumes it reads each cell of the block along the walk, keeping a number column's value and the empty number -1 for an effect-id column, whose value is text.
- `PasteOverwrite.ValidOrigin`: the pasted block is assumed to fit the track list, so a row never walks past the last track's last column. In the source, a wider block would call `getTrack` past the last track, so the command's caller must trim the block first.
- `PasteOverwrite.PasteArgs`: the pasted block is assumed rectangular, every row as long as the first. Redo walks each row for its own length, while the snapshot is taken `cells.front().size()` wide. So for a ragged block, the snapshot would not cover the cells that redo writes.
- `History.Push`, `History.Undo` and `History.Redo`: the core's command manager and Qt's `QUndoStack` are not part of this model. The cited call sites in `mainwindow.cpp` only push and step them. The push-with-merge, undo and redo behaviour of these History members is the standard undo-stack semantics, and the model assumes it.
- `findFirstFreeInstrumentNumber`, `setOrderPatternDigit`, `pasteOrderCells` and `findFirstAssignable*` are inside the core's managers. Their answers are parameters: the free number, the core's accept/refuse of a paste, and the free slots.
- `Opni.LoadWopnInstrument`: a failure is returned as a value. The parameters the manager had already been given before a later slot lookup threw are not modelled, and neither is the name's C-string conversion.
- Snapshot cells are typed values, not `std::to_string`/`std::stoi` strings, so no parse failure can happen on undo or redo.
- `Decimal.ToInt`: Qt's `toInt` also accepts surrounding whitespace. The model reads a strict optional sign and digits, which is all that a copy produces.
- `OrderClipboard.MatchCommand`: only a line feed ends the text before `$`. Other line-break conventions of the regular expression engine are not modelled.
- `OrderListPanel.MoveCursorToDown`: `int` overflow of `row + n` is not modelled; integers are unbounded.
- `MidiInput.KeyEventResponse`: the octave spin box clamps the octave to its range. The model reports the unclamped octave.
- `insertOrderBelow`, `clonePatterns` and the other panel actions not listed above: they are outside the modelled logic.
- The drag handling of the release marker (`isGrabRelease_`) and the macro editor's column-value editing: outside the modelled loop and release logic.
- Export to WAV, VGM and S98, dialogs, audio, timers and playback: I/O.
