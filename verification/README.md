# Firmware and boot-image models

A Dafny model of the parts of this firmware that carry a correctness argument of their own, with proofs
of the arguments. Hardware is an arbitrary oracle (a register history, a card that answers anything) or
a small abstract device; everything the original updates in place is a class or an array here, proved
against specification functions, and the properties are lemmas about those functions.

`dafny verify dfyconfig.toml` checks everything.

## What is modelled

| file | what it models |
|---|---|
| `Bits`, `Bytes` | C and Python bit operators as arithmetic; byte strings and `struct` formats |
| `Utf8`, `Decimals` | text: UTF-8 with the strict decoder, NUL-terminated fields, decimal digits of all scripts |
| `ClockTree` | recursive reference-counted enable and disable with rollback, on a heap of clock objects |
| `PhaseSelect`, `Tuning` | the longest passing window on a ring of phases; the retry sweep that feeds it |
| `TetrisGrid`, `TetrisRules`, `TetrisLaws`, `TetrisBoard` | line removal as a filter; the game and its invariant; what every key does in plain terms; the board that is updated in place |
| `Adma`, `Answers`, `BlockIo` | ADMA2 descriptor tables (SD Host Controller Simplified Specification 3.00, section 1.13); what a data command and its stop command return for every register history; a block request as one plain copy |
| `CmdComplete`, `Patience` | polling of status registers that may or may not keep their errors; how long it waits, read by read |
| `Paging`, `OsVersion`, `BootHeader`, `BootImage`, `BootRepack` | boot images, header versions 0 to 4: layout, printing, parsing, repacking |
| `Format`, `BootBytes`, `VendorBytes`, `UnpackedBytes`, `VersionTexts` | the same formats and texts in plain terms, with the offsets written out: every byte that is written, every byte that is read, and exactly what is refused |
| `Argparse` | which texts argparse takes as the value of the option before them |
| `VendorTable`, `VendorBoot`, `VendorRepack` | vendor boot images, versions 3 and 4, with the fragment table |
| `MkBootImg`, `MkVendorBoot`, `UnpackBootImg` | the two tools as they run: file cursors, the table builder, the loops |
| `Pwm` | the search for PWM settings with its early break, and the duty value |
| `Bam` | the DMA descriptor ring and its event register |
| `BankSwitch` | the two-bank frequency switch, write by write |
| `BitFields`, `Csd` | shifted 136-bit responses, `UNPACK_BITS`, CID and CSD against the standards, capacity and group size, the byte-swapped SD status |
| `KeyTiming`, `KeyQueue` | press, long press and repeat; the drop-oldest queue and its reader |
| `ClockDivider` | the SD clock divider |

The number of phases of a ring, the size of the Tetris board, the number of FIFO and queue slots, the
page size and the number of words of a register are parameters wherever the code does not fix them by a
shift or a mask.

## Where the code does not do what its users might expect

Each of these is proved below; the code is modelled as it is.

- A boot image of version 1 or 2 with an empty (not missing) recovery DTBO does not survive repacking:
  its offset field becomes 0 (`EmptyDtboIsLost`). Neither does a text that looks like an option, such as
  a command line `-v`: the formatter passes it as an argument of its own, which argparse refuses
  (`DashedCmdlineIsLost`, `DashedTextsAreLost`). `RepackIsIdentity` and `VendorRepackIsIdentity` are
  if-and-only-if statements with these conditions.
- A command line of versions 0 to 2 whose encoding has a character across bytes 510 and 511 is packed, and the
  image cannot be unpacked (`CutCharacterIsLost`).
- A vendor ramdisk fragment with a slash in its name is packed, and the image cannot be unpacked
  (`SlashedNameIsLost`).
- An image whose header version is above 4 is unpacked as if it were 4, and the arguments shown for it are refused
  (`UnpackedBytesAre`, `MakesImageIff`).
- Of an eMMC device the manufacturing month and year are exchanged, the year of devices with an extended CSD
  revision above 4 is counted from 1997 where it should be 2013, and the OEM identifier is read 16 bits
  wide (`CidIsRightIff`, `LaterYearsAreWrong`, `MarchIsDecodedAsJanuary`, `YearsAreDecodedTooEarly`).
- The transfer rate of an SD card is looked up in the eMMC table, so cards of 25 Mbit/s count as cards of
  26 Mbit/s (`CsdIsRightIff`, `DefaultSpeedIsWrong`).
- The write-protect group size of an SD card depends on uninitialised memory (`GroupSizeIsTheCards`).
- An empty block request at block 0 is refused, at any other block it succeeds (`AcceptedRequests`).
- A data command that did not move its data returns 0 when the stop command after it, or the response before
  its transfer, looks good (`ZeroAfterFailureIff`, `StopHidesFailure`, `ResponseHidesFailure`), so a block
  request can succeed without its data (`Blocks` says exactly when).
- A status register that forgets an error makes a command succeed that never completed
  (`FalseSuccessIff`, `ForgottenErrorReportsSuccess`); with sticky errors the return value is exact.
- When the delay line refuses the chosen phase, tuning reports success without saving one
  (`BadPhaseStaysIff`, `RefusedChoiceStillSucceeds`).
- The PWM period wraps from 274.877952 s on, although 384 s are accepted (`WrapsIff`).
- The PWM duty count can be one too many where the period is divided first (`CoarseIsOneMoreIff`,
  `OneTooManyHappens`).
- A FIFO of 16384 descriptors passes the size check but announces wrong events for half its slots
  (`SyncedEventIsRightIff`); a second request without an offset update is announced wrongly
  (`StaleEvent`); invalid flags drop the last descriptor and an uninitialised pipe all of them, without
  an error (`MissingDescriptorsAreCounted`).
- The in-place reversal of the SD status leaves its lower half unreversed (`ReverseStatus`); the two
  fields that are read lie in the upper half.
- An eMMC sector count of 2^31 or more is sign-extended (`SecCountIsExactIff`).

## Model

| member | source | states |
|---|---|---|
| `ClockTree.DisableUndoesEnable` | MSM8974Pkg/Drivers/ClockDxe/clock.c:66-110 | disable after enable is the identity on every count of the tree |
| `ClockTree.EnableUndoesDisable` | MSM8974Pkg/Drivers/ClockDxe/clock.c:66-110 | enable after disable is the identity when every used clock has a used parent |
| `ClockTree.EnableKeepsBalance` | MSM8974Pkg/Drivers/ClockDxe/clock_p.h:32-44 | count = outside users + children in use survives an enable, with one more user of that clock |
| `ClockTree.DisableKeepsBalance` | MSM8974Pkg/Drivers/ClockDxe/clock_p.h:32-44 | the same invariant survives a disable by a user, with one user fewer |
| `ClockTree.RunsStayBalanced` | MSM8974Pkg/Drivers/ClockDxe/clock_p.h:32-44 | over every run of enables (each may fail) and disables by users, the invariant holds and the users are the successful enables less the disables |
| `ClockTree.InUseIffWanted` | MSM8974Pkg/Drivers/ClockDxe/clock.c:66-110 | a clock is in use exactly when it or a clock below it has an outside user |
| `ClockTree.HwEnable` | MSM8974Pkg/Drivers/ClockDxe/clock.c:80-81 | one hardware switch-on, possible only under a running parent; a refused one changes nothing |
| `ClockTree.HwDisable` | MSM8974Pkg/Drivers/ClockDxe/clock.c:102-103 | one hardware switch-off, possible only when no child runs; so at every hardware step a running clock has a running parent |
| `ClockTree.ClkEnable` | MSM8974Pkg/Drivers/ClockDxe/clock.c:66-90 | the heap counts become EnableSpec on success and are exactly restored on a failure at any depth; it fails only with the answer of a switch-on that the hardware refused in this call, never for a clock in use, and the hardware is asked for exactly the clocks on the way up that are off, the topmost first, and after a refusal switched off again in the opposite order |
| `ClockTree.FirstEnable` | MSM8974Pkg/Drivers/ClockDxe/clock.c:74-86 | the rollback of the parent when the hardware refuses restores every count |
| `ClockTree.ClkDisable` | MSM8974Pkg/Drivers/ClockDxe/clock.c:92-110 | the heap counts become DisableSpec; what runs is what is counted; running clocks have running parents throughout |
| `ClockTree.LastDisable` | MSM8974Pkg/Drivers/ClockDxe/clock.c:101-106 | the last user switches off the clock before its parent is released |
| `ClockTree.ReleaseIsSafe` | MSM8974Pkg/Drivers/ClockDxe/clock.c:101-106 | when a user holds the last reference of a clock, none of its children is in use |
| `ClockTree.RollbackIsSafe` | MSM8974Pkg/Drivers/ClockDxe/clock.c:82-84 | the rollback never switches off a parent that a child still uses, and undoes exactly what was taken |
| `ClockTree.Rollback` | MSM8974Pkg/Drivers/ClockDxe/clock.c:82-84 | after a refusal the counts are restored, and what was switched on for the parent is switched off in the opposite order |
| `ClockTree.ChainUndoesPath` | MSM8974Pkg/Drivers/ClockDxe/clock.c:66-110 | the switches of a disable are those of the enable before it, backwards |
| `ClockTree.ServeOne` | MSM8974Pkg/Drivers/ClockDxe/clock.c:66-110 | one request: granted when the hardware refuses nothing, and everything stays in step in any case |
| `ClockTree.UserEnable` | MSM8974Pkg/Drivers/ClockDxe/clock.c:66-90 | from any settled tree a user may enable any clock: counts, users and hardware stay in step, whether it succeeds or not |
| `ClockTree.UserDisable` | MSM8974Pkg/Drivers/ClockDxe/clock.c:92-110 | a user who holds a reference may release it: no hardware step needs more than being settled gives |
| `ClockTree.Serve` | MSM8974Pkg/Drivers/ClockDxe/clock.c:66-110 | any sequence of requests, executed on the heap against hardware that may refuse anything, keeps counts, users and hardware in step and running clocks under running parents; the calls made are a run; and when no switch-on was refused every wish was granted |
| `PhaseSelect.FindAppropriatePhase` | MSM8974Pkg/Drivers/SdhciMMCHSDxe/sdhci_msm.c:459-552 | for every nonempty increasing table on a ring of n phases the result is the chosen phase: in the table, and well chosen on the ring |
| `PhaseSelect.ChosenPhaseIsWellChosen` | MSM8974Pkg/Drivers/SdhciMMCHSDxe/sdhci_msm.c:504-551 | the element at max(0, floor(3L/4) - 1) of the first longest row is that element of the longest cyclic run of passing phases that starts first |
| `PhaseSelect.WellChosenIsUnique` | MSM8974Pkg/Drivers/SdhciMMCHSDxe/sdhci_msm.c:504-551 | being well chosen leaves no choice, even among several longest windows |
| `PhaseSelect.LongestRowIsLongestRun` | MSM8974Pkg/Drivers/SdhciMMCHSDxe/sdhci_msm.c:504-543 | the longest row after the merge is a maximal cyclic run, and no cyclic run of passing phases is longer |
| `PhaseSelect.LongestRowIsRun` | MSM8974Pkg/Drivers/SdhciMMCHSDxe/sdhci_msm.c:536-543 | the longest row is a cyclic run, phase by phase around the ring |
| `PhaseSelect.RowsSeparate` | MSM8974Pkg/Drivers/SdhciMMCHSDxe/sdhci_msm.c:479-502 | consecutive rows are separated by a phase that did not pass |
| `PhaseSelect.RowsCover` | MSM8974Pkg/Drivers/SdhciMMCHSDxe/sdhci_msm.c:479-502 | rows hold consecutive phases and cover the table |
| `PhaseSelect.SplitRows` | MSM8974Pkg/Drivers/SdhciMMCHSDxe/sdhci_msm.c:479-502 | the loop lays the rows out in the two-dimensional array without leaving it |
| `PhaseSelect.StorePhase` | MSM8974Pkg/Drivers/SdhciMMCHSDxe/sdhci_msm.c:488-490 | one phase goes into the next cell of the current row or opens a row |
| `PhaseSelect.MergeEnds` | MSM8974Pkg/Drivers/SdhciMMCHSDxe/sdhci_msm.c:504-534 | the first row is appended behind the last one and emptied, inside the array |
| `PhaseSelect.LongestRow` | MSM8974Pkg/Drivers/SdhciMMCHSDxe/sdhci_msm.c:536-543 | the first row of greatest length is picked |
| `Tuning.Sweep` | MSM8974Pkg/Drivers/SdhciMMCHSDxe/sdhci_msm.c:753-808 | the list is exactly the passing phases of this sweep, in order; the sweep fails when the delay line does not take a phase |
| `Tuning.PassedIsPassingSet` | MSM8974Pkg/Drivers/SdhciMMCHSDxe/sdhci_msm.c:804-807 | the list is strictly increasing and holds a phase exactly when its block was read right |
| `Tuning.NextDrv` | MSM8974Pkg/Drivers/SdhciMMCHSDxe/sdhci_msm.c:815-823 | the next driver type tried is the least one above that the card accepts |
| `Tuning.EarlierSweepsPassedEverywhere` | MSM8974Pkg/Drivers/SdhciMMCHSDxe/sdhci_msm.c:812-824 | a sweep is only repeated when all its phases passed |
| `Tuning.RetriesGoOn` | MSM8974Pkg/Drivers/SdhciMMCHSDxe/sdhci_msm.c:811-824 | after a settled sweep some phase did not pass or no driver type above the current one is accepted, and the sweep number is the number of accepted types; tuning fails exactly when the delay line did not take a phase of the sweep that was reached |
| `Tuning.RetryStep` | MSM8974Pkg/Drivers/SdhciMMCHSDxe/sdhci_msm.c:753-824 | one sweep, and what decides about the next |
| `Tuning.FullSweep` | MSM8974Pkg/Drivers/SdhciMMCHSDxe/sdhci_msm.c:812-813 | the list is full exactly when every phase was read right |
| `Tuning.ThirdSweepHappens` | MSM8974Pkg/Drivers/SdhciMMCHSDxe/sdhci_msm.c:811-824 | a card that takes all driver types and passes everywhere twice is swept a third time |
| `Tuning.RetryTuning` | MSM8974Pkg/Drivers/SdhciMMCHSDxe/sdhci_msm.c:753-824 | the goto loop ends after one to four sweeps with the list of the last one; it stops early only when a phase did not pass or no further driver type is accepted, and the number of sweeps counts the accepted types |
| `Tuning.ExecuteTuning` | MSM8974Pkg/Drivers/SdhciMMCHSDxe/sdhci_msm.c:702-899 | at most four sweeps, and no fewer than the card allows; exact return value for every outcome; after success the saved phase is the choice of the last sweep when the delay line takes it, and what it was before when not |
| `Tuning.BadPhaseStaysIff` | MSM8974Pkg/Drivers/SdhciMMCHSDxe/sdhci_msm.c:857-863 | after success the saved phase failed the last sweep exactly when the delay line refuses the choice and the old phase failed it; it is the choice exactly when the choice is taken or was saved already |
| `Tuning.RefusedChoiceStillSucceeds` | MSM8974Pkg/Drivers/SdhciMMCHSDxe/sdhci_msm.c:857-863 | a card and a delay line for which tuning succeeds and a phase that was read wrong stays saved |
| `Tuning.SavePhase` | MSM8974Pkg/Drivers/SdhciMMCHSDxe/sdhci_msm.c:838-863 | the choice is saved exactly when the delay line takes it |
| `TetrisRules.EveryGameIsGood` | MSM8974Pkg/Application/TetrisApp/Board.c:30-101 | over every sequence of moves, rotations, steps down and drops: active cells in bounds, distinct and disjoint from settled cells, hidden rows without settled cells, no settled line full, settled cells = 4 x pieces placed - width x lines until the game is over |
| `TetrisRules.NewGameIsGood` | MSM8974Pkg/Application/TetrisApp/Board.c:105-128 | the constructor establishes that invariant for any two random draws |
| `TetrisRules.PressKeeps` | MSM8974Pkg/Application/TetrisApp/Board.c:30-101 | every single key keeps it |
| `TetrisRules.NewPieceIsFree` | MSM8974Pkg/Application/TetrisApp/Board.c:294-303 | a newly loaded piece never collides |
| `TetrisRules.PlaceKeeps` | MSM8974Pkg/Application/TetrisApp/Board.c:229-237 | placing a piece, with game over or with line removal, keeps it |
| `TetrisRules.LandingKeeps` | MSM8974Pkg/Application/TetrisApp/Board.c:229-237 | a landed piece adds exactly four settled cells and leaves the hidden rows empty |
| `TetrisRules.AtMostFourLines` | MSM8974Pkg/Application/TetrisApp/Board.c:286-289 | one piece completes at most four lines, which bounds the score shift |
| `TetrisRules.UntouchedRowStays` | MSM8974Pkg/Application/TetrisApp/Board.c:258-266 | only rows the piece reaches can become full |
| `TetrisRules.FallIsMaximal` | MSM8974Pkg/Application/TetrisApp/Board.c:94-98 | a dropped piece falls through free cells and as far as it can |
| `TetrisRules.DropIsRepeatedDown` | MSM8974Pkg/Application/TetrisApp/Board.c:94-101 | a drop equals repeated steps down plus two points a row |
| `TetrisRules.BodyFacts` | MSM8974Pkg/Application/TetrisApp/Piece.h:13-43 | each of the 28 bodies has four distinct cells in a 4 x 4 box; the start rotations use two rows |
| `TetrisLaws.PiecesLookLikeThis` | MSM8974Pkg/Application/TetrisApp/Piece.h:13-43 | the start rotations of the seven pieces, drawn cell by cell |
| `TetrisLaws.RotationsAreQuarterTurns` | MSM8974Pkg/Application/TetrisApp/Piece.h:13-43 | each rotation is the one before it turned clockwise by a quarter |
| `TetrisLaws.ColoursAreUnique` | MSM8974Pkg/Application/TetrisApp/Piece.c:8-54 | the pieces have seven different colours, none that of the background |
| `TetrisLaws.SidewaysAndTurning` | MSM8974Pkg/Application/TetrisApp/Board.c:30-72 | left lowers x by one, right raises it by one, and turning takes the next rotation, exactly where there is room; otherwise nothing changes |
| `TetrisLaws.MovingDown` | MSM8974Pkg/Application/TetrisApp/Board.c:76-90 | down raises y by one where there is room, and places the piece otherwise |
| `TetrisLaws.Dropping` | MSM8974Pkg/Application/TetrisApp/Board.c:94-101 | a drop goes down to the first row without room below and gives two points a row |
| `TetrisLaws.LinesScore` | MSM8974Pkg/Application/TetrisApp/Board.c:286-289 | 100, 200, 400 or 800 points for one to four lines and 50 times the level, and none without a line |
| `TetrisLaws.PlacingTooHigh` | MSM8974Pkg/Application/TetrisApp/Board.c:229-233 | a cell in a hidden row ends the game and changes nothing else |
| `TetrisLaws.Placing` | MSM8974Pkg/Application/TetrisApp/Board.c:229-303 | the piece settles in its colour, full rows are counted, scored and taken out, and the next piece comes in at the top |
| `TetrisLaws.ClearedRows` | MSM8974Pkg/Application/TetrisApp/Board.c:253-282 | the hidden rows stay, the rows that are not full lie at the bottom in their old order, and the rows between are blank |
| `TetrisLaws.Starting` | MSM8974Pkg/Application/TetrisApp/Board.c:105-128 | the start values of every field of the game |
| `TetrisGrid.ClearedFacts` | MSM8974Pkg/Application/TetrisApp/Board.c:253-290 | filtering keeps the shape and the empty hidden rows, loses width cells for each full line and leaves no full line |
| `TetrisGrid.NonFullCount` | MSM8974Pkg/Application/TetrisApp/Board.c:258-282 | filtering takes away exactly the cells of the full rows |
| `TetrisGrid.ClearedCount` | MSM8974Pkg/Application/TetrisApp/Board.c:258-282 | occupied cells are conserved up to the removed lines |
| `TetrisGrid.RowGoes` | MSM8974Pkg/Application/TetrisApp/Board.c:268-281 | removing a full row and looking at the same index again is one step of the filter |
| `TetrisGrid.RowStays` | MSM8974Pkg/Application/TetrisApp/Board.c:258-266 | a row that is not full stays in place |
| `TetrisGrid.PaintAdds` | MSM8974Pkg/Application/TetrisApp/Board.c:159-167 | drawing a piece on free distinct cells adds exactly its cells |
| `TetrisGrid.WipeForgetsPaint` | MSM8974Pkg/Application/TetrisApp/Board.c:159-167 | blanking the cells of a piece forgets the colour it was drawn in |
| `TetrisBoard.Board.constructor` | MSM8974Pkg/Application/TetrisApp/Board.c:105-128 | a new board is a new game |
| `TetrisBoard.Board.RedrawField` | MSM8974Pkg/Application/TetrisApp/Board.c:183-193 | sets a visible cell, ignores the hidden rows, touches no other cell |
| `TetrisBoard.Board.MarkFieldsOccupiedByPiece` | MSM8974Pkg/Application/TetrisApp/Board.c:159-167 | paints the four cells of the piece and leaves the settled cells alone |
| `TetrisBoard.Board.DrawFieldsOccupiedByPiece` | MSM8974Pkg/Application/TetrisApp/Board.c:171-179 | the same for the visible cells only |
| `TetrisBoard.Board.IsMovePossible` | MSM8974Pkg/Application/TetrisApp/Board.c:140-155 | true exactly when all four shifted cells are inside and empty |
| `TetrisBoard.Board.MovePieceLeft` | MSM8974Pkg/Application/TetrisApp/Board.c:48-58 | the array after the call is the game after the key, in bounds |
| `TetrisBoard.Board.MovePieceRight` | MSM8974Pkg/Application/TetrisApp/Board.c:62-72 | the array after the call is the game after the key, in bounds |
| `TetrisBoard.Board.RotatePiece` | MSM8974Pkg/Application/TetrisApp/Board.c:30-44 | rotates when the rotated piece is free, else leaves piece and field as they were |
| `TetrisBoard.Board.MovePieceDown` | MSM8974Pkg/Application/TetrisApp/Board.c:76-90 | moves down exactly when that is possible, else places the piece |
| `TetrisBoard.Board.DropPiece` | MSM8974Pkg/Application/TetrisApp/Board.c:94-101 | the loop is the drop of the game, bonus included |
| `TetrisBoard.Board.RowIsFull` | MSM8974Pkg/Application/TetrisApp/Board.c:261-266 | finds out whether a row has no empty cell |
| `TetrisBoard.Board.RemoveRow` | MSM8974Pkg/Application/TetrisApp/Board.c:269-277 | the rows above move down by one and the top visible row empties |
| `TetrisBoard.Board.RemoveLines` | MSM8974Pkg/Application/TetrisApp/Board.c:253-282 | in place, ending although it looks at rows twice: the field becomes its non-full rows in order under empty rows, and the full rows are counted |
| `TetrisBoard.Board.CheckAndRemoveLines` | MSM8974Pkg/Application/TetrisApp/Board.c:253-290 | the same, and lines and score grow by the number of full rows |
| `TetrisBoard.Board.IsGameOver` | MSM8974Pkg/Application/TetrisApp/Board.c:241-249 | true exactly when a cell of the piece lies in the hidden rows |
| `TetrisBoard.Board.PlacePiece` | MSM8974Pkg/Application/TetrisApp/Board.c:229-237 | game over or line removal and the next piece |
| `TetrisBoard.Board.LoadNextPiece` | MSM8974Pkg/Application/TetrisApp/Board.c:294-303 | swaps the two piece objects, draws the next one, starts at the top without collision |
| `TetrisBoard.Piece.Randomize` | MSM8974Pkg/Application/TetrisApp/Piece.c:8-54 | any random number gives one of the seven kinds in its start rotation |
| `TetrisBoard.Piece.RotateCW` | MSM8974Pkg/Application/TetrisApp/Piece.c:58-61 | next rotation modulo four |
| `TetrisBoard.Piece.RotateCCW` | MSM8974Pkg/Application/TetrisApp/Piece.c:65-74 | undoes RotateCW |
| `Adma.PrepDescTable` | MSM8974Pkg/Drivers/SdhciMMCHSDxe/sdhci.c:596-679 | for every length the table tiles the buffer: contiguous, 0 read as 65536, END on the last entry only, ceil(len/65536) entries |
| `Adma.FullLinesTile` | MSM8974Pkg/Drivers/SdhciMMCHSDxe/sdhci.c:647-667 | full lines and a last line with the rest tile the buffer |
| `Adma.ScatterIsCopy` | MSM8974Pkg/Drivers/SdhciMMCHSDxe/sdhci.c:689-732 | a controller that follows a tiling table into memory performs one plain copy |
| `Adma.GatherIsSlice` | MSM8974Pkg/Drivers/SdhciMMCHSDxe/sdhci.c:689-732 | a controller that follows a tiling table out of memory sends exactly the buffer |
| `BlockIo.TableCopies` | MSM8974Pkg/Drivers/SdhciMMCHSDxe/mmc_sdhci.c:1893-2023 | one read or write command through its table is the plain copy of the blocks that the card moves for its index: one for 17 and 24, all for 18 and 25 |
| `BlockIo.CopiedBytes` | MSM8974Pkg/Drivers/SdhciMMCHSDxe/MMCHS.c:51-147 | what one plain copy is, byte by byte: the bytes arrive in order and no other byte changes |
| `BlockIo.CopyJoin` | MSM8974Pkg/Drivers/SdhciMMCHSDxe/MMCHS.c:76-89 | two adjacent copies are one |
| `BlockIo.CoveringCommands` | MSM8974Pkg/Drivers/SdhciMMCHSDxe/MMCHS.c:76-89 | covering commands have the index for their direction and length, 1 to 65535 blocks each, and add up to the request |
| `BlockIo.OneCommandMore` | MSM8974Pkg/Drivers/SdhciMMCHSDxe/MMCHS.c:128-141 | one more command, full or for all that is left, leaves less of the request to cover |
| `BlockIo.NothingLeft` | MSM8974Pkg/Drivers/SdhciMMCHSDxe/MMCHS.c:128-146 | commands that leave nothing cover the request |
| `BlockIo.AcceptedRequests` | MSM8974Pkg/Drivers/SdhciMMCHSDxe/MMCHS.c:178-200 | the range check accepts exactly whole blocks inside the medium, except that an empty request at block 0 is refused; and with which status each other request is refused |
| `Answers.GoodResponseIff` | MSM8974Pkg/Drivers/SdhciMMCHSDxe/mmc_sdhci.c:1815-1859 | a response is good exactly in the transfer state with none of the six error bits |
| `Answers.ZeroAfterFailureIff` | MSM8974Pkg/Drivers/SdhciMMCHSDxe/mmc_sdhci.c:1862-1960 | for every register history of data and stop command: the data is not moved and 0 is returned exactly when the stop command went well after a reported failure, or the command itself was answered well and the transfer then failed, for one block in any way, for several unreported |
| `Answers.StickyFailsUnseen` | MSM8974Pkg/Drivers/SdhciMMCHSDxe/sdhci.c:743-928 | with sticky error registers every such failure was reported by sdhci_send_command |
| `Answers.StopHidesFailure` | MSM8974Pkg/Drivers/SdhciMMCHSDxe/mmc_sdhci.c:1943-1947 | a CRC error on a transfer of several blocks that the stop command turns into 0 |
| `Answers.ResponseHidesFailure` | MSM8974Pkg/Drivers/SdhciMMCHSDxe/mmc_sdhci.c:1949-1953 | a CRC error on the transfer of one block after a good response, for which 0 is returned |
| `BlockIo.UncleanIff` | MSM8974Pkg/Drivers/SdhciMMCHSDxe/mmc_sdhci.c:1937-1960 | in a log of commands that all returned 0, some data was not moved exactly when a command failed in one of these ways |
| `BlockIo.Mmc.SendCommand` | MSM8974Pkg/Drivers/SdhciMMCHSDxe/sdhci.c:743-928 | return value and response follow from the register history through sdhci_cmd_complete; the data is moved through the table when the transfer was seen complete, and otherwise the receiving side is arbitrary |
| `BlockIo.Mmc.StopCommand` | MSM8974Pkg/Drivers/SdhciMMCHSDxe/mmc_sdhci.c:1862-1885 | its return value from its own register history and response |
| `BlockIo.Mmc.BuildCommand` | MSM8974Pkg/Drivers/SdhciMMCHSDxe/mmc_sdhci.c:1893-1935 | index (17, 18, 24 or 25 by direction and number of blocks), argument, block count and table fit the piece, for byte- and block-addressed cards |
| `BlockIo.Mmc.Transfer` | MSM8974Pkg/Drivers/SdhciMMCHSDxe/mmc_sdhci.c:1893-2023 | one command is issued, its return value is that of its answer, and when its transfer was seen complete memory and card hold the plain copy |
| `BlockIo.Mmc.Chunks` | MSM8974Pkg/Drivers/SdhciMMCHSDxe/MMCHS.c:128-146 | the commands stop at the first one that does not return 0; with none they cover the range, and if all transfers were seen complete the loop is one copy |
| `BlockIo.Mmc.MmcRead` | MSM8974Pkg/Drivers/SdhciMMCHSDxe/MMCHS.c:103-147 | reading: covering commands up to the first refused one, and one plain copy when all transfers were seen complete |
| `BlockIo.Mmc.MmcWrite` | MSM8974Pkg/Drivers/SdhciMMCHSDxe/MMCHS.c:51-95 | writing: the same for the length rounded up to blocks |
| `BlockIo.Mmc.AcceptedIsOnCard` | MSM8974Pkg/Drivers/SdhciMMCHSDxe/MMCHS.c:182-188 | an accepted request stays on the card |
| `BlockIo.Mmc.Blocks` | MSM8974Pkg/Drivers/SdhciMMCHSDxe/MMCHS.c:159-257 | a refused or empty request changes nothing; any other one succeeds exactly when every command returned 0, and then it is covered exactly; it is one plain copy when all transfers were seen complete, and the only other successes are those in which a command failed unseen |
| `CmdComplete.ZeroMeansComplete` | MSM8974Pkg/Drivers/SdhciMMCHSDxe/sdhci.c:425-588 | for every sticky register history outside tuning: 0 is returned exactly when the command was seen complete without a command timeout, the transfer was seen complete if there is one, and the last status shows no error but a data timeout that the transfer overrides |
| `CmdComplete.SightingsAreReal` | MSM8974Pkg/Drivers/SdhciMMCHSDxe/sdhci.c:436-543 | a sighting is a read of the register that showed the bit, and the transfer is sighted after the command |
| `CmdComplete.CutLeavesError` | MSM8974Pkg/Drivers/SdhciMMCHSDxe/sdhci.c:436-551 | a loop left on an error leaves an error for the final look |
| `CmdComplete.ResetIffError` | MSM8974Pkg/Drivers/SdhciMMCHSDxe/sdhci.c:549-588 | outside tuning the lines are reset exactly when the last status shows an error; in tuning an early failure always resets them |
| `CmdComplete.PollingEnds` | MSM8974Pkg/Drivers/SdhciMMCHSDxe/sdhci.c:425-543 | polling ends within the two retry budgets |
| `Patience.WaitsForBoth` | MSM8974Pkg/Drivers/SdhciMMCHSDxe/sdhci.c:425-548 | only the status reads decide: the first that decides ends the command loop, the transfer loop follows exactly when a command with data was seen, and the final status is read right behind |
| `Patience.CommandAlwaysEnds` | MSM8974Pkg/Drivers/SdhciMMCHSDxe/sdhci.c:436-474 | one of the ways to end the command loop always applies |
| `Patience.FirstCommandLookDecides` | MSM8974Pkg/Drivers/SdhciMMCHSDxe/sdhci.c:436-474 | the first look that shows an error or the command decides, if it comes within the budget |
| `Patience.CommandNeverCame` | MSM8974Pkg/Drivers/SdhciMMCHSDxe/sdhci.c:436-474 | the first loop gives up only after its whole budget of looks |
| `Patience.FirstTransferLookDecides` | MSM8974Pkg/Drivers/SdhciMMCHSDxe/sdhci.c:504-543 | the same for the transfer |
| `Patience.TransferNeverCame` | MSM8974Pkg/Drivers/SdhciMMCHSDxe/sdhci.c:504-543 | the same for the transfer |
| `Patience.TransferWaits` | MSM8974Pkg/Drivers/SdhciMMCHSDxe/sdhci.c:504-543 | the second loop ends as its looks say, with the budget of the command or ten million |
| `Patience.InTimeSucceeds` | MSM8974Pkg/Drivers/SdhciMMCHSDxe/sdhci.c:425-588 | without errors, a command within five million looks and a transfer within its budget make the call return 0 |
| `Patience.ReturnValue` | MSM8974Pkg/Drivers/SdhciMMCHSDxe/sdhci.c:549-588 | 1 exactly after a failed tuning look, for an error in the last status but a data timeout after a completed transfer, or without an error when a loop gave up |
| `CmdComplete.FalseSuccessIff` | MSM8974Pkg/Drivers/SdhciMMCHSDxe/sdhci.c:425-588 | for every register history outside tuning: 0 is returned without completion exactly when a loop was left on an error status and the final look finds no error |
| `CmdComplete.ZeroIff` | MSM8974Pkg/Drivers/SdhciMMCHSDxe/sdhci.c:425-588 | for every register history outside tuning: exactly when 0 is returned; the sticky case follows from it |
| `CmdComplete.ForgottenErrorReportsSuccess` | MSM8974Pkg/Drivers/SdhciMMCHSDxe/sdhci.c:425-588 | a register that forgets its error makes the function return 0 without a completed command |
| `CmdComplete.PollCommand` | MSM8974Pkg/Drivers/SdhciMMCHSDxe/sdhci.c:436-474 | the first loop: what it saw when it ended, and when |
| `CmdComplete.PollTransfer` | MSM8974Pkg/Drivers/SdhciMMCHSDxe/sdhci.c:504-543 | the second loop: what it saw when it ended, and when |
| `CmdComplete.CmdComplete` | MSM8974Pkg/Drivers/SdhciMMCHSDxe/sdhci.c:425-588 | the polling code computes the specified outcome |
| `CmdComplete.AwaitTransfer` | MSM8974Pkg/Drivers/SdhciMMCHSDxe/sdhci.c:504-588 | the second loop and what follows it compute the specified outcome |
| `CmdComplete.CmdErrStatus` | MSM8974Pkg/Drivers/SdhciMMCHSDxe/sdhci.c:375-414 | 1 exactly when one of the ten error bits is set |
| `CmdComplete.FinalCheck` | MSM8974Pkg/Drivers/SdhciMMCHSDxe/sdhci.c:549-588 | the last look at the status decides as specified |
| `OsVersion.OsVersionRoundTrip` | ImageResources/mkbootimg/unpack_bootimg.py:55-61 | every 7.7.7-bit version prints as text that mkbootimg parses back to it |
| `OsVersion.PatchLevelRoundTrip` | ImageResources/mkbootimg/unpack_bootimg.py:64-70 | the same for every year and month |
| `OsVersion.WordRoundTrip` | ImageResources/mkbootimg/mkbootimg.py:224-224 | the packed word decodes to version and patch level |
| `OsVersion.ParsedVersionFits` | ImageResources/mkbootimg/mkbootimg.py:370-384 | whatever text is accepted, the version fits 21 bits |
| `OsVersion.ParsedPatchFits` | ImageResources/mkbootimg/mkbootimg.py:387-396 | whatever text is accepted, the patch level is a valid year and month |
| `OsVersion.DecodedFits` | ImageResources/mkbootimg/unpack_bootimg.py:73-78 | every decoded word lies in the printable ranges |
| `VersionTexts.OnePart` | ImageResources/mkbootimg/mkbootimg.py:370-384 | a text of one number is that version, with zeros for the rest |
| `VersionTexts.TwoParts` | ImageResources/mkbootimg/mkbootimg.py:370-384 | a text of two numbers has a zero for the third |
| `VersionTexts.ThreeParts` | ImageResources/mkbootimg/mkbootimg.py:370-384 | a text of three numbers is packed 7.7.7, and refused when one does not fit |
| `VersionTexts.NoVersion` | ImageResources/mkbootimg/mkbootimg.py:370-384 | text without a leading digit is version 0 |
| `VersionTexts.PatchLevelOf` | ImageResources/mkbootimg/mkbootimg.py:387-396 | a year of 2000 to 2127 and a month of 1 to 12 are packed, other years and months are refused, and a text of another form is level 0 |
| `VersionTexts.MayOf2021` | ImageResources/mkbootimg/mkbootimg.py:387-396 | "2021-05-05" is year 21 and month 5 |
| `VersionTexts.NoThirteenthMonth` | ImageResources/mkbootimg/mkbootimg.py:387-396 | "2021-13" is refused |
| `Paging.PaddedLength` | ImageResources/mkbootimg/mkbootimg.py:86-93 | for a power of two pad_file ends the last page begun: the length becomes page x get_number_of_pages |
| `Paging.SectionAt` | ImageResources/mkbootimg/mkbootimg.py:359-363 | section i begins at the page the sizes before it predict, and nothing written later moves it |
| `Paging.WritePaddedAligned` | ImageResources/mkbootimg/mkbootimg.py:359-363 | writing a file to a page boundary ends on the predicted page boundary |
| `Paging.SameContentSameFile` | ImageResources/mkbootimg/mkbootimg.py:359-363 | on page boundaries an empty file and a missing one write the same bytes |
| `BootHeader.ReadBase1` | ImageResources/mkbootimg/unpack_bootimg.py:186-206 | the eleven words read back from their fixed offsets |
| `BootHeader.ReadBase2` | ImageResources/mkbootimg/unpack_bootimg.py:213-220 | the text fields read back from their fixed offsets |
| `BootHeader.ReadRendered` | ImageResources/mkbootimg/unpack_bootimg.py:225-237 | the fields of versions 1 and 2 read back from their fixed offsets |
| `BootHeader.ReadRendered3` | ImageResources/mkbootimg/unpack_bootimg.py:203-224 | the fields of versions 3 and 4 read back from their fixed offsets |
| `BootBytes.ImageBytes012` | ImageResources/mkbootimg/mkbootimg.py:192-271 | every byte of an image of versions 0 to 2 from the command line: magic, words, texts, the id over all files and their sizes, the version words, and the files in order with zeros up to the next page |
| `BootBytes.ImageBytes34` | ImageResources/mkbootimg/mkbootimg.py:114-140 | the same for versions 3 and 4 |
| `BootBytes.MakesImageIff` | ImageResources/mkbootimg/mkbootimg.py:192-271 | the exact command lines for which an image is made: arguments, versions, the lengths of texts and the sizes and addresses that fit their words |
| `Utf8.AsciizField` | ImageResources/mkbootimg/unpack_bootimg.py:50-52 | a padded field with a terminated text reads back as that text |
| `Utf8.DecodeEncode` | ImageResources/mkbootimg/unpack_bootimg.py:212-224 | encoded text in front of any bytes is decoded back |
| `Utf8.CutText` | ImageResources/mkbootimg/mkbootimg.py:571-575 | encoded text cut between characters is the encoding of the two parts |
| `Utf8.CutTextIsLost` | ImageResources/mkbootimg/unpack_bootimg.py:215-220 | encoded text cut within a character does not decode when a NUL follows |
| `Decimals.DigitOf` | ImageResources/mkbootimg/mkbootimg.py:370-396 | ASCII digits have their values, no other ASCII character is a digit, and no digit exceeds nine |
| `BootRepack.CmdlineFields` | ImageResources/mkbootimg/mkbootimg.py:571-575 | the two command line fields hold two parts that join to the command line, unless byte 511 of its encoding continues a character: then the first field does not decode |
| `BootRepack.SlicesOf012` | ImageResources/mkbootimg/unpack_bootimg.py:249-284 | every section of versions 0 to 2 lies where the unpacker computes it to be |
| `BootRepack.UnpackReturnsWhatWasPacked` | ImageResources/mkbootimg/unpack_bootimg.py:184-292 | for every accepted command line, versions 0 to 4: unpacking the packed image gives back every field and section, exactly when the split of the command line (versions 0 to 2) cuts no character, and raises otherwise |
| `BootRepack.CutCharacterIsLost` | ImageResources/mkbootimg/mkbootimg.py:571-575 | a command line of 510 letters and a character of two bytes is packed, and unpacking raises |
| `BootRepack.KernelOnlyIsAccepted` | ImageResources/mkbootimg/mkbootimg.py:192-271 | a kernel alone makes an image in every header version but 2, which needs a dtb |
| `BootRepack.RepackIsIdentity` | ImageResources/mkbootimg/unpack_bootimg.py:134-181 | for every image of versions 0 to 4: it can be unpacked exactly when no character was cut, and packing the formatted arguments gives the identical bytes exactly when there is no empty recovery DTBO in a version 1 or 2 image and argparse takes the formatted texts as values |
| `BootRepack.RepackWithoutDashes` | ImageResources/mkbootimg/unpack_bootimg.py:134-181 | for texts without a leading dash, exactly when there is no empty recovery DTBO |
| `BootRepack.DashedCmdlineIsLost` | ImageResources/mkbootimg/unpack_bootimg.py:176-179 | the command line "-v" is packed and unpacked, and the formatted arguments are refused |
| `BootRepack.EmptyDtboIsLost` | ImageResources/mkbootimg/unpack_bootimg.py:149-151 | in versions 1 and 2 an image with an empty recovery DTBO is made, and packing it again gives another one |
| `Argparse.ShortExamples` | ImageResources/mkbootimg/unpack_bootimg.py:176-179 | what a single dash does to a text passed as an argument of its own, with and without a second word |
| `Argparse.LongExamples` | ImageResources/mkbootimg/unpack_bootimg.py:176-179 | the separator and an option of mkbootimg are not values |
| `BootRepack.SameFields` | ImageResources/mkbootimg/unpack_bootimg.py:134-181 | all header fields come back, except the offset of an empty recovery DTBO |
| `BootRepack.DtboOffsetIsPositive` | ImageResources/mkbootimg/mkbootimg.py:96-105 | the offset that is lost is never zero |
| `BootRepack.VersionComesBack` | ImageResources/mkbootimg/unpack_bootimg.py:134-181 | version and patch level survive printing and parsing |
| `VendorTable.AcceptedGroups` | ImageResources/mkbootimg/mkbootimg.py:315-340 | all option groups are accepted exactly when names are distinct, free and not banned and board ids fit |
| `VendorTable.AddEntryKeepsGood` | ImageResources/mkbootimg/mkbootimg.py:315-340 | every added entry keeps: offsets are prefix sums, stripped names distinct and not banned |
| `VendorTable.AddAllAppends` | ImageResources/mkbootimg/mkbootimg.py:456-471 | the entries are the option groups in order |
| `VendorTable.FragmentAtOffset` | ImageResources/mkbootimg/mkbootimg.py:342-346 | offset and size of an entry cut its fragment out of the concatenation |
| `VendorTable.EntryAt` | ImageResources/mkbootimg/mkbootimg.py:348-356 | entry i stands at 108 x i |
| `VendorTable.EntryReadsBack` | ImageResources/mkbootimg/unpack_bootimg.py:419-440 | an entry and its fragment read back |
| `VendorTable.EntriesReadBack` | ImageResources/mkbootimg/unpack_bootimg.py:419-440 | the table loop returns all fragments in order |
| `VendorTable.AddAllAlike` | ImageResources/mkbootimg/mkbootimg.py:315-340 | tables that agree up to name terminators accept and build alike |
| `VendorBytes.VendorImageBytes` | ImageResources/mkbootimg/mkbootimg.py:143-188 | every byte of a vendor image from the command line: header, ramdisks, dtb, the table entry by entry with the vendor ramdisk as type 1, and the bootconfig |
| `VendorBytes.GroupsIff` | ImageResources/mkbootimg/mkbootimg.py:315-340 | the option groups that are accepted: distinct names, none of them "default", none empty next to a vendor ramdisk, and types and board ids of 32 bits |
| `VendorBytes.MakesVendorImageIff` | ImageResources/mkbootimg/mkbootimg.py:143-188 | the exact command lines for which a vendor image is made |
| `VendorRepack.ReadVendorHeader` | ImageResources/mkbootimg/unpack_bootimg.py:383-411 | all vendor header fields read back from their fixed offsets |
| `VendorRepack.BuiltTable` | ImageResources/mkbootimg/mkbootimg.py:451-471 | the built table describes the vendor ramdisk and all option groups in order |
| `VendorRepack.LayoutFromSections` | ImageResources/mkbootimg/unpack_bootimg.py:397-456 | ramdisks, dtb, table and bootconfig lie where the unpacker computes them, behind a header of several pages |
| `VendorRepack.UnpackReturnsVendor` | ImageResources/mkbootimg/unpack_bootimg.py:381-475 | for every accepted command line, versions 3 and 4: unpacking gives back every field, section and fragment exactly when no fragment has a slash in its name, and raises otherwise |
| `VendorRepack.SlashedNameIsLost` | ImageResources/mkbootimg/unpack_bootimg.py:463-473 | a fragment "a/b" is packed, and unpacking raises |
| `VendorRepack.LinksLeadHome` | ImageResources/mkbootimg/unpack_bootimg.py:463-473 | in a packed image every link by name leads to the fragment of that name |
| `VendorRepack.VendorRepackIsIdentity` | ImageResources/mkbootimg/unpack_bootimg.py:344-378 | for every packed vendor image: it can be unpacked exactly when all names can be linked, and packing the formatted arguments gives the identical image exactly when argparse takes all texts as values |
| `VendorRepack.DashedTextsAreLost` | ImageResources/mkbootimg/unpack_bootimg.py:351-369 | a fragment or a command line "-v" is packed and unpacked, and the formatted arguments are refused |
| `VendorRepack.SameTable` | ImageResources/mkbootimg/unpack_bootimg.py:361-373 | the builder gets the same table again |
| `MkBootImg.OutFile.PadFile` | ImageResources/mkbootimg/mkbootimg.py:86-88 | the file is padded with zeros to the specified length |
| `MkBootImg.OutFile.WritePaddedFile` | ImageResources/mkbootimg/mkbootimg.py:359-363 | a missing file writes nothing, any other one is written and padded |
| `MkBootImg.Sha1.Update` | ImageResources/mkbootimg/mkbootimg.py:77-83 | feeds the file and its size; fails exactly when the size does not fit |
| `MkBootImg.FeedSha` | ImageResources/mkbootimg/mkbootimg.py:229-239 | feeds the files the header version asks for |
| `MkBootImg.WriteWords` | ImageResources/mkbootimg/mkbootimg.py:204-224 | the words in front of the name, or an exception exactly when one does not fit |
| `MkBootImg.WriteVersionFields` | ImageResources/mkbootimg/mkbootimg.py:244-268 | the fields of versions 1 and 2, or an exception exactly when one does not fit or the dtb is empty |
| `MkBootImg.WriteHeader` | ImageResources/mkbootimg/mkbootimg.py:192-271 | the file written step by step is the padded header of versions 0 to 2, whose bytes ImageBytes012 gives |
| `MkBootImg.WriteHeaderV3` | ImageResources/mkbootimg/mkbootimg.py:114-140 | the same for versions 3 and 4, with ImageBytes34 |
| `MkBootImg.WriteData` | ImageResources/mkbootimg/mkbootimg.py:616-626 | appends the sections of the header version |
| `MkBootImg.MakeBoot` | ImageResources/mkbootimg/mkbootimg.py:642-660 | the tool produces exactly the specified image (ImageBytes012, ImageBytes34), and raises exactly when it is refused (MakesImageIff) |
| `MkVendorBoot.VendorRamdiskTableBuilder.AddEntry` | ImageResources/mkbootimg/mkbootimg.py:315-340 | the updated builder is the specified table; a refused entry leaves entries and total alone |
| `MkVendorBoot.VendorRamdiskTableBuilder.WriteRamdisksPadded` | ImageResources/mkbootimg/mkbootimg.py:342-346 | the loop appends the concatenated ramdisks |
| `MkVendorBoot.VendorRamdiskTableBuilder.WriteEntriesPadded` | ImageResources/mkbootimg/mkbootimg.py:348-356 | the loop appends the table, or fails exactly when an entry does not pack |
| `MkVendorBoot.ParseVendorRamdiskArgs` | ImageResources/mkbootimg/mkbootimg.py:428-481 | the loop over the option groups builds the specified table |
| `MkVendorBoot.WriteVendorBootHeader` | ImageResources/mkbootimg/mkbootimg.py:143-188 | the file written step by step is the padded vendor header |
| `MkVendorBoot.WriteVendorBootData` | ImageResources/mkbootimg/mkbootimg.py:629-639 | appends the sections of the header version |
| `MkVendorBoot.MakeVendorBoot` | ImageResources/mkbootimg/mkbootimg.py:642-651 | the tool produces exactly the specified vendor image (VendorImageBytes), and raises exactly when it is refused (MakesVendorImageIff) |
| `UnpackBootImg.UnpackBootImage` | ImageResources/mkbootimg/unpack_bootimg.py:184-292 | reading with the cursor accepts and returns what reading at fixed offsets does, for every file (UnpackedBytesAre) |
| `UnpackBootImg.ReadTable` | ImageResources/mkbootimg/unpack_bootimg.py:413-440 | the table loop with its seeks returns what the specification reads |
| `UnpackBootImg.UnpackVendorBootImage` | ImageResources/mkbootimg/unpack_bootimg.py:381-475 | the same for vendor images, for every file, the links by name included: they are added to those that were there |
| `UnpackBootImg.LinkByName` | ImageResources/mkbootimg/unpack_bootimg.py:463-473 | the loop makes the specified links, replacing older ones, or raises exactly when a name has a slash |
| `UnpackedBytes.UnpackedBytesAre` | ImageResources/mkbootimg/unpack_bootimg.py:184-292 | for every file, packed by mkbootimg or not: it is accepted exactly when its header is complete and its texts decode, and every field and part is what stands at its offset, as far as the file goes |
| `UnpackedBytes.UnpackedVendorBytesAre` | ImageResources/mkbootimg/unpack_bootimg.py:381-475 | the same for vendor images, with every entry of the table |
| `UnpackedBytes.EntriesAreShown` | ImageResources/mkbootimg/unpack_bootimg.py:413-440 | the table loop shows every entry, or raises exactly when one is cut off or its name does not decode |
| `Pwm.FindSetting` | MSM8974Pkg/Drivers/Pm8x41Dxe/pm_pwm.c:128-158 | with the early break, the loops return a setting of least error over all 96, and the first of those in loop order |
| `Pwm.ErrorIsUnimodal` | MSM8974Pkg/Drivers/Pm8x41Dxe/pm_pwm.c:137-156 | in one row the error keeps growing once it has grown |
| `Pwm.BreakIsSafe` | MSM8974Pkg/Drivers/Pm8x41Dxe/pm_pwm.c:150-152 | so the settings that the break skips are all worse |
| `Pwm.ErrorWithinAThird` | MSM8974Pkg/Drivers/Pm8x41Dxe/pm_pwm.c:92-107 | the least error is at most a third of the period per step exactly from 39 ns on |
| `Pwm.AThirdIsReached` | MSM8974Pkg/Drivers/Pm8x41Dxe/pm_pwm.c:92-107 | at 78 ns no setting does better |
| `Pwm.StepTimeFits` | MSM8974Pkg/Drivers/Pm8x41Dxe/pm_pwm.c:136-155 | no shifted step time leaves 32 bits |
| `Pwm.StepTimesAre` | MSM8974Pkg/Drivers/Pm8x41Dxe/pm_pwm.c:49-66 | the step times of the three clocks and the pre-dividers 1, 3, 5 and 6, doubled up to seven times, and the error of a setting |
| `Pwm.PeriodPerStep` | MSM8974Pkg/Drivers/Pm8x41Dxe/pm_pwm.c:118-126 | a 64th of the period in nanoseconds, or a 512th for long periods |
| `Pwm.WrapsIff` | MSM8974Pkg/Drivers/Pm8x41Dxe/pm_pwm.c:118-126 | the 32-bit product is exact exactly below 274.877952 s |
| `Pwm.LongestPeriodWraps` | MSM8974Pkg/Drivers/Pm8x41Dxe/pm_pwm.c:228-229 | at the documented limit of 384 s it wraps |
| `Pwm.PmPwmConfig.CalcPeriod` | MSM8974Pkg/Drivers/Pm8x41Dxe/pm_pwm.c:108-164 | the stored size and setting are the best for the 32-bit period per step |
| `Pwm.CoarseIsClose` | MSM8974Pkg/Drivers/Pm8x41Dxe/pm_pwm.c:178-181 | dividing by the period in counts instead of multiplying first is off by at most one count |
| `Pwm.CoarseIsOneMoreIff` | MSM8974Pkg/Drivers/Pm8x41Dxe/pm_pwm.c:178-181 | it is one more exactly when the next count times the period in counts still fits into the duty time |
| `Pwm.OneTooManyHappens` | MSM8974Pkg/Drivers/Pm8x41Dxe/pm_pwm.c:178-181 | 28.125 s of 48.000511 s: 300 is stored for 299 |
| `Pwm.DutyIsRightIff` | MSM8974Pkg/Drivers/Pm8x41Dxe/pm_pwm.c:166-185 | after clamping the value is right exactly when it is not one too many or is clamped anyway |
| `Pwm.DutyValueIs` | MSM8974Pkg/Drivers/Pm8x41Dxe/pm_pwm.c:166-185 | the duty count is the share of the period rounded down, clamped below 64 or 512, and exactly when it is one more |
| `Pwm.PmPwmConfig.CalcPwmValue` | MSM8974Pkg/Drivers/Pm8x41Dxe/pm_pwm.c:166-185 | the value is the clamped duty count, or the clamped next one exactly when the overflow branch is one too many |
| `Pwm.PmPwmConfig.Config` | MSM8974Pkg/Drivers/Pm8x41Dxe/pm_pwm.c:230-248 | accepts exactly the documented range; the setting is the best one for the period and the duty value the clamped count or, exactly when the overflow branch is one too many, the next one; below the wrap the period per step is within a third |
| `Bam.CutTiles` | MSM8974Pkg/Drivers/BamDxe/bam.c:346-372 | ceil(len/65535) descriptors tile the buffer, sizes in range, flags on the last only |
| `Bam.PutAllFillsSlots` | MSM8974Pkg/Drivers/BamDxe/bam.c:296-307 | descriptors go into consecutive ring slots; no other slot changes |
| `Bam.EventIsRightIff` | MSM8974Pkg/Drivers/BamDxe/bam.c:249-268 | the event names the slot behind the last descriptor exactly when offset and current slot agree modulo the ring |
| `Bam.SyncedEventIsRightIff` | MSM8974Pkg/Drivers/BamDxe/bam.c:175-215 | on a synchronised pipe that holds for rings up to 8192; in a ring of 16384, which the size check admits, for half the slots |
| `Bam.ReadOffsetSyncs` | MSM8974Pkg/Drivers/BamDxe/bam.c:276-290 | every offset update synchronises the pipe |
| `Bam.RequestDelivers` | MSM8974Pkg/Drivers/BamDxe/bam.c:317-381 | a valid request puts every descriptor into its slot and announces the new current slot, unless it takes the whole ring |
| `Bam.StaleEvent` | MSM8974Pkg/Drivers/BamDxe/bam.c:249-268 | a second request without an offset update in between is announced wrongly |
| `Bam.AllWrittenIff` | MSM8974Pkg/Drivers/BamDxe/bam.c:317-381 | every descriptor of a request reaches the ring exactly when the pipe is initialised and the flags are valid |
| `Bam.WhatIsTaken` | MSM8974Pkg/Drivers/BamDxe/bam.c:317-345 | a request is taken exactly when it has an address and its descriptors fit into the ring at once; the slots it takes tell whether LOCK and UNLOCK or EOT and CMD are set together |
| `Bam.MissingDescriptorsAreCounted` | MSM8974Pkg/Drivers/BamDxe/bam.c:317-381 | otherwise the request succeeds too: without its last descriptor for invalid flags, without any on an uninitialised pipe, and the event counts them all |
| `Bam.EveryRequestIsAnnounced` | MSM8974Pkg/Drivers/BamDxe/bam.c:276-381 | over every run of request and update cycles the pipe stays synchronised and every request is announced rightly |
| `Bam.BamPipe.FifoInit` | MSM8974Pkg/Drivers/BamDxe/bam.c:175-215 | a size within the limit gives a synchronised, empty pipe |
| `Bam.BamPipe.AddOneDesc` | MSM8974Pkg/Drivers/BamDxe/bam.c:391-451 | succeeds exactly on valid arguments and then fills one slot |
| `Bam.BamPipe.GenEvent` | MSM8974Pkg/Drivers/BamDxe/bam.c:249-268 | writes the event unless the ring is full |
| `Bam.BamPipe.ReadOffsetUpdate` | MSM8974Pkg/Drivers/BamDxe/bam.c:276-290 | current slot and offset from any 16-bit register; the pipe is synchronised when it points into the ring, and out of step with the ring exactly when it does not |
| `Bam.BamPipe.AddDesc` | MSM8974Pkg/Drivers/BamDxe/bam.c:317-381 | the loop is the specified request, dropped descriptors included |
| `BankSwitch.RunningSwitchIsGlitchless` | MSM8974Pkg/Drivers/ClockDxe/clock-local.c:288-368 | while the clock runs, no register write changes a field of the selected bank, and it is switched only to a bank that is out of reset, counting and fully programmed |
| `BankSwitch.ProgrammingIsGlitchless` | MSM8974Pkg/Drivers/ClockDxe/clock-local.c:314-345 | the writes that program the idle bank leave the running one alone |
| `BankSwitch.ProgrammedCarries` | MSM8974Pkg/Drivers/ClockDxe/clock-local.c:314-345 | after them the bank carries the frequency: all of it when enabled, all but NS and with the counter off when not |
| `BankSwitch.SwitchResult` | MSM8974Pkg/Drivers/ClockDxe/clock-local.c:288-378 | on return the selected bank carries the frequency; the select bit moved exactly when the clock was running; then the old bank is stopped and parked, otherwise the other bank is untouched |
| `BankSwitch.SwitchIsClean` | MSM8974Pkg/Drivers/ClockDxe/clock-local.c:352-353 | toggling the select bit changes no field of either bank |
| `BankSwitch.WritesAreOrderly` | MSM8974Pkg/Drivers/ClockDxe/clock-local.c:314-368 | every setting of the programmed bank changes only while its reset is asserted, and the multiplexer of the old bank only when that bank is deselected and its counter stopped |
| `BankSwitch.ResetIsHeld` | MSM8974Pkg/Drivers/ClockDxe/clock-local.c:314-345 | the reset is held from the first to the last programming write |
| `BankSwitch.NothingElseChanges` | MSM8974Pkg/Drivers/ClockDxe/clock-local.c:288-368 | bits of neither bank are never changed, and of the old bank only the enable bit and the multiplexer are |
| `BankSwitch.BankedClk.ProgramBank` | MSM8974Pkg/Drivers/ClockDxe/clock-local.c:314-345 | the register writes in order |
| `BankSwitch.BankedClk.SwitchOver` | MSM8974Pkg/Drivers/ClockDxe/clock-local.c:351-368 | the register writes in order |
| `BankSwitch.BankedClk.SetRateMndBanked` | MSM8974Pkg/Drivers/ClockDxe/clock-local.c:288-378 | the sequence of register states is the specified one, and the masks follow the bank |
| `BitFields.UnpackIsArithmetic` | MSM8974Pkg/Include/Chipset/mmc_sdhci.h:211-221 | UNPACK_BITS equals floor(value / 2^start) mod 2^len for every field in the array, across words too |
| `BitFields.FieldAcross` | MSM8974Pkg/Include/Chipset/mmc_sdhci.h:216-220 | joining two words by shifts and an or is the arithmetic field |
| `BitFields.ReadR2` | MSM8974Pkg/Drivers/SdhciMMCHSDxe/sdhci.c:488-495 | the loop yields the response shifted left by eight bits, modulo the width |
| `BitFields.ShiftedField` | MSM8974Pkg/Drivers/SdhciMMCHSDxe/sdhci.c:477-495 | a field of the shifted response is the field eight bits lower in the registers |
| `BitFields.CidIsRightIff` | MSM8974Pkg/Drivers/SdhciMMCHSDxe/mmc_sdhci.c:281-326 | an SD card is decoded by section 5.2 of its specification; of an eMMC device (section 7.2 of JESD84-B51) of any extended CSD revision the month is right exactly when the two nibbles of the date are equal, the year exactly when they are equal and, above revision 4, at least 13, the OEM identifier exactly when the byte above it is zero, and the rest always |
| `BitFields.LaterYearsAreWrong` | MSM8974Pkg/Drivers/SdhciMMCHSDxe/mmc_sdhci.c:320-326 | of an eMMC device above revision 4 with a month of the calendar the year is never right |
| `BitFields.MarchIsDecodedAsJanuary` | MSM8974Pkg/Drivers/SdhciMMCHSDxe/mmc_sdhci.c:324-326 | up to revision 4: a register of March 1998 that is decoded as January 2000 |
| `BitFields.YearsAreDecodedTooEarly` | MSM8974Pkg/Drivers/SdhciMMCHSDxe/mmc_sdhci.c:324-326 | of revision 8: a register of June 2019 with equal nibbles that is decoded as June 2003 |
| `BitFields.DecodeCid` | MSM8974Pkg/Drivers/SdhciMMCHSDxe/mmc_sdhci.c:281-326 | the decoded fields are those of the SD specification, or those of JESD84-B51 for revision 0 but for the 16-bit OEM identifier and the exchanged month and year |
| `BitFields.DecodeName` | MSM8974Pkg/Drivers/SdhciMMCHSDxe/mmc_sdhci.c:298-320 | the product name, most significant byte first |
| `BitFields.ReadCid` | MSM8974Pkg/Drivers/SdhciMMCHSDxe/mmc_sdhci.c:437-470 | from response registers to these fields of the register the card holds |
| `Csd.CsdIsRightIff` | MSM8974Pkg/Drivers/SdhciMMCHSDxe/mmc_sdhci.c:75-228 | every field is decoded as section 7.3 of JESD84-B51 and section 5.3 of the SD specification say, but for the transfer rate: an SD card gets it from the eMMC table, which is right exactly for all codes but those of 2.5 and 5.0, and an eMMC device gets none |
| `Csd.DefaultSpeedIsWrong` | MSM8974Pkg/Drivers/SdhciMMCHSDxe/mmc_sdhci.c:56-65 | an SD card of 25 Mbit/s is decoded as one of 26 Mbit/s |
| `Csd.AccessTimeIsExactIff` | MSM8974Pkg/Drivers/SdhciMMCHSDxe/mmc_sdhci.c:115-117 | the access time in nanoseconds is exact unless its unit is one nanosecond and its mantissa has a fraction |
| `Csd.DecodeCsd` | MSM8974Pkg/Drivers/SdhciMMCHSDxe/mmc_sdhci.c:75-210 | the fields set in the uninitialised structure are the specified ones, for the three layouts of the register |
| `Csd.TaacNs` | MSM8974Pkg/Drivers/SdhciMMCHSDxe/mmc_sdhci.c:115-117 | the two tables give the access time of the standards, rounded down to nanoseconds |
| `Csd.TranSpeed` | MSM8974Pkg/Drivers/SdhciMMCHSDxe/mmc_sdhci.c:125-128 | the two tables give the transfer rate of the eMMC standard |
| `Csd.Capacity` | MSM8974Pkg/Drivers/SdhciMMCHSDxe/mmc_sdhci.c:135-228 | the capacity from the decoded fields is the specified one, for the four kinds of card |
| `Csd.LargeCapacityIsRightIff` | MSM8974Pkg/Drivers/SdhciMMCHSDxe/mmc_sdhci.c:212-228 | above 2 GB it is the sector count times 512 exactly below 2^31 sectors |
| `Csd.DecodeAndSaveCsd` | MSM8974Pkg/Drivers/SdhciMMCHSDxe/mmc_sdhci.c:75-250 | structure, capacity and group size of one register, for whatever the structure held before |
| `Csd.WpGroupSize` | MSM8974Pkg/Drivers/SdhciMMCHSDxe/mmc_sdhci.c:231-250 | the write-protect group size, with what the uninitialised structure held as a parameter |
| `Csd.GroupSizeIsTheCards` | MSM8974Pkg/Drivers/SdhciMMCHSDxe/mmc_sdhci.c:235-250 | an eMMC group size is determined by the card and zero exactly for a high-capacity unit of zero; an SD group size never is, as it depends on uninitialised fields |
| `Csd.SecCountIsExactIff` | MSM8974Pkg/Drivers/SdhciMMCHSDxe/mmc_sdhci.c:223-227 | the sector count is the little-endian number exactly below 2^31 sectors |
| `BitFields.ReverseStatus` | MSM8974Pkg/Drivers/SdhciMMCHSDxe/mmc_sdhci.c:1382-1383 | the in-place loop reverses and swaps the upper half and leaves the lower half as it was |
| `BitFields.ReversedWhere` | MSM8974Pkg/Drivers/SdhciMMCHSDxe/mmc_sdhci.c:1382-1383 | a word of the lower half is right only where the status mirrors itself |
| `BitFields.UpperFieldsAreRight` | MSM8974Pkg/Drivers/SdhciMMCHSDxe/mmc_sdhci.c:1382-1391 | every field of the upper half, and so both that are used, reads as from the fully reversed status |
| `BitFields.SwapTwice` | MSM8974Pkg/Include/Chipset/mmc_sdhci.h:223-228 | swapping the bytes twice is the identity |
| `KeyTiming.SessionRate` | MSM8974Pkg/Include/Library/KeypadDeviceHelperLib.h:83-166 | k >= 2 events of one press session take at least 500 + 200 (k - 1) ms, for every spacing of updates, clock wrap included |
| `KeyTiming.PowerSession` | MSM8974Pkg/Include/Library/KeypadDeviceHelperLib.h:108-150 | a power key session pushes at most one event, and exactly one when complete |
| `KeyTiming.EveryContextIsConsistent` | MSM8974Pkg/Include/Library/KeypadDeviceHelperLib.h:83-166 | repeat implies longpress, and a released key has neither, over every trace |
| `KeyTiming.SessionsBeginHere` | MSM8974Pkg/Include/Library/KeypadDeviceHelperLib.h:91-97 | a released key enters a session only in the fresh pressed state, silently |
| `KeyTiming.StepKeepsSession` | MSM8974Pkg/Include/Library/KeypadDeviceHelperLib.h:99-160 | one update keeps the bound between events and elapsed time |
| `KeyTiming.SilentAtFirst` | MSM8974Pkg/Include/Library/KeypadDeviceHelperLib.h:99-135 | up to half a second a held key is silent |
| `KeyTiming.ShortPress` | MSM8974Pkg/Include/Library/KeypadDeviceHelperLib.h:137-160 | a key let go within half a second pushes its own event, once |
| `KeyTiming.PowerLongPress` | MSM8974Pkg/Include/Library/KeypadDeviceHelperLib.h:108-133 | the power key reports with the first update that is half a second late, which combination it found, and then no more |
| `KeyTiming.OnlyOwnEvents` | MSM8974Pkg/Include/Library/KeypadDeviceHelperLib.h:99-160 | another key pushes only its own event |
| `KeyTiming.SilentWithPower` | MSM8974Pkg/Include/Library/KeypadDeviceHelperLib.h:124-133 | held together with the power key it is silent |
| `KeyTiming.HeldKeyRepeats` | MSM8974Pkg/Include/Library/KeypadDeviceHelperLib.h:99-133 | held alone it repeats: a lower bound on its events for updates at most g apart, next to the upper bound of SessionRate |
| `KeyTiming.ReleaseAfterLongPress` | MSM8974Pkg/Include/Library/KeypadDeviceHelperLib.h:144-151 | after a long press a key is released only when it has been up for 10 ms |
| `KeyTiming.KeyContext.UpdateKeyStatus` | MSM8974Pkg/Include/Library/KeypadDeviceHelperLib.h:83-166 | the updated context and pushed events are the specified ones |
| `KeyQueue.EveryRunIsExplained` | MSM8974Pkg/Drivers/KeypadDxe/KeypadTextIn.c:43-83 | over every run: the queue is the latest pushes, popped keys are pushed keys in order, and a key is lost only after N - 1 newer pushes |
| `KeyQueue.EfiKeyQueue.PushTail` | MSM8974Pkg/Drivers/KeypadDxe/KeypadTextIn.c:68-83 | the ring becomes the bounded sequence with the key appended, the oldest dropped when full |
| `KeyQueue.EfiKeyQueue.PopHead` | MSM8974Pkg/Drivers/KeypadDxe/KeypadTextIn.c:43-61 | returns and removes the oldest key, or reports an empty queue |
| `KeyQueue.EfiKeyQueue.IsEmpty` | MSM8974Pkg/Drivers/KeypadDxe/KeypadTextIn.c:26-33 | head meets tail exactly when there are no keys |
| `KeyQueue.EfiKeyQueue.ReadWorker` | MSM8974Pkg/Drivers/KeypadDxe/KeypadTextIn.c:143-171 | delivers what the timer handler pushes, then pops |
| `KeyQueue.EfiKeyQueue.ReadKeyStroke` | MSM8974Pkg/Drivers/KeypadDxe/KeypadTextIn.c:232-279 | the loop is the specified read, whatever is pushed meanwhile |
| `KeyQueue.ReadTakesFirstWholeKey` | MSM8974Pkg/Drivers/KeypadDxe/KeypadTextIn.c:252-279 | with nothing pushed meanwhile, exactly the prefix up to the first whole key is consumed and that key returned |
| `KeyQueue.ReadConserves` | MSM8974Pkg/Drivers/KeypadDxe/KeypadTextIn.c:232-279 | with pushes between the looks, as long as there is room: what was there and what came in is the skipped partial keys, the key delivered, and what stays |
| `KeyQueue.KeysDelivered` | MSM8974Pkg/Drivers/KeypadDxe/KeypadTextIn.c:262-275 | which keys are partial, and that Ctrl turns letters of either case into 1 to 26 and nothing else is changed |
| `KeyQueue.FirstWhole` | MSM8974Pkg/Drivers/KeypadDxe/KeypadTextIn.c:262-264 | all keys before it are partial and it is not |
| `KeyQueue.ControlLettersAgree` | MSM8974Pkg/Drivers/KeypadDxe/KeypadTextIn.c:269-275 | a control letter maps to 1 to 26 in either case |
| `ClockDivider.ClkSupply` | MSM8974Pkg/Drivers/SdhciMMCHSDxe/sdhci.c:145-175 | the least even divider below 2046 that is slow enough, or 2046; the register decodes to half of it, and is 0 for a full-speed clock |
| `ClockDivider.SplitDecodes` | MSM8974Pkg/Drivers/SdhciMMCHSDxe/sdhci.c:169-171 | the split 10-bit field decodes to the number put in |
| `ClockDivider.LastResort` | MSM8974Pkg/Drivers/SdhciMMCHSDxe/sdhci.c:155-159 | the divider found is slow enough exactly when 2046 would be |
| `ClockDivider.SlowEnoughIff` | MSM8974Pkg/Drivers/SdhciMMCHSDxe/sdhci.c:155-159 | a divider counts as slow enough exactly when the base clock is below the wanted clock plus one hertz times the divider |

## Left out

- ClkEnable: does not model the wrap-around of the 32-bit count, because that takes 2^32 unreleased users.
- Clock operations other than enable and disable (rates, resets, set_parent), the stub local_clk_disable and branch_clk_disable, and clock_lib2_rcg_set_rate, which enables a new source without releasing the old one: the tree invariant is for static parents.
- SendCommand: does not model the writes to the command registers; that the controller shows a transfer complete only after the data was moved is an assumption about the hardware.
- Blocks: the stop command and set-block-count commands are not part of the command log, because they move no data; what happens to the stop command is part of the answers.
- ExecuteTuning: does not model the extra CMD21 that is sent after a sweep in which every phase passed, nor the status polling between tuning commands, because neither changes host state.
- Register delays, cache maintenance, allocation failures, busy-waits that hardware answers, interrupts and TPL raising.
- CmdComplete: responses are not stored in the model of polling (the R1 responses are in Answers, the shift of R2 responses is in BitFields).
- Tetris drawing, the menu and the key loop; score and line counters are unbounded; rand is an arbitrary number.
- Text of the image tools: numbers printed in hexadecimal and parsed again stand for their values, files for their contents; the arguments of the first packing are given as parsed (with `--cmdline=-v` any text is possible), and the output directory of the unpacker has no leading dash and no directories of its own.
- Argparse: the rules are those of Python 3 up to 3.13; later versions take more spellings of negative numbers as values.
- Texts are sequences of Unicode characters: arguments that are not valid UTF-8, which Python turns into surrogates and fails to encode, are not modelled; SHA-1 is an arbitrary function; signing with gki_signing_key is not modelled.
- The table of decimal digits is that of Unicode 15 (Python 3.12 and 3.13).
- MakeBoot: when several exceptions are possible, which one is raised first is not modelled, and neither is what a file holds after an exception; the same goes for MakeVendorBoot, UnpackBootImage and UnpackVendorBootImage.
- UnpackBootImage: a seek to 2^63 or beyond is a short read here, where the operating system would refuse it.
- The pretty-printed output of unpack_bootimg, repack_bootimg and certify_bootimg, and the Rust header parser.
- CalcPeriod: the packing of the setting into the five control registers is not modelled; it is a short register recipe.
- FifoInit: the writes of FIFO address and size are not modelled; the two assertions of the source are preconditions.
- SetRateMndBanked: the microsecond wait between switching and stopping the old bank is not modelled; the registers of the two banks are distinct and their masks disjoint.
- UpdateKeyStatus: the scan code bitmaps are an arbitrary answer for the keys of combinations.
- ReadKeyStroke: key-notify delivery, and pushes by an unbounded timer, which could keep the loop from ending.
- ClkSupply: the wait for a stable clock and the enable bits are not modelled.
- DecodeAndSaveCsd: the size of the replay-protected partition and the reliable write count, which are copied out of the extended CSD (the two headers disagree about the unit of the former), are not modelled.
- The HS400 calibration, power and bus-width setup, and the identification sequence of cards.
