# A verified model of the stateful algorithms of this U-Boot port

This Dafny project models the byte, block and protocol algorithms under `src/hyq-u-boot/common/` and proves
what they keep, refine, undo or detect. Code that changes state step by step is a class whose methods are
proved against specification functions; the laws of these functions are the lemmas. One module stands for
one source file or one part of it.

| module | what it models |
|---|---|
| `Common` | the option type, 32-bit numbers, powers of two and division, shared by the others |
| `RedundantEnv` | the two-copy environment store in flash: save, boot and repair, cut or failing anywhere |
| `EnvRuns` | whole runs of that store: which environment a boot finds after any of these |
| `EnvBuffer` | the flat `name=value` environment buffer, edited in place |
| `EnvLifecycle` | both together: what a saved variable survives, what an overflow costs |
| `MtdParts` | parser and printer of the partition table |
| `MtdText` | partition tables as users write them: numbers, suffixes, the fill-up partition |
| `MtdValidate` | range and erase-block checks of partitions |
| `MtdList` | the sorted partition list and the number of the current partition |
| `Kermit` | Kermit packets on a damaged line, with checkpoint and rollback (Kermit Protocol Manual, 6th edition, section 6) |
| `KermitReceiver` | the code of the receiver, from the characters to the memory |
| `SRecord` | the S-record uploader |
| `FlashRanges` | address ranges to flash sectors over many banks |
| `OneNand` | block reads and writes that step over bad blocks, chained over calls |
| `Eeprom` | chunked EEPROM transfers against page wrap |
| `MemTest` | the memory test and the faults it detects |
| `SpdCrc` | the CRC-16 of DDR3 SPD contents (JEDEC Standard No. 21-C, section 4.1.2.11, Annex K, bytes 126-127) |
| `Bedbug` | assembling and disassembling instruction operands |
| `LogBuffer` | two ring layouts of the log buffer and the level tags |

`int`, `long` and `ulong` are 32 bits wide; wrap-around is written out. `crc32` is an arbitrary function.
Hardware is a small device model: NOR programming clears bits, an EEPROM's address counter wraps inside a
page, a memory cell may share its address or have stuck bits, a NAND block may be bad.

## What turned out to be different from what one would expect

Each of these is a lemma or a contract that states exactly when it happens.

* A save becomes visible with the write of its CRC, except that it is visible one write earlier when the new
  CRC equals the contents of an erased CRC field (`RedundantEnv.SaveIsAtomic`).
* When only the rest of the sector cannot be put back, `saveenv` returns 0 although it has not swapped the
  sectors (`RedundantEnv.EnvFlash.SaveEnv`; `RedundantEnv.RestoreFails` is such a call).
* A system that runs on the default environment can lose its first save again: if that save fails behind its
  commit point, the next one erases the only valid copy. Exactly such a save brings the default back
  (`EnvRuns.TidyStep`; an instance is `RedundantEnv.RetryLosesFirstSave`); a system that runs on a valid
  copy never falls back, whatever fails (`EnvRuns.NeverTheDefault`).
* If the repair of a boot cannot retire the older copy but activates the newer one, both are ACTIVE and later
  boots take `CONFIG_ENV_ADDR`, the older one (`EnvRuns.RepairErrors`, `EnvRuns.RepairErrorExample`; over whole
  runs `EnvRuns.RunsFollow`).
* An overflowing `setenv` leaves the CRC of the old contents behind; saving that and being cut in the next
  save loses the whole environment (`EnvLifecycle.OverflowThenSave`, `EnvLifecycle.SetAndSave`).
* A comment says that `ver` is read-only; the code overwrites it like any other variable
  (`EnvBuffer.SetLaws`, `EnvBuffer.VerIsOrdinary`).
* `part_del` can leave the current number on another partition or on none: while `num_parts` is the length of
  the list, exactly when the current partition precedes the deleted one at the same offset
  (`MtdList.Table.PartDel`, `MtdList.CurrentIsLost`).
* `part_sort_add` loses the current partition exactly when its eight-bit number or the 16-bit `num_parts` wraps
  (`MtdList.Table.PartSortAdd`, `MtdList.NumberWraps`).
* `generate_mtdparts` does not count its first nine characters against the buffer
  (`MtdParts.Partitions.GenerateMtdparts`, `MtdParts.TextWithoutRoom`).
* A flash range that ends at the top of the address space can go on at address 0
  (`FlashRanges.ChosenSectorsLieInside`, `FlashRanges.WrapExample`).
* A OneNAND read has no counterpart of the write's displacement, so a piece appended behind a bad block may be
  read from somewhere else; and a good block that refuses a write is passed over by the write but not by the
  read (`OneNand.ComesBackIff`, `OneNand.AppendedPieceMisread`, `OneNand.RefusedBlockMisread`). Without enough
  usable blocks neither loop ends.
* EEPROM pages above 256 bytes are crossed, because only the low byte of the offset is looked at
  (`Eeprom.ChunksFitPages`, `Eeprom.LargePageMisplaces`); a request that wraps around 2^32 transfers nothing
  and reports success (`Eeprom.Device.EepromWrite`).
* With a signed `char` a correct SPD CRC is refused when one of its bytes is 0x80 or more
  (`SpdCrc.Ddr3SpdCheck`, `SpdCrc.CorrectCrcRefused`).
* `log reset` does not reset the level, so the rest of an open line is tagged only if the messages themselves
  begin with a tag (`LogBuffer.EveryLineIsTagged`, `LogBuffer.ResetInsideLine`); a level tag that is split over
  two calls is logged differently (`LogBuffer.SplitMessage`, `LogBuffer.SplitTagExample`); `log show` shows
  nothing of a full buffer (`LogBuffer.LogBuffer.LogShow`).

## Model

| member | source | states |
|---|---|---|
| `RedundantEnv.EnvFlash.EnvInit` | src/hyq-u-boot/common/env_flash.c:95-136 | a boot takes the branch given by the two CRCs and flags, or leaves the address alone when none applies |
| `RedundantEnv.EnvFlash.Swap` | src/hyq-u-boot/common/env_flash.c:220-229 | the two sectors change roles |
| `RedundantEnv.EnvFlash.SaveEnv` | src/hyq-u-boot/common/env_flash.c:139-241 | nothing happens if the sectors stay protected or memory is short; else the flash holds exactly the prefix of the six-step plan that was performed; the roles change only when all of it was; 0 exactly for a complete save or an error of the last step, 1 for an error of the erase, the code of flash_write for one of the four writes |
| `RedundantEnv.SaveThenBoot` | src/hyq-u-boot/common/env_flash.c:139-241 | a save of a fresh image returns 0 if nothing fails, and whenever it returns 0 the next boot has that environment in RAM |
| `RedundantEnv.EnvFlash.Rewrite` | src/hyq-u-boot/common/env_flash.c:170-218 | how many steps of a save were performed, and the return code for each way to end |
| `RedundantEnv.EnvFlash.EnvRelocateSpec` | src/hyq-u-boot/common/env_flash.c:333-371 | the repairs are performed as far as the supply lasts, one that fails is skipped, and the selected copy is in RAM |
| `RedundantEnv.EnvFlash.SetDefaultEnv` | src/hyq-u-boot/common/env_common.c:208-223 | a default environment that fits replaces the RAM copy with a fresh CRC, one that does not changes nothing |
| `RedundantEnv.EnvFlash.EnvRelocate` | src/hyq-u-boot/common/env_common.c:225-271 | together with env_init it is one boot step of the machine, and the RAM copy is the selected copy, the default, or what it was if the default does not fit |
| `RedundantEnv.RecoverableBoots` | src/hyq-u-boot/common/env_flash.c:106-133 | in every flash content that a cut can leave, the copies are not both valid and ACTIVE, a branch applies, and it finds the winning copy |
| `RedundantEnv.ChooseSpelledOut` | src/hyq-u-boot/common/env_flash.c:106-133 | which copy env_init takes and which env_valid it sets, for the flag values themselves |
| `RedundantEnv.SaveContents` | src/hyq-u-boot/common/env_flash.c:182-205 | both sectors after any number of steps of a save, field by field |
| `RedundantEnv.SaveIsAtomic` | src/hyq-u-boot/common/env_flash.c:182-231 | a cut after any step leaves exactly the old or exactly the new environment, and the new one precisely from the commit point on; a complete save also restores the rest of the sectors |
| `RedundantEnv.StaleCrcLosesTheEnvironment` | src/hyq-u-boot/common/env_flash.c:182-205 | an image whose CRC is wrong changes nothing at a boot and makes the next interrupted save lose everything |
| `RedundantEnv.RetryAfterError` | src/hyq-u-boot/common/env_flash.c:182-241 | a save that fails with a device error and is retried with a cut leaves the retried, the failed or the older environment, exactly which, never none |
| `RedundantEnv.SaveFrom` | src/hyq-u-boot/common/env_flash.c:182-231 | one save, cut or failing anywhere, from any state that failing saves can leave: what a boot finds and what the system works from |
| `RedundantEnv.SaveOfAnyImage` | src/hyq-u-boot/common/env_flash.c:182-205 | a save of any image, its CRC right or wrong, stopped anywhere: the new bytes are found exactly if they match what the CRC field then holds |
| `RedundantEnv.RetryLosesFirstSave` | src/hyq-u-boot/common/env_flash.c:182-205 | a failed first save and a cut retry leave no valid copy |
| `RedundantEnv.ServingSelects` | src/hyq-u-boot/common/env_flash.c:109-133 | a boot finds the copy that is not in use exactly if it is newer or the only one |
| `RedundantEnv.RepairIsIdempotent` | src/hyq-u-boot/common/env_flash.c:333-371 | the repairs may be cut anywhere and repeated: the same copy stays selected, and at the end the system uses it and the next boot finds it |
| `EnvRuns.RepairErrors` | src/hyq-u-boot/common/env_flash.c:333-371 | device errors in the repairs keep the selection, exactly unless the newer copy at the second address is activated and the older one not retired |
| `EnvRuns.RepairErrorExample` | src/hyq-u-boot/common/env_flash.c:333-371 | a committed save that such a boot undoes |
| `EnvRuns.StepKeeps` | src/hyq-u-boot/common/env_flash.c:95-241 | every boot, power cut and save, failing ones included, keeps the invariant and changes what is in use and what a boot would find as the memory says |
| `EnvRuns.RunsRefineTheMemory` | src/hyq-u-boot/common/env_flash.c:95-241 | over every run with any failing saves the pair of sectors refines a memory of two values, and every boot takes a branch |
| `EnvRuns.RunsRefineTheRegister` | src/hyq-u-boot/common/env_flash.c:95-241 | over every run without device errors it refines one variable set at commit points, and the copies are never both valid and ACTIVE |
| `EnvRuns.TidyStep` | src/hyq-u-boot/common/env_flash.c:95-371 | whatever fails, a step loses the last valid copy exactly if it is a save from the default environment that stops between its erase and its commit point |
| `EnvRuns.NeverTheDefault` | src/hyq-u-boot/common/env_flash.c:95-371 | over every run with any device errors a system that boots from or runs on a valid copy keeps one, and what a boot finds was there before or has been saved |
| `EnvRuns.RankDecides` | src/hyq-u-boot/common/env_flash.c:106-133 | with flags that the code writes env_init takes the copy of higher rank, fresh before active before obsolete, and the first of two equal ones |
| `EnvRuns.StepFollows` | src/hyq-u-boot/common/env_flash.c:95-371 | every boot, save and cut, with device errors in any operation, changes the two slots as specified |
| `EnvRuns.RunsFollow` | src/hyq-u-boot/common/env_flash.c:95-371 | over every run with any device errors, in saves and in repairs, a boot finds exactly what the two slots say |
| `RedundantEnv.RestoreFails` | src/hyq-u-boot/common/env_flash.c:207-218 | a save that returns 0 without swapping the sectors |
| `EnvRuns.BlankFlashIsSound` | src/hyq-u-boot/common/env_flash.c:95-133 | a blank flash is a starting state |
| `EnvRuns.TidySelects` | src/hyq-u-boot/common/env_flash.c:106-133 | with flags that the code writes a branch always applies, and the default is taken exactly if no copy is valid |
| `EnvBuffer.DecodeImage` | src/hyq-u-boot/common/cmd_nvedit.c:200-206 | whatever follows the double NUL, the buffer's bytes determine the list of variables |
| `EnvBuffer.NoInnerDoubleNul` | src/hyq-u-boot/common/cmd_nvedit.c:323-324 | two NULs in a row occur only at the end of the list |
| `EnvBuffer.WordsAreJoined` | src/hyq-u-boot/common/cmd_nvedit.c:340-348 | what the copy loop adds is '=' and the arguments separated by single spaces |
| `EnvBuffer.SetLaws` | src/hyq-u-boot/common/cmd_nvedit.c:176-360 | setenv keeps all other variables with value and order, gives the name the joined words, deletes it without words, and on overflow, exactly when entry and NULs do not fit, loses only that name |
| `EnvBuffer.SetSpelledOut` | src/hyq-u-boot/common/cmd_nvedit.c:176-360 | for each name, number of words and answer of the hardware: exactly when setenv is turned down, when it deletes, when it defines, and when the entry does not fit |
| `EnvBuffer.VerIsOrdinary` | src/hyq-u-boot/common/cmd_nvedit.c:242-264 | `ver` is overwritten like any other variable |
| `EnvBuffer.WriteOnceForever` | src/hyq-u-boot/common/cmd_nvedit.c:242-264 | over any run of commands serial# and ethaddr keep their first value |
| `EnvBuffer.EnvBuffer.EnvMatch` | src/hyq-u-boot/common/cmd_nvedit.c:617-626 | where the value of an entry starts if the name, up to '=', is that of the entry, else -1 |
| `EnvBuffer.EnvBuffer.GetEnv` | src/hyq-u-boot/common/cmd_nvedit.c:542-562 | the index of the value's string, none exactly if the name is absent |
| `EnvBuffer.EnvBuffer.Locate` | src/hyq-u-boot/common/cmd_nvedit.c:200-206 | the first entry with that name and its end |
| `EnvBuffer.EnvBuffer.ShiftDown` | src/hyq-u-boot/common/cmd_nvedit.c:304-311 | the bytes up to the first double NUL move down and nothing before them changes |
| `EnvBuffer.EnvBuffer.DeleteEntry` | src/hyq-u-boot/common/cmd_nvedit.c:297-311 | exactly that entry is gone and the buffer stays well-formed |
| `EnvBuffer.EnvBuffer.FindEnd` | src/hyq-u-boot/common/cmd_nvedit.c:323-326 | where the next entry goes, also in an empty buffer |
| `EnvBuffer.EnvBuffer.Length` | src/hyq-u-boot/common/cmd_nvedit.c:331-335 | the space a new entry takes, with both NULs |
| `EnvBuffer.EnvBuffer.WriteEntry` | src/hyq-u-boot/common/cmd_nvedit.c:340-351 | entry and two NULs are written inside the buffer and nothing before them changes |
| `EnvBuffer.EnvBuffer.AppendEntry` | src/hyq-u-boot/common/cmd_nvedit.c:320-351 | the entry is appended exactly if it fits, else no byte changes |
| `EnvBuffer.EnvBuffer.Replace` | src/hyq-u-boot/common/cmd_nvedit.c:297-354 | the old entry is deleted and the new one appended if it fits, with the CRC fresh exactly on success |
| `EnvBuffer.EnvBuffer.SetEnv` | src/hyq-u-boot/common/cmd_nvedit.c:176-354 | return code and variables are those of the list operation; the CRC is fresh after success and untouched after a failure |
| `EnvLifecycle.MemoryKeeps` | src/hyq-u-boot/common/env_flash.c:139-241 | a save that is complete or cut behind its commit point is remembered over all events up to the next such save |
| `EnvLifecycle.SavedVariablesSurvive` | src/hyq-u-boot/common/cmd_nvedit.c:591-599 | variables set and saved are found by getenv after any later run of boots, cuts and uncommitted or failing saves |
| `EnvLifecycle.OverflowThenSave` | src/hyq-u-boot/common/cmd_nvedit.c:336-339 | what a save after an overflow leaves for a boot, exactly when the stale CRC is wrong |
| `EnvLifecycle.SetAndSave` | src/hyq-u-boot/common/cmd_nvedit.c:591-599 | one setenv and one saveenv as calls on a system with a valid copy: which bytes a boot finds and which variables these are, for each outcome of both |
| `Kermit.CheckChar` | src/hyq-u-boot/common/cmd_load.c:568-576 | the block check is never a control character |
| `Kermit.RunConcat` | src/hyq-u-boot/common/cmd_load.c:819-957 | reading in pieces is reading the whole |
| `Kermit.UnquoteConcat` | src/hyq-u-boot/common/cmd_load.c:675-690 | unquoting goes over packet borders, with an open quote carried along |
| `Kermit.FeedUnquotes` | src/hyq-u-boot/common/cmd_load.c:675-690 | storing characters one by one stores their unquoted form |
| `Kermit.KTransBits` | src/hyq-u-boot/common/cmd_load.c:558-566 | which bits of a quoted character are changed |
| `Kermit.QuoteRoundTrip` | src/hyq-u-boot/common/cmd_load.c:558-690 | whatever bytes a sender has control-quoted with any quote character are unquoted to the same bytes |
| `Kermit.MemoryHoldsTheSurvivors` | src/hyq-u-boot/common/cmd_load.c:871-950 | for every sequence of attempts memory and checkpoint hold the unquoted data of exactly the packets accepted and not rolled back, in order |
| `Kermit.EveryAttemptIsAnswered` | src/hyq-u-boot/common/cmd_load.c:932-957 | each attempt is answered once, with an acknowledgement, the parameters or a refusal, and with which number |
| `Kermit.LastAttempt` | src/hyq-u-boot/common/cmd_load.c:871-950 | one more attempt, good or bad, keeps that |
| `Kermit.AttemptEffect` | src/hyq-u-boot/common/cmd_load.c:871-950 | what one attempt does relative to its checkpoint |
| `Kermit.TriesPrefix` | src/hyq-u-boot/common/cmd_load.c:871-950 | any number of damaged or repeated tries of one packet leave its data at most once |
| `Kermit.ExactlyOnce` | src/hyq-u-boot/common/cmd_load.c:785-959 | for tries that carry the number of their packet memory holds the payload of each data packet once and in order |
| `Kermit.OneArrival` | src/hyq-u-boot/common/cmd_load.c:838-957 | one transmission whose damage the checks notice is at most one attempt, accepted only with its content |
| `Kermit.CopiesAreTries` | src/hyq-u-boot/common/cmd_load.c:838-957 | any number of lost, damaged and noisy copies of a frame, the last one intact, are tries of its packet |
| `Kermit.StreamIsReceived` | src/hyq-u-boot/common/cmd_load.c:785-959 | a character stream of such copies, from Send-Initiate to BREAK, is received as the unquoted payload, once and in order |
| `KermitReceiver.LoadSerialBin` | src/hyq-u-boot/common/cmd_load.c:520-547 | for such a stream, and whatever follows it, the call ends with the size of the data, and the memory at the address holds exactly it: the file itself if the packets carry a quoted file |
| `KermitReceiver.CarriageReturn` | src/hyq-u-boot/common/cmd_load.c:785-959 | a whole session given character by character |
| `Kermit.RunData` | src/hyq-u-boot/common/cmd_load.c:915-931 | the data loop takes exactly the announced number of characters |
| `Kermit.FrameIsAccepted` | src/hyq-u-boot/common/cmd_load.c:849-957 | an intact frame, short or long, is one accepted attempt whatever came before |
| `Kermit.NoiseIsIgnored` | src/hyq-u-boot/common/cmd_load.c:838-847 | characters other than START and ^C between packets change nothing |
| `KermitReceiver.Receiver.KDataSave` | src/hyq-u-boot/common/cmd_load.c:663-667 | the checkpoint is the present state |
| `KermitReceiver.Receiver.KDataRestore` | src/hyq-u-boot/common/cmd_load.c:669-673 | the state is that of the checkpoint |
| `KermitReceiver.Receiver.BinDataChar` | src/hyq-u-boot/common/cmd_load.c:638-645 | one byte is added behind the stored ones |
| `KermitReceiver.Receiver.KDataChar` | src/hyq-u-boot/common/cmd_load.c:675-690 | one character is stored, translated or remembered as a quote |
| `KermitReceiver.Receiver.HandleSendPacket` | src/hyq-u-boot/common/cmd_load.c:698-782 | the quote character is the sixth parameter or '#', and the packet is acknowledged |
| `KermitReceiver.Receiver.GetSequence` | src/hyq-u-boot/common/cmd_load.c:849-881 | length and sequence characters, with the rollback of a repeated number |
| `KermitReceiver.Receiver.GetType` | src/hyq-u-boot/common/cmd_load.c:883-913 | type character and the choice of the extended length |
| `KermitReceiver.Receiver.GetLongLength` | src/hyq-u-boot/common/cmd_load.c:893-912 | extended length and header check |
| `KermitReceiver.Receiver.GetData` | src/hyq-u-boot/common/cmd_load.c:915-931 | data characters go to memory or to the parameters |
| `KermitReceiver.Receiver.GetCheck` | src/hyq-u-boot/common/cmd_load.c:932-940 | block check and end character decide whether the packet is good |
| `KermitReceiver.Receiver.Finish` | src/hyq-u-boot/common/cmd_load.c:940-956 | a bad packet is rolled back and refused, a good one acknowledged |
| `KermitReceiver.Receiver.NextPacket` | src/hyq-u-boot/common/cmd_load.c:824-957 | one turn of the main loop leaves the state of one attempt more |
| `KermitReceiver.Receiver.KRecv` | src/hyq-u-boot/common/cmd_load.c:785-959 | when it ends with a size, state and memory are those of the attempts that were read |
| `SRecord.HexRoundTrip` | src/hyq-u-boot/common/cmd_load.c:344-352 | the hexadecimal text of any bytes reads back as them |
| `SRecord.ByteSum` | src/hyq-u-boot/common/cmd_load.c:361-371 | length, address, data and checksum add up to 0xff modulo 256 |
| `SRecord.RecordRoundTrip` | src/hyq-u-boot/common/cmd_load.c:373-374 | an independent reader decodes a written record to its address and data |
| `SRecord.RecordsHoldTheData` | src/hyq-u-boot/common/cmd_load.c:345-384 | records have 1 to 16 bytes, follow one another around the address space, and together are the data |
| `SRecord.OneByteUpload` | src/hyq-u-boot/common/cmd_load.c:332-389 | the upload of one byte, character by character |
| `SRecord.RecordText` | src/hyq-u-boot/common/cmd_load.c:361-374 | the collected checksum and text are those of the record |
| `SRecord.UploadIsReadBack` | src/hyq-u-boot/common/cmd_load.c:332-389 | a reader of the whole upload gets every byte at its address, for every address and count |
| `SRecord.LinesAreTheUpload` | src/hyq-u-boot/common/cmd_load.c:332-389 | the lines sent, joined, are the upload |
| `SRecord.AddBytes` | src/hyq-u-boot/common/cmd_load.c:363-368 | the low bytes of a number are added to the checksum |
| `SRecord.SendRecord` | src/hyq-u-boot/common/cmd_load.c:356-376 | one record with its checksum is sent |
| `SRecord.SaveSerial` | src/hyq-u-boot/common/cmd_load.c:332-389 | all lines are sent in order, or those up to the first one interrupted, and then -1 is returned |
| `MtdParts.MemsizeRoundTrip` | src/hyq-u-boot/common/cmd_mtdparts.c:184-231 | memsize_parse undoes memsize_format for every 32-bit number |
| `MtdParts.NumberRoundTrip` | src/hyq-u-boot/lib_generic/vsprintf.c:50-75 | simple_strtoul reads back what %u prints, and stops behind it |
| `MtdParts.NameRoundTrip` | src/hyq-u-boot/common/cmd_mtdparts.c:619-636 | a name without ')' is read back |
| `MtdParts.RangeRoundTrip` | src/hyq-u-boot/common/cmd_mtdparts.c:598-617 | size and offset are read back, the offset only when it was printed |
| `MtdParts.PartRoundTrip` | src/hyq-u-boot/common/cmd_mtdparts.c:584-692 | part_parse undoes what is printed for one partition |
| `MtdParts.PartsRoundTrip` | src/hyq-u-boot/common/cmd_mtdparts.c:871-899 | the partition loop of device_parse rebuilds a device's partitions, with offsets left out where they follow on |
| `MtdParts.SortAllAscending` | src/hyq-u-boot/common/cmd_mtdparts.c:937-945 | adding partitions with ascending offsets keeps their order |
| `MtdParts.DeviceRoundTrip` | src/hyq-u-boot/common/cmd_mtdparts.c:826-951 | device_parse rebuilds a device from its text |
| `MtdParts.DevicesRoundTrip` | src/hyq-u-boot/common/cmd_mtdparts.c:1387-1404 | the loop over devices rebuilds the list |
| `MtdParts.TableRoundTrip` | src/hyq-u-boot/common/cmd_mtdparts.c:1067-1184 | parsing what generate_mtdparts prints rebuilds devices, sizes, offsets, flags and names |
| `MtdParts.SortAddMembers` | src/hyq-u-boot/common/cmd_mtdparts.c:499-553 | part_sort_add loses nothing and adds only the new partition |
| `MtdParts.SortAddSorted` | src/hyq-u-boot/common/cmd_mtdparts.c:499-553 | it keeps the list sorted with at most one partition at offset 0 |
| `MtdParts.ParsedPartsAreChecked` | src/hyq-u-boot/common/cmd_mtdparts.c:878-899 | every partition that device_parse accepts has been validated at the offset and size it gets |
| `MtdParts.ParsedTableIsInOrder` | src/hyq-u-boot/common/cmd_mtdparts.c:1364-1411 | whatever text is accepted, each device has validated partitions in order, at most one at offset 0 |
| `MtdParts.Partitions.IdFindByMtdId` | src/hyq-u-boot/common/cmd_mtdparts.c:996-1017 | the first id with that name |
| `MtdParts.Partitions.PartsParse` | src/hyq-u-boot/common/cmd_mtdparts.c:878-899 | the loop computes the parser's specification |
| `MtdParts.Partitions.DeviceParse` | src/hyq-u-boot/common/cmd_mtdparts.c:826-951 | device_parse computes the parser's specification, with all its error cases |
| `MtdParts.Partitions.ParseMtdparts` | src/hyq-u-boot/common/cmd_mtdparts.c:1364-1411 | success exactly when the specification parses the text, else no device is left |
| `MtdParts.Partitions.GeneratePart` | src/hyq-u-boot/common/cmd_mtdparts.c:1103-1163 | one partition is printed if it fits |
| `MtdParts.Partitions.GenerateParts` | src/hyq-u-boot/common/cmd_mtdparts.c:1100-1165 | the partitions of a device are printed if they fit |
| `MtdParts.Partitions.GenerateMtdparts` | src/hyq-u-boot/common/cmd_mtdparts.c:1067-1184 | the printed text, and the exact buffer size from which it succeeds |
| `MtdParts.TextWithoutRoom` | src/hyq-u-boot/common/cmd_mtdparts.c:1067-1184 | a text accepted for a buffer that cannot hold it |
| `MtdText.DigitTable` | src/hyq-u-boot/lib_generic/vsprintf.c:50-75 | the digits of either case, and that all other characters are none |
| `MtdText.Numbers` | src/hyq-u-boot/lib_generic/vsprintf.c:50-75 | decimal, octal and hexadecimal numbers are read to their value modulo 2^32, up to the first character that is no digit |
| `MtdText.Suffixes` | src/hyq-u-boot/common/cmd_mtdparts.c:184-204 | what each suffix letter multiplies by |
| `MtdText.OptionsParse` | src/hyq-u-boot/common/cmd_mtdparts.c:638-656 | behind size, offset and name: the flag, what may follow, and the least size |
| `MtdText.FillUp` | src/hyq-u-boot/common/cmd_mtdparts.c:598-617 | a partition `-` gets exactly the rest of the device from its offset on, if that is not empty and cuts no block; otherwise it is refused |
| `MtdText.NothingBehindFillUp` | src/hyq-u-boot/common/cmd_mtdparts.c:646-651 | a text with a partition behind a fill-up one is refused |
| `MtdText.FirstPart` | src/hyq-u-boot/common/cmd_mtdparts.c:878-899 | a partition in front of others; one without an offset starts where the last one ended |
| `MtdText.FillUpBehind` | src/hyq-u-boot/common/cmd_mtdparts.c:878-899 | a fill-up partition behind any others |
| `MtdText.FillUpTable` | src/hyq-u-boot/common/cmd_mtdparts.c:1364-1411 | the table of a device that ends in a fill-up partition |
| `MtdText.NameSaysRange` | src/hyq-u-boot/common/cmd_mtdparts.c:677-681 | the generated name gives size and offset in eight hexadecimal digits each |
| `MtdText.DocumentedTable` | src/hyq-u-boot/common/cmd_mtdparts.c:79-83 | the example of the documentation, parsed on 16 MiB of flash |
| `MtdValidate.Scan` | src/hyq-u-boot/common/cmd_mtdparts.c:346-374 | whether an address starts an erase block of some region, and where the scan ends |
| `MtdValidate.PartValidateEraseblock` | src/hyq-u-boot/common/cmd_mtdparts.c:308-385 | accepted exactly if offset and end are block boundaries, modulo 2^32 as computed |
| `MtdValidate.PartValidate` | src/hyq-u-boot/common/cmd_mtdparts.c:398-425 | the resulting size, and success exactly under the 32-bit checks |
| `MtdValidate.AcceptsExactlyWholeBlocks` | src/hyq-u-boot/common/cmd_mtdparts.c:308-425 | with several contiguous regions exactly the non-empty ranges inside the device that cut no erase block are accepted, without any wrap |
| `MtdValidate.AcceptsExactlyWholeUniform` | src/hyq-u-boot/common/cmd_mtdparts.c:324-340 | the same for uniform blocks |
| `MtdValidate.BlockOf` | src/hyq-u-boot/common/cmd_mtdparts.c:346-374 | contiguous regions leave no address without a block |
| `MtdValidate.RemainingSpace` | src/hyq-u-boot/common/cmd_mtdparts.c:400-407 | when asking for the remaining space is accepted |
| `MtdList.InsertKeepsOrder` | src/hyq-u-boot/common/cmd_mtdparts.c:499-553 | inserting at the place found keeps the list sorted and distinct, and one partition at offset 0 |
| `MtdList.NumberAfterInsert` | src/hyq-u-boot/common/cmd_mtdparts.c:533-541 | comparing offsets tells whether an entry has moved up |
| `MtdList.DeleteKeepsOrder` | src/hyq-u-boot/common/cmd_mtdparts.c:434-471 | deleting keeps the list sorted and distinct |
| `MtdList.NumberAfterDelete` | src/hyq-u-boot/common/cmd_mtdparts.c:450-456 | going one down as offsets suggest finds the entry again exactly unless it precedes the deleted one at the same offset |
| `MtdList.Surviving` | src/hyq-u-boot/common/cmd_mtdparts.c:450-463 | the same with num_parts, which bounds the number |
| `MtdList.Table.MtdPartInfo` | src/hyq-u-boot/common/cmd_mtdparts.c:1668-1700 | the partition with that number, if there is one |
| `MtdList.Following` | src/hyq-u-boot/common/cmd_mtdparts.c:533-541 | the number that follows an insertion finds the same entry exactly unless it, or num_parts, wraps |
| `MtdList.Table.PartSortAdd` | src/hyq-u-boot/common/cmd_mtdparts.c:499-553 | where the partition goes, when it is refused, the new current number, and exactly when the current partition stays the same one |
| `MtdList.Table.Link` | src/hyq-u-boot/common/cmd_mtdparts.c:533-552 | the list with the partition linked in, the new number, and exactly when the current partition is kept |
| `MtdList.Table.PartDel` | src/hyq-u-boot/common/cmd_mtdparts.c:434-471 | the list without the partition, the new current number, and exactly when the current one is kept |
| `MtdList.Table.Remove` | src/hyq-u-boot/common/cmd_mtdparts.c:444-463 | the same for a list of several |
| `MtdList.CurrentIsLost` | src/hyq-u-boot/common/cmd_mtdparts.c:434-471 | a table whose current partition is lost by deleting another one |
| `MtdList.NumberWraps` | src/hyq-u-boot/common/cmd_mtdparts.c:499-553 | a table of 256 partitions whose current one is replaced by adding one |
| `MtdList.Table.Renumber` | src/hyq-u-boot/common/cmd_mtdparts.c:444-459 | how the current number follows a deletion |
| `MtdList.Table.DeviceDel` | src/hyq-u-boot/common/cmd_mtdparts.c:747-769 | the device is gone, the others keep their order, and the current device changes only if it was this one |
| `MtdList.Table.DeviceAdd` | src/hyq-u-boot/common/cmd_mtdparts.c:799-815 | the device is last, and current if it is the only one |
| `FlashRanges.TakeFacts` | src/hyq-u-boot/common/cmd_flash.c:237-273 | a bank's choice begins at the range's start and ends at its end or at the end of the bank |
| `FlashRanges.SkipFacts` | src/hyq-u-boot/common/cmd_flash.c:274-283 | a bank passed over has no sector boundary in the way, and the range starts outside it or at its last address |
| `FlashRanges.FillFits` | src/hyq-u-boot/common/cmd_flash.c:206-287 | every chosen range names sectors of its own bank |
| `FlashRanges.ChosenSectorsLieInside` | src/hyq-u-boot/common/cmd_flash.c:206-287 | on success all chosen sectors lie inside the range, exactly unless it ends at the top of the address space, starts above 0, and a bank at 0 follows one at the top |
| `FlashRanges.WrapExample` | src/hyq-u-boot/common/cmd_flash.c:272-272 | two banks for which sectors outside the range are chosen |
| `FlashRanges.ReachIsAligned` | src/hyq-u-boot/common/cmd_flash.c:206-287 | what is chosen begins and ends with whole sectors |
| `FlashRanges.AcceptedIffAligned` | src/hyq-u-boot/common/cmd_flash.c:206-287 | in ascending banks a range that is all flash is accepted exactly if it consists of whole sectors |
| `FlashRanges.ChosenByReach` | src/hyq-u-boot/common/cmd_flash.c:206-287 | a sector is chosen exactly if it lies between the start and the point reached |
| `FlashRanges.ChosenIsTheRange` | src/hyq-u-boot/common/cmd_flash.c:206-287 | an accepted request chose exactly its range if, and only if, all of the range is flash |
| `FlashRanges.CountIsNumber` | src/hyq-u-boot/common/cmd_flash.c:273-273 | s_count is the number of chosen sectors |
| `FlashRanges.PlannedIffReached` | src/hyq-u-boot/common/cmd_flash.c:435-459 | s_count is positive exactly if the walk chose something |
| `FlashRanges.RangeIsCarriedOut` | src/hyq-u-boot/common/cmd_flash.c:422-460 | with ascending banks, a request all of which is flash is carried out exactly if it is aligned, on its sectors and no others |
| `FlashRanges.LengthFormIsCarriedOut` | src/hyq-u-boot/common/cmd_flash.c:148-204 | `start +length` over flash, rounded up to the sector of the last byte, is carried out exactly if it starts with a sector |
| `FlashRanges.Scan` | src/hyq-u-boot/common/cmd_flash.c:237-253 | the sectors that start and end at the two addresses |
| `FlashRanges.VisitBank` | src/hyq-u-boot/common/cmd_flash.c:229-283 | one bank: error, nothing, or first and last sector and the new start |
| `FlashRanges.FlashFillSectRanges` | src/hyq-u-boot/common/cmd_flash.c:206-287 | return code, arrays and count are those of the specified walk |
| `FlashRanges.FlashSectRoundb` | src/hyq-u-boot/common/cmd_flash.c:110-146 | the address becomes the end of a sector around it; an error exactly if there is none |
| `FlashRanges.Flash.FlashSectErase` | src/hyq-u-boot/common/cmd_flash.c:422-460 | exactly the chosen sectors in front of the first bank that refuses are erased, and all of them exactly on success; an error of the plan erases nothing |
| `OneNand.PlacesAreTheFirst` | src/hyq-u-boot/common/cmd_onenand.c:89-112 | the blocks used are the first good ones, in order, with none left out |
| `OneNand.SamePlaces` | src/hyq-u-boot/common/cmd_onenand.c:89-159 | two starting points, for reading and for writing, lead to the same blocks exactly if up to the last block written exactly the written blocks can be read |
| `OneNand.ChainedStart` | src/hyq-u-boot/common/cmd_onenand.c:129-136 | the next write at the end of this one starts right behind the last block used |
| `OneNand.TwoAsOne` | src/hyq-u-boot/common/cmd_onenand.c:119-162 | two consecutive block-multiple writes equal one write of both |
| `OneNand.ManyAsOne` | src/hyq-u-boot/common/cmd_onenand.c:119-162 | however data is cut into consecutive block-multiple writes, chip and static variables are those of one write |
| `OneNand.ReadAfterWrite` | src/hyq-u-boot/common/cmd_onenand.c:72-162 | a read goes to the blocks written exactly if no other block on the way can be read and all written ones can, and then returns the data |
| `OneNand.ComesBackIff` | src/hyq-u-boot/common/cmd_onenand.c:72-162 | whatever is written is read back exactly under that condition |
| `OneNand.ReadBackWhole` | src/hyq-u-boot/common/cmd_onenand.c:72-162 | data appended piece by piece is read back whole from where the first piece was requested |
| `OneNand.AppendedPieceMisread` | src/hyq-u-boot/common/cmd_onenand.c:72-162 | a chip and two writes after which reading the second piece returns the first |
| `OneNand.RefusedBlockMisread` | src/hyq-u-boot/common/cmd_onenand.c:72-162 | a chip with a block that refuses writes but not reads, and a write that is not read back |
| `OneNand.WriteThenRead` | src/hyq-u-boot/common/cmd_onenand.c:72-162 | a write and a read as calls: the data comes back under that condition |
| `OneNand.OneNand.OnenandBlockWrite` | src/hyq-u-boot/common/cmd_onenand.c:119-162 | block i of the buffer is in the i-th usable block, with next_ofs and skip_ofs as specified; it does not end exactly if there are too few usable blocks, once all of those are written |
| `OneNand.OneNand.OnenandBlockRead` | src/hyq-u-boot/common/cmd_onenand.c:72-117 | the contents of the first usable blocks from the offset on; it does not end exactly if there are too few |
| `Eeprom.WriteLen` | src/hyq-u-boot/common/cmd_eeprom.c:257-273 | every write chunk is non-empty and at most I2C_RXTX_LEN long |
| `Eeprom.ReadLen` | src/hyq-u-boot/common/cmd_eeprom.c:164-177 | every read chunk is non-empty, at most I2C_RXTX_LEN long and inside one 256-byte block |
| `Eeprom.AddressSent` | src/hyq-u-boot/common/cmd_eeprom.c:143-162 | which cell the chip address and the address bytes select |
| `Eeprom.ChunksFitPages` | src/hyq-u-boot/common/cmd_eeprom.c:259-273 | no write chunk crosses a page, exactly if pages have at most 256 bytes or transfers one byte |
| `Eeprom.LargePageMisplaces` | src/hyq-u-boot/common/cmd_eeprom.c:259-272 | with larger pages the second of two bytes lands at the start of the page |
| `Eeprom.BurstIsLinear` | src/hyq-u-boot/common/cmd_eeprom.c:218-221 | inside a page the wrapping counter makes no difference |
| `Eeprom.ChunkedIsLinear` | src/hyq-u-boot/common/cmd_eeprom.c:201-370 | the chunked write is one linear write |
| `Eeprom.ChunkedGetIsLinear` | src/hyq-u-boot/common/cmd_eeprom.c:127-187 | the chunked read is one linear read, whatever the page size |
| `Eeprom.ReadsBackIffCellsDiffer` | src/hyq-u-boot/common/cmd_eeprom.c:143-162 | every data is read back exactly if the range selects different cells of the device |
| `Eeprom.BlockBitsDiffer` | src/hyq-u-boot/common/cmd_eeprom.c:143-162 | which holds when the block numbers share no bit with the device address |
| `Eeprom.WrittenIsRead` | src/hyq-u-boot/common/cmd_eeprom.c:127-370 | what eeprom_write stored, eeprom_read returns |
| `Eeprom.Device.EepromWrite` | src/hyq-u-boot/common/cmd_eeprom.c:201-370 | the memory is that of the chunked write; 1 is returned exactly if a chunk was refused; a request that wraps does nothing |
| `Eeprom.Device.EepromRead` | src/hyq-u-boot/common/cmd_eeprom.c:127-187 | the buffer is that of the chunked read, the rest of it untouched; 1 exactly if a chunk was refused |
| `MemTest.ComplementBits` | src/hyq-u-boot/common/cmd_mem.c:937-937 | a word and its complement differ in every bit |
| `MemTest.NextPower` | src/hyq-u-boot/common/cmd_mem.c:850-850 | doubling skips no power of two |
| `MemTest.Memory.StuckIsSeen` | src/hyq-u-boot/common/cmd_mem.c:923-959 | a cell that gives back a word and its complement has no stuck bit |
| `MemTest.Memory.FirstCheck` | src/hyq-u-boot/common/cmd_mem.c:923-939 | what one read of the first check tells about aliases and stuck bits |
| `MemTest.Memory.CheckAndInvert` | src/hyq-u-boot/common/cmd_mem.c:923-939 | no error exactly without aliases on sound cells |
| `MemTest.Memory.CheckAndClear` | src/hyq-u-boot/common/cmd_mem.c:944-959 | the second check reads the complements |
| `MemTest.Memory.March` | src/hyq-u-boot/common/cmd_mem.c:910-959 | no error exactly if all words have cells of their own and every cell is sound |
| `MemTest.Memory.TestValue` | src/hyq-u-boot/common/cmd_mem.c:776-801 | one value and its complement on the data lines: exactly the misreadings are counted |
| `MemTest.Memory.TestShifts` | src/hyq-u-boot/common/cmd_mem.c:775-802 | the misreadings of a pattern shifted until nothing is left of it |
| `MemTest.Memory.DataLines` | src/hyq-u-boot/common/cmd_mem.c:772-803 | the misreadings of the eight patterns and all their shifts are counted; none exactly if the first cell is sound and apart from the parking address |
| `MemTest.Memory.AntiPattern` | src/hyq-u-boot/common/cmd_mem.c:879-896 | while one offset holds the opposite pattern exactly its aliases differ |
| `MemTest.Memory.AddressLines` | src/hyq-u-boot/common/cmd_mem.c:839-896 | on sound cells an error exactly if two of the walking offsets share a cell |
| `MemTest.Memory.Iteration` | src/hyq-u-boot/common/cmd_mem.c:753-960 | one iteration counts no error exactly on good memory |
| `SpdCrc.CrcIsRemainder` | src/hyq-u-boot/common/ddr_spd.c:67-82 | the register is the remainder of the message times x^16 modulo x^16 + x^12 + x^5 + 1, and only it is |
| `SpdCrc.DivisionIsUnique` | src/hyq-u-boot/common/ddr_spd.c:67-82 | quotient and remainder are unique |
| `SpdCrc.DivisionStep` | src/hyq-u-boot/common/ddr_spd.c:75-79 | one step of the register is one step of the division |
| `SpdCrc.CrcXor` | src/hyq-u-boot/common/ddr_spd.c:67-82 | the CRC is linear on messages of one length |
| `SpdCrc.BurstIsDetected` | src/hyq-u-boot/common/ddr_spd.c:67-82 | messages that differ only within sixteen consecutive bits have different CRCs |
| `SpdCrc.StepsFeed` | src/hyq-u-boot/common/ddr_spd.c:73-80 | eight steps after adding a byte are the same as feeding its bits one by one |
| `SpdCrc.LowStep` | src/hyq-u-boot/common/ddr_spd.c:75-79 | the low half of the 32-bit register steps like a 16-bit one |
| `SpdCrc.Crc16` | src/hyq-u-boot/common/ddr_spd.c:67-82 | the unmasked loop computes the CRC, whatever the sign of char |
| `SpdCrc.Ddr3SpdCheck` | src/hyq-u-boot/common/ddr_spd.c:84-114 | accepted exactly if the stored bytes are the CRC of bytes 0 to 116 or, without bit 7 of byte 0, of bytes 0 to 125, and, with a signed char, both below 0x80 |
| `SpdCrc.CorrectCrcRefused` | src/hyq-u-boot/common/ddr_spd.c:102-105 | contents with a correct CRC that a signed char makes it refuse |
| `SpdCrc.DamageIsNoticed` | src/hyq-u-boot/common/ddr_spd.c:84-114 | damage within sixteen bits of the covered range makes an accepted SPD refused |
| `SpdCrc.LastByteMatters` | src/hyq-u-boot/common/ddr_spd.c:99-100 | a change of byte 116, or without bit 7 of byte 0 of byte 125, is noticed |
| `SpdCrc.RestIsIgnored` | src/hyq-u-boot/common/ddr_spd.c:99-100 | with bit 7 of byte 0 set, nothing but bytes 0 to 116 and the stored CRC counts |
| `Bedbug.ExtractPlaced` | src/hyq-u-boot/common/bedbug.c:393-395 | an operand put at a free place is read from there |
| `Bedbug.ExtractOther` | src/hyq-u-boot/common/bedbug.c:393-395 | what lies elsewhere does not change an operand's value |
| `Bedbug.AddressSurvives` | src/hyq-u-boot/common/bedbug.c:863-879 | for any field width a distance survives encoding and decoding exactly if it is aligned and in range |
| `Bedbug.NeverMinusOne` | src/hyq-u-boot/common/bedbug.c:822-824 | a field of up to 31 bits is never taken for the error value |
| `Bedbug.AcceptedIff` | src/hyq-u-boot/common/bedbug.c:797-834 | asmppc succeeds exactly if every operand that is not silent has an argument and none is refused |
| `Bedbug.SuccessSpelledOut` | src/hyq-u-boot/common/bedbug.c:797-834 | success exactly if every operand that is not silent has an argument, registers are at most 31 or negative, and special registers are known |
| `Bedbug.FirstError` | src/hyq-u-boot/common/bedbug.c:797-834 | otherwise 0 and the error of the first operand without an acceptable argument |
| `Bedbug.AssembledOperand` | src/hyq-u-boot/common/bedbug.c:753-841 | for disjoint fields each operand is found in the assembled word |
| `Bedbug.OpcodeKept` | src/hyq-u-boot/common/bedbug.c:795-828 | bits outside the operands stay those of the opcode |
| `Bedbug.TargetPrintedBack` | src/hyq-u-boot/common/bedbug.c:261-275 | an address operand is printed at the same address as it was given exactly if it is aligned and in range |
| `Bedbug.OperandPrintedBack` | src/hyq-u-boot/common/bedbug.c:251-322 | every other operand is printed as what it was given, as far as its field holds it |
| `Bedbug.DisplayAt` | src/hyq-u-boot/common/bedbug.c:244-343 | each operand that is not silent is printed once, in order |
| `Bedbug.Asmppc` | src/hyq-u-boot/common/bedbug.c:785-841 | the loop computes the specified word or error |
| `Bedbug.GetOperandValue` | src/hyq-u-boot/common/bedbug.c:373-400 | found exactly if the opcode has the field, with the value of its bits |
| `Bedbug.PrintOperands` | src/hyq-u-boot/common/bedbug.c:231-340 | the operands shown are those of the specification |
| `LogBuffer.HoldsMore` | src/hyq-u-boot/common/cmd_log.c:291-307 | one more character leaves the last LOGBUFF_LEN ones in place |
| `LogBuffer.CounterIndex` | src/hyq-u-boot/common/cmd_log.c:292-300 | a counter that wraps at 2^32 gives the same index |
| `LogBuffer.EmitTags` | src/hyq-u-boot/common/cmd_log.c:269-316 | whatever is logged next, every line that starts in it is tagged |
| `LogBuffer.EveryLineIsTagged` | src/hyq-u-boot/common/cmd_log.c:262-318 | over every run of calls each line starts with a level tag, exactly unless the run starts inside a line and its messages begin without a tag |
| `LogBuffer.ResetInsideLine` | src/hyq-u-boot/common/cmd_log.c:119-141 | a reset inside a line after which an untagged line is logged |
| `LogBuffer.SplitMessage` | src/hyq-u-boot/common/cmd_log.c:269-316 | a message logged in two calls leaves the same as in one exactly if no tag is split |
| `LogBuffer.SplitTagExample` | src/hyq-u-boot/common/cmd_log.c:269-316 | a message that is logged differently in two calls |
| `LogBuffer.LogBuffer.ShownIsLast` | src/hyq-u-boot/common/cmd_log.c:291-307 | both layouts show the last min(n, LOGBUFF_LEN) characters since the reset |
| `LogBuffer.LogBuffer.Put` | src/hyq-u-boot/common/cmd_log.c:291-307 | one character is added, in either layout |
| `LogBuffer.LogBuffer.PutLine` | src/hyq-u-boot/common/cmd_log.c:290-312 | characters up to the first newline are added |
| `LogBuffer.LogBuffer.StartLine` | src/hyq-u-boot/common/cmd_log.c:273-288 | a line without a tag gets the default one in place, and the level is that of the tag |
| `LogBuffer.LogBuffer.PrintLine` | src/hyq-u-boot/common/cmd_log.c:271-316 | one line with its tag is logged |
| `LogBuffer.LogBuffer.LogbuffPrintk` | src/hyq-u-boot/common/cmd_log.c:262-318 | the stream grows by the tagged message and the level is as specified |
| `LogBuffer.LogBuffer.LogbuffReset` | src/hyq-u-boot/common/cmd_log.c:119-141 | the buffer is empty and the level is kept |
| `LogBuffer.LogBuffer.LogShow` | src/hyq-u-boot/common/cmd_log.c:212-226 | everything is shown, or nothing once the buffer is full |

## Left out

- RedundantEnv.SaveIsAtomic: each erase and each write is one step that happens or does not; an erased sector is assumed not to match its own CRC.
- EnvRuns.RunsRefineTheMemory: for runs in which no repair write fails; `RunsFollow` covers all runs.
- RedundantEnv.EnvFlash.SaveEnv: protecting the sectors again at the end is left out.
- RedundantEnv.EnvFlash.EnvRelocate: that gd->env_addr points to the RAM copy at the end is left out.
- EnvBuffer.EnvBuffer.SetEnv: the console and the baud-rate hardware are answers that come with the command; the effects outside the buffer (`ipaddr`, `loadaddr`, `bootfile`) and the options that allow overwriting `serial#` or `ethaddr` are not modelled.
- EnvBuffer.EnvBuffer.GetEnv: returns an index into the buffer; getenv_r, the byte-wise access functions and editing are not part of this model.
- EnvLifecycle.SavedVariablesSurvive: the RAM image is taken as a value with a fresh CRC, and repair writes do not fail; `SetAndSave` starts from the calls.
- Kermit.StreamIsReceived: a printable character instead of the length or the sequence number, damage that the 6-bit check does not notice, and lost or added characters inside a frame are outside the assumption; `MemoryHoldsTheSurvivors` covers every stream.
- KermitReceiver.Receiver.KRecv: pad and end-of-line parameters, the bytes of the replies and os_data_state, which is always 0, are not modelled; the input is finite.
- KermitReceiver.LoadSerialBin: discarding trailing characters, flushing the cache and the variable `filesize` are not modelled.
- SRecord.SaveSerial: switching the baud rate and waiting for keys are not modelled; ctrl-c is a set of interrupted calls.
- MtdParts.TableRoundTrip: for validated tables with ascending offsets, sizes of at least 4096 that are not the sentinel, user-given names without ')' and distinct ids without ':'; generated names do not survive printing.
- MtdParts.Partitions.GenerateMtdparts: the buffer is a text that grows, so what a failing call has written is not stated.
- MtdParts.Partitions.ParseMtdparts: the environment variables `mtddevnum`, `mtddevname` and `partition` and the merge of `mtdparts add` are not modelled.
- MtdList.Table.PartSortAdd: the intrusive list is a sequence of objects.
- FlashRanges.FlashFillSectRanges: the arrays after a failure are not stated; banks are assumed to be tiled by their sectors, as a driver reports them.
- FlashRanges.Flash.FlashSectErase: a bank that refuses erases none of its sectors; protection works on the same plan and is left out.
- OneNand.OneNand.OnenandBlockWrite: requires an aligned offset; a loop that does not end is an outcome; the buffer is a sequence of blocks, and out-of-band data is left out.
- Eeprom.Device.EepromWrite: a board that defines no page size has pages of 256 bytes; the FRAM, SPI and X40430 variants, the write-enable line and delays are not modelled; a refused transfer changes nothing.
- MemTest.Memory.Iteration: faults are shared cells and stuck bits of single cells; ctrl-c and the watchdog are not modelled.
- SpdCrc.Ddr3SpdCheck: the DDR1 and DDR2 checksums and the printed message are left out.
- Bedbug.Asmppc: splitting the text into words, number formats, the opcode lookup, and literal operands are left out; htonl is the identity on the big-endian PowerPC that bedbug serves, and its byte swap on a little-endian machine is not modelled.
- Bedbug.PrintOperands: punctuation, radix, the name of register 0 in addresses, literal operands and symbols are left out.
- LogBuffer.LogBuffer.LogbuffPrintk: printing to the console is left out; messages have at most 1020 characters, which is what the static buffer holds; a log taken over from an earlier boot is not modelled.
- Register access, drivers, the console, menus, delays, file systems, decompressors, xyzModem, image headers, sorting, command lookup and date parsing are not modelled.
