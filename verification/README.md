# Verification models for libzip, libcnary, libusbmuxd, libimobiledevice and pmasserver

Dafny models of the stateful and arithmetical parts of the bundled libraries, with proofs about them.
`dafny verify dfyconfig.toml` checks the whole project.

Code that changes things in place is modelled by classes and methods that do the same steps, each proved against a
function on values; what the code is for is then proved about those functions, or about whole runs of them.

| module | what it models |
|---|---|
| `Bytes`, `ByteFiles` | little-endian integers, C strings, a `FILE *` as bytes with a position |
| `Dirents`, `Cdirs` | headers, central directory and end record of the ZIP format (sections 4.3.7, 4.3.12 and 4.3.16 of APPNOTE.TXT), written and read |
| `Encodings`, `CodePage` | code page 437, UTF-8 (section 3 of RFC 3629) and the guess between them; every character in bytes |
| `ArchiveModel`, `Archives` | the edit machine between opening and closing: on values, and in place with its caches |
| `Pending` | what is pending after any calls, by the last call that says so, and which calls are refused |
| `SaveModel`, `Closing` | what is saved, and `zip_close` doing it |
| `Reopening`, `FindCdir`, `SaveAndOpen` | what reading a saved archive finds |
| `Contents` | what both headers of a saved entry say, and what its data decodes to |
| `SampleArchive` | literal files: what their bytes mean, which are refused, and which are written |
| `Histories` | from opening over any calls to saving and opening again |
| `Words` | 32-bit words as numbers: what unsigned sums, products and bytes are |
| `SourceChain`, `Streams`, `Pkware` | opening and closing layered sources; buffer, checksum, window and decryption layers |
| `TempName` | the temporary name that counts up in place |
| `NodeLists`, `NodeTrees`, `TreePaths` | libcnary's sentinel-headed lists, the trees built from them, and calls at inner nodes, on the heap |
| `Collections`, `Devices` | the slot array of libusbmuxd and the device monitor |
| `DebugServer` | GDB remote serial packets (section E.1 of the GDB manual) |
| `StringList` | the splitter of NUL-terminated lists in afc.c |
| `CommandParser` | the command loop of a PMAS connection |
| `ThreadOnce` | `thread_once` on Windows, for any number of threads |

## Where the code keeps its promise only under a condition

Each of these is an equivalence, so that the condition is exactly the one under which the code does what it is for; a
lemma with a concrete input shows that the other case occurs.

* A central directory is read back unless its entry count is a positive multiple of 65536, or an entry does not fit
  its 16-bit fields (`Cdirs.CdirRoundTripIff`; `Cdirs.AllEntriesLost`).
* An end record is accepted if the 32-bit sum of its directory's offset and size stays before it. A directory that
  starts in the tail of the file that was read also ends there exactly when that sum did not wrap
  (`Cdirs.KeepsInsideIff`; `Cdirs.WrappedSumAccepted`).
* While saving, the index into the new directory (libzip/zip_close.c:261 and 268 use `i` where the slot is `j`) stays
  inside exactly when only entries at the end are deleted (`SaveModel.DirectoryIndexInside`; `Histories.DeletedInFront`).
  Which calls keep them there is `Histories.StepDeletedLast`.
* After any call, each kept entry still has the name and the data that saving needs, unless the call undoes an added
  entry, or replaces one that was added and deleted (`SaveModel.StepSavable`; `Histories.NamelessEntry`).
* Characters are looked up inside the code page table exactly when `char` is unsigned or the name is ASCII
  (`Encodings.InTableIff`; `Encodings.SignedCharacterOutside`): libzip/zip_utf-8.c:213 and 222 index with a plain
  `char`. All results about converted names read bytes as unsigned.
* Names stay distinct unless `zip_replace` or `zip_unchange` revives a deleted entry whose name was taken meanwhile
  (`ArchiveModel.StepDistinct`); `zip_replace` does not look, and `zip_unchange` does not look at deleted entries.
  `ArchiveModel.RevivalExample` is a history that ends with two equal names.
* The name an entry is shown under survives saving exactly when it is a new one, is made of whole characters, or gets
  the UTF-8 flag if and only if it had it (`Reopening.VisibleNameSurvives`). The new flag is decided by the comment and,
  for a copied entry, by the local header's name, which need not be the one in the directory (`Reopening.LostName`).
* `node_list_remove` leaves a proper list unless it takes out the only node while that node does not know the header
  (`NodeLists.Remove`; `NodeLists.EndCanBeLost`): the header's `end` then still points to the node.
* Decryption does not depend on how reads are cut, except that a source that brings fewer than the twelve bytes of the
  header at once is taken to be at its end (`Pkware.Decryptor.DecryptHeader`; `Pkware.ShortReadsRefused`).
* A debugserver packet comes back as it was sent unless the command has a `#` in it (`DebugServer.RoundTripIff`;
  `DebugServer.HashIsLost`).
* After the receive buffer of a PMAS connection was thrown away, the next request is handed over as sent exactly when
  no parameters had been read before (`CommandParser.ThrownAway`; `CommandParser.ThirdParameter`).
* A parameter count of 1000 means "until an empty parameter"; a count above 1000 ends up in the same mode after the
  excess (`CommandParser.AcceptsIff`).
* Without a callback, device events balance exactly over packets that do nothing: losing a connection without devices,
  removing a handle that is not there, and packets that are neither an addition nor a removal (`Devices.StepConserves`;
  `Devices.UnreportedDevice`).

## Model

| member | source | states |
|---|---|---|
| Dirents.WriteDirent | libzip/zip_dirent.c:452-505 | the bytes of the whole header, local or central, go over the file at its position and nothing else changes |
| Dirents.ReadDirent | libzip/zip_dirent.c:229-379 | buffer or file, with or without a limit: the same entry or the same error, and exactly the parsed bytes are used up |
| Dirents.ReadHeader | libzip/zip_dirent.c:238-320 | limit, end of input and magic are checked in this order, each with its error |
| Dirents.TakeBytes | libzip/zip_dirent.c:559-617 | n bytes from the buffer cursor or the file position; only a file that ends gives fewer |
| Dirents.HeaderRoundTrip | libzip/zip_dirent.c:229-505 | every written header reads back as the entry it stands for and uses its own bytes only, whatever follows |
| Dirents.StoredExactly | libzip/zip_dirent.c:463-490 | the entry is kept field by field if and only if method and name length fit 16 bits |
| SampleArchive.LocalMeans | libzip/zip_dirent.c:229-379 | 35 literal bytes, each number with different bytes, are read as this local header, whatever follows |
| SampleArchive.CentralMeans | libzip/zip_dirent.c:229-379 | the same for a central header of 55 bytes, with every field |
| SampleArchive.HeadersRefused | libzip/zip_dirent.c:238-360 | cut off, beyond the limit or of the other kind, these headers give the error for it |
| SampleArchive.WriteHeaders | libzip/zip_dirent.c:452-505 | exactly these bytes are written for the two entries |
| Cdirs.CentralDirectory.Write | libzip/zip_dirent.c:131-161 | the directory and its end record go to the file position; offset and size are recorded |
| Cdirs.CentralDirectory.Grow | libzip/zip_dirent.c:72-94 | room only ever increases; less room is refused |
| Cdirs.ReadCdir | libzip/zip_open.c:174-293 | the result depends on the file alone, whether the directory lies in the buffer or not, for every failure too |
| Cdirs.KeepsInsideIff | libzip/zip_open.c:210-222 | below 4 GB, an accepted directory that starts in the buffer ends in the file if and only if its 32-bit sum did not wrap |
| Cdirs.WrappedSumAccepted | libzip/zip_open.c:210-222 | an end record that is accepted although its sum wrapped |
| Cdirs.ReadEnd | libzip/zip_open.c:186-244 | the end record's checks, in order, with their errors |
| Cdirs.ReadAll | libzip/zip_open.c:246-290 | the growing loop reads entries until no bytes are left |
| Cdirs.EntriesRoundTrip | libzip/zip_open.c:262-290 | the loop gets every written entry back and stops at the end of the directory, from any room for at least one |
| Cdirs.CdirRoundTrip | libzip/zip_open.c:174-293 | a directory below 4 GB is read back, more than 65535 entries included, and lost if its count wrapped to 0 |
| Cdirs.CdirRoundTripIff | libzip/zip_dirent.c:131-161 | all entries come back field by field if and only if each fits and the count is readable |
| Cdirs.AllEntriesLost | libzip/zip_open.c:262-290 | 65536 entries that all fit, none of which is read back |
| SampleArchive.EndMeans | libzip/zip_open.c:186-244 | the numbers and the comment of a literal end record |
| SampleArchive.EndsRefused | libzip/zip_open.c:186-244 | the error for that end record with one byte changed, cut off, or with bytes behind it |
| SampleArchive.ArchiveMeans | libzip/zip_open.c:174-293 | in a literal archive of one member, behind any 0x04030201 bytes: the directory, both headers, and where the data is |
| SampleArchive.WriteArchive | libzip/zip_dirent.c:131-161 | header, data and directory of that member, written one after the other, are that archive byte by byte |
| Encodings.GuessEncoding | libzip/zip_utf-8.c:120-153 | the guess as a function of the bytes |
| Encodings.GuessIsText | libzip/zip_utf-8.c:120-153 | not code page 437 if and only if the name splits into plain bytes and complete multi-byte characters |
| Encodings.Utf8RoundTrip | libzip/zip_utf-8.c:171-194 | a strict RFC 3629 decoder gets back any sequence of scalar values |
| Encodings.UnicodeToUtf8 | libzip/zip_utf-8.c:171-194 | the encoding goes to its place in the buffer, the rest stays |
| Encodings.InTableIff | libzip/zip_utf-8.c:211-224 | each character's index is inside the table if and only if `char` is unsigned or the name is ASCII; it is then the byte |
| Encodings.SignedCharacterOutside | libzip/zip_utf-8.c:211-224 | a name for which it is not |
| Encodings.Convert | libzip/zip_utf-8.c:198-229 | two passes, for names whose indices are inside the table: a buffer of exactly the size that is filled, none for the empty string |
| Encodings.SizesAgree | libzip/zip_utf-8.c:207-226 | the first pass counts what the second one writes |
| Encodings.ConvertedText | libzip/zip_utf-8.c:120-229 | a converted name decodes to the table's characters in order and is never taken for code page 437 again |
| Encodings.ConvertedHasNoNul | libzip/zip_utf-8.c:198-229 | the NUL behind a converted name is the only one |
| Encodings.TableInjective | libzip/zip_utf-8.c:43-107 | each code point of the table stands for one byte only |
| Encodings.ConversionInjective | libzip/zip_utf-8.c:198-229 | different names stay different |
| Encodings.UnitsAre | libzip/zip_utf-8.c:109-153 | the characters of a text by the ranges of their bytes |
| CodePage.NameText | libzip/zip_utf-8.c:43-229 | every name becomes the bytes of its characters, all 256 of which are given in UTF-8 |
| CodePage.KnownName | libzip/zip_utf-8.c:198-229 | a literal name with characters of one, two and three bytes |
| CodePage.ShownNames | libzip/zip_get_name.c:67-98 | literal names as they are shown: flagged, raw, strict or guessed |
| ArchiveModel.LocateFrom | libzip/zip_name_locate.c:69-93 | the first match in range, and none only when nothing matches |
| ArchiveModel.BaseNameMeans | libzip/zip_name_locate.c:79-85 | without directories a name is what follows its last slash |
| ArchiveModel.LettersCompared | libzip/zip_name_locate.c:69-92 | without case, A to Z are a to z, and no other characters are the same |
| ArchiveModel.FailedCallChangesNothing | libzip/zip_replace.c:59-93 | a failed call of any kind leaves the archive as it was, a failed add included |
| ArchiveModel.StepConsistent | libzip/zip_replace.c:69-90 | every call keeps: a source exactly in added and replaced entries, a new name in renamed ones, neither in deleted ones, and no new name that is not made of whole characters |
| ArchiveModel.StepEntries | libzip/zip_set_name.c:65-97 | all that a call can do to any entry, and that none goes away |
| Pending.LastCallsCount | libzip/zip_set_name.c:91-97 | after any history, comment, extra field, method, new name, source and deletion of each entry are what the last successful call on it said, through adds, renames, replacements and calls on other entries, until it is deleted or undone |
| Pending.LastArchiveCallsCount | libzip/zip_set_archive_comment.c:43-75 | the same for the comment and the flags of the archive |
| Pending.FlagSet | libzip/zip_set_archive_flag.c:44-47 | the given flags are set, and no others |
| Pending.FlagCleared | libzip/zip_set_archive_flag.c:44-47 | the given flags are cleared, and no others |
| Pending.RefusedExactly | libzip/zip_rename.c:42-70 | the error of every call, by what can be seen of the archive |
| ArchiveModel.RunConsistent | libzip/zip_delete.c:41-61 | the same over every history of calls |
| ArchiveModel.UnchangeAllRestores | libzip/zip_unchange_all.c:42-55 | after any history, undoing all gives every original entry back under its name, and nothing counts as changed |
| ArchiveModel.StepDistinct | libzip/zip_set_name.c:65-97 | one call keeps names distinct if and only if it does not revive a taken name |
| ArchiveModel.NamesStayDistinct | libzip/zip_name_locate.c:71-92 | over every history that does not revive a taken name, live names are pairwise distinct |
| ArchiveModel.RevivalExample | libzip/zip_unchange.c:50-83 | a history with distinct original names that ends with two equal names |
| ArchiveModel.ReadOnlyFrozen | libzip/zip_rename.c:43-70 | a read-only archive is changed by undoing only |
| Archives.Zip.constructor | libzip/zip_open.c:95-147 | an opened archive has one untouched entry per directory entry |
| Archives.Zip.EntryNew | libzip/zip_entry_new.c:42-75 | one untouched entry more; the others stay, also when the array grows |
| Archives.Zip.GetName | libzip/zip_get_name.c:50-98 | the current or original name, converted if needed, whether or not the caches are filled; caching shows nowhere else |
| Archives.Zip.NameLocate | libzip/zip_name_locate.c:48-93 | the first live entry with the name, or none |
| Archives.Zip.SetEntryName | libzip/zip_set_name.c:43-100 | the duplicate check and the state change of a new name; other pending changes stay |
| Archives.Zip.AddFile | libzip/zip_replace.c:59-93 | an add appends, or takes the new entry back when the name is refused |
| Archives.Zip.ReplaceFile | libzip/zip_replace.c:40-52 | a replaced entry gets the source and the state that goes with it, and keeps its other changes |
| Archives.Zip.UnchangeEntryData | libzip/zip_unchange_data.c:40-49 | the source goes, and the state is what it was before |
| Archives.Zip.UnchangeFile | libzip/zip_unchange.c:50-83 | one entry goes back to its original unless that name is taken |
| Archives.Zip.UnchangeArchiveSettings | libzip/zip_unchange_archive.c:42-52 | comment and flags go back |
| Archives.Zip.UnchangeEverything | libzip/zip_unchange_all.c:42-55 | all entries and the archive go back, and it cannot fail |
| Archives.Zip.DeleteFile | libzip/zip_delete.c:40-61 | a deleted entry has no changes left |
| Archives.Zip.RenameFile | libzip/zip_rename.c:42-70 | refuses deleted and read-only entries and a change between file and directory |
| Archives.Zip.IsChanged | libzip/zip_close.c:624-649 | whether anything changed, and the number of entries to keep |
| SaveModel.DirectoryIndexInside | libzip/zip_close.c:153-270 | the index into the new directory stays inside if and only if only the last entries are deleted |
| SaveModel.StepSavable | libzip/zip_unchange.c:50-83 | one call keeps every kept entry named and with data if and only if it does not undo an added entry or replace a deleted one of these |
| SaveModel.RunSavable | libzip/zip_replace.c:59-93 | over every history without such a call, what saving needs of the entries holds |
| SaveModel.OpenedSavable | libzip/zip_open.c:95-147 | an archive just opened has what saving needs |
| SaveModel.LiveCount | libzip/zip_close.c:153-162 | the list of entries to keep has as many as are counted, in order |
| Closing.CopyData | libzip/zip_close.c:490-519 | exactly the asked-for bytes move, or the end of the file is reported |
| Closing.CopySource | libzip/zip_close.c:523-553 | all chunks arrive in order |
| Closing.SecondHeader | libzip/zip_close.c:453-483 | a header of equal size written again replaces the first one and nothing of the data |
| Closing.AddData | libzip/zip_close.c:369-486 | header with the final time, method, checksum and sizes, data behind it, nothing else changed; each failure with its error |
| Closing.NewOne | libzip/zip_close.c:179-297 | an entry with new data becomes one record |
| Closing.CopyOne | libzip/zip_close.c:201-309 | an entry without becomes its old record with the changed settings |
| Closing.SaveOne | libzip/zip_close.c:171-312 | one round of the loop saves one entry as one record |
| Closing.ListEntries | libzip/zip_close.c:153-162 | the entries to keep are all those not deleted, in order |
| Closing.SaveLoop | libzip/zip_close.c:171-312 | the records lie one after the other, each directory entry knows where its record starts |
| Closing.Close | libzip/zip_close.c:70-365 | nothing saved when nothing is left or changed; else the whole file, byte by byte, or the first error |
| Reopening.FileGetOffset | libzip/zip_file_get_offset.c:53-74 | where the data behind a local header starts |
| Reopening.SavedSize | libzip/zip_close.c:369-486 | the saved size is the number of bytes copied |
| Reopening.SavedLayout | libzip/zip_close.c:171-312 | records tile the file from 0 to the directory; entry j points at record j; its data is found, whole, behind the header |
| Reopening.SavedDirectory | libzip/zip_close.c:557-591 | the directory read from a saved file is the saved one if and only if its count is readable and its entries fit |
| Reopening.CopiedDataSurvives | libzip/zip_close.c:201-309 | data of an untouched entry is found in the new file byte for byte as in the old one |
| Reopening.NewDataSurvives | libzip/zip_close.c:272-297 | data of an added, replaced or recompressed entry is found in the new file as its source produced it, with size and checksum |
| Contents.SavedHeaders | libzip/zip_close.c:179-309 | both headers of each entry, read back from the saved file, field by field: method, time, checksum and sizes are those the source announced at the end, or the old ones; settings are those asked for |
| Contents.FlagMeans | libzip/zip_close.c:259-268 | the UTF-8 flag is set exactly for a name and a comment of whole characters that are not both ASCII |
| Contents.ProducedDecodes | libzip/zip_close.c:388-486 | if sources and layers are what they claim, decoding what is saved by the method that is saved gives the clear bytes; checksum and size are theirs; the method is the one asked for |
| Contents.UnsupportedIff | libzip/zip_close.c:388-436 | a source is given up for its method exactly when it must be converted from or to one that is neither stored nor deflated |
| Contents.ContentSurvives | libzip/zip_close.c:171-312 | an entry of the saved file, copied, recompressed or new, decodes by the method in its header to the clear bytes it stood for |
| Reopening.VisibleNameSurvives | libzip/zip_close.c:259-268 | the shown name survives saving if and only if it is new, is made of whole characters, or keeps its UTF-8 flag as it was |
| Reopening.LostName | libzip/zip_close.c:259-268 | an archive just opened whose one name does not survive |
| FindCdir.MemMem | libzip/zip_open.c:595-612 | the first occurrence, or none when there is none |
| FindCdir.CheckConsistency | libzip/zip_open.c:303-351 | the span of the entries, or -1 at the first that is implausible or disagrees with its header |
| FindCdir.CheckConsMeans | libzip/zip_open.c:303-351 | the check gives -1 if and only if an entry ends behind the directory or disagrees with its local header or the first starts behind it; else the span from the lowest offset to the highest end, as an `int` |
| FindCdir.PassesOnBytes | libzip/zip_open.c:395-453 | what the check asks of each entry, on the bytes of its local header: the same version, method, time, name, checksum and sizes |
| FindCdir.FindCentralDir | libzip/zip_open.c:514-591 | the search of the last 65558 bytes gives what considering their end records in order gives |
| FindCdir.FindsBest | libzip/zip_open.c:551-589 | that is the first of the readable directories rated highest, if its rating is not negative; a single one is not rated unless asked for |
| FindCdir.FindsNone | libzip/zip_open.c:551-589 | without a readable directory none is found |
| FindCdir.Weigh | libzip/zip_open.c:551-580 | one end record against the best so far |
| FindCdir.FindOnly | libzip/zip_open.c:514-591 | with one end record there, that one decides |
| SampleArchive.EmptyArchive | libzip/zip_open.c:514-591 | the 22 bytes of an archive without members are found to be one |
| SampleArchive.ArchiveFound | libzip/zip_open.c:514-591 | the literal archive of one member is found, and its span is computed |
| SampleArchive.LongestComment | libzip/zip_open.c:530-591 | an end record with a comment of 65535 bytes is still found |
| SaveAndOpen.SavedHeadersAgree | libzip/zip_open.c:395-453 | both headers of a saved entry agree, if they did before |
| SaveAndOpen.SavedConsistent | libzip/zip_open.c:303-351 | a saved archive passes the consistency check, if its copied entries did |
| SaveAndOpen.SavedArchiveFound | libzip/zip_open.c:514-591 | opening finds the saved directory if and only if it can be read back |
| SaveAndOpen.SavedArchivePasses | libzip/zip_open.c:514-591 | so does opening with the consistency check, below 2 GB |
| Histories.AddRefused | libzip/zip_replace.c:59-93 | an add is refused if and only if the archive is read-only or the name is malformed or taken |
| Histories.StepDeletedLast | libzip/zip_delete.c:41-61 | one call keeps deleted entries at the end if and only if it neither deletes in front of a live entry nor adds or brings one back behind a deleted one |
| Histories.RunDeletedLast | libzip/zip_delete.c:41-61 | over every history without such a call, deleted entries are at the end |
| Histories.HistoryCanBeSaved | libzip/zip_close.c:70-365 | all that saving asks of an archive holds after every such history that loses no name |
| Histories.SavedReopens | libzip/zip_open.c:514-591 | opening the saved file finds the directory exactly when it can be read back, and behind each entry the data that was kept, under the name it was shown under exactly when its label is kept |
| Histories.HistoryReopens | libzip/zip_close.c:70-365 | the same from opening over every such history to saving and opening again |
| Histories.EntryAsLastSaid | libzip/zip_close.c:70-365 | after every such history, each entry of the saved file decodes to the clear bytes of the last source it was given, or to the old ones, and its headers have the last settings |
| Histories.ArchiveCommentBack | libzip/zip_close.c:595-620 | the archive comment comes back as the last one set, or else as the old one |
| Histories.DeletedInFront | libzip/zip_close.c:153-270 | one call after opening that puts the index outside |
| Histories.NamelessEntry | libzip/zip_unchange.c:50-83 | two calls after opening that leave an entry without a name |
| SourceChain.Source.Open | libzip/zip_source_open.c:40-76 | all layers open or none changed; exactly which callbacks ran, in order; the error field of every layer |
| SourceChain.Source.OpenTop | libzip/zip_source_open.c:55-73 | a layer that refuses leaves everything below closed again, and says by its answer who is to blame |
| SourceChain.BlameMeans | libzip/zip_source_open.c:45-70 | the layer that stops an open is blamed by its answer, those above blame the one below, those below are left alone |
| SourceChain.Source.Close | libzip/zip_source_close.c:40-54 | layers close from the top to the first closed one, with exactly their callbacks in that order |
| SourceChain.Source.History | libzip/zip_source_open.c:40-76 | over every history of opens and closes: all open or all closed, and one CLOSE for each successful OPEN |
| SourceChain.OpeningBalanced | libzip/zip_source_open.c:55-73 | a failed open closes each layer it opened exactly once, a successful one closes none |
| SourceChain.ClosingBalanced | libzip/zip_source_close.c:40-54 | a close takes back one open per layer |
| Streams.Buffer.Read | libzip/zip_source_buffer.c:95-112 | the next bytes, all that were asked for unless the end comes first |
| Streams.CrcJoins | libzip/zip_source_crc.c:104-126 | the checksum does not depend on how the bytes are cut |
| Streams.KnownVerdicts | libzip/zip_source_crc.c:100-121 | literal data against right and wrong announcements |
| Streams.Checksum.Read | libzip/zip_source_crc.c:86-126 | size and checksum are those of all bytes passed; the end is refused exactly when they are not as announced |
| Streams.Checksum.Stat | libzip/zip_source_crc.c:131-143 | after the end, size and checksum of the whole data |
| Streams.Window.Open | libzip/zip_source_window.c:88-100 | the bytes before the window are skipped, or the verdict on the data below or the end of it is the error |
| Streams.Window.Read | libzip/zip_source_window.c:102-121 | exactly the next bytes that the layers below bring at once, or the error and why; nothing without an error only when nothing is asked for or left |
| Streams.Window.ReadAll | libzip/zip_source_window.c:87-121 | for any sizes of reads above and below: a prefix of the window, and all of it at a clean end; over a source that never fails, as many requests as the window shows bytes bring all of it, and an error comes only behind data that is too short |
| Pkware.DecryptEncrypt | libzip/zip_source_pkware.c:108-136 | decrypting undoes encrypting from every key state |
| Pkware.EncryptDecrypt | libzip/zip_source_pkware.c:108-136 | and the other way round |
| Pkware.DecryptJoins | libzip/zip_source_pkware.c:195-201 | decryption by pieces is decryption at once |
| Pkware.KeyStep | libzip/zip_source_pkware.c:130-134 | the next keys for all keys and bytes: the second modulo 2^32, the third from the top byte of the new second |
| Pkware.CrcStepBytes | libzip/zip_source_pkware.c:131-134 | the checksum step by the bytes of the word |
| Pkware.StreamByteInt | libzip/zip_source_pkware.c:121-123 | the stream byte for all keys, as the second byte of an integer product |
| Pkware.KnownKeys | libzip/zip_source_pkware.c:108-136 | with the entries of the checksum table that are met: keys, stream byte and decryption for the passwords "a" and "ab" |
| Pkware.Decryptor.Mix | libzip/zip_source_pkware.c:108-136 | in place: text and keys are those of the cipher; or the keys alone |
| Pkware.Decryptor.DecryptHeader | libzip/zip_source_pkware.c:140-176 | each outcome by a condition on the source and the check bytes: the lower error, the end for fewer than twelve bytes at once, the wrong password, or the keys behind the header |
| Pkware.Decryptor.Read | libzip/zip_source_pkware.c:195-201 | in place: exactly what the source brings, decrypted with the keys that the text before leaves |
| Pkware.Decryptor.Session | libzip/zip_source_pkware.c:180-233 | however reads are cut: a prefix of the clear text and the keys an encryptor would have there, and all of it once a non-empty request brings nothing |
| Pkware.ShortReadsRefused | libzip/zip_source_pkware.c:148-157 | a source of five bytes at a time is refused |
| Pkware.SamePassword | libzip/zip_source_pkware.c:68-104 | what was encrypted with a password comes back with it |
| TempName.AdvanceCounts | libzip/mkstemp.c:133-153 | each step raises the number the suffix stands for by one |
| TempName.NoneTriedTwice | libzip/mkstemp.c:133-156 | names tried are pairwise different and bounded in number |
| TempName.ExtraCounts | libzip/mkstemp.c:102-111 | the two letters count modulo 676 from call to call |
| TempName.PidShown | libzip/mkstemp.c:96-100 | the digits show the process id modulo a power of ten |
| TempName.TempNames.FillIn | libzip/mkstemp.c:59-111 | the last decimal digits of the process id and the static letters replace the trailing X's and nothing else; the letters move on |
| TempName.TempNames.Search | libzip/mkstemp.c:133-156 | stops at the first name that can be created or is refused, or when every name has been tried |
| TempName.TempNames.Turn | libzip/mkstemp.c:133-153 | one step of the wheels, in place |
| NodeLists.CreateList | libcnary/list.c:29-32 | an empty list's header is its own end |
| NodeLists.Add | libcnary/node_list.c:51-73 | the sequence grows at its end |
| NodeLists.Insert | libcnary/node_list.c:75-121 | the sequence grows at the index, or at its end; a first node put before another forgets the header |
| NodeLists.Remove | libcnary/node_list.c:123-151 | the node is deleted from the sequence, and the list stays proper if and only if its end is not lost |
| NodeLists.Replay | libcnary/node_list.c:51-151 | over every allowed history, both walks and the count are those of the sequence the calls describe |
| NodeLists.EndCanBeLost | libcnary/node_list.c:123-151 | three calls after which the only node does not know the header |
| NodeTrees.CreateRoot | libcnary/node.c:47-79 | a fresh single node with an empty list |
| NodeTrees.Attach | libcnary/node.c:81-96 | the child's tree becomes the last subtree; counts and parents agree; flags and depth are reset |
| NodeTrees.InsertChild | libcnary/node.c:106-121 | the child's tree becomes the subtree at the index |
| NodeTrees.Detach | libcnary/node.c:98-104 | the subtree is a tree of its own, and the rest a proper tree unless the list lost its end |
| NodeTrees.NthChild | libcnary/node.c:155-171 | the n-th child, or nothing |
| NodeTrees.ChildPosition | libcnary/node.c:191-208 | the place of a child, or -1 exactly if it is none |
| NodeTrees.CopyDeep | libcnary/node.c:210-224 | fresh nodes, same shape and order, data through the copy function; all below the root at depth 1 and marked leaf |
| NodeTrees.Destroy | libcnary/node.c:31-45 | every node and header of the tree is freed exactly once |
| NodeTrees.HoldAllJoin | libcnary/node.c:81-121 | two forests make one exactly when both are proper and share nothing |
| TreePaths.Focus | libcnary/node.c:81-121 | in a tree, what hangs at the end of any path is a tree |
| TreePaths.Refit | libcnary/node.c:81-121 | whatever tree a subtree becomes, with it the whole is a tree again |
| TreePaths.AttachAt | libcnary/node.c:81-96 | attaching at any node of a tree leaves a tree, with the child's tree at the end of that node's children |
| TreePaths.InsertAtNode | libcnary/node.c:106-121 | the same for inserting at an index |
| TreePaths.DetachAt | libcnary/node.c:98-104 | the same for detaching, unless the list loses its end |
| Collections.Collection.Add | libusbmuxd/utils.c:91-104 | the first free slot is taken, or the number of slots doubles |
| Collections.Collection.Remove | libusbmuxd/utils.c:106-116 | the first slot with the element is emptied; otherwise nothing changes |
| Collections.Collection.Count | libusbmuxd/utils.c:118-126 | the size of the bag of elements |
| Collections.PutPlace | libusbmuxd/utils.c:91-104 | the first free slot, or the one behind all, with free slots up to twice the number |
| Collections.PutAdds | libusbmuxd/utils.c:91-104 | as a bag, an addition adds that element and nothing else, growth included |
| Collections.TakeRemoves | libusbmuxd/utils.c:106-116 | as a bag, a removal takes that element and nothing else |
| Devices.StepContents | libusbmuxd/libusbmuxd.cpp:824-901 | what each packet does to the bag of devices, an unknown handle included |
| Devices.AddedThenRemoved | libusbmuxd/libusbmuxd.cpp:847-893 | a device added and removed by its device id leaves the bag as it was, and is reported both times with its id, product and serial number |
| Devices.IdleMeans | libusbmuxd/libusbmuxd.cpp:824-901 | the packets that leave the bag of devices as it is |
| Devices.StepConserves | libusbmuxd/libusbmuxd.cpp:824-901 | a packet keeps added = removed + held if and only if there is a callback or the packet is one of these |
| Devices.UnreportedDevice | libusbmuxd/libusbmuxd.cpp:669-681 | a first device that nobody is told of breaks the balance |
| Devices.RunConserves | libusbmuxd/libusbmuxd.cpp:824-901 | over every run: added = removed + held |
| Devices.RemovalsWereAdded | libusbmuxd/libusbmuxd.cpp:824-901 | at every point of every run, each removal is of a device added and not removed before |
| Devices.Monitor.Find | libusbmuxd/libusbmuxd.cpp:257-266 | the first device with the handle, or none |
| Devices.Monitor.DropAll | libusbmuxd/libusbmuxd.cpp:834-838 | removing during the walk reaches every device once, in slot order |
| Devices.Monitor.GetNextEvent | libusbmuxd/libusbmuxd.cpp:824-901 | slots, events and result of every packet; no device is freed twice or kept after it was freed |
| Devices.Monitor.Cleanup | libusbmuxd/libusbmuxd.cpp:903-913 | all devices are freed and none is reported |
| Devices.DeviceList | libusbmuxd/libusbmuxd.cpp:1136-1202 | the list is what a monitor holds after the same packets, in slot order |
| DebugServer.UnhexHex | libimobiledevice/src/debugserver.c:260-287 | decoding undoes encoding for every byte string |
| DebugServer.Digits | libimobiledevice/src/debugserver.c:206-216 | digits of either case; any other character is taken for what it is |
| DebugServer.KnownDecoding | libimobiledevice/src/debugserver.c:276-287 | literal texts decoded, of either case and without digits |
| DebugServer.EncodeString | libimobiledevice/src/debugserver.c:260-274 | two digits per character |
| DebugServer.DecodeString | libimobiledevice/src/debugserver.c:276-287 | one character per pair, whatever characters the pair is made of |
| DebugServer.GetChecksum | libimobiledevice/src/debugserver.c:229-239 | the sum of signed characters in 32 bits |
| DebugServer.SumIsPlain | libimobiledevice/src/debugserver.c:229-239 | its last byte is that of the plain sum of bytes |
| DebugServer.OneCharacterShows | libimobiledevice/src/debugserver.c:241-258 | changing one character changes the digits |
| DebugServer.FormatCommand | libimobiledevice/src/debugserver.c:289-321 | prefix, payload, and checksum or zeros |
| DebugServer.Client.ReadFrame | libimobiledevice/src/debugserver.c:416-434 | reads up to two bytes after the first `#`, counting bytes that never came |
| DebugServer.Client.ReceiveResponse | libimobiledevice/src/debugserver.c:371-471 | result, response, acknowledgement and bytes used, for every input on which the call comes to an end |
| DebugServer.Client.SendCommand | libimobiledevice/src/debugserver.c:473-537 | what goes out and comes back, and when ack mode ends |
| DebugServer.PacketReceived | libimobiledevice/src/debugserver.c:371-471 | a packet is accepted if and only if its digits are those of its payload, and answered accordingly |
| DebugServer.EitherCaseAccepted | libimobiledevice/src/debugserver.c:241-258 | a packet with the plain sum of its bytes in digits of either case is accepted |
| DebugServer.KnownReplies | libimobiledevice/src/debugserver.c:371-471 | literal packets: accepted, acknowledged, refused, or none |
| DebugServer.KnownGaps | libimobiledevice/src/debugserver.c:416-434 | one missing byte of a checksum refuses the packet; two make the check look too far |
| DebugServer.KnownPacket | libimobiledevice/src/debugserver.c:289-321 | a literal command with arguments as it is sent |
| DebugServer.RoundTrip | libimobiledevice/src/debugserver.c:289-471 | a formatted command is received as it was, with or without a leading `+`, whatever follows |
| DebugServer.RoundTripIff | libimobiledevice/src/debugserver.c:289-471 | it is if and only if the command has no `#` |
| DebugServer.HashIsLost | libimobiledevice/src/debugserver.c:416-434 | the command "#" does not come back |
| DebugServer.ArgumentsBack | libimobiledevice/src/debugserver.c:276-321 | the payload behind the command decodes to the arguments |
| DebugServer.ChangeRefused | libimobiledevice/src/debugserver.c:241-258 | a packet with one changed character is refused |
| StringList.CountNulls | libimobiledevice/src/afc.c:410-420 | the number of NULs |
| StringList.MakeStringsList | libimobiledevice/src/afc.c:432-449 | one string per NUL, then the terminator; never a read past the buffer |
| StringList.SplitCounts | libimobiledevice/src/afc.c:410-449 | as many strings as NULs, none with a NUL inside |
| StringList.JoinSplit | libimobiledevice/src/afc.c:432-449 | joined again, the strings are the buffer up to its last NUL |
| StringList.SplitJoin | libimobiledevice/src/afc.c:432-449 | splitting undoes joining, for any strings and any unterminated rest |
| CommandParser.Connection.RegisterHandler | pmasserver/PmasServer.cpp:236-242 | a command keeps its first handler |
| CommandParser.Connection.OnText | pmasserver/PmasServer.cpp:276-321 | a name selects a handler, a parameter is stored, a handler with nothing left to expect is called |
| CommandParser.Connection.OnByte | pmasserver/PmasServer.cpp:262-327 | a byte is stored, ends a text, or fills the buffer, which is then thrown away |
| CommandParser.Connection.HandlerLoop | pmasserver/PmasServer.cpp:252-350 | calls depend on the bytes only, not on timeouts between them, up to a failure |
| CommandParser.AcceptsIff | pmasserver/PmasServer.cpp:286-298 | exactly which parameters each registered count takes |
| CommandParser.StreamParsed | pmasserver/PmasServer.cpp:252-350 | a stream of requests becomes exactly those calls in order, however its bytes are spread over time |
| CommandParser.KnownStream | pmasserver/PmasServer.cpp:252-350 | the calls of a literal stream |
| CommandParser.UnknownSkipped | pmasserver/PmasServer.cpp:276-284 | a text that is no command is skipped |
| CommandParser.NulEndsText | pmasserver/PmasServer.cpp:274-276 | what follows a NUL in a text does not count |
| CommandParser.FullBuffer | pmasserver/PmasServer.cpp:263-273 | 20479 bytes without a colon are kept, one more throws them away |
| CommandParser.CallsServed | pmasserver/PmasServer.cpp:276-321 | on any bytes, each call made has the parameters its handler was registered for, unless the buffer was thrown away |
| CommandParser.ThrownAway | pmasserver/PmasServer.cpp:265-273 | after that the next call gets the old parameters in front, so it is as requested if and only if there were none |
| CommandParser.ThirdParameter | pmasserver/PmasServer.cpp:265-273 | bytes after which a command of two parameters gets three |
| ThreadOnce.StepKeeps | libimobiledevice/common/thread.c:85-96 | every atomic step of every thread keeps the invariant |
| ThreadOnce.OnceOnly | libimobiledevice/common/thread.c:85-96 | for any threads and schedule: exclusion, at most one call of the routine, and no return before it is done |
| ThreadOnce.CanReturn | libimobiledevice/common/thread.c:85-96 | from every reachable state each thread can still return |

## Left out

- Torrentzip mode (sorting, normalised headers, its comment and check): it changes header lengths and order.
- Failing allocation, failing `fseeko`, `ftello` and `fwrite`, renaming and `chmod`: files never fail except by ending.
- Sockets, `select`, threads that cannot be created, the shared flag that stops a loop: input is a sequence of what arrives.
- zlib: compression is a function from chunks to chunks, and the checksum an arbitrary bytewise step; `Contents.Faithful` says what is expected of sources, layers and codec.
- Conversion between `time_t` and DOS times: entries hold the two DOS words.
- Cdirs.ReadCdir: requires of an end record whose directory starts in the buffered tail that its 32-bit sum does not wrap, because otherwise the entries are read from behind the buffer; so do `FindCdir.Weigh` and, for the end records it meets, `FindCdir.FindCentralDir`.
- Closing.Close: requires that only the last entries are deleted, because otherwise the loop writes outside the new directory; and that each kept entry has a name and data (`Histories.HistoryCanBeSaved` says when). So does `Closing.SaveLoop`.
- Archives that are saved with another end record's signature in their last 65558 bytes: `Histories.Reopens` speaks of files with one; `FindCdir.FindsBest` says which of several is taken.
- Setting comments, extra fields and compression methods of entries, and comment and flags of the archive: operations of the edit machine on values (`ArchiveModel.Step`), without a method that does them in place.
- Archives.Zip.RenameFile: for an empty name, old or new, the code reads the character before it; here an empty name is no directory.
- NULL archives, and sources whose callbacks misbehave; `zip_source_pop`, error texts and plain getters.
- Streams.Window.ReadAll: one open session; `left` is not reset by a second OPEN, and neither are the decryption keys.
- TempName.TempNames.FillIn: requires that some character comes before the trailing X's; the check of the directory behind it is not part of this model.
- Lists in which one node sits twice, or nodes that sit in two lists at once.
- NodeLists.Add: requires that the node is not in the list yet, where the code would make a circle; so does `NodeLists.Insert`.
- Devices.DeviceList: requires packets that have their payload; without one the code gives up in the middle of the list.
- TreePaths.DetachAt: excludes taking out the only node while it does not know the header.
- NodeLists.Replay: excludes taking out the only node while it does not know the header; `NodeLists.Remove` says what is left then.
- NodeTrees.CopyDeep: the copy function is a function of the data pointer without effects, and `next` and `prev` of a copied root are not described.
- The device id is an arbitrary function of the device record.
- Freeing the slot array when the monitor ends, and requests for the device list in the newer protocol.
- DebugServer.DecodeString: requires whole pairs of digits; the code reads and writes one character further for an odd length.
- DebugServer.Client.ReceiveResponse: requires input on which the call ends inside its buffer; with two or more bytes missing the check would look behind it (`Overread`). So does `DebugServer.Client.SendCommand`.
- CommandParser.Connection.OnByte: after a full buffer the code compares the byte in front of it with a colon; it belongs to the socket's number and is taken to be none.
- CommandParser.Connection.HandlerLoop: calls are recorded in the order in which their threads are started; what handlers do is not part of this model.
- Fairness of `thread_once`: a thread may spin forever while others take the lock.
