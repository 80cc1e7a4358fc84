# Nova: node records and the scroll-back log, in Dafny

This project models two pieces of the Nova narrative engine and proves properties of them.

**Node records.** `NodeRecord` is one node of the dialogue tree as the checkpoint store
persists it. The record is a fixed 44-byte header followed by the node's name in UTF-8:

| bytes | field |
|---|---|
| 0, 8, 16 | the signed 64-bit links `parent`, `child`, `sibling` |
| 24, 28, 32 | the signed 32-bit dialogue indices `beginDialogue`, `endDialogue`, `lastCheckpointDialogue` |
| 36 | the unsigned 64-bit `variableHash` |
| 44 to the end of the buffer | `name` |

The node's `offset` is where the store keeps it. It is supplied from outside and is not part
of the bytes.

**The scroll-back log.** `LogController` keeps the bookkeeping of the log:

- a list of entries, each with its measured height and the running sum of the heights so far;
- an overlay of restore data that refers to entries by position;
- a cap on the number of entries;
- a two-click confirmation before going back to an entry;
- the rebuilding of the log from the dialogue history on restore.

Modules, leaves first:

| module | file | what it holds |
|---|---|---|
| `Wrappers` | `wrappers.dfy` | `Option` |
| `Codec` | `codec.dfy` | the fixed-width integer codec behind ByteSegment's readers and writers: little-endian, two's complement for `long` and `int` |
| `Utf8` | `utf8.dfy` | the UTF-8 encoder, the byte count that sizes the buffer, and a decoder that replaces every byte that does not start a well-formed sequence with U+FFFD |
| `ByteSegments` | `byte_segment.dfy` | class `ByteSegment` over an `array` of bytes, with writers that change the array in place and readers at fixed offsets |
| `Restoration` | `node_record.dfy` | the record layout, `Serialize`/`Deserialize`, class `NodeRecord` with its two constructors and `ToByteSegment` |
| `LogEntries` | `log_entries.dfy` | the log's values and the functions that say what each list operation leaves behind: `Recompute` (the prefix heights rewritten), `Removed`, `Restrained`, `Kept`/`Shifted`/`Adjusted` (the overlay after a removal), the `Click` state machine, and `Replay` (the restore loop) |
| `LogView` | `log_controller.dfy` | class `LogController`, whose fields are the two lists and the selection; its methods change them in place and are proved against the functions of `LogEntries` |

Heights are `real` and come from a `measure` function given to the controller.

Restore takes three abstract inputs, passed as parameters:

- the dialogue history (`GetDialogueHistory`);
- the reached-dialogue lookup (`GetReachedDialogueData`);
- the display-data lookup in the flow chart.

## Model

| member | source | states |
|---|---|---|
| Codec.LongRoundTrip | Assets/Nova/Sources/Core/Restoration/NodeRecord.cs:26-28 | reading back an 8-byte `long` that was written gives the same value |
| Codec.IntRoundTrip | Assets/Nova/Sources/Core/Restoration/NodeRecord.cs:29-31 | the same for the 4-byte `int` fields |
| Codec.UlongRoundTrip | Assets/Nova/Sources/Core/Restoration/NodeRecord.cs:32 | the same for the 8-byte `ulong` hash |
| Codec.LongBytesRoundTrip | Assets/Nova/Sources/Core/Restoration/NodeRecord.cs:50-52 | every 8-byte pattern read as a `long` is written back as the same 8 bytes |
| Codec.IntBytesRoundTrip | Assets/Nova/Sources/Core/Restoration/NodeRecord.cs:53-55 | every 4-byte pattern read as an `int` is written back as the same bytes |
| Codec.UlongBytesRoundTrip | Assets/Nova/Sources/Core/Restoration/NodeRecord.cs:56 | every 8-byte pattern read as a `ulong` is written back as the same bytes |
| Codec.DecodeEncodeLE | Assets/Nova/Sources/Core/Restoration/NodeRecord.cs:26-32 | the little-endian value of the `n` low bytes of `v` is `v`, for every `v < 256^n` |
| Codec.EncodeDecodeLE | Assets/Nova/Sources/Core/Restoration/NodeRecord.cs:50-56 | re-encoding the value of any byte sequence gives that sequence back |
| Codec.SignedUnsignedInverse | Assets/Nova/Sources/Core/Restoration/NodeRecord.cs:26-31 | two's complement reinterpretation and its inverse undo each other, in both directions |
| Utf8.DecodeEncode | Assets/Nova/Sources/Core/Restoration/NodeRecord.cs:57 | decoding the UTF-8 bytes of a name gives the name back |
| Utf8.DecodeEncodeChar | Assets/Nova/Sources/Core/Restoration/NodeRecord.cs:57 | the decoder reads the bytes of one encoded character back as that character and its width, whatever follows |
| Utf8.ByteCountBounds | Assets/Nova/Sources/Core/Restoration/NodeRecord.cs:24 | the byte count lies between the number of characters and four times it, and equals the number of characters exactly when all are ASCII |
| ByteSegments.ByteSegment.WriteBytes | Assets/Nova/Sources/Core/Restoration/NodeRecord.cs:26-33 | after a write, the buffer holds the written bytes in their range and its old bytes everywhere else |
| ByteSegments.ByteSegment.WriteLong | Assets/Nova/Sources/Core/Restoration/NodeRecord.cs:26-28 | writes the 8-byte encoding of a `long` at an offset, leaving the rest of the buffer alone |
| ByteSegments.ByteSegment.WriteInt | Assets/Nova/Sources/Core/Restoration/NodeRecord.cs:29-31 | writes the 4-byte encoding of an `int` at an offset, leaving the rest alone |
| ByteSegments.ByteSegment.WriteUlong | Assets/Nova/Sources/Core/Restoration/NodeRecord.cs:32 | writes the 8-byte encoding of a `ulong` at an offset, leaving the rest alone |
| ByteSegments.ByteSegment.WriteString | Assets/Nova/Sources/Core/Restoration/NodeRecord.cs:33 | writes the UTF-8 bytes of the name at an offset, leaving the rest alone |
| Restoration.HeaderTiling | Assets/Nova/Sources/Core/Restoration/NodeRecord.cs:26-33 | the seven fixed fields start at 0, each starts where the previous one ends, the last ends at the header size 44, and no two overlap |
| Restoration.SerializeLayout | Assets/Nova/Sources/Core/Restoration/NodeRecord.cs:26-33 | in the serialization, every field's byte range holds the field's encoding, and the name's bytes start at byte 44 |
| Restoration.SerializeAt | Assets/Nova/Sources/Core/Restoration/NodeRecord.cs:26-33 | each byte of a serialization is a byte of the field that covers it, or a byte of the name past the header |
| Restoration.RoundTrip | Assets/Nova/Sources/Core/Restoration/NodeRecord.cs:22-58 | decoding a serialization gives back every field of the record |
| Restoration.DeserializeFieldBytes | Assets/Nova/Sources/Core/Restoration/NodeRecord.cs:50-56 | each header field the decoding constructor reads re-encodes to the bytes it was read from |
| Restoration.ReserializeHeaderByte | Assets/Nova/Sources/Core/Restoration/NodeRecord.cs:50-56 | re-serializing what was read from a buffer reproduces each of the buffer's 44 header bytes |
| Restoration.ReserializeWellFormed | Assets/Nova/Sources/Core/Restoration/NodeRecord.cs:22-58 | a buffer whose tail is well-formed UTF-8 is exactly the serialization of what it decodes to |
| Restoration.UpdateIsLocal | Assets/Nova/Sources/Core/Restoration/NodeRecord.cs:24-33 | setting one header field keeps the serialized length and every byte outside that field's range, and the range holds the new value's encoding |
| Restoration.MutableUpdateKeepsTail | Assets/Nova/Sources/Core/Restoration/NodeRecord.cs:24-33 | changing `parent`, `child`, `sibling`, `endDialogue` or `lastCheckpointDialogue` leaves bytes 36 onward unchanged |
| Restoration.EmptyNameIsHeaderOnly | Assets/Nova/Sources/Core/Restoration/NodeRecord.cs:24 | a record with an empty name serializes to exactly 44 bytes |
| Restoration.NodeRecord.constructor | Assets/Nova/Sources/Core/Restoration/NodeRecord.cs:37-45 | a new record has the given offset, name, beginDialogue and hash, `endDialogue == beginDialogue`, `lastCheckpointDialogue == -1`, and links of 0 |
| Restoration.NodeRecord.FromSegment | Assets/Nova/Sources/Core/Restoration/NodeRecord.cs:47-58 | the decoding constructor takes its offset from the caller and every other field from `Deserialize` of the buffer |
| Restoration.NodeRecord.ToByteSegment | Assets/Nova/Sources/Core/Restoration/NodeRecord.cs:22-35 | the segment and its buffer are newly allocated, the buffer is sized exactly 44 plus the UTF-8 byte count of the name, and after the eight writes it holds `Serialize` of the record's fields; the offset does not enter |
| Restoration.Reload | Assets/Nova/Sources/Core/Restoration/NodeRecord.cs:22-58 | decoding a record's `ToByteSegment` at offset `o` gives a new record with offset `o` and the same eight fields |
| LogEntries.PrefixConsistentAppend | Assets/Nova/Sources/Scripts/UI/Views/LogController.cs:149-152 | an entry appended with its height plus the previous entry's prefixHeight keeps the prefix recurrence for the whole list |
| LogEntries.Appended | Assets/Nova/Sources/Scripts/UI/Views/LogController.cs:148-152 | the old list is extended by one entry carrying the given height, offsets and data, and on a consistent list the new prefixHeight is the total of all heights |
| LogEntries.PrefixIsHeightSum | Assets/Nova/Sources/Scripts/UI/Views/LogController.cs:149-152 | under the recurrence, an entry's prefixHeight is the sum of the heights up to and including it |
| LogEntries.PrefixDetermined | Assets/Nova/Sources/Scripts/UI/Views/LogController.cs:171-174 | two consistent lists with the same heights carry the same prefix heights |
| LogEntries.Recompute | Assets/Nova/Sources/Scripts/UI/Views/LogController.cs:171-174 | the rewritten list has the same length and satisfies the prefix recurrence |
| LogEntries.RecomputeKeepsFields | Assets/Nova/Sources/Scripts/UI/Views/LogController.cs:171-174 | rewriting changes nothing but the prefix heights, entry by entry |
| LogEntries.RecomputeKeepsConsistentPrefix | Assets/Nova/Sources/Scripts/UI/Views/LogController.cs:171-174 | entries before the cut point, already consistent, are left exactly as they were |
| LogEntries.Removed | Assets/Nova/Sources/Scripts/UI/Views/LogController.cs:170 | removing `count` entries from `index` shortens the list by `count` and keeps the entries before `index` |
| LogEntries.RemovedEntries | Assets/Nova/Sources/Scripts/UI/Views/LogController.cs:170-174 | after RemoveRange, each entry before the cut is the old one at its position and each after it is the old one `count` further on, with only prefixHeight rewritten |
| LogEntries.RemovedKeepsFront | Assets/Nova/Sources/Scripts/UI/Views/LogController.cs:170-174 | on a consistent list, RemoveRange leaves the entries before `index` untouched, prefix heights included |
| LogEntries.Restrained | Assets/Nova/Sources/Scripts/UI/Views/LogController.cs:160-166 | at most `num` entries leave the list unchanged; more leave exactly `num`; consistency is kept |
| LogEntries.RestrainedKeepsNewest | Assets/Nova/Sources/Scripts/UI/Views/LogController.cs:162-164 | the capped list is the last `num` old entries in their original order, with only prefixHeight rewritten |
| LogEntries.Kept | Assets/Nova/Sources/Scripts/UI/Views/LogController.cs:176 | `RemoveAll` keeps only old overlay entries whose index lies outside the removed range |
| LogEntries.KeptContainsSurvivors | Assets/Nova/Sources/Scripts/UI/Views/LogController.cs:176 | every old overlay entry outside the removed range survives `RemoveAll` |
| LogEntries.KeptAppend | Assets/Nova/Sources/Scripts/UI/Views/LogController.cs:176 | `RemoveAll` preserves order: filtering a concatenation concatenates the filtered parts |
| LogEntries.ShiftedMembership | Assets/Nova/Sources/Scripts/UI/Views/LogController.cs:177-180 | every overlay entry reappears renumbered after the `ForEach` |
| LogEntries.AdjustedOnlySurvivors | Assets/Nova/Sources/Scripts/UI/Views/LogController.cs:176-180 | every overlay entry after RemoveRange is a renumbered old entry whose index lay outside the removed range |
| LogEntries.AdjustedKeepsSurvivors | Assets/Nova/Sources/Scripts/UI/Views/LogController.cs:176-180 | every old overlay entry outside the removed range survives, unchanged before the range and moved down by `count` after it |
| LogEntries.AdjustedAppend | Assets/Nova/Sources/Scripts/UI/Views/LogController.cs:176-180 | the overlay update distributes over concatenation, so the survivors keep their relative order |
| LogEntries.OverlayAppend | Assets/Nova/Sources/Scripts/UI/Views/LogController.cs:132 | an overlay entry at or after every recorded index, and within the log, keeps the overlay consistent |
| LogEntries.KeptConsistent | Assets/Nova/Sources/Scripts/UI/Views/LogController.cs:176 | `RemoveAll` keeps the overlay's indices in range and non-decreasing |
| LogEntries.AdjustedConsistent | Assets/Nova/Sources/Scripts/UI/Views/LogController.cs:176-180 | after RemoveRange, the overlay's indices lie between 0 and the shortened log's length and stay non-decreasing |
| LogEntries.CappedConsistent | Assets/Nova/Sources/Scripts/UI/Views/LogController.cs:160-166 | capping the log keeps the overlay consistent with the capped log |
| LogEntries.DialogueChangedConsistent | Assets/Nova/Sources/Scripts/UI/Views/LogController.cs:128-136 | noting the display data at the current end, adding at most one entry and capping keep the overlay consistent with the new log |
| LogEntries.ClickConfirmsOnlyRepeat | Assets/Nova/Sources/Scripts/UI/Views/LogController.cs:254-271 | a click asks for confirmation exactly when it repeats the selected entry; a confirming click clears the selection, any other click selects its entry |
| LogEntries.DoubleClickConfirms | Assets/Nova/Sources/Scripts/UI/Views/LogController.cs:254-271 | from any other selection, two clicks on the same entry do not confirm on the first and do confirm, clearing the selection, on the second |
| LogEntries.ReplayStepProperties | Assets/Nova/Sources/Scripts/UI/Views/LogController.cs:379-397 | a restore step consumes the overlay entry under the cursor exactly when its index equals the current number of entries, moves the cursor by at most one, only appends to the log, and keeps the replay invariant |
| LogEntries.ReplayProperties | Assets/Nova/Sources/Scripts/UI/Views/LogController.cs:375-398 | after any history: every consumed overlay entry was consumed at the log position equal to its index, in list order, its display data shows at that position unless its text was empty, and the log holds at most one entry per step |
| LogEntries.ReplayMonotone | Assets/Nova/Sources/Scripts/UI/Views/LogController.cs:375-398 | the cursor `i` never decreases and the rebuilt log is only extended as more history is replayed |
| LogView.LogController.constructor | Assets/Nova/Sources/Scripts/UI/Views/LogController.cs:51-68 | a new controller has empty lists, no selection and the given cap |
| LogView.LogController.OnDialogueChanged | Assets/Nova/Sources/Scripts/UI/Views/LogController.cs:128-136 | a line that needs interpolation notes its display data at the current log length; then the entry is added and the log capped, overlay included |
| LogView.LogController.AddEntry | Assets/Nova/Sources/Scripts/UI/Views/LogController.cs:138-158 | an empty text changes neither list; otherwise one entry with the running prefix height is appended and the log is capped at maxLogEntryNum; the count stays within the cap and the recurrence holds |
| LogView.LogController.RestrainLogEntryNum | Assets/Nova/Sources/Scripts/UI/Views/LogController.cs:160-166 | returns true exactly when there were more than `num` entries; the list becomes `Restrained` and the overlay is adjusted for the removal of the oldest entries |
| LogView.LogController.RemoveRange | Assets/Nova/Sources/Scripts/UI/Views/LogController.cs:168-184 | the list becomes the old one without the slice, with the prefix heights recomputed; the overlay becomes `Adjusted` |
| LogView.LogController.RecomputePrefixHeightsFrom | Assets/Nova/Sources/Scripts/UI/Views/LogController.cs:171-174 | the loop from the cut point leaves exactly `Recompute` of the list |
| LogView.LogController.RemoveRestoreDataIn | Assets/Nova/Sources/Scripts/UI/Views/LogController.cs:176 | `RemoveAll` leaves exactly `Kept` of the overlay |
| LogView.LogController.ShiftRestoreDataFrom | Assets/Nova/Sources/Scripts/UI/Views/LogController.cs:177-180 | the `ForEach` leaves exactly `Shifted` of the overlay |
| LogView.LogController.Clear | Assets/Nova/Sources/Scripts/UI/Views/LogController.cs:186-189 | the log is emptied, the class invariant is kept, and the overlay loses the entries of the removed positions |
| LogView.LogController.GetItemsSize | Assets/Nova/Sources/Scripts/UI/Views/LogController.cs:193-198 | 0 for a non-positive count, otherwise the total height of the first `min(itemsCount, count)` entries |
| LogView.LogController.OnGoBackButtonClicked | Assets/Nova/Sources/Scripts/UI/Views/LogController.cs:254-271 | the new selection and the confirmation follow `Click`; a confirmation carries the node offset, checkpoint offset and dialogue index the method was called with |
| LogView.LogController.Show | Assets/Nova/Sources/Scripts/UI/Views/LogController.cs:290 | showing the view clears the selection |
| LogView.LogController.Restore | Assets/Nova/Sources/Scripts/UI/Views/LogController.cs:366-399 | the overlay becomes the restored data and the log becomes `Replay` of the history |
| LogView.LogController.RestoreStep | Assets/Nova/Sources/Scripts/UI/Views/LogController.cs:379-397 | one loop iteration: the overlay entry under the cursor is used and consumed exactly when its index equals the current count, and otherwise the display data is looked up; the new state is `ReplayStep` of the old |

## Left out

- ByteSegment's own source is not part of this model. Its readers and writers are modelled as little-endian two's complement over a byte `array`, the layout `BitConverter` gives on little-endian machines.
- `name` is a sequence of Unicode scalar values. A C# string may hold a lone UTF-16 surrogate, which .NET encodes as U+FFFD; such strings are not modelled.
- Utf8.Decode replaces each byte that does not start a well-formed sequence with its own U+FFFD. .NET sometimes replaces a whole ill-formed subsequence with one U+FFFD, so the number of replacement characters for malformed input can differ. Well-formed input decodes the same.
- Restoration.NodeRecord.FromSegment requires a buffer of at least 44 bytes; on a shorter one the C# readers throw, and that exception is not modelled.
- Restoration.NodeRecord.constructor: the C# constructor accepts a null name, which would throw later in `GetByteCount`; the model's name is never null.
- NodeRecord.cs allocates no offsets, links no siblings and does not check `endDialogue >= beginDialogue`; the model does not either. The store that does those things is not part of this model.
- Heights and prefix heights are exact `real`s. The C# code uses `float`, whose rounding is not modelled.
- Text measurement (`GetPreferredValues`) is the function `measure`, fixed for the controller's lifetime. In C# the height also depends on `contentDefaultWidth` (LogController.cs:148), which is measured again whenever the layout is rebuilt (LogController.cs:112); that dependence is not modelled. `FormatNameDialogue` is the `text` field of the display data, with the empty string standing also for null.
- LogView.LogController.GetItemsSize requires a non-empty log when `itemsCount > 0`. On an empty log the C# code indexes position -1 and throws.
- LogView.LogController.Restore requires the history to have at most maxLogEntryNum steps, which is what `GetDialogueHistory(maxLogEntryNum)` returns. So no entry is removed during the replay.
- LogView.LogController.Restore: the restore data is copied by value. In C#, `GetRestoreData` shares the live list, and `RemoveRange` decrements the `index` of shared objects, so later changes show through a saved snapshot. That aliasing is not modelled.
- LogView.LogController.Restore: the display data looked up from the flow chart is a parameter. `AddDeferredDialogueChunks`, `GetNode` and `GetDialogueEntryAt` are not modelled.
- LogView.LogController.Restore: the display data of an overlay entry is never null in the model. In C#, a null one makes the loop fall back to the flow-chart lookup (line 389).
- ReadString reads from its offset to the end of the buffer: NodeRecord.cs:57 passes no length and the record stores none.
- The consistency of the overlay with the log is a lemma of its own (DialogueChangedConsistent, CappedConsistent, AdjustedConsistent). It is not part of the controller's `Valid()`, so the methods' contracts state the new overlay as a function of the old one and the lemmas carry the invariant.
- The Unity side is not modelled: widgets, the object pool, `ProvideData`, voice playback, `Alert` and `ConfigManager` in `Show`, the scroll and keyboard handling in `OnActivatedUpdate`, and `scrollRect.totalCount`/`RefillCellsFromEnd`. The go-back confirmation is returned as a request instead of opening an alert.
- `_onGoBackButtonClicked` (`GetNodeRecord`, `MoveBackTo`, `Hide`) calls into the game state; it is represented only by the returned `GoBackRequest`.
