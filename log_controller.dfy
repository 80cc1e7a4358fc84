/**
 * LogController's bookkeeping: the list of log entries with running height
 * sums, the overlay of restore data, the cap on the number of entries, the
 * two-click go-back confirmation, and the rebuilding of the log on restore.
 * Widgets, layout and the object pool are not modelled; the height of a text
 * is given by `measure`.
 */
module LogView {
  import opened Wrappers
  import opened Codec
  import Restoration
  import opened LogEntries

  /** What the dialogueChanged event carries. */
  datatype DialogueChangedData = DialogueChangedData(
    nodeRecord: Restoration.NodeRecord,
    checkpointOffset: Int64,
    dialogueData: ReachedDialogueData,
    displayData: DialogueDisplayData)

  /** The move back that a confirmed go-back click asks the game state for. */
  datatype GoBackRequest = GoBackRequest(nodeOffset: Int64, checkpointOffset: Int64, dialogueIndex: int)

  class LogController {
    /** The serialized cap on the number of entries (1000 by default). */
    const maxLogEntryNum: int
    /** The preferred height of a text at the content width. */
    const measure: string -> real

    var logEntries: seq<LogEntry>
    var logEntriesRestoreData: seq<LogEntryRestoreData>
    var selectedLogEntryIndex: int

    ghost predicate Valid()
      reads this
    {
      0 <= maxLogEntryNum && |logEntries| <= maxLogEntryNum && PrefixConsistent(logEntries)
    }

    constructor (maxLogEntryNum: nat, measure: string -> real)
      ensures Valid()
      ensures this.maxLogEntryNum == maxLogEntryNum && this.measure == measure
      ensures logEntries == [] && logEntriesRestoreData == [] && selectedLogEntryIndex == -1
    {
      this.maxLogEntryNum := maxLogEntryNum;
      this.measure := measure;
      logEntries := [];
      logEntriesRestoreData := [];
      selectedLogEntryIndex := -1;
    }

    /** A line that needs interpolation records its display data for the position it will take. */
    method OnDialogueChanged(data: DialogueChangedData)
      requires Valid()
      modifies this
      ensures Valid()
      ensures selectedLogEntryIndex == old(selectedLogEntryIndex)
      ensures var grown := AddedEntries(old(logEntries), measure, data.nodeRecord.offset, data.checkpointOffset,
                                        data.dialogueData, data.displayData);
        && logEntries == Restrained(grown, maxLogEntryNum)
        && logEntriesRestoreData == Capped(Noted(old(logEntriesRestoreData), |old(logEntries)|,
                                                 data.dialogueData.needInterpolate, data.displayData),
                                           |grown|, maxLogEntryNum)
    {
      if data.dialogueData.needInterpolate {
        logEntriesRestoreData := logEntriesRestoreData + [LogEntryRestoreData(|logEntries|, data.displayData)];
      }
      AddEntry(data.nodeRecord, data.checkpointOffset, data.dialogueData, data.displayData);
    }

    /**
     * Appends an entry for a line with a non-empty text, its prefixHeight
     * continuing the running sum, then caps the list at maxLogEntryNum.
     */
    method AddEntry(nodeRecord: Restoration.NodeRecord, checkpointOffset: Int64,
                    dialogueData: ReachedDialogueData, displayData: DialogueDisplayData)
      requires Valid()
      modifies this
      ensures Valid()
      ensures selectedLogEntryIndex == old(selectedLogEntryIndex)
      ensures var grown := AddedEntries(old(logEntries), measure, nodeRecord.offset, checkpointOffset,
                                        dialogueData, displayData);
        && logEntries == Restrained(grown, maxLogEntryNum)
        && logEntriesRestoreData == Capped(old(logEntriesRestoreData), |grown|, maxLogEntryNum)
      ensures var grown := AddedEntries(old(logEntries), measure, nodeRecord.offset, checkpointOffset,
                                        dialogueData, displayData);
        |grown| <= maxLogEntryNum ==> logEntries == grown && logEntriesRestoreData == old(logEntriesRestoreData)
    {
      var text := displayData.text;
      if text == "" {
        return;
      }
      var height := measure(text);
      var cnt := |logEntries|;
      var prefixHeight := height + (if cnt > 0 then logEntries[cnt - 1].prefixHeight else 0.0);
      ghost var grown := Appended(logEntries, height, nodeRecord.offset, checkpointOffset, dialogueData, displayData);
      logEntries := logEntries + [LogEntry(height, prefixHeight, nodeRecord.offset, checkpointOffset, dialogueData, displayData)];
      assert logEntries == grown;
      var _ := RestrainLogEntryNum(maxLogEntryNum);
    }

    /** Drops the oldest entries so that at most `num` remain; tells whether any were dropped. */
    method RestrainLogEntryNum(num: int) returns (restrained: bool)
      requires num >= 0 && PrefixConsistent(logEntries)
      modifies this
      ensures restrained <==> |old(logEntries)| > num
      ensures logEntries == Restrained(old(logEntries), num)
      ensures logEntriesRestoreData == Capped(old(logEntriesRestoreData), |old(logEntries)|, num)
      ensures selectedLogEntryIndex == old(selectedLogEntryIndex)
    {
      var cnt := |logEntries|;
      if cnt <= num {
        return false;
      }
      RemoveRange(0, cnt - num);
      return true;
    }

    /**
     * Removes `count` entries from `index` on, rewrites the prefix heights from
     * the cut point, drops the restore data of the removed entries and moves the
     * later restore data down by `count`.
     */
    method RemoveRange(index: int, count: int)
      requires 0 <= index && 0 <= count && index + count <= |logEntries|
      requires PrefixConsistent(logEntries)
      modifies this
      ensures logEntries == Recompute(Removed(old(logEntries), index, count))
      ensures logEntriesRestoreData == Adjusted(old(logEntriesRestoreData), index, count)
      ensures selectedLogEntryIndex == old(selectedLogEntryIndex)
    {
      logEntries := Removed(logEntries, index, count);
      PrefixConsistentPrefix(old(logEntries), index);
      RecomputeKeepsConsistentPrefix(logEntries, index);
      RecomputePrefixHeightsFrom(index);
      ghost var kept := Kept(logEntriesRestoreData, index, index + count);
      assert Adjusted(old(logEntriesRestoreData), index, count) == Shifted(kept, index, count);
      RemoveRestoreDataIn(index, index + count);
      ShiftRestoreDataFrom(index, count);
    }

    /** The loop of RemoveRange that rewrites every prefixHeight from `index` on. */
    method RecomputePrefixHeightsFrom(index: int)
      requires 0 <= index <= |logEntries| && PrefixConsistent(logEntries[..index])
      modifies this`logEntries
      ensures logEntries == Recompute(old(logEntries))
    {
      ghost var target := Recompute(logEntries);
      RecomputeKeepsFields(logEntries);
      RecomputeKeepsConsistentPrefix(logEntries, index);
      assert forall j :: 0 <= j < index ==> logEntries[j] == target[..index][j];
      var i := index;
      while i < |logEntries|
        invariant index <= i <= |logEntries| == |target|
        invariant forall j :: 0 <= j < i ==> logEntries[j] == target[j]
        invariant forall j :: i <= j < |logEntries| ==> logEntries[j] == old(logEntries)[j]
      {
        var e := logEntries[i];
        var before := if i > 0 then logEntries[i - 1].prefixHeight else 0.0;
        assert before == PrefixBefore(target, i);
        logEntries := logEntries[i := e.(prefixHeight := e.height + before)];
        i := i + 1;
      }
      assert logEntries == target;
    }

    /** `RemoveAll`: drops the restore data whose index lies in [lo, hi), keeping the order of the rest. */
    method RemoveRestoreDataIn(lo: int, hi: int)
      modifies this`logEntriesRestoreData
      ensures logEntriesRestoreData == Kept(old(logEntriesRestoreData), lo, hi)
    {
      var kept: seq<LogEntryRestoreData> := [];
      var j := 0;
      while j < |logEntriesRestoreData|
        invariant 0 <= j <= |logEntriesRestoreData|
        invariant kept == Kept(logEntriesRestoreData[..j], lo, hi)
      {
        var x := logEntriesRestoreData[j];
        assert logEntriesRestoreData[..j + 1][..j] == logEntriesRestoreData[..j];
        if !(x.index >= lo && x.index < hi) {
          kept := kept + [x];
        }
        j := j + 1;
      }
      assert logEntriesRestoreData[..j] == logEntriesRestoreData;
      logEntriesRestoreData := kept;
    }

    /** The `ForEach` of RemoveRange: every restore index at or after `index` moves down by `count`. */
    method ShiftRestoreDataFrom(index: int, count: int)
      modifies this`logEntriesRestoreData
      ensures logEntriesRestoreData == Shifted(old(logEntriesRestoreData), index, count)
    {
      var k := 0;
      while k < |logEntriesRestoreData|
        invariant 0 <= k <= |logEntriesRestoreData| == |old(logEntriesRestoreData)|
        invariant logEntriesRestoreData[..k] == Shifted(old(logEntriesRestoreData), index, count)[..k]
        invariant logEntriesRestoreData[k..] == old(logEntriesRestoreData)[k..]
      {
        var x := logEntriesRestoreData[k];
        assert x == old(logEntriesRestoreData)[k];
        if x.index >= index {
          logEntriesRestoreData := logEntriesRestoreData[k := x.(index := x.index - count)];
        }
        assert logEntriesRestoreData[..k + 1] == Shifted(old(logEntriesRestoreData), index, count)[..k + 1];
        k := k + 1;
      }
      assert logEntriesRestoreData == logEntriesRestoreData[..k];
    }

    /** Empties the log; restore data of the removed entries goes with them. */
    method Clear()
      requires Valid()
      modifies this
      ensures Valid()
      ensures logEntries == []
      ensures logEntriesRestoreData == Adjusted(old(logEntriesRestoreData), 0, |old(logEntries)|)
      ensures selectedLogEntryIndex == old(selectedLogEntryIndex)
    {
      RemoveRange(0, |logEntries|);
    }

    /** The total height of the first `itemsCount` entries (of all of them when there are fewer). */
    function GetItemsSize(itemsCount: int): (size: real)
      reads this
      requires Valid()
      requires itemsCount > 0 ==> |logEntries| > 0
      ensures itemsCount <= 0 ==> size == 0.0
      ensures itemsCount > 0 ==>
        size == HeightSum(logEntries, if itemsCount < |logEntries| then itemsCount else |logEntries|)
    {
      if itemsCount <= 0 then 0.0
      else
        var n := if itemsCount < |logEntries| then itemsCount else |logEntries|;
        PrefixIsHeightSum(logEntries, n);
        logEntries[n - 1].prefixHeight
    }

    /**
     * The first click on an entry selects it; a second click on the selected
     * entry clears the selection and asks to go back to that entry's checkpoint.
     */
    method OnGoBackButtonClicked(nodeOffset: Int64, checkpointOffset: Int64, dialogueIndex: int, index: int)
      returns (request: Option<GoBackRequest>)
      modifies this`selectedLogEntryIndex
      ensures (selectedLogEntryIndex, request.Some?) == Click(old(selectedLogEntryIndex), index)
      ensures request.Some? ==> request.value == GoBackRequest(nodeOffset, checkpointOffset, dialogueIndex)
    {
      if index == selectedLogEntryIndex {
        selectedLogEntryIndex := -1;
        request := Some(GoBackRequest(nodeOffset, checkpointOffset, dialogueIndex));
      } else {
        selectedLogEntryIndex := index;
        request := None;
      }
    }

    /** Showing the log view forgets any pending selection. */
    method Show()
      modifies this`selectedLogEntryIndex
      ensures selectedLogEntryIndex == -1
    {
      selectedLogEntryIndex := -1;
    }

    /**
     * Rebuilds the log from the dialogue history: each step takes the display
     * data of the overlay entry under the cursor when that entry's index is the
     * current number of entries (and moves the cursor on), and otherwise the
     * display data looked up from the flow chart.
     */
    method Restore(data: seq<LogEntryRestoreData>, history: seq<DialogueHistoryEntry>,
                   reached: (NodeName, int) -> ReachedDialogueData,
                   lookup: (NodeName, int) -> DialogueDisplayData)
      requires Valid()
      requires |history| <= maxLogEntryNum
      modifies this
      ensures Valid()
      ensures logEntriesRestoreData == data
      ensures logEntries == Replay(data, history, reached, lookup, measure).entries
      ensures selectedLogEntryIndex == old(selectedLogEntryIndex)
    {
      logEntriesRestoreData := [];
      Clear();
      logEntriesRestoreData := logEntriesRestoreData + data;

      var i := 0;
      var logEntryRestoreData: Option<LogEntryRestoreData> := if |logEntriesRestoreData| > 0 then Some(logEntriesRestoreData[0]) else None;
      var h := 0;
      while h < |history|
        invariant 0 <= h <= |history|
        invariant Valid() && selectedLogEntryIndex == old(selectedLogEntryIndex)
        invariant logEntriesRestoreData == data
        invariant Replay(data, history[..h], reached, lookup, measure) == ReplayState(logEntries, i)
        invariant logEntryRestoreData == if i < |data| then Some(data[i]) else None
        invariant |logEntries| <= h
      {
        ReplayExtend(data, history, h, reached, lookup, measure);
        var consumed := RestoreStep(history[h], reached, lookup, i, logEntryRestoreData);
        if consumed {
          i := i + 1;
          logEntryRestoreData := if i < |logEntriesRestoreData| then Some(logEntriesRestoreData[i]) else None;
        }
        h := h + 1;
      }
      assert history[..h] == history;
    }

    /**
     * One iteration of Restore's loop: `current` is the overlay entry under the
     * cursor; it is consumed when its index is the current number of entries.
     */
    method RestoreStep(pos: DialogueHistoryEntry,
                       reached: (NodeName, int) -> ReachedDialogueData,
                       lookup: (NodeName, int) -> DialogueDisplayData,
                       cursor: nat, current: Option<LogEntryRestoreData>)
      returns (consumed: bool)
      requires Valid() && |logEntries| < maxLogEntryNum
      requires current == if cursor < |logEntriesRestoreData| then Some(logEntriesRestoreData[cursor]) else None
      modifies this
      ensures Valid() && selectedLogEntryIndex == old(selectedLogEntryIndex)
      ensures logEntriesRestoreData == old(logEntriesRestoreData)
      ensures ReplayState(logEntries, if consumed then cursor + 1 else cursor)
           == ReplayStep(logEntriesRestoreData, ReplayState(old(logEntries), cursor), pos, reached, lookup, measure)
    {
      ghost var next := ReplayStep(logEntriesRestoreData, ReplayState(logEntries, cursor), pos, reached, lookup, measure);
      var dialogueData := reached(pos.nodeRecord.name, pos.dialogueIndex);
      var displayData: Option<DialogueDisplayData> := None;
      consumed := false;
      if current.Some? && current.value.index == |logEntries| {
        displayData := Some(current.value.displayData);
        consumed := true;
      }
      if displayData.None? {
        displayData := Some(lookup(pos.nodeRecord.name, pos.dialogueIndex));
      }
      assert AddedEntries(logEntries, measure, pos.nodeRecord.offset, pos.checkpointOffset,
                          dialogueData, displayData.value) == next.entries;
      AddEntry(pos.nodeRecord, pos.checkpointOffset, dialogueData, displayData.value);
    }
  }
}
