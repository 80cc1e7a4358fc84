/**
 * The values behind the scroll-back log: its entries with their running
 * height sums, the overlay of restore data that refers to entries by
 * position, and the functions that say what each list operation leaves behind.
 */
module LogEntries {
  import opened Codec
  import Utf8
  import Restoration

  /** Display data of one dialogue line; `text` is what FormatNameDialogue returns ("" also for null). */
  datatype DialogueDisplayData = DialogueDisplayData(text: string)

  /** The part of ReachedDialogueData the log reads. */
  datatype ReachedDialogueData = ReachedDialogueData(needInterpolate: bool, dialogueIndex: int)

  datatype LogEntry = LogEntry(
    height: real,
    prefixHeight: real,
    nodeOffset: Int64,
    checkpointOffset: Int64,
    dialogueData: ReachedDialogueData,
    displayData: DialogueDisplayData)

  /** Display data kept for the entry at position `index`, for lines that cannot be re-derived. */
  datatype LogEntryRestoreData = LogEntryRestoreData(index: int, displayData: DialogueDisplayData)

  /** One step of GetDialogueHistory. */
  datatype DialogueHistoryEntry = DialogueHistoryEntry(
    nodeRecord: Restoration.NodeRecord,
    checkpointOffset: Int64,
    dialogueIndex: int)

  type NodeName = seq<Utf8.ScalarValue>

  // ---------------------------------------------------------------- heights

  /** Every entry's prefixHeight is its height plus the previous entry's prefixHeight. */
  ghost predicate PrefixConsistent(es: seq<LogEntry>)
  {
    forall i {:trigger PrefixBefore(es, i)} :: 0 <= i < |es| ==> es[i].prefixHeight == es[i].height + PrefixBefore(es, i)
  }

  /** The prefixHeight of the entry before position `i`, 0 at the front. */
  function PrefixBefore(es: seq<LogEntry>, i: nat): real
    requires i <= |es|
  {
    if i > 0 then es[i - 1].prefixHeight else 0.0
  }

  lemma PrefixConsistentPrefix(es: seq<LogEntry>, k: nat)
    requires PrefixConsistent(es) && k <= |es|
    ensures PrefixConsistent(es[..k])
  {
    forall i | 0 <= i < k
      ensures es[..k][i].prefixHeight == es[..k][i].height + PrefixBefore(es[..k], i)
    {
      assert es[..k][i] == es[i];
      assert PrefixBefore(es[..k], i) == PrefixBefore(es, i);
    }
  }

  /** The total height of the first `k` entries. */
  function HeightSum(es: seq<LogEntry>, k: nat): real
    requires k <= |es|
  {
    if k == 0 then 0.0 else HeightSum(es, k - 1) + es[k - 1].height
  }

  lemma {:induction false} HeightSumOfPrefix(es: seq<LogEntry>, m: nat, k: nat)
    requires k <= m <= |es|
    ensures HeightSum(es[..m], k) == HeightSum(es, k)
  {
    if k > 0 {
      HeightSumOfPrefix(es, m, k - 1);
    }
  }

  /** Under the recurrence, an entry's prefixHeight is the height of everything up to and including it. */
  lemma {:induction false} PrefixIsHeightSum(es: seq<LogEntry>, k: nat)
    requires PrefixConsistent(es) && 0 < k <= |es|
    ensures es[k - 1].prefixHeight == HeightSum(es, k)
  {
    assert es[k - 1].prefixHeight == es[k - 1].height + PrefixBefore(es, k - 1);
    if k > 1 {
      PrefixIsHeightSum(es, k - 1);
    }
  }

  /** An entry whose prefixHeight continues the running sum keeps a consistent list consistent. */
  lemma PrefixConsistentAppend(es: seq<LogEntry>, e: LogEntry)
    requires e.prefixHeight == e.height + PrefixBefore(es, |es|)
    ensures PrefixConsistent(es) ==> PrefixConsistent(es + [e])
  {
    var r := es + [e];
    forall i | 0 <= i < |r| && PrefixConsistent(es)
      ensures r[i].prefixHeight == r[i].height + PrefixBefore(r, i)
    {
      if i < |es| {
        assert r[i] == es[i] && PrefixBefore(r, i) == PrefixBefore(es, i);
      }
    }
  }

  /** `es` with a new entry at the end whose prefixHeight continues the running sum. */
  function Appended(es: seq<LogEntry>, height: real, nodeOffset: Int64, checkpointOffset: Int64,
                    dialogueData: ReachedDialogueData, displayData: DialogueDisplayData): (r: seq<LogEntry>)
    ensures |r| == |es| + 1 && r[..|es|] == es
    ensures r[|es|].height == height && r[|es|].displayData == displayData
    ensures r[|es|].nodeOffset == nodeOffset && r[|es|].checkpointOffset == checkpointOffset
    ensures r[|es|].dialogueData == dialogueData
    ensures PrefixConsistent(es) ==> PrefixConsistent(r) && r[|es|].prefixHeight == HeightSum(r, |r|)
  {
    var e := LogEntry(height, height + PrefixBefore(es, |es|), nodeOffset, checkpointOffset, dialogueData, displayData);
    var r := es + [e];
    assert r[..|es|] == es;
    PrefixConsistentAppend(es, e);
    PrefixBeforeEndIsTotal(es);
    HeightSumOfPrefix(r, |es|, |es|);
    r
  }

  lemma PrefixBeforeEndIsTotal(es: seq<LogEntry>)
    ensures PrefixConsistent(es) ==> PrefixBefore(es, |es|) == HeightSum(es, |es|)
  {
    if PrefixConsistent(es) && |es| > 0 {
      PrefixIsHeightSum(es, |es|);
    }
  }

  /** AddEntry's effect on the list before the cap is applied: nothing for an empty text. */
  function AddedEntries(es: seq<LogEntry>, measure: string -> real, nodeOffset: Int64, checkpointOffset: Int64,
                        dialogueData: ReachedDialogueData, displayData: DialogueDisplayData): seq<LogEntry>
  {
    if displayData.text == "" then es
    else Appended(es, measure(displayData.text), nodeOffset, checkpointOffset, dialogueData, displayData)
  }

  /** `es` with every prefixHeight rewritten from the heights, front to back. */
  function Recompute(es: seq<LogEntry>): (r: seq<LogEntry>)
    ensures |r| == |es| && PrefixConsistent(r)
  {
    if es == [] then []
    else
      var front := Recompute(es[..|es| - 1]);
      var last := es[|es| - 1];
      var e := last.(prefixHeight := last.height + PrefixBefore(front, |front|));
      PrefixConsistentAppend(front, e);
      front + [e]
  }

  /** Recomputing rewrites the prefix heights and nothing else, entry by entry. */
  lemma {:induction false} RecomputeKeepsFields(es: seq<LogEntry>)
    ensures forall i {:trigger Recompute(es)[i]} :: 0 <= i < |es| ==>
      Recompute(es)[i] == es[i].(prefixHeight := Recompute(es)[i].prefixHeight)
  {
    if es != [] {
      var front := es[..|es| - 1];
      RecomputeKeepsFields(front);
      var r, f := Recompute(es), Recompute(front);
      assert r[..|front|] == f;
      forall i | 0 <= i < |front|
        ensures r[i] == es[i].(prefixHeight := r[i].prefixHeight)
      {
        assert r[i] == f[i] && es[i] == front[i];
      }
    }
  }

  /** Recomputing changes nothing in a leading part whose prefix heights are already right. */
  lemma RecomputeKeepsConsistentPrefix(es: seq<LogEntry>, k: nat)
    requires k <= |es| && PrefixConsistent(es[..k])
    ensures Recompute(es)[..k] == es[..k]
  {
    var r := Recompute(es);
    RecomputeKeepsFields(es);
    forall i | 0 <= i < k
      ensures r[i] == es[i]
    {
      PrefixIsHeightSum(es[..k], i + 1);
      HeightSumOfPrefix(es, k, i + 1);
      PrefixIsHeightSum(r, i + 1);
      HeightSumsAgree(r, es, i + 1);
    }
  }

  /** Two consistent lists with the same heights carry the same prefix heights. */
  lemma PrefixDetermined(a: seq<LogEntry>, b: seq<LogEntry>)
    requires PrefixConsistent(a) && PrefixConsistent(b) && |a| == |b|
    requires forall i :: 0 <= i < |a| ==> a[i].height == b[i].height
    ensures forall i :: 0 <= i < |a| ==> a[i].prefixHeight == b[i].prefixHeight
  {
    forall i | 0 <= i < |a|
      ensures a[i].prefixHeight == b[i].prefixHeight
    {
      PrefixIsHeightSum(a, i + 1);
      PrefixIsHeightSum(b, i + 1);
      HeightSumsAgree(a, b, i + 1);
    }
  }

  lemma {:induction false} HeightSumsAgree(a: seq<LogEntry>, b: seq<LogEntry>, k: nat)
    requires k <= |a| == |b|
    requires forall i :: 0 <= i < |a| ==> a[i].height == b[i].height
    ensures HeightSum(a, k) == HeightSum(b, k)
  {
    if k > 0 {
      HeightSumsAgree(a, b, k - 1);
    }
  }

  /** `es` without the `count` entries from `index` on. */
  function Removed(es: seq<LogEntry>, index: nat, count: nat): (r: seq<LogEntry>)
    requires index + count <= |es|
    ensures |r| == |es| - count && r[..index] == es[..index]
  {
    es[..index] + es[index + count..]
  }

  /** RemoveRange leaves the entries before the cut exactly as they were, prefix heights included. */
  lemma RemovedKeepsFront(es: seq<LogEntry>, index: nat, count: nat)
    requires index + count <= |es| && PrefixConsistent(es)
    ensures Recompute(Removed(es, index, count))[..index] == es[..index]
  {
    var rest := Removed(es, index, count);
    PrefixConsistentPrefix(es, index);
    RecomputeKeepsConsistentPrefix(rest, index);
  }

  /**
   * RemoveRange removes exactly the slice: an entry before the cut is the old
   * one at the same position, one after it the old one `count` further on, and
   * only the prefix heights are rewritten.
   */
  lemma RemovedEntries(es: seq<LogEntry>, index: nat, count: nat, j: int)
    requires index + count <= |es| && 0 <= j < |es| - count
    ensures var r := Recompute(Removed(es, index, count));
      r[j] == (if j < index then es[j] else es[j + count]).(prefixHeight := r[j].prefixHeight)
  {
    RecomputeKeepsFields(Removed(es, index, count));
  }

  /**
   * RestrainLogEntryNum's list: nothing changes while there are at most `num`
   * entries; otherwise the oldest are removed as RemoveRange(0, |es| - num) does.
   */
  function Restrained(es: seq<LogEntry>, num: int): (r: seq<LogEntry>)
    requires num >= 0
    ensures |es| <= num ==> r == es
    ensures |es| > num ==> |r| == num
    ensures PrefixConsistent(es) ==> PrefixConsistent(r)
  {
    if |es| <= num then es else Recompute(Removed(es, 0, |es| - num))
  }

  /** Capping keeps the newest `num` entries in order, changing nothing but their prefix heights. */
  lemma RestrainedKeepsNewest(es: seq<LogEntry>, num: int, i: int)
    requires 0 <= num < |es| && 0 <= i < num
    ensures Restrained(es, num)[i] == es[|es| - num + i].(prefixHeight := Restrained(es, num)[i].prefixHeight)
  {
    var rest := Removed(es, 0, |es| - num);
    RecomputeKeepsFields(rest);
    assert rest[i] == es[|es| - num + i];
  }

  // ---------------------------------------------------------------- overlay

  /** What `RemoveAll` keeps: the restore data whose index is outside [lo, hi), in order. */
  function Kept(rs: seq<LogEntryRestoreData>, lo: int, hi: int): (r: seq<LogEntryRestoreData>)
    ensures |r| <= |rs|
    ensures forall y :: y in r ==> y in rs && !(lo <= y.index < hi)
  {
    if rs == [] then []
    else
      var last := rs[|rs| - 1];
      Kept(rs[..|rs| - 1], lo, hi) + (if lo <= last.index < hi then [] else [last])
  }

  /** One overlay entry after `count` entries from `lo` on were removed. */
  function Shift(x: LogEntryRestoreData, lo: int, count: int): LogEntryRestoreData
  {
    if x.index >= lo then x.(index := x.index - count) else x
  }

  /** What the `ForEach` leaves: every index at or after `lo` moved down by `count`. */
  function Shifted(rs: seq<LogEntryRestoreData>, lo: int, count: int): seq<LogEntryRestoreData>
  {
    seq(|rs|, i requires 0 <= i < |rs| => Shift(rs[i], lo, count))
  }

  /** RemoveRange's overlay: drop the restore data of removed entries, renumber the rest. */
  function Adjusted(rs: seq<LogEntryRestoreData>, index: int, count: int): seq<LogEntryRestoreData>
  {
    Shifted(Kept(rs, index, index + count), index, count)
  }

  lemma {:induction false} KeptContainsSurvivors(rs: seq<LogEntryRestoreData>, lo: int, hi: int, x: LogEntryRestoreData)
    requires x in rs && !(lo <= x.index < hi)
    ensures x in Kept(rs, lo, hi)
  {
    var front := rs[..|rs| - 1];
    if x != rs[|rs| - 1] {
      assert rs == front + [rs[|rs| - 1]];
      KeptContainsSurvivors(front, lo, hi, x);
    }
  }

  /** RemoveAll preserves order: filtering a concatenation concatenates the filtered parts. */
  lemma {:induction false} KeptAppend(a: seq<LogEntryRestoreData>, b: seq<LogEntryRestoreData>, lo: int, hi: int)
    ensures Kept(a + b, lo, hi) == Kept(a, lo, hi) + Kept(b, lo, hi)
  {
    if b == [] {
      assert a + b == a;
    } else {
      var front := b[..|b| - 1];
      assert (a + b)[..|a + b| - 1] == a + front;
      KeptAppend(a, front, lo, hi);
    }
  }

  lemma ShiftedAppend(a: seq<LogEntryRestoreData>, b: seq<LogEntryRestoreData>, lo: int, count: int)
    ensures Shifted(a + b, lo, count) == Shifted(a, lo, count) + Shifted(b, lo, count)
  {
  }

  lemma ShiftedMembership(rs: seq<LogEntryRestoreData>, lo: int, count: int, x: LogEntryRestoreData)
    requires x in rs
    ensures Shift(x, lo, count) in Shifted(rs, lo, count)
  {
    var i :| 0 <= i < |rs| && rs[i] == x;
    assert Shifted(rs, lo, count)[i] == Shift(x, lo, count);
  }

  /**
   * What RemoveRange(index, count) does to the overlay, first half: every
   * surviving entry is an old entry whose index lies outside the removed range,
   * renumbered by Shift.
   */
  lemma AdjustedOnlySurvivors(rs: seq<LogEntryRestoreData>, index: int, count: int, y: LogEntryRestoreData)
    requires y in Adjusted(rs, index, count)
    ensures exists x :: x in rs && !(index <= x.index < index + count) && y == Shift(x, index, count)
  {
    var k := Kept(rs, index, index + count);
    var i :| 0 <= i < |k| && Shift(k[i], index, count) == y;
    assert k[i] in k;
  }

  /**
   * Second half: every old entry whose index lies outside the removed range
   * survives, those before the range with their index, those after it moved
   * down by `count`.
   */
  lemma AdjustedKeepsSurvivors(rs: seq<LogEntryRestoreData>, index: int, count: int, x: LogEntryRestoreData)
    requires x in rs && !(index <= x.index < index + count)
    ensures Shift(x, index, count) in Adjusted(rs, index, count)
  {
    var k := Kept(rs, index, index + count);
    KeptContainsSurvivors(rs, index, index + count, x);
    ShiftedMembership(k, index, count, x);
    assert Shifted(k, index, count) == Adjusted(rs, index, count);
  }

  lemma AdjustedAppend(a: seq<LogEntryRestoreData>, b: seq<LogEntryRestoreData>, index: int, count: int)
    ensures Adjusted(a + b, index, count) == Adjusted(a, index, count) + Adjusted(b, index, count)
  {
    KeptAppend(a, b, index, index + count);
    ShiftedAppend(Kept(a, index, index + count), Kept(b, index, index + count), index, count);
  }

  /**
   * The overlay refers to positions of the log: every index is in [0, n] for
   * a log of n entries (n itself for a line whose entry was not added), and
   * the indices never decrease along the list.
   */
  ghost predicate OverlayConsistent(rs: seq<LogEntryRestoreData>, n: int)
  {
    && (forall k :: 0 <= k < |rs| ==> 0 <= rs[k].index <= n)
    && (forall k1, k2 :: 0 <= k1 < k2 < |rs| ==> rs[k1].index <= rs[k2].index)
  }

  /** An entry at or after every index already present, and within the log, extends a consistent overlay. */
  lemma OverlayAppend(rs: seq<LogEntryRestoreData>, n: int, x: LogEntryRestoreData)
    requires OverlayConsistent(rs, n) && 0 <= x.index <= n
    requires forall y :: y in rs ==> y.index <= x.index
    ensures OverlayConsistent(rs + [x], n)
  {
    var r := rs + [x];
    forall k1, k2 | 0 <= k1 < k2 < |r|
      ensures r[k1].index <= r[k2].index
    {
      if k2 < |rs| {
        assert r[k1] == rs[k1] && r[k2] == rs[k2];
      } else {
        assert r[k1] == rs[k1] && rs[k1] in rs;
      }
    }
  }

  lemma {:induction false} KeptConsistent(rs: seq<LogEntryRestoreData>, n: int, lo: int, hi: int)
    requires OverlayConsistent(rs, n)
    ensures OverlayConsistent(Kept(rs, lo, hi), n)
  {
    if rs != [] {
      var front, last := rs[..|rs| - 1], rs[|rs| - 1];
      assert OverlayConsistent(front, n);
      KeptConsistent(front, n, lo, hi);
      var kf := Kept(front, lo, hi);
      if !(lo <= last.index < hi) {
        forall y | y in kf
          ensures y.index <= last.index
        {
          var j :| 0 <= j < |front| && front[j] == y;
        }
        OverlayAppend(kf, n, last);
      }
    }
  }

  /** RemoveRange keeps the overlay consistent with the shortened log. */
  lemma AdjustedConsistent(rs: seq<LogEntryRestoreData>, n: int, index: int, count: int)
    requires OverlayConsistent(rs, n)
    requires 0 <= index && 0 <= count && index + count <= n
    ensures OverlayConsistent(Adjusted(rs, index, count), n - count)
  {
    var k := Kept(rs, index, index + count);
    KeptConsistent(rs, n, index, index + count);
    forall i | 0 <= i < |k|
      ensures !(index <= k[i].index < index + count)
    {
      assert k[i] in k;
    }
  }

  /** The overlay after a dialogue change at log length `n`: a line that needs interpolation notes its display data. */
  function Noted(rs: seq<LogEntryRestoreData>, n: int, needInterpolate: bool, d: DialogueDisplayData): seq<LogEntryRestoreData>
  {
    if needInterpolate then rs + [LogEntryRestoreData(n, d)] else rs
  }

  /** The overlay after capping a log of `n` entries at `num`: RemoveRange(0, n - num) when there are too many. */
  function Capped(rs: seq<LogEntryRestoreData>, n: int, num: int): seq<LogEntryRestoreData>
  {
    if n > num then Adjusted(rs, 0, n - num) else rs
  }

  /** Capping the log keeps the overlay consistent with the capped log. */
  lemma CappedConsistent(rs: seq<LogEntryRestoreData>, es: seq<LogEntry>, num: int)
    requires OverlayConsistent(rs, |es|) && num >= 0
    ensures OverlayConsistent(Capped(rs, |es|, num), |Restrained(es, num)|)
  {
    if |es| > num {
      AdjustedConsistent(rs, |es|, 0, |es| - num);
    }
  }

  /**
   * A dialogue change keeps the overlay consistent: noting the display data at
   * the current end, growing the log by at most one entry and then capping it.
   */
  lemma DialogueChangedConsistent(rs: seq<LogEntryRestoreData>, es: seq<LogEntry>, grown: seq<LogEntry>, num: int,
                                  needInterpolate: bool, d: DialogueDisplayData)
    requires OverlayConsistent(rs, |es|) && num >= 0
    requires |grown| == |es| || |grown| == |es| + 1
    ensures OverlayConsistent(Capped(Noted(rs, |es|, needInterpolate, d), |grown|, num), |Restrained(grown, num)|)
  {
    var noted := Noted(rs, |es|, needInterpolate, d);
    assert OverlayConsistent(noted, |grown|);
    CappedConsistent(noted, grown, num);
  }

  // ---------------------------------------------------------------- go back

  /**
   * Go-back clicks: from selection `selected`, a click on entry `index` gives the
   * new selection and whether the confirmation is requested.
   */
  function Click(selected: int, index: int): (r: (int, bool))
  {
    if index == selected then (-1, true) else (index, false)
  }

  /** A click confirms exactly when it repeats the selected entry, and a confirming click clears the selection. */
  lemma ClickConfirmsOnlyRepeat(selected: int, index: int)
    ensures Click(selected, index).1 <==> index == selected
    ensures Click(selected, index).1 ==> Click(selected, index).0 == -1
    ensures !Click(selected, index).1 ==> Click(selected, index).0 == index
  {
  }

  /** From any other selection, two clicks on the same entry confirm on the second one. */
  lemma DoubleClickConfirms(selected: int, index: int)
    requires selected != index
    ensures !Click(selected, index).1
    ensures Click(Click(selected, index).0, index) == (-1, true)
  {
  }

  // ---------------------------------------------------------------- restore

  /** The log being rebuilt and the cursor into the overlay. */
  datatype ReplayState = ReplayState(entries: seq<LogEntry>, cursor: nat)

  /** Whether the overlay entry under the cursor belongs to the next log position. */
  predicate OverlayMatches(overlay: seq<LogEntryRestoreData>, st: ReplayState)
  {
    st.cursor < |overlay| && overlay[st.cursor].index == |st.entries|
  }

  /** One history step of Restore. */
  function ReplayStep(overlay: seq<LogEntryRestoreData>, st: ReplayState, pos: DialogueHistoryEntry,
                      reached: (NodeName, int) -> ReachedDialogueData,
                      lookup: (NodeName, int) -> DialogueDisplayData,
                      measure: string -> real): ReplayState
  {
    var dialogueData := reached(pos.nodeRecord.name, pos.dialogueIndex);
    var matches := OverlayMatches(overlay, st);
    var displayData := if matches then overlay[st.cursor].displayData else lookup(pos.nodeRecord.name, pos.dialogueIndex);
    ReplayState(
      AddedEntries(st.entries, measure, pos.nodeRecord.offset, pos.checkpointOffset, dialogueData, displayData),
      if matches then st.cursor + 1 else st.cursor)
  }

  /** Restore's loop over the first `|history|` steps, from an empty log and the overlay's head. */
  function Replay(overlay: seq<LogEntryRestoreData>, history: seq<DialogueHistoryEntry>,
                  reached: (NodeName, int) -> ReachedDialogueData,
                  lookup: (NodeName, int) -> DialogueDisplayData,
                  measure: string -> real): ReplayState
  {
    if history == [] then ReplayState([], 0)
    else
      ReplayStep(overlay, Replay(overlay, history[..|history| - 1], reached, lookup, measure),
                 history[|history| - 1], reached, lookup, measure)
  }

  /** Replaying one more step of the history is one more ReplayStep. */
  lemma ReplayExtend(overlay: seq<LogEntryRestoreData>, history: seq<DialogueHistoryEntry>, h: nat,
                     reached: (NodeName, int) -> ReachedDialogueData,
                     lookup: (NodeName, int) -> DialogueDisplayData,
                     measure: string -> real)
    requires h < |history|
    ensures Replay(overlay, history[..h + 1], reached, lookup, measure)
         == ReplayStep(overlay, Replay(overlay, history[..h], reached, lookup, measure), history[h], reached, lookup, measure)
  {
    assert history[..h + 1][..h] == history[..h];
  }

  /**
   * What Restore keeps true while it rebuilds the log: the cursor stays inside
   * the overlay; the log is consistent; every consumed overlay entry was consumed
   * at a log position equal to its index, in non-decreasing index order, and,
   * if its text was not empty, its display data is the one shown at that position.
   */
  ghost predicate ReplayInvariant(overlay: seq<LogEntryRestoreData>, st: ReplayState)
  {
    && st.cursor <= |overlay|
    && PrefixConsistent(st.entries)
    && (forall k :: 0 <= k < st.cursor ==> 0 <= overlay[k].index <= |st.entries|)
    && (forall k :: 0 <= k < st.cursor && overlay[k].displayData.text != "" ==>
          0 <= overlay[k].index < |st.entries| && st.entries[overlay[k].index].displayData == overlay[k].displayData)
    && (forall k1, k2 :: 0 <= k1 < k2 < st.cursor ==> overlay[k1].index <= overlay[k2].index)
  }

  /**
   * One step consumes the overlay entry under the cursor exactly when its index
   * equals the current number of entries, advances the cursor by at most one,
   * only ever appends to the log, and keeps the invariant.
   */
  lemma ReplayStepProperties(overlay: seq<LogEntryRestoreData>, st: ReplayState, pos: DialogueHistoryEntry,
                             reached: (NodeName, int) -> ReachedDialogueData,
                             lookup: (NodeName, int) -> DialogueDisplayData,
                             measure: string -> real)
    requires ReplayInvariant(overlay, st)
    ensures var st' := ReplayStep(overlay, st, pos, reached, lookup, measure);
      && (st'.cursor == st.cursor + 1 <==> OverlayMatches(overlay, st))
      && (st'.cursor == st.cursor <==> !OverlayMatches(overlay, st))
      && st.entries <= st'.entries && |st'.entries| <= |st.entries| + 1
      && ReplayInvariant(overlay, st')
  {
    var st' := ReplayStep(overlay, st, pos, reached, lookup, measure);
    var n := |st.entries|;
    assert st'.entries[..n] == st.entries;
    forall k | 0 <= k < st'.cursor && overlay[k].displayData.text != ""
      ensures 0 <= overlay[k].index < |st'.entries| && st'.entries[overlay[k].index].displayData == overlay[k].displayData
    {
      if k < st.cursor {
        assert st'.entries[overlay[k].index] == st.entries[overlay[k].index];
      }
    }
  }

  /** The invariant holds after every prefix of the history, and the cursor and the log only grow. */
  lemma {:induction false} ReplayProperties(overlay: seq<LogEntryRestoreData>, history: seq<DialogueHistoryEntry>,
                                            reached: (NodeName, int) -> ReachedDialogueData,
                                            lookup: (NodeName, int) -> DialogueDisplayData,
                                            measure: string -> real)
    ensures ReplayInvariant(overlay, Replay(overlay, history, reached, lookup, measure))
    ensures |Replay(overlay, history, reached, lookup, measure).entries| <= |history|
    ensures Replay(overlay, history, reached, lookup, measure).cursor <= |history|
  {
    if history != [] {
      var front := history[..|history| - 1];
      ReplayProperties(overlay, front, reached, lookup, measure);
      ReplayStepProperties(overlay, Replay(overlay, front, reached, lookup, measure), history[|history| - 1],
                           reached, lookup, measure);
    }
  }

  /** The cursor never moves back and the rebuilt log is only ever extended, as history is replayed further. */
  lemma {:induction false} ReplayMonotone(overlay: seq<LogEntryRestoreData>, history: seq<DialogueHistoryEntry>, j: nat,
                                          reached: (NodeName, int) -> ReachedDialogueData,
                                          lookup: (NodeName, int) -> DialogueDisplayData,
                                          measure: string -> real)
    requires j <= |history|
    ensures Replay(overlay, history[..j], reached, lookup, measure).cursor <= Replay(overlay, history, reached, lookup, measure).cursor
    ensures Replay(overlay, history[..j], reached, lookup, measure).entries <= Replay(overlay, history, reached, lookup, measure).entries
  {
    if j < |history| {
      var front := history[..|history| - 1];
      assert history[..j] == front[..j];
      ReplayMonotone(overlay, front, j, reached, lookup, measure);
      ReplayProperties(overlay, front, reached, lookup, measure);
      ReplayStepProperties(overlay, Replay(overlay, front, reached, lookup, measure), history[|history| - 1],
                           reached, lookup, measure);
    } else {
      assert history[..j] == history;
    }
  }
}
