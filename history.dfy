/**
 * The editor's undo/redo history (src/PosterEditor.js): a bounded log of
 * scene snapshots, a cursor `historyIndex` at the current entry and a flag
 * `isHistoryProcessing` that is set while a snapshot is being replayed.
 *
 * A snapshot is the serialised scene the canvas produces; it is opaque here
 * and supplied by the caller. The log's behaviour is first given as pure
 * step functions over `Log` values; the class `HistoryManager` then does
 * the same work in place, and each of its methods is proved to perform the
 * corresponding step.
 */
module History {
  import opened Wrappers

  /** `historyMaxLength`. */
  const HistoryMaxLength: nat := 50

  type Snapshot = string

  /** The three history fields: `history`, `historyIndex`, `isHistoryProcessing`. */
  datatype Log = Log(entries: seq<Snapshot>, cursor: int, replaying: bool)

  /** Which load-completion callback is finishing: the one `undo` or the one `redo` handed over. */
  datatype ReplayKind = UndoReplay | RedoReplay

  /** A cursor move: the log afterwards, and the snapshot to load into the canvas, if any. */
  datatype Move = Move(log: Log, load: Option<Snapshot>)

  /**
   * The cursor is -1 or points at an entry, the log never exceeds its bound,
   * and the cursor is -1 only while the log is empty.
   */
  predicate WellFormed(h: Log)
  {
    -1 <= h.cursor < |h.entries| <= HistoryMaxLength && (h.cursor == -1 ==> h.entries == [])
  }

  /** The state the constructor sets up. */
  function Initial(): (h: Log)
    ensures WellFormed(h) && !h.replaying
    ensures h.entries == [] && h.cursor == -1
  {
    Log([], -1, false)
  }

  /**
   * `saveToHistory(snapshot)`: nothing while replaying; otherwise cut off the
   * entries after the cursor, append the snapshot, and evict the oldest
   * entry when the log is over its bound (the cursor then stays put).
   */
  function SaveStep(h: Log, s: Snapshot): (r: Log)
    requires WellFormed(h)
    ensures WellFormed(r)
    ensures h.replaying ==> r == h
    ensures !h.replaying ==>
      var kept := h.entries[..h.cursor + 1] + [s];
      && !r.replaying
      && |r.entries| == (if |kept| <= HistoryMaxLength then |kept| else HistoryMaxLength)
      && r.entries == kept[|kept| - |r.entries|..]
      && r.cursor == |r.entries| - 1
      && r.entries[r.cursor] == s
  {
    if h.replaying then h
    else
      var kept := if h.cursor < |h.entries| - 1 then h.entries[..h.cursor + 1] else h.entries;
      var pushed := kept + [s];
      if |pushed| > HistoryMaxLength then Log(pushed[1..], h.cursor, false)
      else Log(pushed, h.cursor + 1, false)
  }

  /**
   * `undo()`: when the cursor is above 0, mark the log as replaying, move
   * the cursor back by one and load the entry it now points at; otherwise
   * change nothing and load nothing. The entries never change.
   */
  function UndoStep(h: Log): (r: Move)
    requires WellFormed(h)
    ensures WellFormed(r.log) && r.log.entries == h.entries
    ensures r.load.Some? <==> h.cursor > 0
    ensures r.load.None? ==> r.log == h
    ensures r.load.Some? ==>
      r.log.replaying && r.log.cursor == h.cursor - 1 && r.load.value == r.log.entries[r.log.cursor]
  {
    if h.cursor > 0 then
      var moved := h.(replaying := true, cursor := h.cursor - 1);
      Move(moved, Some(h.entries[moved.cursor]))
    else Move(h, None)
  }

  /**
   * `redo()`: when the cursor is below the newest entry, mark the log as
   * replaying, move the cursor forward by one and load the entry it now
   * points at; otherwise change nothing and load nothing.
   */
  function RedoStep(h: Log): (r: Move)
    requires WellFormed(h)
    ensures WellFormed(r.log) && r.log.entries == h.entries
    ensures r.load.Some? <==> h.cursor < |h.entries| - 1
    ensures r.load.None? ==> r.log == h
    ensures r.load.Some? ==>
      r.log.replaying && r.log.cursor == h.cursor + 1 && r.load.value == r.log.entries[r.log.cursor]
  {
    if h.cursor < |h.entries| - 1 then
      var moved := h.(replaying := true, cursor := h.cursor + 1);
      Move(moved, Some(h.entries[moved.cursor]))
    else Move(h, None)
  }

  /** The load-completion callback: the only step that clears the replay flag. */
  function FinishStep(h: Log): (r: Log)
    ensures !r.replaying && r.entries == h.entries && r.cursor == h.cursor
  {
    h.(replaying := false)
  }

  /** A canvas add/modify/remove event: a snapshot is taken only while not replaying. */
  function MutationStep(h: Log, s: Snapshot): (r: Log)
    requires WellFormed(h)
    ensures WellFormed(r)
    ensures h.replaying ==> r == h
    ensures !h.replaying ==> r == SaveStep(h, s)
  {
    if !h.replaying then SaveStep(h, s) else h
  }

  /** What can happen to the log: a canvas mutation, an undo, a redo, or a load completing. */
  datatype Event = Mutation(snapshot: Snapshot) | Undo | Redo | Finish

  function Apply(h: Log, ev: Event): (r: Log)
    requires WellFormed(h)
    ensures WellFormed(r)
  {
    match ev
    case Mutation(s) => MutationStep(h, s)
    case Undo => UndoStep(h).log
    case Redo => RedoStep(h).log
    case Finish => FinishStep(h)
  }

  /** The log after a sequence of events, in order. */
  function Run(h: Log, evs: seq<Event>): Log
    requires WellFormed(h)
    decreases |evs|
  {
    if evs == [] then h else Run(Apply(h, evs[0]), evs[1..])
  }

  /**
   * Every sequence of events from the initial state keeps the cursor within
   * the log and the log within its bound.
   */
  lemma {:induction false} RunWellFormed(h: Log, evs: seq<Event>)
    requires WellFormed(h)
    ensures WellFormed(Run(h, evs))
    decreases |evs|
  {
    if evs != [] {
      RunWellFormed(Apply(h, evs[0]), evs[1..]);
    }
  }

  lemma ReachableWellFormed(evs: seq<Event>)
    ensures var h := Run(Initial(), evs); -1 <= h.cursor < |h.entries| <= HistoryMaxLength
  {
    RunWellFormed(Initial(), evs);
  }

  /** A save from a full log whose cursor is at the newest entry evicts exactly the oldest entry. */
  lemma SaveEvictsOldest(h: Log, s: Snapshot)
    requires WellFormed(h) && !h.replaying
    requires |h.entries| == HistoryMaxLength && h.cursor == |h.entries| - 1
    ensures SaveStep(h, s).entries == h.entries[1..] + [s]
    ensures SaveStep(h, s).cursor == h.cursor
  {
    assert h.entries[..h.cursor + 1] == h.entries;
  }

  /** After a save (outside a replay) there is nothing to redo: the redo branch is gone. */
  lemma SaveCutsRedo(h: Log, s: Snapshot)
    requires WellFormed(h) && !h.replaying
    ensures RedoStep(SaveStep(h, s)).load.None?
    ensures RedoStep(SaveStep(h, s)).log == SaveStep(h, s)
  {
  }

  /**
   * Once the cursor is at the newest entry, redo stays a no-op until an undo:
   * saves keep the cursor at the newest entry, redos there do nothing, and
   * completions only clear the flag.
   */
  lemma {:induction false} RedoStaysBlocked(h: Log, evs: seq<Event>)
    requires WellFormed(h) && h.cursor == |h.entries| - 1
    requires forall i :: 0 <= i < |evs| ==> evs[i] != Undo
    ensures WellFormed(Run(h, evs))
    ensures Run(h, evs).cursor == |Run(h, evs).entries| - 1
    ensures RedoStep(Run(h, evs)).load.None?
    decreases |evs|
  {
    RunWellFormed(h, evs);
    if evs != [] {
      assert evs[0] != Undo;
      var next := Apply(h, evs[0]);
      assert next.cursor == |next.entries| - 1;
      assert forall i :: 0 <= i < |evs[1..]| ==> evs[1..][i] == evs[i + 1];
      RedoStaysBlocked(next, evs[1..]);
    }
  }

  /** After a save, no redo can happen before the next undo. */
  lemma SaveBlocksRedo(h: Log, s: Snapshot, evs: seq<Event>)
    requires WellFormed(h) && !h.replaying
    requires forall i :: 0 <= i < |evs| ==> evs[i] != Undo
    ensures WellFormed(Run(SaveStep(h, s), evs))
    ensures RedoStep(Run(SaveStep(h, s), evs)).load.None?
  {
    RedoStaysBlocked(SaveStep(h, s), evs);
  }

  /** A replay in progress shields the log from the mutations its own load fires. */
  lemma ReplayIgnoresMutations(h: Log, ss: seq<Snapshot>)
    requires WellFormed(h) && h.replaying
    ensures Run(h, MutationsOf(ss)) == h
    decreases |ss|
  {
    if ss != [] {
      assert MutationsOf(ss)[1..] == MutationsOf(ss[1..]);
      ReplayIgnoresMutations(h, ss[1..]);
    }
  }

  /** One mutation event per snapshot, in order. */
  function MutationsOf(ss: seq<Snapshot>): seq<Event>
  {
    if ss == [] then [] else [Mutation(ss[0])] + MutationsOf(ss[1..])
  }

  /** The newest `n` entries of `s` (all of them when there are fewer). */
  function Newest(s: seq<Snapshot>, n: nat): (r: seq<Snapshot>)
    ensures |r| == if |s| <= n then |s| else n
  {
    if |s| <= n then s else s[|s| - n..]
  }

  /**
   * Committing snapshots one after another outside a replay keeps exactly the
   * newest `HistoryMaxLength` of the surviving entries followed by the new
   * snapshots; the cursor ends at the newest entry.
   */
  lemma {:induction false} SavesKeepNewest(h: Log, ss: seq<Snapshot>)
    requires WellFormed(h) && !h.replaying && ss != []
    ensures var r := Run(h, MutationsOf(ss));
      && r.entries == Newest(h.entries[..h.cursor + 1] + ss, HistoryMaxLength)
      && r.cursor == |r.entries| - 1 && !r.replaying
    decreases |ss|
  {
    if |ss| == 1 {
      SaveOnce(h, ss[0]);
      assert ss == [ss[0]];
    } else {
      RunFirstMutation(h, ss);
      SavesKeepNewest(SaveStep(h, ss[0]), ss[1..]);
      SaveThenNewest(h, ss);
    }
  }

  /** The base case: a single mutation outside a replay is one save. */
  lemma SaveOnce(h: Log, s: Snapshot)
    requires WellFormed(h) && !h.replaying
    ensures var r := Run(h, MutationsOf([s]));
      && r.entries == Newest(h.entries[..h.cursor + 1] + [s], HistoryMaxLength)
      && r.cursor == |r.entries| - 1 && !r.replaying
  {
    RunFirstMutation(h, [s]);
    assert Run(SaveStep(h, s), MutationsOf([])) == SaveStep(h, s);
    SaveIsNewest(h, s);
  }

  /** The snapshots after the first one see the log the first save left. */
  lemma SaveThenNewest(h: Log, ss: seq<Snapshot>)
    requires WellFormed(h) && !h.replaying && ss != []
    ensures var next := SaveStep(h, ss[0]);
      Newest(next.entries[..next.cursor + 1] + ss[1..], HistoryMaxLength)
      == Newest(h.entries[..h.cursor + 1] + ss, HistoryMaxLength)
  {
    SaveIsNewest(h, ss[0]);
    NewestCons(h.entries[..h.cursor + 1], ss, HistoryMaxLength);
  }

  lemma NewestCons(kept: seq<Snapshot>, ss: seq<Snapshot>, n: nat)
    requires ss != []
    ensures Newest(Newest(kept + [ss[0]], n) + ss[1..], n) == Newest(kept + ss, n)
  {
    NewestAppend(kept + [ss[0]], ss[1..], n);
    assert (kept + [ss[0]]) + ss[1..] == kept + ss;
  }

  lemma RunFirstMutation(h: Log, ss: seq<Snapshot>)
    requires WellFormed(h) && !h.replaying && ss != []
    ensures Run(h, MutationsOf(ss)) == Run(SaveStep(h, ss[0]), MutationsOf(ss[1..]))
  {
    assert MutationsOf(ss)[0] == Mutation(ss[0]);
    assert MutationsOf(ss)[1..] == MutationsOf(ss[1..]);
  }

  /** One save keeps the newest entries of what survives the cut, followed by the snapshot. */
  lemma SaveIsNewest(h: Log, s: Snapshot)
    requires WellFormed(h) && !h.replaying
    ensures var r := SaveStep(h, s);
      && r.entries == Newest(h.entries[..h.cursor + 1] + [s], HistoryMaxLength)
      && r.entries[..r.cursor + 1] == r.entries
  {
    var r := SaveStep(h, s);
    assert r.entries[..r.cursor + 1] == r.entries;
  }

  /** Trimming to the newest `n` before appending does not change the newest `n` after. */
  lemma NewestAppend(a: seq<Snapshot>, b: seq<Snapshot>, n: nat)
    ensures Newest(Newest(a, n) + b, n) == Newest(a + b, n)
  {
    if |a| > n {
      var t := a[|a| - n..];
      assert (t + b) == (a + b)[|a| - n..];
      if |t + b| > n {
        assert (t + b)[|t + b| - n..] == (a + b)[|a + b| - n..];
      }
    }
  }

  /**
   * More than `HistoryMaxLength` saves in a row: the log holds exactly the
   * last `HistoryMaxLength` snapshots, so every earlier one is gone.
   */
  lemma ManySavesFillTheLog(h: Log, ss: seq<Snapshot>)
    requires WellFormed(h) && !h.replaying
    requires |ss| >= HistoryMaxLength
    ensures var r := Run(h, MutationsOf(ss));
      && |r.entries| == HistoryMaxLength
      && r.entries == ss[|ss| - HistoryMaxLength..]
  {
    var r := Run(h, MutationsOf(ss));
    SavesKeepNewest(h, ss);
    assert r.entries == Newest(h.entries[..h.cursor + 1] + ss, HistoryMaxLength);
    NewestOfLonger(h.entries[..h.cursor + 1], ss, HistoryMaxLength);
  }

  lemma NewestOfLonger(a: seq<Snapshot>, b: seq<Snapshot>, n: nat)
    requires |b| >= n
    ensures Newest(a + b, n) == b[|b| - n..]
  {
    assert (a + b)[|a + b| - n..] == b[|b| - n..];
  }

  /** `n` undos in a row. */
  function Undos(h: Log, n: nat): (r: Log)
    requires WellFormed(h)
    ensures WellFormed(r) && r.entries == h.entries
    decreases n
  {
    if n == 0 then h else Undos(UndoStep(h).log, n - 1)
  }

  /** `n` redos in a row. */
  function Redos(h: Log, n: nat): (r: Log)
    requires WellFormed(h)
    ensures WellFormed(r) && r.entries == h.entries
    decreases n
  {
    if n == 0 then h else Redos(RedoStep(h).log, n - 1)
  }

  /** `n` undos move the cursor back by `n` while the cursor stays at 0 or above. */
  lemma {:induction false} UndosMoveBack(h: Log, n: nat)
    requires WellFormed(h) && n <= h.cursor
    ensures Undos(h, n) == h.(cursor := h.cursor - n, replaying := h.replaying || n > 0)
    decreases n
  {
    if n > 0 {
      UndosMoveBack(UndoStep(h).log, n - 1);
    }
  }

  /** `n` redos move the cursor forward by `n` while there are entries ahead. */
  lemma {:induction false} RedosMoveForward(h: Log, n: nat)
    requires WellFormed(h) && h.cursor + n < |h.entries|
    ensures Redos(h, n) == h.(cursor := h.cursor + n, replaying := h.replaying || n > 0)
    decreases n
  {
    if n > 0 {
      RedosMoveForward(RedoStep(h).log, n - 1);
    }
  }

  /**
   * Undo then redo are inverse: `n` undos followed by `n` redos return the
   * cursor to where it was, with the entries untouched, and the last redo
   * loads the entry the cursor started at.
   */
  lemma UndoRedoInverse(h: Log, n: nat)
    requires WellFormed(h) && 0 < n <= h.cursor
    ensures Redos(Undos(h, n), n) == h.(replaying := true)
    ensures RedoStep(Redos(Undos(h, n), n - 1)).load == Some(h.entries[h.cursor])
  {
    UndosMoveBack(h, n);
    var back := Undos(h, n);
    RedosMoveForward(back, n);
    RedosMoveForward(back, n - 1);
  }

  /** An undo that happened is undone by one redo, which reloads the entry undo left. */
  lemma UndoThenRedo(h: Log)
    requires WellFormed(h) && h.cursor > 0
    ensures RedoStep(UndoStep(h).log).log == h.(replaying := true)
    ensures RedoStep(UndoStep(h).log).load == Some(h.entries[h.cursor])
  {
  }

  /**
   * `undo` and `redo` do not look at the flag, so two undos may be issued
   * before the first load completes; the first completion then clears the
   * flag while the second load is still pending, and capture is open again.
   */
  lemma EarlyFinishReopensCapture(h: Log, s: Snapshot)
    requires WellFormed(h) && h.cursor >= 2
    ensures var r := Run(h, [Undo, Undo, Finish]);
      r.cursor == h.cursor - 2 && !r.replaying && MutationStep(r, s) != r
  {
    var r := Run(h, [Undo, Undo, Finish]);
    assert [Undo, Undo, Finish][1..] == [Undo, Finish];
    assert [Undo, Finish][1..] == [Finish];
    assert SaveStep(r, s).cursor == |SaveStep(r, s).entries| - 1;
  }

  /** Two additions from the empty log give two entries with the cursor on the second. */
  lemma TwoAdditions(rect: Snapshot, rectAndCircle: Snapshot)
    ensures MutationStep(MutationStep(Initial(), rect), rectAndCircle) == Log([rect, rectAndCircle], 1, false)
  {
    var one := MutationStep(Initial(), rect);
    assert one == Log([rect], 0, false);
    assert one.entries[..1] + [rectAndCircle] == [rect, rectAndCircle];
  }

  /**
   * From there one undo moves to the first entry and loads it; once that load
   * completes, a second undo is a no-op, since the empty scene before the
   * first addition was never captured.
   */
  lemma UndoToFirstAddition(rect: Snapshot, rectAndCircle: Snapshot)
    ensures var u := UndoStep(Log([rect, rectAndCircle], 1, false));
      && u == Move(Log([rect, rectAndCircle], 0, true), Some(rect))
      && UndoStep(FinishStep(u.log)) == Move(Log([rect, rectAndCircle], 0, false), None)
  {
  }

  /** The undo/redo history, with the source's field names. */
  class HistoryManager {
    var history: seq<Snapshot>
    var historyIndex: int
    var isHistoryProcessing: bool
    /** Which kinds of load callback (undo or redo) have been handed to the canvas. */
    ghost var pending: set<ReplayKind>

    function State(): Log
      reads this
    {
      Log(history, historyIndex, isHistoryProcessing)
    }

    ghost predicate Valid()
      reads this
    {
      WellFormed(State())
    }

    constructor ()
      ensures Valid() && State() == Initial() && pending == {}
    {
      pending := {};
      history := [];
      historyIndex := -1;
      isHistoryProcessing := false;
    }

    method SaveToHistory(snapshot: Snapshot)
      requires Valid()
      modifies this
      ensures Valid() && State() == SaveStep(old(State()), snapshot)
      ensures pending == old(pending)
    {
      if !isHistoryProcessing {
        var kept := if historyIndex < |history| - 1 then history[..historyIndex + 1] else history;
        var pushed := kept + [snapshot];
        if |pushed| > HistoryMaxLength {
          history := pushed[1..];
        } else {
          history := pushed;
          historyIndex := historyIndex + 1;
        }
      }
    }

    /** Returns the snapshot handed to the canvas to load, if the undo happened. */
    method Undo() returns (load: Option<Snapshot>)
      requires Valid()
      modifies this
      ensures Valid() && State() == UndoStep(old(State())).log
      ensures load == UndoStep(old(State())).load
      ensures pending == old(pending) + (if load.Some? then {UndoReplay} else {})
    {
      load := None;
      if historyIndex > 0 {
        pending := pending + {UndoReplay};
        isHistoryProcessing := true;
        historyIndex := historyIndex - 1;
        load := Some(history[historyIndex]);
      }
    }

    /** Returns the snapshot handed to the canvas to load, if the redo happened. */
    method Redo() returns (load: Option<Snapshot>)
      requires Valid()
      modifies this
      ensures Valid() && State() == RedoStep(old(State())).log
      ensures load == RedoStep(old(State())).load
      ensures pending == old(pending) + (if load.Some? then {RedoReplay} else {})
    {
      load := None;
      if historyIndex < |history| - 1 {
        pending := pending + {RedoReplay};
        isHistoryProcessing := true;
        historyIndex := historyIndex + 1;
        load := Some(history[historyIndex]);
      }
    }

    /**
     * The callback an earlier `Undo` (`kind == UndoReplay`) or `Redo` handed
     * to the canvas load: clears the flag and names the event it emits. The
     * canvas may run a callback more than once, so it stays pending.
     */
    method FinishReplay(kind: ReplayKind) returns (event: string)
      requires Valid() && kind in pending
      modifies this
      ensures Valid() && State() == FinishStep(old(State())) && pending == old(pending)
      ensures event == if kind == UndoReplay then "history:undo" else "history:redo"
    {
      isHistoryProcessing := false;
      event := if kind == UndoReplay then "history:undo" else "history:redo";
    }

    /** The `object:added`/`object:modified`/`object:removed` hooks installed for the history. */
    method OnCanvasMutation(snapshot: Snapshot)
      requires Valid()
      modifies this
      ensures Valid() && State() == MutationStep(old(State()), snapshot)
      ensures pending == old(pending)
    {
      if !isHistoryProcessing {
        SaveToHistory(snapshot);
      }
    }
  }
}
