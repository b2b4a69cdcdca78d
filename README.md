# Poster editor: listener registry and undo/redo history

A Dafny model of two stateful parts of a browser poster editor. The editor is a thin layer over the fabric canvas library.

- **`EventRegistry`** models `src/EventEmitter.js`, the listener registry every editor object inherits. It maps event names to ordered lists of listeners and supports `on`, `once`, `off`, `emit`, `removeAllListeners`, `listenerCount` and `eventNames`.
  - Listeners are closures in JavaScript. Here each one is an abstract identity: `Fn(id)` for a function a caller registered, or `OnceWrapper(serial, target)` for the new closure `once` builds around `target`. A serial counter makes each wrapper distinct from every listener already stored, just as each call to `once` builds a new closure.
  - The class `Emitter` keeps the dictionary as a `map<string, seq<Listener>>` and changes it in place, as the source does.
  - `Emit` takes an oracle, the set `failing` of call positions whose listener throws. It returns the listeners it called, which are the list as it stood when the call started, together with the positions whose error was caught and logged.
  - Its invariant: no stored list is empty, and each once-wrapper appears at most once in a list.
- **`History`** models the undo/redo history in `src/PosterEditor.js`. It is a log of scene snapshots with a cursor (`historyIndex`), the bound `historyMaxLength` = 50, and the replay flag `isHistoryProcessing`.
  - A snapshot is an opaque string supplied by the caller. In the source it is the serialised canvas.
  - The step functions `SaveStep`, `UndoStep`, `RedoStep`, `FinishStep` and `MutationStep` on `Log` values are the specification. The class `HistoryManager` updates the three fields in place, and each of its methods is proved to perform the matching step.
  - `Undo`/`Redo` return the snapshot the canvas is asked to load. `FinishReplay` stands for the callback the canvas runs once that load completes: it clears the flag and names the event the callback emits. A ghost set `pending` records which kinds of callback (undo or redo) have been handed to the canvas, and `FinishReplay` runs only for one of them.
  - `undo`/`redo` do not look at the flag, so several cursor moves can happen before a `FinishReplay`. `EarlyFinishReopensCapture` shows that the first completion then reopens capture while a later load is still pending.
- **`ObjectLock`** models `lockSelected`/`unlockObject`. Each writes seven interaction flags on a canvas object. `lockSelected` also drops the canvas selection.

Behaviour of the code worth noting:
- A once-wrapper whose function throws stays registered. The wrapper calls `off` only after the function returns.
- There is no layer of call ids or timeouts around these operations, so none is modelled.
- The empty scene before the first mutation is never captured, so `undo` at cursor 0 is a no-op (`UndoToFirstAddition`).

## Model

| member | source | states |
|---|---|---|
| EventRegistry.Without | src/EventEmitter.js:31-33 | filtering keeps exactly the listeners of the list that are not dropped, and never lengthens it |
| EventRegistry.WithoutCount | src/EventEmitter.js:31-33 | a kept listener occurs as often as before; a dropped one not at all |
| EventRegistry.WithoutAppend | src/EventEmitter.js:31-33 | filtering distributes over concatenation, so survivors keep their relative order |
| EventRegistry.WithoutSingle | src/EventEmitter.js:31-33 | a one-element list is kept or emptied according to whether its listener is dropped |
| EventRegistry.WithoutWithout | src/EventEmitter.js:31-33 | filtering by one set then another equals filtering once by their union |
| EventRegistry.WithoutAbsent | src/EventEmitter.js:31-33 | filtering out listeners that do not occur returns the list unchanged |
| EventRegistry.Detach | src/EventEmitter.js:31-37 | the removal `off` performs: filter the event's list, delete the key once the list is empty; its properties are stated by DetachFacts, DetachTwice, DetachAbsent and DetachWellFormed |
| EventRegistry.DetachFacts | src/EventEmitter.js:31-37 | after removal the event holds its old listeners minus the dropped ones, in order; its key stays exactly when something is left; every other event is untouched |
| EventRegistry.DetachTwice | src/EventEmitter.js:31-37 | two removals from one event equal one removal of both sets |
| EventRegistry.DetachAbsent | src/EventEmitter.js:31-37 | removing listeners that are not registered leaves a registry without empty lists unchanged |
| EventRegistry.AppendWellFormed | src/EventEmitter.js:7-13 | appending a function, or a wrapper that appears nowhere yet, keeps the registry invariant |
| EventRegistry.DetachWellFormed | src/EventEmitter.js:31-37 | removal keeps the registry invariant: no empty list, wrappers allocated and unique per list |
| EventRegistry.RetiredMembers | src/EventEmitter.js:15-21 | during emit, a wrapper is retired exactly when it was called at a position whose function did not throw |
| EventRegistry.FailuresLogged | src/EventEmitter.js:45-51 | exactly the calls that threw are logged, each once, in the order they ran |
| EventRegistry.RetireStep | src/EventEmitter.js:45-51 | each call of the emit loop retires at most the listener it called, and only if it is a wrapper whose function returned |
| EventRegistry.OnceRetiredIffReturned | src/EventEmitter.js:15-21 | a wrapper occurring once is retired if and only if its function returned normally |
| EventRegistry.EmitRetiresOnce | src/EventEmitter.js:42-54 | after emit, a called wrapper remains if and only if its function threw; a plain listener always remains |
| EventRegistry.OffSparesWrapper | src/EventEmitter.js:15-21 | off(e, f) never removes the once-wrapper built around f |
| EventRegistry.Emitter.constructor | src/EventEmitter.js:3-5 | a new registry is empty and satisfies the invariant |
| EventRegistry.Emitter.On | src/EventEmitter.js:7-13 | appends the listener at the end of the event's list, creating the list if absent; other events untouched; invariant kept |
| EventRegistry.Emitter.Once | src/EventEmitter.js:15-21 | registers a wrapper distinct from every stored listener, appended at the end of the event's list |
| EventRegistry.Emitter.Off | src/EventEmitter.js:23-40 | no-op for an event without entry; no listener given deletes the entry; otherwise every occurrence is filtered out and an emptied entry deleted |
| EventRegistry.Emitter.Emit | src/EventEmitter.js:42-54 | returns whether the event had an entry; calls the listeners it had at the start, in order, whatever throws; logs each throw; removes the wrappers whose function returned |
| EventRegistry.Emitter.Invoke | src/EventEmitter.js:45-51 | one call of the loop: a wrapper whose function returned removes itself, a throwing call changes nothing |
| EventRegistry.Emitter.RemoveAllListeners | src/EventEmitter.js:56-63 | a non-empty name deletes only that key; a missing or empty name empties the registry |
| EventRegistry.Emitter.ListenerCount | src/EventEmitter.js:65-67 | the event's list length, positive exactly when the event has an entry |
| EventRegistry.Emitter.EventNames | src/EventEmitter.js:69-71 | exactly the events whose listener count is above 0 |
| History.Initial | src/PosterEditor.js:39-42 | the empty log with cursor -1 and the flag clear is well formed |
| History.SaveStep | src/PosterEditor.js:630-649 | no-op while replaying; otherwise the log is the newest at most 50 of (entries up to the cursor, then the snapshot), and the cursor points at the new snapshot |
| History.UndoStep | src/PosterEditor.js:652-663 | moves only when the cursor is above 0: sets the flag, decrements the cursor, loads the entry at the new cursor; entries never change |
| History.RedoStep | src/PosterEditor.js:666-677 | moves only when the cursor is below the newest entry: sets the flag, increments the cursor, loads the entry at the new cursor; entries never change |
| History.FinishStep | src/PosterEditor.js:657-661 | the load callback clears the flag and leaves entries and cursor alone |
| History.MutationStep | src/PosterEditor.js:108-124 | a canvas add/modify/remove saves a snapshot only while the flag is clear |
| History.Apply | src/PosterEditor.js:630-677 | every history event keeps the log well formed |
| History.RunWellFormed | src/PosterEditor.js:630-677 | any sequence of saves, undos, redos and completions keeps -1 <= cursor < length <= 50 |
| History.ReachableWellFormed | src/PosterEditor.js:39-41 | from the initial empty log, every reachable state has -1 <= cursor < length <= 50 |
| History.SaveEvictsOldest | src/PosterEditor.js:643-645 | a save into a full log at its newest entry shifts out the oldest entry and keeps the cursor |
| History.SaveCutsRedo | src/PosterEditor.js:634-636 | after a save there is nothing to redo |
| History.RedoStaysBlocked | src/PosterEditor.js:630-677 | with the cursor at the newest entry, any run of saves, redos and completions without an undo keeps it there, so redo stays a no-op |
| History.SaveBlocksRedo | src/PosterEditor.js:634-636 | after a save, redo is a no-op until the next undo, whatever saves, redos and completions come in between |
| History.ReplayIgnoresMutations | src/PosterEditor.js:108-124 | while replaying, any number of mutation events leave the log unchanged |
| History.SaveIsNewest | src/PosterEditor.js:633-647 | one save keeps the newest 50 of the entries up to the cursor followed by the snapshot |
| History.SavesKeepNewest | src/PosterEditor.js:633-647 | consecutive saves keep the newest 50 of the surviving entries followed by all new snapshots; cursor at the newest |
| History.ManySavesFillTheLog | src/PosterEditor.js:643-645 | at least 50 saves in a row leave exactly the last 50 snapshots; all earlier ones are gone |
| History.Undos | src/PosterEditor.js:652-663 | repeated undos keep the log well formed and its entries unchanged |
| History.Redos | src/PosterEditor.js:666-677 | repeated redos keep the log well formed and its entries unchanged |
| History.UndosMoveBack | src/PosterEditor.js:653-655 | n undos from a cursor of at least n move it back by n and set the flag |
| History.RedosMoveForward | src/PosterEditor.js:667-669 | n redos with n entries ahead move the cursor forward by n and set the flag |
| History.UndoRedoInverse | src/PosterEditor.js:652-677 | n undos then n redos restore the cursor and the entries, and the last redo loads the original current entry |
| History.UndoThenRedo | src/PosterEditor.js:652-677 | an undo that moved is reversed by one redo, which reloads the original current entry |
| History.EarlyFinishReopensCapture | src/PosterEditor.js:652-663 | two undos then one completion leave the flag clear, so the next mutation is captured though a load is pending |
| History.TwoAdditions | src/PosterEditor.js:108-124 | two additions from the empty log give two entries with the cursor at the second |
| History.UndoToFirstAddition | src/PosterEditor.js:652-663 | undo from the second entry loads the first; once that load completes, a further undo is a no-op |
| History.HistoryManager.constructor | src/PosterEditor.js:38-42 | the fields start as the empty log, cursor -1, flag clear |
| History.HistoryManager.SaveToHistory | src/PosterEditor.js:630-649 | slice, push, then shift or increment perform exactly SaveStep on the fields |
| History.HistoryManager.Undo | src/PosterEditor.js:652-663 | the fields change as UndoStep says, the snapshot returned is the one UndoStep loads, and an undo callback becomes pending exactly when it moved |
| History.HistoryManager.Redo | src/PosterEditor.js:666-677 | the fields change as RedoStep says, the snapshot returned is the one RedoStep loads, and a redo callback becomes pending exactly when it moved |
| History.HistoryManager.FinishReplay | src/PosterEditor.js:652-677 | runs only for a callback an earlier undo or redo handed over; clears the flag and emits history:undo for an undo's callback, history:redo for a redo's |
| History.HistoryManager.OnCanvasMutation | src/PosterEditor.js:108-124 | the guarded hooks perform MutationStep: save only while the flag is clear |
| ObjectLock.LockSelected | src/PosterEditor.js:467-484 | with an active object: sets the four movement/scaling locks and lockRotation, clears hasControls and selectable, drops the selection and emits object:locked; otherwise nothing |
| ObjectLock.UnlockObject | src/PosterEditor.js:487-502 | with an object: sets the same seven flags to the opposite values and emits object:unlocked; otherwise nothing |

## Left out

- A listener's own effects on the registry during `emit` are not modelled, for example a listener calling `on` or `off` itself. The one exception is a once-wrapper removing itself. The arguments passed to listeners and their `this` binding are not modelled either.
- Method chaining is not modelled. `on`, `once`, `off` and `removeAllListeners` return the emitter in the source. The methods here return nothing, except `Once`, which returns the wrapper it registered.
- EventRegistry.Emitter.EventNames: returns the set of names. The order of the array `Object.keys` builds is not modelled.
- Event names that match a property inherited by plain JavaScript objects, such as `toString`, are not modelled. They make the source's `this.events[event]` lookups see a function instead of a list.
- The error text written to the console in `emit` is not modelled. The model records only the position of each caught throw.
- Canvas serialisation (`toJSON`) and loading (`loadFromJSON`) are outside the model. Snapshots are opaque strings, and when or how often fabric calls the load callback is left to the caller of `FinishReplay`.
- The events the editor emits (`history:undo`, `history:redo`, `object:locked`, `object:unlocked`) are returned as names. They are not passed through an `Emitter`.
- `lockSelected` also calls `renderAll`, and it emits a payload with the object. Neither is modelled. Fabric objects are reduced to the seven flags and their `id`.
- The rest of `src/PosterEditor.js` is not part of this model. That covers shape, text, image, SVG, pattern, gradient, shadow, filter, layering and drawing methods, `updateDataFromCanvas`, `loadFromJSON`, `toJSON`, and the event relaying in `bindEvents` at lines 71-105. These forward to fabric or fetch over the network.
- `src/index.js` (window messaging), `src/editorActions.js`, `src/editorEvents.js`, `src/customControl.js` and `vite.config.js` are not part of this model. They only delegate, log or configure.
