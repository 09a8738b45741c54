# jupyter-fs commit/revert orchestration, in Dafny

This project models the core of the jupyter-fs JupyterLab extension. The
extension keeps a filesystem in step with the cells of a notebook:

- before each code cell it runs itself (in the first pass over the notebook
  and in the replay after a revert), it asks a backend to commit the filesystem;
- it remembers the commit hash per cell; in the replay, the re-run cell is
  committed again after it has run;
- when the user re-runs the focused code cell while no revert is pending, it
  reverts the filesystem to that cell's commit and then replays every later
  code cell. The revert clears the focus, so re-running the same cell again
  without focusing it first neither reverts nor commits.

The model is the state that the plugin's `activate` closure keeps, and the
routines that drive it:

- `cellToCommit`, the cell-id-to-hash index;
- `cellReverted`, the pending-revert marker;
- `activeCellId`, the focus tracker;
- `listenerAttached`.

The routines are `makeCommit`, `makeCommitAndRunCells`, `getSubsequentCells`,
`setup`, the `onScheduled` and `onExecuted` handlers, `attachListeners` and its
`activeCellChanged` handler.

Layout:

- `wrappers.dfy`: `Option` and `Result`.
- `orchestration.dfy`, module `Orchestration`: the closure state as a value
  (`State`), one function per routine (`CommitCell`, `CommitAndRun`, `Setup`,
  `SubsequentCells`, `Schedule`, `Execute`), the invariant `Valid`, and the
  lemmas that state what the protocol promises.
- `plugin.dfy`, module `Plugin`: class `Session`. Its fields are the closure
  variables, and its methods are the routines, written imperatively with the
  source's loops. The methods that drive the protocol (`MakeCommit`,
  `MakeCommitAndRunCells`, `Setup`, `OnScheduled`, `OnExecuted`) tie the new
  state to the corresponding `Orchestration` function of the old state.
  `GetSubsequentCells` ties its result to `SubsequentCells`. `AttachListeners`
  and `ActiveCellChanged` state the one field they change directly.

The host and the backend are abstract:

- A cell is `Cell(id, isCode)`. The panel's notebook is `Notebook(widgets, hasModel)`.
- The backend is an oracle `backend: nat -> Option<Reply>`. It gives the answer
  to the n-th commit request, and `None` means the request threw. `Reply(hash, error)`
  mirrors the JSON body of the commit route.
- Each call that the extension issues is appended to `trace`: `Commit(cell, reply)`,
  `Run(cell)` (the host's `runCells`) and `Revert(hash)`. `requests` counts the
  commit requests answered so far.

The model follows the code where it departs from a fail-closed
checkpoint protocol:

- A commit request that throws is logged and swallowed, and the cell runs
  anyway. The code does not fail closed (`CommitFailureStillRuns`).
- A reply with an error text is still recorded, even when its hash is empty (`Record`).
- `revert` is not awaited. The marker is set whether or not the revert succeeds.
- During the cascade, the reverted cell is committed again *after* it has re-run,
  so its new entry is the state after its run (`Cascade`).
- `getSubsequentCells` ignores its argument and searches for the marker. When no
  cell matches, the position -1 makes it return every widget (`CascadeAfterRemoval`).
- `onScheduled` reverts only the cell that is also the focused cell. It does not
  queue events, and it does not retry requests.

## Model

| member | source | states |
|---|---|---|
| `Orchestration.Record` | src/index.ts:54-68 | a reply stores its hash under the cell id, whatever its error text says, and overwrites an earlier entry; the other entries are unchanged and none is deleted; a request that threw leaves the index exactly as it was |
| `Plugin.Session.MakeCommit` | src/index.ts:54-68 | the new state is one commit request for `cid`, with the backend's next answer recorded in the index and the trace |
| `Plugin.Session.constructor` | src/index.ts:29-32 | activation starts with an empty index, empty focus and marker strings, and listeners not attached |
| `Orchestration.Initial` | src/index.ts:29-32 | the activation state has an empty index, no pending revert, no focused cell and no listeners attached, and satisfies the session invariant |
| `Orchestration.CommitCell` | src/index.ts:54-68 | one commit request issues exactly one `Commit` call with the backend's next answer; the cell maps to the returned hash unless the request threw, when the index is unchanged; the only id that can be added is the cell's, the other entries keep their hashes, and the focus, the marker and the flag stay as they were |
| `Orchestration.CodeIds` | src/index.ts:72-73 | the cells a pass acts on are exactly the code cells: every code cell's id is in the list, and every id in it is a code cell's |
| `Orchestration.ReplayedAt` | src/index.ts:72-88 | in a pass, the k-th code cell is committed with the backend's (n+k)-th answer at position 2k and run at position 2k+1; nothing else is issued |
| `Orchestration.CommitAndRun` | src/index.ts:70-90 | a pass never consumes backend answers backwards, deletes no index entry and leaves the focus, the marker and the flag alone; its calls and its request count are given by `CommitAndRunTrace`; its index is given by `CommitAndRunKeepsOthers` for ids it does not commit, by `CommitAndRunFresh` for a last commit that returned, and by `CommitAndRunFailedKeepsOld` for an only commit that threw |
| `Orchestration.Setup` | src/index.ts:92-96 | the first pass issues a commit and then a run for each code cell of the notebook, in document order, and keeps the session invariant |
| `Orchestration.CommitAndRunTrace` | src/index.ts:70-90 | a pass issues a commit and then a run for each code cell, in list order, and skips other cells; it uses exactly one backend answer per code cell |
| `Orchestration.CommitAndRunKeepsOthers` | src/index.ts:54-90 | a pass never deletes an index entry, and it changes no entry for an id it does not commit |
| `Orchestration.CommitAndRunFresh` | src/index.ts:54-90 | after a pass, a code cell that is not committed again later in the pass maps to the hash its own commit returned |
| `Orchestration.CommitAndRunFailedKeepsOld` | src/index.ts:54-90 | after a pass, a code cell committed only once in it whose request threw keeps the entry it had before the pass, or stays unindexed |
| `Orchestration.CommitFailureStillRuns` | src/index.ts:63-85 | when the commit request of a one-cell pass throws, the pass still runs the cell, and the index is unchanged; `CommitAndRunFailedKeepsOld` states the index for longer passes |
| `Orchestration.ReplayedFollowsCommits` | src/index.ts:72-88 | appending a pass keeps every run immediately after a commit for the same cell |
| `Orchestration.CommitAndRunValid` | src/index.ts:70-90 | a pass keeps the session invariant: runs follow their commits, and a set marker names an indexed cell |
| `Plugin.Session.MakeCommitAndRunCells` | src/index.ts:70-90 | the loop's final state is the commit-and-run pass over `cells` applied to the old state, and the invariant holds |
| `Plugin.Session.Setup` | src/index.ts:92-96 | setup is one pass over the panel's widgets |
| `Orchestration.FirstIndex` | src/index.ts:40-47 | the search yields the position of the first cell with the id, or -1 when no cell has it |
| `Orchestration.SubsequentCells` | src/index.ts:35-52 | returns exactly the widgets after the first cell with the id; all widgets when none matches; nothing when there is no model |
| `Plugin.Session.GetSubsequentCells` | src/index.ts:35-52 | the loop returns the widgets after the first cell whose id is the pending-revert marker, whatever the argument is |
| `Orchestration.Schedule` | src/index.ts:128-150 | it fails with MissingCommit exactly when the cell triggers (it is a code cell, it is focused, and no revert is pending) and has no non-empty hash; otherwise, when it triggers, it issues `Revert` with the stored hash, sets the marker to the cell, clears the focus and keeps the index; a cell that does not trigger changes nothing |
| `Orchestration.ScheduleRevertsIff` | src/index.ts:133-145 | a revert is issued if and only if the cell triggers and has a usable hash |
| `Orchestration.NoNestedRevert` | src/index.ts:137 | while the marker is set, no scheduled cell changes anything, so there are no nested reverts |
| `Orchestration.ScheduleValid` | src/index.ts:139-145 | a successful scheduling keeps the session invariant |
| `Plugin.Session.OnScheduled` | src/index.ts:128-150 | the handler takes the new state of `Schedule`; when the error is raised, the state is exactly as before |
| `Orchestration.Execute` | src/index.ts:109-126 | a finished cell other than the reverted one changes nothing; for the reverted one the marker is cleared and the focus and flag are kept; no index entry is deleted and the session invariant is kept; when the reverted cell is in a notebook with a model, its calls are given by `Cascade`, and its index by `CascadeKeepsOthers`, `CascadeFresh`, `CascadeFailedRecommitKeepsOld` and `CascadeFailedReplayKeepsOld`, except for an id committed several times whose last commit threw; when the cell was removed or there is no model, only its calls are given (`CascadeAfterRemoval`, `CascadeWithoutModel`) |
| `Orchestration.Cascade` | src/index.ts:109-126 | for the reverted cell at position i, the handler commits it again, then commits and runs each later code cell in order, and clears the marker, keeping the focus and the flag; the reverted cell maps to its new hash when its request did not throw and no later code cell has the same id |
| `Orchestration.CascadeKeepsOthers` | src/index.ts:109-126 | every id outside the cascade keeps its index entry, or its absence |
| `Orchestration.CascadeFresh` | src/index.ts:109-126 | each later code cell that is not committed again further on maps to the hash of its own new commit |
| `Orchestration.CascadeFailedRecommitKeepsOld` | src/index.ts:109-126 | when the reverted cell's re-commit throws and no later code cell has its id, it keeps its pre-revert entry, or stays unindexed, so the index names a commit older than the filesystem |
| `Orchestration.CascadeFailedReplayKeepsOld` | src/index.ts:109-126 | a later code cell, other than the reverted one and committed only once in the replay, whose request throws keeps its pre-revert entry, or stays unindexed, so the index names a commit from the history the revert abandoned |
| `Orchestration.CascadeWithoutModel` | src/index.ts:118-122 | without a model, only the reverted cell is committed again |
| `Orchestration.CascadeAfterRemoval` | src/index.ts:40-48 | when the reverted cell is no longer in the notebook, every code widget is committed and run, in order; other widgets are skipped |
| `Orchestration.CascadeRunsInert` | src/index.ts:109-150 | a cell re-run during the cascade is not scheduled while the marker is set (as `NoNestedRevert`), and with distinct ids it does not trigger `onExecuted` either |
| `Plugin.Session.OnExecuted` | src/index.ts:109-126 | the handler's new state is `Execute` of the old state |
| `Plugin.Session.AttachListeners` | src/index.ts:152-166 | the handlers are connected only by the first call, and the flag is set afterwards |
| `Plugin.Session.ActiveCellChanged` | src/index.ts:158-163 | the focus becomes the active cell's id when there is an active cell, and is kept otherwise |
| `Orchestration.FirstPassOfThree` | src/index.ts:92-96 | with three code cells, the first pass indexes U1:c1, U2:c2, U3:c3 and uses three backend answers |
| `Orchestration.CascadeSecondOfThree` | src/index.ts:109-126 | from the first-pass index with U2 marked, the cascade re-commits U2 (c2') and then U3 (c3'), keeps U1:c1 and clears the marker |
| `Orchestration.RerunSecondOfThree` | src/index.ts:109-150 | after that pass, re-running the focused second cell reverts to c2; the cascade leaves the index at U1:c1, U2:c2', U3:c3' and clears the marker |

## Left out

- jupyter_fs/handlers.py: the server routes that run the commit and revert
  shell scripts are not part of this model. The backend is the `backend` oracle.
- Asynchrony: each routine is one atomic step. The unawaited `revert` is a single
  `Revert` event, and its own error handling (it swallows failures and never
  changes the state) leaves no other trace.
- The host notifications that `runCells` fires during a pass are separate calls,
  not nested inside the pass. `CascadeRunsInert` shows that they do nothing during
  the cascade when cell ids are distinct. This does not hold during the first
  pass: `setup` is not awaited, so the listeners are attached before its first
  run, and when the pass reaches the focused code cell, `onScheduled` reverts to
  the hash just recorded and `onExecuted` then replays the later cells a second
  time. The model does not capture that interleaving.
- The index entry of an id that is committed more than once in one pass, when
  its last commit throws, is not stated. The entry is then that of its most
  recent commit that returned, or the one from before the pass. The lemmas cover
  ids committed once, and ids whose last commit returned.
- `requestAPI`, the query string and the HTTP transport are the oracle's answer.
  Hash strings are opaque.
- `NotebookActions.runCells` is the `Run(id)` event. The model does not execute cells.
- Signal wiring, command registration, the `app.shell.currentWidget` checks and
  all console output are left out.
- Repeated "Start Session" commands. In the source, the closure state is created
  once at activation, before any panel exists (src/index.ts:29-33). Each command
  reassigns `panel` (src/index.ts:176) and keeps the index, the marker, the focus
  and the flag. Because `listenerAttached` is then already true, a later command
  does not connect `activeCellChanged` to the new panel (src/index.ts:154). The
  model fixes one panel per `Session`. The constructor is activation, and the
  model does not capture a second command on another panel.
- `getSubsequentCells` searches `model.cells` and slices `widgets`. The model
  takes both to be the same list of cells.
- `Plugin.Session.AttachListeners`: the three `connect` calls are only the
  `connected` result, because the signals are not modelled.
