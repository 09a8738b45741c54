/** Value-level model of the commit/revert orchestration of the jupyter-fs
    notebook extension: the state its plugin keeps between events, what each
    routine does to that state, and the properties the protocol promises.
    The host (JupyterLab) and the backend (the commit/revert server routes)
    are abstract: the backend is an oracle answering the n-th commit request,
    and every call the extension issues to either is appended to a trace. */
module Orchestration {
  import opened Wrappers

  /** A notebook cell as the extension sees it: its model id and whether it is a code cell. */
  datatype Cell = Cell(id: string, isCode: bool)

  /** The panel's notebook: its cell widgets in document order, and whether the
      notebook has a model with a cell list. */
  datatype Notebook = Notebook(widgets: seq<Cell>, hasModel: bool)

  /** The body of the backend's answer to a commit request: the commit hash
      (the commit script's standard output) and its error text. */
  datatype Reply = Reply(hash: string, error: string)

  /** The backend's answer to the n-th commit request; None when the request throws. */
  type Backend = nat -> Option<Reply>

  /** A call the extension issues: a commit request (with the reply it got),
      a request to the host to run a cell, or a revert request. */
  datatype Event =
    | Commit(cell: string, reply: Option<Reply>)
    | Run(cell: string)
    | Revert(hash: string)

  /** The error `onScheduled` throws when a cell to revert has no usable commit. */
  datatype ScheduleError = MissingCommit(cell: string)

  /** The plugin's closure variables, the calls issued so far, and how many
      commit requests the backend has answered. */
  datatype State = State(
    cellToCommit: map<string, string>,
    listenerAttached: bool,
    activeCellId: string,
    cellReverted: string,
    trace: seq<Event>,
    requests: nat)

  /** The state when the plugin activates: nothing indexed, no revert
      pending, no cell focused, listeners not attached, and the session
      invariant holds. */
  function Initial(): (s: State)
    ensures Valid(s)
    ensures s.cellToCommit == map[] && s.cellReverted == "" && s.trace == []
    ensures s.activeCellId == "" && !s.listenerAttached
  {
    State(map[], false, "", "", [], 0)
  }

  // ---------------------------------------------------------------------
  // makeCommit
  // ---------------------------------------------------------------------

  /** The effect of one commit reply on the cell-to-commit index: the hash is
      stored under the cell id whatever the reply's error text says; a request
      that threw leaves the index alone. */
  function Record(index: map<string, string>, cid: string, reply: Option<Reply>): (r: map<string, string>)
    ensures reply.None? ==> r == index
    ensures reply.Some? ==> cid in r && r[cid] == reply.value.hash
    ensures r.Keys == if reply.Some? then index.Keys + {cid} else index.Keys
    ensures forall k :: k in index && k != cid ==> r[k] == index[k]
  {
    match reply
    case None => index
    case Some(data) => index[cid := data.hash]
  }

  /** makeCommit: ask the backend for a commit and record its hash for `cid`.
      The request uses the backend's next answer and is the one call issued;
      only the index entry of `cid` can change, and only when the request
      did not throw. */
  function CommitCell(s: State, cid: string, b: Backend): (t: State)
    ensures t.trace == s.trace + [Commit(cid, b(s.requests))] && t.requests == s.requests + 1
    ensures b(s.requests).Some? ==> cid in t.cellToCommit && t.cellToCommit[cid] == b(s.requests).value.hash
    ensures b(s.requests).None? ==> t.cellToCommit == s.cellToCommit
    ensures t.cellToCommit.Keys == if b(s.requests).Some? then s.cellToCommit.Keys + {cid} else s.cellToCommit.Keys
    ensures forall k :: k in s.cellToCommit && k != cid ==> t.cellToCommit[k] == s.cellToCommit[k]
    ensures t.activeCellId == s.activeCellId && t.cellReverted == s.cellReverted
    ensures t.listenerAttached == s.listenerAttached
  {
    var reply := b(s.requests);
    s.(cellToCommit := Record(s.cellToCommit, cid, reply),
       trace := s.trace + [Commit(cid, reply)],
       requests := s.requests + 1)
  }

  // ---------------------------------------------------------------------
  // makeCommitAndRunCells and setup
  // ---------------------------------------------------------------------

  /** makeCommitAndRunCells: in list order, commit and then run every code
      cell. A pass deletes no index entry, and leaves the focus, the marker and the listener flag alone. */
  function CommitAndRun(s: State, cells: seq<Cell>, b: Backend): (t: State)
    ensures t.requests >= s.requests
    ensures s.cellToCommit.Keys <= t.cellToCommit.Keys
    ensures t.activeCellId == s.activeCellId && t.cellReverted == s.cellReverted
    ensures t.listenerAttached == s.listenerAttached
    decreases |cells|
  {
    if cells == [] then s
    else if cells[0].isCode then
      var committed := CommitCell(s, cells[0].id, b);
      CommitAndRun(committed.(trace := committed.trace + [Run(cells[0].id)]), cells[1..], b)
    else CommitAndRun(s, cells[1..], b)
  }

  /** setup: one commit-and-run pass over every cell of the notebook, which
      issues a commit and then a run per code cell, in document order, and
      keeps the session invariant. */
  function Setup(s: State, nb: Notebook, b: Backend): (t: State)
    ensures t.trace == s.trace + Replayed(CodeIds(nb.widgets), b, s.requests)
    ensures Valid(s) ==> Valid(t)
  {
    CommitAndRunTrace(s, nb.widgets, b);
    CommitAndRunValid(s, nb.widgets, b);
    CommitAndRun(s, nb.widgets, b)
  }

  /** The ids of the code cells, in list order. */
  function CodeIds(cells: seq<Cell>): (ids: seq<string>)
    ensures |ids| <= |cells|
    ensures forall i :: 0 <= i < |cells| && cells[i].isCode ==> cells[i].id in ids
    ensures forall id :: id in ids ==> exists i :: 0 <= i < |cells| && cells[i].isCode && cells[i].id == id
  {
    if cells == [] then []
    else
      var rest := CodeIds(cells[1..]);
      assert forall i :: 1 <= i < |cells| ==> cells[i] == cells[1..][i - 1];
      if cells[0].isCode then [cells[0].id] + rest else rest
  }

  /** The code ids of a non-empty list start with its head's id when the head
      is code, and are those of its tail otherwise. */
  lemma CodeIdsHead(cells: seq<Cell>)
    requires cells != []
    ensures cells[0].isCode ==> CodeIds(cells)[0] == cells[0].id && CodeIds(cells)[1..] == CodeIds(cells[1..])
    ensures !cells[0].isCode ==> CodeIds(cells) == CodeIds(cells[1..])
  {
    if cells[0].isCode {
      assert CodeIds(cells) == [cells[0].id] + CodeIds(cells[1..]);
    }
  }

  /** The calls a commit-and-run pass over the cells `ids` issues when the
      backend's next answer is its n-th: a commit, then a run, per cell. */
  function Replayed(ids: seq<string>, b: Backend, n: nat): seq<Event>
    decreases |ids|
  {
    if ids == [] then [] else [Commit(ids[0], b(n)), Run(ids[0])] + Replayed(ids[1..], b, n + 1)
  }

  /** The k-th cell of a pass is committed, with the backend's (n+k)-th answer,
      immediately before it is run, and nothing else is issued. */
  lemma {:induction false} ReplayedAt(ids: seq<string>, b: Backend, n: nat, k: nat)
    requires k < |ids|
    ensures |Replayed(ids, b, n)| == 2 * |ids|
    ensures Replayed(ids, b, n)[2 * k] == Commit(ids[k], b(n + k))
    ensures Replayed(ids, b, n)[2 * k + 1] == Run(ids[k])
  {
    if k == 0 {
      if |ids| > 1 {
        ReplayedAt(ids[1..], b, n + 1, 0);
      }
    } else {
      ReplayedAt(ids[1..], b, n + 1, k - 1);
    }
  }

  /** Replaying one more cell first adds its commit and run in front. */
  lemma ReplayedCons(prefix: seq<Event>, id: string, rest: seq<string>, b: Backend, n: nat)
    ensures prefix + [Commit(id, b(n)), Run(id)] + Replayed(rest, b, n + 1) == prefix + Replayed([id] + rest, b, n)
  {
    assert ([id] + rest)[1..] == rest;
    var pair := [Commit(id, b(n)), Run(id)];
    assert prefix + pair + Replayed(rest, b, n + 1) == prefix + (pair + Replayed(rest, b, n + 1));
  }

  /** One step of a pass over a code cell: commit it, run it, go on with a
      state that has issued both calls and used one more backend answer. */
  lemma CommitAndRunCodeStep(s: State, cells: seq<Cell>, b: Backend) returns (ran: State)
    requires cells != [] && cells[0].isCode
    ensures ran.trace == s.trace + [Commit(cells[0].id, b(s.requests)), Run(cells[0].id)]
    ensures ran.requests == s.requests + 1
    ensures CommitAndRun(s, cells, b) == CommitAndRun(ran, cells[1..], b)
    ensures CodeIds(cells) == [cells[0].id] + CodeIds(cells[1..])
    ensures CodeIds(cells)[0] == cells[0].id && CodeIds(cells)[1..] == CodeIds(cells[1..])
  {
    var committed := CommitCell(s, cells[0].id, b);
    ran := committed.(trace := committed.trace + [Run(cells[0].id)]);
  }

  /** One step of a pass over a cell that is not code: nothing is issued. */
  lemma CommitAndRunSkipStep(s: State, cells: seq<Cell>, b: Backend)
    requires cells != [] && !cells[0].isCode
    ensures CommitAndRun(s, cells, b) == CommitAndRun(s, cells[1..], b)
    ensures CodeIds(cells) == CodeIds(cells[1..])
  {
  }

  /** The calls of a pass, by induction over the cells. */
  lemma {:induction false} PassTrace(s: State, cells: seq<Cell>, b: Backend)
    ensures CommitAndRun(s, cells, b).trace == s.trace + Replayed(CodeIds(cells), b, s.requests)
    decreases |cells|
  {
    if cells != [] {
      if cells[0].isCode {
        var id := cells[0].id;
        var rest := CodeIds(cells[1..]);
        var ran := CommitAndRunCodeStep(s, cells, b);
        PassTrace(ran, cells[1..], b);
        ReplayedCons(s.trace, id, rest, b, s.requests);
      } else {
        CommitAndRunSkipStep(s, cells, b);
        PassTrace(s, cells[1..], b);
      }
    }
  }

  /** The backend answers a pass uses, by induction over the cells. */
  lemma {:induction false} PassRequests(s: State, cells: seq<Cell>, b: Backend)
    ensures CommitAndRun(s, cells, b).requests == s.requests + |CodeIds(cells)|
    decreases |cells|
  {
    if cells != [] {
      if cells[0].isCode {
        var ran := CommitAndRunCodeStep(s, cells, b);
        PassRequests(ran, cells[1..], b);
      } else {
        CommitAndRunSkipStep(s, cells, b);
        PassRequests(s, cells[1..], b);
      }
    }
  }

  /** The same step, seen from an id other than the cell's: its entry, or
      its absence, is carried over to the rest of the pass. */
  lemma CommitAndRunStepKeeping(s: State, cells: seq<Cell>, b: Backend, x: string) returns (ran: State)
    requires cells != [] && cells[0].isCode && x != cells[0].id
    ensures ran.requests == s.requests + 1
    ensures CommitAndRun(s, cells, b) == CommitAndRun(ran, cells[1..], b)
    ensures CodeIds(cells)[0] == cells[0].id && CodeIds(cells)[1..] == CodeIds(cells[1..])
    ensures x in ran.cellToCommit <==> x in s.cellToCommit
    ensures x in s.cellToCommit ==> ran.cellToCommit[x] == s.cellToCommit[x]
  {
    var committed := CommitCell(s, cells[0].id, b);
    ran := committed.(trace := committed.trace + [Run(cells[0].id)]);
    assert CodeIds(cells) == [cells[0].id] + CodeIds(cells[1..]);
  }

  /** A pass issues exactly the commit/run pairs of the code cells, in list
      order, each commit with the backend's next answer, and consumes one
      answer per code cell. */
  lemma CommitAndRunTrace(s: State, cells: seq<Cell>, b: Backend)
    ensures CommitAndRun(s, cells, b).trace == s.trace + Replayed(CodeIds(cells), b, s.requests)
    ensures CommitAndRun(s, cells, b).requests == s.requests + |CodeIds(cells)|
  {
    PassTrace(s, cells, b);
    PassRequests(s, cells, b);
  }

  /** A pass changes the index only at the ids of the code cells it commits,
      and never deletes an entry. */
  lemma {:induction false} CommitAndRunKeepsOthers(s: State, cells: seq<Cell>, b: Backend, x: string)
    ensures var t := CommitAndRun(s, cells, b);
      && (x in s.cellToCommit ==> x in t.cellToCommit)
      && (x !in CodeIds(cells) ==>
            (x in t.cellToCommit <==> x in s.cellToCommit)
            && (x in s.cellToCommit ==> t.cellToCommit[x] == s.cellToCommit[x]))
    decreases |cells|
  {
    if cells != [] {
      var id := cells[0].id;
      if cells[0].isCode {
        var committed := CommitCell(s, id, b);
        CommitAndRunKeepsOthers(committed.(trace := committed.trace + [Run(id)]), cells[1..], b, x);
      } else {
        CommitAndRunKeepsOthers(s, cells[1..], b, x);
      }
    }
  }

  /** Position k holds an id that does not occur again after it. */
  predicate LastOccurrence(ids: seq<string>, k: nat) {
    k < |ids| && forall j :: k < j < |ids| ==> ids[j] != ids[k]
  }

  /** Position k holds an id that occurs nowhere else. */
  predicate OnlyOccurrence(ids: seq<string>, k: nat) {
    k < |ids| && forall j :: 0 <= j < |ids| && j != k ==> ids[j] != ids[k]
  }

  /** Dropping the head of a list keeps a later last occurrence, and a head
      that is its own last occurrence is not in the tail. */
  lemma LastOccurrenceTail(ids: seq<string>, k: nat)
    requires LastOccurrence(ids, k)
    ensures k == 0 ==> ids[0] !in ids[1..]
    ensures k > 0 ==> LastOccurrence(ids[1..], k - 1)
  {
    if k == 0 {
      forall j | 0 <= j < |ids[1..]| ensures ids[1..][j] != ids[0] {
        assert ids[1..][j] == ids[j + 1];
      }
    }
  }

  /** Dropping the head of a list keeps a later only occurrence, which then
      differs from the head; a head that is an only occurrence is not in the tail. */
  lemma OnlyOccurrenceTail(ids: seq<string>, k: nat)
    requires OnlyOccurrence(ids, k)
    ensures k == 0 ==> ids[0] !in ids[1..]
    ensures k > 0 ==> OnlyOccurrence(ids[1..], k - 1) && ids[0] != ids[k]
  {
    if k == 0 {
      forall j | 0 <= j < |ids[1..]| ensures ids[1..][j] != ids[0] {
        assert ids[1..][j] == ids[j + 1];
      }
    } else {
      forall j | 0 <= j < |ids[1..]| && j != k - 1 ensures ids[1..][j] != ids[1..][k - 1] {
        assert ids[1..][j] == ids[j + 1];
      }
    }
  }

  /** A pass whose first code cell is not committed again keeps that cell at
      the hash of its commit. */
  lemma FreshHead(s: State, cells: seq<Cell>, b: Backend)
    requires cells != [] && cells[0].isCode && cells[0].id !in CodeIds(cells[1..])
    requires b(s.requests).Some?
    ensures cells[0].id in CommitAndRun(s, cells, b).cellToCommit
    ensures CommitAndRun(s, cells, b).cellToCommit[cells[0].id] == b(s.requests).value.hash
  {
    var committed := CommitCell(s, cells[0].id, b);
    CommitAndRunKeepsOthers(committed.(trace := committed.trace + [Run(cells[0].id)]), cells[1..], b, cells[0].id);
  }

  /** A pass whose first code cell is not committed again, and whose commit
      throws, leaves that cell's entry as it was. */
  lemma FailedHeadKeepsOld(s: State, cells: seq<Cell>, b: Backend)
    requires cells != [] && cells[0].isCode && cells[0].id !in CodeIds(cells[1..])
    requires b(s.requests).None?
    ensures cells[0].id in CommitAndRun(s, cells, b).cellToCommit <==> cells[0].id in s.cellToCommit
    ensures cells[0].id in s.cellToCommit ==>
      CommitAndRun(s, cells, b).cellToCommit[cells[0].id] == s.cellToCommit[cells[0].id]
  {
    var committed := CommitCell(s, cells[0].id, b);
    CommitAndRunKeepsOthers(committed.(trace := committed.trace + [Run(cells[0].id)]), cells[1..], b, cells[0].id);
  }

  /** After a pass, a code cell committed only once in it, whose request
      threw, keeps the entry it had before the pass, or stays unindexed: the
      failure is swallowed and no earlier hash is cleared. */
  lemma {:induction false} CommitAndRunFailedKeepsOld(s: State, cells: seq<Cell>, b: Backend, k: nat)
    requires OnlyOccurrence(CodeIds(cells), k)
    requires b(s.requests + k).None?
    ensures CodeIds(cells)[k] in CommitAndRun(s, cells, b).cellToCommit <==> CodeIds(cells)[k] in s.cellToCommit
    ensures CodeIds(cells)[k] in s.cellToCommit ==>
      CommitAndRun(s, cells, b).cellToCommit[CodeIds(cells)[k]] == s.cellToCommit[CodeIds(cells)[k]]
    decreases |cells|
  {
    var ids := CodeIds(cells);
    if cells[0].isCode && k == 0 {
      OnlyOccurrenceTail(ids, 0);
      CodeIdsHead(cells);
      FailedHeadKeepsOld(s, cells, b);
    } else if cells[0].isCode {
      OnlyOccurrenceTail(ids, k);
      var ran := CommitAndRunStepKeeping(s, cells, b, ids[k]);
      CommitAndRunFailedKeepsOld(ran, cells[1..], b, k - 1);
      assert ids[k] == CodeIds(cells[1..])[k - 1];
    } else {
      CommitAndRunSkipStep(s, cells, b);
      CommitAndRunFailedKeepsOld(s, cells[1..], b, k);
    }
  }

  /** After a pass, a code cell that is not committed again later in the pass
      maps to the hash its own commit returned (when that request did not throw). */
  lemma {:induction false} CommitAndRunFresh(s: State, cells: seq<Cell>, b: Backend, k: nat)
    requires LastOccurrence(CodeIds(cells), k)
    requires b(s.requests + k).Some?
    ensures CodeIds(cells)[k] in CommitAndRun(s, cells, b).cellToCommit
    ensures CommitAndRun(s, cells, b).cellToCommit[CodeIds(cells)[k]] == b(s.requests + k).value.hash
    decreases |cells|
  {
    var ids := CodeIds(cells);
    if cells[0].isCode && k == 0 {
      LastOccurrenceTail(ids, 0);
      CodeIdsHead(cells);
      FreshHead(s, cells, b);
    } else if cells[0].isCode {
      var ran := CommitAndRunCodeStep(s, cells, b);
      LastOccurrenceTail(ids, k);
      CommitAndRunFresh(ran, cells[1..], b, k - 1);
      assert ids[k] == CodeIds(cells[1..])[k - 1];
    } else {
      CommitAndRunSkipStep(s, cells, b);
      CommitAndRunFresh(s, cells[1..], b, k);
    }
  }

  /** A request that throws does not stop the cell from running: the pass
      still runs it, and the index is left as it was. */
  lemma CommitFailureStillRuns(s: State, id: string, b: Backend)
    requires b(s.requests).None?
    ensures CommitAndRun(s, [Cell(id, true)], b).trace == s.trace + [Commit(id, None), Run(id)]
    ensures CommitAndRun(s, [Cell(id, true)], b).cellToCommit == s.cellToCommit
  {
  }

  // ---------------------------------------------------------------------
  // Ordering invariant of the trace
  // ---------------------------------------------------------------------

  /** Every run the extension requests comes immediately after a commit for
      the same cell. */
  predicate RunsFollowCommits(trace: seq<Event>) {
    forall i :: 0 <= i < |trace| && trace[i].Run? ==>
      0 < i && trace[i - 1].Commit? && trace[i - 1].cell == trace[i].cell
  }

  /** Appending the calls of a pass keeps every run right after its commit. */
  lemma {:induction false} ReplayedFollowsCommits(trace: seq<Event>, ids: seq<string>, b: Backend, n: nat)
    requires RunsFollowCommits(trace)
    ensures RunsFollowCommits(trace + Replayed(ids, b, n))
    decreases |ids|
  {
    if ids != [] {
      var pair := [Commit(ids[0], b(n)), Run(ids[0])];
      var next := trace + pair;
      assert RunsFollowCommits(next) by {
        forall i | 0 <= i < |next| && next[i].Run?
          ensures 0 < i && next[i - 1].Commit? && next[i - 1].cell == next[i].cell
        {
          if i < |trace| {
            assert next[i] == trace[i] && next[i - 1] == trace[i - 1];
          }
        }
      }
      ReplayedFollowsCommits(next, ids[1..], b, n + 1);
      assert trace + Replayed(ids, b, n) == next + Replayed(ids[1..], b, n + 1);
    }
  }

  /** The invariant the plugin's state keeps between events: runs follow their
      commits, and a pending revert marker names a cell that has an index entry. */
  ghost predicate Valid(s: State) {
    && RunsFollowCommits(s.trace)
    && (s.cellReverted != "" ==> s.cellReverted in s.cellToCommit)
  }

  /** A commit-and-run pass keeps the invariant. */
  lemma CommitAndRunValid(s: State, cells: seq<Cell>, b: Backend)
    ensures Valid(s) ==> Valid(CommitAndRun(s, cells, b))
  {
    if Valid(s) {
      CommitAndRunTrace(s, cells, b);
      ReplayedFollowsCommits(s.trace, CodeIds(cells), b, s.requests);
      CommitAndRunKeepsOthers(s, cells, b, s.cellReverted);
    }
  }

  // ---------------------------------------------------------------------
  // getSubsequentCells
  // ---------------------------------------------------------------------

  /** The position of the first cell whose id is `target`, or -1 when none is. */
  function FirstIndex(cells: seq<Cell>, target: string): (i: int)
    ensures -1 <= i < |cells|
    ensures 0 <= i ==> cells[i].id == target
    ensures forall j :: 0 <= j < |cells| && (i < 0 || j < i) ==> cells[j].id != target
    decreases |cells|
  {
    if cells == [] then -1
    else if cells[0].id == target then 0
    else
      var i := FirstIndex(cells[1..], target);
      assert forall j :: 1 <= j < |cells| ==> cells[j] == cells[1..][j - 1];
      if i < 0 then -1 else i + 1
  }

  /** `i` is the position of the first cell with id `target`. */
  predicate FirstMatch(cells: seq<Cell>, target: string, i: int) {
    && 0 <= i < |cells|
    && cells[i].id == target
    && forall j :: 0 <= j < i ==> cells[j].id != target
  }

  /** getSubsequentCells: the widgets after the first cell whose id is `target`;
      all widgets when none is; nothing when the notebook has no model. */
  function SubsequentCells(nb: Notebook, target: string): (r: seq<Cell>)
    ensures !nb.hasModel ==> r == []
    ensures nb.hasModel && (forall j :: 0 <= j < |nb.widgets| ==> nb.widgets[j].id != target) ==> r == nb.widgets
    ensures forall i :: nb.hasModel && FirstMatch(nb.widgets, target, i) ==> r == nb.widgets[i + 1..]
  {
    if nb.hasModel then nb.widgets[FirstIndex(nb.widgets, target) + 1..] else []
  }

  // ---------------------------------------------------------------------
  // onScheduled
  // ---------------------------------------------------------------------

  /** The cell's index entry is usable: present and not the empty string. */
  predicate HasCommit(index: map<string, string>, cid: string) {
    cid in index && index[cid] != ""
  }

  /** The scheduled cell is a code cell, is the focused cell, and no revert is pending. */
  predicate Triggers(s: State, c: Option<Cell>) {
    c.Some? && c.value.isCode && c.value.id == s.activeCellId && s.cellReverted == ""
  }

  /** onScheduled: when a triggering cell is about to run, revert the backend to
      that cell's commit and mark it as the pending revert; fail when it has no
      usable commit. Any other cell is ignored. */
  function Schedule(s: State, c: Option<Cell>): (r: Result<State, ScheduleError>)
    ensures r.Failure? <==> Triggers(s, c) && !HasCommit(s.cellToCommit, c.value.id)
    ensures r.Failure? ==> r.error == MissingCommit(c.value.id)
    ensures !Triggers(s, c) ==> r == Success(s)
    ensures r.Success? && r.value != s ==> Triggers(s, c) && HasCommit(s.cellToCommit, c.value.id)
    ensures Triggers(s, c) && HasCommit(s.cellToCommit, c.value.id) ==>
      && r.Success?
      && r.value.trace == s.trace + [Revert(s.cellToCommit[c.value.id])]
      && r.value.cellReverted == c.value.id
      && r.value.activeCellId == ""
      && r.value.cellToCommit == s.cellToCommit
      && r.value.requests == s.requests
      && r.value.listenerAttached == s.listenerAttached
  {
    if c.Some? && c.value.isCode && c.value.id == s.activeCellId && s.cellReverted == "" then
      var cid := c.value.id;
      if HasCommit(s.cellToCommit, cid) then
        var hash := s.cellToCommit[cid];
        Success(s.(trace := s.trace + [Revert(hash)], cellReverted := s.activeCellId, activeCellId := ""))
      else
        Failure(MissingCommit(cid))
    else
      Success(s)
  }

  /** A revert is issued exactly when the cell triggers and has a usable commit. */
  lemma ScheduleRevertsIff(s: State, c: Option<Cell>)
    ensures (Schedule(s, c).Success? && Schedule(s, c).value.trace != s.trace)
        <==> Triggers(s, c) && HasCommit(s.cellToCommit, c.value.id)
  {
  }

  /** While a revert is pending, no scheduled cell can start another one. */
  lemma NoNestedRevert(s: State, c: Option<Cell>)
    requires s.cellReverted != ""
    ensures Schedule(s, c) == Success(s)
  {
  }

  /** A successful scheduling keeps the session invariant: the marker is set
      only to a cell whose entry is a usable commit. */
  lemma ScheduleValid(s: State, c: Option<Cell>)
    requires Valid(s)
    ensures Schedule(s, c).Success? ==> Valid(Schedule(s, c).value)
  {
  }

  // ---------------------------------------------------------------------
  // onExecuted
  // ---------------------------------------------------------------------

  /** onExecuted: when the reverted cell finishes, commit it again, commit and
      run every widget after it, and clear the pending revert. Any other
      finished cell changes nothing. The handler deletes no index entry and
      keeps the session invariant. */
  function Execute(s: State, nb: Notebook, cell: Cell, b: Backend): (t: State)
    ensures cell.id != s.cellReverted ==> t == s
    ensures cell.id == s.cellReverted ==>
      t.cellReverted == "" && t.activeCellId == s.activeCellId && t.listenerAttached == s.listenerAttached
    ensures s.cellToCommit.Keys <= t.cellToCommit.Keys
    ensures Valid(s) ==> Valid(t)
  {
    if cell.id == s.cellReverted then
      var committed := CommitCell(s, s.cellReverted, b);
      var later := SubsequentCells(nb, s.cellReverted);
      CommitAndRunValid(committed, later, b);
      CommitAndRun(committed, later, b).(cellReverted := "")
    else
      s
  }

  /** Cascade replay: when the reverted cell sits at position i, the calls
      issued are its commit and then a commit and a run for each later code
      cell, in order; the marker is cleared, the focus is untouched, and the
      reverted cell maps to its new hash unless it is committed again later. */
  lemma Cascade(s: State, nb: Notebook, cell: Cell, b: Backend, i: int)
    requires cell.id == s.cellReverted
    requires nb.hasModel && FirstMatch(nb.widgets, cell.id, i)
    ensures var t := Execute(s, nb, cell, b);
      && t.trace == s.trace + [Commit(cell.id, b(s.requests))]
                    + Replayed(CodeIds(nb.widgets[i + 1..]), b, s.requests + 1)
      && t.requests == s.requests + 1 + |CodeIds(nb.widgets[i + 1..])|
      && t.cellReverted == ""
      && t.activeCellId == s.activeCellId
      && t.listenerAttached == s.listenerAttached
      && (b(s.requests).Some? && cell.id !in CodeIds(nb.widgets[i + 1..]) ==>
            cell.id in t.cellToCommit && t.cellToCommit[cell.id] == b(s.requests).value.hash)
  {
    var committed := CommitCell(s, s.cellReverted, b);
    var later := SubsequentCells(nb, s.cellReverted);
    assert later == nb.widgets[i + 1..];
    CommitAndRunTrace(committed, later, b);
    CommitAndRunKeepsOthers(committed, later, b, cell.id);
  }

  /** The cascade leaves the index entry of every id outside it as it was:
      present with the same hash, or absent. */
  lemma CascadeKeepsOthers(s: State, nb: Notebook, cell: Cell, b: Backend, i: int, x: string)
    requires cell.id == s.cellReverted
    requires nb.hasModel && FirstMatch(nb.widgets, cell.id, i)
    requires x != cell.id && x !in CodeIds(nb.widgets[i + 1..])
    ensures x in Execute(s, nb, cell, b).cellToCommit <==> x in s.cellToCommit
    ensures x in s.cellToCommit ==> Execute(s, nb, cell, b).cellToCommit[x] == s.cellToCommit[x]
  {
    var committed := CommitCell(s, s.cellReverted, b);
    var later := SubsequentCells(nb, s.cellReverted);
    assert later == nb.widgets[i + 1..];
    CommitAndRunKeepsOthers(committed, later, b, x);
  }

  /** After the cascade, the k-th later code cell, when it is not committed
      again further on and its request did not throw, maps to the hash of its
      new commit, the backend's answer to request n+1+k. */
  lemma CascadeFresh(s: State, nb: Notebook, cell: Cell, b: Backend, i: int, k: nat)
    requires cell.id == s.cellReverted
    requires nb.hasModel && FirstMatch(nb.widgets, cell.id, i)
    requires LastOccurrence(CodeIds(nb.widgets[i + 1..]), k)
    requires b(s.requests + 1 + k).Some?
    ensures CodeIds(nb.widgets[i + 1..])[k] in Execute(s, nb, cell, b).cellToCommit
    ensures Execute(s, nb, cell, b).cellToCommit[CodeIds(nb.widgets[i + 1..])[k]] == b(s.requests + 1 + k).value.hash
  {
    var committed := CommitCell(s, s.cellReverted, b);
    var later := SubsequentCells(nb, s.cellReverted);
    assert later == nb.widgets[i + 1..];
    CommitAndRunFresh(committed, later, b, k);
  }

  /** When the re-commit of the reverted cell throws and no later code cell
      has its id, the cell keeps the entry it had before the revert (or stays
      unindexed): the code does not fail closed, so the index then names a
      commit older than the filesystem. */
  lemma CascadeFailedRecommitKeepsOld(s: State, nb: Notebook, cell: Cell, b: Backend, i: int)
    requires cell.id == s.cellReverted
    requires nb.hasModel && FirstMatch(nb.widgets, cell.id, i)
    requires b(s.requests).None? && cell.id !in CodeIds(nb.widgets[i + 1..])
    ensures cell.id in Execute(s, nb, cell, b).cellToCommit <==> cell.id in s.cellToCommit
    ensures cell.id in s.cellToCommit ==> Execute(s, nb, cell, b).cellToCommit[cell.id] == s.cellToCommit[cell.id]
  {
    var committed := CommitCell(s, s.cellReverted, b);
    var later := SubsequentCells(nb, s.cellReverted);
    assert later == nb.widgets[i + 1..];
    CommitAndRunKeepsOthers(committed, later, b, cell.id);
  }

  /** During the cascade, a later code cell other than the reverted one,
      committed only once in the replay, whose request throws keeps its
      pre-revert entry (or stays unindexed): the index then names a commit
      from the history the revert abandoned. */
  lemma CascadeFailedReplayKeepsOld(s: State, nb: Notebook, cell: Cell, b: Backend, i: int, k: nat)
    requires cell.id == s.cellReverted
    requires nb.hasModel && FirstMatch(nb.widgets, cell.id, i)
    requires OnlyOccurrence(CodeIds(nb.widgets[i + 1..]), k) && CodeIds(nb.widgets[i + 1..])[k] != cell.id
    requires b(s.requests + 1 + k).None?
    ensures var x := CodeIds(nb.widgets[i + 1..])[k];
      && (x in Execute(s, nb, cell, b).cellToCommit <==> x in s.cellToCommit)
      && (x in s.cellToCommit ==> Execute(s, nb, cell, b).cellToCommit[x] == s.cellToCommit[x])
  {
    var committed := CommitCell(s, s.cellReverted, b);
    var later := SubsequentCells(nb, s.cellReverted);
    assert later == nb.widgets[i + 1..];
    CommitAndRunFailedKeepsOld(committed, later, b, k);
  }

  /** When the reverted cell is not in a notebook with a model, only the
      reverted cell is committed again. */
  lemma CascadeWithoutModel(s: State, nb: Notebook, cell: Cell, b: Backend)
    requires cell.id == s.cellReverted && !nb.hasModel
    ensures Execute(s, nb, cell, b).trace == s.trace + [Commit(cell.id, b(s.requests))]
  {
  }

  /** When the reverted cell is no longer in the notebook, every code widget
      is committed and run. */
  lemma CascadeAfterRemoval(s: State, nb: Notebook, cell: Cell, b: Backend)
    requires cell.id == s.cellReverted && nb.hasModel
    requires forall j :: 0 <= j < |nb.widgets| ==> nb.widgets[j].id != cell.id
    ensures Execute(s, nb, cell, b).trace
         == s.trace + [Commit(cell.id, b(s.requests))] + Replayed(CodeIds(nb.widgets), b, s.requests + 1)
  {
    var committed := CommitCell(s, s.cellReverted, b);
    CommitAndRunTrace(committed, nb.widgets, b);
  }

  /** The host re-runs cells during the cascade; with distinct ids, neither
      handler does anything for a cell after the reverted one while the
      marker is set. */
  lemma CascadeRunsInert(s: State, nb: Notebook, b: Backend, i: int, j: int)
    requires s.cellReverted != ""
    requires forall p, q :: 0 <= p < q < |nb.widgets| ==> nb.widgets[p].id != nb.widgets[q].id
    requires FirstMatch(nb.widgets, s.cellReverted, i) && i < j < |nb.widgets|
    ensures Schedule(s, Some(nb.widgets[j])) == Success(s)
    ensures Execute(s, nb, nb.widgets[j], b) == s
  {
  }

  // ---------------------------------------------------------------------
  // A full session: first pass, focus, re-run of the second cell
  // ---------------------------------------------------------------------

  /** A backend whose first five commits return c1, c2, c3, c2' and c3'. */
  function ScriptedBackend(n: nat): Option<Reply> {
    if n == 0 then Some(Reply("c1", ""))
    else if n == 1 then Some(Reply("c2", ""))
    else if n == 2 then Some(Reply("c3", ""))
    else if n == 3 then Some(Reply("c2'", ""))
    else if n == 4 then Some(Reply("c3'", ""))
    else None
  }

  /** The three code cells U1, U2, U3 of the session below. */
  function ThreeCells(): seq<Cell> {
    [Cell("U1", true), Cell("U2", true), Cell("U3", true)]
  }

  /** The first pass over three code cells indexes c1, c2 and c3 and uses
      three backend answers. */
  lemma FirstPassOfThree()
    ensures Setup(Initial(), Notebook(ThreeCells(), true), ScriptedBackend).cellToCommit
         == map["U1" := "c1", "U2" := "c2", "U3" := "c3"]
    ensures Setup(Initial(), Notebook(ThreeCells(), true), ScriptedBackend).requests == 3
    ensures Setup(Initial(), Notebook(ThreeCells(), true), ScriptedBackend).cellReverted == ""
  {
    var cells := ThreeCells();
    assert cells[1..] == [cells[1], cells[2]] && cells[1..][1..] == [cells[2]] && cells[1..][1..][1..] == [];
  }

  /** Overwriting U2 and U3 in the first-pass index. */
  lemma RecommitBothLater(m: map<string, string>)
    requires m == map["U1" := "c1", "U2" := "c2", "U3" := "c3"]
    ensures m["U2" := "c2'"]["U3" := "c3'"] == map["U1" := "c1", "U2" := "c2'", "U3" := "c3'"]
  {
  }

  /** With U2 marked, the cascade over the three cells re-commits U2 and
      then replays U3 alone. */
  lemma ReplayAfterSecondOfThree(s: State, b: Backend)
    requires s.cellReverted == "U2"
    ensures Execute(s, Notebook(ThreeCells(), true), Cell("U2", true), b)
         == CommitAndRun(CommitCell(s, "U2", b), [Cell("U3", true)], b).(cellReverted := "")
  {
    var cells := ThreeCells();
    assert FirstIndex(cells, "U2") == 1;
    assert cells[2..] == [Cell("U3", true)];
  }

  /** From any state that indexes c1, c2 and c3, has used three backend
      answers and marks U2 as reverted, the cascade for U2 leaves U1 at c1,
      U2 at c2' and U3 at c3', and clears the marker. */
  lemma CascadeSecondOfThree(s: State)
    requires s.cellToCommit == map["U1" := "c1", "U2" := "c2", "U3" := "c3"]
    requires s.requests == 3 && s.cellReverted == "U2"
    ensures Execute(s, Notebook(ThreeCells(), true), Cell("U2", true), ScriptedBackend).cellToCommit
         == map["U1" := "c1", "U2" := "c2'", "U3" := "c3'"]
    ensures Execute(s, Notebook(ThreeCells(), true), Cell("U2", true), ScriptedBackend).cellReverted == ""
  {
    var b: Backend := ScriptedBackend;
    ReplayAfterSecondOfThree(s, b);
    var recommitted := CommitCell(s, "U2", b);
    assert recommitted.cellToCommit == s.cellToCommit["U2" := "c2'"] && recommitted.requests == 4;
    var u3 := Cell("U3", true);
    assert [u3][1..] == [];
    var third := CommitCell(recommitted, "U3", b);
    var ran := third.(trace := third.trace + [Run("U3")]);
    assert CommitAndRun(recommitted, [u3], b) == CommitAndRun(ran, [], b) == ran;
    assert ran.cellToCommit == recommitted.cellToCommit["U3" := "c3'"];
    RecommitBothLater(s.cellToCommit);
  }

  /** Re-running the focused second of three cells after the first pass
      reverts to c2, and the cascade leaves U2 at c2' and U3 at c3', with U1
      still at c1, and clears the marker. */
  lemma RerunSecondOfThree()
    ensures
      var cells := ThreeCells();
      var nb := Notebook(cells, true);
      var b: Backend := ScriptedBackend;
      var first := Setup(Initial(), nb, b);
      var focused := first.(activeCellId := "U2");
      var scheduled := Schedule(focused, Some(cells[1]));
      && scheduled.Success?
      && scheduled.value.trace == first.trace + [Revert("c2")]
      && Execute(scheduled.value, nb, cells[1], b).cellToCommit == map["U1" := "c1", "U2" := "c2'", "U3" := "c3'"]
      && Execute(scheduled.value, nb, cells[1], b).cellReverted == ""
  {
    var cells := ThreeCells();
    var nb := Notebook(cells, true);
    var b: Backend := ScriptedBackend;
    FirstPassOfThree();
    var first := Setup(Initial(), nb, b);
    var scheduled := Schedule(first.(activeCellId := "U2"), Some(cells[1]));
    assert scheduled.Success? && scheduled.value.cellReverted == "U2";
    CascadeSecondOfThree(scheduled.value);
  }
}
