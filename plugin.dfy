/** The jupyter-fs plugin's closure, as an object: the variables `activate`
    declares and updates in place become fields, and its inner functions
    become methods. Each method is proved against the value-level model in
    module Orchestration. */
module Plugin {
  import opened Wrappers
  import opened Orchestration

  class Session {
    /** The closure variables. */
    var cellToCommit: map<string, string>
    var listenerAttached: bool
    var activeCellId: string
    var cellReverted: string
    /** The panel's notebook, owned by the host, which may change it between events. */
    var notebook: Notebook
    /** The calls issued to the backend and the host so far. */
    var trace: seq<Event>
    /** The number of commit requests the backend has answered. */
    var requests: nat
    /** The backend's answer to each commit request. */
    const backend: Backend

    /** The plugin's state as a value. */
    ghost function Snapshot(): State
      reads this
    {
      State(cellToCommit, listenerAttached, activeCellId, cellReverted, trace, requests)
    }

    ghost predicate Valid()
      reads this
    {
      Orchestration.Valid(Snapshot())
    }

    /** Activation, with the panel the session was started on. */
    constructor (nb: Notebook, backend: Backend)
      ensures Valid() && Snapshot() == Initial()
      ensures notebook == nb && this.backend == backend
    {
      cellToCommit := map[];
      listenerAttached := false;
      activeCellId := "";
      cellReverted := "";
      notebook := nb;
      trace := [];
      requests := 0;
      this.backend := backend;
    }

    /** makeCommit: request a commit and store its hash under `cid`. A reply
        with an error text is still recorded; a request that throws is
        swallowed and leaves the index as it was. */
    method MakeCommit(cid: string)
      requires Valid()
      modifies this`cellToCommit, this`trace, this`requests
      ensures Valid()
      ensures Snapshot() == CommitCell(old(Snapshot()), cid, backend)
    {
      var reply := backend(requests);
      requests := requests + 1;
      trace := trace + [Commit(cid, reply)];
      match reply {
        case Some(data) =>
          cellToCommit := cellToCommit[cid := data.hash];
        case None =>
      }
    }

    /** makeCommitAndRunCells: for each code cell in turn, commit and then run it. */
    method MakeCommitAndRunCells(cells: seq<Cell>)
      requires Valid()
      modifies this`cellToCommit, this`trace, this`requests
      ensures Valid()
      ensures Snapshot() == CommitAndRun(old(Snapshot()), cells, backend)
    {
      for i := 0 to |cells|
        invariant Valid()
        invariant CommitAndRun(Snapshot(), cells[i..], backend) == CommitAndRun(old(Snapshot()), cells, backend)
      {
        var cell := cells[i];
        ghost var before := Snapshot();
        assert cells[i..][0] == cell && cells[i..][1..] == cells[i + 1..];
        if cell.isCode {
          MakeCommit(cell.id);
          trace := trace + [Run(cell.id)];
          assert Snapshot() == CommitCell(before, cell.id, backend).(trace := CommitCell(before, cell.id, backend).trace + [Run(cell.id)]);
        } else {
          assert Snapshot() == before;
        }
      }
      CommitAndRunValid(old(Snapshot()), cells, backend);
    }

    /** getSubsequentCells: the widgets after the first cell whose id is the
        pending revert marker. The argument is not used. */
    method GetSubsequentCells(cid: string) returns (r: seq<Cell>)
      ensures r == SubsequentCells(notebook, cellReverted)
    {
      if notebook.hasModel {
        var cells := notebook.widgets;
        var activeCellIndex := -1;
        var i := 0;
        while i < |cells|
          invariant 0 <= i <= |cells|
          invariant forall j :: 0 <= j < i ==> cells[j].id != cellReverted
        {
          if cells[i].id == cellReverted {
            activeCellIndex := i;
            break;
          }
          i := i + 1;
        }
        r := notebook.widgets[activeCellIndex + 1..];
      } else {
        r := [];
      }
    }

    /** setup: commit and run every cell of the notebook once. */
    method Setup()
      requires Valid()
      modifies this`cellToCommit, this`trace, this`requests
      ensures Valid()
      ensures Snapshot() == Orchestration.Setup(old(Snapshot()), notebook, backend)
    {
      MakeCommitAndRunCells(notebook.widgets);
    }

    /** onScheduled: a code cell that is focused and about to run while no
        revert is pending reverts the backend to its commit; without a usable
        commit it raises MissingCommit and changes nothing. */
    method OnScheduled(c: Option<Cell>) returns (err: Option<ScheduleError>)
      requires Valid()
      modifies this`trace, this`cellReverted, this`activeCellId
      ensures Valid()
      ensures match Schedule(old(Snapshot()), c)
        case Success(t) => err == None && Snapshot() == t
        case Failure(e) => err == Some(e) && Snapshot() == old(Snapshot())
    {
      ScheduleValid(Snapshot(), c);
      err := None;
      if c.Some? && c.value.isCode && c.value.id == activeCellId && cellReverted == "" {
        var cid := c.value.id;
        if cid in cellToCommit && cellToCommit[cid] != "" {
          var hash := cellToCommit[cid];
          trace := trace + [Revert(hash)];
          cellReverted := activeCellId;
          activeCellId := "";
        } else {
          err := Some(MissingCommit(cid));
        }
      }
    }

    /** onExecuted: when the reverted cell finishes, commit it again, commit
        and run every widget after it, and clear the marker. */
    method OnExecuted(cell: Cell)
      requires Valid()
      modifies this`cellToCommit, this`trace, this`requests, this`cellReverted
      ensures Valid()
      ensures Snapshot() == Execute(old(Snapshot()), notebook, cell, backend)
    {
      if cell.id == cellReverted {
        MakeCommit(cellReverted);
        var subsequentCells := GetSubsequentCells(cellReverted);
        MakeCommitAndRunCells(subsequentCells);
        cellReverted := "";
      }
    }

    /** attachListeners: connect the handlers the first time only; `connected`
        says whether this call connected them. */
    method AttachListeners() returns (connected: bool)
      requires Valid()
      modifies this`listenerAttached
      ensures Valid()
      ensures listenerAttached
      ensures connected == !old(listenerAttached)
    {
      connected := false;
      if !listenerAttached {
        connected := true;
        listenerAttached := true;
      }
    }

    /** The activeCellChanged handler: track the notebook's active cell, if any. */
    method ActiveCellChanged(activeCell: Option<Cell>)
      requires Valid()
      modifies this`activeCellId
      ensures Valid()
      ensures activeCellId == if activeCell.Some? then activeCell.value.id else old(activeCellId)
    {
      if activeCell.Some? {
        activeCellId := activeCell.value.id;
      }
    }
  }
}
