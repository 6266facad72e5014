/** The browser run store (lib/db.web.ts): the whole list of runs kept as one
    JSON value under a single storage key, newest first. */
module WebRunStore {
  import opened Wrappers
  import opened RunTypes

  /** Largest id of a non-empty list: `Math.max(...runs.map(r => r.id))`. */
  function MaxId(runs: seq<Run>): (m: int)
    requires runs != []
    ensures forall i :: 0 <= i < |runs| ==> runs[i].id <= m
    ensures exists i :: 0 <= i < |runs| && runs[i].id == m
  {
    if |runs| == 1 then runs[0].id
    else
      var rest := MaxId(runs[1..]);
      assert forall i :: 1 <= i < |runs| ==> runs[i] == runs[1..][i - 1];
      if runs[0].id >= rest then runs[0].id else rest
  }

  /** The id `saveRun` assigns: one past the largest stored id, or 1 for an empty list. */
  function NextId(runs: seq<Run>): (id: int)
    ensures runs == [] ==> id == 1
    ensures forall i :: 0 <= i < |runs| ==> runs[i].id < id
    ensures runs != [] ==> exists i :: 0 <= i < |runs| && runs[i].id == id - 1
  {
    if |runs| > 0 then MaxId(runs) + 1 else 1
  }

  /** `runs.find(r => r.id === id) ?? null` */
  function FindRun(runs: seq<Run>, id: int): (found: Option<Run>)
    ensures found.None? <==> forall i :: 0 <= i < |runs| ==> runs[i].id != id
    ensures found.Some? ==>
      exists i :: 0 <= i < |runs| && runs[i] == found.value && (forall j :: 0 <= j < i ==> runs[j].id != id)
    ensures found.Some? ==> found.value.id == id
  {
    if runs == [] then None
    else if runs[0].id == id then Some(runs[0])
    else
      var rest := FindRun(runs[1..], id);
      assert forall i :: 1 <= i < |runs| ==> runs[i] == runs[1..][i - 1];
      if rest.Some? then
        ghost var k :| 0 <= k < |runs[1..]| && runs[1..][k] == rest.value
          && (forall j :: 0 <= j < k ==> runs[1..][j].id != id);
        assert runs[k + 1] == rest.value;
        rest
      else rest
  }

  /** The list after `saveRun`: the saved run in front of the previous ones. */
  function Saved(runs: seq<Run>, run: RunInsert): seq<Run> {
    [WithId(NextId(runs), run)] + runs
  }

  /** Saving grows the list by one, puts the saved record (the input fields plus a
      fresh id) at the front and keeps every earlier run, in order, behind it. */
  lemma SavedShape(runs: seq<Run>, run: RunInsert)
    ensures var after := Saved(runs, run);
      && |after| == |runs| + 1
      && after[0].id == NextId(runs) && WithoutId(after[0]) == run
      && after[1..] == runs
      && forall i :: 0 <= i < |runs| ==> after[0].id != runs[i].id
  {
  }

  /** Looking up the id just assigned finds the run just saved, and looking up any
      other id finds what it found before. */
  lemma FindAfterSave(runs: seq<Run>, run: RunInsert, id: int)
    ensures var saved := WithId(NextId(runs), run);
      && FindRun(Saved(runs, run), saved.id) == Some(saved)
      && (id != saved.id ==> FindRun(Saved(runs, run), id) == FindRun(runs, id))
  {
    var after := Saved(runs, run);
    assert after[1..] == runs;
  }

  /** Ids stay pairwise distinct from save to save. */
  predicate DistinctIds(runs: seq<Run>) {
    forall i, j :: 0 <= i < j < |runs| ==> runs[i].id != runs[j].id
  }

  lemma SavePreservesDistinctIds(runs: seq<Run>, run: RunInsert)
    requires DistinctIds(runs)
    ensures DistinctIds(Saved(runs, run))
  {
    var after := Saved(runs, run);
    forall i, j | 0 <= i < j < |after| ensures after[i].id != after[j].id {
      assert after[j] == runs[j - 1];
      if i > 0 {
        assert after[i] == runs[i - 1];
      }
    }
  }

  /** `localStorage` holding the list under the key `o25u25_runs`. `available` is `typeof localStorage !==
      'undefined'`; `stored` is the parsed value under the key: `None` when the key
      is missing or empty, when the text is not JSON or when it parses to
      something other than an array. */
  class Store {
    const available: bool
    var stored: Option<seq<Run>>

    constructor (available: bool, stored: Option<seq<Run>>)
      ensures this.available == available && this.stored == stored
    {
      this.available := available;
      this.stored := stored;
    }

    /** `getRunsFromStorage`: a missing store, a missing key or an unreadable
        value all read as no runs. */
    function Runs(): (runs: seq<Run>)
      reads this
      ensures !available || stored.None? ==> runs == []
      ensures available && stored.Some? ==> runs == stored.value
    {
      if available && stored.Some? then stored.value else []
    }

    /** `setRunsToStorage`: writes the list, or does nothing without storage. */
    method SetRunsToStorage(runs: seq<Run>)
      modifies this
      ensures available ==> stored == Some(runs) && Runs() == runs
      ensures !available ==> stored == old(stored) && Runs() == []
    {
      if available {
        stored := Some(runs);
      }
    }

    /** `saveRun`: returns the input fields with the next id and, where there is
        storage, leaves the list with that record in front of the previous ones. */
    method SaveRun(run: RunInsert) returns (saved: Run)
      modifies this
      ensures saved == WithId(NextId(old(Runs())), run)
      ensures available ==> Runs() == Saved(old(Runs()), run)
      ensures !available ==> stored == old(stored)
    {
      var runs := Runs();
      var id := if |runs| > 0 then MaxId(runs) + 1 else 1;
      saved := WithId(id, run);
      runs := [saved] + runs;
      SetRunsToStorage(runs);
    }

    /** `getRuns`: the stored list as it is, newest first. */
    method GetRuns() returns (runs: seq<Run>)
      ensures runs == Runs()
    {
      runs := Runs();
    }

    /** `getRunById`: the first stored run with that id, or none. */
    method GetRunById(id: int) returns (found: Option<Run>)
      ensures found == FindRun(Runs(), id)
    {
      found := FindRun(Runs(), id);
    }
  }
}
