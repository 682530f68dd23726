/**
 * `selectionProcess` after login: the `while (true)` loop that, as long as the
 * user's selection list is not empty, visits every quarter in order and runs the
 * availability pass on its subject list. Login, the lobby link, the quarter-tab
 * click and `page.reload()` are browser I/O and are not modelled. The endless
 * loop is run for a bounded number of rounds; `completed` says whether the
 * completion branch (close the browser, `process.exit(0)`) was reached.
 */
module RunLoop {
  import opened Wrappers
  import opened Inspector
  import opened Browser
  import opened Availability

  /** One quarter of the work request: its identifier and its subject array. */
  datatype Selection = Selection(quarter: string, subjects: SubjectList)

  /** The `userData` object; only its `selections` array matters here. */
  class UserData {
    var selections: seq<Selection>

    constructor (selections: seq<Selection>)
      ensures this.selections == selections
    {
      this.selections := selections;
    }
  }

  /** The subject arrays the run loop may edit. */
  ghost function Lists(ud: UserData): set<SubjectList>
    reads ud
  {
    set k | 0 <= k < |ud.selections| :: ud.selections[k].subjects
  }

  /** Every quarter has its own subject array: each `askForSelection` call pushes
      a fresh `{ quarter, subjects: [] }` object. */
  predicate Distinct(ud: UserData)
    reads ud
  {
    forall a, b :: 0 <= a < b < |ud.selections| ==> ud.selections[a].subjects != ud.selections[b].subjects
  }

  /** The contents of the given quarters' subject arrays, in order. */
  ghost function ItemsOf(sels: seq<Selection>): seq<seq<Subject>>
    reads set s | s in sels :: s.subjects
  {
    if sels == [] then [] else [sels[0].subjects.items] + ItemsOf(sels[1..])
  }

  /** The contents of the subject arrays, quarter by quarter. */
  ghost function Contents(ud: UserData): seq<seq<Subject>>
    reads ud, Lists(ud)
  {
    ItemsOf(ud.selections)
  }

  lemma {:induction false} ItemsOfAt(sels: seq<Selection>)
    ensures |ItemsOf(sels)| == |sels|
    ensures forall k :: 0 <= k < |sels| ==> ItemsOf(sels)[k] == sels[k].subjects.items
    decreases |sels|
  {
    if sels != [] {
      ItemsOfAt(sels[1..]);
    }
  }

  lemma ContentsAt(ud: UserData)
    ensures |Contents(ud)| == |ud.selections|
    ensures forall k :: 0 <= k < |ud.selections| ==> Contents(ud)[k] == ud.selections[k].subjects.items
  {
    ItemsOfAt(ud.selections);
  }

  // ---------------------------------------------------------------------------
  // Specification of the run loop, on the contents of the subject arrays

  datatype SweepResult = SweepResult(lists: seq<seq<Subject>>, next: Cursor)

  /** One sweep: an availability pass over each quarter's subjects, in order,
      each pass starting where the previous one left the page. */
  function SweepFrom(v: View, lists: seq<seq<Subject>>, at: Cursor): (r: SweepResult)
    ensures |r.lists| == |lists|
    decreases |lists|
  {
    if lists == [] then SweepResult([], at)
    else
      var p := Pass(v, lists[0], at);
      var rest := SweepFrom(v, lists[1..], p.next);
      SweepResult([Remaining(lists[0], p.reports)] + rest.lists, rest.next)
  }

  /** The state after `n` sweeps in a row. */
  function Rounds(v: View, lists: seq<seq<Subject>>, at: Cursor, n: nat): SweepResult
    decreases n
  {
    if n == 0 then SweepResult(lists, at)
    else
      var s := SweepFrom(v, lists, at);
      Rounds(v, s.lists, s.next, n - 1)
  }

  /** Some quarter still has a subject to select. */
  predicate AnyPending(lists: seq<seq<Subject>>)
  {
    exists k :: 0 <= k < |lists| && lists[k] != []
  }

  /** Whether the loop reached its exit, and the state it left. */
  datatype RunResult = RunResult(completed: bool, lists: seq<seq<Subject>>, next: Cursor)

  /** `while (true)` as written, for `rounds` rounds: it exits only when there
      is no quarter at all. */
  function RunAsWritten(v: View, lists: seq<seq<Subject>>, at: Cursor, rounds: nat): (r: RunResult)
    ensures |r.lists| == |lists|
    ensures r.completed ==> rounds > 0 && lists == []
    decreases rounds
  {
    if rounds == 0 then RunResult(false, lists, at)
    else if |lists| == 0 then RunResult(true, lists, at)
    else
      var s := SweepFrom(v, lists, at);
      RunAsWritten(v, s.lists, s.next, rounds - 1)
  }

  /** The loop with the exit its completion message announces: it exits as soon
      as a round starts with no subject left in any quarter. */
  function RunFixed(v: View, lists: seq<seq<Subject>>, at: Cursor, rounds: nat): (r: RunResult)
    ensures |r.lists| == |lists|
    ensures r.completed ==> rounds > 0 && !AnyPending(r.lists)
    decreases rounds
  {
    if rounds == 0 then RunResult(false, lists, at)
    else if !AnyPending(lists) then RunResult(true, lists, at)
    else
      var s := SweepFrom(v, lists, at);
      RunFixed(v, s.lists, s.next, rounds - 1)
  }

  // ---------------------------------------------------------------------------
  // Properties of the specification

  /** A sweep keeps the quarters, and each quarter's list only loses subjects,
      keeping the order of the others. */
  lemma {:induction false} SweepKeepsOrder(v: View, lists: seq<seq<Subject>>, at: Cursor)
    ensures |SweepFrom(v, lists, at).lists| == |lists|
    ensures forall k :: 0 <= k < |lists| ==> IsSubsequence(SweepFrom(v, lists, at).lists[k], lists[k])
    decreases |lists|
  {
    if lists != [] {
      var p := Pass(v, lists[0], at);
      SweepKeepsOrder(v, lists[1..], p.next);
      PassKeepsOrder(v, lists[0], at);
      var out := SweepFrom(v, lists, at).lists;
      var rest := SweepFrom(v, lists[1..], p.next).lists;
      assert out == [Remaining(lists[0], p.reports)] + rest;
      forall k | 0 < k < |lists| ensures IsSubsequence(out[k], lists[k]) {
        assert out[k] == rest[k - 1] && lists[k] == lists[1..][k - 1];
      }
    }
  }

  /** Over any number of sweeps the quarters stay, and each list only loses
      subjects, keeping the order of the others. */
  lemma {:induction false} RoundsKeepOrder(v: View, lists: seq<seq<Subject>>, at: Cursor, n: nat)
    ensures |Rounds(v, lists, at, n).lists| == |lists|
    ensures forall k :: 0 <= k < |lists| ==> IsSubsequence(Rounds(v, lists, at, n).lists[k], lists[k])
    decreases n
  {
    if n == 0 {
      forall k | 0 <= k < |lists| ensures IsSubsequence(lists[k], lists[k]) {
        SubsequenceRefl(lists[k]);
      }
    } else {
      var s := SweepFrom(v, lists, at);
      SweepKeepsOrder(v, lists, at);
      RoundsKeepOrder(v, s.lists, s.next, n - 1);
      var out := Rounds(v, lists, at, n).lists;
      forall k | 0 <= k < |lists| ensures IsSubsequence(out[k], lists[k]) {
        SubsequenceTrans(out[k], s.lists[k], lists[k]);
      }
    }
  }

  /** The corrected loop, too, only removes subjects from the lists. */
  lemma {:induction false} FixedKeepsOrder(v: View, lists: seq<seq<Subject>>, at: Cursor, rounds: nat)
    ensures |RunFixed(v, lists, at, rounds).lists| == |lists|
    ensures forall k :: 0 <= k < |lists| ==> IsSubsequence(RunFixed(v, lists, at, rounds).lists[k], lists[k])
    decreases rounds
  {
    if rounds == 0 || !AnyPending(lists) {
      forall k | 0 <= k < |lists| ensures IsSubsequence(lists[k], lists[k]) {
        SubsequenceRefl(lists[k]);
      }
    } else {
      var s := SweepFrom(v, lists, at);
      SweepKeepsOrder(v, lists, at);
      FixedKeepsOrder(v, s.lists, s.next, rounds - 1);
      var out := RunFixed(v, lists, at, rounds).lists;
      forall k | 0 <= k < |lists| ensures IsSubsequence(out[k], lists[k]) {
        SubsequenceTrans(out[k], s.lists[k], lists[k]);
      }
    }
  }

  /** The loop as written never exits while there is a quarter, whatever the
      passes select, even once every list is empty; without a quarter it exits
      in its first round. */
  lemma {:induction false} AsWrittenExitsOnlyWithoutQuarters(v: View, lists: seq<seq<Subject>>, at: Cursor, rounds: nat)
    ensures RunAsWritten(v, lists, at, rounds).completed <==> rounds > 0 && |lists| == 0
    ensures |lists| > 0 ==> RunAsWritten(v, lists, at, rounds).lists == Rounds(v, lists, at, rounds).lists
    decreases rounds
  {
    if rounds > 0 && |lists| > 0 {
      var s := SweepFrom(v, lists, at);
      SweepKeepsOrder(v, lists, at);
      AsWrittenExitsOnlyWithoutQuarters(v, s.lists, s.next, rounds - 1);
    }
  }

  /** The corrected loop exits once a round starts with nothing pending. */
  lemma {:induction false} FixedExitsAtEmptyRound(v: View, lists: seq<seq<Subject>>, at: Cursor, rounds: nat, n: nat)
    requires n < rounds && !AnyPending(Rounds(v, lists, at, n).lists)
    ensures RunFixed(v, lists, at, rounds).completed
    decreases n
  {
    if AnyPending(lists) {
      var s := SweepFrom(v, lists, at);
      FixedExitsAtEmptyRound(v, s.lists, s.next, rounds - 1, n - 1);
    }
  }

  /** Conversely, when the corrected loop exits it is at the first round that
      starts with nothing pending, and it leaves the lists as that round found
      them: every quarter emptied. */
  lemma {:induction false} FixedExitRound(v: View, lists: seq<seq<Subject>>, at: Cursor, rounds: nat) returns (n: nat)
    requires RunFixed(v, lists, at, rounds).completed
    ensures n < rounds && !AnyPending(Rounds(v, lists, at, n).lists)
    ensures forall m: nat :: m < n ==> AnyPending(Rounds(v, lists, at, m).lists)
    ensures RunFixed(v, lists, at, rounds).lists == Rounds(v, lists, at, n).lists
    ensures !AnyPending(RunFixed(v, lists, at, rounds).lists)
    decreases rounds
  {
    if !AnyPending(lists) {
      n := 0;
    } else {
      var s := SweepFrom(v, lists, at);
      var n' := FixedExitRound(v, s.lists, s.next, rounds - 1);
      n := n' + 1;
      forall m: nat | m < n ensures AnyPending(Rounds(v, lists, at, m).lists) {
        if m > 0 {
          assert Rounds(v, lists, at, m) == Rounds(v, s.lists, s.next, m - 1);
        }
      }
    }
  }

  /** The smallest request a run can start from, one quarter with one subject,
      on a page whose first click succeeds: the corrected loop selects it in
      round one and exits in round two, the loop as written never exits. */
  lemma OneSubjectSelected(v: View, quarter: seq<Subject>, d: SectionData, rounds: nat)
    requires |quarter| == 1 && rounds >= 2
    requires v.tableReady(0) && v.evaluate(0, quarter[0]) == Some([d])
    requires IsOpen(d) && d.selectorToClick.Some? && v.clickOk(0)
    ensures SweepFrom(v, [quarter], Cursor(0, 0, 0)).lists == [[]]
    ensures RunFixed(v, [quarter], Cursor(0, 0, 0), rounds).completed
    ensures !RunAsWritten(v, [quarter], Cursor(0, 0, 0), rounds).completed
  {
    var p := Pass(v, quarter, Cursor(0, 0, 0));
    var at := Cursor(1, 0, 0);
    assert quarter[1..] == [];
    assert TryRows(v, [d], 0).events == [Clicked(d)];
    var rep := Report(quarter[0], [d], [Clicked(d)]);
    assert SubjectStep(v, quarter[0], at).report == Some(rep);
    assert p.reports == [rep];
    assert rep.events[0].Clicked?;
    assert Selected(rep);
    assert Kept(p.reports) == [];
    assert Remaining(quarter, p.reports) == [];
    assert [quarter][0] == quarter && [quarter][1..] == [];
    assert SweepFrom(v, [quarter], Cursor(0, 0, 0)).lists == [[]];
    assert Rounds(v, [quarter], Cursor(0, 0, 0), 1).lists == [[]];
    FixedExitsAtEmptyRound(v, [quarter], Cursor(0, 0, 0), rounds, 1);
    AsWrittenExitsOnlyWithoutQuarters(v, [quarter], Cursor(0, 0, 0), rounds);
  }

  // ---------------------------------------------------------------------------
  // The loop over the `userData` object

  /** What the sweep keeps true after the first `j` quarters: their lists hold
      what the sweep makes of them, the others are untouched, and the rest of the
      sweep from cursor `at` completes `full`. */
  ghost predicate SweepInv(v: View, orig: seq<seq<Subject>>, j: nat, cur: seq<seq<Subject>>, at: Cursor, full: SweepResult)
  {
    && j <= |orig| && |cur| == |orig|
    && cur[j..] == orig[j..]
    && full == SweepResult(cur[..j] + SweepFrom(v, orig[j..], at).lists, SweepFrom(v, orig[j..], at).next)
  }

  lemma SweepInvInit(v: View, orig: seq<seq<Subject>>, at: Cursor)
    ensures SweepInv(v, orig, 0, orig, at, SweepFrom(v, orig, at))
  {
    assert orig[0..] == orig;
    assert orig[..0] + SweepFrom(v, orig, at).lists == SweepFrom(v, orig, at).lists;
  }

  /** The pass over quarter `j` replaces its list by what remains of it. */
  lemma SweepInvStep(v: View, orig: seq<seq<Subject>>, j: nat, cur: seq<seq<Subject>>, at: Cursor, full: SweepResult)
    requires SweepInv(v, orig, j, cur, at, full) && j < |orig|
    ensures var p := Pass(v, cur[j], at);
      SweepInv(v, orig, j + 1, cur[j := Remaining(cur[j], p.reports)], p.next, full)
  {
    var p := Pass(v, cur[j], at);
    var cur' := cur[j := Remaining(cur[j], p.reports)];
    assert cur[j] == orig[j];
    assert orig[j..] == [orig[j]] + orig[j + 1..];
    assert orig[j..][1..] == orig[j + 1..];
    assert cur'[..j + 1] == cur[..j] + [Remaining(cur[j], p.reports)];
    assert cur'[j + 1..] == cur[j + 1..];
    var rest := SweepFrom(v, orig[j + 1..], p.next);
    assert SweepFrom(v, orig[j..], at).lists == [Remaining(cur[j], p.reports)] + rest.lists;
    assert cur[..j] + ([Remaining(cur[j], p.reports)] + rest.lists) == cur'[..j + 1] + rest.lists;
  }

  lemma SweepInvDone(v: View, orig: seq<seq<Subject>>, j: nat, cur: seq<seq<Subject>>, at: Cursor, full: SweepResult)
    requires SweepInv(v, orig, j, cur, at, full) && j == |orig|
    ensures full == SweepResult(cur, at)
  {
    assert orig[j..] == [];
    assert cur[..j] == cur;
    assert cur[..j] + [] == cur;
  }

  /** The pass over quarter `j` of the sweep. */
  method SweepQuarter(page: Page, ud: UserData, j: nat, ghost orig: seq<seq<Subject>>, ghost full: SweepResult)
    requires Distinct(ud) && j < |ud.selections|
    requires SweepInv(page.view, orig, j, Contents(ud), page.at, full)
    modifies page, Lists(ud)
    ensures SweepInv(page.view, orig, j + 1, Contents(ud), page.at, full)
  {
    var list := ud.selections[j].subjects;
    ContentsAt(ud);
    ghost var cur := Contents(ud);
    SweepInvStep(page.view, orig, j, cur, page.at, full);
    var reports, aborted := CheckAvailability(page, list);
    ContentsAt(ud);
    forall k | 0 <= k < |ud.selections| && k != j
      ensures ud.selections[k].subjects.items == cur[k]
    {
      assert ud.selections[k].subjects != list;
    }
    assert Contents(ud) == cur[j := list.items];
  }

  /** One `for (const selection of userData.selections)` sweep: a pass over each
      quarter's subjects, in order. */
  method Sweep(page: Page, ud: UserData)
    requires Distinct(ud)
    modifies page, Lists(ud)
    ensures var r := SweepFrom(page.view, old(Contents(ud)), old(page.at));
      Contents(ud) == r.lists && page.at == r.next
  {
    ghost var orig := Contents(ud);
    ghost var full := SweepFrom(page.view, orig, page.at);
    SweepInvInit(page.view, orig, page.at);
    var j := 0;
    while j < |ud.selections|
      invariant SweepInv(page.view, orig, j, Contents(ud), page.at, full)
    {
      SweepQuarter(page, ud, j, orig, full);
      j := j + 1;
    }
    ContentsAt(ud);
    SweepInvDone(page.view, orig, j, Contents(ud), page.at, full);
  }

  /** Where a run of the loop stands after some rounds: `goal` is what is left
      of the run over `n` more rounds from the lists and cursor reached, or,
      once the loop has exited, exactly the state it exited in. */
  ghost predicate Tracks(fixed: bool, goal: RunResult, v: View, lists: seq<seq<Subject>>, at: Cursor, n: nat, done: bool)
  {
    if done then goal == RunResult(true, lists, at)
    else if fixed then goal == RunFixed(v, lists, at, n)
    else goal == RunAsWritten(v, lists, at, n)
  }

  lemma TracksDone(fixed: bool, goal: RunResult, v: View, lists: seq<seq<Subject>>, at: Cursor, n: nat, done: bool)
    requires Tracks(fixed, goal, v, lists, at, n, done) && (done || n == 0)
    ensures goal == RunResult(done, lists, at)
  {
  }

  /** One round of the loop as written, while there is a quarter. */
  lemma AsWrittenGoesOn(v: View, lists: seq<seq<Subject>>, at: Cursor, n: nat)
    requires n > 0 && |lists| > 0
    ensures var s := SweepFrom(v, lists, at);
      RunAsWritten(v, lists, at, n) == RunAsWritten(v, s.lists, s.next, n - 1)
  {
  }

  /** One round of the corrected loop, while a subject is pending. */
  lemma FixedGoesOn(v: View, lists: seq<seq<Subject>>, at: Cursor, n: nat)
    requires n > 0 && AnyPending(lists)
    ensures var s := SweepFrom(v, lists, at);
      RunFixed(v, lists, at, n) == RunFixed(v, s.lists, s.next, n - 1)
  {
  }

  /** The corrected loop's exit, once nothing is pending. */
  lemma FixedStops(v: View, lists: seq<seq<Subject>>, at: Cursor, n: nat)
    requires n > 0 && !AnyPending(lists)
    ensures RunFixed(v, lists, at, n) == RunResult(true, lists, at)
  {
  }

  /** One round of `while (true)` as written: the completion branch when
      `userData.selections` is empty, a sweep otherwise. */
  method RoundAsWritten(page: Page, ud: UserData, ghost goal: RunResult, ghost n: nat) returns (exit: bool)
    requires Distinct(ud) && n > 0
    requires Tracks(false, goal, page.view, Contents(ud), page.at, n, false)
    modifies page, Lists(ud)
    ensures Tracks(false, goal, page.view, Contents(ud), page.at, n - 1, exit)
  {
    ContentsAt(ud);
    if |ud.selections| > 0 {
      AsWrittenGoesOn(page.view, Contents(ud), page.at, n);
      Sweep(page, ud);
      exit := false;
    } else {
      exit := true;
    }
  }

  /** The loop as written: it leaves only through the branch taken when
      `userData.selections` is empty, which no pass ever changes. */
  method SelectionProcess(page: Page, ud: UserData, rounds: nat) returns (completed: bool)
    requires Distinct(ud)
    modifies page, Lists(ud)
    ensures ud.selections == old(ud.selections)
    ensures var r := RunAsWritten(page.view, old(Contents(ud)), old(page.at), rounds);
      completed == r.completed && Contents(ud) == r.lists && page.at == r.next
  {
    ghost var goal := RunAsWritten(page.view, Contents(ud), page.at, rounds);
    completed := false;
    var r := 0;
    ghost var n: nat := rounds;
    while r < rounds && !completed
      invariant 0 <= r <= rounds && n == rounds - r
      invariant Tracks(false, goal, page.view, Contents(ud), page.at, n, completed)
    {
      completed := RoundAsWritten(page, ud, goal, n);
      r := r + 1;
      n := n - 1;
    }
    TracksDone(false, goal, page.view, Contents(ud), page.at, n, completed);
  }

  /** Some quarter of `userData` still has a subject to select. */
  predicate Pending(ud: UserData)
    reads ud, Lists(ud)
  {
    exists k :: 0 <= k < |ud.selections| && ud.selections[k].subjects.items != []
  }

  lemma PendingContents(ud: UserData)
    ensures Pending(ud) <==> AnyPending(Contents(ud))
  {
    var c := Contents(ud);
    ContentsAt(ud);
    if AnyPending(c) {
      var k :| 0 <= k < |c| && c[k] != [];
      assert ud.selections[k].subjects.items != [];
    }
  }

  /** One round of the corrected loop: the completion branch when no quarter
      has a subject left, a sweep otherwise. */
  method RoundFixed(page: Page, ud: UserData, ghost goal: RunResult, ghost n: nat) returns (exit: bool)
    requires Distinct(ud) && n > 0
    requires Tracks(true, goal, page.view, Contents(ud), page.at, n, false)
    modifies page, Lists(ud)
    ensures Tracks(true, goal, page.view, Contents(ud), page.at, n - 1, exit)
  {
    PendingContents(ud);
    if Pending(ud) {
      FixedGoesOn(page.view, Contents(ud), page.at, n);
      Sweep(page, ud);
      exit := false;
    } else {
      FixedStops(page.view, Contents(ud), page.at, n);
      exit := true;
    }
  }

  /** The corrected loop: it checks at the start of every round whether any
      quarter still has a subject and exits when none has. */
  method SelectionProcessFixed(page: Page, ud: UserData, rounds: nat) returns (completed: bool)
    requires Distinct(ud)
    modifies page, Lists(ud)
    ensures ud.selections == old(ud.selections)
    ensures var r := RunFixed(page.view, old(Contents(ud)), old(page.at), rounds);
      completed == r.completed && Contents(ud) == r.lists && page.at == r.next
  {
    ghost var goal := RunFixed(page.view, Contents(ud), page.at, rounds);
    completed := false;
    var r := 0;
    ghost var n: nat := rounds;
    while r < rounds && !completed
      invariant 0 <= r <= rounds && n == rounds - r
      invariant Tracks(true, goal, page.view, Contents(ud), page.at, n, completed)
    {
      completed := RoundFixed(page, ud, goal, n);
      r := r + 1;
      n := n - 1;
    }
    TracksDone(true, goal, page.view, Contents(ud), page.at, n, completed);
  }

  /** A request whose one quarter has had all its subjects selected: the loop as
      written goes on sweeping it for as many rounds as it is given. */
  method AllSelectedNeverCompletes(page: Page, rounds: nat) returns (completed: bool)
    modifies page
    ensures !completed
  {
    var list := new SubjectList([]);
    var ud := new UserData([Selection("6", list)]);
    ghost var at := page.at;
    ContentsAt(ud);
    assert Contents(ud) == [[]];
    completed := SelectionProcess(page, ud, rounds);
    AsWrittenExitsOnlyWithoutQuarters(page.view, [[]], at, rounds);
  }

  /** The same request under the corrected loop completes in its first round. */
  method AllSelectedCompletesFixed(page: Page, rounds: nat) returns (completed: bool)
    requires rounds > 0
    modifies page
    ensures completed
  {
    var list := new SubjectList([]);
    var ud := new UserData([Selection("6", list)]);
    ContentsAt(ud);
    assert Contents(ud) == [[]];
    completed := SelectionProcessFixed(page, ud, rounds);
  }
}
