/**
 * `checkAvailability`: one pass over the subjects of a quarter. For each subject
 * still in the list it runs the row search, reports full rows, tries a click on
 * each open row in document order, and on the first click that succeeds removes
 * the subject from the caller's list in place and goes on with the next subject.
 * An exception outside the per-click `try` ends the pass.
 */
module Availability {
  import opened Wrappers
  import opened Inspector
  import opened Browser

  /** The caller's `subjects` array, which the pass edits in place. */
  class SubjectList {
    var items: seq<Subject>

    constructor (items: seq<Subject>)
      ensures this.items == items
    {
      this.items := items;
    }
  }

  /** What the pass did with one row of a subject's search result. */
  datatype RowEvent =
    | Full(row: SectionData)          // reported as full, no click
    | Clicked(row: SectionData)       // click succeeded: section selected
    | ClickFailed(row: SectionData)   // click failed: reported, next row

  /** What the pass did with one subject: the rows found and what happened to each
      row it looked at. No row found is the "no sections found" report. */
  datatype Report = Report(subject: Subject, found: seq<SectionData>, events: seq<RowEvent>)

  datatype RowsResult = RowsResult(events: seq<RowEvent>, clicks: nat)

  /** The reports of the subjects examined, whether an exception ended the pass
      early, and the script position afterwards. */
  datatype PassResult = PassResult(reports: seq<Report>, aborted: bool, next: Cursor)

  predicate IsOpen(d: SectionData)
  {
    d.inscritos < d.cupo
  }

  predicate HasClick(events: seq<RowEvent>)
  {
    exists j :: 0 <= j < |events| && events[j].Clicked?
  }

  predicate Selected(rep: Report)
  {
    HasClick(rep.events)
  }

  // ---------------------------------------------------------------------------
  // Specification of one pass

  /** The row loop of one subject, starting at click answer `c`. */
  function TryRows(v: View, found: seq<SectionData>, c: nat): RowsResult
    decreases |found|
  {
    if found == [] then RowsResult([], c)
    else
      var d := found[0];
      if !IsOpen(d) then
        var rest := TryRows(v, found[1..], c);
        RowsResult([Full(d)] + rest.events, rest.clicks)
      else if ClickOutcome(v, c, d.selectorToClick) then
        RowsResult([Clicked(d)], ClicksAfter(c, d.selectorToClick))
      else
        var rest := TryRows(v, found[1..], ClicksAfter(c, d.selectorToClick));
        RowsResult([ClickFailed(d)] + rest.events, rest.clicks)
  }

  /** What examining one subject does: its report, or `None` when the
      evaluation throws, and the script position afterwards. */
  datatype Step = Step(report: Option<Report>, next: Cursor)

  function SubjectStep(v: View, s: Subject, at: Cursor): (st: Step)
    ensures st.report.Some? ==> st.report.value.subject == s
  {
    match v.evaluate(at.evals, s)
    case None => Step(None, at.(evals := at.evals + 1))
    case Some(found) =>
      var t := TryRows(v, found, at.clicks);
      Step(Some(Report(s, found, t.events)), Cursor(at.waits, at.evals + 1, t.clicks))
  }

  /** The subject loop from cursor `at` on, over the subjects not yet examined. */
  function PassFrom(v: View, subjects: seq<Subject>, at: Cursor): (r: PassResult)
    ensures |r.reports| <= |subjects|
    ensures !r.aborted ==> |r.reports| == |subjects|
    decreases |subjects|
  {
    if subjects == [] then PassResult([], false, at)
    else
      var st := SubjectStep(v, subjects[0], at);
      match st.report
      case None => PassResult([], true, st.next)
      case Some(rep) =>
        var rest := PassFrom(v, subjects[1..], st.next);
        PassResult([rep] + rest.reports, rest.aborted, rest.next)
  }

  /** A whole pass: the wait for the table, then the subject loop. */
  function Pass(v: View, subjects: seq<Subject>, at: Cursor): (r: PassResult)
    ensures |r.reports| <= |subjects|
    ensures !r.aborted ==> |r.reports| == |subjects|
    ensures !v.tableReady(at.waits) ==> r.aborted && r.reports == []
  {
    var at' := at.(waits := at.waits + 1);
    if !v.tableReady(at.waits) then PassResult([], true, at') else PassFrom(v, subjects, at')
  }

  /** The examined subjects that stay in the list, in order. */
  function Kept(reports: seq<Report>): seq<Subject>
  {
    if reports == [] then []
    else (if Selected(reports[0]) then [] else [reports[0].subject]) + Kept(reports[1..])
  }

  /** The examined subjects that were selected and removed, in order. */
  function SelectedSubjects(reports: seq<Report>): seq<Subject>
  {
    if reports == [] then []
    else (if Selected(reports[0]) then [reports[0].subject] else []) + SelectedSubjects(reports[1..])
  }

  /** The list after a pass that examined the first `|reports|` subjects. */
  function Remaining(subjects: seq<Subject>, reports: seq<Report>): seq<Subject>
    requires |reports| <= |subjects|
  {
    Kept(reports) + subjects[|reports|..]
  }

  // ---------------------------------------------------------------------------
  // Properties of the row loop

  /** How the row loop walks a subject's rows: in document order, each row looked
      at once; a full row is only reported, never clicked; a failed click goes on
      to the next row of the same result; a click succeeds only on a row with a
      selector; the first success ends the walk, and without one every row is
      looked at. */
  ghost predicate WellFormed(rep: Report)
  {
    && |rep.events| <= |rep.found|
    && (forall j :: 0 <= j < |rep.events| ==> rep.events[j].row == rep.found[j])
    && (forall j :: 0 <= j < |rep.events| ==> (rep.events[j].Full? <==> !IsOpen(rep.found[j])))
    && (forall j :: 0 <= j < |rep.events| && rep.events[j].Clicked? ==>
          j == |rep.events| - 1 && rep.found[j].selectorToClick.Some?)
    && (!Selected(rep) ==> |rep.events| == |rep.found|)
  }

  lemma {:induction false} TryRowsWellFormed(v: View, s: Subject, found: seq<SectionData>, c: nat)
    ensures WellFormed(Report(s, found, TryRows(v, found, c).events))
    ensures c <= TryRows(v, found, c).clicks <= c + |TryRows(v, found, c).events|
    decreases |found|
  {
    if found != [] {
      var d := found[0];
      var c' := if IsOpen(d) then ClicksAfter(c, d.selectorToClick) else c;
      TryRowsWellFormed(v, s, found[1..], c');
      var rest := TryRows(v, found[1..], c').events;
      var events := TryRows(v, found, c).events;
      if !(IsOpen(d) && ClickOutcome(v, c, d.selectorToClick)) {
        assert events == [events[0]] + rest;
        assert forall j :: 0 < j < |events| ==> events[j] == rest[j - 1] && found[j] == found[1..][j - 1];
        assert HasClick(events) ==> HasClick(rest);
      }
    }
  }

  /** At most one click succeeds per subject, and it is the last row looked at. */
  lemma AtMostOneSelection(rep: Report)
    requires WellFormed(rep)
    ensures forall j :: 0 <= j < |rep.events| - 1 ==> !rep.events[j].Clicked?
    ensures Selected(rep) <==> rep.events != [] && rep.events[|rep.events| - 1].Clicked?
  {
  }

  /** How many of the first `j` rows the row loop tries to click: the open rows
      with a checkmark selector. A full row is never tried, and a `null` selector
      fails before reaching the page, so neither uses a click answer. */
  function Attempts(found: seq<SectionData>, j: nat): nat
    requires j <= |found|
    decreases j
  {
    if j == 0 then 0
    else (if IsOpen(found[0]) && found[0].selectorToClick.Some? then 1 else 0) + Attempts(found[1..], j - 1)
  }

  /** The click answer the first row would use, counted as `Attempts` does. */
  function FirstAttempt(found: seq<SectionData>): nat
    requires found != []
  {
    if IsOpen(found[0]) && found[0].selectorToClick.Some? then 1 else 0
  }

  /** `events` label the rows of `found` as the page's click answers from `c` on
      say, and the walk ends at click answer `clicks`. */
  ghost predicate FollowsClicks(v: View, found: seq<SectionData>, c: nat, events: seq<RowEvent>, clicks: nat)
  {
    && |events| <= |found|
    && (forall j :: 0 <= j < |events| && IsOpen(found[j]) ==>
          (events[j].Clicked? <==> ClickOutcome(v, c + Attempts(found, j), found[j].selectorToClick)))
    && clicks == c + Attempts(found, |events|)
  }

  /** A row labelled by the answer at `c`, in front of a walk of the other rows. */
  lemma FollowsClicksCons(v: View, found: seq<SectionData>, c: nat, e: RowEvent, events: seq<RowEvent>, clicks: nat)
    requires found != []
    requires FollowsClicks(v, found[1..], c + FirstAttempt(found), events, clicks)
    requires IsOpen(found[0]) ==> (e.Clicked? <==> ClickOutcome(v, c, found[0].selectorToClick))
    ensures FollowsClicks(v, found, c, [e] + events, clicks)
  {
    var all := [e] + events;
    forall j | 0 < j < |all| && IsOpen(found[j])
      ensures all[j].Clicked? <==> ClickOutcome(v, c + Attempts(found, j), found[j].selectorToClick)
    {
      assert all[j] == events[j - 1] && found[j] == found[1..][j - 1];
    }
  }

  /** A successful first click ends the walk after one answer. */
  lemma FollowsClicksStop(v: View, found: seq<SectionData>, c: nat)
    requires found != [] && IsOpen(found[0]) && ClickOutcome(v, c, found[0].selectorToClick)
    ensures FollowsClicks(v, found, c, [Clicked(found[0])], ClicksAfter(c, found[0].selectorToClick))
  {
    assert Attempts(found, 1) == 1 + Attempts(found[1..], 0);
  }

  /** The labels of the row loop follow the page's click answers: an open row is
      `Clicked` exactly when the click answer it uses, the one after those used by
      the earlier attempts, succeeds; and the walk uses one answer per attempt, so
      full rows and rows without a selector use none. */
  lemma {:induction false} TryRowsFollowsClicks(v: View, found: seq<SectionData>, c: nat)
    ensures FollowsClicks(v, found, c, TryRows(v, found, c).events, TryRows(v, found, c).clicks)
    decreases |found|
  {
    if found != [] {
      var d := found[0];
      var c' := c + FirstAttempt(found);
      if IsOpen(d) && ClickOutcome(v, c, d.selectorToClick) {
        FollowsClicksStop(v, found, c);
      } else {
        assert c' == if IsOpen(d) then ClicksAfter(c, d.selectorToClick) else c;
        TryRowsFollowsClicks(v, found[1..], c');
        var rest := TryRows(v, found[1..], c');
        var e := if IsOpen(d) then ClickFailed(d) else Full(d);
        assert TryRows(v, found, c) == RowsResult([e] + rest.events, rest.clicks);
        FollowsClicksCons(v, found, c, e, rest.events, rest.clicks);
      }
    }
  }

  // ---------------------------------------------------------------------------
  // Properties of the pass

  /** The report of the k-th subject holds what the k-th evaluation of the pass
      returned for that subject, and is a well-formed walk of those rows. */
  lemma {:induction false} PassFromReport(v: View, subjects: seq<Subject>, at: Cursor, k: nat)
    requires k < |PassFrom(v, subjects, at).reports|
    ensures PassFrom(v, subjects, at).reports[k].subject == subjects[k]
    ensures v.evaluate(at.evals + k, subjects[k]) == Some(PassFrom(v, subjects, at).reports[k].found)
    ensures WellFormed(PassFrom(v, subjects, at).reports[k])
    decreases k
  {
    var st := SubjectStep(v, subjects[0], at);
    var found := v.evaluate(at.evals, subjects[0]).value;
    var rest := PassFrom(v, subjects[1..], st.next);
    assert PassFrom(v, subjects, at).reports == [st.report.value] + rest.reports;
    if k == 0 {
      TryRowsWellFormed(v, subjects[0], found, at.clicks);
    } else {
      PassFromReport(v, subjects[1..], st.next, k - 1);
      assert subjects[1..][k - 1] == subjects[k];
      assert st.next.evals + (k - 1) == at.evals + k;
    }
  }

  /** The click answers a walk used: one per open row it tried with a selector.
      Stated on the labels alone, so that it can be read off a report. */
  function ClickAttempts(events: seq<RowEvent>): nat
  {
    if events == [] then 0
    else (if !events[0].Full? && events[0].row.selectorToClick.Some? then 1 else 0) + ClickAttempts(events[1..])
  }

  /** The click answers the first `k` reports of a pass used. */
  function ClicksBefore(reports: seq<Report>, k: nat): nat
    requires k <= |reports|
    decreases k
  {
    if k == 0 then 0 else ClickAttempts(reports[0].events) + ClicksBefore(reports[1..], k - 1)
  }

  /** On a well-formed walk, counting attempts on the labels or on the rows agrees. */
  lemma {:induction false} ClickAttemptsOfRows(found: seq<SectionData>, events: seq<RowEvent>)
    requires |events| <= |found|
    requires forall j :: 0 <= j < |events| ==> events[j].row == found[j]
    requires forall j :: 0 <= j < |events| ==> (events[j].Full? <==> !IsOpen(found[j]))
    ensures ClickAttempts(events) == Attempts(found, |events|)
    decreases |events|
  {
    if events != [] {
      assert forall j :: 0 <= j < |events[1..]| ==> events[1..][j] == events[j + 1] && found[1..][j] == found[j + 1];
      ClickAttemptsOfRows(found[1..], events[1..]);
    }
  }

  /** The row walk of one subject moves the click cursor by the answers it used. */
  lemma TryRowsClicks(v: View, s: Subject, found: seq<SectionData>, c: nat)
    ensures TryRows(v, found, c).clicks == c + ClickAttempts(TryRows(v, found, c).events)
  {
    TryRowsWellFormed(v, s, found, c);
    TryRowsFollowsClicks(v, found, c);
    ClickAttemptsOfRows(found, TryRows(v, found, c).events);
  }

  /** Each report's labels are the row walk of its rows from click answer `c`
      on, `c` moving past the answers each report used. */
  ghost predicate ClickChain(v: View, reports: seq<Report>, c: nat)
    decreases |reports|
  {
    reports != [] ==>
      && reports[0].events == TryRows(v, reports[0].found, c).events
      && ClickChain(v, reports[1..], c + ClickAttempts(reports[0].events))
  }

  /** The reports of a pass form such a chain from the pass's click cursor. */
  lemma {:induction false} PassFromClickChain(v: View, subjects: seq<Subject>, at: Cursor)
    ensures ClickChain(v, PassFrom(v, subjects, at).reports, at.clicks)
    decreases |subjects|
  {
    if subjects != [] {
      var st := SubjectStep(v, subjects[0], at);
      if st.report.Some? {
        var found := st.report.value.found;
        var t := TryRows(v, found, at.clicks);
        assert st.next == Cursor(at.waits, at.evals + 1, t.clicks);
        PassFromClickChain(v, subjects[1..], st.next);
        TryRowsClicks(v, subjects[0], found, at.clicks);
        var reports := PassFrom(v, subjects, at).reports;
        assert reports == [st.report.value] + PassFrom(v, subjects[1..], st.next).reports;
        assert reports[1..] == PassFrom(v, subjects[1..], st.next).reports;
      }
    }
  }

  /** So do the reports of a whole pass; the wait for the table uses no click answer. */
  lemma PassClickChain(v: View, subjects: seq<Subject>, at: Cursor)
    ensures ClickChain(v, Pass(v, subjects, at).reports, at.clicks)
  {
    if v.tableReady(at.waits) {
      PassFromClickChain(v, subjects, at.(waits := at.waits + 1));
    }
  }

  /** In a chain, report `k` starts at the answers the earlier reports used. */
  lemma {:induction false} ClickChainAt(v: View, reports: seq<Report>, c: nat, k: nat)
    requires ClickChain(v, reports, c) && k < |reports|
    ensures reports[k].events == TryRows(v, reports[k].found, c + ClicksBefore(reports, k)).events
    decreases k
  {
    if k > 0 {
      ClickChainAt(v, reports[1..], c + ClickAttempts(reports[0].events), k - 1);
      assert reports[1..][k - 1] == reports[k];
    }
  }

  /** Every report of a pass is well formed and holds what the evaluation made
      for its subject returned, the n-th evaluation of the pass being for the
      n-th subject. */
  lemma PassReports(v: View, subjects: seq<Subject>, at: Cursor, k: nat)
    requires k < |Pass(v, subjects, at).reports|
    ensures Pass(v, subjects, at).reports[k].subject == subjects[k]
    ensures WellFormed(Pass(v, subjects, at).reports[k])
    ensures v.evaluate(at.evals + k, subjects[k]) == Some(Pass(v, subjects, at).reports[k].found)
  {
    var at' := at.(waits := at.waits + 1);
    assert Pass(v, subjects, at) == PassFrom(v, subjects, at');
    PassFromReport(v, subjects, at', k);
  }

  /** The labels of the k-th report are the row walk of its rows from the click
      answer the earlier subjects of the pass left the page at; with
      TryRowsFollowsClicks, a subject is selected only on a successful click
      answer at that position. */
  lemma PassClicks(v: View, subjects: seq<Subject>, at: Cursor, k: nat)
    requires k < |Pass(v, subjects, at).reports|
    ensures var reports := Pass(v, subjects, at).reports;
            reports[k].events == TryRows(v, reports[k].found, at.clicks + ClicksBefore(reports, k)).events
  {
    PassClickChain(v, subjects, at);
    ClickChainAt(v, Pass(v, subjects, at).reports, at.clicks, k);
  }

  lemma {:induction false} KeptAppend(reports: seq<Report>, rep: Report)
    ensures Kept(reports + [rep]) == Kept(reports) + (if Selected(rep) then [] else [rep.subject])
    decreases |reports|
  {
    if reports != [] {
      assert (reports + [rep])[1..] == reports[1..] + [rep];
      KeptAppend(reports[1..], rep);
    }
  }

  /** The subjects the reports are about, in order. */
  function Subjects(reports: seq<Report>): seq<Subject>
  {
    if reports == [] then [] else [reports[0].subject] + Subjects(reports[1..])
  }

  lemma {:induction false} SubjectsAt(reports: seq<Report>)
    ensures |Subjects(reports)| == |reports|
    ensures forall k :: 0 <= k < |reports| ==> Subjects(reports)[k] == reports[k].subject
    decreases |reports|
  {
    if reports != [] {
      SubjectsAt(reports[1..]);
    }
  }

  /** Each examined subject is either kept or selected. */
  lemma {:induction false} KeptAndSelected(reports: seq<Report>)
    ensures multiset(Subjects(reports)) == multiset(Kept(reports)) + multiset(SelectedSubjects(reports))
    ensures |Kept(reports)| + |SelectedSubjects(reports)| == |reports|
    decreases |reports|
  {
    if reports != [] {
      KeptAndSelected(reports[1..]);
    }
  }

  /** The examined subjects covered by the reports come first in the list. */
  lemma ExaminedPrefix(subjects: seq<Subject>, reports: seq<Report>)
    requires |reports| <= |subjects|
    requires forall k :: 0 <= k < |reports| ==> reports[k].subject == subjects[k]
    ensures subjects == Subjects(reports) + subjects[|reports|..]
  {
    SubjectsAt(reports);
    assert subjects[..|reports|] == Subjects(reports);
    assert subjects == subjects[..|reports|] + subjects[|reports|..];
  }

  /** The list after a pass is the original one minus exactly the selected
      subjects: as multisets, what remains and what was selected add up to it. */
  lemma RemovesExactlySelected(subjects: seq<Subject>, reports: seq<Report>)
    requires |reports| <= |subjects|
    requires forall k :: 0 <= k < |reports| ==> reports[k].subject == subjects[k]
    ensures multiset(subjects) == multiset(Remaining(subjects, reports)) + multiset(SelectedSubjects(reports))
    ensures |Remaining(subjects, reports)| == |subjects| - |SelectedSubjects(reports)|
  {
    ExaminedPrefix(subjects, reports);
    KeptAndSelected(reports);
    SubjectsAt(reports);
    var rest := subjects[|reports|..];
    assert multiset(subjects) == multiset(Subjects(reports)) + multiset(rest);
    assert multiset(Remaining(subjects, reports)) == multiset(Kept(reports)) + multiset(rest);
  }

  // ---------------------------------------------------------------------------
  // Order preservation

  /** `a` is `b` with some elements deleted. */
  ghost predicate IsSubsequence<T>(a: seq<T>, b: seq<T>)
    decreases |b|
  {
    if a == [] then true
    else if b == [] then false
    else if a[0] == b[0] then IsSubsequence(a[1..], b[1..])
    else IsSubsequence(a, b[1..])
  }

  lemma {:induction false} SubsequenceRefl<T>(a: seq<T>)
    ensures IsSubsequence(a, a)
    decreases |a|
  {
    if a != [] {
      SubsequenceRefl(a[1..]);
    }
  }

  lemma {:induction false} SubsequenceDropHead<T>(a: seq<T>, b: seq<T>)
    requires a != [] && IsSubsequence(a, b)
    ensures IsSubsequence(a[1..], b)
    decreases |b|, 0
  {
    if a[1..] != [] && b != [] {
      assert b == [b[0]] + b[1..];
      if a[0] == b[0] {
        SubsequenceSkip(a[1..], b[1..], b[0]);
      } else {
        SubsequenceDropHead(a, b[1..]);
        SubsequenceSkip(a[1..], b[1..], b[0]);
      }
    }
  }

  lemma {:induction false} SubsequenceSkip<T>(a: seq<T>, b: seq<T>, x: T)
    requires IsSubsequence(a, b)
    ensures IsSubsequence(a, [x] + b)
    decreases |b|, 1
  {
    assert ([x] + b)[1..] == b;
    if a != [] && a[0] == x {
      SubsequenceDropHead(a, b);
    }
  }

  lemma {:induction false} SubsequenceTrans<T>(a: seq<T>, b: seq<T>, c: seq<T>)
    requires IsSubsequence(a, b) && IsSubsequence(b, c)
    ensures IsSubsequence(a, c)
    decreases |a| + |b| + |c|
  {
    if a != [] && b != [] && c != [] {
      if b[0] == c[0] {
        if a[0] == b[0] {
          SubsequenceTrans(a[1..], b[1..], c[1..]);
        } else {
          SubsequenceTrans(a, b[1..], c[1..]);
        }
      } else {
        SubsequenceTrans(a, b, c[1..]);
        if a[0] == c[0] {
          SubsequenceDropHead(a, c[1..]);
        }
      }
    }
  }

  /** A sequence is a subsequence of itself with anything put in front. */
  lemma {:induction false} SubsequenceSuffix<T>(b: seq<T>, c: seq<T>)
    ensures IsSubsequence(c, b + c)
    decreases |b|
  {
    if b == [] {
      assert b + c == c;
      SubsequenceRefl(c);
    } else {
      SubsequenceSuffix(b[1..], c);
      assert b + c == [b[0]] + (b[1..] + c);
      SubsequenceSkip(c, b[1..] + c, b[0]);
    }
  }

  /** Deleting from a prefix keeps the result a subsequence once the same
      suffix is put back. */
  lemma {:induction false} SubsequenceAppend<T>(a: seq<T>, b: seq<T>, c: seq<T>)
    requires IsSubsequence(a, b)
    ensures IsSubsequence(a + c, b + c)
    decreases |b|
  {
    if a == [] {
      SubsequenceSuffix(b, c);
      assert a + c == c;
    } else {
      assert (b + c)[0] == b[0] && (b + c)[1..] == b[1..] + c;
      assert (a + c)[0] == a[0] && (a + c)[1..] == a[1..] + c;
      if a[0] == b[0] {
        SubsequenceAppend(a[1..], b[1..], c);
      } else {
        SubsequenceAppend(a, b[1..], c);
      }
    }
  }

  /** The examined subjects that stay keep their relative order. */
  lemma {:induction false} KeptInOrder(reports: seq<Report>)
    ensures IsSubsequence(Kept(reports), Subjects(reports))
    decreases |reports|
  {
    if reports != [] {
      KeptInOrder(reports[1..]);
      var tail := Kept(reports[1..]);
      var subs := Subjects(reports);
      assert subs == [reports[0].subject] + Subjects(reports[1..]);
      assert subs[0] == reports[0].subject && subs[1..] == Subjects(reports[1..]);
      if Selected(reports[0]) {
        assert Kept(reports) == tail;
        SubsequenceSkip(tail, subs[1..], subs[0]);
        assert [subs[0]] + subs[1..] == subs;
      } else {
        var kept := Kept(reports);
        assert kept == [subs[0]] + tail;
        assert kept != [] && kept[0] == subs[0] && kept[1..] == tail;
      }
    }
  }

  /** The subjects that stay keep their relative order. */
  lemma RemainingInOrder(subjects: seq<Subject>, reports: seq<Report>)
    requires |reports| <= |subjects|
    requires forall k :: 0 <= k < |reports| ==> reports[k].subject == subjects[k]
    ensures IsSubsequence(Remaining(subjects, reports), subjects)
  {
    ExaminedPrefix(subjects, reports);
    KeptInOrder(reports);
    SubsequenceAppend(Kept(reports), Subjects(reports), subjects[|reports|..]);
  }

  /** After a pass the list keeps its surviving subjects in their original order. */
  lemma PassKeepsOrder(v: View, subjects: seq<Subject>, at: Cursor)
    ensures IsSubsequence(Remaining(subjects, Pass(v, subjects, at).reports), subjects)
  {
    var reports := Pass(v, subjects, at).reports;
    forall k | 0 <= k < |reports| ensures reports[k].subject == subjects[k] {
      PassReports(v, subjects, at, k);
    }
    RemainingInOrder(subjects, reports);
  }

  /** After a pass the list is the original minus exactly the subjects selected
      in it; a pass that ran to the end examined every subject once, so what is
      left is exactly the subjects no click succeeded for. */
  lemma PassRemovesExactlySelected(v: View, subjects: seq<Subject>, at: Cursor)
    ensures var r := Pass(v, subjects, at);
      multiset(subjects) == multiset(Remaining(subjects, r.reports)) + multiset(SelectedSubjects(r.reports))
    ensures var r := Pass(v, subjects, at);
      !r.aborted ==> |r.reports| == |subjects| && Remaining(subjects, r.reports) == Kept(r.reports)
  {
    var reports := Pass(v, subjects, at).reports;
    forall k | 0 <= k < |reports| ensures reports[k].subject == subjects[k] {
      PassReports(v, subjects, at, k);
    }
    RemovesExactlySelected(subjects, reports);
  }

  // ---------------------------------------------------------------------------
  // The pass as the source runs it

  /** What the row loop keeps true after `j` rows, from click answer `c` on:
      before a success, `goal` is the events so far followed by what the
      remaining rows give; after it, `goal` is the events so far. */
  ghost predicate RowsInv(v: View, found: seq<SectionData>, j: nat, events: seq<RowEvent>, c: nat, goal: RowsResult)
  {
    && j <= |found|
    && (HasClick(events) ==> goal == RowsResult(events, c))
    && (!HasClick(events) ==>
          goal == RowsResult(events + TryRows(v, found[j..], c).events, TryRows(v, found[j..], c).clicks))
  }

  lemma RowsInvInit(v: View, found: seq<SectionData>, c: nat)
    ensures RowsInv(v, found, 0, [], c, TryRows(v, found, c))
    ensures !HasClick([])
  {
    assert found[0..] == found;
  }

  lemma HasClickAppend(events: seq<RowEvent>, e: RowEvent)
    ensures HasClick(events + [e]) <==> HasClick(events) || e.Clicked?
  {
    assert (events + [e])[|events|] == e;
    assert forall j :: 0 <= j < |events| ==> (events + [e])[j] == events[j];
  }

  /** A full row is reported and the loop goes on. */
  lemma RowsInvFull(v: View, found: seq<SectionData>, j: nat, events: seq<RowEvent>, c: nat, goal: RowsResult)
    requires RowsInv(v, found, j, events, c, goal) && !HasClick(events)
    requires j < |found| && !IsOpen(found[j])
    ensures RowsInv(v, found, j + 1, events + [Full(found[j])], c, goal)
    ensures !HasClick(events + [Full(found[j])])
  {
    assert found[j..] == [found[j]] + found[j + 1..];
    HasClickAppend(events, Full(found[j]));
  }

  /** An open row is clicked: a success ends the loop, a failure goes on. */
  lemma RowsInvClick(v: View, found: seq<SectionData>, j: nat, events: seq<RowEvent>, c: nat, goal: RowsResult)
    requires RowsInv(v, found, j, events, c, goal) && !HasClick(events)
    requires j < |found| && IsOpen(found[j])
    ensures var d := found[j];
      var ok := ClickOutcome(v, c, d.selectorToClick);
      var e := if ok then Clicked(d) else ClickFailed(d);
      RowsInv(v, found, j + 1, events + [e], ClicksAfter(c, d.selectorToClick), goal)
      && (HasClick(events + [e]) <==> ok)
  {
    var d := found[j];
    var ok := ClickOutcome(v, c, d.selectorToClick);
    var e := if ok then Clicked(d) else ClickFailed(d);
    assert found[j..] == [found[j]] + found[j + 1..];
    HasClickAppend(events, e);
    if !ok {
      var rest := TryRows(v, found[j + 1..], ClicksAfter(c, d.selectorToClick));
      assert events + [e] + rest.events == events + ([e] + rest.events);
    }
  }

  /** Once every row is looked at, `goal` is the events so far. */
  lemma RowsInvDone(v: View, found: seq<SectionData>, j: nat, events: seq<RowEvent>, c: nat, goal: RowsResult)
    requires RowsInv(v, found, j, events, c, goal) && |found| <= j
    ensures goal == RowsResult(events, c)
  {
    assert found[j..] == [];
    assert events + [] == events;
  }

  /** The nested `for (const data of subjectData)` loop with its `break`. */
  method TrySections(page: Page, found: seq<SectionData>) returns (events: seq<RowEvent>, selected: bool)
    modifies page
    ensures var r := TryRows(page.view, found, old(page.at.clicks));
      events == r.events && page.at == old(page.at).(clicks := r.clicks)
    ensures selected == HasClick(events)
  {
    ghost var v := page.view;
    ghost var goal := TryRows(v, found, page.at.clicks);
    RowsInvInit(v, found, page.at.clicks);
    events := [];
    selected := false;
    var j := 0;
    while j < |found| && !selected
      invariant RowsInv(v, found, j, events, page.at.clicks, goal)
      invariant page.at == old(page.at).(clicks := page.at.clicks)
      invariant selected == HasClick(events)
      decreases |found| - j
    {
      var d := found[j];
      if IsOpen(d) {
        RowsInvClick(v, found, j, events, page.at.clicks, goal);
        var ok := page.Click(d.selectorToClick);
        events := events + [if ok then Clicked(d) else ClickFailed(d)];
        selected := ok;
      } else {
        RowsInvFull(v, found, j, events, page.at.clicks, goal);
        events := events + [Full(d)];
      }
      j := j + 1;
    }
    if !selected {
      RowsInvDone(v, found, j, events, page.at.clicks, goal);
    }
  }

  /** The subject loop stops at the k-th subject when its evaluation throws. */
  lemma PassFromStops(v: View, subjects: seq<Subject>, k: nat, at: Cursor)
    requires k < |subjects| && SubjectStep(v, subjects[k], at).report.None?
    ensures PassFrom(v, subjects[k..], at) == PassResult([], true, SubjectStep(v, subjects[k], at).next)
  {
    assert subjects[k..][0] == subjects[k];
  }

  /** Otherwise it goes on with the next subject, from where that step left the page. */
  lemma PassFromGoesOn(v: View, subjects: seq<Subject>, k: nat, at: Cursor)
    requires k < |subjects| && SubjectStep(v, subjects[k], at).report.Some?
    ensures var st := SubjectStep(v, subjects[k], at);
      var rest := PassFrom(v, subjects[k + 1..], st.next);
      PassFrom(v, subjects[k..], at) == PassResult([st.report.value] + rest.reports, rest.aborted, rest.next)
  {
    assert subjects[k..][0] == subjects[k];
    assert subjects[k..][1..] == subjects[k + 1..];
  }

  /** The body of the subject loop: the evaluation, the "no sections found"
      case and the row loop. `None` when the evaluation throws. */
  method CheckSubject(page: Page, subject: Subject) returns (rep: Option<Report>, selected: bool)
    modifies page
    ensures var st := SubjectStep(page.view, subject, old(page.at));
      rep == st.report && page.at == st.next
    ensures selected <==> rep.Some? && Selected(rep.value)
  {
    ghost var v := page.view;
    ghost var at0 := page.at;
    var data := page.Evaluate(subject);
    assert data == v.evaluate(at0.evals, subject);
    if data.None? {
      return None, false;
    }
    var found := data.value;
    var events: seq<RowEvent> := [];
    selected := false;
    if |found| > 0 {
      events, selected := TrySections(page, found);
    }
    rep := Some(Report(subject, found, events));
  }

  /** What the index loop of `checkAvailability` keeps true after examining
      the first `k` original subjects: `reports` are their reports, `kept` the
      ones not selected, the live list is `kept` followed by the subjects not
      yet examined, and the rest of the pass from cursor `at` completes `full`. */
  ghost predicate LoopInv(v: View, orig: seq<Subject>, k: nat, kept: seq<Subject>, reports: seq<Report>,
                          items: seq<Subject>, at: Cursor, full: PassResult)
  {
    && k <= |orig| && |reports| == k
    && kept == Kept(reports)
    && items == kept + orig[k..]
    && full == PassResult(reports + PassFrom(v, orig[k..], at).reports,
                          PassFrom(v, orig[k..], at).aborted, PassFrom(v, orig[k..], at).next)
  }

  lemma LoopInvInit(v: View, orig: seq<Subject>, at: Cursor)
    ensures LoopInv(v, orig, 0, [], [], orig, at, PassFrom(v, orig, at))
  {
    assert orig[0..] == orig;
  }

  /** Examining the k-th subject when its evaluation throws ends the pass. */
  lemma LoopInvStop(v: View, orig: seq<Subject>, k: nat, kept: seq<Subject>, reports: seq<Report>,
                    items: seq<Subject>, at: Cursor, full: PassResult)
    requires LoopInv(v, orig, k, kept, reports, items, at, full)
    requires k < |orig| && SubjectStep(v, orig[k], at).report.None?
    ensures full == PassResult(reports, true, SubjectStep(v, orig[k], at).next)
    ensures items == Remaining(orig, reports)
  {
    PassFromStops(v, orig, k, at);
  }

  /** The subject at the live index `|kept|` is the k-th original one. */
  lemma LoopInvAt(v: View, orig: seq<Subject>, k: nat, kept: seq<Subject>, reports: seq<Report>,
                  items: seq<Subject>, at: Cursor, full: PassResult)
    requires LoopInv(v, orig, k, kept, reports, items, at, full) && |kept| < |items|
    ensures k < |orig| && items[|kept|] == orig[k]
  {
  }

  /** Examining the k-th subject otherwise adds its report. */
  lemma LoopInvStep(v: View, orig: seq<Subject>, k: nat, kept: seq<Subject>, reports: seq<Report>,
                    items: seq<Subject>, at: Cursor, full: PassResult, rep: Report, next: Cursor)
    requires LoopInv(v, orig, k, kept, reports, items, at, full)
    requires k < |orig| && SubjectStep(v, orig[k], at) == Step(Some(rep), next)
    ensures Kept(reports + [rep]) == kept + (if Selected(rep) then [] else [orig[k]])
    ensures PassFrom(v, orig[k..], at) == PassResult([rep] + PassFrom(v, orig[k + 1..], next).reports,
              PassFrom(v, orig[k + 1..], next).aborted, PassFrom(v, orig[k + 1..], next).next)
    ensures full.reports == (reports + [rep]) + PassFrom(v, orig[k + 1..], next).reports
  {
    PassFromGoesOn(v, orig, k, at);
    KeptAppend(reports, rep);
  }

  /** When a click succeeded for it, the `splice(i, 1)` removes exactly it. */
  lemma LoopInvSelected(v: View, orig: seq<Subject>, k: nat, kept: seq<Subject>, reports: seq<Report>,
                        items: seq<Subject>, at: Cursor, full: PassResult, rep: Report, next: Cursor)
    requires LoopInv(v, orig, k, kept, reports, items, at, full)
    requires k < |orig| && SubjectStep(v, orig[k], at) == Step(Some(rep), next) && Selected(rep)
    ensures LoopInv(v, orig, k + 1, kept, reports + [rep], items[..|kept|] + items[|kept| + 1..], next, full)
  {
    LoopInvStep(v, orig, k, kept, reports, items, at, full, rep, next);
    assert items[..|kept|] == kept;
    assert items[|kept| + 1..] == orig[k + 1..];
  }

  /** Otherwise the subject stays where it is. */
  lemma LoopInvKept(v: View, orig: seq<Subject>, k: nat, kept: seq<Subject>, reports: seq<Report>,
                    items: seq<Subject>, at: Cursor, full: PassResult, rep: Report, next: Cursor)
    requires LoopInv(v, orig, k, kept, reports, items, at, full)
    requires k < |orig| && SubjectStep(v, orig[k], at) == Step(Some(rep), next) && !Selected(rep)
    ensures LoopInv(v, orig, k + 1, kept + [orig[k]], reports + [rep], items, next, full)
  {
    LoopInvStep(v, orig, k, kept, reports, items, at, full, rep, next);
    assert orig[k..] == [orig[k]] + orig[k + 1..];
    assert (kept + [orig[k]]) + orig[k + 1..] == kept + orig[k..];
  }

  /** When the live list is exhausted every subject has been examined. */
  lemma LoopInvDone(v: View, orig: seq<Subject>, k: nat, kept: seq<Subject>, reports: seq<Report>,
                    items: seq<Subject>, at: Cursor, full: PassResult)
    requires LoopInv(v, orig, k, kept, reports, items, at, full)
    requires |items| <= |kept|
    ensures full == PassResult(reports, false, at)
    ensures items == Remaining(orig, reports)
  {
    assert orig[k..] == [];
    assert reports + [] == reports;
  }

  /** One iteration of the index loop, at live index `i`: examine the subject
      there and, when a click succeeded for it, `splice(i, 1)` it out. */
  method ExamineAt(page: Page, list: SubjectList, i: int, ghost orig: seq<Subject>, ghost k: nat,
                   ghost kept: seq<Subject>, ghost reports: seq<Report>, ghost full: PassResult)
    returns (rep: Option<Report>, selected: bool, ghost kept': seq<Subject>)
    requires LoopInv(page.view, orig, k, kept, reports, list.items, page.at, full)
    requires i == |kept| < |list.items|
    modifies page, list
    ensures rep.None? ==> full == PassResult(reports, true, page.at) && list.items == Remaining(orig, reports)
    ensures rep.Some? ==>
      LoopInv(page.view, orig, k + 1, kept', reports + [rep.value], list.items, page.at, full)
      && |kept'| == (if selected then i else i + 1)
  {
    ghost var v := page.view;
    ghost var at0 := page.at;
    ghost var items0 := list.items;
    LoopInvAt(v, orig, k, kept, reports, items0, at0, full);
    var subject := list.items[i];
    rep, selected := CheckSubject(page, subject);
    kept' := kept;
    if rep.None? {
      LoopInvStop(v, orig, k, kept, reports, items0, at0, full);
    } else if selected {
      LoopInvSelected(v, orig, k, kept, reports, items0, at0, full, rep.value, page.at);
      list.items := list.items[..i] + list.items[i + 1..];
    } else {
      LoopInvKept(v, orig, k, kept, reports, items0, at0, full, rep.value, page.at);
      kept' := kept + [subject];
    }
  }

  /** `checkAvailability(page, subjects)`: the index loop with `splice(i, 1); i--`. */
  method CheckAvailability(page: Page, list: SubjectList) returns (reports: seq<Report>, aborted: bool)
    modifies page, list
    ensures var r := Pass(page.view, old(list.items), old(page.at));
      reports == r.reports && aborted == r.aborted && page.at == r.next
      && list.items == Remaining(old(list.items), r.reports)
  {
    ghost var orig := list.items;
    reports := [];
    aborted := false;
    var ready := page.WaitForTable();
    if !ready {
      aborted := true;
      return;
    }
    ghost var full := PassFrom(page.view, orig, page.at);
    var i: int := 0;
    ghost var k: nat := 0;
    ghost var kept: seq<Subject> := [];
    LoopInvInit(page.view, orig, page.at);
    while i < |list.items|
      invariant LoopInv(page.view, orig, k, kept, reports, list.items, page.at, full) && i == |kept|
      decreases |orig| - k
    {
      var rep, selected;
      rep, selected, kept := ExamineAt(page, list, i, orig, k, kept, reports, full);
      if rep.None? {
        aborted := true;
        return;
      }
      reports := reports + [rep.value];
      if selected {
        i := i - 1;
      }
      i := i + 1;
      k := k + 1;
    }
    LoopInvDone(page.view, orig, k, kept, reports, list.items, page.at, full);
  }
}
