/**
 * The browser page as the availability check sees it. Puppeteer is not modelled;
 * instead a `Script` fixes, for every call in call order, what the remote
 * document answers: whether the n-th `waitForSelector('tr')` resolves, which rows
 * the n-th `page.evaluate` sees (or that it throws), and whether the n-th click
 * attempt (`waitForSelector(sel, {visible: true, timeout: 5000})` followed by
 * `page.click(sel)`) resolves. The page keeps a cursor of how many of each call
 * it has answered.
 */
module Browser {
  import opened Wrappers
  import opened Inspector

  datatype Script = Script(
    tableReady: nat -> bool,
    dom: nat -> Option<seq<Row>>,
    clickOk: nat -> bool)

  /** How many table waits, evaluations and click attempts have been answered. */
  datatype Cursor = Cursor(waits: nat, evals: nat, clicks: nat)

  /** The n-th `page.evaluate(search, subject)`: `None` when it throws. */
  function EvalOutcome(sc: Script, n: nat, s: Subject): Option<seq<SectionData>>
  {
    match sc.dom(n)
    case None => None
    case Some(rows) => Some(Inspect(rows, s))
  }

  /** The script as the subject loop sees it: each evaluation already turned
      into the search result for the subject it is made for. */
  datatype View = View(
    tableReady: nat -> bool,
    evaluate: (nat, Subject) -> Option<seq<SectionData>>,
    clickOk: nat -> bool)

  function ViewOf(sc: Script): View
  {
    View(sc.tableReady, (n: nat, s: Subject) => EvalOutcome(sc, n, s), sc.clickOk)
  }

  /** A click attempt with a `null` selector throws before reaching the page, so
      it fails without consuming an answer of the script. */
  function ClickOutcome(v: View, n: nat, selector: Option<string>): bool
  {
    selector.Some? && v.clickOk(n)
  }

  function ClicksAfter(n: nat, selector: Option<string>): nat
  {
    if selector.Some? then n + 1 else n
  }

  /** The page, answering each call as its view says. It is built from a
      `Script`, so every evaluation it answers is the row search run over the
      rows the script shows for that call. */
  class Page {
    const view: View
    var at: Cursor

    constructor (script: Script)
      ensures view == ViewOf(script) && at == Cursor(0, 0, 0)
    {
      view := ViewOf(script);
      at := Cursor(0, 0, 0);
    }

    /** `await page.waitForSelector('tr')`; `false` when it rejects. */
    method WaitForTable() returns (ok: bool)
      modifies this
      ensures ok == view.tableReady(old(at.waits))
      ensures at == old(at).(waits := old(at.waits) + 1)
    {
      ok := view.tableReady(at.waits);
      at := at.(waits := at.waits + 1);
    }

    /** `await page.evaluate(search, subject)`; `None` when it rejects. */
    method Evaluate(s: Subject) returns (data: Option<seq<SectionData>>)
      modifies this
      ensures data == view.evaluate(old(at.evals), s)
      ensures at == old(at).(evals := old(at.evals) + 1)
    {
      data := view.evaluate(at.evals, s);
      at := at.(evals := at.evals + 1);
    }

    /** The wait for the checkmark to be visible and the click on it. */
    method Click(selector: Option<string>) returns (ok: bool)
      modifies this
      ensures ok == ClickOutcome(view, old(at.clicks), selector)
      ensures at == old(at).(clicks := ClicksAfter(old(at.clicks), selector))
    {
      if selector.Some? {
        ok := view.clickOk(at.clicks);
        at := at.(clicks := at.clicks + 1);
      } else {
        ok := false;
      }
    }
  }

  /** A page built from a script evaluates the search over the rows the script
      shows for that evaluation, and fails where the script's evaluation throws. */
  lemma ViewEvaluates(sc: Script, n: nat, s: Subject)
    ensures ViewOf(sc).evaluate(n, s) == EvalOutcome(sc, n, s)
    ensures sc.dom(n).None? ==> ViewOf(sc).evaluate(n, s).None?
    ensures sc.dom(n).Some? ==> ViewOf(sc).evaluate(n, s) == Some(Inspect(sc.dom(n).value, s))
  {
  }
}
