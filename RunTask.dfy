/** main.py: the check of the command-line arguments, and `run_task`, which picks
    the search dates and the duplicate policy from the mode, runs the search and,
    when it succeeds, the traversal with `save_callback` over the shared storage.
    The browser's search is given as its answer; the dates of today and yesterday
    are given as strings. */
module RunTask {
  import opened Wrappers
  import opened Retry
  import opened Storage
  import opened Traversal

  datatype Mode = History | Interval | Cron

  /** A date argument as `run_task` hands it to `search_period`: a string, `None`
      for an argument that was left out, or a function object. */
  datatype DateArg = Given(s: string) | NoneArg | FunctionObject

  /** The dates for the search and `stop_on_duplicate`. */
  datatype Plan = Plan(start: DateArg, end: DateArg, stopOnDuplicate: bool)

  function ArgOf(o: Option<string>): DateArg {
    if o.Some? then Given(o.value) else NoneArg
  }

  /** The plan as written: in interval and cron mode the end date is
      `get_yesterday_str`, the function, not its result. */
  function PlanAsWritten(mode: Mode, start: Option<string>, end: Option<string>, today: string): Plan {
    if mode == History then Plan(ArgOf(start), ArgOf(end), false)
    else Plan(Given(today), FunctionObject, true)
  }

  /** The plan with `get_yesterday_str()` called. */
  function PlanFor(mode: Mode, start: Option<string>, end: Option<string>, today: string, yesterday: string): Plan {
    if mode == History then Plan(ArgOf(start), ArgOf(end), false)
    else Plan(Given(today), Given(yesterday), true)
  }

  /** What `_input_date_field` leaves in the date box: it clears the box, then
      types the argument; typing anything but a string raises, and the error is
      swallowed, so the box stays empty. */
  function TypedDate(a: DateArg): string {
    match a
    case Given(s) => s
    case NoneArg => ""
    case FunctionObject => ""
  }

  /** What `main` does after parsing the arguments. */
  datatype Entry = ExitWith(code: int) | RunHistory(start: string, end: string) | Schedule(mode: Mode)

  /** History mode needs both `--start` and `--end`, each non-empty. */
  function MainEntry(mode: Mode, start: Option<string>, end: Option<string>): Entry {
    if mode == History then
      if start.None? || start.value == "" || end.None? || end.value == "" then ExitWith(1)
      else RunHistory(start.value, end.value)
    else Schedule(mode)
  }

  /** `run_task(mode, args, storage)`. `searchOk` is what `search_period` returns;
      the traversal is given the pages the site shows. Returns the plan, whether
      the search succeeded, and why the traversal ended when it ran. */
  method RunTask(storage: DataStorage, mode: Mode, start: Option<string>, end: Option<string>,
                 today: string, yesterday: string, searchOk: bool, pages: seq<Page>)
    returns (plan: Plan, searchSuccess: bool, ended: Option<EndReason>)
    modifies storage
    ensures plan == PlanFor(mode, start, end, today, yesterday)
    ensures searchSuccess == searchOk
    ensures !searchOk ==> ended.None? && storage.State() == old(storage.State())
    ensures searchOk ==> var o := CrawlSpec(Policy(plan.stopOnDuplicate, None), pages, old(storage.State()));
      ended == Some(o.reason) && storage.State() == o.walk.store
    ensures ended != Some(CutoffReached)
    ensures mode == History ==> ended != Some(DuplicateFound)
  {
    plan := PlanFor(mode, start, end, today, yesterday);
    var search := (k: nat) => Returns(searchOk);
    var result: Retried<bool, string>, calls, pauses := RetryAction(search, MaxRetries);
    NonRaisingActionIsCalledOnce(search);
    searchSuccess := result.value;
    ended := None;
    if searchSuccess {
      TraversalEnd(Policy(plan.stopOnDuplicate, None), pages, storage.State());
      var saved, reason, currentPage := CrawlPeriodPages(storage, pages, plan.stopOnDuplicate, None);
      ended := Some(reason);
    }
  }

  // ---------------------------------------------------------------------------
  // Properties

  /** History mode takes its dates from the arguments and does not stop on a known
      id; interval and cron search from today to yesterday and stop on the first
      known id. */
  lemma ModePolicy(mode: Mode, start: Option<string>, end: Option<string>, today: string, yesterday: string)
    ensures var plan := PlanFor(mode, start, end, today, yesterday);
      (plan.stopOnDuplicate <==> mode != History)
      && (mode == History ==>
            TypedDate(plan.start) == (if start.Some? then start.value else "")
            && TypedDate(plan.end) == (if end.Some? then end.value else ""))
      && (mode != History ==> TypedDate(plan.start) == today && TypedDate(plan.end) == yesterday)
  {
  }

  /** Both plans agree on everything but the end date of the scheduled modes. */
  lemma PlansDifferOnlyInEndDate(mode: Mode, start: Option<string>, end: Option<string>, today: string, yesterday: string)
    ensures PlanAsWritten(mode, start, end, today).(end := PlanFor(mode, start, end, today, yesterday).end)
         == PlanFor(mode, start, end, today, yesterday)
    ensures mode == History <==> PlanAsWritten(mode, start, end, today) == PlanFor(mode, start, end, today, yesterday)
  {
  }

  /** As written, an interval or cron run searches with an empty end-date box,
      where yesterday's date was meant to be typed. */
  lemma AsWrittenEndDateIsEmpty(mode: Mode, today: string, yesterday: string)
    requires mode != History && yesterday != ""
    ensures TypedDate(PlanAsWritten(mode, None, None, today).end) == ""
    ensures TypedDate(PlanFor(mode, None, None, today, yesterday).end) == yesterday
    ensures TypedDate(PlanAsWritten(mode, None, None, today).end) != TypedDate(PlanFor(mode, None, None, today, yesterday).end)
  {
  }

  /** History mode without both dates exits with code 1 and starts no run; with
      both, the run's plan types exactly the dates given. */
  lemma HistoryNeedsBothDates(start: Option<string>, end: Option<string>, today: string, yesterday: string)
    ensures MainEntry(History, start, end) == ExitWith(1)
        <==> start.None? || start == Some("") || end.None? || end == Some("")
    ensures MainEntry(History, start, end).RunHistory? ==>
      var plan := PlanFor(History, start, end, today, yesterday);
      TypedDate(plan.start) == MainEntry(History, start, end).start
      && TypedDate(plan.end) == MainEntry(History, start, end).end
      && !plan.stopOnDuplicate
  {
  }

  /** Interval and cron are never refused. */
  lemma ScheduledModesStart(mode: Mode, start: Option<string>, end: Option<string>)
    requires mode != History
    ensures MainEntry(mode, start, end) == Schedule(mode)
  {
  }
}
