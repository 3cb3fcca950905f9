/** The dedup ledger and record log of src/storage.py (`DataStorage`).

    The ledger file `visited_ids.txt` is the sequence of chunks appended to it
    (its text is their concatenation); the record log `nuri_data.jsonl` is the
    sequence of values whose `json.dumps` forms are its lines. */
module Storage {
  import opened Wrappers
  import opened Text
  import opened Json

  // ---------------------------------------------------------------------------
  // Reading the ledger file

  /** A line boundary in a file read in text mode (universal newlines). */
  predicate IsLineBreak(c: char) {
    c == '\n' || c == '\r'
  }

  /** The index of the first line break in `s`, or `|s|` when there is none. */
  function LineEnd(s: string): (n: nat)
    ensures n <= |s|
    ensures n < |s| ==> IsLineBreak(s[n])
    ensures forall k :: 0 <= k < n ==> !IsLineBreak(s[k])
  {
    if s == [] || IsLineBreak(s[0]) then 0 else 1 + LineEnd(s[1..])
  }

  /** The lines `for line in f` yields on a file opened in text mode: `\n`, `\r\n`
      and a lone `\r` each end a line, a last line without a terminator is still a
      line, and an empty file has none. Lines are given without their terminator,
      which `line.strip()` would remove anyway. */
  function Lines(text: string): seq<string>
    decreases |text|
  {
    if text == [] then []
    else
      var n := LineEnd(text);
      if n == |text| then [text]
      else [text[..n]] + Lines(AfterBreak(text, n))
  }

  /** The length of the line terminator at `n`: two for `\r\n`, otherwise one. */
  function BreakWidth(text: string, n: nat): (w: nat)
    requires n < |text|
    ensures 1 <= w && n + w <= |text|
  {
    if text[n] == '\r' && n + 1 < |text| && text[n + 1] == '\n' then 2 else 1
  }

  /** The text after the line terminator at `n`. */
  function AfterBreak(text: string, n: nat): (r: string)
    requires n < |text|
    ensures |r| < |text|
  {
    text[n + BreakWidth(text, n)..]
  }

  /** The text of a file made of the given appended chunks. */
  function Concat(chunks: seq<string>): string {
    if chunks == [] then "" else Concat(chunks[..|chunks| - 1]) + chunks[|chunks| - 1]
  }

  /** The ids a ledger with these lines yields: its non-empty stripped lines. */
  function LoadedIds(lines: seq<string>): set<string> {
    set l | l in lines && Strip(l) != "" :: Strip(l)
  }

  /** `_load_visited_ids`: read the ledger line by line and collect each
      non-empty stripped line. A missing ledger file reads as the empty text. */
  method LoadVisitedIds(ledgerText: string) returns (ids: set<string>)
    ensures ids == LoadedIds(Lines(ledgerText))
  {
    var lines := Lines(ledgerText);
    ids := {};
    for i := 0 to |lines|
      invariant ids == LoadedIds(lines[..i])
    {
      var cleanId := Strip(lines[i]);
      LoadedIdsSnoc(lines[..i], lines[i]);
      assert lines[..i + 1] == lines[..i] + [lines[i]];
      if cleanId != "" {
        ids := ids + {cleanId};
      }
    }
    assert lines[..|lines|] == lines;
  }

  lemma LoadedIdsSnoc(lines: seq<string>, l: string)
    ensures LoadedIds(lines + [l]) == LoadedIds(lines) + (if Strip(l) != "" then {Strip(l)} else {})
  {
    LoadedIdsAppend(lines, [l]);
  }

  lemma LoadedIdsAppend(xs: seq<string>, ys: seq<string>)
    ensures LoadedIds(xs + ys) == LoadedIds(xs) + LoadedIds(ys)
  {
    forall x | x in LoadedIds(xs + ys) ensures x in LoadedIds(xs) + LoadedIds(ys) {
      var l :| l in xs + ys && Strip(l) != "" && Strip(l) == x;
      if l in xs { assert x in LoadedIds(xs); } else { assert x in LoadedIds(ys); }
    }
    forall x | x in LoadedIds(xs) + LoadedIds(ys) ensures x in LoadedIds(xs + ys) {
      if x in LoadedIds(xs) {
        var l :| l in xs && Strip(l) != "" && Strip(l) == x;
        assert l in xs + ys;
      } else {
        var l :| l in ys && Strip(l) != "" && Strip(l) == x;
        assert l in xs + ys;
      }
    }
  }

  // ---------------------------------------------------------------------------
  // The state and one save

  /** Which append of `save_data` raises (and is caught and logged). */
  datatype WriteFault = NoFault | LedgerAppendFails | LogAppendFails

  datatype StoreState = StoreState(visited: set<string>, ledger: seq<string>, log: seq<Value>)

  /** The state after `save_data(data, id)`: falsy data changes nothing; otherwise
      the id joins the in-memory set, a new id is appended to the ledger as one
      line, and the record is appended to the log whether or not the id was new.
      A failing append ends the call with what was already done kept. */
  function AfterSave(st: StoreState, data: Value, id: string, fault: WriteFault): StoreState {
    if !Truthy(data) then st
    else if id !in st.visited && fault == LedgerAppendFails then st.(visited := st.visited + {id})
    else
      var ledger := if id in st.visited then st.ledger else st.ledger + [id + "\n"];
      var log := if fault == LogAppendFails then st.log else st.log + [data];
      StoreState(st.visited + {id}, ledger, log)
  }

  /** An id that survives a restart unchanged: non-empty, without surrounding
      whitespace and without line breaks. */
  predicate WellFormedId(id: string) {
    id != "" && Strip(id) == id && '\n' !in id && '\r' !in id
  }

  /** The text is empty or its last line is terminated. */
  predicate EndsLine(text: string) {
    text == "" || text[|text| - 1] == '\n'
  }

  /** The ids a restart would load from this state's ledger. */
  function Reloaded(st: StoreState): set<string> {
    LoadedIds(Lines(Concat(st.ledger)))
  }

  /** A restart would recognise every well-formed id the running process knows,
      and the next append starts a new line. */
  predicate Resumable(st: StoreState) {
    EndsLine(Concat(st.ledger)) && forall x :: x in st.visited && WellFormedId(x) ==> x in Reloaded(st)
  }

  class DataStorage {
    var visitedIds: set<string>
    var ledger: seq<string>
    var log: seq<Value>

    function State(): StoreState
      reads this
    {
      StoreState(visitedIds, ledger, log)
    }

    /** `DataStorage()`: open the two files and load the ledger. */
    constructor (ledgerFile: seq<string>, logFile: seq<Value>)
      ensures visitedIds == LoadedIds(Lines(Concat(ledgerFile)))
      ensures ledger == ledgerFile && log == logFile
      ensures EndsLine(Concat(ledgerFile)) ==> Resumable(State())
    {
      var ids := LoadVisitedIds(Concat(ledgerFile));
      visitedIds := ids;
      ledger := ledgerFile;
      log := logFile;
    }

    /** `is_new(notice_id)`. */
    function IsNew(id: string): (b: bool)
      reads this
      ensures b <==> id !in visitedIds
    {
      id !in visitedIds
    }

    /** `get_stats()`: the number of known ids. */
    function Stats(): (n: nat)
      reads this
      ensures n == |visitedIds|
    {
      |visitedIds|
    }

    /** `save_data(data_dict, notice_id)`. */
    method SaveData(data: Value, id: string, fault: WriteFault)
      modifies this
      ensures State() == AfterSave(old(State()), data, id, fault)
      ensures !Truthy(data) ==> visitedIds == old(visitedIds) && ledger == old(ledger) && log == old(log)
      ensures Truthy(data) ==> visitedIds == old(visitedIds) + {id} && !IsNew(id)
      ensures Stats() == old(Stats()) + (if Truthy(data) && old(IsNew(id)) then 1 else 0)
      ensures ledger == old(ledger)
        + (if Truthy(data) && old(IsNew(id)) && fault != LedgerAppendFails then [id + "\n"] else [])
      ensures log == old(log)
        + (if Truthy(data) && fault != LogAppendFails && !(old(IsNew(id)) && fault == LedgerAppendFails)
           then [data] else [])
      ensures old(Resumable(State())) && fault != LedgerAppendFails ==> Resumable(State())
      ensures old(Resumable(State())) && fault != LedgerAppendFails && Truthy(data) && WellFormedId(id)
        ==> id in Reloaded(State())
    {
      ghost var st := State();
      if Resumable(st) && fault != LedgerAppendFails {
        SaveKeepsResumable(st, data, id, fault);
      }
      if !Truthy(data) {
        return;
      }
      if id !in visitedIds {
        visitedIds := visitedIds + {id};
        if fault == LedgerAppendFails {
          return;
        }
        ledger := ledger + [id + "\n"];
      }
      if fault == LogAppendFails {
        return;
      }
      log := log + [data];
    }
  }

  // ---------------------------------------------------------------------------
  // Restart round trip

  lemma {:induction false} LineEndPrefix(a: string, b: string)
    requires LineEnd(a) < |a|
    ensures LineEnd(a + b) == LineEnd(a)
    decreases |a|
  {
    if !IsLineBreak(a[0]) {
      assert (a + b)[1..] == a[1..] + b;
      LineEndPrefix(a[1..], b);
    }
  }

  /** One step of `Lines`: the first line, then the lines after its terminator. */
  lemma LinesStep(text: string)
    requires LineEnd(text) < |text|
    ensures Lines(text) == [text[..LineEnd(text)]] + Lines(AfterBreak(text, LineEnd(text)))
  {
  }

  /** The first line and terminator of `a + b` are those of `a` when `a` ends with a line feed. */
  lemma FirstLineOfAppend(a: string, b: string) returns (n: nat, w: nat)
    requires a != [] && EndsLine(a)
    ensures n == LineEnd(a) && n < |a| && w == BreakWidth(a, n) && n + w <= |a|
    ensures LineEnd(a + b) == n && BreakWidth(a + b, n) == w
    ensures (a + b)[..n] == a[..n] && (a + b)[n + w..] == a[n + w..] + b
    ensures EndsLine(a[n + w..])
  {
    n := LineEnd(a);
    assert IsLineBreak(a[|a| - 1]);
    LineEndPrefix(a, b);
    w := BreakWidth(a, n);
    var ab := a + b;
    assert ab[n] == a[n];
    if n + 1 < |a| { assert ab[n + 1] == a[n + 1]; }
    var rest := a[n + w..];
    if rest != [] { assert rest[|rest| - 1] == a[|a| - 1]; }
  }

  /** Text that ends with a line feed splits independently of what is appended. */
  lemma {:induction false} LinesAppend(a: string, b: string)
    requires EndsLine(a)
    ensures Lines(a + b) == Lines(a) + Lines(b)
    decreases |a|
  {
    if a == [] {
      assert a + b == b;
    } else {
      var n, w := FirstLineOfAppend(a, b);
      var rest := a[n + w..];
      LinesStep(a);
      LinesStep(a + b);
      LinesAppend(rest, b);
      ConsAppend(Lines(a + b), Lines(a), [a[..n]], Lines(rest), Lines(b));
    }
  }

  lemma ConsAppend<T>(whole: seq<T>, left: seq<T>, head: seq<T>, tail: seq<T>, right: seq<T>)
    requires left == head + tail && whole == head + (tail + right)
    ensures whole == left + right
  {
  }

  lemma LinesOfLine(id: string)
    requires '\n' !in id && '\r' !in id
    ensures Lines(id + "\n") == [id]
  {
    var s := id + "\n";
    var n := LineEnd(s);
    assert s[|id|] == '\n';
    assert n == |id|;
    assert s[..n] == id;
    assert s[n + 1..] == [];
  }

  /** A save whose ledger append succeeds keeps the state resumable, and a
      restart then loads a well-formed id that was saved. */
  lemma SaveKeepsResumable(st: StoreState, data: Value, id: string, fault: WriteFault)
    requires Resumable(st) && fault != LedgerAppendFails
    ensures Resumable(AfterSave(st, data, id, fault))
    ensures Truthy(data) && WellFormedId(id) ==> id in Reloaded(AfterSave(st, data, id, fault))
  {
    if Truthy(data) && id !in st.visited {
      LedgerAppendReloads(st.ledger, id);
    }
  }

  /** Appending `id + "\n"` to a ledger that ends a line keeps it ending a line
      and adds only the appended id to what a restart loads. */
  lemma LedgerAppendReloads(ledger: seq<string>, id: string)
    requires EndsLine(Concat(ledger))
    ensures EndsLine(Concat(ledger + [id + "\n"]))
    ensures LoadedIds(Lines(Concat(ledger))) <= LoadedIds(Lines(Concat(ledger + [id + "\n"])))
    ensures WellFormedId(id) ==> id in LoadedIds(Lines(Concat(ledger + [id + "\n"])))
  {
    var text := Concat(ledger);
    var ledger' := ledger + [id + "\n"];
    assert ledger'[..|ledger'| - 1] == ledger;
    assert Concat(ledger') == text + (id + "\n");
    LinesAppend(text, id + "\n");
    LoadedIdsAppend(Lines(text), Lines(id + "\n"));
    if WellFormedId(id) {
      LinesOfLine(id);
      assert id in LoadedIds([id]);
    }
  }

  /** The gap the in-memory-first update leaves: when the ledger append fails for
      a new id, the running process treats the id as known while a restart does
      not. */
  lemma LedgerFailureForgottenOnRestart(st: StoreState, data: Value, id: string)
    requires Truthy(data) && id !in st.visited && id !in Reloaded(st)
    ensures id in AfterSave(st, data, id, LedgerAppendFails).visited
    ensures id !in Reloaded(AfterSave(st, data, id, LedgerAppendFails))
    ensures AfterSave(st, data, id, LedgerAppendFails).log == st.log
  {
  }

  // ---------------------------------------------------------------------------
  // Runs of saves

  datatype SaveCall = SaveCall(data: Value, id: string, fault: WriteFault)

  /** The state after the saves in order. */
  function SaveAll(st: StoreState, calls: seq<SaveCall>): StoreState {
    if calls == [] then st
    else
      var c := calls[|calls| - 1];
      AfterSave(SaveAll(st, calls[..|calls| - 1]), c.data, c.id, c.fault)
  }

  /** The ledger lines for these ids. */
  function Terminated(ids: seq<string>): seq<string> {
    seq(|ids|, i requires 0 <= i < |ids| => ids[i] + "\n")
  }

  predicate Distinct(ids: seq<string>) {
    forall i, j :: 0 <= i < j < |ids| ==> ids[i] != ids[j]
  }

  /** The ids of the saves whose data is truthy. */
  function TruthyIds(calls: seq<SaveCall>): set<string> {
    if calls == [] then {}
    else
      var c := calls[|calls| - 1];
      TruthyIds(calls[..|calls| - 1]) + (if Truthy(c.data) then {c.id} else {})
  }

  /** The fault of the first save of `x` whose data is truthy, if there is one. */
  function FirstSaveFault(calls: seq<SaveCall>, x: string): Option<WriteFault> {
    if calls == [] then None
    else
      var c := calls[|calls| - 1];
      var prior := FirstSaveFault(calls[..|calls| - 1], x);
      if prior.Some? then prior
      else if c.id == x && Truthy(c.data) then Some(c.fault)
      else None
  }

  lemma {:induction false} FirstSaveFaultSaved(calls: seq<SaveCall>, x: string)
    ensures FirstSaveFault(calls, x).Some? <==> x in TruthyIds(calls)
    decreases |calls|
  {
    if calls != [] {
      FirstSaveFaultSaved(calls[..|calls| - 1], x);
    }
  }

  /** After a run of saves the known ids are the old ones and those of every save
      with truthy data, whatever the write faults; `get_stats()` counts the old
      ids plus the newly saved ones. */
  lemma {:induction false} KnownAfterSaves(st: StoreState, calls: seq<SaveCall>)
    ensures SaveAll(st, calls).visited == st.visited + TruthyIds(calls)
    ensures |SaveAll(st, calls).visited| == |st.visited| + |TruthyIds(calls) - st.visited|
    decreases |calls|
  {
    if calls != [] {
      KnownAfterSaves(st, calls[..|calls| - 1]);
    }
    var a, b := st.visited, TruthyIds(calls) - st.visited;
    assert a + TruthyIds(calls) == a + b;
    assert a * b == {};
  }

  /** `is_new` and `get_stats()` after the constructor and a run of saves: an id
      is known exactly when the ledger held it or some save of it had truthy
      data, and the count is the number of such ids. */
  lemma IsNewAfterSaves(ledgerFile: seq<string>, logFile: seq<Value>, calls: seq<SaveCall>, id: string)
    ensures var loaded := LoadedIds(Lines(Concat(ledgerFile)));
      var st := SaveAll(StoreState(loaded, ledgerFile, logFile), calls);
      (id !in st.visited <==> id !in loaded && forall i :: 0 <= i < |calls| && calls[i].id == id ==> !Truthy(calls[i].data))
      && |st.visited| == |loaded + TruthyIds(calls)|
  {
    var loaded := LoadedIds(Lines(Concat(ledgerFile)));
    KnownAfterSaves(StoreState(loaded, ledgerFile, logFile), calls);
    TruthyIdsMembers(calls, id);
  }

  lemma {:induction false} TruthyIdsMembers(calls: seq<SaveCall>, x: string)
    ensures x in TruthyIds(calls) <==> exists i :: 0 <= i < |calls| && calls[i].id == x && Truthy(calls[i].data)
    decreases |calls|
  {
    if calls != [] {
      var n := |calls| - 1;
      var init := calls[..n];
      TruthyIdsMembers(init, x);
      if exists i :: 0 <= i < n && init[i].id == x && Truthy(init[i].data) {
        var i :| 0 <= i < n && init[i].id == x && Truthy(init[i].data);
        assert calls[i] == init[i];
      }
      if exists i :: 0 <= i < |calls| && calls[i].id == x && Truthy(calls[i].data) {
        var i :| 0 <= i < |calls| && calls[i].id == x && Truthy(calls[i].data);
        if i < n {
          assert init[i] == calls[i];
        }
      }
    }
  }

  /** The ids a run of saves appends to the ledger, in order: a save with truthy
      data of an id not yet known whose ledger append does not fail. */
  function LedgerAdded(st: StoreState, calls: seq<SaveCall>): seq<string> {
    if calls == [] then []
    else
      var init, c := calls[..|calls| - 1], calls[|calls| - 1];
      var grows := Truthy(c.data) && c.id !in SaveAll(st, init).visited && c.fault != LedgerAppendFails;
      LedgerAdded(st, init) + (if grows then [c.id] else [])
  }

  lemma {:induction false} LedgerAddedLines(st: StoreState, calls: seq<SaveCall>)
    ensures SaveAll(st, calls).ledger == st.ledger + Terminated(LedgerAdded(st, calls))
    decreases |calls|
  {
    if calls == [] {
      assert st.ledger + Terminated([]) == st.ledger;
    } else {
      var init, c := calls[..|calls| - 1], calls[|calls| - 1];
      LedgerAddedLines(st, init);
      var prior := LedgerAdded(st, init);
      assert Terminated(prior + [c.id]) == Terminated(prior) + [c.id + "\n"];
    }
  }

  lemma {:induction false} LedgerAddedMembers(st: StoreState, calls: seq<SaveCall>, x: string)
    ensures x in LedgerAdded(st, calls) <==>
      x !in st.visited && FirstSaveFault(calls, x).Some? && FirstSaveFault(calls, x).value != LedgerAppendFails
    decreases |calls|
  {
    if calls != [] {
      var init, c := calls[..|calls| - 1], calls[|calls| - 1];
      LedgerAddedMembers(st, init, x);
      KnownAfterSaves(st, init);
      FirstSaveFaultSaved(init, x);
    }
  }

  lemma {:induction false} LedgerAddedDistinct(st: StoreState, calls: seq<SaveCall>)
    ensures Distinct(LedgerAdded(st, calls))
    decreases |calls|
  {
    if calls != [] {
      var init, c := calls[..|calls| - 1], calls[|calls| - 1];
      LedgerAddedDistinct(st, init);
      LedgerAddedMembers(st, init, c.id);
      KnownAfterSaves(st, init);
      FirstSaveFaultSaved(init, c.id);
    }
  }

  /** Over any run of saves, the ledger only grows, by one line for each id that
      was not known before and whose first save with truthy data appended its
      line, and never twice for the same id; every id it gains is known
      afterwards. */
  lemma LedgerRecordsEachIdOnce(st: StoreState, calls: seq<SaveCall>)
    returns (added: seq<string>)
    ensures SaveAll(st, calls).ledger == st.ledger + Terminated(added)
    ensures Distinct(added)
    ensures forall x :: x in added <==>
      x !in st.visited && FirstSaveFault(calls, x).Some? && FirstSaveFault(calls, x).value != LedgerAppendFails
    ensures forall x :: x in added ==> x in SaveAll(st, calls).visited
    ensures st.visited <= SaveAll(st, calls).visited
  {
    added := LedgerAdded(st, calls);
    LedgerAddedLines(st, calls);
    LedgerAddedDistinct(st, calls);
    KnownAfterSaves(st, calls);
    forall x
      ensures x in added <==>
        x !in st.visited && FirstSaveFault(calls, x).Some? && FirstSaveFault(calls, x).value != LedgerAppendFails
      ensures x in added ==> x in SaveAll(st, calls).visited
    {
      LedgerAddedMembers(st, calls, x);
      FirstSaveFaultSaved(calls, x);
    }
  }


  /** The data of the truthy saves, in order. */
  function TruthyData(calls: seq<SaveCall>): seq<Value> {
    if calls == [] then []
    else
      var c := calls[|calls| - 1];
      TruthyData(calls[..|calls| - 1]) + (if Truthy(c.data) then [c.data] else [])
  }

  predicate FaultFree(calls: seq<SaveCall>) {
    forall i :: 0 <= i < |calls| ==> calls[i].fault == NoFault
  }

  /** Without write failures the log receives every truthy record, repeated ids
      included, in order. */
  lemma {:induction false} LogRecordsEverySave(st: StoreState, calls: seq<SaveCall>)
    requires FaultFree(calls)
    ensures SaveAll(st, calls).log == st.log + TruthyData(calls)
    decreases |calls|
  {
    if calls != [] {
      LogRecordsEverySave(st, calls[..|calls| - 1]);
    }
  }

  /** Saving the same record twice under one id logs it twice and writes the
      ledger line at most once. */
  lemma RepeatedSaveDuplicatesRecord(st: StoreState, data: Value, id: string)
    requires Truthy(data)
    ensures var st' := AfterSave(AfterSave(st, data, id, NoFault), data, id, NoFault);
      st'.log == st.log + [data, data]
      && st'.ledger == st.ledger + (if id in st.visited then [] else [id + "\n"])
  {
  }
}
