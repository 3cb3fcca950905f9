/** The `save_callback(data, notice_id, check_only=False)` closure that main.py's
    `run_task` hands to the traversal: with `check_only` it answers whether the id
    is new; otherwise it saves truthy data and says whether it did. */
module Callback {
  import opened Json
  import opened Storage

  /** The new state and the answer of one callback. */
  function CallbackSpec(st: StoreState, data: Value, id: string, checkOnly: bool, fault: WriteFault): (StoreState, bool) {
    if checkOnly then (st, id !in st.visited)
    else if Truthy(data) then (AfterSave(st, data, id, fault), true)
    else (st, false)
  }

  method SaveCallback(storage: DataStorage, data: Value, id: string, checkOnly: bool, fault: WriteFault)
    returns (b: bool)
    modifies storage
    ensures (storage.State(), b) == CallbackSpec(old(storage.State()), data, id, checkOnly, fault)
  {
    var isNew := storage.IsNew(id);
    if checkOnly {
      return isNew;
    }
    if Truthy(data) {
      storage.SaveData(data, id, fault);
      return true;
    }
    return false;
  }

  // ---------------------------------------------------------------------------
  // Properties

  /** A check writes nothing, whatever data it is given, and answers novelty. */
  lemma CheckOnlyWritesNothing(st: StoreState, data: Value, id: string, fault: WriteFault)
    ensures CallbackSpec(st, data, id, true, fault).0 == st
    ensures CallbackSpec(st, data, id, true, fault).1 <==> id !in st.visited
  {
  }

  /** A save answers whether the data was truthy; falsy data leaves every file and
      the id set as they were, truthy data makes the id known. */
  lemma SaveAnswersTruthiness(st: StoreState, data: Value, id: string, fault: WriteFault)
    ensures CallbackSpec(st, data, id, false, fault).1 <==> Truthy(data)
    ensures !Truthy(data) ==> CallbackSpec(st, data, id, false, fault).0 == st
    ensures Truthy(data) ==> id in CallbackSpec(st, data, id, false, fault).0.visited
  {
  }

  /** The traversal's protocol: a check that answers "new", then a fault-free save
      of a truthy record, adds exactly one ledger line and one log record; after
      it the same check answers "known". */
  lemma CheckThenSave(st: StoreState, data: Value, id: string)
    requires CallbackSpec(st, Null, id, true, NoFault).1
    requires Truthy(data)
    ensures var st' := CallbackSpec(st, data, id, false, NoFault).0;
      st'.ledger == st.ledger + [id + "\n"] && st'.log == st.log + [data]
      && st'.visited == st.visited + {id}
      && !CallbackSpec(st', Null, id, true, NoFault).1
  {
  }

  /** Without the check, a save of a known id still logs the record again but
      leaves the ledger alone. */
  lemma SaveOfKnownIdOnlyLogs(st: StoreState, data: Value, id: string)
    requires !CallbackSpec(st, Null, id, true, NoFault).1
    requires Truthy(data)
    ensures var st' := CallbackSpec(st, data, id, false, NoFault).0;
      st'.ledger == st.ledger && st'.log == st.log + [data] && st'.visited == st.visited
  {
  }
}
