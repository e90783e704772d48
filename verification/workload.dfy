/**
 * The workload driver of core.go: Core holds one Allocator per table column, builds rows
 * with GetRow, and runs the insert, update and delete workloads against the storage engine,
 * returning the extrapolated size of the transaction's key-value buffer.
 */
module Workload {
  import opened Types
  import opened Columns
  import opened Measure

  /** The "dropKVMemBuffer" context value: keep everything, or drop keys, or drop values. */
  datatype DropMode = KeepAll | DropKey | DropValue

  /** Core.Context: dropKey wins over dropValue, and with neither the context carries no value. */
  function ContextMode(dropKey: bool, dropValue: bool): (m: DropMode)
    ensures m == DropKey <==> dropKey
    ensures m == DropValue <==> !dropKey && dropValue
    ensures m == KeepAll <==> !dropKey && !dropValue
  {
    if dropKey then DropKey else if dropValue then DropValue else KeepAll
  }

  /** Why a workload stopped: a storage call returned an error, or NewDatum panicked on a column type. */
  datatype Failure = StoreFailure | UnknownType

  datatype Result<T> = Ok(value: T) | Err(error: Failure)

  /** What the table layer writes into the transaction's buffer, with the row values as they were at the call. */
  datatype Record =
    | Added(handle: int, row: seq<Value>)
    | Updated(handle: int, before: seq<Value>, after: seq<Value>, touched: seq<bool>)
    | Removed(handle: int, before: seq<Value>)

  /** What a row of datums shows at this moment. */
  function Views(row: seq<Datum>): (vs: seq<Value>)
    reads set i | 0 <= i < |row| && row[i].Bytes? :: row[i].buf
    ensures |vs| == |row| && forall i :: 0 <= i < |row| ==> vs[i] == View(row[i])
  {
    seq(|row|, i requires 0 <= i < |row| reads if 0 <= i < |row| && row[i].Bytes? then {row[i].buf} else {} => View(row[i]))
  }

  /** Every column is of a type NewDatum handles. */
  predicate AllSupported(cols: seq<ColumnDef>) {
    forall j :: 0 <= j < |cols| ==> Supported(cols[j].tp)
  }

  /** The random draws one NewDatum takes: one for a floating-point or decimal column, else none. */
  function DrawOf(tp: FieldType): nat {
    if IsFloating(tp) || IsDecimal(tp) then 1 else 0
  }

  /** The random draws one row takes: one per floating-point or decimal column. */
  function Draws(cols: seq<ColumnDef>): nat {
    if cols == [] then 0 else Draws(cols[..|cols| - 1]) + DrawOf(cols[|cols| - 1].tp)
  }

  lemma DrawsStep(cols: seq<ColumnDef>, i: nat)
    requires i < |cols|
    ensures Draws(cols[..i + 1]) == Draws(cols[..i]) + DrawOf(cols[i].tp)
  {
    assert cols[..i + 1][..i] == cols[..i];
  }

  /**
   * A row of values whose deterministic columns hold value number `plain` for ordinary columns
   * and value number `buf` for string and blob columns, which show the shared buffer's state.
   */
  predicate RowHeld(cols: seq<ColumnDef>, vals: seq<Value>, plain: nat, buf: nat) {
    && |vals| == |cols|
    && forall j :: 0 <= j < |cols| && Deterministic(cols[j].tp) ==>
         vals[j] == NthValue(cols[j], if IsBytes(cols[j].tp) then buf else plain)
  }

  /**
   * The storage engine as the driver sees it: the transaction's buffer of records, the
   * committed records, and the buffer's Size. Whether a call fails is an input indexed by
   * the call's position, and so is the size the buffer reports for a list of records under a
   * drop mode; the table layer hands out consecutive handles.
   */
  class Store {
    const failing: set<nat>
    const sizeOf: (DropMode, seq<Record>) -> int64
    var calls: nat
    var nextHandle: int
    var mode: DropMode
    var staged: seq<Record>
    var committed: seq<Record>

    constructor (failing: set<nat>, sizeOf: (DropMode, seq<Record>) -> int64)
      ensures this.failing == failing && this.sizeOf == sizeOf
      ensures calls == 0 && nextHandle == 1 && mode == KeepAll && staged == [] && committed == []
    {
      this.failing := failing;
      this.sizeOf := sizeOf;
      calls, nextHandle, mode, staged, committed := 0, 1, KeepAll, [], [];
    }

    /** ctx.NewTxn: a new transaction with an empty buffer, under the context's drop mode. */
    method NewTxn(m: DropMode) returns (ok: bool)
      modifies this
      ensures calls == old(calls) + 1 && ok == (old(calls) !in failing)
      ensures ok == NoFailureSince(old(calls)) && (!ok ==> StoppedAtFailure(old(calls)))
      ensures ok ==> mode == m && staged == []
      ensures !ok ==> mode == old(mode) && staged == old(staged)
      ensures nextHandle == old(nextHandle) && committed == old(committed)
    {
      ok := (calls !in failing);
      calls := calls + 1;
      if ok {
        mode, staged := m, [];
      }
    }

    /** ctx.Txn(true): fetching the open transaction, which can fail. */
    method Txn() returns (ok: bool)
      modifies this
      ensures calls == old(calls) + 1 && ok == (old(calls) !in failing)
      ensures ok == NoFailureSince(old(calls)) && (!ok ==> StoppedAtFailure(old(calls)))
      ensures nextHandle == old(nextHandle) && mode == old(mode)
      ensures staged == old(staged) && committed == old(committed)
    {
      ok := (calls !in failing);
      calls := calls + 1;
    }

    /** tbl.AddRecord: a new handle for the row, and the row's values written to the buffer. */
    method AddRecord(row: seq<Value>) returns (h: Option<int>)
      modifies this
      ensures calls == old(calls) + 1 && (h.Some? <==> old(calls) !in failing)
      ensures h.Some? == NoFailureSince(old(calls)) && (h.None? ==> StoppedAtFailure(old(calls)))
      ensures h.Some? ==> h.value == old(nextHandle) && nextHandle == old(nextHandle) + 1
                          && staged == old(staged) + [Added(h.value, row)]
      ensures h.None? ==> nextHandle == old(nextHandle) && staged == old(staged)
      ensures mode == old(mode) && committed == old(committed)
    {
      if calls in failing {
        h := None;
      } else {
        h := Some(nextHandle);
        nextHandle := nextHandle + 1;
        staged := staged + [Added(h.value, row)];
      }
      calls := calls + 1;
    }

    /** tbl.UpdateRecord: the old and new values of the row under the handle, and the touched columns. */
    method UpdateRecord(handle: int, before: seq<Value>, after: seq<Value>, touched: seq<bool>) returns (ok: bool)
      modifies this
      ensures calls == old(calls) + 1 && ok == (old(calls) !in failing)
      ensures ok == NoFailureSince(old(calls)) && (!ok ==> StoppedAtFailure(old(calls)))
      ensures ok ==> staged == old(staged) + [Updated(handle, before, after, touched)]
      ensures !ok ==> staged == old(staged)
      ensures nextHandle == old(nextHandle) && mode == old(mode) && committed == old(committed)
    {
      ok := (calls !in failing);
      calls := calls + 1;
      if ok {
        staged := staged + [Updated(handle, before, after, touched)];
      }
    }

    /** tbl.RemoveRecord: the row under the handle, with its old values, deleted. */
    method RemoveRecord(handle: int, before: seq<Value>) returns (ok: bool)
      modifies this
      ensures calls == old(calls) + 1 && ok == (old(calls) !in failing)
      ensures ok == NoFailureSince(old(calls)) && (!ok ==> StoppedAtFailure(old(calls)))
      ensures ok ==> staged == old(staged) + [Removed(handle, before)]
      ensures !ok ==> staged == old(staged)
      ensures nextHandle == old(nextHandle) && mode == old(mode) && committed == old(committed)
    {
      ok := (calls !in failing);
      calls := calls + 1;
      if ok {
        staged := staged + [Removed(handle, before)];
      }
    }

    /** ctx.CommitTxn: the buffer's records become committed and the buffer empties. */
    method CommitTxn() returns (ok: bool)
      modifies this
      ensures calls == old(calls) + 1 && ok == (old(calls) !in failing)
      ensures ok == NoFailureSince(old(calls)) && (!ok ==> StoppedAtFailure(old(calls)))
      ensures ok ==> committed == old(committed) + old(staged) && staged == []
      ensures !ok ==> committed == old(committed) && staged == old(staged)
      ensures nextHandle == old(nextHandle) && mode == old(mode)
    {
      ok := (calls !in failing);
      calls := calls + 1;
      if ok {
        committed, staged := committed + staged, [];
      }
    }

    /** MemBuffer.Size of the open transaction. */
    function Size(): int64
      reads this
    {
      sizeOf(mode, staged)
    }

    /** No call from position `from` on has failed. */
    ghost predicate NoFailureSince(from: nat)
      reads this
    {
      forall c :: from <= c < calls ==> c !in failing
    }

    /**
     * The calls from position `from` on stopped at the first failure: the last call made
     * failed, and every call before it from `from` on succeeded.
     */
    ghost predicate StoppedAtFailure(from: nat)
      reads this
    {
      && from < calls
      && calls - 1 in failing
      && forall c :: from <= c < calls - 1 ==> c !in failing
    }
  }

  /** The handles and rows prepareRows returns, paired by index. */
  datatype Prepared = Prepared(handles: seq<int>, rows: seq<seq<Datum>>)

  /** make([]bool, n) with every entry then set to true. */
  method AllTouched(n: nat) returns (touched: seq<bool>)
    ensures |touched| == n && forall j :: 0 <= j < n ==> touched[j]
  {
    touched := seq(n, _ => false);
    var j := 0;
    while j < n
      invariant 0 <= j <= n && |touched| == n
      invariant forall k :: 0 <= k < j ==> touched[k]
    {
      touched := touched[j := true];
      j := j + 1;
    }
  }


  class Core {
    const cols: seq<ColumnDef>
    const colAllocs: seq<Allocator>
    const dropKey: bool
    const dropValue: bool
    const store: Store
    const rng: RandomSource
    /** The allocators and their byte buffers. */
    ghost const Repr: set<object>
    /** The column each allocator and each buffer belongs to; no object serves two columns. */
    ghost const slot: map<object, nat>
    /** How many rows GetRow has produced. */
    ghost var made: nat

    /** One valid allocator per column, no two sharing an object; the store lies outside them. */
    ghost predicate Wired()
      reads this, Repr
    {
      && |colAllocs| == |cols|
      && (forall j :: 0 <= j < |cols| ==> colAllocs[j] in Repr && colAllocs[j].col == cols[j])
      && (forall j :: 0 <= j < |cols| && colAllocs[j].bytesAlloc != null ==> colAllocs[j].bytesAlloc in Repr)
      && (forall j :: 0 <= j < |cols| ==> colAllocs[j] in slot && slot[colAllocs[j]] == j)
      && (forall j :: 0 <= j < |cols| && colAllocs[j].bytesAlloc != null ==>
            colAllocs[j].bytesAlloc in slot && slot[colAllocs[j].bytesAlloc] == j)
      && (forall j :: 0 <= j < |cols| ==> (IsBytes(cols[j].tp) <==> colAllocs[j].bytesAlloc != null))
      && (forall j {:trigger colAllocs[j].Valid()} :: 0 <= j < |cols| ==> colAllocs[j].Valid())
      && store !in Repr
      && rng.Valid()
    }

    /**
     * Wired, and when NewDatum handles every column type (so that GetRow never stops part way)
     * every allocator has produced one datum per row made.
     */
    ghost predicate Valid()
      reads this, Repr
    {
      && Wired()
      && (AllSupported(cols) ==> forall j :: 0 <= j < |cols| ==> colAllocs[j].generated == made)
    }

    /**
     * A row of datums as GetRow produced it as row number p: string and blob columns wrap their
     * allocator's buffer, the other deterministic columns hold value number p.
     */
    ghost predicate HeldRow(row: seq<Datum>, p: nat)
      requires |colAllocs| == |cols|
    {
      && |row| == |cols|
      && (forall j :: 0 <= j < |cols| && IsBytes(cols[j].tp) ==>
            row[j].Bytes? && row[j].buf == colAllocs[j].bytesAlloc)
      && (forall j :: 0 <= j < |cols| && Deterministic(cols[j].tp) && !IsBytes(cols[j].tp) ==>
            row[j] == Plain(NthValue(cols[j], p)))
    }

    /** Reading a held row shows its ordinary columns as they were and its byte columns as they are now. */
    lemma ViewsOfHeld(row: seq<Datum>, p: nat)
      requires Valid() && AllSupported(cols) && HeldRow(row, p)
      ensures RowHeld(cols, Views(row), p, made)
    {
      var vs := Views(row);
      forall j | 0 <= j < |cols| && Deterministic(cols[j].tp)
        ensures vs[j] == NthValue(cols[j], if IsBytes(cols[j].tp) then made else p)
      {
        assert colAllocs[j].Valid();
      }
    }

    /** NewCore after the table definition has been parsed: one fresh allocator per column, in order. */
    constructor (cols: seq<ColumnDef>, dropKey: bool, dropValue: bool, store: Store, rng: RandomSource)
      requires rng.Valid()
      ensures Valid() && fresh(Repr)
      ensures this.cols == cols && this.dropKey == dropKey && this.dropValue == dropValue
      ensures this.store == store && this.rng == rng
      ensures made == 0 && forall j :: 0 <= j < |cols| ==> colAllocs[j].generated == 0
    {
      var allocs: seq<Allocator> := [];
      ghost var repr: set<object> := {};
      ghost var owner: map<object, nat> := map[];
      var i := 0;
      while i < |cols|
        invariant 0 <= i <= |cols| && |allocs| == i
        invariant fresh(repr)
        invariant forall j :: 0 <= j < i ==> allocs[j] in repr && allocs[j].col == cols[j]
        invariant forall j :: 0 <= j < i ==> allocs[j].Valid() && allocs[j].generated == 0
        invariant forall j :: 0 <= j < i && allocs[j].bytesAlloc != null ==> allocs[j].bytesAlloc in repr
        invariant forall j :: 0 <= j < i ==> allocs[j] in owner && owner[allocs[j]] == j
        invariant forall j :: 0 <= j < i && allocs[j].bytesAlloc != null ==>
                    allocs[j].bytesAlloc in owner && owner[allocs[j].bytesAlloc] == j
      {
        var a := new Allocator(cols[i]);
        allocs := allocs + [a];
        repr := repr + {a} + (if a.bytesAlloc != null then {a.bytesAlloc} else {});
        owner := owner[a := i];
        if a.bytesAlloc != null {
          owner := owner[a.bytesAlloc := i];
        }
        i := i + 1;
      }
      this.cols := cols;
      colAllocs := allocs;
      this.dropKey, this.dropValue := dropKey, dropValue;
      this.store, this.rng := store, rng;
      Repr := repr;
      slot := owner;
      made := 0;
    }

    /** One column's NewDatum inside GetRow: that column's allocator moves, every other one keeps its state. */
    method NextDatum(i: nat) returns (d: Option<Datum>)
      requires Wired() && i < |cols|
      modifies colAllocs[i], colAllocs[i].bytesAlloc, rng
      ensures Wired()
      ensures d.Some? <==> Supported(cols[i].tp)
      ensures d.Some? ==> d.value == colAllocs[i].Current() && colAllocs[i].generated == old(colAllocs[i].generated) + 1
      ensures d.None? ==> colAllocs[i].generated == old(colAllocs[i].generated)
      ensures IsFloating(cols[i].tp) || IsDecimal(cols[i].tp) ==>
                colAllocs[i].floatAlloc == old(colAllocs[i].floatAlloc) + rng.draws(old(rng.pos)) && rng.pos == old(rng.pos) + 1
      ensures !IsFloating(cols[i].tp) && !IsDecimal(cols[i].tp) ==> rng.pos == old(rng.pos)
      ensures rng.pos == old(rng.pos) + DrawOf(cols[i].tp)
      ensures forall j :: 0 <= j < |cols| && j != i ==> unchanged(colAllocs[j])
    {
      d := colAllocs[i].NewDatum(rng);
    }

    /**
     * GetRow: one datum per column, in column order, each from its own allocator called exactly
     * once; no row when a column's type is one NewDatum does not handle.
     */
    method GetRow() returns (r: Option<seq<Datum>>)
      requires Valid()
      modifies this, Repr, rng
      ensures Valid()
      ensures r.Some? <==> AllSupported(cols)
      ensures r.Some? ==> made == old(made) + 1 && |r.value| == |cols|
      ensures r.None? ==> made == old(made)
      ensures r.Some? ==> forall j :: 0 <= j < |cols| ==> r.value[j] == colAllocs[j].Current()
      ensures r.Some? ==> HeldRow(r.value, made) && RowHeld(cols, Views(r.value), made, made)
      ensures r.Some? ==> rng.pos == old(rng.pos) + Draws(cols)
    {
      r := FillRow();
      if r.Some? {
        made := made + 1;
        CurrentRow(r.value);
      }
    }

    /** GetRow's loop: NewDatum for each column in turn, stopping at the first unhandled type. */
    method FillRow() returns (r: Option<seq<Datum>>)
      requires Valid()
      modifies Repr, rng
      ensures Wired() && made == old(made)
      ensures r.Some? <==> AllSupported(cols)
      ensures r.Some? ==> |r.value| == |cols| && rng.pos == old(rng.pos) + Draws(cols)
      ensures r.Some? ==> forall j :: 0 <= j < |cols| ==>
                colAllocs[j].generated == made + 1 && r.value[j] == colAllocs[j].Current()
    {
      var row: seq<Datum> := [];
      var i := 0;
      while i < |colAllocs|
        invariant 0 <= i <= |cols| && |row| == i
        invariant Wired() && made == old(made)
        invariant forall j :: 0 <= j < i ==> Supported(cols[j].tp)
        invariant AllSupported(cols) ==> forall j :: 0 <= j < i ==> colAllocs[j].generated == made + 1
        invariant AllSupported(cols) ==> forall j :: i <= j < |cols| ==> colAllocs[j].generated == made
        invariant forall j :: 0 <= j < i ==> row[j] == colAllocs[j].Current()
        invariant rng.pos == old(rng.pos) + Draws(cols[..i])
      {
        var d := NextDatum(i);
        if d.None? {
          return None;
        }
        DrawsStep(cols, i);
        row := row + [d.value];
        i := i + 1;
      }
      assert cols[..|cols|] == cols;
      r := Some(row);
    }

    /** A row holding every allocator's latest datum is held as the latest row and shows it. */
    lemma CurrentRow(row: seq<Datum>)
      requires Valid() && |row| == |cols|
      requires forall j :: 0 <= j < |cols| ==> Supported(cols[j].tp) && row[j] == colAllocs[j].Current()
      ensures HeldRow(row, made) && RowHeld(cols, Views(row), made, made)
    {
      forall j | 0 <= j < |cols| && Deterministic(cols[j].tp)
        ensures View(row[j]) == NthValue(cols[j], made)
        ensures IsBytes(cols[j].tp) ==> row[j].Bytes? && row[j].buf == colAllocs[j].bytesAlloc
        ensures !IsBytes(cols[j].tp) ==> row[j] == Plain(NthValue(cols[j], made))
      {
        CurrentIsNth(colAllocs[j]);
      }
    }

    /** The records of an insert after row m0: consecutive handles from h0, record k holding row m0 + k + 1. */
    ghost predicate AddedRun(recs: seq<Record>, h0: int, m0: nat) {
      forall k :: 0 <= k < |recs| ==>
        && recs[k].Added? && recs[k].handle == h0 + k
        && RowHeld(cols, recs[k].row, m0 + k + 1, m0 + k + 1)
    }

    /**
     * What prepareRows leaves committed: the records committed before (c0) followed by
     * `count` inserts with consecutive handles from h0.
     */
    ghost predicate CommittedInserts(c0: seq<Record>, h0: int, m0: nat, count: nat)
      reads store
    {
      && |store.committed| == |c0| + count
      && store.committed[..|c0|] == c0
      && AddedRun(store.committed[|c0|..], h0, m0)
    }

    /** Rows as prepareRows collects them after row m0: row k is row number m0 + k + 1. */
    ghost predicate HeldRun(rows: seq<seq<Datum>>, m0: nat)
      requires |colAllocs| == |cols|
    {
      forall k :: 0 <= k < |rows| ==> HeldRow(rows[k], m0 + k + 1)
    }

    /**
     * The state InsertRows leaves behind after `rows` rows, starting after row m0 with the
     * next handle h0: `rows` more rows made, and the open buffer holds exactly their inserts.
     */
    ghost predicate Inserted(m0: nat, h0: int, rows: nat)
      reads this, store
    {
      && made == m0 + rows
      && store.nextHandle == h0 + rows
      && |store.staged| == rows
      && AddedRun(store.staged, h0, m0)
    }

    /** The prepared rows as UpdateRows and DeleteRows receive them. */
    ghost predicate PreparedFrom(handles: seq<int>, befores: seq<seq<Datum>>, m0: nat, h0: int)
      requires |colAllocs| == |cols|
    {
      && |handles| == |befores|
      && (forall k :: 0 <= k < |handles| ==> handles[k] == h0 + k)
      && HeldRun(befores, m0)
    }

    /**
     * The body of the insert loops: GetRow, then AddRecord with what the row shows. The record
     * gets the next handle; nothing reaches the store when the row cannot be built.
     */
    method AddRow() returns (r: Result<(int, seq<Datum>)>)
      requires Valid()
      modifies this, Repr, rng, store
      ensures Valid()
      ensures r.Ok? <==> AllSupported(cols) && store.NoFailureSince(old(store.calls))
      ensures r.Err? && r.error == StoreFailure ==> store.StoppedAtFailure(old(store.calls))
      ensures r.Err? && r.error == UnknownType ==> !AllSupported(cols)
      ensures store.calls == old(store.calls) + (if AllSupported(cols) then 1 else 0)
      ensures store.mode == old(store.mode) && store.committed == old(store.committed)
      ensures r.Ok? ==>
                && made == old(made) + 1 && HeldRow(r.value.1, made)
                && r.value.0 == old(store.nextHandle) && store.nextHandle == old(store.nextHandle) + 1
                && |store.staged| == |old(store.staged)| + 1
                && store.staged[..|old(store.staged)|] == old(store.staged)
                && store.staged[|old(store.staged)|].Added?
                && store.staged[|old(store.staged)|].handle == r.value.0
                && RowHeld(cols, store.staged[|old(store.staged)|].row, made, made)
    {
      var row := GetRow();
      if row.None? {
        return Err(UnknownType);
      }
      ghost var c := store.calls;
      var h := store.AddRecord(Views(row.value));
      if h.None? {
        assert c in store.failing;
        return Err(StoreFailure);
      }
      r := Ok((h.value, row.value));
    }

    /** One pass of prepareRows' loop: one more row added, its handle and row collected. */
    method PrepareNext(handles: seq<int>, rows: seq<seq<Datum>>, ghost m0: nat, ghost h0: int) returns (r: Result<Prepared>)
      requires Valid() && Inserted(m0, h0, |rows|) && PreparedFrom(handles, rows, m0, h0)
      modifies this, Repr, rng, store
      ensures Valid()
      ensures r.Ok? <==> AllSupported(cols) && store.NoFailureSince(old(store.calls))
      ensures r.Err? && r.error == StoreFailure ==> store.StoppedAtFailure(old(store.calls))
      ensures r.Err? && r.error == UnknownType ==> !AllSupported(cols)
      ensures store.calls == old(store.calls) + (if AllSupported(cols) then 1 else 0)
      ensures store.mode == old(store.mode) && store.committed == old(store.committed)
      ensures r.Ok? ==>
                && |r.value.rows| == |rows| + 1 && Inserted(m0, h0, |rows| + 1)
                && PreparedFrom(r.value.handles, r.value.rows, m0, h0)
    {
      var added := AddRow();
      if added.Err? {
        return Err(added.error);
      }
      r := Ok(Prepared(handles + [added.value.0], rows + [added.value.1]));
    }

    /**
     * prepareRows' loop: `count` rows generated and added to the open transaction, whose
     * buffer starts empty, collecting each handle and row; it stops at the first failure.
     */
    method PrepareLoop(count: int64, ghost m0: nat, ghost h0: int) returns (r: Result<Prepared>)
      requires Valid() && count >= 0 && store.staged == [] && made == m0 && store.nextHandle == h0
      modifies this, Repr, rng, store
      ensures Valid()
      ensures r.Ok? <==> store.NoFailureSince(old(store.calls)) && (count == 0 || AllSupported(cols))
      ensures r.Err? && r.error == StoreFailure ==> store.StoppedAtFailure(old(store.calls))
      ensures r.Err? && r.error == UnknownType ==> !AllSupported(cols)
      ensures r.Ok? ==> store.calls == old(store.calls) + count
      ensures r.Err? && r.error == UnknownType ==> store.calls == old(store.calls)
      ensures store.mode == old(store.mode) && store.committed == old(store.committed)
      ensures r.Ok? ==> |r.value.rows| == count && PreparedFrom(r.value.handles, r.value.rows, m0, h0) && Inserted(m0, h0, count)
    {
      ghost var calls0 := store.calls;
      var handles: seq<int> := [];
      var rows: seq<seq<Datum>> := [];
      var i := 0;
      while i < count
        invariant 0 <= i <= count && |rows| == i
        invariant Valid()
        invariant i > 0 ==> AllSupported(cols)
        invariant store.calls == calls0 + i && store.NoFailureSince(calls0)
        invariant store.mode == old(store.mode) && store.committed == old(store.committed)
        invariant Inserted(m0, h0, i) && PreparedFrom(handles, rows, m0, h0)
      {
        var next := PrepareNext(handles, rows, m0, h0);
        if next.Err? {
          return next;
        }
        handles, rows := next.value.handles, next.value.rows;
        i := i + 1;
      }
      r := Ok(Prepared(handles, rows));
    }

    /**
     * prepareRows: count rows generated and added under a plain context, then committed. On
     * success the handles and rows are paired by index, the handles are consecutive, and every
     * string or blob column of every row wraps the same allocator buffer. On any failure
     * nothing is returned.
     */
    method PrepareRows(count: int64) returns (r: Result<Prepared>)
      requires Valid() && count >= 0
      modifies this, Repr, rng, store
      ensures Valid()
      ensures r.Ok? <==> store.NoFailureSince(old(store.calls)) && (count == 0 || AllSupported(cols))
      ensures r.Err? && r.error == StoreFailure ==> store.StoppedAtFailure(old(store.calls))
      ensures r.Err? && r.error == UnknownType ==> !AllSupported(cols)
      ensures r.Ok? ==> store.calls == old(store.calls) + count + 2
      ensures r.Err? && r.error == UnknownType ==> store.calls == old(store.calls) + 1 && store.NoFailureSince(old(store.calls))
      ensures r.Ok? ==>
                && |r.value.rows| == count
                && PreparedFrom(r.value.handles, r.value.rows, old(made), old(store.nextHandle))
                && made == old(made) + count
                && store.nextHandle == old(store.nextHandle) + count
                && store.staged == [] && store.mode == KeepAll
                && CommittedInserts(old(store.committed), old(store.nextHandle), old(made), count)
    {
      ghost var m0 := made;
      ghost var calls0 := store.calls;
      ghost var h0 := store.nextHandle;
      ghost var c0 := store.committed;
      var ok := store.NewTxn(KeepAll);
      if !ok {
        assert calls0 in store.failing;
        return Err(StoreFailure);
      }
      r := PrepareLoop(count, m0, h0);
      if r.Err? {
        return;
      }
      ghost var added := store.staged;
      ghost var cc := store.calls;
      ok := store.CommitTxn();
      if !ok {
        assert cc in store.failing;
        return Err(StoreFailure);
      }
      assert store.committed[|c0|..] == added;
    }

    /**
     * One update record: the handle, every column touched, the old row held as row p (its
     * string and blob columns showing the buffer of row b) and the new row held as row b.
     */
    ghost predicate UpdateOf(rec: Record, handle: int, p: nat, b: nat) {
      && rec.Updated? && rec.handle == handle
      && |rec.touched| == |cols| && (forall j :: 0 <= j < |cols| ==> rec.touched[j])
      && RowHeld(cols, rec.before, p, b)
      && RowHeld(cols, rec.after, b, b)
    }

    /**
     * The update records of UpdateRows after `count` rows prepared after row m0: the k-th
     * updates handle h0 + k, from prepared row m0 + k + 1 to new row m0 + count + k + 1.
     */
    ghost predicate UpdatedRun(recs: seq<Record>, h0: int, m0: nat, count: nat) {
      forall k :: 0 <= k < |recs| ==> UpdateOf(recs[k], h0 + k, m0 + k + 1, m0 + count + k + 1)
    }

    /** One more update record, for the next prepared row, extends an update run. */
    lemma UpdatedRunStep(recs: seq<Record>, r: seq<Record>, h0: int, m0: nat, count: nat, h: int, p: nat, b: nat)
      requires UpdatedRun(recs, h0, m0, count)
      requires |r| == |recs| + 1 && r[..|recs|] == recs
      requires h == h0 + |recs| && p == m0 + |recs| + 1 && b == m0 + count + |recs| + 1
      requires UpdateOf(r[|recs|], h, p, b)
      ensures UpdatedRun(r, h0, m0, count)
    {
      forall k | 0 <= k < |r|
        ensures UpdateOf(r[k], h0 + k, m0 + k + 1, m0 + count + k + 1)
      {
        if k < |recs| {
          assert r[k] == r[..|recs|][k];
        }
      }
    }

    /**
     * In the k-th update record, a string or blob column logs the same value as old and as
     * new: the value the buffer reached for the new row. An ordinary column logs the prepared
     * row's value as old and the new row's value as new.
     */
    lemma UpdateLogsBufferTwice(recs: seq<Record>, h0: int, m0: nat, count: nat, k: nat)
      requires UpdatedRun(recs, h0, m0, count) && k < |recs|
      ensures forall j :: 0 <= j < |cols| && IsBytes(cols[j].tp) ==>
                recs[k].before[j] == recs[k].after[j] == NthValue(cols[j], m0 + count + k + 1)
      ensures forall j :: 0 <= j < |cols| && Deterministic(cols[j].tp) && !IsBytes(cols[j].tp) ==>
                recs[k].before[j] == NthValue(cols[j], m0 + k + 1)
                && recs[k].after[j] == NthValue(cols[j], m0 + count + k + 1)
    {
      assert UpdateOf(recs[k], h0 + k, m0 + k + 1, m0 + count + k + 1);
      forall j | 0 <= j < |cols| && IsBytes(cols[j].tp)
        ensures Deterministic(cols[j].tp)
      {
      }
    }

    /** One delete record: the handle, and the old row held as row p with its buffers showing row b. */
    ghost predicate RemovalOf(rec: Record, handle: int, p: nat, b: nat) {
      rec.Removed? && rec.handle == handle && RowHeld(cols, rec.before, p, b)
    }

    /**
     * The delete records of DeleteRows after `count` rows prepared after row m0: the k-th
     * removes handle h0 + k, whose ordinary columns hold row m0 + k + 1 and whose string and
     * blob columns show the buffer left by the last prepared row.
     */
    ghost predicate RemovedRun(recs: seq<Record>, h0: int, m0: nat, count: nat) {
      forall k :: 0 <= k < |recs| ==> RemovalOf(recs[k], h0 + k, m0 + k + 1, m0 + count)
    }

    /** One more delete record, for the next prepared row, extends a delete run. */
    lemma RemovedRunStep(recs: seq<Record>, r: seq<Record>, h0: int, m0: nat, count: nat, h: int, p: nat, b: nat)
      requires RemovedRun(recs, h0, m0, count)
      requires |r| == |recs| + 1 && r[..|recs|] == recs
      requires h == h0 + |recs| && p == m0 + |recs| + 1 && b == m0 + count
      requires RemovalOf(r[|recs|], h, p, b)
      ensures RemovedRun(r, h0, m0, count)
    {
      forall k | 0 <= k < |r|
        ensures RemovalOf(r[k], h0 + k, m0 + k + 1, m0 + count)
      {
        if k < |recs| {
          assert r[k] == r[..|recs|][k];
        }
      }
    }

    /**
     * The body of UpdateRows' loop. It takes a new row from GetRow and marks every column
     * touched, then calls UpdateRecord with the old row and the new one as they read at that
     * moment.
     */
    method UpdateRow(handle: int, before: seq<Datum>, ghost p: nat) returns (ok: bool)
      requires Valid() && AllSupported(cols) && HeldRow(before, p)
      modifies this, Repr, rng, store
      ensures Valid()
      ensures ok == store.NoFailureSince(old(store.calls)) && store.calls == old(store.calls) + 1
      ensures !ok ==> store.StoppedAtFailure(old(store.calls))
      ensures made == old(made) + 1
      ensures store.mode == old(store.mode) && store.committed == old(store.committed)
      ensures store.nextHandle == old(store.nextHandle)
      ensures ok ==>
                && |store.staged| == |old(store.staged)| + 1
                && store.staged[..|old(store.staged)|] == old(store.staged)
                && UpdateOf(store.staged[|old(store.staged)|], handle, p, made)
    {
      var after := GetRow();
      if after.None? {
        assert false;
        return false;
      }
      ok := StageUpdate(handle, before, after.value, p);
    }

    /**
     * The rest of UpdateRows' loop body once the new row is built: every column marked
     * touched, then UpdateRecord with both rows as they read at that moment.
     */
    method StageUpdate(handle: int, before: seq<Datum>, after: seq<Datum>, ghost p: nat) returns (ok: bool)
      requires Valid() && AllSupported(cols) && HeldRow(before, p)
      requires RowHeld(cols, Views(after), made, made)
      modifies store
      ensures ok == store.NoFailureSince(old(store.calls)) && store.calls == old(store.calls) + 1
      ensures !ok ==> store.StoppedAtFailure(old(store.calls))
      ensures store.mode == old(store.mode) && store.committed == old(store.committed)
      ensures store.nextHandle == old(store.nextHandle)
      ensures ok ==>
                && |store.staged| == |old(store.staged)| + 1
                && store.staged[..|old(store.staged)|] == old(store.staged)
                && UpdateOf(store.staged[|old(store.staged)|], handle, p, made)
    {
      ViewsOfHeld(before, p);
      var touched := AllTouched(|cols|);
      ok := store.UpdateRecord(handle, Views(before), Views(after), touched);
    }

    /**
     * The body of DeleteRows' loop. It builds a touched list that is then not used, and calls
     * RemoveRecord with the old row as it reads at that moment.
     */
    method RemoveRow(handle: int, before: seq<Datum>, ghost p: nat) returns (ok: bool)
      requires Valid() && AllSupported(cols) && HeldRow(before, p)
      modifies store
      ensures ok == store.NoFailureSince(old(store.calls)) && store.calls == old(store.calls) + 1
      ensures !ok ==> store.StoppedAtFailure(old(store.calls))
      ensures store.mode == old(store.mode) && store.committed == old(store.committed)
      ensures store.nextHandle == old(store.nextHandle)
      ensures ok ==>
                && |store.staged| == |old(store.staged)| + 1
                && store.staged[..|old(store.staged)|] == old(store.staged)
                && RemovalOf(store.staged[|old(store.staged)|], handle, p, made)
    {
      var touched := AllTouched(|cols|);
      ViewsOfHeld(before, p);
      ok := store.RemoveRecord(handle, Views(before));
    }

    /**
     * The opening of every workload's transaction: NewTxn under the context's drop mode, then
     * Txn, which is not reached when NewTxn fails.
     */
    method OpenTxn() returns (ok: bool)
      modifies store
      ensures ok <==> store.NoFailureSince(old(store.calls)) && store.calls == old(store.calls) + 2
      ensures !ok ==> store.StoppedAtFailure(old(store.calls))
      ensures store.calls >= old(store.calls)
      ensures ok ==> store.mode == ContextMode(dropKey, dropValue) && store.staged == []
      ensures store.nextHandle == old(store.nextHandle) && store.committed == old(store.committed)
    {
      ghost var calls0 := store.calls;
      ok := store.NewTxn(ContextMode(dropKey, dropValue));
      if !ok {
        assert calls0 in store.failing;
        return;
      }
      ok := store.Txn();
      if !ok {
        assert calls0 + 1 in store.failing;
      }
    }

    /**
     * InsertRows' loop: `count` rows generated and added to the open transaction, whose
     * buffer starts empty, stopping at the first failure.
     */
    method InsertLoop(count: int64, ghost m0: nat, ghost h0: int) returns (err: Option<Failure>)
      requires Valid() && store.staged == [] && made == m0 && store.nextHandle == h0
      modifies this, Repr, rng, store
      ensures Valid()
      ensures err.None? <==> store.NoFailureSince(old(store.calls)) && (count <= 0 || AllSupported(cols))
      ensures err == Some(StoreFailure) ==> store.StoppedAtFailure(old(store.calls))
      ensures err == Some(UnknownType) ==> !AllSupported(cols)
      ensures err.None? ==> store.calls == old(store.calls) + (if count < 0 then 0 else count)
      ensures err == Some(UnknownType) ==> store.calls == old(store.calls)
      ensures store.mode == old(store.mode) && store.committed == old(store.committed)
      ensures err.None? ==> Inserted(m0, h0, if count < 0 then 0 else count)
    {
      var i := 0;
      ghost var calls0 := store.calls;
      while i < count
        invariant 0 <= i && (count >= 0 ==> i <= count) && (count < 0 ==> i == 0)
        invariant Valid()
        invariant i > 0 ==> AllSupported(cols)
        invariant store.calls == calls0 + i && store.NoFailureSince(calls0)
        invariant store.mode == old(store.mode) && store.committed == old(store.committed)
        invariant Inserted(m0, h0, i)
      {
        var added := AddRow();
        if added.Err? {
          return Some(added.error);
        }
        i := i + 1;
      }
      err := None;
    }

    /**
     * InsertRows: n / sample rows generated and added in one transaction opened under the
     * context's drop mode, left uncommitted. The result is the buffer's size per sampled row
     * times n, dividing first.
     */
    method InsertRows(n: int64, sample: int64) returns (r: Result<int64>)
      requires Valid() && sample != 0 && SampleRows(n, sample) != 0
      modifies this, Repr, rng, store
      ensures Valid()
      ensures r.Ok? ==> r.value == EstimateTotal(store.Size(), n, SampleRows(n, sample))
      ensures r.Ok? <==> store.NoFailureSince(old(store.calls)) && (SampleRows(n, sample) < 0 || AllSupported(cols))
      ensures r.Err? && r.error == StoreFailure ==> store.StoppedAtFailure(old(store.calls))
      ensures r.Err? && r.error == UnknownType ==> !AllSupported(cols)
      ensures r.Ok? ==> store.calls == old(store.calls) + 2 + (if SampleRows(n, sample) < 0 then 0 else SampleRows(n, sample))
      ensures r.Err? && r.error == UnknownType ==> store.calls == old(store.calls) + 2 && store.NoFailureSince(old(store.calls))
      ensures r.Ok? ==>
                && store.mode == ContextMode(dropKey, dropValue)
                && store.committed == old(store.committed)
                && Inserted(old(made), old(store.nextHandle), if SampleRows(n, sample) < 0 then 0 else SampleRows(n, sample))
    {
      ghost var m0 := made;
      ghost var h0 := store.nextHandle;
      var ok := OpenTxn();
      if !ok {
        return Err(StoreFailure);
      }
      var sampleRows := SampleRows(n, sample);
      var err := InsertLoop(sampleRows, m0, h0);
      if err.Some? {
        return Err(err.value);
      }
      r := Ok(EstimateTotal(store.Size(), n, sampleRows));
    }

    /**
     * The state UpdateRows leaves behind: `count` rows prepared after row m0, then `done`
     * update records in the open buffer, one new row made for each.
     */
    ghost predicate UpdatedState(m0: nat, h0: int, count: nat, done: nat)
      reads this, store
    {
      && made == m0 + count + done
      && |store.staged| == done
      && UpdatedRun(store.staged, h0, m0, count)
    }

    /** One pass of UpdateRows' loop: the update of prepared row i extends the run by one record. */
    method UpdateNext(handles: seq<int>, befores: seq<seq<Datum>>, ghost m0: nat, ghost h0: int, i: nat) returns (ok: bool)
      requires Valid() && AllSupported(cols) && PreparedFrom(handles, befores, m0, h0) && i < |befores|
      requires UpdatedState(m0, h0, |befores|, i)
      modifies this, Repr, rng, store
      ensures Valid()
      ensures ok == store.NoFailureSince(old(store.calls)) && store.calls == old(store.calls) + 1
      ensures !ok ==> store.StoppedAtFailure(old(store.calls))
      ensures store.mode == old(store.mode) && store.committed == old(store.committed)
      ensures ok ==> UpdatedState(m0, h0, |befores|, i + 1)
    {
      ghost var recs := store.staged;
      ok := UpdateRow(handles[i], befores[i], m0 + i + 1);
      if ok {
        UpdatedRunStep(recs, store.staged, h0, m0, |befores|, handles[i], m0 + i + 1, made);
      }
    }

    /** UpdateRows' loop over the prepared rows, in order, stopping at the first failure. */
    method UpdateLoop(handles: seq<int>, befores: seq<seq<Datum>>, ghost m0: nat, ghost h0: int) returns (ok: bool)
      requires Valid() && AllSupported(cols) && store.staged == []
      requires PreparedFrom(handles, befores, m0, h0) && made == m0 + |befores|
      modifies this, Repr, rng, store
      ensures Valid()
      ensures ok == store.NoFailureSince(old(store.calls))
      ensures ok ==> store.calls == old(store.calls) + |befores|
      ensures !ok ==> store.StoppedAtFailure(old(store.calls))
      ensures store.mode == old(store.mode) && store.committed == old(store.committed)
      ensures ok ==> UpdatedState(m0, h0, |befores|, |befores|)
    {
      ghost var calls0 := store.calls;
      var i := 0;
      while i < |befores|
        invariant 0 <= i <= |befores|
        invariant Valid()
        invariant store.calls == calls0 + i && store.NoFailureSince(calls0)
        invariant store.mode == old(store.mode) && store.committed == old(store.committed)
        invariant UpdatedState(m0, h0, |befores|, i)
      {
        ok := UpdateNext(handles, befores, m0, h0, i);
        if !ok {
          return false;
        }
        i := i + 1;
      }
      ok := true;
    }

    /**
     * UpdateRows: n / sample rows prepared and committed, then each updated to a new row in
     * one transaction opened under the context's drop mode and left uncommitted. The result
     * is the buffer's size per sampled row times n, dividing first.
     */
    method UpdateRows(n: int64, sample: int64) returns (r: Result<int64>)
      requires Valid() && sample != 0 && SampleRows(n, sample) > 0
      modifies this, Repr, rng, store
      ensures Valid()
      ensures r.Ok? ==> r.value == EstimateTotal(store.Size(), n, SampleRows(n, sample))
      ensures r.Ok? <==> store.NoFailureSince(old(store.calls)) && AllSupported(cols)
      ensures r.Err? && r.error == StoreFailure ==> store.StoppedAtFailure(old(store.calls))
      ensures r.Err? && r.error == UnknownType ==> !AllSupported(cols)
      ensures r.Ok? ==> store.calls == old(store.calls) + 2 * SampleRows(n, sample) + 4
      ensures r.Err? && r.error == UnknownType ==> store.calls == old(store.calls) + 1 && store.NoFailureSince(old(store.calls))
      ensures r.Ok? ==>
                && store.mode == ContextMode(dropKey, dropValue)
                && CommittedInserts(old(store.committed), old(store.nextHandle), old(made), SampleRows(n, sample))
                && UpdatedState(old(made), old(store.nextHandle), SampleRows(n, sample), SampleRows(n, sample))
    {
      ghost var m0 := made;
      ghost var h0 := store.nextHandle;
      var sampleRows := SampleRows(n, sample);
      var prepared := PrepareRows(sampleRows);
      if prepared.Err? {
        return Err(prepared.error);
      }
      var ok := OpenTxn();
      if !ok {
        return Err(StoreFailure);
      }
      ok := UpdateLoop(prepared.value.handles, prepared.value.rows, m0, h0);
      if !ok {
        return Err(StoreFailure);
      }
      r := Ok(EstimateTotal(store.Size(), n, sampleRows));
    }

    /**
     * The state DeleteRows leaves behind: `count` rows prepared after row m0, then `done`
     * delete records in the open buffer; no row is made after the prepared ones.
     */
    ghost predicate RemovedState(m0: nat, h0: int, count: nat, done: nat)
      reads this, store
    {
      && made == m0 + count
      && |store.staged| == done
      && RemovedRun(store.staged, h0, m0, count)
    }

    /** One pass of DeleteRows' loop: the removal of prepared row i extends the run by one record. */
    method RemoveNext(handles: seq<int>, befores: seq<seq<Datum>>, ghost m0: nat, ghost h0: int, i: nat) returns (ok: bool)
      requires Valid() && AllSupported(cols) && PreparedFrom(handles, befores, m0, h0) && i < |befores|
      requires RemovedState(m0, h0, |befores|, i)
      modifies store
      ensures ok == store.NoFailureSince(old(store.calls)) && store.calls == old(store.calls) + 1
      ensures !ok ==> store.StoppedAtFailure(old(store.calls))
      ensures store.mode == old(store.mode) && store.committed == old(store.committed)
      ensures ok ==> RemovedState(m0, h0, |befores|, i + 1)
    {
      ghost var recs := store.staged;
      ok := RemoveRow(handles[i], befores[i], m0 + i + 1);
      if ok {
        RemovedRunStep(recs, store.staged, h0, m0, |befores|, handles[i], m0 + i + 1, made);
      }
    }

    /** DeleteRows' loop over the prepared rows, in order, stopping at the first failure. */
    method DeleteLoop(handles: seq<int>, befores: seq<seq<Datum>>, ghost m0: nat, ghost h0: int) returns (ok: bool)
      requires Valid() && AllSupported(cols) && store.staged == []
      requires PreparedFrom(handles, befores, m0, h0) && made == m0 + |befores|
      modifies store
      ensures Valid()
      ensures ok == store.NoFailureSince(old(store.calls))
      ensures ok ==> store.calls == old(store.calls) + |befores|
      ensures !ok ==> store.StoppedAtFailure(old(store.calls))
      ensures store.mode == old(store.mode) && store.committed == old(store.committed)
      ensures ok ==> RemovedState(m0, h0, |befores|, |befores|)
    {
      ghost var calls0 := store.calls;
      var i := 0;
      while i < |befores|
        invariant 0 <= i <= |befores|
        invariant store.calls == calls0 + i && store.NoFailureSince(calls0)
        invariant store.mode == old(store.mode) && store.committed == old(store.committed)
        invariant RemovedState(m0, h0, |befores|, i)
      {
        ok := RemoveNext(handles, befores, m0, h0, i);
        if !ok {
          return false;
        }
        i := i + 1;
      }
      ok := true;
    }

    /**
     * DeleteRows: n / sample rows prepared and committed, then each removed in one
     * transaction opened under the context's drop mode and left uncommitted. The result is
     * the buffer's size per sampled row times n, dividing first.
     */
    method DeleteRows(n: int64, sample: int64) returns (r: Result<int64>)
      requires Valid() && sample != 0 && SampleRows(n, sample) > 0
      modifies this, Repr, rng, store
      ensures Valid()
      ensures r.Ok? ==> r.value == EstimateTotal(store.Size(), n, SampleRows(n, sample))
      ensures r.Ok? <==> store.NoFailureSince(old(store.calls)) && AllSupported(cols)
      ensures r.Err? && r.error == StoreFailure ==> store.StoppedAtFailure(old(store.calls))
      ensures r.Err? && r.error == UnknownType ==> !AllSupported(cols)
      ensures r.Ok? ==> store.calls == old(store.calls) + 2 * SampleRows(n, sample) + 4
      ensures r.Err? && r.error == UnknownType ==> store.calls == old(store.calls) + 1 && store.NoFailureSince(old(store.calls))
      ensures r.Ok? ==>
                && store.mode == ContextMode(dropKey, dropValue)
                && CommittedInserts(old(store.committed), old(store.nextHandle), old(made), SampleRows(n, sample))
                && RemovedState(old(made), old(store.nextHandle), SampleRows(n, sample), SampleRows(n, sample))
    {
      ghost var m0 := made;
      ghost var h0 := store.nextHandle;
      var sampleRows := SampleRows(n, sample);
      var prepared := PrepareRows(sampleRows);
      if prepared.Err? {
        return Err(prepared.error);
      }
      var ok := OpenTxn();
      if !ok {
        return Err(StoreFailure);
      }
      ok := DeleteLoop(prepared.value.handles, prepared.value.rows, m0, h0);
      if !ok {
        return Err(StoreFailure);
      }
      r := Ok(EstimateTotal(store.Size(), n, sampleRows));
    }
  }

  /**
   * InsertRows(1000, 100) on a store whose third call fails: NewTxn and Txn succeed, the first
   * AddRecord fails, and nothing runs after it.
   */
  method InsertWithFailingFirstAdd(c: Core) returns (r: Result<int64>)
    requires c.Valid() && c.store.calls == 0 && c.store.failing == {2}
    modifies c, c.Repr, c.rng, c.store
    ensures r.Err?
    ensures AllSupported(c.cols) ==> r == Err(StoreFailure) && c.store.calls == 3
  {
    assert SampleRows(1000, 100) == 10;
    r := c.InsertRows(1000, 100);
  }
}
