/** The issue/return reconciliation rules, stated on values: one commit takes
    the ledger and the components table to their next state, or fails with a
    typed error and changes nothing. */
module Reconcile {
  import opened Inventory

  predicate IsOpen(e: Entry) {
    e.status == Issued || e.status == PartiallyReturned
  }

  /** A row is open exactly when its stored status is one of the names the
      lookup filters on. */
  lemma OpenByName(e: Entry)
    ensures IsOpen(e) <==> e.status.Name() in ["Issued", "Partially Returned"]
  {
  }

  predicate OpenFor(e: Entry, ctx: Context) {
    e.ctx == ctx && IsOpen(e)
  }

  /** The open-entry lookup: the first entry whose whole context equals ctx
      and whose status is Issued or Partially Returned. */
  function FindOpen(entries: seq<Entry>, ctx: Context): (r: Option<nat>)
    ensures r.Some? ==> r.value < |entries| && OpenFor(entries[r.value], ctx)
    ensures r.Some? ==> forall j :: 0 <= j < r.value ==> !OpenFor(entries[j], ctx)
    ensures r.None? <==> forall j :: 0 <= j < |entries| ==> !OpenFor(entries[j], ctx)
  {
    if |entries| == 0 then None
    else if OpenFor(entries[0], ctx) then Some(0)
    else match FindOpen(entries[1..], ctx)
      case None => None
      case Some(k) => Some(k + 1)
  }

  /** The status a row must carry, as a function of its two counters alone. */
  function StatusOf(issued: int, returned: int): Status {
    if issued - returned <= 0 then Completed
    else if returned == 0 then Issued
    else PartiallyReturned
  }

  /** The status an issue writes onto an existing open row. */
  function IssueStatus(returned: int, pending: int): Status {
    if returned == 0 then Issued
    else if pending <= 0 then Completed
    else PartiallyReturned
  }

  /** The status a return writes. */
  function ReturnStatus(pending: int): Status {
    if pending <= 0 then Completed else PartiallyReturned
  }

  /** The issue rule agrees with the counter-determined status exactly when
      the row is not an untouched row with nothing pending. */
  lemma IssueStatusAgrees(returned: int, pending: int)
    ensures IssueStatus(returned, pending) == StatusOf(returned + pending, returned)
        <==> (returned != 0 || pending > 0)
  {
  }

  /** After a return the counter-determined status is the one written. */
  lemma ReturnStatusAgrees(issued: int, returned: int)
    requires returned > 0
    ensures ReturnStatus(issued - returned) == StatusOf(issued, returned)
  {
  }

  /** Row invariant: pending is issued minus returned, the counters are
      ordered, and the status is the one the counters determine. */
  predicate EntryValid(e: Entry) {
    && 0 < e.qtyIssued
    && 0 <= e.qtyReturned <= e.qtyIssued
    && e.pendingQty == e.qtyIssued - e.qtyReturned
    && e.status == StatusOf(e.qtyIssued, e.qtyReturned)
  }

  /** At most one open row per context. */
  predicate AtMostOneOpen(entries: seq<Entry>) {
    forall i, j ::
      (0 <= i < |entries| && 0 <= j < |entries| &&
       IsOpen(entries[i]) && IsOpen(entries[j]) && entries[i].ctx == entries[j].ctx) ==> i == j
  }

  predicate LedgerValid(entries: seq<Entry>) {
    && (forall i :: 0 <= i < |entries| ==> EntryValid(entries[i]))
    && AtMostOneOpen(entries)
  }

  /** Rows are never removed, keep their context, their counters never
      decrease, and a Completed row is never touched again. */
  predicate Evolves(before: seq<Entry>, after: seq<Entry>) {
    && |before| <= |after|
    && forall i :: 0 <= i < |before| ==>
         (&& after[i].ctx == before[i].ctx
          && before[i].qtyIssued <= after[i].qtyIssued
          && before[i].qtyReturned <= after[i].qtyReturned
          && (before[i].status == Completed ==> after[i] == before[i]))
  }

  /** The stock a commit reads: a NULL quantity reads as zero. */
  function StockOf(st: Store, c: ComponentId): int {
    if c in st.components then OrZero(st.components[c].quantity) else 0
  }

  function SetStock(components: map<ComponentId, Component>, c: ComponentId, q: int): map<ComponentId, Component>
    requires c in components
  {
    components[c := components[c].(quantity := Some(q))]
  }

  /** What one successful commit leaves behind: the new state and the
      position of the row it wrote. */
  datatype Commit = Commit(store: Store, entry: nat)

  function NewEntry(ctx: Context, qty: int, stock: int, notes: string): Entry {
    Entry(ctx, qty, 0, qty, Issued, stock, stock - qty, qty, IssueAction, notes)
  }

  function IssueInto(e: Entry, qty: int, stock: int, notes: string): Entry {
    var issued := e.qtyIssued + qty;
    var pending := issued - e.qtyReturned;
    e.(qtyIssued := issued, pendingQty := pending, status := IssueStatus(e.qtyReturned, pending),
       quantityBefore := stock, quantityAfter := stock - qty, transactionQuantity := qty,
       lastAction := IssueAction, notes := if notes != "" then notes else e.notes)
  }

  function ReturnInto(e: Entry, qty: int, stock: int, notes: string): Entry {
    var returned := e.qtyReturned + qty;
    var pending := e.qtyIssued - returned;
    e.(qtyReturned := returned, pendingQty := pending, status := ReturnStatus(pending),
       quantityBefore := stock, quantityAfter := stock + qty, transactionQuantity := qty,
       lastAction := ReturnAction, notes := e.notes + (if notes != "" then "\nReturn: " + notes else ""))
  }

  /** Issue qty units of ctx.component under ctx. */
  function ApplyIssue(st: Store, ctx: Context, qty: int, notes: string): (r: Result<Commit, Error>)
    requires ctx.component in st.components
    ensures r.Err? <==> qty > StockOf(st, ctx.component)
    ensures r.Err? ==> r.error == InsufficientStock(qty, StockOf(st, ctx.component))
    ensures r.Ok? ==> r.value.store.components.Keys == st.components.Keys
    ensures r.Ok? ==> StockOf(r.value.store, ctx.component) == StockOf(st, ctx.component) - qty >= 0
    ensures r.Ok? ==> forall c :: c in st.components && c != ctx.component ==>
      r.value.store.components[c] == st.components[c]
    ensures r.Ok? ==> (r.value.store.components[ctx.component] ==
      st.components[ctx.component].(quantity := Some(StockOf(r.value.store, ctx.component))))
    ensures r.Ok? ==> r.value.entry < |r.value.store.entries| && r.value.store.entries[r.value.entry].ctx == ctx
  {
    var stock := StockOf(st, ctx.component);
    if qty > stock then Err(InsufficientStock(qty, stock))
    else
      var components := SetStock(st.components, ctx.component, stock - qty);
      match FindOpen(st.entries, ctx)
      case Some(i) =>
        Ok(Commit(Store(st.entries[i := IssueInto(st.entries[i], qty, stock, notes)], components), i))
      case None =>
        Ok(Commit(Store(st.entries + [NewEntry(ctx, qty, stock, notes)], components), |st.entries|))
  }

  /** Return qty units of ctx.component against the open row of ctx. */
  function ApplyReturn(st: Store, ctx: Context, qty: int, notes: string): (r: Result<Commit, Error>)
    requires ctx.component in st.components
    ensures r == Err(NoMatchingTransaction) <==> FindOpen(st.entries, ctx).None?
    ensures r.Ok? ==> r.value.store.components.Keys == st.components.Keys
    ensures r.Ok? ==> StockOf(r.value.store, ctx.component) == StockOf(st, ctx.component) + qty
    ensures r.Ok? ==> forall c :: c in st.components && c != ctx.component ==>
      r.value.store.components[c] == st.components[c]
    ensures r.Ok? ==> (r.value.store.components[ctx.component] ==
      st.components[ctx.component].(quantity := Some(StockOf(r.value.store, ctx.component))))
    ensures r.Ok? ==> Some(r.value.entry) == FindOpen(st.entries, ctx)
  {
    var stock := StockOf(st, ctx.component);
    match FindOpen(st.entries, ctx)
    case None => Err(NoMatchingTransaction)
    case Some(i) =>
      var pending := st.entries[i].qtyIssued - st.entries[i].qtyReturned;
      if pending <= 0 then Err(NothingPending)
      else if qty > pending then Err(ExceedsPending(qty, pending))
      else
        Ok(Commit(Store(st.entries[i := ReturnInto(st.entries[i], qty, stock, notes)],
                        SetStock(st.components, ctx.component, stock + qty)), i))
  }

  // ---------------------------------------------------------------------
  // Properties of one commit
  // ---------------------------------------------------------------------

  /** Under the one-open-row invariant the lookup finds the open row of the
      context, whichever it is. */
  lemma FindOpenUnique(entries: seq<Entry>, ctx: Context, j: nat)
    requires AtMostOneOpen(entries)
    requires j < |entries| && OpenFor(entries[j], ctx)
    ensures FindOpen(entries, ctx) == Some(j)
  {
  }

  /** An issue on a context without an open row appends a fresh row: issued
      and pending are qty, nothing returned, status Issued, and the stock
      snapshot is the stock before and after the issue. */
  lemma IssueCreatesEntry(st: Store, ctx: Context, qty: int, notes: string)
    requires ctx.component in st.components
    requires qty <= StockOf(st, ctx.component)
    requires FindOpen(st.entries, ctx).None?
    ensures ApplyIssue(st, ctx, qty, notes).Ok?
    ensures var cm := ApplyIssue(st, ctx, qty, notes).value;
      && cm.entry == |st.entries|
      && cm.store.entries[..|st.entries|] == st.entries
      && |cm.store.entries| == |st.entries| + 1
      && var e := cm.store.entries[cm.entry];
         && e.ctx == ctx && e.qtyIssued == qty && e.qtyReturned == 0 && e.pendingQty == qty
         && e.status == Issued && e.lastAction == IssueAction && e.notes == notes
         && e.quantityBefore == StockOf(st, ctx.component)
         && e.quantityAfter == StockOf(st, ctx.component) - qty
         && e.transactionQuantity == qty
  {
    var cm := ApplyIssue(st, ctx, qty, notes).value;
    assert cm.store.entries == st.entries + [NewEntry(ctx, qty, StockOf(st, ctx.component), notes)];
  }

  /** An issue on a context with an open row grows that row in place:
      issued grows by qty, returned is kept, pending is recomputed, the
      status stays Issued while nothing was returned, and the notes are
      replaced only by non-empty notes. No other row changes. */
  lemma IssueGrowsEntry(st: Store, ctx: Context, qty: int, notes: string, i: nat)
    requires ctx.component in st.components
    requires qty <= StockOf(st, ctx.component)
    requires FindOpen(st.entries, ctx) == Some(i)
    ensures ApplyIssue(st, ctx, qty, notes).Ok?
    ensures var cm := ApplyIssue(st, ctx, qty, notes).value;
      && cm.entry == i
      && |cm.store.entries| == |st.entries|
      && (forall j :: 0 <= j < |st.entries| && j != i ==> cm.store.entries[j] == st.entries[j])
      && var old_e, e := st.entries[i], cm.store.entries[i];
         && e.ctx == ctx
         && e.qtyIssued == old_e.qtyIssued + qty
         && e.qtyReturned == old_e.qtyReturned
         && e.pendingQty == e.qtyIssued - e.qtyReturned
         && (old_e.qtyReturned == 0 ==> e.status == Issued)
         && (old_e.qtyReturned != 0 ==> e.status == (if e.pendingQty <= 0 then Completed else PartiallyReturned))
         && e.notes == (if notes == "" then old_e.notes else notes)
         && e.quantityBefore == StockOf(st, ctx.component)
         && e.quantityAfter == StockOf(st, ctx.component) - qty
         && e.transactionQuantity == qty
         && e.lastAction == IssueAction
  {
  }

  /** The three ways a return fails, each tied to its cause, and success
      exactly when none of them applies. */
  lemma ReturnErrors(st: Store, ctx: Context, qty: int, notes: string)
    requires ctx.component in st.components
    ensures var r, found := ApplyReturn(st, ctx, qty, notes), FindOpen(st.entries, ctx);
      && (r == Err(NoMatchingTransaction) <==> found.None?)
      && (found.Some? ==>
            var pending := st.entries[found.value].qtyIssued - st.entries[found.value].qtyReturned;
            && (r == Err(NothingPending) <==> pending <= 0)
            && (r == Err(ExceedsPending(qty, pending)) <==> 0 < pending < qty)
            && (r.Ok? <==> 0 < pending && qty <= pending))
  {
  }

  /** A successful return raises returned by qty on the open row, keeps
      pending equal to issued minus returned, completes the row exactly when
      nothing is left pending, appends the return note to the notes, and
      records the stock before and after the return. */
  lemma ReturnUpdatesEntry(st: Store, ctx: Context, qty: int, notes: string)
    requires ctx.component in st.components
    requires ApplyReturn(st, ctx, qty, notes).Ok?
    ensures var cm := ApplyReturn(st, ctx, qty, notes).value;
      && |cm.store.entries| == |st.entries|
      && (forall j :: 0 <= j < |st.entries| && j != cm.entry ==> cm.store.entries[j] == st.entries[j])
      && var old_e, e := st.entries[cm.entry], cm.store.entries[cm.entry];
         && e.ctx == ctx
         && e.qtyIssued == old_e.qtyIssued
         && e.qtyReturned == old_e.qtyReturned + qty
         && e.pendingQty == e.qtyIssued - e.qtyReturned
         && (e.status == Completed <==> e.pendingQty <= 0)
         && (e.status != Completed ==> e.status == PartiallyReturned)
         && old_e.notes <= e.notes
         && e.notes == old_e.notes + (if notes == "" then "" else "\nReturn: " + notes)
         && e.quantityBefore == StockOf(st, ctx.component)
         && e.quantityAfter == StockOf(st, ctx.component) + qty
         && e.transactionQuantity == qty
         && e.lastAction == ReturnAction
  {
  }

  /** Under the one-open-row invariant, the row the lookup finds is the only
      open row of its context. */
  lemma OnlyOpenRow(entries: seq<Entry>, ctx: Context, i: nat)
    requires AtMostOneOpen(entries)
    requires FindOpen(entries, ctx) == Some(i)
    ensures forall j :: 0 <= j < |entries| && j != i ==> !OpenFor(entries[j], ctx)
  {
  }

  /** Every issue keeps the ledger invariant. */
  lemma ApplyIssuePreservesValid(st: Store, ctx: Context, qty: int, notes: string)
    requires ctx.component in st.components
    requires qty > 0 && LedgerValid(st.entries)
    ensures var r := ApplyIssue(st, ctx, qty, notes);
      r.Ok? ==> LedgerValid(r.value.store.entries) && Evolves(st.entries, r.value.store.entries)
  {
    var r := ApplyIssue(st, ctx, qty, notes);
    if r.Ok? {
      var stock := StockOf(st, ctx.component);
      var es := r.value.store.entries;
      match FindOpen(st.entries, ctx)
      case Some(i) =>
        var e := IssueInto(st.entries[i], qty, stock, notes);
        assert es == st.entries[i := e];
        assert EntryValid(st.entries[i]);
        OnlyOpenRow(st.entries, ctx, i);
      case None =>
        var e := NewEntry(ctx, qty, stock, notes);
        assert es == st.entries + [e];
    }
  }

  /** Every return keeps the ledger invariant. */
  lemma ApplyReturnPreservesValid(st: Store, ctx: Context, qty: int, notes: string)
    requires ctx.component in st.components
    requires qty > 0 && LedgerValid(st.entries)
    ensures var r := ApplyReturn(st, ctx, qty, notes);
      r.Ok? ==> LedgerValid(r.value.store.entries) && Evolves(st.entries, r.value.store.entries)
  {
    var r := ApplyReturn(st, ctx, qty, notes);
    if r.Ok? {
      var i := r.value.entry;
      var es := r.value.store.entries;
      var e := ReturnInto(st.entries[i], qty, StockOf(st, ctx.component), notes);
      assert es == st.entries[i := e];
      assert EntryValid(st.entries[i]);
      OnlyOpenRow(st.entries, ctx, i);
    }
  }

  /** On a valid ledger the open row always has something pending, so a
      return never fails with NothingPending. */
  lemma NothingPendingUnreachable(st: Store, ctx: Context, qty: int, notes: string)
    requires ctx.component in st.components
    requires LedgerValid(st.entries)
    ensures ApplyReturn(st, ctx, qty, notes) != Err(NothingPending)
  {
    match FindOpen(st.entries, ctx)
    case None =>
    case Some(i) =>
      assert EntryValid(st.entries[i]);
  }

  /** An issue followed by a return of the same quantity on the same context
      is always accepted and gives the stock back; on a context that had no
      open row the row it created ends Completed. */
  lemma IssueThenReturnRestoresStock(st: Store, ctx: Context, qty: int, issueNotes: string, returnNotes: string)
    requires ctx.component in st.components
    requires qty > 0 && LedgerValid(st.entries)
    requires ApplyIssue(st, ctx, qty, issueNotes).Ok?
    ensures var st1 := ApplyIssue(st, ctx, qty, issueNotes).value.store;
      && ApplyReturn(st1, ctx, qty, returnNotes).Ok?
      && StockOf(ApplyReturn(st1, ctx, qty, returnNotes).value.store, ctx.component) == StockOf(st, ctx.component)
      && (FindOpen(st.entries, ctx).None? ==>
            var cm := ApplyReturn(st1, ctx, qty, returnNotes).value;
            cm.entry == |st.entries| && cm.store.entries[cm.entry].status == Completed)
  {
    var cm1 := ApplyIssue(st, ctx, qty, issueNotes).value;
    var st1 := cm1.store;
    var i := cm1.entry;
    ApplyIssuePreservesValid(st, ctx, qty, issueNotes);
    var e := st1.entries[i];
    match FindOpen(st.entries, ctx)
    case Some(j) =>
      assert i == j;
      assert e == IssueInto(st.entries[j], qty, StockOf(st, ctx.component), issueNotes);
      assert EntryValid(st.entries[j]);
    case None =>
      assert e == NewEntry(ctx, qty, StockOf(st, ctx.component), issueNotes);
    assert OpenFor(e, ctx);
    FindOpenUnique(st1.entries, ctx, i);
    assert e.qtyIssued - e.qtyReturned >= qty;
  }

  /** Once a return completes a row, the next issue on the same context opens
      a brand-new row in state Issued and leaves the completed one as it was. */
  lemma ReopenAfterCompletion(st: Store, ctx: Context, qty: int, notes: string, qty2: int, notes2: string)
    requires ctx.component in st.components
    requires qty > 0 && LedgerValid(st.entries)
    requires ApplyReturn(st, ctx, qty, notes).Ok?
    requires var cm := ApplyReturn(st, ctx, qty, notes).value;
      cm.store.entries[cm.entry].status == Completed
    requires qty2 <= StockOf(ApplyReturn(st, ctx, qty, notes).value.store, ctx.component)
    ensures var cm := ApplyReturn(st, ctx, qty, notes).value;
      var cm2 := ApplyIssue(cm.store, ctx, qty2, notes2);
      && cm2.Ok?
      && cm2.value.entry == |st.entries|
      && cm2.value.store.entries[cm.entry] == cm.store.entries[cm.entry]
      && cm2.value.store.entries[cm2.value.entry].status == Issued
  {
    var cm := ApplyReturn(st, ctx, qty, notes).value;
    var es := cm.store.entries;
    var i := cm.entry;
    OnlyOpenRow(st.entries, ctx, i);
    assert forall j :: 0 <= j < |es| && j != i ==> es[j] == st.entries[j];
    IssueCreatesEntry(cm.store, ctx, qty2, notes2);
  }
}
