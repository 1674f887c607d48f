/** Stock conservation: units are only ever moved between the shelf and the
    borrowers, never created or lost, over any stream of issue and return
    requests. */
module Conservation {
  import opened Inventory
  import opened Reconcile

  /** Units of component c that row e has out on loan. */
  function Loan(e: Entry, c: ComponentId): int {
    if e.ctx.component == c then e.qtyIssued - e.qtyReturned else 0
  }

  /** Units of component c out on loan according to the whole ledger. */
  function Outstanding(entries: seq<Entry>, c: ComponentId): int {
    if |entries| == 0 then 0
    else Outstanding(entries[..|entries| - 1], c) + Loan(entries[|entries| - 1], c)
  }

  lemma {:induction false} OutstandingAppend(entries: seq<Entry>, e: Entry, c: ComponentId)
    ensures Outstanding(entries + [e], c) == Outstanding(entries, c) + Loan(e, c)
  {
    assert (entries + [e])[..|entries|] == entries;
  }

  lemma {:induction false} OutstandingUpdate(entries: seq<Entry>, i: nat, e: Entry, c: ComponentId)
    requires i < |entries|
    ensures Outstanding(entries[i := e], c) == Outstanding(entries, c) - Loan(entries[i], c) + Loan(e, c)
  {
    var n := |entries| - 1;
    if i == n {
      assert entries[i := e][..n] == entries[..n];
    } else {
      assert entries[i := e][..n] == entries[..n][i := e];
      OutstandingUpdate(entries[..n], i, e, c);
    }
  }

  /** Everything the lab owns of component c: on the shelf plus on loan. */
  function Holding(st: Store, c: ComponentId): int {
    StockOf(st, c) + Outstanding(st.entries, c)
  }

  /** An accepted issue moves qty units from the shelf to the borrower. */
  lemma IssueConserves(st: Store, ctx: Context, qty: int, notes: string, c: ComponentId)
    requires ctx.component in st.components
    ensures var r := ApplyIssue(st, ctx, qty, notes);
      r.Ok? ==> Holding(r.value.store, c) == Holding(st, c)
  {
    var r := ApplyIssue(st, ctx, qty, notes);
    if r.Ok? {
      var stock := StockOf(st, ctx.component);
      match FindOpen(st.entries, ctx)
      case Some(i) =>
        OutstandingUpdate(st.entries, i, IssueInto(st.entries[i], qty, stock, notes), c);
      case None =>
        OutstandingAppend(st.entries, NewEntry(ctx, qty, stock, notes), c);
    }
  }

  /** An accepted return moves qty units from the borrower back to the shelf. */
  lemma ReturnConserves(st: Store, ctx: Context, qty: int, notes: string, c: ComponentId)
    requires ctx.component in st.components
    ensures var r := ApplyReturn(st, ctx, qty, notes);
      r.Ok? ==> Holding(r.value.store, c) == Holding(st, c)
  {
    var r := ApplyReturn(st, ctx, qty, notes);
    if r.Ok? {
      var i := r.value.entry;
      OutstandingUpdate(st.entries, i, ReturnInto(st.entries[i], qty, StockOf(st, ctx.component), notes), c);
    }
  }

  /** One request as the web layer hands it to the engine. */
  datatype Request =
    | IssueRequest(ctx: Context, qty: int, notes: string)
    | ReturnRequest(ctx: Context, qty: int, notes: string)

  /** The engine's answer to one request. */
  function Answer(st: Store, req: Request): Result<Commit, Error>
    requires req.ctx.component in st.components
  {
    match req
    case IssueRequest(ctx, qty, notes) => ApplyIssue(st, ctx, qty, notes)
    case ReturnRequest(ctx, qty, notes) => ApplyReturn(st, ctx, qty, notes)
  }

  /** One atomic commit: the new state on success, the old one on any error. */
  function Next(st: Store, req: Request): (st': Store)
    requires req.ctx.component in st.components
    ensures st'.components.Keys == st.components.Keys
  {
    var r := Answer(st, req);
    if r.Ok? then r.value.store else st
  }

  predicate Targets(st: Store, reqs: seq<Request>) {
    forall k :: 0 <= k < |reqs| ==> reqs[k].ctx.component in st.components
  }

  /** Serves the requests one after another. */
  function Run(st: Store, reqs: seq<Request>): (st': Store)
    requires Targets(st, reqs)
    ensures st'.components.Keys == st.components.Keys
    decreases |reqs|
  {
    if |reqs| == 0 then st else Run(Next(st, reqs[0]), reqs[1..])
  }

  /** Units of component c that the accepted requests took off the shelf:
      issued minus returned. Rejected requests move nothing. */
  function NetOut(st: Store, reqs: seq<Request>, c: ComponentId): int
    requires Targets(st, reqs)
    decreases |reqs|
  {
    if |reqs| == 0 then 0
    else
      var moved := if Answer(st, reqs[0]).Ok? && reqs[0].ctx.component == c
                   then (if reqs[0].IssueRequest? then reqs[0].qty else -reqs[0].qty)
                   else 0;
      moved + NetOut(Next(st, reqs[0]), reqs[1..], c)
  }

  /** Shelf plus loans of every component is the same after any stream of
      requests, accepted or rejected. */
  lemma {:induction false} RunConserves(st: Store, reqs: seq<Request>, c: ComponentId)
    requires Targets(st, reqs)
    ensures Holding(Run(st, reqs), c) == Holding(st, c)
    decreases |reqs|
  {
    if |reqs| > 0 {
      match reqs[0] {
        case IssueRequest(ctx, qty, notes) => IssueConserves(st, ctx, qty, notes, c);
        case ReturnRequest(ctx, qty, notes) => ReturnConserves(st, ctx, qty, notes, c);
      }
      RunConserves(Next(st, reqs[0]), reqs[1..], c);
    }
  }

  /** The stock of c after a stream of requests is its initial stock minus
      the units accepted issues took out plus those accepted returns brought
      back. */
  lemma {:induction false} RunStock(st: Store, reqs: seq<Request>, c: ComponentId)
    requires Targets(st, reqs)
    ensures StockOf(Run(st, reqs), c) == StockOf(st, c) - NetOut(st, reqs, c)
    decreases |reqs|
  {
    if |reqs| > 0 {
      RunStock(Next(st, reqs[0]), reqs[1..], c);
    }
  }

  /** The ledger invariant holds after any stream of positive-quantity
      requests, and no row ever loses history. */
  lemma {:induction false} RunPreservesValid(st: Store, reqs: seq<Request>)
    requires Targets(st, reqs)
    requires forall k :: 0 <= k < |reqs| ==> reqs[k].qty > 0
    requires LedgerValid(st.entries)
    ensures LedgerValid(Run(st, reqs).entries)
    ensures Evolves(st.entries, Run(st, reqs).entries)
    decreases |reqs|
  {
    if |reqs| > 0 {
      var st1 := Next(st, reqs[0]);
      match reqs[0] {
        case IssueRequest(ctx, qty, notes) => ApplyIssuePreservesValid(st, ctx, qty, notes);
        case ReturnRequest(ctx, qty, notes) => ApplyReturnPreservesValid(st, ctx, qty, notes);
      }
      RunPreservesValid(st1, reqs[1..]);
      EvolvesTransitive(st.entries, st1.entries, Run(st1, reqs[1..]).entries);
    }
  }

  lemma EvolvesTransitive(a: seq<Entry>, b: seq<Entry>, c: seq<Entry>)
    requires Evolves(a, b) && Evolves(b, c)
    ensures Evolves(a, c)
  {
  }
}
