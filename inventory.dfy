/** The records the reconciliation engine works on: components, the borrowing
    context that keys a ledger entry, ledger entries, and the typed errors the
    engine and its caller raise. */
module Inventory {

  datatype Option<+T> = None | Some(value: T)

  datatype Result<+T, +E> = Ok(value: T) | Err(error: E)

  type ComponentId = nat

  /** The key that identifies one borrowing relationship. Lab and campus are
      optional: an absent value matches only an absent value. */
  datatype Context = Context(
    component: ComponentId,
    lab: Option<string>,
    campus: Option<string>,
    person: string,
    purpose: string)

  datatype Status = Issued | PartiallyReturned | Completed {
    /** The value stored in the status column. */
    function Name(): string {
      match this
      case Issued => "Issued"
      case PartiallyReturned => "Partially Returned"
      case Completed => "Completed"
    }
  }

  datatype Action = IssueAction | ReturnAction

  /** One ledger row. Timestamps are not modelled; the row's identity is its
      position in the ledger. */
  datatype Entry = Entry(
    ctx: Context,
    qtyIssued: int,
    qtyReturned: int,
    pendingQty: int,
    status: Status,
    quantityBefore: int,
    quantityAfter: int,
    transactionQuantity: int,
    lastAction: Action,
    notes: string)

  datatype StockState = OutOfStock | LowStock | InStock {
    function Label(): string {
      match this
      case OutOfStock => "Out of Stock"
      case LowStock => "Low Stock"
      case InStock => "In Stock"
    }

    function CssClass(): string {
      match this
      case OutOfStock => "out"
      case LowStock => "low"
      case InStock => "instock"
    }
  }

  /** A component row. Quantity and threshold may be NULL in the store;
      stockState is the display attribute the classifier attaches. */
  datatype Component = Component(
    quantity: Option<int>,
    minStockLevel: Option<int>,
    stockState: Option<StockState>)

  datatype Error =
    | InvalidQuantity
    | MissingLab
    | MissingComponent
    | MissingPersonOrPurpose
    | ComponentNotFound
    | InvalidTransactionType
    | InsufficientStock(requested: int, available: int)
    | NoMatchingTransaction
    | NothingPending
    | ExceedsPending(requested: int, pending: int)

  /** The persistent state one commit reads and writes: the ledger table and
      the components table. */
  datatype Store = Store(entries: seq<Entry>, components: map<ComponentId, Component>)

  /** Python's `x or 0` on an optional integer. */
  function OrZero(q: Option<int>): int {
    if q.Some? then q.value else 0
  }

  /** `x or None` on an optional string: the empty string becomes absent. */
  function Normalize(s: Option<string>): (r: Option<string>)
    ensures r != Some("")
    ensures r == None <==> (s == None || s == Some(""))
    ensures r.Some? ==> r == s
  {
    if s == Some("") then None else s
  }

  /** The key the document-store variant matches and stores: empty lab and
      campus are normalised to absent. */
  function DocContext(component: ComponentId, lab: Option<string>, campus: Option<string>,
                      person: string, purpose: string): (ctx: Context)
    ensures ctx.lab != Some("") && ctx.campus != Some("")
    ensures ctx.component == component && ctx.person == person && ctx.purpose == purpose
  {
    Context(component, Normalize(lab), Normalize(campus), person, purpose)
  }

  /** Two raw keys reach the same stored key exactly when they agree once an
      empty lab or campus is read as absent. */
  lemma DocContextAgrees(c: ComponentId, lab1: Option<string>, campus1: Option<string>,
                         lab2: Option<string>, campus2: Option<string>, person: string, purpose: string)
    ensures DocContext(c, lab1, campus1, person, purpose) == DocContext(c, lab2, campus2, person, purpose)
        <==> ((lab1 == lab2 || (lab1 in {None, Some("")} && lab2 in {None, Some("")}))
           && (campus1 == campus2 || (campus1 in {None, Some("")} && campus2 in {None, Some("")})))
  {
  }
}
