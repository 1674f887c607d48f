/** The ledger as the web application and the document store hold it: a
    table of entries and a table of components, updated in place by one
    atomic commit per request. */
module LedgerDb {
  import opened Inventory
  import opened Reconcile

  /** The outcome a method reports and the state it leaves match what the
      reconciliation rules give for the state it started from: on success
      the new tables and the written row, on error the old tables. */
  predicate Reflects(before: Store, after: Store, res: Result<Commit, Error>, r: Result<nat, Error>) {
    match res
    case Ok(cm) => r == Ok(cm.entry) && after == cm.store
    case Err(e) => r == Err(e) && after == before
  }

  /** The ASCII characters `str.strip()` removes: space, tab, line feed,
      vertical tab, form feed, carriage return, and the four information
      separators U+001C to U+001F. */
  predicate IsSpace(ch: char) {
    || ch == ' ' || ch == '\t' || ch == '\n' || ch == '\U{000B}' || ch == '\U{000C}' || ch == '\r'
    || ('\U{001C}' <= ch <= '\U{001F}')
  }

  predicate AllSpace(s: string) {
    forall k :: 0 <= k < |s| ==> IsSpace(s[k])
  }

  /** The first position at or after i that does not hold whitespace, or
      |s| if there is none. */
  function SkipSpace(s: string, i: nat): (j: nat)
    requires i <= |s|
    ensures i <= j <= |s|
    ensures j == |s| || !IsSpace(s[j])
    ensures forall k :: i <= k < j ==> IsSpace(s[k])
    decreases |s| - i
  {
    if i < |s| && IsSpace(s[i]) then SkipSpace(s, i + 1) else i
  }

  /** The end of s[..j] once its trailing whitespace is dropped. */
  function SkipSpaceBack(s: string, j: nat): (e: nat)
    requires j <= |s|
    ensures e <= j
    ensures e == 0 || !IsSpace(s[e - 1])
    ensures forall k :: e <= k < j ==> IsSpace(s[k])
  {
    if j > 0 && IsSpace(s[j - 1]) then SkipSpaceBack(s, j - 1) else j
  }

  /** `str.strip()` as the transaction form applies it to campus, person,
      purpose and notes: s is some whitespace, then r, then some whitespace,
      and r neither starts nor ends with whitespace. */
  function Strip(s: string): (r: string)
    ensures r == [] || (!IsSpace(r[0]) && !IsSpace(r[|r| - 1]))
    ensures r == [] <==> AllSpace(s)
    ensures var lead := SkipSpace(s, 0);
      && lead + |r| <= |s| && r == s[lead..lead + |r|]
      && (forall k :: 0 <= k < lead ==> IsSpace(s[k]))
      && (forall k :: lead + |r| <= k < |s| ==> IsSpace(s[k]))
  {
    var lead := SkipSpace(s, 0);
    if lead == |s| then ""
    else s[lead..SkipSpaceBack(s, |s|)]
  }

  /** Stripping twice is stripping once. */
  lemma StripIdempotent(s: string)
    ensures Strip(Strip(s)) == Strip(s)
  {
  }

  /** The checks the transaction form runs before it calls the engine, in
      order; the first that fails is reported. Person and purpose arrive
      already stripped. */
  function Screen(components: map<ComponentId, Component>, componentId: Option<ComponentId>,
                  labId: string, person: string, purpose: string, qty: int): (e: Option<Error>)
    ensures e == Some(InvalidQuantity) <==> qty <= 0
    ensures e == Some(MissingLab) <==> qty > 0 && labId == ""
    ensures e == Some(MissingComponent) <==> qty > 0 && labId != "" && componentId.None?
    ensures e == Some(MissingPersonOrPurpose) <==>
      qty > 0 && labId != "" && componentId.Some? && (person == "" || purpose == "")
    ensures e == Some(ComponentNotFound) <==>
      qty > 0 && labId != "" && componentId.Some? && person != "" && purpose != "" && componentId.value !in components
    ensures e.None? <==>
      qty > 0 && labId != "" && componentId.Some? && person != "" && purpose != "" && componentId.value in components
  {
    if qty <= 0 then Some(InvalidQuantity)
    else if labId == "" then Some(MissingLab)
    else if componentId.None? then Some(MissingComponent)
    else if person == "" || purpose == "" then Some(MissingPersonOrPurpose)
    else if componentId.value !in components then Some(ComponentNotFound)
    else None
  }

  /** The key the transaction form hands to the engine: the lab id as sent,
      campus, person and purpose stripped. */
  function FormContext(component: ComponentId, labId: string, campus: string,
                       person: string, purpose: string): (ctx: Context)
    ensures ctx.component == component && ctx.lab == Some(labId)
    ensures ctx.campus == Some(Strip(campus)) && ctx.person == Strip(person) && ctx.purpose == Strip(purpose)
    ensures ctx.campus.value == Strip(ctx.campus.value) && ctx.person == Strip(ctx.person)
      && ctx.purpose == Strip(ctx.purpose)
    ensures ctx.person == "" <==> AllSpace(person)
  {
    StripIdempotent(campus);
    StripIdempotent(person);
    StripIdempotent(purpose);
    Context(component, Some(labId), Some(Strip(campus)), Strip(person), Strip(purpose))
  }

  /** Two form submissions reach the same key exactly when they name the
      same component and lab and agree on campus, person and purpose once
      stripped; " Bob" and "Bob " are the same borrower. */
  lemma FormContextAgrees(component: ComponentId, labId: string,
                          campus1: string, person1: string, purpose1: string,
                          campus2: string, person2: string, purpose2: string)
    ensures FormContext(component, labId, campus1, person1, purpose1)
        == FormContext(component, labId, campus2, person2, purpose2)
      <==> Strip(campus1) == Strip(campus2) && Strip(person1) == Strip(person2) && Strip(purpose1) == Strip(purpose2)
  {
  }

  /** Surrounding whitespace does not make a different borrower. */
  lemma PaddedNameStrips()
    ensures Strip(" Bob") == "Bob" && Strip("Bob ") == "Bob"
  {
    var s1, s2 := " Bob", "Bob ";
    assert !IsSpace(s1[1]) && IsSpace(s1[0]);
    assert SkipSpace(s1, 1) == 1;
    assert SkipSpace(s1, 0) == 1;
    assert SkipSpaceBack(s1, 4) == 4;
    assert !IsSpace(s2[0]) && IsSpace(s2[3]) && !IsSpace(s2[2]);
    assert SkipSpace(s2, 0) == 0;
    assert SkipSpaceBack(s2, 3) == 3;
    assert SkipSpaceBack(s2, 4) == 3;
  }

  /** A person or purpose made only of whitespace counts as missing. */
  lemma BlankIsMissing(components: map<ComponentId, Component>, componentId: Option<ComponentId>,
                       labId: string, person: string, purpose: string, qty: int)
    requires qty > 0 && labId != "" && componentId.Some?
    requires AllSpace(person) || AllSpace(purpose)
    ensures Screen(components, componentId, labId, Strip(person), Strip(purpose), qty) == Some(MissingPersonOrPurpose)
  {
  }

  class Ledger {
    var entries: seq<Entry>
    var components: map<ComponentId, Component>

    function Snapshot(): Store
      reads this
    {
      Store(entries, components)
    }

    /** Every row satisfies its invariant and each context has at most one
        open row. */
    ghost predicate Valid()
      reads this
    {
      LedgerValid(entries)
    }

    constructor (components: map<ComponentId, Component>)
      ensures Valid()
      ensures entries == [] && this.components == components
    {
      entries := [];
      this.components := components;
    }

    /** Issue qty units under ctx: grow the open row of ctx or open a new
        one, and take the units off the component's stock. */
    method Issue(ctx: Context, qty: int, notes: string) returns (r: Result<nat, Error>)
      requires Valid() && qty > 0 && ctx.component in components
      modifies this
      ensures Valid() && Evolves(old(entries), entries)
      ensures Reflects(old(Snapshot()), Snapshot(), ApplyIssue(old(Snapshot()), ctx, qty, notes), r)
    {
      ghost var before := Snapshot();
      var component := components[ctx.component];
      var currentStock := OrZero(component.quantity);
      if qty > currentStock {
        return Err(InsufficientStock(qty, currentStock));
      }
      assert currentStock == StockOf(before, ctx.component);
      var quantityAfter := currentStock - qty;
      var existing := FindOpen(entries, ctx);
      if existing.Some? {
        var i := existing.value;
        var e := entries[i];
        var newIssued := e.qtyIssued + qty;
        var pending := newIssued - e.qtyReturned;
        e := e.(qtyIssued := newIssued, pendingQty := pending, status := IssueStatus(e.qtyReturned, pending));
        e := e.(quantityBefore := currentStock, quantityAfter := quantityAfter, lastAction := IssueAction,
                transactionQuantity := qty);
        e := e.(notes := if notes != "" then notes else e.notes);
        assert e == IssueInto(before.entries[i], qty, currentStock, notes);
        entries := entries[i := e];
        r := Ok(i);
      } else {
        var e := Entry(ctx, qty, 0, qty, Issued, currentStock, quantityAfter, qty, IssueAction, notes);
        assert e == NewEntry(ctx, qty, currentStock, notes);
        entries := entries + [e];
        r := Ok(|entries| - 1);
      }
      components := components[ctx.component := component.(quantity := Some(quantityAfter))];
      ApplyIssuePreservesValid(before, ctx, qty, notes);
    }

    /** Return qty units under ctx against its open row, and put the units
        back on the component's stock. */
    method Return(ctx: Context, qty: int, notes: string) returns (r: Result<nat, Error>)
      requires Valid() && qty > 0 && ctx.component in components
      modifies this
      ensures Valid() && Evolves(old(entries), entries)
      ensures Reflects(old(Snapshot()), Snapshot(), ApplyReturn(old(Snapshot()), ctx, qty, notes), r)
    {
      ghost var before := Snapshot();
      var component := components[ctx.component];
      var currentStock := OrZero(component.quantity);
      var existing := FindOpen(entries, ctx);
      if existing.None? {
        return Err(NoMatchingTransaction);
      }
      var i := existing.value;
      var e := entries[i];
      var pending := e.qtyIssued - e.qtyReturned;
      if pending <= 0 {
        return Err(NothingPending);
      }
      if qty > pending {
        return Err(ExceedsPending(qty, pending));
      }
      assert currentStock == StockOf(before, ctx.component);
      var newReturned := e.qtyReturned + qty;
      var newPending := e.qtyIssued - newReturned;
      var quantityAfter := currentStock + qty;
      e := e.(qtyReturned := newReturned, pendingQty := newPending, status := ReturnStatus(newPending));
      e := e.(quantityBefore := currentStock, quantityAfter := quantityAfter, lastAction := ReturnAction,
              transactionQuantity := qty);
      e := e.(notes := e.notes + (if notes != "" then "\nReturn: " + notes else ""));
      assert e == ReturnInto(before.entries[i], qty, currentStock, notes);
      entries := entries[i := e];
      components := components[ctx.component := component.(quantity := Some(quantityAfter))];
      r := Ok(i);
      ApplyReturnPreservesValid(before, ctx, qty, notes);
    }

    /** The document-store issue: an empty lab or campus is stored and
        matched as absent, then the same rules apply. */
    method CreateIssue(component: ComponentId, lab: Option<string>, campus: Option<string>,
                       person: string, qty: int, purpose: string, notes: string) returns (r: Result<nat, Error>)
      requires Valid() && qty > 0 && component in components
      modifies this
      ensures Valid() && Evolves(old(entries), entries)
      ensures Reflects(old(Snapshot()), Snapshot(),
        ApplyIssue(old(Snapshot()), DocContext(component, lab, campus, person, purpose), qty, notes), r)
      ensures r.Ok? ==> entries[r.value].ctx.lab != Some("") && entries[r.value].ctx.campus != Some("")
    {
      r := Issue(DocContext(component, lab, campus, person, purpose), qty, notes);
    }

    /** The document-store return, keyed exactly as CreateIssue keys. */
    method AddReturn(component: ComponentId, lab: Option<string>, campus: Option<string>,
                     person: string, qty: int, purpose: string, notes: string) returns (r: Result<nat, Error>)
      requires Valid() && qty > 0 && component in components
      modifies this
      ensures Valid() && Evolves(old(entries), entries)
      ensures Reflects(old(Snapshot()), Snapshot(),
        ApplyReturn(old(Snapshot()), DocContext(component, lab, campus, person, purpose), qty, notes), r)
    {
      r := Return(DocContext(component, lab, campus, person, purpose), qty, notes);
    }

    /** The transaction form: strip campus, person, purpose and notes (the
        lab id is taken as sent), screen the request, then dispatch on its
        type. Lab and campus are passed to the engine as entered. */
    method AddTransaction(txType: string, componentId: Option<ComponentId>, labId: string, campus: string,
                          person: string, purpose: string, qty: int, notes: string) returns (r: Result<nat, Error>)
      requires Valid()
      modifies this
      ensures Valid() && Evolves(old(entries), entries)
      ensures var screened := Screen(old(components), componentId, labId, Strip(person), Strip(purpose), qty);
        && (screened.Some? ==> r == Err(screened.value) && Snapshot() == old(Snapshot()))
        && (screened.None? && txType != "issue" && txType != "return" ==>
              r == Err(InvalidTransactionType) && Snapshot() == old(Snapshot()))
        && (screened.None? && txType == "issue" ==>
              Reflects(old(Snapshot()), Snapshot(), ApplyIssue(old(Snapshot()),
                FormContext(componentId.value, labId, campus, person, purpose), qty, Strip(notes)), r))
        && (screened.None? && txType == "return" ==>
              Reflects(old(Snapshot()), Snapshot(), ApplyReturn(old(Snapshot()),
                FormContext(componentId.value, labId, campus, person, purpose), qty, Strip(notes)), r))
    {
      var screened := Screen(components, componentId, labId, Strip(person), Strip(purpose), qty);
      if screened.Some? {
        return Err(screened.value);
      }
      var ctx := FormContext(componentId.value, labId, campus, person, purpose);
      if txType == "issue" {
        r := Issue(ctx, qty, Strip(notes));
      } else if txType == "return" {
        r := Return(ctx, qty, Strip(notes));
      } else {
        r := Err(InvalidTransactionType);
      }
    }
  }
}
