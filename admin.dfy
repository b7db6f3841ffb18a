/** The deposit-request admin: which fields the change form leaves
    read-only, and what saving the form does to the deposit, the credit's
    balance and the transaction log. */
module Admin {
  import opened Models
  import opened Ledger
  import opened Store

  datatype DepositField = CreditField | AmountField | StatusField | CreatedAtField | UpdatedAtField

  /** Read-only on every deposit. */
  const BaseReadonly: seq<DepositField> := [CreditField, AmountField, CreatedAtField, UpdatedAtField]

  /** The read-only fields of the form for `obj` (None on the add form):
      the base list, plus the status once the deposit is APPROVED. */
  function ReadonlyFields(obj: Option<Deposit>): (r: seq<DepositField>)
    ensures |r| >= |BaseReadonly| && r[..|BaseReadonly|] == BaseReadonly
    ensures StatusField in r <==> obj.Some? && obj.value.status == Approved
    ensures forall f :: f in r ==> f in BaseReadonly || f == StatusField
  {
    if obj.Some? && obj.value.status == Approved then BaseReadonly + [StatusField] else BaseReadonly
  }

  /** The status a saved change form leaves on `prior`: the submitted one,
      unless the status field is read-only, in which case it keeps its
      stored value. */
  function EditedStatus(prior: Deposit, submitted: Status): (st: Status)
    ensures prior.status == Approved ==> st == Approved
    ensures prior.status != Approved ==> st == submitted
  {
    if StatusField in ReadonlyFields(Some(prior)) then prior.status else submitted
  }

  /** APPROVED is terminal: no sequence of admin edits leaves it. */
  function EditAll(d: Deposit, submitted: seq<Status>): Deposit
    decreases |submitted|
  {
    if submitted == [] then d else EditAll(d.(status := EditedStatus(d, submitted[0])), submitted[1..])
  }

  lemma {:induction false} ApprovedIsTerminal(d: Deposit, submitted: seq<Status>)
    requires d.status == Approved
    ensures EditAll(d, submitted) == d
  {
    if submitted != [] {
      assert d.(status := EditedStatus(d, submitted[0])) == d;
      ApprovedIsTerminal(d, submitted[1..]);
    }
  }

  datatype AdminError = NoSuchDeposit | Overflow

  /** The save credits the balance exactly when it moves the deposit into
      APPROVED. */
  predicate CreditsOnSave(prior: Status, saved: Status)
  {
    saved == Approved && prior != Approved
  }

  /** As written, the save credits the balance whenever the saved status
      is APPROVED, whatever it was before. */
  predicate CreditsOnSaveAsWritten(saved: Status)
  {
    saved == Approved
  }

  /** Moving one deposit into APPROVED together with one DEPOSIT entry of
      its amount keeps the deposit totals reconciled. */
  lemma ApprovalKeepsReconciled(log: seq<LogEntry>, ds: seq<Deposit>, keys: set<CreditId>, i: nat)
    requires Reconciled(log, ds, keys)
    requires i < |ds| && ds[i].status != Approved
    ensures Reconciled(log + [LogEntry(ds[i].credit, ds[i].amount, DepositLog)], ds[i := ds[i].(status := Approved)], keys)
  {
    var e := LogEntry(ds[i].credit, ds[i].amount, DepositLog);
    forall c | c in keys
      ensures SumOfType(log + [e], c, DepositLog) == ApprovedTotal(ds[i := ds[i].(status := Approved)], c)
    {
      SumOfTypeAppend(log, e, c, DepositLog);
      ApprovedTotalUpdate(ds, i, ds[i].(status := Approved), c);
    }
  }

  /** A status change that neither enters nor leaves APPROVED keeps the
      deposit totals reconciled. */
  lemma StatusChangeKeepsReconciled(log: seq<LogEntry>, ds: seq<Deposit>, keys: set<CreditId>, i: nat, st: Status)
    requires Reconciled(log, ds, keys)
    requires i < |ds| && (ds[i].status == Approved <==> st == Approved)
    ensures Reconciled(log, ds[i := ds[i].(status := st)], keys)
  {
    forall c | c in keys
      ensures ApprovedTotal(ds[i := ds[i].(status := st)], c) == ApprovedTotal(ds, c)
    {
      ApprovedTotalUpdate(ds, i, ds[i].(status := st), c);
    }
  }

  /** The credit, log and deposit tables a save touches. */
  datatype Tables = Tables(credits: map<CreditId, Credit>, log: seq<LogEntry>, deposits: seq<Deposit>)

  /** What saving deposit `id` with status `status` leaves in the tables:
      when `credited`, first its credit's balance goes up by its amount
      (refused if the column overflows) and one DEPOSIT entry is logged;
      then the row is stored with the new status. */
  function ApplySave(t: Tables, id: DepositId, status: Status, credited: bool): (r: Result<Tables, AdminError>)
    requires id < |t.deposits| && t.deposits[id].credit in t.credits
    ensures r.Err? <==> credited && !FitsBalanceField(t.credits[t.deposits[id].credit].balance + t.deposits[id].amount)
    ensures r.Ok? ==> |r.value.deposits| == |t.deposits| && r.value.deposits[id].status == status &&
                      forall j :: 0 <= j < |t.deposits| && j != id ==> r.value.deposits[j] == t.deposits[j]
    ensures r.Ok? && !credited ==> r.value.credits == t.credits && r.value.log == t.log
    ensures r.Ok? && credited ==>
              r.value.credits.Keys == t.credits.Keys &&
              r.value.credits[t.deposits[id].credit] ==
                t.credits[t.deposits[id].credit].(balance := t.credits[t.deposits[id].credit].balance + t.deposits[id].amount) &&
              (forall c :: c in t.credits && c != t.deposits[id].credit ==> r.value.credits[c] == t.credits[c]) &&
              r.value.log == t.log + [LogEntry(t.deposits[id].credit, t.deposits[id].amount, DepositLog)]
  {
    var d := t.deposits[id];
    var balance := t.credits[d.credit].balance + d.amount;
    if credited && !FitsBalanceField(balance) then Err(Overflow)
    else if credited then
      Ok(Tables(t.credits[d.credit := t.credits[d.credit].(balance := balance)],
                t.log + [LogEntry(d.credit, d.amount, DepositLog)],
                t.deposits[id := d.(status := status)]))
    else Ok(Tables(t.credits, t.log, t.deposits[id := d.(status := status)]))
  }

  /** Ledger equality and range, and every deposit row names a credit
      and carries a positive amount. */
  ghost predicate Sane(t: Tables)
  {
    && LedgerHolds(t.credits, t.log)
    && (forall i :: 0 <= i < |t.deposits| ==> t.deposits[i].credit in t.credits && t.deposits[i].amount > 0)
  }

  /** Sane, and the deposit totals reconciled with the log. */
  ghost predicate Consistent(t: Tables)
  {
    Sane(t) && Reconciled(t.log, t.deposits, t.credits.Keys)
  }

  /** The save as intended keeps every table invariant, and only the saved
      deposit's credit moves, by that deposit's amount, exactly when the
      deposit enters APPROVED. */
  lemma SaveKeepsConsistent(t: Tables, id: DepositId, submitted: Status)
    requires Consistent(t) && id < |t.deposits|
    ensures var prior := t.deposits[id];
            var status := EditedStatus(prior, submitted);
            var r := ApplySave(t, id, status, CreditsOnSave(prior.status, status));
            r.Ok? ==> Consistent(r.value) && r.value.credits.Keys == t.credits.Keys &&
                      r.value.credits[prior.credit].balance ==
                        t.credits[prior.credit].balance + (if CreditsOnSave(prior.status, status) then prior.amount else 0)
  {
    var prior := t.deposits[id];
    var status := EditedStatus(prior, submitted);
    var credited := CreditsOnSave(prior.status, status);
    var r := ApplySave(t, id, status, credited);
    if r.Ok? {
      if credited {
        DepositKeepsLedger(t.credits, t.log, prior.credit, prior.amount);
        ApprovalKeepsReconciled(t.log, t.deposits, t.credits.Keys, id);
      } else {
        StatusChangeKeepsReconciled(t.log, t.deposits, t.credits.Keys, id, status);
      }
    }
  }

  /** Saving a deposit that is already APPROVED, as intended, changes
      nothing at all. */
  lemma ResaveIsNoOp(t: Tables, id: DepositId, submitted: Status)
    requires Sane(t) && id < |t.deposits| && t.deposits[id].status == Approved
    ensures var status := EditedStatus(t.deposits[id], submitted);
            ApplySave(t, id, status, CreditsOnSave(t.deposits[id].status, status)) == Ok(t)
  {
    assert t.deposits[id := t.deposits[id].(status := Approved)] == t.deposits;
  }

  /** As written, re-saving a deposit that is already APPROVED credits its
      amount again and logs it a second time while the approved total stays
      the same, so the deposit totals no longer agree for its credit. */
  lemma ResaveBreaksReconciled(t: Tables, id: DepositId, submitted: Status)
    requires Consistent(t) && id < |t.deposits| && t.deposits[id].status == Approved
    ensures var d := t.deposits[id];
            var r := ApplySave(t, id, EditedStatus(d, submitted), CreditsOnSaveAsWritten(EditedStatus(d, submitted)));
            r.Ok? ==> r.value.credits[d.credit].balance == t.credits[d.credit].balance + d.amount &&
                      !Reconciled(r.value.log, r.value.deposits, r.value.credits.Keys)
  {
    var d := t.deposits[id];
    assert t.deposits[id := d.(status := Approved)] == t.deposits;
    SumOfTypeAppend(t.log, LogEntry(d.credit, d.amount, DepositLog), d.credit, DepositLog);
  }

  /** Whichever rule decides the crediting, as written or as intended, the
      save keeps each balance equal to its deposits minus its sales and
      within range, and every deposit row valid. */
  lemma SaveKeepsSane(t: Tables, id: DepositId, status: Status, credited: bool)
    requires Sane(t) && id < |t.deposits|
    ensures var r := ApplySave(t, id, status, credited);
            r.Ok? ==> Sane(r.value) && r.value.credits.Keys == t.credits.Keys
  {
    var d := t.deposits[id];
    if credited && FitsBalanceField(t.credits[d.credit].balance + d.amount) {
      DepositKeepsLedger(t.credits, t.log, d.credit, d.amount);
    }
  }

  /** The locked balance increase and its DEPOSIT log entry; refused, with
      nothing changed, when the new balance does not fit the column. */
  method CreditDeposit(db: Database, c: CreditId, amount: int) returns (ok: bool)
    requires db.Valid()
    requires c in db.credits && amount > 0
    modifies db`credits, db`log
    ensures db.Valid()
    ensures ok <==> FitsBalanceField(old(db.credits[c].balance) + amount)
    ensures ok ==> db.credits == old(db.credits)[c := old(db.credits[c]).(balance := old(db.credits[c].balance) + amount)] &&
                   db.log == old(db.log) + [LogEntry(c, amount, DepositLog)]
    ensures !ok ==> db.credits == old(db.credits) && db.log == old(db.log)
  {
    var balance := db.credits[c].balance + amount;
    if !FitsBalanceField(balance) {
      return false;
    }
    DepositKeepsLedger(db.credits, db.log, c, amount);
    BalanceChangeKeepsLinked(db.users, db.sellers, db.credits, db.log, db.deposits, db.nextSellerId, db.nextCreditId,
                             c, balance, LogEntry(c, amount, DepositLog));
    db.credits := db.credits[c := db.credits[c].(balance := balance)];
    db.log := db.log + [LogEntry(c, amount, DepositLog)];
    ok := true;
  }

  /** Stores the edited status on the deposit row. */
  method SaveDeposit(db: Database, id: DepositId, status: Status)
    requires db.Valid() && id < |db.deposits|
    modifies db`deposits
    ensures db.Valid()
    ensures db.deposits == old(db.deposits)[id := old(db.deposits[id]).(status := status)]
  {
    StatusChangeKeepsLinked(db.users, db.sellers, db.credits, db.log, db.deposits, db.nextSellerId, db.nextCreditId,
                            id, status);
    db.deposits := db.deposits[id := db.deposits[id].(status := status)];
  }

  ghost function TablesOf(db: Database): Tables
    reads db
  {
    Tables(db.credits, db.log, db.deposits)
  }

  /** Saving the change form of deposit `id` with status `submitted`, as
      intended: the balance effect comes first and only on a move into
      APPROVED, then the deposit row is saved with its edited status. */
  method SaveModel(db: Database, id: DepositId, submitted: Status) returns (r: Result<(), AdminError>)
    requires db.Valid()
    modifies db`credits, db`log, db`deposits
    ensures db.Valid() && (old(db.Reconciled()) ==> db.Reconciled())
    ensures id >= |old(db.deposits)| ==> r == Err(NoSuchDeposit)
    ensures id < |old(db.deposits)| ==>
              var prior := old(db.deposits[id]);
              var status := EditedStatus(prior, submitted);
              var expected := ApplySave(old(TablesOf(db)), id, status, CreditsOnSave(prior.status, status));
              && (r.Ok? <==> expected.Ok?)
              && (r.Ok? ==> TablesOf(db) == expected.value)
              && (r.Err? ==> r.error == expected.error)
    ensures r.Err? ==> TablesOf(db) == old(TablesOf(db))
  {
    if id >= |db.deposits| {
      r := Err(NoSuchDeposit);
    } else {
      var prior := db.deposits[id];
      var status := EditedStatus(prior, submitted);
      SaveKeepsSane(TablesOf(db), id, status, CreditsOnSave(prior.status, status));
      if db.Reconciled() {
        SaveKeepsConsistent(TablesOf(db), id, submitted);
      }
      var ok := true;
      if CreditsOnSave(prior.status, status) {
        ok := CreditDeposit(db, prior.credit, prior.amount);
      }
      if ok {
        SaveDeposit(db, id, status);
        r := Ok(());
      } else {
        r := Err(Overflow);
      }
    }
  }

  /** The save as the admin hook is written: it credits the balance on
      every save whose status is APPROVED, including a re-save of a deposit
      that is already APPROVED (see ResaveBreaksReconciled). */
  method SaveModelAsWritten(db: Database, id: DepositId, submitted: Status) returns (r: Result<(), AdminError>)
    requires db.Valid()
    modifies db`credits, db`log, db`deposits
    ensures db.Valid()
    ensures id >= |old(db.deposits)| ==> r == Err(NoSuchDeposit)
    ensures id < |old(db.deposits)| ==>
              var status := EditedStatus(old(db.deposits[id]), submitted);
              var expected := ApplySave(old(TablesOf(db)), id, status, CreditsOnSaveAsWritten(status));
              && (r.Ok? <==> expected.Ok?)
              && (r.Ok? ==> TablesOf(db) == expected.value)
              && (r.Err? ==> r.error == expected.error)
    ensures r.Err? ==> TablesOf(db) == old(TablesOf(db))
  {
    if id >= |db.deposits| {
      r := Err(NoSuchDeposit);
    } else {
      var prior := db.deposits[id];
      var status := EditedStatus(prior, submitted);
      SaveKeepsSane(TablesOf(db), id, status, CreditsOnSaveAsWritten(status));
      var ok := true;
      if CreditsOnSaveAsWritten(status) {
        ok := CreditDeposit(db, prior.credit, prior.amount);
      }
      if ok {
        SaveDeposit(db, id, status);
        r := Ok(());
      } else {
        r := Err(Overflow);
      }
    }
  }
}
