/** Aggregates over the transaction log and the deposit table, and how they
    change when a row is appended or updated. */
module Ledger {
  import opened Models

  /** What one log entry adds to the total of one type for one credit. */
  function Contribution(e: LogEntry, c: CreditId, kind: LogType): int
  {
    if e.credit == c && e.kind == kind then e.amount else 0
  }

  /** Sum of the amounts of all log entries of type `kind` for credit `c`. */
  function SumOfType(log: seq<LogEntry>, c: CreditId, kind: LogType): int
  {
    if log == [] then 0 else Contribution(log[0], c, kind) + SumOfType(log[1..], c, kind)
  }

  /** The balance the log accounts for: deposits minus sales. */
  function NetBalance(log: seq<LogEntry>, c: CreditId): int
  {
    SumOfType(log, c, DepositLog) - SumOfType(log, c, SaleLog)
  }

  /** The signed change a log entry records for its own credit. */
  function Signed(e: LogEntry): int
  {
    match e.kind
    case DepositLog => e.amount
    case SaleLog => -e.amount
  }

  lemma {:induction false} SumOfTypeAppend(log: seq<LogEntry>, e: LogEntry, c: CreditId, kind: LogType)
    ensures SumOfType(log + [e], c, kind) == SumOfType(log, c, kind) + Contribution(e, c, kind)
  {
    if log == [] {
      assert log + [e] == [e];
    } else {
      assert (log + [e])[1..] == log[1..] + [e];
      SumOfTypeAppend(log[1..], e, c, kind);
    }
  }

  /** Appending an entry moves the net balance of its own credit by the
      entry's signed amount and leaves every other credit's alone. */
  lemma NetBalanceAppend(log: seq<LogEntry>, e: LogEntry, c: CreditId)
    ensures NetBalance(log + [e], c) == NetBalance(log, c) + (if e.credit == c then Signed(e) else 0)
  {
    SumOfTypeAppend(log, e, c, DepositLog);
    SumOfTypeAppend(log, e, c, SaleLog);
  }

  /** A credit that no log entry mentions has every total zero. */
  lemma {:induction false} SumOfTypeUnmentioned(log: seq<LogEntry>, c: CreditId, kind: LogType)
    requires forall i :: 0 <= i < |log| ==> log[i].credit != c
    ensures SumOfType(log, c, kind) == 0
  {
    if log != [] {
      SumOfTypeUnmentioned(log[1..], c, kind);
    }
  }

  /** What one deposit adds to the approved total of credit `c`. */
  function ApprovedAmount(d: Deposit, c: CreditId): int
  {
    if d.credit == c && d.status == Approved then d.amount else 0
  }

  /** Sum of the amounts of all APPROVED deposits for credit `c`. */
  function ApprovedTotal(ds: seq<Deposit>, c: CreditId): int
  {
    if ds == [] then 0 else ApprovedAmount(ds[0], c) + ApprovedTotal(ds[1..], c)
  }

  lemma {:induction false} ApprovedTotalAppend(ds: seq<Deposit>, d: Deposit, c: CreditId)
    ensures ApprovedTotal(ds + [d], c) == ApprovedTotal(ds, c) + ApprovedAmount(d, c)
  {
    if ds == [] {
      assert ds + [d] == [d];
    } else {
      assert (ds + [d])[1..] == ds[1..] + [d];
      ApprovedTotalAppend(ds[1..], d, c);
    }
  }

  /** A credit that no deposit mentions has approved total zero. */
  lemma {:induction false} ApprovedTotalUnmentioned(ds: seq<Deposit>, c: CreditId)
    requires forall i :: 0 <= i < |ds| ==> ds[i].credit != c
    ensures ApprovedTotal(ds, c) == 0
  {
    if ds != [] {
      ApprovedTotalUnmentioned(ds[1..], c);
    }
  }

  /** Overwriting one deposit row swaps its old contribution for the new one. */
  lemma {:induction false} ApprovedTotalUpdate(ds: seq<Deposit>, i: nat, d: Deposit, c: CreditId)
    requires i < |ds|
    ensures ApprovedTotal(ds[i := d], c) ==
            ApprovedTotal(ds, c) - ApprovedAmount(ds[i], c) + ApprovedAmount(d, c)
  {
    if i == 0 {
      assert ds[i := d][1..] == ds[1..];
    } else {
      assert ds[i := d][1..] == ds[1..][i - 1 := d];
      ApprovedTotalUpdate(ds[1..], i - 1, d, c);
    }
  }

  /** The two ways of totalling a credit's deposits agree for every credit
      in `keys`: the DEPOSIT entries of the log, and the APPROVED requests. */
  ghost predicate Reconciled(log: seq<LogEntry>, ds: seq<Deposit>, keys: set<CreditId>)
  {
    forall c :: c in keys ==> SumOfType(log, c, DepositLog) == ApprovedTotal(ds, c)
  }
}
