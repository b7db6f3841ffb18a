/** The API views: per-user listings of sellers, credits and a credit's
    transaction log; the sale charge that debits the caller's credit; and
    the creation of deposit requests. */
module Views {
  import opened Models
  import opened Ledger
  import opened Store

  // ----- Listings -----

  /** Sellers a user may list: staff see every seller, anyone else only the
      sellers linked to their own user. */
  function VisibleSellers(sellers: map<SellerId, Seller>, user: UserId, isStaff: bool): (r: set<SellerId>)
    ensures r <= sellers.Keys
    ensures forall s :: s in sellers ==> (s in r <==> isStaff || sellers[s].user == user)
  {
    if isStaff then sellers.Keys else set s | s in sellers && sellers[s].user == user
  }

  lemma StaffSeesAllSellers(sellers: map<SellerId, Seller>, user: UserId)
    ensures VisibleSellers(sellers, user, true) == sellers.Keys
  {
  }

  /** A non-staff user's seller listing is exactly their own row. */
  lemma NonStaffSeesOwnSellerOnly(sellers: map<SellerId, Seller>, s: SellerId)
    requires UniqueUsers(sellers)
    requires s in sellers
    ensures VisibleSellers(sellers, sellers[s].user, false) == {s}
  {
    OneSellerPerUser(sellers, s);
  }

  /** Credits a user may list. For a non-staff user the filter reads the
      user's seller, which fails (None) when the user has none; staff never
      reach that read. */
  function VisibleCredits(credits: map<CreditId, Credit>, caller: Option<SellerId>, isStaff: bool): (r: Option<set<CreditId>>)
    ensures r.None? <==> !isStaff && caller.None?
    ensures r.Some? ==> r.value <= credits.Keys
  {
    if isStaff then Some(credits.Keys)
    else if caller.None? then None
    else Some(set c | c in credits && credits[c].seller == caller.value)
  }

  /** A non-staff seller's credit listing is exactly their own credit, and
      a staff user's is every credit. */
  lemma CreditListing(credits: map<CreditId, Credit>, c: CreditId, isStaff: bool)
    requires UniqueSellers(credits)
    requires c in credits
    ensures VisibleCredits(credits, Some(credits[c].seller), isStaff) ==
            if isStaff then Some(credits.Keys) else Some({c})
  {
    if !isStaff {
      var vis := VisibleCredits(credits, Some(credits[c].seller), false).value;
      forall d | d in vis
        ensures d == c
      {
        assert credits[d].seller == credits[c].seller;
      }
      assert c in vis;
      assert vis == {c};
    }
  }

  /** The transaction-log listing of credit `c`. It does not depend on who
      asks. The queryset sets no ordering, so the order of the entries (here
      the log's own) is a modelling choice; `CreditHistoryExact` states what
      holds whatever the order. */
  function CreditHistory(log: seq<LogEntry>, c: CreditId): (r: seq<LogEntry>)
    ensures |r| <= |log|
    ensures forall i :: 0 <= i < |r| ==> r[i].credit == c
  {
    if log == [] then []
    else (if log[0].credit == c then [log[0]] else []) + CreditHistory(log[1..], c)
  }

  /** The listing holds exactly the log entries of credit `c`, each as many
      times as the log does. */
  lemma {:induction false} CreditHistoryExact(log: seq<LogEntry>, c: CreditId)
    ensures forall e :: multiset(CreditHistory(log, c))[e] == if e.credit == c then multiset(log)[e] else 0
  {
    if log != [] {
      CreditHistoryExact(log[1..], c);
      assert log == [log[0]] + log[1..];
      assert multiset(log) == multiset{log[0]} + multiset(log[1..]);
    }
  }

  /** A credit's listing accounts for the same totals as the whole log. */
  lemma {:induction false} CreditHistoryTotals(log: seq<LogEntry>, c: CreditId, kind: LogType)
    ensures SumOfType(CreditHistory(log, c), c, kind) == SumOfType(log, c, kind)
  {
    if log != [] {
      CreditHistoryTotals(log[1..], c, kind);
      var rest := CreditHistory(log[1..], c);
      if log[0].credit == c {
        assert CreditHistory(log, c) == [log[0]] + rest;
        assert ([log[0]] + rest)[0] == log[0];
        assert ([log[0]] + rest)[1..] == rest;
      } else {
        assert CreditHistory(log, c) == rest;
      }
    }
  }

  /** So the listing's deposits minus sales is the credit's balance. */
  lemma CreditHistoryBalance(log: seq<LogEntry>, c: CreditId)
    ensures NetBalance(CreditHistory(log, c), c) == NetBalance(log, c)
  {
    CreditHistoryTotals(log, c, DepositLog);
    CreditHistoryTotals(log, c, SaleLog);
  }

  /** Appending an entry to the log adds it to its own credit's listing and
      to no other. */
  lemma {:induction false} CreditHistoryAppend(log: seq<LogEntry>, e: LogEntry, c: CreditId)
    ensures CreditHistory(log + [e], c) == CreditHistory(log, c) + (if e.credit == c then [e] else [])
  {
    if log == [] {
      assert log + [e] == [e];
    } else {
      assert (log + [e])[1..] == log[1..] + [e];
      CreditHistoryAppend(log[1..], e, c);
    }
  }

  // ----- Sale charge -----

  /** The request body; a missing field is None. */
  datatype ChargeRequest = ChargeRequest(amount: Option<int>, phoneNumber: Option<string>)

  datatype RequestError =
    | NoSeller             // the user has no seller
    | NoCredit             // the seller has no credit
    | InvalidInput         // a required field is missing or malformed
    | AmountNotAllowed     // the amount is not an allowed denomination
    | InsufficientBalance  // the amount exceeds the current balance

  /** The charge serializer's checks against the balance it is given:
      required fields, the denomination allow-list, then sufficiency. An
      amount equal to the balance is accepted. */
  function ValidateCharge(req: ChargeRequest, balance: int, allowed: set<int>): (r: Result<int, RequestError>)
    ensures r.Ok? <==> req.amount.Some? && req.phoneNumber.Some? &&
                       req.amount.value in allowed && req.amount.value <= balance
    ensures r.Ok? ==> r.value == req.amount.value
    ensures r == Err(InsufficientBalance) <==>
            req.amount.Some? && req.phoneNumber.Some? && req.amount.value in allowed && req.amount.value > balance
    ensures r.Err? ==> r.error in {InvalidInput, AmountNotAllowed, InsufficientBalance}
  {
    if req.amount.None? || req.phoneNumber.None? then Err(InvalidInput)
    else if req.amount.value !in allowed then Err(AmountNotAllowed)
    else if req.amount.value > balance then Err(InsufficientBalance)
    else Ok(req.amount.value)
  }

  /** The caller's credit, reached through the caller's seller. */
  ghost function CallerCredit(db: Database, user: UserId): (r: Result<CreditId, RequestError>)
    reads db
    ensures r.Ok? ==> r.value in db.credits
  {
    match db.SellerOfUser(user)
    case None => Err(NoSeller)
    case Some(s) =>
      match db.CreditOfSeller(s)
      case None => Err(NoCredit)
      case Some(c) => Ok(c)
  }

  /** Follows the caller's user to its seller and on to the seller's
      credit; each hop fails when the linked row is missing. */
  method LookupCredit(db: Database, user: UserId) returns (r: Result<CreditId, RequestError>)
    requires db.Valid()
    ensures r == CallerCredit(db, user)
    ensures r == Err(NoSeller) <==> SellersOfUser(db.sellers, user) == {}
    ensures r.Ok? ==> r.value in db.credits && db.credits[r.value].seller in db.sellers &&
                      db.sellers[db.credits[r.value].seller].user == user
  {
    if s :| s in db.sellers && db.sellers[s].user == user {
      assert s in SellersOfUser(db.sellers, user);
      assert db.SellerOfUser(user) == Some(s);
      if c :| c in db.credits && db.credits[c].seller == s {
        assert db.CreditOfSeller(s) == Some(c);
        r := Ok(c);
      } else {
        r := Err(NoCredit);
      }
    } else {
      r := Err(NoSeller);
    }
  }

  /** What a sale charge answers in a given state: the charged credit, or
      why it is refused. */
  ghost function ChargeOutcome(db: Database, user: UserId, req: ChargeRequest, allowed: set<int>): Result<CreditId, RequestError>
    reads db
  {
    match CallerCredit(db, user)
    case Err(e) => Err(e)
    case Ok(c) =>
      match ValidateCharge(req, db.credits[c].balance, allowed)
      case Err(e) => Err(e)
      case Ok(_) => Ok(c)
  }

  /** A positive debit no larger than a stored balance always leaves a
      value the balance column accepts, so a sale charge never overflows. */
  lemma SaleNeverOverflows(credits: map<CreditId, Credit>, log: seq<LogEntry>, c: CreditId, amount: int)
    requires LedgerHolds(credits, log)
    requires c in credits && 0 < amount <= credits[c].balance
    ensures FitsBalanceField(credits[c].balance - amount)
  {
  }

  /** The balance decrease and its SALE log entry. */
  method DebitCredit(db: Database, c: CreditId, amount: int)
    requires db.Valid()
    requires c in db.credits && 0 < amount <= db.credits[c].balance
    modifies db`credits, db`log
    ensures db.Valid() && (old(db.Reconciled()) ==> db.Reconciled())
    ensures db.credits == old(db.credits)[c := old(db.credits[c]).(balance := old(db.credits[c].balance) - amount)]
    ensures db.log == old(db.log) + [LogEntry(c, amount, SaleLog)]
  {
    var balance := db.credits[c].balance - amount;
    var entry := LogEntry(c, amount, SaleLog);
    SaleKeepsLedger(db.credits, db.log, c, amount);
    if db.Reconciled() {
      SaleKeepsReconciled(db.log, db.deposits, db.credits.Keys, c, amount);
    }
    BalanceChangeKeepsLinked(db.users, db.sellers, db.credits, db.log, db.deposits, db.nextSellerId, db.nextCreditId,
                             c, balance, entry);
    var credits := db.credits[c := db.credits[c].(balance := balance)];
    var log := db.log + [entry];
    db.credits := credits;
    db.log := log;
  }

  /** Debits the caller's credit by the validated amount and logs one SALE
      entry, all or nothing. `allowed` is the serializer's denomination
      allow-list, a set of positive amounts. */
  method SaleCharge(db: Database, user: UserId, req: ChargeRequest, allowed: set<int>)
      returns (r: Result<CreditId, RequestError>)
    requires db.Valid()
    requires forall a :: a in allowed ==> a > 0
    modifies db`credits, db`log
    ensures db.Valid() && (old(db.Reconciled()) ==> db.Reconciled())
    ensures r == old(ChargeOutcome(db, user, req, allowed))
    ensures r.Ok? ==> req.amount.Some? && req.amount.value in allowed &&
                      req.amount.value <= old(db.credits[r.value].balance)
    ensures r.Ok? ==>
              db.credits == old(db.credits)[r.value := old(db.credits[r.value]).(balance := old(db.credits[r.value].balance) - req.amount.value)] &&
              db.log == old(db.log) + [LogEntry(r.value, req.amount.value, SaleLog)]
    ensures r.Err? ==> db.credits == old(db.credits) && db.log == old(db.log)
  {
    r := LookupCredit(db, user);
    if r.Ok? {
      var c := r.value;
      var v := ValidateCharge(req, db.credits[c].balance, allowed);
      if v.Err? {
        r := Err(v.error);
      } else {
        DebitCredit(db, c, v.value);
      }
    }
  }

  // ----- Deposit requests -----

  /** Files a PENDING deposit request for the caller's credit. The amount
      must be present and positive. */
  method CreateDeposit(db: Database, user: UserId, amount: Option<int>) returns (r: Result<DepositId, RequestError>)
    requires db.Valid()
    modifies db`deposits
    ensures db.Valid() && (old(db.Reconciled()) ==> db.Reconciled())
    ensures old(CallerCredit(db, user)).Err? ==> r == Err(old(CallerCredit(db, user)).error)
    ensures old(CallerCredit(db, user)).Ok? ==>
              r == if amount.Some? && amount.value > 0 then Ok(|old(db.deposits)|) else Err(InvalidInput)
    ensures r.Ok? ==> db.deposits == old(db.deposits) + [Deposit(old(CallerCredit(db, user)).value, amount.value, Pending)]
    ensures r.Err? ==> db.deposits == old(db.deposits)
  {
    var owner := LookupCredit(db, user);
    if owner.Err? {
      return Err(owner.error);
    }
    if amount.None? || amount.value <= 0 {
      return Err(InvalidInput);
    }
    var d := Deposit(owner.value, amount.value, Pending);
    forall k | k in db.credits
      ensures ApprovedTotal(db.deposits + [d], k) == ApprovedTotal(db.deposits, k)
    {
      ApprovedTotalAppend(db.deposits, d, k);
    }
    r := Ok(|db.deposits|);
    db.deposits := db.deposits + [d];
  }
}
