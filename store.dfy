/** The database the views, the admin and the signal handler work on: the
    user, seller, credit, transaction-log and deposit tables, with the
    referential, one-to-one, range and ledger invariants that every
    operation keeps. */
module Store {
  import opened Models
  import opened Ledger

  /** No two sellers share a user. */
  ghost predicate UniqueUsers(sellers: map<SellerId, Seller>)
  {
    forall s1, s2 :: s1 in sellers && s2 in sellers && sellers[s1].user == sellers[s2].user ==> s1 == s2
  }

  /** No two credits share a seller. */
  ghost predicate UniqueSellers(credits: map<CreditId, Credit>)
  {
    forall c1, c2 :: c1 in credits && c2 in credits && credits[c1].seller == credits[c2].seller ==> c1 == c2
  }

  function SellersOfUser(sellers: map<SellerId, Seller>, u: UserId): set<SellerId>
  {
    set s | s in sellers && sellers[s].user == u
  }

  /** With the one-to-one link, a user that has a seller has exactly one. */
  lemma OneSellerPerUser(sellers: map<SellerId, Seller>, s: SellerId)
    requires UniqueUsers(sellers)
    requires s in sellers
    ensures SellersOfUser(sellers, sellers[s].user) == {s}
  {
    var u := sellers[s].user;
    forall t | t in SellersOfUser(sellers, u)
      ensures t == s
    {
      assert sellers[t].user == sellers[s].user;
    }
  }

  /** So once every user has some seller, every user has exactly one. */
  lemma ExactlyOneSellerEach(users: set<UserId>, sellers: map<SellerId, Seller>)
    requires UniqueUsers(sellers)
    requires forall u :: u in users ==> SellersOfUser(sellers, u) != {}
    ensures forall u :: u in users ==> exists s :: SellersOfUser(sellers, u) == {s}
  {
    forall u | u in users
      ensures exists s :: SellersOfUser(sellers, u) == {s}
    {
      var s :| s in SellersOfUser(sellers, u);
      OneSellerPerUser(sellers, s);
    }
  }

  /** Foreign keys point at existing rows, one-to-one links are unique,
      log and deposit amounts are positive (a log amount is the magnitude
      of the change, its sign given by the type), and auto-increment keys are ahead of
      every stored key. */
  ghost predicate Linked(users: set<UserId>, sellers: map<SellerId, Seller>, credits: map<CreditId, Credit>,
                         log: seq<LogEntry>, deposits: seq<Deposit>, nextSellerId: nat, nextCreditId: nat)
  {
    && (forall s :: s in sellers ==> sellers[s].user in users && s < nextSellerId)
    && UniqueUsers(sellers)
    && (forall c :: c in credits ==> credits[c].seller in sellers && c < nextCreditId)
    && UniqueSellers(credits)
    && (forall i :: 0 <= i < |log| ==> log[i].credit in credits && log[i].amount > 0)
    && (forall i :: 0 <= i < |deposits| ==> deposits[i].credit in credits && deposits[i].amount > 0)
  }

  /** Changing one balance and logging an entry for an existing credit
      breaks no link. */
  lemma BalanceChangeKeepsLinked(users: set<UserId>, sellers: map<SellerId, Seller>, credits: map<CreditId, Credit>,
                                 log: seq<LogEntry>, deposits: seq<Deposit>, nextSellerId: nat, nextCreditId: nat,
                                 c: CreditId, balance: int, e: LogEntry)
    requires Linked(users, sellers, credits, log, deposits, nextSellerId, nextCreditId)
    requires c in credits && e.credit in credits && e.amount > 0
    ensures Linked(users, sellers, credits[c := credits[c].(balance := balance)], log + [e], deposits, nextSellerId, nextCreditId)
  {
    var credits' := credits[c := credits[c].(balance := balance)];
    assert forall d :: d in credits' ==> credits'[d].seller == credits[d].seller;
  }

  /** Adding the first credit of an existing seller, under the next
      auto-increment key, breaks no link. */
  lemma NewCreditKeepsLinked(users: set<UserId>, sellers: map<SellerId, Seller>, credits: map<CreditId, Credit>,
                             log: seq<LogEntry>, deposits: seq<Deposit>, nextSellerId: nat, nextCreditId: nat,
                             s: SellerId)
    requires Linked(users, sellers, credits, log, deposits, nextSellerId, nextCreditId)
    requires s in sellers && forall c :: c in credits ==> credits[c].seller != s
    ensures nextCreditId !in credits
    ensures Linked(users, sellers, credits[nextCreditId := Credit(s, 0)], log, deposits, nextSellerId, nextCreditId + 1)
  {
  }

  /** A new credit with zero balance that no log entry mentions keeps the
      ledger. */
  lemma NewCreditKeepsLedger(credits: map<CreditId, Credit>, log: seq<LogEntry>, c: CreditId, s: SellerId)
    requires LedgerHolds(credits, log)
    requires forall i :: 0 <= i < |log| ==> log[i].credit != c
    ensures LedgerHolds(credits[c := Credit(s, 0)], log)
  {
    SumOfTypeUnmentioned(log, c, DepositLog);
    SumOfTypeUnmentioned(log, c, SaleLog);
  }

  /** Changing the status of one deposit breaks no link. */
  lemma StatusChangeKeepsLinked(users: set<UserId>, sellers: map<SellerId, Seller>, credits: map<CreditId, Credit>,
                                log: seq<LogEntry>, deposits: seq<Deposit>, nextSellerId: nat, nextCreditId: nat,
                                i: nat, status: Status)
    requires Linked(users, sellers, credits, log, deposits, nextSellerId, nextCreditId)
    requires i < |deposits|
    ensures Linked(users, sellers, credits, log, deposits[i := deposits[i].(status := status)], nextSellerId, nextCreditId)
  {
  }

  /** Every balance is non-negative, fits the column, and equals the
      deposits minus the sales that its log entries record. */
  ghost predicate LedgerHolds(credits: map<CreditId, Credit>, log: seq<LogEntry>)
  {
    forall c :: c in credits ==> 0 <= credits[c].balance < MaxCents && credits[c].balance == NetBalance(log, c)
  }

  /** A positive debit no larger than the balance, logged as one SALE
      entry, keeps the ledger: the balance stays non-negative, in range and
      equal to the log's. */
  lemma SaleKeepsLedger(credits: map<CreditId, Credit>, log: seq<LogEntry>, c: CreditId, amount: int)
    requires LedgerHolds(credits, log)
    requires c in credits && 0 < amount <= credits[c].balance
    ensures LedgerHolds(credits[c := credits[c].(balance := credits[c].balance - amount)],
                        log + [LogEntry(c, amount, SaleLog)])
  {
    var e := LogEntry(c, amount, SaleLog);
    forall d | d in credits
      ensures NetBalance(log + [e], d) == NetBalance(log, d) - (if d == c then amount else 0)
    {
      NetBalanceAppend(log, e, d);
    }
  }

  /** A credit by a positive amount that still fits the column, logged as
      one DEPOSIT entry, keeps the ledger. */
  lemma DepositKeepsLedger(credits: map<CreditId, Credit>, log: seq<LogEntry>, c: CreditId, amount: int)
    requires LedgerHolds(credits, log)
    requires c in credits && amount > 0
    requires FitsBalanceField(credits[c].balance + amount)
    ensures LedgerHolds(credits[c := credits[c].(balance := credits[c].balance + amount)],
                        log + [LogEntry(c, amount, DepositLog)])
  {
    var e := LogEntry(c, amount, DepositLog);
    forall d | d in credits
      ensures NetBalance(log + [e], d) == NetBalance(log, d) + (if d == c then amount else 0)
    {
      NetBalanceAppend(log, e, d);
    }
  }

  /** A SALE entry leaves every credit's deposit totals reconciled. */
  lemma SaleKeepsReconciled(log: seq<LogEntry>, ds: seq<Deposit>, keys: set<CreditId>, c: CreditId, amount: int)
    requires Reconciled(log, ds, keys)
    ensures Reconciled(log + [LogEntry(c, amount, SaleLog)], ds, keys)
  {
    forall d | d in keys
      ensures SumOfType(log + [LogEntry(c, amount, SaleLog)], d, DepositLog) == ApprovedTotal(ds, d)
    {
      SumOfTypeAppend(log, LogEntry(c, amount, SaleLog), d, DepositLog);
    }
  }

  datatype StoreError = NoSuchSeller | CreditExists

  class Database {
    var users: set<UserId>
    var sellers: map<SellerId, Seller>
    var credits: map<CreditId, Credit>
    var log: seq<LogEntry>
    var deposits: seq<Deposit>
    /** Next values of the auto-increment primary keys. */
    var nextSellerId: nat
    var nextCreditId: nat

    ghost predicate Valid()
      reads this
    {
      Linked(users, sellers, credits, log, deposits, nextSellerId, nextCreditId) && LedgerHolds(credits, log)
    }

    /** Every credit's DEPOSIT log total equals its APPROVED deposit total. */
    ghost predicate Reconciled()
      reads this
    {
      Ledger.Reconciled(log, deposits, credits.Keys)
    }

    /** Every stored user has a seller. */
    ghost predicate EveryUserHasSeller()
      reads this
    {
      forall u :: u in users ==> SellersOfUser(sellers, u) != {}
    }

    ghost function SellerOfUser(u: UserId): (r: Option<SellerId>)
      reads this
      ensures r.Some? ==> r.value in sellers && sellers[r.value].user == u
      ensures r.None? ==> SellersOfUser(sellers, u) == {}
    {
      if SellersOfUser(sellers, u) == {} then None
      else Some(var s :| s in SellersOfUser(sellers, u); s)
    }

    ghost function CreditOfSeller(s: SellerId): (r: Option<CreditId>)
      reads this
      ensures r.Some? ==> r.value in credits && credits[r.value].seller == s
      ensures r.None? ==> forall c :: c in credits ==> credits[c].seller != s
    {
      if exists c :: c in credits && credits[c].seller == s
      then Some(var c :| c in credits && credits[c].seller == s; c)
      else None
    }

    constructor ()
      ensures Valid() && Reconciled() && EveryUserHasSeller()
      ensures users == {} && sellers == map[] && credits == map[]
      ensures log == [] && deposits == []
    {
      users, sellers, credits := {}, map[], map[];
      log, deposits := [], [];
      nextSellerId, nextCreditId := 1, 1;
    }

    /** Creates the credit of an existing seller with a zero balance; the
        one-to-one link refuses a second credit for the same seller. */
    method OpenCredit(s: SellerId) returns (r: Result<CreditId, StoreError>)
      requires Valid()
      modifies this`credits, this`nextCreditId
      ensures Valid() && (old(Reconciled()) ==> Reconciled())
      ensures s !in old(sellers) ==> r == Err(NoSuchSeller)
      ensures s in old(sellers) && old(CreditOfSeller(s)).Some? ==> r == Err(CreditExists)
      ensures r.Ok? <==> s in old(sellers) && old(CreditOfSeller(s)).None?
      ensures r.Ok? ==> r.value !in old(credits) &&
                        credits == old(credits)[r.value := Credit(s, 0)]
      ensures r.Err? ==> credits == old(credits)
    {
      if s !in sellers {
        return Err(NoSuchSeller);
      }
      if exists c :: c in credits && credits[c].seller == s {
        return Err(CreditExists);
      }
      var id := nextCreditId;
      NewCreditKeepsLinked(users, sellers, credits, log, deposits, nextSellerId, nextCreditId, s);
      NewCreditKeepsLedger(credits, log, id, s);
      SumOfTypeUnmentioned(log, id, DepositLog);
      ApprovedTotalUnmentioned(deposits, id);
      credits := credits[id := Credit(s, 0)];
      nextCreditId := nextCreditId + 1;
      r := Ok(id);
    }
  }
}
