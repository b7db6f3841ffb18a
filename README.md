# Seller credit ledger

A Dafny model of the credit core of a Django store. Every seller belongs to
one user and owns one credit whose balance is a fixed-point amount with two
decimals, held here as integer cents. The balance moves in two ways:

- **sale charge**: a seller spends from their own credit, and one SALE entry
  goes to the transaction log;
- **admin deposit approval**: saving a deposit request as APPROVED adds its
  amount, and one DEPOSIT entry goes to the log.

Around this ledger sit four smaller rules:

- the owner-or-staff permission predicates;
- the per-user visibility filters of the listings;
- the admin rule that makes the status of an approved deposit read-only;
- the post-save hook that gives each newly created user a seller.

Layout:

- `models.dfy` (`Models`): the stored entities, plus the bound that the
  ten-digit balance column puts on every balance.
- `ledger.dfy` (`Ledger`): totals over the log and the deposit table:
  - the DEPOSIT and SALE sums per credit;
  - the approved-deposit total per credit;
  - how each total moves when a row is appended or overwritten.
- `store.dfy` (`Store`): the database as a class `Database` with one field
  per table and its invariants:
  - `Valid`: referential and one-to-one links, positive log and deposit
    amounts, and `LedgerHolds`, which says every balance is
    `0 <= balance < 10^10` cents and equals its DEPOSIT total minus its SALE
    total. Every operation requires and keeps it.
  - `Reconciled`: the DEPOSIT total of every credit equals the total of its
    APPROVED deposits. No operation requires it. The entry points
    `Views.SaleCharge`, `Views.CreateDeposit`, `Admin.SaveModel`,
    `Signals.SaveUser`, `Signals.CreateSellerForNewUser` and
    `Store.Database.OpenCredit` keep it whenever it held. Among the entry
    points, only the as-written admin save can lose it. The two steps of the
    admin save, `Admin.CreditDeposit` and `Admin.SaveDeposit`, can each
    break it on their own.
- `views.dfy` (`Views`):
  - the seller, credit and transaction-log listings;
  - the sale charge, which is specified by the ghost function
    `ChargeOutcome` and changes only the caller's credit and the log;
  - deposit-request creation.
- `admin.dfy` (`Admin`):
  - the read-only field rule;
  - the save of a deposit's change form, specified by the pure function
    `ApplySave` on the credit, log and deposit tables. It comes in two forms,
    as the code is written and as corrected (see Findings).
- `signals.dfy` (`Signals`): the seller-creating post-save hook, and a user
  save that fires it.
- `permissions.dfy` (`Permissions`): the request-level and object-level
  permission checks as pure decisions.

Each state-changing operation is all or nothing. A refused call returns an
`Err` and leaves every table as it was. This covers:

- a missing seller or credit;
- invalid input;
- a denomination that is not allowed;
- insufficient balance;
- in the admin save, a balance that would not fit the column. A sale
  charge cannot overflow: it debits a positive amount no larger than the
  balance (`Views.SaleNeverOverflows`).

Three behaviours of the code are worth noting:

- Only the status of an APPROVED deposit becomes read-only
  (store/admin.py:10-13). A REJECTED deposit can therefore still be edited,
  and `Admin.EditedStatus` lets its status change.
- That read-only rule freezes APPROVED, which shows that each approved
  deposit is meant to be credited once. The admin hook, however, credits on
  every save whose status is APPROVED (store/admin.py:17). This is the
  finding below.
- The transaction-log listing filters only by the credit in the URL
  (store/views.py:92-93). `Views.CreditHistory` therefore takes no caller,
  and any authenticated user can list any credit's log.

## Model

| member | source | states |
|---|---|---|
| Models.FitsBalanceField | store/models.py:22 | the balance column accepts a cent amount (magnitude below 10^10 cents) iff its digit string has at most ten digits, two of them after the point |
| Models.DigitsBelowPower | store/models.py:22 | a natural has at most k decimal digits iff it is below 10^k |
| Ledger.NetBalanceAppend | store/views.py:72-76 | appending a log entry moves its own credit's deposits-minus-sales by the entry's signed amount and leaves every other credit's alone |
| Ledger.SumOfTypeUnmentioned | store/models.py:21-23 | a credit no log entry names has zero deposit and sale totals |
| Ledger.ApprovedTotalUpdate | store/admin.py:28 | overwriting one deposit row swaps its old contribution to the approved total for its new one |
| Store.OneSellerPerUser | store/models.py:18 | with the one-to-one user link, the sellers of a seller's user are exactly that seller |
| Store.ExactlyOneSellerEach | store/models.py:18 | once every user has some seller, every user has exactly one |
| Store.SaleKeepsLedger | store/views.py:69-76 | a positive debit no larger than the balance, logged as one SALE entry of that amount, keeps every balance non-negative, in range and equal to deposits minus sales |
| Store.DepositKeepsLedger | store/admin.py:19-26 | a positive credit that still fits the column, logged as one DEPOSIT entry, keeps the same ledger equality and range |
| Store.SaleKeepsReconciled | store/views.py:72-76 | a SALE entry leaves every credit's DEPOSIT total equal to its approved-deposit total |
| Store.Database.constructor | store/models.py:15-23 | the empty database satisfies every invariant, and every user (none) has a seller |
| Store.Database.OpenCredit | store/models.py:23 | gives an existing seller without a credit a zero-balance credit under a fresh id; refuses an unknown seller or a second credit, changing nothing; keeps `Valid`, and `Reconciled` when it held |
| Views.VisibleSellers | store/views.py:35-39 | the seller listing holds only existing sellers, and a seller is in it iff the user is staff or the seller belongs to the user |
| Views.StaffSeesAllSellers | store/views.py:35-39 | a staff user's seller listing is every seller |
| Views.NonStaffSeesOwnSellerOnly | store/views.py:35-39 | a non-staff user's seller listing is exactly their own seller |
| Views.VisibleCredits | store/views.py:48-52 | the credit listing fails exactly for a non-staff user without a seller, and lists only existing credits |
| Views.CreditListing | store/views.py:48-52 | a non-staff seller lists exactly their own credit; a staff user lists every credit |
| Views.CreditHistory | store/views.py:92-93 | the log listing is no longer than the log, and every entry in it belongs to the requested credit (its order, the log's, is a modelling choice) |
| Views.CreditHistoryExact | store/views.py:92-93 | the log listing holds exactly the requested credit's entries, each as often as the log does |
| Views.CreditHistoryTotals | store/views.py:92-93 | the listing's DEPOSIT and SALE totals equal the whole log's totals for that credit |
| Views.CreditHistoryBalance | store/views.py:92-93 | the listing's deposits minus sales equals the credit's net balance over the log |
| Views.CreditHistoryAppend | store/views.py:92-93 | a new log entry joins the end of its own credit's listing and of no other |
| Views.ValidateCharge | store/views.py:59-63 | a charge is accepted iff amount and phone number are present, the amount is allowed and it is at most the balance; it is refused for insufficient balance iff the amount exceeds the balance; an accepted charge's amount is the requested one |
| Views.LookupCredit | store/views.py:57-58 | finds the credit of the caller's seller; fails with NoSeller iff the user has no seller |
| Views.DebitCredit | store/views.py:69-76 | lowers the credit's balance by a positive amount and appends one SALE entry of that amount for that credit, keeping `Valid`, and `Reconciled` when it held |
| Views.SaleNeverOverflows | store/views.py:69-70 | a positive debit no larger than a stored balance always leaves a value the balance column accepts |
| Views.SaleCharge | store/views.py:54-78 | answers the outcome of lookup, validation and debit; on success only the caller's credit changes, by exactly the charged amount (an allowed amount, at most its old balance), and exactly one SALE entry is appended; on any refusal credits and log are unchanged; keeps `Valid`, and `Reconciled` when it held |
| Views.CreateDeposit | store/views.py:96-104 | files a deposit of a positive amount at the end of the deposit table, taking the credit and the PENDING status as assumed under "Left out"; refuses a missing seller or credit or a non-positive amount, changing nothing |
| Signals.CreateSellerForNewUser | store/signals/handlers.py:9-12 | on a created user, inserts exactly one seller for that user under a fresh id, who is then that user's only seller; otherwise no seller changes; works in any valid state |
| Signals.CoverGrows | store/signals/handlers.py:11-12 | when sellers are only added and the saved user has one, every user who had a seller still has one |
| Signals.SaveUser | store/signals/handlers.py:9-12 | a user save inserts a seller iff the user is new, leaves every existing seller as it was, and keeps "every user has a seller" |
| Permissions.HasPermission | store/permissions.py:5-9 | the check raises exactly when the path has no integer seller id or the caller has no seller |
| Permissions.HasObjectPermission | store/permissions.py:11-12 | the object check raises exactly when the caller has no seller |
| Permissions.SafeAllowsOwnerOrStaff | store/permissions.py:7-8 | a read is allowed iff the caller owns the path seller or is staff |
| Permissions.UnsafeAllowsOwnerOnly | store/permissions.py:9 | a write is allowed iff the caller owns the path seller; the staff flag does not change the answer |
| Permissions.WriteImpliesRead | store/permissions.py:7-9 | whoever may write under a path may also read it |
| Permissions.OwnerAlwaysAllowed | store/permissions.py:8-12 | the owner passes both checks for every method |
| Permissions.ObjectCheckAgreesWithSafeRequestCheck | store/permissions.py:7-12 | for a read of an object under its own seller's path, the two checks agree |
| Admin.ReadonlyFields | store/admin.py:8-13 | the base fields are always read-only, and status is read-only iff the deposit exists and is APPROVED |
| Admin.EditedStatus | store/admin.py:10-13 | an APPROVED deposit keeps its status whatever is submitted; any other takes the submitted status |
| Admin.ApprovedIsTerminal | store/admin.py:10-13 | no sequence of admin edits changes an APPROVED deposit |
| Admin.ApprovalKeepsReconciled | store/admin.py:17-26 | moving one deposit into APPROVED together with one DEPOSIT entry of its amount keeps the totals reconciled |
| Admin.StatusChangeKeepsReconciled | store/admin.py:17 | a status change that neither enters nor leaves APPROVED keeps the totals reconciled |
| Admin.ApplySave | store/admin.py:15-28 | the save fails iff it credits and the balance would overflow; otherwise the row takes the new status and no other row changes; without credit, balance and log are untouched; with credit, only the deposit's credit changes, its balance rising by the deposit's amount and its seller kept, and one DEPOSIT entry is appended |
| Admin.SaveKeepsConsistent | store/admin.py:15-28 | the corrected save keeps the ledger equality, range and reconciliation, and moves the deposit's credit by its amount exactly on entry into APPROVED |
| Admin.ResaveIsNoOp | store/admin.py:10-20 | the corrected save of an already APPROVED deposit changes nothing |
| Admin.ResaveBreaksReconciled | store/admin.py:15-20 | as written, re-saving an APPROVED deposit credits its amount a second time and leaves the DEPOSIT log total out of step with the approved total |
| Admin.SaveKeepsSane | store/admin.py:17-26 | under either crediting rule, including the one as written, the save keeps each balance equal to deposits minus sales and within range, and every deposit row valid |
| Admin.CreditDeposit | store/admin.py:18-26 | raises the credit's balance by the amount and appends one DEPOSIT entry, keeping `Valid`; refuses, changing nothing, on overflow |
| Admin.SaveDeposit | store/admin.py:28 | stores the edited status on the deposit row and changes nothing else |
| Admin.SaveModel | store/admin.py:15-28 | the corrected admin save leaves exactly the tables `ApplySave` gives when crediting only on entry into APPROVED, or refuses with nothing changed; keeps `Valid`, and `Reconciled` when it held |
| Admin.SaveModelAsWritten | store/admin.py:15-28 | the admin save as written leaves exactly the tables `ApplySave` gives when crediting on every APPROVED save, or refuses with nothing changed, keeping the ledger invariant |

## Left out

- Concurrency:
  - not modelled: the atomic transactions, `select_for_update` locking, and
    the unlocked balance read in the sale charge;
  - each operation is one sequential, all-or-nothing method, so lost updates
    and overdraft races between concurrent requests are not captured.
- Views.ValidateCharge: the charge serializer is not part of this model.
  - Its denomination allow-list is the parameter `allowed`.
  - Its sufficiency check is taken to be `amount <= balance`, so a charge of
    exactly the whole balance is accepted; that boundary is an assumption.
  - The phone number is only required to be present, not validated.
  - The allow-list is taken to hold positive amounts only (`SaleCharge`
    requires it), since a log amount is a magnitude whose sign comes from
    its type.
- Charging the customer's phone number is left out: the source has only a
  comment there, with no behaviour.
- Store.Database.OpenCredit: the code that creates a seller's credit is not
  part of this model. This method stands in for it with a zero opening
  balance.
- Views.CreateDeposit: the deposit model and its creation serializer are
  not part of this model, and store/views.py:96-104 fixes neither the
  credit, the status nor the amount rule. Three things are assumptions:
  - the target credit is the caller's own; the deposit URL is nested under
    a seller, so it could be that seller's credit instead;
  - a new deposit starts PENDING;
  - the amount must be positive, with no denomination restriction.

  As a modelling choice, deposits are kept in a sequence whose index is the
  primary key.
- The admin add form (`obj` absent) appears only in `Admin.ReadonlyFields`.
  Saving a new deposit through the admin is not modelled; `Admin.SaveModel`
  takes an existing deposit id.
- The permission class is not attached to any view of the core, so its
  checks are modelled as stand-alone decisions. The path seller id is given
  already parsed: None when it is missing or not an integer.
- Not modelled:
  - seller names, timestamps and serializer field lists;
  - pagination, routing and HTTP status codes (errors are a result
    datatype);
  - authentication, and how a user row comes to be saved (the user id is an
    input);
  - sale records, which are not in the core files.
- Views.CreditHistory: the queryset sets no ordering, and the log model's
  own default ordering is not part of this model. The listing keeps the
  log's order. `Views.CreditHistoryExact` states the contents whatever the
  order.
- Amounts are integer cents. Decimal rounding of inputs with more than two
  fractional digits is not modelled.

## Findings

| source | as written | input that shows it | evidently intended | confidence | as-written member | corrected member |
|---|---|---|---|---|---|---|
| store/admin.py:17-28 | the save credits the balance and logs a DEPOSIT entry on every save whose status is APPROVED; status is read-only once APPROVED, but saving the form still runs this code | a deposit of 2000 cents already APPROVED (and credited once), saved again from its change form: the balance and the log gain a second 2000 | credit only when the save moves the deposit from another status into APPROVED, so that each approved deposit is credited once | not executed | Admin.SaveModelAsWritten, Admin.ResaveBreaksReconciled | Admin.SaveModel, Admin.SaveKeepsConsistent, Admin.ResaveIsNoOp |
