/** The stored entities of the seller-credit store: users' sellers, their
    credits, the credit transaction log and deposit requests. Amounts and
    balances are integer cents. */
module Models {

  type UserId = nat
  type SellerId = nat
  type CreditId = nat
  /** A deposit's primary key is its position in the deposit table. */
  type DepositId = nat

  datatype Option<T> = None | Some(value: T)

  datatype Result<T, E> = Ok(value: T) | Err(error: E)

  /** A seller belongs to exactly one user (a one-to-one link). */
  datatype Seller = Seller(user: UserId)

  /** A seller's credit: one per seller, balance in cents. */
  datatype Credit = Credit(seller: SellerId, balance: int)

  datatype LogType = DepositLog | SaleLog

  /** One row of the append-only transaction log: the magnitude of the
      change, its sign given by the type. */
  datatype LogEntry = LogEntry(credit: CreditId, amount: int, kind: LogType)

  datatype Status = Pending | Approved | Rejected

  datatype Deposit = Deposit(credit: CreditId, amount: int, status: Status)

  /** The balance column holds at most 10 digits of which 2 are after the
      point, so every stored value is below 10^10 cents in magnitude. */
  const MaxDigits: nat := 10
  const MaxCents: int := 10_000_000_000

  function Pow10(k: nat): (p: nat)
    ensures p >= 1
  {
    if k == 0 then 1 else 10 * Pow10(k - 1)
  }

  /** Number of decimal digits needed to write n (0 takes one digit). */
  function NumDigits(n: nat): (d: nat)
    ensures d >= 1
  {
    if n < 10 then 1 else 1 + NumDigits(n / 10)
  }

  lemma {:induction false} DigitsBelowPower(n: nat, k: nat)
    requires k >= 1
    ensures NumDigits(n) <= k <==> n < Pow10(k)
  {
    if n >= 10 && k >= 2 {
      DigitsBelowPower(n / 10, k - 1);
    } else if n >= 10 {
      assert Pow10(1) == 10;
    }
  }

  /** Whether the database accepts this value in the balance column: its
      digit string (units, tens, ... and the two cent digits) has at most
      MaxDigits digits, that is its magnitude is below 10^10 cents. */
  function FitsBalanceField(cents: int): (fits: bool)
    ensures fits <==> NumDigits(if cents < 0 then -cents else cents) <= MaxDigits
  {
    DigitsBelowPower(if cents < 0 then -cents else cents, MaxDigits);
    assert Pow10(MaxDigits) == MaxCents;
    -MaxCents < cents < MaxCents
  }
}
