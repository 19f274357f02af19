/** The account ledger: a balance debited by transfers and credited with
    saturation at the largest `u64`, and a nonce counting successful
    transfers. */
module Account {
  import opened Wrappers
  import opened Bytes

  datatype Account = Account(address: Bytes32, balance: u64, nonce: u64)

  /** The message of a refused transfer. */
  const InsufficientBalance: string := "Insufficient balance"

  /** A fresh account: the given address and balance, no transfers yet. */
  function New(address: Bytes32, initialBalance: u64): (a: Account)
    ensures a.address == address
    ensures a.balance == initialBalance
    ensures a.nonce == 0
  {
    Account(address, initialBalance, 0)
  }

  /** Debits `amount` and counts the transfer, or refuses when the balance
      does not cover it. The outer `Failure` is the overflow panic of the
      nonce increment on an account that already made `U64Max` transfers. */
  function Transfer(a: Account, amount: u64): (r: Result<Result<Account, string>, Panic>)
    ensures r.Failure? <==> a.balance >= amount && a.nonce == U64Max
    ensures r.Success? ==> (r.value.Success? <==> a.balance >= amount)
    ensures r.Success? && r.value.Success? ==>
      var b := r.value.value;
      b.address == a.address && b.balance + amount == a.balance && b.nonce == a.nonce + 1
    ensures r.Success? && r.value.Failure? ==> r.value.error == InsufficientBalance
  {
    if a.balance >= amount then
      if a.nonce == U64Max then Failure(Panic("attempt to add with overflow"))
      else Success(Success(a.(balance := a.balance - amount, nonce := a.nonce + 1)))
    else Success(Failure(InsufficientBalance))
  }

  /** Adds `amount`, stopping at the largest `u64` (`saturating_add`). */
  function Credit(a: Account, amount: u64): (b: Account)
    ensures b.address == a.address && b.nonce == a.nonce
    ensures a.balance + amount <= U64Max ==> b.balance == a.balance + amount
    ensures a.balance + amount > U64Max ==> b.balance == U64Max
  {
    var sum := a.balance + amount;
    a.(balance := if sum > U64Max then U64Max else sum)
  }

  /** Crediting back what a transfer debited restores the balance, and the
      account keeps the transfer counted in its nonce. */
  lemma TransferThenCreditRestoresBalance(a: Account, amount: u64)
    requires Transfer(a, amount).Success? && Transfer(a, amount).value.Success?
    ensures Credit(Transfer(a, amount).value.value, amount) == a.(nonce := a.nonce + 1)
  {
  }

  /** A transfer the balance covers, on an account below the nonce limit,
      always goes through. */
  lemma TransferWithinBalanceSucceeds(a: Account, amount: u64)
    requires amount <= a.balance && a.nonce < U64Max
    ensures Transfer(a, amount).Success? && Transfer(a, amount).value.Success?
    ensures Transfer(a, amount).value.value.balance == a.balance - amount
  {
  }

  /** Moving `amount` from one account to another whose credit does not
      saturate keeps the sum of the two balances. */
  lemma TransferConservesTotal(sender: Account, recipient: Account, amount: u64)
    requires Transfer(sender, amount).Success? && Transfer(sender, amount).value.Success?
    requires recipient.balance + amount <= U64Max
    ensures Transfer(sender, amount).value.value.balance + Credit(recipient, amount).balance
            == sender.balance + recipient.balance
  {
  }

  /** Crediting never lowers a balance, and once a balance is at the limit a
      credit changes nothing. */
  lemma CreditMonotone(a: Account, amount: u64)
    ensures Credit(a, amount).balance >= a.balance
    ensures a.balance == U64Max ==> Credit(a, amount) == a
  {
  }
}
