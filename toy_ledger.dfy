/** The in-memory contract of day7/contract.rs: an owner and a balance, no store. */
module ToyLedger {

  /** withdraw's result: `Err` carries the reason text. */
  datatype Outcome = Ok | Err(reason: string)

  const InsufficientFunds := "Insufficient funds"

  /** The balance after a deposit. */
  function Deposited(balance: nat, amount: nat): nat
  {
    balance + amount
  }

  /** The outcome and balance of a withdrawal: granted exactly when the balance covers it. */
  function Withdrawn(balance: nat, amount: nat): (Outcome, nat)
  {
    if balance >= amount then (Ok, balance - amount) else (Err(InsufficientFunds), balance)
  }

  /** A withdrawal succeeds exactly when the balance covers it, and then takes exactly the
      amount; otherwise it reports insufficient funds and leaves the balance as it was. */
  lemma WithdrawnIsGuarded(balance: nat, amount: nat)
    ensures Withdrawn(balance, amount).0 == Ok <==> balance >= amount
    ensures Withdrawn(balance, amount).0 == Ok ==> Withdrawn(balance, amount).1 + amount == balance
    ensures Withdrawn(balance, amount).0 != Ok ==>
      Withdrawn(balance, amount) == (Err(InsufficientFunds), balance)
  {
  }

  /** Withdrawing what was just deposited succeeds and gives back the balance before. */
  lemma DepositThenWithdrawRestores(balance: nat, amount: nat)
    ensures Withdrawn(Deposited(balance, amount), amount) == (Ok, balance)
  {
  }

  class Contract {
    const owner: string
    var balance: nat

    constructor (owner: string, balance: nat)
      ensures this.owner == owner && this.balance == balance
    {
      this.owner := owner;
      this.balance := balance;
    }

    /** deposit: add the amount; the owner is a constant. */
    method Deposit(amount: nat)
      modifies this`balance
      ensures balance == Deposited(old(balance), amount)
    {
      balance := balance + amount;
    }

    /** withdraw: take the amount when the balance covers it, else report insufficient funds. */
    method Withdraw(amount: nat) returns (r: Outcome)
      modifies this`balance
      ensures (r, balance) == Withdrawn(old(balance), amount)
    {
      if balance >= amount {
        balance := balance - amount;
        return Ok;
      }
      return Err(InsufficientFunds);
    }
  }

  /** A contract opened with `start`, given `amount` and then asked for it back, ends where it
      started, owner included. */
  method DepositThenWithdraw(owner: string, start: nat, amount: nat) returns (r: Outcome, final: nat, finalOwner: string)
    ensures r == Ok && final == start && finalOwner == owner
  {
    var c := new Contract(owner, start);
    c.Deposit(amount);
    r := c.Withdraw(amount);
    DepositThenWithdrawRestores(start, amount);
    final, finalOwner := c.balance, c.owner;
  }
}
