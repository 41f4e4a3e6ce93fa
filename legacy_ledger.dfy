/** The older ledger of small_projects/contract-cli/src/contract.rs.

    Contracts are keyed by an integer id. Compared with `Ledger`, nothing is guarded: a zero
    amount is deposited and logged like any other, `update_balance` writes whatever row has the
    id (none, if it has vanished), `log_transaction` inserts without looking, and there is no
    rollback. A withdrawal is logged with its amount negated, so the signed amounts of a
    contract's rows add up to its balance. The history is the five most recent rows. */
module LegacyLedger {
  import opened Store
  import opened Seqs

  /** The store calls of the older ledger; an operation given a set of them fails at those calls. */
  datatype Call =
    | CreateContractTable      // CREATE TABLE IF NOT EXISTS contract
    | CreateTransactionsTable  // CREATE TABLE IF NOT EXISTS transactions
    | SelectContract           // load_or_create: read the row of the id
    | InsertContract           // load_or_create: insert the zero-balance row
    | StoreBalance             // update_balance
    | LogInsert                // log_transaction
    | HistoryQuery             // show_history's query

  const HistoryLimit := 5

  /** One line of show_history: tx_type and amount. */
  datatype Line = Line(txType: string, amount: int)

  /** The lines of every row of `id`, oldest first. */
  function Matching(rows: seq<LegacyTx>, id: int): seq<Line>
  {
    if rows == [] then []
    else
      var last := rows[|rows| - 1];
      Matching(rows[..|rows| - 1], id) + (if last.contractId == id then [Line(last.txType, last.amount)] else [])
  }

  /** The signed amounts of the rows of `id`, added up. */
  function Net(rows: seq<LegacyTx>, id: int): int
  {
    if rows == [] then 0
    else
      var last := rows[|rows| - 1];
      Net(rows[..|rows| - 1], id) + (if last.contractId == id then last.amount else 0)
  }

  /** The stored balance of `id` is what its logged rows add up to. */
  predicate Balanced(contracts: map<int, Account>, rows: seq<LegacyTx>, id: int)
  {
    id in contracts && contracts[id].balance == Net(rows, id)
  }

  /** Appending a row of `id` extends its lines by that row and moves its net by its amount. */
  lemma AppendRow(rows: seq<LegacyTx>, id: int, txType: string, amount: int)
    ensures Matching(rows + [LegacyTx(id, txType, amount)], id) == Matching(rows, id) + [Line(txType, amount)]
    ensures Net(rows + [LegacyTx(id, txType, amount)], id) == Net(rows, id) + amount
  {
    assert (rows + [LegacyTx(id, txType, amount)])[..|rows|] == rows;
  }

  /** The lines of the first i rows: those of the first i - 1 rows, plus row i when it is of `id`. */
  lemma MatchingStep(rows: seq<LegacyTx>, id: int, i: nat)
    requires 0 < i <= |rows|
    ensures Matching(rows[..i], id) == Matching(rows[..i - 1], id)
      + (if rows[i - 1].contractId == id then [Line(rows[i - 1].txType, rows[i - 1].amount)] else [])
  {
    assert rows[..i][..i - 1] == rows[..i - 1];
  }

  /** `found` followed by the latest lines among the first i rows still to be looked at is the answer. */
  ghost predicate Gathered(found: seq<Line>, rows: seq<LegacyTx>, id: int, i: nat)
    requires i <= |rows| && |found| <= HistoryLimit
  {
    found + Latest(Matching(rows[..i], id), HistoryLimit - |found|) == Latest(Matching(rows, id), HistoryLimit)
  }

  /** Reading the rows backwards: taking row i when it is of `id`, and moving on to the first
      i - 1 rows, keeps `Gathered`. */
  lemma GatherStep(found: seq<Line>, next: seq<Line>, rows: seq<LegacyTx>, id: int, i: nat)
    requires 0 < i <= |rows| && |found| < HistoryLimit
    requires next == found + (if rows[i - 1].contractId == id then [Line(rows[i - 1].txType, rows[i - 1].amount)] else [])
    requires Gathered(found, rows, id, i)
    ensures |next| <= HistoryLimit && Gathered(next, rows, id, i - 1)
  {
    MatchingStep(rows, id, i);
    var earlier := Matching(rows[..i - 1], id);
    var room := HistoryLimit - |found|;
    if rows[i - 1].contractId == id {
      var line := Line(rows[i - 1].txType, rows[i - 1].amount);
      LatestAppend(earlier, line, room);
      assert found + ([line] + Latest(earlier, room - 1)) == (found + [line]) + Latest(earlier, room - 1);
    } else {
      assert earlier + [] == earlier;
      assert found + [] == found;
    }
  }

  /** What an operation leaves behind: its result, the in-memory balance, and the two tables. */
  datatype Effect = Effect(result: Result<()>, balance: nat, contracts: map<int, Account>, transactions: seq<LegacyTx>)

  /** load_or_create, step by step: the row it opens the contract from, and the rows afterwards. */
  function OpenEffect(id: int, owner: string, contracts: map<int, Account>, faults: set<Call>)
    : (Result<Account>, map<int, Account>)
  {
    if CreateContractTable in faults || CreateTransactionsTable in faults || SelectContract in faults then
      (Err(SqlFailure), contracts)
    else if id in contracts then
      (if contracts[id].balance < 0 then Err(OutOfRange) else Ok(contracts[id]), contracts)
    else if InsertContract in faults then (Err(SqlFailure), contracts)
    else (Ok(Account(owner, 0)), contracts[id := Account(owner, 0)])
  }

  /** deposit: raise, write the row, log a 'deposit' row; a failure leaves what was done in place. */
  function DepositEffect(id: int, balance: nat, contracts: map<int, Account>, rows: seq<LegacyTx>,
                         amount: nat, faults: set<Call>): Effect
  {
    var raised := balance + amount;
    if StoreBalance in faults then Effect(Err(SqlFailure), raised, contracts, rows)
    else
      var stored := SetBalance(contracts, id, raised);
      if LogInsert in faults then Effect(Err(SqlFailure), raised, stored, rows)
      else Effect(Ok(()), raised, stored, rows + [LegacyTx(id, DepositType, amount)])
  }

  /** withdraw: within the balance, lower, write the row and log a 'withdraw' row of the negated
      amount; beyond it, nothing. */
  function WithdrawEffect(id: int, balance: nat, contracts: map<int, Account>, rows: seq<LegacyTx>,
                          amount: nat, faults: set<Call>): Effect
  {
    if balance < amount then Effect(Ok(()), balance, contracts, rows)
    else
      var lowered := balance - amount;
      if StoreBalance in faults then Effect(Err(SqlFailure), lowered, contracts, rows)
      else
        var stored := SetBalance(contracts, id, lowered);
        if LogInsert in faults then Effect(Err(SqlFailure), lowered, stored, rows)
        else Effect(Ok(()), lowered, stored, rows + [LegacyTx(id, WithdrawType, -(amount as int))])
  }

  /** An existing row is opened as stored, unwritten; a missing one is inserted as (id, owner, 0). */
  lemma OpenIsUpsertById(id: int, owner: string, contracts: map<int, Account>, faults: set<Call>)
    requires faults !! {CreateContractTable, CreateTransactionsTable, SelectContract, InsertContract}
    ensures id in contracts && contracts[id].balance >= 0 ==>
      OpenEffect(id, owner, contracts, faults) == (Ok(contracts[id]), contracts)
    ensures id !in contracts ==>
      OpenEffect(id, owner, contracts, faults) == (Ok(Account(owner, 0)), contracts[id := Account(owner, 0)])
  {
  }

  /** A deposit meeting no failure raises the balance by the amount, in memory and in the row of
      `id`, and logs one 'deposit' row, even for 0. */
  lemma DepositAddsAndLogs(id: int, balance: nat, contracts: map<int, Account>, rows: seq<LegacyTx>,
                           amount: nat, faults: set<Call>)
    requires faults !! {StoreBalance, LogInsert} && id in contracts
    ensures var e := DepositEffect(id, balance, contracts, rows, amount, faults);
      && e.result.Ok? && e.balance == balance + amount && e.contracts[id].balance == balance + amount
      && e.transactions == rows + [LegacyTx(id, DepositType, amount)]
  {
  }

  /** A withdrawal within the balance lowers it by the amount and, meeting no failure, logs one
      'withdraw' row of amount -x; one beyond the balance is no error and changes nothing. */
  lemma WithdrawLogsNegatedAmount(id: int, balance: nat, contracts: map<int, Account>, rows: seq<LegacyTx>,
                                  amount: nat, faults: set<Call>)
    ensures var e := WithdrawEffect(id, balance, contracts, rows, amount, faults);
      amount > balance ==> e == Effect(Ok(()), balance, contracts, rows)
    ensures var e := WithdrawEffect(id, balance, contracts, rows, amount, faults);
      amount <= balance ==> e.balance == balance - amount
    ensures var e := WithdrawEffect(id, balance, contracts, rows, amount, faults);
      amount <= balance && faults !! {StoreBalance, LogInsert} && id in contracts ==>
        && e.result.Ok? && e.contracts[id].balance == balance - amount
        && e.transactions == rows + [LegacyTx(id, WithdrawType, -(amount as int))]
  {
  }

  /** Without rollback, a failed write or log keeps the in-memory change: the balance in memory is
      the new one whenever the amount was applied, whether or not the call failed. */
  lemma NoRollback(id: int, balance: nat, contracts: map<int, Account>, rows: seq<LegacyTx>,
                   amount: nat, faults: set<Call>)
    ensures DepositEffect(id, balance, contracts, rows, amount, faults).balance == balance + amount
    ensures amount <= balance ==> WithdrawEffect(id, balance, contracts, rows, amount, faults).balance == balance - amount
    ensures LogInsert in faults && StoreBalance !in faults && id in contracts && amount > 0 ==>
      var e := DepositEffect(id, balance, contracts, rows, amount, faults);
      e.result.Err? && e.transactions == rows && e.contracts[id].balance == balance + amount
  {
  }

  /** With no failure, a deposit keeps the stored balance of a synced contract equal to the sum
      of its logged amounts, and memory in step with the row. */
  lemma DepositKeepsLogBalanced(id: int, balance: nat, contracts: map<int, Account>, rows: seq<LegacyTx>,
                                amount: nat, faults: set<Call>)
    requires faults !! {StoreBalance, LogInsert}
    requires id in contracts && contracts[id].balance == balance && Balanced(contracts, rows, id)
    ensures var e := DepositEffect(id, balance, contracts, rows, amount, faults);
      Balanced(e.contracts, e.transactions, id) && e.contracts[id].balance == e.balance
  {
    var e := DepositEffect(id, balance, contracts, rows, amount, faults);
    assert e.transactions == rows + [LegacyTx(id, DepositType, amount)];
    AppendRow(rows, id, DepositType, amount);
    assert e.contracts[id].balance == balance + amount;
  }

  /** With no failure, a withdrawal does the same: its row is logged with the negated amount. */
  lemma WithdrawKeepsLogBalanced(id: int, balance: nat, contracts: map<int, Account>, rows: seq<LegacyTx>,
                                 amount: nat, faults: set<Call>)
    requires faults !! {StoreBalance, LogInsert}
    requires id in contracts && contracts[id].balance == balance && Balanced(contracts, rows, id)
    ensures var e := WithdrawEffect(id, balance, contracts, rows, amount, faults);
      Balanced(e.contracts, e.transactions, id) && e.contracts[id].balance == e.balance
  {
    if amount <= balance {
      var e := WithdrawEffect(id, balance, contracts, rows, amount, faults);
      assert e.transactions == rows + [LegacyTx(id, WithdrawType, -(amount as int))];
      AppendRow(rows, id, WithdrawType, -(amount as int));
      assert e.contracts[id].balance == balance - amount;
    }
  }

  /** With no rollback, a deposit whose row cannot be logged leaves the stored balance off the
      sum of the logged amounts. */
  lemma UnloggedDepositUnbalances(id: int, balance: nat, contracts: map<int, Account>, rows: seq<LegacyTx>,
                                  amount: nat, faults: set<Call>)
    requires LogInsert in faults && StoreBalance !in faults && amount > 0
    requires id in contracts && contracts[id].balance == balance && Balanced(contracts, rows, id)
    ensures var e := DepositEffect(id, balance, contracts, rows, amount, faults);
      !Balanced(e.contracts, e.transactions, id)
  {
    var e := DepositEffect(id, balance, contracts, rows, amount, faults);
    assert e.transactions == rows;
    assert e.contracts[id].balance == balance + amount;
  }

  /** update_balance keys by id: no other row is added, removed or changed, by either operation. */
  lemma OtherContractsUntouched(id: int, balance: nat, contracts: map<int, Account>, rows: seq<LegacyTx>,
                                amount: nat, faults: set<Call>, other: int)
    requires other != id
    ensures var d := DepositEffect(id, balance, contracts, rows, amount, faults);
      (other in d.contracts <==> other in contracts) && (other in contracts ==> d.contracts[other] == contracts[other])
    ensures var w := WithdrawEffect(id, balance, contracts, rows, amount, faults);
      (other in w.contracts <==> other in contracts) && (other in contracts ==> w.contracts[other] == contracts[other])
  {
    SetBalanceWritesOnlyThatRow(contracts, id, balance + amount);
    if amount <= balance {
      SetBalanceWritesOnlyThatRow(contracts, id, balance - amount);
    }
  }

  /** After a deposit or withdrawal that was logged, the history starts with that row. */
  lemma HistoryShowsNewestFirst(id: int, balance: nat, contracts: map<int, Account>, rows: seq<LegacyTx>,
                                amount: nat, faults: set<Call>)
    requires faults !! {StoreBalance, LogInsert}
    ensures Latest(Matching(DepositEffect(id, balance, contracts, rows, amount, faults).transactions, id), HistoryLimit)
            == [Line(DepositType, amount)] + Latest(Matching(rows, id), HistoryLimit - 1)
    ensures amount <= balance ==>
      Latest(Matching(WithdrawEffect(id, balance, contracts, rows, amount, faults).transactions, id), HistoryLimit)
      == [Line(WithdrawType, -(amount as int))] + Latest(Matching(rows, id), HistoryLimit - 1)
  {
    AppendRow(rows, id, DepositType, amount);
    LatestAppend(Matching(rows, id), Line(DepositType, amount), HistoryLimit);
    AppendRow(rows, id, WithdrawType, -(amount as int));
    LatestAppend(Matching(rows, id), Line(WithdrawType, -(amount as int)), HistoryLimit);
  }

  class Contract {
    const id: int
    const owner: string
    var balance: nat

    constructor (id: int, owner: string, balance: nat)
      ensures this.id == id && this.owner == owner && this.balance == balance
    {
      this.id := id;
      this.owner := owner;
      this.balance := balance;
    }

    /** Open the contract of `id`: read its row, or insert (id, owner, 0) when there is none. */
    static method LoadOrCreate(db: LegacyDb, id: int, owner: string, faults: set<Call>)
      returns (r: Result<Contract>)
      modifies db`contracts
      ensures var e := OpenEffect(id, owner, old(db.contracts), faults);
        && db.contracts == e.1
        && r.Ok? == e.0.Ok?
        && (r.Err? ==> r.error == e.0.error)
        && (r.Ok? ==> fresh(r.value) && r.value.id == id && Account(r.value.owner, r.value.balance) == e.0.value)
    {
      if CreateContractTable in faults || CreateTransactionsTable in faults {
        return Err(SqlFailure);
      }
      if SelectContract in faults {
        return Err(SqlFailure);
      }
      if id in db.contracts {
        var row := db.contracts[id];
        if row.balance < 0 {
          return Err(OutOfRange);
        }
        var c := new Contract(id, row.owner, row.balance);
        return Ok(c);
      }
      if InsertContract in faults {
        return Err(SqlFailure);
      }
      db.contracts := db.contracts[id := Account(owner, 0)];
      var c := new Contract(id, owner, 0);
      return Ok(c);
    }

    /** Raise the balance, write it, log a 'deposit' row; the first failure is returned as is. */
    method Deposit(db: LegacyDb, amount: nat, faults: set<Call>) returns (r: Result<()>)
      modifies this, db`contracts, db`transactions
      ensures Effect(r, balance, db.contracts, db.transactions)
              == DepositEffect(id, old(balance), old(db.contracts), old(db.transactions), amount, faults)
    {
      balance := balance + amount;
      r := UpdateBalance(db, faults);
      if r.Err? {
        return;
      }
      r := LogTransaction(db, amount, DepositType, faults);
    }

    /** Within the balance, lower it, write it, log a 'withdraw' row of the negated amount;
        beyond it, report nothing as an error. */
    method Withdraw(db: LegacyDb, amount: nat, faults: set<Call>) returns (r: Result<()>)
      modifies this, db`contracts, db`transactions
      ensures Effect(r, balance, db.contracts, db.transactions)
              == WithdrawEffect(id, old(balance), old(db.contracts), old(db.transactions), amount, faults)
    {
      if balance >= amount {
        balance := balance - amount;
        r := UpdateBalance(db, faults);
        if r.Err? {
          return;
        }
        r := LogTransaction(db, -(amount as int), WithdrawType, faults);
        if r.Err? {
          return;
        }
      }
      r := Ok(());
    }

    /** show_history: the lines of the five most recent rows of this contract, newest first,
        read backwards through the table as `ORDER BY id DESC LIMIT 5` does. */
    method ShowHistory(db: LegacyDb, faults: set<Call>) returns (r: Result<seq<Line>>)
      ensures r.Err? <==> HistoryQuery in faults
      ensures r.Ok? ==> r.value == Latest(Matching(db.transactions, id), HistoryLimit)
    {
      if HistoryQuery in faults {
        return Err(SqlFailure);
      }
      var rows := db.transactions;
      var found: seq<Line> := [];
      var i := |rows|;
      assert rows[..i] == rows;
      while 0 < i && |found| < HistoryLimit
        invariant 0 <= i <= |rows|
        invariant |found| <= HistoryLimit
        invariant Gathered(found, rows, id, i)
      {
        var next := found;
        if rows[i - 1].contractId == id {
          next := found + [Line(rows[i - 1].txType, rows[i - 1].amount)];
        }
        GatherStep(found, next, rows, id, i);
        found, i := next, i - 1;
      }
      if i == 0 {
        assert rows[..i] == [];
      }
      assert found + [] == found;
      return Ok(found);
    }

    /** update_balance: write the in-memory balance into the row of `id`, if there is one. */
    method UpdateBalance(db: LegacyDb, faults: set<Call>) returns (r: Result<()>)
      modifies db`contracts
      ensures r == if StoreBalance in faults then Err(SqlFailure) else Ok(())
      ensures db.contracts == if StoreBalance in faults then old(db.contracts) else SetBalance(old(db.contracts), id, balance)
    {
      if StoreBalance in faults {
        return Err(SqlFailure);
      }
      db.contracts := SetBalance(db.contracts, id, balance);
      r := Ok(());
    }

    /** log_transaction: append one row, with no check that the contract row exists. */
    method LogTransaction(db: LegacyDb, amount: int, txType: string, faults: set<Call>) returns (r: Result<()>)
      modifies db`transactions
      ensures r == if LogInsert in faults then Err(SqlFailure) else Ok(())
      ensures db.transactions ==
        if LogInsert in faults then old(db.transactions) else old(db.transactions) + [LegacyTx(id, txType, amount)]
    {
      if LogInsert in faults {
        return Err(SqlFailure);
      }
      db.transactions := db.transactions + [LegacyTx(id, txType, amount)];
      r := Ok(());
    }
  }
}
