/** The single-owner ledger of z_small_projects/contract-cli/src/contract.rs.

    A `Contract` keeps its owner and balance in memory and mirrors them in the `contract` row
    keyed by `contractId` (the owner hash, as the CLI passes it); every change of balance is meant
    to be followed by one row of `transactions`. Zero amounts are refused without error, an
    insufficient balance is reported without error, and a deposit whose transaction row cannot be
    written puts the stored balance back. A withdrawal has no such rollback. */
module Ledger {
  import opened Store
  import opened Seqs

  /** The store calls the ledger makes; an operation given a set of them fails at those calls. */
  datatype Call =
    | CreateContractTable      // CREATE TABLE IF NOT EXISTS contract
    | CreateTransactionsTable  // CREATE TABLE IF NOT EXISTS transactions
    | FindContract             // load_or_create: does the row exist?
    | InsertContract           // load_or_create: insert the zero-balance row
    | SelectContract           // load_or_create: read owner and balance back
    | CheckContract            // deposit: does the row still exist?
    | ReinsertContract         // deposit: re-create a vanished row
    | StoreBalance             // update_balance after changing the balance
    | RestoreBalance           // update_balance undoing a deposit
    | LogCheck                 // log_transaction: does the row exist?
    | LogInsert                // log_transaction: insert the transaction row
    | HistoryQuery             // show_history's query

  const HistoryLimit := 5

  /** One line of show_history: tx_id, tx_type and amount. */
  datatype HistoryEntry = HistoryEntry(txId: nat, txType: string, amount: int)

  /** Every transaction row of `contractId` in tx_id order, with its tx_id (its position plus one). */
  function History(rows: seq<TxRow>, contractId: string): seq<HistoryEntry>
  {
    if rows == [] then []
    else
      var last := rows[|rows| - 1];
      History(rows[..|rows| - 1], contractId)
        + (if last.contractId == contractId then [HistoryEntry(|rows|, last.txType, last.amount)] else [])
  }

  /** The history holds exactly the rows of `contractId`, each once, in increasing tx_id order. */
  lemma {:induction false} HistoryIsTheContractsRows(rows: seq<TxRow>, contractId: string)
    ensures var h := History(rows, contractId);
      && (forall k :: 0 <= k < |h| ==>
            1 <= h[k].txId <= |rows| && rows[h[k].txId - 1] == TxRow(contractId, h[k].txType, h[k].amount))
      && (forall j, k :: 0 <= j < k < |h| ==> h[j].txId < h[k].txId)
      && (forall i :: 0 <= i < |rows| && rows[i].contractId == contractId ==>
            HistoryEntry(i + 1, rows[i].txType, rows[i].amount) in h)
  {
    if rows != [] {
      var init := rows[..|rows| - 1];
      HistoryIsTheContractsRows(init, contractId);
      var h := History(rows, contractId);
      var hi := History(init, contractId);
      assert forall i :: 0 <= i < |init| ==> init[i] == rows[i];
      assert forall k :: 0 <= k < |hi| ==> h[k] == hi[k];
    }
  }

  /** The history of a prefix of the table is a prefix of the history of the table. */
  lemma {:induction false} HistoryOfPrefix(rows: seq<TxRow>, contractId: string, i: nat)
    requires i <= |rows|
    ensures History(rows[..i], contractId) <= History(rows, contractId)
    decreases |rows| - i
  {
    if i < |rows| {
      HistoryOfPrefix(rows[..|rows| - 1], contractId, i);
      assert rows[..|rows| - 1][..i] == rows[..i];
    } else {
      assert rows[..i] == rows;
    }
  }

  /** The history of the first i rows: that of the first i - 1 rows, plus row i when it is this contract's. */
  lemma HistoryStep(rows: seq<TxRow>, contractId: string, i: nat)
    requires 0 < i <= |rows|
    ensures History(rows[..i], contractId) == History(rows[..i - 1], contractId)
      + (if rows[i - 1].contractId == contractId then [HistoryEntry(i, rows[i - 1].txType, rows[i - 1].amount)] else [])
  {
    assert rows[..i][..i - 1] == rows[..i - 1];
  }

  /** `found` followed by the latest rows among the first i still to be looked at is the answer. */
  ghost predicate Collected(found: seq<HistoryEntry>, rows: seq<TxRow>, contractId: string, i: nat)
    requires i <= |rows| && |found| <= HistoryLimit
  {
    found + Latest(History(rows[..i], contractId), HistoryLimit - |found|)
    == Latest(History(rows, contractId), HistoryLimit)
  }

  /** Collecting the latest rows backwards: taking row i into `found` when it is this contract's,
      and moving on to the first i - 1 rows, keeps `Collected`. */
  lemma CollectStep(found: seq<HistoryEntry>, next: seq<HistoryEntry>, rows: seq<TxRow>, contractId: string, i: nat)
    requires 0 < i <= |rows| && |found| < HistoryLimit
    requires next == found + (if rows[i - 1].contractId == contractId
                              then [HistoryEntry(i, rows[i - 1].txType, rows[i - 1].amount)] else [])
    requires Collected(found, rows, contractId, i)
    ensures |next| <= HistoryLimit && Collected(next, rows, contractId, i - 1)
  {
    HistoryStep(rows, contractId, i);
    var earlier := History(rows[..i - 1], contractId);
    var room := HistoryLimit - |found|;
    if rows[i - 1].contractId == contractId {
      var e := HistoryEntry(i, rows[i - 1].txType, rows[i - 1].amount);
      LatestAppend(earlier, e, room);
      assert found + ([e] + Latest(earlier, room - 1)) == (found + [e]) + Latest(earlier, room - 1);
    } else {
      assert earlier + [] == earlier;
      assert found + [] == found;
    }
  }

  /** What `ORDER BY contract_id DESC LIMIT 5` may return: every row of the query has the same
      contract_id, so the sort leaves the order to the engine and only the number of rows, and
      that they are distinct rows of this contract, is fixed. */
  predicate AdmissibleHistory(rows: seq<TxRow>, contractId: string, r: seq<HistoryEntry>)
  {
    var h := History(rows, contractId);
    |r| == Min(HistoryLimit, |h|) && multiset(r) <= multiset(h)
  }

  /** The contract rows once `key` is sure to have one: unchanged when present, else with the
      zero-balance row of `owner` added. */
  function WithRow(accounts: map<string, Account>, key: string, owner: string): map<string, Account>
  {
    if key in accounts then accounts else accounts[key := Account(owner, 0)]
  }

  lemma WithRowAddsOnlyThatRow(accounts: map<string, Account>, key: string, owner: string)
    ensures var r := WithRow(accounts, key, owner);
      && key in r
      && (forall k :: k in accounts ==> k in r && r[k] == accounts[k])
      && (forall k :: k in r && k !in accounts ==> k == key && r[k] == Account(owner, 0))
  {
  }

  /** load_or_create, step by step: the row it opens the contract from, and the contract rows
      afterwards. */
  function OpenEffect(contractId: string, owner: string, contracts: map<string, Account>, faults: set<Call>)
    : (Result<Account>, map<string, Account>)
  {
    if CreateContractTable in faults || CreateTransactionsTable in faults || FindContract in faults then
      (Err(SqlFailure), contracts)
    else if contractId !in contracts && InsertContract in faults then (Err(SqlFailure), contracts)
    else
      var ready := WithRow(contracts, contractId, owner);
      if SelectContract in faults then (Err(SqlFailure), ready)
      else if ready[contractId].balance < 0 then (Err(OutOfRange), ready)
      else (Ok(ready[contractId]), ready)
  }

  /** An existing row is opened as stored and nothing is written. */
  lemma OpenReturnsStoredRow(contractId: string, owner: string, contracts: map<string, Account>, faults: set<Call>)
    requires contractId in contracts && contracts[contractId].balance >= 0
    requires faults !! {CreateContractTable, CreateTransactionsTable, FindContract, SelectContract}
    ensures OpenEffect(contractId, owner, contracts, faults) == (Ok(contracts[contractId]), contracts)
  {
  }

  /** A missing row is inserted as (contractId, owner, 0) and opened with balance 0. */
  lemma OpenInsertsMissingRow(contractId: string, owner: string, contracts: map<string, Account>, faults: set<Call>)
    requires contractId !in contracts
    requires faults !! {CreateContractTable, CreateTransactionsTable, FindContract, InsertContract, SelectContract}
    ensures OpenEffect(contractId, owner, contracts, faults)
            == (Ok(Account(owner, 0)), contracts[contractId := Account(owner, 0)])
  {
  }

  /** Whatever fails, load_or_create writes nothing but the zero-balance row of a missing id, and
      an opened contract agrees with its stored row, whose balance is not negative. */
  lemma OpenWritesAtMostTheNewRow(contractId: string, owner: string, contracts: map<string, Account>, faults: set<Call>)
    ensures var e := OpenEffect(contractId, owner, contracts, faults);
      && (e.1 == contracts || (contractId !in contracts && e.1 == contracts[contractId := Account(owner, 0)]))
      && (e.0.Ok? ==> contractId in e.1 && e.1[contractId] == e.0.value && e.0.value.balance >= 0)
  {
  }

  /** What an operation leaves behind: its result, the in-memory balance, and the two tables. */
  datatype Effect = Effect(result: Result<()>, balance: nat, contracts: map<string, Account>, transactions: seq<TxRow>)

  /** log_transaction of `contractId`: its result and the transactions table afterwards. */
  function Logged(contractId: string, contracts: map<string, Account>, rows: seq<TxRow>,
                  amount: int, txType: string, faults: set<Call>): (Result<()>, seq<TxRow>)
  {
    if LogCheck in faults then (Err(SqlFailure), rows)
    else if contractId !in contracts then (Err(ContractNotFound(contractId)), rows)
    else if LogInsert in faults then (Err(SqlFailure), rows)
    else (Ok(()), rows + [TxRow(contractId, txType, amount)])
  }

  /** Logging succeeds exactly when the contract row exists and neither call fails, and then
      appends one row of this contract; otherwise it appends nothing, and a missing row is
      reported as such. */
  lemma LoggingNeedsTheRow(contractId: string, contracts: map<string, Account>, rows: seq<TxRow>,
                           amount: int, txType: string, faults: set<Call>)
    ensures var l := Logged(contractId, contracts, rows, amount, txType, faults);
      && (l.0.Ok? <==> contractId in contracts && faults !! {LogCheck, LogInsert})
      && (l.0.Ok? ==> l.1 == rows + [TxRow(contractId, txType, amount)])
      && (l.0.Err? ==> l.1 == rows)
      && (contractId !in contracts && LogCheck !in faults ==> l.0 == Err(ContractNotFound(contractId)))
  {
  }

  /** deposit, step by step, from in-memory balance `balance` and tables `contracts`, `rows`. */
  function DepositEffect(contractId: string, owner: string, balance: nat, contracts: map<string, Account>,
                         rows: seq<TxRow>, amount: nat, faults: set<Call>): Effect
  {
    if amount == 0 then Effect(Ok(()), balance, contracts, rows)
    else if CheckContract in faults then Effect(Err(SqlFailure), balance, contracts, rows)
    else if contractId !in contracts && ReinsertContract in faults then Effect(Err(SqlFailure), balance, contracts, rows)
    else
      var ready := WithRow(contracts, contractId, owner);
      var raised := balance + amount;
      if StoreBalance in faults then Effect(Err(SqlFailure), raised, ready, rows)
      else
        var stored := SetBalance(ready, contractId, raised);
        var (logged, rows') := Logged(contractId, stored, rows, amount, DepositType, faults);
        if logged.Ok? then Effect(Ok(()), raised, stored, rows')
        else if RestoreBalance in faults then Effect(Err(SqlFailure), balance, stored, rows')
        else Effect(logged, balance, SetBalance(stored, contractId, balance), rows')
  }

  /** withdraw, step by step: no zero guard past the first line, no rollback. */
  function WithdrawEffect(contractId: string, balance: nat, contracts: map<string, Account>,
                          rows: seq<TxRow>, amount: nat, faults: set<Call>): Effect
  {
    if amount == 0 || balance < amount then Effect(Ok(()), balance, contracts, rows)
    else
      var lowered := balance - amount;
      if StoreBalance in faults then Effect(Err(SqlFailure), lowered, contracts, rows)
      else
        var stored := SetBalance(contracts, contractId, lowered);
        var (logged, rows') := Logged(contractId, stored, rows, amount, WithdrawType, faults);
        Effect(logged, lowered, stored, rows')
  }

  /** deposit(0) and withdraw(0) succeed and change nothing. */
  lemma ZeroAmountIsNoOp(contractId: string, owner: string, balance: nat, contracts: map<string, Account>,
                         rows: seq<TxRow>, faults: set<Call>)
    ensures DepositEffect(contractId, owner, balance, contracts, rows, 0, faults) == Effect(Ok(()), balance, contracts, rows)
    ensures WithdrawEffect(contractId, balance, contracts, rows, 0, faults) == Effect(Ok(()), balance, contracts, rows)
  {
  }

  /** A deposit that meets no failure raises the balance by exactly the amount, in memory and in
      the row, and appends exactly one 'deposit' row for this contract. */
  lemma DepositSucceeds(contractId: string, owner: string, balance: nat, contracts: map<string, Account>,
                        rows: seq<TxRow>, amount: nat, faults: set<Call>)
    requires amount > 0 && faults !! {CheckContract, ReinsertContract, StoreBalance, LogCheck, LogInsert}
    ensures var e := DepositEffect(contractId, owner, balance, contracts, rows, amount, faults);
      && e.result.Ok? && e.balance == balance + amount
      && contractId in e.contracts && e.contracts[contractId].balance == balance + amount
      && e.transactions == rows + [TxRow(contractId, DepositType, amount)]
  {
  }

  /** When logging a deposit fails and the rollback write succeeds, the balance is back to its
      value before the call in memory and in the store, and no row is appended. */
  lemma DepositRollsBack(contractId: string, owner: string, balance: nat, contracts: map<string, Account>,
                         rows: seq<TxRow>, amount: nat, faults: set<Call>)
    requires amount > 0 && faults !! {CheckContract, StoreBalance, RestoreBalance}
    requires LogCheck in faults || LogInsert in faults
    requires contractId in contracts && contracts[contractId].balance == balance
    ensures DepositEffect(contractId, owner, balance, contracts, rows, amount, faults)
            == Effect(Err(SqlFailure), balance, contracts, rows)
  {
    var stored := SetBalance(contracts, contractId, balance + amount);
    assert SetBalance(stored, contractId, balance) == contracts;
  }

  /** Unless the rollback write itself fails, a deposit on a row that agrees with memory either
      changes nothing durable, or succeeds with the new balance stored and its row logged. */
  lemma DepositLeavesNoUnloggedChange(contractId: string, owner: string, balance: nat, contracts: map<string, Account>,
                                      rows: seq<TxRow>, amount: nat, faults: set<Call>)
    requires RestoreBalance !in faults
    requires contractId in contracts && contracts[contractId].balance == balance
    ensures var e := DepositEffect(contractId, owner, balance, contracts, rows, amount, faults);
      || (e.contracts == contracts && e.transactions == rows)
      || (e.result.Ok? && e.contracts == SetBalance(contracts, contractId, balance + amount)
          && e.transactions == rows + [TxRow(contractId, DepositType, amount)])
  {
    if amount > 0 && faults !! {CheckContract, StoreBalance} && (LogCheck in faults || LogInsert in faults) {
      DepositRollsBack(contractId, owner, balance, contracts, rows, amount, faults);
    }
  }

  /** A withdrawal beyond the in-memory balance is no error and changes nothing. */
  lemma InsufficientFundsChangesNothing(contractId: string, balance: nat, contracts: map<string, Account>,
                                        rows: seq<TxRow>, amount: nat, faults: set<Call>)
    requires amount > balance
    ensures WithdrawEffect(contractId, balance, contracts, rows, amount, faults) == Effect(Ok(()), balance, contracts, rows)
  {
  }

  /** A withdrawal within the balance lowers it by exactly the amount (so it stays non-negative);
      with no failure, the row stores the new balance and one 'withdraw' row is appended. */
  lemma WithdrawSucceeds(contractId: string, balance: nat, contracts: map<string, Account>,
                         rows: seq<TxRow>, amount: nat, faults: set<Call>)
    requires 0 < amount <= balance
    ensures WithdrawEffect(contractId, balance, contracts, rows, amount, faults).balance == balance - amount
    ensures faults !! {StoreBalance, LogCheck, LogInsert} && contractId in contracts ==>
      var e := WithdrawEffect(contractId, balance, contracts, rows, amount, faults);
      && e.result.Ok? && e.contracts[contractId].balance == balance - amount
      && e.transactions == rows + [TxRow(contractId, WithdrawType, amount)]
  {
  }

  /** Unlike deposit, withdraw keeps the lowered balance in the store when logging fails: the
      stored balance changes with no row to account for it. */
  lemma WithdrawDoesNotRollBack(contractId: string, balance: nat, contracts: map<string, Account>,
                                rows: seq<TxRow>, amount: nat, faults: set<Call>)
    requires 0 < amount <= balance && StoreBalance !in faults && LogInsert in faults
    requires contractId in contracts && contracts[contractId].balance == balance
    ensures var e := WithdrawEffect(contractId, balance, contracts, rows, amount, faults);
      && e.result.Err? && e.transactions == rows
      && e.contracts[contractId].balance == balance - amount != contracts[contractId].balance
      && (Balanced(contracts, rows, contractId) ==> !Balanced(e.contracts, e.transactions, contractId))
  {
  }

  /** Neither operation adds or removes a contract row other than its own, or changes one. */
  lemma OtherContractsUntouched(contractId: string, owner: string, balance: nat, contracts: map<string, Account>,
                                rows: seq<TxRow>, amount: nat, faults: set<Call>, other: string)
    requires other != contractId
    ensures var d := DepositEffect(contractId, owner, balance, contracts, rows, amount, faults);
      (other in d.contracts <==> other in contracts) && (other in contracts ==> d.contracts[other] == contracts[other])
    ensures var w := WithdrawEffect(contractId, balance, contracts, rows, amount, faults);
      (other in w.contracts <==> other in contracts) && (other in contracts ==> w.contracts[other] == contracts[other])
  {
  }

  /** Every row either operation appends belongs to this contract, and rows are only appended. */
  lemma RowsOnlyAppendedForThisContract(contractId: string, owner: string, balance: nat, contracts: map<string, Account>,
                                        rows: seq<TxRow>, amount: nat, faults: set<Call>)
    ensures var d := DepositEffect(contractId, owner, balance, contracts, rows, amount, faults);
      d.transactions == rows || d.transactions == rows + [TxRow(contractId, DepositType, amount)]
    ensures var w := WithdrawEffect(contractId, balance, contracts, rows, amount, faults);
      w.transactions == rows || w.transactions == rows + [TxRow(contractId, WithdrawType, amount)]
  {
  }

  /** After a successful deposit or withdrawal, memory and the stored row agree. */
  lemma SuccessLeavesRowInSync(contractId: string, owner: string, balance: nat, contracts: map<string, Account>,
                               rows: seq<TxRow>, amount: nat, faults: set<Call>)
    ensures var d := DepositEffect(contractId, owner, balance, contracts, rows, amount, faults);
      d.result.Ok? && amount > 0 ==> contractId in d.contracts && d.contracts[contractId].balance == d.balance
    ensures var w := WithdrawEffect(contractId, balance, contracts, rows, amount, faults);
      w.result.Ok? && 0 < amount <= balance ==> contractId in w.contracts && w.contracts[contractId].balance == w.balance
  {
  }

  /** When the balance write itself fails, memory has already moved and the row has not: the
      in-memory balance (what status reports) is ahead of the store after a deposit, and
      behind it after a withdrawal, and the error is returned. */
  lemma StoreFailureLeavesMemoryApart(contractId: string, owner: string, balance: nat, contracts: map<string, Account>,
                                      rows: seq<TxRow>, amount: nat, faults: set<Call>)
    requires amount > 0 && StoreBalance in faults
    requires contractId in contracts && contracts[contractId].balance == balance
    ensures CheckContract !in faults ==>
      var d := DepositEffect(contractId, owner, balance, contracts, rows, amount, faults);
      && d == Effect(Err(SqlFailure), balance + amount, contracts, rows)
      && d.contracts[contractId].balance != d.balance
    ensures amount <= balance ==>
      var w := WithdrawEffect(contractId, balance, contracts, rows, amount, faults);
      && w == Effect(Err(SqlFailure), balance - amount, contracts, rows)
      && w.contracts[contractId].balance != w.balance
  {
  }

  /** The net of the logged rows of `contractId`: deposits count up, withdrawals down (the
      transactions table admits no other tx_type). */
  function Net(rows: seq<TxRow>, contractId: string): int
  {
    if rows == [] then 0
    else
      var last := rows[|rows| - 1];
      Net(rows[..|rows| - 1], contractId)
        + (if last.contractId != contractId then 0
           else if last.txType == DepositType then last.amount
           else if last.txType == WithdrawType then -last.amount
           else 0)
  }

  /** The stored balance of `contractId` is what its logged rows add up to. */
  predicate Balanced(contracts: map<string, Account>, rows: seq<TxRow>, contractId: string)
  {
    contractId in contracts && contracts[contractId].balance == Net(rows, contractId)
  }

  /** Appending one row of `contractId` moves its net by that row's signed amount. */
  lemma NetAppend(rows: seq<TxRow>, contractId: string, txType: string, amount: int)
    ensures Net(rows + [TxRow(contractId, txType, amount)], contractId)
            == Net(rows, contractId)
               + (if txType == DepositType then amount else if txType == WithdrawType then -amount else 0)
  {
    assert (rows + [TxRow(contractId, txType, amount)])[..|rows|] == rows;
  }

  /** Thanks to its rollback, a deposit on a synced, balanced contract leaves the stored balance
      equal to the net of the log, whatever fails, unless the rollback write itself fails. */
  lemma DepositKeepsLogBalanced(contractId: string, owner: string, balance: nat, contracts: map<string, Account>,
                                rows: seq<TxRow>, amount: nat, faults: set<Call>)
    requires RestoreBalance !in faults
    requires contractId in contracts && contracts[contractId].balance == balance
    requires Balanced(contracts, rows, contractId)
    ensures var e := DepositEffect(contractId, owner, balance, contracts, rows, amount, faults);
      Balanced(e.contracts, e.transactions, contractId)
  {
    DepositLeavesNoUnloggedChange(contractId, owner, balance, contracts, rows, amount, faults);
    NetAppend(rows, contractId, DepositType, amount);
  }

  /** A withdrawal keeps the stored balance equal to the net of the log only when logging does
      not fail; see `WithdrawDoesNotRollBack` for the case where it does. */
  lemma WithdrawKeepsLogBalanced(contractId: string, balance: nat, contracts: map<string, Account>,
                                 rows: seq<TxRow>, amount: nat, faults: set<Call>)
    requires faults !! {LogCheck, LogInsert}
    requires contractId in contracts && contracts[contractId].balance == balance
    requires Balanced(contracts, rows, contractId)
    ensures var e := WithdrawEffect(contractId, balance, contracts, rows, amount, faults);
      Balanced(e.contracts, e.transactions, contractId)
  {
    NetAppend(rows, contractId, WithdrawType, amount);
  }

  class Contract {
    const contractId: string
    const owner: string
    var balance: nat

    constructor (contractId: string, owner: string, balance: nat)
      ensures this.contractId == contractId && this.owner == owner && this.balance == balance
    {
      this.contractId := contractId;
      this.owner := owner;
      this.balance := balance;
    }

    /** The in-memory balance is the one stored under this contract's id. */
    predicate Synced(db: Db)
      reads this, db
    {
      contractId in db.contracts && db.contracts[contractId].balance == balance
    }

    /** Upsert by id: an existing row is returned as stored and never written; a missing one is
        inserted with the given owner and balance 0. */
    static method LoadOrCreate(db: Db, contractId: string, owner: string, faults: set<Call>)
      returns (r: Result<Contract>)
      modifies db`contracts
      ensures var e := OpenEffect(contractId, owner, old(db.contracts), faults);
        && db.contracts == e.1
        && r.Ok? == e.0.Ok?
        && (r.Err? ==> r.error == e.0.error)
        && (r.Ok? ==> fresh(r.value) && r.value.contractId == contractId
                      && Account(r.value.owner, r.value.balance) == e.0.value)
      ensures r.Ok? ==> r.value.Synced(db)
                        && r.value.Status() == (db.contracts[contractId].owner, db.contracts[contractId].balance)
    {
      if CreateContractTable in faults || CreateTransactionsTable in faults {
        return Err(SqlFailure);
      }
      if FindContract in faults {
        return Err(SqlFailure);
      }
      if contractId !in db.contracts {
        if InsertContract in faults {
          return Err(SqlFailure);
        }
        db.contracts := WithRow(db.contracts, contractId, owner);
      }
      if SelectContract in faults {
        return Err(SqlFailure);
      }
      // The row was found or has just been inserted, so the source's "no rows" branch is dead.
      var row := db.contracts[contractId];
      if row.balance < 0 {
        return Err(OutOfRange);
      }
      var c := new Contract(contractId, row.owner, row.balance);
      return Ok(c);
    }

    /** Deposit: 0 is a no-op; otherwise raise the balance, persist it and log a 'deposit' row,
        and if the row cannot be logged, lower the balance again and persist that. */
    method Deposit(db: Db, amount: nat, faults: set<Call>) returns (r: Result<()>)
      modifies this, db`contracts, db`transactions
      ensures Effect(r, balance, db.contracts, db.transactions)
              == DepositEffect(contractId, owner, old(balance), old(db.contracts), old(db.transactions), amount, faults)
      ensures r.Ok? && (amount > 0 || old(Synced(db))) ==> Synced(db)
      ensures old(Synced(db)) && amount > 0 && CheckContract !in faults && StoreBalance in faults ==>
        r.Err? && !Synced(db) && Status().1 == db.contracts[contractId].balance + amount
    {
      if amount == 0 {
        return Ok(());
      }
      if CheckContract in faults {
        return Err(SqlFailure);
      }
      if contractId !in db.contracts {
        if ReinsertContract in faults {
          return Err(SqlFailure);
        }
        db.contracts := WithRow(db.contracts, contractId, owner);
      }
      ghost var ready := db.contracts;
      assert ready == WithRow(old(db.contracts), contractId, owner);
      balance := balance + amount;
      r := UpdateBalance(db, StoreBalance in faults);
      if r.Err? {
        return;
      }
      ghost var stored := db.contracts;
      assert stored == SetBalance(ready, contractId, old(balance) + amount);
      var logged := LogTransaction(db, amount, DepositType, faults);
      ghost var rows' := db.transactions;
      assert (logged, rows') == Logged(contractId, stored, old(db.transactions), amount, DepositType, faults);
      if logged.Err? {
        balance := balance - amount;
        r := UpdateBalance(db, RestoreBalance in faults);
        if r.Err? {
          assert Effect(r, balance, db.contracts, db.transactions) == Effect(Err(SqlFailure), old(balance), stored, rows');
          return;
        }
        assert Effect(logged, balance, db.contracts, db.transactions)
               == Effect(logged, old(balance), SetBalance(stored, contractId, old(balance)), rows');
        return logged;
      }
      r := Ok(());
      assert Effect(r, balance, db.contracts, db.transactions) == Effect(Ok(()), old(balance) + amount, stored, rows');
    }

    /** Withdraw: 0 is a no-op; an amount above the in-memory balance is refused without error;
        otherwise lower the balance, persist it and log a 'withdraw' row, with no rollback. */
    method Withdraw(db: Db, amount: nat, faults: set<Call>) returns (r: Result<()>)
      modifies this, db`contracts, db`transactions
      ensures Effect(r, balance, db.contracts, db.transactions)
              == WithdrawEffect(contractId, old(balance), old(db.contracts), old(db.transactions), amount, faults)
      ensures r.Ok? && (0 < amount <= old(balance) || old(Synced(db))) ==> Synced(db)
      ensures old(Synced(db)) && 0 < amount <= old(balance) && StoreBalance in faults ==>
        r.Err? && !Synced(db) && Status().1 + amount == db.contracts[contractId].balance
    {
      if amount == 0 {
        return Ok(());
      }
      if balance >= amount {
        balance := balance - amount;
        r := UpdateBalance(db, StoreBalance in faults);
        if r.Err? {
          return;
        }
        r := LogTransaction(db, amount, WithdrawType, faults);
        if r.Err? {
          return;
        }
      }
      r := Ok(());
    }

    /** show_history as written: at most five rows of this contract, in an order the query
        leaves to the engine (this body returns them in table order). */
    method ShowHistory(db: Db, faults: set<Call>) returns (r: Result<seq<HistoryEntry>>)
      ensures r.Err? <==> HistoryQuery in faults
      ensures r.Ok? ==> AdmissibleHistory(db.transactions, contractId, r.value)
    {
      if HistoryQuery in faults {
        return Err(SqlFailure);
      }
      var rows := db.transactions;
      var found: seq<HistoryEntry> := [];
      var i := 0;
      while i < |rows| && |found| < HistoryLimit
        invariant 0 <= i <= |rows|
        invariant found == History(rows[..i], contractId)
        invariant |found| <= HistoryLimit
      {
        HistoryStep(rows, contractId, i + 1);
        if rows[i].contractId == contractId {
          found := found + [HistoryEntry(i + 1, rows[i].txType, rows[i].amount)];
        }
        i := i + 1;
      }
      var h := History(rows, contractId);
      if i == |rows| {
        assert rows[..i] == rows;
      } else {
        HistoryOfPrefix(rows, contractId, i);
        assert h == found + h[|found|..];
      }
      return Ok(found);
    }

    /** The history query as evidently intended (`ORDER BY tx_id DESC LIMIT 5`): the five most
        recent rows of this contract, the most recent first. */
    method ShowLatestHistory(db: Db, faults: set<Call>) returns (r: Result<seq<HistoryEntry>>)
      ensures r.Err? <==> HistoryQuery in faults
      ensures r.Ok? ==> r.value == Latest(History(db.transactions, contractId), HistoryLimit)
    {
      if HistoryQuery in faults {
        return Err(SqlFailure);
      }
      var rows := db.transactions;
      var found: seq<HistoryEntry> := [];
      var i := |rows|;
      assert rows[..i] == rows;
      while 0 < i && |found| < HistoryLimit
        invariant 0 <= i <= |rows|
        invariant |found| <= HistoryLimit
        invariant Collected(found, rows, contractId, i)
      {
        var next := found;
        if rows[i - 1].contractId == contractId {
          next := found + [HistoryEntry(i, rows[i - 1].txType, rows[i - 1].amount)];
        }
        CollectStep(found, next, rows, contractId, i);
        found, i := next, i - 1;
      }
      if i == 0 {
        assert rows[..i] == [];
      }
      assert found + [] == found;
      return Ok(found);
    }

    /** status: the in-memory owner and balance, not re-read from the store. How they relate to
        the stored row is stated by LoadOrCreate, Deposit and Withdraw through `Synced`. */
    function Status(): (string, nat)
      reads this
    {
      (owner, balance)
    }

    /** update_balance: write the in-memory balance into this contract's row, and no other. */
    method UpdateBalance(db: Db, fails: bool) returns (r: Result<()>)
      modifies db`contracts
      ensures r == if fails then Err(SqlFailure) else Ok(())
      ensures db.contracts == if fails then old(db.contracts) else SetBalance(old(db.contracts), contractId, balance)
    {
      if fails {
        return Err(SqlFailure);
      }
      db.contracts := SetBalance(db.contracts, contractId, balance);
      r := Ok(());
    }

    /** log_transaction: refuse (code 787) when this contract has no row, else append one row. */
    method LogTransaction(db: Db, amount: int, txType: string, faults: set<Call>) returns (r: Result<()>)
      modifies db`transactions
      ensures (r, db.transactions) == Logged(contractId, db.contracts, old(db.transactions), amount, txType, faults)
    {
      if LogCheck in faults {
        return Err(SqlFailure);
      }
      if contractId !in db.contracts {
        return Err(ContractNotFound(contractId));
      }
      if LogInsert in faults {
        return Err(SqlFailure);
      }
      db.transactions := db.transactions + [TxRow(contractId, txType, amount)];
      r := Ok(());
    }
  }

  /** As written, show_history may leave out the most recent transaction: once a contract has
      more than five rows, its five oldest rows are an admissible answer. */
  lemma OldestFiveAreAdmissible(rows: seq<TxRow>, contractId: string)
    requires |History(rows, contractId)| > HistoryLimit
    ensures var h := History(rows, contractId);
      AdmissibleHistory(rows, contractId, h[..HistoryLimit])
      && h[|h| - 1] !in h[..HistoryLimit]
      && h[..HistoryLimit] != Latest(h, HistoryLimit)
  {
    var h := History(rows, contractId);
    var oldest := h[..HistoryLimit];
    assert h == oldest + h[HistoryLimit..];
    assert multiset(h) == multiset(oldest) + multiset(h[HistoryLimit..]);
    HistoryIsTheContractsRows(rows, contractId);
    var last := h[|h| - 1];
    forall k | 0 <= k < HistoryLimit
      ensures oldest[k] != last
    {
      assert h[k].txId < last.txId;
    }
    LatestIsNewestFirst(h, HistoryLimit, 0);
    assert oldest[0] != Latest(h, HistoryLimit)[0];
  }

  /** The test of contract.rs for two owners in one store, with no store failure: Alice's
      withdrawal leaves Bob's balance alone, provided their ids differ. */
  method OwnersAreIsolated(aliceId: string, bobId: string) returns (aliceStored: int, bobStored: int)
    requires aliceId != bobId
    ensures aliceStored == 50 && bobStored == 200
  {
    var db := new Db.Empty();
    var alice := Contract.LoadOrCreate(db, aliceId, "alice", {});
    var ok := alice.value.Deposit(db, 100, {});
    var bob := Contract.LoadOrCreate(db, bobId, "bob", {});
    ok := bob.value.Deposit(db, 200, {});
    assert alice.value.balance == 100 && bob.value.balance == 200;
    ok := alice.value.Withdraw(db, 50, {});
    assert alice.value.balance == 50 && bob.value.balance == 200;
    aliceStored, bobStored := db.contracts[aliceId].balance, db.contracts[bobId].balance;
  }
}
