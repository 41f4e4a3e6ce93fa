/** The Rust migration m_20240414_002_data_transform: copy the accounts and transactions of the
    older CLI's database (kept as `old_contract` and `old_transactions`) into the current schema.

    Accounts are re-keyed by the hash of their owner and inserted with INSERT OR IGNORE, so a row
    already holding that key, or that owner (the column is UNIQUE), wins. Each legacy transaction
    is re-keyed through the owner of the first `old_contract` row with its old id, and a negative
    amount is written as 0. Nothing runs unless both legacy tables exist. Rows are read and written
    one at a time, so a failure part-way keeps what was already written. */
module DataTransform {
  import opened Store
  import opened Hash

  /** The store calls of the transform; the ones in loops are numbered by legacy row. */
  datatype Call =
    | CheckOldContract              // table_exists("old_contract")
    | CheckOldTransactions          // table_exists("old_transactions")
    | SelectAccounts                // the query over old_contract
    | InsertAccount(row: nat)       // reading or inserting the row-th legacy account
    | SelectTransactions            // the query over old_transactions
    | LookupOwner(row: nat)         // the owner query for the row-th legacy transaction
    | InsertTransaction(row: nat)   // inserting the row-th migrated transaction

  const OldContractTable := "old_contract"
  const OldTransactionsTable := "old_transactions"

  /** `SELECT COUNT(*) FROM sqlite_master WHERE type='table' AND name=?`. */
  function CountTables(catalogue: seq<SchemaObject>, name: string): nat
  {
    if catalogue == [] then 0
    else
      CountTables(catalogue[..|catalogue| - 1], name)
        + (if catalogue[|catalogue| - 1] == SchemaObject("table", name) then 1 else 0)
  }

  predicate TableExists(catalogue: seq<SchemaObject>, name: string)
  {
    CountTables(catalogue, name) > 0
  }

  /** A table exists exactly when the catalogue lists a table of that name. */
  lemma {:induction false} TableExistsIffCatalogued(catalogue: seq<SchemaObject>, name: string)
    ensures TableExists(catalogue, name) <==>
      exists i :: 0 <= i < |catalogue| && catalogue[i] == SchemaObject("table", name)
  {
    if catalogue != [] {
      var init := catalogue[..|catalogue| - 1];
      TableExistsIffCatalogued(init, name);
      if TableExists(init, name) {
        var i :| 0 <= i < |init| && init[i] == SchemaObject("table", name);
        assert catalogue[i] == init[i];
      }
      if exists i :: 0 <= i < |catalogue| && catalogue[i] == SchemaObject("table", name) {
        var i :| 0 <= i < |catalogue| && catalogue[i] == SchemaObject("table", name);
        if i < |init| {
          assert init[i] == catalogue[i];
        }
      }
    }
  }

  /** The amount written for a legacy amount: the least non-negative value not below it. */
  function Clamp(amount: int): (r: int)
    ensures r >= 0 && r >= amount
    ensures r == amount || r == 0
  {
    if amount < 0 then 0 else amount
  }

  /** `SELECT owner FROM old_contract WHERE id = ?` as query_row reads it: the first match. */
  function FindOwner(accounts: seq<LegacyAccount>, id: int): Option<string>
  {
    if accounts == [] then None
    else if accounts[0].id == id then Some(accounts[0].owner)
    else FindOwner(accounts[1..], id)
  }

  /** FindOwner finds an owner exactly when some row has the id, and then the first such row's. */
  lemma {:induction false} FindOwnerIsFirstMatch(accounts: seq<LegacyAccount>, id: int)
    ensures FindOwner(accounts, id).None? <==> forall i :: 0 <= i < |accounts| ==> accounts[i].id != id
    ensures FindOwner(accounts, id).Some? ==>
      exists i :: 0 <= i < |accounts| && accounts[i].id == id && accounts[i].owner == FindOwner(accounts, id).value
                  && forall j :: 0 <= j < i ==> accounts[j].id != id
  {
    if accounts != [] && accounts[0].id != id {
      var rest := accounts[1..];
      FindOwnerIsFirstMatch(rest, id);
      assert forall i :: 0 < i < |accounts| ==> accounts[i] == rest[i - 1];
      if FindOwner(rest, id).Some? {
        var i :| 0 <= i < |rest| && rest[i].id == id && rest[i].owner == FindOwner(rest, id).value
                 && forall j :: 0 <= j < i ==> rest[j].id != id;
        assert accounts[i + 1] == rest[i];
      }
    }
  }

  /** Some row already belongs to `owner`. */
  predicate OwnerTaken(contracts: map<string, Account>, owner: string)
  {
    exists k :: k in contracts && contracts[k].owner == owner
  }

  /** INSERT OR IGNORE into `contract`: no row is added when the key or the owner is taken. */
  function InsertOrIgnore(contracts: map<string, Account>, key: string, owner: string, balance: int): map<string, Account>
  {
    if key in contracts || OwnerTaken(contracts, owner) then contracts
    else contracts[key := Account(owner, balance)]
  }

  /** The account loop over the first n legacy accounts: stops at the first failing row. */
  function AccountPhase(contracts: map<string, Account>, accounts: seq<LegacyAccount>, n: nat,
                        hashOwner: string -> Digest, faults: set<Call>): (Result<()>, map<string, Account>)
    requires n <= |accounts|
  {
    if n == 0 then (Ok(()), contracts)
    else
      var prev := AccountPhase(contracts, accounts, n - 1, hashOwner, faults);
      if prev.0.Err? then prev
      else if InsertAccount(n - 1) in faults then (Err(SqlFailure), prev.1)
      else
        var a := accounts[n - 1];
        (Ok(()), InsertOrIgnore(prev.1, hashOwner(a.owner), a.owner, a.balance))
  }

  /** One legacy transaction: look up its owner, then append it re-keyed and clamped. */
  function MigrateOne(rows: seq<TxRow>, accounts: seq<LegacyAccount>, tx: LegacyTx, row: nat,
                      hashOwner: string -> Digest, faults: set<Call>): (Result<()>, seq<TxRow>)
  {
    if LookupOwner(row) in faults then (Err(SqlFailure), rows)
    else match FindOwner(accounts, tx.contractId)
      case None => (Err(QueryReturnedNoRows), rows)
      case Some(owner) =>
        if InsertTransaction(row) in faults then (Err(SqlFailure), rows)
        else (Ok(()), rows + [TxRow(hashOwner(owner), tx.txType, Clamp(tx.amount))])
  }

  /** The transaction loop over the first n legacy transactions: stops at the first failing row. */
  function TxPhase(rows: seq<TxRow>, accounts: seq<LegacyAccount>, txs: seq<LegacyTx>, n: nat,
                   hashOwner: string -> Digest, faults: set<Call>): (Result<()>, seq<TxRow>)
    requires n <= |txs|
  {
    if n == 0 then (Ok(()), rows)
    else
      var prev := TxPhase(rows, accounts, txs, n - 1, hashOwner, faults);
      if prev.0.Err? then prev
      else MigrateOne(prev.1, accounts, txs[n - 1], n - 1, hashOwner, faults)
  }

  /** What `run` leaves behind: its result, the contract rows and the transaction rows. */
  datatype Outcome = Outcome(result: Result<()>, contracts: map<string, Account>, transactions: seq<TxRow>)

  /** run, step by step, over the current tables, the catalogue and the two legacy tables. */
  function TransformEffect(contracts: map<string, Account>, transactions: seq<TxRow>, catalogue: seq<SchemaObject>,
                           accounts: seq<LegacyAccount>, txs: seq<LegacyTx>,
                           hashOwner: string -> Digest, faults: set<Call>): Outcome
  {
    if CheckOldContract in faults || CheckOldTransactions in faults then Outcome(Err(SqlFailure), contracts, transactions)
    else if !TableExists(catalogue, OldContractTable) || !TableExists(catalogue, OldTransactionsTable) then
      Outcome(Ok(()), contracts, transactions)
    else if SelectAccounts in faults then Outcome(Err(SqlFailure), contracts, transactions)
    else
      var migrated := AccountPhase(contracts, accounts, |accounts|, hashOwner, faults);
      if migrated.0.Err? then Outcome(migrated.0, migrated.1, transactions)
      else if SelectTransactions in faults then Outcome(Err(SqlFailure), migrated.1, transactions)
      else
        var logged := TxPhase(transactions, accounts, txs, |txs|, hashOwner, faults);
        Outcome(logged.0, migrated.1, logged.1)
  }

  /** Once the account loop has failed, the later rows are never reached. */
  lemma {:induction false} AccountPhaseStaysFailed(contracts: map<string, Account>, accounts: seq<LegacyAccount>,
                                                   n: nat, m: nat, hashOwner: string -> Digest, faults: set<Call>)
    requires n <= m <= |accounts|
    requires AccountPhase(contracts, accounts, n, hashOwner, faults).0.Err?
    ensures AccountPhase(contracts, accounts, m, hashOwner, faults) == AccountPhase(contracts, accounts, n, hashOwner, faults)
    decreases m
  {
    if n < m {
      AccountPhaseStaysFailed(contracts, accounts, n, m - 1, hashOwner, faults);
    }
  }

  /** Once the transaction loop has failed, the later rows are never reached. */
  lemma {:induction false} TxPhaseStaysFailed(rows: seq<TxRow>, accounts: seq<LegacyAccount>, txs: seq<LegacyTx>,
                                              n: nat, m: nat, hashOwner: string -> Digest, faults: set<Call>)
    requires n <= m <= |txs|
    requires TxPhase(rows, accounts, txs, n, hashOwner, faults).0.Err?
    ensures TxPhase(rows, accounts, txs, m, hashOwner, faults) == TxPhase(rows, accounts, txs, n, hashOwner, faults)
    decreases m
  {
    if n < m {
      TxPhaseStaysFailed(rows, accounts, txs, n, m - 1, hashOwner, faults);
    }
  }

  /** Every row of `before` is still in `after`, unchanged. */
  predicate KeepsRows(before: map<string, Account>, after: map<string, Account>)
  {
    forall k :: k in before ==> k in after && after[k] == before[k]
  }

  /** INSERT OR IGNORE never changes or removes a row, whether it was there before the migration
      or written by an earlier legacy account with the same owner hash: the first writer of a key
      wins. Rows after n are compared with rows after m, for any n <= m. */
  lemma {:induction false} AccountsNeverOverwritten(contracts: map<string, Account>, accounts: seq<LegacyAccount>,
                                                    n: nat, m: nat, hashOwner: string -> Digest, faults: set<Call>)
    requires n <= m <= |accounts|
    ensures KeepsRows(AccountPhase(contracts, accounts, n, hashOwner, faults).1,
                      AccountPhase(contracts, accounts, m, hashOwner, faults).1)
    decreases m
  {
    if n < m {
      AccountsNeverOverwritten(contracts, accounts, n, m - 1, hashOwner, faults);
      AccountStepKeepsRows(contracts, accounts, m, hashOwner, faults);
    }
  }

  /** One step of the account loop keeps every row it finds. */
  lemma AccountStepKeepsRows(contracts: map<string, Account>, accounts: seq<LegacyAccount>,
                             m: nat, hashOwner: string -> Digest, faults: set<Call>)
    requires 0 < m <= |accounts|
    ensures KeepsRows(AccountPhase(contracts, accounts, m - 1, hashOwner, faults).1,
                      AccountPhase(contracts, accounts, m, hashOwner, faults).1)
  {
  }

  /** The rows that were there before the migration are kept as they were. */
  lemma AccountsFirstWriterWins(contracts: map<string, Account>, accounts: seq<LegacyAccount>,
                                n: nat, hashOwner: string -> Digest, faults: set<Call>)
    requires n <= |accounts|
    ensures var after := AccountPhase(contracts, accounts, n, hashOwner, faults).1;
      forall k :: k in contracts ==> k in after && after[k] == contracts[k]
  {
    AccountsNeverOverwritten(contracts, accounts, 0, n, hashOwner, faults);
  }

  /** Every row the account loop adds is a legacy account of the first n, under its owner's hash,
      with its owner and balance. */
  lemma {:induction false} AccountsComeFromLegacy(contracts: map<string, Account>, accounts: seq<LegacyAccount>,
                                                  n: nat, hashOwner: string -> Digest, faults: set<Call>)
    requires n <= |accounts|
    ensures var after := AccountPhase(contracts, accounts, n, hashOwner, faults).1;
      forall k :: k in after && k !in contracts ==>
        exists i :: 0 <= i < n && k == hashOwner(accounts[i].owner)
                    && after[k] == Account(accounts[i].owner, accounts[i].balance)
  {
    if n > 0 {
      AccountsComeFromLegacy(contracts, accounts, n - 1, hashOwner, faults);
      var prev := AccountPhase(contracts, accounts, n - 1, hashOwner, faults);
      var after := AccountPhase(contracts, accounts, n, hashOwner, faults).1;
      forall k | k in after && k !in contracts
        ensures exists i :: 0 <= i < n && k == hashOwner(accounts[i].owner)
                            && after[k] == Account(accounts[i].owner, accounts[i].balance)
      {
        if k in prev.1 {
          var i :| 0 <= i < n - 1 && k == hashOwner(accounts[i].owner)
                   && prev.1[k] == Account(accounts[i].owner, accounts[i].balance);
        } else {
          assert k == hashOwner(accounts[n - 1].owner);
        }
      }
    }
  }

  /** After a completed account loop, every legacy owner of the first n has a row: its own, or
      the row that made its insert be ignored. */
  lemma {:induction false} AccountsCoverEveryOwner(contracts: map<string, Account>, accounts: seq<LegacyAccount>,
                                                   n: nat, hashOwner: string -> Digest, faults: set<Call>)
    requires n <= |accounts|
    requires AccountPhase(contracts, accounts, n, hashOwner, faults).0.Ok?
    ensures var after := AccountPhase(contracts, accounts, n, hashOwner, faults).1;
      forall i :: 0 <= i < n ==> hashOwner(accounts[i].owner) in after || OwnerTaken(after, accounts[i].owner)
  {
    if n > 0 {
      var prev := AccountPhase(contracts, accounts, n - 1, hashOwner, faults);
      AccountsCoverEveryOwner(contracts, accounts, n - 1, hashOwner, faults);
      var after := AccountPhase(contracts, accounts, n, hashOwner, faults).1;
      var a := accounts[n - 1];
      assert after == InsertOrIgnore(prev.1, hashOwner(a.owner), a.owner, a.balance);
      forall i | 0 <= i < n
        ensures hashOwner(accounts[i].owner) in after || OwnerTaken(after, accounts[i].owner)
      {
        if i < n - 1 && !(hashOwner(accounts[i].owner) in prev.1) {
          var k :| k in prev.1 && prev.1[k].owner == accounts[i].owner;
          assert k in after && after[k] == prev.1[k];
        }
      }
    }
  }

  /** The transaction loop only appends, at most one row per legacy transaction, and every row
      it appends has a non-negative amount. */
  lemma {:induction false} TxPhaseOnlyAppends(rows: seq<TxRow>, accounts: seq<LegacyAccount>, txs: seq<LegacyTx>,
                                              n: nat, hashOwner: string -> Digest, faults: set<Call>)
    requires n <= |txs|
    ensures var after := TxPhase(rows, accounts, txs, n, hashOwner, faults).1;
      && rows <= after && |after| <= |rows| + n
      && forall j :: |rows| <= j < |after| ==> after[j].amount >= 0
  {
    if n > 0 {
      TxPhaseOnlyAppends(rows, accounts, txs, n - 1, hashOwner, faults);
    }
  }

  /** A completed transaction loop appended exactly one row per legacy transaction, in order:
      its owner was found, and the row carries that owner's hash, the type and the clamped amount. */
  lemma {:induction false} TxPhaseOkIsExact(rows: seq<TxRow>, accounts: seq<LegacyAccount>, txs: seq<LegacyTx>,
                                            n: nat, hashOwner: string -> Digest, faults: set<Call>)
    requires n <= |txs|
    requires TxPhase(rows, accounts, txs, n, hashOwner, faults).0.Ok?
    ensures var after := TxPhase(rows, accounts, txs, n, hashOwner, faults).1;
      && |after| == |rows| + n && rows <= after
      && forall j :: 0 <= j < n ==>
           && FindOwner(accounts, txs[j].contractId).Some?
           && after[|rows| + j]
              == TxRow(hashOwner(FindOwner(accounts, txs[j].contractId).value), txs[j].txType, Clamp(txs[j].amount))
  {
    if n > 0 {
      TxPhaseOkIsExact(rows, accounts, txs, n - 1, hashOwner, faults);
      var prev := TxPhase(rows, accounts, txs, n - 1, hashOwner, faults).1;
      var after := TxPhase(rows, accounts, txs, n, hashOwner, faults).1;
      assert forall k :: 0 <= k < |prev| ==> after[k] == prev[k];
    }
  }

  /** With no failing store call, the transaction loop completes exactly when every legacy
      transaction has an owner, and otherwise fails with the lookup's QueryReturnedNoRows. */
  lemma {:induction false} TxPhaseNeedsEveryOwner(rows: seq<TxRow>, accounts: seq<LegacyAccount>, txs: seq<LegacyTx>,
                                                  n: nat, hashOwner: string -> Digest, faults: set<Call>)
    requires n <= |txs|
    requires forall j :: 0 <= j < n ==> LookupOwner(j) !in faults && InsertTransaction(j) !in faults
    ensures var r := TxPhase(rows, accounts, txs, n, hashOwner, faults).0;
      && (r.Ok? <==> forall j :: 0 <= j < n ==> FindOwner(accounts, txs[j].contractId).Some?)
      && (r.Err? ==> r.error == QueryReturnedNoRows)
  {
    if n > 0 {
      TxPhaseNeedsEveryOwner(rows, accounts, txs, n - 1, hashOwner, faults);
    }
  }

  /** Without both legacy tables, run succeeds and writes nothing. */
  lemma MissingLegacyTableIsNoOp(contracts: map<string, Account>, transactions: seq<TxRow>, catalogue: seq<SchemaObject>,
                                 accounts: seq<LegacyAccount>, txs: seq<LegacyTx>,
                                 hashOwner: string -> Digest, faults: set<Call>)
    requires CheckOldContract !in faults && CheckOldTransactions !in faults
    requires !TableExists(catalogue, OldContractTable) || !TableExists(catalogue, OldTransactionsTable)
    ensures TransformEffect(contracts, transactions, catalogue, accounts, txs, hashOwner, faults)
            == Outcome(Ok(()), contracts, transactions)
  {
  }

  /** Whatever fails, run keeps every contract row it found and every transaction row, and only
      appends transaction rows with non-negative amounts. */
  lemma TransformKeepsExistingRows(contracts: map<string, Account>, transactions: seq<TxRow>, catalogue: seq<SchemaObject>,
                                   accounts: seq<LegacyAccount>, txs: seq<LegacyTx>,
                                   hashOwner: string -> Digest, faults: set<Call>)
    ensures var o := TransformEffect(contracts, transactions, catalogue, accounts, txs, hashOwner, faults);
      && (forall k :: k in contracts ==> k in o.contracts && o.contracts[k] == contracts[k])
      && transactions <= o.transactions
      && (forall j :: |transactions| <= j < |o.transactions| ==> o.transactions[j].amount >= 0)
  {
    AccountsFirstWriterWins(contracts, accounts, |accounts|, hashOwner, faults);
    TxPhaseOnlyAppends(transactions, accounts, txs, |txs|, hashOwner, faults);
  }

  /** With no failing store call and both legacy tables present, run succeeds exactly when every
      legacy transaction's old id names a legacy account. */
  lemma TransformSucceedsIffOwnersFound(contracts: map<string, Account>, transactions: seq<TxRow>,
                                        catalogue: seq<SchemaObject>, accounts: seq<LegacyAccount>, txs: seq<LegacyTx>,
                                        hashOwner: string -> Digest)
    requires TableExists(catalogue, OldContractTable) && TableExists(catalogue, OldTransactionsTable)
    ensures TransformEffect(contracts, transactions, catalogue, accounts, txs, hashOwner, {}).result.Ok?
            <==> forall j :: 0 <= j < |txs| ==> FindOwner(accounts, txs[j].contractId).Some?
  {
    AccountPhaseWithoutFaults(contracts, accounts, |accounts|, hashOwner);
    TxPhaseNeedsEveryOwner(transactions, accounts, txs, |txs|, hashOwner, {});
  }

  /** With no failing store call the account loop completes. */
  lemma {:induction false} AccountPhaseWithoutFaults(contracts: map<string, Account>, accounts: seq<LegacyAccount>,
                                                     n: nat, hashOwner: string -> Digest)
    requires n <= |accounts|
    ensures AccountPhase(contracts, accounts, n, hashOwner, {}).0.Ok?
  {
    if n > 0 {
      AccountPhaseWithoutFaults(contracts, accounts, n - 1, hashOwner);
    }
  }

  /** table_exists: the count of catalogued tables of that name is positive. */
  method CheckTable(db: Db, name: string, fails: bool) returns (r: Result<bool>)
    ensures r == if fails then Err(SqlFailure) else Ok(TableExists(db.catalogue, name))
  {
    if fails {
      return Err(SqlFailure);
    }
    var count := CountTables(db.catalogue, name);
    return Ok(count > 0);
  }

  /** The account loop: insert-or-ignore each legacy account under its owner's hash. */
  method CopyAccounts(db: Db, accounts: seq<LegacyAccount>, hashOwner: string -> Digest, faults: set<Call>)
    returns (r: Result<()>)
    modifies db`contracts
    ensures (r, db.contracts) == AccountPhase(old(db.contracts), accounts, |accounts|, hashOwner, faults)
  {
    ghost var contracts0 := db.contracts;
    var i := 0;
    while i < |accounts|
      invariant 0 <= i <= |accounts|
      invariant AccountPhase(contracts0, accounts, i, hashOwner, faults) == (Ok(()), db.contracts)
    {
      if InsertAccount(i) in faults {
        AccountPhaseStaysFailed(contracts0, accounts, i + 1, |accounts|, hashOwner, faults);
        return Err(SqlFailure);
      }
      var a := accounts[i];
      db.contracts := InsertOrIgnore(db.contracts, hashOwner(a.owner), a.owner, a.balance);
      i := i + 1;
    }
    return Ok(());
  }

  /** The transaction loop: look up each legacy transaction's owner and append it re-keyed and clamped. */
  method CopyTransactions(db: Db, accounts: seq<LegacyAccount>, txs: seq<LegacyTx>, hashOwner: string -> Digest,
                          faults: set<Call>) returns (r: Result<()>)
    modifies db`transactions
    ensures (r, db.transactions) == TxPhase(old(db.transactions), accounts, txs, |txs|, hashOwner, faults)
  {
    ghost var rows0 := db.transactions;
    var j := 0;
    while j < |txs|
      invariant 0 <= j <= |txs|
      invariant TxPhase(rows0, accounts, txs, j, hashOwner, faults) == (Ok(()), db.transactions)
    {
      if LookupOwner(j) in faults {
        TxPhaseStaysFailed(rows0, accounts, txs, j + 1, |txs|, hashOwner, faults);
        return Err(SqlFailure);
      }
      var owner := FindOwner(accounts, txs[j].contractId);
      if owner.None? {
        TxPhaseStaysFailed(rows0, accounts, txs, j + 1, |txs|, hashOwner, faults);
        return Err(QueryReturnedNoRows);
      }
      if InsertTransaction(j) in faults {
        TxPhaseStaysFailed(rows0, accounts, txs, j + 1, |txs|, hashOwner, faults);
        return Err(SqlFailure);
      }
      db.transactions := db.transactions + [TxRow(hashOwner(owner.value), txs[j].txType, Clamp(txs[j].amount))];
      j := j + 1;
    }
    return Ok(());
  }

  /** run: check both legacy tables, then copy the accounts, then the transactions. */
  method Run(db: Db, hashOwner: string -> Digest, faults: set<Call>) returns (r: Result<()>)
    modifies db`contracts, db`transactions
    ensures Outcome(r, db.contracts, db.transactions)
            == TransformEffect(old(db.contracts), old(db.transactions), db.catalogue, db.oldContract,
                               db.oldTransactions, hashOwner, faults)
  {
    var hasAccounts := CheckTable(db, OldContractTable, CheckOldContract in faults);
    if hasAccounts.Err? {
      return Err(hasAccounts.error);
    }
    var hasTransactions := CheckTable(db, OldTransactionsTable, CheckOldTransactions in faults);
    if hasTransactions.Err? {
      return Err(hasTransactions.error);
    }
    if !hasAccounts.value {
      return Ok(());
    }
    if !hasTransactions.value {
      return Ok(());
    }
    if SelectAccounts in faults {
      return Err(SqlFailure);
    }
    r := CopyAccounts(db, db.oldContract, hashOwner, faults);
    if r.Err? {
      return;
    }
    if SelectTransactions in faults {
      return Err(SqlFailure);
    }
    r := CopyTransactions(db, db.oldContract, db.oldTransactions, hashOwner, faults);
  }
}
