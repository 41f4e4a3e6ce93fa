/** The SQLite database of the contract CLI, seen as tables of rows.

    Queries are not interpreted: each operation of the ledger and of the migration runner says
    which rows it reads and writes. Whether a store call fails is decided by the caller through a
    set of failing call sites, one per module (see `Ledger.Call`, `Migrations.Call`,
    `DataTransform.Call`). */
module Store {

  datatype Option<+T> = None | Some(value: T)

  datatype Result<+T> = Ok(value: T) | Err(error: Error)

  datatype Error =
    | SqlFailure                            // a store call failed (I/O, constraint, locked database, ...)
    | ContractNotFound(contractId: string)  // log_transaction's own check, reported as SQLite code 787
    | QueryReturnedNoRows                   // a query_row that found no row
    | OutOfRange                            // a stored negative balance read into a u64 field
    | ScriptUnreadable                      // a .sql migration file could not be read
    | UnknownRustMigration                  // a .rs migration with no registered transform

  /** A row of the `contract` table, keyed by its id. */
  datatype Account = Account(owner: string, balance: int)

  /** A row of the `transactions` table of the current schema. Rows are kept in tx_id order and
      a row's tx_id is taken to be its position plus one, which holds while no row is deleted. */
  datatype TxRow = TxRow(contractId: string, txType: string, amount: int)

  /** A row of `sqlite_master`: its `type` ('table', 'index', ...) and its `name`. */
  datatype SchemaObject = SchemaObject(kind: string, name: string)

  /** A row of the legacy `old_contract` table (integer ids). */
  datatype LegacyAccount = LegacyAccount(id: int, owner: string, balance: int)

  /** A row of a legacy transactions table: `old_transactions`, or the older CLI's `transactions`. */
  datatype LegacyTx = LegacyTx(contractId: int, txType: string, amount: int)

  datatype Status = Success | Failed | Skipped

  /** A row of the `migrations` tracking table. The error column holds the text of `error`. */
  datatype MigrationRecord = MigrationRecord(status: Status, error: Option<Error>)

  const DepositType := "deposit"
  const WithdrawType := "withdraw"

  /** `UPDATE ... SET balance = ?1 WHERE <key> = ?2`: only the row under `key` changes, and
      only its balance; without such a row nothing changes. */
  function SetBalance<K>(accounts: map<K, Account>, key: K, balance: int): map<K, Account>
  {
    if key in accounts then accounts[key := accounts[key].(balance := balance)] else accounts
  }

  lemma SetBalanceWritesOnlyThatRow<K>(accounts: map<K, Account>, key: K, balance: int)
    ensures var r := SetBalance(accounts, key, balance);
      && r.Keys == accounts.Keys
      && (forall k :: k in accounts && k != key ==> r[k] == accounts[k])
      && (key in accounts ==> r[key] == Account(accounts[key].owner, balance))
  {
  }

  /** The tables of the current schema, together with the legacy tables and the catalogue. */
  class Db {
    var contracts: map<string, Account>
    var transactions: seq<TxRow>
    var migrations: map<string, MigrationRecord>
    var catalogue: seq<SchemaObject>
    var oldContract: seq<LegacyAccount>
    var oldTransactions: seq<LegacyTx>

    /** A fresh database with no rows and no legacy tables. */
    constructor Empty()
      ensures contracts == map[] && transactions == [] && migrations == map[]
      ensures catalogue == [] && oldContract == [] && oldTransactions == []
    {
      contracts, transactions, migrations := map[], [], map[];
      catalogue, oldContract, oldTransactions := [], [], [];
    }
  }

  /** The database of the older CLI: `contract` keyed by an integer id, and its own
      `transactions` table, whose rows carry an integer contract_id and a signed amount. */
  class LegacyDb {
    var contracts: map<int, Account>
    var transactions: seq<LegacyTx>

    constructor Empty()
      ensures contracts == map[] && transactions == []
    {
      contracts, transactions := map[], [];
    }
  }
}
