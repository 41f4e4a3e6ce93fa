# Contract ledger and migration runner, modelled in Dafny

This project models the core of a small Rust command-line ledger. A *contract* holds one owner's
balance, stored in SQLite beside an append-only table of transactions. The project also models the
migration runner that moves an older database into the current schema. Five pieces are modelled:

- **Ledger** (`ledger.dfy`) is the current `Contract` of `z_small_projects/contract-cli`.
  - Contracts are keyed by a 128-character hash of the owner.
  - `deposit` and `withdraw` ignore a zero amount.
  - `deposit` writes the balance back to its old value when logging the transaction fails.
  - `withdraw` does not restore the balance when logging fails.
  - `log_transaction` refuses to log for a contract row that is missing.
- **LegacyLedger** (`legacy_ledger.dfy`) is the older `Contract` of `small_projects/contract-cli`.
  - Contracts are keyed by an integer id.
  - There is no zero guard and no rollback.
  - Withdrawals are logged with a negated amount.
  - History is shown newest first.
- **ToyLedger** (`toy_ledger.dfy`) is the in-memory `Contract` of `day7`.
- **DataTransform** (`data_transform.dfy`) is the Rust migration `m_20240414_002_data_transform`.
  - It copies `old_contract` and `old_transactions` into the current tables.
  - Accounts are re-keyed by the owner's hash and inserted with INSERT OR IGNORE.
  - Negative transaction amounts are written as 0.
  - It does nothing when either legacy table is missing.
- **Migrations** (`migrations.dfy`) is the runner of `db/run_migrations.rs`.
  - Once an attempt is recorded, `apply` never runs that file again, whatever the recorded status.
    An attempt whose tracking insert fails is not recorded, so the next `apply` runs the file again.
  - It dispatches on the extension, as `Path::extension` computes it.
  - It records `success`, `failed` or `skipped`.
  - `reset_specific_migrations` forgets the tracking rows of the named files.

The store is the class `Store.Db` (`store.dfy`). Its fields hold the tables:

- `contracts` is a map keyed by contract id.
- `transactions` is a sequence in `tx_id` order.
- `migrations` is a map keyed by filename.
- `catalogue` holds the `sqlite_master` rows.
- `oldContract` and `oldTransactions` hold the two legacy tables.

The older CLI uses its own `Store.LegacyDb`, keyed by integers.

Every operation that changes the store is a method that changes these fields in place. Each such
method is proved equal to a specification function that describes its effect, step by step:
`DepositEffect`, `OpenEffect`, `TransformEffect`, `ApplyEffect`, and so on. Lemmas about those
functions state what the code promises.

The queries change nothing:

- `table_exists` (`DataTransform.CheckTable`) is proved equal to `TableExists` of the catalogue.
- `show_history` of the older CLI is proved equal to the latest five rows.
- `show_history` of the current CLI is only proved to return an admissible answer, since its sort
  leaves the choice of rows open (see Left out).
- `status` returns the two in-memory fields (see Left out).

**Failures.** Which store calls fail is an input. Each module declares a `Call` type that names its
store calls, with one value per row where the call sits in a loop. Every operation takes a
`faults: set<Call>`, and a call in that set fails with `SqlFailure`. The model does not evaluate SQL.
A rejected insert therefore appears as a fault of that insert: a CHECK, UNIQUE or FOREIGN KEY
violation, or a locked database. The code's own errors are computed from the rows:

- the missing-contract error 787 of `log_transaction`;
- `QueryReturnedNoRows` when the owner lookup of the transform finds nothing;
- "Unknown Rust migration";
- the out-of-range error when a stored balance is negative and is read into a `u64`.

**Parameters.** `hash_owner` is the parameter `hashOwner: string -> Digest`, where `Digest` is the
strings of length 128. Nothing is assumed about it beyond determinism, and in particular not
injectivity. A `.sql` script's effect is the parameter `script`: the tables as the script leaves
them.

**Where the code does less than its own comments and messages say.** The model follows the code.

- The rollback comment of `deposit` (`z_small_projects/contract-cli/src/contract.rs:92`) has no
  counterpart in `withdraw` (contract.rs:108-111). `withdraw` writes the lowered balance and then
  returns the logging error without writing the old balance back. See
  `Ledger.WithdrawDoesNotRollBack`.
- `apply` records a `failed` row for an error of the migration itself
  (`z_small_projects/contract-cli/src/db/run_migrations.rs:80-82`). A `.sql` file that cannot be
  read is different: the `?` at run_migrations.rs:57 returns before any row is recorded. See `Migrations.UnrecordedAttempts`.
- `show_history` prints the header "Last 5 transactions" (contract.rs:134). Its query sorts by
  `contract_id` (contract.rs:129), which is the same in every row it returns, so the five rows are
  not necessarily the latest. See Findings.

## Model

| member | source | states |
|---|---|---|
| Ledger.Contract.LoadOrCreate | z_small_projects/contract-cli/src/contract.rs:11-61 | The result, and the contract rows afterwards, are those of `OpenEffect`. On success the contract object is new, with the given id and the owner and balance of the row it opened, so it is in sync with its row and `status` reports the stored owner and balance. |
| Ledger.OpenReturnsStoredRow | z_small_projects/contract-cli/src/contract.rs:36-56 | If the id already has a row, load_or_create returns its stored owner and balance and writes nothing. |
| Ledger.OpenInsertsMissingRow | z_small_projects/contract-cli/src/contract.rs:36-56 | If the id has no row, load_or_create inserts `(id, owner, 0)` and returns balance 0. |
| Ledger.OpenWritesAtMostTheNewRow | z_small_projects/contract-cli/src/contract.rs:11-61 | Whatever fails, the only write is the zero-balance row of a missing id. An opened contract equals its stored row, whose balance is not negative. |
| Ledger.WithRowAddsOnlyThatRow | z_small_projects/contract-cli/src/contract.rs:71-80 | Re-creating a vanished contract row adds only that row, with balance 0, and keeps every other row. |
| Ledger.Contract.Deposit | z_small_projects/contract-cli/src/contract.rs:63-100 | The result, the in-memory balance and both tables after the call are those of `DepositEffect` on the state before it. The zero guard, the re-insert, the balance write, the logging and the rollback are all included. After Ok, memory and row are in sync. If the balance write fails on a synced contract, the error is returned and `status` reports the stored balance plus the amount. |
| Ledger.Contract.Withdraw | z_small_projects/contract-cli/src/contract.rs:102-123 | The result, the in-memory balance and both tables are those of `WithdrawEffect`: a zero guard, a funds check, then a write and a log with no rollback. After Ok, memory and row are in sync. If the balance write of a covered withdrawal fails on a synced contract, the error is returned and `status` reports the stored balance minus the amount. |
| Ledger.ZeroAmountIsNoOp | z_small_projects/contract-cli/src/contract.rs:63-68 | `deposit(0)` and `withdraw(0)` return Ok, leave the balance unchanged and append no row. |
| Ledger.DepositSucceeds | z_small_projects/contract-cli/src/contract.rs:82-90 | With no failure, a deposit of x > 0 raises the in-memory and the stored balance by exactly x and appends exactly one `('deposit', x)` row for this contract. |
| Ledger.DepositRollsBack | z_small_projects/contract-cli/src/contract.rs:91-97 | If logging fails after the balance was stored and the write that undoes it succeeds, the in-memory and the stored balance are back to their values before the call, no row is appended, and the error is returned. |
| Ledger.DepositLeavesNoUnloggedChange | z_small_projects/contract-cli/src/contract.rs:82-98 | Unless the rollback write itself fails, a deposit either changes nothing durable or stores the new balance together with its logged row. |
| Ledger.InsufficientFundsChangesNothing | z_small_projects/contract-cli/src/contract.rs:108-122 | `withdraw(x)` with x above the balance returns Ok and changes neither the balance nor the tables. |
| Ledger.WithdrawSucceeds | z_small_projects/contract-cli/src/contract.rs:108-111 | With 0 < x ≤ balance the balance drops by exactly x, so it stays non-negative. With no failure, the row stores the new balance and one `('withdraw', x)` row is appended. |
| Ledger.WithdrawDoesNotRollBack | z_small_projects/contract-cli/src/contract.rs:108-111 | If logging fails, withdraw returns the error but keeps the lowered balance stored with no row for it. The stored balance then no longer equals the net of the log. |
| Ledger.OtherContractsUntouched | z_small_projects/contract-cli/src/contract.rs:149-153 | Deposit and withdraw add, remove and change no contract row except their own. |
| Ledger.RowsOnlyAppendedForThisContract | z_small_projects/contract-cli/src/contract.rs:169-173 | The transactions table is either unchanged or grows by exactly one row for this contract, carrying the operation's type and amount. |
| Ledger.SuccessLeavesRowInSync | z_small_projects/contract-cli/src/contract.rs:82-111 | After a deposit or withdrawal of a non-zero amount returns Ok, the in-memory balance equals the stored one. |
| Ledger.DepositKeepsLogBalanced | z_small_projects/contract-cli/src/contract.rs:82-98 | Unless the rollback write fails, a deposit keeps the stored balance equal to the deposits minus the withdrawals in the log. |
| Ledger.WithdrawKeepsLogBalanced | z_small_projects/contract-cli/src/contract.rs:108-111 | A withdrawal whose logging does not fail keeps the stored balance equal to the net of the log. |
| Ledger.NetAppend | z_small_projects/contract-cli/src/contract.rs:25-26 | Appending one row moves the contract's net by +amount for a deposit and by −amount for a withdrawal. |
| Ledger.Contract.UpdateBalance | z_small_projects/contract-cli/src/contract.rs:149-155 | The result is Ok exactly when the write does not fail. The contract rows are then those of `SetBalance` with the in-memory balance, and otherwise unchanged. |
| Store.SetBalanceWritesOnlyThatRow | z_small_projects/contract-cli/src/contract.rs:149-153 | `UPDATE … WHERE contract_id = ?` keeps the key set and every other row, and sets only this row's balance. |
| Ledger.Contract.LogTransaction | z_small_projects/contract-cli/src/contract.rs:157-175 | The result and the transactions table are those of `Logged`. |
| Ledger.LoggingNeedsTheRow | z_small_projects/contract-cli/src/contract.rs:159-173 | Logging succeeds exactly when the contract row exists and neither call fails. On success it appends one row; otherwise it appends nothing. A missing row gives the contract-not-found error. |
| Ledger.HistoryIsTheContractsRows | z_small_projects/contract-cli/src/contract.rs:126-128 | `History` holds exactly the rows with this contract_id, each once, each with its tx_id, in increasing tx_id order. |
| Ledger.Contract.ShowHistory | z_small_projects/contract-cli/src/contract.rs:125-142 | The query fails exactly when its call fails. Otherwise it returns min(5, n) distinct rows of this contract, where n is the contract's row count, as the sort leaves the order open. |
| Ledger.OldestFiveAreAdmissible | z_small_projects/contract-cli/src/contract.rs:129 | With more than five rows, the five oldest are an answer the query as written may give. That answer leaves out the most recent row, and it is not the latest five. |
| Ledger.Contract.ShowLatestHistory | z_small_projects/contract-cli/src/contract.rs:125-142 | Corrected query: it returns the last five rows of this contract, newest first. |
| Ledger.StoreFailureLeavesMemoryApart | z_small_projects/contract-cli/src/contract.rs:82-83 | If the balance write fails, deposit and withdraw return the error with the in-memory balance already moved by the amount and the stored row unchanged, so the balance `status` reports differs from the stored one. |
| Ledger.OwnersAreIsolated | z_small_projects/contract-cli/src/contract.rs:231-249 | Two owners with distinct ids in one store: after Alice deposits 100, Bob deposits 200 and Alice withdraws 50, the stored balances are 50 and 200. |
| Seqs.LatestIsNewestFirst | small_projects/contract-cli/src/contract.rs:72-77 | The k-th line of `ORDER BY id DESC LIMIT 5` is the k-th most recent element. |
| LegacyLedger.Contract.LoadOrCreate | small_projects/contract-cli/src/contract.rs:11-49 | The result and the contract rows are those of `OpenEffect`, the older open-or-insert by integer id. |
| LegacyLedger.OpenIsUpsertById | small_projects/contract-cli/src/contract.rs:29-48 | A present id is returned unchanged and nothing is written. A missing id is inserted as `(id, owner, 0)` and returned with balance 0. |
| LegacyLedger.Contract.Deposit | small_projects/contract-cli/src/contract.rs:51-57 | The result, the balance and both tables are those of `DepositEffect`, which has no zero guard and no rollback. |
| LegacyLedger.DepositAddsAndLogs | small_projects/contract-cli/src/contract.rs:51-54 | With no failure, a deposit of any x, including 0, raises the balance by x in memory and in the row, and appends one `('deposit', x)` row. |
| LegacyLedger.Contract.Withdraw | small_projects/contract-cli/src/contract.rs:59-69 | The result, the balance and both tables are those of `WithdrawEffect`. |
| LegacyLedger.WithdrawLogsNegatedAmount | small_projects/contract-cli/src/contract.rs:59-69 | With x ≤ balance, withdraw lowers the balance by x and logs `('withdraw', −x)`. With x > balance it returns Ok and changes nothing. |
| LegacyLedger.NoRollback | small_projects/contract-cli/src/contract.rs:51-63 | The in-memory balance changes by ±x whatever fails. A failed log leaves the stored balance changed. |
| LegacyLedger.DepositKeepsLogBalanced | small_projects/contract-cli/src/contract.rs:51-54 | A deposit with no failure keeps the stored balance equal to the signed sum of the logged amounts, and memory equal to the row. |
| LegacyLedger.WithdrawKeepsLogBalanced | small_projects/contract-cli/src/contract.rs:59-63 | A withdrawal with no failure keeps the stored balance equal to the signed sum of the logged amounts, and memory equal to the row. |
| LegacyLedger.UnloggedDepositUnbalances | small_projects/contract-cli/src/contract.rs:52-54 | With no rollback, a deposit whose log fails leaves the stored balance no longer equal to the signed sum of the log. |
| LegacyLedger.AppendRow | small_projects/contract-cli/src/contract.rs:102-109 | Logging one row for an id adds exactly that line to the id's history, and its amount to the signed sum. |
| LegacyLedger.OtherContractsUntouched | small_projects/contract-cli/src/contract.rs:94-99 | `update_balance` and the operations around it change no row but the one with this id. |
| LegacyLedger.Contract.ShowHistory | small_projects/contract-cli/src/contract.rs:71-87 | The query fails exactly when its call fails. Otherwise it returns the last five lines of this id, newest first. |
| LegacyLedger.HistoryShowsNewestFirst | small_projects/contract-cli/src/contract.rs:71-87 | After a deposit or withdrawal whose calls do not fail, the first history line is the row just logged, followed by the four most recent lines from before. |
| LegacyLedger.Contract.UpdateBalance | small_projects/contract-cli/src/contract.rs:94-100 | The result is Ok exactly when the write does not fail. The rows are then `SetBalance` with the in-memory balance, and otherwise unchanged. |
| LegacyLedger.Contract.LogTransaction | small_projects/contract-cli/src/contract.rs:102-109 | The result is Ok exactly when the insert does not fail, and then exactly one row `(id, type, amount)` is appended. Otherwise nothing is appended. |
| ToyLedger.Contract.Deposit | day7/contract.rs:7-9 | The balance becomes `Deposited(old balance, x)`. The owner is a constant. |
| ToyLedger.Contract.Withdraw | day7/contract.rs:11-18 | The outcome and the new balance are `Withdrawn(old balance, x)`. |
| ToyLedger.WithdrawnIsGuarded | day7/contract.rs:11-18 | A withdrawal succeeds exactly when balance ≥ x, and then takes exactly x. Otherwise it returns `Err("Insufficient funds")` and keeps the balance. |
| ToyLedger.DepositThenWithdrawRestores | day7/contract.rs:7-15 | Withdrawing what was just deposited succeeds and gives back the original balance. |
| ToyLedger.DepositThenWithdraw | day7/contract.rs:7-15 | On a real contract object, deposit(x) then withdraw(x) returns Ok with the starting balance and owner. |
| DataTransform.CheckTable | z_small_projects/contract-cli/src/migration_files/m_20240414_002_data_transform.rs:75-82 | `table_exists` fails exactly when its query fails. Otherwise it answers whether the catalogue counts a table of that name. |
| DataTransform.TableExistsIffCatalogued | z_small_projects/contract-cli/src/migration_files/m_20240414_002_data_transform.rs:75-81 | The count is positive exactly when the catalogue holds a table with that name. |
| DataTransform.Clamp | z_small_projects/contract-cli/src/migration_files/m_20240414_002_data_transform.rs:55-56 | The written amount is non-negative and not below the legacy amount. It is the legacy amount itself or 0. |
| DataTransform.FindOwnerIsFirstMatch | z_small_projects/contract-cli/src/migration_files/m_20240414_002_data_transform.rs:47-51 | The owner lookup finds nothing exactly when no legacy account has the id. Otherwise it gives the owner of the first such row. |
| DataTransform.CopyAccounts | z_small_projects/contract-cli/src/migration_files/m_20240414_002_data_transform.rs:23-37 | The account loop's result and the contract rows are those of `AccountPhase` over every legacy account. |
| DataTransform.AccountsNeverOverwritten | z_small_projects/contract-cli/src/migration_files/m_20240414_002_data_transform.rs:31-37 | INSERT OR IGNORE never changes or removes a row once written. This holds for a row written by an earlier legacy account with the same owner hash, as well as for a row present before the loop, so the first writer of a key wins. |
| DataTransform.AccountsFirstWriterWins | z_small_projects/contract-cli/src/migration_files/m_20240414_002_data_transform.rs:31-37 | The account loop keeps every contract row that was there before the migration, unchanged. |
| DataTransform.AccountsComeFromLegacy | z_small_projects/contract-cli/src/migration_files/m_20240414_002_data_transform.rs:23-37 | Every new row is `(hash_owner(owner), owner, balance)` of some legacy account. |
| DataTransform.AccountsCoverEveryOwner | z_small_projects/contract-cli/src/migration_files/m_20240414_002_data_transform.rs:31-37 | After a successful loop, each legacy owner's hash is a key, or its owner already holds a row. |
| DataTransform.AccountPhaseStaysFailed | z_small_projects/contract-cli/src/migration_files/m_20240414_002_data_transform.rs:31-32 | After the first failing row the account loop stops: later rows change nothing. |
| DataTransform.AccountPhaseWithoutFaults | z_small_projects/contract-cli/src/migration_files/m_20240414_002_data_transform.rs:31-37 | With no failing call, the account loop always succeeds: duplicates are ignored, not errors. |
| DataTransform.CopyTransactions | z_small_projects/contract-cli/src/migration_files/m_20240414_002_data_transform.rs:40-68 | The transaction loop's result and the transaction rows are those of `TxPhase` over every legacy transaction. |
| DataTransform.TxPhaseOnlyAppends | z_small_projects/contract-cli/src/migration_files/m_20240414_002_data_transform.rs:61-68 | The loop only appends, at most one row per legacy row, and every appended amount is non-negative. |
| DataTransform.TxPhaseOkIsExact | z_small_projects/contract-cli/src/migration_files/m_20240414_002_data_transform.rs:40-68 | On success there is exactly one new row per legacy row, in read order. Each carries the hash of its owner, its tx_type and its clamped amount. |
| DataTransform.TxPhaseNeedsEveryOwner | z_small_projects/contract-cli/src/migration_files/m_20240414_002_data_transform.rs:47-51 | With no failing call, the loop succeeds exactly when every legacy transaction's id has an account. Otherwise the error is QueryReturnedNoRows. |
| DataTransform.TxPhaseStaysFailed | z_small_projects/contract-cli/src/migration_files/m_20240414_002_data_transform.rs:61-62 | After the first failing row the transaction loop stops. |
| DataTransform.Run | z_small_projects/contract-cli/src/migration_files/m_20240414_002_data_transform.rs:5-72 | The result and both current tables are those of `TransformEffect`. |
| DataTransform.MissingLegacyTableIsNoOp | z_small_projects/contract-cli/src/migration_files/m_20240414_002_data_transform.rs:9-20 | If either legacy table is missing, run returns Ok and writes nothing. |
| DataTransform.TransformKeepsExistingRows | z_small_projects/contract-cli/src/migration_files/m_20240414_002_data_transform.rs:5-72 | Whatever fails, existing contract rows are unchanged, transaction rows are only appended, and appended amounts are non-negative. |
| DataTransform.TransformSucceedsIffOwnersFound | z_small_projects/contract-cli/src/migration_files/m_20240414_002_data_transform.rs:40-68 | With both legacy tables present and no failing call, run succeeds exactly when every legacy transaction finds its owner. |
| Migrations.Apply | z_small_projects/contract-cli/src/db/run_migrations.rs:20-104 | The result, the tracking rows and every other table are those of `ApplyEffect`. |
| Migrations.RecordedFileIsSkipped | z_small_projects/contract-cli/src/db/run_migrations.rs:35-45 | A filename that is already recorded, whatever its status, returns Ok. Nothing runs and nothing is written. |
| Migrations.SecondApplyIsNoOp | z_small_projects/contract-cli/src/db/run_migrations.rs:35-45 | Once a first apply has recorded a filename, a second apply changes nothing, whatever it is given: each unit runs at most once. |
| Migrations.FirstAttemptRecordsOneRow | z_small_projects/contract-cli/src/db/run_migrations.rs:90-103 | A first attempt that reaches the insert adds exactly one tracking row, for this filename. The row holds the unit's status and error, and apply returns the unit's own result. |
| Migrations.ApplyTouchesOnlyItsOwnRow | z_small_projects/contract-cli/src/db/run_migrations.rs:90-94 | apply never removes a tracking row and never writes one for another filename. |
| Migrations.Recorded | z_small_projects/contract-cli/src/db/run_migrations.rs:80-85 | The status is `failed` exactly when the result is Err, and `skipped` exactly for an unsupported file that succeeds. The error is stored exactly when the result is Err. |
| Migrations.UnsupportedFileIsSkipped | z_small_projects/contract-cli/src/db/run_migrations.rs:70-74 | A file with another extension is recorded as `skipped` with no error. It changes no table and returns Ok. |
| Migrations.UnknownRustFails | z_small_projects/contract-cli/src/db/run_migrations.rs:60-68 | Any other `.rs` name is recorded as failed with the unknown-migration error, which is returned. |
| Migrations.UnrecordedAttempts | z_small_projects/contract-cli/src/db/run_migrations.rs:57 | An unreadable `.sql` file returns before anything runs or is recorded. A failed tracking insert keeps the unit's changes but leaves the filename unrecorded. |
| Migrations.ClassifyFollowsExtension | z_small_projects/contract-cli/src/db/run_migrations.rs:54-75 | The extension alone decides between the script, a Rust unit and a skipped file. |
| Migrations.TransformIsExactlyItsFile | z_small_projects/contract-cli/src/db/run_migrations.rs:63-66 | The transform runs for exactly one filename: `m_20240414_002_data_transform.rs`. |
| Migrations.TransformUnderDirectoryIsUnknown | z_small_projects/contract-cli/src/db/run_migrations.rs:63-67 | The whole path is compared, so the same file under a directory is an unknown Rust migration. |
| Migrations.UpperCaseSqlIsSkipped | z_small_projects/contract-cli/src/db/run_migrations.rs:54-55 | The extension is compared as written: `x.SQL` is skipped. |
| Migrations.DotFileIsSkipped | z_small_projects/contract-cli/src/db/run_migrations.rs:54 | `.sql` on its own has no extension and is skipped. |
| Migrations.Extension | z_small_projects/contract-cli/src/db/run_migrations.rs:54 | `Path::extension` gives the text after the last '.' of the file name, which contains neither '.' nor '/'. |
| Migrations.FileName | z_small_projects/contract-cli/src/db/run_migrations.rs:51-54 | `Path::file_name` gives a non-empty last segment that is neither "." nor ".." and contains no '/'. |
| Migrations.FileNameDropsCurrentDirTail | z_small_projects/contract-cli/src/db/run_migrations.rs:51-54 | A trailing "/." does not change the file name: `x.sql/.` names `x.sql`. |
| Migrations.ExtensionDropsCurrentDirTail | z_small_projects/contract-cli/src/db/run_migrations.rs:54 | A trailing "/." does not change the extension: `x.sql/.` has extension `sql`. |
| Migrations.ClassifyDropsCurrentDirTail | z_small_projects/contract-cli/src/db/run_migrations.rs:54-68 | A trailing "/." keeps a script a script, a skipped file skipped and an unknown Rust file unknown. It turns the transform's own name into an unknown Rust migration, because `strip_suffix` sees the whole path. |
| Migrations.ExtensionFollowsFileName | z_small_projects/contract-cli/src/db/run_migrations.rs:54 | Two paths with the same file name have the same extension. |
| Migrations.ExtensionOfPlainName | z_small_projects/contract-cli/src/db/run_migrations.rs:54 | A plain `stem.ext` has the extension `ext`. |
| Migrations.FileNameIgnoresDirectory | z_small_projects/contract-cli/src/db/run_migrations.rs:51-54 | A directory prefix does not change the file name of a name other than ".". |
| Migrations.StripSuffixIffConcat | z_small_projects/contract-cli/src/db/run_migrations.rs:63 | `strip_suffix(".rs")` gives p exactly when the name is p followed by `.rs`. |
| Migrations.ResetSpecificMigrations | z_small_projects/contract-cli/src/db/run_migrations.rs:9-18 | The result and the tracking rows are those of `ResetPhase` over all the names, deleting one name at a time and stopping at the first failure. |
| Migrations.ResetForgetsExactlyTheNames | z_small_projects/contract-cli/src/db/run_migrations.rs:9-17 | Reset only removes rows, and only named ones. It succeeds exactly when no delete fails, and then every named row is gone. |
| Migrations.ResetPhaseStaysFailed | z_small_projects/contract-cli/src/db/run_migrations.rs:13-14 | After the first failing delete, later names are left alone. |
| Migrations.ResetThenApplyRerunsIt | z_small_projects/contract-cli/src/db/run_migrations.rs:9-45 | After a successful reset, applying a forgotten name runs its unit again: apply returns the unit's own result, leaves the tables as the unit does, and records the new outcome. |

## Left out

- `status` of the older CLI (small_projects/contract-cli/src/contract.rs:89-92) is not modelled separately. It prints the same two fields as `Ledger.Contract.Status`.
- Ledger.Contract.Status: has no contract of its own; it returns the two in-memory fields. How they relate to the stored row is stated by `Ledger.Contract.LoadOrCreate`, `Ledger.Contract.Deposit` and `Ledger.Contract.Withdraw` through `Synced`, and by `Ledger.StoreFailureLeavesMemoryApart`.
- Ledger.Contract.ShowHistory: states only the row count and that the rows are distinct rows of this contract. `ORDER BY contract_id` sorts on a value that all the rows share, so the engine chooses both the order and which five rows it returns.
- Ledger.Contract.LoadOrCreate: the `QueryReturnedNoRows` branch (contract.rs:57-59) cannot be reached. The row is present once the insert succeeds, so the model has no path to it.
- Integer widths are not modelled. Balances are unbounded non-negative integers, and ids are unbounded.
  - Not modelled: the overflow panic of `self.balance += amount` on `u64`.
  - A balance above `i64::MAX` cannot be bound as an SQLite integer, so `update_balance` (contract.rs:149-153) fails. A deposit that lifts the balance there is therefore a `StoreBalance` fault here, raised after the in-memory balance has already moved (contract.rs:82-83).
  - Not modelled: the wrap of `amount as i64` (contract.rs:84, 111). A deposit never reaches it with such an amount, because the balance write fails first. A withdrawal reaches it only from an in-memory balance left above `i64::MAX` by such a failed deposit. The wrapped amount is negative and fails the `amount >= 0` CHECK, which is a `LogInsert` fault here.
  - Not modelled: the `i32` range of the older ids.
- SQL is not evaluated. The effects of `CREATE TABLE IF NOT EXISTS` are not modelled; only the fault of each such call is. CHECK, UNIQUE, NOT NULL and FOREIGN KEY violations, cascades and PRAGMA settings are represented by faults of the calls that would hit them. INSERT OR IGNORE is the one constraint evaluated, in `DataTransform.InsertOrIgnore`.
- A stored value that cannot be read into the Rust type, for example a NULL owner, is a fault of the call that reads it. The exception is a negative balance read into `u64`, which is modelled.
- `applied_at`, `timestamp` and `duration` come from the clock and are not modelled. The `pending` default is never written by `apply`.
- The error column stores the `Error` value instead of its message text.
- All `println!` output is left out. `status` returns the two values it prints.
- Reading a `.sql` file and executing it are left out. The script is the parameter `script` (the tables after it), and its result is the `ExecuteScript` fault. The model assumes scripts leave the `migrations` table alone.
- `Path::file_name` is modelled for '/'-separated Unix paths. Trailing '/' and trailing "." components are dropped, as `Path::components` drops them, so `x.sql/.` names `x.sql`. Windows separators and prefixes are not modelled.
- A row's `tx_id` is modelled as its position in the transactions table plus one. `AUTOINCREMENT` (contract.rs:23) never reuses an id, so once a `.sql` script deletes a row, later ids run ahead of positions. The rows stay in `tx_id` order, so the order of the history is unaffected; only the printed ids differ.
- The first query of the transform reads a column `contract_id` from `old_contract`, and the owner lookup uses a column `id`. Against a table that lacks either column, that statement fails. This is covered by the `SelectAccounts` and `LookupOwner` faults; column names are not modelled.
- The SHA-512 digest behind `hash_owner` (utils/hash.rs:4-8) is left out. Only its length of 128 characters is kept, and injectivity is not assumed.
- Which caller runs `apply` in what order, and whether it continues after a failed unit, is decided in `main.rs`. That file is not part of this model.
- `main.rs`, `db.rs`, `db/mod.rs` and `lib.rs` of the CLI are not part of this model: they parse arguments and open connections.
- Also not part of this model: the `contract-db` demo, the stale copy under `contract-cli/migrations/`, the sentiment ETL and the temperature converter.

## Findings

| source | as written | input that shows it | evidently intended | confidence | as-written member | corrected member |
|---|---|---|---|---|---|---|
| z_small_projects/contract-cli/src/contract.rs:129 | `ORDER BY contract_id DESC LIMIT 5`, inside a query that keeps only rows with this `contract_id`, so the sort has nothing to order by | a contract with six transaction rows: the five oldest rows are a permitted answer, and it leaves out the newest row | `ORDER BY tx_id DESC`: the five most recent transactions, newest first, as the printed header "Last 5 transactions" says | not executed | Ledger.OldestFiveAreAdmissible | Ledger.Contract.ShowLatestHistory |
