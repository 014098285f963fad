# Solaverse token deployment, modelled in Dafny

This project models the deployment script of the Solaverse SPL token (Token-2022 program). The script works in four steps:

1. It checks the environment.
2. On devnet, it generates nine distribution wallets and rewrites the `.env` file for them.
3. It creates the mint, writes the deployment record and records `TOKEN_MINT` in `.env`.
4. It mints each of the nine allocations into the recipient's associated token account, recording `<NAME>_TOKEN_ACCOUNT` in `.env` each time. Then it revokes the mint authority to enforce the hard cap.

Modules:

- `Config` (`config.dfy`) is the `TOKEN_CONFIG` object. Lemmas prove its sums, its exact percentages and its independence from the devnet flag.
- `Utils` (`utils.dfy`) holds `validateEnvironment`, as a loop proved against a "first missing variable" function, and the RPC endpoint default.
- `EnvText` (`env_text.dfy`) holds the `.env` text edits on the file contents as one string:
  - the upsert of one `KEY=value` entry, a first-match regex replace or an append;
  - the global deletion of `KEY=.*\n` entries;
  - the value `dotenv` reads back for a key: the last entry that starts a line.

  JavaScript's `.` stops at `\n`, `\r`, U+2028 and U+2029. The line-list view (`JoinLines`, `KeepLines`) is an independent reference that the deletion is proved against. `SplitLines` is the inverse of joining lines, and the reading back is defined on it.
- `Names` (`names.dfy`) derives the `<NAME>_TOKEN_ACCOUNT` keys and the `wallets/<name>.json` paths from the target names. This covers `replace(/\s+/g, '_')` fully, and `toUpperCase`/`toLowerCase` on ASCII letters.
- `Ledger` (`ledger.dfy`) is the token program, as far as the script relies on it. It is a class with these fields:
  - the existing token accounts;
  - the balances;
  - the supply;
  - the mint authority;
  - an uninterpreted associated-token-address derivation.

  Its invariant, `Valid`, is the token program's own: the accounts are the keys of the balances, and the supply is their sum (`Total`), within 64 bits.
- `Deploy` (`deploy.dfy`) holds the rest:
  - the nine distribution targets and the base-unit scaling;
  - the deployment record;
  - the wallet generation and the `.env` reload;
  - the reuse-or-create of token accounts and the distribution loop;
  - the revoke-and-check;
  - `DeployAndDistribute`, the whole run in order.

`DeployAndDistribute` takes the environment, the `.env` text, the keypairs `Keypair.generate` would return, the mint address, the clock reading and the address derivation as parameters. It returns the result, the ledger, the final `.env` text, the wallet files written and the deployment record saved.

## Model

| member | source | states |
|---|---|---|
| Config.DistributionSumsToTotal | src/config.ts:9-20 | The nine allocations add up exactly to the total supply, 2,900,000,000, in both modes. |
| Config.ExactPercentages | src/config.ts:12-20 | Each allocation × 100 equals its documented percentage (18, 15, 15, 15, 10, 10, 10, 5, 2) × the total supply, with no rounding. |
| Config.PercentagesSumToHundred | src/config.ts:12-20 | The documented percentages add up to 100. |
| Config.DevnetOnlyChangesStrings | src/config.ts:4-21 | The devnet flag changes name and symbol (`Mock`/`tMock` vs `Solaverse`/`SOLA`), never decimals, supply or distribution. |
| Config.ExpectedMintSupply | src/config.ts:9-10 | Decimals is 9, and the total supply in base units is exactly 2.9 × 10^18. |
| Utils.FirstMissing | src/utils.ts:27-31 | The reference for validation: None iff every key is set (present and non-empty). Otherwise it names a key that is unset while every earlier key is set. |
| Utils.ValidateEnvironment | src/utils.ts:16-32 | The loop succeeds iff all seven required variables are set. On failure the error names the first unset one in list order. It only reads the environment. |
| Utils.RpcEndpoint | src/utils.ts:12-14 | The endpoint is `RPC_URL` when it is set and non-empty, else `https://api.devnet.solana.com`. It is never empty. |
| Utils.FirstMissingIgnoresOtherKeys | src/utils.ts:17-31 | Two environments that agree on which listed keys are set get the same validation outcome. |
| Utils.UnrelatedUpdateKeepsValidation | src/utils.ts:17-25 | Setting a variable outside the seven never changes the outcome. |
| Utils.ValidatedEnvUsesConfiguredEndpoint | src/utils.ts:13 | After a successful validation, the endpoint is the configured `RPC_URL` and not the default. |
| Utils.EarliestMissingWins | src/utils.ts:27-29 | An empty or absent `SOLANA_NETWORK` is reported first, ahead of every other missing variable. |
| Names.CollapseRemovesWhitespace | src/deploy.ts:278 | After `replace(/\s+/g, '_')` the text holds no JavaScript white space. |
| Names.CollapseKeepsPlainText | src/deploy.ts:278 | Text without white space is unchanged by the replace. |
| Names.CollapseSingleSpace | src/deploy.ts:278 | Two white-space-free words joined by one space become `word_word`. |
| Names.TokenAccountKeyIsEnvKey | src/deploy.ts:278 | The key derived from a letters-and-spaces name contains only `A`–`Z` and `_`. |
| Names.DerivedHead | src/deploy.ts:91 | A name starting with two non-space characters keeps them, case-mapped, at the head of its key and of its path after `wallets/`. |
| Names.OneWordName | src/deploy.ts:278 | A one-word name gives `UPPER_TOKEN_ACCOUNT` and `wallets/lower.json`. |
| Names.TwoWordName | src/deploy.ts:278 | A two-word name gives `UPPER_UPPER_TOKEN_ACCOUNT` and `wallets/lower_lower.json`. |
| EnvText.FindFrom | src/deploy.ts:280-283 | The match position a non-global regex replace uses: an occurrence at or after `from` with no occurrence before it, or None when there is none. |
| EnvText.LineEnd | src/deploy.ts:281 | Where `.*` stops: at or after the start, at the end of the text or on a line terminator. |
| EnvText.LineEndClean | src/deploy.ts:281 | `.*` consumes no line terminator. |
| EnvText.Upsert | src/deploy.ts:279-286 | After the upsert the text contains `K=v`. |
| EnvText.ReplacesOnlyFirstEntryLine | src/deploy.ts:279-283 | When `K=` occurs, the result is the text with only its first `K=` through the end of that line (no terminator) replaced by `K=v`. Everything before and after is unchanged. |
| EnvText.AppendsWhenAbsent | src/deploy.ts:284-286 | Without `K=`, the result is `text + "\nK=v"`, so the text's last line is then `K=v` without a newline. |
| EnvText.UpsertShape | src/deploy.ts:279-286 | For a valid key and a one-line value, after either branch `K=v` is the first `K=` of the text and ends its line. |
| EnvText.UpsertThenRead | src/deploy.ts:279-286 | Reading the first `K=` entry back yields exactly `v`. |
| EnvText.ReplaceOwnEntry | src/deploy.ts:280-283 | Replacing the first entry with the value it already holds changes nothing. |
| EnvText.UpsertIdempotent | src/deploy.ts:279-286 | Applying the same upsert twice equals applying it once. |
| EnvText.NoNewlineUntouched | src/deploy.ts:84 | Text with no `\n` is never changed by the `KEY=.*\n` deletion. |
| EnvText.UnterminatedEntryKept | src/deploy.ts:84 | An entry on a last line without a trailing newline is not removed. |
| EnvText.NoEntryUntouched | src/deploy.ts:84 | Text that does not contain `KEY=` is returned unchanged. |
| EnvText.EntryLineRemoved | src/deploy.ts:84 | A single terminated entry line `KEY=v\n` is deleted entirely. |
| EnvText.RemoveSplitsAtNewline | src/deploy.ts:84 | The global deletion never crosses a newline that ends a prefix: it acts on the prefix and the rest separately. |
| EnvText.RemoveDropsEntryLines | src/deploy.ts:84 | On a text of clean lines, the deletion for one key is exactly the removal of that key's entry lines. All other lines stay, in order. |
| EnvText.RemoveAllDropsEntryLines | src/deploy.ts:83-85 | The deletions for all keys, in order, are exactly the removal of every line that is an entry for any key. |
| EnvText.SplitLinesRoundTrip | src/deploy.ts:112 | The lines the reader splits the file into join back to the file, and none of them holds a `\n`. |
| EnvText.SplitLinesAppend | src/deploy.ts:98 | Splitting `a + b` gives the lines of `a` and of `b`, except that the last line of `a` and the first of `b` become one line. |
| EnvText.SplitJoinLines | src/deploy.ts:98 | Lines written each with its `\n` split back into exactly those lines, then an empty last one. |
| EnvText.LastEntryAppend | src/deploy.ts:112 | When a key is written twice, the later block of lines decides its value whenever it holds an entry for it. |
| EnvText.NoValueIffNoEntry | src/deploy.ts:112 | A key has no value iff no line starts with `KEY=`. |
| EnvText.LastEntryIs | src/deploy.ts:112 | The value read is the rest of the last line that starts with `KEY=`. |
| EnvText.EntryLineKey | src/deploy.ts:84 | A `K2=v` line matches the pattern of key `K1` iff `K1 == K2`, so one key's deletion never removes another key's line. |
| Deploy.TargetsFollowConfig | src/deploy.ts:51-61 | There are nine targets, and their amounts are the configured allocations in order. |
| Deploy.TargetsSumToTotal | src/deploy.ts:51-61 | The targets' amounts add up to `totalSupply`. |
| Deploy.TargetsSameInBothModes | src/deploy.ts:51-61 | The targets are identical with and without devnet. |
| Deploy.TargetsAreDistinct | src/deploy.ts:51-61 | Target names are pairwise distinct, and so are wallet keys. |
| Deploy.WalletKeysDistinct | src/deploy.ts:51-61 | The wallet keys are distinct, and none of them is `SOLANA_NETWORK`. |
| Deploy.WalletKeysAreEnvKeys | src/deploy.ts:51-61 | The nine wallet keys are distinct, valid `.env` keys, and none is `SOLANA_NETWORK`. |
| Deploy.DerivedKeysAndPathsDistinct | src/deploy.ts:278 | The nine derived token-account keys and the nine wallet paths are each pairwise distinct, and every key is a valid `.env` key. |
| Deploy.PublicSaleNames | src/test/deploy.test.ts:123 | `Public Sale` gives `PUBLIC_SALE_TOKEN_ACCOUNT` and `wallets/public_sale.json`. |
| Deploy.DevelopmentScaled | src/deploy.ts:251 | Development's 522,000,000 tokens at 9 decimals are 522,000,000,000,000,000 base units. |
| Deploy.ScaledSum | src/deploy.ts:251 | The scaled amounts sum to the sum of the amounts × 10^decimals. |
| Deploy.TotalScaledIsSupply | src/test/deploy.test.ts:154-155 | All nine mints together are 2.9 × 10^18 base units, within the 64-bit supply limit. |
| Deploy.ScaledAmountsAreExactDoubles | src/deploy.ts:251 | Every allocation × 10^9, and the total × 10^9, is exactly representable as a double, so the floating-point product equals the exact integer. |
| Deploy.ScaledIsExactDouble | src/deploy.ts:251 | Any amount up to 4 × 10^9, times 10^9, is an exact double. |
| Deploy.MakeDeploymentRecord | src/deploy.ts:220-226 | The record carries the given mint, authority and time. Its network is never empty, and a test token is always on network `devnet`. |
| Deploy.RecordAfterValidation | src/deploy.ts:220-226 | After validation, `network` is `SOLANA_NETWORK`, and `isTestToken` holds iff that network is `devnet`. |
| Deploy.RecordWithoutNetwork | src/deploy.ts:223-225 | With `SOLANA_NETWORK` unset or empty, `network` falls back to `devnet`, yet `isTestToken` is false. |
| Deploy.CreateDistributionWallets | src/deploy.ts:67-121 | Outside devnet, nothing is written. On devnet, the text first has every wallet entry deleted, then gets one `walletKey=publicKey\n` line per target in order. One keypair file and one info record are written per target. |
| Deploy.RemoveStaleWalletEntries | src/deploy.ts:83-85 | The loop's result is the deletion for every wallet key in target order. |
| Deploy.AppendWallets | src/deploy.ts:89-106 | The loop appends the nine entry lines in order and writes file `i` and info `i` for target `i`. |
| Deploy.WalletRewriteOnCleanText | src/deploy.ts:83-109 | On clean lines, the rewritten text is the non-wallet lines in order, followed by exactly one entry line per wallet key carrying the new public key. |
| Deploy.WalletTextLines | src/deploy.ts:83-109 | The wallet lines appended to the cleaned text are lines of their own, except the first, which continues the cleaned text's last line. |
| Deploy.AppendedWalletsRead | src/deploy.ts:98-112 | Every appended wallet line is read back with its own public key when the cleaned text ends its last line, and every line but the first in any case. |
| Deploy.DotenvReload | src/deploy.ts:112 | The reload as called: variables already present keep their values, and only absent ones come from the file. |
| Deploy.DotenvReloadOverride | src/deploy.ts:112 | The reload the script needs: the file's values win. |
| Deploy.StaleWalletSurvivesReload | src/deploy.ts:112 | As written, a wallet variable present before the run keeps its old address, although the rewritten file holds the fresh one. |
| Deploy.ReRunMintsToOldDevelopmentWallet | src/deploy.ts:112 | Concrete case: the file reads `DEVELOPMENT_WALLET=NewWallet`, but `OldWallet` in the environment survives the reload. |
| Deploy.FreshWalletsAfterOverride | src/deploy.ts:112 | With override, each wallet variable read back from the rewritten file holds its new public key. That is all of them when the cleaned text ends its last line, and all but the first otherwise. Other variables are unchanged. |
| Deploy.NextRunMissesFirstWallet | src/deploy.ts:98-112 | As written: after a text whose last line is an unterminated `K=v` for another key, the rewrite glues the first wallet line onto it, and the reload finds no value for the first wallet key. |
| Deploy.TerminatedRewriteReadsAllWallets | src/deploy.ts:98-112 | Corrected: ending the cleaned text's last line before appending makes every wallet line read back with its own public key, whatever the cleaned text. |
| Deploy.CreateTokenAccount | src/deploy.ts:123-155 | The account is `ata(mint, owner)`. An existing account is reused untouched, and an absent one is created with balance 0. Supply and authority are unchanged. |
| Deploy.CreditDistinct | src/test/deploy.test.ts:121-145 | Crediting distinct accounts in turn gives each exactly its own amount and leaves every other account as it was. |
| Deploy.DistinctRecipientsDistinctAccounts | src/deploy.ts:129-134 | Distinct recipients have distinct token accounts, because the derivation is injective. |
| Deploy.DistributeTarget | src/deploy.ts:241-287 | For one target: an unset wallet variable is an error. Otherwise the mint succeeds iff the authority signs with the mint's decimals within the 64-bit supply. Success credits the scaled amount to `ata(mint, recipient)`, grows supply by the same amount, and upserts `<NAME>_TOKEN_ACCOUNT`. Failure leaves supply, the `.env` text and every existing balance unchanged. |
| Deploy.DistributeTokens | src/deploy.ts:240-288 | Over all targets in order: success iff every recipient is set, the authority and decimals fit, and the total fits. Success gives accounts `ata(mint, recipient_i)`, supply + the scaled total, balances credited target by target, and the text upserted key by key. A failure names the first unset recipient or a rejected mint, and supply has then grown by a prefix of the amounts. |
| Deploy.DistributeNext | src/deploy.ts:240-288 | One turn of the loop keeps the loop's progress invariant, or fails with the error kinds above. |
| Deploy.CheckRevoked | src/deploy.ts:320-327 | The re-read check passes iff the mint authority is null. |
| Deploy.EnforceHardCap | src/deploy.ts:290-327 | Revocation by the current authority succeeds and leaves no authority. By anyone else it fails and changes nothing. Balances and supply are unchanged either way. |
| Deploy.ConfiguredTargetsWellFormed | src/deploy.ts:51-61 | The configured targets have distinct wallet keys that are valid `.env` keys, none of them `SOLANA_NETWORK`, and together mint 2.9 × 10^18, which fits in 64 bits. |
| Deploy.ReloadKeepsRecord | src/deploy.ts:220-226 | The reload adds only wallet variables, so the record reads the same network before and after it. |
| Deploy.DevnetPaysFreshWallets | src/deploy.ts:240-249 | On devnet with the corrected reload, every wallet read back holds its new public key, and its target is paid into `ata(mint, keypair_i)`. That is every target when the cleaned text ends its last line, and all but the first otherwise. When every wallet is read back, every recipient is set iff no public key is empty. |
| Deploy.EachTargetGetsItsAllocation | src/test/deploy.test.ts:121-145 | With distinct recipients, each target's account ends with exactly its own scaled amount. |
| Deploy.DeployAndDistribute | src/deploy.ts:157-347 | The whole run: a configuration error iff a required variable is unset, naming the first one, with nothing created or written. Otherwise the deployment record is saved, on devnet keypair `i`'s secret key is written to `wallets/<name_i>.json`, and the run succeeds iff every wallet variable is set after reading back the rewritten file. Success returns one wallet info per target (name, public key, path, allocation) and leaves the authority null, supply at the scaled total, each account credited in turn, the `.env` text as wallet rewrite + `TOKEN_MINT` upsert + one upsert per target, and on devnet target `i` paid to keypair `i` for every wallet line read back. |
| Deploy.MintAndDistribute | src/deploy.ts:183-327 | Steps 2 to 4 on the reloaded environment: a fresh mint, then success iff every recipient is set. Success leaves the authority null, supply at the scaled total, balances credited target by target, and the text upserted with `TOKEN_MINT` and then one account key per target. |
| Ledger.TotalCredit | src/deploy.ts:254-271 | Crediting an existing account grows the sum of the balances by exactly the amount minted. |
| Ledger.TotalOpen | src/deploy.ts:142-152 | Opening an empty account leaves the sum of the balances unchanged. |
| Ledger.BalanceAtMostTotal | src/deploy.ts:254-271 | No single balance exceeds the sum of the balances, so none exceeds the supply. |
| Ledger.TokenLedger.InitializeMint | src/deploy.ts:205-216 | The new mint has no accounts and no supply, the given decimals, and the given authority. |
| Ledger.TokenLedger.AccountExists | src/deploy.ts:137 | The lookup succeeds iff the account exists. |
| Ledger.TokenLedger.CreateAssociatedAccount | src/deploy.ts:142-152 | Creates `ata(mint, owner)` with balance 0 iff it is absent, and otherwise changes nothing. |
| Ledger.TokenLedger.MintTo | src/deploy.ts:254-271 | The mint succeeds iff the signer is the mint authority, the account exists, the decimals match and supply stays within 64 bits. It then credits the account and supply equally. A rejected mint, including every mint after revocation, changes nothing. The supply stays the sum of the balances. |
| Ledger.TokenLedger.SetMintAuthority | src/deploy.ts:294-310 | The change takes effect iff it is signed by the current authority, so a revoked authority stays revoked. Accounts, balances and supply are untouched, so the ledger invariant is kept. |

`Deploy.DeployAndDistribute` states the following about the whole run:

- It fails with a configuration error iff a required variable is unset. That error names the first unset one, and nothing is created or written.
- Otherwise, on devnet, the keypair file `wallets/<name>.json` of target `i` holds keypair `i`'s secret key, whether the run then succeeds or not. On success, the wallet info returned for target `i` carries its name, keypair `i`'s public key, that path and its allocation.
- Otherwise the deployment record is saved, and the run succeeds iff every wallet variable is set after the reload. The reload reads only the entries that start a line of the rewritten file.
- On success:
  - the mint authority is null;
  - the supply is the scaled total;
  - every target's account is credited in turn;
  - the record is as specified;
  - the final `.env` text is the wallet rewrite, then the `TOKEN_MINT` upsert, then one `<NAME>_TOKEN_ACCOUNT` upsert per target;
  - on devnet, target `i` is paid into the account of generated keypair `i` for every wallet line read back. That is all of them when the cleaned `.env` text ends its last line.

## Left out

- SDK internals are parameters or ledger rules: `Keypair.generate`, `getAssociatedTokenAddress`, rent and `getMintLen`, transaction building and signing. The ledger's acceptance rules are taken as given and are not proved from the token program.
- Base58 parsing of public keys (`new PublicKey(...)`) is not modelled. A non-empty but malformed wallet variable is treated as a valid recipient.
- The mint-creation transaction (`src/deploy.ts:183-216`) is assumed to succeed. Network failures, timeouts and the transfer-fee configuration are not modelled.
- File-system and console I/O are not modelled. This covers `fs.*`, `JSON.stringify` of the keypair and the record, the logging and `process.exit`. The `.env` text is passed in and returned, and files are returned as values.
- `dotenv.config()` is modelled only for the wallet entries it reads back. A value is the rest of the last line that starts with `KEY=`, with lines split at `\n`. Not modelled: `\r\n` normalisation, quotes, comments, `export`, white-space trimming and multi-line values. Base58 public keys hold none of these. The re-reading of other variables is not modelled either, including the variable whose line the first wallet entry is glued to.
- Floating point: `Math.pow` and the `number` product are replaced by exact integers. `Deploy.ScaledAmountsAreExactDoubles` shows that this loses nothing for the configured amounts.
- `config.ts` is evaluated once at import, before `utils.ts` loads `.env`. `Config.TokenConfigFor` is parameterised by the flag instead, and `Deploy.TargetsSameInBothModes` shows that the amounts do not depend on it.
- `src/cleanup.ts`, `loadKeypairFromFile`, `logTokenInfo`, the `Connection` object, `NETWORK_CONFIG`, `TOKEN_EXTENSIONS` and the metadata URLs are not part of this model.
- Deploy.DeployAndDistribute: specified over any targets satisfying `Deploy.WellFormedTargets`, with the decimals as a parameter. `Deploy.ConfiguredTargetsWellFormed` shows that `DISTRIBUTION_TARGETS` with nine decimals qualifies.
- Deploy.DeployAndDistribute: on a failure during distribution, the `.env` text is not described; it already holds `TOKEN_MINT` and the wallet rewrite. The ledger is not described beyond its validity, and the saved deployment record is returned. On a configuration error, nothing has been done.
- Deploy.DeployAndDistribute: its devnet promise that target `i` is paid to keypair `i` covers every wallet line read back. That holds when no public key holds a `\n`, which base58 never does. When the cleaned text does not end its last line, the first wallet is not read back; `Deploy.NextRunMissesFirstWallet` shows this.
- Deploy.DevnetPaysFreshWallets: promises the fresh key only for the wallet lines read back. When the cleaned text does not end its last line, the first wallet keeps its old value or stays unset.
- Deploy.FreshWalletsAfterOverride: promises the first wallet key only when the cleaned text ends its last line. Otherwise that line is glued to the previous one (see Findings).
- Names.ToUpper: maps only ASCII letters, as do `Names.ToLower`, `Names.UpperChar` and `Names.LowerChar`. JavaScript also maps other letters, some to longer strings (`ß` becomes `SS`). The nine target names are ASCII.
- EnvText.ReplaceFirstEntry: inserts the replacement literally. `String.prototype.replace` expands `$&`, `` $` ``, `$'` and `$$` in it. The values written are base58 addresses, which hold no `$`.
- Utils.ValidateEnvironment: the error carries the missing variable's name. The message text of `src/utils.ts:29` is not modelled.
- Deploy.DistributeTokens: on failure, it states only that supply grew by the amounts of a prefix of the targets. The balances at that point are not stated.
- Deploy.DeployAndDistribute: uses the corrected reload (`Deploy.DotenvReloadOverride`), not the one as written. See Findings.
- The `hardcap.test.ts` mint goes to an address that is not a token account. `Ledger.TokenLedger.MintTo` rejects it on both grounds, and the model does not distinguish the two causes.

## Findings

| source | as written | input that shows it | evidently intended | confidence | as-written member | corrected member |
|---|---|---|---|---|---|---|
| src/deploy.ts:112 | `dotenv.config()` without `override` does not replace variables already in `process.env`. `.env` was loaded at start-up (src/utils.ts:5), so old `*_WALLET` values survive the reload. | A re-run on devnet whose `.env` already holds `DEVELOPMENT_WALLET=OldWallet`. The file now says `NewWallet`, but the distribution mints to `OldWallet`, whose keypair file was just overwritten. | The reload makes the freshly generated wallets visible, so target `i` is paid to keypair `i`. | not executed | Deploy.StaleWalletSurvivesReload | Deploy.FreshWalletsAfterOverride |
| src/deploy.ts:98 | Every later `.env` edit appends `\nKEY=value` with no newline after it (src/deploy.ts:234, :285). A finished run therefore leaves the file ending in `PARTNERSHIPS_TOKEN_ACCOUNT=<address>`. The wallet lines are then appended straight after the cleaned text, so the first one continues the last line. | A second devnet run on the file a first run left. `DEVELOPMENT_WALLET=<new key>` lands at the end of the `PARTNERSHIPS_TOKEN_ACCOUNT` line, and the reload does not read it, even with `override`. `DEVELOPMENT_WALLET` keeps the old address loaded at start-up, so Development is paid to the old wallet, whose keypair file was just overwritten. | Each wallet entry starts its own line, so the reload reads every fresh key. | not executed | Deploy.NextRunMissesFirstWallet | Deploy.TerminatedRewriteReadsAllWallets |
