/**
 * The deployment script: the nine distribution targets, the scaling of
 * whole-token amounts to base units, the deployment record, the rewrite of
 * the `.env` text when devnet wallets are generated, the reuse-or-create of
 * token accounts, the distribution loop, the revocation of the mint
 * authority that enforces the hard cap, and the whole run in order.
 */
module Deploy {
  import opened Wrappers
  import opened Config
  import opened Utils
  import opened EnvText
  import opened Names
  import opened Ledger

  // ---------------------------------------------------------------------
  // Distribution targets
  // ---------------------------------------------------------------------

  datatype Target = Target(name: string, amount: nat, walletKey: string)

  /** `DISTRIBUTION_TARGETS`, built from a token configuration, in distribution order. */
  function DistributionTargets(cfg: TokenConfig): seq<Target>
  {
    [ Target("Development", cfg.distribution.development, "DEVELOPMENT_WALLET"),
      Target("Marketing", cfg.distribution.marketing, "MARKETING_WALLET"),
      Target("Staking", cfg.distribution.staking, "STAKING_WALLET"),
      Target("Public Sale", cfg.distribution.publicSale, "PUBLIC_SALE_WALLET"),
      Target("Community", cfg.distribution.community, "COMMUNITY_WALLET"),
      Target("Liquidity", cfg.distribution.liquidity, "LIQUIDITY_WALLET"),
      Target("Ecosystem", cfg.distribution.ecosystem, "ECOSYSTEM_WALLET"),
      Target("Team", cfg.distribution.team, "TEAM_WALLET"),
      Target("Partnerships", cfg.distribution.partnerships, "PARTNERSHIPS_WALLET") ]
  }

  function NamesOf(ts: seq<Target>): (r: seq<string>)
    ensures |r| == |ts|
  {
    seq(|ts|, i requires 0 <= i < |ts| => ts[i].name)
  }

  function WalletKeysOf(ts: seq<Target>): (r: seq<string>)
    ensures |r| == |ts|
  {
    seq(|ts|, i requires 0 <= i < |ts| => ts[i].walletKey)
  }

  function AmountsOf(ts: seq<Target>): (r: seq<nat>)
    ensures |r| == |ts|
  {
    seq(|ts|, i requires 0 <= i < |ts| => ts[i].amount)
  }

  /** The `<NAME>_TOKEN_ACCOUNT` key of every target. */
  function TokenAccountKeysOf(ts: seq<Target>): (r: seq<string>)
    ensures |r| == |ts|
  {
    seq(|ts|, i requires 0 <= i < |ts| => TokenAccountKey(ts[i].name))
  }

  /** The keypair file of every target. */
  function WalletPathsOf(ts: seq<Target>): (r: seq<string>)
    ensures |r| == |ts|
  {
    seq(|ts|, i requires 0 <= i < |ts| => WalletPath(ts[i].name))
  }

  predicate Distinct<T(==)>(xs: seq<T>)
  {
    forall i, j | 0 <= i < j < |xs| :: xs[i] != xs[j]
  }

  /** Nine targets whose amounts are the configured allocations, in the same order. */
  lemma TargetsFollowConfig(cfg: TokenConfig)
    ensures |DistributionTargets(cfg)| == 9
    ensures AmountsOf(DistributionTargets(cfg)) == Amounts(cfg.distribution)
  {
  }

  /** The targets' amounts add up to the total supply, whichever mode the configuration is in. */
  lemma TargetsSumToTotal(isDevnet: bool)
    ensures Sum(AmountsOf(DistributionTargets(TokenConfigFor(isDevnet)))) == TokenConfigFor(isDevnet).totalSupply
  {
    TargetsFollowConfig(TokenConfigFor(isDevnet));
    DistributionSumsToTotal(isDevnet);
  }

  /** Both modes distribute the same amounts to the same targets. */
  lemma TargetsSameInBothModes()
    ensures DistributionTargets(TokenConfigFor(true)) == DistributionTargets(TokenConfigFor(false))
  {
    DevnetOnlyChangesStrings();
  }

  /** No two targets share a name or a wallet key. */
  lemma TargetsAreDistinct(cfg: TokenConfig)
    ensures Distinct(NamesOf(DistributionTargets(cfg)))
    ensures Distinct(WalletKeysOf(DistributionTargets(cfg)))
  {
  }

  /**
   * The target names written out, so that lemmas about single names compute
   * on literals; `TargetNamesListed` shows they are the targets' names.
   */
  const TargetNames: seq<string> := [
    "Development", "Marketing", "Staking", "Public Sale", "Community",
    "Liquidity", "Ecosystem", "Team", "Partnerships"]

  lemma TargetNamesListed(cfg: TokenConfig)
    ensures NamesOf(DistributionTargets(cfg)) == TargetNames
  {
  }

  lemma NamesAreLettersAndSpaces(i: nat)
    requires i < 9
    ensures IsTargetName(TargetNames[i])
  {
    if i < 3 {
      NamesAreLettersAndSpacesLow(i);
    } else if i < 6 {
      NamesAreLettersAndSpacesMid(i);
    } else {
      NamesAreLettersAndSpacesHigh(i);
    }
  }

  lemma NamesAreLettersAndSpacesLow(i: nat)
    requires i < 3
    ensures IsTargetName(TargetNames[i])
  {
  }

  lemma NamesAreLettersAndSpacesMid(i: nat)
    requires 3 <= i < 6
    ensures IsTargetName(TargetNames[i])
  {
  }

  lemma NamesAreLettersAndSpacesHigh(i: nat)
    requires 6 <= i < 9
    ensures IsTargetName(TargetNames[i])
  {
  }

  lemma NamesStartWithTwoLetters()
    ensures forall i | 0 <= i < 9 ::
      |TargetNames[i]| >= 2 && !IsJsWhitespace(TargetNames[i][0]) && !IsJsWhitespace(TargetNames[i][1])
  {
  }

  /** No two names agree in their first two letters, ignoring case. */
  lemma UpperHeadsDistinct()
    ensures forall i, j | 0 <= i < j < 9 ::
      UpperChar(TargetNames[i][0]) != UpperChar(TargetNames[j][0])
      || UpperChar(TargetNames[i][1]) != UpperChar(TargetNames[j][1])
  {
  }

  lemma LowerHeadsDistinct()
    ensures forall i, j | 0 <= i < j < 9 ::
      LowerChar(TargetNames[i][0]) != LowerChar(TargetNames[j][0])
      || LowerChar(TargetNames[i][1]) != LowerChar(TargetNames[j][1])
  {
  }

  /**
   * The derived token-account keys and keypair paths of the nine targets are
   * pairwise distinct and the keys are valid `.env` keys, so no target's
   * entry or file is overwritten by another's.
   */
  lemma DerivedKeysAndPathsDistinct(cfg: TokenConfig)
    ensures Distinct(TokenAccountKeysOf(DistributionTargets(cfg)))
    ensures Distinct(WalletPathsOf(DistributionTargets(cfg)))
    ensures forall i :: 0 <= i < 9 ==> IsEnvKey(TokenAccountKeysOf(DistributionTargets(cfg))[i])
  {
    var ts := DistributionTargets(cfg);
    TargetNamesListed(cfg);
    NamesStartWithTwoLetters();
    UpperHeadsDistinct();
    LowerHeadsDistinct();
    var keys := TokenAccountKeysOf(ts);
    var paths := WalletPathsOf(ts);
    forall i | 0 <= i < 9
      ensures |keys[i]| >= 2 && keys[i][0] == UpperChar(TargetNames[i][0]) && keys[i][1] == UpperChar(TargetNames[i][1])
      ensures |paths[i]| >= 10 && paths[i][8] == LowerChar(TargetNames[i][0]) && paths[i][9] == LowerChar(TargetNames[i][1])
      ensures IsEnvKey(keys[i])
    {
      assert ts[i].name == NamesOf(ts)[i] == TargetNames[i];
      DerivedHead(TargetNames[i]);
      NamesAreLettersAndSpaces(i);
      TokenAccountKeyIsEnvKey(TargetNames[i]);
    }
  }

  lemma WordPublic(w: string)
    requires w == "Public"
    ensures ToUpper(w) == "PUBLIC" && ToLower(w) == "public" && NoWhitespace(w)
  {
  }

  lemma WordSale(w: string)
    requires w == "Sale"
    ensures ToUpper(w) == "SALE" && ToLower(w) == "sale" && NoWhitespace(w)
  {
  }

  /** The worked example: "Public Sale" gives `PUBLIC_SALE_TOKEN_ACCOUNT` and `wallets/public_sale.json`. */
  lemma PublicSaleNames(a: string, b: string)
    requires a == "Public" && b == "Sale"
    ensures TokenAccountKey(a + " " + b) == "PUBLIC_SALE_TOKEN_ACCOUNT"
    ensures WalletPath(a + " " + b) == "wallets/public_sale.json"
  {
    WordPublic(a);
    WordSale(b);
    TwoWordName(a, b);
    PublicSaleLiterals(ToUpper(a), ToUpper(b), ToLower(a), ToLower(b));
  }

  lemma PublicSaleLiterals(ua: string, ub: string, la: string, lb: string)
    requires ua == "PUBLIC" && ub == "SALE" && la == "public" && lb == "sale"
    ensures ua + "_" + ub + "_TOKEN_ACCOUNT" == "PUBLIC_SALE_TOKEN_ACCOUNT"
    ensures "wallets/" + la + "_" + lb + ".json" == "wallets/public_sale.json"
  {
  }

  // ---------------------------------------------------------------------
  // Base-unit scaling
  // ---------------------------------------------------------------------

  /** `target.amount * Math.pow(10, decimals)`, as an exact integer. */
  function ScaledAmount(amount: nat, decimals: nat): nat
  {
    amount * Pow10(decimals)
  }

  function ScaledAmounts(ts: seq<Target>, decimals: nat): (r: seq<nat>)
    ensures |r| == |ts|
  {
    seq(|ts|, i requires 0 <= i < |ts| => ScaledAmount(ts[i].amount, decimals))
  }

  /** Development's 522,000,000 tokens at nine decimals are 522 * 10^15 base units. */
  lemma DevelopmentScaled(isDevnet: bool)
    ensures ScaledAmount(DistributionTargets(TokenConfigFor(isDevnet))[0].amount, TokenConfigFor(isDevnet).decimals)
            == 522_000_000_000_000_000
  {
  }

  lemma {:induction false} SumAppend(xs: seq<nat>, x: nat)
    ensures Sum(xs + [x]) == Sum(xs) + x
  {
    if xs != [] {
      assert (xs + [x])[1..] == xs[1..] + [x];
      SumAppend(xs[1..], x);
    }
  }

  /** Scaling every amount scales their sum: minting all targets mints the scaled total. */
  lemma {:induction false} ScaledSum(ts: seq<Target>, decimals: nat)
    ensures Sum(ScaledAmounts(ts, decimals)) == Sum(AmountsOf(ts)) * Pow10(decimals)
  {
    if ts != [] {
      ScaledSum(ts[1..], decimals);
      assert ScaledAmounts(ts, decimals)[1..] == ScaledAmounts(ts[1..], decimals);
      assert AmountsOf(ts)[1..] == AmountsOf(ts[1..]);
    }
  }

  /** The nine mints together create 2.9 * 10^18 base units, which fits the 64-bit supply. */
  lemma TotalScaledIsSupply(isDevnet: bool)
    ensures Sum(ScaledAmounts(DistributionTargets(TokenConfigFor(isDevnet)), TokenConfigFor(isDevnet).decimals))
            == TokenConfigFor(isDevnet).totalSupply * Pow10(TokenConfigFor(isDevnet).decimals)
            == 2_900_000_000_000_000_000
    ensures 2_900_000_000_000_000_000 <= U64Max
  {
    TargetsSumToTotal(isDevnet);
    ScaledSum(DistributionTargets(TokenConfigFor(isDevnet)), TokenConfigFor(isDevnet).decimals);
    ExpectedMintSupply(isDevnet);
  }

  function Pow2(n: nat): (r: nat)
    ensures r >= 1
  {
    if n == 0 then 1 else 2 * Pow2(n - 1)
  }

  /** `x` is a non-negative integer that an IEEE 754 double holds exactly. */
  predicate IsExactDouble(x: nat)
  {
    exists e: nat :: e <= 971 && x % Pow2(e) == 0 && x / Pow2(e) < Pow2(53)
  }

  /**
   * The source computes the product in floating point before converting it
   * to a big integer. Every allocation, and the total, times 10^9 is a
   * double exactly, so the correctly rounded product is the exact integer
   * the model uses.
   */
  lemma ScaledAmountsAreExactDoubles(isDevnet: bool, i: nat)
    requires i < 9
    ensures IsExactDouble(ScaledAmount(DistributionTargets(TokenConfigFor(isDevnet))[i].amount, 9))
    ensures IsExactDouble(ScaledAmount(TokenConfigFor(isDevnet).totalSupply, 9))
  {
    var a := DistributionTargets(TokenConfigFor(isDevnet))[i].amount;
    ScaledIsExactDouble(a);
    ScaledIsExactDouble(TokenConfigFor(isDevnet).totalSupply);
  }

  lemma ScaledIsExactDouble(a: nat)
    requires a <= 4_000_000_000
    ensures IsExactDouble(ScaledAmount(a, 9))
  {
    assert Pow10(9) == 1_000_000_000;
    assert Pow2(9) == 512;
    assert Pow2(53) == 9_007_199_254_740_992 by {
      Pow2Value();
    }
    var x := ScaledAmount(a, 9);
    assert x == a * 1_953_125 * 512;
    assert x % Pow2(9) == 0 && x / Pow2(9) == a * 1_953_125;
  }

  lemma Pow2Value()
    ensures Pow2(53) == 9_007_199_254_740_992
  {
    assert Pow2(10) == 1024;
    assert Pow2(20) == 1024 * 1024 by { Pow2Add(10, 10); }
    assert Pow2(40) == Pow2(20) * Pow2(20) by { Pow2Add(20, 20); }
    assert Pow2(53) == Pow2(40) * Pow2(13) by { Pow2Add(40, 13); }
  }

  lemma {:induction false} Pow2Add(m: nat, n: nat)
    ensures Pow2(m + n) == Pow2(m) * Pow2(n)
  {
    if m > 0 {
      Pow2Add(m - 1, n);
    }
  }

  // ---------------------------------------------------------------------
  // Deployment record
  // ---------------------------------------------------------------------

  datatype DeploymentRecord = DeploymentRecord(
    tokenMint: Address,
    mintAuthority: Address,
    network: string,
    deployedAt: string,
    isTestToken: bool)

  /** `SOLANA_NETWORK === 'devnet'`: an absent variable is not devnet. */
  predicate IsDevnet(env: Env)
  {
    "SOLANA_NETWORK" in env && env["SOLANA_NETWORK"] == "devnet"
  }

  /** The record written to `deployment.json`; the clock reading is a parameter. */
  function MakeDeploymentRecord(env: Env, tokenMint: Address, mintAuthority: Address, deployedAt: string): (r: DeploymentRecord)
    ensures r.tokenMint == tokenMint && r.mintAuthority == mintAuthority && r.deployedAt == deployedAt
    ensures r.network != ""
    ensures r.isTestToken ==> r.network == "devnet"
  {
    DeploymentRecord(
      tokenMint,
      mintAuthority,
      if IsSet(env, "SOLANA_NETWORK") then env["SOLANA_NETWORK"] else "devnet",
      deployedAt,
      IsDevnet(env))
  }

  /**
   * Once the environment is validated the record names the configured
   * network, and it is a test token exactly when that network is devnet.
   */
  lemma RecordAfterValidation(env: Env, tokenMint: Address, mintAuthority: Address, deployedAt: string)
    requires FirstMissing(env, RequiredEnvVars).None?
    ensures "SOLANA_NETWORK" in env
    ensures MakeDeploymentRecord(env, tokenMint, mintAuthority, deployedAt).network == env["SOLANA_NETWORK"]
    ensures MakeDeploymentRecord(env, tokenMint, mintAuthority, deployedAt).isTestToken
            <==> MakeDeploymentRecord(env, tokenMint, mintAuthority, deployedAt).network == "devnet"
  {
    assert RequiredEnvVars[0] == "SOLANA_NETWORK";
  }

  /** Without a network the record falls back to "devnet" yet is not marked a test token. */
  lemma RecordWithoutNetwork(env: Env, tokenMint: Address, mintAuthority: Address, deployedAt: string)
    requires !IsSet(env, "SOLANA_NETWORK")
    ensures MakeDeploymentRecord(env, tokenMint, mintAuthority, deployedAt).network == "devnet"
    ensures !MakeDeploymentRecord(env, tokenMint, mintAuthority, deployedAt).isTestToken
  {
  }

  // ---------------------------------------------------------------------
  // Distribution wallets (devnet only)
  // ---------------------------------------------------------------------

  /** A generated keypair: the public key in base58 and the secret key bytes. */
  datatype Keypair = Keypair(publicKey: Address, secretKey: seq<nat>)

  /** One keypair file written under `wallets/`. */
  datatype WalletFile = WalletFile(path: string, secretKey: seq<nat>)

  datatype WalletInfo = WalletInfo(name: string, publicKey: Address, walletPath: string, allocation: nat)

  function PublicKeysOf(kps: seq<Keypair>): (r: seq<Address>)
    ensures |r| == |kps|
  {
    seq(|kps|, i requires 0 <= i < |kps| => kps[i].publicKey)
  }

  /**
   * `createDistributionWallets`: outside devnet nothing is touched. On devnet
   * every `<walletKey>=...\n` entry of every target is deleted from the
   * `.env` text, then one `<walletKey>=<publicKey>\n` line per target is
   * appended in target order, and one keypair file is written per target.
   * The keypairs `Keypair.generate` would return are a parameter.
   */
  method CreateDistributionWallets(env: Env, envText: string, ts: seq<Target>, keypairs: seq<Keypair>)
    returns (text: string, files: seq<WalletFile>, infos: seq<WalletInfo>)
    requires |keypairs| == |ts|
    ensures !IsDevnet(env) ==> text == envText && files == [] && infos == []
    ensures IsDevnet(env) ==>
      text == RemoveAllEntries(envText, WalletKeysOf(ts)) + JoinLines(EntryLines(WalletKeysOf(ts), PublicKeysOf(keypairs)))
    ensures IsDevnet(env) ==> |files| == |ts| && |infos| == |ts|
    ensures IsDevnet(env) ==> forall i :: 0 <= i < |ts| ==>
      files[i] == WalletFile(WalletPath(ts[i].name), keypairs[i].secretKey)
      && infos[i] == WalletInfo(ts[i].name, keypairs[i].publicKey, WalletPath(ts[i].name), ts[i].amount)
  {
    if !IsDevnet(env) {
      return envText, [], [];
    }
    var removed := RemoveStaleWalletEntries(envText, ts);
    text, files, infos := AppendWallets(removed, ts, keypairs);
  }

  /** The loop that deletes every target's `<walletKey>=.*\n` matches, key by key. */
  method RemoveStaleWalletEntries(envText: string, ts: seq<Target>) returns (text: string)
    ensures text == RemoveAllEntries(envText, WalletKeysOf(ts))
  {
    var keys := WalletKeysOf(ts);
    text := envText;
    for i := 0 to |ts|
      invariant text == RemoveAllEntries(envText, keys[..i])
    {
      assert keys[..i + 1][..i] == keys[..i];
      text := RemoveEntries(text, ts[i].walletKey);
    }
    assert keys[..|ts|] == keys;
  }

  /** The loop that writes one keypair file and appends one `.env` line per target. */
  method AppendWallets(removed: string, ts: seq<Target>, keypairs: seq<Keypair>)
    returns (text: string, files: seq<WalletFile>, infos: seq<WalletInfo>)
    requires |keypairs| == |ts|
    ensures text == removed + JoinLines(EntryLines(WalletKeysOf(ts), PublicKeysOf(keypairs)))
    ensures |files| == |ts| && |infos| == |ts|
    ensures forall i :: 0 <= i < |ts| ==>
      files[i] == WalletFile(WalletPath(ts[i].name), keypairs[i].secretKey)
      && infos[i] == WalletInfo(ts[i].name, keypairs[i].publicKey, WalletPath(ts[i].name), ts[i].amount)
  {
    var keys := WalletKeysOf(ts);
    var pks := PublicKeysOf(keypairs);
    text, files, infos := removed, [], [];
    for i := 0 to |ts|
      invariant text == removed + JoinLines(EntryLines(keys[..i], pks[..i]))
      invariant |files| == i && |infos| == i
      invariant forall j :: 0 <= j < i ==> files[j] == WalletFile(WalletPath(ts[j].name), keypairs[j].secretKey)
      invariant forall j :: 0 <= j < i ==>
        infos[j] == WalletInfo(ts[j].name, keypairs[j].publicKey, WalletPath(ts[j].name), ts[j].amount)
    {
      var walletPath := WalletPath(ts[i].name);
      files := files + [WalletFile(walletPath, keypairs[i].secretKey)];
      var line := ts[i].walletKey + "=" + keypairs[i].publicKey;
      assert line == keys[i] + "=" + pks[i];
      AppendEntryLine(removed, keys, pks, i);
      text := text + (line + "\n");
      infos := infos + [WalletInfo(ts[i].name, keypairs[i].publicKey, walletPath, ts[i].amount)];
    }
    assert keys[..|ts|] == keys && pks[..|ts|] == pks;
  }

  lemma AppendEntryLine(removed: string, keys: seq<string>, vals: seq<string>, i: nat)
    requires |keys| == |vals| && i < |keys|
    ensures removed + JoinLines(EntryLines(keys[..i], vals[..i])) + (keys[i] + "=" + vals[i] + "\n")
            == removed + JoinLines(EntryLines(keys[..i + 1], vals[..i + 1]))
  {
    EntryLinesSnoc(keys, vals, i);
    JoinLinesAppend(EntryLines(keys[..i], vals[..i]), [keys[i] + "=" + vals[i]]);
  }

  lemma EntryLinesSnoc(keys: seq<string>, vals: seq<string>, i: nat)
    requires |keys| == |vals| && i < |keys|
    ensures EntryLines(keys[..i + 1], vals[..i + 1]) == EntryLines(keys[..i], vals[..i]) + [keys[i] + "=" + vals[i]]
    ensures JoinLines([keys[i] + "=" + vals[i]]) == keys[i] + "=" + vals[i] + "\n"
  {
    assert JoinLines([keys[i] + "=" + vals[i]]) == keys[i] + "=" + vals[i] + "\n" + JoinLines([]);
  }

  /**
   * On a `.env` made of clean lines, the devnet rewrite keeps every line that
   * is no wallet entry, in order, and then holds exactly one entry line per
   * wallet key, carrying the new public key.
   */
  lemma WalletRewriteOnCleanText(lines: seq<string>, keys: seq<string>, pks: seq<string>)
    requires |pks| == |keys| && Distinct(keys)
    requires forall i :: 0 <= i < |keys| ==> IsEnvKey(keys[i]) && CleanFor(lines, keys[i])
    ensures RemoveAllEntries(JoinLines(lines), keys) + JoinLines(EntryLines(keys, pks))
            == JoinLines(KeepLines(lines, keys) + EntryLines(keys, pks))
    ensures forall line :: line in KeepLines(lines, keys) <==> line in lines && !IsEntryForAny(line, keys)
    ensures forall i, j :: 0 <= i < |keys| && 0 <= j < |keys| ==>
      (IsEntryFor(EntryLines(keys, pks)[j], keys[i]) <==> i == j)
  {
    RemoveAllDropsEntryLines(lines, keys);
    JoinLinesAppend(KeepLines(lines, keys), EntryLines(keys, pks));
    KeepLinesMembers(lines, keys);
    forall i, j | 0 <= i < |keys| && 0 <= j < |keys|
      ensures IsEntryFor(EntryLines(keys, pks)[j], keys[i]) <==> i == j
    {
      EntryLineKey(keys[i], keys[j], pks[j]);
    }
  }

  /**
   * The wallet keys written out, so that lemmas about single keys compute on
   * literals; `WalletKeysListed` shows they are the targets' wallet keys.
   */
  const TargetWalletKeys: seq<string> := [
    "DEVELOPMENT_WALLET", "MARKETING_WALLET", "STAKING_WALLET", "PUBLIC_SALE_WALLET", "COMMUNITY_WALLET",
    "LIQUIDITY_WALLET", "ECOSYSTEM_WALLET", "TEAM_WALLET", "PARTNERSHIPS_WALLET"]

  lemma WalletKeysListed(cfg: TokenConfig)
    ensures WalletKeysOf(DistributionTargets(cfg)) == TargetWalletKeys
  {
  }

  lemma WalletKeysValidLow(i: nat)
    requires i < 3
    ensures IsEnvKey(TargetWalletKeys[i])
  {
  }

  lemma WalletKeysValidMid(i: nat)
    requires 3 <= i < 6
    ensures IsEnvKey(TargetWalletKeys[i])
  {
  }

  lemma WalletKeysValidHigh(i: nat)
    requires 6 <= i < 9
    ensures IsEnvKey(TargetWalletKeys[i])
  {
  }

  /** The network variable is not one of the wallet keys the reload writes. */
  lemma NetworkIsNoWalletKey()
    ensures forall i | 0 <= i < 9 :: TargetWalletKeys[i] != "SOLANA_NETWORK"
  {
  }

  /** The wallet keys are distinct and none of them is the network variable. */
  lemma WalletKeysDistinct(cfg: TokenConfig)
    ensures Distinct(WalletKeysOf(DistributionTargets(cfg)))
    ensures forall i :: 0 <= i < |DistributionTargets(cfg)| ==> DistributionTargets(cfg)[i].walletKey != "SOLANA_NETWORK"
  {
    TargetsAreDistinct(cfg);
    WalletKeysListed(cfg);
    NetworkIsNoWalletKey();
  }

  /** The nine wallet keys of the targets are valid, distinct `.env` keys. */
  lemma WalletKeysAreEnvKeys(cfg: TokenConfig)
    ensures Distinct(WalletKeysOf(DistributionTargets(cfg)))
    ensures forall i :: 0 <= i < 9 ==> IsEnvKey(WalletKeysOf(DistributionTargets(cfg))[i])
    ensures forall i :: 0 <= i < 9 ==> WalletKeysOf(DistributionTargets(cfg))[i] != "SOLANA_NETWORK"
  {
    TargetsAreDistinct(cfg);
    WalletKeysListed(cfg);
    NetworkIsNoWalletKey();
    forall i | 0 <= i < 9 ensures IsEnvKey(TargetWalletKeys[i]) {
      if i < 3 { WalletKeysValidLow(i); } else if i < 6 { WalletKeysValidMid(i); } else { WalletKeysValidHigh(i); }
    }
  }

  // ---------------------------------------------------------------------
  // Reloading the environment after the wallets are written
  // ---------------------------------------------------------------------

  /** The `.env` text after step 1. */
  function WalletText(env: Env, envText: string, ts: seq<Target>, keypairs: seq<Keypair>): string
    requires |keypairs| == |ts|
  {
    if IsDevnet(env) then
      RemoveAllEntries(envText, WalletKeysOf(ts)) + JoinLines(EntryLines(WalletKeysOf(ts), PublicKeysOf(keypairs)))
    else envText
  }

  /** The wallet variables `dotenv` reads from a text: the entries for `keys` that start a line. */
  function ParsedWallets(text: string, keys: seq<string>): (m: map<string, string>)
    ensures forall k :: k in m ==> k in keys
  {
    map k | k in keys && ParsedValue(text, k).Some? :: ParsedValue(text, k).value
  }

  /** A `KEY=value` line with a valid key and a one-line value is one line. */
  lemma EntryLineOneLine(k: string, v: string)
    requires IsEnvKey(k) && OneLine(v)
    ensures OneLine(k + "=" + v)
  {
    var line := k + "=" + v;
    forall j | 0 <= j < |line| ensures line[j] != '\n' {
      if j > |k| { assert line[j] == v[j - |k| - 1]; }
    }
  }

  /**
   * The wallet lines appended to the cleaned text split into lines of their
   * own, except that the first one continues the cleaned text's last line.
   */
  lemma {:induction false} WalletTextLines(cleaned: string, keys: seq<string>, pks: seq<string>)
    requires |keys| == |pks| && |keys| > 0
    requires forall j :: 0 <= j < |keys| ==> IsEnvKey(keys[j]) && OneLine(pks[j])
    ensures var sc, e := SplitLines(cleaned), EntryLines(keys, pks);
            SplitLines(cleaned + JoinLines(e))
            == sc[..|sc| - 1] + [sc[|sc| - 1] + e[0]] + (e[1..] + [""])
  {
    var e := EntryLines(keys, pks);
    forall j | 0 <= j < |e| ensures OneLine(e[j]) {
      EntryLineOneLine(keys[j], pks[j]);
    }
    SplitJoinLines(e);
    SplitLinesAppend(cleaned, JoinLines(e));
    var t := e + [""];
    assert t[0] == e[0] && t[1..] == e[1..] + [""];
  }

  /** In those lines, no line after wallet line `i` is an entry for key `i`. */
  lemma {:induction false} NoLaterWalletEntry(front: seq<string>, glued: string, keys: seq<string>, pks: seq<string>, i: nat)
    requires |keys| == |pks| && Distinct(keys) && i < |keys|
    requires forall j :: 0 <= j < |keys| ==> IsEnvKey(keys[j])
    ensures var lines := front + [glued] + (EntryLines(keys, pks)[1..] + [""]);
            forall j :: |front| + i < j < |lines| ==> !IsEntryFor(lines[j], keys[i])
  {
    var e := EntryLines(keys, pks);
    var lines := front + [glued] + (e[1..] + [""]);
    forall j | |front| + i < j < |lines| ensures !IsEntryFor(lines[j], keys[i]) {
      var m := j - |front|;
      if m < |e| {
        assert lines[j] == e[m] == keys[m] + "=" + pks[m];
        EntryLineKey(keys[i], keys[m], pks[m]);
      } else {
        assert lines[j] == "";
      }
    }
  }

  /**
   * Every appended wallet line is read back with its own key, except the
   * first when the cleaned text does not end its last line.
   */
  lemma {:induction false} AppendedWalletsRead(cleaned: string, keys: seq<string>, pks: seq<string>, i: nat)
    requires |keys| == |pks| && Distinct(keys) && i < |keys|
    requires forall j :: 0 <= j < |keys| ==> IsEnvKey(keys[j]) && OneLine(pks[j])
    requires i > 0 || EndsLine(cleaned)
    ensures ParsedValue(cleaned + JoinLines(EntryLines(keys, pks)), keys[i]) == Some(pks[i])
  {
    var sc, e := SplitLines(cleaned), EntryLines(keys, pks);
    var front, glued := sc[..|sc| - 1], sc[|sc| - 1] + e[0];
    WalletTextLines(cleaned, keys, pks);
    var lines := front + [glued] + (e[1..] + [""]);
    NoLaterWalletEntry(front, glued, keys, pks, i);
    if i == 0 {
      SplitEndsLine(cleaned);
      assert lines[|front|] == glued == e[0];
    } else {
      assert lines[|front| + i] == e[i];
    }
    LastEntryIs(lines, keys[i], |front| + i, pks[i]);
  }

  /**
   * `dotenv.config()` as the script calls it, without `override`: a variable
   * already present in the environment keeps its value, and only absent
   * ones are taken from the file.
   */
  function DotenvReload(env: Env, parsed: map<string, string>): (r: Env)
    ensures r.Keys == env.Keys + parsed.Keys
    ensures forall k :: k in env ==> r[k] == env[k]
    ensures forall k :: k in parsed && k !in env ==> r[k] == parsed[k]
  {
    map k | k in env.Keys + parsed.Keys :: if k in env then env[k] else parsed[k]
  }

  /** The reload the script needs: the file's values replace those already present. */
  function DotenvReloadOverride(env: Env, parsed: map<string, string>): (r: Env)
    ensures r.Keys == env.Keys + parsed.Keys
    ensures forall k :: k in parsed ==> r[k] == parsed[k]
    ensures forall k :: k in env && k !in parsed ==> r[k] == env[k]
  {
    env + parsed
  }

  /**
   * As written: a wallet variable that was already in the environment when
   * the script started (loaded from the old `.env`) survives the reload, so
   * the distribution reads the stale address, although the file now holds
   * the one just generated.
   */
  lemma StaleWalletSurvivesReload(env: Env, cleaned: string, keys: seq<string>, pks: seq<string>, i: nat)
    requires |keys| == |pks| && Distinct(keys) && i < |keys|
    requires forall j :: 0 <= j < |keys| ==> IsEnvKey(keys[j]) && OneLine(pks[j])
    requires i > 0 || EndsLine(cleaned)
    requires keys[i] in env && env[keys[i]] != pks[i]
    ensures ParsedValue(cleaned + JoinLines(EntryLines(keys, pks)), keys[i]) == Some(pks[i])
    ensures DotenvReload(env, ParsedWallets(cleaned + JoinLines(EntryLines(keys, pks)), keys))[keys[i]]
            == env[keys[i]] != pks[i]
  {
    AppendedWalletsRead(cleaned, keys, pks, i);
  }

  /** The concrete case: a re-run whose environment still holds an old Development wallet. */
  lemma ReRunMintsToOldDevelopmentWallet(env: Env, cleaned: string, pks: seq<string>)
    requires env == map["DEVELOPMENT_WALLET" := "OldWallet"]
    requires EndsLine(cleaned) && |pks| == 9 && pks[0] == "NewWallet"
    requires forall j :: 0 <= j < 9 ==> OneLine(pks[j])
    ensures ParsedValue(cleaned + JoinLines(EntryLines(TargetWalletKeys, pks)), "DEVELOPMENT_WALLET") == Some("NewWallet")
    ensures DotenvReload(env, ParsedWallets(cleaned + JoinLines(EntryLines(TargetWalletKeys, pks)), TargetWalletKeys))
              ["DEVELOPMENT_WALLET"] == "OldWallet"
  {
    WalletKeysAreEnvKeys(TokenConfigFor(true));
    WalletKeysListed(TokenConfigFor(true));
    StaleWalletSurvivesReload(env, cleaned, TargetWalletKeys, pks, 0);
  }

  /**
   * Corrected: with the file's values overriding, every wallet variable that
   * is read back holds the fresh public key, which is all of them when the
   * cleaned text ends its last line; every other variable is unchanged.
   */
  lemma FreshWalletsAfterOverride(env: Env, cleaned: string, keys: seq<string>, pks: seq<string>)
    requires |keys| == |pks| && Distinct(keys)
    requires forall j :: 0 <= j < |keys| ==> IsEnvKey(keys[j]) && OneLine(pks[j])
    ensures forall i :: 0 <= i < |keys| && (i > 0 || EndsLine(cleaned)) ==>
      keys[i] in DotenvReloadOverride(env, ParsedWallets(cleaned + JoinLines(EntryLines(keys, pks)), keys))
      && DotenvReloadOverride(env, ParsedWallets(cleaned + JoinLines(EntryLines(keys, pks)), keys))[keys[i]] == pks[i]
    ensures forall k :: k in env && k !in keys ==>
      DotenvReloadOverride(env, ParsedWallets(cleaned + JoinLines(EntryLines(keys, pks)), keys))[k] == env[k]
  {
    var text := cleaned + JoinLines(EntryLines(keys, pks));
    forall i | 0 <= i < |keys| && (i > 0 || EndsLine(cleaned))
      ensures keys[i] in DotenvReloadOverride(env, ParsedWallets(text, keys))
      ensures DotenvReloadOverride(env, ParsedWallets(text, keys))[keys[i]] == pks[i]
    {
      AppendedWalletsRead(cleaned, keys, pks, i);
    }
  }

  /**
   * As written: every `.env` edit after the wallets appends `\nKEY=value`
   * with no newline after it, so a finished run leaves the file's last line
   * unterminated. When the next devnet rewrite appends the wallet lines, the
   * first one continues that line, and the reload does not read it.
   */
  lemma {:induction false} NextRunMissesFirstWallet(front: string, k: string, v: string, keys: seq<string>, pks: seq<string>)
    requires EndsLine(front) && IsEnvKey(k) && OneLine(v)
    requires |keys| == |pks| && |keys| > 0 && Distinct(keys) && k != keys[0]
    requires forall j :: 0 <= j < |keys| ==> IsEnvKey(keys[j]) && OneLine(pks[j])
    requires ParsedValue(front, keys[0]) == None
    ensures !EndsLine(front + (k + "=" + v))
    ensures ParsedValue(front + (k + "=" + v) + JoinLines(EntryLines(keys, pks)), keys[0]) == None
  {
    var line := k + "=" + v;
    var cleaned := front + line;
    EntryLineOneLine(k, v);
    assert cleaned[|cleaned| - 1] == line[|line| - 1];
    var sf := SplitLines(front);
    var others := sf[..|sf| - 1];
    UnterminatedLastLine(front, line);
    var e := EntryLines(keys, pks);
    WalletTextLines(cleaned, keys, pks);
    var glued := line + e[0];
    var lines := others + [glued] + (e[1..] + [""]);
    assert SplitLines(cleaned + JoinLines(e)) == lines;
    NoValueIffNoEntry(sf, keys[0]);
    NoLaterWalletEntry(others, glued, keys, pks, 0);
    assert glued == k + "=" + (v + e[0]);
    EntryLineKey(keys[0], k, v + e[0]);
    forall j | 0 <= j < |lines| ensures !IsEntryFor(lines[j], keys[0]) {
      if j < |others| {
        assert lines[j] == sf[j];
      }
    }
    NoValueIffNoEntry(lines, keys[0]);
  }

  /** A line appended after a text that ends its last line becomes the text's last line. */
  lemma {:induction false} UnterminatedLastLine(front: string, line: string)
    requires EndsLine(front) && OneLine(line)
    ensures var sf := SplitLines(front); SplitLines(front + line) == sf[..|sf| - 1] + [line]
  {
    var sf := SplitLines(front);
    SplitOneLine(line);
    SplitLinesAppend(front, line);
    SplitEndsLine(front);
    assert sf[|sf| - 1] + line == line;
  }

  /**
   * Corrected rewrite: the cleaned text's last line is ended before the
   * wallet lines are appended.
   */
  function TerminatedWalletText(cleaned: string, keys: seq<string>, pks: seq<string>): string
    requires |keys| == |pks|
  {
    (if EndsLine(cleaned) then cleaned else cleaned + "\n") + JoinLines(EntryLines(keys, pks))
  }

  /** With the corrected rewrite every wallet line is read back, whatever the cleaned text. */
  lemma TerminatedRewriteReadsAllWallets(cleaned: string, keys: seq<string>, pks: seq<string>)
    requires |keys| == |pks| && Distinct(keys)
    requires forall j :: 0 <= j < |keys| ==> IsEnvKey(keys[j]) && OneLine(pks[j])
    ensures forall i :: 0 <= i < |keys| ==>
      ParsedValue(TerminatedWalletText(cleaned, keys, pks), keys[i]) == Some(pks[i])
  {
    var front := if EndsLine(cleaned) then cleaned else cleaned + "\n";
    assert EndsLine(front);
    forall i | 0 <= i < |keys| ensures ParsedValue(TerminatedWalletText(cleaned, keys, pks), keys[i]) == Some(pks[i]) {
      AppendedWalletsRead(front, keys, pks, i);
    }
  }

  /** The environment the distribution step reads: the rewritten text, reloaded with the corrected reload. */
  function ReloadedEnv(env: Env, envText: string, ts: seq<Target>, keypairs: seq<Keypair>): Env
    requires |keypairs| == |ts|
  {
    if IsDevnet(env) then DotenvReloadOverride(env, ParsedWallets(WalletText(env, envText, ts, keypairs), WalletKeysOf(ts)))
    else env
  }

  // ---------------------------------------------------------------------
  // Token accounts and the distribution loop
  // ---------------------------------------------------------------------

  datatype DeployError =
    | ConfigurationError(variable: string)
    | AddressResolutionError(walletKey: string)
    | NetworkSubmissionError(step: string)
    | CapEnforcementError

  /**
   * `createTokenAccount`: the associated token account of `owner` for this
   * mint, reused when it exists and otherwise created empty.
   */
  method CreateTokenAccount(ledger: TokenLedger, owner: Address) returns (account: Address)
    requires ledger.Valid()
    modifies ledger
    ensures ledger.Valid()
    ensures account == ledger.ata(ledger.mint, owner)
    ensures ledger.accounts == old(ledger.accounts) + {account}
    ensures account in old(ledger.accounts) ==> ledger.balances == old(ledger.balances)
    ensures account !in old(ledger.accounts) ==> ledger.balances == old(ledger.balances)[account := 0]
    ensures ledger.supply == old(ledger.supply) && ledger.mintAuthority == old(ledger.mintAuthority)
  {
    account := ledger.ata(ledger.mint, owner);
    var found := ledger.AccountExists(account);
    if !found {
      var _ := ledger.CreateAssociatedAccount(owner);
    }
  }

  /** `process.env[walletKey]` is a non-empty value for every target. */
  predicate RecipientsSet(env: Env, ts: seq<Target>)
  {
    forall i :: 0 <= i < |ts| ==> IsSet(env, ts[i].walletKey)
  }

  function Recipients(env: Env, ts: seq<Target>): (r: seq<Address>)
    requires RecipientsSet(env, ts)
    ensures |r| == |ts|
  {
    seq(|ts|, i requires 0 <= i < |ts| => env[ts[i].walletKey])
  }

  /** The token account each target is paid into. */
  function RecipientAccounts(ata: (Address, Address) -> Address, mint: Address, env: Env, ts: seq<Target>): (r: seq<Address>)
    requires RecipientsSet(env, ts)
    ensures |r| == |ts|
  {
    seq(|ts|, i requires 0 <= i < |ts| => ata(mint, env[ts[i].walletKey]))
  }

  function BalanceIn(b: map<Address, nat>, a: Address): nat
  {
    if a in b then b[a] else 0
  }

  /** The balances after crediting `amount` to `a`; a missing account counts as an empty one. */
  function CreditOne(b: map<Address, nat>, a: Address, amount: nat): map<Address, nat>
  {
    b[a := BalanceIn(b, a) + amount]
  }

  /** The balances after crediting `amts[i]` to `accts[i]`, in order. */
  function Credit(b: map<Address, nat>, accts: seq<Address>, amts: seq<nat>): map<Address, nat>
    requires |accts| == |amts|
    decreases |accts|
  {
    if accts == [] then b
    else
      var n := |accts| - 1;
      CreditOne(Credit(b, accts[..n], amts[..n]), accts[n], amts[n])
  }

  /** Into distinct accounts, every account receives exactly its own amount and nothing else changes. */
  lemma {:induction false} CreditDistinct(b: map<Address, nat>, accts: seq<Address>, amts: seq<nat>)
    requires |accts| == |amts| && Distinct(accts)
    ensures forall i :: 0 <= i < |accts| ==> BalanceIn(Credit(b, accts, amts), accts[i]) == BalanceIn(b, accts[i]) + amts[i]
    ensures forall a :: a !in accts ==> BalanceIn(Credit(b, accts, amts), a) == BalanceIn(b, a)
    decreases |accts|
  {
    if accts != [] {
      var n := |accts| - 1;
      CreditDistinct(b, accts[..n], amts[..n]);
      forall i | 0 <= i < n ensures accts[i] != accts[n] && accts[i] == accts[..n][i] {
      }
      forall a | a !in accts ensures a !in accts[..n] && a != accts[n] {
        assert accts == accts[..n] + [accts[n]];
      }
    }
  }

  /** Distinct recipients give distinct token accounts, because the derivation never collides. */
  lemma DistinctRecipientsDistinctAccounts(ata: (Address, Address) -> Address, mint: Address, env: Env, ts: seq<Target>)
    requires Injective(ata) && RecipientsSet(env, ts) && Distinct(Recipients(env, ts))
    ensures Distinct(RecipientAccounts(ata, mint, env, ts))
  {
    var accts := RecipientAccounts(ata, mint, env, ts);
    var rs := Recipients(env, ts);
    forall i, j | 0 <= i < j < |accts| ensures accts[i] != accts[j] {
      assert rs[i] != rs[j];
    }
  }

  /** The `.env` text after writing `keys[i]=vals[i]` for each target in turn. */
  function UpsertAll(s: string, keys: seq<string>, vals: seq<string>): string
    requires |keys| == |vals|
    decreases |keys|
  {
    if keys == [] then s
    else Upsert(UpsertAll(s, keys[..|keys| - 1], vals[..|vals| - 1]), keys[|keys| - 1], vals[|vals| - 1])
  }

  lemma {:induction false} SumPrefix(xs: seq<nat>, k: nat)
    requires k < |xs|
    ensures Sum(xs[..k + 1]) == Sum(xs[..k]) + xs[k]
    ensures Sum(xs[..k + 1]) <= Sum(xs)
  {
    assert xs[..k + 1] == xs[..k] + [xs[k]];
    SumAppend(xs[..k], xs[k]);
    SumSplit(xs, k + 1);
  }

  lemma {:induction false} SumSplit(xs: seq<nat>, k: nat)
    requires k <= |xs|
    ensures Sum(xs) == Sum(xs[..k]) + Sum(xs[k..])
  {
    if k > 0 {
      SumSplit(xs[1..], k - 1);
      assert xs[1..][..k - 1] == xs[..k][1..];
      assert xs[1..][k - 1..] == xs[k..];
    } else {
      assert xs[k..] == xs;
    }
  }

  /**
   * One pass of the distribution loop: resolve the target's wallet
   * variable, reuse or create its token account, mint the scaled amount
   * with the expected decimals, and record the account under
   * `<NAME>_TOKEN_ACCOUNT` in the `.env` text.
   */
  method DistributeTarget(ledger: TokenLedger, env: Env, envText: string, t: Target, decimals: nat, authority: Address)
    returns (r: Result<Address, DeployError>, text: string)
    requires ledger.Valid()
    modifies ledger
    ensures ledger.Valid()
    ensures ledger.mintAuthority == old(ledger.mintAuthority)
    ensures old(ledger.accounts) <= ledger.accounts
    ensures !IsSet(env, t.walletKey) ==> r == Err(AddressResolutionError(t.walletKey))
    ensures IsSet(env, t.walletKey) ==>
      (r.Ok? <==> old(ledger.mintAuthority) == Some(authority) && decimals == ledger.decimals
                  && old(ledger.supply) + ScaledAmount(t.amount, decimals) <= U64Max)
    ensures IsSet(env, t.walletKey) && r.Err? ==> r.error == NetworkSubmissionError("mintToChecked")
    ensures r.Err? ==> ledger.supply == old(ledger.supply) && text == envText
    ensures r.Err? ==> forall a :: a in old(ledger.balances) ==> a in ledger.balances && ledger.balances[a] == old(ledger.balances)[a]
    ensures r.Ok? ==>
      && IsSet(env, t.walletKey)
      && r.value == ledger.ata(ledger.mint, env[t.walletKey])
      && r.value in ledger.accounts
      && ledger.supply == old(ledger.supply) + ScaledAmount(t.amount, decimals)
      && ledger.balances == CreditOne(old(ledger.balances), r.value, ScaledAmount(t.amount, decimals))
      && text == Upsert(envText, TokenAccountKey(t.name), r.value)
  {
    text := envText;
    if !IsSet(env, t.walletKey) {
      r := Err(AddressResolutionError(t.walletKey));
      return;
    }
    var recipient := env[t.walletKey];
    var account := CreateTokenAccount(ledger, recipient);
    var amount := ScaledAmount(t.amount, decimals);
    var ok := ledger.MintTo(account, amount, decimals, authority);
    if !ok {
      r := Err(NetworkSubmissionError("mintToChecked"));
      return;
    }
    text := Upsert(text, TokenAccountKey(t.name), account);
    r := Ok(account);
  }

  /**
   * The distribution loop over all targets in order. The first failure ends
   * the loop; mints already made stay on the ledger.
   */
  method DistributeTokens(ledger: TokenLedger, env: Env, envText: string, ts: seq<Target>, decimals: nat, authority: Address)
    returns (r: Result<seq<Address>, DeployError>, text: string)
    requires ledger.Valid()
    modifies ledger
    ensures ledger.Valid()
    ensures ledger.mintAuthority == old(ledger.mintAuthority)
    ensures r.Ok? <==>
      && RecipientsSet(env, ts)
      && (ts == [] || (old(ledger.mintAuthority) == Some(authority) && decimals == ledger.decimals))
      && old(ledger.supply) + Sum(ScaledAmounts(ts, decimals)) <= U64Max
    ensures r.Ok? ==> r.value == RecipientAccounts(ledger.ata, ledger.mint, env, ts)
    ensures r.Ok? ==> forall i :: 0 <= i < |ts| ==> r.value[i] in ledger.accounts
    ensures r.Ok? ==> ledger.supply == old(ledger.supply) + Sum(ScaledAmounts(ts, decimals))
    ensures r.Ok? ==> ledger.balances == Credit(old(ledger.balances), r.value, ScaledAmounts(ts, decimals))
    ensures r.Ok? ==> text == UpsertAll(envText, TokenAccountKeysOf(ts), r.value)
    ensures r.Err? ==> r.error.AddressResolutionError? || r.error.NetworkSubmissionError?
    ensures r.Err? && r.error.NetworkSubmissionError? ==>
      !(old(ledger.mintAuthority) == Some(authority) && decimals == ledger.decimals
        && old(ledger.supply) + Sum(ScaledAmounts(ts, decimals)) <= U64Max)
    ensures r.Err? && r.error.AddressResolutionError? ==>
      exists i :: 0 <= i < |ts| && r.error.walletKey == ts[i].walletKey
        && !IsSet(env, ts[i].walletKey) && forall j :: 0 <= j < i ==> IsSet(env, ts[j].walletKey)
    ensures r.Err? ==> exists k :: 0 <= k < |ts| && ledger.supply == old(ledger.supply) + Sum(ScaledAmounts(ts, decimals)[..k])
  {
    text := envText;
    var accts: seq<Address> := [];
    ghost var b0, s0, auth0 := ledger.balances, ledger.supply, ledger.mintAuthority;
    for i := 0 to |ts|
      invariant ledger.Valid()
      invariant ledger.mintAuthority == auth0
      invariant Progress(ledger, env, envText, ts, decimals, authority, b0, s0, auth0, i, accts, text)
    {
      var res, next := DistributeNext(ledger, env, envText, ts, decimals, authority, b0, s0, auth0, i, accts, text);
      if res.Err? {
        r := Err(res.error);
        assert ledger.supply == s0 + Sum(ScaledAmounts(ts, decimals)[..i]);
        return;
      }
      text := next;
      accts := accts + [res.value];
    }
    assert ScaledAmounts(ts, decimals)[..|ts|] == ScaledAmounts(ts, decimals);
    assert TokenAccountKeysOf(ts)[..|ts|] == TokenAccountKeysOf(ts) && ts[..|ts|] == ts;
    r := Ok(accts);
  }

  /** The state of the distribution loop after the first `i` targets succeeded. */
  ghost predicate Progress(ledger: TokenLedger, env: Env, envText: string, ts: seq<Target>, decimals: nat,
                           authority: Address, b0: map<Address, nat>, s0: nat, auth0: Option<Address>,
                           i: nat, accts: seq<Address>, text: string)
    reads ledger
  {
    && i <= |ts|
    && RecipientsSet(env, ts[..i])
    && accts == RecipientAccounts(ledger.ata, ledger.mint, env, ts[..i])
    && (forall a :: a in accts ==> a in ledger.accounts)
    && (i > 0 ==> auth0 == Some(authority) && decimals == ledger.decimals)
    && ledger.supply == s0 + Sum(ScaledAmounts(ts, decimals)[..i])
    && ledger.balances == Credit(b0, accts, ScaledAmounts(ts, decimals)[..i])
    && text == UpsertAll(envText, TokenAccountKeysOf(ts)[..i], accts)
  }

  /** One turn of the distribution loop: target `i`, after targets `0..i` succeeded. */
  method DistributeNext(ledger: TokenLedger, env: Env, envText: string, ts: seq<Target>, decimals: nat, authority: Address,
                        ghost b0: map<Address, nat>, ghost s0: nat, ghost auth0: Option<Address>,
                        i: nat, accts: seq<Address>, text: string)
    returns (r: Result<Address, DeployError>, next: string)
    requires ledger.Valid() && ledger.mintAuthority == auth0 && i < |ts|
    requires Progress(ledger, env, envText, ts, decimals, authority, b0, s0, auth0, i, accts, text)
    modifies ledger
    ensures ledger.Valid() && ledger.mintAuthority == auth0
    ensures r.Ok? ==> Progress(ledger, env, envText, ts, decimals, authority, b0, s0, auth0, i + 1, accts + [r.value], next)
    ensures r.Err? ==> r.error.AddressResolutionError? || r.error.NetworkSubmissionError?
    ensures r.Err? && r.error.AddressResolutionError? ==>
      r.error.walletKey == ts[i].walletKey && !IsSet(env, ts[i].walletKey)
      && forall j :: 0 <= j < i ==> IsSet(env, ts[j].walletKey)
    ensures r.Err? ==> ledger.supply == s0 + Sum(ScaledAmounts(ts, decimals)[..i])
    ensures r.Err? && r.error.NetworkSubmissionError? ==>
      !(auth0 == Some(authority) && decimals == ledger.decimals && s0 + Sum(ScaledAmounts(ts, decimals)) <= U64Max)
    ensures r.Err? ==>
      !(&& RecipientsSet(env, ts)
        && auth0 == Some(authority) && decimals == ledger.decimals
        && s0 + Sum(ScaledAmounts(ts, decimals)) <= U64Max)
  {
    var amts := ScaledAmounts(ts, decimals);
    var keys := TokenAccountKeysOf(ts);
    SumPrefix(amts, i);
    assert amts[i] == ScaledAmount(ts[i].amount, decimals);
    r, next := DistributeTarget(ledger, env, text, ts[i], decimals, authority);
    if r.Err? {
      if IsSet(env, ts[i].walletKey) {
        assert s0 + Sum(amts) > U64Max || auth0 != Some(authority) || decimals != ledger.decimals;
      } else {
        FirstUnsetRecipient(env, ts, i);
      }
      return;
    }
    var a := r.value;
    RecipientsStep(ledger.ata, ledger.mint, env, ts, i);
    CreditStep(b0, accts, amts, i, a);
    UpsertAllStep(envText, keys, accts, i, a);
  }

  lemma RecipientsStep(ata: (Address, Address) -> Address, mint: Address, env: Env, ts: seq<Target>, i: nat)
    requires i < |ts| && RecipientsSet(env, ts[..i]) && IsSet(env, ts[i].walletKey)
    ensures RecipientsSet(env, ts[..i + 1])
    ensures RecipientAccounts(ata, mint, env, ts[..i + 1])
            == RecipientAccounts(ata, mint, env, ts[..i]) + [ata(mint, env[ts[i].walletKey])]
  {
    assert forall j :: 0 <= j < i ==> ts[..i + 1][j] == ts[..i][j];
  }

  lemma FirstUnsetRecipient(env: Env, ts: seq<Target>, i: nat)
    requires i < |ts| && RecipientsSet(env, ts[..i]) && !IsSet(env, ts[i].walletKey)
    ensures !RecipientsSet(env, ts)
    ensures forall j :: 0 <= j < i ==> IsSet(env, ts[j].walletKey)
  {
    assert forall j :: 0 <= j < i ==> ts[..i][j] == ts[j];
  }

  lemma UpsertAllStep(s: string, keys: seq<string>, accts: seq<Address>, i: nat, a: Address)
    requires |accts| == i < |keys|
    ensures UpsertAll(s, keys[..i + 1], accts + [a]) == Upsert(UpsertAll(s, keys[..i], accts), keys[i], a)
  {
    assert keys[..i + 1][..i] == keys[..i] && (accts + [a])[..i] == accts;
  }

  lemma CreditStep(b: map<Address, nat>, accts: seq<Address>, amts: seq<nat>, i: nat, a: Address)
    requires |accts| == i < |amts|
    ensures Credit(b, accts + [a], amts[..i + 1]) == CreditOne(Credit(b, accts, amts[..i]), a, amts[i])
  {
    assert (accts + [a])[..i] == accts && amts[..i + 1][..i] == amts[..i];
  }

  // ---------------------------------------------------------------------
  // Hard cap
  // ---------------------------------------------------------------------

  /** The check on the re-read mint: the run fails unless the mint authority is gone. */
  function CheckRevoked(mintAuthority: Option<Address>): (r: Result<(), DeployError>)
    ensures r.Ok? <==> mintAuthority.None?
    ensures r.Err? ==> r.error == CapEnforcementError
  {
    if mintAuthority.None? then Ok(()) else Err(CapEnforcementError)
  }

  /**
   * Step 4: revoke the mint authority, signed by `authority`, then re-read
   * the mint and fail unless the authority is null. Balances and supply are
   * untouched, and once it succeeds no further mint can succeed.
   */
  method EnforceHardCap(ledger: TokenLedger, authority: Address) returns (r: Result<(), DeployError>)
    requires ledger.Valid()
    modifies ledger
    ensures ledger.Valid()
    ensures r.Ok? <==> old(ledger.mintAuthority) == Some(authority)
    ensures r.Ok? ==> ledger.mintAuthority.None?
    ensures r.Err? ==> ledger.mintAuthority == old(ledger.mintAuthority)
    ensures ledger.accounts == old(ledger.accounts) && ledger.balances == old(ledger.balances)
    ensures ledger.supply == old(ledger.supply)
  {
    var ok := ledger.SetMintAuthority(authority, None);
    if !ok {
      r := Err(NetworkSubmissionError("setAuthority"));
      return;
    }
    r := CheckRevoked(ledger.mintAuthority);
  }

  // ---------------------------------------------------------------------
  // The whole run
  // ---------------------------------------------------------------------

  /** What a successful run leaves behind besides the ledger and the `.env` text. */
  datatype Deployment = Deployment(record: DeploymentRecord, tokenAccounts: seq<Address>, wallets: seq<WalletInfo>)

  /**
   * What the run relies on about `DISTRIBUTION_TARGETS` and the decimals:
   * one distinct wallet variable per target, each a valid `.env` key and
   * none of them the network variable, and all the mints together within the 64-bit supply.
   */
  predicate WellFormedTargets(ts: seq<Target>, decimals: nat)
  {
    && Distinct(WalletKeysOf(ts))
    && (forall i :: 0 <= i < |ts| ==> IsEnvKey(ts[i].walletKey) && ts[i].walletKey != "SOLANA_NETWORK")
    && Sum(ScaledAmounts(ts, decimals)) <= U64Max
  }

  /** The configured targets are well formed, and together they mint the whole supply. */
  lemma ConfiguredTargetsWellFormed(isDevnet: bool)
    ensures WellFormedTargets(DistributionTargets(TokenConfigFor(isDevnet)), TokenConfigFor(isDevnet).decimals)
    ensures Sum(ScaledAmounts(DistributionTargets(TokenConfigFor(isDevnet)), TokenConfigFor(isDevnet).decimals))
            == 2_900_000_000_000_000_000
  {
    var ts := DistributionTargets(TokenConfigFor(isDevnet));
    WalletKeysAreEnvKeys(TokenConfigFor(isDevnet));
    forall i | 0 <= i < |ts| ensures IsEnvKey(ts[i].walletKey) && ts[i].walletKey != "SOLANA_NETWORK" {
      assert ts[i].walletKey == WalletKeysOf(ts)[i];
    }
    TotalScaledIsSupply(isDevnet);
  }

  /** The reload adds only wallet variables, so the deployment record reads the same network. */
  lemma ReloadKeepsRecord(env: Env, envText: string, ts: seq<Target>, decimals: nat, keypairs: seq<Keypair>,
                          tokenMint: Address, mintAuthority: Address, deployedAt: string)
    requires |keypairs| == |ts| && WellFormedTargets(ts, decimals)
    ensures MakeDeploymentRecord(ReloadedEnv(env, envText, ts, keypairs), tokenMint, mintAuthority, deployedAt)
            == MakeDeploymentRecord(env, tokenMint, mintAuthority, deployedAt)
  {
    var keys := WalletKeysOf(ts);
    var parsed := ParsedWallets(WalletText(env, envText, ts, keypairs), keys);
    assert "SOLANA_NETWORK" !in keys by {
      forall i | 0 <= i < |keys| ensures keys[i] != "SOLANA_NETWORK" {
        assert keys[i] == ts[i].walletKey;
      }
    }
    assert "SOLANA_NETWORK" !in parsed;
  }

  /**
   * The wallet lines of the devnet rewrite are read back: the cleaned text
   * ends its last line and no public key holds a newline.
   */
  predicate WalletLinesReadable(envText: string, ts: seq<Target>, keypairs: seq<Keypair>)
  {
    && EndsLine(RemoveAllEntries(envText, WalletKeysOf(ts)))
    && forall i :: 0 <= i < |keypairs| ==> OneLine(keypairs[i].publicKey)
  }

  /**
   * On devnet, with the corrected reload, the distribution reads the freshly
   * generated public keys for every wallet line that starts a line of the
   * rewritten file, and target `i` is paid into the token account of keypair
   * `i`; when the cleaned text ends its last line that is every target, and
   * every recipient is resolved exactly when no key is empty.
   */
  lemma DevnetPaysFreshWallets(env: Env, envText: string, ts: seq<Target>, decimals: nat, keypairs: seq<Keypair>,
                               ata: (Address, Address) -> Address, mint: Address)
    requires |keypairs| == |ts| && WellFormedTargets(ts, decimals) && IsDevnet(env)
    ensures (forall j :: 0 <= j < |ts| ==> OneLine(keypairs[j].publicKey)) ==>
      forall i :: 0 <= i < |ts| && (i > 0 || EndsLine(RemoveAllEntries(envText, WalletKeysOf(ts)))) ==>
        ts[i].walletKey in ReloadedEnv(env, envText, ts, keypairs)
        && ReloadedEnv(env, envText, ts, keypairs)[ts[i].walletKey] == keypairs[i].publicKey
    ensures WalletLinesReadable(envText, ts, keypairs) ==>
      (RecipientsSet(ReloadedEnv(env, envText, ts, keypairs), ts)
       <==> forall i :: 0 <= i < |ts| ==> keypairs[i].publicKey != "")
    ensures (forall j :: 0 <= j < |ts| ==> OneLine(keypairs[j].publicKey))
            && RecipientsSet(ReloadedEnv(env, envText, ts, keypairs), ts) ==>
      forall i :: 0 <= i < |ts| && (i > 0 || EndsLine(RemoveAllEntries(envText, WalletKeysOf(ts)))) ==>
        RecipientAccounts(ata, mint, ReloadedEnv(env, envText, ts, keypairs), ts)[i] == ata(mint, keypairs[i].publicKey)
  {
    var keys := WalletKeysOf(ts);
    var pks := PublicKeysOf(keypairs);
    var cleaned := RemoveAllEntries(envText, keys);
    var env2 := ReloadedEnv(env, envText, ts, keypairs);
    if forall j :: 0 <= j < |ts| ==> OneLine(keypairs[j].publicKey) {
      assert forall j :: 0 <= j < |keys| ==> IsEnvKey(keys[j]) && OneLine(pks[j]);
      FreshWalletsAfterOverride(env, cleaned, keys, pks);
      forall i | 0 <= i < |ts| && (i > 0 || EndsLine(cleaned))
        ensures ts[i].walletKey in env2 && env2[ts[i].walletKey] == keypairs[i].publicKey
      {
        assert ts[i].walletKey == keys[i] && pks[i] == keypairs[i].publicKey;
      }
    }
  }

  /**
   * With distinct recipients and a derivation that never collides, each
   * target's token account holds exactly its scaled allocation after the run.
   */
  lemma EachTargetGetsItsAllocation(ata: (Address, Address) -> Address, mint: Address, env: Env, ts: seq<Target>, decimals: nat)
    requires Injective(ata) && RecipientsSet(env, ts) && Distinct(Recipients(env, ts))
    ensures forall i :: 0 <= i < |ts| ==>
      BalanceIn(Credit(map[], RecipientAccounts(ata, mint, env, ts), ScaledAmounts(ts, decimals)),
                RecipientAccounts(ata, mint, env, ts)[i])
      == ScaledAmount(ts[i].amount, decimals)
  {
    DistinctRecipientsDistinctAccounts(ata, mint, env, ts);
    CreditDistinct(map[], RecipientAccounts(ata, mint, env, ts), ScaledAmounts(ts, decimals));
  }

  /**
   * `deployAndDistribute` over the targets `ts` and the mint decimals of
   * the token configuration: validate the environment, create the wallets
   * (devnet), reload, create the mint with `authority` as mint authority,
   * record the deployment and `TOKEN_MINT`, distribute, and revoke the mint
   * authority. The mint address, the keypairs, the clock and the address
   * derivation are parameters.
   */
  method DeployAndDistribute(env: Env, envText: string, ts: seq<Target>, decimals: nat, keypairs: seq<Keypair>,
                             mintAddress: Address, authority: Address, ata: (Address, Address) -> Address,
                             deployedAt: string)
    returns (r: Result<Deployment, DeployError>, ledger: TokenLedger?, text: string, files: seq<WalletFile>,
             saved: Option<DeploymentRecord>)
    requires |keypairs| == |ts| && WellFormedTargets(ts, decimals)
    ensures r.Err? ==> r.error.ConfigurationError? || r.error.AddressResolutionError?
    ensures (r.Err? && r.error.ConfigurationError?) <==>
            !forall i :: 0 <= i < |RequiredEnvVars| ==> IsSet(env, RequiredEnvVars[i])
    ensures r.Err? && r.error.ConfigurationError? ==>
      && ledger == null && text == envText && files == []
      && exists i :: 0 <= i < |RequiredEnvVars| && r.error.variable == RequiredEnvVars[i]
                     && !IsSet(env, RequiredEnvVars[i]) && forall j :: 0 <= j < i ==> IsSet(env, RequiredEnvVars[j])
    ensures r.Ok? <==>
      (forall i :: 0 <= i < |RequiredEnvVars| ==> IsSet(env, RequiredEnvVars[i])) && RecipientsSet(ReloadedEnv(env, envText, ts, keypairs), ts)
    ensures ledger != null ==>
      fresh(ledger) && ledger.Valid() && ledger.mint == mintAddress && ledger.decimals == decimals && ledger.ata == ata
    ensures r.Ok? ==> ledger != null && ledger.mintAuthority.None? && ledger.supply == Sum(ScaledAmounts(ts, decimals))
    ensures saved.Some? <==> forall i :: 0 <= i < |RequiredEnvVars| ==> IsSet(env, RequiredEnvVars[i])
    ensures saved.Some? ==> saved.value == MakeDeploymentRecord(env, mintAddress, authority, deployedAt)
    ensures r.Ok? ==> saved.Some? && r.value.record == saved.value
    ensures r.Ok? ==> r.value.tokenAccounts == RecipientAccounts(ata, mintAddress, ReloadedEnv(env, envText, ts, keypairs), ts)
    ensures r.Ok? ==> ledger != null && ledger.balances == Credit(map[], r.value.tokenAccounts, ScaledAmounts(ts, decimals))
    ensures r.Ok? ==>
      text == UpsertAll(Upsert(WalletText(env, envText, ts, keypairs), "TOKEN_MINT", mintAddress),
                        TokenAccountKeysOf(ts), r.value.tokenAccounts)
    ensures r.Ok? ==> |r.value.wallets| == |files| == (if IsDevnet(env) then |ts| else 0)
    ensures saved.Some? ==> |files| == (if IsDevnet(env) then |ts| else 0)
    ensures saved.Some? && IsDevnet(env) ==> forall i :: 0 <= i < |ts| ==>
      files[i] == WalletFile(WalletPath(ts[i].name), keypairs[i].secretKey)
    ensures r.Ok? && IsDevnet(env) ==> forall i :: 0 <= i < |ts| ==>
      r.value.wallets[i] == WalletInfo(ts[i].name, keypairs[i].publicKey, WalletPath(ts[i].name), ts[i].amount)
    ensures r.Ok? && IsDevnet(env) && (forall j :: 0 <= j < |ts| ==> OneLine(keypairs[j].publicKey)) ==>
      forall i :: 0 <= i < |ts| && (i > 0 || EndsLine(RemoveAllEntries(envText, WalletKeysOf(ts)))) ==>
        r.value.tokenAccounts[i] == ata(mintAddress, keypairs[i].publicKey)
  {
    ledger := null;
    text, files, saved := envText, [], None;
    var valid := ValidateEnvironment(env);
    if valid.Err? {
      r := Err(ConfigurationError(valid.error.name));
      return;
    }

    // Step 1: the distribution wallets, then the reload that makes them visible.
    var infos;
    text, files, infos := CreateDistributionWallets(env, envText, ts, keypairs);
    var env2 := ReloadedEnv(env, envText, ts, keypairs);

    // Steps 2 to 4: the mint, the deployment record, `TOKEN_MINT`, the distribution and the hard cap.
    var record := MakeDeploymentRecord(env2, mintAddress, authority, deployedAt);
    ReloadKeepsRecord(env, envText, ts, decimals, keypairs, mintAddress, authority, deployedAt);
    var accounts;
    accounts, ledger, text := MintAndDistribute(env2, text, ts, decimals, mintAddress, authority, ata);
    saved := Some(record);
    if accounts.Err? {
      r := Err(accounts.error);
      return;
    }
    if IsDevnet(env) {
      DevnetPaysFreshWallets(env, envText, ts, decimals, keypairs, ata, mintAddress);
    }
    r := Ok(Deployment(record, accounts.value, infos));
  }

  /**
   * Steps 2 to 4 of `deployAndDistribute`, on the reloaded environment: the
   * mint is created with `authority` as mint authority, `TOKEN_MINT` is
   * written, every target is minted its allocation, and the mint authority
   * is revoked. The deployment record is written between the first two.
   */
  method MintAndDistribute(env: Env, envText: string, ts: seq<Target>, decimals: nat, mintAddress: Address,
                           authority: Address, ata: (Address, Address) -> Address)
    returns (accounts: Result<seq<Address>, DeployError>, ledger: TokenLedger, text: string)
    requires Sum(ScaledAmounts(ts, decimals)) <= U64Max
    ensures fresh(ledger) && ledger.Valid() && ledger.mint == mintAddress && ledger.decimals == decimals && ledger.ata == ata
    ensures accounts.Ok? <==> RecipientsSet(env, ts)
    ensures accounts.Err? ==> accounts.error.AddressResolutionError?
    ensures accounts.Ok? ==>
      && ledger.mintAuthority.None?
      && ledger.supply == Sum(ScaledAmounts(ts, decimals))
      && accounts.value == RecipientAccounts(ata, mintAddress, env, ts)
      && ledger.balances == Credit(map[], accounts.value, ScaledAmounts(ts, decimals))
      && text == UpsertAll(Upsert(envText, "TOKEN_MINT", mintAddress), TokenAccountKeysOf(ts), accounts.value)
  {
    ledger := new TokenLedger.InitializeMint(mintAddress, decimals, authority, ata);
    text := Upsert(envText, "TOKEN_MINT", mintAddress);
    accounts, text := DistributeTokens(ledger, env, text, ts, decimals, authority);
    if accounts.Err? {
      return;
    }
    var capped := EnforceHardCap(ledger, authority);
    // `authority` minted every target, so its revocation and the re-read check succeed.
    assert capped.Ok?;
  }
}
