/**
 * The static token configuration (`TOKEN_CONFIG`): fixed decimals, a fixed
 * total supply split into nine named allocations, and display strings that
 * depend on whether the process runs against devnet.
 */
module Config {

  /** The nine allocations, in the order the configuration object lists them. */
  datatype Distribution = Distribution(
    development: nat,
    marketing: nat,
    staking: nat,
    publicSale: nat,
    community: nat,
    liquidity: nat,
    ecosystem: nat,
    team: nat,
    partnerships: nat)

  datatype Metadata = Metadata(description: string, image: string, externalUrl: string)

  datatype TokenConfig = TokenConfig(
    name: string,
    symbol: string,
    decimals: nat,
    totalSupply: nat,
    distribution: Distribution,
    metadata: Metadata)

  /** The configuration object; `isDevnet` is `SOLANA_NETWORK == 'devnet'`. */
  function TokenConfigFor(isDevnet: bool): TokenConfig
  {
    TokenConfig(
      if isDevnet then "Mock" else "Solaverse",
      if isDevnet then "tMock" else "SOLA",
      9,
      2_900_000_000,
      Distribution(
        522_000_000,
        435_000_000,
        435_000_000,
        435_000_000,
        290_000_000,
        290_000_000,
        290_000_000,
        145_000_000,
        58_000_000),
      Metadata(
        if isDevnet then "Test token for community development and testing purposes only"
        else "Pioneer The Metaverse Revolution On Solana",
        if isDevnet then "https://test-assets.community.xyz/test-logo.png"
        else "https://solaverse.ai/logo.png",
        if isDevnet then "https://test.community.xyz" else "https://solaverse.ai"))
  }

  /** The allocation amounts in declaration order (the order of `Object.values`). */
  function Amounts(d: Distribution): (r: seq<nat>)
    ensures |r| == 9
  {
    [d.development, d.marketing, d.staking, d.publicSale, d.community,
     d.liquidity, d.ecosystem, d.team, d.partnerships]
  }

  /** The documented share of each allocation, in percent, in the same order. */
  const Percentages: seq<nat> := [18, 15, 15, 15, 10, 10, 10, 5, 2]

  function Sum(xs: seq<nat>): nat
  {
    if xs == [] then 0 else xs[0] + Sum(xs[1..])
  }

  function Pow10(n: nat): (r: nat)
    ensures r >= 1
  {
    if n == 0 then 1 else 10 * Pow10(n - 1)
  }

  /** The allocations add up exactly to the configured total supply, in both modes. */
  lemma DistributionSumsToTotal(isDevnet: bool)
    ensures Sum(Amounts(TokenConfigFor(isDevnet).distribution)) == TokenConfigFor(isDevnet).totalSupply
    ensures TokenConfigFor(isDevnet).totalSupply == 2_900_000_000
  {
  }

  /** Every allocation is an exact integer percentage of the total supply. */
  lemma ExactPercentages(isDevnet: bool, i: nat)
    requires i < 9
    ensures Amounts(TokenConfigFor(isDevnet).distribution)[i] * 100
            == Percentages[i] * TokenConfigFor(isDevnet).totalSupply
  {
  }

  /** The percentages themselves add up to one hundred. */
  lemma PercentagesSumToHundred()
    ensures |Percentages| == 9 && Sum(Percentages) == 100
  {
  }

  /**
   * The devnet flag only selects display strings: decimals, supply and the
   * allocation table are the same in both modes, while name and symbol differ.
   */
  lemma DevnetOnlyChangesStrings()
    ensures TokenConfigFor(true).decimals == TokenConfigFor(false).decimals
    ensures TokenConfigFor(true).totalSupply == TokenConfigFor(false).totalSupply
    ensures TokenConfigFor(true).distribution == TokenConfigFor(false).distribution
    ensures TokenConfigFor(true).name == "Mock" && TokenConfigFor(false).name == "Solaverse"
    ensures TokenConfigFor(true).symbol == "tMock" && TokenConfigFor(false).symbol == "SOLA"
  {
  }

  /** Nine decimals; the expected supply in base units is 2.9 * 10^18 exactly. */
  lemma ExpectedMintSupply(isDevnet: bool)
    ensures TokenConfigFor(isDevnet).decimals == 9
    ensures TokenConfigFor(isDevnet).totalSupply * Pow10(TokenConfigFor(isDevnet).decimals)
            == 2_900_000_000_000_000_000
  {
  }
}
