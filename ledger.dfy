/**
 * The on-chain effects the deployment relies on, as an abstract token ledger
 * for one mint: which token accounts exist, their balances, the supply and
 * the mint authority. The rules here are those of the token program that the
 * script calls into; the script itself does not implement them.
 */
module Ledger {
  import opened Wrappers

  /** A public key or account address in its base58 text form. */
  type Address = string

  /** Token amounts are unsigned 64-bit integers on the ledger. */
  const U64Max: nat := 0xFFFF_FFFF_FFFF_FFFF

  /** Associated-token-account derivation is a function of (mint, owner) that never collides. */
  ghost predicate Injective(ata: (Address, Address) -> Address)
  {
    forall m1, o1, m2, o2 :: ata(m1, o1) == ata(m2, o2) ==> m1 == m2 && o1 == o2
  }

  /** The total of the balances in `m`. */
  ghost function Total(m: map<Address, nat>): nat
    decreases |m|
  {
    if m == map[] then 0 else var a :| a in m; m[a] + Total(m - {a})
  }

  /** Any one account can be taken out of the total first. */
  lemma {:induction false} TotalRemove(m: map<Address, nat>, a: Address)
    requires a in m
    ensures Total(m) == m[a] + Total(m - {a})
    decreases |m|
  {
    var b :| b in m && Total(m) == m[b] + Total(m - {b});
    if b != a {
      TotalRemove(m - {b}, a);
      TotalRemove(m - {a}, b);
      assert m - {b} - {a} == m - {a} - {b};
    }
  }

  /** Crediting an existing account grows the total by the amount credited. */
  lemma TotalCredit(m: map<Address, nat>, a: Address, x: nat)
    requires a in m
    ensures Total(m[a := m[a] + x]) == Total(m) + x
  {
    TotalRemove(m, a);
    TotalRemove(m[a := m[a] + x], a);
    assert m[a := m[a] + x] - {a} == m - {a};
  }

  /** Opening an empty account leaves the total as it was. */
  lemma TotalOpen(m: map<Address, nat>, a: Address)
    requires a !in m
    ensures Total(m[a := 0]) == Total(m)
  {
    TotalRemove(m[a := 0], a);
    assert m[a := 0] - {a} == m;
  }

  /** No single balance exceeds the total. */
  lemma BalanceAtMostTotal(m: map<Address, nat>, a: Address)
    requires a in m
    ensures m[a] <= Total(m)
  {
    TotalRemove(m, a);
  }

  class TokenLedger {
    const mint: Address
    const decimals: nat
    /** `getAssociatedTokenAddress(mint, owner)`. */
    const ata: (Address, Address) -> Address
    /** The token accounts of this mint that exist. */
    var accounts: set<Address>
    var balances: map<Address, nat>
    var supply: nat
    var mintAuthority: Option<Address>

    /** The token program's invariant: the supply is the sum of the balances and fits in 64 bits. */
    ghost predicate Valid()
      reads this
    {
      && accounts == balances.Keys
      && supply == Total(balances)
      && supply <= U64Max
    }

    /**
     * The mint as created by the one atomic create-and-initialize
     * transaction: no accounts, no supply, `authority` may mint.
     */
    constructor InitializeMint(mint: Address, decimals: nat, authority: Address, ata: (Address, Address) -> Address)
      ensures Valid()
      ensures this.mint == mint && this.decimals == decimals && this.ata == ata
      ensures accounts == {} && balances == map[] && supply == 0
      ensures mintAuthority == Some(authority)
    {
      this.mint := mint;
      this.decimals := decimals;
      this.ata := ata;
      accounts := {};
      balances := map[];
      supply := 0;
      mintAuthority := Some(authority);
    }

    /** `getAccount`: succeeds exactly when the token account exists. */
    method AccountExists(a: Address) returns (b: bool)
      ensures b <==> a in accounts
    {
      b := a in accounts;
    }

    /** The associated-token-account creation; the program refuses an existing account. */
    method CreateAssociatedAccount(owner: Address) returns (ok: bool)
      requires Valid()
      modifies this
      ensures Valid()
      ensures ok <==> ata(mint, owner) !in old(accounts)
      ensures ok ==> accounts == old(accounts) + {ata(mint, owner)}
                     && balances == old(balances)[ata(mint, owner) := 0]
      ensures !ok ==> accounts == old(accounts) && balances == old(balances)
      ensures supply == old(supply) && mintAuthority == old(mintAuthority)
    {
      var a := ata(mint, owner);
      ok := a !in accounts;
      if ok {
        TotalOpen(balances, a);
        accounts := accounts + {a};
        balances := balances[a := 0];
      }
    }

    /**
     * `mintToChecked`: only the current mint authority may mint, only into an
     * existing account, with the mint's own decimals, and never past the
     * 64-bit supply limit. A rejected mint changes nothing.
     */
    method MintTo(account: Address, amount: nat, expectedDecimals: nat, authority: Address) returns (ok: bool)
      requires Valid()
      modifies this
      ensures Valid()
      ensures ok <==> old(mintAuthority) == Some(authority) && account in old(accounts)
                      && expectedDecimals == decimals && old(supply) + amount <= U64Max
      ensures ok ==> supply == old(supply) + amount
                     && balances == old(balances)[account := old(balances)[account] + amount]
      ensures !ok ==> supply == old(supply) && balances == old(balances)
      ensures old(mintAuthority).None? ==> !ok
      ensures accounts == old(accounts) && mintAuthority == old(mintAuthority)
    {
      ok := mintAuthority == Some(authority) && account in accounts
            && expectedDecimals == decimals && supply + amount <= U64Max;
      if ok {
        TotalCredit(balances, account, amount);
        balances := balances[account := balances[account] + amount];
        supply := supply + amount;
      }
    }

    /**
     * `setAuthority(MintTokens)`, signed by `current`: takes effect only when
     * `current` is the mint authority, so a revoked authority stays revoked.
     */
    method SetMintAuthority(current: Address, newAuthority: Option<Address>) returns (ok: bool)
      requires Valid()
      modifies this
      ensures Valid()
      ensures ok <==> old(mintAuthority) == Some(current)
      ensures mintAuthority == if ok then newAuthority else old(mintAuthority)
      ensures old(mintAuthority).None? ==> mintAuthority.None?
      ensures accounts == old(accounts) && balances == old(balances) && supply == old(supply)
    {
      ok := mintAuthority == Some(current);
      if ok {
        mintAuthority := newAuthority;
      }
    }
  }
}
