/**
 * The pre-flight environment check and the RPC endpoint choice. The process
 * environment is a map from variable names to string values; JavaScript's
 * `!process.env[k]` holds when the variable is absent or empty.
 */
module Utils {
  import opened Wrappers

  type Env = map<string, string>

  /** `process.env[k]` is truthy: present and non-empty. */
  predicate IsSet(env: Env, k: string)
  {
    k in env && env[k] != ""
  }

  /** The variables that must be set before anything else runs, in check order. */
  const RequiredEnvVars: seq<string> := [
    "SOLANA_NETWORK",
    "RPC_URL",
    "KEYPAIR_PATH",
    "MINT_AUTHORITY_PATH",
    "TOKEN_NAME",
    "TOKEN_SYMBOL",
    "TOKEN_DECIMALS"
  ]

  const DefaultRpcUrl: string := "https://api.devnet.solana.com"

  /** The error thrown for the first missing variable. */
  datatype ConfigurationError = MissingVariable(name: string)

  /** The first key of `keys`, in order, that is not set in `env`. */
  function FirstMissing(env: Env, keys: seq<string>): (r: Option<string>)
    ensures r.None? <==> forall i :: 0 <= i < |keys| ==> IsSet(env, keys[i])
    ensures r.Some? ==> exists i :: 0 <= i < |keys| && keys[i] == r.value && !IsSet(env, keys[i])
                          && forall j :: 0 <= j < i ==> IsSet(env, keys[j])
  {
    if keys == [] then None
    else if !IsSet(env, keys[0]) then Some(keys[0])
    else
      var rest := FirstMissing(env, keys[1..]);
      assert rest.Some? ==> exists i :: 1 <= i < |keys| && keys[i] == rest.value && !IsSet(env, keys[i])
                              && forall j :: 0 <= j < i ==> IsSet(env, keys[j]) by {
        if rest.Some? {
          var i :| 0 <= i < |keys| - 1 && keys[1..][i] == rest.value && !IsSet(env, keys[1..][i])
                   && forall j :: 0 <= j < i ==> IsSet(env, keys[1..][j]);
          assert keys[i + 1] == rest.value;
          assert forall j :: 0 <= j < i + 1 ==> IsSet(env, keys[j]) by {
            forall j | 0 <= j < i + 1 ensures IsSet(env, keys[j]) {
              if j > 0 { assert keys[j] == keys[1..][j - 1]; }
            }
          }
        }
      }
      rest
  }

  /**
   * `validateEnvironment`: walks the required variables in order and fails on
   * the first one that is absent or empty. It only reads the environment.
   */
  method ValidateEnvironment(env: Env) returns (r: Result<(), ConfigurationError>)
    ensures r.Ok? <==> forall i :: 0 <= i < |RequiredEnvVars| ==> IsSet(env, RequiredEnvVars[i])
    ensures r.Err? ==> exists i :: 0 <= i < |RequiredEnvVars| && r.error == MissingVariable(RequiredEnvVars[i])
                          && !IsSet(env, RequiredEnvVars[i])
                          && forall j :: 0 <= j < i ==> IsSet(env, RequiredEnvVars[j])
  {
    var required := RequiredEnvVars;
    for i := 0 to |required|
      invariant forall j :: 0 <= j < i ==> IsSet(env, required[j])
    {
      if !IsSet(env, required[i]) {
        return Err(MissingVariable(required[i]));
      }
    }
    return Ok(());
  }

  /** The endpoint `getConnection` connects to: `RPC_URL || default`. */
  function RpcEndpoint(env: Env): (r: string)
    ensures r != ""
    ensures IsSet(env, "RPC_URL") ==> r == env["RPC_URL"]
    ensures !IsSet(env, "RPC_URL") ==> r == DefaultRpcUrl
  {
    if IsSet(env, "RPC_URL") then env["RPC_URL"] else DefaultRpcUrl
  }

  /** Variables outside the required list never change which key is reported. */
  lemma {:induction false} FirstMissingIgnoresOtherKeys(env1: Env, env2: Env, keys: seq<string>)
    requires forall i :: 0 <= i < |keys| ==> (IsSet(env1, keys[i]) <==> IsSet(env2, keys[i]))
    ensures FirstMissing(env1, keys) == FirstMissing(env2, keys)
  {
    if keys != [] {
      FirstMissingIgnoresOtherKeys(env1, env2, keys[1..]);
    }
  }

  /** Adding or changing a variable outside the list does not affect validation. */
  lemma UnrelatedUpdateKeepsValidation(env: Env, k: string, v: string)
    requires k !in RequiredEnvVars
    ensures FirstMissing(env[k := v], RequiredEnvVars) == FirstMissing(env, RequiredEnvVars)
  {
    FirstMissingIgnoresOtherKeys(env[k := v], env, RequiredEnvVars);
  }

  /** After a successful validation the endpoint default is never used. */
  lemma ValidatedEnvUsesConfiguredEndpoint(env: Env)
    requires FirstMissing(env, RequiredEnvVars).None?
    ensures "RPC_URL" in env && RpcEndpoint(env) == env["RPC_URL"]
  {
    assert RequiredEnvVars[1] == "RPC_URL";
  }

  /** An empty value is reported exactly like an absent one, and the earliest key wins. */
  lemma EarliestMissingWins(env: Env)
    requires !IsSet(env, "SOLANA_NETWORK")
    ensures FirstMissing(env, RequiredEnvVars) == Some("SOLANA_NETWORK")
  {
  }
}
