/**
 * hardhat.config.js: the `networks` table of the deployment configuration.
 * The local `hardhat` chain is always there; `mainnet` and `sepolia` are added
 * only when their RPC url, with any inline `#` comment and surrounding white
 * space removed, is not empty. The environment is a parameter (a map from
 * variable name to value); loading it from `.env` is left out.
 */
module HardhatConfig {
  import opened Wrappers
  import opened JsString

  /** The chain id of the local `hardhat` network. */
  const HardhatChainId: nat := 1337

  /** cleanRpcUrl: an unset or empty url gives "", otherwise the trimmed text before any '#'. */
  function CleanRpcUrl(url: Option<string>): (r: string)
    ensures url.None? || url == Some("") ==> r == ""
    ensures '#' !in r
    ensures IsTrimmed(r)
    ensures url.Some? && '#' !in url.value && IsTrimmed(url.value) ==> r == url.value
    ensures url.Some? && '#' !in url.value ==> r == Trim(url.value)
  {
    if url.None? || url.value == "" then ""
    else
      var front := Trim(url.value);
      assert '#' !in url.value ==> '#' !in front && Split(front, '#') == [front];
      Trim(Split(front, '#')[0])
  }

  /** Cleaning a cleaned url changes nothing. */
  lemma CleanRpcUrlIdempotent(url: Option<string>)
    ensures CleanRpcUrl(Some(CleanRpcUrl(url))) == CleanRpcUrl(url)
  {
  }

  /** The text after an inline '#' never reaches the configured url. */
  lemma CommentDropped(url: string, comment: string)
    requires '#' !in url
    ensures CleanRpcUrl(Some(url + "#" + comment)) == Trim(url)
  {
    var text, front := url + "#" + comment, TrimStart(url);
    assert Trim(text) == front + "#" + TrimEnd(comment) by {
      TrimAroundComment(url, comment);
    }
    CleanAtFirstHash(text, front, TrimEnd(comment));
    assert Trim(front) == Trim(url) by {
      TrimStartIdempotent(url);
    }
  }

  /** When the trimmed url is `front#tail` with no '#' in front, cleaning keeps the trimmed front. */
  lemma CleanAtFirstHash(text: string, front: string, tail: string)
    requires Trim(text) == front + "#" + tail && '#' !in front
    ensures CleanRpcUrl(Some(text)) == Trim(front)
  {
    SplitAt(front, tail, '#');
  }

  /** Trimming `url#comment` trims the front of the url and the end of the comment. */
  lemma TrimAroundComment(url: string, comment: string)
    ensures Trim(url + "#" + comment) == TrimStart(url) + "#" + TrimEnd(comment)
  {
    var s, tail := url + "#" + comment, "#" + comment;
    assert s == url + tail;
    TrimStartPrefix(url, tail);
    var front := TrimStart(url) + "#";
    AppendAssoc(TrimStart(url), "#", comment);
    TrimEndSuffix(front, comment);
    assert Trim(s) == TrimEnd(front + comment);
  }

  /** An entry of the `networks` object. */
  datatype NetworkConfig =
    | Local(chainId: nat)
    | Remote(url: string, accounts: seq<string>)

  /** `process.env[name]`. */
  function Env(env: map<string, string>, name: string): (v: Option<string>)
    ensures v.Some? <==> name in env
    ensures v.Some? ==> v.value == env[name]
  {
    if name in env then Some(env[name]) else None
  }

  /** `process.env.PRIVATE_KEY ? [process.env.PRIVATE_KEY] : []`. */
  function ConfiguredAccounts(env: map<string, string>): (accounts: seq<string>)
    ensures |accounts| <= 1
    ensures accounts == [] <==> Env(env, "PRIVATE_KEY") == None || Env(env, "PRIVATE_KEY") == Some("")
    ensures accounts != [] ==> accounts == [Env(env, "PRIVATE_KEY").value]
  {
    if "PRIVATE_KEY" in env && env["PRIVATE_KEY"] != "" then [env["PRIVATE_KEY"]] else []
  }

  /**
   * A remote network entry as the configuration writes it: a non-empty url
   * with no comment and no surrounding white space, and the private key as its
   * only account when PRIVATE_KEY is set and not empty, no account otherwise.
   */
  predicate WellConfigured(cfg: NetworkConfig, env: map<string, string>)
  {
    && cfg.Remote?
    && cfg.url != ""
    && '#' !in cfg.url
    && IsTrimmed(cfg.url)
    && (cfg.accounts == [] <==> "PRIVATE_KEY" !in env || env["PRIVATE_KEY"] == "")
    && (cfg.accounts != [] ==> cfg.accounts == [env["PRIVATE_KEY"]])
  }

  /**
   * The `networks` object: `hardhat` is always present, `mainnet` and `sepolia`
   * are properties the configuration adds or leaves absent.
   */
  datatype Networks = Networks(hardhat: NetworkConfig, mainnet: Option<NetworkConfig>, sepolia: Option<NetworkConfig>)

  /** Builds `networks` the way the configuration does: start from hardhat, add each remote whose url is set. */
  method BuildNetworks(env: map<string, string>) returns (networks: Networks)
    ensures networks.hardhat == Local(HardhatChainId)
    ensures networks.mainnet.Some? <==> CleanRpcUrl(Env(env, "RPC_URL")) != ""
    ensures networks.sepolia.Some? <==> CleanRpcUrl(Env(env, "SEPOLIA_RPC_URL")) != ""
    ensures networks.mainnet.Some? ==>
      WellConfigured(networks.mainnet.value, env) && networks.mainnet.value.url == CleanRpcUrl(Env(env, "RPC_URL"))
    ensures networks.sepolia.Some? ==>
      WellConfigured(networks.sepolia.value, env) && networks.sepolia.value.url == CleanRpcUrl(Env(env, "SEPOLIA_RPC_URL"))
  {
    networks := Networks(Local(HardhatChainId), None, None);

    var mainnetUrl := CleanRpcUrl(Env(env, "RPC_URL"));
    if mainnetUrl != "" {
      networks := networks.(mainnet := Some(Remote(mainnetUrl, ConfiguredAccounts(env))));
    }

    var sepoliaUrl := CleanRpcUrl(Env(env, "SEPOLIA_RPC_URL"));
    if sepoliaUrl != "" {
      networks := networks.(sepolia := Some(Remote(sepoliaUrl, ConfiguredAccounts(env))));
    }
  }
}
