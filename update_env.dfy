/** The variable names scripts/update-env.js writes into `.env`. */
module EnvKeys {
  /** The keys of the `updates` object. */
  const AgentTreasuryKey := "NEXT_PUBLIC_AGENT_TREASURY_ADDRESS"
  const PaymentRulesKey := "NEXT_PUBLIC_PAYMENT_RULES_ADDRESS"
  const StreamingPaymentsKey := "NEXT_PUBLIC_STREAMING_PAYMENTS_ADDRESS"
  const EscrowContractKey := "NEXT_PUBLIC_ESCROW_CONTRACT_ADDRESS"
  const MneeKey := "NEXT_PUBLIC_MNEE_CONTRACT"
  const ChainIdKey := "NEXT_PUBLIC_CHAIN_ID"

  /** An environment variable name: no '=' and no line break. */
  predicate IsEnvName(key: string)
  {
    '=' !in key && '\n' !in key
  }

  // Each key of the `updates` object is a variable name.
  lemma AgentTreasuryKeyIsName()
    ensures IsEnvName(AgentTreasuryKey)
  {
  }

  lemma PaymentRulesKeyIsName()
    ensures IsEnvName(PaymentRulesKey)
  {
  }

  lemma StreamingPaymentsKeyIsName()
    ensures IsEnvName(StreamingPaymentsKey)
  {
  }

  lemma EscrowContractKeyIsName()
    ensures IsEnvName(EscrowContractKey)
  {
  }

  lemma MneeKeyIsName()
    ensures IsEnvName(MneeKey)
  {
  }

  lemma ChainIdKeyIsName()
    ensures IsEnvName(ChainIdKey)
  {
  }

  /** The keys have six different lengths, so no two are equal. */
  lemma UpdateKeyLengths()
    ensures |AgentTreasuryKey| == 34 && |PaymentRulesKey| == 33 && |StreamingPaymentsKey| == 38
    ensures |EscrowContractKey| == 35 && |MneeKey| == 25 && |ChainIdKey| == 20
  {
  }
}

/**
 * scripts/update-env.js: after a deployment, copy the deployed contract
 * addresses and the chain id into the `NEXT_PUBLIC_*` lines of the `.env` text.
 * The file reads and the final write are left to the caller: the model takes
 * the current `.env` text and the deployment record, and returns the text to
 * write, or None when the script reports that the file is already up to date.
 */
module UpdateEnv {
  import opened Wrappers
  import opened JsString
  import opened Decimal
  import HardhatConfig
  import opened EnvKeys

  /** The fields of deployed-addresses.json that the script reads. */
  datatype Deployment = Deployment(
    agentTreasury: string,
    paymentRules: string,
    streamingPayments: string,
    escrowContract: string,
    mnee: string,
    network: string)

  /** The chain id written for a network: sepolia and mainnet, otherwise the local chain. */
  function ChainIdFor(network: string): (id: string)
    ensures IsCanonical(id)
    ensures network == "sepolia" ==> DigitsValue(id) == 11155111
    ensures network == "mainnet" ==> DigitsValue(id) == 1
    ensures network != "sepolia" && network != "mainnet" ==> DigitsValue(id) == 1337
  {
    SepoliaChainIdLiteral();
    OtherChainIdLiterals();
    if network == "sepolia" then "11155111" else if network == "mainnet" then "1" else "1337"
  }

  /** The sepolia chain id literal is the canonical numeral of 11155111. */
  lemma SepoliaChainIdLiteral()
    ensures IsCanonical("11155111") && DigitsValue("11155111") == 11155111
  {
    assert "11155111"[..7] == "1115511" && "1115511"[..6] == "111551";
    assert "111551"[..5] == "11155" && "11155"[..4] == "1115" && "1115"[..3] == "111";
    assert "111"[..2] == "11" && "11"[..1] == "1" && "1"[..0] == "";
  }

  /** The mainnet and local chain id literals are the canonical numerals of 1 and 1337. */
  lemma OtherChainIdLiterals()
    ensures IsCanonical("1") && DigitsValue("1") == 1
    ensures IsCanonical("1337") && DigitsValue("1337") == 1337
  {
    assert "1"[..0] == "";
    assert "1337"[..3] == "133" && "133"[..2] == "13" && "13"[..1] == "1";
  }

  /** Any network other than sepolia or mainnet gets the chain id of the `hardhat` network. */
  lemma LocalChainIdMatchesHardhat(network: string)
    requires network != "sepolia" && network != "mainnet"
    ensures DigitsValue(ChainIdFor(network)) == HardhatConfig.HardhatChainId
    ensures ChainIdFor(network) == DecimalString(HardhatConfig.HardhatChainId)
  {
    CanonicalRoundTrip(ChainIdFor(network));
  }

  /** A key=value entry of the update table. */
  type Entry = (string, string)

  /** The `.env` line that sets an entry. */
  function Setting(entry: Entry): (line: string)
    ensures StartsWith(line, entry.0 + "=") && line[|entry.0| + 1..] == entry.1
  {
    entry.0 + "=" + entry.1
  }

  predicate KeysDistinct(table: seq<Entry>)
  {
    forall i, j :: 0 <= i < j < |table| ==> table[i].0 != table[j].0
  }

  /**
   * Tables whose rewrites are stable: distinct keys, no '=' or newline in a key
   * or a value, and no white space around a value.
   */
  predicate WellFormedTable(table: seq<Entry>)
  {
    && KeysDistinct(table)
    && (forall i :: 0 <= i < |table| ==> '=' !in table[i].0 && '\n' !in table[i].0)
    && (forall i :: 0 <= i < |table| ==> '=' !in table[i].1 && '\n' !in table[i].1)
    && (forall i :: 0 <= i < |table| ==> IsTrimmed(table[i].1))
  }

  /** The `updates` object: each key with the deployed value it takes, in insertion order. */
  function UpdatesFor(d: Deployment): (table: seq<Entry>)
    ensures |table| == 6
    ensures KeysDistinct(table)
    ensures forall i :: 0 <= i < |table| ==> IsEnvName(table[i].0)
    ensures table[5].1 == ChainIdFor(d.network)
  {
    AgentTreasuryKeyIsName();
    PaymentRulesKeyIsName();
    StreamingPaymentsKeyIsName();
    EscrowContractKeyIsName();
    MneeKeyIsName();
    ChainIdKeyIsName();
    UpdateKeyLengths();
    var table := [
      (AgentTreasuryKey, d.agentTreasury),
      (PaymentRulesKey, d.paymentRules),
      (StreamingPaymentsKey, d.streamingPayments),
      (EscrowContractKey, d.escrowContract),
      (MneeKey, d.mnee),
      (ChainIdKey, ChainIdFor(d.network))];
    assert forall i, j :: 0 <= i < j < 6 ==> |table[i].0| != |table[j].0|;
    table
  }

  /** `line.split("=")[1]?.trim() || ""`: the value the line currently sets. */
  function CurrentValue(line: string): (v: string)
    ensures IsTrimmed(v) && '=' !in v
    ensures '=' !in line ==> v == ""
    ensures |Split(line, '=')| > 1 ==> exists i :: SurroundedBySpace(Split(line, '=')[1], v, i)
  {
    var parts := Split(line, '=');
    if |parts| > 1 then Trim(parts[1]) else ""
  }

  /**
   * The entry's key starts the line and the line sets a different value. The
   * key read off such a line is the entry's key, and a line that already
   * sets the entry's value is never replaced.
   */
  predicate Replaces(line: string, entry: Entry)
    ensures Replaces(line, entry) && '=' !in entry.0 ==> Split(line, '=')[0] == entry.0
    ensures Replaces(line, entry) && '=' !in entry.0 && '=' !in entry.1 && IsTrimmed(entry.1) ==>
      line != Setting(entry)
  {
    ReadsKey(line, entry);
    StartsWith(line, entry.0 + "=") && CurrentValue(line) != entry.1
  }

  /** The facts `Replaces` states about the key and the value of a line. */
  lemma ReadsKey(line: string, entry: Entry)
    ensures StartsWith(line, entry.0 + "=") && '=' !in entry.0 ==> Split(line, '=')[0] == entry.0
    ensures '=' !in entry.0 && '=' !in entry.1 && IsTrimmed(entry.1) ==> CurrentValue(Setting(entry)) == entry.1
  {
    if StartsWith(line, entry.0 + "=") && '=' !in entry.0 {
      var rest := line[|entry.0| + 1..];
      assert line == entry.0 + "=" + rest;
      SplitAt(entry.0, rest, '=');
    }
    if '=' !in entry.0 && '=' !in entry.1 && IsTrimmed(entry.1) {
      CurrentValueOfSetting(entry.0, entry.1);
    }
  }

  /** The setting of the first entry that replaces the line, if any. */
  function FirstRewrite(line: string, table: seq<Entry>): Option<string>
  {
    if table == [] then None
    else if Replaces(line, table[0]) then Some(Setting(table[0]))
    else FirstRewrite(line, table[1..])
  }

  /** What the per-line callback returns. */
  function RewrittenLine(line: string, table: seq<Entry>): string
  {
    match FirstRewrite(line, table)
    case Some(setting) => setting
    case None => line
  }

  /** The callback applied to every line of the text. */
  function RewrittenLines(content: string, table: seq<Entry>): (lines: seq<string>)
    ensures |lines| == |Split(content, '\n')|
  {
    var source := Split(content, '\n');
    seq(|source|, i requires 0 <= i < |source| => RewrittenLine(source[i], table))
  }

  /** Some line takes the rewrite branch. */
  predicate NeedsUpdate(content: string, table: seq<Entry>)
  {
    var source := Split(content, '\n');
    exists i :: 0 <= i < |source| && FirstRewrite(source[i], table).Some?
  }

  // ---------------------------------------------------------------------------
  // The script
  // ---------------------------------------------------------------------------

  /** The callback of `lines.map`: try the entries in order, return at the first that replaces the line. */
  method RewriteLine(line: string, table: seq<Entry>) returns (result: string, rewritten: bool)
    ensures rewritten <==> FirstRewrite(line, table).Some?
    ensures result == RewrittenLine(line, table)
  {
    for i := 0 to |table|
      invariant FirstRewrite(line, table) == FirstRewrite(line, table[i..])
    {
      assert table[i..][1..] == table[i + 1..];
      var (key, value) := table[i];
      if StartsWith(line, key + "=") {
        var oldValue := CurrentValue(line);
        if oldValue != value {
          return key + "=" + value, true;
        }
      }
    }
    assert table[|table|..] == [];
    return line, false;
  }

  /** `lines.map(...)`: rewrite every line and raise `updated` when any line changed. */
  method RewriteLines(source: seq<string>, table: seq<Entry>) returns (lines: seq<string>, updated: bool)
    ensures |lines| == |source|
    ensures forall j :: 0 <= j < |source| ==> lines[j] == RewrittenLine(source[j], table)
    ensures updated <==> exists j :: 0 <= j < |source| && FirstRewrite(source[j], table).Some?
    ensures !updated ==> lines == source
  {
    updated := false;
    lines := [];
    for i := 0 to |source|
      invariant |lines| == i
      invariant forall j :: 0 <= j < i ==> lines[j] == RewrittenLine(source[j], table)
      invariant updated <==> exists j :: 0 <= j < i && FirstRewrite(source[j], table).Some?
      invariant !updated ==> lines == source[..i]
    {
      var line, rewritten := RewriteLine(source[i], table);
      if rewritten {
        updated := true;
      }
      var before := lines;
      lines := lines + [line];
      assert lines[i] == line;
      assert forall j :: 0 <= j < i ==> lines[j] == before[j];
    }
  }

  /** Split the text into lines and rewrite them; an unchanged text joins back to itself. */
  method RewriteEnv(content: string, table: seq<Entry>) returns (lines: seq<string>, updated: bool)
    ensures lines == RewrittenLines(content, table)
    ensures |lines| == |Split(content, '\n')|
    ensures updated <==> NeedsUpdate(content, table)
    ensures !updated ==> Join(lines, '\n') == content
  {
    var source := Split(content, '\n');
    lines, updated := RewriteLines(source, table);
    if !updated {
      JoinSplit(content, '\n');
    }
  }

  /** The whole script: the text written to `.env`, or None when nothing changed. */
  method UpdateEnvFile(envContent: string, deployment: Deployment) returns (written: Option<string>)
    ensures written.Some? <==> NeedsUpdate(envContent, UpdatesFor(deployment))
    ensures written.Some? ==>
      written.value == Join(RewrittenLines(envContent, UpdatesFor(deployment)), '\n')
  {
    var lines, updated := RewriteEnv(envContent, UpdatesFor(deployment));
    if updated {
      written := Some(Join(lines, '\n'));
    } else {
      written := None;
    }
  }

  // ---------------------------------------------------------------------------
  // Properties of the rewrite
  // ---------------------------------------------------------------------------

  /** The line is left alone exactly when no entry replaces it. */
  lemma {:induction false} FirstRewriteNone(line: string, table: seq<Entry>)
    ensures FirstRewrite(line, table).None? <==> forall i :: 0 <= i < |table| ==> !Replaces(line, table[i])
  {
    if table != [] {
      FirstRewriteNone(line, table[1..]);
      assert forall i :: 1 <= i < |table| ==> table[i] == table[1..][i - 1];
    }
  }

  /** A rewritten line is the setting of the first entry that replaces it. */
  lemma {:induction false} RewriteIsFirstReplacingEntry(line: string, table: seq<Entry>)
    requires FirstRewrite(line, table).Some?
    ensures exists i :: && 0 <= i < |table| && Replaces(line, table[i])
                        && FirstRewrite(line, table).value == Setting(table[i])
                        && (forall j :: 0 <= j < i ==> !Replaces(line, table[j]))
  {
    if !Replaces(line, table[0]) {
      RewriteIsFirstReplacingEntry(line, table[1..]);
      var i :| 0 <= i < |table[1..]| && Replaces(line, table[1..][i])
        && FirstRewrite(line, table[1..]).value == Setting(table[1..][i])
        && (forall j :: 0 <= j < i ==> !Replaces(line, table[1..][j]));
      assert table[i + 1] == table[1..][i];
      assert forall j :: 1 <= j < i + 1 ==> table[j] == table[1..][j - 1];
    } else {
      assert Replaces(line, table[0]);
    }
  }

  /**
   * A line is kept when every entry whose key starts it already has the line's
   * value; in particular a line that no key starts is kept.
   */
  lemma LineKept(line: string, table: seq<Entry>)
    requires forall i :: 0 <= i < |table| && StartsWith(line, table[i].0 + "=") ==>
      CurrentValue(line) == table[i].1
    ensures RewrittenLine(line, table) == line
  {
    FirstRewriteNone(line, table);
  }

  /** With no '=' in key or value, a setting's current value is its value. */
  lemma CurrentValueOfSetting(key: string, value: string)
    requires '=' !in key && '=' !in value && IsTrimmed(value)
    ensures CurrentValue(key + "=" + value) == value
  {
    SplitAt(key, value, '=');
  }

  /** A line that sets one key does not start with `other=` for a different key. */
  lemma OtherKeyDoesNotMatch(key: string, other: string, value: string)
    requires '=' !in key && '=' !in other && key != other
    ensures !StartsWith(key + "=" + value, other + "=")
  {
    var line, prefix := key + "=" + value, other + "=";
    if |other| < |key| {
      assert line[|other|] == key[|other|] != '=' == prefix[|other|];
    } else if |other| > |key| {
      assert prefix[|key|] == other[|key|] != '=' == line[|key|];
    } else {
      assert line[..|key|] == key;
      assert prefix[..|key|] == other;
    }
  }

  /** After one rewrite, the line needs no further rewrite. */
  lemma RewrittenLineStable(line: string, table: seq<Entry>)
    requires WellFormedTable(table)
    ensures FirstRewrite(RewrittenLine(line, table), table).None?
  {
    if FirstRewrite(line, table).Some? {
      RewriteIsFirstReplacingEntry(line, table);
      var i :| 0 <= i < |table| && Replaces(line, table[i])
        && FirstRewrite(line, table).value == Setting(table[i])
        && (forall j :: 0 <= j < i ==> !Replaces(line, table[j]));
      var (key, value) := table[i];
      var setting := Setting(table[i]);
      CurrentValueOfSetting(key, value);
      forall j | 0 <= j < |table|
        ensures !Replaces(setting, table[j])
      {
        if j != i {
          OtherKeyDoesNotMatch(key, table[j].0, value);
        }
      }
      FirstRewriteNone(setting, table);
    } else {
      FirstRewriteNone(line, table);
    }
  }

  /** Running the script a second time on its own output changes nothing. */
  lemma RewriteIdempotent(content: string, table: seq<Entry>)
    requires WellFormedTable(table)
    ensures var once := Join(RewrittenLines(content, table), '\n');
      && RewrittenLines(once, table) == RewrittenLines(content, table)
      && !NeedsUpdate(once, table)
  {
    var lines := RewrittenLines(content, table);
    var source := Split(content, '\n');
    forall i | 0 <= i < |lines|
      ensures '\n' !in lines[i]
      ensures FirstRewrite(lines[i], table).None?
    {
      RewrittenLineStable(source[i], table);
      if FirstRewrite(source[i], table).Some? {
        RewriteIsFirstReplacingEntry(source[i], table);
      }
    }
    SplitJoin(lines, '\n');
  }

  /** A deployed value that can be written as is: no '=', no line break, no surrounding white space. */
  predicate IsPlainValue(v: string)
  {
    '=' !in v && '\n' !in v && IsTrimmed(v)
  }

  /** With plain addresses the deployment table is well formed; the chain id always is. */
  lemma UpdatesWellFormed(d: Deployment)
    requires IsPlainValue(d.agentTreasury) && IsPlainValue(d.paymentRules)
    requires IsPlainValue(d.streamingPayments) && IsPlainValue(d.escrowContract) && IsPlainValue(d.mnee)
    ensures WellFormedTable(UpdatesFor(d))
  {
    var table := UpdatesFor(d);
    var id := ChainIdFor(d.network);
    DigitsExclude(id, '=');
    DigitsExclude(id, '\n');
    assert IsPlainValue(table[5].1);
    assert forall i :: 0 <= i < 6 ==> IsPlainValue(table[i].1);
  }

  /** For the deployment table with plain addresses, a second run writes nothing. */
  lemma SecondRunWritesNothing(envContent: string, d: Deployment)
    requires IsPlainValue(d.agentTreasury) && IsPlainValue(d.paymentRules)
    requires IsPlainValue(d.streamingPayments) && IsPlainValue(d.escrowContract) && IsPlainValue(d.mnee)
    ensures !NeedsUpdate(Join(RewrittenLines(envContent, UpdatesFor(d)), '\n'), UpdatesFor(d))
  {
    UpdatesWellFormed(d);
    RewriteIdempotent(envContent, UpdatesFor(d));
  }
}
