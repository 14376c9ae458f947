# MNEE amount helpers and deployment configuration, in Dafny

This project models the sequential logic of the AgentPay front end and its
deployment scripts and proves properties of it:

- **MNEE fixed-point amounts** (`src/lib/utils.ts`, `src/lib/contracts.ts`).
  MNEE is an ERC-20 token with 18 decimals, so an amount is an integer count
  of base units scaled by 10^18. `formatMNEE` prints such an integer as a
  decimal string, and `parseMNEE` reads a decimal string back. The repository
  has two copies of the pair. The `contracts.ts` `formatMNEE` always prints the
  point, so a whole amount comes out as `"1."`.
- **Display truncation** (`formatAddress`, `formatTxHash`): a prefix, `"..."`
  and a suffix of a hex string.
- **`.env` update after a deployment** (`scripts/update-env.js`). The script
  picks the chain id for the deployed network. It then rewrites every
  `KEY=value` line whose key is in the update table and whose value differs,
  and writes the file only when some line changed.
- **Hardhat network table** (`hardhat.config.js`). `cleanRpcUrl` strips an
  inline `#` comment and surrounding white space. The `networks` object always
  has the local `hardhat` chain (id 1337) and gains `mainnet` / `sepolia` only
  when their cleaned RPC url is not empty.

Files:

- `js_string.dfy` holds the `Wrappers` and `JsString` modules: the JavaScript
  string operations the code relies on. These are `split`/`join` on one
  character, `trim` over the ECMAScript white-space set, `slice` with negative
  indices, `startsWith`, `padStart` and `padEnd`.
- `decimal.dfy` (`Decimal`): `BigInt(digits)`, `n.toString()`, fixed-width
  digits and `replace(/0+$/, '')`.
- `utils.dfy` (`Utils`) and `contracts.dfy` (`Contracts`) model the two helper
  files.
- `update_env.dfy` (`EnvKeys`, `UpdateEnv`) models the script.
- `hardhat_config.dfy` (`HardhatConfig`) models the configuration.

How the source is modelled:

- Amounts are `nat`. JavaScript's `BigInt(10 ** 18)` is exact, because 10^18
  is a representable double, so `Utils.Scale` is exactly 10^18.
- The pure expressions of the helper files and `cleanRpcUrl` are functions.
- The update script's per-line callback is a method:
  - `UpdateEnv.RewriteLine` loops over the table and returns at the first
    replacing entry.
  - `UpdateEnv.RewriteLines` is the `map` over lines with the mutable `updated`
    flag.
  - Both are proved against the functions `FirstRewrite` / `RewrittenLines`,
    which the lemmas reason about.
- `HardhatConfig.BuildNetworks` is a method that starts from the `hardhat`
  entry and adds each remote network under the same guards as the source. The
  optional `mainnet` / `sepolia` properties are `Option` fields of a
  `Networks` record that the method reassigns.

## Model

| member | source | states |
|---|---|---|
| Utils.FractionDigits | src/lib/utils.ts:13-15 | the fraction text is 0 to 18 digits with no trailing '0'; it is empty exactly when the amount is a multiple of 10^18; read as the first digits after the point it gives back `value % 10^18` exactly |
| Utils.FormatMNEE | src/lib/utils.ts:9-17 | the text before any '.' is the decimal form of `value / 10^18`; a '.' appears iff the fraction is non-zero, and then there is exactly one '.' followed by 1 to 18 digits not ending in '0' |
| Utils.FractionText | src/lib/utils.ts:23 | the fraction text handed to BigInt is exactly 18 characters, or "0"; it is "0" exactly when the text has no '.' (no second part) |
| Utils.WholeText | src/lib/utils.ts:22 | `parts[0] \|\| '0'` is never empty and has no '.'; it is the text before the first '.', or "0" when that is empty; a '.'-free non-empty text is its own whole part |
| Utils.ParseMNEE | src/lib/utils.ts:20-25 | for digit-only parts, the result divided by 10^18 is the whole part (an empty whole part reads as 0), and the remainder is the fraction read as 18 digits, so the fraction never carries into the whole units |
| Utils.FractionTextOf | src/lib/utils.ts:21-23 | for "w.f" with at most 18 digits in f, the parts are [w, f], the whole text is w (or "0"), and the fraction text is f padded with zeros to 18 digits |
| Utils.ParseWithFraction | src/lib/utils.ts:21-24 | parseMNEE("w.f") = w·10^18 + f·10^(18-\|f\|) for digit strings w and f with \|f\| <= 18 |
| Utils.ZeroWholeText | src/lib/utils.ts:22 | `parts[0] \|\| '0'` has the same value as the whole part, also when that part is empty |
| Utils.ParseWithoutFraction | src/lib/utils.ts:21-24 | a missing fraction, as in "w" or "w.", contributes nothing: both parse to w·10^18 |
| Utils.ParseEmptyWhole | src/lib/utils.ts:22 | an empty whole part reads as 0: ".f" parses like "0.f" |
| Utils.ParseTruncates | src/lib/utils.ts:21-23 | anything after the 18th fraction digit (more digits, another '.', any text) does not change the result |
| Utils.FormatParseRoundTrip | src/lib/utils.ts:9-25 | for every amount x, formatMNEE(x) is parsable and parseMNEE(formatMNEE(x)) == x |
| Utils.ParseFormatRoundTrip | src/lib/utils.ts:9-25 | every canonical amount text (no leading zeros, fraction without trailing zeros) parses and formats back to itself |
| Utils.FormatParseWhole | src/lib/utils.ts:9-25 | a canonical whole number without a point parses and formats back unchanged |
| Utils.FormatParseFraction | src/lib/utils.ts:9-25 | canonical whole units, '.', and fraction text parse and format back unchanged |
| Utils.FormatWithFractionText | src/lib/utils.ts:12-16 | an amount whose remainder is f read after the point is printed as whole units, '.', f |
| Utils.FractionDigitsOfScaled | src/lib/utils.ts:13-15 | the printed fraction digits of such an amount are exactly f |
| Utils.FormatAddress | src/lib/utils.ts:28-31 | "" for ""; otherwise the first min(6,n) characters, "...", the last min(4,n) characters |
| Utils.FormatTxHash | src/lib/utils.ts:34-37 | "" for ""; otherwise the first min(10,n) characters, "...", the last min(8,n) characters |
| Contracts.FormatMNEE | src/lib/contracts.ts:19-25 | exactly one '.'; before it the decimal form of `value / 10^18`; after it at most 18 digits with no trailing '0', empty iff the fraction is zero; the text ends in '.' iff the amount is a multiple of 10^18 |
| Contracts.ParseMNEE | src/lib/contracts.ts:28-33 | the same division and remainder facts as the utils.ts parser |
| Contracts.ParsersAgree | src/lib/contracts.ts:28-33 | the two parseMNEE copies return the same value on every parsable input |
| Contracts.FormattersAgree | src/lib/contracts.ts:19-25 | this formatMNEE equals the utils.ts one plus a trailing "." when the fraction is zero, and equals it otherwise |
| Contracts.FormatParseRoundTrip | src/lib/contracts.ts:19-33 | parseMNEE(formatMNEE(x)) == x for every amount, including the "w." output of whole amounts |
| Contracts.WholeAmountsEndInPoint | src/lib/contracts.ts:24 | 10^18 prints as "1." and 0 prints as "0." |
| UpdateEnv.ChainIdFor | scripts/update-env.js:39 | the chain id is a canonical decimal numeral: 11155111 for "sepolia", 1 for "mainnet", 1337 for any other network |
| UpdateEnv.LocalChainIdMatchesHardhat | scripts/update-env.js:39 | every other network gets the chain id of the `hardhat` network in hardhat.config.js:13 |
| UpdateEnv.UpdatesFor | scripts/update-env.js:33-40 | six entries, with distinct keys that contain no '=' or line break, and the chain id as the last value |
| UpdateEnv.Setting | scripts/update-env.js:51 | the written line starts with `KEY=` and everything after that `=` is the value |
| UpdateEnv.CurrentValue | scripts/update-env.js:47 | the value read off a line is trimmed and has no '='; it is "" for a line without '='; otherwise it is the text between the first and second '=' with only white space cut off around it |
| UpdateEnv.Replaces | scripts/update-env.js:46-48 | when an '='-free key replaces a line, the name before the line's first '=' is that key; a line that already is `KEY=value` for a trimmed, '='-free value is never replaced |
| UpdateEnv.RewriteLine | scripts/update-env.js:44-56 | the loop with its early return yields the setting of the first entry whose key starts the line and whose current value differs, or the line itself; the flag is raised iff such an entry exists |
| UpdateEnv.RewriteLines | scripts/update-env.js:42-56 | same number of lines; each line is the rewritten line; `updated` is raised iff some line took the rewrite branch; with no rewrite the lines are the input lines |
| UpdateEnv.RewriteEnv | scripts/update-env.js:42-56 | the line count of the split text is kept; `updated` iff some line needs a rewrite; when nothing is rewritten, joining the lines gives back the original text |
| UpdateEnv.UpdateEnvFile | scripts/update-env.js:33-59 | a text is written iff some line needs a rewrite, and it is the rewritten lines joined by "\n" |
| UpdateEnv.FirstRewriteNone | scripts/update-env.js:45-55 | a line is returned unchanged exactly when no entry replaces it |
| UpdateEnv.RewriteIsFirstReplacingEntry | scripts/update-env.js:45-51 | a rewritten line is exactly `KEY=value` of the first entry that replaces it; no earlier entry replaces it |
| UpdateEnv.LineKept | scripts/update-env.js:45-55 | a line that no key starts, or whose current value already equals the value of each key that starts it, is kept |
| UpdateEnv.CurrentValueOfSetting | scripts/update-env.js:47 | the current value of a written `KEY=value` line is `value` when neither contains '=' and the value is trimmed |
| UpdateEnv.OtherKeyDoesNotMatch | scripts/update-env.js:46 | a `KEY=value` line does not start with `OTHER=` for a different '='-free key |
| UpdateEnv.RewrittenLineStable | scripts/update-env.js:45-51 | with a well-formed table, a rewritten line needs no further rewrite |
| UpdateEnv.RewriteIdempotent | scripts/update-env.js:42-56 | running the rewrite on its own output changes no line and raises no flag |
| UpdateEnv.UpdatesWellFormed | scripts/update-env.js:33-40 | with addresses free of '=', line breaks and surrounding white space, the update table is well formed (the chain id always is) |
| UpdateEnv.SecondRunWritesNothing | scripts/update-env.js:33-59 | for such addresses, running the script again on the file it wrote writes nothing |
| HardhatConfig.CleanRpcUrl | hardhat.config.js:5-8 | an unset or empty url gives ""; the result has no '#' and no surrounding white space; a url without '#' gives exactly its trimmed text (so such a url is dropped only when it is blank), and a trimmed one is returned unchanged |
| HardhatConfig.CleanRpcUrlIdempotent | hardhat.config.js:5-8 | cleaning a cleaned url changes nothing |
| HardhatConfig.CommentDropped | hardhat.config.js:7 | for a url without '#', cleaning `url#comment` gives the trimmed url, whatever the comment |
| HardhatConfig.TrimAroundComment | hardhat.config.js:7 | trimming `url#comment` trims only the front of the url and the end of the comment |
| HardhatConfig.Env | hardhat.config.js:18-27 | `process.env[name]` is set exactly when the name is in the environment, and then it is that entry's value |
| HardhatConfig.ConfiguredAccounts | hardhat.config.js:22-31 | the account list has at most one entry; it is empty exactly when PRIVATE_KEY is unset or empty, and otherwise it is [PRIVATE_KEY] |
| HardhatConfig.BuildNetworks | hardhat.config.js:11-40 | `hardhat` is the local chain 1337; `mainnet` / `sepolia` are present iff the cleaned RPC_URL / SEPOLIA_RPC_URL is non-empty; each present entry has that cleaned url (non-empty, no '#', trimmed) and the account list [PRIVATE_KEY] when PRIVATE_KEY is set and non-empty, [] otherwise |
| JsString.Split | src/lib/utils.ts:21 | `split` gives at least one piece, no piece contains the separator, and a text without the separator is one piece |
| JsString.JoinSplit | scripts/update-env.js:43-59 | joining the pieces of a split with the same separator gives back the text |
| JsString.SplitJoin | scripts/update-env.js:43-59 | splitting a join of separator-free pieces gives back the pieces |
| JsString.Join | scripts/update-env.js:59 | `join` of no pieces is ""; the text starts with the first piece, and with two or more pieces the separator follows it |
| JsString.Trim | hardhat.config.js:7 | `trim` leaves no white space at either end, keeps an already trimmed text, adds no character, and its result is a contiguous piece of the text with only white space before and after it |
| JsString.Slice | src/lib/utils.ts:30-36 | `slice(start, end)` is the piece of the text from the clamped, end-relative start index to the end index (empty when the end is not after the start); for 0 <= start <= end <= length it is `s[start..end]` |
| JsString.SliceFrom | src/lib/utils.ts:30-36 | `slice(k)` is the text from k on for 0 <= k <= length; for negative k it is the last min(-k, length) characters |
| JsString.StartsWith | scripts/update-env.js:46 | `startsWith` holds iff the prefix is no longer than the text and agrees with it character by character; then the text is the prefix followed by the rest |
| JsString.PadStart | src/lib/utils.ts:14 | `padStart` gives length max(n, \|s\|): the text at the end, preceded by nothing but copies of the pad character |
| JsString.PadEnd | src/lib/utils.ts:23 | `padEnd` gives length max(n, \|s\|): the text at the front, followed by nothing but copies of the pad character |
| Decimal.DigitsValue | src/lib/utils.ts:22-24 | `BigInt` of a w-digit string is below 10^w (the empty string reads as 0) |
| Decimal.DecimalString | src/lib/utils.ts:14-16 | `toString` prints a canonical digit string (no leading zero except "0"); it starts with '0' iff n is 0 and is one digit long iff n < 10 |
| Decimal.DecimalStringValue | src/lib/utils.ts:16 | BigInt(n.toString()) == n |
| Decimal.CanonicalRoundTrip | src/lib/utils.ts:16-22 | a canonical digit string is printed back exactly by toString |
| Decimal.PadDecimalString | src/lib/utils.ts:14 | `n.toString().padStart(w, '0')` is the w-digit form of n when n < 10^w |
| Decimal.TrimTrailingZeros | src/lib/utils.ts:15 | `replace(/0+$/, '')` removes exactly the trailing run of '0' |
| Decimal.TrimAppendedZeros | src/lib/utils.ts:15 | zeros appended to a text not ending in '0' are exactly what the replace removes |

## Left out

- The Solidity contracts: the treasury, payment rules, streams and escrow. The front end holds only their ABIs (`src/lib/abi.ts`) and call sites (`src/hooks/useContracts.ts`), not their Solidity source, so balances, milestones or vesting would be invention.
- `src/hooks/useContracts.ts`, the React components and pages, `src/lib/abi.ts`, `scripts/deploy.js` and `scripts/verify-deployment.js`. These are asynchronous wallet or network I/O, UI code with floating-point input checks, or static data.
- `scripts/generate-env-template.js`: template rendering with a timestamp and a file write. Its chain-id lookup (scripts/generate-env-template.js:14-21) sends an unknown network to "1", whereas `UpdateEnv.ChainIdFor` follows scripts/update-env.js:39, which sends it to "1337".
- `cn` in `src/lib/utils.ts`: a wrapper over foreign styling libraries.
- `CONTRACT_ADDRESSES` and `CHAIN_ID` in `src/lib/contracts.ts`: environment reads.
- The string overload of both `formatMNEE` copies (`BigInt(amount)` on a string argument): the model takes the integer directly.
- Negative amounts: amounts are unsigned 256-bit token balances, so `formatMNEE` is modelled on `nat` only. JavaScript's truncating bigint division would print a '-' inside the fraction for negatives.
- Utils.ParseMNEE: requires the two texts handed to `BigInt` to be plain digit strings. On other text `BigInt` either throws (letters, a sign after the first character, a sign alone) or accepts forms outside this model: surrounding white space, `0x`/`0o`/`0b` prefixes, and a leading '+' or '-'. A leading sign is accepted in either part. `parseMNEE("-1.5")` returns -5·10^17. In `parseMNEE("1.-5")` the fraction pads to `"-50000000000000000"`, so the result is 10^18 - 5·10^16 (0.95 tokens) where the text reads as something else. Such amounts, and the negative results, are not modelled.
- Contracts.ParseMNEE: the same digit-only precondition as Utils.ParseMNEE, for the same reason.
- String indices: Dafny `char`s are Unicode scalar values, while JavaScript indexes UTF-16 code units. For ASCII text, which covers addresses, hashes and amounts, the two agree.
- The file reads and write, `console` output and `process.exit` in `scripts/update-env.js`. The model takes the `.env` text as a parameter, so choosing between `.env` and `.env.template` is also left to the caller. `UpdateEnv.UpdateEnvFile` returns the text the script would write, or None.
- The deployment record's fields are modelled as strings. A missing field, which the script would print as `undefined`, is not modelled.
- UpdateEnv.RewriteIdempotent: the stability claim needs table values free of '=', line breaks and surrounding white space. A value with a newline would split into extra lines on the next run.
- The `console.warn` when SEPOLIA_RPC_URL is unset, `require("dotenv")` loading the environment, and the static `solidity`/`paths` settings of `hardhat.config.js`. The environment is a parameter `map<string, string>`.
