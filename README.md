# Account identity codec and network compatibility, modelled in Dafny

This project models the account-identity layer of a multi-chain wallet.
This layer builds and parses the string ids under which wallets and accounts are stored:

- HD wallet ids such as `hd-1`;
- hardware wallet ids such as `hw-<deviceId>`;
- indexed-account ids such as `hd-1--0`;
- HD account ids such as `hd-1--m/44'/607'/0'/0'/0'/0'--V4R2`.

It also holds two network rules. One decides whether an account may operate on a network. The other picks a fallback network for an account.
The project also models the frozen vault-settings record of the TON implementation, because its derive info is what the HD account-id builder consumes for TON accounts.

Files:

- `Wrappers.dfy`: `Option` and `Result`.
- `Strings.dfy`: string operations stated on `seq<char>`.
  - The JavaScript operations the source calls:
    - `replace` with a string pattern, which replaces the first occurrence only; the replacement is taken literally;
    - `split` and `join`;
    - `startsWith`;
    - integer `toString`;
    - `Number(...)` on decimal integer text.
  - What the model adds:
    - `IndexOf`, the first-occurrence search behind `replace` and `split`;
    - `LastIndexOf`, used only by the corrected parse `ParseIndexedAccountIdAtLast`;
    - `EndsWith`, which stands for the anchored regular expression `/\/0\/0$/i` of the UTXO rule.
- `Consts.dfy`: the separator, the index placeholder, the TON coin type and implementation tag, and the wallet-type tags.
- `AccountUtils.dfy`: the 15 exported functions of `accountUtils.ts`.
  - The single-expression functions are Dafny functions.
  - `buildHDAccountId` and `getAccountCompatibleNetwork` reassign locals step by step. Each is a method proved equal to a specification function (`HDAccountId`, `ResolvedNetwork`), and the lemmas are stated about that function.
  - `isAccountCompatibleWithNetwork` walks the whitelist in a loop with early return. It is a method with a loop invariant, proved against the predicate `IsCompatible`.
- `TonSettings.dfy`: the TON derive-info map and the settings record, as constant datatype values. It also proves what TON HD account ids look like.

Modelling conventions:

- An optional string argument is `""` when absent. The source only tests these arguments for truthiness, and `undefined` and `""` behave the same there.
- An absent list is `[]`, and an absent flag is `false`.
- `isNil(index)` becomes `index.None?`.
- Every `throw` becomes a `Failure` carrying one constructor of `AccountUtilsError`.
- `networkUtils.getNetworkImpl` and `uriUtils.getOriginFromUrl` are function parameters and stay uninterpreted.

Where the code and the design description disagree, the model follows the code:

- `getWalletIdFromAccountId` returns the whole id when there is no separator, not `""`.
- `parseIndexedAccountId` splits at every separator and never fails. A non-numeric tail gives `NaN`, modelled as `None`.
- Rendering a template performs no check. A template without the placeholder is returned unchanged, and a negative index is rendered with its minus sign.
- The UTXO rule removes a trailing `/0/0` from the whole id after the suffix is appended, not from the path alone.
- The separator is the two-character string `--`.

The values of the imported constants are not part of this model's source. The values used are:

- `SEPERATOR`: `--`;
- `INDEX_PLACEHOLDER`: `$$INDEX$$`;
- wallet types: `hd`, `hw`, `imported`, `watching`, `external`;
- `COINTYPE_TON`: `607`;
- `IMPL_TON`: `ton`;
- `EAddressEncodings.V4R2`: `V4R2`.

The proofs depend on these facts about the values:

- the separator is `--`;
- the placeholder starts and ends with `$`, a character that no decimal number and no TON path contains;
- the `hd` and `hw` tags both begin with `h`, have two characters and differ in the second, so no id starts with both `hd-` and `hw-` (`WalletKindsDisjoint`, `PrefixedIdsStartWithH`);
- the `watching`, `external` and `imported` tags do not begin with `h`, so none of them is an HD or hardware wallet id (the contract of `IsOthersWallet`);
- the `hd` tag holds no `-`, so `hd-<n>` is plain for every `n >= 0` (`HdWalletIdIsPlain`);
- the TON id suffix `V4R2` is non-empty, so TON HD account ids carry it (`TonHDAccountId`).

A wallet id is *plain* (`PlainBefore(w, '-')`) when it holds no `--` and does not end with `-`. The round-trip laws need this condition. `hd-<n>` ids satisfy it for every `n >= 0` (`HdWalletIdIsPlain`).

## Model

| member | source | states |
|---|---|---|
| `Strings.Split` | packages/shared/src/utils/accountUtils.ts:120 | `split` with a non-empty separator gives at least one piece. No piece contains the separator, and joining the pieces with the separator gives back the input. Every cut is at the leftmost occurrence still ahead: no piece but the last, followed by all but the last character of the separator, contains the separator. So `---` splits at `--` into `""` and `-`. |
| `Strings.SplitThreeDashes` | packages/shared/src/utils/accountUtils.ts:120 | `"---".split("--")` is `["", "-"]`: the cut is at the first `--`. |
| `Strings.NumberRoundTrip` | packages/shared/src/utils/accountUtils.ts:121 | `Number` applied to the decimal rendering of any integer gives that integer. |
| `Strings.IntToStringInjective` | packages/shared/src/utils/accountUtils.ts:130 | Distinct integers render to distinct strings. |
| `AccountUtils.BeautifyPathTemplate` | packages/shared/src/utils/accountUtils.ts:19-21 | A template without the placeholder is shown unchanged. Otherwise the placeholder becomes one character, so the result is 8 characters shorter. `BeautifyTemplate` places the `*` in the slot. |
| `AccountUtils.RenderPath` | packages/shared/src/utils/accountUtils.ts:65 | A template without the placeholder is returned unchanged; no check is made. Otherwise the placeholder is replaced by the rendered index, and the length changes accordingly. `RenderTemplate` places the index in the slot. |
| `AccountUtils.ReplaceTemplateSlot` | packages/shared/src/utils/accountUtils.ts:65 | In `head + placeholder + tail` with no `$` in `head`, first-occurrence replacement changes the placeholder and no other character. |
| `AccountUtils.BeautifyTemplate` | packages/shared/src/utils/accountUtils.ts:19-21 | Beautifying `head + placeholder + tail` gives `head + "*" + tail`. |
| `AccountUtils.RenderTemplate` | packages/shared/src/utils/accountUtils.ts:65 | Rendering puts the decimal index, sign included, in the slot. If `tail` holds no `$`, the resulting path contains no placeholder. |
| `AccountUtils.TemplateSlotUnique` | packages/shared/src/utils/accountUtils.ts:65 | If neither side of the slot holds `$`, the placeholder occurs exactly once, at the slot. |
| `AccountUtils.ShortenAddress` | packages/shared/src/utils/accountUtils.ts:23-31 | An empty address or one of length ≤ 10 is returned unchanged. A longer one becomes exactly 13 characters: its first six, then `...`, then its last four. |
| `AccountUtils.ShortenAddressIdempotent` | packages/shared/src/utils/accountUtils.ts:23-31 | Shortening a shortened address changes nothing. |
| `AccountUtils.IsHdWallet` | packages/shared/src/utils/accountUtils.ts:33-35 | An id starting with `hd-`; an empty id is not one (the truthiness guard). Its partners: every `BuildHdWalletId` result satisfies it, and `WalletKindsDisjoint` shows no id is both HD and hardware. |
| `AccountUtils.IsHwWallet` | packages/shared/src/utils/accountUtils.ts:36-38 | An id starting with `hw-`; an empty id is not one (the truthiness guard). Its partners: `HwWalletFromDeviceId` shows every such id is `hw-` followed by its device id, and `WalletKindsDisjoint` shows no id is both HD and hardware. |
| `AccountUtils.IsOthersWallet` | packages/shared/src/utils/accountUtils.ts:220-226 | The watching, external and imported ids are neither HD nor hardware wallet ids. |
| `AccountUtils.BuildHdWalletId` | packages/shared/src/utils/accountUtils.ts:129-131 | Every built HD wallet id satisfies `isHdWallet`. The text after `hd-` is the rendered sequence number. |
| `AccountUtils.BuildHdWalletIdInjective` | packages/shared/src/utils/accountUtils.ts:129-131 | Distinct sequence numbers give distinct HD wallet ids. |
| `AccountUtils.HdWalletIdIsPlain` | packages/shared/src/utils/accountUtils.ts:129-131 | HD wallet ids for non-negative sequence numbers hold no `--` and do not end with `-`. |
| `AccountUtils.WalletKindsDisjoint` | packages/shared/src/utils/accountUtils.ts:33-38 | No id is both an HD and a hardware wallet id. The watching, external and imported ids are neither. |
| `AccountUtils.GetDeviceIdFromWallet` | packages/shared/src/utils/accountUtils.ts:133-135 | An id that contains no `hw-` is returned unchanged. Otherwise the first `hw-`, wherever it stands, is removed and nothing else: `xhw-y` gives `xy`. The result is 3 characters shorter. |
| `AccountUtils.DeviceIdOfHwWallet` | packages/shared/src/utils/accountUtils.ts:133-135 | `getDeviceIdFromWallet("hw-" + d) == d` for every `d`, even one that itself contains `hw-`. |
| `AccountUtils.HwWalletFromDeviceId` | packages/shared/src/utils/accountUtils.ts:133-135 | Every hardware wallet id equals `hw-` followed by its device id. |
| `AccountUtils.GetWalletIdFromAccountId` | packages/shared/src/utils/accountUtils.ts:137-145 | The result never contains `--`. An id without `--` is returned whole. Otherwise the result is the text before the first `--`, and the id starts with the result followed by `--`. So `a---b` gives `a`. |
| `AccountUtils.WalletIdOfAccountId` | packages/shared/src/utils/accountUtils.ts:137-145 | For a plain wallet id `w`, `getWalletIdFromAccountId(w + "--" + rest) == w` for every `rest`. |
| `AccountUtils.BuildIndexedAccountId` | packages/shared/src/utils/accountUtils.ts:105-113 | The id starts with `walletId--`, and the rest reads back with `Number` as the index. |
| `AccountUtils.ParseIndexedAccountId` | packages/shared/src/utils/accountUtils.ts:115-127 | An id without `--` gives the empty wallet id, with the whole id read by `Number` as the index. For other ids, the lemmas below cover two shapes. For `w--t`, with `w` plain and `t` holding no `--`, see `ParseIndexedAccountIdTail`. For ids the builder makes from `u--v` or `w-`, see the finding lemmas. Ids with more `--` in other shapes are left to the general contract of `Split`. |
| `AccountUtils.ParseIndexedAccountIdTail` | packages/shared/src/utils/accountUtils.ts:115-127 | For a plain wallet id `w` and any tail `t` without `--`, `w--t` parses as wallet `w` with index `Number(t)`. A tail that is not an integer gives `NaN` (`None`). |
| `AccountUtils.ParseIndexedAccountIdNotANumber` | packages/shared/src/utils/accountUtils.ts:121 | `hd-1--abc` parses as wallet `hd-1` with index `NaN` (`None`). |
| `AccountUtils.IndexedAccountIdRoundTrip` | packages/shared/src/utils/accountUtils.ts:105-127 | Parsing a built id gives back `(walletId, index)` for every integer index and every plain wallet id. |
| `AccountUtils.ParseIndexedAccountIdDropsSeparator` | packages/shared/src/utils/accountUtils.ts:120-124 | As written, the wallet id `u--v`, with `u` and `v` plain, comes back as `uv`: the join uses `''`. |
| `AccountUtils.ParseIndexedAccountIdTrailingDash` | packages/shared/src/utils/accountUtils.ts:120-124 | As written, the wallet id `w-` with index `i` comes back as wallet `w` with index `-i`. |
| `AccountUtils.ParseIndexedAccountIdAtLast` | packages/shared/src/utils/accountUtils.ts:115-127 | The corrected parse. An id without `--` gives the empty wallet id and the whole id as the index, as the as-written parse does. Otherwise the id starts with `walletId--`, no `--` starts after the one at the cut, and the index is `Number` of the text after the cut. |
| `AccountUtils.IndexedAccountIdRoundTripAtLast` | packages/shared/src/utils/accountUtils.ts:115-127 | The corrected parse splits at the last separator. It gives back `(walletId, index)` for every wallet id and every non-negative index. |
| `AccountUtils.ParsesAgreeOnPlainIds` | packages/shared/src/utils/accountUtils.ts:115-127 | On ids built from a plain wallet id and a non-negative index, the as-written parse and the corrected parse agree. |
| `AccountUtils.StripUtxoTail` | packages/shared/src/utils/accountUtils.ts:72-75 | An id ending in `/0/0` loses exactly those 4 characters, once. Any other id is unchanged. |
| `AccountUtils.StripKeepsPrefix` | packages/shared/src/utils/accountUtils.ts:72-75 | The UTXO cut never reaches into `walletId--`. |
| `AccountUtils.HDAccountId` | packages/shared/src/utils/accountUtils.ts:55-76 | It fails with `MissingTemplateOrPath` iff both path and template are empty. It fails with `MissingIndex` iff there is no path, a template is given, and the index is nil; index 0 is accepted. A successful id always starts with `walletId--`. |
| `AccountUtils.HDAccountIdStandard` | packages/shared/src/utils/accountUtils.ts:67-71 | Without `isUtxo` the id is exactly `walletId--usedPath`, or `walletId--usedPath--idSuffix` when a suffix is given. `usedPath` is the path if given, else the rendered template. |
| `AccountUtils.HDAccountIdUtxo` | packages/shared/src/utils/accountUtils.ts:72-76 | With `isUtxo`, the call succeeds exactly when it does without `isUtxo`. The id is the standard id minus one trailing `/0/0` when the standard id has one, and the standard id otherwise. |
| `AccountUtils.HDAccountIdFromTemplate` | packages/shared/src/utils/accountUtils.ts:55-71 | With no path, a template `head + placeholder + tail` whose head has no `$`, and a suffix, a non-UTXO id is exactly `walletId--head<index>tail--idSuffix`. |
| `AccountUtils.HDAccountIdPathWins` | packages/shared/src/utils/accountUtils.ts:55-66 | When a path is given, the template and the index make no difference. |
| `AccountUtils.HDAccountIdWalletId` | packages/shared/src/utils/accountUtils.ts:137-145 | `getWalletIdFromAccountId` of any built HD account id gives back its plain wallet id. This holds with or without suffix and with or without the UTXO cut. |
| `AccountUtils.BuildHDAccountId` | packages/shared/src/utils/accountUtils.ts:40-77 | The step-by-step builder returns what `HDAccountId` specifies. Identical arguments therefore give identical ids. |
| `AccountUtils.BuildLocalTokenId` | packages/shared/src/utils/accountUtils.ts:147-155 | The id starts with `networkId__`, and the text after that is exactly the token id. |
| `AccountUtils.LocalTokenIdSplits` | packages/shared/src/utils/accountUtils.ts:147-155 | Splitting a local token id at `__` gives back its two parts, when the network id holds no `__` and does not end with `_`, and the token id holds no `__`. |
| `AccountUtils.BuildAccountSelectorSceneId` | packages/shared/src/utils/accountUtils.ts:79-103 | For the discover scene: it succeeds iff the url is non-empty and equals its own origin; a missing url is `MissingSceneUrl`; a url that is not its own origin is `SceneUrlNotOrigin`; the result is `discover--<url>`. For any other scene: it succeeds iff the name is non-empty, and the result is the name itself. |
| `AccountUtils.DiscoverSceneIdInjective` | packages/shared/src/utils/accountUtils.ts:86-97 | Distinct discover urls give distinct scene ids. |
| `AccountUtils.IsAccountCompatibleWithNetwork` | packages/shared/src/utils/accountUtils.ts:157-191 | An empty network id fails with `MissingNetworkId`, and then an empty impl fails with `MissingAccountImpl`. Otherwise the result is true iff the network's impl is the account's and the whitelist is empty or lists the network. |
| `AccountUtils.IsCompatible` | packages/shared/src/utils/accountUtils.ts:175-190 | An account is never compatible with a network of another implementation. The two lemmas below state the whitelist cases. |
| `AccountUtils.CompatibleWithoutWhitelist` | packages/shared/src/utils/accountUtils.ts:175-190 | With an empty whitelist, compatibility is exactly an impl match. |
| `AccountUtils.CompatibleWithWhitelist` | packages/shared/src/utils/accountUtils.ts:182-189 | With a non-empty whitelist, only listed networks of the account's impl are compatible. |
| `AccountUtils.ResolvedNetwork` | packages/shared/src/utils/accountUtils.ts:193-218 | The candidate is the current network if its impl is the account's, else `createAtNetwork` (`""` when unset). With an empty whitelist, the result is the candidate. With a non-empty whitelist, the result is always a member of it: the candidate when it is listed, else the first entry. |
| `AccountUtils.ResolvedFallsBackToCreationNetwork` | packages/shared/src/utils/accountUtils.ts:206-216 | An `evm` account created on `eth-main` with whitelist `eth-main`, `polygon` resolves to `eth-main` while a network of another impl is active. |
| `AccountUtils.ResolvedFallbackIsFirstListed` | packages/shared/src/utils/accountUtils.ts:211-216 | A current network of the account's impl that is not whitelisted gives way to the first whitelisted network; the whitelist's order decides. |
| `AccountUtils.ResolvedKeepsCompatible` | packages/shared/src/utils/accountUtils.ts:200-216 | A network the account is compatible with is kept as the result. |
| `AccountUtils.ResolvedIsCompatible` | packages/shared/src/utils/accountUtils.ts:211-216 | When every whitelisted network has the account's impl, the resolved network is compatible with the account. |
| `AccountUtils.GetAccountCompatibleNetwork` | packages/shared/src/utils/accountUtils.ts:193-218 | The step-by-step selector returns what `ResolvedNetwork` specifies, and it never fails. |
| `TonSettings.AccountDeriveInfoMap` | packages/kit-bg/src/vaults/impls/ton/settings.ts:16-29 | The map has a `default` entry and no `v5` entry. The default template is `m/44'/607'/0'/0'/` + placeholder + `'/0'`. |
| `TonSettings.Settings` | packages/kit-bg/src/vaults/impls/ton/settings.ts:31-61 | The impl is `ton` and the default coin type is `607`, the same as the default entry's coin type. Label, address encoding and id suffix are all `V4R2`. It is not UTXO, and the account type is simple. Imported, hardware and watching accounts are on; external accounts are off. The default network info is curve `ed25519` with an empty address prefix. |
| `TonSettings.TemplateHasOnePlaceholder` | packages/kit-bg/src/vaults/impls/ton/settings.ts:24 | The TON template holds the placeholder exactly once, after `m/44'/607'/0'/0'/`. |
| `TonSettings.RenderedTonPath` | packages/kit-bg/src/vaults/impls/ton/settings.ts:24 | Rendering the TON template gives `m/44'/607'/0'/0'/<index>'/0'`, which contains no placeholder. |
| `TonSettings.BeautifiedTonTemplate` | packages/kit-bg/src/vaults/impls/ton/settings.ts:24 | The TON template is displayed as `m/44'/607'/0'/0'/*'/0'`. |
| `TonSettings.TonHDAccountId` | packages/kit-bg/src/vaults/impls/ton/settings.ts:20-43 | A TON HD account id built from the default derive info is exactly `walletId--m/44'/607'/0'/0'/<index>'/0'--V4R2`. Nothing is cut, because TON is not UTXO. |
| `TonSettings.TonAccountIdWalletId` | packages/kit-bg/src/vaults/impls/ton/settings.ts:20-29 | The plain wallet id is recovered from every TON HD account id. |

## Left out

- The account-selector "create address" button and the network-management screen are left out. They are UI, state atoms, effects and awaited service calls, with no pure core.
- The bodies of `networkUtils.getNetworkImpl` and `uriUtils.getOriginFromUrl` are not part of this model. They are uninterpreted function parameters.
- ParseIndexedAccountId: `Number(...)` is modelled only on an optional minus sign followed by decimal digits. Every other text is `None`. JavaScript maps the empty string and whitespace to 0 and accepts `+`, hexadecimal and exponent forms; none of these is modelled.
- Numbers are unbounded integers. JavaScript numbers are doubles, so these cases are not modelled:
  - non-integer indexes;
  - the loss of precision above 2^53;
  - exponent notation in `toString` for very large values.
- String length and slicing count characters. JavaScript counts UTF-16 code units, so `ShortenAddress` may differ on text outside the Basic Multilingual Plane.
- The `|| ''` at the end of `getWalletIdFromAccountId` and `getAccountCompatibleNetwork` changes no string value and is not modelled separately.
- `EAccountSelectorSceneName` is modelled as a string. Only its `discover` member is singled out.
- Only the TON settings record is modelled. The registry of all implementations' settings, and the fields of `IVaultSettings` that the TON record does not set, are not part of this model.
- The fee, NFT, nonce and polling fields of the TON record are carried as values. No contract is stated about them.
- The curve `ed25519` is only named. No key derivation or elliptic-curve arithmetic is modelled.

## Findings

| source | as written | input that shows it | evidently intended | confidence | as-written member | corrected member |
|---|---|---|---|---|---|---|
| packages/shared/src/utils/accountUtils.ts:120-124 | The indexed-account id is split at every `--`, the last piece is read as the index, and the other pieces are glued back with `''`. So a wallet id that holds `--` loses it. A wallet id ending in `-` shifts the boundary (`ParseIndexedAccountIdTrailingDash`). | walletId `a--b` with index 1 is built as `a--b--1` and parsed as wallet `ab`, index 1. walletId `a-` with index 5 is built as `a---5` and parsed as wallet `a`, index -5. | The index is the text after the last `--`, and the wallet id is everything before it. Parsing is then the inverse of building for every wallet id; `IndexedAccountIdRoundTripAtLast` proves this of the corrected parse. | low: the wallet ids the wallet builds (`hd-<n>`, `hw-<uuid>`) contain no `--` and do not end with `-`; not executed | `AccountUtils.ParseIndexedAccountIdDropsSeparator` | `AccountUtils.ParseIndexedAccountIdAtLast` |
