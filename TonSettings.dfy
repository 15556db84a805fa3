/**
 * The vault settings of the TON implementation: a constant, frozen record
 * describing how TON accounts are derived (coin type, path template,
 * address encoding, id suffix) and which account kinds and fee features the
 * chain supports. A datatype value cannot be changed after it is built,
 * which is what freezing the object achieves in the source.
 */
module TonSettings {
  import opened Wrappers
  import opened Strings
  import opened EngineConsts
  import opened DbConsts
  import opened AccountUtils

  /** `EAddressEncodings.V4R2`: the v4r2 wallet-contract address encoding. */
  const ENCODING_V4R2: string := "V4R2"

  /** The key of the derive-info entry every implementation has. */
  const DERIVE_DEFAULT: string := "default"
  /** The optional key of TON's alternative (v5) derive info. */
  const DERIVE_V5: string := "v5"

  /** How one kind of account of the chain is derived and named. */
  datatype AccountDeriveInfo = AccountDeriveInfo(
    namePrefix: string,
    labelText: string,  // `label` in the source
    template: string,
    coinType: string,
    addressEncoding: string,
    idSuffix: string)

  /** Per-network key and address parameters. */
  datatype NetworkInfo = NetworkInfo(curve: string, addressPrefix: string)

  /** The vault settings record of one implementation. */
  datatype VaultSettings = VaultSettings(
    impl: string,
    coinTypeDefault: string,
    accountType: DBAccountType,
    importedAccountEnabled: bool,
    hardwareAccountEnabled: bool,
    externalAccountEnabled: bool,
    watchingAccountEnabled: bool,
    defaultFeePresetIndex: nat,
    isUtxo: bool,
    isSingleToken: bool,
    nftEnabled: bool,
    nonceRequired: bool,
    feeUtxoRequired: bool,
    editFeeEnabled: bool,
    replaceTxEnabled: bool,
    estimatedFeePollingInterval: nat,
    accountDeriveInfo: map<string, AccountDeriveInfo>,
    networkInfo: map<string, NetworkInfo>)

  /** The part of the TON template before the index slot: purpose, coin type, account, change. */
  const TEMPLATE_HEAD: string := "m/44'/" + COINTYPE_TON + "'/0'/0'/"
  /** The part of the TON template after the index slot. */
  const TEMPLATE_TAIL: string := "'/0'"

  /** The TON derive-info map: only the `default` entry, v4r2 addresses. */
  function AccountDeriveInfoMap(): (m: map<string, AccountDeriveInfo>)
    ensures DERIVE_DEFAULT in m && DERIVE_V5 !in m
    ensures m[DERIVE_DEFAULT].template == TEMPLATE_HEAD + INDEX_PLACEHOLDER + TEMPLATE_TAIL
  {
    map[DERIVE_DEFAULT := AccountDeriveInfo(
      "",
      ENCODING_V4R2,
      TEMPLATE_HEAD + INDEX_PLACEHOLDER + TEMPLATE_TAIL,
      COINTYPE_TON,
      ENCODING_V4R2,
      ENCODING_V4R2)]
  }

  /** The TON vault settings record. */
  function Settings(): (s: VaultSettings)
    ensures s.impl == IMPL_TON && s.coinTypeDefault == COINTYPE_TON
    ensures DERIVE_DEFAULT in s.accountDeriveInfo && DERIVE_V5 !in s.accountDeriveInfo
    ensures s.accountDeriveInfo[DERIVE_DEFAULT].coinType == s.coinTypeDefault
    ensures s.accountDeriveInfo[DERIVE_DEFAULT].labelText == ENCODING_V4R2
    ensures s.accountDeriveInfo[DERIVE_DEFAULT].addressEncoding == ENCODING_V4R2
    ensures s.accountDeriveInfo[DERIVE_DEFAULT].idSuffix == ENCODING_V4R2
    ensures !s.isUtxo && s.accountType == Simple
    ensures s.importedAccountEnabled && s.hardwareAccountEnabled && s.watchingAccountEnabled
    ensures !s.externalAccountEnabled
    ensures DERIVE_DEFAULT in s.networkInfo
    ensures s.networkInfo[DERIVE_DEFAULT] == NetworkInfo("ed25519", "")
  {
    VaultSettings(
      IMPL_TON,
      COINTYPE_TON,
      Simple,
      true,   // importedAccountEnabled
      true,   // hardwareAccountEnabled
      false,  // externalAccountEnabled
      true,   // watchingAccountEnabled
      0,      // defaultFeePresetIndex
      false,  // isUtxo
      false,  // isSingleToken
      true,   // NFTEnabled
      true,   // nonceRequired
      false,  // feeUTXORequired
      true,   // editFeeEnabled
      false,  // replaceTxEnabled
      30,     // estimatedFeePollingInterval
      AccountDeriveInfoMap(),
      map[DERIVE_DEFAULT := NetworkInfo("ed25519", "")])
  }

  /** The derive info TON accounts use. */
  function DefaultDeriveInfo(): AccountDeriveInfo
  {
    Settings().accountDeriveInfo[DERIVE_DEFAULT]
  }

  /** Neither side of the TON template's index slot holds a `$`. */
  lemma TemplateSidesFreeOfMark()
    ensures FreeOfPlaceholderMark(TEMPLATE_HEAD) && FreeOfPlaceholderMark(TEMPLATE_TAIL)
  {
    assert TEMPLATE_HEAD == "m/44'/607'/0'/0'/";
  }

  /** The TON template holds the index placeholder exactly once, after the four hardened levels. */
  lemma TemplateHasOnePlaceholder()
    ensures forall j: nat :: OccursAt(DefaultDeriveInfo().template, INDEX_PLACEHOLDER, j) <==> j == |TEMPLATE_HEAD|
  {
    TemplateSidesFreeOfMark();
    TemplateSlotUnique(TEMPLATE_HEAD, TEMPLATE_TAIL);
  }

  /** Rendering the TON template puts the index in the slot and leaves no placeholder. */
  lemma RenderedTonPath(index: int)
    ensures RenderPath(DefaultDeriveInfo().template, index) == TEMPLATE_HEAD + IntToString(index) + TEMPLATE_TAIL
    ensures !Contains(RenderPath(DefaultDeriveInfo().template, index), INDEX_PLACEHOLDER)
  {
    TemplateSidesFreeOfMark();
    RenderTemplate(TEMPLATE_HEAD, TEMPLATE_TAIL, index);
  }

  /** The TON template is displayed with `*` in the index slot. */
  lemma BeautifiedTonTemplate()
    ensures BeautifyPathTemplate(DefaultDeriveInfo().template) == TEMPLATE_HEAD + "*" + TEMPLATE_TAIL
  {
    TemplateSidesFreeOfMark();
    BeautifyTemplate(TEMPLATE_HEAD, TEMPLATE_TAIL);
  }

  /**
   * The HD account id of a TON account is `walletId--<rendered path>--V4R2`:
   * nothing is cut from it, since TON is not a UTXO chain.
   */
  lemma TonHDAccountId(walletId: string, index: int)
    ensures HDAccountId(walletId, Some(index), DefaultDeriveInfo().template, "",
                        DefaultDeriveInfo().idSuffix, Settings().isUtxo)
         == Success(walletId + SEPERATOR + TEMPLATE_HEAD + IntToString(index) + TEMPLATE_TAIL
                    + SEPERATOR + ENCODING_V4R2)
  {
    TonDeriveFacts();
    TemplateSidesFreeOfMark();
    HDAccountIdFromTemplate(walletId, index, TEMPLATE_HEAD, TEMPLATE_TAIL, ENCODING_V4R2);
  }

  /** What TON HD account ids are built from: the default template and suffix, without the UTXO cut. */
  lemma TonDeriveFacts()
    ensures DefaultDeriveInfo().template == TEMPLATE_HEAD + INDEX_PLACEHOLDER + TEMPLATE_TAIL
    ensures DefaultDeriveInfo().idSuffix == ENCODING_V4R2
    ensures !Settings().isUtxo
  {
  }

  /** The wallet id is recovered from every TON account id built under a plain wallet id. */
  lemma TonAccountIdWalletId(walletId: string, index: int)
    requires PlainBefore(walletId, '-')
    ensures GetWalletIdFromAccountId(
              HDAccountId(walletId, Some(index), DefaultDeriveInfo().template, "",
                          DefaultDeriveInfo().idSuffix, Settings().isUtxo).value) == walletId
  {
    TonHDAccountId(walletId, index);
    HDAccountIdWalletId(walletId, Some(index), DefaultDeriveInfo().template, "",
                        DefaultDeriveInfo().idSuffix, Settings().isUtxo);
  }
}
