/**
 * Constants the account utilities import from the engine constants and the
 * local database. Their definitions are not part of this model, so the values
 * below are chosen ones. The separator `--` and the `hd`/`hw` prefixes are the
 * ones the example ids in the source show (`hd-1--m/44'/118'/0'/0/0`,
 * `hw-<uuid>--m/44'/0'/0'`, `external--60--0x…`). The placeholder, the TON coin
 * type and implementation tag, and the `imported` and `watching` tags appear in
 * no id of the source and are assumed. The proofs rely on these facts about
 * them: the separator is `--`; the index placeholder starts and ends with `$`,
 * a character that no decimal rendering and no derivation path contains; the
 * `hd` and `hw` tags begin with `h`, have two characters and differ in the
 * second; the `imported`, `watching` and `external` tags do not begin with
 * `h`; and the `hd` tag holds no `-`.
 */
module EngineConsts {
  /** The separator between the parts of indexed-account and account ids. */
  const SEPERATOR: string := "--"
  /** The token a derivation template carries in place of the account index. */
  const INDEX_PLACEHOLDER: string := "$$INDEX$$"
  /** BIP-44 coin type registered for TON. */
  const COINTYPE_TON: string := "607"
  /** Implementation tag of the TON family of networks. */
  const IMPL_TON: string := "ton"
}

/** Constants of the local account database: wallet-type tags and account kinds. */
module DbConsts {
  const WALLET_TYPE_HD: string := "hd"
  const WALLET_TYPE_HW: string := "hw"
  const WALLET_TYPE_IMPORTED: string := "imported"
  const WALLET_TYPE_WATCHING: string := "watching"
  const WALLET_TYPE_EXTERNAL: string := "external"

  /** How accounts of one implementation are stored. */
  datatype DBAccountType = Simple | Utxo | Variant
}
