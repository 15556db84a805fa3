/**
 * The account-identity string codec and network-compatibility rules of the
 * wallet: builders and parsers for wallet ids, indexed-account ids and HD
 * account ids, wallet-type predicates, display helpers, and the two rules
 * that decide which network an account may operate on.
 *
 * Conventions carried over from the JavaScript source:
 *  - an optional string argument is `""` when absent: the source only ever
 *    tests such arguments for truthiness, where `undefined` and `""` agree;
 *  - an optional list is `[]` when absent, an optional flag `false`;
 *  - a thrown `Error` is a `Failure` of `AccountUtilsError`;
 *  - the imported collaborators `networkUtils.getNetworkImpl` and
 *    `uriUtils.getOriginFromUrl` are passed in as functions, uninterpreted.
 */
module AccountUtils {
  import opened Wrappers
  import opened Strings
  import opened EngineConsts
  import opened DbConsts

  /** One constructor per `throw` site. */
  datatype AccountUtilsError =
    | MissingTemplateOrPath   // buildHDAccountId: neither path nor template
    | MissingIndex            // buildHDAccountId: template without index
    | MissingSceneUrl         // buildAccountSelectorSceneId: discover scene without url
    | SceneUrlNotOrigin       // buildAccountSelectorSceneId: url is not its own origin
    | MissingSceneName        // buildAccountSelectorSceneId: empty scene name
    | MissingNetworkId        // isAccountCompatibleWithNetwork: empty network id
    | MissingAccountImpl      // isAccountCompatibleWithNetwork: account without impl

  /** The fields of a stored account that the compatibility rules read. */
  datatype Account = Account(id: string, impl: string, networks: seq<string>, createAtNetwork: string)

  /** What `parseIndexedAccountId` returns; `index` is `None` where `Number` gives `NaN`. */
  datatype ParsedIndexedAccountId = ParsedIndexedAccountId(walletId: string, index: Option<int>)

  // ----- derivation-path templates ------------------------------------------

  /** `s` holds no `$`, the character that opens and closes the index placeholder. */
  predicate FreeOfPlaceholderMark(s: string) {
    forall k :: 0 <= k < |s| ==> s[k] != INDEX_PLACEHOLDER[0]
  }

  /** `beautifyPathTemplate`: the first placeholder shown as `*`. */
  function BeautifyPathTemplate(template: string): (r: string)
    ensures !Contains(template, INDEX_PLACEHOLDER) ==> r == template
    ensures Contains(template, INDEX_PLACEHOLDER) ==> |r| == |template| - |INDEX_PLACEHOLDER| + 1
  {
    ReplaceFirst(template, INDEX_PLACEHOLDER, "*")
  }

  /** The path `buildHDAccountId` derives from a template: the first placeholder replaced by the index. */
  function RenderPath(template: string, index: int): (r: string)
    ensures !Contains(template, INDEX_PLACEHOLDER) ==> r == template
    ensures Contains(template, INDEX_PLACEHOLDER) ==> |r| == |template| - |INDEX_PLACEHOLDER| + |IntToString(index)|
  {
    ReplaceFirst(template, INDEX_PLACEHOLDER, IntToString(index))
  }

  /**
   * In a template `head + placeholder + tail` whose head holds no `$`, the
   * first-occurrence replacement touches the placeholder and nothing else.
   */
  lemma ReplaceTemplateSlot(head: string, tail: string, rep: string)
    requires FreeOfPlaceholderMark(head)
    ensures ReplaceFirst(head + INDEX_PLACEHOLDER + tail, INDEX_PLACEHOLDER, rep) == head + rep + tail
  {
    var s := head + INDEX_PLACEHOLDER + tail;
    var p := INDEX_PLACEHOLDER;
    assert s[|head|..|head| + |p|] == p;
    assert OccursAt(s, p, |head|);
    forall j: nat | j < |head|
      ensures !OccursAt(s, p, j)
    {
      assert s[j] == head[j];
      if j + |p| <= |s| {
        assert s[j..j + |p|][0] == s[j];
      }
    }
    assert IndexOf(s, p) == Some(|head|);
    assert s[..|head|] == head;
    assert s[|head| + |p|..] == tail;
  }

  /** A template `head + placeholder + tail` with no `$` around the slot holds the placeholder exactly once. */
  lemma TemplateSlotUnique(head: string, tail: string)
    requires FreeOfPlaceholderMark(head) && FreeOfPlaceholderMark(tail)
    ensures forall j: nat :: OccursAt(head + INDEX_PLACEHOLDER + tail, INDEX_PLACEHOLDER, j) <==> j == |head|
  {
    var s := head + INDEX_PLACEHOLDER + tail;
    var p := INDEX_PLACEHOLDER;
    assert s[|head|..|head| + |p|] == p;
    forall j: nat | j != |head|
      ensures !OccursAt(s, p, j)
    {
      if j + |p| <= |s| {
        var occ := s[j..j + |p|];
        assert occ[0] == s[j] && occ[|p| - 1] == s[j + |p| - 1];
        if j < |head| {
          assert s[j] == head[j];
        } else {
          assert s[j + |p| - 1] == tail[j + |p| - 1 - |head| - |p|];
        }
      }
    }
  }

  /** Beautifying `head + placeholder + tail` shows `head + "*" + tail`. */
  lemma BeautifyTemplate(head: string, tail: string)
    requires FreeOfPlaceholderMark(head)
    ensures BeautifyPathTemplate(head + INDEX_PLACEHOLDER + tail) == head + "*" + tail
  {
    ReplaceTemplateSlot(head, tail, "*");
  }

  /**
   * Rendering `head + placeholder + tail` puts the decimal index in the slot;
   * when the tail holds no `$` either, the rendered path is free of the placeholder.
   */
  lemma RenderTemplate(head: string, tail: string, index: int)
    requires FreeOfPlaceholderMark(head)
    ensures RenderPath(head + INDEX_PLACEHOLDER + tail, index) == head + IntToString(index) + tail
    ensures FreeOfPlaceholderMark(tail) ==> !Contains(RenderPath(head + INDEX_PLACEHOLDER + tail, index), INDEX_PLACEHOLDER)
  {
    ReplaceTemplateSlot(head, tail, IntToString(index));
    var r := head + IntToString(index) + tail;
    if FreeOfPlaceholderMark(tail) {
      IntToStringDashes(index);
      forall k | 0 <= k < |r|
        ensures r[k] != INDEX_PLACEHOLDER[0]
      {
        if k < |head| {
          assert r[k] == head[k];
        } else if k < |head| + |IntToString(index)| {
          assert r[k] == IntToString(index)[k - |head|];
        } else {
          assert r[k] == tail[k - |head| - |IntToString(index)|];
        }
      }
      NoOccurrenceWithoutChar(r, INDEX_PLACEHOLDER, INDEX_PLACEHOLDER[0]);
    }
  }

  // ----- display helpers ----------------------------------------------------

  /** `shortenAddress`: short addresses unchanged, longer ones as first six, `...`, last four. */
  function ShortenAddress(address: string): (r: string)
    ensures |address| <= 10 ==> r == address
    ensures |address| > 10 ==> |r| == 13 && r[6..9] == "..."
    ensures |address| > 10 ==> r[..6] == address[..6] && r[9..] == address[|address| - 4..]
  {
    if address == "" then ""
    else if |address| <= 10 then address
    else address[..6] + "..." + address[|address| - 4..]
  }

  /** A shortened address is its own short form. */
  lemma ShortenAddressIdempotent(address: string)
    ensures ShortenAddress(ShortenAddress(address)) == ShortenAddress(address)
  {
    var r := ShortenAddress(address);
    if |address| > 10 {
      assert r == r[..6] + r[6..9] + r[9..];
    }
  }

  // ----- wallet ids ---------------------------------------------------------

  /** `isHdWallet`: a non-empty id starting with `hd-`. */
  predicate IsHdWallet(walletId: string)
    ensures IsHdWallet(walletId) ==> walletId != "" && walletId != WALLET_TYPE_HD
  {
    StartsWith(walletId, WALLET_TYPE_HD + "-")
  }

  /** `isHwWallet`: a non-empty id starting with `hw-`. */
  predicate IsHwWallet(walletId: string)
    ensures IsHwWallet(walletId) ==> walletId != "" && walletId != WALLET_TYPE_HW
  {
    StartsWith(walletId, WALLET_TYPE_HW + "-")
  }

  /** `isOthersWallet`: the fixed ids of the watching, external and imported pseudo-wallets. */
  predicate IsOthersWallet(walletId: string)
    ensures IsOthersWallet(walletId) ==> !IsHdWallet(walletId) && !IsHwWallet(walletId)
  {
    PrefixedIdsStartWithH(walletId);
    walletId == WALLET_TYPE_WATCHING || walletId == WALLET_TYPE_EXTERNAL || walletId == WALLET_TYPE_IMPORTED
  }

  /** HD and hardware wallet ids begin with `h`, which none of the pseudo-wallet ids does. */
  lemma PrefixedIdsStartWithH(walletId: string)
    ensures IsHdWallet(walletId) || IsHwWallet(walletId) ==> walletId[0] == 'h'
  {
    if IsHdWallet(walletId) {
      assert walletId[..3] == "hd-";
    }
    if IsHwWallet(walletId) {
      assert walletId[..3] == "hw-";
    }
  }

  /** `buildHdWalletId`: the id of the HD wallet with sequence number `nextHD`. */
  function BuildHdWalletId(nextHD: int): (r: string)
    ensures IsHdWallet(r)
    ensures r[|WALLET_TYPE_HD| + 1..] == IntToString(nextHD)
  {
    WALLET_TYPE_HD + "-" + IntToString(nextHD)
  }

  /** Distinct sequence numbers give distinct HD wallet ids. */
  lemma BuildHdWalletIdInjective(a: int, b: int)
    requires BuildHdWalletId(a) == BuildHdWalletId(b)
    ensures a == b
  {
    IntToStringInjective(a, b);
  }

  /** The prefix grammar separates the wallet kinds: no id is of two kinds. */
  lemma WalletKindsDisjoint(walletId: string)
    ensures !(IsHdWallet(walletId) && IsHwWallet(walletId))
    ensures !(IsOthersWallet(walletId) && (IsHdWallet(walletId) || IsHwWallet(walletId)))
  {
    if IsHdWallet(walletId) {
      assert walletId[..3] == "hd-";
      assert walletId[1] == 'd';
    }
  }

  /** `getDeviceIdFromWallet`: the first `hw-` anywhere in the id removed. */
  function GetDeviceIdFromWallet(walletId: string): (r: string)
    ensures !Contains(walletId, WALLET_TYPE_HW + "-") ==> r == walletId
    ensures Contains(walletId, WALLET_TYPE_HW + "-") ==> |r| == |walletId| - |WALLET_TYPE_HW + "-"|
    ensures Contains(walletId, WALLET_TYPE_HW + "-") ==>
              var i := IndexOf(walletId, WALLET_TYPE_HW + "-").value;
              r == walletId[..i] + walletId[i + |WALLET_TYPE_HW + "-"|..]
  {
    ReplaceFirst(walletId, WALLET_TYPE_HW + "-", "")
  }

  /** The device id of the hardware wallet `hw-<deviceId>` is `deviceId`, whatever it holds. */
  lemma DeviceIdOfHwWallet(deviceId: string)
    ensures GetDeviceIdFromWallet(WALLET_TYPE_HW + "-" + deviceId) == deviceId
  {
    var s := WALLET_TYPE_HW + "-" + deviceId;
    assert OccursAt(s, WALLET_TYPE_HW + "-", 0);
  }

  /** A hardware wallet id is `hw-` followed by its device id. */
  lemma HwWalletFromDeviceId(walletId: string)
    requires IsHwWallet(walletId)
    ensures WALLET_TYPE_HW + "-" + GetDeviceIdFromWallet(walletId) == walletId
  {
    var p := WALLET_TYPE_HW + "-";
    assert walletId == p + walletId[|p|..];
    DeviceIdOfHwWallet(walletId[|p|..]);
  }

  /** `getWalletIdFromAccountId`: the part of an account id before its first separator. */
  function GetWalletIdFromAccountId(accountId: string): (r: string)
    ensures !Contains(r, SEPERATOR)
    ensures !Contains(accountId, SEPERATOR) ==> r == accountId
    ensures Contains(accountId, SEPERATOR) ==> StartsWith(accountId, r + SEPERATOR)
    ensures Contains(accountId, SEPERATOR) ==> r == accountId[..IndexOf(accountId, SEPERATOR).value]
  {
    SplitFirstPiece(accountId, SEPERATOR);
    Split(accountId, SEPERATOR)[0]
  }

  /** A wallet id that stands plainly before `--` is recovered from any account id it starts. */
  lemma WalletIdOfAccountId(walletId: string, rest: string)
    requires PlainBefore(walletId, '-')
    ensures GetWalletIdFromAccountId(walletId + SEPERATOR + rest) == walletId
  {
    SplitAfterPlain(walletId, '-', rest);
  }

  /** The HD wallet ids the wallet builds stand plainly before `--`. */
  lemma HdWalletIdIsPlain(nextHD: nat)
    ensures PlainBefore(BuildHdWalletId(nextHD), '-')
  {
    var w := BuildHdWalletId(nextHD);
    var d := IntToString(nextHD);
    assert IsDecimal(d);
    assert w == "hd-" + d;
    forall j: nat | j <= |w|
      ensures !OccursAt(w, "--", j)
    {
      if j + 2 <= |w| {
        assert w[j..j + 2][1] == w[j + 1];
        if j >= 2 {
          assert w[j + 1] == d[j - 2];
        }
      }
    }
    assert w[|w| - 1] == d[|d| - 1];
  }

  // ----- indexed-account ids ------------------------------------------------

  /** `buildIndexedAccountId`: `<walletId>--<index>`. */
  function BuildIndexedAccountId(walletId: string, index: int): (r: string)
    ensures StartsWith(r, walletId + SEPERATOR)
    ensures ParseNumber(r[|walletId| + |SEPERATOR|..]) == Some(index)
  {
    var r := walletId + SEPERATOR + IntToString(index);
    assert r[|walletId| + |SEPERATOR|..] == IntToString(index);
    NumberRoundTrip(index);
    r
  }

  /**
   * `parseIndexedAccountId` as written: split at every separator, read the
   * last piece with `Number`, and glue the other pieces back with `''`.
   */
  function ParseIndexedAccountId(indexedAccountId: string): (r: ParsedIndexedAccountId)
    ensures !Contains(indexedAccountId, SEPERATOR) ==> r == ParsedIndexedAccountId("", ParseNumber(indexedAccountId))
  {
    SplitFirstPiece(indexedAccountId, SEPERATOR);
    ReadPieces(Split(indexedAccountId, SEPERATOR))
  }

  /** The last piece read as the index, the others glued together with `''` as the wallet id. */
  function ReadPieces(arr: seq<string>): ParsedIndexedAccountId
    requires |arr| >= 1
  {
    ParsedIndexedAccountId(Join(arr[..|arr| - 1], ""), ParseNumber(arr[|arr| - 1]))
  }

  /** Reading two pieces: the first is the wallet id. */
  lemma ReadTwoPieces(w: string, last: string)
    ensures ReadPieces([w, last]) == ParsedIndexedAccountId(w, ParseNumber(last))
  {
    assert [w, last][..1] == [w];
  }

  /** Reading three pieces: the first two are glued together. */
  lemma ReadThreePieces(u: string, v: string, last: string)
    ensures ReadPieces([u, v, last]) == ParsedIndexedAccountId(u + v, ParseNumber(last))
  {
    assert [u, v, last][..2] == [u, v];
    JoinPair(u, v, "");
    assert u + "" + v == u + v;
  }

  /** A rendered integer never holds the separator. */
  lemma IntToStringHasNoSeparator(index: int)
    ensures !Contains(IntToString(index), SEPERATOR)
  {
    var d := IntToString(index);
    IntToStringDashes(index);
    forall j: nat | j <= |d|
      ensures !OccursAt(d, SEPERATOR, j)
    {
      if j + 2 <= |d| {
        assert d[j..j + 2][1] == d[j + 1];
      }
    }
  }

  /**
   * Parsing inverts building for every integer index and every wallet id
   * that stands plainly before the separator (no `--` inside, no trailing `-`).
   */
  lemma {:induction false} IndexedAccountIdRoundTrip(walletId: string, index: int)
    requires PlainBefore(walletId, '-')
    ensures ParseIndexedAccountId(BuildIndexedAccountId(walletId, index)) == ParsedIndexedAccountId(walletId, Some(index))
  {
    IntToStringHasNoSeparator(index);
    ParseIndexedAccountIdTail(walletId, IntToString(index));
    NumberRoundTrip(index);
  }

  /**
   * An id `w--t` with a plain wallet id and a tail free of the separator
   * parses as `w` with index `Number(t)`, whatever `t` holds: `None` (`NaN`)
   * when `t` is not an integer.
   */
  lemma ParseIndexedAccountIdTail(w: string, t: string)
    requires PlainBefore(w, '-') && !Contains(t, SEPERATOR)
    ensures ParseIndexedAccountId(w + SEPERATOR + t) == ParsedIndexedAccountId(w, ParseNumber(t))
  {
    SplitInTwo(w + SEPERATOR + t, w, '-', t);
    ReadTwoPieces(w, t);
  }

  /** A non-numeric tail gives no index: `hd-1--abc` parses as wallet `hd-1` with `NaN`. */
  lemma ParseIndexedAccountIdNotANumber()
    ensures ParseIndexedAccountId("hd-1--abc") == ParsedIndexedAccountId("hd-1", None)
  {
    assert "hd-1--abc" == "hd-1" + SEPERATOR + "abc";
    NoOccurrenceWithoutChar("abc", SEPERATOR, '-');
    assert !IsDigit("abc"[0]);
    HdWalletIdIsPlain(1);
    assert BuildHdWalletId(1) == "hd-1";
    ParseIndexedAccountIdTail("hd-1", "abc");
  }

  /**
   * As written, the separators inside a wallet id are lost: `u--v` with
   * index `i` is built as `u--v--i` and parsed back as wallet `uv`.
   */
  lemma {:induction false} ParseIndexedAccountIdDropsSeparator(u: string, v: string, index: int)
    requires PlainBefore(u, '-') && PlainBefore(v, '-')
    ensures ParseIndexedAccountId(BuildIndexedAccountId(u + SEPERATOR + v, index)) == ParsedIndexedAccountId(u + v, Some(index))
  {
    var d := IntToString(index);
    BuiltUnderTwoPieces(u, v, index);
    IntToStringHasNoSeparator(index);
    SplitInThree(u, v, d);
    ReadThreePieces(u, v, d);
    NumberRoundTrip(index);
  }

  /** The id built under `u--v`, grouped as `u`, the separator, and the rest. */
  lemma BuiltUnderTwoPieces(u: string, v: string, index: int)
    ensures BuildIndexedAccountId(u + SEPERATOR + v, index) == u + SEPERATOR + (v + SEPERATOR + IntToString(index))
  {
  }

  /** `u--v--d` splits into its three pieces when `u` and `v` stand plainly before the separators. */
  lemma SplitInThree(u: string, v: string, d: string)
    requires PlainBefore(u, '-') && PlainBefore(v, '-') && !Contains(d, SEPERATOR)
    ensures Split(u + SEPERATOR + (v + SEPERATOR + d), SEPERATOR) == [u, v, d]
  {
    var rest := v + SEPERATOR + d;
    SplitInTwo(rest, v, '-', d);
    SplitAfterPlain(u, '-', rest);
  }

  /**
   * As written, a wallet id ending in `-` moves the boundary: `w-` with
   * index `i` is built as `w---i` and parsed back as wallet `w`, index `-i`.
   */
  lemma {:induction false} ParseIndexedAccountIdTrailingDash(w: string, index: nat)
    requires PlainBefore(w, '-')
    ensures ParseIndexedAccountId(BuildIndexedAccountId(w + "-", index)) == ParsedIndexedAccountId(w, Some(-(index as int)))
  {
    var d := NatToDecimal(index);
    var tail := "-" + d;
    var s := BuildIndexedAccountId(w + "-", index);
    BuiltAfterTrailingDash(w, index);
    NegativeRenderingHasNoSeparator(d);
    SplitInTwo(s, w, '-', tail);
    ReadTwoPieces(w, tail);
    NumberOfNegatedDecimal(index);
  }

  /** The id built under `w-` reads as `w`, the separator, then a minus sign and the digits. */
  lemma BuiltAfterTrailingDash(w: string, index: nat)
    ensures BuildIndexedAccountId(w + "-", index) == w + SEPERATOR + ("-" + NatToDecimal(index))
  {
    assert IntToString(index) == NatToDecimal(index);
  }

  /** A minus sign followed by digits holds no separator. */
  lemma NegativeRenderingHasNoSeparator(d: string)
    requires IsDecimal(d)
    ensures !Contains("-" + d, SEPERATOR)
  {
    var tail := "-" + d;
    forall j: nat | j <= |tail|
      ensures !OccursAt(tail, SEPERATOR, j)
    {
      if j + 2 <= |tail| {
        assert tail[j..j + 2][1] == tail[j + 1] == d[j];
      }
    }
  }

  /**
   * The parse the indexed-account id format calls for: the index is the text
   * after the LAST separator and the wallet id everything before it.
   */
  function ParseIndexedAccountIdAtLast(indexedAccountId: string): (r: ParsedIndexedAccountId)
    ensures !Contains(indexedAccountId, SEPERATOR) ==> r == ParsedIndexedAccountId("", ParseNumber(indexedAccountId))
    ensures Contains(indexedAccountId, SEPERATOR) ==> StartsWith(indexedAccountId, r.walletId + SEPERATOR)
    ensures Contains(indexedAccountId, SEPERATOR) ==>
              !Contains(indexedAccountId[|r.walletId| + 1..], SEPERATOR)
              && r.index == ParseNumber(indexedAccountId[|r.walletId| + |SEPERATOR|..])
  {
    match LastIndexOf(indexedAccountId, SEPERATOR)
    case None => ParsedIndexedAccountId("", ParseNumber(indexedAccountId))
    case Some(i) =>
      NoOccurrenceAfter(indexedAccountId, SEPERATOR, i);
      ParsedIndexedAccountId(indexedAccountId[..i], ParseNumber(indexedAccountId[i + |SEPERATOR|..]))
  }

  /** The corrected parse inverts building for every wallet id and every non-negative index. */
  lemma IndexedAccountIdRoundTripAtLast(walletId: string, index: nat)
    ensures ParseIndexedAccountIdAtLast(BuildIndexedAccountId(walletId, index)) == ParsedIndexedAccountId(walletId, Some(index))
  {
    var d := IntToString(index);
    var s := walletId + SEPERATOR + d;
    assert s[|walletId|..|walletId| + 2] == SEPERATOR;
    assert OccursAt(s, SEPERATOR, |walletId|);
    forall j: nat | |walletId| < j
      ensures !OccursAt(s, SEPERATOR, j)
    {
      if j + 2 <= |s| {
        assert s[j..j + 2][1] == s[j + 1] == d[j + 1 - |walletId| - 2];
      }
    }
    assert LastIndexOf(s, SEPERATOR) == Some(|walletId|);
    assert s[..|walletId|] == walletId;
    assert s[|walletId| + 2..] == d;
    NumberRoundTrip(index);
  }

  /** On the ids the wallet builds (plain wallet id, non-negative index) the two parses agree. */
  lemma ParsesAgreeOnPlainIds(walletId: string, index: nat)
    requires PlainBefore(walletId, '-')
    ensures ParseIndexedAccountId(BuildIndexedAccountId(walletId, index))
         == ParseIndexedAccountIdAtLast(BuildIndexedAccountId(walletId, index))
  {
    IndexedAccountIdRoundTrip(walletId, index);
    IndexedAccountIdRoundTripAtLast(walletId, index);
  }

  // ----- HD account ids -----------------------------------------------------

  /** What the UTXO rule removes from the end of an account id. */
  const UTXO_TAIL: string := "/0/0"

  /** The regular expression `/\/0\/0$/i` replaced by `''`: a trailing `/0/0` removed once. */
  function StripUtxoTail(id: string): (r: string)
    ensures EndsWith(id, UTXO_TAIL) ==> r + UTXO_TAIL == id
    ensures !EndsWith(id, UTXO_TAIL) ==> r == id
  {
    if EndsWith(id, UTXO_TAIL) then id[..|id| - |UTXO_TAIL|] else id
  }

  /** `walletId--usedPath`, and `--idSuffix` after it when a suffix is given. */
  function ComposeAccountId(walletId: string, usedPath: string, idSuffix: string): string
  {
    if idSuffix == "" then walletId + SEPERATOR + usedPath
    else walletId + SEPERATOR + usedPath + SEPERATOR + idSuffix
  }

  /** Removing the UTXO tail never reaches into a prefix that ends with `-`. */
  lemma StripKeepsPrefix(prefix: string, rest: string)
    requires |prefix| >= 1 && prefix[|prefix| - 1] == '-'
    ensures StartsWith(StripUtxoTail(prefix + rest), prefix)
  {
    var id := prefix + rest;
    if EndsWith(id, UTXO_TAIL) {
      forall p | |id| - |UTXO_TAIL| <= p < |id|
        ensures id[p] != '-'
      {
        assert id[p] == id[|id| - |UTXO_TAIL|..][p - (|id| - |UTXO_TAIL|)];
      }
      assert id[|prefix| - 1] == '-';
      assert StripUtxoTail(id)[..|prefix|] == id[..|prefix|];
    }
  }

  /**
   * `buildHDAccountId`, as a value: the path wins over the template; a
   * template needs an index (any integer, zero included); the id is
   * `walletId--usedPath[--idSuffix]`, with a trailing `/0/0` removed for UTXO chains.
   */
  function HDAccountId(walletId: string, index: Option<int>, template: string, path: string,
                       idSuffix: string, isUtxo: bool): (r: Result<string, AccountUtilsError>)
    ensures r == Failure(MissingTemplateOrPath) <==> path == "" && template == ""
    ensures r == Failure(MissingIndex) <==> path == "" && template != "" && index.None?
    ensures r.Success? ==> StartsWith(r.value, walletId + SEPERATOR)
  {
    if path == "" && template == "" then Failure(MissingTemplateOrPath)
    else if path == "" && index.None? then Failure(MissingIndex)
    else
      var usedPath := UsedPath(index, template, path);
      var id := ComposeAccountId(walletId, usedPath, idSuffix);
      var rest := if idSuffix == "" then usedPath else usedPath + SEPERATOR + idSuffix;
      assert id == (walletId + SEPERATOR) + rest;
      StripKeepsPrefix(walletId + SEPERATOR, rest);
      Success(if isUtxo then StripUtxoTail(id) else id)
  }

  /** The path actually used: `path` when given, otherwise the rendered template. */
  function UsedPath(index: Option<int>, template: string, path: string): string
    requires path != "" || index.Some?
  {
    if path != "" then path else RenderPath(template, index.value)
  }

  /** Without the UTXO flag the id is exactly the composition, never altered. */
  lemma HDAccountIdStandard(walletId: string, index: Option<int>, template: string, path: string, idSuffix: string)
    requires path != "" || (template != "" && index.Some?)
    ensures HDAccountId(walletId, index, template, path, idSuffix, false).Success?
    ensures idSuffix == "" ==>
      HDAccountId(walletId, index, template, path, idSuffix, false).value
        == walletId + SEPERATOR + UsedPath(index, template, path)
    ensures idSuffix != "" ==>
      HDAccountId(walletId, index, template, path, idSuffix, false).value
        == walletId + SEPERATOR + UsedPath(index, template, path) + SEPERATOR + idSuffix
  {
  }

  /**
   * With the UTXO flag the id is the standard id with one trailing `/0/0`
   * removed when it has one, and the standard id otherwise.
   */
  lemma HDAccountIdUtxo(walletId: string, index: Option<int>, template: string, path: string, idSuffix: string)
    ensures HDAccountId(walletId, index, template, path, idSuffix, true).Success?
        <==> HDAccountId(walletId, index, template, path, idSuffix, false).Success?
    ensures HDAccountId(walletId, index, template, path, idSuffix, false).Success? ==>
      var standard := HDAccountId(walletId, index, template, path, idSuffix, false).value;
      var utxo := HDAccountId(walletId, index, template, path, idSuffix, true).value;
      (EndsWith(standard, UTXO_TAIL) ==> utxo + UTXO_TAIL == standard)
      && (!EndsWith(standard, UTXO_TAIL) ==> utxo == standard)
  {
  }

  /**
   * Without a path, a template `head + placeholder + tail` and a suffix give
   * `walletId--head<index>tail--idSuffix` on a chain that is not UTXO.
   */
  lemma HDAccountIdFromTemplate(walletId: string, index: int, head: string, tail: string, idSuffix: string)
    requires FreeOfPlaceholderMark(head) && idSuffix != ""
    ensures HDAccountId(walletId, Some(index), head + INDEX_PLACEHOLDER + tail, "", idSuffix, false)
         == Success(walletId + SEPERATOR + head + IntToString(index) + tail + SEPERATOR + idSuffix)
  {
    var template := head + INDEX_PLACEHOLDER + tail;
    var path := head + IntToString(index) + tail;
    RenderTemplate(head, tail, index);
    assert UsedPath(Some(index), template, "") == path;
    HDAccountIdStandard(walletId, Some(index), template, "", idSuffix);
    RegroupPath(walletId, head, IntToString(index), tail, idSuffix);
  }

  /** The id composed around the path `head + d + tail`, regrouped. */
  lemma RegroupPath(walletId: string, head: string, d: string, tail: string, idSuffix: string)
    ensures walletId + SEPERATOR + (head + d + tail) + SEPERATOR + idSuffix
         == walletId + SEPERATOR + head + d + tail + SEPERATOR + idSuffix
  {
  }

  /** A given path makes the template and the index irrelevant. */
  lemma HDAccountIdPathWins(walletId: string, path: string, idSuffix: string, isUtxo: bool,
                            index1: Option<int>, template1: string, index2: Option<int>, template2: string)
    requires path != ""
    ensures HDAccountId(walletId, index1, template1, path, idSuffix, isUtxo)
         == HDAccountId(walletId, index2, template2, path, idSuffix, isUtxo)
  {
  }

  /** The wallet id is recovered from every HD account id built under a plain wallet id. */
  lemma HDAccountIdWalletId(walletId: string, index: Option<int>, template: string, path: string,
                            idSuffix: string, isUtxo: bool)
    requires PlainBefore(walletId, '-')
    requires HDAccountId(walletId, index, template, path, idSuffix, isUtxo).Success?
    ensures GetWalletIdFromAccountId(HDAccountId(walletId, index, template, path, idSuffix, isUtxo).value) == walletId
  {
    WalletIdOfPrefixedId(walletId, HDAccountId(walletId, index, template, path, idSuffix, isUtxo).value);
  }

  /** Any id that starts with a plain wallet id and the separator yields that wallet id. */
  lemma WalletIdOfPrefixedId(walletId: string, id: string)
    requires PlainBefore(walletId, '-') && StartsWith(id, walletId + SEPERATOR)
    ensures GetWalletIdFromAccountId(id) == walletId
  {
    var p := walletId + SEPERATOR;
    assert id == p + id[|p|..];
    assert id == walletId + SEPERATOR + id[|p|..];
    WalletIdOfAccountId(walletId, id[|p|..]);
  }

  /** `buildHDAccountId`: the locals `usedPath` and `id` reassigned step by step. */
  method BuildHDAccountId(walletId: string, index: Option<int>, template: string, path: string,
                          idSuffix: string, isUtxo: bool) returns (r: Result<string, AccountUtilsError>)
    ensures r == HDAccountId(walletId, index, template, path, idSuffix, isUtxo)
  {
    var usedPath := path;
    if usedPath == "" {
      if template == "" {
        return Failure(MissingTemplateOrPath);
      }
      if index.None? {
        return Failure(MissingIndex);
      }
      usedPath := ReplaceFirst(template, INDEX_PLACEHOLDER, IntToString(index.value));
    }
    var id := walletId + SEPERATOR + usedPath;
    if idSuffix != "" {
      id := walletId + SEPERATOR + usedPath + SEPERATOR + idSuffix;
    }
    if isUtxo {
      id := StripUtxoTail(id);
    }
    return Success(id);
  }

  // ----- other keys ---------------------------------------------------------

  /** `buildLocalTokenId`: `<networkId>__<tokenIdOnNetwork>`, without escaping. */
  function BuildLocalTokenId(networkId: string, tokenIdOnNetwork: string): (r: string)
    ensures StartsWith(r, networkId + "__") && r[|networkId| + 2..] == tokenIdOnNetwork
  {
    networkId + "__" + tokenIdOnNetwork
  }

  /** Splitting a local token id at `__` gives back its two parts when neither part can blur the boundary. */
  lemma LocalTokenIdSplits(networkId: string, tokenIdOnNetwork: string)
    requires PlainBefore(networkId, '_') && !Contains(tokenIdOnNetwork, "__")
    ensures Split(BuildLocalTokenId(networkId, tokenIdOnNetwork), "__") == [networkId, tokenIdOnNetwork]
  {
    SplitInTwo(BuildLocalTokenId(networkId, tokenIdOnNetwork), networkId, '_', tokenIdOnNetwork);
  }

  /** The scene name the account selector uses inside the dapp browser. */
  const DISCOVER_SCENE: string := "discover"

  /**
   * `buildAccountSelectorSceneId`: the discover scene is keyed by its origin
   * and demands a url that is its own origin; every other scene is keyed by
   * its non-empty name alone.
   */
  function BuildAccountSelectorSceneId(sceneName: string, sceneUrl: string, originOf: string -> string)
    : (r: Result<string, AccountUtilsError>)
    ensures sceneName == DISCOVER_SCENE ==> (r.Success? <==> sceneUrl != "" && originOf(sceneUrl) == sceneUrl)
    ensures sceneName == DISCOVER_SCENE && sceneUrl == "" ==> r == Failure(MissingSceneUrl)
    ensures sceneName == DISCOVER_SCENE && sceneUrl != "" && originOf(sceneUrl) != sceneUrl
            ==> r == Failure(SceneUrlNotOrigin)
    ensures sceneName == DISCOVER_SCENE && r.Success? ==> StartsWith(r.value, DISCOVER_SCENE + SEPERATOR)
    ensures sceneName == DISCOVER_SCENE && r.Success? ==> r.value[|DISCOVER_SCENE + SEPERATOR|..] == sceneUrl
    ensures sceneName != DISCOVER_SCENE ==> (r.Success? <==> sceneName != "")
    ensures sceneName != DISCOVER_SCENE && r.Success? ==> r.value == sceneName
    ensures sceneName == "" ==> r == Failure(MissingSceneName)
  {
    if sceneName == DISCOVER_SCENE then
      if sceneUrl == "" then Failure(MissingSceneUrl)
      else
        var origin := originOf(sceneUrl);
        if origin != sceneUrl then Failure(SceneUrlNotOrigin)
        else
          var id := sceneName + SEPERATOR + origin;
          assert id[|DISCOVER_SCENE + SEPERATOR|..] == sceneUrl;
          Success(id)
    else if sceneName == "" then Failure(MissingSceneName)
    else Success(sceneName)
  }

  /** Distinct discover-scene urls give distinct scene ids. */
  lemma DiscoverSceneIdInjective(url1: string, url2: string, originOf: string -> string)
    requires BuildAccountSelectorSceneId(DISCOVER_SCENE, url1, originOf).Success?
    requires BuildAccountSelectorSceneId(DISCOVER_SCENE, url2, originOf).Success?
    requires BuildAccountSelectorSceneId(DISCOVER_SCENE, url1, originOf)
          == BuildAccountSelectorSceneId(DISCOVER_SCENE, url2, originOf)
    ensures url1 == url2
  {
  }

  // ----- network compatibility ----------------------------------------------

  /**
   * An account may operate on a network when the network's implementation is
   * the account's and, if the account lists networks, the network is listed.
   */
  predicate IsCompatible(account: Account, networkId: string, networkImpl: string -> string)
    ensures IsCompatible(account, networkId, networkImpl) ==> networkImpl(networkId) == account.impl
  {
    networkImpl(networkId) == account.impl && (account.networks == [] || networkId in account.networks)
  }

  /** `isAccountCompatibleWithNetwork`: the whitelist walked in order, returning at the first match. */
  method IsAccountCompatibleWithNetwork(account: Account, networkId: string, networkImpl: string -> string)
    returns (r: Result<bool, AccountUtilsError>)
    ensures networkId == "" ==> r == Failure(MissingNetworkId)
    ensures networkId != "" && account.impl == "" ==> r == Failure(MissingAccountImpl)
    ensures networkId != "" && account.impl != "" ==> r == Success(IsCompatible(account, networkId, networkImpl))
  {
    if networkId == "" {
      return Failure(MissingNetworkId);
    }
    if account.impl == "" {
      return Failure(MissingAccountImpl);
    }
    var impl := networkImpl(networkId);
    if impl != account.impl {
      return Success(false);
    }
    if |account.networks| > 0 {
      for k := 0 to |account.networks|
        invariant networkId !in account.networks[..k]
      {
        if account.networks[k] == networkId {
          return Success(true);
        }
      }
      assert account.networks[..|account.networks|] == account.networks;
      return Success(false);
    }
    return Success(true);
  }

  /** With no whitelist, compatibility is exactly a matching implementation. */
  lemma CompatibleWithoutWhitelist(account: Account, networkId: string, networkImpl: string -> string)
    requires account.networks == []
    ensures IsCompatible(account, networkId, networkImpl) <==> networkImpl(networkId) == account.impl
  {
  }

  /** With a whitelist, only listed networks of the account's implementation are compatible. */
  lemma CompatibleWithWhitelist(account: Account, networkId: string, networkImpl: string -> string)
    requires account.networks != []
    ensures IsCompatible(account, networkId, networkImpl)
        <==> networkImpl(networkId) == account.impl && networkId in account.networks
  {
  }

  /**
   * `getAccountCompatibleNetwork`, as a value: the current network when its
   * implementation is the account's, else the network the account was created
   * on; then, when the account lists networks and the candidate is not among
   * them, the first listed network.
   */
  function ResolvedNetwork(account: Account, networkId: string, networkImpl: string -> string): (r: string)
    ensures account.networks != [] ==> r in account.networks
    ensures account.networks == [] && networkImpl(networkId) == account.impl ==> r == networkId
    ensures account.networks == [] && networkImpl(networkId) != account.impl ==> r == account.createAtNetwork
    ensures account.networks != [] && Candidate(account, networkId, networkImpl) in account.networks
            ==> r == Candidate(account, networkId, networkImpl)
    ensures account.networks != [] && Candidate(account, networkId, networkImpl) !in account.networks
            ==> r == account.networks[0]
    ensures r != networkId && r != account.createAtNetwork ==> account.networks != [] && r == account.networks[0]
  {
    var candidate := Candidate(account, networkId, networkImpl);
    if account.networks != [] && candidate !in account.networks then account.networks[0] else candidate
  }

  /** The network tried first: the current one when its implementation is the account's, else the creation network. */
  function Candidate(account: Account, networkId: string, networkImpl: string -> string): string
  {
    if networkImpl(networkId) == account.impl then networkId else account.createAtNetwork
  }

  /**
   * An `evm` account created on `eth-main` and listing `eth-main` then
   * `polygon` resolves to `eth-main` while a network of another
   * implementation is active.
   */
  lemma ResolvedFallsBackToCreationNetwork(networkId: string, networkImpl: string -> string)
    requires networkImpl(networkId) != "evm"
    ensures ResolvedNetwork(Account("", "evm", ["eth-main", "polygon"], "eth-main"), networkId, networkImpl) == "eth-main"
  {
  }

  /**
   * The whitelist's order decides the fallback: an unlisted candidate gives
   * way to the first listed network, whichever that is.
   */
  lemma ResolvedFallbackIsFirstListed(account: Account, networkId: string, networkImpl: string -> string)
    requires networkImpl(networkId) == account.impl && account.networks != [] && networkId !in account.networks
    ensures ResolvedNetwork(account, networkId, networkImpl) == account.networks[0]
  {
  }

  /** A network the account is compatible with is kept as it is. */
  lemma ResolvedKeepsCompatible(account: Account, networkId: string, networkImpl: string -> string)
    requires IsCompatible(account, networkId, networkImpl)
    ensures ResolvedNetwork(account, networkId, networkImpl) == networkId
  {
  }

  /**
   * When every listed network has the account's implementation, the
   * resolved network is one the account is compatible with.
   */
  lemma ResolvedIsCompatible(account: Account, networkId: string, networkImpl: string -> string)
    requires account.networks != []
    requires forall k :: 0 <= k < |account.networks| ==> networkImpl(account.networks[k]) == account.impl
    ensures IsCompatible(account, ResolvedNetwork(account, networkId, networkImpl), networkImpl)
  {
    var r := ResolvedNetwork(account, networkId, networkImpl);
    var k :| 0 <= k < |account.networks| && account.networks[k] == r;
  }

  /** `getAccountCompatibleNetwork`: the local `accountNetworkId` overwritten step by step. */
  method GetAccountCompatibleNetwork(account: Account, networkId: string, networkImpl: string -> string)
    returns (r: string)
    ensures r == ResolvedNetwork(account, networkId, networkImpl)
  {
    var accountNetworkId := networkId;
    var activeNetworkImpl := networkImpl(networkId);
    if activeNetworkImpl != account.impl {
      accountNetworkId := account.createAtNetwork;
    }
    if |account.networks| > 0 {
      if accountNetworkId !in account.networks {
        accountNetworkId := account.networks[0];
      }
    }
    return accountNetworkId;
  }
}
