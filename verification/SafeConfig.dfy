/** The audited safes and tokens. The configuration is fixed for the life of a database. */
module SafeConfig {
  import opened Wrappers
  import opened Numbers
  import opened EthDataTypes

  const FUNCTION_SIG_LEN := 4

  type FunctionSig = s: seq<U8> | |s| == FUNCTION_SIG_LEN witness [0, 0, 0, 0]

  datatype AuditedToken = AuditedToken(
    tokenId: U64,
    ethTokenContractAddrs: seq<EthAddr>,
    decimals: U8,
    auxBurnContractAddr: EthAddr,
    auxBurnFunctionSig: FunctionSig)

  datatype AuditedSafe = AuditedSafe(safeAddr: EthAddr, tokens: seq<AuditedToken>, tokenDecimalsMax: U8)

  datatype Config = Config(safes: seq<AuditedSafe>)

  predicate ContainsAddr(addrs: seq<EthAddr>, addr: EthAddr) {
    exists i :: 0 <= i < |addrs| && SameAddr(addrs[i], addr)
  }

  /** The first token that lists the contract address. */
  function FindToken(tokens: seq<AuditedToken>, addr: EthAddr): (r: Option<AuditedToken>)
    ensures r.Some? ==> r.value in tokens && ContainsAddr(r.value.ethTokenContractAddrs, addr)
    ensures r.None? ==> forall t :: t in tokens ==> !ContainsAddr(t.ethTokenContractAddrs, addr)
  {
    if tokens == [] then None
    else if ContainsAddr(tokens[0].ethTokenContractAddrs, addr) then Some(tokens[0])
    else FindToken(tokens[1..], addr)
  }

  /** The first safe with the address. */
  function FindSafe(safes: seq<AuditedSafe>, addr: EthAddr): (r: Option<AuditedSafe>)
    ensures r.Some? ==> r.value in safes && SameAddr(r.value.safeAddr, addr)
    ensures r.None? ==> forall s :: s in safes ==> !SameAddr(s.safeAddr, addr)
  {
    if safes == [] then None
    else if SameAddr(safes[0].safeAddr, addr) then Some(safes[0])
    else FindSafe(safes[1..], addr)
  }

  /** The token lists the contract address, in whatever case. */
  ghost predicate Lists(token: AuditedToken, addr: EthAddr) {
    exists i :: 0 <= i < |token.ethTokenContractAddrs| && SameAddr(token.ethTokenContractAddrs[i], addr)
  }

  /** The token is the first one that lists the contract address. */
  ghost predicate FirstListing(tokens: seq<AuditedToken>, addr: EthAddr, token: AuditedToken) {
    exists k :: 0 <= k < |tokens| && tokens[k] == token && Lists(token, addr)
                && forall j :: 0 <= j < k ==> !Lists(tokens[j], addr)
  }

  lemma {:induction false} FindTokenExactlyWhen(tokens: seq<AuditedToken>, addr: EthAddr, token: AuditedToken)
    ensures FindToken(tokens, addr) == Some(token) <==> FirstListing(tokens, addr, token)
    ensures FindToken(tokens, addr) == None <==> forall k :: 0 <= k < |tokens| ==> !Lists(tokens[k], addr)
  {
    if tokens != [] {
      assert ContainsAddr(tokens[0].ethTokenContractAddrs, addr) <==> Lists(tokens[0], addr);
      var rest := tokens[1..];
      FindTokenExactlyWhen(rest, addr, token);
      if !Lists(tokens[0], addr) {
        ListingLater(tokens, addr, token);
      }
    }
  }

  lemma ListingLater(tokens: seq<AuditedToken>, addr: EthAddr, token: AuditedToken)
    requires tokens != [] && !Lists(tokens[0], addr)
    ensures FirstListing(tokens, addr, token) <==> FirstListing(tokens[1..], addr, token)
    ensures (forall k :: 0 <= k < |tokens| ==> !Lists(tokens[k], addr)) <==>
            forall k :: 0 <= k < |tokens[1..]| ==> !Lists(tokens[1..][k], addr)
  {
    var rest := tokens[1..];
    assert forall k :: 0 <= k < |rest| ==> rest[k] == tokens[k + 1];
    assert forall k :: 1 <= k < |tokens| ==> tokens[k] == rest[k - 1];
    if k :| 0 <= k < |tokens| && tokens[k] == token && Lists(token, addr)
            && forall j :: 0 <= j < k ==> !Lists(tokens[j], addr) {
      assert rest[k - 1] == token;
    }
    if k :| 0 <= k < |rest| && rest[k] == token && Lists(token, addr)
            && forall j :: 0 <= j < k ==> !Lists(rest[j], addr) {
      assert tokens[k + 1] == token;
    }
  }

  /** The safe is the first one with the address. */
  ghost predicate FirstAt(safes: seq<AuditedSafe>, addr: EthAddr, safe: AuditedSafe) {
    exists k :: 0 <= k < |safes| && safes[k] == safe && SameAddr(safe.safeAddr, addr)
                && forall j :: 0 <= j < k ==> !SameAddr(safes[j].safeAddr, addr)
  }

  lemma {:induction false} FindSafeExactlyWhen(safes: seq<AuditedSafe>, addr: EthAddr, safe: AuditedSafe)
    ensures FindSafe(safes, addr) == Some(safe) <==> FirstAt(safes, addr, safe)
    ensures FindSafe(safes, addr) == None <==> forall k :: 0 <= k < |safes| ==> !SameAddr(safes[k].safeAddr, addr)
  {
    if safes != [] {
      FindSafeExactlyWhen(safes[1..], addr, safe);
      if !SameAddr(safes[0].safeAddr, addr) {
        AddressLater(safes, addr, safe);
      }
    }
  }

  lemma AddressLater(safes: seq<AuditedSafe>, addr: EthAddr, safe: AuditedSafe)
    requires safes != [] && !SameAddr(safes[0].safeAddr, addr)
    ensures FirstAt(safes, addr, safe) <==> FirstAt(safes[1..], addr, safe)
    ensures (forall k :: 0 <= k < |safes| ==> !SameAddr(safes[k].safeAddr, addr)) <==>
            forall k :: 0 <= k < |safes[1..]| ==> !SameAddr(safes[1..][k].safeAddr, addr)
  {
    var rest := safes[1..];
    assert forall k :: 0 <= k < |rest| ==> rest[k] == safes[k + 1];
    assert forall k :: 1 <= k < |safes| ==> safes[k] == rest[k - 1];
    if k :| 0 <= k < |safes| && safes[k] == safe && SameAddr(safe.safeAddr, addr)
            && forall j :: 0 <= j < k ==> !SameAddr(safes[j].safeAddr, addr) {
      assert rest[k - 1] == safe;
    }
    if k :| 0 <= k < |rest| && rest[k] == safe && SameAddr(safe.safeAddr, addr)
            && forall j :: 0 <= j < k ==> !SameAddr(rest[j].safeAddr, addr) {
      assert safes[k + 1] == safe;
    }
  }

  /** No two configured safes share an address. */
  ghost predicate DistinctSafes(config: Config) {
    forall i, j :: 0 <= i < j < |config.safes| ==> !SameAddr(config.safes[i].safeAddr, config.safes[j].safeAddr)
  }

  /** With distinct safes, the lookup by address returns the very safe whose thread stored the row. */
  lemma FindSafeOfThread(config: Config, safe: AuditedSafe, addr: EthAddr)
    requires DistinctSafes(config) && safe in config.safes && SameAddr(addr, safe.safeAddr)
    ensures FindSafe(config.safes, addr) == Some(safe)
  {
    var found := FindSafe(config.safes, addr);
    assert SameAddr(safe.safeAddr, addr);
    var i :| 0 <= i < |config.safes| && config.safes[i] == safe;
    var j :| 0 <= j < |config.safes| && config.safes[j] == found.value;
    assert SameAddr(safe.safeAddr, found.value.safeAddr);
    assert SameAddr(found.value.safeAddr, safe.safeAddr);
  }
}
