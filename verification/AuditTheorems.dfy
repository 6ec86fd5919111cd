/** What the audit tables mean in every reachable state, in terms of ledger and Ethereum data alone. */
module AuditTheorems {
  import opened Wrappers
  import opened EthDataTypes
  import opened SafeConfig
  import opened Tables
  import opened Runs
  import opened GnosisInvariant
  import MI = MintAuditInvariant
  import BI = BurnAuditInvariant
  import MintTxNonce
  import Hex

  /* Mints */

  /** The audited token of a safe's deposit, by the configuration. */
  ghost predicate TokenOf(config: Config, safeAddr: EthAddr, tokenAddr: EthAddr, token: AuditedToken) {
    exists safe :: safe in config.safes && SameAddr(safeAddr, safe.safeAddr)
                   && FindToken(safe.tokens, tokenAddr) == Some(token)
  }

  /** The mint names the deposit's transaction in its nonce, and issues the audited token in the deposited amount. */
  ghost predicate Backs(config: Config, d: Deposit, m: MintTx) {
    && m.core.nonce == MintTxNonce.Bytes(d.ethTxHash)
    && m.core.amount == d.amount
    && exists token :: TokenOf(config, d.safeAddr, d.tokenAddr, token) && token.tokenId == m.core.tokenId
  }

  lemma BacksIsPairs(config: Config, d: Deposit, m: MintTx)
    requires DistinctSafes(config) && MI.DepositOk(config, d) && m.nonceHex == Hex.Encode(m.core.nonce)
    ensures Backs(config, d, m) <==> MI.Pairs(config, m, d)
  {
    var safe := FindSafe(config.safes, d.safeAddr).value;
    var token := FindToken(safe.tokens, d.tokenAddr).value;
    assert SameAddr(d.safeAddr, safe.safeAddr);
    assert TokenOf(config, d.safeAddr, d.tokenAddr, token);
    forall other | TokenOf(config, d.safeAddr, d.tokenAddr, other)
      ensures other == token
    {
      var s :| s in config.safes && SameAddr(d.safeAddr, s.safeAddr) && FindToken(s.tokens, d.tokenAddr) == Some(other);
      FindSafeOfThread(config, s, d.safeAddr);
    }
    if m.nonceHex == d.expectedNonceHex {
      Hex.EncodeInjective(m.core.nonce, MintTxNonce.Bytes(d.ethTxHash));
    }
  }

  /**
    * The mint audit is exact: whatever the interleaving, a mint and a deposit are in the audit table if and only
    * if the deposit backs the mint.
    */
  lemma MintAuditIsExact(o: Oracles, config: Config, events: seq<Event>, i: nat, j: nat)
    requires DistinctSafes(config)
    requires i < |Run(o, config, events).ledger.mintTxs| && j < |Run(o, config, events).gnosis.deposits|
    ensures var st := Run(o, config, events);
            AuditedMint(i, j) in st.mintAudit.auditedMints
            <==> Backs(config, st.gnosis.deposits[j], st.ledger.mintTxs[i])
  {
    RunOk(o, config, events);
    var st := Run(o, config, events);
    BacksIsPairs(config, st.gnosis.deposits[j], st.ledger.mintTxs[i]);
    InRowPairs(st.mintAudit.auditedMints, i, j);
  }

  lemma InRowPairs(rows: seq<AuditedMint>, i: nat, j: nat)
    ensures AuditedMint(i, j) in rows <==> (i, j) in MI.RowPairs(rows)
  {
    if r :| r in rows && (r.mintTxId, r.depositId) == (i, j) {
      assert r == AuditedMint(i, j);
    }
  }

  lemma {:induction false} AsManyRowsAsPairs(rows: seq<AuditedMint>)
    ensures |MI.RowPairs(rows)| <= |rows|
    ensures |MI.RowPairs(rows)| == |rows| ==> forall k, l :: 0 <= k < l < |rows| ==> rows[k] != rows[l]
  {
    if rows != [] {
      var front, last := rows[..|rows| - 1], rows[|rows| - 1];
      AsManyRowsAsPairs(front);
      assert rows == front + [last];
      MI.RowPairsAppend(front, last);
      if last in front {
        assert (last.mintTxId, last.depositId) in MI.RowPairs(front);
        assert MI.RowPairs(rows) == MI.RowPairs(front);
      }
    }
  }

  /** No mint is audited against two deposits, no deposit against two mints, and no pair is recorded twice. */
  lemma MintAuditIsOneToOne(o: Oracles, config: Config, events: seq<Event>, k: nat, l: nat)
    requires DistinctSafes(config) && k < l < |Run(o, config, events).mintAudit.auditedMints|
    ensures var rows := Run(o, config, events).mintAudit.auditedMints;
            rows[k].mintTxId != rows[l].mintTxId && rows[k].depositId != rows[l].depositId
  {
    RunOk(o, config, events);
    var st := Run(o, config, events);
    var rows, mints, deposits := st.mintAudit.auditedMints, st.ledger.mintTxs, st.gnosis.deposits;
    AsManyRowsAsPairs(rows);
    MI.RowIsGood(config, mints, deposits, rows, k);
    MI.RowIsGood(config, mints, deposits, rows, l);
    if rows[k].mintTxId == rows[l].mintTxId {
      MI.OneTwinDeposit(config, deposits, mints[rows[k].mintTxId], rows[k].depositId, rows[l].depositId);
    }
  }

  /** The mints and deposits that name each other but disagree on token or amount. */
  ghost function Disagreeing(config: Config, mints: seq<MintTx>, deposits: seq<Deposit>): set<(nat, nat)> {
    set i: nat, j: nat | i < |mints| && j < |deposits|
                         && mints[i].core.nonce == MintTxNonce.Bytes(deposits[j].ethTxHash)
                         && !Backs(config, deposits[j], mints[i]) :: (i, j)
  }

  lemma DisagreeingIsBad(config: Config, mints: seq<MintTx>, deposits: seq<Deposit>)
    requires DistinctSafes(config) && MI.DepositsOk(config, deposits) && NoncesOk(mints)
    ensures Disagreeing(config, mints, deposits) == MI.BadPairs(config, mints, deposits)
  {
    forall i: nat, j: nat
      ensures (i, j) in Disagreeing(config, mints, deposits) <==> (i, j) in MI.BadPairs(config, mints, deposits)
    {
      if i < |mints| && j < |deposits| {
        BacksIsPairs(config, deposits[j], mints[i]);
        NamesIsTwins(mints[i], deposits[j]);
      }
    }
  }

  /** The mismatch counter counts exactly the disagreeing pairs; unknown tokens and unknown safes are never counted. */
  lemma MintCountersMean(o: Oracles, config: Config, events: seq<Event>)
    requires DistinctSafes(config)
    ensures var st := Run(o, config, events);
            && st.mintAudit.numMismatchingMintsAndDeposits
               == |Disagreeing(config, st.ledger.mintTxs, st.gnosis.deposits)|
            && st.mintAudit.numUnknownEthereumTokenDeposits == 0
            && st.mintAudit.numMintsToUnknownSafe == 0
            && st.burnAudit.numUnknownEthereumTokenWithdrawals == 0
            && st.burnAudit.numBurnsFromUnknownSafe == 0
  {
    RunOk(o, config, events);
    var st := Run(o, config, events);
    DisagreeingIsBad(config, st.ledger.mintTxs, st.gnosis.deposits);
  }

  lemma NamesIsTwins(m: MintTx, d: Deposit)
    requires m.nonceHex == Hex.Encode(m.core.nonce) && d.expectedNonceHex == MintTxNonce.ExpectedNonceHex(d.ethTxHash)
    ensures MI.Twins(m, d) <==> m.core.nonce == MintTxNonce.Bytes(d.ethTxHash)
  {
    if m.nonceHex == d.expectedNonceHex {
      Hex.EncodeInjective(m.core.nonce, MintTxNonce.Bytes(d.ethTxHash));
    }
  }

  /** The pairing as data: which nonce is matched with which Ethereum transaction. */
  ghost function Pairing(st: State): set<(string, EthTxHash)> {
    set r | r in st.mintAudit.auditedMints && r.mintTxId < |st.ledger.mintTxs| && r.depositId < |st.gnosis.deposits| ::
      (st.ledger.mintTxs[r.mintTxId].nonceHex, st.gnosis.deposits[r.depositId].ethTxHash)
  }

  /** Every mint and every deposit of the first database is also in the second, at whatever position and block. */
  ghost predicate Includes(s: State, t: State) {
    && (forall i :: 0 <= i < |s.ledger.mintTxs| ==> HasMint(t, s.ledger.mintTxs[i].core))
    && (forall j :: 0 <= j < |s.gnosis.deposits| ==> s.gnosis.deposits[j] in t.gnosis.deposits)
  }

  ghost predicate HasMint(st: State, core: CoreMintTx) {
    exists i :: 0 <= i < |st.ledger.mintTxs| && st.ledger.mintTxs[i].core == core
  }

  lemma PairWithin(config: Config, s: State, t: State, i: nat, j: nat)
    requires AuditsOk(config, t) && Includes(s, t)
    requires NoncesOk(s.ledger.mintTxs) && NoncesOk(t.ledger.mintTxs)
    requires i < |s.ledger.mintTxs| && j < |s.gnosis.deposits|
    requires MI.Pairs(config, s.ledger.mintTxs[i], s.gnosis.deposits[j])
    ensures (s.ledger.mintTxs[i].nonceHex, s.gnosis.deposits[j].ethTxHash) in Pairing(t)
  {
    var m, d := s.ledger.mintTxs[i], s.gnosis.deposits[j];
    assert HasMint(t, m.core);
    var k: nat :| k < |t.ledger.mintTxs| && t.ledger.mintTxs[k].core == m.core;
    var l: nat :| l < |t.gnosis.deposits| && t.gnosis.deposits[l] == d;
    assert t.ledger.mintTxs[k].nonceHex == m.nonceHex;
    assert MI.Pairs(config, t.ledger.mintTxs[k], d);
    assert (k, l) in MI.GoodPairs(config, t.ledger.mintTxs, t.gnosis.deposits);
    InRowPairs(t.mintAudit.auditedMints, k, l);
    assert AuditedMint(k, l) in t.mintAudit.auditedMints;
  }

  ghost predicate NoncesOk(mints: seq<MintTx>) {
    forall i :: 0 <= i < |mints| ==> mints[i].nonceHex == Hex.Encode(mints[i].core.nonce)
  }

  lemma PairingIncluded(config: Config, s: State, t: State)
    requires AuditsOk(config, s) && AuditsOk(config, t) && Includes(s, t)
    requires NoncesOk(s.ledger.mintTxs) && NoncesOk(t.ledger.mintTxs)
    ensures Pairing(s) <= Pairing(t)
  {
    forall p | p in Pairing(s)
      ensures p in Pairing(t)
    {
      var r :| r in s.mintAudit.auditedMints && r.mintTxId < |s.ledger.mintTxs| && r.depositId < |s.gnosis.deposits|
               && p == (s.ledger.mintTxs[r.mintTxId].nonceHex, s.gnosis.deposits[r.depositId].ethTxHash);
      var k :| 0 <= k < |s.mintAudit.auditedMints| && s.mintAudit.auditedMints[k] == r;
      MI.RowIsGood(config, s.ledger.mintTxs, s.gnosis.deposits, s.mintAudit.auditedMints, k);
      PairWithin(config, s, t, r.mintTxId, r.depositId);
    }
  }

  lemma RunAuditsOk(o: Oracles, config: Config, events: seq<Event>)
    requires DistinctSafes(config)
    ensures AuditsOk(config, Run(o, config, events)) && NoncesOk(Run(o, config, events).ledger.mintTxs)
  {
    RunOk(o, config, events);
  }

  /** Two runs that stored the same mints and deposits, in whatever order and blocks, pair them identically. */
  lemma PairingDependsOnContentOnly(o: Oracles, config: Config, one: seq<Event>, two: seq<Event>)
    requires DistinctSafes(config)
    requires Includes(Run(o, config, one), Run(o, config, two)) && Includes(Run(o, config, two), Run(o, config, one))
    ensures Pairing(Run(o, config, one)) == Pairing(Run(o, config, two))
  {
    RunAuditsOk(o, config, one);
    RunAuditsOk(o, config, two);
    PairingIncluded(config, Run(o, config, one), Run(o, config, two));
    PairingIncluded(config, Run(o, config, two), Run(o, config, one));
  }

  /* Burns */

  /** Key, amount and audited token of a burn and a withdrawal agree. */
  ghost predicate Covers(config: Config, b: BurnTxOut, w: Withdrawal) {
    && b.publicKeyHex == w.publicKeyHex
    && b.amount == w.amount
    && exists token :: TokenOf(config, w.safeAddr, w.tokenAddr, token) && token.tokenId == b.tokenId
  }

  lemma CoversIsPairs(config: Config, b: BurnTxOut, w: Withdrawal)
    requires DistinctSafes(config) && BI.WithdrawalOk(config, w)
    ensures Covers(config, b, w) <==> BI.Pairs(config, b, w)
  {
    var safe := FindSafe(config.safes, w.safeAddr).value;
    var token := FindToken(safe.tokens, w.tokenAddr).value;
    assert SameAddr(w.safeAddr, safe.safeAddr);
    assert TokenOf(config, w.safeAddr, w.tokenAddr, token);
    forall other | TokenOf(config, w.safeAddr, w.tokenAddr, other)
      ensures other == token
    {
      var s :| s in config.safes && SameAddr(w.safeAddr, s.safeAddr) && FindToken(s.tokens, w.tokenAddr) == Some(other);
      FindSafeOfThread(config, s, w.safeAddr);
    }
  }

  /**
    * The burn audit is sound and one-to-one for any number of withdrawals per key, and exact for every withdrawal
    * whose key no other withdrawal carries.
    */
  lemma BurnAuditIsSound(o: Oracles, config: Config, events: seq<Event>)
    requires DistinctSafes(config)
    ensures var st := Run(o, config, events);
            && (forall k :: 0 <= k < |st.burnAudit.auditedBurns| ==>
                  && st.burnAudit.auditedBurns[k].burnTxOutId < |st.ledger.burnTxOuts|
                  && st.burnAudit.auditedBurns[k].withdrawalId < |st.gnosis.withdrawals|
                  && Covers(config, st.ledger.burnTxOuts[st.burnAudit.auditedBurns[k].burnTxOutId],
                            st.gnosis.withdrawals[st.burnAudit.auditedBurns[k].withdrawalId]))
            && BI.OneToOne(st.burnAudit.auditedBurns)
  {
    RunOk(o, config, events);
    var st := Run(o, config, events);
    forall k | 0 <= k < |st.burnAudit.auditedBurns|
      ensures Covers(config, st.ledger.burnTxOuts[st.burnAudit.auditedBurns[k].burnTxOutId],
                     st.gnosis.withdrawals[st.burnAudit.auditedBurns[k].withdrawalId])
    {
      CoversIsPairs(config, st.ledger.burnTxOuts[st.burnAudit.auditedBurns[k].burnTxOutId],
                    st.gnosis.withdrawals[st.burnAudit.auditedBurns[k].withdrawalId]);
    }
  }

  lemma BurnAuditIsExactOnSoleKeys(o: Oracles, config: Config, events: seq<Event>, i: nat, j: nat)
    requires DistinctSafes(config)
    requires i < |Run(o, config, events).ledger.burnTxOuts| && j < |Run(o, config, events).gnosis.withdrawals|
    requires BI.SoleCarrier(Run(o, config, events).gnosis.withdrawals, j)
    ensures var st := Run(o, config, events);
            AuditedBurn(i, j) in st.burnAudit.auditedBurns
            <==> Covers(config, st.ledger.burnTxOuts[i], st.gnosis.withdrawals[j])
  {
    RunOk(o, config, events);
    var st := Run(o, config, events);
    CoversIsPairs(config, st.ledger.burnTxOuts[i], st.gnosis.withdrawals[j]);
    if AuditedBurn(i, j) in st.burnAudit.auditedBurns {
      var k :| 0 <= k < |st.burnAudit.auditedBurns| && st.burnAudit.auditedBurns[k] == AuditedBurn(i, j);
    }
  }
}
