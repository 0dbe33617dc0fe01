/**
 * Entities and pure rules of the certificate provider of the deploy web app:
 * the chain certificates listed for an owner, the certificates opened from the
 * locally stored wallets, and the decisions the provider takes over them
 * (decoding the list, reconciling local and chain state, updating a wallet
 * record, composing transaction messages).
 */
module CertificateModel {

  import opened Options

  /** Display metadata that `getCertPem` derives from a certificate's PEM text. */
  datatype CertInfo = CertInfo(
    hSerial: string, sIssuer: string, sSubject: string,
    sNotBefore: string, sNotAfter: string, issuedOn: int, expiresOn: int)

  /** The `certificate` member of a chain record: base64 certificate, public key, state. */
  datatype CertificateBody = CertificateBody(cert: string, pubkey: string, state: string)

  /** An entry of the REST certificate list, as received. */
  datatype RestCertificate = RestCertificate(serial: string, certificate: CertificateBody)

  /** A listed certificate after decoding: the REST entry plus `parsed` (the PEM text) and `pem` (metadata). */
  datatype ChainCertificate = ChainCertificate(serial: string, parsed: string, pem: CertInfo, certificate: CertificateBody)

  /** What `openCert` yields for a stored certificate and encrypted key. */
  datatype OpenedCert = OpenedCert(certPem: string, keyPem: string)

  /** An opened local certificate tagged with its wallet's address. */
  datatype LocalCert = LocalCert(certPem: string, keyPem: string, address: string)

  /** A persisted wallet record; `cert` and `certKey` are `undefined` when absent. */
  datatype StorageWallet = StorageWallet(address: string, name: string, cert: Option<string>, certKey: Option<string>)

  /** The result of `generateCertificate`. */
  datatype GeneratedCert = GeneratedCert(crtpem: string, pubpem: string, encryptedKey: string)

  /** The two transaction messages the provider composes. */
  datatype TxMessage =
    | CreateCertificateMsg(owner: string, cert: string, pubkey: string)
    | RevokeCertificateMsg(owner: string, serial: string)

  /** The answer to the certificate list request: the `certificates` member (possibly missing), or a failed request. */
  datatype CertificatesResponse = Listed(certificates: Option<seq<RestCertificate>>) | RequestFailed

  /** What `signAndBroadcastTx` does: resolve truthy, resolve falsy, or throw. */
  datatype Broadcast = Truthy | Falsy | Thrown

  /** How an operation ends for its caller: it returns, or the error is re-thrown. */
  datatype Completion = Returned | Threw

  // The foreign calls; `None` stands for the call throwing.
  type Base64Decoder = string -> Option<string>
  type PemReader = string -> Option<CertInfo>
  type CertOpener = (Option<string>, Option<string>) -> Option<OpenedCert>

  // ---------------------------------------------------------------------------
  // Array.prototype.find

  /** The first element satisfying `p`, as `Array.prototype.find` returns it. */
  function Find<T>(s: seq<T>, p: T -> bool): (r: Option<T>)
    ensures r.None? <==> forall i :: 0 <= i < |s| ==> !p(s[i])
    ensures r.Some? ==> exists i :: 0 <= i < |s| && s[i] == r.value && p(s[i]) && forall j :: 0 <= j < i ==> !p(s[j])
  {
    if s == [] then None
    else if p(s[0]) then Some(s[0])
    else
      var r := Find(s[1..], p);
      assert r.Some? ==> exists i :: 1 <= i < |s| && s[i] == r.value && p(s[i]) && forall j :: 0 <= j < i ==> !p(s[j]) by {
        if r.Some? {
          var i :| 0 <= i < |s[1..]| && s[1..][i] == r.value && p(s[1..][i]) && forall j :: 0 <= j < i ==> !p(s[1..][j]);
          assert forall j :: 1 <= j < i + 1 ==> !p(s[j]) by {
            forall j | 1 <= j < i + 1 ensures !p(s[j]) { assert s[j] == s[1..][j - 1]; }
          }
        }
      }
      r
  }

  /** The predicate `x => x.parsed === pem`. */
  function ParsedIs(pem: string): ChainCertificate -> bool {
    (c: ChainCertificate) => c.parsed == pem
  }

  /** The predicate `x => x.parsed === pem && serial === x.serial`. */
  function ParsedAndSerialAre(pem: string, serial: string): ChainCertificate -> bool {
    (c: ChainCertificate) => c.parsed == pem && c.serial == serial
  }

  /** `c` is the first certificate of `certs` whose decoded PEM is `pem`. */
  ghost predicate FirstWithPem(certs: seq<ChainCertificate>, pem: string, c: ChainCertificate) {
    exists i :: 0 <= i < |certs| && certs[i] == c && c.parsed == pem && forall j :: 0 <= j < i ==> certs[j].parsed != pem
  }

  lemma FindParsed(certs: seq<ChainCertificate>, pem: string)
    ensures Find(certs, ParsedIs(pem)).None? <==> forall i :: 0 <= i < |certs| ==> certs[i].parsed != pem
    ensures Find(certs, ParsedIs(pem)).Some? ==> FirstWithPem(certs, pem, Find(certs, ParsedIs(pem)).value)
  {
  }

  // ---------------------------------------------------------------------------
  // Decoding the certificate list (the `.map` of loadValidCertificates)

  /** `atob` and `getCertPem` both succeed on the entry. */
  predicate Decodable(e: RestCertificate, atob: Base64Decoder, getCertPem: PemReader) {
    atob(e.certificate.cert).Some? && getCertPem(atob(e.certificate.cert).value).Some?
  }

  /** `c` is `e` spread, with `parsed` the decoded certificate and `pem` its metadata. */
  ghost predicate DecodedFrom(c: ChainCertificate, e: RestCertificate, atob: Base64Decoder, getCertPem: PemReader) {
    && c.serial == e.serial
    && c.certificate == e.certificate
    && atob(e.certificate.cert) == Some(c.parsed)
    && getCertPem(c.parsed) == Some(c.pem)
  }

  /** One entry: `parsed = atob(cert.certificate.cert)`, `pem = getCertPem(parsed)`, `{...cert, parsed, pem}`. */
  function DecodeEntry(e: RestCertificate, atob: Base64Decoder, getCertPem: PemReader): (r: Option<ChainCertificate>)
    ensures r.Some? <==> Decodable(e, atob, getCertPem)
    ensures r.Some? ==> DecodedFrom(r.value, e, atob, getCertPem)
  {
    match atob(e.certificate.cert)
    case None => None
    case Some(parsed) =>
      match getCertPem(parsed)
      case None => None
      case Some(pem) => Some(ChainCertificate(e.serial, parsed, pem, e.certificate))
  }

  /**
   * The whole `.map`: every entry decoded, in order, or `None` when a foreign
   * call throws on some entry (which aborts the map).
   */
  function DecodeCertificates(entries: seq<RestCertificate>, atob: Base64Decoder, getCertPem: PemReader): (r: Option<seq<ChainCertificate>>)
    ensures r.None? <==> exists i :: 0 <= i < |entries| && !Decodable(entries[i], atob, getCertPem)
    ensures r.Some? ==> |r.value| == |entries|
    ensures r.Some? ==> forall i :: 0 <= i < |entries| ==> DecodedFrom(r.value[i], entries[i], atob, getCertPem)
  {
    if entries == [] then Some([])
    else
      match DecodeEntry(entries[0], atob, getCertPem)
      case None => None
      case Some(c) =>
        var rest := DecodeCertificates(entries[1..], atob, getCertPem);
        assert rest.None? ==> exists i :: 0 <= i < |entries| && !Decodable(entries[i], atob, getCertPem) by {
          if rest.None? {
            var i :| 0 <= i < |entries[1..]| && !Decodable(entries[1..][i], atob, getCertPem);
            assert entries[i + 1] == entries[1..][i];
          }
        }
        if rest.None? then None else Some([c] + rest.value)
  }

  /** The `certificates` member of a listed response, `[]` when missing (`|| []`) or when the request failed. */
  function EntriesOf(response: CertificatesResponse): seq<RestCertificate> {
    match response
    case Listed(Some(entries)) => entries
    case _ => []
  }

  /**
   * What `loadValidCertificates` obtains from the response: `None` for the
   * path that ends in the `catch` (a failed request, or a foreign call that
   * throws on some entry), otherwise every entry of the response decoded, in
   * response order; a missing `certificates` member is the empty list.
   */
  function FetchCertificates(response: CertificatesResponse, atob: Base64Decoder, getCertPem: PemReader): (r: Option<seq<ChainCertificate>>)
    ensures r.None? <==>
      (response.RequestFailed? || exists i :: 0 <= i < |EntriesOf(response)| && !Decodable(EntriesOf(response)[i], atob, getCertPem))
    ensures r.Some? ==> |r.value| == |EntriesOf(response)|
    ensures r.Some? ==> forall i :: 0 <= i < |EntriesOf(response)| ==> DecodedFrom(r.value[i], EntriesOf(response)[i], atob, getCertPem)
  {
    match response
    case RequestFailed => None
    case Listed(None) =>
      assert EntriesOf(response) == [];
      Some([])
    case Listed(Some(entries)) =>
      assert EntriesOf(response) == entries;
      DecodeCertificates(entries, atob, getCertPem)
  }

  /** The list `loadValidCertificates` returns: the fetched list, or `[]` from the `catch`. */
  function ReturnedCertificates(fetched: Option<seq<ChainCertificate>>): seq<ChainCertificate> {
    match fetched
    case Some(certs) => certs
    case None => []
  }

  // ---------------------------------------------------------------------------
  // The reconciliation effect

  /** The two states the reconciliation effect writes. */
  datatype Reconciliation = Reconciliation(selected: Option<ChainCertificate>, matching: bool)

  /**
   * The effect on `[selectedCertificate, localCert, validCertificates]`: with
   * no selection it auto-selects the first valid certificate whose PEM is the
   * local one; with a selection it only decides whether the selection pairs
   * with the local PEM.
   */
  function Reconcile(valid: seq<ChainCertificate>, local: Option<LocalCert>, selected: Option<ChainCertificate>): (r: Reconciliation)
    ensures |valid| == 0 || local.None? ==> r == Reconciliation(selected, false)
    ensures selected.Some? ==> r.selected == selected
    ensures selected.Some? ==>
      (r.matching <==> local.Some? && exists i :: 0 <= i < |valid| && valid[i].parsed == local.value.certPem && valid[i].serial == selected.value.serial)
    ensures selected.None? ==> (r.matching <==> local.Some? && exists i :: 0 <= i < |valid| && valid[i].parsed == local.value.certPem)
    ensures selected.None? ==> (r.selected.Some? <==> r.matching)
    ensures selected.None? && r.selected.Some? ==> local.Some? && FirstWithPem(valid, local.value.certPem, r.selected.value)
  {
    if |valid| > 0 && local.Some? then
      var current := Find(valid, ParsedIs(local.value.certPem));
      FindParsed(valid, local.value.certPem);
      if selected.None? && current.Some? then Reconciliation(current, true)
      else
        var paired := if selected.Some? then Find(valid, ParsedAndSerialAre(local.value.certPem, selected.value.serial)) else None;
        assert selected.Some? ==> (paired.Some? <==> exists i :: 0 <= i < |valid| && valid[i].parsed == local.value.certPem && valid[i].serial == selected.value.serial) by {
          if selected.Some? {
            var p := ParsedAndSerialAre(local.value.certPem, selected.value.serial);
            assert forall i :: 0 <= i < |valid| ==> (p(valid[i]) <==> valid[i].parsed == local.value.certPem && valid[i].serial == selected.value.serial);
          }
        }
        Reconciliation(selected, paired.Some?)
    else Reconciliation(selected, false)
  }

  /** Re-running the effect after its own auto-selection changes nothing: the effect reaches a fixed point. */
  lemma ReconcileIdempotent(valid: seq<ChainCertificate>, local: Option<LocalCert>, selected: Option<ChainCertificate>)
    ensures Reconcile(valid, local, Reconcile(valid, local, selected).selected) == Reconcile(valid, local, selected)
  {
  }

  /**
   * The selection a successful create or regenerate makes (the first listed
   * certificate with the new PEM) is one the effect accepts as matching, once
   * the local certificate carries that PEM, and leaves in place.
   */
  lemma CreatedSelectionMatches(valid: seq<ChainCertificate>, local: LocalCert, c: ChainCertificate)
    requires FirstWithPem(valid, local.certPem, c)
    ensures Reconcile(valid, Some(local), Some(c)) == Reconciliation(Some(c), true)
  {
  }

  // ---------------------------------------------------------------------------
  // Wallet records and messages

  /**
   * `updateWallet(address, w => ({...w, cert, certKey}))`: the records of that
   * address get the new `cert` and `certKey`; everything else is kept.
   */
  function SetWalletCert(wallets: seq<StorageWallet>, address: string, cert: Option<string>, certKey: Option<string>): (r: seq<StorageWallet>)
    ensures |r| == |wallets|
    ensures forall i :: 0 <= i < |r| ==> r[i].address == wallets[i].address && r[i].name == wallets[i].name
    ensures forall i :: 0 <= i < |r| && wallets[i].address == address ==> r[i].cert == cert && r[i].certKey == certKey
    ensures forall i :: 0 <= i < |r| && wallets[i].address != address ==> r[i] == wallets[i]
  {
    if wallets == [] then []
    else
      var w := wallets[0];
      [if w.address == address then w.(cert := cert, certKey := certKey) else w]
        + SetWalletCert(wallets[1..], address, cert, certKey)
  }

  /** A second update of the same wallet's certificate fields overrides the first. */
  lemma SetWalletCertOverrides(wallets: seq<StorageWallet>, address: string,
                               cert: Option<string>, certKey: Option<string>,
                               cert': Option<string>, certKey': Option<string>)
    ensures SetWalletCert(SetWalletCert(wallets, address, cert, certKey), address, cert', certKey')
         == SetWalletCert(wallets, address, cert', certKey')
  {
  }

  /** `validCertificates.map(cert => getRevokeCertificateMsg(address, cert.serial))`. */
  function RevokeMessages(owner: string, certs: seq<ChainCertificate>): (r: seq<TxMessage>)
    ensures |r| == |certs|
    ensures forall i :: 0 <= i < |certs| ==> r[i] == RevokeCertificateMsg(owner, certs[i].serial)
  {
    if certs == [] then []
    else [RevokeCertificateMsg(owner, certs[0].serial)] + RevokeMessages(owner, certs[1..])
  }

  // ---------------------------------------------------------------------------
  // loadLocalCert

  /** The progress of `loadLocalCert`'s loop: the opened certificates, the current `localCert`, and whether `openCert` threw. */
  datatype LocalLoad = LocalLoad(certs: seq<LocalCert>, local: Option<LocalCert>, failed: bool)

  /**
   * The loop of `loadLocalCert` over `wallets`, wallet by wallet, starting
   * from `localCert == prior`: each opened certificate is appended, tagged
   * with its wallet's address, and becomes `localCert` when that address is
   * the selected wallet's; the first `openCert` that throws stops the loop.
   */
  function LoadLocal(wallets: seq<StorageWallet>, openCert: CertOpener, current: Option<string>, prior: Option<LocalCert>): LocalLoad
    decreases |wallets|
  {
    if wallets == [] then LocalLoad([], prior, false)
    else
      var s := LoadLocal(wallets[..|wallets| - 1], openCert, current, prior);
      var w := wallets[|wallets| - 1];
      if s.failed then s
      else
        match openCert(w.cert, w.certKey)
        case None => s.(failed := true)
        case Some(o) =>
          var c := LocalCert(o.certPem, o.keyPem, w.address);
          LocalLoad(s.certs + [c], if current == Some(w.address) then Some(c) else s.local, false)
  }

  /** `openCert` succeeds on the wallet's stored certificate and key. */
  predicate Opens(w: StorageWallet, openCert: CertOpener) {
    openCert(w.cert, w.certKey).Some?
  }

  /** Wallet `i` is the last of `wallets` whose address is `current`. */
  ghost predicate LastWithAddress(wallets: seq<StorageWallet>, current: Option<string>, i: int) {
    0 <= i < |wallets| && current == Some(wallets[i].address)
    && forall j :: i < j < |wallets| ==> current != Some(wallets[j].address)
  }

  /** Once `openCert` has thrown, later wallets are never reached. */
  lemma {:induction false} LoadLocalFailureFinal(wallets: seq<StorageWallet>, k: nat, openCert: CertOpener, current: Option<string>, prior: Option<LocalCert>)
    requires k <= |wallets|
    requires LoadLocal(wallets[..k], openCert, current, prior).failed
    ensures LoadLocal(wallets, openCert, current, prior) == LoadLocal(wallets[..k], openCert, current, prior)
    decreases |wallets|
  {
    if k < |wallets| {
      var init := wallets[..|wallets| - 1];
      assert init[..k] == wallets[..k];
      LoadLocalFailureFinal(init, k, openCert, current, prior);
    } else {
      assert wallets[..k] == wallets;
    }
  }

  /**
   * `loadLocalCert` fails exactly when `openCert` throws for some stored
   * wallet; otherwise it yields one local certificate per stored wallet, in
   * storage order, each opened from that wallet and tagged with its address.
   */
  lemma {:induction false} LoadLocalCertsPerWallet(wallets: seq<StorageWallet>, openCert: CertOpener, current: Option<string>, prior: Option<LocalCert>)
    ensures var s := LoadLocal(wallets, openCert, current, prior);
      s.failed <==> exists i :: 0 <= i < |wallets| && !Opens(wallets[i], openCert)
    ensures var s := LoadLocal(wallets, openCert, current, prior);
      !s.failed ==> |s.certs| == |wallets| && forall i :: 0 <= i < |wallets| ==>
        s.certs[i] == LocalCert(openCert(wallets[i].cert, wallets[i].certKey).value.certPem,
                                openCert(wallets[i].cert, wallets[i].certKey).value.keyPem, wallets[i].address)
    decreases |wallets|
  {
    if wallets != [] {
      var init := wallets[..|wallets| - 1];
      LoadLocalCertsPerWallet(init, openCert, current, prior);
      var s := LoadLocal(init, openCert, current, prior);
      if s.failed {
        var i :| 0 <= i < |init| && !Opens(init[i], openCert);
        assert wallets[i] == init[i];
      } else {
        assert forall i :: 0 <= i < |init| ==> wallets[i] == init[i];
      }
    }
  }

  /**
   * `localCert` after `loadLocalCert`: when no wallet has the selected
   * wallet's address it is left as it was; otherwise it is the certificate
   * opened for the last such wallet.  Whatever happens, it is either the prior
   * value or a certificate tagged with the selected wallet's address.
   */
  lemma {:induction false} LoadLocalCertSelection(wallets: seq<StorageWallet>, openCert: CertOpener, current: Option<string>, prior: Option<LocalCert>)
    ensures var s := LoadLocal(wallets, openCert, current, prior);
      s.local == prior || (s.local.Some? && current == Some(s.local.value.address) && s.local.value in s.certs)
    ensures var s := LoadLocal(wallets, openCert, current, prior);
      !s.failed && (forall i :: 0 <= i < |wallets| ==> current != Some(wallets[i].address)) ==> s.local == prior
    ensures var s := LoadLocal(wallets, openCert, current, prior);
      !s.failed && (exists i :: 0 <= i < |wallets| && current == Some(wallets[i].address)) ==>
        s.local.Some? && exists i :: 0 <= i < |s.certs| && s.local.value == s.certs[i] && LastWithAddress(wallets, current, i)
    decreases |wallets|
  {
    if wallets != [] {
      var init := wallets[..|wallets| - 1];
      var last := |wallets| - 1;
      LoadLocalCertSelection(init, openCert, current, prior);
      LoadLocalCertsPerWallet(init, openCert, current, prior);
      LoadLocalCertsPerWallet(wallets, openCert, current, prior);
      var s := LoadLocal(init, openCert, current, prior);
      var t := LoadLocal(wallets, openCert, current, prior);
      assert forall i :: 0 <= i < |init| ==> wallets[i] == init[i];
      if !t.failed {
        assert t.certs == s.certs + [t.certs[last]];
        if current == Some(wallets[last].address) {
          assert t.local == Some(t.certs[last]);
        } else if exists i :: 0 <= i < |wallets| && current == Some(wallets[i].address) {
          var i :| 0 <= i < |wallets| && current == Some(wallets[i].address);
          assert i < |init| && current == Some(init[i].address);
          var k :| 0 <= k < |s.certs| && s.local.value == s.certs[k] && LastWithAddress(init, current, k);
          assert t.certs[k] == s.certs[k];
        }
      }
    }
  }
}
