/**
 * The certificate provider component as a stateful object: its React state
 * becomes fields, each operation a method that updates them as the component
 * does once every awaited call has settled.  The wallet store is held as the
 * ordered list of stored wallet records plus the selected wallet's address.
 */
module CertificateProviderContext {

  import opened Options
  import opened CertificateModel

  class CertificateProvider {

    // Foreign calls, fixed for the provider's lifetime.
    const atob: Base64Decoder
    const getCertPem: PemReader
    const openCert: CertOpener

    /** The connected wallet's address ("" when none is connected). */
    var address: string
    /** The stored wallet records, in storage order. */
    var wallets: seq<StorageWallet>
    /** The address of the selected stored wallet, if any. */
    var selectedWallet: Option<string>

    var isCreatingCert: bool
    var validCertificates: seq<ChainCertificate>
    var selectedCertificate: Option<ChainCertificate>
    var isLoadingCertificates: bool
    var localCerts: Option<seq<LocalCert>>
    var localCert: Option<LocalCert>
    var isLocalCertMatching: bool

    /** The component's initial state, before any wallet is connected. */
    constructor (atob: Base64Decoder, getCertPem: PemReader, openCert: CertOpener,
                 wallets: seq<StorageWallet>, selectedWallet: Option<string>)
      ensures this.atob == atob && this.getCertPem == getCertPem && this.openCert == openCert
      ensures this.wallets == wallets && this.selectedWallet == selectedWallet && address == ""
      ensures !isCreatingCert && !isLoadingCertificates && !isLocalCertMatching
      ensures validCertificates == [] && selectedCertificate == None && localCerts == None && localCert == None
    {
      this.atob, this.getCertPem, this.openCert := atob, getCertPem, openCert;
      this.wallets, this.selectedWallet, address := wallets, selectedWallet, "";
      isCreatingCert, isLoadingCertificates, isLocalCertMatching := false, false, false;
      validCertificates, selectedCertificate, localCerts, localCert := [], None, None, None;
    }

    /**
     * `loadValidCertificates`: the decoded list replaces `validCertificates`
     * and is returned; on the error path `[]` is returned and
     * `validCertificates` is left as it was.  The loading flag ends false.
     */
    method LoadValidCertificates(response: CertificatesResponse) returns (certs: seq<ChainCertificate>)
      modifies this`validCertificates, this`isLoadingCertificates
      ensures var fetched := FetchCertificates(response, atob, getCertPem);
        && certs == ReturnedCertificates(fetched)
        && validCertificates == (if fetched.Some? then fetched.value else old(validCertificates))
      ensures !isLoadingCertificates
    {
      isLoadingCertificates := true;
      var fetched := FetchCertificates(response, atob, getCertPem);
      match fetched {
        case Some(list) =>
          validCertificates := list;
          isLoadingCertificates := false;
          certs := list;
        case None =>
          isLoadingCertificates := false;
          certs := [];
      }
    }

    /** The first statements of the wallet-change effect: chain list emptied, selection and local certificate cleared. */
    method ResetCertificates()
      modifies this`validCertificates, this`selectedCertificate, this`localCert
      ensures validCertificates == [] && selectedCertificate == None && localCert == None
    {
      validCertificates := [];
      selectedCertificate := None;
      localCert := None;
    }

    /**
     * The effect on `[address]`: reset, then, for a connected wallet, load the
     * chain list for it and the local certificates.
     */
    method ChangeWallet(newAddress: string, response: CertificatesResponse)
      modifies this`address, this`validCertificates, this`selectedCertificate, this`localCert,
        this`isLoadingCertificates, this`localCerts
      ensures address == newAddress && selectedCertificate == None
      ensures newAddress == "" ==> validCertificates == [] && localCert == None
      ensures newAddress == "" ==> localCerts == old(localCerts) && isLoadingCertificates == old(isLoadingCertificates)
      ensures newAddress != "" ==>
        && validCertificates == ReturnedCertificates(FetchCertificates(response, atob, getCertPem))
        && !isLoadingCertificates
        && var s := LoadLocal(wallets, openCert, selectedWallet, None);
           localCert == s.local && localCerts == (if s.failed then old(localCerts) else Some(s.certs))
    {
      address := newAddress;
      ResetCertificates();
      if newAddress != "" {
        var _ := LoadValidCertificates(response);
        var _ := LoadLocalCert();
      }
    }

    /**
     * The reconciliation effect on `[selectedCertificate, localCert,
     * validCertificates]`.
     */
    method RunReconciliation()
      modifies this`selectedCertificate, this`isLocalCertMatching
      ensures Reconciliation(selectedCertificate, isLocalCertMatching)
        == Reconcile(validCertificates, localCert, old(selectedCertificate))
    {
      var matching := false;
      if |validCertificates| > 0 && localCert.Some? {
        var current := Find(validCertificates, ParsedIs(localCert.value.certPem));
        if selectedCertificate.None? && current.Some? {
          selectedCertificate := current;
        } else if selectedCertificate.Some? {
          current := Find(validCertificates, ParsedAndSerialAre(localCert.value.certPem, selectedCertificate.value.serial));
        } else {
          current := None;
        }
        matching := current.Some?;
      }
      isLocalCertMatching := matching;
    }

    /**
     * `loadLocalCert`: opens the certificate of every stored wallet in storage
     * order, collecting them; `localCert` becomes the one of the selected
     * wallet.  When `openCert` throws the loop stops: `localCert` keeps what
     * was set so far and `localCerts` is not written.
     */
    method LoadLocalCert() returns (completed: bool)
      modifies this`localCert, this`localCerts
      ensures var s := LoadLocal(wallets, openCert, selectedWallet, old(localCert));
        && completed == !s.failed
        && localCert == s.local
        && localCerts == (if s.failed then old(localCerts) else Some(s.certs))
    {
      var certs: seq<LocalCert> := [];
      var i := 0;
      while i < |wallets|
        invariant 0 <= i <= |wallets|
        invariant LoadLocal(wallets[..i], openCert, selectedWallet, old(localCert)) == LocalLoad(certs, localCert, false)
        invariant localCerts == old(localCerts)
      {
        var w := wallets[i];
        assert wallets[..i + 1][..i] == wallets[..i];
        var pair := openCert(w.cert, w.certKey);
        if pair.None? {
          LoadLocalFailureFinal(wallets, i + 1, openCert, selectedWallet, old(localCert));
          return false;
        }
        var c := LocalCert(pair.value.certPem, pair.value.keyPem, w.address);
        certs := certs + [c];
        if selectedWallet == Some(w.address) {
          localCert := Some(c);
        }
        i := i + 1;
      }
      assert wallets[..i] == wallets;
      localCerts := Some(certs);
      completed := true;
    }

    /**
     * The state a successful create or regenerate leaves: the connected
     * wallet's record holds the new certificate and encrypted key, the chain
     * list and the local certificates are reloaded, and the selection is the
     * first reloaded certificate whose PEM is the new one (none if absent).
     */
    ghost predicate StoredAndReloaded(generated: GeneratedCert, refreshed: CertificatesResponse,
                                      oldWallets: seq<StorageWallet>, oldValid: seq<ChainCertificate>,
                                      oldLocal: Option<LocalCert>, oldLocalCerts: Option<seq<LocalCert>>)
      reads this
    {
      var fetched := FetchCertificates(refreshed, atob, getCertPem);
      var certs := ReturnedCertificates(fetched);
      var s := LoadLocal(wallets, openCert, selectedWallet, oldLocal);
      && wallets == SetWalletCert(oldWallets, address, Some(generated.crtpem), Some(generated.encryptedKey))
      && validCertificates == (if fetched.Some? then fetched.value else oldValid)
      && !isLoadingCertificates
      && localCert == s.local
      && localCerts == (if s.failed then oldLocalCerts else Some(s.certs))
      && (selectedCertificate.None? <==> forall i :: 0 <= i < |certs| ==> certs[i].parsed != generated.crtpem)
      && (selectedCertificate.Some? ==> FirstWithPem(certs, generated.crtpem, selectedCertificate.value))
    }

    /** The post-broadcast steps shared by create and regenerate. */
    method StoreAndReload(generated: GeneratedCert, refreshed: CertificatesResponse)
      modifies this`wallets, this`validCertificates, this`isLoadingCertificates, this`localCert,
        this`localCerts, this`selectedCertificate
      ensures StoredAndReloaded(generated, refreshed, old(wallets), old(validCertificates), old(localCert), old(localCerts))
    {
      wallets := SetWalletCert(wallets, address, Some(generated.crtpem), Some(generated.encryptedKey));
      var validCerts := LoadValidCertificates(refreshed);
      var _ := LoadLocalCert();
      FindParsed(validCerts, generated.crtpem);
      selectedCertificate := Find(validCerts, ParsedIs(generated.crtpem));
    }

    /**
     * `createCertificate`: broadcasts one create message for the generated
     * certificate; on a truthy response stores and reloads.  `isCreatingCert`
     * ends false on every path; a throwing broadcast is re-thrown.
     */
    method CreateCertificate(generated: GeneratedCert, broadcast: Broadcast, refreshed: CertificatesResponse)
      returns (sent: seq<TxMessage>, completion: Completion)
      modifies this`isCreatingCert, this`wallets, this`validCertificates, this`isLoadingCertificates,
        this`localCert, this`localCerts, this`selectedCertificate
      ensures sent == [CreateCertificateMsg(address, generated.crtpem, generated.pubpem)]
      ensures !isCreatingCert
      ensures completion == Threw <==> broadcast == Thrown
      ensures broadcast == Truthy ==>
        StoredAndReloaded(generated, refreshed, old(wallets), old(validCertificates), old(localCert), old(localCerts))
      ensures broadcast != Truthy ==>
        && wallets == old(wallets) && validCertificates == old(validCertificates)
        && isLoadingCertificates == old(isLoadingCertificates) && localCert == old(localCert)
        && localCerts == old(localCerts) && selectedCertificate == old(selectedCertificate)
    {
      isCreatingCert := true;
      sent := [CreateCertificateMsg(address, generated.crtpem, generated.pubpem)];
      if broadcast == Thrown {
        isCreatingCert := false;
        return sent, Threw;
      }
      if broadcast == Truthy {
        StoreAndReload(generated, refreshed);
      }
      isCreatingCert := false;
      completion := Returned;
    }

    /**
     * `regenerateCertificate`: broadcasts, in one transaction, the revocation
     * of the selected certificate followed by the creation of the generated
     * one; with no selection, reading its serial throws before anything is
     * broadcast.  Otherwise as `createCertificate`.
     */
    method RegenerateCertificate(generated: GeneratedCert, broadcast: Broadcast, refreshed: CertificatesResponse)
      returns (sent: seq<TxMessage>, completion: Completion)
      modifies this`isCreatingCert, this`wallets, this`validCertificates, this`isLoadingCertificates,
        this`localCert, this`localCerts, this`selectedCertificate
      ensures !isCreatingCert
      ensures old(selectedCertificate).None? ==> sent == [] && completion == Threw
      ensures old(selectedCertificate).Some? ==>
        && sent == [RevokeCertificateMsg(address, old(selectedCertificate).value.serial),
                    CreateCertificateMsg(address, generated.crtpem, generated.pubpem)]
        && (completion == Threw <==> broadcast == Thrown)
      ensures old(selectedCertificate).Some? && broadcast == Truthy ==>
        StoredAndReloaded(generated, refreshed, old(wallets), old(validCertificates), old(localCert), old(localCerts))
      ensures old(selectedCertificate).None? || broadcast != Truthy ==>
        && wallets == old(wallets) && validCertificates == old(validCertificates)
        && isLoadingCertificates == old(isLoadingCertificates) && localCert == old(localCert)
        && localCerts == old(localCerts) && selectedCertificate == old(selectedCertificate)
    {
      isCreatingCert := true;
      if selectedCertificate.None? {
        isCreatingCert := false;
        return [], Threw;
      }
      var revokeMsg := RevokeCertificateMsg(address, selectedCertificate.value.serial);
      var createMsg := CreateCertificateMsg(address, generated.crtpem, generated.pubpem);
      sent := [revokeMsg, createMsg];
      if broadcast == Thrown {
        isCreatingCert := false;
        return sent, Threw;
      }
      if broadcast == Truthy {
        StoreAndReload(generated, refreshed);
      }
      isCreatingCert := false;
      completion := Returned;
    }

    /**
     * `revokeCertificate`: broadcasts one revocation; on a truthy response
     * reloads the chain list, keeps the wallet's certificate and key only if
     * the local certificate's PEM is still listed, and moves the selection to
     * the head of the list when the revoked serial was selected, or clears it
     * when the list is empty.
     */
    method RevokeCertificate(certificate: ChainCertificate, broadcast: Broadcast, refreshed: CertificatesResponse)
      returns (sent: seq<TxMessage>, completion: Completion)
      modifies this`wallets, this`validCertificates, this`isLoadingCertificates, this`selectedCertificate
      ensures sent == [RevokeCertificateMsg(address, certificate.serial)]
      ensures completion == Threw <==> broadcast == Thrown
      ensures broadcast == Truthy ==>
        var fetched := FetchCertificates(refreshed, atob, getCertPem);
        var certs := ReturnedCertificates(fetched);
        var stillListed := localCert.Some? && exists i :: 0 <= i < |certs| && certs[i].parsed == localCert.value.certPem;
        && validCertificates == (if fetched.Some? then fetched.value else old(validCertificates))
        && !isLoadingCertificates
        && wallets == (if stillListed then old(wallets) else SetWalletCert(old(wallets), address, None, None))
        && (|certs| == 0 ==> selectedCertificate == None)
        && (|certs| > 0 && old(selectedCertificate).Some? && old(selectedCertificate).value.serial == certificate.serial ==>
              selectedCertificate == Some(certs[0]))
        && (|certs| > 0 && (old(selectedCertificate).None? || old(selectedCertificate).value.serial != certificate.serial) ==>
              selectedCertificate == old(selectedCertificate))
      ensures broadcast != Truthy ==>
        && wallets == old(wallets) && validCertificates == old(validCertificates)
        && isLoadingCertificates == old(isLoadingCertificates) && selectedCertificate == old(selectedCertificate)
    {
      sent := [RevokeCertificateMsg(address, certificate.serial)];
      if broadcast == Thrown {
        return sent, Threw;
      }
      if broadcast == Truthy {
        var validCerts := LoadValidCertificates(refreshed);
        var isRevokingOtherCert := false;
        if localCert.Some? {
          FindParsed(validCerts, localCert.value.certPem);
          isRevokingOtherCert := Find(validCerts, ParsedIs(localCert.value.certPem)).Some?;
        }
        if !isRevokingOtherCert {
          wallets := SetWalletCert(wallets, address, None, None);
        }
        if |validCerts| > 0 && selectedCertificate.Some? && certificate.serial == selectedCertificate.value.serial {
          selectedCertificate := Some(validCerts[0]);
        } else if |validCerts| == 0 {
          selectedCertificate := None;
        }
      }
      completion := Returned;
    }

    /**
     * `revokeAllCertificates`: broadcasts one revocation per valid
     * certificate, in list order, in one transaction; on a truthy response
     * reloads the chain list and clears the wallet's certificate, key and the
     * selection.
     */
    method RevokeAllCertificates(broadcast: Broadcast, refreshed: CertificatesResponse)
      returns (sent: seq<TxMessage>, completion: Completion)
      modifies this`wallets, this`validCertificates, this`isLoadingCertificates, this`selectedCertificate
      ensures sent == RevokeMessages(address, old(validCertificates))
      ensures completion == Threw <==> broadcast == Thrown
      ensures broadcast == Truthy ==>
        var fetched := FetchCertificates(refreshed, atob, getCertPem);
        && validCertificates == (if fetched.Some? then fetched.value else old(validCertificates))
        && !isLoadingCertificates
        && wallets == SetWalletCert(old(wallets), address, None, None)
        && selectedCertificate == None
      ensures broadcast != Truthy ==>
        && wallets == old(wallets) && validCertificates == old(validCertificates)
        && isLoadingCertificates == old(isLoadingCertificates) && selectedCertificate == old(selectedCertificate)
    {
      sent := RevokeMessages(address, validCertificates);
      if broadcast == Thrown {
        return sent, Threw;
      }
      if broadcast == Truthy {
        var _ := LoadValidCertificates(refreshed);
        wallets := SetWalletCert(wallets, address, None, None);
        selectedCertificate := None;
      }
      completion := Returned;
    }
  }
}
