# Certificate bookkeeping and grant filtering of the deploy web app

This project models, in Dafny, the two pieces of logic in the deploy web
front end of the compute marketplace client that are more than rendering:

- **The certificate provider** (`CertificateProviderContext.tsx`). It keeps
  the list of valid on-chain certificates of the connected address, the
  selected certificate, the local certificate opened from the stored wallet
  records, and the flags `isCreatingCert`, `isLoadingCertificates` and
  `isLocalCertMatching`. It drives the create, regenerate, revoke and
  revoke-all transactions and updates the stored wallet record (`cert`,
  `certKey`) after them.
- **The grant queries** (`useGrantsQuery.ts`). They return `null` for a falsy
  address. Otherwise they keep the response's grants whose authorization
  `@type` is one of the two deposit-deployment authorizations.

Files:

- `options.dfy`: module `Options`, the `Option` datatype standing for `null`/`undefined`.
- `grants.dfy`: module `Grants`, the pure grant filter and both queries.
- `certificate_model.dfy`: module `CertificateModel`. It holds the entities
  and the pure rules: `Array.prototype.find`, decoding of the listed
  certificates, the reconciliation effect, the wallet-record update, the
  revoke-all message list, and the loop of `loadLocalCert` as a function
  over storage prefixes.
- `certificate_provider.dfy`: module `CertificateProviderContext`, class
  `CertificateProvider`. The component's state becomes fields. Each operation
  becomes a method, with its frame written field by field. Each method is
  specified by the functions of `CertificateModel`.

The outside world is represented by inputs:

- `atob`, `getCertPem` and `openCert` are function-valued constants of the
  provider. They return `None` where the real call throws.
- The REST answers are parameters: `CertificatesResponse` for the list of
  certificates, a `seq<Grant>` for grants.
- The outcome of `signAndBroadcastTx` is a parameter `Broadcast`: truthy,
  falsy or thrown. The messages handed to it are returned as `sent`.
- The result of `generateCertificate` is a parameter `GeneratedCert`.
- The wallet store is the ordered list of stored wallet records plus the
  selected wallet's address. `updateWallet` is modelled as replacing `cert`
  and `certKey` in the records of the given address, keeping every other
  field. `walletUtils` is not part of this model, so that reading of
  `updateWallet` is an assumption.

Behaviour of the code that the model keeps:

- **`loadValidCertificates`, error path.** It returns `[]` but does not write
  `validCertificates`, which keeps its previous value.
- **Decoding failures.** A throwing `atob` or `getCertPem` on any entry takes
  that same error path.
- **Revoke after a failed reload.** `revokeCertificate` uses the returned
  list. After a failed reload that list is `[]`, so the wallet's `cert` and
  `certKey` are cleared and the selection is cleared.
- **Revoke keeps some selections.** `revokeCertificate` moves the selection to
  the head of the reloaded list only when the revoked serial is the selected
  one. Otherwise, for a non-empty list, the selection is left unchanged, even
  if it is no longer listed.
- **`regenerateCertificate` with no selection.** Reading
  `selectedCertificate.serial` throws inside the `try`. Nothing is broadcast,
  `isCreatingCert` is reset and the error is re-thrown.
- **Create with no matching certificate.** After a successful create or
  regenerate, the selection is the first reloaded certificate whose PEM is
  the new one. If there is none, `find` gives `undefined` and the selection
  is cleared.
- **`loadLocalCert`.** When `openCert` throws for a wallet, the loop stops.
  `localCert` keeps what was set for earlier wallets, and `localCerts` is not
  written. If several stored wallets share the selected address, the last
  one wins.

## Model

| member | source | states |
|---|---|---|
| `Grants.IsDepositGrant` | deploy-web/src/queries/useGrantsQuery.ts:12-14 | the filter predicate: the authorization `@type` is one of the two deposit-deployment authorization types; a predicate without a contract, used by the filter's contract |
| `Grants.DepositGrants` | deploy-web/src/queries/useGrantsQuery.ts:11-15 | every kept grant has a deposit-deployment `@type`; every deposit grant of the input is kept; each deposit grant occurs in the result exactly as often as in the input, and every other grant never; the result is a subsequence of the input (order kept, nothing added) |
| `Grants.IsFalsyAddress` | deploy-web/src/queries/useGrantsQuery.ts:8 | `!address`: `null`, `undefined` or the empty string; a predicate without a contract, used by both queries' contracts |
| `Grants.GranterGrants` | deploy-web/src/queries/useGrantsQuery.ts:7-18 | `null` exactly when the address is `null`, `undefined` or empty; otherwise only deposit grants, each as often as in the response, in response order |
| `Grants.GranteeGrants` | deploy-web/src/queries/useGrantsQuery.ts:26-37 | the same contract as the granter query |
| `Grants.GranterGranteeAgree` | deploy-web/src/queries/useGrantsQuery.ts:30-34 | both queries give the same answer for the same address and response |
| `Grants.DepositGrantsIdempotent` | deploy-web/src/queries/useGrantsQuery.ts:11-15 | a general property of the filter (the source never filters twice): filtering twice equals filtering once |
| `Grants.DepositGrantsAppend` | deploy-web/src/queries/useGrantsQuery.ts:30-34 | a general property of the filter (the source has no paging): filtering a concatenation equals concatenating the filtered parts |
| `CertificateModel.Find` | deploy-web/src/context/CertificateProvider/CertificateProviderContext.tsx:134 | `None` exactly when no element satisfies the predicate; otherwise the element at the first index that does |
| `CertificateModel.FindParsed` | deploy-web/src/context/CertificateProvider/CertificateProviderContext.tsx:134 | finding by `parsed === pem` fails exactly when no certificate has that PEM, and otherwise yields the first one that does |
| `CertificateModel.DecodeEntry` | deploy-web/src/context/CertificateProvider/CertificateProviderContext.tsx:84-91 | the `.map` callback: succeeds exactly when `atob` and `getCertPem` both succeed, and then keeps the entry's serial and body with `parsed` its decoded certificate and `pem` that certificate's metadata |
| `CertificateModel.DecodeCertificates` | deploy-web/src/context/CertificateProvider/CertificateProviderContext.tsx:83-92 | fails exactly when `atob` or `getCertPem` throws on some entry; otherwise same length and order as the entries, each entry's serial and body kept, `parsed` its decoded certificate and `pem` the metadata of `parsed` |
| `CertificateModel.FetchCertificates` | deploy-web/src/context/CertificateProvider/CertificateProviderContext.tsx:79-109 | takes the error path exactly when the request failed or `atob`/`getCertPem` throws on some entry of the response; otherwise the result has the length and order of the response's entries (a missing `certificates` member being the empty list), each decoded from its own entry |
| `CertificateModel.ReturnedCertificates` | deploy-web/src/context/CertificateProvider/CertificateProviderContext.tsx:101-108 | `return certs` on success and `return []` from the `catch`; it has no contract of its own, and the `LoadValidCertificates` method states what is returned |
| `CertificateModel.Reconcile` | deploy-web/src/context/CertificateProvider/CertificateProviderContext.tsx:131-146 | no match and selection untouched when the chain list is empty or there is no local certificate; with a selection, the selection is kept and matching holds iff a listed certificate has the local PEM and the selected serial; without one, matching holds iff a listed certificate has the local PEM, and then exactly the first such certificate is selected |
| `CertificateModel.ReconcileIdempotent` | deploy-web/src/context/CertificateProvider/CertificateProviderContext.tsx:134-142 | re-running the effect on its own selection yields the same selection and flag |
| `CertificateModel.CreatedSelectionMatches` | deploy-web/src/context/CertificateProvider/CertificateProviderContext.tsx:191-192 | the selection made after a create (first listed certificate with the new PEM) is kept by the effect and counts as matching a local certificate with that PEM |
| `CertificateModel.SetWalletCert` | deploy-web/src/context/CertificateProvider/CertificateProviderContext.tsx:182-188 | the records of the address get the new `cert` and `certKey`; addresses and names are unchanged everywhere; other records are unchanged |
| `CertificateModel.SetWalletCertOverrides` | deploy-web/src/context/CertificateProvider/CertificateProviderContext.tsx:220-226 | a general property of the update (the source updates once per operation): a later update of the same wallet's certificate fields overrides an earlier one |
| `CertificateModel.RevokeMessages` | deploy-web/src/context/CertificateProvider/CertificateProviderContext.tsx:283 | one revoke message per certificate, in list order, each carrying that certificate's serial |
| `CertificateModel.LoadLocal` | deploy-web/src/context/CertificateProvider/CertificateProviderContext.tsx:154-165 | the loop of `loadLocalCert` over the stored wallets as a function of them; it has no contract, and `LoadLocalFailureFinal`, `LoadLocalCertsPerWallet` and `LoadLocalCertSelection` specify it |
| `CertificateModel.LoadLocalFailureFinal` | deploy-web/src/context/CertificateProvider/CertificateProviderContext.tsx:154-157 | once `openCert` has thrown, no later wallet changes the outcome |
| `CertificateModel.LoadLocalCertsPerWallet` | deploy-web/src/context/CertificateProvider/CertificateProviderContext.tsx:154-167 | the load fails exactly when `openCert` throws for some stored wallet; otherwise one local certificate per stored wallet, in storage order, opened from that wallet and tagged with its address |
| `CertificateModel.LoadLocalCertSelection` | deploy-web/src/context/CertificateProvider/CertificateProviderContext.tsx:162-164 | `localCert` stays as it was unless it becomes a loaded certificate of the selected address; after a full load with no wallet of that address it is unchanged, and with one it is the certificate of the last such wallet |
| `CertificateProviderContext.CertificateProvider.constructor` | deploy-web/src/context/CertificateProvider/CertificateProviderContext.tsx:63-69 | the initial state: flags false, empty chain list, no selection, no local certificates |
| `CertificateProviderContext.CertificateProvider.LoadValidCertificates` | deploy-web/src/context/CertificateProvider/CertificateProviderContext.tsx:75-110 | returns the fetched list or `[]`; `validCertificates` becomes the fetched list and is untouched on the error path; the loading flag ends false on both paths |
| `CertificateProviderContext.CertificateProvider.ResetCertificates` | deploy-web/src/context/CertificateProvider/CertificateProviderContext.tsx:118-122 | chain list emptied, selection and local certificate cleared |
| `CertificateProviderContext.CertificateProvider.ChangeWallet` | deploy-web/src/context/CertificateProvider/CertificateProviderContext.tsx:118-129 | after a wallet change the selection is cleared; with no address, the chain list is empty and the local certificate cleared; with one, both are reloaded from a cleared state |
| `CertificateProviderContext.CertificateProvider.RunReconciliation` | deploy-web/src/context/CertificateProvider/CertificateProviderContext.tsx:131-146 | selection and matching flag become those of `Reconcile` |
| `CertificateProviderContext.CertificateProvider.LoadLocalCert` | deploy-web/src/context/CertificateProvider/CertificateProviderContext.tsx:148-168 | the loop's outcome is `LoadLocal` over the stored wallets: `localCert` as the loop leaves it, `localCerts` written only when every wallet opened |
| `CertificateProviderContext.CertificateProvider.StoreAndReload` | deploy-web/src/context/CertificateProvider/CertificateProviderContext.tsx:182-192 | wallet record holds the new certificate and encrypted key; chain list and local certificates reloaded; selection is the first reloaded certificate with the new PEM, or none |
| `CertificateProviderContext.CertificateProvider.CreateCertificate` | deploy-web/src/context/CertificateProvider/CertificateProviderContext.tsx:173-206 | exactly one create message is sent; `isCreatingCert` ends false on every path; only a throwing broadcast re-throws; a truthy one stores and reloads; otherwise nothing else changes |
| `CertificateProviderContext.CertificateProvider.RegenerateCertificate` | deploy-web/src/context/CertificateProvider/CertificateProviderContext.tsx:211-243 | sends exactly the revocation of the selected serial followed by the create message; with no selection it throws before sending; otherwise as create |
| `CertificateProviderContext.CertificateProvider.RevokeCertificate` | deploy-web/src/context/CertificateProvider/CertificateProviderContext.tsx:248-276 | one revoke message; on success the wallet's `cert` and `certKey` are kept iff the local PEM is still listed and cleared otherwise; the selection moves to the head when the revoked serial was selected, is cleared when the list is empty, and is otherwise kept |
| `CertificateProviderContext.CertificateProvider.RevokeAllCertificates` | deploy-web/src/context/CertificateProvider/CertificateProviderContext.tsx:281-306 | one revoke message per valid certificate in list order; on success the wallet's `cert`, `certKey` and the selection are cleared and the chain list reloaded |

## Left out

- HTTP: building the REST URLs and `axios.get`. The responses are inputs. For grants, a failed request or a response without `grants` makes the query throw. That case is not modelled.
- Server-side filtering by `state=valid` and owner is not modelled. The listed certificates are taken as the server returns them.
- Signing and broadcasting, and the internals of the transaction messages. Messages are `CreateCertificateMsg(owner, cert, pubkey)` and `RevokeCertificateMsg(owner, serial)`. The broadcast outcome is an input.
- The crypto utilities and `atob` are uninterpreted function values. `walletUtils` is not part of this model; its reading is described above.
- `generateCertificate` is modelled as always succeeding. If it threw, `isCreatingCert` would stay true, because it is called outside the `try`.
- Snackbars, analytics events and `console.log` have no effect on state.
- Asynchrony is not modelled. Each operation runs atomically to the end of its awaited calls. `loadLocalCert`, which create and regenerate do not await, runs to completion inside them. Its rejection is not propagated to their callers. The intermediate `isCreatingCert == true` and `isLoadingCertificates == true` states are not observable. Re-entrant calls are not modelled.
- The reconciliation effect is a separate method, `RunReconciliation`. React runs it after each state change; the model does not run it automatically.
- The setters exported through the context (`setSelectedCertificate`, `setLocalCert` and the others) are plain field writes and are not modelled as operations.
- React context, hooks, rendering, and the UI components around the provider are not modelled. Neither is the floating-point price display.
