# Generic credential offer form, in Dafny

A model of the state kept by the generic credential-offer form of the
interactions demo (`frontend/src/ui/genericCredentialOfferContainer.tsx`).
The form keeps an ordered list of claim rows `{name, fieldName, value}`,
where `name` is a synthetic row id and `fieldName` the label that becomes the
claim key. It also keeps a credential name, a credential type, a pending
new-claim label and a render mode. The handlers edit the rows, and the submit
handler folds them into a claims object sent in one request.

- `claim_rows.dfy` (module `ClaimRows`): the `Row` record, the credential
  types, the three fixed document rows, and the pure row transformations
  (append, update by id, filter by id, type switch) with their lemmas.
- `claim_keys.dfy` (module `ClaimKeys`): the claim key of a label,
  `lowercaseFirst(fieldName.split(' ').join(''))`, with `split` and `join`
  written out and proved equal to "remove every space".
- `claims_map.dfy` (module `ClaimsMap`): the `reduce` that builds the claims
  map, proved to have exactly the rows' keys, with the last row winning on a
  collision.
- `credential_offer.dfy` (module `CredentialOffer`): the `FormState` class.
  Its fields are the form's state, and each handler is a method whose new
  state is given by the functions above. The module also holds the submit
  flow, with its photo-row guard as written.

The random id of a new row (`generateString`) is a caller-supplied
`freshId`. The image fetch in the submit handler is reduced to a boolean
`fetchOk`, telling whether it resolved, because its result is discarded.
The outbound call is reduced to the request body it would carry.

A handler that throws in the source is modelled as an error result and
leaves the state as it was. This covers `handleInputChange` with an id that
no row has, and `handleSubmit` without a `photo` row.

The ticket branch filters on `name` (lines 142, 146), not on `fieldName`.

## Model

| member | source | states |
|---|---|---|
| `ClaimRows.CredentialConstants` | frontend/src/ui/genericCredentialOfferContainer.tsx:46-77 | the three enum values have distinct strings; the two proof-of-identity types are the document types and the ticket type is not; the document rows are givenName, familyName, photo in that order, each labelled with its id, empty values except the photo URL, with distinct ids that make up the document-id set used by the ticket branch (line 142) |
| `ClaimRows.IsDocumentType` | frontend/src/ui/genericCredentialOfferContainer.tsx:52-55 | `documentTypes.includes(t)` holds for every type except the ticket type |
| `ClaimRows.HasName` | frontend/src/ui/genericCredentialOfferContainer.tsx:139 | some row has the id (the truthiness of `find`, whose hits are always objects) |
| `ClaimRows.Find` | frontend/src/ui/genericCredentialOfferContainer.tsx:139 | `find` by id: nothing exactly when no row has the id, otherwise the row at `findIndex`'s position, which has the id and is one of the rows |
| `ClaimRows.FindIndex` | frontend/src/ui/genericCredentialOfferContainer.tsx:119 | `findIndex` by id: -1 exactly when no row has the id, otherwise an index whose row has the id with no earlier row having it |
| `ClaimRows.Updated` | frontend/src/ui/genericCredentialOfferContainer.tsx:115-126 | reference update by id: the length is kept |
| `ClaimRows.UpdatedAtFoundIndex` | frontend/src/ui/genericCredentialOfferContainer.tsx:118-122 | writing the new value into the row at the found index equals the reference update |
| `ClaimRows.UpdateFirstMatchOnly` | frontend/src/ui/genericCredentialOfferContainer.tsx:115-126 | every row keeps its id and label; the first row with the id gets the new value; every other row is identical |
| `ClaimRows.UpdatedUnique` | frontend/src/ui/genericCredentialOfferContainer.tsx:115-126 | an update keeps unique ids unique |
| `ClaimRows.UpdateMissingIsIdentity` | frontend/src/ui/genericCredentialOfferContainer.tsx:119-121 | with no row carrying the id the rows are unchanged (the handler throws before writing) |
| `ClaimRows.Without` | frontend/src/ui/genericCredentialOfferContainer.tsx:131 | the filter returns only rows of the input, none with a filtered id, and is no longer than the input |
| `ClaimRows.WithoutKeeps` | frontend/src/ui/genericCredentialOfferContainer.tsx:131 | every row whose id is not filtered survives |
| `ClaimRows.WithoutLength` | frontend/src/ui/genericCredentialOfferContainer.tsx:128-134 | the length drops by exactly the number of matching rows |
| `ClaimRows.WithoutConcat` | frontend/src/ui/genericCredentialOfferContainer.tsx:131 | the filter distributes over concatenation, so relative order is kept |
| `ClaimRows.WithoutNoMatch` | frontend/src/ui/genericCredentialOfferContainer.tsx:131 | rows with no matching id are returned unchanged |
| `ClaimRows.WithoutIdempotent` | frontend/src/ui/genericCredentialOfferContainer.tsx:143-149 | filtering twice equals filtering once |
| `ClaimRows.WithoutUnique` | frontend/src/ui/genericCredentialOfferContainer.tsx:128-134 | filtering keeps unique ids unique |
| `ClaimRows.Removed` | frontend/src/ui/genericCredentialOfferContainer.tsx:128-134 | the rows after `handleRemove`: no row has the id and the list does not grow |
| `ClaimRows.RemovedSpec` | frontend/src/ui/genericCredentialOfferContainer.tsx:128-134 | after removing an id no row has it; a row is in the result iff it was in the input with another id; the length drops by the number of rows with that id |
| `ClaimRows.Appended` | frontend/src/ui/genericCredentialOfferContainer.tsx:99-113 | the rows after `handleCreateNewField`: the old rows are a prefix, and the list grows by one row exactly when the label is non-empty |
| `ClaimRows.AppendedSpec` | frontend/src/ui/genericCredentialOfferContainer.tsx:99-113 | an empty label leaves the rows unchanged; any other label (whitespace too) adds exactly `Row(freshId, label, "")` at the end and keeps the earlier rows |
| `ClaimRows.AppendedUnique` | frontend/src/ui/genericCredentialOfferContainer.tsx:102-111 | an id not already present keeps the ids unique |
| `ClaimRows.TypeSwitched` | frontend/src/ui/genericCredentialOfferContainer.tsx:136-150 | the rows after `handleTypeChange`: a document type leaves a `givenName` row present; the ticket type leaves no row with a document id |
| `ClaimRows.SwitchToDocument` | frontend/src/ui/genericCredentialOfferContainer.tsx:136-140 | with no `givenName` row the result is the three document rows (givenName, familyName, photo with the fixed URL) followed by the old rows; with one the rows are unchanged; either way a `givenName` row is present |
| `ClaimRows.SwitchToTicket` | frontend/src/ui/genericCredentialOfferContainer.tsx:141-149 | no document id is left; a row survives iff its id is not a document id; the length drops by the number of such rows; the switch is idempotent |
| `ClaimRows.TypeSwitchedUnique` | frontend/src/ui/genericCredentialOfferContainer.tsx:136-150 | a type switch keeps ids unique when a missing `givenName` row means no other document row is present |
| `ClaimRows.TypeSwitchCanDuplicatePhoto` | frontend/src/ui/genericCredentialOfferContainer.tsx:139-140 | without that proviso, a user row with id `photo` is duplicated by a switch to a document type |
| `ClaimKeys.ToLower` | frontend/src/ui/genericCredentialOfferContainer.tsx:31 | the result is never an upper-case ASCII letter; upper-case letters move to lower case; all other characters are kept |
| `ClaimKeys.LowercaseFirst` | frontend/src/ui/genericCredentialOfferContainer.tsx:30-31 | same length; first character lower-cased; all later characters kept; empty input gives empty output |
| `ClaimKeys.Split` | frontend/src/ui/genericCredentialOfferContainer.tsx:175 | `split(' ')` yields at least one piece and no piece contains a space |
| `ClaimKeys.Join` | frontend/src/ui/genericCredentialOfferContainer.tsx:175 | `join(sep)`: space-free pieces joined by a space-free separator give a space-free string |
| `ClaimKeys.SplitJoinRoundTrip` | frontend/src/ui/genericCredentialOfferContainer.tsx:175 | joining the pieces with a space gives the string back |
| `ClaimKeys.SplitJoinStrips` | frontend/src/ui/genericCredentialOfferContainer.tsx:175 | joining the pieces with nothing removes exactly the spaces |
| `ClaimKeys.StripSpacesConcat` | frontend/src/ui/genericCredentialOfferContainer.tsx:175 | space removal keeps the other characters in order |
| `ClaimKeys.ClaimKey` | frontend/src/ui/genericCredentialOfferContainer.tsx:175 | the key `lowercaseFirst(fieldName.split(' ').join(''))` holds no space and is no longer than the label |
| `ClaimKeys.ClaimKeyStrips` | frontend/src/ui/genericCredentialOfferContainer.tsx:175 | the key is the lower-cased-first form of the label with its spaces removed |
| `ClaimKeys.ClaimKeySpec` | frontend/src/ui/genericCredentialOfferContainer.tsx:175 | the key holds no space; an empty label gives `""`; its first character is the lower-cased first non-space character and the rest are the remaining non-space characters |
| `ClaimKeys.ClaimKeyIdempotent` | frontend/src/ui/genericCredentialOfferContainer.tsx:175 | normalising a key again changes nothing |
| `ClaimKeys.ClaimKeyOfBirthDate` | frontend/src/ui/genericCredentialOfferContainer.tsx:175 | "birth Date" gives "birthDate" |
| `ClaimKeys.ClaimKeysCollide` | frontend/src/ui/genericCredentialOfferContainer.tsx:175 | "Foo" and "foo" both give "foo" |
| `ClaimsMap.KeyOf` | frontend/src/ui/genericCredentialOfferContainer.tsx:175 | the computed property name of a row, which never holds a space |
| `ClaimsMap.Fold` | frontend/src/ui/genericCredentialOfferContainer.tsx:172-178 | the fold never drops a key of its accumulator, and adds no key holding a space |
| `ClaimsMap.Claims` | frontend/src/ui/genericCredentialOfferContainer.tsx:172-178 | the `reduce` from `{}`: no key of the claims map holds a space |
| `ClaimsMap.FoldSnoc` | frontend/src/ui/genericCredentialOfferContainer.tsx:172-178 | folding one more row writes that row's key and value over the result |
| `ClaimsMap.ClaimsKeys` | frontend/src/ui/genericCredentialOfferContainer.tsx:172-178 | the claims map's key set is exactly the set of the rows' keys |
| `ClaimsMap.ClaimsLastWins` | frontend/src/ui/genericCredentialOfferContainer.tsx:172-178 | each key maps to the value of the last row with that key |
| `ClaimsMap.LaterCollidingRowWins` | frontend/src/ui/genericCredentialOfferContainer.tsx:172-178 | rows labelled "Foo" then "foo" give a map with the single entry "foo" set to the later value |
| `CredentialOffer.Body` | frontend/src/ui/genericCredentialOfferContainer.tsx:166-179 | the request body `{renderAs, name, type, claims}` carries the form's render mode, name and type string, and its claims are keyed by exactly the rows' claim keys |
| `CredentialOffer.EntersPhotoBranch` | frontend/src/ui/genericCredentialOfferContainer.tsx:155-156 | the guard `if (imgInputIdx)` as written holds iff no `photo` row exists or the first one is past the head |
| `CredentialOffer.EntersPhotoBranchIntended` | frontend/src/ui/genericCredentialOfferContainer.tsx:155-156 | the corrected guard holds iff a `photo` row exists |
| `CredentialOffer.EntersPhotoBranchIff` | frontend/src/ui/genericCredentialOfferContainer.tsx:155-156 | the photo branch is entered iff the first row is not the `photo` row; "not found" (-1) enters it |
| `CredentialOffer.Submission` | frontend/src/ui/genericCredentialOfferContainer.tsx:154-180 | submit fails before the request is sent iff there is no `photo` row (reading `inputs[-1]`) or the row is past the head and its fetch fails; with no `photo` row it throws that read error; a skipped branch sends the body of the current state without consulting the fetch; every success sends the body of the current state (render mode, name, type and the claims of the rows as they were) |
| `CredentialOffer.TicketSubmissionFails` | frontend/src/ui/genericCredentialOfferContainer.tsx:141-158 | after switching to the ticket type every submission throws the missing-photo read error |
| `CredentialOffer.SubmissionIntended` | frontend/src/ui/genericCredentialOfferContainer.tsx:155-164 | with the guard "a photo row was found", submit fails only when a `photo` row exists and its fetch fails, and otherwise sends the body of the current state |
| `CredentialOffer.TicketSubmissionIntended` | frontend/src/ui/genericCredentialOfferContainer.tsx:141-164 | with that guard a ticket credential is always sent |
| `CredentialOffer.FormState.constructor` | frontend/src/ui/genericCredentialOfferContainer.tsx:84-97 | initial state: empty name and label, render mode "document", type ProofOfIdCredentialDemo, rows the three document rows (with unique ids) |
| `CredentialOffer.FormState.SetCredName` | frontend/src/ui/genericCredentialOfferContainer.tsx:212 | the credential-name input sets the name |
| `CredentialOffer.FormState.SetNewField` | frontend/src/ui/genericCredentialOfferContainer.tsx:263 | the new-claim input sets the pending label |
| `CredentialOffer.FormState.CreateNewField` | frontend/src/ui/genericCredentialOfferContainer.tsx:99-113 | the rows become the append of the old pending label with the fresh id, and the pending label is empty afterwards |
| `CredentialOffer.FormState.InputChange` | frontend/src/ui/genericCredentialOfferContainer.tsx:115-126 | the rows become the reference update; the handler fails with the missing-row error exactly when no row has the id, and succeeds otherwise |
| `CredentialOffer.FormState.Remove` | frontend/src/ui/genericCredentialOfferContainer.tsx:128-134 | the rows become the old rows without the id |
| `CredentialOffer.FormState.TypeChange` | frontend/src/ui/genericCredentialOfferContainer.tsx:136-152 | the rows become the type-switched old rows and the type becomes the selection |
| `CredentialOffer.FormState.Submit` | frontend/src/ui/genericCredentialOfferContainer.tsx:154-184 | the photo write-back leaves the rows as they were, and the result is the submission outcome of the state |

## Findings

| source | as written | input that shows it | evidently intended | confidence | as-written member | corrected member |
|---|---|---|---|---|---|---|
| frontend/src/ui/genericCredentialOfferContainer.tsx:155-158 | `if (imgInputIdx)` treats the `findIndex` result as a boolean: -1 (no `photo` row) is truthy, and `inputs[-1].value` then throws; 0 is falsy, so a `photo` row at the head is skipped | credential type ProofOfTicketDemo after a type switch, which removes the `photo` row; every submit then throws before the request is sent | enter the branch when a `photo` row was found (`imgInputIdx !== -1`) | high for the -1 case, not executed | `CredentialOffer.TicketSubmissionFails` | `CredentialOffer.SubmissionIntended` |

`FormState.Submit` keeps the guard as written, because that is what the
component does. `SubmissionIntended` is the corrected flow, and
`TicketSubmissionIntended` proves that it sends a ticket credential.

## Left out

- JSX rendering: the text inputs, layout, styles and the `<select>` options. Hiding the remove button for document rows (line 234) is left out too. `Remove` itself does not enforce that restriction, and neither does the handler.
- `generateString` (lines 25-28): it uses `Math.random`. The model takes a caller-supplied `freshId`, and uniqueness is a premise of `AppendedUnique`, not a precondition of `CreateNewField`.
- `getBase64FromUrl` (lines 33-44): `fetch`, `Blob` and `FileReader` are browser I/O. The model keeps only whether the fetch resolved (`fetchOk`), because the result is discarded.
- `serviceAPI.sendRPC`, `RpcRoutes` and the response `{qr, err}` (lines 166-183): a network call. The model returns the request body it would carry. A rejection of that call, which the handler passes on, is not modelled: `Submission` covers the failures before the request is sent.
- `console.log`, the async suspension points, and React's batching of `useState` updates: the model runs one handler at a time on the current state. This covers the read of `inputs` rather than `prev` at line 139.
- `setRenderAs` is never called, so `renderAs` keeps its initial value.
- `toLowerCase` outside ASCII: `ClaimKeys.ToLower` lowers only `A`-`Z`.
- Object aliasing: `[...documentInputs]` and `[...documentInputs, ...prev]` (lines 97, 140) copy arrays, not rows. Line 121 then writes into the shared row object, so an edit of a document row also changes the `documentInputs` constant and reappears after a later switch back to a document type. The model uses value semantics and does not capture this leak.
- The `placeholder` field of the document rows is only rendered, so `Row` leaves it out.
