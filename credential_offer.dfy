/** The state of the generic credential-offer form and its handlers, and the
    request body the submit handler sends. */
module CredentialOffer {
  import opened ClaimRows
  import opened ClaimsMap

  /** Why a handler throws instead of completing. */
  datatype Fault =
    | MissingRow    // handleInputChange: no row has the id, so `foundInput` is undefined
    | MissingPhoto  // handleSubmit: no `photo` row, so `inputs[-1]` is undefined
    | FetchFailed   // handleSubmit: fetching or reading the photo URL rejected

  datatype Result<T> = Success(value: T) | Failure(fault: Fault)

  /** The body of the `genericCredentialOffer` call. */
  datatype RequestBody = RequestBody(
    renderAs: string,
    name: string,
    credType: string,
    claims: map<string, string>)

  /** The body built from the form state as it stands: its claims are keyed
      by exactly the rows' claim keys. */
  function Body(renderAs: string, credName: string, credType: CredentialType,
                rows: seq<Row>): (b: RequestBody)
    ensures b.claims.Keys == KeySet(rows)
    ensures b.name == credName && b.renderAs == renderAs && b.credType == TypeName(credType)
  {
    ClaimsKeys(rows);
    RequestBody(renderAs, credName, TypeName(credType), Claims(rows))
  }

  /** The guard `if (imgInputIdx)` as written: a number is truthy unless it
      is 0, so "not found" (-1) enters the branch and a `photo` row at the
      head skips it. */
  predicate EntersPhotoBranch(rows: seq<Row>)
    ensures EntersPhotoBranch(rows) <==> !HasName(rows, PHOTO) || FindIndex(rows, PHOTO) > 0
  {
    FindIndex(rows, PHOTO) != 0
  }

  /** The branch is skipped exactly when the first row is the `photo` row. */
  lemma EntersPhotoBranchIff(rows: seq<Row>)
    ensures EntersPhotoBranch(rows) <==> rows == [] || rows[0].name != PHOTO
  {
  }

  /** What `handleSubmit` yields, given whether the photo fetch succeeds.
      The photo row is written back unchanged, so on success the claims are
      those of the rows as they were. */
  function Submission(renderAs: string, credName: string, credType: CredentialType,
                      rows: seq<Row>, fetchOk: bool): (r: Result<RequestBody>)
    ensures r.Failure? <==> !HasName(rows, PHOTO) || (FindIndex(rows, PHOTO) > 0 && !fetchOk)
    ensures !HasName(rows, PHOTO) ==> r == Failure(MissingPhoto)
    ensures r.Success? ==> r.value == Body(renderAs, credName, credType, rows)
    ensures !EntersPhotoBranch(rows) ==> r == Success(Body(renderAs, credName, credType, rows))
  {
    var idx := FindIndex(rows, PHOTO);
    if EntersPhotoBranch(rows) then
      if idx == -1 then Failure(MissingPhoto)
      else if !fetchOk then Failure(FetchFailed)
      else
        assert rows[idx := rows[idx]] == rows;
        Success(Body(renderAs, credName, credType, rows[idx := rows[idx]]))
    else
      Success(Body(renderAs, credName, credType, rows))
  }

  /** After switching to the ticket type no `photo` row is left, so every
      submission of a ticket credential throws. */
  lemma TicketSubmissionFails(renderAs: string, credName: string, rows: seq<Row>, fetchOk: bool)
    ensures Submission(renderAs, credName, ProofOfTicketDemo,
                       TypeSwitched(rows, ProofOfTicketDemo), fetchOk)
            == Failure(MissingPhoto)
  {
    SwitchToTicket(rows);
  }

  /** The guard as evidently intended: enter the branch when a `photo` row
      was found. */
  predicate EntersPhotoBranchIntended(rows: seq<Row>)
    ensures EntersPhotoBranchIntended(rows) <==> HasName(rows, PHOTO)
  {
    FindIndex(rows, PHOTO) != -1
  }

  /** `handleSubmit` with the intended guard: it never reads a missing row,
      fails only when a `photo` row exists and its fetch fails, and sends
      the same body otherwise. */
  function SubmissionIntended(renderAs: string, credName: string, credType: CredentialType,
                              rows: seq<Row>, fetchOk: bool): (r: Result<RequestBody>)
    ensures r.Failure? <==> HasName(rows, PHOTO) && !fetchOk
    ensures r.Failure? ==> r.fault == FetchFailed
    ensures r.Success? ==> r.value == Body(renderAs, credName, credType, rows)
  {
    var idx := FindIndex(rows, PHOTO);
    if EntersPhotoBranchIntended(rows) then
      if !fetchOk then Failure(FetchFailed)
      else
        assert rows[idx := rows[idx]] == rows;
        Success(Body(renderAs, credName, credType, rows[idx := rows[idx]]))
    else
      Success(Body(renderAs, credName, credType, rows))
  }

  /** With the intended guard a ticket credential is sent, whatever the
      fetch would have done. */
  lemma TicketSubmissionIntended(renderAs: string, credName: string, rows: seq<Row>, fetchOk: bool)
    ensures var after := TypeSwitched(rows, ProofOfTicketDemo);
            SubmissionIntended(renderAs, credName, ProofOfTicketDemo, after, fetchOk)
            == Success(Body(renderAs, credName, ProofOfTicketDemo, after))
  {
    SwitchToTicket(rows);
  }

  /** The form's state: the scalar inputs and the claim rows. */
  class FormState {
    var credName: string
    var credType: CredentialType
    var newField: string
    var renderAs: string
    var rows: seq<Row>

    /** The state on mount: the default type is a document type, so the
        rows start as the three document rows. */
    constructor ()
      ensures credName == [] && newField == [] && renderAs == "document"
      ensures credType == ProofOfIdCredentialDemo
      ensures rows == DOCUMENT_INPUTS && UniqueIds(rows)
    {
      var initialType := ProofOfIdCredentialDemo;
      credName := "";
      credType := initialType;
      newField := "";
      renderAs := "document";
      rows := if IsDocumentType(initialType) then DOCUMENT_INPUTS else [];
    }

    /** The credential-name text input. */
    method SetCredName(v: string)
      modifies this`credName
      ensures credName == v
    {
      credName := v;
    }

    /** The new-claim text input. */
    method SetNewField(v: string)
      modifies this`newField
      ensures newField == v
    {
      newField := v;
    }

    /** `handleCreateNewField`; `freshId` stands for `generateString()`. */
    method CreateNewField(freshId: string)
      modifies this`rows, this`newField
      ensures rows == Appended(old(rows), old(newField), freshId)
      ensures newField == []
    {
      if |newField| > 0 {
        var pending := newField;
        newField := "";
        rows := rows + [Row(freshId, pending, "")];
      }
    }

    /** `handleInputChange`: copy the rows, find the first row with the id
        and write the new value into it. Without such a row the handler
        throws and the rows stay as they were. */
    method InputChange(id: string, v: string) returns (outcome: Result<()>)
      modifies this`rows
      ensures outcome == if HasName(old(rows), id) then Success(()) else Failure(MissingRow)
      ensures rows == Updated(old(rows), id, v)
    {
      var inputArray := rows;
      var inputIndex := FindIndex(inputArray, id);
      if inputIndex == -1 {
        UpdateMissingIsIdentity(rows, id, v);
        return Failure(MissingRow);
      }
      var foundInput := inputArray[inputIndex];
      foundInput := foundInput.(value := v);
      inputArray := inputArray[inputIndex := foundInput];
      UpdatedAtFoundIndex(rows, id, v);
      rows := inputArray;
      outcome := Success(());
    }

    /** `handleRemove`. */
    method Remove(id: string)
      modifies this`rows
      ensures rows == Removed(old(rows), id)
    {
      rows := Without(rows, {id});
    }

    /** `handleTypeChange`. */
    method TypeChange(selected: CredentialType)
      modifies this`rows, this`credType
      ensures rows == TypeSwitched(old(rows), selected)
      ensures credType == selected
    {
      if IsDocumentType(selected) {
        if Find(rows, GIVEN_NAME).None? {
          rows := DOCUMENT_INPUTS + rows;
        }
      } else {
        rows := Without(rows, DOCUMENT_NAMES);
      }
      credType := selected;
    }

    /** `handleSubmit` up to the outbound call: the photo guard as written,
        the in-place write-back of the photo row, and the request body. */
    method Submit(fetchOk: bool) returns (r: Result<RequestBody>)
      modifies this`rows
      ensures rows == old(rows)
      ensures r == Submission(renderAs, credName, credType, rows, fetchOk)
    {
      var imgInputIdx := FindIndex(rows, PHOTO);
      if imgInputIdx != 0 {
        if imgInputIdx == -1 {
          return Failure(MissingPhoto);
        }
        var imgInput := rows[imgInputIdx];
        if !fetchOk {
          return Failure(FetchFailed);
        }
        rows := rows[imgInputIdx := imgInput];
      }
      r := Success(Body(renderAs, credName, credType, rows));
    }
  }
}
