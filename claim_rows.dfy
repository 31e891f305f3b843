/** The claim rows of the credential-offer form and the pure transformations
    the form's handlers apply to them: append, update by id, filter by id and
    the credential-type switch. */
module ClaimRows {

  /** One editable claim: `name` is the synthetic row id, `fieldName` the
      label that becomes the claim key, `value` the claim value. */
  datatype Row = Row(name: string, fieldName: string, value: string)

  datatype Option<T> = None | Some(value: T)

  datatype CredentialType =
    | ProofOfIdCredentialDemo
    | ProofOfDriverLicenceDemo
    | ProofOfTicketDemo

  /** The string value of each enum member, sent as the request's `type`. */
  function TypeName(t: CredentialType): string {
    match t
    case ProofOfIdCredentialDemo => "ProofOfIdCredentialDemo"
    case ProofOfDriverLicenceDemo => "ProofOfDriverLicenceDemo"
    case ProofOfTicketDemo => "ProofOfTicketDemo"
  }

  /** Membership in the `documentTypes` list. */
  predicate IsDocumentType(t: CredentialType)
    ensures IsDocumentType(t) <==> t != ProofOfTicketDemo
  {
    t == ProofOfDriverLicenceDemo || t == ProofOfIdCredentialDemo
  }

  const GIVEN_NAME: string := "givenName"
  const FAMILY_NAME: string := "familyName"
  const PHOTO: string := "photo"
  const PHOTO_URL: string :=
    "https://i.pinimg.com/564x/64/4d/dc/644ddca56c43e4b01af5aec27e010feb.jpg"

  /** The three fixed rows a document credential carries, in this order. */
  const DOCUMENT_INPUTS: seq<Row> := [
    Row(GIVEN_NAME, GIVEN_NAME, ""),
    Row(FAMILY_NAME, FAMILY_NAME, ""),
    Row(PHOTO, PHOTO, PHOTO_URL)
  ]

  /** The ids of the document rows (`documentInputs.map(v => v.name)`). */
  const DOCUMENT_NAMES: set<string> := {GIVEN_NAME, FAMILY_NAME, PHOTO}

  /** Some row has id `id`. */
  predicate HasName(rows: seq<Row>, id: string) {
    exists i :: 0 <= i < |rows| && rows[i].name == id
  }

  /** No two rows share an id. */
  predicate UniqueIds(rows: seq<Row>) {
    forall i, j :: 0 <= i < j < |rows| ==> rows[i].name != rows[j].name
  }

  /** `Array.prototype.findIndex` on the row ids: the index of the first row
      with id `id`, or -1 when there is none. */
  function FindIndex(rows: seq<Row>, id: string): (r: int)
    ensures -1 <= r < |rows|
    ensures r == -1 <==> !HasName(rows, id)
    ensures r >= 0 ==> rows[r].name == id
    ensures r >= 0 ==> forall j :: 0 <= j < r ==> rows[j].name != id
  {
    if rows == [] then -1
    else if rows[0].name == id then 0
    else
      var k := FindIndex(rows[1..], id);
      assert forall i :: 1 <= i < |rows| ==> rows[i] == rows[1..][i - 1];
      if k == -1 then -1 else k + 1
  }

  /** `Array.prototype.find` on the row ids: the first row with id `id`. */
  function Find(rows: seq<Row>, id: string): (r: Option<Row>)
    ensures r.None? <==> !HasName(rows, id)
    ensures r.Some? ==> r.value.name == id && r.value in rows
    ensures r.Some? ==> r.value == rows[FindIndex(rows, id)]
  {
    var k := FindIndex(rows, id);
    if k == -1 then None else Some(rows[k])
  }

  /** The enum's string values are distinct, the document types are the two
      proof-of-identity types, and the document rows are the three fixed
      rows, each with its id as label, with distinct ids that make up
      `DOCUMENT_NAMES`. */
  lemma CredentialConstants(a: CredentialType, b: CredentialType)
    ensures TypeName(a) == TypeName(b) ==> a == b
    ensures IsDocumentType(ProofOfIdCredentialDemo) && IsDocumentType(ProofOfDriverLicenceDemo)
    ensures !IsDocumentType(ProofOfTicketDemo)
    ensures |DOCUMENT_INPUTS| == 3
    ensures DOCUMENT_INPUTS[0].name == GIVEN_NAME && DOCUMENT_INPUTS[1].name == FAMILY_NAME
    ensures DOCUMENT_INPUTS[2].name == PHOTO && DOCUMENT_INPUTS[2].value == PHOTO_URL
    ensures DOCUMENT_INPUTS[0].value == DOCUMENT_INPUTS[1].value == ""
    ensures forall i :: 0 <= i < |DOCUMENT_INPUTS| ==> DOCUMENT_INPUTS[i].fieldName == DOCUMENT_INPUTS[i].name
    ensures UniqueIds(DOCUMENT_INPUTS)
    ensures DOCUMENT_NAMES == set i | 0 <= i < |DOCUMENT_INPUTS| :: DOCUMENT_INPUTS[i].name
  {
    var ns := set i | 0 <= i < |DOCUMENT_INPUTS| :: DOCUMENT_INPUTS[i].name;
    assert DOCUMENT_INPUTS[0].name in ns && DOCUMENT_INPUTS[1].name in ns && DOCUMENT_INPUTS[2].name in ns;
  }

  // ---------------------------------------------------------------------
  // handleInputChange: the first row with the id gets the new value.

  /** Reference definition of an update by id: walk the rows and give the
      first one whose id matches the new value. */
  function Updated(rows: seq<Row>, id: string, v: string): (r: seq<Row>)
    ensures |r| == |rows|
  {
    if rows == [] then []
    else if rows[0].name == id then [rows[0].(value := v)] + rows[1..]
    else [rows[0]] + Updated(rows[1..], id, v)
  }

  /** The in-place write at the found index agrees with the reference. */
  lemma {:induction false} UpdatedAtFoundIndex(rows: seq<Row>, id: string, v: string)
    requires HasName(rows, id)
    ensures var k := FindIndex(rows, id);
            Updated(rows, id, v) == rows[k := rows[k].(value := v)]
  {
    if rows[0].name != id {
      assert HasName(rows[1..], id) by {
        var i :| 0 <= i < |rows| && rows[i].name == id;
        assert rows[1..][i - 1].name == id;
      }
      UpdatedAtFoundIndex(rows[1..], id, v);
    }
  }

  /** Row `j` is the first row whose id is `id`. */
  predicate FirstWithId(rows: seq<Row>, id: string, j: nat)
    requires j < |rows|
  {
    rows[j].name == id && forall i :: 0 <= i < j ==> rows[i].name != id
  }

  /** Only the first row with the id changes, and only in its value. */
  lemma {:induction false} UpdateFirstMatchOnly(rows: seq<Row>, id: string, v: string, j: nat)
    requires j < |rows|
    ensures Updated(rows, id, v)[j].name == rows[j].name
    ensures Updated(rows, id, v)[j].fieldName == rows[j].fieldName
    ensures FirstWithId(rows, id, j) ==> Updated(rows, id, v)[j].value == v
    ensures !FirstWithId(rows, id, j) ==> Updated(rows, id, v)[j] == rows[j]
  {
    if rows[0].name != id && j > 0 {
      UpdateFirstMatchOnly(rows[1..], id, v, j - 1);
      assert forall i :: 0 <= i < j - 1 ==> rows[1..][i] == rows[i + 1];
    }
  }

  /** An update keeps the ids, so it keeps them unique. */
  lemma UpdatedUnique(rows: seq<Row>, id: string, v: string)
    requires UniqueIds(rows)
    ensures UniqueIds(Updated(rows, id, v))
  {
    forall i, j | 0 <= i < j < |rows|
      ensures Updated(rows, id, v)[i].name != Updated(rows, id, v)[j].name
    {
      UpdateFirstMatchOnly(rows, id, v, i);
      UpdateFirstMatchOnly(rows, id, v, j);
    }
  }

  /** Without a row carrying the id, the update changes nothing. */
  lemma {:induction false} UpdateMissingIsIdentity(rows: seq<Row>, id: string, v: string)
    requires !HasName(rows, id)
    ensures Updated(rows, id, v) == rows
  {
    if rows != [] {
      assert !HasName(rows[1..], id) by {
        forall i | 0 <= i < |rows[1..]| ensures rows[1..][i].name != id {
          assert rows[1..][i] == rows[i + 1];
        }
      }
      UpdateMissingIsIdentity(rows[1..], id, v);
    }
  }

  // ---------------------------------------------------------------------
  // handleRemove and the ticket branch of handleTypeChange: filter by id.

  /** The rows whose id is not in `names`, in their original order. */
  function Without(rows: seq<Row>, names: set<string>): (r: seq<Row>)
    ensures |r| <= |rows|
    ensures forall x :: x in r ==> x in rows && x.name !in names
  {
    if rows == [] then []
    else if rows[0].name in names then Without(rows[1..], names)
    else [rows[0]] + Without(rows[1..], names)
  }

  /** The number of rows whose id is in `names`. */
  function Count(rows: seq<Row>, names: set<string>): (n: nat)
    ensures n <= |rows|
  {
    if rows == [] then 0
    else (if rows[0].name in names then 1 else 0) + Count(rows[1..], names)
  }

  /** Every row whose id is not filtered out survives. */
  lemma {:induction false} WithoutKeeps(rows: seq<Row>, names: set<string>, x: Row)
    requires x in rows && x.name !in names
    ensures x in Without(rows, names)
  {
    if rows[0] != x {
      WithoutKeeps(rows[1..], names, x);
    }
  }

  /** The filter drops exactly the matching rows. */
  lemma {:induction false} WithoutLength(rows: seq<Row>, names: set<string>)
    ensures |Without(rows, names)| == |rows| - Count(rows, names)
  {
    if rows != [] {
      WithoutLength(rows[1..], names);
    }
  }

  /** The filter keeps relative order: it distributes over concatenation. */
  lemma {:induction false} WithoutConcat(a: seq<Row>, b: seq<Row>, names: set<string>)
    ensures Without(a + b, names) == Without(a, names) + Without(b, names)
  {
    if a == [] {
      assert a + b == b;
    } else {
      assert (a + b)[1..] == a[1..] + b;
      WithoutConcat(a[1..], b, names);
    }
  }

  /** A sequence with no matching row is left as it is. */
  lemma {:induction false} WithoutNoMatch(rows: seq<Row>, names: set<string>)
    requires forall i :: 0 <= i < |rows| ==> rows[i].name !in names
    ensures Without(rows, names) == rows
  {
    if rows != [] {
      WithoutNoMatch(rows[1..], names);
    }
  }

  /** Filtering twice is filtering once. */
  lemma WithoutIdempotent(rows: seq<Row>, names: set<string>)
    ensures Without(Without(rows, names), names) == Without(rows, names)
  {
    var r := Without(rows, names);
    forall i | 0 <= i < |r| ensures r[i].name !in names {
      assert r[i] in r;
    }
    WithoutNoMatch(r, names);
  }

  /** Filtering keeps ids unique. */
  lemma {:induction false} WithoutUnique(rows: seq<Row>, names: set<string>)
    requires UniqueIds(rows)
    ensures UniqueIds(Without(rows, names))
  {
    if rows != [] {
      var rest := rows[1..];
      assert UniqueIds(rest) by {
        forall i, j | 0 <= i < j < |rest| ensures rest[i].name != rest[j].name {
          assert rest[i] == rows[i + 1] && rest[j] == rows[j + 1];
        }
      }
      WithoutUnique(rest, names);
      if rows[0].name !in names {
        var w := Without(rest, names);
        forall j | 0 <= j < |w| ensures w[j].name != rows[0].name {
          assert w[j] in w;
          var k :| 0 <= k < |rest| && rest[k] == w[j];
          assert rest[k] == rows[k + 1];
        }
      }
    }
  }

  /** Removing an id (`handleRemove`). */
  function Removed(rows: seq<Row>, id: string): (r: seq<Row>)
    ensures !HasName(r, id)
    ensures |r| <= |rows|
  {
    Without(rows, {id})
  }

  /** After a removal no row has the id, every other row survives in order,
      and the length drops by the number of rows that had the id. */
  lemma RemovedSpec(rows: seq<Row>, id: string)
    ensures !HasName(Removed(rows, id), id)
    ensures forall x :: x in Removed(rows, id) <==> x in rows && x.name != id
    ensures |Removed(rows, id)| == |rows| - Count(rows, {id})
  {
    var r := Removed(rows, id);
    forall i | 0 <= i < |r| ensures r[i].name != id {
      assert r[i] in r;
    }
    forall x | x in rows && x.name != id ensures x in r {
      WithoutKeeps(rows, {id}, x);
    }
    WithoutLength(rows, {id});
  }

  // ---------------------------------------------------------------------
  // handleCreateNewField: append a row with a fresh id.

  /** `handleCreateNewField`'s update when the pending label is `pending`. */
  function Appended(rows: seq<Row>, pending: string, freshId: string): (r: seq<Row>)
    ensures |r| == |rows| + (if pending == [] then 0 else 1)
    ensures r[..|rows|] == rows
  {
    if |pending| == 0 then rows else rows + [Row(freshId, pending, "")]
  }

  /** An empty label changes nothing; any other label (whitespace included)
      adds one row at the end and leaves the earlier rows as they were. */
  lemma AppendedSpec(rows: seq<Row>, pending: string, freshId: string)
    ensures pending == [] ==> Appended(rows, pending, freshId) == rows
    ensures pending != [] ==>
      && |Appended(rows, pending, freshId)| == |rows| + 1
      && Appended(rows, pending, freshId)[..|rows|] == rows
      && Appended(rows, pending, freshId)[|rows|] == Row(freshId, pending, "")
  {
  }

  /** A fresh id keeps the ids unique. */
  lemma AppendedUnique(rows: seq<Row>, pending: string, freshId: string)
    requires UniqueIds(rows) && !HasName(rows, freshId)
    ensures UniqueIds(Appended(rows, pending, freshId))
  {
    var r := Appended(rows, pending, freshId);
    forall i, j | 0 <= i < j < |r| ensures r[i].name != r[j].name {
      if j == |rows| {
        assert r[i] == rows[i];
      }
    }
  }

  // ---------------------------------------------------------------------
  // handleTypeChange: the rows after a credential type is selected.

  /** A document type prepends the three document rows unless a `givenName`
      row is already there; the ticket type drops every row whose id is a
      document id. */
  function TypeSwitched(rows: seq<Row>, selected: CredentialType): (r: seq<Row>)
    ensures IsDocumentType(selected) ==> HasName(r, GIVEN_NAME)
    ensures !IsDocumentType(selected) ==> forall i :: 0 <= i < |r| ==> r[i].name !in DOCUMENT_NAMES
  {
    if IsDocumentType(selected) then
      if Find(rows, GIVEN_NAME).Some? then rows
      else
        assert (DOCUMENT_INPUTS + rows)[0].name == GIVEN_NAME;
        DOCUMENT_INPUTS + rows
    else
      Without(rows, DOCUMENT_NAMES)
  }

  /** A document type leaves the three document rows at the head, in order:
      it prepends them when `givenName` is missing and otherwise changes
      nothing. */
  lemma SwitchToDocument(rows: seq<Row>, selected: CredentialType)
    requires IsDocumentType(selected)
    ensures !HasName(rows, GIVEN_NAME) ==>
      && TypeSwitched(rows, selected)[..3] == DOCUMENT_INPUTS
      && TypeSwitched(rows, selected)[3..] == rows
      && TypeSwitched(rows, selected)[2].value == PHOTO_URL
    ensures HasName(rows, GIVEN_NAME) ==> TypeSwitched(rows, selected) == rows
    ensures HasName(TypeSwitched(rows, selected), GIVEN_NAME)
  {
    if !HasName(rows, GIVEN_NAME) {
      assert TypeSwitched(rows, selected)[0].name == GIVEN_NAME;
    }
  }

  /** The ticket type removes exactly the document rows, keeps every other
      row in order, and a second switch changes nothing. */
  lemma SwitchToTicket(rows: seq<Row>)
    ensures forall d :: d in DOCUMENT_NAMES ==> !HasName(TypeSwitched(rows, ProofOfTicketDemo), d)
    ensures forall x :: x in TypeSwitched(rows, ProofOfTicketDemo) <==> x in rows && x.name !in DOCUMENT_NAMES
    ensures |TypeSwitched(rows, ProofOfTicketDemo)| == |rows| - Count(rows, DOCUMENT_NAMES)
    ensures TypeSwitched(TypeSwitched(rows, ProofOfTicketDemo), ProofOfTicketDemo)
            == TypeSwitched(rows, ProofOfTicketDemo)
  {
    var r := TypeSwitched(rows, ProofOfTicketDemo);
    forall d, i | d in DOCUMENT_NAMES && 0 <= i < |r| ensures r[i].name != d {
      assert r[i] in r;
    }
    forall x | x in rows && x.name !in DOCUMENT_NAMES ensures x in r {
      WithoutKeeps(rows, DOCUMENT_NAMES, x);
    }
    WithoutLength(rows, DOCUMENT_NAMES);
    WithoutIdempotent(rows, DOCUMENT_NAMES);
  }

  /** A type switch keeps ids unique, provided that when `givenName` is
      missing no other document id is present either. */
  lemma TypeSwitchedUnique(rows: seq<Row>, selected: CredentialType)
    requires UniqueIds(rows)
    requires !HasName(rows, GIVEN_NAME) ==> !HasName(rows, FAMILY_NAME) && !HasName(rows, PHOTO)
    ensures UniqueIds(TypeSwitched(rows, selected))
  {
    if !IsDocumentType(selected) {
      WithoutUnique(rows, DOCUMENT_NAMES);
    } else if !HasName(rows, GIVEN_NAME) {
      var r := TypeSwitched(rows, selected);
      forall i, j | 0 <= i < j < |r| ensures r[i].name != r[j].name {
        if j >= 3 {
          assert r[j] == rows[j - 3];
          if i >= 3 {
            assert r[i] == rows[i - 3];
          }
        }
      }
    }
  }

  /** Without that proviso a user row whose id happens to be `photo` is
      duplicated by a switch to a document type. */
  lemma TypeSwitchCanDuplicatePhoto(valueOfRow: string)
    ensures !UniqueIds(TypeSwitched([Row(PHOTO, "x", valueOfRow)], ProofOfIdCredentialDemo))
  {
    var r := TypeSwitched([Row(PHOTO, "x", valueOfRow)], ProofOfIdCredentialDemo);
    assert !HasName([Row(PHOTO, "x", valueOfRow)], GIVEN_NAME);
    assert r[2].name == r[3].name;
  }
}
