/** The claims object of the request body: a left-to-right fold of the rows
    into a map from claim key to value, where a later row overwrites an
    earlier one with the same key. */
module ClaimsMap {
  import opened ClaimRows
  import opened ClaimKeys

  /** The key a row contributes; it never holds a space. */
  function KeyOf(r: Row): (k: string)
    ensures ' ' !in k
  {
    ClaimKey(r.fieldName)
  }

  /** The callback of `inputs.reduce` folded over `rows` from `acc`. */
  function Fold(acc: map<string, string>, rows: seq<Row>): (m: map<string, string>)
    ensures acc.Keys <= m.Keys
    ensures (forall k :: k in acc ==> ' ' !in k) ==> forall k :: k in m ==> ' ' !in k
    decreases rows
  {
    if rows == [] then acc
    else Fold(acc[KeyOf(rows[0]) := rows[0].value], rows[1..])
  }

  /** The claims map, folded from the empty object: no key holds a space. */
  function Claims(rows: seq<Row>): (m: map<string, string>)
    ensures forall k :: k in m ==> ' ' !in k
  {
    Fold(map[], rows)
  }

  /** The keys of all rows. */
  function KeySet(rows: seq<Row>): set<string> {
    set i | 0 <= i < |rows| :: KeyOf(rows[i])
  }

  /** Row `i` is the last row with its key. */
  predicate LastWithKey(rows: seq<Row>, i: nat)
    requires i < |rows|
  {
    forall j :: i < j < |rows| ==> KeyOf(rows[j]) != KeyOf(rows[i])
  }

  /** Folding one more row writes that row's entry over the result. */
  lemma {:induction false} FoldSnoc(acc: map<string, string>, rows: seq<Row>, r: Row)
    ensures Fold(acc, rows + [r]) == Fold(acc, rows)[KeyOf(r) := r.value]
    decreases rows
  {
    if rows == [] {
      assert rows + [r] == [r];
    } else {
      assert (rows + [r])[1..] == rows[1..] + [r];
      FoldSnoc(acc[KeyOf(rows[0]) := rows[0].value], rows[1..], r);
    }
  }

  /** The claims map has exactly the rows' keys. */
  lemma {:induction false} ClaimsKeys(rows: seq<Row>)
    ensures Claims(rows).Keys == KeySet(rows)
  {
    if rows != [] {
      var n := |rows| - 1;
      var init, last := rows[..n], rows[n];
      assert init + [last] == rows;
      ClaimsKeys(init);
      FoldSnoc(map[], init, last);
      forall k | k in KeySet(rows) ensures k in KeySet(init) + {KeyOf(last)} {
        var i :| 0 <= i < |rows| && KeyOf(rows[i]) == k;
        if i < n {
          assert init[i] == rows[i];
        }
      }
      forall k | k in KeySet(init) ensures k in KeySet(rows) {
        var i :| 0 <= i < |init| && KeyOf(init[i]) == k;
        assert rows[i] == init[i];
      }
    }
  }

  /** Each key holds the value of the last row with that key. */
  lemma {:induction false} ClaimsLastWins(rows: seq<Row>, i: nat)
    requires i < |rows| && LastWithKey(rows, i)
    ensures KeyOf(rows[i]) in Claims(rows)
    ensures Claims(rows)[KeyOf(rows[i])] == rows[i].value
  {
    var n := |rows| - 1;
    var init, last := rows[..n], rows[n];
    assert init + [last] == rows;
    FoldSnoc(map[], init, last);
    if i < n {
      assert KeyOf(last) != KeyOf(rows[i]);
      assert init[i] == rows[i];
      assert LastWithKey(init, i) by {
        forall j | i < j < |init| ensures KeyOf(init[j]) != KeyOf(init[i]) {
          assert init[j] == rows[j];
        }
      }
      ClaimsLastWins(init, i);
    }
  }

  /** Two rows whose labels collide on "foo": the later value wins. */
  lemma LaterCollidingRowWins(id1: string, id2: string, v1: string, v2: string)
    ensures Claims([Row(id1, "Foo", v1), Row(id2, "foo", v2)]) == map["foo" := v2]
  {
    ClaimKeysCollide();
    var rows := [Row(id1, "Foo", v1), Row(id2, "foo", v2)];
    assert KeyOf(rows[0]) == "foo" && KeyOf(rows[1]) == "foo";
    assert rows == [rows[0]] + [rows[1]];
    FoldSnoc(map[], [rows[0]], rows[1]);
    assert Fold(map[], [rows[0]]) == map["foo" := v1];
  }
}
