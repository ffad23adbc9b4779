/** The signing-key ring: the `jwks` table of signing keys, the keyset of
    valid keys read from it, the signing key chosen from the keyset, key
    rotation, and the JSON Web Key Set published from the keyset
    (section 5 of RFC 7517). */
module Keys {
  import opened Common

  /** The members of a JSON Web Key object (JSON text is not modelled). */
  type Jwk = map<string, string>

  const DefaultAlg := "RS256"

  /** A row of the `jwks` table; `valid` is SQLite's integer boolean. */
  datatype DbKey = DbKey(id: int, valid: int, created: int, publicKey: Jwk, privateKey: Jwk, alg: string)

  /** A key as the application sees it. */
  datatype Key = Key(id: int, valid: bool, created: int, publicJwk: Jwk, privateJwk: Jwk, alg: string)

  datatype Keyset = Keyset(keys: seq<Key>)

  /** A freshly generated, exported key pair (key generation is opaque). */
  datatype KeyPair = KeyPair(publicJwk: Jwk, privateJwk: Jwk)

  datatype JwkSet = JwkSet(keys: seq<Jwk>)

  datatype Status = Done | Failed(message: string)

  // ---------------------------------------------------------------------
  // Rows and keys

  /** `interpretKey`: `valid` holds only for the integer 1; `created` keeps
      its number (a `Date` built from it and read back by `getTime`). */
  function InterpretKey(row: DbKey): Key
  {
    Key(row.id, row.valid == 1, row.created, row.publicKey, row.privateKey, row.alg)
  }

  /** `serializeKey`: always writes `valid` as 1. */
  function SerializeKey(key: Key): (row: DbKey)
    ensures row.valid == 1
    ensures InterpretKey(row) == key.(valid := true)
  {
    DbKey(key.id, 1, key.created, key.publicJwk, key.privateJwk, key.alg)
  }

  /** A row reads as valid exactly when its `valid` is 1, and serializing
      the key read gives back the row with `valid` 1; a row whose `valid` is
      1 survives interpretation and serialization unchanged. */
  lemma SerializeInterpret(row: DbKey)
    ensures InterpretKey(row).valid <==> row.valid == 1
    ensures SerializeKey(InterpretKey(row)) == row.(valid := 1)
    ensures row.valid == 1 ==> SerializeKey(InterpretKey(row)) == row
  {
  }

  /** `.map(interpretKey)`. */
  function Interpreted(rows: seq<DbKey>): (keys: seq<Key>)
    ensures |keys| == |rows|
    ensures forall i :: 0 <= i < |rows| ==> keys[i] == InterpretKey(rows[i])
  {
    seq(|rows|, i requires 0 <= i < |rows| => InterpretKey(rows[i]))
  }

  // ---------------------------------------------------------------------
  // The keyset: SELECT * FROM jwks WHERE valid ORDER BY created ASC

  /** `WHERE valid`: SQLite keeps the rows whose `valid` is non-zero. */
  function ValidRows(rows: seq<DbKey>): seq<DbKey>
  {
    if rows == [] then []
    else (if rows[0].valid != 0 then [rows[0]] else []) + ValidRows(rows[1..])
  }

  /** The filter keeps exactly the valid rows. */
  lemma {:induction false} ValidRowsSpec(rows: seq<DbKey>)
    ensures |ValidRows(rows)| <= |rows|
    ensures forall x :: x in ValidRows(rows) <==> x in rows && x.valid != 0
  {
    if rows != [] {
      ValidRowsSpec(rows[1..]);
      assert forall x :: x in rows <==> x == rows[0] || x in rows[1..] by {
        assert rows == [rows[0]] + rows[1..];
      }
    }
  }

  function ValidCount(rows: seq<DbKey>): nat
  {
    |ValidRows(rows)|
  }

  ghost predicate SortedByCreated(s: seq<DbKey>)
  {
    forall i, j :: 0 <= i < j < |s| ==> s[i].created <= s[j].created
  }

  /** One step of the sort: `row` placed before the first row that is not
      older than it. */
  function InsertByCreated(row: DbKey, s: seq<DbKey>): seq<DbKey>
  {
    if s == [] || row.created <= s[0].created then [row] + s
    else [s[0]] + InsertByCreated(row, s[1..])
  }

  lemma {:induction false} InsertPermutes(row: DbKey, s: seq<DbKey>)
    ensures |InsertByCreated(row, s)| == |s| + 1
    ensures multiset(InsertByCreated(row, s)) == multiset(s) + multiset{row}
  {
    if s != [] && row.created > s[0].created {
      InsertPermutes(row, s[1..]);
      assert s == [s[0]] + s[1..];
    }
  }

  lemma {:induction false} InsertKeepsSorted(row: DbKey, s: seq<DbKey>)
    requires SortedByCreated(s)
    ensures SortedByCreated(InsertByCreated(row, s))
  {
    if s != [] && row.created > s[0].created {
      var rest := InsertByCreated(row, s[1..]);
      InsertKeepsSorted(row, s[1..]);
      InsertPermutes(row, s[1..]);
      forall j | 0 <= j < |rest| ensures s[0].created <= rest[j].created {
        assert rest[j] in multiset(rest);
        if rest[j] != row {
          assert rest[j] in multiset(s[1..]);
          var k :| 0 <= k < |s[1..]| && s[1..][k] == rest[j];
          assert s[k + 1] == rest[j];
        }
      }
    }
  }

  /** `ORDER BY created ASC`, ties kept in table order. */
  function SortByCreated(s: seq<DbKey>): seq<DbKey>
  {
    if s == [] then [] else InsertByCreated(s[0], SortByCreated(s[1..]))
  }

  /** The sort orders by `created` and only reorders: the rows are the same,
      with the same multiplicities. */
  lemma {:induction false} SortSpec(s: seq<DbKey>)
    ensures SortedByCreated(SortByCreated(s))
    ensures multiset(SortByCreated(s)) == multiset(s)
    ensures |SortByCreated(s)| == |s|
    ensures forall x :: x in SortByCreated(s) <==> x in s
  {
    if s != [] {
      assert s == [s[0]] + s[1..];
      SortSpec(s[1..]);
      InsertPermutes(s[0], SortByCreated(s[1..]));
      InsertKeepsSorted(s[0], SortByCreated(s[1..]));
    }
    var r := SortByCreated(s);
    forall x ensures x in r <==> x in s {
      assert x in r <==> x in multiset(r);
      assert x in s <==> x in multiset(s);
    }
  }

  /** Interpreting a sorted arrangement of exactly the valid rows: the keys
      stay in order and are exactly the interpreted valid rows. */
  lemma KeysOfValidRows(rows: seq<DbKey>, sorted: seq<DbKey>, keys: seq<Key>)
    requires SortedByCreated(sorted)
    requires forall x :: x in sorted <==> x in rows && x.valid != 0
    requires keys == Interpreted(sorted)
    ensures forall i, j :: 0 <= i < j < |keys| ==> keys[i].created <= keys[j].created
    ensures forall row :: row in rows && row.valid != 0 ==> InterpretKey(row) in keys
    ensures forall k :: k in keys ==> exists row :: row in rows && row.valid != 0 && k == InterpretKey(row)
  {
    forall k | k in keys ensures exists row :: row in rows && row.valid != 0 && k == InterpretKey(row) {
      var i :| 0 <= i < |keys| && keys[i] == k;
      assert sorted[i] in sorted;
    }
    forall row | row in rows && row.valid != 0 ensures InterpretKey(row) in keys {
      var i :| 0 <= i < |sorted| && sorted[i] == row;
      assert keys[i] == InterpretKey(row);
    }
    forall i, j | 0 <= i < j < |keys| ensures keys[i].created <= keys[j].created {
      assert keys[i].created == sorted[i].created && keys[j].created == sorted[j].created;
    }
  }

  /** `getKeyset`: exactly the valid rows, interpreted, oldest first. */
  function GetKeyset(rows: seq<DbKey>): (ks: Keyset)
    ensures |ks.keys| == ValidCount(rows)
    ensures forall i, j :: 0 <= i < j < |ks.keys| ==> ks.keys[i].created <= ks.keys[j].created
    ensures forall row :: row in rows && row.valid != 0 ==> InterpretKey(row) in ks.keys
    ensures forall k :: k in ks.keys ==> exists row :: row in rows && row.valid != 0 && k == InterpretKey(row)
  {
    var valid := ValidRows(rows);
    ValidRowsSpec(rows);
    SortSpec(valid);
    var keys := Interpreted(SortByCreated(valid));
    KeysOfValidRows(rows, SortByCreated(valid), keys);
    Keyset(keys)
  }

  /** `getSigningKey`: the last (newest) key of the keyset. */
  function GetSigningKey(ks: Keyset): (r: Result<Key, string>)
    ensures r.Err? <==> ks.keys == []
    ensures r.Err? ==> r.error == "Missing signing key"
    ensures r.Ok? ==> r.value == ks.keys[|ks.keys| - 1]
  {
    if ks.keys == [] then Err("Missing signing key") else Ok(ks.keys[|ks.keys| - 1])
  }

  lemma KeysetOrdered(rows: seq<DbKey>, i: int, j: int)
    requires 0 <= i <= j < |GetKeyset(rows).keys|
    ensures GetKeyset(rows).keys[i].created <= GetKeyset(rows).keys[j].created
  {
    if i < j {
      var keys := GetKeyset(rows).keys;
      assert keys[i].created <= keys[j].created;
    }
  }

  /** The signing key chosen from the table exists exactly when some row is
      valid; it is one of the valid rows and none is newer. */
  lemma SigningKeyIsNewest(rows: seq<DbKey>)
    ensures GetSigningKey(GetKeyset(rows)).Ok? <==> exists row :: row in rows && row.valid != 0
    ensures GetSigningKey(GetKeyset(rows)).Ok? ==>
              var key := GetSigningKey(GetKeyset(rows)).value;
              (exists row :: row in rows && row.valid != 0 && key == InterpretKey(row)) &&
              forall row :: row in rows && row.valid != 0 ==> row.created <= key.created
  {
    var ks := GetKeyset(rows);
    if row :| row in rows && row.valid != 0 {
      assert InterpretKey(row) in ks.keys;
    }
    if ks.keys != [] {
      var key := ks.keys[|ks.keys| - 1];
      assert GetSigningKey(ks) == Ok(key);
      assert key in ks.keys;
      assert exists row :: row in rows && row.valid != 0 && key == InterpretKey(row);
      forall row | row in rows && row.valid != 0 ensures row.created <= key.created {
        assert InterpretKey(row) in ks.keys;
        var i :| 0 <= i < |ks.keys| && ks.keys[i] == InterpretKey(row);
        KeysetOrdered(rows, i, |ks.keys| - 1);
      }
    }
  }

  // ---------------------------------------------------------------------
  // Publication: keysetToJwks

  /** `{ alg: key.alg, ...JSON.parse(key.publicJWK) }`: members of the
      public key override `alg`. */
  function JwkEntry(key: Key): (e: Jwk)
    ensures e.Keys == {"alg"} + key.publicJwk.Keys
    ensures e["alg"] == if "alg" in key.publicJwk then key.publicJwk["alg"] else key.alg
    ensures forall m :: m in key.publicJwk ==> e[m] == key.publicJwk[m]
  {
    map["alg" := key.alg] + key.publicJwk
  }

  /** `keysetToJwks`. */
  function KeysetToJwks(ks: Keyset): (r: JwkSet)
    ensures |r.keys| == |ks.keys|
    ensures forall i :: 0 <= i < |ks.keys| ==> r.keys[i] == JwkEntry(ks.keys[i])
  {
    JwkSet(seq(|ks.keys|, i requires 0 <= i < |ks.keys| => JwkEntry(ks.keys[i])))
  }

  /** The published set depends on each key's `alg` and public members
      only, in keyset order: keysets that agree on those publish the same
      set, whatever their private material, ids, validity or dates. */
  lemma {:induction false} JwksIgnorePrivateMaterial(a: Keyset, b: Keyset)
    requires |a.keys| == |b.keys|
    requires forall i :: 0 <= i < |a.keys| ==> a.keys[i].alg == b.keys[i].alg && a.keys[i].publicJwk == b.keys[i].publicJwk
    ensures KeysetToJwks(a) == KeysetToJwks(b)
  {
    assert forall i :: 0 <= i < |a.keys| ==> KeysetToJwks(a).keys[i] == JwkEntry(a.keys[i]) == JwkEntry(b.keys[i]) == KeysetToJwks(b).keys[i];
  }

  /** Private-key members of an RSA JSON Web Key (section 6.3.2 of RFC 7518). */
  const PrivateMembers: set<string> := {"d", "p", "q", "dp", "dq", "qi", "oth"}

  /** The published set carries a private member only if some key's public
      JWK already does. */
  lemma JwksCarryNoPrivateMembers(ks: Keyset)
    requires forall k :: k in ks.keys ==> k.publicJwk.Keys !! PrivateMembers
    ensures forall e :: e in KeysetToJwks(ks).keys ==> e.Keys !! PrivateMembers
  {
    forall e | e in KeysetToJwks(ks).keys ensures e.Keys !! PrivateMembers {
      var i :| 0 <= i < |ks.keys| && KeysetToJwks(ks).keys[i] == e;
      assert ks.keys[i] in ks.keys;
    }
  }

  // ---------------------------------------------------------------------
  // The table invariant and the rotation step

  ghost predicate UniqueIds(rows: seq<DbKey>)
  {
    forall i, j :: 0 <= i < j < |rows| ==> rows[i].id != rows[j].id
  }

  /** What every write to the table keeps: `valid` is TRUE or FALSE, ids
      are a primary key. */
  ghost predicate WellFormed(rows: seq<DbKey>)
  {
    (forall i :: 0 <= i < |rows| ==> rows[i].valid == 0 || rows[i].valid == 1) && UniqueIds(rows)
  }

  /** The rowid SQLite assigns to an inserted row: one more than the
      largest in use, 1 in an empty table. */
  function FreshId(rows: seq<DbKey>): (id: int)
    ensures forall i :: 0 <= i < |rows| ==> rows[i].id < id
  {
    if rows == [] then 1
    else
      var rest := FreshId(rows[1..]);
      assert forall i :: 1 <= i < |rows| ==> rows[i] == rows[1..][i - 1];
      if rows[0].id < rest then rest else rows[0].id + 1
  }

  /** `generateNewKey`: id -1, valid, the default algorithm. */
  function GenerateNewKey(pair: KeyPair, nowMs: int): Key
  {
    Key(-1, true, nowMs, pair.publicJwk, pair.privateJwk, DefaultAlg)
  }

  /** The row `INSERT INTO jwks (valid, publicKey, privateKey, alg, created)
      VALUES (TRUE, ?, ?, ?, unixepoch())` adds for a generated key pair. */
  function NewRow(rows: seq<DbKey>, pair: KeyPair, nowMs: int): (row: DbKey)
    ensures row.valid == 1 && row.alg == DefaultAlg && row.created == nowMs / 1000
    ensures row.publicKey == pair.publicJwk && row.privateKey == pair.privateJwk
    ensures forall i :: 0 <= i < |rows| ==> rows[i].id != row.id
  {
    var serialized := SerializeKey(GenerateNewKey(pair, nowMs));
    DbKey(FreshId(rows), 1, nowMs / 1000, serialized.publicKey, serialized.privateKey, serialized.alg)
  }

  /** `UPDATE jwks SET valid = FALSE WHERE id = ?`. */
  function Invalidate(rows: seq<DbKey>, id: int): (r: seq<DbKey>)
    ensures |r| == |rows|
    ensures forall i :: 0 <= i < |rows| ==> r[i] == if rows[i].id == id then rows[i].(valid := 0) else rows[i]
  {
    if rows == [] then []
    else [if rows[0].id == id then rows[0].(valid := 0) else rows[0]] + Invalidate(rows[1..], id)
  }

  /** Whether the re-read keyset after an insert has more than two keys. */
  function NeedsInvalidation(inserted: seq<DbKey>): bool
  {
    |GetKeyset(inserted).keys| > 2
  }

  /** The table after a successful `saveNewKey` that inserted `row`: the
      row appended, then the oldest valid key invalidated if more than two
      are valid. */
  function Rotated(rows: seq<DbKey>, row: DbKey): seq<DbKey>
  {
    var inserted := rows + [row];
    var allKeys := GetKeyset(inserted);
    if |allKeys.keys| > 2 then Invalidate(inserted, allKeys.keys[0].id) else inserted
  }

  lemma RotatedRetiresOldest(rows: seq<DbKey>, row: DbKey)
    requires |GetKeyset(rows + [row]).keys| > 2
    ensures Rotated(rows, row) == Invalidate(rows + [row], GetKeyset(rows + [row]).keys[0].id)
  {
  }

  lemma RotatedKeepsAll(rows: seq<DbKey>, row: DbKey)
    requires |GetKeyset(rows + [row]).keys| <= 2
    ensures Rotated(rows, row) == rows + [row]
  {
  }

  // ---------------------------------------------------------------------
  // Counting valid rows

  lemma {:induction false} ValidRowsAppend(a: seq<DbKey>, b: seq<DbKey>)
    ensures ValidRows(a + b) == ValidRows(a) + ValidRows(b)
  {
    if a == [] {
      assert a + b == b;
    } else {
      assert (a + b)[1..] == a[1..] + b;
      ValidRowsAppend(a[1..], b);
    }
  }

  lemma {:induction false} InvalidateAbsent(rows: seq<DbKey>, id: int)
    requires forall i :: 0 <= i < |rows| ==> rows[i].id != id
    ensures Invalidate(rows, id) == rows
  {
  }

  /** Invalidating the id of one valid row, ids being unique, retires
      exactly that row. */
  lemma {:induction false} InvalidateOneValid(rows: seq<DbKey>, k: int)
    requires UniqueIds(rows) && 0 <= k < |rows| && rows[k].valid != 0
    ensures ValidCount(Invalidate(rows, rows[k].id)) == ValidCount(rows) - 1
  {
    var id := rows[k].id;
    var r := Invalidate(rows, id);
    assert rows == [rows[0]] + rows[1..];
    assert r == [r[0]] + r[1..];
    if k == 0 {
      InvalidateAbsent(rows[1..], id);
      assert r[1..] == rows[1..];
    } else {
      assert r[1..] == Invalidate(rows[1..], id);
      InvalidateOneValid(rows[1..], k - 1);
    }
  }

  /** The row holding the oldest key of a non-empty keyset. */
  lemma OldestRow(rows: seq<DbKey>) returns (k: int)
    requires GetKeyset(rows).keys != []
    ensures 0 <= k < |rows| && rows[k].valid != 0
    ensures InterpretKey(rows[k]) == GetKeyset(rows).keys[0]
  {
    var keys := GetKeyset(rows).keys;
    assert keys[0] in keys;
    var r0 :| r0 in rows && r0.valid != 0 && keys[0] == InterpretKey(r0);
    k :| 0 <= k < |rows| && rows[k] == r0;
  }

  lemma InsertedWellFormed(rows: seq<DbKey>, pair: KeyPair, nowMs: int)
    requires WellFormed(rows)
    ensures WellFormed(rows + [NewRow(rows, pair, nowMs)])
  {
  }

  lemma InvalidateWellFormed(rows: seq<DbKey>, id: int)
    requires WellFormed(rows)
    ensures WellFormed(Invalidate(rows, id))
  {
    var r := Invalidate(rows, id);
    assert forall i :: 0 <= i < |r| ==> r[i].id == rows[i].id;
  }

  /** With unique ids, invalidating the id of row `k` changes only the
      validity of row `k`. */
  lemma InvalidateRetiresOne(rows: seq<DbKey>, k: int)
    requires UniqueIds(rows) && 0 <= k < |rows|
    ensures var after := Invalidate(rows, rows[k].id);
            forall i :: 0 <= i < |rows| ==>
              after[i].created == rows[i].created && after[i].id == rows[i].id &&
              after[i].valid == if i == k then 0 else rows[i].valid
    ensures Invalidate(rows, rows[k].id) == rows[k := rows[k].(valid := 0)]
  {
    var after := Invalidate(rows, rows[k].id);
    forall i | 0 <= i < |rows| && i != k ensures after[i] == rows[i] {
      assert rows[i].id != rows[k].id by {
        if i < k { } else { }
      }
    }
  }

  /** A rotation from a well-formed table leaves it well-formed. */
  lemma RotatedWellFormed(rows: seq<DbKey>, pair: KeyPair, nowMs: int)
    requires WellFormed(rows)
    ensures WellFormed(Rotated(rows, NewRow(rows, pair, nowMs)))
  {
    var inserted := rows + [NewRow(rows, pair, nowMs)];
    InsertedWellFormed(rows, pair, nowMs);
    var keys := GetKeyset(inserted).keys;
    if |keys| > 2 {
      InvalidateWellFormed(inserted, keys[0].id);
    }
  }

  /** The valid count after a rotation: one more, unless that exceeds two,
      in which case the oldest valid key is retired and the count stays. */
  lemma RotatedValidCount(rows: seq<DbKey>, pair: KeyPair, nowMs: int)
    requires WellFormed(rows)
    ensures var n := ValidCount(rows);
            ValidCount(Rotated(rows, NewRow(rows, pair, nowMs))) == if n + 1 > 2 then n else n + 1
  {
    var row := NewRow(rows, pair, nowMs);
    var inserted := rows + [row];
    ValidRowsAppend(rows, [row]);
    assert ValidRows([row]) == [row];
    InsertedWellFormed(rows, pair, nowMs);
    var keys := GetKeyset(inserted).keys;
    if |keys| > 2 {
      var k := OldestRow(inserted);
      InvalidateOneValid(inserted, k);
    }
  }

  /** From at most two valid keys, a rotation leaves at most two. */
  lemma RotationKeepsAtMostTwo(rows: seq<DbKey>, pair: KeyPair, nowMs: int)
    requires WellFormed(rows) && ValidCount(rows) <= 2
    ensures ValidCount(Rotated(rows, NewRow(rows, pair, nowMs))) <= 2
  {
    RotatedValidCount(rows, pair, nowMs);
  }

  /** A rotation inserts exactly one row, valid, with the default algorithm
      and the generated key pair, and changes nothing else except that,
      exactly when more than two keys are valid after the insert, the one
      row holding the oldest valid key is retired. (That row is the new one
      itself if the clock gave it an older `created` than every other.) */
  lemma RotationAddsOneRow(rows: seq<DbKey>, pair: KeyPair, nowMs: int)
    requires WellFormed(rows)
    ensures var row := NewRow(rows, pair, nowMs);
            row.valid == 1 && row.alg == DefaultAlg &&
            row.publicKey == pair.publicJwk && row.privateKey == pair.privateJwk &&
            |Rotated(rows, row)| == |rows| + 1
    ensures var inserted := rows + [NewRow(rows, pair, nowMs)];
            var after := Rotated(rows, NewRow(rows, pair, nowMs));
            (!NeedsInvalidation(inserted) ==> after == inserted) &&
            (NeedsInvalidation(inserted) ==>
              exists k :: 0 <= k < |inserted| && inserted[k].valid != 0 &&
                InterpretKey(inserted[k]) == GetKeyset(inserted).keys[0] &&
                after == inserted[k := inserted[k].(valid := 0)])
  {
    var row := NewRow(rows, pair, nowMs);
    var inserted := rows + [row];
    InsertedWellFormed(rows, pair, nowMs);
    var keys := GetKeyset(inserted).keys;
    if |keys| > 2 {
      var k := OldestRow(inserted);
      assert Invalidate(inserted, inserted[k].id) == inserted[k := inserted[k].(valid := 0)];
    }
  }

  // ---------------------------------------------------------------------
  // The newest key signs

  /** A valid row strictly newer than every other valid row holds the
      signing key. */
  lemma NewestRowSigns(rows: seq<DbKey>, row: DbKey)
    requires UniqueIds(rows) && row in rows && row.valid != 0
    requires forall r :: r in rows && r.valid != 0 && r.id != row.id ==> r.created < row.created
    ensures GetSigningKey(GetKeyset(rows)) == Ok(InterpretKey(row))
  {
    SigningKeyIsNewest(rows);
    var key := GetSigningKey(GetKeyset(rows)).value;
    var x :| x in rows && x.valid != 0 && key == InterpretKey(x);
    assert row.created <= key.created;
    if x.id != row.id {
      assert false;
    }
    SameIdSameRow(rows, x, row);
  }

  lemma SameIdSameRow(rows: seq<DbKey>, x: DbKey, y: DbKey)
    requires UniqueIds(rows) && x in rows && y in rows && x.id == y.id
    ensures x == y
  {
    var p :| 0 <= p < |rows| && rows[p] == x;
    var q :| 0 <= q < |rows| && rows[q] == y;
    assert p == q;
  }

  lemma AppendedStaysNewest(rows: seq<DbKey>, row: DbKey, id: int)
    requires forall i :: 0 <= i < |rows| ==> rows[i].created < row.created
    requires row.id != id
    ensures var after := Invalidate(rows + [row], id);
            row in after && forall r :: r in after && r.id != row.id ==> r.created < row.created
  {
    var after := Invalidate(rows + [row], id);
    assert after[|rows|] == row;
    forall r | r in after && r.id != row.id ensures r.created < row.created {
      var j :| 0 <= j < |after| && after[j] == r;
      assert j < |rows| && r.created == rows[j].created;
    }
  }

  /** A row newer than every row before it holds the signing key once
      appended, when no key has to be retired. */
  lemma AppendedNewestSigns(rows: seq<DbKey>, row: DbKey)
    requires UniqueIds(rows + [row]) && row.valid != 0
    requires forall i :: 0 <= i < |rows| ==> rows[i].created < row.created
    ensures GetSigningKey(GetKeyset(rows + [row])) == Ok(InterpretKey(row))
  {
    var inserted := rows + [row];
    forall r | r in inserted && r.id != row.id ensures r.created < row.created {
      var j :| 0 <= j < |inserted| && inserted[j] == r;
      assert j != |rows|;
    }
    assert inserted[|rows|] == row;
    NewestRowSigns(inserted, row);
  }

  /** ... and still holds it after the oldest valid key is retired. */
  lemma RetiredNewestSigns(rows: seq<DbKey>, row: DbKey)
    requires WellFormed(rows + [row]) && row.valid != 0
    requires forall i :: 0 <= i < |rows| ==> rows[i].created < row.created
    requires |GetKeyset(rows + [row]).keys| > 2
    ensures GetSigningKey(GetKeyset(Invalidate(rows + [row], GetKeyset(rows + [row]).keys[0].id))) ==
            Ok(InterpretKey(row))
  {
    var inserted := rows + [row];
    var keys := GetKeyset(inserted).keys;
    var k := OldestRow(inserted);
    ValidRowsAppend(rows, [row]);
    assert ValidRows([row]) == [row];
    var other := ValidRows(rows)[0];
    ValidRowsSpec(rows);
    assert other in rows && other.valid != 0;
    assert InterpretKey(other) in keys;
    var q :| 0 <= q < |keys| && keys[q] == InterpretKey(other);
    KeysetOrdered(inserted, 0, q);
    assert k != |rows|;
    var after := Invalidate(inserted, inserted[k].id);
    InvalidateWellFormed(inserted, inserted[k].id);
    AppendedStaysNewest(rows, row, inserted[k].id);
    NewestRowSigns(after, row);
    assert keys[0].id == inserted[k].id;
  }

  /** When the clock is past every `created` in the table, the key just
      saved is the signing key after `saveNewKey`. */
  lemma NewKeySigns(rows: seq<DbKey>, pair: KeyPair, nowMs: int)
    requires WellFormed(rows)
    requires forall i :: 0 <= i < |rows| ==> rows[i].created < nowMs / 1000
    ensures var row := NewRow(rows, pair, nowMs);
            GetSigningKey(GetKeyset(Rotated(rows, row))) == Ok(InterpretKey(row))
  {
    var row := NewRow(rows, pair, nowMs);
    InsertedWellFormed(rows, pair, nowMs);
    if |GetKeyset(rows + [row]).keys| > 2 {
      RetiredNewestSigns(rows, row);
      RotatedRetiresOldest(rows, row);
    } else {
      AppendedNewestSigns(rows, row);
      RotatedKeepsAll(rows, row);
    }
  }

  // ---------------------------------------------------------------------
  // Repeated rotation

  datatype Rotation = Rotation(pair: KeyPair, nowMs: int)

  /** The table after a sequence of successful `saveNewKey` calls. */
  function RotateAll(rows: seq<DbKey>, steps: seq<Rotation>): seq<DbKey>
    decreases |steps|
  {
    if steps == [] then rows
    else RotateAll(Rotated(rows, NewRow(rows, steps[0].pair, steps[0].nowMs)), steps[1..])
  }

  function Min(a: int, b: int): int
  {
    if a < b then a else b
  }

  /** From at most two valid keys, each rotation adds a valid key until two
      are valid, and two stay valid after that. */
  lemma {:induction false} RotationsSettleAtTwo(rows: seq<DbKey>, steps: seq<Rotation>)
    requires WellFormed(rows) && ValidCount(rows) <= 2
    ensures ValidCount(RotateAll(rows, steps)) == Min(ValidCount(rows) + |steps|, 2)
    decreases |steps|
  {
    if steps != [] {
      var next := Rotated(rows, NewRow(rows, steps[0].pair, steps[0].nowMs));
      RotatedValidCount(rows, steps[0].pair, steps[0].nowMs);
      RotatedWellFormed(rows, steps[0].pair, steps[0].nowMs);
      RotationsSettleAtTwo(next, steps[1..]);
    }
  }

  /** Two or more rotations of an empty ring leave exactly two valid keys. */
  lemma TwoRotationsFromEmpty(steps: seq<Rotation>)
    requires |steps| >= 2
    ensures ValidCount(RotateAll([], steps)) == 2
  {
    RotationsSettleAtTwo([], steps);
  }

  /** Rows ordered by strictly increasing `created`: no two share a second. */
  ghost predicate Chronological(rows: seq<DbKey>)
  {
    forall i, j :: 0 <= i < j < |rows| ==> rows[i].created < rows[j].created
  }

  /** The valid rows are exactly the last `c` rows of the table. */
  ghost predicate ValidExactlyLast(rows: seq<DbKey>, c: nat)
  {
    c <= |rows| && forall i :: 0 <= i < |rows| ==> (rows[i].valid != 0 <==> |rows| - c <= i)
  }

  lemma {:induction false} ValidCountOfLast(rows: seq<DbKey>, c: nat)
    requires ValidExactlyLast(rows, c)
    ensures ValidCount(rows) == c
  {
    if rows != [] {
      var c' := if rows[0].valid != 0 then c - 1 else c;
      assert ValidExactlyLast(rows[1..], c');
      ValidCountOfLast(rows[1..], c');
    }
  }

  lemma RotatedCreated(rows: seq<DbKey>, row: DbKey)
    ensures |Rotated(rows, row)| == |rows| + 1
    ensures forall i :: 0 <= i < |rows| + 1 ==>
              Rotated(rows, row)[i].created == (rows + [row])[i].created &&
              Rotated(rows, row)[i].id == (rows + [row])[i].id
  {
  }

  /** In a table in time order whose valid rows are its last `c`, the
      oldest key of the keyset is the first of those rows. */
  lemma OldestIsFirstOfLast(rows: seq<DbKey>, c: nat)
    requires Chronological(rows) && ValidExactlyLast(rows, c) && c > 0
    ensures GetKeyset(rows).keys != [] && GetKeyset(rows).keys[0] == InterpretKey(rows[|rows| - c])
  {
    ValidCountOfLast(rows, c);
    var keys := GetKeyset(rows).keys;
    var k := OldestRow(rows);
    var f := |rows| - c;
    assert InterpretKey(rows[f]) in keys;
    var q :| 0 <= q < |keys| && keys[q] == InterpretKey(rows[f]);
    KeysetOrdered(rows, 0, q);
    assert k == f;
  }

  /** Retiring the first of the last `c` valid rows leaves the last `c - 1`. */
  lemma RetireFirstOfLast(rows: seq<DbKey>, c: nat)
    requires UniqueIds(rows) && Chronological(rows) && ValidExactlyLast(rows, c) && c > 0
    ensures var after := Invalidate(rows, rows[|rows| - c].id);
            Chronological(after) && ValidExactlyLast(after, c - 1)
  {
    var n := |rows|;
    var after := Invalidate(rows, rows[n - c].id);
    InvalidateRetiresOne(rows, n - c);
    forall i | 0 <= i < n ensures after[i].valid != 0 <==> n - (c - 1) <= i {
      assert rows[i].valid != 0 <==> n - c <= i;
    }
    forall i, j | 0 <= i < j < n ensures after[i].created < after[j].created {
      assert rows[i].created < rows[j].created;
    }
  }

  /** Retiring the oldest valid key of a table in time order whose valid
      rows are its last `c + 1`, more than two, leaves the last `c`. */
  lemma RetireOldestInOrder(inserted: seq<DbKey>, c: nat)
    requires UniqueIds(inserted) && Chronological(inserted)
    requires ValidExactlyLast(inserted, c + 1) && c + 1 > 2
    ensures GetKeyset(inserted).keys != []
    ensures var after := Invalidate(inserted, GetKeyset(inserted).keys[0].id);
            Chronological(after) && ValidExactlyLast(after, c)
  {
    var first := inserted[|inserted| - (c + 1)];
    OldestIsFirstOfLast(inserted, c + 1);
    RetireFirstOfLast(inserted, c + 1);
  }

  /** Rotating a table whose rows plus the new one are in time order and
      whose valid rows are the last `c + 1` of them. */
  lemma RotatedInOrder(rows: seq<DbKey>, row: DbKey, c: nat)
    requires UniqueIds(rows + [row]) && Chronological(rows + [row])
    requires ValidExactlyLast(rows + [row], c + 1) && c <= 2
    ensures Chronological(Rotated(rows, row)) && ValidExactlyLast(Rotated(rows, row), Min(c + 1, 2))
  {
    var inserted := rows + [row];
    ValidCountOfLast(inserted, c + 1);
    if c + 1 > 2 {
      RetireOldestInOrder(inserted, c);
      RotatedRetiresOldest(rows, row);
    } else {
      RotatedKeepsAll(rows, row);
    }
  }

  /** One rotation, with the clock past every `created`: the table stays in
      time order and the valid keys stay the newest ones, one more of them
      up to two. */
  lemma RotatedKeepsNewestValid(rows: seq<DbKey>, pair: KeyPair, nowMs: int, c: nat)
    requires WellFormed(rows) && Chronological(rows) && ValidExactlyLast(rows, c) && c <= 2
    requires forall i :: 0 <= i < |rows| ==> rows[i].created < nowMs / 1000
    ensures var after := Rotated(rows, NewRow(rows, pair, nowMs));
            Chronological(after) && ValidExactlyLast(after, Min(c + 1, 2))
  {
    var row := NewRow(rows, pair, nowMs);
    var inserted := rows + [row];
    assert UniqueIds(inserted) by { InsertedWellFormed(rows, pair, nowMs); }
    assert Chronological(inserted);
    assert ValidExactlyLast(inserted, c + 1);
    RotatedInOrder(rows, row, c);
  }

  /** Every rotation's clock is past every `created` in the table and past
      the clocks of the rotations before it. */
  ghost predicate ClockAdvances(rows: seq<DbKey>, steps: seq<Rotation>)
  {
    (forall i, j :: 0 <= i < |steps| && 0 <= j < |rows| ==> rows[j].created < steps[i].nowMs / 1000) &&
    (forall i, j :: 0 <= i < j < |steps| ==> steps[i].nowMs / 1000 < steps[j].nowMs / 1000)
  }

  /** Rotations on an advancing clock keep the valid keys the newest ones:
      from at most two, after enough rotations exactly the two most
      recently created rows are valid. */
  lemma {:induction false} RotationsKeepNewestValid(rows: seq<DbKey>, steps: seq<Rotation>, c: nat)
    requires WellFormed(rows) && Chronological(rows) && ValidExactlyLast(rows, c) && c <= 2
    requires ClockAdvances(rows, steps)
    ensures Chronological(RotateAll(rows, steps))
    ensures ValidExactlyLast(RotateAll(rows, steps), Min(c + |steps|, 2))
    decreases |steps|
  {
    if steps != [] {
      var next := Rotated(rows, NewRow(rows, steps[0].pair, steps[0].nowMs));
      RotatedKeepsNewestValid(rows, steps[0].pair, steps[0].nowMs, c);
      RotatedWellFormed(rows, steps[0].pair, steps[0].nowMs);
      ClockStillAdvances(rows, steps);
      RotationsKeepNewestValid(next, steps[1..], Min(c + 1, 2));
    }
  }

  /** After the first rotation, the remaining clocks are still past every
      `created` in the table. */
  lemma ClockStillAdvances(rows: seq<DbKey>, steps: seq<Rotation>)
    requires steps != [] && ClockAdvances(rows, steps)
    ensures ClockAdvances(Rotated(rows, NewRow(rows, steps[0].pair, steps[0].nowMs)), steps[1..])
  {
    var row := NewRow(rows, steps[0].pair, steps[0].nowMs);
    var next := Rotated(rows, row);
    RotatedCreated(rows, row);
    forall i, j | 0 <= i < |steps[1..]| && 0 <= j < |next|
      ensures next[j].created < steps[1..][i].nowMs / 1000
    {
      assert steps[1..][i] == steps[i + 1];
      if j < |rows| { } else { assert next[j].created == steps[0].nowMs / 1000; }
    }
  }

  /** The rotation promise: after two or more rotations
      of an empty ring on an advancing clock, exactly the two most recently
      created keys are valid. */
  lemma TwoNewestValidFromEmpty(steps: seq<Rotation>)
    requires |steps| >= 2
    requires forall i, j :: 0 <= i < j < |steps| ==> steps[i].nowMs / 1000 < steps[j].nowMs / 1000
    ensures var after := RotateAll([], steps);
            Chronological(after) && |after| == |steps| &&
            forall i :: 0 <= i < |after| ==> (after[i].valid != 0 <==> i >= |after| - 2)
  {
    RotationsKeepNewestValid([], steps, 0);
    RotateAllLength([], steps);
  }

  lemma {:induction false} RotateAllLength(rows: seq<DbKey>, steps: seq<Rotation>)
    ensures |RotateAll(rows, steps)| == |rows| + |steps|
    decreases |steps|
  {
    if steps != [] {
      var row := NewRow(rows, steps[0].pair, steps[0].nowMs);
      RotatedCreated(rows, row);
      RotateAllLength(Rotated(rows, row), steps[1..]);
    }
  }

  /** After `clearKeys` nothing is published and nothing can sign. */
  lemma ClearedRing()
    ensures GetKeyset([]).keys == []
    ensures KeysetToJwks(GetKeyset([])) == JwkSet([])
    ensures GetSigningKey(GetKeyset([])) == Err("Missing signing key")
  {
  }

  // ---------------------------------------------------------------------
  // The jwks table

  /** The `jwks` table of the relational store. Each write's success flag
      stands for the `success` field of the store's reply. */
  class KeyTable {
    var rows: seq<DbKey>

    ghost predicate Valid()
      reads this
    {
      WellFormed(rows)
    }

    constructor ()
      ensures Valid() && rows == []
    {
      rows := [];
    }

    /** `saveNewKey`: insert the generated key as a valid row, re-read the
        keyset, and retire the oldest valid key if more than two are valid.
        A failed insert fails before anything is written; a failed update
        leaves the inserted row in place. */
    method SaveNewKey(pair: KeyPair, nowMs: int, insertOk: bool, updateOk: bool) returns (status: Status)
      requires Valid()
      modifies this
      ensures Valid()
      ensures var row := NewRow(old(rows), pair, nowMs);
              if !insertOk then
                status == Failed("Failed to insert key") && rows == old(rows)
              else if NeedsInvalidation(old(rows) + [row]) && !updateOk then
                status == Failed("Failed to update old key") && rows == old(rows) + [row]
              else
                status == Done && rows == Rotated(old(rows), row)
    {
      var key := GenerateNewKey(pair, nowMs);
      var serialized := SerializeKey(key);
      if !insertOk {
        return Failed("Failed to insert key");
      }
      ghost var before := rows;
      InsertedWellFormed(rows, pair, nowMs);
      rows := rows + [DbKey(FreshId(rows), 1, nowMs / 1000, serialized.publicKey, serialized.privateKey, serialized.alg)];
      var allKeys := GetKeyset(rows);
      if |allKeys.keys| > 2 {
        var oldKey := allKeys.keys[0];
        if !updateOk {
          return Failed("Failed to update old key");
        }
        InvalidateWellFormed(rows, oldKey.id);
        rows := Invalidate(rows, oldKey.id);
      }
      status := Done;
    }

    /** `clearKeys`: `DELETE FROM jwks`. */
    method ClearKeys(deleteOk: bool) returns (status: Status)
      requires Valid()
      modifies this
      ensures Valid()
      ensures deleteOk ==> status == Done && rows == [] &&
                           KeysetToJwks(GetKeyset(rows)) == JwkSet([]) &&
                           GetSigningKey(GetKeyset(rows)).Err?
      ensures !deleteOk ==> status == Failed("Failed to delete keys") && rows == old(rows)
    {
      if !deleteOk {
        return Failed("Failed to delete keys");
      }
      rows := [];
      status := Done;
    }
  }
}
