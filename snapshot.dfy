/**
 * The transformations the student service applies to its client-side
 * snapshot when a request succeeds, as pure functions on sequences, and
 * the properties that keep the snapshot consistent with the server
 * without a re-fetch.
 */
module Snapshot {
  import opened StudentModel

  /** The keys of a snapshot, in order. */
  function Ids(s: seq<Student>): (r: seq<int>)
    ensures |r| == |s|
    ensures forall i :: 0 <= i < |s| ==> r[i] == s[i].stdid
  {
    if s == [] then [] else [s[0].stdid] + Ids(s[1..])
  }

  /** No key occurs twice (the server assigns unique keys). */
  predicate UniqueIds(s: seq<Student>) {
    forall i, j :: 0 <= i < j < |s| ==> s[i].stdid != s[j].stdid
  }

  /** Whether some record of the snapshot has key `id`. */
  predicate HasId(s: seq<Student>, id: int) {
    exists i :: 0 <= i < |s| && s[i].stdid == id
  }

  /** How many records of the snapshot have key `id`. */
  function CountId(s: seq<Student>, id: int): (n: nat)
    ensures n <= |s|
    ensures n == 0 <==> !HasId(s, id)
  {
    if s == [] then 0
    else (if s[0].stdid == id then 1 else 0) + CountId(s[1..], id)
  }

  // ---------------------------------------------------------------------
  // Create: `[...current, newStudent]`

  /** The snapshot after a successful create that returned `created`. */
  function Appended(s: seq<Student>, created: Student): (r: seq<Student>)
    ensures |r| == |s| + 1
    ensures r[..|s|] == s
    ensures r[|s|] == created
  {
    s + [created]
  }

  /** Appending keeps the keys unique exactly when the new key is fresh. */
  lemma AppendedUniqueIds(s: seq<Student>, created: Student)
    requires UniqueIds(s)
    ensures UniqueIds(Appended(s, created)) <==> !HasId(s, created.stdid)
  {
    var r := Appended(s, created);
    if UniqueIds(r) {
      forall i | 0 <= i < |s| ensures s[i].stdid != created.stdid {
        assert r[i] == s[i] && r[|s|] == created;
      }
    }
  }

  // ---------------------------------------------------------------------
  // Update: `.map(s => s.stdid === id ? { ...s, ...dto } : s)`

  /** The snapshot after a successful update of key `id` with `dto`. */
  function UpdatedById(s: seq<Student>, id: int, dto: CreateStudentDto): (r: seq<Student>)
    ensures |r| == |s|
    ensures forall i :: 0 <= i < |s| ==>
      r[i] == (if s[i].stdid == id then Merge(s[i], dto) else s[i])
  {
    if s == [] then []
    else [if s[0].stdid == id then Merge(s[0], dto) else s[0]] + UpdatedById(s[1..], id, dto)
  }

  /** An update never changes any key, nor their order. */
  lemma UpdateKeepsIds(s: seq<Student>, id: int, dto: CreateStudentDto)
    ensures Ids(UpdatedById(s, id, dto)) == Ids(s)
  {
    var r := UpdatedById(s, id, dto);
    assert forall i :: 0 <= i < |s| ==> Ids(r)[i] == Ids(s)[i];
  }

  /** Updating a key the snapshot does not hold leaves the snapshot as it was. */
  lemma UpdateMissIsNoOp(s: seq<Student>, id: int, dto: CreateStudentDto)
    requires !HasId(s, id)
    ensures UpdatedById(s, id, dto) == s
  {
    var r := UpdatedById(s, id, dto);
    assert forall i :: 0 <= i < |s| ==> r[i] == s[i];
  }

  /** Every record with key `id` carries the payload afterwards. */
  lemma UpdateHitCarriesPayload(s: seq<Student>, id: int, dto: CreateStudentDto, i: int)
    requires 0 <= i < |s| && s[i].stdid == id
    ensures UpdatedById(s, id, dto)[i].stdid == id
    ensures ToDto(UpdatedById(s, id, dto)[i]) == dto
  {
  }

  /** Applying the same update twice is the same as applying it once. */
  lemma UpdateIdempotent(s: seq<Student>, id: int, dto: CreateStudentDto)
    ensures UpdatedById(UpdatedById(s, id, dto), id, dto) == UpdatedById(s, id, dto)
  {
    var once := UpdatedById(s, id, dto);
    var twice := UpdatedById(once, id, dto);
    forall i | 0 <= i < |s| ensures twice[i] == once[i] {
      MergeTwice(s[i], dto, dto);
    }
  }

  /** An update keeps the keys unique. */
  lemma UpdateKeepsUniqueIds(s: seq<Student>, id: int, dto: CreateStudentDto)
    requires UniqueIds(s)
    ensures UniqueIds(UpdatedById(s, id, dto))
  {
  }

  /**
   * Submitting a record's own fields for its own key leaves a snapshot
   * with unique keys exactly as it was.
   */
  lemma UpdateWithOwnFieldsIsNoOp(s: seq<Student>, k: int)
    requires UniqueIds(s) && 0 <= k < |s|
    ensures UpdatedById(s, s[k].stdid, ToDto(s[k])) == s
  {
    var r := UpdatedById(s, s[k].stdid, ToDto(s[k]));
    forall i | 0 <= i < |s| ensures r[i] == s[i] {
      if i == k {
        MergeOwnFields(s[k]);
      }
    }
  }

  // ---------------------------------------------------------------------
  // Delete: `.filter(s => s.stdid !== id)`

  /** The snapshot after a successful delete of key `id`. */
  function DeletedById(s: seq<Student>, id: int): (r: seq<Student>)
    ensures |r| == |s| - CountId(s, id)
    ensures forall x :: x in r <==> x in s && x.stdid != id
  {
    if s == [] then []
    else if s[0].stdid == id then DeletedById(s[1..], id)
    else [s[0]] + DeletedById(s[1..], id)
  }

  /** After a delete no record has key `id`. */
  lemma DeleteRemovesId(s: seq<Student>, id: int)
    ensures !HasId(DeletedById(s, id), id)
  {
    var r := DeletedById(s, id);
    forall i | 0 <= i < |r| ensures r[i].stdid != id {
      assert r[i] in r;
    }
  }

  /**
   * Deleting commutes with concatenation, so the records that remain keep
   * their relative order.
   */
  lemma {:induction false} DeleteKeepsOrder(a: seq<Student>, b: seq<Student>, id: int)
    ensures DeletedById(a + b, id) == DeletedById(a, id) + DeletedById(b, id)
  {
    if a == [] {
      assert a + b == b;
    } else {
      var ab := a + b;
      assert ab[0] == a[0];
      assert ab[1..] == a[1..] + b;
      DeleteKeepsOrder(a[1..], b, id);
      var da, db := DeletedById(a[1..], id), DeletedById(b, id);
      if a[0].stdid != id {
        assert [a[0]] + (da + db) == ([a[0]] + da) + db;
      }
    }
  }

  /** Deleting the same key twice is the same as deleting it once. */
  lemma {:induction false} DeleteIdempotent(s: seq<Student>, id: int)
    ensures DeletedById(DeletedById(s, id), id) == DeletedById(s, id)
  {
    if s != [] {
      DeleteIdempotent(s[1..], id);
      if s[0].stdid != id {
        var rest := DeletedById(s[1..], id);
        assert ([s[0]] + rest)[0] == s[0];
        assert ([s[0]] + rest)[1..] == rest;
      }
    }
  }

  /** Deleting a key the snapshot does not hold leaves it as it was. */
  lemma {:induction false} DeleteMissIsNoOp(s: seq<Student>, id: int)
    requires !HasId(s, id)
    ensures DeletedById(s, id) == s
  {
    if s != [] {
      forall i | 0 <= i < |s[1..]| ensures s[1..][i].stdid != id {
        assert s[1..][i] == s[i + 1];
      }
      DeleteMissIsNoOp(s[1..], id);
      assert s == [s[0]] + s[1..];
    }
  }

  /** With unique keys a delete removes exactly one record, or none if the key is absent. */
  lemma DeleteLength(s: seq<Student>, id: int)
    requires UniqueIds(s)
    ensures |DeletedById(s, id)| == if HasId(s, id) then |s| - 1 else |s|
  {
    UniqueCountAtMostOne(s, id);
  }

  lemma {:induction false} UniqueCountAtMostOne(s: seq<Student>, id: int)
    requires UniqueIds(s)
    ensures CountId(s, id) <= 1
  {
    if s != [] {
      TailUniqueIds(s);
      UniqueCountAtMostOne(s[1..], id);
      if s[0].stdid == id {
        forall i | 0 <= i < |s[1..]| ensures s[1..][i].stdid != id {
          assert s[1..][i] == s[i + 1];
        }
      }
    }
  }

  /** The tail of a snapshot with unique keys has unique keys. */
  lemma TailUniqueIds(s: seq<Student>)
    requires UniqueIds(s) && s != []
    ensures UniqueIds(s[1..])
  {
    forall i, j | 0 <= i < j < |s[1..]| ensures s[1..][i].stdid != s[1..][j].stdid {
      assert s[1..][i] == s[i + 1] && s[1..][j] == s[j + 1];
    }
  }

  /** With unique keys, no record of the tail shares the head's key. */
  lemma HeadKeyNotInTail(s: seq<Student>, x: Student)
    requires UniqueIds(s) && s != [] && x in s[1..]
    ensures x.stdid != s[0].stdid
  {
    var k :| 0 <= k < |s[1..]| && s[1..][k] == x;
    assert s[k + 1] == x;
  }

  /** A delete keeps the keys unique. */
  lemma {:induction false} DeleteKeepsUniqueIds(s: seq<Student>, id: int)
    requires UniqueIds(s)
    ensures UniqueIds(DeletedById(s, id))
  {
    if s != [] {
      TailUniqueIds(s);
      DeleteKeepsUniqueIds(s[1..], id);
      var rest := DeletedById(s[1..], id);
      if s[0].stdid != id {
        var r := [s[0]] + rest;
        forall i, j | 0 <= i < j < |r| ensures r[i].stdid != r[j].stdid {
          assert r[j] == rest[j - 1];
          if i == 0 {
            assert rest[j - 1] in rest;
            HeadKeyNotInTail(s, rest[j - 1]);
          } else {
            assert r[i] == rest[i - 1];
          }
        }
      }
    }
  }
}
