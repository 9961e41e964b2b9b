/**
 * What the adapter's writes do to the "at most one row per (userId, doId)" invariant:
 * create and both deletes keep it, so every run of them does; update does not.
 */
module TableInvariants {
  import opened Wrappers
  import opened BookmarkEntity
  import opened Uuid
  import opened BookmarkTable
  import CreateDto
  import UpdateDto

  /** The writes whose runs keep the invariant. */
  datatype Op =
    | CreateOp(dto: CreateDto.BookmarkCreateDto, freshId: string)
    | DeleteOp(id: string)
    | DeleteByPairOp(userId: Option<string>, doId: Option<string>)

  /** `t'` is a table that `op` can leave behind when run on `t`, with some response. */
  ghost predicate Step(t: Table, op: Op, t': Table) {
    match op
    case CreateOp(dto, freshId) => exists resp :: CreateOutcome(t, dto, freshId, resp, t')
    case DeleteOp(id) => exists resp :: DeleteOutcome(t, id, resp, t')
    case DeleteByPairOp(userId, doId) => exists resp :: DeleteByPairOutcome(t, userId, doId, resp, t')
  }

  /** `ts` are the tables a run of `ops` passes through, `ts[0]` the table it starts from. */
  ghost predicate Trace(ts: seq<Table>, ops: seq<Op>) {
    |ts| == |ops| + 1 && forall i :: 0 <= i < |ops| ==> Step(ts[i], ops[i], ts[i + 1])
  }

  /**
   * Create keeps the invariant: it writes only when no row has the pair. This holds
   * even if `freshId` were already taken, since the overwritten row simply goes.
   */
  lemma CreateKeepsUniquePairs(t: Table, dto: CreateDto.BookmarkCreateDto, freshId: string, resp: Response, t': Table)
    requires CreateOutcome(t, dto, freshId, resp, t')
    requires UniquePairs(t.rows)
    ensures UniquePairs(t'.rows)
  {
    if !HasMatch(t.rows, dto.userId, dto.doId) && dto.userId.Some? && dto.doId.Some? {
      var key := Canon(freshId);
      var row := NewRow(freshId, dto.userId.value, dto.doId.value, dto.createdBy, t.clock);
      assert t'.rows == t.rows[key := row];
      forall i | i in t'.rows && i != key && t'.rows[i].doId == row.doId
        ensures !SameUuid(t'.rows[i].userId, row.userId)
      {
        assert t'.rows[i] == t.rows[i];
        assert !Matches(t.rows[i], dto.userId, dto.doId);
      }
    }
  }

  /** Removing any one row keeps the invariant. */
  lemma RemoveKeepsUniquePairs(rows: map<string, Bookmark>, id: string)
    requires UniquePairs(rows)
    ensures UniquePairs(rows - {id})
  {
    forall i, j | i in rows - {id} && j in rows - {id} && (rows - {id})[i].userId == (rows - {id})[j].userId
      && (rows - {id})[i].doId == (rows - {id})[j].doId
      ensures i == j
    {
      assert (rows - {id})[i] == rows[i] && (rows - {id})[j] == rows[j];
    }
  }

  lemma StepKeepsUniquePairs(t: Table, op: Op, t': Table)
    requires Step(t, op, t')
    requires UniquePairs(t.rows)
    ensures UniquePairs(t'.rows)
  {
    match op
    case CreateOp(dto, freshId) =>
      var resp :| CreateOutcome(t, dto, freshId, resp, t');
      CreateKeepsUniquePairs(t, dto, freshId, resp, t');
    case DeleteOp(id) =>
      RemoveKeepsUniquePairs(t.rows, id);
    case DeleteByPairOp(userId, doId) =>
      var resp :| DeleteByPairOutcome(t, userId, doId, resp, t');
      if HasMatch(t.rows, userId, doId) {
        var id :| id in t.rows && Matches(t.rows[id], userId, doId)
          && t' == Table(t.rows - {id}, t.clock)
          && resp == Response(200, BookmarkRemoved, RemovedPair(id, userId, doId));
        RemoveKeepsUniquePairs(t.rows, id);
      }
  }

  /** From a table with at most one row per pair, every run of creates and deletes keeps it so. */
  lemma {:induction false} TraceKeepsUniquePairs(ts: seq<Table>, ops: seq<Op>)
    requires Trace(ts, ops)
    requires UniquePairs(ts[0].rows)
    ensures forall i :: 0 <= i < |ts| ==> UniquePairs(ts[i].rows)
  {
    if ops != [] {
      var n := |ops| - 1;
      assert Trace(ts[..n + 1], ops[..n]) by {
        forall i | 0 <= i < n ensures Step(ts[..n + 1][i], ops[..n][i], ts[..n + 1][i + 1]) {
          assert Step(ts[i], ops[i], ts[i + 1]);
        }
      }
      TraceKeepsUniquePairs(ts[..n + 1], ops[..n]);
      assert UniquePairs(ts[..n + 1][n].rows);
      StepKeepsUniquePairs(ts[n], ops[n], ts[n + 1]);
      forall i | 0 <= i < |ts| ensures UniquePairs(ts[i].rows) {
        if i <= n { assert ts[i] == ts[..n + 1][i]; }
      }
    }
  }

  /**
   * Update does not keep the invariant: moving a row's doId onto a pair its user
   * already bookmarked leaves two rows with that pair.
   */
  lemma UpdateCanDuplicatePair()
    ensures exists t: Table, id: string, dto: UpdateDto.BookmarkUpdateDto, resp: Response, t': Table ::
      WellFormed(t) && UniquePairs(t.rows) && UpdateOutcome(t, id, dto, resp, t') && !UniquePairs(t'.rows)
  {
    var user := "u";
    ShortPlainIsCanonical(user);
    ShortPlainIsCanonical("a");
    ShortPlainIsCanonical("b");
    var a := Bookmark("a", user, "do_1", 0, 0, None, None);
    var b := Bookmark("b", user, "do_2", 1, 1, None, None);
    var t := Table(map["a" := a, "b" := b], 2);
    var dto := UpdateDto.BookmarkUpdateDto(Some("do_2"), Some(user));
    var row := Updated(a, dto, 2);
    var t' := Table(t.rows["a" := row], 3);
    var resp := Response(200, BookmarkUpdated, One(row));
    assert "do_1" != "do_2" by { assert "do_1"[3] != "do_2"[3]; }
    assert "a" != "b" by { assert "a"[0] != "b"[0]; }
    assert t.rows.Keys == {"a", "b"};
    assert Changes(a, dto);
    assert UpdateOutcome(t, "a", dto, resp, t');
    assert WellFormed(t);
    assert UniquePairs(t.rows) by {
      forall i, j | i in t.rows && j in t.rows && t.rows[i].doId == t.rows[j].doId ensures i == j {
        assert t.rows[i].doId == (if i == "a" then "do_1" else "do_2");
      }
    }
    assert t'.rows["a"].doId == "do_2" && t'.rows["b"].doId == "do_2";
    assert SameUuid(t'.rows["a"].userId, t'.rows["b"].userId);
  }

  /**
   * Under the invariant, a create that finds the pair, its userId in any spelling of
   * the stored UUID, answers with the very row that has it, and writes nothing.
   */
  lemma CreateReturnsTheExistingRow(t: Table, dto: CreateDto.BookmarkCreateDto, freshId: string, resp: Response, t': Table, id: string)
    requires CreateOutcome(t, dto, freshId, resp, t')
    requires WellFormed(t) && UniquePairs(t.rows)
    requires id in t.rows && dto.userId.Some? && SameUuid(dto.userId.value, t.rows[id].userId)
    requires dto.doId == Some(t.rows[id].doId)
    ensures resp == Response(200, AlreadyExists, One(t.rows[id])) && t' == t
  {
    assert Matches(t.rows[id], dto.userId, dto.doId);
    var b := resp.payload.row;
    var k :| k in t.rows && t.rows[k] == b;
  }

  /**
   * A create on a fresh pair with a fresh id adds exactly one row, under that id, and
   * leaves every other row as it was. The echo is the stored row with the id and the
   * userId spelled as sent.
   */
  lemma CreateAddsExactlyOneRow(t: Table, dto: CreateDto.BookmarkCreateDto, freshId: string, resp: Response, t': Table)
    requires CreateOutcome(t, dto, freshId, resp, t')
    requires Canon(freshId) !in t.rows && dto.userId.Some? && dto.doId.Some? && !HasMatch(t.rows, dto.userId, dto.doId)
    ensures resp.status == 201
    ensures resp.payload == One(t'.rows[Canon(freshId)].(id := freshId, userId := dto.userId.value))
    ensures t'.rows.Keys == t.rows.Keys + {Canon(freshId)} && |t'.rows| == |t.rows| + 1
    ensures forall id :: id in t.rows ==> t'.rows[id] == t.rows[id]
    ensures SameUuid(t'.rows[Canon(freshId)].userId, dto.userId.value) && t'.rows[Canon(freshId)].doId == dto.doId.value
    ensures t'.rows[Canon(freshId)].createdBy == dto.createdBy
  {
  }

  /**
   * A delete body without userId makes delete-by-pair remove a row of whichever user
   * has the doId (of any user at all when doId is absent too): one row goes, with 200.
   */
  lemma DeleteWithoutUserIdRemovesAnyUsersRow(t: Table, doId: Option<string>, resp: Response, t': Table, id: string)
    requires DeleteByPairOutcome(t, None, doId, resp, t')
    requires id in t.rows && (doId.Some? ==> t.rows[id].doId == doId.value)
    ensures resp.status == 200 && resp.message == BookmarkRemoved
    ensures |t'.rows| == |t.rows| - 1
  {
    assert Matches(t.rows[id], None, doId);
    var k :| k in t.rows && Matches(t.rows[k], None, doId) && t' == Table(t.rows - {k}, t.clock)
      && resp == Response(200, BookmarkRemoved, RemovedPair(k, None, doId));
    assert t'.rows.Keys == t.rows.Keys - {k};
  }

  /** Every step keeps the table well formed (each row under its key, stamps distinct and issued). */
  lemma StepKeepsWellFormed(t: Table, op: Op, t': Table)
    requires Step(t, op, t')
    requires WellFormed(t)
    ensures WellFormed(t')
  {
    match op
    case CreateOp(dto, freshId) =>
      if !HasMatch(t.rows, dto.userId, dto.doId) && dto.userId.Some? && dto.doId.Some? {
        InsertNewRowKeepsWellFormed(t, freshId, dto.userId.value, dto.doId.value, dto.createdBy);
      }
    case DeleteOp(id) =>
    case DeleteByPairOp(userId, doId) =>
      var resp :| DeleteByPairOutcome(t, userId, doId, resp, t');
      if HasMatch(t.rows, userId, doId) {
        var id :| id in t.rows && Matches(t.rows[id], userId, doId)
          && t' == Table(t.rows - {id}, t.clock)
          && resp == Response(200, BookmarkRemoved, RemovedPair(id, userId, doId));
      }
  }
}
