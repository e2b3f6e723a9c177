/** What `ClusteringFaceClassifier::classify` guarantees, proved about the
    specification in FaceModel: removal before insertion, the score
    threshold, the fan-out to every mount, continue-on-error, the status
    flag and de-duplicated job scheduling. */
module FaceProperties {
  import opened Platform
  import opened CallLog
  import opened FaceModel

  // ---------------------------------------------------------------------
  // Algebra of the call log

  lemma {:induction false} SuccessfulAppend(a: seq<Call>, b: seq<Call>)
    ensures Successful(a + b) == Successful(a) + Successful(b)
  {
    if b == [] {
      assert a + b == a;
    } else {
      var init := b[..|b| - 1];
      assert (a + b)[..|a + b| - 1] == a + init;
      assert (a + b)[|a + b| - 1] == b[|b| - 1];
      SuccessfulAppend(a, init);
    }
  }

  lemma {:induction false} UserIdsAppend(a: seq<Detection>, b: seq<Detection>)
    ensures UserIds(a + b) == UserIds(a) + UserIds(b)
  {
    if b == [] {
      assert a + b == a;
    } else {
      var init := b[..|b| - 1];
      assert (a + b)[..|a + b| - 1] == a + init;
      assert (a + b)[|a + b| - 1] == b[|b| - 1];
      UserIdsAppend(a, init);
    }
  }

  lemma {:induction false} CountsAppend(a: seq<Call>, b: seq<Call>)
    ensures InsertAttempts(a + b) == InsertAttempts(a) + InsertAttempts(b)
    ensures StatusWrites(a + b) == StatusWrites(a) + StatusWrites(b)
  {
    if b == [] {
      assert a + b == a;
    } else {
      var init := b[..|b| - 1];
      assert (a + b)[..|a + b| - 1] == a + init;
      assert (a + b)[|a + b| - 1] == b[|b| - 1];
      CountsAppend(a, init);
    }
  }

  /** Two steps that each append the rows of their successful inserts make
      one such step. */
  lemma AppendsCompose(r0: Run, r1: Run, r2: Run, d1: seq<Call>, d2: seq<Call>, d: seq<Call>)
    requires d == d1 + d2
    requires r1.w.calls == r0.w.calls + d1 && r2.w.calls == r1.w.calls + d2
    requires r1.w.detections == r0.w.detections + Successful(d1)
    requires r2.w.detections == r1.w.detections + Successful(d2)
    requires r1.toCluster == r0.toCluster + UserIds(Successful(d1))
    requires r2.toCluster == r1.toCluster + UserIds(Successful(d2))
    ensures r2.w.calls == r0.w.calls + d
    ensures r2.w.detections == r0.w.detections + Successful(d)
    ensures r2.toCluster == r0.toCluster + UserIds(Successful(d))
  {
    SuccessfulAppend(d1, d2);
    UserIdsAppend(Successful(d1), Successful(d2));
    Associative(r0.w.calls, d1, d2);
    Associative(r0.w.detections, Successful(d1), Successful(d2));
    Associative(r0.toCluster, UserIds(Successful(d1)), UserIds(Successful(d2)));
  }

  /** Collecting the users of the successful inserts composes. */
  lemma CollectsTrans(r0: Run, r1: Run, r2: Run)
    requires Collects(r0, r1) && Collects(r1, r2)
    ensures Collects(r0, r2)
  {
    SinceTrans(r0.w.calls, r1.w.calls, r2.w.calls);
    var d1 := Since(r0.w.calls, r1.w.calls);
    var d2 := Since(r1.w.calls, r2.w.calls);
    SuccessfulAppend(d1, d2);
    UserIdsAppend(Successful(d1), Successful(d2));
    Associative(r0.toCluster, UserIds(Successful(d1)), UserIds(Successful(d2)));
  }

  /** A removal stretch followed by an insert stretch is a stretch of pass calls. */
  lemma PassCallsTrans(a: seq<Call>, b: seq<Call>, c: seq<Call>)
    requires Extends(a, b) && Extends(b, c)
    requires forall x :: x in Since(a, b) ==> IsRemovalCall(x)
    requires forall x :: x in Since(b, c) ==> IsInsertPhaseCall(x)
    ensures Extends(a, c) && forall x :: x in Since(a, c) ==> IsPassCall(x)
  {
    SinceTrans(a, b, c);
  }

  lemma SetStatusTwice(config: Config)
    ensures config[STATUS_KEY := "true"][STATUS_KEY := "true"] == config[STATUS_KEY := "true"]
  {
  }

  lemma Associative<T>(a: seq<T>, b: seq<T>, c: seq<T>)
    ensures a + b + c == a + (b + c)
  {
  }

  lemma MulSucc(a: nat, b: nat)
    ensures (a + 1) * b == a * b + b
  {
  }

  /** A log with no insert in it stores nothing and attempts nothing. */
  lemma {:induction false} NoInsertStoresNothing(calls: seq<Call>)
    requires forall c :: c in calls ==> !c.CallInsert?
    ensures Successful(calls) == [] && InsertAttempts(calls) == 0
  {
    if calls != [] {
      var init := calls[..|calls| - 1];
      assert calls == init + [calls[|calls| - 1]];
      NoInsertStoresNothing(init);
    }
  }

  /** Every row in `Successful(calls)` was the subject of a successful insert. */
  lemma {:induction false} SuccessfulFromInserts(calls: seq<Call>)
    ensures forall x :: x in Successful(calls) ==> CallInsert(x, true) in calls
  {
    if calls != [] {
      var init := calls[..|calls| - 1];
      assert calls == init + [calls[|calls| - 1]];
      SuccessfulFromInserts(init);
    }
  }

  /** A log made of inserts only: each is one attempt, none a status write. */
  lemma {:induction false} InsertsOnlyCounts(calls: seq<Call>)
    requires forall c :: c in calls ==> c.CallInsert?
    ensures InsertAttempts(calls) == |calls| && StatusWrites(calls) == 0
  {
    if calls != [] {
      var init := calls[..|calls| - 1];
      assert calls == init + [calls[|calls| - 1]];
      InsertsOnlyCounts(init);
    }
  }

  // ---------------------------------------------------------------------
  // Removal phase

  /** The lookup returns every stored row of the file as many times as the
      table holds it, and no other row. */
  lemma {:induction false} RowsOfFileCounts(rows: seq<Detection>, fileId: FileId)
    ensures forall x :: multiset(RowsOfFile(rows, fileId))[x] == if x.fileId == fileId then multiset(rows)[x] else 0
  {
    if rows != [] {
      var init := rows[..|rows| - 1];
      var last := rows[|rows| - 1];
      assert rows == init + [last];
      RowsOfFileCounts(init, fileId);
      assert multiset(rows) == multiset(init) + multiset{last};
    }
  }

  /** A delete removes every copy of the deleted row and no copy of any
      other row. */
  lemma {:induction false} WithoutCounts(rows: seq<Detection>, row: Detection)
    ensures multiset(Without(rows, row)) == multiset(rows)[row := 0]
  {
    if rows != [] {
      var init := rows[..|rows| - 1];
      var last := rows[|rows| - 1];
      assert rows == init + [last];
      WithoutCounts(init, row);
      assert multiset(rows) == multiset(init) + multiset{last};
      if last != row {
        assert multiset(Without(init, row) + [last]) == multiset(Without(init, row)) + multiset{last};
      }
    }
  }

  /** The removal phase keeps every copy of the rows of other files and of
      the rows whose delete threw, and no copy of any other row. */
  lemma {:induction false} SurvivorsCounts(rows: seq<Detection>, pass: nat, fileId: FileId, fail: Failures)
    ensures forall x ::
              multiset(Survivors(rows, pass, fileId, fail))[x]
                == if x.fileId != fileId || (pass, x) in fail.deletes then multiset(rows)[x] else 0
  {
    if rows != [] {
      var init := rows[..|rows| - 1];
      var last := rows[|rows| - 1];
      assert rows == init + [last];
      SurvivorsCounts(init, pass, fileId, fail);
      assert multiset(rows) == multiset(init) + multiset{last};
    }
  }

  /** The rows still present after each row of `gone` was deleted in turn,
      the deletes named by `fail` having thrown. */
  ghost function Dropped(rows: seq<Detection>, pass: nat, gone: seq<Detection>, fail: Failures): seq<Detection>
  {
    if rows == [] then []
    else
      var last := rows[|rows| - 1];
      Dropped(rows[..|rows| - 1], pass, gone, fail)
        + (if last in gone && (pass, last) !in fail.deletes then [] else [last])
  }

  lemma {:induction false} DroppedNothing(rows: seq<Detection>, pass: nat, fail: Failures)
    ensures Dropped(rows, pass, [], fail) == rows
  {
    if rows != [] {
      var init := rows[..|rows| - 1];
      assert rows == init + [rows[|rows| - 1]];
      DroppedNothing(init, pass, fail);
    }
  }

  lemma {:induction false} DroppedOneMore(rows: seq<Detection>, pass: nat, gone: seq<Detection>, row: Detection, fail: Failures)
    ensures Dropped(rows, pass, gone + [row], fail)
         == if (pass, row) in fail.deletes then Dropped(rows, pass, gone, fail)
            else Without(Dropped(rows, pass, gone, fail), row)
  {
    if rows != [] {
      var init := rows[..|rows| - 1];
      var last := rows[|rows| - 1];
      DroppedOneMore(init, pass, gone, row, fail);
      var d := Dropped(init, pass, gone, fail);
      if (pass, row) !in fail.deletes {
        var tail := if last in gone && (pass, last) !in fail.deletes then [] else [last];
        var longer := d + tail;
        if tail == [] {
          assert longer == d;
        } else {
          assert longer[..|longer| - 1] == d;
          assert longer[|longer| - 1] == last;
        }
      }
    }
  }

  lemma {:induction false} DroppedFile(rows: seq<Detection>, pass: nat, gone: seq<Detection>, fileId: FileId, fail: Failures)
    requires forall x :: x in rows ==> (x in gone <==> x.fileId == fileId)
    ensures Dropped(rows, pass, gone, fail) == Survivors(rows, pass, fileId, fail)
  {
    if rows != [] {
      var init := rows[..|rows| - 1];
      assert rows == init + [rows[|rows| - 1]];
      DroppedFile(init, pass, gone, fileId, fail);
    }
  }

  lemma {:induction false} DeleteRowsEffect(w: World, pass: nat, existing: seq<Detection>, fail: Failures, n: nat)
    requires n <= |existing|
    ensures var w' := DeleteRows(w, pass, existing, fail, n);
      && w'.detections == Dropped(w.detections, pass, existing[..n], fail)
      && w'.calls == w.calls + DeleteCalls(pass, existing, fail)[..n]
      && w'.config == w.config && w'.jobs == w.jobs
  {
    if n == 0 {
      DroppedNothing(w.detections, pass, fail);
    } else {
      DeleteRowsEffect(w, pass, existing, fail, n - 1);
      assert existing[..n] == existing[..n - 1] + [existing[n - 1]];
      DroppedOneMore(w.detections, pass, existing[..n - 1], existing[n - 1], fail);
      var calls := DeleteCalls(pass, existing, fail);
      assert calls[..n] == calls[..n - 1] + [calls[n - 1]];
    }
  }

  /** `removeExistingFaces`: when the lookup succeeds, exactly the file's
      rows whose delete did not throw are gone, and one delete was attempted
      per row of the file, whatever the earlier deletes did; when the lookup
      throws, the table is untouched. Nothing else changes. */
  lemma RemoveExistingEffect(w: World, pass: nat, fileId: FileId, fail: Failures)
    ensures var w' := RemoveExisting(w, pass, fileId, fail);
      && w'.config == w.config && w'.jobs == w.jobs
      && (pass in fail.lookups ==>
            w'.detections == w.detections && w'.calls == w.calls + [CallFindByFileId(fileId, false)])
      && (pass !in fail.lookups ==>
            && w'.detections == Survivors(w.detections, pass, fileId, fail)
            && w'.calls == w.calls + [CallFindByFileId(fileId, true)]
                           + DeleteCalls(pass, RowsOfFile(w.detections, fileId), fail))
  {
    if pass !in fail.lookups {
      var existing := RowsOfFile(w.detections, fileId);
      var looked := w.(calls := w.calls + [CallFindByFileId(fileId, true)]);
      DeleteRowsEffect(looked, pass, existing, fail, |existing|);
      assert existing[..|existing|] == existing;
      assert DeleteCalls(pass, existing, fail)[..|existing|] == DeleteCalls(pass, existing, fail);
      DroppedFile(w.detections, pass, existing, fileId, fail);
    }
  }

  /** The removal phase makes lookups and deletes only, so it collects no user. */
  lemma RemovalCollectsNothing(r: Run, pass: nat, fileId: FileId, fail: Failures)
    ensures var r' := Run(RemoveExisting(r.w, pass, fileId, fail), r.toCluster);
      && Extends(r.w.calls, r'.w.calls)
      && (forall c :: c in Since(r.w.calls, r'.w.calls) ==> IsRemovalCall(c))
      && Collects(r, r')
  {
    var r' := Run(RemoveExisting(r.w, pass, fileId, fail), r.toCluster);
    RemoveExistingEffect(r.w, pass, fileId, fail);
    var d: seq<Call>;
    if pass in fail.lookups {
      d := [CallFindByFileId(fileId, false)];
    } else {
      d := [CallFindByFileId(fileId, true)] + DeleteCalls(pass, RowsOfFile(r.w.detections, fileId), fail);
    }
    assert r'.w.calls == r.w.calls + d;
    SinceAppend(r.w.calls, d);
    forall c | c in d
      ensures IsRemovalCall(c)
    {
    }
    NoInsertStoresNothing(d);
    assert UserIds([]) == [];
  }

  // ---------------------------------------------------------------------
  // Fan-out phase

  lemma {:induction false} InsertForUsersEffect(r: Run, pass: nat, j: nat, face: Face, fileId: FileId, users: seq<UserId>, fail: Failures, m: nat)
    requires m <= |users|
    ensures var r' := InsertForUsers(r, pass, j, face, fileId, users, fail, m);
      var attempts := AttemptCalls(pass, j, face, fileId, users, fail)[..m];
      && r'.w.calls == r.w.calls + attempts
      && r'.w.detections == r.w.detections + Successful(attempts)
      && r'.toCluster == r.toCluster + UserIds(Successful(attempts))
      && r'.w.config == r.w.config && r'.w.jobs == r.w.jobs
  {
    var all := AttemptCalls(pass, j, face, fileId, users, fail);
    if m == 0 {
      assert all[..0] == [];
      assert r.w.calls + [] == r.w.calls && r.w.detections + [] == r.w.detections;
      assert UserIds([]) == [] && r.toCluster + [] == r.toCluster;
    } else {
      var prev := InsertForUsers(r, pass, j, face, fileId, users, fail, m - 1);
      var r' := InsertForUsers(r, pass, j, face, fileId, users, fail, m);
      InsertForUsersEffect(r, pass, j, face, fileId, users, fail, m - 1);
      var site := InsertSite(pass, j, m - 1);
      var row := Record(face, fileId, users[m - 1]);
      InsertAtLog(prev, site, row, fail);
      var d2 := [CallInsert(row, site !in fail.inserts)];
      assert r' == InsertAt(prev, site, row, fail);
      AttemptCallsStep(pass, j, face, fileId, users, fail, m);
      AppendsCompose(r, prev, r', all[..m - 1], d2, all[..m]);
    }
  }

  /** The first `m` insert attempts are the first `m - 1` and the attempt for mount `m - 1`. */
  lemma AttemptCallsStep(pass: nat, j: nat, face: Face, fileId: FileId, users: seq<UserId>, fail: Failures, m: nat)
    requires 0 < m <= |users|
    ensures var all := AttemptCalls(pass, j, face, fileId, users, fail);
      all[..m] == all[..m - 1] + [CallInsert(Record(face, fileId, users[m - 1]), InsertSite(pass, j, m - 1) !in fail.inserts)]
  {
    var all := AttemptCalls(pass, j, face, fileId, users, fail);
    assert all[m - 1] == CallInsert(Record(face, fileId, users[m - 1]), InsertSite(pass, j, m - 1) !in fail.inserts);
  }

  /** One insert attempt, as a log entry: the row is stored and its user
      collected exactly when the insert succeeded. */
  lemma InsertAtLog(r: Run, site: InsertSite, row: Detection, fail: Failures)
    ensures var r' := InsertAt(r, site, row, fail);
      var d := [CallInsert(row, site !in fail.inserts)];
      && r'.w.calls == r.w.calls + d
      && r'.w.detections == r.w.detections + Successful(d)
      && r'.toCluster == r.toCluster + UserIds(Successful(d))
      && r'.w.config == r.w.config && r'.w.jobs == r.w.jobs
  {
    var ok := site !in fail.inserts;
    SuccessfulOne(row, ok);
    if ok {
      UserIdsOne(row);
    } else {
      assert r.w.detections + [] == r.w.detections;
      assert r.toCluster + [] == r.toCluster;
    }
  }

  lemma SuccessfulOne(row: Detection, ok: bool)
    ensures Successful([CallInsert(row, ok)]) == if ok then [row] else []
  {
    assert [CallInsert(row, ok)][..0] == [];
  }

  lemma UserIdsOne(row: Detection)
    ensures UserIds([row]) == [row.userId]
  {
    assert [row][..0] == [];
  }

  /** One face: below the threshold nothing happens at all; otherwise one
      insert is attempted per mount (in mount order, each carrying that
      mount's user and the face's box, vector and file), the rows whose
      insert succeeded are appended, their users collected, and the status
      flag is written "true" whether or not any insert succeeded. */
  lemma ProcessFaceEffect(r: Run, pass: nat, j: nat, face: Face, qf: QueueFile, mounts: Mounts, fail: Failures)
    ensures var r' := ProcessFace(r, pass, j, face, qf, mounts, fail);
      var attempts := AttemptCalls(pass, j, face, qf.fileId, UsersForRoot(mounts, qf.rootId), fail);
      && (!Kept(face) ==> r' == r)
      && (Kept(face) ==>
            && r'.w.calls == r.w.calls + attempts + [CallSetAppValue(STATUS_KEY, "true")]
            && r'.w.detections == r.w.detections + Successful(attempts)
            && r'.toCluster == r.toCluster + UserIds(Successful(attempts))
            && r'.w.config == r.w.config[STATUS_KEY := "true"]
            && r'.w.jobs == r.w.jobs)
  {
    if Kept(face) {
      var users := UsersForRoot(mounts, qf.rootId);
      InsertForUsersEffect(r, pass, j, face, qf.fileId, users, fail, |users|);
      var attempts := AttemptCalls(pass, j, face, qf.fileId, users, fail);
      assert attempts[..|users|] == attempts;
    }
  }

  /** The calls one face makes. */
  ghost function FaceCalls(pass: nat, j: nat, face: Face, qf: QueueFile, mounts: Mounts, fail: Failures): seq<Call>
  {
    if Kept(face) then AttemptCalls(pass, j, face, qf.fileId, UsersForRoot(mounts, qf.rootId), fail) + [CallSetAppValue(STATUS_KEY, "true")]
    else []
  }

  /** The calls the first `n` faces of a file make. */
  ghost function FacesCalls(pass: nat, qf: QueueFile, faces: seq<Face>, mounts: Mounts, fail: Failures, n: nat): seq<Call>
    requires n <= |faces|
  {
    if n == 0 then [] else FacesCalls(pass, qf, faces, mounts, fail, n - 1) + FaceCalls(pass, n - 1, faces[n - 1], qf, mounts, fail)
  }

  /** One face, in terms of the calls it makes. */
  lemma ProcessFaceLog(r: Run, pass: nat, j: nat, face: Face, qf: QueueFile, mounts: Mounts, fail: Failures)
    ensures var r' := ProcessFace(r, pass, j, face, qf, mounts, fail);
      var d := FaceCalls(pass, j, face, qf, mounts, fail);
      && r'.w.calls == r.w.calls + d
      && r'.w.detections == r.w.detections + Successful(d)
      && r'.toCluster == r.toCluster + UserIds(Successful(d))
      && r'.w.jobs == r.w.jobs
      && r'.w.config == (if Kept(face) then r.w.config[STATUS_KEY := "true"] else r.w.config)
  {
    ProcessFaceEffect(r, pass, j, face, qf, mounts, fail);
    var d := FaceCalls(pass, j, face, qf, mounts, fail);
    if Kept(face) {
      var attempts := AttemptCalls(pass, j, face, qf.fileId, UsersForRoot(mounts, qf.rootId), fail);
      SuccessfulAppend(attempts, [CallSetAppValue(STATUS_KEY, "true")]);
      assert Successful([CallSetAppValue(STATUS_KEY, "true")]) == [];
      assert Successful(d) == Successful(attempts);
    } else {
      assert d == [];
      assert r.w.calls + [] == r.w.calls;
      assert r.w.detections + [] == r.w.detections;
      assert UserIds([]) == [] && r.toCluster + [] == r.toCluster;
    }
  }

  /** The faces of one file append the rows whose insert succeeded, collect
      their users and set the status flag exactly when a face passes the
      threshold. */
  lemma {:induction false} ProcessFacesLog(r: Run, pass: nat, qf: QueueFile, faces: seq<Face>, mounts: Mounts, fail: Failures, n: nat)
    requires n <= |faces|
    ensures var r' := ProcessFaces(r, pass, qf, faces, mounts, fail, n);
      var d := FacesCalls(pass, qf, faces, mounts, fail, n);
      && r'.w.calls == r.w.calls + d
      && r'.w.detections == r.w.detections + Successful(d)
      && r'.toCluster == r.toCluster + UserIds(Successful(d))
      && r'.w.jobs == r.w.jobs
      && r'.w.config == (if KeptAmong(faces, n) then r.w.config[STATUS_KEY := "true"] else r.w.config)
  {
    if n == 0 {
      assert r.w.calls + [] == r.w.calls;
      assert r.w.detections + [] == r.w.detections;
      assert r.toCluster + [] == r.toCluster;
    } else {
      var prev := ProcessFaces(r, pass, qf, faces, mounts, fail, n - 1);
      var face := faces[n - 1];
      ProcessFacesLog(r, pass, qf, faces, mounts, fail, n - 1);
      ProcessFaceLog(prev, pass, n - 1, face, qf, mounts, fail);
      var d1 := FacesCalls(pass, qf, faces, mounts, fail, n - 1);
      var d2 := FaceCalls(pass, n - 1, face, qf, mounts, fail);
      assert ProcessFaces(r, pass, qf, faces, mounts, fail, n) == ProcessFace(prev, pass, n - 1, face, qf, mounts, fail);
      assert FacesCalls(pass, qf, faces, mounts, fail, n) == d1 + d2;
      AppendsCompose(r, prev, ProcessFaces(r, pass, qf, faces, mounts, fail, n), d1, d2, d1 + d2);
      if Kept(face) {
        assert KeptAmong(faces, n);
        SetStatusTwice(r.w.config);
      } else if KeptAmong(faces, n) {
        var k :| 0 <= k < n && Kept(faces[k]);
        assert k < n - 1;
      }
    }
  }

  /** The calls of one file's faces are inserts and status writes only; each
      insert stores a face at or above the threshold, for this file and for a
      user of one of the root's mounts. */
  lemma {:induction false} FacesCallsShape(pass: nat, qf: QueueFile, faces: seq<Face>, mounts: Mounts, fail: Failures, n: nat)
    requires n <= |faces|
    ensures var d := FacesCalls(pass, qf, faces, mounts, fail, n);
      && (forall c :: c in d ==> IsInsertPhaseCall(c))
      && (forall c :: c in d && c.CallInsert? ==> FromKeptFace(c.row, qf, faces, n, UsersForRoot(mounts, qf.rootId)))
  {
    if n > 0 {
      FacesCallsShape(pass, qf, faces, mounts, fail, n - 1);
      var users := UsersForRoot(mounts, qf.rootId);
      var d1 := FacesCalls(pass, qf, faces, mounts, fail, n - 1);
      var face := faces[n - 1];
      var attempts := AttemptCalls(pass, n - 1, face, qf.fileId, users, fail);
      forall c | c in FacesCalls(pass, qf, faces, mounts, fail, n) && c.CallInsert?
        ensures FromKeptFace(c.row, qf, faces, n, users)
      {
        if c in d1 {
          assert FromKeptFace(c.row, qf, faces, n - 1, users);
          var k :| 0 <= k < n - 1 && Kept(faces[k]) && c.row == Record(faces[k], qf.fileId, c.row.userId);
          assert 0 <= k < n;
        } else {
          assert c in attempts;
          var k :| 0 <= k < |users| && attempts[k] == c;
          assert c.row == Record(face, qf.fileId, users[k]);
        }
      }
    }
  }

  /** Exactly one insert attempt per mount for each kept face, whatever the
      outcome of the others, and exactly one status write per kept face. */
  lemma {:induction false} FacesCallsCounts(pass: nat, qf: QueueFile, faces: seq<Face>, mounts: Mounts, fail: Failures, n: nat)
    requires n <= |faces|
    ensures var d := FacesCalls(pass, qf, faces, mounts, fail, n);
      && InsertAttempts(d) == CountKept(faces, n) * |UsersForRoot(mounts, qf.rootId)|
      && StatusWrites(d) == CountKept(faces, n)
  {
    if n > 0 {
      FacesCallsCounts(pass, qf, faces, mounts, fail, n - 1);
      var m := |UsersForRoot(mounts, qf.rootId)|;
      var face := faces[n - 1];
      var d1 := FacesCalls(pass, qf, faces, mounts, fail, n - 1);
      var d2 := FaceCalls(pass, n - 1, face, qf, mounts, fail);
      CountsAppend(d1, d2);
      FaceCallsCounts(pass, n - 1, face, qf, mounts, fail);
      var c := CountKept(faces, n - 1);
      if Kept(face) {
        MulSucc(c, m);
        assert CountKept(faces, n) == c + 1;
      } else {
        assert CountKept(faces, n) == c;
      }
    } else {
      assert InsertAttempts([]) == 0 && StatusWrites([]) == 0;
    }
  }

  /** One face: one insert attempt per mount and one status write when it is
      kept, nothing otherwise. */
  lemma FaceCallsCounts(pass: nat, j: nat, face: Face, qf: QueueFile, mounts: Mounts, fail: Failures)
    ensures var d := FaceCalls(pass, j, face, qf, mounts, fail);
      && InsertAttempts(d) == (if Kept(face) then |UsersForRoot(mounts, qf.rootId)| else 0)
      && StatusWrites(d) == (if Kept(face) then 1 else 0)
  {
    if Kept(face) {
      var attempts := AttemptCalls(pass, j, face, qf.fileId, UsersForRoot(mounts, qf.rootId), fail);
      InsertsOnlyCounts(attempts);
      CountsAppend(attempts, [CallSetAppValue(STATUS_KEY, "true")]);
      assert InsertAttempts([CallSetAppValue(STATUS_KEY, "true")]) == 0;
      assert StatusWrites([CallSetAppValue(STATUS_KEY, "true")]) == 1;
    } else {
      assert InsertAttempts([]) == 0 && StatusWrites([]) == 0;
    }
  }

  /** The faces of one file, summed up: rows are only appended, the users
      collected are those of the successful inserts, and no lookup or delete
      is made. */
  lemma ProcessFacesEffect(r: Run, pass: nat, qf: QueueFile, faces: seq<Face>, mounts: Mounts, fail: Failures)
    ensures var r' := ProcessFaces(r, pass, qf, faces, mounts, fail, |faces|);
      && Extends(r.w.calls, r'.w.calls)
      && Appends(r, r')
      && r'.w.jobs == r.w.jobs
      && r'.w.config == (if KeptAmong(faces, |faces|) then r.w.config[STATUS_KEY := "true"] else r.w.config)
      && (forall c :: c in Since(r.w.calls, r'.w.calls) ==> IsInsertPhaseCall(c))
      && (forall c :: c in Since(r.w.calls, r'.w.calls) && c.CallInsert? ==>
            FromKeptFace(c.row, qf, faces, |faces|, UsersForRoot(mounts, qf.rootId)))
  {
    ProcessFacesLog(r, pass, qf, faces, mounts, fail, |faces|);
    FacesCallsShape(pass, qf, faces, mounts, fail, |faces|);
    SinceAppend(r.w.calls, FacesCalls(pass, qf, faces, mounts, fail, |faces|));
  }

  // ---------------------------------------------------------------------
  // One yielded file

  /** One file: the removal calls come first, whatever the lookup and the
      deletes did, and the rest are exactly the calls of its faces, inserts
      and status writes; the users collected are those of the successful
      inserts; the status flag is set exactly when a face passes the threshold. */
  lemma ProcessFileEffect(r: Run, pass: nat, y: Yield, mounts: Mounts, fail: Failures)
    ensures var removed := Run(RemoveExisting(r.w, pass, y.0.fileId, fail), r.toCluster);
      var r' := ProcessFile(r, pass, y, mounts, fail);
      && Extends(r.w.calls, removed.w.calls)
      && Extends(removed.w.calls, r'.w.calls)
      && r'.w.calls == removed.w.calls + FacesCalls(pass, y.0, y.1, mounts, fail, |y.1|)
      && (forall c :: c in Since(r.w.calls, removed.w.calls) ==> IsRemovalCall(c))
      && (forall c :: c in Since(removed.w.calls, r'.w.calls) ==> IsInsertPhaseCall(c))
      && Extends(r.w.calls, r'.w.calls)
      && (forall c :: c in Since(r.w.calls, r'.w.calls) ==> IsPassCall(c))
      && Collects(r, r')
      && r'.w.jobs == r.w.jobs
      && r'.w.config == (if KeptAmong(y.1, |y.1|) then r.w.config[STATUS_KEY := "true"] else r.w.config)
  {
    var removed := Run(RemoveExisting(r.w, pass, y.0.fileId, fail), r.toCluster);
    var r' := ProcessFile(r, pass, y, mounts, fail);
    RemovalCollectsNothing(r, pass, y.0.fileId, fail);
    RemoveExistingEffect(r.w, pass, y.0.fileId, fail);
    ProcessFacesEffect(removed, pass, y.0, y.1, mounts, fail);
    ProcessFacesLog(removed, pass, y.0, y.1, mounts, fail, |y.1|);
    CollectsTrans(r, removed, r');
    PassCallsTrans(r.w.calls, removed.w.calls, r'.w.calls);
  }

  /** Delete-before-insert: a pass starts with the lookup of the file's rows,
      deletes only rows of that file, attempts a delete of every row of the
      file when the lookup succeeded, and no lookup or delete follows the
      first insert or status write. */
  lemma DeleteBeforeInsert(r: Run, pass: nat, y: Yield, mounts: Mounts, fail: Failures)
    ensures var r' := ProcessFile(r, pass, y, mounts, fail);
      Extends(r.w.calls, r'.w.calls) &&
      var d := Since(r.w.calls, r'.w.calls);
      && |d| > 0 && d[0] == CallFindByFileId(y.0.fileId, pass !in fail.lookups)
      && (forall a, b :: 0 <= a < b < |d| && IsInsertPhaseCall(d[a]) ==> !IsRemovalCall(d[b]))
      && (forall c :: c in d && c.CallDelete? ==> c.row.fileId == y.0.fileId)
      && (pass !in fail.lookups ==>
            forall x :: x in r.w.detections && x.fileId == y.0.fileId ==>
              CallDelete(x, (pass, x) !in fail.deletes) in d)
  {
    var fileId := y.0.fileId;
    var removed := RemoveExisting(r.w, pass, fileId, fail);
    var r' := ProcessFile(r, pass, y, mounts, fail);
    var d1 := RemovalCalls(r.w.detections, pass, fileId, fail);
    FileLogSplit(r, pass, y, mounts, fail);
    var d2 := Since(removed.calls, r'.w.calls);
    RemovalCallsShape(r.w.detections, pass, fileId, fail);
    RemovalThenInserts(d1, d2);
  }

  /** The calls of the removal phase. */
  ghost function RemovalCalls(rows: seq<Detection>, pass: nat, fileId: FileId, fail: Failures): seq<Call>
  {
    [CallFindByFileId(fileId, pass !in fail.lookups)]
      + (if pass in fail.lookups then [] else DeleteCalls(pass, RowsOfFile(rows, fileId), fail))
  }

  /** The removal phase starts with the lookup, deletes only rows of the
      file and, after a successful lookup, tries every one of them. */
  lemma RemovalCallsShape(rows: seq<Detection>, pass: nat, fileId: FileId, fail: Failures)
    ensures var d := RemovalCalls(rows, pass, fileId, fail);
      && d[0] == CallFindByFileId(fileId, pass !in fail.lookups)
      && (forall c :: c in d ==> IsRemovalCall(c))
      && (forall c :: c in d && c.CallDelete? ==> c.row.fileId == fileId)
      && (pass !in fail.lookups ==>
            forall x :: x in rows && x.fileId == fileId ==> CallDelete(x, (pass, x) !in fail.deletes) in d)
  {
    var d := RemovalCalls(rows, pass, fileId, fail);
    var existing := RowsOfFile(rows, fileId);
    var dels := DeleteCalls(pass, existing, fail);
    forall c | c in d
      ensures IsRemovalCall(c) && (c.CallDelete? ==> c.row.fileId == fileId)
    {
      if c != d[0] {
        assert c in dels;
        var k :| 0 <= k < |existing| && dels[k] == c;
        assert existing[k] in existing;
      }
    }
    if pass !in fail.lookups {
      forall x | x in rows && x.fileId == fileId
        ensures CallDelete(x, (pass, x) !in fail.deletes) in d
      {
        var k :| 0 <= k < |existing| && existing[k] == x;
        assert dels[k] == CallDelete(x, (pass, x) !in fail.deletes);
        assert d[1 + k] == dels[k];
      }
    }
  }

  /** Removal calls followed by insert-phase calls: no removal call comes
      after an insert-phase call. */
  lemma RemovalThenInserts(d1: seq<Call>, d2: seq<Call>)
    requires forall c :: c in d1 ==> IsRemovalCall(c)
    requires forall c :: c in d2 ==> IsInsertPhaseCall(c)
    ensures var d := d1 + d2;
      forall a, b :: 0 <= a < b < |d| && IsInsertPhaseCall(d[a]) ==> !IsRemovalCall(d[b])
  {
    var d := d1 + d2;
    forall k | 0 <= k < |d|
      ensures k < |d1| ==> IsRemovalCall(d[k])
      ensures k >= |d1| ==> IsInsertPhaseCall(d[k])
    {
      if k < |d1| {
        assert d[k] == d1[k] && d1[k] in d1;
      } else {
        assert d[k] == d2[k - |d1|] && d2[k - |d1|] in d2;
      }
    }
  }

  /** One file's calls: the removal calls, then insert-phase calls only. */
  lemma FileLogSplit(r: Run, pass: nat, y: Yield, mounts: Mounts, fail: Failures)
    ensures var removed := RemoveExisting(r.w, pass, y.0.fileId, fail);
      var r' := ProcessFile(r, pass, y, mounts, fail);
      && Extends(r.w.calls, removed.calls)
      && Extends(removed.calls, r'.w.calls)
      && Extends(r.w.calls, r'.w.calls)
      && Since(r.w.calls, r'.w.calls) == RemovalCalls(r.w.detections, pass, y.0.fileId, fail) + Since(removed.calls, r'.w.calls)
      && (forall c :: c in Since(removed.calls, r'.w.calls) ==> IsInsertPhaseCall(c))
  {
    var fileId := y.0.fileId;
    var removed := Run(RemoveExisting(r.w, pass, fileId, fail), r.toCluster);
    var r' := ProcessFile(r, pass, y, mounts, fail);
    RemoveExistingEffect(r.w, pass, fileId, fail);
    ProcessFacesEffect(removed, pass, y.0, y.1, mounts, fail);
    var d1 := RemovalCalls(r.w.detections, pass, fileId, fail);
    assert removed.w.calls == r.w.calls + d1 by {
      if pass in fail.lookups {
        assert d1 == [CallFindByFileId(fileId, false)];
      }
    }
    SinceAppend(r.w.calls, d1);
    SinceTrans(r.w.calls, removed.w.calls, r'.w.calls);
  }

  lemma {:induction false} RowsOfFileAppend(a: seq<Detection>, b: seq<Detection>, fileId: FileId)
    ensures RowsOfFile(a + b, fileId) == RowsOfFile(a, fileId) + RowsOfFile(b, fileId)
  {
    if b == [] {
      assert a + b == a;
    } else {
      var init := b[..|b| - 1];
      assert (a + b)[..|a + b| - 1] == a + init;
      assert (a + b)[|a + b| - 1] == b[|b| - 1];
      RowsOfFileAppend(a, init, fileId);
    }
  }

  lemma {:induction false} RowsOfFileAll(rows: seq<Detection>, fileId: FileId)
    requires forall x :: x in rows ==> x.fileId == fileId
    ensures RowsOfFile(rows, fileId) == rows
  {
    if rows != [] {
      var init := rows[..|rows| - 1];
      assert rows == init + [rows[|rows| - 1]];
      RowsOfFileAll(init, fileId);
    }
  }

  /** Reclassification replaces stale detections: when a pass's lookup and
      deletes all succeed, the file's rows afterwards are exactly the rows
      that pass inserted, in insertion order, whatever was stored before. */
  lemma StaleDetectionsReplaced(r: Run, pass: nat, y: Yield, mounts: Mounts, fail: Failures)
    requires pass !in fail.lookups
    requires forall x :: x in r.w.detections ==> (pass, x) !in fail.deletes
    ensures var removed := RemoveExisting(r.w, pass, y.0.fileId, fail);
      var r' := ProcessFile(r, pass, y, mounts, fail);
      Extends(removed.calls, r'.w.calls) &&
      RowsOfFile(r'.w.detections, y.0.fileId) == Successful(Since(removed.calls, r'.w.calls))
  {
    var fileId := y.0.fileId;
    var removed := Run(RemoveExisting(r.w, pass, fileId, fail), r.toCluster);
    RemoveExistingEffect(r.w, pass, fileId, fail);
    SurvivorsCleared(r.w.detections, pass, fileId, fail);
    InsertedRowsOfFile(removed, pass, y.0, y.1, mounts, fail);
    var r' := ProcessFile(r, pass, y, mounts, fail);
    var inserted := Successful(Since(removed.w.calls, r'.w.calls));
    RowsOfFileAppend(removed.w.detections, inserted, fileId);
    RowsOfFileAll(inserted, fileId);
  }

  /** With every delete succeeding, no row of the file survives the removal. */
  lemma {:induction false} SurvivorsCleared(rows: seq<Detection>, pass: nat, fileId: FileId, fail: Failures)
    requires forall x :: x in rows ==> (pass, x) !in fail.deletes
    ensures RowsOfFile(Survivors(rows, pass, fileId, fail), fileId) == []
  {
    if rows != [] {
      var init := rows[..|rows| - 1];
      var last := rows[|rows| - 1];
      assert rows == init + [last];
      SurvivorsCleared(init, pass, fileId, fail);
      var kept := Survivors(init, pass, fileId, fail);
      if last.fileId != fileId {
        var longer := kept + [last];
        assert longer[..|longer| - 1] == kept;
      }
    }
  }

  /** The faces of one file append only rows of that file. */
  lemma InsertedRowsOfFile(r: Run, pass: nat, qf: QueueFile, faces: seq<Face>, mounts: Mounts, fail: Failures)
    ensures var r' := ProcessFaces(r, pass, qf, faces, mounts, fail, |faces|);
      && Extends(r.w.calls, r'.w.calls)
      && r'.w.detections == r.w.detections + Successful(Since(r.w.calls, r'.w.calls))
      && forall x :: x in Successful(Since(r.w.calls, r'.w.calls)) ==> x.fileId == qf.fileId
  {
    var r' := ProcessFaces(r, pass, qf, faces, mounts, fail, |faces|);
    ProcessFacesEffect(r, pass, qf, faces, mounts, fail);
    var d := Since(r.w.calls, r'.w.calls);
    SuccessfulFromInserts(d);
    forall x | x in Successful(d)
      ensures x.fileId == qf.fileId
    {
      assert CallInsert(x, true) in d;
    }
  }

  // ---------------------------------------------------------------------
  // The whole batch

  lemma {:induction false} ProcessFilesEffect(r: Run, ys: seq<Yield>, mounts: Mounts, fail: Failures, n: nat)
    requires n <= |ys|
    ensures var r' := ProcessFiles(r, ys, mounts, fail, n);
      && Extends(r.w.calls, r'.w.calls)
      && (forall c :: c in Since(r.w.calls, r'.w.calls) ==> IsPassCall(c))
      && Collects(r, r')
      && r'.w.jobs == r.w.jobs
      && r'.w.config == (if AnyKept(ys, n) then r.w.config[STATUS_KEY := "true"] else r.w.config)
  {
    if n == 0 {
      SinceAppend(r.w.calls, []);
      assert r.w.calls + [] == r.w.calls;
      assert UserIds(Successful([])) == [];
    } else {
      var prev := ProcessFiles(r, ys, mounts, fail, n - 1);
      var r' := ProcessFiles(r, ys, mounts, fail, n);
      ProcessFilesEffect(r, ys, mounts, fail, n - 1);
      ProcessFileEffect(prev, n - 1, ys[n - 1], mounts, fail);
      CollectsTrans(r, prev, r');
      PassOnlyTrans(r.w.calls, prev.w.calls, r'.w.calls);
      AnyKeptStep(ys, n);
      SetStatusTwice(r.w.config);
    }
  }

  lemma PassOnlyTrans(a: seq<Call>, b: seq<Call>, c: seq<Call>)
    requires Extends(a, b) && Extends(b, c)
    requires forall x :: x in Since(a, b) ==> IsPassCall(x)
    requires forall x :: x in Since(b, c) ==> IsPassCall(x)
    ensures Extends(a, c) && forall x :: x in Since(a, c) ==> IsPassCall(x)
  {
    SinceTrans(a, b, c);
  }

  lemma AnyKeptStep(ys: seq<Yield>, n: nat)
    requires 0 < n <= |ys|
    ensures AnyKept(ys, n) <==> AnyKept(ys, n - 1) || KeptAmong(ys[n - 1].1, |ys[n - 1].1|)
  {
    var faces := ys[n - 1].1;
    if KeptAmong(faces, |faces|) {
      var j :| 0 <= j < |faces| && Kept(faces[j]);
      assert Kept(ys[n - 1].1[j]);
    }
    if AnyKept(ys, n) && !AnyKept(ys, n - 1) {
      var i, j :| 0 <= i < n && 0 <= j < |ys[i].1| && Kept(ys[i].1[j]);
      assert i == n - 1;
    }
  }

  /** Scheduling over a list without repeats: each listed user ends up with
      a clustering job, no other job appears, one add is made per listed user
      that had none, never for one that had, and never twice. */
  lemma {:induction false} ScheduleEffect(w: World, users: seq<UserId>, n: nat)
    requires n <= |users| && NoDuplicates(users)
    ensures var w' := Schedule(w, users, n);
      && w'.detections == w.detections && w'.config == w.config
      && (forall job :: job in w'.jobs <==> job in w.jobs || (job.jobClass == CLUSTER_FACES_JOB && job.userId in users[..n]))
      && Extends(w.calls, w'.calls)
      && (forall c :: c in Since(w.calls, w'.calls) ==>
            c.CallAdd? && c.job.jobClass == CLUSTER_FACES_JOB && c.job.userId in users[..n] && c.job !in w.jobs)
      && (forall u :: u in users[..n] && Job(CLUSTER_FACES_JOB, u) !in w.jobs ==>
            CallAdd(Job(CLUSTER_FACES_JOB, u)) in Since(w.calls, w'.calls))
      && NoDuplicates(Since(w.calls, w'.calls))
  {
    if n == 0 {
      SinceAppend(w.calls, []);
      assert w.calls + [] == w.calls;
    } else {
      var prev := Schedule(w, users, n - 1);
      var w' := Schedule(w, users, n);
      var u := users[n - 1];
      var job := Job(CLUSTER_FACES_JOB, u);
      ScheduleEffect(w, users, n - 1);
      assert users[..n] == users[..n - 1] + [u];
      assert u !in users[..n - 1] by {
        forall k | 0 <= k < n - 1
          ensures users[k] != u
        {
        }
      }
      var d1 := Since(w.calls, prev.calls);
      if job in prev.jobs {
        assert w' == prev;
      } else {
        assert w'.calls == prev.calls + [CallAdd(job)];
        SinceAppend(prev.calls, [CallAdd(job)]);
        SinceTrans(w.calls, prev.calls, w'.calls);
        var d := Since(w.calls, w'.calls);
        assert d == d1 + [CallAdd(job)];
        assert CallAdd(job) !in d1;
        forall a, b | 0 <= a < b < |d|
          ensures d[a] != d[b]
        {
          if b == |d| - 1 {
            assert d[a] == d1[a] && d1[a] in d1;
          } else {
            assert d[a] == d1[a] && d[b] == d1[b];
          }
        }
      }
    }
  }

  /** Scheduling is idempotent: a second scheduling of the same users adds
      nothing and changes nothing. */
  lemma {:induction false} ScheduledUsersNeedNothing(w: World, users: seq<UserId>, n: nat)
    requires n <= |users|
    requires forall u :: u in users ==> Job(CLUSTER_FACES_JOB, u) in w.jobs
    ensures Schedule(w, users, n) == w
  {
    if n > 0 {
      ScheduledUsersNeedNothing(w, users, n - 1);
      assert users[n - 1] in users;
    }
  }

  lemma ScheduleTwice(w: World, users: seq<UserId>)
    requires NoDuplicates(users)
    ensures var once := Schedule(w, users, |users|);
      Schedule(once, users, |users|) == once
  {
    var once := Schedule(w, users, |users|);
    ScheduleEffect(w, users, |users|);
    assert users[..|users|] == users;
    ScheduledUsersNeedNothing(once, users, |users|);
  }

  // ---------------------------------------------------------------------
  // The whole of `classify`

  /** `classify` on a batch: the inference process is invoked once, first,
      with the timeout the backend mode selects; then come the per-file
      lookups, deletes, inserts and status writes; the job adds come last.
      Each user with a successful insert ends up with exactly one clustering
      job, added only when absent and never twice, and no other job appears.
      The status flag is written "true" exactly when some face passed the
      threshold. */
  lemma ClassifyEffect(w: World, queueFiles: seq<QueueFile>, ys: seq<Yield>, mounts: Mounts, fail: Failures)
    ensures var w' := ClassifySpec(w, queueFiles, ys, mounts, fail);
      Extends(w.calls, w'.calls) &&
      var d := Since(w.calls, w'.calls);
      var stored := UserIds(Successful(d));
      && |d| > 0 && d[0] == CallClassifyFiles(MODEL_NAME, queueFiles, ImageTimeout(w.config))
      && (forall k :: 0 < k < |d| ==> !d[k].CallClassifyFiles?)
      && (forall k :: 0 < k < |d| && !d[k].CallAdd? ==> IsPassCall(d[k]))
      && (forall a, b :: 0 <= a < b < |d| && d[a].CallAdd? ==> d[b].CallAdd? && d[b] != d[a])
      && (forall c :: c in d && c.CallAdd? ==> c.job.jobClass == CLUSTER_FACES_JOB && c.job.userId in stored && c.job !in w.jobs)
      && (forall u :: u in stored && Job(CLUSTER_FACES_JOB, u) !in w.jobs ==> CallAdd(Job(CLUSTER_FACES_JOB, u)) in d)
      && (forall job :: job in w'.jobs <==> job in w.jobs || (job.jobClass == CLUSTER_FACES_JOB && job.userId in stored))
      && w'.config == (if AnyKept(ys, |ys|) then w.config[STATUS_KEY := "true"] else w.config)
  {
    var c0 := CallClassifyFiles(MODEL_NAME, queueFiles, ImageTimeout(w.config));
    var invoked := w.(calls := w.calls + [c0]);
    var r0 := Run(invoked, []);
    var r := ProcessFiles(r0, ys, mounts, fail, |ys|);
    var users := Unique(r.toCluster);
    var w' := Schedule(r.w, users, |users|);
    ProcessFilesEffect(r0, ys, mounts, fail, |ys|);
    ScheduleEffect(r.w, users, |users|);
    assert users[..|users|] == users;
    var dp := Since(invoked.calls, r.w.calls);
    var ds := Since(r.w.calls, w'.calls);
    SinceAppend(w.calls, [c0]);
    SinceTrans(w.calls, invoked.calls, r.w.calls);
    SinceTrans(w.calls, r.w.calls, w'.calls);
    var d := Since(w.calls, w'.calls);
    assert d == [c0] + dp + ds;
    assert UserIds(Successful(dp)) == r.toCluster;
    StoredUsers([c0], dp, ds);
    LogLayout(c0, dp, ds);
    forall c | c in d && c.CallAdd?
      ensures c.job.jobClass == CLUSTER_FACES_JOB && c.job.userId in r.toCluster && c.job !in w.jobs
    {
      assert c in ds;
    }
  }

  /** The users of the successful inserts of a log made of the inference
      call, pass calls and job adds are those of the pass calls. */
  lemma StoredUsers(d0: seq<Call>, dp: seq<Call>, ds: seq<Call>)
    requires forall c :: c in d0 ==> c.CallClassifyFiles?
    requires forall c :: c in ds ==> c.CallAdd?
    ensures Successful(d0 + dp + ds) == Successful(dp)
  {
    NoInsertStoresNothing(d0);
    NoInsertStoresNothing(ds);
    SuccessfulAppend(d0 + dp, ds);
    SuccessfulAppend(d0, dp);
    assert [] + Successful(dp) + [] == Successful(dp);
  }

  /** The order of `classify`'s calls: the inference call, pass calls, then
      distinct job adds. */
  lemma LogLayout(c0: Call, dp: seq<Call>, ds: seq<Call>)
    requires c0.CallClassifyFiles?
    requires forall c :: c in dp ==> IsPassCall(c)
    requires forall c :: c in ds ==> c.CallAdd?
    requires NoDuplicates(ds)
    ensures var d := [c0] + dp + ds;
      && (forall k :: 0 < k < |d| ==> !d[k].CallClassifyFiles?)
      && (forall k :: 0 < k < |d| && !d[k].CallAdd? ==> IsPassCall(d[k]))
      && (forall a, b :: 0 <= a < b < |d| && d[a].CallAdd? ==> d[b].CallAdd? && d[b] != d[a])
      && (forall c :: c in d && c.CallAdd? ==> c in ds)
  {
    var d := [c0] + dp + ds;
    var m := 1 + |dp|;
    forall k | 0 < k < |d|
      ensures k < m ==> IsPassCall(d[k]) && !d[k].CallAdd?
      ensures m <= k ==> d[k].CallAdd? && d[k] == ds[k - m]
    {
      if k < m {
        assert d[k] == dp[k - 1] && dp[k - 1] in dp;
      } else {
        assert d[k] == ds[k - m] && ds[k - m] in ds;
      }
    }
  }
}
