/** What `MusicnnClassifier::classify` guarantees, proved about the
    specification in AudioModel: one inference call, then per yielded file,
    in order, one tag assignment with that file's results followed by one
    status write. */
module AudioProperties {
  import opened Platform
  import opened CallLog
  import opened AudioModel

  lemma {:induction false} AssignmentsAppend(a: seq<Call>, b: seq<Call>)
    ensures Assignments(a + b) == Assignments(a) + Assignments(b)
  {
    if b == [] {
      assert a + b == a;
    } else {
      var init := b[..|b| - 1];
      assert (a + b)[..|a + b| - 1] == a + init;
      assert (a + b)[|a + b| - 1] == b[|b| - 1];
      AssignmentsAppend(a, init);
    }
  }

  /** The calls the first `n` files make: even positions assign the tags of
      file `i / 2`, odd positions set the status flag. The flag is written
      "true" once some file was yielded and is untouched otherwise. */
  lemma {:induction false} TagFilesEffect(w: World, ys: seq<Yield>, n: nat)
    requires n <= |ys|
    ensures var w' := TagFiles(w, ys, n);
      Extends(w.calls, w'.calls) &&
      var d := Since(w.calls, w'.calls);
      && |d| == 2 * n
      && (forall i :: 0 <= i < |d| ==>
            d[i] == if i % 2 == 0 then CallAssignTags(ys[i / 2].0.fileId, ys[i / 2].1)
                    else CallSetAppValue(STATUS_KEY, "true"))
      && w'.config == (if n == 0 then w.config else w.config[STATUS_KEY := "true"])
  {
    if n == 0 {
      SinceAppend(w.calls, []);
      assert w.calls + [] == w.calls;
    } else {
      var prev := TagFiles(w, ys, n - 1);
      var w' := TagFiles(w, ys, n);
      TagFilesEffect(w, ys, n - 1);
      var d1 := Since(w.calls, prev.calls);
      var step := [CallAssignTags(ys[n - 1].0.fileId, ys[n - 1].1), CallSetAppValue(STATUS_KEY, "true")];
      assert prev.calls == w.calls + d1;
      assert w'.calls == w.calls + (d1 + step);
      SinceAppend(w.calls, d1 + step);
      var d := d1 + step;
      forall i | 0 <= i < |d|
        ensures d[i] == if i % 2 == 0 then CallAssignTags(ys[i / 2].0.fileId, ys[i / 2].1)
                        else CallSetAppValue(STATUS_KEY, "true")
      {
        if i < |d1| {
          assert d[i] == d1[i];
        } else if i == |d1| {
          assert i / 2 == n - 1 && i % 2 == 0;
        } else {
          assert i % 2 == 1;
        }
      }
      if n - 1 > 0 {
        assert prev.config == w.config[STATUS_KEY := "true"];
        assert w'.config == prev.config[STATUS_KEY := "true"];
      }
    }
  }

  /** The tag assignments of the first `n` files are exactly their
      (file id, results) pairs, in yield order. */
  lemma {:induction false} TagFilesAssignments(w: World, ys: seq<Yield>, n: nat)
    requires n <= |ys|
    ensures var w' := TagFiles(w, ys, n);
      Extends(w.calls, w'.calls) && Assignments(Since(w.calls, w'.calls)) == Yielded(ys)[..n]
  {
    var w' := TagFiles(w, ys, n);
    TagFilesEffect(w, ys, n);
    if n == 0 {
      assert Since(w.calls, w'.calls) == [];
    } else {
      var prev := TagFiles(w, ys, n - 1);
      TagFilesAssignments(w, ys, n - 1);
      TagFilesEffect(w, ys, n - 1);
      var d1 := Since(w.calls, prev.calls);
      var step := [CallAssignTags(ys[n - 1].0.fileId, ys[n - 1].1), CallSetAppValue(STATUS_KEY, "true")];
      assert w'.calls == w.calls + (d1 + step);
      SinceAppend(w.calls, d1 + step);
      AssignmentsAppend(d1, step);
      assert Assignments(step[..1]) == Assignments([]) + [(ys[n - 1].0.fileId, ys[n - 1].1)];
      assert step[..1] == [step[0]];
      assert Assignments(step) == [(ys[n - 1].0.fileId, ys[n - 1].1)];
      assert Yielded(ys)[..n] == Yielded(ys)[..n - 1] + [Yielded(ys)[n - 1]];
    }
  }

  /** `classify` on a batch: the inference process is invoked once, first,
      with the model name, the whole batch and the timeout the backend mode
      selects; then, per yielded file in order, the tags are assigned with
      that file's id and its results unchanged, and the status flag is set
      "true" (also for a file with no results). With nothing yielded the
      flag is untouched. No other call is made and no other key changes. */
  lemma ClassifyEffect(w: World, queueFiles: seq<QueueFile>, ys: seq<Yield>)
    ensures var w' := ClassifySpec(w, queueFiles, ys);
      Extends(w.calls, w'.calls) &&
      var d := Since(w.calls, w'.calls);
      && d == [CallClassifyFiles(MODEL_NAME, queueFiles, AudioTimeout(w.config))] + TagCalls(ys)
      && Assignments(d) == Yielded(ys)
      && w'.config == (if |ys| == 0 then w.config else w.config[STATUS_KEY := "true"])
  {
    var c0 := CallClassifyFiles(MODEL_NAME, queueFiles, AudioTimeout(w.config));
    var invoked := w.(calls := w.calls + [c0]);
    var w' := TagFiles(invoked, ys, |ys|);
    TagFilesCalls(invoked, ys);
    var dt := Since(invoked.calls, w'.calls);
    assert w'.calls == w.calls + ([c0] + dt);
    SinceAppend(w.calls, [c0] + dt);
    AssignmentsAppend([c0], dt);
    assert Assignments([c0]) == Assignments([]) + [];
  }

  /** A whole batch's files make exactly the calls of `TagCalls`. */
  lemma TagFilesCalls(w: World, ys: seq<Yield>)
    ensures var w' := TagFiles(w, ys, |ys|);
      && Extends(w.calls, w'.calls)
      && Since(w.calls, w'.calls) == TagCalls(ys)
      && Assignments(Since(w.calls, w'.calls)) == Yielded(ys)
      && w'.config == (if |ys| == 0 then w.config else w.config[STATUS_KEY := "true"])
  {
    TagFilesEffect(w, ys, |ys|);
    IsTagCalls(Since(w.calls, TagFiles(w, ys, |ys|).calls), ys);
    TagFilesAssignments(w, ys, |ys|);
    assert Yielded(ys)[..|ys|] == Yielded(ys);
  }

  lemma IsTagCalls(dt: seq<Call>, ys: seq<Yield>)
    requires |dt| == 2 * |ys|
    requires forall i :: 0 <= i < |dt| ==>
      dt[i] == if i % 2 == 0 then CallAssignTags(ys[i / 2].0.fileId, ys[i / 2].1)
               else CallSetAppValue(STATUS_KEY, "true")
    ensures dt == TagCalls(ys)
  {
  }
}
