/** Writing the closure projections, and checking that the tree already holds them. */
module Projection {
  import opened Ordering

  /** One output file: its path and its rendered content. */
  datatype Output = Output(path: string, content: string)

  /**
   * One target of a lock authority (or the build constraints): the lock's path and the renderer, which
   * yields the target's files in order, or nothing when it cannot be rendered.
   */
  datatype Definition = Definition(lock: string, render: string -> Result<seq<Output>>)

  ghost function PathsOf(outputs: seq<Output>): set<string> { set o | o in outputs :: o.path }

  /** No two outputs share a path. */
  ghost predicate DistinctPaths(outputs: seq<Output>) {
    forall i, j :: 0 <= i < j < |outputs| ==> outputs[i].path != outputs[j].path
  }

  /** What the files render to: all outputs of all definitions, or nothing when a lock is unusable. */
  function Rendered(files: map<string, string>, definitions: seq<Definition>): Result<seq<Output>> {
    if definitions == [] then Success([])
    else
      var d := definitions[|definitions| - 1];
      var front := Rendered(files, definitions[..|definitions| - 1]);
      if front.Failure? || d.lock !in files || d.render(files[d.lock]).Failure? then Failure
      else Success(front.value + d.render(files[d.lock]).value)
  }

  ghost predicate Renders(files: map<string, string>, d: Definition) {
    d.lock in files && d.render(files[d.lock]).Success?
  }

  /** All of it renders when each definition does, and then holds what each yields from its lock and no more. */
  lemma {:induction false} RenderedIsAll(files: map<string, string>, definitions: seq<Definition>, o: Output)
    ensures Rendered(files, definitions).Success? <==>
      forall i :: 0 <= i < |definitions| ==> Renders(files, definitions[i])
    ensures Rendered(files, definitions).Success? ==> (
      o in Rendered(files, definitions).value <==>
        exists i :: 0 <= i < |definitions| && Renders(files, definitions[i])
          && o in definitions[i].render(files[definitions[i].lock]).value)
  {
    if definitions != [] {
      var n := |definitions| - 1;
      RenderedIsAll(files, definitions[..n], o);
      assert forall i :: 0 <= i < n ==> definitions[i] == definitions[..n][i];
    }
  }

  /** Every output is on disk with its content. */
  ghost predicate Holds(files: map<string, string>, outputs: seq<Output>) {
    forall i :: 0 <= i < |outputs| ==> outputs[i].path in files && files[outputs[i].path] == outputs[i].content
  }

  function Written(files: map<string, string>, outputs: seq<Output>): map<string, string> {
    if outputs == [] then files
    else
      var last := outputs[|outputs| - 1];
      Written(files, outputs[..|outputs| - 1])[last.path := last.content]
  }

  /** A working tree. */
  class Tree {
    var files: map<string, string>

    constructor (files: map<string, string>)
      ensures this.files == files
    {
      this.files := files;
    }

    /** `_write_if_changed`: report a difference, and remove it unless this is a check run. */
    method WriteIfChanged(o: Output, check: bool) returns (changed: bool)
      modifies this
      ensures changed <==> !(o.path in old(files) && old(files)[o.path] == o.content)
      ensures files == if check then old(files) else old(files)[o.path := o.content]
    {
      if o.path in files && files[o.path] == o.content {
        return false;
      }
      if !check { files := files[o.path := o.content]; }
      return true;
    }

    /** The loop over the outputs of one definition. */
    method WriteAll(outputs: seq<Output>, check: bool) returns (changed: bool)
      requires DistinctPaths(outputs)
      modifies this
      ensures changed <==> !Holds(old(files), outputs)
      ensures files == if check then old(files) else Written(old(files), outputs)
    {
      changed := false;
      for i := 0 to |outputs|
        invariant changed <==> !Holds(old(files), outputs[..i])
        invariant files == if check then old(files) else Written(old(files), outputs[..i])
      {
        assert outputs[..i + 1][..i] == outputs[..i];
        UntouchedByWriting(old(files), outputs[..i], outputs[i].path);
        var here := WriteIfChanged(outputs[i], check);
        HoldsOneMore(old(files), outputs[..i], outputs[i]);
        assert outputs[..i + 1] == outputs[..i] + [outputs[i]];
        changed := here || changed;
      }
      assert outputs[..|outputs|] == outputs;
    }

    /**
     * `generate`: render each definition from its lock as the tree then holds it, and write or compare.
     * `Success(true)` reports that the tree was already current. A failing run leaves behind what the
     * definitions before the failing one render to.
     */
    method Generate(definitions: seq<Definition>, check: bool) returns (current: Result<bool>)
      requires Projectable(files, definitions)
      modifies this
      ensures current.Success? <==> Rendered(old(files), definitions).Success?
      ensures current.Success? ==>
        var outputs := Rendered(old(files), definitions).value;
        && (current.value <==> Holds(old(files), outputs))
        && files == if check then old(files) else Written(old(files), outputs)
      ensures current.Failure? ==> (exists n: nat :: (
        && FailsAt(old(files), definitions, n)
        && files == if check then old(files) else Written(old(files), Rendered(old(files), definitions[..n]).value)))
      ensures check ==> files == old(files)
    {
      var changed := false;
      ghost var done: seq<Output> := [];
      for i := 0 to |definitions|
        invariant Rendered(old(files), definitions[..i]) == Success(done)
        invariant changed <==> !Holds(old(files), done)
        invariant files == if check then old(files) else Written(old(files), done)
      {
        ghost var prefix := definitions[..i + 1];
        assert prefix[..i] == definitions[..i];
        var d := definitions[i];
        LocksAreNotOutputs(old(files), definitions, i, done);
        if d.lock !in files {
          RenderingFails(old(files), definitions, i + 1);
          assert FailsAt(old(files), definitions, i);
          return Failure;
        }
        var rendered := d.render(files[d.lock]);
        if rendered.Failure? {
          RenderingFails(old(files), definitions, i + 1);
          assert FailsAt(old(files), definitions, i);
          return Failure;
        }
        OutputsAreDistinct(old(files), definitions, i + 1);
        DistinctParts(done, rendered.value);
        HoldsAfterOthers(old(files), done, rendered.value);
        WrittenInTwo(old(files), done, rendered.value);
        var here := WriteAll(rendered.value, check);
        HoldsBoth(old(files), done, rendered.value);
        changed := here || changed;
        done := done + rendered.value;
      }
      assert definitions[..|definitions|] == definitions;
      return Success(!changed);
    }
  }

  /** Definition `n` is the first that cannot be rendered. */
  ghost predicate FailsAt(files: map<string, string>, definitions: seq<Definition>, n: nat) {
    n < |definitions| && Rendered(files, definitions[..n]).Success? && Rendered(files, definitions[..n + 1]).Failure?
  }

  /** There is one such definition at most, and one exactly if not all of them render. */
  lemma {:induction false} FailsOnce(files: map<string, string>, definitions: seq<Definition>)
    ensures Rendered(files, definitions).Failure? <==> exists n: nat :: FailsAt(files, definitions, n)
    ensures forall m: nat, n: nat :: FailsAt(files, definitions, m) && FailsAt(files, definitions, n) ==> m == n
  {
    if Rendered(files, definitions).Failure? {
      var front := definitions[..|definitions| - 1];
      if Rendered(files, front).Success? {
        assert definitions[..|front| + 1] == definitions;
        assert FailsAt(files, definitions, |front|);
      } else {
        FailsOnce(files, front);
        var n: nat :| FailsAt(files, front, n);
        assert front[..n] == definitions[..n] && front[..n + 1] == definitions[..n + 1];
        assert FailsAt(files, definitions, n);
      }
    }
    forall n: nat | FailsAt(files, definitions, n) ensures Rendered(files, definitions).Failure? {
      RenderingFails(files, definitions, n + 1);
    }
    forall m: nat, n: nat | FailsAt(files, definitions, m) && FailsAt(files, definitions, n) ensures m <= n {
      if n < m {
        assert definitions[..m][..n + 1] == definitions[..n + 1];
        RenderingFails(files, definitions[..m], n + 1);
      }
    }
  }

  /** Whatever can be rendered goes to pairwise distinct paths, none of them a lock. */
  ghost predicate Projectable(files: map<string, string>, definitions: seq<Definition>) {
    forall n :: 0 <= n <= |definitions| && Rendered(files, definitions[..n]).Success? ==>
      var outputs := Rendered(files, definitions[..n]).value;
      && DistinctPaths(outputs)
      && forall d, o :: d in definitions && o in outputs ==> d.lock != o.path
  }

  lemma OutputsAreDistinct(files: map<string, string>, definitions: seq<Definition>, n: nat)
    requires Projectable(files, definitions) && n <= |definitions| && Rendered(files, definitions[..n]).Success?
    ensures DistinctPaths(Rendered(files, definitions[..n]).value)
  {
  }

  /** What was written so far has left the next lock alone. */
  lemma LocksAreNotOutputs(files: map<string, string>, definitions: seq<Definition>, i: nat, done: seq<Output>)
    requires Projectable(files, definitions) && i < |definitions| && Rendered(files, definitions[..i]) == Success(done)
    ensures var lock := definitions[i].lock; var now := Written(files, done);
      (lock in now <==> lock in files) && (lock in files ==> now[lock] == files[lock])
  {
    assert definitions[i] in definitions;
    UntouchedByWriting(files, done, definitions[i].lock);
  }

  lemma {:induction false} UntouchedByWriting(files: map<string, string>, outputs: seq<Output>, path: string)
    requires forall o :: o in outputs ==> o.path != path
    ensures path in Written(files, outputs) <==> path in files
    ensures path in files ==> Written(files, outputs)[path] == files[path]
  {
    if outputs != [] {
      assert outputs[|outputs| - 1] in outputs;
      UntouchedByWriting(files, outputs[..|outputs| - 1], path);
    }
  }

  lemma HoldsOneMore(files: map<string, string>, outputs: seq<Output>, o: Output)
    ensures Holds(files, outputs + [o]) <==> Holds(files, outputs) && o.path in files && files[o.path] == o.content
  {
    HoldsBoth(files, outputs, [o]);
    assert [o][0] == o;
  }

  lemma HoldsBoth(files: map<string, string>, a: seq<Output>, b: seq<Output>)
    ensures Holds(files, a + b) <==> Holds(files, a) && Holds(files, b)
  {
    if Holds(files, a + b) {
      forall i | 0 <= i < |a|
        ensures a[i].path in files && files[a[i].path] == a[i].content { assert (a + b)[i] == a[i]; }
      forall i | 0 <= i < |b|
        ensures b[i].path in files && files[b[i].path] == b[i].content { assert (a + b)[|a| + i] == b[i]; }
    }
  }

  lemma DistinctParts(a: seq<Output>, b: seq<Output>)
    requires DistinctPaths(a + b)
    ensures DistinctPaths(b) && (forall o, p :: o in a && p in b ==> o.path != p.path)
  {
    forall i, j | 0 <= i < j < |b| ensures b[i].path != b[j].path {
      assert (a + b)[|a| + i] == b[i] && (a + b)[|a| + j] == b[j];
    }
    forall o, p | o in a && p in b ensures o.path != p.path {
      var i :| 0 <= i < |a| && a[i] == o;
      var j :| 0 <= j < |b| && b[j] == p;
      assert (a + b)[i] == o && (a + b)[|a| + j] == p;
    }
  }

  /** Writing other files does not change whether these hold. */
  lemma HoldsAfterOthers(files: map<string, string>, a: seq<Output>, b: seq<Output>)
    requires forall o, p :: o in a && p in b ==> o.path != p.path
    ensures Holds(Written(files, a), b) <==> Holds(files, b)
  {
    forall j | 0 <= j < |b|
      ensures b[j].path in Written(files, a) <==> b[j].path in files
      ensures b[j].path in files ==> Written(files, a)[b[j].path] == files[b[j].path]
    {
      UntouchedByWriting(files, a, b[j].path);
    }
  }

  lemma {:induction false} WrittenInTwo(files: map<string, string>, a: seq<Output>, b: seq<Output>)
    ensures Written(files, a + b) == Written(Written(files, a), b)
  {
    if b == [] {
      assert a + b == a;
    } else {
      WrittenInTwo(files, a, b[..|b| - 1]);
      assert (a + b)[..|a + b| - 1] == a + b[..|b| - 1];
    }
  }

  lemma {:induction false} RenderingFails(files: map<string, string>, definitions: seq<Definition>, n: nat)
    requires n <= |definitions| && Rendered(files, definitions[..n]).Failure?
    ensures Rendered(files, definitions).Failure?
    decreases |definitions|
  {
    if n == |definitions| {
      assert definitions[..n] == definitions;
    } else {
      var front := definitions[..|definitions| - 1];
      assert front[..n] == definitions[..n];
      RenderingFails(files, front, n);
    }
  }

  lemma {:induction false} WrittenHolds(files: map<string, string>, outputs: seq<Output>)
    requires DistinctPaths(outputs)
    ensures Holds(Written(files, outputs), outputs)
  {
    if outputs != [] {
      var front, last := outputs[..|outputs| - 1], outputs[|outputs| - 1];
      WrittenHolds(files, front);
      forall i | 0 <= i < |outputs|
        ensures outputs[i].path in Written(files, outputs)
        ensures Written(files, outputs)[outputs[i].path] == outputs[i].content
      {
        if i < |front| { assert front[i] == outputs[i]; }
      }
    }
  }

  /** Writing the outputs changes no lock, so the same outputs are rendered afterwards. */
  lemma {:induction false} RenderedAgain(files: map<string, string>, definitions: seq<Definition>, outputs: seq<Output>)
    requires forall d, o :: d in definitions && o in outputs ==> d.lock != o.path
    ensures Rendered(Written(files, outputs), definitions) == Rendered(files, definitions)
  {
    if definitions != [] {
      var d := definitions[|definitions| - 1];
      assert d in definitions;
      RenderedAgain(files, definitions[..|definitions| - 1], outputs);
      UntouchedByWriting(files, outputs, d.lock);
    }
  }

  /**
   * After a write run that succeeds, a check run reports the tree as current; in between nothing
   * else may touch the tree.
   */
  method WriteThenCheck(tree: Tree, definitions: seq<Definition>) returns (written: Result<bool>, checked: Result<bool>)
    requires Projectable(tree.files, definitions)
    modifies tree
    ensures written.Success? ==> checked == Success(true)
  {
    ghost var before := tree.files;
    written := tree.Generate(definitions, false);
    checked := Failure;
    if written.Success? {
      ghost var outputs := Rendered(before, definitions).value;
      ProjectableAfterwards(before, definitions);
      checked := tree.Generate(definitions, true);
      AllOutputs(before, definitions);
      RenderedAgain(before, definitions, outputs);
      WrittenHolds(before, outputs);
    }
  }

  lemma AllOutputs(files: map<string, string>, definitions: seq<Definition>)
    requires Projectable(files, definitions) && Rendered(files, definitions).Success?
    ensures DistinctPaths(Rendered(files, definitions).value)
    ensures forall d, o :: d in definitions && o in Rendered(files, definitions).value ==> d.lock != o.path
  {
    assert definitions[..|definitions|] == definitions;
  }

  lemma ProjectableAfterwards(files: map<string, string>, definitions: seq<Definition>)
    requires Projectable(files, definitions) && Rendered(files, definitions).Success?
    ensures Projectable(Written(files, Rendered(files, definitions).value), definitions)
  {
    var outputs := Rendered(files, definitions).value;
    var now := Written(files, outputs);
    AllOutputs(files, definitions);
    forall n | 0 <= n <= |definitions| && Rendered(now, definitions[..n]).Success?
      ensures DistinctPaths(Rendered(now, definitions[..n]).value)
        && forall d, o :: d in definitions && o in Rendered(now, definitions[..n]).value ==> d.lock != o.path
    {
      RenderedAgain(files, definitions[..n], outputs);
    }
  }
}
