/**
  The two shapes of accumulation loop the parsers use: appending one value
  (or one chunk of values) per step, and giving up as a whole, with nothing
  kept, as soon as one step raises.
 */
module Collecting {
  import opened Wrappers

  /**
    A loop that appends one value per step and gives up as a whole as soon as
    one step raises: the values in order, or `None` once any step failed.
   */
  function Collect<T>(steps: seq<Option<T>>): Option<seq<T>>
    decreases |steps|
  {
    if steps == [] then Some([])
    else
      match Collect(steps[..|steps| - 1])
      case None => None
      case Some(values) =>
        match steps[|steps| - 1]
        case None => None
        case Some(v) => Some(values + [v])
  }

  predicate AllSome<T>(steps: seq<Option<T>>)
  {
    forall i :: 0 <= i < |steps| ==> steps[i].Some?
  }

  /** One more step: the values so far and that step's value, or `None` if either failed. */
  lemma CollectStep<T>(steps: seq<Option<T>>, i: nat)
    requires i < |steps|
    ensures Collect(steps[..i + 1]) ==
      if Collect(steps[..i]).Some? && steps[i].Some? then Some(Collect(steps[..i]).value + [steps[i].value]) else None
  {
    assert steps[..i + 1][..i] == steps[..i];
  }

  /** Once a prefix has failed, the whole run has: no partial list survives. */
  lemma {:induction false} CollectFailedPrefix<T>(steps: seq<Option<T>>, j: nat)
    requires j <= |steps|
    requires Collect(steps[..j]).None?
    ensures Collect(steps).None?
    decreases |steps| - j
  {
    if j < |steps| {
      CollectStep(steps, j);
      CollectFailedPrefix(steps, j + 1);
    } else {
      assert steps[..j] == steps;
    }
  }

  /** The run succeeds exactly when every step does, and then holds one value per step, in step order. */
  lemma {:induction false} CollectAllSome<T>(steps: seq<Option<T>>)
    ensures Collect(steps).Some? <==> AllSome(steps)
    ensures Collect(steps).Some? ==>
              |Collect(steps).value| == |steps| &&
              forall i :: 0 <= i < |steps| ==> Collect(steps).value[i] == steps[i].value
    decreases |steps|
  {
    if steps != [] {
      var n := |steps| - 1;
      var prefix := steps[..n];
      CollectAllSome(prefix);
      assert forall i :: 0 <= i < n ==> prefix[i] == steps[i];
    }
  }

  /** The chunks one after another. */
  function Flatten<T>(chunks: seq<seq<T>>): seq<T>
    decreases |chunks|
  {
    if chunks == [] then []
    else Flatten(chunks[..|chunks| - 1]) + chunks[|chunks| - 1]
  }

  /** Extending a loop's prefix by one step. */
  lemma PrefixSnoc<T>(s: seq<T>, i: nat)
    requires i < |s|
    ensures s[..i + 1] == s[..i] + [s[i]]
  {
  }

  /** Concatenation is associative; stated apart so that callers need no element-wise reasoning. */
  lemma AppendAssociative<T>(a: seq<T>, b: seq<T>, c: seq<T>)
    ensures a + b + c == a + (b + c)
  {
  }

  lemma FlattenSnoc<T>(chunks: seq<seq<T>>, chunk: seq<T>)
    ensures Flatten(chunks + [chunk]) == Flatten(chunks) + chunk
  {
    assert (chunks + [chunk])[..|chunks|] == chunks;
  }

  /** Flattening distributes over concatenation of the chunk lists. */
  lemma {:induction false} FlattenAppend<T>(a: seq<seq<T>>, b: seq<seq<T>>)
    ensures Flatten(a + b) == Flatten(a) + Flatten(b)
    decreases |b|
  {
    if b == [] {
      assert a + b == a;
    } else {
      var n := |b| - 1;
      assert a + b == (a + b[..n]) + [b[n]];
      FlattenSnoc(a + b[..n], b[n]);
      FlattenAppend(a, b[..n]);
      FlattenSnoc(b[..n], b[n]);
      assert b[..n] + [b[n]] == b;
    }
  }

  /** Every element of the flattening comes from one of the chunks. */
  lemma {:induction false} FlattenMember<T>(chunks: seq<seq<T>>, x: T)
    requires x in Flatten(chunks)
    ensures exists i :: 0 <= i < |chunks| && x in chunks[i]
    decreases |chunks|
  {
    var n := |chunks| - 1;
    if x !in chunks[n] {
      FlattenMember(chunks[..n], x);
      var i :| 0 <= i < n && x in chunks[..n][i];
      assert chunks[i] == chunks[..n][i];
    }
  }

  /** Chunks of at most one element flatten to no more elements than there are chunks. */
  lemma {:induction false} FlattenOfSingletons<T>(chunks: seq<seq<T>>)
    requires forall i :: 0 <= i < |chunks| ==> |chunks[i]| <= 1
    ensures |Flatten(chunks)| <= |chunks|
    decreases |chunks|
  {
    if chunks != [] {
      var n := |chunks| - 1;
      assert forall i :: 0 <= i < n ==> chunks[..n][i] == chunks[i];
      FlattenOfSingletons(chunks[..n]);
    }
  }
}
