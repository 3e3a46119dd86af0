/** `last_used_tasks`: the tasks of the latest time entries, each listed once, in order of first use. */
module RecentTasks {
  import opened Wrappers
  import opened Entities

  /** One step of the fold: append `t` unless it is already listed. */
  function KeepFirst(acc: seq<Task>, t: Task): seq<Task> {
    if t in acc then acc else acc + [t]
  }

  /** The fold over the entries' tasks, starting from `acc`. */
  function DedupFrom(acc: seq<Task>, ts: seq<Task>): seq<Task>
    decreases |ts|
  {
    if ts == [] then acc else DedupFrom(KeepFirst(acc, ts[0]), ts[1..])
  }

  function EntryTasks(entries: seq<TimeEntry>): (r: seq<Task>)
    ensures |r| == |entries|
    ensures forall i :: 0 <= i < |entries| ==> r[i] == EntryTask(entries[i])
  {
    seq(|entries|, i requires 0 <= i < |entries| => EntryTask(entries[i]))
  }

  /** Where `x` first occurs in `s`. */
  function FirstIndex(s: seq<Task>, x: Task): (r: nat)
    requires x in s
    ensures r < |s| && s[r] == x
    ensures forall k :: 0 <= k < r ==> s[k] != x
  {
    if s[0] == x then 0 else 1 + FirstIndex(s[1..], x)
  }

  /**
   * `r` lists every element of `ts` exactly once, in the order in which the
   * elements first occur in `ts`. Only one sequence has these properties.
   */
  ghost predicate FirstOccurrences(r: seq<Task>, ts: seq<Task>) {
    && (forall i, j :: 0 <= i < j < |r| ==> r[i] != r[j])
    && (forall x :: x in r <==> x in ts)
    && (forall i, j :: 0 <= i < j < |r| ==> FirstIndex(ts, r[i]) < FirstIndex(ts, r[j]))
  }

  /**
   * The tasks of the entries fetched (the latest sixty), each kept at its
   * first occurrence; a failed fetch is passed on.
   */
  function LastUsedTasks(fetched: Result<seq<TimeEntry>, GatewayError>): (r: Result<seq<Task>, GatewayError>)
    ensures fetched.Failure? ==> r == Failure(fetched.error)
    ensures fetched.Success? ==> r.Success? && FirstOccurrences(r.value, EntryTasks(fetched.value))
    ensures fetched.Success? ==> forall i :: 0 <= i < |r.value| ==> r.value[i].subTasks == []
  {
    if fetched.Failure? then Failure(fetched.error)
    else
      var ts := EntryTasks(fetched.value);
      DedupSpec(ts);
      assert forall x :: x in ts ==> x.subTasks == [];
      Success(DedupFrom([], ts))
  }

  lemma DedupSpec(ts: seq<Task>)
    ensures FirstOccurrences(DedupFrom([], ts), ts)
  {
    FoldIsFirstOcc([], ts);
    assert [] + ts == ts;
    FirstOccSpec(ts);
  }

  /** The same fold, stated on prefixes: the last task is kept unless an earlier one equals it. */
  function FirstOcc(ts: seq<Task>): seq<Task> {
    if ts == [] then [] else KeepFirst(FirstOcc(ts[..|ts| - 1]), ts[|ts| - 1])
  }

  lemma {:induction false} FoldIsFirstOcc(pre: seq<Task>, rest: seq<Task>)
    ensures DedupFrom(FirstOcc(pre), rest) == FirstOcc(pre + rest)
    decreases |rest|
  {
    if rest == [] {
      assert pre + rest == pre;
    } else {
      FirstOccSnoc(pre, rest[0]);
      FoldIsFirstOcc(pre + [rest[0]], rest[1..]);
      MoveFirst(pre, rest);
    }
  }

  lemma FirstOccSnoc(pre: seq<Task>, x: Task)
    ensures FirstOcc(pre + [x]) == KeepFirst(FirstOcc(pre), x)
  {
    assert (pre + [x])[..|pre|] == pre;
  }

  lemma MoveFirst(pre: seq<Task>, rest: seq<Task>)
    requires rest != []
    ensures pre + [rest[0]] + rest[1..] == pre + rest
  {
  }

  lemma FirstIndexExtend(s: seq<Task>, x: Task, y: Task)
    requires y in s
    ensures FirstIndex(s + [x], y) == FirstIndex(s, y)
  {
    var r := FirstIndex(s, y);
    var r' := FirstIndex(s + [x], y);
    assert (s + [x])[r] == y;
  }

  lemma FirstIndexLast(s: seq<Task>, x: Task)
    requires x !in s
    ensures FirstIndex(s + [x], x) == |s|
  {
    var r := FirstIndex(s + [x], x);
  }

  lemma {:induction false} FirstOccSpec(ts: seq<Task>)
    ensures FirstOccurrences(FirstOcc(ts), ts)
  {
    if ts != [] {
      var p := ts[..|ts| - 1];
      var x := ts[|ts| - 1];
      assert ts == p + [x];
      FirstOccSpec(p);
      var q := FirstOcc(p);
      var r := FirstOcc(ts);
      assert forall y :: y in ts <==> y in p || y == x;
      forall i | 0 <= i < |q|
        ensures FirstIndex(ts, q[i]) == FirstIndex(p, q[i]) < |p|
      {
        FirstIndexExtend(p, x, q[i]);
      }
      if x !in q {
        assert r == q + [x];
        FirstIndexLast(p, x);
        forall i, j | 0 <= i < j < |r|
          ensures FirstIndex(ts, r[i]) < FirstIndex(ts, r[j])
        {
          if j == |q| {
            assert r[i] == q[i];
          } else {
            assert r[i] == q[i] && r[j] == q[j];
          }
        }
      }
    }
  }
}
