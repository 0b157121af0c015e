// The chain of clocks that ecx_configdc leaves in DCnext and DCprevious.
module Chain {
  import opened Topology
  import opened Clocks

  /** The master, then the slaves with a clock and a number below `n`, in increasing order. */
  function ClockPath(link: seq<Link>, n: nat): (s: seq<nat>)
    requires 1 <= n <= |link|
    ensures |s| > 0 && s[0] == 0 && s[|s| - 1] < n
    ensures forall j, k :: 0 <= j < k < |s| ==> s[j] < s[k]
  {
    if n == 1 then [0]
    else if link[n - 1].hasdc then ClockPath(link, n - 1) + [n - 1]
    else ClockPath(link, n - 1)
  }

  lemma {:induction false} PathIsBelow(link: seq<Link>, n: nat)
    requires 1 <= n <= |link|
    ensures forall i :: i in ClockPath(link, n) ==> i < n
  {
    hide ClockPath;
    var p := ClockPath(link, n);
    assert forall k :: 0 <= k < |p| ==> p[k] <= p[|p| - 1];
  }

  lemma {:induction false} PathIsTheClocks(link: seq<Link>, n: nat, i: nat)
    requires 1 <= i < n <= |link|
    ensures i in ClockPath(link, n) <==> link[i].hasdc
  {
    hide ClockPath;
    PathUnfolds(link, n);
    if i < n - 1 {
      PathIsTheClocks(link, n - 1, i);
    } else {
      PathIsBelow(link, n - 1);
    }
  }

  /** `DCnext` leads along `path` and `DCprevious` back along it. */
  ghost predicate Chained(path: seq<nat>, next: seq<nat>, previous: seq<nat>) {
    && (forall k :: 0 <= k < |path| ==> path[k] < |next| && path[k] < |previous|)
    && (forall k :: 0 <= k < |path| - 1 ==> next[path[k]] == path[k + 1] && previous[path[k + 1]] == path[k])
  }

  /** What one step does to the chain. */
  lemma {:induction false} StepLinks(link: seq<Link>, latch: seq<Latch>, st: State, i: nat)
    requires Shaped(link, latch, st) && 1 <= i < |link|
    ensures var r := Step(link, latch, st, i);
            if link[i].hasdc then r.next == st.next[st.last := i] && r.previous == st.previous[i := st.last] && r.last == i
            else r.next == st.next && r.previous == st.previous && r.last == st.last
  {
    hide Measure, Stamped, Hold, Descending;
  }

  lemma {:induction false} MasterAlone(st: State)
    requires |st.next| > 0 && |st.previous| > 0
    ensures Chained([0], st.next, st.previous)
  {
  }

  lemma {:induction false} AppendToPath(path: seq<nat>, next: seq<nat>, previous: seq<nat>, i: nat)
    requires Chained(path, next, previous) && path != [] && i < |next| && i < |previous|
    requires forall j, k :: 0 <= j < k < |path| ==> path[j] < path[k]
    requires path[|path| - 1] < i
    ensures var last := path[|path| - 1];
            Chained(path + [i], next[last := i], previous[i := last])
  {
  }

  lemma {:induction false} RunUnfolds(link: seq<Link>, latch: seq<Latch>, st: State, n: nat)
    requires Shaped(link, latch, st) && 1 <= n <= |link|
    ensures Run(link, latch, st, 1, n) == if n == 1 then st else Step(link, latch, Run(link, latch, st, 1, n - 1), n - 1)
  {
    hide Step, Descending;
  }

  /** From the master along DCnext through exactly the slaves with a clock, in increasing order,
      and back along DCprevious, whatever the tables held before. */
  lemma {:induction false} ChainVisitsClocks(link: seq<Link>, latch: seq<Latch>, st: State, n: nat)
    requires Shaped(link, latch, st) && st.last == 0 && 1 <= n <= |link|
    ensures var r := Run(link, latch, st, 1, n);
            var path := ClockPath(link, n);
            Chained(path, r.next, r.previous) && r.last == path[|path| - 1]
  {
    hide Step, Run, Descending, Shaped, Chained, ClockPath;
    Lengths(link, latch, st);
    RunUnfolds(link, latch, st, n);
    PathUnfolds(link, n);
    if n == 1 {
      MasterAlone(st);
    } else {
      ChainVisitsClocks(link, latch, st, n - 1);
      ChainGrows(link, latch, Run(link, latch, st, 1, n - 1), n - 1);
    }
  }

  lemma {:induction false} PathUnfolds(link: seq<Link>, n: nat)
    requires 1 <= n <= |link|
    ensures ClockPath(link, n)
         == if n == 1 then [0] else ClockPath(link, n - 1) + if link[n - 1].hasdc then [n - 1] else []
  {
  }

  /** One slave more. */
  lemma {:induction false} ChainGrows(link: seq<Link>, latch: seq<Latch>, st: State, i: nat)
    requires Shaped(link, latch, st) && 1 <= i < |link|
    requires var path := ClockPath(link, i); Chained(path, st.next, st.previous) && st.last == path[|path| - 1]
    ensures var r := Step(link, latch, st, i);
            var path := ClockPath(link, i) + if link[i].hasdc then [i] else [];
            Chained(path, r.next, r.previous) && r.last == path[|path| - 1]
  {
    hide Step, Descending, Shaped, Chained, ClockPath;
    Lengths(link, latch, st);
    StepLinks(link, latch, st, i);
    var path := ClockPath(link, i);
    if link[i].hasdc {
      AppendToPath(path, st.next, st.previous, i);
    } else {
      assert path + [] == path;
    }
  }

  /** Where `steps` moves along DCnext lead. */
  function Follow(next: seq<nat>, start: nat, steps: nat): nat {
    if steps == 0 then start
    else
      var s := Follow(next, start, steps - 1);
      if s < |next| then next[s] else s
  }

  lemma {:induction false} FollowingTheChain(path: seq<nat>, next: seq<nat>, previous: seq<nat>, steps: nat)
    requires Chained(path, next, previous) && steps < |path|
    ensures Follow(next, path[0], steps) == path[steps]
  {
    if steps > 0 {
      FollowingTheChain(path, next, previous, steps - 1);
    }
  }
}
