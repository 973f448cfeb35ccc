/**
 The list of client threads: a new one is appended for every connection, and those that have
 finished are unlinked, joined and freed (acceptClientConnection in aesdsocket.c).
 */
module ThreadList {

  class ThreadArg {
    var isDone: bool
    var next: ThreadArg?

    constructor ()
      ensures !isDone && next == null
    {
      isDone, next := false, null;
    }
  }

  /**
   The calls into the C library that the list relies on. The ghost fields record which nodes were
   allocated and are still live, which had a thread started on them, which of those threads have
   finished, and what was joined and freed.
   */
  class Process {
    ghost var allocations: set<ThreadArg>
    ghost var live: set<ThreadArg>
    ghost var freed: seq<ThreadArg>
    ghost var started: set<ThreadArg>
    var running: set<ThreadArg>
    ghost var finished: set<ThreadArg>
    ghost var joined: seq<ThreadArg>

    /**
     Each node is live or freed once, each thread started is unjoined or joined once and runs on a
     live node, and only threads that had finished were joined. The flag of a thread not yet joined
     says whether it has finished.
     */
    ghost predicate Valid()
      reads this, running`isDone
    {
      && multiset(allocations) == multiset(live) + multiset(freed)
      && multiset(started) == multiset(running) + multiset(joined)
      && running <= live && finished <= started
      && (forall t :: t in joined ==> t in finished)
      && (forall t :: t in running ==> (t.isDone <==> t in finished))
    }

    constructor ()
      ensures Valid() && allocations == live == started == running == finished == {} && freed == joined == []
    {
      allocations, live, freed, started, running, finished, joined := {}, {}, [], {}, {}, {}, [];
    }

    method Malloc() returns (arg: ThreadArg)
      requires Valid()
      modifies this`allocations, this`live
      ensures Valid() && fresh(arg) && !arg.isDone && arg.next == null && arg !in started
      ensures allocations == old(allocations) + {arg} && live == old(live) + {arg}
    {
      arg := new ThreadArg();
      assert arg !in allocations;
      assert multiset(allocations + {arg}) == multiset(allocations) + multiset{arg};
      assert arg in live ==> arg in multiset(allocations);
      assert multiset(live + {arg}) == multiset(live) + multiset{arg};
      allocations, live := allocations + {arg}, live + {arg};
    }

    /** Starts a thread on a node, if the system can; by then the node's flag has to be down. */
    method PthreadCreate(arg: ThreadArg) returns (ok: bool)
      requires Valid() && arg in live && arg !in started && !arg.isDone
      modifies this`started, this`running
      ensures Valid()
      ensures started == old(started) + (if ok then {arg} else {})
      ensures multiset(running) == multiset(old(running)) + (if ok then multiset{arg} else multiset{})
    {
      ok := *;
      if ok {
        assert arg in running ==> arg in multiset(started);
        assert multiset(started + {arg}) == multiset(started) + multiset{arg};
        assert multiset(running + {arg}) == multiset(running) + multiset{arg};
        started, running := started + {arg}, running + {arg};
      }
    }

    /** The client threads get some time: any of them may finish, which it says in its node. */
    method Schedule()
      requires Valid()
      modifies this`finished, running`isDone
      ensures Valid() && old(finished) <= finished <= old(finished) + running
    {
      var finishing: set<ThreadArg> := *;
      forall t | t in running && t in finishing {
        t.isDone := true;
      }
      assert forall t :: t in running ==> t in multiset(started);
      finished := finished + running * finishing;
    }

    /** Joins a thread that has finished, so there is nothing to wait for. */
    method PthreadJoin(arg: ThreadArg)
      requires Valid() && arg in running && arg in finished
      modifies this`running, this`joined
      ensures Valid() && running == old(running) - {arg} && joined == old(joined) + [arg]
    {
      assert multiset(running) == multiset(running - {arg}) + multiset{arg};
      running, joined := running - {arg}, joined + [arg];
    }

    /** Frees a node no thread runs on any more; nothing is known of its fields afterwards. */
    method Free(arg: ThreadArg)
      requires Valid() && arg in live && arg !in running
      modifies this`live, this`freed, arg
      ensures Valid() && live == old(live) - {arg} && freed == old(freed) + [arg]
    {
      assert multiset(live) == multiset(live - {arg}) + multiset{arg};
      arg.isDone, arg.next := *, *;
      live, freed := live - {arg}, freed + [arg];
    }
  }

  ghost predicate Distinct<T>(xs: seq<T>) {
    forall i, j :: 0 <= i < j < |xs| ==> xs[i] != xs[j]
  }

  /** A sequence with the elements of a set, each as often as the set has it, has none twice. */
  lemma DistinctFromSet<T>(xs: seq<T>, s: set<T>)
    requires multiset(xs) == multiset(s)
    ensures Distinct(xs)
  {
    forall i, j | 0 <= i < j < |xs|
      ensures xs[i] != xs[j]
    {
      assert xs == xs[..j] + xs[j..];
      assert xs[..j][i] in multiset(xs[..j]) && xs[j..][0] in multiset(xs[j..]);
      assert multiset(s)[xs[j]] <= 1;
    }
  }

  /** The elements whose flag is `flag`, in order. */
  ghost function Select<T>(xs: seq<T>, flags: seq<bool>, flag: bool): seq<T>
    requires |xs| == |flags|
  {
    if xs == [] then []
    else
      var n := |xs| - 1;
      Select(xs[..n], flags[..n], flag) + if flags[n] == flag then [xs[n]] else []
  }

  lemma SelectNext<T>(xs: seq<T>, flags: seq<bool>, k: nat, b: bool)
    requires |flags| == k < |xs|
    ensures Select(xs[..k + 1], flags + [b], false)
         == var no := Select(xs[..k], flags, false); if b then no else no + [xs[k]]
    ensures Select(xs[..k + 1], flags + [b], true) == Select(xs[..k], flags, true) + if b then [xs[k]] else []
  {
    assert xs[..k + 1][..k] == xs[..k] && (flags + [b])[..k] == flags;
  }

  /** When some of what was left has gone, the others are what is left. */
  lemma Left<T>(all: multiset<T>, left: multiset<T>, left': multiset<T>, gone: multiset<T>,
                yes: multiset<T>, no: multiset<T>)
    requires all == left + gone && all == left' + (gone + yes) && left == yes + no
    ensures left' == no
  {
    forall t
      ensures left'[t] == no[t]
    {
      assert all[t] == left[t] + gone[t] == left'[t] + (gone + yes)[t];
      assert left[t] == yes[t] + no[t];
    }
  }

  /** Nothing is lost or doubled by sorting elements into the two selections. */
  lemma {:induction false} SelectPartitions<T>(xs: seq<T>, flags: seq<bool>)
    requires |xs| == |flags|
    ensures multiset(xs) == multiset(Select(xs, flags, true)) + multiset(Select(xs, flags, false))
  {
    if xs == [] {
    } else {
      var n := |xs| - 1;
      SelectPartitions(xs[..n], flags[..n]);
      assert xs == xs[..n] + [xs[n]];
    }
  }

  lemma {:induction false} Selected<T>(xs: seq<T>, flags: seq<bool>, i: nat)
    requires i < |xs| == |flags|
    ensures xs[i] in Select(xs, flags, flags[i])
  {
    var n := |xs| - 1;
    if i == n {
    } else {
      Selected(xs[..n], flags[..n], i);
    }
  }

  /** What a walk has still before it. */
  ghost predicate Tail(repr: set<ThreadArg>, current: ThreadArg?, xs: seq<ThreadArg>, k: nat)
    reads repr`next
  {
    && (forall i {:trigger xs[i]} :: 0 <= i < |xs| ==> xs[i] in repr)
    && k <= |xs|
    && (k < |xs| ==> current == xs[k] && xs[|xs| - 1].next == null)
    && (k == |xs| ==> current == null)
    && (forall i {:trigger xs[i].next} :: k <= i < |xs| - 1 ==> xs[i].next == xs[i + 1])
  }

  /** What a walk has left behind it: from `head` through `kept` to `next`. */
  ghost predicate Leads(repr: set<ThreadArg>, head: ThreadArg, kept: seq<ThreadArg>, next: ThreadArg?)
    reads repr`next
  {
    && head in repr
    && (forall i {:trigger kept[i]} :: 0 <= i < |kept| ==> kept[i] in repr)
    && head.next == (if kept == [] then next else kept[0])
    && (kept != [] ==> kept[|kept| - 1].next == next)
    && (forall i {:trigger kept[i].next} :: 0 <= i < |kept| - 1 ==> kept[i].next == kept[i + 1])
  }

  /** The last node that was kept. */
  ghost function Last(head: ThreadArg, kept: seq<ThreadArg>): ThreadArg {
    if kept == [] then head else kept[|kept| - 1]
  }

  /** Where each node stands in the list before the walk; this also says that none stands there twice. */
  type Places = map<ThreadArg, nat>

  ghost predicate Placed(xs: seq<ThreadArg>, at: Places) {
    forall i {:trigger xs[i]} :: 0 <= i < |xs| ==> xs[i] in at && at[xs[i]] == i
  }

  lemma FindPlaces(xs: seq<ThreadArg>) returns (at: Places)
    requires Distinct(xs)
    ensures Placed(xs, at) && forall t :: t in at ==> t in xs
  {
    at := map i | 0 <= i < |xs| :: xs[i] := i;
  }

  /** A walk that has kept some of the first `k` nodes of `xs` and has the others before it. */
  ghost predicate Walk(repr: set<ThreadArg>, head: ThreadArg, kept: seq<ThreadArg>, current: ThreadArg?,
                       xs: seq<ThreadArg>, k: nat, at: Places)
    reads repr`next
  {
    && Tail(repr, current, xs, k) && Leads(repr, head, kept, current)
    && Placed(xs, at) && head !in at
    && (forall i {:trigger kept[i]} :: 0 <= i < |kept| ==> kept[i] in at && at[kept[i]] < k)
    && (forall i {:trigger kept[i]} :: 0 <= i < |kept| - 1 ==> at[kept[i]] < at[kept[|kept| - 1]])
  }

  /** The current node stays. */
  lemma WalkOn(repr: set<ThreadArg>, head: ThreadArg, kept: seq<ThreadArg>, current: ThreadArg,
               xs: seq<ThreadArg>, k: nat, at: Places)
    requires Walk(repr, head, kept, current, xs, k, at)
    ensures k < |xs| && current == xs[k] && Walk(repr, head, kept + [current], current.next, xs, k + 1, at)
  {
  }

  /** The current node goes: the last one kept now leads to the node after it. */
  method Unlink(ghost repr: set<ThreadArg>, ghost head: ThreadArg, ghost kept: seq<ThreadArg>, prev: ThreadArg,
                current: ThreadArg, ghost xs: seq<ThreadArg>, ghost k: nat, ghost at: Places)
    requires Walk(repr, head, kept, current, xs, k, at) && prev == Last(head, kept)
    modifies prev`next
    ensures k < |xs| && current == xs[k] && xs[k] !in kept
    ensures Walk(repr, head, kept, current.next, xs, k + 1, at)
  {
    assert k + 1 < |xs| ==> xs[k].next == xs[k + 1];
    assert forall i :: k <= i < |xs| ==> xs[i] != prev;
    prev.next := current.next;
  }

  /** Joins the thread of a node that was unlinked, and frees the node: the walk does not meet it any more. */
  method Dispose(process: Process, ghost repr: set<ThreadArg>, ghost head: ThreadArg, ghost kept: seq<ThreadArg>,
                 next: ThreadArg?, temp: ThreadArg, ghost xs: seq<ThreadArg>, ghost k: nat, ghost at: Places)
    requires k < |xs| && temp == xs[k] && xs[k] !in kept && Walk(repr, head, kept, next, xs, k + 1, at)
    requires process.Valid() && temp in process.running && temp in process.finished
    modifies process`running, process`joined, process`live, process`freed, temp
    ensures Walk(repr, head, kept, next, xs, k + 1, at)
    ensures process.Valid() && process.running == old(process.running) - {temp}
    ensures process.joined == old(process.joined) + [temp] && process.freed == old(process.freed) + [temp]
  {
    process.PthreadJoin(temp);
    process.Free(temp);
    assert forall i {:trigger xs[i]} :: k < i < |xs| ==> xs[i] != temp;
  }

  /** Unlinks the current node, goes on to the node after it, and disposes of the one unlinked. */
  method Remove(process: Process, ghost repr: set<ThreadArg>, ghost head: ThreadArg, ghost kept: seq<ThreadArg>,
                prev: ThreadArg, current: ThreadArg, ghost xs: seq<ThreadArg>, ghost k: nat, ghost at: Places)
    returns (next: ThreadArg?)
    requires Walk(repr, head, kept, current, xs, k, at) && prev == Last(head, kept)
    requires process.Valid() && current in process.running && current in process.finished
    modifies process`running, process`joined, process`live, process`freed, prev`next, current
    ensures k < |xs| && Walk(repr, head, kept, next, xs, k + 1, at)
    ensures process.Valid() && process.running == old(process.running) - {current}
    ensures process.joined == old(process.joined) + [current] && process.freed == old(process.freed) + [current]
  {
    Unlink(repr, head, kept, prev, current, xs, k, at);
    next := current.next;
    Dispose(process, repr, head, kept, next, current, xs, k, at);
  }

  /** The threads not yet visited are unjoined; those in `early` have finished. */
  ghost predicate Ahead(process: Process, xs: seq<ThreadArg>, k: nat, early: set<ThreadArg>)
    reads process, process.running`isDone
  {
    && process.Valid() && early <= process.finished
    && forall i {:trigger xs[i]} :: k <= i < |xs| ==> xs[i] in process.running
  }

  /**
   One round of the reaping loop. The thread may finish at any time before the flag is read; the
   result says whether it was seen to have finished.
   */
  method Visit(process: Process, ghost repr: set<ThreadArg>, ghost head: ThreadArg, ghost kept: seq<ThreadArg>,
               prev: ThreadArg, current: ThreadArg, ghost xs: seq<ThreadArg>, ghost k: nat, ghost at: Places,
               ghost early: set<ThreadArg>)
    returns (prev': ThreadArg, next: ThreadArg?, flag: bool, ghost kept': seq<ThreadArg>)
    requires Walk(repr, head, kept, current, xs, k, at) && prev == Last(head, kept)
    requires Ahead(process, xs, k, early)
    modifies process`running, process`finished, process`joined, process`live, process`freed
    modifies process.running, prev`next
    ensures k < |xs| && (xs[k] in early ==> flag) && (flag ==> xs[k] in process.finished)
    ensures old(process.finished) <= process.finished
    ensures process.allocations == old(process.allocations) && process.started == old(process.started)
    ensures Ahead(process, xs, k + 1, early) && process.running <= old(process.running)
    ensures Walk(repr, head, kept', next, xs, k + 1, at) && prev' == Last(head, kept')
    ensures kept' == if flag then kept else kept + [xs[k]]
    ensures var gone := if flag then [xs[k]] else [];
            process.joined == old(process.joined) + gone && process.freed == old(process.freed) + gone
  {
    process.Schedule();
    flag := current.isDone;
    if flag {
      prev', kept' := prev, kept;
      next := Remove(process, repr, head, kept, prev, current, xs, k, at);
    } else {
      WalkOn(repr, head, kept, current, xs, k, at);
      prev', next, kept' := current, current.next, kept + [current];
    }
  }

  /** The threads known to be done were all seen to be, and none was that had not finished. */
  ghost predicate Noticed(xs: seq<ThreadArg>, flags: seq<bool>, early: set<ThreadArg>, finished: set<ThreadArg>) {
    && |flags| <= |xs|
    && forall i :: 0 <= i < |flags| ==> (xs[i] in early ==> flags[i]) && (flags[i] ==> xs[i] in finished)
  }

  /** The nodes visited so far are sorted out into those kept and those freed, behind the ones freed before. */
  ghost predicate SortedOut(xs: seq<ThreadArg>, flags: seq<bool>, kept: seq<ThreadArg>, before: seq<ThreadArg>,
                            freed: seq<ThreadArg>) {
    && |flags| <= |xs|
    && kept == Select(xs[..|flags|], flags, false)
    && freed == before + Select(xs[..|flags|], flags, true)
  }

  lemma SortedOutNext(xs: seq<ThreadArg>, flags: seq<bool>, kept: seq<ThreadArg>, before: seq<ThreadArg>,
                      freed: seq<ThreadArg>, flag: bool)
    requires SortedOut(xs, flags, kept, before, freed) && |flags| < |xs|
    ensures var x := xs[|flags|];
            SortedOut(xs, flags + [flag], if flag then kept else kept + [x], before, freed + if flag then [x] else [])
  {
    SelectNext(xs, flags, |flags|, flag);
    assert |flags + [flag]| == |flags| + 1;
  }

  lemma NoticedNext(xs: seq<ThreadArg>, flags: seq<bool>, early: set<ThreadArg>, finished: set<ThreadArg>, flag: bool,
                    finished': set<ThreadArg>)
    requires Noticed(xs, flags, early, finished) && finished <= finished' && |flags| < |xs|
    requires (xs[|flags|] in early ==> flag) && (flag ==> xs[|flags|] in finished')
    ensures Noticed(xs, flags + [flag], early, finished')
  {
  }

  /** Once all were visited, those known to be done are among the freed. */
  lemma AllSortedOut(xs: seq<ThreadArg>, flags: seq<bool>, early: set<ThreadArg>, finished: set<ThreadArg>,
                     kept: seq<ThreadArg>, before: seq<ThreadArg>, freed: seq<ThreadArg>)
    requires |flags| == |xs| && Noticed(xs, flags, early, finished) && SortedOut(xs, flags, kept, before, freed)
    ensures kept == Select(xs, flags, false) && freed == before + Select(xs, flags, true)
    ensures forall t :: t in xs && t in early ==> t in freed
    ensures forall t :: t in xs && t !in kept ==> t in finished
  {
    assert xs[..|flags|] == xs;
    forall i | 0 <= i < |xs|
      ensures xs[i] in early ==> xs[i] in Select(xs, flags, true)
      ensures xs[i] !in kept ==> xs[i] in finished
    {
      Selected(xs, flags, i);
    }
  }

  /**
   The reaping loop, from the dummy node to the end of the list: `flags` is what it saw, and `early`
   are threads that had finished before.
   */
  method ReapLoop(process: Process, dummyNode: ThreadArg, ghost repr: set<ThreadArg>, ghost xs: seq<ThreadArg>,
                  ghost at: Places, ghost early: set<ThreadArg>)
    returns (ghost kept: seq<ThreadArg>, ghost flags: seq<bool>)
    requires Walk(repr, dummyNode, [], dummyNode.next, xs, 0, at) && Ahead(process, xs, 0, early)
    requires process.running <= repr && process.joined == process.freed
    modifies process`running, process`finished, process`joined, process`live, process`freed, repr
    ensures process.Valid() && Leads(repr, dummyNode, kept, null) && process.joined == process.freed
    ensures process.allocations == old(process.allocations) && process.started == old(process.started)
    ensures early <= process.finished
    ensures |flags| == |xs| && Noticed(xs, flags, early, process.finished)
    ensures SortedOut(xs, flags, kept, old(process.freed), process.freed)
  {
    var prev: ThreadArg, current: ThreadArg? := dummyNode, dummyNode.next;
    ghost var k, before := 0, process.freed;
    kept, flags := [], [];
    while current != null
      invariant Walk(repr, dummyNode, kept, current, xs, k, at) && prev == Last(dummyNode, kept)
      invariant Ahead(process, xs, k, early) && process.running <= repr && process.joined == process.freed
      invariant process.allocations == old(process.allocations) && process.started == old(process.started)
      invariant k == |flags| && Noticed(xs, flags, early, process.finished)
      invariant SortedOut(xs, flags, kept, before, process.freed)
      decreases |xs| - k
    {
      ghost var kept0, freed0, finished0 := kept, process.freed, process.finished;
      var flag;
      prev, current, flag, kept := Visit(process, repr, dummyNode, kept, prev, current, xs, k, at, early);
      NoticedNext(xs, flags, early, finished0, flag, process.finished);
      SortedOutNext(xs, flags, kept0, before, freed0, flag);
      flags, k := flags + [flag], k + 1;
    }
  }

  class Threads {
    const process: Process
    const dummyNode: ThreadArg
    ghost var list: seq<ThreadArg>

    /** The nodes behind the dummy node are those of `list`, the last one without a successor. */
    ghost predicate IsList()
      reads this, process, process.live`next, dummyNode`next
    {
      Tail(process.live + {dummyNode}, dummyNode.next, list, 0)
    }

    /** The threads in the list are those not joined yet, none of them twice; what was joined was freed. */
    ghost predicate Valid()
      reads this, process, process.live`next, process.running`isDone, dummyNode`next
    {
      && IsList() && process.Valid() && dummyNode !in process.allocations
      && multiset(process.running) == multiset(list)
      && process.joined == process.freed
    }

    constructor ()
      ensures Valid() && fresh(process) && fresh(dummyNode) && list == [] && process.allocations == {}
    {
      process := new Process();
      dummyNode := new ThreadArg();
      list := [];
    }

    /** Walks to the end of the list and links the new node there. */
    method Link(arg: ThreadArg)
      requires IsList() && arg in process.live && arg.next == null && arg !in list && arg != dummyNode
      modifies this`list, process.live`next, dummyNode`next
      ensures IsList() && list == old(list) + [arg]
    {
      ghost var repr := process.live + {dummyNode};
      var last: ThreadArg := dummyNode;
      ghost var k: nat := 0;
      while last.next != null
        invariant last in repr && Tail(repr, last.next, list, k)
        invariant last == if k == 0 then dummyNode else list[k - 1]
        decreases |list| - k
      {
        assert last.next == list[k] && (k + 1 < |list| ==> list[k].next == list[k + 1]);
        last, k := last.next, k + 1;
      }
      last.next := arg;
      list := list + [arg];
    }

    /** Before the first round. */
    lemma Ready(early: set<ThreadArg>) returns (at: Places)
      requires Valid() && early <= process.finished
      ensures Walk(process.live + {dummyNode}, dummyNode, [], dummyNode.next, list, 0, at)
      ensures Ahead(process, list, 0, early)
    {
      DistinctFromSet(list, process.running);
      at := FindPlaces(list);
      forall i {:trigger list[i]} | 0 <= i < |list|
        ensures list[i] in process.running
      {
        assert list[i] in multiset(list);
      }
      assert multiset(process.live) <= multiset(process.allocations);
    }

    /** After the last round. */
    lemma Settled(repr: set<ThreadArg>, xs: seq<ThreadArg>, flags: seq<bool>, early: set<ThreadArg>,
                  running: set<ThreadArg>, joined: seq<ThreadArg>)
      requires process.Valid() && Leads(repr, dummyNode, list, null) && process.joined == process.freed
      requires |flags| == |xs| && Noticed(xs, flags, early, process.finished)
      requires SortedOut(xs, flags, list, joined, process.freed)
      requires dummyNode !in process.allocations
      requires multiset(running) == multiset(xs)
      requires multiset(process.started) == multiset(running) + multiset(joined)
      ensures Valid()
      ensures list == Select(xs, flags, false) && process.freed == joined + Select(xs, flags, true)
      ensures forall t :: t in xs && t in early ==> t in process.freed
      ensures forall t :: t in xs && t !in list ==> t in process.finished
    {
      AllSortedOut(xs, flags, early, process.finished, list, joined, process.freed);
      var yes := Select(xs, flags, true);
      SelectPartitions(xs, flags);
      assert multiset(joined + yes) == multiset(joined) + multiset(yes);
      Left(multiset(process.started), multiset(running), multiset(process.running), multiset(joined),
           multiset(yes), multiset(list));
      forall i {:trigger list[i]} | 0 <= i < |list|
        ensures list[i] in process.live
      {
        assert list[i] in multiset(list);
      }
    }

    /** Unlinks, joins and frees every node whose thread is seen to have finished. */
    method Reap() returns (ghost flags: seq<bool>)
      requires Valid()
      modifies this`list, process, process.live, dummyNode
      ensures Valid() && process.allocations == old(process.allocations) && process.started == old(process.started)
      ensures |flags| == |old(list)| && list == Select(old(list), flags, false)
      ensures process.freed == old(process.freed) + Select(old(list), flags, true)
      ensures forall t :: t in old(list) && t in old(process.finished) ==> t in process.freed
      ensures old(process.finished) <= process.finished
      ensures forall t :: t in old(list) && t !in list ==> t in process.finished
    {
      ghost var xs, early := list, process.finished;
      ghost var repr, running, joined := process.live + {dummyNode}, process.running, process.joined;
      ghost var at := Ready(early);
      list, flags := ReapLoop(process, dummyNode, repr, xs, at, early);
      Settled(repr, xs, flags, early, running, joined);
    }

    /**
     Every node ever allocated is in the list, or was freed, or never had a thread: no node is in two
     of these cases, and none is freed twice. A freed node is in no list, and its thread had finished.
     */
    lemma Accounted()
      requires Valid()
      ensures multiset(process.allocations)
           == multiset(list) + multiset(process.freed) + multiset(process.allocations - process.started)
      ensures process.joined == process.freed
      ensures forall t :: t in process.freed ==> t !in list && t in process.finished
    {
      assert forall t :: t in process.freed ==> multiset(process.freed)[t] > 0 && multiset(process.allocations)[t] <= 1;
    }

    /** A new node, and a thread on it if one can be started. */
    method Start() returns (ok: bool, arg: ThreadArg)
      requires Valid()
      modifies process`allocations, process`live, process`started, process`running
      ensures IsList() && process.Valid() && fresh(arg) && arg.next == null && arg !in list
      ensures process.live == old(process.live) + {arg} && process.allocations == old(process.allocations) + {arg}
      ensures process.started == old(process.started) + (if ok then {arg} else {})
      ensures multiset(process.running) == multiset(list) + (if ok then multiset{arg} else multiset{})
    {
      arg := process.Malloc();
      assert IsList() && arg !in list;
      ok := process.PthreadCreate(arg);
    }

    /** The node of a started thread goes to the end of the list; one without a thread goes nowhere. */
    method Append() returns (status: int, arg: ThreadArg)
      requires Valid()
      modifies this`list, process, process.live`next, dummyNode`next
      ensures Valid() && fresh(arg) && process.freed == old(process.freed) && (status == 0 || status == 1)
      ensures process.finished == old(process.finished)
      ensures process.live == old(process.live) + {arg} && process.allocations == old(process.allocations) + {arg}
      ensures process.started == old(process.started) + (if status == 0 then {arg} else {})
      ensures list == if status == 0 then old(list) + [arg] else old(list)
    {
      var ok;
      ok, arg := Start();
      if !ok {
        return 1, arg;
      }
      ghost var xs := list;
      Link(arg);
      assert multiset(xs + [arg]) == multiset(xs) + multiset{arg};
      status := 0;
    }

    /**
     One accepted connection: the new thread joins the list, and those seen to have finished leave it,
     are joined and freed, among them all that had finished before.
     */
    method Accept() returns (status: int, ghost arg: ThreadArg, ghost flags: seq<bool>)
      requires Valid()
      modifies this`list, process, process.live, dummyNode
      ensures Valid() && fresh(arg) && (status == 0 || status == 1)
      ensures process.allocations == old(process.allocations) + {arg}
      ensures process.started == old(process.started) + (if status == 0 then {arg} else {})
      ensures status == 1 ==> list == old(list) && process.freed == old(process.freed)
      ensures status == 0 ==>
              && |flags| == |old(list)| + 1
              && list == Select(old(list) + [arg], flags, false)
              && process.freed == old(process.freed) + Select(old(list) + [arg], flags, true)
              && (forall t :: t in old(list) && t in old(process.finished) ==> t in process.freed && t !in list)
              && forall t :: t in old(list) + [arg] && t !in list ==> t in process.finished
    {
      flags := [];
      status, arg := Append();
      if status == 0 {
        flags := Reap();
        Accounted();
      }
    }
  }
}
