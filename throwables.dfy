/** The cause graph of Throwables that `uncaughtException` walks, with
    object identity made explicit: a throwable is named by a `ThrowId`, and
    a `Heap` maps each id to what the report reads from that object (the
    text `printStackTrace` writes and the result of `getCause()`).

    The walk in the source is `while (cause != null) { ...; cause = cause!!.cause }`
    with no set of visited throwables, so it stops only when it reaches null. */
module Throwables {
  import opened Text

  /** The identity (reference) of a Throwable object. */
  type ThrowId = nat

  /** What the report reads from one Throwable: its printed stack trace and
      its cause (null as `None`). */
  datatype Throwable = Throwable(trace: string, cause: Option<ThrowId>)

  type Heap = map<ThrowId, Throwable>

  /** References never dangle: every cause is an object of the heap. */
  predicate Closed(h: Heap)
  {
    forall id :: id in h && h[id].cause.Some? ==> h[id].cause.value in h
  }

  /** A nullable reference into the heap. */
  predicate InHeap(h: Heap, c: Option<ThrowId>)
  {
    c.None? || c.value in h
  }

  /** The value the variable `cause` holds after `k` further iterations of
      `cause = cause!!.cause`, starting from `c`; null stays null. */
  function Walk(h: Heap, c: Option<ThrowId>, k: nat): (r: Option<ThrowId>)
    requires Closed(h) && InHeap(h, c)
    ensures InHeap(h, r)
    ensures c.None? ==> r.None?
    decreases k
  {
    if k == 0 then c
    else match c
      case None => None
      case Some(id) => Walk(h, h[id].cause, k - 1)
  }

  /** `s` lists, in order, the throwables the walk from `c` visits, and the
      walk reaches null right after the last of them. */
  ghost predicate IsWalk(h: Heap, c: Option<ThrowId>, s: seq<ThrowId>)
    requires Closed(h) && InHeap(h, c)
  {
    && (forall k :: 0 <= k < |s| ==> Walk(h, c, k) == Some(s[k]))
    && Walk(h, c, |s|) == None
  }

  /** The throwables visited by the walk from `c`, when it reaches null
      within `fuel` steps; `None` when it has not reached null after `fuel`
      steps. */
  function Chain(h: Heap, c: Option<ThrowId>, fuel: nat): (r: Option<seq<ThrowId>>)
    requires Closed(h) && InHeap(h, c)
    ensures r.Some? ==> |r.value| <= fuel && IsWalk(h, c, r.value)
    ensures r.Some? <==> Walk(h, c, fuel) == None
    decreases fuel
  {
    match c
    case None => Some([])
    case Some(id) =>
      if fuel == 0 then None
      else match Chain(h, h[id].cause, fuel - 1)
        case None => None
        case Some(rest) => Some([id] + rest)
  }

  /** The cause loop of `uncaughtException` started at `c` terminates: its
      walk reaches null within as many steps as there are throwables. */
  predicate CauseWalkEnds(h: Heap, c: Option<ThrowId>)
    requires Closed(h) && InHeap(h, c)
  {
    Chain(h, c, |h|).Some?
  }

  /** The throwables the cause loop visits, one per iteration. */
  function CauseChain(h: Heap, c: Option<ThrowId>): (s: seq<ThrowId>)
    requires Closed(h) && InHeap(h, c) && CauseWalkEnds(h, c)
    ensures IsWalk(h, c, s) && |s| <= |h|
    ensures (forall k :: 0 <= k < |s| ==> s[k] in h)
    ensures |s| == 0 <==> c.None?
  {
    var s := Chain(h, c, |h|).value;
    assert forall k :: 0 <= k < |s| ==> Walk(h, c, k) == Some(s[k]);
    assert |s| == 0 ==> Walk(h, c, 0) == None;
    assert |s| > 0 ==> Walk(h, c, 0) == Some(s[0]);
    s
  }

  /** The walk is still on a throwable exactly while it is inside the
      chain, and that throwable is the chain's element at that position. */
  lemma ChainPosition(h: Heap, c: Option<ThrowId>, i: nat)
    requires Closed(h) && InHeap(h, c) && CauseWalkEnds(h, c)
    ensures i < |CauseChain(h, c)| <==> Walk(h, c, i).Some?
    ensures i < |CauseChain(h, c)| ==> Walk(h, c, i) == Some(CauseChain(h, c)[i])
  {
    var s := CauseChain(h, c);
    if i >= |s| {
      WalkStaysNull(h, c, |s|, i);
    }
  }

  /** One more iteration of the loop moves `cause` to its own cause. */
  lemma {:induction false} WalkStep(h: Heap, c: Option<ThrowId>, k: nat)
    requires Closed(h) && InHeap(h, c)
    ensures Walk(h, c, k + 1) == match Walk(h, c, k)
                                 case None => None
                                 case Some(id) => h[id].cause
    decreases k
  {
    if k > 0 && c.Some? {
      WalkStep(h, h[c.value].cause, k - 1);
    }
  }

  /** Once the walk has reached null it stays there. */
  lemma {:induction false} WalkStaysNull(h: Heap, c: Option<ThrowId>, k: nat, m: nat)
    requires Closed(h) && InHeap(h, c)
    requires Walk(h, c, k) == None && k <= m
    ensures Walk(h, c, m) == None
    decreases k
  {
    if k > 0 && c.Some? {
      WalkStaysNull(h, h[c.value].cause, k - 1, m - 1);
    }
  }

  /** Walking `i + d` steps is walking `i` steps and then `d` more. */
  lemma {:induction false} WalkCompose(h: Heap, c: Option<ThrowId>, i: nat, d: nat)
    requires Closed(h) && InHeap(h, c)
    ensures Walk(h, c, i + d) == Walk(h, Walk(h, c, i), d)
    decreases i
  {
    if i > 0 && c.Some? {
      WalkCompose(h, h[c.value].cause, i - 1, d);
    }
  }

  lemma {:induction false} RevisitPeriodic(h: Heap, c: Option<ThrowId>, i: nat, j: nat, k: nat)
    requires Closed(h) && InHeap(h, c)
    requires i < j && Walk(h, c, i) == Walk(h, c, j) && Walk(h, c, i).Some?
    ensures Walk(h, c, k).Some?
    decreases k
  {
    if k < j {
      if Walk(h, c, k) == None {
        WalkStaysNull(h, c, k, j);
      }
    } else {
      WalkCompose(h, c, j, k - j);
      WalkCompose(h, c, i, k - j);
      RevisitPeriodic(h, c, i, j, i + (k - j));
    }
  }

  /** With no visited set, a walk that meets a throwable a second time never
      reaches null: on a cycle the loop of the source does not terminate
      normally (on a JVM the ever-growing report exhausts memory). */
  lemma RevisitDiverges(h: Heap, c: Option<ThrowId>, i: nat, j: nat)
    requires Closed(h) && InHeap(h, c)
    requires i < j && Walk(h, c, i) == Walk(h, c, j) && Walk(h, c, i).Some?
    ensures forall k: nat :: Walk(h, c, k).Some?
    ensures !CauseWalkEnds(h, c)
  {
    forall k: nat ensures Walk(h, c, k).Some? {
      RevisitPeriodic(h, c, i, j, k);
    }
    assert Walk(h, c, |h|).Some?;
  }

  /** A terminating walk visits each throwable at most once. */
  lemma WalkDistinct(h: Heap, c: Option<ThrowId>, s: seq<ThrowId>)
    requires Closed(h) && InHeap(h, c) && IsWalk(h, c, s)
    ensures forall i, j :: 0 <= i < j < |s| ==> s[i] != s[j]
  {
    forall i, j | 0 <= i < j < |s| ensures s[i] != s[j] {
      assert Walk(h, c, |s|) == None;
      if s[i] == s[j] {
        RevisitPeriodic(h, c, i, j, |s|);
      }
    }
  }

  lemma {:induction false} DistinctWithin(s: seq<ThrowId>, keys: set<ThrowId>)
    requires forall i, j :: 0 <= i < j < |s| ==> s[i] != s[j]
    requires forall i :: 0 <= i < |s| ==> s[i] in keys
    ensures |s| <= |keys|
  {
    if s != [] {
      var rest := keys - {s[0]};
      assert forall i :: 0 <= i < |s| - 1 ==> s[1..][i] == s[i + 1];
      DistinctWithin(s[1..], rest);
    }
  }

  /** The walk that visits `s` is the only one from `c`. */
  lemma WalkUnique(h: Heap, c: Option<ThrowId>, s: seq<ThrowId>, t: seq<ThrowId>)
    requires Closed(h) && InHeap(h, c) && IsWalk(h, c, s) && IsWalk(h, c, t)
    ensures s == t
  {
    var atEndOfS, atEndOfT := Walk(h, c, |s|), Walk(h, c, |t|);
    assert forall k :: 0 <= k < |s| && k < |t| ==> Some(s[k]) == Walk(h, c, k) == Some(t[k]);
  }

  /** If the loop stops after some number `n` of iterations, then
      `CauseWalkEnds` holds and `CauseChain` has at most `n` throwables
      (the converse is `Chain`'s own contract at `|h|` steps). */
  lemma WalkEndsIff(h: Heap, c: Option<ThrowId>, n: nat)
    requires Closed(h) && InHeap(h, c)
    ensures Walk(h, c, n) == None ==> CauseWalkEnds(h, c) && |CauseChain(h, c)| <= n
  {
    if Walk(h, c, n) == None {
      var s := Chain(h, c, n).value;
      WalkDistinct(h, c, s);
      assert forall i :: 0 <= i < |s| ==> s[i] in h by {
        forall i | 0 <= i < |s| ensures s[i] in h {
          assert Walk(h, c, i) == Some(s[i]);
        }
      }
      DistinctWithin(s, h.Keys);
      WalkStaysNull(h, c, |s|, |h|);
      assert Chain(h, c, |h|).Some?;
      WalkUnique(h, c, s, CauseChain(h, c));
    }
  }

  /** Conversely to `RevisitDiverges`: a walk that meets no throwable twice
      within `|h|` steps reaches null, so the loop ends whenever the causes
      form no cycle. */
  lemma NoRevisitEnds(h: Heap, c: Option<ThrowId>)
    requires Closed(h) && InHeap(h, c)
    requires forall i, j :: 0 <= i < j <= |h| && Walk(h, c, i).Some? ==> Walk(h, c, i) != Walk(h, c, j)
    ensures CauseWalkEnds(h, c)
  {
    if Walk(h, c, |h|).Some? {
      // Then the walk visits |h| + 1 distinct throwables of `h`.
      forall k: nat | k <= |h| ensures Walk(h, c, k).Some? {
        if Walk(h, c, k) == None {
          WalkStaysNull(h, c, k, |h|);
        }
      }
      var s := seq(|h| + 1, k requires 0 <= k <= |h| => Walk(h, c, k).value);
      forall i, j | 0 <= i < j < |s| ensures s[i] != s[j] {
        assert Walk(h, c, i) == Some(s[i]) && Walk(h, c, j) == Some(s[j]);
      }
      forall i | 0 <= i < |s| ensures s[i] in h.Keys {
        assert InHeap(h, Walk(h, c, i));
      }
      DistinctWithin(s, h.Keys);
      assert false;
    }
  }

  /** A throwable A caused by B, which is caused by A: the walk of the
      cause loop of a crash of A never reaches null. */
  lemma TwoCycleDiverges(h: Heap, a: ThrowId, b: ThrowId)
    requires a != b && a in h && b in h
    requires h[a].cause == Some(b) && h[b].cause == Some(a)
    requires Closed(h)
    ensures !CauseWalkEnds(h, h[a].cause)
  {
    var c := h[a].cause;
    assert Walk(h, c, 2) == Walk(h, h[b].cause, 1) == Walk(h, h[a].cause, 0) == c;
    RevisitDiverges(h, c, 0, 2);
  }
}
