/** Pull-based synchronisation of hash-chained logs: digest, diff, pull, and runs of many nodes. */
module AntiEntropy {
  import opened MachineInts
  import opened EventLogs

  type Print = seq<(nat, seq<byte>)>

  datatype SyncPlan = SyncPlan(divergence: Option<nat>, pullFrom: nat, pullLen: nat)

  // ---- digest -----------------------------------------------------------------------------------------------------

  /** The fingerprint from index i on, with every hash recomputed. */
  function DigestFrom(H: Hash, entries: seq<Entry>, i: nat, prev: seq<byte>): (d: Print)
    requires i <= |entries|
    ensures |d| == |entries| - i
    decreases |entries| - i
  {
    if i == |entries| then []
    else
      var h := H(Buffer(prev, entries[i].seqno, entries[i].payload));
      [(entries[i].seqno, h)] + DigestFrom(H, entries, i + 1, h)
  }

  function DigestOf(H: Hash, entries: seq<Entry>): Print { DigestFrom(H, entries, 0, Genesis()) }

  method Digest(log: EventLog) returns (out: Print)
    ensures out == DigestOf(log.H, log.entries)
  {
    hide Buffer;
    out := [];
    var prev := Genesis();
    var it := new ReplayIter(log, 0);
    var item := it.Next();
    ghost var i := 0;
    while item != None
      invariant 0 <= i <= |log.entries| && it.log == log && fresh(it)
      invariant item == if i < |log.entries| then Some((log.entries[i].seqno, log.entries[i].payload)) else None
      invariant it.idx == if i < |log.entries| then i + 1 else i
      invariant out + DigestFrom(log.H, log.entries, i, prev) == DigestOf(log.H, log.entries)
      decreases |log.entries| - i
    {
      var (seqno, payload) := item.value;
      var h := log.H(Buffer(prev, seqno, payload));
      out := out + [(seqno, h)];
      prev := h;
      i := i + 1;
      item := it.Next();
    }
  }

  /** A log that verifies has the digest of its stored hashes. */
  lemma {:induction false} DigestVerified(H: Hash, entries: seq<Entry>, i: nat, prev: seq<byte>)
    requires i <= |entries| && VerifyFrom(H, entries, i, prev) == Ok
    ensures forall j :: i <= j < |entries| ==>
              DigestFrom(H, entries, i, prev)[j - i] == (entries[j].seqno, entries[j].hash)
    decreases |entries| - i
  {
    hide Buffer;
    if i < |entries| {
      DigestVerified(H, entries, i + 1, entries[i].hash);
    }
  }

  lemma DigestBuilt(H: Hash, p: seq<seq<byte>>)
    ensures |DigestOf(H, Build(H, p))| == |p|
    ensures forall j :: 0 <= j < |p| ==> DigestOf(H, Build(H, p))[j] == (j, Build(H, p)[j].hash)
  {
    hide VerifyFrom, Build, Genesis;
    BuiltNumbered(H, p);
    DigestVerified(H, Build(H, p), 0, Genesis());
  }

  /** Logs with the same numbers and payloads have the same digest: stored hashes are not believed. */
  lemma {:induction false} DigestRecomputes(H: Hash, entries: seq<Entry>, other: seq<Entry>, i: nat, prev: seq<byte>)
    requires |entries| == |other| && i <= |entries|
    requires forall j :: i <= j < |entries| ==>
               entries[j].seqno == other[j].seqno && entries[j].payload == other[j].payload
    ensures DigestFrom(H, entries, i, prev) == DigestFrom(H, other, i, prev)
    decreases |entries| - i
  {
    hide Buffer;
    if i < |entries| {
      DigestRecomputes(H, entries, other, i + 1, H(Buffer(prev, entries[i].seqno, entries[i].payload)));
    }
  }

  /** So a numbered log, whatever hashes it stores, has the digest of the log that its payloads build. */
  lemma DigestOfPayloads(H: Hash, entries: seq<Entry>)
    requires Numbered(entries)
    ensures DigestOf(H, entries) == DigestOf(H, Build(H, Payloads(entries)))
  {
    hide Build, DigestFrom;
    var p := Payloads(entries);
    forall j | 0 <= j < |p|
      ensures Build(H, p)[j].seqno == entries[j].seqno && Build(H, p)[j].payload == entries[j].payload
    {
      BuildAt(H, p, j);
    }
    DigestRecomputes(H, entries, Build(H, p), 0, Genesis());
  }

  // ---- diff -------------------------------------------------------------------------------------------------------

  /** The first index from i on at which the hashes differ, or the shorter length. */
  function FirstDifference(local: Print, remote: Print, i: nat): (d: nat)
    requires i <= |local| && i <= |remote|
    ensures i <= d <= |local| && d <= |remote| && forall j :: i <= j < d ==> local[j].1 == remote[j].1
    ensures d < |local| && d < |remote| ==> local[d].1 != remote[d].1
    decreases |local| - i
  {
    if i == |local| || i == |remote| || local[i].1 != remote[i].1 then i else FirstDifference(local, remote, i + 1)
  }

  function PlanOf(local: Print, remote: Print): SyncPlan {
    var d := FirstDifference(local, remote, 0);
    if d < |local| && d < |remote| then SyncPlan(Some(local[d].0), local[d].0, |remote| - d)
    else if |remote| > |local| then SyncPlan(Some(|local|), |local|, |remote| - |local|)
    else SyncPlan(None, 0, 0)
  }

  method Diff(local: Print, remote: Print) returns (plan: SyncPlan)
    ensures plan == PlanOf(local, remote)
  {
    var overlap := if |local| < |remote| then |local| else |remote|;
    var divergence: Option<nat> := None;
    var i := 0;
    while i < overlap
      invariant 0 <= i <= overlap && FirstDifference(local, remote, i) == FirstDifference(local, remote, 0)
      invariant divergence == None
    {
      if local[i].1 != remote[i].1 {
        divergence := Some(i);
        break;
      }
      i := i + 1;
    }
    match divergence {
      case Some(d) => return SyncPlan(Some(local[d].0), local[d].0, |remote| - d);
      case None =>
        if |remote| > |local| {
          return SyncPlan(Some(|local|), |local|, |remote| - |local|);
        }
        return SyncPlan(None, 0, 0);
    }
  }

  /** The longest common prefix of two histories. */
  function CommonPrefix(p: seq<seq<byte>>, q: seq<seq<byte>>): (n: nat)
    ensures n <= |p| && n <= |q| && forall i :: 0 <= i < n ==> p[i] == q[i]
    ensures n < |p| && n < |q| ==> p[n] != q[n]
    decreases |p|
  {
    if p == [] || q == [] || p[0] != q[0] then 0 else 1 + CommonPrefix(p[1..], q[1..])
  }

  /** What `diff` answers for two histories with the common prefix n. */
  function ExpectedPlan(p: seq<seq<byte>>, q: seq<seq<byte>>): SyncPlan {
    var n := CommonPrefix(p, q);
    if n < |q| then SyncPlan(Some(n), n, |q| - n) else SyncPlan(None, 0, 0)
  }

  /** `diff` finds the longest common prefix exactly: no divergence if and only if the remote history is a prefix
      of the local one.  Otherwise a collision has been found. */
  lemma DiffExact(H: Hash, p: seq<seq<byte>>, q: seq<seq<byte>>) returns (x: seq<byte>, y: seq<byte>)
    requires IsHash(H) && |p| < LIMIT && |q| < LIMIT
    ensures PlanOf(DigestOf(H, Build(H, p)), DigestOf(H, Build(H, q))) == ExpectedPlan(p, q) || Collision(H, x, y)
  {
    hide Build, DigestOf, Buffer, Root;
    var n := CommonPrefix(p, q);
    var local, remote := DigestOf(H, Build(H, p)), DigestOf(H, Build(H, q));
    DigestBuilt(H, p);
    DigestBuilt(H, q);
    x, y := [], [];
    forall j | 0 <= j < n ensures local[j].1 == remote[j].1 { SameHash(H, p, q, j, n); }
    var d := FirstDifference(local, remote, 0);
    if n < |p| && n < |q| {
      BuildAt(H, p, n);
      BuildAt(H, q, n);
      var prev := Root(Build(H, p)[..n]);
      assert prev == Root(Build(H, q)[..n]) by {
        assert p[..n] == q[..n];
        BuildPrefix(H, p, n);
        BuildPrefix(H, q, n);
      }
      x, y := Buffer(prev, n, p[n]), Buffer(prev, n, q[n]);
      DistinctBuffers(H, prev, n, p, q);
    }
  }

  lemma SameHash(H: Hash, p: seq<seq<byte>>, q: seq<seq<byte>>, j: nat, n: nat)
    requires j < n <= |p| && n <= |q| && p[..n] == q[..n]
    ensures Build(H, p)[j] == Build(H, q)[j]
  {
    BuildPrefix(H, p, n);
    BuildPrefix(H, q, n);
    assert Build(H, p)[..n][j] == Build(H, p)[j] && Build(H, q)[..n][j] == Build(H, q)[j];
  }

  lemma DistinctBuffers(H: Hash, prev: seq<byte>, n: nat, p: seq<seq<byte>>, q: seq<seq<byte>>)
    requires IsHash(H) && n < |p| < LIMIT && n < |q| < LIMIT && p[n] != q[n] && prev == Root(Build(H, p)[..n])
    ensures Buffer(prev, n, p[n]) != Buffer(prev, n, q[n])
  {
    BuildPrefix(H, p, n);
    BuiltNumbered(H, p[..n]);
    RootWidth(H, Build(H, p[..n]));
    hide Build, Buffer, Root;
    if Buffer(prev, n, p[n]) == Buffer(prev, n, q[n]) {
      BufferInjective(prev, n, p[n], prev, n, q[n]);
    }
  }

  // ---- pull -------------------------------------------------------------------------------------------------------

  function ReplayOf(entries: seq<Entry>, from: nat): (r: seq<(nat, seq<byte>)>)
    ensures |r| == if from <= |entries| then |entries| - from else 0
    ensures forall i :: 0 <= i < |r| ==> r[i] == (entries[from + i].seqno, entries[from + i].payload)
  {
    if from <= |entries| then seq(|entries| - from, i requires 0 <= i < |entries| - from => (entries[from + i].seqno,
        entries[from + i].payload))
    else []
  }

  /** Appends while the numbers continue the chain, then verifies. */
  function Pulled(H: Hash, entries: seq<Entry>, missing: seq<(nat, seq<byte>)>): (Result, seq<Entry>)
    decreases |missing|
  {
    if missing == [] then (ChainCheck(H, entries), entries)
    else if missing[0].0 != |entries| then (Err(missing[0].0), entries)
    else Pulled(H, Appended(H, entries, missing[0].1), missing[1..])
  }

  method ApplyPull(log: EventLog, missing: seq<(nat, seq<byte>)>) returns (r: Result)
    modifies log`entries
    ensures (r, log.entries) == Pulled(log.H, old(log.entries), missing)
  {
    hide Appended, ChainCheck;
    ghost var start := log.entries;
    var i := 0;
    while i < |missing|
      invariant 0 <= i <= |missing| && Pulled(log.H, log.entries, missing[i..]) == Pulled(log.H, start, missing)
    {
      assert missing[i..][0] == missing[i] && missing[i..][1..] == missing[i + 1..];
      if missing[i].0 != |log.entries| {
        return Err(missing[i].0);
      }
      var seqno := log.Append(missing[i].1);
      i := i + 1;
    }
    r := log.Verify();
  }

  /** The entries of `missing` that continue a log of length n. */
  function Aligned(missing: seq<(nat, seq<byte>)>, n: nat): (k: nat)
    ensures k <= |missing|
    decreases |missing|
  {
    if missing == [] || missing[0].0 != n then 0 else 1 + Aligned(missing[1..], n + 1)
  }

  function Texts(missing: seq<(nat, seq<byte>)>): (p: seq<seq<byte>>)
    ensures |p| == |missing| && forall i :: 0 <= i < |p| ==> p[i] == missing[i].1
  {
    seq(|missing|, i requires 0 <= i < |missing| => missing[i].1)
  }

  /** A pull keeps the log a log: what continues the chain is appended, the rest is refused with its number.  In
      particular a pull whose first number is wrong changes nothing. */
  lemma {:induction false} PullExact(H: Hash, p: seq<seq<byte>>, missing: seq<(nat, seq<byte>)>)
    ensures var k := Aligned(missing, |p|);
            Pulled(H, Build(H, p), missing) == (if k == |missing| then Ok else Err(missing[k].0), Build(H,
                p + Texts(missing)[..k]))
    decreases |missing|
  {
    hide Build, ChainCheck, Numbered, Texts, Appended;
    BuiltNumbered(H, p);
    if missing == [] || missing[0].0 != |p| {
      assert p + Texts(missing)[..0] == p;
    } else {
      var x := missing[0].1;
      var k := Aligned(missing[1..], |p| + 1);
      BuildSnoc(H, p, x);
      PullExact(H, p + [x], missing[1..]);
      TextsStep(p, missing, k);
    }
  }

  /** A pull verifies what it ends with: a log that was broken stays reported, at the same entry, however many entries
      are appended to it. */
  lemma {:induction false} PullReportsDamage(H: Hash, entries: seq<Entry>, missing: seq<(nat, seq<byte>)>)
    requires Aligned(missing, |entries|) == |missing|
    ensures Pulled(H, entries, missing).0 == ChainCheck(H, Pulled(H, entries, missing).1)
    ensures ChainCheck(H, entries) != Ok ==> Pulled(H, entries, missing).0 == ChainCheck(H, entries)
    decreases |missing|
  {
    hide Appended;
    if missing != [] {
      var x := missing[0].1;
      PullReportsDamage(H, Appended(H, entries, x), missing[1..]);
      AppendedIs(H, entries, x);
      StillBroken(H, entries, NewEntry(H, Root(entries), |entries|, x), 0, Genesis());
    }
  }

  lemma AppendedIs(H: Hash, entries: seq<Entry>, x: seq<byte>)
    ensures Appended(H, entries, x) == entries + [NewEntry(H, Root(entries), |entries|, x)]
  {
  }

  lemma {:induction false} StillBroken(H: Hash, entries: seq<Entry>, e: Entry, i: nat, prev: seq<byte>)
    requires i <= |entries|
    ensures VerifyFrom(H, entries, i, prev) != Ok ==>
            VerifyFrom(H, entries + [e], i, prev) == VerifyFrom(H, entries, i, prev)
    decreases |entries| - i
  {
    hide Buffer;
    if i < |entries| {
      StillBroken(H, entries, e, i + 1, entries[i].hash);
    }
  }

  lemma TextsStep(p: seq<seq<byte>>, missing: seq<(nat, seq<byte>)>, k: nat)
    requires missing != [] && k < |missing|
    ensures p + Texts(missing)[..k + 1] == p + [missing[0].1] + Texts(missing[1..])[..k]
  {
    assert Texts(missing) == [missing[0].1] + Texts(missing[1..]);
  }

  lemma {:induction false} AlignedReplay(missing: seq<(nat, seq<byte>)>, n: nat)
    requires forall i :: 0 <= i < |missing| ==> missing[i].0 == n + i
    ensures Aligned(missing, n) == |missing|
    decreases |missing|
  {
    if missing != [] {
      forall i | 0 <= i < |missing[1..]|
        ensures missing[1..][i].0 == n + 1 + i
      {
        assert missing[1..][i] == missing[i + 1];
      }
      AlignedReplay(missing[1..], n + 1);
    }
  }

  /** Pulling the suffix makes a log that is behind equal to the remote log. */
  lemma PullConverges(H: Hash, p: seq<seq<byte>>, q: seq<seq<byte>>)
    requires |p| <= |q| && p == q[..|p|]
    ensures Pulled(H, Build(H, p), ReplayOf(Build(H, q), |p|)) == (Ok, Build(H, q))
  {
    hide Build, Pulled, Aligned, ReplayOf, Texts;
    var missing := ReplayOf(Build(H, q), |p|);
    forall i | 0 <= i < |missing| ensures missing[i] == (|p| + i, q[|p| + i]) { ReplayAt(H, q, |p|, i); }
    AlignedReplay(missing, |p|);
    PullExact(H, p, missing);
    assert Texts(missing)[..|missing|] == q[|p|..];
    assert p + q[|p|..] == q;
  }

  lemma ReplayAt(H: Hash, q: seq<seq<byte>>, from: nat, i: nat)
    requires from + i < |q|
    ensures ReplayOf(Build(H, q), from)[i] == (from + i, q[from + i])
  {
    hide Build;
    BuildAt(H, q, from + i);
  }

  /** A fork is refused, with the log unchanged and the divergence named: the local log has entries beyond `from`. */
  lemma ForkRefused(H: Hash, p: seq<seq<byte>>, q: seq<seq<byte>>, from: nat)
    requires from < |p| && from < |q|
    ensures Pulled(H, Build(H, p), ReplayOf(Build(H, q), from)) == (Err(from), Build(H, p))
  {
    BuildAt(H, q, from);
  }

  // ---- runs -------------------------------------------------------------------------------------------------------

  /** What a node does to catch up with another: compare digests, and pull if there is something to pull. */
  function Sync(H: Hash, local: seq<Entry>, remote: seq<Entry>): (Result, seq<Entry>) {
    var plan := PlanOf(DigestOf(H, local), DigestOf(H, remote));
    if plan.divergence == None then (Ok, local) else Pulled(H, local, ReplayOf(remote, plan.pullFrom))
  }

  method SyncFrom(local: EventLog, remote: EventLog) returns (r: Result)
    requires local != remote
    modifies local`entries
    ensures local.H == remote.H ==> (r, local.entries) == Sync(local.H, old(local.entries), remote.entries)
  {
    hide Pulled;
    var mine := Digest(local);
    var theirs := Digest(remote);
    var plan := Diff(mine, theirs);
    if plan.divergence == None {
      return Ok;
    }
    var missing := Collect(remote, plan.pullFrom);
    r := ApplyPull(local, missing);
  }

  /** `remote.replay(from).collect()` */
  method Collect(log: EventLog, from: nat) returns (items: seq<(nat, seq<byte>)>)
    ensures items == ReplayOf(log.entries, from)
  {
    items := [];
    var it := new ReplayIter(log, from);
    ghost var start := it.idx;
    var item := it.Next();
    while item != None
      invariant it.log == log && fresh(it) && start + |items| <= |log.entries| &&
                start == if from <= |log.entries| then from else |log.entries|
      invariant item == if start + |items| < |log.entries| then Some((log.entries[start + |items|].seqno,
                log.entries[start + |items|].payload)) else None
      invariant it.idx == if start + |items| < |log.entries| then start + |items| + 1 else start + |items|
      invariant forall i :: 0 <= i < |items| ==> items[i] == (log.entries[start + i].seqno,
                log.entries[start + i].payload)
      decreases |log.entries| - |items|
    {
      items := items + [item.value];
      item := it.Next();
    }
  }

  lemma PrefixPlan(H: Hash, h: seq<seq<byte>>, m: nat, n: nat)
    requires m <= |h| && n <= |h|
    ensures PlanOf(DigestOf(H, Build(H, h[..m])), DigestOf(H, Build(H, h[..n]))) ==
            if m < n then SyncPlan(Some(m), m, n - m) else SyncPlan(None, 0, 0)
  {
    hide Build, DigestOf;
    var local, remote := DigestOf(H, Build(H, h[..m])), DigestOf(H, Build(H, h[..n]));
    DigestBuilt(H, h[..m]);
    DigestBuilt(H, h[..n]);
    BuildPrefix(H, h, m);
    BuildPrefix(H, h, n);
    forall j | 0 <= j < m && j < n ensures local[j].1 == remote[j].1 {
      assert Build(H, h)[..m][j] == Build(H, h)[j] && Build(H, h)[..n][j] == Build(H, h)[j];
    }
  }

  /** Two nodes with prefixes of one history: after a sync the local node has the longer one. */
  lemma SyncPrefixes(H: Hash, h: seq<seq<byte>>, m: nat, n: nat)
    requires m <= |h| && n <= |h|
    ensures Sync(H, Build(H, h[..m]), Build(H, h[..n])) == (Ok, Build(H, h[..if m < n then n else m]))
  {
    hide Build, Pulled, PlanOf, DigestOf;
    PrefixPlan(H, h, m, n);
    if m < n {
      assert h[..n][..m] == h[..m];
      PullConverges(H, h[..m], h[..n]);
    }
  }

  /** A sync between any two built logs: nothing if the remote history is a prefix of the local one, convergence if
      the local one is a prefix, and a refusal that leaves the log alone on a fork; or else a collision. */
  lemma SyncExact(H: Hash, p: seq<seq<byte>>, q: seq<seq<byte>>) returns (x: seq<byte>, y: seq<byte>)
    requires IsHash(H) && |p| < LIMIT && |q| < LIMIT
    ensures var n := CommonPrefix(p, q);
            Sync(H, Build(H, p), Build(H, q)) ==
              (if n == |q| then (Ok, Build(H, p)) else if n == |p| then (Ok, Build(H, q)) else (Err(n), Build(H, p)))
            || Collision(H, x, y)
  {
    hide Build, Pulled, PlanOf, DigestOf, ReplayOf, Collision;
    x, y := DiffExact(H, p, q);
    var n := CommonPrefix(p, q);
    if n < |q| {
      if n == |p| {
        assert p == q[..|p|] by { assert p[..n] == p; }
        PullConverges(H, p, q);
      } else {
        ForkRefused(H, p, q, n);
      }
    }
  }

  /** A step of a run: the author publishes an event, or one node syncs from another.  Node 0 is the author. */
  datatype Step = Publish(payload: seq<byte>) | Pull(local: nat, remote: nat)

  function After(H: Hash, nodes: seq<seq<Entry>>, s: Step): (r: seq<seq<Entry>>)
    requires |nodes| > 0
    ensures |r| == |nodes|
  {
    match s
    case Publish(x) => nodes[0 := Appended(H, nodes[0], x)]
    case Pull(i, j) => if i < |nodes| && j < |nodes| && i != j then nodes[i := Sync(H, nodes[i], nodes[j]).1] else nodes
  }

  function RunOf(H: Hash, nodes: seq<seq<Entry>>, steps: seq<Step>): (r: seq<seq<Entry>>)
    requires |nodes| > 0
    ensures |r| == |nodes|
    decreases |steps|
  {
    if steps == [] then nodes else RunOf(H, After(H, nodes, steps[0]), steps[1..])
  }

  /** What the author has published, in order. */
  function Published(steps: seq<Step>): seq<seq<byte>> {
    if steps == [] then []
    else (match steps[0] case Publish(x) => [x] case Pull(_, _) => []) + Published(steps[1..])
  }

  /** Every node holds a prefix of the history h, and the author holds all of it. */
  ghost predicate Prefixes(H: Hash, h: seq<seq<byte>>, nodes: seq<seq<Entry>>) {
    && |nodes| > 0 && nodes[0] == Build(H, h)
    && forall i :: 0 <= i < |nodes| ==> PrefixNode(H, h, nodes[i])
  }

  ghost predicate PrefixNode(H: Hash, h: seq<seq<byte>>, e: seq<Entry>) {
    |e| <= |h| && e == Build(H, h[..|e|])
  }

  lemma PublishKeepsPrefixes(H: Hash, h: seq<seq<byte>>, nodes: seq<seq<Entry>>, x: seq<byte>)
    requires Prefixes(H, h, nodes)
    ensures Prefixes(H, h + [x], nodes[0 := Appended(H, nodes[0], x)])
  {
    hide Build, Appended;
    var h', nodes' := h + [x], nodes[0 := Appended(H, nodes[0], x)];
    BuildSnoc(H, h, x);
    assert h'[..|h'|] == h';
    forall i | 0 <= i < |nodes| ensures PrefixNode(H, h', nodes'[i]) {
      assert PrefixNode(H, h, nodes[i]);
      assert i > 0 ==> h'[..|nodes[i]|] == h[..|nodes[i]|];
    }
  }

  lemma PullKeepsPrefixes(H: Hash, h: seq<seq<byte>>, nodes: seq<seq<Entry>>, i: nat, j: nat)
    requires Prefixes(H, h, nodes) && i < |nodes| && j < |nodes|
    ensures Prefixes(H, h, nodes[i := Sync(H, nodes[i], nodes[j]).1])
  {
    hide Build, Sync;
    assert h[..|h|] == h;
    assert PrefixNode(H, h, nodes[i]) && PrefixNode(H, h, nodes[j]);
    SyncPrefixes(H, h, |nodes[i]|, |nodes[j]|);
    var nodes' := nodes[i := Sync(H, nodes[i], nodes[j]).1];
    forall k | 0 <= k < |nodes| ensures PrefixNode(H, h, nodes'[k]) {
      assert PrefixNode(H, h, nodes[k]);
    }
  }

  lemma StepKeepsPrefixes(H: Hash, h: seq<seq<byte>>, nodes: seq<seq<Entry>>, s: Step)
    requires Prefixes(H, h, nodes)
    ensures Prefixes(H, h + Published([s]), After(H, nodes, s))
  {
    hide Build, Sync, Appended, Prefixes;
    assert [s][1..] == [] && Published([]) == [];
    match s {
      case Publish(x) =>
        assert Published([s]) == [x];
        PublishKeepsPrefixes(H, h, nodes, x);
      case Pull(i, j) =>
        assert h + Published([s]) == h;
        if i < |nodes| && j < |nodes| && i != j {
          PullKeepsPrefixes(H, h, nodes, i, j);
        }
    }
  }

  lemma PrefixesVerify(H: Hash, h: seq<seq<byte>>, nodes: seq<seq<Entry>>)
    requires Prefixes(H, h, nodes)
    ensures forall i :: 0 <= i < |nodes| ==> ChainCheck(H, nodes[i]) == Ok
  {
    hide Build, ChainCheck;
    forall i | 0 <= i < |nodes| ensures ChainCheck(H, nodes[i]) == Ok {
      assert PrefixNode(H, h, nodes[i]);
      BuiltNumbered(H, h[..|nodes[i]|]);
    }
  }

  lemma PublishedCons(s: Step, rest: seq<Step>)
    ensures Published([s] + rest) == Published([s]) + Published(rest)
  {
    assert ([s] + rest)[1..] == rest && [s][1..] == [];
  }

  /** Safety over every run: whatever the order of publications and syncs, between any two nodes, every node's log
      verifies and is a prefix of the author's. */
  lemma {:induction false} RunKeepsPrefixes(H: Hash, h: seq<seq<byte>>, nodes: seq<seq<Entry>>, steps: seq<Step>)
    requires Prefixes(H, h, nodes)
    ensures Prefixes(H, h + Published(steps), RunOf(H, nodes, steps))
    ensures forall i :: 0 <= i < |nodes| ==> ChainCheck(H, RunOf(H, nodes, steps)[i]) == Ok
    decreases |steps|
  {
    hide Prefixes, After, ChainCheck;
    assert |nodes| > 0 by { NodesExist(H, h, nodes); }
    if steps == [] {
      assert h + Published(steps) == h;
      PrefixesVerify(H, h, nodes);
    } else {
      hide Published;
      StepKeepsPrefixes(H, h, nodes, steps[0]);
      RunKeepsPrefixes(H, h + Published([steps[0]]), After(H, nodes, steps[0]), steps[1..]);
      assert steps == [steps[0]] + steps[1..];
      PublishedCons(steps[0], steps[1..]);
      assert h + Published([steps[0]]) + Published(steps[1..]) == h + Published(steps);
    }
  }

  lemma NodesExist(H: Hash, h: seq<seq<byte>>, nodes: seq<seq<Entry>>)
    requires Prefixes(H, h, nodes)
    ensures |nodes| > 0
  {
  }

  /** From the start, when every log is empty; and a node that then syncs from the author has everything. */
  lemma RunConverges(H: Hash, n: nat, steps: seq<Step>, i: nat)
    requires 0 < i < n
    ensures var empty := seq(n, k => []); var nodes := RunOf(H, empty, steps);
            Prefixes(H, Published(steps), nodes)
            && Sync(H, nodes[i], nodes[0]) == (Ok, nodes[0]) && nodes[0] == Build(H, Published(steps))
  {
    hide Build, Sync, RunOf;
    var empty: seq<seq<Entry>> := seq(n, k => []);
    EmptyPrefixes(H, empty);
    RunKeepsPrefixes(H, [], empty, steps);
    var h, nodes := Published(steps), RunOf(H, empty, steps);
    assert [] + h == h;
    assert PrefixNode(H, h, nodes[i]) && PrefixNode(H, h, nodes[0]);
    SyncPrefixes(H, h, |nodes[i]|, |nodes[0]|);
  }

  lemma EmptyPrefixes(H: Hash, nodes: seq<seq<Entry>>)
    requires |nodes| > 0 && forall i :: 0 <= i < |nodes| ==> nodes[i] == []
    ensures Prefixes(H, [], nodes)
  {
  }
}
