/** The append-only event log and its hash chain.  The hash is a parameter; statements that need it to be
    collision-free produce the collision instead. */
module EventLogs {
  import opened ModArith
  import opened MachineInts
  import opened ByteNumbers

  type Hash = seq<byte> -> seq<byte>

  ghost predicate IsHash(H: Hash) { forall x: seq<byte> :: |H(x)| == 32 }

  ghost predicate Collision(H: Hash, x: seq<byte>, y: seq<byte>) { x != y && H(x) == H(y) }

  datatype Option<+T> = None | Some(value: T)

  datatype Result = Ok | Err(seqno: nat)

  datatype Entry = Entry(seqno: nat, payload: seq<byte>, hash: seq<byte>)

  /** The 32 zero bytes before the first entry. */
  function Genesis(): (g: seq<byte>)
    ensures |g| == 32
  {
    seq(32, i => 0)
  }

  /** The largest count for which sequence numbers are u64. */
  const LIMIT: nat := 0x1_0000_0000_0000_0000

  lemma Width8()
    ensures Pow(256, 8) == LIMIT
  {
    assert Pow(256, 4) == 0x1_0000_0000;
    PowAdd(256, 4, 4);
  }

  /** What is hashed: the previous hash, the sequence number, the payload. */
  function Buffer(prev: seq<byte>, seqno: nat, payload: seq<byte>): seq<byte> {
    prev + BigEndian(seqno, 8) + payload
  }

  lemma BufferInjective(prev: seq<byte>, n: nat, p: seq<byte>, prev': seq<byte>, n': nat, p': seq<byte>)
    requires |prev| == |prev'| == 32 && n < LIMIT && n' < LIMIT && Buffer(prev, n, p) == Buffer(prev', n', p')
    ensures prev == prev' && n == n' && p == p'
  {
    var b := Buffer(prev, n, p);
    assert b[..32] == prev && b[..32] == prev';
    assert b[32..40] == BigEndian(n, 8) && b[32..40] == BigEndian(n', 8);
    assert b[40..] == p && b[40..] == p';
    Width8();
    ValueOfBytes(n, 8, LIMIT);
    ValueOfBytes(n', 8, LIMIT);
  }

  function NewEntry(H: Hash, prev: seq<byte>, seqno: nat, payload: seq<byte>): Entry {
    Entry(seqno, payload, H(Buffer(prev, seqno, payload)))
  }

  function Root(entries: seq<Entry>): seq<byte> {
    if entries == [] then Genesis() else entries[|entries| - 1].hash
  }

  function Appended(H: Hash, entries: seq<Entry>, payload: seq<byte>): (r: seq<Entry>)
    ensures |r| == |entries| + 1
  {
    entries + [NewEntry(H, Root(entries), |entries|, payload)]
  }

  /** The log that appending the payloads one by one builds. */
  function Build(H: Hash, payloads: seq<seq<byte>>): (r: seq<Entry>)
    ensures |r| == |payloads|
    decreases |payloads|
  {
    if payloads == [] then [] else Appended(H, Build(H, payloads[..|payloads| - 1]), payloads[|payloads| - 1])
  }

  function Payloads(entries: seq<Entry>): (p: seq<seq<byte>>)
    ensures |p| == |entries| && forall i :: 0 <= i < |entries| ==> p[i] == entries[i].payload
  {
    seq(|entries|, i requires 0 <= i < |entries| => entries[i].payload)
  }

  /** Walks the chain from index i, with prev the hash before it. */
  function VerifyFrom(H: Hash, entries: seq<Entry>, i: nat, prev: seq<byte>): Result
    requires i <= |entries|
    decreases |entries| - i
  {
    if i == |entries| then Ok
    else if H(Buffer(prev, entries[i].seqno, entries[i].payload)) != entries[i].hash then Err(entries[i].seqno)
    else VerifyFrom(H, entries, i + 1, entries[i].hash)
  }

  function ChainCheck(H: Hash, entries: seq<Entry>): Result { VerifyFrom(H, entries, 0, Genesis()) }

  // ---- what a built log is --------------------------------------------------------------------------------------

  lemma NothingBuilt(H: Hash)
    ensures Build(H, []) == []
  {
  }

  lemma BuildSnoc(H: Hash, p: seq<seq<byte>>, x: seq<byte>)
    ensures Build(H, p + [x]) == Appended(H, Build(H, p), x)
  {
    assert (p + [x])[..|p|] == p;
  }

  /** The log of a prefix is the prefix of the log. */
  lemma {:induction false} BuildPrefix(H: Hash, p: seq<seq<byte>>, n: nat)
    requires n <= |p|
    ensures Build(H, p[..n]) == Build(H, p)[..n]
    decreases |p|
  {
    if n < |p| {
      hide NewEntry, Root;
      var q := p[..|p| - 1];
      BuildPrefix(H, q, n);
      assert Build(H, p) == Build(H, q) + [NewEntry(H, Root(Build(H, q)), |q|, p[|q|])];
      hide Build;
      assert q[..n] == p[..n];
    } else {
      assert p[..n] == p && Build(H, p)[..n] == Build(H, p);
    }
  }

  /** Entry i holds its index, its payload, and the hash that chains to the prefix before it. */
  lemma {:induction false} BuildAt(H: Hash, p: seq<seq<byte>>, i: nat)
    requires i < |p|
    ensures Build(H, p)[i] == NewEntry(H, Root(Build(H, p)[..i]), i, p[i])
    decreases |p|
  {
    if i < |p| - 1 {
      var q := p[..|p| - 1];
      BuildAt(H, q, i);
      assert Build(H, p)[..i] == Build(H, q)[..i];
    } else {
      assert Build(H, p)[..i] == Build(H, p[..i]);
    }
  }

  lemma PayloadsOfBuild(H: Hash, p: seq<seq<byte>>)
    ensures Payloads(Build(H, p)) == p
  {
    forall i | 0 <= i < |p| ensures Payloads(Build(H, p))[i] == p[i] {
      BuildAt(H, p, i);
    }
  }

  ghost predicate Numbered(entries: seq<Entry>) {
    forall i :: 0 <= i < |entries| ==> entries[i].seqno == i
  }

  lemma {:induction false} VerifyBuilt(H: Hash, p: seq<seq<byte>>, i: nat)
    requires i <= |p|
    ensures VerifyFrom(H, Build(H, p), i, Root(Build(H, p)[..i])) == Ok
    decreases |p| - i
  {
    if i < |p| {
      BuildAt(H, p, i);
      VerifyBuilt(H, p, i + 1);
    }
  }

  lemma RootSnoc(entries: seq<Entry>, e: Entry)
    ensures Root(entries + [e]) == e.hash
  {
  }

  lemma ExtendPrefix(H: Hash, entries: seq<Entry>, p: seq<seq<byte>>, i: nat)
    requires i < |entries| && p == Payloads(entries) && entries[i].seqno == i && entries[..i] == Build(H, p[..i])
    requires H(Buffer(Root(entries[..i]), i, entries[i].payload)) == entries[i].hash
    ensures entries[..i + 1] == Build(H, p[..i + 1]) && Root(entries[..i + 1]) == entries[i].hash
  {
    hide Build, Payloads, Buffer, Root, Genesis;
    var was, e := entries[..i], entries[i];
    assert e == NewEntry(H, Root(was), |was|, p[i]);
    assert p[..i + 1] == p[..i] + [p[i]];
    BuildSnoc(H, p[..i], p[i]);
    assert entries[..i + 1] == was + [e];
    RootSnoc(was, e);
  }

  /** A chain that verifies, with entries numbered by position, is the log of its payloads. */
  lemma {:induction false} VerifiedPrefix(H: Hash, entries: seq<Entry>, i: nat)
    requires i <= |entries| && Numbered(entries) && entries[..i] == Build(H, Payloads(entries)[..i])
    requires VerifyFrom(H, entries, i, Root(entries[..i])) == Ok
    ensures entries == Build(H, Payloads(entries))
    decreases |entries| - i
  {
    hide Build, Payloads, Buffer, Root;
    var p := Payloads(entries);
    if i == |entries| {
      assert entries[..i] == entries && p[..i] == p;
    } else {
      ExtendPrefix(H, entries, p, i);
      VerifiedPrefix(H, entries, i + 1);
    }
  }

  lemma BuiltNumbered(H: Hash, p: seq<seq<byte>>)
    ensures Numbered(Build(H, p)) && ChainCheck(H, Build(H, p)) == Ok
  {
    VerifyBuilt(H, p, 0);
    assert Build(H, p)[..0] == [];
    forall i | 0 <= i < |p| ensures Build(H, p)[i].seqno == i { BuildAt(H, p, i); }
  }

  /** The logs that appending can build are exactly those that verify and are numbered by position. */
  lemma VerifyExact(H: Hash, entries: seq<Entry>)
    ensures entries == Build(H, Payloads(entries)) <==> ChainCheck(H, entries) == Ok && Numbered(entries)
  {
    hide Build, Buffer;
    NothingBuilt(H);
    assert entries[..0] == [] && Payloads(entries)[..0] == [];
    if ChainCheck(H, entries) == Ok && Numbered(entries) {
      VerifiedPrefix(H, entries, 0);
    }
    BuiltNumbered(H, Payloads(entries));
  }

  /** `verify` does not look at the order of sequence numbers: a chain that starts at 5 verifies, but no
      appending builds it. */
  lemma NumberingUnchecked(H: Hash)
    ensures var e := [NewEntry(H, Genesis(), 5, [])]; ChainCheck(H, e) == Ok && e != Build(H, Payloads(e))
  {
    var e := [NewEntry(H, Genesis(), 5, [])];
    assert VerifyFrom(H, e, 1, e[0].hash) == Ok;
    BuiltNumbered(H, Payloads(e));
  }

  // ---- tampering ------------------------------------------------------------------------------------------------

  /** The numbers of a log are u64. */
  ghost predicate InWidth(entries: seq<Entry>) {
    forall i :: 0 <= i < |entries| ==> entries[i].seqno < LIMIT
  }

  /** The last step of a walk that succeeds. */
  lemma {:induction false} LastStep(H: Hash, entries: seq<Entry>, i: nat, prev: seq<byte>)
    requires i < |entries| && VerifyFrom(H, entries, i, prev) == Ok
    ensures var n := |entries| - 1;
            && VerifyFrom(H, entries[..n], i, prev) == Ok
            && entries[n].hash == H(Buffer(if i == n then prev else entries[n - 1].hash, entries[n].seqno,
                entries[n].payload))
    decreases |entries| - i
  {
    hide Buffer;
    if i < |entries| - 1 {
      LastStep(H, entries, i + 1, entries[i].hash);
    }
  }

  /** A chain that verifies is one that verifies, and one more link. */
  lemma ChainTail(H: Hash, entries: seq<Entry>)
    requires entries != [] && ChainCheck(H, entries) == Ok
    ensures var n := |entries| - 1;
            && ChainCheck(H, entries[..n]) == Ok
            && entries[n].hash == H(Buffer(Root(entries[..n]), entries[n].seqno, entries[n].payload))
  {
    hide Buffer, VerifyFrom, Genesis;
    LastStep(H, entries, 0, Genesis());
  }

  lemma RootWidth(H: Hash, entries: seq<Entry>)
    requires IsHash(H) && ChainCheck(H, entries) == Ok
    ensures |Root(entries)| == 32
  {
    hide Buffer, ChainCheck;
    if entries != [] { ChainTail(H, entries); }
  }

  /** Two different chains that verify, numbered or not, have different roots, or their entries exhibit a collision
      or a preimage of the genesis value. */
  lemma {:induction false} RootIdentifies(H: Hash, s: seq<Entry>, t: seq<Entry>) returns (x: seq<byte>, y: seq<byte>)
    requires IsHash(H) && InWidth(s) && InWidth(t) && ChainCheck(H, s) == Ok && ChainCheck(H, t) == Ok
    requires s != t && Root(s) == Root(t)
    ensures Collision(H, x, y) || H(x) == Genesis()
    decreases |s|
  {
    hide Buffer, Genesis, ChainCheck, IsHash;
    x, y := [], [];
    if s != [] {
      ChainTail(H, s);
      x := Hashed(s);
    }
    if t != [] {
      ChainTail(H, t);
      y := Hashed(t);
    }
    if s == [] {
      x := y;
    } else if t != [] && x == y {
      var s', t' := s[..|s| - 1], t[..|t| - 1];
      SameHashed(H, s, t);
      assert s == s' + [s[|s| - 1]] && t == t' + [t[|t| - 1]];
      x, y := RootIdentifies(H, s', t');
    }
  }

  /** What was hashed for the last entry. */
  function Hashed(entries: seq<Entry>): seq<byte>
    requires entries != []
  {
    var n := |entries| - 1;
    Buffer(Root(entries[..n]), entries[n].seqno, entries[n].payload)
  }

  lemma SameHashed(H: Hash, s: seq<Entry>, t: seq<Entry>)
    requires IsHash(H) && InWidth(s) && InWidth(t) && ChainCheck(H, s) == Ok && ChainCheck(H, t) == Ok
    requires s != [] && t != [] && Hashed(s) == Hashed(t) && Root(s) == Root(t)
    ensures s[|s| - 1] == t[|t| - 1] && Root(s[..|s| - 1]) == Root(t[..|t| - 1])
    ensures ChainCheck(H, s[..|s| - 1]) == Ok && ChainCheck(H, t[..|t| - 1]) == Ok
  {
    hide Buffer, Genesis, ChainCheck, IsHash;
    var m, n := |s| - 1, |t| - 1;
    ChainTail(H, s);
    ChainTail(H, t);
    RootWidth(H, s[..m]);
    RootWidth(H, t[..n]);
    assert s[m].seqno < LIMIT && t[n].seqno < LIMIT;
    BufferInjective(Root(s[..m]), s[m].seqno, s[m].payload, Root(t[..n]), t[n].seqno, t[n].payload);
  }

  /** Built logs with the same root have the same payloads. */
  lemma RootDetermines(H: Hash, p: seq<seq<byte>>, q: seq<seq<byte>>) returns (x: seq<byte>, y: seq<byte>)
    requires IsHash(H) && p != q && Root(Build(H, p)) == Root(Build(H, q)) && |p| <= LIMIT && |q| <= LIMIT
    ensures Collision(H, x, y) || H(x) == Genesis()
  {
    hide Build, Root, Genesis, ChainCheck, Collision, IsHash;
    BuiltNumbered(H, p);
    BuiltNumbered(H, q);
    PayloadsOfBuild(H, p);
    PayloadsOfBuild(H, q);
    x, y := RootIdentifies(H, Build(H, p), Build(H, q));
  }

  /** If stored hashes are kept, but some payload or number is altered, `verify` names the first altered entry,
      or a collision has been found. */
  lemma {:induction false} TamperingDetected(H: Hash, p: seq<seq<byte>>, t: seq<Entry>, i: nat,
      k: nat) returns (x: seq<byte>, y: seq<byte>)
    requires IsHash(H) && |t| == |p| <= LIMIT && i <= k < |p|
    requires forall j :: 0 <= j < |p| ==> t[j].hash == Build(H, p)[j].hash && t[j].seqno < LIMIT
    requires t[..k] == Build(H, p)[..k] && t[k] != Build(H, p)[k]
    ensures VerifyFrom(H, t, i, Root(Build(H, p)[..i])) == Err(t[k].seqno) || Collision(H, x, y)
    decreases k - i
  {
    var b := Build(H, p);
    BuildAt(H, p, i);
    assert Root(b[..i + 1]) == b[i].hash == t[i].hash;
    if i < k {
      assert t[i] == t[..k][i] == b[..k][i] == b[i];
      x, y := TamperingDetected(H, p, t, i + 1, k);
    } else {
      var prev := Root(b[..i]);
      x, y := Buffer(prev, b[i].seqno, b[i].payload), Buffer(prev, t[i].seqno, t[i].payload);
      if x == y {
        BuildPrefix(H, p, i);
        BuiltNumbered(H, p[..i]);
        RootWidth(H, b[..i]);
        BufferInjective(prev, b[i].seqno, b[i].payload, prev, t[i].seqno, t[i].payload);
      }
    }
  }

  // ---- the log object -------------------------------------------------------------------------------------------

  class EventLog {
    const H: Hash
    var entries: seq<Entry>

    constructor (H: Hash)
      ensures this.H == H && entries == []
    {
      this.H := H;
      entries := [];
    }

    method Append(payload: seq<byte>) returns (seqno: nat)
      modifies this`entries
      ensures entries == Appended(H, old(entries), payload) && seqno == |old(entries)|
    {
      seqno := |entries|;
      var prev := RootHash();
      entries := entries + [NewEntry(H, prev, seqno, payload)];
    }

    method RootHash() returns (root: seq<byte>)
      ensures root == Root(entries)
    {
      if |entries| == 0 {
        return Genesis();
      }
      return entries[|entries| - 1].hash;
    }

    method PayloadAt(seqno: nat) returns (p: Option<seq<byte>>)
      ensures p == if seqno < |entries| then Some(entries[seqno].payload) else None
    {
      if seqno < |entries| {
        return Some(entries[seqno].payload);
      }
      return None;
    }

    method SnapshotPayloads() returns (p: seq<seq<byte>>)
      ensures p == Payloads(entries)
    {
      p := [];
      var i := 0;
      while i < |entries|
        invariant 0 <= i <= |entries| && |p| == i && forall j :: 0 <= j < i ==> p[j] == entries[j].payload
      {
        p := p + [entries[i].payload];
        i := i + 1;
      }
    }

    /** Rebuilding from payloads gives the log that appending them gives. */
    constructor RebuildFromPayloads(H: Hash, payloads: seq<seq<byte>>)
      ensures this.H == H && entries == Build(H, payloads)
    {
      hide Build, NewEntry, Genesis;
      this.H := H;
      entries := [];
      new;
      var i := 0;
      NothingBuilt(H);
      assert payloads[..0] == [];
      while i < |payloads|
        invariant 0 <= i <= |payloads| && entries == Build(H, payloads[..i])
      {
        assert payloads[..i + 1] == payloads[..i] + [payloads[i]];
        BuildSnoc(H, payloads[..i], payloads[i]);
        var seqno := |entries|;
        var prev := if |entries| == 0 then Genesis() else entries[|entries| - 1].hash;
        entries := entries + [NewEntry(H, prev, seqno, payloads[i])];
        i := i + 1;
      }
      assert payloads[..i] == payloads;
    }

    method Verify() returns (r: Result)
      ensures r == ChainCheck(H, entries)
    {
      var prev, i := Genesis(), 0;
      while i < |entries|
        invariant 0 <= i <= |entries| && VerifyFrom(H, entries, i, prev) == ChainCheck(H, entries)
      {
        var e := entries[i];
        if H(Buffer(prev, e.seqno, e.payload)) != e.hash {
          return Err(e.seqno);
        }
        prev := e.hash;
        i := i + 1;
      }
      return Ok;
    }
  }

  /** The iterator that `replay` returns. */
  class ReplayIter {
    const log: EventLog
    var idx: nat

    constructor (log: EventLog, start: nat)
      ensures this.log == log && idx == if start <= |log.entries| then start else |log.entries|
    {
      this.log := log;
      idx := if start <= |log.entries| then start else |log.entries|;
    }

    method Next() returns (item: Option<(nat, seq<byte>)>)
      modifies this`idx
      ensures old(idx) >= |log.entries| ==> item == None && idx == old(idx)
      ensures old(idx) < |log.entries| ==> item == Some((log.entries[old(idx)].seqno,
              log.entries[old(idx)].payload)) && idx == old(idx) + 1
    {
      if idx >= |log.entries| {
        return None;
      }
      var e := log.entries[idx];
      idx := idx + 1;
      return Some((e.seqno, e.payload));
    }
  }
}
