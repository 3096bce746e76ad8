/** Runs of publishes, each of which may crash after any of its writes. */
module RegistryHistory {
  import opened Wrappers
  import opened RegistryModel
  import opened RegistrySafety
  import opened RegistryPublish

  /** A publish of which only the first `cut` writes happen (all, when there are no more than that). */
  datatype Attempt = Attempt(request: Request, order: seq<string>, cut: nat)

  ghost function Planned(c: Codec, r: Root, a: Attempt): Plan
  {
    PublishPlan(c, r, a.request, a.order)
  }

  ghost function Executed(c: Codec, r: Root, a: Attempt): seq<Write>
  {
    var ws := Planned(c, r, a).writes;
    ws[..if a.cut < |ws| then a.cut else |ws|]
  }

  ghost function After(c: Codec, r: Root, a: Attempt): Root
  {
    ApplyAll(r, Executed(c, r, a))
  }

  ghost predicate ValidAttempt(c: Codec, r: Root, a: Attempt)
  {
    NamespaceOrder(AfterRelease(c, r, a.request), a.order)
  }

  ghost function History(c: Codec, attempts: seq<Attempt>): Root
  {
    if attempts == [] then EMPTY_ROOT else
    After(c, History(c, attempts[..|attempts| - 1]), attempts[|attempts| - 1])
  }

  /** All writes that happened, in order. */
  ghost function Journal(c: Codec, attempts: seq<Attempt>): seq<Write>
  {
    if attempts == [] then [] else
    var front := attempts[..|attempts| - 1];
    Journal(c, front) + Executed(c, History(c, front), attempts[|attempts| - 1])
  }

  lemma EmptyInv(c: Codec)
    ensures Inv(c, EMPTY_ROOT)
  {
  }

  lemma {:induction false} SafePrefix(c: Codec, r: Root, ws: seq<Write>, k: nat)
    requires AllOk(c, r, ws) && k <= |ws|
    ensures AllOk(c, r, ws[..k]) && AllOk(c, ApplyAll(r, ws[..k]), ws[k..])
    decreases k
  {
    hide WriteOk, Apply;
    if k > 0 {
      assert ws[..k][1..] == ws[1..][..k - 1] && ws[k..] == ws[1..][k - 1..];
      SafePrefix(c, Apply(r, ws[0]), ws[1..], k - 1);
    }
  }

  lemma ExecutedSafe(c: Codec, r: Root, a: Attempt)
    requires Inv(c, r)
    ensures AllOk(c, r, Executed(c, r, a)) && Inv(c, After(c, r, a)) && Extends(r, After(c, r, a))
  {
    hide Inv, AllOk, PublishPlan, Extends;
    PublishPlanSafe(c, r, a.request, a.order);
    var ws := Planned(c, r, a).writes;
    SafePrefix(c, r, ws, |Executed(c, r, a)|);
    SafeKeepsInv(c, r, Executed(c, r, a));
  }

  /** Crash safety: whatever the publishes and wherever they were cut off, the root is consistent. */
  lemma {:induction false} CrashSafe(c: Codec, attempts: seq<Attempt>)
    ensures Inv(c, History(c, attempts))
    ensures AllOk(c, EMPTY_ROOT, Journal(c, attempts)) && ApplyAll(EMPTY_ROOT, Journal(c, attempts)) == History(c, attempts)
  {
    hide Inv, Executed, After;
    EmptyInv(c);
    if attempts != [] {
      var front, last := attempts[..|attempts| - 1], attempts[|attempts| - 1];
      CrashSafe(c, front);
      ExecutedSafe(c, History(c, front), last);
      AllOkAppend(c, EMPTY_ROOT, Journal(c, front), Executed(c, History(c, front), last));
      ApplyAllAppend(EMPTY_ROOT, Journal(c, front), Executed(c, History(c, front), last));
      AfterIs(c, History(c, front), last);
    }
  }

  lemma AfterIs(c: Codec, r: Root, a: Attempt)
    ensures After(c, r, a) == ApplyAll(r, Executed(c, r, a))
  {
  }

  /** Nothing that was ever stored is changed or removed later. */
  lemma {:induction false} HistoryExtends(c: Codec, attempts: seq<Attempt>, i: nat)
    requires i <= |attempts|
    ensures Extends(History(c, attempts[..i]), History(c, attempts))
    decreases |attempts|
  {
    hide Inv, After, Extends;
    if i == |attempts| {
      assert attempts[..i] == attempts;
      ExtendsReflexive(History(c, attempts));
    } else {
      var front, last := attempts[..|attempts| - 1], attempts[|attempts| - 1];
      HistoryExtends(c, front, i);
      assert front[..i] == attempts[..i];
      CrashSafe(c, front);
      ExecutedSafe(c, History(c, front), last);
      ExtendsTransitive(History(c, attempts[..i]), History(c, front), History(c, attempts));
    }
  }

  /** Every checkpoint ever written stays the chain hash of the first leaves of every later state. */
  lemma CheckpointsStayTrue(c: Codec, attempts: seq<Attempt>, i: nat)
    requires i < |Journal(c, attempts)| && Journal(c, attempts)[i].PutCheckpoint?
    ensures CheckpointOk(c, History(c, attempts).leaves, Journal(c, attempts)[i].checkpoint)
  {
    hide Inv, Journal, History, CheckpointOk, Extends;
    CrashSafe(c, attempts);
    EmptyInv(c);
    var ws := Journal(c, attempts);
    SafePrefix(c, EMPTY_ROOT, ws, i);
    var s := ApplyAll(EMPTY_ROOT, ws[..i]);
    SafeKeepsInv(c, EMPTY_ROOT, ws[..i]);
    assert ws[i..][0] == ws[i];
    assert WriteOk(c, s, ws[i]);
    SafeKeepsInv(c, s, ws[i..]);
    ApplyAllAppend(EMPTY_ROOT, ws[..i], ws[i..]);
    assert ws[..i] + ws[i..] == ws;
    CheckpointStays(c, s, History(c, attempts), ws[i].checkpoint);
  }

  /** Along safe writes, every later checkpoint supersedes the one in force. */
  lemma {:induction false} LaterSupersedes(c: Codec, r: Root, ws: seq<Write>, j: nat)
    requires AllOk(c, r, ws) && j < |ws| && ws[j].PutCheckpoint?
    ensures Supersedes(ws[j].checkpoint, r.checkpoint)
    decreases j
  {
    hide CheckpointOk, Apply;
    CheckpointPut(r, ws[0]);
    if j > 0 {
      LaterSupersedes(c, Apply(r, ws[0]), ws[1..], j - 1);
    }
  }

  lemma CheckpointPut(r: Root, w: Write)
    ensures Apply(r, w).checkpoint == if w.PutCheckpoint? then Some(w.checkpoint) else r.checkpoint
  {
  }

  /** No rollback: of two checkpoints ever written, the later one has a higher version and covers at least as many leaves. */
  lemma CheckpointsAdvance(c: Codec, attempts: seq<Attempt>, i: nat, j: nat)
    requires i < j < |Journal(c, attempts)|
    requires Journal(c, attempts)[i].PutCheckpoint? && Journal(c, attempts)[j].PutCheckpoint?
    ensures Journal(c, attempts)[i].checkpoint.version < Journal(c, attempts)[j].checkpoint.version
    ensures Journal(c, attempts)[i].checkpoint.treeSize <= Journal(c, attempts)[j].checkpoint.treeSize
  {
    hide Inv, Journal, History, WriteOk;
    CrashSafe(c, attempts);
    var ws := Journal(c, attempts);
    SafePrefix(c, EMPTY_ROOT, ws, i + 1);
    var s := ApplyAll(EMPTY_ROOT, ws[..i + 1]);
    assert ws[..i + 1] == ws[..i] + [ws[i]];
    ApplyAllAppend(EMPTY_ROOT, ws[..i], [ws[i]]);
    assert [ws[i]][1..] == [];
    CheckpointPut(ApplyAll(EMPTY_ROOT, ws[..i]), ws[i]);
    assert ws[i + 1..][j - i - 1] == ws[j];
    LaterSupersedes(c, s, ws[i + 1..], j - i - 1);
  }

  // The log binds: equal root hashes mean equal logs, or a collision is at hand.

  /** Where two logs of equal length with equal root hash differ, a pair of colliding inputs. */
  function FindCollision(c: Codec, a: seq<Digest>, b: seq<Digest>): (Blob, Blob)
    requires |a| == |b| && a != b
  {
    var n := |a| - 1;
    var x, y := ChainHash(c, a[..n]) + a[n], ChainHash(c, b[..n]) + b[n];
    if x != y then (x, y)
    else
      ChainStep(c, a, b);
      FindCollision(c, a[..n], b[..n])
  }

  lemma ChainStep(c: Codec, a: seq<Digest>, b: seq<Digest>)
    requires |a| == |b| > 0 && a != b
    requires ChainHash(c, a[..|a| - 1]) + a[|a| - 1] == ChainHash(c, b[..|b| - 1]) + b[|b| - 1]
    ensures ChainHash(c, a[..|a| - 1]) == ChainHash(c, b[..|b| - 1]) && a[..|a| - 1] != b[..|b| - 1]
  {
    var n := |a| - 1;
    var x, y := ChainHash(c, a[..n]) + a[n], ChainHash(c, b[..n]) + b[n];
    assert ChainHash(c, a[..n]) == x[..32] && ChainHash(c, b[..n]) == y[..32];
    assert a[n] == x[32..] && b[n] == y[32..];
    assert a == a[..n] + [a[n]] && b == b[..n] + [b[n]];
  }

  lemma {:induction false} LogBinds(c: Codec, a: seq<Digest>, b: seq<Digest>)
    requires |a| == |b| && a != b && ChainHash(c, a) == ChainHash(c, b)
    ensures
      var (x, y) := FindCollision(c, a, b);
      x != y && c.hash(x) == c.hash(y)
  {
    var n := |a| - 1;
    if ChainHash(c, a[..n]) + a[n] == ChainHash(c, b[..n]) + b[n] {
      ChainStep(c, a, b);
      LogBinds(c, a[..n], b[..n]);
    }
  }

  /** Two roots with the same checkpoint agree on every logged leaf's encoding, or exhibit a collision. */
  lemma CheckpointBinds(c: Codec, r: Root, s: Root, k: Checkpoint, n: nat)
    requires CheckpointOk(c, r.leaves, k) && CheckpointOk(c, s.leaves, k) && 1 <= n <= k.treeSize
    ensures
      var a, b := LeafHashes(c, r.leaves, k.treeSize), LeafHashes(c, s.leaves, k.treeSize);
      var x, y := c.leafBytes(r.leaves[n]), c.leafBytes(s.leaves[n]);
      || x == y
      || c.hash(x) == c.hash(y)
      || (a != b && var (u, v) := FindCollision(c, a, b); u != v && c.hash(u) == c.hash(v))
  {
    var a, b := LeafHashes(c, r.leaves, k.treeSize), LeafHashes(c, s.leaves, k.treeSize);
    if a != b {
      LogBinds(c, a, b);
    } else {
      assert a[n - 1] == b[n - 1];
    }
  }
}
