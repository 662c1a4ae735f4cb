/** Cluster chains in a FAT. A FAT is a sequence indexed by cluster number; an entry is a
    successor, an end marker, the bad marker, or 0 for a free cluster. */
module Chains {
  import opened Volume

  type Fat = t: seq<int> | |t| < BAD32 witness []

  predicate InTable(t: Fat, c: int) {
    2 <= c < |t|
  }

  function Last<T>(s: seq<T>): T
    requires |s| > 0
  {
    s[|s| - 1]
  }

  /** Clusters in link order, up to the first entry that is not a cluster number. */
  ghost predicate IsTrail(t: Fat, ch: seq<nat>) {
    && |ch| > 0
    && (forall i :: 0 <= i < |ch| ==> InTable(t, ch[i]))
    && (forall i, j :: 0 <= i && j == i + 1 && j < |ch| ==> t[ch[i]] == ch[j])
    && !InTable(t, t[Last(ch)])
  }

  /** A trail that stops at an end marker. */
  ghost predicate IsChain(t: Fat, ch: seq<nat>) {
    IsTrail(t, ch) && t[Last(ch)] >= END32
  }

  ghost predicate TrailFrom(t: Fat, c: nat, ch: seq<nat>) {
    IsTrail(t, ch) && ch[0] == c
  }

  ghost predicate Stops(t: Fat, c: nat) {
    exists ch :: TrailFrom(t, c, ch)
  }

  /** Following links from any cluster comes to an end. */
  ghost predicate Acyclic(t: Fat) {
    forall c: nat {:trigger Stops(t, c)} :: InTable(t, c) ==> Stops(t, c)
  }

  /** The one trail from `c`. */
  ghost function TrailOf(t: Fat, c: nat): (ch: seq<nat>)
    requires Acyclic(t) && InTable(t, c)
    ensures TrailFrom(t, c, ch)
  {
    assert Stops(t, c);
    var ch :| TrailFrom(t, c, ch);
    ch
  }

  lemma TrailTail(t: Fat, ch: seq<nat>, k: nat)
    requires IsTrail(t, ch) && k < |ch|
    ensures IsTrail(t, ch[k..]) && Last(ch[k..]) == Last(ch)
  {
    var r := ch[k..];
    assert forall i :: 0 <= i < |r| ==> r[i] == ch[k + i];
  }

  lemma Link(t: Fat, ch: seq<nat>, i: nat)
    requires IsTrail(t, ch) && i + 1 < |ch|
    ensures t[ch[i]] == ch[i + 1]
  {
  }

  /** Links leave no choice: a trail is determined by where it starts. */
  lemma {:induction false} TrailUnique(t: Fat, a: seq<nat>, b: seq<nat>)
    requires IsTrail(t, a) && IsTrail(t, b) && a[0] == b[0]
    ensures a == b
    decreases |a|
  {
    assert |a| > 1 ==> t[a[0]] == a[1];
    assert |b| > 1 ==> t[b[0]] == b[1];
    if |a| > 1 {
      TrailTail(t, a, 1);
      TrailTail(t, b, 1);
      TrailUnique(t, a[1..], b[1..]);
      assert a == [a[0]] + a[1..] && b == [b[0]] + b[1..];
    }
  }

  /** A finite trail never visits a cluster twice. */
  lemma TrailDistinct(t: Fat, ch: seq<nat>)
    requires IsTrail(t, ch)
    ensures forall i, j :: 0 <= i < j < |ch| ==> ch[i] != ch[j]
  {
    forall i, j | 0 <= i < j < |ch|
      ensures ch[i] != ch[j]
    {
      TrailTail(t, ch, i);
      TrailTail(t, ch, j);
      if ch[i] == ch[j] { TrailUnique(t, ch[i..], ch[j..]); }
    }
  }

  // ---------------------------------------------------------------------
  // Forests
  // ---------------------------------------------------------------------

  ghost predicate Ends(t: Fat, c: nat) {
    exists ch :: TrailFrom(t, c, ch) && IsChain(t, ch)
  }

  /** The chain from `c` to its end marker. */
  ghost function ChainOf(t: Fat, c: nat): (ch: seq<nat>)
    requires Ends(t, c)
    ensures IsChain(t, ch) && ch[0] == c
  {
    var ch: seq<nat> :| TrailFrom(t, c, ch) && IsChain(t, ch);
    ch
  }

  ghost predicate NoPred(t: Fat, c: nat) {
    forall d: nat :: InTable(t, d) ==> t[d] != c
  }

  /** No two clusters link to the same successor. */
  ghost predicate Unshared(t: Fat) {
    forall c: nat, d: nat :: InTable(t, c) && InTable(t, d) && t[c] == t[d] && InTable(t, t[c]) ==> c == d
  }

  ghost predicate Settled(t: Fat, c: nat)
    requires InTable(t, c)
  {
    t[c] == 0 || t[c] == BAD32 || Ends(t, c)
  }

  /** Every cluster is free, marked bad, or on an end-terminated chain, and chains never merge. */
  ghost predicate Forest(t: Fat) {
    && Unshared(t)
    && forall c: nat {:trigger Settled(t, c)} :: InTable(t, c) ==> Settled(t, c)
  }

  /** A whole chain, from its first cluster to its end marker. */
  ghost predicate IsFile(t: Fat, ch: seq<nat>) {
    IsChain(t, ch) && NoPred(t, ch[0])
  }

  lemma ForestIsAcyclic(t: Fat)
    requires Forest(t)
    ensures Acyclic(t)
  {
    forall c: nat | InTable(t, c)
      ensures Stops(t, c)
    {
      assert Settled(t, c);
      if t[c] == 0 || t[c] == BAD32 { assert TrailFrom(t, c, [c]); }
    }
  }

  /** Shared clusters of two whole chains sit at the same place in both. */
  lemma {:induction false} SamePlace(t: Fat, a: seq<nat>, b: seq<nat>, i: nat, j: nat)
    requires Unshared(t) && IsFile(t, a) && IsFile(t, b)
    requires i < |a| && j < |b| && a[i] == b[j]
    ensures i == j && a[0] == b[0]
    decreases i
  {
    assert i > 0 ==> t[a[i - 1]] == a[i];
    assert j > 0 ==> t[b[j - 1]] == b[j];
    if i > 0 {
      SamePlace(t, a, b, i - 1, j - 1);
    }
  }

  /** Whole chains are pairwise disjoint. */
  lemma FilesDisjoint(t: Fat, a: seq<nat>, b: seq<nat>)
    requires Unshared(t) && IsFile(t, a) && IsFile(t, b)
    ensures a == b || forall c :: c in a ==> c !in b
  {
    if c :| c in a && c in b {
      var i :| 0 <= i < |a| && a[i] == c;
      var j :| 0 <= j < |b| && b[j] == c;
      SamePlace(t, a, b, i, j);
      TrailUnique(t, a, b);
    }
  }

  /** Entries on a chain hold the next cluster, or at the end an end marker. */
  lemma OnChain(t: Fat, ch: seq<nat>, c: nat)
    requires IsChain(t, ch) && c in ch
    ensures InTable(t, c) && t[c] != 0 && t[c] != BAD32
    ensures InTable(t, t[c]) ==> t[c] in ch
    ensures !InTable(t, t[c]) ==> Last(ch) == c && t[c] >= END32
  {
    var i :| 0 <= i < |ch| && ch[i] == c;
    assert i + 1 < |ch| ==> t[ch[i]] == ch[i + 1];
  }

  lemma LinkedIsUsed(t: Fat, d: nat)
    requires Forest(t) && InTable(t, d) && InTable(t, t[d])
    ensures t[t[d]] != 0
  {
    assert Settled(t, d);
    var ch := ChainOf(t, d);
    OnChain(t, ch, d);
    OnChain(t, ch, t[d]);
  }

  /** No entry names a free cluster. */
  lemma FreeIsUnlinked(t: Fat, c: nat)
    requires Forest(t) && InTable(t, c) && t[c] == 0
    ensures NoPred(t, c)
  {
    forall d: nat | InTable(t, d)
      ensures t[d] != c
    {
      if InTable(t, t[d]) { LinkedIsUsed(t, d); }
    }
  }

  /** A chain is unaffected by a change to an entry it does not visit. */
  lemma ChainFrame(t: Fat, c: nat, v: int, ch: seq<nat>)
    requires InTable(t, c) && c !in ch
    ensures IsChain(t, ch) <==> IsChain(t[c := v], ch)
    ensures IsTrail(t, ch) <==> IsTrail(t[c := v], ch)
  {
    if |ch| > 0 { assert Last(ch) in ch; }
    assert forall i :: 0 <= i < |ch| ==> ch[i] in ch;
  }

  // ---------------------------------------------------------------------
  // Allocating a cluster
  // ---------------------------------------------------------------------

  /** The least free cluster from `c` on, or the table size when there is none. */
  function FirstFreeFrom(t: Fat, c: nat): (r: nat)
    requires 2 <= c
    decreases |t| - c
  {
    if c >= |t| || t[c] == 0 then c else FirstFreeFrom(t, c + 1)
  }

  lemma {:induction false} FirstFreeIsLeast(t: Fat, c: nat)
    requires 2 <= c <= |t|
    ensures c <= FirstFreeFrom(t, c) <= |t|
    ensures forall d :: c <= d < FirstFreeFrom(t, c) ==> t[d] != 0
    ensures FirstFreeFrom(t, c) < |t| ==> t[FirstFreeFrom(t, c)] == 0
    decreases |t| - c
  {
    if c < |t| && t[c] != 0 { FirstFreeIsLeast(t, c + 1); }
  }

  predicate Full(t: Fat) {
    FirstFreeFrom(t, 2) >= |t|
  }

  lemma ClaimKeepsEnds(t: Fat, c: nat, d: nat)
    requires InTable(t, c) && t[c] == 0
    requires d == c || Ends(t, d)
    ensures Ends(t[c := END32], d)
  {
    var t' := t[c := END32];
    if d == c {
      assert TrailFrom(t', c, [c]) && IsChain(t', [c]);
    } else {
      var ch := ChainOf(t, d);
      ChainAvoidsFree(t, ch, c);
      ChainFrame(t, c, END32, ch);
      assert TrailFrom(t', d, ch);
    }
  }

  lemma ClaimKeepsForest(t: Fat, c: nat)
    requires Forest(t) && InTable(t, c) && t[c] == 0
    ensures Forest(t[c := END32])
  {
    var t' := t[c := END32];
    assert Unshared(t') by { ClaimKeepsUnshared(t, c); }
    forall d: nat | InTable(t', d)
      ensures Settled(t', d)
    {
      assert Settled(t, d);
      if t'[d] != 0 && t'[d] != BAD32 { ClaimKeepsEnds(t, c, d); }
    }
  }

  lemma ClaimKeepsUnshared(t: Fat, c: nat)
    requires Unshared(t) && InTable(t, c)
    ensures Unshared(t[c := END32])
  {
  }

  lemma ChainAvoidsFree(t: Fat, ch: seq<nat>, c: nat)
    requires IsChain(t, ch) && InTable(t, c) && t[c] == 0
    ensures c !in ch
  {
    if c in ch { OnChain(t, ch, c); }
  }

  /** An entry that does not name cluster `h` before or after a change leaves its predecessors alone. */
  lemma NoPredFrame(t: Fat, c: nat, v: int, h: nat)
    requires InTable(t, c) && t[c] != h && v != h
    ensures NoPred(t, h) <==> NoPred(t[c := v], h)
  {
    var t' := t[c := v];
    if NoPred(t', h) {
      forall d: nat | InTable(t, d) ensures t[d] != h { assert InTable(t', d); }
    }
    if NoPred(t, h) {
      forall d: nat | InTable(t', d) ensures t'[d] != h { assert InTable(t, d); }
    }
  }

  /** Claiming a free cluster adds one chain, of that cluster alone, and changes no other. */
  lemma ClaimAddsFile(t: Fat, c: nat, ch: seq<nat>)
    requires Forest(t) && InTable(t, c) && t[c] == 0
    ensures IsFile(t[c := END32], ch) <==> IsFile(t, ch) || ch == [c]
  {
    var t' := t[c := END32];
    FreeIsUnlinked(t, c);
    NoPredFrame(t, c, END32, c);
    if c !in ch {
      ChainFrame(t, c, END32, ch);
      if IsChain(t, ch) { NoPredFrame(t, c, END32, ch[0]); }
    } else {
      if IsChain(t, ch) { ChainAvoidsFree(t, ch, c); }
      if IsChain(t', ch) { UnlinkedEndAlone(t', ch, c); }
    }
  }

  lemma LinkedHasPred(t: Fat, ch: seq<nat>, i: nat)
    requires IsTrail(t, ch) && 0 < i < |ch|
    ensures !NoPred(t, ch[i])
  {
    Link(t, ch, i - 1);
  }

  lemma UnlinkedEndAlone(t: Fat, ch: seq<nat>, c: nat)
    requires IsChain(t, ch) && c in ch && t[c] >= END32 && NoPred(t, c)
    ensures ch == [c]
  {
    var i: nat :| i < |ch| && ch[i] == c;
    if i > 0 { LinkedHasPred(t, ch, i); }
    if i + 1 < |ch| { Link(t, ch, i); }
  }

  // ---------------------------------------------------------------------
  // Linking a cluster to the end of a chain
  // ---------------------------------------------------------------------

  /** `c` is a chain by itself and can be linked to the end of another. */
  ghost predicate CanLink(t: Fat, tail: nat, c: nat) {
    && InTable(t, tail) && InTable(t, c) && tail != c
    && t[tail] >= END32 && t[c] >= END32
    && NoPred(t, c)
  }

  function Grown(ch: seq<nat>, tail: nat, c: nat): seq<nat>
    requires |ch| > 0
  {
    if Last(ch) == tail then ch + [c] else ch
  }

  /** A chain grows by the new cluster when it ended at the tail, and is unchanged otherwise. */
  lemma LinkGrowsChain(t: Fat, tail: nat, c: nat, ch: seq<nat>)
    requires CanLink(t, tail, c) && IsChain(t, ch)
    ensures IsChain(t[tail := c], Grown(ch, tail, c))
  {
    var t' := t[tail := c];
    if tail in ch {
      OnChain(t, ch, tail);
      TrailDistinct(t, ch);
      var x := ch + [c];
      forall i | 0 <= i < |x| - 1 ensures t'[x[i]] == x[i + 1] {
        if i < |ch| - 1 { assert t[ch[i]] == ch[i + 1]; }
      }
    } else {
      ChainFrame(t, tail, c, ch);
    }
  }

  lemma LinkKeepsUnshared(t: Fat, tail: nat, c: nat)
    requires CanLink(t, tail, c) && Unshared(t)
    ensures Unshared(t[tail := c])
  {
    var t' := t[tail := c];
    forall a: nat, b: nat | InTable(t', a) && InTable(t', b) && t'[a] == t'[b] && InTable(t', t'[a])
      ensures a == b
    {
      assert InTable(t, a) && InTable(t, b);
    }
  }

  lemma LinkKeepsForest(t: Fat, tail: nat, c: nat)
    requires CanLink(t, tail, c) && Forest(t)
    ensures Forest(t[tail := c])
  {
    var t' := t[tail := c];
    LinkKeepsUnshared(t, tail, c);
    forall d: nat | InTable(t', d)
      ensures Settled(t', d)
    {
      assert Settled(t, d);
      if t'[d] != 0 && t'[d] != BAD32 {
        LinkGrowsChain(t, tail, c, ChainOf(t, d));
        assert TrailFrom(t', d, Grown(ChainOf(t, d), tail, c));
      }
    }
  }

  /** The chains after linking are the chains before, with the tail's chain grown by the new
      cluster and the new cluster's own chain gone. */
  lemma LinkGrowsFile(t: Fat, tail: nat, c: nat, ch: seq<nat>)
    requires CanLink(t, tail, c) && IsFile(t, ch) && ch != [c]
    ensures IsFile(t[tail := c], Grown(ch, tail, c))
  {
    LinkGrowsChain(t, tail, c, ch);
    if ch[0] == c {
      OnChain(t, ch, c);
      UnlinkedEndAlone(t, ch, c);
    }
    NoPredFrame(t, tail, c, ch[0]);
  }

  lemma LinkedFileWas(t: Fat, tail: nat, c: nat, x: seq<nat>) returns (ch: seq<nat>)
    requires CanLink(t, tail, c) && IsFile(t[tail := c], x)
    ensures IsFile(t, ch) && ch != [c] && x == Grown(ch, tail, c)
  {
    var t' := t[tail := c];
    assert t'[tail] == c;
    assert x[0] != c;
    NoPredFrame(t, tail, c, x[0]);
    if c in x {
      OnChain(t', x, c);
      ch := x[..|x| - 1];
      assert t'[Last(ch)] == c;
      assert Last(ch) == tail;
      TrailDistinct(t', x);
      forall i | 0 <= i < |ch| - 1 ensures t[ch[i]] == ch[i + 1] {
        assert t'[x[i]] == x[i + 1];
        assert x[i] != x[|x| - 2];
      }
      assert x == ch + [c];
    } else {
      ch := x;
      if tail in x { OnChain(t', x, tail); }
      ChainFrame(t, tail, c, x);
      assert Last(x) in x;
    }
  }

  // ---------------------------------------------------------------------
  // Linking a cluster in the middle of a chain
  // ---------------------------------------------------------------------

  /** The clusters of a chain that are left when it is cut after `at`. */
  lemma CutShortensChain(t: Fat, at: nat, ch: seq<nat>, k: nat)
    requires IsChain(t, ch) && k < |ch| && ch[k] == at
    ensures IsChain(t[at := END32], ch[..k + 1])
  {
    TrailDistinct(t, ch);
    var u, x := t[at := END32], ch[..k + 1];
    forall i, j | 0 <= i && j == i + 1 && j < |x| ensures u[x[i]] == x[j] { Link(t, ch, i); }
  }

  /** Cutting a chain leaves two of them. */
  lemma CutKeepsForest(t: Fat, at: nat)
    requires Forest(t) && InTable(t, at) && t[at] != 0
    ensures Forest(t[at := END32])
  {
    var u := t[at := END32];
    ClaimKeepsUnshared(t, at);
    forall d: nat | InTable(u, d)
      ensures Settled(u, d)
    {
      assert Settled(t, d);
      if d == at {
        assert TrailFrom(u, d, [d]) && IsChain(u, [d]);
      } else if u[d] != 0 && u[d] != BAD32 {
        var ch := ChainOf(t, d);
        if at in ch {
          var k :| 0 <= k < |ch| && ch[k] == at;
          CutShortensChain(t, at, ch, k);
          assert TrailFrom(u, d, ch[..k + 1]);
        } else {
          ChainFrame(t, at, END32, ch);
          assert TrailFrom(u, d, ch);
        }
      }
    }
  }

  /** A cluster in use that is made to link to a free cluster: the forest stays a forest. */
  lemma RelinkKeepsForest(t: Fat, c: nat, at: nat)
    requires Forest(t) && InTable(t, c) && t[c] == 0 && InTable(t, at) && t[at] != 0
    ensures Forest(t[c := END32][at := c])
  {
    CutKeepsForest(t, at);
    ExtendKeepsForest(t[at := END32], c, at);
    assert t[at := END32][c := END32][at := c] == t[c := END32][at := c];
  }

  /** What becomes of a file that is relinked at its cluster `k`, not its last: its beginning ends in
      the new cluster, and the rest is a file of its own. */
  lemma RelinkSplitsFile(t: Fat, c: nat, ch: seq<nat>, k: nat)
    requires Forest(t) && IsFile(t, ch) && k + 1 < |ch| && InTable(t, c) && t[c] == 0
    ensures IsFile(t[c := END32][ch[k] := c], ch[..k + 1] + [c])
    ensures IsFile(t[c := END32][ch[k] := c], ch[k + 1..])
  {
    var at := ch[k];
    var cut, u := t[at := END32], t[c := END32][at := c];
    Link(t, ch, k);
    TrailDistinct(t, ch);
    CutKeepsForest(t, at);
    assert IsFile(cut, ch[..k + 1]) by {
      CutShortensChain(t, at, ch, k);
      NoPredFrame(t, at, END32, ch[0]);
    }
    assert IsFile(cut, ch[k + 1..]) by {
      TrailTail(t, ch, k + 1);
      ChainFrame(t, at, END32, ch[k + 1..]);
      forall d: nat | InTable(cut, d) ensures cut[d] != ch[k + 1] { assert InTable(t, d); }
    }
    assert cut[c := END32][at := c] == u;
    ExtendGrowsFile(cut, c, at, ch[..k + 1]);
    ExtendGrowsFile(cut, c, at, ch[k + 1..]);
  }

  lemma ChainShort(t: Fat, ch: seq<nat>)
    requires IsTrail(t, ch)
    ensures |ch| <= |t|
  {
    TrailDistinct(t, ch);
    Counted(ch, |t|);
  }

  lemma {:induction false} Counted(s: seq<nat>, n: nat)
    requires forall i :: 0 <= i < |s| ==> s[i] < n
    requires forall i, j :: 0 <= i < j < |s| ==> s[i] != s[j]
    ensures |s| <= n
    decreases n
  {
    if |s| == 0 { return; }
    assert s[0] < n;
    if n - 1 in s {
      var k :| 0 <= k < |s| && s[k] == n - 1;
      Counted(s[..k] + s[k + 1..], n - 1);
    } else {
      assert forall i :: 0 <= i < |s| ==> s[i] != n - 1;
      Counted(s, n - 1);
    }
  }

  /** Every chain is the end of a whole one. */
  lemma {:induction false} FileThrough(t: Fat, ch: seq<nat>) returns (x: seq<nat>, k: nat)
    requires IsChain(t, ch)
    ensures IsFile(t, x) && k < |x| && x[k..] == ch
    decreases |t| - |ch|
  {
    if d: nat :| InTable(t, d) && t[d] == ch[0] {
      var longer := [d] + ch;
      forall i, j | 0 <= i && j == i + 1 && j < |longer| ensures t[longer[i]] == longer[j] {
        if i > 0 { Link(t, ch, i - 1); }
      }
      ChainShort(t, longer);
      x, k := FileThrough(t, longer);
      assert x[k + 1..] == x[k..][1..];
      k := k + 1;
    } else {
      x, k := ch, 0;
    }
  }

  /** Clusters marked bad are on no file, now or after growth. */
  lemma GrownAvoidsBad(t: Fat, x: seq<nat>, j: nat, k: nat)
    requires GrownFrom(t, x, j) && k < |x| && InTable(t, x[k])
    ensures t[x[k]] != BAD32
  {
    if k < j {
      assert x[..j][k] == x[k];
      OnChain(t, x[..j], x[k]);
    } else {
      assert x[j..][k - j] == x[k];
      assert x[k] in x[j..] && x[k] in Free(t);
    }
  }

  /** A file that survives keeps its links. */
  lemma SurvivorKeepsLink(t: Fat, u: Fat, x: seq<nat>, k: nat)
    requires IsFile(t, x) && Survives(u, x) && k + 1 < |x|
    ensures InTable(u, x[k]) && u[x[k]] == t[x[k]]
  {
    var y :| IsFile(u, y) && x <= y;
    Link(t, x, k);
    Link(u, y, k);
  }

  /** Relinking a cluster that is not the last of its chain, or one that is marked bad, takes something
      from the file it is on. */
  lemma RelinkedNotGrown(t: Fat, u: Fat, at: nat)
    requires Forest(t) && Forest(u) && |u| == |t|
    requires InTable(t, at) && 0 < t[at] < END32 && u[at] in Free(t)
    ensures !OnlyGrew(t, u)
  {
    assert Settled(t, at) && Settled(u, at);
    if t[at] == BAD32 {
      var y, k := FileThrough(u, ChainOf(u, at));
      assert y[k] == y[k..][0] == at;
      assert !Explained(t, y) by {
        forall j: nat ensures !GrownFrom(t, y, j) {
          if GrownFrom(t, y, j) { GrownAvoidsBad(t, y, j, k); }
        }
      }
    } else {
      var ch := ChainOf(t, at);
      var x, k := FileThrough(t, ch);
      assert x[k] == ch[0];
      FirstOfMany(t, ch);
      LinkedIsUsed(t, at);
      if Survives(u, x) { SurvivorKeepsLink(t, u, x, k); }
    }
  }

  lemma FirstOfMany(t: Fat, ch: seq<nat>)
    requires IsChain(t, ch) && t[ch[0]] < END32
    ensures |ch| > 1 && t[ch[0]] == ch[1]
  {
    assert Last(ch) == ch[|ch| - 1];
    if |ch| > 1 { Link(t, ch, 0); }
  }

  // ---------------------------------------------------------------------
  // Runs
  // ---------------------------------------------------------------------

  /** What the driver does to the FAT: claim a cluster for a new file; grow the chain that ends at a
      given cluster, as directoryAdd does; or claim a cluster and make a given one link to it, whatever
      that one linked to before, as putFile does. */
  datatype Step = Claim | Extend(tail: nat) | Relink(at: nat)

  /** The step finds a cluster to use. */
  predicate Effective(t: Fat, s: Step) {
    && !Full(t)
    && (s.Extend? ==> InTable(t, s.tail) && t[s.tail] >= END32)
    && (s.Relink? ==> InTable(t, s.at) && t[s.at] > 0)
  }

  function After(t: Fat, s: Step): (r: Fat)
    ensures |r| == |t|
  {
    if !Effective(t, s) then t
    else
      var c := FirstFreeFrom(t, 2);
      match s
      case Claim => t[c := END32]
      case Extend(tail) => t[c := END32][tail := c]
      case Relink(at) => t[c := END32][at := c]
  }

  function Run(t: Fat, steps: seq<Step>): (r: Fat)
    ensures |r| == |t|
    decreases |steps|
  {
    if |steps| == 0 then t else Run(After(t, steps[0]), steps[1..])
  }

  /** How many steps of the run found a cluster. */
  function Uses(t: Fat, steps: seq<Step>): nat
    decreases |steps|
  {
    if |steps| == 0 then 0
    else (if Effective(t, steps[0]) then 1 else 0) + Uses(After(t, steps[0]), steps[1..])
  }

  /** Whenever the run relinks a cluster, it is the last of its chain. */
  predicate AtTails(t: Fat, steps: seq<Step>)
    decreases |steps|
  {
    |steps| > 0 ==>
      && (steps[0].Relink? && Effective(t, steps[0]) ==> t[steps[0].at] >= END32)
      && AtTails(After(t, steps[0]), steps[1..])
  }

  ghost function Free(t: Fat): set<nat> {
    set c: nat | 2 <= c < |t| && t[c] == 0
  }

  /** `u` is `t` after use of free clusters only: each file of `t` is the beginning of a file of
      `u`, and the clusters a file of `u` has beyond that were free in `t`. */
  ghost predicate OnlyGrew(t: Fat, u: Fat) {
    && |u| == |t|
    && Free(u) <= Free(t)
    && (forall ch {:trigger Survives(u, ch)} :: IsFile(t, ch) ==> Survives(u, ch))
    && (forall x {:trigger Explained(t, x)} :: IsFile(u, x) ==> Explained(t, x))
  }

  ghost predicate Survives(u: Fat, ch: seq<nat>) {
    exists x :: IsFile(u, x) && ch <= x
  }

  ghost predicate Explained(t: Fat, x: seq<nat>) {
    exists k: nat :: GrownFrom(t, x, k)
  }

  /** The first `k` clusters of `x` are a file of `t` (none if `k` is 0); the others are free in `t`. */
  ghost predicate GrownFrom(t: Fat, x: seq<nat>, k: nat) {
    k <= |x| && (k == 0 || IsFile(t, x[..k])) && forall c :: c in x[k..] ==> c in Free(t)
  }

  lemma FileIsGrown(t: Fat, x: seq<nat>)
    requires IsFile(t, x)
    ensures GrownFrom(t, x, |x|)
  {
    assert x[..|x|] == x;
  }

  lemma ClaimOnlyGrows(t: Fat, c: nat)
    requires Forest(t) && InTable(t, c) && t[c] == 0
    ensures OnlyGrew(t, t[c := END32])
  {
    var u := t[c := END32];
    forall ch | IsFile(t, ch) ensures Survives(u, ch) {
      ClaimAddsFile(t, c, ch);
    }
    forall x | IsFile(u, x) ensures Explained(t, x) {
      ClaimAddsFile(t, c, x);
      if x == [c] { assert GrownFrom(t, x, 0); } else { FileIsGrown(t, x); }
    }
  }

  lemma ClaimedCanLink(t: Fat, c: nat, tail: nat)
    requires Forest(t) && InTable(t, c) && t[c] == 0 && InTable(t, tail) && t[tail] >= END32
    ensures CanLink(t[c := END32], tail, c)
  {
    FreeIsUnlinked(t, c);
    NoPredFrame(t, c, END32, c);
  }

  lemma ExtendGrowsFile(t: Fat, c: nat, tail: nat, ch: seq<nat>)
    requires Forest(t) && InTable(t, c) && t[c] == 0 && InTable(t, tail) && t[tail] >= END32
    requires IsFile(t, ch)
    ensures IsFile(t[c := END32][tail := c], Grown(ch, tail, c))
  {
    ClaimedCanLink(t, c, tail);
    ClaimAddsFile(t, c, ch);
    ChainAvoidsFree(t, ch, c);
    LinkGrowsFile(t[c := END32], tail, c, ch);
  }

  lemma ExtendedFileWas(t: Fat, c: nat, tail: nat, x: seq<nat>) returns (k: nat)
    requires Forest(t) && InTable(t, c) && t[c] == 0 && InTable(t, tail) && t[tail] >= END32
    requires IsFile(t[c := END32][tail := c], x)
    ensures GrownFrom(t, x, k)
  {
    ClaimedCanLink(t, c, tail);
    var ch := LinkedFileWas(t[c := END32], tail, c, x);
    ClaimAddsFile(t, c, ch);
    k := |ch|;
    assert x[..k] == ch;
  }

  lemma ExtendOnlyGrows(t: Fat, c: nat, tail: nat)
    requires Forest(t) && InTable(t, c) && t[c] == 0 && InTable(t, tail) && t[tail] >= END32
    ensures OnlyGrew(t, t[c := END32][tail := c])
  {
    var u := t[c := END32][tail := c];
    forall ch | IsFile(t, ch) ensures Survives(u, ch) {
      ExtendGrowsFile(t, c, tail, ch);
      assert ch <= Grown(ch, tail, c);
    }
    forall x | IsFile(u, x) ensures Explained(t, x) {
      var k := ExtendedFileWas(t, c, tail, x);
    }
  }

  lemma GrownTwice(t: Fat, u: Fat, x: seq<nat>, k: nat, j: nat)
    requires Free(u) <= Free(t) && GrownFrom(u, x, k) && GrownFrom(t, x[..k], j)
    ensures GrownFrom(t, x, j)
  {
    assert x[..k][..j] == x[..j];
    assert x[j..] == x[..k][j..] + x[k..];
  }

  lemma GrewTransitive(t: Fat, u: Fat, v: Fat)
    requires OnlyGrew(t, u) && OnlyGrew(u, v)
    ensures OnlyGrew(t, v)
  {
    forall ch | IsFile(t, ch) ensures Survives(v, ch) {
      assert Survives(u, ch);
      var y :| IsFile(u, y) && ch <= y;
      assert Survives(v, y);
      var x :| IsFile(v, x) && y <= x;
      assert ch <= x;
    }
    forall x | IsFile(v, x) ensures Explained(t, x) {
      assert Explained(u, x);
      var k: nat :| GrownFrom(u, x, k);
      if k == 0 {
        GrownTwice(t, u, x, 0, 0);
      } else {
        assert Explained(t, x[..k]);
        var j: nat :| GrownFrom(t, x[..k], j);
        GrownTwice(t, u, x, k, j);
      }
    }
  }

  lemma GrewReflexive(t: Fat)
    ensures OnlyGrew(t, t)
  {
    forall x | IsFile(t, x) ensures Explained(t, x) { FileIsGrown(t, x); }
  }

  lemma StepUsesOne(t: Fat, s: Step)
    ensures |Free(After(t, s))| == |Free(t)| - if Effective(t, s) then 1 else 0
  {
    if Effective(t, s) {
      FirstFreeIsLeast(t, 2);
      assert Free(After(t, s)) == Free(t) - {FirstFreeFrom(t, 2)};
    }
  }

  lemma ExtendKeepsForest(t: Fat, c: nat, tail: nat)
    requires Forest(t) && InTable(t, c) && t[c] == 0 && InTable(t, tail) && t[tail] >= END32
    ensures Forest(t[c := END32][tail := c])
  {
    ClaimKeepsForest(t, c);
    ClaimedCanLink(t, c, tail);
    LinkKeepsForest(t[c := END32], tail, c);
  }

  lemma StepKeepsForest(t: Fat, s: Step)
    requires Forest(t)
    ensures Forest(After(t, s))
    ensures OnlyGrew(t, After(t, s)) <==> !(s.Relink? && Effective(t, s) && t[s.at] < END32)
  {
    if Effective(t, s) {
      var c := FirstFreeFrom(t, 2);
      FirstFreeIsLeast(t, 2);
      match s
      case Claim =>
        ClaimKeepsForest(t, c);
        ClaimOnlyGrows(t, c);
      case Extend(tail) =>
        ExtendKeepsForest(t, c, tail);
        ExtendOnlyGrows(t, c, tail);
      case Relink(at) =>
        RelinkKeepsForest(t, c, at);
        if t[at] >= END32 { ExtendOnlyGrows(t, c, at); } else { RelinkedNotGrown(t, After(t, s), at); }
    } else {
      GrewReflexive(t);
    }
  }

  /** Over every run the FAT stays a forest of disjoint end-terminated chains, and each effective step
      uses exactly one free cluster. Unless the run relinks a cluster in the middle of a chain, files
      only grow, and only by clusters that were free. */
  lemma {:induction false} RunKeepsForest(t: Fat, steps: seq<Step>)
    requires Forest(t)
    ensures Forest(Run(t, steps))
    ensures |Free(Run(t, steps))| + Uses(t, steps) == |Free(t)|
    ensures AtTails(t, steps) ==> OnlyGrew(t, Run(t, steps))
    decreases |steps|
  {
    if |steps| == 0 {
      GrewReflexive(t);
    } else {
      var u := After(t, steps[0]);
      StepKeepsForest(t, steps[0]);
      StepUsesOne(t, steps[0]);
      RunKeepsForest(u, steps[1..]);
      if AtTails(t, steps) { GrewTransitive(t, u, Run(u, steps[1..])); }
    }
  }

  /** The steps with which putFile grows a chain from its first cluster to the whole of `ch`. */
  function GrowthSteps(ch: seq<nat>): (steps: seq<Step>)
    requires |ch| > 0
    ensures |steps| == |ch| - 1
  {
    if |ch| == 1 then [] else GrowthSteps(ch[..|ch| - 1]) + [Relink(ch[|ch| - 2])]
  }

  lemma {:induction false} RunSnoc(t: Fat, steps: seq<Step>, s: Step)
    ensures Run(t, steps + [s]) == After(Run(t, steps), s)
    decreases |steps|
  {
    if |steps| == 0 {
      assert ([] + [s])[1..] == [];
    } else {
      RunSnoc(After(t, steps[0]), steps[1..], s);
      assert (steps + [s])[1..] == steps[1..] + [s];
    }
  }

  lemma {:induction false} AtTailsSnoc(t: Fat, steps: seq<Step>, s: Step)
    ensures AtTails(t, steps + [s]) <==>
              AtTails(t, steps) && (s.Relink? && Effective(Run(t, steps), s) ==> Run(t, steps)[s.at] >= END32)
    decreases |steps|
  {
    if |steps| == 0 {
      assert ([] + [s])[1..] == [];
    } else {
      AtTailsSnoc(After(t, steps[0]), steps[1..], s);
      assert (steps + [s])[1..] == steps[1..] + [s];
    }
  }

  lemma GrowthSnoc(t: Fat, ch: seq<nat>, f: nat)
    requires |ch| > 0
    ensures Run(t, GrowthSteps(ch + [f])) == After(Run(t, GrowthSteps(ch)), Relink(Last(ch)))
    ensures AtTails(t, GrowthSteps(ch)) && InTable(t, Last(ch)) && Run(t, GrowthSteps(ch))[Last(ch)] >= END32 ==>
              AtTails(t, GrowthSteps(ch + [f]))
  {
    var x := ch + [f];
    assert x[..|x| - 1] == ch;
    AtTailsSnoc(t, GrowthSteps(ch), Relink(Last(ch)));
    RunSnoc(t, GrowthSteps(ch), Relink(Last(ch)));
  }

  /** Linking a free cluster to the end of a chain, in terms of that chain alone. */
  lemma ChainGrows(t: Fat, ch: seq<nat>, f: nat)
    requires IsChain(t, ch) && InTable(t, f) && t[f] == 0
    ensures f !in ch && IsChain(t[f := END32][Last(ch) := f], ch + [f])
  {
    ChainAvoidsFree(t, ch, f);
    ChainFrame(t, f, END32, ch);
    TrailDistinct(t, ch);
    var m := t[f := END32];
    var u, x := m[Last(ch) := f], ch + [f];
    forall i, j | 0 <= i && j == i + 1 && j < |x| ensures u[x[i]] == x[j] {
      if j < |ch| { Link(m, ch, i); }
    }
  }

  /** From `t` to `u`, `ch` has grown from its first cluster, step by step and by free clusters only,
      and no entry outside it has changed. The first cluster was in use. As long as `ch` is that cluster
      alone nothing has changed; then it links to the second, whatever it linked to before. */
  ghost predicate GrewChain(t: Fat, u: Fat, ch: seq<nat>) {
    && |u| == |t| && |ch| > 0 && InTable(t, ch[0]) && t[ch[0]] > 0
    && (if |ch| == 1 then u == t else IsChain(u, ch))
    && u == Run(t, GrowthSteps(ch)) && (t[ch[0]] >= END32 ==> AtTails(t, GrowthSteps(ch)))
    && |Free(u)| + |ch| - 1 == |Free(t)|
    && (forall i :: 1 <= i < |ch| ==> ch[i] in Free(t))
    && (forall c: nat :: InTable(u, c) && c !in ch ==> u[c] == t[c])
  }

  lemma GrewChainOn(t: Fat, u: Fat, ch: seq<nat>)
    requires GrewChain(t, u, ch) && !Full(u)
    ensures var f := FirstFreeFrom(u, 2);
            f !in ch && GrewChain(t, After(u, Relink(Last(ch))), ch + [f])
  {
    var f := FirstFreeFrom(u, 2);
    GrewChainLinks(t, u, ch);
    GrewChainElsewhere(t, u, ch);
    GrowthSnoc(t, ch, f);
    StepUsesOne(u, Relink(Last(ch)));
    hide AtTails, Run, GrowthSteps, IsTrail, FirstFreeFrom, Free, After;
  }

  /** The longer chain is one. */
  lemma GrewChainLinks(t: Fat, u: Fat, ch: seq<nat>)
    requires GrewChain(t, u, ch) && !Full(u)
    ensures InTable(t, Last(ch)) && u[Last(ch)] > 0 && (t[ch[0]] >= END32 ==> u[Last(ch)] >= END32)
    ensures Effective(u, Relink(Last(ch)))
    ensures var f := FirstFreeFrom(u, 2);
            f !in ch && f in Free(t) && IsChain(After(u, Relink(Last(ch))), ch + [f])
  {
    hide AtTails, Run, GrowthSteps, NoPred;
    var f := FirstFreeFrom(u, 2);
    FirstFreeIsLeast(u, 2);
    if |ch| == 1 { FirstRelinked(t, ch[0], f); } else { ChainGrows(u, ch, f); }
    assert t[f] == u[f] == 0;
  }

  /** Nothing else has changed, and the new cluster was free. */
  lemma GrewChainElsewhere(t: Fat, u: Fat, ch: seq<nat>)
    requires GrewChain(t, u, ch) && !Full(u)
    ensures var x, v := ch + [FirstFreeFrom(u, 2)], After(u, Relink(Last(ch)));
            && (forall i :: 1 <= i < |x| ==> x[i] in Free(t))
            && (forall c: nat :: InTable(v, c) && c !in x ==> v[c] == t[c])
  {
    GrewChainLinks(t, u, ch);
    hide AtTails, Run, GrowthSteps, IsTrail, FirstFreeFrom, NoPred;
    var f, v := FirstFreeFrom(u, 2), After(u, Relink(Last(ch)));
    assert v == u[f := END32][Last(ch) := f] && Last(ch) in ch;
    forall c: nat | InTable(v, c) && c !in ch + [f] ensures v[c] == t[c] { assert c !in ch; }
  }

  lemma FirstRelinked(t: Fat, at: nat, f: nat)
    requires InTable(t, at) && t[at] > 0 && InTable(t, f) && t[f] == 0
    ensures f !in [at] && IsChain(t[f := END32][at := f], [at] + [f])
  {
  }

  /** Growing keeps the forest. Files only grow exactly when nothing was linked, or what was linked was
      the end of a chain. */
  lemma GrewChainKeepsForest(t: Fat, u: Fat, ch: seq<nat>)
    requires GrewChain(t, u, ch) && Forest(t)
    ensures Forest(u)
    ensures OnlyGrew(t, u) <==> |ch| == 1 || t[ch[0]] >= END32
  {
    RunKeepsForest(t, GrowthSteps(ch));
    if |ch| == 1 {
      GrewReflexive(t);
    } else if t[ch[0]] < END32 {
      Link(u, ch, 0);
      RelinkedNotGrown(t, u, ch[0]);
    }
  }
}
