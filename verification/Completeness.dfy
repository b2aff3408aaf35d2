/** The simple reference walk, shamap/completeness.go, and what it reports once the
    scanner has declared a map complete. */
module Completeness {
  import opened KeyPath
  import opened Trie
  import opened Mutation
  import opened Hashing
  import opened ScanModel

  /** CompletenessResult: nodes counted, references without a record, and references
      whose record does not decode to the node. */
  datatype Report = Report(inner: nat, leaf: nat, missing: seq<MissingNode>, corrupt: seq<MissingNode>)

  const NOTHING: Report := Report(0, 0, [], [])

  function Plus(a: Report, b: Report): Report {
    Report(a.inner + b.inner, a.leaf + b.leaf, a.missing + b.missing, a.corrupt + b.corrupt)
  }

  lemma {:induction false} PlusGroups(a: Report, b: Report, c: Report)
    ensures Plus(Plus(a, b), c) == Plus(a, Plus(b, c)) && Plus(a, NOTHING) == a
  {
  }

  predicate Clean(r: Report) {
    r.missing == [] && r.corrupt == []
  }

  /** A record of the hash would materialize to the node. */
  predicate Readable(h: Hash) {
    h.Digest? && Materializes(h.pre)
  }

  /** How CheckComplete resolves a node: from memory if it is attached there, else from
      the store. */
  function Resolved(env: Env, path: seq<Nibble>, h: Hash): Option<View> {
    if path in env.attached then Some(AttachedView(env.attached[path]))
    else if (h in env.durable || h in env.staged) && Readable(h) then Some(DecodedView(h))
    else None
  }

  /** What the walk has to report of a resolved node and all below it. */
  ghost function Walked(env: Env, h: Hash, path: seq<Nibble>, v: View): Report
    decreases h, 17
  {
    if !v.inner then NOTHING.(leaf := 1)
    else Plus(NOTHING.(inner := 1), if IsFan(h) then WalkedKids(env, h, path, v, 0) else NOTHING)
  }

  /** What it has to report below the branches from b on. */
  ghost function WalkedKids(env: Env, h: Hash, path: seq<Nibble>, v: View, b: nat): Report
    requires IsFan(h) && b <= 16
    decreases h, 16 - b
  {
    if b == 16 then NOTHING
    else Plus(if Shown(v, b) then WalkedChild(env, h, path, b) else NOTHING, WalkedKids(env, h, path, v, b + 1))
  }

  ghost function WalkedChild(env: Env, h: Hash, path: seq<Nibble>, b: nat): Report
    requires IsFan(h) && b < 16
    decreases h, 0
  {
    var kid := h.pre.kids[b];
    var r := Resolved(env, path + [b], kid);
    var entry := MissingNode(kid, |path| + 1, h, b, path + [b]);
    if r.Some? then Walked(env, kid, path + [b], r.value)
    else if kid in env.durable || kid in env.staged then NOTHING.(corrupt := [entry])
    else NOTHING.(missing := [entry])
  }

  lemma {:induction false} ResolvedShows(env: Env, root: Hash, path: seq<Nibble>, h: Hash)
    requires EnvOk(env, root) && h == HashAt(root, path) && Resolved(env, path, h).Some?
    ensures Shows(Resolved(env, path, h).value, h)
  {
  }

  /** checkNodeComplete: counts the nodes and collects what is missing or corrupt, unless
      the walk is cancelled, the store fails or the tree is too deep. */
  method CheckNode(env: Env, ghost root: Hash, h: Hash, path: seq<Nibble>, v: View, report: Report)
    returns (ok: bool, r: Report)
    requires EnvOk(env, root) && h == HashAt(root, path) && Resolved(env, path, h) == Some(v)
    ensures ok ==> r == Plus(report, Walked(env, h, path, v))
    decreases h, 1
  {
    ResolvedShows(env, root, path, h);
    var failed: bool := *;
    if failed || |path| > 64 {
      return false, report;
    }
    if !v.inner {
      return true, report.(leaf := report.leaf + 1);
    }
    hide EnvOk, Resolved, WalkedKids, HashAt;
    var one := report.(inner := report.inner + 1);
    OneMore(env, h, path, v, report);
    hide Walked, Plus;
    ok, r := CheckKids(env, root, h, path, v, one);
  }

  lemma {:induction false} OneMore(env: Env, h: Hash, path: seq<Nibble>, v: View, report: Report)
    requires v.inner
    ensures Plus(report.(inner := report.inner + 1), if IsFan(h) then WalkedKids(env, h, path, v, 0) else NOTHING)
            == Plus(report, Walked(env, h, path, v))
  {
    CountInner(report, if IsFan(h) then WalkedKids(env, h, path, v, 0) else NOTHING);
    hide WalkedKids, Plus;
  }

  lemma {:induction false} CountInner(report: Report, below: Report)
    ensures Plus(report.(inner := report.inner + 1), below) == Plus(report, Plus(NOTHING.(inner := 1), below))
  {
    assert [] + below.missing == below.missing && [] + below.corrupt == below.corrupt;
  }

  method CheckKids(env: Env, ghost root: Hash, h: Hash, path: seq<Nibble>, v: View, report: Report)
    returns (ok: bool, r: Report)
    requires EnvOk(env, root) && h == HashAt(root, path) && Shows(v, h)
    ensures ok ==> r == Plus(report, if IsFan(h) then WalkedKids(env, h, path, v, 0) else NOTHING)
    decreases h, 0, 1
  {
    hide EnvOk, WalkedKids, WalkedChild, HashAt, Plus;
    ok, r := true, report;
    PlusGroups(report, NOTHING, NOTHING);
    var b := 0;
    while b < 16
      invariant 0 <= b <= 16
      invariant IsFan(h) ==> Plus(r, WalkedKids(env, h, path, v, b)) == Plus(report, WalkedKids(env, h, path, v, 0))
      invariant !IsFan(h) ==> r == report
    {
      if IsFan(h) {
        KidsStep(env, h, path, v, b, r);
      }
      if v.branches[b] {
        ok, r := CheckChild(env, root, h, path, v, b, r);
        if !ok {
          return;
        }
      }
      b := b + 1;
    }
    if IsFan(h) {
      KidsEnd(env, h, path, v, r);
    }
    ok := true;
  }

  lemma {:induction false} KidsStep(env: Env, h: Hash, path: seq<Nibble>, v: View, b: nat, before: Report)
    requires IsFan(h) && b < 16
    ensures var here := if Shown(v, b) then Plus(before, WalkedChild(env, h, path, b)) else before;
      Plus(before, WalkedKids(env, h, path, v, b)) == Plus(here, WalkedKids(env, h, path, v, b + 1))
  {
    hide WalkedChild;
    var kid := if Shown(v, b) then WalkedChild(env, h, path, b) else NOTHING;
    PlusGroups(before, kid, WalkedKids(env, h, path, v, b + 1));
    PlusGroups(before, NOTHING, NOTHING);
  }

  lemma {:induction false} KidsEnd(env: Env, h: Hash, path: seq<Nibble>, v: View, r: Report)
    requires IsFan(h)
    ensures Plus(r, WalkedKids(env, h, path, v, 16)) == r
  {
    PlusGroups(r, NOTHING, NOTHING);
  }

  method CheckChild(env: Env, ghost root: Hash, h: Hash, path: seq<Nibble>, v: View, b: nat, report: Report)
    returns (ok: bool, r: Report)
    requires EnvOk(env, root) && h == HashAt(root, path) && Shows(v, h) && b < 16 && v.branches[b]
    ensures ok ==> IsFan(h) && r == Plus(report, WalkedChild(env, h, path, b))
    decreases h, 0, 0
  {
    assert IsFan(h);
    HashAtChild(root, path, b);
    var kid := v.hashes[b];
    var entry := MissingNode(kid, |path| + 1, h, b, path + [b]);
    var found := Resolved(env, path + [b], kid);
    if found.Some? {
      ok, r := CheckNode(env, root, kid, path + [b], found.value, report);
    } else if kid in env.durable || kid in env.staged {
      return true, report.(corrupt := report.corrupt + [entry]);
    } else {
      return true, report.(missing := report.missing + [entry]);
    }
  }

  // ---------------------------------------------- what it says of complete maps

  /** Attached nodes hang together: a node is attached under an attached inner node that
      has its branch set. */
  ghost predicate Rooted(env: Env) {
    forall p :: p in env.attached && p != [] ==>
      var up := p[..|p| - 1];
      up in env.attached && IsFan(env.attached[up].hash) && Shown(AttachedView(env.attached[up]), BranchOf(p))
  }

  /** A set branch with a zero hash and nothing attached there: a reference no store can
      resolve. Only a node received in the compressed encoding can have one. */
  ghost predicate Phantom(env: Env, path: seq<Nibble>, b: nat) {
    && b < 16 && path in env.attached && IsFan(env.attached[path].hash)
    && Shown(AttachedView(env.attached[path]), b) && env.attached[path].hash.pre.kids[b].Zero?
    && path + [b] !in env.attached
  }

  ghost predicate NoPhantom(env: Env) {
    forall p, b: Nibble :: p in env.attached ==> !Phantom(env, p, b)
  }

  /** An inner node without children. Its record decodes for a traversal, but would
      materialize to a node with another hash. */
  predicate Hollow(h: Hash) {
    IsFan(h) && forall i :: 0 <= i < 16 ==> h.pre.kids[i].Zero?
  }

  /** No hollow node has to be read from the store below a position. */
  ghost predicate NoHollow(env: Env, h: Hash, path: seq<Nibble>)
    decreases h
  {
    IsFan(h) ==> forall b: Nibble :: !h.pre.kids[b].Zero? ==>
      (path + [b] in env.attached || !Hollow(h.pre.kids[b])) && NoHollow(env, h.pre.kids[b], path + [b])
  }

  lemma {:induction false} NoGaps(env: Env, root: Hash, path: seq<Nibble>, v: View, b: nat)
    requires EnvOk(env, root) && NoPhantom(env) && IsFan(HashAt(root, path)) && Closed(HashAt(root, path), env.durable)
    requires NoHollow(env, HashAt(root, path), path) && Resolved(env, path, HashAt(root, path)) == Some(v) && b <= 16
    ensures Clean(WalkedKids(env, HashAt(root, path), path, v, b))
    decreases HashAt(root, path), 16 - b
  {
    if b < 16 {
      NoGaps(env, root, path, v, b + 1);
      if Shown(v, b) {
        NoChildGaps(env, root, path, v, b);
      }
    }
  }

  lemma {:induction false} NoChildGaps(env: Env, root: Hash, path: seq<Nibble>, v: View, b: nat)
    requires EnvOk(env, root) && NoPhantom(env) && IsFan(HashAt(root, path)) && Closed(HashAt(root, path), env.durable)
    requires NoHollow(env, HashAt(root, path), path) && Resolved(env, path, HashAt(root, path)) == Some(v) && b < 16
      && Shown(v, b)
    ensures Clean(WalkedChild(env, HashAt(root, path), path, b))
    decreases HashAt(root, path), 0
  {
    var h := HashAt(root, path);
    var kid := h.pre.kids[b];
    HashAtChild(root, path, b);
    assert Closed(kid, env.durable);
    if kid.Zero? {
      assert path in env.attached;
      assert !Phantom(env, path, b);
    } else {
      var c: Nibble := b;
      assert path + [c] in env.attached || !Hollow(h.pre.kids[c]);
    }
    if IsFan(kid) {
      NoGaps(env, root, path + [b], Resolved(env, path + [b], kid).value, 0);
    }
  }

  lemma {:induction false} RootedAt(env: Env, p: seq<Nibble>)
    requires Rooted(env) && p in env.attached && p != []
    ensures var up := p[..|p| - 1];
      up in env.attached && IsFan(env.attached[up].hash) && Shown(AttachedView(env.attached[up]), BranchOf(p))
  {
  }

  lemma {:induction false} CleanChild(env: Env, h: Hash, path: seq<Nibble>, b: nat)
    requires IsFan(h) && b < 16 && Clean(WalkedChild(env, h, path, b))
    requires path + [b] in env.attached ==> env.attached[path + [b]].hash == h.pre.kids[b]
    ensures var kid := h.pre.kids[b];
      var r := Resolved(env, path + [b], kid);
      r.Some? && (IsFan(kid) ==> Clean(WalkedKids(env, kid, path + [b], r.value, 0)))
  {
    hide WalkedKids;
  }

  /** If nothing is reported, nothing is reported below any attached node. */
  lemma {:induction false} NoGapsBelow(env: Env, root: Hash, path: seq<Nibble>)
    requires EnvOk(env, root) && Rooted(env) && path in env.attached && IsFan(HashAt(root, path)) && IsFan(root)
    requires Clean(WalkedKids(env, root, [], AttachedView(env.attached[[]]), 0))
    ensures Clean(WalkedKids(env, HashAt(root, path), path, AttachedView(env.attached[path]), 0))
    decreases |path|
  {
    hide Rooted;
    if path != [] {
      var up, b := path[..|path| - 1], path[|path| - 1];
      RootedAt(env, path);
      assert HashAt(root, up) == env.attached[up].hash;
      NoGapsBelow(env, root, up);
      CleanPart(env, HashAt(root, up), up, AttachedView(env.attached[up]), 0, b);
      assert up + [b] == path;
      HashAtChild(root, up, b);
      CleanChild(env, HashAt(root, up), up, b);
    } else {
      assert HashAt(root, []) == root;
    }
  }

  lemma {:induction false} CleanPart(env: Env, h: Hash, path: seq<Nibble>, v: View, b: nat, c: nat)
    requires IsFan(h) && b <= c < 16 && Shown(v, c) && Clean(WalkedKids(env, h, path, v, b))
    ensures Clean(WalkedChild(env, h, path, c))
    decreases c - b
  {
    if b < c {
      CleanPart(env, h, path, v, b + 1, c);
    }
  }

  /** If nothing is reported below a node, no hollow node was read there. */
  lemma {:induction false} CleanIsNotHollow(env: Env, root: Hash, path: seq<Nibble>, v: View)
    requires EnvOk(env, root) && Resolved(env, path, HashAt(root, path)) == Some(v)
    requires IsFan(HashAt(root, path)) ==> Clean(WalkedKids(env, HashAt(root, path), path, v, 0))
    ensures NoHollow(env, HashAt(root, path), path)
    decreases HashAt(root, path)
  {
    var h := HashAt(root, path);
    ResolvedShows(env, root, path, h);
    hide WalkedKids, WalkedChild, Clean, Resolved;
    if IsFan(h) {
      forall b: Nibble | !h.pre.kids[b].Zero?
        ensures (path + [b] in env.attached || !Hollow(h.pre.kids[b])) && NoHollow(env, h.pre.kids[b], path + [b])
      {
        CleanPart(env, h, path, v, 0, b);
        HashAtChild(root, path, b);
        CleanChild(env, h, path, b);
        CleanIsNotHollow(env, root, path + [b], Resolved(env, path + [b], h.pre.kids[b]).value);
      }
    }
  }

  /** For a root whose nodes are all in the durable store, as they are when the scanner
      has returned Complete, the reference walk reports nothing exactly when no attached
      node has a branch set for which there is no child, and no inner node without
      children has to be read from the store. */
  lemma {:induction false} CompleteHasNoGaps(env: Env, root: Hash)
    requires EnvOk(env, root) && Rooted(env) && IsFan(root) && Closed(root, env.durable)
    ensures Clean(Walked(env, root, [], AttachedView(env.attached[[]]))) <==> NoPhantom(env) && NoHollow(env, root, [])
  {
    assert HashAt(root, []) == root;
    var v := AttachedView(env.attached[[]]);
    if NoPhantom(env) && NoHollow(env, root, []) {
      NoGaps(env, root, [], v, 0);
    }
    if Clean(WalkedKids(env, root, [], v, 0)) {
      CleanIsNotHollow(env, root, [], v);
      forall p, b: Nibble | p in env.attached
        ensures !Phantom(env, p, b)
      {
        if Phantom(env, p, b) {
          NoGapsBelow(env, root, p);
          CleanPart(env, HashAt(root, p), p, AttachedView(env.attached[p]), 0, b);
          HashAtChild(root, p, b);
        }
      }
    }
  }

  /** For the root hash of a map the code itself builds, only branches set without a hash
      can make the reference walk disagree with the scanner. */
  lemma {:induction false} CanonicalHasNoGaps(env: Env, kind: LeafKind, t: Tree)
    requires CanonicalRoot(t) && IsFan(HashOf(kind, t)) && EnvOk(env, HashOf(kind, t)) && Rooted(env)
    requires Closed(HashOf(kind, t), env.durable)
    ensures Clean(Walked(env, HashOf(kind, t), [], AttachedView(env.attached[[]]))) <==> NoPhantom(env)
  {
    hide EnvOk, Rooted, Closed, Walked, NoPhantom, Clean;
    CompleteHasNoGaps(env, HashOf(kind, t));
    CanonicalIsNotHollow(env, kind, t, [], []);
  }

  /** No map the code itself builds has a hollow node. */
  lemma {:induction false} CanonicalIsNotHollow(env: Env, kind: LeafKind, t: Tree, path: seq<Nibble>, at: seq<Nibble>)
    requires Canonical(t, path)
    ensures NoHollow(env, HashOf(kind, t), at)
    decreases t
  {
    if t.Inner? && !AllEmpty(t.kids) {
      forall b: Nibble | !HashOf(kind, t).pre.kids[b].Zero?
        ensures !Hollow(HashOf(kind, t).pre.kids[b]) && NoHollow(env, HashOf(kind, t).pre.kids[b], at + [b])
      {
        CanonicalIsNotHollow(env, kind, t.kids[b], path + [b], at + [b]);
        KidIsNotHollow(kind, t.kids[b], path + [b]);
      }
    }
  }

  lemma {:induction false} KidIsNotHollow(kind: LeafKind, t: Tree, path: seq<Nibble>)
    requires Canonical(t, path) && path != []
    ensures !Hollow(HashOf(kind, t))
  {
    if t.Inner? {
      CanonicalFanNotEmpty(t, path);
      var i :| 0 <= i < 16 && t.kids[i] != Empty;
      ZeroMeansEmpty(kind, t.kids[i], path + [i]);
      assert HashOf(kind, t).pre.kids[i] == HashOf(kind, t.kids[i]);
    }
  }

  /** A root with one leaf, all in the store, that was received with a second branch set:
      complete for the scanner, with something missing for the reference walk. */
  lemma {:induction false} PhantomDisagrees(leaf: Hash)
    requires leaf.Digest? && leaf.pre.LeafPre? && Decodable(leaf.pre)
    ensures var root := Digest(InnerPre(NO_HASHES[0 := leaf]));
      var env := Env({root, leaf}, {}, map[[] := Attached(root, NO_BITS[0 := true][1 := true])]);
      && EnvOk(env, root) && Closed(root, env.durable)
      && !Clean(Walked(env, root, [], AttachedView(env.attached[[]])))
  {
    var root := Digest(InnerPre(NO_HASHES[0 := leaf]));
    var env := Env({root, leaf}, {}, map[[] := Attached(root, NO_BITS[0 := true][1 := true])]);
    assert env.attached[[]].branches[0] && HashAt(root, []) == root;
    hide Walked, Clean, NoHollow;
    assert Phantom(env, [], 1);
    CompleteHasNoGaps(env, root);
  }

  /** A root over an inner record without children: complete for the scanner, corrupt for
      the reference walk. */
  lemma {:induction false} HollowDisagrees()
    ensures var hollow := Digest(InnerPre(NO_HASHES));
      var root := Digest(InnerPre(NO_HASHES[0 := hollow]));
      var env := Env({root, hollow}, {}, map[[] := Attached(root, NO_BITS[0 := true])]);
      && EnvOk(env, root) && Closed(root, env.durable)
      && !Clean(Walked(env, root, [], AttachedView(env.attached[[]])))
  {
    var hollow := Digest(InnerPre(NO_HASHES));
    var root := Digest(InnerPre(NO_HASHES[0 := hollow]));
    var env := Env({root, hollow}, {}, map[[] := Attached(root, NO_BITS[0 := true])]);
    assert env.attached[[]].branches[0] && HashAt(root, []) == root;
    hide Walked, Clean;
    assert root.pre.kids[0] == hollow && Hollow(hollow) && [] + [0] !in env.attached;
    assert !NoHollow(env, root, []);
    CompleteHasNoGaps(env, root);
  }
}
