/** What the steps of a lane keep. A frame flagged full has everything it passed
    available, one flagged stored has it in the durable store, and every remembered
    complete branch is in the durable store. */
module ScanSound {
  import opened KeyPath
  import opened Trie
  import opened Hashing
  import opened ScanModel

  // ------------------------------------------------------- available and stored

  /** What is completely in the durable store can all be loaded. */
  lemma {:induction false} StoredIsPresent(env: Env, h: Hash, path: seq<Nibble>)
    requires Stored(h, env.durable)
    ensures Present(env, h, path)
    decreases h
  {
    if IsFan(h) {
      forall b: Nibble | Shown(ViewAt(env, path, h).value, b)
        ensures Present(env, h.pre.kids[b], path + [b])
      {
        assert Closed(h.pre.kids[b], env.durable);
        StoredIsPresent(env, h.pre.kids[b], path + [b]);
      }
    }
  }

  lemma {:induction false} PresentLater(env: Env, env': Env, root: Hash, path: seq<Nibble>)
    requires Later(env, env', root) && Present(env, HashAt(root, path), path)
    ensures Present(env', HashAt(root, path), path)
    decreases HashAt(root, path)
  {
    var h := HashAt(root, path);
    if IsFan(h) {
      forall b: Nibble | Shown(ViewAt(env', path, h).value, b)
        ensures Present(env', h.pre.kids[b], path + [b])
      {
        HashAtChild(root, path, b);
        PresentLater(env, env', root, path + [b]);
      }
    }
  }

  /** Every node that is attached or staged has reached the durable store. */
  predicate Persisted(env: Env) {
    && env.staged <= env.durable
    && forall p :: p in env.attached ==> env.attached[p].hash.Zero? || env.attached[p].hash in env.durable
  }

  /** After a persistence barrier, what can be loaded is completely in the durable
      store. */
  lemma {:induction false} PresentIsClosed(env: Env, root: Hash, path: seq<Nibble>)
    requires EnvOk(env, root) && Persisted(env) && Present(env, HashAt(root, path), path)
    ensures Closed(HashAt(root, path), env.durable)
    decreases HashAt(root, path)
  {
    var h := HashAt(root, path);
    ViewShows(env, root, path, h);
    assert h in env.durable || h.Zero?;
    if IsFan(h) {
      forall i | 0 <= i < 16
        ensures Closed(h.pre.kids[i], env.durable)
      {
        HashAtChild(root, path, i);
        if h.pre.kids[i] != Zero {
          assert Shown(ViewAt(env, path, h).value, i);
          PresentIsClosed(env, root, path + [i]);
        }
      }
    }
  }

  // ------------------------------------------------------------ proofs and bases

  /** Every branch a proof node calls complete is in the durable store. */
  ghost predicate ProofOk(p: Proof, h: Hash, s: set<Hash>)
    decreases p
  {
    && |p.children| == |p.complete| == 16
    && (forall b :: 0 <= b < 16 && p.complete[b] ==> IsFan(h) && Stored(h.pre.kids[b], s))
    && (forall b :: 0 <= b < 16 && p.children[b].Some? ==> IsFan(h) && ProofOk(p.children[b].value, h.pre.kids[b], s))
  }

  ghost predicate ProofsOk(p: Option<Proof>, h: Hash, s: set<Hash>) {
    p.Some? ==> ProofOk(p.value, h, s)
  }

  lemma {:induction false} ProofGrows(p: Proof, h: Hash, s: set<Hash>, s': set<Hash>)
    requires ProofOk(p, h, s) && s <= s'
    ensures ProofOk(p, h, s')
    decreases p
  {
    forall b | 0 <= b < 16 && p.complete[b]
      ensures IsFan(h) && Stored(h.pre.kids[b], s')
    {
      ClosedGrows(h.pre.kids[b], s, s');
    }
    forall b | 0 <= b < 16 && p.children[b].Some?
      ensures IsFan(h) && ProofOk(p.children[b].value, h.pre.kids[b], s')
    {
      ProofGrows(p.children[b].value, h.pre.kids[b], s, s');
    }
  }

  ghost predicate BaseOk(f: Frame, s: set<Hash>)
    requires Shaped(f)
  {
    && (f.item.baseHash != Zero ==> Stored(f.item.baseHash, s))
    && (forall b :: 0 <= b < 16 && f.baseView.inner && f.baseView.branches[b] ==> Stored(f.baseView.hashes[b], s))
  }

  /** The children of a stored base node are stored. */
  lemma {:induction false} BaseViewOk(h: Hash, s: set<Hash>, b: nat)
    requires Stored(h, s) && b < 16 && DecodedView(h).inner && DecodedView(h).branches[b]
    ensures Stored(DecodedView(h).hashes[b], s)
  {
    assert IsFan(h) && Closed(h.pre.kids[b], s);
    assert !h.pre.kids[b].Foreign?;
  }

  // -------------------------------------------------------------------- frames

  /** The branches a frame is done with. The one before `next` is still open when a
      child frame works on it. */
  function Passed(f: Frame, open: bool): int {
    if open then f.next - 1 else f.next
  }

  /** The frame stands at its position. */
  ghost predicate Placed(f: Frame, root: Hash) {
    f.item.hash == HashAt(root, f.item.path)
  }

  /** A frame not yet loaded, or with nothing below it, shows no branch; a loaded one
      shows at least the branches the sources show now. */
  ghost predicate ViewOk(env: Env, f: Frame) {
    && (!f.loaded ==>
          && !f.full && !f.stored && f.next == 0 && f.view == NO_VIEW && f.complete == NO_BITS
          && f.baseView == NO_VIEW)
    && (f.view == NO_VIEW ||
        (&& Shows(f.view, f.item.hash) && ViewAt(env, f.item.path, f.item.hash).Some?
         && forall b: nat :: Shown(ViewAt(env, f.item.path, f.item.hash).value, b) ==> Shown(f.view, b)))
  }

  ghost predicate FullOk(env: Env, f: Frame, open: bool)
    requires Shaped(f)
  {
    f.loaded && f.full ==>
      && (f.view == NO_VIEW ==> Present(env, f.item.hash, f.item.path))
      && (forall b: Nibble :: b < Passed(f, open) && f.view.branches[b] ==>
        Present(env, f.view.hashes[b], f.item.path + [b]))
  }

  ghost predicate StoredOk(f: Frame, open: bool, s: set<Hash>)
    requires Shaped(f)
  {
    f.loaded && f.stored ==>
      && f.full && f.item.hash in s && f.item.hash.Digest?
      && (f.view == NO_VIEW ==> Closed(f.item.hash, s))
      && (forall b :: 0 <= b < Passed(f, open) && b < 16 && f.view.branches[b] ==> Closed(f.view.hashes[b], s))
  }

  ghost predicate BitsOk(f: Frame, s: set<Hash>)
    requires Shaped(f)
  {
    forall b :: 0 <= b < 16 && f.complete[b] ==> IsFan(f.item.hash) && Stored(f.item.hash.pre.kids[b], s)
  }

  /** What holds of every frame of a lane; `open` says a child frame stands above. */
  ghost predicate FrameOk(env: Env, root: Hash, f: Frame, open: bool) {
    && Shaped(f) && Placed(f, root) && ViewOk(env, f)
    && FullOk(env, f, open) && StoredOk(f, open, env.durable)
    && BitsOk(f, env.durable) && BaseOk(f, env.durable)
    && ProofsOk(f.proof, f.item.hash, env.durable)
  }

  /** The frame f works on the branch its parent p handed out last. */
  ghost predicate Linked(p: Frame, f: Frame) {
    && p.loaded && 1 <= p.next <= 16 && Shaped(p)
    && p.view.branches[p.next - 1]
    && f.item == ChildItem(p, p.next - 1)
    && (p.proof.None? ==> f.proof.None?)
    && (p.proof.Some? ==> p.proof.value.children[p.next - 1].None?)
  }

  /** What holds of every lane. */
  ghost predicate LaneOk(env: Env, root: Hash, l: Lane) {
    && StackOk(env, root, l.stack)
    && l.root.hash == HashAt(root, l.root.path) && l.root.parentHash == root
    && (l.root.baseHash != Zero ==> Stored(l.root.baseHash, env.durable))
    && ProofsOk(l.proof, l.root.hash, env.durable)
    && (l.proof.Some? ==> ProofShaped(l.proof.value))
    && (l.stack != [] ==> l.started && l.stack[0].item == l.root && l.proof.None? && !l.complete)
    && (!l.incomplete ==> forall j :: 0 <= j < |l.stack| && l.stack[j].loaded ==> l.stack[j].full)
    && (l.started && l.stack == [] ==> Settled(env, l))
    && (l.complete ==> l.root.hash.Zero? || (Settled(env, l) && !l.incomplete))
    && (l.hint.Some? ==> l.complete && l.hint.value == l.root.hash && !l.root.hash.Zero?)
  }

  /** What a lane that has walked its whole subtree knows. */
  ghost predicate Settled(env: Env, l: Lane) {
    && (!l.incomplete ==> Present(env, l.root.hash, l.root.path))
    && (l.durable ==> Closed(l.root.hash, env.durable))
  }

  ghost predicate StackOk(env: Env, root: Hash, stack: seq<Frame>) {
    && (forall j :: 0 <= j < |stack| ==> FrameOk(env, root, stack[j], j < |stack| - 1))
    && Links(stack)
  }

  // -------------------------------------------------------- steps keep a frame

  lemma {:induction false} NewFrameOk(env: Env, root: Hash, i: Item, proof: Option<Proof>)
    requires i.hash == HashAt(root, i.path) && (i.baseHash != Zero ==> Stored(i.baseHash, env.durable))
    requires ProofsOk(proof, i.hash, env.durable) && (proof.Some? ==> ProofShaped(proof.value))
    ensures FrameOk(env, root, NewFrame(i, proof), false)
  {
  }

  /** Skipping a frame whose subtree is stored, on the word of the cache or because the
      verified base has the same hash there. */
  lemma {:induction false} SkippedOk(env: Env, root: Hash, f: Frame, viaBase: bool)
    requires FrameOk(env, root, f, false) && !f.loaded && Stored(f.item.hash, env.durable)
    ensures FrameOk(env, root, Skipped(f, viaBase), false)
  {
    StoredIsPresent(env, f.item.hash, f.item.path);
  }

  lemma {:induction false} MissedOk(env: Env, root: Hash, f: Frame)
    requires FrameOk(env, root, f, false) && !f.loaded
    ensures FrameOk(env, root, Missed(f), false)
  {
  }

  /** Loading a frame from the sources. The base is consulted when it has a node
      there. */
  lemma {:induction false} LoadedOk(env: Env, root: Hash, f: Frame, baseView: View)
    requires FrameOk(env, root, f, false) && !f.loaded && EnvOk(env, root)
    requires ViewAt(env, f.item.path, f.item.hash).Some? && !Spoilt(env, f.item.hash)
    requires baseView == NO_VIEW || (f.item.baseHash != Zero && baseView == DecodedView(f.item.baseHash))
    ensures FrameOk(env, root,
                    Loaded(f, ViewAt(env, f.item.path, f.item.hash).value, f.item.hash in env.durable, baseView), false)
  {
    var v := ViewAt(env, f.item.path, f.item.hash).value;
    ViewShows(env, root, f.item.path, f.item.hash);
    var f' := Loaded(f, v, f.item.hash in env.durable, baseView);
    forall b | 0 <= b < 16 && f'.baseView.inner && f'.baseView.branches[b]
      ensures Stored(f'.baseView.hashes[b], env.durable)
    {
      BaseViewOk(f.item.baseHash, env.durable, b);
    }
    if v == NO_VIEW {
      NoBranches(env, root, f.item.path);
    }
  }

  /** A node that shows no branches has nothing below it. */
  lemma {:induction false} NoBranches(env: Env, root: Hash, path: seq<Nibble>)
    requires EnvOk(env, root)
    requires ViewAt(env, path, HashAt(root, path)) == Some(NO_VIEW)
    ensures Present(env, HashAt(root, path), path)
    ensures HashAt(root, path) in env.durable ==> Closed(HashAt(root, path), env.durable)
  {
    var h := HashAt(root, path);
    ViewShows(env, root, path, h);
    assert forall b: nat :: !Shown(NO_VIEW, b);
  }

  /** The frame has no branch left to visit. */
  predicate Exhausted(f: Frame)
    requires |f.view.branches| == |f.complete| == 16
  {
    f.loaded && forall b :: f.next <= b < 16 && f.view.branches[b] ==> f.complete[b]
  }

  /** A full frame that has visited everything: all below its position can be loaded,
      and is in the durable store if the frame is flagged stored. */
  lemma {:induction false} FrameDone(env: Env, root: Hash, f: Frame)
    requires FrameOk(env, root, f, false) && f.full && Exhausted(f)
    ensures Present(env, f.item.hash, f.item.path)
    ensures f.stored ==> Stored(f.item.hash, env.durable)
  {
    var h := f.item.hash;
    if f.view != NO_VIEW && IsFan(h) {
      forall b: Nibble | Shown(ViewAt(env, f.item.path, h).value, b)
        ensures Present(env, h.pre.kids[b], f.item.path + [b])
      {
        assert Shown(f.view, b);
        if b >= f.next {
          StoredIsPresent(env, h.pre.kids[b], f.item.path + [b]);
        }
      }
      FanStored(f, env.durable);
    }
  }

  lemma {:induction false} FanStored(f: Frame, s: set<Hash>)
    requires Shaped(f) && IsFan(f.item.hash) && Shows(f.view, f.item.hash) && Exhausted(f)
    requires StoredOk(f, false, s) && BitsOk(f, s)
    ensures f.stored ==> Stored(f.item.hash, s)
  {
    if f.stored {
      forall i | 0 <= i < 16
        ensures Closed(f.item.hash.pre.kids[i], s)
      {
        if f.item.hash.pre.kids[i] != Zero {
          assert f.view.branches[i];
        }
      }
    }
  }

  /** Handing out a branch leaves it open. */
  lemma {:induction false} HandedOk(env: Env, root: Hash, f: Frame, b: nat)
    requires FrameOk(env, root, f, false) && f.loaded && f.next <= b < 16
    requires b == NextBranch(f, f.next)
    ensures FrameOk(env, root, Handed(f, b), true)
  {
    var f' := Handed(f, b);
    assert f.view != NO_VIEW;
    assert FullOk(env, f', true) by {
      forall c: Nibble | f.full && c < b && f.view.branches[c]
        ensures Present(env, f.view.hashes[c], f.item.path + [c])
      {
        if f.next <= c {
          assert f.complete[c];
          StoredIsPresent(env, f.item.hash.pre.kids[c], f.item.path + [c]);
        }
      }
    }
    assert StoredOk(f', true, env.durable) by {
      assert forall c :: f.next <= c < b && f.view.branches[c] ==> f.complete[c];
    }
  }

  lemma {:induction false} ChildFrameOk(env: Env, root: Hash, f: Frame, b: nat)
    requires FrameOk(env, root, f, false) && f.loaded && f.next <= b < 16 && f.view.branches[b]
    ensures FrameOk(env, root, ChildFrame(f, b), false)
  {
    assert f.view != NO_VIEW;
    assert Shows(f.view, f.item.hash);
    HashAtChild(root, f.item.path, b);
    NewFrameOk(env, root, ChildItem(f, b), ProofChild(f.proof, b));
  }

  lemma {:induction false} ChildFrameLinked(f: Frame, b: nat)
    requires Shaped(f) && f.loaded && b < 16 && f.view.branches[b]
    ensures Linked(Handed(f, b), ChildFrame(f, b))
  {
    var p := Handed(f, b);
    assert p.proof.Some? ==> p.proof.value.children == f.proof.value.children[b := None];
    assert p.proof.Some? ==> ProofShaped(p.proof.value);
  }

  /** The parent's frame stays sound when its child is popped. */
  lemma {:induction false} AbsorbOk(env: Env, root: Hash, p: Frame, f: Frame)
    requires FrameOk(env, root, p, true) && Linked(p, f) && FrameOk(env, root, f, false)
    requires f.full ==> Exhausted(f)
    ensures FrameOk(env, root, Absorb(p, f, p.next - 1), false)
  {
    var b := p.next - 1;
    var p' := Absorb(p, f, b);
    assert p.view != NO_VIEW;
    assert IsFan(p.item.hash);
    HashAtChild(root, p.item.path, b);
    if f.full {
      FrameDone(env, root, f);
    }
    AbsorbBits(p, f, b, env.durable);
    AbsorbFull(env, p, f);
  }

  lemma {:induction false} AbsorbBits(p: Frame, f: Frame, b: nat, s: set<Hash>)
    requires Shaped(p) && Shaped(f) && BitsOk(p, s) && b < 16
    requires ProofsOk(p.proof, p.item.hash, s) && ProofsOk(f.proof, f.item.hash, s)
    requires IsFan(p.item.hash) && f.item.hash == p.item.hash.pre.kids[b]
    requires f.full && f.stored ==> Stored(f.item.hash, s)
    ensures Shaped(Absorb(p, f, b)) && BitsOk(Absorb(p, f, b), s)
    ensures ProofsOk(Absorb(p, f, b).proof, p.item.hash, s)
  {
    var p' := Absorb(p, f, b);
    if p'.proof.Some? && !f.full {
      assert p'.proof.value.children == p.proof.value.children[b := f.proof];
    }
  }

  lemma {:induction false} AbsorbFull(env: Env, p: Frame, f: Frame)
    requires Shaped(p) && p.view != NO_VIEW && p.loaded && 1 <= p.next && Shaped(Absorb(p, f, p.next - 1))
    requires f.item.hash == p.view.hashes[p.next - 1] && f.item.path == p.item.path + [p.next - 1]
    requires FullOk(env, p, true) && StoredOk(p, true, env.durable)
    requires f.stored ==> f.full
    requires f.full ==> Present(env, f.item.hash, f.item.path)
    requires f.full && f.stored ==> Stored(f.item.hash, env.durable)
    ensures FullOk(env, Absorb(p, f, p.next - 1), false)
    ensures StoredOk(Absorb(p, f, p.next - 1), false, env.durable)
  {
  }

  // --------------------------------------------------------- steps keep a lane

  /** The top frame may be replaced by a sound one on the same item. */
  lemma {:induction false} StackTop(env: Env, root: Hash, stack: seq<Frame>, f: Frame)
    requires StackOk(env, root, stack) && stack != [] && FrameOk(env, root, f, false)
    requires f.item == stack[|stack| - 1].item
    requires stack[|stack| - 1].proof.None? ==> f.proof.None?
    ensures StackOk(env, root, stack[..|stack| - 1] + [f])
  {
    var n := |stack|;
    var t := stack[..n - 1] + [f];
    forall j | 0 <= j < n
      ensures FrameOk(env, root, t[j], j < n - 1)
    {
      assert j < n - 1 ==> t[j] == stack[j] && FrameOk(env, root, stack[j], j < n - 1);
    }
    forall j | 0 <= j < n - 1
      ensures Linked(t[j], t[j + 1])
    {
      assert Linked(stack[j], stack[j + 1]);
    }
  }

  lemma {:induction false} StackPush(env: Env, root: Hash, stack: seq<Frame>, p: Frame, f: Frame)
    requires StackOk(env, root, stack) && stack != []
    requires FrameOk(env, root, p, true) && FrameOk(env, root, f, false) && Linked(p, f)
    requires p.item == stack[|stack| - 1].item
    requires stack[|stack| - 1].proof.None? ==> p.proof.None?
    ensures StackOk(env, root, stack[..|stack| - 1] + [p, f])
  {
    var n := |stack|;
    var t := stack[..n - 1] + [p, f];
    LinksPush(stack, p, f);
    forall j | 0 <= j < n + 1
      ensures FrameOk(env, root, t[j], j < n)
    {
      if j < n - 1 {
        assert FrameOk(env, root, stack[j], j < n - 1);
      }
    }
  }

  ghost predicate Links(stack: seq<Frame>) {
    forall j :: 0 <= j < |stack| - 1 ==> Linked(stack[j], stack[j + 1])
  }

  lemma {:induction false} LinksPush(stack: seq<Frame>, p: Frame, f: Frame)
    requires Links(stack) && stack != [] && Linked(p, f)
    requires p.item == stack[|stack| - 1].item
    requires stack[|stack| - 1].proof.None? ==> p.proof.None?
    ensures Links(stack[..|stack| - 1] + [p, f])
  {
    var n := |stack|;
    var t := stack[..n - 1] + [p, f];
    forall j | 0 <= j < n
      ensures Linked(t[j], t[j + 1])
    {
      assert j < n - 1 ==> Linked(stack[j], stack[j + 1]);
    }
  }

  /** The stack below the top, as a stack of its own except for the open branch. */
  lemma {:induction false} StackPop(env: Env, root: Hash, stack: seq<Frame>, p: Frame)
    requires StackOk(env, root, stack) && |stack| >= 2
    requires FrameOk(env, root, p, false) && p.item == stack[|stack| - 2].item
    requires stack[|stack| - 2].proof.None? ==> p.proof.None?
    ensures StackOk(env, root, stack[..|stack| - 2] + [p])
  {
    var n := |stack|;
    var t := stack[..n - 2] + [p];
    forall j | 0 <= j < n - 1
      ensures FrameOk(env, root, t[j], j < n - 2)
    {
      assert j < n - 2 ==> t[j] == stack[j] && FrameOk(env, root, stack[j], j < n - 1);
    }
    forall j | 0 <= j < n - 2
      ensures Linked(t[j], t[j + 1])
    {
      assert Linked(stack[j], stack[j + 1]);
    }
  }

  lemma {:induction false} LaneTop(env: Env, root: Hash, l: Lane, f: Frame)
    requires LaneOk(env, root, l) && l.stack != [] && FrameOk(env, root, f, false)
    requires f.item == Top(l).item && f.proof == Top(l).proof && (l.incomplete || f.full)
    ensures LaneOk(env, root, SetTop(l, f))
  {
    StackTop(env, root, l.stack, f);
  }

  lemma {:induction false} SkipOk(env: Env, root: Hash, l: Lane, viaBase: bool)
    requires LaneOk(env, root, l) && l.stack != [] && !Top(l).loaded && Stored(Top(l).item.hash, env.durable)
    ensures LaneOk(env, root, SetTop(l, Skipped(Top(l), viaBase)))
  {
    SkippedOk(env, root, Top(l), viaBase);
    LaneTop(env, root, l, Skipped(Top(l), viaBase));
  }

  lemma {:induction false} LoadOk(env: Env, root: Hash, l: Lane, v: View, baseView: View)
    requires LaneOk(env, root, l) && l.stack != [] && !Top(l).loaded && EnvOk(env, root)
    requires ViewAt(env, Top(l).item.path, Top(l).item.hash) == Some(v) && !Spoilt(env, Top(l).item.hash)
    requires baseView == NO_VIEW || (Top(l).item.baseHash != Zero && baseView == DecodedView(Top(l).item.baseHash))
    ensures LaneOk(env, root, SetTop(l, Loaded(Top(l), v, Top(l).item.hash in env.durable, baseView)))
  {
    LoadedOk(env, root, Top(l), baseView);
    LaneTop(env, root, l, Loaded(Top(l), v, Top(l).item.hash in env.durable, baseView));
  }

  lemma {:induction false} MissOk(env: Env, root: Hash, l: Lane)
    requires LaneOk(env, root, l) && l.stack != [] && !Top(l).loaded
    ensures LaneOk(env, root, SetTop(l.(incomplete := true), Missed(Top(l))))
  {
    MissedOk(env, root, Top(l));
    LaneTop(env, root, l.(incomplete := true), Missed(Top(l)));
  }

  lemma {:induction false} PushOk(env: Env, root: Hash, l: Lane, b: nat)
    requires LaneOk(env, root, l) && l.stack != [] && Top(l).loaded && b < 16 && b == NextBranch(Top(l), Top(l).next)
    ensures LaneOk(env, root, Push(l, b))
  {
    HandedOk(env, root, Top(l), b);
    ChildFrameOk(env, root, Top(l), b);
    ChildFrameLinked(Top(l), b);
    StackPush(env, root, l.stack, Handed(Top(l), b), ChildFrame(Top(l), b));
    PushLane(env, root, l, b);
  }

  lemma {:induction false} PushLane(env: Env, root: Hash, l: Lane, b: nat)
    requires LaneOk(env, root, l) && l.stack != [] && Top(l).loaded && b < 16
    requires StackOk(env, root, Push(l, b).stack)
    ensures LaneOk(env, root, Push(l, b))
  {
  }

  /** Popping the top frame keeps the lane sound, and its mark may be published. */
  lemma {:induction false} FinishOk(env: Env, root: Hash, l: Lane)
    requires LaneOk(env, root, l) && l.stack != [] && Top(l).loaded
    requires Top(l).full ==> Exhausted(Top(l))
    ensures |l.stack| > 1 ==> Linked(l.stack[|l.stack| - 2], Top(l))
    ensures LaneOk(env, root, Finish(l))
    ensures FinishMark(Top(l)).Some? ==> Stored(FinishMark(Top(l)).value, env.durable)
  {
    if Top(l).full {
      FrameDone(env, root, Top(l));
    }
    if |l.stack| > 1 {
      FinishUp(env, root, l);
    }
  }

  lemma {:induction false} FinishUp(env: Env, root: Hash, l: Lane)
    requires LaneOk(env, root, l) && |l.stack| > 1 && Top(l).loaded
    requires Top(l).full ==> Exhausted(Top(l))
    ensures Linked(l.stack[|l.stack| - 2], Top(l))
    ensures LaneOk(env, root, Finish(l))
  {
    FinishStack(env, root, l.stack);
    FinishLane(env, root, l);
  }

  lemma {:induction false} FinishStack(env: Env, root: Hash, stack: seq<Frame>)
    requires StackOk(env, root, stack) && |stack| > 1
    requires stack[|stack| - 1].full ==> Exhausted(stack[|stack| - 1])
    ensures Linked(stack[|stack| - 2], stack[|stack| - 1])
    ensures var p := stack[|stack| - 2];
      StackOk(env, root, stack[..|stack| - 2] + [Absorb(p, stack[|stack| - 1], p.next - 1)])
  {
    var n := |stack|;
    var p := stack[n - 2];
    assert Linked(p, stack[n - 2 + 1]);
    AbsorbOk(env, root, p, stack[n - 1]);
    StackPop(env, root, stack, Absorb(p, stack[n - 1], p.next - 1));
  }

  lemma {:induction false} FinishLane(env: Env, root: Hash, l: Lane)
    requires LaneOk(env, root, l) && |l.stack| > 1 && Top(l).loaded
    requires Linked(l.stack[|l.stack| - 2], Top(l))
    requires StackOk(env, root, Finish(l).stack)
    ensures LaneOk(env, root, Finish(l))
  {
    var t := Finish(l).stack;
    assert forall j :: 0 <= j < |t| - 1 ==> t[j] == l.stack[j];
  }

  /** Giving a frame below the top a proof node with the branches it knows complete. */
  lemma {:induction false} RetainOk(env: Env, root: Hash, l: Lane, i: nat)
    requires LaneOk(env, root, l) && i < |l.stack| - 1 && l.stack[i].proof.None?
    requires i > 0 ==> l.stack[i - 1].proof.Some?
    ensures LaneOk(env, root, Retain(l, i))
  {
    var t := Retain(l, i).stack;
    RetainedOk(env, root, l.stack[i]);
    RetainLinks(l, i);
    forall j | 0 <= j < |t|
      ensures FrameOk(env, root, t[j], j < |t| - 1)
    {
      assert FrameOk(env, root, l.stack[j], j < |t| - 1);
    }
  }

  lemma {:induction false} RetainedOk(env: Env, root: Hash, f: Frame)
    requires FrameOk(env, root, f, true)
    ensures FrameOk(env, root, f.(proof := Some(Proof(NO_PROOFS, f.complete))), true)
  {
    hide Present, ViewAt, Stored, Closed, Shows;
  }

  lemma {:induction false} RetainLinks(l: Lane, i: nat)
    requires Links(l.stack) && i < |l.stack| - 1 && l.stack[i].proof.None?
    requires i > 0 ==> l.stack[i - 1].proof.Some?
    ensures Links(Retain(l, i).stack)
  {
    var t := Retain(l, i).stack;
    forall j | 0 <= j < |t| - 1
      ensures Linked(t[j], t[j + 1])
    {
      assert Linked(l.stack[j], l.stack[j + 1]);
    }
  }

  lemma {:induction false} StartOk(env: Env, root: Hash, l: Lane)
    requires LaneOk(env, root, l) && !l.complete && !l.started
    ensures LaneOk(env, root, Start(l))
  {
    NewFrameOk(env, root, l.root, l.proof);
  }

  lemma {:induction false} SettleOk(env: Env, root: Hash, l: Lane)
    requires LaneOk(env, root, l) && l.stack == [] && l.started && !l.complete
    ensures LaneOk(env, root, Settle(l))
  {
  }

  lemma {:induction false} RestartOk(env: Env, root: Hash, l: Lane)
    requires LaneOk(env, root, l) && l.stack == []
    ensures LaneOk(env, root, Restart(l))
  {
  }

  lemma {:induction false} FrameLater(env: Env, env': Env, root: Hash, f: Frame, open: bool)
    requires FrameOk(env, root, f, open) && Later(env, env', root)
    ensures FrameOk(env', root, f, open)
  {
    ViewLater(env, env', root, f);
    LaterIsStillPresent(env, env', root);
    FullLater(env, env', root, f, open);
    StoredLater(env.durable, env'.durable, f, open);
    if f.proof.Some? {
      ProofGrows(f.proof.value, f.item.hash, env.durable, env'.durable);
    }
  }

  lemma {:induction false} ViewLater(env: Env, env': Env, root: Hash, f: Frame)
    requires Placed(f, root) && ViewOk(env, f) && Later(env, env', root)
    ensures ViewOk(env', f)
  {
  }

  /** What could be loaded before can be loaded after. */
  ghost predicate StillPresent(env: Env, env': Env, root: Hash) {
    forall p: seq<Nibble> :: Present(env, HashAt(root, p), p) ==> Present(env', HashAt(root, p), p)
  }

  lemma {:induction false} LaterIsStillPresent(env: Env, env': Env, root: Hash)
    requires Later(env, env', root)
    ensures StillPresent(env, env', root)
  {
    forall p: seq<Nibble> | Present(env, HashAt(root, p), p)
      ensures Present(env', HashAt(root, p), p)
    {
      PresentLater(env, env', root, p);
    }
  }

  lemma {:induction false} FullLater(env: Env, env': Env, root: Hash, f: Frame, open: bool)
    requires Shaped(f) && Placed(f, root) && StillPresent(env, env', root) && FullOk(env, f, open)
    requires f.view == NO_VIEW || Shows(f.view, f.item.hash)
    ensures FullOk(env', f, open)
  {
    if f.loaded && f.full {
      forall b: Nibble | b < Passed(f, open) && f.view.branches[b]
        ensures Present(env', f.view.hashes[b], f.item.path + [b])
      {
        HashAtChild(root, f.item.path, b);
      }
    }
  }

  lemma {:induction false} StoredLater(s: set<Hash>, s': set<Hash>, f: Frame, open: bool)
    requires Shaped(f) && StoredOk(f, open, s) && BitsOk(f, s) && BaseOk(f, s) && s <= s'
    ensures StoredOk(f, open, s') && BitsOk(f, s') && BaseOk(f, s')
  {
    forall h | Closed(h, s)
      ensures Closed(h, s')
    {
      ClosedGrows(h, s, s');
    }
  }

  lemma {:induction false} LaneLater(env: Env, env': Env, root: Hash, l: Lane)
    requires LaneOk(env, root, l) && Later(env, env', root)
    ensures LaneOk(env', root, l)
  {
    forall j | 0 <= j < |l.stack|
      ensures FrameOk(env', root, l.stack[j], j < |l.stack| - 1)
    {
      FrameLater(env, env', root, l.stack[j], j < |l.stack| - 1);
    }
    if Present(env, l.root.hash, l.root.path) {
      PresentLater(env, env', root, l.root.path);
    }
    if l.proof.Some? {
      ProofGrows(l.proof.value, l.root.hash, env.durable, env'.durable);
    }
    forall h | Closed(h, env.durable)
      ensures Closed(h, env'.durable)
    {
      ClosedGrows(h, env.durable, env'.durable);
    }
  }
}
