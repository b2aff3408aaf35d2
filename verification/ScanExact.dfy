/** What a lane still has to report. For unchanged sources, what a lane has found
    together with what its stack still holds is always the list of absent nodes below
    its root whose ancestors are all available. */
module ScanExact {
  import opened KeyPath
  import opened Trie
  import opened Hashing
  import opened ScanModel
  import opened ScanSound

  /** The absent nodes at and below a position whose ancestors from there on are all
      available, in the order of a depth-first walk. */
  ghost function Absent(env: Env, h: Hash, parent: Hash, path: seq<Nibble>): seq<MissingNode>
    decreases h, 17
  {
    var v := ViewAt(env, path, h);
    if v.None? then [MissingNode(h, |path|, parent, BranchOf(path), path)]
    else if IsFan(h) then AbsentKids(env, h, path, v.value, 0)
    else []
  }

  ghost function AbsentKids(env: Env, h: Hash, path: seq<Nibble>, v: View, b: nat): seq<MissingNode>
    requires IsFan(h) && b <= 16
    decreases h, 16 - b
  {
    if b == 16 then []
    else (if Shown(v, b) then Absent(env, h.pre.kids[b], h, path + [b]) else []) + AbsentKids(env, h, path, v, b + 1)
  }

  /** What a loaded frame has left from branch b on. */
  ghost function Rest(env: Env, f: Frame, b: nat): seq<MissingNode>
    requires Shaped(f) && b <= 16
    decreases 16 - b
  {
    if b == 16 then []
    else (if f.view.branches[b] && !f.complete[b]
          then Absent(env, f.view.hashes[b], f.item.hash, f.item.path + [b]) else [])
         + Rest(env, f, b + 1)
  }

  ghost function FrameRest(env: Env, f: Frame): seq<MissingNode>
    requires Shaped(f)
  {
    if f.loaded then Rest(env, f, f.next) else Absent(env, f.item.hash, f.item.parentHash, f.item.path)
  }

  /** What a stack has left, top frame first. */
  ghost function StackRest(env: Env, stack: seq<Frame>): seq<MissingNode>
    requires AllShaped(stack)
    decreases |stack|
  {
    if stack == [] then []
    else FrameRest(env, stack[|stack| - 1]) + StackRest(env, stack[..|stack| - 1])
  }

  /** What a lane has left in the current pass. */
  ghost function LaneRest(env: Env, l: Lane): seq<MissingNode>
    requires AllShaped(l.stack)
  {
    if l.complete then []
    else if l.started then StackRest(env, l.stack)
    else Absent(env, l.root.hash, l.root.parentHash, l.root.path)
  }

  // ------------------------------------------------------- nothing absent below

  /** Nothing is absent exactly where everything is available. */
  lemma {:induction false} PresentIsNoneAbsent(env: Env, h: Hash, parent: Hash, path: seq<Nibble>)
    ensures Present(env, h, path) <==> Absent(env, h, parent, path) == []
    decreases h, 17
  {
    var v := ViewAt(env, path, h);
    if v.Some? && IsFan(h) {
      PresentKids(env, h, path, v.value, 0);
    }
  }

  lemma {:induction false} PresentKids(env: Env, h: Hash, path: seq<Nibble>, v: View, b: nat)
    requires IsFan(h) && b <= 16
    ensures (forall c: Nibble :: b <= c && Shown(v, c) ==> Present(env, h.pre.kids[c], path + [c]))
            <==> AbsentKids(env, h, path, v, b) == []
    decreases h, 16 - b
  {
    if b < 16 {
      PresentKids(env, h, path, v, b + 1);
      PresentIsNoneAbsent(env, h.pre.kids[b], h, path + [b]);
    }
  }

  lemma {:induction false} StoredIsNoneAbsent(env: Env, h: Hash, parent: Hash, path: seq<Nibble>)
    requires Stored(h, env.durable)
    ensures Absent(env, h, parent, path) == []
  {
    StoredIsPresent(env, h, path);
    PresentIsNoneAbsent(env, h, parent, path);
  }

  // -------------------------------------------------------- steps keep the list

  /** A frame with nothing to visit has nothing left. */
  lemma {:induction false} ExhaustedRest(env: Env, f: Frame, b: nat)
    requires Shaped(f) && b <= 16 && NextBranch(f, b) == 16
    ensures Rest(env, f, b) == []
    decreases 16 - b
  {
    if b < 16 {
      assert NextBranch(f, b + 1) == 16;
      ExhaustedRest(env, f, b + 1);
    }
  }

  /** What a frame has left is what its next branch holds and the rest behind it. */
  lemma {:induction false} NextRest(env: Env, f: Frame, b: nat)
    requires Shaped(f) && b <= 16 && NextBranch(f, b) < 16
    ensures var c := NextBranch(f, b);
      Rest(env, f, b) == Absent(env, f.view.hashes[c], f.item.hash, f.item.path + [c]) + Rest(env, f, c + 1)
    decreases 16 - b
  {
    hide Absent;
    if !(f.view.branches[b] && !f.complete[b]) {
      NextRest(env, f, b + 1);
    }
  }

  /** Loading a frame turns the subtree it stands for into its branches; those skipped
      for a proof hold nothing absent. */
  lemma {:induction false} LoadedRest(env: Env, root: Hash, f: Frame, v: View, b: nat)
    requires FrameOk(env, root, f, false) && f.loaded && f.view == v && IsFan(f.item.hash) && Shows(v, f.item.hash)
      && b <= 16
    ensures Rest(env, f, b) == AbsentKids(env, f.item.hash, f.item.path, v, b)
    decreases 16 - b
  {
    if b < 16 {
      LoadedRest(env, root, f, v, b + 1);
      if f.complete[b] {
        StoredIsNoneAbsent(env, f.item.hash.pre.kids[b], f.item.hash, f.item.path + [b]);
      }
    }
  }

  lemma {:induction false} RestFrame(env: Env, f: Frame, f': Frame, b: nat)
    requires Shaped(f) && Shaped(f') && b <= 16 && f'.item == f.item && f'.view == f.view
    requires forall c :: b <= c < 16 ==> f'.complete[c] == f.complete[c]
    ensures Rest(env, f', b) == Rest(env, f, b)
    decreases 16 - b
  {
    if b < 16 {
      RestFrame(env, f, f', b + 1);
    }
  }

  lemma {:induction false} StackRestTop(env: Env, below: seq<Frame>, f: Frame)
    requires AllShaped(below) && Shaped(f)
    ensures StackRest(env, below + [f]) == FrameRest(env, f) + StackRest(env, below)
  {
    assert (below + [f])[..|below|] == below;
  }

  lemma {:induction false} NoViewRest(env: Env, f: Frame, b: nat)
    requires Shaped(f) && f.view == NO_VIEW && b <= 16
    ensures Rest(env, f, b) == []
    decreases 16 - b
  {
    if b < 16 {
      NoViewRest(env, f, b + 1);
    }
  }

  /** Replacing the top by a frame with as much left. */
  lemma {:induction false} SetTopRest(env: Env, l: Lane, f: Frame)
    requires AllShaped(l.stack) && l.stack != [] && Shaped(f) && FrameRest(env, f) == FrameRest(env, Top(l))
    ensures AllShaped(SetTop(l, f).stack) && StackRest(env, SetTop(l, f).stack) == StackRest(env, l.stack)
  {
    StackRestTop(env, l.stack[..|l.stack| - 1], f);
  }

  lemma {:induction false} LoadRest(env: Env, root: Hash, f: Frame, f': Frame)
    requires !f.loaded && Shaped(f) && EnvOk(env, root) && f.next == 0
    requires ViewAt(env, f.item.path, f.item.hash) == Some(f'.view)
    requires FrameOk(env, root, f', false) && f'.loaded && f'.item == f.item && f'.next == 0
    ensures FrameRest(env, f') == FrameRest(env, f)
  {
    ViewShows(env, root, f.item.path, f.item.hash);
    if IsFan(f.item.hash) {
      LoadedRest(env, root, f', f'.view, 0);
    } else {
      assert NextBranch(f', 0) == 16;
      ExhaustedRest(env, f', 0);
    }
  }

  /** Descending moves one branch from the frame to its child. */
  lemma {:induction false} HandRest(env: Env, f: Frame, b: nat)
    requires Shaped(f) && f.loaded && b == NextBranch(f, f.next) && b < 16
    requires Shaped(Handed(f, b)) && Shaped(ChildFrame(f, b))
    ensures FrameRest(env, f) == FrameRest(env, ChildFrame(f, b)) + FrameRest(env, Handed(f, b))
  {
    NextRest(env, f, f.next);
    RestFrame(env, f, Handed(f, b), b + 1);
  }

  lemma {:induction false} PushRest(env: Env, below: seq<Frame>, f: Frame, p: Frame, c: Frame)
    requires AllShaped(below) && Shaped(f) && Shaped(p) && Shaped(c)
    requires FrameRest(env, f) == FrameRest(env, c) + FrameRest(env, p)
    ensures AllShaped(below + [p, c]) && StackRest(env, below + [p, c]) == StackRest(env, below + [f])
  {
    assert below + [p, c] == (below + [p]) + [c];
    StackRestTop(env, below + [p], c);
    StackRestTop(env, below, p);
    StackRestTop(env, below, f);
  }

  /** Popping the top frame takes off what it had left; its parent keeps its own. */
  lemma {:induction false} PopRest(env: Env, below: seq<Frame>, p: Frame, f: Frame, p': Frame)
    requires AllShaped(below) && Shaped(p) && Shaped(f) && Shaped(p')
    requires p.loaded && p'.loaded && p'.next == p.next && p'.item == p.item && p'.view == p.view
    requires forall c :: p.next <= c < 16 ==> p'.complete[c] == p.complete[c]
    ensures StackRest(env, below + [p] + [f]) == FrameRest(env, f) + StackRest(env, below + [p'])
  {
    StackRestTop(env, below + [p], f);
    StackRestTop(env, below, p);
    StackRestTop(env, below, p');
    RestFrame(env, p, p', p.next);
  }

  /** finishBackedScanFrame on a frame f in place of the top. */
  lemma {:induction false} FinishRest(env: Env, l: Lane, f: Frame)
    requires AllShaped(l.stack) && l.stack != [] && Shaped(f)
    requires |l.stack| > 1 ==> l.stack[|l.stack| - 2].loaded && 1 <= l.stack[|l.stack| - 2].next
    requires AllShaped(Finish(SetTop(l, f)).stack)
    ensures StackRest(env, l.stack) == FrameRest(env, Top(l)) + StackRest(env, Finish(SetTop(l, f)).stack)
  {
    var n := |l.stack|;
    if n > 1 {
      var p := l.stack[n - 2];
      var p' := Absorb(p, f, p.next - 1);
      var below := l.stack[..n - 2];
      assert l.stack == below + [p] + [Top(l)];
      assert SetTop(l, f).stack[..n - 2] == below;
      assert Finish(SetTop(l, f)).stack == below + [p'];
      assert p' == Finish(SetTop(l, f)).stack[n - 2];
      PopRest(env, below, p, Top(l), p');
    }
  }

  lemma {:induction false} RetainRest(env: Env, stack: seq<Frame>, i: nat, f: Frame)
    requires AllShaped(stack) && i < |stack| && Shaped(f)
    requires f.item == stack[i].item && f.view == stack[i].view && f.complete == stack[i].complete
    requires f.loaded == stack[i].loaded && f.next == stack[i].next
    ensures StackRest(env, stack[i := f]) == StackRest(env, stack)
    decreases |stack|
  {
    var n := |stack|;
    var t := stack[i := f];
    if i == n - 1 {
      assert t[..n - 1] == stack[..n - 1];
      RestFrame(env, stack[i], f, f.next);
    } else {
      assert t[..n - 1] == stack[..n - 1][i := f];
      RetainRest(env, stack[..n - 1], i, f);
    }
  }

  lemma {:induction false} StartRest(env: Env, l: Lane)
    requires l.proof.Some? ==> ProofShaped(l.proof.value)
    ensures AllShaped(Start(l).stack)
    ensures StackRest(env, Start(l).stack) == Absent(env, l.root.hash, l.root.parentHash, l.root.path)
  {
    var f := NewFrame(l.root, l.proof);
    assert [f][..0] == [];
    assert StackRest(env, [f]) == FrameRest(env, f) + StackRest(env, []);
  }

  // ------------------------------------------------------------ what is absent

  /** A position is on the list of a subtree exactly when every position from the
      subtree's top down to it shows the next branch and can be loaded, and it cannot
      be loaded itself. */
  ghost predicate Frontier(env: Env, h: Hash, parent: Hash, path: seq<Nibble>, m: MissingNode)
    decreases h
  {
    var v := ViewAt(env, path, h);
    if v.None? then m == MissingNode(h, |path|, parent, BranchOf(path), path)
    else
      && IsFan(h)
      && exists b: Nibble :: Shown(v.value, b) && Frontier(env, h.pre.kids[b], h, path + [b], m)
  }

  lemma {:induction false} AbsentIsFrontier(env: Env, h: Hash, parent: Hash, path: seq<Nibble>, m: MissingNode)
    ensures m in Absent(env, h, parent, path) <==> Frontier(env, h, parent, path, m)
    decreases h, 17
  {
    var v := ViewAt(env, path, h);
    if v.Some? && IsFan(h) {
      AbsentKidsAreFrontier(env, h, path, v.value, 0, m);
    }
  }

  lemma {:induction false} AbsentKidsAreFrontier(env: Env, h: Hash, path: seq<Nibble>, v: View, b: nat, m: MissingNode)
    requires IsFan(h) && b <= 16
    ensures m in AbsentKids(env, h, path, v, b) <==>
      exists c: Nibble :: b <= c && Shown(v, c) && Frontier(env, h.pre.kids[c], h, path + [c], m)
    decreases h, 16 - b
  {
    if b < 16 {
      AbsentKidsAreFrontier(env, h, path, v, b + 1, m);
      AbsentIsFrontier(env, h.pre.kids[b], h, path + [b], m);
    }
  }

  /** What the list says of a position: where it is, and what its parent commits to
      there. */
  lemma {:induction false} AbsentFields(env: Env, root: Hash, path: seq<Nibble>, parent: Hash, m: MissingNode)
    requires Frontier(env, HashAt(root, path), parent, path, m)
    ensures path <= m.path && m.depth == |m.path| && m.branch == BranchOf(m.path) && m.hash == HashAt(root, m.path)
    ensures m.parentHash == if m.path == path then parent else HashAt(root, m.path[..|m.path| - 1])
    ensures ViewAt(env, m.path, m.hash).None?
    decreases HashAt(root, path)
  {
    var h := HashAt(root, path);
    var v := ViewAt(env, path, h);
    if v.Some? {
      var b: Nibble :| Shown(v.value, b) && Frontier(env, h.pre.kids[b], h, path + [b], m);
      HashAtChild(root, path, b);
      AbsentFields(env, root, path + [b], h, m);
      assert m.path == path + [b] ==> m.path[..|m.path| - 1] == path;
    }
  }

  ghost predicate Distinct(list: seq<MissingNode>) {
    forall i, j :: 0 <= i < j < |list| ==> list[i].path != list[j].path
  }

  ghost predicate Under(list: seq<MissingNode>, path: seq<Nibble>) {
    forall i :: 0 <= i < |list| ==> path <= list[i].path
  }

  /** No position is listed twice. */
  lemma {:induction false} AbsentOnce(env: Env, h: Hash, parent: Hash, path: seq<Nibble>)
    ensures Distinct(Absent(env, h, parent, path)) && Under(Absent(env, h, parent, path), path)
    decreases h, 17
  {
    var v := ViewAt(env, path, h);
    if v.Some? && IsFan(h) {
      AbsentKidsOnce(env, h, path, v.value, 0);
    }
  }

  ghost predicate UnderFrom(list: seq<MissingNode>, path: seq<Nibble>, b: nat) {
    forall i :: 0 <= i < |list| ==> |path| < |list[i].path| && path <= list[i].path && b <= list[i].path[|path|]
  }

  lemma {:induction false} AbsentKidsOnce(env: Env, h: Hash, path: seq<Nibble>, v: View, b: nat)
    requires IsFan(h) && b <= 16
    ensures Distinct(AbsentKids(env, h, path, v, b)) && UnderFrom(AbsentKids(env, h, path, v, b), path, b)
    decreases h, 16 - b
  {
    if b < 16 {
      AbsentKidsOnce(env, h, path, v, b + 1);
      AbsentOnce(env, h.pre.kids[b], h, path + [b]);
      var first := Absent(env, h.pre.kids[b], h, path + [b]);
      forall i | 0 <= i < |first|
        ensures path <= first[i].path && |path| < |first[i].path| && first[i].path[|path|] == b
      {
        assert path + [b] <= first[i].path;
      }
    }
  }
}
