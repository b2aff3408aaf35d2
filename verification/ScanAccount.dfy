/** Counting what a lane holds: its proof nodes, which the cursor is charged for, and
    the work left on its stack, which every step lowers. */
module ScanAccount {
  import opened Trie
  import opened Hashing
  import opened ScanModel
  import opened ScanSound

  // ----------------------------------------------------------------- proof nodes

  function ProofSize(p: Proof): nat
    decreases p
  {
    1 + Sizes(p.children)
  }

  function Sizes(kids: seq<Option<Proof>>): nat
    decreases kids
  {
    if kids == [] then 0 else OptSize(kids[0]) + Sizes(kids[1..])
  }

  function OptSize(p: Option<Proof>): nat
    decreases p
  {
    if p.Some? then ProofSize(p.value) else 0
  }

  lemma {:induction false} SizesUpdate(kids: seq<Option<Proof>>, b: nat, c: Option<Proof>)
    requires b < |kids|
    ensures Sizes(kids[b := c]) == Sizes(kids) - OptSize(kids[b]) + OptSize(c)
    decreases |kids|
  {
    if b == 0 {
      assert kids[b := c][1..] == kids[1..];
    } else {
      assert kids[b := c][1..] == kids[1..][b - 1 := c];
      SizesUpdate(kids[1..], b - 1, c);
    }
  }

  /** Taking a child proof out of a node, or putting one back, moves its size. */
  lemma {:induction false} WithChildSize(p: Option<Proof>, b: nat, c: Option<Proof>)
    requires b < 16 && p.Some? && |p.value.children| == 16
    ensures OptSize(WithChild(p, b, c)) == OptSize(p) - OptSize(ProofChild(p, b)) + OptSize(c)
  {
    SizesUpdate(p.value.children, b, c);
  }

  function StackProofs(stack: seq<Frame>): nat {
    if stack == [] then 0 else OptSize(stack[|stack| - 1].proof) + StackProofs(stack[..|stack| - 1])
  }

  /** The proof nodes reachable from a lane. */
  function LaneProofs(l: Lane): nat {
    OptSize(l.proof) + StackProofs(l.stack)
  }

  lemma {:induction false} StackProofsTop(below: seq<Frame>, f: Frame)
    ensures StackProofs(below + [f]) == OptSize(f.proof) + StackProofs(below)
  {
    assert (below + [f])[..|below|] == below;
  }

  lemma {:induction false} SetTopProofs(l: Lane, f: Frame)
    requires l.stack != [] && f.proof == Top(l).proof
    ensures LaneProofs(SetTop(l, f)) == LaneProofs(l)
  {
    StackProofsTop(l.stack[..|l.stack| - 1], f);
  }

  lemma {:induction false} PushProofs(l: Lane, b: nat)
    requires l.stack != [] && b < 16 && Shaped(Top(l))
    ensures LaneProofs(Push(l, b)) == LaneProofs(l)
  {
    var below := l.stack[..|l.stack| - 1];
    var f := Top(l);
    assert Push(l, b).stack == (below + [Handed(f, b)]) + [ChildFrame(f, b)];
    StackProofsTop(below + [Handed(f, b)], ChildFrame(f, b));
    StackProofsTop(below, Handed(f, b));
    if f.proof.Some? {
      WithChildSize(f.proof, b, None);
    }
  }

  /** Popping a full frame frees exactly the proof nodes it holds; popping another one
      hands them back to its parent. */
  lemma {:induction false} FinishProofs(l: Lane)
    requires l.stack != [] && (|l.stack| > 1 ==> Linked(l.stack[|l.stack| - 2], Top(l)))
    requires |l.stack| == 1 ==> l.proof.None?
    ensures LaneProofs(Finish(l)) == LaneProofs(l) - (if Top(l).full then OptSize(Top(l).proof) else 0)
  {
    var n := |l.stack|;
    var f := Top(l);
    if n > 1 {
      var p := l.stack[n - 2];
      var p' := Absorb(p, f, p.next - 1);
      var below := l.stack[..n - 2];
      assert l.stack[..n - 1] == below + [p];
      StackProofsTop(below, p);
      StackProofsTop(below, p');
      if p.proof.Some? {
        if !f.full {
          WithChildSize(p.proof, p.next - 1, f.proof);
        }
      }
    }
  }

  lemma {:induction false} NoProofs(kids: seq<Option<Proof>>)
    requires forall i :: 0 <= i < |kids| ==> kids[i].None?
    ensures Sizes(kids) == 0
  {
    if kids != [] {
      NoProofs(kids[1..]);
    }
  }

  lemma {:induction false} StackProofsUpdate(stack: seq<Frame>, i: nat, f: Frame)
    requires i < |stack|
    ensures StackProofs(stack[i := f]) == StackProofs(stack) - OptSize(stack[i].proof) + OptSize(f.proof)
    decreases |stack|
  {
    var n := |stack|;
    if i == n - 1 {
      assert stack[i := f][..n - 1] == stack[..n - 1];
    } else {
      assert stack[i := f][..n - 1] == stack[..n - 1][i := f];
      StackProofsUpdate(stack[..n - 1], i, f);
    }
  }

  lemma {:induction false} RetainProofs(l: Lane, i: nat)
    requires i < |l.stack| && l.stack[i].proof.None?
    ensures LaneProofs(Retain(l, i)) == LaneProofs(l) + 1
  {
    var p := Proof(NO_PROOFS, l.stack[i].complete);
    StackProofsUpdate(l.stack, i, l.stack[i].(proof := Some(p)));
    NoProofs(NO_PROOFS);
  }

  lemma {:induction false} StartProofs(l: Lane)
    requires l.stack == []
    ensures LaneProofs(Start(l)) == LaneProofs(l)
  {
    StackProofsTop([], NewFrame(l.root, l.proof));
  }

  /** The frames that have a proof node are the lowest ones. */
  lemma {:induction false} ProofsArePrefix(stack: seq<Frame>, i: nat, j: nat)
    requires Links(stack) && i <= j < |stack| && stack[j].proof.Some?
    ensures stack[i].proof.Some?
    decreases j - i
  {
    if i < j {
      assert Linked(stack[j - 1], stack[j - 1 + 1]);
      ProofsArePrefix(stack, i, j - 1);
    }
  }

  // -------------------------------------------------------------------- work left

  /** A bound on the steps needed below a hash. */
  ghost function Work(h: Hash): nat
    decreases h, 17
  {
    if IsFan(h) then 3 + WorkKids(h, 0) else 3
  }

  ghost function WorkKids(h: Hash, b: nat): nat
    requires IsFan(h) && b <= 16
    decreases h, 16 - b
  {
    if b == 16 then 0 else 1 + Work(h.pre.kids[b]) + WorkKids(h, b + 1)
  }

  ghost function WorkFrom(f: Frame, b: nat): nat
    requires |f.view.hashes| == 16 && b <= 16
    decreases 16 - b
  {
    if b == 16 then 0 else 1 + Work(f.view.hashes[b]) + WorkFrom(f, b + 1)
  }

  ghost function FrameWork(f: Frame): nat
    requires Shaped(f)
  {
    if !f.loaded then Work(f.item.hash)
    else if f.view == NO_VIEW || !IsFan(f.item.hash) then 1
    else 1 + WorkFrom(f, f.next)
  }

  ghost function StackWork(stack: seq<Frame>): nat
    requires AllShaped(stack)
    decreases |stack|
  {
    if stack == [] then 0 else FrameWork(stack[|stack| - 1]) + StackWork(stack[..|stack| - 1])
  }

  lemma {:induction false} StackWorkTop(below: seq<Frame>, f: Frame)
    requires AllShaped(below) && Shaped(f)
    ensures StackWork(below + [f]) == FrameWork(f) + StackWork(below)
  {
    assert (below + [f])[..|below|] == below;
  }

  lemma {:induction false} WorkFromMonotone(f: Frame, b: nat, c: nat)
    requires |f.view.hashes| == 16 && b <= c <= 16
    ensures WorkFrom(f, c) <= WorkFrom(f, b)
    ensures b < c ==> WorkFrom(f, c) + 1 + Work(f.view.hashes[c - 1]) <= WorkFrom(f, b)
    decreases c - b
  {
    if b < c {
      WorkFromMonotone(f, b + 1, c);
    }
  }

  lemma {:induction false} WorkFromSame(f: Frame, f': Frame, b: nat)
    requires |f.view.hashes| == 16 && f'.view == f.view && b <= 16
    ensures WorkFrom(f', b) == WorkFrom(f, b)
    decreases 16 - b
  {
    if b < 16 {
      WorkFromSame(f, f', b + 1);
    }
  }

  lemma {:induction false} WorkFromKids(f: Frame, b: nat)
    requires IsFan(f.item.hash) && f.view.hashes == f.item.hash.pre.kids && b <= 16
    ensures WorkFrom(f, b) == WorkKids(f.item.hash, b)
    decreases 16 - b
  {
    if b < 16 {
      WorkFromKids(f, b + 1);
    }
  }

  /** Loading, skipping or missing a frame lowers its work. */
  lemma {:induction false} LoadWork(f: Frame, f': Frame)
    requires Shaped(f) && Shaped(f') && !f.loaded && f'.loaded && f'.item == f.item && f'.next == 0
    requires f'.view == NO_VIEW || !IsFan(f.item.hash) || f'.view.hashes == f.item.hash.pre.kids
    ensures FrameWork(f') < FrameWork(f)
  {
    if f'.view != NO_VIEW && IsFan(f.item.hash) {
      WorkFromKids(f', 0);
    }
  }

  lemma {:induction false} SetTopWork(l: Lane, f: Frame)
    requires AllShaped(l.stack) && l.stack != []
    requires Shaped(f) && FrameWork(f) < FrameWork(Top(l))
    ensures AllShaped(SetTop(l, f).stack)
    ensures StackWork(SetTop(l, f).stack) < StackWork(l.stack)
  {
    StackWorkTop(l.stack[..|l.stack| - 1], f);
  }

  lemma {:induction false} HandWork(f: Frame, b: nat)
    requires Shaped(f) && f.loaded && f.view != NO_VIEW && IsFan(f.item.hash) && f.next <= b < 16
    requires Shaped(Handed(f, b)) && Shaped(ChildFrame(f, b))
    ensures FrameWork(Handed(f, b)) + FrameWork(ChildFrame(f, b)) < FrameWork(f)
  {
    WorkFromMonotone(f, f.next, b + 1);
    WorkFromSame(f, Handed(f, b), b + 1);
  }

  lemma {:induction false} PushWork(below: seq<Frame>, f: Frame, p: Frame, c: Frame)
    requires AllShaped(below) && Shaped(f) && Shaped(p) && Shaped(c)
    requires FrameWork(p) + FrameWork(c) < FrameWork(f)
    ensures AllShaped(below + [p, c])
    ensures StackWork(below + [p, c]) < StackWork(below + [f])
  {
    assert below + [p, c] == (below + [p]) + [c];
    StackWorkTop(below + [p], c);
    StackWorkTop(below, p);
    StackWorkTop(below, f);
  }

  lemma {:induction false} FinishWork(l: Lane)
    requires AllShaped(l.stack) && l.stack != [] && Top(l).loaded
    requires |l.stack| > 1 ==> l.stack[|l.stack| - 2].loaded && 1 <= l.stack[|l.stack| - 2].next
    requires AllShaped(Finish(l).stack)
    ensures StackWork(Finish(l).stack) < StackWork(l.stack)
  {
    var n := |l.stack|;
    assert FrameWork(Top(l)) >= 1;
    if n > 1 {
      var p := l.stack[n - 2];
      var p' := Absorb(p, Top(l), p.next - 1);
      var below := l.stack[..n - 2];
      assert l.stack[..n - 1] == below + [p];
      StackWorkTop(below, p);
      StackWorkTop(below, p');
      WorkFromSame(p, p', p.next);
    }
  }

  lemma {:induction false} FrameWorkSame(f: Frame, f': Frame)
    requires Shaped(f) && Shaped(f') && f'.item == f.item && f'.view == f.view
    requires f'.loaded == f.loaded && f'.next == f.next
    ensures FrameWork(f') == FrameWork(f)
  {
    WorkFromSame(f, f', f.next);
  }

  lemma {:induction false} RetainWork(stack: seq<Frame>, i: nat, f: Frame)
    requires AllShaped(stack) && i < |stack| && Shaped(f)
    requires f.item == stack[i].item && f.view == stack[i].view
    requires f.loaded == stack[i].loaded && f.next == stack[i].next
    ensures StackWork(stack[i := f]) == StackWork(stack)
    decreases |stack|
  {
    var n := |stack|;
    if i == n - 1 {
      assert stack[i := f][..n - 1] == stack[..n - 1];
      FrameWorkSame(stack[i], f);
    } else {
      assert stack[i := f][..n - 1] == stack[..n - 1][i := f];
      RetainWork(stack[..n - 1], i, f);
    }
  }
}
