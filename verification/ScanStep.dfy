/** One turn of scanBackedLane on a lane: each kind of turn keeps the lane sound, keeps
    the list of what is found and what is left, accounts for its proof nodes and lowers
    the work left. */
module ScanStep {
  import opened Trie
  import opened Hashing
  import opened ScanModel
  import opened ScanSound
  import opened ScanExact
  import opened ScanAccount

  /** The stack is admitted exactly while it is in use. */
  predicate Admitted(l: Lane) {
    && l.capacity == (if l.stack == [] then 0 else STACK_CAPACITY)
    && |l.stack| <= STACK_CAPACITY
    && forall j :: 0 <= j < |l.stack| ==> |l.stack[j].item.path| == |l.root.path| + j
  }

  /** A lane in the middle of its walk. */
  ghost predicate Walking(env: Env, root: Hash, l: Lane) {
    && LaneOk(env, root, l) && Admitted(l) && l.stack != [] && |l.root.path| == 1
  }

  lemma {:induction false} StackIsShaped(env: Env, root: Hash, l: Lane)
    requires LaneOk(env, root, l)
    ensures AllShaped(l.stack)
  {
  }

  /** From l to l' the nodes `items` were found absent and `freed` proof nodes let go. */
  ghost predicate Turn(env: Env, root: Hash, l: Lane, l': Lane, items: seq<MissingNode>, freed: int) {
    && LaneOk(env, root, l) && LaneOk(env, root, l') && Admitted(l')
    && l'.root == l.root && l'.started && !l'.complete && l'.hint == l.hint
    && LaneProofs(l') == LaneProofs(l) - freed
    && AllShaped(l.stack) && AllShaped(l'.stack)
    && StackWork(l'.stack) < StackWork(l.stack)
    && StackRest(env, l.stack) == items + StackRest(env, l'.stack)
    && l'.incomplete == (l.incomplete || items != [])
  }

  lemma {:induction false} SetTopTurn(env: Env, root: Hash, l: Lane, f: Frame)
    requires Walking(env, root, l) && LaneOk(env, root, SetTop(l, f)) && !Top(l).loaded
    requires Shaped(f) && f.proof == Top(l).proof && f.item == Top(l).item
    requires FrameRest(env, f) == FrameRest(env, Top(l)) && FrameWork(f) < FrameWork(Top(l))
    ensures Turn(env, root, l, SetTop(l, f), [], 0)
  {
    hide StackRest, StackWork, AllShaped, FrameRest, FrameWork, Shaped, LaneOk, Admitted, LaneProofs, SetTop;
    SetTopFields(env, root, l, f);
    StackIsShaped(env, root, l);
    SetTopRest(env, l, f);
    SetTopProofs(l, f);
    SetTopWork(l, f);
  }

  lemma {:induction false} SetTopFields(env: Env, root: Hash, l: Lane, f: Frame)
    requires Walking(env, root, l) && f.item == Top(l).item
    ensures Admitted(SetTop(l, f)) && SetTop(l, f).root == l.root && SetTop(l, f).started && !SetTop(l, f).complete
    ensures SetTop(l, f).hint == l.hint && SetTop(l, f).incomplete == l.incomplete
  {
    hide StackOk;
  }

  /** A subtree skipped for the cache or the base holds nothing absent. */
  lemma {:induction false} SkipTurn(env: Env, root: Hash, l: Lane, viaBase: bool)
    requires Walking(env, root, l) && !Top(l).loaded && Stored(Top(l).item.hash, env.durable)
    ensures Turn(env, root, l, SetTop(l, Skipped(Top(l), viaBase)), [], 0)
  {
    var f := Top(l);
    var f' := Skipped(f, viaBase);
    assert FrameOk(env, root, f, false);
    SkipOk(env, root, l, viaBase);
    StoredIsNoneAbsent(env, f.item.hash, f.item.parentHash, f.item.path);
    NoViewRest(env, f', f'.next);
    LoadWork(f, f');
    SetTopTurn(env, root, l, f');
  }

  lemma {:induction false} LoadTurn(env: Env, root: Hash, l: Lane, v: View, baseView: View)
    requires Walking(env, root, l) && !Top(l).loaded && EnvOk(env, root)
    requires ViewAt(env, Top(l).item.path, Top(l).item.hash) == Some(v) && !Spoilt(env, Top(l).item.hash)
    requires baseView == NO_VIEW || (Top(l).item.baseHash != Zero && baseView == DecodedView(Top(l).item.baseHash))
    ensures Turn(env, root, l, SetTop(l, Loaded(Top(l), v, Top(l).item.hash in env.durable, baseView)), [], 0)
  {
    var f := Top(l);
    var f' := Loaded(f, v, f.item.hash in env.durable, baseView);
    assert FrameOk(env, root, f, false);
    LoadedOk(env, root, f, baseView);
    ViewShows(env, root, f.item.path, f.item.hash);
    LoadRest(env, root, f, f');
    LoadWork(f, f');
    LoadOk(env, root, l, v, baseView);
    SetTopTurn(env, root, l, f');
  }

  lemma {:induction false} PushTurn(env: Env, root: Hash, l: Lane, b: nat)
    requires Walking(env, root, l) && Top(l).loaded && b == NextBranch(Top(l), Top(l).next) && b < 16
    requires |Top(l).item.path| < 64
    ensures Turn(env, root, l, Push(l, b), [], 0)
  {
    StackIsShaped(env, root, l);
    PushOk(env, root, l, b);
    assert FrameOk(env, root, Top(l), false);
    PushCounts(env, root, l, b);
    PushAdmitted(l, b);
  }

  lemma {:induction false} PushAdmitted(l: Lane, b: nat)
    requires l.stack != [] && Admitted(l) && |l.root.path| == 1 && b < 16 && Shaped(Top(l)) && |Top(l).item.path| < 64
    ensures Admitted(Push(l, b))
  {
    var l' := Push(l, b);
    forall j | 0 <= j < |l'.stack|
      ensures |l'.stack[j].item.path| == |l'.root.path| + j
    {
      assert j < |l.stack| ==> l'.stack[j].item == l.stack[j].item;
    }
  }

  lemma {:induction false} PushCounts(env: Env, root: Hash, l: Lane, b: nat)
    requires l.stack != [] && AllShaped(l.stack) && FrameOk(env, root, Top(l), false) && Top(l).loaded
    requires b == NextBranch(Top(l), Top(l).next) && b < 16
    ensures AllShaped(Push(l, b).stack)
    ensures StackRest(env, l.stack) == StackRest(env, Push(l, b).stack)
    ensures StackWork(Push(l, b).stack) < StackWork(l.stack)
    ensures LaneProofs(Push(l, b)) == LaneProofs(l)
  {
    PushProofs(l, b);
    var f := Top(l);
    var below := l.stack[..|l.stack| - 1];
    assert l.stack == below + [f];
    HandedOk(env, root, f, b);
    ChildFrameOk(env, root, f, b);
    HandRest(env, f, b);
    PushRest(env, below, f, Handed(f, b), ChildFrame(f, b));
    HandWork(f, b);
    PushWork(below, f, Handed(f, b), ChildFrame(f, b));
  }

  lemma {:induction false} FinishTurn(env: Env, root: Hash, l: Lane)
    requires Walking(env, root, l) && Top(l).loaded && NextBranch(Top(l), Top(l).next) == 16
    ensures |l.stack| > 1 ==> Linked(l.stack[|l.stack| - 2], Top(l))
    ensures Turn(env, root, l, Finish(l), [], if Top(l).full then OptSize(Top(l).proof) else 0)
    ensures FinishMark(Top(l)).Some? ==> Stored(FinishMark(Top(l)).value, env.durable)
  {
    StackIsShaped(env, root, l);
    FinishOk(env, root, l);
    StackIsShaped(env, root, Finish(l));
    FinishCounts(env, l);
    FinishAdmitted(l);
  }

  lemma {:induction false} FinishAdmitted(l: Lane)
    requires l.stack != [] && Admitted(l) && (|l.stack| > 1 ==> Linked(l.stack[|l.stack| - 2], Top(l)))
    ensures Admitted(Finish(l)) && Finish(l).root == l.root && Finish(l).started == l.started
    ensures Finish(l).complete == l.complete && Finish(l).hint == l.hint && Finish(l).incomplete == l.incomplete
  {
    var l' := Finish(l);
    assert forall j :: 0 <= j < |l'.stack| ==> l'.stack[j].item == l.stack[j].item;
  }

  lemma {:induction false} FinishCounts(env: Env, l: Lane)
    requires AllShaped(l.stack) && l.stack != [] && Top(l).loaded && NextBranch(Top(l), Top(l).next) == 16
    requires |l.stack| > 1 ==> Linked(l.stack[|l.stack| - 2], Top(l))
    requires |l.stack| == 1 ==> l.proof.None?
    requires AllShaped(Finish(l).stack)
    ensures StackRest(env, l.stack) == [] + StackRest(env, Finish(l).stack)
    ensures LaneProofs(Finish(l)) == LaneProofs(l) - (if Top(l).full then OptSize(Top(l).proof) else 0)
    ensures StackWork(Finish(l).stack) < StackWork(l.stack)
  {
    ExhaustedRest(env, Top(l), Top(l).next);
    assert SetTop(l, Top(l)) == l;
    FinishRest(env, l, Top(l));
    FinishProofs(l);
    FinishWork(l);
  }

  /** The turn on an absent node, after the proofs were retained. */
  function Miss(l: Lane): Lane
    requires l.stack != []
    requires |l.stack| > 1 ==>
      var p := l.stack[|l.stack| - 2];
      1 <= p.next <= 16 && |p.complete| == 16 && (p.proof.Some? ==> |p.proof.value.children| == 16)
  {
    Finish(SetTop(l, Missed(Top(l)))).(incomplete := true)
  }

  /** What is known of a lane about to meet an absent node. */
  lemma {:induction false} MissFacts(env: Env, root: Hash, l: Lane)
    requires Walking(env, root, l) && !Top(l).loaded
    ensures LaneOk(env, root, l) && Admitted(l) && AllShaped(l.stack) && Top(l).next == 0 && Top(l).view == NO_VIEW
    ensures l.stack != [] && l.proof.None? && l.started && !l.complete
    ensures |l.stack| > 1 ==> Linked(l.stack[|l.stack| - 2], Top(l)) && l.stack[|l.stack| - 2].loaded
    ensures |l.stack| > 1 ==>
      var p := l.stack[|l.stack| - 2];
      1 <= p.next <= 16 && |p.complete| == 16 && (p.proof.Some? ==> |p.proof.value.children| == 16)
  {
    assert |l.stack| > 1 ==> Linked(l.stack[|l.stack| - 2], l.stack[|l.stack| - 2 + 1]);
  }

  lemma {:induction false} MissTurn(env: Env, root: Hash, l: Lane)
    requires Walking(env, root, l) && !Top(l).loaded && ViewAt(env, Top(l).item.path, Top(l).item.hash).None?
    ensures |l.stack| > 1 ==> Linked(l.stack[|l.stack| - 2], Top(l))
    ensures Turn(env, root, l, Miss(l), [Missing(Top(l).item)], 0)
  {
    hide LaneOk, Walking, AllShaped, ViewAt, StackRest, StackWork, LaneProofs, StackProofs, FrameRest, Shaped,
         Admitted, Linked, Miss;
    MissFacts(env, root, l);
    MissRest(env, l);
    MissSound(env, root, l);
    StackIsShaped(env, root, Miss(l));
    MissFields(l);
    MissCounts(env, l);
  }

  lemma {:induction false} MissFields(l: Lane)
    requires l.stack != [] && Admitted(l) && (|l.stack| > 1 ==> Linked(l.stack[|l.stack| - 2], Top(l)))
    requires |l.stack| > 1 ==>
      var p := l.stack[|l.stack| - 2];
      1 <= p.next <= 16 && |p.complete| == 16 && (p.proof.Some? ==> |p.proof.value.children| == 16)
    ensures Admitted(Miss(l)) && Miss(l).root == l.root && Miss(l).started == l.started
    ensures Miss(l).complete == l.complete && Miss(l).hint == l.hint && Miss(l).incomplete
  {
    FinishAdmitted(SetTop(l, Missed(Top(l))));
  }

  lemma {:induction false} MissCounts(env: Env, l: Lane)
    requires AllShaped(l.stack) && l.stack != [] && !Top(l).loaded && Top(l).next == 0 && Top(l).view == NO_VIEW
    requires |l.stack| > 1 ==> Linked(l.stack[|l.stack| - 2], Top(l)) && l.stack[|l.stack| - 2].loaded
    requires |l.stack| > 1 ==>
      var p := l.stack[|l.stack| - 2];
      1 <= p.next <= 16 && |p.complete| == 16 && (p.proof.Some? ==> |p.proof.value.children| == 16)
    requires |l.stack| == 1 ==> l.proof.None?
    requires Shaped(Missed(Top(l))) && Shaped(Top(l)) && AllShaped(SetTop(l, Missed(Top(l))).stack)
      && AllShaped(Miss(l).stack)
    ensures LaneProofs(Miss(l)) == LaneProofs(l) && StackWork(Miss(l).stack) < StackWork(l.stack)
    ensures StackRest(env, l.stack) == FrameRest(env, Top(l)) + StackRest(env, Miss(l).stack)
  {
    hide AllShaped, StackRest, StackWork, StackProofs, FrameRest, Shaped;
    MissWork(l);
    FinishRest(env, l, Missed(Top(l)));
  }

  lemma {:induction false} MissRest(env: Env, l: Lane)
    requires l.stack != [] && AllShaped(l.stack) && !Top(l).loaded
      && ViewAt(env, Top(l).item.path, Top(l).item.hash).None?
    ensures Shaped(Top(l)) && Shaped(Missed(Top(l))) && FrameRest(env, Top(l)) == [Missing(Top(l).item)]
  {
  }

  lemma {:induction false} MissSound(env: Env, root: Hash, l: Lane)
    requires LaneOk(env, root, l) && l.stack != [] && !Top(l).loaded
    requires |l.stack| > 1 ==>
      var p := l.stack[|l.stack| - 2];
      1 <= p.next <= 16 && |p.complete| == 16 && (p.proof.Some? ==> |p.proof.value.children| == 16)
    ensures LaneOk(env, root, Miss(l)) && AllShaped(SetTop(l, Missed(Top(l))).stack)
  {
    hide LaneOk, AllShaped, Linked, Exhausted;
    var m := SetTop(l.(incomplete := true), Missed(Top(l)));
    MissOk(env, root, l);
    StackIsShaped(env, root, m);
    FinishMissed(env, root, m);
    assert Finish(m) == Miss(l);
  }

  lemma {:induction false} FinishMissed(env: Env, root: Hash, m: Lane)
    requires LaneOk(env, root, m) && m.stack != [] && Top(m).loaded && !Top(m).full
    requires |m.stack| > 1 ==>
      var p := m.stack[|m.stack| - 2];
      1 <= p.next <= 16 && |p.complete| == 16 && (p.proof.Some? ==> |p.proof.value.children| == 16)
    ensures LaneOk(env, root, Finish(m))
  {
    FinishOk(env, root, m);
  }

  lemma {:induction false} MissWork(l: Lane)
    requires AllShaped(l.stack) && l.stack != [] && !Top(l).loaded && Top(l).next == 0 && Top(l).view == NO_VIEW
    requires |l.stack| > 1 ==> Linked(l.stack[|l.stack| - 2], Top(l))
    requires |l.stack| == 1 ==> l.proof.None?
    requires AllShaped(SetTop(l, Missed(Top(l))).stack)
    requires AllShaped(Finish(SetTop(l, Missed(Top(l)))).stack)
    ensures LaneProofs(Finish(SetTop(l, Missed(Top(l))))) == LaneProofs(l)
    ensures StackWork(Finish(SetTop(l, Missed(Top(l)))).stack) < StackWork(l.stack)
  {
    var m := SetTop(l, Missed(Top(l)));
    assert m.stack[..|m.stack| - 1] == l.stack[..|l.stack| - 1];
    SetTopProofs(l, Missed(Top(l)));
    FinishProofs(m);
    LoadWork(Top(l), Missed(Top(l)));
    SetTopWork(l, Missed(Top(l)));
    FinishWork(m);
  }

  /** Retaining a proof node changes neither what is left nor the work. */
  lemma {:induction false} RetainTurn(env: Env, root: Hash, l: Lane, i: nat)
    requires Walking(env, root, l) && i < |l.stack| - 1 && l.stack[i].proof.None?
    requires i > 0 ==> l.stack[i - 1].proof.Some?
    ensures Walking(env, root, Retain(l, i)) && LaneProofs(Retain(l, i)) == LaneProofs(l) + 1
    ensures AllShaped(l.stack) && AllShaped(Retain(l, i).stack)
    ensures StackRest(env, Retain(l, i).stack) == StackRest(env, l.stack)
    ensures StackWork(Retain(l, i).stack) == StackWork(l.stack)
  {
    RetainOk(env, root, l, i);
    StackIsShaped(env, root, l);
    StackIsShaped(env, root, Retain(l, i));
    RetainProofs(l, i);
    RetainRest(env, l.stack, i, Retain(l, i).stack[i]);
    RetainWork(l.stack, i, Retain(l, i).stack[i]);
  }
}
