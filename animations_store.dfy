/** src/AnimationsStore.js: the ledger of animation handles, kept in three
    buckets (move, enter, leave), with guarded registration, pruning when a
    handle's `finished` promise resolves, a reset of the move and enter
    buckets, two read-only queries and pause/play/seek broadcasts. */
module AnimationsStore {
  import opened Wrappers
  import opened DomHelpers

  /** An animation handle as the store sees it. `id` stands for the
      object's identity (the store compares handles with `!==`),
      `hasFinished` says whether the handle exposes a `finished` promise,
      and `animations` is its list of inner animations. */
  datatype Handle<I> = Handle(id: nat, completed: bool, hasFinished: bool, animations: seq<I>)

  datatype Bucket = Move | Enter | Leave

  /** The keys of `this.animations`: any other name finds no bucket. */
  function BucketNamed(name: string): Option<Bucket>
  {
    if name == "moveAnimations" then Some(Move)
    else if name == "enterAnimations" then Some(Enter)
    else if name == "leaveAnimations" then Some(Leave)
    else None
  }

  /** The calls the store makes on a handle. */
  datatype Request = PauseRequest | PlayRequest | SeekRequest(value: int)

  datatype Call = Call(request: Request, id: nat)

  /** The bucket with every entry of handle `id` filtered out. */
  function Without<I>(hs: seq<Handle<I>>, id: nat): (r: seq<Handle<I>>)
    ensures |r| <= |hs|
    ensures forall i :: 0 <= i < |r| ==> r[i] in hs && r[i].id != id
    ensures forall i :: 0 <= i < |hs| && hs[i].id != id ==> hs[i] in r
  {
    if hs == [] then [] else (if hs[0].id == id then [] else [hs[0]]) + Without(hs[1..], id)
  }

  /** Pruning keeps the order of what remains: it works piecewise. */
  lemma {:induction false} WithoutAppend<I>(a: seq<Handle<I>>, b: seq<Handle<I>>, id: nat)
    ensures Without(a + b, id) == Without(a, id) + Without(b, id)
    decreases |a|
  {
    if a == [] {
      assert a + b == b;
    } else {
      assert (a + b)[1..] == a[1..] + b;
      WithoutAppend(a[1..], b, id);
    }
  }

  /** Pruning leaves a bucket without the handle untouched. */
  lemma {:induction false} WithoutAbsent<I>(hs: seq<Handle<I>>, id: nat)
    requires forall i :: 0 <= i < |hs| ==> hs[i].id != id
    ensures Without(hs, id) == hs
    decreases |hs|
  {
    if hs != [] {
      WithoutAbsent(hs[1..], id);
    }
  }

  /** A second run of the same pruning changes nothing. */
  lemma WithoutTwice<I>(hs: seq<Handle<I>>, id: nat)
    ensures Without(Without(hs, id), id) == Without(hs, id)
  {
    WithoutAbsent(Without(hs, id), id);
  }

  /** The driver marks handle `id` completed; every stored reference to
      that object sees the change. */
  function Completing<I>(hs: seq<Handle<I>>, id: nat): seq<Handle<I>>
  {
    seq(|hs|, i requires 0 <= i < |hs| => if hs[i].id == id then hs[i].(completed := true) else hs[i])
  }

  /** A bucket is active when it holds some handle not yet completed. */
  function AnyActive<I>(hs: seq<Handle<I>>): (r: bool)
    ensures r <==> exists i :: 0 <= i < |hs| && !hs[i].completed
  {
    |hs| > 0 && (!hs[0].completed || AnyActive(hs[1..]))
  }

  /** The inner-animation lists of the handles not yet completed, in order. */
  function ActiveInner<I>(hs: seq<Handle<I>>): seq<seq<I>>
  {
    if hs == [] then [] else (if hs[0].completed then [] else [hs[0].animations]) + ActiveInner(hs[1..])
  }

  lemma {:induction false} ActiveInnerAppend<I>(a: seq<Handle<I>>, b: seq<Handle<I>>)
    ensures ActiveInner(a + b) == ActiveInner(a) + ActiveInner(b)
    decreases |a|
  {
    if a == [] {
      assert a + b == b;
    } else {
      assert (a + b)[1..] == a[1..] + b;
      ActiveInnerAppend(a[1..], b);
    }
  }

  /** An inner list is kept exactly when it belongs to a non-completed handle. */
  lemma {:induction false} ActiveInnerMembership<I>(hs: seq<Handle<I>>, x: I)
    ensures (exists j :: 0 <= j < |ActiveInner(hs)| && Contains(ActiveInner(hs)[j], x))
        <==> (exists i :: 0 <= i < |hs| && !hs[i].completed && Contains(hs[i].animations, x))
    decreases |hs|
  {
    if hs != [] {
      ActiveInnerMembership(hs[1..], x);
      var head: seq<seq<I>> := if hs[0].completed then [] else [hs[0].animations];
      var tail := ActiveInner(hs[1..]);
      assert ActiveInner(hs) == head + tail;
      if exists j :: 0 <= j < |head + tail| && Contains((head + tail)[j], x) {
        var j :| 0 <= j < |head + tail| && Contains((head + tail)[j], x);
        if j >= |head| {
          assert Contains(tail[j - |head|], x);
          var i :| 0 <= i < |hs[1..]| && !hs[1..][i].completed && Contains(hs[1..][i].animations, x);
          assert hs[i + 1] == hs[1..][i];
        }
      }
      if exists i :: 0 <= i < |hs| && !hs[i].completed && Contains(hs[i].animations, x) {
        var i :| 0 <= i < |hs| && !hs[i].completed && Contains(hs[i].animations, x);
        if i == 0 {
          assert (head + tail)[0] == hs[0].animations;
        } else {
          assert hs[1..][i - 1] == hs[i];
          var j :| 0 <= j < |tail| && Contains(tail[j], x);
          assert (head + tail)[|head| + j] == tail[j];
        }
      }
    }
  }

  /** A bucket after the callbacks of handle `id` ran: pruned when one of
      them was registered for this bucket, untouched otherwise. */
  function PrunedIf<I>(registered: bool, hs: seq<Handle<I>>, id: nat): seq<Handle<I>>
  {
    if registered then Without(hs, id) else hs
  }

  /** The callbacks left once those of handle `id` have run. */
  function Unsubscribed(ps: seq<(Bucket, nat)>, id: nat): (r: seq<(Bucket, nat)>)
    ensures forall p :: p in r <==> p in ps && p.1 != id
  {
    if ps == [] then [] else (if ps[0].1 == id then [] else [ps[0]]) + Unsubscribed(ps[1..], id)
  }

  /** One call per handle, in order. */
  function Broadcast<I>(hs: seq<Handle<I>>, request: Request): (r: seq<Call>)
    ensures |r| == |hs|
    ensures forall i :: 0 <= i < |hs| ==> r[i] == Call(request, hs[i].id)
  {
    if hs == [] then [] else Broadcast(hs[..|hs| - 1], request) + [Call(request, hs[|hs| - 1].id)]
  }

  /** A broadcast reaches exactly the handles it was given. */
  lemma BroadcastReaches<I>(hs: seq<Handle<I>>, request: Request, c: Call)
    ensures c in Broadcast(hs, request) <==> c.request == request && exists i :: 0 <= i < |hs| && hs[i].id == c.id
  {
    var r := Broadcast(hs, request);
    if c in r {
      var k :| 0 <= k < |r| && r[k] == c;
    }
    if c.request == request && exists i :: 0 <= i < |hs| && hs[i].id == c.id {
      var i :| 0 <= i < |hs| && hs[i].id == c.id;
      assert r[i] == c;
    }
  }

  /** The request sent to every handle of every group, group by group. */
  method BroadcastTo<I>(groups: seq<seq<Handle<I>>>, request: Request) returns (calls: seq<Call>)
    ensures calls == Broadcast(Concat(groups), request)
  {
    calls := [];
    for g := 0 to |groups|
      invariant calls == Broadcast(Concat(groups[..g]), request)
    {
      var done, group := Concat(groups[..g]), groups[g];
      for k := 0 to |group|
        invariant calls == Broadcast(done + group[..k], request)
      {
        BroadcastStep(done, group, k, request);
        calls := calls + [Call(request, group[k].id)];
      }
      assert group[..|group|] == group;
      ConcatStep(groups, g);
    }
    assert groups[..|groups|] == groups;
  }

  /** One more handle of the current group is called. */
  lemma BroadcastStep<I>(done: seq<Handle<I>>, group: seq<Handle<I>>, k: int, request: Request)
    requires 0 <= k < |group|
    ensures Broadcast(done + group[..k + 1], request) == Broadcast(done + group[..k], request) + [Call(request, group[k].id)]
  {
    var hs := done + group[..k + 1];
    assert hs[..|hs| - 1] == done + group[..k];
  }

  /** One more group is flattened. */
  lemma ConcatStep<T>(groups: seq<seq<T>>, g: int)
    requires 0 <= g < |groups|
    ensures Concat(groups[..g + 1]) == Concat(groups[..g]) + groups[g]
  {
    assert groups[..g + 1][..g] == groups[..g];
  }

  lemma ConcatOfTwo<T>(a: seq<T>, b: seq<T>)
    ensures Concat([a, b]) == a + b
  {
    assert [a, b][..1] == [a];
    assert [a][..0] == [];
    assert Concat([a]) == Concat([a][..0]) + a;
    assert Concat([a, b]) == Concat([a, b][..1]) + b;
  }

  lemma ConcatOfThree<T>(a: seq<T>, b: seq<T>, c: seq<T>)
    ensures Concat([a, b, c]) == a + b + c
  {
    assert [a, b, c][..2] == [a, b];
    assert Concat([a, b, c]) == Concat([a, b, c][..2]) + c;
    ConcatOfTwo(a, b);
  }

  class Store<I> {
    var move: seq<Handle<I>>
    var enter: seq<Handle<I>>
    var leave: seq<Handle<I>>
    /** The `finished.then` callbacks registered by AddAnimation that have
        not run yet: the bucket each one filters and the handle it drops. */
    var pending: seq<(Bucket, nat)>

    function Contents(b: Bucket): seq<Handle<I>>
      reads this
    {
      match b
      case Move => move
      case Enter => enter
      case Leave => leave
    }

    constructor ()
      ensures move == [] && enter == [] && leave == [] && pending == []
    {
      move, enter, leave, pending := [], [], [], [];
    }

    /** `addAnimation(animationName, animation)` */
    method AddAnimation(name: string, h: Handle<I>)
      modifies this
      ensures BucketNamed(name).None? || h.completed ==>
                move == old(move) && enter == old(enter) && leave == old(leave) && pending == old(pending)
      ensures BucketNamed(name).Some? && !h.completed ==>
                var b := BucketNamed(name).value;
                && Contents(b) == old(Contents(b)) + [h]
                && (forall c :: c != b ==> Contents(c) == old(Contents(c)))
                && pending == old(pending) + (if h.hasFinished then [(b, h.id)] else [])
    {
      var bucket := BucketNamed(name);
      if bucket.None? || h.completed {
        return;
      }
      match bucket.value {
        case Move => move := move + [h];
        case Enter => enter := enter + [h];
        case Leave => leave := leave + [h];
      }
      if h.hasFinished {
        pending := pending + [(bucket.value, h.id)];
      }
    }

    /** The `finished` promise of handle `id` resolves: each callback
        registered for it replaces its bucket by the bucket without the
        handle, and runs only once. */
    method OnFinished(id: nat)
      modifies this
      ensures move == PrunedIf((Move, id) in old(pending), old(move), id)
      ensures enter == PrunedIf((Enter, id) in old(pending), old(enter), id)
      ensures leave == PrunedIf((Leave, id) in old(pending), old(leave), id)
      ensures pending == Unsubscribed(old(pending), id)
    {
      var subscribed := pending;
      move := PrunedIf((Move, id) in subscribed, move, id);
      enter := PrunedIf((Enter, id) in subscribed, enter, id);
      leave := PrunedIf((Leave, id) in subscribed, leave, id);
      pending := Unsubscribed(subscribed, id);
    }

    /** The animation engine sets `completed` on handle `id`. */
    method MarkCompleted(id: nat)
      modifies this
      ensures move == Completing(old(move), id) && enter == Completing(old(enter), id)
      ensures leave == Completing(old(leave), id) && pending == old(pending)
    {
      move, enter, leave := Completing(move, id), Completing(enter, id), Completing(leave, id);
    }

    /** `removeAllAnimations()`: the leave bucket is kept. */
    method RemoveAllAnimations()
      modifies this
      ensures move == [] && enter == []
      ensures leave == old(leave) && pending == old(pending)
    {
      move, enter := [], [];
    }

    /** `hasActiveAnimations()` over `Object.values(this.animations)`. */
    function HasActiveAnimations(): (r: bool)
      reads this
      ensures r <==> exists b: Bucket, i :: 0 <= i < |Contents(b)| && !Contents(b)[i].completed
    {
      var r := AnyActive(move) || AnyActive(enter) || AnyActive(leave);
      assert r ==> exists b: Bucket, i :: 0 <= i < |Contents(b)| && !Contents(b)[i].completed by {
        if AnyActive(move) {
          assert Contents(Move) == move;
        } else if AnyActive(enter) {
          assert Contents(Enter) == enter;
        } else if AnyActive(leave) {
          assert Contents(Leave) == leave;
        }
      }
      r
    }

    /** `getActiveAnimations()`: flatten the buckets, keep the handles not
        completed, take their inner animations, flatten again. */
    function ActiveAnimations(): seq<I>
      reads this
    {
      Concat(ActiveInner(Concat([move, enter, leave])))
    }

    /** `pause()`: only the move and enter buckets are paused. */
    method Pause() returns (calls: seq<Call>)
      ensures calls == Broadcast(move + enter, PauseRequest)
    {
      calls := BroadcastTo([move, enter], PauseRequest);
      ConcatOfTwo(move, enter);
    }

    /** `playAll()`: every bucket, in the order move, enter, leave. */
    method PlayAll() returns (calls: seq<Call>)
      ensures calls == Broadcast(move + enter + leave, PlayRequest)
    {
      calls := BroadcastTo([move, enter, leave], PlayRequest);
      ConcatOfThree(move, enter, leave);
    }

    /** `seek(value)`: every bucket, in the order move, enter, leave. */
    method Seek(value: int) returns (calls: seq<Call>)
      ensures calls == Broadcast(move + enter + leave, SeekRequest(value))
    {
      calls := BroadcastTo([move, enter, leave], SeekRequest(value));
      ConcatOfThree(move, enter, leave);
    }
  }

  /** The inner animations of one bucket's non-completed handles. */
  function ActiveOf<I>(hs: seq<Handle<I>>): seq<I>
  {
    Concat(ActiveInner(hs))
  }

  /** `getActiveAnimations()` lists the move bucket's inner animations,
      then the enter bucket's, then the leave bucket's, each in insertion
      order. */
  lemma ActiveAnimationsInBucketOrder<I>(s: Store<I>)
    ensures s.ActiveAnimations() == ActiveOf(s.move) + ActiveOf(s.enter) + ActiveOf(s.leave)
  {
    ConcatOfThree(s.move, s.enter, s.leave);
    ActiveInnerAppend(s.move + s.enter, s.leave);
    ActiveInnerAppend(s.move, s.enter);
    var a, b, c := ActiveInner(s.move), ActiveInner(s.enter), ActiveInner(s.leave);
    ConcatAppend(a + b, c);
    ConcatAppend(a, b);
  }

  /** An inner animation is reported active exactly when some bucket holds
      a non-completed handle that lists it. */
  lemma ActiveAnimationsMembership<I>(s: Store<I>, x: I)
    ensures Contains(s.ActiveAnimations(), x)
        <==> exists b: Bucket, i :: 0 <= i < |s.Contents(b)| && !s.Contents(b)[i].completed
                                     && Contains(s.Contents(b)[i].animations, x)
  {
    var all := s.move + s.enter + s.leave;
    ConcatOfThree(s.move, s.enter, s.leave);
    FlattenMembership(ActiveInner(all), x);
    ActiveInnerMembership(all, x);
    if exists i :: 0 <= i < |all| && !all[i].completed && Contains(all[i].animations, x) {
      var i :| 0 <= i < |all| && !all[i].completed && Contains(all[i].animations, x);
      var b, j := BucketOfIndex(s, i);
    }
    if exists b: Bucket, i :: 0 <= i < |s.Contents(b)| && !s.Contents(b)[i].completed
                              && Contains(s.Contents(b)[i].animations, x) {
      var b: Bucket, i :| 0 <= i < |s.Contents(b)| && !s.Contents(b)[i].completed
                          && Contains(s.Contents(b)[i].animations, x);
      var k := IndexOfBucket(s, b, i);
    }
  }

  /** Position `i` of the buckets laid end to end lies in bucket `b` at `j`. */
  lemma BucketOfIndex<I>(s: Store<I>, i: int) returns (b: Bucket, j: int)
    requires 0 <= i < |s.move + s.enter + s.leave|
    ensures 0 <= j < |s.Contents(b)| && s.Contents(b)[j] == (s.move + s.enter + s.leave)[i]
  {
    var all := s.move + s.enter + s.leave;
    if i < |s.move| {
      b, j := Move, i;
    } else if i < |s.move| + |s.enter| {
      b, j := Enter, i - |s.move|;
    } else {
      b, j := Leave, i - |s.move| - |s.enter|;
    }
  }

  /** Entry `i` of bucket `b` sits at position `k` of the buckets laid end to end. */
  lemma IndexOfBucket<I>(s: Store<I>, b: Bucket, i: int) returns (k: int)
    requires 0 <= i < |s.Contents(b)|
    ensures 0 <= k < |s.move + s.enter + s.leave| && (s.move + s.enter + s.leave)[k] == s.Contents(b)[i]
  {
    match b
    case Move => k := i;
    case Enter => k := |s.move| + i;
    case Leave => k := |s.move| + |s.enter| + i;
  }

  /** A non-empty `getActiveAnimations()` implies `hasActiveAnimations()`. */
  lemma ActiveAnimationsNeedActiveHandle<I>(s: Store<I>)
    ensures |s.ActiveAnimations()| > 0 ==> s.HasActiveAnimations()
  {
    if |s.ActiveAnimations()| > 0 {
      var x := s.ActiveAnimations()[0];
      ActiveAnimationsMembership(s, x);
    }
  }
}
