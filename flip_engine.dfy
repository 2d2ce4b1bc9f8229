/** src/index.js: reading a node's in-flight translation out of the active
    animations, snapshotting the container's children with the vertical
    translation taken out, computing the inverse offsets that put each
    surviving node back where it was, and the `AnimateList` object that
    rotates its position snapshots on every child-list mutation. */
module FlipEngine {
  import opened Wrappers

  /** A JavaScript number as this code uses it: integral, or NaN (what
      arithmetic with `undefined` produces). */
  datatype Num = Fin(value: int) | NaN

  function Sub(a: Num, b: Num): Num
  {
    if a.Fin? && b.Fin? then Fin(a.value - b.value) else NaN
  }

  function Add(a: Num, b: Num): Num
  {
    if a.Fin? && b.Fin? then Fin(a.value + b.value) else NaN
  }

  /** Reading `transforms[k]` inside arithmetic: a missing key is
      `undefined` and turns the whole expression into NaN. */
  function Field(transforms: map<string, int>, k: string): Num
  {
    if k in transforms then Fin(transforms[k]) else NaN
  }

  /** One inner animation of an animation-engine instance: its `type`, the
      node it animates (`animatable.target`), the CSS `property` and its
      `currentValue`, already read as a number. */
  datatype Inner<N> = Inner(kind: string, target: N, property: string, currentValue: int)

  /** A transform animation whose target is `node`. */
  predicate Moves<N(==)>(a: Inner<N>, node: N)
  {
    a.kind == "transform" && a.target == node
  }

  predicate Unmatched<N(==)>(node: N, animations: seq<Inner<N>>)
  {
    forall i :: 0 <= i < |animations| ==> !Moves(animations[i], node)
  }

  /** No later matching animation sets the same property as the i-th. */
  predicate LastFor<N(==)>(node: N, animations: seq<Inner<N>>, i: int)
    requires 0 <= i < |animations|
  {
    forall j :: i < j < |animations| && Moves(animations[j], node) ==> animations[j].property != animations[i].property
  }

  const EmptyTransforms: map<string, int> := map["translateX" := 0, "translateY" := 0]

  /** The `filter` of matching animations followed by the `reduce` that
      writes `acc[property] = currentValue` in order, fused. */
  function Collect<N(==)>(node: N, animations: seq<Inner<N>>): map<string, int>
  {
    if animations == [] then map[]
    else
      var acc := Collect(node, animations[..|animations| - 1]);
      var a := animations[|animations| - 1];
      if Moves(a, node) then acc[a.property := a.currentValue] else acc
  }

  /** `getTransformsForNode(node, animations)` */
  function TransformsForNode<N(==)>(node: N, animations: seq<Inner<N>>): map<string, int>
  {
    if Unmatched(node, animations) then EmptyTransforms else Collect(node, animations)
  }

  lemma {:induction false} CollectKeys<N>(node: N, animations: seq<Inner<N>>, k: string)
    ensures k in Collect(node, animations)
        <==> exists i :: 0 <= i < |animations| && Moves(animations[i], node) && animations[i].property == k
    decreases |animations|
  {
    if animations != [] {
      var init := animations[..|animations| - 1];
      CollectKeys(node, init, k);
      if exists i :: 0 <= i < |init| && Moves(init[i], node) && init[i].property == k {
        var i :| 0 <= i < |init| && Moves(init[i], node) && init[i].property == k;
        assert animations[i] == init[i];
      }
      if exists i :: 0 <= i < |animations| && Moves(animations[i], node) && animations[i].property == k {
        var i :| 0 <= i < |animations| && Moves(animations[i], node) && animations[i].property == k;
        if i < |init| {
          assert init[i] == animations[i];
        }
      }
    }
  }

  lemma {:induction false} CollectValue<N>(node: N, animations: seq<Inner<N>>, i: int)
    requires 0 <= i < |animations| && Moves(animations[i], node) && LastFor(node, animations, i)
    ensures animations[i].property in Collect(node, animations)
    ensures Collect(node, animations)[animations[i].property] == animations[i].currentValue
    decreases |animations|
  {
    var n := |animations|;
    if i < n - 1 {
      var init := animations[..n - 1];
      assert init[i] == animations[i];
      assert LastFor(node, init, i) by {
        forall j | i < j < |init| && Moves(init[j], node)
          ensures init[j].property != init[i].property
        {
          assert init[j] == animations[j];
        }
      }
      CollectValue(node, init, i);
    }
  }

  /** Without a matching animation the transforms are translate (0, 0).
      With one, they hold exactly the matched properties (a missing
      `translateY` is not defaulted), each with the value of the last
      matching animation that sets it. */
  lemma TransformsForNodeSpec<N>(node: N, animations: seq<Inner<N>>, k: string, i: int)
    ensures Unmatched(node, animations) ==> TransformsForNode(node, animations) == map["translateX" := 0, "translateY" := 0]
    ensures !Unmatched(node, animations) ==>
              (k in TransformsForNode(node, animations)
               <==> exists j :: 0 <= j < |animations| && Moves(animations[j], node) && animations[j].property == k)
    ensures 0 <= i < |animations| && Moves(animations[i], node) && LastFor(node, animations, i) ==>
              && animations[i].property in TransformsForNode(node, animations)
              && TransformsForNode(node, animations)[animations[i].property] == animations[i].currentValue
  {
    CollectKeys(node, animations, k);
    if 0 <= i < |animations| && Moves(animations[i], node) && LastFor(node, animations, i) {
      CollectValue(node, animations, i);
    }
  }

  /** A bounding rectangle as the host reports it. */
  datatype ClientRect = ClientRect(x: int, y: int, top: int, bottom: int, left: int, right: int, width: int, height: int)

  /** A recorded rectangle: the vertical fields have the in-flight
      `translateY` taken out and may be NaN. */
  datatype Rect = Rect(x: int, y: Num, top: Num, bottom: Num, left: int, right: int, width: int, height: int)

  datatype Position<N> = Position(rect: Rect, node: N)

  /** The bounding rectangle of a node laid out at `layout` and displaced
      by `translateX(tx) translateY(ty)`. */
  function Shifted(layout: ClientRect, tx: int, ty: int): ClientRect
  {
    ClientRect(layout.x + tx, layout.y + ty, layout.top + ty, layout.bottom + ty,
               layout.left + tx, layout.right + tx, layout.width, layout.height)
  }

  /** The entry `getPositions` pushes for one child. */
  function PositionOf<N(==)>(child: (N, ClientRect), animations: seq<Inner<N>>): Position<N>
  {
    var (node, c) := child;
    var ty := Field(TransformsForNode(node, animations), "translateY");
    Position(Rect(c.x, Sub(Fin(c.y), ty), Sub(Fin(c.top), ty), Sub(Fin(c.bottom), ty),
                  c.left, c.right, c.width, c.height), node)
  }

  /** What `getPositions` returns for the children, in order. */
  function PositionsOf<N(==)>(children: seq<(N, ClientRect)>, animations: seq<Inner<N>>): (r: seq<Position<N>>)
    ensures |r| == |children|
    ensures forall i :: 0 <= i < |children| ==> r[i] == PositionOf(children[i], animations)
  {
    if children == [] then []
    else PositionsOf(children[..|children| - 1], animations) + [PositionOf(children[|children| - 1], animations)]
  }

  /** `getPositions(target, animations)`, with `target.children` and their
      bounding rectangles given as `children`. */
  method GetPositions<N(==)>(children: seq<(N, ClientRect)>, animations: seq<Inner<N>>) returns (positions: seq<Position<N>>)
    ensures positions == PositionsOf(children, animations)
  {
    positions := [];
    for k := 0 to |children|
      invariant positions == PositionsOf(children[..k], animations)
    {
      var (node, clientRect) := children[k];
      var transforms := TransformsForNode(node, animations);
      var ty := Field(transforms, "translateY");
      positions := positions + [Position(Rect(clientRect.x, Sub(Fin(clientRect.y), ty),
                                              Sub(Fin(clientRect.top), ty), Sub(Fin(clientRect.bottom), ty),
                                              clientRect.left, clientRect.right, clientRect.width, clientRect.height), node)];
      assert children[..k + 1][..k] == children[..k];
    }
    assert children[..|children|] == children;
  }

  /** The rectangle recorded for a bounding rectangle, unadjusted. */
  function Recorded(c: ClientRect): Rect
  {
    Rect(c.x, Fin(c.y), Fin(c.top), Fin(c.bottom), c.left, c.right, c.width, c.height)
  }

  /** With no animations in flight, every recorded rectangle is the
      bounding rectangle itself. */
  lemma PositionsWithoutAnimations<N>(children: seq<(N, ClientRect)>, i: int)
    requires 0 <= i < |children|
    ensures PositionsOf(children, [])[i] == Position(Recorded(children[i].1), children[i].0)
  {
    assert TransformsForNode(children[i].0, []) == EmptyTransforms;
  }

  /** For a node displaced by an in-flight `translateX(tx) translateY(ty)`,
      the recorded rectangle has the vertical displacement taken out and the
      horizontal one left in. A matching animation without `translateY`
      makes the vertical fields NaN. */
  lemma PositionUndoesVerticalTranslate<N>(node: N, layout: ClientRect, tx: int, ty: int, active: seq<Inner<N>>)
    ensures TransformsForNode(node, active) == map["translateX" := tx, "translateY" := ty] ==>
              PositionOf((node, Shifted(layout, tx, ty)), active).rect
                == Rect(layout.x + tx, Fin(layout.y), Fin(layout.top), Fin(layout.bottom),
                        layout.left + tx, layout.right + tx, layout.width, layout.height)
    ensures !Unmatched(node, active) && (forall j :: 0 <= j < |active| && Moves(active[j], node) ==> active[j].property != "translateY") ==>
              var r := PositionOf((node, layout), active).rect;
              r.y == NaN && r.top == NaN && r.bottom == NaN
  {
    if !Unmatched(node, active) {
      TransformsForNodeSpec(node, active, "translateY", 0);
    }
  }

  /** The first recorded entry for `node`, if any. */
  function FindPosition<N(==)>(ps: seq<Position<N>>, node: N): (r: Option<Position<N>>)
    ensures r.None? <==> forall i :: 0 <= i < |ps| ==> ps[i].node != node
    ensures r.Some? ==> exists i :: 0 <= i < |ps| && ps[i] == r.value && ps[i].node == node
                                    && forall j :: 0 <= j < i ==> ps[j].node != node
  {
    if ps == [] then None
    else if ps[0].node == node then Some(ps[0])
    else
      var r := FindPosition(ps[1..], node);
      assert r.Some? ==> exists i :: 0 <= i < |ps| && ps[i] == r.value && ps[i].node == node
                                     && forall j :: 0 <= j < i ==> ps[j].node != node by {
        if r.Some? {
          var i :| 0 <= i < |ps[1..]| && ps[1..][i] == r.value && ps[1..][i].node == node
                   && forall j :: 0 <= j < i ==> ps[1..][j].node != node;
          assert forall j :: 0 <= j < i + 1 ==> ps[j].node != node by {
            forall j | 0 <= j < i + 1
              ensures ps[j].node != node
            {
              if j > 0 {
                assert ps[j] == ps[1..][j - 1];
              }
            }
          }
          assert ps[i + 1] == ps[1..][i];
        }
      }
      r
  }

  /** The offset `moveBack` writes for a node found at `prev` before the
      mutation and at `pos` after it; the node's style becomes
      `translateX(dx px) translateY(dy px)`. */
  datatype Offset<N> = Offset(node: N, dx: int, dy: Num)

  function OffsetFor<N(==)>(prev: Position<N>, pos: Position<N>, animations: seq<Inner<N>>): Offset<N>
  {
    var transforms := TransformsForNode(prev.node, animations);
    Offset(pos.node, prev.rect.left - pos.rect.left,
           Add(Sub(prev.rect.top, pos.rect.top), Field(transforms, "translateY")))
  }

  /** The write made for one new position: none when its node has no
      previous entry, otherwise the offset from the first such entry. */
  function WriteFor<N(==)>(prev: seq<Position<N>>, pos: Position<N>, animations: seq<Inner<N>>): Option<Offset<N>>
  {
    match FindPosition(prev, pos.node)
    case None => None
    case Some(p) => Some(OffsetFor(p, pos, animations))
  }

  /** The style writes of `moveBack`, in the order of the new positions. */
  function MoveBackOffsets<N(==)>(prev: seq<Position<N>>, news: seq<Position<N>>, animations: seq<Inner<N>>): seq<Offset<N>>
  {
    if news == [] then []
    else
      MoveBackOffsets(prev, news[..|news| - 1], animations)
        + match WriteFor(prev, news[|news| - 1], animations)
          case None => []
          case Some(o) => [o]
  }

  /** `moveBack(prevPositions, newPositions, animations)`: the transform
      writes it makes, one per new position whose node was seen before. */
  method MoveBack<N(==)>(prev: seq<Position<N>>, news: seq<Position<N>>, animations: seq<Inner<N>>) returns (writes: seq<Offset<N>>)
    ensures writes == MoveBackOffsets(prev, news, animations)
  {
    writes := [];
    for k := 0 to |news|
      invariant writes == MoveBackOffsets(prev, news[..k], animations)
    {
      assert news[..k + 1][..k] == news[..k];
      var position := news[k];
      var prevPos := FindPosition(prev, position.node);
      if prevPos.None? {
        continue;
      }
      var transforms := TransformsForNode(prevPos.value.node, animations);
      var diffX := prevPos.value.rect.left - position.rect.left;
      var diffY := Add(Sub(prevPos.value.rect.top, position.rect.top), Field(transforms, "translateY"));
      writes := writes + [Offset(position.node, diffX, diffY)];
    }
    assert news[..|news|] == news;
  }

  /** A write is made exactly for each new position whose node has a
      previous entry, and uses the first such entry. */
  lemma MoveBackWrites<N>(prev: seq<Position<N>>, news: seq<Position<N>>, animations: seq<Inner<N>>, o: Offset<N>)
    ensures o in MoveBackOffsets(prev, news, animations)
        <==> exists i :: 0 <= i < |news| && WriteFor(prev, news[i], animations) == Some(o)
  {
    if o in MoveBackOffsets(prev, news, animations) {
      MoveBackWriteSource(prev, news, animations, o);
    }
    if exists i :: 0 <= i < |news| && WriteFor(prev, news[i], animations) == Some(o) {
      var i :| 0 <= i < |news| && WriteFor(prev, news[i], animations) == Some(o);
      MoveBackWriteMade(prev, news, animations, i);
    }
  }

  lemma {:induction false} MoveBackWriteMade<N>(prev: seq<Position<N>>, news: seq<Position<N>>, animations: seq<Inner<N>>, i: int)
    requires 0 <= i < |news| && WriteFor(prev, news[i], animations).Some?
    ensures WriteFor(prev, news[i], animations).value in MoveBackOffsets(prev, news, animations)
    decreases |news|
  {
    var init := news[..|news| - 1];
    if i < |init| {
      assert init[i] == news[i];
      MoveBackWriteMade(prev, init, animations, i);
    } else {
      var w := WriteFor(prev, news[i], animations).value;
      assert MoveBackOffsets(prev, news, animations) == MoveBackOffsets(prev, init, animations) + [w];
    }
  }

  lemma {:induction false} MoveBackWriteSource<N>(prev: seq<Position<N>>, news: seq<Position<N>>, animations: seq<Inner<N>>, o: Offset<N>)
    requires o in MoveBackOffsets(prev, news, animations)
    ensures exists i :: 0 <= i < |news| && WriteFor(prev, news[i], animations) == Some(o)
    decreases |news|
  {
    var init := news[..|news| - 1];
    if o in MoveBackOffsets(prev, init, animations) {
      MoveBackWriteSource(prev, init, animations, o);
      var i :| 0 <= i < |init| && WriteFor(prev, init[i], animations) == Some(o);
      assert news[i] == init[i];
    } else {
      assert WriteFor(prev, news[|news| - 1], animations) == Some(o);
    }
  }

  /** The number of writes: the new positions whose node was seen before. */
  function CountSeen<N(==)>(prev: seq<Position<N>>, news: seq<Position<N>>): nat
  {
    if news == [] then 0
    else CountSeen(prev, news[..|news| - 1]) + if FindPosition(prev, news[|news| - 1].node).Some? then 1 else 0
  }

  lemma {:induction false} MoveBackCount<N>(prev: seq<Position<N>>, news: seq<Position<N>>, animations: seq<Inner<N>>)
    ensures |MoveBackOffsets(prev, news, animations)| == CountSeen(prev, news)
    ensures (forall i :: 0 <= i < |news| ==> FindPosition(prev, news[i].node).None?) ==> MoveBackOffsets(prev, news, animations) == []
    decreases |news|
  {
    if news != [] {
      var init := news[..|news| - 1];
      MoveBackCount(prev, init, animations);
      assert forall i :: 0 <= i < |init| ==> init[i] == news[i];
    }
  }

  predicate DistinctNodes<N(==)>(children: seq<(N, ClientRect)>)
  {
    forall i, j :: 0 <= i < j < |children| ==> children[i].0 != children[j].0
  }

  /** A mutation that moves nothing, with no animation in flight, writes
      a zero offset for every child. */
  lemma MoveBackSteady<N>(children: seq<(N, ClientRect)>, o: Offset<N>)
    requires DistinctNodes(children)
    ensures var ps := PositionsOf(children, []);
            |MoveBackOffsets(ps, ps, [])| == |children|
            && (o in MoveBackOffsets(ps, ps, []) ==> o.dx == 0 && o.dy == Fin(0))
  {
    var ps := PositionsOf(children, []);
    DistinctPositions(children);
    AllFound(ps);
    SteadyCount(ps);
    if o in MoveBackOffsets(ps, ps, []) {
      MoveBackWriteSource(ps, ps, [], o);
      var i :| 0 <= i < |ps| && WriteFor(ps, ps[i], []) == Some(o);
      SteadyOffset(children, i);
    }
  }

  lemma SteadyCount<N>(ps: seq<Position<N>>)
    requires forall i :: 0 <= i < |ps| ==> FindPosition(ps, ps[i].node) == Some(ps[i])
    ensures |MoveBackOffsets(ps, ps, [])| == |ps|
  {
    MoveBackCount(ps, ps, []);
    CountAll(ps, ps);
  }

  lemma DistinctPositions<N>(children: seq<(N, ClientRect)>)
    requires DistinctNodes(children)
    ensures var ps := PositionsOf(children, []);
            forall a, b :: 0 <= a < b < |ps| ==> ps[a].node != ps[b].node
  {
    var ps := PositionsOf(children, []);
    forall a, b | 0 <= a < b < |ps|
      ensures ps[a].node != ps[b].node
    {
      assert ps[a].node == children[a].0 && ps[b].node == children[b].0;
    }
  }

  lemma AllFound<N>(ps: seq<Position<N>>)
    requires forall a, b :: 0 <= a < b < |ps| ==> ps[a].node != ps[b].node
    ensures forall i :: 0 <= i < |ps| ==> FindPosition(ps, ps[i].node) == Some(ps[i])
  {
    forall i | 0 <= i < |ps|
      ensures FindPosition(ps, ps[i].node) == Some(ps[i])
    {
      FindOwnEntry(ps, i);
    }
  }

  lemma FindOwnEntry<N>(ps: seq<Position<N>>, i: int)
    requires forall a, b :: 0 <= a < b < |ps| ==> ps[a].node != ps[b].node
    requires 0 <= i < |ps|
    ensures FindPosition(ps, ps[i].node) == Some(ps[i])
  {
    var r := FindPosition(ps, ps[i].node);
    assert r.Some?;
    var k :| 0 <= k < |ps| && ps[k] == r.value && ps[k].node == ps[i].node
             && forall j :: 0 <= j < k ==> ps[j].node != ps[i].node;
  }

  lemma SteadyOffset<N>(children: seq<(N, ClientRect)>, i: int)
    requires 0 <= i < |children|
    ensures var p := PositionsOf(children, [])[i];
            OffsetFor(p, p, []) == Offset(p.node, 0, Fin(0))
  {
    PositionsWithoutAnimations(children, i);
    assert TransformsForNode(children[i].0, []) == EmptyTransforms;
  }

  lemma {:induction false} CountAll<N>(prev: seq<Position<N>>, news: seq<Position<N>>)
    requires forall i :: 0 <= i < |news| ==> FindPosition(prev, news[i].node).Some?
    ensures CountSeen(prev, news) == |news|
    decreases |news|
  {
    if news != [] {
      var init := news[..|news| - 1];
      assert forall i :: 0 <= i < |init| ==> init[i] == news[i];
      CountAll(prev, init);
    }
  }

  /** A mutation arriving while a node is displaced by an in-flight
      `translateX(tx) translateY(ty)`: `prevRect` is what the previous cycle
      recorded, `layout` where the node now lies. The vertical offset puts
      the node exactly where it was on screen (`layout.top + dy == prevTop +
      ty`); the horizontal one does not account for `tx`, so the node lands
      at `prevRect.left - tx` instead of `prevRect.left + tx`. */
  lemma InterruptedMoveOffset<N>(node: N, prevRect: Rect, layout: ClientRect, tx: int, ty: int, active: seq<Inner<N>>)
    requires prevRect.top.Fin?
    requires TransformsForNode(node, active) == map["translateX" := tx, "translateY" := ty]
    ensures var o := OffsetFor(Position(prevRect, node), PositionOf((node, Shifted(layout, tx, ty)), active), active);
            && o.dy == Fin(prevRect.top.value + ty - layout.top)
            && o.dx == prevRect.left - tx - layout.left
  {
    PositionUndoesVerticalTranslate(node, layout, tx, ty, active);
  }

  /** An animation-engine instance started by `AnimateList.animate`:
      its targets, the values it animates towards, whether it completed or
      was paused, and its inner animations. */
  datatype AnimeInstance<N> = AnimeInstance(targets: seq<N>, to: map<string, int>, completed: bool, paused: bool,
                                            animations: seq<Inner<N>>)

  /** `anime({targets, translateX: 0, translateY: 0})`; `inner` is the list
      of inner animations the engine builds for it. */
  function Anime<N>(targets: seq<N>, inner: seq<Inner<N>>): AnimeInstance<N>
  {
    AnimeInstance(targets, EmptyTransforms, false, false, inner)
  }

  /** The node of each position, in order. */
  function Nodes<N>(ps: seq<Position<N>>): (r: seq<N>)
    ensures |r| == |ps| && forall i :: 0 <= i < |ps| ==> r[i] == ps[i].node
  {
    if ps == [] then [] else Nodes(ps[..|ps| - 1]) + [ps[|ps| - 1].node]
  }

  class AnimateList<N(==)> {
    var currentPositions: seq<Position<N>>
    var prevPositions: Option<seq<Position<N>>>
    var newPositions: Option<seq<Position<N>>>
    var animation: Option<AnimeInstance<N>>

    /** An instance was started and has not completed. */
    predicate InFlight()
      reads this
    {
      animation.Some? && !animation.value.completed
    }

    /** The animations `animateChange` takes into account. */
    function ActiveAnimations(): seq<Inner<N>>
      reads this
    {
      if InFlight() then animation.value.animations else []
    }

    /** `new AnimateList(target)`: the first snapshot, taken with no
        animations. */
    constructor (children: seq<(N, ClientRect)>)
      ensures currentPositions == PositionsOf(children, [])
      ensures prevPositions == None && newPositions == None && animation == None
    {
      var positions := GetPositions(children, []);
      currentPositions := positions;
      prevPositions, newPositions, animation := None, None, None;
    }

    /** `animateChange(mutations)`: `children` are the container's children
        with their bounding rectangles once the mutation has landed, and
        `inner` the inner animations of the instance it starts. Returns the
        transform writes and whether the previous instance was paused. */
    method AnimateChange(children: seq<(N, ClientRect)>, inner: seq<Inner<N>>) returns (writes: seq<Offset<N>>, pausedPrevious: bool)
      modifies this
      ensures pausedPrevious == old(InFlight())
      ensures newPositions == Some(PositionsOf(children, old(ActiveAnimations())))
      ensures writes == MoveBackOffsets(old(currentPositions), PositionsOf(children, old(ActiveAnimations())), old(ActiveAnimations()))
      ensures prevPositions == Some(old(currentPositions))
      ensures currentPositions == PositionsOf(children, old(ActiveAnimations()))
      ensures animation == Some(Anime(Nodes(currentPositions), inner))
      ensures |animation.value.targets| == |children|
      ensures forall i :: 0 <= i < |children| ==> animation.value.targets[i] == children[i].0
    {
      var shouldAccountForAnimation := animation.Some? && !animation.value.completed;
      var activeAnimations := if shouldAccountForAnimation then animation.value.animations else [];
      var positions := GetPositions(children, activeAnimations);
      newPositions := Some(positions);
      writes := MoveBack(currentPositions, positions, activeAnimations);
      pausedPrevious := false;
      if shouldAccountForAnimation {
        Pause();
        pausedPrevious := true;
      }
      var _ := Animate(Nodes(positions), inner);
      prevPositions := Some(currentPositions);
      currentPositions := positions;
    }

    /** `animate(targets)`: starts an instance that moves every target to
        translate (0, 0). */
    method Animate(targets: seq<N>, inner: seq<Inner<N>>) returns (instance: AnimeInstance<N>)
      modifies this
      ensures instance == Anime(targets, inner) && animation == Some(instance)
      ensures currentPositions == old(currentPositions) && prevPositions == old(prevPositions)
      ensures newPositions == old(newPositions)
    {
      instance := Anime(targets, inner);
      animation := Some(instance);
    }

    /** `pause()`: does nothing when no instance was started. */
    method Pause()
      modifies this
      ensures old(animation).None? ==> animation == None
      ensures old(animation).Some? ==> animation == Some(old(animation).value.(paused := true))
      ensures currentPositions == old(currentPositions) && prevPositions == old(prevPositions)
      ensures newPositions == old(newPositions)
    {
      if animation.Some? {
        animation := Some(animation.value.(paused := true));
      }
    }

    /** The animation engine advances the running instance: its inner
        animations now report `inner`. */
    method EngineFrame(inner: seq<Inner<N>>)
      modifies this
      ensures InFlight() == old(InFlight())
      ensures old(InFlight()) && !old(animation).value.paused ==>
                animation == Some(old(animation).value.(animations := inner))
      ensures !(old(InFlight()) && !old(animation).value.paused) ==> animation == old(animation)
      ensures currentPositions == old(currentPositions) && prevPositions == old(prevPositions)
      ensures newPositions == old(newPositions)
    {
      if animation.Some? && !animation.value.completed && !animation.value.paused {
        animation := Some(animation.value.(animations := inner));
      }
    }

    /** The animation engine finishes the running instance. */
    method EngineComplete()
      modifies this
      ensures old(InFlight()) && !old(animation).value.paused ==>
                animation == Some(old(animation).value.(completed := true))
      ensures !(old(InFlight()) && !old(animation).value.paused) ==> animation == old(animation)
      ensures currentPositions == old(currentPositions) && prevPositions == old(prevPositions)
      ensures newPositions == old(newPositions)
    {
      if animation.Some? && !animation.value.completed && !animation.value.paused {
        animation := Some(animation.value.(completed := true));
      }
    }
  }
}
