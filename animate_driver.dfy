/** examples/src/animate.js: a minimal animation driver built on CSS
    transitions. `getTransformValue` renders the translate keys of the
    target values as a CSS transform; `animate` applies the styles once its
    first timer fires and marks the animation completed once its second
    timer resolves the `finished` promise. */
module AnimateDriver {
  import opened Wrappers
  import Text

  /** A value of the `to` object: an integral number, `null` or `undefined`. */
  datatype Value = Number(n: int) | Null | Undefined

  /** The `to` object: its keys in `Object.keys` order, each with its value. */
  type Props = seq<(string, Value)>

  /** `${value}` inside a template literal. */
  function ValueText(v: Value): string
  {
    match v
    case Number(n) => Text.IntText(n)
    case Null => "null"
    case Undefined => "undefined"
  }

  lemma ValueTextHasNoBlank(v: Value)
    ensures |ValueText(v)| > 0 && ' ' !in ValueText(v)
  {
    if v.Number? {
      Text.IntTextCharset(v.n);
    }
  }

  /** The two keys rendered into the transform. */
  predicate IsTranslate(key: string)
  {
    key == "translateX" || key == "translateY"
  }

  /** One piece of the transform: the key, then its value in pixels in parentheses. */
  function Part(key: string, v: Value): string
  {
    key + "(" + ValueText(v) + "px)"
  }

  /** The `filter` to translate keys followed by the `reduce` that pushes
      each rendered part. */
  function TransformParts(to: Props): seq<string>
  {
    if to == [] then [] else PartOf(to[0]) + TransformParts(to[1..])
  }

  /** The part one key contributes: none unless it is a translate key. */
  function PartOf(entry: (string, Value)): seq<string>
  {
    if IsTranslate(entry.0) then [Part(entry.0, entry.1)] else []
  }

  /** The pieces separated by single blanks. */
  function Join(parts: seq<string>): string
  {
    if |parts| == 0 then ""
    else if |parts| == 1 then parts[0]
    else parts[0] + " " + Join(parts[1..])
  }

  /** `getTransformValue(to)` */
  function GetTransformValue(to: Props): string
  {
    Join(TransformParts(to))
  }

  /** `s.split(' ')`: the pieces between single blanks (at least one). */
  function Split(s: string): (r: seq<string>)
    ensures |r| >= 1
  {
    if s == [] then [""]
    else if s[0] == ' ' then [""] + Split(s[1..])
    else var rest := Split(s[1..]); [[s[0]] + rest[0]] + rest[1..]
  }

  /** Parts appear in the key order of `to`: the rendering works piecewise. */
  lemma {:induction false} TransformPartsAppend(a: Props, b: Props)
    ensures TransformParts(a + b) == TransformParts(a) + TransformParts(b)
    decreases |a|
  {
    if a == [] {
      assert a + b == b;
    } else {
      assert (a + b)[0] == a[0] && (a + b)[1..] == a[1..] + b;
      TransformPartsAppend(a[1..], b);
    }
  }

  /** Each part renders a translate key of `to` with its value, and every
      translate key of `to` is rendered; no other key (`opacity` included)
      ever appears. */
  lemma {:induction false} TransformPartsMembership(to: Props, p: string)
    ensures p in TransformParts(to) <==> exists i :: 0 <= i < |to| && IsTranslate(to[i].0) && p == Part(to[i].0, to[i].1)
    decreases |to|
  {
    if to != [] {
      TransformPartsMembership(to[1..], p);
      if exists i :: 0 <= i < |to[1..]| && IsTranslate(to[1..][i].0) && p == Part(to[1..][i].0, to[1..][i].1) {
        var i :| 0 <= i < |to[1..]| && IsTranslate(to[1..][i].0) && p == Part(to[1..][i].0, to[1..][i].1);
        assert to[i + 1] == to[1..][i];
      }
      if exists i :: 0 <= i < |to| && IsTranslate(to[i].0) && p == Part(to[i].0, to[i].1) {
        var i :| 0 <= i < |to| && IsTranslate(to[i].0) && p == Part(to[i].0, to[i].1);
        if i > 0 {
          assert to[1..][i - 1] == to[i];
        }
      }
    }
  }

  lemma {:induction false} PartsHaveNoBlank(to: Props)
    ensures forall p :: p in TransformParts(to) ==> |p| > 0 && ' ' !in p
    decreases |to|
  {
    if to != [] {
      PartsHaveNoBlank(to[1..]);
      if IsTranslate(to[0].0) {
        PartHasNoBlank(to[0].0, to[0].1);
      }
    }
  }

  lemma PartHasNoBlank(key: string, v: Value)
    requires IsTranslate(key)
    ensures |Part(key, v)| > 0 && ' ' !in Part(key, v)
  {
    ValueTextHasNoBlank(v);
    assert ' ' !in key;
    assert Part(key, v) == key + ("(" + ValueText(v) + "px)");
  }

  /** The transform value is empty exactly when `to` has no translate key. */
  lemma GetTransformValueEmpty(to: Props)
    ensures GetTransformValue(to) == "" <==> forall i :: 0 <= i < |to| ==> !IsTranslate(to[i].0)
  {
    var parts := TransformParts(to);
    PartsHaveNoBlank(to);
    if parts != [] {
      assert parts[0] in parts;
      TransformPartsMembership(to, parts[0]);
      JoinStartsWith(parts);
    } else {
      forall i | 0 <= i < |to|
        ensures !IsTranslate(to[i].0)
      {
        TransformPartsMembership(to, Part(to[i].0, to[i].1));
      }
    }
  }

  lemma {:induction false} JoinStartsWith(parts: seq<string>)
    requires |parts| > 0
    ensures |Join(parts)| >= |parts[0]|
    decreases |parts|
  {
    if |parts| > 1 {
      JoinStartsWith(parts[1..]);
    }
  }

  /** Splitting a text that starts with a blank-free prefix. */
  lemma {:induction false} SplitPrefix(p: string, rest: string)
    requires ' ' !in p
    ensures Split(p + rest) == [p + Split(rest)[0]] + Split(rest)[1..]
    decreases |p|
  {
    if p != [] {
      assert (p + rest)[0] == p[0] && (p + rest)[1..] == p[1..] + rest;
      SplitPrefix(p[1..], rest);
      assert [p[0]] + (p[1..] + Split(rest)[0]) == p + Split(rest)[0];
    } else {
      assert p + rest == rest;
      assert Split(rest) == [Split(rest)[0]] + Split(rest)[1..];
      assert p + Split(rest)[0] == Split(rest)[0];
    }
  }

  /** `split(' ')` undoes `join(' ')` on non-empty, blank-free parts. */
  lemma {:induction false} SplitJoin(parts: seq<string>)
    requires |parts| > 0
    requires forall p :: p in parts ==> |p| > 0 && ' ' !in p
    ensures Split(Join(parts)) == parts
    decreases |parts|
  {
    var head := parts[0];
    assert head in parts;
    if |parts| == 1 {
      SplitBlankFree(head);
    } else {
      var tail := Join(parts[1..]);
      assert forall p :: p in parts[1..] ==> p in parts;
      SplitJoin(parts[1..]);
      SplitAtFirstBlank(head, tail);
      assert [head] + parts[1..] == parts;
    }
  }

  /** A blank-free piece, a blank, then the rest: the piece comes off whole. */
  lemma SplitAtFirstBlank(head: string, tail: string)
    requires ' ' !in head
    ensures Split(head + " " + tail) == [head] + Split(tail)
  {
    var blankTail := " " + tail;
    assert head + " " + tail == head + blankTail;
    SplitPrefix(head, blankTail);
    SplitAfterBlank(tail);
    assert head + "" == head;
  }

  lemma {:induction false} SplitBlankFree(p: string)
    requires ' ' !in p
    ensures Split(p) == [p]
    decreases |p|
  {
    if p != [] {
      SplitBlankFree(p[1..]);
      assert [p[0]] + p[1..] == p;
    }
  }

  lemma SplitAfterBlank(tail: string)
    ensures Split(" " + tail) == [""] + Split(tail)
  {
    var s := " " + tail;
    assert s[0] == ' ' && s[1..] == tail;
  }

  /** The rendered parts are recovered by splitting the transform value
      on blanks: the value is the parts joined by single spaces. */
  lemma GetTransformValueParts(to: Props)
    requires exists i :: 0 <= i < |to| && IsTranslate(to[i].0)
    ensures Split(GetTransformValue(to)) == TransformParts(to)
  {
    var i :| 0 <= i < |to| && IsTranslate(to[i].0);
    TransformPartsMembership(to, Part(to[i].0, to[i].1));
    PartsHaveNoBlank(to);
    SplitJoin(TransformParts(to));
  }

  /** The style properties the driver writes on a node. */
  datatype Style = Style(transition: string, transform: string, opacity: string)

  const Unstyled := Style("", "", "")

  function StyleOf<N>(styles: map<N, Style>, n: N): Style
  {
    if n in styles then styles[n] else Unstyled
  }

  /** `to[key]`, or None when the key is absent. */
  function Lookup(to: Props, key: string): Option<Value>
  {
    if to == [] then None else if to[0].0 == key then Some(to[0].1) else Lookup(to[1..], key)
  }

  /** The target values name an opacity that is neither null nor undefined. */
  predicate RequestsOpacity(to: Props)
  {
    var v := Lookup(to, "opacity");
    v.Some? && v.value.Number?
  }

  /** One target's style after the apply step. */
  function Applied(s: Style, to: Props, transition: string): Style
  {
    var transformValue := GetTransformValue(to);
    Style(transition,
          if transformValue != "" then transformValue else s.transform,
          if RequestsOpacity(to) then "1" else s.opacity)
  }

  /** `after` is `before` with the apply step done on every target and no
      other node touched. */
  ghost predicate AppliedTo<N>(targets: seq<N>, to: Props, transition: string, before: map<N, Style>, after: map<N, Style>)
  {
    && after.Keys == before.Keys + (set i | 0 <= i < |targets| :: targets[i])
    && (forall n :: n in targets ==> after[n] == Applied(StyleOf(before, n), to, transition))
    && (forall n :: n in before && n !in targets ==> after[n] == before[n])
  }

  lemma AppliedTwice(s: Style, to: Props, transition: string)
    ensures Applied(Applied(s, to, transition), to, transition) == Applied(s, to, transition)
  {
  }

  /** The `targets.forEach` run by the first timer. Every target gets the
      transition; the transform is written only when the translate keys
      render to a non-empty value, and then it is exactly that value; when
      `to.opacity` is set the opacity becomes 1 whatever was requested. */
  method ApplyStep<N(==)>(targets: seq<N>, to: Props, transition: string, styles: map<N, Style>) returns (result: map<N, Style>)
    ensures AppliedTo(targets, to, transition, styles, result)
    ensures forall n :: n in targets ==> result[n].transition == transition
    ensures forall n :: n in targets ==>
              result[n].transform == if (exists i :: 0 <= i < |to| && IsTranslate(to[i].0))
                                     then GetTransformValue(to) else StyleOf(styles, n).transform
    ensures forall n :: n in targets ==> result[n].opacity == if RequestsOpacity(to) then "1" else StyleOf(styles, n).opacity
  {
    result := styles;
    for k := 0 to |targets|
      invariant forall n :: n in result <==> n in styles || n in targets[..k]
      invariant forall n :: n in targets[..k] ==> result[n] == Applied(StyleOf(styles, n), to, transition)
      invariant forall n :: n in styles && n !in targets[..k] ==> result[n] == styles[n]
    {
      var node := targets[k];
      var style := StyleOf(result, node);
      var transformValue := GetTransformValue(to);
      style := style.(transition := transition);
      if transformValue != "" {
        style := style.(transform := transformValue);
      }
      if RequestsOpacity(to) {
        style := style.(opacity := "1");
      }
      assert style == Applied(StyleOf(result, node), to, transition);
      AppliedTwice(StyleOf(styles, node), to, transition);
      assert style == Applied(StyleOf(styles, node), to, transition);
      result := result[node := style];
      assert targets[..k + 1] == targets[..k] + [node];
    }
    assert targets[..|targets|] == targets;
    AppliedToFields(targets, to, transition, styles, result);
  }

  /** What the apply step leaves on each target, field by field. */
  lemma AppliedToFields<N>(targets: seq<N>, to: Props, transition: string, before: map<N, Style>, after: map<N, Style>)
    requires AppliedTo(targets, to, transition, before, after)
    ensures forall n :: n in targets ==> after[n].transition == transition
    ensures forall n :: n in targets ==>
              after[n].transform == if (exists i :: 0 <= i < |to| && IsTranslate(to[i].0))
                                    then GetTransformValue(to) else StyleOf(before, n).transform
    ensures forall n :: n in targets ==> after[n].opacity == if RequestsOpacity(to) then "1" else StyleOf(before, n).opacity
  {
    GetTransformValueEmpty(to);
  }

  /** The `animationData` object of one `animate(...)` call together with
      the state of its two timers. */
  class Animation<N(==)> {
    const targets: seq<N>
    const to: Props
    const duration: int
    const transition: string
    /** `animationData.completed` */
    var completed: bool
    /** The first timer (the apply step) is scheduled and has not run. */
    var applyPending: bool
    /** The second timer (resolving the promise) is scheduled and has not run. */
    var resolvePending: bool

    /** The timers run in order and completion comes last. */
    ghost predicate Valid()
      reads this
    {
      && (applyPending ==> !resolvePending && !completed)
      && (resolvePending ==> !completed)
    }

    /** `animate({targets, to, duration, transition})`: nothing is applied
        yet and the animation is not completed. */
    constructor (targets: seq<N>, to: Props, duration: int, transition: string)
      ensures Valid()
      ensures this.targets == targets && this.to == to && this.duration == duration && this.transition == transition
      ensures !completed && applyPending && !resolvePending
    {
      this.targets, this.to, this.duration, this.transition := targets, to, duration, transition;
      completed, applyPending, resolvePending := false, true, false;
    }

    /** The first timer fires: the apply step runs over the targets and the
        second timer is scheduled. `completed` does not change. */
    method FireApplyTimer(styles: map<N, Style>) returns (result: map<N, Style>)
      requires Valid()
      modifies this
      ensures Valid() && completed == old(completed)
      ensures old(applyPending) ==> AppliedTo(targets, to, transition, styles, result) && !applyPending && resolvePending
      ensures !old(applyPending) ==> result == styles && applyPending == old(applyPending) && resolvePending == old(resolvePending)
    {
      if !applyPending {
        return styles;
      }
      result := ApplyStep(targets, to, transition, styles);
      applyPending, resolvePending := false, true;
    }

    /** The second timer fires: the promise resolves and the continuation
        that defines `finished` sets `completed`. */
    method FireResolveTimer()
      requires Valid()
      modifies this
      ensures Valid()
      ensures completed == (old(completed) || old(resolvePending))
      ensures !resolvePending && applyPending == old(applyPending)
    {
      if resolvePending {
        resolvePending := false;
        completed := true;
      }
    }

    /** `destroy()`: both timers are cleared, so an animation destroyed
        before its second timer never completes. */
    method Destroy()
      requires Valid()
      modifies this
      ensures Valid()
      ensures !applyPending && !resolvePending && completed == old(completed)
    {
      applyPending, resolvePending := false, false;
    }

    /** `pause()` does nothing. */
    method Pause()
      ensures completed == old(completed) && applyPending == old(applyPending)
      ensures resolvePending == old(resolvePending)
    {
    }
  }
}
