/** The two structural contexts of the WXF serializer.

    `SerializationContext` enforces that the number of parts written at every
    level matches the declared length; it keeps three parallel list-stacks
    indexed by a depth cursor and reuses their slots as it goes up and down.
    `NoEnforcingContext` trusts the caller and checks nothing. The abstract
    `_Context` base class becomes the tagged union `ActiveContext`. */
module Context {
  import opened Base
  import ContextSpec

  /** `_set_at_index_or_append`: overwrite slot `index`, or append when it is
      one past the end; an index further out raises `IndexError`. */
  function SetAtIndexOrAppend<T>(s: seq<T>, index: nat, value: T): (r: Result<seq<T>>)
    ensures r.Success? <==> index <= |s|
    ensures r.Failure? ==> r.error == IndexError
    ensures r.Success? ==> |r.value| == (if index == |s| then |s| + 1 else |s|)
    ensures r.Success? ==> r.value[index] == value
    ensures r.Success? ==> forall k :: 0 <= k < |s| && k != index ==> r.value[k] == s[k]
  {
    if |s| == index then Success(s + [value])
    else if |s| > index then Success(s[index := value])
    else Failure(IndexError)
  }

  /** The list position Python reads for `stack[depth]`, where depth -1
      means the last element. */
  function Slot(depth: int, len: nat): (i: nat)
    requires -1 <= depth < len && len >= 1
    ensures i < len
    ensures depth >= 0 ==> i == depth
    ensures depth == -1 ==> i == len - 1
  {
    if depth < 0 then len + depth else depth
  }

  /** The frames at levels `0..depth` of three parallel stacks. */
  ghost function LiveFrames(depth: int, expected: seq<int>, index: seq<int>, assoc: seq<bool>): (fs: seq<ContextSpec.Frame>)
    requires -1 <= depth < |expected|
    requires |index| == |expected| && |assoc| == |expected|
    ensures |fs| == depth + 1
  {
    seq(depth + 1, k requires 0 <= k <= depth => ContextSpec.Frame(expected[k], index[k], assoc[k]))
  }

  /** Lowering the cursor keeps the frames below it. */
  lemma LiveFramesPrefix(depth: int, depth0: int, expected: seq<int>, index: seq<int>, assoc: seq<bool>)
    requires -1 <= depth <= depth0 < |expected|
    requires |index| == |expected| && |assoc| == |expected|
    ensures LiveFrames(depth, expected, index, assoc) == LiveFrames(depth0, expected, index, assoc)[..depth + 1]
  {
  }

  /** Raising the cursor by one onto slots that agree below it pushes the
      frame found at the new slot. */
  lemma PushTop(depth: int, expected: seq<int>, index: seq<int>, assoc: seq<bool>,
                expected': seq<int>, index': seq<int>, assoc': seq<bool>)
    requires -1 <= depth < |expected| && |index| == |expected| && |assoc| == |expected|
    requires depth + 1 < |expected'| && |index'| == |expected'| && |assoc'| == |expected'|
    requires forall k :: 0 <= k <= depth ==> expected'[k] == expected[k]
    requires forall k :: 0 <= k <= depth ==> index'[k] == index[k]
    requires forall k :: 0 <= k <= depth ==> assoc'[k] == assoc[k]
    ensures LiveFrames(depth + 1, expected', index', assoc') ==
      LiveFrames(depth, expected, index, assoc) +
      [ContextSpec.Frame(expected'[depth + 1], index'[depth + 1], assoc'[depth + 1])]
  {
  }

  class SerializationContext {
    var depth: int
    var expectedLength: seq<int>
    var currentIndex: seq<int>
    var inAssoc: seq<bool>

    /** The cursor points into the three stacks, which have equal lengths. */
    ghost predicate Shape()
      reads this
    {
      -1 <= depth < |expectedLength| && |expectedLength| >= 1 &&
      |currentIndex| == |expectedLength| &&
      |inAssoc| == |expectedLength|
    }

    /** The live frames, bottom first; there are `depth + 1` of them, one per
        open expression whose parts are not all written yet. */
    ghost function Frames(): seq<ContextSpec.Frame>
      reads this
      requires Shape()
    {
      LiveFrames(depth, expectedLength, currentIndex, inAssoc)
    }

    /** Class invariant: completed frames never stay on the stack. */
    ghost predicate Valid()
      reads this
    {
      Shape() && ContextSpec.NoComplete(Frames())
    }

    /** `__init__`: the root frame expects exactly one expression. */
    constructor ()
      ensures Valid() && Frames() == ContextSpec.Fresh() && !IsValidFinalState()
      ensures depth == 0 && expectedLength == [1] && currentIndex == [0] && inAssoc == [false]
    {
      depth := 0;
      expectedLength := [1];
      currentIndex := [0];
      inAssoc := [false];
    }

    /** `_check_insert`: raises exactly when there is a live frame and it
        already has all its declared parts. */
    method CheckInsert() returns (r: Outcome)
      requires Shape()
      ensures r.Fail? <==> depth >= 0 && currentIndex[depth] >= expectedLength[depth]
      ensures r.Fail? ==> r.error == IndexError
      ensures Valid() ==> (r.Fail? <==> ContextSpec.AddPart(Frames()).Failure?)
    {
      if depth >= 0 && currentIndex[depth] >= expectedLength[depth] {
        return Fail(IndexError);
      }
      return Pass;
    }

    /** `_step_out_finalized_expr`: leave every complete level, from the top
        down, and stop at the first one still expecting parts. */
    method StepOutFinalizedExpr()
      requires Shape()
      modifies this`depth
      ensures Shape()
      ensures -1 <= depth <= old(depth)
      ensures depth >= 0 ==> currentIndex[depth] != expectedLength[depth]
      ensures forall k :: depth < k <= old(depth) ==> currentIndex[k] == expectedLength[k]
      ensures Frames() == ContextSpec.PopComplete(old(Frames()))
    {
      while depth >= 0 && currentIndex[depth] == expectedLength[depth]
        invariant Shape()
        invariant -1 <= depth <= old(depth)
        invariant forall k :: depth < k <= old(depth) ==> currentIndex[k] == expectedLength[k]
      {
        depth := depth - 1;
      }
      LiveFramesPrefix(depth, old(depth), expectedLength, currentIndex, inAssoc);
      ContextSpec.PopCompleteAt(old(Frames()), depth + 1);
    }

    /** `add_part`: one more part at the current level, then pop what is
        complete. At depth -1 the bound check is skipped and the part lands
        in the last slot of the index stack. */
    method AddPart() returns (r: Outcome)
      requires Valid()
      modifies this
      ensures Valid()
      ensures r.Fail? <==> old(depth) >= 0 && old(currentIndex[depth] >= expectedLength[depth])
      ensures r.Fail? ==> r.error == IndexError && unchanged(this)
      ensures r.Pass? ==>
        currentIndex == old(currentIndex[Slot(depth, |currentIndex|) := currentIndex[Slot(depth, |currentIndex|)] + 1])
      ensures expectedLength == old(expectedLength) && inAssoc == old(inAssoc)
      ensures r.Fail? <==> ContextSpec.AddPart(old(Frames())).Failure?
      ensures r.Pass? ==> Frames() == ContextSpec.AddPart(old(Frames())).value
    {
      ghost var frames := Frames();
      r := CheckInsert();
      if r.Fail? {
        return;
      }
      var slot := Slot(depth, |currentIndex|);
      currentIndex := currentIndex[slot := currentIndex[slot] + 1];
      assert frames != [] ==>
        Frames() == frames[|frames| - 1 := ContextSpec.Last(frames).(index := ContextSpec.Last(frames).index + 1)];
      StepOutFinalizedExpr();
      ContextSpec.StepKeepsNoComplete(frames, ContextSpec.Part);
    }

    /** `step_in_new_expr`: the new expression counts as one part of the
        current level (which may complete and leave it), then a frame
        `(length, 0, is_assoc)` is written one level up, reusing the slot or
        appending one, and left at once if `length` is zero. */
    method StepInNewExpr(length: int, isAssoc: bool) returns (r: Outcome)
      requires Valid()
      modifies this
      ensures Valid()
      ensures r.Fail? <==> ContextSpec.StepIn(old(Frames()), length, isAssoc).Failure?
      ensures r.Fail? ==> r.error == IndexError && unchanged(this)
      ensures r.Pass? ==> Frames() == ContextSpec.StepIn(old(Frames()), length, isAssoc).value
      ensures r.Pass? ==>
        // the new frame goes one above the levels left open by counting it
        var up := |ContextSpec.AddPart(old(Frames())).value|;
        var counted := old(currentIndex[Slot(depth, |currentIndex|) := currentIndex[Slot(depth, |currentIndex|)] + 1]);
        expectedLength == SetAtIndexOrAppend(old(expectedLength), up, length).value &&
        currentIndex == SetAtIndexOrAppend(counted, up, 0).value &&
        inAssoc == SetAtIndexOrAppend(old(inAssoc), up, isAssoc).value
    {
      ghost var frames := Frames();
      r := AddPart();
      if r.Fail? {
        return;
      }
      ghost var counted := Frames();
      assert ContextSpec.AddPart(frames) == Success(counted) && |counted| == depth + 1;
      WriteFrame(length, isAssoc);
      StepOutFinalizedExpr();
      assert ContextSpec.StepIn(frames, length, isAssoc) == Success(Frames());
      ContextSpec.StepKeepsNoComplete(frames, ContextSpec.Enter(length, isAssoc));
    }

    /** The slot writes of `step_in_new_expr`: one level up, the frame
        `(length, 0, is_assoc)` overwrites the stale slots or is appended;
        every other slot keeps its value. */
    method WriteFrame(length: int, isAssoc: bool)
      requires Shape() && depth + 1 <= |expectedLength|
      modifies this
      ensures Shape()
      ensures depth == old(depth) + 1
      ensures expectedLength == SetAtIndexOrAppend(old(expectedLength), old(depth) + 1, length).value
      ensures currentIndex == SetAtIndexOrAppend(old(currentIndex), old(depth) + 1, 0).value
      ensures inAssoc == SetAtIndexOrAppend(old(inAssoc), old(depth) + 1, isAssoc).value
      ensures Frames() == old(Frames()) + [ContextSpec.Frame(length, 0, isAssoc)]
    {
      ghost var (expected0, index0, assoc0) := (expectedLength, currentIndex, inAssoc);
      depth := depth + 1;
      // the stacks hold at least `depth` slots, so no call below fails
      var e := SetAtIndexOrAppend(expectedLength, depth, length);
      expectedLength := e.value;
      var c := SetAtIndexOrAppend(currentIndex, depth, 0);
      currentIndex := c.value;
      var a := SetAtIndexOrAppend(inAssoc, depth, isAssoc);
      inAssoc := a.value;
      ghost var (expected1, index1) := (expectedLength, currentIndex);
      // a second write of the same two slots, which changes nothing
      expectedLength :=
        if |expectedLength| <= depth then expectedLength + [length] else expectedLength[depth := length];
      currentIndex :=
        if |currentIndex| <= depth then currentIndex + [0] else currentIndex[depth := 0];
      assert expectedLength == expected1 && currentIndex == index1;
      PushTop(depth - 1, expected0, index0, assoc0, expectedLength, currentIndex, inAssoc);
    }

    /** `is_valid_final_state`: final exactly when no level is open. */
    function IsValidFinalState(): (r: bool)
      reads this
      requires Shape()
      ensures r <==> Frames() == []
    {
      depth == -1
    }

    /** `is_rule_valid`: the association flag of the current level; at
        depth -1 the flag in the last slot of the stack. */
    function IsRuleValid(): (r: bool)
      reads this
      requires Shape()
      ensures depth >= 0 ==> r == ContextSpec.Last(Frames()).isAssoc
      ensures depth == -1 ==> r == inAssoc[|inAssoc| - 1]
    {
      inAssoc[Slot(depth, |inAssoc|)]
    }
  }

  /** The permissive context: its mutators change nothing and its queries
      always agree. */
  class NoEnforcingContext {
    constructor ()
    {
    }

    method AddPart() returns (r: Outcome)
      ensures r == Pass
    {
      r := Pass;
    }

    method StepInNewExpr(length: int, isAssoc: bool) returns (r: Outcome)
      ensures r == Pass
    {
      r := Pass;
    }

    function IsValidFinalState(): (r: bool)
      ensures r
    {
      true
    }

    function IsRuleValid(): (r: bool)
      ensures r
    {
      true
    }
  }

  /** The context a serializer holds: enforcing or permissive. */
  datatype ActiveContext = Enforcing(sc: SerializationContext) | Permissive(nc: NoEnforcingContext)
  {
    ghost function Repr(): set<object>
    {
      if Enforcing? then {sc} else {}
    }

    ghost predicate Valid()
      reads Repr()
    {
      Enforcing? ==> sc.Valid()
    }

    /** The open frames of an enforcing context; a permissive one has none. */
    ghost function Frames(): seq<ContextSpec.Frame>
      reads Repr()
      requires Valid()
    {
      if Enforcing? then sc.Frames() else []
    }
  }

  /** What a context does with one event: an enforcing one follows
      `ContextSpec.Step`, a permissive one accepts it and stays as it is. */
  function Accept(enforcing: bool, fs: seq<ContextSpec.Frame>, e: ContextSpec.Event): (r: Result<seq<ContextSpec.Frame>>)
    ensures !enforcing ==> r == Success(fs)
    ensures enforcing ==> r == ContextSpec.Step(fs, e)
  {
    if enforcing then ContextSpec.Step(fs, e) else Success(fs)
  }

  /** One context event, sent to whichever context is active. */
  method Apply(ctx: ActiveContext, e: ContextSpec.Event) returns (r: Outcome)
    requires ctx.Valid()
    modifies ctx.Repr()
    ensures ctx.Valid()
    ensures ctx.Permissive? ==> r == Pass
    ensures var res := Accept(ctx.Enforcing?, old(ctx.Frames()), e);
      (r.Fail? <==> res.Failure?) &&
      (r.Fail? ==> r.error == res.error && res.error == IndexError && ctx.Frames() == old(ctx.Frames())) &&
      (r.Pass? ==> ctx.Frames() == res.value)
  {
    match ctx
    case Permissive(nc) =>
      match e {
        case Part => r := nc.AddPart();
        case Enter(length, isAssoc) => r := nc.StepInNewExpr(length, isAssoc);
      }
    case Enforcing(sc) =>
      match e {
        case Part => r := sc.AddPart();
        case Enter(length, isAssoc) => r := sc.StepInNewExpr(length, isAssoc);
      }
  }

  /** `is_valid_final_state` of whichever context is active: final exactly
      when no frame is open, which a permissive context always is. */
  function IsFinal(ctx: ActiveContext): (r: bool)
    reads ctx.Repr()
    requires ctx.Valid()
    ensures ctx.Permissive? ==> r
    ensures r <==> ctx.Frames() == []
  {
    match ctx
    case Permissive(nc) => nc.IsValidFinalState()
    case Enforcing(sc) => sc.IsValidFinalState()
  }
}
