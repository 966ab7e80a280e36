/** The structural bookkeeping of `SerializationContext`, stated on values.

    The context keeps, for every level of the expression being written that
    still expects parts, a frame (declared length, parts inserted so far,
    association flag). Only the frames at levels `0..depth` are live; this
    module describes them as a sequence, bottom (the synthetic root) first.
    `Context.SerializationContext` is proved to follow these functions. */
module ContextSpec {
  import opened Base

  datatype Frame = Frame(expected: int, index: int, isAssoc: bool)

  /** The context events a token encoder issues: one `add_part`, or one
      `step_in_new_expr(length, is_assoc)`. */
  datatype Event = Part | Enter(length: int, isAssoc: bool)

  predicate Complete(f: Frame)
  {
    f.index == f.expected
  }

  function Last(fs: seq<Frame>): Frame
    requires fs != []
  {
    fs[|fs| - 1]
  }

  /** No frame on the stack has all its declared parts. */
  predicate NoComplete(fs: seq<Frame>)
  {
    forall k :: 0 <= k < |fs| ==> !Complete(fs[k])
  }

  /** Every frame on the stack has room for at least one more part. This is
      what the stack looks like as long as every declared length is
      non-negative. */
  predicate AllOpen(fs: seq<Frame>)
  {
    forall k :: 0 <= k < |fs| ==> 0 <= fs[k].index < fs[k].expected
  }

  /** The context built by the constructor: one root frame that expects the
      single top-level expression. */
  function Fresh(): seq<Frame>
  {
    [Frame(1, 0, false)]
  }

  /** `_step_out_finalized_expr`: drop complete frames from the top. */
  function PopComplete(fs: seq<Frame>): (r: seq<Frame>)
    ensures r <= fs
    ensures r == [] || !Complete(Last(r))
    ensures forall k :: |r| <= k < |fs| ==> Complete(fs[k])
    ensures NoComplete(fs) ==> r == fs
  {
    if fs != [] && Complete(Last(fs)) then PopComplete(fs[..|fs| - 1]) else fs
  }

  /** Popping stops exactly at the highest frame that is not complete:
      everything above position `n` complete and the frame below it not. */
  lemma {:induction false} PopCompleteAt(fs: seq<Frame>, n: nat)
    requires n <= |fs|
    requires forall k :: n <= k < |fs| ==> Complete(fs[k])
    requires n == 0 || !Complete(fs[n - 1])
    ensures PopComplete(fs) == fs[..n]
    decreases |fs|
  {
    if |fs| > n {
      var init := fs[..|fs| - 1];
      PopCompleteAt(init, n);
      assert init[..n] == fs[..n];
    } else {
      assert fs[..n] == fs;
    }
  }

  /** `add_part`: check the top frame has room, count one part, pop what is
      complete. With no live frame (depth -1) the check is skipped and the
      part is counted in a stale slot, so the live stack stays empty. */
  function AddPart(fs: seq<Frame>): (r: Result<seq<Frame>>)
    ensures fs == [] ==> r == Success([])
    ensures fs != [] ==> (r.Failure? <==> Last(fs).index >= Last(fs).expected)
    ensures r.Failure? ==> r.error == IndexError
    ensures r.Success? ==> |r.value| <= |fs|
    ensures r.Success? && fs != [] && NoComplete(fs[..|fs| - 1]) ==>
      r.value == (if Last(fs).index + 1 == Last(fs).expected
                  then fs[..|fs| - 1]
                  else fs[|fs| - 1 := Last(fs).(index := Last(fs).index + 1)])
  {
    if fs == [] then Success([])
    else if Last(fs).index >= Last(fs).expected then Failure(IndexError)
    else
      var bumped := fs[|fs| - 1 := Last(fs).(index := Last(fs).index + 1)];
      assert bumped[..|fs| - 1] == fs[..|fs| - 1];
      Success(PopComplete(bumped))
  }

  /** `step_in_new_expr`: the new expression is first counted as a part of
      the current frame (which may complete and pop it), then its own frame
      is pushed, and popped at once if its declared length is zero. */
  function StepIn(fs: seq<Frame>, length: int, isAssoc: bool): (r: Result<seq<Frame>>)
    ensures r.Failure? <==> AddPart(fs).Failure?
    ensures r.Failure? ==> r.error == IndexError
    ensures r.Success? && NoComplete(AddPart(fs).value) ==>
      r.value == (if length == 0 then AddPart(fs).value
                  else AddPart(fs).value + [Frame(length, 0, isAssoc)])
  {
    match AddPart(fs)
    case Failure(e) => Failure(e)
    case Success(g) => Success(PopComplete(g + [Frame(length, 0, isAssoc)]))
  }

  function Step(fs: seq<Frame>, e: Event): Result<seq<Frame>>
  {
    match e
    case Part => AddPart(fs)
    case Enter(length, isAssoc) => StepIn(fs, length, isAssoc)
  }

  /** Feeding a sequence of events, stopping at the first exception. */
  function Run(fs: seq<Frame>, evs: seq<Event>): Result<seq<Frame>>
    decreases |evs|
  {
    if evs == [] then Success(fs)
    else match Step(fs, evs[0])
      case Failure(e) => Failure(e)
      case Success(g) => Run(g, evs[1..])
  }

  /** Running two event sequences one after the other. */
  lemma {:induction false} RunAppend(fs: seq<Frame>, a: seq<Event>, b: seq<Event>)
    ensures Run(fs, a + b) == match Run(fs, a)
                              case Failure(e) => Failure(e)
                              case Success(g) => Run(g, b)
    decreases |a|
  {
    if a == [] {
      assert a + b == b;
    } else {
      assert (a + b)[0] == a[0] && (a + b)[1..] == a[1..] + b;
      match Step(fs, a[0])
      case Failure(e) =>
      case Success(g) => RunAppend(g, a[1..], b);
    }
  }

  /** Invariant of the context: every successful `add_part` or
      `step_in_new_expr` leaves no complete frame on the stack. */
  lemma StepKeepsNoComplete(fs: seq<Frame>, e: Event)
    requires NoComplete(fs)
    ensures Step(fs, e).Success? ==> NoComplete(Step(fs, e).value)
  {
    var a := AddPart(fs);
    if a.Success? {
      assert NoComplete(a.value) by {
        if fs != [] {
          assert NoComplete(fs[..|fs| - 1]);
        }
      }
      match e
      case Part =>
      case Enter(length, isAssoc) =>
        if length != 0 {
          var pushed := a.value + [Frame(length, 0, isAssoc)];
          assert NoComplete(pushed) by {
            assert forall k :: 0 <= k < |a.value| ==> pushed[k] == a.value[k];
          }
        }
    }
  }

  /** With non-negative declared lengths every frame on the stack keeps room
      for one more part, so neither `add_part` nor `step_in_new_expr` ever
      raises: a part beyond a declared length is counted in the parent
      frame, or, once the root is complete, in a stale slot. */
  lemma {:induction false} NonNegativeLengthsNeverRaise(fs: seq<Frame>, evs: seq<Event>)
    requires AllOpen(fs)
    requires forall i :: 0 <= i < |evs| ==> evs[i].Enter? ==> evs[i].length >= 0
    ensures Run(fs, evs).Success? && AllOpen(Run(fs, evs).value)
    decreases |evs|
  {
    if evs != [] {
      var a := AddPart(fs);
      assert a.Success? && AllOpen(a.value) by {
        if fs != [] {
          assert NoComplete(fs[..|fs| - 1]);
        }
      }
      var g := Step(fs, evs[0]);
      assert g.Success? && AllOpen(g.value);
      NonNegativeLengthsNeverRaise(g.value, evs[1..]);
    }
  }

  /** A negative declared length is accepted by `step_in_new_expr` whenever
      counting the new node is: its frame stays on top, and the next part
      raises `IndexError`. From a fresh context it is always accepted. */
  lemma NegativeLengthRejectsNextPart(fs: seq<Frame>, length: int, isAssoc: bool)
    requires NoComplete(fs) && length < 0
    ensures fs == Fresh() ==> StepIn(fs, length, isAssoc).Success?
    ensures StepIn(fs, length, isAssoc).Success? ==>
      StepIn(fs, length, isAssoc).value != [] &&
      Last(StepIn(fs, length, isAssoc).value) == Frame(length, 0, isAssoc) &&
      AddPart(StepIn(fs, length, isAssoc).value) == Failure(IndexError)
  {
    StepKeepsNoComplete(fs, Part);
    if fs == Fresh() {
      assert AddPart(fs) == Success([]);
    }
  }

  // ---------------------------------------------------------------------
  // Expression trees and the events a depth-first encoder issues for them.

  /** An expression as the encoder sees it: an atom, or a node (function,
      association, ...) whose declared length is its number of children. */
  datatype Tree = Leaf | Node(children: seq<Tree>, isAssoc: bool)

  /** Events of a pre-order encoding: an atom adds one part; a node steps
      into a new expression of its length, then encodes its children. */
  function Events(t: Tree): (evs: seq<Event>)
    ensures |evs| >= 1
    decreases t
  {
    match t
    case Leaf => [Part]
    case Node(cs, isAssoc) => [Enter(|cs|, isAssoc)] + ChildEvents(cs)
  }

  function ChildEvents(cs: seq<Tree>): (evs: seq<Event>)
    ensures cs == [] <==> evs == []
    decreases cs
  {
    if cs == [] then [] else Events(cs[0]) + ChildEvents(cs[1..])
  }

  /** The frames that come out of `AddPart` on an open stack are open. */
  lemma AddPartKeepsOpen(fs: seq<Frame>)
    requires AllOpen(fs)
    ensures AddPart(fs).Success? && AllOpen(AddPart(fs).value)
    ensures |AddPart(fs).value| + 1 >= |fs|
  {
    if fs != [] {
      assert NoComplete(fs[..|fs| - 1]);
    }
  }

  /** Encoding a whole tree inside a frame with room counts as exactly one
      part of that frame, whatever the shape of the tree. */
  lemma {:induction false} Replay(fs: seq<Frame>, t: Tree)
    requires AllOpen(fs)
    ensures Run(fs, Events(t)) == AddPart(fs)
    decreases t, 1
  {
    match t
    case Leaf =>
      assert Events(t)[1..] == [];
    case Node(cs, isAssoc) =>
      var n := |cs|;
      AddPartKeepsOpen(fs);
      var g := AddPart(fs).value;
      assert Events(t)[0] == Enter(n, isAssoc) && Events(t)[1..] == ChildEvents(cs);
      if n == 0 {
        assert Run(fs, Events(t)) == Run(g, []);
      } else {
        ReplayChildren(g, n, 0, isAssoc, cs);
      }
  }

  /** One child of a node with frame (n, i) written: the frame counts it,
      and is left when that was its last child. */
  lemma CountChild(base: seq<Frame>, n: int, i: int, isAssoc: bool)
    requires AllOpen(base) && 0 <= i < n
    ensures AllOpen(base + [Frame(n, i, isAssoc)])
    ensures AddPart(base + [Frame(n, i, isAssoc)]) ==
      Success(if i + 1 == n then base else base + [Frame(n, i + 1, isAssoc)])
  {
    var g := base + [Frame(n, i, isAssoc)];
    assert g[..|g| - 1] == base;
    assert NoComplete(base);
    assert g[|g| - 1 := Frame(n, i + 1, isAssoc)] == base + [Frame(n, i + 1, isAssoc)];
  }

  /** Once a whole child of a node with frame (n, i) is written, and it was
      not the last, what follows runs on frame (n, i + 1). */
  lemma AfterChild(base: seq<Frame>, n: int, i: int, isAssoc: bool, c: Tree, tail: seq<Event>)
    requires AllOpen(base) && 0 <= i && i + 1 < n
    ensures Run(base + [Frame(n, i, isAssoc)], Events(c) + tail) == Run(base + [Frame(n, i + 1, isAssoc)], tail)
  {
    CountChild(base, n, i, isAssoc);
    Replay(base + [Frame(n, i, isAssoc)], c);
    RunAppend(base + [Frame(n, i, isAssoc)], Events(c), tail);
  }

  /** Encoding the remaining children of a node with frame (n, i) completes
      the node and leaves exactly the frames below it. */
  lemma {:induction false} ReplayChildren(base: seq<Frame>, n: int, i: int, isAssoc: bool, cs: seq<Tree>)
    requires AllOpen(base)
    requires 0 <= i < n && |cs| == n - i
    ensures Run(base + [Frame(n, i, isAssoc)], ChildEvents(cs)) == Success(base)
    decreases cs, 0
  {
    var g := base + [Frame(n, i, isAssoc)];
    CountChild(base, n, i, isAssoc);
    assert ChildEvents(cs) == Events(cs[0]) + ChildEvents(cs[1..]);
    RunAppend(g, Events(cs[0]), ChildEvents(cs[1..]));
    Replay(g, cs[0]);
    if i + 1 == n {
      assert cs[1..] == [];
    } else {
      ReplayChildren(base, n, i + 1, isAssoc, cs[1..]);
    }
  }

  /** Replaying the events of any tree from a fresh context reaches the final
      state (no live frame). */
  lemma ReplayFromFresh(t: Tree)
    ensures Run(Fresh(), Events(t)) == Success([])
  {
    Replay(Fresh(), t);
  }

  /** The first `j` events of a node: its step-in, then the first `j - 1`
      events of its children. */
  lemma NodePrefix(cs: seq<Tree>, isAssoc: bool, j: nat)
    requires 1 <= j <= |Events(Node(cs, isAssoc))|
    ensures Events(Node(cs, isAssoc))[..j] == [Enter(|cs|, isAssoc)] + ChildEvents(cs)[..j - 1]
  {
  }

  /** Entering a node of positive length on an open stack: counted, then
      its frame pushed; what follows runs on that stack. */
  lemma EnterNode(fs: seq<Frame>, n: int, isAssoc: bool, tail: seq<Event>)
    requires AllOpen(fs) && n > 0
    ensures AddPart(fs).Success?
    ensures Run(fs, [Enter(n, isAssoc)] + tail) == Run(AddPart(fs).value + [Frame(n, 0, isAssoc)], tail)
  {
    AddPartKeepsOpen(fs);
    assert ([Enter(n, isAssoc)] + tail)[0] == Enter(n, isAssoc);
    assert ([Enter(n, isAssoc)] + tail)[1..] == tail;
  }

  /** Stopping anywhere inside a tree leaves at least as many live frames as
      there were before it started. */
  lemma {:induction false} PrefixKeepsFrames(fs: seq<Frame>, t: Tree, j: nat)
    requires AllOpen(fs) && fs != []
    requires j < |Events(t)|
    ensures Run(fs, Events(t)[..j]).Success?
    ensures |Run(fs, Events(t)[..j]).value| >= |fs|
    decreases t, 1
  {
    if j == 0 {
      assert Events(t)[..j] == [];
    } else {
      match t
      case Node(cs, isAssoc) =>
        var n := |cs|;
        var tail := ChildEvents(cs)[..j - 1];
        assert 0 < n && j - 1 < |ChildEvents(cs)|;
        AddPartKeepsOpen(fs);
        var g0 := AddPart(fs).value;
        assert Run(fs, Events(t)[..j]) == Run(g0 + [Frame(n, 0, isAssoc)], tail) by {
          NodePrefix(cs, isAssoc, j);
          EnterNode(fs, n, isAssoc, tail);
        }
        ChildrenPrefixKeepsFrames(g0, n, 0, isAssoc, cs, j - 1);
    }
  }

  lemma {:induction false} ChildrenPrefixKeepsFrames(base: seq<Frame>, n: int, i: int, isAssoc: bool, cs: seq<Tree>, m: nat)
    requires AllOpen(base)
    requires 0 <= i < n && |cs| == n - i
    requires m < |ChildEvents(cs)|
    ensures Run(base + [Frame(n, i, isAssoc)], ChildEvents(cs)[..m]).Success?
    ensures |Run(base + [Frame(n, i, isAssoc)], ChildEvents(cs)[..m]).value| >= |base| + 1
    decreases cs, 0
  {
    var g := base + [Frame(n, i, isAssoc)];
    var first := Events(cs[0]);
    var rest := ChildEvents(cs[1..]);
    assert ChildEvents(cs) == first + rest;
    if m < |first| {
      assert ChildEvents(cs)[..m] == first[..m];
      assert AllOpen(g) by {
        CountChild(base, n, i, isAssoc);
      }
      PrefixKeepsFrames(g, cs[0], m);
    } else {
      var tail := rest[..m - |first|];
      assert i + 1 < n by {
        assert rest != [];
      }
      assert ChildEvents(cs)[..m] == first + tail;
      AfterChild(base, n, i, isAssoc, cs[0], tail);
      ChildrenPrefixKeepsFrames(base, n, i + 1, isAssoc, cs[1..], m - |first|);
    }
  }

  /** Dropping any suffix of a tree's events (in particular its last one)
      leaves a fresh context short of the final state. */
  lemma TruncatedNotFinal(t: Tree, j: nat)
    requires j < |Events(t)|
    ensures Run(Fresh(), Events(t)[..j]).Success?
    ensures Run(Fresh(), Events(t)[..j]).value != []
  {
    PrefixKeepsFrames(Fresh(), t, j);
  }

  /** Extra parts after the root expression is complete are accepted and
      the context stays final: `add_part` at depth -1 does not check. */
  lemma ExtraPartAccepted(t: Tree)
    ensures Run(Fresh(), Events(t) + [Part]) == Success([])
  {
    RunAppend(Fresh(), Events(t), [Part]);
    ReplayFromFresh(t);
  }

  /** A whole second expression after the first is accepted too, and the
      context ends final again. */
  lemma ExtraTreeAccepted(t1: Tree, t2: Tree)
    ensures Run(Fresh(), Events(t1) + Events(t2)) == Success([])
  {
    RunAppend(Fresh(), Events(t1), Events(t2));
    ReplayFromFresh(t1);
    Replay([], t2);
  }

  /** A surplus step-in of positive length after the root expression is
      complete is accepted, but its frame goes live at depth 0: the context
      is final again only once that expression is completed. */
  lemma SurplusStepInNotFinal(t: Tree, length: int, isAssoc: bool)
    requires length > 0
    ensures Run(Fresh(), Events(t) + [Enter(length, isAssoc)]) == Success([Frame(length, 0, isAssoc)])
  {
    RunAppend(Fresh(), Events(t), [Enter(length, isAssoc)]);
    ReplayFromFresh(t);
    assert [Enter(length, isAssoc)][1..] == [];
    assert StepIn([], length, isAssoc) == Success([Frame(length, 0, isAssoc)]) by {
      assert AddPart([]) == Success([]);
      assert [] + [Frame(length, 0, isAssoc)] == [Frame(length, 0, isAssoc)];
    }
  }

  // ---------------------------------------------------------------------
  // Counting the parts still owed.

  /** Parts the live frames still expect: over all of them, the declared
      length minus the parts inserted. */
  function Owed(fs: seq<Frame>): int
    decreases |fs|
  {
    if fs == [] then 0 else Owed(fs[..|fs| - 1]) + Last(fs).expected - Last(fs).index
  }

  /** What one event does to `Owed` while a frame is live: a part pays one,
      a step-in of length `n` pays one and owes `n` more. */
  function Delta(e: Event): int
  {
    match e
    case Part => -1
    case Enter(length, _) => length - 1
  }

  /** Every open frame still expects a part, so a stack owes at least as
      many parts as it has frames; an empty one owes none. */
  lemma {:induction false} OwedCoversFrames(fs: seq<Frame>)
    requires AllOpen(fs)
    ensures Owed(fs) >= |fs|
    decreases |fs|
  {
    if fs != [] {
      var init := fs[..|fs| - 1];
      assert AllOpen(init) by {
        assert forall k :: 0 <= k < |init| ==> init[k] == fs[k];
      }
      OwedCoversFrames(init);
    }
  }

  lemma OwedPush(fs: seq<Frame>, f: Frame)
    ensures Owed(fs + [f]) == Owed(fs) + f.expected - f.index
  {
    assert (fs + [f])[..|fs|] == fs;
  }

  /** On a live open stack, an event with a non-negative length never
      raises, keeps the stack open, and changes `Owed` by `Delta`; popped
      frames owe nothing, so the count holds even when the stack empties. */
  lemma OwedStep(fs: seq<Frame>, e: Event)
    requires AllOpen(fs) && fs != []
    requires e.Enter? ==> e.length >= 0
    ensures Step(fs, e).Success? && AllOpen(Step(fs, e).value)
    ensures Owed(Step(fs, e).value) == Owed(fs) + Delta(e)
  {
    var init := fs[..|fs| - 1];
    AddPartKeepsOpen(fs);
    var g := AddPart(fs).value;
    assert NoComplete(init);
    assert Owed(g) == Owed(fs) - 1 by {
      if Last(fs).index + 1 != Last(fs).expected {
        assert g == init + [Last(fs).(index := Last(fs).index + 1)];
        OwedPush(init, Last(fs).(index := Last(fs).index + 1));
      }
    }
    match e
    case Part =>
    case Enter(length, isAssoc) =>
      if length != 0 {
        OwedPush(g, Frame(length, 0, isAssoc));
        StepKeepsNoComplete(fs, e);
      }
  }

  /** A child written while more than `|cs|` parts are owed: the children
      pay `|cs|` of them and the stack stays open. */
  lemma {:induction false} ChildrenOwed(fs: seq<Frame>, cs: seq<Tree>)
    requires AllOpen(fs) && Owed(fs) > |cs|
    ensures Run(fs, ChildEvents(cs)).Success?
    ensures AllOpen(Run(fs, ChildEvents(cs)).value)
    ensures Owed(Run(fs, ChildEvents(cs)).value) == Owed(fs) - |cs|
    decreases cs
  {
    if cs != [] {
      assert fs != [];
      RunAppend(fs, Events(cs[0]), ChildEvents(cs[1..]));
      Replay(fs, cs[0]);
      OwedStep(fs, Part);
      ChildrenOwed(AddPart(fs).value, cs[1..]);
    }
  }

  /** `path` leads from `t` to one of its subtrees other than `t` itself:
      each step is the position of a child. */
  predicate InTree(t: Tree, path: seq<nat>)
    decreases t
  {
    path != [] && t.Node? && path[0] < |t.children| &&
    (|path| == 1 || InTree(t.children[path[0]], path[1..]))
  }

  /** The events of `t` with the subtree at `path` left out: what an
      encoder issues when it skips that child, the declared length of its
      node unchanged. Skipping the last child of a node is the case where
      the last position of `path` is that node's last child. */
  function Omit(t: Tree, path: seq<nat>): seq<Event>
    requires InTree(t, path)
    decreases t, 1
  {
    [Enter(|t.children|, t.isAssoc)] + ChildEvents(t.children[..path[0]]) + OmitFrom(t, path)
  }

  /** The events of `Omit` from the child at `path[0]` on: that child with
      the subtree left out of it (or nothing, when it is the subtree), then
      its younger siblings. */
  function OmitFrom(t: Tree, path: seq<nat>): seq<Event>
    requires InTree(t, path)
    decreases t, 0
  {
    var i := path[0];
    (if |path| == 1 then [] else Omit(t.children[i], path[1..])) + ChildEvents(t.children[i + 1..])
  }

  /** On a live open stack, the events of a tree with one subtree left out
      leave exactly as many parts owed as before: one more than the whole
      tree would. */
  lemma {:induction false} OmitOwed(fs: seq<Frame>, t: Tree, path: seq<nat>)
    requires AllOpen(fs) && fs != [] && InTree(t, path)
    ensures Run(fs, Omit(t, path)).Success?
    ensures AllOpen(Run(fs, Omit(t, path)).value)
    ensures Owed(Run(fs, Omit(t, path)).value) == Owed(fs)
    decreases t, 2
  {
    var e := Enter(|t.children|, t.isAssoc);
    var before := ChildEvents(t.children[..path[0]]);
    var rest := OmitFrom(t, path);
    assert Omit(t, path) == [e] + (before + rest);
    OwedCoversFrames(fs);
    OwedStep(fs, e);
    var h := Step(fs, e).value;
    ChildrenOwed(h, t.children[..path[0]]);
    RunAppend(h, before, rest);
    OmitFromOwed(Run(h, before).value, t, path, Owed(fs));
  }

  /** `OmitFrom` run on the stack left after the older siblings, which owes
      `owed` parts for the levels below plus one per child from `path[0]`
      on, save the one left out. */
  lemma {:induction false} OmitFromOwed(h: seq<Frame>, t: Tree, path: seq<nat>, owed: int)
    requires InTree(t, path) && owed >= 1
    requires AllOpen(h) && Owed(h) == owed + |t.children| - 1 - path[0]
    ensures Run(h, OmitFrom(t, path)).Success?
    ensures AllOpen(Run(h, OmitFrom(t, path)).value)
    ensures Owed(Run(h, OmitFrom(t, path)).value) == owed
    decreases t, 1
  {
    var i := path[0];
    var after := t.children[i + 1..];
    if |path| == 1 {
      assert OmitFrom(t, path) == ChildEvents(after);
      ChildrenOwed(h, after);
    } else {
      var mid := Omit(t.children[i], path[1..]);
      assert OmitFrom(t, path) == mid + ChildEvents(after);
      OwedCoversFrames(h);
      OmitOwed(h, t.children[i], path[1..]);
      RunAppend(h, mid, ChildEvents(after));
      ChildrenOwed(Run(h, mid).value, after);
    }
  }

  /** Leaving out any subtree, in particular the last child of any node,
      leaves a fresh context with one part still owed and a live frame, so
      outside its final state. */
  lemma OmittedNotFinal(t: Tree, path: seq<nat>)
    requires InTree(t, path)
    ensures Run(Fresh(), Omit(t, path)).Success?
    ensures Owed(Run(Fresh(), Omit(t, path)).value) == 1
    ensures Run(Fresh(), Omit(t, path)).value != []
  {
    assert Owed(Fresh()) == 1 by {
      assert Fresh()[..0] == [];
    }
    OmitOwed(Fresh(), t, path);
  }
}
