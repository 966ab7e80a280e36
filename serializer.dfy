/** `WXFExprSerializer`: writes the WXF header, feeds every token of an
    expression through the active context while writing the token's bytes
    (into a compressing wrapper when asked to), and raises when the context
    is not in its final state at the end.

    A token (`WXFExpr`) is seen through what its encoder does: the context
    event it issues and the bytes it writes. */
module Serializer {
  import opened Base
  import ContextSpec
  import opened Context

  /** Header bytes `'8'`, `'C'` and `':'` of the Wolfram Exchange Format. */
  const Version: byte := '8' as int
  const HeaderCompress: byte := 'C' as int
  const HeaderSeparator: byte := ':' as int

  /** The uncompressed header: version, the compression flag when
      compressing, then the separator. */
  function Header(compress: bool): seq<byte>
  {
    [Version] + (if compress then [HeaderCompress] else []) + [HeaderSeparator]
  }

  /** Where the body of a WXF byte string starts and whether it is
      compressed, read back from its header. */
  function ParseHeader(bytes: seq<byte>): Option<(bool, nat)>
  {
    if |bytes| >= 2 && bytes[0] == Version && bytes[1] == HeaderSeparator then Some((false, 2))
    else if |bytes| >= 3 && bytes[0] == Version && bytes[1] == HeaderCompress && bytes[2] == HeaderSeparator
    then Some((true, 3))
    else None
  }

  /** The header is `8:` or `8C:`, and reading it back recovers the
      compression flag and the start of the body, whatever follows. */
  lemma HeaderRoundTrip(compress: bool, body: seq<byte>)
    ensures Header(false) == [0x38, 0x3A] && Header(true) == [0x38, 0x43, 0x3A]
    ensures ParseHeader(Header(compress) + body) == Some((compress, |Header(compress)|))
    ensures (Header(compress) + body)[|Header(compress)|..] == body
  {
  }

  /** What one token's encoder does: the context event it issues and the
      bytes it writes. */
  datatype WxfExpr = WxfExpr(event: ContextSpec.Event, bytes: seq<byte>)

  /** The argument of `serialize`: an iterable of tokens, or any other value
      that only an expression provider can turn into tokens. */
  datatype PyExpr = Tokens(exprs: seq<WxfExpr>) | Native(handle: nat)

  /** An expression provider (`provide_wxfexpr` of `WXFExprProvider`). */
  type Provider = PyExpr -> seq<WxfExpr>

  function EventsOf(exprs: seq<WxfExpr>): (evs: seq<ContextSpec.Event>)
    ensures |evs| == |exprs|
    ensures forall i :: 0 <= i < |exprs| ==> evs[i] == exprs[i].event
  {
    seq(|exprs|, i requires 0 <= i < |exprs| => exprs[i].event)
  }

  /** All bytes of a token sequence, in order. */
  function Body(exprs: seq<WxfExpr>): seq<byte>
  {
    if exprs == [] then [] else Body(exprs[..|exprs| - 1]) + exprs[|exprs| - 1].bytes
  }

  /** What feeding tokens to a context leaves: the exception raised, if
      any; the frames the context holds, those reached by the last token
      accepted; and the bytes written. */
  datatype Driven = Driven(raised: Option<Error>, frames: seq<ContextSpec.Frame>, written: seq<byte>)

  /** A context fed token by token, stopping at the first exception. */
  function Drive(enforcing: bool, fs: seq<ContextSpec.Frame>, exprs: seq<WxfExpr>): Driven
  {
    if exprs == [] then Driven(None, fs, [])
    else
      var d := Drive(enforcing, fs, exprs[..|exprs| - 1]);
      var last := exprs[|exprs| - 1];
      if d.raised.Some? then d
      else match Accept(enforcing, d.frames, last.event)
        case Failure(e) => Driven(Some(e), d.frames, d.written)
        case Success(g) => Driven(None, g, d.written + last.bytes)
  }

  /** Feeding tokens to an enforcing context is running their events, and
      when nothing raises every token's bytes are written. */
  lemma {:induction false} DriveRun(fs: seq<ContextSpec.Frame>, exprs: seq<WxfExpr>)
    ensures var d := Drive(true, fs, exprs);
      ContextSpec.Run(fs, EventsOf(exprs)) == (if d.raised.Some? then Failure(d.raised.value) else Success(d.frames))
    ensures Drive(true, fs, exprs).raised.None? ==> Drive(true, fs, exprs).written == Body(exprs)
    decreases |exprs|
  {
    if exprs != [] {
      var init := exprs[..|exprs| - 1];
      var last := exprs[|exprs| - 1];
      DriveRun(fs, init);
      assert EventsOf(exprs) == EventsOf(init) + [last.event];
      ContextSpec.RunAppend(fs, EventsOf(init), [last.event]);
      var res := ContextSpec.Run(fs, EventsOf(init));
      if res.Success? {
        assert [last.event][1..] == [];
      }
    }
  }

  /** A permissive context accepts every token, stays as it is, and lets all
      bytes through. */
  lemma {:induction false} DrivePermissive(fs: seq<ContextSpec.Frame>, exprs: seq<WxfExpr>)
    ensures Drive(false, fs, exprs) == Driven(None, fs, Body(exprs))
    decreases |exprs|
  {
    if exprs != [] {
      DrivePermissive(fs, exprs[..|exprs| - 1]);
    }
  }

  /** One more token whose event is accepted: its bytes are written and the
      context moves on. */
  lemma DriveExtend(enforcing: bool, fs: seq<ContextSpec.Frame>, exprs: seq<WxfExpr>, i: nat,
                    g: seq<ContextSpec.Frame>, out: seq<byte>)
    requires i < |exprs| && Drive(enforcing, fs, exprs[..i]) == Driven(None, g, out)
    requires Accept(enforcing, g, exprs[i].event).Success?
    ensures Drive(enforcing, fs, exprs[..i + 1]) ==
      Driven(None, Accept(enforcing, g, exprs[i].event).value, out + exprs[i].bytes)
  {
    assert exprs[..i + 1][..i] == exprs[..i];
  }

  /** One more token whose event raises: the whole feed ends with that
      exception, the frames reached so far and the bytes written so far,
      whatever tokens follow. */
  lemma DriveRaises(enforcing: bool, fs: seq<ContextSpec.Frame>, exprs: seq<WxfExpr>, i: nat,
                    g: seq<ContextSpec.Frame>, out: seq<byte>)
    requires i < |exprs| && Drive(enforcing, fs, exprs[..i]) == Driven(None, g, out)
    requires Accept(enforcing, g, exprs[i].event).Failure?
    ensures Drive(enforcing, fs, exprs) == Driven(Some(Accept(enforcing, g, exprs[i].event).error), g, out)
  {
    assert exprs[..i + 1][..i] == exprs[..i];
    DriveStops(enforcing, fs, exprs, i + 1);
  }

  /** Once a token raises, the tokens after it change nothing. */
  lemma {:induction false} DriveStops(enforcing: bool, fs: seq<ContextSpec.Frame>, exprs: seq<WxfExpr>, i: nat)
    requires i <= |exprs|
    requires Drive(enforcing, fs, exprs[..i]).raised.Some?
    ensures Drive(enforcing, fs, exprs) == Drive(enforcing, fs, exprs[..i])
    decreases |exprs| - i
  {
    if i < |exprs| {
      assert exprs[..i + 1][..i] == exprs[..i];
      DriveStops(enforcing, fs, exprs, i + 1);
    } else {
      assert exprs[..i] == exprs;
    }
  }

  /** A fresh enforcing context accepts the tokens of any well-formed tree:
      nothing raises, it ends in its final state, and all bytes are written. */
  lemma TreeAccepted(t: ContextSpec.Tree, exprs: seq<WxfExpr>)
    requires EventsOf(exprs) == ContextSpec.Events(t)
    ensures Drive(true, ContextSpec.Fresh(), exprs) == Driven(None, [], Body(exprs))
  {
    DriveRun(ContextSpec.Fresh(), exprs);
    ContextSpec.ReplayFromFresh(t);
  }

  /** Tokens that stop short of a whole tree leave a fresh enforcing context
      outside its final state, so `serialize` raises `WXFSerializerException`. */
  lemma TruncatedRejected(t: ContextSpec.Tree, exprs: seq<WxfExpr>)
    requires |exprs| < |ContextSpec.Events(t)|
    requires EventsOf(exprs) == ContextSpec.Events(t)[..|exprs|]
    ensures Drive(true, ContextSpec.Fresh(), exprs).raised.None?
    ensures Drive(true, ContextSpec.Fresh(), exprs).frames != []
  {
    DriveRun(ContextSpec.Fresh(), exprs);
    ContextSpec.TruncatedNotFinal(t, |exprs|);
  }

  /** Tokens that leave out any subtree of a tree, such as the last child of
      some node, also leave a fresh enforcing context outside its final
      state, with one part still owed, so `serialize` raises
      `WXFSerializerException`. */
  lemma OmittedRejected(t: ContextSpec.Tree, path: seq<nat>, exprs: seq<WxfExpr>)
    requires ContextSpec.InTree(t, path)
    requires EventsOf(exprs) == ContextSpec.Omit(t, path)
    ensures Drive(true, ContextSpec.Fresh(), exprs).raised.None?
    ensures Drive(true, ContextSpec.Fresh(), exprs).frames != []
    ensures ContextSpec.Owed(Drive(true, ContextSpec.Fresh(), exprs).frames) == 1
  {
    DriveRun(ContextSpec.Fresh(), exprs);
    ContextSpec.OmittedNotFinal(t, path);
  }

  /** `_serialize_to_wxf` of one token: its context event, then, unless that
      raises, its bytes. */
  method SerializeToWxf(e: WxfExpr, sink: ByteStream, ctx: ActiveContext) returns (r: Outcome)
    requires ctx.Valid()
    modifies sink, ctx.Repr()
    ensures ctx.Valid()
    ensures var res := Accept(ctx.Enforcing?, old(ctx.Frames()), e.event);
      (r.Fail? <==> res.Failure?) &&
      (r.Fail? ==> r.error == res.error && sink.data == old(sink.data) && ctx.Frames() == old(ctx.Frames())) &&
      (r.Pass? ==> ctx.Frames() == res.value && sink.data == old(sink.data) + e.bytes)
  {
    r := Apply(ctx, e.event);
    if r.Pass? {
      sink.Write(e.bytes);
    }
  }

  class WXFExprSerializer {
    const writer: ByteStream
    const exprProvider: Option<Provider>
    const compress: bool
    const enforce: bool
    const context: ActiveContext
    /** The compressed container `ZipCompressedWriter` makes of the bytes
        written through it. */
    const deflate: seq<byte> -> seq<byte>

    ghost predicate Valid()
      reads this, context.Repr()
    {
      context.Valid() && (enforce <==> context.Enforcing?)
    }

    /** `__init__`: an enforcing context when `enforce`, else a permissive
        one. */
    constructor (stream: ByteStream, exprProvider: Option<Provider>, compress: bool, enforce: bool,
                 deflate: seq<byte> -> seq<byte>)
      ensures Valid()
      ensures writer == stream && this.exprProvider == exprProvider
      ensures this.compress == compress && this.enforce == enforce && this.deflate == deflate
      ensures enforce ==> fresh(context.sc) && context.sc.Frames() == ContextSpec.Fresh()
    {
      this.compress := compress;
      this.writer := stream;
      this.exprProvider := exprProvider;
      this.enforce := enforce;
      this.deflate := deflate;
      if enforce {
        var sc := new SerializationContext();
        this.context := Enforcing(sc);
      } else {
        var nc := new NoEnforcingContext();
        this.context := Permissive(nc);
      }
    }

    /** `provide_wxfexpr`: the provider's tokens, or the argument itself
        when there is no provider. */
    function ProvideWxfExpr(pyExpr: PyExpr): (r: PyExpr)
      ensures exprProvider.None? ==> r == pyExpr
      ensures exprProvider.Some? ==> r == Tokens(exprProvider.value(pyExpr))
    {
      if exprProvider.Some? then Tokens(exprProvider.value(pyExpr)) else pyExpr
    }

    /** `serialize`: the header first, never compressed; then each token
        through the context; then the final-state check. An exception from a
        token stops the loop; the compressed container is closed on every
        exit path. A value that is not an iterable of tokens makes the loop
        raise `TypeError`. */
    method Serialize(pyExpr: PyExpr) returns (r: Outcome)
      requires Valid()
      modifies writer, context.Repr()
      ensures Valid()
      ensures ProvideWxfExpr(pyExpr).Native? ==>
        r == Fail(TypeError) &&
        writer.data == old(writer.data) + Header(compress) + (if compress then deflate([]) else []) &&
        context.Frames() == old(context.Frames())
      ensures ProvideWxfExpr(pyExpr).Tokens? && !enforce ==>
        var out := Body(ProvideWxfExpr(pyExpr).exprs);
        r == Pass &&
        writer.data == old(writer.data) + Header(compress) + (if compress then deflate(out) else out)
      ensures ProvideWxfExpr(pyExpr).Tokens? && enforce ==>
        var d := Drive(true, old(context.Frames()), ProvideWxfExpr(pyExpr).exprs);
        writer.data == old(writer.data) + Header(compress) + (if compress then deflate(d.written) else d.written) &&
        r == (if d.raised.Some? then Fail(d.raised.value)
              else if d.frames == [] then Pass
              else Fail(SerializerException)) &&
        context.Frames() == d.frames
    {
      ghost var frames0 := context.Frames();
      writer.Write([Version]);
      if compress {
        writer.Write([HeaderCompress]);
      }
      writer.Write([HeaderSeparator]);
      ghost var start := writer.data;
      assert start == old(writer.data) + Header(compress);
      assert context.Frames() == frames0;
      var provided := ProvideWxfExpr(pyExpr);
      if provided.Native? {
        if compress {
          // leaving the `with` block closes the (empty) compressed container
          writer.Write(deflate([]));
        }
        return Fail(TypeError);
      }
      var sink := writer;
      if compress {
        sink := new ByteStream();
      }
      r := WriteTokens(provided.exprs, sink);
      ghost var out := Drive(enforce, frames0, provided.exprs).written;
      assert compress ==> sink.data == out && writer.data == start;
      assert !compress ==> writer.data == start + out;
      if compress {
        writer.Write(deflate(sink.data));
      }
      if !enforce {
        DrivePermissive(frames0, provided.exprs);
      }
      if r.Fail? {
        return;
      }
      if !IsFinal(context) {
        r := Fail(SerializerException);
      }
    }

    /** The `for` loop of `serialize`: each token's context event, then its
        bytes into `sink`, stopping at the first exception. */
    method WriteTokens(exprs: seq<WxfExpr>, sink: ByteStream) returns (r: Outcome)
      requires Valid()
      modifies sink, context.Repr()
      ensures Valid()
      ensures var d := Drive(enforce, old(context.Frames()), exprs);
        sink.data == old(sink.data) + d.written &&
        (r.Fail? <==> d.raised.Some?) &&
        (r.Fail? ==> r.error == d.raised.value) &&
        context.Frames() == d.frames
    {
      ghost var frames0 := context.Frames();
      ghost var start := sink.data;
      ghost var out: seq<byte> := [];
      var i := 0;
      r := Pass;
      while i < |exprs| && r.Pass?
        invariant 0 <= i <= |exprs|
        invariant Valid()
        invariant sink.data == start + out
        invariant r.Pass? ==> Drive(enforce, frames0, exprs[..i]) == Driven(None, context.Frames(), out)
        invariant r.Fail? ==> Drive(enforce, frames0, exprs) == Driven(Some(r.error), context.Frames(), out)
        decreases |exprs| - i, if r.Pass? then 1 else 0
      {
        r := WriteToken(exprs, i, sink, frames0, out);
        if r.Pass? {
          out := out + exprs[i].bytes;
          i := i + 1;
        }
      }
      if r.Pass? {
        assert exprs[..i] == exprs;
      }
    }

    /** One pass of that loop: token `i` goes through `SerializeToWxf`, and
        the outcome is what `Drive` says of the tokens up to it. */
    method WriteToken(exprs: seq<WxfExpr>, i: nat, sink: ByteStream, ghost frames0: seq<ContextSpec.Frame>,
                      ghost out: seq<byte>) returns (r: Outcome)
      requires Valid() && i < |exprs|
      requires Drive(enforce, frames0, exprs[..i]) == Driven(None, context.Frames(), out)
      modifies sink, context.Repr()
      ensures Valid()
      ensures r.Fail? ==>
        sink.data == old(sink.data) &&
        Drive(enforce, frames0, exprs) == Driven(Some(r.error), context.Frames(), out)
      ensures r.Pass? ==>
        sink.data == old(sink.data) + exprs[i].bytes &&
        Drive(enforce, frames0, exprs[..i + 1]) == Driven(None, context.Frames(), out + exprs[i].bytes)
    {
      ghost var g := context.Frames();
      r := SerializeToWxf(exprs[i], sink, context);
      if r.Fail? {
        DriveRaises(enforce, frames0, exprs, i, g, out);
      } else {
        DriveExtend(enforce, frames0, exprs, i, g, out);
      }
    }
  }
}
