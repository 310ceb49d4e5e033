/** Properties of the decoder (module Decoder): the transitions of each state, the command
    table, and that feeding input in pieces is the same as feeding it at once. */
module DecoderProps {
  import opened Cells
  import opened Unicode
  import opened Grids
  import opened Screen
  import opened Seqs
  import opened Decoder

  // ---------------------------------------------------------------------------
  // Feeding in pieces

  function StepO(u: Services, o: Option<World>, b: byte): (r: Option<World>)
    requires OInv(o)
    ensures OInv(r)
  {
    match o
    case None => None
    case Some(w) => Step(u, w, b)
  }

  function PutUnitsO(u: Services, o: Option<Term>, cs: seq<u16>): Option<Term>
    requires o.Some? ==> Inv(o.value)
  {
    match o
    case None => None
    case Some(t) => PutUnits(u, t, cs)
  }

  predicate TextAscii(o: Option<World>) {
    o.Some? ==> IsAscii(o.value.p.text)
  }

  lemma {:induction false} RunAppend(u: Services, o: Option<World>, a: seq<byte>, b: seq<byte>)
    requires OInv(o)
    ensures Run(u, o, a + b) == Run(u, Run(u, o, a), b)
    decreases |a|
  {
    if a == [] {
      assert a + b == b;
    } else if o.Some? {
      assert (a + b)[0] == a[0] && (a + b)[1..] == a[1..] + b;
      RunAppend(u, Step(u, o.value, a[0]), a[1..], b);
    }
  }

  lemma {:induction false} PutUnitsAppend(u: Services, t: Term, xs: seq<u16>, ys: seq<u16>)
    requires Inv(t)
    ensures PutUnits(u, t, xs + ys) == PutUnitsO(u, PutUnits(u, t, xs), ys)
    decreases |xs|
  {
    if xs == [] {
      assert xs + ys == ys;
    } else {
      assert (xs + ys)[0] == xs[0] && (xs + ys)[1..] == xs[1..] + ys;
      match PutUnit(u, t, xs[0])
      case None =>
      case Some(t1) => PutUnitsAppend(u, t1, xs[1..], ys);
    }
  }

  /** Flushing twice is flushing once. */
  lemma FlushIdempotent(u: Services, o: Option<World>)
    requires OInv(o)
    ensures FlushO(u, FlushO(u, o)) == FlushO(u, o)
  {
  }

  /** In Normal state, ESC and control bytes flush first and then act on the flushed state. */
  lemma StepFlushesFirst(u: Services, w: World, b: byte)
    requires WInv(w) && w.p.mode == Normal && (b == ESC || b < 0x20 || b == 0x7F)
    ensures Step(u, w, b) == StepO(u, Flush(u, w), b)
  {
    match Flush(u, w)
    case None =>
    case Some(w1) =>
      assert w1.p.text == [] && w1.p.mode == Normal;
      assert Flush(u, w1) == Some(w1);
  }

  /** A printable byte after pending ASCII text: flushing in between changes nothing. */
  lemma StepAppendsText(u: Services, w: World, b: byte)
    requires Conforms(u) && WInv(w) && w.p.mode == Normal && IsAscii(w.p.text) && b < 0x80
    requires b != ESC && !(b < 0x20 || b == 0x7F)
    ensures FlushO(u, Step(u, w, b)) == FlushO(u, StepO(u, Flush(u, w), b))
  {
    var text := w.p.text;
    var w2 := w.(p := w.p.(text := text + [b]));
    assert Step(u, w, b) == Some(w2);
    if text != [] {
      assert IsAscii(text + [b]) && IsAscii([b]);
      WidenAppend(text, [b]);
      assert u.fromUtf8(text + [b]) == u.fromUtf8(text) + u.fromUtf8([b]);
      PutUnitsAppend(u, w.term, u.fromUtf8(text), u.fromUtf8([b]));
      match Flush(u, w)
      case None =>
      case Some(w1) =>
        assert w1.p.mode == Normal && w1.p.text + [b] == [b];
        assert Step(u, w1, b) == Some(w1.(p := w1.p.(text := [b])));
    }
  }

  /** The heart of the split property: flushing the pending text before a byte, then
      stepping and flushing, ends where stepping and flushing does. Pending text exists only
      in Normal state, and ASCII text decodes piece by piece. */
  lemma FlushStep(u: Services, w: World, b: byte)
    requires Conforms(u) && WInv(w) && IsAscii(w.p.text) && b < 0x80
    ensures FlushO(u, Step(u, w, b)) == FlushO(u, StepO(u, Flush(u, w), b))
  {
    if w.p.text == [] {
      assert Flush(u, w) == Some(w);
    } else if b == ESC || b < 0x20 || b == 0x7F {
      StepFlushesFirst(u, w, b);
    } else {
      StepAppendsText(u, w, b);
    }
  }

  lemma {:induction false} FlushRun(u: Services, o: Option<World>, bs: seq<byte>)
    requires Conforms(u) && OInv(o) && TextAscii(o) && IsAscii(bs)
    ensures FlushO(u, Run(u, o, bs)) == FlushO(u, Run(u, FlushO(u, o), bs))
    decreases |bs|
  {
    if bs == [] {
      FlushIdempotent(u, o);
    } else if o.Some? {
      var w := o.value;
      var s1 := Step(u, w, bs[0]);
      var s2 := StepO(u, Flush(u, w), bs[0]);
      assert TextAscii(s1) by {
        if s1.Some? && s1.value.p.text != [] {
          assert s1.value.p.text == w.p.text + [bs[0]];
        }
      }
      FlushRun(u, s1, bs[1..]);
      FlushRun(u, s2, bs[1..]);
      FlushStep(u, w, bs[0]);
    }
  }

  lemma {:induction false} RunKeepsAscii(u: Services, o: Option<World>, bs: seq<byte>)
    requires OInv(o) && TextAscii(o) && IsAscii(bs)
    ensures TextAscii(Run(u, o, bs))
    decreases |bs|
  {
    if bs != [] && o.Some? {
      var s1 := Step(u, o.value, bs[0]);
      assert TextAscii(s1) by {
        if s1.Some? && s1.value.p.text != [] {
          assert s1.value.p.text == o.value.p.text + [bs[0]];
        }
      }
      RunKeepsAscii(u, s1, bs[1..]);
    }
  }

  /** For input made only of bytes below 0x80, feeding a and then b gives the same screen
      model, parser state and title as feeding a + b, including when either faults. */
  lemma FeedSplit(u: Services, o: Option<World>, a: seq<byte>, b: seq<byte>)
    requires Conforms(u) && OInv(o) && TextAscii(o) && IsAscii(a) && IsAscii(b)
    ensures Feed(u, Feed(u, o, a), b) == Feed(u, o, a + b)
  {
    RunKeepsAscii(u, o, a);
    FlushRun(u, Run(u, o, a), b);
    RunAppend(u, o, a, b);
  }
}
