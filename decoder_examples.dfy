/** Whole inputs fed to the decoder: a parameter too large for an int, a stale OSC escape
    flag, and a sequence cut between two calls of feed (src/escapeparser.cpp:20-30). */
module DecoderExamples {
  import opened Cells
  import opened Unicode
  import opened Screen
  import opened Seqs
  import opened Decoder
  import opened DecoderProps
  import opened DecoderSteps
  import opened DecoderCsi

  /** A Normal state with no pending text, as feed leaves it. */
  predicate Idle(w: World) {
    WInv(w) && w.p.mode == Normal && w.p.text == []
  }

  /** ESC [ from an idle state opens a CSI sequence with its buffers cleared. */
  lemma OpenCsi(u: Services, w: World)
    requires Idle(w)
    ensures Run(u, Some(w), [ESC, '[' as byte]) ==
      Some(w.(p := w.p.(mode := Csi, params := [], paramString := [], privateMode := false)))
  {
    var w1 := w.(p := w.p.(mode := Esc));
    assert Step(u, w, ESC) == Some(w1);
    EscLeaves(u, w1, '[' as byte);
    assert [ESC, '[' as byte][1..] == ['[' as byte];
    assert Run(u, Some(w), [ESC, '[' as byte]) == Run(u, Some(w1), ['[' as byte]);
    assert Run(u, Some(w1), ['[' as byte]) == Run(u, Step(u, w1, '[' as byte), []);
  }

  /** The state carries over between calls: a sequence cut after ESC [ is still open. */
  lemma FeedKeepsOpenSequence(u: Services, w: World)
    requires Idle(w)
    ensures Feed(u, Some(w), [ESC, '[' as byte]) ==
      Some(w.(p := w.p.(mode := Csi, params := [], paramString := [], privateMode := false)))
  {
    OpenCsi(u, w);
  }

  function Pow10(n: nat): nat {
    if n == 0 then 1 else 10 * Pow10(n - 1)
  }

  /** n nines. */
  function Nines(n: nat): (s: seq<byte>)
    ensures |s| == n && AllDigits(s)
  {
    seq(n, _ => '9' as byte)
  }

  lemma {:induction false} NinesValue(n: nat)
    ensures Value(Nines(n)) == Pow10(n) - 1
  {
    if n > 0 {
      assert Nines(n)[..n - 1] == Nines(n - 1);
      NinesValue(n - 1);
    }
  }

  /** ten nines do not fit in an int. */
  lemma TenNinesOverflow()
    ensures !ParsesAsInt(Nines(10))
  {
    NinesValue(10);
    assert Pow10(10) == 10000000000;
  }

  /** ESC [ 9999999999 z from an idle state: the number does not parse, so it is dropped,
      and z is a final byte that has no command. Only the parser's CSI fields change. */
  lemma OverflowedSequence(u: Services, w: World)
    requires Idle(w)
    ensures Run(u, Some(w), [ESC, '[' as byte] + Nines(10) + ['z' as byte]) ==
      Some(w.(p := w.p.(params := [], paramString := [], privateMode := false)))
  {
    var wc := w.(p := w.p.(mode := Csi, params := [], paramString := [], privateMode := false));
    OpenCsi(u, w);
    NinesThenFinal(u, wc);
    RunAppend(u, Some(w), [ESC, '[' as byte], Nines(10) + ['z' as byte]);
    assert [ESC, '[' as byte] + Nines(10) + ['z' as byte] == [ESC, '[' as byte] + (Nines(10) + ['z' as byte]);
  }

  /** Inside the sequence: the ten nines, then z. */
  lemma NinesThenFinal(u: Services, wc: World)
    requires WInv(wc) && wc.p.mode == Csi && wc.p.paramString == [] && wc.p.params == []
    ensures Run(u, Some(wc), Nines(10) + ['z' as byte]) == Some(wc.(p := wc.p.(mode := Normal)))
  {
    var wd := wc.(p := wc.p.(paramString := Nines(10)));
    CsiDigits(u, wc, Nines(10));
    assert wc.p.paramString + Nines(10) == Nines(10);
    FinalAfterNines(u, wc);
    RunAppend(u, Some(wc), Nines(10), ['z' as byte]);
    RunCons(u, wd, ['z' as byte]);
    assert ['z' as byte][1..] == [];
  }

  /** The final z after ten nines: the parameter is dropped and nothing else happens. */
  lemma FinalAfterNines(u: Services, wc: World)
    requires WInv(wc) && wc.p.mode == Csi && wc.p.paramString == [] && wc.p.params == []
    ensures Step(u, wc.(p := wc.p.(paramString := Nines(10))), 'z' as byte) == Some(wc.(p := wc.p.(mode := Normal)))
  {
    var wd := wc.(p := wc.p.(paramString := Nines(10)));
    TenNinesOverflow();
    assert StoreParam(wd.p) == wc.p;
    CsiUnlisted(wc, 'z' as byte);
    CsiBytes(u, wd, 'z' as byte);
  }

  /** ... so the text after it is written as if the sequence had not been there:
      feeding ESC [ 9999999999 z GoodText ends where feeding GoodText does, from the same
      state with its CSI fields cleared. */
  lemma OverflowedParameterDropped(u: Services, w: World)
    requires Idle(w)
    ensures var good := ['G' as byte, 'o' as byte, 'o' as byte, 'd' as byte, 'T' as byte,
                         'e' as byte, 'x' as byte, 't' as byte];
      Feed(u, Some(w), [ESC, '[' as byte] + Nines(10) + ['z' as byte] + good) ==
      Feed(u, Some(w.(p := w.p.(params := [], paramString := [], privateMode := false))), good)
  {
    var good := ['G' as byte, 'o' as byte, 'o' as byte, 'd' as byte, 'T' as byte,
                 'e' as byte, 'x' as byte, 't' as byte];
    OverflowedSequence(u, w);
    RunAppend(u, Some(w), [ESC, '[' as byte] + Nines(10) + ['z' as byte], good);
  }

  // ---------------------------------------------------------------------------
  // The OSC escape flag

  /** Running one byte and then the rest. */
  lemma RunCons(u: Services, w: World, bs: seq<byte>)
    requires WInv(w) && bs != []
    ensures Run(u, Some(w), bs) == Run(u, Step(u, w, bs[0]), bs[1..])
  {
  }

  /** OSC bytes with the escape flag down, none of them BEL or ESC, join the buffer. */
  lemma {:induction false} OscCollects(u: Services, w: World, bs: seq<byte>)
    requires WInv(w) && w.p.mode == Osc && !w.p.oscEscape
    requires forall i :: 0 <= i < |bs| ==> bs[i] != BEL && bs[i] != ESC
    ensures Run(u, Some(w), bs) == Some(w.(p := w.p.(oscBuffer := w.p.oscBuffer + bs)))
    decreases |bs|
  {
    if bs == [] {
      assert w.p.oscBuffer + bs == w.p.oscBuffer;
    } else {
      var w1 := w.(p := w.p.(oscBuffer := w.p.oscBuffer + [bs[0]]));
      OscBytes(u, w, bs[0]);
      RunCons(u, w, bs);
      OscCollects(u, w1, bs[1..]);
      assert w1.p.oscBuffer + bs[1..] == w.p.oscBuffer + bs;
    }
  }

  /** ESC ] opens an OSC command with an empty buffer; the escape flag keeps its value. */
  lemma OpenOsc(u: Services, w: World)
    requires Idle(w)
    ensures Run(u, Some(w), [ESC, ']' as byte]) == Some(w.(p := w.p.(mode := Osc, oscBuffer := [])))
  {
    var w1 := w.(p := w.p.(mode := Esc));
    assert Step(u, w, ESC) == Some(w1);
    EscLeaves(u, w1, ']' as byte);
    RunCons(u, w, [ESC, ']' as byte]);
    assert [ESC, ']' as byte][1..] == [']' as byte];
    RunCons(u, w1, [']' as byte]);
  }

  /** ESC ] ESC BEL: an OSC cut short after an ESC ends at the BEL with the escape flag
      still raised. */
  lemma StaleEscapeFlag(u: Services, w: World)
    requires Idle(w) && !w.p.oscEscape
    ensures Run(u, Some(w), [ESC, ']' as byte, ESC, BEL]) ==
      Some(w.(p := w.p.(oscBuffer := [], oscEscape := true)))
  {
    var bs := [ESC, ']' as byte, ESC, BEL];
    var wo := w.(p := w.p.(mode := Osc, oscBuffer := []));
    var we := wo.(p := wo.p.(oscEscape := true));
    OpenOsc(u, w);
    RunAppend(u, Some(w), [ESC, ']' as byte], [ESC, BEL]);
    assert bs == [ESC, ']' as byte] + [ESC, BEL];
    OscBytes(u, wo, ESC);
    RunCons(u, wo, [ESC, BEL]);
    assert [ESC, BEL][1..] == [BEL];
    OscBytes(u, we, BEL);
    OscNoSeparator(we);
    RunCons(u, we, [BEL]);
  }

  /** ESC ] 1 ; T BEL: OSC 1 names the icon, not the window. */
  function IconName(): seq<byte> {
    [ESC, ']' as byte, '1' as byte, ';' as byte, 'T' as byte, BEL]
  }

  /** The OSC run of IconName after its opening ESC ], from the Osc state with an empty
      buffer: with the flag down, "1;T" is collected and the title stays; with it up, the
      1 is dropped, ";T" reads as OSC 0, and the title becomes T. */
  lemma IconNameBody(u: Services, wo: World)
    requires WInv(wo) && wo.p.mode == Osc && wo.p.oscBuffer == []
    ensures var r := Run(u, Some(wo), ['1' as byte, ';' as byte, 'T' as byte, BEL]);
      r.Some? && r.value.p.mode == Normal &&
      r.value.title == if wo.p.oscEscape then Some(['T' as byte]) else wo.title
  {
    var body := ['1' as byte, ';' as byte, 'T' as byte, BEL];
    OscBytes(u, wo, '1' as byte);
    RunCons(u, wo, body);
    assert body[1..] == [';' as byte, 'T' as byte, BEL];
    if wo.p.oscEscape {
      IconNameStale(u, wo.(p := wo.p.(oscEscape := false)));
    } else {
      IconNameFresh(u, wo);
    }
  }

  /** With the flag down, "1;T" is one OSC 1 command, which sets no title. */
  lemma IconNameFresh(u: Services, wo: World)
    requires WInv(wo) && wo.p.mode == Osc && wo.p.oscBuffer == [] && !wo.p.oscEscape
    ensures var r := Run(u, Some(wo), ['1' as byte, ';' as byte, 'T' as byte, BEL]);
      r.Some? && r.value.p.mode == Normal && r.value.title == wo.title
  {
    var rest := ['1' as byte, ';' as byte, 'T' as byte];
    assert rest + [BEL] == ['1' as byte, ';' as byte, 'T' as byte, BEL];
    RunAppend(u, Some(wo), rest, [BEL]);
    OscCollects(u, wo, rest);
    var w2 := wo.(p := wo.p.(oscBuffer := rest));
    assert wo.p.oscBuffer + rest == rest;
    OscBytes(u, w2, BEL);
    RunCons(u, w2, [BEL]);
    assert rest == ['1' as byte] + [';' as byte] + ['T' as byte];
    OscTitle(w2, ['1' as byte], ['T' as byte]);
    assert Value(['1' as byte]) == 1 by {
      assert ['1' as byte][..0] == [];
    }
  }

  /** After the dropped 1, ";T" is an OSC command with an empty number, read as 0. */
  lemma IconNameStale(u: Services, w1: World)
    requires WInv(w1) && w1.p.mode == Osc && w1.p.oscBuffer == [] && !w1.p.oscEscape
    ensures var r := Run(u, Some(w1), [';' as byte, 'T' as byte, BEL]);
      r.Some? && r.value.p.mode == Normal && r.value.title == Some(['T' as byte])
  {
    var rest := [';' as byte, 'T' as byte];
    assert rest + [BEL] == [';' as byte, 'T' as byte, BEL];
    RunAppend(u, Some(w1), rest, [BEL]);
    OscCollects(u, w1, rest);
    var w2 := w1.(p := w1.p.(oscBuffer := rest));
    assert w1.p.oscBuffer + rest == rest;
    OscBytes(u, w2, BEL);
    RunCons(u, w2, [BEL]);
    assert rest == [] + [';' as byte] + ['T' as byte];
    OscTitle(w2, [], ['T' as byte]);
    assert ToIntOrZero([]) == 0;
  }

  /** A stale flag swallows the first byte of the next OSC command: after ESC ] ESC BEL,
      ESC ] 1 ; T BEL sets the window title to T, which it does not do on its own. */
  lemma StaleFlagSetsTitle(u: Services, w: World)
    requires Idle(w) && !w.p.oscEscape
    ensures Run(u, Some(w), IconName()).Some? && Run(u, Some(w), IconName()).value.title == w.title
    ensures var r := Run(u, Some(w), [ESC, ']' as byte, ESC, BEL] + IconName());
      r.Some? && r.value.title == Some(['T' as byte])
  {
    var body := ['1' as byte, ';' as byte, 'T' as byte, BEL];
    assert IconName() == [ESC, ']' as byte] + body;
    OpenOsc(u, w);
    RunAppend(u, Some(w), [ESC, ']' as byte], body);
    IconNameBody(u, w.(p := w.p.(mode := Osc, oscBuffer := [])));

    var ws := w.(p := w.p.(oscBuffer := [], oscEscape := true));
    StaleEscapeFlag(u, w);
    RunAppend(u, Some(w), [ESC, ']' as byte, ESC, BEL], IconName());
    OpenOsc(u, ws);
    RunAppend(u, Some(ws), [ESC, ']' as byte], body);
    IconNameBody(u, ws.(p := ws.p.(mode := Osc, oscBuffer := [])));
  }
}
