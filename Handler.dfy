/**
 * The BLE notification callback `notification_handler` (app.py:112-156):
 * decode the payload, append its integers to the module-global buffer
 * `accumulated_data`, and once a frame's worth has arrived, cut the frame,
 * show its statistics and reset the buffer. Every exception is swallowed.
 *
 * The buffer has three states, not two: until the first notification whose
 * payload decodes, the name `accumulated_data` is not bound at all
 * (app.py:117-118 creates it); after a frame it is bound to None
 * (app.py:140), so the lazy creation never fires again and `None.extend`
 * raises on every later notification whose payload decodes (one that does
 * not decode raises earlier, at app.py:116). The
 * Streamlit calls that show the statistics (app.py:128-138) come between the
 * cut and the reset; whether they complete is an input of the model, because
 * when they raise the reset is skipped and the oversized list stays.
 */
module Handler {
  import opened Options
  import opened Utf8
  import opened Tokens
  import opened Frame

  /** The global `accumulated_data`. */
  datatype Buffer = Absent | Samples(values: seq<nat>) | Poisoned

  /** The samples the buffer holds (none when it is absent or None). */
  function Held(b: Buffer): seq<nat>
  {
    if b.Samples? then b.values else []
  }

  /** What the handler computes for a completed frame. */
  datatype Report = Report(frame: seq<nat>, above135: nat, labelledAbove80: nat,
                           top10: seq<int>, grid: seq<seq<int>>)

  /** One call of the handler as the buffer logic sees it: the integers of
      the payload, or None when the payload is not UTF-8, and whether the
      Streamlit calls at app.py:128-138 complete without raising. */
  datatype Notification = Notification(tokens: Option<seq<nat>>, panelShown: bool)

  /** The statistics and grid of a frame (app.py:124-126, 141). */
  function ReportOf(frame: seq<nat>): (r: Report)
    requires |frame| == Size
    ensures r.frame == frame && r.top10 == Top10(frame) && |r.top10| == 10 && IsGrid(r.grid)
    ensures r.labelledAbove80 == r.above135 == CountAbove(frame, 135)
    ensures Flatten(r.grid) == frame
  {
    FlattenReshape(frame);
    Report(frame, CountAbove135(frame), CountLabelledAbove80(frame), Top10(frame), Reshape(frame))
  }

  /** The integers a payload contributes, or None when it is not UTF-8
      (app.py:116 and 119). */
  function PayloadTokens(payload: seq<byte>): (r: Option<seq<nat>>)
    ensures r.None? <==> Decode(payload).None?
    ensures r.Some? ==> |r.value| <= |payload|
  {
    match Decode(payload)
    case None => None
    case Some(text) => Some(ExtractIntegers(text))
  }

  /** The notification a payload makes. */
  function Received(payload: seq<byte>, panelShown: bool): Notification
  {
    Notification(PayloadTokens(payload), panelShown)
  }

  /** The effect of one callback on the buffer, and the frame it reports. */
  function Step(b: Buffer, n: Notification): (r: (Buffer, Option<Report>))
    ensures r.1.Some? <==> !b.Poisoned? && r.0.Poisoned?   // a report exactly when the buffer is lost
    ensures r.1.Some? ==> |r.1.value.frame| == Size
    ensures b.Poisoned? ==> r.0 == b
  {
    match n.tokens
    case None => (b, None)                   // decode raised before any change
    case Some(tokens) =>
      if b.Poisoned? then (b, None)          // None.extend raised
      else
        var grown := Held(b) + tokens;
        if |grown| < Size then (Samples(grown), None)
        else if !n.panelShown then (Samples(grown), None)  // raised before the reset
        else (Poisoned, Some(ReportOf(grown[..Size])))
  }

  /** The callbacks of a stream, one at a time in arrival order: the final
      buffer and the frames reported, in order. */
  function Run(b: Buffer, ns: seq<Notification>): (r: (Buffer, seq<Report>))
    ensures b.Poisoned? ==> r.0 == b && r.1 == []
    ensures |r.1| <= |ns|
    decreases |ns|
  {
    if ns == [] then (b, [])
    else
      var step := Step(b, ns[0]);
      var rest := Run(step.0, ns[1..]);
      (rest.0, (if step.1.Some? then [step.1.value] else []) + rest.1)
  }

  /** The integers a notification adds to the buffer (none if undecodable). */
  function Contributed(n: Notification): seq<nat>
  {
    match n.tokens
    case None => []
    case Some(t) => t
  }

  /** All integers of the decodable payloads of a stream, in arrival order. */
  function StreamTokens(ns: seq<Notification>): seq<nat>
    decreases |ns|
  {
    if ns == [] then [] else Contributed(ns[0]) + StreamTokens(ns[1..])
  }

  /** The payloads of a stream that decode. */
  function Decodable(ns: seq<Notification>): (ds: seq<Notification>)
    ensures forall k :: 0 <= k < |ds| ==> ds[k].tokens.Some?
    decreases |ns|
  {
    if ns == [] then []
    else (if ns[0].tokens.Some? then [ns[0]] else []) + Decodable(ns[1..])
  }

  /** The handler as the program runs it, on the buffer it owns. */
  class Session {
    var buffer: Buffer

    constructor ()
      ensures buffer == Absent
    {
      buffer := Absent;
    }

    method Notify(payload: seq<byte>, panelShown: bool) returns (report: Option<Report>)
      modifies this
      ensures (buffer, report) == Step(old(buffer), Received(payload, panelShown))
    {
      report := None;
      var text := Decode(payload);
      if text.None? {
        return;
      }
      if buffer.Absent? {
        buffer := Samples([]);
      }
      if buffer.Poisoned? {
        return;
      }
      buffer := Samples(buffer.values + ExtractIntegers(text.value));
      if |buffer.values| >= Size {
        var chunk := buffer.values[..Size];
        var above135 := CountAbove135(chunk);
        var labelledAbove80 := CountLabelledAbove80(chunk);
        var top10 := Top10(chunk);
        if !panelShown {
          return;
        }
        buffer := Poisoned;
        var grid := Reshape(chunk);
        report := Some(Report(chunk, above135, labelledAbove80, top10, grid));
      }
    }
  }

  // ---------------------------------------------------------------------
  // Streams of notifications
  // ---------------------------------------------------------------------

  lemma {:induction false} RunAppend(b: Buffer, xs: seq<Notification>, ys: seq<Notification>)
    ensures Run(b, xs + ys).0 == Run(Run(b, xs).0, ys).0
    ensures Run(b, xs + ys).1 == Run(b, xs).1 + Run(Run(b, xs).0, ys).1
    decreases |xs|
  {
    if xs == [] {
      assert xs + ys == ys;
    } else {
      assert (xs + ys)[1..] == xs[1..] + ys;
      RunAppend(Step(b, xs[0]).0, xs[1..], ys);
    }
  }

  lemma {:induction false} StreamTokensAppend(xs: seq<Notification>, ys: seq<Notification>)
    ensures StreamTokens(xs + ys) == StreamTokens(xs) + StreamTokens(ys)
    decreases |xs|
  {
    if xs == [] {
      assert xs + ys == ys;
    } else {
      assert (xs + ys)[1..] == xs[1..] + ys;
      StreamTokensAppend(xs[1..], ys);
    }
  }

  lemma StepPoisoned(n: Notification)
    ensures Step(Poisoned, n).0 == Poisoned && Step(Poisoned, n).1 == None
  {
  }

  lemma StepBelowFrame(b: Buffer, n: Notification)
    requires !b.Poisoned? && |Held(b) + Contributed(n)| < Size
    ensures Step(b, n).1 == None && !Step(b, n).0.Poisoned?
    ensures Held(Step(b, n).0) == Held(b) + Contributed(n)
  {
    if n.tokens.None? {
      assert Held(b) + [] == Held(b);
    }
  }

  /** Once the buffer is None it stays None and no frame is ever reported. */
  lemma {:induction false} PoisonedStays(ns: seq<Notification>)
    ensures Run(Poisoned, ns).0 == Poisoned && Run(Poisoned, ns).1 == []
    decreases |ns|
  {
    if ns != [] {
      StepPoisoned(ns[0]);
      PoisonedStays(ns[1..]);
      assert Run(Poisoned, ns).1 == [] + Run(Poisoned, ns[1..]).1;
    }
  }

  /** Below a frame's worth, notifications only grow the buffer: it holds
      exactly the integers of the decodable payloads appended in arrival order,
      whatever the payload boundaries, and no frame is reported. */
  lemma {:induction false} RunBelowFrame(b: Buffer, ns: seq<Notification>)
    requires !b.Poisoned?
    requires |Held(b) + StreamTokens(ns)| < Size
    ensures Run(b, ns).1 == []
    ensures !Run(b, ns).0.Poisoned?
    ensures Held(Run(b, ns).0) == Held(b) + StreamTokens(ns)
    decreases |ns|
  {
    if ns == [] {
      assert Held(b) + [] == Held(b);
    } else {
      var t := Contributed(ns[0]);
      assert Held(b) + StreamTokens(ns) == (Held(b) + t) + StreamTokens(ns[1..]);
      StepBelowFrame(b, ns[0]);
      var b1 := Step(b, ns[0]).0;
      RunBelowFrame(b1, ns[1..]);
    }
  }

  /** Every statistics panel of the stream completes. */
  predicate AllShown(ns: seq<Notification>)
  {
    forall k :: 0 <= k < |ns| ==> ns[k].panelShown
  }

  lemma RunCons(b: Buffer, ns: seq<Notification>)
    requires ns != []
    ensures Run(b, ns).0 == Run(Step(b, ns[0]).0, ns[1..]).0
    ensures Run(b, ns).1 == (if Step(b, ns[0]).1.Some? then [Step(b, ns[0]).1.value] else [])
                            + Run(Step(b, ns[0]).0, ns[1..]).1
  {
  }

  /** A whole stream in closed form, from a buffer below a frame's worth: with
      all integers received so far, either there are fewer than Size of them,
      the buffer holds them all and nothing is reported, or (every panel
      completing) exactly one frame is reported, the first Size of them, and
      the buffer is None. */
  lemma {:induction false} RunClosedForm(b: Buffer, ns: seq<Notification>)
    requires !b.Poisoned? && |Held(b)| < Size
    requires |Held(b) + StreamTokens(ns)| < Size || AllShown(ns)
    ensures |Held(b) + StreamTokens(ns)| < Size ==>
              Run(b, ns).1 == [] && !Run(b, ns).0.Poisoned?
              && Held(Run(b, ns).0) == Held(b) + StreamTokens(ns)
    ensures |Held(b) + StreamTokens(ns)| >= Size ==>
              Run(b, ns).0 == Poisoned
              && Run(b, ns).1 == [ReportOf((Held(b) + StreamTokens(ns))[..Size])]
    decreases |ns|
  {
    var all := Held(b) + StreamTokens(ns);
    if |all| < Size {
      RunBelowFrame(b, ns);
    } else {
      assert ns != [];
      var t, rest := Contributed(ns[0]), StreamTokens(ns[1..]);
      AppendAssoc(Held(b), t, rest);
      assert all == (Held(b) + t) + rest;
      RunCons(b, ns);
      if |Held(b) + t| < Size {
        StepBelowFrame(b, ns[0]);
        var b1 := Step(b, ns[0]).0;
        assert Held(b1) + rest == all;
        assert AllShown(ns[1..]);
        RunClosedForm(b1, ns[1..]);
      } else {
        var g := Held(b) + t;
        assert ns[0].tokens.Some? && ns[0].panelShown;
        assert Step(b, ns[0]).0 == Poisoned;
        assert Step(b, ns[0]).1 == Some(ReportOf(g[..Size]));
        PoisonedStays(ns[1..]);
        assert all[..Size] == g[..Size];
      }
    }
  }

  /** Chunk-boundary independence: two streams carrying the same integers,
      however they are split into payloads, report the same frames and leave
      the same samples in the buffer (below a frame's worth, whatever the
      panels do; beyond it, when every panel completes). */
  lemma ChunkingIrrelevant(b: Buffer, xs: seq<Notification>, ys: seq<Notification>)
    requires !b.Poisoned? && |Held(b)| < Size && StreamTokens(xs) == StreamTokens(ys)
    requires |Held(b) + StreamTokens(xs)| < Size || (AllShown(xs) && AllShown(ys))
    ensures Run(b, xs).1 == Run(b, ys).1
    ensures Held(Run(b, xs).0) == Held(Run(b, ys).0)
    ensures Run(b, xs).0.Poisoned? == Run(b, ys).0.Poisoned?
  {
    RunClosedForm(b, xs);
    RunClosedForm(b, ys);
  }

  /** The notification that brings the buffer to a frame's worth. */
  lemma StepCutsFrame(b: Buffer, n: Notification)
    requires !b.Poisoned? && n.tokens.Some? && n.panelShown
    requires |Held(b) + Contributed(n)| >= Size
    ensures Run(b, [n]).0 == Poisoned
    ensures Run(b, [n]).1 == [ReportOf((Held(b) + Contributed(n))[..Size])]
  {
    assert Step(b, n).0 == Poisoned;
    assert Step(b, n).1 == Some(ReportOf((Held(b) + Contributed(n))[..Size]));
    assert [n][1..] == [];
    assert Run(b, [n]).1 == [ReportOf((Held(b) + Contributed(n))[..Size])] + [];
  }

  lemma StreamTokensSnoc(pre: seq<Notification>, n: Notification)
    ensures StreamTokens(pre + [n]) == StreamTokens(pre) + Contributed(n)
  {
    StreamTokensAppend(pre, [n]);
    assert StreamTokens([n]) == Contributed(n) + StreamTokens([]);
  }

  lemma AppendAssoc(a: seq<nat>, b: seq<nat>, c: seq<nat>)
    ensures (a + b) + c == a + (b + c)
  {
  }

  lemma HeldBeforeLast(b: Buffer, pre: seq<Notification>, n: Notification)
    requires !b.Poisoned? && |Held(b) + StreamTokens(pre)| < Size
    ensures !Run(b, pre).0.Poisoned? && Run(b, pre).1 == []
    ensures Held(Run(b, pre).0) + Contributed(n) == Held(b) + StreamTokens(pre + [n])
  {
    RunBelowFrame(b, pre);
    StreamTokensSnoc(pre, n);
    AppendAssoc(Held(b), StreamTokens(pre), Contributed(n));
  }

  /** The frame cut from a stream that first reaches a frame's worth with
      its last notification. */
  lemma FrameOfStream(b: Buffer, pre: seq<Notification>, n: Notification)
    requires !b.Poisoned?
    requires |Held(b) + StreamTokens(pre)| < Size
    requires n.tokens.Some? && n.panelShown
    requires |Held(b) + StreamTokens(pre + [n])| >= Size
    ensures Run(b, pre + [n]).0 == Poisoned
    ensures Run(b, pre + [n]).1 == [ReportOf((Held(b) + StreamTokens(pre + [n]))[..Size])]
  {
    HeldBeforeLast(b, pre, n);
    var b1 := Run(b, pre).0;
    StepCutsFrame(b1, n);
    RunAppend(b, pre, [n]);
    assert Run(b, pre + [n]).1 == [] + Run(b1, [n]).1;
  }

  /** The frame: the notification whose integers first bring the buffer to a
      frame's worth reports exactly the first Size integers received (all of
      them when exactly Size arrived), the rest are dropped, the buffer becomes
      None, and nothing that arrives afterwards yields another frame. */
  lemma FirstFrame(b: Buffer, pre: seq<Notification>, n: Notification, post: seq<Notification>)
    requires !b.Poisoned?
    requires |Held(b) + StreamTokens(pre)| < Size
    requires n.tokens.Some? && n.panelShown
    requires |Held(b) + StreamTokens(pre + [n])| >= Size
    ensures Run(b, pre + [n] + post).0 == Poisoned
    ensures Run(b, pre + [n] + post).1 == [ReportOf((Held(b) + StreamTokens(pre + [n]))[..Size])]
    ensures |Held(b) + StreamTokens(pre + [n])| == Size
            ==> Run(b, pre + [n] + post).1[0].frame == Held(b) + StreamTokens(pre + [n])
  {
    var all := Held(b) + StreamTokens(pre + [n]);
    FrameOfStream(b, pre, n);
    RunAppend(b, pre + [n], post);
    PoisonedStays(post);
    assert Run(b, pre + [n] + post).1 == Run(b, pre + [n]).1 + [];
    assert |all| == Size ==> all[..Size] == all;
  }

  /** At most one frame is ever reported, from any starting buffer. */
  lemma {:induction false} AtMostOneFrame(b: Buffer, ns: seq<Notification>)
    ensures |Run(b, ns).1| <= 1
    decreases |ns|
  {
    if ns != [] {
      var b1, r := Step(b, ns[0]).0, Step(b, ns[0]).1;
      if r.Some? {
        PoisonedStays(ns[1..]);
      } else {
        AtMostOneFrame(b1, ns[1..]);
      }
    }
  }

  /** A payload that is not UTF-8 has no effect: a stream behaves as the
      stream of its decodable payloads alone. */
  lemma {:induction false} UndecodableIgnored(b: Buffer, ns: seq<Notification>)
    ensures Run(b, ns).0 == Run(b, Decodable(ns)).0
    ensures Run(b, ns).1 == Run(b, Decodable(ns)).1
    decreases |ns|
  {
    if ns != [] {
      UndecodableIgnored(Step(b, ns[0]).0, ns[1..]);
      if ns[0].tokens.Some? {
        assert Decodable(ns) == [ns[0]] + Decodable(ns[1..]);
        assert Decodable(ns)[1..] == Decodable(ns[1..]);
      } else {
        assert Step(b, ns[0]).0 == b && Step(b, ns[0]).1 == None;
        assert Run(b, ns).0 == Run(b, ns[1..]).0;
        assert Run(b, ns).1 == [] + Run(b, ns[1..]).1;
        assert Decodable(ns) == Decodable(ns[1..]);
      }
    }
  }

  /** When the statistics panel raises, the reset is skipped; the oversized
      list stays, and the next decodable notification whose panel completes
      cuts the very same frame again. */
  lemma PanelFailureRepeatsFrame(b: Buffer, n: Notification, m: Notification)
    requires !b.Poisoned? && n.tokens.Some? && !n.panelShown
    requires |Held(b) + n.tokens.value| >= Size
    requires m.tokens.Some? && m.panelShown
    ensures Step(b, n).0 == Samples(Held(b) + n.tokens.value)
    ensures Step(b, n).1 == None
    ensures Step(Step(b, n).0, m).1
         == Some(ReportOf((Held(b) + n.tokens.value)[..Size]))
  {
    var g := Held(b) + n.tokens.value;
    var t := m.tokens.value;
    assert (g + t)[..Size] == g[..Size];
  }

  // ---------------------------------------------------------------------
  // Payloads and the text they carry
  // ---------------------------------------------------------------------

  /** A payload that is the UTF-8 encoding of a text contributes exactly the
      integers of that text; one that is not UTF-8 contributes nothing. */
  lemma ReceivedText(text: string, panelShown: bool)
    ensures Received(Encode(text), panelShown).tokens == Some(ExtractIntegers(text))
  {
    DecodeEncode(text);
  }

  /** Integers are extracted per payload, so the transport's packet
      boundaries matter after all: two payloads carry the integers of their
      joined text exactly when the boundary between them does not cut a
      number in two ("12" then "34" gives 12 and 34, not 1234). */
  lemma SplitPayloads(a: string, b: string, shownA: bool, shownB: bool)
    ensures StreamTokens([Received(Encode(a), shownA), Received(Encode(b), shownB)])
            == ExtractIntegers(a + b)
            <==> (a == [] || b == [] || !IsDigit(a[|a| - 1]) || !IsDigit(b[0]))
  {
    ReceivedText(a, shownA);
    ReceivedText(b, shownB);
    StreamTokensPair(Received(Encode(a), shownA), Received(Encode(b), shownB));
    ExtractAppend(a, b);
  }

  lemma StreamTokensPair(n1: Notification, n2: Notification)
    ensures StreamTokens([n1, n2]) == Contributed(n1) + Contributed(n2)
  {
    assert [n1, n2][1..] == [n2] && [n2][1..] == [];
    assert StreamTokens([n2]) == Contributed(n2) + StreamTokens([]);
    assert Contributed(n2) + [] == Contributed(n2);
    assert StreamTokens([n1, n2]) == Contributed(n1) + StreamTokens([n2]);
  }
}
