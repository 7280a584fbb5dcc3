/**
  The download-progress side of `DefaultSettingsConverter`: the byte-length
  formatter and the transfer listener it attaches to every repository. The
  progress-logger factory is an abstract log of start / progress / completed
  operations, each naming the logger it was issued for.
 */
module TransferProgress {
  import opened Wrappers
  import Text

  const KILOBYTE: int := 1024
  const MEGABYTE: int := 1048576

  /** `getLengthText(Long)`. A megabyte count is `%.2f` of bytes / 1048576.0,
      rounded half up to hundredths. */
  function LengthText(bytes: Option<int>): (s: string)
    ensures bytes == None ==> s == "unknown size"
    ensures bytes.Some? && bytes.value < KILOBYTE ==> s == Text.IntToString(bytes.value) + " B"
    ensures bytes.Some? && KILOBYTE <= bytes.value < MEGABYTE
      ==> s == Text.IntToString(bytes.value / KILOBYTE) + " KB"
    ensures bytes.Some? && bytes.value >= MEGABYTE ==> s == MegabyteText(bytes.value) + " MB"
  {
    if bytes.None? then "unknown size"
    else if bytes.value < KILOBYTE then Text.IntToString(bytes.value) + " B"
    else if bytes.value < MEGABYTE then Text.IntToString(bytes.value / KILOBYTE) + " KB"
    else MegabyteText(bytes.value) + " MB"
  }

  /** Hundredths of a megabyte, the nearest one with ties rounded up. */
  function Hundredths(bytes: nat): (h: nat)
    ensures h * MEGABYTE <= bytes * 100 + MEGABYTE / 2 < h * MEGABYTE + MEGABYTE
  {
    (bytes * 100 + MEGABYTE / 2) / MEGABYTE
  }

  /** `bytes / 1048576.0` printed with two decimals. */
  function MegabyteText(bytes: nat): (s: string)
    ensures |s| >= 4 && s[|s| - 3] == '.'
  {
    var h := Hundredths(bytes);
    Text.NatToString(h / 100) + "." + [Text.Digit(h / 10 % 10), Text.Digit(h % 10)]
  }

  /** The sample sizes: 1023 and 1024 sit either side of the kilobyte boundary,
      1048575 is the last kilobyte value and 1048576 is the first megabyte one. */
  lemma LengthTextByteExamples()
    ensures LengthText(None) == "unknown size"
    ensures LengthText(Some(500)) == "500 B"
    ensures LengthText(Some(1023)) == "1023 B"
  {
    assert Text.NatToString(5) == "5";
    assert Text.NatToString(50) == "50";
    assert Text.NatToString(500) == "500";
    assert Text.NatToString(1) == "1";
    assert Text.NatToString(10) == "10";
    assert Text.NatToString(102) == "102";
    assert Text.NatToString(1023) == "1023";
  }

  lemma LengthTextKilobyteExamples()
    ensures LengthText(Some(1024)) == "1 KB"
    ensures LengthText(Some(2048)) == "2 KB"
    ensures LengthText(Some(1048575)) == "1023 KB"
  {
    assert Text.NatToString(1) == "1";
    assert Text.NatToString(2) == "2";
    assert Text.NatToString(10) == "10";
    assert Text.NatToString(102) == "102";
    assert Text.NatToString(1023) == "1023";
  }

  lemma LengthTextMegabyteExamples()
    ensures LengthText(Some(1048576)) == "1.00 MB"
    ensures LengthText(Some(5242880)) == "5.00 MB"
  {
    assert Hundredths(1048576) == 100;
    assert Hundredths(5242880) == 500;
    assert Text.NatToString(1) == "1";
    assert Text.NatToString(5) == "5";
    assert Text.Digit(0) == '0';
  }

  /** The number printed before " B" reads back as the byte count itself, and the
      number before " KB" is the count of whole kilobytes, between 1 and 1023. */
  lemma LengthTextReadsBack(n: int)
    ensures n < KILOBYTE ==>
      (var s := LengthText(Some(n));
       s[..|s| - 2] == Text.IntToString(n) && Text.ParseInt(s[..|s| - 2]) == n)
    ensures KILOBYTE <= n < MEGABYTE ==>
      (var s := LengthText(Some(n));
       s[..|s| - 3] == Text.IntToString(n / KILOBYTE)
       && var k := Text.ParseInt(s[..|s| - 3]);
       1 <= k <= 1023 && k * KILOBYTE <= n < (k + 1) * KILOBYTE)
  {
    var s := LengthText(Some(n));
    if n < KILOBYTE {
      assert s == Text.IntToString(n) + " B";
      assert s[..|s| - 2] == Text.IntToString(n);
      Text.IntToStringRoundTrip(n);
    } else if n < MEGABYTE {
      assert s == Text.IntToString(n / KILOBYTE) + " KB";
      assert s[..|s| - 3] == Text.IntToString(n / KILOBYTE);
      Text.IntToStringRoundTrip(n / KILOBYTE);
    }
  }

  // ---------------------------------------------------------------- listener

  datatype EventType = Initiated | Started | Progress | Completed | Error

  /** An Ivy `TransferEvent`: its resource, the event type, the length of this
      chunk and the total length if the transport knows it. */
  datatype TransferEvent = TransferEvent(
    resourceName: string,
    isLocal: bool,
    eventType: EventType,
    length: int,
    totalLength: Option<int>)

  /** Operations on progress loggers; `handle` numbers the loggers in the order
      the factory started them. */
  datatype ProgressOp =
    | StartLogger(handle: nat)
    | ProgressMessage(handle: nat, message: string)
    | CompleteLogger(handle: nat)

  /** `ProgressLoggingTransferListener`: the running byte total, the current
      logger (null before the first download) and how many loggers were started. */
  datatype Listener = Listener(total: int, logger: Option<nat>, loggersStarted: nat)

  datatype Step = Step(listener: Listener, ops: seq<ProgressOp>)

  const NewListener := Listener(0, None, 0)

  /** The progress message: bytes so far, a slash, the total size, " downloaded". */
  function ProgressText(total: int, evt: TransferEvent): (r: string)
    ensures |r| >= 11 && r[|r| - 11..] == " downloaded"
    ensures var so := LengthText(Some(total)); |so| < |r| && r[..|so| + 1] == so + "/"
  {
    var so, of := LengthText(Some(total)), LengthText(evt.totalLength);
    ConcatEnds(so + "/", of + " downloaded");
    ConcatEnds(so + "/" + of, " downloaded");
    so + "/" + of + " downloaded"
  }

  /** After the running total and the slash comes the total size's text
      (`unknown size` when the size is not known), then ` downloaded`. */
  lemma ProgressTextTotalPart(total: int, evt: TransferEvent)
    ensures var so, r := LengthText(Some(total)), ProgressText(total, evt);
      |so| + 1 <= |r| && r[|so| + 1..] == LengthText(evt.totalLength) + " downloaded"
    ensures evt.totalLength == None ==>
      ProgressText(total, evt) == LengthText(Some(total)) + "/unknown size downloaded"
  {
    var so, of := LengthText(Some(total)), LengthText(evt.totalLength);
    ConcatEnds(so + "/", of + " downloaded");
    assert so + "/" + of + " downloaded" == (so + "/") + (of + " downloaded");
  }

  lemma ConcatEnds(a: string, b: string)
    ensures (a + b)[..|a|] == a && (a + b)[|a|..] == b
  {
  }

  /** `transferProgress`. Progress or completion with no logger yet throws. */
  function Transfer(l: Listener, evt: TransferEvent): (r: Result<Step>)
    ensures evt.isLocal ==> r == Ok(Step(l, []))
    ensures !evt.isLocal && evt.eventType == Started ==>
      r == Ok(Step(Listener(0, Some(l.loggersStarted), l.loggersStarted + 1), [StartLogger(l.loggersStarted)]))
    ensures !evt.isLocal && evt.eventType == Progress && l.logger.Some? ==>
      var t := l.total + evt.length;
      r == Ok(Step(l.(total := t), [ProgressMessage(l.logger.value, ProgressText(t, evt))]))
    ensures !evt.isLocal && (evt.eventType == Completed || evt.eventType == Error) && l.logger.Some? ==>
      r == Ok(Step(l, [CompleteLogger(l.logger.value)]))
    ensures r.Thrown? <==> !evt.isLocal && evt.eventType in {Progress, Completed, Error} && l.logger.None?
    ensures !evt.isLocal && evt.eventType == Initiated ==> r == Ok(Step(l, []))
  {
    if evt.isLocal then Ok(Step(l, []))
    else
      match evt.eventType
      case Started =>
        var h := l.loggersStarted;
        Ok(Step(Listener(0, Some(h), h + 1), [StartLogger(h)]))
      case Progress =>
        if l.logger.None? then Thrown(NullPointerException)
        else
          var t := l.total + evt.length;
          Ok(Step(l.(total := t), [ProgressMessage(l.logger.value, ProgressText(t, evt))]))
      case Completed =>
        if l.logger.None? then Thrown(NullPointerException) else Ok(Step(l, [CompleteLogger(l.logger.value)]))
      case Error =>
        if l.logger.None? then Thrown(NullPointerException) else Ok(Step(l, [CompleteLogger(l.logger.value)]))
      case Initiated => Ok(Step(l, []))
  }

  /** Delivers events in order, stopping at the first exception. */
  function Run(l: Listener, evs: seq<TransferEvent>): Result<Step>
    decreases |evs|
  {
    if |evs| == 0 then Ok(Step(l, []))
    else
      match Run(l, evs[..|evs| - 1])
      case Thrown(e) => Thrown(e)
      case Ok(p) =>
        match Transfer(p.listener, evs[|evs| - 1])
        case Thrown(e) => Thrown(e)
        case Ok(q) => Ok(Step(q.listener, p.ops + q.ops))
  }

  /** Byte count of the progress events that reach the listener. */
  function DownloadedBytes(evs: seq<TransferEvent>): int
    decreases |evs|
  {
    if |evs| == 0 then 0
    else
      var e := evs[|evs| - 1];
      DownloadedBytes(evs[..|evs| - 1]) + (if !e.isLocal && e.eventType == Progress then e.length else 0)
  }

  predicate IsStart(e: TransferEvent) {
    !e.isLocal && e.eventType == Started
  }

  predicate NoStart(evs: seq<TransferEvent>) {
    forall i :: 0 <= i < |evs| ==> !IsStart(evs[i])
  }

  /**
    After a start, the running total is the sum of the lengths of the progress
    events since that start, and the logger is the one the start opened.
   */
  lemma {:induction false} TotalSinceStart(l: Listener, before: seq<TransferEvent>, start: TransferEvent, evs: seq<TransferEvent>)
    requires IsStart(start) && NoStart(evs)
    requires Run(l, before + [start] + evs).Ok?
    ensures Run(l, before + [start]).Ok?
    ensures var h := Run(l, before + [start]).value.listener.loggersStarted - 1;
      var r := Run(l, before + [start] + evs).value.listener;
      && r.total == DownloadedBytes(evs)
      && r.logger == Some(h) && r.loggersStarted == h + 1
    decreases |evs|
  {
    var pre := before + [start];
    if |evs| == 0 {
      assert pre + evs == pre;
      assert pre[..|pre| - 1] == before;
    } else {
      var init := evs[..|evs| - 1];
      var all := pre + evs;
      assert all[..|all| - 1] == pre + init;
      assert all[|all| - 1] == evs[|evs| - 1];
      assert NoStart(init) by {
        forall i | 0 <= i < |init| ensures !IsStart(init[i]) {
          assert init[i] == evs[i];
        }
      }
      assert Run(l, pre + init).Ok?;
      TotalSinceStart(l, before, start, init);
    }
  }

  predicate AllLocal(evs: seq<TransferEvent>) {
    forall i :: 0 <= i < |evs| ==> evs[i].isLocal
  }

  /** Transfers of local resources touch neither the state nor the progress display. */
  lemma {:induction false} LocalTransfersInvisible(l: Listener, evs: seq<TransferEvent>)
    requires AllLocal(evs)
    ensures Run(l, evs) == Ok(Step(l, []))
    decreases |evs|
  {
    if |evs| > 0 {
      var init := evs[..|evs| - 1];
      assert AllLocal(init) by {
        forall i | 0 <= i < |init| ensures init[i].isLocal {
          assert init[i] == evs[i];
        }
      }
      LocalTransfersInvisible(l, init);
      assert evs[|evs| - 1].isLocal;
      assert Transfer(l, evs[|evs| - 1]) == Ok(Step(l, []));
      var none: seq<ProgressOp> := [];
      assert none + none == none;
    }
  }

  predicate IsProgress(e: TransferEvent) {
    !e.isLocal && e.eventType == Progress
  }

  /**
    One complete download of a remote resource (a start, progress events, then
    completion or an error) opens a new logger, reports every chunk on it and
    closes that same logger, whatever state the listener was in before.
   */
  lemma {:induction false} DownloadSession(l: Listener, start: TransferEvent, chunks: seq<TransferEvent>, end: TransferEvent)
    requires IsStart(start)
    requires forall i :: 0 <= i < |chunks| ==> IsProgress(chunks[i])
    requires !end.isLocal && (end.eventType == Completed || end.eventType == Error)
    ensures var r := Run(l, [start] + chunks + [end]); var h := l.loggersStarted;
      && r.Ok?
      && |r.value.ops| == |chunks| + 2
      && r.value.ops[0] == StartLogger(h)
      && r.value.ops[|r.value.ops| - 1] == CompleteLogger(h)
      && (forall i :: 1 <= i <= |chunks| ==> r.value.ops[i].ProgressMessage? && r.value.ops[i].handle == h)
      && r.value.listener.total == DownloadedBytes(chunks)
  {
    ChunksReported(l, start, chunks);
    var all := [start] + chunks + [end];
    assert all[..|all| - 1] == [start] + chunks;
    assert all[|all| - 1] == end;
  }

  lemma {:induction false} ChunksReported(l: Listener, start: TransferEvent, chunks: seq<TransferEvent>)
    requires IsStart(start)
    requires forall i :: 0 <= i < |chunks| ==> IsProgress(chunks[i])
    ensures var r := Run(l, [start] + chunks); var h := l.loggersStarted;
      && r.Ok?
      && |r.value.ops| == |chunks| + 1
      && r.value.ops[0] == StartLogger(h)
      && (forall i :: 1 <= i <= |chunks| ==> r.value.ops[i].ProgressMessage? && r.value.ops[i].handle == h)
      && r.value.listener == Listener(DownloadedBytes(chunks), Some(h), h + 1)
    decreases |chunks|
  {
    var all := [start] + chunks;
    if |chunks| == 0 {
      assert all == [start];
      assert all[..0] == [];
    } else {
      var init := chunks[..|chunks| - 1];
      assert all[..|all| - 1] == [start] + init;
      assert all[|all| - 1] == chunks[|chunks| - 1];
      assert init[..|init|] == init;
      assert forall i :: 0 <= i < |init| ==> init[i] == chunks[i];
      ChunksReported(l, start, init);
    }
  }
}
