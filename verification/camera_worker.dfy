/**
 * One camera thread of streamUSB.py (`camera_worker`) with the serial port
 * replaced by a description of how the port behaves, and the batch runner
 * `run_camera_batch` as the collection of independent per-camera runs.
 */
module CameraWorker {
  import opened Common
  import opened Registers
  import opened Wire
  import opened PixelDecode

  /** How the mode string is dispatched: anything but UPDATE or RESET captures. */
  datatype Mode = Update | Reset | Capture

  function ModeOf(mode: string): Mode {
    if mode == "UPDATE" then Update else if mode == "RESET" then Reset else Capture
  }

  /** One interaction with the port, in program order. */
  datatype PortAction =
    | Write(text: string)
    | FlushInput
    | ReadAll
    | ReadFrame(want: nat)

  /**
   * What the port does: whether it opens, what a RESET finds waiting in
   * the input buffer, and the bytes that arrive before the timeout after a
   * capture request.
   */
  datatype Port = Port(opens: bool, resetReply: string, arriving: seq<int>)

  /** The PNG `save_image` writes, by capture kind. */
  datatype SaveTarget = LiveImage | BatchImage(cam: int) | SingleImage(cam: int)

  datatype Image = GrayImage(luma: seq<int>) | ColourImage(raw: seq<int>)

  datatype Outcome =
    | PortError
    | Programmed(registers: Table)
    | ResetReplied(reply: string)
    | Saved(image: Image, target: SaveTarget)
    | NotDecoded
    | TimedOut(got: nat)

  datatype Run = Run(actions: seq<PortAction>, outcome: Outcome)

  /** Options the batch passes to every worker. */
  datatype Options = Options(asGrayscale: bool, isLive: bool, batch: bool, exposure: Option<int>)

  /** The registers UPDATE sends: the base table, patched when an exposure is given. */
  function LocalRegisters(exposure: Option<int>): Table {
    match exposure
    case None => RegistryUpdates()
    case Some(scale) => SetExposureConfig(RegistryUpdates(), scale)
  }

  /** One write action per register, in table order. */
  function WriteActions(t: Table): (w: seq<PortAction>)
    ensures |w| == |t|
    ensures forall i :: 0 <= i < |t| ==> w[i] == Write(WriteCommand(t[i].0, t[i].1))
  {
    seq(|t|, i requires 0 <= i < |t| => Write(WriteCommand(t[i].0, t[i].1)))
  }

  /** `save_image` for a frame: where it goes and what it holds, if anything. */
  function SaveImage(data: seq<int>, cam: int, o: Options): Outcome {
    var target := if o.isLive then LiveImage else if o.batch then BatchImage(cam) else SingleImage(cam);
    if o.asGrayscale then
      match LumaBytes(data, CameraPacking)
      case None => NotDecoded
      case Some(y) => Saved(GrayImage(y), target)
    else Saved(ColourImage(data), target)
  }

  /** What `ser.read(FRAME_SIZE)` returns: the bytes that arrived, at most FRAME_SIZE. */
  function ReadUpTo(arriving: seq<int>, n: nat): (r: seq<int>)
    ensures |r| == Min(|arriving|, n)
    ensures r == arriving[..|r|]
  {
    if |arriving| <= n then arriving else arriving[..n]
  }

  /** `camera_worker(cam_id, port, mode, ...)`. */
  function Worker(cam: int, port: Port, mode: string, o: Options): Run {
    if !port.opens then Run([], PortError)
    else match ModeOf(mode)
      case Update =>
        var regs := LocalRegisters(o.exposure);
        Run([FlushInput] + WriteActions(regs) + [Write(ResetCommand)], Programmed(regs))
      case Reset =>
        Run([Write(ResetCommand), ReadAll], ResetReplied(port.resetReply))
      case Capture =>
        var data := ReadUpTo(port.arriving, FrameSize);
        var acts := [Write(CaptureCommand), FlushInput, ReadFrame(FrameSize)];
        if |data| == FrameSize then Run(acts, SaveImage(data, cam, o))
        else Run(acts, TimedOut(|data|))
  }

  /** The text UPDATE writes, concatenated in order. */
  function WrittenText(acts: seq<PortAction>): string {
    if |acts| == 0 then ""
    else (if acts[0].Write? then acts[0].text else "") + WrittenText(acts[1..])
  }

  lemma {:induction false} WrittenTextAppend(a: seq<PortAction>, b: seq<PortAction>)
    ensures WrittenText(a + b) == WrittenText(a) + WrittenText(b)
  {
    if |a| > 0 {
      assert (a + b)[0] == a[0];
      assert (a + b)[1..] == a[1..] + b;
      WrittenTextAppend(a[1..], b);
    } else {
      assert a + b == b;
    }
  }

  lemma {:induction false} WrittenCommands(t: Table)
    ensures WrittenText(WriteActions(t)) == Commands(t)
  {
    if |t| > 0 {
      var w := WriteActions(t);
      assert w[1..] == WriteActions(t[1..]);
      assert WrittenText(w) == WriteCommand(t[0].0, t[0].1) + WrittenText(w[1..]);
      WrittenCommands(t[1..]);
    }
  }

  /**
   * UPDATE clears the input, then sends the UPDATE stream of the local
   * register table: one write line per entry in map order, then `R\n`.
   */
  lemma UpdateTrace(cam: int, port: Port, o: Options)
    requires port.opens
    ensures var run := Worker(cam, port, "UPDATE", o);
      && run.outcome == Programmed(LocalRegisters(o.exposure))
      && run.actions[0] == FlushInput
      && |run.actions| == |LocalRegisters(o.exposure)| + 2
      && run.actions[|run.actions| - 1] == Write(ResetCommand)
      && WrittenText(run.actions) == UpdateStream(LocalRegisters(o.exposure))
  {
    UpdateActionsText(LocalRegisters(o.exposure));
  }

  /** The text of an UPDATE trace for any table is that table's UPDATE stream. */
  lemma UpdateActionsText(regs: Table)
    ensures WrittenText([FlushInput] + WriteActions(regs) + [Write(ResetCommand)]) == UpdateStream(regs)
  {
    WrittenCommands(regs);
    FramedText(WriteActions(regs));
  }

  /** A flush before and the reset after add only the reset line to the text. */
  lemma FramedText(w: seq<PortAction>)
    ensures WrittenText([FlushInput] + w + [Write(ResetCommand)]) == WrittenText(w) + ResetCommand
  {
    WrittenTextAppend([FlushInput] + w, [Write(ResetCommand)]);
    WrittenTextAppend([FlushInput], w);
    WrittenSingle(FlushInput);
    WrittenSingle(Write(ResetCommand));
  }

  lemma WrittenSingle(a: PortAction)
    ensures WrittenText([a]) == if a.Write? then a.text else ""
  {
    assert [a][1..] == [];
  }

  lemma PutInRange(t: Table, k: int, v: int)
    requires TableInRange(t) && InRange((k, v))
    ensures TableInRange(Put(t, k, v))
  {
    match IndexOf(t, k)
    case None =>
    case Some(i) =>
  }

  lemma {:induction false} FromPairsInRange(ps: seq<Entry>)
    requires TableInRange(ps)
    ensures TableInRange(FromPairs(ps))
  {
    if |ps| > 0 {
      FromPairsInRange(ps[..|ps| - 1]);
      PutInRange(FromPairs(ps[..|ps| - 1]), ps[|ps| - 1].0, ps[|ps| - 1].1);
    }
  }

  lemma AddressesInRange()
    ensures forall k :: k in RegistryAddresses ==> 0 <= k < 0x1_0000
  {
  }

  lemma ValuesInRange()
    ensures forall v :: v in RegistryValues ==> 0 <= v < 0x100
  {
  }

  /** Every register UPDATE can send fits the 16-bit address and 8-bit value fields. */
  lemma LocalRegistersInRange(exposure: Option<int>)
    ensures TableInRange(LocalRegisters(exposure))
  {
    var ps := Zip(RegistryAddresses, RegistryValues);
    AddressesInRange();
    ValuesInRange();
    forall i | 0 <= i < |ps| ensures InRange(ps[i]) {
      assert RegistryAddresses[i] in RegistryAddresses && RegistryValues[i] in RegistryValues;
    }
    FromPairsInRange(ps);
    if exposure.Some? {
      var e := ExposureRegisters(exposure.value);
      var t1 := Put(RegistryUpdates(), ExposureHighReg, e.high);
      var t2 := Put(t1, ExposureMidReg, e.mid);
      PutInRange(RegistryUpdates(), ExposureHighReg, e.high);
      PutInRange(t1, ExposureMidReg, e.mid);
      PutInRange(t2, ExposureLowReg, e.low);
    }
  }

  /** The camera, parsing what UPDATE wrote, recovers the local register table. */
  lemma UpdateRoundTrip(cam: int, port: Port, o: Options)
    requires port.opens
    ensures ParseUpdateStream(WrittenText(Worker(cam, port, "UPDATE", o).actions)) == Some(LocalRegisters(o.exposure))
  {
    UpdateTrace(cam, port, o);
    LocalRegistersInRange(o.exposure);
    UpdateStreamRoundTrip(LocalRegisters(o.exposure));
  }

  /** RESET writes `R\n` and reports whatever was waiting; CAPTURE writes `S\n` first. */
  lemma ResetAndCaptureTraces(cam: int, port: Port, mode: string, o: Options)
    requires port.opens
    ensures mode == "RESET" ==>
      Worker(cam, port, mode, o) == Run([Write(ResetCommand), ReadAll], ResetReplied(port.resetReply))
    ensures mode != "RESET" && mode != "UPDATE" ==>
      Worker(cam, port, mode, o).actions == [Write(CaptureCommand), FlushInput, ReadFrame(FrameSize)]
  {
  }

  /**
   * A capture is handed to `save_image` exactly when FRAME_SIZE bytes
   * arrived; with the grayscale option that gives one luma byte per pixel.
   */
  lemma CaptureAcceptance(cam: int, port: Port, o: Options)
    requires port.opens
    ensures var out := Worker(cam, port, "CAPTURE", o).outcome;
      && (out.TimedOut? <==> |port.arriving| < FrameSize)
      && (out.TimedOut? ==> out.got == |port.arriving|)
      && (!out.TimedOut? ==> out.Saved?)
      && (out.Saved? ==> o.asGrayscale == out.image.GrayImage?)
      && (out.Saved? && out.image.GrayImage? ==> |out.image.luma| == Width * Height)
      && (out.Saved? && out.image.ColourImage? ==> out.image.raw == port.arriving[..FrameSize])
  {
    var data := ReadUpTo(port.arriving, FrameSize);
    if |data| == FrameSize && o.asGrayscale {
      GrayscaleFrame(data);
    }
  }

  /** Where the image goes: live overrides batch, batch overrides single. */
  lemma SaveTargets(data: seq<int>, cam: int, o: Options)
    requires SaveImage(data, cam, o).Saved?
    ensures var t := SaveImage(data, cam, o).target;
      && (o.isLive <==> t == LiveImage)
      && (!o.isLive && o.batch <==> t == BatchImage(cam))
      && (!o.isLive && !o.batch <==> t == SingleImage(cam))
  {
  }

  /** An unopenable port ends the worker with the error and no traffic. */
  lemma PortErrorSilent(cam: int, port: Port, mode: string, o: Options)
    requires !port.opens
    ensures Worker(cam, port, mode, o) == Run([], PortError)
  {
  }

  // ---------------------------------------------------------------------
  // Batch
  // ---------------------------------------------------------------------

  /** The cameras of a batch: ids and how each port behaves. */
  datatype Camera = Camera(id: int, port: Port)

  /**
   * `run_camera_batch`: one worker per camera, all released together. The
   * threads share nothing the model observes, so the batch is the list of
   * their runs.
   */
  function RunBatch(cams: seq<Camera>, mode: string, o: Options): (runs: seq<Run>)
    ensures |runs| == |cams|
    ensures forall i :: 0 <= i < |cams| ==> runs[i] == Worker(cams[i].id, cams[i].port, mode, o)
  {
    seq(|cams|, i requires 0 <= i < |cams| => Worker(cams[i].id, cams[i].port, mode, o))
  }

  /** What one camera does depends only on its own port: others cannot change it. */
  lemma BatchIsolation(cams: seq<Camera>, cams': seq<Camera>, i: nat, mode: string, o: Options)
    requires |cams| == |cams'| && i < |cams| && cams[i] == cams'[i]
    ensures RunBatch(cams, mode, o)[i] == RunBatch(cams', mode, o)[i]
  {
  }
}
