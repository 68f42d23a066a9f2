/**
 * The control logic of livePreview.c: `read_exact`, its retrying read loop,
 * and the streaming handshake of `main` (send `L`, then per frame `A` or
 * `X`). The serial port is replaced by the sequence of values its `read`
 * calls return, and the database's live flag by the answers it gives.
 */
module LivePreview {
  import opened Common
  import opened PixelDecode
  import opened BmpHeader

  /** `read_exact` gives up after more than this many fruitless reads in a row. */
  const MaxRetries := 500

  /**
   * What the i-th `read` call returns when `want` bytes are asked for. The
   * script gives the OS's answers; `read(2)` never delivers more than asked,
   * and a script that has run out stands for a port that stays silent.
   */
  function ReadReply(script: seq<int>, i: nat, want: int): int {
    if i < |script| then Min(script[i], want) else 0
  }

  /** The i-th call brings no data (0 on timeout, negative on error). */
  predicate Quiet(script: seq<int>, i: nat) {
    i >= |script| || script[i] <= 0
  }

  /** Calls a .. a + MaxRetries are all quiet: a run long enough to give up on. */
  predicate QuietRun(script: seq<int>, a: nat) {
    forall i :: a <= i <= a + MaxRetries ==> Quiet(script, i)
  }

  /** Bytes delivered by the first k calls, ignoring the cap at `len`. */
  function Delivered(script: seq<int>, k: nat): (d: int)
    ensures d >= 0
  {
    if k == 0 then 0
    else Delivered(script, k - 1) + (if Quiet(script, k - 1) then 0 else script[k - 1])
  }

  /**
   * `read_exact(fd, buf, len)`. Returns the result and the number of `read`
   * calls made. It either fills the request or reports -1: -1 exactly when a
   * run of MaxRetries + 1 quiet calls comes before the data is complete.
   */
  method ReadExact(script: seq<int>, len: int) returns (r: int, calls: nat)
    ensures len <= 0 ==> r == 0 && calls == 0
    ensures len > 0 ==> r == len || r == -1
    ensures r == len && len > 0 ==>
      calls >= 1 && Delivered(script, calls) >= len && Delivered(script, calls - 1) < len
    ensures r == -1 ==>
      calls >= MaxRetries + 1 && QuietRun(script, calls - MaxRetries - 1) && Delivered(script, calls) < len
    ensures forall a: nat :: a + MaxRetries < calls - (if r == -1 then 1 else 0) ==> !QuietRun(script, a)
  {
    var total, retries := 0, 0;
    calls := 0;
    while total < len
      invariant len <= 0 ==> total == 0 && calls == 0
      invariant len > 0 ==> 0 <= total <= len && (total == len ==> calls >= 1)
      invariant total < len ==> total == Delivered(script, calls)
      invariant total == len && len > 0 ==>
        Delivered(script, calls) >= len && Delivered(script, calls - 1) < len
      invariant 0 <= retries <= MaxRetries && retries <= calls
      invariant forall i :: calls - retries <= i < calls ==> Quiet(script, i)
      invariant retries < calls ==> !Quiet(script, calls - retries - 1)
      invariant forall a: nat :: a + MaxRetries < calls ==> !QuietRun(script, a)
      decreases len - total, MaxRetries - retries
    {
      var n := ReadReply(script, calls, len - total);
      if n > 0 {
        assert !Quiet(script, calls);
        total := total + n;
        retries := 0;
      } else {
        assert Quiet(script, calls);
        retries := retries + 1;
        if retries > MaxRetries {
          calls := calls + 1;
          assert QuietRun(script, calls - MaxRetries - 1);
          return -1, calls;
        }
      }
      calls := calls + 1;
      NoNewQuietRun(script, calls, retries);
    }
    r := total;
  }

  /** A run of quiet calls ending at `calls` cannot be longer than the retry count. */
  lemma NoNewQuietRun(script: seq<int>, calls: nat, retries: nat)
    requires retries <= MaxRetries && retries <= calls
    requires retries < calls ==> !Quiet(script, calls - retries - 1)
    ensures calls >= MaxRetries + 1 ==> !QuietRun(script, calls - MaxRetries - 1)
  {
    if calls >= MaxRetries + 1 {
      assert calls - MaxRetries - 1 <= calls - retries - 1 <= calls - 1;
    }
  }

  // ---------------------------------------------------------------------
  // Streaming handshake
  // ---------------------------------------------------------------------

  /** What one pass of the streaming loop sees: a frame and, if complete, the live flag. */
  datatype Pass = ShortFrame | FullFrame(stillLive: bool)

  datatype SessionEnd = FrameError | Stopped | Streaming

  /** The messages sent to the camera, the frames decoded and how the session ended. */
  datatype Session = Session(sent: seq<string>, decoded: nat, end: SessionEnd)

  const StartMessage := "L\n"
  const AckMessage := "A\n"
  const StopMessage := "X\n"

  /**
   * The inner loop of `main` over the given passes, after `L\n` has gone
   * out: a short frame breaks without a reply; a full frame is answered
   * with `A\n` (then decoded and saved) while the flag is set, and with
   * `X\n` and a break once it is cleared.
   */
  function StreamLoop(passes: seq<Pass>): Session {
    if |passes| == 0 then Session([], 0, Streaming)
    else match passes[0]
      case ShortFrame => Session([], 0, FrameError)
      case FullFrame(live) =>
        if !live then Session([StopMessage], 0, Stopped)
        else
          var rest := StreamLoop(passes[1..]);
          Session([AckMessage] + rest.sent, rest.decoded + 1, rest.end)
  }

  function RunSession(passes: seq<Pass>): Session {
    var s := StreamLoop(passes);
    Session([StartMessage] + s.sent, s.decoded, s.end)
  }

  /** Number of leading passes that got a full frame with the flag still set. */
  function LivePrefix(passes: seq<Pass>): (m: nat)
    ensures m <= |passes|
    ensures forall i :: 0 <= i < m ==> passes[i] == FullFrame(true)
    ensures m < |passes| ==> passes[m] != FullFrame(true)
  {
    if |passes| == 0 || passes[0] != FullFrame(true) then 0
    else 1 + LivePrefix(passes[1..])
  }

  /**
   * The shape of every session: `L`, one `A` per decoded frame, and a
   * final `X` exactly when the flag was found cleared after a full frame;
   * nothing is sent after a short frame.
   */
  lemma {:induction false} SessionShape(passes: seq<Pass>)
    ensures var s, m := RunSession(passes), LivePrefix(passes);
      && s.decoded == m
      && s.end == (if m == |passes| then Streaming
                   else if passes[m] == ShortFrame then FrameError else Stopped)
      && s.sent == [StartMessage] + seq(m, _ => AckMessage) + (if s.end == Stopped then [StopMessage] else [])
  {
    LoopShape(passes);
  }

  lemma {:induction false} LoopShape(passes: seq<Pass>)
    ensures var s, m := StreamLoop(passes), LivePrefix(passes);
      && s.decoded == m
      && s.end == (if m == |passes| then Streaming
                   else if passes[m] == ShortFrame then FrameError else Stopped)
      && s.sent == seq(m, _ => AckMessage) + (if s.end == Stopped then [StopMessage] else [])
  {
    if |passes| > 0 && passes[0] == FullFrame(true) {
      LoopShape(passes[1..]);
      var m := LivePrefix(passes[1..]);
      assert [AckMessage] + seq(m, _ => AckMessage) == seq(m + 1, _ => AckMessage);
    }
  }

  /** Passes after the session ended have no effect on it. */
  lemma {:induction false} SessionIgnoresLaterPasses(passes: seq<Pass>, more: seq<Pass>)
    requires RunSession(passes).end != Streaming
    ensures RunSession(passes + more) == RunSession(passes)
  {
    LoopIgnoresLaterPasses(passes, more);
  }

  lemma {:induction false} LoopIgnoresLaterPasses(passes: seq<Pass>, more: seq<Pass>)
    requires StreamLoop(passes).end != Streaming
    ensures StreamLoop(passes + more) == StreamLoop(passes)
  {
    assert (passes + more)[0] == passes[0];
    if passes[0] == FullFrame(true) {
      assert (passes + more)[1..] == passes[1..] + more;
      LoopIgnoresLaterPasses(passes[1..], more);
    }
  }

  /**
   * The file written after each acknowledged frame: the header, then the
   * decoded pixels. Its length is the size the header declares.
   */
  method LiveFile(raw: seq<int>) returns (file: seq<int>)
    requires |raw| == FrameSize
    ensures |file| == FileSize == 230454
    ensures file[..HeaderSize] == CreateBmpHeader()
    ensures forall k :: 0 <= k < Width * Height * 3 ==> file[HeaderSize + k] == OutByte(raw, k)
  {
    var rgb := YvyuToRgbIntMath(raw);
    file := CreateBmpHeader() + rgb;
    assert forall k :: 0 <= k < |rgb| ==> file[HeaderSize + k] == rgb[k];
  }
}
