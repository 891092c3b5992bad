/**
 * The console spinner the installer shows while npm runs: a frame index that
 * cycles over the frame characters, a message per tick built from a text
 * template, and the interval handle that `start` stores and `stop` clears.
 */
module Spin {
  import opened JsText

  /** `spinners[0]`, the frames chosen on Windows. */
  const WindowsFrames: string := "|/-\\"

  /** `spinners[4]` (◰◳◲◱), the frames chosen elsewhere. */
  const DefaultFrames: string := "\U{25F0}\U{25F3}\U{25F2}\U{25F1}"

  /** Milliseconds between ticks. */
  const TickDelay: nat := 60

  /**
   * The line one tick writes: the first `%s` of the template replaced by the
   * frame when there is one, otherwise the frame, a space and the text.
   */
  function TickMessage(text: string, frame: char): (msg: string)
    ensures frame in msg
  {
    if IndexOf(text, "%s").Some? then ReplaceFirst(text, "%s", frame)
    else [frame] + " " + text
  }

  /**
   * The template can be read back from a message: putting `%s` back where
   * the frame stands gives the text, and without `%s` the text follows the
   * frame and a space.
   */
  lemma TickMessageInverse(text: string, frame: char)
    ensures IndexOf(text, "%s").Some? ==>
      var i, msg := IndexOf(text, "%s").value, TickMessage(text, frame);
      |msg| == |text| - 1 && msg[i] == frame && msg[..i] + "%s" + msg[i + 1..] == text
    ensures IndexOf(text, "%s").None? ==>
      var msg := TickMessage(text, frame);
      |msg| == |text| + 2 && msg[0] == frame && msg[1] == ' ' && msg[2..] == text
  {
    if IndexOf(text, "%s").Some? {
      var i, msg := IndexOf(text, "%s").value, TickMessage(text, frame);
      assert text[i..i + 2] == "%s";
      assert text == text[..i] + text[i..i + 2] + text[i + 2..];
    } else {
      var msg := TickMessage(text, frame);
      assert msg[2..] == text;
    }
  }

  lemma {:induction false} MulAtLeast(n: nat, k: nat)
    requires k >= 1
    ensures n * k >= n
    decreases k
  {
    if k > 1 {
      MulAtLeast(n, k - 1);
      assert n * k == n * (k - 1) + n;
    }
  }

  lemma Distrib(n: int, a: int, b: int)
    ensures n * (a - b) == n * a - n * b
  {
  }

  /** Euclidean division leaves one remainder: n * q + m with m < n leaves m. */
  lemma ModOf(x: nat, n: nat, q: nat, m: nat)
    requires m < n && x == n * q + m
    ensures x % n == m
  {
    var q', m' := x / n, x % n;
    assert x == n * q' + m';
    if q' > q {
      Distrib(n, q', q);
      MulAtLeast(n, q' - q);
      assert false;
    } else if q' < q {
      Distrib(n, q, q');
      MulAtLeast(n, q - q');
      assert false;
    }
  }

  /** The index of the frame shown by tick number `tick` (from 0) of n frames. */
  function FrameIndex(tick: nat, n: nat): (i: nat)
    requires n > 0
    ensures i < n
  {
    tick % n
  }

  /** Advancing the counter modulo n keeps it equal to the tick count modulo n. */
  lemma ModSucc(t: nat, n: nat)
    requires n > 0
    ensures (t % n + 1) % n == (t + 1) % n
  {
    var q, r := t / n, t % n;
    assert t == n * q + r;
    if r + 1 < n {
      ModOf(t + 1, n, q, r + 1);
      ModOf(r + 1, n, 0, r + 1);
    } else {
      assert n * (q + 1) == n * q + n;
      ModOf(t + 1, n, q + 1, 0);
      ModOf(r + 1, n, 1, 0);
    }
  }

  class Spinner {
    var text: string
    var chars: seq<char>
    var delay: nat
    /** Never assigned by the installer, so always `undefined` (false). */
    var enabled: bool
    /** The interval handle; None stands for `undefined`. */
    var id: Option<nat>
    /** The counter the interval callback closes over. */
    var current: nat
    /** Ticks since the last `start`. */
    ghost var ticks: nat

    /** The frame index stays in range and follows the number of ticks. */
    ghost predicate Valid()
      reads this
    {
      |chars| > 0 && current < |chars| && current == FrameIndex(ticks, |chars|) && !enabled
    }

    /** `new Spinner(text)`: an absent or empty text becomes "". */
    constructor (text: Option<string>, isWin: bool)
      ensures Valid()
      ensures this.text == (if text.Some? then text.value else "")
      ensures chars == (if isWin then WindowsFrames else DefaultFrames)
      ensures delay == TickDelay && id.None? && current == 0 && ticks == 0
    {
      this.text := if text.Some? then text.value else "";
      chars := if isWin then WindowsFrames else DefaultFrames;
      delay := TickDelay;
      enabled := false;
      id := None;
      current := 0;
      ticks := 0;
    }

    /**
     * `start`: a fresh counter at 0 and the handle `setInterval` returned
     * (passed in, since timers are outside the model).
     */
    method Start(handle: nat)
      requires Valid()
      modifies this`current, this`ticks, this`id
      ensures Valid()
      ensures id == Some(handle) && current == 0 && ticks == 0
    {
      current := 0;
      ticks := 0;
      id := Some(handle);
    }

    /**
     * One run of the interval callback: the message for the current frame,
     * then the counter moves on by one modulo the number of frames. The
     * n-th tick after `start` (from 0) shows frame n modulo the frame count.
     */
    method Tick() returns (msg: string)
      requires Valid() && id.Some?
      modifies this`current, this`ticks
      ensures Valid()
      ensures msg == TickMessage(text, chars[FrameIndex(old(ticks), |chars|)])
      ensures current == (old(current) + 1) % |chars|
      ensures ticks == old(ticks) + 1
    {
      msg := TickMessage(text, chars[current]);
      ModSucc(ticks, |chars|);
      current := (current + 1) % |chars|;
      ticks := ticks + 1;
    }

    /**
     * `stop(clear)`: the handle becomes `undefined`. The line would be
     * cleared only if `enabled` were set, which never happens.
     */
    method Stop(clear: bool) returns (clearsLine: bool)
      requires Valid()
      modifies this`id
      ensures Valid()
      ensures id.None?
      ensures !clearsLine
    {
      id := None;
      clearsLine := clear && enabled;
    }
  }

  /**
   * A running spinner shows every frame: from its current tick count, each
   * frame index comes up within the next `chars.length` ticks (tick u shows
   * frame FrameIndex(u, |chars|), as `Tick` states).
   */
  lemma EveryFrameShown(sp: Spinner, j: nat)
    requires sp.Valid() && j < |sp.chars|
    ensures exists u: nat :: sp.ticks <= u < sp.ticks + |sp.chars| && FrameIndex(u, |sp.chars|) == j
  {
    var t, n := sp.ticks, |sp.chars|;
    var q, r := t / n, t % n;
    assert t == n * q + r;
    if j >= r {
      ModOf(t + (j - r), n, q, j);
      assert FrameIndex(t + (j - r), n) == j;
    } else {
      assert n * (q + 1) == n * q + n;
      ModOf(t + (n - r + j), n, q + 1, j);
      assert FrameIndex(t + (n - r + j), n) == j;
    }
  }
}
