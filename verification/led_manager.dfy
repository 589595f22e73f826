/** The LED manager: a queue of display commands and the task that
    interprets them against the strip, one command at a time. */
module LedManager {
  import opened Common
  import opened LedStrip
  import RtosQueue

  const NUM_LEDS: nat := 12
  const LED_FADE_STEPS: nat := 20
  const LED_DEFAULT_BRIGHTNESS: uint8 := 20
  /** Brightness the strip record starts with, before any command. */
  const INITIAL_BRIGHTNESS: uint8 := 20
  /** Length given to `xQueueCreate` in `led_init`. */
  const QUEUE_LENGTH: nat := 5

  datatype DisplayType = Solid | Spin | FadeIn

  /** `led_item_t`: one display command. */
  datatype LedItem = LedItem(color: Rgb, kind: DisplayType, brightness: uint8)

  /** The effect of interpreting one command: the strip afterwards and the
      frames flushed to the hardware, in order. */
  datatype Step = Step(strip: Strip, frames: seq<Strip>)

  /** Brightness of fade step `i` towards `target`: the step index times
      the per-step increment, both in C integer arithmetic, stored into the
      `uint8_t` brightness field. */
  function FadeLevel(target: uint8, i: nat): (r: uint8)
    requires i < LED_FADE_STEPS
    ensures r == i * (target / LED_FADE_STEPS)
  {
    TruncateToUint8(i * (target / LED_FADE_STEPS))
  }

  /** Set the brightness, then fill the whole strip with one colour. */
  function Paint(s: Strip, b: uint8, c: Rgb): (r: Strip)
    ensures r.brightness == b && r.ShowsColor(c) && r.Length() == s.Length()
  {
    Fill(s.(brightness := b), 0, s.Length(), c)
  }

  /** The fade-in frames before the final one. */
  function FadeFrames(s: Strip, target: uint8, c: Rgb): (r: seq<Strip>)
    ensures |r| == LED_FADE_STEPS
    ensures forall i :: 0 <= i < |r| ==> r[i].ShowsColor(c) && r[i].Length() == s.Length()
  {
    seq(LED_FADE_STEPS, i requires 0 <= i < LED_FADE_STEPS => Paint(s, FadeLevel(target, i), c))
  }

  /** Reference meaning of one pass of the `led_task` loop body. */
  function Apply(s: Strip, item: LedItem): (r: Step)
    ensures r.strip.Length() == s.Length()
    ensures r.frames != [] ==> r.frames[|r.frames| - 1] == r.strip
  {
    match item.kind
    case Solid =>
      var s' := Paint(s, item.brightness, item.color);
      Step(s', [s'])
    case Spin =>
      Step(s, [])
    case FadeIn =>
      var s' := Paint(s, item.brightness, item.color);
      Step(s', FadeFrames(s, item.brightness, item.color) + [s'])
  }

  /** `led_task`'s handling of one received command, statement by
      statement: every flush appends the current strip to `frames`. */
  method RunCommand(s: Strip, item: LedItem) returns (strip: Strip, frames: seq<Strip>)
    ensures Step(strip, frames) == Apply(s, item)
  {
    strip := s;
    frames := [];
    match item.kind {
      case Solid =>
        strip := strip.(brightness := item.brightness);
        strip := Fill(strip, 0, strip.Length(), item.color);
        frames := frames + [strip];
      case Spin =>
      case FadeIn =>
        var i := 0;
        while i < LED_FADE_STEPS
          invariant 0 <= i <= LED_FADE_STEPS
          invariant strip.Length() == s.Length()
          invariant i > 0 ==> strip == Paint(s, FadeLevel(item.brightness, i - 1), item.color)
          invariant i == 0 ==> strip == s
          invariant frames == FadeFrames(s, item.brightness, item.color)[..i]
        {
          strip := strip.(brightness := FadeLevel(item.brightness, i));
          strip := Fill(strip, 0, strip.Length(), item.color);
          frames := frames + [strip];
          i := i + 1;
        }
        assert frames == FadeFrames(s, item.brightness, item.color);
        strip := strip.(brightness := item.brightness);
        strip := Fill(strip, 0, strip.Length(), item.color);
        assert strip == Paint(s, item.brightness, item.color);
        frames := frames + [strip];
    }
  }

  // ---- the fade schedule ----

  /** The product never needs the `uint8_t` truncation: for every byte
      target, step times increment is at most 19 * 12 = 228. */
  lemma FadeLevelFits(target: uint8, i: nat)
    requires i < LED_FADE_STEPS
    ensures i * (target / LED_FADE_STEPS) < 0x100
  {
  }

  /** Fading starts from dark, never goes down, and never passes the
      target. */
  lemma FadeScheduleShape(target: uint8, i: nat, j: nat)
    requires i <= j < LED_FADE_STEPS
    ensures FadeLevel(target, 0) == 0
    ensures FadeLevel(target, i) <= FadeLevel(target, j)
    ensures FadeLevel(target, j) <= target
  {
    var inc := target / LED_FADE_STEPS;
    ScaleMono(i, j, inc);
    ScaleMono(j, LED_FADE_STEPS, inc);
  }

  /** Scaling by the same increment keeps the order of step indices. */
  lemma {:induction false} ScaleMono(a: nat, b: nat, k: nat)
    requires a <= b
    ensures a * k <= b * k
    decreases b - a
  {
    if a < b {
      ScaleMono(a, b - 1, k);
      assert b * k == (b - 1) * k + k;
    }
  }

  /** Targets below the step count make the increment zero, so every
      intermediate frame is dark. */
  lemma FadeBelowStepsIsDark(target: uint8, i: nat)
    requires target < LED_FADE_STEPS && i < LED_FADE_STEPS
    ensures FadeLevel(target, i) == 0
  {
  }

  /** With the default brightness the increment is one, so step `i` shows
      brightness `i`. */
  lemma DefaultFadeCountsUp(i: nat)
    requires i < LED_FADE_STEPS
    ensures FadeLevel(LED_DEFAULT_BRIGHTNESS, i) == i
  {
  }

  // ---- what each command does to the strip ----

  /** SOLID: one frame, at the command's brightness, every pixel in the
      command's colour. */
  lemma SolidShowsColor(s: Strip, item: LedItem)
    requires item.kind == Solid
    ensures var r := Apply(s, item);
      && |r.frames| == 1
      && r.strip.brightness == item.brightness
      && r.strip.ShowsColor(item.color)
  {
  }

  /** SPIN: nothing is flushed and the strip is untouched. */
  lemma SpinIsNoOp(s: Strip, item: LedItem)
    requires item.kind == Spin
    ensures Apply(s, item) == Step(s, [])
  {
  }

  /** FADE_IN: exactly `LED_FADE_STEPS` intermediate frames whose
      brightness follows the schedule, then one final frame at the exact
      target; every frame fills the whole strip with the command's
      colour. */
  lemma FadeInFrames(s: Strip, item: LedItem)
    requires item.kind == FadeIn
    ensures var r := Apply(s, item);
      && |r.frames| == LED_FADE_STEPS + 1
      && (forall i :: 0 <= i < LED_FADE_STEPS ==>
            r.frames[i].brightness == i * (item.brightness / LED_FADE_STEPS))
      && r.frames[LED_FADE_STEPS].brightness == item.brightness
      && (forall i :: 0 <= i <= LED_FADE_STEPS ==>
            r.frames[i].ShowsColor(item.color) && r.frames[i].Length() == s.Length())
      && r.strip == r.frames[LED_FADE_STEPS]
  {
  }

  // ---- the manager: queue, strip and what has been shown ----

  /** The LED manager's state: its command queue, the strip record, and
      every frame flushed so far. */
  datatype Manager = Manager(queue: RtosQueue.Queue<LedItem>, strip: Strip, shown: seq<Strip>)
  {
    predicate Valid() { queue.Valid() && queue.capacity == QUEUE_LENGTH }
  }

  /** Outcome of a call that sends on the queue: it returns with an error
      code, or it is still suspended because the queue is full. */
  datatype Call = Returned(manager: Manager, err: EspErr) | Blocked

  /** `led_init`: a strip of `NUM_LEDS` pixels at the initial brightness,
      an empty queue of capacity 5; always `ESP_OK`. */
  function Init(): (r: (Manager, EspErr))
    ensures r.0.Valid() && r.1 == EspOk
    ensures r.0.queue.items == [] && r.0.shown == []
    ensures r.0.strip.Length() == NUM_LEDS && r.0.strip.brightness == INITIAL_BRIGHTNESS
  {
    (Manager(RtosQueue.Create(QUEUE_LENGTH), Strip(INITIAL_BRIGHTNESS, seq(NUM_LEDS, _ => Off)), []), EspOk)
  }

  function Enqueue(m: Manager, item: LedItem): (r: Call)
    requires m.Valid()
  {
    match RtosQueue.Send(m.queue, item)
    case SendBlocked => Blocked
    case Sent(q) => Returned(m.(queue := q), EspOk)
  }

  /** `led_set_color`: queue one SOLID command carrying the colour and the
      default brightness behind those already queued, and return `ESP_OK`;
      the caller stays suspended exactly when the queue is full. */
  function SetColor(m: Manager, c: Rgb): (r: Call)
    requires m.Valid()
    ensures r.Blocked? <==> m.queue.Full()
    ensures r.Returned? ==>
      && r.err == EspOk && r.manager.Valid() && r.manager.strip == m.strip && r.manager.shown == m.shown
      && r.manager.queue.items == m.queue.items + [LedItem(c, Solid, LED_DEFAULT_BRIGHTNESS)]
  {
    Enqueue(m, LedItem(c, Solid, LED_DEFAULT_BRIGHTNESS))
  }

  /** `led_fade_in`: queue one FADE_IN command carrying the colour and the
      default brightness behind those already queued, and return `ESP_OK`;
      the caller stays suspended exactly when the queue is full. */
  function StartFadeIn(m: Manager, c: Rgb): (r: Call)
    requires m.Valid()
    ensures r.Blocked? <==> m.queue.Full()
    ensures r.Returned? ==>
      && r.err == EspOk && r.manager.Valid() && r.manager.strip == m.strip && r.manager.shown == m.shown
      && r.manager.queue.items == m.queue.items + [LedItem(c, FadeIn, LED_DEFAULT_BRIGHTNESS)]
  {
    Enqueue(m, LedItem(c, FadeIn, LED_DEFAULT_BRIGHTNESS))
  }

  /** One iteration of `led_task`: receive the front command and interpret
      it; `None` when the queue is empty and the task stays suspended. */
  function TaskStep(m: Manager): (r: Option<Manager>)
    requires m.Valid()
    ensures r.None? <==> m.queue.items == []
    ensures r.Some? ==> r.value.Valid() && r.value.queue.items == m.queue.items[1..]
    ensures r.Some? ==> var st := Apply(m.strip, m.queue.items[0]);
      r.value.strip == st.strip && r.value.shown == m.shown + st.frames
  {
    match RtosQueue.Receive(m.queue)
    case None => None
    case Some((item, q)) =>
      var st := Apply(m.strip, item);
      Some(Manager(q, st.strip, m.shown + st.frames))
  }

  /** Interpreting a list of commands one after another. */
  function Replay(s: Strip, items: seq<LedItem>): (r: Step)
    ensures r.strip.Length() == s.Length()
    decreases |items|
  {
    if items == [] then Step(s, [])
    else
      var first := Apply(s, items[0]);
      var rest := Replay(first.strip, items[1..]);
      Step(rest.strip, first.frames + rest.frames)
  }

  /** Let `led_task` run until the queue is empty. */
  function RunUntilIdle(m: Manager): (r: Manager)
    requires m.Valid()
    ensures r.Valid() && r.queue.items == []
    ensures r.strip.Length() == m.strip.Length()
    decreases |m.queue.items|
  {
    match TaskStep(m)
    case None => m
    case Some(m') => RunUntilIdle(m')
  }

  /** Commands are interpreted in the order they were queued: running the
      task until idle shows exactly the frames of replaying the queue's
      contents front to back. */
  lemma {:induction false} RunUntilIdleReplaysQueue(m: Manager)
    requires m.Valid()
    ensures var r := RunUntilIdle(m); var st := Replay(m.strip, m.queue.items);
      r.queue.items == [] && r.strip == st.strip && r.shown == m.shown + st.frames
    decreases |m.queue.items|
  {
    match TaskStep(m)
    case None =>
    case Some(m') =>
      RunUntilIdleReplaysQueue(m');
  }

  /** From a fresh manager, `led_set_color(c)` followed by one task step
      shows a single frame of the whole strip in `c` at brightness 20. */
  lemma SetColorAfterInit(c: Rgb)
    ensures var m0 := Init().0;
      && SetColor(m0, c).Returned?
      && var m1 := TaskStep(SetColor(m0, c).manager);
      && m1.Some?
      && m1.value.shown == [m1.value.strip]
      && m1.value.strip.brightness == LED_DEFAULT_BRIGHTNESS
      && m1.value.strip.ShowsColor(c)
      && m1.value.strip.Length() == NUM_LEDS
  {
  }

  /** From a fresh manager, `led_fade_in(c)` followed by one task step
      shows 21 frames in `c` whose brightness counts 0, 1, ..., 20. */
  lemma FadeInAfterInit(c: Rgb)
    ensures var m0 := Init().0;
      && StartFadeIn(m0, c).Returned?
      && var m1 := TaskStep(StartFadeIn(m0, c).manager);
      && m1.Some?
      && |m1.value.shown| == LED_FADE_STEPS + 1
      && (forall i :: 0 <= i <= LED_FADE_STEPS ==>
            m1.value.shown[i].brightness == i && m1.value.shown[i].ShowsColor(c))
  {
    var m0 := Init().0;
    var m := StartFadeIn(m0, c).manager;
    var item := LedItem(c, FadeIn, LED_DEFAULT_BRIGHTNESS);
    assert m.queue.items == [item];
    FadeInFrames(m.strip, item);
  }
}
