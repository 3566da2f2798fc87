/** The command and state-mirroring side of the player component: the
    play/pause toggle, relative seeking, click-to-seek on the progress bar,
    and the two media-element listeners that copy time and duration into the
    component's state. The media element and the progress bar are plain
    records; a missing one stands for a ref whose `current` is null. */
module Player {
  import opened Wrappers
  import opened TimeFormat

  /** What the component reads and writes on the native media element. */
  datatype Media = Media(paused: bool, currentTime: real, duration: real)

  /** The horizontal extent of the progress bar's bounding box. */
  datatype Bar = Bar(left: real, width: real)

  /** The component's state together with the elements its refs point at.
      `duration` and `currentTime` are the component's own copies, which
      may hold something other than a finite number. */
  datatype Player = Player(
    video: Option<Media>,
    bar: Option<Bar>,
    isPlaying: bool,
    duration: Num,
    currentTime: Num,
    progress: real)

  /** Seconds moved by the step-back and step-forward buttons. */
  const StepSeconds: real := 10.0

  /** The icon and the native element agree on whether playback runs. */
  predicate InSync(p: Player) {
    p.video.Some? ==> p.isPlaying == !p.video.value.paused
  }

  /** The state right after mounting: not playing, duration zero, and the
      current time holding the string `"00:00"`, which is not a number. An
      element without `autoplay` starts paused, and then the icon agrees
      with it. */
  function Mount(video: Option<Media>, bar: Option<Bar>): (p: Player)
    ensures p.video == video && p.bar == bar && !p.isPlaying
    ensures (video.Some? ==> video.value.paused) ==> InSync(p)
    ensures p.currentTime.NonFinite? && p.duration == Finite(0.0) && p.progress == 0.0
    ensures TimeLabel(p.currentTime, p.duration) == "00:00 / 00:00"
  {
    var p := Player(video, bar, false, Finite(0.0), NonFinite, 0.0);
    InitialLabel();
    p
  }

  /** `playAndPause`: reads the native `paused` flag and moves both the
      element and `isPlaying` to the opposite state. */
  function PlayAndPause(p: Player): (q: Player)
    ensures p.video.None? ==> q == p
    ensures p.video.Some? ==> q.video.Some? && q.video.value.paused == !p.video.value.paused
    ensures p.video.Some? ==> q.isPlaying == p.video.value.paused
    ensures InSync(q)
    ensures q.video.Some? ==> q.video.value == p.video.value.(paused := q.video.value.paused)
    ensures q == p.(video := q.video, isPlaying := q.isPlaying)
  {
    match p.video
    case None => p
    case Some(v) =>
      if v.paused then
        p.(video := Some(v.(paused := false)), isPlaying := true)
      else
        p.(video := Some(v.(paused := true)), isPlaying := false)
  }

  /** Toggling twice always restores the element; it restores the
      `isPlaying` flag exactly when the flag agreed with the element before
      (or there is no element). */
  lemma PlayAndPauseTwice(p: Player)
    ensures PlayAndPause(PlayAndPause(p)).video == p.video
    ensures PlayAndPause(PlayAndPause(p)) == p <==> InSync(p)
  {
  }

  /** `seek`: adds `delta` to the element's current time, without clamping. */
  function Seek(p: Player, delta: real): (q: Player)
    ensures p.video.None? ==> q == p
    ensures p.video.Some? ==>
              q.video.Some? && q.video.value.currentTime - p.video.value.currentTime == delta
    ensures q.video.Some? ==> q.video.value == p.video.value.(currentTime := q.video.value.currentTime)
    ensures q == p.(video := q.video)
  {
    match p.video
    case None => p
    case Some(v) => p.(video := Some(v.(currentTime := v.currentTime + delta)))
  }

  /** Seeks compose by adding their deltas; a step forward undoes a step
      back. */
  lemma SeekCompose(p: Player, a: real, b: real)
    ensures Seek(Seek(p, a), b) == Seek(p, a + b)
    ensures Seek(Seek(p, -StepSeconds), StepSeconds) == p
  {
  }

  /** Nothing bounds a seek: stepping back from five seconds lands at minus
      five, leaving any clamping to the platform. */
  lemma SeekIsUnclamped(p: Player)
    requires p.video.Some? && p.video.value.currentTime == 5.0
    ensures Seek(p, -StepSeconds).video.value.currentTime == -5.0
  {
  }

  /** Where a click may be mapped onto the timeline: whenever both elements
      are present, the bar has a positive width and the stored duration is
      a finite number. */
  predicate ClickDefined(p: Player) {
    p.video.Some? && p.bar.Some? ==> p.bar.value.width > 0.0 && p.duration.Finite?
  }

  /** `updateProgressOnClick`: the click's offset into the bar, as a
      fraction of its width, times the component's stored duration becomes
      the element's current time. */
  function UpdateProgressOnClick(p: Player, clientX: real): (q: Player)
    requires ClickDefined(p)
    ensures p.video.None? || p.bar.None? ==> q == p
    ensures p.video.Some? && p.bar.Some? ==>
              q.video.Some? &&
              q.video.value.currentTime * p.bar.value.width ==
                (clientX - p.bar.value.left) * p.duration.value
    ensures q.video.Some? ==> q.video.value == p.video.value.(currentTime := q.video.value.currentTime)
    ensures q == p.(video := q.video)
  {
    if p.video.None? || p.bar.None? then p
    else
      var v, b := p.video.value, p.bar.value;
      var clickX := clientX - b.left;
      var t := clickX / b.width * p.duration.value;
      assert t * b.width == clickX * p.duration.value;
      p.(video := Some(v.(currentTime := t)))
  }

  /** A time `t` with `t * w == x * d` grows with `x`. */
  lemma ScaledMonotone(x: real, y: real, w: real, d: real, tx: real, ty: real)
    requires w > 0.0 && d >= 0.0 && x <= y
    requires tx * w == x * d && ty * w == y * d
    ensures tx <= ty
  {
    assert (y - x) * d >= 0.0;
    assert (ty - tx) * w == (y - x) * d;
  }

  /** A time `t` with `t * w == x * d` lies in `[0, d]` for `x` in `[0, w]`,
      and sits at the ends of that range for `x` at the ends of the bar. */
  lemma ScaledWithin(x: real, w: real, d: real, t: real)
    requires w > 0.0 && d >= 0.0 && t * w == x * d
    ensures x == 0.0 ==> t == 0.0
    ensures x == w ==> t == d
    ensures 0.0 <= x <= w ==> 0.0 <= t <= d
  {
    if 0.0 <= x <= w {
      assert x * d <= w * d;
      assert 0.0 <= x * d;
    }
    if x == w {
      assert (t - d) * w == 0.0;
    }
  }

  /** The bar maps linearly onto `[0, duration]`: its left edge is time
      zero, its right edge the stored duration, a click inside lands inside,
      and a click further right never lands earlier. */
  lemma ClickMapsBarOntoTimeline(p: Player, x: real, y: real)
    requires ClickDefined(p) && p.video.Some? && p.bar.Some?
    requires p.duration.value >= 0.0
    ensures var l, w, d := p.bar.value.left, p.bar.value.width, p.duration.value;
            && UpdateProgressOnClick(p, l).video.value.currentTime == 0.0
            && UpdateProgressOnClick(p, l + w).video.value.currentTime == d
            && (l <= x <= l + w ==>
                  0.0 <= UpdateProgressOnClick(p, x).video.value.currentTime <= d)
            && (x <= y ==>
                  UpdateProgressOnClick(p, x).video.value.currentTime <=
                  UpdateProgressOnClick(p, y).video.value.currentTime)
  {
    var l, w, d := p.bar.value.left, p.bar.value.width, p.duration.value;
    var t0 := UpdateProgressOnClick(p, l).video.value.currentTime;
    var tw := UpdateProgressOnClick(p, l + w).video.value.currentTime;
    var tx := UpdateProgressOnClick(p, x).video.value.currentTime;
    var ty := UpdateProgressOnClick(p, y).video.value.currentTime;
    ScaledWithin(0.0, w, d, t0);
    ScaledWithin(w, w, d, tw);
    ScaledWithin(x - l, w, d, tx);
    if x <= y {
      ScaledMonotone(x - l, y - l, w, d, tx, ty);
    }
  }

  /** The `timeupdate` listener: copies the element's current time into the
      component and sets the progress fill to that time as a percentage of
      the element's duration. Without an element no listener is attached. */
  function TimeUpdate(p: Player): (q: Player)
    requires p.video.Some? ==> p.video.value.duration > 0.0
    ensures p.video.None? ==> q == p
    ensures p.video.Some? ==> q.currentTime == Finite(p.video.value.currentTime)
    ensures p.video.Some? ==> q.progress * p.video.value.duration == p.video.value.currentTime * 100.0
    ensures q == p.(currentTime := q.currentTime, progress := q.progress)
  {
    match p.video
    case None => p
    case Some(v) =>
      var progress := v.currentTime / v.duration * 100.0;
      assert progress * v.duration == v.currentTime * 100.0;
      p.(currentTime := Finite(v.currentTime), progress := progress)
  }

  /** While the element's time lies within its duration the progress fill
      lies within 0 to 100 percent; thirty seconds into two minutes is a
      quarter. */
  lemma ProgressWithinBounds(p: Player)
    requires p.video.Some? && p.video.value.duration > 0.0
    ensures 0.0 <= p.video.value.currentTime <= p.video.value.duration ==>
              0.0 <= TimeUpdate(p).progress <= 100.0
    ensures p.video.value.currentTime == 30.0 && p.video.value.duration == 120.0 ==>
              TimeUpdate(p).progress == 25.0
  {
    var v := p.video.value;
    var pr := TimeUpdate(p).progress;
    if 0.0 <= v.currentTime <= v.duration {
      assert pr * v.duration <= 100.0 * v.duration;
      assert 0.0 <= pr * v.duration;
    }
  }

  /** The `loadedmetadata` listener: stores the element's duration. */
  function LoadedMetadata(p: Player): (q: Player)
    ensures p.video.None? ==> q == p
    ensures p.video.Some? ==> q.duration == Finite(p.video.value.duration)
    ensures q == p.(duration := q.duration)
  {
    match p.video
    case None => p
    case Some(v) => p.(duration := Finite(v.duration))
  }

  /** After the metadata has loaded, a click on the bar followed by the
      next time update fills the bar up to the point that was clicked. */
  lemma ClickThenTimeUpdateFillsToClick(p: Player, clientX: real)
    requires p.video.Some? && p.bar.Some? && p.bar.value.width > 0.0
    requires p.video.value.duration > 0.0
    ensures var q := TimeUpdate(UpdateProgressOnClick(LoadedMetadata(p), clientX));
            q.progress == (clientX - p.bar.value.left) / p.bar.value.width * 100.0
  {
    var d := p.video.value.duration;
    var w := p.bar.value.width;
    var x := clientX - p.bar.value.left;
    var c := UpdateProgressOnClick(LoadedMetadata(p), clientX);
    var t := c.video.value.currentTime;
    assert t * w == x * d;
    var q := TimeUpdate(c);
    assert q.progress * d == t * 100.0;
    assert q.progress * d * w == x * d * 100.0;
    assert q.progress * w == x * 100.0;
  }

  /** The handlers the rendered controls are wired to, and the two
      media-element events the component listens for. */
  datatype Action =
    | TogglePlay
    | StepBack
    | StepForward
    | ClickBar(clientX: real)
    | TimeUpdated
    | MetadataLoaded

  predicate Enabled(p: Player, a: Action) {
    match a
    case ClickBar(_) => ClickDefined(p)
    case TimeUpdated => p.video.Some? ==> p.video.value.duration > 0.0
    case _ => true
  }

  function Dispatch(p: Player, a: Action): (q: Player)
    requires Enabled(p, a)
    ensures a.TogglePlay? ==> InSync(q)
    ensures InSync(p) ==> InSync(q)
    ensures !a.TogglePlay? ==> q.isPlaying == p.isPlaying
    ensures q.bar == p.bar
  {
    match a
    case TogglePlay => PlayAndPause(p)
    case StepBack => Seek(p, -StepSeconds)
    case StepForward => Seek(p, StepSeconds)
    case ClickBar(x) => UpdateProgressOnClick(p, x)
    case TimeUpdated => TimeUpdate(p)
    case MetadataLoaded => LoadedMetadata(p)
  }

  /** Applies the actions in order; `None` once an action arrives in a
      state where it is not defined. */
  function Run(p: Player, actions: seq<Action>): Option<Player>
    decreases |actions|
  {
    if |actions| == 0 then Some(p)
    else if !Enabled(p, actions[0]) then None
    else Run(Dispatch(p, actions[0]), actions[1..])
  }

  /** Agreement between icon and element survives any run of handlers. */
  lemma {:induction false} RunKeepsSync(p: Player, actions: seq<Action>)
    requires InSync(p)
    ensures Run(p, actions).Some? ==> InSync(Run(p, actions).value)
    decreases |actions|
  {
    if |actions| > 0 && Enabled(p, actions[0]) {
      RunKeepsSync(Dispatch(p, actions[0]), actions[1..]);
    }
  }

  /** From a freshly mounted, paused element, every state the component's
      handlers reach has the icon agreeing with the element, so toggling
      twice there restores the whole state. */
  lemma {:induction false} MountedPlayerStaysInSync(video: Option<Media>, bar: Option<Bar>, actions: seq<Action>)
    requires video.Some? ==> video.value.paused
    ensures var r := Run(Mount(video, bar), actions);
            r.Some? ==> InSync(r.value) && PlayAndPause(PlayAndPause(r.value)) == r.value
  {
    var r := Run(Mount(video, bar), actions);
    RunKeepsSync(Mount(video, bar), actions);
    if r.Some? {
      PlayAndPauseTwice(r.value);
    }
  }
}
