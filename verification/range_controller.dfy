/**
 * src/RangeController.jsx: the time scrubber. While playing, every render requests
 * one animation frame that moves the time one `animationSpeed` step on, wrapping to
 * `min` at `max`; the button flips play and pause; the slider sets the time directly;
 * unmounting cancels the frame last requested.
 *
 * The browser's animation-frame queue is modelled as the map `pending` from frame
 * handles to the time each frame will pass to `onChange`. The parent (src/Map.jsx)
 * passes its own state setter as `onChange`, so a value sent through `onChange`
 * comes back as the next `value`; `changes` records every such call.
 */
module RangeController {
  import opened Wrappers
  import opened Records

  /** The time a frame requested at `value` moves to. */
  function NextTime(value: int, speed: int, min: int, max: int): (next: int)
    ensures next == min || (next == value + speed && next < max)
  {
    if value + speed >= max then min else value + speed
  }

  /** Reaching or passing `max` wraps to exactly `min`, not to `min` plus the overshoot. */
  lemma NextTimeWraps(value: int, speed: int, min: int, max: int)
    requires value + speed >= max
    ensures NextTime(value, speed, min, max) == min
  {
  }

  /** Short of `max`, the time moves on by exactly one step. */
  lemma NextTimeAdvances(value: int, speed: int, min: int, max: int)
    requires value + speed < max
    ensures NextTime(value, speed, min, max) == value + speed
  {
  }

  /** From any time at or after `min`, the next time lies in `[min, max)`. */
  lemma NextTimeInRange(value: int, speed: int, min: int, max: int)
    requires min <= value && 0 < speed && min < max
    ensures min <= NextTime(value, speed, min, max) < max
  {
  }

  /** The map's step is 120 000 ms, and one step from the last time wraps to the first. */
  lemma MapStepAtMax(min: int, max: int)
    requires min < max
    ensures AnimationSpeed == 120000
    ensures NextTime(max, AnimationSpeed, min, max) == min
  {
  }

  class Controller {
    /** The props fixed for the dataset on display. */
    const min: int
    const max: int
    const animationSpeed: int

    /** The `value` prop: the current filter time. */
    var value: int
    /** `isPlaying` state. */
    var isPlaying: bool
    /** `frameRef.current`: the handle of the frame requested last, if any. */
    var frameRef: Option<nat>
    /** Frames requested and neither run nor cancelled, with the time each will send. */
    var pending: map<nat, int>
    /** The handle the next requested frame gets. */
    var nextHandle: nat
    /** Whether the component is mounted. */
    var mounted: bool
    /** Every value passed to `onChange`, in order. */
    var changes: seq<int>

    ghost predicate Valid()
      reads this
    {
      && min < max && 0 < animationSpeed
      && min <= value <= max
      && (forall h :: h in pending ==> h < nextHandle && min <= pending[h] < max)
      && (frameRef.Some? ==> frameRef.value < nextHandle)
      && (forall i :: 0 <= i < |changes| ==> min <= changes[i] <= max)
    }

    /** The first render: paused, no frame requested, nothing sent. */
    constructor (min: int, max: int, value: int, animationSpeed: int)
      requires min < max && 0 < animationSpeed && min <= value <= max
      ensures Valid()
      ensures this.min == min && this.max == max && this.animationSpeed == animationSpeed
      ensures this.value == value && !isPlaying && mounted
      ensures frameRef == None && pending == map[] && changes == []
    {
      this.min, this.max, this.animationSpeed := min, max, animationSpeed;
      this.value := value;
      isPlaying := false;
      frameRef := None;
      pending := map[];
      nextHandle := 0;
      mounted := true;
      changes := [];
    }

    /**
     * The render body: while playing it requests one frame carrying the next time
     * and stores its handle in `frameRef`; while paused it does nothing. It does not
     * cancel a frame requested earlier.
     */
    method Render()
      requires Valid() && mounted
      modifies this
      ensures Valid()
      ensures value == old(value) && isPlaying == old(isPlaying) && mounted && changes == old(changes)
      ensures !isPlaying ==> unchanged(this)
      ensures isPlaying ==>
        && pending == old(pending)[old(nextHandle) := NextTime(value, animationSpeed, min, max)]
        && frameRef == Some(old(nextHandle))
        && nextHandle == old(nextHandle) + 1
    {
      if isPlaying {
        var newTime := if value + animationSpeed >= max then min else value + animationSpeed;
        pending := pending[nextHandle := newTime];
        frameRef := Some(nextHandle);
        nextHandle := nextHandle + 1;
      }
    }

    /** The play/pause button: flips `isPlaying` and nothing else. */
    method Toggle()
      requires Valid() && mounted
      modifies this`isPlaying
      ensures Valid()
      ensures isPlaying == !old(isPlaying)
    {
      isPlaying := !isPlaying;
    }

    /** The browser runs frame `h`: its time goes to `onChange` and comes back as `value`. */
    method RunFrame(h: nat)
      requires Valid() && h in pending
      modifies this`pending, this`value, this`changes
      ensures Valid()
      ensures pending == old(pending) - {h}
      ensures value == old(pending)[h] && changes == old(changes) + [old(pending)[h]]
      ensures old(OnlyLatestPending()) ==> OnlyLatestPending()
    {
      var newTime := pending[h];
      pending := pending - {h};
      changes := changes + [newTime];
      value := newTime;
    }

    /** The slider: its value goes to `onChange` unchanged. */
    method Slide(v: int)
      requires Valid() && mounted && min <= v <= max
      modifies this`value, this`changes
      ensures Valid()
      ensures value == v && changes == old(changes) + [v]
    {
      changes := changes + [v];
      value := v;
    }

    /** Unmounting: cancels the frame `frameRef` names, so that frame never sends its time. */
    method Teardown()
      requires Valid() && mounted
      modifies this`pending, this`mounted
      ensures Valid() && !mounted
      ensures frameRef.Some? ==> pending == old(pending) - {frameRef.value} && frameRef.value !in pending
      ensures frameRef.None? ==> pending == old(pending)
      ensures old(OnlyLatestPending()) ==> pending == map[]
    {
      if frameRef.Some? {
        pending := pending - {frameRef.value};
      }
      mounted := false;
    }

    /** Only the frame `frameRef` names can be pending. */
    ghost predicate OnlyLatestPending()
      reads this
    {
      forall h :: h in pending ==> frameRef == Some(h)
    }

    /**
     * The render with the outstanding frame cancelled first, as an effect cleanup
     * does: at most one frame is ever pending, and it is the one `frameRef` names.
     */
    method RenderCancelling()
      requires Valid() && mounted && OnlyLatestPending()
      modifies this
      ensures Valid() && OnlyLatestPending()
      ensures value == old(value) && isPlaying == old(isPlaying) && mounted && changes == old(changes)
      ensures !isPlaying ==> pending == map[] && frameRef == old(frameRef) && nextHandle == old(nextHandle)
      ensures isPlaying ==>
        && pending == map[old(nextHandle) := NextTime(value, animationSpeed, min, max)]
        && frameRef == Some(old(nextHandle))
        && nextHandle == old(nextHandle) + 1
    {
      if frameRef.Some? {
        pending := pending - {frameRef.value};
      }
      assert pending == map[];
      if isPlaying {
        var newTime := if value + animationSpeed >= max then min else value + animationSpeed;
        pending := pending[nextHandle := newTime];
        frameRef := Some(nextHandle);
        nextHandle := nextHandle + 1;
      }
    }

    /** The button with the outstanding frame cancelled when it pauses. */
    method ToggleCancelling()
      requires Valid() && mounted && OnlyLatestPending()
      modifies this`isPlaying, this`pending
      ensures Valid() && OnlyLatestPending()
      ensures isPlaying == !old(isPlaying)
      ensures !isPlaying ==> pending == map[]
      ensures isPlaying ==> pending == old(pending)
    {
      if isPlaying && frameRef.Some? {
        pending := pending - {frameRef.value};
      }
      isPlaying := !isPlaying;
    }
  }

  /**
   * As written: a frame requested while playing is not cancelled by the pause, so it
   * still sends its time after the button has paused the animation.
   */
  method StaleFrameAfterPause() returns (sentAfterPause: seq<int>)
    ensures sentAfterPause == [AnimationSpeed]
  {
    var c := new Controller(0, TimeGap, 0, AnimationSpeed);
    c.Toggle();
    c.Render();
    var h := c.frameRef.value;
    c.Toggle();
    c.Render();
    assert !c.isPlaying && h in c.pending;
    c.RunFrame(h);
    sentAfterPause := c.changes;
  }

  /** With the cancelling render and button, nothing is pending once paused, so no frame can send. */
  method NoFrameAfterPause() returns (pendingAfterPause: map<nat, int>)
    ensures pendingAfterPause == map[]
  {
    var c := new Controller(0, TimeGap, 0, AnimationSpeed);
    c.ToggleCancelling();
    c.RenderCancelling();
    assert c.isPlaying && |c.pending| == 1;
    c.ToggleCancelling();
    c.RenderCancelling();
    pendingAfterPause := c.pending;
  }
}
