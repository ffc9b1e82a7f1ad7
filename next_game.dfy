/** The "Next game" button: a click shows the spinner and disables the
    button; after a delay a new target is drawn, the shown value is animated
    from the stored odds to the target, and on completion the spinner is
    hidden, the button enabled again and the target stored as the current
    odds.

    The delay, the random draw and the timing of animation frames are not
    modelled: the target and the per-frame values are parameters, and each
    callback is a method, called in the order the browser would call it. */
module NextGame {

  class Controller {
    /** Whether the spinner element is displayed (`display: flex`). */
    var spinnerVisible: bool
    /** Whether the button is disabled and so takes no clicks. */
    var disabled: bool
    /** The stored odds every animation starts from. */
    var currentOdds: real
    /** The odds the display element shows. */
    var shownOdds: real
    /** After each event since page load, in order: whether the button was
        disabled and what the stored odds were. */
    ghost var history: seq<(bool, real)>

    /** The two UI flags move together: the spinner is shown exactly while
        the button is disabled, that is, while a round is in flight. */
    ghost predicate Valid()
      reads this
    {
      spinnerVisible == disabled
    }

    /** Page load and `init`: idle, with a first value stored and shown. */
    constructor (first: real)
      ensures Valid()
      ensures !spinnerVisible && !disabled
      ensures currentOdds == first && shownOdds == first
      ensures history == []
    {
      spinnerVisible := false;
      disabled := false;
      currentOdds := first;
      shownOdds := first;
      history := [];
    }

    /** The click handler's synchronous part: show the spinner, disable the
        button. A disabled button takes no clicks. */
    method Click()
      requires Valid() && !disabled
      modifies this`spinnerVisible, this`disabled, this`history
      ensures Valid()
      ensures spinnerVisible && disabled
      ensures currentOdds == old(currentOdds) && shownOdds == old(shownOdds)
      ensures history == old(history) + [(disabled, currentOdds)]
    {
      spinnerVisible := true;
      disabled := true;
      history := history + [(disabled, currentOdds)];
    }

    /** One animation frame's `onUpdate`: show an interpolated value. The
        stored odds and the UI flags are untouched. */
    method Frame(value: real)
      requires Valid() && disabled
      modifies this`shownOdds, this`history
      ensures Valid() && disabled && spinnerVisible
      ensures shownOdds == value
      ensures currentOdds == old(currentOdds)
      ensures history == old(history) + [(disabled, currentOdds)]
    {
      shownOdds := value;
      history := history + [(disabled, currentOdds)];
    }

    /** The animation's `onComplete`: hide the spinner, enable the button and
        store the target the round was animating to (not the last frame's
        value). */
    method Complete(target: real)
      requires Valid() && disabled
      modifies this`spinnerVisible, this`disabled, this`currentOdds, this`history
      ensures Valid()
      ensures !spinnerVisible && !disabled
      ensures currentOdds == target
      ensures shownOdds == old(shownOdds)
      ensures history == old(history) + [(disabled, currentOdds)]
    {
      spinnerVisible := false;
      disabled := false;
      currentOdds := target;
      history := history + [(disabled, currentOdds)];
    }

    /** One whole round: a click, the animation frames showing `frames` in
        order, then completion with `target`. The animation always shows at
        least one frame before it completes. Over the round's events, as
        `history` records them, the button is disabled after every event up
        to the last frame, the stored odds change only at completion, and the
        round ends idle with the target stored. */
    method Round(target: real, frames: seq<real>)
      requires Valid() && !disabled
      requires |frames| >= 1
      modifies this
      ensures Valid() && !disabled && !spinnerVisible
      ensures currentOdds == target
      ensures shownOdds == frames[|frames| - 1]
      ensures |history| == |old(history)| + |frames| + 2
      ensures history[..|old(history)|] == old(history)
      ensures forall i :: |old(history)| <= i < |history| - 1 ==>
        history[i] == (true, old(currentOdds))
      ensures history[|history| - 1] == (false, target)
    {
      ghost var start := |history|;
      Click();
      var i := 0;
      while i < |frames|
        invariant 0 <= i <= |frames|
        invariant Valid() && disabled
        invariant currentOdds == old(currentOdds)
        invariant i > 0 ==> shownOdds == frames[i - 1]
        invariant |history| == start + i + 1
        invariant history[..start] == old(history)
        invariant forall k :: start <= k < |history| ==> history[k] == (true, old(currentOdds))
      {
        Frame(frames[i]);
        i := i + 1;
      }
      Complete(target);
    }
  }
}
