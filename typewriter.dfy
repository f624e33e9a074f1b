/**
 * The typewriter hook: reveals a target text one UTF-16 code unit per timer
 * tick. Once the effect has run for a target, the text shown is the first
 * `index` code units of it; a new target or speed starts again from
 * nothing. The render that brings the new target still returns the text
 * typed so far of the previous one, because the effect runs after it.
 */
module TypewriterHook {
  import opened Common

  class Typewriter {
    /** The target text as UTF-16 code units, which `text.length` and `charAt` count. */
    var text: seq<int>
    /** Milliseconds per character; only its changes matter here. */
    var speed: int
    /** `displayedText`, as code units. */
    var displayed: seq<int>
    /** `indexRef.current`: how many code units have been revealed. */
    var index: nat
    /** `timeoutRef.current` is set: a tick is scheduled. */
    var timerPending: bool

    /** After the effect: what is shown is the first `index` code units of the target, and an empty target has no timer. */
    ghost predicate Valid()
      reads this
    {
      index <= |text| && displayed == text[..index] && (text == [] ==> !timerPending)
    }

    /** Between renders, the displayed text, as a string of code units, is a prefix of the target. */
    function Shown(): (r: seq<int>)
      reads this
      requires Valid()
      ensures |r| <= |text| && r == text[..|r|]
    {
      displayed
    }

    /** The effect body: reset to nothing shown, clear any timer, and schedule the first tick for a non-empty text. */
    method Restart()
      modifies this
      ensures Valid()
      ensures index == 0 && displayed == [] && timerPending == (text != [])
      ensures text == old(text) && speed == old(speed)
    {
      index := 0;
      displayed := [];
      timerPending := false;
      if |text| > 0 {
        timerPending := true;
      }
    }

    /** Mounting runs the effect once for the initial text and speed. */
    constructor (target: string, speed: int)
      ensures Valid()
      ensures text == Utf16(target) && this.speed == speed
      ensures index == 0 && displayed == [] && timerPending == (target != [])
    {
      text := Utf16(target);
      this.speed := speed;
      index := 0;
      displayed := [];
      timerPending := target != [];
    }

    /**
     * A re-render with `target` and `newSpeed`. The hook returns `shown`, the
     * `displayedText` of the state it renders from, which is a prefix of the
     * previous target. Then, when either input differs, the previous
     * effect's cleanup clears the timer and the effect restarts.
     */
    method Render(target: string, newSpeed: int) returns (shown: seq<int>)
      requires Valid()
      modifies this
      ensures Valid()
      ensures shown == old(displayed) && |shown| <= |old(text)| && shown == old(text)[..|shown|]
      ensures text == Utf16(target) && speed == newSpeed
      ensures (Utf16(target) != old(text) || newSpeed != old(speed)) ==>
        index == 0 && displayed == [] && timerPending == (target != [])
      ensures (Utf16(target) == old(text) && newSpeed == old(speed)) ==>
        index == old(index) && displayed == old(displayed) && timerPending == old(timerPending)
    {
      shown := displayed;
      if Utf16(target) != text || newSpeed != speed {
        timerPending := false;          // cleanup of the previous effect
        text, speed := Utf16(target), newSpeed;
        Restart();
      }
    }

    /**
     * The timer fires (`typeCharacter`): while code units remain, reveals the
     * next one and schedules another tick; otherwise clears the timer.
     */
    method Tick()
      requires Valid() && timerPending
      modifies this
      ensures Valid()
      ensures text == old(text) && speed == old(speed)
      ensures old(index) < |text| ==> displayed == old(displayed) + [text[old(index)]] && index == old(index) + 1 && timerPending
      ensures old(index) == |text| ==> displayed == old(displayed) && index == old(index) && !timerPending
    {
      if index < |text| {
        displayed := displayed + [text[index]];
        index := index + 1;
        timerPending := true;
      } else {
        timerPending := false;
      }
    }

    /** Unmounting runs the cleanup: no tick stays scheduled. */
    method Unmount()
      requires Valid()
      modifies this
      ensures Valid() && !timerPending
      ensures text == old(text) && displayed == old(displayed) && index == old(index) && speed == old(speed)
    {
      timerPending := false;
    }
  }

  /**
   * Letting every scheduled tick fire: a text whose typing has just started
   * is shown in full after one tick per code unit, and one more tick finds
   * nothing left and schedules nothing.
   */
  method TypeOut(tw: Typewriter) returns (ticks: nat)
    requires tw.Valid()
    modifies tw
    ensures tw.Valid() && !tw.timerPending && tw.text == old(tw.text)
    ensures old(tw.timerPending) ==> tw.displayed == tw.text && ticks == |tw.text| - old(tw.index) + 1
    ensures !old(tw.timerPending) ==> tw.displayed == old(tw.displayed) && ticks == 0
  {
    ticks := 0;
    while tw.timerPending
      invariant tw.Valid() && tw.text == old(tw.text) && old(tw.index) <= tw.index
      invariant tw.timerPending ==> old(tw.timerPending) && ticks == tw.index - old(tw.index)
      invariant !tw.timerPending && old(tw.timerPending) ==> tw.index == |tw.text| && ticks == |tw.text| - old(tw.index) + 1
      invariant !old(tw.timerPending) ==> ticks == 0 && tw.displayed == old(tw.displayed)
      decreases (|tw.text| - tw.index) * 2 + (if tw.timerPending then 1 else 0)
    {
      tw.Tick();
      ticks := ticks + 1;
    }
  }

  /**
   * The render that brings a new target returns the old typed text: after
   * `"a"` of `"ab"` has been revealed, rendering `"xy"` returns `"a"`, which
   * is no prefix of `"xy"`; only the render after the effect shows `""`.
   */
  method RenderNewTarget() returns (shown: seq<int>, target: seq<int>, next: seq<int>)
    ensures shown == ['a' as int] && target == ['x' as int, 'y' as int]
    ensures !(|shown| <= |target| && shown == target[..|shown|])
    ensures next == []
  {
    assert Utf16("ab") == ['a' as int, 'b' as int] by {
      assert Utf16("ab"[1..][1..]) == [];
    }
    assert Utf16("xy") == ['x' as int, 'y' as int] by {
      assert Utf16("xy"[1..][1..]) == [];
    }
    var tw := new Typewriter("ab", 50);
    tw.Tick();
    shown := tw.Render("xy", 50);
    target := tw.text;
    next := tw.Render("xy", 50);
  }

  /** For text without characters beyond U+FFFF, there is one code unit, and so one tick, per character. */
  lemma {:induction false} BasicTextHasOneUnitPerChar(s: string)
    requires forall k :: 0 <= k < |s| ==> s[k] as int < 0x10000
    ensures Utf16(s) == seq(|s|, k requires 0 <= k < |s| => s[k] as int)
  {
    if s != [] {
      BasicTextHasOneUnitPerChar(s[1..]);
    }
  }
}
