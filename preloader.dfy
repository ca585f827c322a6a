/**
 * The preloader's greeting sequencer. Its effect runs on mount and whenever
 * `index`, `onComplete` or the reduced-motion preference changes; each run
 * first clears the timer the previous run scheduled. Timer delays are not
 * modelled: a scheduled timer fires as a separate event.
 */
module Preloader {

  datatype Greeting = Greeting(text: string, lang: string)

  const Greetings: seq<Greeting> := [
    Greeting("Hello", "English"),
    Greeting("नमस्ते", "Hindi"),
    Greeting("Hola", "Spanish"),
    Greeting("Bonjour", "French"),
    Greeting("你好", "Chinese"),
    Greeting("こんにちは", "Japanese"),
    Greeting("안녕하세요", "Korean"),
    Greeting("Ciao", "Italian"),
    Greeting("Olá", "Portuguese"),
    Greeting("Привет", "Russian"),
    Greeting("مرحبا", "Arabic"),
    Greeting("Hallo", "German")
  ]

  /** `greetings.length - 1`: the index of the last greeting. */
  const LastIndex := |Greetings| - 1

  /** The timer the last effect run left scheduled: none, the 200 ms step, or the 500 ms completion. */
  datatype Timer = NoTimer | StepTimer | CompletionTimer

  class Sequencer {
    var index: nat
    var done: bool
    /** `completeRef.current`: the one-shot guard of the completion timer. */
    var completeRef: bool
    var reducedMotion: bool
    var timer: Timer
    /** Calls of `onComplete` made by the completion timer. */
    var timerCompletions: nat
    /** Calls of `onComplete` made directly by an effect run under reduced motion. */
    var immediateCompletions: nat

    ghost predicate Valid()
      reads this
    {
      && index <= LastIndex
      && (done <==> completeRef)
      && timerCompletions == (if completeRef then 1 else 0)
      && (timer == StepTimer ==> index < LastIndex && !reducedMotion)
      && (timer == CompletionTimer ==> index == LastIndex && !reducedMotion)
      && (reducedMotion ==> timer == NoTimer)
    }

    /** The greeting on screen; `index` is always a valid position. */
    function Current(): (g: Greeting)
      reads this
      requires Valid()
      ensures g in Greetings
    {
      Greetings[index]
    }

    /** Mount: `index` is 0, nothing is done, and the effect runs once. */
    constructor (reducedMotion: bool)
      ensures Valid()
      ensures index == 0 && !done && !completeRef && this.reducedMotion == reducedMotion
      ensures timerCompletions == 0
      ensures reducedMotion ==> timer == NoTimer && immediateCompletions == 1
      ensures !reducedMotion ==> timer == StepTimer && immediateCompletions == 0
    {
      index := 0;
      done := false;
      completeRef := false;
      this.reducedMotion := reducedMotion;
      timerCompletions := 0;
      if reducedMotion {
        timer := NoTimer;
        immediateCompletions := 1;
      } else {
        timer := StepTimer;
        immediateCompletions := 0;
      }
    }

    /**
     * One run of the effect, after clearing the previous run's timer. Under
     * reduced motion it calls `onComplete` at once and touches nothing else;
     * otherwise it schedules the step timer before the last greeting and the
     * completion timer at it.
     */
    method RunEffect()
      requires index <= LastIndex && (done <==> completeRef)
      requires timerCompletions == (if completeRef then 1 else 0)
      modifies this
      ensures Valid()
      ensures index == old(index) && done == old(done) && completeRef == old(completeRef)
      ensures reducedMotion == old(reducedMotion) && timerCompletions == old(timerCompletions)
      ensures reducedMotion ==> timer == NoTimer && immediateCompletions == old(immediateCompletions) + 1
      ensures !reducedMotion && index < LastIndex ==> timer == StepTimer && immediateCompletions == old(immediateCompletions)
      ensures !reducedMotion && index == LastIndex ==> timer == CompletionTimer && immediateCompletions == old(immediateCompletions)
    {
      timer := NoTimer;
      if reducedMotion {
        immediateCompletions := immediateCompletions + 1;
        return;
      }
      if index < LastIndex {
        timer := StepTimer;
      } else {
        timer := CompletionTimer;
      }
    }

    /**
     * The scheduled timer fires. The step timer advances `index` by exactly
     * one, which runs the effect again; the completion timer sets `done` and
     * calls `onComplete` only if the guard is still down, then raises it.
     */
    method TimerFired()
      requires Valid() && timer != NoTimer
      modifies this
      ensures Valid()
      ensures reducedMotion == old(reducedMotion) && immediateCompletions == old(immediateCompletions)
      ensures old(timer) == StepTimer ==>
                && index == old(index) + 1 && done == old(done) && completeRef == old(completeRef)
                && timerCompletions == old(timerCompletions)
                && timer == (if index < LastIndex then StepTimer else CompletionTimer)
      ensures old(timer) == CompletionTimer ==>
                && index == old(index) == LastIndex && done && completeRef && timer == NoTimer
                && timerCompletions == 1
                && (old(completeRef) ==> timerCompletions == old(timerCompletions))
    {
      if timer == StepTimer {
        index := index + 1;
        RunEffect();
      } else {
        timer := NoTimer;
        if !completeRef {
          completeRef := true;
          done := true;
          timerCompletions := timerCompletions + 1;
        }
      }
    }

    /** The parent passes a new `onComplete`: the effect runs again. */
    method CallbackChanged()
      requires Valid()
      modifies this
      ensures Valid()
      ensures index == old(index) && done == old(done) && completeRef == old(completeRef)
      ensures timerCompletions == old(timerCompletions) && reducedMotion == old(reducedMotion)
      ensures reducedMotion ==> immediateCompletions == old(immediateCompletions) + 1
      ensures !reducedMotion ==> immediateCompletions == old(immediateCompletions) && timer != NoTimer
    {
      RunEffect();
    }

    /** The reduced-motion preference changes: the effect runs again. */
    method ReducedMotionChanged(reduced: bool)
      requires Valid() && reduced != reducedMotion
      modifies this
      ensures Valid()
      ensures reducedMotion == reduced
      ensures index == old(index) && done == old(done) && completeRef == old(completeRef)
      ensures timerCompletions == old(timerCompletions)
      ensures reduced ==> timer == NoTimer && immediateCompletions == old(immediateCompletions) + 1
      ensures !reduced ==> timer != NoTimer && immediateCompletions == old(immediateCompletions)
    {
      reducedMotion := reduced;
      RunEffect();
    }
  }
}
