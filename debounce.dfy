/** The autosave debounce of `scheduleSave` (js/app.js:200-207) and the Ctrl+S
    save (js/app.js:245-248) as a state machine. The store keeps a single timer
    slot, `state.saveTimer`: an edit clears whatever timer it holds and arms a new
    one, the timer's expiry commits the editor fields, and Ctrl+S commits at once
    without touching the timer. */
module Debounce {

  datatype Timer = Idle | Pending

  datatype Event =
    | Edit     // an `input` event on the title or content field
    | Expire   // 250 ms without a further edit
    | SaveNow  // Ctrl+S (Cmd+S on a Mac)

  /** The timer after some events and how many times `saveActiveFromUI` ran. */
  datatype Outcome = Outcome(timer: Timer, commits: nat)

  /** One event: an edit (re)arms the timer, the expiry of a pending timer saves
      and disarms it, Ctrl+S saves and leaves the timer alone. */
  function Step(t: Timer, e: Event): (o: Outcome)
    ensures o.commits <= 1
    ensures o.commits == 1 <==> e == SaveNow || (e == Expire && t == Pending)
    ensures o.timer == Pending <==> e == Edit || (e == SaveNow && t == Pending)
  {
    match e
    case Edit => Outcome(Pending, 0)
    case Expire => if t == Pending then Outcome(Idle, 1) else Outcome(Idle, 0)
    case SaveNow => Outcome(t, 1)
  }

  /** A trace of events from timer state `t`: at most one save per event, and the
      last edit or expiry decides the timer. */
  function Run(t: Timer, es: seq<Event>): (o: Outcome)
    ensures o.commits <= |es|
    ensures es == [] ==> o == Outcome(t, 0)
    ensures es != [] && es[|es| - 1] == Edit ==> o.timer == Pending
    ensures es != [] && es[|es| - 1] == Expire ==> o.timer == Idle
    decreases |es|
  {
    if es == [] then Outcome(t, 0)
    else
      var first := Step(t, es[0]);
      var rest := Run(first.timer, es[1..]);
      assert |es| > 1 ==> es[1..][|es| - 2] == es[|es| - 1];
      Outcome(rest.timer, first.commits + rest.commits)
  }

  /** `k` edits in quick succession. */
  function Burst(k: nat): (es: seq<Event>)
    ensures |es| == k && forall i :: 0 <= i < k ==> es[i] == Edit
  {
    seq(k, _ => Edit)
  }

  function Count(es: seq<Event>, e: Event): nat
    decreases |es|
  {
    if es == [] then 0 else (if es[0] == e then 1 else 0) + Count(es[1..], e)
  }

  /** Running two traces one after the other is running their concatenation. */
  lemma {:induction false} RunAppend(t: Timer, a: seq<Event>, b: seq<Event>)
    ensures Run(t, a + b) ==
      Outcome(Run(Run(t, a).timer, b).timer, Run(t, a).commits + Run(Run(t, a).timer, b).commits)
    decreases |a|
  {
    if a != [] {
      assert (a + b)[0] == a[0];
      assert (a + b)[1..] == a[1..] + b;
      RunAppend(Step(t, a[0]).timer, a[1..], b);
    } else {
      assert a + b == b;
    }
  }

  /** Any burst of edits leaves exactly one timer armed and commits nothing yet. */
  lemma {:induction false} BurstArms(t: Timer, k: nat)
    requires k >= 1
    ensures Run(t, Burst(k)) == Outcome(Pending, 0)
    decreases k
  {
    if k > 1 {
      assert Burst(k)[1..] == Burst(k - 1);
      BurstArms(Pending, k - 1);
    } else {
      assert Burst(k)[1..] == [];
    }
  }

  /** A burst of edits followed by one quiet interval commits exactly once and
      leaves no timer armed. */
  lemma BurstThenExpireCommitsOnce(t: Timer, k: nat)
    requires k >= 1
    ensures Run(t, Burst(k) + [Expire]) == Outcome(Idle, 1)
  {
    BurstArms(t, k);
    RunAppend(t, Burst(k), [Expire]);
  }

  /** Ctrl+S during a burst commits at once but leaves the timer armed, so the
      expiry that follows commits a second time. */
  lemma SaveNowLeavesTimerArmed(t: Timer, k: nat)
    requires k >= 1
    ensures Run(t, Burst(k) + [SaveNow]) == Outcome(Pending, 1)
    ensures Run(t, Burst(k) + [SaveNow, Expire]) == Outcome(Idle, 2)
  {
    BurstArms(t, k);
    RunAppend(t, Burst(k), [SaveNow]);
    RunAppend(t, Burst(k), [SaveNow, Expire]);
  }

  /** An expiry with no edit since the previous commit by the timer commits nothing. */
  lemma ExpireTwiceCommitsOnce(t: Timer, es: seq<Event>)
    ensures Run(t, es + [Expire, Expire]).commits == Run(t, es + [Expire]).commits
    ensures Run(t, es + [Expire]).timer == Idle
  {
    RunAppend(t, es, [Expire, Expire]);
    RunAppend(t, es, [Expire]);
  }

  /** Every commit comes from an expiry or a Ctrl+S: edits alone never save. */
  lemma {:induction false} CommitsBounded(t: Timer, es: seq<Event>)
    ensures Run(t, es).commits <= Count(es, Expire) + Count(es, SaveNow)
    decreases |es|
  {
    if es != [] {
      CommitsBounded(Step(t, es[0]).timer, es[1..]);
    }
  }
}
