/** The key state machine of KeypadDeviceHelperLib.h: debouncing, long press and key repeat. */
module KeyTiming {

  datatype KeyState = Released | Pressed | LongpressRelease

  /** The context of one key.  The time is a 64-bit number of nanoseconds: 500 ms is
      500_000_000. */
  datatype Context = Context(time: nat, state: KeyState, repeating: bool, longpress: bool)

  /** What an update is given: the key's level, the time since the last update, and the state of the other
      keys that matter for combinations. */
  datatype Input = Input(isPressed: bool, delta: nat, down: bool, up: bool, power: bool)

  datatype Event = Own | PowerDown | PowerUp | PowerLongpress

  function Initial(): Context { Context(0, Released, false, false) }

  /** LibKeyUpdateKeyStatus: the new context and the event that is pushed, if any. */
  function Update(c: Context, isPower: bool, i: Input): (Context, seq<Event>) {
    var t := c.(time := (c.time + i.delta) % 0x1_0000_0000_0000_0000);
    match t.state
    case Released => (if i.isPressed then t.(time := 0, state := Pressed) else t, [])
    case Pressed =>
      if i.isPressed then
        if t.repeating && t.time >= 200_000_000 then (t.(time := 0), [Own])
        else if !t.longpress && t.time >= 500_000_000 then
          if isPower then
            (t.(longpress := true), [if i.down then PowerDown else if i.up then PowerUp else PowerLongpress])
          else if i.power then (t.(longpress := true), [])
          else (t.(time := 0, repeating := true, longpress := true), [Own])
        else (t, [])
      else if !t.longpress then (t.(state := LongpressRelease), [Own])
      else if t.time >= 10_000_000 then (Initial(), [])
      else (t, [])
    case LongpressRelease => (Initial(), [])
  }

  // ----- runs

  /** The context after the inputs, and everything pushed on the way. */
  function Run(c: Context, isPower: bool, inputs: seq<Input>): (Context, seq<Event>)
    decreases |inputs|
  {
    if inputs == [] then (c, [])
    else
      var n := |inputs| - 1;
      var before := Run(c, isPower, inputs[..n]);
      var (now, events) := Update(before.0, isPower, inputs[n]);
      (now, before.1 + events)
  }

  function Elapsed(inputs: seq<Input>): nat
    decreases |inputs|
  {
    if inputs == [] then 0 else Elapsed(inputs[..|inputs| - 1]) + inputs[|inputs| - 1].delta
  }

  /** Repeat implies longpress; a released key has neither. */
  predicate Consistent(c: Context) {
    && (c.repeating ==> c.longpress)
    && (c.state != Pressed ==> !c.repeating && !c.longpress)
    && c.time < 0x1_0000_0000_0000_0000
  }

  lemma {:induction false} EveryContextIsConsistent(isPower: bool, inputs: seq<Input>)
    ensures Consistent(Run(Initial(), isPower, inputs).0)
    decreases |inputs|
  {
    if inputs != [] {
      EveryContextIsConsistent(isPower, inputs[..|inputs| - 1]);
    }
  }

  // ----- one press session

  /** The context in which a press session begins. */
  function JustPressed(): Context { Context(0, Pressed, false, false) }

  /** A key that was released enters a session only this way. */
  lemma SessionsBeginHere(c: Context, isPower: bool, i: Input)
    requires Consistent(c) && c.state == Released
    ensures var (d, events) := Update(c, isPower, i);
            events == [] && (if i.isPressed then d == JustPressed() else d.state == Released)
  {
  }

  /** The key does not get back to released before the last input. */
  ghost predicate OneSession(isPower: bool, inputs: seq<Input>) {
    forall n :: 0 <= n < |inputs| ==> Run(JustPressed(), isPower, inputs[..n]).0.state != Released
  }

  /** What is known while the session lasts, after `elapsed` and k events. */
  predicate SessionSoFar(c: Context, isPower: bool, elapsed: nat, k: nat) {
    && Consistent(c)
    && (c.state == Pressed && !c.longpress ==> k == 0 && elapsed >= c.time)
    && (c.state == Pressed && isPower ==> !c.repeating && (c.longpress ==> k == 1))
    && (c.state == Pressed && c.longpress && !c.repeating ==> k <= 1)
    && (c.repeating ==> k >= 1 && elapsed >= 500_000_000 + 200_000_000 * (k - 1) + c.time)
    && (c.state == LongpressRelease ==> k == 1)
  }

  /** What is known of a session, finished or not. */
  predicate RateBound(isPower: bool, finished: bool, elapsed: nat, k: nat) {
    && (k >= 2 ==> elapsed >= 500_000_000 + 200_000_000 * (k - 1))
    && (isPower ==> k <= 1 && (finished ==> k == 1))
  }

  lemma StepKeepsSession(c: Context, isPower: bool, i: Input, elapsed: nat, k: nat)
    requires SessionSoFar(c, isPower, elapsed, k) && c.state != Released
    ensures var (d, events) := Update(c, isPower, i);
            && |events| <= 1
            && (d.state != Released ==> SessionSoFar(d, isPower, elapsed + i.delta, k + |events|))
            && RateBound(isPower, d.state == Released, elapsed + i.delta, k + |events|)
  {
    assert (c.time + i.delta) % 0x1_0000_0000_0000_0000 <= c.time + i.delta;
  }

  lemma {:induction false} SessionHolds(isPower: bool, inputs: seq<Input>)
    requires OneSession(isPower, inputs)
    ensures var (c, events) := Run(JustPressed(), isPower, inputs);
            && (c.state != Released ==> SessionSoFar(c, isPower, Elapsed(inputs), |events|))
            && RateBound(isPower, c.state == Released, Elapsed(inputs), |events|)
    decreases |inputs|
  {
    hide Update, SessionSoFar, RateBound;
    if inputs == [] {
      SessionStarts(isPower);
    } else {
      var n := |inputs| - 1;
      assert forall m :: 0 <= m < n ==> inputs[..n][..m] == inputs[..m];
      SessionHolds(isPower, inputs[..n]);
      var before := Run(JustPressed(), isPower, inputs[..n]);
      StepKeepsSession(before.0, isPower, inputs[n], Elapsed(inputs[..n]), |before.1|);
    }
  }

  lemma SessionStarts(isPower: bool)
    ensures SessionSoFar(JustPressed(), isPower, 0, 0) && RateBound(isPower, false, 0, 0)
  {
  }

  /** However the updates fall, and even if the clock wraps: k events of one press session take at least
      500 ms and 200 ms for each one after the first. */
  lemma SessionRate(isPower: bool, inputs: seq<Input>)
    requires OneSession(isPower, inputs)
    ensures var k := |Run(JustPressed(), isPower, inputs).1|;
            k >= 2 ==> Elapsed(inputs) >= 500_000_000 + 200_000_000 * (k - 1)
  {
    SessionHolds(isPower, inputs);
  }

  /** A power key session pushes one event when it is complete, and no more than one before. */
  lemma PowerSession(inputs: seq<Input>)
    requires OneSession(true, inputs)
    ensures var (c, events) := Run(JustPressed(), true, inputs);
            |events| <= 1 && (c.state == Released ==> |events| == 1)
  {
    SessionHolds(true, inputs);
  }

  // ----- what a key pushes

  ghost predicate AllPressed(inputs: seq<Input>) {
    forall n :: 0 <= n < |inputs| ==> inputs[n].isPressed
  }

  lemma ElapsedGrows(inputs: seq<Input>, n: nat)
    requires n <= |inputs|
    ensures Elapsed(inputs[..n]) <= Elapsed(inputs)
    decreases |inputs|
  {
    if n < |inputs| {
      assert inputs[..|inputs| - 1][..n] == inputs[..n];
      ElapsedGrows(inputs[..|inputs| - 1], n);
    } else {
      assert inputs[..n] == inputs;
    }
  }

  lemma LastPressed(inputs: seq<Input>)
    requires AllPressed(inputs) && inputs != []
    ensures AllPressed(inputs[..|inputs| - 1]) && inputs[|inputs| - 1].isPressed
    ensures Elapsed(inputs) == Elapsed(inputs[..|inputs| - 1]) + inputs[|inputs| - 1].delta
  {
  }

  /** Up to half a second a held key is silent. */
  lemma {:induction false} SilentAtFirst(isPower: bool, inputs: seq<Input>)
    requires AllPressed(inputs) && Elapsed(inputs) < 500_000_000
    ensures Run(JustPressed(), isPower, inputs) == (Context(Elapsed(inputs), Pressed, false, false), [])
    decreases |inputs|
  {
    if inputs != [] {
      hide Update;
      var m := |inputs| - 1;
      LastPressed(inputs);
      SilentAtFirst(isPower, inputs[..m]);
      SilentStep(Elapsed(inputs[..m]), isPower, inputs[m]);
      NextRun(JustPressed(), isPower, inputs, [], []);
    }
  }

  lemma SilentStep(elapsed: nat, isPower: bool, i: Input)
    requires i.isPressed && elapsed + i.delta < 500_000_000
    ensures Update(Context(elapsed, Pressed, false, false), isPower, i)
         == (Context(elapsed + i.delta, Pressed, false, false), [])
  {
  }

  lemma NextRun(c: Context, isPower: bool, inputs: seq<Input>, before: seq<Event>, now: seq<Event>)
    requires inputs != [] && Run(c, isPower, inputs[..|inputs| - 1]).1 == before
    requires Update(Run(c, isPower, inputs[..|inputs| - 1]).0, isPower, inputs[|inputs| - 1]).1 == now
    ensures Run(c, isPower, inputs).1 == before + now
    ensures before == [] ==> before + now == now
    ensures now == [] ==> before + now == before
  {
    hide Update;
  }

  /** A key let go within half a second pushes its own event, once, and is released with the update after that. */
  lemma ShortPress(isPower: bool, inputs: seq<Input>, release: Input, next: Input)
    requires AllPressed(inputs) && Elapsed(inputs) < 500_000_000 && !release.isPressed
    ensures Run(JustPressed(), isPower, inputs + [release]).1 == [Own]
    ensures Run(JustPressed(), isPower, inputs + [release] + [next]) == (Context(0, Released, false, false), [Own])
  {
    hide Elapsed, Update;
    SilentAtFirst(isPower, inputs);
    var one := inputs + [release];
    var two := one + [next];
    assert one[..|one| - 1] == inputs && two[..|two| - 1] == one;
    LetGo(Context(Elapsed(inputs), Pressed, false, false), isPower, release, next);
    NextRun(JustPressed(), isPower, one, [], [Own]);
    NextRun(JustPressed(), isPower, two, [Own], []);
  }

  lemma LetGo(c: Context, isPower: bool, release: Input, next: Input)
    requires c.state == Pressed && !c.repeating && !c.longpress && !release.isPressed
    ensures var (d, events) := Update(c, isPower, release);
            events == [Own] && Update(d, isPower, next) == (Context(0, Released, false, false), [])
  {
  }

  /** What the power key reports after half a second: the combination with volume down first, then with volume up,
      then the long press alone. */
  function PowerEvent(i: Input): Event {
    match (i.down, i.up)
    case (true, _) => PowerDown
    case (false, true) => PowerUp
    case (false, false) => PowerLongpress
  }

  /** The power key reports with the first update that is half a second late or later, and then no more. */
  lemma {:induction false} PowerLongPress(inputs: seq<Input>, n: nat)
    requires AllPressed(inputs) && n < |inputs| && Elapsed(inputs) < 0x1_0000_0000_0000_0000
    requires Elapsed(inputs[..n]) < 500_000_000 <= Elapsed(inputs[..n + 1])
    ensures Run(JustPressed(), true, inputs)
         == (Context(Elapsed(inputs), Pressed, false, true), [PowerEvent(inputs[n])])
    decreases |inputs|
  {
    hide Update;
    var m := |inputs| - 1;
    LastPressed(inputs);
    if n == m {
      SilentAtFirst(true, inputs[..m]);
      assert inputs[..n + 1] == inputs;
    } else {
      assert inputs[..m][..n] == inputs[..n] && inputs[..m][..n + 1] == inputs[..n + 1];
      PowerLongPress(inputs[..m], n);
    }
    PowerStep(Elapsed(inputs[..m]), n < m, inputs[m]);
    NextRun(JustPressed(), true, inputs, if n < m then [PowerEvent(inputs[n])] else [],
            if n < m then [] else [PowerEvent(inputs[m])]);
  }

  lemma PowerStep(elapsed: nat, reported: bool, i: Input)
    requires i.isPressed && elapsed + i.delta < 0x1_0000_0000_0000_0000
    requires !reported ==> elapsed + i.delta >= 500_000_000
    ensures Update(Context(elapsed, Pressed, false, reported), true, i)
         == (Context(elapsed + i.delta, Pressed, false, true), if reported then [] else [PowerEvent(i)])
  {
  }

  /** Another key pushes only its own event. */
  lemma {:induction false} OnlyOwnEvents(inputs: seq<Input>)
    ensures forall e :: e in Run(JustPressed(), false, inputs).1 ==> e == Own
    decreases |inputs|
  {
    if inputs != [] { OnlyOwnEvents(inputs[..|inputs| - 1]); }
  }

  /** A key that is held while the power key is held belongs to the combination and stays silent. */
  lemma {:induction false} SilentWithPower(inputs: seq<Input>)
    requires AllPressed(inputs) && forall n :: 0 <= n < |inputs| ==> inputs[n].power
    ensures var (c, events) := Run(JustPressed(), false, inputs);
            events == [] && c.state == Pressed && !c.repeating
    decreases |inputs|
  {
    if inputs != [] {
      LastPressed(inputs);
      SilentWithPower(inputs[..|inputs| - 1]);
    }
  }

  /** What is known of a held key after `elapsed` and k events, with updates at most g apart. */
  predicate Held(c: Context, elapsed: nat, k: nat, g: nat) {
    && c.state == Pressed
    && if k == 0 then !c.longpress && !c.repeating && c.time == elapsed < 500_000_000
       else c.repeating && c.longpress && c.time < 200_000_000
            && elapsed <= 500_000_000 + g + (k - 1) * (200_000_000 + g) + c.time
  }

  lemma HeldStep(c: Context, i: Input, elapsed: nat, k: nat, g: nat)
    requires Held(c, elapsed, k, g) && i.isPressed && !i.power && i.delta <= g < 0x1_0000_0000
    ensures var (d, events) := Update(c, false, i); Held(d, elapsed + i.delta, k + |events|, g)
  {
    assert k * (200_000_000 + g) == (k - 1) * (200_000_000 + g) + (200_000_000 + g);
  }

  /** A key that is held alone repeats: with updates at most g apart, k events cover the time up to half a second and
      200 ms for each repeat, and g for each of them. */
  lemma {:induction false} HeldKeyRepeats(inputs: seq<Input>, g: nat)
    requires AllPressed(inputs) && g < 0x1_0000_0000
    requires forall n :: 0 <= n < |inputs| ==> !inputs[n].power && inputs[n].delta <= g
    ensures var (c, events) := Run(JustPressed(), false, inputs); Held(c, Elapsed(inputs), |events|, g)
    decreases |inputs|
  {
    hide Update, Held;
    if inputs != [] {
      var m := |inputs| - 1;
      LastPressed(inputs);
      HeldKeyRepeats(inputs[..m], g);
      var before := Run(JustPressed(), false, inputs[..m]);
      HeldStep(before.0, inputs[m], Elapsed(inputs[..m]), |before.1|, g);
    } else {
      HeldAtFirst(g);
    }
  }

  lemma HeldAtFirst(g: nat)
    ensures Held(JustPressed(), 0, 0, g)
  {
  }

  /** After a long press a key is released only when it has been up for 10 ms since the last event. */
  lemma ReleaseAfterLongPress(c: Context, isPower: bool, i: Input)
    requires c.state == Pressed && c.longpress && !i.isPressed && c.time + i.delta < 0x1_0000_0000_0000_0000
    ensures var (d, events) := Update(c, isPower, i);
            && events == []
            && (d.state == Released <==> c.time + i.delta >= 10_000_000)
            && (d.state != Released ==> d == c.(time := c.time + i.delta))
  {
  }

  // ----- the context that is updated in place

  class KeyContext {
    const isPower: bool
    var time: nat
    var state: KeyState
    var repeating: bool
    var longpress: bool
    ghost var pushed: seq<Event>

    ghost function State(): Context
      reads this
    {
      Context(time, state, repeating, longpress)
    }

    constructor (isPower: bool)
      ensures this.isPower == isPower && State() == Initial() && pushed == []
    {
      this.isPower := isPower;
      time, state, repeating, longpress, pushed := 0, Released, false, false, [];
    }

    method Push(e: Event)
      modifies this`pushed
      ensures pushed == old(pushed) + [e]
    {
      pushed := pushed + [e];
    }

    method UpdateKeyStatus(i: Input)
      modifies this
      ensures State() == Update(old(State()), isPower, i).0
      ensures pushed == old(pushed) + Update(old(State()), isPower, i).1
    {
      time := (time + i.delta) % 0x1_0000_0000_0000_0000;
      match state
      case Released =>
        if i.isPressed { time, state := 0, Pressed; }
      case Pressed =>
        if i.isPressed {
          if repeating && time >= 200_000_000 {
            Push(Own);
            time, repeating := 0, true;
          } else if !longpress && time >= 500_000_000 {
            if isPower {
              if i.down { Push(PowerDown); } else if i.up { Push(PowerUp); } else { Push(PowerLongpress); }
            } else if !i.power {
              Push(Own);
              time, repeating := 0, true;
            }
            longpress := true;
          }
        } else if !longpress {
          Push(Own);
          state := LongpressRelease;
        } else if time >= 10_000_000 {
          time, repeating, longpress, state := 0, false, false, Released;
        }
      case LongpressRelease =>
        time, repeating, longpress, state := 0, false, false, Released;
    }
  }
}
