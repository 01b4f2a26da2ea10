/** The key queue of KeypadTextIn.c: a ring of slots that drops the oldest key when it is full, and the
    reader that skips partial keys. */
module KeyQueue {

  datatype KeyData = KeyData(scanCode: nat, unicodeChar: nat, shiftState: bv32)

  datatype Status = Success | NotReady | DeviceError

  // ----- a bounded sequence

  /** A push onto a queue of at most `room` keys. */
  function Pushed(q: seq<KeyData>, k: KeyData, room: nat): (r: seq<KeyData>)
    requires |q| <= room
    ensures |r| <= room
  {
    if |q| < room then q + [k] else if room == 0 then [] else q[1..] + [k]
  }

  datatype Op = Push(key: KeyData) | Pop

  /** The queue after the operations, and the keys that were popped. */
  function Run(ops: seq<Op>, room: nat): (r: (seq<KeyData>, seq<KeyData>))
    ensures |r.0| <= room
    decreases |ops|
  {
    if ops == [] then ([], [])
    else
      var (q, popped) := Run(ops[..|ops| - 1], room);
      match ops[|ops| - 1]
      case Push(k) => (Pushed(q, k, room), popped)
      case Pop => if q == [] then (q, popped) else (q[1..], popped + [q[0]])
  }

  /** The keys pushed so far. */
  function AllPushed(ops: seq<Op>): seq<KeyData>
    decreases |ops|
  {
    if ops == [] then []
    else
      var before := AllPushed(ops[..|ops| - 1]);
      match ops[|ops| - 1]
      case Push(k) => before + [k]
      case Pop => before
  }

  /** Which pushes are waiting, from `first` on, and which were popped. */
  datatype Account = Account(first: nat, taken: seq<nat>)

  function Accounts(ops: seq<Op>, room: nat): Account
    decreases |ops|
  {
    if ops == [] then Account(0, [])
    else
      var a, pushes := Accounts(ops[..|ops| - 1], room), |AllPushed(ops[..|ops| - 1])|;
      match ops[|ops| - 1]
      case Push(_) => if pushes < a.first + room then a else a.(first := a.first + 1)
      case Pop => if a.first == pushes then a else Account(a.first + 1, a.taken + [a.first])
  }

  /** The account explains the run: the queue is the latest pushes, what was popped was pushed, in order, and
      a key that was neither popped nor waiting has at least `room` newer pushes. */
  ghost predicate Explains(a: Account, pushed: seq<KeyData>, q: seq<KeyData>, popped: seq<KeyData>, room: nat) {
    && a.first <= |pushed| && q == pushed[a.first..] && |q| <= room
    && |a.taken| == |popped|
    && (forall i :: 0 <= i < |popped| ==> a.taken[i] < a.first && popped[i] == pushed[a.taken[i]])
    && (forall i, j :: 0 <= i < j < |popped| ==> a.taken[i] < a.taken[j])
    && (forall i | 0 <= i < a.first && i !in a.taken :: |pushed| > i + room)
  }

  lemma PushExplained(a: Account, pushed: seq<KeyData>, q: seq<KeyData>, popped: seq<KeyData>, room: nat, k: KeyData)
    requires Explains(a, pushed, q, popped, room)
    ensures Explains(if |pushed| < a.first + room then a
                     else a.(first := a.first + 1), pushed + [k], Pushed(q, k, room), popped, room)
  {
    var b := if |pushed| < a.first + room then a else a.(first := a.first + 1);
    assert (pushed + [k])[b.first..] == Pushed(q, k, room);
  }

  lemma PopExplained(a: Account, pushed: seq<KeyData>, q: seq<KeyData>, popped: seq<KeyData>, room: nat)
    requires Explains(a, pushed, q, popped, room) && q != []
    ensures Explains(Account(a.first + 1, a.taken + [a.first]), pushed, q[1..], popped + [q[0]], room)
  {
    var b := Account(a.first + 1, a.taken + [a.first]);
    assert q[0] == pushed[a.first];
    forall i | 0 <= i < b.first && i !in b.taken ensures |pushed| > i + room {
      assert b.taken[|a.taken|] == a.first;
      assert i in a.taken ==> i in b.taken;
    }
  }

  /** Over every run of pushes and pops, dropping is the only loss, and it takes `room` newer pushes. */
  lemma {:induction false} EveryRunIsExplained(ops: seq<Op>, room: nat)
    ensures Explains(Accounts(ops, room), AllPushed(ops), Run(ops, room).0, Run(ops, room).1, room)
    decreases |ops|
  {
    hide Explains, Pushed;
    if ops == [] {
      NothingYet(room);
    } else {
      var before := ops[..|ops| - 1];
      EveryRunIsExplained(before, room);
      var a, pushed := Accounts(before, room), AllPushed(before);
      var (q, popped) := Run(before, room);
      Length(a, pushed, q, popped, room);
      match ops[|ops| - 1] {
        case Push(k) => PushExplained(a, pushed, q, popped, room, k);
        case Pop => if q != [] { PopExplained(a, pushed, q, popped, room); }
      }
    }
  }

  lemma NothingYet(room: nat)
    ensures Explains(Account(0, []), [], [], [], room)
  {
  }

  lemma Length(a: Account, pushed: seq<KeyData>, q: seq<KeyData>, popped: seq<KeyData>, room: nat)
    requires Explains(a, pushed, q, popped, room)
    ensures a.first + |q| == |pushed|
  {
  }

  // ----- reading

  /** SCAN_NULL and CHAR_NULL: a modifier alone. */
  predicate Partial(k: KeyData) { k.scanCode == 0 && k.unicodeChar == 0 }

  /** Ctrl with a letter becomes the control character 1 to 26. */
  function Translate(k: KeyData): KeyData {
    if k.shiftState & 0xC == 0 then k
    else if 'a' as nat <= k.unicodeChar <= 'z' as nat then k.(unicodeChar := k.unicodeChar - 'a' as nat + 1)
    else if 'A' as nat <= k.unicodeChar <= 'Z' as nat then k.(unicodeChar := k.unicodeChar - 'A' as nat + 1)
    else k
  }

  function PushedAll(q: seq<KeyData>, keys: seq<KeyData>, room: nat): (r: seq<KeyData>)
    requires |q| <= room
    ensures |r| <= room
    decreases |keys|
  {
    if keys == [] then q else PushedAll(Pushed(q, keys[0], room), keys[1..], room)
  }

  /** Reading one key while the timer handler pushes more: before each look at the queue it delivers the
      next batch. */
  function Read(q: seq<KeyData>, batches: seq<seq<KeyData>>, room: nat): (seq<KeyData>, Status, seq<KeyData>)
    requires |q| <= room
    decreases |batches|, |q|
  {
    var now := if batches == [] then q else PushedAll(q, batches[0], room);
    var rest := if batches == [] then [] else batches[1..];
    if now == [] then ([], NotReady, [])
    else if Partial(now[0]) then Read(now[1..], rest, room)
    else (now[1..], Success, [Translate(now[0])])
  }

  /** Where the first whole key is. */
  function FirstWhole(q: seq<KeyData>): (n: nat)
    ensures n <= |q| && (forall i :: 0 <= i < n ==> Partial(q[i])) && (n < |q| ==> !Partial(q[n]))
  {
    if q == [] || !Partial(q[0]) then 0 else 1 + FirstWhole(q[1..])
  }

  /** A key is partial without scan code and character.  A control key, left (bit 3) or right (bit 2), turns the
      letters of either case into 1 to 26; every other key is delivered as it is. */
  lemma KeysDelivered(k: KeyData)
    ensures Partial(k) <==> k.scanCode == 0 && k.unicodeChar == 0
    ensures Translate(k).scanCode == k.scanCode && Translate(k).shiftState == k.shiftState
    ensures k.shiftState & 0x4 == 0 && k.shiftState & 0x8 == 0 ==> Translate(k) == k
    ensures k.shiftState & 0x4 != 0 || k.shiftState & 0x8 != 0 ==>
              Translate(k).unicodeChar == if 97 <= k.unicodeChar <= 122 then k.unicodeChar - 96
                                          else if 65 <= k.unicodeChar <= 90 then k.unicodeChar - 64
                                          else k.unicodeChar
  {
    ControlBits(k.shiftState);
  }

  lemma ControlBits(s: bv32)
    ensures s & 0xC == 0 <==> s & 0x4 == 0 && s & 0x8 == 0
  {
  }

  function Flat(batches: seq<seq<KeyData>>): seq<KeyData> {
    if batches == [] then [] else batches[0] + Flat(batches[1..])
  }

  lemma {:induction false} PushesFit(q: seq<KeyData>, keys: seq<KeyData>, room: nat)
    requires |q| + |keys| <= room
    ensures PushedAll(q, keys, room) == q + keys
    decreases |keys|
  {
    if keys != [] {
      PushesFit(q + [keys[0]], keys[1..], room);
      assert q + [keys[0]] + keys[1..] == q + keys;
    } else {
      assert q + [] == q;
    }
  }

  /** A read looked at `looks` batches, skipped partial keys, and took the first whole key if there was one. */
  ghost predicate ReadTook(q: seq<KeyData>, batches: seq<seq<KeyData>>, room: nat, looks: nat, skipped: seq<KeyData>,
                           key: seq<KeyData>)
    requires |q| <= room
  {
    var (after, status, got) := Read(q, batches, room);
    && looks <= |batches| && looks == (if |batches| <= |skipped| then |batches| else |skipped| + 1)
    && (forall i :: 0 <= i < |skipped| ==> Partial(skipped[i]))
    && q + Flat(batches[..looks]) == skipped + key + after
    && (if status == Success then |key| == 1 && !Partial(key[0]) && got == [Translate(key[0])]
        else status == NotReady && key == [] && after == [] && got == [])
  }

  /** Whatever is pushed meanwhile, as long as there is room: before every look the next batch comes in, partial keys
      are skipped one by one, the first whole key is delivered, and everything behind it stays. */
  lemma {:induction false} ReadConserves(q: seq<KeyData>, batches: seq<seq<KeyData>>, room: nat)
    returns (looks: nat, skipped: seq<KeyData>, key: seq<KeyData>)
    requires |q| + |Flat(batches)| <= room
    ensures ReadTook(q, batches, room, looks, skipped, key)
    decreases |batches|, |q|
  {
    hide Translate, Partial, Flat, Read, ReadTook;
    var now, rest := NextLook(q, batches, room);
    if now != [] && Partial(now[0]) {
      looks, skipped, key := ReadConserves(now[1..], rest, room);
      OneMoreSkipped(q, batches, room, looks, skipped, key);
      looks, skipped := if batches == [] then 0 else looks + 1, [now[0]] + skipped;
    } else {
      looks, skipped := if batches == [] then 0 else 1, [];
      key := if now == [] then [] else [now[0]];
      LastLook(q, batches, room);
    }
  }

  /** What a look finds in the queue, and what is still to come. */
  lemma NextLook(q: seq<KeyData>, batches: seq<seq<KeyData>>, room: nat)
    returns (now: seq<KeyData>, rest: seq<seq<KeyData>>)
    requires |q| + |Flat(batches)| <= room
    ensures now == q + (if batches == [] then [] else batches[0]) && rest == if batches == [] then [] else batches[1..]
    ensures |now| + |Flat(rest)| <= room && (batches == [] ==> now == q)
    ensures batches != [] ==> PushedAll(q, batches[0], room) == now
  {
    hide PushedAll;
    now, rest := q + (if batches == [] then [] else batches[0]), if batches == [] then [] else batches[1..];
    if batches != [] { PushesFit(q, batches[0], room); }
  }

  lemma LastLook(q: seq<KeyData>, batches: seq<seq<KeyData>>, room: nat)
    requires |q| + |Flat(batches)| <= room
    requires var now := q + (if batches == [] then [] else batches[0]);
             now == [] || !Partial(now[0])
    ensures var now := q + (if batches == [] then [] else batches[0]);
            ReadTook(q, batches, room, if batches == [] then 0 else 1, [], if now == [] then [] else [now[0]])
  {
    hide Translate, Partial, PushedAll;
    var now, rest := NextLook(q, batches, room);
    FlatSplit(batches, 0);
    assert batches != [] ==> batches[1..][..0] == [];
    assert now != [] ==> [now[0]] + now[1..] == now;
  }

  lemma OneMoreSkipped(q: seq<KeyData>, batches: seq<seq<KeyData>>, room: nat, looks: nat, skipped: seq<KeyData>,
                       key: seq<KeyData>)
    requires |q| + |Flat(batches)| <= room
    requires var now := q + (if batches == [] then [] else batches[0]);
             && now != [] && Partial(now[0]) && |now| <= room
             && ReadTook(now[1..], if batches == [] then [] else batches[1..], room, looks, skipped, key)
    ensures var now := q + (if batches == [] then [] else batches[0]);
            ReadTook(q, batches, room, if batches == [] then 0 else looks + 1, [now[0]] + skipped, key)
  {
    hide Translate, Partial, PushedAll, Flat, Read;
    var now, rest := NextLook(q, batches, room);
    var m := if batches == [] then 0 else looks + 1;
    SkippedRead(q, batches, room);
    FlatSplit(batches, looks);
    var first, later := if batches == [] then [] else batches[0], Flat(rest[..looks]);
    var after := Read(q, batches, room).0;
    assert [now[0]] + now[1..] == now;
    Regroup(q, first, later, [now[0]], now[1..]);
    assert first + later == Flat(batches[..m]);
    assert [now[0]] + (skipped + key + after) == [now[0]] + skipped + key + after;
  }

  /** A look that finds a partial key skips it and goes on. */
  lemma SkippedRead(q: seq<KeyData>, batches: seq<seq<KeyData>>, room: nat)
    requires |q| + |Flat(batches)| <= room
    requires var now := q + (if batches == [] then [] else batches[0]);
             now != [] && Partial(now[0]) && |now| <= room
    ensures var now := q + (if batches == [] then [] else batches[0]);
            Read(q, batches, room) == Read(now[1..], if batches == [] then [] else batches[1..], room)
  {
    hide Translate, Partial, PushedAll, Flat;
    var now, rest := NextLook(q, batches, room);
  }

  lemma Regroup(q: seq<KeyData>, first: seq<KeyData>, later: seq<KeyData>, head: seq<KeyData>, tail: seq<KeyData>)
    requires q + first == head + tail
    ensures q + (first + later) == head + (tail + later)
  {
    assert q + (first + later) == (q + first) + later;
  }

  lemma FlatSplit(batches: seq<seq<KeyData>>, m: nat)
    requires m < |batches| || batches == []
    ensures batches == [] ==> m > 0 || batches[..m] == []
    ensures batches != [] ==> Flat(batches[..m + 1]) == batches[0] + Flat(batches[1..][..m])
  {
    if batches != [] { assert batches[..m + 1][1..] == batches[1..][..m]; }
  }

  /** With nothing pushed meanwhile, exactly the keys up to the first whole one are consumed. */
  lemma {:induction false} ReadTakesFirstWholeKey(q: seq<KeyData>, room: nat)
    requires |q| <= room
    ensures var n := FirstWhole(q);
            Read(q, [], room) == if n == |q| then ([], NotReady, []) else (q[n + 1..], Success, [Translate(q[n])])
  {
    if q != [] && Partial(q[0]) {
      ReadTakesFirstWholeKey(q[1..], room);
      var n := FirstWhole(q[1..]);
      if n < |q[1..]| {
        assert q[1..][n] == q[n + 1] && q[1..][n + 1..] == q[n + 2..];
      }
    }
  }

  /** Translated keys: a control letter, whichever case it had, becomes the same character. */
  lemma ControlLettersAgree(k: KeyData, letter: nat)
    requires k.shiftState & 0xC != 0 && letter < 26
    ensures Translate(k.(unicodeChar := 'a' as nat + letter)) == Translate(k.(unicodeChar := 'A' as nat + letter))
    ensures Translate(k.(unicodeChar := 'a' as nat + letter)).unicodeChar == letter + 1
  {
  }

  // ----- the ring

  /** The slot after i. */
  function NextSlot(i: nat, slots: nat): nat
    requires i < slots
  {
    (i + 1) % slots
  }

  lemma NextSlotWraps(i: nat, slots: nat)
    requires i < slots
    ensures NextSlot(i, slots) == if i + 1 == slots then 0 else i + 1
  {
    if i + 1 == slots { assert (i + 1) % slots == 0; } else { assert (i + 1) % slots == i + 1; }
  }

  /** The keys between two positions of a ring. */
  function Between(ring: seq<KeyData>, head: nat, tail: nat): (q: seq<KeyData>)
    requires head < |ring| && tail < |ring|
    ensures |q| == if head <= tail then tail - head else |ring| - head + tail
  {
    if head <= tail then ring[head..tail] else ring[head..] + ring[..tail]
  }

  lemma BetweenAfterPop(ring: seq<KeyData>, head: nat, tail: nat)
    requires head < |ring| && tail < |ring| && head != tail
    ensures NextSlot(head, |ring|) < |ring|
    ensures Between(ring, head, tail)[0] == ring[head]
    ensures Between(ring, NextSlot(head, |ring|), tail) == Between(ring, head, tail)[1..]
  {
    hide NextSlot;
    NextSlotWraps(head, |ring|);
  }

  lemma BetweenAfterPush(ring: seq<KeyData>, head: nat, tail: nat, key: KeyData)
    requires head < |ring| && tail < |ring|
    ensures NextSlot(tail, |ring|) < |ring|
    ensures NextSlot(tail, |ring|) == head <==> |Between(ring, head, tail)| == |ring| - 1
    ensures NextSlot(tail, |ring|) != head ==>
              Between(ring[tail := key], head, NextSlot(tail, |ring|)) == Between(ring, head, tail) + [key]
    ensures |ring| == 1 ==> Between(ring[tail := key], head, NextSlot(tail, |ring|)) == []
  {
    hide NextSlot;
    NextSlotWraps(tail, |ring|);
  }

  class EfiKeyQueue {
    const buffer: array<KeyData>
    var head: nat
    var tail: nat

    ghost predicate Valid()
      reads this
    {
      head < buffer.Length && tail < buffer.Length
    }

    /** The keys from head to tail. */
    ghost function Contents(): (q: seq<KeyData>)
      requires Valid()
      reads this, buffer
      ensures |q| <= buffer.Length - 1
    {
      Between(buffer[..], head, tail)
    }

    constructor (slots: nat, blank: KeyData)
      requires slots > 0
      ensures Valid() && Contents() == [] && buffer.Length == slots && fresh(buffer)
    {
      buffer := new KeyData[slots](_ => blank);
      head, tail := 0, 0;
    }

    predicate IsEmpty()
      requires Valid()
      reads this, buffer
      ensures IsEmpty() <==> Contents() == []
    {
      head == tail
    }

    method PopHead() returns (status: Status, key: KeyData)
      requires Valid()
      modifies this`head
      ensures Valid()
      ensures status == (if old(Contents()) == [] then NotReady else Success)
      ensures old(Contents()) != [] ==> key == old(Contents())[0] && Contents() == old(Contents())[1..]
      ensures old(Contents()) == [] ==> Contents() == []
    {
      hide NextSlot, Between;
      key := buffer[head];
      if IsEmpty() { return NotReady, key; }
      BetweenAfterPop(buffer[..], head, tail);
      head := NextSlot(head, buffer.Length);
      return Success, key;
    }

    method PushTail(key: KeyData)
      requires Valid()
      modifies this`head, this`tail, buffer
      ensures Valid() && Contents() == Pushed(old(Contents()), key, buffer.Length - 1)
    {
      hide NextSlot, Between;
      BetweenAfterPush(buffer[..], head, tail, key);
      if NextSlot(tail, buffer.Length) == head {
        var _, _ := PopHead();
        BetweenAfterPush(buffer[..], head, tail, key);
      }
      ghost var ring := buffer[..];
      buffer[tail] := key;
      assert buffer[..] == ring[tail := key];
      tail := NextSlot(tail, buffer.Length);
    }

    /** The timer handler delivers a batch. */
    method Deliver(keys: seq<KeyData>)
      requires Valid()
      modifies this`head, this`tail, buffer
      ensures Valid() && Contents() == PushedAll(old(Contents()), keys, buffer.Length - 1)
    {
      var rest := keys;
      while rest != []
        invariant Valid()
        invariant PushedAll(Contents(), rest, buffer.Length - 1) == PushedAll(old(Contents()), keys, buffer.Length - 1)
        decreases |rest|
      {
        PushTail(rest[0]);
        rest := rest[1..];
      }
    }

    /** KeypadReadKeyStrokeWorker */
    method ReadWorker(keypadErr: bool, batch: seq<KeyData>) returns (status: Status, key: KeyData)
      requires Valid()
      modifies this`head, this`tail, buffer
      ensures Valid()
      ensures var q := PushedAll(old(Contents()), batch, buffer.Length - 1);
              && (status == if keypadErr then DeviceError else if q == [] then NotReady else Success)
              && Contents() == (if status == Success then q[1..] else q)
              && (status == Success ==> key == q[0])
    {
      Deliver(batch);
      if keypadErr { return DeviceError, buffer[head]; }
      status, key := PopHead();
    }

    /** KeypadReadKeyStroke, with the batches the timer handler delivers on the way. */
    method ReadKeyStroke(keypadErr: bool, batches: seq<seq<KeyData>>) returns (status: Status, key: KeyData)
      requires Valid()
      modifies this`head, this`tail, buffer
      ensures Valid() && (keypadErr ==> status == DeviceError)
      ensures !keypadErr ==>
                var (q, s, keys) := Read(old(Contents()), batches, buffer.Length - 1);
                Contents() == q && status == s && (s == Success ==> keys == [key])
    {
      var rest := batches;
      while true
        invariant Valid()
        invariant !keypadErr ==>
                    Read(Contents(), rest, buffer.Length - 1) == Read(old(Contents()), batches, buffer.Length - 1)
        decreases |rest|, |Contents()|
      {
        status, key := ReadWorker(keypadErr, if rest == [] then [] else rest[0]);
        if status != Success { return; }
        rest := if rest == [] then [] else rest[1..];
        if key.scanCode == 0 && key.unicodeChar == 0 { continue; }
        key := Translate(key);
        return;
      }
    }
  }
}
