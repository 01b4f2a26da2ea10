/** The reference-counted clock tree of clock.c: recursive enable with rollback, recursive disable.

    `EnableSpec` and `DisableSpec` say what a call does to the counts; the two methods are proved to
    do that to the counts and to switch the hardware one clock at a time without ever leaving a
    running clock below a stopped one.  The lemmas are about whole runs of such calls. */
module ClockTree {

  class Clk {
    /** What `ops->get_parent` answers; the tree is static. */
    const parent: Clk?
    /** Whether `ops` has an enable and a disable entry. */
    const gated: bool
    /** Distance from the root, which bounds the recursion. */
    ghost const depth: nat

    var count: nat
    /** The state of the hardware switch. */
    var on: bool

    constructor (parent: Clk?, gated: bool)
      ensures this.parent == parent && this.gated == gated && count == 0 && !on
      ensures depth == if parent == null then 0 else parent.depth + 1
    {
      this.parent, this.gated, this.depth := parent, gated, if parent == null then 0 else parent.depth + 1;
      count, on := 0, false;
    }
  }

  /** A set of clocks closed under the parent link, in which parents are nearer to the root. */
  ghost predicate Tree(S: set<Clk>) {
    forall c {:trigger c.parent} | c in S && c.parent != null :: c.parent in S && c.parent.depth < c.depth
  }

  ghost function Live(cnt: map<Clk, nat>): set<Clk> {
    set c | c in cnt && cnt[c] > 0
  }

  ghost function Kids(c: Clk, among: set<Clk>): set<Clk> {
    set k | k in among && k.parent == c
  }

  /** Every count is the number of outside users plus the number of direct children in use. */
  ghost predicate Balanced(cnt: map<Clk, nat>, ext: map<Clk, nat>) {
    && cnt.Keys == ext.Keys
    && forall c <- cnt :: cnt[c] == ext[c] + |Kids(c, Live(cnt))|
  }

  // ----- what one call does to the counts

  ghost function EnableSpec(c: Clk, cnt: map<Clk, nat>): (r: map<Clk, nat>)
    requires Tree(cnt.Keys) && c in cnt
    ensures r.Keys == cnt.Keys
    ensures r[c] == cnt[c] + 1
    ensures forall x <- cnt :: x != c && x.depth >= c.depth ==> r[x] == cnt[x]
    decreases c.depth
  {
    if cnt[c] > 0 then cnt[c := cnt[c] + 1]
    else if c.parent == null then cnt[c := 1]
    else EnableSpec(c.parent, cnt)[c := 1]
  }

  ghost function DisableSpec(c: Clk, cnt: map<Clk, nat>): (r: map<Clk, nat>)
    requires Tree(cnt.Keys) && c in cnt
    ensures r.Keys == cnt.Keys
    ensures r[c] == if cnt[c] == 0 then 0 else cnt[c] - 1
    ensures forall x <- cnt :: x != c && x.depth >= c.depth ==> r[x] == cnt[x]
    decreases c.depth
  {
    if cnt[c] == 0 then cnt
    else if cnt[c] > 1 then cnt[c := cnt[c] - 1]
    else if c.parent == null then cnt[c := 0]
    else DisableSpec(c.parent, cnt)[c := 0]
  }

  // ----- inverse laws

  /** Disabling a clock neither reads nor writes clocks that lie deeper. */
  lemma {:induction false} DisableIsLocal(c: Clk, cnt: map<Clk, nat>, d: Clk, v: nat)
    requires Tree(cnt.Keys) && c in cnt && d in cnt && c.depth < d.depth
    ensures DisableSpec(c, cnt[d := v]) == DisableSpec(c, cnt)[d := v]
    decreases c.depth
  {
    if c.parent != null && cnt[c] == 1 {
      DisableIsLocal(c.parent, cnt, d, v);
    }
  }

  lemma {:induction false} EnableIsLocal(c: Clk, cnt: map<Clk, nat>, d: Clk, v: nat)
    requires Tree(cnt.Keys) && c in cnt && d in cnt && c.depth < d.depth
    ensures EnableSpec(c, cnt[d := v]) == EnableSpec(c, cnt)[d := v]
    decreases c.depth
  {
    if c.parent != null && cnt[c] == 0 {
      EnableIsLocal(c.parent, cnt, d, v);
    }
  }

  /** Enable, then disable, is the identity on all counts. */
  lemma {:induction false} DisableUndoesEnable(c: Clk, cnt: map<Clk, nat>)
    requires Tree(cnt.Keys) && c in cnt
    ensures DisableSpec(c, EnableSpec(c, cnt)) == cnt
    decreases c.depth
  {
    if cnt[c] == 0 && c.parent != null {
      DisableUndoesEnable(c.parent, cnt);
      DisableIsLocal(c.parent, EnableSpec(c.parent, cnt), c, 1);
    }
  }

  /** Disable, then enable, is the identity too when every used clock has a used parent. */
  lemma {:induction false} EnableUndoesDisable(c: Clk, cnt: map<Clk, nat>)
    requires Tree(cnt.Keys) && c in cnt && cnt[c] > 0
    requires forall x <- cnt :: x.parent != null && cnt[x] > 0 ==> cnt[x.parent] > 0
    ensures EnableSpec(c, DisableSpec(c, cnt)) == cnt
    decreases c.depth
  {
    if cnt[c] == 1 && c.parent != null {
      EnableUndoesDisable(c.parent, cnt);
      EnableIsLocal(c.parent, DisableSpec(c.parent, cnt), c, 0);
    }
  }

  // ----- the counting invariant

  lemma KidsGain(x: Clk, live: set<Clk>, c: Clk)
    requires c !in live
    ensures |Kids(x, live + {c})| == |Kids(x, live)| + (if c.parent == x then 1 else 0)
  {
    if c.parent == x {
      assert Kids(x, live + {c}) == Kids(x, live) + {c};
    } else {
      assert Kids(x, live + {c}) == Kids(x, live);
    }
  }

  /** How many references on x a child c holds when it is in use. */
  ghost function Held(x: Clk, c: Clk): nat {
    if c.parent == x then 1 else 0
  }

  /** `Balanced`, with child c still (or again) holding a reference while its own count is zero. */
  ghost predicate BalancedWith(cnt: map<Clk, nat>, ext: map<Clk, nat>, c: Clk) {
    && cnt.Keys == ext.Keys
    && forall x <- cnt :: cnt[x] == ext[x] + Held(x, c) + |Kids(x, Live(cnt))|
  }

  lemma LiveGain(cnt: map<Clk, nat>, c: Clk)
    requires c in cnt && cnt[c] == 0
    ensures c !in Live(cnt) && Live(cnt[c := 1]) == Live(cnt) + {c}
  {
  }

  lemma Link(cnt: map<Clk, nat>, ext: map<Clk, nat>, c: Clk)
    requires c in cnt && c.parent != c && cnt[c] == 0
    requires BalancedWith(cnt, ext, c)
    ensures Balanced(cnt[c := 1], ext[c := ext[c] + 1])
  {
    hide Live, Kids;
    var after := cnt[c := 1];
    LiveGain(cnt, c);
    forall x | x in cnt
      ensures after[x] == ext[c := ext[c] + 1][x] + |Kids(x, Live(after))|
    {
      KidsGain(x, Live(cnt), c);
    }
  }

  lemma Unlink(cnt: map<Clk, nat>, ext: map<Clk, nat>, c: Clk)
    requires c in cnt && c.parent != c && cnt[c] == 1 && c in ext && ext[c] > 0
    requires Balanced(cnt, ext)
    ensures ext[c] == 1 && BalancedWith(cnt[c := 0], ext[c := 0], c)
  {
    hide Live, Kids;
    var down := cnt[c := 0];
    LiveGain(down, c);
    assert down[c := 1] == cnt;
    forall x | x in cnt
      ensures down[x] == ext[c := 0][x] + Held(x, c) + |Kids(x, Live(down))|
    {
      KidsGain(x, Live(down), c);
    }
  }

  /** The reference held for child c, seen as one more outside user of the parent. */
  lemma HeldAsUser(cnt: map<Clk, nat>, ext: map<Clk, nat>, c: Clk)
    requires cnt.Keys == ext.Keys && (c.parent != null ==> c.parent in ext)
    ensures c.parent == null ==> (BalancedWith(cnt, ext, c) <==> Balanced(cnt, ext))
    ensures c.parent != null ==>
              (BalancedWith(cnt, ext, c) <==> Balanced(cnt, ext[c.parent := ext[c.parent] + 1]))
  {
    if c.parent != null {
      var held := ext[c.parent := ext[c.parent] + 1];
      assert forall x <- cnt :: held[x] == ext[x] + Held(x, c);
    }
  }

  /** A user more or fewer of a clock that stays on. */
  lemma Bump(cnt: map<Clk, nat>, ext: map<Clk, nat>, c: Clk, d: int)
    requires Balanced(cnt, ext) && c in cnt && cnt[c] > 0
    requires cnt[c] + d > 0 && ext[c] + d >= 0
    ensures Balanced(cnt[c := cnt[c] + d], ext[c := ext[c] + d])
  {
    assert Live(cnt[c := cnt[c] + d]) == Live(cnt);
  }

  lemma Rewrite(m: map<Clk, nat>, p: Clk, v: nat)
    requires p in m
    ensures m[p := v][p := m[p]] == m
  {
  }

  /** A successful enable keeps the counting invariant, with one more outside user of that clock. */
  lemma {:induction false} EnableKeepsBalance(c: Clk, cnt: map<Clk, nat>, ext: map<Clk, nat>)
    requires Tree(cnt.Keys) && c in cnt && Balanced(cnt, ext)
    ensures Balanced(EnableSpec(c, cnt), ext[c := ext[c] + 1])
    decreases c.depth
  {
    hide Live, Kids, BalancedWith;
    var p := c.parent;
    if cnt[c] > 0 {
      Bump(cnt, ext, c, 1);
    } else if p == null {
      HeldAsUser(cnt, ext, c);
      Link(cnt, ext, c);
    } else {
      EnableKeepsBalance(p, cnt, ext);
      HeldAsUser(EnableSpec(p, cnt), ext, c);
      Link(EnableSpec(p, cnt), ext, c);
    }
  }

  /** A disable by one of the outside users keeps it, with one user fewer. */
  lemma {:induction false} DisableKeepsBalance(c: Clk, cnt: map<Clk, nat>, ext: map<Clk, nat>)
    requires Tree(cnt.Keys) && c in cnt && Balanced(cnt, ext) && ext[c] > 0
    ensures Balanced(DisableSpec(c, cnt), ext[c := ext[c] - 1])
    decreases c.depth
  {
    hide Live, Kids, BalancedWith, DisableSpec;
    if cnt[c] > 1 {
      Bump(cnt, ext, c, -1);
    } else {
      Unlink(cnt, ext, c);
      var down, less := cnt[c := 0], ext[c := 0];
      HeldAsUser(down, less, c);
      if c.parent != null {
        DisableKeepsBalance(c.parent, down, less[c.parent := less[c.parent] + 1]);
        Rewrite(less, c.parent, less[c.parent] + 1);
      }
    }
    DisableAfter(c, cnt);
  }

  lemma DisableAfter(c: Clk, cnt: map<Clk, nat>)
    requires Tree(cnt.Keys) && c in cnt && cnt[c] > 0
    ensures DisableSpec(c, cnt) ==
            if cnt[c] > 1 then cnt[c := cnt[c] - 1]
            else if c.parent == null then cnt[c := 0]
            else DisableSpec(c.parent, cnt[c := 0])
  {
    if cnt[c] == 1 && c.parent != null {
      DisableIsLocal(c.parent, cnt, c, 0);
    }
  }

  // ----- whole runs of balanced calls

  /** A call by an outside user.  `ok` is what the hardware answers to an enable. */
  datatype Call = Enable(c: Clk, ok: bool) | Disable(c: Clk)

  datatype State = State(cnt: map<Clk, nat>, ext: map<Clk, nat>)

  ghost predicate Possible(call: Call, s: State) {
    && call.c in s.cnt && call.c in s.ext
    && (call.Disable? ==> s.ext[call.c] > 0)
  }

  ghost function Step(call: Call, s: State): State
    requires Tree(s.cnt.Keys) && Possible(call, s)
  {
    match call
    case Enable(c, ok) => if ok then State(EnableSpec(c, s.cnt), s.ext[c := s.ext[c] + 1]) else s
    case Disable(c) => State(DisableSpec(c, s.cnt), s.ext[c := s.ext[c] - 1])
  }

  /** `run` leads from s to t, and every disable in it gives back an earlier enable. */
  ghost predicate Runs(run: seq<Call>, s: State, t: State)
    requires Tree(s.cnt.Keys)
    decreases |run|
  {
    if run == [] then s == t
    else Possible(run[0], s) && Runs(run[1..], Step(run[0], s), t)
  }

  ghost function Outstanding(run: seq<Call>, c: Clk): int {
    if run == [] then 0
    else Outstanding(run[1..], c) +
         (if run[0].c != c then 0 else match run[0] case Enable(_, ok) => (if ok then 1 else 0) case Disable(_) => -1)
  }

  /** In every state a balanced run reaches, the counts are the outside users (successful enables less
      disables) plus the children in use. */
  lemma {:induction false} RunsStayBalanced(run: seq<Call>, s: State, t: State)
    requires Tree(s.cnt.Keys) && Balanced(s.cnt, s.ext) && Runs(run, s, t)
    ensures t.cnt.Keys == s.cnt.Keys && Balanced(t.cnt, t.ext)
    ensures forall c <- s.ext :: c in t.ext && t.ext[c] == s.ext[c] + Outstanding(run, c)
    decreases |run|
  {
    hide Live, Kids, Balanced;
    if run != [] {
      var call := run[0];
      match call {
        case Enable(c, ok) => if ok { EnableKeepsBalance(c, s.cnt, s.ext); }
        case Disable(c) => DisableKeepsBalance(c, s.cnt, s.ext);
      }
      RunsStayBalanced(run[1..], Step(call, s), t);
    }
  }

  /** d is c or lies below it. */
  ghost predicate Below(d: Clk, c: Clk)
    decreases d.depth
  {
    d == c || (d.parent != null && d.parent.depth < d.depth && Below(d.parent, c))
  }

  /** What the counts mean: a clock is in use exactly when it or some clock below it has an outside user. */
  lemma InUseIffWanted(c: Clk, cnt: map<Clk, nat>, ext: map<Clk, nat>, bound: nat)
    requires Tree(cnt.Keys) && Balanced(cnt, ext) && c in cnt
    requires forall x <- cnt :: x.depth <= bound
    ensures cnt[c] > 0 <==> exists d :: d in ext && ext[d] > 0 && Below(d, c)
  {
    if cnt[c] > 0 {
      InUseHasUser(c, cnt, ext, bound);
    }
    forall d | d in ext && ext[d] > 0 && Below(d, c)
      ensures cnt[c] > 0
    {
      UserKeepsInUse(d, c, cnt, ext);
    }
  }

  lemma {:induction false} InUseHasUser(c: Clk, cnt: map<Clk, nat>, ext: map<Clk, nat>, bound: nat)
    requires Tree(cnt.Keys) && Balanced(cnt, ext) && c in cnt && cnt[c] > 0
    requires forall x <- cnt :: x.depth <= bound
    ensures exists d :: d in ext && ext[d] > 0 && Below(d, c)
    decreases bound - c.depth
  {
    if ext[c] > 0 {
      assert Below(c, c);
    } else {
      assert Kids(c, Live(cnt)) != {};
      var k :| k in Kids(c, Live(cnt));
      InUseHasUser(k, cnt, ext, bound);
      var d :| d in ext && ext[d] > 0 && Below(d, k);
      BelowParent(d, k);
    }
  }

  lemma {:induction false} BelowParent(d: Clk, k: Clk)
    requires Below(d, k) && k.parent != null && k.parent.depth < k.depth
    ensures Below(d, k.parent)
    decreases d.depth
  {
    if d != k {
      BelowParent(d.parent, k);
    } else {
      assert Below(k.parent, k.parent);
    }
  }

  lemma {:induction false} UserKeepsInUse(d: Clk, c: Clk, cnt: map<Clk, nat>, ext: map<Clk, nat>)
    requires Tree(cnt.Keys) && Balanced(cnt, ext) && d in cnt && cnt[d] > 0 && Below(d, c)
    ensures c in cnt && cnt[c] > 0
    decreases d.depth
  {
    if d != c {
      ParentOfLive(d, cnt, ext);
      UserKeepsInUse(d.parent, c, cnt, ext);
    }
  }

  lemma ParentOfLive(d: Clk, cnt: map<Clk, nat>, ext: map<Clk, nat>)
    requires Tree(cnt.Keys) && Balanced(cnt, ext) && d in cnt && cnt[d] > 0 && d.parent != null
    ensures cnt[d.parent] > 0
  {
    assert d in Kids(d.parent, Live(cnt));
    assert |Kids(d.parent, Live(cnt))| > 0;
  }

  // ----- the state of the heap

  ghost function Counts(S: set<Clk>): map<Clk, nat>
    reads S
  {
    map c | c in S :: c.count
  }

  /** No clock runs below a clock that is off. */
  ghost predicate Powered(S: set<Clk>)
    reads S
  {
    forall c {:trigger c.parent} | c in S && c.parent != null && c.parent in S :: c.on ==> c.parent.on
  }

  /** The clocks that run are those in use, except `gone`, which are already off while being released. */
  ghost predicate RunningIsLive(S: set<Clk>, gone: set<Clk>)
    reads S
  {
    forall c <- S :: c.on <==> c.count > 0 && c !in gone
  }

  // ----- what the hardware is asked

  /** One use of a switch, and what the hardware answers to switching on. */
  datatype Switch = On(c: Clk, ret: int) | Off(c: Clk)

  /** All uses of the switches, in order. */
  class Hardware {
    ghost var log: seq<Switch>

    constructor ()
      ensures log == []
    {
      log := [];
    }
  }

  /** The clocks that have to be switched on to enable c: those not in use from the top down to c. */
  ghost function Path(c: Clk?, cnt: map<Clk, nat>): (r: seq<Clk>)
    requires Tree(cnt.Keys) && (c != null ==> c in cnt)
    ensures c == null ==> r == []
    ensures c != null ==> (r == [] <==> cnt[c] > 0)
    ensures forall i :: 0 <= i < |r| ==> r[i] in cnt && cnt[r[i]] == 0
    decreases if c == null then 0 else c.depth + 1
  {
    if c == null || cnt[c] > 0 then [] else Path(c.parent, cnt) + [c]
  }

  /** The clocks that have to be switched off to release c: those with one user left from c up. */
  ghost function Chain(c: Clk?, cnt: map<Clk, nat>): seq<Clk>
    requires Tree(cnt.Keys) && (c != null ==> c in cnt)
    decreases if c == null then 0 else c.depth + 1
  {
    if c == null || cnt[c] != 1 then [] else [c] + Chain(c.parent, cnt)
  }

  ghost function Ons(s: seq<Clk>): (r: seq<Switch>)
    ensures |r| == |s|
  {
    seq(|s|, i requires 0 <= i < |s| => On(s[i], 0))
  }

  ghost function Offs(s: seq<Clk>): (r: seq<Switch>)
    ensures |r| == |s|
  {
    seq(|s|, i requires 0 <= i < |s| => Off(s[i]))
  }

  ghost function Backwards(s: seq<Clk>): (r: seq<Clk>)
    ensures |r| == |s| && forall i :: 0 <= i < |s| ==> r[i] == s[|s| - 1 - i]
  {
    if s == [] then [] else [s[|s| - 1]] + Backwards(s[..|s| - 1])
  }

  /** What an enable asks of the hardware.  Success: everything on the path is switched on.  Failure: everything
      before the refusing clock, then the refusal, whose answer is returned, and everything off again
      the other way. */
  ghost predicate Asked(path: seq<Clk>, ret: int, refused: nat, log: seq<Switch>) {
    if ret == 0 then log == Ons(path)
    else
      && refused < |path| && path[refused].gated
      && log == Ons(path[..refused]) + [On(path[refused], ret)] + Offs(Backwards(path[..refused]))
  }

  /** A refusal on the way to the parent is one on the way to the clock. */
  lemma AskedOnTheWay(path: seq<Clk>, c: Clk, ret: int, refused: nat, log: seq<Switch>)
    requires Asked(path, ret, refused, log) && ret != 0
    ensures Asked(path + [c], ret, refused, log)
  {
    assert (path + [c])[..refused] == path[..refused];
  }

  lemma AskedAll(path: seq<Clk>, c: Clk, log: seq<Switch>)
    requires Asked(path, 0, 0, log)
    ensures Asked(path + [c], 0, 0, log + [On(c, 0)])
  {
    assert Ons(path + [c]) == Ons(path) + [On(c, 0)];
  }

  lemma AskedInVain(path: seq<Clk>, c: Clk, ret: int, log: seq<Switch>)
    requires Asked(path, 0, 0, log) && ret != 0 && c.gated
    ensures Asked(path + [c], ret, |path|, log + [On(c, ret)] + Offs(Backwards(path)))
  {
    assert (path + [c])[..|path|] == path;
  }

  /** The rollback switches off what was switched on, the other way. */
  lemma {:induction false} ChainUndoesPath(c: Clk, cnt: map<Clk, nat>)
    requires Tree(cnt.Keys) && c in cnt
    ensures Chain(c, EnableSpec(c, cnt)) == Backwards(Path(c, cnt))
    decreases c.depth
  {
    if cnt[c] == 0 {
      if c.parent != null {
        ChainUndoesPath(c.parent, cnt);
        ChainIsLocal(c.parent, EnableSpec(c.parent, cnt), c, 1);
      }
      BackwardsAppend(Path(c.parent, cnt), c);
    }
  }

  lemma BackwardsAppend(s: seq<Clk>, c: Clk)
    ensures Backwards(s + [c]) == [c] + Backwards(s)
  {
    assert (s + [c])[..|s|] == s;
  }

  lemma {:induction false} ChainIsLocal(c: Clk, cnt: map<Clk, nat>, d: Clk, v: nat)
    requires Tree(cnt.Keys) && c in cnt && d in cnt && c.depth < d.depth
    ensures Chain(c, cnt[d := v]) == Chain(c, cnt)
    decreases c.depth
  {
    if cnt[c] == 1 && c.parent != null {
      ChainIsLocal(c.parent, cnt, d, v);
    }
  }

  // ----- the calls themselves

  /** `ops->enable`: one hardware switch, which may fail with any error code; a clock without one never fails. */
  method HwEnable(c: Clk, ghost S: set<Clk>, hw: Hardware) returns (ret: int)
    requires c in S && Powered(S)
    requires c.parent != null ==> c.parent.on
    modifies c`on, hw
    ensures Powered(S)
    ensures hw.log == old(hw.log) + [On(c, ret)] && (!c.gated ==> ret == 0)
    ensures ret == 0 ==> c.on
    ensures ret != 0 ==> c.on == old(c.on)
  {
    ret := 0;
    if c.gated {
      ret := *;
    }
    if ret == 0 {
      c.on := true;
    }
    hw.log := hw.log + [On(c, ret)];
  }

  /** `ops->disable`: one hardware switch; no clock fed by it may be running. */
  method HwDisable(c: Clk, ghost S: set<Clk>, hw: Hardware)
    requires c in S && Powered(S)
    requires forall k <- S :: k.parent == c ==> !k.on
    modifies c`on, hw
    ensures Powered(S)
    ensures hw.log == old(hw.log) + [Off(c)]
    ensures !c.on
  {
    c.on := false;
    hw.log := hw.log + [Off(c)];
  }

  /** `clk->count++` and `clk->count--` */
  method Recount(c: Clk, n: nat, ghost S: set<Clk>)
    requires c in S
    modifies c`count
    ensures c.count == n && Counts(S) == old(Counts(S))[c := n]
  {
    c.count := n;
  }

  method ClkEnable(c: Clk?, ghost S: set<Clk>, ghost cnt: map<Clk, nat>, ghost ext: map<Clk, nat>, hw: Hardware)
    returns (ret: int, ghost refused: nat, ghost asked: seq<Switch>)
    requires Tree(S) && (c != null ==> c in S) && cnt == Counts(S)
    requires Balanced(cnt, ext) && RunningIsLive(S, {}) && Powered(S)
    modifies S, hw
    ensures RunningIsLive(S, {}) && Powered(S)
    ensures c == null ==> ret == 0
    ensures Counts(S) == if ret == 0 && c != null then EnableSpec(c, cnt) else cnt
    // a clock in use needs no hardware and never fails
    ensures c != null && cnt[c] > 0 ==> ret == 0
    ensures hw.log == old(hw.log) + asked && Asked(Path(c, cnt), ret, refused, asked)
    decreases if c == null then 0 else c.depth + 1, 1
  {
    hide Live, Kids, Balanced, Asked, Path;
    ret, refused, asked := 0, 0, [];
    if c == null {
      NothingAsked(c, cnt);
      return;
    }
    if c.count == 0 {
      ret, refused, asked := FirstEnable(c, S, cnt, ext, hw);
      if ret != 0 { return; }
    } else {
      NothingAsked(c, cnt);
    }
    Recount(c, c.count + 1, S);
  }

  lemma NothingAsked(c: Clk?, cnt: map<Clk, nat>)
    requires Tree(cnt.Keys) && (c != null ==> c in cnt && cnt[c] > 0)
    ensures Asked(Path(c, cnt), 0, 0, [])
  {
  }

  /** The body of the outer `if` of clk_enable: parent first, then the clock itself, and a rollback
      of the parent when the hardware refuses. */
  method FirstEnable(c: Clk, ghost S: set<Clk>, ghost cnt: map<Clk, nat>, ghost ext: map<Clk, nat>, hw: Hardware)
    returns (ret: int, ghost refused: nat, ghost asked: seq<Switch>)
    requires Tree(S) && c in S && cnt == Counts(S) && cnt[c] == 0
    requires Balanced(cnt, ext) && RunningIsLive(S, {}) && Powered(S)
    modifies S, hw
    ensures Powered(S)
    ensures RunningIsLive(S - {c}, {}) && c.count == 0 && c.on == (ret == 0)
    ensures ret == 0 ==> Counts(S)[c := 1] == EnableSpec(c, cnt)
    ensures ret != 0 ==> Counts(S) == cnt
    ensures hw.log == old(hw.log) + asked && Asked(Path(c, cnt), ret, refused, asked)
    decreases c.depth + 1, 0
  {
    hide Live, Kids, Asked, Path, Chain, Offs, Backwards, EnableSpec;
    var parent := c.parent;
    ghost var path, log := Path(parent, cnt), hw.log;
    LastOfPath(c, cnt);
    ret, refused, asked := ClkEnable(parent, S, cnt, ext, hw);
    ghost var up := Counts(S);
    assert up[c] == 0;
    if ret != 0 {
      AskedOnTheWay(path, c, ret, refused, asked);
      return;
    }
    RefusedDoesNotMatter(path, refused, asked);
    ret := HwEnable(c, S, hw);
    assert Counts(S) == up;
    if ret != 0 {
      Rollback(parent, S, cnt, ext, hw);
      AskedInVain(path, c, ret, asked);
      Appended(log, asked, [On(c, ret)], Offs(Backwards(path)));
      refused := |path|;
      asked := asked + [On(c, ret)] + Offs(Backwards(path));
    } else {
      AskedAll(path, c, asked);
      Appended(log, asked, [On(c, 0)], []);
      refused := 0;
      asked := asked + [On(c, 0)];
    }
  }

  /** The parent that was enabled in vain is released. */
  method Rollback(parent: Clk?, ghost S: set<Clk>, ghost cnt: map<Clk, nat>, ghost ext: map<Clk, nat>, hw: Hardware)
    requires Tree(S) && (parent != null ==> parent in S) && cnt.Keys == S && Balanced(cnt, ext)
    requires Counts(S) == if parent == null then cnt else EnableSpec(parent, cnt)
    requires RunningIsLive(S, {}) && Powered(S)
    modifies S, hw
    ensures RunningIsLive(S, {}) && Powered(S) && Counts(S) == cnt
    ensures hw.log == old(hw.log) + Offs(Backwards(Path(parent, cnt)))
    decreases if parent == null then 0 else parent.depth + 1, 2
  {
    hide Live, Kids, Path, Chain, Offs, Backwards;
    if parent != null {
      RollbackIsSafe(parent, cnt, ext);
      ChainUndoesPath(parent, cnt);
    }
    NoChain(cnt);
    ClkDisable(parent, S, Counts(S), {}, hw);
  }

  lemma LastOfPath(c: Clk, cnt: map<Clk, nat>)
    requires Tree(cnt.Keys) && c in cnt && cnt[c] == 0
    ensures Path(c, cnt) == Path(c.parent, cnt) + [c]
    ensures EnableSpec(c, cnt) == (if c.parent == null then cnt else EnableSpec(c.parent, cnt))[c := 1]
  {
  }

  lemma Appended(a: seq<Switch>, b: seq<Switch>, c: seq<Switch>, d: seq<Switch>)
    ensures a + b + c + d == a + (b + c + d) && a + b + c == a + (b + c)
  {
  }

  lemma NoChain(cnt: map<Clk, nat>)
    requires Tree(cnt.Keys)
    ensures Chain(null, cnt) == [] == Backwards(Path(null, cnt))
  {
  }

  lemma RefusedDoesNotMatter(path: seq<Clk>, refused: nat, log: seq<Switch>)
    requires Asked(path, 0, refused, log)
    ensures Asked(path, 0, 0, log)
  {
  }

  /** Any user may release c: then no child of c can be in use when the last reference goes. */
  lemma ReleaseIsSafe(c: Clk, cnt: map<Clk, nat>, ext: map<Clk, nat>)
    requires Balanced(cnt, ext) && c in cnt && ext[c] > 0
    ensures Bounded(cnt)
    ensures cnt[c] == 1 ==> forall k <- cnt :: k.parent == c ==> cnt[k] == 0
  {
    assert cnt[c] == ext[c] + |Kids(c, Live(cnt))|;
    assert cnt[c] == 1 ==> Kids(c, Live(cnt)) == {};
    assert forall k <- cnt :: k.parent == c && cnt[k] > 0 ==> k in Kids(c, Live(cnt));
  }

  /** The rollback after a refused enable releases exactly what was taken. */
  lemma RollbackIsSafe(p: Clk, cnt: map<Clk, nat>, ext: map<Clk, nat>)
    requires Tree(cnt.Keys) && Balanced(cnt, ext) && p in cnt
    ensures Bounded(EnableSpec(p, cnt))
    ensures EnableSpec(p, cnt)[p] == 1 ==> forall k <- cnt :: k.parent == p ==> EnableSpec(p, cnt)[k] == 0
    ensures DisableSpec(p, EnableSpec(p, cnt)) == cnt
  {
    hide Live, Kids;
    EnableKeepsBalance(p, cnt, ext);
    ReleaseIsSafe(p, EnableSpec(p, cnt), ext[p := ext[p] + 1]);
    DisableUndoesEnable(p, cnt);
  }

  ghost predicate Bounded(cnt: map<Clk, nat>) {
    forall c <- cnt :: |Kids(c, Live(cnt))| <= cnt[c]
  }

  method ClkDisable(c: Clk?, ghost S: set<Clk>, ghost cnt: map<Clk, nat>, ghost gone: set<Clk>, hw: Hardware)
    requires Tree(S) && (c != null ==> c in S) && cnt == Counts(S)
    requires Bounded(cnt) && RunningIsLive(S, gone) && Powered(S)
    requires forall g <- gone :: c != null ==> g.depth > c.depth
    requires c != null && cnt[c] == 1 ==> forall k <- S :: k.parent == c ==> !k.on
    modifies S, hw
    ensures RunningIsLive(S, gone) && Powered(S)
    ensures Counts(S) == if c == null then cnt else DisableSpec(c, cnt)
    ensures hw.log == old(hw.log) + Offs(Chain(c, cnt))
    decreases if c == null then 0 else c.depth + 1, 1
  {
    hide Live, Kids, Bounded;
    if c == null { return; }
    if c.count == 0 { return; }
    if c.count == 1 {
      LastDisable(c, S, cnt, gone, hw);
    }
    Recount(c, c.count - 1, S);
  }

  /** The body of the second `if` of clk_disable: the clock itself first, then its parent. */
  method LastDisable(c: Clk, ghost S: set<Clk>, ghost cnt: map<Clk, nat>, ghost gone: set<Clk>, hw: Hardware)
    requires Tree(S) && c in S && cnt == Counts(S) && cnt[c] == 1
    requires Bounded(cnt) && RunningIsLive(S, gone) && Powered(S)
    requires forall g <- gone :: g.depth > c.depth
    requires forall k <- S :: k.parent == c ==> !k.on
    modifies S, hw
    ensures RunningIsLive(S, gone + {c}) && Powered(S) && c.count == 1
    ensures Counts(S)[c := 0] == DisableSpec(c, cnt)
    ensures hw.log == old(hw.log) + Offs(Chain(c, cnt))
    decreases c.depth + 1, 0
  {
    hide Live, Kids, Bounded, Chain, Offs;
    var parent := c.parent;
    ghost var log := hw.log;
    HwDisable(c, S, hw);
    assert Counts(S) == cnt;
    if parent != null {
      OnlyKid(parent, c, cnt);
    }
    ClkDisable(parent, S, cnt, gone + {c}, hw);
    assert Counts(S)[c] == 1;
    FirstOfChain(c, cnt);
    assert log + [Off(c)] + Offs(Chain(parent, cnt)) == log + ([Off(c)] + Offs(Chain(parent, cnt)));
  }

  lemma FirstOfChain(c: Clk, cnt: map<Clk, nat>)
    requires Tree(cnt.Keys) && c in cnt && cnt[c] == 1
    ensures Offs(Chain(c, cnt)) == [Off(c)] + Offs(Chain(c.parent, cnt))
  {
  }

  // ----- users of the tree

  /** Between two calls of users: counts and users agree, and the hardware follows the counts. */
  ghost predicate Settled(S: set<Clk>, ext: map<Clk, nat>)
    reads S
  {
    Tree(S) && ext.Keys == S && Balanced(Counts(S), ext) && RunningIsLive(S, {}) && Powered(S)
  }

  /** clk_enable as a user calls it. */
  method UserEnable(c: Clk, ghost S: set<Clk>, ghost ext: map<Clk, nat>, hw: Hardware)
    returns (ret: int, ghost asked: seq<Switch>)
    requires Settled(S, ext) && c in S
    modifies S, hw
    ensures Settled(S, if ret == 0 then ext[c := ext[c] + 1] else ext)
    ensures Counts(S) == if ret == 0 then EnableSpec(c, old(Counts(S))) else old(Counts(S))
    ensures old(c.count) > 0 ==> ret == 0
    ensures hw.log == old(hw.log) + asked
    ensures if ret == 0 then asked == Ons(old(Path(c, Counts(S)))) else exists e :: e in asked && Refusal(e)
  {
    hide Live, Kids, Balanced, Powered, RunningIsLive, Path;
    ghost var refused;
    ret, refused, asked := ClkEnable(c, S, Counts(S), ext, hw);
    EnableKeepsBalance(c, old(Counts(S)), ext);
    if ret != 0 { assert Refusal(On(old(Path(c, Counts(S)))[refused], ret)); }
  }

  ghost predicate Refusal(e: Switch) { e.On? && e.ret != 0 }

  /** clk_disable as a user who holds a reference calls it: what the call needs of the hardware is there. */
  method UserDisable(c: Clk, ghost S: set<Clk>, ghost ext: map<Clk, nat>, hw: Hardware)
    requires Settled(S, ext) && c in S && ext[c] > 0
    modifies S, hw
    ensures Settled(S, ext[c := ext[c] - 1])
    ensures Counts(S) == DisableSpec(c, old(Counts(S)))
    ensures hw.log == old(hw.log) + Offs(old(Chain(c, Counts(S))))
  {
    hide Live, Kids, Balanced, Powered, Bounded, Chain;
    ReleaseIsSafe(c, Counts(S), ext);
    DisableKeepsBalance(c, Counts(S), ext);
    ClkDisable(c, S, Counts(S), {}, hw);
  }

  /** What users ask for. */
  datatype Request = WantOn(c: Clk) | WantOff(c: Clk)

  /** Runs can be put together. */
  lemma {:induction false} RunsJoin(run: seq<Call>, more: seq<Call>, s: State, t: State, u: State)
    requires Tree(s.cnt.Keys) && Balanced(s.cnt, s.ext) && Runs(run, s, t)
    requires t.cnt.Keys == s.cnt.Keys && Runs(more, t, u)
    ensures Runs(run + more, s, u)
    decreases |run|
  {
    hide Live, Kids, Balanced, EnableSpec, DisableSpec;
    if run == [] {
      assert [] + more == more;
    } else {
      RunsStayBalanced([run[0]], s, Step(run[0], s));
      assert (run + more)[1..] == run[1..] + more;
      RunsJoin(run[1..], more, Step(run[0], s), t, u);
    }
  }

  /** The references held when a wish is granted. */
  function Grant(held: map<Clk, nat>, r: Request): map<Clk, nat> {
    if r.c !in held then held
    else if r.WantOn? then held[r.c := held[r.c] + 1]
    else if held[r.c] > 0 then held[r.c := held[r.c] - 1]
    else held
  }

  function Granted(held: map<Clk, nat>, requests: seq<Request>): map<Clk, nat>
    decreases |requests|
  {
    if requests == [] then held else Grant(Granted(held, requests[..|requests| - 1]), requests[|requests| - 1])
  }

  ghost predicate Refused(log: seq<Switch>) { exists e :: e in log && Refusal(e) }

  method ServeOne(r: Request, ghost S: set<Clk>, held: map<Clk, nat>, hw: Hardware)
    returns (users: map<Clk, nat>, ghost calls: seq<Call>, ghost asked: seq<Switch>)
    requires Settled(S, held) && r.c in S
    modifies S, hw
    ensures Settled(S, users) && hw.log == old(hw.log) + asked
    ensures Runs(calls, State(old(Counts(S)), held), State(Counts(S), users))
    ensures !Refused(asked) ==> users == Grant(held, r)
  {
    hide Live, Kids, Balanced, Powered, RunningIsLive, Refusal, Path, Chain;
    users, calls, asked := held, [], [];
    ghost var before := State(Counts(S), held);
    if r.WantOn? {
      var ret;
      ret, asked := UserEnable(r.c, S, held, hw);
      if ret == 0 { users := held[r.c := held[r.c] + 1]; }
      calls := [Enable(r.c, ret == 0)];
      OneCall(calls[0], before);
    } else if held[r.c] > 0 {
      UserDisable(r.c, S, held, hw);
      asked := Offs(old(Chain(r.c, Counts(S))));
      users := held[r.c := held[r.c] - 1];
      calls := [Disable(r.c)];
      OneCall(calls[0], before);
    } else {
      NoCalls(before);
    }
  }

  /** Users that give back only what they hold may ask for anything in any order, and the hardware may
      refuse whatever it likes: counts, users and hardware stay in step, and no clock runs below one that
      is off.  As long as the hardware refuses nothing, every wish is granted. */
  method Serve(requests: seq<Request>, ghost S: set<Clk>, held: map<Clk, nat>, hw: Hardware)
    returns (users: map<Clk, nat>, ghost calls: seq<Call>, ghost asked: seq<Switch>)
    requires Settled(S, held) && forall i :: 0 <= i < |requests| ==> requests[i].c in S
    modifies S, hw
    ensures Settled(S, users) && hw.log == old(hw.log) + asked
    ensures Runs(calls, State(old(Counts(S)), held), State(Counts(S), users))
    ensures !Refused(asked) ==> users == Granted(held, requests)
  {
    hide Settled, Runs, Refused, Grant, Balanced, Tree;
    users, calls, asked := held, [], [];
    ghost var start, log := State(Counts(S), held), hw.log;
    SettledFacts(S, users);
    NoCalls(start);
    NothingRefused();
    for i := 0 to |requests|
      invariant Settled(S, users) && hw.log == log + asked
      invariant Runs(calls, start, State(Counts(S), users))
      invariant !Refused(asked) ==> users == Granted(held, requests[..i])
    {
      SettledFacts(S, users);
      ghost var before := State(Counts(S), users);
      ghost var more, switched;
      users, more, switched := ServeOne(requests[i], S, users, hw);
      RunsJoin(calls, more, start, before, State(Counts(S), users));
      RefusedInEither(asked, switched);
      assert requests[..i + 1][..i] == requests[..i];
      calls, asked := calls + more, asked + switched;
    }
    assert requests[..|requests|] == requests;
  }

  lemma NothingRefused()
    ensures !Refused([])
  {
  }

  lemma RefusedInEither(log: seq<Switch>, more: seq<Switch>)
    ensures Refused(log + more) <==> Refused(log) || Refused(more)
  {
    if Refused(log) {
      var e :| e in log && Refusal(e);
      assert e in log + more;
    }
    if Refused(more) {
      var e :| e in more && Refusal(e);
      assert e in log + more;
    }
  }

  lemma OneCall(call: Call, s: State)
    requires Tree(s.cnt.Keys) && Possible(call, s)
    ensures Runs([call], s, match call
                            case Enable(c, ok) =>
                              (if ok then State(EnableSpec(c, s.cnt), s.ext[c := s.ext[c] + 1]) else s)
                            case Disable(c) => State(DisableSpec(c, s.cnt), s.ext[c := s.ext[c] - 1]))
  {
    assert [call][1..] == [];
    assert Runs([], Step(call, s), Step(call, s));
  }

  lemma SettledFacts(S: set<Clk>, ext: map<Clk, nat>)
    requires Settled(S, ext)
    ensures Tree(S) && ext.Keys == S && Balanced(Counts(S), ext) && Counts(S).Keys == S
  {
  }

  lemma NoCalls(s: State)
    requires Tree(s.cnt.Keys)
    ensures Runs([], s, s)
  {
  }

  lemma OnlyKid(p: Clk, c: Clk, cnt: map<Clk, nat>)
    requires Bounded(cnt) && p in cnt && c in cnt && cnt[c] > 0 && c.parent == p
    ensures cnt[p] == 1 ==> forall k <- cnt :: k.parent == p && k != c ==> cnt[k] == 0
    ensures cnt[p] >= 1
  {
    var kids := Kids(p, Live(cnt));
    assert c in kids;
    forall k | k in cnt && k.parent == p && k != c && cnt[k] > 0
      ensures cnt[p] >= 2
    {
      assert {k, c} <= kids && |{k, c}| == 2;
      SubsetSize({k, c}, kids);
    }
  }

  lemma {:induction false} SubsetSize(a: set<Clk>, b: set<Clk>)
    requires a <= b
    ensures |a| <= |b|
  {
    assert b == a + (b - a);
    assert |b| == |a| + |b - a|;
  }
}
