/** The interactive boot menu: an unbounded poll loop that moves a cursor and dispatches at most one entry. */
module BootMenu {
  import opened Bytes

  const SCAN_UP: u16 := 0x01
  const SCAN_DOWN: u16 := 0x02
  const SCAN_HOME: u16 := 0x05
  const SCAN_END: u16 := 0x06
  const SCAN_ESC: u16 := 0x17
  const CHAR_ENTER: u16 := 0x0D
  const SECOND: nat := 1_000_000_000

  datatype Key = Key(scan: u16, unicode: u16)

  /** One tick of the keyboard: nothing pending at a given time, a read error, or a keystroke. */
  datatype Poll = NoKey(now: int) | PollError | Pressed(key: Key)

  /** Labels of the entries, the label to auto-boot, and the timeout in seconds. */
  datatype Config = Config(labels: seq<string>, default: string, timeout: int)

  // --- The starting entry ---

  predicate FirstMatch(labels: seq<string>, x: string, i: nat)
  {
    i < |labels| && labels[i] == x && forall j :: 0 <= j < i ==> labels[j] != x
  }

  function StartIndex(cfg: Config): nat
  {
    if cfg.default == "" then 0 else IndexFrom(cfg.labels, cfg.default, 0)
  }

  function IndexFrom(labels: seq<string>, x: string, i: nat): nat
    decreases |labels| - i
  {
    if i >= |labels| then 0 else if labels[i] == x then i else IndexFrom(labels, x, i + 1)
  }

  method IndexOfDefault(cfg: Config) returns (start: nat)
    ensures start == StartIndex(cfg)
    ensures cfg.default != "" && cfg.default in cfg.labels ==> FirstMatch(cfg.labels, cfg.default, start)
    ensures cfg.default == "" || cfg.default !in cfg.labels ==> start == 0
  {
    if cfg.default == "" { return 0; }
    for i := 0 to |cfg.labels|
      invariant forall j :: 0 <= j < i ==> cfg.labels[j] != cfg.default
      invariant IndexFrom(cfg.labels, cfg.default, 0) == IndexFrom(cfg.labels, cfg.default, i)
    {
      if cfg.labels[i] == cfg.default { return i; }
    }
    return 0;
  }

  // --- The loop ---

  datatype Outcome = Running | Dispatched(entry: nat) | Quit

  datatype Menu = Menu(selected: nat, armed: bool, outcome: Outcome)

  /** Where the cursor goes on a key: clamped at both ends. */
  function Moved(n: nat, at: nat, k: Key): nat
    requires n > 0
  {
    if k.scan == SCAN_UP then (if at > 0 then at - 1 else 0)
    else if k.scan == SCAN_DOWN then (if at + 1 < n then at + 1 else at)
    else if k.scan == SCAN_HOME then 0
    else if k.scan == SCAN_END then n - 1
    else at
  }

  predicate IsMove(k: Key) { k.scan == SCAN_UP || k.scan == SCAN_DOWN || k.scan == SCAN_HOME || k.scan == SCAN_END }
  predicate IsEnter(k: Key) { !IsMove(k) && k.unicode == CHAR_ENTER }
  predicate IsEscape(k: Key) { !IsMove(k) && k.unicode != CHAR_ENTER && k.scan == SCAN_ESC }

  function Tick(n: nat, deadline: int, m: Menu, p: Poll): Menu
    requires n > 0
  {
    match p
    case NoKey(now) => if m.armed && now > deadline then m.(outcome := Dispatched(m.selected)) else m
    case PollError => m
    case Pressed(k) =>
      var m1 := m.(armed := false);
      if IsEnter(k) then m1.(outcome := Dispatched(m.selected))
      else if IsEscape(k) then m1.(outcome := Quit)
      else m1.(selected := Moved(n, m.selected, k))
  }

  /** The state once the loop has returned or run out of polls, and how many polls it took. */
  function Play(n: nat, deadline: int, m: Menu, ps: seq<Poll>): (Menu, nat)
    requires n > 0
    decreases |ps|
  {
    if ps == [] || m.outcome != Running then (m, 0)
    else
      var (t, k) := Play(n, deadline, Tick(n, deadline, m, ps[0]), ps[1..]);
      (t, k + 1)
  }

  function Clamp(n: nat, start: int): nat { if 0 <= start < n then start else 0 }

  function Armed(cfg: Config): bool { cfg.timeout > 0 && cfg.default != "" }

  function Deadline(cfg: Config, now: int): int { if Armed(cfg) then now + cfg.timeout * SECOND else now }

  /** The cursor after a key, and whether the key ends the loop. */
  method HandleKey(n: nat, at: nat, k: Key) returns (selected: nat, ended: Outcome)
    requires at < n
    ensures selected < n && (ended.Dispatched? ==> ended.entry < n)
    ensures forall deadline, armed ::
              Tick(n, deadline, Menu(at, armed, Running), Pressed(k)) == Menu(selected, false, ended)
  {
    selected, ended := at, Running;
    if k.scan == SCAN_UP {
      if selected > 0 { selected := selected - 1; }
    } else if k.scan == SCAN_DOWN {
      if selected < n - 1 { selected := selected + 1; }
    } else if k.scan == SCAN_HOME {
      selected := 0;
    } else if k.scan == SCAN_END {
      selected := n - 1;
    } else if k.unicode == CHAR_ENTER {
      ended := Dispatched(selected);
    } else if k.scan == SCAN_ESC {
      ended := Quit;
    }
  }

  /** What the menu comes to over the polls, from its configuration. */
  function MenuRun(cfg: Config, start: int, now: int, polls: seq<Poll>): Outcome
    requires cfg.labels != []
  {
    var n := |cfg.labels|;
    Play(n, Deadline(cfg, now), Menu(Clamp(n, start), Armed(cfg), Running), polls).0.outcome
  }

  /** Runs the menu over the polls that happen to come; `Running` means the loop is still polling. */
  method MenuLoop(cfg: Config, start: int, now: int, polls: seq<Poll>) returns (outcome: Outcome, booted: string)
    ensures if cfg.labels == [] then outcome == Quit && booted == ""
            else && outcome == MenuRun(cfg, start, now, polls)
                 && (outcome.Dispatched? ==> outcome.entry < |cfg.labels| && booted == cfg.labels[outcome.entry])
                 && (!outcome.Dispatched? ==> booted == "")
  {
    hide Play;
    booted := "";
    if |cfg.labels| == 0 { return Quit, ""; }
    var n := |cfg.labels|;
    var selected: nat := 0;
    if 0 <= start < n { selected := start; }
    var autoBootArmed := cfg.timeout > 0 && cfg.default != "";
    var deadline := now;
    if autoBootArmed { deadline := deadline + cfg.timeout * SECOND; }
    ghost var goal := Play(n, deadline, Menu(selected, autoBootArmed, Running), polls).0;
    assert polls[0..] == polls;
    var i := 0;
    while i < |polls|
      invariant 0 <= i <= |polls| && selected < n
      invariant Play(n, deadline, Menu(selected, autoBootArmed, Running), polls[i..]).0 == goal
    {
      PlayStep(n, deadline, Menu(selected, autoBootArmed, Running), polls, i);
      match polls[i] {
        case NoKey(t) =>
          if autoBootArmed && t > deadline { return Dispatched(selected), cfg.labels[selected]; }
        case PollError =>
        case Pressed(k) =>
          autoBootArmed := false;
          var ended;
          selected, ended := HandleKey(n, selected, k);
          match ended {
            case Dispatched(e) => return Dispatched(e), cfg.labels[e];
            case Quit => return Quit, "";
            case Running =>
          }
      }
      i := i + 1;
    }
    PlayStep(n, deadline, Menu(selected, autoBootArmed, Running), polls, i);
    return Running, "";
  }

  /** One poll of a running menu, and what the outcome will be if it ends there. */
  lemma PlayStep(n: nat, deadline: int, m: Menu, ps: seq<Poll>, i: nat)
    requires n > 0 && i <= |ps| && m.outcome == Running
    ensures var t := Play(n, deadline, m, ps[i..]).0;
            if i == |ps| then t == m
            else
              var m1 := Tick(n, deadline, m, ps[i]);
              && t == Play(n, deadline, m1, ps[i + 1..]).0
              && (m1.outcome != Running ==> t == m1)
  {
    hide Tick;
    if i < |ps| { assert ps[i..][1..] == ps[i + 1..]; }
  }

  // --- Safety over every run ---

  predicate NoneRead(ps: seq<Poll>) { forall i :: 0 <= i < |ps| ==> !ps[i].Pressed? }

  /** The cursor after the keys among the polls. */
  function Cursor(n: nat, at: nat, ps: seq<Poll>): nat
    requires n > 0
    decreases |ps|
  {
    if ps == [] then at
    else Cursor(n, if ps[0].Pressed? then Moved(n, at, ps[0].key) else at, ps[1..])
  }

  /** Why the loop ended at the last of the polls it took. */
  predicate Justified(deadline: int, armed: bool, start: nat, t: Menu, taken: seq<Poll>)
  {
    match t.outcome
    case Running => true
    case Quit => taken != [] && taken[|taken| - 1].Pressed? && IsEscape(taken[|taken| - 1].key)
    case Dispatched(e) =>
      && e == t.selected && taken != []
      && match taken[|taken| - 1]
         case Pressed(k) => IsEnter(k)
         case NoKey(now) => now > deadline && armed && NoneRead(taken) && e == start
         case PollError => false
  }

  lemma TickSafe(n: nat, deadline: int, m: Menu, p: Poll)
    requires n > 0 && m.selected < n && m.outcome == Running
    ensures var t := Tick(n, deadline, m, p);
            && t.selected == (if p.Pressed? then Moved(n, m.selected, p.key) else m.selected) && t.selected < n
            && (t.armed <==> m.armed && !p.Pressed?)
            && Justified(deadline, m.armed, m.selected, t, [p])
  {
  }

  lemma {:induction false} StoppedStays(n: nat, deadline: int, m: Menu, ps: seq<Poll>)
    requires n > 0 && m.outcome != Running
    ensures Play(n, deadline, m, ps) == (m, 0)
  {
  }

  /**
    For every sequence of polls, keys, errors and clock readings: the cursor is in range and is the clamped fold of
    the keys read so far; an entry is dispatched only at the cursor, by Enter or by the countdown; the countdown
    fires only if it was armed and no key was ever read, so it boots the starting entry; ESC dispatches nothing.
   */
  lemma {:induction false} MenuSafe(n: nat, deadline: int, m: Menu, ps: seq<Poll>)
    requires n > 0 && m.selected < n && m.outcome == Running
    ensures var (t, k) := Play(n, deadline, m, ps);
            && k <= |ps| && (t.outcome == Running ==> k == |ps|)
            && t.selected == Cursor(n, m.selected, ps[..k]) && t.selected < n
            && (t.armed <==> m.armed && NoneRead(ps[..k]))
            && Justified(deadline, m.armed, m.selected, t, ps[..k])
    decreases |ps|
  {
    hide Tick, Moved, IsEnter, IsEscape;
    if ps != [] {
      var m1 := Tick(n, deadline, m, ps[0]);
      TickSafe(n, deadline, m, ps[0]);
      var (t, k) := Play(n, deadline, m1, ps[1..]);
      if m1.outcome != Running {
        StoppedStays(n, deadline, m1, ps[1..]);
        assert ps[..1] == [ps[0]];
        assert [ps[0]][1..] == [];
      } else {
        MenuSafe(n, deadline, m1, ps[1..]);
        assert ps[..k + 1][1..] == ps[1..][..k];
        assert ps[..k + 1] == [ps[0]] + ps[1..][..k];
        assert NoneRead(ps[..k + 1]) <==> !ps[0].Pressed? && NoneRead(ps[1..][..k]);
        if ps[0].Pressed? { assert !m1.armed; }
      }
    }
  }

  /** Poll `i` ends the loop: Enter, Escape, or an armed countdown that has run out with no key read before. */
  predicate Ends(deadline: int, armed: bool, ps: seq<Poll>, i: nat)
    requires i < |ps|
  {
    match ps[i]
    case Pressed(k) => IsEnter(k) || IsEscape(k)
    case NoKey(now) => armed && now > deadline && NoneRead(ps[..i])
    case PollError => false
  }

  lemma TickEnds(n: nat, deadline: int, m: Menu, ps: seq<Poll>)
    requires n > 0 && m.outcome == Running && ps != []
    ensures Tick(n, deadline, m, ps[0]).outcome != Running <==> Ends(deadline, m.armed, ps, 0)
    ensures Tick(n, deadline, m, ps[0]).armed <==> m.armed && !ps[0].Pressed?
  {
    assert NoneRead(ps[..0]);
  }

  lemma EndsTail(deadline: int, armed: bool, ps: seq<Poll>, i: nat)
    requires i + 1 < |ps|
    ensures Ends(deadline, armed, ps, i + 1) <==> Ends(deadline, armed && !ps[0].Pressed?, ps[1..], i)
  {
    assert ps[..i + 1] == [ps[0]] + ps[1..][..i];
    assert NoneRead(ps[..i + 1]) <==> !ps[0].Pressed? && NoneRead(ps[1..][..i]);
  }

  /** The loop ends at the first poll that ends it, and runs on if and only if there is none. */
  lemma {:induction false} MenuEndsExactly(n: nat, deadline: int, m: Menu, ps: seq<Poll>)
    requires n > 0 && m.outcome == Running
    ensures var (t, k) := Play(n, deadline, m, ps);
            && k <= |ps|
            && (t.outcome == Running <==> forall i :: 0 <= i < |ps| ==> !Ends(deadline, m.armed, ps, i))
            && (t.outcome != Running ==>
                  && 0 < k <= |ps| && Ends(deadline, m.armed, ps, k - 1)
                  && forall i :: 0 <= i < k - 1 ==> !Ends(deadline, m.armed, ps, i))
    decreases |ps|
  {
    hide Tick, Ends;
    if ps != [] {
      var m1 := Tick(n, deadline, m, ps[0]);
      TickEnds(n, deadline, m, ps);
      if m1.outcome != Running {
        StoppedStays(n, deadline, m1, ps[1..]);
      } else {
        MenuEndsExactly(n, deadline, m1, ps[1..]);
        forall i | 0 <= i < |ps| - 1
          ensures Ends(deadline, m.armed, ps, i + 1) <==> Ends(deadline, m1.armed, ps[1..], i)
        {
          EndsTail(deadline, m.armed, ps, i);
        }
        Shifted(deadline, m.armed, m1.armed, ps, Play(n, deadline, m1, ps[1..]).1);
      }
    }
  }

  lemma Shifted(deadline: int, armed: bool, armed1: bool, ps: seq<Poll>, k: nat)
    requires ps != [] && k < |ps| && !Ends(deadline, armed, ps, 0)
    requires forall i :: 0 <= i < |ps| - 1 ==>
               (Ends(deadline, armed, ps, i + 1) <==> Ends(deadline, armed1, ps[1..], i))
    ensures (forall i :: 0 <= i < |ps| ==> !Ends(deadline, armed, ps, i)) <==>
              forall i :: 0 <= i < |ps| - 1 ==> !Ends(deadline, armed1, ps[1..], i)
    ensures (forall i :: 0 <= i < k ==> !Ends(deadline, armed, ps, i)) <==>
              forall i :: 0 <= i < k - 1 ==> !Ends(deadline, armed1, ps[1..], i)
  {
    hide Ends;
    forall i | 0 <= i < |ps| - 1 && Ends(deadline, armed1, ps[1..], i)
      ensures Ends(deadline, armed, ps, i + 1)
    {
    }
    forall i | 1 <= i < |ps| && Ends(deadline, armed, ps, i)
      ensures Ends(deadline, armed1, ps[1..], i - 1)
    {
      assert (i - 1) + 1 == i;
    }
  }

  // --- Keys by their codes ---

  /** Keys with the given scan code, whatever character comes with them. */
  predicate AllScan(ps: seq<Poll>, scan: u16)
  {
    forall i :: 0 <= i < |ps| ==> ps[i].Pressed? && ps[i].key.scan == scan
  }

  /** The Enter key by its character, with a scan code that moves nothing. */
  predicate EnterKey(p: Poll)
  {
    p.Pressed? && p.key.unicode == 0x0D && p.key.scan != 1 && p.key.scan != 2 && p.key.scan != 5 && p.key.scan != 6
  }

  lemma EnterDispatches(n: nat, deadline: int, m: Menu, p: Poll)
    requires n > 0 && m.outcome == Running && EnterKey(p)
    ensures Play(n, deadline, m, [p]).0.outcome == Dispatched(m.selected)
  {
    assert [p][1..] == [];
    assert Play(n, deadline, m, [p]).0 == Play(n, deadline, Tick(n, deadline, m, p), [p][1..]).0;
  }

  lemma ArrowTick(n: nat, deadline: int, m: Menu, p: Poll)
    requires m.selected < n && m.outcome == Running && p.Pressed? && 1 <= p.key.scan <= 2
    ensures var t := Tick(n, deadline, m, p);
            && t.outcome == Running
            && (p.key.scan == 1 ==> t.selected == if m.selected > 0 then m.selected - 1 else 0)
            && (p.key.scan == 2 ==> t.selected == if m.selected + 1 < n then m.selected + 1 else n - 1)
  {
  }

  /** k presses of cursor-down (scan code 2) and then Enter boot the entry k further down, or the last. */
  lemma {:induction false} DownThenEnter(n: nat, deadline: int, m: Menu, ps: seq<Poll>, enter: Poll)
    requires m.selected < n && m.outcome == Running && AllScan(ps, 2) && EnterKey(enter)
    ensures Play(n, deadline, m, ps + [enter]).0.outcome ==
              Dispatched(if m.selected + |ps| < n then m.selected + |ps| else n - 1)
    decreases |ps|
  {
    hide Tick;
    if ps == [] {
      assert ps + [enter] == [enter];
      EnterDispatches(n, deadline, m, enter);
    } else {
      assert (ps + [enter])[1..] == ps[1..] + [enter];
      ArrowTick(n, deadline, m, ps[0]);
      DownThenEnter(n, deadline, Tick(n, deadline, m, ps[0]), ps[1..], enter);
    }
  }

  /** k presses of cursor-up (scan code 1) and then Enter boot the entry k further up, or the first. */
  lemma {:induction false} UpThenEnter(n: nat, deadline: int, m: Menu, ps: seq<Poll>, enter: Poll)
    requires m.selected < n && m.outcome == Running && AllScan(ps, 1) && EnterKey(enter)
    ensures Play(n, deadline, m, ps + [enter]).0.outcome ==
              Dispatched(if m.selected >= |ps| then m.selected - |ps| else 0)
    decreases |ps|
  {
    hide Tick;
    if ps == [] {
      assert ps + [enter] == [enter];
      EnterDispatches(n, deadline, m, enter);
    } else {
      assert (ps + [enter])[1..] == ps[1..] + [enter];
      ArrowTick(n, deadline, m, ps[0]);
      UpThenEnter(n, deadline, Tick(n, deadline, m, ps[0]), ps[1..], enter);
    }
  }

  /**
    One other key and then Enter: Home (scan code 5) boots the first entry, End (6) the last, Escape (0x17) ends the
    menu without booting, and any key that is none of these leaves the cursor where it is.
   */
  lemma KeyThenEnter(n: nat, deadline: int, m: Menu, k: Key, enter: Poll)
    requires m.selected < n && m.outcome == Running && EnterKey(enter)
    requires k.scan != 1 && k.scan != 2
    ensures var outcome := Play(n, deadline, m, [Pressed(k), enter]).0.outcome;
            if k.scan == 5 then outcome == Dispatched(0)
            else if k.scan == 6 then outcome == Dispatched(n - 1)
            else if k.unicode != 0x0D && k.scan == 0x17 then outcome == Quit
            else outcome == Dispatched(m.selected)
  {
    var ps := [Pressed(k), enter];
    var m1 := Tick(n, deadline, m, Pressed(k));
    assert ps[1..] == [enter];
    if m1.outcome == Running {
      EnterDispatches(n, deadline, m1, enter);
    } else {
      StoppedStays(n, deadline, m1, ps[1..]);
    }
  }

  /**
    Left alone, the menu boots its starting entry at the first poll later than `timeout` seconds, if and only if the
    timeout is positive and a default is set; otherwise it waits for ever. A start out of range means entry 0.
   */
  lemma LeftAlone(cfg: Config, start: int, now: int, ps: seq<Poll>)
    requires cfg.labels != [] && NoneRead(ps)
    ensures MenuRun(cfg, start, now, ps) ==
              if && cfg.timeout > 0 && cfg.default != ""
                 && exists i :: 0 <= i < |ps| && ps[i].NoKey? && ps[i].now > now + cfg.timeout * 1_000_000_000
              then Dispatched(if 0 <= start < |cfg.labels| then start else 0) else Running
  {
    hide Play;
    var n := |cfg.labels|;
    var m := Menu(Clamp(n, start), Armed(cfg), Running);
    MenuEndsExactly(n, Deadline(cfg, now), m, ps);
    MenuSafe(n, Deadline(cfg, now), m, ps);
    var (t, k) := Play(n, Deadline(cfg, now), m, ps);
    forall i | 0 <= i < |ps|
      ensures Ends(Deadline(cfg, now), m.armed, ps, i) <==> m.armed && ps[i].NoKey? && ps[i].now > Deadline(cfg, now)
    {
      assert NoneRead(ps[..i]);
    }
    if t.outcome != Running {
      assert ps[..k][k - 1] == ps[k - 1] && !ps[k - 1].Pressed?;
    }
  }

  /** An auto-boot, the menu being started on the default, boots the first entry with the default label. */
  lemma AutoBootsDefault(cfg: Config, now: int, ps: seq<Poll>)
    requires cfg.labels != [] && cfg.default in cfg.labels
    ensures var n := |cfg.labels|;
            var (t, k) := Play(n, Deadline(cfg, now), Menu(Clamp(n, StartIndex(cfg)), Armed(cfg), Running), ps);
            t.outcome.Dispatched? && 0 < k <= |ps| && !ps[k - 1].Pressed? ==>
              FirstMatch(cfg.labels, cfg.default, t.outcome.entry) && NoneRead(ps[..k])
  {
    hide Play;
    var n := |cfg.labels|;
    var m := Menu(Clamp(n, StartIndex(cfg)), Armed(cfg), Running);
    MenuSafe(n, Deadline(cfg, now), m, ps);
    var (t, k) := Play(n, Deadline(cfg, now), m, ps);
    if k > 0 { assert ps[..k][k - 1] == ps[k - 1]; }
    IndexFromFinds(cfg.labels, cfg.default, 0);
  }

  lemma {:induction false} IndexFromFinds(labels: seq<string>, x: string, i: nat)
    requires i <= |labels| && x in labels && forall j :: 0 <= j < i ==> labels[j] != x
    ensures FirstMatch(labels, x, IndexFrom(labels, x, i))
    decreases |labels| - i
  {
    if i < |labels| && labels[i] != x { IndexFromFinds(labels, x, i + 1); }
  }
}
