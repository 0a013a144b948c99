/** The top-level menu of both programs: a cursor over MENU_N section
    names, moved, jumped or opened by keys, and left with `q` or `x`. */
module Menu {
  import opened Viewport

  const KEY_L := 108    // 'l'
  const KEY_CR := 13    // '\r'
  const KEY_LF := 10    // '\n'
  const KEY_ONE := 49   // '1'

  /** `MENU_N` of nvimtutor and of zshtutor. */
  const NVIM_MENU_N := 13
  const ZSH_MENU_N := 9

  /** `cur` and `last_g` of the main loop. */
  datatype MenuState = MenuState(cur: int, lastG: bool)

  datatype Outcome = Stay | Open(section: int) | Quit

  datatype MenuStep = MenuStep(next: MenuState, outcome: Outcome)

  predicate IsOpenKey(key: int)
  {
    key == KEY_L || key == KEY_CR || key == KEY_LF
  }

  predicate IsQuitKey(key: int)
  {
    key == KEY_Q || key == KEY_X
  }

  /** The if-chain of the main loop over a menu of `n` entries. The state
      after `Open` is the state once the section viewer has returned. */
  function MenuKey(s: MenuState, key: int, n: int): (r: MenuStep)
    ensures 0 <= s.cur < n ==> 0 <= r.next.cur < n
    ensures r.outcome.Open? ==> r.next == MenuState(r.outcome.section, false)
    ensures r.outcome.Quit? ==> r.next == s
    ensures !r.outcome.Quit? ==> (r.next.lastG <==> key == KEY_G && !s.lastG)
  {
    if key == KEY_J then MenuStep(MenuState(if s.cur < n - 1 then s.cur + 1 else s.cur, false), Stay)
    else if key == KEY_K then MenuStep(MenuState(if s.cur > 0 then s.cur - 1 else s.cur, false), Stay)
    else if key == KEY_G then
      (if s.lastG then MenuStep(MenuState(0, false), Stay) else MenuStep(MenuState(s.cur, true), Stay))
    else if key == KEY_BIG_G then MenuStep(MenuState(n - 1, false), Stay)
    else if key == KEY_PERCENT then MenuStep(MenuState(if s.cur == 0 then n - 1 else 0, false), Stay)
    else if IsOpenKey(key) then MenuStep(MenuState(s.cur, false), Open(s.cur))
    else if KEY_ONE <= key <= 48 + n then MenuStep(MenuState(key - KEY_ONE, false), Open(key - KEY_ONE))
    else if IsQuitKey(key) then MenuStep(s, Quit)
    else MenuStep(MenuState(s.cur, false), Stay)
  }

  /** `j`/`k` never leave [0, n-1], `G` goes to the last entry, and `%`
      compares `cur` with 0 rather than with half the list. */
  lemma MenuMovement(s: MenuState, n: int)
    requires 0 <= s.cur < n
    ensures MenuKey(s, KEY_J, n) == MenuStep(MenuState(if s.cur + 1 < n then s.cur + 1 else n - 1, false), Stay)
    ensures MenuKey(s, KEY_K, n) == MenuStep(MenuState(if s.cur > 0 then s.cur - 1 else 0, false), Stay)
    ensures MenuKey(s, KEY_BIG_G, n) == MenuStep(MenuState(n - 1, false), Stay)
    ensures MenuKey(s, KEY_PERCENT, n) == MenuStep(MenuState(if s.cur == 0 then n - 1 else 0, false), Stay)
  {
  }

  /** With both programs' menu sizes the digit range never reaches the
      letters, so `q` and `x`, and only they, quit. */
  lemma MenuQuitKeys(s: MenuState, key: int, n: int)
    requires n <= NVIM_MENU_N
    ensures MenuKey(s, key, n).outcome.Quit? <==> IsQuitKey(key)
  {
  }

  /** `l`, CR and LF open the entry under the cursor. */
  lemma MenuOpenKeys(s: MenuState, key: int, n: int)
    requires IsOpenKey(key)
    ensures MenuKey(s, key, n) == MenuStep(MenuState(s.cur, false), Open(s.cur))
  {
  }

  /** A key from '1' to '0' + n selects and opens entry key - '1'. */
  lemma MenuDigitKeys(s: MenuState, key: int, n: int)
    requires n <= NVIM_MENU_N
    requires KEY_ONE <= key <= 48 + n
    ensures MenuKey(s, key, n) == MenuStep(MenuState(key - KEY_ONE, false), Open(key - KEY_ONE))
    ensures 0 <= key - KEY_ONE < n
  {
  }

  /** nvimtutor reaches its entries 10 to 13 with ':', ';', '<' and '=';
      in zshtutor ':' is an unbound key. */
  lemma NvimDigitsPastNine(s: MenuState)
    ensures MenuKey(s, 58, NVIM_MENU_N).outcome == Open(9)
    ensures MenuKey(s, 59, NVIM_MENU_N).outcome == Open(10)
    ensures MenuKey(s, 60, NVIM_MENU_N).outcome == Open(11)
    ensures MenuKey(s, 61, NVIM_MENU_N).outcome == Open(12)
    ensures MenuKey(s, 58, ZSH_MENU_N) == MenuStep(MenuState(s.cur, false), Stay)
  {
  }

  /** ESC, an escape sequence (0) and a failed read (-1) only disarm `gg`. */
  lemma MenuUnboundKeys(s: MenuState, n: int)
    requires n <= NVIM_MENU_N
    ensures MenuKey(s, KEY_ESC, n) == MenuStep(MenuState(s.cur, false), Stay)
    ensures MenuKey(s, 0, n) == MenuStep(MenuState(s.cur, false), Stay)
    ensures MenuKey(s, -1, n) == MenuStep(MenuState(s.cur, false), Stay)
  {
  }

  /** `gg` in the menu: two presses in a row go to the first entry; any
      other key in between disarms the first. */
  lemma MenuGoToTop(s: MenuState, n: int)
    requires !s.lastG
    ensures var armed := MenuKey(s, KEY_G, n).next;
            armed == MenuState(s.cur, true) &&
            MenuKey(armed, KEY_G, n) == MenuStep(MenuState(0, false), Stay) &&
            MenuKey(MenuKey(armed, KEY_ESC, n).next, KEY_G, n).next == MenuState(s.cur, true)
  {
  }

  // ---------------------------------------------------------------------
  // A whole session

  /** What a session did: the sections opened, in order; whether it ended
      with a quit key; and the menu state it was left in. */
  datatype Session = Session(visited: seq<int>, quit: bool, final: MenuState)

  /** The main loop over a key stream. An opened section reads its own
      keys, up to and including its exit key, before the menu reads again. */
  function MenuRun(s: MenuState, keys: seq<int>, n: int): Session
    decreases |keys|
  {
    if keys == [] then Session([], false, s)
    else
      var st := MenuKey(s, keys[0], n);
      match st.outcome
      case Quit => Session([], true, s)
      case Stay => MenuRun(st.next, keys[1..], n)
      case Open(i) =>
        var rest := keys[1..];
        var t := MenuRun(st.next, rest[ExitPrefix(rest)..], n);
        Session([i] + t.visited, t.quit, t.final)
  }

  /** Every section a session opens is an entry of the menu, and the
      cursor stays on an entry. */
  lemma {:induction false} MenuRunInRange(s: MenuState, keys: seq<int>, n: int)
    requires 0 <= s.cur < n
    ensures var t := MenuRun(s, keys, n);
            0 <= t.final.cur < n && forall j :: 0 <= j < |t.visited| ==> 0 <= t.visited[j] < n
    decreases |keys|
  {
    if keys != [] {
      var st := MenuKey(s, keys[0], n);
      match st.outcome
      case Quit =>
      case Stay => MenuRunInRange(st.next, keys[1..], n);
      case Open(i) =>
        var rest := keys[1..];
        MenuRunInRange(st.next, rest[ExitPrefix(rest)..], n);
    }
  }

  /** Leaving a section returns to the menu with the cursor where it was
      and `gg` disarmed. */
  lemma {:induction false} SectionReturnKeepsCursor(s: MenuState, visit: seq<int>, exit: int, rest: seq<int>, n: int)
    requires forall i :: 0 <= i < |visit| ==> !IsExitKey(visit[i])
    requires IsExitKey(exit)
    ensures var t := MenuRun(MenuState(s.cur, false), rest, n);
            MenuRun(s, [KEY_L] + visit + [exit] + rest, n) == Session([s.cur] + t.visited, t.quit, t.final)
  {
    var after := visit + [exit] + rest;
    ExitPrefixSkips(visit, exit, rest);
    assert ([KEY_L] + visit + [exit] + rest)[1..] == after;
    assert after[|visit| + 1..] == rest;
  }

  lemma {:induction false} ExitPrefixSkips(visit: seq<int>, exit: int, rest: seq<int>)
    requires forall i :: 0 <= i < |visit| ==> !IsExitKey(visit[i])
    requires IsExitKey(exit)
    ensures ExitPrefix(visit + [exit] + rest) == |visit| + 1
    decreases |visit|
  {
    var ks := visit + [exit] + rest;
    if visit == [] {
      assert ks[0] == exit;
    } else {
      assert ks[0] == visit[0];
      assert ks[1..] == visit[1..] + [exit] + rest;
      ExitPrefixSkips(visit[1..], exit, rest);
    }
  }

  /** A quit key ends the session at once. */
  lemma MenuQuitEnds(s: MenuState, key: int, rest: seq<int>, n: int)
    requires IsQuitKey(key) && n <= NVIM_MENU_N
    ensures MenuRun(s, [key] + rest, n) == Session([], true, s)
  {
    MenuQuitKeys(s, key, n);
  }

  /** Five `j` in a five-entry menu stop on the last entry. */
  lemma FiveDownExample()
    ensures MenuRun(MenuState(0, false), [KEY_J, KEY_J, KEY_J, KEY_J, KEY_J], 5).final == MenuState(4, false)
  {
    var s0 := MenuState(0, false);
    assert MenuRun(s0, [KEY_J, KEY_J, KEY_J, KEY_J, KEY_J], 5) == MenuRun(MenuState(1, false), [KEY_J, KEY_J, KEY_J, KEY_J], 5);
    assert MenuRun(MenuState(1, false), [KEY_J, KEY_J, KEY_J, KEY_J], 5) == MenuRun(MenuState(2, false), [KEY_J, KEY_J, KEY_J], 5);
    assert MenuRun(MenuState(2, false), [KEY_J, KEY_J, KEY_J], 5) == MenuRun(MenuState(3, false), [KEY_J, KEY_J], 5);
    assert MenuRun(MenuState(3, false), [KEY_J, KEY_J], 5) == MenuRun(MenuState(4, false), [KEY_J], 5);
    assert MenuRun(MenuState(4, false), [KEY_J], 5) == MenuRun(MenuState(4, false), [], 5);
  }

  /** '3' then an immediate `q` in the section opens the third entry and
      returns to it. */
  lemma DigitOpensExample()
    ensures MenuRun(MenuState(0, false), [51, KEY_Q], 9) == Session([2], false, MenuState(2, false))
  {
    var ks := [51, KEY_Q];
    assert ks[1..] == [KEY_Q];
    assert ks[1..][1..] == [];
  }

  // ---------------------------------------------------------------------
  // The state as the main loop keeps it

  class MenuCursor {
    const n: int
    var cur: int
    var lastG: bool

    function State(): MenuState
      reads this
    {
      MenuState(cur, lastG)
    }

    /** The menu starts on the first entry, disarmed. */
    constructor (n: int)
      ensures this.n == n && State() == MenuState(0, false)
    {
      this.n := n;
      cur, lastG := 0, false;
    }

    /** The reaction to one key. For an opened section the state is the
        one the loop has once the viewer returns. */
    method Step(key: int) returns (outcome: Outcome)
      modifies this
      ensures outcome == MenuKey(old(State()), key, n).outcome
      ensures State() == MenuKey(old(State()), key, n).next
    {
      outcome := Stay;
      if key == KEY_J {
        if cur < n - 1 {
          cur := cur + 1;
        }
        lastG := false;
      } else if key == KEY_K {
        if cur > 0 {
          cur := cur - 1;
        }
        lastG := false;
      } else if key == KEY_G {
        if lastG {
          cur := 0;
          lastG := false;
        } else {
          lastG := true;
        }
      } else if key == KEY_BIG_G {
        cur := n - 1;
        lastG := false;
      } else if key == KEY_PERCENT {
        cur := if cur == 0 then n - 1 else 0;
        lastG := false;
      } else if key == KEY_L || key == KEY_CR || key == KEY_LF {
        outcome := Open(cur);
        lastG := false;
      } else if key >= KEY_ONE && key <= 48 + n {
        cur := key - KEY_ONE;
        outcome := Open(cur);
        lastG := false;
      } else if key == KEY_Q || key == KEY_X {
        outcome := Quit;
      } else {
        lastG := false;
      }
    }
  }
}
