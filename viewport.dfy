/** The section viewer shared by both programs: the clamp that keeps the
    cursor inside the visible window, the key reactions, and which rows a
    frame draws. */
module Viewport {

  const KEY_J := 106    // 'j'
  const KEY_K := 107    // 'k'
  const KEY_G := 103    // 'g'
  const KEY_BIG_G := 71 // 'G'
  const KEY_PERCENT := 37
  const KEY_X := 120    // 'x'
  const KEY_H := 104    // 'h'
  const KEY_Q := 113    // 'q'
  const KEY_ESC := 27

  /** The loop variables of view_section; `lastG` is the arming flag of `gg`. */
  datatype View = View(cursor: int, offset: int, lastG: bool)

  /** The window invariant: the cursor is a row of the list and lies in
      the `visible` rows starting at `offset`. */
  predicate InWindow(v: View, total: int, visible: int)
  {
    0 <= v.cursor < total && 0 <= v.offset <= v.cursor < v.offset + visible
  }

  /** The clamp block at the top of the loop: the cursor is forced into
      the list, then the offset is moved just far enough to show it. */
  function Clamped(v: View, total: int, visible: int): (r: View)
    ensures r.lastG == v.lastG && r.offset >= 0
    ensures total > 0 && visible >= 1 ==> InWindow(r, total, visible)
  {
    var c1 := if v.cursor < 0 then 0 else v.cursor;
    var c := if c1 >= total then total - 1 else c1;
    var o1 := if c < v.offset then c else v.offset;
    var o2 := if c >= o1 + visible then c - visible + 1 else o1;
    var o := if o2 < 0 then 0 else o2;
    View(c, o, v.lastG)
  }

  /** The clamp moves the cursor only when it is outside the list, and
      moves the window by the least amount that shows the cursor. */
  lemma ClampedMovesLeast(v: View, total: int, visible: int)
    requires total > 0 && visible >= 1
    ensures var r := Clamped(v, total, visible);
            var c := if v.cursor < 0 then 0 else if v.cursor >= total then total - 1 else v.cursor;
            r.cursor == c &&
            (v.offset >= 0 && v.offset <= c < v.offset + visible ==> r.offset == v.offset) &&
            (c < v.offset ==> r.offset == c) &&
            (v.offset >= 0 && c >= v.offset + visible ==> r.offset == c - visible + 1)
  {
  }

  lemma ClampedIdempotent(v: View, total: int, visible: int)
    requires total > 0 && visible >= 1
    ensures Clamped(Clamped(v, total, visible), total, visible) == Clamped(v, total, visible)
  {
    ClampedMovesLeast(Clamped(v, total, visible), total, visible);
  }

  // ---------------------------------------------------------------------
  // Keys

  predicate IsExitKey(key: int)
  {
    key == KEY_X || key == KEY_H || key == KEY_Q || key == KEY_ESC
  }

  datatype Reaction = Continue(view: View) | Leave

  /** The if-chain after read_key. */
  function KeyReaction(v: View, key: int, total: int): (r: Reaction)
    ensures r.Leave? <==> IsExitKey(key)
  {
    if key == KEY_J then Continue(View(if v.cursor < total - 1 then v.cursor + 1 else v.cursor, v.offset, false))
    else if key == KEY_K then Continue(View(if v.cursor > 0 then v.cursor - 1 else v.cursor, v.offset, false))
    else if key == KEY_G then
      (if v.lastG then Continue(View(0, 0, false)) else Continue(View(v.cursor, v.offset, true)))
    else if key == KEY_BIG_G then Continue(View(total - 1, v.offset, false))
    else if key == KEY_PERCENT then Continue(View(if v.cursor < total / 2 then total - 1 else 0, v.offset, false))
    else if IsExitKey(key) then Leave
    else Continue(View(v.cursor, v.offset, false))
  }

  /** No key takes the cursor out of the list; only `g` leaves the arming
      flag set, and only after an unarmed `g`. */
  lemma KeyReactionKeepsCursor(v: View, key: int, total: int)
    requires 0 <= v.cursor < total
    requires KeyReaction(v, key, total).Continue?
    ensures var w := KeyReaction(v, key, total).view;
            0 <= w.cursor < total &&
            (w.lastG <==> key == KEY_G && !v.lastG)
  {
  }

  /** `j`/`k` step by one inside the list, `G` goes to the last row, `%`
      goes to the last row from the first half (index < total / 2) and to
      the first row otherwise. */
  lemma MovementKeys(v: View, total: int)
    requires 0 <= v.cursor < total
    ensures KeyReaction(v, KEY_J, total).view.cursor == if v.cursor + 1 < total then v.cursor + 1 else total - 1
    ensures KeyReaction(v, KEY_K, total).view.cursor == if v.cursor > 0 then v.cursor - 1 else 0
    ensures KeyReaction(v, KEY_BIG_G, total).view.cursor == total - 1
    ensures KeyReaction(v, KEY_PERCENT, total).view.cursor == if 2 * v.cursor < total - total % 2 then total - 1 else 0
  {
  }

  /** One pass of view_section's loop: clamp, draw, read a key, react. */
  function Round(v: View, key: int, total: int, visible: int): Reaction
  {
    KeyReaction(Clamped(v, total, visible), key, total)
  }

  /** `gg` needs two presses in a row: a second `g` goes to the top; any
      other non-exit key after a first `g` leaves the cursor where the
      clamp put it and disarms. */
  lemma {:induction false} GoToTopNeedsTwoPresses(v: View, key: int, total: int, visible: int)
    requires !v.lastG
    requires !IsExitKey(key)
    ensures Round(v, KEY_G, total, visible).Continue?
    ensures var armed := Round(v, KEY_G, total, visible).view;
            armed.lastG &&
            armed.cursor == Clamped(v, total, visible).cursor &&
            (key == KEY_G ==> Round(armed, key, total, visible) == Continue(View(0, 0, false))) &&
            (key != KEY_G && key != KEY_J && key != KEY_K && key != KEY_BIG_G && key != KEY_PERCENT ==>
               Round(armed, key, total, visible).view.cursor == Clamped(armed, total, visible).cursor &&
               !Round(armed, key, total, visible).view.lastG)
  {
    var c := Clamped(v, total, visible);
    var armed := View(c.cursor, c.offset, true);
    assert Round(v, KEY_G, total, visible) == Continue(armed);
  }

  /** 50 rows in a 24-row terminal (21 visible): `G` then the clamp give
      cursor 49 and offset 29. */
  lemma GoToBottomExample()
    ensures Clamped(Round(View(0, 0, false), KEY_BIG_G, 50, 21).view, 50, 21) == View(49, 29, false)
  {
  }

  /** `%` on ten rows: 0 goes to 9, 9 goes to 0, 4 goes to 9. */
  lemma ToggleEndsExample()
    ensures KeyReaction(View(0, 0, false), KEY_PERCENT, 10).view.cursor == 9
    ensures KeyReaction(View(9, 0, false), KEY_PERCENT, 10).view.cursor == 0
    ensures KeyReaction(View(4, 0, false), KEY_PERCENT, 10).view.cursor == 9
  {
  }

  // ---------------------------------------------------------------------
  // A whole visit of a section

  /** How many keys a visit reads: up to and including the first exit key,
      or all of them. */
  function ExitPrefix(keys: seq<int>): (n: nat)
    ensures n <= |keys|
  {
    if keys == [] then 0 else if IsExitKey(keys[0]) then 1 else 1 + ExitPrefix(keys[1..])
  }

  /** The state in which a frame is drawn after the visit has read
      `keys`, and how many of them it read. */
  datatype Visit = Visit(last: View, used: nat, left: bool)

  function RunVisit(v: View, keys: seq<int>, total: int, visible: int): (r: Visit)
    ensures r.last.offset >= 0
    ensures r.used <= |keys| && (!r.left ==> r.used == |keys|)
    decreases |keys|
  {
    if keys == [] then Visit(Clamped(v, total, visible), 0, false)
    else match Round(v, keys[0], total, visible)
      case Leave => Visit(Clamped(v, total, visible), 1, true)
      case Continue(w) =>
        var rest := RunVisit(w, keys[1..], total, visible);
        Visit(rest.last, rest.used + 1, rest.left)
  }

  /** One round of a visit: an exit key ends it after one key, any other
      key continues it from the reaction's state. */
  lemma RunVisitStep(v: View, key: int, more: seq<int>, total: int, visible: int)
    ensures IsExitKey(key) ==> RunVisit(v, [key] + more, total, visible) == Visit(Clamped(v, total, visible), 1, true)
    ensures !IsExitKey(key) ==>
              var r := RunVisit(KeyReaction(Clamped(v, total, visible), key, total).view, more, total, visible);
              RunVisit(v, [key] + more, total, visible) == Visit(r.last, r.used + 1, r.left)
  {
    assert ([key] + more)[1..] == more;
  }

  /** The same step seen from a visit that has already read `k` keys. */
  lemma RunVisitAdvance(start: Visit, k: nat, v: View, key: int, more: seq<int>, total: int, visible: int)
    requires var run := RunVisit(v, [key] + more, total, visible);
             start == Visit(run.last, k + run.used, run.left)
    ensures IsExitKey(key) ==> start == Visit(Clamped(v, total, visible), k + 1, true)
    ensures !IsExitKey(key) ==>
              var run := RunVisit(KeyReaction(Clamped(v, total, visible), key, total).view, more, total, visible);
              start == Visit(run.last, k + 1 + run.used, run.left)
  {
    RunVisitStep(v, key, more, total, visible);
  }

  /** And at the end of the keys: the visit stops in the clamped state. */
  lemma RunVisitEnd(start: Visit, k: nat, v: View, total: int, visible: int)
    requires var run := RunVisit(v, [], total, visible);
             start == Visit(run.last, k + run.used, run.left)
    ensures start == Visit(Clamped(v, total, visible), k, false)
  {
  }

  /** A visit reads exactly the keys up to the first exit key, whatever
      the list and the terminal; it ends by leaving exactly when there is
      an exit key; and every frame it draws satisfies the window invariant. */
  lemma {:induction false} RunVisitReadsToExit(v: View, keys: seq<int>, total: int, visible: int)
    ensures RunVisit(v, keys, total, visible).used == ExitPrefix(keys)
    ensures RunVisit(v, keys, total, visible).left <==> exists i :: 0 <= i < |keys| && IsExitKey(keys[i])
    ensures total > 0 && visible >= 1 ==> InWindow(RunVisit(v, keys, total, visible).last, total, visible)
    decreases |keys|
  {
    if keys != [] {
      match Round(v, keys[0], total, visible)
      case Leave =>
      case Continue(w) =>
        RunVisitReadsToExit(w, keys[1..], total, visible);
        if exists i :: 0 <= i < |keys[1..]| && IsExitKey(keys[1..][i]) {
          var i :| 0 <= i < |keys[1..]| && IsExitKey(keys[1..][i]);
          assert IsExitKey(keys[i + 1]);
        }
        if exists i :: 0 <= i < |keys| && IsExitKey(keys[i]) {
          var i :| 0 <= i < |keys| && IsExitKey(keys[i]);
          assert i > 0 && IsExitKey(keys[1..][i - 1]);
        }
    }
  }

  // ---------------------------------------------------------------------
  // The rows a frame draws

  /** A drawn row: which list entry, and whether it gets the cursor colours. */
  datatype Row = Row(index: int, highlighted: bool)

  /** How many rows `for (i = offset; i < offset + visible && i < total; i++)`
      draws. */
  function WindowSize(v: View, total: int, visible: int): (n: nat)
    ensures n > 0 ==> n <= visible && v.offset + n <= total
    ensures v.offset <= total ==> (n == 0 <==> visible <= 0 || v.offset == total)
  {
    var n := if v.offset + visible <= total then visible else total - v.offset;
    if n <= 0 then 0 else n
  }

  /** From the first index on, that loop's condition holds exactly for
      the WindowSize indices that follow. */
  lemma WindowLoopCondition(v: View, total: int, visible: int, i: int)
    requires v.offset <= i <= v.offset + WindowSize(v, total, visible)
    ensures (i < v.offset + visible && i < total) <==> i < v.offset + WindowSize(v, total, visible)
  {
  }

  /** The rows that loop draws, the cursor's row highlighted. */
  function Window(v: View, total: int, visible: int): (rows: seq<Row>)
    ensures |rows| == WindowSize(v, total, visible)
    ensures forall j :: 0 <= j < |rows| ==> rows[j] == Row(v.offset + j, v.offset + j == v.cursor)
    ensures v.offset >= 0 ==> forall j :: 0 <= j < |rows| ==> 0 <= rows[j].index < total
  {
    var n := WindowSize(v, total, visible);
    seq(n, j requires 0 <= j < n => Row(v.offset + j, v.offset + j == v.cursor))
  }

  /** After the clamp a frame draws min(visible, total - offset) rows, the
      consecutive entries from `offset`, all in the list, and exactly one of
      them, the cursor's, highlighted. */
  lemma WindowShowsCursor(v: View, total: int, visible: int)
    requires total > 0 && visible >= 1
    ensures var c := Clamped(v, total, visible);
            var w := Window(c, total, visible);
            |w| == (if c.offset + visible <= total then visible else total - c.offset) &&
            (forall j :: 0 <= j < |w| ==> w[j].index == c.offset + j && 0 <= w[j].index < total) &&
            0 <= c.cursor - c.offset < |w| && w[c.cursor - c.offset].highlighted &&
            (forall j :: 0 <= j < |w| ==> (w[j].highlighted <==> j == c.cursor - c.offset))
  {
  }

  // ---------------------------------------------------------------------
  // The state as view_section keeps it

  class SectionView {
    const total: int
    const visible: int
    var cursor: int
    var offset: int
    var lastG: bool

    function State(): View
      reads this
    {
      View(cursor, offset, lastG)
    }

    /** Entering a section starts at the top, disarmed. */
    constructor (total: int, visible: int)
      ensures this.total == total && this.visible == visible
      ensures State() == View(0, 0, false)
    {
      this.total := total;
      this.visible := visible;
      cursor, offset, lastG := 0, 0, false;
    }

    /** The clamp block. */
    method Normalize()
      modifies this
      ensures State() == Clamped(old(State()), total, visible)
      ensures total > 0 && visible >= 1 ==> InWindow(State(), total, visible)
    {
      if cursor < 0 {
        cursor := 0;
      }
      if cursor >= total {
        cursor := total - 1;
      }
      if cursor < offset {
        offset := cursor;
      }
      if cursor >= offset + visible {
        offset := cursor - visible + 1;
      }
      if offset < 0 {
        offset := 0;
      }
    }

    /** The reaction to one key; `leave` is the `break`. */
    method Step(key: int) returns (leave: bool)
      modifies this
      ensures leave <==> IsExitKey(key)
      ensures leave ==> State() == old(State())
      ensures !leave ==> State() == KeyReaction(old(State()), key, total).view
    {
      leave := false;
      if key == KEY_J {
        if cursor < total - 1 {
          cursor := cursor + 1;
        }
        lastG := false;
      } else if key == KEY_K {
        if cursor > 0 {
          cursor := cursor - 1;
        }
        lastG := false;
      } else if key == KEY_G {
        if lastG {
          cursor := 0;
          offset := 0;
          lastG := false;
        } else {
          lastG := true;
        }
      } else if key == KEY_BIG_G {
        cursor := total - 1;
        lastG := false;
      } else if key == KEY_PERCENT {
        cursor := if cursor < total / 2 then total - 1 else 0;
        lastG := false;
      } else if key == KEY_X || key == KEY_H || key == KEY_Q || key == KEY_ESC {
        leave := true;
      } else {
        lastG := false;
      }
    }
  }
}
