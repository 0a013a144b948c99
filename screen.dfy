/** What the two programs write to the terminal: the section frame, the
    menu frame, and the whole output of a session as a function of the key
    stream. nvimtutor formats some pieces through a 1024-byte buffer; the
    `limit` parameter carries that cap, and zshtutor's printf has none. */
module Screen {
  import opened Bytes
  import opened Ansi
  import opened Viewport
  import opened Menu
  import Input

  /** The program's fixed texts, which the model takes as given: everything
      between the clear and the first separator of the menu (banner and,
      in zshtutor, its tagline), the menu labels, the menu hint between
      its colour codes, and the section hint before the position counter. */
  datatype Texts = Texts(banner: seq<byte>, labels: seq<seq<byte>>, menuHint: seq<byte>, sectionHint: seq<byte>)

  /** A piece passed through a format buffer: a prefix of the piece, no
      longer than the cap when there is one, and the whole piece exactly
      when there is no cap or the piece fits in it. */
  function Fmt(limit: Option<nat>, s: seq<byte>): (r: seq<byte>)
    ensures |r| <= |s| && r == s[..|r|]
    ensures limit.Some? ==> |r| <= limit.value
    ensures r == s <==> limit.None? || |s| <= limit.value
    ensures limit.Some? && |s| > limit.value ==> |r| == limit.value
  {
    if limit.Some? then Take(s, limit.value) else s
  }

  const MINUS: byte := 45

  /** printf's `%d`: a minus sign exactly when the number is negative,
      then the decimal digits of its magnitude. */
  function DecimalInt(n: int): (r: seq<byte>)
    ensures |r| >= 1 && (r[0] == MINUS <==> n < 0)
    ensures var digits := if n < 0 then r[1..] else r;
            digits != [] && (forall i :: 0 <= i < |digits| ==> 48 <= digits[i] as int <= 57) &&
            DigitsValue(digits) == (if n < 0 then -n else n)
  {
    var magnitude := if n < 0 then -n else n;
    DecimalRoundTrip(magnitude);
    var digits := Decimal(magnitude);
    assert ([MINUS] + digits)[1..] == digits;
    if n < 0 then [MINUS] + digits else digits
  }

  // ---------------------------------------------------------------------
  // Section frames

  /** One list line on screen: in the cursor colours when highlighted. */
  function RowText(text: seq<byte>, highlighted: bool): seq<byte>
  {
    if highlighted then C_CUR + text + RESET + [NEWLINE] else text + [NEWLINE]
  }

  /** The hint line with its `[cursor+1/total]` counter. */
  function StatusText(hint: seq<byte>, cursor: int, total: int): seq<byte>
  {
    C_HINT + hint + C_SEP + Ascii("  [") + DecimalInt(cursor + 1) + Ascii("/") + DecimalInt(total) + Ascii("]\n") + RESET
  }

  /** Every row names a line of the list. */
  predicate Fits(lines: seq<seq<byte>>, rows: seq<Row>)
  {
    forall j :: 0 <= j < |rows| ==> 0 <= rows[j].index < |lines|
  }

  /** The bytes of the drawn rows, in order. */
  function Render(lines: seq<seq<byte>>, rows: seq<Row>, limit: Option<nat>): seq<byte>
    requires Fits(lines, rows)
  {
    if rows == [] then []
    else
      var last := rows[|rows| - 1];
      Render(lines, rows[..|rows| - 1], limit) + Fmt(limit, RowText(lines[last.index], last.highlighted))
  }

  lemma RenderSnoc(lines: seq<seq<byte>>, rows: seq<Row>, r: Row, limit: Option<nat>)
    requires Fits(lines, rows) && 0 <= r.index < |lines|
    ensures Fits(lines, rows + [r])
    ensures Render(lines, rows + [r], limit) == Render(lines, rows, limit) + Fmt(limit, RowText(lines[r.index], r.highlighted))
  {
    assert (rows + [r])[..|rows|] == rows;
  }

  /** Drawing row `k` of `rows` extends the bytes of the rows before it. */
  lemma RenderPrefixStep(lines: seq<seq<byte>>, rows: seq<Row>, k: nat, limit: Option<nat>)
    requires Fits(lines, rows) && k < |rows|
    ensures Fits(lines, rows[..k]) && Fits(lines, rows[..k + 1])
    ensures Render(lines, rows[..k + 1], limit) ==
              Render(lines, rows[..k], limit) + Fmt(limit, RowText(lines[rows[k].index], rows[k].highlighted))
  {
    assert rows[..k + 1] == rows[..k] + [rows[k]];
    RenderSnoc(lines, rows[..k], rows[k], limit);
  }

  /** A whole section frame: clear, the rows of the window, the separator,
      the status line. */
  function SectionFrame(lines: seq<seq<byte>>, v: View, visible: int, hint: seq<byte>, limit: Option<nat>): seq<byte>
    requires v.offset >= 0
  {
    CLR + Render(lines, Window(v, |lines|, visible), limit) + SEP_ROW + Fmt(limit, StatusText(hint, v.cursor, |lines|))
  }

  /** A list line of at most 511 bytes, even highlighted, fits the
      1023-byte format buffer. */
  lemma RowFitsFormatBuffer(text: seq<byte>, highlighted: bool)
    requires |text| <= 511
    ensures Fmt(Some(1023), RowText(text, highlighted)) == RowText(text, highlighted)
  {
    Lengths();
  }

  /** So when every line of the list is at most 511 bytes long, the 1023
      cap never cuts a row of a frame. */
  lemma {:induction false} RenderNeverCut(lines: seq<seq<byte>>, rows: seq<Row>)
    requires Fits(lines, rows)
    requires forall i :: 0 <= i < |lines| ==> |lines[i]| <= 511
    ensures Render(lines, rows, Some(1023)) == Render(lines, rows, None)
  {
    if rows != [] {
      var last := rows[|rows| - 1];
      RenderNeverCut(lines, rows[..|rows| - 1]);
      RowFitsFormatBuffer(lines[last.index], last.highlighted);
    }
  }

  /** All the frames one visit of a section draws, and the CUR_SHOW written
      when it is left; `lines` is the display list and `v` the state before
      the next clamp. */
  function VisitOutput(lines: seq<seq<byte>>, v: View, keys: seq<int>, visible: int, hint: seq<byte>, limit: Option<nat>): seq<byte>
    decreases |keys|
  {
    var c := Clamped(v, |lines|, visible);
    var frame := SectionFrame(lines, c, visible, hint, limit);
    if keys == [] then frame
    else
      match KeyReaction(c, keys[0], |lines|)
      case Leave => frame + CUR_SHOW
      case Continue(w) => frame + VisitOutput(lines, w, keys[1..], visible, hint, limit)
  }

  /** One round of a visit's output: the frame of the clamped state, then
      CUR_SHOW after an exit key or the rest of the visit otherwise. */
  lemma VisitOutputStep(lines: seq<seq<byte>>, v: View, key: int, more: seq<int>, visible: int, hint: seq<byte>, limit: Option<nat>)
    ensures var c := Clamped(v, |lines|, visible);
            VisitOutput(lines, v, [key] + more, visible, hint, limit) ==
              SectionFrame(lines, c, visible, hint, limit) +
              if IsExitKey(key) then CUR_SHOW
              else VisitOutput(lines, KeyReaction(c, key, |lines|).view, more, visible, hint, limit)
  {
    assert ([key] + more)[1..] == more;
  }

  /** The same step seen from the bytes already written, `out`. */
  lemma VisitOutputAdvance(out: seq<byte>, frame: seq<byte>, whole: seq<byte>, lines: seq<seq<byte>>, v: View, key: int, more: seq<int>,
                           visible: int, hint: seq<byte>, limit: Option<nat>)
    requires out + VisitOutput(lines, v, [key] + more, visible, hint, limit) == whole
    requires frame == SectionFrame(lines, Clamped(v, |lines|, visible), visible, hint, limit)
    ensures IsExitKey(key) ==> out + frame + CUR_SHOW == whole
    ensures !IsExitKey(key) ==>
              out + frame + VisitOutput(lines, KeyReaction(Clamped(v, |lines|, visible), key, |lines|).view, more, visible, hint, limit) == whole
  {
    VisitOutputStep(lines, v, key, more, visible, hint, limit);
    if !IsExitKey(key) {
      AppendAssoc(out, frame, VisitOutput(lines, KeyReaction(Clamped(v, |lines|, visible), key, |lines|).view, more, visible, hint, limit));
    }
  }

  /** And at the end of the keys: the last frame completes the output. */
  lemma VisitOutputEnd(out: seq<byte>, frame: seq<byte>, whole: seq<byte>, lines: seq<seq<byte>>, v: View,
                       visible: int, hint: seq<byte>, limit: Option<nat>)
    requires out + VisitOutput(lines, v, [], visible, hint, limit) == whole
    requires frame == SectionFrame(lines, Clamped(v, |lines|, visible), visible, hint, limit)
    ensures out + frame == whole
  {
  }

  /** What one round of a visit owes to the rest of it once the key
      `keys[k]` is read after the frame of the clamped state: either the
      visit ends with this key, or its remainder starts from the key's
      reaction. `start` is the run of the whole visit and `whole` its
      output, of which `out` has been written. */
  lemma VisitRoundFacts(lines: seq<seq<byte>>, keys: seq<int>, k: nat, pre: View, start: Visit, whole: seq<byte>,
                        out: seq<byte>, frame: seq<byte>, complete: bool, visible: int, hint: seq<byte>, limit: Option<nat>)
    requires k < |keys|
    requires var run := RunVisit(pre, keys[k..], |lines|, visible);
             start == Visit(run.last, k + run.used, run.left)
    requires complete ==> out + VisitOutput(lines, pre, keys[k..], visible, hint, limit) == whole
    requires complete ==> frame == SectionFrame(lines, Clamped(pre, |lines|, visible), visible, hint, limit)
    ensures IsExitKey(keys[k]) ==>
              start.used == k + 1 && start.left && (complete ==> out + (frame + CUR_SHOW) == whole)
    ensures !IsExitKey(keys[k]) ==>
              var next := KeyReaction(Clamped(pre, |lines|, visible), keys[k], |lines|).view;
              var run := RunVisit(next, keys[k + 1..], |lines|, visible);
              start == Visit(run.last, k + 1 + run.used, run.left) &&
              (complete ==> out + frame + VisitOutput(lines, next, keys[k + 1..], visible, hint, limit) == whole)
  {
    assert keys[k..] == [keys[k]] + keys[k + 1..];
    RunVisitAdvance(start, k, pre, keys[k], keys[k + 1..], |lines|, visible);
    if complete {
      VisitOutputAdvance(out, frame, whole, lines, pre, keys[k], keys[k + 1..], visible, hint, limit);
    }
  }

  /** And when the keys have ended after a frame: the visit stops there. */
  lemma VisitEndFacts(lines: seq<seq<byte>>, keys: seq<int>, k: nat, pre: View, start: Visit, whole: seq<byte>,
                      out: seq<byte>, frame: seq<byte>, complete: bool, visible: int, hint: seq<byte>, limit: Option<nat>)
    requires k == |keys|
    requires var run := RunVisit(pre, keys[k..], |lines|, visible);
             start == Visit(run.last, k + run.used, run.left)
    requires complete ==> out + VisitOutput(lines, pre, keys[k..], visible, hint, limit) == whole
    requires complete ==> frame == SectionFrame(lines, Clamped(pre, |lines|, visible), visible, hint, limit)
    ensures start.used == k && !start.left && (complete ==> out + frame == whole)
  {
    assert keys[k..] == [];
    RunVisitEnd(start, k, pre, |lines|, visible);
    if complete {
      VisitOutputEnd(out, frame, whole, lines, pre, visible, hint, limit);
    }
  }

  predicate EndsWith(out: seq<byte>, tail: seq<byte>)
  {
    |out| >= |tail| && out[|out| - |tail|..] == tail
  }

  lemma EndsWithAppend(a: seq<byte>, b: seq<byte>, tail: seq<byte>)
    requires EndsWith(b, tail)
    ensures EndsWith(a + b, tail)
  {
    assert (a + b)[|a + b| - |tail|..] == b[|b| - |tail|..];
  }

  /** The output of a visit follows its run: it ends with the frame of the
      last state the visit draws in, followed by CUR_SHOW exactly when the
      visit is left. */
  lemma {:induction false} VisitOutputEnds(lines: seq<seq<byte>>, v: View, keys: seq<int>, visible: int, hint: seq<byte>, limit: Option<nat>)
    ensures var run := RunVisit(v, keys, |lines|, visible);
            EndsWith(VisitOutput(lines, v, keys, visible, hint, limit),
                     SectionFrame(lines, run.last, visible, hint, limit) + (if run.left then CUR_SHOW else []))
    decreases |keys|
  {
    var c := Clamped(v, |lines|, visible);
    var frame := SectionFrame(lines, c, visible, hint, limit);
    if keys == [] {
      assert frame + [] == frame;
    } else {
      match KeyReaction(c, keys[0], |lines|)
      case Leave =>
      case Continue(w) =>
        VisitOutputEnds(lines, w, keys[1..], visible, hint, limit);
        var run := RunVisit(w, keys[1..], |lines|, visible);
        EndsWithAppend(frame, VisitOutput(lines, w, keys[1..], visible, hint, limit),
                       SectionFrame(lines, run.last, visible, hint, limit) + (if run.left then CUR_SHOW else []));
    }
  }

  // ---------------------------------------------------------------------
  // Menu frames

  /** U+25B6 BLACK RIGHT-POINTING TRIANGLE in UTF-8. */
  const POINTER_CHAR: seq<byte> := [0xE2, 0x96, 0xB6]

  /** Entry `i` of the menu: the selected one in the cursor colours
      behind the pointer, the others behind their number `[i+1]`. */
  function MenuRowText(i: nat, selected: bool, name: seq<byte>): seq<byte>
  {
    if selected then C_CUR + BOLD + Ascii("  ") + POINTER_CHAR + Ascii("  ") + name + RESET + [NEWLINE]
    else C_KEY + Ascii("  [") + Decimal(i + 1) + Ascii("]") + C_DESC + Ascii("  ") + name + [NEWLINE] + RESET
  }

  /** The menu entries, entry `cur` selected. */
  function MenuEntries(n: nat, cur: int): (rows: seq<Row>)
    ensures |rows| == n
    ensures forall i :: 0 <= i < n ==> rows[i] == Row(i, i == cur)
  {
    seq(n, i requires 0 <= i < n => Row(i, i == cur))
  }

  /** The bytes of menu entries, in order. */
  function RenderMenu(labels: seq<seq<byte>>, rows: seq<Row>, limit: Option<nat>): seq<byte>
    requires Fits(labels, rows)
  {
    if rows == [] then []
    else
      var last := rows[|rows| - 1];
      RenderMenu(labels, rows[..|rows| - 1], limit) + Fmt(limit, MenuRowText(last.index, last.highlighted, labels[last.index]))
  }

  lemma RenderMenuSnoc(labels: seq<seq<byte>>, rows: seq<Row>, r: Row, limit: Option<nat>)
    requires Fits(labels, rows) && 0 <= r.index < |labels|
    ensures Fits(labels, rows + [r])
    ensures RenderMenu(labels, rows + [r], limit) == RenderMenu(labels, rows, limit) + Fmt(limit, MenuRowText(r.index, r.highlighted, labels[r.index]))
  {
    assert (rows + [r])[..|rows|] == rows;
  }

  /** Drawing entry `k` of `rows` extends the bytes of the entries before it. */
  lemma RenderMenuPrefixStep(labels: seq<seq<byte>>, rows: seq<Row>, k: nat, limit: Option<nat>)
    requires Fits(labels, rows) && k < |rows|
    ensures Fits(labels, rows[..k]) && Fits(labels, rows[..k + 1])
    ensures RenderMenu(labels, rows[..k + 1], limit) ==
              RenderMenu(labels, rows[..k], limit) + Fmt(limit, MenuRowText(rows[k].index, rows[k].highlighted, labels[rows[k].index]))
  {
    assert rows[..k + 1] == rows[..k] + [rows[k]];
    RenderMenuSnoc(labels, rows[..k], rows[k], limit);
  }

  /** Entry `i` of the menu extends the bytes of the entries before it. */
  lemma MenuEntriesStep(labels: seq<seq<byte>>, cur: int, i: nat, limit: Option<nat>)
    requires i < |labels|
    ensures Fits(labels, MenuEntries(|labels|, cur)[..i]) && Fits(labels, MenuEntries(|labels|, cur)[..i + 1])
    ensures RenderMenu(labels, MenuEntries(|labels|, cur)[..i + 1], limit) ==
              RenderMenu(labels, MenuEntries(|labels|, cur)[..i], limit) + Fmt(limit, MenuRowText(i, i == cur, labels[i]))
  {
    var w := MenuEntries(|labels|, cur);
    assert Fits(labels, w);
    RenderMenuPrefixStep(labels, w, i, limit);
    assert w[i] == Row(i, i == cur);
  }

  function MenuFrame(texts: Texts, cur: int, limit: Option<nat>): seq<byte>
  {
    CLR + texts.banner + SEP_ROW + RenderMenu(texts.labels, MenuEntries(|texts.labels|, cur), limit) + SEP_ROW + (C_HINT + texts.menuHint + RESET)
  }

  // ---------------------------------------------------------------------
  // A whole session

  /** What the program writes once the main loop has reported quitting. */
  const BYE := C_HINT + Ascii("\n  bye\n\n") + RESET

  /** The last output: the cursor shown, the screen cleared, the farewell. */
  function Farewell(limit: Option<nat>): seq<byte>
  {
    CUR_SHOW + CLR + Fmt(limit, BYE)
  }

  /** The rows visit `n` of a session shows: `sizes(n)` is what the
      terminal-size query of its `term_rows` call gets, and the separator
      and the two hint lines take three rows. */
  function VisitRows(sizes: nat -> Input.RowsQuery, n: nat): int
  {
    Input.TermRows(sizes(n)) - 3
  }

  /** Everything written from the menu state `s` on, given the display
      list of every section, once `n` sections have been visited: a menu
      frame before each key, a visit for each opened section, the farewell
      after a quit key. Every visit asks the terminal for its size anew.
      The output ends where the keys end, in the menu or in a section that
      was not left. */
  function SessionOutput(pages: seq<seq<seq<byte>>>, texts: Texts, sizes: nat -> Input.RowsQuery, n: nat, s: MenuState,
                         keys: seq<int>, limit: Option<nat>): seq<byte>
    requires 0 <= s.cur < |pages|
    decreases |keys|
  {
    var menu := MenuFrame(texts, s.cur, limit);
    if keys == [] then menu
    else
      var st := MenuKey(s, keys[0], |pages|);
      match st.outcome
      case Quit => menu + Farewell(limit)
      case Stay => menu + SessionOutput(pages, texts, sizes, n, st.next, keys[1..], limit)
      case Open(i) =>
        var rest := keys[1..];
        var visible := VisitRows(sizes, n);
        var visit := CUR_HIDE + VisitOutput(pages[i], View(0, 0, false), rest, visible, texts.sectionHint, limit);
        if RunVisit(View(0, 0, false), rest, |pages[i]|, visible).left
        then menu + visit + SessionOutput(pages, texts, sizes, n + 1, st.next, rest[ExitPrefix(rest)..], limit)
        else menu + visit
  }

  /** One menu round seen from the bytes already written, `out`: after the
      menu frame comes the farewell, the rest of the session, or a visit
      and then, if that visit was left, the rest of the session. */
  lemma SessionOutputAdvance(out: seq<byte>, whole: seq<byte>, pages: seq<seq<seq<byte>>>, texts: Texts,
                             sizes: nat -> Input.RowsQuery, n: nat, s: MenuState, key: int, more: seq<int>, limit: Option<nat>)
    requires 0 <= s.cur < |pages|
    requires out + SessionOutput(pages, texts, sizes, n, s, [key] + more, limit) == whole
    ensures var st := MenuKey(s, key, |pages|);
            var menu := MenuFrame(texts, s.cur, limit);
            (st.outcome.Quit? ==> out + menu + Farewell(limit) == whole) &&
            (st.outcome.Stay? ==> out + menu + SessionOutput(pages, texts, sizes, n, st.next, more, limit) == whole)
    ensures var st := MenuKey(s, key, |pages|);
            var menu := MenuFrame(texts, s.cur, limit);
            var visible := VisitRows(sizes, n);
            st.outcome.Open? ==>
              var i := st.outcome.section;
              0 <= i < |pages| && st.next.cur == i &&
              var visit := CUR_HIDE + VisitOutput(pages[i], View(0, 0, false), more, visible, texts.sectionHint, limit);
              (RunVisit(View(0, 0, false), more, |pages[i]|, visible).left ==>
                 out + menu + visit + SessionOutput(pages, texts, sizes, n + 1, st.next, more[ExitPrefix(more)..], limit) == whole) &&
              (!RunVisit(View(0, 0, false), more, |pages[i]|, visible).left ==> out + menu + visit == whole)
  {
    assert ([key] + more)[1..] == more;
    var st := MenuKey(s, key, |pages|);
    if st.outcome.Open? {
      SessionOutputOpen(out, whole, pages, texts, sizes, n, s, key, more, st.outcome.section, limit);
    }
  }

  /** The opening case of that round on its own. */
  lemma SessionOutputOpen(out: seq<byte>, whole: seq<byte>, pages: seq<seq<seq<byte>>>, texts: Texts,
                          sizes: nat -> Input.RowsQuery, n: nat, s: MenuState, key: int, more: seq<int>, section: int,
                          limit: Option<nat>)
    requires 0 <= s.cur < |pages|
    requires MenuKey(s, key, |pages|).outcome == Open(section)
    requires out + SessionOutput(pages, texts, sizes, n, s, [key] + more, limit) == whole
    ensures 0 <= section < |pages|
    ensures var visible := VisitRows(sizes, n);
            var menu := MenuFrame(texts, s.cur, limit);
            var visit := CUR_HIDE + VisitOutput(pages[section], View(0, 0, false), more, visible, texts.sectionHint, limit);
            var left := RunVisit(View(0, 0, false), more, |pages[section]|, visible).left;
            (left ==> out + menu + visit + SessionOutput(pages, texts, sizes, n + 1, MenuState(section, false), more[ExitPrefix(more)..], limit) == whole) &&
            (!left ==> out + menu + visit == whole)
  {
    assert ([key] + more)[1..] == more;
    assert MenuKey(s, key, |pages|).next == MenuState(section, false);
    var visible := VisitRows(sizes, n);
    var menu := MenuFrame(texts, s.cur, limit);
    var visit := CUR_HIDE + VisitOutput(pages[section], View(0, 0, false), more, visible, texts.sectionHint, limit);
    AppendAssoc(out, menu, visit);
    if RunVisit(View(0, 0, false), more, |pages[section]|, visible).left {
      var after := SessionOutput(pages, texts, sizes, n + 1, MenuState(section, false), more[ExitPrefix(more)..], limit);
      AppendAssoc(out, menu + visit, after);
    }
  }

  /** What a menu round owes to the rest of the session once the key
      `keys[k]` is read and is not an opening key: a quit key ends the
      session with the farewell, any other key leaves the rest of the
      keys to the next state. */
  lemma MenuRoundFacts(pages: seq<seq<seq<byte>>>, texts: Texts, sizes: nat -> Input.RowsQuery, n: nat, keys: seq<int>, k: nat,
                       s: MenuState, whole: seq<byte>, out: seq<byte>, frame: seq<byte>, complete: bool, quits: bool, limit: Option<nat>)
    requires k < |keys| && 0 <= s.cur < |pages|
    requires quits == MenuRun(s, keys[k..], |pages|).quit
    requires complete ==> out + SessionOutput(pages, texts, sizes, n, s, keys[k..], limit) == whole
    requires complete ==> frame == MenuFrame(texts, s.cur, limit)
    ensures var st := MenuKey(s, keys[k], |pages|);
            st.outcome.Quit? ==> quits && (complete ==> out + frame + Farewell(limit) == whole)
    ensures var st := MenuKey(s, keys[k], |pages|);
            st.outcome.Stay? ==>
              0 <= st.next.cur < |pages| &&
              quits == MenuRun(st.next, keys[k + 1..], |pages|).quit &&
              (complete ==> out + frame + SessionOutput(pages, texts, sizes, n, st.next, keys[k + 1..], limit) == whole)
  {
    assert keys[k..] == [keys[k]] + keys[k + 1..];
    assert keys[k..][1..] == keys[k + 1..];
    if complete {
      SessionOutputAdvance(out, whole, pages, texts, sizes, n, s, keys[k], keys[k + 1..], limit);
    }
  }

  /** The keys around a visit opened by `keys[k]`: it reads up to its
      exit key, after which the session goes on from the opened entry at
      `keys[k']`; without an exit key the keys end in it and the session
      does not quit. */
  lemma OpenRunFacts(n: int, keys: seq<int>, k: nat, s: MenuState, section: int, k': nat, total: int, visible: int, quits: bool)
    requires k < |keys|
    requires MenuKey(s, keys[k], n).outcome == Open(section)
    requires k' == k + 1 + RunVisit(View(0, 0, false), keys[k + 1..], total, visible).used
    requires quits == MenuRun(s, keys[k..], n).quit
    ensures var run := RunVisit(View(0, 0, false), keys[k + 1..], total, visible);
            k' <= |keys| && keys[k + 1..][run.used..] == keys[k'..] && k' == k + 1 + ExitPrefix(keys[k + 1..]) &&
            keys[k..] == [keys[k]] + keys[k + 1..] && keys[k + 1..][ExitPrefix(keys[k + 1..])..] == keys[k'..] &&
            (run.left ==> quits == MenuRun(MenuState(section, false), keys[k'..], n).quit) &&
            (!run.left ==> !quits && k' == |keys|)
  {
    var more := keys[k + 1..];
    assert keys[k..] == [keys[k]] + more;
    assert keys[k..][1..] == more;
    RunVisitReadsToExit(View(0, 0, false), more, total, visible);
    assert more[ExitPrefix(more)..] == keys[k'..];
    if !RunVisit(View(0, 0, false), more, total, visible).left {
      assert keys[k'..] == [];
    }
  }

  /** What the session writes around visit `n`, opened by `key` and
      followed by the keys `more`: the menu frame and the visit, then, if
      the visit was left, the rest of the session from the opened entry,
      at the keys `after` its exit key. */
  lemma OpenOutputFacts(pages: seq<seq<seq<byte>>>, texts: Texts, sizes: nat -> Input.RowsQuery, n: nat, s: MenuState,
                        key: int, more: seq<int>, after: seq<int>, section: int, whole: seq<byte>, out: seq<byte>,
                        frame: seq<byte>, visit: seq<byte>, limit: Option<nat>)
    requires 0 <= s.cur < |pages|
    requires MenuKey(s, key, |pages|).outcome == Open(section)
    requires after == more[ExitPrefix(more)..]
    requires out + SessionOutput(pages, texts, sizes, n, s, [key] + more, limit) == whole
    requires frame == MenuFrame(texts, s.cur, limit)
    requires 0 <= section < |pages|
    requires visit == CUR_HIDE + VisitOutput(pages[section], View(0, 0, false), more, VisitRows(sizes, n), texts.sectionHint, limit)
    ensures var left := RunVisit(View(0, 0, false), more, |pages[section]|, VisitRows(sizes, n)).left;
            (left ==> out + (frame + visit) + SessionOutput(pages, texts, sizes, n + 1, MenuState(section, false), after, limit) == whole) &&
            (!left ==> out + (frame + visit) == whole)
  {
    SessionOutputOpen(out, whole, pages, texts, sizes, n, s, key, more, section, limit);
    AppendAssoc(out, frame, visit);
  }

  /** Both together, after an opened section has returned, `visit` being
      what it wrote over the display list `lines`. */
  lemma OpenRoundFacts(pages: seq<seq<seq<byte>>>, texts: Texts, sizes: nat -> Input.RowsQuery, n: nat, keys: seq<int>, k: nat,
                       s: MenuState, section: int, k': nat, whole: seq<byte>, out: seq<byte>, frame: seq<byte>, lines: seq<seq<byte>>,
                       visit: seq<byte>, complete: bool, quits: bool, limit: Option<nat>)
    requires k < |keys| && 0 <= s.cur < |pages|
    requires MenuKey(s, keys[k], |pages|).outcome == Open(section)
    requires k' == k + 1 + RunVisit(View(0, 0, false), keys[k + 1..], |lines|, VisitRows(sizes, n)).used
    requires quits == MenuRun(s, keys[k..], |pages|).quit
    requires complete ==> out + SessionOutput(pages, texts, sizes, n, s, keys[k..], limit) == whole
    requires complete ==> frame == MenuFrame(texts, s.cur, limit)
    requires complete ==> lines == pages[section]
    requires complete ==> visit == CUR_HIDE + VisitOutput(lines, View(0, 0, false), keys[k + 1..], VisitRows(sizes, n), texts.sectionHint, limit)
    ensures var run := RunVisit(View(0, 0, false), keys[k + 1..], |lines|, VisitRows(sizes, n));
            0 <= section < |pages| && k' <= |keys| && keys[k + 1..][run.used..] == keys[k'..] &&
            (run.left ==>
               quits == MenuRun(MenuState(section, false), keys[k'..], |pages|).quit &&
               (complete ==> out + (frame + visit) + SessionOutput(pages, texts, sizes, n + 1, MenuState(section, false), keys[k'..], limit) == whole)) &&
            (!run.left ==> !quits && k' == |keys| && (complete ==> out + (frame + visit) == whole))
  {
    assert MenuKey(s, keys[k], |pages|).next == MenuState(section, false);
    OpenRunFacts(|pages|, keys, k, s, section, k', |lines|, VisitRows(sizes, n), quits);
    if complete {
      OpenOutputFacts(pages, texts, sizes, n, s, keys[k], keys[k + 1..], keys[k'..], section, whole, out, frame, visit, limit);
    }
  }
}
