/** nvimtutor's screens and loops: every frame is assembled in the frame
    buffer and flushed in one write; the section viewer and the main loop
    read keys with the timed read_key. */
module NvimApp {
  import opened Bytes
  import opened Ansi
  import opened Markup
  import opened FrameBuffer
  import opened NvimFlat
  import opened Input
  import opened Viewport
  import opened Menu
  import opened Screen

  /** fb_appendf's cap on a formatted piece. */
  const LIMIT: Option<nat> := Some(FORMAT_MAX)

  /** The display list of every menu entry's section. */
  function Pages(sections: seq<seq<seq<byte>>>): (r: seq<seq<seq<byte>>>)
    requires forall i :: 0 <= i < |sections| ==> AllWellFormed(sections[i])
    ensures |r| == |sections| && forall i :: 0 <= i < |r| ==> r[i] == Compile(NVIM, sections[i])
  {
    seq(|sections|, i requires 0 <= i < |sections| => Compile(NVIM, sections[i]))
  }

  /** The row loop of view_section's drawing code: the rows of the window,
      in order, each through fb_appendf. When no realloc fails they are
      appended whole. */
  method AppendRows(fb: Buffer, lines: seq<seq<byte>>, v: View, visible: int)
    requires fb.Valid() && v.offset >= 0
    modifies fb
    ensures fb.Valid() && fb.failures >= old(fb.failures)
    ensures fb.failures == old(fb.failures) ==> fb.data == old(fb.data) + Render(lines, Window(v, |lines|, visible), LIMIT)
  {
    ghost var head := fb.data;
    ghost var f0 := fb.failures;
    ghost var w := Window(v, |lines|, visible);
    ghost var k := 0;
    var i := v.offset;
    assert w[..0] == [];
    while i < v.offset + visible && i < |lines|
      invariant 0 <= k <= |w| && i == v.offset + k
      invariant fb.Valid() && fb.failures >= f0
      invariant Fits(lines, w[..k])
      invariant fb.failures == f0 ==> fb.data == head + Render(lines, w[..k], LIMIT)
      decreases |lines| - i
    {
      WindowLoopCondition(v, |lines|, visible, i);
      assert w[..k + 1] == w[..k] + [w[k]];
      assert w[k] == Row(i, i == v.cursor);
      RenderSnoc(lines, w[..k], Row(i, i == v.cursor), LIMIT);
      AppendAssoc(head, Render(lines, w[..k], LIMIT), Fmt(LIMIT, RowText(lines[i], i == v.cursor)));
      var ok := fb.Appendf(RowText(lines[i], i == v.cursor));
      i := i + 1;
      k := k + 1;
    }
    WindowLoopCondition(v, |lines|, visible, i);
    assert w[..k] == w;
  }

  /** One pass of view_section's drawing code, from fb_reset to fb_flush.
      When no realloc fails the bytes written are the frame of `v`. */
  method DrawFrame(fb: Buffer, lines: seq<seq<byte>>, v: View, visible: int, hint: seq<byte>) returns (written: seq<byte>)
    requires fb.Valid() && v.offset >= 0
    modifies fb
    ensures fb.Valid() && fb.data == [] && fb.failures >= old(fb.failures)
    ensures fb.failures == old(fb.failures) ==> written == SectionFrame(lines, v, visible, hint, LIMIT)
  {
    ghost var f0 := fb.failures;
    ghost var rows := Render(lines, Window(v, |lines|, visible), LIMIT);
    ghost var status := StatusText(hint, v.cursor, |lines|);
    fb.Reset();
    var ok := fb.Append(CLR);
    AppendEmpty(CLR);
    AppendRows(fb, lines, v, visible);
    assert fb.failures == f0 ==> fb.data == CLR + rows;
    ok := fb.Append(SEP_ROW);
    assert fb.failures == f0 ==> fb.data == CLR + rows + SEP_ROW;
    ok := fb.Appendf(StatusText(hint, v.cursor, |lines|));
    assert fb.failures == f0 ==> fb.data == CLR + rows + SEP_ROW + Fmt(LIMIT, status);
    written := fb.Flush();
  }

  /** One round of view_section's loop: clamp, draw, and, unless the input
      has ended, read a key and react. `keys[k..]` are the keys still to
      come, `start` the run of the whole visit, and `whole` its output, of
      which `out` has been written as long as the buffer has had no more
      than `f0` failures. */
  method VisitRound(fb: Buffer, sv: SectionView, lines: seq<seq<byte>>, hint: seq<byte>, rest: seq<Event>,
                    ghost keys: seq<int>, ghost k: nat, ghost start: Visit, ghost whole: seq<byte>, ghost out: seq<byte>, ghost f0: nat)
    returns (written: seq<byte>, rest': seq<Event>, stop: bool, left: bool, ghost k': nat)
    requires fb.Valid() && fb.data == [] && sv.total == |lines| && fb.failures >= f0
    requires k <= |keys| && NvimKeys(rest) == keys[k..]
    requires var run := RunVisit(sv.State(), keys[k..], |lines|, sv.visible);
             start == Visit(run.last, k + run.used, run.left)
    requires fb.failures == f0 ==> out + VisitOutput(lines, sv.State(), keys[k..], sv.visible, hint, LIMIT) == whole
    modifies fb, sv
    ensures fb.Valid() && fb.data == [] && fb.failures >= old(fb.failures) && |rest'| <= |rest|
    ensures k' <= |keys| && NvimKeys(rest') == keys[k'..]
    ensures stop ==> start.used == k' && start.left == left && (fb.failures == f0 ==> out + written == whole)
    ensures !stop ==> |rest'| < |rest|
    ensures !stop ==>
              var run := RunVisit(sv.State(), keys[k'..], |lines|, sv.visible);
              start == Visit(run.last, k' + run.used, run.left) &&
              (fb.failures == f0 ==> out + written + VisitOutput(lines, sv.State(), keys[k'..], sv.visible, hint, LIMIT) == whole)
  {
    ghost var pre := sv.State();
    sv.Normalize();
    var frame := DrawFrame(fb, lines, sv.State(), sv.visible, hint);
    ghost var drawn := fb.failures == f0;
    if rest == [] {
      assert keys[k..] == [];
      VisitEndFacts(lines, keys, k, pre, start, whole, out, frame, drawn, sv.visible, hint, LIMIT);
      return frame, rest, true, false, k;
    }
    NvimKeysAdvance(keys, k, rest);
    VisitRoundFacts(lines, keys, k, pre, start, whole, out, frame, drawn, sv.visible, hint, LIMIT);
    var key := NvimReadKey(rest).0;
    rest' := NvimReadKey(rest).1;
    k' := k + 1;
    var leave := sv.Step(key);
    if leave {
      var ok := fb.Append(CUR_SHOW);
      var shown := fb.Flush();
      assert fb.failures == f0 ==> shown == CUR_SHOW;
      return frame + shown, rest', true, true, k';
    }
    written, stop, left := frame, false, false;
  }

  /** The loop of view_section: rounds until an exit key, or until the
      input ends (where the program would wait for ever). `out` is what was
      written and `rest` the unread input. */
  method VisitLoop(fb: Buffer, sv: SectionView, lines: seq<seq<byte>>, hint: seq<byte>, input: seq<Event>)
    returns (out: seq<byte>, rest: seq<Event>, left: bool)
    requires fb.Valid() && fb.data == [] && sv.total == |lines|
    modifies fb, sv
    ensures fb.Valid() && fb.data == [] && fb.failures >= old(fb.failures)
    ensures var run := RunVisit(old(sv.State()), NvimKeys(input), |lines|, sv.visible);
            left == run.left && NvimKeys(rest) == NvimKeys(input)[run.used..] && |rest| <= |input|
    ensures fb.failures == old(fb.failures) ==> out == VisitOutput(lines, old(sv.State()), NvimKeys(input), sv.visible, hint, LIMIT)
  {
    ghost var f0 := fb.failures;
    ghost var keys := NvimKeys(input);
    ghost var start := RunVisit(sv.State(), keys, |lines|, sv.visible);
    ghost var whole := VisitOutput(lines, sv.State(), keys, sv.visible, hint, LIMIT);
    ghost var k: nat := 0;
    out := [];
    rest := input;
    assert keys[0..] == keys;
    while true
      invariant fb.Valid() && fb.data == [] && fb.failures >= f0
      invariant k <= |keys| && NvimKeys(rest) == keys[k..] && |rest| <= |input|
      invariant var run := RunVisit(sv.State(), keys[k..], |lines|, sv.visible);
                start == Visit(run.last, k + run.used, run.left)
      invariant fb.failures == f0 ==> out + VisitOutput(lines, sv.State(), keys[k..], sv.visible, hint, LIMIT) == whole
      modifies fb, sv
      decreases |rest|
    {
      var written, rest', stop;
      written, rest', stop, left, k := VisitRound(fb, sv, lines, hint, rest, keys, k, start, whole, out, f0);
      out := out + written;
      rest := rest';
      if stop {
        assert start.used == k && start.left == left && (fb.failures == f0 ==> out == whole);
        break;
      }
    }
  }

  /** `view_section`: build the display list, hide the cursor, run the
      loop. Returns what was written, the unread input, and whether the
      section was left. `query` is what the terminal-size query of this
      visit's term_rows call gets. */
  method ViewSection(store: Store, fb: Buffer, sec: seq<seq<byte>>, query: RowsQuery, hint: seq<byte>, input: seq<Event>)
    returns (out: seq<byte>, rest: seq<Event>, left: bool)
    requires store.Valid() && fb.Valid() && fb.data == [] && AllWellFormed(sec)
    modifies store, fb
    ensures store.Valid() && fb.Valid() && fb.data == []
    ensures store.failures >= old(store.failures) && fb.failures >= old(fb.failures)
    ensures IsSubseq(store.lines, Compile(NVIM, sec))
    ensures |store.lines| + (store.failures - old(store.failures)) == |Compile(NVIM, sec)|
    ensures store.lines == Compile(NVIM, sec) <==> store.failures == old(store.failures)
    ensures var keys := NvimKeys(input);
            var run := RunVisit(View(0, 0, false), keys, |store.lines|, TermRows(query) - 3);
            left == run.left && NvimKeys(rest) == keys[run.used..] && |rest| <= |input|
    ensures fb.failures == old(fb.failures) ==>
              out == CUR_HIDE + VisitOutput(store.lines, View(0, 0, false), NvimKeys(input), TermRows(query) - 3, hint, LIMIT)
  {
    store.Build(sec);
    var total := |store.lines|;
    var rows := TermRows(query);
    var visible := rows - 3;
    var sv := new SectionView(total, visible);
    var ok := fb.Append(CUR_HIDE);
    AppendEmpty(CUR_HIDE);
    var hidden := fb.Flush();
    var frames;
    frames, rest, left := VisitLoop(fb, sv, store.lines, hint, input);
    out := hidden + frames;
  }

  /** The entry loop of print_menu: every entry, in order, each through
      fb_appendf. When no realloc fails they are appended whole. */
  method AppendMenuRows(fb: Buffer, labels: seq<seq<byte>>, cur: int)
    requires fb.Valid() && |labels| == NVIM_MENU_N
    modifies fb
    ensures fb.Valid() && fb.failures >= old(fb.failures)
    ensures fb.failures == old(fb.failures) ==> fb.data == old(fb.data) + RenderMenu(labels, MenuEntries(NVIM_MENU_N, cur), LIMIT)
  {
    ghost var head := fb.data;
    ghost var f0 := fb.failures;
    ghost var w := MenuEntries(NVIM_MENU_N, cur);
    assert w[..0] == [];
    for i := 0 to NVIM_MENU_N
      invariant fb.Valid() && fb.failures >= f0
      invariant Fits(labels, w[..i])
      invariant fb.failures == f0 ==> fb.data == head + RenderMenu(labels, w[..i], LIMIT)
    {
      assert w[..i + 1] == w[..i] + [w[i]];
      assert w[i] == Row(i, i == cur);
      RenderMenuSnoc(labels, w[..i], Row(i, i == cur), LIMIT);
      AppendAssoc(head, RenderMenu(labels, w[..i], LIMIT), Fmt(LIMIT, MenuRowText(i, i == cur, labels[i])));
      var ok := fb.Appendf(MenuRowText(i, i == cur, labels[i]));
    }
    assert w[..NVIM_MENU_N] == w;
  }

  /** `print_menu`: when no realloc fails the bytes written are the menu
      frame with entry `cur` selected. */
  method PrintMenu(fb: Buffer, texts: Texts, cur: int) returns (written: seq<byte>)
    requires fb.Valid() && |texts.labels| == NVIM_MENU_N
    modifies fb
    ensures fb.Valid() && fb.data == [] && fb.failures >= old(fb.failures)
    ensures fb.failures == old(fb.failures) ==> written == MenuFrame(texts, cur, LIMIT)
  {
    ghost var f0 := fb.failures;
    ghost var rows := RenderMenu(texts.labels, MenuEntries(NVIM_MENU_N, cur), LIMIT);
    fb.Reset();
    var ok := fb.Append(CLR);
    AppendEmpty(CLR);
    ok := fb.Append(texts.banner);
    ok := fb.Append(SEP_ROW);
    assert fb.failures == f0 ==> fb.data == CLR + texts.banner + SEP_ROW;
    AppendMenuRows(fb, texts.labels, cur);
    assert fb.failures == f0 ==> fb.data == CLR + texts.banner + SEP_ROW + rows;
    ok := fb.Append(SEP_ROW);
    assert fb.failures == f0 ==> fb.data == CLR + texts.banner + SEP_ROW + rows + SEP_ROW;
    ok := fb.Append(C_HINT + texts.menuHint + RESET);
    written := fb.Flush();
  }

  /** The opening branch of main's loop, once the menu frame `frame` is
      drawn for the state `s` and the key `keys[k]` has opened `section`
      as visit number `visits`: the section runs to its exit key, after
      which the loop goes on, or to the end of the input. What is said of
      the output holds as long as the buffer has had no more than `f0`
      failures and the list no more than `g0`. */
  method OpenSection(store: Store, fb: Buffer, texts: Texts, sections: seq<seq<seq<byte>>>, sizes: nat -> RowsQuery, visits: nat,
                     section: int, rest: seq<Event>, ghost pages: seq<seq<seq<byte>>>, ghost keys: seq<int>, ghost k: nat,
                     ghost s: MenuState, ghost whole: seq<byte>, ghost out: seq<byte>, frame: seq<byte>, ghost f0: nat, ghost g0: nat,
                     ghost quits: bool)
    returns (written: seq<byte>, rest': seq<Event>, stop: bool, ghost k': nat)
    requires store.Valid() && fb.Valid() && fb.data == [] && fb.failures >= f0 && store.failures >= g0
    requires |sections| == NVIM_MENU_N && |pages| == NVIM_MENU_N && 0 <= s.cur < NVIM_MENU_N
    requires forall i :: 0 <= i < |sections| ==> AllWellFormed(sections[i]) && pages[i] == Compile(NVIM, sections[i])
    requires k < |keys| && NvimKeys(rest) == keys[k + 1..]
    requires MenuKey(s, keys[k], NVIM_MENU_N).outcome == Open(section)
    requires quits == MenuRun(s, keys[k..], NVIM_MENU_N).quit
    requires fb.failures == f0 && store.failures == g0 ==>
               out + SessionOutput(pages, texts, sizes, visits, s, keys[k..], LIMIT) == whole && frame == MenuFrame(texts, s.cur, LIMIT)
    modifies store, fb
    ensures store.Valid() && fb.Valid() && fb.data == []
    ensures fb.failures >= old(fb.failures) && store.failures >= old(store.failures)
    ensures |rest'| <= |rest|
    ensures k' <= |keys| && NvimKeys(rest') == keys[k'..]
    ensures stop ==> !quits && (fb.failures == f0 && store.failures == g0 ==> out + written == whole)
    ensures !stop ==>
              quits == MenuRun(MenuState(section, false), keys[k'..], NVIM_MENU_N).quit &&
              (fb.failures == f0 && store.failures == g0 ==>
                 out + written + SessionOutput(pages, texts, sizes, visits + 1, MenuState(section, false), keys[k'..], LIMIT) == whole)
  {
    var query := sizes(visits);
    ghost var visible := VisitRows(sizes, visits);
    assert visible == TermRows(query) - 3;
    var visit, left;
    visit, rest', left := ViewSection(store, fb, sections[section], query, texts.sectionHint, rest);
    k' := k + 1 + RunVisit(View(0, 0, false), keys[k + 1..], |store.lines|, visible).used;
    OpenRoundFacts(pages, texts, sizes, visits, keys, k, s, section, k', whole, out, frame, store.lines, visit,
                   fb.failures == f0 && store.failures == g0, quits, LIMIT);
    return frame + visit, rest', !left, k';
  }

  /** The reaction of main's loop to the key `keys[k]`, read after the
      menu frame `frame`: move, quit, or open a section, which runs to its
      exit key. `rest` is the input after the key, `visits` the sections
      opened so far, `whole` the output of the whole session, of which
      `out` has been written while no more than `f0` and `g0` reallocs
      failed, and `quits` whether the session ends with a quit key. */
  method React(store: Store, fb: Buffer, mc: MenuCursor, texts: Texts, sections: seq<seq<seq<byte>>>, sizes: nat -> RowsQuery,
               visits: nat, key: int, rest: seq<Event>, ghost pages: seq<seq<seq<byte>>>, ghost keys: seq<int>, ghost k: nat,
               ghost whole: seq<byte>, ghost out: seq<byte>, frame: seq<byte>, ghost f0: nat, ghost g0: nat, ghost quits: bool)
    returns (written: seq<byte>, rest': seq<Event>, stop: bool, quit: bool, visits': nat, ghost k': nat)
    requires store.Valid() && fb.Valid() && fb.data == [] && fb.failures >= f0 && store.failures >= g0
    requires |sections| == NVIM_MENU_N && |pages| == NVIM_MENU_N
    requires forall i :: 0 <= i < |sections| ==> AllWellFormed(sections[i]) && pages[i] == Compile(NVIM, sections[i])
    requires mc.n == NVIM_MENU_N && 0 <= mc.cur < NVIM_MENU_N
    requires k < |keys| && keys[k] == key && NvimKeys(rest) == keys[k + 1..]
    requires quits == MenuRun(mc.State(), keys[k..], NVIM_MENU_N).quit
    requires fb.failures == f0 && store.failures == g0 ==>
               out + SessionOutput(pages, texts, sizes, visits, mc.State(), keys[k..], LIMIT) == whole &&
               frame == MenuFrame(texts, mc.cur, LIMIT)
    modifies store, fb, mc
    ensures store.Valid() && fb.Valid() && fb.data == [] && 0 <= mc.cur < NVIM_MENU_N
    ensures fb.failures >= old(fb.failures) && store.failures >= old(store.failures)
    ensures |rest'| <= |rest|
    ensures k' <= |keys| && NvimKeys(rest') == keys[k'..]
    ensures stop ==> quit == quits
    ensures stop && quit ==> (fb.failures == f0 && store.failures == g0 ==> out + written + Farewell(LIMIT) == whole)
    ensures stop && !quit ==> (fb.failures == f0 && store.failures == g0 ==> out + written == whole)
    ensures !stop ==>
              quits == MenuRun(mc.State(), keys[k'..], NVIM_MENU_N).quit &&
              (fb.failures == f0 && store.failures == g0 ==>
                 out + written + SessionOutput(pages, texts, sizes, visits', mc.State(), keys[k'..], LIMIT) == whole)
  {
    ghost var s := mc.State();
    var outcome := mc.Step(key);
    if outcome.Open? {
      written, rest', stop, k' :=
        OpenSection(store, fb, texts, sections, sizes, visits, outcome.section, rest, pages, keys, k, s, whole, out, frame, f0, g0, quits);
      return written, rest', stop, false, visits + 1, k';
    }
    MenuRoundFacts(pages, texts, sizes, visits, keys, k, s, whole, out, frame, fb.failures == f0 && store.failures == g0, quits, LIMIT);
    k' := k + 1;
    written, rest', stop, quit, visits' := frame, rest, outcome.Quit?, outcome.Quit?, visits;
  }

  /** One round of main's loop: draw the menu, read a key, and react.
      `keys[k..]` are the keys still to come, `visits` the sections opened
      so far, `whole` the output of the whole session, of which `out` has
      been written while no more than `f0` and `g0` reallocs failed, and
      `quits` whether the session ends with a quit key. */
  method MenuRound(store: Store, fb: Buffer, mc: MenuCursor, texts: Texts, sections: seq<seq<seq<byte>>>, sizes: nat -> RowsQuery,
                   visits: nat, rest: seq<Event>, ghost pages: seq<seq<seq<byte>>>, ghost keys: seq<int>, ghost k: nat,
                   ghost whole: seq<byte>, ghost out: seq<byte>, ghost f0: nat, ghost g0: nat, ghost quits: bool)
    returns (written: seq<byte>, rest': seq<Event>, stop: bool, quit: bool, visits': nat, ghost k': nat)
    requires store.Valid() && fb.Valid() && fb.data == [] && fb.failures >= f0 && store.failures >= g0
    requires |sections| == NVIM_MENU_N && |texts.labels| == NVIM_MENU_N && |pages| == NVIM_MENU_N
    requires forall i :: 0 <= i < |sections| ==> AllWellFormed(sections[i]) && pages[i] == Compile(NVIM, sections[i])
    requires mc.n == NVIM_MENU_N && 0 <= mc.cur < NVIM_MENU_N
    requires k <= |keys| && NvimKeys(rest) == keys[k..]
    requires quits == MenuRun(mc.State(), keys[k..], NVIM_MENU_N).quit
    requires fb.failures == f0 && store.failures == g0 ==>
               out + SessionOutput(pages, texts, sizes, visits, mc.State(), keys[k..], LIMIT) == whole
    modifies store, fb, mc
    ensures store.Valid() && fb.Valid() && fb.data == [] && 0 <= mc.cur < NVIM_MENU_N
    ensures fb.failures >= old(fb.failures) && store.failures >= old(store.failures)
    ensures |rest'| <= |rest| && (!stop ==> |rest'| < |rest|)
    ensures k' <= |keys| && NvimKeys(rest') == keys[k'..]
    ensures stop ==> quit == quits
    ensures stop && quit ==> (fb.failures == f0 && store.failures == g0 ==> out + written + Farewell(LIMIT) == whole)
    ensures stop && !quit ==> (fb.failures == f0 && store.failures == g0 ==> out + written == whole)
    ensures !stop ==>
              quits == MenuRun(mc.State(), keys[k'..], NVIM_MENU_N).quit &&
              (fb.failures == f0 && store.failures == g0 ==>
                 out + written + SessionOutput(pages, texts, sizes, visits', mc.State(), keys[k'..], LIMIT) == whole)
  {
    var frame := PrintMenu(fb, texts, mc.cur);
    if rest == [] {
      assert keys[k..] == [];
      return frame, rest, true, false, visits, k;
    }
    NvimKeysAdvance(keys, k, rest);
    var key := NvimReadKey(rest).0;
    var after := NvimReadKey(rest).1;
    written, rest', stop, quit, visits', k' :=
      React(store, fb, mc, texts, sections, sizes, visits, key, after, pages, keys, k, whole, out, frame, f0, g0, quits);
  }

  /** The loop of main: rounds until a quit key or the end of the input.
      `out` is what was written and `quit` whether a quit key ended it;
      the farewell is not part of `out`. Visit `n` of the session sees the
      terminal size `sizes(n)`. */
  method MenuLoop(store: Store, fb: Buffer, texts: Texts, sections: seq<seq<seq<byte>>>, sizes: nat -> RowsQuery, input: seq<Event>,
                  ghost pages: seq<seq<seq<byte>>>)
    returns (out: seq<byte>, quit: bool)
    requires store.Valid() && fb.Valid() && fb.data == []
    requires |sections| == NVIM_MENU_N && |texts.labels| == NVIM_MENU_N && |pages| == NVIM_MENU_N
    requires forall i :: 0 <= i < |sections| ==> AllWellFormed(sections[i]) && pages[i] == Compile(NVIM, sections[i])
    modifies store, fb
    ensures store.Valid() && fb.Valid() && fb.data == []
    ensures fb.failures >= old(fb.failures) && store.failures >= old(store.failures)
    ensures quit == MenuRun(MenuState(0, false), NvimKeys(input), NVIM_MENU_N).quit
    ensures fb.failures == old(fb.failures) && store.failures == old(store.failures) ==>
              out + (if quit then Farewell(LIMIT) else []) ==
              SessionOutput(pages, texts, sizes, 0, MenuState(0, false), NvimKeys(input), LIMIT)
  {
    ghost var f0 := fb.failures;
    ghost var g0 := store.failures;
    ghost var keys := NvimKeys(input);
    ghost var whole := SessionOutput(pages, texts, sizes, 0, MenuState(0, false), keys, LIMIT);
    ghost var quits := MenuRun(MenuState(0, false), keys, NVIM_MENU_N).quit;
    var mc := new MenuCursor(NVIM_MENU_N);
    var rest := input;
    var visits := 0;
    ghost var k: nat := 0;
    out := [];
    assert keys[0..] == keys;
    while true
      invariant store.Valid() && fb.Valid() && fb.data == [] && fb.failures >= f0 && store.failures >= g0
      invariant fresh(mc) && mc.n == NVIM_MENU_N && 0 <= mc.cur < NVIM_MENU_N
      invariant k <= |keys| && NvimKeys(rest) == keys[k..]
      invariant quits == MenuRun(mc.State(), keys[k..], NVIM_MENU_N).quit
      invariant fb.failures == f0 && store.failures == g0 ==>
                  out + SessionOutput(pages, texts, sizes, visits, mc.State(), keys[k..], LIMIT) == whole
      decreases |rest|
    {
      var written, rest', stop;
      written, rest', stop, quit, visits, k :=
        MenuRound(store, fb, mc, texts, sections, sizes, visits, rest, pages, keys, k, whole, out, f0, g0, quits);
      out := out + written;
      rest := rest';
      if stop {
        return;
      }
    }
  }

  /** The end of main once the loop has broken: the farewell frame,
      written through the frame buffer, after which the buffer is freed.
      `flat_free` empties the display list; the `free(flat)` of the
      pointer array after it is not modelled, since nothing reads the
      array again and freeing it changes no output. These are the calls of FarewellCalls followed by the free; when no
      realloc fails, the bytes written are what Replay gives for them,
      the farewell. */
  method SignOff(store: Store, fb: Buffer) returns (written: seq<byte>)
    requires store.Valid() && fb.Valid()
    modifies store, fb
    ensures store.Valid() && store.lines == [] && store.failures == old(store.failures)
    ensures !fb.live && fb.failures >= old(fb.failures)
    ensures fb.failures == old(fb.failures) ==> Replay(FarewellCalls() + [FreeCall], old(fb.data), true) == Some(written)
    ensures fb.failures == old(fb.failures) ==> written == Farewell(LIMIT)
  {
    FarewellBeforeFree(fb.data);
    store.Free();
    fb.Reset();
    var ok := fb.Append(CUR_SHOW + CLR);
    AppendEmpty(CUR_SHOW + CLR);
    ok := fb.Appendf(BYE);
    written := fb.Flush();
    fb.Release();
  }

  /** The frame-buffer calls of the farewell: `fb_reset`, `fb_append`,
      `fb_appendf`, `fb_flush`. */
  function FarewellCalls(): (calls: seq<Call>)
    ensures NeverFrees(calls)
  {
    [ResetCall, AppendCall(CUR_SHOW + CLR), AppendCall(Fmt(LIMIT, BYE)), FlushCall]
  }

  /** As main is written, `free(fbuf)` comes before the farewell. The
      `fb_reset` right after it only clears the length and is harmless;
      the `fb_append` after that reaches freed memory, whatever the buffer
      held, and so does the whole farewell. */
  lemma FarewellAfterFree(pending: seq<byte>)
    ensures Replay([FreeCall] + FarewellCalls()[..1], pending, true) == Some([])
    ensures Replay([FreeCall] + FarewellCalls()[..2], pending, true).None?
    ensures UsesFreed([FreeCall] + FarewellCalls(), pending)
    ensures Replay([FreeCall] + FarewellCalls(), pending, true).None?
  {
    var calls := [FreeCall] + FarewellCalls();
    assert calls[1..][1].AppendCall?;
    assert [FreeCall] + FarewellCalls()[..1] == [FreeCall, ResetCall];
    assert [FreeCall, ResetCall][1..] == [ResetCall];
    assert [ResetCall][1..] == [];
    assert [FreeCall] + FarewellCalls()[..2] == [FreeCall, ResetCall, AppendCall(CUR_SHOW + CLR)];
    assert [FreeCall, ResetCall, AppendCall(CUR_SHOW + CLR)][1..][1].AppendCall?;
  }

  /** With the buffer freed after the last flush, as SignOff does, the
      calls write exactly the farewell. */
  lemma FarewellBeforeFree(pending: seq<byte>)
    ensures !UsesFreed(FarewellCalls() + [FreeCall], pending)
    ensures Replay(FarewellCalls() + [FreeCall], pending, true) == Some(Farewell(LIMIT))
  {
    var calls := FarewellCalls() + [FreeCall];
    var shown := [] + (CUR_SHOW + CLR) + Fmt(LIMIT, BYE);
    assert [FreeCall][1..] == [];
    assert Replay([FreeCall], [], true) == Some([]);
    assert [FlushCall, FreeCall][1..] == [FreeCall];
    assert Replay([FlushCall, FreeCall], shown, true) == Some(shown + []);
    assert calls[1..] == [AppendCall(CUR_SHOW + CLR), AppendCall(Fmt(LIMIT, BYE)), FlushCall, FreeCall];
    assert calls[1..][1..] == [AppendCall(Fmt(LIMIT, BYE)), FlushCall, FreeCall];
    assert calls[1..][1..][1..] == [FlushCall, FreeCall];
    assert Replay(calls, pending, true) == Replay(calls[1..], [], true);
    assert Replay(calls[1..], [], true) == Replay(calls[1..][1..], [] + (CUR_SHOW + CLR), true);
    assert Replay(calls[1..][1..], [] + (CUR_SHOW + CLR), true) == Replay([FlushCall, FreeCall], shown, true);
    assert shown + [] == shown == Farewell(LIMIT);
  }

  /** `main` from `fb_append(CUR_HIDE)` on, over the tutorial texts and the
      sections of the menu: the menu loop, then, after a quit key, the
      farewell with the corrected epilogue of SignOff, which frees the
      buffer after the flush rather than before the farewell. Visit `n` sees the terminal size `sizes(n)`. The program
      would wait for ever once its input has ended; the model stops there,
      without the farewell. */
  method Run(store: Store, fb: Buffer, texts: Texts, sections: seq<seq<seq<byte>>>, sizes: nat -> RowsQuery, input: seq<Event>)
    returns (out: seq<byte>, quit: bool)
    requires store.Valid() && fb.Valid() && fb.data == []
    requires |sections| == NVIM_MENU_N && |texts.labels| == NVIM_MENU_N
    requires forall i :: 0 <= i < |sections| ==> AllWellFormed(sections[i])
    modifies store, fb
    ensures fb.failures >= old(fb.failures) && store.failures >= old(store.failures)
    ensures quit == MenuRun(MenuState(0, false), NvimKeys(input), NVIM_MENU_N).quit
    ensures quit ==> !fb.live
    ensures fb.failures == old(fb.failures) && store.failures == old(store.failures) ==>
              out == CUR_HIDE + SessionOutput(Pages(sections), texts, sizes, 0, MenuState(0, false), NvimKeys(input), LIMIT)
  {
    ghost var pages := Pages(sections);
    var ok := fb.Append(CUR_HIDE);
    var hidden := fb.Flush();
    var shown;
    shown, quit := MenuLoop(store, fb, texts, sections, sizes, input, pages);
    if quit {
      var farewell := SignOff(store, fb);
      AppendAssoc(hidden, shown, farewell);
      out := hidden + shown + farewell;
    } else {
      out := hidden + shown;
    }
  }
}
