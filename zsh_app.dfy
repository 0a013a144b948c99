/** zshtutor's screens and loops: every piece goes to the terminal through
    printf as soon as it is produced, with no buffer and no cap, and keys
    come from blocking reads only. The bytes written are returned. */
module ZshApp {
  import opened Bytes
  import opened Ansi
  import opened Markup
  import opened ZshFlat
  import opened Input
  import opened Viewport
  import opened Menu
  import opened Screen

  /** printf puts no cap on a formatted piece. */
  const NO_LIMIT: Option<nat> := None

  /** The display list of every menu entry's section, as the fixed-size
      store holds it. */
  function Pages(sections: seq<seq<seq<byte>>>): (r: seq<seq<seq<byte>>>)
    requires forall i :: 0 <= i < |sections| ==> AllWellFormed(sections[i])
    ensures |r| == |sections| && forall i :: 0 <= i < |r| ==> r[i] == Stored(Compile(ZSH, sections[i]))
  {
    seq(|sections|, i requires 0 <= i < |sections| => Stored(Compile(ZSH, sections[i])))
  }

  /** The row loop of view_section: the rows of the window, in order. */
  method PrintRows(lines: seq<seq<byte>>, v: View, visible: int) returns (out: seq<byte>)
    requires v.offset >= 0
    ensures out == Render(lines, Window(v, |lines|, visible), NO_LIMIT)
  {
    out := [];
    ghost var w := Window(v, |lines|, visible);
    ghost var k := 0;
    var i := v.offset;
    assert w[..0] == [];
    assert Fits(lines, w);
    while i < v.offset + visible && i < |lines|
      invariant 0 <= k <= |w| && i == v.offset + k
      invariant Fits(lines, w[..k])
      invariant out == Render(lines, w[..k], NO_LIMIT)
      decreases |lines| - i
    {
      WindowLoopCondition(v, |lines|, visible, i);
      RenderPrefixStep(lines, w, k, NO_LIMIT);
      assert w[k] == Row(i, i == v.cursor);
      ghost var drawn := out;
      var text := RowText(lines[i], i == v.cursor);
      out := out + text;
      assert out == drawn + Fmt(NO_LIMIT, text);
      i := i + 1;
      k := k + 1;
    }
    WindowLoopCondition(v, |lines|, visible, i);
    assert w[..k] == w;
  }

  /** One pass of view_section's drawing code: the frame of `v`. */
  method PrintFrame(lines: seq<seq<byte>>, v: View, visible: int, hint: seq<byte>) returns (out: seq<byte>)
    requires v.offset >= 0
    ensures out == SectionFrame(lines, v, visible, hint, NO_LIMIT)
  {
    var rows := PrintRows(lines, v, visible);
    out := CLR + rows;
    out := out + SEP_ROW;
    out := out + StatusText(hint, v.cursor, |lines|);
  }

  /** One round of view_section's loop: clamp, draw, and, unless the input
      has ended, read a key and react. `keys[k..]` are the keys still to
      come, `start` the run of the whole visit, and `whole` its output, of
      which `out` has been written. */
  method VisitRound(sv: SectionView, lines: seq<seq<byte>>, hint: seq<byte>, rest: seq<byte>,
                    ghost keys: seq<int>, ghost k: nat, ghost start: Visit, ghost whole: seq<byte>, ghost out: seq<byte>)
    returns (written: seq<byte>, rest': seq<byte>, stop: bool, left: bool, ghost k': nat)
    requires sv.total == |lines|
    requires k <= |keys| && ZshKeys(rest) == keys[k..]
    requires var run := RunVisit(sv.State(), keys[k..], |lines|, sv.visible);
             start == Visit(run.last, k + run.used, run.left)
    requires out + VisitOutput(lines, sv.State(), keys[k..], sv.visible, hint, NO_LIMIT) == whole
    modifies sv
    ensures |rest'| <= |rest|
    ensures k' <= |keys| && ZshKeys(rest') == keys[k'..]
    ensures stop ==> start.used == k' && start.left == left && out + written == whole
    ensures !stop ==> |rest'| < |rest|
    ensures !stop ==>
              var run := RunVisit(sv.State(), keys[k'..], |lines|, sv.visible);
              start == Visit(run.last, k' + run.used, run.left) &&
              out + written + VisitOutput(lines, sv.State(), keys[k'..], sv.visible, hint, NO_LIMIT) == whole
  {
    ghost var pre := sv.State();
    sv.Normalize();
    var frame := PrintFrame(lines, sv.State(), sv.visible, hint);
    if rest == [] {
      assert keys[k..] == [];
      VisitEndFacts(lines, keys, k, pre, start, whole, out, frame, true, sv.visible, hint, NO_LIMIT);
      return frame, rest, true, false, k;
    }
    ZshKeysAdvance(keys, k, rest);
    VisitRoundFacts(lines, keys, k, pre, start, whole, out, frame, true, sv.visible, hint, NO_LIMIT);
    var key := ZshReadKey(rest).0;
    rest' := ZshReadKey(rest).1;
    k' := k + 1;
    var leave := sv.Step(key);
    if leave {
      return frame + CUR_SHOW, rest', true, true, k';
    }
    written, stop, left := frame, false, false;
  }

  /** The loop of view_section: rounds until an exit key, or until the
      input ends (where the program would read end of file for ever).
      `out` is what was written and `rest` the unread input. */
  method VisitLoop(sv: SectionView, lines: seq<seq<byte>>, hint: seq<byte>, input: seq<byte>)
    returns (out: seq<byte>, rest: seq<byte>, left: bool)
    requires sv.total == |lines|
    modifies sv
    ensures var run := RunVisit(old(sv.State()), ZshKeys(input), |lines|, sv.visible);
            left == run.left && ZshKeys(rest) == ZshKeys(input)[run.used..] && |rest| <= |input|
    ensures out == VisitOutput(lines, old(sv.State()), ZshKeys(input), sv.visible, hint, NO_LIMIT)
  {
    ghost var keys := ZshKeys(input);
    ghost var start := RunVisit(sv.State(), keys, |lines|, sv.visible);
    ghost var whole := VisitOutput(lines, sv.State(), keys, sv.visible, hint, NO_LIMIT);
    ghost var k: nat := 0;
    out := [];
    rest := input;
    assert keys[0..] == keys;
    AppendEmpty(whole);
    while true
      invariant k <= |keys| && ZshKeys(rest) == keys[k..] && |rest| <= |input|
      invariant var run := RunVisit(sv.State(), keys[k..], |lines|, sv.visible);
                start == Visit(run.last, k + run.used, run.left)
      invariant out + VisitOutput(lines, sv.State(), keys[k..], sv.visible, hint, NO_LIMIT) == whole
      modifies sv
      decreases |rest|
    {
      var written, rest', stop;
      written, rest', stop, left, k := VisitRound(sv, lines, hint, rest, keys, k, start, whole, out);
      out := out + written;
      rest := rest';
      if stop {
        assert start.used == k && start.left == left && out == whole;
        break;
      }
    }
  }

  /** `view_section`: build the display list, hide the cursor, run the
      loop. Returns what was written, the unread input, and whether the
      section was left. `query` is what the terminal-size query of this
      visit's term_rows call gets. */
  method ViewSection(store: Store, sec: seq<seq<byte>>, query: RowsQuery, hint: seq<byte>, input: seq<byte>)
    returns (out: seq<byte>, rest: seq<byte>, left: bool)
    requires store.Valid() && AllWellFormed(sec)
    modifies store, store.text
    ensures store.Valid() && store.text == old(store.text)
    ensures store.Lines() == Stored(Compile(ZSH, sec))
    ensures var keys := ZshKeys(input);
            var run := RunVisit(View(0, 0, false), keys, |store.Lines()|, TermRows(query) - 3);
            left == run.left && ZshKeys(rest) == keys[run.used..] && |rest| <= |input|
    ensures out == CUR_HIDE + VisitOutput(store.Lines(), View(0, 0, false), ZshKeys(input), TermRows(query) - 3, hint, NO_LIMIT)
  {
    store.Build(sec);
    var lines := store.Lines();
    var rows := TermRows(query);
    var visible := rows - 3;
    var sv := new SectionView(|lines|, visible);
    var frames;
    frames, rest, left := VisitLoop(sv, lines, hint, input);
    assert store.Lines() == lines;
    out := CUR_HIDE + frames;
  }

  /** The entry loop of print_menu: every entry, in order. */
  method PrintMenuRows(labels: seq<seq<byte>>, cur: int) returns (out: seq<byte>)
    requires |labels| == ZSH_MENU_N
    ensures out == RenderMenu(labels, MenuEntries(ZSH_MENU_N, cur), NO_LIMIT)
  {
    out := [];
    ghost var w := MenuEntries(ZSH_MENU_N, cur);
    assert w[..0] == [];
    for i := 0 to ZSH_MENU_N
      invariant Fits(labels, w[..i])
      invariant out == RenderMenu(labels, w[..i], NO_LIMIT)
    {
      MenuEntriesStep(labels, cur, i, NO_LIMIT);
      ghost var drawn := out;
      var text := MenuRowText(i, i == cur, labels[i]);
      out := out + text;
      assert out == drawn + Fmt(NO_LIMIT, text);
    }
    assert w[..ZSH_MENU_N] == w;
  }

  /** `print_menu`: the menu frame with entry `cur` selected. */
  method PrintMenu(texts: Texts, cur: int) returns (out: seq<byte>)
    requires |texts.labels| == ZSH_MENU_N
    ensures out == MenuFrame(texts, cur, NO_LIMIT)
  {
    out := CLR + texts.banner;
    out := out + SEP_ROW;
    var rows := PrintMenuRows(texts.labels, cur);
    out := out + rows;
    out := out + SEP_ROW;
    out := out + (C_HINT + texts.menuHint + RESET);
  }

  /** The opening branch of main's loop, once the menu frame `frame` is
      drawn for the state `s` and the key `keys[k]` has opened `section`
      as visit number `visits`: the section runs to its exit key, after
      which the loop goes on, or to the end of the input. */
  method OpenSection(store: Store, texts: Texts, sections: seq<seq<seq<byte>>>, sizes: nat -> RowsQuery, visits: nat, section: int,
                     rest: seq<byte>, ghost pages: seq<seq<seq<byte>>>, ghost keys: seq<int>, ghost k: nat, ghost s: MenuState,
                     ghost whole: seq<byte>, ghost out: seq<byte>, frame: seq<byte>, ghost quits: bool)
    returns (written: seq<byte>, rest': seq<byte>, stop: bool, ghost k': nat)
    requires store.Valid()
    requires |sections| == ZSH_MENU_N && |pages| == ZSH_MENU_N && 0 <= s.cur < ZSH_MENU_N
    requires forall i :: 0 <= i < |sections| ==> AllWellFormed(sections[i]) && pages[i] == Stored(Compile(ZSH, sections[i]))
    requires k < |keys| && ZshKeys(rest) == keys[k + 1..]
    requires MenuKey(s, keys[k], ZSH_MENU_N).outcome == Open(section)
    requires quits == MenuRun(s, keys[k..], ZSH_MENU_N).quit
    requires out + SessionOutput(pages, texts, sizes, visits, s, keys[k..], NO_LIMIT) == whole
    requires frame == MenuFrame(texts, s.cur, NO_LIMIT)
    modifies store, store.text
    ensures store.Valid() && store.text == old(store.text)
    ensures |rest'| <= |rest|
    ensures k' <= |keys| && ZshKeys(rest') == keys[k'..]
    ensures stop ==> !quits && out + written == whole
    ensures !stop ==>
              quits == MenuRun(MenuState(section, false), keys[k'..], ZSH_MENU_N).quit &&
              out + written + SessionOutput(pages, texts, sizes, visits + 1, MenuState(section, false), keys[k'..], NO_LIMIT) == whole
  {
    var query := sizes(visits);
    ghost var visible := VisitRows(sizes, visits);
    assert visible == TermRows(query) - 3;
    var visit, left;
    visit, rest', left := ViewSection(store, sections[section], query, texts.sectionHint, rest);
    ghost var lines := store.Lines();
    k' := k + 1 + RunVisit(View(0, 0, false), keys[k + 1..], |lines|, visible).used;
    OpenRoundFacts(pages, texts, sizes, visits, keys, k, s, section, k', whole, out, frame, lines, visit, true, quits, NO_LIMIT);
    return frame + visit, rest', !left, k';
  }

  /** The reaction of main's loop to the key `keys[k]`, read after the
      menu frame `frame`: move, quit, or open a section, which runs to its
      exit key. `rest` is the input after the key, `visits` the sections
      opened so far, `whole` the output of the whole session, of which
      `out` has been written, and `quits` whether the session ends with a
      quit key. */
  method React(store: Store, mc: MenuCursor, texts: Texts, sections: seq<seq<seq<byte>>>, sizes: nat -> RowsQuery, visits: nat,
               key: int, rest: seq<byte>, ghost pages: seq<seq<seq<byte>>>, ghost keys: seq<int>, ghost k: nat,
               ghost whole: seq<byte>, ghost out: seq<byte>, frame: seq<byte>, ghost quits: bool)
    returns (written: seq<byte>, rest': seq<byte>, stop: bool, quit: bool, visits': nat, ghost k': nat)
    requires store.Valid()
    requires |sections| == ZSH_MENU_N && |pages| == ZSH_MENU_N
    requires forall i :: 0 <= i < |sections| ==> AllWellFormed(sections[i]) && pages[i] == Stored(Compile(ZSH, sections[i]))
    requires mc.n == ZSH_MENU_N && 0 <= mc.cur < ZSH_MENU_N
    requires k < |keys| && keys[k] == key && ZshKeys(rest) == keys[k + 1..]
    requires quits == MenuRun(mc.State(), keys[k..], ZSH_MENU_N).quit
    requires out + SessionOutput(pages, texts, sizes, visits, mc.State(), keys[k..], NO_LIMIT) == whole
    requires frame == MenuFrame(texts, mc.cur, NO_LIMIT)
    modifies store, store.text, mc
    ensures store.Valid() && store.text == old(store.text) && 0 <= mc.cur < ZSH_MENU_N
    ensures |rest'| <= |rest|
    ensures k' <= |keys| && ZshKeys(rest') == keys[k'..]
    ensures stop ==> quit == quits
    ensures stop && quit ==> out + written + Farewell(NO_LIMIT) == whole
    ensures stop && !quit ==> out + written == whole
    ensures !stop ==>
              quits == MenuRun(mc.State(), keys[k'..], ZSH_MENU_N).quit &&
              out + written + SessionOutput(pages, texts, sizes, visits', mc.State(), keys[k'..], NO_LIMIT) == whole
  {
    ghost var s := mc.State();
    var outcome := mc.Step(key);
    if outcome.Open? {
      written, rest', stop, k' :=
        OpenSection(store, texts, sections, sizes, visits, outcome.section, rest, pages, keys, k, s, whole, out, frame, quits);
      return written, rest', stop, false, visits + 1, k';
    }
    MenuRoundFacts(pages, texts, sizes, visits, keys, k, s, whole, out, frame, true, quits, NO_LIMIT);
    k' := k + 1;
    written, rest', stop, quit, visits' := frame, rest, outcome.Quit?, outcome.Quit?, visits;
  }

  /** One round of main's loop: draw the menu, read a key, and react.
      `keys[k..]` are the keys still to come, `visits` the sections opened
      so far, `whole` the output of the whole session, of which `out` has
      been written, and `quits` whether the session ends with a quit key. */
  method MenuRound(store: Store, mc: MenuCursor, texts: Texts, sections: seq<seq<seq<byte>>>, sizes: nat -> RowsQuery, visits: nat,
                   rest: seq<byte>, ghost pages: seq<seq<seq<byte>>>, ghost keys: seq<int>, ghost k: nat,
                   ghost whole: seq<byte>, ghost out: seq<byte>, ghost quits: bool)
    returns (written: seq<byte>, rest': seq<byte>, stop: bool, quit: bool, visits': nat, ghost k': nat)
    requires store.Valid()
    requires |sections| == ZSH_MENU_N && |texts.labels| == ZSH_MENU_N && |pages| == ZSH_MENU_N
    requires forall i :: 0 <= i < |sections| ==> AllWellFormed(sections[i]) && pages[i] == Stored(Compile(ZSH, sections[i]))
    requires mc.n == ZSH_MENU_N && 0 <= mc.cur < ZSH_MENU_N
    requires k <= |keys| && ZshKeys(rest) == keys[k..]
    requires quits == MenuRun(mc.State(), keys[k..], ZSH_MENU_N).quit
    requires out + SessionOutput(pages, texts, sizes, visits, mc.State(), keys[k..], NO_LIMIT) == whole
    modifies store, store.text, mc
    ensures store.Valid() && store.text == old(store.text) && 0 <= mc.cur < ZSH_MENU_N
    ensures |rest'| <= |rest| && (!stop ==> |rest'| < |rest|)
    ensures k' <= |keys| && ZshKeys(rest') == keys[k'..]
    ensures stop ==> quit == quits
    ensures stop && quit ==> out + written + Farewell(NO_LIMIT) == whole
    ensures stop && !quit ==> out + written == whole
    ensures !stop ==>
              quits == MenuRun(mc.State(), keys[k'..], ZSH_MENU_N).quit &&
              out + written + SessionOutput(pages, texts, sizes, visits', mc.State(), keys[k'..], NO_LIMIT) == whole
  {
    var frame := PrintMenu(texts, mc.cur);
    if rest == [] {
      assert keys[k..] == [];
      return frame, rest, true, false, visits, k;
    }
    ZshKeysAdvance(keys, k, rest);
    var key := ZshReadKey(rest).0;
    var after := ZshReadKey(rest).1;
    written, rest', stop, quit, visits', k' :=
      React(store, mc, texts, sections, sizes, visits, key, after, pages, keys, k, whole, out, frame, quits);
  }

  /** `main` after `printf(CUR_HIDE)`: rounds until a quit key, which
      prints the farewell and returns, or until the end of the input,
      where the program would read end of file for ever and the model
      stops. `quit` says which. Visit `n` of the session sees the terminal
      size `sizes(n)`. */
  method MenuLoop(store: Store, texts: Texts, sections: seq<seq<seq<byte>>>, sizes: nat -> RowsQuery, input: seq<byte>,
                  ghost pages: seq<seq<seq<byte>>>)
    returns (out: seq<byte>, quit: bool)
    requires store.Valid()
    requires |sections| == ZSH_MENU_N && |texts.labels| == ZSH_MENU_N && |pages| == ZSH_MENU_N
    requires forall i :: 0 <= i < |sections| ==> AllWellFormed(sections[i]) && pages[i] == Stored(Compile(ZSH, sections[i]))
    modifies store, store.text
    ensures quit == MenuRun(MenuState(0, false), ZshKeys(input), ZSH_MENU_N).quit
    ensures out == SessionOutput(pages, texts, sizes, 0, MenuState(0, false), ZshKeys(input), NO_LIMIT)
  {
    ghost var keys := ZshKeys(input);
    ghost var whole := SessionOutput(pages, texts, sizes, 0, MenuState(0, false), keys, NO_LIMIT);
    ghost var quits := MenuRun(MenuState(0, false), keys, ZSH_MENU_N).quit;
    var mc := new MenuCursor(ZSH_MENU_N);
    var rest := input;
    var visits := 0;
    ghost var k: nat := 0;
    out := [];
    assert keys[0..] == keys;
    AppendEmpty(whole);
    while true
      invariant store.Valid() && store.text == old(store.text)
      invariant fresh(mc) && mc.n == ZSH_MENU_N && 0 <= mc.cur < ZSH_MENU_N
      invariant k <= |keys| && ZshKeys(rest) == keys[k..]
      invariant quits == MenuRun(mc.State(), keys[k..], ZSH_MENU_N).quit
      invariant out + SessionOutput(pages, texts, sizes, visits, mc.State(), keys[k..], NO_LIMIT) == whole
      decreases |rest|
    {
      var written, rest', stop;
      written, rest', stop, quit, visits, k := MenuRound(store, mc, texts, sections, sizes, visits, rest, pages, keys, k, whole, out, quits);
      out := out + written;
      rest := rest';
      if stop {
        if quit {
          ghost var before := out;
          out := out + (CUR_SHOW + CLR);
          out := out + BYE;
          AppendAssoc(before, CUR_SHOW + CLR, BYE);
          assert Farewell(NO_LIMIT) == CUR_SHOW + CLR + BYE;
        }
        return;
      }
    }
  }

  /** `main` from `printf(CUR_HIDE)` on, over the tutorial texts and the
      sections of the menu. Visit `n` sees the terminal size `sizes(n)`. */
  method Run(store: Store, texts: Texts, sections: seq<seq<seq<byte>>>, sizes: nat -> RowsQuery, input: seq<byte>)
    returns (out: seq<byte>, quit: bool)
    requires store.Valid()
    requires |sections| == ZSH_MENU_N && |texts.labels| == ZSH_MENU_N
    requires forall i :: 0 <= i < |sections| ==> AllWellFormed(sections[i])
    modifies store, store.text
    ensures quit == MenuRun(MenuState(0, false), ZshKeys(input), ZSH_MENU_N).quit
    ensures out == CUR_HIDE + SessionOutput(Pages(sections), texts, sizes, 0, MenuState(0, false), ZshKeys(input), NO_LIMIT)
  {
    var shown;
    shown, quit := MenuLoop(store, texts, sections, sizes, input, Pages(sections));
    out := CUR_HIDE + shown;
  }
}
