/** The markup compiler shared by both viewers: each tagged content line
    (`T:` title, `G:` group header, `R:key|desc` row, `N:` note, `B:` blank,
    anything else raw) expands into one to three display lines. The two
    programs differ only in the `%-Ns` key width and the size of the
    snprintf buffer, which a `Dialect` carries. */
module Markup {
  import opened Bytes
  import opened Ansi

  /** `keyWidth` is the N of `%-Ns` for row keys; `lineMax` is the size of
      the snprintf buffer each formatted line goes through, minus the NUL. */
  datatype Dialect = Dialect(keyWidth: nat, lineMax: nat)

  /** nvimtutor: `%-18s` keys and `char buf[512]`. */
  const NVIM := Dialect(18, 511)
  /** zshtutor: `%-22s` keys and `char buf[FLAT_LEN]` with FLAT_LEN = 320. */
  const ZSH := Dialect(22, 319)

  /** `char key[64]` and `char desc[256]`. */
  const KEY_MAX := 63
  const DESC_MAX := 255

  const TAG_TITLE: byte := 84  // 'T'
  const TAG_GROUP: byte := 71  // 'G'
  const TAG_ROW: byte := 82    // 'R'
  const TAG_NOTE: byte := 78   // 'N'
  const TAG_BLANK: byte := 66  // 'B'

  /** `line[0]`; the empty C string has its NUL there. */
  function Tag(line: seq<byte>): byte
  {
    if line == [] then 0 else line[0]
  }

  /** The four tags whose case reads `content = line + 2` need the two
      prefix bytes to exist; `B` never reads its content and an unknown tag
      prints the raw line, so those may be shorter. */
  predicate WellFormed(line: seq<byte>)
  {
    Tag(line) in {TAG_TITLE, TAG_GROUP, TAG_ROW, TAG_NOTE} ==> |line| >= 2
  }

  predicate AllWellFormed(sec: seq<seq<byte>>)
  {
    forall i :: 0 <= i < |sec| ==> WellFormed(sec[i])
  }

  /** The payload after the tag byte and the byte following it (which is not
      checked to be ':'). */
  function Content(line: seq<byte>): seq<byte>
    requires |line| >= 2
  {
    line[2..]
  }

  // ---------------------------------------------------------------------
  // `R:` rows

  datatype RowParts = RowParts(key: seq<byte>, desc: seq<byte>)

  /** The key is what precedes the first `|`, cut to 63 bytes; the
      description is everything after it, cut to 255 bytes. Without a `|`
      the whole payload is the key. */
  function SplitRow(c: seq<byte>): (r: RowParts)
    ensures |r.key| <= KEY_MAX && |r.desc| <= DESC_MAX
  {
    match FindFirst(c, PIPE)
    case Some(p) => RowParts(Take(c[..p], KEY_MAX), Take(c[p + 1..], DESC_MAX))
    case None => RowParts(Take(c, KEY_MAX), [])
  }

  lemma SplitRowAtFirstPipe(k: seq<byte>, d: seq<byte>)
    requires PIPE !in k
    ensures SplitRow(k + [PIPE] + d) == RowParts(Take(k, KEY_MAX), Take(d, DESC_MAX))
    ensures |k| <= KEY_MAX && |d| <= DESC_MAX ==>
              SplitRow(k + [PIPE] + d).key + [PIPE] + SplitRow(k + [PIPE] + d).desc == k + [PIPE] + d
  {
    var c := k + [PIPE] + d;
    assert c[|k|] == PIPE;
    assert c[..|k|] == k;
    assert c[|k| + 1..] == d;
  }

  lemma SplitRowWithoutPipe(c: seq<byte>)
    requires PIPE !in c
    ensures SplitRow(c) == RowParts(Take(c, KEY_MAX), [])
  {
  }

  /** The row format `"  " C_KEY BOLD "%-Ns" RESET C_DESC "  %s" RESET`
      before the snprintf buffer cuts it. */
  function RowBody(d: Dialect, parts: RowParts): seq<byte>
  {
    Ascii("  ") + C_KEY + BOLD + PadRight(parts.key, d.keyWidth) + RESET + C_DESC + Ascii("  ") + parts.desc + RESET
  }

  function RowLine(d: Dialect, c: seq<byte>): seq<byte>
  {
    Take(RowBody(d, SplitRow(c)), d.lineMax)
  }

  /** Where the parts of a row land in its unbounded body: the key whole at
      byte 17, padded with spaces to the key width, then the colour switch
      and the description. */
  lemma RowBodyLayout(d: Dialect, p: RowParts)
    ensures var w := if |p.key| >= d.keyWidth then |p.key| else d.keyWidth;
            var r := RowBody(d, p);
            |r| == 38 + w + |p.desc| &&
            r[17..17 + |p.key|] == p.key &&
            (forall i :: 17 + |p.key| <= i < 17 + w ==> r[i] == SPACE) &&
            r[17 + w..] == RESET + C_DESC + Ascii("  ") + p.desc + RESET
  {
    Lengths();
    PadRightNeverTruncates(p.key, d.keyWidth);
    var pad := PadRight(p.key, d.keyWidth);
    var head := Ascii("  ") + C_KEY + BOLD;
    var tail := RESET + C_DESC + Ascii("  ") + p.desc + RESET;
    assert |head| == 17;
    assert RowBody(d, p) == head + pad + tail;
    assert (head + pad + tail)[17..17 + |pad|] == pad;
    assert (head + pad + tail)[17 + |pad|..] == tail;
  }

  /** In nvimtutor the 512-byte buffer always holds a whole row, so the row
      line is the body laid out as above. */
  lemma NvimRowNeverCut(c: seq<byte>)
    ensures RowLine(NVIM, c) == RowBody(NVIM, SplitRow(c))
  {
    var p := SplitRow(c);
    RowBodyLayout(NVIM, p);
    assert |RowBody(NVIM, p)| <= 38 + 63 + 255;
  }

  /** In zshtutor the 320-byte buffer can cut a row: a 63-byte key with a
      255-byte description loses its tail, closing RESET included. */
  lemma ZshLongRowIsCut()
    ensures var c := Spaces(63) + [PIPE] + Spaces(255);
            |RowBody(ZSH, SplitRow(c))| == 356 && |RowLine(ZSH, c)| == 319
  {
    var c := Spaces(63) + [PIPE] + Spaces(255);
    SplitRowAtFirstPipe(Spaces(63), Spaces(255));
    Lengths();
  }

  // ---------------------------------------------------------------------
  // The other tags

  function TitleLine(d: Dialect, c: seq<byte>): seq<byte>
  {
    Take(C_TITLE + BOLD + Ascii("  ") + c + RESET, d.lineMax)
  }

  function HeadLine(d: Dialect, c: seq<byte>): seq<byte>
  {
    Take(C_HEAD + BOLD + Ascii("  ## ") + c + RESET, d.lineMax)
  }

  function NoteLine(d: Dialect, c: seq<byte>): seq<byte>
  {
    Take(C_HINT + DIM + Ascii("  > ") + c + RESET, d.lineMax)
  }

  /** The fallback for an unknown tag: the whole raw line, tag included,
      after two spaces. */
  function RawLine(d: Dialect, line: seq<byte>): seq<byte>
  {
    Take(Ascii("  ") + line, d.lineMax)
  }

  /** How many display lines a tag yields. */
  function Weight(tag: byte): nat
  {
    if tag == TAG_TITLE then 3 else if tag == TAG_GROUP then 2 else 1
  }

  /** The display lines one tagged line compiles to, in the order the
      `flat_build` switch adds them. */
  function Expand(d: Dialect, line: seq<byte>): (r: seq<seq<byte>>)
    requires WellFormed(line)
    ensures |r| == Weight(Tag(line))
  {
    var tag := Tag(line);
    if tag == TAG_TITLE then [SEP_LINE, TitleLine(d, Content(line)), SEP_LINE]
    else if tag == TAG_GROUP then [[], HeadLine(d, Content(line))]
    else if tag == TAG_ROW then [RowLine(d, Content(line))]
    else if tag == TAG_NOTE then [NoteLine(d, Content(line))]
    else if tag == TAG_BLANK then [[]]
    else [RawLine(d, line)]
  }

  /** An unknown tag never fails: one line holding the raw line, cut only
      when it exceeds the buffer. */
  lemma UnknownTagIsVerbatim(d: Dialect, line: seq<byte>)
    requires Tag(line) !in {TAG_TITLE, TAG_GROUP, TAG_ROW, TAG_NOTE, TAG_BLANK}
    requires |line| + 2 <= d.lineMax
    ensures WellFormed(line)
    ensures Expand(d, line) == [Ascii("  ") + line]
  {
  }

  /** The display list of a whole section. */
  function Compile(d: Dialect, sec: seq<seq<byte>>): seq<seq<byte>>
    requires AllWellFormed(sec)
  {
    if sec == [] then [] else Compile(d, sec[..|sec| - 1]) + Expand(d, sec[|sec| - 1])
  }

  lemma CompileSnoc(d: Dialect, sec: seq<seq<byte>>, line: seq<byte>)
    requires AllWellFormed(sec) && WellFormed(line)
    ensures AllWellFormed(sec + [line])
    ensures Compile(d, sec + [line]) == Compile(d, sec) + Expand(d, line)
  {
    assert (sec + [line])[..|sec|] == sec;
  }

  function CountTag(sec: seq<seq<byte>>, tag: byte): nat
  {
    if sec == [] then 0
    else CountTag(sec[..|sec| - 1], tag) + (if Tag(sec[|sec| - 1]) == tag then 1 else 0)
  }

  /** Three display lines per title, two per group header, one per any
      other tagged line. */
  lemma {:induction false} CompileCount(d: Dialect, sec: seq<seq<byte>>)
    requires AllWellFormed(sec)
    ensures |Compile(d, sec)| == |sec| + 2 * CountTag(sec, TAG_TITLE) + CountTag(sec, TAG_GROUP)
  {
    if sec != [] {
      var init := sec[..|sec| - 1];
      assert AllWellFormed(init);
      CompileCount(d, init);
    }
  }

  /** Every compiled line fits in the buffer (the fixed separator is 179 bytes). */
  lemma {:induction false} CompileLinesFit(d: Dialect, sec: seq<seq<byte>>)
    requires AllWellFormed(sec)
    requires d.lineMax >= 179
    ensures forall i :: 0 <= i < |Compile(d, sec)| ==> |Compile(d, sec)[i]| <= d.lineMax
  {
    Lengths();
    if sec != [] {
      var init := sec[..|sec| - 1];
      assert AllWellFormed(init);
      CompileLinesFit(d, init);
    }
  }
}
