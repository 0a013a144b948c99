/** The terminal control strings and the fixed decorations both viewers
    write. Their bytes are opaque to the rest of the model except for their
    lengths, which decide where snprintf truncates. */
module Ansi {
  import opened Bytes

  const ESC: byte := 27

  /** A control sequence introduced by ESC. */
  function Esc(s: string): (r: seq<byte>)
    requires forall i :: 0 <= i < |s| ==> s[i] < 128 as char
    ensures |r| == |s| + 1
  {
    [ESC] + Ascii(s)
  }

  const RESET := Esc("[0m")
  const BOLD := Esc("[1m")
  const DIM := Esc("[2m")
  const CUR_HIDE := Esc("[?25l")
  const CUR_SHOW := Esc("[?25h")
  const CLR := Esc("[2J") + Esc("[H")

  const C_TITLE := Esc("[38;5;111m")
  const C_KEY := Esc("[38;5;183m")
  const C_DESC := Esc("[38;5;252m")
  const C_HEAD := Esc("[38;5;150m")
  const C_SEP := Esc("[38;5;240m")
  const C_HINT := Esc("[38;5;109m")
  const C_CUR := Esc("[48;5;237m") + Esc("[38;5;255m")

  /** U+2501 BOX DRAWINGS HEAVY HORIZONTAL in UTF-8. */
  const HEAVY_RULE_CHAR: seq<byte> := [0xE2, 0x94, 0x81]

  /** `n` copies of `s` back to back. */
  function Repeat(s: seq<byte>, n: nat): (r: seq<byte>)
    requires |s| > 0
    ensures |r| == n * |s|
  {
    seq(n * |s|, i requires 0 <= i < n * |s| => s[i % |s|])
  }

  /** Two spaces and 54 heavy rule characters. */
  const RULE := Ascii("  ") + Repeat(HEAVY_RULE_CHAR, 54)

  /** The separator pushed into a section's line list around a title. */
  const SEP_LINE := C_SEP + RULE + RESET

  /** The separator written under a section's rows and around the menu. */
  const SEP_ROW := C_SEP + RULE + [NEWLINE] + RESET

  lemma Lengths()
    ensures |RESET| == 4 && |BOLD| == 4 && |DIM| == 4
    ensures |C_TITLE| == 11 && |C_KEY| == 11 && |C_DESC| == 11
    ensures |C_HEAD| == 11 && |C_HINT| == 11 && |C_SEP| == 11
    ensures |C_CUR| == 22
    ensures |RULE| == 164 && |SEP_LINE| == 179
  {
  }
}
