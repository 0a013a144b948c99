/** Terminal height and key decoding. The system calls are abstracted: the
    size query is its result, and standard input is a finite list of what
    arrives on it, its end being end of file. */
module Input {
  import opened Bytes

  const ESC_KEY := 27
  /** What read_key returns for an escape sequence of three bytes. */
  const SEQUENCE_KEY := 0
  /** What read_key returns when the first read fails. */
  const NO_KEY := -1
  const FALLBACK_ROWS := 24

  // ---------------------------------------------------------------------
  // term_rows (identical in both programs)

  /** The TIOCGWINSZ query: `None` when ioctl fails, else `ws_row`. */
  type RowsQuery = Option<nat>

  /** The reported height when the query succeeds with more than four rows,
      else 24. */
  function TermRows(query: RowsQuery): (rows: int)
    ensures rows > 4
    ensures query.Some? && query.value > 4 ==> rows == query.value
    ensures !(query.Some? && query.value > 4) ==> rows == FALLBACK_ROWS
  {
    if query.Some? && query.value > 4 then query.value else FALLBACK_ROWS
  }

  // ---------------------------------------------------------------------
  // nvimtutor's read_key: a blocking read, then two 100 ms waits

  /** What arrives on standard input: a byte, or a 100 ms stretch in which
      nothing arrives. */
  datatype Event = Byte(b: byte) | Silence

  function Silences(n: nat): (r: seq<Event>)
    ensures |r| == n && forall i :: 0 <= i < n ==> r[i] == Silence
  {
    if n == 0 then [] else Silences(n - 1) + [Silence]
  }

  predicate HasByte(input: seq<Event>)
  {
    exists i :: 0 <= i < |input| && input[i].Byte?
  }

  /** The blocking first read waits through silence; it fails at end of
      input. */
  function BlockingRead(input: seq<Event>): (r: Option<(byte, seq<Event>)>)
    ensures r.None? <==> !HasByte(input)
    ensures r.Some? ==> |r.value.1| < |input|
  {
    if input == [] then None
    else if input[0].Byte? then Some((input[0].b, input[1..]))
    else
      var r := BlockingRead(input[1..]);
      assert HasByte(input[1..]) ==> HasByte(input) by {
        if HasByte(input[1..]) {
          var i :| 0 <= i < |input[1..]| && input[1..][i].Byte?;
          assert input[i + 1].Byte?;
        }
      }
      r
  }

  /** One 100 ms wait followed by a one-byte read: `None` when the wait
      times out, or when the read fails at end of input. */
  function TimedRead(input: seq<Event>): (r: Option<(byte, seq<Event>)>)
    ensures r.Some? ==> input != [] && input[0] == Byte(r.value.0) && r.value.1 == input[1..]
    ensures r.None? ==> input == [] || input[0] == Silence
  {
    if input != [] && input[0].Byte? then Some((input[0].b, input[1..])) else None
  }

  /** The input left after a timed read that gave up. */
  function AfterTimeout(input: seq<Event>): seq<Event>
  {
    if input == [] then [] else input[1..]
  }

  /** read_key: the key and the input it leaves. A byte other than ESC is
      the key; ESC alone (a timeout or end of input at either wait) is 27,
      and ESC with two more bytes in time is 0. */
  function NvimReadKey(input: seq<Event>): (r: (int, seq<Event>))
    ensures -1 <= r.0 < 256
    ensures r.0 == NO_KEY <==> !HasByte(input)
    ensures input != [] ==> |r.1| < |input|
  {
    match BlockingRead(input)
    case None => (NO_KEY, [])
    case Some((c, rest)) =>
      if c != ESC_KEY as byte then (c as int, rest)
      else
        match TimedRead(rest)
        case None => (ESC_KEY, AfterTimeout(rest))
        case Some((_, rest')) =>
          match TimedRead(rest')
          case None => (ESC_KEY, AfterTimeout(rest'))
          case Some((_, rest'')) => (SEQUENCE_KEY, rest'')
  }

  lemma NvimPlainByte(n: nat, c: byte, rest: seq<Event>)
    requires c != 27
    ensures NvimReadKey(Silences(n) + [Byte(c)] + rest) == (c as int, rest)
  {
    SilenceThenByte(n, c, rest);
  }

  lemma {:induction false} SilenceThenByte(n: nat, c: byte, rest: seq<Event>)
    ensures BlockingRead(Silences(n) + [Byte(c)] + rest) == Some((c, rest))
  {
    var input := Silences(n) + [Byte(c)] + rest;
    if n > 0 {
      assert Silences(n) == [Silence] + Silences(n - 1) by {
        SilencesCons(n);
      }
      assert input[1..] == Silences(n - 1) + [Byte(c)] + rest;
      SilenceThenByte(n - 1, c, rest);
    } else {
      assert input[1..] == rest;
    }
  }

  lemma SilencesCons(n: nat)
    requires n > 0
    ensures Silences(n) == [Silence] + Silences(n - 1)
  {
  }

  lemma NvimEscapeAlone(rest: seq<Event>)
    ensures NvimReadKey([Byte(27), Silence] + rest) == (27, rest)
    ensures NvimReadKey([Byte(27)]) == (27, [])
  {
    assert ([Byte(27), Silence] + rest)[1..] == [Silence] + rest;
    assert ([Silence] + rest)[1..] == rest;
  }

  lemma NvimEscapeThenSlowByte(b: byte, rest: seq<Event>)
    ensures NvimReadKey([Byte(27), Byte(b), Silence] + rest) == (27, rest)
    ensures NvimReadKey([Byte(27), Byte(b)]) == (27, [])
  {
    assert ([Byte(27), Byte(b), Silence] + rest)[1..] == [Byte(b), Silence] + rest;
    assert ([Byte(b), Silence] + rest)[1..] == [Silence] + rest;
    assert ([Silence] + rest)[1..] == rest;
  }

  lemma NvimEscapeSequence(a: byte, b: byte, rest: seq<Event>)
    ensures NvimReadKey([Byte(27), Byte(a), Byte(b)] + rest) == (0, rest)
  {
    assert ([Byte(27), Byte(a), Byte(b)] + rest)[1..] == [Byte(a), Byte(b)] + rest;
    assert ([Byte(a), Byte(b)] + rest)[1..] == [Byte(b)] + rest;
    assert ([Byte(b)] + rest)[1..] == rest;
  }

  /** The keys successive read_key calls return until the input ends. */
  function NvimKeys(input: seq<Event>): seq<int>
    decreases |input|
  {
    if input == [] then [] else [NvimReadKey(input).0] + NvimKeys(NvimReadKey(input).1)
  }

  /** Reading one key moves one place along the key list. */
  lemma NvimKeysAdvance(keys: seq<int>, k: nat, input: seq<Event>)
    requires k <= |keys| && NvimKeys(input) == keys[k..] && input != []
    ensures k < |keys| && keys[k] == NvimReadKey(input).0
    ensures NvimKeys(NvimReadKey(input).1) == keys[k + 1..]
    ensures keys[k..] == [keys[k]] + keys[k + 1..]
  {
    assert keys[k..][1..] == keys[k + 1..];
  }

  // ---------------------------------------------------------------------
  // zshtutor's read_key: blocking reads only

  /** read_key over a byte stream: end of input at the first read is -1;
      ESC followed by end of input is 27; ESC and two bytes is 0. */
  function ZshReadKey(input: seq<byte>): (r: (int, seq<byte>))
    ensures -1 <= r.0 < 256
    ensures r.0 == NO_KEY <==> input == []
    ensures input != [] ==> |r.1| < |input|
  {
    if input == [] then (NO_KEY, [])
    else if input[0] != ESC_KEY as byte then (input[0] as int, input[1..])
    else if |input| < 2 then (ESC_KEY, [])
    else if |input| < 3 then (ESC_KEY, [])
    else (SEQUENCE_KEY, input[3..])
  }

  lemma ZshReadKeyCases(input: seq<byte>)
    ensures input != [] && input[0] != 27 ==> ZshReadKey(input) == (input[0] as int, input[1..])
    ensures input == [27] || (|input| == 2 && input[0] == 27) ==> ZshReadKey(input) == (27, [])
    ensures |input| >= 3 && input[0] == 27 ==> ZshReadKey(input) == (0, input[3..])
  {
  }

  function ZshKeys(input: seq<byte>): seq<int>
    decreases |input|
  {
    if input == [] then [] else [ZshReadKey(input).0] + ZshKeys(ZshReadKey(input).1)
  }

  /** Reading one key moves one place along the key list. */
  lemma ZshKeysAdvance(keys: seq<int>, k: nat, input: seq<byte>)
    requires k <= |keys| && ZshKeys(input) == keys[k..] && input != []
    ensures k < |keys| && keys[k] == ZshReadKey(input).0
    ensures ZshKeys(ZshReadKey(input).1) == keys[k + 1..]
  {
    assert keys[k..][1..] == keys[k + 1..];
  }
}
