/** zshtutor's display-line list: a fixed array of 900 entries of 320
    bytes each. Long lines are cut and lines past the 900th are ignored. */
module ZshFlat {
  import opened Bytes
  import opened Ansi
  import opened Markup

  /** `FLAT_MAX` */
  const FLAT_MAX := 900
  /** `FLAT_LEN`; an entry holds at most FLAT_LEN - 1 bytes and a NUL. */
  const FLAT_LEN := 320

  /** What the array holds after adding `ls` to an empty list: the first
      900 lines, each cut to 319 bytes. */
  function Stored(ls: seq<seq<byte>>): (r: seq<seq<byte>>)
    ensures |r| == if |ls| <= FLAT_MAX then |ls| else FLAT_MAX
    ensures forall i :: 0 <= i < |r| ==> r[i] == Take(ls[i], FLAT_LEN - 1)
  {
    var n := if |ls| <= FLAT_MAX then |ls| else FLAT_MAX;
    seq(n, i requires 0 <= i < n => Take(ls[i], FLAT_LEN - 1))
  }

  lemma StoredSnoc(ls: seq<seq<byte>>, s: seq<byte>)
    ensures Stored(ls + [s]) == if |ls| >= FLAT_MAX then Stored(ls) else Stored(ls) + [Take(s, FLAT_LEN - 1)]
  {
    if |ls| >= FLAT_MAX {
      assert forall i :: 0 <= i < FLAT_MAX ==> (ls + [s])[i] == ls[i];
    } else {
      assert forall i :: 0 <= i < |ls| ==> (ls + [s])[i] == ls[i];
    }
  }

  /** The compiled lines of zshtutor already fit an entry, so the store
      keeps them whole and only the 900-line bound can drop any. */
  lemma StoredCompile(sec: seq<seq<byte>>)
    requires AllWellFormed(sec)
    ensures var c := Compile(ZSH, sec);
            Stored(c) == if |c| <= FLAT_MAX then c else c[..FLAT_MAX]
  {
    CompileLinesFit(ZSH, sec);
  }

  class Store {
    /** `flat`, each entry modelled by the string it holds. */
    var text: array<seq<byte>>
    /** `flat_total` */
    var total: nat

    ghost predicate Valid()
      reads this, text
    {
      text.Length == FLAT_MAX && total <= FLAT_MAX &&
      forall i :: 0 <= i < total ==> |text[i]| < FLAT_LEN
    }

    function Lines(): seq<seq<byte>>
      reads this, text
      requires Valid()
    {
      text[..total]
    }

    constructor ()
      ensures Valid() && fresh(text) && Lines() == []
    {
      text := new seq<byte>[FLAT_MAX];
      total := 0;
    }

    /** `flat_add`: ignored once 900 lines are held; otherwise the line is
        copied, cut to 319 bytes. */
    method Add(s: seq<byte>)
      requires Valid()
      modifies this, text
      ensures Valid() && text == old(text)
      ensures Lines() == if old(total) >= FLAT_MAX then old(Lines()) else old(Lines()) + [Take(s, FLAT_LEN - 1)]
    {
      if total >= FLAT_MAX {
        return;
      }
      text[total] := Take(s, FLAT_LEN - 1);
      total := total + 1;
      assert Lines() == old(Lines()) + [Take(s, FLAT_LEN - 1)];
    }

    /** One turn of `flat_build`'s loop: the switch on the tag adds the
        line's display lines one `flat_add` at a time. */
    method AddTagged(line: seq<byte>, ghost held: seq<seq<byte>>)
      requires Valid() && WellFormed(line) && Lines() == Stored(held)
      modifies this, text
      ensures Valid() && text == old(text)
      ensures Lines() == Stored(held + Expand(ZSH, line))
    {
      var tag := Tag(line);
      if tag == TAG_TITLE {
        var title := TitleLine(ZSH, Content(line));
        assert Expand(ZSH, line) == [SEP_LINE, title, SEP_LINE];
        AddThree(SEP_LINE, title, SEP_LINE, held);
      } else if tag == TAG_GROUP {
        var head := HeadLine(ZSH, Content(line));
        assert Expand(ZSH, line) == [[], head];
        AddTwo([], head, held);
      } else if tag == TAG_ROW {
        assert Expand(ZSH, line) == [RowLine(ZSH, Content(line))];
        AddOne(RowLine(ZSH, Content(line)), held);
      } else if tag == TAG_NOTE {
        assert Expand(ZSH, line) == [NoteLine(ZSH, Content(line))];
        AddOne(NoteLine(ZSH, Content(line)), held);
      } else if tag == TAG_BLANK {
        assert Expand(ZSH, line) == [[]];
        AddOne([], held);
      } else {
        assert Expand(ZSH, line) == [RawLine(ZSH, line)];
        AddOne(RawLine(ZSH, line), held);
      }
    }

    /** `flat_add` calls in a row, followed on the ghost list `held` of
        everything added since the count was reset. */
    method AddOne(a: seq<byte>, ghost held: seq<seq<byte>>)
      requires Valid() && Lines() == Stored(held)
      modifies this, text
      ensures Valid() && text == old(text)
      ensures Lines() == Stored(held + [a])
    {
      Add(a);
      StoredSnoc(held, a);
    }

    method AddTwo(a: seq<byte>, b: seq<byte>, ghost held: seq<seq<byte>>)
      requires Valid() && Lines() == Stored(held)
      modifies this, text
      ensures Valid() && text == old(text)
      ensures Lines() == Stored(held + [a, b])
    {
      AddOne(a, held);
      AddOne(b, held + [a]);
      assert held + [a] + [b] == held + [a, b];
    }

    method AddThree(a: seq<byte>, b: seq<byte>, c: seq<byte>, ghost held: seq<seq<byte>>)
      requires Valid() && Lines() == Stored(held)
      modifies this, text
      ensures Valid() && text == old(text)
      ensures Lines() == Stored(held + [a, b, c])
    {
      AddTwo(a, b, held);
      AddOne(c, held + [a, b]);
      assert held + [a, b] + [c] == held + [a, b, c];
    }

    /** `flat_build`: the count is reset, then each tagged line adds its
        display lines; the result depends on the section alone. */
    method Build(sec: seq<seq<byte>>)
      requires Valid() && AllWellFormed(sec)
      modifies this, text
      ensures Valid() && text == old(text)
      ensures Lines() == Stored(Compile(ZSH, sec))
    {
      total := 0;
      var i := 0;
      assert sec[..0] == [];
      while i < |sec|
        invariant 0 <= i <= |sec|
        invariant Valid() && text == old(text)
        invariant AllWellFormed(sec[..i])
        invariant Lines() == Stored(Compile(ZSH, sec[..i]))
      {
        AddTagged(sec[i], Compile(ZSH, sec[..i]));
        assert sec[..i + 1] == sec[..i] + [sec[i]];
        CompileSnoc(ZSH, sec[..i], sec[i]);
        i := i + 1;
      }
      assert sec[..|sec|] == sec;
    }
  }
}
