/** nvimtutor's display-line list: a heap array of strdup'ed lines that
    doubles from 128 entries and is rebuilt from a section on every visit. */
module NvimFlat {
  import opened Bytes
  import opened Ansi
  import opened Markup

  const INITIAL_CAP := 128

  /** The capacity after adding to a list of `total` lines. */
  function AddCap(cap: nat, total: nat): nat
  {
    if total < cap then cap else if cap == 0 then INITIAL_CAP else 2 * cap
  }

  class Store {
    /** `flat[0 .. flat_total)`, the texts the entries point to. */
    var lines: seq<seq<byte>>
    /** `flat_cap` */
    var cap: nat
    /** How many adds realloc has failed so far. */
    ghost var failures: nat

    ghost predicate Valid()
      reads this
    {
      |lines| <= cap
    }

    constructor ()
      ensures Valid() && lines == [] && cap == 0 && failures == 0
    {
      lines := [];
      cap := 0;
      failures := 0;
    }

    /** `flat_free`: the texts are released, the array and its capacity kept. */
    method Free()
      requires Valid()
      modifies this
      ensures Valid() && lines == [] && cap == old(cap) && failures == old(failures)
    {
      lines := [];
    }

    /** `flat_add`: a full array doubles first; when realloc fails (a choice
        the model leaves open) the line is dropped. */
    method Add(s: seq<byte>) returns (ok: bool)
      requires Valid()
      modifies this
      ensures Valid()
      ensures ok ==> lines == old(lines) + [s] && cap == AddCap(old(cap), old(|lines|)) && failures == old(failures)
      ensures !ok ==> lines == old(lines) && cap == old(cap) && old(|lines|) >= old(cap) && failures == old(failures) + 1
    {
      if |lines| >= cap {
        var nc := if cap != 0 then cap * 2 else INITIAL_CAP;
        var reallocOk: bool := *;
        if !reallocOk {
          failures := failures + 1;
          return false;
        }
        cap := nc;
      }
      lines := lines + [s];
      return true;
    }

    /** The list is what is left of `target` once `failures - base` of its
        lines were dropped, and it is `target` itself when none was. */
    ghost predicate Tracks(target: seq<seq<byte>>, base: nat)
      reads this
    {
      Valid() && failures >= base && IsSubseq(lines, target) &&
      |lines| + (failures - base) == |target| &&
      (failures == base ==> lines == target)
    }

    /** Adds `s`, a line the model records in the ghost list `target`. */
    method AddTracked(s: seq<byte>, ghost target: seq<seq<byte>>, ghost base: nat)
      requires Tracks(target, base)
      modifies this
      ensures Tracks(target + [s], base)
    {
      var ok := Add(s);
      SubseqSnoc(old(lines), target, s, ok);
    }

    method AddTrackedTwo(a: seq<byte>, b: seq<byte>, ghost target: seq<seq<byte>>, ghost base: nat)
      requires Tracks(target, base)
      modifies this
      ensures Tracks(target + [a, b], base)
    {
      AddTracked(a, target, base);
      AddTracked(b, target + [a], base);
      assert target + [a] + [b] == target + [a, b];
    }

    method AddTrackedThree(a: seq<byte>, b: seq<byte>, c: seq<byte>, ghost target: seq<seq<byte>>, ghost base: nat)
      requires Tracks(target, base)
      modifies this
      ensures Tracks(target + [a, b, c], base)
    {
      AddTrackedTwo(a, b, target, base);
      AddTracked(c, target + [a, b], base);
      assert target + [a, b] + [c] == target + [a, b, c];
    }

    /** One turn of `flat_build`'s loop: the switch on the tag adds the
        line's display lines one `flat_add` at a time. */
    method AddTagged(line: seq<byte>, ghost target: seq<seq<byte>>, ghost base: nat)
      requires WellFormed(line) && Tracks(target, base)
      modifies this
      ensures Tracks(target + Expand(NVIM, line), base)
    {
      var tag := Tag(line);
      if tag == TAG_TITLE {
        var title := TitleLine(NVIM, Content(line));
        assert Expand(NVIM, line) == [SEP_LINE, title, SEP_LINE];
        AddTrackedThree(SEP_LINE, title, SEP_LINE, target, base);
      } else if tag == TAG_GROUP {
        var head := HeadLine(NVIM, Content(line));
        assert Expand(NVIM, line) == [[], head];
        AddTrackedTwo([], head, target, base);
      } else if tag == TAG_ROW {
        assert Expand(NVIM, line) == [RowLine(NVIM, Content(line))];
        AddTracked(RowLine(NVIM, Content(line)), target, base);
      } else if tag == TAG_NOTE {
        assert Expand(NVIM, line) == [NoteLine(NVIM, Content(line))];
        AddTracked(NoteLine(NVIM, Content(line)), target, base);
      } else if tag == TAG_BLANK {
        assert Expand(NVIM, line) == [[]];
        AddTracked([], target, base);
      } else {
        assert Expand(NVIM, line) == [RawLine(NVIM, line)];
        AddTracked(RawLine(NVIM, line), target, base);
      }
    }

    /** `flat_build`: the list is emptied, then each tagged line adds its
        display lines. Whatever the list held before, the result is the
        compiled section with one line missing for each failed realloc,
        so it is the compiled section exactly when no realloc failed. */
    method Build(sec: seq<seq<byte>>)
      requires Valid() && AllWellFormed(sec)
      modifies this
      ensures Valid() && failures >= old(failures)
      ensures IsSubseq(lines, Compile(NVIM, sec))
      ensures |lines| + (failures - old(failures)) == |Compile(NVIM, sec)|
      ensures lines == Compile(NVIM, sec) <==> failures == old(failures)
    {
      Free();
      ghost var base := failures;
      ghost var target: seq<seq<byte>> := [];
      var i := 0;
      assert sec[..0] == [];
      while i < |sec|
        invariant 0 <= i <= |sec|
        invariant AllWellFormed(sec[..i])
        invariant target == Compile(NVIM, sec[..i])
        invariant base == old(failures) && Tracks(target, base)
      {
        AddTagged(sec[i], target, base);
        target := target + Expand(NVIM, sec[i]);
        assert sec[..i + 1] == sec[..i] + [sec[i]];
        CompileSnoc(NVIM, sec[..i], sec[i]);
        i := i + 1;
      }
      assert sec[..|sec|] == sec;
    }
  }
}
