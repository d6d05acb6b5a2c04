/** The argument page `load` builds for a new program: a table of 4-byte
    pointers, one per argument, followed by the argument strings, each
    ended by a NUL. `base` is the page's virtual address, so the pointers
    are virtual addresses; the strings start right after the table. */
module Arguments {
  import opened Machine
  import opened Util

  /** `argsSize` after the first `i` arguments: for each, 4 bytes of
      pointer plus the string and its NUL. */
  function ArgsSize(args: seq<seq<byte>>, i: int): int
    requires 0 <= i <= |args|
  {
    if i == 0 then 0 else ArgsSize(args, i - 1) + 4 + |args[i - 1]| + 1
  }

  /** The first `i` argument strings, each followed by a NUL, back to back. */
  function Strings(args: seq<seq<byte>>, i: int): seq<byte>
    requires 0 <= i <= |args|
  {
    if i == 0 then [] else Strings(args, i - 1) + (args[i - 1] + [0])
  }

  /** Where string `i` starts, relative to the start of the page: after the
      pointer table and the strings before it. */
  function StringOffset(args: seq<seq<byte>>, i: int): int
    requires 0 <= i <= |args|
  {
    4 * |args| + |Strings(args, i)|
  }

  /** The first `i` entries of the pointer table: the address of each string. */
  function PointerTable(args: seq<seq<byte>>, i: int, base: int): (r: seq<byte>)
    requires 0 <= i <= |args|
    ensures |r| == 4 * i
  {
    if i == 0 then [] else PointerTable(args, i - 1, base) + BytesFromInt(base + StringOffset(args, i - 1))
  }

  /** The argument page: the pointer table, then the strings. */
  function ArgPage(args: seq<seq<byte>>, base: int): seq<byte>
  {
    PointerTable(args, |args|, base) + Strings(args, |args|)
  }

  lemma {:induction false} ArgsSizeIsImageSize(args: seq<seq<byte>>, i: int)
    requires 0 <= i <= |args|
    ensures ArgsSize(args, i) == 4 * i + |Strings(args, i)|
  {
    if i > 0 {
      ArgsSizeIsImageSize(args, i - 1);
    }
  }

  /** The argument page is `argsSize` bytes long, the size `load` checks
      against one page. */
  lemma ArgPageSize(args: seq<seq<byte>>, base: int)
    ensures |ArgPage(args, base)| == ArgsSize(args, |args|)
  {
    ArgsSizeIsImageSize(args, |args|);
  }

  lemma {:induction false} PointerTablePrefix(args: seq<seq<byte>>, i: int, m: int, base: int)
    requires 0 <= i <= m <= |args|
    ensures PointerTable(args, m, base)[..4 * i] == PointerTable(args, i, base)
    decreases m - i
  {
    if i < m {
      PointerTablePrefix(args, i, m - 1, base);
      PrefixOfAppend(PointerTable(args, m - 1, base), BytesFromInt(base + StringOffset(args, m - 1)), 4 * i);
    }
  }

  lemma {:induction false} StringsPrefix(args: seq<seq<byte>>, i: int, m: int)
    requires 0 <= i <= m <= |args|
    ensures |Strings(args, i)| <= |Strings(args, m)|
    ensures Strings(args, m)[..|Strings(args, i)|] == Strings(args, i)
    decreases m - i
  {
    if i < m {
      StringsPrefix(args, i, m - 1);
      assert Strings(args, m)[..|Strings(args, m - 1)|] == Strings(args, m - 1);
    }
  }

  /** The pointer table and the strings of the first `i` arguments fit in
      the page. */
  lemma StringsBound(args: seq<seq<byte>>, i: int)
    requires 0 <= i <= |args|
    ensures StringOffset(args, i) <= ArgsSize(args, |args|)
    ensures i < |args| ==> StringOffset(args, i) + |args[i]| + 1 <= ArgsSize(args, |args|)
  {
    ArgsSizeIsImageSize(args, |args|);
    StringsPrefix(args, i, |args|);
    if i < |args| {
      StringsPrefix(args, i + 1, |args|);
    }
  }

  /** Slot `i` of the pointer table holds the image of the address of string `i`. */
  lemma PointerStored(args: seq<seq<byte>>, base: int, i: int)
    requires 0 <= i < |args|
    ensures ArgPage(args, base)[4 * i .. 4 * i + 4] == BytesFromInt(base + StringOffset(args, i))
  {
    SlotPrefix(args, base, i);
    RunAfterPrefix(PointerTable(args, |args|, base), Strings(args, |args|),
                   PointerTable(args, i, base), BytesFromInt(base + StringOffset(args, i)));
  }

  /** The table up to and including slot `i`. */
  lemma SlotPrefix(args: seq<seq<byte>>, base: int, i: int)
    requires 0 <= i < |args|
    ensures PointerTable(args, |args|, base)[..4 * (i + 1)]
            == PointerTable(args, i, base) + BytesFromInt(base + StringOffset(args, i))
  {
    PointerTablePrefix(args, i + 1, |args|, base);
    TablesGrow(args, i, base);
  }

  /** Pointer `i` of the argument page decodes to the address of string
      `i`: `base + 4*argc` plus the lengths (each with its NUL) of the
      strings before it. */
  lemma PointerDecodes(args: seq<seq<byte>>, base: int, i: int)
    requires 0 <= i < |args|
    requires IsInt32(base + StringOffset(args, i))
    ensures BytesToInt(ArgPage(args, base)[4 * i .. 4 * i + 4])
            == base + 4 * |args| + ArgsSize(args, i) - 4 * i
  {
    var word := ArgPage(args, base)[4 * i .. 4 * i + 4];
    PointerStored(args, base, i);
    DecodeImage(word, base + StringOffset(args, i));
    ArgsSizeIsImageSize(args, i);
  }

  lemma DecodeImage(word: seq<byte>, v: int)
    requires IsInt32(v) && word == BytesFromInt(v)
    ensures BytesToInt(word) == v
  {
    BytesRoundTrip(v);
  }

  /** String `i` sits at its offset in the argument page, followed by a NUL. */
  lemma StringStored(args: seq<seq<byte>>, base: int, i: int)
    requires 0 <= i < |args|
    ensures StringOffset(args, i) + |args[i]| < |ArgPage(args, base)|
    ensures ArgPage(args, base)[StringOffset(args, i) .. StringOffset(args, i) + |args[i]|] == args[i]
    ensures ArgPage(args, base)[StringOffset(args, i) + |args[i]|] == 0
  {
    StringsPrefix(args, i + 1, |args|);
    var before := Strings(args, i);
    assert Strings(args, i + 1) == before + (args[i] + [0]);
    StringInConcat(PointerTable(args, |args|, base), Strings(args, |args|), before, args[i], 0);
  }

  /** When `strings` starts with `before + w + [z]`, then in `table + strings`
      the run `w` and then `z` follow `table + before`. */
  lemma StringInConcat<T>(table: seq<T>, strings: seq<T>, before: seq<T>, w: seq<T>, z: T)
    requires |before| + |w| + 1 <= |strings| && strings[..|before| + |w| + 1] == before + (w + [z])
    ensures (table + strings)[|table| + |before| .. |table| + |before| + |w|] == w
    ensures (table + strings)[|table| + |before| + |w|] == z
  {
    var o := |table| + |before|;
    forall x | 0 <= x <= |w|
      ensures (table + strings)[o + x] == (w + [z])[x]
    {
      assert strings[..|before| + |w| + 1][|before| + x] == (before + (w + [z]))[|before| + x];
    }
  }

  /** Memory after the first `i` rounds of `load`'s argument loop, starting
      from `mem`, when the argument page's frame starts at `phys`: the
      first `i` pointers and the first `i` strings are in place. */
  function RoundsImage(mem: seq<byte>, phys: int, args: seq<seq<byte>>, i: int, base: int): (r: seq<byte>)
    requires 0 <= phys && 0 <= i <= |args| && phys + ArgsSize(args, |args|) <= |mem|
    ensures |r| == |mem|
  {
    StringsBound(args, i);
    ArgsSizeIsImageSize(args, i);
    Splice(Splice(mem, phys, PointerTable(args, i, base)), phys + 4 * |args|, Strings(args, i))
  }

  /** Round `i` writes pointer `i` into its slot and string `i` with its
      NUL after the strings before it. */
  lemma RoundStep(mem: seq<byte>, phys: int, args: seq<seq<byte>>, i: int, base: int,
                  before: seq<byte>, p: int, pointer: seq<byte>, q: int, after: seq<byte>)
    requires 0 <= phys && 0 <= i < |args| && phys + ArgsSize(args, |args|) <= |mem|
    requires before == RoundsImage(mem, phys, args, i, base)
    requires p == phys + 4 * i && pointer == BytesFromInt(base + StringOffset(args, i))
    requires q == phys + StringOffset(args, i) && StringOffset(args, i) + |args[i]| + 1 <= ArgsSize(args, |args|)
    requires after == Splice(Splice(before, p, pointer), q, args[i] + [0])
    ensures after == RoundsImage(mem, phys, args, i + 1, base)
  {
    StringsBound(args, i + 1);
    TablesGrow(args, i, base);
    var x, y := PointerTable(args, i, base), Strings(args, i);
    var x', y' := PointerTable(args, i + 1, base), Strings(args, i + 1);
    var next := RoundsImage(mem, phys, args, i + 1, base);
    RoundsImageIs(mem, phys, args, i, base, x, y, before);
    RoundsImageIs(mem, phys, args, i + 1, base, x', y', next);
    SpliceExtendBoth(mem, phys, x, phys + 4 * |args|, y, p, pointer, q, args[i] + [0], x', y', before, after);
    SplicedTwiceUnique(after, next, mem, phys, x', phys + 4 * |args|, y');
  }

  /** `RoundsImage` spelled out, for named table and strings. */
  lemma RoundsImageIs(mem: seq<byte>, phys: int, args: seq<seq<byte>>, i: int, base: int,
                      x: seq<byte>, y: seq<byte>, r: seq<byte>)
    requires 0 <= phys && 0 <= i <= |args| && phys + ArgsSize(args, |args|) <= |mem|
    requires x == PointerTable(args, i, base) && y == Strings(args, i)
    requires r == RoundsImage(mem, phys, args, i, base)
    ensures SplicedTwice(r, mem, phys, x, phys + 4 * |args|, y)
  {
    StringsBound(args, i);
    ArgsSizeIsImageSize(args, i);
  }

  /** Round `i` adds one slot to the pointer table and one string. */
  lemma TablesGrow(args: seq<seq<byte>>, i: int, base: int)
    requires 0 <= i < |args|
    ensures PointerTable(args, i + 1, base) == PointerTable(args, i, base) + BytesFromInt(base + StringOffset(args, i))
    ensures Strings(args, i + 1) == Strings(args, i) + (args[i] + [0])
  {
  }

  /** After every round the memory holds the whole argument page. */
  lemma RoundsComplete(mem: seq<byte>, phys: int, args: seq<seq<byte>>, base: int)
    requires 0 <= phys && phys + ArgsSize(args, |args|) <= |mem|
    ensures |ArgPage(args, base)| == ArgsSize(args, |args|)
    ensures RoundsImage(mem, phys, args, |args|, base) == Splice(mem, phys, ArgPage(args, base))
  {
    ArgsSizeIsImageSize(args, |args|);
    SpliceExtend(mem, phys, PointerTable(args, |args|, base), phys + 4 * |args|, Strings(args, |args|));
  }

  /** Before the first round nothing is written. */
  lemma NoRounds(mem: seq<byte>, phys: int, args: seq<seq<byte>>, base: int)
    requires 0 <= phys && phys + ArgsSize(args, |args|) <= |mem|
    ensures RoundsImage(mem, phys, args, 0, base) == mem
  {
    ArgsSizeIsImageSize(args, |args|);
    SpliceEmpty(mem, phys);
    SpliceEmpty(mem, phys + 4 * |args|);
  }
}
