/** Line-oriented block detection: a sequence of lines cut into maximal runs
    of contiguous lines that share one classification, with every other line
    standing alone. The table, list and paragraph passes of the report
    converter each scan their lines this way. */
module LineRuns {

  datatype Block = Run(lines: seq<string>) | Single(line: string)

  /** The blocks of `lines` for the classification `p`, built line by line:
      a line satisfying `p` extends the run before it or starts a new one. */
  function Blocks(lines: seq<string>, p: string -> bool): seq<Block> {
    if lines == [] then []
    else
      var bs := Blocks(lines[..|lines| - 1], p);
      var l := lines[|lines| - 1];
      if !p(l) then bs + [Single(l)]
      else if bs != [] && bs[|bs| - 1].Run? then bs[..|bs| - 1] + [Run(bs[|bs| - 1].lines + [l])]
      else bs + [Run([l])]
  }

  /** A line outside the classification stands alone after the blocks before it. */
  lemma BlocksAddSingle(lines: seq<string>, l: string, p: string -> bool)
    requires !p(l)
    ensures Blocks(lines + [l], p) == Blocks(lines, p) + [Single(l)]
  {
    assert (lines + [l])[..|lines|] == lines;
  }

  /** A classified line after a run extends that run. */
  lemma BlocksExtendRun(lines: seq<string>, l: string, p: string -> bool)
    requires p(l)
    requires var bs := Blocks(lines, p); bs != [] && bs[|bs| - 1].Run?
    ensures var bs := Blocks(lines, p);
      Blocks(lines + [l], p) == bs[..|bs| - 1] + [Run(bs[|bs| - 1].lines + [l])]
  {
    assert (lines + [l])[..|lines|] == lines;
  }

  /** A classified line after anything but a run opens a new run. */
  lemma BlocksOpenRun(lines: seq<string>, l: string, p: string -> bool)
    requires p(l)
    requires var bs := Blocks(lines, p); !(bs != [] && bs[|bs| - 1].Run?)
    ensures Blocks(lines + [l], p) == Blocks(lines, p) + [Run([l])]
  {
    assert (lines + [l])[..|lines|] == lines;
  }

  /** The lines the blocks were cut from. */
  function Flatten(bs: seq<Block>): seq<string> {
    if bs == [] then []
    else Flatten(bs[..|bs| - 1]) + (match bs[|bs| - 1] case Run(ls) => ls case Single(l) => [l])
  }

  /** Every line of `ls` satisfies `p`. */
  predicate AllLines(ls: seq<string>, p: string -> bool) {
    forall l :: l in ls ==> p(l)
  }

  /** A run is non-empty and made of lines satisfying `p`; a single line does not satisfy `p`. */
  predicate WellClassified(b: Block, p: string -> bool) {
    match b
    case Run(ls) => ls != [] && AllLines(ls, p)
    case Single(l) => !p(l)
  }

  /** Blocks are well classified and no two runs are adjacent, so every run is maximal. */
  predicate Maximal(bs: seq<Block>, p: string -> bool) {
    (forall i :: 0 <= i < |bs| ==> WellClassified(bs[i], p)) &&
    (forall i :: 0 < i < |bs| ==> !(bs[i - 1].Run? && bs[i].Run?))
  }

  lemma FlattenAppend(bs: seq<Block>, b: Block)
    ensures Flatten(bs + [b]) == Flatten(bs) + Flatten([b])
  {
    assert (bs + [b])[..|bs|] == bs;
    assert [b][..0] == [];
  }

  lemma FlattenAppendSingle(bs: seq<Block>, l: string)
    ensures Flatten(bs + [Single(l)]) == Flatten(bs) + [l]
  {
    FlattenAppend(bs, Single(l));
  }

  lemma FlattenAppendRun(bs: seq<Block>, ls: seq<string>)
    ensures Flatten(bs + [Run(ls)]) == Flatten(bs) + ls
  {
    FlattenAppend(bs, Run(ls));
  }

  lemma {:induction false} BlocksFlatten(lines: seq<string>, p: string -> bool)
    ensures Flatten(Blocks(lines, p)) == lines
  {
    if lines != [] {
      var init, l := lines[..|lines| - 1], lines[|lines| - 1];
      assert lines == init + [l];
      BlocksFlatten(init, p);
      FlattenStep(init, l, p);
    }
  }

  /** One more line keeps the blocks a cut of the lines. */
  lemma FlattenStep(init: seq<string>, l: string, p: string -> bool)
    requires Flatten(Blocks(init, p)) == init
    ensures Flatten(Blocks(init + [l], p)) == init + [l]
  {
    var bs := Blocks(init, p);
    if !p(l) {
      BlocksAddSingle(init, l, p);
      FlattenAppendSingle(bs, l);
    } else if bs != [] && bs[|bs| - 1].Run? {
      BlocksExtendRun(init, l, p);
      FlattenExtend(bs, l);
    } else {
      BlocksOpenRun(init, l, p);
      FlattenAppendRun(bs, [l]);
    }
  }

  lemma FlattenExtend(bs: seq<Block>, l: string)
    requires bs != [] && bs[|bs| - 1].Run?
    ensures Flatten(bs[..|bs| - 1] + [Run(bs[|bs| - 1].lines + [l])]) == Flatten(bs) + [l]
  {
    var front, last := bs[..|bs| - 1], bs[|bs| - 1].lines;
    assert bs == front + [Run(last)];
    FlattenAppendRun(front, last);
    FlattenAppendRun(front, last + [l]);
  }

  lemma {:induction false} BlocksMaximal(lines: seq<string>, p: string -> bool)
    ensures Maximal(Blocks(lines, p), p)
  {
    if lines != [] {
      var init, l := lines[..|lines| - 1], lines[|lines| - 1];
      var bs := Blocks(init, p);
      BlocksMaximal(init, p);
      if p(l) && bs != [] && bs[|bs| - 1].Run? {
        var last := bs[|bs| - 1];
        assert WellClassified(Run(last.lines + [l]), p) by {
          assert WellClassified(last, p);
        }
      }
    }
  }

  /** The blocks partition the lines into maximal runs. */
  lemma BlocksPartition(lines: seq<string>, p: string -> bool)
    ensures Flatten(Blocks(lines, p)) == lines
    ensures Maximal(Blocks(lines, p), p)
  {
    BlocksFlatten(lines, p);
    BlocksMaximal(lines, p);
  }

  /** Any cut of the lines into maximal runs is the one `Blocks` builds. */
  lemma {:induction false} BlocksUnique(lines: seq<string>, p: string -> bool, bs: seq<Block>)
    requires Maximal(bs, p) && Flatten(bs) == lines
    ensures bs == Blocks(lines, p)
    decreases |lines|, 1
  {
    if bs != [] {
      var front, last := bs[..|bs| - 1], bs[|bs| - 1];
      assert bs == front + [last];
      assert WellClassified(last, p);
      if last.Single? {
        UniqueSingle(lines, p, bs, front, last.line);
      } else if |last.lines| == 1 {
        assert last.lines == [last.lines[0]];
        UniqueShortRun(lines, p, bs, front, last.lines[0]);
      } else {
        UniqueLongRun(lines, p, bs, front, last.lines);
      }
    }
  }

  lemma MaximalFront(bs: seq<Block>, p: string -> bool)
    requires Maximal(bs, p) && bs != []
    ensures Maximal(bs[..|bs| - 1], p)
  {
  }

  lemma {:induction false} UniqueSingle(lines: seq<string>, p: string -> bool, bs: seq<Block>,
                                       front: seq<Block>, l: string)
    requires Maximal(bs, p) && Flatten(bs) == lines
    requires bs == front + [Single(l)]
    ensures bs == Blocks(lines, p)
    decreases |lines|, 0
  {
    assert bs[..|bs| - 1] == front;
    MaximalFront(bs, p);
    assert WellClassified(bs[|bs| - 1], p);
    FlattenAppend(front, Single(l));
    assert lines == Flatten(front) + [l];
    assert lines[..|lines| - 1] == Flatten(front);
    BlocksUnique(Flatten(front), p, front);
  }

  lemma {:induction false} UniqueShortRun(lines: seq<string>, p: string -> bool, bs: seq<Block>,
                                         front: seq<Block>, l: string)
    requires Maximal(bs, p) && Flatten(bs) == lines
    requires bs == front + [Run([l])]
    ensures bs == Blocks(lines, p)
    decreases |lines|, 0
  {
    assert bs[..|bs| - 1] == front;
    MaximalFront(bs, p);
    assert WellClassified(bs[|bs| - 1], p);
    assert p(l);
    assert front == [] || !front[|front| - 1].Run? by {
      if front != [] { assert front[|front| - 1] == bs[|bs| - 2]; }
    }
    FlattenAppend(front, Run([l]));
    assert lines == Flatten(front) + [l];
    assert lines[..|lines| - 1] == Flatten(front);
    BlocksUnique(Flatten(front), p, front);
  }

  lemma {:induction false} UniqueLongRun(lines: seq<string>, p: string -> bool, bs: seq<Block>,
                                        front: seq<Block>, ls: seq<string>)
    requires Maximal(bs, p) && Flatten(bs) == lines
    requires bs == front + [Run(ls)] && |ls| >= 2
    ensures bs == Blocks(lines, p)
    decreases |lines|, 0
  {
    var init, l := ls[..|ls| - 1], ls[|ls| - 1];
    assert ls == init + [l];
    assert WellClassified(Run(ls), p) by { assert bs[|bs| - 1] == Run(ls); }
    assert p(l);
    var shorter := front + [Run(init)];
    FlattenAppend(front, Run(init));
    assert Flatten(bs) == Flatten(front) + ls by { FlattenAppend(front, Run(ls)); }
    assert lines == Flatten(shorter) + [l];
    assert lines[..|lines| - 1] == Flatten(shorter);
    assert Maximal(shorter, p) by {
      forall i | 0 <= i < |shorter| ensures WellClassified(shorter[i], p) {
        if i < |front| {
          assert shorter[i] == bs[i];
        } else {
          assert AllLines(init, p) by {
            forall x | x in init ensures p(x) { assert x in ls; }
          }
        }
      }
      forall i | 0 < i < |shorter| ensures !(shorter[i - 1].Run? && shorter[i].Run?) {
        assert shorter[i - 1] == bs[i - 1];
        if i < |front| { assert shorter[i] == bs[i]; }
      }
    }
    BlocksUnique(Flatten(shorter), p, shorter);
    assert shorter[..|shorter| - 1] == front;
  }

  /** Where the lines hold no line satisfying `p`, every line stands alone. */
  lemma {:induction false} BlocksWithoutRuns(lines: seq<string>, p: string -> bool)
    requires forall l :: l in lines ==> !p(l)
    ensures Blocks(lines, p) == seq(|lines|, i requires 0 <= i < |lines| => Single(lines[i]))
  {
    if lines != [] {
      var init := lines[..|lines| - 1];
      BlocksWithoutRuns(init, p);
    }
  }

  /** How many runs there are. */
  function RunCount(bs: seq<Block>): nat {
    if bs == [] then 0 else RunCount(bs[..|bs| - 1]) + (if bs[|bs| - 1].Run? then 1 else 0)
  }
}
