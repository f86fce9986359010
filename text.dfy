/**
 * `split_text`: groups rendered blocks greedily into messages of fewer than
 * `MaxLength` characters, blocks separated by a blank line, and stops once
 * `maxChunks` messages are closed.
 */
module Text {

  /** Telegram's limit on the length of one message. */
  const MaxLength := 4096

  /** `"\n\n".join(lines)`. */
  function Join(lines: seq<string>): string
  {
    if |lines| == 0 then ""
    else if |lines| == 1 then lines[0]
    else Join(lines[..|lines| - 1]) + "\n\n" + lines[|lines| - 1]
  }

  /** Every group joined: the chunks `split_text` returns. */
  function JoinEach(groups: seq<seq<string>>): (chunks: seq<string>)
    ensures |chunks| == |groups|
    ensures forall i :: 0 <= i < |groups| ==> chunks[i] == Join(groups[i])
  {
    if |groups| == 0 then [] else JoinEach(groups[..|groups| - 1]) + [Join(groups[|groups| - 1])]
  }

  /** The groups concatenated: the lines that made it into some chunk. */
  function Flatten(groups: seq<seq<string>>): seq<string>
  {
    if |groups| == 0 then [] else Flatten(groups[..|groups| - 1]) + groups[|groups| - 1]
  }

  /**
   * The variables of the loop in `split_text`: the closed chunks (as groups
   * of lines), the open chunk, the running character count, and whether
   * the early return was taken.
   */
  datatype Splitter = Splitter(closed: seq<seq<string>>, current: seq<string>, count: int, stopped: bool)

  const Start := Splitter([], [], 0, false)

  /** One iteration of the loop, for one line. */
  function Step(s: Splitter, line: string, maxChunks: int): Splitter
  {
    if |line| + s.count + 2 < MaxLength then
      s.(count := s.count + |line| + 2, current := s.current + [line])
    else
      var closed := s.closed + [s.current];
      Splitter(closed, [line], |line|, |closed| == maxChunks)
  }

  /** The loop over `lines`, ending early once `stopped`. */
  function Run(s: Splitter, lines: seq<string>, maxChunks: int): Splitter
    decreases |lines|
  {
    if |lines| == 0 || s.stopped then s else Run(Step(s, lines[0], maxChunks), lines[1..], maxChunks)
  }

  /** How many lines the loop takes before it ends. */
  function Consumed(s: Splitter, lines: seq<string>, maxChunks: int): nat
    decreases |lines|
  {
    if |lines| == 0 || s.stopped then 0 else 1 + Consumed(Step(s, lines[0], maxChunks), lines[1..], maxChunks)
  }

  /** The groups of lines behind the returned chunks. */
  function Groups(lines: seq<string>, maxChunks: int): seq<seq<string>>
  {
    var s := Run(Start, lines, maxChunks);
    if s.stopped then s.closed else s.closed + [s.current]
  }

  /** What `split_text(lines, max_chunks)` returns. */
  function Chunks(lines: seq<string>, maxChunks: int): seq<string>
  {
    JoinEach(Groups(lines, maxChunks))
  }

  /** `split_text`, with its loop and its early return. */
  method SplitText(lines: seq<string>, maxChunks: int) returns (chunks: seq<string>)
    ensures chunks == Chunks(lines, maxChunks)
  {
    chunks := [];
    var current: seq<string> := [];
    var charCount := 0;
    ghost var closed: seq<seq<string>> := [];
    for i := 0 to |lines|
      invariant chunks == JoinEach(closed)
      invariant Run(Start, lines, maxChunks) == Run(Splitter(closed, current, charCount, false), lines[i..], maxChunks)
    {
      ghost var before := Splitter(closed, current, charCount, false);
      assert lines[i..][0] == lines[i] && lines[i..][1..] == lines[i + 1..];
      var line := lines[i];
      var count := |line|;
      if count + charCount + 2 < MaxLength {
        charCount := charCount + count;
        charCount := charCount + 2;
        current := current + [line];
      } else {
        charCount := count;
        chunks := chunks + [Join(current)];
        closed := closed + [current];
        current := [line];
        if |chunks| == maxChunks {
          assert Step(before, line, maxChunks) == Splitter(closed, current, charCount, true);
          return;
        }
      }
      assert Step(before, line, maxChunks) == Splitter(closed, current, charCount, false);
    }
    chunks := chunks + [Join(current)];
    closed := closed + [current];
  }

  // ---------------------------------------------------------------------
  // What the loop keeps

  /** The open chunk's character count, as the loop keeps it. */
  ghost predicate CountKept(s: Splitter)
  {
    s.count == |Join(s.current)| + (if |s.closed| == 0 && |s.current| > 0 then 2 else 0)
  }

  /** Every closed chunk of two or more lines is shorter than `MaxLength`. */
  ghost predicate Bounded(groups: seq<seq<string>>)
  {
    forall i :: 0 <= i < |groups| && |groups[i]| >= 2 ==> |Join(groups[i])| < MaxLength
  }

  /** The invariant of the loop, for `maxChunks >= 1` the chunk count too. */
  ghost predicate Good(s: Splitter, maxChunks: int)
  {
    && CountKept(s)
    && Bounded(s.closed)
    && (|s.current| >= 2 ==> |Join(s.current)| < MaxLength)
    && (|s.current| == 0 ==> |s.closed| == 0)
    && (maxChunks >= 1 ==> if s.stopped then |s.closed| == maxChunks else |s.closed| < maxChunks)
    && (maxChunks < 1 ==> !s.stopped)
    && (s.stopped ==> |s.current| == 1)
  }

  /** The lines the state has taken so far, in order. */
  function Content(s: Splitter): seq<string>
  {
    Flatten(s.closed) + s.current
  }

  lemma {:induction false} FlattenAppend(groups: seq<seq<string>>, g: seq<string>)
    ensures Flatten(groups + [g]) == Flatten(groups) + g
  {
    assert (groups + [g])[..|groups|] == groups;
  }

  lemma {:induction false} JoinAppend(lines: seq<string>, line: string)
    requires |lines| > 0
    ensures |Join(lines + [line])| == |Join(lines)| + 2 + |line|
  {
    assert (lines + [line])[..|lines|] == lines;
  }

  lemma {:induction false} StepKeeps(s: Splitter, line: string, maxChunks: int)
    requires Good(s, maxChunks) && !s.stopped
    ensures Good(Step(s, line, maxChunks), maxChunks)
    ensures Content(Step(s, line, maxChunks)) == Content(s) + [line]
  {
    var t := Step(s, line, maxChunks);
    if |line| + s.count + 2 < MaxLength {
      if |s.current| > 0 {
        JoinAppend(s.current, line);
      } else {
        assert s.current + [line] == [line];
      }
    } else {
      FlattenAppend(s.closed, s.current);
      assert Bounded(t.closed) by {
        forall i | 0 <= i < |t.closed| && |t.closed[i]| >= 2
          ensures |Join(t.closed[i])| < MaxLength
        {
          if i < |s.closed| {
            assert t.closed[i] == s.closed[i];
          } else {
            assert t.closed[i] == s.current;
          }
        }
      }
    }
  }

  lemma {:induction false} RunKeeps(s: Splitter, lines: seq<string>, maxChunks: int)
    requires Good(s, maxChunks)
    ensures Good(Run(s, lines, maxChunks), maxChunks)
    ensures Consumed(s, lines, maxChunks) <= |lines|
    ensures Content(Run(s, lines, maxChunks)) == Content(s) + lines[..Consumed(s, lines, maxChunks)]
    ensures !Run(s, lines, maxChunks).stopped ==> Consumed(s, lines, maxChunks) == |lines|
    decreases |lines|
  {
    if |lines| > 0 && !s.stopped {
      var t := Step(s, lines[0], maxChunks);
      StepKeeps(s, lines[0], maxChunks);
      RunKeeps(t, lines[1..], maxChunks);
      var k := Consumed(t, lines[1..], maxChunks);
      assert lines[..k + 1] == [lines[0]] + lines[1..][..k];
    }
  }

  /** Everything the loop establishes about its result, in one place. */
  lemma {:induction false} GroupsFacts(lines: seq<string>, maxChunks: int)
    ensures var s := Run(Start, lines, maxChunks);
      && Good(s, maxChunks)
      && Consumed(Start, lines, maxChunks) <= |lines|
      && (s.stopped ==> Groups(lines, maxChunks) == s.closed && Content(s) == lines[..Consumed(Start, lines, maxChunks)])
      && (!s.stopped ==> Flatten(Groups(lines, maxChunks)) == lines)
  {
    var s := Run(Start, lines, maxChunks);
    assert Good(Start, maxChunks);
    assert Content(Start) == [];
    RunKeeps(Start, lines, maxChunks);
    if !s.stopped {
      FlattenAppend(s.closed, s.current);
      assert lines[..|lines|] == lines;
    }
  }

  // ---------------------------------------------------------------------
  // The properties of split_text

  /** For `max_chunks >= 1` there are at most `max_chunks` chunks. */
  lemma ChunkCountBound(lines: seq<string>, maxChunks: int)
    requires maxChunks >= 1
    ensures |Chunks(lines, maxChunks)| <= maxChunks
  {
    GroupsFacts(lines, maxChunks);
  }

  /** There is always at least one chunk, an empty one at worst. */
  lemma ChunksNonEmpty(lines: seq<string>, maxChunks: int)
    ensures |Chunks(lines, maxChunks)| >= 1
  {
    GroupsFacts(lines, maxChunks);
  }

  /**
   * Chunks are whole lines, in input order: each chunk joins one group, and
   * the groups, read one after the other, are a prefix of the input.
   */
  lemma WholeLinesInOrder(lines: seq<string>, maxChunks: int)
    ensures var g := Groups(lines, maxChunks);
      && Chunks(lines, maxChunks) == JoinEach(g)
      && |Flatten(g)| <= |lines| && Flatten(g) == lines[..|Flatten(g)|]
  {
    var s := Run(Start, lines, maxChunks);
    GroupsFacts(lines, maxChunks);
    if s.stopped {
      var k := Consumed(Start, lines, maxChunks);
      assert Flatten(s.closed) + s.current == lines[..k];
      assert lines[..k][..k - 1] == lines[..k - 1];
      assert Flatten(s.closed) == lines[..k - 1];
    }
  }

  /** A chunk of two or more lines is shorter than `MaxLength`. */
  lemma LengthBound(lines: seq<string>, maxChunks: int)
    ensures var g := Groups(lines, maxChunks);
      forall i :: 0 <= i < |g| && |g[i]| >= 2 ==> |Chunks(lines, maxChunks)[i]| < MaxLength
  {
    var s := Run(Start, lines, maxChunks);
    GroupsFacts(lines, maxChunks);
    var g := Groups(lines, maxChunks);
    if !s.stopped {
      forall i | 0 <= i < |g| && |g[i]| >= 2
        ensures |Join(g[i])| < MaxLength
      {
        if i < |s.closed| {
          assert g[i] == s.closed[i];
        }
      }
    }
  }

  /** So when every line is shorter than `MaxLength`, so is every chunk. */
  lemma ShortLinesShortChunks(lines: seq<string>, maxChunks: int)
    requires forall i :: 0 <= i < |lines| ==> |lines[i]| < MaxLength
    ensures forall c :: c in Chunks(lines, maxChunks) ==> |c| < MaxLength
  {
    var g := Groups(lines, maxChunks);
    var chunks := Chunks(lines, maxChunks);
    LengthBound(lines, maxChunks);
    WholeLinesInOrder(lines, maxChunks);
    forall i | 0 <= i < |g|
      ensures |chunks[i]| < MaxLength
    {
      if |g[i]| == 1 {
        FlattenMember(g, i, 0);
        var j :| 0 <= j < |Flatten(g)| && Flatten(g)[j] == g[i][0];
        assert lines[j] == g[i][0];
      }
    }
  }

  lemma {:induction false} FlattenMember(groups: seq<seq<string>>, i: nat, j: nat)
    requires i < |groups| && j < |groups[i]|
    ensures exists k :: 0 <= k < |Flatten(groups)| && Flatten(groups)[k] == groups[i][j]
  {
    var n := |groups| - 1;
    FlattenAppend(groups[..n], groups[n]);
    assert groups[..n] + [groups[n]] == groups;
    var before := Flatten(groups[..n]);
    if i == n {
      assert Flatten(groups)[|before| + j] == groups[i][j];
    } else {
      assert groups[..n][i] == groups[i];
      FlattenMember(groups[..n], i, j);
      var k :| 0 <= k < |before| && before[k] == groups[i][j];
      assert Flatten(groups)[k] == before[k];
    }
  }

  /**
   * Lines are lost only on overflow: when some line is missing from the
   * chunks, there are exactly `maxChunks` of them, and the missing lines
   * are the line that closed the last chunk and all lines after it.
   */
  lemma OverflowDropsTail(lines: seq<string>, maxChunks: int)
    ensures var g := Groups(lines, maxChunks);
      Flatten(g) == lines || (maxChunks >= 1 && |g| == maxChunks && |Flatten(g)| < |lines|)
  {
    var s := Run(Start, lines, maxChunks);
    GroupsFacts(lines, maxChunks);
    WholeLinesInOrder(lines, maxChunks);
    if s.stopped {
      var k := Consumed(Start, lines, maxChunks);
      assert |Content(s)| == k;
      assert |Flatten(s.closed)| < k;
    }
  }

  /** Without a positive bound nothing is ever dropped. */
  lemma NoBoundNoLoss(lines: seq<string>, maxChunks: int)
    requires maxChunks < 1
    ensures Flatten(Groups(lines, maxChunks)) == lines
  {
    GroupsFacts(lines, maxChunks);
  }

  /** No input gives one chunk, the empty string. */
  lemma EmptyInput(maxChunks: int)
    ensures Chunks([], maxChunks) == [""]
  {
  }

  /** A first line of 4094 characters or more leaves the first chunk empty. */
  lemma LongFirstLine(lines: seq<string>, maxChunks: int)
    requires |lines| > 0 && |lines[0]| >= MaxLength - 2
    ensures |Chunks(lines, maxChunks)| >= 1 && Chunks(lines, maxChunks)[0] == ""
  {
    var t := Step(Start, lines[0], maxChunks);
    assert t.closed == [[]];
    assert Run(Start, lines, maxChunks) == Run(t, lines[1..], maxChunks);
    RunKeepsClosed(t, lines[1..], maxChunks);
    var s := Run(Start, lines, maxChunks);
    var g := Groups(lines, maxChunks);
    assert |s.closed| >= 1 && s.closed[0] == [];
    assert g[0] == [];
  }

  /** Closed chunks stay closed. */
  lemma {:induction false} RunKeepsClosed(s: Splitter, lines: seq<string>, maxChunks: int)
    ensures var t := Run(s, lines, maxChunks);
      |s.closed| <= |t.closed| && t.closed[..|s.closed|] == s.closed
    decreases |lines|
  {
    if |lines| > 0 && !s.stopped {
      var t := Step(s, lines[0], maxChunks);
      RunKeepsClosed(t, lines[1..], maxChunks);
      var u := Run(t, lines[1..], maxChunks);
      assert u.closed[..|s.closed|] == u.closed[..|t.closed|][..|s.closed|];
    }
  }

  /** Six blocks of 1000 characters make two chunks, of four and two blocks. */
  lemma SixBlocks(lines: seq<string>)
    requires |lines| == 6 && forall i :: 0 <= i < 6 ==> |lines[i]| == 1000
    ensures Groups(lines, 5) == [lines[..4], lines[4..]]
  {
    var s0 := Start;
    var s1 := Step(s0, lines[0], 5);
    var s2 := Step(s1, lines[1], 5);
    var s3 := Step(s2, lines[2], 5);
    var s4 := Step(s3, lines[3], 5);
    var s5 := Step(s4, lines[4], 5);
    var s6 := Step(s5, lines[5], 5);
    assert s4 == Splitter([], lines[..4], 4008, false);
    assert s6 == Splitter([lines[..4]], [lines[4], lines[5]], 2002, false);
    assert Run(s6, lines[6..], 5) == s6;
    assert lines[5..][1..] == lines[6..];
    assert lines[4..][1..] == lines[5..];
    assert lines[3..][1..] == lines[4..];
    assert lines[2..][1..] == lines[3..];
    assert lines[1..][1..] == lines[2..];
    assert Run(s0, lines, 5) == Run(s1, lines[1..], 5) == Run(s2, lines[2..], 5) == Run(s3, lines[3..], 5);
    assert Run(s3, lines[3..], 5) == Run(s4, lines[4..], 5) == Run(s5, lines[5..], 5) == Run(s6, lines[6..], 5);
    assert lines[4..] == [lines[4], lines[5]];
  }
}
