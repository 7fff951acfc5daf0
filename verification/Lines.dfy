/** The line table: offsets to lines and back. */
module Lines {
  import opened Bytes

  const NEWLINE: byte := 10
  const RETURN: byte := 13

  /** Line starts found in the first `n` bytes. */
  function StartsUpTo(content: seq<scalar>, n: nat): seq<nat>
    requires n <= |content|
  {
    if n == 0 then [0]
    else StartsUpTo(content, n - 1) + if content[n - 1] == NEWLINE then [n] else []
  }

  /** The start of every line; a final newline opens no further line. */
  function LineStarts(content: seq<scalar>): seq<nat> {
    if content == [] then [] else StartsUpTo(content, |content| - 1)
  }

  method FindLineStarts(content: seq<scalar>) returns (starts: seq<nat>)
    ensures starts == LineStarts(content)
  {
    hide StartsUpTo;
    starts := [];
    if content != [] {
      starts := [0];
      StartsStep(content, 0);
      for i := 0 to |content|
        invariant starts == StartsUpTo(content, i)
      {
        StartsStep(content, i + 1);
        if content[i] == NEWLINE {
          starts := starts + [i + 1];
        }
      }
      TrimFinal(content);
      if |starts| > 1 && starts[|starts| - 1] == |content| {
        starts := starts[..|starts| - 1];
      }
    }
  }

  lemma StartsStep(content: seq<scalar>, n: nat)
    requires n <= |content|
    ensures StartsUpTo(content, n)
         == if n == 0 then [0] else if content[n - 1] == NEWLINE then StartsUpTo(content, n - 1) + [n]
            else StartsUpTo(content, n - 1)
  {
  }

  /** Dropping a final empty line leaves the table. */
  lemma TrimFinal(content: seq<scalar>)
    requires content != []
    ensures var all := StartsUpTo(content, |content|);
            LineStarts(content) == if |all| > 1 && all[|all| - 1] == |content| then all[..|all| - 1] else all
  {
    hide StartsUpTo;
    StartsFacts(content, |content| - 1);
    StartsStep(content, |content|);
  }

  /** The table starts at 0, ascends, and holds exactly the offsets right after a newline. */
  ghost predicate IsTable(starts: seq<nat>, content: seq<scalar>, n: nat) {
    && n <= |content| && starts != [] && starts[0] == 0
    && (forall i, j :: 0 <= i < j < |starts| ==> starts[i] < starts[j])
    && (forall i :: 0 <= i < |starts| ==> starts[i] <= n && (starts[i] == 0 || content[starts[i] - 1] == NEWLINE))
    && (forall k :: 0 <= k < n && content[k] == NEWLINE ==> k + 1 in starts)
  }

  lemma {:induction false} StartsFacts(content: seq<scalar>, n: nat)
    requires n <= |content|
    ensures IsTable(StartsUpTo(content, n), content, n)
  {
    hide StartsUpTo, IsTable;
    StartsStep(content, n);
    if n == 0 {
      FirstLine(content);
    } else {
      StartsFacts(content, n - 1);
      if content[n - 1] == NEWLINE {
        TableGrows(StartsUpTo(content, n - 1), content, n);
      } else {
        TableStays(StartsUpTo(content, n - 1), content, n);
      }
    }
  }

  lemma FirstLine(content: seq<scalar>)
    ensures IsTable([0], content, 0)
  {
  }

  lemma TableGrows(starts: seq<nat>, content: seq<scalar>, n: nat)
    requires 0 < n <= |content| && IsTable(starts, content, n - 1) && content[n - 1] == NEWLINE
    ensures IsTable(starts + [n], content, n)
  {
    var after := starts + [n];
    assert after[|starts|] == n;
    forall k | 0 <= k < n && content[k] == NEWLINE
      ensures k + 1 in after
    {
      if k < n - 1 {
        assert k + 1 in starts;
      }
    }
  }

  lemma TableStays(starts: seq<nat>, content: seq<scalar>, n: nat)
    requires 0 < n <= |content| && IsTable(starts, content, n - 1) && content[n - 1] != NEWLINE
    ensures IsTable(starts, content, n)
  {
  }

  /** Lines start at 0 and behind every line feed but one that ends the buffer. */
  lemma LinesStart(content: seq<scalar>, at: nat)
    requires content != []
    ensures at in LineStarts(content) <==> at == 0 || (0 < at < |content| && content[at - 1] == 10)
  {
    hide StartsUpTo;
    StartsFacts(content, |content| - 1);
    var starts := LineStarts(content);
    assert starts[0] in starts;
    if at in starts {
      var i :| 0 <= i < |starts| && starts[i] == at;
    }
  }

  /** A line table that serves `content`. */
  ghost predicate Table(starts: seq<nat>, content: seq<scalar>) {
    content != [] && IsTable(starts, content, |content| - 1)
  }

  lemma LineStartsIsTable(content: seq<scalar>)
    requires content != []
    ensures Table(LineStarts(content), content)
  {
    StartsFacts(content, |content| - 1);
  }

  /** 0-based line of an offset: the last line that starts at or before it. */
  function LineOf(starts: seq<nat>, offset: nat): (i: nat)
    ensures starts == [] ==> i == 0
    ensures starts != [] ==> i < |starts|
    ensures starts != [] && starts[0] == 0 ==> starts[i] <= offset
    ensures forall k :: i < k < |starts| ==> offset < starts[k]
  {
    if |starts| <= 1 || starts[|starts| - 1] <= offset then Max(|starts| - 1, 0)
    else LineOf(starts[..|starts| - 1], offset)
  }

  function LineStart(starts: seq<nat>, content: seq<scalar>, idx: nat): nat {
    if idx < |starts| then starts[idx] else |content|
  }

  /** End of line `idx` without its terminator; a lone final carriage return is cut off too. */
  function LineEnd(starts: seq<nat>, content: seq<scalar>, idx: nat): (end: nat) {
    var start := LineStart(starts, content, idx);
    var next := LineStart(starts, content, idx + 1);
    var end := if start < next <= |content| && content[next - 1] == NEWLINE then next - 1 else next;
    if start < end <= |content| && content[end - 1] == RETURN then end - 1 else end
  }

  /** Where line `idx` lies: from its start to the start of the next line, ending in its terminator. */
  lemma LineBounds(starts: seq<nat>, content: seq<scalar>, idx: nat)
    requires Table(starts, content) && idx < |starts|
    ensures var start, next := LineStart(starts, content, idx), LineStart(starts, content, idx + 1);
            var end := LineEnd(starts, content, idx);
            && start <= end <= next <= |content| && start < next && (next < |content| ==> end < next)
            && (forall k :: start <= k < next - 1 ==> content[k] != NEWLINE)
            && (forall k :: end <= k < next ==> content[k] == NEWLINE || content[k] == RETURN)
            && (idx > 0 ==> content[start - 1] == NEWLINE)
  {
    var start, next := LineStart(starts, content, idx), LineStart(starts, content, idx + 1);
    forall k | start <= k < next - 1
      ensures content[k] != NEWLINE
    {
      forall j | 0 <= j < |starts|
        ensures starts[j] != k + 1
      {
        assert j <= idx ==> starts[j] <= starts[idx];
        assert j > idx ==> starts[j] >= next;
      }
    }
  }

  /**
   * The terminator cut off is `\n`, `\r\n`, nothing at the end of the buffer, or a lone `\r` there;
   * and it is all of it: what stays of the line does not end in it. Line feed is 10, carriage return 13.
   */
  lemma LineTerminator(starts: seq<nat>, content: seq<scalar>, idx: nat)
    requires Table(starts, content) && idx < |starts|
    ensures var start, next := LineStart(starts, content, idx), LineStart(starts, content, idx + 1);
            var end := LineEnd(starts, content, idx);
            && start <= end <= next <= |content|
            && var cut := content[end..next];
            && (cut == [] || cut == [10] || cut == [13, 10] || cut == [13])
            && (cut == [] || cut == [13] ==> next == |content|)
            && (cut == [] ==> content[next - 1] != 10 && content[next - 1] != 13)
            && (cut == [10] && end > start ==> content[end - 1] != 13)
  {
    LineBounds(starts, content, idx);
    var start, next := LineStart(starts, content, idx), LineStart(starts, content, idx + 1);
    assert idx + 1 < |starts| ==> content[starts[idx + 1] - 1] == NEWLINE;
    var end := LineEnd(starts, content, idx);
    if end == next {
      assert content[end..next] == [];
    } else if end + 1 == next {
      assert content[end..next] == [content[end]];
    } else {
      assert content[end..next] == [content[end], content[end + 1]];
    }
  }

  /** Offsets and lines order alike, and an offset inside a line belongs to it. */
  lemma LineOfFacts(starts: seq<nat>, content: seq<scalar>, a: nat, b: nat)
    requires Table(starts, content) && a <= b
    ensures LineOf(starts, a) <= LineOf(starts, b)
    ensures forall idx :: 0 <= idx < |starts| && LineStart(starts, content, idx) <= a < LineStart(starts, content, idx + 1)
              ==> LineOf(starts, a) == idx
  {
    hide LineOf;
    var i, j := LineOf(starts, a), LineOf(starts, b);
    assert starts[i] <= a <= b;
    forall idx | 0 <= idx < |starts| && LineStart(starts, content, idx) <= a < LineStart(starts, content, idx + 1)
      ensures i == idx
    {
      assert starts[idx] <= a;
    }
  }

  /** Also for empty content, where every offset is on line 0. */
  lemma LineOfMonotone(content: seq<scalar>, a: nat, b: nat)
    requires a <= b
    ensures LineOf(LineStarts(content), a) <= LineOf(LineStarts(content), b)
  {
    hide LineOf, StartsUpTo;
    if content != [] {
      LineStartsIsTable(content);
      LineOfFacts(LineStarts(content), content, a, b);
    }
  }
}
