/** `ldr_exec_query_from_file`, the loader's execution of a schema or index
    file: skipping to the start line, the commit rule applied after every
    statement, and the start line it records for a restart.  Parsing,
    compiling and executing a statement are calls into the database and
    are parameters here: a run is the sequence of statements that
    executed, each with the parser's end line and whether it is COMMIT
    WORK, plus whether the run then stopped on an error. */
module LoaddbExec {
  import opened CText

  /** Number of newline characters in `s`. */
  function NewlineCount(s: seq<char>): nat {
    if |s| == 0 then 0 else (if s[0] == '\n' then 1 else 0) + NewlineCount(s[1..])
  }

  lemma {:induction false} NewlineCountConcat(x: seq<char>, y: seq<char>)
    ensures NewlineCount(x + y) == NewlineCount(x) + NewlineCount(y)
    decreases |x|
  {
    if |x| > 0 {
      assert (x + y)[1..] == x[1..] + y;
      NewlineCountConcat(x[1..], y);
    } else {
      assert x + y == y;
    }
  }

  /** `p` is the position just after the `k`-th newline of `s`. */
  predicate SkipsTo(s: seq<char>, k: nat, p: nat) {
    0 < p <= |s| && s[p - 1] == '\n' && NewlineCount(s[..p]) == k
  }

  /** Reading from position `i` until `k` more newlines have gone by: the
      position after the last of them, or `None` when the text ends
      first. */
  function AfterLinesFrom(s: seq<char>, i: nat, k: nat): Option<nat>
    requires i <= |s|
    decreases |s| - i
  {
    if k == 0 then Some(i)
    else if i == |s| then None
    else AfterLinesFrom(s, i + 1, if s[i] == '\n' then k - 1 else k)
  }

  /** The reading the restart skip performs: past the first `k` lines. */
  function AfterLines(s: seq<char>, k: nat): Option<nat> {
    AfterLinesFrom(s, 0, k)
  }

  /** What `AfterLinesFrom` computes, stated without the recursion. */
  lemma {:induction false} AfterLinesFromSpec(s: seq<char>, i: nat, k: nat)
    requires i <= |s| && k > 0
    ensures AfterLinesFrom(s, i, k).None? <==> NewlineCount(s[i..]) < k
    ensures AfterLinesFrom(s, i, k).Some? ==>
              var p := AfterLinesFrom(s, i, k).value;
              i < p <= |s| && s[p - 1] == '\n' && NewlineCount(s[i..p]) == k
    decreases |s| - i
  {
    if i < |s| {
      assert s[i..][1..] == s[i + 1..];
      var k' := if s[i] == '\n' then k - 1 else k;
      if k' > 0 {
        AfterLinesFromSpec(s, i + 1, k');
        if AfterLinesFrom(s, i, k).Some? {
          var p := AfterLinesFrom(s, i, k).value;
          assert s[i..p][1..] == s[i + 1..p];
        }
      } else {
        assert s[i..i + 1][1..] == [];
        assert NewlineCount(s[i..i + 1]) == 1;
        NewlineCountConcat(s[i..i + 1], s[i + 1..]);
        assert s[i..] == s[i..i + 1] + s[i + 1..];
      }
    }
  }

  /** Skipping `k >= 1` lines fails exactly when the text has fewer than
      `k` newlines, and otherwise stops just after the `k`-th one. */
  lemma AfterLinesSpec(s: seq<char>, k: nat)
    requires k > 0
    ensures AfterLines(s, k).None? <==> NewlineCount(s) < k
    ensures AfterLines(s, k).Some? ==> SkipsTo(s, k, AfterLines(s, k).value)
  {
    AfterLinesFromSpec(s, 0, k);
    assert s[0..] == s;
    if AfterLines(s, k).Some? {
      assert s[0..AfterLines(s, k).value] == s[..AfterLines(s, k).value];
    }
  }

  /** Skipping no lines never fails; skipping some fails exactly when the
      text has fewer newlines. */
  lemma AfterLinesFails(s: seq<char>, k: nat)
    ensures AfterLines(s, k).None? <==> k > 0 && NewlineCount(s) < k
  {
    if k > 0 {
      AfterLinesSpec(s, k);
    }
  }

  /** There is only one position just after the `k`-th newline. */
  lemma SkipsToUnique(s: seq<char>, k: nat, a: nat, b: nat)
    requires SkipsTo(s, k, a) && SkipsTo(s, k, b)
    ensures a == b
  {
    if a < b {
      SkipsToGrows(s, k, a, b);
    } else if b < a {
      SkipsToGrows(s, k, b, a);
    }
  }

  lemma SkipsToGrows(s: seq<char>, k: nat, a: nat, b: nat)
    requires SkipsTo(s, k, a) && 0 < b <= |s| && s[b - 1] == '\n' && a < b
    ensures NewlineCount(s[..b]) > k
  {
    assert s[..b] == s[..a] + s[a..b];
    NewlineCountConcat(s[..a], s[a..b]);
    var t := s[a..b];
    assert t == t[..|t| - 1] + [t[|t| - 1]];
    NewlineCountConcat(t[..|t| - 1], [t[|t| - 1]]);
  }

  /** Skipping `a` lines and then `b` more is skipping `a + b` lines. */
  lemma SkipsToCompose(s: seq<char>, a: nat, pa: nat, b: nat, pb: nat)
    requires SkipsTo(s, a, pa) && SkipsTo(s[pa..], b, pb)
    ensures SkipsTo(s, a + b, pa + pb)
  {
    assert s[..pa + pb] == s[..pa] + s[pa..][..pb];
    NewlineCountConcat(s[..pa], s[pa..][..pb]);
  }

  /** The restart skip of `ldr_exec_query_from_file`: for a start line
      above 1, characters are read until `start_line - 1` newlines have
      gone by; the end of the file before that is an error (`None`).  The
      result is the position the statements are then read from. */
  method SkipLines(input: seq<char>, startLine: int) returns (r: Option<nat>)
    ensures startLine <= 1 ==> r == Some(0)
    ensures startLine > 1 ==> r == AfterLines(input, startLine - 1)
  {
    if startLine <= 1 {
      return Some(0);
    }
    var lineCount: nat := startLine - 1;
    var pos := 0;
    while true
      invariant 0 <= pos <= |input| && lineCount > 0
      invariant AfterLinesFrom(input, pos, lineCount) == AfterLines(input, startLine - 1)
      decreases |input| - pos
    {
      if pos == |input| {
        return None;
      }
      var c := input[pos];
      pos := pos + 1;
      if c == '\n' {
        lineCount := lineCount - 1;
      }
      if lineCount == 0 {
        return Some(pos);
      }
    }
  }

  /** Absolute value. */
  function Abs(x: int): (y: int)
    ensures y >= 0 && (y == x || y == -x)
  {
    if x < 0 then -x else x
  }

  /** `%` of C on `int`: truncates toward zero, so the remainder takes the
      sign of the dividend. */
  function CRem(a: int, b: int): (r: int)
    requires b != 0
    ensures (a - r) % b == 0
    ensures -Abs(b) < r < Abs(b)
    ensures a >= 0 ==> r >= 0
    ensures a <= 0 ==> r <= 0
    ensures a >= 0 ==> (r == 0 <==> a % b == 0)
  {
    var m := Abs(a) % Abs(b);
    var q := Abs(a) / Abs(b);
    assert 0 <= m < Abs(b) && Abs(a) == q * Abs(b) + m;
    assert a == 0 ==> m == 0;
    var r := if a < 0 then -m else m;
    var k := if a < 0 then -q else q;
    assert a - r == k * Abs(b);
    MultipleMod(k, b);
    ModAbs(a, b);
    r
  }

  /** The remainder by `b` and by `|b|` coincide. */
  lemma ModAbs(a: int, b: int)
    requires b != 0
    ensures a % b == a % Abs(b)
  {
    if b < 0 {
      var q, m := a / Abs(b), a % Abs(b);
      assert a == (-q) * b + m;
      NegDivUnique(a, b, -q, m);
    }
  }

  /** A multiple of `|b|` leaves no remainder modulo `b`. */
  lemma MultipleMod(k: int, b: int)
    requires b != 0
    ensures (k * Abs(b)) % b == 0
  {
    if b > 0 {
      DivUnique(k * b, b, k, 0);
    } else {
      assert k * Abs(b) == (-k) * b;
      NegDivUnique(k * Abs(b), b, -k, 0);
    }
  }

  /** `DivUnique` for a negative divisor. */
  lemma NegDivUnique(n: int, p: int, q: int, m: int)
    requires p < 0 && 0 <= m < -p && n == q * p + m
    ensures n % p == m
  {
    var q', m' := n / p, n % p;
    assert 0 <= m' < -p;
    assert (q - q') * p == m' - m;
    if q - q' >= 1 {
      MulAtLeast(q - q', -p);
    } else if q' - q >= 1 {
      MulAtLeast(q' - q, -p);
    }
  }

  /** The commit rule applied after the `executed`-th statement: COMMIT
      WORK always commits, and so does every statement whose count is a
      multiple of a nonzero commit period. */
  predicate CommitsAfter(commitWork: bool, periodic: int, executed: nat) {
    commitWork || (periodic != 0 && CRem(executed, periodic) == 0)
  }

  /** A negative period commits like its absolute value, although commit
      messages are only turned on for a positive one. */
  lemma NegativePeriodCommits(periodic: int, executed: nat)
    requires periodic < 0
    ensures CommitsAfter(false, periodic, executed) == CommitsAfter(false, -periodic, executed)
  {
  }

  /** A statement that executed: the parser's line at its end (counted from
      where the statement reading started) and whether it is COMMIT WORK. */
  datatype Stmt = Stmt(endLine: int, commitWork: bool)

  /** The loop's state: statements executed, commits made, the start line
      recorded for a restart and the parser's last end line. */
  datatype RunState = RunState(executed: nat, commits: nat, startLine: int, endLine: int)

  /** Executing one more statement.  On a commit the recorded start line
      becomes the line after the statement, `lineBase` lines further down
      the file.  What a whole run of steps records and how often it
      commits is stated by `RunRecordsLastCommit` and `PeriodicCommitCount`. */
  function Step(st: RunState, s: Stmt, periodic: int, lineBase: nat): (r: RunState)
    ensures r.executed == st.executed + 1 && r.endLine == s.endLine
    ensures CommitsAfter(s.commitWork, periodic, r.executed) ==>
              r.commits == st.commits + 1 && r.startLine == lineBase + s.endLine + 1
    ensures !CommitsAfter(s.commitWork, periodic, r.executed) ==>
              r.commits == st.commits && r.startLine == st.startLine
  {
    var n := st.executed + 1;
    if CommitsAfter(s.commitWork, periodic, n) then RunState(n, st.commits + 1, lineBase + s.endLine + 1, s.endLine)
    else RunState(n, st.commits, st.startLine, s.endLine)
  }

  /** The statements executed in order, from the state the loop starts in
      (no statement yet, parser line 1). */
  function Run(stmts: seq<Stmt>, periodic: int, lineBase: nat, startLine: int): (r: RunState)
    ensures r.executed == |stmts| && r.commits <= |stmts|
    ensures |stmts| > 0 ==> r.endLine == stmts[|stmts| - 1].endLine
    ensures |stmts| == 0 ==> r == RunState(0, 0, startLine, 1)
    decreases |stmts|
  {
    if |stmts| == 0 then RunState(0, 0, startLine, 1)
    else Step(Run(stmts[..|stmts| - 1], periodic, lineBase, startLine), stmts[|stmts| - 1], periodic, lineBase)
  }

  /** Index of the last statement after which the rule commits. */
  function LastCommit(stmts: seq<Stmt>, periodic: int): (r: Option<nat>)
    ensures r.Some? ==> r.value < |stmts| && CommitsAfter(stmts[r.value].commitWork, periodic, r.value + 1)
    ensures r.Some? ==> forall j :: r.value < j < |stmts| ==> !CommitsAfter(stmts[j].commitWork, periodic, j + 1)
    ensures r.None? ==> forall j :: 0 <= j < |stmts| ==> !CommitsAfter(stmts[j].commitWork, periodic, j + 1)
    decreases |stmts|
  {
    if |stmts| == 0 then None
    else if CommitsAfter(stmts[|stmts| - 1].commitWork, periodic, |stmts|) then Some(|stmts| - 1)
    else LastCommit(stmts[..|stmts| - 1], periodic)
  }

  /** The start line a run records is the one after the last committed
      statement, or the one it started from when nothing was committed. */
  lemma {:induction false} RunRecordsLastCommit(stmts: seq<Stmt>, periodic: int, lineBase: nat, startLine: int)
    ensures var r := Run(stmts, periodic, lineBase, startLine);
            match LastCommit(stmts, periodic)
            case None => r.startLine == startLine && r.commits == 0
            case Some(j) => r.startLine == lineBase + stmts[j].endLine + 1
    decreases |stmts|
  {
    if |stmts| > 0 {
      var init := stmts[..|stmts| - 1];
      RunRecordsLastCommit(init, periodic, lineBase, startLine);
      if LastCommit(init, periodic).Some? {
        var j := LastCommit(init, periodic).value;
        assert stmts[j] == init[j];
      }
    }
  }

  lemma DivUnique(n: int, p: int, q: int, m: int)
    requires p > 0 && 0 <= m < p && n == q * p + m
    ensures n / p == q && n % p == m
  {
    var q', m' := n / p, n % p;
    assert (q - q') * p == m' - m;
    if q - q' >= 1 {
      MulAtLeast(q - q', p);
    } else if q' - q >= 1 {
      MulAtLeast(q' - q, p);
    }
  }

  lemma MulAtLeast(a: int, p: int)
    requires a >= 1 && p > 0
    ensures a * p >= p
  {
  }

  lemma DivStep(n: nat, p: nat)
    requires p > 0 && n > 0
    ensures n / p == (n - 1) / p + (if n % p == 0 then 1 else 0)
  {
    var q, m := (n - 1) / p, (n - 1) % p;
    if m + 1 == p {
      assert n == (q + 1) * p + 0;
      DivUnique(n, p, q + 1, 0);
    } else {
      DivUnique(n, p, q, m + 1);
    }
  }

  /** With a positive period and no COMMIT WORK, a run of `n` statements
      commits `n / periodic` times. */
  lemma {:induction false} PeriodicCommitCount(stmts: seq<Stmt>, periodic: int, lineBase: nat, startLine: int)
    requires periodic > 0
    requires forall j :: 0 <= j < |stmts| ==> !stmts[j].commitWork
    ensures Run(stmts, periodic, lineBase, startLine).commits == |stmts| / periodic
    decreases |stmts|
  {
    if |stmts| > 0 {
      PeriodicCommitCount(stmts[..|stmts| - 1], periodic, lineBase, startLine);
      DivStep(|stmts|, periodic);
    }
  }

  /** How `ldr_exec_query_from_file` ends. */
  datatype ExecResult =
    | UnreachableLine                                     // the file ends before the start line
    | Finished(failed: bool, executed: nat, commits: nat, startLine: int)

  /** `ldr_exec_query_from_file` as written: after a commit, and at the end
      of a successful run, the start line is set from the parser's line
      alone, which counts from where the statement reading began, not from
      the top of the file. */
  function ExecQueryFromFileAsWritten(input: seq<char>, startLine: int, periodic: int,
                                      stmts: seq<Stmt>, failed: bool): (r: ExecResult)
    ensures r.UnreachableLine? <==> startLine > 1 && NewlineCount(input) < startLine - 1
    ensures r.Finished? ==> r.executed == |stmts| && r.failed == failed
    ensures r.Finished? && failed ==>
              match LastCommit(stmts, periodic)
              case None => r.startLine == startLine
              case Some(j) => r.startLine == stmts[j].endLine + 1
    ensures r.Finished? && !failed ==>
              r.startLine == (if |stmts| > 0 then stmts[|stmts| - 1].endLine else 1) + 1
  {
    var skipped: nat := if startLine > 1 then startLine - 1 else 0;
    AfterLinesFails(input, skipped);
    if AfterLines(input, skipped).None? then UnreachableLine
    else
      RunRecordsLastCommit(stmts, periodic, 0, startLine);
      var st := Run(stmts, periodic, 0, startLine);
      Finished(failed, st.executed, st.commits, if failed then st.startLine else st.endLine + 1)
  }

  /** `ldr_exec_query_from_file` with the recorded start line counted from
      the top of the file: the lines skipped at the start are added to the
      parser's line. */
  function ExecQueryFromFile(input: seq<char>, startLine: int, periodic: int,
                             stmts: seq<Stmt>, failed: bool): (r: ExecResult)
    ensures r.UnreachableLine? <==> startLine > 1 && NewlineCount(input) < startLine - 1
    ensures r.Finished? ==> r.executed == |stmts| && r.failed == failed
    ensures r.Finished? && failed ==>
              match LastCommit(stmts, periodic)
              case None => r.startLine == startLine
              case Some(j) => r.startLine == (if startLine > 1 then startLine - 1 else 0) + stmts[j].endLine + 1
    ensures r.Finished? && !failed ==>
              r.startLine == (if startLine > 1 then startLine - 1 else 0)
                             + (if |stmts| > 0 then stmts[|stmts| - 1].endLine else 1) + 1
  {
    var skipped: nat := if startLine > 1 then startLine - 1 else 0;
    AfterLinesFails(input, skipped);
    if AfterLines(input, skipped).None? then UnreachableLine
    else
      RunRecordsLastCommit(stmts, periodic, skipped, startLine);
      var st := Run(stmts, periodic, skipped, startLine);
      Finished(failed, st.executed, st.commits, if failed then st.startLine else skipped + st.endLine + 1)
  }

  /** Restarting from the recorded line resumes right after the committed
      statement: if the skip reached position `p0` and the statement ended
      at the end of line `endLine` of the text read from there (position
      `p0 + p1`), the restart skip reaches `p0 + p1`. */
  lemma RestartResumesAfterCommit(input: seq<char>, startLine: int, endLine: nat, p0: nat, p1: nat)
    requires startLine >= 1 && endLine >= 1
    requires AfterLines(input, startLine - 1) == Some(p0)
    requires p0 <= |input| && SkipsTo(input[p0..], endLine, p1)
    ensures AfterLines(input, (startLine - 1) + endLine + 1 - 1) == Some(p0 + p1)
  {
    var k := startLine - 1;
    var p := p0 + p1;
    if k == 0 {
      assert p0 == 0 && input[0..] == input;
    } else {
      AfterLinesSpec(input, k);
      SkipsToCompose(input, k, p0, endLine, p1);
    }
    AfterLinesSpec(input, k + endLine);
    assert NewlineCount(input) >= k + endLine by {
      assert input == input[..p] + input[p..];
      NewlineCountConcat(input[..p], input[p..]);
    }
    SkipsToUnique(input, k + endLine, AfterLines(input, k + endLine).value, p);
  }

  /** The file "a", "b", "c", "d", one statement per line. */
  const FourLines: seq<char> := "a\nb\nc\nd\n"

  /** Restarting at line 3, committing the statement on line 3 and then
      failing: the code as written records line 2, whose skip lands on "b",
      a statement committed by an earlier run; the corrected count records
      line 4, right after the committed "c". */
  lemma RestartLineAsWrittenRepeatsCommitted()
    ensures ExecQueryFromFileAsWritten(FourLines, 3, 0, [Stmt(1, true)], true) == Finished(true, 1, 1, 2)
    ensures AfterLines(FourLines, 2 - 1) == Some(2)
    ensures ExecQueryFromFile(FourLines, 3, 0, [Stmt(1, true)], true) == Finished(true, 1, 1, 4)
    ensures AfterLines(FourLines, 4 - 1) == Some(6)
  {
    var one := [Stmt(1, true)];
    assert one[..0] == [];
    assert AfterLinesFrom(FourLines, 4, 0) == Some(4);
    assert AfterLinesFrom(FourLines, 2, 0) == Some(2);
    assert AfterLinesFrom(FourLines, 6, 0) == Some(6);
  }
}
