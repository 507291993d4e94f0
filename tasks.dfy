// The task list: its control flags, the tokenizer used when reading task
// files, the integrity check that a TestOnly pass makes of BeginLoop/EndLoop,
// If/EndIf and While/EndWhile nesting, and the repeat logic of EndLoop.
//
// The GTK list store, tree paths, logging and the tasks themselves (exposures,
// scripts, telescope moves) are not modelled; a task list is given as the
// sequence of its statement kinds.

module Tasks {
  import opened Bytes

  // ---------------------------------------------------------------------
  // Task control flags (struct TaskFlags)

  const T_NULL: bv32 := 0x0000
  const T_START: bv32 := 0x0001
  const T_PAUSE: bv32 := 0x0002
  const T_STOP: bv32 := 0x0004
  const T_NEXT: bv32 := 0x0010
  const T_EXEC: bv32 := 0x0020
  const T_TESTONLY: bv32 := 0x0040

  /** The status bits of tasks_get_status (enum values TSK_ACTIVE and
      TSK_TESTONLY). */
  const TSK_INACTIVE: bv32 := 0
  const TSK_ACTIVE: bv32 := 1
  const TSK_TESTONLY: bv32 := 2

  /** What execute_tasks does on entry, before looking at the list: stop
      (return FALSE) when stopped, wait (return TRUE) when paused or while a
      task is executing, and otherwise go on. */
  datatype Entry = Stopped | Waiting | Proceed

  function EntryAction(task: bv32): (e: Entry)
    ensures e == Stopped <==> task & T_STOP != 0
    ensures e == Waiting <==> task & T_STOP == 0 && (task & T_PAUSE != 0 || task & T_EXEC != 0)
  {
    if task & T_STOP != 0 then Stopped
    else if task & T_PAUSE != 0 then Waiting
    else if task & T_EXEC != 0 then Waiting
    else Proceed
  }

  class TaskFlags {
    var task: bv32
    /** Flags.Type: the kind of the task now executing. */
    var running: int

    constructor ()
      ensures task == T_NULL
    {
      task := T_NULL;
      running := 0;
    }

    /** tasks_start */
    method Start()
      modifies this
      ensures task == (old(task) | T_START) & !(T_STOP | T_EXEC)
      ensures running == old(running)
    {
      task := task | T_START;
      task := task & !(T_STOP | T_EXEC);
    }

    /** tasks_pause */
    method Pause(pause: bool)
      modifies this
      ensures task == if pause then old(task) | T_PAUSE else old(task) & !T_PAUSE
      ensures running == old(running)
    {
      if pause {
        task := task | T_PAUSE;
      } else {
        task := task & !T_PAUSE;
      }
    }

    /** tasks_stop (the flag part; the freed tree paths and the cleared
        loop_check array are the other classes' business). */
    method Stop()
      modifies this
      ensures task == (old(task) | T_STOP) & !T_NEXT
      ensures running == old(running)
    {
      task := task | T_STOP;
      task := task & !T_NEXT;
    }

    /** tasks_task_done: only the task that is running can say it is done. */
    method TaskDone(kind: int)
      modifies this
      ensures kind == running ==> task == old(task) & !T_EXEC
      ensures kind != running ==> task == old(task)
      ensures running == old(running)
    {
      if running == kind {
        task := task & !T_EXEC;
      }
    }

    /** tasks_get_status */
    method GetStatus() returns (status: bv32)
      ensures status & TSK_ACTIVE != 0 <==> task & T_NEXT != 0
      ensures status & TSK_TESTONLY != 0 <==> task & T_TESTONLY != 0
      ensures status & !(TSK_ACTIVE | TSK_TESTONLY) == 0
    {
      status := TSK_INACTIVE;
      if task & T_NEXT != 0 {
        status := status | TSK_ACTIVE;
      } else {
        status := status & !TSK_ACTIVE;
      }
      if task & T_TESTONLY != 0 {
        status := status | TSK_TESTONLY;
      } else {
        status := status & !TSK_TESTONLY;
      }
    }

    /** The early returns of execute_tasks. */
    method Entering() returns (e: Entry)
      ensures e == EntryAction(task)
    {
      if task & T_STOP != 0 {
        return Stopped;
      }
      if task & T_PAUSE != 0 {
        return Waiting;
      }
      if task & T_EXEC != 0 {
        return Waiting;
      }
      return Proceed;
    }

    /** The T_START step of execute_tasks: note the mode and go to the first
        task, if the list has one. */
    method Begin(testOnly: bool, listNonEmpty: bool)
      requires task & T_START != 0
      modifies this
      ensures task & T_START == 0
      ensures task & T_TESTONLY != 0 <==> testOnly
      ensures task & T_NEXT != 0 <==> listNonEmpty
      ensures task & T_PAUSE == old(task) & T_PAUSE && task & T_STOP == old(task) & T_STOP
      ensures task & T_EXEC == old(task) & T_EXEC
      ensures running == old(running)
    {
      var t := task & !T_START;
      if testOnly {
        t := t | T_TESTONLY;
      } else {
        t := t & !T_TESTONLY;
      }
      if listNonEmpty {
        t := t | T_NEXT;
      } else {
        t := t & !T_NEXT;
      }
      task := t;
    }
  }

  /** After tasks_stop, execute_tasks returns FALSE at once and the status is
      inactive. */
  lemma StopStops(task: bv32)
    ensures EntryAction((task | T_STOP) & !T_NEXT) == Stopped
    ensures ((task | T_STOP) & !T_NEXT) & T_NEXT == 0
  {
  }

  /** After tasks_start, execution proceeds unless the list is paused; a
      task that was executing is forgotten. */
  lemma StartProceeds(task: bv32)
    ensures var t := (task | T_START) & !(T_STOP | T_EXEC);
      t & T_START != 0 && (EntryAction(t) == Proceed <==> task & T_PAUSE == 0)
  {
  }

  /** Pausing and continuing touch only the pause bit, so a pause followed
      by a continue restores a list that was not paused. */
  lemma PauseResume(task: bv32)
    requires task & T_PAUSE == 0
    ensures ((task | T_PAUSE) & !T_PAUSE) == task
    ensures EntryAction(task | T_PAUSE) == (if task & T_STOP != 0 then Stopped else Waiting)
  {
  }

  // ---------------------------------------------------------------------
  // next_token

  /** The non-empty strings of a token vector, in order. */
  function NonBlank(s: seq<string>): (t: seq<string>)
    ensures "" !in t && |t| <= |s|
  {
    if s == [] then [] else (if s[0] == "" then [] else [s[0]]) + NonBlank(s[1..])
  }

  lemma {:induction false} NonBlankOfBlanks(s: seq<string>, k: nat)
    requires k <= |s| && forall i :: 0 <= i < k ==> s[i] == ""
    ensures NonBlank(s) == NonBlank(s[k..])
  {
    if k > 0 {
      assert s[1..][k - 1..] == s[k..];
      NonBlankOfBlanks(s[1..], k - 1);
    }
  }

  /** The vector g_strsplit_set gave (without its terminating NULL), and
      next_token's static cursor, which is -1 before the first token. */
  class Tokenizer {
    var tokens: seq<string>
    var cursor: int

    predicate Valid()
      reads this
    {
      -1 <= cursor <= |tokens|
    }

    /** The tokens that later calls will still return. */
    function Rest(): (s: seq<string>)
      reads this
      requires Valid()
    {
      if cursor == |tokens| then [] else NonBlank(tokens[cursor + 1..])
    }

    constructor (tokens: seq<string>)
      ensures Valid() && this.tokens == tokens && Rest() == NonBlank(tokens)
    {
      this.tokens := tokens;
      cursor := -1;
      new;
      assert tokens[0..] == tokens;
    }

    /** next_token: with init the scan starts over from the first token.
        Calling again without init after the end has been reported would
        read past the NULL terminator, and is excluded. */
    method NextToken(init: bool) returns (t: Option<string>)
      requires Valid() && (init || cursor < |tokens|)
      modifies this
      ensures Valid() && tokens == old(tokens)
      ensures var before := if init then NonBlank(tokens) else old(Rest());
        match t
        case Some(x) => x != "" && before == [x] + Rest()
        case None => before == [] && cursor == |tokens|
    {
      if init {
        cursor := -1;
        assert tokens[0..] == tokens;
      }
      ghost var before := Rest();
      assert before == if init then NonBlank(tokens) else old(Rest());
      var i := cursor + 1;
      while i < |tokens|
        invariant 0 <= i <= |tokens| && before == NonBlank(tokens[i..])
        decreases |tokens| - i
      {
        if tokens[i] != "" {
          cursor := i;
          assert tokens[i..][1..] == tokens[i + 1..];
          return Some(tokens[i]);
        }
        assert tokens[i..][1..] == tokens[i + 1..];
        i := i + 1;
      }
      cursor := i;
      return None;
    }
  }

  /** Blank tokens (from runs of separators) are never returned: the tokens
      come back as the non-blank entries in order. */
  lemma RestSkipsBlanks(s: seq<string>, k: nat)
    requires k <= |s| && forall i :: 0 <= i < k ==> s[i] == ""
    ensures NonBlank(s) == NonBlank(s[k..])
    ensures k < |s| && s[k] != "" ==> NonBlank(s)[0] == s[k]
  {
    NonBlankOfBlanks(s, k);
  }

  // ---------------------------------------------------------------------
  // The block integrity check (TestOnly pass)

  const MAX_NEST: nat := 10
  const MAX_IF: nat := 100
  const MAX_WHILE: nat := 100

  /** The markers pushed on loop_check. */
  const EL: int := 1
  const EI: int := 2
  const EW: int := 3

  const LOOP_CHECK_SIZE: nat := 2 * (MAX_IF + MAX_WHILE)

  /** The markers of a loop_check prefix that are still open (not zeroed). */
  function Marks(s: seq<int>): (t: seq<int>)
    ensures 0 !in t && |t| <= |s|
  {
    if s == [] then [] else Marks(s[..|s| - 1]) + (if s[|s| - 1] != 0 then [s[|s| - 1]] else [])
  }

  lemma {:induction false} MarksZeroTail(s: seq<int>, j: nat)
    requires j <= |s| && forall i :: j <= i < |s| ==> s[i] == 0
    ensures Marks(s) == Marks(s[..j])
    decreases |s|
  {
    if |s| > j {
      assert s[..|s| - 1][..j] == s[..j];
      MarksZeroTail(s[..|s| - 1], j);
    } else {
      assert s[..j] == s;
    }
  }

  lemma MarksSnoc(s: seq<int>, x: int)
    ensures Marks(s + [x]) == Marks(s) + (if x != 0 then [x] else [])
  {
    assert (s + [x])[..|s|] == s;
  }

  /** The innermost open block of a loop_check prefix is its last non-zero
      slot, and zeroing that slot closes it. */
  lemma TopMark(s: seq<int>, j: nat)
    requires j < |s| && s[j] != 0 && forall i :: j < i < |s| ==> s[i] == 0
    ensures Marks(s) == Marks(s[..j]) + [s[j]]
    ensures Marks(s[j := 0]) == Marks(s[..j])
  {
    MarksZeroTail(s, j + 1);
    assert s[..j + 1] == s[..j] + [s[j]];
    MarksSnoc(s[..j], s[j]);
    var t := s[j := 0];
    MarksZeroTail(t, j + 1);
    assert t[..j + 1] == s[..j] + [0];
    MarksSnoc(s[..j], 0);
  }

  /** loop_check with its indices lc (last slot used) and lec (where the
      next search for an open block starts). */
  /** What a closing statement does to a stack of open blocks: it pops the
      innermost if that is of its kind, and reports a mismatch if it is of
      another; with nothing open it does nothing. */
  function CloseTop<T(==)>(open: seq<T>, k: T): (r: (seq<T>, bool))
  {
    if open == [] then (open, false)
    else if open[|open| - 1] == k then (open[..|open| - 1], false)
    else (open, true)
  }

  /** Closing at j, the last non-zero slot of a loop_check prefix (-1 if
      there is none): the innermost open block goes if it is of this kind. */
  lemma CloseMarks(s: seq<int>, j: int, marker: int)
    requires -1 <= j < |s| && (j >= 0 ==> s[j] != 0)
    requires forall i :: j < i < |s| ==> s[i] == 0
    ensures var t := if j >= 0 && s[j] == marker then s[j := 0] else s;
      (Marks(t), j >= 0 && s[j] != marker) == CloseTop(Marks(s), marker)
  {
    if j < 0 {
      MarksZeroTail(s, 0);
    } else {
      TopMark(s, j);
    }
  }

  class LoopCheck {
    var marks: array<int>
    var lc: int
    var lec: int

    /** Every slot above lec up to lc has been closed. */
    predicate Valid()
      reads this, marks
    {
      marks.Length == LOOP_CHECK_SIZE && -1 <= lec <= lc < LOOP_CHECK_SIZE
      && forall i :: lec < i <= lc ==> marks[i] == 0
    }

    /** The open blocks, innermost last. */
    function Open(): (s: seq<int>)
      reads this, marks
      requires Valid()
    {
      Marks(marks[..lc + 1])
    }

    constructor ()
      ensures Valid() && Open() == [] && fresh(marks)
    {
      marks := new int[LOOP_CHECK_SIZE](_ => 0);
      lc := -1;
      lec := -1;
    }

    /** tasks_start: lc = lec = -1. */
    method Restart()
      requires Valid()
      modifies this
      ensures Valid() && Open() == [] && marks == old(marks)
    {
      lc := -1;
      lec := -1;
    }

    /** tasks_stop: every slot is zeroed. */
    method Clear()
      requires Valid()
      modifies marks
      ensures Valid() && Open() == []
      ensures forall i :: 0 <= i < marks.Length ==> marks[i] == 0
    {
      var i := 0;
      while i < LOOP_CHECK_SIZE
        invariant 0 <= i <= LOOP_CHECK_SIZE
        invariant forall k :: 0 <= k < i ==> marks[k] == 0
      {
        marks[i] := 0;
        i := i + 1;
      }
      MarksZeroTail(marks[..lc + 1], 0);
    }

    /** BeginLoop, IfTrue/IfFalse and While: loop_check[++lc] = marker;
        lec = lc. The source never checks lc: a list with more than
        LOOP_CHECK_SIZE opening statements writes past the array (see
        LoopCheckOverflows), so this step is specified only while a slot is
        free. */
    method Push(marker: int)
      requires Valid() && marker != 0 && lc + 1 < LOOP_CHECK_SIZE
      modifies this, marks
      ensures marks == old(marks) && Valid()
      ensures Open() == old(Open()) + [marker]
    {
      ghost var prefix := marks[..lc + 1];
      lc := lc + 1;
      marks[lc] := marker;
      lec := lc;
      assert marks[..lc + 1] == prefix + [marker];
      MarksSnoc(prefix, marker);
    }

    /** The opening step with the bound check the source lacks: the marker
        is pushed while a slot is free; otherwise the overflow is reported
        and loop_check is left alone. */
    method PushChecked(marker: int) returns (overflow: bool)
      requires Valid() && marker != 0
      modifies this, marks
      ensures marks == old(marks) && Valid()
      ensures overflow <==> old(lc) + 1 >= LOOP_CHECK_SIZE
      ensures Open() == if overflow then old(Open()) else old(Open()) + [marker]
    {
      overflow := lc + 1 >= LOOP_CHECK_SIZE;
      if !overflow {
        Push(marker);
      }
    }

    /** EndLoop, EndIf and EndWhile: search down from lec for the innermost
        open block; close it if it is of this kind, and report a mismatch
        (the "Unclosed BeginLoop, If or While" error) if it is not. With no
        block open nothing happens here. */
    method Close(marker: int) returns (mismatch: bool)
      requires Valid()
      modifies this, marks
      ensures marks == old(marks) && Valid()
      ensures (Open(), mismatch) == CloseTop(old(Open()), marker)
    {
      ghost var s := marks[..lc + 1];
      var j := InnermostOpen();
      CloseMarks(s, j, marker);
      ghost var t := if j >= 0 && s[j] == marker then s[j := 0] else s;
      lec := j;
      mismatch := j >= 0 && marks[j] != marker;
      if j >= 0 && !mismatch {
        marks[j] := 0;
      }
      assert marks[..lc + 1] == t;
    }

    /** The search of Close: down from lec to the first open block, or -1. */
    method InnermostOpen() returns (j: int)
      requires Valid()
      ensures -1 <= j <= lec && (j >= 0 ==> marks[j] != 0)
      ensures forall i :: j < i <= lc ==> marks[i] == 0
    {
      j := lec;
      while j >= 0 && marks[j] == 0
        invariant -1 <= j <= lec
        invariant forall i :: j < i <= lc ==> marks[i] == 0
        decreases j
      {
        j := j - 1;
      }
    }

    /** The check at the end of a TestOnly pass: is any block still open?
        (The scan moves lc down as it goes, as in the C loop.) */
    method AnyOpen() returns (open: bool)
      requires Valid()
      modifies this
      ensures open <==> old(Open()) != []
      ensures marks == old(marks)
    {
      ghost var s := marks[..lc + 1];
      var k, found := ScanDown();
      if found {
        TopMark(s, k + 1);
      } else {
        MarksZeroTail(s, 0);
      }
      lc := k;
      open := found;
    }

    /** The scan of AnyOpen: the index lc is left at, and whether it stopped
        at a slot still open (the one just above that index). */
    method ScanDown() returns (k: int, found: bool)
      requires Valid()
      ensures -1 <= k <= lc
      ensures found ==> k + 1 <= lc && marks[k + 1] != 0
      ensures !found ==> k == -1
      ensures forall i :: (if found then k + 1 else k) < i <= lc ==> marks[i] == 0
    {
      k := lc;
      while k >= 0
        invariant -1 <= k <= lc
        invariant forall i :: k < i <= lc ==> marks[i] == 0
        decreases k
      {
        var m := marks[k];
        k := k - 1;
        if m != 0 {
          return k, true;
        }
      }
      return k, false;
    }
  }

  // ---------------------------------------------------------------------
  // The TestOnly pass as a function of the statement list

  datatype Kind = Loop | If | While

  function Marker(k: Kind): (m: int)
    ensures m != 0
  {
    match k
    case Loop => EL
    case If => EI
    case While => EW
  }

  /** The statements the check looks at; `ok` says whether the statement's
      number parsed (get_entry_int), which is the first check each makes. */
  datatype Stmt = Begin(kind: Kind, ok: bool) | End(kind: Kind) | Other

  /** The pairing of If (or While) statements with their closing statements:
      ip and iep (wp and wep), and which slots of path_endif
      (path_endwhile) have been given a closing statement. */
  datatype Pairing = Pairing(p: int, ep: int, closed: seq<bool>)

  predicate PairingValid(q: Pairing)
  {
    -1 <= q.ep <= q.p && |q.closed| == q.p + 1
  }

  /** An opening statement: ++ip (an error from MAX_IF on), and iep = ip. */
  function OpenPair(q: Pairing, max: nat): (r: (Pairing, bool))
    requires PairingValid(q)
    ensures PairingValid(r.0) && r.0.p == q.p + 1 && r.0.ep == r.0.p
    ensures r.1 <==> q.p + 1 >= max
    ensures r.0.closed == q.closed + [false]
  {
    (Pairing(q.p + 1, q.p + 1, q.closed + [false]), q.p + 1 >= max)
  }

  /** The last open slot at or below i, if any. */
  function LastOpenSlot(closed: seq<bool>, i: int): (r: int)
    requires -1 <= i < |closed|
    ensures -1 <= r <= i
    ensures r >= 0 ==> !closed[r]
    ensures forall k :: r < k <= i ==> closed[k]
    decreases i + 1
  {
    if i < 0 || !closed[i] then i else LastOpenSlot(closed, i - 1)
  }

  /** A closing statement: walk iep down to the last If without a closing
      statement and pair them; iep < 0 means there is none (an error). */
  function ClosePair(q: Pairing): (r: (Pairing, bool))
    requires PairingValid(q)
    ensures PairingValid(r.0) && r.0.p == q.p
    ensures r.1 <==> r.0.ep < 0
  {
    var e := LastOpenSlot(q.closed, q.ep);
    if e < 0 then (Pairing(q.p, e, q.closed), true)
    else (Pairing(q.p, e, q.closed[e := true]), false)
  }

  /** The state of a TestOnly pass: the open blocks (loop_check), the loop
      depth, the If and While pairings and Error. */
  datatype Pass = Pass(open: seq<Kind>, depth: int, ifs: Pairing, whiles: Pairing, error: bool)

  predicate PassValid(s: Pass)
  {
    PairingValid(s.ifs) && PairingValid(s.whiles)
  }

  const Fresh: Pass := Pass([], -1, Pairing(-1, -1, []), Pairing(-1, -1, []), false)

  /** loop_check's response to a closing statement of kind k. */
  /** One statement of the TestOnly pass. */
  function Check(s: Pass, st: Stmt): (t: Pass)
    requires PassValid(s)
    ensures PassValid(t)
    ensures s.error ==> t.error
  {
    match st
    case Other => s
    case Begin(Loop, ok) =>
      s.(open := s.open + [Loop], depth := s.depth + 1,
         error := s.error || !ok || s.depth + 1 >= MAX_NEST)
    case Begin(If, ok) =>
      var q := OpenPair(s.ifs, MAX_IF);
      s.(open := s.open + [If], ifs := q.0, error := s.error || !ok || q.1)
    case Begin(While, ok) =>
      var q := OpenPair(s.whiles, MAX_WHILE);
      s.(open := s.open + [While], whiles := q.0, error := s.error || !ok || q.1)
    case End(Loop) =>
      var c := CloseTop(s.open, Loop);
      s.(open := c.0, depth := s.depth - 1, error := s.error || c.1 || s.depth < 0)
    case End(If) =>
      var c := CloseTop(s.open, If);
      var q := ClosePair(s.ifs);
      s.(open := c.0, ifs := q.0, error := s.error || c.1 || q.1)
    case End(While) =>
      var c := CloseTop(s.open, While);
      var q := ClosePair(s.whiles);
      s.(open := c.0, whiles := q.0, error := s.error || c.1 || q.1)
  }

  function CheckAll(s: Pass, sts: seq<Stmt>): (t: Pass)
    requires PassValid(s)
    ensures PassValid(t)
    ensures s.error ==> t.error
    decreases |sts|
  {
    if sts == [] then s else CheckAll(Check(s, sts[0]), sts[1..])
  }

  /** The verdict of a TestOnly pass over the whole list: Error, including
      the final check for blocks left open. */
  function TestOnlyError(sts: seq<Stmt>): (b: bool)
  {
    var t := CheckAll(Fresh, sts);
    t.error || t.open != []
  }

  /** The slots of loop_check a pass over sts takes: every opening
      statement takes the next one (loop_check[++lc]) and no statement gives
      one back, so after the pass lc + 1 is this count. */
  function Openings(sts: seq<Stmt>): (n: nat)
    ensures n <= |sts|
    decreases |sts|
  {
    if sts == [] then 0 else (if sts[0].Begin? then 1 else 0) + Openings(sts[1..])
  }

  /** k BeginLoop/EndLoop pairs one after the other. */
  function LoopPairs(k: nat): (sts: seq<Stmt>)
    ensures |sts| == 2 * k
  {
    if k == 0 then [] else [Begin(Loop, true), End(Loop)] + LoopPairs(k - 1)
  }

  /** Each pair of LoopPairs returns the pass to where it was, and takes one
      slot of loop_check. */
  lemma {:induction false} LoopPairsPass(k: nat)
    ensures CheckAll(Fresh, LoopPairs(k)) == Fresh
    ensures Openings(LoopPairs(k)) == k
  {
    if k > 0 {
      var sts := LoopPairs(k);
      var rest := LoopPairs(k - 1);
      assert sts[0] == Begin(Loop, true) && sts[1..] == [End(Loop)] + rest;
      var s1 := Check(Fresh, Begin(Loop, true));
      assert Check(s1, End(Loop)) == Fresh;
      assert ([End(Loop)] + rest)[1..] == rest;
      assert CheckAll(s1, [End(Loop)] + rest) == CheckAll(Fresh, rest);
      LoopPairsPass(k - 1);
    }
  }

  /** The TestOnly pass as written accepts 401 BeginLoop/EndLoop pairs:
      nothing bounds their number, only their depth. Their opening
      statements take one more slot than loop_check has, so the last one
      writes loop_check[400], past the array. */
  lemma LoopCheckOverflows()
    ensures var sts := LoopPairs(LOOP_CHECK_SIZE + 1);
      !TestOnlyError(sts) && Openings(sts) == LOOP_CHECK_SIZE + 1
  {
    LoopPairsPass(LOOP_CHECK_SIZE + 1);
  }

  /** A closing statement whose innermost open block is of another kind is
      an error. */
  lemma MismatchIsError(s: Pass, k: Kind)
    requires PassValid(s) && s.open != [] && s.open[|s.open| - 1] != k
    ensures Check(s, End(k)).error
    ensures Check(s, End(k)).open == s.open
  {
  }

  /** A BeginLoop at depth MAX_NEST or more is an error. */
  lemma TooDeepIsError(s: Pass, ok: bool)
    requires PassValid(s) && s.depth + 1 >= MAX_NEST
    ensures Check(s, Begin(Loop, ok)).error
  {
  }

  /** Once raised, Error stays raised for the rest of the pass. */
  lemma {:induction false} ErrorSticks(s: Pass, sts: seq<Stmt>)
    requires PassValid(s) && s.error
    ensures CheckAll(s, sts).error
    decreases |sts|
  {
    if sts != [] {
      ErrorSticks(Check(s, sts[0]), sts[1..]);
    }
  }

  /** A pass that ends with a block still open reports an error, however
      the statements before it fared. */
  lemma OpenAtEndIsError(sts: seq<Stmt>, k: Kind, ok: bool)
    requires forall i :: 0 <= i < |sts| ==> sts[i] == Other
    ensures TestOnlyError([Begin(k, ok)] + sts)
  {
    var s1 := Check(Fresh, Begin(k, ok));
    assert s1.open == [k];
    OthersChangeNothing(s1, sts);
    assert ([Begin(k, ok)] + sts)[1..] == sts;
  }

  lemma {:induction false} OthersChangeNothing(s: Pass, sts: seq<Stmt>)
    requires PassValid(s) && forall i :: 0 <= i < |sts| ==> sts[i] == Other
    ensures CheckAll(s, sts) == s
    decreases |sts|
  {
    if sts != [] {
      OthersChangeNothing(s, sts[1..]);
    }
  }

  // ---------------------------------------------------------------------
  // The check against a plain stack discipline

  /** The number of blocks of kind k in a stack of open blocks. */
  function Count(open: seq<Kind>, k: Kind): (n: nat)
    ensures n <= |open|
  {
    if open == [] then 0
    else Count(open[..|open| - 1], k) + (if open[|open| - 1] == k then 1 else 0)
  }

  lemma CountPush(open: seq<Kind>, k: Kind, j: Kind)
    ensures Count(open + [j], k) == Count(open, k) + (if j == k then 1 else 0)
  {
    assert (open + [j])[..|open|] == open;
  }

  /** The limits an opening statement of kind k must respect: loops nest
      at most MAX_NEST deep, at most MAX_IF Ifs and MAX_WHILE Whiles. */
  predicate MayOpen(k: Kind, open: seq<Kind>, nIf: nat, nWhile: nat)
  {
    match k
    case Loop => Count(open, Loop) + 1 <= MAX_NEST
    case If => nIf + 1 <= MAX_IF
    case While => nWhile + 1 <= MAX_WHILE
  }

  /** A count of statements of kind c, after one of kind k. */
  function Bump(n: nat, k: Kind, c: Kind): (m: nat)
    ensures m == n || m == n + 1
  {
    if k == c then n + 1 else n
  }

  /** What a task list must look like to pass: every closing statement
      closes the innermost open block, which must be of its kind; nothing is
      left open; every number parses; loops nest at most MAX_NEST deep; and
      there are at most MAX_IF If statements and MAX_WHILE While statements.
      nIf and nWhile count those seen so far. */
  function Wellformed(sts: seq<Stmt>, open: seq<Kind>, nIf: nat, nWhile: nat): (b: bool)
    decreases |sts|
  {
    if sts == [] then open == []
    else match sts[0]
      case Other => Wellformed(sts[1..], open, nIf, nWhile)
      case Begin(k, ok) =>
        ok && MayOpen(k, open, nIf, nWhile)
        && Wellformed(sts[1..], open + [k], Bump(nIf, k, If), Bump(nWhile, k, While))
      case End(k) =>
        open != [] && open[|open| - 1] == k && Wellformed(sts[1..], open[..|open| - 1], nIf, nWhile)
  }

  /** The slots of a pairing not yet given a closing statement. */
  function OpenSlots(closed: seq<bool>): (n: nat)
    ensures n <= |closed|
  {
    if closed == [] then 0 else OpenSlots(closed[..|closed| - 1]) + (if closed[|closed| - 1] then 0 else 1)
  }

  lemma {:induction false} OpenSlotsNone(closed: seq<bool>)
    ensures OpenSlots(closed) == 0 <==> forall k :: 0 <= k < |closed| ==> closed[k]
  {
    if closed != [] {
      var c := closed[..|closed| - 1];
      OpenSlotsNone(c);
      if OpenSlots(closed) == 0 {
        forall k | 0 <= k < |closed|
          ensures closed[k]
        {
          if k < |c| {
            assert closed[k] == c[k];
          }
        }
      } else if !closed[|closed| - 1] {
      } else {
        var k :| 0 <= k < |c| && !c[k];
        assert !closed[k];
      }
    }
  }

  lemma {:induction false} OpenSlotsSet(closed: seq<bool>, e: nat)
    requires e < |closed| && !closed[e]
    ensures OpenSlots(closed[e := true]) + 1 == OpenSlots(closed)
    decreases |closed|
  {
    var t := closed[e := true];
    if e < |closed| - 1 {
      assert t[..|t| - 1] == closed[..|closed| - 1][e := true];
      OpenSlotsSet(closed[..|closed| - 1], e);
    } else {
      assert t[..|t| - 1] == closed[..|closed| - 1];
    }
  }

  lemma OpenSlotsPush(closed: seq<bool>)
    ensures OpenSlots(closed + [false]) == OpenSlots(closed) + 1
  {
    assert (closed + [false])[..|closed|] == closed;
  }

  /** Every slot above ep has its closing statement, so the walk down from
      ep finds the last open slot overall. */
  predicate Tidy(q: Pairing)
  {
    PairingValid(q) && forall k :: q.ep < k <= q.p ==> q.closed[k]
  }

  /** A closing statement finds a partner exactly when some slot is open,
      and then uses one up. */
  lemma ClosePairCounts(q: Pairing)
    requires Tidy(q)
    ensures var r := ClosePair(q);
      Tidy(r.0) && (r.1 <==> OpenSlots(q.closed) == 0)
      && (!r.1 ==> OpenSlots(r.0.closed) + 1 == OpenSlots(q.closed))
  {
    var e := LastOpenSlot(q.closed, q.ep);
    OpenSlotsNone(q.closed);
    if e >= 0 {
      OpenSlotsSet(q.closed, e);
    }
  }

  lemma OpenPairCounts(q: Pairing, max: nat)
    requires Tidy(q)
    ensures var r := OpenPair(q, max);
      Tidy(r.0) && OpenSlots(r.0.closed) == OpenSlots(q.closed) + 1
  {
    OpenSlotsPush(q.closed);
  }

  /** How the pass state tracks the stack of open blocks: loop_check holds
      the stack, the depth counts the open loops, and the open If and While
      slots count the open Ifs and Whiles. */
  predicate Tracks(s: Pass, nIf: nat, nWhile: nat)
  {
    PassValid(s) && !s.error && Tidy(s.ifs) && Tidy(s.whiles)
    && s.depth == Count(s.open, Loop) - 1
    && s.ifs.p == nIf - 1 && s.whiles.p == nWhile - 1
    && OpenSlots(s.ifs.closed) == Count(s.open, If)
    && OpenSlots(s.whiles.closed) == Count(s.open, While)
  }

  lemma TracksFresh()
    ensures Tracks(Fresh, 0, 0)
  {
  }

  /** An opening statement either raises the error, exactly when it breaks
      a rule, or keeps the tracking. */
  lemma BeginTracks(s: Pass, k: Kind, ok: bool, nIf: nat, nWhile: nat)
    requires Tracks(s, nIf, nWhile)
    ensures var t := Check(s, Begin(k, ok));
      var good := ok && MayOpen(k, s.open, nIf, nWhile);
      (t.error <==> !good)
      && (good ==> (t.open == s.open + [k] && Tracks(t, Bump(nIf, k, If), Bump(nWhile, k, While))))
  {
    CountPush(s.open, Loop, k);
    CountPush(s.open, If, k);
    CountPush(s.open, While, k);
    match k
    case Loop => BeginLoopTracks(s, ok, nIf, nWhile);
    case If => BeginIfTracks(s, ok, nIf, nWhile);
    case While => BeginWhileTracks(s, ok, nIf, nWhile);
  }

  lemma BeginLoopTracks(s: Pass, ok: bool, nIf: nat, nWhile: nat)
    requires Tracks(s, nIf, nWhile)
    ensures var t := Check(s, Begin(Loop, ok));
      (t.error <==> !(ok && Count(s.open, Loop) + 1 <= MAX_NEST))
      && (!t.error ==> t.open == s.open + [Loop] && Tracks(t, nIf, nWhile))
  {
    CountPush(s.open, Loop, Loop);
    CountPush(s.open, If, Loop);
    CountPush(s.open, While, Loop);
  }

  lemma BeginIfTracks(s: Pass, ok: bool, nIf: nat, nWhile: nat)
    requires Tracks(s, nIf, nWhile)
    ensures var t := Check(s, Begin(If, ok));
      (t.error <==> !(ok && nIf + 1 <= MAX_IF))
      && (!t.error ==> t.open == s.open + [If] && Tracks(t, nIf + 1, nWhile))
  {
    CountPush(s.open, Loop, If);
    CountPush(s.open, If, If);
    CountPush(s.open, While, If);
    OpenPairCounts(s.ifs, MAX_IF);
  }

  lemma BeginWhileTracks(s: Pass, ok: bool, nIf: nat, nWhile: nat)
    requires Tracks(s, nIf, nWhile)
    ensures var t := Check(s, Begin(While, ok));
      (t.error <==> !(ok && nWhile + 1 <= MAX_WHILE))
      && (!t.error ==> t.open == s.open + [While] && Tracks(t, nIf, nWhile + 1))
  {
    CountPush(s.open, Loop, While);
    CountPush(s.open, If, While);
    CountPush(s.open, While, While);
    OpenPairCounts(s.whiles, MAX_WHILE);
  }

  lemma CountPop(open: seq<Kind>, k: Kind)
    requires open != []
    ensures Count(open, k) == Count(open[..|open| - 1], k) + (if open[|open| - 1] == k then 1 else 0)
  {
  }

  /** A closing statement raises the error exactly when it does not close
      the innermost open block, and otherwise pops it and keeps the
      tracking. */
  lemma EndTracks(s: Pass, k: Kind, nIf: nat, nWhile: nat)
    requires Tracks(s, nIf, nWhile)
    ensures var t := Check(s, End(k));
      var good := s.open != [] && s.open[|s.open| - 1] == k;
      (t.error <==> !good)
      && (good ==> t.open == s.open[..|s.open| - 1] && Tracks(t, nIf, nWhile))
  {
    ClosePairCounts(s.ifs);
    ClosePairCounts(s.whiles);
    if s.open != [] {
      CountPop(s.open, Loop);
      CountPop(s.open, If);
      CountPop(s.open, While);
    }
  }

  /** From a tracking state, the pass ends in an error or with blocks open
      exactly when the rest of the list is not well formed. */
  lemma {:induction false} CheckAllTracks(s: Pass, sts: seq<Stmt>, nIf: nat, nWhile: nat)
    requires Tracks(s, nIf, nWhile)
    ensures var t := CheckAll(s, sts);
      (t.error || t.open != []) <==> !Wellformed(sts, s.open, nIf, nWhile)
    decreases |sts|, 1
  {
    if sts != [] {
      match sts[0]
      case Other =>
        CheckAllTracks(s, sts[1..], nIf, nWhile);
      case Begin(k, ok) =>
        CheckAllBegin(s, k, ok, sts[1..], nIf, nWhile);
        assert sts == [Begin(k, ok)] + sts[1..];
      case End(k) =>
        CheckAllEnd(s, k, sts[1..], nIf, nWhile);
        assert sts == [End(k)] + sts[1..];
    }
  }

  lemma {:induction false} CheckAllBegin(s: Pass, k: Kind, ok: bool, rest: seq<Stmt>, nIf: nat, nWhile: nat)
    requires Tracks(s, nIf, nWhile)
    ensures var t := CheckAll(Check(s, Begin(k, ok)), rest);
      (t.error || t.open != []) <==> !(ok && MayOpen(k, s.open, nIf, nWhile)
                                       && Wellformed(rest, s.open + [k], Bump(nIf, k, If), Bump(nWhile, k, While)))
    decreases |rest| + 1, 0
  {
    var t := Check(s, Begin(k, ok));
    BeginTracks(s, k, ok, nIf, nWhile);
    if t.error {
      ErrorSticks(t, rest);
    } else {
      CheckAllTracks(t, rest, Bump(nIf, k, If), Bump(nWhile, k, While));
    }
  }

  lemma {:induction false} CheckAllEnd(s: Pass, k: Kind, rest: seq<Stmt>, nIf: nat, nWhile: nat)
    requires Tracks(s, nIf, nWhile)
    ensures var t := CheckAll(Check(s, End(k)), rest);
      var good := s.open != [] && s.open[|s.open| - 1] == k;
      (t.error || t.open != []) <==> !(good && Wellformed(rest, s.open[..|s.open| - 1], nIf, nWhile))
    decreases |rest| + 1, 0
  {
    var t := Check(s, End(k));
    EndTracks(s, k, nIf, nWhile);
    if t.error {
      ErrorSticks(t, rest);
    } else {
      CheckAllTracks(t, rest, nIf, nWhile);
    }
  }

  /** A TestOnly pass reports an error exactly when the task list is not
      well formed: loop_check, the loop depth and the If/While pairings
      together enforce the plain stack discipline. */
  lemma TestOnlyErrorIffIllFormed(sts: seq<Stmt>)
    ensures TestOnlyError(sts) <==> !Wellformed(sts, [], 0, 0)
  {
    TracksFresh();
    CheckAllTracks(Fresh, sts, 0, 0);
  }

  // ---------------------------------------------------------------------
  // EndLoop at run time


  const REP_MIN: nat := 1
  const REP_MAX: nat := 99999

  /** struct Loops: the repeat count and current iteration of each open
      BeginLoop, and the depth of the innermost. */
  class Loops {
    var repeat: array<UShort>
    var count: array<UShort>
    var depth: int

    predicate Valid()
      reads this
    {
      repeat.Length == MAX_NEST && count.Length == MAX_NEST && repeat != count
      && -1 <= depth < MAX_NEST
    }

    constructor ()
      ensures Valid() && depth == -1 && fresh(repeat) && fresh(count)
    {
      repeat := new UShort[MAX_NEST](_ => 0);
      count := new UShort[MAX_NEST](_ => 0);
      depth := -1;
    }

    /** BeginLoop when executing: one level deeper, first iteration, with
        the repeat count stored in a gushort. Running it at depth MAX_NEST
        would write past the arrays; the TestOnly pass rejects such lists. */
    method BeginLoop(repeats: int)
      requires Valid() && depth + 1 < MAX_NEST
      modifies this, repeat, count
      ensures Valid() && depth == old(depth) + 1
      ensures repeat == old(repeat) && count == old(count)
      ensures repeat[depth] == ToUShort(repeats) && count[depth] == 1
      ensures forall i :: 0 <= i < MAX_NEST && i != depth ==> repeat[i] == old(repeat[i]) && count[i] == old(count[i])
    {
      depth := depth + 1;
      repeat[depth] := ToUShort(repeats);
      count[depth] := 1;
    }

    /** EndLoop when executing: go back to the BeginLoop while count++ <
        repeat, otherwise leave the loop. An EndLoop with no loop open does
        nothing. */
    method EndLoop() returns (again: bool)
      requires Valid()
      modifies this, count
      ensures Valid() && repeat == old(repeat) && count == old(count)
      ensures old(depth) < 0 ==> !again && depth == old(depth) && count[..] == old(count[..])
      ensures old(depth) >= 0 ==>
        (again <==> old(count[depth]) < old(repeat[depth]))
        && count[..] == old(count[..])[old(depth) := ToUShort(old(count[depth]) as int + 1)]
        && depth == (if again then old(depth) else old(depth) - 1)
    {
      again := false;
      if depth > -1 {
        var c := count[depth];
        count[depth] := ToUShort(c as int + 1);
        if c < repeat[depth] {
          again := true;
        } else {
          depth := depth - 1;
        }
      }
    }
  }

  /** The number of times a loop body runs, the EndLoop logic applied from
      iteration `count`: run the body, then go back while count < repeat. */
  function Runs(count: UShort, repeat: UShort): (n: nat)
    ensures 1 <= n <= 0x1_0000 - count
    ensures count >= repeat ==> n == 1
    decreases 0x1_0000 - count
  {
    if count < repeat then 1 + Runs(count + 1, repeat) else 1
  }

  /** A loop asked to repeat r times (r >= 1, below 2^16) runs its body r
      times. */
  lemma {:induction false} RunsFrom(count: UShort, repeat: UShort)
    requires 1 <= count <= repeat
    ensures Runs(count, repeat) == repeat - count + 1
    decreases repeat - count
  {
    if count < repeat {
      RunsFrom(count + 1, repeat);
    }
  }

  /** As written: BeginLoop accepts repeats up to REP_MAX = 99999 but keeps
      them in a gushort, so 70000 repeats run 4464 times. */
  lemma RepeatTruncated()
    ensures REP_MIN <= 70000 <= REP_MAX
    ensures Runs(1, ToUShort(70000)) == 4464
  {
    RunsFrom(1, ToUShort(70000));
  }

  /** The bound that fits the stored count. */
  const REP_MAX_FITTING: nat := 0xFFFF

  /** Corrected: with repeats limited to what a gushort holds, every valid
      repeat count is run exactly. */
  lemma RepeatExact(r: int)
    requires REP_MIN <= r <= REP_MAX_FITTING
    ensures Runs(1, ToUShort(r)) == r
  {
    RunsFrom(1, ToUShort(r));
  }
}
