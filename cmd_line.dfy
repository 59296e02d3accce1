/**
 * The Win32 entry point's command-line splitter (src/main.cpp:20-64).
 *
 * `WinMain` copies the command line into a NUL-terminated buffer and
 * rewrites it in place with a read pointer and a write pointer: argument
 * separators become NULs, quote characters are dropped, and `argv`
 * collects the positions at which arguments start.  `Split` is the same
 * splitting stated on strings; `SplitCommandLine` is the in-place loop,
 * proved to leave exactly `Split`'s arguments in the buffer.
 */
module CmdLine {
  import opened StringUtil

  /** The characters that end an unquoted argument. */
  predicate IsArgSpace(c: char) {
    c == ' ' || c == '\t' || c == '\n' || c == '\r'
  }

  /** The splitter's state: the arguments so far and the two flags of the loop. */
  datatype SplitState = SplitState(args: seq<string>, inParam: bool, inQuote: bool)
  {
    /** An argument is open only when one has been started. */
    predicate Valid() { inParam ==> args != [] }
  }

  const Start := SplitState([], false, false)

  /** `c` appended to the open argument. */
  function Extend(st: SplitState, c: char): (r: SplitState)
    requires st.Valid() && st.inParam
    ensures r.Valid() && |r.args| == |st.args| && r.inParam == st.inParam && r.inQuote == st.inQuote
    ensures r.args[..|r.args| - 1] == st.args[..|st.args| - 1]
    ensures r.args[|r.args| - 1] == st.args[|st.args| - 1] + [c]
  {
    var n := |st.args| - 1;
    st.(args := st.args[..n] + [st.args[n] + [c]])
  }

  /** A new argument starting with `first`. */
  function Begin(st: SplitState, first: string, quoted: bool): (r: SplitState)
    ensures r.Valid() && r.inParam && r.inQuote == quoted && r.args == st.args + [first]
  {
    SplitState(st.args + [first], true, quoted)
  }

  /**
   * What the loop does with the character at the front of `s`: the new
   * state and how many characters it consumed (two for an escaped quote).
   */
  function Step(s: string, st: SplitState): (r: (SplitState, nat))
    requires s != [] && st.Valid()
    ensures r.0.Valid() && 1 <= r.1 <= |s|
  {
    var c := s[0];
    if IsArgSpace(c) then
      if st.inParam && !st.inQuote then (st.(inParam := false), 1)
      else if st.inParam then (Extend(st, c), 1)
      else (st, 1)
    else if c == '"' then
      if st.inParam then (st.(inQuote := !st.inQuote), 1)
      else (Begin(st, [], true), 1)
    else if c == '\\' && st.inParam && st.inQuote && |s| >= 2 && s[1] == '"' then
      (Extend(st, '"'), 2)
    else if st.inParam then (Extend(st, c), 1)
    else (Begin(st, [c], false), 1)
  }

  /** The splitting of the rest of a command line, from state `st`. */
  function Split(s: string, st: SplitState): (r: SplitState)
    requires st.Valid()
    ensures r.Valid()
    decreases |s|
  {
    if s == [] then st
    else
      var (st', k) := Step(s, st);
      Split(s[k..], st')
  }

  /** The arguments a command line splits into. */
  function Args(s: string): seq<string> {
    Split(s, Start).args
  }

  ///////////////////////////////////////////////////////////////////////////
  // quoting: a partner for `Split`

  /**
   * An argument that survives being quoted: no quote character and no
   * trailing backslash (which would escape the closing quote).  Windows
   * paths such as `C:\dir\file.gips` qualify.
   */
  predicate Quotable(x: string) {
    (forall i :: 0 <= i < |x| ==> x[i] != '"') && (x == [] || x[|x| - 1] != '\\')
  }

  function Quote(x: string): string {
    ['"'] + x + ['"']
  }

  /** Arguments quoted, each followed by a space. */
  function JoinQuoted(xs: seq<string>): string {
    if xs == [] then [] else Quote(xs[0]) + [' '] + JoinQuoted(xs[1..])
  }

  /** The open argument of `st` extended by `x`, with the quote closed. */
  function Closed(st: SplitState, x: string): (r: SplitState)
    requires st.Valid() && st.inParam
    ensures r.Valid() && r.inParam && !r.inQuote && |r.args| == |st.args|
  {
    var n := |st.args| - 1;
    SplitState(st.args[..n] + [st.args[n] + x], true, false)
  }

  /** Inside quotes, any character but a quote or an escaped quote joins the argument. */
  lemma StepInQuote(s: string, st: SplitState)
    requires s != [] && st.Valid() && st.inParam && st.inQuote && s[0] != '"'
    requires !(s[0] == '\\' && |s| >= 2 && s[1] == '"')
    ensures Split(s, st) == Split(s[1..], Extend(st, s[0]))
  {
    assert Step(s, st) == (Extend(st, s[0]), 1);
  }

  /** Extending by one character and then by `x` is extending by both. */
  lemma ClosedExtend(st: SplitState, c: char, x: string)
    requires st.Valid() && st.inParam
    ensures Closed(Extend(st, c), x) == Closed(st, [c] + x)
  {
    var n := |st.args| - 1;
    var st1 := Extend(st, c);
    assert st1.args[n] + x == st.args[n] + ([c] + x);
    assert st1.args[..n] == st.args[..n];
  }

  /** The closing quote ends the quoting and keeps the argument open. */
  lemma SplitCloseQuote(t: string, st: SplitState)
    requires st.Valid() && st.inParam && st.inQuote
    ensures Split(['"'] + t, st) == Split(t, Closed(st, []))
  {
    var s := ['"'] + t;
    assert s[1..] == t;
    assert Step(s, st) == (st.(inQuote := false), 1);
    var n := |st.args| - 1;
    assert st.args[n] + [] == st.args[n];
    assert st.args[..n] + [st.args[n]] == st.args;
  }

  /** Inside a quoted argument, `x` and the closing quote extend the open argument by `x`. */
  lemma {:induction false} SplitInQuote(x: string, t: string, st: SplitState)
    requires Quotable(x) && st.Valid() && st.inParam && st.inQuote
    ensures Split(x + ['"'] + t, st) == Split(t, Closed(st, x))
    decreases |x|
  {
    var s := x + ['"'] + t;
    if x == [] {
      assert s == ['"'] + t;
      SplitCloseQuote(t, st);
    } else {
      var x' := x[1..];
      assert s[0] == x[0] && s[1..] == x' + ['"'] + t;
      assert !(s[0] == '\\' && |s| >= 2 && s[1] == '"') by {
        if |x| == 1 {
          assert x[|x| - 1] == x[0];
        } else {
          assert s[1] == x[1];
        }
      }
      assert Quotable(x') by {
        assert forall i :: 0 <= i < |x'| ==> x'[i] == x[i + 1];
      }
      calc {
        Split(s, st);
        { StepInQuote(s, st); }
        Split(x' + ['"'] + t, Extend(st, x[0]));
        { SplitInQuote(x', t, Extend(st, x[0])); }
        Split(t, Closed(Extend(st, x[0]), x'));
        { ClosedExtend(st, x[0], x'); assert [x[0]] + x' == x; }
        Split(t, Closed(st, x));
      }
    }
  }

  /** With no argument open, a quoted argument is added and left open. */
  lemma SplitQuoted(x: string, t: string, st: SplitState)
    requires Quotable(x) && st.Valid() && !st.inParam
    ensures Split(Quote(x) + t, st) == Split(t, SplitState(st.args + [x], true, false))
  {
    var s := Quote(x) + t;
    assert s[0] == '"' && s[1..] == x + ['"'] + t;
    var st1 := Begin(st, [], true);
    assert Step(s, st) == (st1, 1);
    SplitInQuote(x, t, st1);
    var n := |st1.args| - 1;
    assert st1.args[..n] == st.args && st1.args[n] + x == x;
  }

  /** A space outside quotes closes the open argument. */
  lemma SplitSpace(t: string, st: SplitState)
    requires st.Valid() && st.inParam && !st.inQuote
    ensures Split([' '] + t, st) == Split(t, st.(inParam := false))
  {
    assert ([' '] + t)[1..] == t;
    assert Step([' '] + t, st) == (st.(inParam := false), 1);
  }

  /** The first quoted argument, and the space after it. */
  lemma SplitJoinFirst(xs: seq<string>, st: SplitState)
    requires xs != [] && Quotable(xs[0]) && st.Valid() && !st.inParam
    ensures Split(JoinQuoted(xs), st) == Split(JoinQuoted(xs[1..]), SplitState(st.args + [xs[0]], false, false))
  {
    var t := JoinQuoted(xs[1..]);
    var st1 := SplitState(st.args + [xs[0]], true, false);
    assert JoinQuoted(xs) == Quote(xs[0]) + ([' '] + t);
    SplitQuoted(xs[0], [' '] + t, st);
    SplitSpace(t, st1);
  }

  /** Quoted arguments split back into themselves, after any closed ones. */
  lemma {:induction false} SplitJoinQuoted(xs: seq<string>, st: SplitState)
    requires forall k :: 0 <= k < |xs| ==> Quotable(xs[k])
    requires !st.inParam && !st.inQuote
    ensures Split(JoinQuoted(xs), st) == SplitState(st.args + xs, false, false)
    decreases |xs|
  {
    if xs == [] {
      assert st.args + xs == st.args;
    } else {
      SplitJoinFirst(xs, st);
      SplitJoinQuoted(xs[1..], SplitState(st.args + [xs[0]], false, false));
      assert st.args + [xs[0]] + xs[1..] == st.args + xs;
    }
  }

  /** `Args` undoes `JoinQuoted`. */
  lemma ArgsJoinQuoted(xs: seq<string>)
    requires forall k :: 0 <= k < |xs| ==> Quotable(xs[k])
    ensures Args(JoinQuoted(xs)) == xs
  {
    SplitJoinQuoted(xs, Start);
  }

  ///////////////////////////////////////////////////////////////////////////
  // the in-place loop

  /**
   * What the loop does with one character `c` (with `next` after it): the
   * character it leaves at the write position, whether the write position
   * advances, how many characters it reads, whether an argument starts
   * here, whether the character joins the open argument, and the new flags.
   */
  datatype Action = Action(out: char, advance: bool, taken: nat, start: bool, append: bool, inParam: bool, inQuote: bool)

  /**
   * How an action fits the state it is taken in: an argument starts only
   * when none is open, a character joins only an open argument, and the
   * write position stays put exactly when a quote is dropped.
   */
  predicate Fits(a: Action, inParam: bool) {
    && (a.start ==> !inParam && a.inParam && a.advance == a.append)
    && (a.append ==> a.inParam && a.advance)
    && (!a.start && a.inParam ==> inParam)
    && (!a.start && !a.inParam && inParam ==> a.out == '\0' && a.advance)
    && (!a.start && !a.append && inParam && a.inParam ==> !a.advance)
    && (!inParam && !a.inParam ==> a.advance)
  }

  /** The `switch` of the loop body. */
  function ActionFor(c: char, next: char, inParam: bool, inQuote: bool): (a: Action)
    ensures a.taken == 2 <==> c == '\\' && inParam && inQuote && next == '"'
    ensures a.taken == 1 || a.taken == 2
    ensures Fits(a, inParam)
  {
    if IsArgSpace(c) then
      if inParam && !inQuote then Action('\0', true, 1, false, false, false, inQuote)
      else Action(c, true, 1, false, inParam, inParam, inQuote)
    else if c == '"' then
      if inParam then Action('"', false, 1, false, false, true, !inQuote)
      else Action('"', false, 1, true, false, true, true)
    else if c == '\\' && inParam && inQuote && next == '"' then
      Action('"', true, 2, false, true, true, true)
    else Action(c, true, 1, !inParam, true, true, if inParam then inQuote else false)
  }

  /** The state an action leads to. */
  function Apply(st: SplitState, a: Action): (r: SplitState)
    requires st.Valid() && Fits(a, st.inParam)
    ensures r.inParam == a.inParam && r.inQuote == a.inQuote
  {
    var args :=
      if a.start then st.args + [if a.append then [a.out] else []]
      else if a.append then Extend(st, a.out).args
      else st.args;
    SplitState(args, a.inParam, a.inQuote)
  }

  /** The action taken on the front of `s` is `Step` on strings. */
  lemma ActionStep(s: string, st: SplitState, next: char)
    requires s != [] && s[0] != '\0' && st.Valid()
    requires next == if |s| >= 2 then s[1] else '\0'
    ensures var a := ActionFor(s[0], next, st.inParam, st.inQuote);
      Apply(st, a).Valid() && Step(s, st) == (Apply(st, a), a.taken)
  {
  }

  /** The string `a` written at position `p` of `w`. */
  ghost predicate Written(w: seq<char>, p: nat, a: string) {
    p + |a| <= |w| && forall j :: 0 <= j < |a| ==> w[p + j] == a[j]
  }

  /** The string `a` held at position `p` of `w`, followed by a NUL. */
  ghost predicate Held(w: seq<char>, p: nat, a: string) {
    Written(w, p, a) && p + |a| < |w| && w[p + |a|] == '\0'
  }

  /**
   * `args` laid out in the written text `w` at the positions `argv`: each
   * closed argument held and ending before the next one starts and, when
   * `open` holds, the last argument written up to the end of `w`.
   */
  ghost predicate Stored(w: seq<char>, argv: seq<nat>, args: seq<string>, open: bool)
    requires |argv| == |args| && (open ==> args != [])
  {
    var closed := if open then |args| - 1 else |args|;
    && (forall k :: 0 <= k < closed ==>
          Held(w, argv[k], args[k]) && (k + 1 < |argv| ==> argv[k] + |args[k]| < argv[k + 1]))
    && (open ==> argv[closed] + |args[closed]| == |w| && Written(w, argv[closed], args[closed]))
  }

  /** Text written after a held string keeps it held. */
  lemma HeldAppend(w: seq<char>, p: nat, a: string, more: seq<char>)
    requires Held(w, p, a)
    ensures Held(w + more, p, a)
  {
    assert forall j :: 0 <= j < |w| ==> (w + more)[j] == w[j];
  }

  /** Text written after the closed arguments keeps them stored. */
  lemma StoredAppend(w: seq<char>, argv: seq<nat>, args: seq<string>, open: bool, more: seq<char>)
    requires |argv| == |args| && (open ==> args != []) && Stored(w, argv, args, open)
    ensures var closed := if open then |args| - 1 else |args|;
      forall k :: 0 <= k < closed ==> Held(w + more, argv[k], args[k])
  {
    var closed := if open then |args| - 1 else |args|;
    forall k | 0 <= k < closed
      ensures Held(w + more, argv[k], args[k])
    {
      HeldAppend(w, argv[k], args[k], more);
    }
  }

  /** A character appended to the open argument. */
  lemma StoredExtend(w: seq<char>, argv: seq<nat>, st: SplitState, c: char)
    requires |argv| == |st.args| && st.Valid() && st.inParam && Stored(w, argv, st.args, true)
    ensures Stored(w + [c], argv, Extend(st, c).args, true)
  {
    var n := |st.args| - 1;
    var args' := Extend(st, c).args;
    StoredAppend(w, argv, st.args, true, [c]);
    assert args'[n] == st.args[n] + [c];
    forall k | 0 <= k < n
      ensures args'[k] == st.args[k]
    {
      assert args'[..n] == st.args[..n];
    }
    forall j | 0 <= j < |args'[n]|
      ensures (w + [c])[argv[n] + j] == args'[n][j]
    {
    }
  }

  /** The open argument closed with a NUL. */
  lemma StoredClose(w: seq<char>, argv: seq<nat>, args: seq<string>)
    requires |argv| == |args| && args != [] && Stored(w, argv, args, true)
    ensures Stored(w + ['\0'], argv, args, false)
  {
    var n := |args| - 1;
    StoredAppend(w, argv, args, true, ['\0']);
    assert Held(w + ['\0'], argv[n], args[n]);
  }

  /** An argument started at the end of `w` with `first`. */
  lemma StoredBegin(w: seq<char>, argv: seq<nat>, args: seq<string>, first: string)
    requires |argv| == |args| && Stored(w, argv, args, false) && |first| <= 1
    ensures Stored(w + first, argv + [|w|], args + [first], true)
  {
    var argv', args' := argv + [|w|], args + [first];
    StoredAppend(w, argv, args, false, first);
    assert args'[|args|] == first;
    forall k | 0 <= k < |args|
      ensures argv'[k] == argv[k] && args'[k] == args[k]
    {
    }
  }

  /** With no argument open, any character may be written. */
  lemma StoredSkip(w: seq<char>, argv: seq<nat>, args: seq<string>, c: char)
    requires |argv| == |args| && Stored(w, argv, args, false)
    ensures Stored(w + [c], argv, args, false)
  {
    StoredAppend(w, argv, args, false, [c]);
  }

  /** The text an action leaves written. */
  function Emit(w: seq<char>, a: Action): seq<char> {
    if a.advance then w + [a.out] else w
  }

  /** One action keeps the arguments stored in the written text. */
  lemma StoredAction(w: seq<char>, argv: seq<nat>, st: SplitState, a: Action)
    requires |argv| == |st.args| && st.Valid() && Stored(w, argv, st.args, st.inParam)
    requires Fits(a, st.inParam)
    ensures Stored(Emit(w, a), if a.start then argv + [|w|] else argv, Apply(st, a).args, a.inParam)
  {
    if a.start {
      var first := if a.append then [a.out] else [];
      assert Apply(st, a).args == st.args + [first];
      assert Emit(w, a) == w + first;
      StoredBegin(w, argv, st.args, first);
    } else if a.append {
      assert Apply(st, a).args == Extend(st, a.out).args;
      StoredExtend(w, argv, st, a.out);
    } else if st.inParam && !a.inParam {
      assert Apply(st, a).args == st.args;
      StoredClose(w, argv, st.args);
    } else if !st.inParam {
      assert Apply(st, a).args == st.args;
      StoredSkip(w, argv, st.args, a.out);
    } else {
      assert Apply(st, a).args == st.args && Emit(w, a) == w;
    }
  }

  lemma DropMore(s: string, i: nat, k: nat)
    requires i + k <= |s|
    ensures s[i..][k..] == s[i + k..]
  {
  }

  /**
   * The buffer part of the loop invariant: `b` still holds the unread rest
   * of the command line `s` and its terminator, and begins with the text
   * `w` written so far, which does not reach the read position.
   */
  ghost predicate Buffered(b: seq<char>, s: string, src: nat, w: seq<char>) {
    && |s| < |b| && b[|s|] == '\0'
    && |w| <= src <= |s|
    && (forall j :: src <= j < |s| ==> b[j] == s[j])
    && (forall j :: 0 <= j < |w| ==> b[j] == w[j])
  }

  /**
   * The string part of the loop invariant: the state is `Split`'s after the
   * part of `s` read, and that part's arguments are stored in `w`.
   */
  ghost predicate Progress(s: string, src: nat, argv: seq<nat>, st: SplitState, w: seq<char>) {
    && src <= |s|
    && st.Valid() && |st.args| == |argv| <= src
    && Split(s, Start) == Split(s[src..], st)
    && Stored(w, argv, st.args, st.inParam)
  }

  ghost predicate Inv(b: seq<char>, s: string, src: nat, dst: nat, argv: seq<nat>, st: SplitState,
                      w: seq<char>)
  {
    |w| == dst && Buffered(b, s, src, w) && Progress(s, src, argv, st, w)
  }

  /** `Split` is unchanged by one step of the loop. */
  lemma SplitNext(s: string, src: nat, st: SplitState, next: char, a: Action)
    requires src < |s| && s[src] != '\0' && st.Valid()
    requires next == if src + 1 < |s| then s[src + 1] else '\0'
    requires a == ActionFor(s[src], next, st.inParam, st.inQuote)
    ensures src + a.taken <= |s| && Apply(st, a).Valid()
    ensures Split(s[src..], st) == Split(s[src + a.taken..], Apply(st, a))
  {
    ActionStep(s[src..], st, next);
    DropMore(s, src, a.taken);
  }

  /** The string side of one pass: `Split` is unchanged by the step, and the arguments stay stored. */
  lemma ProgressNext(s: string, src: nat, argv: seq<nat>, st: SplitState, w: seq<char>, next: char, a: Action,
                     src': nat, argv': seq<nat>, st': SplitState, w': seq<char>)
    requires Progress(s, src, argv, st, w) && src < |s| && s[src] != '\0'
    requires next == if src + 1 < |s| then s[src + 1] else '\0'
    requires a == ActionFor(s[src], next, st.inParam, st.inQuote)
    requires src' == src + a.taken && argv' == (if a.start then argv + [|w|] else argv)
    requires st.Valid() && Fits(a, st.inParam) && st' == Apply(st, a) && w' == Emit(w, a)
    ensures Progress(s, src', argv', st', w')
  {
    SplitNext(s, src, st, next, a);
    StoredAction(w, argv, st, a);
  }

  /** The buffer side of one pass: the write at the end of `w`. */
  lemma BufferedNext(b: seq<char>, s: string, src: nat, w: seq<char>, a: Action,
                      b': seq<char>, src': nat, w': seq<char>)
    requires Buffered(b, s, src, w) && src < src' <= |s|
    requires |w| < |b| && b' == b[|w| := a.out] && w' == Emit(w, a)
    ensures Buffered(b', s, src', w')
  {
  }

  /** The single write of a pass. */
  method Put(buf: array<char>, i: nat, c: char)
    requires i < buf.Length
    modifies buf
    ensures buf[..] == old(buf[..])[i := c]
  {
    buf[i] := c;
  }

  /** One pass of the loop body, on a character that is not the terminator. */
  method Advance(buf: array<char>, ghost s: string, src: nat, dst: nat, argv: seq<nat>,
                 inParam: bool, inQuote: bool, ghost st: SplitState, ghost w: seq<char>)
    returns (src': nat, dst': nat, argv': seq<nat>, inParam': bool, inQuote': bool,
             ghost st': SplitState, ghost w': seq<char>)
    requires Inv(buf[..], s, src, dst, argv, st, w) && st.inParam == inParam && st.inQuote == inQuote
    requires buf[src] != '\0'
    modifies buf
    ensures Inv(buf[..], s, src', dst', argv', st', w') && st'.inParam == inParam' && st'.inQuote == inQuote'
    ensures src < src'
  {
    ghost var b := buf[..];
    var c, next := buf[src], buf[src + 1];
    assert c == s[src] && next == if src + 1 < |s| then s[src + 1] else '\0';
    var a := ActionFor(c, next, inParam, inQuote);
    Put(buf, dst, a.out);
    argv' := if a.start then argv + [dst] else argv;
    inParam', inQuote' := a.inParam, a.inQuote;
    dst' := if a.advance then dst + 1 else dst;
    src' := src + a.taken;
    st' := Apply(st, a);
    w' := Emit(w, a);
    ProgressNext(s, src, argv, st, w, next, a, src', argv', st', w');
    BufferedNext(b, s, src, w, a, buf[..], src', w');
  }

  /** The written text's arguments, read back from a buffer that begins with it. */
  lemma HeldIn(w: seq<char>, b: seq<char>, p: nat, a: string)
    requires Held(w, p, a) && |w| <= |b| && forall j :: 0 <= j < |w| ==> b[j] == w[j]
    ensures Held(b, p, a)
  {
  }

  /**
   * `WinMain`'s splitting loop on the terminated buffer `buf`: the argument
   * start positions it records in `argv`, and the buffer rewritten so that
   * each of them holds `Args` of the original command line, NUL-terminated.
   */
  method SplitCommandLine(buf: array<char>) returns (argv: seq<nat>)
    requires '\0' in buf[..]
    modifies buf
    ensures var a := Args(CStr(old(buf[..])));
      && |argv| == |a| <= CLen(old(buf[..]))
      && (forall k :: 0 <= k < |argv| ==> Held(buf[..], argv[k], a[k]))
      && (forall k :: 0 <= k < |argv| - 1 ==> argv[k] + |a[k]| < argv[k + 1])
  {
    ghost var s := CStr(buf[..]);
    var src: nat, dst: nat := 0, 0;
    var inParam, inQuote := false, false;
    argv := [];
    ghost var st, w := Start, [];
    while buf[src] != '\0'
      invariant Inv(buf[..], s, src, dst, argv, st, w) && st.inParam == inParam && st.inQuote == inQuote
      decreases |s| - src
    {
      src, dst, argv, inParam, inQuote, st, w := Advance(buf, s, src, dst, argv, inParam, inQuote, st, w);
    }
    buf[dst] := '\0';
    if inParam {
      StoredClose(w, argv, st.args);
    } else {
      StoredSkip(w, argv, st.args, '\0');
    }
    w := w + ['\0'];
    assert forall j :: 0 <= j < |w| ==> buf[j] == w[j];
    forall k | 0 <= k < |argv|
      ensures Held(buf[..], argv[k], st.args[k])
    {
      HeldIn(w, buf[..], argv[k], st.args[k]);
    }
  }
}
