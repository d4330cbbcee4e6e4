/**
 FrameworkListener.cpp: the tokenizer of dispatchCommand, which splits a command
 line at spaces outside quotes and undoes backslash escapes.
 */
module CommandTokenizers {
  /** sizeof(tmp); the last place is kept for the terminator. */
  const TMP_SIZE: nat := 255

  datatype Outcome =
    | Args(list: seq<string>)
    | TooLong
    | UnsupportedEscape
    | UnclosedQuotes

  /** The characters before the first NUL. */
  function CString(s: seq<char>): string {
    if s == [] || s[0] == '\0' then [] else [s[0]] + CString(s[1..])
  }

  lemma {:induction false} CStringIs(s: seq<char>, n: nat)
    requires n < |s| && s[n] == '\0' && forall i :: 0 <= i < n ==> s[i] != '\0'
    ensures CString(s) == s[..n]
    decreases n
  {
    if n > 0 {
      CStringIs(s[1..], n - 1);
      assert s[..n] == [s[0]] + s[1..][..n - 1];
    }
  }

  // The reference: one character at a time

  datatype Scan = Scan(args: seq<string>, tmp: string, esc: bool, quote: bool)

  datatype Fed = Go(s: Scan) | Stop(o: Outcome)

  function Put(s: Scan, c: char): Fed {
    if |s.tmp| + 1 >= TMP_SIZE then Stop(TooLong) else Go(Scan(s.args, s.tmp + [c], false, s.quote))
  }

  function Feed(s: Scan, c: char, max: nat): Fed {
    if c == '\\' then
      if s.esc then Put(s, c) else Go(s.(esc := true))
    else if s.esc then
      if c == '"' then Put(s, c) else Stop(UnsupportedEscape)
    else if c == '"' then Go(s.(quote := !s.quote))
    else if s.quote || c != ' ' then Put(s, c)
    else if |s.tmp| + 1 >= TMP_SIZE || |s.args| >= max then Stop(TooLong)
    else Go(Scan(s.args + [s.tmp], [], false, false))
  }

  function Finish(s: Scan, max: nat): Outcome {
    if |s.args| >= max then TooLong
    else if s.quote then UnclosedQuotes
    else Args(s.args + [s.tmp])
  }

  function ScanFrom(s: Scan, data: string, max: nat): Outcome
    decreases |data|
  {
    if data == [] then Finish(s, max)
    else
      var r := Feed(s, data[0], max);
      if r.Stop? then r.o else ScanFrom(r.s, data[1..], max)
  }

  function Tokenize(data: string, max: nat): Outcome {
    ScanFrom(Scan([], [], false, false), data, max)
  }

  // The loop

  /** The buffer holds what was collected, and zeros. */
  predicate Holds(tmp: seq<char>, q: nat, s: string) {
    && |tmp| == TMP_SIZE && q == |s| < TMP_SIZE && tmp[..q] == s
    && (forall i :: 0 <= i < q ==> s[i] != '\0') && forall i :: q <= i < TMP_SIZE ==> tmp[i] == '\0'
  }

  lemma HoldsNext(tmp: seq<char>, q: nat, s: string, c: char)
    requires Holds(tmp, q, s) && q + 1 < TMP_SIZE && c != '\0'
    ensures Holds(tmp[q := c], q + 1, s + [c])
  {
    assert tmp[q := c][..q + 1] == tmp[..q] + [c];
  }

  lemma HoldsCopy(tmp: seq<char>, q: nat, s: string)
    requires Holds(tmp, q, s)
    ensures CString(tmp) == s
  {
    CStringIs(tmp, q);
  }

  method Store(tmp: array<char>, q: nat, c: char, ghost s: string)
    requires Holds(tmp[..], q, s) && q + 1 < TMP_SIZE && c != '\0'
    modifies tmp
    ensures Holds(tmp[..], q + 1, s + [c])
  {
    HoldsNext(tmp[..], q, s, c);
    tmp[q] := c;
    assert tmp[..] == old(tmp[..])[q := c];
  }

  method Clear(tmp: array<char>)
    requires tmp.Length == TMP_SIZE
    modifies tmp
    ensures Holds(tmp[..], 0, [])
  {
    forall i | 0 <= i < tmp.Length {
      tmp[i] := '\0';
    }
  }

  lemma ScanStep(data: string, p: nat, s: Scan, max: nat)
    requires p < |data|
    ensures var r := Feed(s, data[p], max);
      ScanFrom(s, data[p..], max) == if r.Stop? then r.o else ScanFrom(r.s, data[p + 1..], max)
  {
    assert data[p..][1..] == data[p + 1..];
  }

  /** What the loop's variables stand for. */
  predicate Stands(s: Scan, argv: seq<string>, tmp: seq<char>, q: nat, esc: bool, quote: bool) {
    s.args == argv && s.esc == esc && s.quote == quote && Holds(tmp, q, s.tmp)
  }

  /** One turn of the loop. */
  method Turn(tmp: array<char>, c: char, max: nat, argv0: seq<string>, q0: nat, esc0: bool, quote0: bool, ghost s: Scan)
    returns (stop: bool, o: Outcome, argv: seq<string>, q: nat, esc: bool, quote: bool)
    requires c != '\0' && Stands(s, argv0, tmp[..], q0, esc0, quote0)
    modifies tmp
    ensures stop == Feed(s, c, max).Stop?
    ensures stop ==> o == Feed(s, c, max).o
    ensures !stop ==> Stands(Feed(s, c, max).s, argv, tmp[..], q, esc, quote)
  {
    stop, o, argv, q, esc, quote := false, TooLong, argv0, q0, esc0, quote0;
    if c == '\\' {
      if esc {
        if q >= TMP_SIZE - 1 {
          return true, TooLong, argv, q, esc, quote;
        }
        Store(tmp, q, '\\', s.tmp);
        q, esc := q + 1, false;
      } else {
        esc := true;
      }
      return;
    } else if esc {
      if c != '"' {
        return true, UnsupportedEscape, argv, q, esc, quote;
      }
      if q >= TMP_SIZE - 1 {
        return true, TooLong, argv, q, esc, quote;
      }
      Store(tmp, q, '"', s.tmp);
      q, esc := q + 1, false;
      return;
    }
    if c == '"' {
      quote := !quote;
      return;
    }
    if q >= TMP_SIZE - 1 {
      return true, TooLong, argv, q, esc, quote;
    }
    if !quote && c == ' ' {
      if |argv| >= max {
        return true, TooLong, argv, q, esc, quote;
      }
      HoldsCopy(tmp[..], q, s.tmp);
      argv := argv + [CString(tmp[..])];
      Clear(tmp);
      q := 0;
      return;
    }
    Store(tmp, q, c, s.tmp);
    q := q + 1;
  }

  /**
   The tokenizer on a zero-terminated command.  Every write is inside the buffer,
   and the result is the reference's.
   */
  method Dispatch(data: array<char>, max: nat) returns (o: Outcome)
    requires '\0' in data[..]
    ensures o == Tokenize(CString(data[..]), max) == Split(CString(data[..]), max)
  {
    ghost var n := Terminator(data[..]);
    ghost var line := CString(data[..]);
    var argv: seq<string> := [];
    var tmp := new char[TMP_SIZE];
    Clear(tmp);
    var p, q := 0, 0;
    var esc, quote := false, false;
    ghost var s := Scan([], [], false, false);
    TokenizeIsSplit(line, max);
    assert line[0..] == line;
    while data[p] != '\0'
      invariant 0 <= p <= n && Stands(s, argv, tmp[..], q, esc, quote)
      invariant ScanFrom(s, line[p..], max) == Tokenize(line, max)
      decreases n - p
    {
      ScanStep(line, p, s, max);
      ghost var r := Feed(s, data[p], max);
      var stop;
      stop, o, argv, q, esc, quote := Turn(tmp, data[p], max, argv, q, esc, quote, s);
      if stop {
        return;
      }
      s := r.s;
      p := p + 1;
    }
    assert line[p..] == [];
    if |argv| >= max {
      return TooLong;
    }
    HoldsCopy(tmp[..], q, s.tmp);
    argv := argv + [CString(tmp[..])];
    if quote {
      return UnclosedQuotes;
    }
    return Args(argv);
  }

  lemma Terminator(data: seq<char>) returns (n: nat)
    requires '\0' in data
    ensures n < |data| && data[n] == '\0' && CString(data) == data[..n] && forall i :: 0 <= i < n ==> data[i] != '\0'
    decreases |data|
  {
    if data[0] == '\0' {
      n := 0;
    } else {
      n := Terminator(data[1..]);
      n := n + 1;
      assert forall i :: 1 <= i < n ==> data[i] == data[1..][i - 1];
      CStringIs(data, n);
    }
  }

  // Undoing quotation

  function EscapeChar(c: char): string {
    if c == '"' || c == '\\' then ['\\', c] else [c]
  }

  function Escape(arg: string): string {
    if arg == [] then [] else EscapeChar(arg[0]) + Escape(arg[1..])
  }

  function Quoted(arg: string): string {
    ['"'] + Escape(arg) + ['"']
  }

  /** Each argument in quotes, joined by single spaces. */
  function Join(args: seq<string>): string {
    if args == [] then []
    else if |args| == 1 then Quoted(args[0])
    else Quoted(args[0]) + [' '] + Join(args[1..])
  }

  lemma FeedStep(s: Scan, c: char, rest: string, max: nat)
    ensures ScanFrom(s, [c] + rest, max) == var r := Feed(s, c, max); if r.Stop? then r.o else ScanFrom(r.s, rest, max)
  {
    assert ([c] + rest)[1..] == rest;
  }

  lemma ScanChar(s: Scan, c: char, more: string, max: nat)
    requires s.quote && !s.esc && |s.tmp| + 1 < TMP_SIZE
    ensures ScanFrom(s, EscapeChar(c) + more, max) == ScanFrom(s.(tmp := s.tmp + [c]), more, max)
  {
    if c == '"' || c == '\\' {
      assert EscapeChar(c) + more == ['\\'] + ([c] + more);
      FeedStep(s, '\\', [c] + more, max);
      FeedStep(s.(esc := true), c, more, max);
    } else {
      FeedStep(s, c, more, max);
    }
  }

  /** In quotes, escaped text arrives as it was. */
  lemma {:induction false} ScanEscaped(s: Scan, arg: string, rest: string, max: nat)
    requires s.quote && !s.esc && |s.tmp| + |arg| < TMP_SIZE
    ensures ScanFrom(s, Escape(arg) + rest, max) == ScanFrom(s.(tmp := s.tmp + arg), rest, max)
    decreases |arg|
  {
    if arg == [] {
      assert Escape(arg) + rest == rest && s.tmp + arg == s.tmp;
    } else {
      var s' := s.(tmp := s.tmp + [arg[0]]);
      assert Escape(arg) + rest == EscapeChar(arg[0]) + (Escape(arg[1..]) + rest);
      ScanChar(s, arg[0], Escape(arg[1..]) + rest, max);
      ScanEscaped(s', arg[1..], rest, max);
      assert s'.tmp + arg[1..] == s.tmp + arg;
    }
  }

  lemma ScanQuoted(args: seq<string>, arg: string, rest: string, max: nat)
    requires |arg| < TMP_SIZE
    ensures ScanFrom(Scan(args, [], false, false), Quoted(arg) + rest, max)
         == ScanFrom(Scan(args, arg, false, false), rest, max)
  {
    var s := Scan(args, [], false, false);
    var tail := ['"'] + rest;
    assert Quoted(arg) + rest == ['"'] + (Escape(arg) + tail);
    FeedStep(s, '"', Escape(arg) + tail, max);
    ScanEscaped(s.(quote := true), arg, tail, max);
    assert [] + arg == arg;
    FeedStep(Scan(args, arg, false, true), '"', rest, max);
  }

  /** Lengths the buffer allows: a final argument may be one longer, as no space follows it. */
  predicate FitBuffer(list: seq<string>) {
    forall k :: 0 <= k < |list| ==> |list[k]| + (if k + 1 < |list| then 1 else 0) < TMP_SIZE
  }

  predicate NoNul(list: seq<string>) {
    forall k :: 0 <= k < |list| ==> '\0' !in list[k]
  }

  lemma {:induction false} ScanJoin(args: seq<string>, list: seq<string>, max: nat)
    requires list != [] && FitBuffer(list) && |args| + |list| <= max
    ensures ScanFrom(Scan(args, [], false, false), Join(list), max) == Args(args + list)
    decreases |list|
  {
    if |list| == 1 {
      assert Join(list) == Quoted(list[0]) + [];
      ScanQuoted(args, list[0], [], max);
      assert list == [list[0]];
    } else {
      var rest := list[1..];
      assert Join(list) == Quoted(list[0]) + ([' '] + Join(rest));
      ScanQuoted(args, list[0], [' '] + Join(rest), max);
      FeedStep(Scan(args, list[0], false, false), ' ', Join(rest), max);
      assert forall k :: 0 <= k < |rest| ==> rest[k] == list[k + 1];
      ScanJoin(args + [list[0]], rest, max);
      assert args + [list[0]] + rest == args + list;
    }
  }

  // The arguments, by positions in the line

  /** How many backslashes stand just before p. */
  function Slashes(line: string, p: nat): nat
    requires p <= |line|
  {
    if p == 0 || line[p - 1] != '\\' then 0 else 1 + Slashes(line, p - 1)
  }

  predicate Escaped(line: string, p: nat)
    requires p <= |line|
  {
    Slashes(line, p) % 2 == 1
  }

  predicate IsQuote(line: string, p: nat)
    requires p < |line|
  {
    line[p] == '"' && !Escaped(line, p)
  }

  /** The unescaped quotes before n. */
  function Quotes(line: string, n: nat): nat
    requires n <= |line|
  {
    if n == 0 then 0 else Quotes(line, n - 1) + if IsQuote(line, n - 1) then 1 else 0
  }

  /** A space outside quotes ends an argument. */
  predicate IsCut(line: string, p: nat)
    requires p < |line|
  {
    line[p] == ' ' && Quotes(line, p) % 2 == 0
  }

  /** Unescaped quotes and backslashes are no part of the text. */
  predicate IsText(line: string, p: nat)
    requires p < |line|
  {
    !IsCut(line, p) && (Escaped(line, p) || line[p] !in {'"', '\\'})
  }

  /** The text between the cuts, of the first n characters. */
  function Parts(line: string, n: nat): (parts: seq<string>)
    requires n <= |line|
    ensures parts != []
  {
    if n == 0 then [[]] else
      var parts, last := Parts(line, n - 1), |Parts(line, n - 1)| - 1;
      if IsCut(line, n - 1) then parts + [[]]
      else if IsText(line, n - 1) then parts[last := parts[last] + [line[n - 1]]]
      else parts
  }

  predicate IsBad(line: string, p: nat)
    requires p < |line|
  {
    Escaped(line, p) && line[p] !in {'"', '\\'}
  }

  /** The first place from p on where a character must not be escaped but is, or the end. */
  function FirstBad(line: string, p: nat): (n: nat)
    requires p <= |line|
    ensures p <= n <= |line| && (n < |line| ==> IsBad(line, n)) && forall k :: p <= k < n ==> !IsBad(line, k)
    decreases |line| - p
  {
    if p == |line| || IsBad(line, p) then p else FirstBad(line, p + 1)
  }

  /** One part more than `max` is no harm yet; every part but the last also needs room for its space. */
  predicate Room(parts: seq<string>, max: nat) {
    && |parts| <= max + 1 && (parts != [] ==> |parts[|parts| - 1]| <= 254)
    && forall k :: 0 <= k < |parts| - 1 ==> |parts[k]| <= 253
  }

  lemma RoomIff(parts: seq<string>, max: nat)
    ensures Room(parts, max) <==> |parts| <= max + 1 && FitBuffer(parts)
  {
    if FitBuffer(parts) && parts != [] {
      assert |parts[|parts| - 1]| < TMP_SIZE;
    }
  }

  lemma RoomBefore(line: string, n: nat, max: nat)
    requires n < |line| && Room(Parts(line, n + 1), max)
    ensures Room(Parts(line, n), max)
  {
    var parts, next := Parts(line, n), Parts(line, n + 1);
    assert forall k :: 0 <= k < |parts| - 1 ==> next[k] == parts[k];
    assert |next[|parts| - 1]| >= |parts[|parts| - 1]|;
  }

  lemma {:induction false} RoomAll(line: string, n: nat, m: nat, max: nat)
    requires n <= m <= |line| && Room(Parts(line, m), max)
    ensures Room(Parts(line, n), max)
    decreases m - n
  {
    if n < m {
      RoomAll(line, n + 1, m, max);
      RoomBefore(line, n, max);
    }
  }

  /** Where the scan stands after n characters. */
  function StateAt(line: string, n: nat): Scan
    requires n <= |line|
  {
    var parts := Parts(line, n);
    Scan(parts[..|parts| - 1], parts[|parts| - 1], Escaped(line, n), Quotes(line, n) % 2 == 1)
  }

  lemma StateStep(line: string, n: nat, max: nat)
    requires n < |line| && Room(Parts(line, n), max)
    ensures Feed(StateAt(line, n), line[n], max)
         == if IsBad(line, n) then Stop(UnsupportedEscape)
            else if Room(Parts(line, n + 1), max) then Go(StateAt(line, n + 1)) else Stop(TooLong)
  {
    var parts, next := Parts(line, n), Parts(line, n + 1);
    var last := |parts| - 1;
    if IsCut(line, n) {
      assert next[..last + 1] == parts[..last] + [parts[last]];
    } else {
      assert next[..last] == parts[..last];
    }
  }

  /** The outcome, by positions. */
  function Split(line: string, max: nat): Outcome {
    var n := FirstBad(line, 0);
    var parts := Parts(line, n);
    if !Room(parts, max) then TooLong
    else if n < |line| then UnsupportedEscape
    else if |parts| > max then TooLong
    else if Quotes(line, n) % 2 == 1 then UnclosedQuotes
    else Args(parts)
  }

  lemma TooLongBefore(line: string, n: nat, max: nat)
    requires n <= FirstBad(line, 0) && !Room(Parts(line, n), max)
    ensures Split(line, max) == TooLong
  {
    var bad := FirstBad(line, 0);
    if Room(Parts(line, bad), max) {
      RoomAll(line, n, bad, max);
    }
  }

  lemma FrontAndLast<T>(s: seq<T>)
    requires s != []
    ensures s[..|s| - 1] + [s[|s| - 1]] == s
  {
  }

  lemma SplitEnd(line: string, n: nat, max: nat)
    requires n == |line| == FirstBad(line, 0) && Room(Parts(line, n), max)
    ensures Finish(StateAt(line, n), max) == Split(line, max)
  {
    FrontAndLast(Parts(line, n));
  }

  lemma {:induction false} ScanIsSplit(line: string, n: nat, max: nat)
    requires n <= FirstBad(line, 0) && Room(Parts(line, n), max)
    ensures ScanFrom(StateAt(line, n), line[n..], max) == Split(line, max)
    decreases |line| - n
  {
    if n == |line| {
      SplitEnd(line, n, max);
    } else {
      StateStep(line, n, max);
      ScanStep(line, n, StateAt(line, n), max);
      if n < FirstBad(line, 0) {
        if Room(Parts(line, n + 1), max) {
          ScanIsSplit(line, n + 1, max);
        } else {
          TooLongBefore(line, n + 1, max);
        }
      }
    }
  }

  /** The tokenizer cuts at the spaces outside quotes and drops what escapes and quotes. */
  lemma TokenizeIsSplit(line: string, max: nat)
    ensures Tokenize(line, max) == Split(line, max)
  {
    assert Parts(line, 0)[..0] == [];
    assert line[0..] == line;
    ScanIsSplit(line, 0, max);
  }

  /** What each error is due to: a backslash before another character, an odd number of unescaped quotes. */
  lemma Causes(line: string, max: nat, o: Outcome)
    requires o == Tokenize(line, max)
    ensures o == UnsupportedEscape ==> exists p :: 0 <= p < |line| && IsBad(line, p)
    ensures o == UnclosedQuotes ==> Quotes(line, |line|) % 2 == 1
    ensures o.Args? ==> Quotes(line, |line|) % 2 == 0 && forall p :: 0 <= p < |line| ==> !IsBad(line, p)
  {
    TokenizeIsSplit(line, max);
  }

  // Plain lines

  predicate Plain(line: string) {
    '"' !in line && '\\' !in line
  }

  /** Joined by single spaces. */
  function Spaced(parts: seq<string>): string {
    if parts == [] then []
    else if |parts| == 1 then parts[0]
    else Spaced(parts[..|parts| - 1]) + [' '] + parts[|parts| - 1]
  }

  predicate NoSpaces(parts: seq<string>) {
    forall k :: 0 <= k < |parts| ==> ' ' !in parts[k]
  }

  lemma {:induction false} PlainClean(line: string, n: nat)
    requires Plain(line) && n <= |line|
    ensures Slashes(line, n) == 0 && Quotes(line, n) == 0
    decreases n
  {
    if n > 0 {
      assert line[n - 1] in line;
      PlainClean(line, n - 1);
    }
  }

  /** One character more of the last part. */
  function Longer(parts: seq<string>, c: char): seq<string>
    requires parts != []
  {
    var last := |parts| - 1;
    parts[last := parts[last] + [c]]
  }

  lemma PlainStep(line: string, n: nat)
    requires Plain(line) && n < |line|
    ensures Parts(line, n + 1)
         == if line[n] == ' ' then Parts(line, n) + [[]] else Longer(Parts(line, n), line[n])
  {
    assert line[n] in line;
    PlainClean(line, n);
  }

  lemma Joined(parts: seq<string>, c: char)
    requires parts != []
    ensures Spaced(parts + [[]]) == Spaced(parts) + [' ']
    ensures Spaced(Longer(parts, c)) == Spaced(parts) + [c]
  {
    var last := |parts| - 1;
    assert (parts + [[]])[..|parts|] == parts;
    assert Longer(parts, c)[..last] == parts[..last];
  }

  lemma PartsMore(parts: seq<string>, next: seq<string>, c: char, before: string, line: string)
    requires parts != [] && next == if c == ' ' then parts + [[]] else Longer(parts, c)
    requires Spaced(parts) == before && NoSpaces(parts) && line == before + [c]
    ensures Spaced(next) == line && NoSpaces(next)
  {
    Joined(parts, c);
  }

  lemma {:induction false} PlainParts(line: string, n: nat, before: string)
    requires Plain(line) && n <= |line| && before == line[..n]
    ensures Spaced(Parts(line, n)) == before && NoSpaces(Parts(line, n))
    decreases n
  {
    if n > 0 {
      var m := n - 1;
      PlainParts(line, m, line[..m]);
      PlainStep(line, m);
      assert before == line[..m] + [line[m]];
      PartsMore(Parts(line, m), Parts(line, n), line[m], line[..m], before);
    }
  }

  lemma PlainNotBad(line: string)
    requires Plain(line)
    ensures FirstBad(line, 0) == |line|
  {
    var n := FirstBad(line, 0);
    if n < |line| {
      PlainClean(line, n);
    }
  }

  /**
   Without quotes and backslashes the words are the line: joined by single spaces
   they give it back, and they come out exactly within the limits.
   */
  lemma PlainLine(line: string, max: nat) returns (words: seq<string>)
    requires Plain(line)
    ensures Spaced(words) == line && NoSpaces(words)
    ensures Tokenize(line, max) == if |words| <= max && Room(words, max) then Args(words) else TooLong
  {
    TokenizeIsSplit(line, max);
    PlainNotBad(line);
    PlainClean(line, |line|);
    assert line[..|line|] == line;
    PlainParts(line, |line|, line);
    words := Parts(line, |line|);
  }

  // What the tokenizer can produce

  /** The arguments so far, each followed by a space it read. */
  predicate Bounded(s: Scan, max: nat) {
    && |s.args| <= max && |s.tmp| < TMP_SIZE && '\0' !in s.tmp
    && NoNul(s.args) && forall k :: 0 <= k < |s.args| ==> |s.args[k]| + 1 < TMP_SIZE
  }

  lemma {:induction false} OutputBounds(s: Scan, data: string, max: nat)
    requires Bounded(s, max) && '\0' !in data
    ensures var o := ScanFrom(s, data, max);
      o.Args? ==> 1 <= |o.list| <= max && FitBuffer(o.list) && NoNul(o.list)
    decreases |data|
  {
    if data != [] {
      var r := Feed(s, data[0], max);
      if r.Go? {
        OutputBounds(r.s, data[1..], max);
      }
    }
  }

  lemma {:induction false} CStringClean(s: seq<char>)
    ensures '\0' !in CString(s)
  {
    if s != [] && s[0] != '\0' {
      CStringClean(s[1..]);
    }
  }

  lemma {:induction false} EscapeClean(arg: string)
    requires '\0' !in arg
    ensures '\0' !in Escape(arg)
  {
    if arg != [] {
      EscapeClean(arg[1..]);
    }
  }

  lemma {:induction false} JoinClean(list: seq<string>)
    requires NoNul(list)
    ensures '\0' !in Join(list)
    decreases |list|
  {
    if list != [] {
      EscapeClean(list[0]);
      if |list| > 1 {
        assert forall k :: 0 <= k < |list[1..]| ==> list[1..][k] == list[k + 1];
        JoinClean(list[1..]);
      }
    }
  }

  /**
   Quoting a list, sending it zero-terminated and tokenizing gives the list back
   exactly when it has one to `max` arguments, none too long and none with a NUL.
   */
  lemma RoundTripIff(list: seq<string>, max: nat)
    ensures Tokenize(CString(Join(list) + ['\0']), max) == Args(list)
       <==> 1 <= |list| <= max && FitBuffer(list) && NoNul(list)
  {
    var sent := Join(list) + ['\0'];
    CStringClean(sent);
    OutputBounds(Scan([], [], false, false), CString(sent), max);
    if 1 <= |list| <= max && FitBuffer(list) && NoNul(list) {
      JoinClean(list);
      CStringIs(sent, |Join(list)|);
      assert sent[..|Join(list)|] == Join(list);
      ScanJoin([], list, max);
      assert [] + list == list;
    }
  }
}
