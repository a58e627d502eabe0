/**
 * The command-line editor of the boot prompt (edit_cmdline in
 * core/elflink/cli.c): a line held in a fixed buffer of MAX_CMDLINE_LEN
 * characters, NUL-terminated, with a length and a cursor, edited key by
 * key, plus the buffer of typed characters (temp_cmdline) and the position
 * in the command history.
 *
 * The byte-level effect of each key is the pure function Step on an
 * EdState; the LineEditor class keeps the state in two arrays and is
 * proved against Step, and the lemmas relate Step to the text-level
 * edit Edit that a user sees.  The screen output, the timeout of the key
 * reader and the function-key callback are left out; keys arrive as a
 * sequence.  MAX_CMDLINE_LEN and my_isspace are defined in headers that
 * are not part of this model; the values used are Syslinux's (256, and
 * every character up to the space counts as white space).
 */
module CliEdit {
  import opened Wrappers

  const MAX_CMDLINE_LEN: nat := 256
  const NUL: char := '\0'

  /** my_isspace: control characters and the space. */
  predicate IsSpace(c: char)
  {
    c <= ' '
  }

  /** The keys edit_cmdline tells apart (several key codes share an
      action: Ctrl-J is Enter, Ctrl-C is Escape, Del is Backspace, Ctrl-D
      is Delete, Ctrl-B/Ctrl-F are Left/Right, Ctrl-A/Ctrl-E are
      Home/End).  Typed carries any other key code. */
  datatype Key =
    | Typed(code: int)
    | Enter | Escape
    | Backspace | Delete
    | KillLine      // Ctrl-U
    | KillWord      // Ctrl-W
    | KillToEnd     // Ctrl-K
    | Left | Right | Home | End
    | Up | Down
    | Redraw        // Ctrl-L
    | FunctionKey(n: nat)

  /** The editor's state: the cmdline and temp_cmdline buffers, len,
      cursor, and the history position (|history| stands for the list
      head). */
  datatype EdState = EdState(cmdline: seq<char>, temp: seq<char>, len: nat, cursor: nat, pos: nat)

  /** History entries fit the buffer and hold no NUL. */
  predicate HistoryOk(history: seq<string>)
  {
    forall i :: 0 <= i < |history| ==> |history[i]| < MAX_CMDLINE_LEN && NUL !in history[i]
  }

  /** The editor invariant: both buffers have their fixed size, the line
      is NUL-terminated at len with no NUL before, and 0 <= cursor <= len. */
  predicate Wf(s: EdState, history: seq<string>)
  {
    |s.cmdline| == MAX_CMDLINE_LEN && |s.temp| == MAX_CMDLINE_LEN &&
    s.cursor <= s.len < MAX_CMDLINE_LEN && s.cmdline[s.len] == NUL && NUL !in s.cmdline[..s.len] &&
    s.pos <= |history|
  }

  /** The line as a C string. */
  function Text(s: EdState): string
    requires s.len <= |s.cmdline|
  {
    s.cmdline[..s.len]
  }

  // ------------------------------------------------------------------
  // Buffer operations of the C library
  // ------------------------------------------------------------------

  /** memmove(a + dst, a + src, n). */
  function Memmove(a: seq<char>, dst: nat, src: nat, n: nat): (r: seq<char>)
    requires src + n <= |a| && dst + n <= |a|
    ensures |r| == |a|
  {
    a[..dst] + a[src..src + n] + a[dst + n..]
  }

  /** memmove writes the n source characters at dst and nothing else. */
  lemma MemmoveAt(a: seq<char>, dst: nat, src: nat, n: nat)
    requires src + n <= |a| && dst + n <= |a|
    ensures forall i :: dst <= i < dst + n ==> Memmove(a, dst, src, n)[i] == a[src + (i - dst)]
    ensures forall i :: 0 <= i < |a| && !(dst <= i < dst + n) ==> Memmove(a, dst, src, n)[i] == a[i]
  {
  }

  /** strcpy(a, s) for a string that fits. */
  function CopyString(a: seq<char>, s: string): (r: seq<char>)
    requires |s| < |a|
    ensures |r| == |a|
  {
    s + [NUL] + a[|s| + 1..]
  }

  /** strlen: the index of the first NUL. */
  function CLen(a: seq<char>): (n: nat)
    requires NUL in a
    ensures n < |a| && a[n] == NUL && NUL !in a[..n]
    decreases |a|
  {
    if a[0] == NUL then 0
    else
      var n := 1 + CLen(a[1..]);
      assert a[..n] == [a[0]] + a[1..][..n - 1];
      n
  }

  /** The C string at the start of `a`. */
  function CString(a: seq<char>): (s: string)
    requires NUL in a
    ensures NUL !in s && |s| < |a|
  {
    a[..CLen(a)]
  }

  /** The string in temp_cmdline, read no further than the buffer's last
      byte, which counts as its terminator. */
  function TempString(temp: seq<char>): (s: string)
    requires |temp| == MAX_CMDLINE_LEN
    ensures NUL !in s && |s| < MAX_CMDLINE_LEN
  {
    CString(temp[..MAX_CMDLINE_LEN - 1] + [NUL])
  }

  // ------------------------------------------------------------------
  // edit_cmdline, one key at a time
  // ------------------------------------------------------------------

  /** The input truncated to MAX_CMDLINE_LEN - 1 characters. */
  function Truncated(input: string): (t: string)
    ensures |t| < MAX_CMDLINE_LEN
  {
    if |input| < MAX_CMDLINE_LEN then input else input[..MAX_CMDLINE_LEN - 1]
  }

  /** The state on entry: strncpy of the input, a terminator in the last
      byte, len = cursor = strlen, an empty temp_cmdline and the history
      position at the list head. */
  function Start(input: string, history: seq<string>): EdState
    requires NUL !in input
  {
    var t := Truncated(input);
    EdState(t + seq(MAX_CMDLINE_LEN - |t|, _ => NUL), seq(MAX_CMDLINE_LEN, _ => NUL), |t|, |t|, |history|)
  }

  /** Steps back from `c` over characters that are white space (`space`)
      or over characters that are not. */
  function SkipBack(a: seq<char>, c: nat, space: bool): (r: nat)
    requires c <= |a|
    ensures r <= c
    decreases c
  {
    if c > 0 && IsSpace(a[c - 1]) == space then SkipBack(a, c - 1, space) else c
  }

  /** SkipBack stops at the start of the run of characters of the given
      kind that ends at c. */
  lemma {:induction false} SkipBackRun(a: seq<char>, c: nat, space: bool)
    requires c <= |a|
    ensures var r := SkipBack(a, c, space);
      (forall i :: r <= i < c ==> IsSpace(a[i]) == space) && (r == 0 || IsSpace(a[r - 1]) != space)
    decreases c
  {
    if c > 0 && IsSpace(a[c - 1]) == space {
      SkipBackRun(a, c - 1, space);
    }
  }

  /** Where Ctrl-W moves the cursor: back over spaces, then over a word. */
  function WordStart(a: seq<char>, c: nat): nat
    requires c <= |a|
  {
    SkipBack(a, SkipBack(a, c, true), false)
  }

  /** A printable key inserted at the cursor; temp_cmdline receives the
      same insertion. */
  function Insert(s: EdState, ch: char): EdState
    requires |s.cmdline| == MAX_CMDLINE_LEN && |s.temp| == MAX_CMDLINE_LEN
    requires s.cursor <= s.len < MAX_CMDLINE_LEN - 1
  {
    if s.cursor == s.len then
      s.(cmdline := s.cmdline[s.len := ch][s.len + 1 := NUL],
         temp := s.temp[s.len := ch][s.len + 1 := NUL],
         len := s.len + 1, cursor := s.cursor + 1)
    else
      s.(cmdline := Memmove(s.cmdline, s.cursor + 1, s.cursor, s.len - s.cursor + 1)[s.cursor := ch],
         temp := Memmove(s.temp, s.cursor + 1, s.cursor, s.len - s.cursor + 1)[s.cursor := ch],
         len := s.len + 1, cursor := s.cursor + 1)
  }

  /** The history position after Up (to the list's next entry) or Down
      (to the previous one) on the circular list of n entries whose head
      is position n. */
  function NextPos(pos: nat, n: nat, up: bool): nat
  {
    if up then (if pos == n then 0 else pos + 1)
    else if pos == 0 then n else pos - 1
  }

  /** Up or Down onto position `p`: the line becomes the history entry, or
      the typed characters at the list head. */
  function Recall(s: EdState, p: nat, history: seq<string>): EdState
    requires |s.cmdline| == MAX_CMDLINE_LEN && |s.temp| == MAX_CMDLINE_LEN
    requires HistoryOk(history) && p <= |history|
  {
    var src := if p == |history| then TempString(s.temp) else history[p];
    s.(cmdline := CopyString(s.cmdline, src), len := |src|, cursor := |src|, pos := p)
  }

  /** Backspace: the rest of the line and its terminator move left by one. */
  function BackspaceStep(s: EdState): EdState
    requires |s.cmdline| == MAX_CMDLINE_LEN && s.cursor <= s.len < MAX_CMDLINE_LEN
  {
    if s.cursor > 0 then
      s.(cmdline := Memmove(s.cmdline, s.cursor - 1, s.cursor, s.len - s.cursor + 1),
         len := s.len - 1, cursor := s.cursor - 1)
    else s
  }

  /** Delete (Ctrl-D): the characters after the cursor move left by one. */
  function DeleteStep(s: EdState): EdState
    requires |s.cmdline| == MAX_CMDLINE_LEN && s.cursor <= s.len < MAX_CMDLINE_LEN
  {
    if s.cursor < s.len then
      s.(cmdline := Memmove(s.cmdline, s.cursor, s.cursor + 1, s.len - s.cursor), len := s.len - 1)
    else s
  }

  /** Ctrl-W: from the cursor, back over white space and then over a
      word; the rest of the line and its terminator move to that point. */
  function KillWordStep(s: EdState): EdState
    requires |s.cmdline| == MAX_CMDLINE_LEN && s.cursor <= s.len < MAX_CMDLINE_LEN
  {
    if s.cursor > 0 then
      var c := WordStart(s.cmdline, s.cursor);
      s.(cmdline := Memmove(s.cmdline, c, s.cursor, s.len - s.cursor + 1),
         len := s.len - (s.cursor - c), cursor := c)
    else s
  }

  /** One editing key (Enter and Escape end the edit and change nothing). */
  function Step(s: EdState, k: Key, history: seq<string>): EdState
    requires Wf(s, history) && HistoryOk(history)
  {
    match k
    case Backspace => BackspaceStep(s)
    case Delete => DeleteStep(s)
    case KillLine => if s.len > 0 then s.(cmdline := s.cmdline[0 := NUL], len := 0, cursor := 0) else s
    case KillWord => KillWordStep(s)
    case Left => if s.cursor > 0 then s.(cursor := s.cursor - 1) else s
    case Right => if s.cursor < s.len then s.(cursor := s.cursor + 1) else s
    case KillToEnd => if s.cursor < s.len then s.(cmdline := s.cmdline[s.cursor := NUL], len := s.cursor) else s
    case Home => s.(cursor := 0)
    case End => s.(cursor := s.len)
    case Up => if |history| > 0 then Recall(s, NextPos(s.pos, |history|, true), history) else s
    case Down => if |history| > 0 then Recall(s, NextPos(s.pos, |history|, false), history) else s
    case Typed(code) =>
      if 32 <= code <= 255 && s.len < MAX_CMDLINE_LEN - 1 then Insert(s, code as char) else s
    case _ => s
  }

  /** How edit_cmdline ends: Enter returns the line, Escape returns NULL;
      Waiting means the keys ran out first. */
  datatype Outcome = Accepted(line: string) | Cancelled | Waiting

  /** The keys `keys` fed to the editor in state `s`. */
  function RunKeys(s: EdState, keys: seq<Key>, history: seq<string>): Outcome
    requires Wf(s, history) && HistoryOk(history)
    decreases |keys|
  {
    if keys == [] then Waiting
    else if keys[0] == Enter then Accepted(Text(s))
    else if keys[0] == Escape then Cancelled
    else
      StepWf(s, keys[0], history);
      RunKeys(Step(s, keys[0], history), keys[1..], history)
  }

  // ------------------------------------------------------------------
  // What a user sees: edits of the text and the cursor
  // ------------------------------------------------------------------

  /** The line as text and cursor. */
  datatype Line = Line(text: string, cursor: nat)

  function LineOf(s: EdState): Line
    requires s.len <= |s.cmdline|
  {
    Line(Text(s), s.cursor)
  }

  /** The text-level meaning of the editing keys, independent of the
      buffer. */
  function Edit(l: Line, k: Key): Line
    requires l.cursor <= |l.text|
  {
    var t, c := l.text, l.cursor;
    match k
    case Backspace => if c > 0 then Line(t[..c - 1] + t[c..], c - 1) else l
    case Delete => if c < |t| then Line(t[..c] + t[c + 1..], c) else l
    case KillLine => Line([], 0)
    case KillWord =>
      var w := WordStart(t, c);
      Line(t[..w] + t[c..], w)
    case KillToEnd => Line(t[..c], c)
    case Left => if c > 0 then Line(t, c - 1) else l
    case Right => if c < |t| then Line(t, c + 1) else l
    case Home => Line(t, 0)
    case End => Line(t, |t|)
    case Typed(code) =>
      if 32 <= code <= 255 && |t| < MAX_CMDLINE_LEN - 1 then Line(t[..c] + [code as char] + t[c..], c + 1) else l
    case _ => l
  }

  /** The keys that edit the line in place (not the history keys). */
  predicate LineKey(k: Key)
  {
    !k.Up? && !k.Down?
  }

  /** SkipBack only looks at the characters before `c`. */
  lemma {:induction false} SkipBackPrefix(a: seq<char>, n: nat, c: nat, space: bool)
    requires c <= n <= |a|
    ensures SkipBack(a, c, space) == SkipBack(a[..n], c, space)
    decreases c
  {
    if c > 0 && IsSpace(a[c - 1]) == space {
      SkipBackPrefix(a, n, c - 1, space);
    }
  }

  lemma WordStartPrefix(a: seq<char>, n: nat, c: nat)
    requires c <= n <= |a|
    ensures WordStart(a, c) == WordStart(a[..n], c)
  {
    SkipBackPrefix(a, n, c, true);
    var m := SkipBack(a, c, true);
    SkipBackPrefix(a, n, m, false);
  }

  /** A sequence that agrees with memmove's result at every index is it. */
  lemma MemmoveOf(a: seq<char>, r: seq<char>, dst: nat, src: nat, n: nat)
    requires src + n <= |a| && dst + n <= |a| && |r| == |a|
    requires forall j :: 0 <= j < dst ==> r[j] == a[j]
    requires forall j :: dst + n <= j < |r| ==> r[j] == a[j]
    requires forall j :: dst <= j < dst + n ==> r[j] == a[src + (j - dst)]
    ensures r == Memmove(a, dst, src, n)
  {
    MemmoveAt(a, dst, src, n);
  }

  /** The first k characters after a memmove that ends at or past k. */
  lemma MemmoveTake(a: seq<char>, dst: nat, src: nat, n: nat, k: nat)
    requires src + n <= |a| && dst + n <= |a| && dst <= k <= dst + n
    ensures Memmove(a, dst, src, n)[..k] == a[..dst] + a[src..src + (k - dst)]
  {
    var b := a[src..src + n];
    assert Memmove(a, dst, src, n)[..k] == (a[..dst] + b + a[dst + n..])[..k];
    assert (a[..dst] + b + a[dst + n..])[..k] == a[..dst] + b[..k - dst];
  }

  /** Moving the tail of a terminated line, from src through the
      terminator, left to dst removes the characters dst..src-1 and keeps
      the line terminated. */
  lemma TailMove(a: seq<char>, len: nat, dst: nat, src: nat)
    requires len < |a| && a[len] == NUL && NUL !in a[..len] && dst <= src <= len
    ensures var r := Memmove(a, dst, src, len - src + 1);
      var nl := len - (src - dst);
      r[..nl] == a[..len][..dst] + a[..len][src..] && r[nl] == NUL && NUL !in r[..nl]
  {
    var r := Memmove(a, dst, src, len - src + 1);
    var nl := len - (src - dst);
    MemmoveTake(a, dst, src, len - src + 1, nl);
    MemmoveAt(a, dst, src, len - src + 1);
    assert a[..len][..dst] == a[..dst] && a[..len][src..] == a[src..len];
    assert r[nl] == a[len];
  }

  lemma BackspaceEdits(s: EdState, history: seq<string>)
    requires Wf(s, history)
    ensures Wf(BackspaceStep(s), history)
    ensures LineOf(BackspaceStep(s)) == Edit(LineOf(s), Backspace)
  {
    if s.cursor > 0 {
      TailMove(s.cmdline, s.len, s.cursor - 1, s.cursor);
    }
  }

  lemma DeleteEdits(s: EdState, history: seq<string>)
    requires Wf(s, history)
    ensures Wf(DeleteStep(s), history)
    ensures LineOf(DeleteStep(s)) == Edit(LineOf(s), Delete)
  {
    if s.cursor < s.len {
      TailMove(s.cmdline, s.len, s.cursor, s.cursor + 1);
    }
  }

  lemma KillWordEdits(s: EdState, history: seq<string>)
    requires Wf(s, history)
    ensures Wf(KillWordStep(s), history)
    ensures LineOf(KillWordStep(s)) == Edit(LineOf(s), KillWord)
  {
    WordStartPrefix(s.cmdline, s.len, s.cursor);
    if s.cursor > 0 {
      TailMove(s.cmdline, s.len, WordStart(s.cmdline, s.cursor), s.cursor);
    } else {
      assert Text(s)[..0] + Text(s)[0..] == Text(s);
    }
  }

  lemma KillLineEdits(s: EdState, history: seq<string>)
    requires Wf(s, history) && HistoryOk(history)
    ensures Wf(Step(s, KillLine, history), history)
    ensures LineOf(Step(s, KillLine, history)) == Edit(LineOf(s), KillLine)
  {
  }

  lemma KillToEndEdits(s: EdState, history: seq<string>)
    requires Wf(s, history) && HistoryOk(history)
    ensures Wf(Step(s, KillToEnd, history), history)
    ensures LineOf(Step(s, KillToEnd, history)) == Edit(LineOf(s), KillToEnd)
  {
    var r := Step(s, KillToEnd, history);
    if s.cursor < s.len {
      assert Text(r) == Text(s)[..s.cursor];
    } else {
      assert Text(s)[..s.cursor] == Text(s);
    }
  }

  /** Every key keeps the editor invariant. */
  lemma StepWf(s: EdState, k: Key, history: seq<string>)
    requires Wf(s, history) && HistoryOk(history)
    ensures Wf(Step(s, k, history), history)
  {
    match k
    case Up =>
      if |history| > 0 {
        RecallWf(s, NextPos(s.pos, |history|, true), history);
      }
    case Down =>
      if |history| > 0 {
        RecallWf(s, NextPos(s.pos, |history|, false), history);
      }
    case _ => StepEdits(s, k, history);
  }
  lemma RecallWf(s: EdState, p: nat, history: seq<string>)
    requires Wf(s, history) && HistoryOk(history) && p <= |history|
    ensures Wf(Recall(s, p, history), history)
    ensures Text(Recall(s, p, history)) == if p == |history| then TempString(s.temp) else history[p]
  {
    var src := if p == |history| then TempString(s.temp) else history[p];
    var r := Recall(s, p, history);
    assert r.cmdline[..r.len] == src;
  }

  /** Inserting a printable character at the cursor inserts it into the
      text and moves past it. */
  lemma InsertLineMid(s: EdState, ch: char, history: seq<string>)
    requires Wf(s, history) && s.cursor < s.len < MAX_CMDLINE_LEN - 1 && ch != NUL
    ensures Wf(Insert(s, ch), history)
    ensures Text(Insert(s, ch)) == Text(s)[..s.cursor] + [ch] + Text(s)[s.cursor..]
  {
    var r := Insert(s, ch);
    var t := Text(s);
    var c := s.cursor;
    var m := Memmove(s.cmdline, c + 1, c, s.len - c + 1);
    MemmoveTake(s.cmdline, c + 1, c, s.len - c + 1, s.len + 1);
    MemmoveAt(s.cmdline, c + 1, c, s.len - c + 1);
    assert r.cmdline[..r.len] == m[..s.len + 1][c := ch];
    assert m[..s.len + 1][c := ch] == t[..c] + [ch] + t[c..];
    assert r.cmdline[r.len] == s.cmdline[s.len];
  }

  lemma InsertLine(s: EdState, ch: char, history: seq<string>)
    requires Wf(s, history) && s.len < MAX_CMDLINE_LEN - 1 && ch != NUL
    ensures Wf(Insert(s, ch), history)
    ensures Text(Insert(s, ch)) == Text(s)[..s.cursor] + [ch] + Text(s)[s.cursor..]
    ensures Insert(s, ch).cursor == s.cursor + 1
  {
    var r := Insert(s, ch);
    var t := Text(s);
    if s.cursor == s.len {
      assert r.cmdline[..r.len] == t + [ch];
    } else {
      InsertLineMid(s, ch, history);
    }
  }

  /** The buffer-level step of every line key is its text-level edit,
      and keeps the editor invariant. */
  lemma StepEdits(s: EdState, k: Key, history: seq<string>)
    requires Wf(s, history) && HistoryOk(history) && LineKey(k)
    ensures Wf(Step(s, k, history), history)
    ensures LineOf(Step(s, k, history)) == Edit(LineOf(s), k)
  {
    match k
    case Backspace => BackspaceEdits(s, history);
    case Delete => DeleteEdits(s, history);
    case KillWord => KillWordEdits(s, history);
    case KillLine => KillLineEdits(s, history);
    case KillToEnd => KillToEndEdits(s, history);
    case Typed(code) =>
      if 32 <= code <= 255 && s.len < MAX_CMDLINE_LEN - 1 {
        InsertLine(s, code as char, history);
      }
    case _ =>
  }
  /** Up and Down load the history entry they land on, or the typed
      characters at the list head, with the cursor at the end. */
  lemma HistoryRecall(s: EdState, up: bool, history: seq<string>)
    requires Wf(s, history) && HistoryOk(history) && |history| > 0
    ensures var p := NextPos(s.pos, |history|, up);
      var r := Step(s, if up then Up else Down, history);
      r.pos == p && r.cursor == r.len &&
      Text(r) == if p == |history| then TempString(s.temp) else history[p]
  {
    RecallWf(s, NextPos(s.pos, |history|, up), history);
  }

  /** Up then Down comes back to the same history position. */
  lemma UpDownInverse(pos: nat, n: nat)
    requires pos <= n
    ensures NextPos(NextPos(pos, n, true), n, false) == pos
    ensures NextPos(NextPos(pos, n, false), n, true) == pos
  {
  }

  /** A typed character removed by Backspace leaves the line as it was. */
  lemma TypeThenBackspace(l: Line, code: int)
    requires l.cursor <= |l.text| < MAX_CMDLINE_LEN - 1 && 32 <= code <= 255
    ensures Edit(Edit(l, Typed(code)), Backspace) == l
  {
    var t, c := l.text, l.cursor;
    var t1 := t[..c] + [code as char] + t[c..];
    assert t1[..c] + t1[c + 1..] == t;
  }

  /** Ctrl-W removes the spaces before the cursor and the word before
      them, and nothing else. */
  lemma KillWordRemoves(l: Line)
    requires l.cursor <= |l.text|
    ensures var w := WordStart(l.text, l.cursor);
      var m := SkipBack(l.text, l.cursor, true);
      w <= m <= l.cursor &&
      (forall i :: m <= i < l.cursor ==> IsSpace(l.text[i])) &&
      (forall i :: w <= i < m ==> !IsSpace(l.text[i])) &&
      (w == 0 || IsSpace(l.text[w - 1])) &&
      Edit(l, KillWord) == Line(l.text[..w] + l.text[l.cursor..], w)
  {
    SkipBackRun(l.text, l.cursor, true);
    SkipBackRun(l.text, SkipBack(l.text, l.cursor, true), false);
  }

  /** Every line edit keeps 0 <= cursor <= len < MAX_CMDLINE_LEN. */
  lemma EditBounds(l: Line, k: Key)
    requires l.cursor <= |l.text| < MAX_CMDLINE_LEN
    ensures Edit(l, k).cursor <= |Edit(l, k).text| < MAX_CMDLINE_LEN
  {
    if k.KillWord? {
      var w := WordStart(l.text, l.cursor);
      assert |l.text[..w] + l.text[l.cursor..]| == |l.text| - (l.cursor - w);
    }
  }

  /** A line Enter returns is a C string that fits the buffer. */
  lemma {:induction false} AcceptedFits(s: EdState, keys: seq<Key>, history: seq<string>)
    requires Wf(s, history) && HistoryOk(history)
    ensures RunKeys(s, keys, history).Accepted? ==>
      |RunKeys(s, keys, history).line| < MAX_CMDLINE_LEN && NUL !in RunKeys(s, keys, history).line
    decreases |keys|
  {
    if keys != [] && keys[0] != Enter && keys[0] != Escape {
      StepWf(s, keys[0], history);
      AcceptedFits(Step(s, keys[0], history), keys[1..], history);
    }
  }

  lemma StartWf(input: string, history: seq<string>)
    requires NUL !in input
    ensures Wf(Start(input, history), history)
    ensures LineOf(Start(input, history)) == Line(Truncated(input), |Truncated(input)|)
  {
    var s := Start(input, history);
    var t := Truncated(input);
    assert s.cmdline[..s.len] == t;
  }

  // ------------------------------------------------------------------
  // temp_cmdline as written loses its terminator
  // ------------------------------------------------------------------

  /** Up or Down at the list head as written: strcpy from temp_cmdline,
      which runs past the buffer (None) when temp_cmdline holds no NUL. */
  function RecallAsWritten(s: EdState, p: nat, history: seq<string>): Option<EdState>
    requires |s.cmdline| == MAX_CMDLINE_LEN && |s.temp| == MAX_CMDLINE_LEN
    requires HistoryOk(history) && p <= |history|
  {
    if p == |history| && NUL !in s.temp then None
    else
      var src := if p == |history| then CString(s.temp) else history[p];
      Some(s.(cmdline := CopyString(s.cmdline, src), len := |src|, cursor := |src|, pos := p))
  }

  /** One key as written: only the history keys differ from Step. */
  function StepAsWritten(s: EdState, k: Key, history: seq<string>): Option<EdState>
    requires Wf(s, history) && HistoryOk(history)
  {
    match k
    case Up => if |history| > 0 then RecallAsWritten(s, NextPos(s.pos, |history|, true), history) else Some(s)
    case Down => if |history| > 0 then RecallAsWritten(s, NextPos(s.pos, |history|, false), history) else Some(s)
    case _ => Some(Step(s, k, history))
  }

  /** Keys fed to the editor as written; None once a strcpy overruns. */
  function RunAsWritten(s: EdState, keys: seq<Key>, history: seq<string>): Option<EdState>
    requires Wf(s, history) && HistoryOk(history)
    decreases |keys|
  {
    if keys == [] then Some(s)
    else
      match StepAsWritten(s, keys[0], history)
      case None => None
      case Some(s1) =>
        if Wf(s1, history) then RunAsWritten(s1, keys[1..], history) else None
  }

  /** When temp_cmdline holds a NUL, strcpy from it reads the string the
      corrected reading of the buffer gives. */
  lemma TempStringAgrees(temp: seq<char>)
    requires |temp| == MAX_CMDLINE_LEN && NUL in temp
    ensures CString(temp) == TempString(temp)
  {
    var b := temp[..MAX_CMDLINE_LEN - 1] + [NUL];
    var n, m := CLen(temp), CLen(b);
    assert forall i :: 0 <= i < MAX_CMDLINE_LEN - 1 ==> b[i] == temp[i];
    assert forall i :: 0 <= i < n ==> temp[..n][i] == temp[i] != NUL;
    assert forall i :: 0 <= i < m ==> b[..m][i] == b[i] != NUL;
    assert n == m;
    assert temp[..n] == b[..m];
  }

  /** A key either overruns as written or does what Step does. */
  lemma StepAsWrittenAgrees(s: EdState, k: Key, history: seq<string>)
    requires Wf(s, history) && HistoryOk(history)
    ensures StepAsWritten(s, k, history).Some? ==> StepAsWritten(s, k, history).value == Step(s, k, history)
  {
    if (k == Up || k == Down) && NUL in s.temp {
      TempStringAgrees(s.temp);
    }
  }

  /** Editing keys that never overrun as written leave the line the
      corrected editor returns on Enter. */
  lemma {:induction false} RunAsWrittenAgrees(s: EdState, keys: seq<Key>, history: seq<string>)
    requires Wf(s, history) && HistoryOk(history)
    requires forall i :: 0 <= i < |keys| ==> keys[i] != Enter && keys[i] != Escape
    ensures RunAsWritten(s, keys, history).Some? ==>
      Wf(RunAsWritten(s, keys, history).value, history) &&
      RunKeys(s, keys + [Enter], history) == Accepted(Text(RunAsWritten(s, keys, history).value))
    decreases |keys|
  {
    if keys == [] {
      assert [] + [Enter] == [Enter];
    } else if RunAsWritten(s, keys, history).Some? {
      StepAsWrittenAgrees(s, keys[0], history);
      StepWf(s, keys[0], history);
      var s1 := Step(s, keys[0], history);
      assert (keys + [Enter])[0] == keys[0];
      assert (keys + [Enter])[1..] == keys[1..] + [Enter];
      RunAsWrittenAgrees(s1, keys[1..], history);
    }
  }

  /** The temp buffer after n keys typed at the end of an empty line. */
  lemma {:induction false} TypedAtEnd(s: EdState, ch: char, n: nat, history: seq<string>)
    requires Wf(s, history) && HistoryOk(history) && s.cursor == s.len == 0
    requires s.temp == seq(MAX_CMDLINE_LEN, _ => NUL)
    requires n < MAX_CMDLINE_LEN && 32 <= ch as int <= 255
    ensures RunAsWritten(s, seq(n, _ => Typed(ch as int)), history).Some?
    ensures var r := RunAsWritten(s, seq(n, _ => Typed(ch as int)), history).value;
      Wf(r, history) && r.len == r.cursor == n && r.pos == s.pos &&
      (forall i :: 0 <= i < n ==> r.temp[i] == ch)
    decreases n
  {
    if n > 0 {
      TypedAtEnd(s, ch, n - 1, history);
      var keys := seq(n, _ => Typed(ch as int));
      assert keys[..n - 1] == seq(n - 1, _ => Typed(ch as int));
      var r := RunAsWritten(s, keys[..n - 1], history).value;
      RunAsWrittenSnoc(s, keys[..n - 1], Typed(ch as int), history);
      assert keys[..n - 1] + [Typed(ch as int)] == keys;
      StepWf(r, Typed(ch as int), history);
    }
  }

  /** Running one more key after a run. */
  lemma {:induction false} RunAsWrittenSnoc(s: EdState, keys: seq<Key>, k: Key, history: seq<string>)
    requires Wf(s, history) && HistoryOk(history)
    requires RunAsWritten(s, keys, history).Some?
    ensures Wf(RunAsWritten(s, keys, history).value, history)
    ensures RunAsWritten(s, keys + [k], history) ==
      match StepAsWritten(RunAsWritten(s, keys, history).value, k, history)
      case None => None
      case Some(s1) => if Wf(s1, history) then Some(s1) else None
    decreases |keys|
  {
    if keys == [] {
      assert [k][1..] == [];
    } else {
      var s1 := StepAsWritten(s, keys[0], history).value;
      assert (keys + [k])[1..] == keys[1..] + [k];
      RunAsWrittenSnoc(s1, keys[1..], k, history);
    }
  }

  /** On an empty line with one history entry: type 255 characters at the
      end, Backspace, Home, type one more, then Up twice.  The insertion in
      the middle shifts temp_cmdline's last typed character into its final
      byte, so it holds no NUL, and the second Up (back at the list head)
      copies past the end of both buffers. */
  lemma TempOverrun(ch: char)
    requires 32 <= ch as int <= 255
    ensures var h := ["x"];
      var s := Start("", h);
      var typed := RunAsWritten(s, seq(MAX_CMDLINE_LEN - 1, _ => Typed(ch as int)), h);
      typed.Some? && Wf(typed.value, h) &&
      RunAsWritten(typed.value, [Backspace, Home, Typed(ch as int), Up, Up], h) == None
  {
    var h := ["x"];
    StartWf("", h);
    OverrunFromEmpty(Start("", h), ch, h);
  }

  /** The same keys from any empty line, at the list head, whose
      temp_cmdline is cleared. */
  lemma OverrunFromEmpty(s: EdState, ch: char, h: seq<string>)
    requires h == ["x"] && Wf(s, h) && s.cursor == s.len == 0 && s.pos == 1
    requires s.temp == seq(MAX_CMDLINE_LEN, _ => NUL)
    requires 32 <= ch as int <= 255
    ensures var typed := RunAsWritten(s, seq(MAX_CMDLINE_LEN - 1, _ => Typed(ch as int)), h);
      typed.Some? && Wf(typed.value, h) &&
      RunAsWritten(typed.value, [Backspace, Home, Typed(ch as int), Up, Up], h) == None
  {
    TypedAtEnd(s, ch, MAX_CMDLINE_LEN - 1, h);
    FullTempOverruns(RunAsWritten(s, seq(MAX_CMDLINE_LEN - 1, _ => Typed(ch as int)), h).value, ch, h);
  }

  /** A line key fed to the editor as written is its Step. */
  lemma RunLineKey(s: EdState, keys: seq<Key>, h: seq<string>)
    requires Wf(s, h) && HistoryOk(h) && keys != [] && LineKey(keys[0])
    ensures Wf(Step(s, keys[0], h), h)
    ensures RunAsWritten(s, keys, h) == RunAsWritten(Step(s, keys[0], h), keys[1..], h)
  {
    StepWf(s, keys[0], h);
  }

  /** A full line typed at the end, shortened by Backspace and then
      extended again at its start. */
  lemma FullTempOverruns(r: EdState, ch: char, h: seq<string>)
    requires h == ["x"] && Wf(r, h) && r.len == r.cursor == MAX_CMDLINE_LEN - 1 && r.pos == 1
    requires 32 <= ch as int <= 255
    requires forall i :: 0 <= i < MAX_CMDLINE_LEN - 1 ==> r.temp[i] == ch
    ensures RunAsWritten(r, [Backspace, Home, Typed(ch as int), Up, Up], h) == None
  {
    var keys := [Backspace, Home, Typed(ch as int), Up, Up];
    RunLineKey(r, keys, h);
    var r1 := Step(r, Backspace, h);
    RunLineKey(r1, keys[1..], h);
    var r2 := Step(r1, Home, h);
    assert r2.len == MAX_CMDLINE_LEN - 2 && r2.cursor == 0 && r2.temp == r.temp;
    RunLineKey(r2, keys[2..], h);
    var r3 := Step(r2, Typed(ch as int), h);
    assert r3.pos == 1;
    InsertFillsTemp(r2, ch, h);
    assert keys[2..][1..] == [Up, Up];
    HeadCopyOverruns(r3, h);
  }

  /** Inserting at the start of a line of MAX_CMDLINE_LEN - 2 characters
      shifts temp_cmdline's terminator out of its last byte. */
  lemma InsertFillsTemp(r: EdState, ch: char, h: seq<string>)
    requires HistoryOk(h) && Wf(r, h) && r.len == MAX_CMDLINE_LEN - 2 && r.cursor == 0
    requires 32 <= ch as int <= 255
    requires forall i :: 0 <= i < MAX_CMDLINE_LEN - 1 ==> r.temp[i] == ch
    ensures NUL !in Step(r, Typed(ch as int), h).temp
  {
    var t := Step(r, Typed(ch as int), h).temp;
    assert t == Memmove(r.temp, 1, 0, MAX_CMDLINE_LEN - 1)[0 := ch];
    MemmoveAt(r.temp, 1, 0, MAX_CMDLINE_LEN - 1);
    assert forall i :: 0 <= i < MAX_CMDLINE_LEN ==> t[i] == ch;
  }

  /** With one history entry, Up then Up again returns to the list head
      and copies temp_cmdline, which has no terminator. */
  lemma HeadCopyOverruns(r: EdState, h: seq<string>)
    requires h == ["x"] && Wf(r, h) && r.pos == 1 && NUL !in r.temp
    ensures RunAsWritten(r, [Up, Up], h) == None
  {
    var r1 := r.(cmdline := CopyString(r.cmdline, "x"), len := 1, cursor := 1, pos := 0);
    assert StepAsWritten(r, Up, h) == Some(r1);
    assert r1.cmdline[..1] == "x";
    assert Wf(r1, h);
    assert RunAsWritten(r, [Up, Up], h) == RunAsWritten(r1, [Up], h);
    assert StepAsWritten(r1, Up, h) == None;
  }

  // ------------------------------------------------------------------
  // The editor over its two buffers
  // ------------------------------------------------------------------

  /** edit_cmdline's buffers and variables; the methods are the key
      handlers of its switch, each proved against Step. */
  class LineEditor {
    const cmdline: array<char>
    const temp: array<char>
    const history: seq<string>
    var len: nat
    var cursor: nat
    var pos: nat

    function State(): EdState
      reads this, cmdline, temp
    {
      EdState(cmdline[..], temp[..], len, cursor, pos)
    }

    ghost predicate Valid()
      reads this, cmdline, temp
    {
      cmdline != temp && HistoryOk(history) && Wf(State(), history)
    }

    /** The entry of edit_cmdline. */
    constructor (input: string, history: seq<string>)
      requires NUL !in input && HistoryOk(history)
      ensures Valid() && State() == Start(input, history) && this.history == history
      ensures fresh(cmdline) && fresh(temp)
    {
      var t := Truncated(input);
      var line := new char[MAX_CMDLINE_LEN](i => if 0 <= i < |input| then input[i] else NUL);
      line[MAX_CMDLINE_LEN - 1] := NUL;
      cmdline := line;
      temp := new char[MAX_CMDLINE_LEN](_ => NUL);
      this.history := history;
      len, cursor, pos := |t|, |t|, |history|;
      new;
      assert cmdline[..] == t + seq(MAX_CMDLINE_LEN - |t|, _ => NUL);
      StartWf(input, history);
    }

    method Backspace()
      requires Valid()
      modifies this`len, this`cursor, cmdline
      ensures Valid() && State() == BackspaceStep(old(State()))
    {
      BackspaceEdits(State(), history);
      if cursor > 0 {
        MemmoveArray(cmdline, cursor - 1, cursor, len - cursor + 1);
        len := len - 1;
        cursor := cursor - 1;
      }
    }

    method Delete()
      requires Valid()
      modifies this`len, cmdline
      ensures Valid() && State() == DeleteStep(old(State()))
    {
      DeleteEdits(State(), history);
      if cursor < len {
        MemmoveArray(cmdline, cursor, cursor + 1, len - cursor);
        len := len - 1;
      }
    }

    method KillLine()
      requires Valid()
      modifies this`len, this`cursor, cmdline
      ensures Valid() && State() == Step(old(State()), Key.KillLine, history)
    {
      KillLineEdits(State(), history);
      if len > 0 {
        len, cursor := 0, 0;
        cmdline[len] := NUL;
      }
    }

    /** Ctrl-W: the two backward loops, then the explicit copy loop over
        the rest of the line and its terminator. */
    method KillWord()
      requires Valid()
      modifies this`len, this`cursor, cmdline
      ensures Valid() && State() == KillWordStep(old(State()))
    {
      ghost var s0 := State();
      if cursor == 0 {
        KillWordEdits(s0, history);
      } else {
        var prevcursor := cursor;
        var c := ScanWordBack(cmdline, cursor);
        ghost var want := KillWordStep(s0);
        assert want.cmdline == Memmove(s0.cmdline, c, s0.cursor, s0.len - s0.cursor + 1);
        assert want.len == s0.len - (s0.cursor - c) && want.cursor == c;
        CopyDown(cmdline, c, prevcursor, len - prevcursor + 1);
        assert cmdline[..] == want.cmdline;
        cursor := c;
        len := len - (prevcursor - c);
        assert State() == want;
        KillWordEdits(s0, history);
      }
    }

    method Left()
      requires Valid()
      modifies this`cursor
      ensures Valid() && State() == Step(old(State()), Key.Left, history)
    {
      if cursor > 0 {
        cursor := cursor - 1;
      }
    }

    method Right()
      requires Valid()
      modifies this`cursor
      ensures Valid() && State() == Step(old(State()), Key.Right, history)
    {
      if cursor < len {
        cursor := cursor + 1;
      }
    }

    method KillToEnd()
      requires Valid()
      modifies this`len, cmdline
      ensures Valid() && State() == Step(old(State()), Key.KillToEnd, history)
    {
      KillToEndEdits(State(), history);
      if cursor < len {
        len := cursor;
        cmdline[len] := NUL;
      }
    }

    method Home()
      requires Valid()
      modifies this`cursor
      ensures Valid() && State() == Step(old(State()), Key.Home, history)
    {
      if cursor > 0 {
        cursor := 0;
      }
    }

    method End()
      requires Valid()
      modifies this`cursor
      ensures Valid() && State() == Step(old(State()), Key.End, history)
    {
      if cursor != len {
        cursor := len;
      }
    }

    /** Up (`up`) or Down: move along the history list, then copy the entry,
        or temp_cmdline at the list head, into the line. */
    method HistoryMove(up: bool)
      requires Valid()
      modifies this`len, this`cursor, this`pos, cmdline
      ensures Valid()
      ensures State() == if |history| > 0 then Recall(old(State()), NextPos(old(pos), |history|, up), history) else old(State())
    {
      if |history| > 0 {
        ghost var s0 := State();
        RecallWf(s0, NextPos(pos, |history|, up), history);
        pos := NextPos(pos, |history|, up);
        var src: string;
        if pos == |history| {
          src := TempStringOf(temp);
        } else {
          src := history[pos];
        }
        StrCopy(cmdline, src);
        len, cursor := |src|, |src|;
        assert State() == Recall(s0, pos, history);
      }
    }

    /** A printable key: appended, or inserted by shifting the tail of both
        buffers right by one; other codes are ignored. */
    method InsertKey(code: int)
      requires Valid()
      modifies this`len, this`cursor, cmdline, temp
      ensures Valid() && State() == Step(old(State()), Key.Typed(code), history)
    {
      if 32 <= code <= 255 && len < MAX_CMDLINE_LEN - 1 {
        if cursor == len {
          AppendChar(code as char);
        } else {
          InsertChar(code as char);
        }
      }
    }

    /** A character typed at the end of the line. */
    method AppendChar(ch: char)
      requires Valid() && cursor == len < MAX_CMDLINE_LEN - 1 && ch != NUL
      modifies this`len, this`cursor, cmdline, temp
      ensures Valid() && State() == Insert(old(State()), ch)
    {
      ghost var s0 := State();
      ghost var want := Insert(s0, ch);
      assert want.cmdline == s0.cmdline[s0.len := ch][s0.len + 1 := NUL];
      assert want.temp == s0.temp[s0.len := ch][s0.len + 1 := NUL];
      temp[len] := ch;
      cmdline[len] := ch;
      len := len + 1;
      temp[len] := NUL;
      cmdline[len] := NUL;
      cursor := cursor + 1;
      assert cmdline[..] == want.cmdline && temp[..] == want.temp;
      InsertLine(s0, ch, history);
    }

    /** A character typed before the end of the line. */
    method InsertChar(ch: char)
      requires Valid() && cursor < len < MAX_CMDLINE_LEN - 1 && ch != NUL
      modifies this`len, this`cursor, cmdline, temp
      ensures Valid() && State() == Insert(old(State()), ch)
    {
      ghost var s0 := State();
      ghost var want := Insert(s0, ch);
      ghost var n := len - cursor + 1;
      assert want.cmdline == Memmove(s0.cmdline, s0.cursor + 1, s0.cursor, n)[s0.cursor := ch];
      assert want.temp == Memmove(s0.temp, s0.cursor + 1, s0.cursor, n)[s0.cursor := ch];
      MemmoveArray(cmdline, cursor + 1, cursor, len - cursor + 1);
      MemmoveArray(temp, cursor + 1, cursor, len - cursor + 1);
      ghost var mc, mt := cmdline[..], temp[..];
      temp[cursor] := ch;
      cmdline[cursor] := ch;
      assert cmdline[..] == mc[s0.cursor := ch] && temp[..] == mt[s0.cursor := ch];
      cursor := cursor + 1;
      len := len + 1;
      InsertLine(s0, ch, history);
    }

    /** One key of the switch; Enter and Escape are handled by the caller. */
    method HandleKey(k: Key)
      requires Valid()
      modifies this`len, this`cursor, this`pos, cmdline, temp
      ensures Valid() && State() == Step(old(State()), k, history)
    {
      match k
      case Backspace => Backspace();
      case Delete => Delete();
      case KillLine => KillLine();
      case KillWord => KillWord();
      case Left => Left();
      case Right => Right();
      case KillToEnd => KillToEnd();
      case Home => Home();
      case End => End();
      case Up => HistoryMove(true);
      case Down => HistoryMove(false);
      case Typed(code) => InsertKey(code);
      case _ =>
    }
  }

  /** memmove within one array. */
  method MemmoveArray(a: array<char>, dst: nat, src: nat, n: nat)
    requires src + n <= a.Length && dst + n <= a.Length
    modifies a
    ensures a[..] == Memmove(old(a[..]), dst, src, n)
  {
    ghost var before := a[..];
    var snap := a[src..src + n];
    forall i | dst <= i < dst + n {
      a[i] := snap[i - dst];
    }
    assert a[..] == before[..dst] + before[src..src + n] + before[dst + n..];
  }

  /** The two backward loops of Ctrl-W: over white space, then over
      characters that are not. */
  method ScanWordBack(a: array<char>, from: nat) returns (c: nat)
    requires from <= a.Length
    ensures c == WordStart(a[..], from)
  {
    c := from;
    while c > 0 && IsSpace(a[c - 1])
      invariant c <= from && SkipBack(a[..], c, true) == SkipBack(a[..], from, true)
    {
      c := c - 1;
    }
    ghost var mid := c;
    while c > 0 && !IsSpace(a[c - 1])
      invariant c <= mid && SkipBack(a[..], c, false) == SkipBack(a[..], mid, false)
    {
      c := c - 1;
    }
  }

  /** The character-by-character copy of Ctrl-W: n characters from src
      to dst, front to back, which is a memmove when dst <= src. */
  method CopyDown(a: array<char>, dst: nat, src: nat, n: nat)
    requires dst <= src && src + n <= a.Length
    modifies a
    ensures a[..] == Memmove(old(a[..]), dst, src, n)
  {
    ghost var before := a[..];
    var i := 0;
    while i < n
      invariant i <= n
      invariant forall j :: 0 <= j < dst ==> a[j] == before[j]
      invariant forall j :: dst + i <= j < a.Length ==> a[j] == before[j]
      invariant forall j :: dst <= j < dst + i ==> a[j] == before[src + (j - dst)]
    {
      a[dst + i] := a[src + i];
      i := i + 1;
    }
    MemmoveOf(before, a[..], dst, src, n);
  }

  /** strcpy into an array that holds the string and its terminator. */
  method StrCopy(a: array<char>, src: string)
    requires |src| < a.Length
    modifies a
    ensures a[..] == CopyString(old(a[..]), src)
  {
    ghost var before := a[..];
    var i := 0;
    while i < |src|
      invariant i <= |src|
      invariant forall j :: 0 <= j < i ==> a[j] == src[j]
      invariant forall j :: i <= j < a.Length ==> a[j] == before[j]
    {
      a[i] := src[i];
      i := i + 1;
    }
    a[|src|] := NUL;
    assert a[..] == src + [NUL] + before[|src| + 1..];
  }

  /** strlen on temp_cmdline, stopping at its last byte. */
  method TempStringOf(t: array<char>) returns (s: string)
    requires t.Length == MAX_CMDLINE_LEN
    ensures s == TempString(t[..])
  {
    ghost var b := t[..MAX_CMDLINE_LEN - 1] + [NUL];
    var n := 0;
    while n < MAX_CMDLINE_LEN - 1 && t[n] != NUL
      invariant n <= MAX_CMDLINE_LEN - 1 && NUL !in b[..n]
    {
      assert b[..n + 1] == b[..n] + [b[n]];
      n := n + 1;
    }
    CLenAt(b, n);
    s := t[..n];
    assert s == b[..n];
  }

  /** The first NUL is where a scan that met no NUL before stops at one. */
  lemma CLenAt(a: seq<char>, n: nat)
    requires n < |a| && a[n] == NUL && NUL !in a[..n]
    ensures CLen(a) == n
  {
  }

  /** edit_cmdline: edit `input` with the keys `keys` until Enter or
      Escape. */
  method EditCmdline(input: string, history: seq<string>, keys: seq<Key>) returns (r: Outcome)
    requires NUL !in input && HistoryOk(history)
    ensures r == RunKeys(Start(input, history), keys, history)
  {
    var ed: LineEditor := new LineEditor(input, history);
    var i := 0;
    while i < |keys| && keys[i] != Enter && keys[i] != Escape
      invariant i <= |keys| && ed.Valid() && ed.history == history
      invariant RunKeys(Start(input, history), keys, history) == RunKeys(ed.State(), keys[i..], history)
      modifies ed`len, ed`cursor, ed`pos, ed.cmdline, ed.temp
    {
      ed.HandleKey(keys[i]);
      assert keys[i..][1..] == keys[i + 1..];
      i := i + 1;
    }
    if i == |keys| {
      r := Waiting;
    } else if keys[i] == Enter {
      r := Accepted(ed.cmdline[..ed.len]);
    } else {
      r := Cancelled;
    }
  }
}
