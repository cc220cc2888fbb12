/** The console side of src/threads/init.c: `readline`, which edits a line typed at the keyboard
    into a fixed buffer, `tokenize`, which splits it into words, and the read step of the
    `interactive` loop that feeds them to `run_interactive`. Keystrokes are a sequence of
    characters in the order `input_getc` returns them; echoing to the screen is left out. */
module Console {
  /** Carriage return: ends the line. */
  const CR: char := '\r'
  /** DEL (`'\177'`): deletes the last character typed. */
  const DEL: char := 127 as char
  /** The terminator C strings end with. */
  const NUL: char := 0 as char

  /** Bytes in the on-stack buffer of `interactive`. */
  const BUF_SIZE: nat := 128
  /** Slots in the shared `argv` array: `LOADER_ARGS_LEN / 2 + 1` of `read_command_line`. */
  const ARGV_SLOTS: nat := 128 / 2 + 1

  /** What `readline` leaves behind: the edited line and how many keystrokes have been
      consumed, the one that ended the line included. */
  datatype Edited = Edited(line: seq<char>, consumed: nat)

  /** The effect of one keystroke other than a carriage return on a line with room left: DEL
      removes the last character, if any; anything else is appended. */
  function Key(line: seq<char>, ch: char): (r: seq<char>)
    ensures ch != DEL ==> r == line + [ch]
    ensures ch == DEL ==> r == if |line| > 0 then line[..|line| - 1] else line
  {
    if ch != DEL then line + [ch] else if |line| > 0 then line[..|line| - 1] else line
  }

  /** The line `readline` builds from keystroke `k` of `input` on, when `line` is already in the
      buffer: a carriage return ends it; with the buffer full, the next keystroke, whatever it
      is, ends it and is dropped; any other keystroke edits the line as `Key` says.
      `input_getc` waits for a key when there is none; here the keystrokes simply run out. */
  function Edit(input: seq<char>, k: nat, size: nat, line: seq<char>): (r: Edited)
    requires k <= |input| && |line| <= size
    ensures |r.line| <= size && r.consumed <= |input|
    ensures k < |input| ==> k < r.consumed
    decreases |input| - k
  {
    if k == |input| then Edited(line, k)
    else if input[k] == CR || |line| == size then Edited(line, k + 1)
    else Edit(input, k + 1, size, Key(line, input[k]))
  }

  /** Whether a keystroke is an ordinary character, neither a carriage return nor DEL. */
  predicate Plain(ch: char) {
    ch != CR && ch != DEL
  }

  /** Typing ordinary characters that fit appends them, and the carriage return after them ends
      the line: `readline` reads back exactly what was typed. */
  lemma {:induction false} EditPlain(input: seq<char>, k: nat, n: nat, size: nat, line: seq<char>)
    requires k + n < |input| && input[k + n] == CR
    requires forall i :: k <= i < k + n ==> Plain(input[i])
    requires |line| + n <= size
    ensures Edit(input, k, size, line) == Edited(line + input[k..k + n], k + n + 1)
    decreases n
  {
    if n == 0 {
      assert line + input[k..k] == line;
    } else {
      EditPlain(input, k + 1, n - 1, size, line + [input[k]]);
      assert line + [input[k]] + input[k + 1..k + n] == line + input[k..k + n];
    }
  }

  /** DEL on an empty line does nothing but consume the keystroke. */
  lemma DeleteOnEmpty(input: seq<char>, k: nat, size: nat)
    requires k < |input| && input[k] == DEL && size > 0
    ensures Edit(input, k, size, []) == Edit(input, k + 1, size, [])
  {
  }

  /** A character typed and then deleted leaves no trace. */
  lemma TypeThenDelete(input: seq<char>, k: nat, size: nat, line: seq<char>)
    requires k + 1 < |input| && Plain(input[k]) && input[k + 1] == DEL && |line| + 1 < size
    ensures Edit(input, k, size, line) == Edit(input, k + 2, size, line)
  {
    assert (line + [input[k]])[..|line + [input[k]]| - 1] == line;
  }

  /** One keystroke of `readline` that neither ends the line nor meets a full buffer: DEL
      clears the last character, if any, anything else is stored after the line. */
  method Keystroke(buf: array<char>, len: nat, ch: char) returns (newLen: nat)
    requires len < buf.Length
    modifies buf
    ensures newLen <= len + 1 && buf[..newLen] == Key(old(buf[..len]), ch)
  {
    newLen := len;
    if ch == DEL {
      if len > 0 {
        newLen := len - 1;
        buf[newLen] := NUL;
      }
    } else {
      buf[len] := ch;
      newLen := len + 1;
    }
  }

  /** `readline`: edits keystrokes into `buf`, at most `size` characters followed by a NUL, and
      returns the length of the line. The NUL at index `len` is inside `buf` only because the
      caller passes a `size` below the buffer's length. */
  method Readline(buf: array<char>, size: nat, input: seq<char>) returns (len: nat, consumed: nat)
    requires CR in input && size < buf.Length
    modifies buf
    ensures len <= size && Edited(buf[..len], consumed) == Edit(input, 0, size, [])
    ensures buf[len] == NUL
  {
    ghost var cr :| 0 <= cr < |input| && input[cr] == CR;
    len := 0;
    ghost var line: seq<char> := [];
    var pos: nat := 0;
    var ch := input[pos];
    pos := pos + 1;
    while ch != CR && len < size
      invariant 1 <= pos <= cr + 1 && ch == input[pos - 1]
      invariant len <= size && buf[..len] == line
      invariant Edit(input, 0, size, []) == Edit(input, pos - 1, size, line)
      decreases |input| - pos
    {
      line := Key(line, ch);
      len := Keystroke(buf, len, ch);
      ch := input[pos];
      pos := pos + 1;
    }
    buf[len] := NUL;
    consumed := pos;
  }

  /** The separators `tokenize` hands to `strtok_r`. */
  predicate Separator(c: char) {
    c == ' ' || c == '\t'
  }

  /** Whether `w` could be one word: non-empty and free of separators. */
  predicate Word(w: seq<char>) {
    |w| > 0 && forall k :: 0 <= k < |w| ==> !Separator(w[k])
  }

  /** The length of the run of non-separators at the front of `s`. */
  function WordLen(s: seq<char>): (n: nat)
    ensures n <= |s| && (n < |s| ==> Separator(s[n]))
    ensures forall k :: 0 <= k < n ==> !Separator(s[k])
  {
    if |s| == 0 || Separator(s[0]) then 0 else 1 + WordLen(s[1..])
  }

  /** The words of `s`: its maximal runs of non-separators, in order. */
  function Words(s: seq<char>): seq<seq<char>>
    decreases |s|
  {
    if |s| == 0 then []
    else if Separator(s[0]) then Words(s[1..])
    else
      var n := WordLen(s);
      [s[..n]] + Words(s[n..])
  }

  /** Words separated by single blanks. */
  function Unwords(ws: seq<seq<char>>): seq<char> {
    if |ws| == 0 then []
    else if |ws| == 1 then ws[0]
    else ws[0] + [' '] + Unwords(ws[1..])
  }

  /** Separators in front of `s` do not change its words. */
  lemma {:induction false} WordsSkipSeparators(pre: seq<char>, s: seq<char>)
    requires forall k :: 0 <= k < |pre| ==> Separator(pre[k])
    ensures Words(pre + s) == Words(s)
    decreases |pre|
  {
    if |pre| > 0 {
      assert (pre + s)[0] == pre[0];
      assert (pre + s)[1..] == pre[1..] + s;
      WordsSkipSeparators(pre[1..], s);
    } else {
      assert pre + s == s;
    }
  }

  /** A word followed by a separator or by nothing is the first word. */
  lemma {:induction false} WordFirst(w: seq<char>, s: seq<char>)
    requires Word(w) && (|s| == 0 || Separator(s[0]))
    ensures WordLen(w + s) == |w|
    ensures Words(w + s) == [w] + Words(s)
    decreases |w|
  {
    WordLenOf(w, s);
    assert (w + s)[..|w|] == w;
    assert (w + s)[|w|..] == s;
  }

  /** The run at the front of a word followed by a separator or nothing is the word. */
  lemma {:induction false} WordLenOf(w: seq<char>, s: seq<char>)
    requires forall k :: 0 <= k < |w| ==> !Separator(w[k])
    requires |s| == 0 || Separator(s[0])
    ensures WordLen(w + s) == |w|
    decreases |w|
  {
    if |w| > 0 {
      assert (w + s)[1..] == w[1..] + s;
      WordLenOf(w[1..], s);
    } else {
      assert w + s == s;
    }
  }

  /** `tokenize` gives back the words that were joined by blanks. */
  lemma {:induction false} WordsOfUnwords(ws: seq<seq<char>>)
    requires forall i :: 0 <= i < |ws| ==> Word(ws[i])
    ensures Words(Unwords(ws)) == ws
    decreases |ws|
  {
    if |ws| == 1 {
      WordFirst(ws[0], []);
      assert ws[0] + [] == ws[0];
    } else if |ws| > 1 {
      var tail := [' '] + Unwords(ws[1..]);
      assert Unwords(ws) == ws[0] + tail;
      WordFirst(ws[0], tail);
      WordsSkipSeparators([' '], Unwords(ws[1..]));
      WordsOfUnwords(ws[1..]);
    }
  }

  /** A line of `n` characters holds at most `(n + 1) / 2` words, since words need separators
      between them. */
  lemma {:induction false} WordCountBound(s: seq<char>)
    ensures |Words(s)| <= (|s| + 1) / 2
    decreases |s|
  {
    if |s| > 0 {
      if Separator(s[0]) {
        WordCountBound(s[1..]);
      } else {
        var n := WordLen(s);
        if n < |s| {
          assert s[n..] == [s[n]] + s[n + 1..];
          WordsSkipSeparators([s[n]], s[n + 1..]);
          WordCountBound(s[n + 1..]);
        }
      }
    }
  }

  /** Every word found is a word: non-empty and free of separators. */
  lemma {:induction false} WordsAreWords(s: seq<char>)
    ensures forall i :: 0 <= i < |Words(s)| ==> Word(Words(s)[i])
    decreases |s|
  {
    if |s| > 0 {
      if Separator(s[0]) {
        WordsAreWords(s[1..]);
      } else {
        var n := WordLen(s);
        WordsAreWords(s[n..]);
        assert Words(s) == [s[..n]] + Words(s[n..]);
      }
    }
  }

  /** A separator at index `i` is skipped. */
  lemma WordsAtSeparator(line: seq<char>, i: nat)
    requires i < |line| && Separator(line[i])
    ensures Words(line[i..]) == Words(line[i + 1..])
  {
    assert line[i..][1..] == line[i + 1..];
  }

  /** A maximal run of non-separators `line[i..j)` is the next word. */
  lemma WordsAtWord(line: seq<char>, i: nat, j: nat)
    requires i < j <= |line| && (j == |line| || Separator(line[j]))
    requires forall k :: i <= k < j ==> !Separator(line[k])
    ensures Words(line[i..]) == [line[i..j]] + Words(line[j..])
  {
    var rest := line[i..];
    assert rest == line[i..j] + line[j..];
    WordLenOf(line[i..j], line[j..]);
    assert rest[..j - i] == line[i..j] && rest[j - i..] == line[j..];
  }

  /** Where the word starting at index `i` ends: the next separator or the end of the line. */
  method WordEnd(line: seq<char>, i: nat) returns (j: nat)
    requires i < |line| && !Separator(line[i])
    ensures i < j <= |line| && (j == |line| || Separator(line[j]))
    ensures forall k :: i <= k < j ==> !Separator(line[k])
  {
    j := i + 1;
    while j < |line| && !Separator(line[j])
      invariant i < j <= |line|
      invariant forall k :: i <= k < j ==> !Separator(line[k])
      decreases |line| - j
    {
      j := j + 1;
    }
  }

  /** `tokenize`: the words of a line, found left to right as the successive `strtok_r` calls
      find them, and their number. */
  method Tokenize(line: seq<char>) returns (argv: seq<seq<char>>, argc: nat)
    ensures argv == Words(line) && argc == |argv|
  {
    argv := [];
    var i: nat := 0;
    assert line[0..] == line;
    while i < |line|
      invariant i <= |line| && Words(line) == argv + Words(line[i..])
      decreases |line| - i
    {
      if Separator(line[i]) {
        WordsAtSeparator(line, i);
        i := i + 1;
      } else {
        var j := WordEnd(line, i);
        WordsAtWord(line, i, j);
        assert argv + ([line[i..j]] + Words(line[j..])) == (argv + [line[i..j]]) + Words(line[j..]);
        argv := argv + [line[i..j]];
        i := j;
      }
    }
    assert Words(line[i..]) == [];
    assert argv + [] == argv;
    argc := |argv|;
  }

  /** The text before the first NUL: what `strtok_r` sees of a buffer. */
  function CString(s: seq<char>): (r: seq<char>)
    ensures NUL !in r && |r| <= |s|
    ensures |r| < |s| ==> r == s[..|r|] && s[|r|] == NUL
    ensures |r| == |s| ==> r == s
  {
    if |s| == 0 || s[0] == NUL then [] else [s[0]] + CString(s[1..])
  }

  /** The read step of `interactive` as it evidently intends it: the line is read into a fresh
      `BUF_SIZE`-byte buffer, leaving room for its NUL, and split into words in an `argv` of
      `ARGV_SLOTS` slots of its own. No words come back for an empty line (which `interactive`
      skips), and there are always fewer words than `argv` has slots, so the NULL after them
      fits. (As written, `interactive` passes the whole buffer size to `readline`, see
      InteractiveReadOverflows, and tokenizes behind the options already on the shared `argv`,
      see InteractiveArgvOverflows.) */
  method ReadCommand(input: seq<char>) returns (argv: seq<seq<char>>, consumed: nat)
    requires CR in input
    ensures var r := Edit(input, 0, BUF_SIZE - 1, []);
            consumed == r.consumed && argv == if |r.line| == 0 then [] else Words(CString(r.line))
    ensures |argv| < ARGV_SLOTS
  {
    var buf := new char[BUF_SIZE];
    var len;
    len, consumed := Readline(buf, BUF_SIZE - 1, input);
    if len == 0 {
      return [], consumed;
    }
    var argc;
    argv, argc := Tokenize(CString(buf[..len]));
    WordCountBound(CString(buf[..len]));
  }

  /** The read step as `interactive` writes it passes the whole buffer size to `readline`: a
      line of `BUF_SIZE` ordinary characters fills the buffer, so the NUL `readline` writes
      after it lands at index `BUF_SIZE`, one past the end of the buffer. */
  lemma InteractiveReadOverflows()
    ensures var input := seq(BUF_SIZE, _ => 'a') + [CR];
            |Edit(input, 0, BUF_SIZE, []).line| == BUF_SIZE
  {
    var input := seq(BUF_SIZE, _ => 'a') + [CR];
    EditPlain(input, 0, BUF_SIZE, BUF_SIZE, []);
  }

  /** `n` one-letter words joined by blanks: `2 * n - 1` characters, none of them a line-editing
      key or a NUL. */
  lemma {:induction false} UnwordsOfLetters(n: nat)
    requires n >= 1
    ensures var line := Unwords(seq(n, _ => "a"));
            |line| == 2 * n - 1 && forall i :: 0 <= i < |line| ==> line[i] == 'a' || line[i] == ' '
    decreases n
  {
    var ws := seq(n, _ => "a");
    if n > 1 {
      assert ws[1..] == seq(n - 1, _ => "a");
      UnwordsOfLetters(n - 1);
      assert Unwords(ws) == "a" + [' '] + Unwords(ws[1..]);
    }
  }

  /** `interactive` as written tokenizes into the `argv` that `parse_options` returned, which
      points past the options already at the front of the shared `ARGV_SLOTS`-slot array. After
      two options only `ARGV_SLOTS - 2` slots remain, yet a line of 64 one-letter words fits the
      127 characters `readline` accepts and yields 64 words: the last one is stored at index
      2 + 63 == ARGV_SLOTS of the array, one past its end. */
  lemma InteractiveArgvOverflows()
    ensures var ws := seq(64, _ => "a");
            var r := Edit(Unwords(ws) + [CR], 0, BUF_SIZE - 1, []);
            && |r.line| == BUF_SIZE - 1
            && Words(CString(r.line)) == ws
            && 2 + (|ws| - 1) == ARGV_SLOTS
  {
    var ws := seq(64, _ => "a");
    UnwordsOfLetters(64);
    var line := Unwords(ws);
    var input := line + [CR];
    EditPlain(input, 0, |line|, BUF_SIZE - 1, []);
    assert input[0..|line|] == line;
    assert [] + line == line;
    assert CString(line) == line;
    forall i | 0 <= i < |ws|
      ensures Word(ws[i])
    {
      assert ws[i] == "a";
    }
    WordsOfUnwords(ws);
  }
}
