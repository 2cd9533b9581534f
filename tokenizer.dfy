/**
 * The control node's command-line splitter: `buildArgv` cuts a NUL-terminated command into words
 * in place, shell-like, and then builds the vector of word start offsets.
 *
 * Words are separated by unquoted space, tab or newline. Double and single quotes are removed and
 * toggle their own mode, so white space inside them is kept and each quote character is literal
 * inside the other kind. Outside single quotes a backslash is dropped and the next character is
 * copied literally; inside single quotes, or as the last character, the backslash is kept.
 */
module Tokenizer {
  import opened CString

  /** `isws`: the separators of the command line. */
  predicate IsWs(c: char)
  {
    c == ' ' || c == '\t' || c == '\n'
  }

  /**
   * The words of the rest `s` of a command line, given the scanner state: whether a word is open
   * (`inArg`), double or single quotes are open, the part `cur` of the open word, and the words
   * `toks` already finished.
   */
  function Lex(s: string, inArg: bool, dq: bool, sq: bool, cur: string, toks: seq<string>): seq<string>
    decreases |s|
  {
    if s == [] then
      if inArg then toks + [cur] else toks
    else
      var c := s[0];
      var open := inArg || !IsWs(c);
      if IsWs(c) && !dq && !sq then
        if inArg then Lex(s[1..], false, dq, sq, [], toks + [cur]) else Lex(s[1..], false, dq, sq, cur, toks)
      else if c == '"' && !sq then
        Lex(s[1..], open, !dq, sq, cur, toks)
      else if c == '\'' && !dq then
        Lex(s[1..], open, dq, !sq, cur, toks)
      else if c == '\\' && !sq && |s| > 1 then
        Lex(s[2..], open, dq, sq, cur + [s[1]], toks)
      else
        Lex(s[1..], open, dq, sq, cur + [c], toks)
  }

  /** The words of a command line. */
  function Tokens(s: string): seq<string>
  {
    Lex(s, false, false, false, [], [])
  }

  /** Words cut from a string without NUL contain no NUL. */
  lemma {:induction false} LexNulFree(s: string, inArg: bool, dq: bool, sq: bool, cur: string, toks: seq<string>)
    requires NUL !in s && NUL !in cur && NulFree(toks)
    ensures NulFree(Lex(s, inArg, dq, sq, cur, toks))
    decreases |s|
  {
    if s != [] {
      var c := s[0];
      assert c != NUL && NUL !in s[1..];
      if |s| > 1 {
        assert s[1] != NUL && NUL !in s[2..];
      }
      var open := inArg || !IsWs(c);
      if IsWs(c) && !dq && !sq {
        if inArg {
          LexNulFree(s[1..], false, dq, sq, [], toks + [cur]);
        } else {
          LexNulFree(s[1..], false, dq, sq, cur, toks);
        }
      } else if c == '"' && !sq {
        LexNulFree(s[1..], open, !dq, sq, cur, toks);
      } else if c == '\'' && !dq {
        LexNulFree(s[1..], open, dq, !sq, cur, toks);
      } else if c == '\\' && !sq && |s| > 1 {
        LexNulFree(s[2..], open, dq, sq, cur + [s[1]], toks);
      } else {
        LexNulFree(s[1..], open, dq, sq, cur + [c], toks);
      }
    }
  }

  /** A character with no special meaning to the scanner. */
  predicate Plain(c: char)
  {
    !IsWs(c) && c != '"' && c != '\'' && c != '\\' && c != NUL
  }

  predicate PlainWord(w: string)
  {
    w != [] && forall i :: 0 <= i < |w| ==> Plain(w[i])
  }

  /** Plain characters outside quotes extend the open word. */
  lemma {:induction false} LexPlain(w: string, r: string, inArg: bool, cur: string, toks: seq<string>)
    requires forall i :: 0 <= i < |w| ==> Plain(w[i])
    ensures Lex(w + r, inArg, false, false, cur, toks) == Lex(r, inArg || w != [], false, false, cur + w, toks)
    decreases |w|
  {
    if w != [] {
      assert (w + r)[0] == w[0] && (w + r)[1..] == w[1..] + r;
      LexPlain(w[1..], r, true, cur + [w[0]], toks);
      assert cur + [w[0]] + w[1..] == cur + w;
    } else {
      assert w + r == r && cur + w == cur;
    }
  }

  /** Plain words separated by spaces are split into exactly those words. */
  lemma {:induction false} LexSpaced(ws: seq<string>, cur: string, toks: seq<string>)
    requires forall k :: 0 <= k < |ws| ==> PlainWord(ws[k])
    ensures Lex(Spaced(ws), true, false, false, cur, toks) == toks + [cur] + ws
    decreases |ws|
  {
    if ws != [] {
      var s := Spaced(ws);
      assert s[0] == ' ' && s[1..] == ws[0] + Spaced(ws[1..]);
      LexPlain(ws[0], Spaced(ws[1..]), false, [], toks + [cur]);
      assert [] + ws[0] == ws[0];
      LexSpaced(ws[1..], ws[0], toks + [cur]);
      assert toks + [cur] + [ws[0]] + ws[1..] == toks + [cur] + ws;
    } else {
      assert toks + [cur] + ws == toks + [cur];
    }
  }

  /** A plain word followed by space-separated plain words: the words themselves. */
  lemma {:induction false} WordsRoundTrip(w: string, ws: seq<string>)
    requires PlainWord(w) && forall k :: 0 <= k < |ws| ==> PlainWord(ws[k])
    ensures Tokens(w + Spaced(ws)) == [w] + ws
  {
    var r := Spaced(ws);
    LexPlain(w, r, false, [], []);
    assert [] + w == w;
    assert Tokens(w + r) == Lex(r, true, false, false, w, []);
    LexSpaced(ws, w, []);
    assert [] + [w] + ws == [w] + ws;
  }

  /** The same with a newline after the last word: it ends that word and adds none. */
  lemma {:induction false} LexSpacedLine(ws: seq<string>, cur: string, toks: seq<string>)
    requires forall k :: 0 <= k < |ws| ==> PlainWord(ws[k])
    ensures Lex(Spaced(ws) + "\n", true, false, false, cur, toks) == toks + [cur] + ws
    decreases |ws|
  {
    var s := Spaced(ws) + "\n";
    if ws != [] {
      var r := Spaced(ws[1..]) + "\n";
      assert s[0] == ' ' && s[1..] == ws[0] + r;
      LexPlain(ws[0], r, false, [], toks + [cur]);
      assert [] + ws[0] == ws[0];
      LexSpacedLine(ws[1..], ws[0], toks + [cur]);
      assert toks + [cur] + [ws[0]] + ws[1..] == toks + [cur] + ws;
    } else {
      assert s == "\n" && s[1..] == [];
      assert toks + [cur] + ws == toks + [cur];
    }
  }

  /** A plain word at the start of a line opens the first word. */
  lemma {:induction false} TokensPlainStart(w: string, r: string)
    requires PlainWord(w)
    ensures Tokens(w + r) == Lex(r, true, false, false, w, [])
  {
    LexPlain(w, r, false, [], []);
    assert [] + w == w;
  }

  /** A line of plain words separated by spaces and ended by a newline is split into those words. */
  lemma {:induction false} LineRoundTrip(w: string, ws: seq<string>)
    requires PlainWord(w) && forall k :: 0 <= k < |ws| ==> PlainWord(ws[k])
    ensures Tokens(w + (Spaced(ws) + "\n")) == [w] + ws
  {
    TokensPlainStart(w, Spaced(ws) + "\n");
    LexSpacedLine(ws, w, []);
    assert [] + [w] + ws == [w] + ws;
  }

  /** Inside single quotes every character but a single quote is literal, backslashes included. */
  lemma {:induction false} LexSingleQuoted(t: string, r: string, cur: string, toks: seq<string>)
    requires '\'' !in t
    ensures Lex(t + r, true, false, true, cur, toks) == Lex(r, true, false, true, cur + t, toks)
    decreases |t|
  {
    if t != [] {
      assert (t + r)[0] == t[0] && (t + r)[1..] == t[1..] + r;
      LexSingleQuoted(t[1..], r, cur + [t[0]], toks);
      assert cur + [t[0]] + t[1..] == cur + t;
    } else {
      assert t + r == r && cur + t == cur;
    }
  }

  /** Inside double quotes white space and single quotes are literal. */
  lemma {:induction false} LexDoubleQuoted(t: string, r: string, cur: string, toks: seq<string>)
    requires '"' !in t && '\\' !in t
    ensures Lex(t + r, true, true, false, cur, toks) == Lex(r, true, true, false, cur + t, toks)
    decreases |t|
  {
    if t != [] {
      assert (t + r)[0] == t[0] && (t + r)[1..] == t[1..] + r;
      LexDoubleQuoted(t[1..], r, cur + [t[0]], toks);
      assert cur + [t[0]] + t[1..] == cur + t;
    } else {
      assert t + r == r && cur + t == cur;
    }
  }

  /** A single-quoted string is one word, the quotes removed; '' gives an empty word. */
  lemma SingleQuotedWord(t: string)
    requires '\'' !in t
    ensures Tokens("'" + t + "'") == [t]
  {
    var s := "'" + t + "'";
    assert s[0] == '\'' && s[1..] == t + "'";
    LexSingleQuoted(t, "'", [], []);
    assert [] + t == t;
    assert "'"[1..] == [];
  }

  /** A double-quoted string without backslashes is one word, the quotes removed. */
  lemma DoubleQuotedWord(t: string)
    requires '"' !in t && '\\' !in t
    ensures Tokens("\"" + t + "\"") == [t]
  {
    var s := "\"" + t + "\"";
    assert s[0] == '"' && s[1..] == t + "\"";
    LexDoubleQuoted(t, "\"", [], []);
    assert [] + t == t;
    assert "\""[1..] == [];
  }

  /** An escaped character is copied literally, even a separator or a quote. */
  lemma EscapedWord(c: char)
    ensures Tokens(['\\', c]) == [[c]]
  {
    var s := ['\\', c];
    assert s[1] == c && s[2..] == [];
    assert [] + [s[1]] == [c];
    assert Lex(s, false, false, false, [], []) == Lex([], true, false, false, [c], []);
  }

  /** A backslash at the end of the line is kept. */
  lemma TrailingBackslash(w: string)
    requires PlainWord(w)
    ensures Tokens(w + ['\\']) == [w + ['\\']]
  {
    LexPlain(w, ['\\'], false, [], []);
    assert [] + w == w;
    assert ['\\'][1..] == [];
  }

  /** Separators alone (or nothing) give no word. */
  lemma {:induction false} BlankLine(s: string)
    requires forall i :: 0 <= i < |s| ==> IsWs(s[i])
    ensures Lex(s, false, false, false, [], []) == []
    decreases |s|
  {
    if s != [] {
      BlankLine(s[1..]);
    }
  }

  // One step of the scanner at index p of a command line, case by case.

  lemma LexAtWs(line: string, p: nat, inArg: bool, dq: bool, sq: bool, cur: string, toks: seq<string>)
    requires p < |line| && IsWs(line[p]) && !dq && !sq
    ensures Lex(line[p..], inArg, dq, sq, cur, toks)
         == if inArg then Lex(line[p + 1..], false, dq, sq, [], toks + [cur]) else Lex(line[p + 1..], false, dq, sq, cur, toks)
  {
    assert line[p..][1..] == line[p + 1..];
  }

  lemma LexAtQuote(line: string, p: nat, inArg: bool, dq: bool, sq: bool, cur: string, toks: seq<string>)
    requires p < |line| && !(IsWs(line[p]) && !dq && !sq)
    requires (line[p] == '"' && !sq) || (line[p] == '\'' && !dq)
    ensures Lex(line[p..], inArg, dq, sq, cur, toks)
         == if line[p] == '"' then Lex(line[p + 1..], true, !dq, sq, cur, toks) else Lex(line[p + 1..], true, dq, !sq, cur, toks)
  {
    assert line[p..][1..] == line[p + 1..];
  }

  lemma LexAtEscape(line: string, p: nat, inArg: bool, dq: bool, sq: bool, cur: string, toks: seq<string>)
    requires p + 1 < |line| && line[p] == '\\' && !sq
    ensures Lex(line[p..], inArg, dq, sq, cur, toks) == Lex(line[p + 2..], true, dq, sq, cur + [line[p + 1]], toks)
  {
    assert line[p..][1] == line[p + 1];
    assert line[p..][2..] == line[p + 2..];
  }

  lemma LexAtCopy(line: string, p: nat, inArg: bool, dq: bool, sq: bool, cur: string, toks: seq<string>)
    requires p < |line| && !(IsWs(line[p]) && !dq && !sq)
    requires !(line[p] == '"' && !sq) && !(line[p] == '\'' && !dq) && !(line[p] == '\\' && !sq && p + 1 < |line|)
    ensures Lex(line[p..], inArg, dq, sq, cur, toks) == Lex(line[p + 1..], inArg || !IsWs(line[p]), dq, sq, cur + [line[p]], toks)
  {
    assert line[p..][1..] == line[p + 1..];
  }

  /** The output cursor of `buildArgv`: `out` written before index q, the old contents from q on. */
  ghost predicate Compacted(buf: array<char>, s0: seq<char>, q: nat, out: seq<char>)
    reads buf
  {
    |s0| == buf.Length && q <= buf.Length && buf[..q] == out && forall i :: q <= i < buf.Length ==> buf[i] == s0[i]
  }

  /** `*q++ = d`. */
  method Put(buf: array<char>, q: nat, d: char, ghost s0: seq<char>, ghost out: seq<char>)
    requires Compacted(buf, s0, q, out) && q < buf.Length
    modifies buf
    ensures Compacted(buf, s0, q + 1, out + [d])
  {
    buf[q] := d;
    assert buf[..q + 1] == old(buf[..q]) + [d];
  }

  /** The scanner state of the first pass of `buildArgv`: read cursor p, write cursor q, flags. */
  datatype Scan = Scan(p: nat, q: nat, argc: nat, inArg: bool, dq: bool, sq: bool)

  /**
   * The first pass's loop invariant: the command `line` (terminated in `s0`, the buffer before the
   * pass) is read up to p; the finished words `toks` and the open word `cur` are written before q,
   * which never passes p; and scanning the rest from this state yields the words of the line.
   */
  ghost predicate Scanning(buf: array<char>, s0: seq<char>, line: string, st: Scan, cur: string, toks: seq<string>)
    reads buf
  {
    && HoldsAt(s0, 0, line + [NUL]) && NUL !in line
    && st.q <= st.p <= |line|
    && Compacted(buf, s0, st.q, Flatten(toks) + cur)
    && st.argc == |toks| && NUL !in cur && NulFree(toks)
    && ((st.dq || st.sq) ==> st.inArg)
    && (!st.inArg ==> cur == [])
    && Lex(line[st.p..], st.inArg, st.dq, st.sq, cur, toks) == Tokens(line)
  }

  /** The character under the read cursor is the line's. */
  lemma ScanningReads(buf: array<char>, s0: seq<char>, line: string, st: Scan, cur: string, toks: seq<string>)
    requires Scanning(buf, s0, line, st, cur, toks)
    ensures st.p < buf.Length && buf[st.p] == (line + [NUL])[st.p]
    ensures st.p + 1 < |line| ==> buf[st.p + 1] == line[st.p + 1]
  {
    assert forall i :: 0 <= i < |line| + 1 ==> s0[i] == (line + [NUL])[i];
  }

  /** An unquoted separator: ends the open word, if any. */
  method ScanSeparator(buf: array<char>, st: Scan, ghost s0: seq<char>, ghost line: string, ghost cur: string, ghost toks: seq<string>)
    returns (st': Scan, ghost cur': string, ghost toks': seq<string>)
    requires Scanning(buf, s0, line, st, cur, toks) && st.p < |line| && IsWs(line[st.p]) && !st.dq && !st.sq
    modifies buf
    ensures Scanning(buf, s0, line, st', cur', toks') && st'.p == st.p + 1
  {
    LexAtWs(line, st.p, st.inArg, st.dq, st.sq, cur, toks);
    if st.inArg {
      Put(buf, st.q, NUL, s0, Flatten(toks) + cur);
      FlattenAppend(toks, cur);
      st' := st.(p := st.p + 1, q := st.q + 1, argc := st.argc + 1, inArg := false);
      cur', toks' := [], toks + [cur];
    } else {
      st', cur', toks' := st.(p := st.p + 1), cur, toks;
    }
  }

  /** A quote that is not inside the other kind of quotes: toggles its mode and is dropped. */
  method ScanQuote(buf: array<char>, st: Scan, ghost s0: seq<char>, ghost line: string, ghost cur: string, ghost toks: seq<string>)
    returns (st': Scan, ghost cur': string, ghost toks': seq<string>)
    requires Scanning(buf, s0, line, st, cur, toks) && st.p < |line|
    requires (line[st.p] == '"' && !st.sq) || (line[st.p] == '\'' && !st.dq)
    ensures Scanning(buf, s0, line, st', cur', toks') && st'.p == st.p + 1
  {
    LexAtQuote(line, st.p, st.inArg, st.dq, st.sq, cur, toks);
    ScanningReads(buf, s0, line, st, cur, toks);
    if buf[st.p] == '"' {
      st' := st.(p := st.p + 1, inArg := true, dq := !st.dq);
    } else {
      st' := st.(p := st.p + 1, inArg := true, sq := !st.sq);
    }
    cur', toks' := cur, toks;
  }

  /** A backslash outside single quotes with a character after it: that character is copied. */
  method ScanEscape(buf: array<char>, st: Scan, ghost s0: seq<char>, ghost line: string, ghost cur: string, ghost toks: seq<string>)
    returns (st': Scan, ghost cur': string, ghost toks': seq<string>)
    requires Scanning(buf, s0, line, st, cur, toks) && st.p + 1 < |line| && line[st.p] == '\\' && !st.sq
    modifies buf
    ensures Scanning(buf, s0, line, st', cur', toks') && st'.p == st.p + 2
  {
    ScanningReads(buf, s0, line, st, cur, toks);
    LexAtEscape(line, st.p, st.inArg, st.dq, st.sq, cur, toks);
    var d := buf[st.p + 1];
    Put(buf, st.q, d, s0, Flatten(toks) + cur);
    st' := st.(p := st.p + 2, q := st.q + 1, inArg := true);
    cur', toks' := cur + [d], toks;
  }

  /** Any other character is copied to the open word. */
  method ScanCopy(buf: array<char>, st: Scan, ghost s0: seq<char>, ghost line: string, ghost cur: string, ghost toks: seq<string>)
    returns (st': Scan, ghost cur': string, ghost toks': seq<string>)
    requires Scanning(buf, s0, line, st, cur, toks) && st.p < |line| && !(IsWs(line[st.p]) && !st.dq && !st.sq)
    requires !(line[st.p] == '"' && !st.sq) && !(line[st.p] == '\'' && !st.dq)
    requires !(line[st.p] == '\\' && !st.sq && st.p + 1 < |line|)
    modifies buf
    ensures Scanning(buf, s0, line, st', cur', toks') && st'.p == st.p + 1
  {
    ScanningReads(buf, s0, line, st, cur, toks);
    LexAtCopy(line, st.p, st.inArg, st.dq, st.sq, cur, toks);
    var d := buf[st.p];
    Put(buf, st.q, d, s0, Flatten(toks) + cur);
    st' := st.(p := st.p + 1, q := st.q + 1, inArg := st.inArg || !IsWs(d));
    cur', toks' := cur + [d], toks;
  }

  /**
   * Splits the NUL-terminated command in `buf` in place and returns the word count and the vector
   * of word offsets. The words are packed from the start of the buffer, each followed by one NUL;
   * the buffer past them keeps its old contents.
   */
  method BuildArgv(buf: array<char>) returns (argc: nat, argv: array<nat>)
    requires NUL in buf[..]
    modifies buf
    ensures argc == |Tokens(StrAt(old(buf[..]), 0))| && fresh(argv)
    ensures Packed(buf[..], argv[..], Tokens(StrAt(old(buf[..]), 0)))
    ensures var f := Flatten(Tokens(StrAt(old(buf[..]), 0))); buf[|f|..] == old(buf[..])[|f|..]
  {
    ghost var s0 := buf[..];
    ghost var line := StrAt(s0, 0);
    StrAtEnds(s0, 0);
    ghost var cur: string := [];
    ghost var toks: seq<string> := [];
    var st := Scan(0, 0, 0, false, false, false);
    ScanningReads(buf, s0, line, st, cur, toks);
    while buf[st.p] != NUL
      invariant Scanning(buf, s0, line, st, cur, toks)
      decreases |line| - st.p
    {
      ScanningReads(buf, s0, line, st, cur, toks);
      var c := buf[st.p];
      if IsWs(c) && !st.dq && !st.sq {
        st, cur, toks := ScanSeparator(buf, st, s0, line, cur, toks);
      } else if (c == '"' && !st.sq) || (c == '\'' && !st.dq) {
        st, cur, toks := ScanQuote(buf, st, s0, line, cur, toks);
      } else if c == '\\' && !st.sq && buf[st.p + 1] != NUL {
        st, cur, toks := ScanEscape(buf, st, s0, line, cur, toks);
      } else {
        st, cur, toks := ScanCopy(buf, st, s0, line, cur, toks);
      }
      ScanningReads(buf, s0, line, st, cur, toks);
    }
    ScanningReads(buf, s0, line, st, cur, toks);
    argc, argv := FinishArgv(buf, st, s0, line, cur, toks);
  }

  /** The end of the line: closes a word left open and builds the vector of offsets. */
  method FinishArgv(buf: array<char>, st: Scan, ghost s0: seq<char>, ghost line: string, ghost cur: string, ghost toks: seq<string>)
    returns (argc: nat, argv: array<nat>)
    requires Scanning(buf, s0, line, st, cur, toks) && st.p == |line|
    modifies buf
    ensures argc == |Tokens(line)| && fresh(argv)
    ensures Packed(buf[..], argv[..], Tokens(line))
    ensures var f := Flatten(Tokens(line)); buf[|f|..] == s0[|f|..]
  {
    assert line[st.p..] == [];
    var q := st.q;
    argc := st.argc;
    ghost var words, rest := toks, cur;
    if st.inArg {
      Put(buf, q, NUL, s0, Flatten(toks) + cur);
      FlattenAppend(toks, cur);
      q, argc := q + 1, argc + 1;
      words, rest := toks + [cur], [];
    }
    assert buf[..q] == Flatten(words);
    assert buf[q..] == s0[q..];
    argv := FillArgv(buf, argc, words);
  }

  /** The second pass of `buildArgv`: the start offset of each packed word. */
  method FillArgv(buf: array<char>, argc: nat, ghost toks: seq<string>) returns (argv: array<nat>)
    requires argc == |toks| && HoldsAt(buf[..], 0, Flatten(toks)) && NulFree(toks)
    ensures fresh(argv) && argv.Length == |toks|
    ensures forall k :: 0 <= k < |toks| ==> argv[k] == Offset(toks, k)
  {
    argv := new nat[argc];
    var p := 0;
    var k := 0;
    while k < argv.Length
      invariant 0 <= k <= argv.Length && p == Offset(toks, k)
      invariant forall j :: 0 <= j < k ==> argv[j] == Offset(toks, j)
    {
      argv[k] := p;
      FlattenAt(toks, k);
      HoldsRest(buf[..], toks, k);
      ghost var t := toks[k];
      HoldsHead(buf[..], p, t, Flatten(toks[k + 1..]));
      ghost var base := p;
      while buf[p] != NUL
        invariant base <= p <= base + |t|
        decreases base + |t| - p
      {
        p := p + 1;
      }
      assert p == base + |t|;
      p := p + 1;
      k := k + 1;
    }
  }
}
