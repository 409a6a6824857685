/**
 Laying out a log entry as text: each line of the message wrapped in a prefix
 and a suffix, in a buffer whose size is computed from a count of the lines.
 */
module LogLines {
  type Text = seq<char>

  /** sizeof(prefixBuf) and sizeof(suffixBuf). */
  const AFFIX_ROOM: nat := 128

  predicate NulFree(t: Text) { forall i | 0 <= i < |t| :: t[i] != '\0' }

  // ------------------------------------------------------------------------
  // Lines
  // ------------------------------------------------------------------------

  /** The index of the first newline, or the length. */
  function LineEnd(t: Text): (n: nat)
    ensures n <= |t| && (n < |t| ==> t[n] == '\n')
    ensures forall i | 0 <= i < n :: t[i] != '\n'
  {
    if t == [] || t[0] == '\n' then 0 else 1 + LineEnd(t[1..])
  }

  lemma {:induction false} LineEndIs(t: Text, n: nat)
    requires n <= |t| && (n < |t| ==> t[n] == '\n') && forall i | 0 <= i < n :: t[i] != '\n'
    ensures LineEnd(t) == n
  {
    if n > 0 {
      LineEndIs(t[1..], n - 1);
    }
  }

  /** The message after its first line and that line's newline. */
  function AfterLine(t: Text): (r: Text)
    requires t != []
    ensures |r| < |t|
  {
    if LineEnd(t) < |t| then t[LineEnd(t) + 1..] else []
  }

  function Lines(t: Text): seq<Text>
    decreases |t|
  {
    if t == [] then [] else [t[..LineEnd(t)]] + Lines(AfterLine(t))
  }

  function Newlines(t: Text): nat {
    if t == [] then 0 else (if t[0] == '\n' then 1 else 0) + Newlines(t[1..])
  }

  predicate Unterminated(t: Text) { t != [] && t[|t| - 1] != '\n' }

  /** Lines, each followed by a newline. */
  function Joined(lines: seq<Text>): Text {
    if lines == [] then [] else lines[0] + "\n" + Joined(lines[1..])
  }

  lemma {:induction false} NewlinesConcat(a: Text, b: Text)
    ensures Newlines(a + b) == Newlines(a) + Newlines(b)
  {
    if a == [] {
      assert a + b == b;
    } else {
      assert (a + b)[1..] == a[1..] + b;
      NewlinesConcat(a[1..], b);
    }
  }

  lemma {:induction false} NoNewlines(t: Text)
    requires forall i | 0 <= i < |t| :: t[i] != '\n'
    ensures Newlines(t) == 0
  {
    if t != [] {
      NoNewlines(t[1..]);
    }
  }

  /** The first line, its newline if it has one, and what follows. */
  lemma FirstLine(t: Text)
    requires t != []
    ensures
      var n := LineEnd(t);
      && Newlines(t) == (if n < |t| then 1 else 0) + Newlines(AfterLine(t))
      && t == t[..n] + (if n < |t| then "\n" else "") + AfterLine(t)
      && (Unterminated(t) <==> n == |t| || Unterminated(AfterLine(t)))
  {
    hide LineEnd, AfterLine, Newlines, Unterminated;
    var n := LineEnd(t);
    AfterLineIs(t);
    NoNewlines(t[..n]);
    if n < |t| {
      TerminatedLine(t[..n], AfterLine(t));
    } else {
      OnlyLine(t);
    }
  }

  lemma OnlyLine(t: Text)
    requires t != [] && LineEnd(t) == |t|
    ensures AfterLine(t) == [] && Newlines(t) == 0 == Newlines([])
    ensures t == t[..|t|] + "" + AfterLine(t)
    ensures Unterminated(t)
  {
    hide Newlines, Unterminated;
    NothingAfter(t);
    NoNewlines(t);
    NoNewlines([]);
    LastOf(t);
  }

  lemma LastOf(t: Text)
    requires t != [] && LineEnd(t) == |t|
    ensures Unterminated(t)
  {
    assert t[|t| - 1] != '\n';
  }

  lemma AfterLineIs(t: Text)
    requires t != []
    ensures
      var n := LineEnd(t);
      && AfterLine(t) == (if n < |t| then t[n + 1..] else [])
      && (n < |t| ==> t == t[..n] + "\n" + AfterLine(t))
  {
    hide LineEnd;
    if LineEnd(t) < |t| {
      CutAt(t, LineEnd(t));
    }
  }

  lemma CutAt(t: Text, n: nat)
    requires n < |t| && t[n] == '\n'
    ensures t == t[..n] + "\n" + t[n + 1..]
  {
    assert t[..n + 1] == t[..n] + "\n";
  }

  lemma TerminatedLine(line: Text, r: Text)
    requires Newlines(line) == 0
    ensures Newlines(line + "\n" + r) == 1 + Newlines(r)
    ensures Unterminated(line + "\n" + r) == Unterminated(r)
  {
    hide Newlines;
    NewlinesConcat(line + "\n", r);
    NewlinesConcat(line, "\n");
    OneNewline();
    var t := line + "\n" + r;
    assert r != [] ==> t[|t| - 1] == r[|r| - 1];
  }

  lemma OneNewline()
    ensures Newlines("\n") == 1
  {
    assert "\n"[1..] == "";
  }

  /**
   The lines are the message cut at its newlines: none holds one, put back
   together they are the message with its last line terminated, and there is
   one for each newline and one for anything after the last.
   */
  lemma {:induction false} LinesAreTheMessage(t: Text)
    ensures forall k | 0 <= k < |Lines(t)| :: Newlines(Lines(t)[k]) == 0
    ensures Joined(Lines(t)) == t + (if Unterminated(t) then "\n" else "")
    ensures |Lines(t)| == Newlines(t) + (if Unterminated(t) then 1 else 0)
    decreases |t|
  {
    hide LineEnd, AfterLine, Newlines, Unterminated;
    if t == [] {
      NoNewlines(t);
      EmptyIsTerminated();
    } else {
      var first, rest := t[..LineEnd(t)], AfterLine(t);
      FirstLine(t);
      NoNewlines(first);
      LinesAreTheMessage(rest);
      assert Lines(t)[0] == first && Lines(t)[1..] == Lines(rest);
      if LineEnd(t) == |t| {
        assert rest == [] by { NothingAfter(t); }
        EmptyIsTerminated();
      }
    }
  }

  lemma EmptyIsTerminated()
    ensures !Unterminated([])
  {
  }

  lemma NothingAfter(t: Text)
    requires t != [] && LineEnd(t) == |t|
    ensures AfterLine(t) == []
  {
  }

  // ------------------------------------------------------------------------
  // Layout
  // ------------------------------------------------------------------------

  function Wrapped(prefix: Text, lines: seq<Text>, suffix: Text): Text {
    if lines == [] then [] else prefix + lines[0] + suffix + Wrapped(prefix, lines[1..], suffix)
  }

  /** The whole text: header, message and footer, or each line wrapped. */
  function Layout(prefix: Text, suffix: Text, headerFooter: bool, message: Text): Text {
    if headerFooter then prefix + message + suffix else Wrapped(prefix, Lines(message), suffix)
  }

  function LineCount(headerFooter: bool, message: Text): nat {
    if headerFooter then 1 else |Lines(message)|
  }

  lemma {:induction false} WrappedLength(prefix: Text, message: Text, suffix: Text)
    ensures |Wrapped(prefix, Lines(message), suffix)| + Newlines(message)
            == |Lines(message)| * (|prefix| + |suffix|) + |message|
    decreases |message|
  {
    hide LineEnd, AfterLine, Newlines;
    if message == [] {
      NoNewlines(message);
    } else {
      var rest := AfterLine(message);
      FirstLine(message);
      WrappedLength(prefix, rest, suffix);
      assert Lines(message)[1..] == Lines(rest);
      OneMore(|Lines(rest)|, |prefix| + |suffix|);
    }
  }

  lemma OneMore(n: nat, k: nat)
    ensures (1 + n) * k == k + n * k
  {
  }

  /** The computed size is the text, its terminator, and room for every newline replaced by a suffix. */
  lemma SizeIsEnough(prefix: Text, suffix: Text, headerFooter: bool, message: Text)
    ensures
      LineCount(headerFooter, message) * (|prefix| + |suffix|) + |message| + 1
      == |Layout(prefix, suffix, headerFooter, message)| + 1 + (if headerFooter then 0 else Newlines(message))
  {
    WrappedLength(prefix, message, suffix);
  }

  lemma {:induction false} WrappedIsJoined(lines: seq<Text>)
    ensures Wrapped([], lines, "\n") == Joined(lines)
  {
    if lines != [] {
      WrappedIsJoined(lines[1..]);
      assert [] + lines[0] == lines[0];
    }
  }

  /** Every line stands in the text between its own prefix and suffix, after the lines before it. */
  lemma {:induction false} LineInPlace(prefix: Text, lines: seq<Text>, suffix: Text, k: nat)
    requires k < |lines|
    ensures Wrapped(prefix, lines, suffix) ==
              Wrapped(prefix, lines[..k], suffix) + (prefix + lines[k] + suffix)
              + Wrapped(prefix, lines[k + 1..], suffix)
    ensures Wrapped(prefix, [], suffix) == []
  {
    if k == 0 {
      assert lines[..0] == [];
    } else {
      LineInPlace(prefix, lines[1..], suffix, k - 1);
      assert lines[..k][1..] == lines[1..][..k - 1] && lines[..k][0] == lines[0];
      assert lines[1..][k..] == lines[k + 1..];
      assert Wrapped(prefix, lines[..k], suffix) ==
             prefix + lines[0] + suffix + Wrapped(prefix, lines[1..][..k - 1], suffix);
    }
  }

  /** The long format puts the whole message between one header and one footer; every other format goes by lines. */
  lemma LayoutParts(prefix: Text, suffix: Text, message: Text)
    ensures
      var text := Layout(prefix, suffix, true, message);
      && |text| == |prefix| + |message| + |suffix|
      && text[..|prefix|] == prefix && text[|prefix|..|prefix| + |message|] == message
      && text[|prefix| + |message|..] == suffix
    ensures Layout(prefix, suffix, false, message) == Wrapped(prefix, Lines(message), suffix)
  {
  }

  /** The raw format gives the message back, with its last line terminated. */
  lemma RawIsTheMessage(message: Text)
    ensures Layout([], "\n", false, message) == message + (if Unterminated(message) then "\n" else "")
  {
    WrappedIsJoined(Lines(message));
    LinesAreTheMessage(message);
  }

  // ------------------------------------------------------------------------
  // The formatter
  // ------------------------------------------------------------------------

  /** What snprintf leaves in a buffer of AFFIX_ROOM bytes. */
  function Cut(full: Text): (t: Text)
    ensures |t| == if |full| >= AFFIX_ROOM then AFFIX_ROOM - 1 else |full|
    ensures NulFree(full) ==> NulFree(t)
  {
    if |full| >= AFFIX_ROOM then full[..AFFIX_ROOM - 1] else full
  }

  /** The suffix of the process format; the other formats' suffixes are one or two newlines. */
  function ProcessSuffix(tag: Text): Text { "  (" + tag + ")\n" }

  /** A tag of more than 122 characters costs the line its newline, unless the cut falls after a newline of the tag. */
  lemma ProcessLinesEnd(tag: Text)
    ensures Unterminated(Cut(ProcessSuffix(tag))) <==> |tag| > 122 && (|tag| > 123 ==> tag[123] != '\n')
    ensures |tag| <= 122 ==> Cut(ProcessSuffix(tag)) == ProcessSuffix(tag)
  {
    var full := ProcessSuffix(tag);
    assert |full| == |tag| + 5 && full[|full| - 1] == '\n';
    assert |tag| == 123 ==> full[126] == ')';
    assert |tag| > 123 ==> full[126] == tag[123];
  }

  /** strcat and strncat, where the text so far ends at `p`. */
  method Append(ret: array<char>, p: nat, t: Text)
    requires p + |t| < ret.Length && ret[p] == '\0' && NulFree(t)
    modifies ret
    ensures ret[..p + |t|] == old(ret[..p]) + t && ret[p + |t|] == '\0'
  {
    forall i | 0 <= i < |t| { ret[p + i] := t[i]; }
    ret[p + |t|] := '\0';
  }

  /** The counting loop. */
  method CountLines(message: Text) returns (numLines: nat)
    ensures numLines == |Lines(message)|
  {
    numLines := 0;
    var pm := 0;
    while pm < |message|
      invariant pm <= |message| && numLines == Newlines(message[..pm])
    {
      assert message[..pm + 1] == message[..pm] + [message[pm]];
      NewlinesConcat(message[..pm], [message[pm]]);
      pm := pm + 1;
      if message[pm - 1] == '\n' {
        numLines := numLines + 1;
      }
    }
    assert message[..pm] == message;
    if pm > 0 && message[pm - 1] != '\n' {
      numLines := numLines + 1;
    }
    LinesAreTheMessage(message);
  }

  /** One wrapped piece: strcat, strncat, strcat. */
  method EmitPiece(ret: array<char>, p: nat, prefix: Text, line: Text, suffix: Text) returns (q: nat)
    requires p + |prefix| + |line| + |suffix| < ret.Length && ret[p] == '\0'
    requires NulFree(prefix) && NulFree(line) && NulFree(suffix)
    modifies ret
    ensures q == p + |prefix| + |line| + |suffix| && ret[q] == '\0'
    ensures ret[..q] == old(ret[..p]) + (prefix + line + suffix)
  {
    q := p;
    Append(ret, q, prefix);
    q := q + |prefix|;
    Append(ret, q, line);
    q := q + |line|;
    Append(ret, q, suffix);
    q := q + |suffix|;
  }

  /** The emitting loop. */
  method EmitLines(ret: array<char>, prefix: Text, suffix: Text, message: Text) returns (p: nat)
    requires NulFree(message) && NulFree(prefix) && NulFree(suffix)
    requires ret.Length > |Wrapped(prefix, Lines(message), suffix)| && ret[0] == '\0'
    modifies ret
    ensures p == |Wrapped(prefix, Lines(message), suffix)| && ret[p] == '\0'
    ensures ret[..p] == Wrapped(prefix, Lines(message), suffix)
  {
    hide LineEnd, Lines, Wrapped;
    p := 0;
    var pm := 0;
    assert message[0..] == message;
    while pm < |message|
      invariant pm <= |message| && p < ret.Length && ret[p] == '\0'
      invariant ret[..p] + Wrapped(prefix, Lines(message[pm..]), suffix)
                == Wrapped(prefix, Lines(message), suffix)
    {
      ghost var done, rest := ret[..p], message[pm..];
      var lineStart := pm;
      while pm < |message| && message[pm] != '\n'
        invariant lineStart <= pm <= |message|
        invariant forall i | lineStart <= i < pm :: message[i] != '\n'
      {
        pm := pm + 1;
      }
      var line := message[lineStart..pm];
      FirstPiece(message, lineStart, pm, prefix, suffix);
      p := EmitPiece(ret, p, prefix, line, suffix);
      if pm < |message| {
        pm := pm + 1;
      }
    }
    assert message[pm..] == [];
    assert Wrapped(prefix, Lines([]), suffix) == [] by { NothingWrapped(prefix, suffix); }
  }

  lemma NothingWrapped(prefix: Text, suffix: Text)
    ensures Wrapped(prefix, Lines([]), suffix) == []
  {
  }

  lemma FirstPiece(message: Text, start: nat, end: nat, prefix: Text, suffix: Text)
    requires start <= end <= |message| && start < |message|
    requires forall i | start <= i < end :: message[i] != '\n'
    requires end < |message| ==> message[end] == '\n'
    ensures
      var next := if end < |message| then end + 1 else end;
      Wrapped(prefix, Lines(message[start..]), suffix)
      == (prefix + message[start..end] + suffix) + Wrapped(prefix, Lines(message[next..]), suffix)
  {
    var t, n := message[start..], end - start;
    LineEndIs(t, n);
    hide LineEnd;
    assert t[..n] == message[start..end];
    var rest := message[if end < |message| then end + 1 else end..];
    assert AfterLine(t) == rest;
    assert Lines(t)[0] == t[..n] && Lines(t)[1..] == Lines(rest);
  }

  /**
   android_log_formatLogLine, from the rendered prefix and suffix on.  The
   caller's buffer is used if it is large enough, otherwise a new one of exactly
   the computed size; `mallocFails` makes that the null pointer.
   */
  method FormatLogLine(
      fullPrefix: Text, fullSuffix: Text, headerFooter: bool, message: Text,
      defaultBuffer: array<char>, mallocFails: bool)
    returns (ret: array?<char>, outLength: nat)
    requires NulFree(fullPrefix) && NulFree(fullSuffix) && NulFree(message)
    modifies defaultBuffer
    ensures
      var prefix, suffix := Cut(fullPrefix), Cut(fullSuffix);
      var text := Layout(prefix, suffix, headerFooter, message);
      var size := LineCount(headerFooter, message) * (|prefix| + |suffix|) + |message| + 1;
      && (ret == null <==> defaultBuffer.Length < size && mallocFails)
      && (ret == defaultBuffer <==> defaultBuffer.Length >= size)
      && (ret != null ==>
            && outLength == |text| < size <= ret.Length
            && ret[..outLength] == text && ret[outLength] == '\0')
  {
    hide Wrapped, Lines;
    var prefix, suffix := Cut(fullPrefix), Cut(fullSuffix);
    outLength := 0;
    var numLines := 1;
    if !headerFooter {
      numLines := CountLines(message);
    }
    var bufferSize := numLines * (|prefix| + |suffix|) + |message| + 1;
    SizeIsEnough(prefix, suffix, headerFooter, message);
    if defaultBuffer.Length >= bufferSize {
      ret := defaultBuffer;
    } else if mallocFails {
      return null, 0;
    } else {
      ret := new char[bufferSize];
    }
    ret[0] := '\0';
    if headerFooter {
      outLength := EmitPiece(ret, 0, prefix, message, suffix);
    } else {
      outLength := EmitLines(ret, prefix, suffix, message);
    }
  }
}
