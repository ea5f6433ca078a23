/** Line splitting as the relay does it: JavaScript's `text.split('\n')`,
    with the last piece kept back as the pending partial line. Only LF
    separates lines; a CR stays part of its line. */
module Lines {

  /** `s.split('\n')`: the pieces between line feeds, always at least one. */
  function Split(s: string): (pieces: seq<string>)
    ensures |pieces| >= 1
    decreases |s|
  {
    if s == [] then [""]
    else if s[0] == '\n' then [""] + Split(s[1..])
    else
      var rest := Split(s[1..]);
      [[s[0]] + rest[0]] + rest[1..]
  }

  /** The lines of `s` that a line feed has already terminated. */
  function Complete(s: string): seq<string>
  {
    var pieces := Split(s);
    pieces[..|pieces| - 1]
  }

  /** The text after the last line feed of `s` (all of `s` if there is none):
      what `lines.pop()` leaves in the relay's buffer. */
  function Trailing(s: string): string
  {
    var pieces := Split(s);
    pieces[|pieces| - 1]
  }

  /** Each line followed by its terminating line feed. */
  function Terminated(lines: seq<string>): string
  {
    if lines == [] then "" else lines[0] + "\n" + Terminated(lines[1..])
  }

  predicate NoNewline(s: string)
  {
    forall i :: 0 <= i < |s| ==> s[i] != '\n'
  }

  predicate AllNoNewline(lines: seq<string>)
  {
    forall i :: 0 <= i < |lines| ==> NoNewline(lines[i])
  }

  /** No piece produced by the split contains a line feed. */
  lemma {:induction false} SplitPiecesHaveNoNewline(s: string)
    ensures AllNoNewline(Split(s))
    decreases |s|
  {
    if s != [] {
      SplitPiecesHaveNoNewline(s[1..]);
      var rest := Split(s[1..]);
      if s[0] != '\n' {
        assert NoNewline([s[0]] + rest[0]) by {
          assert NoNewline(rest[0]);
        }
        var r := Split(s);
        forall i | 0 <= i < |r| ensures NoNewline(r[i]) {
          if i > 0 { assert r[i] == rest[i]; }
        }
      } else {
        var r := Split(s);
        forall i | 0 <= i < |r| ensures NoNewline(r[i]) {
          if i > 0 { assert r[i] == rest[i - 1]; }
        }
      }
    }
  }

  lemma {:induction false} TerminatedAppend(a: seq<string>, b: seq<string>)
    ensures Terminated(a + b) == Terminated(a) + Terminated(b)
    decreases |a|
  {
    if a == [] {
      assert a + b == b;
    } else {
      assert (a + b)[0] == a[0];
      assert (a + b)[1..] == a[1..] + b;
      TerminatedAppend(a[1..], b);
    }
  }

  /** Split loses nothing: the terminated lines followed by the trailing
      piece give back the text. */
  lemma {:induction false} Reassemble(s: string)
    ensures Terminated(Complete(s)) + Trailing(s) == s
    decreases |s|
  {
    if s != [] {
      Reassemble(s[1..]);
      var rest := Split(s[1..]);
      if s[0] == '\n' {
        assert Complete(s) == [""] + Complete(s[1..]);
        assert Trailing(s) == Trailing(s[1..]);
      } else if |rest| == 1 {
        assert Complete(s) == [];
        assert Trailing(s) == [s[0]] + rest[0];
      } else {
        var c := Complete(s[1..]);
        assert Complete(s) == [[s[0]] + c[0]] + c[1..];
        assert Trailing(s) == Trailing(s[1..]);
        assert Terminated(Complete(s)) == [s[0]] + Terminated(c);
      }
    }
  }

  /** A text without a line feed splits into itself. */
  lemma {:induction false} SplitOfLineFragment(b: string)
    requires NoNewline(b)
    ensures Split(b) == [b]
    decreases |b|
  {
    if b != [] {
      SplitOfLineFragment(b[1..]);
      assert [b[0]] + b[1..] == b;
    }
  }

  /** A first line feed splits off exactly one complete line. */
  lemma {:induction false} SplitFirstLine(a: string, r: string)
    requires NoNewline(a)
    ensures Split(a + "\n" + r) == [a] + Split(r)
    decreases |a|
  {
    if a == [] {
      assert a + "\n" + r == "\n" + r;
      assert ("\n" + r)[1..] == r;
    } else {
      var s := a + "\n" + r;
      assert s[0] == a[0];
      assert s[1..] == a[1..] + "\n" + r;
      SplitFirstLine(a[1..], r);
      assert [a[0]] + a[1..] == a;
    }
  }

  /** The decomposition into terminated lines plus a fragment without a line
      feed is unique: it is the one Complete and Trailing give. */
  lemma {:induction false} DecompositionUnique(s: string, lines: seq<string>, fragment: string)
    requires AllNoNewline(lines) && NoNewline(fragment)
    requires Terminated(lines) + fragment == s
    ensures Complete(s) == lines && Trailing(s) == fragment
    decreases |lines|
  {
    if lines == [] {
      assert s == fragment;
      SplitOfLineFragment(fragment);
    } else {
      var r := Terminated(lines[1..]) + fragment;
      assert AllNoNewline(lines[1..]) by {
        forall i | 0 <= i < |lines| - 1 ensures NoNewline(lines[1..][i]) {
          assert lines[1..][i] == lines[i + 1];
        }
      }
      DecompositionUnique(r, lines[1..], fragment);
      assert s == lines[0] + "\n" + r;
      assert NoNewline(lines[0]);
      SplitFirstLine(lines[0], r);
      assert Complete(s) == [lines[0]] + Complete(r);
      assert [lines[0]] + lines[1..] == lines;
    }
  }

  /** The complete lines and the pending fragment are free of line feeds. */
  lemma PartsHaveNoNewline(s: string)
    ensures AllNoNewline(Complete(s)) && NoNewline(Trailing(s))
  {
    SplitPiecesHaveNoNewline(s);
    var c := Complete(s);
    forall i | 0 <= i < |c| ensures NoNewline(c[i]) {
      assert c[i] == Split(s)[i];
    }
  }

  lemma AllNoNewlineAppend(a: seq<string>, b: seq<string>)
    requires AllNoNewline(a) && AllNoNewline(b)
    ensures AllNoNewline(a + b)
  {
    forall i | 0 <= i < |a + b| ensures NoNewline((a + b)[i]) {
      if i >= |a| { assert (a + b)[i] == b[i - |a|]; }
    }
  }

  /** The chunk-boundary lemma: splitting the whole text `t + c` yields the
      complete lines of `t`, then those of `Trailing(t) + c`, and the same
      trailing fragment as re-splitting only `Trailing(t) + c`. This is what
      keeping one pending partial line across chunks relies on. */
  lemma ResplitPending(t: string, c: string)
    ensures Complete(t + c) == Complete(t) + Complete(Trailing(t) + c)
    ensures Trailing(t + c) == Trailing(Trailing(t) + c)
  {
    var u := Trailing(t) + c;
    ReassembleAcrossChunk(t, c);
    PartsHaveNoNewline(t);
    PartsHaveNoNewline(u);
    AllNoNewlineAppend(Complete(t), Complete(u));
    DecompositionUnique(t + c, Complete(t) + Complete(u), Trailing(u));
  }

  /** The text so far plus a chunk is the lines completed before the chunk,
      then those completed by re-splitting the buffer with the chunk, then the
      new buffer. */
  lemma ReassembleAcrossChunk(t: string, c: string)
    ensures Terminated(Complete(t) + Complete(Trailing(t) + c)) + Trailing(Trailing(t) + c) == t + c
  {
    Reassemble(t);
    Reassemble(Trailing(t) + c);
    Regroup(t, c, Complete(t), Trailing(t), Complete(Trailing(t) + c), Trailing(Trailing(t) + c));
  }

  lemma Regroup(t: string, c: string, before: seq<string>, buffer: string, after: seq<string>, rest: string)
    requires Terminated(before) + buffer == t
    requires Terminated(after) + rest == buffer + c
    ensures Terminated(before + after) + rest == t + c
  {
    TerminatedAppend(before, after);
    calc {
      Terminated(before + after) + rest;
      (Terminated(before) + Terminated(after)) + rest;
      Terminated(before) + (Terminated(after) + rest);
      Terminated(before) + (buffer + c);
      (Terminated(before) + buffer) + c;
    }
  }

  /** Text after the last line feed is never a complete line: appending a
      fragment without a line feed leaves the complete lines unchanged. */
  lemma UnterminatedTailIgnored(s: string, tail: string)
    requires NoNewline(tail)
    ensures Complete(s + tail) == Complete(s)
    ensures Trailing(s + tail) == Trailing(s) + tail
  {
    ResplitPending(s, tail);
    PartsHaveNoNewline(s);
    var u := Trailing(s) + tail;
    assert NoNewline(u) by {
      assert NoNewline(Trailing(s));
      forall i | 0 <= i < |u| ensures u[i] != '\n' {
        if i >= |Trailing(s)| { assert u[i] == tail[i - |Trailing(s)|]; }
      }
    }
    SplitOfLineFragment(u);
  }
}
