/**
 * How the log tail turns raw text into display lines: splitting on '\n'
 * (QByteArray::split), trimming (QString::trimmed), dropping empty pieces,
 * and the journal path's line-at-a-time reading of complete lines
 * (QIODevice::canReadLine / readLine).
 *
 * Bytes are modelled as characters: UTF-8 decoding is the identity here.
 */
module Lines {
  import opened Seqs

  /** QChar::isSpace: the ASCII controls \t \n \v \f \r, space, U+0085 and the
      Unicode separators (categories Zs, Zl, Zp). */
  predicate IsSpace(c: char) {
    c == ' ' || c == '\t' || c == '\n' || c == '\U{000B}' || c == '\U{000C}' || c == '\r' ||
    c == '\U{0085}' || c == '\U{00A0}' || c == '\U{1680}' ||
    ('\U{2000}' <= c <= '\U{200A}') ||
    c == '\U{2028}' || c == '\U{2029}' || c == '\U{202F}' || c == '\U{205F}' || c == '\U{3000}'
  }

  ghost predicate AllSpace(s: string) {
    forall k :: 0 <= k < |s| ==> IsSpace(s[k])
  }

  /** A trimmed string neither starts nor ends with whitespace. */
  predicate IsTrimmed(s: string) {
    |s| == 0 || (!IsSpace(s[0]) && !IsSpace(s[|s| - 1]))
  }

  /** No piece contains a newline. */
  ghost predicate NoNewlines(pieces: seq<string>) {
    forall i :: 0 <= i < |pieces| ==> '\n' !in pieces[i]
  }

  /** What the display receives: non-empty, trimmed lines. */
  ghost predicate DisplayLines(lines: seq<string>) {
    forall i :: 0 <= i < |lines| ==> |lines[i]| > 0 && IsTrimmed(lines[i])
  }

  /** Whitespace removed from the front. */
  function TrimStart(s: string): (r: string)
    ensures |r| <= |s|
  {
    if |s| > 0 && IsSpace(s[0]) then TrimStart(s[1..]) else s
  }

  /** Whitespace removed from the back. */
  function TrimEnd(s: string): (r: string)
    ensures |r| <= |s|
  {
    if |s| > 0 && IsSpace(s[|s| - 1]) then TrimEnd(s[..|s| - 1]) else s
  }

  /** QString::trimmed: whitespace removed from both ends. */
  function Trim(s: string): string
  {
    TrimEnd(TrimStart(s))
  }

  /** TrimStart drops a run of whitespace and keeps a suffix that starts with a non-space. */
  lemma {:induction false} TrimStartShape(s: string)
    ensures TrimStart(s) == s[|s| - |TrimStart(s)|..]
    ensures AllSpace(s[..|s| - |TrimStart(s)|])
    ensures |TrimStart(s)| == 0 || !IsSpace(TrimStart(s)[0])
  {
    if |s| > 0 && IsSpace(s[0]) {
      TrimStartShape(s[1..]);
      var n := |s| - |TrimStart(s)|;
      assert s[1..][n - 1..] == s[n..];
      assert forall k :: 1 <= k < n ==> s[..n][k] == s[1..][..n - 1][k - 1];
    }
  }

  /** TrimEnd drops a run of whitespace and keeps a prefix that ends with a non-space. */
  lemma {:induction false} TrimEndShape(s: string)
    ensures TrimEnd(s) == s[..|TrimEnd(s)|]
    ensures AllSpace(s[|TrimEnd(s)|..])
    ensures |TrimEnd(s)| == 0 || !IsSpace(TrimEnd(s)[|TrimEnd(s)| - 1])
  {
    if |s| > 0 && IsSpace(s[|s| - 1]) {
      var front := s[..|s| - 1];
      TrimEndShape(front);
      var n := |TrimEnd(s)|;
      assert front[..n] == s[..n];
      assert forall k :: n <= k < |s| - 1 ==> s[k] == front[k];
      assert forall k :: 0 <= k < |s| - n ==> s[n..][k] == s[n + k];
    }
  }

  /** The decomposition Trim makes: its input is leading whitespace, then the trimmed
      result, then trailing whitespace. */
  lemma TrimShape(s: string)
    ensures var start := |s| - |TrimStart(s)|;
      && start + |Trim(s)| <= |s|
      && AllSpace(s[..start])
      && Trim(s) == s[start..start + |Trim(s)|]
      && AllSpace(s[start + |Trim(s)|..])
      && IsTrimmed(Trim(s))
  {
    var t := TrimStart(s);
    var start := |s| - |t|;
    TrimStartShape(s);
    TrimEndShape(t);
    var r := Trim(s);
    assert |r| > 0 ==> r[0] == t[0];
    SliceOfSlice(s, start, |r|);
  }

  /** Trim is characterised by that decomposition: whatever whitespace surrounds a trimmed
      core, the core is what Trim returns. */
  lemma {:induction false} TrimUnique(p: string, m: string, q: string)
    requires AllSpace(p) && AllSpace(q) && IsTrimmed(m)
    ensures Trim(p + m + q) == m
  {
    TrimStartAppend(p, m + q);
    TrimStartOfSpace(p);
    assert p + m + q == p + (m + q);
    if |m| == 0 {
      assert m + q == q;
      TrimStartOfSpace(q);
    } else {
      assert TrimStart(m + q) == m + q by { assert (m + q)[0] == m[0]; }
      TrimEndOfSpace(q);
      TrimEndPrepend(m, q);
    }
  }

  /** Leading whitespace is dropped; once a non-space character is reached the rest is kept. */
  lemma {:induction false} TrimStartAppend(s: string, t: string)
    ensures |TrimStart(s)| > 0 ==> TrimStart(s + t) == TrimStart(s) + t
    ensures |TrimStart(s)| == 0 ==> TrimStart(s + t) == TrimStart(t)
  {
    if |s| == 0 {
      assert s + t == t;
    } else {
      assert (s + t)[0] == s[0];
      assert (s + t)[1..] == s[1..] + t;
      if IsSpace(s[0]) { TrimStartAppend(s[1..], t); }
    }
  }

  lemma {:induction false} TrimEndPrepend(s: string, t: string)
    ensures |TrimEnd(t)| > 0 ==> TrimEnd(s + t) == s + TrimEnd(t)
    ensures |TrimEnd(t)| == 0 ==> TrimEnd(s + t) == TrimEnd(s)
  {
    if |t| == 0 {
      assert s + t == s;
    } else {
      assert (s + t)[|s + t| - 1] == t[|t| - 1];
      assert (s + t)[..|s + t| - 1] == s + t[..|t| - 1];
      if IsSpace(t[|t| - 1]) { TrimEndPrepend(s, t[..|t| - 1]); }
    }
  }

  lemma {:induction false} TrimStartOfSpace(s: string)
    requires AllSpace(s)
    ensures TrimStart(s) == []
  {
    if |s| > 0 {
      assert forall k :: 0 <= k < |s| - 1 ==> s[1..][k] == s[k + 1];
      TrimStartOfSpace(s[1..]);
    }
  }

  lemma {:induction false} TrimEndOfSpace(s: string)
    requires AllSpace(s)
    ensures TrimEnd(s) == []
  {
    if |s| > 0 {
      assert forall k :: 0 <= k < |s| - 1 ==> s[..|s| - 1][k] == s[k];
      TrimEndOfSpace(s[..|s| - 1]);
    }
  }

  /** Trimming ignores whitespace added at the end, such as the '\n' readLine keeps. */
  lemma TrimDropsTrailingSpace(s: string, c: char)
    requires IsSpace(c)
    ensures Trim(s + [c]) == Trim(s)
  {
    TrimStartAppend(s, [c]);
    var t := TrimStart(s);
    if |t| > 0 {
      assert (t + [c])[..|t + [c]| - 1] == t;
    }
  }

  /** QByteArray::split('\n'): the pieces between newlines, always at least one. */
  function Split(s: string): (r: seq<string>)
    ensures |r| >= 1
  {
    if |s| == 0 then [[]]
    else
      var rest := Split(s[1..]);
      if s[0] == '\n' then [[]] + rest else [[s[0]] + rest[0]] + rest[1..]
  }

  /** No piece of a split contains a newline. */
  lemma {:induction false} SplitNoNewlines(s: string)
    ensures NoNewlines(Split(s))
  {
    if |s| > 0 {
      SplitNoNewlines(s[1..]);
      var rest, r := Split(s[1..]), Split(s);
      if s[0] == '\n' {
        assert forall i :: 1 <= i < |r| ==> r[i] == rest[i - 1];
      } else {
        assert r[0] == [s[0]] + rest[0];
        assert forall i :: 1 <= i < |r| ==> r[i] == rest[i];
      }
    }
  }

  /** The inverse of Split: the pieces put back together with '\n' between them. */
  function Join(pieces: seq<string>): (s: string)
    requires |pieces| >= 1
  {
    if |pieces| == 1 then pieces[0] else pieces[0] + "\n" + Join(pieces[1..])
  }

  lemma {:induction false} JoinSplit(s: string)
    ensures Join(Split(s)) == s
  {
    if |s| > 0 {
      JoinSplit(s[1..]);
      var rest := Split(s[1..]);
      if s[0] != '\n' {
        var r := Split(s);
        assert r[0] == [s[0]] + rest[0] && r[1..] == rest[1..];
        if |rest| == 1 {
          assert s == [s[0]] + rest[0];
        } else {
          assert Join(rest) == rest[0] + "\n" + Join(rest[1..]);
          assert s == [s[0]] + rest[0] + "\n" + Join(rest[1..]);
        }
      }
    }
  }

  lemma {:induction false} SplitJoin(pieces: seq<string>)
    requires |pieces| >= 1
    requires NoNewlines(pieces)
    ensures Split(Join(pieces)) == pieces
  {
    if |pieces| == 1 {
      SplitNoNewline(pieces[0]);
    } else {
      SplitJoin(pieces[1..]);
      SplitAppend(pieces[0], Join(pieces[1..]));
      SplitNoNewline(pieces[0]);
      assert pieces == [pieces[0]] + pieces[1..];
    }
  }

  lemma {:induction false} SplitNoNewline(s: string)
    requires '\n' !in s
    ensures Split(s) == [s]
  {
    if |s| > 0 {
      assert forall k :: 0 <= k < |s| - 1 ==> s[1..][k] == s[k + 1];
      SplitNoNewline(s[1..]);
      assert [s[0]] + s[1..] == s;
    }
  }

  /** Text joined by a newline splits into the pieces of each side. */
  lemma {:induction false} SplitAppend(x: string, y: string)
    ensures Split(x + "\n" + y) == Split(x) + Split(y)
  {
    if |x| == 0 {
      assert x + "\n" + y == "\n" + y;
      assert ("\n" + y)[1..] == y;
    } else {
      var s, t := x + "\n" + y, x[1..];
      assert s[0] == x[0];
      assert s[1..] == t + "\n" + y;
      SplitAppend(t, y);
      var a, b := Split(t), Split(y);
      if x[0] == '\n' {
        AppendAssoc([[]], a, b);
      } else {
        FrontTail(a, b);
        AppendAssoc([[x[0]] + a[0]], a[1..], b);
      }
    }
  }

  /** The trimmed pieces that are not empty, in order (the loops at lines 244-247 and 281-284). */
  function NonEmptyTrimmed(pieces: seq<string>): seq<string>
  {
    if |pieces| == 0 then [] else NonEmptyTrimmed(pieces[..|pieces| - 1]) + Kept(pieces[|pieces| - 1])
  }

  /** The display line a single piece contributes: its trimmed text, unless that is empty. */
  function Kept(piece: string): seq<string>
  {
    var line := Trim(piece);
    if |line| > 0 then [line] else []
  }

  lemma {:induction false} NonEmptyTrimmedConcat(a: seq<string>, b: seq<string>)
    ensures NonEmptyTrimmed(a + b) == NonEmptyTrimmed(a) + NonEmptyTrimmed(b)
  {
    if |b| == 0 {
      assert a + b == a;
    } else {
      var ab, front, last := a + b, b[..|b| - 1], b[|b| - 1];
      assert ab[..|ab| - 1] == a + front && ab[|ab| - 1] == last;
      var k := Kept(last);
      assert NonEmptyTrimmed(ab) == NonEmptyTrimmed(a + front) + k;
      assert NonEmptyTrimmed(b) == NonEmptyTrimmed(front) + k;
      NonEmptyTrimmedConcat(a, front);
      AppendAssoc(NonEmptyTrimmed(a), NonEmptyTrimmed(front), k);
    }
  }

  /** A single piece contributes its own display line, if any. */
  lemma NonEmptyTrimmedSingle(piece: string)
    ensures NonEmptyTrimmed([piece]) == Kept(piece)
  {
    assert [piece][..0] == [];
  }

  /** The piece a display line comes from contains it, so it has no newline either. */
  lemma KeptWellFormed(piece: string)
    requires '\n' !in piece
    ensures DisplayLines(Kept(piece)) && NoNewlines(Kept(piece))
  {
    TrimShape(piece);
    var t, start := Trim(piece), |piece| - |TrimStart(piece)|;
    assert forall k :: 0 <= k < |t| ==> t[k] == piece[start + k];
  }

  /** Every line taken from newline-free pieces is non-empty, trimmed and newline-free. */
  lemma {:induction false} NonEmptyTrimmedWellFormed(pieces: seq<string>)
    requires NoNewlines(pieces)
    ensures DisplayLines(NonEmptyTrimmed(pieces)) && NoNewlines(NonEmptyTrimmed(pieces))
  {
    if |pieces| > 0 {
      var front, last := pieces[..|pieces| - 1], pieces[|pieces| - 1];
      NonEmptyTrimmedWellFormed(front);
      KeptWellFormed(last);
      var r, f, k := NonEmptyTrimmed(pieces), NonEmptyTrimmed(front), Kept(last);
      assert r == f + k;
      assert forall i :: 0 <= i < |r| ==> r[i] == if i < |f| then f[i] else k[i - |f|];
    }
  }

  /** The lines the file path takes from a block of text: every piece, including a trailing
      fragment that has no newline after it. */
  function FileLines(data: string): seq<string>
  {
    NonEmptyTrimmed(Split(data))
  }

  /** Every line the file path produces is non-empty, trimmed and free of newlines. */
  lemma FileLinesWellFormed(data: string)
    ensures DisplayLines(FileLines(data)) && NoNewlines(FileLines(data))
  {
    SplitNoNewlines(data);
    NonEmptyTrimmedWellFormed(Split(data));
  }

  /** Reading two newline-separated parts one after the other gives the lines of the whole. */
  lemma FileLinesConcat(x: string, y: string)
    ensures FileLines(x + "\n" + y) == FileLines(x) + FileLines(y)
  {
    SplitAppend(x, y);
    NonEmptyTrimmedConcat(Split(x), Split(y));
  }

  /** The file path does NOT keep a line whole when it is written in two parts: the fragment
      present at the first read becomes a line of its own. */
  lemma FileTailSplitsPartialLine(x: string, y: string)
    requires '\n' !in x && |x| > 0 && IsTrimmed(x)
    requires '\n' !in y && |y| > 0 && IsTrimmed(y)
    ensures FileLines(x) + FileLines(y + "\n") == [x, y]
    ensures FileLines(x + y + "\n") == [x + y]
  {
    OneLine(x);
    OneLine(y);
    var xy := x + y;
    assert xy[0] == x[0] && xy[|xy| - 1] == y[|y| - 1];
    assert '\n' !in xy;
    OneLine(xy);
  }

  /** A line of non-blank text followed by a newline, or by nothing, reads as that line. */
  lemma OneLine(s: string)
    requires '\n' !in s && |s| > 0 && IsTrimmed(s)
    ensures FileLines(s) == [s]
    ensures FileLines(s + "\n") == [s]
  {
    TrimOfTrimmed(s);
    SplitNoNewline(s);
    NonEmptyTrimmedSingle(s);
    FileLinesConcat(s, "");
    AppendEmpty(s + "\n");
    NoLinesInEmptyFile();
    AppendEmpty([s]);
  }

  /** A trimmed string is its own trimmed form. */
  lemma TrimOfTrimmed(s: string)
    requires IsTrimmed(s)
    ensures Trim(s) == s
  {
    TrimUnique([], s, []);
    AppendEmpty(s);
  }

  /** An empty file has no lines. */
  lemma NoLinesInEmptyFile()
    ensures FileLines([]) == []
  {
    NonEmptyTrimmedSingle([]);
    assert Trim([]) == [];
  }

  // ---- The journal path: only complete lines are consumed ----

  /** The lines the journal path takes from its read buffer: every piece that is followed
      by a newline. */
  function CompleteLines(buffer: string): seq<string>
  {
    var pieces := Split(buffer);
    NonEmptyTrimmed(pieces[..|pieces| - 1])
  }

  /** What stays in the read buffer: the text after the last newline. */
  function Pending(buffer: string): string
  {
    var pieces := Split(buffer);
    pieces[|pieces| - 1]
  }

  lemma {:induction false} JoinLast(pieces: seq<string>)
    requires |pieces| > 1
    ensures Join(pieces) == Join(pieces[..|pieces| - 1]) + "\n" + pieces[|pieces| - 1]
  {
    if |pieces| > 2 {
      var rest, front := pieces[1..], pieces[..|pieces| - 1];
      JoinLast(rest);
      assert front[1..] == rest[..|rest| - 1];
      var a := Join(rest[..|rest| - 1]);
      assert Join(front) == pieces[0] + "\n" + a;
      Regroup(pieces[0], "\n", a, pieces[|pieces| - 1]);
    }
  }

  /** The pending text is a newline-free suffix of the buffer, preceded by a newline unless
      it is the whole buffer. */
  lemma PendingIsTail(buffer: string)
    ensures '\n' !in Pending(buffer)
    ensures |Pending(buffer)| <= |buffer|
    ensures buffer[|buffer| - |Pending(buffer)|..] == Pending(buffer)
    ensures |Pending(buffer)| < |buffer| ==> buffer[|buffer| - |Pending(buffer)| - 1] == '\n'
  {
    var pieces := Split(buffer);
    SplitNoNewlines(buffer);
    JoinSplit(buffer);
    if |pieces| > 1 {
      JoinLast(pieces);
      var j := Join(pieces[..|pieces| - 1]);
      assert buffer == j + "\n" + Pending(buffer);
    }
  }

  /** Complete lines, then the pending fragment if it is not blank, are what the file path
      would take from the same text. */
  lemma CompleteLinesThenPending(buffer: string)
    ensures FileLines(buffer) == CompleteLines(buffer) + Kept(Pending(buffer))
  {
    var pieces := Split(buffer);
    var front := pieces[..|pieces| - 1];
    assert pieces == front + [pieces[|pieces| - 1]];
    NonEmptyTrimmedConcat(front, [pieces[|pieces| - 1]]);
    assert [pieces[|pieces| - 1]][..0] == [];
  }

  /** Chunk boundaries do not matter on the journal path: draining after each chunk yields
      the same lines, and leaves the same pending text, as draining once at the end. */
  lemma ChunkedReadsAgree(a: string, b: string)
    ensures CompleteLines(a) + CompleteLines(Pending(a) + b) == CompleteLines(a + b)
    ensures Pending(Pending(a) + b) == Pending(a + b)
  {
    var pa := Split(a);
    var r := Pending(a);
    JoinSplit(a);
    if |pa| == 1 {
      assert a == r;
      assert pa[..0] == [];
    } else {
      var front := pa[..|pa| - 1];
      JoinLast(pa);
      SplitNoNewlines(a);
      assert NoNewlines(front);
      var j := Join(front);
      assert a == j + "\n" + r;
      assert a + b == j + "\n" + (r + b);
      CompleteLinesPrefixed(front, r);
      CompleteLinesPrefixed(front, r + b);
      NoCompleteLine(r);
    }
  }

  /** Text that follows complete pieces and a newline adds its own complete lines to theirs
      and keeps its own pending text. */
  lemma CompleteLinesPrefixed(front: seq<string>, t: string)
    requires |front| >= 1 && NoNewlines(front)
    ensures CompleteLines(Join(front) + "\n" + t) == NonEmptyTrimmed(front) + CompleteLines(t)
    ensures Pending(Join(front) + "\n" + t) == Pending(t)
  {
    var j := Join(front);
    var pt := Split(t);
    var whole := Split(j + "\n" + t);
    assert CompleteLines(j + "\n" + t) == NonEmptyTrimmed(whole[..|whole| - 1]);
    assert CompleteLines(t) == NonEmptyTrimmed(pt[..|pt| - 1]);
    SplitJoin(front);
    SplitAppend(j, t);
    assert whole == front + pt;
    DropLastAppend(front, pt);
    NonEmptyTrimmedConcat(front, pt[..|pt| - 1]);
  }


  /** Index of the first occurrence of c. */
  function IndexOf(s: string, c: char): (k: nat)
    requires c in s
    ensures k < |s| && s[k] == c
    ensures forall j :: 0 <= j < k ==> s[j] != c
  {
    if s[0] == c then 0 else 1 + IndexOf(s[1..], c)
  }

  /** A newline-free line in front of the rest of the buffer is its first complete line. */
  lemma CompleteLinesCons(x: string, y: string)
    requires '\n' !in x
    ensures CompleteLines(x + "\n" + y) == Kept(x) + CompleteLines(y)
    ensures Pending(x + "\n" + y) == Pending(y)
  {
    SplitAppend(x, y);
    SplitNoNewline(x);
    var py, pb := Split(y), Split(x + "\n" + y);
    DropLastAppend([x], py);
    NonEmptyTrimmedConcat([x], py[..|py| - 1]);
    NonEmptyTrimmedSingle(x);
  }

  /** One readLine: the text up to and including the first newline gives the first complete
      line (if it is not blank); the rest of the buffer holds the remaining lines. */
  lemma ReadLineStep(buffer: string)
    requires '\n' in buffer
    ensures var k := IndexOf(buffer, '\n');
      && CompleteLines(buffer) == Kept(buffer[..k + 1]) + CompleteLines(buffer[k + 1..])
      && Pending(buffer) == Pending(buffer[k + 1..])
  {
    var k := IndexOf(buffer, '\n');
    var x, y := buffer[..k], buffer[k + 1..];
    assert buffer == x + "\n" + y;
    assert forall j :: 0 <= j < |x| ==> x[j] == buffer[j];
    CompleteLinesCons(x, y);
    assert buffer[..k + 1] == x + ['\n'];
    TrimDropsTrailingSpace(x, '\n');
  }

  /** Without a newline in the buffer there is no complete line and everything is pending. */
  lemma NoCompleteLine(buffer: string)
    requires '\n' !in buffer
    ensures CompleteLines(buffer) == []
    ensures Pending(buffer) == buffer
  {
    SplitNoNewline(buffer);
  }
}
