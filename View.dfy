/**
 * The log view (a read-only QPlainTextEdit): a list of text blocks, each shown in one
 * colour, with a maximum block count.  When the count is positive and exceeded, the
 * oldest blocks are dropped; a count of zero or less means no limit.
 */
module View {
  import opened Classifier
  import opened Seqs

  /** One block of the view: its text and the colour it is shown in. */
  datatype Entry = Entry(text: string, severity: Severity)

  /** The blocks left once the maximum block count n is enforced. */
  function Evict(blocks: seq<Entry>, n: int): seq<Entry> {
    if n > 0 && |blocks| > n then blocks[|blocks| - n..] else blocks
  }

  /** The characters at which QTextCursor::insertText ends a block and starts the next: line
      feed, carriage return, the paragraph separator and Qt's two frame markers. */
  predicate IsBlockSeparator(c: char) {
    c == '\n' || c == '\r' || c == '\U{2029}' || c == '\U{FDD0}' || c == '\U{FDD1}'
  }

  /** Text that insertText keeps in one block. */
  ghost predicate SeparatorFree(s: string) {
    forall i :: 0 <= i < |s| ==> !IsBlockSeparator(s[i])
  }

  /** The block texts insertText makes of s: a new block at every separator, where a carriage
      return followed by a line feed counts as one separator. */
  function Pieces(s: string): (r: seq<string>)
    ensures |r| >= 1
    decreases |s|
  {
    if |s| == 0 then [""]
    else if s[0] == '\r' && |s| > 1 && s[1] == '\n' then [""] + Pieces(s[2..])
    else if IsBlockSeparator(s[0]) then [""] + Pieces(s[1..])
    else var r := Pieces(s[1..]); [[s[0]] + r[0]] + r[1..]
  }

  /** Block texts, all in one colour. */
  function Coloured(pieces: seq<string>, s: Severity): seq<Entry> {
    if |pieces| == 0 then [] else [Entry(pieces[0], s)] + Coloured(pieces[1..], s)
  }

  /** The blocks one line of appendLines becomes: its pieces, each in the colour colorForLine
      picks for the whole line. */
  function EntriesFor(line: string): seq<Entry> {
    Coloured(Pieces(line), ClassifyLine(line))
  }

  /** A line in the colour colorForLine picks for it. */
  function EntryFor(line: string): Entry {
    Entry(line, ClassifyLine(line))
  }

  /** The blocks lines become, in order, every block of a line in the colour paint gives
      that line. */
  function TaggedBy(lines: seq<string>, paint: string -> Severity): seq<Entry> {
    if |lines| == 0 then []
    else
      var last := lines[|lines| - 1];
      TaggedBy(lines[..|lines| - 1], paint) + Coloured(Pieces(last), paint(last))
  }

  /** The blocks the lines of appendLines become, in order, each line's blocks in the colour
      colorForLine picks for it. */
  function Tagged(lines: seq<string>): seq<Entry> {
    TaggedBy(lines, ClassifyLine)
  }

  /** QTextCursor::position() once the cursor is moved to the end: every character and
      every separator between two blocks. */
  function EndPosition(blocks: seq<Entry>): nat {
    if |blocks| == 0 then 0
    else if |blocks| == 1 then |blocks[0].text|
    else EndPosition(blocks[..|blocks| - 1]) + 1 + |blocks[|blocks| - 1].text|
  }

  /** The cursor at the end is at position 0: the document is empty, or its only block
      holds no text. */
  predicate AtStart(blocks: seq<Entry>) {
    |blocks| == 0 || (|blocks| == 1 && |blocks[0].text| == 0)
  }

  /** The blocks that stay in front of a line appendLines inserts: all of them, unless the
      cursor is at position 0, where the line's first piece goes into the empty block. */
  function Before(blocks: seq<Entry>): seq<Entry> {
    if AtStart(blocks) then [] else blocks
  }

  /** All blocks but the last. */
  function ButLast(blocks: seq<Entry>): seq<Entry> {
    if |blocks| == 0 then [] else blocks[..|blocks| - 1]
  }

  /** What appendLines leaves: nothing changes for no lines; otherwise the lines' blocks
      follow the blocks before them and the limit is enforced. */
  function Appended(blocks: seq<Entry>, lines: seq<string>, n: int): seq<Entry> {
    if |lines| == 0 then blocks else Evict(Before(blocks) + Tagged(lines), n)
  }

  /** The last block in another colour, as appendLine's mergeCharFormat leaves it. */
  function Recoloured(blocks: seq<Entry>, s: Severity): seq<Entry> {
    if |blocks| == 0 then blocks
    else blocks[..|blocks| - 1] + [Entry(blocks[|blocks| - 1].text, s)]
  }

  /** The cursor is past position 0 exactly when some block holds text or there are two
      blocks or more. */
  lemma EndPositionZero(blocks: seq<Entry>)
    ensures EndPosition(blocks) == 0 <==> AtStart(blocks)
  {
  }

  /** The pieces written one after the other. */
  function Flatten(pieces: seq<string>): string {
    if |pieces| == 0 then "" else pieces[0] + Flatten(pieces[1..])
  }

  /** The text without its separators. */
  function Visible(s: string): string {
    if |s| == 0 then ""
    else (if IsBlockSeparator(s[0]) then "" else [s[0]]) + Visible(s[1..])
  }

  /** Splitting into blocks loses nothing but the separators: the blocks' texts, one after
      the other, are the text with its separators removed. */
  lemma {:induction false} PiecesKeepText(s: string)
    ensures Flatten(Pieces(s)) == Visible(s)
    decreases |s|
  {
    if |s| == 0 {
    } else if s[0] == '\r' && |s| > 1 && s[1] == '\n' {
      PiecesKeepText(s[2..]);
      assert s[1..][1..] == s[2..];
      assert Visible(s[1..]) == Visible(s[2..]);
      assert Flatten(Pieces(s)) == "" + Flatten(Pieces(s[2..]));
    } else if IsBlockSeparator(s[0]) {
      PiecesKeepText(s[1..]);
      assert Flatten(Pieces(s)) == "" + Flatten(Pieces(s[1..]));
    } else {
      var r := Pieces(s[1..]);
      PiecesKeepText(s[1..]);
      assert Flatten(r) == r[0] + Flatten(r[1..]);
      assert Flatten(Pieces(s)) == ([s[0]] + r[0]) + Flatten(r[1..]);
      AppendAssoc([s[0]], r[0], Flatten(r[1..]));
    }
  }

  /** No piece holds a separator. */
  lemma {:induction false} PiecesSeparatorFree(s: string)
    ensures forall i :: 0 <= i < |Pieces(s)| ==> SeparatorFree(Pieces(s)[i])
    decreases |s|
  {
    if |s| == 0 {
    } else if s[0] == '\r' && |s| > 1 && s[1] == '\n' {
      PiecesSeparatorFree(s[2..]);
    } else if IsBlockSeparator(s[0]) {
      PiecesSeparatorFree(s[1..]);
    } else {
      var r := Pieces(s[1..]);
      PiecesSeparatorFree(s[1..]);
      var h := [s[0]] + r[0];
      assert SeparatorFree(h) by {
        assert forall i :: 1 <= i < |h| ==> h[i] == r[0][i - 1];
      }
      assert Pieces(s) == [h] + r[1..];
      assert forall i :: 1 <= i < |Pieces(s)| ==> Pieces(s)[i] == r[i];
    }
  }

  /** Joining separator-free text gives separator-free text. */
  lemma SeparatorFreeConcat(a: string, b: string)
    requires SeparatorFree(a) && SeparatorFree(b)
    ensures SeparatorFree(a + b)
  {
  }

  /** Text stays in one block exactly when it holds no separator. */
  lemma PiecesOfPlain(s: string)
    ensures Pieces(s) == [s] <==> SeparatorFree(s)
  {
    if SeparatorFree(s) {
      PlainPieces(s);
    }
    if Pieces(s) == [s] {
      PiecesSeparatorFree(s);
      assert SeparatorFree(Pieces(s)[0]);
    }
  }

  /** Separator-free text is a single piece. */
  lemma {:induction false} PlainPieces(s: string)
    requires SeparatorFree(s)
    ensures Pieces(s) == [s]
    decreases |s|
  {
    if |s| > 0 {
      var t := s[1..];
      assert forall i :: 0 <= i < |t| ==> t[i] == s[i + 1];
      PlainPieces(t);
      var r := Pieces(t);
      assert !IsBlockSeparator(s[0]);
      assert Pieces(s) == [[s[0]] + r[0]] + r[1..];
      assert [s[0]] + t == s;
    }
  }

  /** A single piece is the whole text. */
  lemma {:induction false} PiecesSingle(s: string)
    requires |Pieces(s)| == 1
    ensures Pieces(s) == [s]
    decreases |s|
  {
    if |s| > 0 {
      PiecesSingle(s[1..]);
      assert [s[0]] + s[1..] == s;
    }
  }

  /** Separator-free text, then one separator: its pieces are that text, then the pieces
      of what follows.  A carriage return directly before a line feed is left out here; the
      two count as one separator (PiecesAfterCrLf). */
  lemma {:induction false} PiecesAfterSeparator(p: string, c: char, rest: string)
    requires SeparatorFree(p) && IsBlockSeparator(c)
    requires c == '\r' ==> |rest| == 0 || rest[0] != '\n'
    ensures Pieces(p + [c] + rest) == [p] + Pieces(rest)
    decreases |p|
  {
    var s := p + [c] + rest;
    if |p| == 0 {
      assert s == [c] + rest && s[1..] == rest;
    } else {
      var t := p[1..];
      assert forall i :: 0 <= i < |t| ==> t[i] == p[i + 1];
      PiecesAfterSeparator(t, c, rest);
      assert s[0] == p[0] && s[1..] == t + [c] + rest;
      assert [p[0]] + t == p;
    }
  }

  /** A carriage return and a line feed end one block together. */
  lemma {:induction false} PiecesAfterCrLf(p: string, rest: string)
    requires SeparatorFree(p)
    ensures Pieces(p + "\r\n" + rest) == [p] + Pieces(rest)
    decreases |p|
  {
    var s := p + "\r\n" + rest;
    if |p| == 0 {
      assert s == "\r\n" + rest && s[2..] == rest;
    } else {
      var t := p[1..];
      assert forall i :: 0 <= i < |t| ==> t[i] == p[i + 1];
      PiecesAfterCrLf(t, rest);
      assert s[0] == p[0] && s[1..] == t + "\r\n" + rest;
      assert [p[0]] + t == p;
    }
  }

  /** Tagging one more line adds its blocks at the end. */
  lemma TaggedSnoc(lines: seq<string>, i: nat)
    requires i < |lines|
    ensures Tagged(lines[..i + 1]) == Tagged(lines[..i]) + EntriesFor(lines[i])
  {
    PrefixSnoc(lines, i);
    TaggedByLast(lines[..i + 1], ClassifyLine);
  }

  /** The last line's blocks come last. */
  lemma TaggedByLast(lines: seq<string>, paint: string -> Severity)
    requires |lines| > 0
    ensures var last := lines[|lines| - 1];
      TaggedBy(lines, paint) == TaggedBy(lines[..|lines| - 1], paint) + Coloured(Pieces(last), paint(last))
  {
  }

  /** A single line is tagged as its own blocks. */
  lemma TaggedOne(line: string)
    ensures Tagged([line]) == EntriesFor(line)
  {
    TaggedByLast([line], ClassifyLine);
    assert [line][..0] == [];
    AppendEmpty(EntriesFor(line));
  }

  /** Every line makes at least one block. */
  lemma TaggedLength(lines: seq<string>)
    ensures |Tagged(lines)| >= |lines|
  {
    TaggedByLength(lines, ClassifyLine);
  }

  /** Every line makes at least one block, and exactly one when no line holds a separator. */
  lemma {:induction false} TaggedByLength(lines: seq<string>, paint: string -> Severity)
    ensures |TaggedBy(lines, paint)| >= |lines|
    ensures (forall i :: 0 <= i < |lines| ==> SeparatorFree(lines[i])) ==>
      |TaggedBy(lines, paint)| == |lines|
  {
    if |lines| > 0 {
      var front, last := lines[..|lines| - 1], lines[|lines| - 1];
      TaggedByLength(front, paint);
      ColouredLength(Pieces(last), paint(last));
      if forall i :: 0 <= i < |lines| ==> SeparatorFree(lines[i]) {
        assert forall i :: 0 <= i < |front| ==> front[i] == lines[i];
        PlainPieces(last);
      }
    }
  }

  /** One block per piece. */
  lemma {:induction false} ColouredLength(pieces: seq<string>, s: Severity)
    ensures |Coloured(pieces, s)| == |pieces|
  {
    if |pieces| > 0 {
      ColouredLength(pieces[1..], s);
    }
  }

  /** Block i holds piece i, in the one colour given to all of them. */
  lemma {:induction false} ColouredAt(pieces: seq<string>, s: Severity, i: nat)
    requires i < |pieces|
    ensures |Coloured(pieces, s)| == |pieces| && Coloured(pieces, s)[i] == Entry(pieces[i], s)
  {
    ColouredLength(pieces, s);
    if i > 0 {
      ColouredAt(pieces[1..], s, i - 1);
    }
  }

  /** A line becomes one block per piece, and every one of them is in the colour
      colorForLine picks for the whole line. */
  lemma LineBlocks(line: string)
    ensures |EntriesFor(line)| == |Pieces(line)|
    ensures forall i :: 0 <= i < |Pieces(line)| ==>
      EntriesFor(line)[i] == Entry(Pieces(line)[i], ClassifyLine(line))
  {
    ColouredLength(Pieces(line), ClassifyLine(line));
    forall i | 0 <= i < |Pieces(line)|
      ensures EntriesFor(line)[i] == Entry(Pieces(line)[i], ClassifyLine(line))
    {
      ColouredAt(Pieces(line), ClassifyLine(line), i);
    }
  }

  /** A carriage return inside a line starts a second block. */
  lemma CarriageReturnSplits()
    ensures Pieces("a\rb") == ["a", "b"]
  {
    PiecesAfterSeparator("a", '\r', "b");
    PlainPieces("b");
    assert "a" + ['\r'] + "b" == "a\rb";
  }

  /** A non-empty line leaves the cursor past position 0, whatever came before it. */
  lemma NotAtStartAfter(blocks: seq<Entry>, line: string)
    requires |line| > 0
    ensures !AtStart(blocks + EntriesFor(line))
  {
    ColouredLength(Pieces(line), ClassifyLine(line));
    if |Pieces(line)| == 1 {
      PiecesSingle(line);
    }
  }

  /** Enforcing the limit keeps the newest blocks, in order, and as many of them as the limit
      allows; nothing is dropped when there is no limit or it is not exceeded. */
  lemma EvictKeepsNewest(blocks: seq<Entry>, n: int)
    ensures var r := Evict(blocks, n);
      && |r| <= |blocks| && r == blocks[|blocks| - |r|..]
      && (n > 0 ==> |r| == if |blocks| <= n then |blocks| else n)
      && (n <= 0 ==> r == blocks)
  {
  }

  /** Enforcing the limit again changes nothing. */
  lemma EvictIdempotent(blocks: seq<Entry>, n: int)
    ensures Evict(Evict(blocks, n), n) == Evict(blocks, n)
  {
  }

  /** Enforcing the limit after every insertion or once after all of them gives the same
      view: blocks dropped early would have been dropped at the end as well. */
  lemma {:induction false} EvictAppend(blocks: seq<Entry>, more: seq<Entry>, n: int)
    ensures Evict(Evict(blocks, n) + more, n) == Evict(blocks + more, n)
  {
    if n > 0 && |blocks| > n {
      var k := |blocks| - n;
      var all := blocks + more;
      assert blocks[k..] + more == all[k..];
      if |all[k..]| > n {
        assert all[k..][|all[k..]| - n..] == all[|all| - n..];
      }
    }
  }

  /** The line appended last is always shown, whatever the limit. */
  lemma EvictShowsLast(blocks: seq<Entry>, e: Entry, n: int)
    ensures var r := Evict(blocks + [e], n); |r| > 0 && r[|r| - 1] == e
  {
  }

  /** Recolouring the newest block after enforcing the limit is the same as appending it
      in its new colour. */
  lemma EvictReplaceLast(blocks: seq<Entry>, e: Entry, f: Entry, n: int)
    ensures var r := Evict(blocks + [e], n);
      |r| > 0 && r[|r| - 1] == e && r[..|r| - 1] + [f] == Evict(blocks + [f], n)
  {
    var r := Evict(blocks + [e], n);
    var q := Evict(blocks + [f], n);
    assert |r| == |q|;
    assert forall i :: 0 <= i < |r| - 1 ==> r[i] == q[i];
  }

  /** Tagging works line by line, so it distributes over concatenation. */
  lemma TaggedConcat(a: seq<string>, b: seq<string>)
    ensures Tagged(a + b) == Tagged(a) + Tagged(b)
  {
    TaggedByConcat(a, b, ClassifyLine);
  }

  /** Building blocks distributes over concatenation, whatever the colouring. */
  lemma {:induction false} TaggedByConcat(a: seq<string>, b: seq<string>, paint: string -> Severity)
    ensures TaggedBy(a + b, paint) == TaggedBy(a, paint) + TaggedBy(b, paint)
    decreases |b|
  {
    if |b| == 0 {
      assert a + b == a;
      AppendEmpty(TaggedBy(a, paint));
    } else {
      var c, last := b[..|b| - 1], b[|b| - 1];
      var ab := a + b;
      assert ab[..|ab| - 1] == a + c && ab[|ab| - 1] == last;
      var e := Coloured(Pieces(last), paint(last));
      assert TaggedBy(ab, paint) == TaggedBy(a + c, paint) + e;
      assert TaggedBy(b, paint) == TaggedBy(c, paint) + e;
      TaggedByConcat(a, c, paint);
      AppendAssoc(TaggedBy(a, paint), TaggedBy(c, paint), e);
    }
  }

  /** Lines without separators become one block each: the line's text, in the colour
      colorForLine picks for it. */
  lemma TaggedPlain(lines: seq<string>)
    requires forall i :: 0 <= i < |lines| ==> SeparatorFree(lines[i])
    ensures |Tagged(lines)| == |lines|
    ensures forall i :: 0 <= i < |lines| ==> Tagged(lines)[i] == EntryFor(lines[i])
  {
    TaggedByLength(lines, ClassifyLine);
    forall i | 0 <= i < |lines|
      ensures Tagged(lines)[i] == EntryFor(lines[i])
    {
      TaggedByAt(lines, ClassifyLine, i);
    }
  }

  /** A line without separators is one block. */
  lemma PlainEntries(line: string)
    requires SeparatorFree(line)
    ensures EntriesFor(line) == [EntryFor(line)]
  {
    PlainPieces(line);
    ColouredOne(line, ClassifyLine(line));
  }

  /** One piece is one block. */
  lemma ColouredOne(piece: string, s: Severity)
    ensures Coloured([piece], s) == [Entry(piece, s)]
  {
    assert [piece][1..] == [];
  }

  /** When no line holds a separator, block i is line i in the colour paint gives it. */
  lemma {:induction false} TaggedByAt(lines: seq<string>, paint: string -> Severity, i: nat)
    requires forall i :: 0 <= i < |lines| ==> SeparatorFree(lines[i])
    requires i < |lines|
    ensures |TaggedBy(lines, paint)| == |lines|
    ensures TaggedBy(lines, paint)[i] == Entry(lines[i], paint(lines[i]))
  {
    TaggedByLength(lines, paint);
    var front, last := lines[..|lines| - 1], lines[|lines| - 1];
    assert forall i :: 0 <= i < |front| ==> front[i] == lines[i];
    var t := TaggedBy(lines, paint);
    PlainPieces(last);
    TaggedByLength(front, paint);
    ColouredOne(last, paint(last));
    assert t == TaggedBy(front, paint) + [Entry(last, paint(last))];
    if i < |front| {
      TaggedByAt(front, paint, i);
      assert t[i] == TaggedBy(front, paint)[i];
    }
  }

  /** Separator-free lines that fit within the limit are all shown, one block each, on an
      empty view. */
  lemma ShownWhole(lines: seq<string>, n: int)
    requires forall i :: 0 <= i < |lines| ==> SeparatorFree(lines[i])
    requires n > 0 ==> |lines| <= n
    ensures Appended([], lines, n) == Tagged(lines)
  {
    TaggedByLength(lines, ClassifyLine);
    FitsWhole(lines, n);
  }

  /** Blocks that fit within the limit are all shown on an empty view. */
  lemma FitsWhole(lines: seq<string>, n: int)
    requires n > 0 ==> |Tagged(lines)| <= n
    ensures Appended([], lines, n) == Tagged(lines)
  {
    if |lines| > 0 {
      var t := Tagged(lines);
      assert Before([]) + t == t;
    }
  }

  /** Enforcing the limit keeps a view past position 0 there, unless the limit is a single
      block. */
  lemma EvictAwayFromStart(blocks: seq<Entry>, n: int)
    requires !AtStart(blocks) && n != 1
    ensures !AtStart(Evict(blocks, n))
  {
  }

  /** With a limit of one block only the newest block is left. */
  lemma EvictToOne(blocks: seq<Entry>, more: seq<Entry>)
    requires |more| > 0
    ensures Evict(blocks + more, 1) == Evict(more, 1) == [more[|more| - 1]]
  {
  }

  /** Appending in two batches shows the same as appending all the lines at once, as long as
      the first batch's lines are not empty. */
  lemma AppendedConcat(blocks: seq<Entry>, a: seq<string>, b: seq<string>, n: int)
    requires forall i :: 0 <= i < |a| ==> |a[i]| > 0
    ensures Appended(Appended(blocks, a, n), b, n) == Appended(blocks, a + b, n)
  {
    if |a| == 0 {
      assert a + b == b;
    } else if |b| == 0 {
      assert a + b == a;
    } else {
      var ta, tb := Tagged(a), Tagged(b);
      var y := Before(blocks) + ta;
      var e := Evict(y, n);
      TaggedConcat(a, b);
      AppendAssoc(Before(blocks), ta, tb);
      assert Appended(blocks, a + b, n) == Evict(y + tb, n);
      TaggedLength(b);
      NotAtStartAfter(Before(blocks) + Tagged(a[..|a| - 1]), a[|a| - 1]);
      AppendAssoc(Before(blocks), Tagged(a[..|a| - 1]), EntriesFor(a[|a| - 1]));
      if n == 1 {
        EvictToOne(Before(e), tb);
        EvictToOne(y, tb);
      } else {
        EvictAwayFromStart(y, n);
        EvictAppend(y, tb, n);
      }
    }
  }

  /** A separator-free line that appendLine shows in colour s is one block in that colour,
      after the blocks before it. */
  lemma AppendLineShows(blocks: seq<Entry>, line: string, s: Severity, n: int)
    requires SeparatorFree(line)
    ensures Recoloured(Appended(blocks, [line], n), s) == Evict(Before(blocks) + [Entry(line, s)], n)
  {
    TaggedOne(line);
    PlainEntries(line);
    EvictReplaceLast(Before(blocks), EntryFor(line), Entry(line, s), n);
  }

  /** The QPlainTextEdit holding the displayed log.  No blocks at all stands for the empty
      document, whose only block holds no text. */
  class LogView {
    var blocks: seq<Entry>
    var maxBlocks: int

    /** The maximum block count holds. */
    ghost predicate Valid()
      reads this
    {
      maxBlocks > 0 ==> |blocks| <= maxBlocks
    }

    /** An empty view with the limit setupUi gives it. */
    constructor()
      ensures Valid() && |blocks| == 0 && maxBlocks == 500
    {
      blocks := [];
      maxBlocks := 500;
    }

    /** setMaximumBlockCount: the new limit takes effect at once. */
    method SetMaximumBlockCount(n: int)
      modifies this
      ensures Valid()
      ensures maxBlocks == n && blocks == Evict(old(blocks), n)
    {
      maxBlocks := n;
      blocks := Evict(blocks, n);
    }

    /** clear: no blocks; the limit stays. */
    method Clear()
      modifies this
      ensures Valid()
      ensures blocks == [] && maxBlocks == old(maxBlocks)
    {
      blocks := [];
    }

    /** insertBlock: a new empty block at the end.  Its colour is never seen, since the
        next insertText gives the text its own. */
    method InsertBlock()
      modifies this
      ensures blocks == (if |old(blocks)| == 0 then [Entry("", Plain)] else old(blocks)) + [Entry("", Plain)]
      ensures maxBlocks == old(maxBlocks)
    {
      if |blocks| == 0 {
        blocks := [Entry("", Plain)];
      }
      blocks := blocks + [Entry("", Plain)];
    }

    /** insertText into the empty last block, in one colour: the first piece fills that
        block and every further piece starts a new one.  The limit is enforced when the edit
        block ends. */
    method InsertText(text: string, s: Severity)
      requires |blocks| == 0 || |blocks[|blocks| - 1].text| == 0
      modifies this
      ensures blocks == ButLast(old(blocks)) + Coloured(Pieces(text), s)
      ensures maxBlocks == old(maxBlocks)
    {
      blocks := ButLast(blocks) + Coloured(Pieces(text), s);
    }

    /** endEditBlock: the blocks over the limit are dropped, the oldest first. */
    method EndEditBlock()
      modifies this
      ensures Valid()
      ensures blocks == Evict(old(blocks), maxBlocks) && maxBlocks == old(maxBlocks)
    {
      blocks := Evict(blocks, maxBlocks);
    }

    /** Selects the last block and merges a foreground colour into it. */
    method RecolorLast(s: Severity)
      modifies this
      ensures Valid() == old(Valid()) && maxBlocks == old(maxBlocks)
      ensures blocks == Recoloured(old(blocks), s)
    {
      if |blocks| > 0 {
        blocks := blocks[..|blocks| - 1] + [Entry(blocks[|blocks| - 1].text, s)];
      }
    }
  }
}
