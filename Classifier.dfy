/**
 * colorForLine: the severity colour of a log line, from keywords in its first 40
 * characters, upper-cased.  The five colours are modelled by the severity each stands for.
 */
module Classifier {

  /** #ff5555, #ffb86c, #6272a4, #8be9fd and #c8cee8, in that order. */
  datatype Severity = Error | Warning | Debug | Info | Plain

  /** How much of a line is inspected, in UTF-16 code units (QString::left). */
  const HeadUnits: nat := 40

  const ErrorWords: seq<string> := ["ERROR", "FATAL", "CRIT", "EMERG", "ALERT"]
  const WarningWords: seq<string> := ["WARN"]
  const DebugWords: seq<string> := ["DEBUG", "TRACE", "VERBOSE"]
  const InfoWords: seq<string> := ["INFO", "NOTICE"]

  /** UTF-16 code units a character occupies. */
  function Units(c: char): nat {
    if c as int >= 0x1_0000 then 2 else 1
  }

  /** UTF-16 length of a string. */
  function Width(s: string): nat {
    if |s| == 0 then 0 else Units(s[0]) + Width(s[1..])
  }

  /** QString::left(units): the longest prefix that fits in the given number of UTF-16 code
      units.  Where Qt would keep half of a surrogate pair this drops the whole character;
      a lone surrogate cannot be part of an ASCII keyword, so matching is unaffected. */
  function Head(line: string, units: nat): string {
    if |line| == 0 || Units(line[0]) > units then []
    else [line[0]] + Head(line[1..], units - Units(line[0]))
  }

  /** The head is the longest prefix of the line that fits in the given width. */
  lemma {:induction false} HeadShape(line: string, units: nat)
    ensures var h := Head(line, units);
      && |h| <= |line| && h == line[..|h|]
      && Width(h) <= units
      && (|h| < |line| ==> Width(h) + Units(line[|h|]) > units)
  {
    if |line| > 0 && Units(line[0]) <= units {
      var rest := Head(line[1..], units - Units(line[0]));
      HeadShape(line[1..], units - Units(line[0]));
      assert ([line[0]] + rest)[1..] == rest;
    }
  }

  /** QChar's full upper-case mapping, for ASCII letters and for every non-ASCII character
      whose upper case contains an ASCII letter (the only ones that can help form a
      keyword); any other character is kept as it is. */
  function UpperChar(c: char): string {
    if 'a' <= c <= 'z' then [(c as int - 32) as char]
    else if c == '\U{00DF}' then "SS"
    else if c == '\U{0131}' then "I"
    else if c == '\U{017F}' then "S"
    else if c == '\U{0149}' then "\U{02BC}N"
    else if c == '\U{01F0}' then "J\U{030C}"
    else if c == '\U{1E96}' then "H\U{0331}"
    else if c == '\U{1E97}' then "T\U{0308}"
    else if c == '\U{1E98}' then "W\U{030A}"
    else if c == '\U{1E99}' then "Y\U{030A}"
    else if c == '\U{1E9A}' then "A\U{02BE}"
    else if c == '\U{FB00}' then "FF"
    else if c == '\U{FB01}' then "FI"
    else if c == '\U{FB02}' then "FL"
    else if c == '\U{FB03}' then "FFI"
    else if c == '\U{FB04}' then "FFL"
    else if c == '\U{FB05}' || c == '\U{FB06}' then "ST"
    else [c]
  }

  /** QString::toUpper. */
  function Upper(s: string): string {
    if |s| == 0 then [] else UpperChar(s[0]) + Upper(s[1..])
  }

  /** The text colorForLine inspects. */
  function UpperHead(line: string): string {
    Upper(Head(line, HeadUnits))
  }

  /** word occurs in text at position i. */
  predicate OccursAt(word: string, text: string, i: nat) {
    i + |word| <= |text| && text[i..i + |word|] == word
  }

  /** word occurs in text at some position. */
  ghost predicate Occurs(word: string, text: string) {
    exists i: nat :: OccursAt(word, text, i)
  }

  /** Some word of the group occurs in text. */
  ghost predicate Mentions(text: string, words: seq<string>) {
    exists j :: 0 <= j < |words| && Occurs(words[j], text)
  }

  /** QString::contains. */
  function Contains(text: string, word: string): bool {
    if |text| < |word| then false
    else OccursAt(word, text, 0) || Contains(text[1..], word)
  }

  /** Contains finds word exactly when it occurs somewhere in text. */
  lemma {:induction false} ContainsOccurs(text: string, word: string)
    ensures Contains(text, word) <==> Occurs(word, text)
  {
    if |text| >= |word| && !OccursAt(word, text, 0) {
      ContainsOccurs(text[1..], word);
      assert forall i: nat :: OccursAt(word, text[1..], i) ==> OccursAt(word, text, i + 1) by {
        forall i: nat | OccursAt(word, text[1..], i) ensures OccursAt(word, text, i + 1) {
          assert text[1..][i..i + |word|] == text[i + 1..i + 1 + |word|];
        }
      }
      assert forall i: nat :: 1 <= i && OccursAt(word, text, i) ==> OccursAt(word, text[1..], i - 1) by {
        forall i: nat | 1 <= i && OccursAt(word, text, i) ensures OccursAt(word, text[1..], i - 1) {
          assert i - 1 + |word| <= |text[1..]|;
          assert text[1..][i - 1..i - 1 + |word|] == text[i..i + |word|];
        }
      }
    }
  }

  /** Does any word of the group occur in text? */
  function ContainsAny(text: string, words: seq<string>): bool {
    if |words| == 0 then false
    else Contains(text, words[0]) || ContainsAny(text, words[1..])
  }

  /** ContainsAny finds a word of the group exactly when one of them occurs in text. */
  lemma {:induction false} ContainsAnyMentions(text: string, words: seq<string>)
    ensures ContainsAny(text, words) <==> Mentions(text, words)
  {
    if |words| > 0 {
      ContainsOccurs(text, words[0]);
      ContainsAnyMentions(text, words[1..]);
      assert forall j :: 1 <= j < |words| ==> words[1..][j - 1] == words[j];
    }
  }

  /** colorForLine. */
  function ClassifyLine(line: string): Severity {
    var head := UpperHead(line);
    if ContainsAny(head, ErrorWords) then Error
    else if ContainsAny(head, WarningWords) then Warning
    else if ContainsAny(head, DebugWords) then Debug
    else if ContainsAny(head, InfoWords) then Info
    else Plain
  }

  /** The keyword groups are tried in a fixed order: an error word wins over everything,
      then a warning word, then a debug word, then an info word; with none of them the line
      is plain. */
  lemma ClassifyPrecedence(line: string)
    ensures var h := UpperHead(line);
      && (ClassifyLine(line) == Error <==> Mentions(h, ErrorWords))
      && (ClassifyLine(line) == Warning <==> !Mentions(h, ErrorWords) && Occurs("WARN", h))
      && (ClassifyLine(line) == Debug <==>
            !Mentions(h, ErrorWords) && !Occurs("WARN", h) && Mentions(h, DebugWords))
      && (ClassifyLine(line) == Info <==>
            !Mentions(h, ErrorWords) && !Occurs("WARN", h) && !Mentions(h, DebugWords) &&
            Mentions(h, InfoWords))
      && (ClassifyLine(line) == Plain <==>
            !Mentions(h, ErrorWords) && !Occurs("WARN", h) && !Mentions(h, DebugWords) &&
            !Mentions(h, InfoWords))
  {
    var h := UpperHead(line);
    ContainsAnyMentions(h, ErrorWords);
    ContainsAnyMentions(h, WarningWords);
    ContainsAnyMentions(h, DebugWords);
    ContainsAnyMentions(h, InfoWords);
    assert Mentions(h, WarningWords) <==> Occurs("WARN", h) by {
      assert WarningWords[0] == "WARN";
    }
  }

  /** Once the inspected width is filled, more text does not change the head. */
  lemma {:induction false} HeadIgnoresTail(line: string, rest: string, units: nat)
    requires Width(line) >= units
    ensures Head(line + rest, units) == Head(line, units)
  {
    if |line| > 0 {
      assert (line + rest)[0] == line[0];
      assert (line + rest)[1..] == line[1..] + rest;
      if Units(line[0]) <= units {
        HeadIgnoresTail(line[1..], rest, units - Units(line[0]));
      }
    }
  }

  /** Only the first 40 UTF-16 units matter: text beyond them never changes the colour. */
  lemma ClassifyIgnoresTail(line: string, rest: string)
    requires Width(line) >= HeadUnits
    ensures ClassifyLine(line + rest) == ClassifyLine(line)
  {
    HeadIgnoresTail(line, rest, HeadUnits);
  }

  /** Upper-casing a lower-case ASCII keyword gives the keyword, so keywords are matched in
      any letter case. */
  lemma {:induction false} UpperOfAscii(s: string)
    requires forall i :: 0 <= i < |s| ==> 'a' <= s[i] <= 'z' || 'A' <= s[i] <= 'Z'
    ensures |Upper(s)| == |s|
    ensures forall i :: 0 <= i < |s| ==>
      Upper(s)[i] == if 'a' <= s[i] <= 'z' then (s[i] as int - 32) as char else s[i]
  {
    if |s| > 0 {
      var c, t := s[0], s[1..];
      assert forall i :: 0 <= i < |t| ==> t[i] == s[i + 1];
      UpperOfAscii(t);
      UpperCharAscii(c);
      UpperCons(c, t);
      assert s == [c] + t;
      var u := Upper(s);
      forall i | 0 <= i < |s|
        ensures u[i] == if 'a' <= s[i] <= 'z' then (s[i] as int - 32) as char else s[i]
      {
        if i > 0 {
          assert u[i] == Upper(t)[i - 1] && s[i] == t[i - 1];
        }
      }
    }
  }

  /** An ASCII letter upper-cases to one letter. */
  lemma UpperCharAscii(c: char)
    requires 'a' <= c <= 'z' || 'A' <= c <= 'Z'
    ensures UpperChar(c) == [if 'a' <= c <= 'z' then (c as int - 32) as char else c]
  {
  }

  /** Upper-casing the first character and then the rest. */
  lemma UpperCons(c: char, s: string)
    ensures Upper([c] + s) == UpperChar(c) + Upper(s)
  {
    assert ([c] + s)[1..] == s;
  }

  /** Two lines whose characters upper-case alike and are equally wide, position by
      position, are inspected alike, so they get the same colour: keywords match in any
      letter case. */
  lemma CaseInsensitive(a: string, b: string)
    requires |a| == |b|
    requires forall i :: 0 <= i < |a| ==>
      UpperChar(a[i]) == UpperChar(b[i]) && Units(a[i]) == Units(b[i])
    ensures UpperHead(a) == UpperHead(b)
    ensures ClassifyLine(a) == ClassifyLine(b)
  {
    HeadsAgree(a, b, HeadUnits);
  }

  /** Heads of lines that agree character by character upper-case alike. */
  lemma {:induction false} HeadsAgree(a: string, b: string, units: nat)
    requires |a| == |b|
    requires forall i :: 0 <= i < |a| ==>
      UpperChar(a[i]) == UpperChar(b[i]) && Units(a[i]) == Units(b[i])
    ensures Upper(Head(a, units)) == Upper(Head(b, units))
  {
    if |a| > 0 && Units(a[0]) <= units {
      var ta, tb, rest := a[1..], b[1..], units - Units(a[0]);
      assert forall i :: 0 <= i < |ta| ==> ta[i] == a[i + 1] && tb[i] == b[i + 1];
      HeadsAgree(ta, tb, rest);
      UpperCons(a[0], Head(ta, rest));
      UpperCons(b[0], Head(tb, rest));
    }
  }

  /** The capital of an ASCII letter; any other character is itself. */
  function AsciiUpper(c: char): char {
    if 'a' <= c <= 'z' then (c as int - 32) as char else c
  }

  predicate IsAsciiLetter(c: char) {
    'a' <= c <= 'z' || 'A' <= c <= 'Z'
  }

  /** Changing the case of ASCII letters anywhere in a line never changes its colour. */
  lemma AsciiCaseInsensitive(a: string, b: string)
    requires |a| == |b|
    requires forall i :: 0 <= i < |a| ==>
      a[i] == b[i] || (IsAsciiLetter(a[i]) && IsAsciiLetter(b[i]) && AsciiUpper(a[i]) == AsciiUpper(b[i]))
    ensures ClassifyLine(a) == ClassifyLine(b)
  {
    forall i | 0 <= i < |a|
      ensures UpperChar(a[i]) == UpperChar(b[i]) && Units(a[i]) == Units(b[i])
    {
      if a[i] != b[i] {
        UpperCharAscii(a[i]);
        UpperCharAscii(b[i]);
      }
    }
    CaseInsensitive(a, b);
  }

  /** A line that starts with a lower-case "error" is an error line. */
  lemma LowerCaseKeyword(rest: string)
    ensures ClassifyLine("error" + rest) == Error
  {
    var line := "error" + rest;
    var h := Head(line, HeadUnits);
    HeadShape(line, HeadUnits);
    var n := if |h| < 5 then |h| else 5;
    AsciiWidth(line, n);
    assert |h| >= 5;
    assert h[..5] == "error";
    UpperPrefix(h, 5);
    var e := Upper("error");
    UpperError();
    var u := UpperHead(line);
    assert u == e + Upper(h[5..]);
    assert OccursAt(ErrorWords[0], u, 0);
  }

  /** The lower-case error keyword upper-cases to the keyword. */
  lemma UpperError()
    ensures Upper("error") == "ERROR"
  {
    UpperCons('r', "");
    assert ['r'] + "" == "r";
    UpperCons('o', "r");
    assert ['o'] + "r" == "or";
    UpperCons('r', "or");
    assert ['r'] + "or" == "ror";
    UpperCons('r', "ror");
    assert ['r'] + "ror" == "rror";
    UpperCons('e', "rror");
    assert ['e'] + "rror" == "error";
  }

  /** A prefix of one-unit characters is as wide as it is long. */
  lemma {:induction false} AsciiWidth(line: string, n: nat)
    requires n <= |line|
    requires forall i :: 0 <= i < n ==> Units(line[i]) == 1
    ensures Width(line[..n]) == n
  {
    if n > 0 {
      var t := line[1..];
      assert line[..n][1..] == t[..n - 1];
      AsciiWidth(t, n - 1);
    }
  }

  /** Upper-casing works character by character, so it maps a prefix to a prefix. */
  lemma {:induction false} UpperPrefix(s: string, n: nat)
    requires n <= |s|
    ensures Upper(s) == Upper(s[..n]) + Upper(s[n..])
  {
    if n > 0 {
      UpperPrefix(s[1..], n - 1);
      assert s[..n][1..] == s[1..][..n - 1];
      assert s[1..][n - 1..] == s[n..];
    } else {
      assert s[..0] == [];
      assert s[0..] == s;
    }
  }
}
