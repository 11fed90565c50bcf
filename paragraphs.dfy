/** The paragraph normaliser of the event-details screen (formatContent):
    three global replacements, a split on line feed and a trim of every piece.
    The whitespace predicate used by trim is a parameter; IsEcmaTrimmable is
    the set ECMAScript's String.prototype.trim strips. */
module Paragraphs {

  const Backslash: char := '\\'
  const LF: char := '\n'
  const CR: char := '\r'

  /** Literal backslash + r, as matched by the regular expression /\\r/ */
  const EscapedCr: string := [Backslash, 'r']
  /** Literal backslash + n, as matched by the regular expression /\\n/ */
  const EscapedLf: string := [Backslash, 'n']
  /** The control characters CR LF, as matched by the regular expression /\r\n/ */
  const CrLf: string := [CR, LF]

  /** String.prototype.replace with a global pattern that matches exactly the
      text `pat`: one left-to-right scan, matches do not overlap, and the text a
      replacement produces is never scanned again. */
  function ReplaceAll(s: string, pat: string, rep: string): (r: string)
    requires pat != []
    ensures |rep| <= |pat| ==> |r| <= |s|
    ensures rep == pat ==> r == s
    decreases |s|
  {
    if s == [] then []
    else if pat <= s then
      assert s == pat + s[|pat|..];
      rep + ReplaceAll(s[|pat|..], pat, rep)
    else [s[0]] + ReplaceAll(s[1..], pat, rep)
  }

  /** Line 17: every literal backslash + r is deleted.  Text without a
      backslash is left alone. */
  function RemoveEscapedCr(s: string): (r: string)
    ensures |r| <= |s|
    ensures Backslash !in s ==> r == s
  {
    if Backslash in s then ReplaceAll(s, EscapedCr, [])
    else ReplaceAbsent(s, EscapedCr, [], 0); ReplaceAll(s, EscapedCr, [])
  }

  /** Line 18: every literal backslash + n becomes a line feed, and no
      backslash + n is left over. */
  function UnescapeLf(s: string): (r: string)
    ensures |r| <= |s|
    ensures PairFree(r, Backslash, 'n')
    ensures Backslash !in s ==> r == s
  {
    ReplaceRemovesPair(s, Backslash, 'n', LF);
    if Backslash in s then ReplaceAll(s, EscapedLf, [LF])
    else ReplaceAbsent(s, EscapedLf, [LF], 0); ReplaceAll(s, EscapedLf, [LF])
  }

  /** Line 19: every CR LF becomes a line feed.  The pass adds and removes no
      line feed, so it decides no paragraph break by itself. */
  function CrLfToLf(s: string): (r: string)
    ensures |r| <= |s|
    ensures multiset(r)[LF] == multiset(s)[LF]
    ensures CR !in s ==> r == s
  {
    ReplaceKeepsCount(s, CrLf, LF);
    if CR in s then ReplaceAll(s, CrLf, [LF])
    else ReplaceAbsent(s, CrLf, [LF], 0); ReplaceAll(s, CrLf, [LF])
  }

  /** Lines 16-19: the three replacements, in source order.  The result holds
      no backslash + n, and text with no backslash and no CR is unchanged. */
  function Normalize(text: string): (r: string)
    ensures |r| <= |text|
    ensures PairFree(r, Backslash, 'n')
    ensures Backslash !in text && CR !in text ==> r == text
  {
    var unescaped := UnescapeLf(RemoveEscapedCr(text));
    ReplaceKeepsPairFree(unescaped, CrLf, LF, Backslash, 'n');
    CrLfToLf(unescaped)
  }

  /** String.prototype.split with a one-character separator: one piece more
      than there are separators, no piece holds a separator, and the first
      piece is a prefix of the input. */
  function Split(s: string, d: char): (parts: seq<string>)
    ensures |parts| == multiset(s)[d] + 1
    ensures forall i :: 0 <= i < |parts| ==> d !in parts[i]
    ensures parts[0] <= s
  {
    if s == [] then [[]]
    else
      assert s == [s[0]] + s[1..];
      var rest := Split(s[1..], d);
      if s[0] == d then [[]] + rest
      else [[s[0]] + rest[0]] + rest[1..]
  }

  /** Array.prototype.join with a one-character separator. */
  function Join(parts: seq<string>, d: char): string
  {
    if parts == [] then []
    else if |parts| == 1 then parts[0]
    else parts[0] + [d] + Join(parts[1..], d)
  }

  /** The characters String.prototype.trim strips (ECMA-262): the WhiteSpace
      set (TAB, VT, FF, ZWNBSP and every Zs space) and the LineTerminator set
      (LF, CR, LS, PS). */
  predicate IsEcmaTrimmable(c: char): (b: bool)
    ensures c == LF || c == CR || c == ' ' || c == '\t' ==> b
    ensures ('a' <= c <= 'z' || 'A' <= c <= 'Z' || '0' <= c <= '9' || c == Backslash) ==> !b
  {
    || c == '\t' || c == '\U{000B}' || c == '\U{000C}' || c == '\U{FEFF}'
    || c == ' ' || c == '\U{00A0}' || c == '\U{1680}'
    || ('\U{2000}' <= c <= '\U{200A}')
    || c == '\U{202F}' || c == '\U{205F}' || c == '\U{3000}'
    || c == '\n' || c == '\r' || c == '\U{2028}' || c == '\U{2029}'
  }

  /** The length of the run of spaces `s` starts with. */
  function LeadingSpaces(isSpace: char -> bool, s: string): (n: nat)
    ensures n <= |s|
    ensures forall k :: 0 <= k < n ==> isSpace(s[k])
    ensures n < |s| ==> !isSpace(s[n])
  {
    if s != [] && isSpace(s[0]) then 1 + LeadingSpaces(isSpace, s[1..]) else 0
  }

  /** The length of the run of spaces `s` ends with. */
  function TrailingSpaces(isSpace: char -> bool, s: string): (n: nat)
    ensures n <= |s|
    ensures forall k :: |s| - n <= k < |s| ==> isSpace(s[k])
    ensures n < |s| ==> !isSpace(s[|s| - 1 - n])
  {
    if s != [] && isSpace(s[|s| - 1]) then 1 + TrailingSpaces(isSpace, s[..|s| - 1]) else 0
  }

  /** Neither end of `s` is a space. */
  predicate Trimmed(isSpace: char -> bool, s: string)
  {
    s == [] || (!isSpace(s[0]) && !isSpace(s[|s| - 1]))
  }

  /** String.prototype.trim: `s` with its leading run and its trailing run of
      spaces cut off, both runs as long as they can be. */
  function Trim(isSpace: char -> bool, s: string): (r: string)
    ensures Trimmed(isSpace, r)
  {
    var t := s[LeadingSpaces(isSpace, s)..];
    t[..|t| - TrailingSpaces(isSpace, t)]
  }

  /** What trim cuts off is a run of spaces at the front (of length `lo`) and
      a run of spaces at the back; what it keeps is the text between them. */
  lemma TrimCutsSpaces(isSpace: char -> bool, s: string) returns (lo: nat)
    ensures var r := Trim(isSpace, s);
      && lo + |r| <= |s| && r == s[lo..lo + |r|]
      && (forall k :: 0 <= k < lo ==> isSpace(s[k]))
      && (forall k :: lo + |r| <= k < |s| ==> isSpace(s[k]))
  {
    lo := LeadingSpaces(isSpace, s);
    var t := s[lo..];
    var r := Trim(isSpace, s);
    assert r == s[lo..lo + |r|];
    forall k | lo + |r| <= k < |s| ensures isSpace(s[k]) {
      assert s[k] == t[k - lo];
    }
  }

  /** The untrimmed pieces: the normalised text split on line feed. */
  function Lines(text: string): (lines: seq<string>)
    ensures |lines| == multiset(Normalize(text))[LF] + 1
  {
    Split(Normalize(text), LF)
  }

  /** Array.prototype.map of trim: the pieces, each trimmed, in order. */
  function TrimEach(isSpace: char -> bool, lines: seq<string>): (r: seq<string>)
    ensures |r| == |lines|
    ensures forall i :: 0 <= i < |r| ==> r[i] == Trim(isSpace, lines[i])
  {
    if lines == [] then [] else [Trim(isSpace, lines[0])] + TrimEach(isSpace, lines[1..])
  }

  /** formatContent: one paragraph per line of the normalised text, in order,
      each trimmed; a paragraph's key is its index. Blank lines are kept. */
  function FormatContent(isSpace: char -> bool, text: string): (paragraphs: seq<string>)
    ensures |paragraphs| == multiset(Normalize(text))[LF] + 1
    ensures forall i :: 0 <= i < |paragraphs| ==> paragraphs[i] == Trim(isSpace, Lines(text)[i])
    ensures forall i :: 0 <= i < |paragraphs| ==> LF !in paragraphs[i]
    ensures forall i :: 0 <= i < |paragraphs| ==> Trimmed(isSpace, paragraphs[i])
  {
    TrimEach(isSpace, Lines(text))
  }

  // ---------------------------------------------------------------------
  // Split and Join are inverse to each other

  /** Joining the pieces of a split gives the text back. */
  lemma {:induction false} JoinSplit(s: string, d: char)
    ensures Join(Split(s, d), d) == s
  {
    if s != [] {
      JoinSplit(s[1..], d);
      JoinSplitStep(s, d);
    }
  }

  /** One step of JoinSplit: if the tail joins back, so does the whole text. */
  lemma JoinSplitStep(s: string, d: char)
    requires s != [] && Join(Split(s[1..], d), d) == s[1..]
    ensures Join(Split(s, d), d) == s
  {
    var x, tail := s[0], s[1..];
    var rest := Split(tail, d);
    SplitUnfold(s, d);
    JoinStep(x, rest, tail, d);
    assert s == [x] + tail;
  }

  /** The Join side of one step of Split. */
  lemma JoinStep(x: char, rest: seq<string>, tail: string, d: char)
    requires rest != [] && Join(rest, d) == tail
    ensures Join(if x == d then [[]] + rest else [[x] + rest[0]] + rest[1..], d) == [x] + tail
  {
    if x == d {
      JoinCons([], rest, d);
    } else if |rest| == 1 {
      assert [[x] + rest[0]] + rest[1..] == [[x] + rest[0]];
    } else {
      JoinGlue(x, rest, d);
    }
  }

  /** Joining after gluing a character onto the first of several pieces is
      putting that character in front. */
  lemma JoinGlue(x: char, rest: seq<string>, d: char)
    requires |rest| >= 2
    ensures Join([[x] + rest[0]] + rest[1..], d) == [x] + Join(rest, d)
  {
    var first, more := rest[0], rest[1..];
    assert rest == [first] + more;
    JoinCons(first, more, d);
    JoinCons([x] + first, more, d);
  }

  /** Split one step at a time: the first character either ends the first
      piece or joins it. */
  lemma SplitUnfold(s: string, d: char)
    requires s != []
    ensures var rest := Split(s[1..], d);
      Split(s, d) == if s[0] == d then [[]] + rest else [[s[0]] + rest[0]] + rest[1..]
  {
  }

  /** Join with one more piece in front. */
  lemma JoinCons(p: string, rest: seq<string>, d: char)
    requires rest != []
    ensures Join([p] + rest, d) == p + [d] + Join(rest, d)
  {
    assert ([p] + rest)[1..] == rest;
  }

  /** A prefix free of the separator glues onto the first piece. */
  lemma {:induction false} SplitPrefix(p: string, t: string, d: char)
    requires d !in p
    ensures Split(p + t, d) == [p + Split(t, d)[0]] + Split(t, d)[1..]
  {
    var parts := Split(t, d);
    if p != [] {
      var s := p + t;
      assert s[1..] == p[1..] + t && s[0] == p[0] && s != [];
      SplitPrefix(p[1..], t, d);
      var rest := Split(s[1..], d);
      assert rest == [p[1..] + parts[0]] + parts[1..];
      assert Split(s, d) == [[p[0]] + rest[0]] + rest[1..];
      assert [p[0]] + (p[1..] + parts[0]) == p + parts[0];
    } else {
      assert p + t == t;
      assert p + parts[0] == parts[0];
      assert parts == [parts[0]] + parts[1..];
    }
  }

  lemma SplitAtSeparator(t: string, d: char)
    ensures Split([d] + t, d) == [[]] + Split(t, d)
  {
    assert ([d] + t)[1..] == t;
  }

  /** Splitting pieces joined by a separator they do not hold gives the pieces back. */
  lemma {:induction false} SplitJoin(parts: seq<string>, d: char)
    requires |parts| >= 1
    requires forall i :: 0 <= i < |parts| ==> d !in parts[i]
    ensures Split(Join(parts, d), d) == parts
  {
    if |parts| == 1 {
      SplitPrefix(parts[0], [], d);
      assert parts[0] + [] == parts[0];
    } else {
      SplitJoin(parts[1..], d);
      SplitJoinStep(parts, d);
    }
  }

  lemma SplitJoinStep(parts: seq<string>, d: char)
    requires |parts| >= 2 && d !in parts[0]
    requires Split(Join(parts[1..], d), d) == parts[1..]
    ensures Split(Join(parts, d), d) == parts
  {
    var first, rest := parts[0], parts[1..];
    assert parts == [first] + rest;
    JoinCons(first, rest, d);
    SplitSeparated(first, Join(rest, d), d);
  }

  /** A separator-free prefix and a separator split off as a piece of their own. */
  lemma SplitSeparated(p: string, t: string, d: char)
    requires d !in p
    ensures Split(p + [d] + t, d) == [p] + Split(t, d)
  {
    var sep := [d] + t;
    assert p + [d] + t == p + sep;
    SplitAtSeparator(t, d);
    SplitPrefix(p, sep, d);
    assert p + [] == p;
  }

  /** Joining the untrimmed lines of formatContent with line feed gives the
      normalised text back, in source order. */
  lemma LinesRoundTrip(text: string)
    ensures Join(Lines(text), LF) == Normalize(text)
  {
    JoinSplit(Normalize(text), LF);
  }

  // ---------------------------------------------------------------------
  // No escaped line feed survives

  /** `s` holds no two adjacent characters `a` then `b`. */
  ghost predicate PairFree(s: string, a: char, b: char)
  {
    forall i, j :: 0 <= i && j == i + 1 && j < |s| ==> !(s[i] == a && s[j] == b)
  }

  lemma PairFreeSlice(s: string, lo: int, hi: int, a: char, b: char)
    requires 0 <= lo <= hi <= |s|
    requires PairFree(s, a, b)
    ensures PairFree(s[lo..hi], a, b)
  {
    var t := s[lo..hi];
    forall i, j | 0 <= i && j == i + 1 && j < |t| ensures !(t[i] == a && t[j] == b) {
      assert t[i] == s[lo + i] && t[j] == s[lo + j];
    }
  }

  lemma PairFreeCons(x: char, t: string, a: char, b: char)
    requires PairFree(t, a, b)
    requires t != [] ==> !(x == a && t[0] == b)
    ensures PairFree([x] + t, a, b)
  {
    var s := [x] + t;
    forall i, j | 0 <= i && j == i + 1 && j < |s| ensures !(s[i] == a && s[j] == b) {
      if i > 0 {
        assert s[i] == t[i - 1] && s[j] == t[j - 1];
      }
    }
  }

  lemma PairFreeAppend(p: string, t: string, a: char, b: char)
    requires PairFree(p, a, b) && PairFree(t, a, b)
    requires p != [] && t != [] ==> !(p[|p| - 1] == a && t[0] == b)
    ensures PairFree(p + t, a, b)
  {
    var s := p + t;
    forall i, j | 0 <= i && j == i + 1 && j < |s| ensures !(s[i] == a && s[j] == b) {
      if j < |p| {
        assert s[i] == p[i] && s[j] == p[j];
      } else if i >= |p| {
        assert s[i] == t[i - |p|] && s[j] == t[j - |p|];
      }
    }
  }

  /** The first character a replacement pass emits. */
  lemma ReplaceHead(s: string, pat: string, rep: string)
    requires pat != [] && rep != [] && s != []
    ensures var r := ReplaceAll(s, pat, rep);
      r != [] && r[0] == (if pat <= s then rep[0] else s[0])
  {
  }

  /** Replacing every `a` `b` by one character that is neither leaves no `a` `b`. */
  lemma {:induction false} ReplaceRemovesPair(s: string, a: char, b: char, c: char)
    requires c != a && c != b
    ensures PairFree(ReplaceAll(s, [a, b], [c]), a, b)
    decreases |s|
  {
    if s != [] {
      if [a, b] <= s {
        ReplaceRemovesPair(s[2..], a, b, c);
        PairFreeCons(c, ReplaceAll(s[2..], [a, b], [c]), a, b);
      } else {
        var rest := ReplaceAll(s[1..], [a, b], [c]);
        ReplaceRemovesPair(s[1..], a, b, c);
        if s[1..] != [] {
          ReplaceHead(s[1..], [a, b], [c]);
          assert [a, b] != s[..2];
        }
        PairFreeCons(s[0], rest, a, b);
      }
    }
  }

  /** Replacing a pattern by one character outside the pair creates no new pair. */
  lemma {:induction false} ReplaceKeepsPairFree(s: string, pat: string, c: char, a: char, b: char)
    requires pat != [] && c != a && c != b
    requires PairFree(s, a, b)
    ensures PairFree(ReplaceAll(s, pat, [c]), a, b)
    decreases |s|
  {
    if s != [] {
      if pat <= s {
        PairFreeSlice(s, |pat|, |s|, a, b);
        ReplaceKeepsPairFree(s[|pat|..], pat, c, a, b);
        PairFreeCons(c, ReplaceAll(s[|pat|..], pat, [c]), a, b);
      } else {
        PairFreeSlice(s, 1, |s|, a, b);
        ReplaceKeepsPairFree(s[1..], pat, c, a, b);
        if s[1..] != [] {
          ReplaceHead(s[1..], pat, [c]);
          assert !(s[0] == a && s[1] == b);
        }
        PairFreeCons(s[0], ReplaceAll(s[1..], pat, [c]), a, b);
      }
    }
  }

  /** Every piece of a split of a pair-free text is pair-free. */
  lemma {:induction false} SplitKeepsPairFree(s: string, d: char, a: char, b: char)
    requires PairFree(s, a, b)
    ensures forall i :: 0 <= i < |Split(s, d)| ==> PairFree(Split(s, d)[i], a, b)
    decreases |s|
  {
    if s != [] {
      var rest := Split(s[1..], d);
      PairFreeSlice(s, 1, |s|, a, b);
      SplitKeepsPairFree(s[1..], d, a, b);
      if s[0] != d {
        var first := [s[0]] + rest[0];
        assert first == s[..|first|];
        PairFreeSlice(s, 0, |first|, a, b);
        assert Split(s, d) == [first] + rest[1..];
      } else {
        assert Split(s, d) == [[]] + rest;
      }
    }
  }

  lemma TrimKeepsPairFree(isSpace: char -> bool, s: string, a: char, b: char)
    requires PairFree(s, a, b)
    ensures PairFree(Trim(isSpace, s), a, b)
  {
    var r := Trim(isSpace, s);
    var lo := TrimCutsSpaces(isSpace, s);
    PairFreeSlice(s, lo, lo + |r|, a, b);
  }

  /** No paragraph holds a backslash followed by n: every such pair became a
      line feed before the split, and neither later step can create one. */
  lemma NoEscapedLfSurvives(isSpace: char -> bool, text: string)
    ensures forall i :: 0 <= i < |FormatContent(isSpace, text)| ==>
      PairFree(FormatContent(isSpace, text)[i], Backslash, 'n')
  {
    var unescaped := UnescapeLf(RemoveEscapedCr(text));
    ReplaceRemovesPair(RemoveEscapedCr(text), Backslash, 'n', LF);
    ReplaceKeepsPairFree(unescaped, CrLf, LF, Backslash, 'n');
    SplitKeepsPairFree(Normalize(text), LF, Backslash, 'n');
    var paragraphs := FormatContent(isSpace, text);
    forall i | 0 <= i < |paragraphs| ensures PairFree(paragraphs[i], Backslash, 'n') {
      TrimKeepsPairFree(isSpace, Lines(text)[i], Backslash, 'n');
    }
  }

  // ---------------------------------------------------------------------
  // Text without escapes or carriage returns

  /** A pass changes nothing when some character of the pattern never occurs in the text. */
  lemma {:induction false} ReplaceAbsent(s: string, pat: string, rep: string, k: nat)
    requires k < |pat| && pat[k] !in s
    ensures ReplaceAll(s, pat, rep) == s
    decreases |s|
  {
    if s != [] {
      assert forall c :: c in s[1..] ==> c in s;
      ReplaceAbsent(s[1..], pat, rep, k);
    }
  }

  /** Replacing a pattern that holds `c` once by `c` alone keeps the number of `c`s. */
  lemma {:induction false} ReplaceKeepsCount(s: string, pat: string, c: char)
    requires pat != [] && multiset(pat)[c] == 1
    ensures multiset(ReplaceAll(s, pat, [c]))[c] == multiset(s)[c]
    decreases |s|
  {
    if s != [] {
      if pat <= s {
        ReplaceKeepsCount(s[|pat|..], pat, c);
        assert s == pat + s[|pat|..];
      } else {
        ReplaceKeepsCount(s[1..], pat, c);
        assert s == [s[0]] + s[1..];
      }
    }
  }

  /** No match can start inside text that never holds the pattern's first character. */
  lemma {:induction false} ReplaceSkipsPlain(w: string, rest: string, pat: string, rep: string)
    requires pat != [] && pat[0] !in w
    ensures ReplaceAll(w + rest, pat, rep) == w + ReplaceAll(rest, pat, rep)
    decreases |w|
  {
    if w != [] {
      var s := w + rest;
      assert s[0] == w[0] && s[1..] == w[1..] + rest;
      assert !(pat <= s);
      ReplaceSkipsPlain(w[1..], rest, pat, rep);
      assert w == [w[0]] + w[1..];
    } else {
      assert w + rest == rest;
    }
  }

  /** A match at the front is replaced and the scan resumes after it. */
  lemma ReplaceAtMatch(rest: string, pat: string, rep: string)
    requires pat != []
    ensures ReplaceAll(pat + rest, pat, rep) == rep + ReplaceAll(rest, pat, rep)
  {
    assert pat <= pat + rest && (pat + rest)[|pat|..] == rest;
  }

  /** Text without a separator is one piece. */
  lemma SplitWithoutSeparator(s: string, d: char)
    requires d !in s
    ensures Split(s, d) == [s]
  {
    SplitJoin([s], d);
  }

  /** Trim leaves text that is already trimmed alone, so trimming twice is trimming once. */
  lemma TrimTrimmed(isSpace: char -> bool, s: string)
    requires Trimmed(isSpace, s)
    ensures Trim(isSpace, s) == s
  {
  }

  lemma TrimIdempotent(isSpace: char -> bool, s: string)
    ensures Trim(isSpace, Trim(isSpace, s)) == Trim(isSpace, s)
  {
    TrimTrimmed(isSpace, Trim(isSpace, s));
  }

  /** Text with no backslash and no CR is split exactly at its line feeds. */
  lemma PlainTextLines(text: string)
    requires Backslash !in text && CR !in text
    ensures Normalize(text) == text
    ensures Lines(text) == Split(text, LF)
  {
    ReplaceAbsent(text, EscapedCr, [], 0);
    ReplaceAbsent(text, EscapedLf, [LF], 0);
    ReplaceAbsent(text, CrLf, [LF], 0);
  }

  /** When the normalised text is line-feed-free lines joined by line feeds,
      formatContent returns exactly those lines, each trimmed. */
  lemma FormatsLines(isSpace: char -> bool, text: string, lines: seq<string>)
    requires |lines| >= 1
    requires forall i :: 0 <= i < |lines| ==> LF !in lines[i]
    requires Normalize(text) == Join(lines, LF)
    ensures Lines(text) == lines
    ensures |FormatContent(isSpace, text)| == |lines|
    ensures forall i :: 0 <= i < |lines| ==> FormatContent(isSpace, text)[i] == Trim(isSpace, lines[i])
  {
    SplitJoin(lines, LF);
  }

  /** ... and when those lines are already trimmed, exactly the lines. */
  lemma FormatsAs(isSpace: char -> bool, text: string, parts: seq<string>)
    requires |parts| >= 1
    requires forall i :: 0 <= i < |parts| ==> LF !in parts[i] && Trimmed(isSpace, parts[i])
    requires Normalize(text) == Join(parts, LF)
    ensures FormatContent(isSpace, text) == parts
  {
    FormatsLines(isSpace, text, parts);
    forall i | 0 <= i < |parts| ensures Trim(isSpace, parts[i]) == parts[i] {
      TrimTrimmed(isSpace, parts[i]);
    }
  }

  /** A first character that does not start a match is copied. */
  lemma ReplaceMiss(s: string, pat: string, rep: string)
    requires pat != [] && s != [] && !(pat <= s)
    ensures ReplaceAll(s, pat, rep) == [s[0]] + ReplaceAll(s[1..], pat, rep)
  {
  }

  // ---------------------------------------------------------------------
  // Line breaks and escapes

  /** Text free of backslashes, carriage returns and line feeds. */
  predicate Plain(s: string)
  {
    Backslash !in s && CR !in s && LF !in s
  }

  lemma JoinTwo(a: string, b: string)
    ensures Join([a, b], LF) == a + [LF] + b
  {
    assert [a, b][1..] == [b];
  }

  /** Empty text gives exactly one empty paragraph. */
  lemma EmptyText(isSpace: char -> bool)
    ensures FormatContent(isSpace, "") == [""]
  {
  }

  /** A literal backslash-r backslash-n (four characters) is exactly one
      break: the backslash-r is removed first, then the backslash-n becomes a
      line feed. */
  lemma EscapedCrLfIsOneBreak(isSpace: char -> bool, a: string, b: string)
    requires Plain(a) && Plain(b)
    ensures FormatContent(isSpace, a + EscapedCr + EscapedLf + b) == [Trim(isSpace, a), Trim(isSpace, b)]
  {
    var text := a + EscapedCr + EscapedLf + b;
    RemovalBeforeEscapedLf(a, b);
    UnescapeOne(a, b);
    ReplaceAbsent(a + [LF] + b, CrLf, [LF], 0);
    assert Normalize(text) == a + [LF] + b;
    FormatsTwo(isSpace, text, a, b);
  }

  lemma RemovalBeforeEscapedLf(a: string, b: string)
    requires Backslash !in a && Backslash !in b
    ensures RemoveEscapedCr(a + EscapedCr + EscapedLf + b) == a + EscapedLf + b
  {
    assert a + EscapedCr + EscapedLf + b == a + (EscapedCr + (EscapedLf + b));
    ReplaceSkipsPlain(a, EscapedCr + (EscapedLf + b), EscapedCr, []);
    ReplaceAtMatch(EscapedLf + b, EscapedCr, []);
    RemovalKeepsEscapedLf(b);
    ReplaceAbsent(b, EscapedCr, [], 0);
  }

  lemma UnescapeOne(a: string, b: string)
    requires Backslash !in a && Backslash !in b
    ensures UnescapeLf(a + EscapedLf + b) == a + [LF] + b
  {
    assert a + EscapedLf + b == a + (EscapedLf + b);
    ReplaceSkipsPlain(a, EscapedLf + b, EscapedLf, [LF]);
    ReplaceAtMatch(b, EscapedLf, [LF]);
    ReplaceAbsent(b, EscapedLf, [LF], 0);
  }

  /** A real CR LF is exactly one break too. */
  lemma RealCrLfIsOneBreak(isSpace: char -> bool, a: string, b: string)
    requires Plain(a) && Plain(b)
    ensures FormatContent(isSpace, a + CrLf + b) == [Trim(isSpace, a), Trim(isSpace, b)]
  {
    var text := a + CrLf + b;
    RealCrLfNormal(text, a, b);
    FormatsTwo(isSpace, text, a, b);
  }

  /** Text that normalises to two lines formats as those two lines, trimmed. */
  lemma FormatsTwo(isSpace: char -> bool, text: string, a: string, b: string)
    requires LF !in a && LF !in b
    requires Normalize(text) == a + [LF] + b
    ensures FormatContent(isSpace, text) == [Trim(isSpace, a), Trim(isSpace, b)]
  {
    JoinTwo(a, b);
    LineFeedFreeTwo(a, b);
    FormatsLines(isSpace, text, [a, b]);
  }

  lemma LineFeedFreeTwo(a: string, b: string)
    requires LF !in a && LF !in b
    ensures forall i :: 0 <= i < 2 ==> LF !in [a, b][i]
  {
  }

  lemma RealCrLfNormal(text: string, a: string, b: string)
    requires Plain(a) && Plain(b) && text == a + CrLf + b
    ensures Normalize(text) == a + [LF] + b
  {
    assert Backslash !in text by {
      assert forall c :: c in text ==> c in a || c in CrLf || c in b;
    }
    assert Normalize(text) == ReplaceAll(text, CrLf, [LF]);
    CrLfPass(a, b);
  }

  lemma CrLfPass(a: string, b: string)
    requires Plain(a) && Plain(b)
    ensures ReplaceAll(a + CrLf + b, CrLf, [LF]) == a + [LF] + b
  {
    assert a + CrLf + b == a + (CrLf + b);
    ReplaceSkipsPlain(a, CrLf + b, CrLf, [LF]);
    ReplaceAtMatch(b, CrLf, [LF]);
    ReplaceAbsent(b, CrLf, [LF], 0);
  }

  /** A CR that is not followed by LF is not a split point. */
  lemma LoneCrIsNoBreak(isSpace: char -> bool, a: string, b: string)
    requires Plain(a) && Plain(b)
    ensures FormatContent(isSpace, a + [CR] + b) == [Trim(isSpace, a + [CR] + b)]
  {
    var text := a + [CR] + b;
    ReplaceAbsent(text, EscapedCr, [], 0);
    ReplaceAbsent(text, EscapedLf, [LF], 0);
    ReplaceAbsent(text, CrLf, [LF], 1);
    FormatsLines(isSpace, text, [text]);
  }

  /** Two escaped line feeds in a row leave a blank line, which is kept as an
      empty paragraph. */
  lemma {:induction false} EscapedLfTwice(a: string, b: string)
    requires Backslash !in a && Backslash !in b
    ensures UnescapeLf(a + EscapedLf + EscapedLf + b) == a + [LF] + [LF] + b
  {
    assert a + EscapedLf + EscapedLf + b == a + (EscapedLf + (EscapedLf + b));
    ReplaceSkipsPlain(a, EscapedLf + (EscapedLf + b), EscapedLf, [LF]);
    ReplaceAtMatch(EscapedLf + b, EscapedLf, [LF]);
    ReplaceAtMatch(b, EscapedLf, [LF]);
    ReplaceAbsent(b, EscapedLf, [LF], 0);
  }

  /** Escaped CR LF, then two escaped LFs: the blank line between the two
      escaped line feeds is kept as an empty paragraph and nothing is dropped. */
  lemma BlankLineKeptAt(isSpace: char -> bool, a: string, b: string, c: string)
    requires Plain(a) && Plain(b) && Plain(c)
    ensures FormatContent(isSpace, a + EscapedCr + EscapedLf + b + EscapedLf + EscapedLf + c)
         == [Trim(isSpace, a), Trim(isSpace, b), "", Trim(isSpace, c)]
  {
    var text := a + EscapedCr + EscapedLf + b + EscapedLf + EscapedLf + c;
    BlankLineKeptNormal(text, a, b, c);
    FormatsWithBlank(isSpace, text, a, b, c);
  }

  /** Text that normalises to two lines, a blank line and a third line formats
      as those four lines, trimmed. */
  lemma FormatsWithBlank(isSpace: char -> bool, text: string, a: string, b: string, c: string)
    requires LF !in a && LF !in b && LF !in c
    requires Normalize(text) == a + [LF] + b + [LF] + [LF] + c
    ensures FormatContent(isSpace, text) == [Trim(isSpace, a), Trim(isSpace, b), "", Trim(isSpace, c)]
  {
    var lines := [a, b, "", c];
    JoinWithBlank(a, b, c);
    LineFeedFreeWithBlank(a, b, c);
    SplitJoin(lines, LF);
    assert Lines(text) == lines;
    TrimEachWithBlank(isSpace, a, b, c);
    assert FormatContent(isSpace, text) == TrimEach(isSpace, lines);
  }

  lemma LineFeedFreeWithBlank(a: string, b: string, c: string)
    requires LF !in a && LF !in b && LF !in c
    ensures forall i :: 0 <= i < 4 ==> LF !in [a, b, "", c][i]
  {
  }

  lemma TrimEachWithBlank(isSpace: char -> bool, a: string, b: string, c: string)
    ensures TrimEach(isSpace, [a, b, [], c]) == [Trim(isSpace, a), Trim(isSpace, b), [], Trim(isSpace, c)]
  {
    var lines: seq<string> := [a, b, [], c];
    var r := TrimEach(isSpace, lines);
    assert r[0] == Trim(isSpace, a) && r[1] == Trim(isSpace, b) && r[3] == Trim(isSpace, c);
    assert r[2] == Trim(isSpace, []) == [];
  }

  lemma JoinWithBlank(a: string, b: string, c: string)
    ensures Join([a, b, "", c], LF) == a + [LF] + b + [LF] + [LF] + c
  {
    var lines := [a, b, "", c];
    assert lines[1..] == [b, "", c] && lines[1..][1..] == ["", c] && lines[1..][1..][1..] == [c];
    assert Join(["", c], LF) == [] + [LF] + c;
    assert Join([b, "", c], LF) == b + [LF] + ([] + [LF] + c);
  }

  lemma BlankLineKeptTrimmed(isSpace: char -> bool, text: string, a: string, b: string, c: string)
    requires Plain(a) && Plain(b) && Plain(c)
    requires Trimmed(isSpace, a) && Trimmed(isSpace, b) && Trimmed(isSpace, c)
    requires text == a + EscapedCr + EscapedLf + b + EscapedLf + EscapedLf + c
    ensures FormatContent(isSpace, text) == [a, b, "", c]
  {
    BlankLineKeptAt(isSpace, a, b, c);
    TrimTrimmed(isSpace, a);
    TrimTrimmed(isSpace, b);
    TrimTrimmed(isSpace, c);
  }

  /** The same on the text "Line1", escaped CR LF, "Line2", two escaped LFs,
      "Line3", with the ECMAScript whitespace set. */
  lemma BlankLineKept()
    ensures FormatContent(IsEcmaTrimmable, "Line1\\r\\nLine2\\n\\nLine3") == ["Line1", "Line2", "", "Line3"]
  {
    BlankLineKeptTrimmed(IsEcmaTrimmable, "Line1\\r\\nLine2\\n\\nLine3", "Line1", "Line2", "Line3");
  }

  /** The backslash-r removal steps over an escaped line feed. */
  lemma RemovalKeepsEscapedLf(u: string)
    ensures RemoveEscapedCr(EscapedLf + u) == EscapedLf + RemoveEscapedCr(u)
  {
    assert EscapedLf + u == [Backslash] + (['n'] + u);
    assert (EscapedLf + u)[1] == 'n';
    ReplaceMiss(EscapedLf + u, EscapedCr, []);
    ReplaceSkipsPlain(['n'], u, EscapedCr, []);
  }

  lemma RemovalKeepsDoubleEscape(b: string, c: string)
    requires Backslash !in b && Backslash !in c
    ensures RemoveEscapedCr(b + EscapedLf + EscapedLf + c) == b + EscapedLf + EscapedLf + c
  {
    assert b + EscapedLf + EscapedLf + c == b + (EscapedLf + (EscapedLf + c));
    ReplaceSkipsPlain(b, EscapedLf + (EscapedLf + c), EscapedCr, []);
    RemovalKeepsEscapedLf(EscapedLf + c);
    RemovalKeepsEscapedLf(c);
    ReplaceAbsent(c, EscapedCr, [], 0);
  }

  lemma BlankLineKeptNormal(text: string, a: string, b: string, c: string)
    requires Plain(a) && Plain(b) && Plain(c)
    requires text == a + EscapedCr + EscapedLf + b + EscapedLf + EscapedLf + c
    ensures Normalize(text) == a + [LF] + b + [LF] + [LF] + c
  {
    var y := b + EscapedLf + EscapedLf + c;
    BlankLineKeptRemoval(text, a, y);
    RemovalKeepsDoubleEscape(b, c);
    BlankLineKeptUnescape(a, b, c);
    ReplaceAbsent(a + [LF] + b + [LF] + [LF] + c, CrLf, [LF], 0);
  }

  lemma BlankLineKeptRemoval(text: string, a: string, y: string)
    requires Backslash !in a && text == a + EscapedCr + EscapedLf + y
    ensures RemoveEscapedCr(text) == a + EscapedLf + RemoveEscapedCr(y)
  {
    assert text == a + (EscapedCr + (EscapedLf + y));
    ReplaceSkipsPlain(a, EscapedCr + (EscapedLf + y), EscapedCr, []);
    ReplaceAtMatch(EscapedLf + y, EscapedCr, []);
    RemovalKeepsEscapedLf(y);
  }

  lemma BlankLineKeptUnescape(a: string, b: string, c: string)
    requires Backslash !in a && Backslash !in b && Backslash !in c
    ensures UnescapeLf(a + EscapedLf + (b + EscapedLf + EscapedLf + c)) == a + [LF] + b + [LF] + [LF] + c
  {
    var y := b + EscapedLf + EscapedLf + c;
    UnescapeAfterPlain(a, y);
    EscapedLfTwice(b, c);
    assert a + [LF] + (b + [LF] + [LF] + c) == a + [LF] + b + [LF] + [LF] + c;
  }

  /** An escaped line feed after backslash-free text is the first one converted. */
  lemma UnescapeAfterPlain(a: string, y: string)
    requires Backslash !in a
    ensures UnescapeLf(a + EscapedLf + y) == a + [LF] + UnescapeLf(y)
  {
    assert a + EscapedLf + y == a + (EscapedLf + y);
    ReplaceSkipsPlain(a, EscapedLf + y, EscapedLf, [LF]);
    ReplaceAtMatch(y, EscapedLf, [LF]);
  }

  /** The backslash-r removal is one pass, not a fixpoint: in backslash,
      backslash, r, r the pass removes the inner pair and the characters
      around it form a new backslash-r, which reaches the paragraph. */
  lemma RemovalIsSinglePass()
    ensures RemoveEscapedCr("\\\\rr") == EscapedCr
    ensures FormatContent(IsEcmaTrimmable, "\\\\rr") == [EscapedCr]
  {
    var s := "\\\\rr";
    RemovalLeavesEscapedCr(s);
    ReplaceAbsent(EscapedCr, EscapedLf, [LF], 1);
    assert CR !in EscapedCr;
    assert Normalize(s) == Join([EscapedCr], LF);
    assert LF !in EscapedCr && Trimmed(IsEcmaTrimmable, EscapedCr);
    FormatsAs(IsEcmaTrimmable, s, [EscapedCr]);
  }

  lemma RemovalLeavesEscapedCr(s: string)
    requires s == "\\\\rr"
    ensures RemoveEscapedCr(s) == EscapedCr
  {
    assert s == [Backslash] + (EscapedCr + "r");
    assert s[1] == Backslash && !(EscapedCr <= s);
    assert s[1..] == EscapedCr + "r";
    ReplaceAtMatch("r", EscapedCr, []);
    ReplaceAbsent("r", EscapedCr, [], 0);
  }

  /** Because the backslash-r removal runs first, backslash, backslash, r, n
      becomes an escaped line feed and then a break. */
  lemma RemovalBeforeConversion()
    ensures FormatContent(IsEcmaTrimmable, "\\\\rn") == ["", ""]
  {
    var s := "\\\\rn";
    assert s == [Backslash] + (EscapedCr + "n");
    assert s[1] == Backslash && !(EscapedCr <= s);
    assert s[1..] == EscapedCr + "n";
    ReplaceAtMatch("n", EscapedCr, []);
    ReplaceAbsent("n", EscapedCr, [], 0);
    assert RemoveEscapedCr(s) == EscapedLf;
    ReplaceAtMatch([], EscapedLf, [LF]);
    assert EscapedLf + [] == EscapedLf;
    ReplaceAbsent([LF], CrLf, [LF], 0);
    assert Normalize(s) == Join(["", ""], LF);
    FormatsAs(IsEcmaTrimmable, s, ["", ""]);
  }
}
