/**
  The text helpers of `StringExtensions`: tag stripping, null-if-blank,
  truncation with a suffix, greedy line breaking, German umlaut
  transliteration, query-string building and the two camel-case
  conversions. A C# `string` that the method tests for null is an
  `Option<string>`; one it dereferences without a test is a `string`.
 */
module StringExtensions {
  import opened Wrappers
  import opened Text

  // ===========================================================================
  // StripHtml: Regex.Replace(html, "<[^>]*>", "")
  // ===========================================================================

  /** `a` is obtained from `b` by deleting characters. */
  predicate IsSubsequence(a: string, b: string)
    decreases |b|
  {
    a == [] || (b != [] && ((a[0] == b[0] && IsSubsequence(a[1..], b[1..])) || IsSubsequence(a, b[1..])))
  }

  /** No `'>'` comes anywhere after a `'<'`: there is nothing left that the
      tag pattern could match. */
  predicate NoTag(s: string) {
    forall i, j :: 0 <= i < j < |s| && s[i] == '<' ==> s[j] != '>'
  }

  lemma {:induction false} SubsequenceOfSuffix(a: string, b: string, n: nat)
    requires n <= |b| && IsSubsequence(a, b[n..])
    ensures IsSubsequence(a, b)
    decreases n
  {
    if n > 0 {
      assert b[n..] == b[1..][n - 1..];
      SubsequenceOfSuffix(a, b[1..], n - 1);
    }
  }

  lemma {:induction false} SubsequenceKeepsOut(a: string, b: string, c: char)
    requires IsSubsequence(a, b) && c !in b
    ensures c !in a
    decreases |b|
  {
    if a != [] {
      if a[0] == b[0] && IsSubsequence(a[1..], b[1..]) {
        SubsequenceKeepsOut(a[1..], b[1..], c);
        assert a == [a[0]] + a[1..];
      } else {
        SubsequenceKeepsOut(a, b[1..], c);
      }
    }
  }

  /** The regular-expression replacement: scanning from the left, a `'<'`
      that has a `'>'` somewhere after it starts a match that ends at the
      first such `'>'` and is deleted; any other character is kept. The
      result is a subsequence of the input, contains nothing the pattern
      matches, and is the input itself when the input has no `'<'`. */
  function StripTags(s: string): (r: string)
    ensures IsSubsequence(r, s)
    ensures NoTag(r)
    ensures '<' !in s ==> r == s
    decreases |s|
  {
    if s == [] then []
    else if s[0] == '<' && '>' in s then
      var close := IndexOf(s, '>');
      var r := StripTags(s[close + 1..]);
      SubsequenceOfSuffix(r, s, close + 1);
      r
    else
      var rest := StripTags(s[1..]);
      var r := [s[0]] + rest;
      assert r[1..] == rest;
      assert NoTag(r) by {
        if s[0] == '<' {
          assert '>' !in s[1..];
          SubsequenceKeepsOut(rest, s[1..], '>');
        }
        forall i, j | 0 <= i < j < |r| && r[i] == '<' ensures r[j] != '>' {
          if i > 0 {
            assert r[i] == rest[i - 1] && r[j] == rest[j - 1];
          } else {
            assert r[j] == rest[j - 1];
          }
        }
      }
      assert '<' !in s ==> rest == s[1..];
      r
  }

  /** A text in which nothing matches the tag pattern is left as it is. */
  lemma {:induction false} StripTagsNoTag(s: string)
    requires NoTag(s)
    ensures StripTags(s) == s
    decreases |s|
  {
    if s != [] {
      assert s[0] == '<' ==> '>' !in s by {
        if s[0] == '<' {
          forall j | 0 <= j < |s| ensures s[j] != '>' {
            if j > 0 { assert s[0] == '<'; }
          }
        }
      }
      assert NoTag(s[1..]) by {
        forall i, j | 0 <= i < j < |s| - 1 && s[1..][i] == '<' ensures s[1..][j] != '>' {
          assert s[i + 1] == '<';
        }
      }
      StripTagsNoTag(s[1..]);
    }
  }

  /** Text before the first `'<'` is kept as it is. */
  lemma {:induction false} StripTagsKeepsText(a: string, b: string)
    requires '<' !in a
    ensures StripTags(a + b) == a + StripTags(b)
    decreases |a|
  {
    if a == [] {
      assert a + b == b;
    } else {
      var s := a + b;
      var tail := a[1..];
      assert s[0] == a[0];
      assert s[1..] == tail + b;
      assert '<' !in tail by {
        forall i | 0 <= i < |tail| ensures tail[i] != '<' {
          assert tail[i] == a[i + 1];
        }
      }
      StripTagsPlainHead(s);
      StripTagsKeepsText(tail, b);
      var rest := StripTags(b);
      assert StripTags(s) == [a[0]] + (tail + rest);
      assert [a[0]] + (tail + rest) == ([a[0]] + tail) + rest;
      assert [a[0]] + tail == a;
    }
  }

  lemma StripTagsPlainHead(s: string)
    requires s != [] && s[0] != '<'
    ensures StripTags(s) == [s[0]] + StripTags(s[1..])
  {
  }

  /** A tag, `'<'` up to the first `'>'`, is deleted together with its
      brackets, and the scan goes on after it. */
  lemma StripTagsDropsTag(t: string, b: string)
    requires '>' !in t
    ensures StripTags("<" + t + ">" + b) == StripTags(b)
  {
    var s := "<" + t + ">" + b;
    assert s[|t| + 1] == '>';
    var close := IndexOf(s, '>');
    assert s[..|t| + 1] == "<" + t;
    assert close == |t| + 1;
    assert s[close + 1..] == b;
  }

  /** `StripHtml`: `""` for a null or empty text, otherwise the text with
      every tag removed. */
  function StripHtml(html: Option<string>): (r: string)
    ensures IsNullOrEmpty(html) ==> r == ""
    ensures html.Some? ==> IsSubsequence(r, html.value) && NoTag(r)
    ensures html.Some? && '<' !in html.value ==> r == html.value
  {
    if IsNullOrEmpty(html) then "" else StripTags(html.value)
  }

  /** Stripping twice is stripping once. */
  lemma StripHtmlIdempotent(html: Option<string>)
    ensures StripHtml(Some(StripHtml(html))) == StripHtml(html)
  {
    StripTagsNoTag(StripHtml(html));
  }

  // ===========================================================================
  // NullIfNullOrWhiteSpace
  // ===========================================================================

  /** `t` is the part of `s` from `i` on, with only white space before and
      after it. */
  ghost predicate TrimAt(t: string, s: string, i: int) {
    0 <= i <= |s| - |t| && t == s[i..i + |t|] && AllWhiteSpace(s[..i]) && AllWhiteSpace(s[i + |t|..])
  }

  /** `t` is what `string.Trim` keeps of `s`: a contiguous part of `s` that
      neither starts nor ends with white space and outside which there is
      only white space. */
  ghost predicate IsTrimOf(t: string, s: string) {
    (t == [] || (!IsWhiteSpace(t[0]) && !IsWhiteSpace(t[|t| - 1]))) &&
    exists i :: TrimAt(t, s, i)
  }

  /** `Trim` computes the trimmed form. */
  lemma TrimIsTrimOf(s: string)
    ensures IsTrimOf(Trim(s), s)
  {
    TrimFacts(s);
    assert TrimAt(Trim(s), s, TrimmedStart(s));
  }

  /** Where a trimmed form sits inside its text, character by character. */
  lemma TrimAtFacts(t: string, s: string, i: int)
    requires TrimAt(t, s, i)
    ensures forall k :: 0 <= k < i ==> IsWhiteSpace(s[k])
    ensures forall k :: i + |t| <= k < |s| ==> IsWhiteSpace(s[k])
    ensures forall k :: 0 <= k < |t| ==> s[i + k] == t[k]
  {
    forall k | 0 <= k < i ensures IsWhiteSpace(s[k]) { assert s[..i][k] == s[k]; }
    forall k | i + |t| <= k < |s| ensures IsWhiteSpace(s[k]) { assert s[i + |t|..][k - i - |t|] == s[k]; }
  }

  /** There is only one trimmed form of a text. */
  lemma TrimOfUnique(t: string, u: string, s: string)
    requires IsTrimOf(t, s) && IsTrimOf(u, s)
    ensures t == u
  {
    var i :| TrimAt(t, s, i);
    var j :| TrimAt(u, s, j);
    TrimAtFacts(t, s, i);
    TrimAtFacts(u, s, j);
    assert t != [] ==> !IsWhiteSpace(s[i]) && !IsWhiteSpace(s[i + |t| - 1]);
    assert u != [] ==> !IsWhiteSpace(s[j]) && !IsWhiteSpace(s[j + |u| - 1]);
    assert (t == []) == (u == []);
    if t != [] {
      assert i == j && |t| == |u|;
      assert t == s[i..i + |t|] == u;
    }
  }

  /** `text?.Trim()`: null for null, otherwise the trimmed form of the text,
      which sits after the leading white space (so `IsTrimOf` holds, with
      `TrimmedStart` as the witness). */
  function Trimmed(text: Option<string>): (r: Option<string>)
    ensures r.None? <==> text.None?
    ensures r.Some? ==> r.value == [] || (!IsWhiteSpace(r.value[0]) && !IsWhiteSpace(r.value[|r.value| - 1]))
    ensures r.Some? ==> TrimAt(r.value, text.value, TrimmedStart(text.value))
  {
    if text == None then None
    else
      TrimFacts(text.value);
      Some(Trim(text.value))
  }

  /** `NullIfNullOrWhiteSpace`: null when the input is null or only white
      space, otherwise the input trimmed. */
  function NullIfNullOrWhiteSpace(input: Option<string>): (r: Option<string>)
    ensures r == None <==> IsNullOrWhiteSpace(input)
    ensures r.Some? ==> r.value != [] && IsTrimOf(r.value, input.value)
  {
    var trimmed := Trimmed(input);
    if input == None then None
    else
      TrimFacts(input.value);
      if IsNullOrWhiteSpace(trimmed) then None
      else
        TrimIsTrimOf(input.value);
        trimmed
  }

  // ===========================================================================
  // Truncate
  // ===========================================================================

  /** `Truncate(text, maxLength, suffix)`. The text comes back unchanged when
      `maxLength` is not positive, when the suffix leaves no room
      (`maxLength - |suffix| <= 0`), or when it is null or already fits.
      Otherwise it is cut to its first `maxLength - |suffix|` characters,
      trailing white space is removed and the suffix appended, so the result
      ends with the suffix and is at most `maxLength` long. */
  function Truncate(text: Option<string>, maxLength: int, suffix: string): (r: Option<string>)
    ensures maxLength <= 0 || maxLength - |suffix| <= 0 || text == None || |text.value| <= maxLength ==> r == text
    ensures text.Some? && 0 < maxLength - |suffix| && maxLength < |text.value| ==>
      r.Some? && |r.value| >= |suffix| && r.value[|r.value| - |suffix|..] == suffix &&
      var kept := r.value[..|r.value| - |suffix|];
      var strLength := maxLength - |suffix|;
      |kept| <= strLength && kept == text.value[..|kept|] &&
      AllWhiteSpace(text.value[|kept|..strLength]) &&
      (kept == [] || !IsWhiteSpace(kept[|kept| - 1]))
    ensures r.Some? && text.Some? && r != text ==> |r.value| <= maxLength
  {
    if maxLength <= 0 then text
    else
      var strLength := maxLength - |suffix|;
      if strLength <= 0 then text
      else if text == None || |text.value| <= maxLength then text
      else
        var cut := text.value[..strLength];
        var kept := TrimEnd(cut);
        assert (kept + suffix)[..|kept|] == kept;
        assert text.value[|kept|..strLength] == cut[|kept|..];
        Some(kept + suffix)
  }

  // ===========================================================================
  // BreakLines
  // ===========================================================================

  function Min(a: int, b: int): int { if a < b then a else b }

  /** The lines joined with `separator` between them. */
  function Join(lines: seq<string>, separator: string): string
  {
    if lines == [] then ""
    else if |lines| == 1 then lines[0]
    else lines[0] + separator + Join(lines[1..], separator)
  }

  /** `lines` put in front of a wrap that may have given up. */
  function Prefixed(lines: seq<string>, rest: Option<seq<string>>): Option<seq<string>> {
    if rest == None then None else Some(lines + rest.value)
  }

  /** `lines` wrap `text` into lines of at most `width` characters: joined
      with single spaces they give `text` back, and every line but the last is
      shorter than `width`. */
  predicate Wraps(lines: seq<string>, text: string, width: nat) {
    |lines| >= 1 && Join(lines, " ") == text &&
    (forall j :: 0 <= j < |lines| - 1 ==> |lines[j]| < width) &&
    |lines[|lines| - 1]| <= width
  }

  /** A window of `width` characters starting at `j` that contains no space,
      followed by more text: where the greedy wrap gives up. */
  predicate SpacelessWindow(text: string, width: nat, j: nat) {
    j + width < |text| && forall k :: j <= k < j + width ==> text[k] != ' '
  }

  /** The greedy wrap of `text` from position `i` into lines of at most
      `width` characters, breaking at the last space of each window and
      consuming that space; `None` when a full window has no space. */
  function WrapFrom(text: string, width: nat, i: nat): Option<seq<string>>
    requires 0 < width && i < |text|
    decreases |text| - i
  {
    if i + width >= |text| then Some([text[i..]])
    else
      var lastIndex := LastIndexOf(text[i..i + width], ' ');
      if lastIndex == -1 then None
      else Prefixed([text[i..i + lastIndex]], WrapFrom(text, width, i + lastIndex + 1))
  }

  /** What the wrap promises when it succeeds: its lines wrap the text
      from `i`. */
  lemma {:induction false} WrapFromWraps(text: string, width: nat, i: nat)
    requires 0 < width && i < |text|
    requires WrapFrom(text, width, i).Some?
    ensures Wraps(WrapFrom(text, width, i).value, text[i..], width)
    decreases |text| - i
  {
    if i + width >= |text| {
      assert WrapFrom(text, width, i) == Some([text[i..]]);
    } else {
      var lastIndex := LastIndexOf(text[i..i + width], ' ');
      LastIndexOfIsLast(text[i..i + width], ' ');
      WrapFromStep(text, width, i, lastIndex);
      WrapFromWraps(text, width, i + lastIndex + 1);
      var rest := WrapFrom(text, width, i + lastIndex + 1).value;
      assert text[i..i + width][lastIndex] == text[i + lastIndex] == ' ';
      WrapLine(text, width, i, lastIndex, rest);
      assert WrapFrom(text, width, i).value == [text[i..i + lastIndex]] + rest;
    }
  }

  /** The wrap gives up only at a full window without a space: the position
      of that window is returned. */
  lemma {:induction false} WrapFromGivesUp(text: string, width: nat, i: nat) returns (j: nat)
    requires 0 < width && i < |text|
    requires WrapFrom(text, width, i) == None
    ensures i <= j && SpacelessWindow(text, width, j)
    decreases |text| - i
  {
    var lastIndex := LastIndexOf(text[i..i + width], ' ');
    if lastIndex == -1 {
      LastIndexOfIsLast(text[i..i + width], ' ');
      j := i;
    } else {
      WrapFromStep(text, width, i, lastIndex);
      j := WrapFromGivesUp(text, width, i + lastIndex + 1);
    }
  }

  /** Conversely, a full window without a space anywhere from `i` on makes
      the wrap give up: every line the wrap cuts before reaching it ends at
      a space before the window, so the wrap arrives at or before the window
      and can never jump over it. */
  lemma {:induction false} WrapFromGivesUpAt(text: string, width: nat, i: nat, j: nat)
    requires 0 < width && i < |text|
    requires i <= j && SpacelessWindow(text, width, j)
    ensures WrapFrom(text, width, i) == None
    decreases |text| - i
  {
    var lastIndex := LastIndexOf(text[i..i + width], ' ');
    if lastIndex != -1 {
      LastIndexOfIsLast(text[i..i + width], ' ');
      WrapFromStep(text, width, i, lastIndex);
      assert text[i + lastIndex] == ' ';
      assert i + lastIndex < j;
      WrapFromGivesUpAt(text, width, i + lastIndex + 1, j);
    }
  }

  /** The whole greedy wrap, both ways round: it gives up exactly when some
      full window of the text has no space, and otherwise its result is a
      list of lines that wrap the text, joined by the new-line symbol. */
  lemma JoinedWrapOutcome(s: string, width: nat, nl: string)
    requires 0 < width < |s|
    ensures JoinedWrap(s, width, nl) == None <==> exists j: nat :: SpacelessWindow(s, width, j)
    ensures JoinedWrap(s, width, nl).Some? ==>
      exists lines :: Wraps(lines, s, width) && JoinedWrap(s, width, nl).value == Join(lines, nl)
  {
    if WrapFrom(s, width, 0) == None {
      var j := WrapFromGivesUp(s, width, 0);
    } else {
      WrapFromWraps(s, width, 0);
      assert s[0..] == s;
      if exists j: nat :: SpacelessWindow(s, width, j) {
        var j: nat :| SpacelessWindow(s, width, j);
        WrapFromGivesUpAt(s, width, 0, j);
      }
    }
  }

  /** The line cut before the space at `i + lastIndex`, put in front of the
      wrap of the rest, keeps the wrap's properties. */
  lemma WrapLine(text: string, width: nat, i: nat, lastIndex: nat, rest: seq<string>)
    requires i + width < |text| && lastIndex < width && text[i + lastIndex] == ' '
    requires Wraps(rest, text[i + lastIndex + 1..], width)
    ensures Wraps([text[i..i + lastIndex]] + rest, text[i..], width)
  {
    var line := text[i..i + lastIndex];
    var lines := [line] + rest;
    assert lines[1..] == rest;
    assert Join(lines, " ") == line + " " + Join(rest, " ");
    assert text[i..] == line + [text[i + lastIndex]] + text[i + lastIndex + 1..];
    assert forall j :: 1 <= j < |lines| ==> lines[j] == rest[j - 1];
  }

  /** One step of the wrap: the window at `i` is full and has a space. */
  lemma WrapFromStep(text: string, width: nat, i: nat, lastIndex: int)
    requires 0 < width && i + width < |text|
    requires lastIndex == LastIndexOf(text[i..i + width], ' ') != -1
    ensures 0 <= lastIndex < width
    ensures WrapFrom(text, width, i) == Prefixed([text[i..i + lastIndex]], WrapFrom(text, width, i + lastIndex + 1))
  {
  }

  /** The wrap from `i` with its lines joined by `nl`, or `None` when the
      wrap gives up. */
  function JoinedFrom(s: string, width: nat, nl: string, i: nat): Option<string>
    requires 0 < width && i < |s|
  {
    match WrapFrom(s, width, i)
      case None => None
      case Some(lines) => Some(Join(lines, nl))
  }

  /** The whole text wrapped and joined by `nl`, or `None`. */
  function JoinedWrap(s: string, width: nat, nl: string): Option<string>
    requires 0 < width && 0 < |s|
  {
    JoinedFrom(s, width, nl, 0)
  }

  /** `acc` put in front of a joined wrap that may have given up. */
  function After(acc: string, rest: Option<string>): Option<string> {
    if rest == None then None else Some(acc + rest.value)
  }

  lemma AfterNothing(rest: Option<string>)
    ensures After("", rest) == rest
  {
    if rest.Some? {
      assert "" + rest.value == rest.value;
    }
  }

  lemma AfterTwice(acc: string, more: string, rest: Option<string>)
    ensures After(acc, After(more, rest)) == After(acc + more, rest)
  {
    if rest.Some? {
      assert acc + (more + rest.value) == acc + more + rest.value;
    }
  }

  /** A full window with a space: its line and `nl` come first. */
  lemma JoinedFromStep(s: string, width: nat, nl: string, i: nat, lastIndex: int)
    requires 0 < width && i + width < |s|
    requires lastIndex == LastIndexOf(s[i..i + width], ' ') != -1
    ensures 0 <= lastIndex < width
    ensures JoinedFrom(s, width, nl, i) ==
      After(s[i..i + lastIndex] + nl, JoinedFrom(s, width, nl, i + lastIndex + 1))
  {
    WrapFromStep(s, width, i, lastIndex);
    var line := s[i..i + lastIndex];
    var next := i + lastIndex + 1;
    if WrapFrom(s, width, next).Some? {
      var rest := WrapFrom(s, width, next).value;
      WrapFromWraps(s, width, next);
      var lines := [line] + rest;
      assert lines[1..] == rest;
      assert Join(lines, nl) == line + nl + Join(rest, nl);
    }
  }

  /** A loop turn that cuts a line keeps what the text wraps to: the part
      built so far with the line and `nl` appended, before the wrap from
      after the space. */
  lemma JoinedWrapAdvance(s: string, width: nat, nl: string, i: nat, acc: string, lastIndex: int)
    requires 0 < width && i + width < |s|
    requires lastIndex == LastIndexOf(s[i..i + width], ' ') != -1
    requires JoinedWrap(s, width, nl) == After(acc, JoinedFrom(s, width, nl, i))
    ensures 0 <= lastIndex < width
    ensures JoinedWrap(s, width, nl) ==
      After(acc + s[i..i + lastIndex] + nl, JoinedFrom(s, width, nl, i + lastIndex + 1))
  {
    var line := s[i..i + lastIndex];
    JoinedFromStep(s, width, nl, i, lastIndex);
    AfterTwice(acc, line + nl, JoinedFrom(s, width, nl, i + lastIndex + 1));
    assert acc + (line + nl) == acc + line + nl;
  }

  /** The rest fits: it is the last line, appended to the part built so
      far. */
  lemma JoinedWrapLast(s: string, width: nat, nl: string, i: nat, acc: string, rest: string)
    requires 0 < width && i < |s| && rest == s[i..i + Min(width, |s| - i)] && |s| <= i + |rest|
    requires JoinedWrap(s, width, nl) == After(acc, JoinedFrom(s, width, nl, i))
    ensures JoinedWrap(s, width, nl) == Some(acc + rest)
  {
    assert rest == s[i..];
  }

  /** A full window without a space: the wrap gives up. */
  lemma JoinedWrapGiveUp(s: string, width: nat, nl: string, i: nat, acc: string)
    requires 0 < width && i + width < |s| && LastIndexOf(s[i..i + width], ' ') == -1
    requires JoinedWrap(s, width, nl) == After(acc, JoinedFrom(s, width, nl, i))
    ensures JoinedWrap(s, width, nl) == None
  {
  }

  /** `BreakLines(text, maxLength, newLineSymbol)`. The text is trimmed and
      the line width is `maxLength - |newLineSymbol|`. When that width is not
      positive, or the trimmed text is null or fits, the trimmed text is
      returned. Otherwise the greedy wrap's lines joined by the new-line
      symbol are returned, or the trimmed text itself when the wrap gives up. */
  method BreakLines(text: Option<string>, maxLength: int, newLineSymbol: string) returns (r: Option<string>)
    ensures var t, width := Trimmed(text), maxLength - |newLineSymbol|;
      width <= 0 || t == None || |t.value| <= width ==> r == t
    ensures var t, width := Trimmed(text), maxLength - |newLineSymbol|;
      0 < width && t != None && width < |t.value| ==>
        r == if JoinedWrap(t.value, width, newLineSymbol) == None then t else JoinedWrap(t.value, width, newLineSymbol)
  {
    var t := Trimmed(text);
    var width := maxLength - |newLineSymbol|;
    if width <= 0 {
      return t;
    }
    if t == None || |t.value| <= width {
      return t;
    }
    var wrapped := WrapLines(t.value, width, newLineSymbol);
    if wrapped == None {
      r := t;
    } else {
      r := wrapped;
    }
  }

  /** The loop of `BreakLines` over a text longer than the width: it cuts
      lines at the last space of each window, appending each line and the
      new-line symbol, until the rest fits or a window has no space. The
      loop index strictly increases and the loop never ends through its
      condition: every exit is one of the two returns inside it. */
  method WrapLines(s: string, width: nat, newLineSymbol: string) returns (r: Option<string>)
    requires 0 < width < |s|
    ensures r == JoinedWrap(s, width, newLineSymbol)
  {
    var currentIndex := 0;
    var truncatedString := "";
    AfterNothing(JoinedWrap(s, width, newLineSymbol));
    while currentIndex < |s|
      invariant currentIndex < |s|
      invariant JoinedWrap(s, width, newLineSymbol) ==
        After(truncatedString, JoinedFrom(s, width, newLineSymbol, currentIndex))
      decreases |s| - currentIndex
    {
      var substring := s[currentIndex..currentIndex + Min(width, |s| - currentIndex)];
      if currentIndex + |substring| >= |s| {
        JoinedWrapLast(s, width, newLineSymbol, currentIndex, truncatedString, substring);
        return Some(truncatedString + substring);
      }
      var lastIndex := LastIndexOf(substring, ' ');
      assert substring == s[currentIndex..currentIndex + width];
      if lastIndex == -1 {
        JoinedWrapGiveUp(s, width, newLineSymbol, currentIndex, truncatedString);
        return None;
      }
      JoinedWrapAdvance(s, width, newLineSymbol, currentIndex, truncatedString, lastIndex);
      var line := s[currentIndex..currentIndex + lastIndex];
      truncatedString := truncatedString + line + newLineSymbol;
      currentIndex := currentIndex + lastIndex + 1;
    }
    assert false;
    return Some(truncatedString);
  }

  // ===========================================================================
  // ReplaceUmlauts
  // ===========================================================================

  /** The `UmlautMapping` dictionary. */
  const UmlautMapping: map<char, string> := map[
    '\U{E4}' := "ae",  // ä
    '\U{F6}' := "oe",  // ö
    '\U{FC}' := "ue",  // ü
    '\U{C4}' := "Ae",  // Ä
    '\U{D6}' := "Oe",  // Ö
    '\U{DC}' := "Ue",  // Ü
    '\U{DF}' := "ss"   // ß
  ]

  /** What one character turns into: its two-letter form when it is mapped,
      itself otherwise. */
  function Replacement(c: char): (r: string)
    ensures c in UmlautMapping ==> |r| == 2
    ensures c !in UmlautMapping ==> r == [c]
    ensures forall k :: 0 <= k < |r| ==> r[k] !in UmlautMapping
  {
    if c in UmlautMapping then UmlautMapping[c] else [c]
  }

  /** The transliteration of a whole string, character by character from the
      left, as the fold over a `StringBuilder` produces it. */
  function Transliterate(s: string): string
  {
    if s == [] then "" else Transliterate(s[..|s| - 1]) + Replacement(s[|s| - 1])
  }

  /** `ReplaceUmlauts`: the `Aggregate` over the characters, appending to a
      `StringBuilder`. */
  method ReplaceUmlauts(stringValue: string) returns (r: string)
    ensures r == Transliterate(stringValue)
  {
    var stringBuilder := "";
    for i := 0 to |stringValue|
      invariant stringBuilder == Transliterate(stringValue[..i])
    {
      assert stringValue[..i + 1][..i] == stringValue[..i];
      stringBuilder := stringBuilder + Replacement(stringValue[i]);
    }
    assert stringValue[..|stringValue|] == stringValue;
    r := stringBuilder;
  }

  /** The number of mapped characters in `s`. */
  function MappedCount(s: string): nat
  {
    if s == [] then 0 else MappedCount(s[..|s| - 1]) + (if s[|s| - 1] in UmlautMapping then 1 else 0)
  }

  /** Each mapped character adds one to the length. */
  lemma {:induction false} TransliterateLength(s: string)
    ensures |Transliterate(s)| == |s| + MappedCount(s)
    decreases |s|
  {
    if s != [] {
      TransliterateLength(s[..|s| - 1]);
    }
  }

  /** Nothing the transliteration produces is mapped again. */
  lemma {:induction false} TransliterateUnmapped(s: string)
    ensures forall k :: 0 <= k < |Transliterate(s)| ==> Transliterate(s)[k] !in UmlautMapping
    decreases |s|
  {
    if s != [] {
      TransliterateUnmapped(s[..|s| - 1]);
      var init, last := Transliterate(s[..|s| - 1]), Replacement(s[|s| - 1]);
      forall k | 0 <= k < |init + last| ensures (init + last)[k] !in UmlautMapping {
        if k >= |init| { assert (init + last)[k] == last[k - |init|]; }
      }
    }
  }

  /** A string without mapped characters is copied unchanged. */
  lemma {:induction false} TransliterateUnmappedIdentity(s: string)
    requires forall k :: 0 <= k < |s| ==> s[k] !in UmlautMapping
    ensures Transliterate(s) == s
    decreases |s|
  {
    if s != [] {
      var init := s[..|s| - 1];
      assert forall k :: 0 <= k < |init| ==> init[k] == s[k];
      TransliterateUnmappedIdentity(init);
      assert Replacement(s[|s| - 1]) == [s[|s| - 1]];
      assert init + [s[|s| - 1]] == s;
    }
  }

  /** Transliterating twice is transliterating once. */
  lemma TransliterateIdempotent(s: string)
    ensures Transliterate(Transliterate(s)) == Transliterate(s)
  {
    TransliterateUnmapped(s);
    TransliterateUnmappedIdentity(Transliterate(s));
  }

  /** The transliteration works character by character: it distributes over
      concatenation. */
  lemma {:induction false} TransliterateAppend(a: string, b: string)
    ensures Transliterate(a + b) == Transliterate(a) + Transliterate(b)
    decreases |b|
  {
    if b != [] {
      assert (a + b)[..|a + b| - 1] == a + b[..|b| - 1];
      TransliterateAppend(a, b[..|b| - 1]);
    } else {
      assert a + b == a;
    }
  }

  // ===========================================================================
  // AppendQueryParameter
  // ===========================================================================

  /** `AppendQueryParameter(input, value)`: `value` appended after `'&'` when
      the input already holds a `'?'`, after `'?'` otherwise. The input is a
      prefix of the result, the value its tail, and the result always holds a
      `'?'`. */
  function AppendQueryParameter(input: string, value: string): (r: string)
    ensures |r| == |input| + 1 + |value|
    ensures r[..|input|] == input && r[|input| + 1..] == value
    ensures r[|input|] == (if '?' in input then '&' else '?')
    ensures '?' in r
  {
    var r := if '?' in input then input + "&" + value else input + "?" + value;
    assert r[|input|] in r;
    r
  }

  /** A string interpolation hole: a null value shows as nothing. */
  function OrEmpty(s: Option<string>): string {
    if s == None then "" else s.value
  }

  /** `AppendQueryParameter(input, key, value)`: the parameter is
      `$"{key}={value}"`, so the result is the input, the separator, the key,
      `'='` and the value. */
  function AppendQueryParameterPair(input: string, key: Option<string>, value: Option<string>): (r: string)
    ensures |r| == |input| + 2 + |OrEmpty(key)| + |OrEmpty(value)|
    ensures r[..|input|] == input && '?' in r
    ensures r[|input|] == (if '?' in input then '&' else '?')
    ensures r[|input| + 1..] == OrEmpty(key) + "=" + OrEmpty(value)
  {
    var param := OrEmpty(key) + "=" + OrEmpty(value);
    AppendQueryParameter(input, param)
  }

  /** Every append after the first uses `'&'`. */
  lemma SecondAppendUsesAmpersand(input: string, first: string, second: string)
    ensures var once := AppendQueryParameter(input, first);
      AppendQueryParameter(once, second) == once + "&" + second
  {
    var once := AppendQueryParameter(input, first);
    var twice := AppendQueryParameter(once, second);
    assert twice == twice[..|once|] + [twice[|once|]] + twice[|once| + 1..];
  }

  // ===========================================================================
  // SplitCamelCase: Regex.Replace(input, "([A-Z])", delimiter + "$1").TrimStart(delimiter)
  // ===========================================================================

  /** `s` without any occurrence of `c`. */
  function Remove(s: string, c: char): string
  {
    if s == [] then "" else (if s[0] == c then "" else [s[0]]) + Remove(s[1..], c)
  }

  /** How many times `c` occurs in `s`. */
  function CountOf(s: string, c: char): nat
  {
    if s == [] then 0 else (if s[0] == c then 1 else 0) + CountOf(s[1..], c)
  }

  /** How many ASCII capitals `s` holds. */
  function CapitalCount(s: string): nat
  {
    if s == [] then 0 else (if IsUpper(s[0]) then 1 else 0) + CapitalCount(s[1..])
  }

  /** What the replacement pattern `delimiter + "$1"` makes of one matched
      capital `c`. For every delimiter but `'$'` it is the delimiter followed
      by the captured capital. With `'$'` the pattern reads `"$$1"`, whose
      `$$` stands for a literal dollar sign, so the capital is replaced by the
      two characters `"$1"` and is lost. */
  function CapitalReplacement(c: char, delimiter: char): (r: string)
    ensures |r| == 2 && r[0] == delimiter
    ensures delimiter != '$' ==> r[1] == c
    ensures delimiter == '$' ==> r == "$1"
  {
    if delimiter == '$' then "$1" else [delimiter, c]
  }

  /** The regular-expression replacement of `"([A-Z])"`: every ASCII capital
      is replaced by `CapitalReplacement`, every other character is kept. */
  function InsertBeforeCapitals(s: string, delimiter: char): string
    decreases |s|
  {
    if s == [] then ""
    else (if IsUpper(s[0]) then CapitalReplacement(s[0], delimiter) else [s[0]]) + InsertBeforeCapitals(s[1..], delimiter)
  }

  /** The replacement works character by character: it distributes over
      concatenation. */
  lemma {:induction false} InsertBeforeCapitalsAppend(a: string, b: string, delimiter: char)
    ensures InsertBeforeCapitals(a + b, delimiter) == InsertBeforeCapitals(a, delimiter) + InsertBeforeCapitals(b, delimiter)
    decreases |a|
  {
    if a == [] {
      assert a + b == b;
    } else {
      assert (a + b)[1..] == a[1..] + b;
      InsertBeforeCapitalsAppend(a[1..], b, delimiter);
    }
  }

  /** Each capital adds one character, and one delimiter, and nothing else
      is added. */
  lemma {:induction false} InsertBeforeCapitalsCounts(s: string, delimiter: char)
    ensures |InsertBeforeCapitals(s, delimiter)| == |s| + CapitalCount(s)
    ensures CountOf(InsertBeforeCapitals(s, delimiter), delimiter) == CountOf(s, delimiter) + CapitalCount(s)
    decreases |s|
  {
    if s != [] {
      InsertBeforeCapitalsCounts(s[1..], delimiter);
      var head := if IsUpper(s[0]) then CapitalReplacement(s[0], delimiter) else [s[0]];
      var rest := InsertBeforeCapitals(s[1..], delimiter);
      CountOfAppend(head, rest, delimiter);
      if IsUpper(s[0]) {
        assert head[1..][1..] == [];
        assert CountOf(head, delimiter) == 1 + (if head[1] == delimiter then 1 else 0);
        assert head[1] == delimiter <==> s[0] == delimiter;
      } else {
        assert head[1..] == [];
      }
    }
  }

  lemma {:induction false} CountOfAppend(a: string, b: string, c: char)
    ensures CountOf(a + b, c) == CountOf(a, c) + CountOf(b, c)
    decreases |a|
  {
    if a == [] {
      assert a + b == b;
    } else {
      assert (a + b)[1..] == a[1..] + b;
      CountOfAppend(a[1..], b, c);
    }
  }

  /** Apart from delimiters, the insertion keeps the text as it is, unless
      the delimiter is `'$'`. */
  lemma {:induction false} InsertBeforeCapitalsKeepsText(s: string, delimiter: char)
    requires delimiter != '$'
    ensures Remove(InsertBeforeCapitals(s, delimiter), delimiter) == Remove(s, delimiter)
    decreases |s|
  {
    if s != [] {
      var head := if IsUpper(s[0]) then CapitalReplacement(s[0], delimiter) else [s[0]];
      var rest := InsertBeforeCapitals(s[1..], delimiter);
      InsertBeforeCapitalsKeepsText(s[1..], delimiter);
      RemoveAppend(head, rest, delimiter);
      if IsUpper(s[0]) {
        assert head[1..] == [s[0]];
      }
      assert s == [s[0]] + s[1..];
      RemoveAppend([s[0]], s[1..], delimiter);
    }
  }

  /** With `'$'` as the delimiter no capital survives the replacement. */
  lemma {:induction false} InsertDollarDropsCapitals(s: string)
    ensures forall i :: 0 <= i < |InsertBeforeCapitals(s, '$')| ==> !IsUpper(InsertBeforeCapitals(s, '$')[i])
    decreases |s|
  {
    if s != [] {
      InsertDollarDropsCapitals(s[1..]);
      var head := if IsUpper(s[0]) then CapitalReplacement(s[0], '$') else [s[0]];
      var rest := InsertBeforeCapitals(s[1..], '$');
      forall i | 0 <= i < |head + rest| ensures !IsUpper((head + rest)[i]) {
        if i >= |head| { assert (head + rest)[i] == rest[i - |head|]; }
      }
    }
  }

  lemma InsertBeforeCapitalsText(s: string, delimiter: char)
    ensures delimiter != '$' ==> Remove(InsertBeforeCapitals(s, delimiter), delimiter) == Remove(s, delimiter)
    ensures delimiter == '$' ==> forall i :: 0 <= i < |InsertBeforeCapitals(s, '$')| ==> !IsUpper(InsertBeforeCapitals(s, '$')[i])
  {
    if delimiter != '$' {
      InsertBeforeCapitalsKeepsText(s, delimiter);
    } else {
      InsertDollarDropsCapitals(s);
    }
  }

  /** Every capital of `r` has `delimiter` just before it. */
  predicate CapitalsMarked(r: string, delimiter: char) {
    forall i :: 0 <= i < |r| && IsUpper(r[i]) ==> 0 < i && r[i - 1] == delimiter
  }

  /** When the delimiter is not a capital, every capital of the result has
      the delimiter just before it. */
  lemma {:induction false} InsertBeforeCapitalsMarks(s: string, delimiter: char)
    ensures !IsUpper(delimiter) ==> CapitalsMarked(InsertBeforeCapitals(s, delimiter), delimiter)
    decreases |s|
  {
    if s != [] && !IsUpper(delimiter) {
      var head := if IsUpper(s[0]) then CapitalReplacement(s[0], delimiter) else [s[0]];
      var rest := InsertBeforeCapitals(s[1..], delimiter);
      InsertBeforeCapitalsMarks(s[1..], delimiter);
      var r := head + rest;
      assert r == InsertBeforeCapitals(s, delimiter);
      forall i | 0 <= i < |r| && IsUpper(r[i]) ensures 0 < i && r[i - 1] == delimiter {
        if i < |head| {
          assert r[i] == head[i];
          assert i == 1 && r[0] == delimiter;
        } else if i == |head| {
          assert false;
        } else {
          assert r[i] == rest[i - |head|];
          assert r[i - 1] == rest[i - |head| - 1];
        }
      }
    }
  }

  lemma {:induction false} RemoveAppend(a: string, b: string, c: char)
    ensures Remove(a + b, c) == Remove(a, c) + Remove(b, c)
    decreases |a|
  {
    if a == [] {
      assert a + b == b;
    } else {
      assert (a + b)[1..] == a[1..] + b;
      RemoveAppend(a[1..], b, c);
    }
  }

  /** `string.TrimStart(char)`: every leading `c` dropped. */
  function TrimStartChar(s: string, c: char): (r: string)
    ensures |r| <= |s| && r == s[|s| - |r|..]
    ensures r == [] || r[0] != c
    ensures forall i :: 0 <= i < |s| - |r| ==> s[i] == c
    ensures Remove(r, c) == Remove(s, c)
    decreases |s|
  {
    if s != [] && s[0] == c then
      var r := TrimStartChar(s[1..], c);
      TrimStartStep(s, c, r);
      r
    else s
  }

  /** Dropping one more leading `c` keeps the facts `TrimStartChar` states. */
  lemma TrimStartStep(s: string, c: char, r: string)
    requires s != [] && s[0] == c
    requires |r| <= |s| - 1 && r == s[1..][|s| - 1 - |r|..]
    requires forall i :: 0 <= i < |s| - 1 - |r| ==> s[1..][i] == c
    requires Remove(r, c) == Remove(s[1..], c)
    ensures r == s[|s| - |r|..]
    ensures forall i :: 0 <= i < |s| - |r| ==> s[i] == c
    ensures Remove(r, c) == Remove(s, c)
  {
    assert s[1..][|s| - 1 - |r|..] == s[|s| - |r|..];
    forall i | 0 < i < |s| - |r| ensures s[i] == c {
      assert s[i] == s[1..][i - 1];
    }
  }

  /** `SplitCamelCase(input, delimiter)`: a null or empty input comes back
      as it is. Otherwise the result does not start with the delimiter. For
      a delimiter other than `'$'` it holds the same characters apart from
      delimiters and (for a delimiter that is not a capital) every capital but
      a leading one has the delimiter just before it; with `'$'` it holds no
      capital at all. */
  function SplitCamelCase(input: Option<string>, delimiter: char): (r: Option<string>)
    ensures IsNullOrEmpty(input) ==> r == input
    ensures !IsNullOrEmpty(input) ==> r.Some? && (r.value == [] || r.value[0] != delimiter)
    ensures !IsNullOrEmpty(input) && delimiter != '$' ==> Remove(r.value, delimiter) == Remove(input.value, delimiter)
    ensures !IsNullOrEmpty(input) && !IsUpper(delimiter) ==>
      forall i :: 0 < i < |r.value| && IsUpper(r.value[i]) ==> r.value[i - 1] == delimiter
    ensures !IsNullOrEmpty(input) && delimiter == '$' ==>
      forall i :: 0 <= i < |r.value| ==> !IsUpper(r.value[i])
  {
    if IsNullOrEmpty(input) then input
    else
      var inserted := InsertBeforeCapitals(input.value, delimiter);
      InsertBeforeCapitalsText(input.value, delimiter);
      InsertBeforeCapitalsMarks(input.value, delimiter);
      var r := TrimStartChar(inserted, delimiter);
      assert forall i :: 0 <= i < |r| ==> r[i] == inserted[|inserted| - |r| + i];
      Some(r)
  }

  /** For an input that does not start with the delimiter, only the
      delimiter inserted before a leading capital is trimmed: the result is
      one character longer than the input per capital, and holds one more
      delimiter than the input per capital, the leading capital excepted. */
  lemma SplitCamelCaseCounts(input: string, delimiter: char)
    requires input != [] && input[0] != delimiter && !IsUpper(delimiter)
    ensures var r := SplitCamelCase(Some(input), delimiter).value;
      var inserted := CapitalCount(input) - (if IsUpper(input[0]) then 1 else 0);
      |r| == |input| + inserted && CountOf(r, delimiter) == CountOf(input, delimiter) + inserted
  {
    var s := InsertBeforeCapitals(input, delimiter);
    InsertBeforeCapitalsCounts(input, delimiter);
    var rest := InsertBeforeCapitals(input[1..], delimiter);
    var r := SplitCamelCase(Some(input), delimiter).value;
    if IsUpper(input[0]) {
      var head := CapitalReplacement(input[0], delimiter);
      assert s == head + rest;
      assert s[0] == delimiter;
      assert s[1] != delimiter;
      assert r == s[1..] by {
        assert s[1..][0] != delimiter;
        assert TrimStartChar(s[1..], delimiter) == s[1..];
      }
      assert s == [delimiter] + s[1..];
      CountOfAppend([delimiter], s[1..], delimiter);
      assert [delimiter][1..] == [];
    } else {
      assert s == [input[0]] + rest;
      assert r == s;
    }
  }

  /** The example of the method's own documentation: `"EventName"` becomes
      `"Event.Name"`. */
  lemma SplitCamelCaseEventName()
    ensures SplitCamelCase(Some("EventName"), '.') == Some("Event.Name")
  {
    EventNameInsert();
    var s := ".Event.Name";
    assert s[0] == '.' && s[1] == 'E';
    assert TrimStartChar(s[1..], '.') == s[1..];
    assert s[1..] == "Event.Name";
  }

  lemma EventNameInsert()
    ensures InsertBeforeCapitals("EventName", '.') == ".Event.Name"
  {
    EventNameWords('.');
  }

  /** `"EventName"` is the two capitalised words `"Event"` and `"Name"`. */
  lemma EventNameWords(delimiter: char)
    ensures InsertBeforeCapitals("EventName", delimiter)
         == CapitalReplacement('E', delimiter) + "vent" + CapitalReplacement('N', delimiter) + "ame"
  {
    var event, name := "vent", "ame";
    assert forall i :: 0 <= i < |event| ==> !IsUpper(event[i]);
    assert forall i :: 0 <= i < |name| ==> !IsUpper(name[i]);
    assert "EventName" == ['E'] + event + (['N'] + name);
    TwoCapitalWords('E', event, 'N', name, delimiter);
  }

  lemma TwoCapitalWords(c: char, v: string, d: char, w: string, delimiter: char)
    requires IsUpper(c) && IsUpper(d)
    requires forall i :: 0 <= i < |v| ==> !IsUpper(v[i])
    requires forall i :: 0 <= i < |w| ==> !IsUpper(w[i])
    ensures InsertBeforeCapitals([c] + v + ([d] + w), delimiter)
         == CapitalReplacement(c, delimiter) + v + CapitalReplacement(d, delimiter) + w
  {
    InsertBeforeCapitalsAppend([c] + v, [d] + w, delimiter);
    CapitalWord(c, v, delimiter);
    CapitalWord(d, w, delimiter);
  }

  /** A capital followed by lower-case text only changes at the capital. */
  lemma CapitalWord(c: char, w: string, delimiter: char)
    requires IsUpper(c)
    requires forall i :: 0 <= i < |w| ==> !IsUpper(w[i])
    ensures InsertBeforeCapitals([c] + w, delimiter) == CapitalReplacement(c, delimiter) + w
  {
    assert ([c] + w)[1..] == w;
    NoCapitalsUnchanged(w, delimiter);
  }

  lemma {:induction false} NoCapitalsUnchanged(w: string, delimiter: char)
    requires forall i :: 0 <= i < |w| ==> !IsUpper(w[i])
    ensures InsertBeforeCapitals(w, delimiter) == w
    decreases |w|
  {
    if w != [] {
      NoCapitalsUnchanged(w[1..], delimiter);
    }
  }

  /** With `'$'` as the delimiter each capital turns into `"$1"` and the
      leading `'$'` is trimmed: `"EventName"` becomes `"1vent$1ame"`. */
  lemma SplitCamelCaseDollar()
    ensures SplitCamelCase(Some("EventName"), '$') == Some("1vent$1ame")
  {
    DollarInsert();
    var s := "$1vent$1ame";
    assert s[0] == '$' && s[1] == '1';
    assert TrimStartChar(s[1..], '$') == s[1..];
    assert s[1..] == "1vent$1ame";
  }

  lemma DollarInsert()
    ensures InsertBeforeCapitals("EventName", '$') == "$1vent$1ame"
  {
    EventNameWords('$');
  }

  // ===========================================================================
  // ToCamelCase
  // ===========================================================================

  /** The separators `ToCamelCase` splits at. */
  predicate IsSeparator(c: char) { c == ' ' || c == '-' || c == '_' }

  predicate NoSeparator(s: string) {
    forall i :: 0 <= i < |s| ==> !IsSeparator(s[i])
  }

  /** `s` with every separator removed. */
  function RemoveSeparators(s: string): string
  {
    if s == [] then "" else (if IsSeparator(s[0]) then "" else [s[0]]) + RemoveSeparators(s[1..])
  }

  /** The words joined without anything between them. */
  function Concat(words: seq<string>): string
  {
    if words == [] then "" else words[0] + Concat(words[1..])
  }

  /** The length of the word at the start of `s`: its run of non-separator
      characters. */
  function WordLength(s: string): (k: nat)
    requires s != [] && !IsSeparator(s[0])
    ensures 1 <= k <= |s| && (k == |s| || IsSeparator(s[k]))
    ensures forall i :: 0 <= i < k ==> !IsSeparator(s[i])
    decreases |s|
  {
    if |s| == 1 || IsSeparator(s[1]) then 1
    else
      var k := WordLength(s[1..]) + 1;
      assert forall i :: 1 <= i < k ==> s[i] == s[1..][i - 1];
      k
  }

  /** Separators are removed piece by piece. */
  lemma {:induction false} RemoveSeparatorsAppend(a: string, b: string)
    ensures RemoveSeparators(a + b) == RemoveSeparators(a) + RemoveSeparators(b)
    decreases |a|
  {
    if a == [] {
      assert a + b == b;
    } else {
      assert (a + b)[1..] == a[1..] + b;
      RemoveSeparatorsAppend(a[1..], b);
    }
  }

  /** A text without separators is kept whole. */
  lemma {:induction false} RemoveSeparatorsOfWord(w: string)
    requires NoSeparator(w)
    ensures RemoveSeparators(w) == w
    decreases |w|
  {
    if w != [] {
      assert NoSeparator(w[1..]) by {
        assert forall i :: 0 <= i < |w| - 1 ==> w[1..][i] == w[i + 1];
      }
      RemoveSeparatorsOfWord(w[1..]);
    }
  }

  /** `input.Split(new[] { ' ', '-', '_' }, StringSplitOptions.RemoveEmptyEntries)`:
      the maximal runs of non-separators, in order. Every word is non-empty
      and free of separators, and together they are the input without its
      separators. */
  function Words(s: string): (words: seq<string>)
    ensures forall j :: 0 <= j < |words| ==> words[j] != [] && NoSeparator(words[j])
    decreases |s|
  {
    if s == [] then []
    else if IsSeparator(s[0]) then Words(s[1..])
    else
      var k := WordLength(s);
      var words := [s[..k]] + Words(s[k..]);
      assert words[1..] == Words(s[k..]);
      assert NoSeparator(s[..k]) by {
        assert forall i :: 0 <= i < k ==> s[..k][i] == s[i];
      }
      words
  }

  /** The words are the input without its separators, and there are none
      exactly when the input is only separators. */
  lemma {:induction false} WordsCoverInput(s: string)
    ensures Concat(Words(s)) == RemoveSeparators(s)
    ensures Words(s) == [] <==> forall i :: 0 <= i < |s| ==> IsSeparator(s[i])
    decreases |s|
  {
    if s == [] {
    } else if IsSeparator(s[0]) {
      WordsCoverInput(s[1..]);
      assert (forall i :: 0 <= i < |s| ==> IsSeparator(s[i])) <==> (forall i :: 0 <= i < |s| - 1 ==> IsSeparator(s[1..][i]));
    } else {
      var k := WordLength(s);
      WordsCoverInput(s[k..]);
      WordsCoverWord(s, k);
    }
  }

  /** The step of `WordsCoverInput` for an input that starts with a word. */
  lemma WordsCoverWord(s: string, k: nat)
    requires s != [] && !IsSeparator(s[0]) && k == WordLength(s)
    requires Concat(Words(s[k..])) == RemoveSeparators(s[k..])
    ensures Concat(Words(s)) == RemoveSeparators(s)
    ensures Words(s) != []
  {
    var w, rest := s[..k], s[k..];
    var words := Words(s);
    assert words == [w] + Words(rest);
    assert words[0] == w && words[1..] == Words(rest);
    assert Concat(words) == w + Concat(Words(rest));
    assert NoSeparator(w) by {
      assert forall i :: 0 <= i < k ==> w[i] == s[i];
    }
    RemoveSeparatorsOfWord(w);
    SplitAt(s, k);
    RemoveSeparatorsAppend(w, rest);
  }

  lemma SplitAt(s: string, k: nat)
    requires k <= |s|
    ensures s[..k] + s[k..] == s
  {
  }

  /** A word with its first character upper-cased:
      `word.Substring(0, 1).ToUpper() + word.Substring(1)`. */
  function Capitalize(word: string): (r: string)
    requires word != []
    ensures |r| == |word| && r[0] == ToUpperChar(word[0]) && r[1..] == word[1..]
  {
    ToUpper(word[..1]) + word[1..]
  }

  /** The capitalised words one after the other. */
  function CapitalizedConcat(words: seq<string>): string
    requires forall j :: 0 <= j < |words| ==> words[j] != []
  {
    if words == [] then "" else CapitalizedConcat(words[..|words| - 1]) + Capitalize(words[|words| - 1])
  }

  /** The camel-case form of a non-empty list of words: the first in lower
      case, each later one capitalised. */
  function CamelJoin(words: seq<string>): string
    requires |words| > 0 && forall j :: 0 <= j < |words| ==> words[j] != []
  {
    ToLower(words[0]) + CapitalizedConcat(words[1..])
  }

  /** What `ToCamelCase` returns or throws. A null input or one shorter than
      two characters comes back unchanged; an input made only of separators
      faults on `words[0]`; otherwise the result is the camel-case join of its
      words. */
  function CamelCase(input: Option<string>): Result<Option<string>>
  {
    if input == None || |input.value| < 2 then Ok(input)
    else
      var words := Words(input.value);
      if |words| == 0 then Throws(IndexOutOfRange) else Ok(Some(CamelJoin(words)))
  }

  /** `ToCamelCase`: the loop that appends each later word capitalised. */
  method ToCamelCase(input: Option<string>) returns (r: Result<Option<string>>)
    ensures r == CamelCase(input)
  {
    if input == None || |input.value| < 2 {
      return Ok(input);
    }
    var words := Words(input.value);
    if |words| == 0 {
      return Throws(IndexOutOfRange);
    }
    var result := ToLower(words[0]);
    for i := 1 to |words|
      invariant result == ToLower(words[0]) + CapitalizedConcat(words[1..i])
    {
      CamelCaseStep(words, i, result);
      result := result + ToUpper(words[i][..1]) + words[i][1..];
    }
    assert words[1..|words|] == words[1..];
    return Ok(Some(result));
  }

  /** One turn of the loop appends the next word capitalised. */
  lemma CamelCaseStep(words: seq<string>, i: nat, result: string)
    requires 1 <= i < |words| && forall j :: 0 <= j < |words| ==> words[j] != []
    requires result == ToLower(words[0]) + CapitalizedConcat(words[1..i])
    ensures result + ToUpper(words[i][..1]) + words[i][1..] ==
      ToLower(words[0]) + CapitalizedConcat(words[1..i + 1])
  {
    assert words[1..i + 1] == words[1..i] + [words[i]];
    CapitalizedConcatSnoc(words[1..i], words[i]);
  }

  lemma {:induction false} CapitalizedConcatNoSeparator(words: seq<string>)
    requires forall j :: 0 <= j < |words| ==> words[j] != [] && NoSeparator(words[j])
    ensures NoSeparator(CapitalizedConcat(words))
    ensures ToLower(CapitalizedConcat(words)) == ToLower(Concat(words))
    decreases |words|
  {
    if words != [] {
      var init, last := words[..|words| - 1], words[|words| - 1];
      CapitalizedConcatNoSeparator(init);
      var c := Capitalize(last);
      assert NoSeparator(c) by {
        forall i | 0 <= i < |c| ensures !IsSeparator(c[i]) {
          if i > 0 { assert c[i] == c[1..][i - 1] == last[i]; }
        }
      }
      var a := CapitalizedConcat(init);
      assert NoSeparator(a + c) by {
        forall i | 0 <= i < |a + c| ensures !IsSeparator((a + c)[i]) {
          if i >= |a| { assert (a + c)[i] == c[i - |a|]; }
        }
      }
      ToLowerAppend(a, c);
      assert ToLower(c) == ToLower(last) by {
        forall i | 0 <= i < |c| ensures ToLower(c)[i] == ToLower(last)[i] {
          if i == 0 { LowerOfUpper(last[0]); } else { assert c[i] == c[1..][i - 1] == last[i]; }
        }
      }
      assert words == init + [last];
      ConcatSnoc(init, last);
      ToLowerAppend(Concat(init), last);
    }
  }

  lemma {:induction false} ConcatSnoc(words: seq<string>, last: string)
    ensures Concat(words + [last]) == Concat(words) + last
    decreases |words|
  {
    if words == [] {
      assert [last][1..] == [];
    } else {
      assert (words + [last])[1..] == words[1..] + [last];
      ConcatSnoc(words[1..], last);
    }
  }

  /** Whatever `ToCamelCase` returns for an input of two or more characters
      holds no separator and, up to case, is the input without its
      separators. */
  lemma CamelCaseResult(input: string)
    requires |input| >= 2 && CamelCase(Some(input)).Ok?
    ensures var t := CamelCase(Some(input)).value.value;
      NoSeparator(t) && ToLower(t) == ToLower(RemoveSeparators(input))
  {
    WordsCoverInput(input);
    CamelJoinOfWords(Words(input));
  }

  /** The camel-case join of separator-free words has no separator and, up
      to case, is the words one after the other. */
  lemma CamelJoinOfWords(words: seq<string>)
    requires |words| > 0 && forall j :: 0 <= j < |words| ==> words[j] != [] && NoSeparator(words[j])
    ensures NoSeparator(CamelJoin(words)) && ToLower(CamelJoin(words)) == ToLower(Concat(words))
  {
    var rest := CapitalizedConcat(words[1..]);
    CapitalizedConcatNoSeparator(words[1..]);
    var first := ToLower(words[0]);
    var t := first + rest;
    assert NoSeparator(t) by {
      forall i | 0 <= i < |t| ensures !IsSeparator(t[i]) {
        if i < |first| {
          assert t[i] == ToLowerChar(words[0][i]);
        } else {
          assert t[i] == rest[i - |first|];
        }
      }
    }
    ToLowerAppend(first, rest);
    ToLowerIdempotent(words[0]);
    assert Concat(words) == words[0] + Concat(words[1..]);
    ToLowerAppend(words[0], Concat(words[1..]));
  }

  /** An input of two or more characters made only of separators faults on
      `words[0]`, and only such an input does. */
  lemma CamelCaseFault(input: string)
    requires |input| >= 2
    ensures CamelCase(Some(input)) == Throws(IndexOutOfRange) <==> forall i :: 0 <= i < |input| ==> IsSeparator(input[i])
  {
    WordsCoverInput(input);
  }

  /** A word's length, when it is followed by a separator or by nothing. */
  lemma {:induction false} WordLengthOfWord(w: string, s: string)
    requires w != [] && NoSeparator(w) && (s == [] || IsSeparator(s[0]))
    ensures WordLength(w + s) == |w|
    decreases |w|
  {
    if |w| > 1 {
      assert (w + s)[1..] == w[1..] + s;
      WordLengthOfWord(w[1..], s);
    }
  }

  /** `Split` takes a word off the front of a string when a separator or
      the end of the string follows it. */
  lemma WordsOfWord(w: string, s: string)
    requires w != [] && NoSeparator(w) && (s == [] || IsSeparator(s[0]))
    ensures Words(w + s) == [w] + Words(s)
  {
    WordLengthOfWord(w, s);
    assert (w + s)[..|w|] == w;
    assert (w + s)[|w|..] == s;
  }

  /** `Split` drops a separator. */
  lemma WordsOfSeparator(c: char, s: string)
    requires IsSeparator(c)
    ensures Words([c] + s) == Words(s)
  {
    assert ([c] + s)[1..] == s;
  }

  /** Two words with one separator between them are split into those two
      words. */
  lemma WordsOfTwoWords(a: string, c: char, b: string)
    requires a != [] && NoSeparator(a) && b != [] && NoSeparator(b) && IsSeparator(c)
    ensures Words(a + [c] + b) == [a, b]
  {
    WordsOfWord(b, "");
    assert b + "" == b;
    WordsOfSeparator(c, b);
    WordsOfWord(a, [c] + b);
    assert a + [c] + b == a + ([c] + b);
  }

  /** Two words with one separator between them become the first in lower
      case followed by the second capitalised. */
  lemma CamelCaseTwoWords(a: string, c: char, b: string)
    requires a != [] && NoSeparator(a) && b != [] && NoSeparator(b) && IsSeparator(c)
    ensures CamelCase(Some(a + [c] + b)) == Ok(Some(ToLower(a) + Capitalize(b)))
  {
    WordsOfTwoWords(a, c, b);
    var words := [a, b];
    assert |a + [c] + b| >= 2;
    assert words[1..] == [b];
    assert [b][..0] == [];
    assert CapitalizedConcat([b]) == "" + Capitalize(b);
    assert CamelJoin(words) == ToLower(a) + Capitalize(b);
  }

  /** The first case of the library's own camel-case test. */
  lemma CamelCaseHelloWorld(input: string)
    requires input == "hello world"
    ensures CamelCase(Some(input)) == Ok(Some("helloWorld"))
  {
    var a, b := "hello", "world";
    HelloWorldWords(input, a, b);
    CamelCaseTwoWords(a, ' ', b);
    HelloWorldCase(a, b);
  }

  lemma HelloWorldWords(input: string, a: string, b: string)
    requires input == "hello world" && a == "hello" && b == "world"
    ensures input == a + [' '] + b && NoSeparator(a) && NoSeparator(b)
  {
  }

  lemma HelloWorldCase(a: string, b: string)
    requires a == "hello" && b == "world"
    ensures ToLower(a) + Capitalize(b) == "helloWorld"
  {
    assert ToLower(a) == "hello";
    assert Capitalize(b) == "World";
  }

  /** `Split` undoes joining separator-free words with one separator:
      splitting the joined string gives the words back. */
  lemma {:induction false} WordsOfJoin(words: seq<string>, c: char)
    requires IsSeparator(c)
    requires forall j :: 0 <= j < |words| ==> words[j] != [] && NoSeparator(words[j])
    ensures Words(Join(words, [c])) == words
    decreases |words|
  {
    if |words| == 1 {
      WordsOfWord(words[0], "");
      assert words[0] + "" == words[0];
      assert Words(words[0]) == [words[0]] + [];
    } else if |words| > 1 {
      var later := words[1..];
      assert forall j :: 0 <= j < |later| ==> later[j] == words[j + 1];
      WordsOfJoin(later, c);
      assert words == [words[0]] + later;
      WordsOfJoinStep(words[0], later, c);
    }
  }

  /** One more word in front of a joined list that splits back. */
  lemma WordsOfJoinStep(first: string, later: seq<string>, c: char)
    requires IsSeparator(c) && first != [] && NoSeparator(first) && later != []
    requires Words(Join(later, [c])) == later
    ensures Words(Join([first] + later, [c])) == [first] + later
  {
    var rest := Join(later, [c]);
    assert ([first] + later)[1..] == later;
    assert Join([first] + later, [c]) == first + ([c] + rest);
    WordsOfSeparator(c, rest);
    WordsOfWord(first, [c] + rest);
  }

  /** Words joined with one separator come out in camel case. */
  lemma CamelCaseOfJoin(words: seq<string>, c: char)
    requires IsSeparator(c) && |words| > 0
    requires forall j :: 0 <= j < |words| ==> words[j] != [] && NoSeparator(words[j])
    requires |Join(words, [c])| >= 2
    ensures CamelCase(Some(Join(words, [c]))) == Ok(Some(CamelJoin(words)))
  {
    WordsOfJoin(words, c);
  }

  /** The second case of the library's own camel-case test. */
  lemma CamelCaseSecretString(input: string)
    requires input == "secret-string-to-camel"
    ensures CamelCase(Some(input)) == Ok(Some("secretStringToCamel"))
  {
    var words := ["secret", "string", "to", "camel"];
    SecretStringWords(input, words);
    SecretStringNoSeparator(words);
    CamelCaseOfJoin(words, '-');
    SecretStringCase(words);
  }

  lemma SecretStringWords(input: string, words: seq<string>)
    requires input == "secret-string-to-camel" && words == ["secret", "string", "to", "camel"]
    ensures input == Join(words, "-") && |input| >= 2
  {
    assert words[1..] == ["string", "to", "camel"];
    assert words[1..][1..] == ["to", "camel"];
    assert words[1..][1..][1..] == ["camel"];
    assert Join(["camel"], "-") == "camel";
    assert Join(["to", "camel"], "-") == "to-camel";
    assert Join(["string", "to", "camel"], "-") == "string-to-camel";
    assert Join(words, "-") == "secret-string-to-camel";
  }

  lemma SecretStringNoSeparator(words: seq<string>)
    requires words == ["secret", "string", "to", "camel"]
    ensures forall j :: 0 <= j < |words| ==> words[j] != [] && NoSeparator(words[j])
  {
  }

  lemma SecretStringCase(words: seq<string>)
    requires words == ["secret", "string", "to", "camel"]
    ensures CamelJoin(words) == "secretStringToCamel"
  {
    var first, a, b, c := words[0], words[1], words[2], words[3];
    assert words[1..] == [a, b, c];
    CapitalizedConcatOfThree(a, b, c);
    SecretStringCapitals(first, a, b, c);
  }

  lemma SecretStringCapitals(first: string, a: string, b: string, c: string)
    requires first == "secret" && a == "string" && b == "to" && c == "camel"
    ensures ToLower(first) + (Capitalize(a) + Capitalize(b) + Capitalize(c)) == "secretStringToCamel"
  {
    assert ToLower(first) == "secret";
    assert Capitalize(a) == "String";
    assert Capitalize(b) == "To";
    assert Capitalize(c) == "Camel";
  }

  /** Three words capitalised one after the other. */
  lemma CapitalizedConcatOfThree(a: string, b: string, c: string)
    requires a != [] && b != [] && c != []
    ensures CapitalizedConcat([a, b, c]) == Capitalize(a) + Capitalize(b) + Capitalize(c)
  {
    CapitalizedConcatSnoc([a, b], c);
    CapitalizedConcatSnoc([a], b);
    CapitalizedConcatSnoc([], a);
    assert [a, b, c] == [a, b] + [c] && [a, b] == [a] + [b] && [a] == [] + [a];
  }

  /** Capitalising one more word appends it capitalised. */
  lemma CapitalizedConcatSnoc(words: seq<string>, last: string)
    requires forall j :: 0 <= j < |words| ==> words[j] != []
    requires last != []
    ensures CapitalizedConcat(words + [last]) == CapitalizedConcat(words) + Capitalize(last)
  {
    assert (words + [last])[..|words|] == words;
  }
}
