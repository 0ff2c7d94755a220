/**
  The handful of Python `str` operations the parsers and the directory scan use:
  `split` on a non-empty separator, `'sep'.join`, `startswith`/`endswith`,
  `strip`, the line iteration of a text file, and `<` (code-point
  lexicographic order, used by `sorted`).
 */
module PyStr {
  import opened Wrappers

  /** `sep` occurs in `s` at index `i`. */
  predicate OccursAt(s: string, sep: string, i: nat)
  {
    i + |sep| <= |s| && s[i..i + |sep|] == sep
  }

  /** `sep` occurs nowhere in `s`. */
  predicate NoOccurrence(s: string, sep: string)
  {
    forall k: nat :: k <= |s| ==> !OccursAt(s, sep, k)
  }

  predicate StartsWith(s: string, prefix: string)
  {
    |prefix| <= |s| && s[..|prefix|] == prefix
  }

  predicate EndsWith(s: string, suffix: string)
  {
    |suffix| <= |s| && s[|s| - |suffix|..] == suffix
  }

  /** The index of the first occurrence of `sep` at or after `i` (Python's `str.find(sep, i)`). */
  function FindFrom(s: string, sep: string, i: nat): (r: Option<nat>)
    requires i <= |s|
    ensures r.Some? ==> i <= r.value <= |s| && OccursAt(s, sep, r.value)
    decreases |s| - i
  {
    if OccursAt(s, sep, i) then Some(i)
    else if i == |s| then None
    else FindFrom(s, sep, i + 1)
  }

  /** `find` reports the first occurrence at or after `i`, and `None` only when there is none. */
  lemma {:induction false} FindFromIsFirst(s: string, sep: string, i: nat)
    requires i <= |s|
    ensures FindFrom(s, sep, i).Some? ==> forall k: nat :: i <= k < FindFrom(s, sep, i).value ==> !OccursAt(s, sep, k)
    ensures FindFrom(s, sep, i).None? ==> forall k: nat :: i <= k ==> !OccursAt(s, sep, k)
    decreases |s| - i
  {
    if !OccursAt(s, sep, i) && i < |s| {
      FindFromIsFirst(s, sep, i + 1);
    }
  }

  /** With no occurrence between `i` and an occurrence at `j`, `find` from `i` reports `j`. */
  lemma {:induction false} FindFromReaches(s: string, sep: string, i: nat, j: nat)
    requires i <= j
    requires OccursAt(s, sep, j)
    requires forall k: nat :: i <= k < j ==> !OccursAt(s, sep, k)
    ensures FindFrom(s, sep, i) == Some(j)
    decreases j - i
  {
    if i < j {
      FindFromReaches(s, sep, i + 1, j);
    }
  }

  /** Python's `s.split(sep)`: cut at each occurrence of `sep`, scanning left to right. */
  function Split(s: string, sep: string): (parts: seq<string>)
    requires sep != []
    ensures |parts| >= 1
    decreases |s|
  {
    match FindFrom(s, sep, 0)
    case None => [s]
    case Some(i) => [s[..i]] + Split(s[i + |sep|..], sep)
  }

  /** Python's `sep.join(parts)`. */
  function Join(parts: seq<string>, sep: string): string
  {
    if |parts| == 0 then ""
    else if |parts| == 1 then parts[0]
    else parts[0] + sep + Join(parts[1..], sep)
  }

  /** Joining the pieces of a split with the same separator gives back the original string. */
  lemma {:induction false} JoinSplit(s: string, sep: string)
    requires sep != []
    ensures Join(Split(s, sep), sep) == s
    decreases |s|
  {
    match FindFrom(s, sep, 0)
    case None =>
    case Some(i) =>
      var rest := s[i + |sep|..];
      var tail := Split(rest, sep);
      JoinSplit(rest, sep);
      assert Split(s, sep) == [s[..i]] + tail;
      assert ([s[..i]] + tail)[1..] == tail;
      assert Join([s[..i]] + tail, sep) == s[..i] + sep + Join(tail, sep);
      assert s == s[..i] + s[i..i + |sep|] + rest;
  }

  /** No piece of a split contains the separator. */
  lemma {:induction false} SplitPiecesHaveNoSeparator(s: string, sep: string, n: nat)
    requires sep != []
    requires n < |Split(s, sep)|
    ensures NoOccurrence(Split(s, sep)[n], sep)
    decreases |s|
  {
    FindFromIsFirst(s, sep, 0);
    var found := FindFrom(s, sep, 0);
    if found.None? {
      assert Split(s, sep) == [s];
    } else {
      var i := found.value;
      var rest := s[i + |sep|..];
      var parts := Split(s, sep);
      assert parts == [s[..i]] + Split(rest, sep);
      if n == 0 {
        NoOccurrenceBefore(s, sep, i);
      } else {
        assert parts[n] == Split(rest, sep)[n - 1];
        SplitPiecesHaveNoSeparator(rest, sep, n - 1);
      }
    }
  }

  /** A prefix ending before the first occurrence of `sep` holds none. */
  lemma NoOccurrenceBefore(s: string, sep: string, i: nat)
    requires sep != [] && i <= |s|
    requires forall k: nat :: k < i ==> !OccursAt(s, sep, k)
    ensures NoOccurrence(s[..i], sep)
  {
    forall k: nat | k <= i && k + |sep| <= i ensures !OccursAt(s[..i], sep, k) {
      assert !OccursAt(s, sep, k);
      assert s[..i][k..k + |sep|] == s[k..k + |sep|];
    }
  }

  /** A split-off piece sits at the end, after its separator. */
  lemma EndsWithSeparatorAndPiece(front: string, sep: string, last: string)
    ensures EndsWith(front + sep + last, sep + last)
    ensures EndsWith(front + sep + last, last)
  {
    var s := front + sep + last;
    assert s[|front|..] == sep + last;
    assert s[|front| + |sep|..] == last;
  }

  /** A string splits into more than one piece exactly when the separator occurs in it. */
  lemma SplitIsTrivialIffNoSeparator(s: string, sep: string)
    requires sep != []
    ensures |Split(s, sep)| == 1 <==> NoOccurrence(s, sep)
    ensures |Split(s, sep)| == 1 ==> Split(s, sep) == [s]
  {
    FindFromIsFirst(s, sep, 0);
    match FindFrom(s, sep, 0)
    case None =>
    case Some(i) =>
      assert |Split(s[i + |sep|..], sep)| >= 1;
  }

  /** Where the first occurrence of the separator is, the split makes its first cut. */
  lemma SplitAtFirst(s: string, sep: string, i: nat)
    requires sep != []
    requires OccursAt(s, sep, i)
    requires forall k: nat :: k < i ==> !OccursAt(s, sep, k)
    ensures Split(s, sep) == [s[..i]] + Split(s[i + |sep|..], sep)
  {
    FindFromReaches(s, sep, 0, i);
  }

  /** The first piece of a split is a prefix holding no separator: the whole string, or the part before the first separator. */
  lemma SplitFirstPiece(s: string, sep: string)
    requires sep != []
    ensures var first := Split(s, sep)[0];
      StartsWith(s, first) && NoOccurrence(first, sep) &&
      (first == s <==> NoOccurrence(s, sep)) &&
      (first != s ==> OccursAt(s, sep, |first|))
  {
    SplitPiecesHaveNoSeparator(s, sep, 0);
    SplitIsTrivialIffNoSeparator(s, sep);
    FindFromIsFirst(s, sep, 0);
  }

  /** The last piece of a split is a suffix holding no separator, and when the separator occurs it is preceded by one. */
  lemma SplitLastPiece(s: string, sep: string)
    requires sep != []
    ensures var parts := Split(s, sep);
      var last := parts[|parts| - 1];
      EndsWith(s, last) && NoOccurrence(last, sep) &&
      (!NoOccurrence(s, sep) ==> EndsWith(s, sep + last))
  {
    var parts := Split(s, sep);
    var n := |parts| - 1;
    SplitPiecesHaveNoSeparator(s, sep, n);
    SplitIsTrivialIffNoSeparator(s, sep);
    if n > 0 {
      SplitEndsWithSeparatorAndLast(s, sep);
    }
  }

  /** When a split makes a cut, the string ends with the separator followed by the last piece. */
  lemma SplitEndsWithSeparatorAndLast(s: string, sep: string)
    requires sep != []
    requires |Split(s, sep)| > 1
    ensures var parts := Split(s, sep); EndsWith(s, sep + parts[|parts| - 1]) && EndsWith(s, parts[|parts| - 1])
  {
    JoinSplit(s, sep);
    JoinEndsWithLast(Split(s, sep), sep);
  }

  /** Joining two or more pieces ends with the separator and the last piece. */
  lemma JoinEndsWithLast(parts: seq<string>, sep: string)
    requires |parts| > 1
    ensures EndsWith(Join(parts, sep), sep + parts[|parts| - 1])
    ensures EndsWith(Join(parts, sep), parts[|parts| - 1])
  {
    var n := |parts| - 1;
    assert parts == parts[..n] + [parts[n]];
    JoinSnoc(parts[..n], parts[n], sep);
    EndsWithSeparatorAndPiece(Join(parts[..n], sep), sep, parts[n]);
  }

  /** Splitting at a character: the first piece ends where the character first occurs. */
  lemma SplitFirstPieceAtChar(s: string, c: char, i: nat)
    requires i < |s| && s[i] == c && c !in s[..i]
    ensures Split(s, [c])[0] == s[..i]
  {
    var first := Split(s, [c])[0];
    SplitFirstPiece(s, [c]);
    NoOccurrenceOfChar(first, c);
    NoOccurrenceOfChar(s, c);
    OccursAtChar(s, c, |first|);
    assert forall k :: 0 <= k < i ==> s[..i][k] == s[k];
    assert forall k :: 0 <= k < |first| ==> first[k] == s[k];
  }

  /** Splitting at a character: the last piece starts after the character's last occurrence. */
  lemma SplitLastPieceAfterChar(s: string, c: char, i: nat)
    requires i < |s| && s[i] == c && c !in s[i + 1..]
    ensures var pieces := Split(s, [c]); pieces[|pieces| - 1] == s[i + 1..]
  {
    var pieces := Split(s, [c]);
    var last := pieces[|pieces| - 1];
    SplitLastPiece(s, [c]);
    NoOccurrenceOfChar(last, c);
    NoOccurrenceOfChar(s, c);
    TailAfterLastChar(s, c, i, last);
  }

  /** A tail that follows `c` and holds no `c` starts right after the last `c`. */
  lemma TailAfterLastChar(s: string, c: char, i: nat, last: string)
    requires i < |s| && s[i] == c && c !in s[i + 1..]
    requires EndsWith(s, [c] + last) && c !in last
    ensures last == s[i + 1..]
  {
    var m := |s| - |last| - 1;
    assert s[m..] == [c] + last;
    assert s[m] == c;
    assert forall k :: 0 <= k < |last| ==> last[k] == s[m + 1 + k];
    assert forall k :: i + 1 <= k < |s| ==> s[i + 1..][k - i - 1] == s[k];
    assert m == i;
  }

  /** A string lacking one of the separator's characters holds no occurrence of it. */
  lemma NoOccurrenceOfMissingChar(s: string, sep: string, c: char)
    requires c in sep && c !in s
    ensures NoOccurrence(s, sep)
  {
    var j :| 0 <= j < |sep| && sep[j] == c;
    forall k: nat | k <= |s| ensures !OccursAt(s, sep, k) {
      if k + |sep| <= |s| {
        assert s[k..k + |sep|][j] == s[k + j] != c;
      }
    }
  }

  /** Joining one more piece on the right adds a separator and that piece. */
  lemma {:induction false} JoinSnoc(parts: seq<string>, x: string, sep: string)
    requires |parts| >= 1
    ensures Join(parts + [x], sep) == Join(parts, sep) + sep + x
    decreases |parts|
  {
    if |parts| == 1 {
      assert parts + [x] == [parts[0], x];
    } else {
      assert (parts + [x])[1..] == parts[1..] + [x];
      JoinSnoc(parts[1..], x, sep);
    }
  }

  /** A single-character separator occurs exactly where that character is. */
  lemma OccursAtChar(s: string, c: char, k: nat)
    ensures OccursAt(s, [c], k) <==> k < |s| && s[k] == c
  {
    if k < |s| {
      assert s[k..k + 1] == [s[k]];
    }
  }

  lemma NoOccurrenceOfChar(s: string, c: char)
    ensures NoOccurrence(s, [c]) <==> c !in s
  {
    if c in s {
      var k :| 0 <= k < |s| && s[k] == c;
      OccursAtChar(s, c, k);
    } else {
      forall k: nat | k <= |s| ensures !OccursAt(s, [c], k) {
        OccursAtChar(s, c, k);
      }
    }
  }

  // ---------------------------------------------------------------------------
  // strip()

  /**
    Python's `str.isspace` for one character: the characters `str.strip()`
    removes when called without an argument.
   */
  predicate IsSpace(c: char)
  {
    ('\t' <= c <= '\r') || ('\U{1C}' <= c <= '\U{1F}') || c == ' ' || c == '\U{85}' || c == '\U{A0}' ||
    c == '\U{1680}' || ('\U{2000}' <= c <= '\U{200A}') || c == '\U{2028}' || c == '\U{2029}' ||
    c == '\U{202F}' || c == '\U{205F}' || c == '\U{3000}'
  }

  /** `s` with its leading whitespace removed (`str.lstrip()`). */
  function TrimStart(s: string): string
    decreases |s|
  {
    if |s| > 0 && IsSpace(s[0]) then TrimStart(s[1..]) else s
  }

  /** `s` with its trailing whitespace removed (`str.rstrip()`). */
  function TrimEnd(s: string): string
    decreases |s|
  {
    if |s| > 0 && IsSpace(s[|s| - 1]) then TrimEnd(s[..|s| - 1]) else s
  }

  /** lstrip keeps a suffix that does not start with whitespace and drops only whitespace. */
  lemma {:induction false} TrimStartDropsLeadingSpace(s: string)
    ensures var r := TrimStart(s);
      |r| <= |s| && r == s[|s| - |r|..] &&
      (forall k :: 0 <= k < |s| - |r| ==> IsSpace(s[k])) &&
      (r == [] || !IsSpace(r[0]))
    decreases |s|
  {
    if |s| > 0 && IsSpace(s[0]) {
      TrimStartDropsLeadingSpace(s[1..]);
    }
  }

  /** rstrip keeps a prefix that does not end with whitespace and drops only whitespace. */
  lemma {:induction false} TrimEndDropsTrailingSpace(s: string)
    ensures var r := TrimEnd(s);
      |r| <= |s| && r == s[..|r|] &&
      (forall k :: |r| <= k < |s| ==> IsSpace(s[k])) &&
      (r == [] || !IsSpace(r[|r| - 1]))
    decreases |s|
  {
    if |s| > 0 && IsSpace(s[|s| - 1]) {
      TrimEndDropsTrailingSpace(s[..|s| - 1]);
    }
  }

  /** Python's `s.strip()`. */
  function Strip(s: string): string
  {
    TrimEnd(TrimStart(s))
  }

  /** What `strip()` keeps is a slice of `s` that neither starts nor ends with whitespace, and everything it drops is whitespace. */
  lemma StripKeepsMiddle(s: string)
    ensures var r := Strip(s);
      exists a: nat, b: nat :: a <= b <= |s| && r == s[a..b] &&
        (forall k :: 0 <= k < a ==> IsSpace(s[k])) &&
        (forall k :: b <= k < |s| ==> IsSpace(s[k])) &&
        (r == [] || (!IsSpace(r[0]) && !IsSpace(r[|r| - 1])))
  {
    var t := TrimStart(s);
    var r := TrimEnd(t);
    TrimStartDropsLeadingSpace(s);
    TrimEndDropsTrailingSpace(t);
    var a := |s| - |t|;
    var b := a + |r|;
    assert r == s[a..b];
    forall k | b <= k < |s| ensures IsSpace(s[k]) {
      assert s[k] == t[k - a];
    }
  }

  // ---------------------------------------------------------------------------
  // Line iteration of a text file

  /** The concatenation of a sequence of strings. */
  function Concat(ss: seq<string>): string
  {
    if ss == [] then "" else ss[0] + Concat(ss[1..])
  }

  /** A line as Python's file iteration yields it: non-empty, and its only newline, if any, is its last character. */
  predicate IsLine(line: string)
  {
    line != [] && forall k :: 0 <= k < |line| - 1 ==> line[k] != '\n'
  }

  /**
    The lines `for line in f` yields for a file opened in text mode whose
    decoded content (after universal-newline translation) is `text`: every
    line keeps its terminating newline, the last one may lack it, and an empty
    file has no lines.
   */
  function Lines(text: string): seq<string>
    decreases |text|
  {
    if text == [] then []
    else
      match FindFrom(text, "\n", 0)
      case None => [text]
      case Some(i) => [text[..i + 1]] + Lines(text[i + 1..])
  }

  /** The first line: a line, ending with a newline when more follow, and the rest are the lines of what follows it. */
  lemma FirstLine(text: string)
    requires text != []
    ensures var ls := Lines(text); var first := ls[0];
      IsLine(first) && StartsWith(text, first) &&
      (|ls| == 1 ==> first == text) &&
      (|ls| > 1 ==> first[|first| - 1] == '\n' && ls[1..] == Lines(text[|first|..]))
  {
    FindFromIsFirst(text, "\n", 0);
    match FindFrom(text, "\n", 0)
    case None =>
      forall k | 0 <= k < |text| ensures text[k] != '\n' {
        OccursAtChar(text, '\n', k);
      }
    case Some(i) =>
      OccursAtChar(text, '\n', i);
      forall k | 0 <= k < i ensures text[k] != '\n' {
        OccursAtChar(text, '\n', k);
      }
      assert Lines(text) == [text[..i + 1]] + Lines(text[i + 1..]);
  }

  /**
    Concatenating the lines gives back the text; every line is non-empty,
    holds no newline before its end, and all but the last end with one.
   */
  lemma LinesPartitionText(text: string)
    ensures Concat(Lines(text)) == text
    ensures forall i :: 0 <= i < |Lines(text)| ==>
              IsLine(Lines(text)[i]) && (i < |Lines(text)| - 1 ==> Lines(text)[i][|Lines(text)[i]| - 1] == '\n')
  {
    LinesConcat(text);
    LinesAreLines(text);
  }

  /** A string is its prefix followed by the rest. */
  lemma PrefixAndRest(text: string, first: string)
    requires StartsWith(text, first)
    ensures text == first + text[|first|..]
  {
  }

  lemma {:induction false} LinesConcat(text: string)
    ensures Concat(Lines(text)) == text
    decreases |text|
  {
    if text != [] {
      FirstLine(text);
      var ls := Lines(text);
      var first := ls[0];
      var rest := text[|first|..];
      assert Concat(ls) == first + Concat(ls[1..]);
      PrefixAndRest(text, first);
      if |ls| > 1 {
        LinesConcat(rest);
        assert Concat(ls[1..]) == rest;
      } else {
        assert ls[1..] == [];
        assert rest == [];
      }
    }
  }

  lemma {:induction false} LinesAreLines(text: string)
    ensures forall i :: 0 <= i < |Lines(text)| ==>
              IsLine(Lines(text)[i]) && (i < |Lines(text)| - 1 ==> Lines(text)[i][|Lines(text)[i]| - 1] == '\n')
    decreases |text|
  {
    if text != [] {
      FirstLine(text);
      var ls := Lines(text);
      if |ls| > 1 {
        LinesAreLines(text[|ls[0]|..]);
        assert forall j :: 1 <= j < |ls| ==> ls[j] == ls[1..][j - 1];
      }
    }
  }

  // ---------------------------------------------------------------------------
  // Ordering

  /** `a <= b` on Python strings: lexicographic by code point. */
  predicate StrLeq(a: string, b: string)
  {
    a == [] || (b != [] && (a[0] < b[0] || (a[0] == b[0] && StrLeq(a[1..], b[1..]))))
  }

  lemma {:induction false} StrLeqTotal(a: string, b: string)
    ensures StrLeq(a, b) || StrLeq(b, a)
    decreases |a|
  {
    if a != [] && b != [] && a[0] == b[0] {
      StrLeqTotal(a[1..], b[1..]);
    }
  }

  lemma {:induction false} StrLeqTransitive(a: string, b: string, c: string)
    requires StrLeq(a, b) && StrLeq(b, c)
    ensures StrLeq(a, c)
    decreases |a|
  {
    if a != [] && a[0] == b[0] && b[0] == c[0] {
      StrLeqTransitive(a[1..], b[1..], c[1..]);
    }
  }

  lemma {:induction false} StrLeqAntisymmetric(a: string, b: string)
    requires StrLeq(a, b) && StrLeq(b, a)
    ensures a == b
    decreases |a|
  {
    if a != [] {
      StrLeqAntisymmetric(a[1..], b[1..]);
      assert a == [a[0]] + a[1..] && b == [b[0]] + b[1..];
    }
  }
}
