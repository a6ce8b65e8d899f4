/** String operations of JavaScript that the search engine relies on, on `seq<char>`. */
module Text {

  /** A character matched by `\s` in a JavaScript regular expression; `String.prototype.trim`
      strips exactly the same set (white space and line terminators). */
  predicate IsSpace(c: char) {
    var n := c as int;
    (9 <= n <= 13) || n == 0x20 || n == 0xA0 || n == 0x1680 || (0x2000 <= n <= 0x200A)
    || n == 0x2028 || n == 0x2029 || n == 0x202F || n == 0x205F || n == 0x3000 || n == 0xFEFF
  }

  /** A character matched by `\w`, the word characters that `\b` separates. */
  predicate IsWordChar(c: char) {
    ('a' <= c <= 'z') || ('A' <= c <= 'Z') || ('0' <= c <= '9') || c == '_'
  }

  /** `toLowerCase` on one character, restricted to ASCII letters. */
  function LowerChar(c: char): (l: char)
    ensures IsWordChar(l) <==> IsWordChar(c)
    ensures IsSpace(l) <==> IsSpace(c)
    ensures !('A' <= l <= 'Z')
  {
    if 'A' <= c <= 'Z' then (c as int + 32) as char else c
  }

  /** `toLowerCase` restricted to ASCII: the result holds no upper-case ASCII letter, each
      such letter of `s` becomes its lower-case partner, and every other character stays. */
  function Lower(s: string): (r: string)
    ensures |r| == |s|
    ensures forall i :: 0 <= i < |s| ==> !('A' <= r[i] <= 'Z')
    ensures forall i :: 0 <= i < |s| ==>
      if 'A' <= s[i] <= 'Z' then r[i] as int == s[i] as int + 32 else r[i] == s[i]
  {
    seq(|s|, i requires 0 <= i < |s| => LowerChar(s[i]))
  }

  /** `needle` occurs in `s` starting at position `i`. */
  predicate OccursAt(s: string, needle: string, i: int) {
    0 <= i && i + |needle| <= |s| && s[i..i + |needle|] == needle
  }

  /** `s.includes(needle)`. */
  predicate Contains(s: string, needle: string) {
    exists i | 0 <= i <= |s| - |needle| :: OccursAt(s, needle, i)
  }

  /** `s.endsWith(suffix)`. */
  predicate EndsWith(s: string, suffix: string) {
    |suffix| <= |s| && s[|s| - |suffix|..] == suffix
  }

  lemma ContainsEmpty(s: string)
    ensures Contains(s, "")
  {
    assert OccursAt(s, "", 0);
  }

  lemma ContainsItself(s: string)
    ensures Contains(s, s)
  {
    assert OccursAt(s, s, 0);
  }

  lemma PrefixIsContained(p: string, s: string)
    ensures p <= s ==> Contains(s, p)
  {
    if p <= s {
      assert OccursAt(s, p, 0);
    }
  }

  /** `s.length`: the number of UTF-16 code units, two for a character outside the basic plane. */
  function Utf16Length(s: string): (n: nat)
    ensures |s| <= n <= 2 * |s|
  {
    if s == [] then 0 else (if s[0] as int > 0xFFFF then 2 else 1) + Utf16Length(s[1..])
  }

  lemma {:induction false} Utf16LengthBasicPlane(s: string)
    requires forall i :: 0 <= i < |s| ==> s[i] as int <= 0xFFFF
    ensures Utf16Length(s) == |s|
  {
    if s != [] {
      Utf16LengthBasicPlane(s[1..]);
    }
  }

  // ---------------------------------------------------------------------------
  // Trimming and splitting on white space

  function TrimStart(s: string): (r: string)
    ensures |r| <= |s| && r == s[|s| - |r|..]
    ensures r == [] || !IsSpace(r[0])
    ensures forall i :: 0 <= i < |s| - |r| ==> IsSpace(s[i])
  {
    if s != [] && IsSpace(s[0]) then TrimStart(s[1..]) else s
  }

  function TrimEnd(s: string): (r: string)
    ensures |r| <= |s| && r == s[..|r|]
    ensures r == [] || !IsSpace(r[|r| - 1])
    ensures forall i :: |r| <= i < |s| ==> IsSpace(s[i])
  {
    if s != [] && IsSpace(s[|s| - 1]) then TrimEnd(s[..|s| - 1]) else s
  }

  /** `r` is `s` with white space only, starting at `a`, and only white space around it. */
  predicate Surrounds(s: string, a: nat, r: string) {
    a + |r| <= |s| && r == s[a..a + |r|]
    && (forall i :: 0 <= i < a ==> IsSpace(s[i]))
    && (forall i :: a + |r| <= i < |s| ==> IsSpace(s[i]))
  }

  lemma SliceOfSlice(s: string, a: nat, n: nat)
    requires a + n <= |s|
    ensures s[a..][..n] == s[a..a + n]
  {
  }

  /** `String.prototype.trim`. */
  function Trim(s: string): (r: string)
    ensures r == [] || (!IsSpace(r[0]) && !IsSpace(r[|r| - 1]))
    ensures exists a: nat :: Surrounds(s, a, r)
  {
    var t := TrimStart(s);
    var r := TrimEnd(t);
    TrimmedSurrounds(s, t, r);
    r
  }

  /** Trimming the start and then the end leaves the middle, with white space around it. */
  lemma TrimmedSurrounds(s: string, t: string, r: string)
    requires |t| <= |s| && t == s[|s| - |t|..]
    requires forall i :: 0 <= i < |s| - |t| ==> IsSpace(s[i])
    requires |r| <= |t| && r == t[..|r|]
    requires forall i :: |r| <= i < |t| ==> IsSpace(t[i])
    ensures Surrounds(s, |s| - |t|, r)
  {
    var a := |s| - |t|;
    SliceOfSlice(s, a, |r|);
    TrailingSpaceOfSuffix(s, t, |r|);
  }

  lemma TrailingSpaceOfSuffix(s: string, t: string, n: nat)
    requires |t| <= |s| && t == s[|s| - |t|..] && n <= |t|
    requires forall i :: n <= i < |t| ==> IsSpace(t[i])
    ensures forall i :: |s| - |t| + n <= i < |s| ==> IsSpace(s[i])
  {
    forall i | |s| - |t| + n <= i < |s| ensures IsSpace(s[i]) {
      assert s[i] == t[i - (|s| - |t|)];
    }
  }

  /** The position of the first white-space character at or after `i`, or `|s|`. */
  function NextSpace(s: string, i: nat): (k: nat)
    requires i <= |s|
    ensures i <= k <= |s|
    ensures k < |s| ==> IsSpace(s[k])
    ensures forall j :: i <= j < k ==> !IsSpace(s[j])
    decreases |s| - i
  {
    if i == |s| || IsSpace(s[i]) then i else NextSpace(s, i + 1)
  }

  /** The end of the run of white space that starts at `i`. */
  function SkipSpaces(s: string, i: nat): (k: nat)
    requires i <= |s|
    ensures i <= k <= |s|
    ensures k < |s| ==> !IsSpace(s[k])
    ensures forall j :: i <= j < k ==> IsSpace(s[j])
    decreases |s| - i
  {
    if i < |s| && IsSpace(s[i]) then SkipSpaces(s, i + 1) else i
  }

  /** `s.split(/\s+/)`: the pieces between maximal runs of white space. A leading (trailing)
      run yields an empty first (last) piece, and the empty string yields `[""]`. */
  function SplitOnSpaces(s: string): (parts: seq<string>)
    ensures |parts| >= 1
    ensures forall k, j :: 0 <= k < |parts| && 0 <= j < |parts[k]| ==> !IsSpace(parts[k][j])
    decreases |s|
  {
    var k := NextSpace(s, 0);
    if k == |s| then [s] else [s[..k]] + SplitOnSpaces(s[SkipSpaces(s, k)..])
  }

  /** White space at the start of the text makes the first piece empty. */
  lemma SplitLeadingSpace(s: string)
    requires s != [] && IsSpace(s[0])
    ensures SplitOnSpaces(s)[0] == ""
  {
  }

  /** White space at the end of the text makes the last piece empty. */
  lemma {:induction false} SplitTrailingSpace(s: string)
    requires s != [] && IsSpace(s[|s| - 1])
    ensures SplitOnSpaces(s)[|SplitOnSpaces(s)| - 1] == ""
    decreases |s|
  {
    var k := NextSpace(s, 0);
    var j := SkipSpaces(s, k);
    if j < |s| {
      SplitTrailingSpace(s[j..]);
    } else {
      assert s[j..] == "";
    }
  }

  lemma AppendAssoc<T>(x: seq<T>, y: seq<T>, z: seq<T>)
    ensures x + (y + z) == (x + y) + z
  {
  }

  lemma ConsTail<T>(s: seq<T>)
    requires s != []
    ensures [s[0]] + s[1..] == s
  {
  }

  /** The pieces of a split written one after the other. */
  function Concat(parts: seq<string>): string {
    if parts == [] then "" else parts[0] + Concat(parts[1..])
  }

  /** `s` with every white-space character removed. */
  function WithoutSpaces(s: string): string {
    if s == [] then "" else (if IsSpace(s[0]) then "" else [s[0]]) + WithoutSpaces(s[1..])
  }

  /** The number of maximal runs of white space in `s`, each counted at its first character;
      `afterSpace` says whether the text before `s` ended in white space. */
  function SpaceRuns(s: string, afterSpace: bool): nat {
    if s == [] then 0
    else (if IsSpace(s[0]) && !afterSpace then 1 else 0) + SpaceRuns(s[1..], IsSpace(s[0]))
  }

  /** Text that starts a word does not continue a run. */
  lemma SpaceRunsAtWord(a: string)
    requires a == [] || !IsSpace(a[0])
    ensures SpaceRuns(a, true) == SpaceRuns(a, false)
  {
  }

  /** Dropping a stretch without white space from the front of `s[i..]`. */
  lemma {:induction false} SkipWord(s: string, i: nat, k: nat)
    requires i <= k <= |s| && forall m :: i <= m < k ==> !IsSpace(s[m])
    ensures WithoutSpaces(s[i..]) == s[i..k] + WithoutSpaces(s[k..])
    decreases k - i
  {
    if i < k {
      SkipWord(s, i + 1, k);
      assert s[i..][0] == s[i] && s[i..][1..] == s[i + 1..];
      assert s[i..k] == [s[i]] + s[i + 1..k];
    }
  }

  lemma {:induction false} SkipWordRuns(s: string, i: nat, k: nat)
    requires i <= k <= |s| && forall m :: i <= m < k ==> !IsSpace(s[m])
    ensures SpaceRuns(s[i..], false) == SpaceRuns(s[k..], false)
    decreases k - i
  {
    if i < k {
      SkipWordRuns(s, i + 1, k);
      assert s[i..][0] == s[i] && s[i..][1..] == s[i + 1..];
    }
  }

  /** Dropping a stretch of white space from the front of `s[i..]`. */
  lemma {:induction false} SkipBlank(s: string, i: nat, j: nat)
    requires i <= j <= |s| && forall m :: i <= m < j ==> IsSpace(s[m])
    ensures WithoutSpaces(s[i..]) == WithoutSpaces(s[j..])
    ensures SpaceRuns(s[i..], true) == SpaceRuns(s[j..], true)
    decreases j - i
  {
    if i < j {
      SkipBlank(s, i + 1, j);
      assert s[i..][0] == s[i] && s[i..][1..] == s[i + 1..];
    }
  }

  /** Joined back together, the pieces of `split(/\s+/)` are the text without its white space. */
  lemma {:induction false} SplitOnSpacesKeepsText(s: string)
    ensures Concat(SplitOnSpaces(s)) == WithoutSpaces(s)
    decreases |s|
  {
    var k := NextSpace(s, 0);
    assert s[0..] == s;
    SkipWord(s, 0, k);
    if k == |s| {
      ConcatCons(s, []);
    } else {
      var j := SkipSpaces(s, k);
      SkipBlank(s, k, j);
      SplitOnSpacesKeepsText(s[j..]);
      ConcatCons(s[..k], SplitOnSpaces(s[j..]));
    }
  }

  lemma ConcatCons(first: string, rest: seq<string>)
    ensures Concat([first] + rest) == first + Concat(rest)
  {
    assert ([first] + rest)[0] == first && ([first] + rest)[1..] == rest;
  }

  /** `split(/\s+/)` gives one piece more than the text has runs of white space. */
  lemma {:induction false} SplitOnSpacesCount(s: string)
    ensures |SplitOnSpaces(s)| == SpaceRuns(s, false) + 1
    decreases |s|
  {
    var k := NextSpace(s, 0);
    assert s[0..] == s;
    SkipWordRuns(s, 0, k);
    if k < |s| {
      var j := SkipSpaces(s, k);
      assert s[k..][0] == s[k] && s[k..][1..] == s[k + 1..];
      SkipBlank(s, k + 1, j);
      SplitOnSpacesCount(s[j..]);
      SpaceRunsAtWord(s[j..]);
    }
  }

  /** `s` with each maximal run of white space replaced by one space; `afterSpace` says
      whether the text before `s` ended in white space. */
  function Collapse(s: string, afterSpace: bool): string {
    if s == [] then ""
    else if IsSpace(s[0]) then (if afterSpace then "" else " ") + Collapse(s[1..], true)
    else [s[0]] + Collapse(s[1..], false)
  }

  /** A stretch without white space passes through `Collapse` unchanged. */
  lemma {:induction false} SkipWordCollapse(s: string, i: nat, k: nat)
    requires i <= k <= |s| && forall m :: i <= m < k ==> !IsSpace(s[m])
    ensures Collapse(s[i..], false) == s[i..k] + Collapse(s[k..], false)
    decreases k - i
  {
    if i < k {
      SkipWordCollapse(s, i + 1, k);
      assert s[i..][0] == s[i] && s[i..][1..] == s[i + 1..];
      assert s[i..k] == [s[i]] + s[i + 1..k];
    }
  }

  /** Inside a run of white space, `Collapse` adds nothing more. */
  lemma {:induction false} SkipBlankCollapse(s: string, i: nat, j: nat)
    requires i <= j <= |s| && forall m :: i <= m < j ==> IsSpace(s[m])
    ensures Collapse(s[i..], true) == Collapse(s[j..], true)
    decreases j - i
  {
    if i < j {
      SkipBlankCollapse(s, i + 1, j);
      assert s[i..][0] == s[i] && s[i..][1..] == s[i + 1..];
    }
  }

  /** Text that starts a word does not continue a run. */
  lemma CollapseAtWord(a: string)
    requires a == [] || !IsSpace(a[0])
    ensures Collapse(a, true) == Collapse(a, false)
  {
  }

  /** The pieces of `split(/\s+/)` joined with single spaces are the text with each run of
      white space collapsed to one space: the cuts are exactly the runs. */
  lemma {:induction false} SplitOnSpacesCollapse(s: string)
    ensures Join(SplitOnSpaces(s), ' ') == Collapse(s, false)
    decreases |s|
  {
    var k := NextSpace(s, 0);
    assert s[0..] == s;
    SkipWordCollapse(s, 0, k);
    if k < |s| {
      var j := SkipSpaces(s, k);
      assert s[k..][0] == s[k] && s[k..][1..] == s[k + 1..];
      SkipBlankCollapse(s, k + 1, j);
      CollapseAtWord(s[j..]);
      SplitOnSpacesCollapse(s[j..]);
      var rest := SplitOnSpaces(s[j..]);
      assert SplitOnSpaces(s) == [s[..k]] + rest;
      JoinCons(s[..k], rest, ' ');
      assert Collapse(s[k..], false) == " " + Collapse(s[j..], false);
      assert s[0..k] == s[..k];
      AppendAssoc(s[..k], " ", Join(rest, ' '));
    }
  }

  /** Pieces free of the separator are recovered by splitting their join. */
  lemma {:induction false} SplitJoin(parts: seq<string>, sep: char)
    requires parts != []
    requires forall k :: 0 <= k < |parts| ==> sep !in parts[k]
    ensures Split(Join(parts, sep), sep) == parts
  {
    if |parts| == 1 {
      assert IndexOf(parts[0], sep) == |parts[0]|;
    } else {
      assert parts == [parts[0]] + parts[1..];
      JoinCons(parts[0], parts[1..], sep);
      SplitAfterFirst(parts[0], sep, Join(parts[1..], sep));
      SplitJoin(parts[1..], sep);
    }
  }

  /** `split(/\s+/)` is splitting on single spaces once every run of white space has been
      collapsed to one space, so its pieces are fixed by the text. */
  lemma SplitOnSpacesIsSplit(s: string)
    ensures SplitOnSpaces(s) == Split(Collapse(s, false), ' ')
  {
    var parts := SplitOnSpaces(s);
    SplitOnSpacesCollapse(s);
    forall k | 0 <= k < |parts| ensures ' ' !in parts[k] {
      assert IsSpace(' ');
    }
    SplitJoin(parts, ' ');
  }

  /** `s.toLowerCase().split(/\s+/)`, the terms both the ranker (from the trimmed query)
      and the limiter (from the input box as typed) work with: the lower-cased text cut at
      its runs of white space, which it keeps none of. */
  function LowerTerms(s: string): (terms: seq<string>)
    ensures forall k, j :: 0 <= k < |terms| && 0 <= j < |terms[k]| ==> !IsSpace(terms[k][j])
    ensures Concat(terms) == WithoutSpaces(Lower(s))
    ensures |terms| == SpaceRuns(Lower(s), false) + 1
    ensures Join(terms, ' ') == Collapse(Lower(s), false)
    ensures terms == Split(Collapse(Lower(s), false), ' ')
  {
    SplitOnSpacesKeepsText(Lower(s));
    SplitOnSpacesCount(Lower(s));
    SplitOnSpacesCollapse(Lower(s));
    SplitOnSpacesIsSplit(Lower(s));
    SplitOnSpaces(Lower(s))
  }

  /** Text without white space at either end splits into non-empty pieces. */
  lemma {:induction false} SplitTrimmedHasNoEmptyPiece(s: string)
    requires s != [] && !IsSpace(s[0]) && !IsSpace(s[|s| - 1])
    ensures forall k :: 0 <= k < |SplitOnSpaces(s)| ==> SplitOnSpaces(s)[k] != ""
    decreases |s|
  {
    var k := NextSpace(s, 0);
    if k < |s| {
      var j := SkipSpaces(s, k);
      assert j < |s|;
      SplitTrimmedHasNoEmptyPiece(s[j..]);
    }
  }

  // ---------------------------------------------------------------------------
  // Splitting on a separator character

  /** The position of the first `c` in `s`, or `|s|`. */
  function IndexOf(s: string, c: char): (k: nat)
    ensures k <= |s|
    ensures k < |s| ==> s[k] == c
    ensures forall i :: 0 <= i < k ==> s[i] != c
  {
    if s == [] || s[0] == c then 0 else 1 + IndexOf(s[1..], c)
  }

  /** `s.split(sep)` for a one-character separator. */
  function Split(s: string, sep: char): (parts: seq<string>)
    ensures |parts| >= 1
    decreases |s|
  {
    var k := IndexOf(s, sep);
    if k == |s| then [s] else [s[..k]] + Split(s[k + 1..], sep)
  }

  /** No piece of a split holds the separator. */
  lemma {:induction false} SplitPiecesLackSeparator(s: string, sep: char)
    ensures forall k :: 0 <= k < |Split(s, sep)| ==> sep !in Split(s, sep)[k]
    decreases |s|
  {
    var k := IndexOf(s, sep);
    if k < |s| {
      SplitPiecesLackSeparator(s[k + 1..], sep);
      SplitAtFirst(s, sep);
      assert sep !in s[..k];
    } else {
      assert Split(s, sep) == [s];
    }
  }

  /** `parts.join(sep)`. */
  function Join(parts: seq<string>, sep: char): string {
    if parts == [] then ""
    else if |parts| == 1 then parts[0]
    else parts[0] + [sep] + Join(parts[1..], sep)
  }

  /** The number of occurrences of `c` in `s`. */
  function Occurrences(s: string, c: char): nat {
    if s == [] then 0 else (if s[0] == c then 1 else 0) + Occurrences(s[1..], c)
  }

  lemma {:induction false} OccurrencesAppend(a: string, b: string, c: char)
    ensures Occurrences(a + b, c) == Occurrences(a, c) + Occurrences(b, c)
  {
    if a != [] {
      assert (a + b)[0] == a[0] && (a + b)[1..] == a[1..] + b;
      OccurrencesAppend(a[1..], b, c);
    } else {
      assert a + b == b;
    }
  }

  lemma {:induction false} OccurrencesAbsent(s: string, c: char)
    requires c !in s
    ensures Occurrences(s, c) == 0
  {
    if s != [] {
      OccurrencesAbsent(s[1..], c);
    }
  }

  /** Joining the pieces of a split gives back the text. */
  lemma {:induction false} JoinSplit(s: string, sep: char)
    ensures Join(Split(s, sep), sep) == s
    decreases |s|
  {
    var k := IndexOf(s, sep);
    if k < |s| {
      var first, rest := s[..k], s[k + 1..];
      var parts := Split(rest, sep);
      JoinSplit(rest, sep);
      SplitAtFirst(s, sep);
      JoinCons(first, parts, sep);
      assert Join(Split(s, sep), sep) == first + [sep] + rest;
      Recompose(s, k);
    }
  }

  lemma Recompose(s: string, k: nat)
    requires k < |s|
    ensures s[..k] + [s[k]] + s[k + 1..] == s
  {
  }

  lemma SplitAtFirst(s: string, sep: char)
    requires IndexOf(s, sep) < |s|
    ensures Split(s, sep) == [s[..IndexOf(s, sep)]] + Split(s[IndexOf(s, sep) + 1..], sep)
  {
  }

  lemma JoinCons(first: string, rest: seq<string>, sep: char)
    requires rest != []
    ensures Join([first] + rest, sep) == first + [sep] + Join(rest, sep)
  {
    assert ([first] + rest)[0] == first && ([first] + rest)[1..] == rest;
  }

  /** A split has one piece more than the text has separators. */
  lemma {:induction false} SplitLength(s: string, sep: char)
    ensures |Split(s, sep)| == Occurrences(s, sep) + 1
    decreases |s|
  {
    var k := IndexOf(s, sep);
    assert s == s[..k] + s[k..];
    OccurrencesAppend(s[..k], s[k..], sep);
    OccurrencesAbsent(s[..k], sep);
    if k == |s| {
      assert s[k..] == [];
    } else {
      assert s[k..] == [sep] + s[k + 1..];
      OccurrencesAppend([sep], s[k + 1..], sep);
      SplitLength(s[k + 1..], sep);
    }
  }

  /** Splitting `a + sep + b` where `a` holds no separator. */
  lemma SplitAfterFirst(a: string, sep: char, b: string)
    requires sep !in a
    ensures Split(a + [sep] + b, sep) == [a] + Split(b, sep)
  {
    var s := a + [sep] + b;
    assert s[|a|] == sep;
    assert IndexOf(s, sep) == |a|;
    assert s[..|a|] == a && s[|a| + 1..] == b;
  }

  // ---------------------------------------------------------------------------
  // Decimal notation

  function DigitChar(d: nat): (c: char)
    requires d < 10
    ensures '0' <= c <= '9'
  {
    ('0' as int + d) as char
  }

  /** `String(n)` for a non-negative integer. */
  function NatToString(n: nat): (s: string)
    ensures |s| >= 1
    ensures forall i :: 0 <= i < |s| ==> '0' <= s[i] <= '9'
    ensures n < 10 <==> |s| == 1
  {
    if n < 10 then [DigitChar(n)] else NatToString(n / 10) + [DigitChar(n % 10)]
  }

  /** `String(n)` for an integer: a minus sign, then the digits of its magnitude. */
  function IntToString(n: int): (s: string)
    ensures n >= 0 ==> '-' !in s
    ensures n < 0 ==> |s| >= 2 && s[0] == '-' && '-' !in s[1..]
  {
    if n < 0 then "-" + NatToString(-n) else NatToString(n)
  }

  /** Different numbers have different decimal notations. */
  lemma {:induction false} NatToStringInjective(a: nat, b: nat)
    requires NatToString(a) == NatToString(b)
    ensures a == b
    decreases a
  {
    var s := NatToString(a);
    if a >= 10 && b >= 10 {
      assert NatToString(a / 10) == s[..|s| - 1] == NatToString(b / 10);
      NatToStringInjective(a / 10, b / 10);
      assert DigitChar(a % 10) == s[|s| - 1] == DigitChar(b % 10);
    }
  }
}
