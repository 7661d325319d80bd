/** Byte-string helpers: the few functions of Go's `strings` package that the codecs use. */
module Text {

  datatype Option<+T> = None | Some(value: T)

  datatype Result<+T> = Ok(value: T) | Err(error: string)

  /** What a parser loop will return when `out` is collected and `rest` is what the remaining input gives. */
  ghost function Prepend<T>(out: seq<T>, rest: Result<seq<T>>): (r: Result<seq<T>>)
    ensures out == [] ==> r == rest
  {
    if rest.Err? then rest else
    assert [] + rest.value == rest.value;
    Ok(out + rest.value)
  }

  /** Position of the first `c`, or -1. */
  function Index(s: string, c: char): (i: int)
    ensures -1 <= i < |s|
    ensures i >= 0 ==> s[i] == c && c !in s[..i]
    ensures i == -1 <==> c !in s
  {
    if s == "" then -1
    else if s[0] == c then 0
    else
      var j := Index(s[1..], c);
      assert s == [s[0]] + s[1..];
      if j == -1 then -1 else
      assert s[..j + 1] == [s[0]] + s[1..][..j];
      j + 1
  }

  /** Position of the last `c`, or -1. */
  function LastIndex(s: string, c: char): (i: int)
    ensures -1 <= i < |s|
    ensures i >= 0 ==> s[i] == c && c !in s[i + 1..]
    ensures i == -1 <==> c !in s
  {
    if s == "" then -1
    else if s[|s| - 1] == c then |s| - 1
    else
      var j := LastIndex(s[..|s| - 1], c);
      assert s == s[..|s| - 1] + [s[|s| - 1]];
      if j == -1 then -1 else
      assert s[j + 1..] == s[..|s| - 1][j + 1..] + [s[|s| - 1]];
      j
  }

  /** A first occurrence found after a prefix without `c`. */
  lemma {:induction false} IndexAfter(a: string, c: char, b: string)
    requires c !in a
    ensures Index(a + [c] + b, c) == |a|
  {
    hide Index;
    var s := a + [c] + b;
    assert s[|a|] == c;
    assert forall j :: 0 <= j < |a| ==> s[j] == a[j];
    FirstIndexUnique(s, c, |a|);
  }

  /** Text is cut in one way at the first occurrence of `c`. */
  lemma CutUnique(a: string, x: string, b: string, y: string, c: char)
    requires a + [c] + x == b + [c] + y && c !in a && c !in b
    ensures a == b && x == y
  {
    hide Index;
    IndexAfter(a, c, x);
    IndexAfter(b, c, y);
    var s := a + [c] + x;
    assert s[..|a|] == a && s[..|b|] == b;
    assert s[|a| + 1..] == x && s[|b| + 1..] == y;
  }

  lemma {:induction false} FirstIndexUnique(s: string, c: char, k: nat)
    requires k < |s| && s[k] == c && forall j :: 0 <= j < k ==> s[j] != c
    ensures Index(s, c) == k
  {
    if k > 0 {
      FirstIndexUnique(s[1..], c, k - 1);
    }
  }

  lemma {:induction false} LastIndexUnique(s: string, c: char, k: nat)
    requires k < |s| && s[k] == c && forall j :: k < j < |s| ==> s[j] != c
    ensures LastIndex(s, c) == k
  {
    if k < |s| - 1 {
      LastIndexUnique(s[..|s| - 1], c, k);
    }
  }

  /** A last occurrence found before a suffix without `c`. */
  lemma {:induction false} LastIndexBefore(a: string, c: char, b: string)
    requires c !in b
    ensures LastIndex(a + [c] + b, c) == |a|
  {
    hide LastIndex;
    var s := a + [c] + b;
    assert s[|a|] == c;
    forall j | |a| < j < |s| ensures s[j] != c {
      assert s[j] == b[j - |a| - 1];
    }
    LastIndexUnique(s, c, |a|);
  }

  predicate HasPrefix(s: string, prefix: string) {
    |prefix| <= |s| && s[..|prefix|] == prefix
  }

  /** ASCII case folding, as `strings.EqualFold` does on ASCII text. */
  function LowerChar(c: char): char {
    if 'A' <= c <= 'Z' then (c as int + 32) as char else c
  }

  predicate EqualFold(a: string, b: string) {
    |a| == |b| && forall i :: 0 <= i < |a| ==> LowerChar(a[i]) == LowerChar(b[i])
  }

  const UPPER := "ABCDEFGHIJKLMNOPQRSTUVWXYZ"
  const LOWER := "abcdefghijklmnopqrstuvwxyz"

  /** The same character, or the two forms of one letter. */
  ghost predicate SameLetter(c: char, d: char) {
    c == d || exists k :: 0 <= k < |UPPER| && ((c == UPPER[k] && d == LOWER[k]) || (c == LOWER[k] && d == UPPER[k]))
  }

  lemma LetterCount()
    ensures |UPPER| == |LOWER| == 26
  {}

  lemma LettersAt(k: nat)
    requires k < 26
    ensures |UPPER| == |LOWER| == 26 && UPPER[k] == ('A' as int + k) as char && LOWER[k] == ('a' as int + k) as char
  {}

  lemma FoldedIsSame(c: char, d: char)
    requires LowerChar(c) == LowerChar(d)
    ensures SameLetter(c, d)
  {
    hide UPPER, LOWER;
    LetterCount();
    if 'A' <= c <= 'Z' { LettersAt(c as int - 'A' as int); }
    if 'A' <= d <= 'Z' { LettersAt(d as int - 'A' as int); }
  }

  lemma SameIsFolded(c: char, d: char)
    requires SameLetter(c, d)
    ensures LowerChar(c) == LowerChar(d)
  {
    hide UPPER, LOWER;
    LetterCount();
    if c != d {
      var k :| 0 <= k < |UPPER| && ((c == UPPER[k] && d == LOWER[k]) || (c == LOWER[k] && d == UPPER[k]));
      LettersAt(k);
    }
  }

  /** Folding ignores the case of ASCII letters, and nothing else. */
  lemma FoldIff(a: string, b: string)
    ensures EqualFold(a, b) <==> |a| == |b| && forall i :: 0 <= i < |a| ==> SameLetter(a[i], b[i])
  {
    hide LowerChar, SameLetter;
    forall i | 0 <= i < |a| == |b| ensures LowerChar(a[i]) == LowerChar(b[i]) <==> SameLetter(a[i], b[i]) {
      if LowerChar(a[i]) == LowerChar(b[i]) { FoldedIsSame(a[i], b[i]); }
      if SameLetter(a[i], b[i]) { SameIsFolded(a[i], b[i]); }
    }
  }

  /** The word `true` in any mixture of cases. */
  predicate SaysTrue(s: string) {
    |s| == 4 && s[0] in "tT" && s[1] in "rR" && s[2] in "uU" && s[3] in "eE"
  }

  lemma TrueFolds(s: string)
    ensures EqualFold(s, "true") <==> SaysTrue(s)
  {}

  predicate IsAscii(s: string) {
    forall i :: 0 <= i < |s| ==> s[i] as int < 128
  }

  predicate IsBytes(s: string) {
    forall i :: 0 <= i < |s| ==> s[i] as int < 256
  }

  // ---- white space ----------------------------------------------------------

  predicate IsSpace(c: char) {
    c == ' ' || '\t' as int <= c as int <= '\r' as int
  }

  function TrimRight(s: string): (t: string)
    ensures |t| <= |s|
    ensures t != "" ==> !IsSpace(t[|t| - 1])
  {
    if s != "" && IsSpace(s[|s| - 1]) then TrimRight(s[..|s| - 1]) else s
  }

  function TrimLeft(s: string): (t: string)
    ensures |t| <= |s|
    ensures t != "" ==> !IsSpace(t[0])
  {
    if s != "" && IsSpace(s[0]) then TrimLeft(s[1..]) else s
  }

  /** `strings.TrimSpace` on ASCII text. */
  function Trim(s: string): (t: string)
    ensures |t| <= |s|
    ensures t != "" ==> !IsSpace(t[0])
  {
    TrimLeft(TrimRight(s))
  }

  lemma {:induction false} TrimRightPrefix(s: string)
    ensures TrimRight(s) <= s
  {
    if s != "" && IsSpace(s[|s| - 1]) { TrimRightPrefix(s[..|s| - 1]); }
  }

  lemma {:induction false} TrimLeftSuffix(s: string)
    ensures TrimLeft(s) == s[|s| - |TrimLeft(s)|..]
  {
    if s != "" && IsSpace(s[0]) { TrimLeftSuffix(s[1..]); }
  }

  /** Left trimming keeps a visible end, so both ends of the result are visible. */
  lemma TrimEnds(s: string)
    ensures Trim(s) != "" ==> !IsSpace(Trim(s)[0]) && !IsSpace(Trim(s)[|Trim(s)| - 1])
  {
    TrimLeftSuffix(TrimRight(s));
  }

  /** The ASCII white space of `strings.TrimSpace`: tab, line feed, vertical tab, form feed, carriage return and space. */
  const WHITE_SPACE := "\t\n" + [11 as char, 12 as char] + "\r "

  predicate AllWhite(s: string) {
    forall i :: 0 <= i < |s| ==> s[i] in WHITE_SPACE
  }

  lemma SpaceIff(c: char)
    ensures IsSpace(c) <==> c in WHITE_SPACE
  {
    var w := WHITE_SPACE;
    assert |w| == 6 && w[0] == '\t' && w[1] == '\n' && w[2] == 11 as char && w[3] == 12 as char && w[4] == '\r' && w[5] == ' ';
  }

  lemma {:induction false} TrimRightExact(s: string)
    ensures exists b :: s == TrimRight(s) + b && AllWhite(b)
  {
    if s != "" && IsSpace(s[|s| - 1]) {
      var init, c := s[..|s| - 1], s[|s| - 1];
      TrimRightExact(init);
      var b :| init == TrimRight(init) + b && AllWhite(b);
      SpaceIff(c);
      hide WHITE_SPACE, IsSpace;
      assert s == init + [c] && TrimRight(s) == TrimRight(init);
      assert s == TrimRight(s) + (b + [c]);
    } else {
      assert s == TrimRight(s) + "";
    }
  }

  lemma {:induction false} TrimLeftExact(s: string)
    ensures exists a :: s == a + TrimLeft(s) && AllWhite(a)
  {
    if s != "" && IsSpace(s[0]) {
      var c, rest := s[0], s[1..];
      TrimLeftExact(rest);
      var a :| rest == a + TrimLeft(rest) && AllWhite(a);
      SpaceIff(c);
      hide WHITE_SPACE, IsSpace;
      assert s == [c] + rest && TrimLeft(s) == TrimLeft(rest);
      assert s == ([c] + a) + TrimLeft(s);
    } else {
      assert s == "" + TrimLeft(s);
    }
  }

  /** Trimming takes away white space at both ends, all of it and nothing else. */
  lemma TrimExact(s: string)
    ensures exists a, b :: s == a + Trim(s) + b && AllWhite(a) && AllWhite(b)
    ensures Trim(s) != "" ==> Trim(s)[0] !in WHITE_SPACE && Trim(s)[|Trim(s)| - 1] !in WHITE_SPACE
  {
    TrimRightExact(s);
    TrimLeftExact(TrimRight(s));
    TrimEnds(s);
    hide AllWhite, TrimRight, TrimLeft;
    var b :| s == TrimRight(s) + b && AllWhite(b);
    var a :| TrimRight(s) == a + TrimLeft(TrimRight(s)) && AllWhite(a);
    assert s == a + Trim(s) + b;
    if Trim(s) != "" {
      SpaceIff(Trim(s)[0]);
      SpaceIff(Trim(s)[|Trim(s)| - 1]);
    }
  }

  lemma {:induction false} TrimRightConcat(a: string, b: string)
    ensures TrimRight(a + b) == if TrimRight(b) == "" then TrimRight(a) else a + TrimRight(b)
  {
    if b == "" {
      assert a + b == a;
    } else if IsSpace(b[|b| - 1]) {
      assert (a + b)[..|a + b| - 1] == a + b[..|b| - 1];
      TrimRightConcat(a, b[..|b| - 1]);
    } else {
      assert (a + b)[|a + b| - 1] == b[|b| - 1];
    }
  }

  lemma TrimFixed(s: string)
    requires s == "" || (!IsSpace(s[0]) && !IsSpace(s[|s| - 1]))
    ensures Trim(s) == s
  {}

  lemma {:induction false} TrimRightChars(s: string, c: char)
    requires c !in s
    ensures c !in TrimRight(s)
  {
    var r := TrimRight(s);
    TrimRightPrefix(s);
    assert forall i :: 0 <= i < |r| ==> r[i] == s[i];
  }

  lemma {:induction false} TrimLeftChars(s: string, c: char)
    requires c !in s
    ensures c !in TrimLeft(s)
  {
    var t := TrimLeft(s);
    TrimLeftSuffix(s);
    assert forall i :: 0 <= i < |t| ==> t[i] == s[|s| - |t| + i];
  }

  lemma TrimChars(s: string, c: char)
    requires c !in s
    ensures c !in Trim(s)
  {
    TrimRightChars(s, c);
    TrimLeftChars(TrimRight(s), c);
  }

  lemma TrimTwice(s: string)
    ensures Trim(Trim(s)) == Trim(s)
  {
    TrimEnds(s);
    TrimFixed(Trim(s));
  }

  /** Trimming the right end first does not change the result. */
  lemma {:induction false} TrimAfterTrimRight(s: string)
    ensures Trim(TrimRight(s)) == Trim(s)
  {}

  /** When the text starts with a visible character only its right end is trimmed. */
  lemma {:induction false} TrimVisibleStart(s: string)
    requires s != "" && !IsSpace(s[0])
    ensures Trim(s) == TrimRight(s)
    ensures Trim(s) != "" && Trim(s)[0] == s[0]
  {
    var head := s[..1];
    assert s == head + s[1..];
    TrimRightConcat(head, s[1..]);
    assert TrimRight(head) == head;
  }

  lemma {:induction false} TrimVisibleEnd(s: string)
    requires s != "" && !IsSpace(s[|s| - 1])
    ensures TrimRight(s) == s
  {}

  /** Any visible character survives trimming. */
  lemma {:induction false} VisibleInTrimRight(s: string, c: char)
    requires c in s && !IsSpace(c)
    ensures c in TrimRight(s)
  {
    if IsSpace(s[|s| - 1]) {
      assert s == s[..|s| - 1] + [s[|s| - 1]];
      VisibleInTrimRight(s[..|s| - 1], c);
    }
  }

  lemma {:induction false} VisibleInTrimLeft(s: string, c: char)
    requires c in s && !IsSpace(c)
    ensures c in TrimLeft(s)
  {
    if IsSpace(s[0]) {
      assert s == [s[0]] + s[1..];
      VisibleInTrimLeft(s[1..], c);
    }
  }

  lemma VisibleInTrim(s: string, c: char)
    requires c in s && !IsSpace(c)
    ensures c in Trim(s)
  {
    VisibleInTrimRight(s, c);
    VisibleInTrimLeft(TrimRight(s), c);
  }

  // ---- counting -------------------------------------------------------------

  function Count(s: string, c: char): nat {
    if s == "" then 0 else (if s[0] == c then 1 else 0) + Count(s[1..], c)
  }

  lemma {:induction false} CountConcat(a: string, b: string, c: char)
    ensures Count(a + b, c) == Count(a, c) + Count(b, c)
  {
    if a == "" {
      assert a + b == b;
    } else {
      assert (a + b)[1..] == a[1..] + b;
      CountConcat(a[1..], b, c);
    }
  }

  lemma {:induction false} CountZero(s: string, c: char)
    ensures Count(s, c) == 0 <==> c !in s
  {
    if s != "" {
      assert s == [s[0]] + s[1..];
      CountZero(s[1..], c);
    }
  }

  lemma {:induction false} CountTrimRight(s: string, c: char)
    requires !IsSpace(c)
    ensures Count(TrimRight(s), c) == Count(s, c)
  {
    if s != "" && IsSpace(s[|s| - 1]) {
      assert s == s[..|s| - 1] + [s[|s| - 1]];
      CountConcat(s[..|s| - 1], [s[|s| - 1]], c);
      CountTrimRight(s[..|s| - 1], c);
    }
  }

  lemma {:induction false} CountTrimLeft(s: string, c: char)
    requires !IsSpace(c)
    ensures Count(TrimLeft(s), c) == Count(s, c)
  {
    if s != "" && IsSpace(s[0]) {
      CountTrimLeft(s[1..], c);
    }
  }

  lemma {:induction false} CountTrim(s: string, c: char)
    requires !IsSpace(c)
    ensures Count(Trim(s), c) == Count(s, c)
  {
    CountTrimRight(s, c);
    CountTrimLeft(TrimRight(s), c);
  }

  // ---- joining and splitting ------------------------------------------------

  /** `strings.Join` with a one-byte separator. */
  function Join(parts: seq<string>, sep: char): string {
    if parts == [] then ""
    else if |parts| == 1 then parts[0]
    else parts[0] + [sep] + Join(parts[1..], sep)
  }

  /** `strings.Split` with a one-byte separator. */
  function Split(s: string, sep: char): (parts: seq<string>)
    ensures parts != []
    decreases |s|
  {
    var i := Index(s, sep);
    if i == -1 then [s] else [s[..i]] + Split(s[i + 1..], sep)
  }

  lemma {:induction false} SplitAfter(a: string, sep: char, b: string)
    requires sep !in a
    ensures Split(a + [sep] + b, sep) == [a] + Split(b, sep)
  {
    hide Index;
    var s := a + [sep] + b;
    IndexAfter(a, sep, b);
    assert s[..|a|] == a && s[|a| + 1..] == b;
  }

  lemma {:induction false} SplitJoin(parts: seq<string>, sep: char)
    requires parts != []
    requires forall i :: 0 <= i < |parts| ==> sep !in parts[i]
    ensures Split(Join(parts, sep), sep) == parts
  {
    hide Index;
    if |parts| > 1 {
      SplitJoin(parts[1..], sep);
      SplitAfter(parts[0], sep, Join(parts[1..], sep));
      assert parts == [parts[0]] + parts[1..];
    }
  }

  /** The joined text holds only characters of the parts, and separators. */
  lemma {:induction false} JoinChars(parts: seq<string>, sep: char, c: char)
    requires c in Join(parts, sep)
    ensures c == sep || exists p :: p in parts && c in p
  {
    if |parts| == 1 {
      assert parts[0] in parts;
    } else if parts != [] {
      assert parts[0] in parts;
      if c !in parts[0] && c != sep {
        JoinChars(parts[1..], sep, c);
      }
    }
  }
}
